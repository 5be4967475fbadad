/** The 3x3 tic-tac-toe board of tictactoe.c: nine cells in row-major order
    (position = column + 3*row), each holding the marker of a player or EMPTY.
    The queries here are read-only scans of the cells. */
module TicTacToeBoard {

  const X: char := 'X'
  const O: char := 'O'
  const EMPTY: char := '.'

  type Board = b: seq<char> | |b| == 9
    witness ['.', '.', '.', '.', '.', '.', '.', '.', '.']

  const EmptyBoard: Board := [EMPTY, EMPTY, EMPTY, EMPTY, EMPTY, EMPTY, EMPTY, EMPTY, EMPTY]

  datatype BoardState = Won | Complete | Incomplete

  datatype MoveResult = Win | Draw | Good | Bad

  /** The marker of the player who moves after `turn`. */
  function Other(turn: char): (r: char)
    ensures turn == X ==> r == O
    ensures turn != X ==> r == X
  {
    if turn == X then O else X
  }

  /** The eight lines of three cells: rows 0..2, columns 3..5, diagonals 6..7.
      This table is the reference the scans below are proved against. */
  function LineCell(t: int, k: int): (c: int)
    requires 0 <= t < 8 && 0 <= k < 3
    ensures 0 <= c < 9
  {
    if t < 3 then 3 * t + k
    else if t < 6 then (t - 3) + 3 * k
    else if t == 6 then 4 * k
    else 2 + 2 * k
  }

  predicate OnLine(b: Board, p: char, t: int)
    requires 0 <= t < 8
  {
    b[LineCell(t, 0)] == p && b[LineCell(t, 1)] == p && b[LineCell(t, 2)] == p
  }

  /** `p` holds all three cells of some row, column or diagonal. */
  predicate ThreeInARow(b: Board, p: char) {
    exists t :: 0 <= t < 8 && OnLine(b, p, t)
  }

  /** No cell is EMPTY. */
  predicate Full(b: Board) {
    forall k :: 0 <= k < 9 ==> b[k] != EMPTY
  }

  /** The scan for an EMPTY cell at position `i` or later (the first loop of
      gameboard_get_state). */
  function HasEmptyFrom(b: Board, i: nat): (r: bool)
    requires i <= 9
    ensures r <==> exists k :: i <= k < 9 && b[k] == EMPTY
    decreases 9 - i
  {
    if i == 9 then false
    else if b[i] == EMPTY then true
    else HasEmptyFrom(b, i + 1)
  }

  /** The row-and-column loop of gameboard_get_state, from index `i` on:
      row i is cells 3i, 3i+1, 3i+2 and column i is cells i, i+3, i+6. */
  function RowOrColumnFrom(b: Board, p: char, i: nat): (r: bool)
    requires i <= 3
    ensures r <==> exists t :: ((i <= t < 3) || (3 + i <= t < 6)) && OnLine(b, p, t)
    decreases 3 - i
  {
    if i == 3 then false
    else if b[3 * i] == p && b[3 * i + 1] == p && b[3 * i + 2] == p then
      assert OnLine(b, p, i);
      true
    else if b[i] == p && b[i + 3] == p && b[i + 6] == p then
      assert OnLine(b, p, 3 + i);
      true
    else
      var rest := RowOrColumnFrom(b, p, i + 1);
      assert !OnLine(b, p, i) && !OnLine(b, p, 3 + i);
      rest
  }

  /** gameboard_get_state: Won if `player` holds a whole line (even on a full
      board), otherwise Complete when no cell is EMPTY and Incomplete when one is. */
  function GetState(b: Board, player: char): (r: BoardState)
    ensures r == Won <==> ThreeInARow(b, player)
    ensures r == Complete <==> !ThreeInARow(b, player) && Full(b)
    ensures r == Incomplete <==> !ThreeInARow(b, player) && !Full(b)
  {
    var complete := !HasEmptyFrom(b, 0);
    var lines := RowOrColumnFrom(b, player, 0);
    var diagonal := b[4] == player && ((b[0] == player && b[8] == player) || (b[2] == player && b[6] == player));
    assert diagonal <==> OnLine(b, player, 6) || OnLine(b, player, 7);
    if lines then Won
    else if diagonal then Won
    else if complete then Complete
    else Incomplete
  }

  /** gameboard_would_move: a look-ahead on a copy of the board. */
  function WouldMove(b: Board, player: char, pos: int): (r: MoveResult)
    requires 0 <= pos < 9
    ensures r == Bad <==> b[pos] != EMPTY
    ensures b[pos] == EMPTY ==>
              (r == Win <==> ThreeInARow(b[pos := player], player)) &&
              (r == Draw <==> !ThreeInARow(b[pos := player], player) && Full(b[pos := player])) &&
              (r == Good <==> !ThreeInARow(b[pos := player], player) && !Full(b[pos := player]))
  {
    if b[pos] != EMPTY then Bad
    else
      var config := b[pos := player];
      var state := GetState(config, player);
      if state == Won then Win else if state == Complete then Draw else Good
  }

  /** The positions of the EMPTY cells below `i`, in ascending order
      (EmptyBelowFacts). */
  function EmptyBelow(b: Board, i: nat): seq<int>
    requires i <= 9
  {
    if i == 0 then []
    else if b[i - 1] == EMPTY then EmptyBelow(b, i - 1) + [i - 1]
    else EmptyBelow(b, i - 1)
  }

  /** EmptyBelow(b, i) lists exactly the EMPTY cells below `i`, strictly
      ascending. */
  lemma {:induction false} EmptyBelowFacts(b: Board, i: nat)
    requires i <= 9
    ensures forall k :: 0 <= k < |EmptyBelow(b, i)| ==> 0 <= EmptyBelow(b, i)[k] < i && b[EmptyBelow(b, i)[k]] == EMPTY
    ensures forall k, l :: 0 <= k < l < |EmptyBelow(b, i)| ==> EmptyBelow(b, i)[k] < EmptyBelow(b, i)[l]
    ensures forall c :: 0 <= c < i && b[c] == EMPTY ==> c in EmptyBelow(b, i)
    decreases i
  {
    if i > 0 {
      EmptyBelowFacts(b, i - 1);
      var ps := EmptyBelow(b, i - 1);
      if b[i - 1] == EMPTY {
        assert EmptyBelow(b, i) == ps + [i - 1];
      } else {
        assert EmptyBelow(b, i) == ps;
      }
    }
  }

  /** The EMPTY cells of the board, ascending: the moves open to the next player. */
  function EmptyPositions(b: Board): (ps: seq<int>)
    ensures forall k :: 0 <= k < |ps| ==> 0 <= ps[k] < 9
  {
    var ps := EmptyBelow(b, 9);
    EmptyBelowFacts(b, 9);
    ps
  }

  function CountEmptyFrom(b: Board, i: nat): (c: nat)
    requires i <= 9
    decreases 9 - i
  {
    if i == 9 then 0
    else (if b[i] == EMPTY then 1 else 0) + CountEmptyFrom(b, i + 1)
  }

  lemma {:induction false} CountEmptySplit(b: Board, i: nat)
    requires i <= 9
    ensures |EmptyBelow(b, i)| + CountEmptyFrom(b, i) == CountEmptyFrom(b, 0)
    decreases i
  {
    if i > 0 {
      CountEmptySplit(b, i - 1);
    }
  }

  /** gameboard_count_empty: the number of EMPTY cells, which is the number
      of open moves; it is zero exactly when the board is full. */
  function CountEmpty(b: Board): (c: nat)
    ensures c == |EmptyPositions(b)|
    ensures c <= 9
    ensures c == 0 <==> Full(b)
  {
    CountEmptySplit(b, 9);
    EmptyPositionsFacts(b);
    CountEmptyFrom(b, 0)
  }

  lemma EmptyPositionsFacts(b: Board)
    ensures forall k :: 0 <= k < |EmptyPositions(b)| ==> b[EmptyPositions(b)[k]] == EMPTY
    ensures forall k, l :: 0 <= k < l < |EmptyPositions(b)| ==> EmptyPositions(b)[k] < EmptyPositions(b)[l]
    ensures forall c :: 0 <= c < 9 && b[c] == EMPTY ==> c in EmptyPositions(b)
    ensures |EmptyPositions(b)| <= 9
    ensures |EmptyPositions(b)| == 0 <==> Full(b)
  {
    var ps := EmptyPositions(b);
    EmptyBelowFacts(b, 9);
    if !Full(b) {
      var k :| 0 <= k < 9 && b[k] == EMPTY;
      assert k in ps;
    }
    if |ps| > 0 {
      assert b[ps[0]] == EMPTY;
    }
    UniqueAscendingBound(ps, 9);
  }

  /** A strictly ascending sequence of values in [0, n) has at most n elements. */
  lemma {:induction false} UniqueAscendingBound(ps: seq<int>, n: int)
    requires 0 <= n
    requires forall k :: 0 <= k < |ps| ==> 0 <= ps[k] < n
    requires forall k, l :: 0 <= k < l < |ps| ==> ps[k] < ps[l]
    ensures |ps| <= n
    decreases |ps|
  {
    if |ps| > 0 {
      var last := ps[|ps| - 1];
      var init := ps[..|ps| - 1];
      assert forall k :: 0 <= k < |init| ==> 0 <= init[k] < last by {
        forall k | 0 <= k < |init| ensures 0 <= init[k] < last {
          assert init[k] == ps[k];
        }
      }
      UniqueAscendingBound(init, last);
    }
  }

  /** A board with a cell set to a marker has one EMPTY cell fewer. */
  lemma {:induction false} FillDecreasesEmpty(b: Board, pos: int, p: char)
    requires 0 <= pos < 9 && b[pos] == EMPTY && p != EMPTY
    ensures CountEmpty(b[pos := p]) == CountEmpty(b) - 1
  {
    FillFrom(b, pos, p, 0);
    assert CountEmpty(b[pos := p]) == CountEmptyFrom(b[pos := p], 0) by {
      CountEmptySplit(b[pos := p], 9);
    }
    assert CountEmpty(b) == CountEmptyFrom(b, 0) by {
      CountEmptySplit(b, 9);
    }
  }

  lemma {:induction false} FillFrom(b: Board, pos: int, p: char, i: nat)
    requires 0 <= pos < 9 && b[pos] == EMPTY && p != EMPTY && i <= 9
    ensures CountEmptyFrom(b[pos := p], i) == CountEmptyFrom(b, i) - (if i <= pos then 1 else 0)
    decreases 9 - i
  {
    if i < 9 {
      FillFrom(b, pos, p, i + 1);
    }
  }

  /** A marker put on a cell cannot complete a line of another player. */
  lemma FillKeepsLinesOfOther(b: Board, pos: int, p: char, q: char)
    requires 0 <= pos < 9 && p != q
    requires ThreeInARow(b[pos := p], q)
    ensures ThreeInARow(b, q)
  {
    var t :| 0 <= t < 8 && OnLine(b[pos := p], q, t);
    assert OnLine(b, q, t);
  }

  /** No player holds a line of the empty board. */
  lemma EmptyBoardHasNoLine(p: char)
    requires p != EMPTY
    ensures !ThreeInARow(EmptyBoard, p)
  {
    forall t | 0 <= t < 8
      ensures !OnLine(EmptyBoard, p, t)
    {
      assert EmptyBoard[LineCell(t, 0)] == EMPTY;
    }
  }

  /** gameboard_init: every cell becomes EMPTY. */
  method Init(board: array<char>)
    requires board.Length == 9
    modifies board
    ensures board[..] == EmptyBoard
  {
    var i := 0;
    while i < 9
      invariant 0 <= i <= 9
      invariant forall k :: 0 <= k < i ==> board[k] == EMPTY
    {
      board[i] := EMPTY;
      i := i + 1;
    }
  }

  /** Two boards agree on the cells from `i` up to (not including) `k`. */
  predicate AgreeBetween(l: Board, r: Board, i: nat, k: nat)
    requires i <= k <= 9
  {
    l[i..k] == r[i..k]
  }

  /** The scan of compar_board from cell `i` on: -1, 0 or 1. */
  function CompareFrom(l: Board, r: Board, i: nat): (c: int)
    requires i <= 9
    ensures c == 0 || c == 1 || c == -1
    ensures c == 0 <==> l[i..] == r[i..]
    ensures c == -1 <==> exists k :: i <= k < 9 && AgreeBetween(l, r, i, k) && l[k] < r[k]
    ensures c == 1 <==> exists k :: i <= k < 9 && AgreeBetween(l, r, i, k) && l[k] > r[k]
    decreases 9 - i
  {
    if i == 9 then 0
    else if l[i] < r[i] then
      assert AgreeBetween(l, r, i, i);
      AgreeHead(l, r, i);
      -1
    else if l[i] > r[i] then
      assert AgreeBetween(l, r, i, i);
      AgreeHead(l, r, i);
      1
    else
      var c := CompareFrom(l, r, i + 1);
      AgreeShift(l, r, i);
      c
  }

  /** Boards that agree on a non-empty stretch from i agree at i. */
  lemma AgreeHead(l: Board, r: Board, i: nat)
    requires i < 9
    ensures forall k :: i < k <= 9 && AgreeBetween(l, r, i, k) ==> l[i] == r[i]
  {
    forall k | i < k <= 9 && AgreeBetween(l, r, i, k)
      ensures l[i] == r[i]
    {
      assert l[i..k][0] == r[i..k][0];
    }
  }

  /** Equal cells at i: agreement from i is agreement from i + 1. */
  lemma AgreeShift(l: Board, r: Board, i: nat)
    requires i < 9 && l[i] == r[i]
    ensures l[i..] == r[i..] <==> l[i + 1..] == r[i + 1..]
    ensures forall k :: i < k <= 9 ==> (AgreeBetween(l, r, i, k) <==> AgreeBetween(l, r, i + 1, k))
  {
    assert l[i..] == [l[i]] + l[i + 1..] && r[i..] == [r[i]] + r[i + 1..];
    forall k | i < k <= 9
      ensures AgreeBetween(l, r, i, k) <==> AgreeBetween(l, r, i + 1, k)
    {
      assert l[i..k] == [l[i]] + l[i + 1..k] && r[i..k] == [r[i]] + r[i + 1..k];
    }
  }

  /** compar_board: lexicographic comparison of the cells' character codes. */
  function Compare(l: Board, r: Board): (c: int)
    ensures c == 0 <==> l == r
    ensures c < 0 <==> exists k :: 0 <= k < 9 && AgreeBetween(l, r, 0, k) && l[k] < r[k]
  {
    assert l[0..] == l && r[0..] == r;
    CompareFrom(l, r, 0)
  }

  /** compar_board is antisymmetric: swapping the arguments negates it. */
  lemma {:induction false} CompareAntisymmetric(l: Board, r: Board)
    ensures Compare(l, r) == -Compare(r, l)
  {
    CompareFromAntisymmetric(l, r, 0);
  }

  lemma {:induction false} CompareFromAntisymmetric(l: Board, r: Board, i: nat)
    requires i <= 9
    ensures CompareFrom(l, r, i) == -CompareFrom(r, l, i)
    decreases 9 - i
  {
    if i < 9 && l[i] == r[i] {
      CompareFromAntisymmetric(l, r, i + 1);
    }
  }

  /** compar_board is transitive, so with antisymmetry and "0 exactly on equal
      boards" it is the total order the knowledge map needs. */
  lemma {:induction false} CompareTransitive(a: Board, b: Board, c: Board)
    requires Compare(a, b) < 0 && Compare(b, c) < 0
    ensures Compare(a, c) < 0
  {
    CompareFromTransitive(a, b, c, 0);
  }

  lemma {:induction false} CompareFromTransitive(a: Board, b: Board, c: Board, i: nat)
    requires i <= 9
    requires CompareFrom(a, b, i) < 0 && CompareFrom(b, c, i) < 0
    ensures CompareFrom(a, c, i) < 0
    decreases 9 - i
  {
    if i < 9 && a[i] == b[i] && b[i] == c[i] {
      CompareFromTransitive(a, b, c, i + 1);
    }
  }

  /** A look-ahead example: with X on cells 0 and 1 and O in the centre,
      X playing cell 2 wins. */
  lemma WouldMoveExample()
    ensures WouldMove([X, X, EMPTY, EMPTY, O, EMPTY, EMPTY, EMPTY, EMPTY], X, 2) == Win
  {
    var b: Board := [X, X, EMPTY, EMPTY, O, EMPTY, EMPTY, EMPTY, EMPTY];
    assert OnLine(b[2 := X], X, 0);
  }
}
