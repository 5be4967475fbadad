/**
 * What one player has learned: the node it answers the empty board with
 * (knowledge_new), the nodes it has made for every configuration it has
 * had to answer (the `reactions` tree, keyed by the board as compar_board
 * orders it), and the node it is playing from now.
 */
module Knowledge {
  import opened TicTacToeBoard
  import opened TurnNodes

  /** Each learned node belongs to the configuration it is filed under and
      offers exactly that configuration's EMPTY cells. */
  ghost predicate Indexed(m: map<Board, TurnNode>) {
    forall b {:trigger m[b].Consistent()} :: b in m ==> m[b].board == b && m[b].Consistent()
  }

  /** Every key of `a` is still in `b`, bound to the same node. */
  ghost predicate Kept(a: map<Board, TurnNode>, b: map<Board, TurnNode>) {
    forall k :: k in a ==> k in b && b[k] == a[k]
  }

  /** A node has been moved from at least once; this is never undone. */
  ghost predicate HasMoved(n: TurnNode)
    reads n
  {
    n.lastMove >= 0
  }

  /** Every decision of `n` is an EMPTY cell of `b`. */
  ghost predicate Playable(n: TurnNode, b: seq<char>)
    reads n
  {
    |n.moves| > 0 && forall k :: 0 <= k < |n.moves| ==> 0 <= n.moves[k] < |b| && b[n.moves[k]] == EMPTY
  }

  class Knowledge {
    /** The node made by knowledge_new: the empty board for X, no decisions otherwise. */
    const first: TurnNode
    /** The learned reactions, one node per configuration met. */
    var reactions: map<Board, TurnNode>
    /** The node the player moves from next. */
    var node: TurnNode

    /** The nodes learned so far: `first` and the reactions. */
    ghost var nodes: set<TurnNode>

    ghost predicate Valid()
      reads this, nodes
    {
      && nodes == {first} + reactions.Values
      && node in nodes
      && first.board == EmptyBoard
      && (forall n {:trigger n.Valid()} :: n in nodes ==> n.Valid())
      && Indexed(reactions)
    }

    /** knowledge_new: X starts from the node of the empty board, O from a
        node without decisions; the reaction tree starts empty. */
    constructor (player: char)
      ensures Valid() && fresh(nodes)
      ensures reactions == map[] && node == first
      ensures player == X ==> first.InitialFor(EmptyBoard) && first.Consistent()
      ensures player != X ==> first.actions == [] && first.lastMove == -1
    {
      if player == X {
        first := new TurnNode.New(EmptyBoard);
      } else {
        first := new TurnNode.FromNone();
      }
      reactions := map[];
      node := first;
      nodes := {first};
    }

    /** get_move_reaction: the node learned for `b`, made with
        turn_node_new and inserted when `b` is met for the first time. */
    method GetMoveReaction(b: Board) returns (n: TurnNode)
      requires Valid()
      modifies this
      ensures Valid() && node == old(node)
      ensures b in reactions && n == reactions[b]
      ensures b in old(reactions) ==> reactions == old(reactions)
      ensures b !in old(reactions) ==> fresh(n) && n.InitialFor(b) && reactions == old(reactions)[b := n]
    {
      if b in reactions {
        n := reactions[b];
      } else {
        n := new TurnNode.New(b);
        ValuesInsert(reactions, b, n);
        reactions := reactions[b := n];
        nodes := nodes + {n};
      }
    }
  }

  /** Binding a new key adds exactly its value to the values of a map. */
  lemma ValuesInsert(m: map<Board, TurnNode>, k: Board, v: TurnNode)
    requires k !in m
    ensures m[k := v].Values == m.Values + {v}
  {
    forall x | x in m[k := v].Values
      ensures x in m.Values + {v}
    {
      var j :| j in m[k := v] && m[k := v][j] == x;
      if j != k {
        assert m[j] == x;
      }
    }
    forall x | x in m.Values
      ensures x in m[k := v].Values
    {
      var j :| j in m && m[j] == x;
      assert m[k := v][j] == x;
    }
    assert m[k := v][k] == v;
  }

  /** Every node made for a configuration that is not over offers a move on it. */
  lemma ReactionPlayable(k: Knowledge, b: Board)
    requires k.Valid() && b in k.reactions && !Full(b)
    ensures Playable(k.reactions[b], b)
  {
    EmptyPositionsFacts(b);
    assert k.reactions[b].Consistent();
  }

  /** Every marker on `a` is still in place on `c`. */
  predicate Extends(a: seq<char>, c: seq<char>) {
    |a| == |c| && forall k :: 0 <= k < |a| && a[k] != EMPTY ==> c[k] == a[k]
  }

  lemma FillExtends(b: Board, pos: int, p: char)
    requires 0 <= pos < 9 && b[pos] == EMPTY
    ensures Extends(b, b[pos := p])
  {
  }

  lemma ExtendsTransitive(a: seq<char>, b: seq<char>, c: seq<char>)
    requires Extends(a, b) && Extends(b, c)
    ensures Extends(a, c)
  {
  }

  /** The nodes of either tree that the rest of a game on a board with
      `empty` EMPTY cells can move from: those of configurations with at
      most that many EMPTY cells. */
  ghost function Later(a: Knowledge, b: Knowledge, empty: int): set<TurnNode>
    reads a, b
  {
    set n | n in a.nodes + b.nodes && CountEmpty(n.board) <= empty
  }

  /** `k` has kept every node it had and learned only new ones. */
  twostate predicate Grew(k: Knowledge)
    reads k
  {
    old(k.nodes) <= k.nodes && forall n | n in k.nodes && n !in old(k.nodes) :: fresh(n)
  }

  /** The two players' trees share no node. */
  ghost predicate Apart(a: Knowledge, b: Knowledge)
    reads a, b
  {
    a != b && a.nodes !! b.nodes
  }

  /** The first half of self_play_recursive: the active player draws a move
      from its current node and puts its marker on the board. */
  method MoveFrom(board: array<char>, active: Knowledge, inactive: Knowledge, turn: char, draw: nat)
      returns (node: TurnNode, pos: int)
    requires board.Length == 9 && turn != EMPTY
    requires active.Valid() && inactive.Valid() && Apart(active, inactive)
    requires Playable(active.node, board[..])
    modifies board, active.node
    ensures node == active.node && HasMoved(node) && node.actions == old(node.actions)
    ensures active.Valid() && inactive.Valid()
    ensures 0 <= pos < 9 && old(board[pos]) == EMPTY && board[..] == old(board[..])[pos := turn]
    ensures node.Valid() && 0 <= node.lastMove < |node.actions| == |node.moves| && node.sum > 0
    ensures pos == node.moves[node.lastMove]
    ensures PrefixWorth(node.actions, node.lastMove) < draw % node.sum + 1 <= PrefixWorth(node.actions, node.lastMove + 1)
  {
    node := active.node;
    var d := node.MakeMove(draw);
    pos := d.pos;
    assert pos == node.moves[node.lastMove];
    board[pos] := turn;
  }

  /** The reply of the other player: get_move_reaction on the new
      configuration becomes its current node. */
  method Respond(inactive: Knowledge, active: Knowledge, b: Board)
    requires active.Valid() && inactive.Valid() && Apart(active, inactive)
    requires !Full(b)
    modifies inactive
    ensures active.Valid() && inactive.Valid() && Apart(active, inactive)
    ensures b in inactive.reactions && inactive.node == inactive.reactions[b]
    ensures Playable(inactive.node, b) && inactive.node.board == b
    ensures b in old(inactive.reactions) ==> inactive.node == old(inactive.reactions[b])
    ensures b !in old(inactive.reactions) ==> fresh(inactive.node) && inactive.node.InitialFor(b)
    ensures old(inactive.nodes) <= inactive.nodes && fresh(inactive.nodes - old(inactive.nodes))
  {
    ghost var before := inactive.reactions;
    var n := inactive.GetMoveReaction(b);
    if b !in before {
      ValuesInsert(before, b, n);
    }
    inactive.node := n;
    ReactionPlayable(inactive, b);
    assert n.Consistent();
  }

  /** What self_play_recursive leaves on a node whose decisions were `before`
      when it was moved from: turn_node_mark_good when `good`, otherwise
      turn_node_mark_bad, which leaves a node of at most one decision alone. */
  ghost predicate Credited(before: seq<Decision>, n: TurnNode, good: bool)
    reads n
  {
    && (good ==> Rewarded(before, n.actions, n.lastMove, n.sum))
    && (!good && |before| > 1 ==> Penalised(before, n.actions, n.lastMove))
    && (!good && |before| <= 1 ==> n.actions == before)
  }

  /** The player who made the last of `plies` moves when `turn` made the
      first and the players alternate. */
  function LastMover(turn: char, plies: int): char {
    if plies % 2 == 1 then turn else Other(turn)
  }

  /** Seen from the reply, the last of the moves is made by the same player. */
  lemma LastMoverStep(turn: char, before: int, after: int, last: int)
    requires turn == X || turn == O
    requires after == before - 1
    ensures LastMover(Other(turn), after - last) == LastMover(turn, before - last)
  {
  }

  /** How a game that `turn` resumes on `b0` ends on `last`: at least one
      more move is made, every marker stays in place, the winner is the
      player who made the last move, the game is over for the winner, and a
      player holding a line holds it for the winner. */
  ghost predicate Outcome(b0: Board, last: Board, turn: char, winner: char) {
    && Extends(b0, last) && CountEmpty(last) < CountEmpty(b0)
    && winner == LastMover(turn, CountEmpty(b0) - CountEmpty(last))
    && GetState(last, winner) != Incomplete
    && (ThreeInARow(last, X) || ThreeInARow(last, O) ==> ThreeInARow(last, winner))
  }

  /** A move that wins or fills the board ends the game for its player. */
  lemma OutcomeOfLastMove(b0: Board, pos: int, turn: char)
    requires 0 <= pos < 9 && b0[pos] == EMPTY && (turn == X || turn == O)
    requires !ThreeInARow(b0, Other(turn)) && GetState(b0[pos := turn], turn) != Incomplete
    ensures Outcome(b0, b0[pos := turn], turn, turn)
  {
    var b := b0[pos := turn];
    FillDecreasesEmpty(b0, pos, turn);
    FillExtends(b0, pos, turn);
    if ThreeInARow(b, Other(turn)) {
      FillKeepsLinesOfOther(b0, pos, turn, Other(turn));
    }
  }

  /** A game the reply carries on from the move ends as the reply's game does. */
  lemma OutcomeOfReply(b0: Board, pos: int, turn: char, last: Board, winner: char)
    requires 0 <= pos < 9 && b0[pos] == EMPTY && (turn == X || turn == O)
    requires Outcome(b0[pos := turn], last, Other(turn), winner)
    ensures Outcome(b0, last, turn, winner)
  {
    var b := b0[pos := turn];
    FillDecreasesEmpty(b0, pos, turn);
    FillExtends(b0, pos, turn);
    ExtendsTransitive(b0, b, last);
    LastMoverStep(turn, CountEmpty(b0), CountEmpty(b), CountEmpty(last));
  }

  /** turn_node_mark_good (`good`) or turn_node_mark_bad on the node the
      active player moved from. */
  method Credit(node: TurnNode, good: bool, active: Knowledge, inactive: Knowledge)
    requires active.Valid() && inactive.Valid() && Apart(active, inactive)
    requires node in active.nodes && HasMoved(node)
    modifies node
    ensures active.Valid() && inactive.Valid()
    ensures HasMoved(node) && node.lastMove == old(node.lastMove)
    ensures Credited(old(node.actions), node, good)
  {
    if good {
      node.MarkGood();
    } else {
      node.MarkBad();
    }
  }

  /** self_play_recursive: `active` moves for `turn` from its current node
      with the draw draws[0]; a move that wins or fills the board is marked
      good and `turn` is the winner (a draw is credited to the player who
      filled the board). Otherwise the game goes on with the other player
      (Continue), and the node moved from is then marked good if `turn` won
      and bad if not. The winner is the player who made the last move, and
      a player holding a line on the final board is the winner (Outcome).
      Besides the node moved from, the game changes only nodes of
      configurations with at most as many EMPTY cells as the board (the
      modifies clause), and each later move is made from a configuration
      with fewer; so a node that belongs to a configuration no fuller than
      the board is credited exactly once. `moved` is the set of nodes moved
      from on the way here. */
  method SelfPlay(board: array<char>, active: Knowledge, inactive: Knowledge, turn: char, draws: seq<nat>,
                  ghost moved: set<TurnNode>)
      returns (winner: char)
    requires board.Length == 9 && (turn == X || turn == O)
    requires active.Valid() && inactive.Valid() && Apart(active, inactive)
    requires Playable(active.node, board[..])
    requires !ThreeInARow(board[..], Other(turn))
    requires |draws| >= CountEmpty(board[..])
    requires forall n :: n in moved ==> HasMoved(n)
    modifies board, active, inactive, active.node, Later(active, inactive, CountEmpty(board[..]))
    ensures active.Valid() && inactive.Valid() && Apart(active, inactive)
    ensures Outcome(old(board[..]), board[..], turn, winner)
    ensures CountEmpty(old(active.node.board)) >= CountEmpty(old(board[..])) ==>
              Credited(old(active.node.actions), old(active.node), winner == turn)
    ensures Grew(active) && Grew(inactive)
    ensures forall n :: n in moved ==> HasMoved(n)
    ensures |active.node.moves| > 0
    ensures inactive.node == old(inactive.node) || |inactive.node.moves| > 0
    decreases CountEmpty(board[..]), 0
  {
    ghost var b0: Board := board[..];
    assert b0[active.node.moves[0]] == EMPTY;
    var node, pos := MoveFrom(board, active, inactive, turn, draws[0]);
    assert active.nodes == old(active.nodes) && inactive.nodes == old(inactive.nodes);
    FillDecreasesEmpty(b0, pos, turn);
    var b: Board := board[..];
    if GetState(b, turn) != Incomplete {
      OutcomeOfLastMove(b0, pos, turn);
      Credit(node, true, active, inactive);
      return turn;
    }
    winner := Continue(board, active, inactive, turn, node, draws[1..], moved + {node});
    OutcomeOfReply(b0, pos, turn, board[..], winner);
  }

  /** The recursive case of self_play_recursive, once `turn` has moved from
      `node` and the game goes on: the other player replies (Reply), and
      `node` is marked good if `turn` won and bad if not. The rest of the
      game moves only from nodes of configurations with fewer EMPTY cells
      than the board. */
  method Continue(board: array<char>, active: Knowledge, inactive: Knowledge, turn: char, node: TurnNode,
                  draws: seq<nat>, ghost moved: set<TurnNode>)
      returns (winner: char)
    requires board.Length == 9 && (turn == X || turn == O)
    requires active.Valid() && inactive.Valid() && Apart(active, inactive)
    requires node in active.nodes && node in moved
    requires GetState(board[..], turn) == Incomplete
    requires |draws| >= CountEmpty(board[..])
    requires forall n :: n in moved ==> HasMoved(n)
    modifies board, active, inactive, node, Later(active, inactive, CountEmpty(board[..]))
    ensures active.Valid() && inactive.Valid() && Apart(active, inactive)
    ensures Outcome(old(board[..]), board[..], Other(turn), winner)
    ensures CountEmpty(node.board) > CountEmpty(old(board[..])) ==>
              Credited(old(node.actions), node, winner == turn)
    ensures Grew(active) && Grew(inactive)
    ensures forall n :: n in moved ==> HasMoved(n)
    ensures active.node == old(active.node) || |active.node.moves| > 0
    ensures |inactive.node.moves| > 0
    decreases CountEmpty(board[..]), 2
  {
    var r;
    ghost var reply, before;
    r, reply, before := Reply(board, inactive, active, Other(turn), draws, moved);
    Credit(node, r == turn, active, inactive);
    winner := if r == turn then turn else Other(turn);
    assert winner == r;
  }

  /** The second half of self_play_recursive: the player to move next
      (`active` here) takes the node get_move_reaction gives it for the
      board (`node`, whose decisions were then `before`), and the game goes
      on from there; `node` is credited for the outcome. */
  method Reply(board: array<char>, active: Knowledge, inactive: Knowledge, turn: char, draws: seq<nat>,
               ghost moved: set<TurnNode>)
      returns (winner: char, ghost node: TurnNode, ghost before: seq<Decision>)
    requires board.Length == 9 && (turn == X || turn == O)
    requires active.Valid() && inactive.Valid() && Apart(active, inactive)
    requires !Full(board[..]) && !ThreeInARow(board[..], Other(turn))
    requires |draws| >= CountEmpty(board[..])
    requires forall n :: n in moved ==> HasMoved(n)
    modifies board, active, inactive, Later(active, inactive, CountEmpty(board[..]))
    ensures active.Valid() && inactive.Valid() && Apart(active, inactive)
    ensures Outcome(old(board[..]), board[..], turn, winner)
    ensures node in active.nodes && node.board == old(board[..])
    ensures old(board[..]) in old(active.reactions) ==>
              node == old(active.reactions[board[..]]) && before == old(node.actions)
    ensures old(board[..]) !in old(active.reactions) ==> fresh(node) && InitialDecisions(old(board[..]), before)
    ensures Credited(before, node, winner == turn)
    ensures Grew(active) && Grew(inactive)
    ensures forall n :: n in moved ==> HasMoved(n)
    ensures |active.node.moves| > 0
    ensures inactive.node == old(inactive.node) || |inactive.node.moves| > 0
    decreases CountEmpty(board[..]), 1
  {
    Respond(active, inactive, board[..]);
    node := active.node;
    before := node.actions;
    winner := SelfPlay(board, active, inactive, turn, draws, moved);
  }

  /** The number of training games aquire_knowledge plays. */
  const TrainingGames := 1000000

  /** A node with a decision offers only moves that are open on the empty board. */
  lemma PlayableOnEmpty(k: Knowledge)
    requires k.Valid() && |k.node.moves| > 0
    ensures Playable(k.node, EmptyBoard)
  {
    assert k.node.Valid();
  }

  /** One iteration of aquire_knowledge: a fresh board, X (`them`) to move
      first from whatever node it holds, O (`us`) replying. The draws are
      the rand() values used on the way, one per move; `last` is the final
      board. X's node is credited for the outcome when it is the node of the
      empty board, as it is in the first game. */
  method PlayOneGame(them: Knowledge, us: Knowledge, draws: seq<nat>) returns (winner: char, ghost last: Board)
    requires them.Valid() && us.Valid() && Apart(them, us)
    requires |them.node.moves| > 0 && |draws| >= 9
    modifies them, us, them.nodes, us.nodes
    ensures them.Valid() && us.Valid() && Apart(them, us)
    ensures |them.node.moves| > 0
    ensures Outcome(EmptyBoard, last, X, winner)
    ensures old(them.node.board) == EmptyBoard ==> Credited(old(them.node.actions), old(them.node), winner == X)
    ensures Grew(them) && Grew(us)
  {
    var board := new char[9];
    Init(board);
    PlayableOnEmpty(them);
    EmptyBoardHasNoLine(O);
    winner := SelfPlay(board, them, us, X, draws, {});
    last := board[..];
  }

  /** The two players aquire_knowledge starts with: `us` for O, `them` for X. */
  method NewPlayers() returns (them: Knowledge, us: Knowledge)
    ensures them.Valid() && us.Valid() && Apart(them, us)
    ensures |them.node.moves| > 0 && us.first.actions == []
    ensures fresh(them) && fresh(us) && fresh(them.nodes) && fresh(us.nodes)
  {
    us := new Knowledge(O);
    them := new Knowledge(X);
    EmptyPositionsFacts(EmptyBoard);
    assert EmptyBoard[0] == EMPTY;
  }

  /** aquire_knowledge: O learns by playing TrainingGames games against X,
      which learns as well; X's tree is discarded afterwards. */
  method AquireKnowledge(games: seq<seq<nat>>) returns (us: Knowledge)
    requires |games| == TrainingGames
    requires forall g :: 0 <= g < |games| ==> |games[g]| >= 9
    ensures us.Valid() && fresh(us)
  {
    var them;
    them, us := NewPlayers();
    for i := 0 to |games|
      invariant them.Valid() && us.Valid() && Apart(them, us)
      invariant |them.node.moves| > 0
      invariant fresh(them) && fresh(us) && fresh(them.nodes) && fresh(us.nodes)
    {
      var _, _ := PlayOneGame(them, us, games[i]);
    }
  }
}
