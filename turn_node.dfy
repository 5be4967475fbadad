/** The learned policy at one board configuration of tictactoe.c
    (`struct turn_node`): one decision per EMPTY cell with an integer worth,
    a cached `sum`, and the index of the last decision taken. */
module TurnNodes {
  import opened TicTacToeBoard

  /** `struct decision`: a move (a cell position) and its integer weight.
      decision_new / decision_init are this constructor. */
  datatype Decision = Decision(pos: int, worth: int)

  /** The total worth of a list of decisions. */
  function TotalWorth(ds: seq<Decision>): int {
    if ds == [] then 0 else TotalWorth(ds[..|ds| - 1]) + ds[|ds| - 1].worth
  }

  /** The running total of turn_node_make_move after the first `j` decisions. */
  function PrefixWorth(ds: seq<Decision>, j: nat): int
    requires j <= |ds|
  {
    TotalWorth(ds[..j])
  }

  predicate NonNegative(ds: seq<Decision>) {
    forall i :: 0 <= i < |ds| ==> ds[i].worth >= 0
  }

  function Positions(ds: seq<Decision>): (ps: seq<int>)
    ensures |ps| == |ds|
    ensures forall i :: 0 <= i < |ds| ==> ps[i] == ds[i].pos
  {
    if |ds| == 0 then [] else Positions(ds[..|ds| - 1]) + [ds[|ds| - 1].pos]
  }

  lemma PositionsAppend(ds: seq<Decision>, d: Decision)
    ensures Positions(ds + [d]) == Positions(ds) + [d.pos]
  {
    assert (ds + [d])[..|ds|] == ds;
  }

  /** Every decision has worth `w`. */
  predicate Uniform(ds: seq<Decision>, w: int) {
    forall k :: 0 <= k < |ds| ==> ds[k].worth == w
  }

  lemma UniformAppend(ds: seq<Decision>, d: Decision)
    requires Uniform(ds, d.worth)
    ensures Uniform(ds + [d], d.worth)
  {
  }

  predicate InBoard(ps: seq<int>) {
    forall k :: 0 <= k < |ps| ==> 0 <= ps[k] < 9
  }

  function Min(a: int, b: int): int {
    if a < b then a else b
  }

  /** The amount turn_node_mark_good adds to the rewarded decision. */
  function GoodTake(n: int): int {
    n - 1 + 100
  }

  /** The amount turn_node_mark_bad tries to take from the penalised decision. */
  function BadGive(n: int): int {
    n - 1 + 50
  }

  lemma {:induction false} TotalWorthUpdate(ds: seq<Decision>, i: nat, d: Decision)
    requires i < |ds|
    ensures TotalWorth(ds[i := d]) == TotalWorth(ds) - ds[i].worth + d.worth
    decreases |ds|
  {
    var n := |ds|;
    var ds' := ds[i := d];
    assert ds' != [];
    if i == n - 1 {
      assert ds'[..n - 1] == ds[..n - 1];
    } else {
      TotalWorthUpdate(ds[..n - 1], i, d);
      assert ds'[..n - 1] == ds[..n - 1][i := d];
    }
  }

  lemma {:induction false} TotalWorthNonNegative(ds: seq<Decision>)
    requires NonNegative(ds)
    ensures TotalWorth(ds) >= 0
    decreases |ds|
  {
    if ds != [] {
      TotalWorthNonNegative(ds[..|ds| - 1]);
    }
  }

  /** With non-negative worths, the total covers any single decision. */
  lemma {:induction false} TotalWorthCovers(ds: seq<Decision>, i: nat)
    requires NonNegative(ds) && i < |ds|
    ensures TotalWorth(ds) >= ds[i].worth
    decreases |ds|
  {
    var n := |ds|;
    if i == n - 1 {
      TotalWorthNonNegative(ds[..n - 1]);
    } else {
      TotalWorthCovers(ds[..n - 1], i);
    }
  }

  lemma {:induction false} TotalWorthUniform(ds: seq<Decision>, w: int)
    requires Uniform(ds, w)
    ensures TotalWorth(ds) == w * |ds|
    decreases |ds|
  {
    if ds != [] {
      TotalWorthUniform(ds[..|ds| - 1], w);
    }
  }

  lemma {:induction false} TotalWorthOneHot(ds: seq<Decision>, h: nat)
    requires h < |ds|
    requires forall i :: 0 <= i < |ds| && i != h ==> ds[i].worth == 0
    ensures TotalWorth(ds) == ds[h].worth
    decreases |ds|
  {
    var n := |ds|;
    if h == n - 1 {
      TotalWorthUniform(ds[..n - 1], 0);
    } else {
      TotalWorthOneHot(ds[..n - 1], h);
    }
  }

  lemma PrefixStep(ds: seq<Decision>, j: nat)
    requires j < |ds|
    ensures PrefixWorth(ds, j + 1) == PrefixWorth(ds, j) + ds[j].worth
  {
    assert ds[..j + 1][..j] == ds[..j];
  }

  lemma {:induction false} PrefixMonotone(ds: seq<Decision>, a: nat, b: nat)
    requires NonNegative(ds) && a <= b <= |ds|
    ensures PrefixWorth(ds, a) <= PrefixWorth(ds, b)
    decreases b - a
  {
    if a < b {
      PrefixStep(ds, a);
      PrefixMonotone(ds, a + 1, b);
    }
  }

  /** The index chosen by turn_node_make_move is the first one whose running
      total reaches the draw `r`, and it carries a positive worth: a decision
      of worth 0 is never selected. */
  lemma {:induction false} SelectionIsFirst(ds: seq<Decision>, r: int, j: nat)
    requires NonNegative(ds) && j < |ds|
    requires PrefixWorth(ds, j) < r <= PrefixWorth(ds, j + 1)
    ensures ds[j].worth > 0
    ensures forall k :: 0 < k <= j ==> PrefixWorth(ds, k) < r
  {
    PrefixStep(ds, j);
    forall k | 0 < k <= j
      ensures PrefixWorth(ds, k) < r
    {
      PrefixMonotone(ds, k, j);
    }
  }

  /** For each cell of `ps`, whether `p` wins at once by moving there. */
  function Verdicts(b: Board, p: char, ps: seq<int>): (v: seq<bool>)
    requires InBoard(ps)
    ensures |v| == |ps|
  {
    seq(|ps|, j requires 0 <= j < |ps| => WouldMove(b, p, ps[j]) == Win)
  }

  lemma VerdictsMeaning(b: Board, p: char, ps: seq<int>)
    requires InBoard(ps)
    ensures forall j :: 0 <= j < |ps| ==> Verdicts(b, p, ps)[j] == (WouldMove(b, p, ps[j]) == Win)
  {
  }

  /** One step of the forced-move scan of turn_node_new at the `k`-th
      decision, with `w` the forced index so far: a win for O always takes
      over, a win for X only when nothing was found before. */
  function ScanNext(oWins: bool, xWins: bool, w: int, k: int): int {
    if oWins then k
    else if w == -1 && xWins then k
    else w
  }

  /** The forced-move scan of turn_node_new over the first `n` decisions;
      `os[k]` and `xs[k]` say whether O or X wins at the `k`-th one. */
  function ScanUpTo(os: seq<bool>, xs: seq<bool>, n: nat): (w: int)
    requires n <= |os| && n <= |xs|
    ensures -1 <= w < n
  {
    if n == 0 then -1
    else ScanNext(os[n - 1], xs[n - 1], ScanUpTo(os, xs, n - 1), n - 1)
  }

  /** When one of the first `n` decisions wins for O, the scan returns the
      last such one. */
  lemma {:induction false} ScanPrefersO(os: seq<bool>, xs: seq<bool>, n: nat, j: int)
    requires n <= |os| && n <= |xs| && 0 <= j < n && os[j]
    ensures var w := ScanUpTo(os, xs, n);
            w >= 0 && os[w] && forall k :: w < k < n ==> !os[k]
  {
    if !os[n - 1] {
      ScanPrefersO(os, xs, n - 1, j);
    }
  }

  /** When none of the first `n` decisions wins for O, the scan returns the
      first one that wins for X, and -1 exactly when there is none. */
  lemma {:induction false} ScanFallsBackToX(os: seq<bool>, xs: seq<bool>, n: nat)
    requires n <= |os| && n <= |xs|
    requires forall j :: 0 <= j < n ==> !os[j]
    ensures var w := ScanUpTo(os, xs, n);
            && ((w == -1) <==> (forall j :: 0 <= j < n ==> !xs[j]))
            && (w >= 0 ==> xs[w] && forall j :: 0 <= j < w ==> !xs[j])
  {
    if n > 0 {
      ScanFallsBackToX(os, xs, n - 1);
    }
  }

  /** The decision turn_node_new makes certain on board `b`, or -1. */
  function ForcedIndex(b: Board): int {
    var ps := EmptyPositions(b);
    ScanUpTo(Verdicts(b, O, ps), Verdicts(b, X, ps), |ps|)
  }

  /** When O can win at once on one of the EMPTY cells, turn_node_new forces
      the last such cell in ascending order. */
  lemma ForcedIndexPrefersO(b: Board, j: int)
    requires 0 <= j < |EmptyPositions(b)| && WouldMove(b, O, EmptyPositions(b)[j]) == Win
    ensures var ps, w := EmptyPositions(b), ForcedIndex(b);
            && 0 <= w < |ps| && WouldMove(b, O, ps[w]) == Win
            && forall k :: w < k < |ps| ==> WouldMove(b, O, ps[k]) != Win
  {
    var ps := EmptyPositions(b);
    VerdictsMeaning(b, O, ps);
    ScanPrefersO(Verdicts(b, O, ps), Verdicts(b, X, ps), |ps|, j);
  }

  /** When O cannot win at once, turn_node_new forces the first EMPTY cell
      where X could, and forces nothing exactly when X cannot win at once
      either. */
  lemma ForcedIndexFallsBackToX(b: Board)
    requires forall j :: 0 <= j < |EmptyPositions(b)| ==> WouldMove(b, O, EmptyPositions(b)[j]) != Win
    ensures var ps, w := EmptyPositions(b), ForcedIndex(b);
            && (w == -1 <==> forall j :: 0 <= j < |ps| ==> WouldMove(b, X, ps[j]) != Win)
            && (w >= 0 ==> WouldMove(b, X, ps[w]) == Win && forall j :: 0 <= j < w ==> WouldMove(b, X, ps[j]) != Win)
  {
    var ps := EmptyPositions(b);
    VerdictsMeaning(b, O, ps);
    VerdictsMeaning(b, X, ps);
    ScanFallsBackToX(Verdicts(b, O, ps), Verdicts(b, X, ps), |ps|);
  }

  /** The number of decisions before index `j` other than `l`: the order in
      which the round-robin loops of mark_good and mark_bad reach `j`. */
  function Rank(j: int, l: int): int {
    if j < l then j else j - 1
  }

  /** The index of the decision with rank `q` when `l` is skipped. */
  function Idx(q: int, l: int): int {
    if q < l then q else q + 1
  }

  /** What the decision of rank `k` receives when `g` units are handed out
      one at a time, round-robin over `m` decisions starting at rank 0. */
  function Share(g: nat, m: nat, k: nat): nat
    requires m > 0
  {
    g / m + (if k < g % m then 1 else 0)
  }

  lemma MulAtLeast(x: int, m: int)
    requires x >= 1 && m > 0
    ensures x * m >= m
  {
    var y := x - 1;
    assert x * m == y * m + m;
    assert y * m >= 0;
  }

  /** Euclidean division has a unique quotient and remainder. */
  lemma DivModUnique(a: int, m: int, q: int, r: int)
    requires m > 0 && 0 <= r < m && a == q * m + r
    ensures a / m == q && a % m == r
  {
    var q0, r0 := a / m, a % m;
    assert a == q0 * m + r0;
    if q > q0 {
      MulAtLeast(q - q0, m);
      assert false;
    } else if q < q0 {
      MulAtLeast(q0 - q, m);
      assert false;
    }
  }

  lemma ModStep(g: nat, m: nat)
    requires m > 0
    ensures g % m + 1 < m ==> (g + 1) / m == g / m && (g + 1) % m == g % m + 1
    ensures g % m + 1 == m ==> (g + 1) / m == g / m + 1 && (g + 1) % m == 0
  {
    var q, r := g / m, g % m;
    if r + 1 < m {
      DivModUnique(g + 1, m, q, r + 1);
    } else {
      assert (q + 1) * m == q * m + m;
      DivModUnique(g + 1, m, q + 1, 0);
    }
  }

  /** Handing out one more unit adds exactly one to the rank next in turn. */
  lemma ShareStep(g: nat, m: nat, k: nat)
    requires m > 0 && k < m
    ensures Share(g + 1, m, k) == Share(g, m, k) + (if k == g % m then 1 else 0)
  {
    ModStep(g, m);
  }

  function SumShares(g: nat, m: nat, c: nat): nat
    requires m > 0
  {
    if c == 0 then 0 else SumShares(g, m, c - 1) + Share(g, m, c - 1)
  }

  lemma {:induction false} SumSharesStep(g: nat, m: nat, c: nat)
    requires m > 0 && c <= m
    ensures SumShares(g + 1, m, c) == SumShares(g, m, c) + (if g % m < c then 1 else 0)
    decreases c
  {
    if c > 0 {
      SumSharesStep(g, m, c - 1);
      ShareStep(g, m, c - 1);
    }
  }

  /** The round-robin hand-out distributes exactly `g` units among the `m`
      receiving decisions. */
  lemma {:induction false} ShareTotal(g: nat, m: nat)
    requires m > 0
    ensures SumShares(g, m, m) == g
    decreases g
  {
    if g == 0 {
      SharesOfNothing(m, m);
    } else {
      ShareTotal(g - 1, m);
      SumSharesStep(g - 1, m, m);
    }
  }

  lemma {:induction false} SharesOfNothing(m: nat, c: nat)
    requires m > 0
    ensures SumShares(0, m, c) == 0
    decreases c
  {
    if c > 0 {
      SharesOfNothing(m, c - 1);
    }
  }

  lemma EmptyBelowStep(b: Board, i: nat)
    requires i < 9
    ensures EmptyBelow(b, i + 1) == if b[i] == EMPTY then EmptyBelow(b, i) + [i] else EmptyBelow(b, i)
  {
  }

  /** The EMPTY cells below `i` are the start of those below any `j >= i`. */
  lemma {:induction false} EmptyBelowPrefix(b: Board, i: nat, j: nat)
    requires i <= j <= 9
    ensures |EmptyBelow(b, i)| <= |EmptyBelow(b, j)|
    ensures EmptyBelow(b, i) == EmptyBelow(b, j)[..|EmptyBelow(b, i)|]
    decreases j
  {
    if i < j {
      EmptyBelowPrefix(b, i, j - 1);
      var n := |EmptyBelow(b, i)|;
      var s := EmptyBelow(b, j - 1);
      if b[j - 1] == EMPTY {
        assert (s + [j - 1])[..n] == s[..n];
      }
    }
  }

  /** The loop of turn_node_make_move: the first index at which the running
      total of worths, started at 1, exceeds the draw `r`. With `r` at most the
      total worth, it always stops, and at a decision of positive worth. */
  method Select(ds: seq<Decision>, r: int) returns (j: nat)
    requires NonNegative(ds) && 0 < r <= TotalWorth(ds)
    ensures j < |ds|
    ensures PrefixWorth(ds, j) < r <= PrefixWorth(ds, j + 1)
    ensures ds[j].worth > 0
    ensures forall k :: 0 < k <= j ==> PrefixWorth(ds, k) < r
  {
    var i := 1;
    j := 0;
    assert ds[..|ds|] == ds;
    while true
      invariant 0 <= j < |ds|
      invariant i == 1 + PrefixWorth(ds, j)
      invariant PrefixWorth(ds, j) < r
      decreases |ds| - j
    {
      PrefixStep(ds, j);
      i := i + ds[j].worth;
      if r < i {
        break;
      }
      j := j + 1;
      if j == |ds| {
        assert false;
      }
    }
    SelectionIsFirst(ds, r, j);
  }

  /** The loop of turn_node_mark_good: visiting the decisions other than `l`
      round-robin from index 0, take one unit from each positive one until
      `take` units are gone, or until a zero-worth decision has been met
      n-1 times in all (that counter is never reset between passes). */
  method TakeRoundRobin(ds: seq<Decision>, l: nat, take: nat) returns (r: seq<Decision>)
    requires l < |ds| && NonNegative(ds)
    ensures |r| == |ds| && r[l] == ds[l]
    ensures forall j :: 0 <= j < |r| ==> r[j].pos == ds[j].pos
    ensures forall j :: 0 <= j < |r| && j != l ==> 0 <= r[j].worth <= ds[j].worth
    ensures var removed := TotalWorth(ds) - TotalWorth(r);
            && 0 <= removed <= take
            && (removed < take && |ds| > 1 ==> exists j :: 0 <= j < |r| && j != l && r[j].worth == 0)
  {
    var n := |ds|;
    var left := take;
    r := ds;
    ghost var zeroAt := -1;
    var i := 0;
    var cnt := 1;
    while cnt < n && left > 0
      invariant 0 <= i < n && 1 <= cnt <= n && 0 <= left <= take
      invariant TakenSoFar(ds, r, l)
      invariant TotalWorth(r) == TotalWorth(ds) - (take - left)
      invariant cnt > 1 ==> 0 <= zeroAt < n && zeroAt != l && r[zeroAt].worth == 0
      decreases (n - cnt) + left, if i == l then 1 else 0
    {
      r, i, cnt, left, zeroAt := TakeStep(ds, r, l, i, cnt, left, zeroAt);
    }
  }

  /** `r` is `ds` with some units taken from the decisions other than `l`. */
  predicate TakenSoFar(ds: seq<Decision>, r: seq<Decision>, l: nat) {
    && |r| == |ds| && l < |ds| && r[l] == ds[l]
    && (forall j :: 0 <= j < |r| ==> r[j].pos == ds[j].pos)
    && (forall j :: 0 <= j < |r| && j != l ==> 0 <= r[j].worth <= ds[j].worth)
  }

  /** One iteration of the loop of turn_node_mark_good, at index `i`. */
  method TakeStep(ds: seq<Decision>, r: seq<Decision>, l: nat, i: nat, cnt: nat, left: nat, ghost zeroAt: int)
    returns (r': seq<Decision>, i': nat, cnt': nat, left': nat, ghost zeroAt': int)
    requires TakenSoFar(ds, r, l) && i < |ds| && left > 0
    requires cnt > 1 ==> 0 <= zeroAt < |ds| && zeroAt != l && r[zeroAt].worth == 0
    ensures TakenSoFar(ds, r', l) && i' < |ds|
    ensures cnt' > 1 ==> 0 <= zeroAt' < |ds| && zeroAt' != l && r'[zeroAt'].worth == 0
    ensures TotalWorth(r') + left == TotalWorth(r) + left'
    ensures cnt <= cnt' <= cnt + 1 && left - 1 <= left' <= left
    ensures (cnt' - cnt) + (left - left') == (if i == l then 0 else 1)
    ensures i' == Next(i, |ds|)
  {
    r', cnt', left', zeroAt' := r, cnt, left, zeroAt;
    if i != l {
      if r[i].worth <= 0 {
        cnt' := cnt + 1;
        zeroAt' := i;
      } else {
        TotalWorthUpdate(r, i, Decision(r[i].pos, r[i].worth - 1));
        r' := r[i := Decision(r[i].pos, r[i].worth - 1)];
        left' := left - 1;
      }
    }
    i' := i + 1;
    if i' >= |ds| {
      i' := 0;
    }
  }

  /** The loop of turn_node_mark_bad: visiting the decisions other than `l`
      round-robin from index 0, add one unit to each until `give` units are
      handed out; the decision of rank k receives Share(give, n-1, k). */
  method GiveRoundRobin(ds: seq<Decision>, l: nat, give: nat) returns (r: seq<Decision>)
    requires l < |ds| && |ds| > 1
    ensures |r| == |ds| && r[l] == ds[l]
    ensures forall j :: 0 <= j < |r| ==> r[j].pos == ds[j].pos
    ensures forall j :: 0 <= j < |r| && j != l ==>
              r[j].worth == ds[j].worth + Share(give, |ds| - 1, Rank(j, l))
    ensures TotalWorth(r) == TotalWorth(ds) + give
  {
    var n := |ds|;
    var left := give;
    r := ds;
    var i := 0;
    ghost var given := 0;
    while left > 0
      invariant 0 <= i < n && 0 <= left <= give && given == give - left
      invariant GivenSoFar(ds, r, l, given)
      invariant AtTurn(n, l, i, given)
      invariant TotalWorth(r) == TotalWorth(ds) + given
      decreases left, if i == l then 1 else 0
    {
      r, i, left, given := GiveStep(ds, r, l, i, left, given);
    }
  }

  /** One iteration of the loop of turn_node_mark_bad, at index `i`. */
  method GiveStep(ds: seq<Decision>, r: seq<Decision>, l: nat, i: nat, left: nat, ghost given: nat)
    returns (r': seq<Decision>, i': nat, left': nat, ghost given': nat)
    requires |ds| > 1 && i < |ds| && left > 0
    requires GivenSoFar(ds, r, l, given) && AtTurn(|ds|, l, i, given)
    ensures i' < |ds|
    ensures GivenSoFar(ds, r', l, given') && AtTurn(|ds|, l, i', given')
    ensures TotalWorth(r') - given' == TotalWorth(r) - given
    ensures given' + left' == given + left
    ensures left' < left || (left' == left && i == l && i' != l)
  {
    var n := |ds|;
    RoundRobinStep(n, l, i, given);
    r', left', given' := r, left, given;
    if i != l {
      GiveOne(ds, r, l, i, given);
      TotalWorthUpdate(r, i, Decision(r[i].pos, r[i].worth + 1));
      r' := r[i := Decision(r[i].pos, r[i].worth + 1)];
      left' := left - 1;
      given' := given + 1;
    }
    i' := i + 1;
    if i' >= n {
      i' := 0;
    }
    assert i' == Next(i, n);
  }

  /** The decision after `i` in the round-robin order of the loops. */
  function Next(i: int, n: int): int {
    if i + 1 < n then i + 1 else 0
  }

  /** Where the round-robin loop of GiveRoundRobin stands after `given`
      units: at the decision of rank given % (n-1), or at the skipped `l`
      just before it. */
  predicate AtTurn(n: int, l: int, i: int, given: nat)
    requires n > 1
  {
    var q := given % (n - 1);
    i == Idx(q, l) || (i == l && Idx(q, l) == Next(l, n))
  }

  lemma RoundRobinStep(n: int, l: nat, i: nat, given: nat)
    requires n > 1 && l < n && i < n && AtTurn(n, l, i, given)
    ensures i != l ==> AtTurn(n, l, Next(i, n), given + 1)
    ensures i == l ==> Next(i, n) == Idx(given % (n - 1), l)
  {
    ModStep(given, n - 1);
  }

  /** `r` is `ds` after `given` units of the round-robin hand-out. */
  predicate GivenSoFar(ds: seq<Decision>, r: seq<Decision>, l: nat, given: nat)
    requires |ds| > 1
  {
    && |r| == |ds| && l < |ds| && r[l] == ds[l]
    && forall j :: 0 <= j < |ds| && j != l ==>
         r[j] == Decision(ds[j].pos, ds[j].worth + Share(given, |ds| - 1, Rank(j, l)))
  }

  /** The unit handed out after `given` others goes to index `i`, the
      decision of rank given % (n-1). */
  lemma GiveOne(ds: seq<Decision>, r: seq<Decision>, l: nat, i: nat, given: nat)
    requires |ds| > 1 && i < |ds| && i != l
    requires GivenSoFar(ds, r, l, given) && i == Idx(given % (|ds| - 1), l)
    ensures GivenSoFar(ds, r[i := Decision(r[i].pos, r[i].worth + 1)], l, given + 1)
  {
    forall j | 0 <= j < |ds| && j != l
      ensures Share(given + 1, |ds| - 1, Rank(j, l)) == Share(given, |ds| - 1, Rank(j, l)) + (if j == i then 1 else 0)
    {
      ShareStep(given, |ds| - 1, Rank(j, l));
    }
  }

  /** The decisions turn_node_new creates for board `b`: one per EMPTY cell,
      ascending; all of worth 100 when nothing is forced, otherwise the
      forced one worth 100 per decision and the others 0. */
  ghost predicate InitialDecisions(b: Board, acts: seq<Decision>) {
    && Positions(acts) == EmptyPositions(b)
    && var w := ForcedIndex(b);
       forall i :: 0 <= i < |acts| ==>
         acts[i].worth == (if w == -1 then 100 else if i == w then 100 * |acts| else 0)
  }

  /** The body of turn_node_new, on the list of decisions. */
  method Initial(b: Board) returns (acts: seq<Decision>)
    ensures InitialDecisions(b, acts)
    ensures TotalWorth(acts) == 100 * |acts|
  {
    var win;
    acts, win := Candidates(b);
    var s := 100 * |acts|;
    if win > -1 {
      acts := ForceDecision(acts, win, s);
    } else {
      TotalWorthUniform(acts, 100);
    }
  }

  /** The decisions of a new node make a valid node. */
  lemma InitialIsValid(b: Board, acts: seq<Decision>)
    requires InitialDecisions(b, acts) && TotalWorth(acts) == 100 * |acts|
    ensures NonNegative(acts) && InBoard(Positions(acts))
    ensures |acts| == 1 ==> acts[0].worth == 100
  {
  }

  /** Two lists of decisions offer the same moves in the same order. */
  predicate SameMoves(a: seq<Decision>, b: seq<Decision>) {
    |a| == |b| && forall j :: 0 <= j < |a| ==> a[j].pos == b[j].pos
  }

  lemma SameMovesPositions(a: seq<Decision>, b: seq<Decision>)
    requires SameMoves(a, b)
    ensures Positions(a) == Positions(b)
  {
  }

  /** The outcome of turn_node_mark_good on `ds` with `l` the last move and
      `cap` the node's sum: decision `l` gains GoodTake(n), clamped to `cap`;
      every other decision keeps its move and loses between 0 and its whole
      worth; at most GoodTake(n) units are taken back in all, and fewer only
      when some other decision has been driven to (or was at) 0. */
  predicate Rewarded(ds: seq<Decision>, r: seq<Decision>, l: int, cap: int) {
    && SameMoves(ds, r) && 0 <= l < |ds|
    && r[l].worth == Min(ds[l].worth + GoodTake(|ds|), cap)
    && (forall j :: 0 <= j < |r| && j != l ==> 0 <= r[j].worth <= ds[j].worth)
    && var removed := (TotalWorth(ds) - ds[l].worth) - (TotalWorth(r) - r[l].worth);
       && 0 <= removed <= GoodTake(|ds|)
       && (removed < GoodTake(|ds|) && |ds| > 1 ==>
             exists j :: 0 <= j < |r| && j != l && r[j].worth == 0)
  }

  /** The outcome of turn_node_mark_bad on `ds` (more than one decision) with
      `l` the last move: `l` loses g = min(worth, BadGive(n)), and the
      decision of rank k among the others gains Share(g, n-1, k). */
  predicate Penalised(ds: seq<Decision>, r: seq<Decision>, l: int)
    requires |ds| > 1
  {
    && SameMoves(ds, r) && 0 <= l < |ds| && ds[l].worth >= 0
    && var g := Min(ds[l].worth, BadGive(|ds|));
       && r[l].worth == ds[l].worth - g
       && forall j :: 0 <= j < |r| && j != l ==>
            r[j].worth == ds[j].worth + Share(g, |ds| - 1, Rank(j, l))
  }

  /** The arithmetic of turn_node_mark_good on a list of decisions. */
  method Reward(ds: seq<Decision>, l: nat, cap: int) returns (r: seq<Decision>)
    requires l < |ds| && NonNegative(ds) && 0 <= cap
    ensures Rewarded(ds, r, l, cap)
  {
    var n := |ds|;
    var take := GoodTake(n);
    var w := ds[l].worth + take;
    if w > cap {
      w := cap;
    }
    var bumped := ds[l := Decision(ds[l].pos, w)];
    TotalWorthUpdate(ds, l, bumped[l]);
    r := TakeRoundRobin(bumped, l, take);
  }

  /** The arithmetic of turn_node_mark_bad on more than one decision. */
  method Penalise(ds: seq<Decision>, l: nat) returns (r: seq<Decision>)
    requires 1 < |ds| && l < |ds| && NonNegative(ds)
    ensures Penalised(ds, r, l)
    ensures TotalWorth(r) == TotalWorth(ds)
  {
    var n := |ds|;
    var give := BadGive(n);
    var w := ds[l].worth - give;
    if w < 0 {
      give := give + w;
      w := 0;
    }
    var lowered := ds[l := Decision(ds[l].pos, w)];
    TotalWorthUpdate(ds, l, lowered[l]);
    r := GiveRoundRobin(lowered, l, give);
  }

  /** A node stays valid when it is rewarded. */
  lemma RewardKeepsValid(ds: seq<Decision>, r: seq<Decision>, l: int, sum: int)
    requires sum == 100 * |ds| && NonNegative(ds) && TotalWorth(ds) >= sum && InBoard(Positions(ds))
    requires |ds| == 1 ==> ds[0].worth == sum
    requires Rewarded(ds, r, l, sum)
    ensures NonNegative(r) && TotalWorth(r) >= sum && Positions(r) == Positions(ds)
    ensures |r| == 1 ==> r == ds
  {
    SameMovesPositions(ds, r);
    if r[l].worth == sum {
      TotalWorthCovers(r, l);
    } else {
      TotalWorthCovers(ds, l);
    }
    if |r| == 1 {
      assert r[0] == ds[0];
    }
  }

  /** A node stays valid when it is penalised. */
  lemma PenaltyKeepsValid(ds: seq<Decision>, r: seq<Decision>, l: int, sum: int)
    requires |ds| > 1 && sum == 100 * |ds| && NonNegative(ds) && TotalWorth(ds) >= sum && InBoard(Positions(ds))
    requires Penalised(ds, r, l) && TotalWorth(r) == TotalWorth(ds)
    ensures NonNegative(r) && TotalWorth(r) >= sum && Positions(r) == Positions(ds)
  {
    SameMovesPositions(ds, r);
  }

  /** The scan of turn_node_new: a decision of worth 100 for each EMPTY cell
      in ascending order, and the forced index found on the way. */
  method Candidates(b: Board) returns (acts: seq<Decision>, win: int)
    ensures Positions(acts) == EmptyPositions(b)
    ensures Uniform(acts, 100)
    ensures win == ForcedIndex(b)
  {
    acts := [];
    win := -1;
    var i := 0;
    EmptyBelowPrefix(b, 0, 9);
    while i < 9
      invariant 0 <= i <= 9
      invariant Positions(acts) == EmptyBelow(b, i)
      invariant |acts| <= |EmptyPositions(b)|
      invariant Uniform(acts, 100)
      invariant win == ScanUpTo(Verdicts(b, O, EmptyPositions(b)), Verdicts(b, X, EmptyPositions(b)), |acts|)
    {
      acts, win := ScanCell(b, i, acts, win);
      i := i + 1;
    }
  }

  /** One iteration of the scan of turn_node_new, at cell `i`: an EMPTY cell
      gets a decision; a win for O there always becomes the forced index, a
      win for X only when none was found before. */
  method ScanCell(b: Board, i: nat, acts: seq<Decision>, win: int) returns (acts': seq<Decision>, win': int)
    requires i < 9
    requires Positions(acts) == EmptyBelow(b, i)
    requires |acts| <= |EmptyPositions(b)|
    requires Uniform(acts, 100)
    requires win == ScanUpTo(Verdicts(b, O, EmptyPositions(b)), Verdicts(b, X, EmptyPositions(b)), |acts|)
    ensures Positions(acts') == EmptyBelow(b, i + 1)
    ensures |acts'| <= |EmptyPositions(b)|
    ensures Uniform(acts', 100)
    ensures win' == ScanUpTo(Verdicts(b, O, EmptyPositions(b)), Verdicts(b, X, EmptyPositions(b)), |acts'|)
  {
    EmptyBelowStep(b, i);
    EmptyBelowPrefix(b, i + 1, 9);
    acts', win' := acts, win;
    if b[i] == EMPTY {
      ghost var ps := EmptyPositions(b);
      assert ps[|acts|] == EmptyBelow(b, i + 1)[|acts|] == i;
      PositionsAppend(acts, Decision(i, 100));
      UniformAppend(acts, Decision(i, 100));
      acts' := acts + [Decision(i, 100)];
      win' := ScanWin(b, |acts|, i, win);
    }
  }

  /** The forced-move tests of turn_node_new at cell `c`, the `k`-th EMPTY
      cell: a win for O there always becomes the forced index, a win for X
      only when none was found before. */
  method ScanWin(b: Board, k: nat, c: int, win: int) returns (win': int)
    requires k < |EmptyPositions(b)| && EmptyPositions(b)[k] == c
    requires win == ScanUpTo(Verdicts(b, O, EmptyPositions(b)), Verdicts(b, X, EmptyPositions(b)), k)
    ensures win' == ScanUpTo(Verdicts(b, O, EmptyPositions(b)), Verdicts(b, X, EmptyPositions(b)), k + 1)
  {
    VerdictsMeaning(b, O, EmptyPositions(b));
    VerdictsMeaning(b, X, EmptyPositions(b));
    win' := win;
    if WouldMove(b, O, c) == Win {
      win' := k;
    } else if win == -1 && WouldMove(b, X, c) == Win {
      win' := k;
    }
  }

  /** The patch of turn_node_new: the forced decision gets the whole `s`,
      every other decision 0. */
  method ForceDecision(acts: seq<Decision>, win: nat, s: int) returns (r: seq<Decision>)
    requires win < |acts|
    ensures Positions(r) == Positions(acts)
    ensures forall j :: 0 <= j < |r| ==> r[j].worth == (if j == win then s else 0)
    ensures TotalWorth(r) == s
  {
    r := acts;
    var k := 0;
    while k < |r|
      invariant 0 <= k <= |r| && |r| == |acts|
      invariant forall j :: 0 <= j < |r| ==> r[j].pos == acts[j].pos
      invariant forall j :: 0 <= j < k && j != win ==> r[j].worth == 0
    {
      if win != k {
        r := r[k := Decision(r[k].pos, 0)];
      }
      k := k + 1;
    }
    r := r[win := Decision(r[win].pos, s)];
    TotalWorthOneHot(r, win);
  }

  class TurnNode {
    /** The configuration before this player's move. */
    const board: Board
    /** The cached weight total; it is assigned only on construction. */
    var sum: int
    /** The index of the decision taken last, -1 before any move. */
    var lastMove: int
    /** The decisions, one per EMPTY cell of `board` at creation. */
    var actions: seq<Decision>
    /** The cells the decisions stand for; fixed when the node is made. */
    ghost const moves: seq<int>

    ghost predicate Valid()
      reads this
    {
      && sum == 100 * |actions|
      && -1 <= lastMove < |actions|
      && NonNegative(actions)
      && TotalWorth(actions) >= sum
      && Positions(actions) == moves
      && InBoard(moves)
      && (|actions| == 1 ==> actions[0].worth == sum)
    }

    /** The decisions are exactly the EMPTY cells of the board, ascending. */
    ghost predicate Consistent() {
      moves == EmptyPositions(board)
    }

    /** The state turn_node_new leaves behind for board `b`. */
    ghost predicate InitialFor(b: Board)
      reads this
    {
      && board == b
      && lastMove == -1
      && sum == 100 * |actions|
      && InitialDecisions(b, actions)
    }

    /** turn_node_new: one decision of worth 100 per EMPTY cell, in ascending
        order; the forced move (see ForcedIndex), if any, gets all of `sum`. */
    constructor New(b: Board)
      ensures Valid() && InitialFor(b) && Consistent()
    {
      var acts := Initial(b);
      InitialIsValid(b, acts);
      board := b;
      sum := 100 * |acts|;
      lastMove := -1;
      actions := acts;
      moves := Positions(acts);
    }

    /** turn_node_new_fromnone: an empty board with no decisions. */
    constructor FromNone()
      ensures Valid()
      ensures board == EmptyBoard && actions == [] && sum == 0 && lastMove == -1
    {
      board := EmptyBoard;
      actions := [];
      sum := 0;
      lastMove := -1;
      moves := [];
    }

    /** turn_node_make_move: the draw `rnd` (rand()) is reduced to
        r in [1, sum]; the chosen index is the first whose running total
        reaches r. Only `lastMove` changes. */
    method MakeMove(rnd: nat) returns (d: Decision)
      requires Valid() && |actions| > 0
      modifies this
      ensures Valid()
      ensures actions == old(actions) && sum == old(sum)
      ensures 0 <= lastMove < |actions| && d == actions[lastMove]
      ensures PrefixWorth(actions, lastMove) < rnd % sum + 1 <= PrefixWorth(actions, lastMove + 1)
      ensures d.worth > 0
    {
      var r := rnd % sum + 1;
      assert actions[..|actions|] == actions;
      var j := Select(actions, r);
      lastMove := j;
      d := actions[j];
    }

    /** turn_node_mark_good on the last decision taken. */
    method MarkGood()
      requires Valid() && 0 <= lastMove < |actions|
      modifies this
      ensures Valid()
      ensures sum == old(sum) && lastMove == old(lastMove)
      ensures Rewarded(old(actions), actions, lastMove, sum)
    {
      var r := Reward(actions, lastMove, sum);
      RewardKeepsValid(actions, r, lastMove, sum);
      actions := r;
    }

    /** turn_node_mark_bad on the last decision taken; a node with at most
        one decision is left alone. */
    method MarkBad()
      requires Valid()
      requires |actions| > 1 ==> 0 <= lastMove < |actions|
      modifies this
      ensures Valid()
      ensures sum == old(sum) && lastMove == old(lastMove)
      ensures |actions| <= 1 ==> actions == old(actions)
      ensures |old(actions)| > 1 ==> Penalised(old(actions), actions, lastMove)
      ensures TotalWorth(actions) == TotalWorth(old(actions))
    {
      if |actions| > 1 {
        var r := Penalise(actions, lastMove);
        PenaltyKeepsValid(actions, r, lastMove, sum);
        actions := r;
      }
    }
  }
}
