/** Shared specification of the two exhaustive knapsack programs: items and
    their sums, the leaves of the include/exclude search tree, the
    best-so-far acceptance rule folded over the leaves, and the pruned leaf
    sequences of the two optimised searches. */
module KnapsackSpec {

  /** k_item: a cost, a value and a name. */
  datatype Item = Item(cost: int, value: int, name: string)

  /** Sum of the costs, accumulated from the first item to the last. */
  function Cost(s: seq<Item>): int
  {
    if |s| == 0 then 0 else Cost(s[..|s| - 1]) + s[|s| - 1].cost
  }

  /** Sum of the values, accumulated from the first item to the last. */
  function Value(s: seq<Item>): int
  {
    if |s| == 0 then 0 else Value(s[..|s| - 1]) + s[|s| - 1].value
  }

  lemma {:induction false} SumsAppend(s: seq<Item>, t: seq<Item>)
    ensures Cost(s + t) == Cost(s) + Cost(t)
    ensures Value(s + t) == Value(s) + Value(t)
    decreases |t|
  {
    if |t| == 0 {
      assert s + t == s;
    } else {
      var t' := t[..|t| - 1];
      SumsAppend(s, t');
      assert (s + t)[..|s + t| - 1] == s + t';
    }
  }

  predicate NonNegativeCosts(items: seq<Item>)
  {
    forall k :: 0 <= k < |items| ==> items[k].cost >= 0
  }

  predicate NonNegativeValues(items: seq<Item>)
  {
    forall k :: 0 <= k < |items| ==> items[k].value >= 0
  }

  function Pow2(n: nat): nat
  {
    if n == 0 then 1 else 2 * Pow2(n - 1)
  }

  // ---------------------------------------------------------------------
  // Subsets as masks

  /** The items whose mask bit is set, in their original order. */
  function Pick(items: seq<Item>, mask: seq<bool>): seq<Item>
    requires |mask| == |items|
  {
    if |items| == 0 then []
    else (if mask[0] then [items[0]] else []) + Pick(items[1..], mask[1..])
  }

  function Prefixed(b: bool, ms: seq<seq<bool>>): (r: seq<seq<bool>>)
    ensures |r| == |ms|
    ensures forall k :: 0 <= k < |ms| ==> r[k] == [b] + ms[k]
  {
    seq(|ms|, k requires 0 <= k < |ms| => [b] + ms[k])
  }

  /** All masks of length n, "item left out" before "item taken" at every
      position, which is the order the search visits its leaves in. */
  function Masks(n: nat): seq<seq<bool>>
  {
    if n == 0 then [[]] else Prefixed(false, Masks(n - 1)) + Prefixed(true, Masks(n - 1))
  }

  /** Masks(n) has 2^n entries, each of length n. */
  lemma {:induction false} MasksLength(n: nat)
    ensures |Masks(n)| == Pow2(n)
    ensures forall k :: 0 <= k < |Masks(n)| ==> |Masks(n)[k]| == n
  {
    if n > 0 {
      MasksLength(n - 1);
    }
  }

  lemma HeadTail<T>(m: seq<T>)
    requires |m| > 0
    ensures m == [m[0]] + m[1..]
  {
  }

  /** Every mask of length n is in Masks(n). */
  lemma {:induction false} MasksComplete(n: nat, m: seq<bool>)
    requires |m| == n
    ensures m in Masks(n)
  {
    if n == 0 {
      assert m == [];
    } else {
      var ms := Masks(n - 1);
      MasksComplete(n - 1, m[1..]);
      var k :| 0 <= k < |ms| && ms[k] == m[1..];
      HeadTail(m);
      var lo, hi := Prefixed(false, ms), Prefixed(true, ms);
      if m[0] {
        assert hi[k] == m;
        assert Masks(n)[|lo| + k] == m;
      } else {
        assert lo[k] == m;
        assert Masks(n)[k] == m;
      }
    }
  }

  /** No mask occurs twice in Masks(n). */
  lemma {:induction false} MasksDistinct(n: nat)
    ensures forall j, k :: 0 <= j < k < |Masks(n)| ==> Masks(n)[j] != Masks(n)[k]
  {
    if n > 0 {
      MasksDistinct(n - 1);
      var ms := Masks(n - 1);
      var h := |ms|;
      forall j, k | 0 <= j < k < |Masks(n)|
        ensures Masks(n)[j] != Masks(n)[k]
      {
        if k < h {
          assert Masks(n)[j][1..] == ms[j] && Masks(n)[k][1..] == ms[k];
        } else if j >= h {
          assert Masks(n)[j][1..] == ms[j - h] && Masks(n)[k][1..] == ms[k - h];
        } else {
          assert Masks(n)[j][0] == false && Masks(n)[k][0] == true;
        }
      }
    }
  }

  /** Masks(n) lists every mask of length n exactly once. */
  lemma MasksEnumerate(n: nat)
    ensures |Masks(n)| == Pow2(n)
    ensures forall k :: 0 <= k < |Masks(n)| ==> |Masks(n)[k]| == n
    ensures forall m: seq<bool> :: |m| == n ==> m in Masks(n)
    ensures forall j, k :: 0 <= j < k < |Masks(n)| ==> Masks(n)[j] != Masks(n)[k]
  {
    MasksLength(n);
    MasksDistinct(n);
    forall m: seq<bool> | |m| == n ensures m in Masks(n) {
      MasksComplete(n, m);
    }
  }

  /** Extending the items and the mask by one entry extends the chosen
      subset by that item exactly when its mask bit is set. */
  lemma {:induction false} PickSnoc(items: seq<Item>, m: seq<bool>, x: Item, b: bool)
    requires |m| == |items|
    ensures Pick(items + [x], m + [b]) == Pick(items, m) + (if b then [x] else [])
  {
    if |items| > 0 {
      assert (items + [x])[1..] == items[1..] + [x];
      assert (m + [b])[1..] == m[1..] + [b];
      PickSnoc(items[1..], m[1..], x, b);
    }
  }

  // ---------------------------------------------------------------------
  // The leaves of the exhaustive search

  /** The sacks reached at the leaves of the exhaustive search started with
      the items `items` still to decide and the sack `p`: the subtree without
      the next item first, then the subtree with it. */
  function Leaves(items: seq<Item>, p: seq<Item>): seq<seq<Item>>
  {
    if |items| == 0 then [p]
    else Leaves(items[1..], p) + Leaves(items[1..], p + [items[0]])
  }

  lemma PickHead(items: seq<Item>, b: bool, m: seq<bool>)
    requires |items| > 0 && |m| == |items| - 1
    ensures Pick(items, [b] + m) == (if b then [items[0]] else []) + Pick(items[1..], m)
  {
    assert ([b] + m)[1..] == m;
  }

  /** The sack p extended by the subset [b] + m: the first item taken or not,
      then the subset m of the rest. */
  lemma PickExtends(items: seq<Item>, p: seq<Item>, b: bool, m: seq<bool>)
    requires |items| > 0 && |m| == |items| - 1
    ensures p + Pick(items, [b] + m) == (if b then p + [items[0]] else p) + Pick(items[1..], m)
  {
    PickHead(items, b, m);
    if b {
      assert p + ([items[0]] + Pick(items[1..], m)) == (p + [items[0]]) + Pick(items[1..], m);
    } else {
      assert [] + Pick(items[1..], m) == Pick(items[1..], m);
    }
  }

  /** Leaf k is the sack p extended with the subset chosen by mask k, so the
      search reaches one leaf per subset of the items, 2^n leaves in all. */
  lemma {:induction false} LeavesAreSubsets(items: seq<Item>, p: seq<Item>)
    ensures |Leaves(items, p)| == |Masks(|items|)| == Pow2(|items|)
    ensures forall k :: 0 <= k < |Leaves(items, p)| ==>
      |Masks(|items|)[k]| == |items| &&
      Leaves(items, p)[k] == p + Pick(items, Masks(|items|)[k])
    decreases |items|
  {
    MasksLength(|items|);
    if |items| == 0 {
      assert Leaves(items, p)[0] == p + [];
    } else {
      var rest := items[1..];
      var n := |items|;
      var q := p + [items[0]];
      LeavesAreSubsets(rest, p);
      LeavesAreSubsets(rest, q);
      var ms := Masks(n - 1);
      var h := |ms|;
      var lo, hi := Prefixed(false, ms), Prefixed(true, ms);
      assert Masks(n) == lo + hi;
      var l1, l2 := Leaves(rest, p), Leaves(rest, q);
      assert Leaves(items, p) == l1 + l2;
      forall k | 0 <= k < |Leaves(items, p)|
        ensures Leaves(items, p)[k] == p + Pick(items, Masks(n)[k])
      {
        if k < h {
          var m := ms[k];
          assert Masks(n)[k] == [false] + m;
          PickExtends(items, p, false, m);
          assert Leaves(items, p)[k] == l1[k];
        } else {
          var m := ms[k - h];
          assert Masks(n)[k] == hi[k - h] == [true] + m;
          PickExtends(items, p, true, m);
          assert Leaves(items, p)[k] == l2[k - h];
        }
      }
    }
  }

  /** The first leaf is the starting sack itself (every item left out). */
  lemma {:induction false} FirstLeafIsStart(items: seq<Item>, p: seq<Item>)
    ensures |Leaves(items, p)| > 0 && Leaves(items, p)[0] == p
    decreases |items|
  {
    if |items| > 0 {
      FirstLeafIsStart(items[1..], p);
    }
  }

  /** With non-negative costs no leaf costs less than the sack it grew from. */
  lemma {:induction false} LeafCostAtLeastStart(items: seq<Item>, p: seq<Item>, x: seq<Item>)
    requires NonNegativeCosts(items) && x in Leaves(items, p)
    ensures Cost(x) >= Cost(p)
    decreases |items|
  {
    if |items| > 0 {
      var rest := items[1..];
      assert NonNegativeCosts(rest) by {
        forall k | 0 <= k < |rest| ensures rest[k].cost >= 0 { assert rest[k] == items[k + 1]; }
      }
      if x in Leaves(rest, p) {
        LeafCostAtLeastStart(rest, p, x);
      } else {
        LeafCostAtLeastStart(rest, p + [items[0]], x);
        assert (p + [items[0]])[..|p|] == p;
      }
    }
  }

  /** With non-negative values no leaf is worth more than the sack holding
      every remaining item. */
  lemma {:induction false} LeafValueAtMostAll(items: seq<Item>, p: seq<Item>, x: seq<Item>)
    requires NonNegativeValues(items) && x in Leaves(items, p)
    ensures Value(x) <= Value(p + items)
    decreases |items|
  {
    if |items| == 0 {
      assert p + items == p;
    } else {
      var rest := items[1..];
      assert NonNegativeValues(rest) by {
        forall k | 0 <= k < |rest| ensures rest[k].value >= 0 { assert rest[k] == items[k + 1]; }
      }
      assert p + items == p + [items[0]] + rest;
      SumsAppend(p + [items[0]], rest);
      SumsAppend(p, rest);
      assert (p + [items[0]])[..|p|] == p;
      if x in Leaves(rest, p) {
        LeafValueAtMostAll(rest, p, x);
      } else {
        LeafValueAtMostAll(rest, p + [items[0]], x);
      }
    }
  }

  // ---------------------------------------------------------------------
  // Best-so-far acceptance

  /** The best sack recorded so far, with its cost and value. */
  datatype Best = NoBest | Best(cost: int, value: int, items: seq<Item>)

  /** k_solution_check_sack: a sack replaces the best one exactly when it is
      within the limit and there is no best yet or it is strictly more
      valuable. */
  function Accept(limit: int, b: Best, s: seq<Item>): Best
  {
    if Cost(s) <= limit && (b.NoBest? || Value(s) > b.value) then Best(Cost(s), Value(s), s) else b
  }

  /** The best sack after checking the sacks `ls` in order. */
  function Fold(limit: int, b: Best, ls: seq<seq<Item>>): Best
    decreases |ls|
  {
    if |ls| == 0 then b else Fold(limit, Accept(limit, b, ls[0]), ls[1..])
  }

  lemma {:induction false} FoldAppend(limit: int, b: Best, l1: seq<seq<Item>>, l2: seq<seq<Item>>)
    ensures Fold(limit, b, l1 + l2) == Fold(limit, Fold(limit, b, l1), l2)
    decreases |l1|
  {
    if |l1| == 0 {
      assert l1 + l2 == l2;
    } else {
      assert (l1 + l2)[1..] == l1[1..] + l2;
      FoldAppend(limit, Accept(limit, b, l1[0]), l1[1..], l2);
    }
  }

  /** Sack j of ls is the recorded best r, and no earlier feasible sack is
      as valuable. */
  predicate FirstBest(limit: int, ls: seq<seq<Item>>, j: int, r: Best)
    requires r.Best?
  {
    0 <= j < |ls| && ls[j] == r.items && r.cost == Cost(ls[j]) && r.value == Value(ls[j]) &&
    Cost(ls[j]) <= limit &&
    forall k :: 0 <= k < j && Cost(ls[k]) <= limit ==> Value(ls[k]) < r.value
  }

  /** Starting with no best, folding the acceptance rule over ls records
      nothing exactly when no sack is within the limit, and otherwise records
      the earliest sack of maximum value among those within the limit. */
  lemma {:induction false} FoldOptimum(limit: int, ls: seq<seq<Item>>)
    ensures Fold(limit, NoBest, ls).NoBest? <==> (forall k :: 0 <= k < |ls| ==> Cost(ls[k]) > limit)
    ensures Fold(limit, NoBest, ls).Best? ==>
      exists j :: FirstBest(limit, ls, j, Fold(limit, NoBest, ls))
    ensures Fold(limit, NoBest, ls).Best? ==>
      forall k :: 0 <= k < |ls| && Cost(ls[k]) <= limit ==> Value(ls[k]) <= Fold(limit, NoBest, ls).value
    decreases |ls|
  {
    if |ls| > 0 {
      var n := |ls| - 1;
      var init, last := ls[..n], ls[n];
      assert ls == init + [last];
      FoldOptimum(limit, init);
      FoldAppend(limit, NoBest, init, [last]);
      var ri := Fold(limit, NoBest, init);
      var r := Fold(limit, NoBest, ls);
      assert r == Accept(limit, ri, last);
      if Cost(last) <= limit && (ri.NoBest? || Value(last) > ri.value) {
        assert FirstBest(limit, ls, n, r);
      } else if ri.Best? {
        var j :| FirstBest(limit, init, j, ri);
        assert FirstBest(limit, ls, j, r);
      }
    }
  }

  /** Two sack sequences reach the same best value when each feasible sack of
      the second occurs in the first, and each feasible sack of the first
      worth at least `bound` occurs in the second, provided some feasible sack
      of the first is worth at least `bound`. */
  lemma SameBestValue(limit: int, a: seq<seq<Item>>, b: seq<seq<Item>>, bound: int)
    requires forall x :: x in b && Cost(x) <= limit ==> x in a
    requires forall x :: x in a && Cost(x) <= limit && Value(x) >= bound ==> x in b
    requires exists x :: x in a && Cost(x) <= limit && Value(x) >= bound
    ensures Fold(limit, NoBest, a).Best? && Fold(limit, NoBest, b).Best?
    ensures Fold(limit, NoBest, a).value == Fold(limit, NoBest, b).value
  {
    FoldOptimum(limit, a);
    FoldOptimum(limit, b);
    var x :| x in a && Cost(x) <= limit && Value(x) >= bound;
    var ra, rb := Fold(limit, NoBest, a), Fold(limit, NoBest, b);
    assert ra.Best?;
    var ja :| FirstBest(limit, a, ja, ra);
    assert Value(a[ja]) >= Value(x);
    assert a[ja] in b;
    assert rb.Best?;
    var jb :| FirstBest(limit, b, jb, rb);
    assert b[jb] in a;
  }

  /** After the exhaustive search from the empty sack the best sack is a
      subset of the items within the limit, at least as valuable as every
      subset within the limit; with a non-negative limit there is always one. */
  lemma SearchOptimal(items: seq<Item>, limit: int)
    ensures limit >= 0 ==> Fold(limit, NoBest, Leaves(items, [])).Best?
    ensures Fold(limit, NoBest, Leaves(items, [])).Best? ==>
      Fold(limit, NoBest, Leaves(items, [])).cost == Cost(Fold(limit, NoBest, Leaves(items, [])).items) <= limit &&
      Fold(limit, NoBest, Leaves(items, [])).value == Value(Fold(limit, NoBest, Leaves(items, [])).items) &&
      exists m :: |m| == |items| && Fold(limit, NoBest, Leaves(items, [])).items == Pick(items, m)
    ensures forall m :: |m| == |items| && Cost(Pick(items, m)) <= limit ==>
      Fold(limit, NoBest, Leaves(items, [])).Best? &&
      Value(Pick(items, m)) <= Fold(limit, NoBest, Leaves(items, [])).value
  {
    var ls := Leaves(items, []);
    LeavesAreSubsets(items, []);
    FoldOptimum(limit, ls);
    FirstLeafIsStart(items, []);
    MasksEnumerate(|items|);
    var r := Fold(limit, NoBest, ls);
    if r.Best? {
      var j :| FirstBest(limit, ls, j, r);
      var m := Masks(|items|)[j];
      assert [] + Pick(items, m) == Pick(items, m);
      assert r.items == Pick(items, m);
    }
    forall m | |m| == |items| && Cost(Pick(items, m)) <= limit
      ensures r.Best? && Value(Pick(items, m)) <= r.value
    {
      assert m in Masks(|items|);
      var k :| 0 <= k < |Masks(|items|)| && Masks(|items|)[k] == m;
      assert [] + Pick(items, m) == Pick(items, m);
      assert ls[k] == Pick(items, m);
    }
  }

  // ---------------------------------------------------------------------
  // The search pruned by the cost limit

  /** Leaves reached by the search that takes the item first and skips the
      with-item subtree once the sack with the item exceeds the limit. */
  function LimitedLeaves(items: seq<Item>, p: seq<Item>, limit: int): seq<seq<Item>>
  {
    if |items| == 0 then [p]
    else
      (if Cost(p + [items[0]]) <= limit then LimitedLeaves(items[1..], p + [items[0]], limit) else []) +
      LimitedLeaves(items[1..], p, limit)
  }

  lemma {:induction false} LimitedLeavesWithin(items: seq<Item>, p: seq<Item>, limit: int, x: seq<Item>)
    requires x in LimitedLeaves(items, p, limit)
    ensures x in Leaves(items, p)
    decreases |items|
  {
    if |items| > 0 {
      var rest := items[1..];
      if Cost(p + [items[0]]) <= limit && x in LimitedLeaves(rest, p + [items[0]], limit) {
        LimitedLeavesWithin(rest, p + [items[0]], limit, x);
      } else {
        LimitedLeavesWithin(rest, p, limit, x);
      }
    }
  }

  /** With non-negative costs the pruning loses no leaf within the limit. */
  lemma {:induction false} LimitedLeavesComplete(items: seq<Item>, p: seq<Item>, limit: int, x: seq<Item>)
    requires NonNegativeCosts(items) && x in Leaves(items, p) && Cost(x) <= limit
    ensures x in LimitedLeaves(items, p, limit)
    decreases |items|
  {
    if |items| > 0 {
      var rest := items[1..];
      assert NonNegativeCosts(rest) by {
        forall k | 0 <= k < |rest| ensures rest[k].cost >= 0 { assert rest[k] == items[k + 1]; }
      }
      if x in Leaves(rest, p) {
        LimitedLeavesComplete(rest, p, limit, x);
      } else {
        LeafCostAtLeastStart(rest, p + [items[0]], x);
        LimitedLeavesComplete(rest, p + [items[0]], limit, x);
      }
    }
  }

  /** With non-negative costs the cost-pruned search records the same best
      value as the exhaustive one, and records a best exactly when it does. */
  lemma LimitedMatchesExhaustive(items: seq<Item>, limit: int)
    requires NonNegativeCosts(items)
    ensures Fold(limit, NoBest, LimitedLeaves(items, [], limit)).Best? <==>
            Fold(limit, NoBest, Leaves(items, [])).Best?
    ensures Fold(limit, NoBest, Leaves(items, [])).Best? ==>
      Fold(limit, NoBest, LimitedLeaves(items, [], limit)).value ==
      Fold(limit, NoBest, Leaves(items, [])).value
  {
    var a, b := Leaves(items, []), LimitedLeaves(items, [], limit);
    forall x | x in b && Cost(x) <= limit ensures x in a {
      LimitedLeavesWithin(items, [], limit, x);
    }
    forall x | x in a && Cost(x) <= limit ensures x in b {
      LimitedLeavesComplete(items, [], limit, x);
    }
    FoldOptimum(limit, a);
    FoldOptimum(limit, b);
    var ra := Fold(limit, NoBest, a);
    if ra.Best? {
      var j :| FirstBest(limit, a, j, ra);
      SameBestValue(limit, a, b, ra.value);
    }
  }

  // ---------------------------------------------------------------------
  // The search pruned by the cost limit and the lower value bound

  /** What one call of the value-bounded search does: the leaves it hands to
      the acceptance rule, the leaves it counts, and whether it returned 1. */
  datatype Run = Run(checked: seq<seq<Item>>, reached: nat, ok: bool)

  /** A leaf worth less than the bound is counted, not checked, and returns
      0; a 0 from the with-item subtree ends the call with 0 and skips the
      without-item subtree; every other call returns 1. */
  function BoundedRun(items: seq<Item>, p: seq<Item>, limit: int, bound: int): Run
  {
    if |items| == 0 then
      (if Value(p) < bound then Run([], 1, false) else Run([p], 1, true))
    else if Cost(p + [items[0]]) <= limit then
      var w := BoundedRun(items[1..], p + [items[0]], limit, bound);
      if !w.ok then Run(w.checked, w.reached, false)
      else
        var o := BoundedRun(items[1..], p, limit, bound);
        Run(w.checked + o.checked, w.reached + o.reached, true)
    else
      var o := BoundedRun(items[1..], p, limit, bound);
      Run(o.checked, o.reached, true)
  }

  /** Every checked leaf is a leaf of the exhaustive search worth at least
      the bound. */
  lemma {:induction false} BoundedWithin(items: seq<Item>, p: seq<Item>, limit: int, bound: int, x: seq<Item>)
    requires x in BoundedRun(items, p, limit, bound).checked
    ensures x in Leaves(items, p) && Value(x) >= bound
    decreases |items|
  {
    if |items| > 0 {
      var rest := items[1..];
      if Cost(p + [items[0]]) <= limit && x in BoundedRun(rest, p + [items[0]], limit, bound).checked {
        BoundedWithin(rest, p + [items[0]], limit, bound, x);
      } else {
        BoundedWithin(rest, p, limit, bound, x);
      }
    }
  }

  /** With non-negative values a call returns 0 only when even the sack with
      every remaining item is worth less than the bound. */
  lemma {:induction false} BoundedAbort(items: seq<Item>, p: seq<Item>, limit: int, bound: int)
    requires NonNegativeValues(items) && !BoundedRun(items, p, limit, bound).ok
    ensures Value(p + items) < bound
    decreases |items|
  {
    if |items| == 0 {
      assert p + items == p;
    } else {
      var rest := items[1..];
      assert NonNegativeValues(rest) by {
        forall k | 0 <= k < |rest| ensures rest[k].value >= 0 { assert rest[k] == items[k + 1]; }
      }
      BoundedAbort(rest, p + [items[0]], limit, bound);
      assert p + [items[0]] + rest == p + items;
    }
  }

  /** With non-negative costs and values every leaf within the limit and
      worth at least the bound is checked. */
  lemma {:induction false} BoundedComplete(items: seq<Item>, p: seq<Item>, limit: int, bound: int, x: seq<Item>)
    requires NonNegativeCosts(items) && NonNegativeValues(items)
    requires x in Leaves(items, p) && Cost(x) <= limit && Value(x) >= bound
    ensures x in BoundedRun(items, p, limit, bound).checked
    decreases |items|
  {
    if |items| == 0 {
      assert x == p;
    } else {
      var rest := items[1..];
      var q := p + [items[0]];
      assert NonNegativeCosts(rest) && NonNegativeValues(rest) by {
        forall k | 0 <= k < |rest| ensures rest[k].cost >= 0 && rest[k].value >= 0 { assert rest[k] == items[k + 1]; }
      }
      var w := BoundedRun(rest, q, limit, bound);
      if x in Leaves(rest, q) {
        LeafCostAtLeastStart(rest, q, x);
        if !w.ok {
          BoundedAbort(rest, q, limit, bound);
          LeafValueAtMostAll(rest, q, x);
          assert false;
        }
        BoundedComplete(rest, q, limit, bound, x);
      } else {
        if Cost(q) <= limit && !w.ok {
          BoundedAbort(rest, q, limit, bound);
          LeafValueAtMostAll(rest, p, x);
          SumsAppend(p, rest);
          SumsAppend(q, rest);
          assert false;
        }
        BoundedComplete(rest, p, limit, bound, x);
      }
    }
  }

  /** With non-negative costs and values, and a bound no higher than the
      best value of the exhaustive search, the value-bounded search records
      the same best value. */
  lemma BoundedMatchesExhaustive(items: seq<Item>, limit: int, bound: int)
    requires NonNegativeCosts(items) && NonNegativeValues(items)
    requires Fold(limit, NoBest, Leaves(items, [])).Best?
    requires bound <= Fold(limit, NoBest, Leaves(items, [])).value
    ensures Fold(limit, NoBest, BoundedRun(items, [], limit, bound).checked).Best?
    ensures Fold(limit, NoBest, BoundedRun(items, [], limit, bound).checked).value ==
            Fold(limit, NoBest, Leaves(items, [])).value
  {
    var a, b := Leaves(items, []), BoundedRun(items, [], limit, bound).checked;
    forall x | x in b && Cost(x) <= limit ensures x in a {
      BoundedWithin(items, [], limit, bound, x);
    }
    forall x | x in a && Cost(x) <= limit && Value(x) >= bound ensures x in b {
      BoundedComplete(items, [], limit, bound, x);
    }
    FoldOptimum(limit, a);
    var ra := Fold(limit, NoBest, a);
    var j :| FirstBest(limit, a, j, ra);
    assert a[j] in a;
    SameBestValue(limit, a, b, bound);
  }
}
