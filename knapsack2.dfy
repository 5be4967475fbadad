/** knapsack2: the exhaustive knapsack search with cached sack sums, a
    global solution that counts the leaves it is offered, two pruned
    searches and two greedy fills that supply the lower value bound. */
module Knapsack2 {
  import opened KnapsackSpec

  /** itemcompar_value: negative when left is more valuable, so sorting
      with it orders the items by value, highest first. */
  function ValueCompar(left: Item, right: Item): (r: int)
    ensures r < 0 <==> left.value > right.value
    ensures r == 0 <==> left.value == right.value
  {
    right.value - left.value
  }

  /** itemcompar_cost: negative when left is cheaper, so sorting with it
      orders the items by cost, lowest first. */
  function CostCompar(left: Item, right: Item): (r: int)
    ensures r < 0 <==> left.cost < right.cost
    ensures r == 0 <==> left.cost == right.cost
  {
    left.cost - right.cost
  }

  /** `ordered` is what qsort leaves in the item array: the same items, by
      value with the most valuable first. */
  predicate ValueOrder(items: seq<Item>, ordered: seq<Item>)
  {
    multiset(ordered) == multiset(items) &&
    forall j, k :: 0 <= j < k < |ordered| ==> ValueCompar(ordered[j], ordered[k]) <= 0
  }

  /** `ordered` holds the same items by cost with the cheapest first. */
  predicate CostOrder(items: seq<Item>, ordered: seq<Item>)
  {
    multiset(ordered) == multiset(items) &&
    forall j, k :: 0 <= j < k < |ordered| ==> CostCompar(ordered[j], ordered[k]) <= 0
  }

  /** k_sack: a growable array of items with their cached total cost and
      value (itemSz is |items|). */
  class Sack {
    var cost: int
    var value: int
    var itemCap: nat
    var items: seq<Item>

    ghost predicate Valid()
      reads this
    {
      cost == Cost(items) && value == Value(items) && 4 <= itemCap && |items| <= itemCap
    }

    /** k_sack_new */
    constructor ()
      ensures Valid() && items == [] && itemCap == 4
    {
      cost, value := 0, 0;
      itemCap := 4;
      items := [];
    }

    /** k_sack_copy: a separate sack with the same sums, capacity and items. */
    method Copy() returns (c: Sack)
      requires Valid()
      ensures fresh(c) && c.Valid()
      ensures c.cost == cost && c.value == value && c.itemCap == itemCap && c.items == items
    {
      c := new Sack();
      c.cost, c.value := cost, value;
      c.itemCap := itemCap;
      c.items := items;
    }

    /** k_sack_add_item: appends the item and adds its cost and value to the
        cached sums, quadrupling the capacity when the sack is full. */
    method AddItem(item: Item)
      requires Valid()
      modifies this
      ensures Valid() && items == old(items) + [item]
      ensures cost == old(cost) + item.cost && value == old(value) + item.value
      ensures itemCap == if old(|items|) >= old(itemCap) then 4 * old(itemCap) else old(itemCap)
    {
      if |items| >= itemCap {
        itemCap := itemCap * 4;
      }
      assert (items + [item])[..|items|] == items;
      items := items + [item];
      cost := cost + item.cost;
      value := value + item.value;
    }
  }

  /** k_info: the cost limit and the value bounds of the instance. */
  class Info {
    var limit: int
    var lowerValueBound: int
    var upperValueBound: int

    constructor (limit: int)
      ensures this.limit == limit
    {
      this.limit := limit;
    }

    /** k_info_init: both bounds start at zero. */
    method Init()
      modifies this
      ensures limit == old(limit) && lowerValueBound == 0 && upperValueBound == 0
    {
      lowerValueBound := 0;
      upperValueBound := 0;
    }

    /** k_info_update_lower_value_bound: raises the bound to the value of
        the solution's sack when that is higher, so it never decreases. */
    method UpdateLowerValueBound(sol: Solution)
      requires sol.sack != null
      modifies this
      ensures limit == old(limit) && upperValueBound == old(upperValueBound)
      ensures lowerValueBound == if sol.sack.value > old(lowerValueBound) then sol.sack.value else old(lowerValueBound)
      ensures lowerValueBound >= old(lowerValueBound) && lowerValueBound >= sol.sack.value
    {
      if sol.sack.value > lowerValueBound {
        lowerValueBound := sol.sack.value;
      }
    }
  }

  /** k_solution: the number of leaf sacks considered and the best sack. */
  class Solution {
    var sackCounter: nat
    var sack: Sack?

    ghost predicate Valid()
      reads this, sack
    {
      sack != null ==> sack.Valid()
    }

    /** The recorded best, as the acceptance rule sees it. */
    ghost function Recorded(): Best
      reads this, sack
    {
      if sack == null then NoBest else Best(sack.cost, sack.value, sack.items)
    }

    /** k_solution_new */
    constructor ()
      ensures Valid() && sackCounter == 0 && sack == null && Recorded() == NoBest
    {
      sackCounter := 0;
      sack := null;
    }

    /** k_solution_check_sack: the sack replaces the best one exactly when
        it is within the limit and there is no best yet or it is strictly
        more valuable; otherwise nothing changes. */
    method CheckSack(s: Sack, info: Info) returns (accepted: bool)
      requires Valid() && s.Valid()
      modifies this
      ensures Valid() && sackCounter == old(sackCounter)
      ensures accepted <==> s.cost <= info.limit && (old(sack) == null || s.value > old(sack.value))
      ensures sack == if accepted then s else old(sack)
      ensures Recorded() == Accept(info.limit, old(Recorded()), s.items)
    {
      if s.cost <= info.limit && (sack == null || s.value > sack.value) {
        sack := s;
        accepted := true;
      } else {
        accepted := false;
      }
    }
  }

  /** knapsack_bruteforce_recursive over items[i..]: every leaf is counted
      and checked, without-item subtree first, so the counter grows by
      2^(|items| - i) and the recorded best is the acceptance rule folded over
      all the leaves. */
  method BruteForceRecursive(sol: Solution, info: Info, items: seq<Item>, i: nat, sack: Sack)
    requires i <= |items| && sack.Valid() && sol.Valid()
    modifies sol
    ensures sol.Valid()
    ensures sol.sackCounter == old(sol.sackCounter) + Pow2(|items| - i)
    ensures sol.Recorded() == Fold(info.limit, old(sol.Recorded()), Leaves(items[i..], sack.items))
    ensures sol.sack == old(sol.sack) || sol.sack == sack || fresh(sol.sack)
    decreases |items| - i
  {
    if i == |items| {
      sol.sackCounter := sol.sackCounter + 1;
      var _ := sol.CheckSack(sack, info);
      return;
    }
    var p := sack.items;
    ghost var b0 := sol.Recorded();
    var right := sack.Copy();
    BruteForceRecursive(sol, info, items, i + 1, sack);
    ghost var b1 := sol.Recorded();
    right.AddItem(items[i]);
    assert sol.Recorded() == b1 && sol.Valid();
    BruteForceRecursive(sol, info, items, i + 1, right);
    assert items[i..][1..] == items[i + 1..];
    FoldAppend(info.limit, b0, Leaves(items[i + 1..], p), Leaves(items[i + 1..], p + [items[i]]));
  }

  /** knapsack_optimized1_recursive over items[i..]: the with-item subtree
      first, entered only when the sack with the item is within the limit,
      then the without-item subtree. */
  method Optimized1Recursive(sol: Solution, info: Info, items: seq<Item>, i: nat, sack: Sack)
    requires i <= |items| && sack.Valid() && sol.Valid()
    modifies sol
    ensures sol.Valid()
    ensures sol.sackCounter == old(sol.sackCounter) + |LimitedLeaves(items[i..], sack.items, info.limit)|
    ensures sol.Recorded() == Fold(info.limit, old(sol.Recorded()), LimitedLeaves(items[i..], sack.items, info.limit))
    ensures sol.sack == old(sol.sack) || sol.sack == sack || fresh(sol.sack)
    decreases |items| - i
  {
    if i == |items| {
      sol.sackCounter := sol.sackCounter + 1;
      var _ := sol.CheckSack(sack, info);
      return;
    }
    var p := sack.items;
    ghost var b0 := sol.Recorded();
    var right := sack.Copy();
    right.AddItem(items[i]);
    assert sol.Recorded() == b0 && sol.Valid();
    ghost var with: seq<seq<Item>> := [];
    if right.cost <= info.limit {
      Optimized1Recursive(sol, info, items, i + 1, right);
      with := LimitedLeaves(items[i + 1..], p + [items[i]], info.limit);
    }
    ghost var b1 := sol.Recorded();
    Optimized1Recursive(sol, info, items, i + 1, sack);
    assert items[i..][1..] == items[i + 1..];
    assert LimitedLeaves(items[i..], p, info.limit) == with + LimitedLeaves(items[i + 1..], p, info.limit);
    FoldAppend(info.limit, b0, with, LimitedLeaves(items[i + 1..], p, info.limit));
  }

  /** knapsack_optimized2_recursive over items[i..]: like the cost-pruned
      search, but a leaf worth less than the lower value bound is counted,
      not checked, and yields false, and a false from the with-item subtree
      skips the without-item subtree and is passed up. */
  method Optimized2Recursive(sol: Solution, info: Info, items: seq<Item>, i: nat, sack: Sack) returns (ok: bool)
    requires i <= |items| && sack.Valid() && sol.Valid()
    modifies sol
    ensures sol.Valid()
    ensures ok == BoundedRun(items[i..], sack.items, info.limit, info.lowerValueBound).ok
    ensures sol.sackCounter == old(sol.sackCounter) + BoundedRun(items[i..], sack.items, info.limit, info.lowerValueBound).reached
    ensures sol.Recorded() ==
      Fold(info.limit, old(sol.Recorded()), BoundedRun(items[i..], sack.items, info.limit, info.lowerValueBound).checked)
    ensures sol.sack == old(sol.sack) || sol.sack == sack || fresh(sol.sack)
    decreases |items| - i
  {
    if i == |items| {
      sol.sackCounter := sol.sackCounter + 1;
      if sack.value < info.lowerValueBound {
        return false;
      }
      var _ := sol.CheckSack(sack, info);
      return true;
    }
    var p := sack.items;
    ghost var b0 := sol.Recorded();
    var right := sack.Copy();
    right.AddItem(items[i]);
    assert sol.Recorded() == b0 && sol.Valid();
    assert items[i..][1..] == items[i + 1..];
    ghost var with: seq<seq<Item>> := [];
    if right.cost <= info.limit {
      var w := Optimized2Recursive(sol, info, items, i + 1, right);
      if !w {
        return false;
      }
      with := BoundedRun(items[i + 1..], p + [items[i]], info.limit, info.lowerValueBound).checked;
    }
    var _ := Optimized2Recursive(sol, info, items, i + 1, sack);
    FoldAppend(info.limit, b0, with, BoundedRun(items[i + 1..], p, info.limit, info.lowerValueBound).checked);
    return true;
  }

  // ---------------------------------------------------------------------
  // Greedy fills

  /** The items the highest-value greedy fill takes from s, deciding them in
      order: an item is taken when it fits in what is left of the limit. */
  function GreedyFrom(s: seq<Item>, limit: int): seq<Item>
  {
    if |s| == 0 then []
    else
      var c := GreedyFrom(s[..|s| - 1], limit);
      if s[|s| - 1].cost <= limit - Cost(c) then c + [s[|s| - 1]] else c
  }

  /** The greedy fill takes each item of s at most once. */
  lemma {:induction false} GreedyTakesFromItems(s: seq<Item>, limit: int)
    ensures multiset(GreedyFrom(s, limit)) <= multiset(s)
    decreases |s|
  {
    if |s| > 0 {
      var n := |s| - 1;
      GreedyTakesFromItems(s[..n], limit);
      assert s == s[..n] + [s[n]];
    }
  }

  /** What is left of a non-negative limit never goes below zero. */
  lemma {:induction false} GreedyWithinLimit(s: seq<Item>, limit: int)
    requires limit >= 0
    ensures Cost(GreedyFrom(s, limit)) <= limit
    decreases |s|
  {
    if |s| > 0 {
      var n := |s| - 1;
      var c := GreedyFrom(s[..n], limit);
      GreedyWithinLimit(s[..n], limit);
      if s[n].cost <= limit - Cost(c) {
        assert (c + [s[n]])[..|c|] == c;
      }
    }
  }

  /** With non-negative costs the cost taken only grows as more items are
      decided. */
  lemma {:induction false} GreedyCostGrows(s: seq<Item>, limit: int, j: nat)
    requires NonNegativeCosts(s) && j <= |s|
    ensures Cost(GreedyFrom(s[..j], limit)) <= Cost(GreedyFrom(s, limit))
    decreases |s|
  {
    if j < |s| {
      var n := |s| - 1;
      var init := s[..n];
      assert NonNegativeCosts(init) by {
        forall k | 0 <= k < n ensures init[k].cost >= 0 { assert init[k] == s[k]; }
      }
      GreedyCostGrows(init, limit, j);
      assert init[..j] == s[..j];
      var c := GreedyFrom(init, limit);
      if s[n].cost <= limit - Cost(c) {
        assert (c + [s[n]])[..|c|] == c;
      }
    } else {
      assert s[..j] == s;
    }
  }

  /** With non-negative costs every item the greedy fill passes over does
      not fit in what is finally left of the limit. */
  lemma GreedySkippedDoNotFit(s: seq<Item>, limit: int, j: nat)
    requires NonNegativeCosts(s) && j < |s|
    requires GreedyFrom(s[..j + 1], limit) == GreedyFrom(s[..j], limit)
    ensures s[j].cost > limit - Cost(GreedyFrom(s, limit))
  {
    assert s[..j + 1][..j] == s[..j];
    assert s[..j + 1][j] == s[j];
    GreedyCostGrows(s, limit, j);
  }

  /** greedy_highest_value: over the items ordered by value, highest first,
      takes each item that fits in what is left of the limit. */
  method GreedyHighestValue(items: seq<Item>, ordered: seq<Item>, info: Info) returns (sol: Solution)
    requires ValueOrder(items, ordered)
    ensures fresh(sol) && sol.Valid() && sol.sackCounter == 0
    ensures sol.sack != null && sol.sack.items == GreedyFrom(ordered, info.limit)
  {
    var s := new Sack();
    var leftover := info.limit;
    for iter := 0 to |ordered|
      invariant s.Valid() && s.items == GreedyFrom(ordered[..iter], info.limit)
      invariant leftover == info.limit - s.cost
    {
      assert ordered[..iter + 1][..iter] == ordered[..iter];
      assert GreedyFrom(ordered[..iter + 1], info.limit) ==
        if ordered[iter].cost <= leftover then s.items + [ordered[iter]] else s.items;
      if ordered[iter].cost <= leftover {
        s.AddItem(ordered[iter]);
        leftover := leftover - ordered[iter].cost;
      }
    }
    assert ordered[..|ordered|] == ordered;
    sol := new Solution();
    sol.sack := s;
  }

  /** greedy_lowest_cost: over the items ordered by cost, cheapest first,
      takes items while they fit and stops at the first one that does not:
      the sack holds a prefix of the order, every item of it fitted when it
      was taken, the next item does not fit, and a non-negative limit is
      never exceeded. */
  method GreedyLowestCost(items: seq<Item>, ordered: seq<Item>, info: Info) returns (sol: Solution)
    requires CostOrder(items, ordered)
    ensures fresh(sol) && sol.Valid() && sol.sackCounter == 0 && sol.sack != null
    ensures |sol.sack.items| <= |ordered| && sol.sack.items == ordered[..|sol.sack.items|]
    ensures forall j :: 0 <= j < |sol.sack.items| ==> ordered[j].cost <= info.limit - Cost(ordered[..j])
    ensures |sol.sack.items| < |ordered| ==>
      ordered[|sol.sack.items|].cost > info.limit - Cost(sol.sack.items)
    ensures info.limit >= 0 ==> sol.sack.cost <= info.limit
  {
    var s := new Sack();
    var leftover := info.limit;
    var iter := 0;
    while iter < |ordered|
      invariant 0 <= iter <= |ordered|
      invariant s.Valid() && s.items == ordered[..iter]
      invariant leftover == info.limit - s.cost
      invariant forall j :: 0 <= j < iter ==> ordered[j].cost <= info.limit - Cost(ordered[..j])
      invariant info.limit >= 0 ==> leftover >= 0
    {
      if ordered[iter].cost <= leftover {
        assert ordered[..iter + 1] == ordered[..iter] + [ordered[iter]];
        s.AddItem(ordered[iter]);
        leftover := leftover - ordered[iter].cost;
        iter := iter + 1;
      } else {
        break;
      }
    }
    sol := new Solution();
    sol.sack := s;
  }
}
