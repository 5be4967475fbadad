/** knapsack1: exhaustive knapsack search over growable sacks, with a
    global best-so-far solution that every leaf sack is checked against. */
module Knapsack1 {
  import opened KnapsackSpec

  /** k_sack: a growable array of items (itemSz is |items|). */
  class Sack {
    var itemCap: nat
    var items: seq<Item>

    ghost predicate Valid()
      reads this
    {
      4 <= itemCap && |items| <= itemCap
    }

    /** k_sack_new: an empty sack with room for four items. */
    constructor ()
      ensures Valid() && items == [] && itemCap == 4
    {
      itemCap := 4;
      items := [];
    }

    /** k_sack_copy: a separate sack with the same capacity and items. */
    method Copy() returns (c: Sack)
      requires Valid()
      ensures fresh(c) && c.Valid() && c.itemCap == itemCap && c.items == items
    {
      c := new Sack();
      c.itemCap := itemCap;
      c.items := items;
    }

    /** k_sack_add_item: appends the item, quadrupling the capacity when the
        sack is full. */
    method AddItem(item: Item)
      requires Valid()
      modifies this
      ensures Valid() && items == old(items) + [item]
      ensures itemCap == if old(|items|) >= old(itemCap) then 4 * old(itemCap) else old(itemCap)
    {
      if |items| >= itemCap {
        itemCap := itemCap * 4;
      }
      items := items + [item];
    }

    /** k_sack_sum_up: the total cost and value of the items. */
    method SumUp() returns (cost: int, value: int)
      ensures cost == Cost(items) && value == Value(items)
    {
      cost, value := 0, 0;
      for i := 0 to |items|
        invariant cost == Cost(items[..i]) && value == Value(items[..i])
      {
        assert items[..i + 1][..i] == items[..i];
        cost := cost + items[i].cost;
        value := value + items[i].value;
      }
      assert items[..|items|] == items;
    }
  }

  /** k_solution: the cost limit and the best sack found so far. */
  class Solution {
    var limit: int
    var bestCost: int
    var bestValue: int
    var bestSack: Sack?

    /** The recorded best, as the acceptance rule sees it. */
    ghost function Recorded(): Best
      reads this, bestSack
    {
      if bestSack == null then NoBest else Best(bestCost, bestValue, bestSack.items)
    }

    /** k_solution_new with the limit read from the input; the best cost and
        value stay unset until a sack is accepted. */
    constructor (limit: int)
      ensures this.limit == limit && bestSack == null && Recorded() == NoBest
    {
      this.limit := limit;
      bestSack := null;
    }

    /** k_solution_check_sack: accepts the sack exactly when it is within the
        limit and there is no best yet or it is strictly more valuable, and
        then records it with its sums; otherwise nothing changes. */
    method CheckSack(sack: Sack) returns (accepted: bool)
      modifies this
      ensures limit == old(limit)
      ensures accepted <==> Cost(sack.items) <= limit && (old(bestSack) == null || Value(sack.items) > old(bestValue))
      ensures accepted ==> bestSack == sack && bestCost == Cost(sack.items) && bestValue == Value(sack.items)
      ensures !accepted ==> bestSack == old(bestSack) && bestCost == old(bestCost) && bestValue == old(bestValue)
      ensures Recorded() == Accept(limit, old(Recorded()), sack.items)
    {
      var cost, value := sack.SumUp();
      if cost <= limit && (bestSack == null || value > bestValue) {
        bestCost := cost;
        bestValue := value;
        bestSack := sack;
        accepted := true;
      } else {
        accepted := false;
      }
    }
  }

  /** knapsack_candidates_recursive over items[i..]: the subtree without
      items[i] first, then the subtree with it; every leaf sack is checked,
      and the recorded best becomes the acceptance rule folded over the
      leaves in that order. No existing sack is changed. */
  method CandidatesRecursive(sol: Solution, items: seq<Item>, i: nat, sack: Sack)
    requires i <= |items| && sack.Valid()
    modifies sol
    ensures sol.limit == old(sol.limit)
    ensures sol.Recorded() == Fold(sol.limit, old(sol.Recorded()), Leaves(items[i..], sack.items))
    ensures sol.bestSack == old(sol.bestSack) || sol.bestSack == sack || fresh(sol.bestSack)
    decreases |items| - i
  {
    if i == |items| {
      var _ := sol.CheckSack(sack);
      return;
    }
    var p := sack.items;
    ghost var b0 := sol.Recorded();
    var right := sack.Copy();
    CandidatesRecursive(sol, items, i + 1, sack);
    ghost var b1 := sol.Recorded();
    right.AddItem(items[i]);
    assert sol.Recorded() == b1;
    CandidatesRecursive(sol, items, i + 1, right);
    assert items[i..][1..] == items[i + 1..];
    FoldAppend(sol.limit, b0, Leaves(items[i + 1..], p), Leaves(items[i + 1..], p + [items[i]]));
  }

  /** The search of knapsack(): an empty item set is rejected; otherwise
      the search starts from an empty sack and ends with the best sack of
      every subset within the limit, which exists when the limit is not
      negative. */
  method Knapsack(limit: int, items: seq<Item>) returns (sol: Solution?)
    ensures (sol == null) <==> |items| == 0
    ensures sol != null ==> sol.limit == limit && sol.Recorded() == Fold(limit, NoBest, Leaves(items, []))
    ensures sol != null && limit >= 0 ==>
      sol.bestSack != null && sol.bestCost == Cost(sol.bestSack.items) <= limit &&
      sol.bestValue == Value(sol.bestSack.items)
    ensures sol != null ==> forall m :: |m| == |items| && Cost(Pick(items, m)) <= limit ==>
      sol.bestSack != null && Value(Pick(items, m)) <= sol.bestValue
  {
    if |items| == 0 {
      return null;
    }
    sol := new Solution(limit);
    var sack := new Sack();
    CandidatesRecursive(sol, items, 0, sack);
    assert items[0..] == items;
    SearchOptimal(items, limit);
    ghost var r := Fold(limit, NoBest, Leaves(items, []));
    assert sol.Recorded() == r;
  }
}
