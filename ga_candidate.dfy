/** ga-knapsack.c: the knapsack instance as the genetic algorithm sees it and
    its bit-packed candidates. Gene i of a candidate is bit i % 8 of byte
    i / 8 and says whether item i is in the candidate's sack. */
module GaCandidate {
  import opened KnapsackSpec
  import opened Wrappers

  const POPULATION_LIMIT: nat := 100
  const UNINITIALIZED_VALUE: int := -1

  /** bytecnt: the least number of bytes with one bit per item. */
  function ByteCount(itemSz: nat): (n: nat)
    ensures 8 * n >= itemSz && (n == 0 || 8 * (n - 1) < itemSz)
  {
    itemSz / 8 + (if itemSz % 8 > 0 then 1 else 0)
  }

  /** gak_instance once its items are read: the cost limit, the items and
      the candidate sizes in bytes and bits. */
  datatype Instance = Instance(costLimit: int, items: seq<Item>, bitcnt: nat, bytecnt: nat)
  {
    ghost predicate Valid()
    {
      |items| > 0 && bytecnt == ByteCount(|items|) && bitcnt == 8 * bytecnt
    }
  }

  /** The end of gak_instance_new: an empty item set is an error; otherwise
      the byte and bit counts are computed from the number of items. */
  function NewInstance(costLimit: int, items: seq<Item>): (r: Option<Instance>)
    ensures r.None? <==> |items| == 0
    ensures r.Some? ==> r.value.Valid() && r.value.costLimit == costLimit && r.value.items == items
  {
    if |items| == 0 then None
    else
      var bytecnt := |items| / 8 + (if |items| % 8 > 0 then 1 else 0);
      Some(Instance(costLimit, items, bytecnt * 8, bytecnt))
  }

  /** 1 << i for a bit index i of a byte. */
  function Mask(i: nat): (m: bv8)
    requires i < 8
    ensures m == 1 << i
  {
    if i == 0 then 0x01 else if i == 1 then 0x02 else if i == 2 then 0x04 else if i == 3 then 0x08
    else if i == 4 then 0x10 else if i == 5 then 0x20 else if i == 6 then 0x40 else 0x80
  }

  /** The byte whose bits 0..n-1 are set and whose other bits are clear. */
  function Low(n: nat): (m: bv8)
    requires n <= 8
    ensures forall i :: 0 <= i < 8 ==> (m & Mask(i) != 0 <==> i < n)
  {
    if n == 0 then 0x00 else if n == 1 then 0x01 else if n == 2 then 0x03 else if n == 3 then 0x07
    else if n == 4 then 0x0F else if n == 5 then 0x1F else if n == 6 then 0x3F else if n == 7 then 0x7F else 0xFF
  }

  /** Bit i of byte b is set: the test (b >> i) & 1 of the source. */
  predicate Bit(b: bv8, i: nat)
    requires i < 8
  {
    b & Mask(i) != 0
  }

  /** The genes 0..n-1 of a bit string. */
  function Genes(bits: seq<bv8>, n: nat): (g: seq<bool>)
    requires n <= 8 * |bits|
    ensures |g| == n
  {
    seq(n, i requires 0 <= i < n => Bit(bits[i / 8], i % 8))
  }

  /** The items a candidate's bit string puts in the sack, in item order. */
  function Chosen(inst: Instance, bits: seq<bv8>): seq<Item>
    requires inst.Valid() && |bits| == inst.bytecnt
  {
    Pick(inst.items, Genes(bits, |inst.items|))
  }

  /** The fitness the metrics give a bit string: the value of its sack, or
      0 when the sack is over the cost limit. */
  function Fitness(inst: Instance, bits: seq<bv8>): int
    requires inst.Valid() && |bits| == inst.bytecnt
  {
    if Cost(Chosen(inst, bits)) > inst.costLimit then 0 else Value(Chosen(inst, bits))
  }

  /** No candidate is fitter than the best sack of the exhaustive search:
      with a limit that is not negative and values that are not negative,
      every fitness lies between 0 and the optimum value. */
  lemma FitnessAtMostOptimum(inst: Instance, bits: seq<bv8>)
    requires inst.Valid() && |bits| == inst.bytecnt
    requires inst.costLimit >= 0 && NonNegativeValues(inst.items)
    ensures Fold(inst.costLimit, NoBest, Leaves(inst.items, [])).Best?
    ensures 0 <= Fitness(inst, bits) <= Fold(inst.costLimit, NoBest, Leaves(inst.items, [])).value
  {
    var items := inst.items;
    SearchOptimal(items, inst.costLimit);
    var genes := Genes(bits, |items|);
    ValueOfPickNonNegative(items, genes);
    if Cost(Pick(items, genes)) <= inst.costLimit {
      assert Fitness(inst, bits) == Value(Pick(items, genes));
    } else {
      var none := seq(|items|, i => false);
      PickNoneIsEmpty(items, none);
      assert Cost(Pick(items, none)) <= inst.costLimit;
      assert Fitness(inst, bits) == 0 == Value(Pick(items, none));
    }
  }

  lemma {:induction false} PickNoneIsEmpty(items: seq<Item>, m: seq<bool>)
    requires |m| == |items| && forall i :: 0 <= i < |m| ==> !m[i]
    ensures Pick(items, m) == []
  {
    if |items| > 0 {
      PickNoneIsEmpty(items[1..], m[1..]);
    }
  }

  lemma {:induction false} ValueOfPickNonNegative(items: seq<Item>, m: seq<bool>)
    requires |m| == |items| && NonNegativeValues(items)
    ensures Value(Pick(items, m)) >= 0
  {
    if |items| > 0 {
      assert forall k :: 0 <= k < |items| - 1 ==> items[1..][k] == items[k + 1];
      ValueOfPickNonNegative(items[1..], m[1..]);
      SumsAppend(if m[0] then [items[0]] else [], Pick(items[1..], m[1..]));
      assert Value([items[0]]) == items[0].value;
    }
  }

  /** One more gene adds its item's cost and value when it is set. */
  lemma PickOneMore(items: seq<Item>, genes: seq<bool>, i: nat)
    requires i < |items| == |genes|
    ensures Cost(Pick(items[..i + 1], genes[..i + 1])) ==
      Cost(Pick(items[..i], genes[..i])) + (if genes[i] then items[i].cost else 0)
    ensures Value(Pick(items[..i + 1], genes[..i + 1])) ==
      Value(Pick(items[..i], genes[..i])) + (if genes[i] then items[i].value else 0)
  {
    var before := Pick(items[..i], genes[..i]);
    PickSnoc(items[..i], genes[..i], items[i], genes[i]);
    assert items[..i + 1] == items[..i] + [items[i]];
    assert genes[..i + 1] == genes[..i] + [genes[i]];
    var one := if genes[i] then [items[i]] else [];
    SumsAppend(before, one);
    assert Cost([items[i]]) == items[i].cost && Value([items[i]]) == items[i].value;
  }

  /** gak_candidate: the cached metrics and the bit string. */
  class Candidate {
    var fitness: int
    var value: int
    var cost: int
    const bits: array<bv8>

    /** The allocation in gak_candidate_new_crossover: metrics unset and a
        zeroed bit string of bytecnt bytes. */
    constructor (bytecnt: nat)
      ensures fitness == UNINITIALIZED_VALUE && value == UNINITIALIZED_VALUE && cost == UNINITIALIZED_VALUE
      ensures fresh(bits) && bits.Length == bytecnt && forall k :: 0 <= k < bytecnt ==> bits[k] == 0
    {
      fitness := UNINITIALIZED_VALUE;
      value := UNINITIALIZED_VALUE;
      cost := UNINITIALIZED_VALUE;
      bits := new bv8[bytecnt](_ => 0);
    }
  }

  /** gak_instance_apply_metrics: sums the cost and value of the items
      whose genes are set, walking the bits with a byte and an offset
      counter, and sets the fitness. */
  method ApplyMetrics(inst: Instance, cand: Candidate)
    requires inst.Valid() && cand.bits.Length == inst.bytecnt
    modifies cand
    ensures cand.cost == Cost(Chosen(inst, cand.bits[..]))
    ensures cand.value == Value(Chosen(inst, cand.bits[..]))
    ensures cand.fitness == Fitness(inst, cand.bits[..])
  {
    ghost var genes := Genes(cand.bits[..], |inst.items|);
    var off, pos := 0, 0;
    cand.value, cand.cost := 0, 0;
    for iter := 0 to |inst.items|
      invariant pos == iter / 8 && off == iter % 8
      invariant cand.cost == Cost(Pick(inst.items[..iter], genes[..iter]))
      invariant cand.value == Value(Pick(inst.items[..iter], genes[..iter]))
    {
      assert genes[iter] == Bit(cand.bits[pos], off);
      PickOneMore(inst.items, genes, iter);
      if Bit(cand.bits[pos], off) {
        cand.value := cand.value + inst.items[iter].value;
        cand.cost := cand.cost + inst.items[iter].cost;
      }
      off := off + 1;
      if off >= 8 {
        pos := pos + 1;
        off := 0;
      }
    }
    assert inst.items[..|inst.items|] == inst.items;
    assert genes[..|inst.items|] == genes;
    if cand.cost > inst.costLimit {
      cand.fitness := 0;
    } else {
      cand.fitness := cand.value;
    }
  }

  /** zero_last_bits on byte k of a bit string: clears the top lastBits
      bits of the byte and keeps the low 8 - lastBits bits. */
  method ZeroLastBits(bits: array<bv8>, k: nat, lastBits: nat)
    requires k < bits.Length && lastBits <= 8
    modifies bits
    ensures bits[..] == old(bits[..])[k := old(bits[k]) & Low(8 - lastBits)]
  {
    var pattern: bv8 := 0xFF;
    var l := lastBits;
    while l > 0
      invariant 0 <= l <= lastBits
      invariant pattern == Low(8 - lastBits) | !Low(8 - l)
    {
      pattern := pattern & !Mask(8 - l);
      l := l - 1;
    }
    bits[k] := bits[k] & pattern;
  }

  /** The number of bits of the last byte that hold no gene. */
  function UnusedBits(itemSz: nat): (r: nat)
    ensures r < 8 && (itemSz + r) % 8 == 0
  {
    8 * ByteCount(itemSz) - itemSz
  }

  /** The count the source passes to zero_last_bits: bitcnt % itemSz. */
  function LastBitsAsWritten(inst: Instance): (r: nat)
    requires inst.Valid()
    ensures r < |inst.items|
  {
    inst.bitcnt % |inst.items|
  }

  /** Clearing UnusedBits bits of the last byte clears exactly the bits
      beyond the last gene and keeps every gene. */
  lemma ZeroUnusedClearsTail(inst: Instance, b: bv8, i: nat)
    requires inst.Valid() && i < 8
    ensures Bit(b & Low(8 - UnusedBits(|inst.items|)), i) <==>
      Bit(b, i) && 8 * (inst.bytecnt - 1) + i < |inst.items|
  {
    assert (b & Low(8 - UnusedBits(|inst.items|))) & Mask(i) == b & (Low(8 - UnusedBits(|inst.items|)) & Mask(i));
  }

  /** From eight items on, bitcnt % itemSz is the number of unused bits. */
  lemma LastBitsAsWrittenFromEight(inst: Instance)
    requires inst.Valid() && |inst.items| >= 8
    ensures LastBitsAsWritten(inst) == UnusedBits(|inst.items|)
  {
    var n, x := |inst.items|, inst.bitcnt;
    assert n <= x < n + 8 && UnusedBits(n) == x - n;
    ModOnce(x, n);
  }

  /** The count as written never exceeds the number of unused bits, so it
      clears padding only: with fewer than eight items bitcnt is 8 and
      8 % itemSz <= 8 - itemSz; from eight on the two agree. */
  lemma LastBitsAsWrittenAtMostUnused(inst: Instance)
    requires inst.Valid()
    ensures LastBitsAsWritten(inst) <= UnusedBits(|inst.items|) < 8
  {
    var n := |inst.items|;
    if n >= 8 {
      LastBitsAsWrittenFromEight(inst);
    } else {
      assert inst.bytecnt == 1 && inst.bitcnt == 8;
      assert n == 1 || n == 2 || n == 3 || n == 4 || n == 5 || n == 6 || n == 7;
    }
  }

  /** Clearing the top l bits of a byte keeps exactly its bits below 8 - l. */
  lemma ClearTopBits(b: bv8, i: nat, l: nat)
    requires i < 8 && l <= 8
    ensures Bit(b & Low(8 - l), i) <==> Bit(b, i) && i < 8 - l
  {
    assert (b & Low(8 - l)) & Mask(i) == b & (Low(8 - l) & Mask(i));
  }

  lemma ModOnce(x: int, n: int)
    requires 0 < n <= x < 2 * n
    ensures x % n == x - n
  {
    assert (x - n) + n * 1 == x;
  }

  /** With three items the source clears only the top two bits of the last
      byte, so a byte with all bits set keeps padding bit 3 set. */
  lemma LastBitsAsWrittenKeepsPaddingBitThree(inst: Instance)
    requires inst.Valid() && |inst.items| == 3
    ensures LastBitsAsWritten(inst) == 2 && UnusedBits(3) == 5
    ensures Bit(0xFF & Low(8 - LastBitsAsWritten(inst)), 3)
    ensures !Bit(0xFF & Low(8 - UnusedBits(3)), 3)
  {
    assert inst.bytecnt == 1;
  }

  /** The gene positions the mutation draws: draw % itemSz for each draw. */
  function GenePositions(draws: seq<nat>, itemSz: nat): (gs: seq<nat>)
    requires itemSz > 0
    ensures |gs| == |draws| && forall j :: 0 <= j < |gs| ==> gs[j] < itemSz
  {
    seq(|draws|, j requires 0 <= j < |draws| => draws[j] % itemSz)
  }

  /** The gene update b ^= b & (1 << u): it clears bit u and nothing else. */
  function ClearBit(b: bv8, u: nat): (r: bv8)
    requires u < 8
    ensures r == b & !Mask(u)
  {
    b ^ (b & Mask(u))
  }

  predicate InBytes(gs: seq<nat>, n: nat)
  {
    forall j :: 0 <= j < |gs| ==> gs[j] / 8 < n
  }

  /** The bit string after the gene updates at the positions gs, in order. */
  function ClearGenes(b: seq<bv8>, gs: seq<nat>): (r: seq<bv8>)
    requires InBytes(gs, |b|)
    ensures |r| == |b|
  {
    if |gs| == 0 then b
    else
      var c := ClearGenes(b, gs[..|gs| - 1]);
      var g := gs[|gs| - 1];
      c[g / 8 := ClearBit(c[g / 8], g % 8)]
  }

  /** The bits of byte k at the positions in gs. */
  function Drawn(gs: seq<nat>, k: nat): bv8
  {
    if |gs| == 0 then 0
    else
      var g := gs[|gs| - 1];
      Drawn(gs[..|gs| - 1], k) | (if g / 8 == k then Mask(g % 8) else 0)
  }

  /** The mutation only clears: every byte loses exactly the drawn bits and
      keeps all others; no bit is ever set. */
  lemma {:induction false} ClearGenesClears(b: seq<bv8>, gs: seq<nat>, k: nat)
    requires InBytes(gs, |b|) && k < |b|
    ensures ClearGenes(b, gs)[k] == b[k] & !Drawn(gs, k)
    ensures ClearGenes(b, gs)[k] & !b[k] == 0
  {
    if |gs| > 0 {
      ClearGenesClears(b, gs[..|gs| - 1], k);
    }
  }

  /** gak_candidate_mutate: one gene update per draw, at gene
      draw % itemSz. */
  method Mutate(cand: Candidate, inst: Instance, draws: seq<nat>)
    requires inst.Valid() && cand.bits.Length == inst.bytecnt
    modifies cand.bits
    ensures cand.bits[..] == ClearGenes(old(cand.bits[..]), GenePositions(draws, |inst.items|))
  {
    ghost var gs := GenePositions(draws, |inst.items|);
    for iter := 0 to |draws|
      invariant InBytes(gs[..iter], cand.bits.Length)
      invariant cand.bits[..] == ClearGenes(old(cand.bits[..]), gs[..iter])
    {
      var t := draws[iter] % |inst.items|;
      var u := t % 8;
      t := t / 8;
      assert gs[..iter + 1][..iter] == gs[..iter];
      cand.bits[t] := cand.bits[t] ^ (cand.bits[t] & Mask(u));
    }
    assert gs[..|draws|] == gs;
  }

  /** gak_candidate_compare: true exactly when the first bytecnt bytes of
      the two bit strings agree. */
  method CandidateCompare(candA: Candidate, candB: Candidate, inst: Instance) returns (eq: bool)
    requires candA.bits.Length >= inst.bytecnt && candB.bits.Length >= inst.bytecnt
    ensures eq <==> candA.bits[..inst.bytecnt] == candB.bits[..inst.bytecnt]
  {
    for i := 0 to inst.bytecnt
      invariant candA.bits[..i] == candB.bits[..i]
    {
      if candA.bits[i] != candB.bits[i] {
        assert candA.bits[..inst.bytecnt][i] != candB.bits[..inst.bytecnt][i];
        return false;
      }
      assert candA.bits[..i + 1] == candA.bits[..i] + [candA.bits[i]];
      assert candB.bits[..i + 1] == candB.bits[..i] + [candB.bits[i]];
    }
    return true;
  }
}
