/** ga-knapsack.c: the two crossover operators. Each ORs genes of parent A
    and parent B into a child bit string of the same size; `bits` is the
    number of genes (the item count). */
module GaCrossover {
  import opened GaCandidate

  function Min(x: int, y: int): int
  {
    if x <= y then x else y
  }

  /** Gene g of a bit string. */
  predicate HasGene(c: seq<bv8>, g: nat)
    requires g < 8 * |c|
  {
    Bit(c[g / 8], g % 8)
  }

  // ---------------------------------------------------------------------
  // crossover_random

  function Clamp8(n: int): nat
  {
    if n < 0 then 0 else if n > 8 then 8 else n
  }

  /** The bits i of a byte for which crossover_random takes parent A:
      those with rem - i >= pnt, where rem is the number of genes from
      this byte on. */
  function FromA(rem: int, pnt: int): bv8
  {
    Low(Clamp8(rem - pnt + 1))
  }

  lemma FromABit(rem: int, pnt: int, i: nat)
    requires i < 8
    ensures Bit(FromA(rem, pnt), i) <==> rem - i >= pnt
  {
  }

  /** The bits crossover_random ORs into one child byte when its inner loop
      runs over bits 0..t-1: each from parent byte a where FromA has it and
      from b elsewhere. */
  function RandomByte(a: bv8, b: bv8, rem: int, pnt: int, t: nat): bv8
    requires t <= 8
  {
    ((a & FromA(rem, pnt)) | (b & !FromA(rem, pnt))) & Low(t)
  }

  /** One pass of the inner loop adds bit i of the chosen parent. */
  lemma RandomByteStep(a: bv8, b: bv8, rem: int, pnt: int, i: nat)
    requires i < 8
    ensures RandomByte(a, b, rem, pnt, i + 1) ==
      RandomByte(a, b, rem, pnt, i) | ((if rem - i >= pnt then a else b) & Mask(i))
  {
    FromABit(rem, pnt, i);
    assert Low(i + 1) == Low(i) | Mask(i);
  }

  /** Bit i of the byte is bit i of the parent chosen for it, and only bits
      below t are set. */
  lemma RandomByteBit(a: bv8, b: bv8, rem: int, pnt: int, t: nat, i: nat)
    requires t <= 8 && i < 8
    ensures Bit(RandomByte(a, b, rem, pnt, t), i) <==> i < t && Bit(if rem - i >= pnt then a else b, i)
  {
    FromABit(rem, pnt, i);
  }

  /** The byte holds only bits set in one of the parents. */
  lemma RandomByteWithin(a: bv8, b: bv8, rem: int, pnt: int, t: nat)
    requires t <= 8
    ensures RandomByte(a, b, rem, pnt, t) & !(a | b) == 0
  {
  }

  /** The child byte k after crossover_random. */
  function RandomChildByte(parentA: seq<bv8>, parentB: seq<bv8>, child: seq<bv8>, bits: nat, pnt: nat, k: nat): bv8
    requires |parentA| == |parentB| == |child| == ByteCount(bits) && k < |child|
  {
    child[k] | RandomByte(parentA[k], parentB[k], bits - 8 * k, pnt, Min(8, bits - 8 * k))
  }

  /** crossover_random: the crossover point is draw % bits; gene g of the
      child is ORed with gene g of parent A when bits - g >= pnt and with
      gene g of parent B otherwise. */
  method CrossoverRandom(parentA: array<bv8>, parentB: array<bv8>, child: array<bv8>, bits: nat, draw: nat)
    requires bits > 0 && parentA.Length == parentB.Length == child.Length == ByteCount(bits)
    requires child != parentA && child != parentB
    modifies child
    ensures forall k :: 0 <= k < child.Length ==>
      child[k] == RandomChildByte(parentA[..], parentB[..], old(child[..]), bits, draw % bits, k)
  {
    var pnt := draw % bits;
    var rem := bits;
    var k := 0;
    while rem > 0
      invariant 0 <= rem <= bits
      invariant rem > 0 ==> rem == bits - 8 * k && k < child.Length
      invariant forall j :: 0 <= j < child.Length ==>
        child[j] == if j < (if rem == 0 then child.Length else k)
          then RandomChildByte(parentA[..], parentB[..], old(child[..]), bits, pnt, j)
          else old(child[j])
      decreases rem
    {
      var t := if rem > 8 then 8 else rem;
      FillByte(parentA, parentB, child, k, rem, pnt, t);
      rem := rem - t;
      if t == 8 {
        k := k + 1;
      }
    }
  }

  /** The inner loop of crossover_random on child byte k. */
  method FillByte(parentA: array<bv8>, parentB: array<bv8>, child: array<bv8>, k: nat, rem: int, pnt: int, t: nat)
    requires k < parentA.Length && k < parentB.Length && k < child.Length && t <= 8
    requires child != parentA && child != parentB
    modifies child
    ensures child[..] == old(child[..])[k := old(child[k]) | RandomByte(parentA[k], parentB[k], rem, pnt, t)]
  {
    ghost var c := child[..];
    for i := 0 to t
      invariant child[..] == c[k := c[k] | RandomByte(parentA[k], parentB[k], rem, pnt, i)]
    {
      RandomByteStep(parentA[k], parentB[k], rem, pnt, i);
      child[k] := child[k] | ((if rem - i >= pnt then parentA[k] else parentB[k]) & Mask(i));
    }
  }

  /** The child of crossover_random holds only genes that were already set
      in it or that are set in one of the parents. */
  lemma RandomChildWithin(parentA: seq<bv8>, parentB: seq<bv8>, child: seq<bv8>, bits: nat, pnt: nat, k: nat)
    requires |parentA| == |parentB| == |child| == ByteCount(bits) && k < |child|
    ensures RandomChildByte(parentA, parentB, child, bits, pnt, k) & !(child[k] | parentA[k] | parentB[k]) == 0
  {
    RandomByteWithin(parentA[k], parentB[k], bits - 8 * k, pnt, Min(8, bits - 8 * k));
  }

  /** Gene by gene: gene g < bits of the child of crossover_random is set
      when it was set before or when it is set in parent A (if
      bits - g >= pnt) or parent B (otherwise); the padding genes from bits
      on are left as they were. */
  lemma RandomChildGene(parentA: seq<bv8>, parentB: seq<bv8>, child: seq<bv8>, bits: nat, pnt: nat, g: nat)
    requires |parentA| == |parentB| == |child| == ByteCount(bits) && g < 8 * |child|
    ensures Bit(RandomChildByte(parentA, parentB, child, bits, pnt, g / 8), g % 8) <==>
      (HasGene(child, g) || (g < bits && HasGene(if bits - g >= pnt then parentA else parentB, g)))
  {
    var k, i := g / 8, g % 8;
    var x, y := child[k], RandomByte(parentA[k], parentB[k], bits - 8 * k, pnt, Min(8, bits - 8 * k));
    RandomByteBit(parentA[k], parentB[k], bits - 8 * k, pnt, Min(8, bits - 8 * k), i);
    assert (x | y) & Mask(i) == (x & Mask(i)) | (y & Mask(i));
  }

  // ---------------------------------------------------------------------
  // crossover_alternate

  /** The first gene at or after p that is set, or |g| when there is none. */
  function NextSet(g: seq<bool>, p: nat): (q: nat)
    requires p <= |g|
    ensures p <= q <= |g| && (q < |g| ==> g[q])
    ensures forall j :: p <= j < q ==> !g[j]
    decreases |g| - p
  {
    if p == |g| || g[p] then p else NextSet(g, p + 1)
  }

  /** The genes crossover_alternate sets in the child from the cursors ai
      into parent A and bi into parent B: it takes the next set gene of
      parent B, then of parent A, and so on by turns, until either cursor
      runs off the end. */
  function Picks(ga: seq<bool>, gb: seq<bool>, ai: nat, bi: nat, toggle: bool): set<nat>
    requires |ga| == |gb| && ai <= |ga| && bi <= |gb|
    decreases 2 * |ga| - ai - bi
  {
    if ai == |ga| || bi == |gb| then {}
    else if toggle then
      var q := NextSet(ga, ai);
      if q < |ga| then {q} + Picks(ga, gb, q + 1, bi, false) else Picks(ga, gb, q, bi, false)
    else
      var q := NextSet(gb, bi);
      if q < |gb| then {q} + Picks(ga, gb, ai, q + 1, true) else Picks(ga, gb, ai, q, true)
  }

  /** Every gene crossover_alternate takes is a gene set in one of the
      parents. */
  lemma {:induction false} PicksFromParents(ga: seq<bool>, gb: seq<bool>, ai: nat, bi: nat, toggle: bool, q: nat)
    requires |ga| == |gb| && ai <= |ga| && bi <= |gb|
    requires q in Picks(ga, gb, ai, bi, toggle)
    ensures q < |ga| && (ga[q] || gb[q])
    decreases 2 * |ga| - ai - bi
  {
    if toggle {
      var n := NextSet(ga, ai);
      if n != q {
        PicksFromParents(ga, gb, if n < |ga| then n + 1 else n, bi, false, q);
      }
    } else {
      var n := NextSet(gb, bi);
      if n != q {
        PicksFromParents(ga, gb, ai, if n < |gb| then n + 1 else n, true, q);
      }
    }
  }

  /** A gene cursor of crossover_alternate: bit `off` of byte `byteIdx`,
      which is gene `gi`. */
  predicate Cursor(gi: nat, byteIdx: nat, off: nat)
  {
    gi == 8 * byteIdx + off && off < 8
  }

  /** The gene a cursor stands on is the bit it addresses. */
  lemma CursorGene(bytes: seq<bv8>, bits: nat, gi: nat, byteIdx: nat, off: nat)
    requires bits <= 8 * |bytes| && gi < bits && Cursor(gi, byteIdx, off)
    ensures byteIdx < |bytes| && Genes(bytes, bits)[gi] == Bit(bytes[byteIdx], off)
  {
    assert gi / 8 == byteIdx && gi % 8 == off;
  }

  /** The step both turns share: the cursor moves one gene on. */
  method Advance(gi: nat, byteIdx: nat, off: nat) returns (gi': nat, byteIdx': nat, off': nat)
    requires Cursor(gi, byteIdx, off)
    ensures Cursor(gi', byteIdx', off') && gi' == gi + 1
  {
    gi', byteIdx', off' := gi + 1, byteIdx, off + 1;
    if off' >= 8 {
      byteIdx' := byteIdx' + 1;
      off' := 0;
    }
  }

  /** The scan of one turn: the cursor moves over the clear genes of the
      parent to its next set gene, or to the end. */
  method ScanParent(parent: array<bv8>, bits: nat, gi: nat, byteIdx: nat, off: nat) returns (gi': nat, byteIdx': nat, off': nat)
    requires parent.Length == ByteCount(bits) && gi <= bits && Cursor(gi, byteIdx, off)
    ensures Cursor(gi', byteIdx', off') && gi' == NextSet(Genes(parent[..], bits), gi)
  {
    ghost var g := Genes(parent[..], bits);
    gi', byteIdx', off' := gi, byteIdx, off;
    while gi' < bits && (CursorGene(parent[..], bits, gi', byteIdx', off'); parent[byteIdx'] & Mask(off') == 0)
      invariant gi <= gi' <= bits && Cursor(gi', byteIdx', off')
      invariant NextSet(g, gi') == NextSet(g, gi)
      decreases bits - gi'
    {
      CursorGene(parent[..], bits, gi', byteIdx', off');
      gi', byteIdx', off' := Advance(gi', byteIdx', off');
    }
    if gi' < bits {
      CursorGene(parent[..], bits, gi', byteIdx', off');
    }
  }

  /** Setting bit off of byte j sets gene 8 * j + off and no other gene. */
  lemma SetGene(c: seq<bv8>, j: nat, off: nat, g: nat)
    requires j < |c| && off < 8 && g < 8 * |c|
    ensures Bit(c[j := c[j] | Mask(off)][g / 8], g % 8) <==> Bit(c[g / 8], g % 8) || g == 8 * j + off
  {
    if g / 8 == j {
      assert (c[j] | Mask(off)) & Mask(g % 8) == (c[j] & Mask(g % 8)) | (Mask(off) & Mask(g % 8));
    }
  }

  /** One turn of crossover_alternate on one parent: scan to the parent's
      next set gene q and, when there is one, set gene q of the child and
      move the cursor past it. */
  method Turn(parent: array<bv8>, child: array<bv8>, bits: nat, gi: nat, byteIdx: nat, off: nat)
    returns (gi': nat, byteIdx': nat, off': nat, q: nat)
    requires parent.Length == child.Length == ByteCount(bits) && child != parent
    requires gi <= bits && Cursor(gi, byteIdx, off)
    modifies child
    ensures q == NextSet(Genes(parent[..], bits), gi) && Cursor(gi', byteIdx', off')
    ensures q == bits ==> gi' == bits && child[..] == old(child[..])
    ensures q < bits ==> gi' == q + 1 && forall g :: 0 <= g < 8 * child.Length ==>
      (HasGene(child[..], g) <==> (HasGene(old(child[..]), g) || g == q))
  {
    q, byteIdx', off' := ScanParent(parent, bits, gi, byteIdx, off);
    gi' := q;
    if q < bits {
      ghost var c := child[..];
      CursorGene(child[..], bits, q, byteIdx', off');
      child[byteIdx'] := child[byteIdx'] | Mask(off');
      forall g | 0 <= g < 8 * child.Length
        ensures HasGene(child[..], g) <==> (HasGene(c, g) || g == q)
      {
        SetGene(c, byteIdx', off', g);
      }
      gi', byteIdx', off' := Advance(q, byteIdx', off');
    }
  }

  /** A turn takes the parent's next set gene, if any, and hands over to
      the other parent. */
  lemma PicksTurn(ga: seq<bool>, gb: seq<bool>, ai: nat, bi: nat, toggle: bool, ai': nat, bi': nat, q: nat)
    requires |ga| == |gb| && ai < |ga| && bi < |gb|
    requires toggle ==> q == NextSet(ga, ai) && bi' == bi && ai' == (if q < |ga| then q + 1 else q)
    requires !toggle ==> q == NextSet(gb, bi) && ai' == ai && bi' == (if q < |gb| then q + 1 else q)
    ensures Picks(ga, gb, ai, bi, toggle) == (if q < |ga| then {q} else {}) + Picks(ga, gb, ai', bi', !toggle)
  {
  }

  /** crossover_alternate: the child gets the genes Picks names, and keeps
      the genes it had. */
  method CrossoverAlternate(parentA: array<bv8>, parentB: array<bv8>, child: array<bv8>, bits: nat)
    requires parentA.Length == parentB.Length == child.Length == ByteCount(bits)
    requires child != parentA && child != parentB
    modifies child
    ensures forall g :: 0 <= g < 8 * child.Length ==>
      (HasGene(child[..], g) <==>
        (HasGene(old(child[..]), g) || g in Picks(Genes(parentA[..], bits), Genes(parentB[..], bits), 0, 0, false)))
  {
    ghost var ga, gb := Genes(parentA[..], bits), Genes(parentB[..], bits);
    ghost var c0 := child[..];
    ghost var picked: set<nat> := {};
    var a: nat, ai: nat, aj: nat := 0, 0, 0;
    var b: nat, bi: nat, bj: nat := 0, 0, 0;
    var toggle := false;
    while ai < bits && bi < bits
      invariant ai <= bits && bi <= bits && Cursor(ai, aj, a) && Cursor(bi, bj, b)
      invariant picked + Picks(ga, gb, ai, bi, toggle) == Picks(ga, gb, 0, 0, false)
      invariant forall g :: 0 <= g < 8 * child.Length ==> (HasGene(child[..], g) <==> (HasGene(c0, g) || g in picked))
      decreases 2 * bits - ai - bi
    {
      var q;
      ghost var old_ai, old_bi := ai, bi;
      if toggle {
        ai, aj, a, q := Turn(parentA, child, bits, ai, aj, a);
      } else {
        bi, bj, b, q := Turn(parentB, child, bits, bi, bj, b);
      }
      toggle := !toggle;
      PicksTurn(ga, gb, old_ai, old_bi, !toggle, ai, bi, q);
      if q < bits {
        picked := picked + {q};
      }
    }
  }

  // ---------------------------------------------------------------------
  // Either operator, gene by gene

  /** Gene g < n of a zeroed child after the crossover: for
      crossover_alternate, whether Picks takes it; for crossover_random
      with crossover point pnt, gene g of parent A when n - g >= pnt and of
      parent B otherwise. */
  predicate CrossoverGene(parentA: seq<bv8>, parentB: seq<bv8>, n: nat, alternate: bool, pnt: nat, g: nat)
    requires |parentA| == |parentB| == ByteCount(n) && g < n
  {
    if alternate then g in Picks(Genes(parentA, n), Genes(parentB, n), 0, 0, false)
    else HasGene(if n - g >= pnt then parentA else parentB, g)
  }

  /** Both operators give the child only genes that are set in parent A or
      in parent B at the same position. */
  lemma CrossoverGeneFromParents(parentA: seq<bv8>, parentB: seq<bv8>, n: nat, alternate: bool, pnt: nat, g: nat)
    requires |parentA| == |parentB| == ByteCount(n) && g < n
    requires CrossoverGene(parentA, parentB, n, alternate, pnt, g)
    ensures HasGene(parentA, g) || HasGene(parentB, g)
  {
    if alternate {
      PicksFromParents(Genes(parentA, n), Genes(parentB, n), 0, 0, false, g);
    }
  }
}
