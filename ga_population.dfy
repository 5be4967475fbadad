/** ga-knapsack.c: new offspring from two parents and the breeding step on
    the fixed-size population. */
module GaPopulation {
  import opened KnapsackSpec
  import opened GaCandidate
  import opened GaCrossover
  import Ranked

  /** The fitness values of a sequence of candidates. */
  ghost function FitnessOf(cs: seq<Candidate>): (r: seq<int>)
    reads cs
    ensures |r| == |cs|
  {
    seq(|cs|, i requires 0 <= i < |cs| reads cs => cs[i].fitness)
  }

  lemma FitnessOfInsertEvict(cs: seq<Candidate>, k: nat, x: Candidate)
    requires k < |cs|
    ensures FitnessOf(Ranked.InsertEvict(cs, k, x)) == Ranked.InsertEvict(FitnessOf(cs), k, x.fitness)
  {
    var l, r := FitnessOf(Ranked.InsertEvict(cs, k, x)), Ranked.InsertEvict(FitnessOf(cs), k, x.fitness);
    forall i | 0 <= i < |cs|
      ensures l[i] == r[i]
    {
      Ranked.InsertEvictAt(cs, k, x, i);
      Ranked.InsertEvictAt(FitnessOf(cs), k, x.fitness, i);
    }
  }

  /** gak_population: POPULATION_LIMIT candidates, ranked by fitness. */
  class Population {
    const members: array<Candidate>

    /** A population as gak_population_new_random leaves it once its
        random members are made and sorted; the sorting is not modelled. */
    constructor (members: array<Candidate>)
      requires members.Length == POPULATION_LIMIT
      ensures this.members == members
    {
      this.members := members;
    }

    ghost function Fitnesses(): seq<int>
      reads members, members[..]
    {
      FitnessOf(members[..])
    }
  }

  /** gak_candidate_new_crossover: a fresh zeroed child gets its genes from
      the two parents' bit strings by one of the two crossover operators
      (alternate picks crossover_alternate, as the draw from
      crossoverFunctions does), its unused last-byte bits are cleared and
      its metrics computed. The clearing gets the count as written,
      bitcnt % itemSz; that count is at most the number of unused bits and
      the crossover sets no padding bit, so here the miscount is harmless. */
  method NewCrossover(inst: Instance, parentA: array<bv8>, parentB: array<bv8>, alternate: bool, draw: nat)
    returns (cand: Candidate)
    requires inst.Valid() && parentA.Length == parentB.Length == inst.bytecnt
    ensures fresh(cand) && fresh(cand.bits) && cand.bits.Length == inst.bytecnt
    ensures forall g :: 0 <= g < inst.bitcnt ==> (HasGene(cand.bits[..], g) <==>
      (g < |inst.items| && CrossoverGene(parentA[..], parentB[..], |inst.items|, alternate, draw % |inst.items|, g)))
    ensures cand.cost == Cost(Chosen(inst, cand.bits[..]))
    ensures cand.value == Value(Chosen(inst, cand.bits[..]))
    ensures cand.fitness == Fitness(inst, cand.bits[..])
  {
    cand := new Candidate(inst.bytecnt);
    Cross(inst, parentA, parentB, cand.bits, alternate, draw);
    ClearPaddingAsWritten(inst, cand.bits);
    LastBitsAsWrittenAtMostUnused(inst);
    ApplyMetrics(inst, cand);
  }

  /** The call through crossover_func on a zeroed child. */
  method Cross(inst: Instance, parentA: array<bv8>, parentB: array<bv8>, child: array<bv8>, alternate: bool, draw: nat)
    requires inst.Valid() && parentA.Length == parentB.Length == child.Length == inst.bytecnt
    requires child != parentA && child != parentB
    requires forall k :: 0 <= k < child.Length ==> child[k] == 0
    modifies child
    ensures forall g :: 0 <= g < inst.bitcnt ==> (HasGene(child[..], g) <==>
      (g < |inst.items| && CrossoverGene(parentA[..], parentB[..], |inst.items|, alternate, draw % |inst.items|, g)))
  {
    var n := |inst.items|;
    ghost var zero := child[..];
    if alternate {
      CrossoverAlternate(parentA, parentB, child, n);
    } else {
      CrossoverRandom(parentA, parentB, child, n, draw);
    }
    forall g | 0 <= g < inst.bitcnt
      ensures HasGene(child[..], g) <==> (g < n && CrossoverGene(parentA[..], parentB[..], n, alternate, draw % n, g))
    {
      CrossedGene(inst, parentA[..], parentB[..], zero, child[..], alternate, draw, g);
    }
  }

  /** The zero_last_bits call with the number of unused bits: genes below
      the item count stay, the padding genes are cleared. */
  method ClearPadding(inst: Instance, bits: array<bv8>)
    requires inst.Valid() && bits.Length == inst.bytecnt
    modifies bits
    ensures forall g :: 0 <= g < inst.bitcnt ==> (HasGene(bits[..], g) <==> (HasGene(old(bits[..]), g) && g < |inst.items|))
  {
    ghost var c := bits[..];
    ZeroLastBits(bits, inst.bytecnt - 1, UnusedBits(|inst.items|));
    ghost var z := c[inst.bytecnt - 1 := c[inst.bytecnt - 1] & Low(8 - UnusedBits(|inst.items|))];
    assert bits[..] == z;
    ZeroedGenes(inst, c);
  }

  /** The zero_last_bits call as written, with bitcnt % itemSz: the genes
      below bitcnt minus that count stay, the ones above are cleared. */
  method ClearPaddingAsWritten(inst: Instance, bits: array<bv8>)
    requires inst.Valid() && bits.Length == inst.bytecnt
    modifies bits
    ensures forall g :: 0 <= g < inst.bitcnt ==>
      (HasGene(bits[..], g) <==> (HasGene(old(bits[..]), g) && g < inst.bitcnt - LastBitsAsWritten(inst)))
  {
    ghost var c := bits[..];
    var l := inst.bitcnt % |inst.items|;
    LastBitsAsWrittenAtMostUnused(inst);
    ZeroLastBits(bits, inst.bytecnt - 1, l);
    forall g | 0 <= g < inst.bitcnt
      ensures HasGene(bits[..], g) <==> (HasGene(c, g) && g < inst.bitcnt - l)
    {
      if g / 8 == inst.bytecnt - 1 {
        ClearTopBits(c[g / 8], g % 8, l);
      }
    }
  }

  /** Gene g of the child right after the crossover operator. */
  lemma CrossedGene(inst: Instance, parentA: seq<bv8>, parentB: seq<bv8>, zero: seq<bv8>, c: seq<bv8>, alternate: bool, draw: nat, g: nat)
    requires inst.Valid() && |parentA| == |parentB| == |zero| == |c| == inst.bytecnt && g < inst.bitcnt
    requires forall k :: 0 <= k < |zero| ==> zero[k] == 0
    requires alternate ==> forall g :: 0 <= g < 8 * |c| ==> (HasGene(c, g) <==>
      (HasGene(zero, g) || g in Picks(Genes(parentA, |inst.items|), Genes(parentB, |inst.items|), 0, 0, false)))
    requires !alternate ==> forall k :: 0 <= k < |c| ==>
      c[k] == RandomChildByte(parentA, parentB, zero, |inst.items|, draw % |inst.items|, k)
    ensures HasGene(c, g) <==>
      (g < |inst.items| && CrossoverGene(parentA, parentB, |inst.items|, alternate, draw % |inst.items|, g))
  {
    var n := |inst.items|;
    assert !HasGene(zero, g);
    if alternate {
      if g in Picks(Genes(parentA, n), Genes(parentB, n), 0, 0, false) {
        PicksFromParents(Genes(parentA, n), Genes(parentB, n), 0, 0, false, g);
      }
    } else {
      RandomChildGene(parentA, parentB, zero, n, draw % n, g);
    }
  }

  lemma ZeroedGenes(inst: Instance, c: seq<bv8>)
    requires inst.Valid() && |c| == inst.bytecnt
    ensures forall g :: 0 <= g < inst.bitcnt ==>
      (HasGene(c[inst.bytecnt - 1 := c[inst.bytecnt - 1] & Low(8 - UnusedBits(|inst.items|))], g) <==>
        (HasGene(c, g) && g < |inst.items|))
  {
    forall g | 0 <= g < inst.bitcnt
      ensures HasGene(c[inst.bytecnt - 1 := c[inst.bytecnt - 1] & Low(8 - UnusedBits(|inst.items|))], g) <==>
        (HasGene(c, g) && g < |inst.items|)
    {
      ZeroedGene(inst, c, g);
    }
  }

  /** Clearing the unused bits of the last byte keeps genes below the item
      count and clears the rest. */
  lemma ZeroedGene(inst: Instance, c: seq<bv8>, g: nat)
    requires inst.Valid() && |c| == inst.bytecnt && g < inst.bitcnt
    ensures HasGene(c[inst.bytecnt - 1 := c[inst.bytecnt - 1] & Low(8 - UnusedBits(|inst.items|))], g) <==>
      (HasGene(c, g) && g < |inst.items|)
  {
    if g / 8 == inst.bytecnt - 1 {
      ZeroUnusedClearsTail(inst, c[g / 8], g % 8);
    }
  }

  /** gak_population_breed: the offspring goes in before the first member
      that is at most as fit, the members from there on move down one place
      and the last member is dropped; an offspring less fit than every
      member leaves the population as it was. An admitted offspring then
      mutates when the draw is a multiple of 47, with bitcnt gene draws.
      The result says whether the offspring landed at an index up to
      threshold. The offspring's fitness is not recomputed after the
      mutation, in the model as in the source. The members array and the
      offspring's bit string are different objects (in C their types keep
      them apart; Dafny does not conclude it from the types). */
  method Breed(popl: Population, offspring: Candidate, inst: Instance, threshold: nat, mutateDraw: nat, geneDraws: seq<nat>)
    returns (r: bool)
    requires popl.members.Length == POPULATION_LIMIT
    requires inst.Valid() && offspring.bits.Length == inst.bytecnt && |geneDraws| == inst.bitcnt
    requires popl.members as object != offspring.bits as object
    modifies popl.members, offspring.bits
    ensures Ranked.FirstAtMost(old(popl.Fitnesses()), offspring.fitness) == POPULATION_LIMIT ==>
      popl.members[..] == old(popl.members[..]) && offspring.bits[..] == old(offspring.bits[..])
    ensures Ranked.FirstAtMost(old(popl.Fitnesses()), offspring.fitness) < POPULATION_LIMIT ==>
      popl.members[..] == Ranked.InsertEvict(old(popl.members[..]), Ranked.FirstAtMost(old(popl.Fitnesses()), offspring.fitness), offspring) &&
      popl.Fitnesses() == Ranked.InsertEvict(old(popl.Fitnesses()), Ranked.FirstAtMost(old(popl.Fitnesses()), offspring.fitness), offspring.fitness) &&
      offspring.bits[..] == if mutateDraw % 47 == 0
        then ClearGenes(old(offspring.bits[..]), GenePositions(geneDraws, |inst.items|))
        else old(offspring.bits[..])
    ensures Ranked.Descending(old(popl.Fitnesses())) ==> Ranked.Descending(popl.Fitnesses())
    ensures r <==> Ranked.FirstAtMost(old(popl.Fitnesses()), offspring.fitness) <= threshold
  {
    var iter := Admit(popl, offspring);
    if iter < POPULATION_LIMIT && mutateDraw % 47 == 0 {
      ghost var ms, fs := popl.members[..], popl.Fitnesses();
      Mutate(offspring, inst, geneDraws);
      assert popl.members[..] == ms;
      assert forall j :: 0 <= j < |ms| ==> FitnessOf(ms)[j] == fs[j];
    }
    r := iter <= threshold;
  }

  /** The ranking part of gak_population_breed: the scan and, when the
      offspring is fit enough, the shift and the insertion. */
  method Admit(popl: Population, offspring: Candidate) returns (iter: nat)
    requires popl.members.Length == POPULATION_LIMIT
    modifies popl.members
    ensures iter == Ranked.FirstAtMost(old(popl.Fitnesses()), offspring.fitness)
    ensures iter == POPULATION_LIMIT ==> popl.members[..] == old(popl.members[..])
    ensures iter < POPULATION_LIMIT ==>
      popl.members[..] == Ranked.InsertEvict(old(popl.members[..]), iter, offspring) &&
      popl.Fitnesses() == Ranked.InsertEvict(old(popl.Fitnesses()), iter, offspring.fitness)
    ensures Ranked.Descending(old(popl.Fitnesses())) ==> Ranked.Descending(popl.Fitnesses())
  {
    ghost var m0 := popl.members[..];
    ghost var keys := popl.Fitnesses();
    iter := RankOf(popl, offspring.fitness);
    if iter < POPULATION_LIMIT {
      Ranked.InsertAt(popl.members, iter, offspring);
      FitnessOfInsertEvict(m0, iter, offspring);
      if Ranked.Descending(keys) {
        Ranked.InsertKeepsDescending(keys, offspring.fitness);
      }
    }
  }

  /** The scan of gak_population_breed: the first index whose member is at
      most as fit as f, or POPULATION_LIMIT. */
  method RankOf(popl: Population, f: int) returns (iter: nat)
    requires popl.members.Length == POPULATION_LIMIT
    ensures iter == Ranked.FirstAtMost(popl.Fitnesses(), f)
  {
    ghost var keys := popl.Fitnesses();
    iter := 0;
    while iter < POPULATION_LIMIT && f < popl.members[iter].fitness
      invariant iter <= POPULATION_LIMIT
      invariant forall j :: 0 <= j < iter ==> keys[j] > f
    {
      iter := iter + 1;
    }
    Ranked.FirstAtMostUnique(keys, f, iter);
  }

  /** gak_population_breed_frombest: members 0 and 1 are the parents, the
      offspring (child, with the genes crossed before any mutation) is bred
      into the population as by Breed, and the result is true exactly when
      it lands at index 0 or 1. */
  method BreedFromBest(popl: Population, inst: Instance, alternate: bool, draw: nat, mutateDraw: nat, geneDraws: seq<nat>)
    returns (r: bool, ghost child: Candidate, ghost crossed: seq<bv8>)
    requires popl.members.Length == POPULATION_LIMIT
    requires inst.Valid() && popl.members[0].bits.Length == popl.members[1].bits.Length == inst.bytecnt
    requires |geneDraws| == inst.bitcnt
    modifies popl.members
    ensures fresh(child) && |crossed| == inst.bytecnt && child.fitness == Fitness(inst, crossed)
    ensures forall g :: 0 <= g < inst.bitcnt ==> (HasGene(crossed, g) <==>
      (g < |inst.items| && CrossoverGene(old(popl.members[0].bits[..]), old(popl.members[1].bits[..]),
        |inst.items|, alternate, draw % |inst.items|, g)))
    ensures Ranked.FirstAtMost(old(popl.Fitnesses()), child.fitness) == POPULATION_LIMIT ==>
      popl.members[..] == old(popl.members[..])
    ensures Ranked.FirstAtMost(old(popl.Fitnesses()), child.fitness) < POPULATION_LIMIT ==>
      popl.members[..] == Ranked.InsertEvict(old(popl.members[..]), Ranked.FirstAtMost(old(popl.Fitnesses()), child.fitness), child) &&
      child.bits[..] == if mutateDraw % 47 == 0 then ClearGenes(crossed, GenePositions(geneDraws, |inst.items|)) else crossed
    ensures r <==> Ranked.FirstAtMost(old(popl.Fitnesses()), child.fitness) <= 1
    ensures Ranked.Descending(old(popl.Fitnesses())) ==> Ranked.Descending(popl.Fitnesses())
    ensures forall j :: 0 <= j < POPULATION_LIMIT ==> popl.members[j] in old(popl.members[..]) || fresh(popl.members[j])
    ensures r ==> fresh(popl.members[0]) || fresh(popl.members[1])
  {
    ghost var m0, keys := popl.members[..], popl.Fitnesses();
    var offspring := NewCrossover(inst, popl.members[0].bits, popl.members[1].bits, alternate, draw);
    child, crossed := offspring, offspring.bits[..];
    assert popl.Fitnesses() == keys;
    r := Breed(popl, offspring, inst, 1, mutateDraw, geneDraws);
    ghost var k := Ranked.FirstAtMost(keys, offspring.fitness);
    if k < POPULATION_LIMIT {
      forall j | 0 <= j < POPULATION_LIMIT
        ensures popl.members[j] in m0 || popl.members[j] == offspring
      {
        Ranked.InsertEvictAt(m0, k, offspring, j);
      }
    }
  }

  /** gak_population_check_homogenous: true exactly when every member's bit
      string agrees with member 0's on all bytecnt bytes. */
  method CheckHomogenous(popl: Population, inst: Instance) returns (h: bool)
    requires popl.members.Length == POPULATION_LIMIT
    requires forall i :: 0 <= i < POPULATION_LIMIT ==> popl.members[i].bits.Length >= inst.bytecnt
    ensures h <==> forall i :: 1 <= i < POPULATION_LIMIT ==>
      popl.members[0].bits[..inst.bytecnt] == popl.members[i].bits[..inst.bytecnt]
  {
    for iter := 1 to POPULATION_LIMIT
      invariant forall i :: 1 <= i < iter ==> popl.members[0].bits[..inst.bytecnt] == popl.members[i].bits[..inst.bytecnt]
    {
      var same := CandidateCompare(popl.members[0], popl.members[iter], inst);
      if !same {
        return false;
      }
    }
    return true;
  }
}
