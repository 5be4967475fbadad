/** ga-graph-color.c: the fitness of a four-colouring of the node map and
    the insert-and-evict cycle on the population of 1000 colourings. */
module GraphColor {
  import Ranked
  import GraphMap

  const SOLUTION: int := 0x7fffffff
  const POPULATION_MAX: nat := 1000

  datatype Color = Red | Blue | Green | Yellow

  /** The adjacency lists of a node map with n nodes: one list per node,
      every entry the index of a node. */
  predicate Adjacency(adj: seq<seq<int>>, n: nat)
  {
    |adj| == n && forall m, j :: 0 <= m < |adj| && 0 <= j < |adj[m]| ==> 0 <= adj[m][j] < n
  }

  /** The adjacency lists node_map_init_fromfile builds are the graph
      graph_fitness scores: every entry is the index of a node. */
  lemma LoadedMapIsAdjacency(es: seq<GraphMap.Entry>, names: seq<string>, adj: seq<seq<int>>)
    requires GraphMap.Represents(es, names, adj)
    ensures Adjacency(adj, |names|)
  {
  }

  predicate InRange(row: seq<int>, n: nat)
  {
    forall j :: 0 <= j < |row| ==> 0 <= row[j] < n
  }

  /** The entries of a row whose node is coloured differently from x. */
  function RowPoints(c: seq<Color>, row: seq<int>, x: Color): (p: nat)
    requires InRange(row, |c|)
    ensures p <= |row|
  {
    if |row| == 0 then 0
    else RowPoints(c, row[..|row| - 1], x) + if c[row[|row| - 1]] != x then 1 else 0
  }

  /** No entry of the row names a node coloured x. */
  predicate RowProper(c: seq<Color>, row: seq<int>, x: Color)
    requires InRange(row, |c|)
  {
    forall j :: 0 <= j < |row| ==> c[row[j]] != x
  }

  /** The points of the rows of nodes 0 .. k-1: one per entry whose two
      ends have different colours. */
  function Points(c: seq<Color>, adj: seq<seq<int>>, k: nat): (p: nat)
    requires Adjacency(adj, |c|) && k <= |adj|
  {
    if k == 0 then 0 else Points(c, adj, k - 1) + RowPoints(c, adj[k - 1], c[k - 1])
  }

  /** The number of entries in the rows of nodes 0 .. k-1. */
  function Entries(adj: seq<seq<int>>, k: nat): nat
    requires k <= |adj|
  {
    if k == 0 then 0 else Entries(adj, k - 1) + |adj[k - 1]|
  }

  /** No entry in the rows of nodes 0 .. k-1 joins two nodes of one colour. */
  predicate ProperUpTo(c: seq<Color>, adj: seq<seq<int>>, k: nat)
    requires Adjacency(adj, |c|) && k <= |adj|
  {
    forall m :: 0 <= m < k ==> RowProper(c, adj[m], c[m])
  }

  /** A proper colouring: every adjacency joins two different colours. */
  predicate Proper(c: seq<Color>, adj: seq<seq<int>>)
    requires Adjacency(adj, |c|)
  {
    forall m, j :: 0 <= m < |adj| && 0 <= j < |adj[m]| ==> c[adj[m][j]] != c[m]
  }

  /** The value graph_fitness returns for colouring c. */
  function Fitness(c: seq<Color>, adj: seq<seq<int>>): int
    requires Adjacency(adj, |c|)
  {
    if Proper(c, adj) then SOLUTION else Points(c, adj, |adj|)
  }

  /** A row earns a point for every entry exactly when it is proper, and
      fewer points otherwise. */
  lemma {:induction false} RowPointsFull(c: seq<Color>, row: seq<int>, x: Color)
    requires InRange(row, |c|)
    ensures RowPoints(c, row, x) == |row| <==> RowProper(c, row, x)
  {
    if |row| > 0 {
      var init := row[..|row| - 1];
      RowPointsFull(c, init, x);
      assert forall j :: 0 <= j < |init| ==> init[j] == row[j];
    }
  }

  lemma {:induction false} PointsFull(c: seq<Color>, adj: seq<seq<int>>, k: nat)
    requires Adjacency(adj, |c|) && k <= |adj|
    ensures Points(c, adj, k) <= Entries(adj, k)
    ensures Points(c, adj, k) == Entries(adj, k) <==> ProperUpTo(c, adj, k)
  {
    if k > 0 {
      PointsFull(c, adj, k - 1);
      RowPointsFull(c, adj[k - 1], c[k - 1]);
    }
  }

  /** graph_fitness: a proper colouring scores SOLUTION; any other scores
      the number of adjacency entries with different colours at their two
      ends, which is then less than the number of entries. While the map has
      fewer than SOLUTION entries, SOLUTION means exactly a proper
      colouring. */
  lemma FitnessMeaning(c: seq<Color>, adj: seq<seq<int>>)
    requires Adjacency(adj, |c|)
    ensures Proper(c, adj) ==> Fitness(c, adj) == SOLUTION
    ensures !Proper(c, adj) ==> Fitness(c, adj) == Points(c, adj, |adj|) < Entries(adj, |adj|)
    ensures Entries(adj, |adj|) <= SOLUTION ==> (Fitness(c, adj) == SOLUTION <==> Proper(c, adj))
  {
    PointsFull(c, adj, |adj|);
    assert Proper(c, adj) <==> ProperUpTo(c, adj, |adj|);
  }

  /** The nested loops of graph_fitness over the node map's adjacency
      lists: fit counts the entries with different colours, bad records an
      entry with equal colours. */
  method GraphFitness(colors: array<Color>, adj: seq<seq<int>>) returns (fitness: int)
    requires Adjacency(adj, colors.Length)
    ensures fitness == Fitness(colors[..], adj)
  {
    ghost var c := colors[..];
    var fit := 0;
    var bad := false;
    var iter := 0;
    while iter < |adj|
      invariant iter <= |adj|
      invariant fit == Points(c, adj, iter) && (bad <==> !ProperUpTo(c, adj, iter))
    {
      var row := adj[iter];
      var jter := 0;
      while jter < |row|
        invariant jter <= |row| && InRange(row[..jter], |c|)
        invariant fit == Points(c, adj, iter) + RowPoints(c, row[..jter], c[iter])
        invariant bad <==> !ProperUpTo(c, adj, iter) || !RowProper(c, row[..jter], c[iter])
      {
        assert row[..jter + 1][..jter] == row[..jter];
        if colors[row[jter]] != colors[iter] {
          fit := fit + 1;
        } else {
          bad := true;
        }
        jter := jter + 1;
      }
      assert row[..jter] == row;
      iter := iter + 1;
    }
    assert Proper(c, adj) <==> ProperUpTo(c, adj, |adj|);
    fitness := if !bad then SOLUTION else fit;
  }

  /** A colouring of the node map with its fitness computed once, when it
      is made (the final step of graph_new_random and graph_new_offspring). */
  class Graph {
    const fitness: int
    const colors: array<Color>

    constructor (colors: array<Color>, adj: seq<seq<int>>)
      requires Adjacency(adj, colors.Length)
      ensures this.colors == colors && fitness == Fitness(colors[..], adj)
    {
      var f := GraphFitness(colors, adj);
      this.colors := colors;
      fitness := f;
    }
  }

  /** The fitness values of a sequence of graphs. */
  function FitnessOf(gs: seq<Graph>): (r: seq<int>)
    ensures |r| == |gs| && forall i :: 0 <= i < |gs| ==> r[i] == gs[i].fitness
  {
    seq(|gs|, i requires 0 <= i < |gs| => gs[i].fitness)
  }

  lemma FitnessOfInsertEvict(gs: seq<Graph>, k: nat, x: Graph)
    requires k < |gs|
    ensures FitnessOf(Ranked.InsertEvict(gs, k, x)) == Ranked.InsertEvict(FitnessOf(gs), k, x.fitness)
  {
    var l, r := FitnessOf(Ranked.InsertEvict(gs, k, x)), Ranked.InsertEvict(FitnessOf(gs), k, x.fitness);
    forall i | 0 <= i < |gs|
      ensures l[i] == r[i]
    {
      Ranked.InsertEvictAt(gs, k, x, i);
      Ranked.InsertEvictAt(FitnessOf(gs), k, x.fitness, i);
    }
  }

  /** One machine word: fitness_compar reads 32-bit ints. */
  const WORD: int := 0x1_0000_0000

  /** The int fitness_compar reads through `left->fitness` when qsort hands
      it a pointer to a slot of popl->popl: the slot holds a `struct graph*`,
      so the int is the first four bytes of that pointer, on a little-endian
      machine the low 32 bits of the graph's address read as a signed int. */
  function SlotWord(addr: nat): (w: int)
    ensures -WORD / 2 <= w < WORD / 2
    ensures (w - addr) % WORD == 0
  {
    var low := addr % WORD;
    if low < WORD / 2 then low else low - WORD
  }

  /** fitness_compar as the qsort of population_init calls it: the
      difference of the words read out of the two slots, with no fitness in
      it. As an exact integer it may leave the int range, where the C
      subtraction overflows. */
  function SlotCompar(leftAddr: nat, rightAddr: nat): (r: int)
    ensures r < 0 <==> SlotWord(leftAddr) < SlotWord(rightAddr)
    ensures r == 0 <==> SlotWord(leftAddr) == SlotWord(rightAddr)
    ensures -WORD < r < WORD
  {
    SlotWord(leftAddr) - SlotWord(rightAddr)
  }

  /** The C subtraction overflows on neighbouring addresses that straddle
      2^31: the exact difference is above the largest int. */
  lemma SlotComparOverflows()
    ensures SlotCompar(0x7fff_ffff, 0x8000_0000) == WORD - 1
    ensures SlotCompar(0x7fff_ffff, 0x8000_0000) > WORD / 2 - 1
  {
  }

  /** What the qsort of population_init promises as the call is written:
      no neighbouring pair of slots is out of order by the words in them. */
  predicate SortedBySlots(addrs: seq<nat>)
  {
    forall i :: 0 <= i < |addrs| - 1 ==> SlotCompar(addrs[i], addrs[i + 1]) <= 0
  }

  /** Whenever the population is not in descending order, the way the slot
      order may leave it, a child at least as fit as member 0 but less fit
      than the last member goes in at the front, and that fitter last member
      is given up for it. */
  lemma NotDescendingCycleDropsFitter(keys: seq<int>, f: int)
    requires |keys| == POPULATION_MAX && keys[0] <= f < keys[|keys| - 1]
    ensures Ranked.FirstAtMost(keys, f) == 0
    ensures Ranked.InsertEvict(keys, 0, f) == [f] + keys[..|keys| - 1]
    ensures multiset(Ranked.InsertEvict(keys, 0, f)) == multiset(keys) - multiset{keys[|keys| - 1]} + multiset{f}
    ensures keys[|keys| - 1] > f
  {
    var r := Ranked.InsertEvict(keys, 0, f);
    forall i | 0 <= i < |keys|
      ensures r[i] == ([f] + keys[..|keys| - 1])[i]
    {
      Ranked.InsertEvictAt(keys, 0, f, i);
    }
    Ranked.InsertEvictMultiset(keys, 0, f);
  }

  /** One population the qsort of population_init may leave: graphs at
      ascending addresses below 2^31, all of fitness 1 except the last, of
      fitness 5. The slots are sorted as the call promises, the fitnesses
      are not descending, and a child of fitness 2 goes in at index 0 while
      the graph of fitness 5 drops out. */
  lemma SlotSortedCycleDropsFittest(addrs: seq<nat>, keys: seq<int>)
    requires addrs == seq(POPULATION_MAX, i => 0x1000 + 8 * i)
    requires keys == seq(POPULATION_MAX, i => if i == POPULATION_MAX - 1 then 5 else 1)
    ensures SortedBySlots(addrs)
    ensures !Ranked.Descending(keys)
    ensures Ranked.FirstAtMost(keys, 2) == 0
    ensures Ranked.InsertEvict(keys, 0, 2) == [2] + keys[..POPULATION_MAX - 1]
    ensures 5 !in Ranked.InsertEvict(keys, 0, 2)
  {
    forall i | 0 <= i < |addrs| - 1
      ensures SlotCompar(addrs[i], addrs[i + 1]) <= 0
    {
      assert SlotWord(addrs[i]) == addrs[i];
      assert SlotWord(addrs[i + 1]) == addrs[i + 1];
    }
    assert keys[0] < keys[POPULATION_MAX - 1];
    NotDescendingCycleDropsFitter(keys, 2);
    var kept := keys[..POPULATION_MAX - 1];
    forall i | 0 <= i < |kept|
      ensures kept[i] == 1
    {
    }
  }

  /** The comparator the insertion scan of population_cycle needs: it sorts
      the fitter graph first. In C it must also take `const struct graph**`,
      as qsort passes pointers to the slots, and read
      `(*right)->fitness - (*left)->fitness`. */
  function FitnessComparDescending(left: int, right: int): (r: int)
    ensures r < 0 <==> left > right
    ensures r == 0 <==> left == right
    ensures 0 <= left <= SOLUTION && 0 <= right <= SOLUTION ==> -SOLUTION <= r <= SOLUTION
  {
    right - left
  }

  /** What qsort promises with the corrected comparator: no neighbouring
      pair is out of order under it. */
  predicate SortedByComparDescending(keys: seq<int>)
  {
    forall i :: 0 <= i < |keys| - 1 ==> FitnessComparDescending(keys[i], keys[i + 1]) <= 0
  }

  /** With the corrected comparator population_init leaves the population
      in descending order of fitness, the order the cycle maintains. */
  lemma ComparDescendingSortsDescending(keys: seq<int>)
    requires SortedByComparDescending(keys)
    ensures Ranked.Descending(keys)
  {
    forall i, j | 0 <= i < j < |keys|
      ensures keys[i] >= keys[j]
    {
      ChainDescending(keys, i, j);
    }
  }

  lemma {:induction false} ChainDescending(keys: seq<int>, i: int, j: int)
    requires SortedByComparDescending(keys) && 0 <= i <= j < |keys|
    ensures keys[i] >= keys[j]
  {
    if i < j {
      ChainDescending(keys, i, j - 1);
      assert FitnessComparDescending(keys[j - 1], keys[j]) <= 0;
    }
  }

  /** The parent choice of population_cycle: the smaller of two draws
      taken modulo POPULATION_MAX, so that lower (on a ranked population,
      fitter) indices are chosen more often. */
  function ParentIndex(drawR: nat, drawA: nat): (r: nat)
    ensures r < POPULATION_MAX
    ensures r <= drawR % POPULATION_MAX && r <= drawA % POPULATION_MAX
    ensures r == drawR % POPULATION_MAX || r == drawA % POPULATION_MAX
  {
    var r, a := drawR % POPULATION_MAX, drawA % POPULATION_MAX;
    if a < r then a else r
  }

  /** The population of population_cycle: POPULATION_MAX graphs. */
  class Population {
    const members: array<Graph>

    /** population_init once its random graphs are made and sorted; the
        graphs and qsort are not modelled (see SortedBySlots), so the
        members come in any order. */
    constructor (members: array<Graph>)
      requires members.Length == POPULATION_MAX
      ensures this.members == members
    {
      this.members := members;
    }

    function Fitnesses(): seq<int>
      reads members
    {
      FitnessOf(members[..])
    }
  }

  /** The insertion scan of population_cycle: the first index whose member
      is at most as fit as f, or POPULATION_MAX. */
  method RankOf(popl: Population, f: int) returns (ins: nat)
    requires popl.members.Length == POPULATION_MAX
    ensures ins == Ranked.FirstAtMost(popl.Fitnesses(), f)
  {
    ghost var keys := popl.Fitnesses();
    ins := 0;
    while ins < POPULATION_MAX && f < popl.members[ins].fitness
      invariant ins <= POPULATION_MAX
      invariant forall j :: 0 <= j < ins ==> keys[j] > f
    {
      ins := ins + 1;
    }
    Ranked.FirstAtMostUnique(keys, f, ins);
  }

  /** population_cycle for a child already made from the chosen parent: a
      child less fit than every member is dropped; otherwise it goes in at
      the first index whose member is at most as fit, the members from there
      move down one place and the last drops out. The result says whether
      member 0 is a solution. */
  method PopulationCycle(popl: Population, child: Graph) returns (solved: bool)
    requires popl.members.Length == POPULATION_MAX
    modifies popl.members
    ensures Ranked.FirstAtMost(old(popl.Fitnesses()), child.fitness) == POPULATION_MAX ==>
      popl.members[..] == old(popl.members[..])
    ensures Ranked.FirstAtMost(old(popl.Fitnesses()), child.fitness) < POPULATION_MAX ==>
      popl.members[..] == Ranked.InsertEvict(old(popl.members[..]), Ranked.FirstAtMost(old(popl.Fitnesses()), child.fitness), child) &&
      popl.Fitnesses() == Ranked.InsertEvict(old(popl.Fitnesses()), Ranked.FirstAtMost(old(popl.Fitnesses()), child.fitness), child.fitness)
    ensures Ranked.Descending(old(popl.Fitnesses())) ==> Ranked.Descending(popl.Fitnesses())
    ensures solved <==> popl.members[0].fitness == SOLUTION
  {
    ghost var m0 := popl.members[..];
    ghost var keys := popl.Fitnesses();
    var ins := RankOf(popl, child.fitness);
    if ins < POPULATION_MAX {
      Ranked.InsertAt(popl.members, ins, child);
      FitnessOfInsertEvict(m0, ins, child);
      if Ranked.Descending(keys) {
        Ranked.InsertKeepsDescending(keys, child.fitness);
      }
    }
    solved := popl.members[0].fitness == SOLUTION;
  }

  /** On an ascending population, one order the slot sort may leave, every
      child at least as fit as the least fit member goes in at the front and
      the last member, one of greatest fitness, drops out: a fitter member
      is given up for the child. */
  lemma AscendingCycleDropsFittest(keys: seq<int>, f: int)
    requires |keys| == POPULATION_MAX && Ranked.Ascending(keys) && keys[0] <= f
    ensures Ranked.FirstAtMost(keys, f) == 0
    ensures Ranked.InsertEvict(keys, 0, f) == [f] + keys[..|keys| - 1]
    ensures forall j :: 0 <= j < |keys| ==> keys[j] <= keys[|keys| - 1]
  {
    Ranked.AscendingEvictsGreatest(keys, f);
  }
}
