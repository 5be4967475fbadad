/** The insert-and-evict step that both genetic algorithms apply to their
    fixed-size populations (gak_population_breed in ga-knapsack.c and
    population_cycle in ga-graph-color.c), stated on the sequence of the
    members' fitness values. */
module Ranked {

  /** The scan of both population steps: the index of the first key that
      is at most f, or |keys| when every key exceeds f. */
  function FirstAtMost(keys: seq<int>, f: int): (k: nat)
    ensures k <= |keys|
    ensures forall j :: 0 <= j < k ==> keys[j] > f
    ensures k < |keys| ==> keys[k] <= f
  {
    if |keys| == 0 || keys[0] <= f then 0 else 1 + FirstAtMost(keys[1..], f)
  }

  /** s with x placed at index k, the entries from k on moved down one
      place and the last entry dropped. */
  function InsertEvict<T>(s: seq<T>, k: nat, x: T): (r: seq<T>)
    requires k < |s|
    ensures |r| == |s| && r[k] == x
  {
    s[..k] + [x] + s[k..|s| - 1]
  }

  /** The step loses exactly one occurrence of the last entry and gains x. */
  lemma InsertEvictMultiset<T>(s: seq<T>, k: nat, x: T)
    requires k < |s|
    ensures multiset(InsertEvict(s, k, x)) == multiset(s) - multiset{s[|s| - 1]} + multiset{x}
  {
    assert s == s[..k] + s[k..|s| - 1] + [s[|s| - 1]];
  }

  lemma InsertEvictAt<T>(s: seq<T>, k: nat, x: T, i: int)
    requires k < |s| && 0 <= i < |s|
    ensures InsertEvict(s, k, x)[i] == if i < k then s[i] else if i == k then x else s[i - 1]
  {
  }

  predicate Descending(keys: seq<int>)
  {
    forall i, j :: 0 <= i < j < |keys| ==> keys[i] >= keys[j]
  }

  predicate Ascending(keys: seq<int>)
  {
    forall i, j :: 0 <= i < j < |keys| ==> keys[i] <= keys[j]
  }

  /** On a descending population the step keeps the order: the new key goes
      in after every strictly larger key and before every key it is at
      least as large as. */
  lemma InsertKeepsDescending(keys: seq<int>, f: int)
    requires Descending(keys) && FirstAtMost(keys, f) < |keys|
    ensures Descending(InsertEvict(keys, FirstAtMost(keys, f), f))
  {
    var k := FirstAtMost(keys, f);
    var r := InsertEvict(keys, k, f);
    forall i, j | 0 <= i < j < |r|
      ensures r[i] >= r[j]
    {
      InsertEvictAt(keys, k, f, i);
      InsertEvictAt(keys, k, f, j);
    }
  }

  /** On a descending population the dropped member is one of least
      fitness, and a rejected newcomer is less fit than every member. */
  lemma DescendingEvictsLeast(keys: seq<int>, f: int)
    requires Descending(keys) && |keys| > 0
    ensures forall j :: 0 <= j < |keys| ==> keys[|keys| - 1] <= keys[j]
    ensures FirstAtMost(keys, f) == |keys| <==> f < keys[|keys| - 1]
  {
  }

  /** On an ascending population the step does the opposite of what a
      ranking wants: a newcomer at least as fit as the first (least fit)
      member goes in at the front and the dropped last member is one of
      greatest fitness; any other newcomer is rejected. */
  lemma AscendingEvictsGreatest(keys: seq<int>, f: int)
    requires Ascending(keys) && |keys| > 0
    ensures f >= keys[0] ==> FirstAtMost(keys, f) == 0
    ensures f < keys[0] ==> FirstAtMost(keys, f) == |keys|
    ensures forall j :: 0 <= j < |keys| ==> keys[j] <= keys[|keys| - 1]
  {
    if f < keys[0] {
      assert forall j :: 0 <= j < |keys| ==> keys[j] > f;
      FirstAtMostAbove(keys, f);
    }
  }

  lemma {:induction false} FirstAtMostAbove(keys: seq<int>, f: int)
    requires forall j :: 0 <= j < |keys| ==> keys[j] > f
    ensures FirstAtMost(keys, f) == |keys|
  {
    if |keys| > 0 {
      FirstAtMostAbove(keys[1..], f);
    }
  }

  /** The scan's result is the only index with its two properties. */
  lemma FirstAtMostUnique(keys: seq<int>, f: int, k: nat)
    requires k <= |keys| && forall j :: 0 <= j < k ==> keys[j] > f
    requires k < |keys| ==> keys[k] <= f
    ensures k == FirstAtMost(keys, f)
  {
  }

  /** The shift of both population steps: the entries from k on move down
      one place, the last one drops out and x goes in at k. */
  method InsertAt<T>(members: array<T>, k: nat, x: T)
    requires k < members.Length
    modifies members
    ensures members[..] == InsertEvict(old(members[..]), k, x)
  {
    ghost var m0 := members[..];
    var i := members.Length - 1;
    while i > k
      invariant k <= i < members.Length
      invariant forall j :: 0 <= j <= i ==> members[j] == m0[j]
      invariant forall j :: i < j < members.Length ==> members[j] == m0[j - 1]
    {
      members[i] := members[i - 1];
      i := i - 1;
    }
    members[k] := x;
    forall j | 0 <= j < members.Length
      ensures members[j] == InsertEvict(m0, k, x)[j]
    {
      InsertEvictAt(m0, k, x, j);
    }
  }
}
