/**
 * Sequence helpers shared by the models: the set of a list's elements,
 * distinctness, flattening a list of lists, reversal (Python's `[::-1]`),
 * and the counting facts the proofs about them need.
 */
module Collections {

  /** The elements of a list, as a set (Python's `set(l)`). */
  function Elems<T>(s: seq<T>): set<T>
  {
    set x | x in s
  }

  lemma ElemsEmpty<T>(s: seq<T>)
    ensures Elems(s) == {} <==> s == []
  {
    if s != [] { assert s[0] in Elems(s); }
  }

  /** The elements of a longer prefix: one more element. */
  lemma ElemsPrefix<T>(s: seq<T>, i: nat)
    requires i < |s|
    ensures Elems(s[..i + 1]) == Elems(s[..i]) + {s[i]}
  {
    assert s[..i + 1] == s[..i] + [s[i]];
  }

  /** A list is what comes before position `i`, the element there, and what follows. */
  lemma SplitAround<T>(s: seq<T>, i: nat)
    requires i < |s|
    ensures s == s[..i] + [s[i]] + s[i + 1..]
  {
  }

  /** No element occurs twice. */
  predicate Distinct<T(==)>(s: seq<T>)
  {
    forall i, j :: 0 <= i < j < |s| ==> s[i] != s[j]
  }

  /** The lists of `ss` concatenated in order. */
  function Flatten<T>(ss: seq<seq<T>>): seq<T>
  {
    if ss == [] then [] else Flatten(ss[..|ss| - 1]) + ss[|ss| - 1]
  }

  lemma FlattenAppend<T>(ss: seq<seq<T>>, t: seq<T>)
    ensures Flatten(ss + [t]) == Flatten(ss) + t
  {
    assert (ss + [t])[..|ss|] == ss;
  }

  /** Python's `s[::-1]`: element `i` of the result is element `|s| - 1 - i` of `s`. */
  function Reverse<T>(s: seq<T>): (r: seq<T>)
    ensures |r| == |s|
    ensures forall i :: 0 <= i < |s| ==> r[i] == s[|s| - 1 - i]
  {
    if s == [] then [] else Reverse(s[1..]) + [s[0]]
  }

  /** A list without repetitions has as many elements as its set. */
  lemma {:induction false} DistinctCard<T>(s: seq<T>)
    requires Distinct(s)
    ensures |Elems(s)| == |s|
  {
    if s != [] {
      DistinctCard(s[1..]);
      assert Elems(s) == {s[0]} + Elems(s[1..]);
      assert s[0] !in Elems(s[1..]);
    }
  }

  /** Pigeonhole: a list longer than the set holding its elements repeats one. */
  lemma Pigeonhole<T>(s: seq<T>, bound: set<T>)
    requires Elems(s) <= bound && |s| > |bound|
    ensures !Distinct(s)
  {
    if Distinct(s) {
      DistinctCard(s);
      SubsetCard(Elems(s), bound);
      assert false;
    }
  }

  lemma {:induction false} SubsetCard<T>(a: set<T>, b: set<T>)
    requires a <= b
    ensures |a| <= |b|
    decreases b
  {
    if a != {} {
      var x :| x in a;
      SubsetCard(a - {x}, b - {x});
    }
  }

  /** A list reversed keeps its elements and its distinctness. */
  lemma ReverseElems<T>(s: seq<T>)
    ensures Elems(Reverse(s)) == Elems(s)
    ensures Distinct(s) ==> Distinct(Reverse(s))
  {
    var r := Reverse(s);
    forall x | x in Elems(s) ensures x in Elems(r) {
      var i :| 0 <= i < |s| && s[i] == x;
      assert r[|s| - 1 - i] == x;
    }
  }

  /** In a list without repetitions every element occurs exactly once. */
  lemma {:induction false} DistinctMultiplicity<T>(s: seq<T>, x: T)
    requires Distinct(s)
    ensures multiset(s)[x] == if x in s then 1 else 0
  {
    if s != [] {
      assert s == [s[0]] + s[1..];
      assert multiset(s) == multiset{s[0]} + multiset(s[1..]);
      DistinctMultiplicity(s[1..], x);
      assert s[0] !in s[1..];
    }
  }

  /** Two lists without repetitions and with the same elements are permutations of each other. */
  lemma DistinctMultiset<T>(a: seq<T>, b: seq<T>)
    requires Distinct(a) && Distinct(b) && Elems(a) == Elems(b)
    ensures multiset(a) == multiset(b)
  {
    forall x ensures multiset(a)[x] == multiset(b)[x] {
      DistinctMultiplicity(a, x);
      DistinctMultiplicity(b, x);
      assert x in a <==> x in Elems(a);
      assert x in b <==> x in Elems(b);
    }
  }

  /** An element of a flattened list comes from one of the lists. */
  lemma {:induction false} FlattenIndex<T>(ss: seq<seq<T>>, x: T) returns (k: nat)
    requires x in Flatten(ss)
    ensures k < |ss| && x in ss[k]
  {
    var n := |ss| - 1;
    if x in ss[n] {
      k := n;
    } else {
      k := FlattenIndex(ss[..n], x);
    }
  }

  /** Each element of each list is in the flattened list. */
  lemma {:induction false} InFlatten<T>(ss: seq<seq<T>>, k: nat, x: T)
    requires k < |ss| && x in ss[k]
    ensures x in Flatten(ss)
  {
    var n := |ss| - 1;
    if k < n {
      assert ss[..n][k] == ss[k];
      InFlatten(ss[..n], k, x);
    }
  }

  lemma FlattenMembership<T>(ss: seq<seq<T>>)
    ensures forall x :: x in Flatten(ss) <==> exists k :: 0 <= k < |ss| && x in ss[k]
  {
    forall x | x in Flatten(ss) ensures exists k :: 0 <= k < |ss| && x in ss[k] {
      var k := FlattenIndex(ss, x);
    }
    forall x, k | 0 <= k < |ss| && x in ss[k] ensures x in Flatten(ss) {
      InFlatten(ss, k, x);
    }
  }
}
