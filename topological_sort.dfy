/**
 * `topological_sort` from scripts/cpp/xc_list_libraries.py: Kahn's
 * algorithm over the "library A depends on library B" graph, with an
 * indegree map (how many libraries depend on each library), a FIFO queue of
 * libraries nothing unprocessed depends on, and a final reversal so that
 * every library comes after the libraries it depends on.
 *
 * Libraries on a dependency cycle never reach indegree 0, and neither does
 * anything they depend on, directly or not: the algorithm drops all of
 * them without an error.  The contract of `TopologicalSort` states which
 * libraries are dropped, `CycleMembersOmitted` that a cycle's own members are, and `AcyclicSortIsPermutation` that nothing is
 * dropped from an acyclic graph.
 */
module TopologicalSort {
  import opened Collections

  /** `dependencies`: a library maps to the set of libraries it depends on. */
  type Deps = map<string, set<string>>

  /** Library `a` depends on library `b`. */
  predicate DependsOn(deps: Deps, a: string, b: string)
  {
    a in deps && b in deps[a]
  }

  /** The libraries `lib` depends on (`dependencies[lib]`, or nothing when `lib` has no entry). */
  function DependenciesOf(deps: Deps, lib: string): set<string>
  {
    if lib in deps then deps[lib] else {}
  }

  /** Every key and every dependency is one of the listed libraries, as `list_libraries` builds them. */
  predicate Closed(libraries: seq<string>, deps: Deps)
  {
    forall a :: a in deps ==> a in libraries && deps[a] <= Elems(libraries)
  }

  /** The libraries of `among` that depend on `lib`. */
  function Dependents(deps: Deps, lib: string, among: set<string>): set<string>
  {
    set m | m in among && DependsOn(deps, m, lib)
  }

  // ------------------------------------------------------------------ paths

  /** `p` follows dependency edges: each library depends on the next. */
  ghost predicate IsPath(deps: Deps, p: seq<string>)
  {
    |p| >= 1 && forall i :: 0 <= i < |p| - 1 ==> DependsOn(deps, p[i], p[i + 1])
  }

  /** `lib` depends, through one or more edges, on itself. */
  ghost predicate OnCycle(deps: Deps, lib: string)
  {
    exists p :: IsPath(deps, p) && |p| >= 2 && p[0] == lib && p[|p| - 1] == lib
  }

  /** `lib` lies on a cycle or some library on a cycle depends on it, directly or not. */
  ghost predicate FedByCycle(deps: Deps, lib: string)
  {
    exists p :: IsPath(deps, p) && OnCycle(deps, p[0]) && p[|p| - 1] == lib
  }

  ghost predicate Acyclic(deps: Deps)
  {
    forall lib :: !OnCycle(deps, lib)
  }

  // ------------------------------------------------------ indegree counting

  /** `indegrees` maps each node to the number of libraries in `among` that depend on it, plus one for the nodes in `pending`. */
  ghost predicate Counted(deps: Deps, nodes: set<string>, indegrees: map<string, int>, among: set<string>, pending: set<string>)
  {
    && indegrees.Keys == nodes
    && forall n :: n in nodes ==> indegrees[n] == |Dependents(deps, n, among)| + (if n in pending then 1 else 0)
  }

  /** Adding library `lib` to `among` adds one to the count of each library it depends on. */
  lemma DependentsAdd(deps: Deps, n: string, among: set<string>, lib: string)
    requires lib !in among
    ensures |Dependents(deps, n, among + {lib})| == |Dependents(deps, n, among)| + (if n in DependenciesOf(deps, lib) then 1 else 0)
  {
    if n in DependenciesOf(deps, lib) {
      assert Dependents(deps, n, among + {lib}) == Dependents(deps, n, among) + {lib};
    } else {
      assert Dependents(deps, n, among + {lib}) == Dependents(deps, n, among);
    }
  }

  /** Counting one more edge into `dep`. */
  lemma CountEdge(deps: Deps, nodes: set<string>, indegrees: map<string, int>, among: set<string>, pending: set<string>, dep: string)
    requires Counted(deps, nodes, indegrees, among, pending)
    requires dep in nodes && dep !in pending
    ensures Counted(deps, nodes, indegrees[dep := indegrees[dep] + 1], among, pending + {dep})
  {
  }

  /** Once every edge out of `lib` is counted, `lib` joins the libraries counted. */
  lemma CountLibrary(deps: Deps, nodes: set<string>, indegrees: map<string, int>, among: set<string>, lib: string)
    requires lib in deps && lib !in among
    requires Counted(deps, nodes, indegrees, among, deps[lib])
    ensures Counted(deps, nodes, indegrees, among + {lib}, {})
  {
    forall n | n in nodes
      ensures indegrees[n] == |Dependents(deps, n, among + {lib})|
    {
      DependentsAdd(deps, n, among, lib);
    }
  }

  /**
   * The first half of `topological_sort`: every library starts at 0 and
   * each dependency edge adds one to the library depended on, so a
   * library's indegree is the number of libraries depending on it.
   */
  method Indegrees(libraries: seq<string>, deps: Deps) returns (indegrees: map<string, int>)
    requires Closed(libraries, deps)
    ensures indegrees.Keys == Elems(libraries)
    ensures forall n :: n in indegrees ==> indegrees[n] == |Dependents(deps, n, deps.Keys)|
  {
    indegrees := map[];
    for i := 0 to |libraries|
      invariant indegrees.Keys == Elems(libraries[..i])
      invariant forall n :: n in indegrees ==> indegrees[n] == 0
    {
      ElemsPrefix(libraries, i);
      indegrees := indegrees[libraries[i] := 0];
    }
    assert libraries[..|libraries|] == libraries;
    ghost var nodes := Elems(libraries);
    forall n | n in nodes ensures |Dependents(deps, n, {})| == 0 {
      assert Dependents(deps, n, {}) == {};
    }
    indegrees := CountDependents(nodes, deps, indegrees);
  }

  /** The counting loops of `topological_sort`: one for each dependency edge, added to the library depended on. */
  method CountDependents(ghost nodes: set<string>, deps: Deps, indegrees: map<string, int>) returns (counted: map<string, int>)
    requires forall a :: a in deps ==> deps[a] <= nodes
    requires Counted(deps, nodes, indegrees, {}, {})
    ensures Counted(deps, nodes, counted, deps.Keys, {})
  {
    counted := indegrees;
    var toVisit := deps.Keys;
    while toVisit != {}
      invariant toVisit <= deps.Keys
      invariant Counted(deps, nodes, counted, deps.Keys - toVisit, {})
      decreases toVisit
    {
      var lib :| lib in toVisit;
      counted := CountEdgesOf(nodes, deps, lib, deps.Keys - toVisit, counted);
      assert deps.Keys - (toVisit - {lib}) == (deps.Keys - toVisit) + {lib};
      CountLibrary(deps, nodes, counted, deps.Keys - toVisit, lib);
      toVisit := toVisit - {lib};
    }
    assert deps.Keys - {} == deps.Keys;
  }

  /** The innermost counting loop: one for each library `lib` depends on. */
  method CountEdgesOf(ghost nodes: set<string>, deps: Deps, lib: string, ghost among: set<string>, indegrees: map<string, int>) returns (counted: map<string, int>)
    requires lib in deps && deps[lib] <= nodes
    requires Counted(deps, nodes, indegrees, among, {})
    ensures Counted(deps, nodes, counted, among, deps[lib])
  {
    counted := indegrees;
    var remaining := deps[lib];
    while remaining != {}
      invariant remaining <= deps[lib]
      invariant Counted(deps, nodes, counted, among, deps[lib] - remaining)
      decreases remaining
    {
      var dep :| dep in remaining;
      CountEdge(deps, nodes, counted, among, deps[lib] - remaining, dep);
      assert deps[lib] - (remaining - {dep}) == (deps[lib] - remaining) + {dep};
      counted := counted[dep := counted[dep] + 1];
      remaining := remaining - {dep};
    }
    assert deps[lib] - {} == deps[lib];
  }

  // --------------------------------------------------------- Kahn's algorithm

  /** Each library of `order` comes after every library that depends on it. */
  ghost predicate DependentsFirst(deps: Deps, order: seq<string>)
  {
    forall j, m :: 0 <= j < |order| && DependsOn(deps, m, order[j]) ==> m in order[..j]
  }

  /** The state kept between two rounds of the `while queue` loop. */
  ghost predicate KahnState(nodes: set<string>, deps: Deps, indegrees: map<string, int>, queue: seq<string>, done: seq<string>)
  {
    && Distinct(done) && Distinct(queue)
    && Elems(done) <= nodes && Elems(queue) <= nodes
    && Elems(queue) !! Elems(done)
    && Counted(deps, nodes, indegrees, nodes - Elems(done), {})
    && (forall n :: n in nodes ==> (indegrees[n] == 0 <==> n in queue || n in done))
    && DependentsFirst(deps, done)
  }

  /** The state of the inner loop of `topological_sort`: the libraries in `remaining` still owe one to their indegree. */
  ghost predicate ReleaseState(deps: Deps, nodes: set<string>, done: seq<string>, indegrees: map<string, int>, queue: seq<string>, remaining: set<string>)
  {
    && Counted(deps, nodes, indegrees, nodes - Elems(done), remaining)
    && Distinct(queue) && Elems(queue) <= nodes && Elems(queue) !! Elems(done)
    && (forall n :: n in nodes ==> (indegrees[n] == 0 <==> n in queue || n in done))
  }

  /** One round of the inner loop: `dep` loses one from its indegree and joins the queue if that reaches 0. */
  lemma ReleaseStep(deps: Deps, nodes: set<string>, done: seq<string>, indegrees: map<string, int>, queue: seq<string>, remaining: set<string>, dep: string)
    requires ReleaseState(deps, nodes, done, indegrees, queue, remaining)
    requires dep in remaining && remaining <= nodes
    ensures var indegrees' := indegrees[dep := indegrees[dep] - 1];
      var queue' := if indegrees'[dep] == 0 then queue + [dep] else queue;
      ReleaseState(deps, nodes, done, indegrees', queue', remaining - {dep})
  {
    var indegrees' := indegrees[dep := indegrees[dep] - 1];
    assert dep !in queue && dep !in done;
    if indegrees'[dep] == 0 {
      assert Elems(queue + [dep]) == Elems(queue) + {dep};
    }
  }

  /**
   * The inner loop of `topological_sort`: after `lib` is taken off the
   * queue, each library it depends on loses one from its indegree and joins
   * the queue when that reaches 0.
   */
  method Release(ghost nodes: set<string>, deps: Deps, lib: string, indegrees: map<string, int>, queue: seq<string>, ghost done: seq<string>)
    returns (indegrees': map<string, int>, queue': seq<string>)
    requires forall a :: a in deps ==> a in nodes && deps[a] <= nodes
    requires Counted(deps, nodes, indegrees, nodes - Elems(done), DependenciesOf(deps, lib))
    requires Distinct(queue) && Elems(queue) <= nodes && Elems(queue) !! Elems(done)
    requires forall n :: n in nodes ==> (indegrees[n] == 0 <==> n in queue || n in done)
    ensures Counted(deps, nodes, indegrees', nodes - Elems(done), {})
    ensures Distinct(queue') && Elems(queue') <= nodes && Elems(queue') !! Elems(done)
    ensures forall n :: n in nodes ==> (indegrees'[n] == 0 <==> n in queue' || n in done)
    ensures queue <= queue'
  {
    indegrees', queue' := indegrees, queue;
    if lib in deps {
      var remaining := deps[lib];
      while remaining != {}
        invariant remaining <= deps[lib]
        invariant ReleaseState(deps, nodes, done, indegrees', queue', remaining)
        invariant queue <= queue'
        decreases remaining
      {
        var dep :| dep in remaining;
        ReleaseStep(deps, nodes, done, indegrees', queue', remaining, dep);
        indegrees' := indegrees'[dep := indegrees'[dep] - 1];
        if indegrees'[dep] == 0 {
          queue' := queue' + [dep];
        }
        remaining := remaining - {dep};
      }
    }
  }

  /** The libraries of `libraries` whose indegree is 0, in list order: the queue's first contents. */
  method InitialQueue(libraries: seq<string>, indegrees: map<string, int>) returns (queue: seq<string>)
    requires Distinct(libraries) && indegrees.Keys == Elems(libraries)
    ensures Distinct(queue)
    ensures forall n :: n in queue <==> n in libraries && indegrees[n] == 0
  {
    queue := [];
    for i := 0 to |libraries|
      invariant Distinct(queue)
      invariant forall n :: n in queue <==> n in libraries[..i] && indegrees[n] == 0
    {
      assert libraries[..i + 1] == libraries[..i] + [libraries[i]];
      if indegrees[libraries[i]] == 0 {
        queue := queue + [libraries[i]];
      }
    }
    assert libraries[..|libraries|] == libraries;
  }

  /**
   * `topological_sort(libraries, dependencies)`.  The result lists each
   * library at most once; it holds exactly the libraries that are not fed by
   * a dependency cycle; and every library in it comes after each library it
   * depends on, which is itself in the result unless a cycle feeds it.
   */
  method TopologicalSort(libraries: seq<string>, deps: Deps) returns (sortedLibraries: seq<string>)
    requires Distinct(libraries) && Closed(libraries, deps)
    ensures Distinct(sortedLibraries)
    ensures forall lib :: lib in sortedLibraries <==> lib in libraries && !FedByCycle(deps, lib)
    ensures forall i, m :: 0 <= i < |sortedLibraries| && DependsOn(deps, m, sortedLibraries[i]) ==> m in sortedLibraries[i + 1..]
    ensures forall i, j :: 0 <= i < |sortedLibraries| && 0 <= j < |sortedLibraries| && DependsOn(deps, sortedLibraries[i], sortedLibraries[j]) ==> j < i
  {
    ghost var nodes := Elems(libraries);
    var indegrees := Indegrees(libraries, deps);
    CountOverKeys(libraries, deps, indegrees);
    var queue := InitialQueue(libraries, indegrees);

    var done: seq<string> := [];
    while queue != []
      invariant KahnState(nodes, deps, indegrees, queue, done)
      decreases nodes - Elems(done)
    {
      var lib := queue[0];
      queue := queue[1..];
      ghost var before := done;
      done := done + [lib];
      Dequeue(nodes, deps, indegrees, [lib] + queue, before);
      assert nodes - Elems(done) < nodes - Elems(before);
      indegrees, queue := Release(nodes, deps, lib, indegrees, queue, done);
    }

    sortedLibraries := Reverse(done);
    ReverseElems(done);
    forall lib ensures lib in sortedLibraries <==> lib in libraries && !FedByCycle(deps, lib) {
      assert lib in sortedLibraries <==> lib in Elems(sortedLibraries);
      assert lib in done <==> lib in Elems(done);
      if lib in done {
        ProcessedNotFedByCycle(deps, done, lib);
      } else if lib in libraries {
        UnprocessedFedByCycle(nodes, deps, indegrees, done, lib);
      }
    }
    ReversedDependentsAfter(deps, done);
  }

  // ---------------------------------------------------------------- proofs

  /** Counting the dependents among the keys is counting them among all libraries. */
  lemma CountOverKeys(libraries: seq<string>, deps: Deps, indegrees: map<string, int>)
    requires Closed(libraries, deps)
    requires indegrees.Keys == Elems(libraries)
    requires forall n :: n in indegrees ==> indegrees[n] == |Dependents(deps, n, deps.Keys)|
    ensures Counted(deps, Elems(libraries), indegrees, Elems(libraries) - Elems([]), {})
  {
    assert Elems(libraries) - Elems<string>([]) == Elems(libraries);
    forall n | n in indegrees ensures Dependents(deps, n, deps.Keys) == Dependents(deps, n, Elems(libraries)) {
    }
  }

  /**
   * Taking the head `lib` off the queue: nothing unprocessed depends on it,
   * and once it counts as processed, each library it depends on is counted
   * one too high until `Release` decrements it.
   */
  lemma Dequeue(nodes: set<string>, deps: Deps, indegrees: map<string, int>, queue: seq<string>, done: seq<string>)
    requires forall a :: a in deps ==> a in nodes && deps[a] <= nodes
    requires KahnState(nodes, deps, indegrees, queue, done) && queue != []
    ensures queue[0] in nodes && queue[0] !in done
    ensures Distinct(done + [queue[0]]) && Elems(done + [queue[0]]) == Elems(done) + {queue[0]}
    ensures DependentsFirst(deps, done + [queue[0]])
    ensures Counted(deps, nodes, indegrees, nodes - Elems(done + [queue[0]]), DependenciesOf(deps, queue[0]))
    ensures Distinct(queue[1..]) && Elems(queue[1..]) <= nodes && Elems(queue[1..]) !! Elems(done + [queue[0]])
    ensures forall n :: n in nodes ==> (indegrees[n] == 0 <==> n in queue[1..] || n in done + [queue[0]])
  {
    var lib := queue[0];
    var done' := done + [lib];
    assert queue == [lib] + queue[1..];
    assert Elems(done') == Elems(done) + {lib};
    assert Elems(queue) == {lib} + Elems(queue[1..]);
    assert lib !in queue[1..];
    assert Dependents(deps, lib, nodes - Elems(done)) == {};
    forall m | DependsOn(deps, m, lib) ensures m in done {
      assert m !in Dependents(deps, lib, nodes - Elems(done));
    }
    forall j, m | 0 <= j < |done'| && DependsOn(deps, m, done'[j]) ensures m in done'[..j] {
      if j < |done| {
        assert done'[..j] == done[..j];
      } else {
        assert done'[..j] == done;
      }
    }
    forall n | n in nodes
      ensures indegrees[n] == |Dependents(deps, n, nodes - Elems(done'))| + (if n in DependenciesOf(deps, lib) then 1 else 0)
    {
      assert nodes - Elems(done) == (nodes - Elems(done')) + {lib};
      DependentsAdd(deps, n, nodes - Elems(done'), lib);
    }
  }

  /** The position of an element in a list (Python's `l.index(x)`). */
  function IndexOf(s: seq<string>, x: string): (i: nat)
    requires x in s
    ensures i < |s| && s[i] == x
    ensures forall k :: 0 <= k < i ==> s[k] != x
  {
    if s[0] == x then 0 else 1 + IndexOf(s[1..], x)
  }

  /** Walking a path backwards from a processed library stays among processed libraries, at earlier positions. */
  lemma {:induction false} PathIntoDone(deps: Deps, done: seq<string>, p: seq<string>)
    requires DependentsFirst(deps, done) && Distinct(done)
    requires IsPath(deps, p) && p[|p| - 1] in done
    ensures p[0] in done
    ensures |p| >= 2 ==> IndexOf(done, p[0]) < IndexOf(done, p[|p| - 1])
  {
    if |p| >= 2 {
      var q := p[1..];
      assert IsPath(deps, q) by {
        forall t | 0 <= t < |q| - 1 ensures DependsOn(deps, q[t], q[t + 1]) {
          assert DependsOn(deps, p[t + 1], p[t + 2]);
        }
      }
      PathIntoDone(deps, done, q);
      var k := IndexOf(done, p[1]);
      assert DependsOn(deps, p[0], done[k]);
      assert p[0] in done[..k];
    }
  }

  /** A library that Kahn's loop processed is not fed by a cycle. */
  lemma ProcessedNotFedByCycle(deps: Deps, done: seq<string>, lib: string)
    requires DependentsFirst(deps, done) && Distinct(done)
    requires lib in done
    ensures !FedByCycle(deps, lib)
  {
    forall p | IsPath(deps, p) && p[|p| - 1] == lib ensures !OnCycle(deps, p[0]) {
      PathIntoDone(deps, done, p);
      forall c | IsPath(deps, c) && |c| >= 2 && c[0] == p[0] ensures c[|c| - 1] != p[0] {
        if c[|c| - 1] == p[0] {
          PathIntoDone(deps, done, c);
        }
      }
    }
  }

  /** A slice of a path is a path. */
  lemma SlicePath(deps: Deps, p: seq<string>, i: nat, j: nat)
    requires IsPath(deps, p) && i < j <= |p|
    ensures IsPath(deps, p[i..j])
  {
    forall t | 0 <= t < j - i - 1 ensures DependsOn(deps, p[i..j][t], p[i..j][t + 1]) {
      assert p[i..j][t] == p[i + t] && p[i..j][t + 1] == p[i + t + 1];
    }
  }

  /** From a library of `blocked`, where each library has a dependent in `blocked`, a path of any length leads back within `blocked`. */
  lemma {:induction false} BackwardPath(deps: Deps, blocked: set<string>, lib: string, k: nat) returns (p: seq<string>)
    requires lib in blocked
    requires forall n :: n in blocked ==> Dependents(deps, n, blocked) != {}
    ensures IsPath(deps, p) && |p| == k + 1 && p[|p| - 1] == lib && Elems(p) <= blocked
  {
    if k == 0 {
      p := [lib];
    } else {
      var q := BackwardPath(deps, blocked, lib, k - 1);
      assert q[0] in Elems(q);
      var m :| m in Dependents(deps, q[0], blocked);
      p := [m] + q;
      forall t | 0 <= t < |p| - 1 ensures DependsOn(deps, p[t], p[t + 1]) {
        if t > 0 {
          assert p[t] == q[t - 1] && p[t + 1] == q[t];
        }
      }
      assert Elems(p) == {m} + Elems(q);
    }
  }

  /** If every library of `blocked` has a dependent in `blocked`, each of them is fed by a cycle. */
  lemma BlockedFedByCycle(deps: Deps, blocked: set<string>, lib: string)
    requires lib in blocked
    requires forall n :: n in blocked ==> Dependents(deps, n, blocked) != {}
    ensures FedByCycle(deps, lib)
  {
    var p := BackwardPath(deps, blocked, lib, |blocked|);
    Pigeonhole(p, blocked);
    var i, j :| 0 <= i < j < |p| && p[i] == p[j];
    RepeatFeeds(deps, p, i, j);
  }

  /** A path that visits some library twice ends in a library fed by a cycle. */
  lemma RepeatFeeds(deps: Deps, p: seq<string>, i: nat, j: nat)
    requires IsPath(deps, p) && i < j < |p| && p[i] == p[j]
    ensures FedByCycle(deps, p[|p| - 1])
  {
    var cycle := p[i..j + 1];
    SlicePath(deps, p, i, j + 1);
    assert cycle[0] == p[i] && cycle[|cycle| - 1] == p[j];
    assert OnCycle(deps, p[i]) by {
      assert IsPath(deps, cycle) && |cycle| >= 2 && cycle[0] == p[i] && cycle[|cycle| - 1] == p[i];
    }
    var tail := p[i..];
    SlicePath(deps, p, i, |p|);
    assert tail[0] == p[i] && tail[|tail| - 1] == p[|p| - 1];
    assert IsPath(deps, tail) && OnCycle(deps, tail[0]);
  }

  /** When the queue runs dry, every library left out has a dependent that was left out too, so a cycle feeds it. */
  lemma UnprocessedFedByCycle(nodes: set<string>, deps: Deps, indegrees: map<string, int>, done: seq<string>, lib: string)
    requires KahnState(nodes, deps, indegrees, [], done)
    requires lib in nodes && lib !in done
    ensures FedByCycle(deps, lib)
  {
    var blocked := nodes - Elems(done);
    forall n | n in blocked ensures Dependents(deps, n, blocked) != {} {
      assert indegrees[n] != 0;
    }
    BlockedFedByCycle(deps, blocked, lib);
  }

  /** Reversing an order in which dependents come first puts every dependent after what it depends on. */
  lemma ReversedDependentsAfter(deps: Deps, done: seq<string>)
    requires DependentsFirst(deps, done) && Distinct(done)
    ensures forall i, m :: 0 <= i < |Reverse(done)| && DependsOn(deps, m, Reverse(done)[i]) ==> m in Reverse(done)[i + 1..]
    ensures forall i, j :: 0 <= i < |Reverse(done)| && 0 <= j < |Reverse(done)| && DependsOn(deps, Reverse(done)[i], Reverse(done)[j]) ==> j < i
  {
    var r := Reverse(done);
    ReversedDependentsLater(deps, done);
    ReverseElems(done);
    forall i, j | 0 <= i < |r| && 0 <= j < |r| && DependsOn(deps, r[i], r[j]) ensures j < i {
      assert r[i] in r[j + 1..];
      var t :| 0 <= t < |r[j + 1..]| && r[j + 1..][t] == r[i];
      assert r[j + 1 + t] == r[i];
    }
  }

  /** In the reversed order, whatever depends on a library comes somewhere after it. */
  lemma ReversedDependentsLater(deps: Deps, done: seq<string>)
    requires DependentsFirst(deps, done)
    ensures forall i, m :: 0 <= i < |Reverse(done)| && DependsOn(deps, m, Reverse(done)[i]) ==> m in Reverse(done)[i + 1..]
  {
    var r := Reverse(done);
    var n := |done|;
    forall i, m | 0 <= i < n && DependsOn(deps, m, r[i]) ensures m in r[i + 1..] {
      assert r[i] == done[n - 1 - i];
      assert m in done[..n - 1 - i];
      var k :| 0 <= k < n - 1 - i && done[k] == m;
      assert r[i + 1..][n - 1 - k - (i + 1)] == m;
    }
  }

  // ------------------------------------------------------------ theorems

  /** Every library on a cycle is fed by that cycle, so the sort drops it. */
  lemma CycleMembersOmitted(deps: Deps, lib: string)
    requires OnCycle(deps, lib)
    ensures FedByCycle(deps, lib)
  {
    assert IsPath(deps, [lib]);
  }

  /** On an acyclic graph the sort drops nothing: its result is a permutation of the libraries. */
  lemma AcyclicSortIsPermutation(libraries: seq<string>, deps: Deps, sorted: seq<string>)
    requires Distinct(libraries) && Acyclic(deps)
    requires Distinct(sorted)
    requires forall lib :: lib in sorted <==> lib in libraries && !FedByCycle(deps, lib)
    ensures multiset(sorted) == multiset(libraries)
  {
    DistinctMultiset(sorted, libraries);
  }
}
