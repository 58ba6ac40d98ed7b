/** The dependency graph that sortByDependencies derives from the registered
    systems (system_manager.cpp), stated as functions of the registration
    list: the remaining in-degree of a name once some names are processed,
    and the adjacency list of dependents of a name. */
module DependencyGraph {
  import opened Sequences
  import opened EngineSystem

  /** How many entries of `deps` name something not yet in `done`. */
  function Unmet(deps: seq<string>, done: set<string>): nat {
    if deps == [] then 0
    else Unmet(deps[..|deps| - 1], done) + (if deps[|deps| - 1] in done then 0 else 1)
  }

  /** The in-degree of `y` once the names in `done` have been emitted: one
      for every dependency entry, of every system named `y`, that names
      something not yet emitted. */
  function Pending(ss: seq<System>, y: string, done: set<string>): nat {
    if ss == [] then 0
    else Pending(ss[..|ss| - 1], y, done)
         + (if ss[|ss| - 1].name == y then Unmet(ss[|ss| - 1].dependencies, done) else 0)
  }

  /** How many dependency entries of systems named `y` name `c`. */
  function EdgeCount(ss: seq<System>, y: string, c: string): nat {
    if ss == [] then 0
    else EdgeCount(ss[..|ss| - 1], y, c)
         + (if ss[|ss| - 1].name == y then Count(ss[|ss| - 1].dependencies, c) else 0)
  }

  /** The adjacency list of `c`: the name of each system once per entry
      naming `c` in its dependencies, in registration order. */
  function Dependents(ss: seq<System>, c: string): seq<string> {
    if ss == [] then []
    else Dependents(ss[..|ss| - 1], c)
         + Repeat(ss[|ss| - 1].name, Count(ss[|ss| - 1].dependencies, c))
  }

  /** The in-degree and adjacency maps hold exactly the graph of `ss`, keyed
      by the registered names. */
  predicate IsGraphOf(ss: seq<System>, inDegree: map<string, int>, dependents: map<string, seq<string>>) {
    inDegree.Keys == Names(ss) && dependents.Keys == Names(ss) &&
    forall y :: y in Names(ss) ==> inDegree[y] == Pending(ss, y, {}) && dependents[y] == Dependents(ss, y)
  }

  /** The maps hold the graph of the first `i` systems, keyed by all the
      registered names. */
  predicate IsGraphOfPrefix(ss: seq<System>, i: nat, inDegree: map<string, int>, dependents: map<string, seq<string>>)
    requires i <= |ss|
  {
    inDegree.Keys == Names(ss) && dependents.Keys == Names(ss) &&
    forall y :: y in Names(ss) ==> inDegree[y] == Pending(ss[..i], y, {}) && dependents[y] == Dependents(ss[..i], y)
  }

  /** The tables of a prefix one system longer add that system's edges. */
  lemma GraphPrefixStep(ss: seq<System>, i: nat, y: string)
    requires i < |ss|
    ensures Pending(ss[..i + 1], y, {}) == Pending(ss[..i], y, {}) + (if ss[i].name == y then |ss[i].dependencies| else 0)
    ensures Dependents(ss[..i + 1], y) == Dependents(ss[..i], y) + Repeat(ss[i].name, Count(ss[i].dependencies, y))
  {
    assert ss[..i + 1][..i] == ss[..i] && ss[..i + 1][i] == ss[i];
    UnmetNone(ss[i].dependencies);
  }

  lemma {:induction false} UnmetNone(deps: seq<string>)
    ensures Unmet(deps, {}) == |deps|
  {
    if deps != [] { UnmetNone(deps[..|deps| - 1]); }
  }

  /** Emitting `c` satisfies exactly the entries that name `c`. */
  lemma {:induction false} UnmetEmit(deps: seq<string>, done: set<string>, c: string)
    requires c !in done
    ensures Unmet(deps, done + {c}) + Count(deps, c) == Unmet(deps, done)
  {
    if deps != [] { UnmetEmit(deps[..|deps| - 1], done, c); }
  }

  lemma {:induction false} UnmetZero(deps: seq<string>, done: set<string>)
    requires Unmet(deps, done) == 0
    ensures forall k :: 0 <= k < |deps| ==> deps[k] in done
  {
    if deps != [] {
      var prefix := deps[..|deps| - 1];
      UnmetZero(prefix, done);
      assert forall k :: 0 <= k < |prefix| ==> deps[k] == prefix[k];
    }
  }

  lemma {:induction false} UnmetPositive(deps: seq<string>, done: set<string>)
    requires Unmet(deps, done) > 0
    ensures exists k :: 0 <= k < |deps| && deps[k] !in done
  {
    var prefix := deps[..|deps| - 1];
    if deps[|deps| - 1] in done {
      UnmetPositive(prefix, done);
      var k :| 0 <= k < |prefix| && prefix[k] !in done;
      assert deps[k] == prefix[k];
    }
  }

  /** Emitting `c` lowers the in-degree of `y` by the number of edges from
      `y` to `c`. */
  lemma {:induction false} PendingEmit(ss: seq<System>, y: string, done: set<string>, c: string)
    requires c !in done
    ensures Pending(ss, y, done + {c}) + EdgeCount(ss, y, c) == Pending(ss, y, done)
  {
    if ss != [] {
      PendingEmit(ss[..|ss| - 1], y, done, c);
      UnmetEmit(ss[|ss| - 1].dependencies, done, c);
    }
  }

  /** In-degree zero means every dependency of every system named `y` has
      been emitted. */
  lemma {:induction false} PendingZero(ss: seq<System>, y: string, done: set<string>)
    requires Pending(ss, y, done) == 0
    ensures forall i, k ::
              0 <= i < |ss| && ss[i].name == y && 0 <= k < |ss[i].dependencies| ==> ss[i].dependencies[k] in done
  {
    if ss != [] {
      var n := |ss| - 1;
      var prefix := ss[..n];
      PendingZero(prefix, y, done);
      if ss[n].name == y { UnmetZero(ss[n].dependencies, done); }
      assert forall i :: 0 <= i < n ==> ss[i] == prefix[i];
    }
  }

  /** A positive in-degree is witnessed by a dependency not yet emitted. */
  lemma {:induction false} PendingPositive(ss: seq<System>, y: string, done: set<string>)
    requires Pending(ss, y, done) > 0
    ensures exists i, k ::
              0 <= i < |ss| && ss[i].name == y && 0 <= k < |ss[i].dependencies| && ss[i].dependencies[k] !in done
  {
    var n := |ss| - 1;
    var prefix := ss[..n];
    if ss[n].name == y && Unmet(ss[n].dependencies, done) > 0 {
      UnmetPositive(ss[n].dependencies, done);
    } else {
      PendingPositive(prefix, y, done);
      var i, k :| 0 <= i < |prefix| && prefix[i].name == y && 0 <= k < |prefix[i].dependencies| &&
        prefix[i].dependencies[k] !in done;
      assert ss[i] == prefix[i];
    }
  }

  /** Only registered systems have edges. */
  lemma {:induction false} EdgesFromRegistered(ss: seq<System>, y: string, c: string)
    requires EdgeCount(ss, y, c) > 0
    ensures y in Names(ss)
  {
    var n := |ss| - 1;
    NamesPrefix(ss, n);
    assert ss[..n + 1] == ss;
    if ss[n].name != y {
      EdgesFromRegistered(ss[..n], y, c);
    }
  }

  /** The adjacency list of `c` holds `y` once per edge from `y` to `c`. */
  lemma {:induction false} DependentsCount(ss: seq<System>, c: string, y: string)
    ensures Count(Dependents(ss, c), y) == EdgeCount(ss, y, c)
  {
    if ss != [] {
      var n := |ss| - 1;
      DependentsCount(ss[..n], c, y);
      CountAppend(Dependents(ss[..n], c), Repeat(ss[n].name, Count(ss[n].dependencies, c)), y);
      CountRepeat(ss[n].name, Count(ss[n].dependencies, c), y);
    }
  }
}
