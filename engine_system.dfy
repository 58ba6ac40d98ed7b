/** The engine-system contract of system_manager.h: what the manager sees of a
    system (its name, its declared dependencies, and which types a dynamic cast
    accepts it as), plus the vocabulary for dependency orders. */
module EngineSystem {
  import opened Sequences

  /** Opaque identity of a C++ type, as `typeid` would give it. */
  type TypeTag = string

  /** One registered system. `types` are the types the object can be cast to;
      a system that does not override `getDependencies` declares none. */
  datatype System = System(name: string, types: set<TypeTag>, dependencies: seq<string> := [])

  /** What a call to `shutdown` did: return normally or throw (the manager
      catches the exception and carries on). */
  datatype ShutdownOutcome = Completed | Threw

  /** A call the manager makes into a system, in the order it makes them. */
  datatype Call = Initialize(system: System) | Shutdown(system: System, outcome: ShutdownOutcome)

  /** The names of the registered systems. */
  function Names(ss: seq<System>): set<string> {
    set i | 0 <= i < |ss| :: ss[i].name
  }

  /** No two registered systems share a name. */
  predicate DistinctNames(ss: seq<System>) {
    forall i, j :: 0 <= i < |ss| && 0 <= j < |ss| && ss[i].name == ss[j].name ==> i == j
  }

  /** Every declared dependency is one of the names in `known`. */
  predicate DependenciesWithin(ss: seq<System>, known: set<string>) {
    forall i, k :: 0 <= i < |ss| && 0 <= k < |ss[i].dependencies| ==> ss[i].dependencies[k] in known
  }

  /** Every declared dependency names a registered system. */
  predicate AllDependenciesKnown(ss: seq<System>) {
    DependenciesWithin(ss, Names(ss))
  }

  /** `dependency`, declared by a system named `system`, is the first
      unregistered dependency in registration order: every system before
      that one, and every earlier dependency of that one, is registered. */
  predicate FirstUnknown(ss: seq<System>, system: string, dependency: string) {
    exists i, k :: 0 <= i < |ss| && 0 <= k < |ss[i].dependencies| &&
      ss[i].name == system && ss[i].dependencies[k] == dependency && dependency !in Names(ss) &&
      DependenciesWithin(ss[..i], Names(ss)) &&
      (forall k' :: 0 <= k' < k ==> ss[i].dependencies[k'] in Names(ss))
  }

  /** The first unknown dependency is unique: a list has at most one. */
  lemma FirstUnknownUnique(ss: seq<System>, system1: string, dependency1: string, system2: string, dependency2: string)
    requires FirstUnknown(ss, system1, dependency1) && FirstUnknown(ss, system2, dependency2)
    ensures system1 == system2 && dependency1 == dependency2
  {
    var i1, k1 :| 0 <= i1 < |ss| && 0 <= k1 < |ss[i1].dependencies| &&
      ss[i1].name == system1 && ss[i1].dependencies[k1] == dependency1 && dependency1 !in Names(ss) &&
      DependenciesWithin(ss[..i1], Names(ss)) &&
      (forall k' :: 0 <= k' < k1 ==> ss[i1].dependencies[k'] in Names(ss));
    var i2, k2 :| 0 <= i2 < |ss| && 0 <= k2 < |ss[i2].dependencies| &&
      ss[i2].name == system2 && ss[i2].dependencies[k2] == dependency2 && dependency2 !in Names(ss) &&
      DependenciesWithin(ss[..i2], Names(ss)) &&
      (forall k' :: 0 <= k' < k2 ==> ss[i2].dependencies[k'] in Names(ss));
    if i1 < i2 {
      assert false;
    } else if i2 < i1 {
      assert false;
    } else if k1 != k2 {
      assert false;
    }
  }

  /** A first unknown dependency leaves the list with an unknown dependency. */
  lemma FirstUnknownIsUnknown(ss: seq<System>, system: string, dependency: string)
    requires FirstUnknown(ss, system, dependency)
    ensures !AllDependenciesKnown(ss)
  {
    var i, k :| 0 <= i < |ss| && 0 <= k < |ss[i].dependencies| && ss[i].dependencies[k] == dependency && dependency !in Names(ss);
  }

  /** An unknown dependency at position (i0, k0) leads back to the first
      one: the earliest system with an unknown dependency, and its earliest
      unknown dependency. */
  lemma {:induction false} EarliestUnknown(ss: seq<System>, i0: nat, k0: nat) returns (i: nat, k: nat)
    requires i0 < |ss| && k0 < |ss[i0].dependencies| && ss[i0].dependencies[k0] !in Names(ss)
    ensures i < |ss| && k < |ss[i].dependencies|
    ensures FirstUnknown(ss, ss[i].name, ss[i].dependencies[k])
    decreases i0, k0
  {
    if j, l :| 0 <= j < i0 && 0 <= l < |ss[j].dependencies| && ss[j].dependencies[l] !in Names(ss) {
      i, k := EarliestUnknown(ss, j, l);
    } else if l :| 0 <= l < k0 && ss[i0].dependencies[l] !in Names(ss) {
      i, k := EarliestUnknown(ss, i0, l);
    } else {
      i, k := i0, k0;
      assert DependenciesWithin(ss[..i], Names(ss)) by {
        forall j, l | 0 <= j < i && 0 <= l < |ss[..i][j].dependencies|
          ensures ss[..i][j].dependencies[l] in Names(ss)
        {
          assert ss[..i][j] == ss[j];
        }
      }
    }
  }

  /** A list with an unknown dependency has a first one, in registration
      order, for the dependency check to stop at. */
  lemma {:induction false} FirstUnknownExists(ss: seq<System>)
    requires !AllDependenciesKnown(ss)
    ensures exists system, dependency :: FirstUnknown(ss, system, dependency)
  {
    var i0, k0 :| 0 <= i0 < |ss| && 0 <= k0 < |ss[i0].dependencies| && ss[i0].dependencies[k0] !in Names(ss);
    var i, k := EarliestUnknown(ss, i0, k0);
  }

  /** Every system comes after a system carrying each name it depends on. */
  predicate DependenciesFirst(order: seq<System>) {
    forall i, k :: 0 <= i < |order| && 0 <= k < |order[i].dependencies| ==>
      exists j :: 0 <= j < i && order[j].name == order[i].dependencies[k]
  }

  /** A dependency of a system in a dependency order names an earlier one. */
  lemma DependsOnEarlier(order: seq<System>, i: nat, k: nat)
    requires DependenciesFirst(order) && i < |order| && k < |order[i].dependencies|
    ensures exists j :: 0 <= j < i && order[j].name == order[i].dependencies[k]
  {
    var dependency := order[i].dependencies[k];
  }

  /** `order` lists exactly the systems of `ss` and respects every dependency. */
  predicate IsDependencyOrder(order: seq<System>, ss: seq<System>) {
    multiset(order) == multiset(ss) && DependenciesFirst(order)
  }

  /** The dependency graph is acyclic: some arrangement respects it. */
  ghost predicate HasDependencyOrder(ss: seq<System>) {
    exists order :: IsDependencyOrder(order, ss)
  }

  /** When ordering by dependencies succeeds: a list of at most one system is
      never checked; otherwise every dependency must be known, the names
      distinct and the graph acyclic. */
  ghost predicate Resolvable(ss: seq<System>) {
    |ss| <= 1 || (AllDependenciesKnown(ss) && DistinctNames(ss) && HasDependencyOrder(ss))
  }

  /** Extending a prefix of the registration list by one system adds its name. */
  lemma NamesPrefix(ss: seq<System>, i: nat)
    requires i < |ss|
    ensures Names(ss[..i + 1]) == Names(ss[..i]) + {ss[i].name}
  {
    assert ss[..i + 1][i] == ss[i];
    forall x | x in Names(ss[..i + 1]) ensures x in Names(ss[..i]) + {ss[i].name} {
      var j :| 0 <= j < i + 1 && ss[..i + 1][j].name == x;
      if j < i { assert ss[..i][j] == ss[..i + 1][j]; }
    }
    forall x | x in Names(ss[..i]) ensures x in Names(ss[..i + 1]) {
      var j :| 0 <= j < i && ss[..i][j].name == x;
      assert ss[..i + 1][j] == ss[..i][j];
    }
  }

  /** There are never more names than systems, and as many only when no
      name repeats. */
  lemma {:induction false} NamesCard(ss: seq<System>)
    ensures |Names(ss)| <= |ss|
    ensures |Names(ss)| == |ss| ==> DistinctNames(ss)
  {
    if ss != [] {
      var n := |ss| - 1;
      var prefix := ss[..n];
      NamesCard(prefix);
      NamesPrefix(ss, n);
      assert ss[..n + 1] == ss;
      if |Names(ss)| == |ss| {
        assert ss[n].name !in Names(prefix);
        forall i, j | 0 <= i < |ss| && 0 <= j < |ss| && ss[i].name == ss[j].name ensures i == j {
          if i < n && j < n {
            assert prefix[i] == ss[i] && prefix[j] == ss[j];
          }
        }
      }
    }
  }

  /** Systems with distinct names have as many names as systems. */
  lemma {:induction false} DistinctNamesCard(ss: seq<System>)
    requires DistinctNames(ss)
    ensures |Names(ss)| == |ss|
  {
    if ss != [] {
      var n := |ss| - 1;
      var prefix := ss[..n];
      assert DistinctNames(prefix) by {
        forall i, j | 0 <= i < n && 0 <= j < n && prefix[i].name == prefix[j].name ensures i == j {
          assert prefix[i] == ss[i] && prefix[j] == ss[j];
        }
      }
      DistinctNamesCard(prefix);
      NamesPrefix(ss, n);
      assert ss[..n + 1] == ss;
    }
  }

  /** Systems with distinct names are distinct systems. */
  lemma DistinctNamesDistinct(ss: seq<System>)
    requires DistinctNames(ss)
    ensures Distinct(ss)
  {
  }
}
