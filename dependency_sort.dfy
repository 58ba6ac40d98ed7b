/** sortByDependencies of system_manager.cpp: the name index, the in-degree
    and adjacency tables with the unknown-dependency check, and Kahn's
    algorithm with its size check for cycles. */
module DependencySort {
  import opened Sequences
  import opened EngineSystem
  import opened DependencyGraph

  /** The outcome of building the dependency tables. */
  datatype GraphResult =
    | Graph(inDegree: map<string, int>, dependents: map<string, seq<string>>)
    | Unknown(system: string, dependency: string)

  /** The outcome of ordering the registered systems. `CircularDependency`
      is reported whenever Kahn's algorithm emits fewer systems than are
      registered: a cycle, or two systems sharing a name. */
  datatype SortResult =
    | Sorted(order: seq<System>)
    | UnknownDependency(system: string, dependency: string)
    | CircularDependency

  /** `s` is the last of the first `n` systems registered under `y`. */
  predicate LastNamed(ss: seq<System>, n: nat, y: string, s: System)
    requires n <= |ss|
  {
    exists p :: 0 <= p < n && ss[p] == s && forall j :: p < j < n ==> ss[j].name != y
  }

  /** The map from each registered name to a system carrying it (the last
      one registered under that name). */
  method IndexByName(ss: seq<System>) returns (byName: map<string, System>)
    ensures byName.Keys == Names(ss)
    ensures forall y :: y in byName ==> byName[y].name == y && byName[y] in ss
    ensures forall y :: y in byName ==> LastNamed(ss, |ss|, y, byName[y])
  {
    byName := map[];
    for i := 0 to |ss|
      invariant byName.Keys == Names(ss[..i])
      invariant forall y :: y in byName ==> byName[y].name == y && byName[y] in ss
      invariant forall y :: y in byName ==> LastNamed(ss, i, y, byName[y])
    {
      NamesPrefix(ss, i);
      byName := byName[ss[i].name := ss[i]];
    }
    assert ss[..|ss|] == ss;
  }

  /** Every registered name starts with in-degree zero and no dependents. */
  method EmptyTables(ss: seq<System>) returns (inDegree: map<string, int>, dependents: map<string, seq<string>>)
    ensures inDegree.Keys == Names(ss) && dependents.Keys == Names(ss)
    ensures forall y :: y in Names(ss) ==> inDegree[y] == 0 && dependents[y] == []
  {
    inDegree, dependents := map[], map[];
    for i := 0 to |ss|
      invariant inDegree.Keys == Names(ss[..i]) && dependents.Keys == Names(ss[..i])
      invariant forall y :: y in inDegree ==> inDegree[y] == 0 && dependents[y] == []
    {
      NamesPrefix(ss, i);
      inDegree := inDegree[ss[i].name := 0];
      dependents := dependents[ss[i].name := []];
    }
    assert ss[..|ss|] == ss;
  }

  /** `dependents` is `dependents0` with `name` appended to the adjacency
      list of each entry of `added`, once per entry. */
  ghost predicate AdjacencyExtended(dependents0: map<string, seq<string>>, dependents: map<string, seq<string>>,
                                    name: string, added: seq<string>, known: set<string>)
  {
    dependents0.Keys == known && dependents.Keys == known &&
    forall y :: y in known ==> dependents[y] == dependents0[y] + Repeat(name, Count(added, y))
  }

  /** Recording the edge from `name` to `deps[k]` extends the adjacency
      list of `deps[k]` by one entry. */
  lemma DependentsStep(dependents0: map<string, seq<string>>, dependents: map<string, seq<string>>,
                       name: string, deps: seq<string>, k: nat, known: set<string>)
    requires k < |deps| && deps[k] in known
    requires AdjacencyExtended(dependents0, dependents, name, deps[..k], known)
    ensures AdjacencyExtended(dependents0, dependents[deps[k] := dependents[deps[k]] + [name]], name, deps[..k + 1], known)
  {
    forall y | y in known
      ensures dependents[deps[k] := dependents[deps[k]] + [name]][y] == dependents0[y] + Repeat(name, Count(deps[..k + 1], y))
    {
      CountPrefixStep(deps, k, y);
      if y == deps[k] {
        assert Repeat(name, Count(deps[..k], y)) + [name] == Repeat(name, Count(deps[..k], y) + 1);
      }
    }
  }

  /** Adds the edges of one system (`name` depending on each of `deps`) to
      the tables, or reports its first dependency outside `known`. */
  method AddEdges(name: string, deps: seq<string>, known: set<string>,
                  inDegree0: map<string, int>, dependents0: map<string, seq<string>>)
    returns (r: GraphResult)
    requires name in known && inDegree0.Keys == known && dependents0.Keys == known
    ensures r.Graph? ==> forall k :: 0 <= k < |deps| ==> deps[k] in known
    ensures r.Graph? ==> r.inDegree == inDegree0[name := inDegree0[name] + |deps|]
    ensures r.Graph? ==> AdjacencyExtended(dependents0, r.dependents, name, deps, known)
    ensures r.Unknown? ==> r.system == name && r.dependency in deps && r.dependency !in known
    ensures r.Unknown? ==> exists k :: 0 <= k < |deps| && deps[k] == r.dependency &&
                                       forall k' :: 0 <= k' < k ==> deps[k'] in known
  {
    var inDegree, dependents := inDegree0, dependents0;
    assert deps[..0] == [];
    for k := 0 to |deps|
      invariant inDegree == inDegree0[name := inDegree0[name] + k]
      invariant AdjacencyExtended(dependents0, dependents, name, deps[..k], known)
      invariant forall k' :: 0 <= k' < k ==> deps[k'] in known
    {
      var dep := deps[k];
      if dep !in known {
        return Unknown(name, dep);
      }
      DependentsStep(dependents0, dependents, name, deps, k, known);
      dependents := dependents[dep := dependents[dep] + [name]];
      inDegree := inDegree[name := inDegree[name] + 1];
    }
    assert deps[..|deps|] == deps;
    return Graph(inDegree, dependents);
  }

  /** Tables holding the edges of `ss[..i]`, extended by those of `ss[i]`,
      hold the edges of `ss[..i + 1]`. */
  lemma TablesStep(ss: seq<System>, i: nat,
                   inDegree: map<string, int>, dependents: map<string, seq<string>>,
                   inDegree': map<string, int>, dependents': map<string, seq<string>>)
    requires i < |ss| && IsGraphOfPrefix(ss, i, inDegree, dependents)
    requires inDegree' == inDegree[ss[i].name := inDegree[ss[i].name] + |ss[i].dependencies|]
    requires AdjacencyExtended(dependents, dependents', ss[i].name, ss[i].dependencies, Names(ss))
    ensures IsGraphOfPrefix(ss, i + 1, inDegree', dependents')
  {
    assert ss[i].name in Names(ss);
    forall y | y in Names(ss)
      ensures inDegree'[y] == Pending(ss[..i + 1], y, {}) && dependents'[y] == Dependents(ss[..i + 1], y)
    {
      GraphPrefixStep(ss, i, y);
    }
  }

  /** The dependencies of `ss[..i + 1]` are known when those of `ss[..i]`
      and of `ss[i]` are. */
  lemma KnownStep(ss: seq<System>, i: nat, known: set<string>)
    requires i < |ss| && DependenciesWithin(ss[..i], known)
    requires forall k :: 0 <= k < |ss[i].dependencies| ==> ss[i].dependencies[k] in known
    ensures DependenciesWithin(ss[..i + 1], known)
  {
    var longer := ss[..i + 1];
    forall j, k | 0 <= j < i + 1 && 0 <= k < |longer[j].dependencies|
      ensures longer[j].dependencies[k] in known
    {
      if j < i { assert longer[j] == ss[..i][j]; }
    }
  }

  /** A dependency of the i-th system that is not registered, past only
      registered ones, and with every earlier system's dependencies
      registered, is the list's first unknown dependency. */
  lemma UnknownFound(ss: seq<System>, i: nat, dependency: string)
    requires i < |ss| && dependency !in Names(ss) && DependenciesWithin(ss[..i], Names(ss))
    requires exists k :: 0 <= k < |ss[i].dependencies| && ss[i].dependencies[k] == dependency &&
                         forall k' :: 0 <= k' < k ==> ss[i].dependencies[k'] in Names(ss)
    ensures FirstUnknown(ss, ss[i].name, dependency) && !AllDependenciesKnown(ss)
  {
    var k :| 0 <= k < |ss[i].dependencies| && ss[i].dependencies[k] == dependency &&
             forall k' :: 0 <= k' < k ==> ss[i].dependencies[k'] in Names(ss);
    FirstUnknownIsUnknown(ss, ss[i].name, dependency);
  }

  /** Builds the in-degree and adjacency tables, failing on the first
      dependency (in registration order) that names no registered system. */
  method BuildGraph(ss: seq<System>, byName: map<string, System>) returns (r: GraphResult)
    requires byName.Keys == Names(ss)
    ensures r.Graph? <==> AllDependenciesKnown(ss)
    ensures r.Graph? ==> IsGraphOf(ss, r.inDegree, r.dependents)
    ensures r.Unknown? ==> FirstUnknown(ss, r.system, r.dependency)
  {
    var inDegree, dependents := EmptyTables(ss);
    assert ss[..0] == [];
    for i := 0 to |ss|
      invariant IsGraphOfPrefix(ss, i, inDegree, dependents)
      invariant DependenciesWithin(ss[..i], byName.Keys)
    {
      assert ss[i].name in Names(ss);
      var added := AddEdges(ss[i].name, ss[i].dependencies, byName.Keys, inDegree, dependents);
      if added.Unknown? {
        UnknownFound(ss, i, added.dependency);
        return added;
      }
      TablesStep(ss, i, inDegree, dependents, added.inDegree, added.dependents);
      KnownStep(ss, i, byName.Keys);
      inDegree, dependents := added.inDegree, added.dependents;
    }
    assert ss[..|ss|] == ss;
    return Graph(inDegree, dependents);
  }

  /** The first position of `order` whose name is outside `done`. */
  lemma {:induction false} FirstOutside(order: seq<System>, done: set<string>, i0: nat) returns (m: nat)
    requires i0 < |order| && order[i0].name !in done
    ensures m <= i0 && order[m].name !in done
    ensures forall j :: 0 <= j < m ==> order[j].name in done
  {
    if j :| 0 <= j < i0 && order[j].name !in done {
      m := FirstOutside(order, done, j);
    } else {
      m := i0;
    }
  }

  /** The systems emitted so far: one per name in `done`, drawn from the
      registered ones, each after the systems it depends on. */
  ghost predicate Emitted(ss: seq<System>, done: set<string>, sorted: seq<System>) {
    done <= Names(ss) && |done| == |sorted| &&
    (forall i :: 0 <= i < |sorted| ==> sorted[i] in ss && sorted[i].name in done) &&
    (forall y :: y in done ==> exists i :: 0 <= i < |sorted| && sorted[i].name == y) &&
    DistinctNames(sorted) && DependenciesFirst(sorted)
  }

  /** The in-degree table and the ready stack agree with the graph once the
      names in `done` are emitted: the stack holds, once each, exactly the
      unemitted names whose in-degree has dropped to zero. */
  ghost predicate Frontier(ss: seq<System>, done: set<string>, inDegree: map<string, int>, queue: seq<string>) {
    inDegree.Keys == Names(ss) &&
    (forall y :: y in Names(ss) ==> inDegree[y] == Pending(ss, y, done)) &&
    (forall y :: y in done ==> Pending(ss, y, done) == 0) &&
    Distinct(queue) &&
    (forall y :: y in queue <==> y in Names(ss) && y !in done && Pending(ss, y, done) == 0)
  }

  /** Appending a system whose dependencies are all named earlier keeps
      every dependency satisfied. */
  lemma DependenciesFirstSnoc(sorted: seq<System>, next: System)
    requires DependenciesFirst(sorted)
    requires forall k :: 0 <= k < |next.dependencies| ==>
               exists j :: 0 <= j < |sorted| && sorted[j].name == next.dependencies[k]
    ensures DependenciesFirst(sorted + [next])
  {
    var sorted' := sorted + [next];
    forall i, k | 0 <= i < |sorted'| && 0 <= k < |sorted'[i].dependencies|
      ensures exists j :: 0 <= j < i && sorted'[j].name == sorted'[i].dependencies[k]
    {
      if i < |sorted| {
        var j :| 0 <= j < i && sorted[j].name == sorted[i].dependencies[k];
        assert sorted'[j] == sorted[j];
      } else {
        var j :| 0 <= j < |sorted| && sorted[j].name == next.dependencies[k];
        assert sorted'[j] == sorted[j];
      }
    }
  }

  /** Appending a system whose name is new keeps the names distinct. */
  lemma DistinctNamesSnoc(sorted: seq<System>, next: System, done: set<string>)
    requires DistinctNames(sorted) && next.name !in done
    requires forall i :: 0 <= i < |sorted| ==> sorted[i].name in done
    ensures DistinctNames(sorted + [next])
  {
    var sorted' := sorted + [next];
    forall i, j | 0 <= i < |sorted'| && 0 <= j < |sorted'| && sorted'[i].name == sorted'[j].name
      ensures i == j
    {
      if i < |sorted| { assert sorted'[i] == sorted[i] && sorted[i].name in done; }
      if j < |sorted| { assert sorted'[j] == sorted[j] && sorted[j].name in done; }
    }
  }

  /** Every name of `done`, and the new one, names an emitted system. */
  lemma NamedSnoc(sorted: seq<System>, next: System, done: set<string>)
    requires forall y :: y in done ==> exists i :: 0 <= i < |sorted| && sorted[i].name == y
    ensures forall y :: y in done + {next.name} ==> exists i :: 0 <= i < |sorted + [next]| && (sorted + [next])[i].name == y
  {
    var sorted' := sorted + [next];
    forall y | y in done + {next.name}
      ensures exists i :: 0 <= i < |sorted'| && sorted'[i].name == y
    {
      if y in done {
        var i :| 0 <= i < |sorted| && sorted[i].name == y;
        assert sorted'[i] == sorted[i];
      } else {
        assert sorted'[|sorted|].name == y;
      }
    }
  }

  /** Appending the system named by a ready name keeps the emitted prefix
      well formed. */
  lemma EmitStep(ss: seq<System>, byName: map<string, System>, done: set<string>, sorted: seq<System>, current: string)
    requires Emitted(ss, done, sorted)
    requires current in Names(ss) && current !in done && Pending(ss, current, done) == 0
    requires current in byName && byName[current].name == current && byName[current] in ss
    ensures Emitted(ss, done + {current}, sorted + [byName[current]])
  {
    var next := byName[current];
    var sorted' := sorted + [next];
    var p :| 0 <= p < |ss| && ss[p] == next;
    PendingZero(ss, current, done);
    assert forall k :: 0 <= k < |next.dependencies| ==> next.dependencies[k] in done by {
      forall k | 0 <= k < |next.dependencies| ensures next.dependencies[k] in done {
        assert ss[p].dependencies[k] in done;
      }
    }
    DependenciesFirstSnoc(sorted, next);
    DistinctNamesSnoc(sorted, next, done);
    NamedSnoc(sorted, next, done);
    forall i | 0 <= i < |sorted'| ensures sorted'[i] in ss && sorted'[i].name in done + {current} {
      if i < |sorted| { assert sorted'[i] == sorted[i]; }
    }
    assert |done + {current}| == |done| + 1;
  }

  /** Popping the top of the ready stack leaves the other ready names. */
  lemma PopFrontier(ss: seq<System>, done: set<string>, inDegree: map<string, int>, queue: seq<string>, current: string)
    requires Frontier(ss, done, inDegree, queue + [current])
    ensures current in Names(ss) && current !in done && Pending(ss, current, done) == 0
    ensures Distinct(queue) && current !in queue
    ensures forall y :: y in queue <==> y in Names(ss) && y !in done + {current} && Pending(ss, y, done) == 0
  {
    var stack := queue + [current];
    assert current == stack[|queue|];
    forall i, j | 0 <= i < j < |queue| ensures queue[i] != queue[j] {
      assert queue[i] == stack[i] && queue[j] == stack[j];
    }
    forall i | 0 <= i < |queue| ensures queue[i] != current {
      assert queue[i] == stack[i];
    }
    forall y ensures y in queue <==> y in stack && y != current {
      if y in queue {
        var i :| 0 <= i < |queue| && queue[i] == y;
        assert stack[i] == y;
      }
    }
  }

  /** Partway through releasing the dependents `next` of `current`: the
      first `j` entries have had their in-degree lowered, and the stack holds
      exactly the unemitted names whose in-degree is now zero. */
  ghost predicate Releasing(ss: seq<System>, before: set<string>, current: string, next: seq<string>, j: nat,
                            inDegree: map<string, int>, queue: seq<string>)
  {
    j <= |next| && inDegree.Keys == Names(ss) &&
    (forall y :: y in Names(ss) ==> inDegree[y] == Pending(ss, y, before) - Count(next[..j], y)) &&
    Distinct(queue) &&
    (forall y :: y in queue <==> y in Names(ss) && y !in before + {current} && inDegree[y] == 0)
  }

  /** The next dependent of `current` is registered, unemitted and still
      waits on `current`, so its in-degree is positive. */
  lemma ReleaseTarget(ss: seq<System>, before: set<string>, current: string, next: seq<string>, j: nat,
                      inDegree: map<string, int>, queue: seq<string>)
    requires current !in before && Pending(ss, current, before) == 0
    requires forall y :: y in before ==> Pending(ss, y, before) == 0
    requires next == Dependents(ss, current) && j < |next|
    requires Releasing(ss, before, current, next, j, inDegree, queue)
    ensures next[j] in Names(ss) && next[j] !in before + {current}
    ensures inDegree[next[j]] >= 1
  {
    var dependent := next[j];
    CountMember(next, j);
    DependentsCount(ss, current, dependent);
    EdgesFromRegistered(ss, dependent, current);
    CountPrefixStep(next, j, dependent);
    CountPrefix(next, j + 1, dependent);
    PendingEmit(ss, dependent, before, current);
  }

  /** Lowering the in-degree of the next dependent, and pushing it when it
      reaches zero, keeps the release in step. */
  lemma ReleaseStep(ss: seq<System>, before: set<string>, current: string, next: seq<string>, j: nat,
                    inDegree: map<string, int>, queue: seq<string>)
    requires current !in before && Pending(ss, current, before) == 0
    requires forall y :: y in before ==> Pending(ss, y, before) == 0
    requires next == Dependents(ss, current) && j < |next|
    requires Releasing(ss, before, current, next, j, inDegree, queue)
    ensures next[j] in inDegree
    ensures var inDegree' := inDegree[next[j] := inDegree[next[j]] - 1];
            Releasing(ss, before, current, next, j + 1, inDegree',
                      if inDegree'[next[j]] == 0 then queue + [next[j]] else queue)
  {
    ReleaseTarget(ss, before, current, next, j, inDegree, queue);
    var dependent := next[j];
    var inDegree' := inDegree[dependent := inDegree[dependent] - 1];
    forall y | y in Names(ss)
      ensures inDegree'[y] == Pending(ss, y, before) - Count(next[..j + 1], y)
    {
      CountPrefixStep(next, j, y);
    }
  }

  /** Lowers the in-degree of every dependent of the just-emitted `current`,
      pushing each one whose in-degree reaches zero. */
  method ReleaseDependents(ss: seq<System>, ghost before: set<string>, current: string, next: seq<string>,
                           inDegree0: map<string, int>, queue0: seq<string>)
    returns (inDegree: map<string, int>, queue: seq<string>)
    requires current in Names(ss) && current !in before && Pending(ss, current, before) == 0
    requires next == Dependents(ss, current)
    requires Frontier(ss, before, inDegree0, queue0 + [current])
    ensures Frontier(ss, before + {current}, inDegree, queue)
  {
    PopFrontier(ss, before, inDegree0, queue0, current);
    inDegree, queue := inDegree0, queue0;
    for j := 0 to |next|
      invariant Releasing(ss, before, current, next, j, inDegree, queue)
    {
      ReleaseStep(ss, before, current, next, j, inDegree, queue);
      var dependent := next[j];
      inDegree := inDegree[dependent := inDegree[dependent] - 1];
      if inDegree[dependent] == 0 {
        queue := queue + [dependent];
      }
    }
    ReleaseDone(ss, before, current, next, inDegree, queue);
  }

  /** Once every dependent is released, the tables describe the graph with
      `current` emitted too. */
  lemma ReleaseDone(ss: seq<System>, before: set<string>, current: string, next: seq<string>,
                    inDegree: map<string, int>, queue: seq<string>)
    requires current !in before && Pending(ss, current, before) == 0
    requires forall y :: y in before ==> Pending(ss, y, before) == 0
    requires next == Dependents(ss, current)
    requires Releasing(ss, before, current, next, |next|, inDegree, queue)
    ensures Frontier(ss, before + {current}, inDegree, queue)
  {
    var done := before + {current};
    assert next[..|next|] == next;
    forall y | y in Names(ss)
      ensures inDegree[y] == Pending(ss, y, done)
    {
      DependentsCount(ss, current, y);
      PendingEmit(ss, y, before, current);
    }
    forall y | y in done ensures Pending(ss, y, done) == 0 {
      PendingEmit(ss, y, before, current);
    }
  }

  /** Seeds the ready stack with every name of in-degree zero, visiting the
      names in an unspecified order (that of the hash map in the source). */
  method SeedReady(ss: seq<System>, inDegree: map<string, int>) returns (queue: seq<string>)
    requires inDegree.Keys == Names(ss)
    requires forall y :: y in Names(ss) ==> inDegree[y] == Pending(ss, y, {})
    ensures Frontier(ss, {}, inDegree, queue)
  {
    queue := [];
    var unvisited := inDegree.Keys;
    while unvisited != {}
      invariant unvisited <= Names(ss)
      invariant Distinct(queue)
      invariant forall y :: y in queue <==> y in Names(ss) && y !in unvisited && Pending(ss, y, {}) == 0
      decreases unvisited
    {
      var name :| name in unvisited;
      if inDegree[name] == 0 {
        queue := queue + [name];
      }
      unvisited := unvisited - {name};
    }
  }

  /** One round of Kahn's algorithm: pops the most recently pushed ready
      name, emits its system and releases its dependents. */
  method EmitNext(ss: seq<System>, byName: map<string, System>, dependents: map<string, seq<string>>,
                  ghost done: set<string>, sorted: seq<System>, inDegree: map<string, int>, queue: seq<string>)
    returns (ghost done': set<string>, sorted': seq<System>, inDegree': map<string, int>, queue': seq<string>)
    requires forall y :: y in byName ==> byName[y].name == y && byName[y] in ss
    requires byName.Keys == Names(ss) && dependents.Keys == Names(ss)
    requires forall y :: y in Names(ss) ==> dependents[y] == Dependents(ss, y)
    requires Emitted(ss, done, sorted) && Frontier(ss, done, inDegree, queue) && queue != []
    ensures Emitted(ss, done', sorted') && Frontier(ss, done', inDegree', queue')
    ensures done < done' <= Names(ss)
    ensures done' == done + {queue[|queue| - 1]}
    ensures sorted' == sorted + [byName[queue[|queue| - 1]]]
  {
    var current := queue[|queue| - 1];
    var rest := queue[..|queue| - 1];
    assert queue == rest + [current];
    PopFrontier(ss, done, inDegree, rest, current);
    EmitStep(ss, byName, done, sorted, current);
    sorted' := sorted + [byName[current]];
    inDegree', queue' := ReleaseDependents(ss, done, current, dependents[current], inDegree, rest);
    done' := done + {current};
  }

  /** Repeatedly emits the most recently pushed ready name until no name is
      ready; every name left over still waits on an unemitted dependency. */
  method ProcessReady(ss: seq<System>, byName: map<string, System>, dependents: map<string, seq<string>>,
                      inDegree0: map<string, int>, queue0: seq<string>)
    returns (sorted: seq<System>, ghost done: set<string>)
    requires forall y :: y in byName ==> byName[y].name == y && byName[y] in ss
    requires byName.Keys == Names(ss) && dependents.Keys == Names(ss)
    requires forall y :: y in Names(ss) ==> dependents[y] == Dependents(ss, y)
    requires Frontier(ss, {}, inDegree0, queue0)
    ensures Emitted(ss, done, sorted)
    ensures forall y :: y in Names(ss) && y !in done ==> Pending(ss, y, done) > 0
  {
    var inDegree, queue := inDegree0, queue0;
    sorted, done := [], {};
    while queue != []
      invariant Emitted(ss, done, sorted)
      invariant Frontier(ss, done, inDegree, queue)
      decreases Names(ss) - done
    {
      done, sorted, inDegree, queue := EmitNext(ss, byName, dependents, done, sorted, inDegree, queue);
    }
  }

  /** Kahn's algorithm over the tables. The result respects every
      dependency and repeats no name; it is shorter than the list of names
      exactly when the graph has no dependency order. */
  method KahnOrder(ss: seq<System>, byName: map<string, System>,
                   inDegree: map<string, int>, dependents: map<string, seq<string>>)
    returns (sorted: seq<System>)
    requires byName.Keys == Names(ss)
    requires forall y :: y in byName ==> byName[y].name == y && byName[y] in ss
    requires IsGraphOf(ss, inDegree, dependents)
    ensures forall i :: 0 <= i < |sorted| ==> sorted[i] in ss
    ensures DistinctNames(sorted) && DependenciesFirst(sorted)
    ensures |sorted| <= |Names(ss)|
    ensures DistinctNames(ss) && |sorted| < |Names(ss)| ==> !HasDependencyOrder(ss)
  {
    var queue := SeedReady(ss, inDegree);
    ghost var done;
    sorted, done := ProcessReady(ss, byName, dependents, inDegree, queue);
    SubsetCard(done, Names(ss));
    if DistinctNames(ss) && |sorted| < |Names(ss)| {
      ProperSubset(done, Names(ss));
      ghost var y :| y in Names(ss) && y !in done;
      StuckMeansNoOrder(ss, done, y);
    }
  }

  /** When Kahn's algorithm stops with some registered name unemitted and
      every unemitted name still has a positive in-degree, no dependency
      order exists: the first unemitted system of any candidate order would
      need a dependency that comes earlier yet is unemitted too. */
  lemma StuckMeansNoOrder(ss: seq<System>, done: set<string>, y: string)
    requires DistinctNames(ss)
    requires y in Names(ss) && y !in done
    requires forall x :: x in Names(ss) && x !in done ==> Pending(ss, x, done) > 0
    ensures !HasDependencyOrder(ss)
  {
    if order: seq<System> :| IsDependencyOrder(order, ss) {
      var p :| 0 <= p < |ss| && ss[p].name == y;
      assert ss[p] in multiset(order);
      var i0 :| 0 <= i0 < |order| && order[i0] == ss[p];
      var m := FirstOutside(order, done, i0);
      assert order[m] in multiset(ss);
      var q :| 0 <= q < |ss| && ss[q] == order[m];
      PendingPositive(ss, order[m].name, done);
      assert false;
    }
  }

  /** A full-length Kahn order over distinctly named systems is a
      dependency order of them. */
  lemma FullLengthIsOrder(ss: seq<System>, sorted: seq<System>)
    requires forall i :: 0 <= i < |sorted| ==> sorted[i] in ss
    requires DistinctNames(sorted) && DependenciesFirst(sorted)
    requires |sorted| <= |Names(ss)| && |sorted| == |ss|
    ensures DistinctNames(ss) && IsDependencyOrder(sorted, ss)
  {
    NamesCard(ss);
    DistinctNamesDistinct(ss);
    DistinctNamesDistinct(sorted);
    PermutationOfDistinct(sorted, ss);
  }

  /** Kahn's algorithm stopping short means some name repeats or the graph
      has no dependency order. */
  lemma ShortMeansUnresolvable(ss: seq<System>, sorted: seq<System>)
    requires |sorted| < |ss|
    requires DistinctNames(ss) && |sorted| < |Names(ss)| ==> !HasDependencyOrder(ss)
    ensures !(DistinctNames(ss) && HasDependencyOrder(ss))
  {
    if DistinctNames(ss) {
      DistinctNamesCard(ss);
    }
  }

  /** Orders the registered systems so that each comes after the systems it
      depends on. A list of at most one system is returned as it is;
      otherwise the first unknown dependency in registration order is
      reported, and a cycle (or a repeated name) is reported as circular. */
  method SortSystems(ss: seq<System>) returns (r: SortResult)
    ensures r.Sorted? <==> Resolvable(ss)
    ensures |ss| <= 1 ==> r == Sorted(ss)
    ensures r.Sorted? ==> multiset(r.order) == multiset(ss)
    ensures r.Sorted? && |ss| >= 2 ==> DistinctNames(ss) && DistinctNames(r.order) && DependenciesFirst(r.order)
    ensures r.UnknownDependency? <==> |ss| >= 2 && !AllDependenciesKnown(ss)
    ensures r.UnknownDependency? ==> FirstUnknown(ss, r.system, r.dependency)
  {
    if |ss| <= 1 {
      return Sorted(ss);
    }
    var byName := IndexByName(ss);
    var graph := BuildGraph(ss, byName);
    if graph.Unknown? {
      return UnknownDependency(graph.system, graph.dependency);
    }
    var sorted := KahnOrder(ss, byName, graph.inDegree, graph.dependents);
    if |sorted| != |ss| {
      NamesCard(ss);
      ShortMeansUnresolvable(ss, sorted);
      return CircularDependency;
    }
    FullLengthIsOrder(ss, sorted);
    return Sorted(sorted);
  }
}
