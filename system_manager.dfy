/** The SystemManager of system_manager.h and system_manager.cpp: the list of
    registered systems, the list of live (initialized) systems, and the
    lifecycle that initializes in dependency order and tears down in reverse.
    A system's `initialize` and `shutdown` are outside the manager; they are
    passed in as oracles, and every call the manager makes into a system is
    recorded, in order, in `calls`. */
module SystemManagement {
  import opened Options
  import opened Sequences
  import opened EngineSystem
  import opened DependencySort

  /** The position of the first system whose `initialize` reports failure,
      or `|ss|` when every one succeeds. */
  function FirstFailure(ss: seq<System>, initialize: System -> bool): (k: nat)
    ensures k <= |ss|
    ensures forall i :: 0 <= i < k ==> initialize(ss[i])
    ensures k < |ss| ==> !initialize(ss[k])
  {
    if ss == [] then 0
    else if !initialize(ss[0]) then 0
    else 1 + FirstFailure(ss[1..], initialize)
  }

  /** The `initialize` calls made on `ss`, front to back. */
  function InitializeCalls(ss: seq<System>): seq<Call> {
    if ss == [] then [] else InitializeCalls(ss[..|ss| - 1]) + [Initialize(ss[|ss| - 1])]
  }

  /** The `shutdown` calls made while tearing down the live list `live`,
      each with what that call did. */
  function Teardown(live: seq<System>, shutdown: System -> ShutdownOutcome): seq<Call> {
    if live == [] then [] else Teardown(live[1..], shutdown) + [Shutdown(live[0], shutdown(live[0]))]
  }

  /** Every live system is initialized exactly once, in list order. */
  lemma {:induction false} InitializeCallsInOrder(ss: seq<System>)
    ensures |InitializeCalls(ss)| == |ss|
    ensures forall i :: 0 <= i < |ss| ==> InitializeCalls(ss)[i] == Initialize(ss[i])
  {
    if ss != [] {
      InitializeCallsInOrder(ss[..|ss| - 1]);
    }
  }

  /** Teardown shuts every live system down exactly once, last one first,
      and records each outcome, including a thrown exception, without
      stopping. */
  lemma {:induction false} TeardownReverses(live: seq<System>, shutdown: System -> ShutdownOutcome)
    ensures |Teardown(live, shutdown)| == |live|
    ensures forall i :: 0 <= i < |live| ==>
      Teardown(live, shutdown)[i] == Shutdown(live[|live| - 1 - i], shutdown(live[|live| - 1 - i]))
  {
    if live != [] {
      TeardownReverses(live[1..], shutdown);
      var n := |live|;
      forall i | 0 <= i < n
        ensures Teardown(live, shutdown)[i] == Shutdown(live[n - 1 - i], shutdown(live[n - 1 - i]))
      {
        if i < n - 1 {
          assert live[1..][(n - 1) - 1 - i] == live[n - 1 - i];
        }
      }
    }
  }

  /** Every system in the trace is shut down before each system it
      depends on. */
  predicate DependentsShutDownFirst(calls: seq<Call>) {
    forall i, k :: 0 <= i < |calls| && 0 <= k < |calls[i].system.dependencies| ==>
      exists j :: i < j < |calls| && calls[j].system.name == calls[i].system.dependencies[k]
  }

  /** Tearing down systems listed in dependency order shuts each system
      down before every system it depends on. */
  lemma ShutdownBeforeDependencies(live: seq<System>, shutdown: System -> ShutdownOutcome)
    requires DependenciesFirst(live)
    ensures DependentsShutDownFirst(Teardown(live, shutdown))
  {
    var calls := Teardown(live, shutdown);
    var n := |live|;
    TeardownReverses(live, shutdown);
    forall i, k | 0 <= i < |calls| && 0 <= k < |calls[i].system.dependencies|
      ensures exists j :: i < j < |calls| && calls[j].system.name == calls[i].system.dependencies[k]
    {
      var p := n - 1 - i;
      assert 0 <= p < n && calls[i].system == live[p];
      DependsOnEarlier(live, p, k);
      var q :| 0 <= q < p && live[q].name == live[p].dependencies[k];
      assert calls[n - 1 - q].system == live[q];
    }
  }

  /** Every system in the trace is initialized after some system carrying
      each name it depends on. */
  predicate DependenciesStartedFirst(calls: seq<Call>) {
    forall i, k :: 0 <= i < |calls| && 0 <= k < |calls[i].system.dependencies| ==>
      exists j :: 0 <= j < i && calls[j].system.name == calls[i].system.dependencies[k]
  }

  /** Initializing systems listed in dependency order starts each system
      after every system it depends on. */
  lemma InitializeBeforeDependencies(order: seq<System>)
    requires DependenciesFirst(order)
    ensures DependenciesStartedFirst(InitializeCalls(order))
  {
    var calls := InitializeCalls(order);
    InitializeCallsInOrder(order);
    forall i, k | 0 <= i < |calls| && 0 <= k < |calls[i].system.dependencies|
      ensures exists j :: 0 <= j < i && calls[j].system.name == calls[i].system.dependencies[k]
    {
      assert calls[i].system == order[i];
      DependsOnEarlier(order, i, k);
      var j :| 0 <= j < i && order[j].name == order[i].dependencies[k];
      assert calls[j].system == order[j];
    }
  }

  /** The calls of a startup in which the k-th system fails, when `before`
      was live beforehand: the first k + 1 systems are initialized in order,
      then the first k are shut down last one first, then `before` is. When
      the names are distinct and the failing system was not live before,
      no shutdown names the failing system. */
  lemma RollbackTrace(before: seq<System>, ss: seq<System>, k: nat, shutdown: System -> ShutdownOutcome,
                      calls: seq<Call>)
    requires k < |ss|
    requires calls == InitializeCalls(ss[..k + 1]) + Teardown(before + ss[..k], shutdown)
    ensures |calls| == 2 * k + 1 + |before|
    ensures forall i :: 0 <= i <= k ==> calls[i] == Initialize(ss[i])
    ensures forall i :: k < i <= 2 * k ==> calls[i] == Shutdown(ss[2 * k - i], shutdown(ss[2 * k - i]))
    ensures forall i :: 2 * k < i < |calls| ==>
      calls[i] == Shutdown(before[|calls| - 1 - i], shutdown(before[|calls| - 1 - i]))
    ensures Distinct(ss) && ss[k] !in before ==> forall i :: k < i < |calls| ==> calls[i].system != ss[k]
  {
    var started := ss[..k + 1];
    var live := before + ss[..k];
    InitializeCallsInOrder(started);
    TeardownReverses(live, shutdown);
    forall i | 0 <= i <= k ensures started[i] == ss[i] {
    }
    forall j | 0 <= j < |live| ensures live[j] == if j < |before| then before[j] else ss[j - |before|] {
    }
    RollbackIndices(before, ss, k, shutdown, InitializeCalls(started), Teardown(live, shutdown), live, calls);
  }

  /** The index arithmetic of `RollbackTrace`, over the two halves of the
      trace. */
  lemma RollbackIndices(before: seq<System>, ss: seq<System>, k: nat, shutdown: System -> ShutdownOutcome,
                        starts: seq<Call>, stops: seq<Call>, live: seq<System>, calls: seq<Call>)
    requires k < |ss| && calls == starts + stops
    requires |starts| == k + 1 && forall i :: 0 <= i <= k ==> starts[i] == Initialize(ss[i])
    requires |live| == |before| + k
    requires forall j :: 0 <= j < |live| ==> live[j] == if j < |before| then before[j] else ss[j - |before|]
    requires |stops| == |live|
    requires forall j :: 0 <= j < |live| ==> stops[j] == Shutdown(live[|live| - 1 - j], shutdown(live[|live| - 1 - j]))
    ensures |calls| == 2 * k + 1 + |before|
    ensures forall i :: 0 <= i <= k ==> calls[i] == Initialize(ss[i])
    ensures forall i :: k < i <= 2 * k ==> calls[i] == Shutdown(ss[2 * k - i], shutdown(ss[2 * k - i]))
    ensures forall i :: 2 * k < i < |calls| ==>
      calls[i] == Shutdown(before[|calls| - 1 - i], shutdown(before[|calls| - 1 - i]))
    ensures Distinct(ss) && ss[k] !in before ==> forall i :: k < i < |calls| ==> calls[i].system != ss[k]
  {
    forall i | k < i < |calls|
      ensures calls[i] == Shutdown(live[|calls| - 1 - i], shutdown(live[|calls| - 1 - i]))
    {
      assert calls[i] == stops[i - (k + 1)];
    }
  }

  class SystemManager {
    /** The registered systems, in registration order until sorted. */
    var systems: seq<System>
    /** The systems initialized and not yet shut down, in initialization order. */
    var initialized: seq<System>
    /** Every call made into a system so far. */
    var calls: seq<Call>

    constructor ()
      ensures systems == [] && initialized == [] && calls == []
    {
      systems, initialized, calls := [], [], [];
    }

    /** Appends a system to the registered list. */
    method RegisterSystem(system: System)
      modifies this
      ensures systems == old(systems) + [system]
      ensures initialized == old(initialized) && calls == old(calls)
    {
      systems := systems + [system];
    }

    /** The first registered system (initialized or not) that casts to
        `tag`, or none. */
    method GetSystem(tag: TypeTag) returns (r: Option<System>)
      ensures r.None? <==> forall i :: 0 <= i < |systems| ==> tag !in systems[i].types
      ensures r.Some? ==> exists i :: 0 <= i < |systems| && systems[i] == r.value && tag in r.value.types &&
                                      forall j :: 0 <= j < i ==> tag !in systems[j].types
    {
      for i := 0 to |systems|
        invariant forall j :: 0 <= j < i ==> tag !in systems[j].types
      {
        if tag in systems[i].types {
          return Some(systems[i]);
        }
      }
      return None;
    }

    /** Reorders the registered systems so that each comes after its
        dependencies; on failure the list is left as it was. */
    method SortByDependencies() returns (ok: bool)
      modifies this
      ensures ok <==> Resolvable(old(systems))
      ensures ok ==> multiset(systems) == multiset(old(systems))
      ensures ok && |systems| >= 2 ==> DistinctNames(systems) && DependenciesFirst(systems)
      ensures !ok || |systems| <= 1 ==> systems == old(systems)
      ensures initialized == old(initialized) && calls == old(calls)
    {
      var r := SortSystems(systems);
      if !r.Sorted? {
        return false;
      }
      systems := r.order;
      return true;
    }

    /** Shuts every live system down, last initialized first, carrying on
        past a shutdown that throws, and empties the live list. */
    method ShutdownAll(shutdown: System -> ShutdownOutcome)
      modifies this
      ensures initialized == []
      ensures calls == old(calls) + Teardown(old(initialized), shutdown)
      ensures systems == old(systems)
    {
      var live := initialized;
      var i := |live|;
      assert live[i..] == [];
      while i > 0
        invariant 0 <= i <= |live|
        invariant calls == old(calls) + Teardown(live[i..], shutdown)
        invariant systems == old(systems)
      {
        i := i - 1;
        assert live[i..][1..] == live[i + 1..];
        calls := calls + [Shutdown(live[i], shutdown(live[i]))];
      }
      assert live[0..] == live;
      initialized := [];
    }

    /** Initializes the registered systems in list order, appending each
        success to the live list. On the first failure, every live system
        (including any left from an earlier call) is shut down in reverse
        and the call reports failure. */
    method InitializeInOrder(initialize: System -> bool, shutdown: System -> ShutdownOutcome) returns (ok: bool)
      modifies this
      ensures systems == old(systems)
      ensures var k := FirstFailure(systems, initialize);
        (ok <==> k == |systems|) &&
        (ok ==> initialized == old(initialized) + systems && calls == old(calls) + InitializeCalls(systems)) &&
        (!ok ==> initialized == [] &&
                 calls == old(calls) + InitializeCalls(systems[..k + 1]) + Teardown(old(initialized) + systems[..k], shutdown))
    {
      var order := systems;
      assert order[..0] == [];
      for i := 0 to |order|
        invariant systems == order
        invariant initialized == old(initialized) + order[..i]
        invariant calls == old(calls) + InitializeCalls(order[..i])
        invariant forall j :: 0 <= j < i ==> initialize(order[j])
      {
        assert order[..i + 1][..i] == order[..i];
        calls := calls + [Initialize(order[i])];
        assert calls == old(calls) + InitializeCalls(order[..i + 1]);
        if !initialize(order[i]) {
          assert FirstFailure(order, initialize) == i;
          ShutdownAll(shutdown);
          return false;
        }
        initialized := initialized + [order[i]];
      }
      assert order[..|order|] == order;
      return true;
    }

    /** Sorts the registered systems and initializes them in that order.
        With no system registered there is nothing to do; when the order
        cannot be resolved nothing is initialized. */
    method InitializeAll(initialize: System -> bool, shutdown: System -> ShutdownOutcome) returns (ok: bool)
      modifies this
      ensures old(systems) == [] ==> ok && initialized == old(initialized) && calls == old(calls)
      ensures !Resolvable(old(systems)) ==>
        !ok && systems == old(systems) && initialized == old(initialized) && calls == old(calls)
      ensures multiset(systems) == multiset(old(systems))
      ensures |systems| >= 2 && Resolvable(old(systems)) ==> DistinctNames(systems) && DependenciesFirst(systems)
      ensures |systems| <= 1 ==> systems == old(systems)
      ensures Resolvable(old(systems)) ==> Distinct(systems)
      ensures old(systems) != [] && Resolvable(old(systems)) ==>
        var k := FirstFailure(systems, initialize);
        (ok <==> k == |systems|) &&
        (ok ==> initialized == old(initialized) + systems && calls == old(calls) + InitializeCalls(systems)) &&
        (!ok ==> initialized == [] &&
                 calls == old(calls) + InitializeCalls(systems[..k + 1]) + Teardown(old(initialized) + systems[..k], shutdown))
    {
      if systems == [] {
        return true;
      }
      ok := SortByDependencies();
      if !ok {
        return false;
      }
      if |systems| >= 2 {
        DistinctNamesDistinct(systems);
      }
      ok := InitializeInOrder(initialize, shutdown);
    }
  }
}
