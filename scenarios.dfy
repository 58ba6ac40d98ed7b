/** Worked configurations of the system manager: a dependency chain
    registered back to front, and two systems that depend on each other. */
module Scenarios {
  import opened Options
  import opened EngineSystem
  import opened DependencySort
  import opened SystemManagement

  const Window := System("Window", {"WindowSystem"})
  const Renderer := System("Renderer", {"RenderSystem"}, ["Window"])
  const World := System("World", {"WorldSystem"}, ["Window", "Renderer"])

  /** The chain Window <- Renderer <- World, registered in reverse. */
  const Chain := [World, Renderer, Window]

  /** The chain resolves, and the only dependency order is
      Window, Renderer, World. */
  lemma ChainHasOneOrder()
    ensures Resolvable(Chain)
    ensures forall order :: IsDependencyOrder(order, Chain) ==> order == [Window, Renderer, World]
  {
    var sorted := [Window, Renderer, World];
    assert sorted[0].name == "Window" && sorted[1].name == "Renderer";
    assert multiset(sorted) == multiset(Chain);
    assert DependenciesFirst(sorted);
    assert IsDependencyOrder(sorted, Chain);
    assert AllDependenciesKnown(Chain) by {
      assert Chain[2].name == "Window" && Chain[1].name == "Renderer";
    }
    forall order | IsDependencyOrder(order, Chain) ensures order == sorted {
      OnlyOrder(order);
    }
  }

  /** Any dependency order of the chain starts with the system that depends
      on nothing, then the one that depends on it alone. */
  lemma OnlyOrder(order: seq<System>)
    requires IsDependencyOrder(order, Chain)
    ensures order == [Window, Renderer, World]
  {
    assert |order| == |multiset(order)| == 3;
    assert order == [order[0], order[1], order[2]];
    assert forall i :: 0 <= i < 3 ==> order[i] in multiset(Chain);
    if order[0] != Window {
      DependsOnEarlier(order, 0, 0);
      assert false;
    }
    if order[1] != Renderer {
      assert order[1] == World;
      DependsOnEarlier(order, 1, 1);
      assert false;
    }
  }

  const Left := System("Left", {}, ["Right"])
  const Right := System("Right", {}, ["Left"])

  /** Two systems that depend on each other have no dependency order. */
  lemma MutualDependencyUnresolvable()
    ensures !Resolvable([Left, Right])
  {
    if order: seq<System> :| IsDependencyOrder(order, [Left, Right]) {
      assert |order| == |multiset(order)| == 2;
      assert order[0] in multiset([Left, Right]);
      DependsOnEarlier(order, 0, 0);
      assert false;
    }
  }

  /** Without the window, sorting reports the world's dependency on it:
      the world is registered first and the window is its first dependency. */
  method MissingWindow() returns (r: SortResult)
    ensures r == UnknownDependency("World", "Window")
  {
    var ss := [World, Renderer];
    assert Names(ss) == {"World", "Renderer"} by {
      assert ss[0].name == "World" && ss[1].name == "Renderer";
    }
    assert ss[0].dependencies[0] == "Window";
    r := SortSystems(ss);
    assert FirstUnknown(ss, "World", "Window") by {
      assert ss[..0] == [];
    }
    FirstUnknownUnique(ss, r.system, r.dependency, "World", "Window");
  }

  /** A fresh manager with the chain registered back to front. */
  method NewChain() returns (manager: SystemManager)
    ensures fresh(manager)
    ensures manager.systems == Chain && manager.initialized == [] && manager.calls == []
  {
    manager := new SystemManager();
    manager.RegisterSystem(World);
    manager.RegisterSystem(Renderer);
    manager.RegisterSystem(Window);
  }

  /** Whether a system starts: every one but the world. */
  function AllButWorld(s: System): bool {
    s != World
  }

  /** Whether a shutdown throws: only the renderer's. */
  function RendererThrows(s: System): ShutdownOutcome {
    if s == Renderer then Threw else Completed
  }

  /** Whether a system starts: every one does. */
  function AlwaysStarts(s: System): bool {
    true
  }

  /** Looking up by type finds the registered system that casts to it. */
  method ChainLookup()
  {
    var manager := NewChain();
    var found := manager.GetSystem("RenderSystem");
    assert manager.systems[0] == World && manager.systems[1] == Renderer;
    assert found == Some(Renderer);
    found := manager.GetSystem("AudioSystem");
    assert found == None;
  }

  /** The chain starts in its one dependency order. */
  method StartedChain() returns (manager: SystemManager)
    ensures fresh(manager)
    ensures manager.systems == [Window, Renderer, World] && manager.initialized == manager.systems
    ensures |manager.calls| == 3
  {
    manager := NewChain();
    ChainHasOneOrder();
    var ok := manager.InitializeAll(AlwaysStarts, RendererThrows);
    assert |manager.systems| == |multiset(manager.systems)| == 3;
    OnlyOrder(manager.systems);
    assert FirstFailure(manager.systems, AlwaysStarts) == 3;
    InitializeCallsInOrder(manager.systems);
  }

  /** Teardown runs in reverse and carries on past the renderer's
      exception. */
  method ChainTeardown()
  {
    var manager := StartedChain();
    manager.ShutdownAll(RendererThrows);
    assert manager.initialized == [];
    TeardownReverses([Window, Renderer, World], RendererThrows);
    assert manager.calls[3..] == [Shutdown(World, Completed), Shutdown(Renderer, Threw), Shutdown(Window, Completed)];
  }

  /** The calls of a startup of the chain in which the world fails: the
      three initializations, then the renderer and the window shut down. */
  lemma RollbackCalls(order: seq<System>)
    requires order == [Window, Renderer, World]
    ensures FirstFailure(order, AllButWorld) == 2
    ensures InitializeCalls(order[..3]) + Teardown([] + order[..2], RendererThrows) ==
      [Initialize(Window), Initialize(Renderer), Initialize(World), Shutdown(Renderer, Threw), Shutdown(Window, Completed)]
  {
    assert order[..3] == order && [] + order[..2] == [Window, Renderer];
    InitializeCallsInOrder(order);
    TeardownReverses([Window, Renderer], RendererThrows);
  }

  /** When the world fails to start, the window and the renderer are shut
      down again, renderer first, and nothing stays live. */
  method ChainRollback()
  {
    var manager := NewChain();
    ChainHasOneOrder();
    var ok := manager.InitializeAll(AllButWorld, RendererThrows);
    assert |manager.systems| == |multiset(manager.systems)| == 3;
    OnlyOrder(manager.systems);
    RollbackCalls(manager.systems);
    assert !ok && manager.initialized == [];
    assert manager.calls == [Initialize(Window), Initialize(Renderer), Initialize(World),
                             Shutdown(Renderer, Threw), Shutdown(Window, Completed)];
  }
}
