# Bamboo engine: system lifecycle and service registry

This project models the lifecycle core of the Bamboo engine and proves
properties of the model in Dafny.

The `SystemManager` holds the registered engine systems. Each system has a
name and a list of names it depends on. The manager:

- orders the systems with Kahn's algorithm;
- rejects a dependency on an unregistered name, and rejects a cycle;
- initializes the systems in dependency order;
- when one fails to start, shuts every live system down again, in reverse.

Next to it sits the `ServiceLocator`, a registry holding one instance per
interface type.

Modules:

- `EngineSystem` (`engine_system.dfy`): a system as the manager sees it
  (`IEngineSystem`), the calls the manager makes into systems, and the
  vocabulary of dependency orders. `Resolvable` says when ordering succeeds.
- `DependencyGraph` (`dependency_graph.dfy`): the in-degree and adjacency
  tables of `sortByDependencies`, given as functions of the registered
  systems, and lemmas about emitting a system.
- `DependencySort` (`dependency_sort.dfy`): `sortByDependencies` as
  imperative code over maps and a stack. Each step is proved against the
  graph functions, and the result is proved against `Resolvable`.
- `SystemManagement` (`system_manager.dfy`): the `SystemManager` class with
  its `systems` and `initialized` lists (`m_systems`,
  `m_initialized_systems`). A system's `initialize` and `shutdown` are
  oracle parameters. Every call into a system is recorded, in order, in the
  `calls` field, so the contracts can state what was called and in which
  order.
- `Services` (`service_locator.dfy`): the `ServiceLocator` class over a map
  from type tag to instance.
- `Scenarios` (`scenarios.dfy`): a Window, Renderer, World chain registered
  back to front, and two systems that depend on each other.
- `Sequences`, `Options`: generic helpers.

Four behaviours of the code shape the model:

- **Small lists are not checked.** With at most one registered system,
  `sortByDependencies` returns success at once
  (`system_manager.cpp:70-73`). A lone system with an unknown dependency, or
  one that depends on itself, is therefore still initialized.
- **The tie-break is not deterministic.** The ready names are seeded by
  iterating an unordered map (`system_manager.cpp:115-121`) and taken from
  the back of a vector used as a stack (`system_manager.cpp:128-129`). The
  model picks the seed order arbitrarily and pins only what holds for every
  order.
- **Rollback shuts down every live system.** On an initialization failure
  the code calls `shutdownAll` (`system_manager.cpp:34`). That tears down
  the whole live list, including systems still live from an earlier
  `initializeAll`.
- **Repeated names are reported as a cycle.** Two systems with the same
  name share one entry in the name map, so Kahn's algorithm emits fewer
  systems than are registered. The code reports that as a circular
  dependency (`system_manager.cpp:145-149`); `Resolvable` therefore
  requires distinct names.

## Model

| member | source | states |
|---|---|---|
| EngineSystem.NamesCard | source/engine/core/system/system_manager.cpp:76-80 | the name map never has more entries than there are systems, and has as many only when no name repeats |
| EngineSystem.DistinctNamesCard | source/engine/core/system/system_manager.cpp:145-149 | with distinct names there are exactly as many names as systems, so the size check compares against the number of names |
| EngineSystem.FirstUnknownUnique | source/engine/core/system/system_manager.cpp:95-106 | a list has at most one first unknown dependency in registration order, so the reported system and name are determined by the list |
| EngineSystem.FirstUnknownExists | source/engine/core/system/system_manager.cpp:95-106 | a list with some unregistered dependency always has a first one in registration order, so the dependency check has a system and a name to report |
| EngineSystem.FirstUnknownIsUnknown | source/engine/core/system/system_manager.cpp:100-106 | a first unknown dependency is a dependency naming no registered system, so the list fails the dependency check |
| DependencyGraph.PendingEmit | source/engine/core/system/system_manager.cpp:134-137 | emitting a system lowers another system's pending in-degree by exactly the number of edges between them |
| DependencyGraph.PendingZero | source/engine/core/system/system_manager.cpp:137-139 | a name whose in-degree reaches zero has every dependency already emitted |
| DependencyGraph.PendingPositive | source/engine/core/system/system_manager.cpp:126-142 | a positive in-degree means some system with that name still has an unemitted dependency |
| DependencyGraph.DependentsCount | source/engine/core/system/system_manager.cpp:108-109 | the adjacency list of a name holds each dependent once per declared edge to that name |
| DependencyGraph.EdgesFromRegistered | source/engine/core/system/system_manager.cpp:108 | only a registered name can have an edge to another name, so every adjacency entry is registered |
| DependencySort.IndexByName | source/engine/core/system/system_manager.cpp:76-80 | the name map has exactly the registered names as keys, and each maps to the last registered system with that name |
| DependencySort.EmptyTables | source/engine/core/system/system_manager.cpp:86-92 | every registered name starts with in-degree zero and an empty adjacency list |
| DependencySort.AddEdges | source/engine/core/system/system_manager.cpp:97-110 | adds one system's edges (in-degree plus the number of its dependencies, the name appended once per edge), or returns its first dependency that is not registered |
| DependencySort.BuildGraph | source/engine/core/system/system_manager.cpp:94-111 | succeeds exactly when every dependency is registered, and then holds the in-degree and adjacency of the whole graph; a failure reports the first unregistered dependency in registration order and the system declaring it |
| DependencySort.SeedReady | source/engine/core/system/system_manager.cpp:113-121 | in any visiting order, the stack ends up holding each name of in-degree zero exactly once |
| DependencySort.EmitStep | source/engine/core/system/system_manager.cpp:128-131 | emitting a ready name keeps the emitted list duplicate-free, drawn from the registered systems and after all dependencies |
| DependencySort.PopFrontier | source/engine/core/system/system_manager.cpp:128-129 | the popped name is registered, unemitted and has in-degree zero, and the rest of the stack stays ready |
| DependencySort.ReleaseStep | source/engine/core/system/system_manager.cpp:134-140 | lowering one dependent's in-degree, and pushing it when it reaches zero, keeps the stack equal to the set of ready names |
| DependencySort.ReleaseDependents | source/engine/core/system/system_manager.cpp:133-141 | after the adjacency list of the emitted name is walked, the tables describe the graph with that name emitted |
| DependencySort.EmitNext | source/engine/core/system/system_manager.cpp:126-142 | one round of the loop pops the top name of the stack, adds exactly that name to the emitted set and appends exactly its system to the sorted list, keeping the tables and the stack consistent |
| DependencySort.ProcessReady | source/engine/core/system/system_manager.cpp:123-142 | when the stack runs dry, every emitted system follows its dependencies, and every unemitted name still waits on an unemitted dependency |
| DependencySort.KahnOrder | source/engine/core/system/system_manager.cpp:113-142 | the sorted list repeats no name, respects every dependency and has at most one entry per name; with distinct names, a result shorter than the set of names means no dependency order exists |
| DependencySort.StuckMeansNoOrder | source/engine/core/system/system_manager.cpp:144-149 | if some name is never emitted, no arrangement of the systems respects the dependencies, so a short result really is a cycle |
| DependencySort.FullLengthIsOrder | source/engine/core/system/system_manager.cpp:145-151 | a sorted list as long as the registered list is a permutation of it that respects every dependency |
| DependencySort.ShortMeansUnresolvable | source/engine/core/system/system_manager.cpp:145-149 | a sorted list shorter than the registered list means repeated names or no dependency order |
| DependencySort.SortSystems | source/engine/core/system/system_manager.cpp:68-153 | succeeds exactly when the list is resolvable; returns lists of at most one system unchanged; otherwise returns a permutation that respects every dependency; reports an unknown dependency exactly when one exists, and then the first one in registration order with the system declaring it |
| SystemManagement.FirstFailure | source/engine/core/system/system_manager.cpp:25-36 | the position of the first system whose initialize fails: every earlier one succeeds and the one there fails |
| SystemManagement.InitializeCallsInOrder | source/engine/core/system/system_manager.cpp:25-29 | initialize is called once per system, in list order |
| SystemManagement.TeardownReverses | source/engine/core/system/system_manager.cpp:49-62 | teardown calls shutdown once per live system, last initialized first, and records a thrown exception without stopping |
| SystemManagement.ShutdownBeforeDependencies | source/engine/core/system/system_manager.cpp:46-62 | tearing down a list in dependency order shuts each system down before every system it depends on |
| SystemManagement.InitializeBeforeDependencies | source/engine/core/system/system_manager.cpp:24-29 | initializing a list in dependency order starts each system after a system carrying each name it depends on |
| SystemManagement.RollbackTrace | source/engine/core/system/system_manager.cpp:29-36 | when the k-th system fails to start, the trace is the first k + 1 initializations, then shutdowns of the first k in reverse, then of the systems live before; from an empty live list (a fresh manager) with distinct systems, no shutdown names the failing system |
| SystemManagement.SystemManager.constructor | source/engine/core/system/system_manager.h:48 | a new manager has no registered and no live systems |
| SystemManagement.SystemManager.RegisterSystem | source/engine/core/system/system_manager.h:57-63 | appends the system to the registered list and changes nothing else |
| SystemManagement.SystemManager.GetSystem | source/engine/core/system/system_manager.h:82-93 | returns the first registered system, live or not, that casts to the requested type, and none exactly when no system does; changes nothing |
| SystemManagement.SystemManager.SortByDependencies | source/engine/core/system/system_manager.cpp:68-153 | succeeds exactly when the list is resolvable; then the list is a permutation of the old one with every system after its dependencies; on failure the list is unchanged |
| SystemManagement.SystemManager.ShutdownAll | source/engine/core/system/system_manager.cpp:46-66 | calls shutdown on every live system in reverse order, carries on past exceptions, and empties the live list |
| SystemManagement.SystemManager.InitializeInOrder | source/engine/core/system/system_manager.cpp:24-43 | succeeds exactly when every initialize succeeds, and then every system is live in list order; otherwise it initializes up to and including the first failure, then tears down the whole live list in reverse and empties it |
| SystemManagement.SystemManager.InitializeAll | source/engine/core/system/system_manager.cpp:9-44 | with no systems, succeeds and calls nothing; when ordering fails, calls nothing and changes nothing; otherwise sorts into a list without repeated systems, then initializes in order with rollback on the first failure |
| Services.ServiceLocator.constructor | source/engine/core/service/service_locator.h:88-93 | a new registry holds no service |
| Services.ServiceLocator.GetService | source/engine/core/service/service_locator.h:38-46 | finds an instance exactly when one is registered for the key, and returns that instance |
| Services.ServiceLocator.HasService | source/engine/core/service/service_locator.h:53-57 | true exactly when GetService would find an instance |
| Services.ServiceLocator.RegisterService | source/engine/core/service/service_locator.h:23-30 | afterwards the key yields the new instance, replacing any earlier one, and every other key is unchanged |
| Services.ServiceLocator.UnregisterService | source/engine/core/service/service_locator.h:63-67 | afterwards the key has no service and every other key is unchanged; an absent key leaves the registry as it was |
| Services.ServiceLocator.Clear | source/engine/core/service/service_locator.h:72-75 | afterwards no key has a service |
| Scenarios.ChainHasOneOrder | source/engine/core/system/system_manager.cpp:68-153 | a chain registered back to front is resolvable, and its only dependency order is the chain order |
| Scenarios.OnlyOrder | source/engine/core/system/system_manager.cpp:123-142 | any dependency order of the chain puts the independent system first and the one depending on everything last |
| Scenarios.MutualDependencyUnresolvable | source/engine/core/system/system_manager.cpp:144-149 | two systems depending on each other have no dependency order, so sorting reports a cycle |
| Scenarios.RollbackCalls | source/engine/core/system/system_manager.cpp:29-36 | when the last system of the chain fails, the trace is three initializations followed by shutdowns of the other two in reverse |
| Scenarios.MissingWindow | source/engine/core/system/system_manager.cpp:95-106 | with the window missing, sorting reports the world's dependency on the window, the first unknown dependency in registration order |
| Scenarios.StartedChain | source/engine/core/system/system_manager.cpp:9-44 | initializing the chain registered back to front leaves it sorted and fully live |

## Left out

- Logging (`LOG_INFO`, `LOG_WARNING`, `LOG_ERROR`) is an unmodelled side effect.
- `source/engine/engine.cpp` and `engine.h` are not part of this model. They are orchestration over a global engine object and foreign window, event, world, timer and render calls.
- `source/engine/core/time/` is not part of this model. It reads a steady clock and works in floating point.
- The `ServiceLocator::getInstance` singleton and the `Services()` shortcut are not modelled. The model uses one registry object passed explicitly.
- C++ typing is reduced to opaque tags. A `std::type_index` key is a `TypeTag`; a `dynamic_pointer_cast` succeeds when the tag is in the system's `types`; `static_assert` and `static_pointer_cast` have no counterpart.
- Systems are values, not shared pointers, so object identity and aliasing are not modelled. Registering one object twice looks the same as registering two equal systems.
- `initialize` and `shutdown` are oracles fixed for one call: each system's outcome depends only on the system, not on earlier calls or other state.
- An exception thrown by `initialize`, or a non-`std::exception` thrown by `shutdown`, would escape the source loops; the model does not represent that. A `std::exception` from `shutdown` is the `Threw` outcome.
- `getName` and `getDependencies` are read as fixed fields of a system; a system whose answers change between calls is not modelled.
- DependencySort.SortSystems: does not say which dependency order is produced when several exist, because the source's choice depends on unordered-map iteration order.
- SystemManagement.SystemManager.SortByDependencies: the same; the new list is one dependency order, not a particular one.
- The `int` in-degree counters are unbounded integers; they never come near overflow because each counts declared edges.

