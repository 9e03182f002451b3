# StateMachine: a verified model of the generic state-machine engine

`StateMachine<T>` (in `StateMachine.hpp`) tracks the current state of an entity.
It checks each requested move against a transition configuration, then against
an ordered chain of guards, and tells registered listeners what happened. The
configuration holds explicit edges, wildcard sources, wildcard targets and a
child-to-parent hierarchy. The listeners are of four kinds: exit, transition,
enter and refusal. The engine also keeps a history of successful moves and can
undo the last one.

This project models the engine as pure functions over an immutable `Machine`
record:

- `options.dfy` (module `Options`): the `Option` type. An uninitialised machine
  has no current state (`None`).
- `machine.dfy` (module `Machines`): the data model. It holds
  `TransitionError`, the `Event` trace entries that stand in for listener
  callbacks, the `Machine` record, the `Step` outcome of one request and the
  freshly constructed machine `Fresh`.
- `graph.dfy` (module `Graph`): the three `addTransition` overloads,
  `isValidTransition`, `setParentState` and `isSubstateOf`.
- `guards.dfy` (module `Guards`): the guard chain and where it stops.
- `engine.dfy` (module `Engine`): `setInitialState`, the five `register*`
  operations, `notifyRefused`, `transitionTo`, `backToPrevious` and series of
  requests (`Run`).
- `undo_as_written.dfy` (module `UndoAsWritten`): `backToPrevious` exactly as
  the source writes it (see Findings).
- `demo.dfy` (module `Demo`): the demonstration program's scenario run through
  the model as a concrete trace.

How the source maps onto the model:

- A listener object is a `ListenerId`. Each callback the engine makes is one
  `Event` naming the listener that receives it: `OnExit`, `OnTransition`,
  `OnEnter` or `OnRefused`. `TransitionTo(m, target)` returns the new machine,
  the boolean result and the exact ordered list of callbacks.
- A guard is a pure predicate `(T, T) -> bool`.
- `getCurrentState()` and `getHistory()` are the fields `current` and
  `history`. `current` is `None` before `setInitialState`. In the source,
  `_current` at that point is indeterminate when `T` is a scalar type such as
  the demonstration's enum. When `T` is a class type, it is the
  default-constructed `T()`. That same indeterminate value is
  what refusal listeners receive as the "from" state when the machine has no
  state (`StateMachine.hpp:149`). In the model that argument is
  `OnRefused(_, None, target, NoInitialState)`.
- The `StatemachineAny` tag overloads become `AddTransitionToAny`
  (`addTransition(from, StatemachineAny)`, a wildcard source) and
  `AddTransitionFromAny` (`addTransition(StatemachineAny, to)`, a wildcard
  target).
- `isSubstateOf` is a method with the source's loop. The loop ends when it
  meets `parent` or reaches a state without a parent. It runs forever only
  when the chain from `child` enters a cycle that does not contain `parent`.
  The method therefore requires `WalkEnds`: the walk meets `parent` or a root
  within `|hierarchy|` steps. Every walk that ends at all ends within that
  many steps. Cyclic hierarchies whose walk meets `parent` are accepted.
  On an acyclic hierarchy every query is allowed.
- Inside `transitionTo`, the source appends the history entry before it
  updates `_current`. No listener runs between those two steps, so the model
  performs both in one record update. Both happen after every transition
  callback and before any enter callback, and the enter callback receives the
  already-updated state.

## Model

| member | source | states |
|---|---|---|
| Graph.AddTransition | StateMachine.hpp:113-116 | After `addTransition(from, to)`, that move is valid. The valid moves are exactly the old ones plus `(from, to)`. State, history, hierarchy and registries are unchanged. |
| Graph.AddTransitionToAny | StateMachine.hpp:118-121 | A wildcard source makes every move out of `from` valid, and adds no other valid move. State, history, hierarchy and registries are unchanged. |
| Graph.AddTransitionFromAny | StateMachine.hpp:123-126 | A wildcard target makes every move into `to` valid, and adds no other valid move. State, history, hierarchy and registries are unchanged. |
| Graph.ValidIffSomeRulePermits | StateMachine.hpp:93-103 | After any series of `addTransition` calls, a move is valid exactly when one of the calls permits it: an explicit edge, a wildcard source or a wildcard target. Order and repetition of the calls do not matter. |
| Graph.AddTransitionIdempotent | StateMachine.hpp:113-116 | Adding an edge that already exists leaves the machine identical (set insertion). |
| Graph.WildcardsIdempotent | StateMachine.hpp:118-126 | Adding the same wildcard source or target twice is the same as adding it once. |
| Graph.SetParentState | StateMachine.hpp:128-131 | `child`'s parent becomes `parent`, replacing any earlier parent. Every other child keeps its parent, and `parent` is now above `child` on its chain. |
| Graph.FreshPermitsNothing | StateMachine.hpp:76-78 | A newly constructed machine has no edge and no wildcard, so it permits no move. |
| Graph.IsSubstateOf | StateMachine.hpp:133-143 | Whenever the upward walk ends, it answers true exactly when `parent` appears strictly above `child` on its parent chain. |
| Graph.AcyclicWalkEnds | StateMachine.hpp:136-141 | On an acyclic hierarchy the walk ends for every child and parent, so every query is answered. |
| Graph.CyclicHierarchiesAnswered | StateMachine.hpp:136-141 | Some cyclic hierarchies are still answered: with A and B each other's parent, A is a substate of B and of itself. With A under B beside a separate C/D cycle, A is a substate of B. |
| Graph.NotSubstateOfItself | StateMachine.hpp:133-143 | On an acyclic hierarchy, no state is a substate of itself. |
| Guards.FirstVeto | StateMachine.hpp:162-169 | The guards are consulted in registration order. The answer is the first guard that vetoes, with every earlier guard permitting, or none when all permit. |
| Guards.LaterGuardsNotConsulted | StateMachine.hpp:162-169 | Guards after the first veto cannot change the answer: they are never asked. |
| Engine.Notify | StateMachine.hpp:87-91 | Each listener of a registry receives exactly one call, in registration order. |
| Engine.SetInitialState | StateMachine.hpp:107-111 | Sets the current state unconditionally. History, configuration and registries are unchanged. |
| Engine.TransitionTo | StateMachine.hpp:145-179 | A request succeeds exactly when there is a state, the target differs from it, the move is valid and every guard permits it. On success: one history entry `(from, target)`, new state `target`, and callbacks in the order all exits, all transitions, all enters, with no refusal. On refusal: machine unchanged and only refusal notices. |
| Engine.RefusalReasons | StateMachine.hpp:145-169 | The first failing check names the reason, in this order: no initial state, already in target, invalid transition, blocked by guard. There is one notice per refusal listener, in order, carrying that reason. |
| Engine.SelfEdgeStillRefused | StateMachine.hpp:152-156 | A request to the current state is refused as already-in-target even right after a self-edge is added. |
| Engine.WildcardTargetReachable | StateMachine.hpp:157-161 | A wildcard target is entered from any other state when no guard objects. |
| Engine.UninitialisedRefuses | StateMachine.hpp:147-151 | Without a state, every request is refused as no-initial-state with the machine unchanged. The refusal's "from" is absent. |
| Engine.InitialisedNeverReportsNoState | StateMachine.hpp:107-111 | After `setInitialState`, no request is ever refused for lack of a state. |
| Engine.GuardVetoShortCircuits | StateMachine.hpp:162-169 | After a veto, replacing the guards that follow the vetoing one changes neither the result nor the callbacks. |
| Engine.RegisterOnEnterNotified | StateMachine.hpp:181-184 | A new enter listener changes no result. On success it receives the new state after all earlier listeners. |
| Engine.RegisterOnExitNotified | StateMachine.hpp:186-189 | A new exit listener receives the old state after the earlier exit listeners and before any transition listener. |
| Engine.RegisterOnTransitionNotified | StateMachine.hpp:191-194 | A new transition listener receives the move after the earlier ones and before any enter listener. |
| Engine.RegisterOnRefusedNotified | StateMachine.hpp:196-199 | A new refusal listener changes no result. On refusal it receives the notice, with the reason of the first failing check, after all earlier listeners. |
| Engine.RegisterGuardRestricts | StateMachine.hpp:201-204 | A new guard only adds vetoes: a move succeeds exactly when it did before and the new guard permits it. Otherwise it is blocked by guard. |
| Engine.TransitionKeepsHistoryConsistent | StateMachine.hpp:170-178 | Every request keeps the history a connected walk of real, valid moves that ends at the current state. The hard reset `setInitialState` is not covered: it can break this. |
| Engine.ConfigurationKeepsHistoryConsistent | StateMachine.hpp:113-126 | Adding configuration keeps every recorded move valid. |
| Engine.HistoryCountsSuccesses | StateMachine.hpp:174 | Over any series of requests, the history only grows, by exactly one entry per successful request. Configuration and registries do not change. |
| Engine.RunKeepsHistoryConsistent | StateMachine.hpp:145-179 | A consistent history stays consistent over any series of requests that includes no `setInitialState`. |
| Engine.HardResetCanBreakConsistency | StateMachine.hpp:107-111 | After the move 0→1, `setInitialState(2)` leaves the current state away from the last history entry. The reset records nothing. |
| Engine.FreshRefusesSilently | StateMachine.hpp:73-85 | A newly constructed machine has no state and no listeners: every request is refused with no callback and no change, and its empty history is consistent. |
| Engine.UninitialisedRunChangesNothing | StateMachine.hpp:147-151 | Without a state, a series of requests succeeds nowhere and leaves the machine identical. |
| Engine.BackToPrevious | StateMachine.hpp:216-221 | With an empty history, fails with no callback. Otherwise it is `transitionTo` of the last entry's origin: refused with the machine unchanged and only refusal notices, or successful exactly when the move to the last entry's origin is admissible, and then lands there and appends one entry. |
| Engine.UndoReturnsToOrigin | StateMachine.hpp:216-221 | Right after a move from `a`, undo requests `a` through the full protocol. When the way back is permitted it returns to `a` and records the return as a new entry. |
| UndoAsWritten.BackToPreviousAsWritten | StateMachine.hpp:216-221 | As written, undo with an empty history fails with no callback, and with any other history it dereferences the position one past the last entry (undefined behaviour). |
| UndoAsWritten.AsWrittenUndoIsUndefined | StateMachine.hpp:216-221 | As written, undo agrees with the intended undo only on an empty history. On every other history it reads past the end. |
| Demo.SetupIsConfigured | main.cpp:48-62 | The demonstration's calls produce the explicit edges Idle→Running and Running→Jumping, the wildcard target Dead, the wildcard source Reset and the listed registries. |
| Demo.DemoScenario | main.cpp:64-70 | The demonstration's six requests give: refused, moved, vetoed, moved, moved, and an undo refused as invalid. The history ends as Idle→Running, Running→Jumping, Jumping→Dead. |

## Left out

- Listener and guard objects, their `shared_ptr` ownership and lifetime: listeners are identifiers, and their callbacks are the `Event` trace.
- Side effects of listeners (console output in the demonstration) and guards with state. Guards are pure predicates. The demonstration's change of the shared guard's stamina is modelled by replacing that guard's predicate.
- A listener calling back into the same machine during a callback: the source does not handle this re-entrancy.
- `unordered_map` / `unordered_set` hashing and iteration order: Dafny `map` and `set` stand in for them, and no behaviour depends on the order.
- The five `register*` operations carry no contract of their own, because they only append to a registry. Their effect on every later request is stated by the `Register…Notified` and `RegisterGuardRestricts` lemmas.
- `notifyRefused` is the helper `Engine.Refuse`. Its effect is stated through `Engine.TransitionTo` and `Engine.RefusalReasons`.
- Graph.IsSubstateOf: requires that the walk from `child` meets `parent` or a root within `|hierarchy|` steps. The source's loop runs forever exactly on the remaining inputs, where the chain enters a cycle without `parent`. That non-termination is not modelled.
- `Graph.IsValidTransition` and `Machines.Fresh` are definitions with no contract of their own. `isValidTransition` is stated by `Graph.ValidIffSomeRulePermits` and the three `AddTransition…` contracts. The default-constructed machine is stated by `Graph.FreshPermitsNothing`, `Engine.FreshRefusesSilently` and `Engine.UninitialisedRefuses`.
- Callbacks and guards are assumed to return normally, and every registered `shared_ptr` is assumed non-null. An exception or a null listener (dereferenced at `StateMachine.hpp:90`, `:164`, `:171`, `:173` and `:177`) is not modelled. For example, an `onEnter` that throws after line 175 leaves history and state updated, and the later enter listeners are never called.
- `getHistory` returning a reference: the model returns the history as a value.

## Findings

| source | as written | input that shows it | evidently intended | confidence | as-written member | corrected member |
|---|---|---|---|---|---|---|
| StateMachine.hpp:220 | `backToPrevious` takes its target from the entry at `_history.end()`, one past the last entry. That read is undefined behaviour. | Any non-empty history. For example, the demonstration after Idle→Running, Running→Jumping, Jumping→Dead: `UndoAsWritten.AsWrittenUndoIsUndefined` and `Demo.DemoScenario` show the read is out of range. | The target is the origin (from state) of the last history entry (Jumping in the demonstration), and that move is then requested through `transitionTo`. | high; not executed | UndoAsWritten.BackToPreviousAsWritten | Engine.BackToPrevious |
