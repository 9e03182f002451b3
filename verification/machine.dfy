/**
  The data of one `StateMachine<T>` instance: its transition configuration, its
  current state and history, and its listener and guard registries.

  Listener objects are modelled only by an identifier; every callback the
  machine makes is recorded as one `Event` naming the listener that receives
  it, so a transition returns the exact, ordered trace of calls it makes.
*/
module Machines {
  import opened Options

  /** The four reasons a transition can be refused. */
  datatype TransitionError =
    | NoInitialState
    | AlreadyInTarget
    | InvalidTransition
    | BlockedByGuard

  /** Identifies one registered listener object. */
  type ListenerId = nat

  /** A guard: permits (true) or vetoes (false) a move from the first state to the second. */
  type Guard<!T> = (T, T) -> bool

  /** One callback made by the machine, addressed to one listener. */
  datatype Event<T> =
    | OnExit(listener: ListenerId, state: T)
    | OnTransition(listener: ListenerId, from: T, to: T)
    | OnEnter(listener: ListenerId, state: T)
      // `attempted` is None when the machine was never given a state
    | OnRefused(listener: ListenerId, attempted: Option<T>, to: T, reason: TransitionError)

  datatype Machine<!T> = Machine(
    current: Option<T>,              // None until an initial state is set
    edges: map<T, set<T>>,           // explicit edges, from -> permitted targets
    wildcardTargets: set<T>,         // states reachable from any state
    wildcardSources: set<T>,         // states from which any state is reachable
    history: seq<(T, T)>,            // one (from, to) entry per successful transition
    hierarchy: map<T, T>,            // child -> parent
    onEnter: seq<ListenerId>,
    onExit: seq<ListenerId>,
    onTransition: seq<ListenerId>,
    onRefused: seq<ListenerId>,
    guards: seq<Guard<T>>)

  /** The outcome of one request: the machine afterwards, the returned flag and the callbacks made. */
  datatype Step<!T> = Step(machine: Machine<T>, ok: bool, events: seq<Event<T>>)

  /** A freshly constructed machine: nothing configured, nothing registered, no state. */
  function Fresh<T>(): Machine<T>
  {
    Machine(None, map[], {}, {}, [], map[], [], [], [], [], [])
  }

  /** Two machines agree on everything except their current state and history. */
  ghost predicate SameSetup<T>(m: Machine<T>, m': Machine<T>)
  {
    && m'.edges == m.edges
    && m'.wildcardTargets == m.wildcardTargets
    && m'.wildcardSources == m.wildcardSources
    && m'.hierarchy == m.hierarchy
    && m'.onEnter == m.onEnter
    && m'.onExit == m.onExit
    && m'.onTransition == m.onTransition
    && m'.onRefused == m.onRefused
    && m'.guards == m.guards
  }
}
