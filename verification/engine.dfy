/**
  The transition protocol of `StateMachine<T>`: initialisation, listener and
  guard registration, `transitionTo` with its fixed order of refusal checks
  and callbacks, and the `backToPrevious` undo.
*/
module Engine {
  import opened Options
  import opened Machines
  import opened Graph
  import opened Guards

  /** Calls every listener of one registry in registration order, recording each call. */
  function Notify<T>(listeners: seq<ListenerId>, call: ListenerId -> Event<T>): (r: seq<Event<T>>)
    ensures |r| == |listeners|
    ensures forall i :: 0 <= i < |listeners| ==> r[i] == call(listeners[i])
    decreases |listeners|
  {
    if |listeners| == 0 then [] else [call(listeners[0])] + Notify(listeners[1..], call)
  }

  /** `setInitialState`: a hard reset of the current state, with no check and no callback. */
  function SetInitialState<T>(m: Machine<T>, state: T): (r: Machine<T>)
    ensures r.current == Some(state)
    ensures r.history == m.history
    ensures SameSetup(m, r)
  {
    m.(current := Some(state))
  }

  function RegisterOnEnter<T>(m: Machine<T>, l: ListenerId): Machine<T>
  {
    m.(onEnter := m.onEnter + [l])
  }

  function RegisterOnExit<T>(m: Machine<T>, l: ListenerId): Machine<T>
  {
    m.(onExit := m.onExit + [l])
  }

  function RegisterOnTransition<T>(m: Machine<T>, l: ListenerId): Machine<T>
  {
    m.(onTransition := m.onTransition + [l])
  }

  function RegisterOnTransitionRefused<T>(m: Machine<T>, l: ListenerId): Machine<T>
  {
    m.(onRefused := m.onRefused + [l])
  }

  function RegisterGuard<T>(m: Machine<T>, g: Guard<T>): Machine<T>
  {
    m.(guards := m.guards + [g])
  }

  /** The move to `target` is allowed: there is a state, it differs, an edge permits it and no guard objects. */
  predicate Admissible<T(==,!new)>(m: Machine<T>, target: T)
  {
    && m.current.Some?
    && m.current.value != target
    && IsValidTransition(m, m.current.value, target)
    && AllPermit(m.guards, m.current.value, target)
  }

  /**
    `s` is a refusal of the move to `target` for `reason`: the machine is
    untouched and the only callbacks are one refusal notice per refusal
    listener, in registration order.
  */
  ghost predicate RefusedWith<T>(m: Machine<T>, target: T, s: Step<T>, reason: TransitionError)
  {
    && !s.ok
    && s.machine == m
    && |s.events| == |m.onRefused|
    && forall i :: 0 <= i < |m.onRefused| ==> s.events[i] == OnRefused(m.onRefused[i], m.current, target, reason)
  }

  /**
    `s` is the success of the move from `m`'s state to `target`: one history
    entry more, the new current state, and the callbacks all exit listeners
    with the old state, then all transition listeners with the pair, then all
    enter listeners with the new state, each group in registration order.
  */
  ghost predicate AcceptedAs<T>(m: Machine<T>, target: T, s: Step<T>)
  {
    && m.current.Some?
    && var from, x, t, e := m.current.value, |m.onExit|, |m.onTransition|, |m.onEnter|;
    && s.ok
    && SameSetup(m, s.machine)
    && s.machine.current == Some(target)
    && s.machine.history == m.history + [(from, target)]
    && |s.events| == x + t + e
    && (forall i :: 0 <= i < x ==> s.events[i] == OnExit(m.onExit[i], from))
    && (forall i :: 0 <= i < t ==> s.events[x + i] == OnTransition(m.onTransition[i], from, target))
    && (forall i :: 0 <= i < e ==> s.events[x + t + i] == OnEnter(m.onEnter[i], target))
  }

  /** The refusal path: notify every refusal listener and leave the machine as it is. */
  function Refuse<T>(m: Machine<T>, target: T, reason: TransitionError): Step<T>
  {
    Step(m, false, Notify(m.onRefused, l => OnRefused(l, m.current, target, reason)))
  }

  /** The success path: exit and transition callbacks, then history and state, then enter callbacks. */
  function Accept<T>(m: Machine<T>, target: T): Step<T>
    requires m.current.Some?
  {
    var from := m.current.value;
    var announced := Notify(m.onExit, l => OnExit(l, from))
                   + Notify(m.onTransition, l => OnTransition(l, from, target));
    var m' := m.(history := m.history + [(from, target)], current := Some(target));
    Step(m', true, announced + Notify(m'.onEnter, l => OnEnter(l, m'.current.value)))
  }

  /** `transitionTo(target)`. */
  function TransitionTo<T(==,!new)>(m: Machine<T>, target: T): (r: Step<T>)
    ensures r.ok <==> Admissible(m, target)
    ensures r.ok ==> AcceptedAs(m, target, r)
    ensures !r.ok ==> r.machine == m && |r.events| == |m.onRefused|
    ensures !r.ok ==> forall e :: e in r.events ==> e.OnRefused? && e.attempted == m.current && e.to == target
  {
    if m.current.None? then Refuse(m, target, NoInitialState)
    else if m.current.value == target then Refuse(m, target, AlreadyInTarget)
    else if !IsValidTransition(m, m.current.value, target) then Refuse(m, target, InvalidTransition)
    else if FirstVeto(m.guards, m.current.value, target).Some? then Refuse(m, target, BlockedByGuard)
    else Accept(m, target)
  }

  /** The reason the first failing check gives, for a request that is refused. */
  function RefusalReason<T(==,!new)>(m: Machine<T>, target: T): TransitionError
  {
    if m.current.None? then NoInitialState
    else if m.current.value == target then AlreadyInTarget
    else if !IsValidTransition(m, m.current.value, target) then InvalidTransition
    else BlockedByGuard
  }

  /**
    The refusal checks run in the order of the source, so the first failing
    one names the reason: no state, then already there (even when an edge or
    wildcard would permit the self-move), then no edge, then a guard veto.
  */
  lemma RefusalReasons<T(!new)>(m: Machine<T>, target: T)
    ensures m.current.None? ==> RefusedWith(m, target, TransitionTo(m, target), NoInitialState)
    ensures m.current == Some(target) ==> RefusedWith(m, target, TransitionTo(m, target), AlreadyInTarget)
    ensures m.current.Some? && m.current.value != target && !IsValidTransition(m, m.current.value, target)
        ==> RefusedWith(m, target, TransitionTo(m, target), InvalidTransition)
    ensures m.current.Some? && m.current.value != target && IsValidTransition(m, m.current.value, target)
            && !AllPermit(m.guards, m.current.value, target)
        ==> RefusedWith(m, target, TransitionTo(m, target), BlockedByGuard)
    ensures !TransitionTo(m, target).ok ==> RefusedWith(m, target, TransitionTo(m, target), RefusalReason(m, target))
  {
  }

  /** A request to the current state is refused as already-in-target, even right after a self-edge is added. */
  lemma SelfEdgeStillRefused<T(!new)>(m: Machine<T>, s: T)
    requires m.current == Some(s)
    ensures IsValidTransition(AddTransition(m, s, s), s, s)
    ensures RefusedWith(AddTransition(m, s, s), s, TransitionTo(AddTransition(m, s, s), s), AlreadyInTarget)
  {
  }

  /** A wildcard target can be entered from any other state that no guard holds back. */
  lemma WildcardTargetReachable<T(!new)>(m: Machine<T>, target: T)
    requires m.current.Some? && m.current.value != target
    requires AllPermit(m.guards, m.current.value, target)
    ensures AcceptedAs(AddTransitionFromAny(m, target), target, TransitionTo(AddTransitionFromAny(m, target), target))
  {
  }

  /** Before any initial state, every request is refused as no-initial-state. */
  lemma UninitialisedRefuses<T(!new)>(m: Machine<T>, target: T)
    requires m.current.None?
    ensures RefusedWith(m, target, TransitionTo(m, target), NoInitialState)
    ensures forall i :: 0 <= i < |m.onRefused| ==> TransitionTo(m, target).events[i].attempted.None?
  {
  }

  /** Once a state is set, no request is ever refused for lack of one. */
  lemma InitialisedNeverReportsNoState<T(!new)>(m: Machine<T>, state: T, target: T)
    ensures forall e :: e in TransitionTo(SetInitialState(m, state), target).events ==> !(e.OnRefused? && e.reason == NoInitialState)
  {
    var m1 := SetInitialState(m, state);
    var r := TransitionTo(m1, target);
    if !r.ok {
      if state == target {
        RefusalReasons(m1, target);
      } else {
        RefusalReasons(m1, target);
        assert forall i :: 0 <= i < |r.events| ==> r.events[i].reason != NoInitialState;
      }
    }
  }

  /** A guard veto stops the chain: the guards registered after the vetoing one cannot change the result. */
  lemma GuardVetoShortCircuits<T(!new)>(m: Machine<T>, target: T, rest: seq<Guard<T>>)
    requires m.current.Some? && FirstVeto(m.guards, m.current.value, target).Some?
    ensures var m' := m.(guards := m.guards[..FirstVeto(m.guards, m.current.value, target).value + 1] + rest);
            && TransitionTo(m', target).ok == TransitionTo(m, target).ok
            && TransitionTo(m', target).events == TransitionTo(m, target).events
  {
    LaterGuardsNotConsulted(m.guards, rest, m.current.value, target);
  }

  lemma NotifyAppend<T>(listeners: seq<ListenerId>, l: ListenerId, call: ListenerId -> Event<T>)
    ensures Notify(listeners + [l], call) == Notify(listeners, call) + [call(l)]
  {
    var a, b := Notify(listeners + [l], call), Notify(listeners, call) + [call(l)];
    assert |a| == |b|;
    assert forall i :: 0 <= i < |a| ==> a[i] == b[i] by {
      forall i | 0 <= i < |a|
        ensures a[i] == b[i]
      {
        assert (listeners + [l])[i] == if i < |listeners| then listeners[i] else l;
      }
    }
  }

  /** A newly registered enter listener changes nothing but receives the new state after all earlier ones. */
  lemma RegisterOnEnterNotified<T(!new)>(m: Machine<T>, l: ListenerId, target: T)
    ensures var r, r' := TransitionTo(m, target), TransitionTo(RegisterOnEnter(m, l), target);
            && r'.ok == r.ok
            && r'.machine == RegisterOnEnter(r.machine, l)
            && r'.events == r.events + (if r.ok then [OnEnter(l, target)] else [])
  {
    var m' := RegisterOnEnter(m, l);
    var r, r' := TransitionTo(m, target), TransitionTo(m', target);
    assert Admissible(m', target) <==> Admissible(m, target);
    if r.ok {
      EnterAppended(m, l, target, r, r');
    } else {
      SameRefusal(m, m', target);
    }
  }

  /** A newly registered exit listener is told of the old state after the earlier exit listeners and before any transition listener. */
  lemma RegisterOnExitNotified<T(!new)>(m: Machine<T>, l: ListenerId, target: T)
    ensures var r, r' := TransitionTo(m, target), TransitionTo(RegisterOnExit(m, l), target);
            && r'.ok == r.ok
            && r'.machine == RegisterOnExit(r.machine, l)
            && r'.events == if r.ok then r.events[..|m.onExit|] + [OnExit(l, m.current.value)] + r.events[|m.onExit|..]
                            else r.events
  {
    var m' := RegisterOnExit(m, l);
    var r, r' := TransitionTo(m, target), TransitionTo(m', target);
    assert Admissible(m', target) <==> Admissible(m, target);
    if r.ok {
      ExitSpliced(m, l, target, r, r');
    } else {
      SameRefusal(m, m', target);
    }
  }

  /** Two machines that differ only in their exit, transition or enter listeners refuse alike. */
  lemma SameRefusal<T(!new)>(m: Machine<T>, m': Machine<T>, target: T)
    requires m'.current == m.current && m'.onRefused == m.onRefused
    requires m'.edges == m.edges && m'.wildcardTargets == m.wildcardTargets
    requires m'.wildcardSources == m.wildcardSources && m'.guards == m.guards
    requires !TransitionTo(m, target).ok
    ensures TransitionTo(m', target).events == TransitionTo(m, target).events
  {
    RefusalReasons(m, target);
    RefusalReasons(m', target);
    assert RefusalReason(m', target) == RefusalReason(m, target);
  }

  /** The trace with one more enter listener is the old trace with that listener's call at the end. */
  lemma EnterAppended<T>(m: Machine<T>, l: ListenerId, target: T, r: Step<T>, r': Step<T>)
    requires AcceptedAs(m, target, r) && AcceptedAs(RegisterOnEnter(m, l), target, r')
    ensures r'.events == r.events + [OnEnter(l, target)]
  {
    var x, t, e := |m.onExit|, |m.onTransition|, |m.onEnter|;
    var m' := RegisterOnEnter(m, l);
    var extended := r.events + [OnEnter(l, target)];
    assert |extended| == |r'.events|;
    forall i | 0 <= i < |extended|
      ensures extended[i] == r'.events[i]
    {
      if i < x {
        assert r'.events[i] == OnExit(m.onExit[i], m.current.value);
      } else if i < x + t {
        assert r'.events[x + (i - x)] == OnTransition(m.onTransition[i - x], m.current.value, target);
        assert r.events[x + (i - x)] == OnTransition(m.onTransition[i - x], m.current.value, target);
      } else if i < x + t + e {
        assert m'.onEnter[i - x - t] == m.onEnter[i - x - t];
        assert r'.events[x + t + (i - x - t)] == OnEnter(m.onEnter[i - x - t], target);
        assert r.events[x + t + (i - x - t)] == OnEnter(m.onEnter[i - x - t], target);
      } else {
        assert m'.onEnter[e] == l;
        assert r'.events[x + t + e] == OnEnter(l, target);
      }
    }
  }

  /** The trace with one more transition listener is the old trace with that listener's call after the other transitions. */
  lemma TransitionSpliced<T>(m: Machine<T>, l: ListenerId, target: T, r: Step<T>, r': Step<T>)
    requires AcceptedAs(m, target, r) && AcceptedAs(RegisterOnTransition(m, l), target, r')
    ensures r'.events == r.events[..|m.onExit| + |m.onTransition|] + [OnTransition(l, m.current.value, target)]
                         + r.events[|m.onExit| + |m.onTransition|..]
  {
    var x, t := |m.onExit|, |m.onTransition|;
    var m' := RegisterOnTransition(m, l);
    var spliced := r.events[..x + t] + [OnTransition(l, m.current.value, target)] + r.events[x + t..];
    assert |spliced| == |r'.events|;
    forall i | 0 <= i < |spliced|
      ensures spliced[i] == r'.events[i]
    {
      if i < x {
        assert r'.events[i] == OnExit(m.onExit[i], m.current.value);
      } else if i < x + t {
        assert m'.onTransition[i - x] == m.onTransition[i - x];
        assert r'.events[x + (i - x)] == OnTransition(m.onTransition[i - x], m.current.value, target);
        assert r.events[x + (i - x)] == OnTransition(m.onTransition[i - x], m.current.value, target);
      } else if i == x + t {
        assert m'.onTransition[t] == l;
        assert r'.events[x + t] == OnTransition(l, m.current.value, target);
      } else {
        var k := i - x - t - 1;
        assert r'.events[x + (t + 1) + k] == OnEnter(m.onEnter[k], target);
        assert r.events[x + t + k] == OnEnter(m.onEnter[k], target);
      }
    }
  }

  /** The trace with one more exit listener is the old trace with that listener's call after the other exits. */
  lemma ExitSpliced<T>(m: Machine<T>, l: ListenerId, target: T, r: Step<T>, r': Step<T>)
    requires AcceptedAs(m, target, r) && AcceptedAs(RegisterOnExit(m, l), target, r')
    ensures r'.events == r.events[..|m.onExit|] + [OnExit(l, m.current.value)] + r.events[|m.onExit|..]
  {
    var x, t := |m.onExit|, |m.onTransition|;
    var m' := RegisterOnExit(m, l);
    var spliced := r.events[..x] + [OnExit(l, m.current.value)] + r.events[x..];
    assert |spliced| == |r'.events|;
    forall i | 0 <= i < |spliced|
      ensures spliced[i] == r'.events[i]
    {
      if i < x {
        assert m'.onExit[i] == m.onExit[i];
      } else if i == x {
        assert m'.onExit[x] == l;
      } else if i < x + 1 + t {
        assert r'.events[(x + 1) + (i - x - 1)] == OnTransition(m.onTransition[i - x - 1], m.current.value, target);
        assert r.events[x + (i - x - 1)] == OnTransition(m.onTransition[i - x - 1], m.current.value, target);
      } else {
        var k := i - x - 1 - t;
        assert r'.events[(x + 1) + t + k] == OnEnter(m.onEnter[k], target);
        assert r.events[x + t + k] == OnEnter(m.onEnter[k], target);
      }
    }
  }

  /** A newly registered transition listener is told of the move after the earlier ones and before any enter listener. */
  lemma RegisterOnTransitionNotified<T(!new)>(m: Machine<T>, l: ListenerId, target: T)
    ensures var r, r' := TransitionTo(m, target), TransitionTo(RegisterOnTransition(m, l), target);
            && r'.ok == r.ok
            && r'.machine == RegisterOnTransition(r.machine, l)
            && r'.events == if r.ok then r.events[..|m.onExit| + |m.onTransition|] + [OnTransition(l, m.current.value, target)]
                                         + r.events[|m.onExit| + |m.onTransition|..]
                            else r.events
  {
    var m' := RegisterOnTransition(m, l);
    var r, r' := TransitionTo(m, target), TransitionTo(m', target);
    assert Admissible(m', target) <==> Admissible(m, target);
    if r.ok {
      TransitionSpliced(m, l, target, r, r');
    } else {
      SameRefusal(m, m', target);
    }
  }

  /** A newly registered refusal listener receives the refusal notice, with the reason of the first failing check, after all earlier ones. */
  lemma RegisterOnRefusedNotified<T(!new)>(m: Machine<T>, l: ListenerId, target: T)
    ensures var r, r' := TransitionTo(m, target), TransitionTo(RegisterOnTransitionRefused(m, l), target);
            && r'.ok == r.ok
            && r'.machine == RegisterOnTransitionRefused(r.machine, l)
            && (r.ok ==> r'.events == r.events)
            && (!r.ok ==> r'.events == r.events + [OnRefused(l, m.current, target, RefusalReason(m, target))])
  {
    var m' := RegisterOnTransitionRefused(m, l);
    var r, r' := TransitionTo(m, target), TransitionTo(m', target);
    if !r.ok {
      var reason := RefusalReason(m, target);
      assert RefusalReason(m', target) == reason;
      RefusalReasons(m, target);
      RefusalReasons(m', target);
      NotifyAppend(m.onRefused, l, (x: ListenerId) => OnRefused(x, m.current, target, reason));
      assert r'.events == r.events + [OnRefused(l, m.current, target, reason)];
    }
  }

  /** A new guard can only add vetoes: the move succeeds exactly when it did before and the new guard permits it. */
  lemma RegisterGuardRestricts<T(!new)>(m: Machine<T>, g: Guard<T>, target: T)
    ensures var r, r' := TransitionTo(m, target), TransitionTo(RegisterGuard(m, g), target);
            && (r'.ok <==> r.ok && g(m.current.value, target))
            && (r.ok && !g(m.current.value, target) ==> RefusedWith(RegisterGuard(m, g), target, r', BlockedByGuard))
  {
    var m' := RegisterGuard(m, g);
    RefusalReasons(m', target);
    if m.current.Some? {
      var from := m.current.value;
      assert m'.guards[|m.guards|] == g;
      assert forall i :: 0 <= i < |m.guards| ==> m'.guards[i] == m.guards[i];
      assert AllPermit(m'.guards, from, target) <==> AllPermit(m.guards, from, target) && g(from, target);
    }
  }

  /**
    The history is a connected walk of real moves, each permitted by the
    configuration, ending at the current state. Requests and configuration
    keep it; the hard reset `setInitialState` can break it, since it moves the
    current state without recording anything (see `HardResetCanBreakConsistency`).
  */
  ghost predicate HistoryConsistent<T(!new)>(m: Machine<T>)
  {
    var h := m.history;
    && (forall i :: 0 <= i < |h| ==> h[i].0 != h[i].1 && IsValidTransition(m, h[i].0, h[i].1))
    && (forall i :: 0 < i < |h| ==> h[i - 1].1 == h[i].0)
    && (|h| > 0 ==> m.current == Some(h[|h| - 1].1))
  }

  /** Every request keeps the history consistent, whether it succeeds or is refused. */
  lemma TransitionKeepsHistoryConsistent<T(!new)>(m: Machine<T>, target: T)
    requires HistoryConsistent(m)
    ensures HistoryConsistent(TransitionTo(m, target).machine)
  {
    var r := TransitionTo(m, target);
    if r.ok {
      var h := r.machine.history;
      assert h[|h| - 1] == (m.current.value, target);
      assert forall i :: 0 <= i < |m.history| ==> h[i] == m.history[i];
    }
  }

  /** Adding rules only widens validity, so it keeps the history consistent. */
  lemma ConfigurationKeepsHistoryConsistent<T(!new)>(m: Machine<T>, rule: Rule<T>)
    requires HistoryConsistent(m)
    ensures HistoryConsistent(Apply(m, rule))
  {
  }

  /** Serves the requests in order, answering the machine afterwards and how many succeeded. */
  function Run<T(==,!new)>(m: Machine<T>, targets: seq<T>): (Machine<T>, nat)
    decreases |targets|
  {
    if |targets| == 0 then (m, 0)
    else
      var s := TransitionTo(m, targets[0]);
      var (m', n) := Run(s.machine, targets[1..]);
      (m', n + if s.ok then 1 else 0)
  }

  /**
    Over any series of requests the history only grows, by exactly one entry
    per successful request, and nothing but the current state and history changes.
  */
  lemma {:induction false} HistoryCountsSuccesses<T(!new)>(m: Machine<T>, targets: seq<T>)
    ensures Run(m, targets).1 <= |targets|
    ensures |Run(m, targets).0.history| == |m.history| + Run(m, targets).1
    ensures m.history <= Run(m, targets).0.history
    ensures SameSetup(m, Run(m, targets).0)
    decreases |targets|
  {
    if |targets| > 0 {
      var s := TransitionTo(m, targets[0]);
      HistoryCountsSuccesses(s.machine, targets[1..]);
    }
  }

  /** A consistent history stays consistent over any series of requests. */
  lemma {:induction false} RunKeepsHistoryConsistent<T(!new)>(m: Machine<T>, targets: seq<T>)
    requires HistoryConsistent(m)
    ensures HistoryConsistent(Run(m, targets).0)
    decreases |targets|
  {
    if |targets| > 0 {
      TransitionKeepsHistoryConsistent(m, targets[0]);
      RunKeepsHistoryConsistent(TransitionTo(m, targets[0]).machine, targets[1..]);
    }
  }

  /** Without an initial state, a whole series of requests succeeds nowhere and changes nothing. */
  lemma {:induction false} UninitialisedRunChangesNothing<T(!new)>(m: Machine<T>, targets: seq<T>)
    requires m.current.None?
    ensures Run(m, targets) == (m, 0)
    decreases |targets|
  {
    if |targets| > 0 {
      UninitialisedRunChangesNothing(m, targets[1..]);
    }
  }

  /**
    `backToPrevious`: asks for the origin of the last history entry through
    the full `transitionTo` protocol; with no history it fails silently.
  */
  function BackToPrevious<T(==,!new)>(m: Machine<T>): (r: Step<T>)
    ensures |m.history| == 0 ==> !r.ok && r.machine == m && r.events == []
    ensures |m.history| > 0 ==> r == TransitionTo(m, m.history[|m.history| - 1].0)
    ensures |m.history| > 0 ==> (r.ok <==> Admissible(m, m.history[|m.history| - 1].0))
    ensures !r.ok ==> r.machine == m && forall e :: e in r.events ==> e.OnRefused?
    ensures r.ok ==> r.machine.current == Some(m.history[|m.history| - 1].0)
    ensures r.ok ==> r.machine.history == m.history + [(m.current.value, m.history[|m.history| - 1].0)]
  {
    if |m.history| == 0 then Step(m, false, [])
    else TransitionTo(m, m.history[|m.history| - 1].0)
  }

  /**
    Right after a successful move from `a`, undo asks for `a` again; when the
    way back is permitted it returns there, recording the return as a new
    entry rather than erasing the old one.
  */
  lemma UndoReturnsToOrigin<T(!new)>(m: Machine<T>, target: T)
    requires TransitionTo(m, target).ok
    ensures var m1 := TransitionTo(m, target).machine;
            BackToPrevious(m1) == TransitionTo(m1, m.current.value)
    ensures var m1 := TransitionTo(m, target).machine;
            IsValidTransition(m, target, m.current.value) && AllPermit(m.guards, target, m.current.value)
            ==> && BackToPrevious(m1).ok
                && BackToPrevious(m1).machine.current == m.current
                && BackToPrevious(m1).machine.history == m.history + [(m.current.value, target), (target, m.current.value)]
  {
  }

  /** `setInitialState` after a move can leave the current state away from the last history entry. */
  lemma HardResetCanBreakConsistency()
    ensures var s := TransitionTo(AddTransition(SetInitialState(Fresh<int>(), 0), 0, 1), 1);
            && s.ok && HistoryConsistent(s.machine)
            && !HistoryConsistent(SetInitialState(s.machine, 2))
  {
    var m := AddTransition(SetInitialState(Fresh<int>(), 0), 0, 1);
    assert IsValidTransition(m, 0, 1);
    var s := TransitionTo(m, 1);
    assert s.machine.history == [(0, 1)];
  }

  /**
    A freshly constructed machine has no state, no history and no
    listeners: every request is refused silently and changes nothing.
  */
  lemma FreshRefusesSilently<T(!new)>(target: T)
    ensures TransitionTo(Fresh<T>(), target) == Step(Fresh<T>(), false, [])
    ensures HistoryConsistent(Fresh<T>())
  {
  }
}
