/**
  The demonstration program's scenario (a character with five states, a
  stamina guard on jumping, a logging listener and an exit logger), run
  through the model as a concrete trace.
*/
module Demo {
  import opened Options
  import opened Machines
  import opened Graph
  import opened Engine
  import UndoAsWritten

  datatype State = Idle | Running | Jumping | Dead | Reset

  const Logger: ListenerId := 0
  const ExitLogger: ListenerId := 1

  /** Refuses any jump while stamina is not positive. */
  function JumpGuard(stamina: int): Guard<State>
  {
    (from: State, to: State) => !(to == Jumping && stamina <= 0)
  }

  /** The machine as the demonstration configures it before its first request. */
  function Setup(): Machine<State>
  {
    var m := SetInitialState(Fresh(), Idle);
    var m := AddTransitionFromAny(m, Dead);
    var m := AddTransitionToAny(m, Reset);
    var m := AddTransition(m, Idle, Running);
    var m := AddTransition(m, Running, Jumping);
    var m := RegisterOnTransition(m, Logger);
    var m := RegisterOnTransitionRefused(m, Logger);
    var m := RegisterGuard(m, JumpGuard(0));
    RegisterOnExit(m, ExitLogger)
  }

  /** The configuration and registries of the demonstration, whatever its state and guards. */
  ghost predicate Configured(m: Machine<State>)
  {
    && m.edges == map[Idle := {Running}, Running := {Jumping}]
    && m.wildcardTargets == {Dead}
    && m.wildcardSources == {Reset}
    && m.onEnter == []
    && m.onExit == [ExitLogger]
    && m.onTransition == [Logger]
    && m.onRefused == [Logger]
  }

  lemma SetupIsConfigured()
    ensures Configured(Setup())
    ensures Setup().current == Some(Idle) && Setup().history == [] && Setup().guards == [JumpGuard(0)]
  {
    var m := AddTransitionToAny(AddTransitionFromAny(SetInitialState(Fresh(), Idle), Dead), Reset);
    assert m.edges == map[];
    var m1 := AddTransition(m, Idle, Running);
    assert Idle !in m.edges;
    assert {} + {Running} == {Running};
    assert m1.edges == map[Idle := {Running}];
    var m2 := AddTransition(m1, Running, Jumping);
    assert Running !in m1.edges;
    assert {} + {Jumping} == {Jumping};
    assert m2.edges == map[Idle := {Running}, Running := {Jumping}];
  }

  /** A refused request in the demonstration: one notice to the logger, nothing else. */
  lemma RefusedRequest(m: Machine<State>, target: State, reason: TransitionError)
    requires Configured(m) && m.current.Some?
    requires RefusedWith(m, target, TransitionTo(m, target), reason)
    ensures TransitionTo(m, target) == Step(m, false, [OnRefused(Logger, m.current, target, reason)])
  {
  }

  /** A successful request in the demonstration: the exit logger, then the logger, then the new state. */
  lemma AcceptedRequest(m: Machine<State>, target: State)
    requires Configured(m) && m.current.Some?
    requires TransitionTo(m, target).ok
    ensures var s := TransitionTo(m, target);
            && Configured(s.machine) && s.machine.guards == m.guards
            && s.machine.current == Some(target)
            && s.machine.history == m.history + [(m.current.value, target)]
            && s.events == [OnExit(ExitLogger, m.current.value), OnTransition(Logger, m.current.value, target)]
  {
    var s := TransitionTo(m, target);
    assert s.events[0] == OnExit(ExitLogger, m.current.value);
    assert s.events[1] == OnTransition(Logger, m.current.value, target);
  }

  /** The machine after the move Idle -> Running. */
  function AfterSecond(): Machine<State>
  {
    Setup().(current := Some(Running), history := [(Idle, Running)])
  }

  /** The machine after the guard's stamina is raised and the move Running -> Jumping. */
  function AfterFourth(): Machine<State>
  {
    AfterSecond().(guards := [JumpGuard(5)], current := Some(Jumping),
                   history := [(Idle, Running), (Running, Jumping)])
  }

  /** The machine after the move Jumping -> Dead. */
  function AfterFifth(): Machine<State>
  {
    AfterFourth().(current := Some(Dead), history := [(Idle, Running), (Running, Jumping), (Jumping, Dead)])
  }

  lemma FirstRefused()
    ensures TransitionTo(Setup(), Idle) == Step(Setup(), false, [OnRefused(Logger, Some(Idle), Idle, AlreadyInTarget)])
  {
    SetupIsConfigured();
    RefusalReasons(Setup(), Idle);
    RefusedRequest(Setup(), Idle, AlreadyInTarget);
  }

  lemma SecondAccepted()
    ensures TransitionTo(Setup(), Running)
         == Step(AfterSecond(), true, [OnExit(ExitLogger, Idle), OnTransition(Logger, Idle, Running)])
  {
    SetupIsConfigured();
    var m := Setup();
    assert IsValidTransition(m, Idle, Running);
    assert m.guards[0](Idle, Running);
    AcceptedRequest(m, Running);
  }

  lemma ThirdBlocked()
    ensures TransitionTo(AfterSecond(), Jumping)
         == Step(AfterSecond(), false, [OnRefused(Logger, Some(Running), Jumping, BlockedByGuard)])
  {
    SetupIsConfigured();
    var m := AfterSecond();
    assert Configured(m);
    assert IsValidTransition(m, Running, Jumping);
    assert !m.guards[0](Running, Jumping);
    RefusalReasons(m, Jumping);
    RefusedRequest(m, Jumping, BlockedByGuard);
  }

  lemma FourthAccepted()
    ensures TransitionTo(AfterSecond().(guards := [JumpGuard(5)]), Jumping)
         == Step(AfterFourth(), true, [OnExit(ExitLogger, Running), OnTransition(Logger, Running, Jumping)])
  {
    SetupIsConfigured();
    var m := AfterSecond().(guards := [JumpGuard(5)]);
    assert Configured(m);
    assert IsValidTransition(m, Running, Jumping);
    assert m.guards[0](Running, Jumping);
    AcceptedRequest(m, Jumping);
  }

  lemma FifthAccepted()
    ensures TransitionTo(AfterFourth(), Dead)
         == Step(AfterFifth(), true, [OnExit(ExitLogger, Jumping), OnTransition(Logger, Jumping, Dead)])
  {
    SetupIsConfigured();
    var m := AfterFourth();
    assert Configured(m);
    assert IsValidTransition(m, Jumping, Dead);
    assert m.guards[0](Jumping, Dead);
    AcceptedRequest(m, Dead);
  }

  lemma SixthInvalid()
    ensures BackToPrevious(AfterFifth())
         == Step(AfterFifth(), false, [OnRefused(Logger, Some(Dead), Jumping, InvalidTransition)])
  {
    SetupIsConfigured();
    var m := AfterFifth();
    assert Configured(m);
    assert m.history[|m.history| - 1].0 == Jumping;
    assert !IsValidTransition(m, Dead, Jumping);
    RefusalReasons(m, Jumping);
    RefusedRequest(m, Jumping, InvalidTransition);
  }

  /**
    The demonstration's requests and their outcomes: an already-in-target
    refusal, a move, a guard veto, a move once the guard's stamina is raised
    (modelled by replacing the shared guard's predicate), a move through the
    wildcard target, and an undo refused for want of an edge back. Each
    request is made on the machine the previous one left. The source's own
    undo would read past the end of the history at the last step.
  */
  lemma DemoScenario()
    ensures TransitionTo(Setup(), Idle) == Step(Setup(), false, [OnRefused(Logger, Some(Idle), Idle, AlreadyInTarget)])
    ensures TransitionTo(Setup(), Running)
         == Step(AfterSecond(), true, [OnExit(ExitLogger, Idle), OnTransition(Logger, Idle, Running)])
    ensures TransitionTo(AfterSecond(), Jumping)
         == Step(AfterSecond(), false, [OnRefused(Logger, Some(Running), Jumping, BlockedByGuard)])
    ensures TransitionTo(AfterSecond().(guards := [JumpGuard(5)]), Jumping)
         == Step(AfterFourth(), true, [OnExit(ExitLogger, Running), OnTransition(Logger, Running, Jumping)])
    ensures TransitionTo(AfterFourth(), Dead)
         == Step(AfterFifth(), true, [OnExit(ExitLogger, Jumping), OnTransition(Logger, Jumping, Dead)])
    ensures BackToPrevious(AfterFifth())
         == Step(AfterFifth(), false, [OnRefused(Logger, Some(Dead), Jumping, InvalidTransition)])
    ensures AfterFifth().history == [(Idle, Running), (Running, Jumping), (Jumping, Dead)]
    ensures UndoAsWritten.BackToPreviousAsWritten(AfterFifth()).None?
  {
    FirstRefused();
    SecondAccepted();
    ThirdBlocked();
    FourthAccepted();
    FifthAccepted();
    SixthInvalid();
  }
}
