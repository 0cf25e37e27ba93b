/** Runs of the queue timer, put together from shorter ones. */
module TimerRuns {
  import opened QueueTimer
  import opened Wrappers

  lemma {:induction false} RunConcat(s: State, first: seq<Action>, t: State, rest: seq<Action>)
    requires Run(s, first) == Some(t)
    ensures Run(s, first + rest) == Run(t, rest)
    decreases |first|
  {
    hide Next;
    if first == [] {
      assert first + rest == rest;
    } else {
      assert (first + rest)[1..] == first[1..] + rest;
      RunConcat(Next(s, first[0]).value, first[1..], t, rest);
    }
  }

  /** Only a rejected Start can break the callers' rule. */
  lemma {:induction false} NoRejectDisciplined(s: State, actions: seq<Action>)
    requires forall a :: a in actions ==> !a.StartReject?
    ensures DisciplinedRun(s, actions)
    decreases |actions|
  {
    hide Next;
    if actions != [] && Next(s, actions[0]).Some? {
      NoRejectDisciplined(Next(s, actions[0]).value, actions[1..]);
    }
  }

  lemma FourSteps(s: State, l: seq<Action>, s1: State, s2: State, s3: State, t: State)
    requires |l| == 4 && Next(s, l[0]) == Some(s1) && Next(s1, l[1]) == Some(s2) && Next(s2, l[2]) == Some(s3)
    requires Next(s3, l[3]) == Some(t)
    ensures Run(s, l) == Some(t)
  {
    hide Next;
    assert l[3..][1..] == [] && l[2..][1..] == l[3..] && l[1..][1..] == l[2..];
    assert Run(s3, l[3..]) == Some(t);
    assert Run(s2, l[2..]) == Some(t);
    assert Run(s1, l[1..]) == Some(t);
  }

  /** Start from a thread outside of callbacks, or from the user's callback. */
  function StartSteps(thread: nat, period: nat, timer: nat): seq<Action> {
    [StartEnter(thread), StartCreate(period, timer), StartAssign, StartLeave]
  }

  lemma Started(s: State, thread: nat, period: nat, timer: nat)
    requires s.start.None? && s.dtor == NotStarted && s.handle.None? && timer !in s.timers
    requires if thread in s.calls then InUserCallback(s, thread) else s.cs == CsFree
    ensures Run(s, StartSteps(thread, period, timer)) ==
            Some(s.(handle := Some(timer), period := period, timers := s.timers[timer := Timer(period, false, false)]))
  {
    var l := StartSteps(thread, period, timer);
    var s1 := Next(s, l[0]).value;
    var s2 := Next(s1, l[1]).value;
    var s3 := Next(s2, l[2]).value;
    FourSteps(s, l, s1, s2, s3, Next(s3, l[3]).value);
  }

  // ---------------------------------------------------------------- destroyed with callbacks under way

  /** A periodic timer is live, and a callback of it has been dispatched. */
  function Ticking(): State {
    State(Some(0), 5, map[0 := Timer(5, true, false)], map[2 := Call(0, Dispatched)], None, CsFree, DtorFree, NotStarted)
  }

  /** The destructor holds its lock, and another callback has come. */
  function Closing(): State {
    State(Some(0), 5, map[0 := Timer(5, true, true)], map[2 := Call(0, Dispatched), 3 := Call(0, Dispatched)], None, CsFree,
          DtorDestructor, Deleting)
  }

  function Gone(): State {
    State(None, 0, map[0 := Timer(5, true, true)], map[], None, CsFree, DtorFree, Destroyed)
  }

  lemma OneStep(s: State, a: Action, t: State)
    requires Next(s, a) == Some(t)
    ensures Run(s, [a]) == Some(t)
  {
    hide Next;
    assert [a][1..] == [];
    assert Run(t, []) == Some(t);
  }

  lemma TimerTicks(s: State)
    requires Init(s)
    ensures Run(s, StartSteps(1, 5, 0) + [Dispatch(0, 2)]) == Some(Ticking())
  {
    Started(s, 1, 5, 0);
    var t := Run(s, StartSteps(1, 5, 0)).value;
    assert Next(t, Dispatch(0, 2)) == Some(Ticking()) by {
      assert t.timers[0 := Timer(5, true, false)] == Ticking().timers;
    }
    hide StartSteps, Next, Ticking;
    RunConcat(s, StartSteps(1, 5, 0), t, [Dispatch(0, 2)]);
    OneStep(t, Dispatch(0, 2), Ticking());
  }

  lemma DtorWaits()
    ensures Run(Ticking(), [DtorEnter, Dispatch(0, 3), DtorDelete]) == Some(Closing())
    ensures Next(Closing(), DtorDeleted) == None
  {
    var l := [DtorEnter, Dispatch(0, 3), DtorDelete];
    var s1 := Next(Ticking(), l[0]).value;
    var s2 := Next(s1, l[1]).value;
    assert s2.timers == map[0 := Timer(5, true, false)];
    assert s2.timers[0 := Timer(5, true, true)] == Closing().timers && s2.calls == Closing().calls;
    assert Next(s2, l[2]) == Some(Closing());
    assert l[1..][1..] == l[2..] && l[2..][1..] == [];
    assert Run(s2, l[2..]) == Some(Closing());
    assert Run(s1, l[1..]) == Some(Closing());
    assert 2 in Closing().calls && Closing().calls[2].timer == 0;
  }

  lemma CallbacksReturn()
    ensures Run(Closing(), [TryDtor(2), TryDtor(3), DtorDeleted, DtorLeave]) == Some(Gone())
  {
    var l := [TryDtor(2), TryDtor(3), DtorDeleted, DtorLeave];
    var s := Closing();
    var s1 := Next(s, l[0]).value;
    assert s1.calls == map[3 := Call(0, Dispatched)];
    var s2 := Next(s1, l[1]).value;
    assert s2.calls == map[];
    var s3 := Next(s2, l[2]).value;
    FourSteps(s, l, s1, s2, s3, Gone());
  }

  function DestroyedWhileTicking(): seq<Action> {
    StartSteps(1, 5, 0) + [Dispatch(0, 2)]
    + ([DtorEnter, Dispatch(0, 3), DtorDelete] + [TryDtor(2), TryDtor(3), DtorDeleted, DtorLeave])
  }

  /**
   A periodic timer is destroyed while one callback is dispatched before and one after the destructor has its lock: the
   blocking delete waits for both, which return at once, and the destructor ends.
   */
  lemma DestroyedRun(s: State)
    requires Init(s)
    ensures DisciplinedRun(s, DestroyedWhileTicking()) && Run(s, DestroyedWhileTicking()) == Some(Gone())
  {
    NoRejectDisciplined(s, DestroyedWhileTicking());
    TimerTicks(s);
    DtorWaits();
    CallbacksReturn();
    hide DisciplinedRun, Run, Next, StartSteps, Ticking, Closing, Gone;
    var last := [TryDtor(2), TryDtor(3), DtorDeleted, DtorLeave];
    RunConcat(Ticking(), [DtorEnter, Dispatch(0, 3), DtorDelete], Closing(), last);
    RunConcat(s, StartSteps(1, 5, 0) + [Dispatch(0, 2)], Ticking(), [DtorEnter, Dispatch(0, 3), DtorDelete] + last);
  }
}
