/**
 Alarms are meant to be started again each time they have fired.  This holds unless the one callback of an alarm is
 dropped, or finds another period than the alarm was started with; then the handle stays and every later Start fails.
 */
module AlarmRestart {
  import opened QueueTimer
  import opened TimerRuns
  import opened Wrappers

  predicate Alarm(s: State, timer: nat) {
    timer in s.timers && s.timers[timer].period == 0
  }

  predicate FiredAlarm(s: State, timer: nat) {
    Alarm(s, timer) && s.timers[timer].fired
  }

  predicate LiveAlarm(s: State) {
    s.handle.Some? && Alarm(s, s.handle.value)
  }

  /** No callback and no Start is under way, and the object is not being destroyed. */
  predicate Quiet(s: State) {
    s.calls == map[] && s.start.None? && s.dtor == NotStarted
  }

  /** The handle is that of an alarm that has fired already. */
  predicate Stuck(s: State) {
    s.handle.Some? && FiredAlarm(s, s.handle.value)
  }

  /** The one callback of an alarm passes without deleting the timer. */
  predicate Loses(s: State, a: Action) {
    || (a.TryDtor? && AtPhase(s, a.thread, Dispatched) && Alarm(s, s.calls[a.thread].timer) && s.dtorCs != DtorFree)
    || (a.Body? && AtPhase(s, a.thread, InBody) && Alarm(s, s.calls[a.thread].timer) && s.period != 0)
  }

  predicate LosesIn(s: State, actions: seq<Action>)
    decreases |actions|
  {
    actions != [] && (|| Loses(s, actions[0])
                      || (Next(s, actions[0]).Some? && LosesIn(Next(s, actions[0]).value, actions[1..])))
  }

  // ---------------------------------------------------------------- nothing lost so far

  /** A callback of the timer has not reached the user's code yet. */
  ghost predicate Pending(s: State, timer: nat) {
    exists a :: a in s.calls && s.calls[a].timer == timer && BeforeUser(s.calls[a].phase)
  }

  /** An alarm that has fired and still is the object's own is about to be deleted. */
  ghost predicate NothingLost(s: State) {
    forall k :: Current(s, k) && FiredAlarm(s, k) ==> Pending(s, k)
  }

  lemma PendingStays(s: State, t: State, k: nat)
    requires forall a :: a in s.calls && s.calls[a].timer == k && BeforeUser(s.calls[a].phase) ==>
               a in t.calls && t.calls[a].timer == k && BeforeUser(t.calls[a].phase)
    ensures Pending(s, k) ==> Pending(t, k)
  {
    if Pending(s, k) {
      var a :| a in s.calls && s.calls[a].timer == k && BeforeUser(s.calls[a].phase);
      assert a in t.calls;
    }
  }

  /** A callback only changes the state of its own thread. */
  lemma OtherCalls(s: State, a: Action, t: State, b: nat)
    requires !IsStart(a) && !IsDtor(a) && CallbackNext(s, a) == Some(t) && b != a.thread
    ensures b in s.calls <==> b in t.calls
    ensures b in s.calls ==> t.calls[b] == s.calls[b]
  {
  }

  /** The callback of an alarm that is not lost moves on, unless it has deleted its timer. */
  lemma OwnCall(s: State, a: Action, t: State)
    requires Inv(s) && !IsStart(a) && !IsDtor(a) && CallbackNext(s, a) == Some(t) && !Loses(s, a)
    requires a.thread in s.calls && BeforeUser(s.calls[a.thread].phase) && Alarm(s, s.calls[a.thread].timer)
    requires Current(t, s.calls[a.thread].timer)
    ensures a.thread in t.calls && t.calls[a.thread].timer == s.calls[a.thread].timer && BeforeUser(t.calls[a.thread].phase)
  {
    hide LocksInv, DtorInv;
  }

  /** A step that loses no alarm keeps every pending callback of a timer that is current afterwards. */
  lemma CallbackPending(s: State, a: Action, t: State, k: nat)
    requires Inv(s) && !IsStart(a) && !IsDtor(a) && CallbackNext(s, a) == Some(t) && !Loses(s, a)
    requires Pending(s, k) && Alarm(s, k) && Current(t, k)
    ensures Pending(t, k)
  {
    var b :| b in s.calls && s.calls[b].timer == k && BeforeUser(s.calls[b].phase);
    if b == a.thread {
      OwnCall(s, a, t);
    } else {
      OtherCalls(s, a, t, b);
    }
    hide CallbackNext, Inv, Loses;
    assert b in t.calls;
  }

  lemma StartNothingLost(s: State, a: Action, t: State)
    requires Inv(s) && IsStart(a) && StartNext(s, a) == Some(t) && NothingLost(s)
    ensures NothingLost(t)
  {
    forall k | Current(t, k) && FiredAlarm(t, k)
      ensures Pending(t, k)
    {
      PendingStays(s, t, k);
    }
  }

  lemma CallbackNothingLost(s: State, a: Action, t: State)
    requires Inv(s) && !IsStart(a) && !IsDtor(a) && CallbackNext(s, a) == Some(t) && NothingLost(s) && !Loses(s, a)
    ensures NothingLost(t)
  {
    forall k | Current(t, k) && FiredAlarm(t, k)
      ensures Pending(t, k)
    {
      CallbackCurrent(s, a, t, k);
      if FiredAlarm(s, k) {
        CallbackPending(s, a, t, k);
      } else {
        assert a.thread in t.calls;
      }
    }
  }

  /** No callback makes a timer the object's own, and only a dispatch makes one fire. */
  lemma CallbackCurrent(s: State, a: Action, t: State, k: nat)
    requires !IsStart(a) && !IsDtor(a) && CallbackNext(s, a) == Some(t) && Current(t, k) && FiredAlarm(t, k)
    ensures Current(s, k) && Alarm(s, k)
    ensures FiredAlarm(s, k) || (a.Dispatch? && a.timer == k && t.calls == s.calls[a.thread := Call(k, Dispatched)])
  {
  }

  lemma DtorNothingLost(s: State, a: Action, t: State)
    requires Inv(s) && IsDtor(a) && DtorNext(s, a) == Some(t) && NothingLost(s)
    ensures NothingLost(t)
  {
    forall k | Current(t, k) && FiredAlarm(t, k)
      ensures Pending(t, k)
    {
      PendingStays(s, t, k);
    }
  }

  lemma StepNothingLost(s: State, a: Action, t: State)
    requires Inv(s) && Next(s, a) == Some(t) && NothingLost(s) && !Loses(s, a)
    ensures NothingLost(t)
  {
    hide Inv, NothingLost, Loses, StartNext, CallbackNext, DtorNext;
    if IsStart(a) {
      StartNothingLost(s, a, t);
    } else if IsDtor(a) {
      DtorNothingLost(s, a, t);
    } else {
      CallbackNothingLost(s, a, t);
    }
  }

  // ---------------------------------------------------------------- an alarm is lost

  /** The object's own timer is an alarm that has fired, and no callback of it will delete it. */
  ghost predicate Lost(s: State, k: nat) {
    s.dtor == NotStarted && Current(s, k) && FiredAlarm(s, k) && !Pending(s, k)
  }

  /** An alarm has one callback. */
  lemma OneCall(s: State, thread: nat)
    requires TimersInv(s) && thread in s.calls && Alarm(s, s.calls[thread].timer)
    ensures forall b :: b in s.calls && b != thread ==> s.calls[b].timer != s.calls[thread].timer
  {
    forall b | b in s.calls && b != thread
      ensures s.calls[b].timer != s.calls[thread].timer
    {
      assert !SameAlarm(s, s.calls[b].timer, s.calls[thread].timer);
    }
  }

  lemma LosesLost(s: State, a: Action, t: State)
    requires Inv(s) && s.dtor == NotStarted && Next(s, a) == Some(t) && Loses(s, a)
    ensures exists k :: Lost(t, k)
  {
    var k := s.calls[a.thread].timer;
    OneCall(s, a.thread);
    hide SameAlarm;
    assert Lost(t, k);
  }

  lemma StartKeepsLost(s: State, a: Action, t: State, k: nat)
    requires Inv(s) && IsStart(a) && StartNext(s, a) == Some(t) && Lost(s, k)
    ensures Lost(t, k)
  {
    PendingStays(t, s, k);
  }

  lemma CallbackKeepsLost(s: State, a: Action, t: State, k: nat)
    requires Inv(s) && !IsStart(a) && !IsDtor(a) && CallbackNext(s, a) == Some(t) && Lost(s, k)
    ensures Lost(t, k)
  {
    CallbackKeepsCurrent(s, a, t, k);
    if Pending(t, k) {
      var b :| b in t.calls && t.calls[b].timer == k && BeforeUser(t.calls[b].phase);
      if b == a.thread {
        CallCame(s, a, t);
      } else {
        OtherCalls(s, a, t, b);
      }
      hide CallbackNext, Inv;
      assert false;
    }
  }

  lemma CallCame(s: State, a: Action, t: State)
    requires !IsStart(a) && !IsDtor(a) && CallbackNext(s, a) == Some(t)
    requires a.thread in t.calls && BeforeUser(t.calls[a.thread].phase)
    ensures || (&& a.thread in s.calls && s.calls[a.thread].timer == t.calls[a.thread].timer
                && BeforeUser(s.calls[a.thread].phase))
            || (a.Dispatch? && t.calls[a.thread].timer == a.timer && !FiredAlarm(s, a.timer))
  {
  }

  lemma CallbackKeepsCurrent(s: State, a: Action, t: State, k: nat)
    requires Inv(s) && !IsStart(a) && !IsDtor(a) && CallbackNext(s, a) == Some(t) && Lost(s, k)
    ensures Current(t, k) && FiredAlarm(t, k) && t.dtor == NotStarted
  {
    if a.Body? {
      // It would be a callback of the lost alarm.
      assert false;
    }
    hide Inv, Pending;
  }

  /** There is no way back, short of destroying the object. */
  lemma StepLost(s: State, a: Action, t: State, k: nat)
    requires Inv(s) && Next(s, a) == Some(t) && Lost(s, k) && t.dtor == NotStarted
    ensures Lost(t, k)
  {
    hide Inv, StartNext, CallbackNext, Lost;
    if IsStart(a) {
      StartKeepsLost(s, a, t, k);
    } else if !IsDtor(a) {
      CallbackKeepsLost(s, a, t, k);
    } else {
      assert s.dtor == NotStarted by { DtorStays(s, a, t); }
    }
  }

  lemma DtorStays(s: State, a: Action, t: State)
    requires Next(s, a) == Some(t) && t.dtor == NotStarted
    ensures s.dtor == NotStarted
  {
  }

  lemma {:induction false} RunDtorStays(s: State, actions: seq<Action>, t: State)
    requires Run(s, actions) == Some(t) && t.dtor == NotStarted
    ensures s.dtor == NotStarted
    decreases |actions|
  {
    hide Next;
    if actions != [] {
      var u := Next(s, actions[0]).value;
      RunDtorStays(u, actions[1..], t);
      DtorStays(s, actions[0], u);
    }
  }

  lemma {:induction false} RunLost(s: State, actions: seq<Action>, t: State, k: nat)
    requires Inv(s) && DisciplinedRun(s, actions) && Run(s, actions) == Some(t) && Lost(s, k) && t.dtor == NotStarted
    ensures Lost(t, k)
    decreases |actions|
  {
    hide Inv, Next, Disciplined, Lost;
    if actions != [] {
      var u := Next(s, actions[0]).value;
      NextKeepsInv(s, actions[0], u);
      RunDtorStays(u, actions[1..], t);
      StepLost(s, actions[0], u, k);
      RunLost(u, actions[1..], t, k);
    }
  }

  /** A run loses an alarm, or leaves nothing lost. */
  lemma {:induction false} RunOutcome(s: State, actions: seq<Action>, t: State)
    requires Inv(s) && NothingLost(s) && DisciplinedRun(s, actions) && Run(s, actions) == Some(t) && t.dtor == NotStarted
    ensures if LosesIn(s, actions) then exists k :: Lost(t, k) else NothingLost(t)
    decreases |actions|
  {
    hide Inv, Next, Disciplined, Lost, Loses, NothingLost;
    if actions != [] {
      var u := Next(s, actions[0]).value;
      NextKeepsInv(s, actions[0], u);
      RunDtorStays(u, actions[1..], t);
      if Loses(s, actions[0]) {
        DtorStays(s, actions[0], u);
        LosesLost(s, actions[0], u);
        var k :| Lost(u, k);
        RunLost(u, actions[1..], t, k);
      } else {
        StepNothingLost(s, actions[0], u);
        RunOutcome(u, actions[1..], t);
      }
    }
  }

  /** When all is quiet, the handle is that of an alarm that has fired if and only if the run lost an alarm. */
  lemma StuckExact(s: State, actions: seq<Action>, t: State)
    requires Init(s) && DisciplinedRun(s, actions) && Run(s, actions) == Some(t) && Quiet(t)
    ensures Stuck(t) <==> LosesIn(s, actions)
  {
    InitInv(s);
    hide Inv;
    RunOutcome(s, actions, t);
    if LosesIn(s, actions) {
      var k :| Lost(t, k);
    } else {
      assert t.handle.Some? ==> Current(t, t.handle.value);
    }
  }

  // ---------------------------------------------------------------- what follows

  lemma StuckStep(s: State, a: Action, t: State)
    requires Inv(s) && s.calls == map[] && Stuck(s) && Next(s, a) == Some(t) && t.dtor == NotStarted
    ensures Disciplined(s, a)
    ensures t.calls == map[] && Stuck(t) && t.handle == s.handle
  {
  }

  /** A stuck object stays so until it is destroyed: whatever is called, no callback comes and no Start succeeds. */
  lemma {:induction false} StuckForever(s: State, actions: seq<Action>, t: State)
    requires Inv(s) && s.calls == map[] && Stuck(s) && Run(s, actions) == Some(t) && t.dtor == NotStarted
    ensures t.calls == map[] && Stuck(t) && t.handle == s.handle
    ensures forall period, timer :: StartCreate(period, timer) !in actions
    decreases |actions|
  {
    hide Inv, Next, Disciplined, Stuck;
    if actions != [] {
      var u := Next(s, actions[0]).value;
      RunDtorStays(u, actions[1..], t);
      StuckStep(s, actions[0], u);
      NextKeepsInv(s, actions[0], u);
      StuckForever(u, actions[1..], t);
      StuckRefuses(s, actions[0]);
      assert forall a :: a in actions ==> a == actions[0] || a in actions[1..];
    }
  }

  lemma StuckRefuses(s: State, a: Action)
    requires Stuck(s)
    ensures a.StartCreate? ==> Next(s, a).None?
  {
  }

  // ---------------------------------------------------------------- a rule for callers

  /**
   An alarm is not started while a callback is under way, and no Start with a period is attempted while an alarm is
   live.
   */
  predicate Careful(s: State, a: Action) {
    && (a.StartCreate? && a.period == 0 ==> s.dtorCs == DtorFree)
    && (a.StartReject? && a.period > 0 ==> !LiveAlarm(s))
  }

  ghost predicate CarefulRun(s: State, actions: seq<Action>)
    decreases |actions|
  {
    actions == [] || (Disciplined(s, actions[0]) && Careful(s, actions[0])
                      && (Next(s, actions[0]).Some? ==> CarefulRun(Next(s, actions[0]).value, actions[1..])))
  }

  /** dtorCs is free for the callback of a current alarm, or held by it. */
  predicate FreeFor(s: State, timer: nat) {
    s.dtorCs == DtorFree || (s.dtorCs.DtorCall? && s.dtorCs.thread in s.calls && s.calls[s.dtorCs.thread].timer == timer)
  }

  ghost predicate CarefulInv(s: State) {
    s.dtor == NotStarted ==> forall k :: Current(s, k) && Alarm(s, k) ==> s.period == 0 && FreeFor(s, k)
  }

  lemma CarefulStart(s: State, a: Action, t: State)
    requires Inv(s) && IsStart(a) && StartNext(s, a) == Some(t) && CarefulInv(s) && Careful(s, a)
    ensures CarefulInv(t)
  {
  }

  /** No callback makes a timer the object's own. */
  lemma CallbackOwns(s: State, a: Action, t: State, k: nat)
    requires !IsStart(a) && !IsDtor(a) && CallbackNext(s, a) == Some(t) && Current(t, k) && Alarm(t, k)
    ensures Current(s, k) && Alarm(s, k) && t.period == s.period && t.dtor == s.dtor
  {
  }

  lemma OneCurrent(s: State, j: nat, k: nat)
    requires StartInv(s) && Current(s, j) && Current(s, k)
    ensures j == k
  {
  }

  lemma CallbackFreeFor(s: State, a: Action, t: State, k: nat)
    requires Inv(s) && !IsStart(a) && !IsDtor(a) && CallbackNext(s, a) == Some(t) && Current(s, k) && FreeFor(s, k)
    ensures FreeFor(t, k)
  {
    if a.TryDtor? {
      OneCurrent(s, s.calls[a.thread].timer, k);
    }
    hide TimersInv, StartInv, DtorInv, Current;
  }

  lemma CarefulCallback(s: State, a: Action, t: State)
    requires Inv(s) && !IsStart(a) && !IsDtor(a) && CallbackNext(s, a) == Some(t) && CarefulInv(s)
    ensures CarefulInv(t)
  {
    hide Inv, CallbackNext, Current, FreeFor, Alarm;
    forall k | t.dtor == NotStarted && Current(t, k) && Alarm(t, k)
      ensures t.period == 0 && FreeFor(t, k)
    {
      CallbackOwns(s, a, t, k);
      CallbackFreeFor(s, a, t, k);
    }
  }

  lemma CarefulStep(s: State, a: Action, t: State)
    requires Inv(s) && Next(s, a) == Some(t) && CarefulInv(s) && Careful(s, a) && t.dtor == NotStarted
    ensures CarefulInv(t) && !Loses(s, a)
  {
    DtorStays(s, a, t);
    CarefulLosesNot(s, a);
    hide Inv, StartNext, CallbackNext, CarefulInv, Careful, Loses;
    if IsStart(a) {
      CarefulStart(s, a, t);
    } else if !IsDtor(a) {
      CarefulCallback(s, a, t);
    }
  }

  lemma CarefulLosesNot(s: State, a: Action)
    requires Inv(s) && CarefulInv(s) && s.dtor == NotStarted
    ensures !Loses(s, a)
  {
    if a.TryDtor? && AtPhase(s, a.thread, Dispatched) && Alarm(s, s.calls[a.thread].timer) {
      OneCall(s, a.thread);
      assert FreeFor(s, s.calls[a.thread].timer);
    }
  }

  lemma {:induction false} CarefulLoses(s: State, actions: seq<Action>, t: State)
    requires Inv(s) && CarefulInv(s) && CarefulRun(s, actions) && Run(s, actions) == Some(t) && t.dtor == NotStarted
    ensures !LosesIn(s, actions) && DisciplinedRun(s, actions)
    decreases |actions|
  {
    hide Inv, CarefulInv, Next, Careful, Disciplined, Loses;
    if actions != [] {
      var u := Next(s, actions[0]).value;
      RunDtorStays(u, actions[1..], t);
      CarefulStep(s, actions[0], u);
      NextKeepsInv(s, actions[0], u);
      CarefulLoses(u, actions[1..], t);
    }
  }

  /** Callers that keep the rule never find the object stuck. */
  lemma CarefulRestarts(s: State, actions: seq<Action>, t: State)
    requires Init(s) && CarefulRun(s, actions) && Run(s, actions) == Some(t) && Quiet(t)
    ensures !Stuck(t)
  {
    InitInv(s);
    hide Inv;
    CarefulLoses(s, actions, t);
    StuckExact(s, actions, t);
  }

  // ---------------------------------------------------------------- the rule is needed

  /** Some continuation that keeps both rules loses an alarm. */
  ghost predicate CanLose(s: State) {
    exists actions :: LosesFor(s, actions)
  }

  ghost predicate LosesFor(s: State, actions: seq<Action>) {
    CarefulRun(s, actions) && Run(s, actions).Some? && exists k :: Lost(Run(s, actions).value, k)
  }

  lemma LostNow(s: State, k: nat)
    requires Lost(s, k)
    ensures CanLose(s)
  {
    hide Lost;
    assert Run(s, []) == Some(s);
    assert LosesFor(s, []);
  }

  lemma LoseLater(s: State, a: Action, t: State)
    requires Next(s, a) == Some(t) && Disciplined(s, a) && Careful(s, a) && CanLose(t)
    ensures CanLose(s)
  {
    hide Lost, Next, Disciplined, Careful;
    var actions :| LosesFor(t, actions);
    var all := [a] + actions;
    assert all[0] == a && all[1..] == actions;
    assert Run(s, all) == Run(t, actions);
    assert LosesFor(s, all);
  }

  lemma LosesCan(s: State, a: Action, t: State)
    requires Inv(s) && s.dtor == NotStarted && Next(s, a) == Some(t) && Loses(s, a)
    ensures CanLose(s)
  {
    hide Inv, CanLose, Next, Lost;
    LosesLost(s, a, t);
    var k :| Lost(t, k);
    LostNow(t, k);
    LoseLater(s, a, t);
  }

  lemma AlarmDispatched(s: State, k: nat) returns (thread: nat, t: State)
    requires Inv(s) && s.dtor == NotStarted && Current(s, k) && Alarm(s, k) && !s.timers[k].fired
    ensures Next(s, Dispatch(k, thread)) == Some(t) && Disciplined(s, Dispatch(k, thread)) && Inv(t)
    ensures t.dtor == NotStarted && t.dtorCs == s.dtorCs
    ensures AtPhase(t, thread, Dispatched) && t.calls[thread].timer == k && Alarm(t, k)
  {
    thread := FreshThread(s.calls, if s.start.Some? then s.start.value.thread else 0);
    assert !s.timers[k].deleting;
    hide Inv;
    t := Next(s, Dispatch(k, thread)).value;
    NextKeepsInv(s, Dispatch(k, thread), t);
  }

  /** An alarm that is dispatched while another callback is under way is dropped. */
  lemma DroppedCan(s: State, k: nat)
    requires Inv(s) && s.dtor == NotStarted && Current(s, k) && Alarm(s, k) && !s.timers[k].fired && s.dtorCs != DtorFree
    ensures CanLose(s)
  {
    hide Inv, CanLose;
    var thread, t := AlarmDispatched(s, k);
    LosesCan(t, TryDtor(thread), Next(t, TryDtor(thread)).value);
    hide Next;
    LoseLater(s, Dispatch(k, thread), t);
  }

  /** An alarm that was started while a callback is under way. */
  lemma StartDuringCan(s: State, a: Action, t: State)
    requires Inv(s) && a.StartCreate? && a.period == 0 && s.dtorCs != DtorFree && Next(s, a) == Some(t)
    ensures CanLose(t)
  {
    NextKeepsInv(s, a, t);
    assert t.dtor == NotStarted;
    hide Inv, CanLose;
    DroppedCan(t, a.timer);
  }

  /** An alarm is live, but period_ says that it is a periodic timer. */
  ghost predicate WrongPeriod(s: State) {
    Inv(s) && s.start.None? && s.cs == CsFree && s.dtor == NotStarted && LiveAlarm(s) && s.period > 0
  }

  lemma HasLockCan(s: State, c: nat)
    requires WrongPeriod(s) && AtPhase(s, c, HasDtorLock)
    ensures CanLose(s)
  {
    var t := Next(s, EnterCs(c)).value;
    NextKeepsInv(s, EnterCs(c), t);
    assert s.handle == Some(s.calls[c].timer);
    hide Inv, CanLose;
    LosesCan(t, Body(c), Next(t, Body(c)).value);
    LoseLater(s, EnterCs(c), t);
  }

  lemma DispatchedCan(s: State, c: nat)
    requires WrongPeriod(s) && AtPhase(s, c, Dispatched) && s.dtorCs == DtorFree
    ensures CanLose(s)
  {
    var t := Next(s, TryDtor(c)).value;
    NextKeepsInv(s, TryDtor(c), t);
    hide Inv, CanLose;
    HasLockCan(t, c);
    LoseLater(s, TryDtor(c), t);
  }

  lemma UnfiredCan(s: State)
    requires WrongPeriod(s) && !s.timers[s.handle.value].fired && s.dtorCs == DtorFree
    ensures CanLose(s)
  {
    var c := FreshThread(s.calls, 0);
    assert !s.timers[s.handle.value].deleting;
    var t := Next(s, Dispatch(s.handle.value, c)).value;
    NextKeepsInv(s, Dispatch(s.handle.value, c), t);
    hide Inv, CanLose;
    DispatchedCan(t, c);
    LoseLater(s, Dispatch(s.handle.value, c), t);
  }

  /** A Start with a period was rejected while an alarm is live, and has not been left yet. */
  ghost predicate Rejected(s: State) {
    Inv(s) && s.start.Some? && s.start.value.phase == Finished && LiveAlarm(s) && s.period > 0
  }

  lemma RejectedWrong(s: State) returns (t: State)
    requires Rejected(s) && s.start.value.thread !in s.calls
    ensures Next(s, StartLeave) == Some(t) && Disciplined(s, StartLeave) && Careful(s, StartLeave)
    ensures WrongPeriod(t) && t.timers == s.timers && t.handle == s.handle && t.calls == s.calls && t.dtorCs == s.dtorCs
  {
    t := Next(s, StartLeave).value;
    NextKeepsInv(s, StartLeave, t);
    assert s.dtor == NotStarted;
    hide Inv;
  }

  lemma RejectedCan(s: State, c: nat)
    requires Rejected(s)
    requires || AtPhase(s, c, HasDtorLock)
             || (s.dtorCs == DtorFree && (AtPhase(s, c, Dispatched) || !s.timers[s.handle.value].fired))
    ensures CanLose(s)
  {
    hide CanLose;
    assert s.start.value.thread !in s.calls;
    hide Inv, Lost;
    var t := RejectedWrong(s);
    hide WrongPeriod, Next, Disciplined, Careful, Rejected;
    if AtPhase(t, c, HasDtorLock) {
      HasLockCan(t, c);
    } else if AtPhase(t, c, Dispatched) {
      DispatchedCan(t, c);
    } else {
      UnfiredCan(t);
    }
    LoseLater(s, StartLeave, t);
  }

  lemma PeriodCan(s: State)
    requires Rejected(s)
    ensures CanLose(s)
  {
    hide CanLose;
    var k := s.handle.value;
    assert s.dtor == NotStarted;
    if s.timers[k].fired && !Pending(s, k) {
      LostNow(s, k);
    } else if s.timers[k].fired {
      var c :| c in s.calls && s.calls[c].timer == k && BeforeUser(s.calls[c].phase);
      // In cs is the Start, so this callback is not.
      assert s.calls[c].phase != InBody;
      hide Inv;
      if AtPhase(s, c, Dispatched) && s.dtorCs != DtorFree {
        LosesCan(s, TryDtor(c), Next(s, TryDtor(c)).value);
      } else {
        RejectedCan(s, c);
      }
    } else if s.dtorCs != DtorFree {
      DroppedCan(s, k);
    } else {
      RejectedCan(s, 0);
    }
  }

  lemma PeriodRejected(s: State, a: Action, t: State)
    requires Inv(s) && a.StartReject? && a.period > 0 && LiveAlarm(s) && Next(s, a) == Some(t)
    ensures Rejected(t)
  {
    NextKeepsInv(s, a, t);
    hide Inv;
  }

  /** Once the rule is broken, an alarm can be lost even if it is not broken again; RunLost says that it stays so. */
  lemma RuleNeeded(s: State, a: Action, t: State)
    requires Inv(s) && Next(s, a) == Some(t) && !Careful(s, a)
    ensures CanLose(t)
  {
    hide Inv, CanLose, Next, Rejected;
    if a.StartCreate? {
      StartDuringCan(s, a, t);
    } else {
      PeriodRejected(s, a, t);
      PeriodCan(t);
    }
  }

  /** As long as the rule is kept, no alarm is lost. */
  lemma CarefulCannotLose(s: State)
    requires Inv(s) && CarefulInv(s) && NothingLost(s)
    ensures !CanLose(s)
  {
    hide Inv, CarefulInv, Next;
    if CanLose(s) {
      var actions :| LosesFor(s, actions);
      var t := Run(s, actions).value;
      var k :| Lost(t, k);
      hide CarefulRun, DisciplinedRun, Run, LosesIn;
      CarefulLoses(s, actions, t);
      RunOutcome(s, actions, t);
      assert false;
    }
  }

  lemma {:induction false} CarefulReaches(s: State, actions: seq<Action>, t: State)
    requires Inv(s) && CarefulInv(s) && NothingLost(s) && CarefulRun(s, actions) && Run(s, actions) == Some(t)
    requires t.dtor == NotStarted
    ensures Inv(t) && CarefulInv(t) && NothingLost(t)
    decreases |actions|
  {
    hide Inv, CarefulInv, NothingLost, Next, Careful, Disciplined;
    if actions != [] {
      var u := Next(s, actions[0]).value;
      RunDtorStays(u, actions[1..], t);
      CarefulStep(s, actions[0], u);
      NextKeepsInv(s, actions[0], u);
      StepNothingLost(s, actions[0], u);
      CarefulReaches(u, actions[1..], t);
    }
  }

  /**
   The rule is exactly what is needed: after any run that kept it, a further step keeps it if and only if no alarm can
   be lost from then on.
   */
  lemma RuleExact(s: State, actions: seq<Action>, t: State, a: Action, u: State)
    requires Init(s) && CarefulRun(s, actions) && Run(s, actions) == Some(t)
    requires Next(t, a) == Some(u) && Disciplined(t, a) && u.dtor == NotStarted
    ensures Careful(t, a) <==> !CanLose(u)
  {
    InitInv(s);
    assert CarefulInv(s) && NothingLost(s);
    hide Inv, CarefulInv, NothingLost, CanLose, Next, Careful, Disciplined;
    DtorStays(t, a, u);
    CarefulReaches(s, actions, t);
    if Careful(t, a) {
      CarefulStep(t, a, u);
      NextKeepsInv(t, a, u);
      StepNothingLost(t, a, u);
      CarefulCannotLose(u);
    } else {
      RuleNeeded(t, a, u);
    }
  }

  // ---------------------------------------------------------------- a run

  /** A callback gets as far as the user's code. */
  function Fire(thread: nat, timer: nat): seq<Action> {
    [Dispatch(timer, thread), TryDtor(thread), EnterCs(thread), Body(thread)]
  }

  /** A callback is dropped while that of another thread returns. */
  function FireDuring(thread: nat, timer: nat, other: nat): seq<Action> {
    [Dispatch(timer, thread), TryDtor(thread), UserReturns(other), LeaveCs(other)]
  }

  /** A quiet object without a handle can be started, as an alarm or with a period. */
  lemma QuietStarts(s: State, thread: nat, period: nat, timer: nat)
    requires Inv(s) && Quiet(s) && s.handle.None? && timer !in s.timers
    ensures Run(s, StartSteps(thread, period, timer)) ==
            Some(s.(handle := Some(timer), period := period, timers := s.timers[timer := Timer(period, false, false)]))
  {
    assert s.cs == CsFree;
    hide *;
    Started(s, thread, period, timer);
  }

  lemma AlarmFires(s: State, thread: nat, timer: nat)
    requires Quiet(s) && s.cs == CsFree && s.dtorCs == DtorFree && s.period == 0
    requires s.handle == Some(timer) && timer in s.timers && s.timers[timer] == Timer(0, false, false)
    ensures Run(s, Fire(thread, timer)) ==
            Some(s.(handle := None, timers := s.timers[timer := Timer(0, true, true)],
                    calls := map[thread := Call(timer, InUser)], cs := CsCall(thread), dtorCs := DtorCall(thread)))
  {
    var l := Fire(thread, timer);
    var s1 := Next(s, l[0]).value;
    var s2 := Next(s1, l[1]).value;
    var s3 := Next(s2, l[2]).value;
    var t := Next(s3, l[3]).value;
    assert t.timers == s.timers[timer := Timer(0, true, true)];
    assert t.calls == map[thread := Call(timer, InUser)];
    FourSteps(s, l, s1, s2, s3, t);
  }

  lemma AlarmDropped(s: State, thread: nat, timer: nat, other: nat, earlier: nat)
    requires s.calls == map[other := Call(earlier, InUser)] && s.cs == CsCall(other) && s.dtorCs == DtorCall(other)
    requires s.start.None? && thread != other && timer in s.timers && s.timers[timer] == Timer(0, false, false)
    ensures Run(s, FireDuring(thread, timer, other)) ==
            Some(s.(timers := s.timers[timer := Timer(0, true, false)], calls := map[other := Call(earlier, LeavingDtor)],
                    cs := CsFree))
  {
    var l := FireDuring(thread, timer, other);
    var s1 := Next(s, l[0]).value;
    var s2 := Next(s1, l[1]).value;
    assert s2.calls == s.calls;
    var s3 := Next(s2, l[2]).value;
    var t := Next(s3, l[3]).value;
    assert t.calls == map[other := Call(earlier, LeavingDtor)];
    FourSteps(s, l, s1, s2, s3, t);
  }

  lemma LastLeaves(s: State, thread: nat, timer: nat)
    requires s.calls == map[thread := Call(timer, LeavingDtor)]
    ensures Run(s, [LeaveDtor(thread)]) == Some(s.(calls := map[], dtorCs := DtorFree))
  {
    assert s.calls - {thread} == map[];
    assert [LeaveDtor(thread)][1..] == [];
  }

  /** The user's callback of timer 0 is running, in thread 2. */
  function InCallback(): State {
    State(None, 0, map[0 := Timer(0, true, true)], map[2 := Call(0, InUser)], None, CsCall(2), DtorCall(2), NotStarted)
  }

  function StuckState(): State {
    State(Some(1), 0, map[0 := Timer(0, true, true), 1 := Timer(0, true, false)], map[], None, CsFree, DtorFree, NotStarted)
  }

  lemma FirstAlarm(s: State)
    requires Init(s)
    ensures Run(s, StartSteps(1, 0, 0) + Fire(2, 0)) == Some(InCallback())
  {
    hide Run, Next, StartSteps, Fire;
    Started(s, 1, 0, 0);
    var t := Run(s, StartSteps(1, 0, 0)).value;
    AlarmFires(t, 2, 0);
    RunConcat(s, StartSteps(1, 0, 0), t, Fire(2, 0));
    assert t.timers[0 := Timer(0, true, true)] == InCallback().timers;
  }

  /** Started again in the callback, the alarm fires before the callback has left dtorCs. */
  function SecondAlarm(): seq<Action> {
    StartSteps(2, 0, 1) + (FireDuring(3, 1, 2) + [LeaveDtor(2)])
  }

  lemma SecondAlarmLost()
    ensures Run(InCallback(), SecondAlarm()) == Some(StuckState())
  {
    hide Run, Next, StartSteps, FireDuring;
    var s := InCallback();
    Started(s, 2, 0, 1);
    var t := Run(s, StartSteps(2, 0, 1)).value;
    AlarmDropped(t, 3, 1, 2, 0);
    var u := Run(t, FireDuring(3, 1, 2)).value;
    LastLeaves(u, 2, 0);
    RunConcat(t, FireDuring(3, 1, 2), u, [LeaveDtor(2)]);
    RunConcat(s, StartSteps(2, 0, 1), t, FireDuring(3, 1, 2) + [LeaveDtor(2)]);
    assert u.timers == StuckState().timers;
  }

  function RestartInCallback(): seq<Action> {
    StartSteps(1, 0, 0) + Fire(2, 0) + SecondAlarm()
  }

  /** Callers that only do what alarms are meant for can find the object stuck. */
  lemma RestartFails(s: State)
    requires Init(s)
    ensures DisciplinedRun(s, RestartInCallback()) && Run(s, RestartInCallback()) == Some(StuckState())
    ensures Quiet(StuckState()) && Stuck(StuckState())
  {
    NoRejectDisciplined(s, RestartInCallback());
    hide DisciplinedRun, Run, Next, StartSteps, Fire, SecondAlarm, InCallback;
    FirstAlarm(s);
    SecondAlarmLost();
    RunConcat(s, StartSteps(1, 0, 0) + Fire(2, 0), InCallback(), SecondAlarm());
  }
}
