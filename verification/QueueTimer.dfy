/**
 The two-lock protocol of `QueueTimer` as a state machine.  Every statement that another thread can observe is
 a step; the kernel may dispatch callbacks at any time while a timer exists.  `cs` guards the object's state and
 may be re-entered by a callback that calls `Start`; `dtorCs` is held by a callback from its first test to its
 last statement, and by the destructor.

 What is assumed of the kernel: a timer created with period 0 is dispatched once; a deleted timer is not
 dispatched again; a blocking delete returns when the timer's callbacks have returned.
 */
module QueueTimer {
  import opened Wrappers

  /** A kernel timer. */
  datatype Timer = Timer(period: nat, fired: bool, deleting: bool)

  /** How far a dispatched callback has got. */
  datatype Phase = Dispatched | HasDtorLock | InBody | InUser | AfterUser | LeavingDtor

  datatype Call = Call(timer: nat, phase: Phase)

  /** How far `Start` has got, in the thread that runs it. */
  datatype StartPhase = Entered | Created(timer: nat) | Finished

  datatype Starting = Starting(thread: nat, phase: StartPhase)

  datatype DtorPhase = NotStarted | Holds | Deleting | Cleared | Destroyed

  datatype CsOwner = CsFree | CsCall(thread: nat) | CsStart(thread: nat)

  datatype DtorOwner = DtorFree | DtorCall(thread: nat) | DtorDestructor

  datatype State = State(
    handle: Option<nat>,        // timer_handle_
    period: nat,                // period_
    timers: map<nat, Timer>,    // what the kernel knows
    calls: map<nat, Call>,      // callbacks under way, by thread
    start: Option<Starting>,    // the Start that is inside cs
    cs: CsOwner,
    dtorCs: DtorOwner,
    dtor: DtorPhase)

  ghost predicate Init(s: State) {
    s == State(None, 0, map[], map[], None, CsFree, DtorFree, NotStarted)
  }

  datatype Action =
    | StartEnter(thread: nat)
    | StartReject(period: nat)
    | StartCreate(period: nat, timer: nat)
    | StartAssign
    | StartLeave
    | Dispatch(timer: nat, thread: nat)
    | TryDtor(thread: nat)
    | EnterCs(thread: nat)
    | Body(thread: nat)
    | UserReturns(thread: nat)
    | LeaveCs(thread: nat)
    | LeaveDtor(thread: nat)
    | DtorEnter
    | DtorDelete
    | DtorDeleted
    | DtorLeave

  /** The thread is in the user's callback, from which it may call Start again. */
  predicate InUserCallback(s: State, thread: nat) {
    thread in s.calls && s.calls[thread].phase == InUser
  }

  /** A call of Start with this period would turn a live periodic timer into an alarm: the caller's mistake. */
  predicate Demotes(s: State, period: nat) {
    period == 0 && s.handle.Some? && s.handle.value in s.timers && s.timers[s.handle.value].period > 0
  }

  /** The next state, or None when the thread cannot take this step now. */
  function When(guard: bool, t: State): Option<State> {
    if guard then Some(t) else None
  }

  function SetPhase(s: State, thread: nat, phase: Phase): map<nat, Call>
    requires thread in s.calls
  {
    s.calls[thread := s.calls[thread].(phase := phase)]
  }

  predicate AtPhase(s: State, thread: nat, phase: Phase) {
    thread in s.calls && s.calls[thread].phase == phase
  }

  predicate IsStart(a: Action) {
    a.StartEnter? || a.StartReject? || a.StartCreate? || a.StartAssign? || a.StartLeave?
  }

  predicate IsDtor(a: Action) {
    a.DtorEnter? || a.DtorDelete? || a.DtorDeleted? || a.DtorLeave?
  }

  // ---------------------------------------------------------------- Start

  function StartNext(s: State, a: Action): Option<State>
    requires IsStart(a)
  {
    match a
    case StartEnter(thread) =>
      // Not from a thread that the kernel uses for a callback, except inside the user's callback.
      When(s.start.None? && s.dtor == NotStarted
           && (if thread in s.calls then InUserCallback(s, thread) else s.cs == CsFree),
           s.(start := Some(Starting(thread, Entered)), cs := if thread in s.calls then s.cs else CsStart(thread)))
    case StartReject(period) =>
      // period_ is overwritten before the arguments and the handle are checked, and stays so if Start fails.
      if s.start.Some? && s.start.value.phase == Entered
      then Some(s.(period := period, start := Some(s.start.value.(phase := Finished))))
      else None
    case StartCreate(period, timer) =>
      if s.start.Some? && s.start.value.phase == Entered && s.handle.None? && timer !in s.timers
      then Some(s.(period := period, timers := s.timers[timer := Timer(period, false, false)],
                   start := Some(s.start.value.(phase := Created(timer)))))
      else None
    case StartAssign =>
      if s.start.Some? && s.start.value.phase.Created?
      then Some(s.(handle := Some(s.start.value.phase.timer), start := Some(s.start.value.(phase := Finished))))
      else None
    case StartLeave =>
      if s.start.Some? && s.start.value.phase == Finished
      then Some(s.(start := None, cs := if s.start.value.thread in s.calls then s.cs else CsFree))
      else None
  }

  // ---------------------------------------------------------------- TimerCallback

  function CallbackNext(s: State, a: Action): Option<State>
    requires !IsStart(a) && !IsDtor(a)
  {
    match a
    case Dispatch(timer, thread) =>
      if timer in s.timers && !s.timers[timer].deleting && (s.timers[timer].period > 0 || !s.timers[timer].fired)
         && thread !in s.calls && (s.start.Some? ==> s.start.value.thread != thread)
      then Some(s.(timers := s.timers[timer := s.timers[timer].(fired := true)],
                   calls := s.calls[thread := Call(timer, Dispatched)]))
      else None
    case TryDtor(thread) =>
      if !AtPhase(s, thread, Dispatched) then None
      else if s.dtorCs == DtorFree
      then Some(s.(dtorCs := DtorCall(thread), calls := SetPhase(s, thread, HasDtorLock)))
      else Some(s.(calls := s.calls - {thread}))
    case EnterCs(thread) =>
      if AtPhase(s, thread, HasDtorLock) && s.cs == CsFree
      then Some(s.(cs := CsCall(thread), calls := SetPhase(s, thread, InBody)))
      else None
    case Body(thread) =>
      // An alarm deletes its timer without waiting; then the user's callback runs.
      if !AtPhase(s, thread, InBody) then None
      else if s.period == 0 && s.handle.Some? && s.handle.value in s.timers
      then Some(s.(handle := None, calls := SetPhase(s, thread, InUser),
                   timers := s.timers[s.handle.value := s.timers[s.handle.value].(deleting := true)]))
      else Some(s.(calls := SetPhase(s, thread, InUser)))
    case UserReturns(thread) =>
      if AtPhase(s, thread, InUser) && (s.start.Some? ==> s.start.value.thread != thread)
      then Some(s.(calls := SetPhase(s, thread, AfterUser)))
      else None
    case LeaveCs(thread) =>
      if AtPhase(s, thread, AfterUser)
      then Some(s.(cs := CsFree, calls := SetPhase(s, thread, LeavingDtor)))
      else None
    case LeaveDtor(thread) =>
      When(AtPhase(s, thread, LeavingDtor), s.(dtorCs := DtorFree, calls := s.calls - {thread}))
  }

  // ---------------------------------------------------------------- the destructor

  function DtorNext(s: State, a: Action): Option<State>
    requires IsDtor(a)
  {
    match a
    case DtorEnter =>
      // Not while a Start is under way, and not from the callback.
      When(s.dtor == NotStarted && s.start.None? && s.dtorCs == DtorFree, s.(dtor := Holds, dtorCs := DtorDestructor))
    case DtorDelete =>
      if s.dtor != Holds then None
      else if s.handle.Some? && s.handle.value in s.timers
      then Some(s.(dtor := Deleting,
                   timers := s.timers[s.handle.value := s.timers[s.handle.value].(deleting := true)]))
      else Some(s.(dtor := Cleared, handle := None, period := 0))
    case DtorDeleted =>
      // The blocking delete returns: no callback of this timer is left.
      if s.dtor == Deleting && s.handle.Some? && forall thread :: thread in s.calls ==> s.calls[thread].timer != s.handle.value
      then Some(s.(dtor := Cleared, handle := None, period := 0))
      else None
    case DtorLeave =>
      When(s.dtor == Cleared, s.(dtor := Destroyed, dtorCs := DtorFree))
  }

  function Next(s: State, a: Action): Option<State> {
    if IsStart(a) then StartNext(s, a) else if IsDtor(a) then DtorNext(s, a) else CallbackNext(s, a)
  }

  /** The state after a sequence of steps, if each can be taken. */
  function Run(s: State, actions: seq<Action>): Option<State>
    decreases |actions|
  {
    if actions == [] then Some(s)
    else
      var t := Next(s, actions[0]);
      if t.None? then None else Run(t.value, actions[1..])
  }

  /** The rule callers must keep: no Start with period 0 while a periodic timer is live. */
  predicate Disciplined(s: State, a: Action) {
    a.StartReject? ==> !Demotes(s, a.period)
  }

  // ---------------------------------------------------------------- safety

  /** The user's callback runs in at most one thread. */
  ghost predicate OneCallback(s: State) {
    forall a, b :: InUserCallback(s, a) && InUserCallback(s, b) ==> a == b
  }

  /** Once the destructor is in its critical section no user callback runs; once it is done nothing is left at all. */
  ghost predicate QuietAfterDtor(s: State) {
    && (s.dtor != NotStarted ==> forall a :: !InUserCallback(s, a))
    && (s.dtor == Cleared || s.dtor == Destroyed ==> s.calls == map[] && s.handle.None? && s.period == 0)
  }

  /** DoCallback finds a live timer handle. */
  ghost predicate HandleInBody(s: State) {
    forall a :: a in s.calls && s.calls[a].phase == InBody ==> s.handle.Some?
  }

  ghost predicate Safe(s: State) {
    OneCallback(s) && QuietAfterDtor(s) && HandleInBody(s)
  }

  // ---------------------------------------------------------------- the invariant

  predicate HoldsCs(p: Phase) {
    p == InBody || p == InUser || p == AfterUser
  }

  predicate BeforeUser(p: Phase) {
    p == Dispatched || p == HasDtorLock || p == InBody
  }

  predicate InDtor(p: DtorPhase) {
    p == Holds || p == Deleting || p == Cleared
  }

  ghost predicate LocksInv(s: State) {
    && (forall a :: a in s.calls ==> (s.calls[a].phase != Dispatched <==> s.dtorCs == DtorCall(a)))
    && (s.dtorCs.DtorCall? ==> s.dtorCs.thread in s.calls)
    && (s.dtorCs.DtorDestructor? <==> InDtor(s.dtor))
    && (forall a :: a in s.calls ==> (HoldsCs(s.calls[a].phase) <==> s.cs == CsCall(a)))
    && (s.cs.CsCall? ==> s.cs.thread in s.calls)
  }

  ghost predicate StartInv(s: State) {
    && (s.cs.CsStart? ==> s.start.Some? && s.start.value.thread == s.cs.thread && s.cs.thread !in s.calls)
    && (s.start.Some? ==> s.dtor == NotStarted)
    && (s.start.Some? && s.start.value.thread in s.calls ==> InUserCallback(s, s.start.value.thread))
    && (s.start.Some? && s.start.value.thread !in s.calls ==> s.cs == CsStart(s.start.value.thread))
    && (s.start.Some? && s.start.value.phase.Created? ==>
          s.handle.None? && s.start.value.phase.timer in s.timers
          && (s.period == 0 ==> s.timers[s.start.value.phase.timer].period == 0))
  }

  /** The timer is the object's own: it has the handle, or Start is about to assign it. */
  predicate Current(s: State, timer: nat) {
    s.handle == Some(timer) || (s.start.Some? && s.start.value.phase == Created(timer))
  }

  predicate SameAlarm(s: State, a: nat, b: nat) {
    a == b && a in s.timers && s.timers[a].period == 0
  }

  ghost predicate TimersInv(s: State) {
    && (s.handle.Some? ==> s.handle.value in s.timers && (s.period == 0 ==> s.timers[s.handle.value].period == 0))
    && (forall k :: k in s.timers && !s.timers[k].deleting ==> Current(s, k))
    && (forall a :: a in s.calls && BeforeUser(s.calls[a].phase) ==> Current(s, s.calls[a].timer))
    && (forall a :: a in s.calls && s.calls[a].phase == InBody ==> s.handle == Some(s.calls[a].timer))
    && (forall a, b :: a in s.calls && b in s.calls && SameAlarm(s, s.calls[a].timer, s.calls[b].timer) ==> a == b)
    && (forall a :: a in s.calls ==> s.calls[a].timer in s.timers && s.timers[s.calls[a].timer].fired)
  }

  ghost predicate DtorInv(s: State) {
    && ((s.dtor == Cleared || s.dtor == Destroyed) ==> s.handle.None? && s.period == 0 && s.calls == map[] && s.start.None?)
    && (s.handle.Some? && (s.dtor == NotStarted || s.dtor == Holds) ==>
          s.handle.value in s.timers && !s.timers[s.handle.value].deleting)
    && (s.start.Some? && s.start.value.phase.Created? ==>
          s.start.value.phase.timer in s.timers && !s.timers[s.start.value.phase.timer].deleting)
    && (s.dtor == Deleting ==> s.handle.Some? && s.handle.value in s.timers && s.timers[s.handle.value].deleting)
  }

  ghost predicate Inv(s: State) {
    LocksInv(s) && StartInv(s) && TimersInv(s) && DtorInv(s)
  }

  lemma InitInv(s: State)
    requires Init(s)
    ensures Inv(s)
  {
  }

  lemma InvSafe(s: State)
    requires Inv(s)
    ensures Safe(s)
  {
  }

  lemma StartEnterKeeps(s: State, a: Action, t: State)
    requires a.StartEnter? && Inv(s) && StartNext(s, a) == Some(t)
    ensures Inv(t)
  {
  }

  lemma StartRejectKeeps(s: State, a: Action, t: State)
    requires a.StartReject? && Inv(s) && StartNext(s, a) == Some(t) && Disciplined(s, a)
    ensures Inv(t)
  {
  }

  lemma StartCreateKeeps(s: State, a: Action, t: State)
    requires a.StartCreate? && Inv(s) && StartNext(s, a) == Some(t)
    ensures Inv(t)
  {
  }

  lemma StartAssignKeeps(s: State, a: Action, t: State)
    requires a.StartAssign? && Inv(s) && StartNext(s, a) == Some(t)
    ensures Inv(t)
  {
  }

  lemma StartLeaveKeeps(s: State, a: Action, t: State)
    requires a.StartLeave? && Inv(s) && StartNext(s, a) == Some(t)
    ensures Inv(t)
  {
  }

  /** Callbacks that move on or return change nothing about the timers. */
  lemma TimersFrame(s: State, t: State)
    requires TimersInv(s)
    requires t.timers == s.timers && t.handle == s.handle && t.period == s.period && t.start == s.start
    requires forall a :: a in t.calls ==> a in s.calls && t.calls[a].timer == s.calls[a].timer
    requires forall a :: a in t.calls && BeforeUser(t.calls[a].phase) ==> BeforeUser(s.calls[a].phase)
    requires forall a :: a in t.calls && t.calls[a].phase == InBody ==>
               s.calls[a].phase == InBody || s.handle == Some(s.calls[a].timer)
    ensures TimersInv(t)
  {
  }

  lemma DispatchKeeps(s: State, a: Action, t: State)
    requires a.Dispatch? && Inv(s) && CallbackNext(s, a) == Some(t)
    ensures Inv(t)
  {
    DispatchLocks(s, a, t);
    DispatchTimers(s, a, t);
    hide LocksInv, StartInv, TimersInv;
  }

  lemma DispatchLocks(s: State, a: Action, t: State)
    requires a.Dispatch? && LocksInv(s) && StartInv(s) && CallbackNext(s, a) == Some(t)
    ensures LocksInv(t) && StartInv(t)
  {
  }

  lemma DispatchTimers(s: State, a: Action, t: State)
    requires a.Dispatch? && TimersInv(s) && CallbackNext(s, a) == Some(t)
    ensures TimersInv(t)
  {
    assert Current(s, a.timer);
    forall x, y | x in t.calls && y in t.calls && SameAlarm(t, t.calls[x].timer, t.calls[y].timer)
      ensures x == y
    {
      // An alarm has not fired before it is dispatched, so it has no other callback.
      assert x != a.thread && y != a.thread ==> SameAlarm(s, s.calls[x].timer, s.calls[y].timer);
    }
  }

  lemma TryDtorKeeps(s: State, a: Action, t: State)
    requires a.TryDtor? && Inv(s) && CallbackNext(s, a) == Some(t)
    ensures Inv(t)
  {
    TryDtorLocks(s, a, t);
    TryDtorTimers(s, a, t);
    hide LocksInv, StartInv, TimersInv;
  }

  lemma TryDtorLocks(s: State, a: Action, t: State)
    requires a.TryDtor? && LocksInv(s) && StartInv(s) && CallbackNext(s, a) == Some(t)
    ensures LocksInv(t) && StartInv(t)
  {
  }

  lemma TryDtorTimers(s: State, a: Action, t: State)
    requires a.TryDtor? && TimersInv(s) && CallbackNext(s, a) == Some(t)
    ensures TimersInv(t)
  {
    hide TimersInv;
    TimersFrame(s, t);
  }

  lemma EnterCsKeeps(s: State, a: Action, t: State)
    requires a.EnterCs? && Inv(s) && CallbackNext(s, a) == Some(t)
    ensures Inv(t)
  {
    EnterCsLocks(s, a, t);
    EnterCsTimers(s, a, t);
    hide LocksInv, StartInv, TimersInv;
  }

  lemma EnterCsLocks(s: State, a: Action, t: State)
    requires a.EnterCs? && LocksInv(s) && StartInv(s) && CallbackNext(s, a) == Some(t)
    ensures LocksInv(t) && StartInv(t)
  {
  }

  lemma EnterCsTimers(s: State, a: Action, t: State)
    requires a.EnterCs? && LocksInv(s) && StartInv(s) && TimersInv(s) && CallbackNext(s, a) == Some(t)
    ensures TimersInv(t)
  {
    // Whoever enters cs finds no Start under way, so the handle has been assigned.
    assert s.start.None?;
    assert s.handle == Some(s.calls[a.thread].timer);
    hide TimersInv, LocksInv, StartInv;
    TimersFrame(s, t);
  }

  lemma BodyKeeps(s: State, a: Action, t: State)
    requires a.Body? && Inv(s) && CallbackNext(s, a) == Some(t)
    ensures Inv(t)
  {
    BodyLocks(s, a, t);
    BodyTimers(s, a, t);
    hide LocksInv, StartInv, TimersInv;
  }

  lemma BodyLocks(s: State, a: Action, t: State)
    requires a.Body? && LocksInv(s) && StartInv(s) && CallbackNext(s, a) == Some(t)
    ensures LocksInv(t) && StartInv(t)
  {
  }

  lemma BodyTimers(s: State, a: Action, t: State)
    requires a.Body? && LocksInv(s) && StartInv(s) && TimersInv(s) && CallbackNext(s, a) == Some(t)
    ensures TimersInv(t)
  {
    assert s.handle == Some(s.calls[a.thread].timer);
    if s.period == 0 {
      // The alarm's only callback is this one.
      forall x | x in s.calls && x != a.thread
        ensures s.calls[x].timer != s.handle.value
      {
        assert !SameAlarm(s, s.calls[x].timer, s.calls[a.thread].timer);
      }
    } else {
      hide TimersInv, LocksInv, StartInv;
      TimersFrame(s, t);
    }
  }

  lemma UserReturnsKeeps(s: State, a: Action, t: State)
    requires a.UserReturns? && Inv(s) && CallbackNext(s, a) == Some(t)
    ensures Inv(t)
  {
    UserReturnsLocks(s, a, t);
    UserReturnsTimers(s, a, t);
    hide LocksInv, StartInv, TimersInv;
  }

  lemma UserReturnsLocks(s: State, a: Action, t: State)
    requires a.UserReturns? && LocksInv(s) && StartInv(s) && CallbackNext(s, a) == Some(t)
    ensures LocksInv(t) && StartInv(t)
  {
  }

  lemma UserReturnsTimers(s: State, a: Action, t: State)
    requires a.UserReturns? && TimersInv(s) && CallbackNext(s, a) == Some(t)
    ensures TimersInv(t)
  {
    hide TimersInv;
    TimersFrame(s, t);
  }

  lemma LeaveCsKeeps(s: State, a: Action, t: State)
    requires a.LeaveCs? && Inv(s) && CallbackNext(s, a) == Some(t)
    ensures Inv(t)
  {
    LeaveCsLocks(s, a, t);
    LeaveCsTimers(s, a, t);
    hide LocksInv, StartInv, TimersInv;
  }

  lemma LeaveCsLocks(s: State, a: Action, t: State)
    requires a.LeaveCs? && LocksInv(s) && StartInv(s) && CallbackNext(s, a) == Some(t)
    ensures LocksInv(t) && StartInv(t)
  {
  }

  lemma LeaveCsTimers(s: State, a: Action, t: State)
    requires a.LeaveCs? && TimersInv(s) && CallbackNext(s, a) == Some(t)
    ensures TimersInv(t)
  {
    hide TimersInv;
    TimersFrame(s, t);
  }

  lemma LeaveDtorKeeps(s: State, a: Action, t: State)
    requires a.LeaveDtor? && Inv(s) && CallbackNext(s, a) == Some(t)
    ensures Inv(t)
  {
    LeaveDtorLocks(s, a, t);
    LeaveDtorTimers(s, a, t);
    hide LocksInv, StartInv, TimersInv;
  }

  lemma LeaveDtorLocks(s: State, a: Action, t: State)
    requires a.LeaveDtor? && LocksInv(s) && StartInv(s) && CallbackNext(s, a) == Some(t)
    ensures LocksInv(t) && StartInv(t)
  {
  }

  lemma LeaveDtorTimers(s: State, a: Action, t: State)
    requires a.LeaveDtor? && TimersInv(s) && CallbackNext(s, a) == Some(t)
    ensures TimersInv(t)
  {
    hide TimersInv;
    TimersFrame(s, t);
  }

  lemma DtorKeeps(s: State, a: Action, t: State)
    requires IsDtor(a) && Inv(s) && DtorNext(s, a) == Some(t)
    ensures Inv(t)
  {
    if a.DtorDeleted? || a.DtorDelete? {
      NoCallLeft(s);
      if a.DtorDeleted? || s.handle.None? {
        assert s.calls == map[];
      }
    }
  }

  /** Before the destructor clears the object, the only callbacks left are those its blocking delete waits for. */
  lemma NoCallLeft(s: State)
    requires Inv(s) && (s.dtor == Holds || s.dtor == Deleting)
    ensures forall thread :: thread in s.calls ==> s.handle == Some(s.calls[thread].timer)
  {
    forall thread | thread in s.calls
      ensures s.handle == Some(s.calls[thread].timer)
    {
      assert s.calls[thread].phase == Dispatched;
    }
  }

  lemma NextKeepsInv(s: State, a: Action, t: State)
    requires Inv(s) && Next(s, a) == Some(t) && Disciplined(s, a)
    ensures Inv(t)
  {
    hide Inv, Disciplined, StartNext, CallbackNext, DtorNext;
    match a {
      case StartEnter(_) => StartEnterKeeps(s, a, t);
      case StartReject(_) => StartRejectKeeps(s, a, t);
      case StartCreate(_, _) => StartCreateKeeps(s, a, t);
      case StartAssign => StartAssignKeeps(s, a, t);
      case StartLeave => StartLeaveKeeps(s, a, t);
      case Dispatch(_, _) => DispatchKeeps(s, a, t);
      case TryDtor(_) => TryDtorKeeps(s, a, t);
      case EnterCs(_) => EnterCsKeeps(s, a, t);
      case Body(_) => BodyKeeps(s, a, t);
      case UserReturns(_) => UserReturnsKeeps(s, a, t);
      case LeaveCs(_) => LeaveCsKeeps(s, a, t);
      case LeaveDtor(_) => LeaveDtorKeeps(s, a, t);
      case DtorEnter => DtorKeeps(s, a, t);
      case DtorDelete => DtorKeeps(s, a, t);
      case DtorDeleted => DtorKeeps(s, a, t);
      case DtorLeave => DtorKeeps(s, a, t);
    }
  }

  /** Every step of the run keeps the callers' rule. */
  ghost predicate DisciplinedRun(s: State, actions: seq<Action>)
    decreases |actions|
  {
    actions == [] || (Disciplined(s, actions[0])
                      && (Next(s, actions[0]).Some? ==> DisciplinedRun(Next(s, actions[0]).value, actions[1..])))
  }

  lemma {:induction false} RunKeepsInv(s: State, actions: seq<Action>, t: State)
    requires Inv(s) && DisciplinedRun(s, actions) && Run(s, actions) == Some(t)
    ensures Inv(t)
    decreases |actions|
  {
    hide Inv, Next, Disciplined;
    if actions != [] {
      var u := Next(s, actions[0]).value;
      NextKeepsInv(s, actions[0], u);
      RunKeepsInv(u, actions[1..], t);
    }
  }

  /** In every interleaving in which callers keep the rule, the timer is safe. */
  lemma RunSafe(s: State, actions: seq<Action>, t: State)
    requires Init(s) && DisciplinedRun(s, actions) && Run(s, actions) == Some(t)
    ensures Safe(t)
  {
    InitInv(s);
    RunKeepsInv(s, actions, t);
    InvSafe(t);
  }

  // ---------------------------------------------------------------- the destructor can always finish

  /** The destructor gets in as soon as no callback holds its lock, whether or not a timer is live. */
  lemma DtorEnters(s: State)
    requires Inv(s) && s.dtor == NotStarted && s.start.None? && !s.dtorCs.DtorCall?
    ensures Next(s, DtorEnter) == Some(s.(dtor := Holds, dtorCs := DtorDestructor))
  {
  }

  function StartLeft(s: State): nat {
    if s.start.None? then 0 else match s.start.value.phase
      case Entered => 2
      case Created(_) => 2
      case Finished => 1
  }

  function PhaseLeft(p: Phase): nat {
    match p
    case Dispatched => 0
    case HasDtorLock => 5
    case InBody => 4
    case InUser => 3
    case AfterUser => 2
    case LeavingDtor => 1
  }

  /** How many steps the callback that holds the destructor's lock has to go. */
  function CallLeft(s: State): nat {
    if s.dtorCs.DtorCall? && s.dtorCs.thread in s.calls then PhaseLeft(s.calls[s.dtorCs.thread].phase) else 0
  }

  function DtorLeft(s: State): nat {
    match s.dtor
    case NotStarted => 4
    case Holds => 3
    case Deleting => 2
    case Cleared => 1
    case Destroyed => 0
  }

  /** A step that begins nothing new. */
  predicate Finishes(a: Action) {
    !a.StartEnter? && !a.StartCreate? && !a.Dispatch?
  }

  /** The next step of a Start under way: it may fail, which no rule forbids with a period. */
  lemma StartGoesOn(s: State) returns (a: Action, t: State)
    requires Inv(s) && s.start.Some?
    ensures Next(s, a) == Some(t) && Disciplined(s, a) && Finishes(a) && t.dtor == s.dtor && StartLeft(t) < StartLeft(s)
  {
    match s.start.value.phase {
      case Entered => a := StartReject(1);
      case Created(_) => a := StartAssign;
      case Finished => a := StartLeave;
    }
    t := Next(s, a).value;
  }

  lemma HolderReady(s: State)
    requires Inv(s) && s.start.None? && s.dtorCs.DtorCall?
    ensures var x := s.dtorCs.thread;
            x in s.calls && s.calls[x].phase != Dispatched && (s.calls[x].phase == HasDtorLock ==> s.cs == CsFree)
  {
  }

  lemma DtorReady(s: State)
    requires Inv(s) && !s.dtorCs.DtorCall?
    ensures s.dtor == NotStarted ==> s.dtorCs == DtorFree
    ensures s.dtor == Deleting ==> s.dtorCs == DtorDestructor && s.handle.Some?
    ensures forall x :: x in s.calls ==> s.calls[x].phase == Dispatched
  {
  }

  function HolderStep(x: nat, p: Phase): Action {
    match p
    case HasDtorLock => EnterCs(x)
    case InBody => Body(x)
    case InUser => UserReturns(x)
    case AfterUser => LeaveCs(x)
    case _ => LeaveDtor(x)
  }

  /** The next step of the callback that holds the destructor's lock; cs is free when it asks for it. */
  lemma CallGoesOn(s: State) returns (a: Action, t: State)
    requires Inv(s) && s.start.None? && s.dtorCs.DtorCall?
    ensures Next(s, a) == Some(t) && Disciplined(s, a) && Finishes(a)
    ensures t.dtor == s.dtor && t.start.None? && CallLeft(t) < CallLeft(s)
  {
    var x := s.dtorCs.thread;
    HolderReady(s);
    hide Inv;
    a := HolderStep(x, s.calls[x].phase);
    assert CallbackNext(s, a).Some?;
    t := CallbackNext(s, a).value;
    assert t.start == s.start && t.dtor == s.dtor;
    assert a.LeaveDtor? || (t.dtorCs == s.dtorCs && x in t.calls && t.calls[x].phase != s.calls[x].phase);
  }

  lemma WaitingReturns(s: State, x: nat) returns (t: State)
    requires s.dtor == Deleting && s.dtorCs == DtorDestructor && AtPhase(s, x, Dispatched)
    ensures Next(s, TryDtor(x)) == Some(t) && t == s.(calls := s.calls - {x}) && |t.calls| < |s.calls|
  {
    t := s.(calls := s.calls - {x});
    assert t.calls.Keys == s.calls.Keys - {x};
    assert |t.calls| == |t.calls.Keys| && |s.calls| == |s.calls.Keys|;
  }

  function DtorStep(p: DtorPhase): Action {
    match p
    case NotStarted => DtorEnter
    case Holds => DtorDelete
    case Deleting => DtorDeleted
    case _ => DtorLeave
  }

  /** The destructor's next step; while it waits for callbacks, these find its lock taken and return. */
  lemma DtorGoesOn(s: State) returns (a: Action, t: State)
    requires Inv(s) && s.start.None? && !s.dtorCs.DtorCall? && s.dtor != Destroyed
    ensures Next(s, a) == Some(t) && Disciplined(s, a) && Finishes(a)
    ensures DtorLeft(t) < DtorLeft(s)
            || (DtorLeft(t) == DtorLeft(s) && t.start.None? && CallLeft(t) == CallLeft(s) && |t.calls| < |s.calls|)
  {
    DtorReady(s);
    hide Inv;
    if s.dtor == Deleting && s.calls != map[] {
      var x :| x in s.calls;
      a := TryDtor(x);
      hide Next;
      t := WaitingReturns(s, x);
    } else {
      a := DtorStep(s.dtor);
      assert IsDtor(a) && DtorNext(s, a).Some?;
      t := DtorNext(s, a).value;
    }
  }

  /**
   No deadlock: from every state of the protocol, letting what is under way finish, the destructor runs to its end, and
   the blocking delete returns.
   */
  lemma {:induction false} CanBeDestroyed(s: State) returns (actions: seq<Action>)
    requires Inv(s)
    ensures DisciplinedRun(s, actions) && Run(s, actions).Some? && Run(s, actions).value.dtor == Destroyed
    ensures forall i :: 0 <= i < |actions| ==> Finishes(actions[i])
    decreases DtorLeft(s), StartLeft(s), CallLeft(s), |s.calls|
  {
    if s.dtor == Destroyed {
      actions := [];
    } else {
      var a, t;
      if s.start.Some? {
        a, t := StartGoesOn(s);
      } else if s.dtorCs.DtorCall? {
        a, t := CallGoesOn(s);
      } else {
        a, t := DtorGoesOn(s);
      }
      hide Inv, Next, Disciplined;
      NextKeepsInv(s, a, t);
      var rest := CanBeDestroyed(t);
      actions := [a] + rest;
      assert actions[0] == a && actions[1..] == rest;
    }
  }

  // ---------------------------------------------------------------- the rule is needed

  /** By steps that keep the callers' rule. */
  ghost predicate Reaches(s: State, t: State) {
    exists actions :: DisciplinedRun(s, actions) && Run(s, actions) == Some(t)
  }

  /** Some continuation that keeps the rule ends with DoCallback finding no handle. */
  ghost predicate CanFail(s: State) {
    exists t :: Reaches(s, t) && !HandleInBody(t)
  }

  lemma FailNow(s: State, thread: nat)
    requires AtPhase(s, thread, InBody) && s.handle.None?
    ensures CanFail(s)
  {
    assert DisciplinedRun(s, []) && Run(s, []) == Some(s);
    assert Reaches(s, s);
  }

  lemma FailLater(s: State, a: Action, t: State)
    requires Next(s, a) == Some(t) && Disciplined(s, a) && CanFail(t)
    ensures CanFail(s)
  {
    hide Next, Disciplined, HandleInBody;
    var u :| Reaches(t, u) && !HandleInBody(u);
    var actions :| DisciplinedRun(t, actions) && Run(t, actions) == Some(u);
    var all := [a] + actions;
    assert all[0] == a && all[1..] == actions;
    assert DisciplinedRun(s, all) && Run(s, all) == Some(u);
    assert Reaches(s, u);
  }

  lemma FreshThread(calls: map<nat, Call>, used: nat) returns (thread: nat)
    ensures thread !in calls && thread != used
  {
    var keys := calls.Keys + {used};
    thread := Above(keys);
    assert used in keys && forall k :: k in calls ==> k in keys;
  }

  lemma {:induction false} Above(keys: set<nat>) returns (n: nat)
    ensures n !in keys && forall k :: k in keys ==> k < n
  {
    if keys == {} {
      n := 0;
    } else {
      var k :| k in keys;
      var m := Above(keys - {k});
      n := if m > k then m else k + 1;
      assert forall j :: j in keys ==> j == k || j in keys - {k};
    }
  }

  /** A periodic timer is live, but period_ says it is an alarm. */
  ghost predicate Demoted(s: State) {
    && s.start.None? && s.dtor == NotStarted && s.period == 0
    && s.handle.Some? && s.handle.value in s.timers && !s.timers[s.handle.value].deleting && s.timers[s.handle.value].period > 0
  }

  lemma NoHandleFails(s: State, y: nat)
    requires s.handle.None? && s.cs == CsFree && s.dtorCs == DtorFree && AtPhase(s, y, Dispatched)
    ensures CanFail(s)
  {
    hide CanFail;
    var t := Next(s, TryDtor(y)).value;
    var u := Next(t, EnterCs(y)).value;
    FailNow(u, y);
    FailLater(t, EnterCs(y), u);
    FailLater(s, TryDtor(y), t);
  }

  lemma FinishingFails(s: State, x: nat, y: nat)
    requires s.handle.None? && s.start.None? && s.cs == CsCall(x) && s.dtorCs == DtorCall(x) && x != y
    requires AtPhase(s, x, InUser) && AtPhase(s, y, Dispatched)
    ensures CanFail(s)
  {
    hide CanFail;
    var t := Next(s, UserReturns(x)).value;
    var u := Next(t, LeaveCs(x)).value;
    var v := Next(u, LeaveDtor(x)).value;
    NoHandleFails(v, y);
    FailLater(u, LeaveDtor(x), v);
    FailLater(t, LeaveCs(x), u);
    FailLater(s, UserReturns(x), t);
  }

  /** One callback takes the handle away, the next one misses it. */
  lemma SecondCallbackFails(s: State, x: nat, y: nat)
    requires Demoted(s) && x != y && s.cs == CsFree && s.dtorCs == DtorCall(x)
    requires AtPhase(s, x, HasDtorLock) && AtPhase(s, y, Dispatched)
    ensures CanFail(s)
  {
    hide CanFail;
    var t := Next(s, EnterCs(x)).value;
    var u := Next(t, Body(x)).value;
    FinishingFails(u, x, y);
    FailLater(t, Body(x), u);
    FailLater(s, EnterCs(x), t);
  }

  lemma WaitingFails(s: State, x: nat)
    requires Demoted(s) && s.cs == CsFree && s.dtorCs == DtorCall(x) && AtPhase(s, x, HasDtorLock)
    ensures CanFail(s)
  {
    hide CanFail;
    var y := FreshThread(s.calls, x);
    var t := Next(s, Dispatch(s.handle.value, y)).value;
    SecondCallbackFails(t, x, y);
    FailLater(s, Dispatch(s.handle.value, y), t);
  }

  lemma FreeFails(s: State)
    requires Demoted(s) && s.cs == CsFree && s.dtorCs == DtorFree
    ensures CanFail(s)
  {
    hide CanFail;
    var x := FreshThread(s.calls, 0);
    var t := Next(s, Dispatch(s.handle.value, x)).value;
    var u := Next(t, TryDtor(x)).value;
    WaitingFails(u, x);
    FailLater(t, TryDtor(x), u);
    FailLater(s, Dispatch(s.handle.value, x), t);
  }

  lemma LeavingFails(s: State, x: nat)
    requires Demoted(s) && s.cs == CsFree && s.dtorCs == DtorCall(x) && AtPhase(s, x, LeavingDtor)
    ensures CanFail(s)
  {
    hide CanFail;
    var t := Next(s, LeaveDtor(x)).value;
    FreeFails(t);
    FailLater(s, LeaveDtor(x), t);
  }

  lemma InCallbackFails(s: State, x: nat)
    requires Demoted(s) && s.cs == CsCall(x) && s.dtorCs == DtorCall(x) && AtPhase(s, x, InUser)
    ensures CanFail(s)
  {
    hide CanFail;
    var t := Next(s, UserReturns(x)).value;
    var u := Next(t, LeaveCs(x)).value;
    LeavingFails(u, x);
    FailLater(t, LeaveCs(x), u);
    FailLater(s, UserReturns(x), t);
  }

  /**
   In any state the protocol can be in, a Start with period 0 that finds a periodic timer live returns an error, and
   from then on a callback without a handle is possible even if the rule is not broken again.
   */
  lemma DemotionFails(s: State, t: State)
    requires Inv(s) && Demotes(s, 0) && Next(s, StartReject(0)) == Some(t)
    ensures CanFail(t)
  {
    hide CanFail;
    var u := Next(t, StartLeave).value;
    assert Demoted(u);
    if s.start.value.thread in s.calls {
      InCallbackFails(u, s.start.value.thread);
    } else {
      assert u.cs == CsFree;
      match u.dtorCs
      case DtorFree => FreeFails(u);
      case DtorCall(x) =>
        if AtPhase(u, x, HasDtorLock) {
          WaitingFails(u, x);
        } else {
          LeavingFails(u, x);
        }
    }
    FailLater(t, StartLeave, u);
  }

  /** As long as the rule is kept, nothing fails. */
  lemma InvCannotFail(s: State)
    requires Inv(s)
    ensures !CanFail(s)
  {
    hide Inv, HandleInBody;
    if CanFail(s) {
      var t :| Reaches(s, t) && !HandleInBody(t);
      var actions :| DisciplinedRun(s, actions) && Run(s, actions) == Some(t);
      RunKeepsInv(s, actions, t);
      InvSafe(t);
      assert false;
    }
  }

  /** The rule is exactly what is needed: a step keeps it if and only if no callback without a handle can follow. */
  lemma DisciplineExact(s: State, a: Action, t: State)
    requires Inv(s) && Next(s, a) == Some(t)
    ensures Disciplined(s, a) <==> !CanFail(t)
  {
    hide Inv, CanFail, Next;
    if Disciplined(s, a) {
      NextKeepsInv(s, a, t);
      InvCannotFail(t);
    } else {
      DemotionFails(s, t);
    }
  }

  /** A periodic timer is started, and Start is called again. */
  function StartTwice(): seq<Action> {
    [StartEnter(1), StartCreate(5, 7), StartAssign, StartLeave, StartEnter(1)]
  }

  /** The state of DemotionFails is reached, by callers that have kept the rule so far and then break it. */
  lemma DemotionReached(s: State)
    requires Init(s)
    ensures DisciplinedRun(s, StartTwice()) && Run(s, StartTwice()).Some?
    ensures var t := Run(s, StartTwice()).value;
            && Demotes(t, 0) && !CanFail(t)
            && Next(t, StartReject(0)).Some? && CanFail(Next(t, StartReject(0)).value)
  {
    hide CanFail;
    var l := StartTwice();
    var s1 := Next(s, l[0]).value;
    var s2 := Next(s1, l[1]).value;
    var s3 := Next(s2, l[2]).value;
    var s4 := Next(s3, l[3]).value;
    var t := Next(s4, l[4]).value;
    assert l[4..][1..] == [] && l[3..][1..] == l[4..] && l[2..][1..] == l[3..] && l[1..][1..] == l[2..];
    assert Run(s4, l[4..]) == Some(t) && DisciplinedRun(s4, l[4..]);
    assert Run(s3, l[3..]) == Some(t) && DisciplinedRun(s3, l[3..]);
    assert Run(s2, l[2..]) == Some(t) && DisciplinedRun(s2, l[2..]);
    assert Run(s1, l[1..]) == Some(t) && DisciplinedRun(s1, l[1..]);
    InitInv(s);
    RunKeepsInv(s, l, t);
    InvCannotFail(t);
    DemotionFails(t, Next(t, StartReject(0)).value);
  }
}
