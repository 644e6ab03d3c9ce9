/**
 Tasks and interrupts sharing one queue.  A task calling xQueueGenericSend,
 xQueueReceive, xQueueSemaphoreTake or xQueuePeek goes round the retry loop one
 critical section at a time; while it holds the scheduler suspended no other task
 moves, but interrupts still send and receive, and then only bump the lock counts.
 The result is that no interleaving loses a wake-up.
 */
module QueueProtocol {
  import opened Arithmetic
  import opened Types
  import ListSpec
  import opened QueueSpec

  datatype Op = Sending(x: Item, pos: Position) | Receiving | Peeking

  /** What a task does once it has unlocked the queue and resumed the scheduler. */
  datatype After = Retry | Block | GiveUp

  /** Where a task is: each value names the critical section it executes next. */
  datatype Pc =
    | Outside
    | Trying(op: Op)
    | Suspending(op: Op)
    | Locking(op: Op)
    | CheckingTimeOut(op: Op)
    | Testing(op: Op)
    | Placing(op: Op)
    | UnlockingTx(op: Op, after: After)
    | UnlockingRx(op: Op, after: After)
    | Resuming(op: Op, after: After)
    | Blocked(op: Op)
    | LastLook(op: Op)

  /** `owner` has the scheduler suspended.  The woken sets hold the tasks an event took
      off an event list that have not yet retried; `sent` and `got` record the traffic. */
  datatype Sys = Sys(
    q: QState,
    pc: map<Task, Pc>,
    owner: Option<Task>,
    wokenReceivers: set<Task>,
    wokenSenders: set<Task>,
    sent: seq<Item>,
    got: seq<Item>)

  datatype Step =
    | Call(t: Task, op: Op)
    | Attempt(t: Task, willing: bool)      // willing: xTicksToWait is not 0
    | Advance(t: Task)
    | CheckTimeOut(t: Task, expired: bool)
    | Place(t: Task, at: nat)              // at: the position the task's priority gives it
    | TimeOut(t: Task)
    | Run(t: Task)
    | IsrSend(x: Item, pos: Position)
    | IsrReceive

  function At(s: Sys, t: Task): Pc {
    if t in s.pc then s.pc[t] else Outside
  }

  predicate SomeTaskStep(step: Step) {
    !step.IsrSend? && !step.IsrReceive?
  }

  predicate MayRun(s: Sys, t: Task) {
    s.owner == None || s.owner == Some(t)
  }

  predicate OverwritesOnlySingle(op: Op, length: nat) {
    op.Sending? && op.pos == Overwrite ==> length == 1
  }

  /** When a step can happen.  The two lock-count bounds are the one assumption on the
      run: an int8_t counts at most 127 interrupt operations per lock. */
  predicate Enabled(s: Sys, step: Step) {
    && (SomeTaskStep(step) ==> MayRun(s, step.t))
    && match step
       case Call(t, op) => At(s, t).Outside? && OverwritesOnlySingle(op, s.q.length)
       case Attempt(t, _) => At(s, t).Trying?
       case Advance(t) =>
         var pc := At(s, t);
         pc.Suspending? || pc.Locking? || pc.Testing? || pc.UnlockingTx? || pc.UnlockingRx? || pc.Resuming?
           || pc.LastLook?
       case CheckTimeOut(t, _) => At(s, t).CheckingTimeOut?
       case Place(t, at) =>
         At(s, t).Placing? && at <= (if At(s, t).op.Sending? then |s.q.waitSend| else |s.q.waitReceive|)
       case TimeOut(t) =>
         s.owner == None && At(s, t).Blocked? && (t in s.q.waitSend || t in s.q.waitReceive)
       case Run(t) => At(s, t).Blocked? && t !in s.q.waitSend && t !in s.q.waitReceive
       case IsrSend(x, pos) => s.q.txLock < 127 && (pos == Overwrite ==> s.q.length == 1)
       case IsrReceive => s.q.rxLock < 127
  }

  /** The waiting tasks other than t, in order. */
  function Without(waiting: seq<Task>, t: Task): (r: seq<Task>)
    ensures t !in r && forall u :: u != t ==> (u in r <==> u in waiting)
    ensures forall i :: 0 <= i < |r| ==> r[i] in waiting
  {
    if waiting == [] then []
    else if waiting[0] == t then Without(waiting[1..], t)
    else [waiting[0]] + Without(waiting[1..], t)
  }

  lemma {:induction false} WithoutDistinct(waiting: seq<Task>, t: Task)
    requires Distinct(waiting)
    ensures Distinct(Without(waiting, t))
  {
    if waiting != [] {
      WithoutDistinct(waiting[1..], t);
    }
  }

  function Critical(q: QState, op: Op): Outcome {
    match op
    case Sending(x, pos) => Send(q, x, pos)
    case Receiving => Receive(q)
    case Peeking => Peek(q)
  }

  function Goto(s: Sys, t: Task, pc: Pc): Sys {
    s.(pc := s.pc[t := pc])
  }

  ghost function WithWoken(s: Sys, o: Outcome, receivers: bool): Sys {
    if receivers then s.(q := o.q, wokenReceivers := s.wokenReceivers + Elements(o.woken))
    else s.(q := o.q, wokenSenders := s.wokenSenders + Elements(o.woken))
  }

  function Retried(s: Sys, t: Task): Sys {
    s.(wokenReceivers := s.wokenReceivers - {t}, wokenSenders := s.wokenSenders - {t})
  }

  function Recorded(s: Sys, op: Op, o: Outcome): Sys {
    if op.Sending? && o.ok then s.(sent := s.sent + [op.x])
    else if op.Receiving? && o.item.Some? then s.(got := s.got + [o.item.value])
    else s
  }

  ghost function ApplyAttempt(s: Sys, t: Task, willing: bool): Sys
    requires At(s, t).Trying?
  {
    var op := At(s, t).op;
    var o := Critical(s.q, op);
    var next := if !o.ok && willing then Suspending(op) else Outside;
    Goto(Recorded(WithWoken(Retried(s, t), o, !op.Receiving?), op, o), t, next)
  }

  ghost function ApplyAdvance(s: Sys, t: Task): Sys
    requires Enabled(s, Advance(t))
  {
    match At(s, t)
    case Suspending(op) => Goto(s, t, Locking(op)).(owner := Some(t))
    case Locking(op) => Goto(s, t, CheckingTimeOut(op)).(q := Lock(s.q))
    case Testing(op) =>
      var mustWait := if op.Sending? then |s.q.items| == s.q.length else s.q.items == [];
      Goto(s, t, if mustWait then Placing(op) else UnlockingTx(op, Retry))
    case UnlockingTx(op, after) => Goto(WithWoken(s, UnlockTx(s.q), true), t, UnlockingRx(op, after))
    case UnlockingRx(op, after) => Goto(WithWoken(s, UnlockRx(s.q), false), t, Resuming(op, after))
    case Resuming(op, after) =>
      var next := match after
        case Retry => Trying(op)
        case Block => Blocked(op)
        case GiveUp => if op.Sending? then Outside else LastLook(op);
      Goto(s, t, next).(owner := None)
    case LastLook(op) => Goto(s, t, if s.q.items == [] then Outside else Trying(op))
  }

  ghost function ApplyPlace(s: Sys, t: Task, at: nat): Sys
    requires Enabled(s, Place(t, at))
  {
    var op := At(s, t).op;
    var q := if op.Sending? then s.q.(waitSend := ListSpec.InsertAt(s.q.waitSend, at, t))
             else s.q.(waitReceive := ListSpec.InsertAt(s.q.waitReceive, at, t));
    Goto(s, t, UnlockingTx(op, Block)).(q := q)
  }

  ghost function Apply(s: Sys, step: Step): Sys
    requires Enabled(s, step)
  {
    match step
    case Call(t, op) => Goto(s, t, Trying(op))
    case Attempt(t, willing) => ApplyAttempt(s, t, willing)
    case Advance(t) => ApplyAdvance(s, t)
    case CheckTimeOut(t, expired) =>
      var op := At(s, t).op;
      Goto(s, t, if expired then UnlockingTx(op, GiveUp) else Testing(op))
    case Place(t, at) => ApplyPlace(s, t, at)
    case TimeOut(t) =>
      s.(q := s.q.(waitSend := Without(s.q.waitSend, t), waitReceive := Without(s.q.waitReceive, t)))
    case Run(t) => Goto(s, t, Trying(At(s, t).op))
    case IsrSend(x, pos) =>
      var o := SendFromISR(s.q, x, pos);
      Recorded(WithWoken(s, o, true), Sending(x, pos), o)
    case IsrReceive =>
      var o := ReceiveFromISR(s.q);
      Recorded(WithWoken(s, o, false), Receiving, o)
  }

  // ----- the invariant -----

  /** No wake-up is missing: every item a waiting reader could have had is accounted for by
      a reader already woken for it or by a count the unlock still has to replay; and the
      same for free places and writers. */
  ghost predicate NoLostWakeup(s: Sys) {
    && (s.q.waitReceive != [] ==> |s.q.items| <= |s.wokenReceivers| + Owed(s.q.txLock))
    && (s.q.waitSend != [] ==> s.q.Spaces() <= |s.wokenSenders| + Owed(s.q.rxLock))
  }

  predicate InWindow(pc: Pc) {
    pc.Locking? || pc.CheckingTimeOut? || pc.Testing? || pc.Placing? || pc.UnlockingTx? || pc.UnlockingRx?
      || pc.Resuming?
  }

  /** The queue is locked exactly between prvLockQueue and prvUnlockQueue of the suspender. */
  ghost predicate LockState(s: Sys) {
    match s.owner
    case None => s.q.rxLock == s.q.txLock == UNLOCKED
    case Some(u) =>
      match At(s, u)
      case Locking(_) => s.q.rxLock == s.q.txLock == UNLOCKED
      case CheckingTimeOut(_) => 0 <= s.q.rxLock && 0 <= s.q.txLock
      case Testing(_) => 0 <= s.q.rxLock && 0 <= s.q.txLock
      case Placing(op) =>
        // Anything that arrived since the test has been counted.
        && 0 <= s.q.rxLock && 0 <= s.q.txLock
        && (if op.Sending? then s.q.Spaces() <= s.q.rxLock else |s.q.items| <= s.q.txLock)
      case UnlockingTx(_, _) => 0 <= s.q.rxLock && 0 <= s.q.txLock
      case UnlockingRx(_, _) => 0 <= s.q.rxLock && s.q.txLock == UNLOCKED
      case Resuming(_, _) => s.q.rxLock == s.q.txLock == UNLOCKED
      case _ => false
  }

  predicate Parked(pc: Pc) {
    pc.Blocked? || ((pc.UnlockingTx? || pc.UnlockingRx? || pc.Resuming?) && pc.after == Block)
  }

  predicate Released(pc: Pc) {
    Parked(pc) || pc.Trying?
  }

  predicate CanBlock(op: Op) {
    op.Sending? ==> op.pos != Overwrite
  }

  /** What holds of one task: only the suspender is between vTaskSuspendAll and
      xTaskResumeAll, and event lists and woken sets hold only tasks that blocked. */
  ghost predicate TaskOk(s: Sys, t: Task) {
    var pc := At(s, t);
    && (InWindow(pc) ==> s.owner == Some(t))
    && (t in s.q.waitReceive ==> Parked(pc) && !pc.op.Sending? && t !in s.wokenReceivers)
    && (t in s.q.waitSend ==> Parked(pc) && pc.op.Sending? && t !in s.wokenSenders)
    && (t in s.wokenReceivers ==> Released(pc) && !pc.op.Sending?)
    && (t in s.wokenSenders ==> Released(pc) && pc.op.Sending? && CanBlock(pc.op))
    && (!pc.Outside? ==> OverwritesOnlySingle(pc.op, s.q.length))
    && (!pc.Outside? && !pc.Trying? ==> CanBlock(pc.op))
  }

  ghost predicate Discipline(s: Sys) {
    && LockState(s)
    && Distinct(s.q.waitReceive) && Distinct(s.q.waitSend)
    && forall t: Task :: TaskOk(s, t)
  }

  ghost predicate Inv(s: Sys) {
    s.q.Valid() && NoLostWakeup(s) && Discipline(s)
  }

  ghost predicate Init(s: Sys) {
    && 1 <= s.q.length
    && s == Sys(QState([], s.q.length, UNLOCKED, UNLOCKED, [], []), map[], None, {}, {}, [], [])
  }

  // ----- every step keeps it -----

  /** Distinct tasks coming off an event list add exactly their number to the woken ones. */
  lemma {:induction false} WokenCount(released: seq<Task>, woken: set<Task>)
    requires Distinct(released)
    requires forall i :: 0 <= i < |released| ==> released[i] !in woken
    ensures |woken + Elements(released)| == |woken| + |released|
    decreases |released|
  {
    if released == [] {
      assert woken + Elements(released) == woken;
    } else {
      var t, rest := released[0], released[1..];
      DistinctTail(released);
      ElementsHead(released);
      WokenCount(rest, woken + {t});
      assert woken + Elements(released) == woken + {t} + Elements(rest);
    }
  }

  /** The same for the first n tasks of an event list none of whose tasks is woken. */
  lemma ReleasedCount(waiting: seq<Task>, n: nat, woken: set<Task>)
    requires n <= |waiting| && Distinct(waiting)
    requires forall t :: t in waiting ==> t !in woken
    ensures |woken + Elements(waiting[..n])| == |woken| + n
  {
    WokenCount(waiting[..n], woken);
  }

  lemma FirstCount(waiting: seq<Task>, woken: set<Task>)
    requires Distinct(waiting) && forall t :: t in waiting ==> t !in woken
    ensures |woken + Elements(First(waiting))| == |woken| + |First(waiting)|
  {
    WokenCount(First(waiting), woken);
  }

  lemma WaitersAreNotWoken(s: Sys)
    requires Discipline(s)
    ensures forall t :: t in s.q.waitReceive ==> t !in s.wokenReceivers
    ensures forall t :: t in s.q.waitSend ==> t !in s.wokenSenders
  {
    forall t: Task ensures t in s.q.waitReceive ==> t !in s.wokenReceivers {
      assert TaskOk(s, t);
    }
    forall t: Task ensures t in s.q.waitSend ==> t !in s.wokenSenders {
      assert TaskOk(s, t);
    }
  }

  lemma RetriedCount(woken: set<Task>, t: Task)
    ensures |woken - {t}| == |woken| - (if t in woken then 1 else 0)
  {
    if t in woken {
      assert woken == (woken - {t}) + {t};
    } else {
      assert woken - {t} == woken;
    }
  }

  /** A failed attempt changes nothing but where the task is and that it has retried. */
  lemma FailedAttempt(s: Sys, t: Task, willing: bool)
    requires Inv(s) && Enabled(s, Attempt(t, willing)) && !Critical(s.q, At(s, t).op).ok
    ensures Apply(s, Attempt(t, willing))
         == Goto(Retried(s, t), t, if willing then Suspending(At(s, t).op) else Outside)
  {
    var none := Elements<Task>([]);
    assert s.wokenReceivers - {t} + none == s.wokenReceivers - {t};
    assert s.wokenSenders - {t} + none == s.wokenSenders - {t};
  }

  lemma FailedAttemptKeepsWakeups(s: Sys, t: Task, willing: bool)
    requires Inv(s) && Enabled(s, Attempt(t, willing)) && !Critical(s.q, At(s, t).op).ok
    ensures NoLostWakeup(Apply(s, Attempt(t, willing)))
  {
    FailedAttempt(s, t, willing);
    assert TaskOk(s, t);
    RetriedCount(s.wokenReceivers, t);
    RetriedCount(s.wokenSenders, t);
  }

  lemma FailedAttemptKeepsDiscipline(s: Sys, t: Task, willing: bool)
    requires Inv(s) && Enabled(s, Attempt(t, willing)) && !Critical(s.q, At(s, t).op).ok
    ensures Apply(s, Attempt(t, willing)).q.Valid() && Discipline(Apply(s, Attempt(t, willing)))
  {
    FailedAttempt(s, t, willing);
    var s' := Apply(s, Attempt(t, willing));
    assert TaskOk(s, t);
    forall u: Task ensures TaskOk(s', u) {
      assert TaskOk(s, u);
    }
  }

  /** What an event means for the count: one more item (or free place), one more task woken. */
  lemma EventKeepsBound(waiting: seq<Task>, woken: set<Task>, bound: int, owed: nat)
    requires Distinct(waiting) && forall t :: t in waiting ==> t !in woken
    requires waiting != [] ==> bound <= |woken| + owed
    ensures Rest(waiting) != [] ==> bound + 1 <= |woken + Elements(First(waiting))| + owed
  {
    FirstCount(waiting, woken);
  }

  lemma ReceiveKeepsWakeups(s: Sys, t: Task, willing: bool)
    requires Inv(s) && At(s, t).Trying? && At(s, t).op.Receiving? && MayRun(s, t) && s.q.items != []
    ensures NoLostWakeup(ApplyAttempt(s, t, willing))
  {
    WaitersAreNotWoken(s);
    assert TaskOk(s, t);
    RetriedCount(s.wokenReceivers, t);
    RetriedCount(s.wokenSenders, t);
    EventKeepsBound(s.q.waitSend, s.wokenSenders - {t}, s.q.Spaces(), 0);
  }

  lemma PeekKeepsWakeups(s: Sys, t: Task, willing: bool)
    requires Inv(s) && At(s, t).Trying? && At(s, t).op.Peeking? && MayRun(s, t) && s.q.items != []
    ensures NoLostWakeup(ApplyAttempt(s, t, willing))
  {
    WaitersAreNotWoken(s);
    assert TaskOk(s, t);
    RetriedCount(s.wokenReceivers, t);
    RetriedCount(s.wokenSenders, t);
    EventKeepsBound(s.q.waitReceive, s.wokenReceivers - {t}, |s.q.items| - 1, 0);
  }

  /** An item more, or one in place of another: never fewer, and at most one more. */
  lemma PlacedCount(items: seq<Item>, x: Item, pos: Position)
    ensures |items| <= |Placed(items, x, pos)| <= |items| + 1
  {
  }

  lemma SendKeepsWakeups(s: Sys, t: Task, willing: bool)
    requires Inv(s) && At(s, t).Trying? && At(s, t).op.Sending? && MayRun(s, t) && HasRoom(s.q, At(s, t).op.pos)
    ensures ApplyAttempt(s, t, willing).q.Valid()
    ensures NoLostWakeup(ApplyAttempt(s, t, willing))
  {
    WaitersAreNotWoken(s);
    assert TaskOk(s, t);
    RetriedCount(s.wokenReceivers, t);
    RetriedCount(s.wokenSenders, t);
    EventKeepsBound(s.q.waitReceive, s.wokenReceivers - {t}, |s.q.items|, 0);
    var s', o := ApplyAttempt(s, t, willing), Send(s.q, At(s, t).op.x, At(s, t).op.pos);
    PlacedCount(s.q.items, At(s, t).op.x, At(s, t).op.pos);
    assert s'.q == o.q && s'.wokenReceivers == (s.wokenReceivers - {t}) + Elements(o.woken);
    assert s'.wokenSenders == s.wokenSenders - {t};
  }

  lemma AttemptKeepsWakeups(s: Sys, t: Task, willing: bool)
    requires Inv(s) && Enabled(s, Attempt(t, willing)) && Critical(s.q, At(s, t).op).ok
    ensures Apply(s, Attempt(t, willing)).q.Valid() && NoLostWakeup(Apply(s, Attempt(t, willing)))
  {
    match At(s, t).op
    case Sending(_, _) => SendKeepsWakeups(s, t, willing);
    case Receiving => ReceiveKeepsWakeups(s, t, willing);
    case Peeking => PeekKeepsWakeups(s, t, willing);
  }

  lemma AttemptKeepsTask(s: Sys, t: Task, willing: bool, u: Task)
    requires Inv(s) && Enabled(s, Attempt(t, willing)) && Critical(s.q, At(s, t).op).ok
    ensures TaskOk(Apply(s, Attempt(t, willing)), u)
  {
    assert TaskOk(s, t);
    assert TaskOk(s, u);
    if At(s, t).op.Receiving? {
      FirstLeaves(s.q.waitSend, u);
    } else {
      FirstLeaves(s.q.waitReceive, u);
    }
  }

  lemma AttemptKeepsDiscipline(s: Sys, t: Task, willing: bool)
    requires Inv(s) && Enabled(s, Attempt(t, willing)) && Critical(s.q, At(s, t).op).ok
    ensures Discipline(Apply(s, Attempt(t, willing)))
  {
    var s' := Apply(s, Attempt(t, willing));
    FirstLeaves(s.q.waitSend, t);
    FirstLeaves(s.q.waitReceive, t);
    assert TaskOk(s, t);
    forall u: Task ensures TaskOk(s', u) {
      AttemptKeepsTask(s, t, willing, u);
    }
  }

  lemma FirstLeaves(waiting: seq<Task>, u: Task)
    requires Distinct(waiting)
    ensures u in Rest(waiting) ==> u in waiting && u !in Elements(First(waiting))
    ensures u in Elements(First(waiting)) ==> u in waiting && u !in Rest(waiting)
    ensures Distinct(Rest(waiting))
  {
  }

  lemma AdvanceKeepsWakeups(s: Sys, t: Task)
    requires Inv(s) && Enabled(s, Advance(t))
    ensures Apply(s, Advance(t)).q.Valid() && NoLostWakeup(Apply(s, Advance(t)))
  {
    WaitersAreNotWoken(s);
    assert TaskOk(s, t);
    if At(s, t).UnlockingTx? {
      ReleasedCount(s.q.waitReceive, Least(Owed(s.q.txLock), |s.q.waitReceive|), s.wokenReceivers);
    } else if At(s, t).UnlockingRx? {
      ReleasedCount(s.q.waitSend, Least(Owed(s.q.rxLock), |s.q.waitSend|), s.wokenSenders);
    }
  }

  lemma AdvanceKeepsTask(s: Sys, t: Task, u: Task)
    requires Inv(s) && Enabled(s, Advance(t))
    ensures TaskOk(Apply(s, Advance(t)), u)
  {
    assert TaskOk(s, t) && TaskOk(s, u);
  }

  lemma AdvanceKeepsDiscipline(s: Sys, t: Task)
    requires Inv(s) && Enabled(s, Advance(t))
    ensures Discipline(Apply(s, Advance(t)))
  {
    assert TaskOk(s, t);
    forall u: Task ensures TaskOk(Apply(s, Advance(t)), u) {
      AdvanceKeepsTask(s, t, u);
    }
  }

  lemma PlaceKeepsInv(s: Sys, t: Task, at: nat)
    requires Inv(s) && Enabled(s, Place(t, at))
    ensures Inv(Apply(s, Place(t, at)))
  {
    var s' := Apply(s, Place(t, at));
    assert TaskOk(s, t);
    forall u: Task ensures TaskOk(s', u) {
      assert TaskOk(s, u);
    }
  }

  lemma TimeOutKeepsInv(s: Sys, t: Task)
    requires Inv(s) && Enabled(s, TimeOut(t))
    ensures Inv(Apply(s, TimeOut(t)))
  {
    var s' := Apply(s, TimeOut(t));
    WithoutDistinct(s.q.waitSend, t);
    WithoutDistinct(s.q.waitReceive, t);
    forall u: Task ensures TaskOk(s', u) {
      assert TaskOk(s, u);
    }
  }

  lemma LocksAreCounts(s: Sys)
    requires LockState(s)
    ensures UNLOCKED <= s.q.rxLock && UNLOCKED <= s.q.txLock
  {
  }

  /** On the queue alone: an interrupt's send either wakes the first receiver or is counted. */
  lemma IsrSendBound(q: QState, x: Item, pos: Position, woken: set<Task>)
    requires q.Valid() && UNLOCKED <= q.txLock < 127 && (pos == Overwrite ==> q.length == 1)
    requires Distinct(q.waitReceive) && forall t :: t in q.waitReceive ==> t !in woken
    requires q.waitReceive != [] ==> |q.items| <= |woken| + Owed(q.txLock)
    ensures var o := SendFromISR(q, x, pos);
      && o.q.Valid() && o.q.waitSend == q.waitSend && o.q.rxLock == q.rxLock && o.q.Spaces() <= q.Spaces()
      && (o.q.waitReceive != [] ==> |o.q.items| <= |woken + Elements(o.woken)| + Owed(o.q.txLock))
  {
    PlacedCount(q.items, x, pos);
    if !HasRoom(q, pos) || q.txLock != UNLOCKED {
      assert woken + Elements<Task>([]) == woken;
    } else {
      EventKeepsBound(q.waitReceive, woken, |q.items|, Owed(q.txLock));
    }
  }

  lemma IsrSendKeepsWakeups(s: Sys, x: Item, pos: Position)
    requires s.q.Valid() && NoLostWakeup(s) && UNLOCKED <= s.q.txLock && Enabled(s, IsrSend(x, pos))
    requires Distinct(s.q.waitReceive) && forall t :: t in s.q.waitReceive ==> t !in s.wokenReceivers
    ensures Apply(s, IsrSend(x, pos)).q.Valid() && NoLostWakeup(Apply(s, IsrSend(x, pos)))
  {
    IsrSendBound(s.q, x, pos, s.wokenReceivers);
    var s', o := Apply(s, IsrSend(x, pos)), SendFromISR(s.q, x, pos);
    assert s'.q == o.q && s'.wokenReceivers == s.wokenReceivers + Elements(o.woken)
      && s'.wokenSenders == s.wokenSenders;
  }

  /** What an event does to the lists and the woken sets leaves each task in order. */
  lemma TaskStillOk(s: Sys, s': Sys, u: Task)
    requires TaskOk(s, u) && s'.pc == s.pc && s'.owner == s.owner && s'.q.length == s.q.length
    requires u in s'.q.waitReceive ==> u in s.q.waitReceive && u !in s'.wokenReceivers
    requires u in s'.q.waitSend ==> u in s.q.waitSend && u !in s'.wokenSenders
    requires u in s'.wokenReceivers ==> u in s.wokenReceivers || u in s.q.waitReceive
    requires u in s'.wokenSenders ==> u in s.wokenSenders || u in s.q.waitSend
    ensures TaskOk(s', u)
  {
  }

  lemma IsrSendKeepsTask(s: Sys, x: Item, pos: Position, u: Task)
    requires Enabled(s, IsrSend(x, pos)) && Distinct(s.q.waitReceive) && TaskOk(s, u)
    ensures TaskOk(Apply(s, IsrSend(x, pos)), u)
  {
    FirstLeaves(s.q.waitReceive, u);
    TaskStillOk(s, Apply(s, IsrSend(x, pos)), u);
  }

  lemma IsrSendKeepsDiscipline(s: Sys, x: Item, pos: Position)
    requires s.q.Valid() && Discipline(s) && Enabled(s, IsrSend(x, pos))
    ensures Discipline(Apply(s, IsrSend(x, pos)))
  {
    FirstLeaves(s.q.waitReceive, 0);
    forall u: Task ensures TaskOk(Apply(s, IsrSend(x, pos)), u) {
      assert TaskOk(s, u);
      IsrSendKeepsTask(s, x, pos, u);
    }
  }

  /** On the queue alone: an interrupt's receive either wakes the first sender or is counted. */
  lemma IsrReceiveBound(q: QState, woken: set<Task>)
    requires q.Valid() && UNLOCKED <= q.rxLock < 127
    requires Distinct(q.waitSend) && forall t :: t in q.waitSend ==> t !in woken
    requires q.waitSend != [] ==> q.Spaces() <= |woken| + Owed(q.rxLock)
    ensures var o := ReceiveFromISR(q);
      && o.q.Valid() && o.q.waitReceive == q.waitReceive && o.q.txLock == q.txLock && |o.q.items| <= |q.items|
      && (o.q.waitSend != [] ==> o.q.Spaces() <= |woken + Elements(o.woken)| + Owed(o.q.rxLock))
  {
    if q.items == [] || q.rxLock != UNLOCKED {
      assert woken + Elements<Task>([]) == woken;
    } else {
      EventKeepsBound(q.waitSend, woken, q.Spaces(), Owed(q.rxLock));
    }
  }

  lemma IsrReceiveKeepsWakeups(s: Sys)
    requires s.q.Valid() && NoLostWakeup(s) && UNLOCKED <= s.q.rxLock && Enabled(s, IsrReceive)
    requires Distinct(s.q.waitSend) && forall t :: t in s.q.waitSend ==> t !in s.wokenSenders
    ensures Apply(s, IsrReceive).q.Valid() && NoLostWakeup(Apply(s, IsrReceive))
  {
    IsrReceiveBound(s.q, s.wokenSenders);
    var s', o := Apply(s, IsrReceive), ReceiveFromISR(s.q);
    assert s'.q == o.q && s'.wokenSenders == s.wokenSenders + Elements(o.woken)
      && s'.wokenReceivers == s.wokenReceivers;
  }

  lemma IsrReceiveKeepsTask(s: Sys, u: Task)
    requires Enabled(s, IsrReceive) && Distinct(s.q.waitSend) && TaskOk(s, u)
    ensures TaskOk(Apply(s, IsrReceive), u)
  {
    FirstLeaves(s.q.waitSend, u);
    TaskStillOk(s, Apply(s, IsrReceive), u);
  }

  lemma IsrReceiveKeepsDiscipline(s: Sys)
    requires s.q.Valid() && Discipline(s) && Enabled(s, IsrReceive)
    ensures Discipline(Apply(s, IsrReceive))
  {
    FirstLeaves(s.q.waitSend, 0);
    forall u: Task ensures TaskOk(Apply(s, IsrReceive), u) {
      assert TaskOk(s, u);
      IsrReceiveKeepsTask(s, u);
    }
  }

  lemma OtherStepsKeepInv(s: Sys, step: Step)
    requires Inv(s) && Enabled(s, step) && (step.Call? || step.CheckTimeOut? || step.Run?)
    ensures Inv(Apply(s, step))
  {
    var s' := Apply(s, step);
    assert TaskOk(s, step.t);
    forall u: Task ensures TaskOk(s', u) {
      assert TaskOk(s, u);
    }
  }

  lemma StepKeepsInv(s: Sys, step: Step)
    requires Inv(s) && Enabled(s, step)
    ensures Inv(Apply(s, step))
  {
    match step
    case Attempt(t, willing) =>
      if Critical(s.q, At(s, t).op).ok {
        AttemptKeepsWakeups(s, t, willing);
        AttemptKeepsDiscipline(s, t, willing);
      } else {
        FailedAttemptKeepsWakeups(s, t, willing);
        FailedAttemptKeepsDiscipline(s, t, willing);
      }
    case Advance(t) =>
      AdvanceKeepsWakeups(s, t);
      AdvanceKeepsDiscipline(s, t);
    case Place(t, at) => PlaceKeepsInv(s, t, at);
    case TimeOut(t) => TimeOutKeepsInv(s, t);
    case IsrSend(x, pos) =>
      WaitersAreNotWoken(s);
      LocksAreCounts(s);
      IsrSendKeepsWakeups(s, x, pos);
      IsrSendKeepsDiscipline(s, x, pos);
    case IsrReceive =>
      WaitersAreNotWoken(s);
      LocksAreCounts(s);
      IsrReceiveKeepsWakeups(s);
      IsrReceiveKeepsDiscipline(s);
    case _ => OtherStepsKeepInv(s, step);
  }

  // ----- whole runs -----

  /** The run takes each step where it is enabled. */
  ghost predicate IsRun(s: Sys, steps: seq<Step>, s': Sys)
    decreases |steps|
  {
    if steps == [] then s == s'
    else Enabled(s, steps[0]) && IsRun(Apply(s, steps[0]), steps[1..], s')
  }

  lemma {:induction false} RunKeepsInv(s: Sys, steps: seq<Step>, s': Sys)
    requires Inv(s) && IsRun(s, steps, s')
    ensures Inv(s')
    decreases |steps|
  {
    if steps != [] {
      StepKeepsInv(s, steps[0]);
      RunKeepsInv(Apply(s, steps[0]), steps[1..], s');
    }
  }

  lemma InitInv(s: Sys)
    requires Init(s)
    ensures Inv(s)
  {
    forall t: Task ensures TaskOk(s, t) {
    }
  }

  /** Over every run from an empty queue, wake-ups are never lost; in particular once every
      woken task has retried and the queue is unlocked, a reader waits only on an empty
      queue and a writer only on a full one. */
  lemma WakeupsAreNeverLost(s: Sys, steps: seq<Step>, s': Sys)
    requires Init(s) && IsRun(s, steps, s')
    ensures NoLostWakeup(s')
    ensures s'.owner == None && s'.wokenReceivers == {} && s'.q.waitReceive != [] ==> s'.q.items == []
    ensures s'.owner == None && s'.wokenSenders == {} && s'.q.waitSend != [] ==> s'.q.length <= |s'.q.items|
  {
    InitInv(s);
    RunKeepsInv(s, steps, s');
  }

  /** A task is on at most one event list, only while it is blocked in a call of that kind,
      and only one task at a time is between suspending and resuming the scheduler. */
  lemma RunKeepsTasksOk(s: Sys, steps: seq<Step>, s': Sys, t: Task, u: Task)
    requires Init(s) && IsRun(s, steps, s')
    ensures t in s'.q.waitReceive ==> Parked(At(s', t)) && !At(s', t).op.Sending? && t !in s'.q.waitSend
    ensures t in s'.q.waitSend ==> Parked(At(s', t)) && At(s', t).op.Sending?
    ensures InWindow(At(s', t)) && InWindow(At(s', u)) ==> t == u
    ensures s'.owner == None ==> s'.q.rxLock == s'.q.txLock == UNLOCKED
  {
    InitInv(s);
    RunKeepsInv(s, steps, s');
    assert TaskOk(s', t) && TaskOk(s', u);
  }

  // ----- items come out in order -----

  predicate SendsToBack(step: Step) {
    match step
    case Call(_, op) => op.Sending? ==> op.pos == Back
    case IsrSend(_, pos) => pos == Back
    case _ => true
  }

  ghost predicate InOrder(s: Sys) {
    && s.sent == s.got + s.q.items
    && forall t: Task :: !At(s, t).Outside? && At(s, t).op.Sending? ==> At(s, t).op.pos == Back
  }

  lemma StepKeepsOrder(s: Sys, step: Step)
    requires InOrder(s) && Enabled(s, step) && SendsToBack(step)
    ensures InOrder(Apply(s, step))
  {
    var s' := Apply(s, step);
    if SomeTaskStep(step) {
      assert forall u: Task :: u != step.t ==> At(s', u) == At(s, u);
    } else {
      assert forall u: Task :: At(s', u) == At(s, u);
    }
    if s.q.items != [] {
      assert s.got + s.q.items == (s.got + [s.q.items[0]]) + s.q.items[1..];
    }
  }

  /** When every send is to the back, whichever tasks and interrupts take part, what has
      been received is a prefix of what was sent and the queue holds exactly the rest. */
  lemma {:induction false} QueueIsFifo(s: Sys, steps: seq<Step>, s': Sys)
    requires InOrder(s) && IsRun(s, steps, s') && forall i :: 0 <= i < |steps| ==> SendsToBack(steps[i])
    ensures s'.sent == s'.got + s'.q.items
    decreases |steps|
  {
    if steps != [] {
      StepKeepsOrder(s, steps[0]);
      QueueIsFifo(Apply(s, steps[0]), steps[1..], s');
    }
  }

  // ----- the count stays within the length -----

  /** The step does not start to overwrite with an item that holds no data. */
  predicate OverwritesWithData(step: Step) {
    match step
    case Call(_, op) => DataIfOverwrite(op)
    case IsrSend(x, pos) => pos == Overwrite ==> x != []
    case _ => true
  }

  predicate DataIfOverwrite(op: Op) {
    op.Sending? && op.pos == Overwrite ==> op.x != []
  }

  ghost predicate WithinLength(s: Sys) {
    && s.q.Valid() && s.q.Within()
    && forall t: Task :: !At(s, t).Outside? ==>
         DataIfOverwrite(At(s, t).op) && OverwritesOnlySingle(At(s, t).op, s.q.length)
  }

  lemma StepStaysWithin(s: Sys, step: Step)
    requires WithinLength(s) && Enabled(s, step) && OverwritesWithData(step)
    ensures WithinLength(Apply(s, step))
  {
    var s' := Apply(s, step);
    if SomeTaskStep(step) {
      var pc := At(s, step.t);
      if step.Attempt? && pc.op.Sending? {
        CountStaysWithinExactly(s.q, pc.op.x, pc.op.pos);
      }
      assert forall u: Task :: u != step.t ==> At(s', u) == At(s, u);
    } else {
      if step.IsrSend? {
        CountStaysWithinExactly(s.q, step.x, step.pos);
      }
      assert forall u: Task :: At(s', u) == At(s, u);
    }
  }

  /** Over every run in which nobody overwrites with an item that holds no data, the queue never
      holds more than its length; so a writer that still waits when all the woken have retried
      waits on a queue that is exactly full. */
  lemma {:induction false} RunStaysWithin(s: Sys, steps: seq<Step>, s': Sys)
    requires WithinLength(s) && IsRun(s, steps, s')
    requires forall i :: 0 <= i < |steps| ==> OverwritesWithData(steps[i])
    ensures WithinLength(s') && |s'.q.items| <= s'.q.length == s.q.length
    decreases |steps|
  {
    if steps != [] {
      StepStaysWithin(s, steps[0]);
      RunStaysWithin(Apply(s, steps[0]), steps[1..], s');
    }
  }

  // ----- why the bound on interrupts is needed -----

  /** An interrupt send whatever the lock count. */
  ghost function IsrSendAt(s: Sys, x: Item, pos: Position): Sys {
    var o := SendFromISR(s.q, x, pos);
    Recorded(WithWoken(s, o, true), Sending(x, pos), o)
  }

  /** A reader waits, another task has just locked the one-place queue to test it, and so many
      interrupt overwrites have been counted. */
  function OverwrittenWhileLocked(x: Item, count: LockCount): Sys {
    Sys(QState([x], 1, 0, count, [], [1]), map[1 := Blocked(Receiving), 2 := UnlockingTx(Receiving, Retry)], Some(2),
      {}, {}, [x], [])
  }

  lemma OverwrittenIsValid(x: Item, count: LockCount)
    requires 1 <= count
    ensures Inv(OverwrittenWhileLocked(x, count))
  {
    var s := OverwrittenWhileLocked(x, count);
    forall t: Task ensures TaskOk(s, t) {
    }
  }

  /** The lock count is an int8_t, so the invariant survives an interrupt send on a locked
      queue, in every state with that count, exactly when the count is below 127. */
  lemma SendKeepsInvariantExactlyBelow127(count: LockCount)
    requires 0 <= count
    ensures (forall s, x, pos :: Inv(s) && s.q.txLock == count && (pos == Overwrite ==> s.q.length == 1)
                               ==> Inv(IsrSendAt(s, x, pos)))
            <==> count < 127
  {
    if count < 127 {
      forall s, x, pos | Inv(s) && s.q.txLock == count && (pos == Overwrite ==> s.q.length == 1)
        ensures Inv(IsrSendAt(s, x, pos))
      {
        assert Enabled(s, IsrSend(x, pos));
        StepKeepsInv(s, IsrSend(x, pos));
      }
    } else {
      var s := OverwrittenWhileLocked([0], 127);
      OverwrittenIsValid([0], 127);
      assert !NoLostWakeup(IsrSendAt(s, [0], Overwrite));
    }
  }

  /** An interrupt receive whatever the lock count. */
  ghost function IsrReceiveAt(s: Sys): Sys {
    var o := ReceiveFromISR(s.q);
    Recorded(WithWoken(s, o, false), Receiving, o)
  }

  /** A writer waits, another has just locked the full one-place queue to test it, and so many
      interrupt receives have been counted. */
  function TakenWhileLocked(x: Item, count: LockCount): Sys {
    var op := Sending(x, Back);
    Sys(QState([x], 1, count, 0, [1], []), map[1 := Blocked(op), 2 := UnlockingTx(op, Retry)], Some(2), {}, {}, [x], [])
  }

  lemma TakenIsValid(x: Item, count: LockCount)
    requires 0 <= count
    ensures Inv(TakenWhileLocked(x, count))
  {
    var s := TakenWhileLocked(x, count);
    forall t: Task ensures TaskOk(s, t) {
    }
  }

  /** The same of an interrupt receive and cRxLock. */
  lemma ReceiveKeepsInvariantExactlyBelow127(count: LockCount)
    requires 0 <= count
    ensures (forall s :: Inv(s) && s.q.rxLock == count ==> Inv(IsrReceiveAt(s))) <==> count < 127
  {
    if count < 127 {
      forall s | Inv(s) && s.q.rxLock == count ensures Inv(IsrReceiveAt(s)) {
        assert Enabled(s, IsrReceive);
        StepKeepsInv(s, IsrReceive);
      }
    } else {
      var s := TakenWhileLocked([0], 127);
      TakenIsValid([0], 127);
      assert !NoLostWakeup(IsrReceiveAt(s));
    }
  }

  /** n interrupt overwrites in a row. */
  ghost function IsrOverwrites(s: Sys, x: Item, n: nat): Sys {
    if n == 0 then s else IsrSendAt(IsrOverwrites(s, x, n - 1), x, Overwrite)
  }

  lemma {:induction false} OverwritesAreCounted(s: Sys, x: Item, n: nat)
    requires x != [] && s.q.length == 1 && s.q.txLock == 0 && 1 <= n <= 128
    ensures IsrOverwrites(s, x, n).q.items == [x] + (if s.q.items == [] then [] else s.q.items[1..])
    ensures IsrOverwrites(s, x, n).q
      == s.q.(items := IsrOverwrites(s, x, n).q.items, txLock := if n == 128 then -128 else n)
    ensures IsrOverwrites(s, x, n).wokenReceivers == s.wokenReceivers
    ensures IsrOverwrites(s, x, n).pc == s.pc && IsrOverwrites(s, x, n).owner == s.owner
  {
    if n > 1 {
      OverwritesAreCounted(s, x, n - 1);
    }
    var before := IsrOverwrites(s, x, n - 1);
    assert before.wokenReceivers + Elements<Task>([]) == before.wokenReceivers;
  }

  lemma {:induction false} RunSnoc(s: Sys, steps: seq<Step>, mid: Sys, step: Step)
    requires IsRun(s, steps, mid) && Enabled(mid, step)
    ensures IsRun(s, steps + [step], Apply(mid, step))
    decreases |steps|
  {
    if steps == [] {
      assert [step][1..] == [];
    } else {
      RunSnoc(Apply(s, steps[0]), steps[1..], mid, step);
      assert (steps + [step])[1..] == steps[1..] + [step];
    }
  }

  /** An empty mailbox, unlocked, with such waiting readers and such tasks in it. */
  function Mailbox(lock: LockCount, waiting: seq<Task>, pc: map<Task, Pc>, owner: Option<Task>): Sys {
    Sys(QState([], 1, lock, lock, [], waiting), pc, owner, {}, {}, [], [])
  }

  /** A reader of an empty mailbox finds nothing. */
  lemma ReaderFindsNothing(waiting: seq<Task>, pc: map<Task, Pc>, t: Task)
    requires t !in pc
    ensures var m0 := Mailbox(UNLOCKED, waiting, pc, None);
      var m1 := m0.(pc := pc[t := Trying(Receiving)]);
      && Enabled(m0, Call(t, Receiving)) && Apply(m0, Call(t, Receiving)) == m1
      && Enabled(m1, Attempt(t, true)) && Apply(m1, Attempt(t, true)) == m0.(pc := pc[t := Suspending(Receiving)])
  {
    var m1 := Mailbox(UNLOCKED, waiting, pc[t := Trying(Receiving)], None);
    assert Elements<Task>([]) == {};
    assert m1.pc[t := Suspending(Receiving)] == pc[t := Suspending(Receiving)];
  }

  /** It suspends the scheduler and locks the queue. */
  lemma ReaderLocks(s: Sys, steps: seq<Step>, waiting: seq<Task>, pc: map<Task, Pc>, t: Task)
    returns (more: seq<Step>)
    requires t !in pc && IsRun(s, steps, Mailbox(UNLOCKED, waiting, pc, None))
    ensures IsRun(s, more, Mailbox(0, waiting, pc[t := CheckingTimeOut(Receiving)], Some(t)))
  {
    var m0 := Mailbox(UNLOCKED, waiting, pc, None);
    var m1 := m0.(pc := pc[t := Trying(Receiving)]);
    var m2 := m0.(pc := pc[t := Suspending(Receiving)]);
    ReaderFindsNothing(waiting, pc, t);
    RunSnoc(s, steps, m0, Call(t, Receiving));
    RunSnoc(s, steps + [Call(t, Receiving)], m1, Attempt(t, true));
    more := steps + [Call(t, Receiving)] + [Attempt(t, true)];
    RunSnoc(s, more, m2, Advance(t));
    var m3 := Apply(m2, Advance(t));
    RunSnoc(s, more + [Advance(t)], m3, Advance(t));
    more := more + [Advance(t)] + [Advance(t)];
    assert Apply(m3, Advance(t)).pc == pc[t := CheckingTimeOut(Receiving)];
  }

  /** A reader that has locked an empty mailbox sees that it has to wait. */
  lemma ReaderTests(s: Sys, steps: seq<Step>, pc: map<Task, Pc>, t: Task) returns (more: seq<Step>)
    requires IsRun(s, steps, Mailbox(0, [], pc[t := CheckingTimeOut(Receiving)], Some(t)))
    ensures IsRun(s, more, Mailbox(0, [], pc[t := Placing(Receiving)], Some(t)))
  {
    var m0 := Mailbox(0, [], pc[t := CheckingTimeOut(Receiving)], Some(t));
    RunSnoc(s, steps, m0, CheckTimeOut(t, false));
    var m1 := Apply(m0, CheckTimeOut(t, false));
    more := steps + [CheckTimeOut(t, false)];
    RunSnoc(s, more, m1, Advance(t));
    more := more + [Advance(t)];
    assert Apply(m1, Advance(t)).pc == pc[t := Placing(Receiving)];
  }

  /** And goes to sleep. */
  lemma ReaderSleeps(s: Sys, steps: seq<Step>, pc: map<Task, Pc>, t: Task) returns (more: seq<Step>)
    requires IsRun(s, steps, Mailbox(0, [], pc[t := CheckingTimeOut(Receiving)], Some(t)))
    ensures IsRun(s, more, Mailbox(UNLOCKED, [t], pc[t := Blocked(Receiving)], None))
  {
    more := ReaderTests(s, steps, pc, t);
    var m0 := Mailbox(0, [], pc[t := Placing(Receiving)], Some(t));
    RunSnoc(s, more, m0, Place(t, 0));
    var m1 := Apply(m0, Place(t, 0));
    assert m1.q.waitReceive == [t];
    more := ReaderUnlocks(s, more + [Place(t, 0)], m1, t, Block);
    assert m1.pc[t := Blocked(Receiving)] == pc[t := Blocked(Receiving)];
  }

  /** Unlocking with nothing counted, or with a count that has wrapped, wakes nobody. */
  lemma ReaderUnlocks(s: Sys, steps: seq<Step>, m: Sys, t: Task, after: After) returns (more: seq<Step>)
    requires IsRun(s, steps, m) && At(m, t) == UnlockingTx(Receiving, after) && m.owner == Some(t) && after != GiveUp
    requires m.q.txLock <= 0 && m.q.rxLock <= 0
    ensures var next := if after == Retry then Trying(Receiving) else Blocked(Receiving);
      IsRun(s, more, m.(q := m.q.(txLock := UNLOCKED, rxLock := UNLOCKED), pc := m.pc[t := next], owner := None))
  {
    var none := Elements<Task>([]);
    assert none == {} && m.q.waitReceive[..0] == [] && m.q.waitReceive[0..] == m.q.waitReceive;
    assert m.q.waitSend[..0] == [] && m.q.waitSend[0..] == m.q.waitSend;
    assert m.wokenReceivers + none == m.wokenReceivers && m.wokenSenders + none == m.wokenSenders;
    RunSnoc(s, steps, m, Advance(t));
    var m1 := m.(q := m.q.(txLock := UNLOCKED), pc := m.pc[t := UnlockingRx(Receiving, after)]);
    assert Apply(m, Advance(t)) == m1;
    RunSnoc(s, steps + [Advance(t)], m1, Advance(t));
    var m2 := m.(q := m.q.(txLock := UNLOCKED, rxLock := UNLOCKED), pc := m.pc[t := Resuming(Receiving, after)]);
    assert Apply(m1, Advance(t)) == m2;
    RunSnoc(s, steps + [Advance(t)] + [Advance(t)], m2, Advance(t));
    more := steps + [Advance(t)] + [Advance(t)] + [Advance(t)];
    var next := if after == Retry then Trying(Receiving) else Blocked(Receiving);
    assert Apply(m2, Advance(t)) == m2.(pc := m.pc[t := next], owner := None);
  }

  /** A run from an empty mailbox to where one reader sleeps and another holds the lock. */
  lemma ReaderSleepsAnotherLocks() returns (s: Sys, steps: seq<Step>, locked: Sys)
    ensures Init(s) && IsRun(s, steps, locked)
    ensures locked == Mailbox(0, [1], map[1 := Blocked(Receiving), 2 := CheckingTimeOut(Receiving)], Some(2))
  {
    s := Mailbox(UNLOCKED, [], map[], None);
    steps := ReaderLocks(s, [], [], map[], 1);
    steps := ReaderSleeps(s, steps, map[], 1);
    steps := ReaderLocks(s, steps, [1], map[1 := Blocked(Receiving)], 2);
    locked := Mailbox(0, [1], map[1 := Blocked(Receiving), 2 := CheckingTimeOut(Receiving)], Some(2));
    assert locked.pc == map[1 := Blocked(Receiving)][2 := CheckingTimeOut(Receiving)];
  }

  /** The failing run, from an empty mailbox on: with one reader asleep and another holding the
      lock, 128 overwrites from interrupts are counted away, the second reader unlocks, and there
      are an item, a sleeping reader, an unlocked queue, and nobody woken. */
  lemma The128thSendIsForgotten(x: Item)
    returns (s: Sys, steps: seq<Step>, locked: Sys, rest: seq<Step>, s': Sys)
    requires x != []
    ensures Init(s) && IsRun(s, steps, locked) && IsRun(IsrOverwrites(locked, x, 128), rest, s')
    ensures s'.owner == None && s'.wokenReceivers == {} && s'.q.txLock == UNLOCKED
    ensures s'.q.items == [x] && s'.q.waitReceive == [1] && At(s', 1).Blocked? && !NoLostWakeup(s')
  {
    s, steps, locked := ReaderSleepsAnotherLocks();
    OverwritesAreCounted(locked, x, 128);
    var m := IsrOverwrites(locked, x, 128);
    var op := Receiving;
    RunSnoc(m, [], m, CheckTimeOut(2, false));
    var m1 := Apply(m, CheckTimeOut(2, false));
    rest := [] + [CheckTimeOut(2, false)];
    RunSnoc(m, rest, m1, Advance(2));
    var m2 := Apply(m1, Advance(2));
    rest := rest + [Advance(2)];
    assert At(m2, 2) == UnlockingTx(op, Retry);
    rest := ReaderUnlocks(m, rest, m2, 2, Retry);
    s' := m2.(q := m2.q.(txLock := UNLOCKED, rxLock := UNLOCKED), pc := m2.pc[2 := Trying(op)], owner := None);
  }
}
