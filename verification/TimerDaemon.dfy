/**
 The timer daemon of timers.c as it runs: 32-bit ticks, a current and an overflow list
 that are switched when the tick count wraps, and a command queue.  Each method is proved
 to do to the unwrapped view what TimerSpec says.  Ghost fields keep what the wrapped
 values leave out: the epoch, the unwrapped issue times and the log of callbacks.
 */
module TimerDaemon {
  import opened Arithmetic
  import opened TimerSpec

  datatype MessageId = START | STOP | CHANGE_PERIOD | DELETE

  /** DaemonTaskMessage_t: for a start the value is the tick count when it was issued. */
  datatype Message = Message(id: MessageId, timer: Timer, value: Tick)

  // ----- from wrapped to unwrapped -----

  function Lift(s: seq<Due>, base: nat): seq<Due> {
    if s == [] then [] else [Due(s[0].timer, base + s[0].at)] + Lift(s[1..], base)
  }

  ghost predicate Ticks(s: seq<Due>) {
    s == [] || (s[0].at < WRAP && Ticks(s[1..]))
  }

  function Meaning(m: Message, issued: nat): Command {
    Command(match m.id case START => Start case CHANGE_PERIOD => ChangePeriod(m.value) case _ => Stop, m.timer, issued)
  }

  function Commands(q: seq<Message>, issued: seq<nat>): seq<Command>
    requires |q| == |issued|
  {
    if q == [] then [] else [Meaning(q[0], issued[0])] + Commands(q[1..], issued[1..])
  }

  ghost predicate Stamped(q: seq<Message>, issued: seq<nat>)
    requires |q| == |issued|
  {
    q == [] || ((q[0].id == START ==> q[0].value == issued[0] % WRAP) && Stamped(q[1..], issued[1..]))
  }

  lemma {:induction false} CommandsAppend(q: seq<Message>, issued: seq<nat>, m: Message, at: nat)
    requires |q| == |issued| && Stamped(q, issued) && (m.id == START ==> m.value == at % WRAP)
    ensures Commands(q + [m], issued + [at]) == Commands(q, issued) + [Meaning(m, at)]
    ensures Stamped(q + [m], issued + [at])
  {
    if q == [] {
      assert q + [m] == [m] && issued + [at] == [at];
    } else {
      CommandsAppend(q[1..], issued[1..], m, at);
      assert (q + [m])[1..] == q[1..] + [m] && (issued + [at])[1..] == issued[1..] + [at];
    }
  }

  lemma {:induction false} CommandsLength(q: seq<Message>, issued: seq<nat>)
    requires |q| == |issued|
    ensures |Commands(q, issued)| == |q|
  {
    if q != [] {
      CommandsLength(q[1..], issued[1..]);
    }
  }

  /** Every expiry lies in an epoch. */
  ghost predicate AllIn(s: seq<Due>, epoch: nat) {
    s == [] || (Epoch(s[0].at) == epoch && AllIn(s[1..], epoch))
  }

  lemma {:induction false} LiftedIn(s: seq<Due>, epoch: nat)
    requires Ticks(s)
    ensures AllIn(Lift(s, epoch * WRAP), epoch)
  {
    if s != [] {
      TickOfEpoch(epoch, s[0].at, 0);
      LiftedIn(s[1..], epoch);
    }
  }

  lemma {:induction false} LiftedSorted(s: seq<Due>, base: nat)
    ensures Sorted(Lift(s, base)) <==> Sorted(s)
  {
    if s != [] {
      LiftedSorted(s[1..], base);
    }
  }

  lemma {:induction false} SortedParts(a: seq<Due>, b: seq<Due>)
    requires Sorted(a + b)
    ensures Sorted(a) && Sorted(b)
  {
    if a == [] {
      assert a + b == b;
    } else {
      ConcatHead(a, b);
      SortedParts(a[1..], b);
      assert |a| > 1 ==> (a + b)[1] == a[1];
    }
  }

  lemma ConcatHead(a: seq<Due>, b: seq<Due>)
    requires a != []
    ensures (a + b)[0] == a[0] && (a + b)[1..] == a[1..] + b
  {
  }

  lemma {:induction false} TicksInsert(s: seq<Due>, d: Due)
    requires Ticks(s) && d.at < WRAP
    ensures Ticks(Insert(s, d))
  {
    if s == [] || d.at < s[0].at {
      assert Insert(s, d)[1..] == s;
    } else {
      TicksInsert(s[1..], d);
      assert Insert(s, d)[1..] == Insert(s[1..], d);
    }
  }

  lemma {:induction false} LiftInsert(s: seq<Due>, d: Due, base: nat)
    ensures Lift(Insert(s, d), base) == Insert(Lift(s, base), Due(d.timer, base + d.at))
  {
    if s == [] || d.at < s[0].at {
      assert Insert(s, d)[1..] == s;
    } else {
      LiftInsert(s[1..], d, base);
      assert Insert(s, d)[1..] == Insert(s[1..], d);
    }
  }

  lemma {:induction false} InsertBefore(a: seq<Due>, b: seq<Due>, d: Due)
    requires b == [] || d.at < b[0].at
    ensures Insert(a + b, d) == Insert(a, d) + b
  {
    if a == [] {
      assert a + b == b;
    } else {
      InsertBefore(a[1..], b, d);
      ConcatHead(a, b);
      if d.at < a[0].at {
        assert [d] + (a + b) == ([d] + a) + b;
      } else {
        assert [a[0]] + (Insert(a[1..], d) + b) == ([a[0]] + Insert(a[1..], d)) + b;
      }
    }
  }

  lemma {:induction false} InsertBehind(a: seq<Due>, base: nat, b: seq<Due>, d: Due)
    requires Ticks(a) && base + WRAP <= d.at
    ensures Insert(Lift(a, base) + b, d) == Lift(a, base) + Insert(b, d)
  {
    var la := Lift(a, base);
    if a == [] {
      assert la + b == b;
    } else {
      InsertBehind(a[1..], base, b, d);
      ConcatHead(la, b);
      assert [la[0]] + (la[1..] + Insert(b, d)) == la + Insert(b, d);
    }
  }

  /** Inserting a tick of this epoch into the current list is inserting its time. */
  lemma InsertCurrent(a: seq<Due>, b: seq<Due>, d: Due, base: nat)
    requires Ticks(a) && Ticks(b) && d.at < WRAP
    ensures Ticks(Insert(a, d))
    ensures Insert(Lift(a, base) + Lift(b, base + WRAP), Due(d.timer, base + d.at))
         == Lift(Insert(a, d), base) + Lift(b, base + WRAP)
  {
    TicksInsert(a, d);
    LiftInsert(a, d, base);
    InsertBefore(Lift(a, base), Lift(b, base + WRAP), Due(d.timer, base + d.at));
  }

  /** Inserting a tick of the next epoch goes past the current list into the overflow list. */
  lemma InsertOverflow(a: seq<Due>, b: seq<Due>, d: Due, base: nat)
    requires Ticks(a) && Ticks(b) && d.at < WRAP
    ensures Ticks(Insert(b, d))
    ensures Insert(Lift(a, base) + Lift(b, base + WRAP), Due(d.timer, base + WRAP + d.at))
         == Lift(a, base) + Lift(Insert(b, d), base + WRAP)
  {
    TicksInsert(b, d);
    LiftInsert(b, d, base + WRAP);
    InsertBehind(a, base, Lift(b, base + WRAP), Due(d.timer, base + WRAP + d.at));
  }

  lemma {:induction false} LiftWithout(s: seq<Due>, t: Timer, base: nat)
    requires Ticks(s)
    ensures Lift(Without(s, t), base) == Without(Lift(s, base), t)
    ensures Ticks(Without(s, t))
  {
    if s != [] {
      LiftWithout(s[1..], t, base);
      assert s[0].timer != t ==> Without(s, t)[1..] == Without(s[1..], t);
    }
  }

  lemma {:induction false} WithoutConcat(a: seq<Due>, b: seq<Due>, t: Timer)
    ensures Without(a + b, t) == Without(a, t) + Without(b, t)
  {
    if a == [] {
      assert a + b == b;
    } else {
      WithoutConcat(a[1..], b, t);
      ConcatHead(a, b);
    }
  }

  // ----- the wrap-around decisions -----

  datatype Verdict = ProcessNow | ToCurrent | ToOverflow

  /** The nested tests of prvInsertTimerInActiveList. */
  function Classify(nextExpiry: Tick, timeNow: Tick, commandTime: Tick, period: Tick): Verdict {
    if nextExpiry <= timeNow then
      if (timeNow - commandTime) % WRAP >= period then ProcessNow else ToOverflow
    else
      if timeNow < commandTime && nextExpiry >= commandTime then ProcessNow else ToCurrent
  }

  /** With less than a full cycle between command and processing, the tests are exact: process
      now when the period has elapsed, otherwise the list of the epoch the expiry falls in. */
  lemma ClassifyIsExact(now: nat, from: nat, period: Tick)
    requires from <= now < from + WRAP && 0 < period
    ensures Classify((from + period) % WRAP, now % WRAP, from % WRAP, period)
         == if from + period <= now then ProcessNow
            else if Epoch(from + period) == Epoch(now) then ToCurrent
            else ToOverflow
    ensures now < from + period ==> Epoch(now) <= Epoch(from + period) <= Epoch(now) + 1
  {
  }

  /** Without that bound they are exact if and only if the time passed, as the 32-bit subtraction
      sees it, still is the period at least. */
  lemma LateClassifyIsExactly(now: nat, from: nat, period: Tick)
    requires from <= now && 0 < period
    ensures Classify((from + period) % WRAP, now % WRAP, from % WRAP, period)
         == (if from + period <= now then ProcessNow
             else if Epoch(from + period) == Epoch(now) then ToCurrent
             else ToOverflow)
      <==> now < from + WRAP || (now - from) % WRAP >= period
  {
    var seen := (now - from) % WRAP;
    var cycles := (now - from) / WRAP;
    assert now - seen == from + cycles * WRAP;
    SameTick(from, cycles);
    SameTick(from + period, cycles);
    ClassifyIsExact(now, now - seen, period);
    if now < from + WRAP {
      ModUnique(now - from, WRAP, 0, now - from);
    }
  }

  lemma SameTick(x: nat, cycles: nat)
    ensures (x + cycles * WRAP) % WRAP == x % WRAP
  {
    ModUnique(x + cycles * WRAP, WRAP, x / WRAP + cycles, x % WRAP);
  }

  /** The input: a timer of the longest period is due at 60, and the daemon looks at the clock at
      100 and then at 2^32 + 99.  Its restart carries 60; the next expiry, 2^32 + 59, has passed,
      and yet it is put on the overflow list, to be run a cycle late. */
  lemma RestartOfACycleAgoIsMisjudged()
    ensures var from, now, period: Tick := 60, WRAP + 99, WRAP - 1;
      && now < 100 + WRAP && from + period <= now
      && Classify((from + period) % WRAP, now % WRAP, from % WRAP, period) == ToOverflow
  {
  }

  /** What the decision does to the unwrapped list. */
  lemma PlacementIsExact(current: seq<Due>, overflow: seq<Due>, epoch: nat, time: Tick, t: Timer, from: nat,
      period: Tick)
    requires Ticks(current) && Ticks(overflow) && 0 < period
    requires from <= epoch * WRAP + time < from + WRAP
    ensures var x := Due(t, (from + period) % WRAP);
      var active := Lift(current, epoch * WRAP) + Lift(overflow, epoch * WRAP + WRAP);
      Ticks(Insert(current, x)) && Ticks(Insert(overflow, x)) &&
      match Classify(x.at, time, from % WRAP, period)
      case ProcessNow => from + period <= epoch * WRAP + time
      case ToCurrent =>
        && epoch * WRAP + time < from + period
        && Insert(active, Due(t, from + period))
          == Lift(Insert(current, x), epoch * WRAP) + Lift(overflow, epoch * WRAP + WRAP)
      case ToOverflow =>
        && epoch * WRAP + time < from + period
        && Insert(active, Due(t, from + period))
          == Lift(current, epoch * WRAP) + Lift(Insert(overflow, x), epoch * WRAP + WRAP)
  {
    var now, x := epoch * WRAP + time, Due(t, (from + period) % WRAP);
    ModUnique(now, WRAP, epoch, time);
    ClassifyIsExact(now, from, period);
    EpochSplit(from + period);
    InsertCurrent(current, overflow, x, epoch * WRAP);
    InsertOverflow(current, overflow, x, epoch * WRAP);
  }

  /** A tick count below the last one seen means exactly that a new epoch has begun. */
  lemma SwitchIsExact(last: nat, now: nat)
    requires last <= now < last + WRAP
    ensures now % WRAP < last % WRAP <==> Epoch(last) < Epoch(now)
    ensures Epoch(last) < Epoch(now) ==> Epoch(now) == Epoch(last) + 1
  {
  }

  /** The same, of the unwrapped arming. */
  lemma ArmIs(c: Clock, current: seq<Due>, overflow: seq<Due>, epoch: nat, time: Tick, t: Timer, from: nat)
    requires Ticks(current) && Ticks(overflow) && t in c.period && 0 < c.period[t]
    requires c.now == epoch * WRAP + time && from <= c.now < from + WRAP
    requires c.active == Lift(current, epoch * WRAP) + Lift(overflow, epoch * WRAP + WRAP)
    ensures var x := Due(t, (from + c.period[t]) % WRAP);
      && Ticks(Insert(current, x)) && Ticks(Insert(overflow, x))
      && Arm(c, t, from) ==
         match Classify(x.at, time, from % WRAP, c.period[t])
         case ProcessNow => (c, true)
         case ToCurrent =>
           (c.(active := Lift(Insert(current, x), epoch * WRAP) + Lift(overflow, epoch * WRAP + WRAP)), false)
         case ToOverflow =>
           (c.(active := Lift(current, epoch * WRAP) + Lift(Insert(overflow, x), epoch * WRAP + WRAP)), false)
  {
    PlacementIsExact(current, overflow, epoch, time, t, from, c.period[t]);
  }

  /** A tick count read less than a cycle after the last one, and the time it stands for. */
  lemma TickRead(epoch: nat, lastTime: Tick, tick: Tick, now: nat)
    requires epoch * WRAP + lastTime <= now < epoch * WRAP + lastTime + WRAP && tick == now % WRAP
    ensures Epoch(epoch * WRAP + lastTime) == epoch
    ensures tick < lastTime <==> epoch < Epoch(now)
    ensures now == (if tick < lastTime then epoch + 1 else epoch) * WRAP + tick
  {
    ModUnique(epoch * WRAP + lastTime, WRAP, epoch, lastTime);
    SwitchIsExact(epoch * WRAP + lastTime, now);
    EpochSplit(now);
  }

  lemma TickOfEpoch(epoch: nat, x: Tick, period: Tick)
    ensures (epoch * WRAP + x) % WRAP == x && Epoch(epoch * WRAP + x) == epoch
    ensures (epoch * WRAP + x + period) % WRAP == (x + period) % WRAP
    ensures 0 < period ==> ((x + period) % WRAP > x <==> x + period < WRAP)
    ensures x + period < WRAP ==> (x + period) % WRAP == x + period
  {
    ModUnique(epoch * WRAP + x, WRAP, epoch, x);
  }

  lemma EpochSplit(now: nat)
    ensures now == Epoch(now) * WRAP + now % WRAP
  {
  }

  lemma PoppedHead(c: Clock, current: seq<Due>, overflow: seq<Due>, base: nat)
    requires current != [] && c.active == Lift(current, base) + Lift(overflow, base + WRAP)
    ensures c.active != [] && c.active[0] == Due(current[0].timer, base + current[0].at)
    ensures c.active[1..] == Lift(current[1..], base) + Lift(overflow, base + WRAP)
  {
    ConcatHead(Lift(current, base), Lift(overflow, base + WRAP));
  }

  /** The drain loop's choice: a timer whose reload time does not wrap goes back ... */
  lemma LeftoverGoesBack(c: Clock, current: seq<Due>, overflow: seq<Due>, base: nat, again: Tick)
    requires current != [] && c.active == Lift(current, base) + Lift(overflow, base + WRAP)
    requires Ticks(current) && Ticks(overflow) && current[0].timer in c.period && current[0].timer in c.reload
    requires again == current[0].at + c.period[current[0].timer]
    ensures var d, t := current[0], current[0].timer;
      && Ticks(Insert(current[1..], Due(t, again)))
      && DrainOne(c, base + WRAP) == c.(
           active := Lift(Insert(current[1..], Due(t, again)), base) + Lift(overflow, base + WRAP),
           log := c.log + [Call(t, base + d.at, c.now)])
  {
    var t := current[0].timer;
    PoppedHead(c, current, overflow, base);
    assert DrainOne(c, base + WRAP).active == Insert(c.active[1..], Due(t, base + again));
    InsertCurrent(current[1..], overflow, Due(t, again), base);
  }

  /** ... and any other leaves the list, an auto-reload one sending a restart. */
  lemma LeftoverLeaves(c: Clock, current: seq<Due>, overflow: seq<Due>, base: nat)
    requires current != [] && c.active == Lift(current, base) + Lift(overflow, base + WRAP)
    requires Ticks(current) && current[0].timer in c.period
    requires current[0].timer in c.reload ==> WRAP <= current[0].at + c.period[current[0].timer]
    ensures var d, t := current[0], current[0].timer;
      DrainOne(c, base + WRAP) == c.(
        active := Lift(current[1..], base) + Lift(overflow, base + WRAP),
        queue := if t in c.reload then c.queue + [Command(Start, t, base + d.at)] else c.queue,
        log := c.log + [Call(t, base + d.at, c.now)])
  {
    PoppedHead(c, current, overflow, base);
  }

  /** The head of the current list has been run, and is back in the list if its reload time
      `again` does not wrap. */
  ghost predicate Reloaded(c: Clock, c': Clock, current: seq<Due>, left: seq<Due>, base: nat, again: Tick)
    requires current != []
  {
    var d, t := current[0], current[0].timer;
    && left == (if t in c.reload && again > d.at then Insert(current[1..], Due(t, again)) else current[1..])
    && c'.queue == (if t in c.reload && again <= d.at then c.queue + [Command(Start, t, base + d.at)] else c.queue)
    && c'.log == c.log + [Call(t, base + d.at, c.now)]
    && c'.now == c.now && c'.period == c.period && c'.reload == c.reload
  }

  lemma LeftoverIs(c: Clock, c': Clock, current: seq<Due>, left: seq<Due>, overflow: seq<Due>, base: nat, again: Tick)
    requires current != [] && Ticks(current) && Ticks(overflow) && current[0].timer in c.period
    requires c.active == Lift(current, base) + Lift(overflow, base + WRAP)
    requires c'.active == Lift(left, base) + Lift(overflow, base + WRAP)
    requires var sum := current[0].at + c.period[current[0].timer];
      if again > current[0].at then again == sum else WRAP <= sum
    requires Reloaded(c, c', current, left, base, again)
    ensures c.active != [] && c.active[0].timer in c.period && c' == DrainOne(c, base + WRAP)
  {
    PoppedHead(c, current, overflow, base);
    if current[0].timer in c.reload && again > current[0].at {
      LeftoverGoesBack(c, current, overflow, base, again);
    } else {
      LeftoverLeaves(c, current, overflow, base);
    }
  }

  /** The earliest active timer is the head of the current list, or of the other if that is empty. */
  lemma FirstActive(a: seq<Due>, b: seq<Due>, base: nat)
    requires Ticks(a) && Ticks(b) && base % WRAP == 0
    ensures var active := Lift(a, base) + Lift(b, base + WRAP);
      && (active == [] <==> a == [] && b == [])
      && (a != [] ==> active[0] == Due(a[0].timer, base + a[0].at) && Epoch(active[0].at) == Epoch(base))
      && (a == [] && b != [] ==>
           active[0] == Due(b[0].timer, base + WRAP + b[0].at) && Epoch(active[0].at) == Epoch(base) + 1)
  {
  }

  /** An empty current list and an overflow list are, one epoch on, the same the other way round. */
  lemma SwitchedLists(c: Clock, overflow: seq<Due>, base: nat)
    requires c.active == Lift([], base) + Lift(overflow, base + WRAP)
    ensures c.active == Lift(overflow, base + WRAP) + Lift([], base + WRAP + WRAP)
  {
    assert Lift([], base) + Lift(overflow, base + WRAP) == Lift(overflow, base + WRAP) + Lift([], base + WRAP + WRAP);
  }

  lemma TickDistance(time: Tick, target: Tick)
    ensures time <= target ==> (target - time) % WRAP == target - time
    ensures (0 - time as int) % WRAP == if time == 0 then 0 else WRAP - time
  {
  }

  /** How long the daemon sleeps when nothing has expired: exactly to the earliest expiry when
      that is in this epoch, and otherwise to the wrap, which is not past it. */
  lemma SleepIsExact(current: seq<Due>, overflow: seq<Due>, base: nat, time: Tick)
    requires Ticks(current) && Ticks(overflow) && base % WRAP == 0
    requires current != [] || overflow != []
    requires current != [] ==> time < current[0].at
    ensures var active := Lift(current, base) + Lift(overflow, base + WRAP);
      var ticks := ((if current == [] then 0 else current[0].at) - time) % WRAP;
      && active != [] && base + time < active[0].at && base + time + ticks <= active[0].at
      && (if Epoch(active[0].at) == Epoch(base) then base + time + ticks == active[0].at
          else (base + time + ticks) % WRAP == 0)
  {
    FirstActive(current, overflow, base);
    TickDistance(time, if current == [] then 0 else current[0].at);
  }

  /** A block of the daemon: from when, for how long or for ever, and the timers then active. */
  datatype Sleep = Sleep(now: nat, ticks: nat, forEver: bool, active: seq<Due>)

  /** For ever only without an active timer; otherwise to the earliest expiry, or only up to the
      wrap when that is in the next epoch, and so never past it. */
  ghost predicate SleepsInTime(s: Sleep) {
    if s.active == [] then s.forEver
    else
      && !s.forEver && s.now < s.active[0].at && s.now + s.ticks <= s.active[0].at
      && (if Epoch(s.active[0].at) == Epoch(s.now) then s.now + s.ticks == s.active[0].at
          else (s.now + s.ticks) % WRAP == 0)
  }

  class Daemon {
    var current: seq<Due>        // *pxCurrentTimerList
    var overflow: seq<Due>       // *pxOverflowTimerList
    var lastTime: Tick           // xLastTime
    const capacity: nat          // configTIMER_QUEUE_LENGTH
    var queue: seq<Message>      // xTimerQueue
    var period: map<Timer, Tick>
    var autoReload: set<Timer>
    ghost var epoch: nat
    ghost var issued: seq<nat>
    ghost var log: seq<Call>

    ghost function Base(): nat
      reads this
    {
      epoch * WRAP
    }

    /** The unwrapped state, taking the time to be `now`. */
    ghost function ViewAt(now: nat): Clock
      requires |issued| == |queue|
      reads this
    {
      Clock(Lift(current, Base()) + Lift(overflow, Base() + WRAP), Commands(queue, issued), now, log, period,
        autoReload)
    }

    ghost predicate WellFormed()
      reads this
    {
      |issued| == |queue| && Ticks(current) && Ticks(overflow) && Stamped(queue, issued)
    }

    ghost predicate Valid()
      reads this
    {
      WellFormed() && View().Valid()
    }

    ghost function View(): Clock
      requires |issued| == |queue|
      reads this
    {
      ViewAt(Base() + lastTime)
    }

    /** Both lists are sorted; the current one holds expiries of the epoch of the last sampled
        time only, and the overflow list of the next epoch only. */
    ghost predicate InEpochs()
      reads this
    {
      && |issued| == |queue| && Sorted(current) && Sorted(overflow)
      && AllIn(Lift(current, Base()), Epoch(View().now))
      && AllIn(Lift(overflow, Base() + WRAP), Epoch(View().now) + 1)
    }

    lemma EpochInvariant()
      requires Valid()
      ensures InEpochs()
    {
      SortedParts(Lift(current, Base()), Lift(overflow, Base() + WRAP));
      LiftedSorted(current, Base());
      LiftedSorted(overflow, Base() + WRAP);
      LiftedIn(current, epoch);
      LiftedIn(overflow, epoch + 1);
      TickOfEpoch(epoch, lastTime, 0);
    }

    /** prvCheckForValidListAndQueue: a command queue of configTIMER_QUEUE_LENGTH places. */
    constructor (capacity: nat)
      ensures Valid() && this.capacity == capacity
      ensures View() == Clock([], [], 0, [], map[], {})
    {
      this.capacity := capacity;
      current, overflow, lastTime, queue, period, autoReload := [], [], 0, [], map[], {};
      epoch, issued, log := 0, [], [];
    }

    /** xTimerCreate. */
    method CreateTimer(t: Timer, timerPeriod: Tick, reload: bool)
      requires Valid() && t !in period && timerPeriod > 0
      modifies this`period, this`autoReload
      ensures Valid()
      ensures View() == old(View()).(period := old(View()).period[t := timerPeriod],
                                     reload := if reload then old(View()).reload + {t} else old(View()).reload - {t})
    {
      PeriodChangeOk(View().active, View().queue, period, t, timerPeriod);
      period := period[t := timerPeriod];
      autoReload := if reload then autoReload + {t} else autoReload - {t};
    }

    /** xTimerGenericCommand from a task or an interrupt, without a block time: refused when the
        queue is full. */
    method SendCommand(m: Message, ghost at: nat) returns (sent: bool)
      requires Valid() && (m.id == START ==> m.value == at % WRAP) && CommandOk(Meaning(m, at), period)
      modifies this`queue, this`issued
      ensures Valid() && sent == (|old(View()).queue| < capacity)
      ensures View() == if sent then Queued(old(View()), Meaning(m, at)) else old(View())
    {
      CommandsLength(queue, issued);
      sent := |queue| < capacity;
      if sent {
        AppendOk(View().queue, Meaning(m, at), period);
        QueueRestart(m, at);
      }
    }

    /** The sending itself; the daemon's own restarts come here with room in the queue, which
        configASSERT checks. */
    method QueueRestart(m: Message, ghost at: nat)
      requires WellFormed() && (m.id == START ==> m.value == at % WRAP)
      modifies this`queue, this`issued
      ensures WellFormed()
      ensures queue == old(queue) + [m] && issued == old(issued) + [at]
      ensures Commands(queue, issued) == old(Commands(queue, issued)) + [Meaning(m, at)]
    {
      CommandsAppend(queue, issued, m, at);
      queue := queue + [m];
      issued := issued + [at];
    }

    /** prvInsertTimerInActiveList, for a timer armed at the unwrapped time `from`. */
    method InsertTimerInActiveList(t: Timer, nextExpiry: Tick, timeNow: Tick, commandTime: Tick, ghost from: nat)
      returns (processNow: bool)
      requires WellFormed() && t in period && 0 < period[t]
      requires timeNow == lastTime && commandTime == from % WRAP && nextExpiry == (from + period[t]) % WRAP
      requires from <= Base() + lastTime < from + WRAP
      modifies this`current, this`overflow
      ensures WellFormed()
      ensures (View(), processNow) == Arm(old(View()), t, from)
    {
      ArmIs(View(), current, overflow, epoch, lastTime, t, from);
      processNow := false;
      if nextExpiry <= timeNow {
        if (timeNow - commandTime) % WRAP >= period[t] {
          processNow := true;
        } else {
          overflow := Insert(overflow, Due(t, nextExpiry));
        }
      } else {
        if timeNow < commandTime && nextExpiry >= commandTime {
          processNow := true;
        } else {
          current := Insert(current, Due(t, nextExpiry));
        }
      }
    }

    /** prvProcessExpiredTimer: the head of the current list has expired. */
    method ProcessExpiredTimer(nextExpireTime: Tick, timeNow: Tick)
      requires Valid() && current != []
      requires nextExpireTime == current[0].at <= timeNow == lastTime
      modifies this`current, this`overflow, this`queue, this`issued, this`log
      ensures WellFormed() && View() == ExpireHead(old(View()))
    {
      ghost var expiry := Base() + nextExpireTime;
      PoppedHead(View(), current, overflow, Base());
      var t := current[0].timer;
      current := current[1..];
      if t in autoReload {
        Rearm(t, nextExpireTime, timeNow, expiry);
      }
      log := log + [Call(t, expiry, Base() + lastTime)];
    }

    /** The auto-reload part of prvProcessExpiredTimer. */
    method Rearm(t: Timer, nextExpireTime: Tick, timeNow: Tick, ghost expiry: nat)
      requires WellFormed() && t in period && 0 < period[t] && timeNow == lastTime
      requires expiry == Base() + nextExpireTime && nextExpireTime <= lastTime
      modifies this`current, this`overflow, this`queue, this`issued
      ensures WellFormed()
      ensures var (armed, late) := Arm(old(View()), t, expiry);
        View() == if late then Queued(armed, Command(Start, t, expiry)) else armed
    {
      TickOfEpoch(epoch, nextExpireTime, period[t]);
      var late := InsertTimerInActiveList(t, (nextExpireTime + period[t]) % WRAP, timeNow, nextExpireTime, expiry);
      if late {
        QueueRestart(Message(START, t, nextExpireTime), expiry);
      }
    }

    /** One turn of the loop in prvSwitchTimerLists: run the head of the current list, and put
        it back if it expires again before the wrap, else send a restart. */
    method RunLeftover(ghost now: nat)
      requires WellFormed() && ViewAt(now).Valid() && current != []
      modifies this`current, this`queue, this`issued, this`log
      ensures WellFormed() && ViewAt(now) == DrainOne(old(ViewAt(now)), Base() + WRAP)
    {
      ghost var before, list := ViewAt(now), current;
      PoppedHead(before, current, overflow, Base());
      ghost var again := RunHead(now);
      LeftoverIs(before, ViewAt(now), list, current, overflow, Base(), again);
    }

    method RunHead(ghost now: nat) returns (ghost again: Tick)
      requires WellFormed() && ViewAt(now).Valid() && current != [] && current[0].timer in period
      modifies this`current, this`queue, this`issued, this`log
      ensures WellFormed() && Reloaded(old(ViewAt(now)), ViewAt(now), old(current), current, Base(), again)
      ensures var d := old(current)[0]; var sum := d.at + period[d.timer];
        if again > d.at then again == sum else WRAP <= sum
    {
      var nextExpireTime := current[0].at;
      var t := current[0].timer;
      current := current[1..];
      log := log + [Call(t, Base() + nextExpireTime, now)];
      TickOfEpoch(epoch, nextExpireTime, period[t]);
      again := (nextExpireTime + period[t]) % WRAP;
      if t in autoReload {
        ReloadLeftover(t, nextExpireTime);
      }
    }

    /** The auto-reload part of that turn. */
    method ReloadLeftover(t: Timer, nextExpireTime: Tick)
      requires WellFormed() && t in period
      modifies this`current, this`queue, this`issued
      ensures WellFormed()
      ensures var again: Tick := (nextExpireTime + period[t]) % WRAP;
        if again > nextExpireTime then
          current == Insert(old(current), Due(t, again)) && Commands(queue, issued) == old(Commands(queue, issued))
        else
          && current == old(current)
          && Commands(queue, issued) == old(Commands(queue, issued)) + [Command(Start, t, Base() + nextExpireTime)]
    {
      TickOfEpoch(epoch, nextExpireTime, period[t]);
      var reloadTime: Tick := (nextExpireTime + period[t]) % WRAP;
      if reloadTime > nextExpireTime {
        TicksInsert(current, Due(t, reloadTime));
        current := Insert(current, Due(t, reloadTime));
      } else {
        QueueRestart(Message(START, t, nextExpireTime), Base() + nextExpireTime);
      }
    }

    /** The exchange of the two list pointers once the current list is empty. */
    method SwapLists(ghost now: nat)
      requires WellFormed() && ViewAt(now).Valid() && current == []
      modifies this`current, this`overflow, this`epoch
      ensures WellFormed() && epoch == old(epoch) + 1
      ensures ViewAt(now) == old(ViewAt(now)) == Drain(old(ViewAt(now)), old(Base()) + WRAP)
    {
      FirstActive([], overflow, Base());
      SwitchedLists(ViewAt(now), overflow, Base());
      current, overflow := overflow, current;
      epoch := epoch + 1;
    }

    /** prvSwitchTimerLists: the tick count has wrapped, so whatever is left in the current list
        has expired; `now` is the unwrapped time. */
    method SwitchTimerLists(ghost now: nat)
      requires Valid() && Base() + lastTime <= now
      modifies this`current, this`overflow, this`queue, this`issued, this`log, this`epoch
      ensures WellFormed() && epoch == old(epoch) + 1
      ensures ViewAt(now) == Drain(old(ViewAt(now)), old(Base()) + WRAP)
    {
      EmptyCurrent(now);
      SwapLists(now);
    }

    /** The loop of prvSwitchTimerLists. */
    method EmptyCurrent(ghost now: nat)
      requires WellFormed() && ViewAt(now).Valid()
      modifies this`current, this`queue, this`issued, this`log
      ensures WellFormed() && ViewAt(now).Valid() && current == []
      ensures Drain(ViewAt(now), Base() + WRAP) == Drain(old(ViewAt(now)), Base() + WRAP)
    {
      while current != []
        invariant WellFormed() && ViewAt(now).Valid()
        invariant Drain(ViewAt(now), Base() + WRAP) == Drain(old(ViewAt(now)), Base() + WRAP)
        decreases Load(ViewAt(now).active, Base() + WRAP)
      {
        LeftoverIsDrained(now);
        RunLeftover(now);
      }
    }

    lemma LeftoverIsDrained(now: nat)
      requires WellFormed() && ViewAt(now).Valid() && current != []
      ensures var c, bound := ViewAt(now), Base() + WRAP;
        && c.active != [] && c.active[0].timer in c.period
        && DrainOne(c, bound).Valid() && Drain(DrainOne(c, bound), bound) == Drain(c, bound)
        && Load(DrainOne(c, bound).active, bound) < Load(c.active, bound)
    {
      FirstActive(current, overflow, Base());
      DrainOneShrinks(ViewAt(now), Base() + WRAP);
    }

    /** prvSampleTimeNow: the tick count read is the unwrapped time modulo the cycle. */
    method SampleTimeNow(tickCount: Tick, ghost now: nat) returns (timeNow: Tick, switched: bool)
      requires Valid() && View().now <= now < View().now + WRAP && tickCount == now % WRAP
      modifies this`current, this`overflow, this`queue, this`issued, this`log, this`epoch, this`lastTime
      ensures Valid() && timeNow == tickCount == lastTime
      ensures View() == Sample(old(View()), now)
      ensures switched <==> Epoch(old(View()).now) < Epoch(now)
      ensures !switched ==> current == old(current) && overflow == old(overflow)
    {
      TickRead(epoch, lastTime, tickCount, now);
      timeNow := tickCount;
      switched := SampleTick(timeNow, now);
    }

    /** The same for a tick count whose place in unwrapped time is known. */
    method SampleTick(timeNow: Tick, ghost now: nat) returns (switched: bool)
      requires Valid() && now == Base() + (if timeNow < lastTime then WRAP else 0) + timeNow
      modifies this`current, this`overflow, this`queue, this`issued, this`log, this`epoch, this`lastTime
      ensures WellFormed() && lastTime == timeNow && switched == (timeNow < old(lastTime))
      ensures View() == if switched then Drain(old(ViewAt(now)), old(Base()) + WRAP) else old(ViewAt(now))
      ensures !switched ==> current == old(current) && overflow == old(overflow)
    {
      if timeNow < lastTime {
        SwitchTimerLists(now);
        switched := true;
      } else {
        switched := false;
      }
      lastTime := timeNow;
    }

    /** prvGetNextExpireTime. */
    method GetNextExpireTime() returns (nextExpireTime: Tick, listWasEmpty: bool)
      requires WellFormed()
      ensures listWasEmpty <==> current == []
      ensures nextExpireTime == if current == [] then 0 else current[0].at
    {
      listWasEmpty := current == [];
      if !listWasEmpty {
        nextExpireTime := current[0].at;
      } else {
        nextExpireTime := 0;
      }
    }

    /** prvProcessTimerOrBlockTask.  When the daemon blocks, it is for ever only if no timer is
        active, and otherwise not past the earliest expiry: exactly until then if that is in
        this epoch, else until the tick count wraps. */
    method ProcessTimerOrBlockTask(nextExpireTime: Tick, listWasEmpty: bool, tickCount: Tick, ghost now: nat)
      returns (blocks: bool, ticks: Tick, forEver: bool)
      requires Valid() && View().now <= now < View().now + WRAP && tickCount == now % WRAP
      requires listWasEmpty <==> current == []
      requires nextExpireTime == if current == [] then 0 else current[0].at
      modifies this
      ensures Valid() && View() == TimerPass(old(View()), now)
      ensures blocks ==> Epoch(old(View()).now) == Epoch(now)
      ensures blocks ==> SleepsInTime(Sleep(now, ticks, forEver, View().active))
      ensures !blocks && Epoch(old(View()).now) == Epoch(now) ==>
        old(View()).active != [] && old(View()).active[0].at <= now
    {
      blocks, ticks, forEver := false, 0, false;
      TimerPassValid(View(), now);
      var timeNow, switched := SampleTimeNow(tickCount, now);
      if !switched {
        FirstActive(current, overflow, Base());
        if !listWasEmpty && nextExpireTime <= timeNow {
          ProcessExpiredTimer(nextExpireTime, timeNow);
        } else {
          blocks := true;
          ticks, forEver := BlockTime(nextExpireTime, listWasEmpty, timeNow);
        }
      }
    }

    /** How long to wait for a command when no timer has expired. */
    method BlockTime(nextExpireTime: Tick, listWasEmpty: bool, timeNow: Tick) returns (ticks: Tick, forEver: bool)
      requires WellFormed() && timeNow == lastTime && (listWasEmpty <==> current == [])
      requires nextExpireTime == if current == [] then 0 else current[0].at
      requires current != [] ==> timeNow < nextExpireTime
      ensures SleepsInTime(Sleep(View().now, ticks, forEver, View().active))
    {
      TickOfEpoch(epoch, lastTime, 0);
      FirstActive(current, overflow, Base());
      if current != [] || overflow != [] {
        SleepIsExact(current, overflow, Base(), timeNow);
      }
      forEver := listWasEmpty;
      if listWasEmpty {
        forEver := overflow == [];
      }
      ticks := (nextExpireTime - timeNow) % WRAP;
    }

    /** xQueueReceive of the next command, and removal of its timer from any list. */
    method TakeCommand() returns (message: Message, ghost from: nat)
      requires Valid() && queue != []
      modifies this`queue, this`issued, this`current, this`overflow
      ensures message == old(queue[0]) && from == old(issued[0])
      ensures WellFormed() && View() == Popped(old(View()))
      ensures Valid()
    {
      message, from := queue[0], issued[0];
      RemoveFromList(message.timer);
      queue, issued := queue[1..], issued[1..];
    }

    /** uxListRemove of a timer from the list it is on, if any. */
    method RemoveFromList(t: Timer)
      requires WellFormed()
      modifies this`current, this`overflow
      ensures WellFormed() && View() == old(View()).(active := Without(old(View()).active, t))
    {
      TakeOff(View(), current, overflow, Base(), t);
      current, overflow := Without(current, t), Without(overflow, t);
    }

    /** The start and reset commands: armed from the time of the command. */
    method StartTimer(t: Timer, commandTime: Tick, timeNow: Tick, ghost from: nat)
      requires WellFormed() && t in period && 0 < period[t]
      requires timeNow == lastTime && commandTime == from % WRAP && from <= View().now < from + WRAP
      modifies this`current, this`overflow, this`queue, this`issued, this`log
      ensures WellFormed() && View() == Execute(old(View()), Command(Start, t, from))
    {
      var next: Tick := (commandTime + period[t]) % WRAP;
      assert next == (from + period[t]) % WRAP;
      var late := InsertTimerInActiveList(t, next, timeNow, commandTime, from);
      if late {
        log := log + [Call(t, from + period[t], Base() + lastTime)];
        if t in autoReload {
          QueueRestart(Message(START, t, next), from + period[t]);
        }
      }
    }

    /** The change-period command: armed from now, so it can never be late. */
    method ChangeTimerPeriod(t: Timer, newPeriod: Tick, timeNow: Tick)
      requires WellFormed() && t in period && 0 < newPeriod && timeNow == lastTime
      modifies this`current, this`overflow, this`period
      ensures WellFormed() && View() == Execute(old(View()), Command(ChangePeriod(newPeriod), t, 0))
    {
      ModUnique(View().now, WRAP, epoch, lastTime);
      period := period[t := newPeriod];
      var _ := InsertTimerInActiveList(t, (timeNow + newPeriod) % WRAP, timeNow, timeNow, View().now);
    }

    /** One turn of the loop in prvProcessReceivedCommands.  A start must have been issued less
        than a full tick cycle before. */
    method ProcessReceivedCommand(tickCount: Tick, ghost now: nat)
      requires Valid() && queue != []
      requires View().now <= now < View().now + WRAP && tickCount == now % WRAP
      requires queue[0].id == START ==> issued[0] <= now < issued[0] + WRAP
      modifies this
      ensures Valid() && View() == CommandPass(old(View()), now)
    {
      CommandPassValid(View(), now);
      assert CommandOk(View().queue[0], period);
      var message, from := TakeCommand();
      var timeNow, _ := SampleTimeNow(tickCount, now);
      match message.id {
        case START => StartTimer(message.timer, message.value, timeNow, from);
        case CHANGE_PERIOD => ChangeTimerPeriod(message.timer, message.value, timeNow);
        case STOP =>
        case DELETE =>
      }
    }
  }

  /** Taking a timer off whichever list it is in. */
  lemma TakeOff(c: Clock, current: seq<Due>, overflow: seq<Due>, base: nat, t: Timer)
    requires Ticks(current) && Ticks(overflow)
    requires c.active == Lift(current, base) + Lift(overflow, base + WRAP)
    ensures Ticks(Without(current, t)) && Ticks(Without(overflow, t))
    ensures Without(c.active, t) == Lift(Without(current, t), base) + Lift(Without(overflow, t), base + WRAP)
  {
    WithoutConcat(Lift(current, base), Lift(overflow, base + WRAP), t);
    LiftWithout(current, t, base);
    LiftWithout(overflow, t, base + WRAP);
  }
}
