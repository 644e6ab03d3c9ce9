/**
 The timer task of timers.c from the moment it is created: whatever sequence of commands,
 creations, passes and receipts comes, every state it goes through keeps its two lists in
 order and in their epochs, and no sleep runs past the earliest expiry.
 */
module TimerTasks {
  import opened TimerSpec
  import opened TimerRuns
  import opened TimerDaemon
  import opened TimerOneShots

  /** Nothing yet. */
  const START_UP: Clock := Clock([], [], 0, [], map[], {})

  /** What the daemon relies on: possible events, consecutive looks at the clock less than a tick
      cycle apart, and each start received less than a cycle after the time it carries, which for
      a restart is the expiry last called. */
  ghost predicate Timely(c: Clock, e: Event) {
    && Possible(c, e)
    && (e.Pass? ==> e.now < c.now + WRAP)
    && (e.Obey? ==> e.now < c.now + WRAP && (c.queue[0].kind.Start? ==> e.now < c.queue[0].at + WRAP))
  }

  /** A command that finds the queue full is refused. */
  ghost function Step(c: Clock, e: Event, capacity: nat): (r: Clock)
    requires c.Valid() && Timely(c, e)
    ensures r.Valid()
  {
    AfterValid(c, e);
    if e.Issue? && |c.queue| >= capacity then c else After(c, e)
  }

  ghost predicate TimelyRun(c: Clock, events: seq<Event>, capacity: nat)
    decreases |events|
  {
    events == [] || (c.Valid() && Timely(c, events[0])
      && TimelyRun(Step(c, events[0], capacity), events[1..], capacity))
  }

  ghost function Final(c: Clock, events: seq<Event>, capacity: nat): (r: Clock)
    requires TimelyRun(c, events, capacity)
    ensures c.Valid() ==> r.Valid()
    decreases |events|
  {
    if events == [] then c else Final(Step(c, events[0], capacity), events[1..], capacity)
  }

  /** The message that carries a command. */
  function Carry(m: Command): Message {
    match m.kind
    case Start => Message(START, m.timer, m.at % WRAP)
    case Stop => Message(STOP, m.timer, 0)
    case ChangePeriod(p) => Message(CHANGE_PERIOD, m.timer, p)
  }

  /** One event. */
  method Turn(d: Daemon, e: Event) returns (ghost sleeps: seq<Sleep>)
    requires d.Valid() && Timely(d.View(), e)
    modifies d
    ensures d.Valid() && d.View() == Step(old(d.View()), e, d.capacity)
    ensures |sleeps| <= 1 && forall s :: s in sleeps ==> SleepsInTime(s) && s.active == d.View().active
  {
    sleeps := [];
    match e {
      case Issue(m) =>
        var _ := d.SendCommand(Carry(m), m.at);
      case Create(t, every, reload) =>
        d.CreateTimer(t, every, reload);
      case Pass(now) =>
        ghost var blocks, sleep := TurnPass(d, now);
        if blocks {
          sleeps := [sleep];
        }
      case Obey(now) =>
        HeadOf(d.queue, d.issued);
        d.ProcessReceivedCommand(now % WRAP, now);
    }
  }

  /** A turn of the task's loop without a command. */
  method TurnPass(d: Daemon, now: nat) returns (blocks: bool, ghost sleep: Sleep)
    requires d.Valid() && d.View().now <= now < d.View().now + WRAP
    modifies d
    ensures d.Valid() && d.View() == TimerPass(old(d.View()), now)
    ensures blocks ==> SleepsInTime(sleep) && sleep.now == now && sleep.active == d.View().active
  {
    var nextExpireTime, listWasEmpty := d.GetNextExpireTime();
    var ticks, forEver;
    blocks, ticks, forEver := d.ProcessTimerOrBlockTask(nextExpireTime, listWasEmpty, now % WRAP, now);
    sleep := Sleep(now, ticks, forEver, d.View().active);
  }

  lemma HeadOf(q: seq<Message>, issued: seq<nat>)
    requires |q| == |issued|
    ensures q == [] <==> Commands(q, issued) == []
    ensures q != [] ==> Commands(q, issued)[0] == Meaning(q[0], issued[0])
  {
  }

  /** prvTimerTask, for as long as the events come: in every state it reaches the current list is
      sorted and in the epoch of the last sampled time, the overflow list sorted and in the next
      one, and every sleep on the way ended in time. */
  method TimerTask(capacity: nat, events: seq<Event>) returns (d: Daemon, ghost sleeps: seq<Sleep>)
    requires TimelyRun(START_UP, events, capacity)
    ensures fresh(d) && d.Valid() && d.InEpochs() && d.capacity == capacity
    ensures d.View() == Final(START_UP, events, capacity)
    ensures forall s :: s in sleeps ==> SleepsInTime(s)
  {
    d := new Daemon(capacity);
    sleeps := [];
    var i := 0;
    assert events[0..] == events;
    while i < |events|
      invariant i <= |events| && fresh(d) && d.Valid() && d.capacity == capacity
      invariant TimelyRun(d.View(), events[i..], capacity)
      invariant Final(d.View(), events[i..], capacity) == Final(START_UP, events, capacity)
      invariant forall s :: s in sleeps ==> SleepsInTime(s)
    {
      assert events[i..][0] == events[i] && events[i..][1..] == events[i + 1..];
      ghost var more := Turn(d, events[i]);
      sleeps := sleeps + more;
      i := i + 1;
    }
    d.EpochInvariant();
  }

  // ----- one timer over a run of the task -----

  /** The events but for the commands that a full queue refuses. */
  ghost function Accepted(c: Clock, events: seq<Event>, capacity: nat): seq<Event>
    requires TimelyRun(c, events, capacity)
    decreases |events|
  {
    if events == [] then []
    else
      var rest := Accepted(Step(c, events[0], capacity), events[1..], capacity);
      if events[0].Issue? && |c.queue| >= capacity then rest else [events[0]] + rest
  }

  /** No command is given to timer t. */
  ghost predicate LeavesAlone(events: seq<Event>, t: Timer) {
    events == [] || (!(events[0].Issue? && events[0].m.timer == t) && LeavesAlone(events[1..], t))
  }

  /** The theorems of TimerRuns about one timer are about the task. */
  lemma {:induction false} AcceptedIsRun(c: Clock, events: seq<Event>, capacity: nat, t: Timer)
    requires TimelyRun(c, events, capacity) && LeavesAlone(events, t)
    ensures IsRun(c, Accepted(c, events, capacity), Final(c, events, capacity), t)
    decreases |events|
  {
    if events != [] {
      var next := Step(c, events[0], capacity);
      AcceptedIsRun(next, events[1..], capacity, t);
      if !(events[0].Issue? && |c.queue| >= capacity) {
        var rest := Accepted(next, events[1..], capacity);
        assert ([events[0]] + rest)[1..] == rest;
      }
    }
  }

  /** Let the task run from its creation, then let a start at tick T of an inactive auto-reload
      timer be accepted, and let it run on without further commands to that timer: of its calls
      since, the i-th is for the expiry T + (i + 1) * period, none is early, and exactly one
      further expiry is pending. */
  lemma StartedTimerKeepsTime(capacity: nat, early: seq<Event>, t: Timer, T: nat, late: seq<Event>)
    requires TimelyRun(START_UP, early, capacity)
    requires var c := Final(START_UP, early, capacity);
      && t in c.period && t in c.reload && DuesOf(c.active, t) == [] && CommandsOf(c.queue, t) == []
      && |c.queue| < capacity
    requires LeavesAlone(late, t)
    requires TimelyRun(Step(Final(START_UP, early, capacity), Issue(Command(Start, t, T)), capacity), late, capacity)
    ensures var c := Final(START_UP, early, capacity);
      var c' := Final(Step(c, Issue(Command(Start, t, T)), capacity), late, capacity);
      var n, p := |CallsOf(c.log, t)|, c.period[t];
      && n <= |CallsOf(c'.log, t)|
      && (forall i :: 0 <= i < |Since(c', t, n)| ==>
            Since(c', t, n)[i].due == T + (i + 1) * p <= Since(c', t, n)[i].at)
      && |DuesOf(c'.active, t)| + |CommandsOf(c'.queue, t)| == 1
  {
    var c, start := Final(START_UP, early, capacity), Command(Start, t, T);
    var issued := Step(c, Issue(start), capacity);
    CommandsOfAppend(c.queue, start, t);
    AcceptedIsRun(issued, late, capacity, t);
    NoDriftNoLoss(issued, Accepted(issued, late, capacity), Final(issued, late, capacity), t, T);
  }

  /** Likewise an inactive one-shot timer: pending once and not called, or called once, for T plus
      its period and not before, and then neither active nor queued. */
  lemma StartedOneShotFiresOnce(capacity: nat, early: seq<Event>, t: Timer, T: nat, late: seq<Event>)
    requires TimelyRun(START_UP, early, capacity)
    requires var c := Final(START_UP, early, capacity);
      && t in c.period && t !in c.reload && DuesOf(c.active, t) == [] && CommandsOf(c.queue, t) == []
      && |c.queue| < capacity
    requires LeavesAlone(late, t)
    requires TimelyRun(Step(Final(START_UP, early, capacity), Issue(Command(Start, t, T)), capacity), late, capacity)
    ensures var c := Final(START_UP, early, capacity);
      var c' := Final(Step(c, Issue(Command(Start, t, T)), capacity), late, capacity);
      PendingOrCalled(c', t, |CallsOf(c.log, t)|, T + c.period[t])
  {
    var c, start := Final(START_UP, early, capacity), Command(Start, t, T);
    var issued := Step(c, Issue(start), capacity);
    CommandsOfAppend(c.queue, start, t);
    AcceptedIsRun(issued, late, capacity, t);
    OneShotFiresOnce(issued, Accepted(issued, late, capacity), Final(issued, late, capacity), t, T);
  }
}
