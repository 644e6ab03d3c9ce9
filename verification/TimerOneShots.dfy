/**
 One-shot timers over whole runs, and what a change of period does to timers of either kind.
 A one-shot timer that is started is called once, for its one expiry and not before, and is
 then neither active nor queued, whatever the daemon does in which order and however late.
 */
module TimerOneShots {
  import opened TimerSpec
  import opened TimerRuns

  /** A one-shot timer started at T, n calls of it ago: still pending, in one place, and not yet
      called since; or called once, for T plus its period, and gone. */
  ghost predicate Once(c: Clock, t: Timer, T: nat, n: nat) {
    && c.Valid() && t in c.period && t !in c.reload && n <= |CallsOf(c.log, t)|
    && var calls, v := Since(c, t, n), T + c.period[t];
    if CommandsOf(c.queue, t) != [] then
      calls == [] && DuesOf(c.active, t) == [] && CommandsOf(c.queue, t) == [Command(Start, t, T)]
    else if DuesOf(c.active, t) != [] then
      calls == [] && DuesOf(c.active, t) == [Due(t, v)]
    else
      |calls| == 1 && calls[0].due == v <= calls[0].at <= c.now
  }

  // ----- every step keeps it -----

  lemma DrainOnce(c: Clock, bound: nat, t: Timer, T: nat, n: nat)
    requires Once(c, t, T, n) && bound <= c.now
    ensures Once(Drain(c, bound), t, T, n)
  {
    var v := T + c.period[t];
    if DuesOf(c.active, t) == [] {
      DrainLeavesOthers(c, bound, t);
    } else if v < bound {
      DrainFiresOneShot(c, bound, t, v);
    } else {
      DrainUntouched(c, bound, t, v);
    }
  }

  lemma SampleOnce(c: Clock, now: nat, t: Timer, T: nat, n: nat)
    requires Once(c, t, T, n) && c.now <= now
    ensures Once(Sample(c, now), t, T, n)
  {
    if Epoch(c.now) < Epoch(now) {
      DrainOnce(c.(now := now), (Epoch(c.now) + 1) * WRAP, t, T, n);
    }
  }

  lemma ExpireHeadOnce(c: Clock, t: Timer, T: nat, n: nat)
    requires Once(c, t, T, n) && c.active != [] && c.active[0].at <= c.now
    ensures Once(ExpireHead(c), t, T, n)
  {
    ExpireHeadValid(c);
    if c.active[0].timer == t {
      DueOfHead(c.active, t);
      CallsOfAppend(c.log, Call(t, c.active[0].at, c.now), t);
    } else {
      ExpireHeadShares(c, t);
    }
  }

  lemma TimerPassOnce(c: Clock, now: nat, t: Timer, T: nat, n: nat)
    requires Once(c, t, T, n) && c.now <= now
    ensures Once(TimerPass(c, now), t, T, n) && TimerPass(c, now).period == c.period
  {
    SampleOnce(c, now, t, T, n);
    var s := Sample(c, now);
    if Epoch(c.now) == Epoch(now) && s.active != [] && s.active[0].at <= now {
      ExpireHeadOnce(s, t, T, n);
    }
  }

  lemma CommandPassOtherOnce(c: Clock, now: nat, t: Timer, T: nat, n: nat)
    requires Once(c, t, T, n) && c.now <= now && c.queue != [] && c.queue[0].timer != t
    ensures Once(CommandPass(c, now), t, T, n) && CommandPass(c, now).period[t] == c.period[t]
  {
    var m := c.queue[0];
    var popped := Popped(c);
    DuesOfWithout(c.active, m.timer, t);
    SampleOnce(popped, now, t, T, n);
    var s := Sample(popped, now);
    ExecuteValid(s, m);
    ExecuteOther(s, m, t);
    SameShareOnce(s, Execute(s, m), t, T, n);
  }

  lemma SameShareOnce(c: Clock, r: Clock, t: Timer, T: nat, n: nat)
    requires Once(c, t, T, n) && SameShare(c, r, t) && r.Valid()
    ensures Once(r, t, T, n)
  {
  }

  /** A start of a one-shot timer of which nothing else is pending: it is armed, or called at once
      if its expiry has passed. */
  lemma StartOnce(c: Clock, t: Timer, T: nat)
    requires c.Valid() && t in c.period && t !in c.reload
    requires DuesOf(c.active, t) == [] && CommandsOf(c.queue, t) == []
    ensures Once(Execute(c, Command(Start, t, T)), t, T, |CallsOf(c.log, t)|)
  {
    var v := T + c.period[t];
    ExecuteValid(c, Command(Start, t, T));
    if v <= c.now {
      CallsOfAppend(c.log, Call(t, v, c.now), t);
    } else {
      DuesOfInsert(c.active, Due(t, v), t);
    }
  }

  /** So whatever the timer did before, the receipt of a start with no other command of it behind
      begins its one life anew. */
  lemma StartBeginsOnce(c: Clock, now: nat, t: Timer, T: nat)
    requires c.Valid() && t in c.period && t !in c.reload && c.now <= now
    requires c.queue != [] && c.queue[0] == Command(Start, t, T) && CommandsOf(c.queue, t) == [c.queue[0]]
    ensures Once(CommandPass(c, now), t, T, |CallsOf(c.log, t)|)
  {
    PoppedShare(c, now, t);
    StartOnce(Sample(Popped(c), now), t, T);
  }

  lemma EventOnce(c: Clock, e: Event, t: Timer, T: nat, n: nat)
    requires Once(c, t, T, n) && Allowed(c, e, t)
    ensures Once(After(c, e), t, T, n) && After(c, e).period[t] == c.period[t]
  {
    match e
    case Issue(m) =>
      CommandsOfAppend(c.queue, m, t);
      AppendOk(c.queue, m, c.period);
    case Create(u, every, autoReload) => PeriodChangeOk(c.active, c.queue, c.period, u, every);
    case Pass(now) => TimerPassOnce(c, now, t, T, n);
    case Obey(now) =>
      if c.queue[0].timer == t {
        OwnStartOnce(c, now, t, T, n);
      } else {
        CommandPassOtherOnce(c, now, t, T, n);
      }
  }

  lemma OwnStartOnce(c: Clock, now: nat, t: Timer, T: nat, n: nat)
    requires Once(c, t, T, n) && c.now <= now && c.queue != [] && c.queue[0].timer == t
    ensures Once(CommandPass(c, now), t, T, n) && CommandPass(c, now).period[t] == c.period[t]
  {
    assert CommandsOf(c.queue, t)[0] == c.queue[0];
    assert n == |CallsOf(c.log, t)|;
    StartBeginsOnce(c, now, t, T);
    PoppedShare(c, now, t);
  }

  lemma {:induction false} RunOnce(c: Clock, events: seq<Event>, c': Clock, t: Timer, T: nat, n: nat)
    requires Once(c, t, T, n) && IsRun(c, events, c', t)
    ensures Once(c', t, T, n) && c'.period[t] == c.period[t]
    decreases |events|
  {
    if events != [] {
      EventOnce(c, events[0], t, T, n);
      RunOnce(After(c, events[0]), events[1..], c', t, T, n);
    }
  }

  // ----- what that means -----

  /** Pending exactly once and not called; or called exactly once, for T + p and not before, and
      neither active nor queued. */
  ghost predicate PendingOrCalled(c: Clock, t: Timer, n: nat, v: nat) {
    && n <= |CallsOf(c.log, t)|
    && var calls, pending := Since(c, t, n), |DuesOf(c.active, t)| + |CommandsOf(c.queue, t)|;
    || (calls == [] && pending == 1)
    || (|calls| == 1 && calls[0].due == v <= calls[0].at && pending == 0)
  }

  /** From the issue of a start of an inactive one-shot timer, be it later than the daemon's last
      look at the clock, and with no further command to it. */
  lemma OneShotFiresOnce(c: Clock, events: seq<Event>, c': Clock, t: Timer, T: nat)
    requires c.Valid() && t in c.period && t !in c.reload
    requires CommandsOf(c.queue, t) == [Command(Start, t, T)] && DuesOf(c.active, t) == []
    requires IsRun(c, events, c', t)
    ensures PendingOrCalled(c', t, |CallsOf(c.log, t)|, T + c.period[t])
  {
    RunOnce(c, events, c', t, T, |CallsOf(c.log, t)|);
  }

  /** The same from the receipt of a start on, though the timer be active: a reset, say. */
  lemma OneShotAfterReceipt(c: Clock, now: nat, events: seq<Event>, c': Clock, t: Timer, T: nat)
    requires c.Valid() && t in c.period && t !in c.reload && c.now <= now
    requires c.queue != [] && c.queue[0] == Command(Start, t, T) && CommandsOf(c.queue, t) == [c.queue[0]]
    requires IsRun(CommandPass(c, now), events, c', t)
    ensures PendingOrCalled(c', t, |CallsOf(c.log, t)|, T + c.period[t])
  {
    StartBeginsOnce(c, now, t, T);
    PoppedShare(c, now, t);
    RunOnce(CommandPass(c, now), events, c', t, T, |CallsOf(c.log, t)|);
  }

  /** When nothing has expired and the start is not still queued, the one call has been made
      exactly if its time has come. */
  lemma CalledExactlyWhenDue(c: Clock, t: Timer, T: nat, n: nat)
    requires Once(c, t, T, n)
    requires CommandsOf(c.queue, t) == [] && (c.active == [] || c.now < c.active[0].at)
    ensures T + c.period[t] <= c.now <==> |Since(c, t, n)| == 1
    ensures T + c.period[t] > c.now <==> DuesOf(c.active, t) == [Due(t, T + c.period[t])]
  {
    if DuesOf(c.active, t) != [] {
      HeadIsEarliest(c.active, t);
    }
  }

  // ----- a change of period -----

  /** Taking the command counts from now, and with the new period; nothing is late. */
  lemma ChangedShare(c: Clock, now: nat, t: Timer, p: Tick)
    requires c.Valid() && c.now <= now && t in c.period && 0 < p
    requires c.queue != [] && c.queue[0].kind == ChangePeriod(p) && c.queue[0].timer == t
    ensures var r := CommandPass(c, now);
      && r.Valid() && t in r.period && r.period[t] == p && r.reload == c.reload && r.now == now
      && DuesOf(r.active, t) == [Due(t, now + p)]
      && [c.queue[0]] + CommandsOf(r.queue, t) == CommandsOf(c.queue, t)
      && CallsOf(r.log, t) == CallsOf(c.log, t)
  {
    CommandPassValid(c, now);
    PoppedShare(c, now, t);
    DuesOfInsert(Sample(Popped(c), now).active, Due(t, now + p), t);
  }

  /** A change of period to p received at `now` puts an auto-reload timer on time from `now`, with
      period p, and begins the one life of a one-shot timer then: active or dormant before, and
      whatever its old period; if and only if no other command of it is queued behind. */
  lemma PeriodChangeTakesOverExactly(c: Clock, now: nat, t: Timer, p: Tick)
    requires c.Valid() && c.now <= now && t in c.period && 0 < p
    requires c.queue != [] && c.queue[0].kind == ChangePeriod(p) && c.queue[0].timer == t
    ensures var r, n := CommandPass(c, now), |CallsOf(c.log, t)|;
      && t in r.period && r.period[t] == p
      && ((if t in c.reload then OnTime(r, t, now, n) else Once(r, t, now, n))
          <==> CommandsOf(c.queue, t) == [c.queue[0]])
  {
    ChangedShare(c, now, t, p);
    var r := CommandPass(c, now);
    assert Expiry(now, p, 1) == Expiry(now, p, 0) + p;
    if CommandsOf(c.queue, t) == [c.queue[0]] {
      assert CommandsOf(r.queue, t) == [];
    } else {
      assert CommandsOf(r.queue, t) != [];
    }
  }

  /** And over every run from then on without further commands to it. */
  lemma KeepsTimeAfterPeriodChange(c: Clock, now: nat, t: Timer, p: Tick, events: seq<Event>, c': Clock)
    requires c.Valid() && c.now <= now && t in c.period && 0 < p
    requires c.queue != [] && c.queue[0].kind == ChangePeriod(p) && c.queue[0].timer == t
    requires CommandsOf(c.queue, t) == [c.queue[0]] && IsRun(CommandPass(c, now), events, c', t)
    ensures var n := |CallsOf(c.log, t)|;
      if t in c.reload then
        && n <= |CallsOf(c'.log, t)|
        && (forall i :: 0 <= i < |Since(c', t, n)| ==>
              Since(c', t, n)[i].due == now + (i + 1) * p <= Since(c', t, n)[i].at)
        && |DuesOf(c'.active, t)| + |CommandsOf(c'.queue, t)| == 1
      else PendingOrCalled(c', t, n, now + p)
  {
    var n := |CallsOf(c.log, t)|;
    PeriodChangeTakesOverExactly(c, now, t, p);
    if t in c.reload {
      RunOnTime(CommandPass(c, now), events, c', t, now, n);
      OnTimeMeans(c', t, now, n);
    } else {
      RunOnce(CommandPass(c, now), events, c', t, now, n);
    }
  }
}
