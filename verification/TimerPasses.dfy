/**
 What one pass of the timer daemon does, seen from its log: it calls the earliest timer that
 has expired, and nothing else; and so many passes as there are expired timers catch up.
 A timer that has only been created is not called at all.
 */
module TimerPasses {
  import opened TimerSpec
  import opened TimerRuns

  /** Within an epoch a pass calls the earliest timer, for its expiry and at the time of the pass,
      if that expiry has come; and if not it does nothing but remember the time. */
  lemma PassCallsTheEarliest(c: Clock, now: nat)
    requires c.Valid() && c.now <= now && Epoch(c.now) == Epoch(now)
    ensures var r := TimerPass(c, now);
      if c.active != [] && c.active[0].at <= now then
        r.log == c.log + [Call(c.active[0].timer, c.active[0].at, now)]
      else r == c.(now := now)
  {
  }

  /** At the end of an epoch it calls, in order, for all expiries before that end and for no other,
      and leaves none of them active. */
  lemma PassEndsTheEpoch(c: Clock, now: nat)
    requires c.Valid() && c.now <= now && Epoch(c.now) < Epoch(now)
    ensures var r, bound := TimerPass(c, now), (Epoch(c.now) + 1) * WRAP;
      && c.log <= r.log
      && (c.active != [] ==> InOrderFrom(r.log, |c.log|, c.active[0].at, bound))
      && (forall i :: |c.log| <= i < |r.log| ==> r.log[i].at == now)
      && (r.active == [] || bound <= r.active[0].at)
  {
    var later, bound := c.(now := now), (Epoch(c.now) + 1) * WRAP;
    DrainCallsInOrder(later, bound);
    DrainCallsNow(later, bound);
  }

  lemma {:induction false} DrainCallsNow(c: Clock, bound: nat)
    requires c.Valid()
    ensures var r := Drain(c, bound);
      c.log <= r.log && forall i :: |c.log| <= i < |r.log| ==> r.log[i].at == c.now
    decreases Load(c.active, bound)
  {
    if c.active != [] && c.active[0].at < bound {
      DrainOneHead(c, bound);
      DrainOneShrinks(c, bound);
      DrainCallsNow(DrainOne(c, bound), bound);
    }
  }

  // ----- catching up -----

  /** How many active timers have expired. */
  function Expired(s: seq<Due>, now: nat): nat {
    if s == [] then 0 else (if s[0].at <= now then 1 else 0) + Expired(s[1..], now)
  }

  lemma {:induction false} ExpiredInsert(s: seq<Due>, d: Due, now: nat)
    ensures Expired(Insert(s, d), now) == Expired(s, now) + (if d.at <= now then 1 else 0)
  {
    if s == [] || d.at < s[0].at {
      assert Insert(s, d)[1..] == s;
    } else {
      ExpiredInsert(s[1..], d, now);
      assert Insert(s, d)[1..] == Insert(s[1..], d);
    }
  }

  /** The expired ones are at the head of a sorted list. */
  lemma {:induction false} ExpiredAtHead(s: seq<Due>, now: nat)
    requires Sorted(s)
    ensures Expired(s, now) == 0 <==> s == [] || now < s[0].at
  {
    if s != [] && now < s[0].at {
      ExpiredAtHead(s[1..], now);
    }
  }

  lemma PassTakesOne(c: Clock, now: nat)
    requires c.Valid() && c.now <= now && Epoch(c.now) == Epoch(now)
    ensures TimerPass(c, now).Valid()
    ensures var n := Expired(c.active, now);
      Expired(TimerPass(c, now).active, now) == if n > 0 then n - 1 else 0
  {
    TimerPassValid(c, now);
    ExpiredAtHead(c.active, now);
    if c.active != [] && c.active[0].at <= now {
      var d := c.active[0];
      ExpiredInsert(c.active[1..], Due(d.timer, d.at + c.period[d.timer]), now);
    }
  }

  /** So many passes at one time. */
  ghost function Passes(c: Clock, now: nat, n: nat): Clock
    requires c.Valid() && c.now <= now && Epoch(c.now) == Epoch(now)
    decreases n
  {
    if n == 0 then c
    else
      TimerPassValid(c, now);
      Passes(TimerPass(c, now), now, n - 1)
  }

  /** As many passes as there are expired timers leave none, though each may arm its timer again,
      and each of them calls one. */
  lemma {:induction false} PassesCatchUp(c: Clock, now: nat, n: nat)
    requires c.Valid() && c.now <= now && Epoch(c.now) == Epoch(now) && n == Expired(c.active, now)
    ensures var r := Passes(c, now, n);
      && (r.active == [] || now < r.active[0].at)
      && |r.log| == |c.log| + n
    decreases n
  {
    ExpiredAtHead(c.active, now);
    if n > 0 {
      PassTakesOne(c, now);
      PassCallsTheEarliest(c, now);
      PassesCatchUp(TimerPass(c, now), now, n - 1);
    }
  }

  // ----- commands -----

  /** Commands are received in the order of their issue: a new one goes behind the others, also one
      that a pass sends, and each receipt takes the first and leaves the others as they were. */
  lemma CommandsComeInOrder(c: Clock, m: Command, now: nat)
    requires c.Valid() && CommandOk(m, c.period) && c.now <= now
    ensures After(c, Issue(m)).queue == c.queue + [m] && After(c, Issue(m)).(queue := c.queue) == c
    ensures c.queue <= TimerPass(c, now).queue
    ensures c.queue != [] ==> c.queue[1..] <= CommandPass(c, now).queue
  {
    SampleQueueGrows(c, now);
    if c.queue != [] {
      SampleQueueGrows(Popped(c), now);
    }
  }

  lemma SampleQueueGrows(c: Clock, now: nat)
    requires c.Valid() && c.now <= now
    ensures c.queue <= Sample(c, now).queue
  {
    if Epoch(c.now) < Epoch(now) {
      DrainQueueGrows(c.(now := now), (Epoch(c.now) + 1) * WRAP);
    }
  }

  // ----- a timer that has only been created -----

  lemma {:induction false} UnknownIsIdle(active: seq<Due>, queue: seq<Command>, period: map<Timer, Tick>, t: Timer)
    requires ActiveOk(active, period) && QueueOk(queue, period) && t !in period
    ensures DuesOf(active, t) == [] && CommandsOf(queue, t) == []
    decreases |active| + |queue|
  {
    if active != [] {
      UnknownIsIdle(active[1..], queue, period, t);
    } else if queue != [] {
      UnknownIsIdle(active, queue[1..], period, t);
    }
  }

  /** A timer is created dormant: with the period and the mode asked for, and not called until a
      command is given to it. */
  lemma CreatedIsDormant(c: Clock, t: Timer, every: Tick, autoReload: bool, events: seq<Event>, c': Clock)
    requires c.Valid() && Possible(c, Create(t, every, autoReload))
    requires IsRun(After(c, Create(t, every, autoReload)), events, c', t)
    ensures var r := After(c, Create(t, every, autoReload));
      && t in r.period && r.period[t] == every && (t in r.reload <==> autoReload)
      && (forall u :: u != t ==> (u in r.reload <==> u in c.reload) && (u in r.period <==> u in c.period))
    ensures DuesOf(c'.active, t) == [] && CommandsOf(c'.queue, t) == []
    ensures CallsOf(c'.log, t) == CallsOf(c.log, t)
  {
    UnknownIsIdle(c.active, c.queue, c.period, t);
    AfterValid(c, Create(t, every, autoReload));
    IdleIsSilent(After(c, Create(t, every, autoReload)), events, c', t);
  }
}
