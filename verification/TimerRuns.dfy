/**
 What the timer service does over whole runs: how often the drain at a tick overflow
 fires each timer, that it fires in order, and that an auto-reload timer neither drifts
 nor loses an expiry however late the daemon runs.
 */
module TimerRuns {
  import opened Arithmetic
  import opened TimerSpec

  // ----- one timer's share of a list, a queue or a log -----

  function DuesOf(s: seq<Due>, t: Timer): seq<Due> {
    if s == [] then []
    else if s[0].timer == t then [s[0]] + DuesOf(s[1..], t)
    else DuesOf(s[1..], t)
  }

  function CommandsOf(s: seq<Command>, t: Timer): seq<Command> {
    if s == [] then []
    else if s[0].timer == t then [s[0]] + CommandsOf(s[1..], t)
    else CommandsOf(s[1..], t)
  }

  function CallsOf(s: seq<Call>, t: Timer): seq<Call> {
    if s == [] then []
    else if s[0].timer == t then [s[0]] + CallsOf(s[1..], t)
    else CallsOf(s[1..], t)
  }

  /** An active timer expires no earlier than the head of the list. */
  lemma {:induction false} HeadIsEarliest(s: seq<Due>, t: Timer)
    requires Sorted(s) && DuesOf(s, t) != []
    ensures s != [] && s[0].at <= DuesOf(s, t)[0].at
  {
    if s[0].timer != t {
      HeadIsEarliest(s[1..], t);
    }
  }

  lemma DueOfHead(s: seq<Due>, t: Timer)
    requires s != [] && s[0].timer == t
    ensures DuesOf(s, t) != [] && DuesOf(s, t)[0] == s[0]
  {
  }

  lemma {:induction false} CommandsOfAppend(s: seq<Command>, m: Command, t: Timer)
    ensures CommandsOf(s + [m], t) == CommandsOf(s, t) + (if m.timer == t then [m] else [])
  {
    if s != [] {
      CommandsOfAppend(s[1..], m, t);
      assert (s + [m])[1..] == s[1..] + [m];
    }
  }

  lemma {:induction false} CallsOfAppend(s: seq<Call>, x: Call, t: Timer)
    ensures CallsOf(s + [x], t) == CallsOf(s, t) + (if x.timer == t then [x] else [])
  {
    if s != [] {
      CallsOfAppend(s[1..], x, t);
      assert (s + [x])[1..] == s[1..] + [x];
    }
  }

  /** Inserting a timer that is not yet active makes it active exactly once. */
  lemma {:induction false} DuesOfInsert(s: seq<Due>, d: Due, t: Timer)
    requires d.timer == t ==> DuesOf(s, t) == []
    ensures DuesOf(Insert(s, d), t) == if d.timer == t then [d] else DuesOf(s, t)
  {
    if s == [] || d.at < s[0].at {
      assert Insert(s, d)[1..] == s;
    } else {
      DuesOfInsert(s[1..], d, t);
      assert Insert(s, d)[1..] == Insert(s[1..], d);
    }
  }

  lemma {:induction false} DuesOfWithout(s: seq<Due>, u: Timer, t: Timer)
    ensures DuesOf(Without(s, u), t) == if u == t then [] else DuesOf(s, t)
  {
    if s != [] {
      DuesOfWithout(s[1..], u, t);
    }
  }

  /** The k-th expiry of a timer of period p armed at T. */
  function Expiry(T: nat, p: nat, k: nat): nat {
    if k == 0 then T else Expiry(T, p, k - 1) + p
  }

  lemma {:induction false} ExpiryIsProduct(T: nat, p: nat, k: nat)
    ensures Expiry(T, p, k) == T + k * p
  {
    if k > 0 {
      ExpiryIsProduct(T, p, k - 1);
    }
  }

  // ----- the drain at a tick overflow -----

  /** The calls of one auto-reload timer from expiry v up to `bound`. */
  function Firings(t: Timer, v: nat, p: Tick, bound: nat, now: nat): seq<Call>
    requires p > 0
    decreases if v < bound then bound - v else 0
  {
    if bound <= v then [] else [Call(t, v, now)] + Firings(t, v + p, p, bound, now)
  }

  /** They are for v, v + p, v + 2p and so on, up to the last one before the bound. */
  lemma {:induction false} FiringsAreRegular(t: Timer, v: nat, p: Tick, bound: nat, now: nat)
    requires p > 0 && v < bound
    ensures var fired := Firings(t, v, p, bound, now);
      && (forall i :: 0 <= i < |fired| ==> fired[i] == Call(t, Expiry(v, p, i), now))
      && 0 < |fired| && Expiry(v, p, |fired| - 1) < bound <= Expiry(v, p, |fired|)
    decreases bound - v
  {
    var fired, rest := Firings(t, v, p, bound, now), Firings(t, v + p, p, bound, now);
    if v + p < bound {
      FiringsAreRegular(t, v + p, p, bound, now);
      forall i | 0 < i < |fired| ensures fired[i] == Call(t, Expiry(v, p, i), now) {
        assert fired[i] == rest[i - 1];
        ExpiryShift(v, p, i - 1);
      }
      ExpiryShift(v, p, |rest| - 1);
      ExpiryShift(v, p, |rest|);
    } else {
      assert fired == [Call(t, v, now)];
      ExpiryShift(v, p, 0);
    }
  }

  lemma {:induction false} ExpiryShift(v: nat, p: nat, k: nat)
    ensures Expiry(v + p, p, k) == Expiry(v, p, k + 1)
  {
    if k > 0 {
      ExpiryShift(v, p, k - 1);
    }
  }

  /** So there are ceil((bound - v) / p) of them. */
  lemma FiringsAreCeiling(t: Timer, v: nat, p: Tick, bound: nat, now: nat)
    requires p > 0 && v < bound
    ensures |Firings(t, v, p, bound, now)| == (bound - v + p - 1) / p
  {
    FiringsAreRegular(t, v, p, bound, now);
    var n := |Firings(t, v, p, bound, now)|;
    ExpiryIsProduct(v, p, n - 1);
    ExpiryIsProduct(v, p, n);
    ModUnique(bound - v + p - 1, p, n, bound - v - 1 - (n - 1) * p);
  }

  lemma DrainOneOther(c: Clock, bound: nat, t: Timer)
    requires c.active != [] && c.active[0].timer != t && c.active[0].timer in c.period
    ensures var r := DrainOne(c, bound);
      && DuesOf(r.active, t) == DuesOf(c.active, t)
      && CommandsOf(r.queue, t) == CommandsOf(c.queue, t)
      && CallsOf(r.log, t) == CallsOf(c.log, t)
  {
    var d := c.active[0];
    CallsOfAppend(c.log, Call(d.timer, d.at, c.now), t);
    if d.timer !in c.reload {
    } else if d.at + c.period[d.timer] < bound {
      DuesOfInsert(c.active[1..], Due(d.timer, d.at + c.period[d.timer]), t);
    } else {
      CommandsOfAppend(c.queue, Command(Start, d.timer, d.at), t);
    }
  }

  lemma DrainOneSelf(c: Clock, bound: nat, t: Timer)
    requires c.active != [] && c.active[0].timer == t && t in c.period
    requires DuesOf(c.active, t) == [c.active[0]] && t in c.reload
    ensures var r := DrainOne(c, bound); var v := c.active[0].at; var p := c.period[t];
      && CallsOf(r.log, t) == CallsOf(c.log, t) + [Call(t, v, c.now)]
      && (if v + p < bound then
            DuesOf(r.active, t) == [Due(t, v + p)] && CommandsOf(r.queue, t) == CommandsOf(c.queue, t)
          else
            DuesOf(r.active, t) == [] && CommandsOf(r.queue, t) == CommandsOf(c.queue, t) + [Command(Start, t, v)])
  {
    var d := c.active[0];
    CallsOfAppend(c.log, Call(d.timer, d.at, c.now), t);
    if d.timer !in c.reload {
    } else if d.at + c.period[d.timer] < bound {
      DuesOfInsert(c.active[1..], Due(d.timer, d.at + c.period[d.timer]), t);
    } else {
      CommandsOfAppend(c.queue, Command(Start, d.timer, d.at), t);
    }
  }

  /** A timer that is not active is left alone by the drain. */
  lemma {:induction false} DrainLeavesOthers(c: Clock, bound: nat, t: Timer)
    requires c.Valid() && DuesOf(c.active, t) == []
    ensures var r := Drain(c, bound);
      && DuesOf(r.active, t) == []
      && CommandsOf(r.queue, t) == CommandsOf(c.queue, t)
      && CallsOf(r.log, t) == CallsOf(c.log, t)
    decreases Load(c.active, bound)
  {
    if c.active != [] && c.active[0].at < bound {
      DrainOneOther(c, bound, t);
      DrainOneShrinks(c, bound);
      DrainLeavesOthers(DrainOne(c, bound), bound, t);
    }
  }

  /** What `fired` calls of an auto-reload timer leave behind: it is no longer active, and one
      restart carries its last expiry. */
  ghost predicate Fired(c: Clock, r: Clock, t: Timer, fired: seq<Call>)
    requires fired != []
  {
    && CallsOf(r.log, t) == CallsOf(c.log, t) + fired
    && CommandsOf(r.queue, t) == CommandsOf(c.queue, t) + [Command(Start, t, fired[|fired| - 1].due)]
    && DuesOf(r.active, t) == []
  }

  /** A timer due at v before `bound`: an auto-reload one is called for v, v + p, ... up to
      the bound and then sends one restart carrying its last expiry. */
  lemma {:induction false} DrainFires(c: Clock, bound: nat, t: Timer, v: nat)
    requires c.Valid() && t in c.period && t in c.reload
    requires DuesOf(c.active, t) == [Due(t, v)] && v < bound
    ensures Fired(c, Drain(c, bound), t, Firings(t, v, c.period[t], bound, c.now))
    decreases Load(c.active, bound)
  {
    HeadIsEarliest(c.active, t);
    var next := DrainOne(c, bound);
    DrainOneShrinks(c, bound);
    assert Drain(c, bound) == Drain(next, bound);
    if c.active[0].timer != t {
      DrainOneOther(c, bound, t);
      DrainFires(next, bound, t, v);
    } else {
      DueOfHead(c.active, t);
      DrainSelfFires(c, bound, t, v, next);
    }
  }

  /** A one-shot timer due before the bound is called once and is then neither active nor queued. */
  lemma {:induction false} DrainFiresOneShot(c: Clock, bound: nat, t: Timer, v: nat)
    requires c.Valid() && t in c.period && t !in c.reload
    requires DuesOf(c.active, t) == [Due(t, v)] && v < bound
    ensures var r := Drain(c, bound);
      && CallsOf(r.log, t) == CallsOf(c.log, t) + [Call(t, v, c.now)]
      && CommandsOf(r.queue, t) == CommandsOf(c.queue, t) && DuesOf(r.active, t) == []
    decreases Load(c.active, bound)
  {
    HeadIsEarliest(c.active, t);
    var next := DrainOne(c, bound);
    DrainOneShrinks(c, bound);
    if c.active[0].timer != t {
      DrainOneOther(c, bound, t);
      DrainFiresOneShot(next, bound, t, v);
    } else {
      DueOfHead(c.active, t);
      CallsOfAppend(c.log, Call(t, v, c.now), t);
      DrainLeavesOthers(next, bound, t);
    }
  }

  lemma {:induction false} DrainSelfFires(c: Clock, bound: nat, t: Timer, v: nat, next: Clock)
    requires c.Valid() && t in c.period && t in c.reload
    requires c.active != [] && c.active[0] == Due(t, v) && DuesOf(c.active, t) == [Due(t, v)] && v < bound
    requires next == DrainOne(c, bound) && next.Valid() && Load(next.active, bound) < Load(c.active, bound)
    ensures Fired(c, Drain(next, bound), t, Firings(t, v, c.period[t], bound, c.now))
    decreases Load(c.active, bound), 0
  {
    var p := c.period[t];
    DrainOneSelf(c, bound, t);
    if v + p < bound {
      DrainFires(next, bound, t, v + p);
      var rest := Firings(t, v + p, p, bound, c.now);
      assert CallsOf(c.log, t) + ([Call(t, v, c.now)] + rest) == (CallsOf(c.log, t) + [Call(t, v, c.now)]) + rest;
    } else {
      DrainLeavesOthers(next, bound, t);
      assert Firings(t, v, p, bound, c.now) == [Call(t, v, c.now)];
    }
  }

  ghost predicate InOrderFrom(log: seq<Call>, first: nat, low: nat, high: nat) {
    && first <= |log|
    && (forall i, j :: first <= i < j < |log| ==> log[i].due <= log[j].due)
    && (forall i :: first <= i < |log| ==> low <= log[i].due < high)
  }

  /** The drain only adds to the log, and what it adds is in order of expiry, from the earliest
      active one to the bound. */
  lemma {:induction false} DrainCallsInOrder(c: Clock, bound: nat)
    requires c.Valid()
    ensures c.log <= Drain(c, bound).log
    ensures c.active == [] || bound <= c.active[0].at ==> Drain(c, bound).log == c.log
    ensures c.active != [] ==> InOrderFrom(Drain(c, bound).log, |c.log|, c.active[0].at, bound)
    decreases Load(c.active, bound)
  {
    if c.active != [] && c.active[0].at < bound {
      var next := DrainOne(c, bound);
      DrainOneShrinks(c, bound);
      DrainOneHead(c, bound);
      DrainCallsInOrder(next, bound);
      var log := Drain(next, bound).log;
      assert log[|c.log|] == next.log[|c.log|] == Call(c.active[0].timer, c.active[0].at, c.now);
    }
  }

  lemma DrainOneHead(c: Clock, bound: nat)
    requires c.Valid() && c.active != []
    ensures var r := DrainOne(c, bound);
      && r.log == c.log + [Call(c.active[0].timer, c.active[0].at, c.now)]
      && (r.active != [] ==> c.active[0].at <= r.active[0].at)
  {
    var d := c.active[0];
    InsertOk(c.active[1..], Due(d.timer, d.at + c.period[d.timer]), c.period);
  }

  // ----- an auto-reload timer over a whole run -----

  /** One timer's share of the state, when started at T with period p: its k calls since were
      for its first k expiries and none was early; and it is pending exactly once, either in
      the active list for its next expiry or as a queued start that carries its last one, or T
      itself, which may be later than the last time the daemon looked at the clock. */
  ghost predicate Share(dues: seq<Due>, commands: seq<Command>, calls: seq<Call>, t: Timer, p: nat, T: nat, now: nat) {
    var k := |calls|;
    && (forall i :: 0 <= i < k ==> calls[i].due == Expiry(T, p, i + 1) <= calls[i].at)
    && ((dues == [Due(t, Expiry(T, p, k + 1))] && commands == [] && Expiry(T, p, k) <= now)
        || (dues == [] && commands == [Command(Start, t, Expiry(T, p, k))] && (k > 0 ==> Expiry(T, p, k) <= now)))
  }

  /** The calls of a timer after its first n. */
  function Since(c: Clock, t: Timer, n: nat): seq<Call> {
    if n <= |CallsOf(c.log, t)| then CallsOf(c.log, t)[n..] else []
  }

  /** The share of t counted from its n-th call on. */
  ghost predicate OnTime(c: Clock, t: Timer, T: nat, n: nat) {
    && c.Valid() && t in c.period && t in c.reload && n <= |CallsOf(c.log, t)|
    && Share(DuesOf(c.active, t), CommandsOf(c.queue, t), Since(c, t, n), t, c.period[t], T, c.now)
  }

  /** Running the callback for the pending expiry leaves the timer on time, whether it is
      armed again at once or sent a restart. */
  lemma CallKeepsShare(v: nat, calls: seq<Call>, t: Timer, p: nat, T: nat, now: nat)
    requires p <= v <= now
    requires Share([Due(t, v)], [], calls, t, p, T, now) || Share([], [Command(Start, t, v - p)], calls, t, p, T, now)
    ensures Share([Due(t, v + p)], [], calls + [Call(t, v, now)], t, p, T, now)
    ensures Share([], [Command(Start, t, v)], calls + [Call(t, v, now)], t, p, T, now)
  {
    var k := |calls|;
    assert v == Expiry(T, p, k + 1);
    assert v + p == Expiry(T, p, k + 2);
  }

  lemma DrainOneOnTime(c: Clock, bound: nat, t: Timer, T: nat, n: nat)
    requires OnTime(c, t, T, n) && c.active != [] && c.active[0].at < bound && bound <= c.now
    ensures OnTime(DrainOne(c, bound), t, T, n)
  {
    DrainOneValid(c, bound);
    if c.active[0].timer != t {
      DrainOneOther(c, bound, t);
    } else {
      DueOfHead(c.active, t);
      DrainOneSelf(c, bound, t);
      assert Expiry(T, c.period[t], |Since(c, t, n)| + 1) >= c.period[t];
      CallKeepsShare(c.active[0].at, Since(c, t, n), t, c.period[t], T, c.now);
    }
  }

  lemma {:induction false} DrainOnTime(c: Clock, bound: nat, t: Timer, T: nat, n: nat)
    requires OnTime(c, t, T, n) && bound <= c.now
    ensures OnTime(Drain(c, bound), t, T, n)
    decreases Load(c.active, bound)
  {
    if c.active != [] && c.active[0].at < bound {
      DrainOneOnTime(c, bound, t, T, n);
      DrainOneShrinks(c, bound);
      DrainOnTime(DrainOne(c, bound), bound, t, T, n);
    }
  }

  lemma SampleOnTime(c: Clock, now: nat, t: Timer, T: nat, n: nat)
    requires OnTime(c, t, T, n) && c.now <= now
    ensures OnTime(Sample(c, now), t, T, n)
  {
    if Epoch(c.now) < Epoch(now) {
      DrainOnTime(c.(now := now), (Epoch(c.now) + 1) * WRAP, t, T, n);
    }
  }

  /** What expiring the head timer does to the share of any timer. */
  lemma ExpireHeadShares(c: Clock, t: Timer)
    requires c.Valid() && c.active != []
    requires c.active[0].timer == t ==> DuesOf(c.active, t) == [c.active[0]] && t in c.reload
    ensures var r, d := ExpireHead(c), c.active[0]; var next := d.at + c.period[d.timer];
      if d.timer != t then
        && DuesOf(r.active, t) == DuesOf(c.active, t)
        && CommandsOf(r.queue, t) == CommandsOf(c.queue, t)
        && CallsOf(r.log, t) == CallsOf(c.log, t)
      else
        && CallsOf(r.log, t) == CallsOf(c.log, t) + [Call(t, d.at, c.now)]
        && (if next <= c.now then
              DuesOf(r.active, t) == [] && CommandsOf(r.queue, t) == CommandsOf(c.queue, t) + [Command(Start, t, d.at)]
            else
              DuesOf(r.active, t) == [Due(t, next)] && CommandsOf(r.queue, t) == CommandsOf(c.queue, t))
  {
    var d := c.active[0];
    CallsOfAppend(c.log, Call(d.timer, d.at, c.now), t);
    if d.timer !in c.reload {
    } else if d.at + c.period[d.timer] <= c.now {
      CommandsOfAppend(c.queue, Command(Start, d.timer, d.at), t);
    } else {
      DuesOfInsert(c.active[1..], Due(d.timer, d.at + c.period[d.timer]), t);
    }
  }

  lemma ExpireHeadOnTime(c: Clock, t: Timer, T: nat, n: nat)
    requires OnTime(c, t, T, n) && c.active != [] && c.active[0].at <= c.now
    ensures OnTime(ExpireHead(c), t, T, n)
  {
    ExpireHeadValid(c);
    if c.active[0].timer == t {
      DueOfHead(c.active, t);
      assert Expiry(T, c.period[t], |Since(c, t, n)| + 1) >= c.period[t];
      CallKeepsShare(c.active[0].at, Since(c, t, n), t, c.period[t], T, c.now);
    }
    ExpireHeadShares(c, t);
  }

  lemma TimerPassOnTime(c: Clock, now: nat, t: Timer, T: nat, n: nat)
    requires OnTime(c, t, T, n) && c.now <= now
    ensures OnTime(TimerPass(c, now), t, T, n)
  {
    SampleOnTime(c, now, t, T, n);
    var s := Sample(c, now);
    if Epoch(c.now) == Epoch(now) && s.active != [] && s.active[0].at <= now {
      ExpireHeadOnTime(s, t, T, n);
    }
  }

  ghost predicate SameShare(c: Clock, r: Clock, t: Timer) {
    && DuesOf(r.active, t) == DuesOf(c.active, t)
    && CommandsOf(r.queue, t) == CommandsOf(c.queue, t)
    && CallsOf(r.log, t) == CallsOf(c.log, t)
    && r.reload == c.reload && r.now == c.now
    && (t in c.period ==> t in r.period && r.period[t] == c.period[t])
  }

  lemma StartOther(c: Clock, u: Timer, from: nat, t: Timer)
    requires u in c.period && u != t
    ensures SameShare(c, Execute(c, Command(Start, u, from)), t)
  {
    var expiry := from + c.period[u];
    if expiry <= c.now {
      CallsOfAppend(c.log, Call(u, expiry, c.now), t);
      CommandsOfAppend(c.queue, Command(Start, u, expiry), t);
    } else {
      DuesOfInsert(c.active, Due(u, expiry), t);
    }
  }

  /** Commands for other timers do not touch the share of t. */
  lemma ExecuteOther(c: Clock, m: Command, t: Timer)
    requires m.timer in c.period && m.timer != t
    ensures SameShare(c, Execute(c, m), t)
  {
    match m.kind
    case Stop =>
    case ChangePeriod(p) => DuesOfInsert(c.active, Due(m.timer, c.now + p), t);
    case Start => StartOther(c, m.timer, m.at, t);
  }

  lemma CommandPassOther(c: Clock, now: nat, t: Timer, T: nat, n: nat)
    requires OnTime(c, t, T, n) && c.now <= now && c.queue != [] && c.queue[0].timer != t
    ensures OnTime(CommandPass(c, now), t, T, n)
    ensures CommandPass(c, now).period[t] == c.period[t]
  {
    var m := c.queue[0];
    var popped := Popped(c);
    DuesOfWithout(c.active, m.timer, t);
    SampleOnTime(popped, now, t, T, n);
    var s := Sample(popped, now);
    ExecuteValid(s, m);
    ExecuteOther(s, m, t);
  }

  /** The tracked timer's own restart: it is armed for its next expiry, or that expiry has
      passed and it is called now and sent another restart. */
  lemma RestartOnTime(c: Clock, t: Timer, T: nat, n: nat, from: nat)
    requires c.Valid() && t in c.period && t in c.reload && n <= |CallsOf(c.log, t)| && from <= c.now
    requires Share([], [Command(Start, t, from)], Since(c, t, n), t, c.period[t], T, c.now)
    requires DuesOf(c.active, t) == [] && CommandsOf(c.queue, t) == []
    ensures OnTime(Execute(c, Command(Start, t, from)), t, T, n)
  {
    var m := Command(Start, t, from);
    var p := c.period[t];
    var expiry := from + p;
    ExecuteValid(c, m);
    if expiry <= c.now {
      CallsOfAppend(c.log, Call(t, expiry, c.now), t);
      CommandsOfAppend(c.queue, Command(Start, t, expiry), t);
      CallKeepsShare(expiry, Since(c, t, n), t, p, T, c.now);
    } else {
      DuesOfInsert(c.active, Due(t, expiry), t);
      assert expiry == Expiry(T, p, |Since(c, t, n)| + 1);
    }
  }

  /** Taking a timer's next command: its share is that command and what is behind it. */
  lemma PoppedShare(c: Clock, now: nat, t: Timer)
    requires c.Valid() && c.queue != [] && c.queue[0].timer == t && c.now <= now
    ensures var s := Sample(Popped(c), now);
      && DuesOf(s.active, t) == [] && CallsOf(s.log, t) == CallsOf(c.log, t)
      && CommandsOf(c.queue, t) == [c.queue[0]] + CommandsOf(s.queue, t)
      && CommandPass(c, now) == Execute(s, c.queue[0])
  {
    var popped := Popped(c);
    DuesOfWithout(c.active, t, t);
    if Epoch(c.now) < Epoch(now) {
      DrainLeavesOthers(popped.(now := now), (Epoch(c.now) + 1) * WRAP, t);
    }
  }

  lemma CommandPassSelf(c: Clock, now: nat, t: Timer, T: nat, n: nat)
    requires OnTime(c, t, T, n) && c.now <= now && c.queue != [] && c.queue[0].timer == t && c.queue[0].at <= now
    ensures OnTime(CommandPass(c, now), t, T, n)
    ensures CommandPass(c, now).period[t] == c.period[t]
  {
    PoppedShare(c, now, t);
    var s := Sample(Popped(c), now);
    assert CommandsOf(c.queue, t)[0] == c.queue[0] && |CommandsOf(c.queue, t)| == 1;
    assert CommandsOf(s.queue, t) == [];
    RestartOnTime(s, t, T, n, c.queue[0].at);
  }

  // ----- what a start establishes -----

  /** Executing a start adds one pending expiry to the restarts that were queued behind it. */
  lemma ExecuteStartPending(c: Clock, t: Timer, from: nat)
    requires c.Valid() && t in c.period && t in c.reload && DuesOf(c.active, t) == []
    ensures var r := Execute(c, Command(Start, t, from));
      |DuesOf(r.active, t)| + |CommandsOf(r.queue, t)| == 1 + |CommandsOf(c.queue, t)|
  {
    var expiry := from + c.period[t];
    if expiry <= c.now {
      CommandsOfAppend(c.queue, Command(Start, t, expiry), t);
    } else {
      DuesOfInsert(c.active, Due(t, expiry), t);
    }
  }

  /** A start received at `now` puts an auto-reload timer on time from the tick T of the command,
      whatever it did before and though it be active with another expiry, with that as its one
      pending entry, if and only if no other command of the timer is queued behind it. */
  lemma StartTakesOverExactly(c: Clock, now: nat, t: Timer, T: nat)
    requires c.Valid() && t in c.period && t in c.reload && c.now <= now && T <= now
    requires c.queue != [] && c.queue[0] == Command(Start, t, T)
    ensures OnTime(CommandPass(c, now), t, T, |CallsOf(c.log, t)|) <==> CommandsOf(c.queue, t) == [c.queue[0]]
  {
    PoppedShare(c, now, t);
    var s := Sample(Popped(c), now);
    ExecuteStartPending(s, t, T);
    if CommandsOf(s.queue, t) == [] {
      RestartOnTime(s, t, T, |CallsOf(c.log, t)|, T);
    }
  }

  // ----- when a reset of an active timer takes over -----

  /** Whether a pass at `now` queues a restart of timer t, active for v: at the end of an epoch if v
      lies before it, and otherwise if t comes first and is a whole period late. */
  ghost predicate Restarts(c: Clock, now: nat, t: Timer, v: nat)
    requires t in c.period
  {
    if Epoch(c.now) < Epoch(now) then v < (Epoch(c.now) + 1) * WRAP
    else c.active != [] && c.active[0].timer == t && v + c.period[t] <= now
  }

  lemma {:induction false} DrainUntouched(c: Clock, bound: nat, t: Timer, v: nat)
    requires c.Valid() && DuesOf(c.active, t) == [Due(t, v)] && bound <= v
    ensures var r := Drain(c, bound);
      && DuesOf(r.active, t) == DuesOf(c.active, t)
      && CommandsOf(r.queue, t) == CommandsOf(c.queue, t)
      && CallsOf(r.log, t) == CallsOf(c.log, t)
    decreases Load(c.active, bound)
  {
    if c.active != [] && c.active[0].at < bound {
      if c.active[0].timer == t {
        DueOfHead(c.active, t);
      }
      DrainOneOther(c, bound, t);
      DrainOneShrinks(c, bound);
      DrainUntouched(DrainOne(c, bound), bound, t, v);
    }
  }

  lemma PassRestartsExactly(c: Clock, now: nat, t: Timer, v: nat)
    requires c.Valid() && t in c.period && t in c.reload && DuesOf(c.active, t) == [Due(t, v)] && c.now <= now
    ensures |CommandsOf(TimerPass(c, now).queue, t)|
         == |CommandsOf(c.queue, t)| + (if Restarts(c, now, t, v) then 1 else 0)
    ensures !Restarts(c, now, t, v) ==> CommandsOf(TimerPass(c, now).queue, t) == CommandsOf(c.queue, t)
  {
    var later := c.(now := now);
    if Epoch(c.now) < Epoch(now) {
      var bound := (Epoch(c.now) + 1) * WRAP;
      if v < bound {
        DrainFires(later, bound, t, v);
      } else {
        DrainUntouched(later, bound, t, v);
      }
    } else if later.active[0].at <= now {
      if later.active[0].timer == t {
        DueOfHead(later.active, t);
      }
      ExpireHeadShares(later, t);
    } else {
      HeadIsEarliest(c.active, t);
    }
  }

  lemma {:induction false} DrainQueueGrows(c: Clock, bound: nat)
    requires c.Valid()
    ensures c.queue <= Drain(c, bound).queue
    decreases Load(c.active, bound)
  {
    if c.active != [] && c.active[0].at < bound {
      DrainOneShrinks(c, bound);
      DrainQueueGrows(DrainOne(c, bound), bound);
    }
  }

  /** A reset at T of an active auto-reload timer due at v, with no command waiting, takes over
      though the daemon makes a pass at `seen` before it receives it at `now`, if and only if that
      pass queues no restart: within an epoch, if it is not a whole period after v. */
  lemma ResetTakesOverExactly(c: Clock, t: Timer, v: nat, T: nat, seen: nat, now: nat)
    requires c.Valid() && t in c.period && t in c.reload && DuesOf(c.active, t) == [Due(t, v)] && c.queue == []
    requires c.now <= seen <= now && T <= now
    ensures var issued := Queued(c, Command(Start, t, T));
      && issued.Valid()
      && var passed := TimerPass(issued, seen);
      && passed.Valid() && passed.queue != [] && passed.queue[0] == Command(Start, t, T)
      && (OnTime(CommandPass(passed, now), t, T, |CallsOf(passed.log, t)|) <==> !Restarts(c, seen, t, v))
  {
    var start := Command(Start, t, T);
    AppendOk(c.queue, start, c.period);
    var issued := Queued(c, start);
    TimerPassValid(issued, seen);
    if Epoch(c.now) < Epoch(seen) {
      DrainQueueGrows(issued.(now := seen), (Epoch(c.now) + 1) * WRAP);
    }
    var passed := TimerPass(issued, seen);
    assert passed.queue[0] == start;
    PassRestartsExactly(issued, seen, t, v);
    PassKeepsTimers(issued, seen, t);
    StartTakesOverExactly(passed, now, t, T);
    assert CommandsOf(issued.queue, t) == [start];
    assert CommandsOf(passed.queue, t) == [start] + CommandsOf(passed.queue[1..], t);
  }

  lemma PassKeepsTimers(c: Clock, now: nat, t: Timer)
    requires c.Valid() && c.now <= now
    ensures TimerPass(c, now).period == c.period && TimerPass(c, now).reload == c.reload
  {
  }

  // ----- whole runs -----

  /** What can happen between one pass of the daemon and the next. */
  datatype Event =
    | Issue(m: Command)                                        // a task or an interrupt queues a command
    | Create(timer: Timer, every: Tick, autoReload: bool)      // xTimerCreate
    | Pass(now: nat)                                           // prvProcessTimerOrBlockTask
    | Obey(now: nat)                                           // one command received

  /** Timers are created once, time does not go back, and a command is received after its issue. */
  ghost predicate Possible(c: Clock, e: Event) {
    match e
    case Issue(m) => CommandOk(m, c.period)
    case Create(u, every, _) => u !in c.period && every > 0
    case Pass(now) => c.now <= now
    case Obey(now) => c.now <= now && c.queue != [] && (c.queue[0].kind.Start? ==> c.queue[0].at <= now)
  }

  /** Possible events that leave the settings and the commands of timer t alone. */
  ghost predicate Allowed(c: Clock, e: Event, t: Timer) {
    Possible(c, e) && (e.Issue? ==> e.m.timer != t)
  }

  ghost function After(c: Clock, e: Event): Clock
    requires c.Valid() && Possible(c, e)
  {
    match e
    case Issue(m) => Queued(c, m)
    case Create(u, every, autoReload) =>
      c.(period := c.period[u := every], reload := if autoReload then c.reload + {u} else c.reload - {u})
    case Pass(now) => TimerPass(c, now)
    case Obey(now) => CommandPass(c, now)
  }

  lemma AfterValid(c: Clock, e: Event)
    requires c.Valid() && Possible(c, e)
    ensures After(c, e).Valid()
  {
    match e
    case Issue(m) => AppendOk(c.queue, m, c.period);
    case Create(u, every, _) => PeriodChangeOk(c.active, c.queue, c.period, u, every);
    case Pass(now) => TimerPassValid(c, now);
    case Obey(now) => CommandPassValid(c, now);
  }

  ghost predicate IsRun(c: Clock, events: seq<Event>, c': Clock, t: Timer)
    decreases |events|
  {
    if events == [] then c == c'
    else c.Valid() && Allowed(c, events[0], t) && IsRun(After(c, events[0]), events[1..], c', t)
  }

  lemma EventOnTime(c: Clock, e: Event, t: Timer, T: nat, n: nat)
    requires OnTime(c, t, T, n) && Allowed(c, e, t)
    ensures OnTime(After(c, e), t, T, n)
    ensures After(c, e).period[t] == c.period[t]
  {
    match e
    case Issue(m) =>
      CommandsOfAppend(c.queue, m, t);
      AppendOk(c.queue, m, c.period);
    case Create(u, every, autoReload) =>
      PeriodChangeOk(c.active, c.queue, c.period, u, every);
    case Pass(now) =>
      TimerPassOnTime(c, now, t, T, n);
    case Obey(now) =>
      if c.queue[0].timer == t {
        assert CommandsOf(c.queue, t)[0] == c.queue[0];
        CommandPassSelf(c, now, t, T, n);
      } else {
        CommandPassOther(c, now, t, T, n);
      }
  }

  lemma {:induction false} RunOnTime(c: Clock, events: seq<Event>, c': Clock, t: Timer, T: nat, n: nat)
    requires OnTime(c, t, T, n) && IsRun(c, events, c', t)
    ensures OnTime(c', t, T, n) && c'.period[t] == c.period[t]
    decreases |events|
  {
    if events != [] {
      EventOnTime(c, events[0], t, T, n);
      RunOnTime(After(c, events[0]), events[1..], c', t, T, n);
    }
  }

  /** What being on time says in multiples of the period. */
  lemma OnTimeMeans(c: Clock, t: Timer, T: nat, n: nat)
    requires OnTime(c, t, T, n)
    ensures forall i :: 0 <= i < |Since(c, t, n)| ==>
      Since(c, t, n)[i].due == T + (i + 1) * c.period[t] <= Since(c, t, n)[i].at
    ensures |DuesOf(c.active, t)| + |CommandsOf(c.queue, t)| == 1
  {
    var p, calls := c.period[t], Since(c, t, n);
    forall i | 0 <= i < |calls| ensures calls[i].due == T + (i + 1) * p <= calls[i].at {
      ExpiryIsProduct(T, p, i + 1);
    }
  }

  /** No drift and no loss.  Queue a start of an inactive auto-reload timer at tick T, be it later
      than the daemon's last look at the clock, and let anything happen except further commands to
      it: of the calls from then on the i-th is for the expiry T + (i + 1) * period, none is
      early, and exactly one further expiry is pending. */
  lemma NoDriftNoLoss(c: Clock, events: seq<Event>, c': Clock, t: Timer, T: nat)
    requires c.Valid() && t in c.period && t in c.reload
    requires CommandsOf(c.queue, t) == [Command(Start, t, T)] && DuesOf(c.active, t) == []
    requires IsRun(c, events, c', t)
    ensures var n, p := |CallsOf(c.log, t)|, c.period[t];
      && n <= |CallsOf(c'.log, t)|
      && (forall i :: 0 <= i < |Since(c', t, n)| ==>
            Since(c', t, n)[i].due == T + (i + 1) * p <= Since(c', t, n)[i].at)
      && |DuesOf(c'.active, t)| + |CommandsOf(c'.queue, t)| == 1
  {
    var n := |CallsOf(c.log, t)|;
    RunOnTime(c, events, c', t, T, n);
    OnTimeMeans(c', t, T, n);
  }

  /** The same from the receipt of a start on, though the timer be active: a reset, say. */
  lemma NoDriftAfterReceipt(c: Clock, now: nat, events: seq<Event>, c': Clock, t: Timer, T: nat)
    requires c.Valid() && t in c.period && t in c.reload && c.now <= now && T <= now
    requires c.queue != [] && c.queue[0] == Command(Start, t, T) && CommandsOf(c.queue, t) == [c.queue[0]]
    requires IsRun(CommandPass(c, now), events, c', t)
    ensures var n, p := |CallsOf(c.log, t)|, c.period[t];
      && n <= |CallsOf(c'.log, t)|
      && (forall i :: 0 <= i < |Since(c', t, n)| ==>
            Since(c', t, n)[i].due == T + (i + 1) * p <= Since(c', t, n)[i].at)
      && |DuesOf(c'.active, t)| + |CommandsOf(c'.queue, t)| == 1
  {
    var n := |CallsOf(c.log, t)|;
    StartTakesOverExactly(c, now, t, T);
    PoppedShare(c, now, t);
    RunOnTime(CommandPass(c, now), events, c', t, T, n);
    OnTimeMeans(c', t, T, n);
  }

  /** When the daemon goes to sleep at `now`, with no restart of t still queued, every expiry
      of t up to `now` has had its callback: there have been floor((now - T) / period). */
  lemma CaughtUpWhenIdle(c: Clock, t: Timer, T: nat, n: nat)
    requires OnTime(c, t, T, n)
    requires CommandsOf(c.queue, t) == [] && (c.active == [] || c.now < c.active[0].at)
    ensures T <= c.now && |Since(c, t, n)| == (c.now - T) / c.period[t]
  {
    var p, k := c.period[t], |Since(c, t, n)|;
    HeadIsEarliest(c.active, t);
    ExpiryIsProduct(T, p, k);
    ExpiryIsProduct(T, p, k + 1);
    ModUnique(c.now - T, p, k, c.now - T - k * p);
  }

  /** Why nothing may be queued behind: a timer of period 10 is due at 100, and is reset at 104
      while the daemon is held up until 112.  The daemon first runs the old expiry, which is more
      than a period late and so sends a restart from 100, behind the reset; the reset arms the
      timer for 114; then the restart arms it anew, and it is 120 that it ends up with. */
  lemma StaleRestartTakesOver(c: Clock, t: Timer)
    requires c == Clock([Due(t, 100)], [], 95, [], map[t := 10], {t})
    ensures var c1 := After(c, Issue(Command(Start, t, 104)));
      c1.Valid() && Possible(c1, Pass(112)) && var c2 := After(c1, Pass(112));
      c2.Valid() && Possible(c2, Obey(113)) && var c3 := After(c2, Obey(113));
      c3.Valid() && Possible(c3, Obey(113)) && var c4 := After(c3, Obey(113));
      c4.Valid() && Possible(c4, Obey(113)) && var c5 := After(c4, Obey(113));
      && c2.queue == [Command(Start, t, 104), Command(Start, t, 100)]
      && c3.active == [Due(t, 114)] && c5.active == [Due(t, 120)] && c5.queue == []
  {
    var period, none: seq<Due> := map[t := 10], [];
    var reset, stale, again := Command(Start, t, 104), Command(Start, t, 100), Command(Start, t, 110);
    var log := [Call(t, 100, 112)];
    var c1 := c.(queue := [reset]);
    assert After(c, Issue(reset)) == c1;
    var c2 := Clock([], [reset, stale], 112, log, period, {t});
    assert After(c1, Pass(112)) == c2;
    var c3 := Clock([Due(t, 114)], [stale], 113, log, period, {t});
    assert c2.queue[1..] == [stale];
    assert After(c2, Obey(113)) == c3;
    var c4 := Clock([], [again], 113, log + [Call(t, 110, 113)], period, {t});
    assert Without(c3.active, t) == none && c3.queue[1..] == [];
    assert After(c3, Obey(113)) == c4;
    assert c4.queue[1..] == [];
    assert After(c4, Obey(113)) == c4.(active := [Due(t, 120)], queue := []);
  }

  // ----- a stopped timer is silent -----

  /** Neither active nor about to be started. */
  ghost predicate Idle(c: Clock, t: Timer) {
    c.Valid() && DuesOf(c.active, t) == [] && CommandsOf(c.queue, t) == []
  }

  lemma SampleIdle(c: Clock, now: nat, t: Timer)
    requires Idle(c, t) && c.now <= now
    ensures Idle(Sample(c, now), t) && CallsOf(Sample(c, now).log, t) == CallsOf(c.log, t)
  {
    if Epoch(c.now) < Epoch(now) {
      DrainLeavesOthers(c.(now := now), (Epoch(c.now) + 1) * WRAP, t);
    }
  }

  lemma TimerPassIdle(c: Clock, now: nat, t: Timer)
    requires Idle(c, t) && c.now <= now
    ensures Idle(TimerPass(c, now), t) && CallsOf(TimerPass(c, now).log, t) == CallsOf(c.log, t)
  {
    SampleIdle(c, now, t);
    var s := Sample(c, now);
    if Epoch(c.now) == Epoch(now) && s.active != [] && s.active[0].at <= now {
      assert s.active[0].timer != t;
      ExpireHeadValid(s);
      ExpireHeadShares(s, t);
    }
  }

  lemma CommandPassIdle(c: Clock, now: nat, t: Timer)
    requires Idle(c, t) && c.now <= now && c.queue != []
    ensures Idle(CommandPass(c, now), t) && CallsOf(CommandPass(c, now).log, t) == CallsOf(c.log, t)
  {
    var m := c.queue[0];
    assert m.timer != t;
    var popped := Popped(c);
    DuesOfWithout(c.active, m.timer, t);
    SampleIdle(popped, now, t);
    var s := Sample(popped, now);
    ExecuteValid(s, m);
    ExecuteOther(s, m, t);
  }

  lemma EventIdle(c: Clock, e: Event, t: Timer)
    requires Idle(c, t) && Allowed(c, e, t)
    ensures Idle(After(c, e), t) && CallsOf(After(c, e).log, t) == CallsOf(c.log, t)
  {
    match e
    case Issue(m) =>
      CommandsOfAppend(c.queue, m, t);
      AppendOk(c.queue, m, c.period);
    case Create(u, every, _) => PeriodChangeOk(c.active, c.queue, c.period, u, every);
    case Pass(now) => TimerPassIdle(c, now, t);
    case Obey(now) => CommandPassIdle(c, now, t);
  }

  lemma {:induction false} IdleIsSilent(c: Clock, events: seq<Event>, c': Clock, t: Timer)
    requires Idle(c, t) && IsRun(c, events, c', t)
    ensures Idle(c', t) && CallsOf(c'.log, t) == CallsOf(c.log, t)
    decreases |events|
  {
    if events != [] {
      EventIdle(c, events[0], t);
      IdleIsSilent(After(c, events[0]), events[1..], c', t);
    }
  }

  /** Once the daemon has received the stop command for a timer, with no other command for it
      behind, that timer has no callback, from the receipt on, in any run without a further
      command to it; an expiry in the epoch just left does not get through either. */
  lemma StoppedIsSilent(c: Clock, now: nat, t: Timer, events: seq<Event>, c': Clock)
    requires c.Valid() && c.queue != [] && c.now <= now
    requires c.queue[0].kind == Stop && c.queue[0].timer == t && CommandsOf(c.queue, t) == [c.queue[0]]
    requires IsRun(CommandPass(c, now), events, c', t)
    ensures CallsOf(c'.log, t) == CallsOf(c.log, t)
  {
    var popped := Popped(c);
    DuesOfWithout(c.active, t, t);
    assert CommandsOf(c.queue, t) == [c.queue[0]] + CommandsOf(c.queue[1..], t);
    assert CommandsOf(c.queue[1..], t) == [];
    SampleIdle(popped, now, t);
    IdleIsSilent(CommandPass(c, now), events, c', t);
  }
}
