/**
 The software-timer service in unwrapped time.  Ticks are mathematical naturals that
 never overflow, there is one list of active timers sorted by expiry, and a command
 carries the time it was issued.  Module TimerDaemon proves that the code, with its
 32-bit ticks and its two lists, does exactly this; the theorems about whole runs
 are proved here.
 */
module TimerSpec {
  import ListSpec

  /** Ticks wrap at this value. */
  const WRAP: int := 0x1_0000_0000

  type Tick = x: int | 0 <= x < WRAP witness 0

  type Timer = nat

  /** An active timer and the time it expires. */
  datatype Due = Due(timer: Timer, at: nat)

  datatype Kind = Start | Stop | ChangePeriod(period: Tick)

  /** A command on the daemon's queue, issued at time `at`. */
  datatype Command = Command(kind: Kind, timer: Timer, at: nat)

  /** A callback run at time `at` on account of the expiry `due`. */
  datatype Call = Call(timer: Timer, due: nat, at: nat)

  datatype Clock = Clock(
    active: seq<Due>,
    queue: seq<Command>,
    now: nat,
    log: seq<Call>,
    period: map<Timer, Tick>,
    reload: set<Timer>)
  {
    ghost predicate Valid() {
      PeriodsOk(period) && ActiveOk(active, period) && QueueOk(queue, period) && Sorted(active)
    }
  }

  // Every timer named anywhere exists and has a non-zero period.

  ghost predicate PeriodsOk(period: map<Timer, Tick>) {
    forall t :: t in period ==> period[t] > 0
  }

  ghost predicate ActiveOk(s: seq<Due>, period: map<Timer, Tick>) {
    s == [] || (s[0].timer in period && ActiveOk(s[1..], period))
  }

  ghost predicate CommandOk(m: Command, period: map<Timer, Tick>) {
    m.timer in period && (m.kind.ChangePeriod? ==> m.kind.period > 0)
  }

  ghost predicate QueueOk(s: seq<Command>, period: map<Timer, Tick>) {
    s == [] || (CommandOk(s[0], period) && QueueOk(s[1..], period))
  }

  ghost predicate Sorted(s: seq<Due>) {
    |s| <= 1 || (s[0].at <= s[1].at && Sorted(s[1..]))
  }

  /** vListInsert: behind every entry that expires no later. */
  function Insert(s: seq<Due>, d: Due): seq<Due> {
    if s == [] || d.at < s[0].at then [d] + s else [s[0]] + Insert(s[1..], d)
  }

  /** The expiry times, as the values of a kernel list. */
  function Expiries(s: seq<Due>): (values: seq<nat>)
    ensures |values| == |s|
  {
    if s == [] then [] else [s[0].at] + Expiries(s[1..])
  }

  /** It is what the pointer list does: KernelLists.List.Insert puts an item at this place. */
  lemma {:induction false} InsertIsListInsert(s: seq<Due>, d: Due)
    ensures Insert(s, d) == ListSpec.InsertAt(s, ListSpec.Place(Expiries(s), d.at), d)
    ensures Expiries(Insert(s, d)) == ListSpec.InsertAt(Expiries(s), ListSpec.Place(Expiries(s), d.at), d.at)
  {
    if s == [] || d.at < s[0].at {
      assert Insert(s, d)[1..] == s;
    } else {
      var p := ListSpec.Place(Expiries(s), d.at);
      InsertIsListInsert(s[1..], d);
      assert Expiries(s)[1..] == Expiries(s[1..]);
      ListSpec.InsertAtTail(s, p, d);
      ListSpec.InsertAtTail(Expiries(s), p, d.at);
      assert Insert(s, d)[1..] == Insert(s[1..], d);
    }
  }

  lemma {:induction false} InsertOk(s: seq<Due>, d: Due, period: map<Timer, Tick>)
    requires ActiveOk(s, period) && Sorted(s) && d.timer in period
    ensures ActiveOk(Insert(s, d), period) && Sorted(Insert(s, d))
    ensures Insert(s, d)[0] == if s == [] || d.at < s[0].at then d else s[0]
  {
    if s == [] || d.at < s[0].at {
      assert Insert(s, d)[1..] == s;
    } else {
      InsertOk(s[1..], d, period);
      assert Insert(s, d)[1..] == Insert(s[1..], d);
    }
  }

  lemma {:induction false} AppendOk(s: seq<Command>, m: Command, period: map<Timer, Tick>)
    requires QueueOk(s, period) && CommandOk(m, period)
    ensures QueueOk(s + [m], period)
  {
    if s == [] {
      assert (s + [m])[1..] == [];
    } else {
      AppendOk(s[1..], m, period);
      assert (s + [m])[1..] == s[1..] + [m];
    }
  }

  /** Giving a period to one timer disturbs nothing that was in order. */
  lemma {:induction false} PeriodChangeOk(s: seq<Due>, q: seq<Command>, period: map<Timer, Tick>, t: Timer, p: Tick)
    requires ActiveOk(s, period) && QueueOk(q, period)
    ensures ActiveOk(s, period[t := p]) && QueueOk(q, period[t := p])
    decreases |s| + |q|
  {
    if s != [] {
      PeriodChangeOk(s[1..], q, period, t, p);
    } else if q != [] {
      PeriodChangeOk(s, q[1..], period, t, p);
    }
  }

  /** uxListRemove of a timer that may or may not be active. */
  function Without(s: seq<Due>, t: Timer): seq<Due> {
    if s == [] then []
    else if s[0].timer == t then Without(s[1..], t)
    else [s[0]] + Without(s[1..], t)
  }

  /** On the entry of an active timer it is what the pointer list does. */
  lemma {:induction false} WithoutIsListRemove(s: seq<Due>, p: nat)
    requires p < |s| && forall i :: 0 <= i < |s| && s[i].timer == s[p].timer ==> i == p
    ensures Without(s, s[p].timer) == ListSpec.DropAt(s, p)
  {
    if p == 0 {
      WithoutNone(s[1..], s[0].timer);
    } else {
      WithoutIsListRemove(s[1..], p - 1);
    }
  }

  lemma {:induction false} WithoutNone(s: seq<Due>, t: Timer)
    requires forall i :: 0 <= i < |s| ==> s[i].timer != t
    ensures Without(s, t) == s
  {
    if s != [] {
      WithoutNone(s[1..], t);
    }
  }

  lemma {:induction false} WithoutOk(s: seq<Due>, t: Timer, period: map<Timer, Tick>)
    requires Sorted(s) && ActiveOk(s, period)
    ensures Sorted(Without(s, t)) && ActiveOk(Without(s, t), period)
    ensures Without(s, t) != [] ==> s[0].at <= Without(s, t)[0].at
  {
    if s != [] {
      WithoutOk(s[1..], t, period);
      assert s[0].timer != t ==> Without(s, t)[1..] == Without(s[1..], t);
    }
  }

  // ----- what the daemon does -----

  /** prvInsertTimerInActiveList for a timer armed at time `from`: true when its expiry has
      already passed, in which case it is not inserted. */
  function Arm(c: Clock, t: Timer, from: nat): (r: (Clock, bool))
    requires t in c.period
  {
    var expiry := from + c.period[t];
    if expiry <= c.now then (c, true) else (c.(active := Insert(c.active, Due(t, expiry))), false)
  }

  function Called(c: Clock, t: Timer, due: nat): Clock {
    c.(log := c.log + [Call(t, due, c.now)])
  }

  function Queued(c: Clock, m: Command): Clock {
    c.(queue := c.queue + [m])
  }

  /** prvProcessExpiredTimer: the head timer has expired. */
  function ExpireHead(c: Clock): Clock
    requires c.active != [] && c.active[0].timer in c.period
  {
    var d := c.active[0];
    var popped := c.(active := c.active[1..]);
    if d.timer !in c.reload then Called(popped, d.timer, d.at)
    else
      var (armed, late) := Arm(popped, d.timer, d.at);
      Called(if late then Queued(armed, Command(Start, d.timer, d.at)) else armed, d.timer, d.at)
  }

  /** One turn of the loop in prvSwitchTimerLists, which empties the epoch that ends at `bound`. */
  function DrainOne(c: Clock, bound: nat): Clock
    requires c.active != [] && c.active[0].timer in c.period
  {
    var d := c.active[0];
    var popped := Called(c.(active := c.active[1..]), d.timer, d.at);
    if d.timer !in c.reload then popped
    else if d.at + c.period[d.timer] < bound then
      popped.(active := Insert(popped.active, Due(d.timer, d.at + c.period[d.timer])))
    else Queued(popped, Command(Start, d.timer, d.at))
  }

  /** What is left before `bound`: the measure on which the drain terminates although it
      re-inserts into the list it empties. */
  function Load(s: seq<Due>, bound: nat): nat {
    if s == [] then 0 else (if s[0].at < bound then bound - s[0].at else 0) + Load(s[1..], bound)
  }

  lemma {:induction false} LoadInsert(s: seq<Due>, d: Due, bound: nat)
    ensures Load(Insert(s, d), bound) == Load(s, bound) + (if d.at < bound then bound - d.at else 0)
  {
    if s == [] || d.at < s[0].at {
      assert Insert(s, d)[1..] == s;
    } else {
      LoadInsert(s[1..], d, bound);
      assert Insert(s, d)[1..] == Insert(s[1..], d);
    }
  }

  lemma DrainOneValid(c: Clock, bound: nat)
    requires c.Valid() && c.active != []
    ensures DrainOne(c, bound).Valid()
  {
    var d := c.active[0];
    if d.timer in c.reload {
      if d.at + c.period[d.timer] < bound {
        InsertOk(c.active[1..], Due(d.timer, d.at + c.period[d.timer]), c.period);
      } else {
        AppendOk(c.queue, Command(Start, d.timer, d.at), c.period);
      }
    }
  }

  lemma DrainOneShrinks(c: Clock, bound: nat)
    requires c.Valid() && c.active != [] && c.active[0].at < bound
    ensures DrainOne(c, bound).Valid()
    ensures Load(DrainOne(c, bound).active, bound) < Load(c.active, bound)
  {
    var d, rest := c.active[0], c.active[1..];
    var again := Due(d.timer, d.at + c.period[d.timer]);
    LoadInsert(rest, again, bound);
    DrainOneValid(c, bound);
  }

  /** prvSwitchTimerLists: run every expiry before `bound`, in order. */
  ghost function Drain(c: Clock, bound: nat): (r: Clock)
    requires c.Valid()
    ensures r.Valid() && r.period == c.period && r.reload == c.reload && r.now == c.now
    ensures r.active == [] || bound <= r.active[0].at
    decreases Load(c.active, bound)
  {
    if c.active == [] || bound <= c.active[0].at then c
    else
      DrainOneShrinks(c, bound);
      Drain(DrainOne(c, bound), bound)
  }

  function Epoch(now: nat): nat {
    now / WRAP
  }

  /** prvSampleTimeNow: crossing into a new epoch first runs everything left in the old one. */
  ghost function Sample(c: Clock, now: nat): (r: Clock)
    requires c.Valid() && c.now <= now
    ensures r.Valid() && r.now == now && r.period == c.period && r.reload == c.reload
  {
    if Epoch(c.now) < Epoch(now) then Drain(c.(now := now), (Epoch(c.now) + 1) * WRAP) else c.(now := now)
  }

  /** One pass of prvProcessTimerOrBlockTask at time `now`. */
  ghost function TimerPass(c: Clock, now: nat): (r: Clock)
    requires c.Valid() && c.now <= now
    ensures r.now == now
  {
    var s := Sample(c, now);
    if Epoch(c.now) == Epoch(now) && s.active != [] && s.active[0].at <= now then ExpireHead(s) else s
  }

  /** Execution of one command, its timer already taken off the list. */
  function Execute(c: Clock, m: Command): Clock
    requires m.timer in c.period
  {
    match m.kind
    case Stop => c
    case ChangePeriod(p) => Arm(c.(period := c.period[m.timer := p]), m.timer, c.now).0
    case Start =>
      var (armed, late) := Arm(c, m.timer, m.at);
      if !late then armed
      else
        var called := Called(armed, m.timer, m.at + c.period[m.timer]);
        if m.timer in c.reload then Queued(called, Command(Start, m.timer, m.at + c.period[m.timer])) else called
  }

  /** The oldest command taken, and its timer off the list. */
  ghost function Popped(c: Clock): (r: Clock)
    requires c.Valid() && c.queue != []
    ensures r.Valid() && r.now == c.now && CommandOk(c.queue[0], r.period)
  {
    WithoutOk(c.active, c.queue[0].timer, c.period);
    c.(queue := c.queue[1..], active := Without(c.active, c.queue[0].timer))
  }

  /** One turn of the loop in prvProcessReceivedCommands at time `now`. */
  ghost function CommandPass(c: Clock, now: nat): (r: Clock)
    requires c.Valid() && c.now <= now && c.queue != []
    ensures r.now == now
  {
    Execute(Sample(Popped(c), now), c.queue[0])
  }

  // ----- each pass keeps the state well formed and the timers in order -----

  lemma ExpireHeadValid(c: Clock)
    requires c.Valid() && c.active != []
    ensures ExpireHead(c).Valid()
  {
    var d := c.active[0];
    if d.timer in c.reload {
      if d.at + c.period[d.timer] <= c.now {
        AppendOk(c.queue, Command(Start, d.timer, d.at), c.period);
      } else {
        InsertOk(c.active[1..], Due(d.timer, d.at + c.period[d.timer]), c.period);
      }
    }
  }

  lemma ChangePeriodValid(c: Clock, t: Timer, p: Tick)
    requires c.Valid() && t in c.period && p > 0
    ensures Execute(c, Command(ChangePeriod(p), t, 0)).Valid()
  {
    var period := c.period[t := p];
    PeriodChangeOk(c.active, c.queue, c.period, t, p);
    InsertOk(c.active, Due(t, c.now + p), period);
  }

  lemma StartValid(c: Clock, t: Timer, from: nat)
    requires c.Valid() && t in c.period
    ensures Execute(c, Command(Start, t, from)).Valid()
  {
    var expiry := from + c.period[t];
    if expiry <= c.now {
      AppendOk(c.queue, Command(Start, t, expiry), c.period);
    } else {
      InsertOk(c.active, Due(t, expiry), c.period);
    }
  }

  lemma ExecuteValid(c: Clock, m: Command)
    requires c.Valid() && CommandOk(m, c.period)
    ensures Execute(c, m).Valid()
  {
    match m.kind
    case Stop =>
    case ChangePeriod(p) => ChangePeriodValid(c, m.timer, p);
    case Start => StartValid(c, m.timer, m.at);
  }

  lemma TimerPassValid(c: Clock, now: nat)
    requires c.Valid() && c.now <= now
    ensures TimerPass(c, now).Valid()
  {
    var s := Sample(c, now);
    if Epoch(c.now) == Epoch(now) && s.active != [] && s.active[0].at <= now {
      ExpireHeadValid(s);
    }
  }

  lemma CommandPassValid(c: Clock, now: nat)
    requires c.Valid() && c.now <= now && c.queue != []
    ensures CommandPass(c, now).Valid()
  {
    ExecuteValid(Sample(Popped(c), now), c.queue[0]);
  }
}
