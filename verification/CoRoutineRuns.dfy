/**
 The whole co-routine scheduler in mathematical time: the sleepers of CoRoutineSpec, one
 ready list for each priority, and the two event lists a co-routine's second list item can
 be on.  Every created co-routine is in exactly one place, and over every run of calls one
 that delays itself wakes at exactly its tick.
 */
module CoRoutineRuns {
  import opened ListSpec
  import opened CoRoutineSpec

  /** The end marker of a ready list; no co-routine has this number. */
  const MARKER: nat := 0

  datatype Sched = Sched(
    time: Time,
    ready: seq<Walk<nat>>,           // pxReadyCoRoutineLists
    current: nat,                    // pxCurrentCoRoutine
    priorityOf: map<nat, nat>,
    waiting: set<nat>,               // those whose event item is on an event list
    pending: seq<nat>)               // xPendingReadyCoRoutineList

  // ----- what the calls do -----

  /** prvAddCoRoutineToReadyQueue, on the lists. */
  function Ready(ready: seq<Walk<nat>>, priorityOf: map<nat, nat>, id: nat): (r: seq<Walk<nat>>)
    ensures |r| == |ready|
  {
    if id in priorityOf && priorityOf[id] < |ready| && ready[priorityOf[id]].pos < |ready[priorityOf[id]].ring|
    then ready[priorityOf[id] := Add(ready[priorityOf[id]], id)] else ready
  }

  function Except(ids: seq<nat>, id: nat): seq<nat> {
    if ids == [] then []
    else if ids[0] == id then Except(ids[1..], id)
    else [ids[0]] + Except(ids[1..], id)
  }

  /** The first of the delayed list has timed out: it leaves that list and any event list. */
  function WakeFirst(s: Sched): Sched
    requires s.time.sleepers != []
  {
    var id := s.time.sleepers[0].id;
    s.(time := s.time.(sleepers := s.time.sleepers[1..], woken := s.time.woken + [Wake(id, s.time.now)]),
       ready := Ready(s.ready, s.priorityOf, id),
       waiting := s.waiting - {id},
       pending := Except(s.pending, id))
  }

  /** Everybody whose time has come. */
  function WakeDue(s: Sched): Sched
    decreases |s.time.sleepers|
  {
    if s.time.sleepers == [] || s.time.now < s.time.sleepers[0].value then s else WakeDue(WakeFirst(s))
  }

  function OneTick(s: Sched): Sched {
    WakeDue(s.(time := s.time.(now := s.time.now + 1)))
  }

  function ManyTicks(s: Sched, n: nat): Sched {
    if n == 0 then s else OneTick(ManyTicks(s, n - 1))
  }

  /** The first of the pending list leaves it and its delayed list, and becomes ready. */
  function TakeFirst(s: Sched): Sched
    requires s.pending != []
  {
    var id := s.pending[0];
    s.(time := Rouse(s.time, id), ready := Ready(s.ready, s.priorityOf, id), pending := s.pending[1..])
  }

  function TakePending(s: Sched): Sched
    decreases |s.pending|
  {
    if s.pending == [] then s else TakePending(TakeFirst(s))
  }

  /** The highest priority up to p that has anything ready. */
  function Highest(ready: seq<Walk<nat>>, p: int): (h: int)
    requires -1 <= p < |ready|
    ensures -1 <= h <= p && (0 <= h ==> |ready[h].ring| != 1)
    ensures forall q :: h < q <= p && 0 <= q ==> |ready[q].ring| == 1
  {
    if p < 0 then -1 else if |ready[p].ring| != 1 then p else Highest(ready, p - 1)
  }

  /** The next in turn of the highest priority that has any. */
  function Choose(s: Sched): Sched {
    var h := Highest(s.ready, |s.ready| - 1);
    if h < 0 || |s.ready[h].ring| < 2 then s
    else
      var w := Next(s.ready[h]);
      s.(ready := s.ready[h := w], current := if w.pos < |w.ring| then w.ring[w.pos] else s.current)
  }

  /** Where an item stands in a list. */
  function Find(s: seq<nat>, id: nat): (k: nat)
    ensures id in s ==> k < |s| && s[k] == id
  {
    if s == [] || s[0] == id then 0 else 1 + Find(s[1..], id)
  }

  /** The running co-routine is on the ready list of its priority. */
  predicate Running(s: Sched) {
    && s.current in s.priorityOf && s.priorityOf[s.current] < |s.ready|
    && var w := s.ready[s.priorityOf[s.current]]; w.pos < |w.ring| && s.current in w.ring[1..]
  }

  /** The running co-routine leaves its ready list. */
  function Leave(s: Sched): Sched
    requires Running(s)
  {
    var p := s.priorityOf[s.current];
    s.(ready := s.ready[p := Drop(s.ready[p], 1 + Find(s.ready[p].ring[1..], s.current))])
  }

  /** vCoRoutineAddToDelayedList. */
  function Delay(s: Sched, d: nat, onEventList: bool): Sched
    requires Running(s)
  {
    var asleep := Leave(s).(time := Sleep(s.time, s.current, d));
    if onEventList then asleep.(waiting := s.waiting + {s.current}) else asleep
  }

  /** xCoRoutineRemoveFromEventList. */
  function EventFor(s: Sched, id: nat): Sched {
    s.(waiting := s.waiting - {id}, pending := s.pending + [id])
  }

  function CreateNew(s: Sched, id: nat, priority: nat): Sched
    requires s.ready != []
  {
    var prio := s.priorityOf[id := if priority < |s.ready| then priority else |s.ready| - 1];
    s.(priorityOf := prio, ready := Ready(s.ready, prio, id), current := if s.current == MARKER then id else s.current)
  }

  /** What happens: calls of the application, of the running co-routine and of interrupts; and the
      parts of vCoRoutineSchedule, between which interrupts can come: one pending co-routine
      made ready, one tick, and the choice of the next to run. */
  datatype Call =
    | CallCreate(id: nat, priority: nat)
    | CallDelay(d: nat, onEventList: bool)
    | CallEvent(id: nat)
    | CallTake
    | CallTick
    | CallChoose

  /** Numbers are given once; only the running co-routine delays, for a tick at least; and an
      event finds only what is on an event list. */
  predicate Enabled(s: Sched, c: Call) {
    match c
    case CallCreate(id, _) => id != MARKER && id !in s.priorityOf
    case CallDelay(d, _) => Running(s) && d > 0
    case CallEvent(id) => id in s.waiting
    case CallTake => s.pending != []
    case CallTick => true
    case CallChoose => true
  }

  function Do(s: Sched, c: Call): Sched
    requires s.ready != [] && Enabled(s, c)
  {
    match c
    case CallCreate(id, priority) => CreateNew(s, id, priority)
    case CallDelay(d, onEventList) => Delay(s, d, onEventList)
    case CallEvent(id) => EventFor(s, id)
    case CallTake => TakeFirst(s)
    case CallTick => OneTick(s)
    case CallChoose => Choose(s)
  }

  /** vCoRoutineSchedule after so many ticks, with no interrupt in between. */
  function Scheduled(s: Sched, passed: nat): Sched {
    Choose(ManyTicks(TakePending(s), passed))
  }

  // ----- every co-routine is in exactly one place -----

  function Count(s: seq<nat>, id: nat): nat {
    if s == [] then 0 else (if s[0] == id then 1 else 0) + Count(s[1..], id)
  }

  /** How often a co-routine is on a ready list. */
  function CountIn(w: Walk<nat>, id: nat): nat {
    if w.ring == [] then 0 else Count(w.ring[1..], id)
  }

  ghost predicate AllOf(s: seq<nat>, priorityOf: map<nat, nat>, p: nat) {
    s == [] || (s[0] in priorityOf && priorityOf[s[0]] == p && AllOf(s[1..], priorityOf, p))
  }

  /** A ready list is well formed and holds co-routines of its priority only. */
  ghost predicate ListOk(w: Walk<nat>, priorityOf: map<nat, nat>, p: nat) {
    w.pos < |w.ring| && AllOf(w.ring[1..], priorityOf, p)
  }

  ghost predicate ListsOk(s: Sched) {
    s.ready != [] && forall p :: 0 <= p < |s.ready| ==> ListOk(s.ready[p], s.priorityOf, p)
  }

  /** A created co-routine is ready once or asleep once, never both; and only what is asleep is on
      an event list, either one that it waits on or, once, that of the pending. */
  ghost predicate PlaceOk(s: Sched, id: nat) {
    && (if id in s.priorityOf then
          && id != MARKER && s.priorityOf[id] < |s.ready|
          && CountIn(s.ready[s.priorityOf[id]], id) + |TimesOf(s.time.sleepers, id)| == 1
        else |TimesOf(s.time.sleepers, id)| == 0)
    && (id in s.waiting ==> |TimesOf(s.time.sleepers, id)| == 1 && Count(s.pending, id) == 0)
    && (Count(s.pending, id) > 0 ==> |TimesOf(s.time.sleepers, id)| == 1 && Count(s.pending, id) == 1)
  }

  ghost predicate PlacesOk(s: Sched) {
    ListsOk(s) && forall id: nat :: PlaceOk(s, id)
  }

  ghost predicate SchedOk(s: Sched) {
    Inv(s.time) && PlacesOk(s)
  }

  // ----- counting -----

  lemma {:induction false} CountParts(a: seq<nat>, b: seq<nat>, id: nat)
    ensures Count(a + b, id) == Count(a, id) + Count(b, id)
  {
    if a == [] {
      assert a + b == b;
    } else {
      CountParts(a[1..], b, id);
      assert (a + b)[1..] == a[1..] + b;
    }
  }

  lemma {:induction false} CountIsIn(s: seq<nat>, id: nat)
    ensures Count(s, id) > 0 <==> id in s
  {
    if s != [] {
      CountIsIn(s[1..], id);
    }
  }

  lemma {:induction false} CountExcept(s: seq<nat>, x: nat, id: nat)
    ensures Count(Except(s, x), id) == if x == id then 0 else Count(s, id)
  {
    if s != [] {
      CountExcept(s[1..], x, id);
      if s[0] != x {
        assert Except(s, x)[1..] == Except(s[1..], x);
      }
    }
  }

  lemma {:induction false} AllOfParts(a: seq<nat>, b: seq<nat>, priorityOf: map<nat, nat>, p: nat)
    ensures AllOf(a + b, priorityOf, p) <==> AllOf(a, priorityOf, p) && AllOf(b, priorityOf, p)
  {
    if a == [] {
      assert a + b == b;
    } else {
      AllOfParts(a[1..], b, priorityOf, p);
      assert (a + b)[1..] == a[1..] + b;
    }
  }

  lemma {:induction false} AllOfCount(s: seq<nat>, priorityOf: map<nat, nat>, p: nat, id: nat)
    requires AllOf(s, priorityOf, p) && !(id in priorityOf && priorityOf[id] == p)
    ensures Count(s, id) == 0
  {
    if s != [] {
      AllOfCount(s[1..], priorityOf, p, id);
    }
  }

  /** What one more item in the middle does to a list. */
  lemma OneMoreItem(a: seq<nat>, x: nat, b: seq<nat>, priorityOf: map<nat, nat>, p: nat, id: nat)
    ensures Count(a + ([x] + b), id) == Count(a + b, id) + (if x == id then 1 else 0)
    ensures AllOf(a + ([x] + b), priorityOf, p) <==>
      AllOf(a + b, priorityOf, p) && x in priorityOf && priorityOf[x] == p
  {
    var one := [x];
    assert one[1..] == [];
    CountParts(a, b, id);
    CountParts(a, one + b, id);
    CountParts(one, b, id);
    AllOfParts(a, b, priorityOf, p);
    AllOfParts(a, one + b, priorityOf, p);
    AllOfParts(one, b, priorityOf, p);
  }

  /** What an addition does to a ready list. */
  lemma AddedTo(w: Walk<nat>, x: nat, priorityOf: map<nat, nat>, p: nat, id: nat)
    requires ListOk(w, priorityOf, p) && x in priorityOf && priorityOf[x] == p
    ensures ListOk(Add(w, x), priorityOf, p)
    ensures CountIn(Add(w, x), id) == CountIn(w, id) + (if x == id then 1 else 0)
  {
    var k := if w.pos == 0 then |w.ring| else w.pos;
    var a, b := w.ring[1..k], w.ring[k..];
    assert w.ring[1..] == a + b && Add(w, x).ring[1..] == a + ([x] + b);
    OneMoreItem(a, x, b, priorityOf, p, id);
  }

  /** And a removal. */
  lemma DroppedFrom(w: Walk<nat>, k: nat, priorityOf: map<nat, nat>, p: nat, id: nat)
    requires ListOk(w, priorityOf, p) && 1 <= k < |w.ring|
    ensures ListOk(Drop(w, k), priorityOf, p)
    ensures CountIn(w, id) == CountIn(Drop(w, k), id) + (if w.ring[k] == id then 1 else 0)
  {
    var a, b := w.ring[1..k], w.ring[k + 1..];
    assert w.ring[1..] == a + ([w.ring[k]] + b) && Drop(w, k).ring[1..] == a + b;
    OneMoreItem(a, w.ring[k], b, priorityOf, p, id);
  }

  lemma {:induction false} TimesOfWithout(ss: seq<Sleeper>, x: nat, id: nat)
    ensures TimesOf(Without(ss, x), id) == if x == id then [] else TimesOf(ss, id)
  {
    if ss != [] {
      TimesOfWithout(ss[1..], x, id);
      if ss[0].id != x {
        assert Without(ss, x)[1..] == Without(ss[1..], x);
      }
    }
  }

  lemma {:induction false} CountTimesInsert(ss: seq<Sleeper>, x: Sleeper, id: nat)
    ensures |TimesOf(Insert(ss, x), id)| == |TimesOf(ss, id)| + (if x.id == id then 1 else 0)
  {
    if ss == [] || x.value < ss[0].value {
      assert ([x] + ss)[1..] == ss;
    } else {
      CountTimesInsert(ss[1..], x, id);
      assert Insert(ss, x)[1..] == Insert(ss[1..], x);
    }
  }

  // ----- every call keeps everybody in one place -----

  lemma PendingIsCreated(s: Sched)
    requires PlacesOk(s) && s.pending != []
    ensures s.pending[0] in s.priorityOf && s.priorityOf[s.pending[0]] < |s.ready|
  {
    assert PlaceOk(s, s.pending[0]);
  }

  lemma SleeperIsCreated(s: Sched)
    requires PlacesOk(s) && s.time.sleepers != []
    ensures var id := s.time.sleepers[0].id; id in s.priorityOf && s.priorityOf[id] < |s.ready|
  {
    assert PlaceOk(s, s.time.sleepers[0].id);
  }

  lemma ReadiedPlaces(s: Sched, s': Sched, x: nat)
    requires ListsOk(s) && x in s.priorityOf && s.priorityOf[x] < |s.ready|
    requires s'.ready == Ready(s.ready, s.priorityOf, x) && s'.priorityOf == s.priorityOf
    ensures ListsOk(s')
    ensures forall id :: id in s.priorityOf && s.priorityOf[id] < |s.ready| ==>
      CountIn(s'.ready[s.priorityOf[id]], id) == CountIn(s.ready[s.priorityOf[id]], id) + (if x == id then 1 else 0)
  {
    var p := s.priorityOf[x];
    assert ListOk(s.ready[p], s.priorityOf, p);
    forall id | id in s.priorityOf && s.priorityOf[id] < |s.ready|
      ensures CountIn(s'.ready[s.priorityOf[id]], id)
           == CountIn(s.ready[s.priorityOf[id]], id) + (if x == id then 1 else 0)
    {
      AddedTo(s.ready[p], x, s.priorityOf, p, id);
    }
    forall q | 0 <= q < |s'.ready| ensures ListOk(s'.ready[q], s'.priorityOf, q) {
      AddedTo(s.ready[p], x, s.priorityOf, p, x);
      assert ListOk(s.ready[q], s.priorityOf, q);
    }
  }

  lemma WakeFirstPlaces(s: Sched)
    requires PlacesOk(s) && s.time.sleepers != []
    ensures PlacesOk(WakeFirst(s))
  {
    var s', x := WakeFirst(s), s.time.sleepers[0].id;
    assert PlaceOk(s, x);
    assert TimesOf(s.time.sleepers, x) == [s.time.sleepers[0].value] + TimesOf(s.time.sleepers[1..], x);
    ReadiedPlaces(s, s', x);
    forall id: nat ensures PlaceOk(s', id) {
      assert PlaceOk(s, id);
      CountExcept(s.pending, x, id);
    }
  }

  lemma {:induction false} WakeDuePlaces(s: Sched)
    requires PlacesOk(s)
    ensures PlacesOk(WakeDue(s))
    decreases |s.time.sleepers|
  {
    if !(s.time.sleepers == [] || s.time.now < s.time.sleepers[0].value) {
      WakeFirstPlaces(s);
      WakeDuePlaces(WakeFirst(s));
    }
  }

  /** Places have nothing to do with the time of day. */
  lemma LaterPlaces(s: Sched)
    requires PlacesOk(s)
    ensures PlacesOk(s.(time := s.time.(now := s.time.now + 1)))
  {
    var s' := s.(time := s.time.(now := s.time.now + 1));
    forall id: nat ensures PlaceOk(s', id) {
      assert PlaceOk(s, id);
    }
    assert ListsOk(s');
  }

  lemma OneTickPlaces(s: Sched)
    requires PlacesOk(s)
    ensures PlacesOk(OneTick(s))
  {
    LaterPlaces(s);
    WakeDuePlaces(s.(time := s.time.(now := s.time.now + 1)));
  }

  lemma {:induction false} ManyTicksPlaces(s: Sched, n: nat)
    requires PlacesOk(s)
    ensures PlacesOk(ManyTicks(s, n))
  {
    if n > 0 {
      ManyTicksPlaces(s, n - 1);
      OneTickPlaces(ManyTicks(s, n - 1));
    }
  }

  lemma TakeFirstPlaces(s: Sched)
    requires PlacesOk(s) && s.pending != []
    ensures PlacesOk(TakeFirst(s))
  {
    var s', x := TakeFirst(s), s.pending[0];
    assert PlaceOk(s, x);
    ReadiedPlaces(s, s', x);
    forall id: nat ensures PlaceOk(s', id) {
      assert PlaceOk(s, id);
      TimesOfWithout(s.time.sleepers, x, id);
    }
  }

  lemma {:induction false} TakePendingPlaces(s: Sched)
    requires PlacesOk(s)
    ensures PlacesOk(TakePending(s)) && TakePending(s).pending == []
    decreases |s.pending|
  {
    if s.pending != [] {
      TakeFirstPlaces(s);
      TakePendingPlaces(TakeFirst(s));
    }
  }

  lemma ChoosePlaces(s: Sched)
    requires PlacesOk(s)
    ensures PlacesOk(Choose(s)) && Choose(s).time == s.time
  {
    var s' := Choose(s);
    forall p | 0 <= p < |s.ready| ensures ListOk(s'.ready[p], s'.priorityOf, p) {
      assert ListOk(s.ready[p], s.priorityOf, p);
    }
    forall id: nat ensures PlaceOk(s', id) {
      assert PlaceOk(s, id);
    }
  }

  lemma DelayLists(s: Sched, d: nat, onEventList: bool)
    requires ListsOk(s) && Running(s)
    ensures ListsOk(Delay(s, d, onEventList))
  {
    var s', p := Delay(s, d, onEventList), s.priorityOf[s.current];
    assert ListOk(s.ready[p], s.priorityOf, p);
    DroppedFrom(s.ready[p], 1 + Find(s.ready[p].ring[1..], s.current), s.priorityOf, p, s.current);
    forall q | 0 <= q < |s'.ready| ensures ListOk(s'.ready[q], s'.priorityOf, q) {
      assert ListOk(s.ready[q], s.priorityOf, q);
    }
  }

  /** Delaying moves one from the ready list to the sleepers. */
  lemma DelayCounts(s: Sched, d: nat, onEventList: bool, id: nat)
    requires ListsOk(s) && Running(s)
    ensures var s', p := Delay(s, d, onEventList), s.priorityOf[s.current];
      && CountIn(s.ready[p], id) == CountIn(s'.ready[p], id) + (if id == s.current then 1 else 0)
      && |TimesOf(s'.time.sleepers, id)| == |TimesOf(s.time.sleepers, id)| + (if id == s.current then 1 else 0)
  {
    var x := s.current;
    var p := s.priorityOf[x];
    assert ListOk(s.ready[p], s.priorityOf, p);
    DroppedFrom(s.ready[p], 1 + Find(s.ready[p].ring[1..], x), s.priorityOf, p, id);
    CountTimesInsert(s.time.sleepers, Sleeper(x, s.time.now + d), id);
  }

  lemma DelayPlace(s: Sched, d: nat, onEventList: bool, id: nat)
    requires ListsOk(s) && Running(s) && PlaceOk(s, id) && PlaceOk(s, s.current)
    ensures PlaceOk(Delay(s, d, onEventList), id)
  {
    CountIsIn(s.ready[s.priorityOf[s.current]].ring[1..], s.current);
    DelayCounts(s, d, onEventList, id);
  }

  lemma DelayPlaces(s: Sched, d: nat, onEventList: bool)
    requires PlacesOk(s) && Running(s)
    ensures PlacesOk(Delay(s, d, onEventList))
  {
    DelayLists(s, d, onEventList);
    forall id: nat ensures PlaceOk(Delay(s, d, onEventList), id) {
      assert PlaceOk(s, id) && PlaceOk(s, s.current);
      DelayPlace(s, d, onEventList, id);
    }
  }

  lemma EventPlaces(s: Sched, x: nat)
    requires PlacesOk(s) && x in s.waiting
    ensures PlacesOk(EventFor(s, x))
  {
    var s', one := EventFor(s, x), [x];
    assert one[1..] == [] && PlaceOk(s, x);
    forall p | 0 <= p < |s.ready| ensures ListOk(s'.ready[p], s'.priorityOf, p) {
      assert ListOk(s.ready[p], s.priorityOf, p);
    }
    forall id: nat ensures PlaceOk(s', id) {
      assert PlaceOk(s, id);
      CountParts(s.pending, one, id);
    }
  }

  lemma {:induction false} AllOfMore(s: seq<nat>, priorityOf: map<nat, nat>, p: nat, id: nat, q: nat)
    requires AllOf(s, priorityOf, p) && id !in priorityOf
    ensures AllOf(s, priorityOf[id := q], p)
  {
    if s != [] {
      AllOfMore(s[1..], priorityOf, p, id, q);
    }
  }

  lemma CreatePlaces(s: Sched, x: nat, priority: nat)
    requires PlacesOk(s) && x != MARKER && x !in s.priorityOf
    ensures PlacesOk(CreateNew(s, x, priority))
  {
    var s' := CreateNew(s, x, priority);
    var q := s'.priorityOf[x];
    var s1 := s.(priorityOf := s'.priorityOf);
    forall p | 0 <= p < |s1.ready| ensures ListOk(s1.ready[p], s1.priorityOf, p) {
      assert ListOk(s.ready[p], s.priorityOf, p);
      AllOfMore(s.ready[p].ring[1..], s.priorityOf, p, x, q);
    }
    ReadiedPlaces(s1, s', x);
    assert ListOk(s.ready[q], s.priorityOf, q);
    AllOfCount(s.ready[q].ring[1..], s.priorityOf, q, x);
    forall id: nat ensures PlaceOk(s', id) {
      assert PlaceOk(s, id);
    }
  }

  // ----- the time part -----

  lemma {:induction false} WakeDueTime(s: Sched)
    ensures WakeDue(s).time == s.time.(
      sleepers := Later(s.time.sleepers, s.time.now),
      woken := s.time.woken + Expired(s.time.sleepers, s.time.now, s.time.now))
    ensures WakeDue(s).priorityOf == s.priorityOf
    decreases |s.time.sleepers|
  {
    var ss, now := s.time.sleepers, s.time.now;
    if ss == [] || now < ss[0].value {
      assert s.time.woken + Expired(ss, now, now) == s.time.woken;
    } else {
      WakeDueTime(WakeFirst(s));
      assert s.time.woken + ([Wake(ss[0].id, now)] + Expired(ss[1..], now, now))
          == (s.time.woken + [Wake(ss[0].id, now)]) + Expired(ss[1..], now, now);
    }
  }

  /** The step of CoRoutineSpec that a call is, if it is one. */
  function StepsOf(s: Sched, c: Call): (steps: seq<TimeStep>)
    requires Enabled(s, c)
    ensures |steps| <= 1
  {
    match c
    case CallDelay(d, _) => [StepSleep(s.current, d)]
    case CallTake => [StepRouse(s.pending[0])]
    case CallTick => [StepTick]
    case _ => []
  }

  lemma RunOne(t: Time, step: TimeStep)
    ensures Run(t, [step]) == After(t, step)
  {
    assert [step][1..] == [];
  }

  /** Every call is at most one step. */
  lemma CallIsSteps(s: Sched, c: Call)
    requires PlacesOk(s) && Enabled(s, c)
    ensures Do(s, c).time == Run(s.time, StepsOf(s, c))
  {
    match c
    case CallDelay(d, _) => RunOne(s.time, StepSleep(s.current, d));
    case CallTake => RunOne(s.time, StepRouse(s.pending[0]));
    case CallTick =>
      WakeDueTime(s.(time := s.time.(now := s.time.now + 1)));
      RunOne(s.time, StepTick);
    case CallChoose => ChoosePlaces(s);
    case _ =>
  }

  lemma {:induction false} RunKeepsTime(t: Time, steps: seq<TimeStep>)
    requires Inv(t) && forall i :: 0 <= i < |steps| ==> (steps[i].StepSleep? ==> steps[i].d > 0)
    ensures Inv(Run(t, steps)) && Run(t, steps).now == t.now + TicksIn(steps)
    decreases |steps|
  {
    if steps != [] {
      StepKeepsInv(t, steps[0]);
      RunKeepsTime(After(t, steps[0]), steps[1..]);
    }
  }

  /** So many ticks pass in a call. */
  function Passed(c: Call): nat {
    if c.CallTick? then 1 else 0
  }

  /** The step of a call: whether it is a tick, and that it leaves alone a co-routine that is
      neither the one that delays nor pending. */
  lemma StepsOfCall(s: Sched, c: Call, id: nat)
    requires PlacesOk(s) && Enabled(s, c)
    ensures TicksIn(StepsOf(s, c)) == Passed(c)
    ensures forall i :: 0 <= i < |StepsOf(s, c)| ==> (StepsOf(s, c)[i].StepSleep? ==> StepsOf(s, c)[i].d > 0)
    ensures Count(s.pending, id) == 0 && (c.CallDelay? ==> s.current != id) ==> Others(StepsOf(s, c), id)
  {
    var steps := StepsOf(s, c);
    assert steps != [] ==> steps[1..] == [];
    CountIsIn(s.pending, id);
  }

  /** Every call keeps everybody in one place, and the sleepers in order and in the future. */
  lemma CallKeepsOk(s: Sched, c: Call)
    requires SchedOk(s) && Enabled(s, c)
    ensures SchedOk(Do(s, c))
  {
    CallIsSteps(s, c);
    StepsOfCall(s, c, MARKER);
    RunKeepsTime(s.time, StepsOf(s, c));
    match c
    case CallCreate(id, priority) => CreatePlaces(s, id, priority);
    case CallDelay(d, onEventList) => DelayPlaces(s, d, onEventList);
    case CallEvent(id) => EventPlaces(s, id);
    case CallTake => TakeFirstPlaces(s);
    case CallTick => OneTickPlaces(s);
    case CallChoose => ChoosePlaces(s);
  }

  // ----- whole runs -----

  ghost predicate IsRun(s: Sched, calls: seq<Call>, s': Sched)
    decreases |calls|
  {
    if calls == [] then s == s'
    else s.ready != [] && Enabled(s, calls[0]) && IsRun(Do(s, calls[0]), calls[1..], s')
  }

  /** The ticks that pass in a run. */
  function PassedIn(calls: seq<Call>): nat {
    if calls == [] then 0 else Passed(calls[0]) + PassedIn(calls[1..])
  }

  ghost predicate NoEventFor(calls: seq<Call>, id: nat) {
    calls == [] || (calls[0] != CallEvent(id) && NoEventFor(calls[1..], id))
  }

  lemma {:induction false} RunKeepsOk(s: Sched, calls: seq<Call>, s': Sched)
    requires SchedOk(s) && IsRun(s, calls, s')
    ensures SchedOk(s')
    decreases |calls|
  {
    if calls != [] {
      CallKeepsOk(s, calls[0]);
      RunKeepsOk(Do(s, calls[0]), calls[1..], s');
    }
  }

  // ----- a scheduling call without interrupts, and interrupts within a tick -----

  lemma {:induction false} RunConcat(s: Sched, a: seq<Call>, m: Sched, b: seq<Call>, s': Sched)
    requires IsRun(s, a, m) && IsRun(m, b, s')
    ensures IsRun(s, a + b, s') && PassedIn(a + b) == PassedIn(a) + PassedIn(b)
    decreases |a|
  {
    if a == [] {
      assert a + b == b;
    } else {
      var calls := a + b;
      assert calls[0] == a[0] && calls[1..] == a[1..] + b;
      RunConcat(Do(s, a[0]), a[1..], m, b, s');
    }
  }

  lemma RunCall(s: Sched, c: Call)
    requires s.ready != [] && Enabled(s, c)
    ensures IsRun(s, [c], Do(s, c)) && PassedIn([c]) == Passed(c)
  {
    assert [c][1..] == [];
  }

  function Repeat(c: Call, n: nat): seq<Call> {
    if n == 0 then [] else Repeat(c, n - 1) + [c]
  }

  lemma {:induction false} TicksAreRun(s: Sched, n: nat)
    requires PlacesOk(s)
    ensures IsRun(s, Repeat(CallTick, n), ManyTicks(s, n)) && PassedIn(Repeat(CallTick, n)) == n
  {
    if n > 0 {
      TicksAreRun(s, n - 1);
      ManyTicksPlaces(s, n - 1);
      RunCall(ManyTicks(s, n - 1), CallTick);
      RunConcat(s, Repeat(CallTick, n - 1), ManyTicks(s, n - 1), [CallTick], ManyTicks(s, n));
    }
  }

  lemma {:induction false} TakingIsRun(s: Sched) returns (calls: seq<Call>)
    requires PlacesOk(s)
    ensures IsRun(s, calls, TakePending(s)) && PassedIn(calls) == 0
    decreases |s.pending|
  {
    calls := [];
    if s.pending != [] {
      TakeFirstPlaces(s);
      var rest := TakingIsRun(TakeFirst(s));
      calls := [CallTake] + rest;
      assert calls[1..] == rest;
    }
  }

  /** A scheduling call is a run of its parts, in which those ticks pass. */
  lemma ScheduleIsRun(s: Sched, passed: nat) returns (calls: seq<Call>)
    requires PlacesOk(s)
    ensures IsRun(s, calls, Scheduled(s, passed)) && PassedIn(calls) == passed
  {
    var taken := TakePending(s);
    var takes := TakingIsRun(s);
    TakePendingPlaces(s);
    TicksAreRun(taken, passed);
    ManyTicksPlaces(taken, passed);
    RunConcat(s, takes, taken, Repeat(CallTick, passed), ManyTicks(taken, passed));
    RunCall(ManyTicks(taken, passed), CallChoose);
    calls := takes + Repeat(CallTick, passed) + [CallChoose];
    RunConcat(s, takes + Repeat(CallTick, passed), ManyTicks(taken, passed), [CallChoose], Scheduled(s, passed));
  }

  lemma ScheduledOk(s: Sched, passed: nat)
    requires SchedOk(s)
    ensures SchedOk(Scheduled(s, passed))
  {
    var calls := ScheduleIsRun(s, passed);
    RunKeepsOk(s, calls, Scheduled(s, passed));
  }

  /** An event within a tick is as one before it.  If it is for the co-routine whose time has just
      come, that one is woken by the tick alone: it is taken off the pending list too. */
  lemma EventWithinTick(s: Sched, x: nat)
    requires s.time.sleepers != []
    ensures WakeFirst(EventFor(s, x))
         == if x == s.time.sleepers[0].id then WakeFirst(s) else EventFor(WakeFirst(s), x)
  {
    var head := s.time.sleepers[0].id;
    ExceptSnoc(s.pending, x, head);
    assert s.waiting - {x} - {head} == s.waiting - {head} - {x};
  }

  lemma {:induction false} ExceptSnoc(ids: seq<nat>, x: nat, id: nat)
    ensures Except(ids + [x], id) == Except(ids, id) + (if x == id then [] else [x])
  {
    var all := ids + [x];
    if ids == [] {
      assert all[0] == x && all[1..] == [];
    } else {
      assert all[0] == ids[0] && all[1..] == ids[1..] + [x];
      ExceptSnoc(ids[1..], x, id);
    }
  }

  /** Before anything is created. */
  ghost predicate Init(s: Sched) {
    && s.ready != [] && (forall p :: 0 <= p < |s.ready| ==> s.ready[p] == Walk([MARKER], 0))
    && s == Sched(Time(0, [], []), s.ready, MARKER, map[], {}, [])
  }

  lemma InitOk(s: Sched)
    requires Init(s)
    ensures SchedOk(s)
  {
    forall x: nat ensures PlaceOk(s, x) {
    }
    forall p | 0 <= p < |s.ready| ensures ListOk(s.ready[p], s.priorityOf, p) {
      assert s.ready[p].ring[1..] == [];
    }
  }

  /** Over every run from the start, each created co-routine is ready once or asleep once, never
      both, and a co-routine that is not asleep is on no event list. */
  lemma EverybodyIsSomewhere(s: Sched, calls: seq<Call>, s': Sched, id: nat)
    requires Init(s) && IsRun(s, calls, s') && id in s'.priorityOf
    ensures s'.priorityOf[id] < |s'.ready|
    ensures CountIn(s'.ready[s'.priorityOf[id]], id) + |TimesOf(s'.time.sleepers, id)| == 1
    ensures id in s'.waiting || id in s'.pending ==> |TimesOf(s'.time.sleepers, id)| == 1
  {
    InitOk(s);
    RunKeepsOk(s, calls, s');
    assert PlaceOk(s', id);
    CountIsIn(s'.pending, id);
  }

  lemma RunningIsAwake(s: Sched)
    requires PlacesOk(s) && Running(s)
    ensures TimesOf(s.time.sleepers, s.current) == [] && Count(s.pending, s.current) == 0
  {
    assert PlaceOk(s, s.current);
    CountIsIn(s.ready[s.priorityOf[s.current]].ring[1..], s.current);
  }

  /** One call while a co-routine sleeps and no event has come for it. */
  lemma CallWhileAsleep(s: Sched, c: Call, id: nat, v: nat)
    requires SchedOk(s) && Enabled(s, c) && c != CallEvent(id)
    requires TimesOf(s.time.sleepers, id) == [v] && v > s.time.now && Count(s.pending, id) == 0
    ensures var s' := Do(s, c);
      && s'.time.now == s.time.now + Passed(c)
      && WakesOf(s'.time.woken, id) == WakesOf(s.time.woken, id) + (if s'.time.now >= v then [v] else [])
      && (s'.time.now < v ==> TimesOf(s'.time.sleepers, id) == [v] && Count(s'.pending, id) == 0)
  {
    if c.CallDelay? {
      RunningIsAwake(s);
    }
    StepsOfCall(s, c, id);
    CallIsSteps(s, c);
    RunKeepsTime(s.time, StepsOf(s, c));
    SleepsUntil(s.time, StepsOf(s, c), id, v);
    PendingAfter(s, c, id);
  }

  /** Only an event makes a co-routine pending. */
  lemma PendingAfter(s: Sched, c: Call, id: nat)
    requires PlacesOk(s) && Enabled(s, c) && c != CallEvent(id) && Count(s.pending, id) == 0
    ensures Count(Do(s, c).pending, id) == 0
  {
    match c
    case CallEvent(other) =>
      CountParts(s.pending, [other], id);
      assert [other][1..] == [];
    case CallTick => WakeDuePending(s.(time := s.time.(now := s.time.now + 1)), id);
    case _ =>
  }

  lemma {:induction false} WakeDuePending(s: Sched, id: nat)
    requires Count(s.pending, id) == 0
    ensures Count(WakeDue(s).pending, id) == 0
    decreases |s.time.sleepers|
  {
    if !(s.time.sleepers == [] || s.time.now < s.time.sleepers[0].value) {
      CountExcept(s.pending, s.time.sleepers[0].id, id);
      WakeDuePending(WakeFirst(s), id);
    }
  }

  /** The log only grows. */
  lemma {:induction false} LogGrows(t: Time, steps: seq<TimeStep>, id: nat)
    ensures WakesOf(t.woken, id) <= WakesOf(Run(t, steps).woken, id)
    decreases |steps|
  {
    if steps != [] {
      WakesOfParts(t.woken, Expired(t.sleepers, t.now + 1, t.now + 1), id);
      LogGrows(After(t, steps[0]), steps[1..], id);
    }
  }

  lemma {:induction false} RunLogGrows(s: Sched, calls: seq<Call>, s': Sched, id: nat)
    requires SchedOk(s) && IsRun(s, calls, s')
    ensures WakesOf(s.time.woken, id) <= WakesOf(s'.time.woken, id)
    decreases |calls|
  {
    if calls != [] {
      CallIsSteps(s, calls[0]);
      LogGrows(s.time, StepsOf(s, calls[0]), id);
      CallKeepsOk(s, calls[0]);
      RunLogGrows(Do(s, calls[0]), calls[1..], s', id);
    }
  }

  lemma {:induction false} SleepsOn(s: Sched, calls: seq<Call>, s': Sched, id: nat, v: nat)
    requires SchedOk(s) && IsRun(s, calls, s') && NoEventFor(calls, id)
    requires TimesOf(s.time.sleepers, id) == [v] && v > s.time.now && Count(s.pending, id) == 0
    ensures s.time.now + PassedIn(calls) < v ==>
      WakesOf(s'.time.woken, id) == WakesOf(s.time.woken, id) && TimesOf(s'.time.sleepers, id) == [v]
    ensures s.time.now + PassedIn(calls) >= v ==> WakesOf(s.time.woken, id) + [v] <= WakesOf(s'.time.woken, id)
    decreases |calls|
  {
    if calls != [] {
      var next := Do(s, calls[0]);
      CallWhileAsleep(s, calls[0], id, v);
      CallKeepsOk(s, calls[0]);
      if next.time.now < v {
        SleepsOn(next, calls[1..], s', id, v);
      } else {
        RunLogGrows(next, calls[1..], s', id);
      }
    }
  }

  lemma DelayedIsAsleep(s: Sched, d: nat, onEventList: bool)
    requires SchedOk(s) && Enabled(s, CallDelay(d, onEventList))
    ensures var next := Do(s, CallDelay(d, onEventList));
      && SchedOk(next) && next.time.now == s.time.now && next.time.woken == s.time.woken
      && TimesOf(next.time.sleepers, s.current) == [s.time.now + d] && Count(next.pending, s.current) == 0
  {
    RunningIsAwake(s);
    InsertSelf(s.time.sleepers, Sleeper(s.current, s.time.now + d));
    CallKeepsOk(s, CallDelay(d, onEventList));
  }

  /** The running co-routine delays itself by d > 0 ticks.  Whatever calls follow, but for an event
      for it: as long as fewer than d ticks have passed it is asleep and has not woken; and once
      d ticks have passed its next wake has been at exactly the d-th. */
  lemma DelayedWakesAtItsTick(s: Sched, d: nat, onEventList: bool, calls: seq<Call>, s': Sched)
    requires SchedOk(s) && Enabled(s, CallDelay(d, onEventList))
    requires IsRun(Do(s, CallDelay(d, onEventList)), calls, s') && NoEventFor(calls, s.current)
    ensures PassedIn(calls) < d ==>
      WakesOf(s'.time.woken, s.current) == WakesOf(s.time.woken, s.current)
        && TimesOf(s'.time.sleepers, s.current) == [s.time.now + d]
    ensures PassedIn(calls) >= d ==>
      WakesOf(s.time.woken, s.current) + [s.time.now + d] <= WakesOf(s'.time.woken, s.current)
  {
    DelayedIsAsleep(s, d, onEventList);
    SleepsOn(Do(s, CallDelay(d, onEventList)), calls, s', s.current, s.time.now + d);
  }
}
