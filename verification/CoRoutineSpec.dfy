/**
 Delayed co-routines (croutine.c) in mathematical time: a list of sleepers in the order of
 their wake-up times, and a log of who woke when.
 */
module CoRoutineSpec {
  import ListSpec
  import opened Types

  /** A co-routine and the tick at which it is to wake. */
  datatype Sleeper = Sleeper(id: nat, value: nat)

  datatype Wake = Wake(id: nat, at: nat)

  datatype Time = Time(now: nat, sleepers: seq<Sleeper>, woken: seq<Wake>)

  /** vListInsert by wake-up time: behind all that are not later. */
  function Insert(ss: seq<Sleeper>, x: Sleeper): seq<Sleeper> {
    if ss == [] || x.value < ss[0].value then [x] + ss else [ss[0]] + Insert(ss[1..], x)
  }

  /** The wake-up times, as the values of a kernel list. */
  function Values(ss: seq<Sleeper>): (values: seq<nat>)
    ensures |values| == |ss|
  {
    if ss == [] then [] else [ss[0].value] + Values(ss[1..])
  }

  /** It is what the pointer list does: KernelLists.List.Insert puts an item at this place. */
  lemma {:induction false} InsertIsListInsert(ss: seq<Sleeper>, x: Sleeper)
    ensures Insert(ss, x) == ListSpec.InsertAt(ss, ListSpec.Place(Values(ss), x.value), x)
    ensures Values(Insert(ss, x)) == ListSpec.InsertAt(Values(ss), ListSpec.Place(Values(ss), x.value), x.value)
  {
    if ss == [] || x.value < ss[0].value {
      assert Insert(ss, x)[1..] == ss;
    } else {
      var p := ListSpec.Place(Values(ss), x.value);
      InsertIsListInsert(ss[1..], x);
      assert Values(ss)[1..] == Values(ss[1..]);
      ListSpec.InsertAtTail(ss, p, x);
      ListSpec.InsertAtTail(Values(ss), p, x.value);
      assert Insert(ss, x)[1..] == Insert(ss[1..], x);
    }
  }

  /** Those whose time has come, from the head of the list, stamped with a time. */
  function Expired(ss: seq<Sleeper>, now: nat, at: nat): seq<Wake> {
    if ss == [] || now < ss[0].value then [] else [Wake(ss[0].id, at)] + Expired(ss[1..], now, at)
  }

  function Later(ss: seq<Sleeper>, now: nat): seq<Sleeper> {
    if ss == [] || now < ss[0].value then ss else Later(ss[1..], now)
  }

  function Without(ss: seq<Sleeper>, id: nat): seq<Sleeper> {
    if ss == [] then []
    else if ss[0].id == id then Without(ss[1..], id)
    else [ss[0]] + Without(ss[1..], id)
  }

  /** On one that sleeps it is what the pointer list does. */
  lemma {:induction false} WithoutIsListRemove(ss: seq<Sleeper>, p: nat)
    requires p < |ss| && forall i :: 0 <= i < |ss| && ss[i].id == ss[p].id ==> i == p
    ensures Without(ss, ss[p].id) == ListSpec.DropAt(ss, p)
  {
    if p == 0 {
      WithoutNone(ss[1..], ss[0].id);
    } else {
      WithoutIsListRemove(ss[1..], p - 1);
    }
  }

  lemma {:induction false} WithoutNone(ss: seq<Sleeper>, id: nat)
    requires forall i :: 0 <= i < |ss| ==> ss[i].id != id
    ensures Without(ss, id) == ss
  {
    if ss != [] {
      WithoutNone(ss[1..], id);
    }
  }

  function Sleep(t: Time, id: nat, d: nat): Time {
    t.(sleepers := Insert(t.sleepers, Sleeper(id, t.now + d)))
  }

  function Tick(t: Time): Time {
    Time(t.now + 1, Later(t.sleepers, t.now + 1), t.woken + Expired(t.sleepers, t.now + 1, t.now + 1))
  }

  /** An event wakes a sleeper early. */
  function Rouse(t: Time, id: nat): Time {
    t.(sleepers := Without(t.sleepers, id))
  }

  datatype TimeStep = StepSleep(id: nat, d: nat) | StepTick | StepRouse(id: nat)

  function After(t: Time, step: TimeStep): Time {
    match step
    case StepSleep(id, d) => Sleep(t, id, d)
    case StepTick => Tick(t)
    case StepRouse(id) => Rouse(t, id)
  }

  function Run(t: Time, steps: seq<TimeStep>): Time
    decreases |steps|
  {
    if steps == [] then t else Run(After(t, steps[0]), steps[1..])
  }

  // ----- the list is sorted and holds the future only -----

  ghost predicate Ordered(ss: seq<Sleeper>) {
    |ss| <= 1 || (ss[0].value <= ss[1].value && Ordered(ss[1..]))
  }

  /** Every sleeper's time is after now. */
  ghost predicate Above(ss: seq<Sleeper>, now: int) {
    ss == [] || (now < ss[0].value && Above(ss[1..], now))
  }

  ghost predicate Inv(t: Time) {
    Ordered(t.sleepers) && Above(t.sleepers, t.now)
  }

  lemma {:induction false} InsertKeeps(ss: seq<Sleeper>, x: Sleeper, now: int)
    requires Ordered(ss) && Above(ss, now) && now < x.value
    ensures Ordered(Insert(ss, x)) && Above(Insert(ss, x), now)
  {
    if ss == [] || x.value < ss[0].value {
      assert ([x] + ss)[1..] == ss;
    } else {
      InsertKeeps(ss[1..], x, now);
      var r := Insert(ss, x);
      assert r[1..] == Insert(ss[1..], x);
    }
  }

  lemma {:induction false} SortedAbove(ss: seq<Sleeper>, now: int)
    requires Ordered(ss) && (ss != [] ==> now < ss[0].value)
    ensures Above(ss, now)
  {
    if ss != [] {
      SortedAbove(ss[1..], now);
    }
  }

  lemma {:induction false} LaterKeeps(ss: seq<Sleeper>, now: nat)
    requires Ordered(ss)
    ensures Ordered(Later(ss, now)) && Above(Later(ss, now), now)
  {
    if ss == [] || now < ss[0].value {
      SortedAbove(ss, now);
    } else {
      LaterKeeps(ss[1..], now);
    }
  }

  lemma {:induction false} WithoutKeeps(ss: seq<Sleeper>, id: nat, now: int)
    requires Ordered(ss) && Above(ss, now)
    ensures Ordered(Without(ss, id)) && Above(Without(ss, id), now)
    ensures Without(ss, id) != [] ==> ss != [] && ss[0].value <= Without(ss, id)[0].value
  {
    if ss != [] {
      WithoutKeeps(ss[1..], id, now);
      if ss[0].id != id {
        assert Without(ss, id)[1..] == Without(ss[1..], id);
      }
    }
  }

  // ----- one co-routine in all this -----

  /** The times at which a co-routine is to wake. */
  function TimesOf(ss: seq<Sleeper>, id: nat): seq<nat> {
    if ss == [] then []
    else (if ss[0].id == id then [ss[0].value] else []) + TimesOf(ss[1..], id)
  }

  /** The times at which it has woken. */
  function WakesOf(ws: seq<Wake>, id: nat): seq<nat> {
    if ws == [] then []
    else (if ws[0].id == id then [ws[0].at] else []) + WakesOf(ws[1..], id)
  }

  lemma {:induction false} WakesOfParts(a: seq<Wake>, b: seq<Wake>, id: nat)
    ensures WakesOf(a + b, id) == WakesOf(a, id) + WakesOf(b, id)
  {
    if a == [] {
      assert a + b == b;
    } else {
      var ws := a + b;
      assert ws[0] == a[0] && ws[1..] == a[1..] + b;
      WakesOfParts(a[1..], b, id);
      Regroup(if a[0].id == id then [a[0].at] else [], WakesOf(a[1..], id), WakesOf(b, id));
    }
  }

  lemma {:induction false} InsertOther(ss: seq<Sleeper>, x: Sleeper, id: nat)
    requires x.id != id
    ensures TimesOf(Insert(ss, x), id) == TimesOf(ss, id)
  {
    if ss == [] || x.value < ss[0].value {
      assert ([x] + ss)[1..] == ss;
    } else {
      InsertOther(ss[1..], x, id);
      assert Insert(ss, x)[1..] == Insert(ss[1..], x);
    }
  }

  lemma {:induction false} InsertSelf(ss: seq<Sleeper>, x: Sleeper)
    requires TimesOf(ss, x.id) == []
    ensures TimesOf(Insert(ss, x), x.id) == [x.value]
  {
    if ss == [] || x.value < ss[0].value {
      assert ([x] + ss)[1..] == ss;
    } else {
      InsertSelf(ss[1..], x);
      assert Insert(ss, x)[1..] == Insert(ss[1..], x);
    }
  }

  lemma {:induction false} WithoutOther(ss: seq<Sleeper>, other: nat, id: nat)
    requires other != id
    ensures TimesOf(Without(ss, other), id) == TimesOf(ss, id)
  {
    if ss != [] {
      WithoutOther(ss[1..], other, id);
      if ss[0].id != other {
        assert Without(ss, other)[1..] == Without(ss[1..], other);
      }
    }
  }

  /** A tick wakes exactly those whose time it is. */
  lemma {:induction false} ExpiredOf(ss: seq<Sleeper>, now: nat, at: nat, id: nat, v: nat)
    requires Ordered(ss) && Above(ss, now - 1) && TimesOf(ss, id) == [v]
    ensures v >= now
    ensures v == now ==> WakesOf(Expired(ss, now, at), id) == [at] && TimesOf(Later(ss, now), id) == []
    ensures v > now ==> WakesOf(Expired(ss, now, at), id) == [] && TimesOf(Later(ss, now), id) == [v]
  {
    if now < ss[0].value {
      SortedAbove(ss, now);
      TimesAbove(ss, now, id);
      assert TimesOf(ss, id)[0] == v;
    } else {
      var ws := Expired(ss, now, at);
      assert ws[1..] == Expired(ss[1..], now, at);
      if ss[0].id == id {
        assert TimesOf(ss, id)[0] == ss[0].value;
        assert TimesOf(ss[1..], id) == [];
        ExpiredNone(ss[1..], now, at, id);
      } else {
        assert TimesOf(ss, id) == TimesOf(ss[1..], id);
        ExpiredOf(ss[1..], now, at, id, v);
      }
    }
  }

  lemma {:induction false} TimesAbove(ss: seq<Sleeper>, now: int, id: nat)
    requires Above(ss, now)
    ensures forall i :: 0 <= i < |TimesOf(ss, id)| ==> now < TimesOf(ss, id)[i]
  {
    if ss != [] {
      TimesAbove(ss[1..], now, id);
    }
  }

  lemma {:induction false} ExpiredNone(ss: seq<Sleeper>, now: nat, at: nat, id: nat)
    requires TimesOf(ss, id) == []
    ensures WakesOf(Expired(ss, now, at), id) == [] && TimesOf(Later(ss, now), id) == []
  {
    if ss != [] && ss[0].value <= now {
      assert ss[0].id != id;
      ExpiredNone(ss[1..], now, at, id);
      assert Expired(ss, now, at)[1..] == Expired(ss[1..], now, at);
    }
  }

  function TicksIn(steps: seq<TimeStep>): nat {
    if steps == [] then 0 else (if steps[0].StepTick? then 1 else 0) + TicksIn(steps[1..])
  }

  /** No step of a run is about a co-routine, and every delay is at least one tick. */
  ghost predicate Others(steps: seq<TimeStep>, id: nat) {
    steps == [] ||
    (&& (steps[0].StepSleep? ==> steps[0].id != id && steps[0].d > 0)
     && (steps[0].StepRouse? ==> steps[0].id != id)
     && Others(steps[1..], id))
  }

  lemma StepKeepsInv(t: Time, step: TimeStep)
    requires Inv(t) && (step.StepSleep? ==> step.d > 0)
    ensures Inv(After(t, step))
  {
    match step
    case StepSleep(id, d) => InsertKeeps(t.sleepers, Sleeper(id, t.now + d), t.now);
    case StepTick => LaterKeeps(t.sleepers, t.now + 1);
    case StepRouse(id) => WithoutKeeps(t.sleepers, id, t.now);
  }

  lemma {:induction false} AwakeStaysAwake(t: Time, steps: seq<TimeStep>, id: nat)
    requires TimesOf(t.sleepers, id) == [] && Others(steps, id)
    ensures WakesOf(Run(t, steps).woken, id) == WakesOf(t.woken, id) && TimesOf(Run(t, steps).sleepers, id) == []
    decreases |steps|
  {
    if steps != [] {
      var t' := After(t, steps[0]);
      match steps[0] {
        case StepSleep(other, d) => InsertOther(t.sleepers, Sleeper(other, t.now + d), id);
        case StepTick =>
          ExpiredNone(t.sleepers, t.now + 1, t.now + 1, id);
          WakesOfParts(t.woken, Expired(t.sleepers, t.now + 1, t.now + 1), id);
        case StepRouse(other) => WithoutOther(t.sleepers, other, id);
      }
      AwakeStaysAwake(t', steps[1..], id);
    }
  }

  lemma {:induction false} SleepsUntil(t: Time, steps: seq<TimeStep>, id: nat, v: nat)
    requires Inv(t) && TimesOf(t.sleepers, id) == [v] && v > t.now && Others(steps, id)
    ensures WakesOf(Run(t, steps).woken, id)
         == WakesOf(t.woken, id) + (if t.now + TicksIn(steps) >= v then [v] else [])
    ensures TimesOf(Run(t, steps).sleepers, id) == if t.now + TicksIn(steps) >= v then [] else [v]
    decreases |steps|
  {
    if steps != [] {
      var t' := After(t, steps[0]);
      StepKeepsInv(t, steps[0]);
      match steps[0] {
        case StepSleep(other, d) =>
          InsertOther(t.sleepers, Sleeper(other, t.now + d), id);
          SleepsUntil(t', steps[1..], id, v);
        case StepTick =>
          TickOf(t, id, v);
          if v == t.now + 1 {
            AwakeStaysAwake(t', steps[1..], id);
          } else {
            SleepsUntil(t', steps[1..], id, v);
          }
        case StepRouse(other) =>
          WithoutOther(t.sleepers, other, id);
          SleepsUntil(t', steps[1..], id, v);
      }
    }
  }

  lemma TickOf(t: Time, id: nat, v: nat)
    requires Inv(t) && TimesOf(t.sleepers, id) == [v] && v > t.now
    ensures v == t.now + 1 ==>
      WakesOf(Tick(t).woken, id) == WakesOf(t.woken, id) + [v] && TimesOf(Tick(t).sleepers, id) == []
    ensures v > t.now + 1 ==>
      WakesOf(Tick(t).woken, id) == WakesOf(t.woken, id) && TimesOf(Tick(t).sleepers, id) == [v]
  {
    ExpiredOf(t.sleepers, t.now + 1, t.now + 1, id, v);
    WakesOfParts(t.woken, Expired(t.sleepers, t.now + 1, t.now + 1), id);
  }

  /** A co-routine that delays itself by d > 0 ticks, and is woken by no event, wakes exactly
      once, and at exactly the d-th later tick, whatever the others do. */
  lemma WakesAtItsTick(t: Time, id: nat, d: nat, steps: seq<TimeStep>)
    requires Inv(t) && TimesOf(t.sleepers, id) == [] && d > 0 && Others(steps, id)
    ensures WakesOf(Run(Sleep(t, id, d), steps).woken, id)
         == WakesOf(t.woken, id) + (if TicksIn(steps) >= d then [t.now + d] else [])
  {
    InsertSelf(t.sleepers, Sleeper(id, t.now + d));
    InsertKeeps(t.sleepers, Sleeper(id, t.now + d), t.now);
    SleepsUntil(Sleep(t, id, d), steps, id, t.now + d);
  }

  lemma {:induction false} WithoutSelf(ss: seq<Sleeper>, id: nat)
    ensures TimesOf(Without(ss, id), id) == []
  {
    if ss != [] {
      WithoutSelf(ss[1..], id);
      if ss[0].id != id {
        assert Without(ss, id)[1..] == Without(ss[1..], id);
      }
    }
  }

  /** One that an event has woken is not woken again by the delay it was in. */
  lemma RousedIsNotWokenAgain(t: Time, id: nat, steps: seq<TimeStep>)
    requires Others(steps, id)
    ensures WakesOf(Run(Rouse(t, id), steps).woken, id) == WakesOf(t.woken, id)
  {
    WithoutSelf(t.sleepers, id);
    AwakeStaysAwake(Rouse(t, id), steps, id);
  }
}
