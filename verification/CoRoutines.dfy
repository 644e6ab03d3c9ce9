/**
 The co-routine scheduler of croutine.c: a 32-bit tick count, two delayed lists that change
 places when it wraps, and one ready list for each priority.  The wrapped counters and the two
 lists refine the unwrapped scheduler of CoRoutineRuns.
 */
module CoRoutines {
  import opened Arithmetic
  import opened Types
  import opened ListSpec
  import opened CoRoutineSpec
  import opened CoRoutineRuns

  const CYCLE: nat := 0x1_0000_0000

  // ----- from wrapped wake-up times to unwrapped ones -----

  function Shift(ss: seq<Sleeper>, k: nat): (r: seq<Sleeper>)
    ensures |r| == |ss|
  {
    if ss == [] then [] else [Sleeper(ss[0].id, ss[0].value + k)] + Shift(ss[1..], k)
  }

  ghost predicate Below(ss: seq<Sleeper>, hi: int) {
    ss == [] || (ss[0].value < hi && Below(ss[1..], hi))
  }

  lemma {:induction false} ShiftInsert(ss: seq<Sleeper>, x: Sleeper, k: nat)
    ensures Shift(Insert(ss, x), k) == Insert(Shift(ss, k), Sleeper(x.id, x.value + k))
  {
    if ss == [] || x.value < ss[0].value {
      assert ([x] + ss)[1..] == ss;
    } else {
      ShiftInsert(ss[1..], x, k);
      assert Insert(ss, x)[1..] == Insert(ss[1..], x);
    }
  }

  /** Something due before all of the second list goes into the first. */
  lemma {:induction false} InsertLeft(a: seq<Sleeper>, b: seq<Sleeper>, x: Sleeper)
    requires Above(b, x.value)
    ensures Insert(a + b, x) == Insert(a, x) + b
  {
    if a == [] {
      assert a + b == b;
    } else if x.value >= a[0].value {
      InsertLeft(a[1..], b, x);
      assert (a + b)[1..] == a[1..] + b;
    }
  }

  /** Something not due before any of the first list goes into the second. */
  lemma {:induction false} InsertRight(a: seq<Sleeper>, b: seq<Sleeper>, x: Sleeper)
    requires Below(a, x.value + 1)
    ensures Insert(a + b, x) == a + Insert(b, x)
  {
    if a == [] {
      assert a + b == b;
    } else {
      var ss := a + b;
      assert ss[0] == a[0] && ss[1..] == a[1..] + b;
      InsertRight(a[1..], b, x);
      assert Insert(ss, x) == [a[0]] + (a[1..] + Insert(b, x));
    }
  }

  lemma {:induction false} ShiftBelow(ss: seq<Sleeper>, hi: int, k: nat)
    ensures Below(ss, hi) <==> Below(Shift(ss, k), hi + k)
  {
    if ss != [] {
      ShiftBelow(ss[1..], hi, k);
    }
  }

  lemma {:induction false} AboveLower(ss: seq<Sleeper>, lo: int, lower: int)
    requires Above(ss, lo) && lower <= lo
    ensures Above(ss, lower)
  {
    if ss != [] {
      AboveLower(ss[1..], lo, lower);
    }
  }

  lemma {:induction false} BelowHigher(ss: seq<Sleeper>, hi: int, higher: int)
    requires Below(ss, hi) && hi <= higher
    ensures Below(ss, higher)
  {
    if ss != [] {
      BelowHigher(ss[1..], hi, higher);
    }
  }

  lemma PlacedBehind(delayed: seq<Sleeper>, overflow: seq<Sleeper>, epoch: nat, x: Sleeper)
    requires Below(delayed, CYCLE)
    ensures Insert(Shift(delayed, epoch) + Shift(overflow, epoch + CYCLE), Sleeper(x.id, x.value + epoch + CYCLE))
         == Shift(delayed, epoch) + Shift(Insert(overflow, x), epoch + CYCLE)
  {
    var y := Sleeper(x.id, x.value + (epoch + CYCLE));
    ShiftBelow(delayed, CYCLE, epoch);
    BelowHigher(Shift(delayed, epoch), CYCLE + epoch, y.value + 1);
    InsertRight(Shift(delayed, epoch), Shift(overflow, epoch + CYCLE), y);
    ShiftInsert(overflow, x, epoch + CYCLE);
  }

  lemma PlacedBefore(delayed: seq<Sleeper>, overflow: seq<Sleeper>, epoch: nat, x: Sleeper)
    requires x.value < CYCLE
    ensures Insert(Shift(delayed, epoch) + Shift(overflow, epoch + CYCLE), Sleeper(x.id, x.value + epoch))
         == Shift(Insert(delayed, x), epoch) + Shift(overflow, epoch + CYCLE)
  {
    var y := Sleeper(x.id, x.value + epoch);
    OverflowIsLater(overflow, epoch);
    AboveLower(Shift(overflow, epoch + CYCLE), epoch + CYCLE - 1, y.value);
    InsertLeft(Shift(delayed, epoch), Shift(overflow, epoch + CYCLE), y);
    ShiftInsert(delayed, x, epoch);
  }

  lemma {:induction false} OverflowIsLater(ss: seq<Sleeper>, epoch: nat)
    ensures Above(Shift(ss, epoch + CYCLE), epoch + CYCLE - 1)
  {
    if ss != [] {
      OverflowIsLater(ss[1..], epoch);
    }
  }

  /** When the tick count wraps the current list is empty. */
  lemma SwappedOutIsEmpty(delayed: seq<Sleeper>)
    requires Above(delayed, CYCLE - 1) && Below(delayed, CYCLE)
    ensures delayed == []
  {
  }

  // ----- invariants of the pieces of a scheduler -----

  /** A delayed list: in order, all its wake-up times between two bounds. */
  ghost predicate Listed(ss: seq<Sleeper>, lo: int, hi: int) {
    ss == [] ||
    (&& lo < ss[0].value < hi
     && (|ss| > 1 ==> ss[0].value <= ss[1].value)
     && Listed(ss[1..], lo, hi))
  }

  lemma {:induction false} ListedBounds(ss: seq<Sleeper>, lo: int, hi: int)
    requires Listed(ss, lo, hi)
    ensures Ordered(ss) && Above(ss, lo) && Below(ss, hi)
  {
    if ss != [] {
      ListedBounds(ss[1..], lo, hi);
    }
  }

  lemma {:induction false} ListedWidens(ss: seq<Sleeper>, lo: int, hi: int, lower: int, higher: int)
    requires Listed(ss, lo, hi) && lower <= lo && hi <= higher
    ensures Listed(ss, lower, higher)
  {
    if ss != [] {
      ListedWidens(ss[1..], lo, hi, lower, higher);
    }
  }

  lemma {:induction false} ListedInsert(ss: seq<Sleeper>, x: Sleeper, lo: int, hi: int)
    requires Listed(ss, lo, hi) && lo < x.value < hi
    ensures Listed(Insert(ss, x), lo, hi)
  {
    if ss == [] || x.value < ss[0].value {
      assert ([x] + ss)[1..] == ss;
    } else {
      ListedInsert(ss[1..], x, lo, hi);
      assert Insert(ss, x)[1..] == Insert(ss[1..], x);
    }
  }

  lemma {:induction false} ListedWithout(ss: seq<Sleeper>, id: nat, lo: int, hi: int)
    requires Listed(ss, lo, hi)
    ensures Listed(Without(ss, id), lo, hi)
    ensures Without(ss, id) != [] ==> ss != [] && ss[0].value <= Without(ss, id)[0].value
  {
    if ss != [] {
      ListedWithout(ss[1..], id, lo, hi);
      if ss[0].id != id {
        assert Without(ss, id)[1..] == Without(ss[1..], id);
      }
    }
  }

  /** Nothing before the head of a list. */
  lemma {:induction false} ListedFrom(ss: seq<Sleeper>, lo: int, from: int, hi: int)
    requires Listed(ss, lo, hi) && (ss != [] ==> from < ss[0].value)
    ensures Listed(ss, from, hi)
  {
    if ss != [] {
      ListedFrom(ss[1..], lo, from, hi);
    }
  }

  lemma {:induction false} ShiftWithout(ss: seq<Sleeper>, id: nat, k: nat)
    ensures Shift(Without(ss, id), k) == Without(Shift(ss, k), id)
  {
    if ss != [] {
      ShiftWithout(ss[1..], id, k);
      if ss[0].id != id {
        assert Without(ss, id)[1..] == Without(ss[1..], id);
      }
    }
  }

  lemma {:induction false} WithoutParts(a: seq<Sleeper>, b: seq<Sleeper>, id: nat)
    ensures Without(a + b, id) == Without(a, id) + Without(b, id)
  {
    if a == [] {
      assert a + b == b;
    } else {
      var ss := a + b;
      assert ss[0] == a[0] && ss[1..] == a[1..] + b;
      WithoutParts(a[1..], b, id);
      if a[0].id != id {
        assert Without(ss, id) == [a[0]] + (Without(a[1..], id) + Without(b, id));
      }
    }
  }

  lemma RouseIsExact(delayed: seq<Sleeper>, overflow: seq<Sleeper>, epoch: nat, id: nat)
    ensures Without(Shift(delayed, epoch) + Shift(overflow, epoch + CYCLE), id)
         == Shift(Without(delayed, id), epoch) + Shift(Without(overflow, id), epoch + CYCLE)
  {
    WithoutParts(Shift(delayed, epoch), Shift(overflow, epoch + CYCLE), id);
    ShiftWithout(delayed, id, epoch);
    ShiftWithout(overflow, id, epoch + CYCLE);
  }

  // ----- the ready lists -----

  /** Every list is well formed, and those of a priority above the top one are empty. */
  ghost predicate ReadyOk(ready: seq<Walk<nat>>, top: nat) {
    && top < |ready|
    && (forall p :: 0 <= p < |ready| ==> ready[p].pos < |ready[p].ring|)
    && (forall p :: top < p < |ready| ==> |ready[p].ring| == 1)
  }

  lemma ReadyDrop(ready: seq<Walk<nat>>, top: nat, p: nat, k: nat)
    requires ReadyOk(ready, top) && p < |ready| && 1 <= k < |ready[p].ring|
    ensures ReadyOk(ready[p := Drop(ready[p], k)], top)
  {
  }

  /** Lists that are empty above the top priority leave the search to those below. */
  lemma {:induction false} HighestFrom(ready: seq<Walk<nat>>, top: nat, p: nat)
    requires top <= p < |ready| && forall q :: top < q <= p ==> |ready[q].ring| == 1
    ensures Highest(ready, p) == Highest(ready, top)
  {
    if top < p {
      HighestFrom(ready, top, p - 1);
    }
  }

  /** The heads of the two lists, unwrapped and one after the other. */
  lemma HeadOfBoth(delayed: seq<Sleeper>, overflow: seq<Sleeper>, tick: nat, epoch: nat)
    requires tick < CYCLE
    ensures var ss := Shift(delayed, epoch) + Shift(overflow, epoch + CYCLE);
      if delayed == [] then ss == [] || epoch + tick < ss[0].value
      else
        && ss[0] == Sleeper(delayed[0].id, delayed[0].value + epoch)
        && ss[1..] == Shift(delayed[1..], epoch) + Shift(overflow, epoch + CYCLE)
  {
    var a, b := Shift(delayed, epoch), Shift(overflow, epoch + CYCLE);
    if delayed == [] {
      assert a + b == b;
    } else {
      assert (a + b)[0] == a[0] && (a + b)[1..] == a[1..] + b;
    }
  }

  /** A wrap of 32-bit arithmetic on less than two cycles. */
  function Wrapped(n: nat): nat {
    Wrap(n, CYCLE)
  }

  /** Both lists, unwrapped and one after the other. */
  function Both(delayed: seq<Sleeper>, overflow: seq<Sleeper>, epoch: nat): seq<Sleeper> {
    Shift(delayed, epoch) + Shift(overflow, epoch + CYCLE)
  }

  /** The two lists with a wrapped wake-up time in the one that the comparison with the tick chooses. */
  function PutIn(delayed: seq<Sleeper>, overflow: seq<Sleeper>, tick: nat, x: Sleeper): (seq<Sleeper>, seq<Sleeper>) {
    if x.value < tick then (delayed, Insert(overflow, x)) else (Insert(delayed, x), overflow)
  }

  /** A wrapped wake-up time goes to the list whose epoch it lies in: the two lists, unwrapped and
      one after the other, are the sleepers with the new one in its place. */
  lemma PlacementIsExact(delayed: seq<Sleeper>, overflow: seq<Sleeper>, tick: nat, epoch: nat, id: nat, d: nat)
    requires tick < CYCLE && 0 < d < CYCLE
    requires Listed(delayed, tick, CYCLE) && Listed(overflow, -1, tick)
    ensures Wrapped(tick + d) < tick <==> tick + d >= CYCLE
    ensures var (l, o) := PutIn(delayed, overflow, tick, Sleeper(id, Wrapped(tick + d)));
      && Listed(l, tick, CYCLE) && Listed(o, -1, tick)
      && Both(l, o, epoch) == Insert(Both(delayed, overflow, epoch), Sleeper(id, epoch + tick + d))
  {
    var x := Sleeper(id, Wrapped(tick + d));
    if tick + d < CYCLE {
      PlacedBefore(delayed, overflow, epoch, x);
      ListedInsert(delayed, x, tick, CYCLE);
    } else {
      ListedBounds(delayed, tick, CYCLE);
      PlacedBehind(delayed, overflow, epoch, x);
      ListedInsert(overflow, x, -1, tick);
    }
  }

  /** A delay of no tick at all goes into the current list with the present tick.  The next tick
      looks at that list and wakes it, if and only if it is not the one that wraps: the wrap
      exchanges the lists, with the co-routine still in the one that becomes the overflow list. */
  lemma ZeroDelayWakesNextTickExactly(delayed: seq<Sleeper>, overflow: seq<Sleeper>, tick: nat, id: nat, at: nat)
    requires tick < CYCLE && Listed(delayed, tick, CYCLE) && Listed(overflow, -1, tick)
    requires TimesOf(delayed, id) == [] && TimesOf(overflow, id) == []
    ensures var next, put := Wrapped(tick + 1), PutIn(delayed, overflow, tick, Sleeper(id, Wrapped(tick + 0)));
      var looked := if next == 0 then put.1 else put.0;
      WakesOf(Expired(looked, next, at), id) == [at] <==> tick + 1 < CYCLE
  {
    var x, next := Sleeper(id, tick), Wrapped(tick + 1);
    if tick + 1 < CYCLE {
      var put := Insert(delayed, x);
      assert put == [x] + delayed && put[1..] == delayed;
      assert Expired(put, next, at)[1..] == Expired(delayed, next, at);
      ExpiredNone(delayed, next, at, id);
    } else {
      ExpiredNone(overflow, next, at, id);
    }
  }

  class Scheduler {
    var priorityOf: map<nat, nat>
    var ready: seq<Walk<nat>>
    var top: nat
    var current: nat
    var delayed: seq<Sleeper>
    var overflow: seq<Sleeper>
    var waiting: set<nat>
    var pending: seq<nat>
    var tickCount: nat
    var lastTickCount: nat
    ghost var epoch: nat
    ghost var sleepers: seq<Sleeper>      // both delayed lists, unwrapped
    ghost var woken: seq<Wake>

    /** The current list is not yet looked at in this tick if lo is -1, and else it has been. */
    ghost predicate Lists(lo: int)
      reads this
    {
      && tickCount < CYCLE && sleepers == Both(delayed, overflow, epoch)
      && Listed(delayed, lo, CYCLE) && Listed(overflow, -1, tickCount)
    }

    ghost predicate WellFormed()
      reads this
    {
      Lists(tickCount) && ReadyOk(ready, top)
    }

    /** The scheduler unwrapped. */
    ghost function View(): Sched
      reads this
    {
      Sched(Time(epoch + tickCount, sleepers, woken), ready, current, priorityOf, waiting, pending)
    }

    /** In particular each created co-routine is on one ready list or asleep on one delayed list. */
    ghost predicate Valid()
      reads this
    {
      WellFormed() && SchedOk(View())
    }

    /** prvInitialiseCoRoutineLists. */
    constructor (priorities: nat)
      requires priorities > 0
      ensures Valid() && Init(View()) && lastTickCount == tickCount && |ready| == priorities
    {
      priorityOf, top, current, delayed, overflow, waiting, pending := map[], 0, MARKER, [], [], {}, [];
      ready := seq(priorities, _ => Walk([MARKER], 0));
      tickCount, lastTickCount, epoch, sleepers, woken := 0, 0, 0, [], [];
      new;
      InitOk(View());
    }

    /** prvAddCoRoutineToReadyQueue. */
    method AddToReadyQueue(id: nat)
      requires ReadyOk(ready, top) && id in priorityOf && priorityOf[id] < |ready|
      modifies this`top, this`ready
      ensures ReadyOk(ready, top) && View() == old(View()).(ready := Ready(old(ready), priorityOf, id))
    {
      var p := priorityOf[id];
      if p > top {
        top := p;
      }
      ready := ready[p := Add(ready[p], id)];
    }

    /** The wake-up time, which may wrap, and the list it goes to. */
    method PutToSleep(id: nat, ticksToDelay: nat)
      requires Lists(tickCount) && ticksToDelay < CYCLE
      modifies this`delayed, this`overflow, this`sleepers
      ensures (delayed, overflow)
        == PutIn(old(delayed), old(overflow), tickCount, Sleeper(id, Wrapped(tickCount + ticksToDelay)))
      ensures ticksToDelay > 0 ==> Lists(tickCount)
      ensures View() == old(View()).(time := Sleep(old(View()).time, id, ticksToDelay))
    {
      if ticksToDelay > 0 {
        PlacementIsExact(delayed, overflow, tickCount, epoch, id, ticksToDelay);
      }
      PutInList(Sleeper(id, Wrapped(tickCount + ticksToDelay)));
      sleepers := Insert(sleepers, Sleeper(id, epoch + tickCount + ticksToDelay));
    }

    method PutInList(x: Sleeper)
      modifies this`delayed, this`overflow
      ensures (delayed, overflow) == PutIn(old(delayed), old(overflow), tickCount, x)
    {
      if x.value < tickCount {
        overflow := Insert(overflow, x);
      } else {
        delayed := Insert(delayed, x);
      }
    }

    /** vCoRoutineAddToDelayedList of the running co-routine, and its event item on an event list
        if there is one.  crDELAY and the queue calls ask for one tick at least. */
    method AddToDelayedList(ticksToDelay: nat, onEventList: bool)
      requires Valid() && Running(View()) && ticksToDelay < CYCLE
      modifies this`ready, this`delayed, this`overflow, this`sleepers, this`waiting
      ensures ticksToDelay > 0 ==> Valid() && View() == Do(old(View()), CallDelay(ticksToDelay, onEventList))
      ensures (delayed, overflow)
        == PutIn(old(delayed), old(overflow), tickCount, Sleeper(current, Wrapped(tickCount + ticksToDelay)))
    {
      ghost var before := View();
      Doze(ticksToDelay, onEventList);
      if ticksToDelay > 0 {
        CallKeepsOk(before, CallDelay(ticksToDelay, onEventList));
      }
    }

    /** The same on the lists, whatever else holds. */
    method Doze(ticksToDelay: nat, onEventList: bool)
      requires WellFormed() && Running(View()) && ticksToDelay < CYCLE
      modifies this`ready, this`delayed, this`overflow, this`sleepers, this`waiting
      ensures ticksToDelay > 0 ==> WellFormed()
      ensures View() == Delay(old(View()), ticksToDelay, onEventList)
      ensures (delayed, overflow)
        == PutIn(old(delayed), old(overflow), tickCount, Sleeper(current, Wrapped(tickCount + ticksToDelay)))
    {
      LeaveReadyList();
      PutToSleep(current, ticksToDelay);
      if onEventList {
        waiting := waiting + {current};
      }
    }

    /** uxListRemove of the running co-routine's item. */
    method LeaveReadyList()
      requires ReadyOk(ready, top) && Running(View())
      modifies this`ready
      ensures ReadyOk(ready, top) && View() == Leave(old(View()))
    {
      var p := priorityOf[current];
      var k := 1 + Find(ready[p].ring[1..], current);
      ReadyDrop(ready, top, p, k);
      ready := ready[p := Drop(ready[p], k)];
    }

    /** uxListRemove of the first item of the current list. */
    method TakeHead() returns (head: Sleeper)
      requires Lists(-1) && delayed != []
      modifies this`delayed, this`sleepers
      ensures Lists(-1) && head == old(delayed)[0] && delayed == old(delayed)[1..]
      ensures old(sleepers) != [] && old(sleepers)[0].id == head.id && sleepers == old(sleepers)[1..]
    {
      HeadOfBoth(delayed, overflow, tickCount, epoch);
      head := delayed[0];
      delayed, sleepers := delayed[1..], sleepers[1..];
    }

    /** One turn of the inner loop of prvCheckDelayedList: the head of the current list has timed
        out; its event item leaves whatever list it is on. */
    method WakeHead()
      requires Lists(-1) && ReadyOk(ready, top) && delayed != [] && sleepers != []
      requires delayed[0].id in priorityOf && priorityOf[delayed[0].id] < |ready|
      modifies this`delayed, this`sleepers, this`waiting, this`pending, this`ready, this`top, this`woken
      ensures Lists(-1) && ReadyOk(ready, top) && delayed == old(delayed)[1..]
      ensures View() == WakeFirst(old(View()))
    {
      var head := TakeHead();
      waiting, pending := waiting - {head.id}, Except(pending, head.id);
      woken := woken + [Wake(head.id, epoch + tickCount)];
      AddToReadyQueue(head.id);
    }

    /** The inner loop of prvCheckDelayedList. */
    method WakeExpired()
      requires Lists(-1) && ReadyOk(ready, top) && PlacesOk(View())
      modifies this`delayed, this`sleepers, this`waiting, this`pending, this`ready, this`top, this`woken
      ensures WellFormed() && PlacesOk(View()) && View() == WakeDue(old(View()))
    {
      while delayed != [] && delayed[0].value <= tickCount
        invariant Lists(-1) && ReadyOk(ready, top) && PlacesOk(View())
        invariant WakeDue(View()) == WakeDue(old(View()))
        decreases |delayed|
      {
        HeadOfBoth(delayed, overflow, tickCount, epoch);
        SleeperIsCreated(View());
        WakeFirstPlaces(View());
        WakeHead();
      }
      HeadOfBoth(delayed, overflow, tickCount, epoch);
      ListedFrom(delayed, -1, tickCount, CYCLE);
    }

    /** The tick count goes on by one, and at its wrap the delayed lists change places. */
    method CountTick()
      requires Lists(tickCount)
      modifies this`tickCount, this`delayed, this`overflow, this`epoch
      ensures Lists(-1) && tickCount == Wrapped(old(tickCount) + 1)
      ensures epoch + tickCount == old(epoch + tickCount) + 1
    {
      ListedBounds(delayed, tickCount, CYCLE);
      ListedWidens(delayed, tickCount, CYCLE, -1, CYCLE);
      ListedWidens(overflow, -1, tickCount, -1, tickCount + 1);
      tickCount := Wrapped(tickCount + 1);
      if tickCount == 0 {
        SwappedOutIsEmpty(delayed);
        delayed, overflow := overflow, delayed;
        epoch := epoch + CYCLE;
        assert [] + Shift(delayed, epoch) == Shift(delayed, epoch) + [];
      }
    }

    /** One turn of the outer loop of prvCheckDelayedList. */
    method PassTick()
      requires WellFormed() && PlacesOk(View())
      modifies this`tickCount, this`delayed, this`overflow, this`sleepers, this`waiting, this`pending, this`ready,
               this`top, this`epoch, this`woken
      ensures WellFormed() && PlacesOk(View()) && View() == OneTick(old(View()))
      ensures tickCount == Wrapped(old(tickCount) + 1)
    {
      LaterPlaces(View());
      CountTick();
      WakeExpired();
    }

    /** The outer loop of prvCheckDelayedList. */
    method PassTicks(n: nat)
      requires WellFormed() && PlacesOk(View()) && n < CYCLE
      modifies this`tickCount, this`delayed, this`overflow, this`sleepers, this`waiting, this`pending, this`ready,
               this`top, this`epoch, this`woken
      ensures WellFormed() && PlacesOk(View()) && View() == ManyTicks(old(View()), n)
      ensures tickCount == Wrapped(old(tickCount) + n)
    {
      var passedTicks := n;
      while passedTicks > 0
        invariant WellFormed() && PlacesOk(View()) && 0 <= passedTicks <= n
        invariant tickCount == Wrapped(old(tickCount) + (n - passedTicks))
        invariant View() == ManyTicks(old(View()), n - passedTicks)
        decreases passedTicks
      {
        PassTick();
        passedTicks := passedTicks - 1;
      }
    }

    /** prvCheckDelayedList: one turn for each tick that the kernel has counted since. */
    method CheckDelayedList(kernelTickCount: nat) returns (ghost passed: nat)
      requires WellFormed() && PlacesOk(View()) && lastTickCount == tickCount && kernelTickCount < CYCLE
      modifies this`tickCount, this`lastTickCount, this`delayed, this`overflow, this`sleepers, this`waiting,
               this`pending, this`ready, this`top, this`epoch, this`woken
      ensures WellFormed() && PlacesOk(View()) && lastTickCount == tickCount == kernelTickCount
      ensures passed < CYCLE && Wrapped(old(tickCount) + passed) == kernelTickCount
      ensures View() == ManyTicks(old(View()), passed)
    {
      var passedTicks := Wrapped(kernelTickCount + CYCLE - lastTickCount);
      passed := passedTicks;
      PassTicks(passedTicks);
      lastTickCount := tickCount;
    }

    /** xCoRoutineRemoveFromEventList, called by an interrupt: the co-routine, which waits on that
        event list, is only noted, and the interrupt told whether it may run next. */
    method RemoveFromEventList(id: nat) returns (mayRunNext: bool)
      requires Valid() && id in waiting
      modifies this`waiting, this`pending
      ensures Valid() && View() == Do(old(View()), CallEvent(id))
      ensures id in priorityOf
      ensures current in priorityOf ==> mayRunNext == (priorityOf[id] >= priorityOf[current])
    {
      assert PlaceOk(View(), id);
      CallKeepsOk(View(), CallEvent(id));
      waiting, pending := waiting - {id}, pending + [id];
      mayRunNext := current in priorityOf && priorityOf[id] >= priorityOf[current];
    }

    /** uxListRemove of an item from whichever delayed list it is on. */
    method RemoveFromDelayed(id: nat)
      requires Lists(tickCount)
      modifies this`delayed, this`overflow, this`sleepers
      ensures Lists(tickCount) && sleepers == Without(old(sleepers), id)
    {
      ListedWithout(delayed, id, tickCount, CYCLE);
      ListedWithout(overflow, id, -1, tickCount);
      RouseIsExact(delayed, overflow, epoch, id);
      delayed, overflow := Without(delayed, id), Without(overflow, id);
      sleepers := Without(sleepers, id);
    }

    /** One turn of prvCheckPendingReadyList: out of its delayed list and into its ready list. */
    method TakeFromDelayed()
      requires WellFormed() && pending != [] && pending[0] in priorityOf && priorityOf[pending[0]] < |ready|
      modifies this`pending, this`delayed, this`overflow, this`sleepers, this`ready, this`top
      ensures WellFormed() && pending == old(pending)[1..] && View() == TakeFirst(old(View()))
    {
      var id := pending[0];
      pending := pending[1..];
      RemoveFromDelayed(id);
      AddToReadyQueue(id);
    }

    /** prvCheckPendingReadyList. */
    method CheckPendingReadyList()
      requires WellFormed() && PlacesOk(View())
      modifies this`pending, this`delayed, this`overflow, this`sleepers, this`ready, this`top
      ensures WellFormed() && PlacesOk(View()) && View() == TakePending(old(View()))
    {
      while pending != []
        invariant WellFormed() && PlacesOk(View())
        invariant TakePending(View()) == TakePending(old(View()))
        decreases |pending|
      {
        PendingIsCreated(View());
        TakeFirstPlaces(View());
        TakeFromDelayed();
      }
    }

    /** The search of vCoRoutineSchedule for the highest priority with anything ready. */
    method LowerTop() returns (found: bool)
      requires ReadyOk(ready, top)
      modifies this`top
      ensures ReadyOk(ready, top)
      ensures Highest(ready, |ready| - 1) == if found then top else -1
      ensures found ==> |ready[top].ring| > 1
    {
      while |ready[top].ring| == 1
        invariant ReadyOk(ready, top)
        decreases top
      {
        if top == 0 {
          HighestFrom(ready, top, |ready| - 1);
          return false;
        }
        top := top - 1;
      }
      HighestFrom(ready, top, |ready| - 1);
      found := true;
    }

    /** The end of vCoRoutineSchedule, up to the call of the chosen co-routine: of the highest
        priority that has any ready, the next in turn. */
    method RunNext() returns (ran: Option<nat>)
      requires ReadyOk(ready, top)
      modifies this`top, this`ready, this`current
      ensures ReadyOk(ready, top) && View() == Choose(old(View()))
      ensures var h := Highest(old(ready), |ready| - 1);
        && |old(ready)| == |ready|
        && (ran.None? <==> h == -1)
        && (ran.Some? ==> top == h && |old(ready)[h].ring| > 1 && old(ready)[h].pos < |old(ready)[h].ring|)
        && (ran.Some? ==> ran.value == current == Coming(old(ready)[h])[0])
    {
      var found := LowerTop();
      ran := None;
      if found {
        UpcomingNext(ready[top].ring, ready[top].pos);
        ready := ready[top := Next(ready[top])];
        current := ready[top].ring[ready[top].pos];
        ran := Some(current);
      }
    }

    /** vCoRoutineSchedule. */
    method Schedule(kernelTickCount: nat) returns (ran: Option<nat>, ghost passed: nat)
      requires Valid() && lastTickCount == tickCount && kernelTickCount < CYCLE
      modifies this
      ensures Valid() && lastTickCount == tickCount == kernelTickCount
      ensures passed < CYCLE && Wrapped(old(tickCount) + passed) == kernelTickCount
      ensures View() == Scheduled(old(View()), passed)
      ensures ran.Some? ==> ran.value == current
    {
      ghost var before := View();
      passed := CatchUp(kernelTickCount);
      ran := RunHighest();
      ScheduledOk(before, passed);
    }

    method CatchUp(kernelTickCount: nat) returns (ghost passed: nat)
      requires Valid() && lastTickCount == tickCount && kernelTickCount < CYCLE
      modifies this`tickCount, this`lastTickCount, this`delayed, this`overflow, this`sleepers, this`waiting,
               this`pending, this`ready, this`top, this`epoch, this`woken
      ensures WellFormed() && lastTickCount == tickCount == kernelTickCount
      ensures passed < CYCLE && Wrapped(old(tickCount) + passed) == kernelTickCount
      ensures View() == ManyTicks(TakePending(old(View())), passed)
    {
      CheckPendingReadyList();
      passed := CheckDelayedList(kernelTickCount);
    }

    method RunHighest() returns (ran: Option<nat>)
      requires WellFormed()
      modifies this`top, this`ready, this`current
      ensures WellFormed() && View() == Choose(old(View()))
      ensures ran.Some? ==> ran.value == current
    {
      ran := RunNext();
    }

    /** xCoRoutineCreate: an unknown priority becomes the highest. */
    method Create(id: nat, priority: nat)
      requires Valid() && id !in priorityOf && id != MARKER
      modifies this`priorityOf, this`ready, this`top, this`current
      ensures Valid() && View() == Do(old(View()), CallCreate(id, priority))
    {
      CallKeepsOk(View(), CallCreate(id, priority));
      MakeReady(id, priority);
    }

    method MakeReady(id: nat, priority: nat)
      requires WellFormed()
      modifies this`priorityOf, this`ready, this`top, this`current
      ensures WellFormed() && View() == CreateNew(old(View()), id, priority)
    {
      Register(id, priority);
      AddToReadyQueue(id);
    }

    method Register(id: nat, priority: nat)
      requires ready != []
      modifies this`priorityOf, this`current
      ensures id in priorityOf && priorityOf[id] < |ready|
      ensures View() == old(View()).(
        priorityOf := old(priorityOf)[id := if priority < |ready| then priority else |ready| - 1],
        current := if old(current) == MARKER then id else old(current))
    {
      if current == MARKER {
        current := id;
      }
      priorityOf := priorityOf[id := if priority >= |ready| then |ready| - 1 else priority];
    }
  }

  // ----- runs of the scheduler -----

  /** One call, or one part of a scheduling call. */
  method Perform(s: Scheduler, c: Call)
    requires s.Valid() && CoRoutineRuns.Enabled(s.View(), c) && (c.CallDelay? ==> c.d < CYCLE)
    modifies s
    ensures s.Valid() && s.View() == Do(old(s.View()), c)
  {
    CallKeepsOk(s.View(), c);
    match c {
      case CallCreate(id, priority) => s.Create(id, priority);
      case CallDelay(d, onEventList) => s.AddToDelayedList(d, onEventList);
      case CallEvent(id) => var _ := s.RemoveFromEventList(id);
      case CallTake =>
        PendingIsCreated(s.View());
        s.TakeFromDelayed();
      case CallTick => s.PassTick();
      case CallChoose => var _ := s.RunHighest();
    }
  }

  /** The scheduler's runs, with interrupts between the parts of its scheduling calls, are those of
      CoRoutineRuns, and so all that is proved of them holds of the scheduler. */
  method PerformAll(s: Scheduler, calls: seq<Call>, ghost end: Sched)
    requires s.Valid() && forall c :: c in calls && c.CallDelay? ==> c.d < CYCLE
    requires CoRoutineRuns.IsRun(s.View(), calls, end)
    modifies s
    ensures s.Valid() && s.View() == end
  {
    var i := 0;
    assert calls[0..] == calls;
    while i < |calls|
      invariant i <= |calls| && s.Valid()
      invariant CoRoutineRuns.IsRun(s.View(), calls[i..], end)
    {
      assert calls[i..][0] == calls[i] && calls[i..][1..] == calls[i + 1..];
      Perform(s, calls[i]);
      i := i + 1;
    }
  }
}
