/**
 The event group of event_groups.c: a word of event bits and an unordered list of waiting
 tasks.  The list item of each waiter packs the bits it waits for with three control bits,
 as in the original.  A word is the set of the positions of its one bits, so that | is +,
 & is * and & ~ is -.
 */
module EventGroups {
  import opened Types

  type Bits = set<nat>

  const CLEAR_EVENTS_ON_EXIT: Bits := {24}
  const UNBLOCKED_DUE_TO_BIT_SET: Bits := {25}
  const WAIT_FOR_ALL: Bits := {26}
  const CONTROL: Bits := {24, 25, 26, 27, 28, 29, 30, 31}

  /** A task's list item and its xItemValue. */
  datatype Waiter = Waiter(task: Task, value: Bits)

  /** A task taken off the list, with the value stored in its item. */
  datatype Woken = Woken(task: Task, value: Bits)

  function Wanted(value: Bits): Bits {
    value - CONTROL
  }

  /** prvTestWaitCondition. */
  predicate Meets(bits: Bits, wanted: Bits, all: bool) {
    if all then bits * wanted == wanted else bits * wanted != {}
  }

  predicate Satisfied(w: Waiter, bits: Bits) {
    Meets(bits, Wanted(w.value), w.value * WAIT_FOR_ALL != {})
  }

  /** The item value stored for a wait. */
  function Pack(wanted: Bits, clear: bool, all: bool): Bits {
    wanted + (if clear then CLEAR_EVENTS_ON_EXIT else {}) + (if all then WAIT_FOR_ALL else {})
  }

  /** Unpacking gives back what was packed. */
  lemma PackRoundTrip(wanted: Bits, clear: bool, all: bool)
    requires wanted * CONTROL == {}
    ensures Wanted(Pack(wanted, clear, all)) == wanted
    ensures Pack(wanted, clear, all) * CLEAR_EVENTS_ON_EXIT != {} <==> clear
    ensures Pack(wanted, clear, all) * WAIT_FOR_ALL != {} <==> all
  {
  }

  // ----- what setting bits does to the list -----

  /** The tasks whose condition holds, in list order, each given the same value. */
  function Released(ws: seq<Waiter>, bits: Bits): seq<Woken> {
    if ws == [] then []
    else if Satisfied(ws[0], bits) then [Woken(ws[0].task, bits + UNBLOCKED_DUE_TO_BIT_SET)] + Released(ws[1..], bits)
    else Released(ws[1..], bits)
  }

  /** Those that stay. */
  function Left(ws: seq<Waiter>, bits: Bits): seq<Waiter> {
    if ws == [] then []
    else if Satisfied(ws[0], bits) then Left(ws[1..], bits)
    else [ws[0]] + Left(ws[1..], bits)
  }

  function ClearedBy(w: Waiter, bits: Bits): Bits {
    if Satisfied(w, bits) && w.value * CLEAR_EVENTS_ON_EXIT != {} then Wanted(w.value) else {}
  }

  /** The union of the bits that satisfied waiters want cleared. */
  function ClearMask(ws: seq<Waiter>, bits: Bits): Bits {
    if ws == [] then {} else ClearedBy(ws[0], bits) + ClearMask(ws[1..], bits)
  }

  datatype Group = Group(bits: Bits, waiting: seq<Waiter>)

  function SetBits(g: Group, toSet: Bits): Group {
    var bits := g.bits + toSet;
    Group(bits - ClearMask(g.waiting, bits), Left(g.waiting, bits))
  }

  function ClearBits(g: Group, toClear: Bits): Group {
    g.(bits := g.bits - toClear)
  }

  /** What a call returns at once, or that it blocks. */
  datatype Reply = Returned(value: Bits) | Blocks

  function WaitBits(g: Group, task: Task, wanted: Bits, clear: bool, all: bool, willing: bool): (Group, Reply) {
    if Meets(g.bits, wanted, all) then
      (if clear then ClearBits(g, wanted) else g, Returned(g.bits))
    else if !willing then (g, Returned(g.bits))
    else (g.(waiting := g.waiting + [Waiter(task, Pack(wanted, clear, all))]), Blocks)
  }

  /** The rendezvous: set one's own bits and wait for all of a set. */
  function Sync(g: Group, task: Task, toSet: Bits, wanted: Bits, willing: bool): (Group, Reply) {
    var after := SetBits(g, toSet);
    if (g.bits + toSet) * wanted == wanted then (ClearBits(after, wanted), Returned(g.bits + toSet))
    else if !willing then (after, Returned(after.bits))
    else (after.(waiting := after.waiting + [Waiter(task, Pack(wanted, true, true))]), Blocks)
  }

  function Without(ws: seq<Waiter>, task: Task): seq<Waiter> {
    if ws == [] then []
    else if ws[0].task == task then Without(ws[1..], task)
    else [ws[0]] + Without(ws[1..], task)
  }

  /** The kernel takes a timed-out task off the list ... */
  function TimeOut(g: Group, task: Task): Group {
    g.(waiting := Without(g.waiting, task))
  }

  lemma {:induction false} TimedOutIsGone(ws: seq<Waiter>, task: Task)
    ensures forall w :: w in Without(ws, task) <==> w in ws && w.task != task
  {
    if ws != [] {
      TimedOutIsGone(ws[1..], task);
      assert forall w :: w in ws <==> w == ws[0] || w in ws[1..];
    }
  }

  /** ... and when it runs, bits that have come in the meantime still count. */
  function AfterTimeOut(g: Group, wanted: Bits, clear: bool, all: bool): (Group, Reply) {
    (if Meets(g.bits, wanted, all) && clear then ClearBits(g, wanted) else g, Returned(g.bits))
  }

  /** Setting bits wakes exactly the waiters whose condition holds for the old and new bits
      together, gives each that one value, keeps exactly the others, and clears exactly what
      the woken ones asked to have cleared. */
  lemma {:induction false} WakesExactly(ws: seq<Waiter>, bits: Bits)
    ensures forall r :: r in Released(ws, bits) <==>
      exists w :: w in ws && Satisfied(w, bits) && r == Woken(w.task, bits + UNBLOCKED_DUE_TO_BIT_SET)
    ensures forall w :: w in Left(ws, bits) <==> w in ws && !Satisfied(w, bits)
    ensures forall b :: b in ClearMask(ws, bits) <==>
      exists w :: w in ws && Satisfied(w, bits) && w.value * CLEAR_EVENTS_ON_EXIT != {} && b in Wanted(w.value)
    ensures |Released(ws, bits)| + |Left(ws, bits)| == |ws|
  {
    if ws != [] {
      WakesExactly(ws[1..], bits);
      assert forall w :: w in ws <==> w == ws[0] || w in ws[1..];
    }
  }

  // ----- no satisfied waiter is ever left waiting -----

  /** No waiter's condition holds. */
  ghost predicate Quiet(ws: seq<Waiter>, bits: Bits) {
    ws == [] || (!Satisfied(ws[0], bits) && Quiet(ws[1..], bits))
  }

  /** Clearing bits satisfies nobody. */
  lemma MeetsMonotone(bits: Bits, cleared: Bits, wanted: Bits, all: bool)
    requires Meets(bits - cleared, wanted, all)
    ensures Meets(bits, wanted, all)
  {
  }

  lemma {:induction false} QuietAfterClear(ws: seq<Waiter>, bits: Bits, cleared: Bits)
    requires Quiet(ws, bits)
    ensures Quiet(ws, bits - cleared)
  {
    if ws != [] {
      if Satisfied(ws[0], bits - cleared) {
        MeetsMonotone(bits, cleared, Wanted(ws[0].value), ws[0].value * WAIT_FOR_ALL != {});
      }
      QuietAfterClear(ws[1..], bits, cleared);
    }
  }

  lemma {:induction false} LeftIsQuiet(ws: seq<Waiter>, bits: Bits)
    ensures Quiet(Left(ws, bits), bits)
  {
    if ws != [] {
      LeftIsQuiet(ws[1..], bits);
      assert !Satisfied(ws[0], bits) ==> Left(ws, bits)[1..] == Left(ws[1..], bits);
    }
  }

  lemma SetBitsQuiet(g: Group, toSet: Bits)
    ensures Quiet(SetBits(g, toSet).waiting, SetBits(g, toSet).bits)
  {
    var bits := g.bits + toSet;
    LeftIsQuiet(g.waiting, bits);
    QuietAfterClear(Left(g.waiting, bits), bits, ClearMask(g.waiting, bits));
  }

  lemma {:induction false} QuietAppend(ws: seq<Waiter>, w: Waiter, bits: Bits)
    requires Quiet(ws, bits) && !Satisfied(w, bits)
    ensures Quiet(ws + [w], bits)
  {
    if ws == [] {
      assert ws + [w] == [w] && [w][1..] == [];
    } else {
      QuietAppend(ws[1..], w, bits);
      assert (ws + [w])[1..] == ws[1..] + [w];
    }
  }

  lemma {:induction false} QuietWithout(ws: seq<Waiter>, task: Task, bits: Bits)
    requires Quiet(ws, bits)
    ensures Quiet(Without(ws, task), bits)
  {
    if ws != [] {
      QuietWithout(ws[1..], task, bits);
      assert ws[0].task != task ==> Without(ws, task)[1..] == Without(ws[1..], task);
    }
  }

  /** Any call on an event group, as one step: scheduling is suspended throughout it. */
  datatype Call =
    | Set(toSet: Bits)
    | Clear(toClear: Bits)
    | Wait(task: Task, wanted: Bits, clear: bool, all: bool, willing: bool)
    | Rendezvous(task: Task, toSet: Bits, wanted: Bits, willing: bool)
    | Expire(task: Task)
    | Resume(wanted: Bits, clear: bool, all: bool)

  /** The configASSERT conditions: control bits are the kernel's own. */
  predicate Allowed(c: Call) {
    match c
    case Set(toSet) => toSet * CONTROL == {}
    case Clear(toClear) => toClear * CONTROL == {}
    case Wait(_, wanted, _, _, _) => wanted * CONTROL == {} && wanted != {}
    case Rendezvous(_, toSet, wanted, _) => toSet * CONTROL == {} && wanted * CONTROL == {} && wanted != {}
    case _ => true
  }

  function Do(g: Group, c: Call): Group {
    match c
    case Set(toSet) => SetBits(g, toSet)
    case Clear(toClear) => ClearBits(g, toClear)
    case Wait(task, wanted, clear, all, willing) => WaitBits(g, task, wanted, clear, all, willing).0
    case Rendezvous(task, toSet, wanted, willing) => Sync(g, task, toSet, wanted, willing).0
    case Expire(task) => TimeOut(g, task)
    case Resume(wanted, clear, all) => AfterTimeOut(g, wanted, clear, all).0
  }

  lemma SyncQuiet(g: Group, task: Task, toSet: Bits, wanted: Bits, willing: bool)
    requires wanted * CONTROL == {}
    ensures var r := Sync(g, task, toSet, wanted, willing).0; Quiet(r.waiting, r.bits)
  {
    var after, w := SetBits(g, toSet), Waiter(task, Pack(wanted, true, true));
    SetBitsQuiet(g, toSet);
    PackRoundTrip(wanted, true, true);
    if (g.bits + toSet) * wanted == wanted {
      QuietAfterClear(after.waiting, after.bits, wanted);
    } else if willing {
      if Satisfied(w, after.bits) {
        MeetsMonotone(g.bits + toSet, ClearMask(g.waiting, g.bits + toSet), wanted, true);
      }
      QuietAppend(after.waiting, w, after.bits);
    }
  }

  lemma DoKeepsQuiet(g: Group, c: Call)
    requires Allowed(c) && Quiet(g.waiting, g.bits) && g.bits * CONTROL == {}
    ensures Quiet(Do(g, c).waiting, Do(g, c).bits) && Do(g, c).bits * CONTROL == {}
  {
    match c
    case Set(toSet) => SetBitsQuiet(g, toSet);
    case Clear(toClear) => QuietAfterClear(g.waiting, g.bits, toClear);
    case Wait(task, wanted, clear, all, willing) =>
      PackRoundTrip(wanted, clear, all);
      if Meets(g.bits, wanted, all) {
        QuietAfterClear(g.waiting, g.bits, wanted);
      } else {
        QuietAppend(g.waiting, Waiter(task, Pack(wanted, clear, all)), g.bits);
      }
    case Rendezvous(task, toSet, wanted, willing) => SyncQuiet(g, task, toSet, wanted, willing);
    case Expire(task) => QuietWithout(g.waiting, task, g.bits);
    case Resume(wanted, clear, all) => QuietAfterClear(g.waiting, g.bits, wanted);
  }

  function Run(g: Group, calls: seq<Call>): Group
    decreases |calls|
  {
    if calls == [] then g else Run(Do(g, calls[0]), calls[1..])
  }

  /** In every state between calls, nobody waits whose condition holds, and the control bits of
      the event word stay clear. */
  lemma {:induction false} NobodyWaitsInVain(g: Group, calls: seq<Call>)
    requires Quiet(g.waiting, g.bits) && g.bits * CONTROL == {} && forall i :: 0 <= i < |calls| ==> Allowed(calls[i])
    ensures Quiet(Run(g, calls).waiting, Run(g, calls).bits) && Run(g, calls).bits * CONTROL == {}
    decreases |calls|
  {
    if calls != [] {
      DoKeepsQuiet(g, calls[0]);
      NobodyWaitsInVain(Do(g, calls[0]), calls[1..]);
    }
  }

  // ----- the order of the waiters does not matter -----

  /** What becomes of a list is what becomes of its parts. */
  lemma {:induction false} ReleasedParts(ws: seq<Waiter>, vs: seq<Waiter>, bits: Bits)
    ensures Released(ws + vs, bits) == Released(ws, bits) + Released(vs, bits)
  {
    if ws == [] {
      assert ws + vs == vs;
    } else {
      var all := ws + vs;
      assert all[0] == ws[0] && all[1..] == ws[1..] + vs;
      ReleasedParts(ws[1..], vs, bits);
      if Satisfied(ws[0], bits) {
        Regroup([Woken(ws[0].task, bits + UNBLOCKED_DUE_TO_BIT_SET)], Released(ws[1..], bits), Released(vs, bits));
      }
    }
  }

  lemma {:induction false} LeftParts(ws: seq<Waiter>, vs: seq<Waiter>, bits: Bits)
    ensures Left(ws + vs, bits) == Left(ws, bits) + Left(vs, bits)
  {
    if ws == [] {
      assert ws + vs == vs;
    } else {
      var all := ws + vs;
      assert all[0] == ws[0] && all[1..] == ws[1..] + vs;
      LeftParts(ws[1..], vs, bits);
      Regroup([ws[0]], Left(ws[1..], bits), Left(vs, bits));
    }
  }

  lemma {:induction false} ClearMaskParts(ws: seq<Waiter>, vs: seq<Waiter>, bits: Bits)
    ensures ClearMask(ws + vs, bits) == ClearMask(ws, bits) + ClearMask(vs, bits)
  {
    if ws == [] {
      assert ws + vs == vs;
    } else {
      ClearMaskParts(ws[1..], vs, bits);
      assert (ws + vs)[1..] == ws[1..] + vs;
    }
  }

  /** A waiter can be moved to the front. */
  lemma ReleasedToFront(before: seq<Waiter>, w: Waiter, behind: seq<Waiter>, bits: Bits)
    ensures multiset(Released(before + [w] + behind, bits)) == multiset(Released([w] + (before + behind), bits))
  {
    ReleasedParts(before + [w], behind, bits);
    ReleasedParts(before, [w], bits);
    ReleasedParts([w], before + behind, bits);
    ReleasedParts(before, behind, bits);
    Rotated(Released(before, bits), Released([w], bits), Released(behind, bits));
  }

  lemma LeftToFront(before: seq<Waiter>, w: Waiter, behind: seq<Waiter>, bits: Bits)
    ensures multiset(Left(before + [w] + behind, bits)) == multiset(Left([w] + (before + behind), bits))
  {
    LeftParts(before + [w], behind, bits);
    LeftParts(before, [w], bits);
    LeftParts([w], before + behind, bits);
    LeftParts(before, behind, bits);
    Rotated(Left(before, bits), Left([w], bits), Left(behind, bits));
  }

  lemma ClearMaskToFront(before: seq<Waiter>, w: Waiter, behind: seq<Waiter>, bits: Bits)
    ensures ClearMask(before + [w] + behind, bits) == ClearMask([w] + (before + behind), bits)
  {
    ClearMaskParts(before + [w], behind, bits);
    ClearMaskParts(before, [w], bits);
    ClearMaskParts([w], before + behind, bits);
    ClearMaskParts(before, behind, bits);
  }

  lemma Rotated<T>(a: seq<T>, b: seq<T>, c: seq<T>)
    ensures multiset(a + b + c) == multiset(b + (a + c))
  {
    assert multiset(a + b + c) == multiset(a + b) + multiset(c) == multiset(a) + multiset(b) + multiset(c);
    assert multiset(b + (a + c)) == multiset(b) + multiset(a + c) == multiset(b) + (multiset(a) + multiset(c));
  }

  lemma Cancel<T>(w: T, a: seq<T>, b: seq<T>)
    requires multiset([w] + a) == multiset([w] + b)
    ensures multiset(a) == multiset(b)
  {
    assert multiset(a) == multiset([w] + a) - multiset{w};
    assert multiset(b) == multiset([w] + b) - multiset{w};
  }

  /** Setting bits wakes the same tasks with the same value, keeps the same ones and clears the
      same bits in whatever order the waiters stand. */
  lemma {:induction false} OrderOfWaitersIsIrrelevant(ws: seq<Waiter>, vs: seq<Waiter>, bits: Bits)
    requires multiset(ws) == multiset(vs)
    ensures ClearMask(ws, bits) == ClearMask(vs, bits)
    ensures multiset(Released(ws, bits)) == multiset(Released(vs, bits))
    ensures multiset(Left(ws, bits)) == multiset(Left(vs, bits))
    decreases |ws|
  {
    if ws == [] {
      assert |vs| == |multiset(vs)| == 0;
    } else {
      var before, behind := Locate(ws, vs);
      OrderOfWaitersIsIrrelevant(ws[1..], before + behind, bits);
      ClearMaskToFront(before, ws[0], behind, bits);
      ReleasedToFront(before, ws[0], behind, bits);
      LeftToFront(before, ws[0], behind, bits);
      HeadAndRest(ws[0], ws[1..], before + behind, bits);
      assert ws == [ws[0]] + ws[1..];
    }
  }

  /** Where the head of one list stands in a permutation of it. */
  lemma Locate(ws: seq<Waiter>, vs: seq<Waiter>) returns (before: seq<Waiter>, behind: seq<Waiter>)
    requires ws != [] && multiset(ws) == multiset(vs)
    ensures vs == before + [ws[0]] + behind && multiset(ws[1..]) == multiset(before + behind)
  {
    assert ws[0] in multiset(vs);
    var i :| 0 <= i < |vs| && vs[i] == ws[0];
    before, behind := vs[..i], vs[i + 1..];
    assert vs == before + [ws[0]] + behind && ws == [ws[0]] + ws[1..];
    Rotated(before, [ws[0]], behind);
    Cancel(ws[0], ws[1..], before + behind);
  }

  lemma HeadAndRest(w: Waiter, ws: seq<Waiter>, vs: seq<Waiter>, bits: Bits)
    requires ClearMask(ws, bits) == ClearMask(vs, bits)
    requires multiset(Released(ws, bits)) == multiset(Released(vs, bits))
    requires multiset(Left(ws, bits)) == multiset(Left(vs, bits))
    ensures ClearMask([w] + ws, bits) == ClearMask([w] + vs, bits)
    ensures multiset(Released([w] + ws, bits)) == multiset(Released([w] + vs, bits))
    ensures multiset(Left([w] + ws, bits)) == multiset(Left([w] + vs, bits))
  {
    assert ([w] + ws)[1..] == ws && ([w] + vs)[1..] == vs;
  }

  /** Taking one element out of the middle of a list. */
  lemma Splice(kept: seq<Waiter>, rest: seq<Waiter>)
    requires rest != []
    ensures (kept + rest)[|kept|] == rest[0]
    ensures (kept + rest)[..|kept|] + (kept + rest)[|kept| + 1..] == kept + rest[1..]
    ensures kept + rest == kept + [rest[0]] + rest[1..]
  {
  }

  /** What one more waiter adds. */
  lemma OneMore(ws: seq<Waiter>, n: nat, bits: Bits)
    requires n < |ws|
    ensures Left(ws[..n + 1], bits) == Left(ws[..n], bits) + (if Satisfied(ws[n], bits) then [] else [ws[n]])
    ensures Released(ws[..n + 1], bits) == Released(ws[..n], bits)
         + (if Satisfied(ws[n], bits) then [Woken(ws[n].task, bits + UNBLOCKED_DUE_TO_BIT_SET)] else [])
    ensures ClearMask(ws[..n + 1], bits) == ClearMask(ws[..n], bits) + ClearedBy(ws[n], bits)
  {
    assert ws[..n + 1] == ws[..n] + [ws[n]];
    assert [ws[n]][1..] == [];
    LeftParts(ws[..n], [ws[n]], bits);
    ReleasedParts(ws[..n], [ws[n]], bits);
    ClearMaskParts(ws[..n], [ws[n]], bits);
  }

  /** The walk over the list after its first waiters have been examined. */
  ghost predicate Walked(all: seq<Waiter>, seen: nat, bits: Bits, list: seq<Waiter>, i: nat, woken: seq<Woken>,
      clearing: Bits)
    requires seen <= |all|
  {
    && i == |Left(all[..seen], bits)|
    && list == Left(all[..seen], bits) + all[seen..]
    && woken == Released(all[..seen], bits)
    && clearing == ClearMask(all[..seen], bits)
  }

  lemma WalkOn(all: seq<Waiter>, seen: nat, bits: Bits, list: seq<Waiter>, i: nat, woken: seq<Woken>, clearing: Bits)
    requires seen <= |all| && Walked(all, seen, bits, list, i, woken, clearing) && i < |list|
    ensures seen < |all| && list[i] == all[seen]
    ensures Satisfied(list[i], bits) ==>
      Walked(all, seen + 1, bits, list[..i] + list[i + 1..], i,
             woken + [Woken(list[i].task, bits + UNBLOCKED_DUE_TO_BIT_SET)], clearing + ClearedBy(list[i], bits))
    ensures !Satisfied(list[i], bits) ==> Walked(all, seen + 1, bits, list, i + 1, woken, clearing)
  {
    OneMore(all, seen, bits);
    Splice(Left(all[..seen], bits), all[seen..]);
  }

  // ----- the object -----

  class EventGroup {
    var eventBits: Bits
    var waiting: seq<Waiter>

    ghost function View(): Group
      reads this
    {
      Group(eventBits, waiting)
    }

    constructor ()
      ensures View() == Group({}, [])
    {
      eventBits, waiting := {}, [];
    }

    /** One turn's tests: is the condition of a waiter met, and what does it want cleared? */
    static method Examine(w: Waiter, current: Bits) returns (matchFound: bool, clearing: Bits)
      ensures matchFound == Satisfied(w, current) && clearing == ClearedBy(w, current)
    {
      var bitsWaitedFor, controlBits := w.value - CONTROL, w.value * CONTROL;
      ControlBits(w, current);
      matchFound, clearing := false, {};
      if controlBits * WAIT_FOR_ALL == {} {
        if bitsWaitedFor * current != {} {
          matchFound := true;
        }
      } else if bitsWaitedFor * current == bitsWaitedFor {
        matchFound := true;
      }
      if matchFound {
        if controlBits * CLEAR_EVENTS_ON_EXIT != {} {
          clearing := bitsWaitedFor;
        }
      }
    }

    /** xEventGroupSetBits: walk the list once, taking out each task whose condition holds. */
    method SetBitsAndWake(toSet: Bits) returns (result: Bits, woken: seq<Woken>)
      requires toSet * CONTROL == {}
      modifies this
      ensures View() == SetBits(old(View()), toSet) && result == eventBits
      ensures woken == Released(old(waiting), old(eventBits) + toSet)
    {
      var i: nat, bitsToClear: Bits := 0, {};
      woken := [];
      eventBits := eventBits + toSet;
      ghost var all, seen: nat, bits := waiting, 0, eventBits;
      while i < |waiting|
        invariant eventBits == bits && seen <= |all|
        invariant Walked(all, seen, bits, waiting, i, woken, bitsToClear)
        decreases |all| - seen
      {
        WalkOn(all, seen, bits, waiting, i, woken, bitsToClear);
        var matchFound, clearing := Examine(waiting[i], eventBits);
        if matchFound {
          bitsToClear := bitsToClear + clearing;
          woken := woken + [Woken(waiting[i].task, eventBits + UNBLOCKED_DUE_TO_BIT_SET)];
          waiting := waiting[..i] + waiting[i + 1..];
        } else {
          i := i + 1;
        }
        seen := seen + 1;
      }
      assert all[..seen] == all;
      eventBits := eventBits - bitsToClear;
      result := eventBits;
    }

    /** xEventGroupClearBits. */
    method ClearEventBits(toClear: Bits) returns (result: Bits)
      requires toClear * CONTROL == {}
      modifies this`eventBits
      ensures View() == ClearBits(old(View()), toClear) && result == old(eventBits)
    {
      result := eventBits;
      eventBits := eventBits - toClear;
    }

    /** xEventGroupWaitBits, up to where the task returns or blocks. */
    method WaitForBits(task: Task, wanted: Bits, clear: bool, all: bool, ticksToWait: nat) returns (reply: Reply)
      requires wanted * CONTROL == {} && wanted != {}
      modifies this
      ensures (View(), reply) == WaitBits(old(View()), task, wanted, clear, all, ticksToWait != 0)
    {
      var current := eventBits;
      if Meets(current, wanted, all) {
        reply := Returned(current);
        if clear {
          eventBits := eventBits - wanted;
        }
      } else if ticksToWait == 0 {
        reply := Returned(current);
      } else {
        var controlBits: Bits := {};
        if clear {
          controlBits := controlBits + CLEAR_EVENTS_ON_EXIT;
        }
        if all {
          controlBits := controlBits + WAIT_FOR_ALL;
        }
        assert wanted + controlBits == Pack(wanted, clear, all);
        waiting := waiting + [Waiter(task, wanted + controlBits)];
        reply := Blocks;
      }
    }

    /** xEventGroupSync, up to where the task returns or blocks. */
    method Rendezvous(task: Task, toSet: Bits, wanted: Bits, ticksToWait: nat) returns (reply: Reply, woken: seq<Woken>)
      requires toSet * CONTROL == {} && wanted * CONTROL == {} && wanted != {}
      modifies this
      ensures (View(), reply) == Sync(old(View()), task, toSet, wanted, ticksToWait != 0)
      ensures woken == Released(old(waiting), old(eventBits) + toSet)
    {
      var original := eventBits;
      var _, released := SetBitsAndWake(toSet);
      woken := released;
      if (original + toSet) * wanted == wanted {
        reply := Returned(original + toSet);
        eventBits := eventBits - wanted;
      } else if ticksToWait != 0 {
        waiting := waiting + [Waiter(task, wanted + CLEAR_EVENTS_ON_EXIT + WAIT_FOR_ALL)];
        reply := Blocks;
      } else {
        reply := Returned(eventBits);
      }
    }

    /** The critical section that a waiter or a rendezvous runs after a time-out. */
    method ResumeAfterTimeOut(wanted: Bits, clear: bool, all: bool) returns (reply: Reply)
      modifies this`eventBits
      ensures (View(), reply) == AfterTimeOut(old(View()), wanted, clear, all)
    {
      reply := Returned(eventBits);
      if Meets(eventBits, wanted, all) {
        if clear {
          eventBits := eventBits - wanted;
        }
      }
    }
  }

  /** Splitting the item value into wanted and control bits loses nothing the tests look at. */
  lemma ControlBits(w: Waiter, bits: Bits)
    ensures w.value * CONTROL * WAIT_FOR_ALL == w.value * WAIT_FOR_ALL
    ensures w.value * CONTROL * CLEAR_EVENTS_ON_EXIT == w.value * CLEAR_EVENTS_ON_EXIT
    ensures Wanted(w.value) * bits == bits * Wanted(w.value)
  {
  }
}
