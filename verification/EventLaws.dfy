/**
 What the calls on an event group answer and leave, said bit by bit: a wait for any of some bits is
 met by one of them, a wait for all by the last; nothing else is cleared than what was asked for.
 */
module EventLaws {
  import opened Types
  import opened EventGroups

  /** A wait for all of some bits, or for any of them, is met by a word. */
  ghost predicate MetBy(bits: Bits, wanted: Bits, all: bool) {
    if all then forall b :: b in wanted ==> b in bits else exists b :: b in wanted && b in bits
  }

  /** A list item that asks for those bits, to be cleared or not, all of them or any: positions 24
      and 26 of its value are the options. */
  ghost predicate AsksFor(w: Waiter, wanted: Bits, clear: bool, all: bool) {
    && (24 in w.value <==> clear) && (26 in w.value <==> all)
    && forall b :: b in wanted <==> b in w.value && b !in CONTROL
  }

  /** A word with some bits taken out of another, or left as it was. */
  ghost predicate LessIf(taken: bool, bits': Bits, bits: Bits, less: Bits) {
    forall b :: b in bits' <==> b in bits && !(taken && b in less)
  }

  lemma MeetsIsMetBy(bits: Bits, wanted: Bits, all: bool)
    ensures Meets(bits, wanted, all) <==> MetBy(bits, wanted, all)
  {
    assert forall b :: b in bits * wanted <==> b in bits && b in wanted;
    assert bits * wanted == wanted <==> wanted <= bits;
    assert bits * wanted != {} <==> exists b :: b in bits * wanted;
  }

  lemma PackAsksFor(task: Task, wanted: Bits, clear: bool, all: bool)
    requires wanted * CONTROL == {}
    ensures AsksFor(Waiter(task, Pack(wanted, clear, all)), wanted, clear, all)
  {
    assert forall b :: b in wanted ==> b !in wanted * CONTROL;
    var value := Pack(wanted, clear, all);
    assert 24 in CONTROL && 26 in CONTROL;
    assert 24 in value <==> clear;
    assert 26 in value <==> all;
  }

  lemma SatisfiedIsMetBy(w: Waiter, bits: Bits, wanted: Bits, clear: bool, all: bool)
    requires AsksFor(w, wanted, clear, all)
    ensures Satisfied(w, bits) <==> MetBy(bits, wanted, all)
    ensures Wanted(w.value) == wanted && (w.value * CLEAR_EVENTS_ON_EXIT != {} <==> clear)
  {
    assert Wanted(w.value) == wanted;
    assert 26 in w.value <==> 26 in w.value * WAIT_FOR_ALL;
    assert 24 in w.value <==> 24 in w.value * CLEAR_EVENTS_ON_EXIT;
    MeetsIsMetBy(bits, wanted, all);
  }

  // ----- what a call answers -----

  /** A wait returns at once if and only if its bits are there, or it may not block; with the word as
      it was before its own clearing, which takes exactly the wanted bits out, if asked.  Otherwise
      it joins the list behind the others, asking for what it was called with. */
  lemma WaitAnswersExactly(g: Group, task: Task, wanted: Bits, clear: bool, all: bool, willing: bool)
    requires wanted * CONTROL == {}
    ensures var (g', reply) := WaitBits(g, task, wanted, clear, all, willing); var met := MetBy(g.bits, wanted, all);
      && LessIf(met && clear, g'.bits, g.bits, wanted)
      && (if met || !willing then
            reply == Returned(g.bits) && g'.waiting == g.waiting
          else
            && reply == Blocks && |g'.waiting| == |g.waiting| + 1 && g.waiting <= g'.waiting
            && g'.waiting[|g.waiting|].task == task && AsksFor(g'.waiting[|g.waiting|], wanted, clear, all))
  {
    MeetsIsMetBy(g.bits, wanted, all);
    PackAsksFor(task, wanted, clear, all);
  }

  /** A rendezvous returns at once if and only if its own bits complete the set, with that word, and
      takes the set out of what setting its bits has left; or it may not block. */
  lemma SyncAnswersExactly(g: Group, task: Task, toSet: Bits, wanted: Bits, willing: bool)
    requires wanted * CONTROL == {}
    ensures var (g', reply) := Sync(g, task, toSet, wanted, willing); var after := SetBits(g, toSet);
      var met := forall b :: b in wanted ==> b in g.bits || b in toSet;
      && LessIf(met, g'.bits, after.bits, wanted)
      && (if met then
            && reply.Returned? && (forall b :: b in reply.value <==> b in g.bits || b in toSet)
            && g'.waiting == after.waiting
          else if !willing then
            reply == Returned(after.bits) && g'.waiting == after.waiting
          else
            && reply == Blocks && |g'.waiting| == |after.waiting| + 1 && after.waiting <= g'.waiting
            && g'.waiting[|after.waiting|].task == task && AsksFor(g'.waiting[|after.waiting|], wanted, true, true))
  {
    MeetsIsMetBy(g.bits + toSet, wanted, true);
    PackAsksFor(task, wanted, true, true);
  }

  /** After a time-out the word is returned as it is, and the wanted bits are taken out of it if they
      have come after all and that was asked for. */
  lemma TimedOutAnswersExactly(g: Group, wanted: Bits, clear: bool, all: bool)
    ensures var (g', reply) := AfterTimeOut(g, wanted, clear, all);
      && reply == Returned(g.bits) && g'.waiting == g.waiting
      && LessIf(MetBy(g.bits, wanted, all) && clear, g'.bits, g.bits, wanted)
  {
    MeetsIsMetBy(g.bits, wanted, all);
  }

  /** Clearing takes out its bits and no others, and wakes nobody; a time-out takes off its task. */
  lemma ClearsExactly(g: Group, toClear: Bits, task: Task)
    ensures LessIf(true, ClearBits(g, toClear).bits, g.bits, toClear) && ClearBits(g, toClear).waiting == g.waiting
    ensures TimeOut(g, task).bits == g.bits
    ensures forall w :: w in TimeOut(g, task).waiting <==> w in g.waiting && w.task != task
  {
    TimedOutIsGone(g.waiting, task);
  }

  // ----- what setting bits does to one waiter -----

  /** A waiter leaves the list if and only if its bits are there now: one that waits for any with the
      first that comes, one that waits for all with the last that was missing.  It is then given
      the whole word, before any clearing, marked at position 25. */
  lemma WaiterServedExactly(g: Group, toSet: Bits, w: Waiter, wanted: Bits, clear: bool, all: bool)
    requires w in g.waiting && AsksFor(w, wanted, clear, all)
    ensures w in SetBits(g, toSet).waiting
      <==> if all then exists b :: b in wanted && b !in g.bits && b !in toSet
           else forall b :: b in wanted ==> b !in g.bits && b !in toSet
    ensures w !in SetBits(g, toSet).waiting ==>
      exists r :: r in Released(g.waiting, g.bits + toSet) && r.task == w.task
        && forall b :: b in r.value <==> b in g.bits || b in toSet || b == 25
  {
    var bits := g.bits + toSet;
    SatisfiedIsMetBy(w, bits, wanted, clear, all);
    WakesExactly(g.waiting, bits);
    var r := Woken(w.task, bits + UNBLOCKED_DUE_TO_BIT_SET);
    assert forall b :: b in r.value <==> b in g.bits || b in toSet || b == 25;
    if Satisfied(w, bits) {
      assert r in Released(g.waiting, bits);
    }
  }

  /** A bit is set afterwards if and only if it was or is set and no waiter that leaves asked to have
      it cleared. */
  lemma BitSurvivesExactly(g: Group, toSet: Bits, b: nat)
    ensures b in SetBits(g, toSet).bits
      <==> (b in g.bits || b in toSet)
           && forall w :: w in g.waiting && 24 in w.value && b in w.value && b !in CONTROL ==>
                w in SetBits(g, toSet).waiting
  {
    var bits := g.bits + toSet;
    WakesExactly(g.waiting, bits);
    forall w: Waiter ensures 24 in w.value <==> w.value * CLEAR_EVENTS_ON_EXIT != {} {
      assert 24 in w.value <==> 24 in w.value * CLEAR_EVENTS_ON_EXIT;
    }
  }
}
