/**
 The rendezvous of event_groups.c used as a barrier: n tasks, each with bits of its own,
 call xEventGroupSync on the union of all bits, over and over and without a time-out.
 */
module EventBarrier {
  import opened EventGroups

  /** Not in the call; blocked in it; taken off the list but not yet run again. */
  datatype Phase = Outside | Blocked | Ready

  /** The group and, for each task, where it is, how often it has entered and finished the
      rendezvous, and what its last call returned. */
  datatype Sys = Sys(g: Group, phase: seq<Phase>, entered: seq<nat>, finished: seq<nat>, got: seq<Bits>)

  datatype Step = Enter(i: nat) | Finish(i: nat)

  /** All the tasks' bits. */
  function All(own: seq<Bits>): Bits {
    if own == [] then {} else own[0] + All(own[1..])
  }

  /** The bits of the tasks that wait. */
  function Pending(own: seq<Bits>, phase: seq<Phase>): Bits
    requires |own| == |phase|
  {
    if own == [] then {}
    else (if phase[0].Blocked? then own[0] else {}) + Pending(own[1..], phase[1..])
  }

  /** Every task has a bit, none of them the kernel's, and no two tasks share one. */
  ghost predicate OwnBits(own: seq<Bits>) {
    && own != []
    && (forall i :: 0 <= i < |own| ==> own[i] != {} && own[i] * CONTROL == {})
    && (forall i, j :: 0 <= i < |own| && 0 <= j < |own| && i != j ==> own[i] * own[j] == {})
  }

  ghost predicate Sized(own: seq<Bits>, s: Sys) {
    |own| == |s.phase| == |s.entered| == |s.finished| == |s.got|
  }

  /** Tasks taken off the list will return the stored value, without the control bits. */
  function Wake(s: Sys, woken: seq<Woken>): Sys
    decreases |woken|
  {
    if woken == [] then s
    else
      var i := woken[0].task;
      var t := if i < |s.phase| && i < |s.got|
               then s.(phase := s.phase[i := Ready], got := s.got[i := woken[0].value - CONTROL]) else s;
      Wake(t, woken[1..])
  }

  ghost predicate Enabled(own: seq<Bits>, s: Sys, step: Step) {
    && step.i < |own| && Sized(own, s)
    && (if step.Enter? then s.phase[step.i].Outside? else s.phase[step.i].Ready?)
  }

  ghost function Apply(own: seq<Bits>, s: Sys, step: Step): Sys
    requires Enabled(own, s, step)
  {
    match step
    case Enter(i) =>
      var (g, reply) := Sync(s.g, i, own[i], All(own), true);
      var t := Wake(s.(g := g), Released(s.g.waiting, s.g.bits + own[i]));
      Arrive(t, i, reply)
    case Finish(i) => s.(phase := s.phase[i := Outside], finished := s.finished[i := s.finished[i] + 1])
  }

  function Arrive(t: Sys, i: nat, reply: Reply): Sys {
    if i < |t.phase| && i < |t.entered| && i < |t.finished| && i < |t.got| then
      var u := t.(entered := t.entered[i := t.entered[i] + 1]);
      match reply
      case Returned(v) => u.(finished := u.finished[i := u.finished[i] + 1], got := u.got[i := v])
      case Blocks => u.(phase := u.phase[i := Blocked])
    else t
  }

  // ----- the invariant -----

  function Value(own: seq<Bits>): Bits {
    Pack(All(own), true, true)
  }

  /** The list holds exactly the blocked tasks. */
  ghost predicate Listed(own: seq<Bits>, s: Sys) {
    && (forall w :: w in s.g.waiting ==> w.task < |s.phase| && s.phase[w.task].Blocked? && w.value == Value(own))
    && (forall i :: 0 <= i < |s.phase| && s.phase[i].Blocked? ==> Waiter(i, Value(own)) in s.g.waiting)
  }

  /** Where a task is, with all tasks in one round. */
  ghost predicate InRound(own: seq<Bits>, s: Sys, round: nat, i: nat)
    requires Sized(own, s) && i < |own|
  {
    match s.phase[i]
    case Outside => s.entered[i] == s.finished[i] == round
    case Blocked => s.entered[i] == round + 1 && s.finished[i] == round
    case Ready => s.entered[i] == round && s.finished[i] + 1 == round
  }

  /** Whoever has finished a round or is about to has been given all the bits. */
  ghost predicate GotAll(own: seq<Bits>, s: Sys, i: nat)
    requires Sized(own, s) && i < |own|
  {
    s.finished[i] > 0 || s.phase[i].Ready? ==> s.got[i] == All(own)
  }

  ghost predicate Inv(own: seq<Bits>, s: Sys, round: nat) {
    && OwnBits(own) && Sized(own, s)
    && s.g.bits == Pending(own, s.phase)
    && !(All(own) <= s.g.bits)
    && Listed(own, s)
    && (forall i :: 0 <= i < |own| ==> InRound(own, s, round, i) && GotAll(own, s, i))
  }

  ghost predicate Init(own: seq<Bits>, s: Sys) {
    && OwnBits(own) && Sized(own, s) && s.g == Group({}, [])
    && forall i :: 0 <= i < |own| ==> s.phase[i].Outside? && s.entered[i] == s.finished[i] == 0
  }

  // ----- facts about the bits -----

  ghost predicate Owns(own: seq<Bits>, i: int, b: nat) {
    0 <= i < |own| && b in own[i]
  }

  ghost predicate Waits(own: seq<Bits>, phase: seq<Phase>, i: int, b: nat) {
    0 <= i < |own| && i < |phase| && phase[i].Blocked? && b in own[i]
  }

  lemma {:induction false} AllExactly(own: seq<Bits>, b: nat)
    ensures b in All(own) <==> exists i :: Owns(own, i, b)
  {
    if own != [] {
      AllExactly(own[1..], b);
      if b in All(own) {
        if b in own[0] {
          assert Owns(own, 0, b);
        } else {
          var i :| Owns(own[1..], i, b);
          assert Owns(own, i + 1, b);
        }
      } else {
        forall i ensures !Owns(own, i, b) {
          assert !Owns(own[1..], i - 1, b);
        }
      }
    }
  }

  lemma {:induction false} PendingExactly(own: seq<Bits>, phase: seq<Phase>, b: nat)
    requires |own| == |phase|
    ensures b in Pending(own, phase) <==> exists i :: Waits(own, phase, i, b)
  {
    if own != [] {
      PendingExactly(own[1..], phase[1..], b);
      if b in Pending(own, phase) {
        if phase[0].Blocked? && b in own[0] {
          assert Waits(own, phase, 0, b);
        } else {
          var i :| Waits(own[1..], phase[1..], i, b);
          assert Waits(own, phase, i + 1, b);
        }
      } else {
        forall i ensures !Waits(own, phase, i, b) {
          assert !Waits(own[1..], phase[1..], i - 1, b);
        }
      }
    }
  }

  lemma Difference(a: Bits, b: Bits)
    requires forall i :: i in a ==> i !in b
    ensures a * b == {} && a - b == a
  {
  }

  lemma AllIsUserBits(own: seq<Bits>)
    requires OwnBits(own)
    ensures All(own) * CONTROL == {} && All(own) != {} && All(own) - CONTROL == All(own)
  {
    forall b | b in All(own) ensures b !in CONTROL {
      AllExactly(own, b);
      var i :| Owns(own, i, b);
      var common := own[i] * CONTROL;
      assert b in CONTROL ==> b in common;
    }
    var b :| b in own[0];
    assert b in All(own);
    Difference(All(own), CONTROL);
  }

  lemma {:induction false} PendingInAll(own: seq<Bits>, phase: seq<Phase>)
    requires |own| == |phase|
    ensures Pending(own, phase) <= All(own)
  {
    if own != [] {
      PendingInAll(own[1..], phase[1..]);
    }
  }

  lemma {:induction false} OwnInAll(own: seq<Bits>, i: nat)
    requires i < |own|
    ensures own[i] <= All(own)
  {
    if i > 0 {
      OwnInAll(own[1..], i - 1);
    }
  }

  /** One more blocked task. */
  lemma {:induction false} PendingAfterBlock(own: seq<Bits>, phase: seq<Phase>, i: nat)
    requires |own| == |phase| && i < |own| && !phase[i].Blocked?
    ensures Pending(own, phase[i := Blocked]) == Pending(own, phase) + own[i]
  {
    if i == 0 {
      assert phase[0 := Blocked][1..] == phase[1..];
    } else {
      assert phase[i := Blocked][1..] == phase[1..][i - 1 := Blocked];
      PendingAfterBlock(own[1..], phase[1..], i - 1);
    }
  }

  lemma {:induction false} PendingNone(own: seq<Bits>, phase: seq<Phase>)
    requires |own| == |phase| && forall i :: 0 <= i < |phase| ==> !phase[i].Blocked?
    ensures Pending(own, phase) == {}
  {
    if own != [] {
      PendingNone(own[1..], phase[1..]);
    }
  }

  lemma {:induction false} PendingEverybody(own: seq<Bits>, phase: seq<Phase>)
    requires |own| == |phase| && forall i :: 0 <= i < |phase| ==> phase[i].Blocked?
    ensures Pending(own, phase) == All(own)
  {
    if own != [] {
      PendingEverybody(own[1..], phase[1..]);
    }
  }

  /** Only whether a task is blocked matters. */
  lemma {:induction false} PendingSame(own: seq<Bits>, phase: seq<Phase>, i: nat, p: Phase)
    requires |own| == |phase| && i < |own| && !phase[i].Blocked? && !p.Blocked?
    ensures Pending(own, phase[i := p]) == Pending(own, phase)
  {
    if i == 0 {
      assert phase[0 := p][1..] == phase[1..];
    } else {
      assert phase[i := p][1..] == phase[1..][i - 1 := p];
      PendingSame(own[1..], phase[1..], i - 1, p);
    }
  }

  /** A bit belongs to one task. */
  lemma Apart(own: seq<Bits>, i: nat, j: nat, b: nat)
    requires OwnBits(own) && i < |own| && j < |own|
    ensures b in own[i] && b in own[j] ==> i == j
  {
    var common := own[i] * own[j];
    assert b in own[i] && b in own[j] ==> b in common;
  }

  /** The bits complete the set only when every other task is blocked. */
  lemma LastArrival(own: seq<Bits>, phase: seq<Phase>, i: nat, j: nat)
    requires OwnBits(own) && |own| == |phase|
    requires i < |own| && All(own) <= Pending(own, phase) + own[i]
    requires j < |own| && j != i
    ensures phase[j].Blocked?
  {
    var b :| b in own[j];
    OwnInAll(own, j);
    Apart(own, i, j, b);
    assert b in Pending(own, phase);
    PendingExactly(own, phase, b);
    var k :| Waits(own, phase, k, b);
    Apart(own, k, j, b);
  }

  // ----- what becomes of the waiters -----

  lemma SatisfiedBarrier(own: seq<Bits>, w: Waiter, bits: Bits)
    requires OwnBits(own) && w.value == Value(own)
    ensures Satisfied(w, bits) <==> All(own) <= bits
    ensures ClearedBy(w, bits) == if All(own) <= bits then All(own) else {}
  {
    AllIsUserBits(own);
    PackRoundTrip(All(own), true, true);
    assert bits * All(own) == All(own) <==> All(own) <= bits;
  }

  lemma {:induction false} NobodyWakes(own: seq<Bits>, ws: seq<Waiter>, bits: Bits)
    requires OwnBits(own) && !(All(own) <= bits)
    requires forall w :: w in ws ==> w.value == Value(own)
    ensures Released(ws, bits) == [] && Left(ws, bits) == ws && ClearMask(ws, bits) == {}
  {
    if ws != [] {
      SatisfiedBarrier(own, ws[0], bits);
      NobodyWakes(own, ws[1..], bits);
    }
  }

  lemma {:induction false} NobodyIsLeft(own: seq<Bits>, ws: seq<Waiter>, bits: Bits)
    requires OwnBits(own) && All(own) <= bits
    requires forall w :: w in ws ==> w.value == Value(own)
    ensures Left(ws, bits) == [] && ClearMask(ws, bits) <= All(own)
  {
    if ws != [] {
      SatisfiedBarrier(own, ws[0], bits);
      NobodyIsLeft(own, ws[1..], bits);
    }
  }

  /** Waking touches phases and returned values only ... */
  lemma {:induction false} WakeFrame(own: seq<Bits>, s: Sys, woken: seq<Woken>)
    requires Sized(own, s)
    ensures var t := Wake(s, woken);
      Sized(own, t) && t == s.(phase := t.phase, got := t.got)
    decreases |woken|
  {
    if woken != [] {
      var i := woken[0].task;
      if i < |own| {
        WakeFrame(own, s.(phase := s.phase[i := Ready], got := s.got[i := woken[0].value - CONTROL]), woken[1..]);
      } else {
        WakeFrame(own, s, woken[1..]);
      }
    }
  }

  /** ... and once all bits are there, those of exactly the waiters. */
  lemma {:induction false} EverybodyWakes(own: seq<Bits>, ws: seq<Waiter>, bits: Bits, s: Sys, j: nat)
    requires OwnBits(own) && All(own) <= bits && Sized(own, s) && j < |own|
    requires forall w :: w in ws ==> w.value == Value(own) && w.task < |own|
    ensures var t := Wake(s, Released(ws, bits));
      && Sized(own, t)
      && t.phase[j] == (if Waiter(j, Value(own)) in ws then Ready else s.phase[j])
      && t.got[j] == (if Waiter(j, Value(own)) in ws then bits - CONTROL else s.got[j])
    decreases |ws|
  {
    if ws != [] {
      SatisfiedBarrier(own, ws[0], bits);
      var i := ws[0].task;
      assert (bits + UNBLOCKED_DUE_TO_BIT_SET) - CONTROL == bits - CONTROL;
      EverybodyWakes(own, ws[1..], bits, s.(phase := s.phase[i := Ready], got := s.got[i := bits - CONTROL]), j);
      assert Released(ws, bits)[1..] == Released(ws[1..], bits);
      assert Waiter(j, Value(own)) in ws <==> j == i || Waiter(j, Value(own)) in ws[1..];
    }
  }

  // ----- every step keeps the invariant -----

  /** An arrival that does not complete the set only adds itself. */
  lemma BlockingArrival(own: seq<Bits>, s: Sys, i: nat)
    requires OwnBits(own) && Sized(own, s) && i < |own| && !(All(own) <= s.g.bits + own[i])
    requires Listed(own, s) && s.phase[i].Outside?
    ensures Enabled(own, s, Enter(i))
    ensures Apply(own, s, Enter(i)) == s.(
      g := Group(s.g.bits + own[i], s.g.waiting + [Waiter(i, Value(own))]),
      phase := s.phase[i := Blocked],
      entered := s.entered[i := s.entered[i] + 1])
  {
    var bits := s.g.bits + own[i];
    NobodyWakes(own, s.g.waiting, bits);
    assert bits * All(own) == All(own) ==> All(own) <= bits;
    assert bits - {} == bits;
  }

  lemma ArrivalBlocks(own: seq<Bits>, s: Sys, round: nat, i: nat)
    requires Inv(own, s, round) && Enabled(own, s, Enter(i)) && !(All(own) <= s.g.bits + own[i])
    ensures Inv(own, Apply(own, s, Enter(i)), round)
  {
    BlockingArrival(own, s, i);
    PendingAfterBlock(own, s.phase, i);
    var s' := Apply(own, s, Enter(i));
    forall j | 0 <= j < |own| ensures InRound(own, s', round, j) && GotAll(own, s', j) {
      assert InRound(own, s, round, j) && GotAll(own, s, j);
    }
  }

  lemma CompletingSync(own: seq<Bits>, g: Group, i: nat)
    requires OwnBits(own) && i < |own| && All(own) == g.bits + own[i]
    requires forall w :: w in g.waiting ==> w.value == Value(own)
    ensures Sync(g, i, own[i], All(own), true) == (Group({}, []), Returned(All(own)))
  {
    var bits := All(own);
    NobodyIsLeft(own, g.waiting, bits);
    assert bits * bits == bits;
    assert bits - ClearMask(g.waiting, bits) - bits == {};
  }

  lemma CompletingWake(own: seq<Bits>, s: Sys, t: Sys)
    requires OwnBits(own) && Sized(own, s) && Listed(own, s)
    requires t == Wake(s.(g := Group({}, [])), Released(s.g.waiting, All(own)))
    ensures Sized(own, t) && t == s.(g := Group({}, []), phase := t.phase, got := t.got)
    ensures forall j :: 0 <= j < |own| ==> t.phase[j] == if s.phase[j].Blocked? then Ready else s.phase[j]
    ensures forall j :: 0 <= j < |own| ==> t.got[j] == if s.phase[j].Blocked? then All(own) else s.got[j]
  {
    AllIsUserBits(own);
    WakeFrame(own, s.(g := Group({}, [])), Released(s.g.waiting, All(own)));
    forall j | 0 <= j < |own|
      ensures t.phase[j] == if s.phase[j].Blocked? then Ready else s.phase[j]
      ensures t.got[j] == if s.phase[j].Blocked? then All(own) else s.got[j]
    {
      EverybodyWakes(own, s.g.waiting, All(own), s.(g := Group({}, [])), j);
    }
  }

  lemma CompletingApply(own: seq<Bits>, s: Sys, i: nat, t: Sys)
    requires OwnBits(own) && Sized(own, s) && i < |own| && All(own) == s.g.bits + own[i]
    requires Listed(own, s) && s.phase[i].Outside?
    requires t == Wake(s.(g := Group({}, [])), Released(s.g.waiting, All(own))) && Sized(own, t)
    requires t.entered == s.entered && t.finished == s.finished
    ensures Enabled(own, s, Enter(i))
    ensures Apply(own, s, Enter(i)) == t.(
      entered := s.entered[i := s.entered[i] + 1],
      finished := s.finished[i := s.finished[i] + 1],
      got := t.got[i := All(own)])
  {
    CompletingSync(own, s.g, i);
  }

  /** An arrival that completes the set empties the group and wakes every waiter. */
  lemma CompletingArrival(own: seq<Bits>, s: Sys, i: nat)
    requires OwnBits(own) && Sized(own, s) && i < |own| && All(own) == s.g.bits + own[i]
    requires Listed(own, s) && s.phase[i].Outside?
    ensures Enabled(own, s, Enter(i))
    ensures var s' := Apply(own, s, Enter(i));
      && Sized(own, s') && s'.g == Group({}, [])
      && s'.entered == s.entered[i := s.entered[i] + 1] && s'.finished == s.finished[i := s.finished[i] + 1]
      && (forall j :: 0 <= j < |own| ==> s'.phase[j] == if s.phase[j].Blocked? then Ready else s.phase[j])
      && (forall j :: 0 <= j < |own| ==> s'.got[j] == if s.phase[j].Blocked? || j == i then All(own) else s.got[j])
  {
    var t := Wake(s.(g := Group({}, [])), Released(s.g.waiting, All(own)));
    CompletingWake(own, s, t);
    CompletingApply(own, s, i, t);
  }

  lemma ArrivalTrips(own: seq<Bits>, s: Sys, round: nat, i: nat)
    requires Inv(own, s, round) && Enabled(own, s, Enter(i)) && All(own) <= s.g.bits + own[i]
    ensures Inv(own, Apply(own, s, Enter(i)), round + 1)
  {
    PendingInAll(own, s.phase);
    OwnInAll(own, i);
    AllIsUserBits(own);
    assert s.g.bits + own[i] == All(own);
    CompletingArrival(own, s, i);
    var s' := Apply(own, s, Enter(i));
    forall j | 0 <= j < |own| ensures !s'.phase[j].Blocked? && InRound(own, s', round + 1, j) && GotAll(own, s', j) {
      assert InRound(own, s, round, j);
      if j != i {
        LastArrival(own, s.phase, i, j);
      }
    }
    PendingNone(own, s'.phase);
  }

  lemma FinishKeepsInv(own: seq<Bits>, s: Sys, round: nat, i: nat)
    requires Inv(own, s, round) && Enabled(own, s, Finish(i))
    ensures Inv(own, Apply(own, s, Finish(i)), round)
  {
    var s' := Apply(own, s, Finish(i));
    PendingSame(own, s.phase, i, Outside);
    assert InRound(own, s, round, i) && GotAll(own, s, i);
    forall j | 0 <= j < |own| ensures InRound(own, s', round, j) && GotAll(own, s', j) {
      assert InRound(own, s, round, j) && GotAll(own, s, j);
    }
  }

  lemma StepKeepsInv(own: seq<Bits>, s: Sys, round: nat, step: Step) returns (round': nat)
    requires Inv(own, s, round) && Enabled(own, s, step)
    ensures Inv(own, Apply(own, s, step), round')
  {
    match step
    case Finish(i) =>
      FinishKeepsInv(own, s, round, i);
      return round;
    case Enter(i) =>
      if All(own) <= s.g.bits + own[i] {
        ArrivalTrips(own, s, round, i);
        return round + 1;
      } else {
        ArrivalBlocks(own, s, round, i);
        return round;
      }
  }

  ghost predicate IsRun(own: seq<Bits>, s: Sys, steps: seq<Step>, s': Sys)
    decreases |steps|
  {
    if steps == [] then s == s'
    else Enabled(own, s, steps[0]) && IsRun(own, Apply(own, s, steps[0]), steps[1..], s')
  }

  lemma {:induction false} RunKeepsInv(own: seq<Bits>, s: Sys, round: nat, steps: seq<Step>, s': Sys)
      returns (round': nat)
    requires Inv(own, s, round) && IsRun(own, s, steps, s')
    ensures Inv(own, s', round')
    decreases |steps|
  {
    if steps == [] {
      return round;
    } else {
      var next := StepKeepsInv(own, s, round, steps[0]);
      round' := RunKeepsInv(own, Apply(own, s, steps[0]), next, steps[1..], s');
    }
  }

  lemma InitInv(own: seq<Bits>, s: Sys)
    requires Init(own, s)
    ensures Inv(own, s, 0)
  {
    PendingNone(own, s.phase);
    AllIsUserBits(own);
  }

  /** No task finishes round r before all have entered it, whatever the interleaving. */
  lemma NobodyPassesEarly(own: seq<Bits>, s: Sys, steps: seq<Step>, s': Sys, i: nat, j: nat, r: nat)
    requires Init(own, s) && IsRun(own, s, steps, s') && i < |own| && j < |own|
    ensures Sized(own, s') && (r <= s'.finished[i] ==> r <= s'.entered[j])
  {
    InitInv(own, s);
    var round := RunKeepsInv(own, s, 0, steps, s');
    assert InRound(own, s', round, i) && InRound(own, s', round, j);
  }

  /** Between calls the event bits are those of the tasks that wait, the waiting list is those
      tasks, at least one task is free to go on, and whoever has passed was given all the bits. */
  lemma BarrierAtRest(own: seq<Bits>, s: Sys, steps: seq<Step>, s': Sys)
    requires Init(own, s) && IsRun(own, s, steps, s')
    ensures Sized(own, s') && s'.g.bits == Pending(own, s'.phase) && Listed(own, s')
    ensures exists i :: 0 <= i < |own| && !s'.phase[i].Blocked?
    ensures forall i :: 0 <= i < |own| && s'.finished[i] > 0 ==> s'.got[i] == All(own)
  {
    InitInv(own, s);
    var round := RunKeepsInv(own, s, 0, steps, s');
    forall i | 0 <= i < |own| && s'.finished[i] > 0 ensures s'.got[i] == All(own) {
      assert GotAll(own, s', i);
    }
    if forall i :: 0 <= i < |own| ==> s'.phase[i].Blocked? {
      PendingEverybody(own, s'.phase);
    }
  }
}
