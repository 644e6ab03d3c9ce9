/**
 Which item comes out of a queue and when, and who is woken: laws of the critical sections that
 say so from outside.  A send to the front is next, a send to the back waits for those there are,
 over every interleaving of tasks and interrupts; a peek shows what the next receive takes.
 */
module QueueOrder {
  import opened Types
  import opened QueueSpec
  import opened QueueProtocol

  // ----- one call after another -----

  /** A send is refused exactly when the queue is full and it does not overwrite, a receive and a
      peek exactly when it is empty; what is refused changes nothing, and a peek no item. */
  lemma RefusedExactly(q: QState, x: Item, pos: Position)
    ensures Send(q, x, pos).ok <==> |q.items| < q.length || pos == Overwrite
    ensures SendFromISR(q, x, pos).ok <==> |q.items| < q.length || pos == Overwrite
    ensures Receive(q).ok <==> q.items != []
    ensures ReceiveFromISR(q).ok <==> q.items != []
    ensures Peek(q).ok <==> q.items != []
    ensures !Send(q, x, pos).ok ==> Send(q, x, pos) == SendFromISR(q, x, pos) == Outcome(false, q, [], None)
    ensures q.items == [] ==> Receive(q) == ReceiveFromISR(q) == Peek(q) == Outcome(false, q, [], None)
    ensures Peek(q).q.items == q.items
  {
  }

  /** The next receive, from a task or an interrupt, hands out an item and leaves these. */
  ghost predicate Next(q: QState, x: Item, rest: seq<Item>) {
    && Receive(q).item == Some(x) && Receive(q).q.items == rest
    && ReceiveFromISR(q).item == Some(x) && ReceiveFromISR(q).q.items == rest
  }

  /** An item sent to the front of a queue with room comes out next, and leaves it as it was. */
  lemma FrontComesOutNext(q: QState, x: Item)
    requires |q.items| < q.length
    ensures Next(Send(q, x, Front).q, x, q.items) && Next(SendFromISR(q, x, Front).q, x, q.items)
  {
    assert ([x] + q.items)[1..] == q.items;
  }

  /** An item sent to the back does not change what comes out next, unless there was nothing. */
  lemma BackComesOutLast(q: QState, x: Item)
    requires |q.items| < q.length
    ensures var one, two := Send(q, x, Back).q, SendFromISR(q, x, Back).q;
      if q.items == [] then Next(one, x, []) && Next(two, x, [])
      else Next(one, q.items[0], q.items[1..] + [x]) && Next(two, q.items[0], q.items[1..] + [x])
  {
    var items := q.items + [x];
    if q.items == [] {
      assert items == [x] && items[1..] == [];
    } else {
      assert items[1..] == q.items[1..] + [x];
    }
  }

  /** An item with data that overwrites a mailbox comes out next, and nothing else is held. */
  lemma OverwriteReplaces(q: QState, x: Item)
    requires q.length == 1 && |q.items| <= 1 && x != []
    ensures Next(Send(q, x, Overwrite).q, x, []) && Next(SendFromISR(q, x, Overwrite).q, x, [])
  {
    var items := Send(q, x, Overwrite).q.items;
    assert items == [x] && items[1..] == [];
  }

  /** A peek hands out what the next receive does, and that receive is as it was. */
  lemma PeekShowsTheNext(q: QState)
    ensures Peek(q).item == Receive(q).item
    ensures Peek(q).q.items == q.items && Receive(Peek(q).q).item == Receive(q).item
  {
  }

  /** Those woken are taken from the head of the event list: one at a time by a call, by an unlock
      as many as were counted, or all there are; and nobody else leaves it. */
  lemma WokenFromTheHead(q: QState, x: Item, pos: Position)
    ensures var o := Send(q, x, pos);
      && o.woken + o.q.waitReceive == q.waitReceive && o.q.waitSend == q.waitSend
      && |o.woken| == if o.ok && q.waitReceive != [] then 1 else 0
    ensures var o := SendFromISR(q, x, pos);
      && o.woken + o.q.waitReceive == q.waitReceive && o.q.waitSend == q.waitSend
      && |o.woken| == if o.ok && q.waitReceive != [] && q.txLock == UNLOCKED then 1 else 0
    ensures var o := Receive(q);
      && o.woken + o.q.waitSend == q.waitSend && o.q.waitReceive == q.waitReceive
      && |o.woken| == if o.ok && q.waitSend != [] then 1 else 0
    ensures var o := ReceiveFromISR(q);
      && o.woken + o.q.waitSend == q.waitSend && o.q.waitReceive == q.waitReceive
      && |o.woken| == if o.ok && q.waitSend != [] && q.rxLock == UNLOCKED then 1 else 0
    ensures var o := Peek(q);
      && o.woken + o.q.waitReceive == q.waitReceive && o.q.waitSend == q.waitSend
      && |o.woken| == if o.ok && q.waitReceive != [] then 1 else 0
  {
  }

  lemma UnlockWakesFromTheHead(q: QState)
    ensures var o := UnlockTx(q);
      && o.woken + o.q.waitReceive == q.waitReceive && o.q.waitSend == q.waitSend && o.q.items == q.items
      && |o.woken| <= Owed(q.txLock) && (o.q.waitReceive != [] ==> |o.woken| == Owed(q.txLock))
    ensures var o := UnlockRx(q);
      && o.woken + o.q.waitSend == q.waitSend && o.q.waitReceive == q.waitReceive && o.q.items == q.items
      && |o.woken| <= Owed(q.rxLock) && (o.q.waitSend != [] ==> |o.woken| == Owed(q.rxLock))
  {
  }

  /** Locking starts a count that is unlocked at none, and keeps one that is locked already. */
  lemma LockKeepsTheCounts(q: QState)
    ensures Lock(q).txLock == if q.txLock == -1 then 0 else q.txLock
    ensures Lock(q).rxLock == if q.rxLock == -1 then 0 else q.rxLock
    ensures Lock(q).(txLock := q.txLock, rxLock := q.rxLock) == q
  {
  }

  // ----- over every interleaving -----

  predicate PlainOp(op: Op) {
    op.Sending? ==> op.pos != Overwrite
  }

  /** The step starts no overwrite. */
  predicate Plain(step: Step) {
    match step
    case Call(_, op) => PlainOp(op)
    case IsrSend(_, pos) => pos != Overwrite
    case _ => true
  }

  ghost predicate AllPlain(s: Sys) {
    forall t: Task :: !At(s, t).Outside? ==> PlainOp(At(s, t).op)
  }

  /** The step tries to send to the front. */
  predicate ToFront(s: Sys, step: Step) {
    match step
    case Attempt(t, _) => At(s, t).Trying? && At(s, t).op.Sending? && At(s, t).op.pos == Front
    case IsrSend(_, pos) => pos == Front
    case _ => false
  }

  ghost predicate Takes(s: Sys, step: Step)
    requires Enabled(s, step)
  {
    |Apply(s, step).got| > |s.got|
  }

  ghost predicate Puts(s: Sys, step: Step)
    requires Enabled(s, step)
  {
    |Apply(s, step).sent| > |s.sent|
  }

  /** Still held, at a place, or received as the index-th of all. */
  datatype Fate = Held(place: nat) | Given(index: nat)

  /** The fate of the item at a place: each receive brings it one nearer or hands it out, each
      send to the front puts it off by one, and nothing else does either. */
  ghost function FateOf(s: Sys, steps: seq<Step>, s': Sys, place: nat): Fate
    requires IsRun(s, steps, s')
    decreases |steps|
  {
    if steps == [] then Held(place)
    else
      var next := Apply(s, steps[0]);
      if Takes(s, steps[0]) then
        if place == 0 then Given(|s.got|) else FateOf(next, steps[1..], s', place - 1)
      else
        FateOf(next, steps[1..], s', if Puts(s, steps[0]) && ToFront(s, steps[0]) then place + 1 else place)
  }

  lemma PlainStep(s: Sys, step: Step)
    requires AllPlain(s) && Enabled(s, step) && Plain(step)
    ensures AllPlain(Apply(s, step))
  {
    var s' := Apply(s, step);
    if SomeTaskStep(step) {
      assert forall u: Task :: u != step.t ==> At(s', u) == At(s, u);
    } else {
      assert forall u: Task :: At(s', u) == At(s, u);
    }
  }

  /** What a step does to the items, by what it records. */
  ghost predicate KeepsPlace(s: Sys, step: Step, s': Sys, place: nat)
    requires place < |s.q.items|
  {
    && s.got <= s'.got && s.sent <= s'.sent
    && (if |s'.got| > |s.got| then
          if place == 0 then s'.got == s.got + [s.q.items[0]]
          else place - 1 < |s'.q.items| && s'.q.items[place - 1] == s.q.items[place]
        else
          var at := if |s'.sent| > |s.sent| && ToFront(s, step) then place + 1 else place;
          at < |s'.q.items| && s'.q.items[at] == s.q.items[place])
  }

  lemma AttemptKeepsPlace(s: Sys, t: Task, willing: bool, place: nat)
    requires AllPlain(s) && Enabled(s, Attempt(t, willing)) && place < |s.q.items|
    ensures KeepsPlace(s, Attempt(t, willing), Apply(s, Attempt(t, willing)), place)
  {
    assert PlainOp(At(s, t).op);
  }

  lemma InterruptKeepsPlace(s: Sys, step: Step, place: nat)
    requires Enabled(s, step) && Plain(step) && (step.IsrSend? || step.IsrReceive?) && place < |s.q.items|
    ensures KeepsPlace(s, step, Apply(s, step), place)
  {
  }

  lemma StepKeepsPlace(s: Sys, step: Step, place: nat)
    requires AllPlain(s) && Enabled(s, step) && Plain(step) && place < |s.q.items|
    ensures KeepsPlace(s, step, Apply(s, step), place)
  {
    if step.Attempt? {
      AttemptKeepsPlace(s, step.t, step.willing, place);
    } else if step.IsrSend? || step.IsrReceive? {
      InterruptKeepsPlace(s, step, place);
    }
  }

  lemma GotGrows(s: Sys, step: Step)
    requires Enabled(s, step)
    ensures s.got <= Apply(s, step).got
  {
  }

  lemma {:induction false} RunGotGrows(s: Sys, steps: seq<Step>, s': Sys)
    requires IsRun(s, steps, s')
    ensures s.got <= s'.got
    decreases |steps|
  {
    if steps != [] {
      GotGrows(s, steps[0]);
      RunGotGrows(Apply(s, steps[0]), steps[1..], s');
    }
  }

  lemma {:induction false} ItemMeetsItsFate(s: Sys, steps: seq<Step>, s': Sys, place: nat)
    requires AllPlain(s) && IsRun(s, steps, s') && (forall i :: 0 <= i < |steps| ==> Plain(steps[i]))
    requires place < |s.q.items|
    ensures match FateOf(s, steps, s', place)
      case Held(at) => at < |s'.q.items| && s'.q.items[at] == s.q.items[place]
      case Given(i) => i < |s'.got| && s'.got[i] == s.q.items[place]
    decreases |steps|
  {
    if steps != [] {
      var step, next := steps[0], Apply(s, steps[0]);
      StepKeepsPlace(s, step, place);
      PlainStep(s, step);
      RunGotGrows(next, steps[1..], s');
      if Takes(s, step) {
        if place > 0 {
          ItemMeetsItsFate(next, steps[1..], s', place - 1);
        }
      } else {
        ItemMeetsItsFate(next, steps[1..], s', if Puts(s, step) && ToFront(s, step) then place + 1 else place);
      }
    }
  }

  /** Where a send puts its item: first if it is to the front, else behind all there are. */
  lemma SentItemPlace(s: Sys, step: Step)
    requires AllPlain(s) && Enabled(s, step) && Plain(step) && Puts(s, step)
    ensures var s' := Apply(s, step); var place := if ToFront(s, step) then 0 else |s.q.items|;
      place < |s'.q.items| && s'.sent == s.sent + [s'.q.items[place]]
  {
  }

  /** Each item comes out in its turn.  However tasks and interrupts interleave, in calls that do not
      overwrite: an item sent to the front is handed out by the next receive, and one sent to the
      back by the next after as many receives as there were items held; later sends to the front
      come before it, and no others. */
  lemma EachComesOutInTurn(s: Sys, step: Step, steps: seq<Step>, s': Sys)
    requires AllPlain(s) && Enabled(s, step) && Plain(step) && Puts(s, step)
    requires IsRun(Apply(s, step), steps, s') && (forall i :: 0 <= i < |steps| ==> Plain(steps[i]))
    ensures var sent := Apply(s, step).sent;
      && |sent| == |s.sent| + 1
      && match FateOf(Apply(s, step), steps, s', if ToFront(s, step) then 0 else |s.q.items|)
         case Held(at) => at < |s'.q.items| && s'.q.items[at] == sent[|s.sent|]
         case Given(i) => i < |s'.got| && s'.got[i] == sent[|s.sent|]
  {
    SentItemPlace(s, step);
    PlainStep(s, step);
    ItemMeetsItsFate(Apply(s, step), steps, s', if ToFront(s, step) then 0 else |s.q.items|);
  }

  /** With sends to the back, in every state a peek finds the first item sent and not yet received. */
  lemma PeekShowsTheOldest(s: Sys, steps: seq<Step>, s': Sys)
    requires InOrder(s) && IsRun(s, steps, s') && (forall i :: 0 <= i < |steps| ==> SendsToBack(steps[i]))
    ensures |s'.got| <= |s'.sent|
    ensures Peek(s'.q).item == if |s'.got| < |s'.sent| then Some(s'.sent[|s'.got|]) else None
  {
    QueueIsFifo(s, steps, s');
  }

  // ----- when a call gives up -----

  /** A task waits only on a queue found full, or empty, after it has locked it. */
  lemma WaitsOnlyIfItMust(s: Sys, t: Task)
    requires Enabled(s, Advance(t)) && At(s, t).Testing?
    ensures At(Apply(s, Advance(t)), t).Placing?
      <==> if At(s, t).op.Sending? then |s.q.items| == s.q.length else s.q.items == []
  {
  }

  /** A receive or a peek returns with nothing only from an empty queue, and a send without a block
      time fails only on a full one that it does not overwrite. */
  lemma NothingOnlyFromEmpty(s: Sys, step: Step)
    requires Enabled(s, step) && SomeTaskStep(step)
    requires !At(s, step.t).Outside? && At(Apply(s, step), step.t).Outside?
    ensures !At(s, step.t).op.Sending? && s.q.items != [] ==>
      step.Attempt? && Critical(s.q, At(s, step.t).op).item == Some(s.q.items[0])
    ensures At(s, step.t).op.Sending? && step.Attempt? && Apply(s, step).sent == s.sent ==>
      s.q.length <= |s.q.items| && At(s, step.t).op.pos != Overwrite
  {
  }
}
