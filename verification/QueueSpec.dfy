/**
 A kernel queue seen from outside its storage: a bounded deque of items, the two
 lock counts, and the two event lists of tasks blocked on it.  Each function below
 is what one critical section of queue.c does to that view; module Queues proves
 that the byte ring does exactly this, and module QueueProtocol interleaves them.
 */
module QueueSpec {
  import opened Arithmetic
  import opened Types

  type Item = seq<byte>

  /** A lock count is an int8_t. */
  type LockCount = x: int | -128 <= x < 128 witness 0

  const UNLOCKED: LockCount := -1
  const LOCKED_UNMODIFIED: LockCount := 0

  datatype Position = Back | Front | Overwrite

  datatype QState = QState(
    items: seq<Item>,
    length: nat,
    rxLock: LockCount,
    txLock: LockCount,
    waitSend: seq<Task>,
    waitReceive: seq<Task>)
  {
    ghost predicate Valid() {
      1 <= length
    }

    /** The count is within the length. */
    ghost predicate Within() {
      |items| <= length
    }

    /** Free places in the queue. */
    function Spaces(): int {
      length - |items|
    }
  }

  /** The outcome of one critical section: the new queue, the tasks taken off an
      event list in the order they were taken, and the item handed out, if any. */
  datatype Outcome = Outcome(ok: bool, q: QState, woken: seq<Task>, item: Option<Item>)

  /** Adding one to an int8_t. */
  function Bump(n: LockCount): LockCount {
    if n == 127 then -128 else n + 1
  }

  /** How many wake-ups a lock count still owes. */
  function Owed(n: LockCount): nat {
    if n > 0 then n else 0
  }

  /** prvCopyDataToQueue: the item goes in at the back, at the front, or in place of the first
      one; an item of size zero is only counted, an overwriting one too. */
  function Placed(items: seq<Item>, x: Item, pos: Position): seq<Item> {
    match pos
    case Back => items + [x]
    case Front => [x] + items
    case Overwrite => [x] + (if items == [] || x == [] then items else items[1..])
  }

  predicate HasRoom(q: QState, pos: Position) {
    |q.items| < q.length || pos == Overwrite
  }

  function First(waiting: seq<Task>): seq<Task> {
    if waiting == [] then [] else [waiting[0]]
  }

  function Rest(waiting: seq<Task>): seq<Task> {
    if waiting == [] then [] else waiting[1..]
  }

  /** The body of xQueueGenericSend's critical section. */
  function Send(q: QState, x: Item, pos: Position): Outcome {
    if HasRoom(q, pos) then
      Outcome(true, q.(items := Placed(q.items, x, pos), waitReceive := Rest(q.waitReceive)), First(q.waitReceive),
        None)
    else
      Outcome(false, q, [], None)
  }

  /** xQueueGenericSendFromISR: a locked queue only counts the item. */
  function SendFromISR(q: QState, x: Item, pos: Position): Outcome {
    if !HasRoom(q, pos) || q.txLock == UNLOCKED then Send(q, x, pos)
    else Outcome(true, q.(items := Placed(q.items, x, pos), txLock := Bump(q.txLock)), [], None)
  }

  /** The body of xQueueReceive's critical section. */
  function Receive(q: QState): Outcome {
    if q.items == [] then Outcome(false, q, [], None)
    else Outcome(true, q.(items := q.items[1..], waitSend := Rest(q.waitSend)), First(q.waitSend), Some(q.items[0]))
  }

  /** xQueueReceiveFromISR: a locked queue only counts the removal. */
  function ReceiveFromISR(q: QState): Outcome {
    if q.items == [] || q.rxLock == UNLOCKED then Receive(q)
    else Outcome(true, q.(items := q.items[1..], rxLock := Bump(q.rxLock)), [], Some(q.items[0]))
  }

  /** The body of xQueuePeek's critical section: the item stays, and the next reader is woken. */
  function Peek(q: QState): Outcome {
    if q.items == [] then Outcome(false, q, [], None)
    else Outcome(true, q.(waitReceive := Rest(q.waitReceive)), First(q.waitReceive), Some(q.items[0]))
  }

  function Lock(q: QState): QState {
    q.(rxLock := if q.rxLock == UNLOCKED then LOCKED_UNMODIFIED else q.rxLock,
       txLock := if q.txLock == UNLOCKED then LOCKED_UNMODIFIED else q.txLock)
  }

  /** First critical section of prvUnlockQueue: as many readers as items were counted. */
  function UnlockTx(q: QState): Outcome {
    var n := Least(Owed(q.txLock), |q.waitReceive|);
    Outcome(true, q.(txLock := UNLOCKED, waitReceive := q.waitReceive[n..]), q.waitReceive[..n], None)
  }

  /** Second critical section of prvUnlockQueue: as many writers as removals were counted. */
  function UnlockRx(q: QState): Outcome {
    var n := Least(Owed(q.rxLock), |q.waitSend|);
    Outcome(true, q.(rxLock := UNLOCKED, waitSend := q.waitSend[n..]), q.waitSend[..n], None)
  }

  /** A send leaves the count within the length in all cases but one: an empty item that
      overwrites a full queue is counted on top, because only the branch for items that hold
      data takes the overwritten one off. */
  lemma CountStaysWithinExactly(q: QState, x: Item, pos: Position)
    requires q.Valid() && q.Within() && (pos == Overwrite ==> q.length == 1)
    ensures Send(q, x, pos).q.Within() <==> !(x == [] && pos == Overwrite && |q.items| == q.length)
    ensures SendFromISR(q, x, pos).q.Within() <==> !(x == [] && pos == Overwrite && |q.items| == q.length)
  {
    if HasRoom(q, pos) {
      assert |Placed(q.items, x, pos)|
          == |q.items| + (if pos == Overwrite && q.items != [] && x != [] then 0 else 1);
    }
  }

  /** The input: two overwrites of a one-place queue of empty items count two. */
  lemma EmptyOverwriteOverfills(q: QState)
    requires q.length == 1 && q.items == []
    ensures var twice := Send(Send(q, [], Overwrite).q, [], Overwrite);
      twice.ok && |twice.q.items| == 2 > twice.q.length
  {
    assert Placed([], [], Overwrite) == [[]];
  }
}
