/**
 The queue object of queue.c: a byte array used as a ring of fixed-size items, with
 byte offsets where the original has pointers into the storage area (an offset is
 relative to pcHead).  Every method is one critical section, proved to do to the
 deque view exactly what QueueSpec says.
 */
module Queues {
  import opened Types
  import opened QueueSpec
  import opened Arithmetic

  // ----- the storage area as a sequence of slots -----

  /** Byte offset of slot k, by repeated addition as the code steps its pointers. */
  function Offset(k: nat, size: nat): nat {
    if k == 0 then 0 else Offset(k - 1, size) + size
  }

  lemma {:induction false} OffsetIsProduct(k: nat, size: nat)
    ensures Offset(k, size) == k * size
  {
    if k > 0 {
      OffsetIsProduct(k - 1, size);
    }
  }

  lemma {:induction false} OffsetOrder(j: nat, k: nat, size: nat)
    requires j < k
    ensures Offset(j, size) + size <= Offset(k, size)
  {
    if j < k - 1 {
      OffsetOrder(j, k - 1, size);
    }
  }

  function Slot(bytes: seq<byte>, size: nat, length: nat, k: nat): (item: Item)
    requires |bytes| == Offset(length, size) && k < length
    ensures |item| == size
  {
    OffsetOrder(k, length, size);
    bytes[Offset(k, size)..Offset(k, size) + size]
  }

  ghost function Slots(bytes: seq<byte>, size: nat, length: nat): (s: seq<Item>)
    requires |bytes| == Offset(length, size)
    ensures |s| == length
  {
    seq(length, k requires 0 <= k < length => Slot(bytes, size, length, k))
  }

  /** Overwriting the bytes of slot k changes that slot and no other. */
  lemma SlotsAfterCopy(before: seq<byte>, after: seq<byte>, size: nat, length: nat, k: nat, x: Item)
    requires |before| == |after| == Offset(length, size) && k < length && |x| == size
    requires Offset(k, size) + size <= |after|
    requires forall b :: 0 <= b < |after| ==>
      after[b] == if Offset(k, size) <= b < Offset(k, size) + size then x[b - Offset(k, size)] else before[b]
    ensures Slots(after, size, length) == Slots(before, size, length)[k := x]
  {
    forall j | 0 <= j < length
      ensures Slot(after, size, length, j) == Slots(before, size, length)[k := x][j]
    {
      OffsetOrder(j, length, size);
      if j < k {
        OffsetOrder(j, k, size);
      } else if k < j {
        OffsetOrder(k, j, size);
      }
    }
  }

  // ----- the slots as a ring -----

  /** The slot of the i-th waiting item: reading starts one past the read slot. */
  function RingIndex(read: nat, i: nat, length: nat): (k: nat)
    requires read < length && i <= length
    ensures k < length
  {
    if read + 1 + i < length then read + 1 + i
    else if read + 1 + i - length < length then read + 1 + i - length
    else 0
  }

  lemma RingIndexIsModular(read: nat, i: nat, length: nat)
    requires read < length && i <= length
    ensures RingIndex(read, i, length) == (read + 1 + i) % length
  {
    var k := read + 1 + i;
    if k < length {
      ModUnique(k, length, 0, k);
    } else if k < 2 * length {
      ModUnique(k, length, 1, k - length);
    } else {
      ModUnique(k, length, 2, 0);
    }
  }

  ghost function Ring(slots: seq<Item>, read: nat, count: nat): (items: seq<Item>)
    requires read < |slots| && count <= |slots|
    ensures |items| == count
  {
    seq(count, i requires 0 <= i < count => slots[RingIndex(read, i, |slots|)])
  }

  /** A write at the write slot appends; everything already in the ring keeps its place. */
  lemma RingAppend(slots: seq<Item>, read: nat, count: nat, x: Item)
    requires read < |slots| && count < |slots|
    ensures Ring(slots[RingIndex(read, count, |slots|) := x], read, count + 1) == Ring(slots, read, count) + [x]
  {
  }

  /** A write at the read slot, after which the read slot steps back, prepends. */
  lemma RingPrepend(slots: seq<Item>, read: nat, count: nat, x: Item)
    requires read < |slots| && count < |slots|
    ensures Ring(slots[read := x], if read == 0 then |slots| - 1 else read - 1, count + 1)
         == [x] + Ring(slots, read, count)
  {
  }

  /** Stepping the read slot forward drops the oldest item, which is the one then at the read slot. */
  lemma RingDrop(slots: seq<Item>, read: nat, count: nat)
    requires read < |slots| && 0 < count <= |slots|
    ensures Ring(slots, RingIndex(read, 0, |slots|), count - 1) == Ring(slots, read, count)[1..]
    ensures Ring(slots, read, count)[0] == slots[RingIndex(read, 0, |slots|)]
  {
  }

  /** So many items of size zero. */
  function Empties(count: nat): (items: seq<Item>)
    ensures |items| == count
  {
    seq(count, _ => [])
  }

  lemma EmptiesPlaced(count: nat, pos: Position)
    ensures Placed(Empties(count), [], pos) == Empties(count + 1)
    ensures count > 0 ==> Empties(count)[1..] == Empties(count - 1)
  {
  }

  class Queue {
    const storage: array<byte>
    const itemSize: nat
    const length: nat
    var writeTo: int           // pcWriteTo
    var readFrom: int          // u.pcReadFrom
    var messagesWaiting: nat
    var rxLock: LockCount
    var txLock: LockCount
    var waitSend: seq<Task>
    var waitReceive: seq<Task>
    ghost var readSlot: nat

    ghost predicate Valid()
      reads this, storage
    {
      && 1 <= length
      && storage.Length == Offset(length, itemSize)
      && readSlot < length
      && readFrom == Offset(readSlot, itemSize)
      && (itemSize > 0 ==> InRing(messagesWaiting))
    }

    /** The write position stands behind so many items, which are no more than there are slots. */
    ghost predicate InRing(count: nat)
      reads this
      requires readSlot < length
    {
      count <= length && writeTo == Offset(RingIndex(readSlot, count, length), itemSize)
    }

    /** So many items from the read position; of items without data there is only the number. */
    ghost function Held(count: nat): (items: seq<Item>)
      reads this, storage
      requires readSlot < length && storage.Length == Offset(length, itemSize)
      requires itemSize > 0 ==> count <= length
    {
      if itemSize == 0 then Empties(count) else Ring(Slots(storage[..], itemSize, length), readSlot, count)
    }

    ghost function Items(): (items: seq<Item>)
      requires Valid()
      reads this, storage
    {
      Held(messagesWaiting)
    }

    ghost function View(): (q: QState)
      requires Valid()
      reads this, storage
      ensures q.Valid() && q.length == length
    {
      QState(Items(), length, rxLock, txLock, waitSend, waitReceive)
    }

    /** xQueueGenericCreate followed by xQueueGenericReset of a new queue. */
    constructor (length: nat, itemSize: nat)
      requires 1 <= length
      ensures Valid() && fresh(storage)
      ensures this.length == length && this.itemSize == itemSize
      ensures View() == QState([], length, UNLOCKED, UNLOCKED, [], [])
    {
      this.length := length;
      this.itemSize := itemSize;
      OffsetIsProduct(length, itemSize);
      OffsetIsProduct(length - 1, itemSize);
      storage := new byte[length * itemSize];
      writeTo := 0;
      readFrom := (length - 1) * itemSize;
      readSlot := length - 1;
      messagesWaiting := 0;
      rxLock, txLock := UNLOCKED, UNLOCKED;
      waitSend, waitReceive := [], [];
    }

    /** memcpy of one item into the slot at a byte offset. */
    method CopyIn(offset: nat, ghost slot: nat, x: Item)
      requires Valid() && |x| == itemSize && slot < length && offset == Offset(slot, itemSize)
      modifies storage
      ensures Slots(storage[..], itemSize, length) == old(Slots(storage[..], itemSize, length))[slot := x]
    {
      OffsetOrder(slot, length, itemSize);
      forall j | 0 <= j < itemSize {
        storage[offset + j] := x[j];
      }
      SlotsAfterCopy(old(storage[..]), storage[..], itemSize, length, slot, x);
    }

    /** The queueSEND_TO_BACK branch of prvCopyDataToQueue, without the count. */
    method WriteAtBack(x: Item)
      requires Valid() && |x| == itemSize && 0 < itemSize && messagesWaiting < length
      modifies this`writeTo, storage
      ensures writeTo == Offset(RingIndex(readSlot, messagesWaiting + 1, length), itemSize)
      ensures Ring(Slots(storage[..], itemSize, length), readSlot, messagesWaiting + 1) == old(Items()) + [x]
    {
      ghost var slots := Slots(storage[..], itemSize, length);
      ghost var slot := RingIndex(readSlot, messagesWaiting, length);
      CopyIn(writeTo, slot, x);
      RingAppend(slots, readSlot, messagesWaiting, x);
      if slot + 1 < length {
        OffsetOrder(slot + 1, length, itemSize);
      }
      writeTo := writeTo + itemSize;
      if writeTo >= storage.Length {
        writeTo := 0;
      }
    }

    /** The other branch, for queueSEND_TO_FRONT and queueOVERWRITE, without the count. */
    method WriteAtFront(x: Item)
      requires Valid() && |x| == itemSize && 0 < itemSize
      modifies this`readFrom, this`readSlot, storage
      ensures readSlot < length && readFrom == Offset(readSlot, itemSize)
      ensures readSlot == if old(readSlot) == 0 then length - 1 else old(readSlot) - 1
      ensures messagesWaiting < length ==>
        Ring(Slots(storage[..], itemSize, length), readSlot, messagesWaiting + 1) == [x] + old(Items())
      ensures length == 1 ==> Slots(storage[..], itemSize, length) == [x]
    {
      ghost var slots := Slots(storage[..], itemSize, length);
      CopyIn(readFrom, readSlot, x);
      if messagesWaiting < length {
        RingPrepend(slots, readSlot, messagesWaiting, x);
      }
      readSlot := if readSlot == 0 then length - 1 else readSlot - 1;
      readFrom := readFrom - itemSize;
      if readFrom < 0 {
        readFrom := storage.Length - itemSize;
      }
    }

    /** prvCopyDataToQueue: the caller has checked that there is room, or overwrites. */
    method CopyDataToQueue(x: Item, pos: Position)
      requires Valid() && |x| == itemSize
      requires messagesWaiting < length || pos == Overwrite
      requires pos == Overwrite ==> length == 1
      modifies this`writeTo, this`readFrom, this`messagesWaiting, this`readSlot, storage
      ensures Valid()
      ensures Items() == Placed(old(Items()), x, pos)
    {
      var waiting := messagesWaiting;
      if itemSize == 0 {
        // A semaphore: no data moves, only the count changes.
        EmptiesPlaced(waiting, pos);
      } else if pos == Back {
        WriteAtBack(x);
      } else {
        WriteAtFront(x);
        if pos == Overwrite {
          if waiting > 0 {
            waiting := waiting - 1;
          }
        }
      }
      messagesWaiting := waiting + 1;
    }

    /** prvCopyDataFromQueue: steps the read position and copies out what it then points at. */
    method CopyDataFromQueue() returns (x: Item)
      requires Valid() && 0 < messagesWaiting
      modifies this`readFrom, this`readSlot
      ensures x == old(Items())[0]
      ensures readSlot < length && readFrom == Offset(readSlot, itemSize)
      ensures itemSize > 0 ==> InRing(messagesWaiting - 1)
      ensures Held(messagesWaiting - 1) == old(Items())[1..]
    {
      ghost var slots := Slots(storage[..], itemSize, length);
      if itemSize != 0 {
        ghost var slot := RingIndex(readSlot, 0, length);
        RingDrop(slots, readSlot, messagesWaiting);
        if readSlot + 1 < length {
          OffsetOrder(readSlot + 1, length, itemSize);
        }
        readFrom := readFrom + itemSize;
        if readFrom >= storage.Length {
          readFrom := 0;
        }
        readSlot := slot;
        OffsetOrder(slot, length, itemSize);
        x := storage[readFrom..readFrom + itemSize];
        assert x == Slot(storage[..], itemSize, length, slot);
      } else {
        EmptiesPlaced(messagesWaiting, Back);
        x := [];
      }
    }

    /** xTaskRemoveFromEventList on the readers, if any are waiting. */
    method WakeReceiver() returns (woken: seq<Task>)
      modifies this`waitReceive
      ensures woken == First(old(waitReceive)) && waitReceive == Rest(old(waitReceive))
    {
      woken := [];
      if waitReceive != [] {
        woken := [waitReceive[0]];
        waitReceive := waitReceive[1..];
      }
    }

    /** xTaskRemoveFromEventList on the writers, if any are waiting. */
    method WakeSender() returns (woken: seq<Task>)
      modifies this`waitSend
      ensures woken == First(old(waitSend)) && waitSend == Rest(old(waitSend))
    {
      woken := [];
      if waitSend != [] {
        woken := [waitSend[0]];
        waitSend := waitSend[1..];
      }
    }

    /** The critical section of xQueueGenericSend. */
    method TrySend(x: Item, pos: Position) returns (ok: bool, woken: seq<Task>)
      requires Valid() && |x| == itemSize && (pos == Overwrite ==> length == 1)
      modifies this, storage
      ensures Valid()
      ensures Outcome(ok, View(), woken, None) == Send(old(View()), x, pos)
    {
      ok, woken := messagesWaiting < length || pos == Overwrite, [];
      if ok {
        CopyDataToQueue(x, pos);
        woken := WakeReceiver();
      }
    }

    /** The critical section of xQueueGenericSendFromISR. */
    method TrySendFromISR(x: Item, pos: Position) returns (ok: bool, woken: seq<Task>)
      requires Valid() && |x| == itemSize && (pos == Overwrite ==> length == 1)
      modifies this, storage
      ensures Valid()
      ensures Outcome(ok, View(), woken, None) == SendFromISR(old(View()), x, pos)
    {
      ok, woken := messagesWaiting < length || pos == Overwrite, [];
      if ok {
        var lock := txLock;
        CopyDataToQueue(x, pos);
        if lock == UNLOCKED {
          woken := WakeReceiver();
        } else {
          txLock := Bump(lock);
        }
      }
    }

    /** The critical section of xQueueReceive and of xQueueSemaphoreTake. */
    method TryReceive() returns (item: Option<Item>, woken: seq<Task>)
      requires Valid()
      modifies this
      ensures Valid()
      ensures Outcome(item.Some?, View(), woken, item) == Receive(old(View()))
    {
      item, woken := None, [];
      if messagesWaiting > 0 {
        var x := CopyDataFromQueue();
        item := Some(x);
        messagesWaiting := messagesWaiting - 1;
        woken := WakeSender();
      }
    }

    /** The critical section of xQueueReceiveFromISR. */
    method TryReceiveFromISR() returns (item: Option<Item>, woken: seq<Task>)
      requires Valid()
      modifies this
      ensures Valid()
      ensures Outcome(item.Some?, View(), woken, item) == ReceiveFromISR(old(View()))
    {
      item, woken := None, [];
      if messagesWaiting > 0 {
        var lock := rxLock;
        var x := CopyDataFromQueue();
        item := Some(x);
        messagesWaiting := messagesWaiting - 1;
        if lock == UNLOCKED {
          woken := WakeSender();
        } else {
          rxLock := Bump(lock);
        }
      }
    }

    /** The critical section of xQueuePeek: the read position is put back. */
    method TryPeek() returns (item: Option<Item>, woken: seq<Task>)
      requires Valid()
      modifies this
      ensures Valid()
      ensures Outcome(item.Some?, View(), woken, item) == Peek(old(View()))
    {
      item, woken := None, [];
      if messagesWaiting > 0 {
        var original := readFrom;
        ghost var slot := readSlot;
        var x := CopyDataFromQueue();
        item := Some(x);
        readFrom := original;
        readSlot := slot;
        woken := WakeReceiver();
      }
    }

    /** prvLockQueue. */
    method LockQueue()
      requires Valid()
      modifies this`rxLock, this`txLock
      ensures Valid()
      ensures View() == Lock(old(View()))
    {
      if rxLock == UNLOCKED {
        rxLock := LOCKED_UNMODIFIED;
      }
      if txLock == UNLOCKED {
        txLock := LOCKED_UNMODIFIED;
      }
    }

    /** The first critical section of prvUnlockQueue. */
    method ReplayTx() returns (woken: seq<Task>)
      requires Valid()
      modifies this`txLock, this`waitReceive
      ensures Valid()
      ensures Outcome(true, View(), woken, None) == UnlockTx(old(View()))
    {
      var lock := txLock;
      woken := [];
      while lock > LOCKED_UNMODIFIED && waitReceive != []
        invariant lock <= txLock && (lock < txLock ==> 0 <= lock)
        invariant |woken| == (txLock - lock) as int && woken + waitReceive == old(waitReceive)
        invariant txLock == old(txLock)
        decreases lock
      {
        woken := woken + [waitReceive[0]];
        waitReceive := waitReceive[1..];
        lock := lock - 1;
      }
      txLock := UNLOCKED;
    }

    /** The second critical section of prvUnlockQueue. */
    method ReplayRx() returns (woken: seq<Task>)
      requires Valid()
      modifies this`rxLock, this`waitSend
      ensures Valid()
      ensures Outcome(true, View(), woken, None) == UnlockRx(old(View()))
    {
      var lock := rxLock;
      woken := [];
      while lock > LOCKED_UNMODIFIED && waitSend != []
        invariant lock <= rxLock && (lock < rxLock ==> 0 <= lock)
        invariant |woken| == (rxLock - lock) as int && woken + waitSend == old(waitSend)
        invariant rxLock == old(rxLock)
        decreases lock
      {
        woken := woken + [waitSend[0]];
        waitSend := waitSend[1..];
        lock := lock - 1;
      }
      rxLock := UNLOCKED;
    }
  }
}
