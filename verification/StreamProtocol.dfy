/**
 One writer and one reader on a stream buffer, without a lock.  Each side reads the other's
 index in a step of its own, works out the space or the count from what it read, copies its
 bytes one at a time and in any order, publishes its own index and then notifies the other
 side; the two interleave freely.  Nothing is lost, reordered or overwritten before it is
 read, and no side sleeps on a notification that will not come.
 */
module StreamProtocol {
  import opened Arithmetic
  import opened Types

  datatype Writer =
    | WIdle
    | WSampled(tail: nat)                          // the reader's index as it was when read
    | WCopying(data: seq<byte>, copied: set<nat>)
    | WPublished
    | WNotifying
    | WBlocked(required: nat, tail: nat)           // with what it read before it slept

  datatype Reader =
    | RIdle
    | RSampled(head: nat)
    | RCopying(count: nat, got: map<nat, byte>)
    | RPublished
    | RBlocked

  datatype Sys = Sys(
    buffer: seq<byte>,
    head: nat,
    tail: nat,
    trigger: nat,
    writer: Writer,
    reader: Reader,
    readerWaits: bool,       // xTaskWaitingToReceive != NULL
    readerNotified: bool,
    writerWaits: bool,       // xTaskWaitingToSend != NULL
    writerNotified: bool,
    sent: seq<byte>,
    received: seq<byte>)

  datatype Step =
    | ReadTail
    | BeginWrite(data: seq<byte>)
    | NoSpace
    | CopyIn(i: nat)
    | PublishHead
    | CheckTrigger
    | NotifyReader
    | WaitForSpace(required: nat)
    | WriterWakes
    | WriterGivesUp
    | ReadHead
    | BeginRead(max: nat)
    | NoData
    | CopyOut(i: nat)
    | PublishTail
    | NotifyWriter
    | WaitForData
    | ReaderWakes

  function Length(s: Sys): nat {
    |s.buffer|
  }

  /** The byte i places after an index. */
  function ByteAt(buffer: seq<byte>, from: nat, i: nat): byte {
    if Wrap(from + i, |buffer|) < |buffer| then buffer[Wrap(from + i, |buffer|)] else 0
  }

  /** prvBytesInBuffer, from two indices however old. */
  function CountFrom(head: nat, tail: nat, length: nat): int {
    if length + head - tail >= length then head - tail else length + head - tail
  }

  /** xStreamBufferSpacesAvailable, from two indices however old. */
  function SpacesFrom(head: nat, tail: nat, length: nat): int {
    var space := length + tail - head - 1;
    if space >= length then space - length else space
  }

  /** What the ring holds. */
  function Count(s: Sys): int {
    CountFrom(s.head, s.tail, Length(s))
  }

  /** What else it can hold. */
  function Spaces(s: Sys): int {
    SpacesFrom(s.head, s.tail, Length(s))
  }

  lemma SpacesAndCount(s: Sys)
    requires Indices(s)
    ensures Spaces(s) == Length(s) - 1 - Count(s) && 0 <= Count(s) < Length(s)
  {
  }

  ghost predicate Enabled(s: Sys, step: Step) {
    match step
    case ReadTail => s.writer.WIdle? || s.writer.WSampled?
    case BeginWrite(data) =>
      s.writer.WSampled? && 0 < |data| && 0 < SpacesFrom(s.head, s.writer.tail, Length(s))
    case NoSpace => s.writer.WSampled?
    case CopyIn(i) => s.writer.WCopying? && i < |s.writer.data| && i !in s.writer.copied
    case PublishHead => s.writer.WCopying? && forall i: nat :: i < |s.writer.data| ==> i in s.writer.copied
    case CheckTrigger => s.writer.WPublished?
    case NotifyReader => s.writer.WNotifying?
    case WaitForSpace(required) => (s.writer.WIdle? || s.writer.WSampled?) && Spaces(s) < required
    case WriterWakes => s.writer.WBlocked?      // notified, or timed out with no space read before
    case WriterGivesUp => s.writer.WBlocked?    // timed out: it writes into the space read before
    case ReadHead => s.reader.RIdle? || s.reader.RSampled?
    case BeginRead(max) => s.reader.RSampled? && 0 < max && 0 < CountFrom(s.reader.head, s.tail, Length(s))
    case NoData => s.reader.RSampled?
    case CopyOut(i) => s.reader.RCopying? && i < s.reader.count && i !in s.reader.got
    case PublishTail => s.reader.RCopying? && forall i: nat :: i < s.reader.count ==> i in s.reader.got
    case NotifyWriter => s.reader.RPublished?
    case WaitForData => (s.reader.RIdle? || s.reader.RSampled?) && Count(s) == 0
    case ReaderWakes => s.reader.RBlocked?
  }

  ghost function Apply(s: Sys, step: Step): Sys
    requires Indices(s) && Enabled(s, step)
  {
    match step
    case ReadTail => s.(writer := WSampled(s.tail))
    case BeginWrite(data) =>
      s.(writer := WCopying(data[..Least(|data|, SpacesFrom(s.head, s.writer.tail, Length(s)))], {}))
    case NoSpace => s.(writer := WIdle)
    case CopyIn(i) =>
      var at := Wrap(s.head + i, Length(s));
      if at < Length(s) then
        s.(buffer := s.buffer[at := s.writer.data[i]], writer := s.writer.(copied := s.writer.copied + {i}))
      else s
    case PublishHead =>
      s.(head := Wrap(s.head + |s.writer.data|, Length(s)), sent := s.sent + s.writer.data, writer := WPublished)
    case CheckTrigger => s.(writer := if Count(s) >= s.trigger then WNotifying else WIdle)
    case NotifyReader =>
      s.(writer := WIdle, readerNotified := s.readerNotified || s.readerWaits, readerWaits := false)
    case WaitForSpace(required) =>
      s.(writer := WBlocked(required, s.tail), writerWaits := true, writerNotified := false)
    case WriterWakes => s.(writer := WIdle, writerWaits := false)
    case WriterGivesUp => s.(writer := WSampled(s.writer.tail), writerWaits := false)
    case ReadHead => s.(reader := RSampled(s.head))
    case BeginRead(max) =>
      s.(reader := RCopying(Least(max, CountFrom(s.reader.head, s.tail, Length(s))), map[]))
    case NoData => s.(reader := RIdle)
    case CopyOut(i) =>
      s.(reader := s.reader.(got := s.reader.got[i := ByteAt(s.buffer, s.tail, i)]))
    case PublishTail =>
      var n, got := s.reader.count, s.reader.got;
      s.(tail := Wrap(s.tail + n, Length(s)),
        received := s.received + seq(n, i requires 0 <= i < n && i in got => got[i]),
         reader := RPublished)
    case NotifyWriter =>
      s.(reader := RIdle, writerNotified := s.writerNotified || s.writerWaits, writerWaits := false)
    case WaitForData => s.(reader := RBlocked, readerWaits := true, readerNotified := false)
    case ReaderWakes => s.(reader := RIdle, readerWaits := false)
  }

  // ----- the invariant -----

  ghost predicate Indices(s: Sys) {
    2 <= Length(s) && s.head < Length(s) && s.tail < Length(s) && 1 <= s.trigger
  }

  /** The ring holds exactly what has been sent and not yet received. */
  ghost predicate Held(s: Sys) {
    && |s.sent| == |s.received| + Count(s)
    && s.received <= s.sent
    && forall i: nat :: i < Count(s) ==> ByteAt(s.buffer, s.tail, i) == s.sent[|s.received| + i]
  }

  /** A writer in mid-copy has room for all its bytes, and those copied are in place. */
  ghost predicate WriterOk(s: Sys) {
    s.writer.WCopying? ==>
      && 0 < |s.writer.data| <= Spaces(s)
      && forall i: nat :: i in s.writer.copied ==>
           i < |s.writer.data| && ByteAt(s.buffer, s.head, i) == s.writer.data[i]
  }

  /** A reader in mid-copy is reading bytes that are there, and has the right ones so far. */
  ghost predicate ReaderOk(s: Sys) {
    s.reader.RCopying? ==>
      && 0 < s.reader.count <= Count(s)
      && forall i: nat :: i in s.reader.got ==>
           i < s.reader.count && |s.received| + i < |s.sent| && s.reader.got[i] == s.sent[|s.received| + i]
  }

  /** What a side works out from an index it has read is never more than the truth, however far
      the other side has moved on since, a writer's sleep included. */
  ghost predicate SamplesOk(s: Sys) {
    && (s.writer.WSampled? || s.writer.WBlocked? ==>
          s.writer.tail < Length(s) && 0 <= SpacesFrom(s.head, s.writer.tail, Length(s)) <= Spaces(s))
    && (s.reader.RSampled? ==>
          s.reader.head < Length(s) && 0 <= CountFrom(s.reader.head, s.tail, Length(s)) <= Count(s))
  }

  /** A side that sleeps un-notified is registered, and if what it waits for has come then the
      other side is on its way to notify it. */
  ghost predicate WakeupsOk(s: Sys) {
    && (s.reader.RBlocked? && !s.readerNotified ==>
          s.readerWaits && (Count(s) >= s.trigger ==> s.writer.WPublished? || s.writer.WNotifying?))
    && (s.writer.WBlocked? && !s.writerNotified ==>
          s.writerWaits && (Spaces(s) >= s.writer.required ==> s.reader.RPublished?))
  }

  ghost predicate Inv(s: Sys) {
    Indices(s) && Held(s) && WriterOk(s) && ReaderOk(s) && SamplesOk(s) && WakeupsOk(s)
  }

  /** A new buffer. */
  ghost predicate Init(s: Sys) {
    && 2 <= |s.buffer| && 1 <= s.trigger
    && s == Sys(s.buffer, 0, 0, s.trigger, WIdle, RIdle, false, false, false, false, [], [])
  }

  // ----- every step keeps it -----

  /** Writing one byte of a turn changes that byte of the turn only. */
  lemma ByteAfterWrite(buffer: seq<byte>, at: nat, i: nat, v: byte, j: nat)
    requires at < |buffer| && i < |buffer| && j < |buffer|
    ensures Wrap(at + i, |buffer|) < |buffer|
    ensures ByteAt(buffer[Wrap(at + i, |buffer|) := v], at, j) == if j == i then v else ByteAt(buffer, at, j)
  {
  }

  /** Byte i after the head is byte Count + i after the tail. */
  lemma WrapTwice(s: Sys, i: nat)
    requires Indices(s) && i < Spaces(s)
    ensures Wrap(s.head + i, Length(s)) == Wrap(s.tail + (Count(s) + i), Length(s)) < Length(s)
  {
  }

  /** A copy into the free part of the ring leaves every unread byte as it was. */
  lemma CopyInKeepsUnreadByte(s: Sys, i: nat, j: nat)
    requires Indices(s) && WriterOk(s) && Enabled(s, CopyIn(i)) && j < Count(s)
    ensures ByteAt(Apply(s, CopyIn(i)).buffer, s.tail, j) == ByteAt(s.buffer, s.tail, j)
  {
    WrapTwice(s, i);
    ByteAfterWrite(s.buffer, s.tail, Count(s) + i, s.writer.data[i], j);
  }

  lemma CopyInKeepsHeld(s: Sys, i: nat)
    requires Inv(s) && Enabled(s, CopyIn(i))
    ensures Held(Apply(s, CopyIn(i)))
  {
    forall j: nat | j < Count(s)
      ensures ByteAt(Apply(s, CopyIn(i)).buffer, s.tail, j) == ByteAt(s.buffer, s.tail, j)
    {
      CopyInKeepsUnreadByte(s, i, j);
    }
  }

  /** It is in place itself, and the bytes copied before stay so. */
  lemma CopyInKeepsCopied(s: Sys, i: nat, j: nat)
    requires Indices(s) && WriterOk(s) && Enabled(s, CopyIn(i)) && (j == i || j in s.writer.copied)
    ensures ByteAt(Apply(s, CopyIn(i)).buffer, s.head, j) == s.writer.data[j]
  {
    SpacesAndCount(s);
    ByteAfterWrite(s.buffer, s.head, i, s.writer.data[i], j);
  }

  lemma CopyInKeepsWriter(s: Sys, i: nat)
    requires Indices(s) && WriterOk(s) && Enabled(s, CopyIn(i))
    ensures WriterOk(Apply(s, CopyIn(i)))
  {
    var s' := Apply(s, CopyIn(i));
    forall j: nat | j in s'.writer.copied
      ensures ByteAt(s'.buffer, s.head, j) == s.writer.data[j]
    {
      CopyInKeepsCopied(s, i, j);
    }
  }

  /** Publishing the head turns the copied bytes into unread ones. */
  lemma PublishedByte(s: Sys, i: nat)
    requires Indices(s) && Held(s) && WriterOk(s) && Enabled(s, PublishHead) && i < Count(s) + |s.writer.data|
    ensures |s.received| + i < |s.sent + s.writer.data|
    ensures ByteAt(s.buffer, s.tail, i) == (s.sent + s.writer.data)[|s.received| + i]
  {
    if i >= Count(s) {
      var j := i - Count(s);
      assert j in s.writer.copied;
      WrapTwice(s, j);
    }
  }

  lemma PublishHeadKeepsHeld(s: Sys)
    requires Indices(s) && Held(s) && WriterOk(s) && Enabled(s, PublishHead)
    ensures Held(Apply(s, PublishHead)) && Count(Apply(s, PublishHead)) == Count(s) + |s.writer.data|
  {
    forall i: nat | i < Count(s) + |s.writer.data|
      ensures |s.received| + i < |s.sent + s.writer.data|
      ensures ByteAt(s.buffer, s.tail, i) == (s.sent + s.writer.data)[|s.received| + i]
    {
      PublishedByte(s, i);
    }
  }

  /** The bytes copied out are the next ones that were sent. */
  lemma ReceivedIsSent(s: Sys)
    requires Indices(s) && Held(s) && ReaderOk(s) && Enabled(s, PublishTail)
    ensures var r := Apply(s, PublishTail).received;
      |r| == |s.received| + s.reader.count && r <= s.sent
  {
    var r, got := Apply(s, PublishTail).received, s.reader.got;
    assert |r| == |s.received| + s.reader.count;
    forall i | 0 <= i < |r| ensures r[i] == s.sent[i] {
      if i >= |s.received| {
        assert i - |s.received| in got;
      }
    }
  }

  lemma PublishTailKeepsHeld(s: Sys)
    requires Indices(s) && Held(s) && ReaderOk(s) && Enabled(s, PublishTail)
    ensures Held(Apply(s, PublishTail)) && Count(Apply(s, PublishTail)) == Count(s) - s.reader.count
  {
    var s', n := Apply(s, PublishTail), s.reader.count;
    ReceivedIsSent(s);
    forall i: nat | i < Count(s')
      ensures ByteAt(s'.buffer, s'.tail, i) == s'.sent[|s'.received| + i]
    {
      assert ByteAt(s'.buffer, s'.tail, i) == ByteAt(s.buffer, s.tail, n + i);
    }
  }

  lemma CopyOutKeepsInv(s: Sys, i: nat)
    requires Inv(s) && Enabled(s, CopyOut(i))
    ensures Inv(Apply(s, CopyOut(i)))
  {
  }

  lemma OtherStepsKeepInv(s: Sys, step: Step)
    requires Inv(s) && Enabled(s, step)
    requires !step.CopyIn? && !step.CopyOut? && !step.PublishHead? && !step.PublishTail?
    ensures Inv(Apply(s, step))
  {
    if OfReader(step) {
      ReaderStepsKeepInv(s, step);
    } else {
      WriterStepsKeepInv(s, step);
    }
  }

  predicate OfReader(step: Step) {
    step.ReadHead? || step.BeginRead? || step.NoData? || step.NotifyWriter? || step.WaitForData? || step.ReaderWakes?
  }

  lemma ReaderStepsKeepInv(s: Sys, step: Step)
    requires Inv(s) && Enabled(s, step) && OfReader(step)
    ensures Inv(Apply(s, step))
  {
  }

  lemma WriterStepsKeepInv(s: Sys, step: Step)
    requires Inv(s) && Enabled(s, step) && !OfReader(step)
    requires !step.CopyIn? && !step.CopyOut? && !step.PublishHead? && !step.PublishTail?
    ensures Inv(Apply(s, step))
  {
    SpacesAndCount(s);
    if step.ReadTail? || step.BeginWrite? || step.NoSpace? {
      SamplingKeepsInv(s, step);
    } else {
      WaitingKeepsInv(s, step);
    }
  }

  lemma SamplingKeepsInv(s: Sys, step: Step)
    requires Inv(s) && Enabled(s, step) && (step.ReadTail? || step.BeginWrite? || step.NoSpace?)
    ensures Inv(Apply(s, step))
  {
  }

  lemma WaitingKeepsInv(s: Sys, step: Step)
    requires Inv(s) && Enabled(s, step)
    requires step.WaitForSpace? || step.WriterWakes? || step.WriterGivesUp? || step.CheckTrigger? || step.NotifyReader?
    ensures Inv(Apply(s, step))
  {
  }

  /** The reader moves its index on, within what there is to read: a writer's old reading of it
      promises no space that is not there. */
  lemma OldTailIsSafe(head: nat, tail: nat, n: nat, seen: nat, length: nat)
    requires head < length && tail < length && seen < length && n <= CountFrom(head, tail, length)
    requires 0 <= SpacesFrom(head, seen, length) <= SpacesFrom(head, tail, length)
    ensures SpacesFrom(head, tail, length) + n == SpacesFrom(head, Wrap(tail + n, length), length)
    ensures SpacesFrom(head, seen, length) <= SpacesFrom(head, Wrap(tail + n, length), length)
  {
  }

  /** The writer moves its index on, within the space: a reader's old reading of it promises no
      byte that is not there. */
  lemma OldHeadIsSafe(head: nat, tail: nat, n: nat, seen: nat, length: nat)
    requires head < length && tail < length && seen < length && n <= SpacesFrom(head, tail, length)
    requires 0 <= CountFrom(seen, tail, length) <= CountFrom(head, tail, length)
    ensures CountFrom(head, tail, length) + n == CountFrom(Wrap(head + n, length), tail, length)
    ensures CountFrom(seen, tail, length) <= CountFrom(Wrap(head + n, length), tail, length)
  {
  }

  lemma CopyInKeepsInv(s: Sys, i: nat)
    requires Inv(s) && Enabled(s, CopyIn(i))
    ensures Inv(Apply(s, CopyIn(i)))
  {
    CopyInKeepsHeld(s, i);
    CopyInKeepsWriter(s, i);
  }

  lemma PublishHeadKeepsInv(s: Sys)
    requires Inv(s) && Enabled(s, PublishHead)
    ensures Inv(Apply(s, PublishHead))
  {
    PublishHeadKeepsHeld(s);
    if s.reader.RSampled? {
      OldHeadIsSafe(s.head, s.tail, |s.writer.data|, s.reader.head, Length(s));
    }
  }

  lemma PublishTailKeepsInv(s: Sys)
    requires Inv(s) && Enabled(s, PublishTail)
    ensures Inv(Apply(s, PublishTail))
  {
    PublishTailKeepsHeld(s);
    if s.writer.WSampled? || s.writer.WBlocked? {
      OldTailIsSafe(s.head, s.tail, s.reader.count, s.writer.tail, Length(s));
    }
  }

  lemma StepKeepsInv(s: Sys, step: Step)
    requires Inv(s) && Enabled(s, step)
    ensures Inv(Apply(s, step))
  {
    match step
    case CopyIn(i) => CopyInKeepsInv(s, i);
    case CopyOut(i) => CopyOutKeepsInv(s, i);
    case PublishHead => PublishHeadKeepsInv(s);
    case PublishTail => PublishTailKeepsInv(s);
    case _ => OtherStepsKeepInv(s, step);
  }

  ghost predicate IsRun(s: Sys, steps: seq<Step>, s': Sys)
    decreases |steps|
  {
    if steps == [] then s == s'
    else Indices(s) && Enabled(s, steps[0]) && IsRun(Apply(s, steps[0]), steps[1..], s')
  }

  lemma {:induction false} RunKeepsInv(s: Sys, steps: seq<Step>, s': Sys)
    requires Inv(s) && IsRun(s, steps, s')
    ensures Inv(s')
    decreases |steps|
  {
    if steps != [] {
      StepKeepsInv(s, steps[0]);
      RunKeepsInv(Apply(s, steps[0]), steps[1..], s');
    }
  }

  /** The unread bytes of the ring, oldest first. */
  ghost function Unread(s: Sys): seq<byte>
    requires Indices(s)
  {
    seq(Count(s), i requires 0 <= i < Count(s) => ByteAt(s.buffer, s.tail, i))
  }

  /** Over every interleaving, what has been received is a prefix of what has been sent and the
      ring holds exactly the rest, whatever copies are in progress. */
  lemma NothingIsLostOrReordered(s: Sys, steps: seq<Step>, s': Sys)
    requires Init(s) && IsRun(s, steps, s')
    ensures Indices(s') && s'.sent == s'.received + Unread(s')
  {
    RunKeepsInv(s, steps, s');
    assert s'.sent == s'.received + Unread(s') by {
      assert s'.sent[..|s'.received|] == s'.received;
      assert s'.sent[|s'.received|..] == Unread(s');
    }
  }

  /** No copy of the writer lands on an unread byte, nor on one the reader is copying. */
  lemma UnreadIsNeverOverwritten(s: Sys, steps: seq<Step>, s': Sys, i: nat)
    requires Init(s) && IsRun(s, steps, s') && Enabled(s', CopyIn(i))
    ensures Indices(s') && Unread(Apply(s', CopyIn(i))) == Unread(s')
    ensures s'.reader.RCopying? ==> s'.reader.count <= |Unread(s')|
  {
    RunKeepsInv(s, steps, s');
    var s'' := Apply(s', CopyIn(i));
    forall j: nat | j < Count(s') ensures Unread(s'')[j] == Unread(s')[j] {
      CopyInKeepsUnreadByte(s', i, j);
    }
  }

  /** Over every run what a side has worked out from its reading of the other's index is no more
      than the truth, though the other has moved on any number of times since, and though the
      writer has slept since, notified or not, and writes without reading again. */
  lemma OldReadingsAreSafe(s: Sys, steps: seq<Step>, s': Sys)
    requires Init(s) && IsRun(s, steps, s')
    ensures s'.writer.WSampled? || s'.writer.WBlocked? ==>
      SpacesFrom(s'.head, s'.writer.tail, Length(s')) <= Length(s') - 1 - Count(s')
    ensures s'.reader.RSampled? ==> CountFrom(s'.reader.head, s'.tail, Length(s')) <= |s'.sent| - |s'.received|
  {
    RunKeepsInv(s, steps, s');
    SpacesAndCount(s');
  }

  /** Unless the writer is between publishing its index and notifying, a reader asleep has had
      its notification or the buffer holds less than the trigger level; and unless the reader is,
      a writer asleep has had its own or there is still not the space it asked for. */
  lemma NobodySleepsInVain(s: Sys, steps: seq<Step>, s': Sys)
    requires Init(s) && IsRun(s, steps, s')
    ensures s'.reader.RBlocked? && !s'.readerNotified && !s'.writer.WPublished? && !s'.writer.WNotifying?
            ==> Count(s') < s'.trigger
    ensures s'.writer.WBlocked? && !s'.writerNotified && !s'.reader.RPublished?
            ==> Spaces(s') < s'.writer.required
  {
    RunKeepsInv(s, steps, s');
  }
}
