/**
 The stream buffer object of stream_buffer.c: a byte array with a head and a tail index, one
 byte of which always stays empty.  As a message buffer it holds whole messages, each behind
 a four-byte length.  Index arithmetic is in 32 bits, as in the original.
 */
module StreamBuffers {
  import opened Arithmetic
  import opened Types

  const WORD: int := 0x1_0000_0000

  /** sbBYTES_TO_STORE_MESSAGE_LENGTH. */
  const PREFIX := 4

  // ----- spans of a ring -----

  /** n bytes of the ring from an index on, going round the end if need be. */
  function Span(ring: seq<byte>, from: nat, n: nat): (s: seq<byte>)
    requires from < |ring| && n <= |ring|
    ensures |s| == n
  {
    seq(n, i requires 0 <= i < n => ring[Wrap(from + i, |ring|)])
  }

  lemma SpanAt(ring: seq<byte>, from: nat, n: nat, i: nat)
    requires from < |ring| && n <= |ring| && i < n
    ensures Wrap(from + i, |ring|) < |ring| && Span(ring, from, n)[i] == ring[Wrap(from + i, |ring|)]
  {
  }

  lemma SpanSplit(ring: seq<byte>, from: nat, m: nat, n: nat)
    requires from < |ring| && m + n <= |ring| && m < |ring|
    ensures Span(ring, from, m + n)[..m] == Span(ring, from, m)
    ensures Span(ring, from, m + n)[m..] == Span(ring, Wrap(from + m, |ring|), n)
  {
    var s, t := Span(ring, from, m + n)[m..], Span(ring, Wrap(from + m, |ring|), n);
    forall i | 0 <= i < n ensures s[i] == t[i] {
      SpanAt(ring, from, m + n, m + i);
      SpanAt(ring, Wrap(from + m, |ring|), n, i);
    }
  }

  /** What the two copies of a wrapped write leave at each place of the ring. */
  function Written(before: seq<byte>, from: nat, data: seq<byte>, i: nat): byte
    requires from < |before| && |data| <= |before| && i < |before|
  {
    if from <= i < from + |data| then data[i - from]
    else if i + |before| < from + |data| then data[i + |before| - from]
    else before[i]
  }

  /** They put the data behind what was there, and leave that as it was. */
  lemma SpanWritten(before: seq<byte>, after: seq<byte>, from: nat, data: seq<byte>, tail: nat, m: nat)
    requires |before| == |after| && from < |before| && tail < |before| && m + |data| <= |before| && m < |before|
    requires from == Wrap(tail + m, |before|)
    requires forall i :: 0 <= i < |after| ==> after[i] == Written(before, from, data, i)
    ensures Span(after, tail, m + |data|) == Span(before, tail, m) + data
  {
    forall i | 0 <= i < m + |data|
      ensures Span(after, tail, m + |data|)[i] == (Span(before, tail, m) + data)[i]
    {
      var k := Wrap(tail + i, |after|);
      assert after[k] == Written(before, from, data, k);
    }
  }

  /** A read copies out in one or two pieces. */
  lemma SpanRead(ring: seq<byte>, from: nat, n: nat)
    requires from < |ring| && n <= |ring|
    ensures Span(ring, from, n)
      == if from + n <= |ring| then ring[from..from + n] else ring[from..] + ring[..from + n - |ring|]
  {
    var s := Span(ring, from, n);
    var t := if from + n <= |ring| then ring[from..from + n] else ring[from..] + ring[..from + n - |ring|];
    forall i | 0 <= i < n ensures s[i] == t[i] {
      SpanAt(ring, from, n, i);
    }
  }

  // ----- message framing -----

  /** The bytes of a length, least significant first. */
  function LengthPrefix(n: nat): (p: seq<byte>)
    requires n < WORD
    ensures |p| == PREFIX
  {
    [(n % 256) as byte, (n / 256 % 256) as byte, (n / 0x1_0000 % 256) as byte, (n / 0x100_0000) as byte]
  }

  function LengthFrom(p: seq<byte>): nat
    requires |p| == PREFIX
  {
    p[0] as nat + p[1] as nat * 256 + p[2] as nat * 0x1_0000 + p[3] as nat * 0x100_0000
  }

  lemma LengthRoundTrip(n: nat)
    requires n < WORD
    ensures LengthFrom(LengthPrefix(n)) == n
  {
    assert n == n % 256 + n / 256 * 256;
    assert n / 256 == n / 256 % 256 + n / 0x1_0000 * 256;
    assert n / 0x1_0000 == n / 0x1_0000 % 256 + n / 0x100_0000 * 256;
  }

  /** A message as it lies in the buffer, and a queue of them. */
  function Frame(m: seq<byte>): seq<byte>
    requires |m| < WORD
  {
    LengthPrefix(|m|) + m
  }

  ghost predicate Sized(ms: seq<seq<byte>>) {
    ms == [] || (0 < |ms[0]| < WORD && Sized(ms[1..]))
  }

  function Frames(ms: seq<seq<byte>>): seq<byte>
    requires Sized(ms)
  {
    if ms == [] then [] else Frame(ms[0]) + Frames(ms[1..])
  }

  lemma {:induction false} FramesAppend(ms: seq<seq<byte>>, m: seq<byte>)
    requires Sized(ms) && 0 < |m| < WORD
    ensures Sized(ms + [m]) && Frames(ms + [m]) == Frames(ms) + Frame(m)
  {
    if ms == [] {
      assert ms + [m] == [m];
      assert Frames([m]) == Frame(m) + Frames([]);
    } else {
      var all := ms + [m];
      assert all[0] == ms[0] && all[1..] == ms[1..] + [m];
      FramesAppend(ms[1..], m);
      Regroup(Frame(ms[0]), Frames(ms[1..]), Frame(m));
    }
  }

  lemma Concatenated(p: seq<byte>, m: seq<byte>, rest: seq<byte>)
    ensures var c := p + m + rest;
      |p| + |m| <= |c| && c[..|p|] == p && c[|p|..|p| + |m|] == m && c[|p| + |m|..] == rest
  {
  }

  lemma FramesHead(ms: seq<seq<byte>>)
    requires Sized(ms) && ms != []
    ensures var c, n := Frames(ms), |ms[0]|;
      PREFIX + n <= |c| && c[..PREFIX] == LengthPrefix(n) && c[PREFIX..PREFIX + n] == ms[0]
        && c[PREFIX + n..] == Frames(ms[1..])
  {
    var p, m, rest := LengthPrefix(|ms[0]|), ms[0], Frames(ms[1..]);
    Concatenated(p, m, rest);
  }

  /** The framing is unambiguous: the bytes determine the messages. */
  lemma {:induction false} FramesUnique(a: seq<seq<byte>>, b: seq<seq<byte>>)
    requires Sized(a) && Sized(b) && Frames(a) == Frames(b)
    ensures a == b
  {
    if a != [] {
      FramesHead(a);
    }
    if b != [] {
      FramesHead(b);
    }
    if a != [] && b != [] {
      LengthRoundTrip(|a[0]|);
      LengthRoundTrip(|b[0]|);
      FramesUnique(a[1..], b[1..]);
      assert a == [a[0]] + a[1..] && b == [b[0]] + b[1..];
    }
  }

  /** The space a message of n bytes asks for, in 32-bit arithmetic. */
  function MessageSpace(n: nat): nat {
    (n + PREFIX) % WORD
  }

  class StreamBuffer {
    const length: nat              // xLength: one more than can be held
    const trigger: nat             // xTriggerLevelBytes
    const isMessageBuffer: bool
    const buffer: array<byte>
    var head: nat
    var tail: nat
    var waitingToReceive: Option<Task>
    var waitingToSend: Option<Task>
    ghost var messages: seq<seq<byte>>

    /** The length is below 2^31 because pvPortMalloc refuses anything larger. */
    ghost predicate Shape()
      reads this
    {
      2 <= length < WORD / 2 && buffer.Length == length && head < length && tail < length && 1 <= trigger
    }

    ghost function Count(): nat
      requires Shape()
      reads this
    {
      if head >= tail then head - tail else head + length - tail
    }

    /** The unread bytes, oldest first. */
    ghost function Contents(): (c: seq<byte>)
      requires Shape()
      reads this, buffer
      ensures |c| == Count() < length
    {
      Span(buffer[..], tail, Count())
    }

    /** What a message buffer holds are whole messages. */
    ghost predicate Valid()
      reads this, buffer
    {
      Shape() && (isMessageBuffer ==> Sized(messages) && Contents() == Frames(messages))
    }

    /** xStreamBufferGenericCreate: the size asked for is enlarged by one. */
    constructor (size: nat, triggerLevel: nat, isMessageBuffer: bool)
      requires PREFIX < size < WORD / 2 - 1 && triggerLevel <= size
      ensures Valid() && Contents() == [] && messages == [] && length == size + 1
        && this.isMessageBuffer == isMessageBuffer
      ensures trigger == if triggerLevel == 0 then 1 else triggerLevel
      ensures waitingToReceive == None && waitingToSend == None && fresh(buffer)
    {
      length := size + 1;
      trigger := if triggerLevel == 0 then 1 else triggerLevel;
      this.isMessageBuffer := isMessageBuffer;
      buffer := new byte[size + 1](_ => 0);
      head, tail := 0, 0;
      waitingToReceive, waitingToSend := None, None;
      messages := [];
    }

    /** xStreamBufferSpacesAvailable. */
    method SpacesAvailable() returns (space: nat)
      requires Shape()
      ensures space == length - 1 - Count()
    {
      assert 1 <= length + tail - head <= length + tail < WORD;
      space := (length + tail) % WORD;
      space := (space - head) % WORD;
      space := (space - 1) % WORD;
      if space >= length {
        space := space - length;
      }
    }

    /** prvBytesInBuffer. */
    method BytesInBuffer() returns (count: nat)
      requires Shape()
      ensures count == Count()
    {
      assert 1 <= length + head - tail <= length + head < WORD;
      count := (length + head) % WORD;
      count := (count - tail) % WORD;
      if count >= length {
        count := count - length;
      }
    }

    /** prvWriteBytesToBuffer. */
    method WriteBytes(data: seq<byte>) returns (count: nat)
      requires Shape() && 0 < |data| <= length - 1 - Count()
      modifies this`head, buffer
      ensures Shape() && count == |data| && Contents() == old(Contents()) + data
    {
      count := |data|;
      var nextHead := head;
      var firstLength := Least(length - nextHead, count);
      forall i | 0 <= i < firstLength {
        buffer[nextHead + i] := data[i];
      }
      if count > firstLength {
        forall i | 0 <= i < count - firstLength {
          buffer[i] := data[firstLength + i];
        }
      }
      SpanWritten(old(buffer[..]), buffer[..], head, data, tail, Count());
      nextHead := nextHead + count;
      if nextHead >= length {
        nextHead := nextHead - length;
      }
      head := nextHead;
    }

    /** prvReadBytesFromBuffer. */
    method ReadBytes(maxCount: nat, bytesAvailable: nat) returns (data: seq<byte>)
      requires Shape() && bytesAvailable <= Count()
      modifies this`tail
      ensures Shape()
      ensures data == old(Contents())[..Least(bytesAvailable, maxCount)]
      ensures Contents() == old(Contents())[Least(bytesAvailable, maxCount)..]
    {
      var count := Least(bytesAvailable, maxCount);
      data := [];
      if count > 0 {
        var nextTail := tail;
        SpanSplit(buffer[..], tail, count, Count() - count);
        SpanRead(buffer[..], tail, count);
        var firstLength := Least(length - nextTail, count);
        data := buffer[nextTail..nextTail + firstLength];
        if count > firstLength {
          data := data + buffer[..count - firstLength];
        }
        nextTail := nextTail + count;
        if nextTail >= length {
          nextTail := nextTail - length;
        }
        tail := nextTail;
      }
    }

    /** prvWriteMessageToBuffer. */
    method WriteMessage(data: seq<byte>, space: nat, requiredSpace: nat) returns (count: nat)
      requires Valid() && 0 < |data| && space == length - 1 - Count()
      requires isMessageBuffer ==> requiredSpace == |data| + PREFIX < WORD
      modifies this`head, this`messages, buffer
      ensures Valid()
      ensures !isMessageBuffer ==>
        count == Least(|data|, space) && Contents() == old(Contents()) + data[..count] && messages == old(messages)
      ensures isMessageBuffer && |data| + PREFIX <= space ==> count == |data| && messages == old(messages) + [data]
      ensures isMessageBuffer && space < |data| + PREFIX ==>
        count == 0 && messages == old(messages) && Contents() == old(Contents())
    {
      count := 0;
      if space != 0 {
        if !isMessageBuffer {
          count := WriteBytes(data[..Least(|data|, space)]);
        } else if space >= requiredSpace {
          ghost var before := Contents();
          var _ := WriteBytes(LengthPrefix(|data|));
          count := WriteBytes(data);
          FramesAppend(messages, data);
          assert Contents() == before + Frame(data);
          messages := messages + [data];
        }
      }
    }

    /** xStreamBufferSend without a block time.  A stream takes as much as there is room for; a
        message goes in whole or not at all.  Once the trigger level is reached a waiting
        reader is notified. */
    method Send(data: seq<byte>) returns (count: nat, notified: Option<Task>)
      requires Valid() && 0 < |data| && (isMessageBuffer ==> |data| + PREFIX < WORD)
      modifies this`head, this`messages, this`waitingToReceive, buffer
      ensures Valid()
      ensures !isMessageBuffer ==>
        count == Least(|data|, length - 1 - old(Count())) && Contents() == old(Contents()) + data[..count]
      ensures isMessageBuffer && |data| + PREFIX <= length - 1 - old(Count()) ==>
        count == |data| && messages == old(messages) + [data]
      ensures isMessageBuffer && length - 1 - old(Count()) < |data| + PREFIX ==>
        count == 0 && messages == old(messages) && Contents() == old(Contents())
      ensures isMessageBuffer ==>
        messages == Step(Traffic(old(messages), [], []), SendMessage(data), length - 1).held
      ensures notified == if count > 0 && Count() >= trigger then old(waitingToReceive) else None
      ensures waitingToReceive == if count > 0 && Count() >= trigger then None else old(waitingToReceive)
    {
      var space := SpacesAvailable();
      count := WriteMessage(data, space, if isMessageBuffer then MessageSpace(|data|) else |data|);
      notified := None;
      if count > 0 {
        var bytes := BytesInBuffer();
        if bytes >= trigger {
          notified := waitingToReceive;
          waitingToReceive := None;
        }
      }
    }

    /** prvReadMessageFromBuffer. */
    method ReadMessage(max: nat, bytesAvailable: nat, prefixLength: nat) returns (data: seq<byte>)
      requires Valid() && bytesAvailable == Count() && prefixLength == (if isMessageBuffer then PREFIX else 0)
      requires prefixLength < bytesAvailable
      modifies this`tail, this`messages
      ensures Valid()
      ensures !isMessageBuffer ==>
        data == old(Contents())[..Least(old(Count()), max)] && Contents() == old(Contents())[Least(old(Count()), max)..]
      ensures isMessageBuffer ==> old(messages) != []
      ensures isMessageBuffer && |old(messages)[0]| <= max ==>
        data == old(messages)[0] && messages == old(messages)[1..]
      ensures isMessageBuffer && max < |old(messages)[0]| ==>
        data == [] && messages == old(messages) && tail == old(tail)
    {
      var nextLength, available := max, bytesAvailable;
      if prefixLength != 0 {
        FramesHead(messages);
        LengthRoundTrip(|messages[0]|);
        var originalTail := tail;
        var prefix := ReadBytes(prefixLength, available);
        nextLength := LengthFrom(prefix);
        available := available - prefixLength;
        if nextLength > max {
          tail := originalTail;
          nextLength := 0;
        } else {
          messages := messages[1..];
        }
      }
      data := ReadBytes(nextLength, available);
    }

    /** xStreamBufferReceive without a block time.  A stream gives up to `max` bytes; a message
        comes out whole, and one too long for the caller stays where it is. */
    method Receive(max: nat) returns (data: seq<byte>, notified: Option<Task>)
      requires Valid()
      modifies this`tail, this`messages, this`waitingToSend
      ensures Valid()
      ensures !isMessageBuffer ==>
        data == old(Contents())[..Least(old(Count()), max)] && Contents() == old(Contents())[Least(old(Count()), max)..]
      ensures isMessageBuffer && old(messages) != [] && |old(messages)[0]| <= max ==>
        data == old(messages)[0] && messages == old(messages)[1..]
      ensures isMessageBuffer && (old(messages) == [] || max < |old(messages)[0]|) ==>
        data == [] && messages == old(messages) && tail == old(tail)
      ensures isMessageBuffer ==>
        messages == Step(Traffic(old(messages), [], []), ReceiveMessage(max), length - 1).held
      ensures notified == if data != [] then old(waitingToSend) else None
      ensures waitingToSend == if data != [] then None else old(waitingToSend)
    {
      data, notified := [], None;
      var prefixLength := if isMessageBuffer then PREFIX else 0;
      var bytesAvailable := BytesInBuffer();
      if isMessageBuffer && messages != [] {
        FramesHead(messages);
      }
      if bytesAvailable > prefixLength {
        data := ReadMessage(max, bytesAvailable, prefixLength);
        if |data| != 0 {
          notified := waitingToSend;
          waitingToSend := None;
        }
      }
    }
  }

  // ----- what a message buffer delivers over a run -----

  datatype Op = SendMessage(m: seq<byte>) | ReceiveMessage(max: nat)

  /** The buffer of `capacity` bytes as StreamBuffer.Send and StreamBuffer.Receive leave it,
      with the messages accepted and delivered so far. */
  datatype Traffic = Traffic(held: seq<seq<byte>>, accepted: seq<seq<byte>>, delivered: seq<seq<byte>>)

  ghost function Step(t: Traffic, op: Op, capacity: nat): Traffic
    requires Sized(t.held)
  {
    match op
    case SendMessage(m) =>
      if |Frames(t.held)| + PREFIX + |m| <= capacity then t.(held := t.held + [m], accepted := t.accepted + [m]) else t
    case ReceiveMessage(max) =>
      if t.held == [] || max < |t.held[0]| then t
      else t.(held := t.held[1..], delivered := t.delivered + [t.held[0]])
  }

  ghost predicate Sendable(op: Op) {
    op.SendMessage? ==> 0 < |op.m| < WORD - PREFIX
  }

  ghost predicate IsRun(t: Traffic, ops: seq<Op>, capacity: nat, t': Traffic)
    decreases |ops|
  {
    if ops == [] then t == t'
    else
      && Sized(t.held) && Sendable(ops[0])
      && IsRun(Step(t, ops[0], capacity), ops[1..], capacity, t')
  }

  /** Messages come out whole, in the order they were accepted, each once, behind those held at
      first; and the buffer never holds more than it can. */
  lemma {:induction false} MessagesAreFifo(
      first: seq<seq<byte>>, t: Traffic, ops: seq<Op>, capacity: nat, t': Traffic)
    requires Sized(t.held) && first + t.accepted == t.delivered + t.held && |Frames(t.held)| <= capacity
    requires IsRun(t, ops, capacity, t')
    ensures Sized(t'.held) && first + t'.accepted == t'.delivered + t'.held && |Frames(t'.held)| <= capacity
    decreases |ops|
  {
    if ops != [] {
      var next := Step(t, ops[0], capacity);
      if next != t {
        if ops[0].SendMessage? {
          FramesAppend(t.held, ops[0].m);
          Regroup(first, t.accepted, [ops[0].m]);
          Regroup(t.delivered, t.held, [ops[0].m]);
        } else {
          FramesHead(t.held);
          assert t.held == [t.held[0]] + t.held[1..];
          Regroup(t.delivered, [t.held[0]], t.held[1..]);
        }
      }
      MessagesAreFifo(first, next, ops[1..], capacity, t');
    }
  }

  /** A step adds to what has been accepted and delivered. */
  lemma StepAdds(t: Traffic, op: Op, capacity: nat)
    requires Sized(t.held)
    ensures var one, r := Step(Traffic(t.held, [], []), op, capacity), Step(t, op, capacity);
      r.held == one.held && r.accepted == t.accepted + one.accepted && r.delivered == t.delivered + one.delivered
  {
  }

  /** One call on a message buffer: what it accepted and what it delivered, if anything. */
  method Perform(b: StreamBuffer, op: Op) returns (accepted: seq<seq<byte>>, delivered: seq<seq<byte>>)
    requires b.Valid() && b.isMessageBuffer && Sendable(op)
    modifies b, b.buffer
    ensures b.Valid() && Sized(old(b.messages))
    ensures Traffic(b.messages, accepted, delivered) == Step(Traffic(old(b.messages), [], []), op, b.length - 1)
  {
    accepted, delivered := [], [];
    match op {
      case SendMessage(m) =>
        var count, _ := b.Send(m);
        if count > 0 {
          accepted := [m];
        }
      case ReceiveMessage(max) =>
        var data, _ := b.Receive(max);
        if data != [] {
          delivered := [data];
        }
    }
  }

  /** Over every sequence of sends and receives on a message buffer, what the sends accepted is,
      behind what it held before, what the receives returned followed by what it holds. */
  method PerformAll(b: StreamBuffer, ops: seq<Op>) returns (accepted: seq<seq<byte>>, delivered: seq<seq<byte>>)
    requires b.Valid() && b.isMessageBuffer && forall op :: op in ops ==> Sendable(op)
    modifies b, b.buffer
    ensures b.Valid()
    ensures IsRun(Traffic(old(b.messages), [], []), ops, b.length - 1, Traffic(b.messages, accepted, delivered))
    ensures old(b.messages) + accepted == delivered + b.messages
  {
    accepted, delivered := [], [];
    var i := 0;
    ghost var first := Traffic(b.messages, [], []);
    assert ops[..0] == [];
    while i < |ops|
      invariant i <= |ops| && b.Valid()
      invariant IsRun(first, ops[..i], b.length - 1, Traffic(b.messages, accepted, delivered))
    {
      ghost var before := Traffic(b.messages, accepted, delivered);
      var more, out := Perform(b, ops[i]);
      StepAdds(before, ops[i], b.length - 1);
      RunSnoc(first, ops[..i], b.length - 1, before, ops[i]);
      assert ops[..i + 1] == ops[..i] + [ops[i]];
      accepted, delivered := accepted + more, delivered + out;
      i := i + 1;
    }
    assert ops[..i] == ops;
    MessagesAreFifo(first.held, first, ops, b.length - 1, Traffic(b.messages, accepted, delivered));
  }

  lemma {:induction false} RunSnoc(t: Traffic, ops: seq<Op>, capacity: nat, t': Traffic, op: Op)
    requires IsRun(t, ops, capacity, t') && Sized(t'.held) && Sendable(op)
    ensures IsRun(t, ops + [op], capacity, Step(t', op, capacity))
    decreases |ops|
  {
    var more := ops + [op];
    if ops == [] {
      assert more[0] == op && more[1..] == [];
    } else {
      assert more[0] == ops[0] && more[1..] == ops[1..] + [op];
      RunSnoc(Step(t, ops[0], capacity), ops[1..], capacity, t', op);
    }
  }

  // ----- where the 32-bit length matters -----

  /** The check a message send makes, and what it is meant to establish. */
  predicate PassesCheck(n: nat, space: nat) {
    MessageSpace(n) <= space
  }

  predicate HasSpaceFor(n: nat, space: nat) {
    n + PREFIX <= space
  }

  /** The space check of a message send means what it says, for every amount of free space,
      exactly when the message and its prefix fit in 32 bits: a longer request wraps to
      almost nothing and would pass. */
  lemma SpaceCheckIsExact(n: nat)
    requires n < WORD
    ensures (forall space: nat :: space < WORD / 2 ==> (PassesCheck(n, space) <==> HasSpaceFor(n, space)))
            <==> n + PREFIX < WORD
  {
    if n + PREFIX >= WORD {
      assert PassesCheck(n, PREFIX) && !HasSpaceFor(n, PREFIX);
    }
  }
}
