/** Packet buffers (flow/Net2Packet.cpp): a writer that fills a chain of
    fixed-size buffers, a reserved region that may straddle two buffers, and
    the queue of buffers still to be sent. A chain is a sequence of byte
    sequences; a pointer into it is an offset into the chain laid end to end. */
module Packet {
  import opened Base

  /** PacketBuffer::DATA_SIZE, the payload of one buffer. */
  const DATA_SIZE: nat := 4068

  // ---------------------------------------------------------------------------
  // PacketWriter

  /** The buffers the writer has left behind, the one it is filling
      (bytes_written is its length), and `length`. */
  datatype PacketWriter = PacketWriter(done: seq<Bytes>, current: Bytes, length: int)

  /** Everything in the chain, in order. */
  function Contents(w: PacketWriter): Bytes {
    Flatten(w.done) + w.current
  }

  /** The current buffer is within DATA_SIZE and every buffer left behind is full. */
  predicate Valid(w: PacketWriter) {
    |w.current| <= DATA_SIZE && forall i :: 0 <= i < |w.done| ==> |w.done[i]| == DATA_SIZE
  }

  /** `length` counts the bytes of the left-behind buffers, less `base`, the
      bytes the first buffer already held when init was called. */
  predicate Accounts(w: PacketWriter, base: int) {
    w.length == |Flatten(w.done)| - base
  }

  /** What `length` leaves out of the left-behind buffers; each writer
      operation keeps it, so `length` follows the bytes written. */
  function Unaccounted(w: PacketWriter): int {
    |Flatten(w.done)| - w.length
  }

  /** init: start on a buffer that already holds some bytes; length starts
      at minus those bytes. */
  function Init(buf: Bytes): (w: PacketWriter)
    requires |buf| <= DATA_SIZE
    ensures Valid(w) && Contents(w) == buf && Accounts(w, |buf|)
    ensures w.length == -|buf|
  {
    PacketWriter([], buf, -|buf|)
  }

  /** finish: length gains the current buffer's bytes, so it is everything
      written since init. */
  function Finish(w: PacketWriter, base: int): (length: int)
    requires Accounts(w, base)
    ensures length == |Contents(w)| - base
  {
    w.length + |w.current|
  }

  /** nextBuffer: the full buffer is left behind and writing moves to a
      fresh, empty one; length gains DATA_SIZE. */
  function NextBuffer(w: PacketWriter): (r: PacketWriter)
    requires Valid(w) && |w.current| == DATA_SIZE
    ensures Valid(r) && Contents(r) == Contents(w)
    ensures r.current == [] && r.done == w.done + [w.current]
    ensures r.length == w.length + DATA_SIZE
    ensures Unaccounted(r) == Unaccounted(w)
  {
    FlattenSnoc(w.done, w.current);
    PacketWriter(w.done + [w.current], [], w.length + DATA_SIZE)
  }

  function Min(a: int, b: int): int {
    if a <= b then a else b
  }

  /** serializeBytesAcrossBoundary: the bytes are appended to the chain,
      filling the current buffer and moving on whenever it is full. The
      buffers already left behind stay as they were, all of them full. */
  function SerializeBytesAcrossBoundary(w: PacketWriter, data: Bytes): (r: PacketWriter)
    requires Valid(w)
    ensures Valid(r) && Contents(r) == Contents(w) + data
    ensures |r.done| >= |w.done| && r.done[..|w.done|] == w.done
    ensures Unaccounted(r) == Unaccounted(w)
    decreases |data|, if |w.current| == DATA_SIZE then 1 else 0
  {
    var b := Min(|data|, DATA_SIZE - |w.current|);
    var w1 := w.(current := w.current + data[..b]);
    AppendToCurrent(w, data[..b]);
    if b == |data| then
      TakeAll(data);
      w1
    else
      var w2 := NextBuffer(w1);
      var r := SerializeBytesAcrossBoundary(w2, data[b..]);
      AppendInTwo(Contents(w), data, b);
      PrefixThroughExtension(r.done, w.done, w1.current);
      r
  }

  lemma PrefixThroughExtension<T>(r: seq<T>, a: seq<T>, x: T)
    requires |r| >= |a| + 1 && r[..|a| + 1] == a + [x]
    ensures r[..|a|] == a
  {
    assert r[..|a|] == r[..|a| + 1][..|a|];
  }

  lemma AppendToCurrent(w: PacketWriter, d: Bytes)
    ensures Contents(w.(current := w.current + d)) == Contents(w) + d
  {
  }

  /** Several writes through the same writer, one after the other. */
  function WriteAll(w: PacketWriter, chunks: seq<Bytes>): (r: PacketWriter)
    requires Valid(w)
    ensures Valid(r)
    decreases |chunks|
  {
    if |chunks| == 0 then w else WriteAll(SerializeBytesAcrossBoundary(w, chunks[0]), chunks[1..])
  }

  /** Between init and finish, length ends up as the number of bytes written
      through the writer, and the chain holds the first buffer's old bytes
      followed by everything written. */
  lemma {:induction false} InitWriteFinish(buf: Bytes, chunks: seq<Bytes>)
    requires |buf| <= DATA_SIZE
    ensures var w := WriteAll(Init(buf), chunks);
      Accounts(w, |buf|) && Finish(w, |buf|) == |Flatten(chunks)| && Contents(w) == buf + Flatten(chunks)
  {
    WriteAllAppends(Init(buf), chunks, |buf|);
  }

  lemma {:induction false} WriteAllAppends(w: PacketWriter, chunks: seq<Bytes>, base: int)
    requires Valid(w) && Accounts(w, base)
    ensures var r := WriteAll(w, chunks); Accounts(r, base) && Contents(r) == Contents(w) + Flatten(chunks)
    decreases |chunks|
  {
    if |chunks| > 0 {
      var w1 := SerializeBytesAcrossBoundary(w, chunks[0]);
      WriteAllAppends(w1, chunks[1..], base);
      FlattenCons(chunks[0], chunks[1..]);
      ConsTail(chunks);
      ConcatAssoc(Contents(w), chunks[0], Flatten(chunks[1..]));
    }
  }

  // ---------------------------------------------------------------------------
  // SplitBuffer and writeAhead

  /** A reserved region: `firstLength` bytes from `begin`, then, when `next`
      is not null, `secondLength` bytes from `next`. Positions are offsets
      into the chain's contents. The source keeps no second length: it is the
      part of the next buffer writeAhead reserved, which callers stay within. */
  datatype SplitBuffer = SplitBuffer(begin: nat, firstLength: nat, next: Option<nat>, secondLength: nat)

  /** The two segments lie inside the memory, the second after the first. */
  predicate WellFormed(mem: Bytes, sb: SplitBuffer) {
    sb.begin + sb.firstLength <= |mem|
    && (sb.next.None? ==> sb.secondLength == 0)
    && (sb.next.Some? ==> sb.begin + sb.firstLength <= sb.next.value && sb.next.value + sb.secondLength <= |mem|)
  }

  /** The region as one logical run of bytes. */
  function Window(mem: Bytes, sb: SplitBuffer): (win: Bytes)
    requires WellFormed(mem, sb)
    ensures |win| == sb.firstLength + sb.secondLength
  {
    mem[sb.begin..sb.begin + sb.firstLength]
      + (if sb.next.Some? then mem[sb.next.value..sb.next.value + sb.secondLength] else [])
  }

  /** Whether a position of memory belongs to the region. */
  predicate InRegion(sb: SplitBuffer, i: int) {
    (sb.begin <= i < sb.begin + sb.firstLength)
    || (sb.next.Some? && sb.next.value <= i < sb.next.value + sb.secondLength)
  }

  /** memcpy of `data` to position `at`. */
  function Overwrite(mem: Bytes, at: nat, data: Bytes): (r: Bytes)
    requires at + |data| <= |mem|
    ensures |r| == |mem|
    ensures forall i :: 0 <= i < |mem| ==> r[i] == if at <= i < at + |data| then data[i - at] else mem[i]
  {
    mem[..at] + data + mem[at + |data|..]
  }

  /** SplitBuffer::write(data, len, offset): the three cases of the source. */
  function SplitWrite(mem: Bytes, sb: SplitBuffer, data: Bytes, offset: nat): (r: Bytes)
    requires WellFormed(mem, sb) && offset + |data| <= sb.firstLength + sb.secondLength
    ensures |r| == |mem|
  {
    var len := |data|;
    if len + offset <= sb.firstLength then Overwrite(mem, sb.begin + offset, data)
    else if offset >= sb.firstLength then Overwrite(mem, sb.next.value + offset - sb.firstLength, data)
    else
      var m1 := Overwrite(mem, sb.begin + offset, data[..sb.firstLength - offset]);
      Overwrite(m1, sb.next.value, data[sb.firstLength - offset..])
  }

  /** write overwrites positions [offset, offset + len) of the region, read as
      one run, and changes nothing outside it. */
  lemma SplitWriteIsWindowWrite(mem: Bytes, sb: SplitBuffer, data: Bytes, offset: nat)
    requires WellFormed(mem, sb) && offset + |data| <= sb.firstLength + sb.secondLength
    ensures var r := SplitWrite(mem, sb, data, offset);
      WellFormed(r, sb)
      && Window(r, sb) == Window(mem, sb)[..offset] + data + Window(mem, sb)[offset + |data|..]
      && forall i :: 0 <= i < |mem| && !InRegion(sb, i) ==> r[i] == mem[i]
  {
    var r := SplitWrite(mem, sb, data, offset);
    var before := Window(mem, sb);
    var after := Window(r, sb);
    var expected := before[..offset] + data + before[offset + |data|..];
    forall k | 0 <= k < |after|
      ensures after[k] == expected[k]
    {
      WindowAt(mem, sb, k);
      WindowAt(r, sb, k);
      SplitWriteAt(mem, sb, data, offset, Address(sb, k));
    }
    forall i | 0 <= i < |mem| && !InRegion(sb, i)
      ensures r[i] == mem[i]
    {
      SplitWriteAt(mem, sb, data, offset, i);
    }
  }

  /** Where the k-th byte of the region lives in memory. */
  function Address(sb: SplitBuffer, k: nat): nat
    requires k < sb.firstLength || sb.next.Some?
  {
    if k < sb.firstLength then sb.begin + k else sb.next.value + k - sb.firstLength
  }

  lemma WindowAt(mem: Bytes, sb: SplitBuffer, k: nat)
    requires WellFormed(mem, sb) && k < sb.firstLength + sb.secondLength
    ensures k < sb.firstLength || sb.next.Some?
    ensures Address(sb, k) < |mem| && InRegion(sb, Address(sb, k))
    ensures Window(mem, sb)[k] == mem[Address(sb, k)]
  {
  }

  /** One position of memory after write: the region's k-th byte for k in
      [offset, offset + len) holds data[k - offset], every other byte is
      unchanged. */
  lemma SplitWriteAt(mem: Bytes, sb: SplitBuffer, data: Bytes, offset: nat, i: nat)
    requires WellFormed(mem, sb) && offset + |data| <= sb.firstLength + sb.secondLength
    requires i < |mem|
    ensures var r := SplitWrite(mem, sb, data, offset);
      if sb.begin + offset <= i < sb.begin + sb.firstLength && i < sb.begin + offset + |data| then
        r[i] == data[i - sb.begin - offset]
      else if sb.next.Some? && sb.next.value <= i < sb.next.value + sb.secondLength
              && offset <= i - sb.next.value + sb.firstLength < offset + |data| then
        r[i] == data[i - sb.next.value + sb.firstLength - offset]
      else r[i] == mem[i]
  {
  }

  /** The region without its first `len` positions: begin moves on within
      the first segment, or, past it, the first segment empties and next
      moves on. */
  function Shrink(sb: SplitBuffer, len: nat): SplitBuffer
    requires len <= sb.firstLength || (sb.next.Some? && len <= sb.firstLength + sb.secondLength)
  {
    if len <= sb.firstLength then sb.(begin := sb.begin + len, firstLength := sb.firstLength - len)
    else
      var s := len - sb.firstLength;
      sb.(firstLength := 0, next := Some(sb.next.value + s), secondLength := sb.secondLength - s)
  }

  /** SplitBuffer::writeAndShrink: the data goes to the front of the region,
      and the region gives up what was written. */
  function WriteAndShrink(mem: Bytes, sb: SplitBuffer, data: Bytes): (r: (Bytes, SplitBuffer))
    requires WellFormed(mem, sb) && |data| <= sb.firstLength + sb.secondLength
    ensures |r.0| == |mem|
  {
    var len := |data|;
    if len <= sb.firstLength then (Overwrite(mem, sb.begin, data), Shrink(sb, len))
    else
      var m1 := Overwrite(mem, sb.begin, data[..sb.firstLength]);
      (Overwrite(m1, sb.next.value, data[sb.firstLength..]), Shrink(sb, len))
  }

  /** Shrinking by len leaves the rest of the same run of bytes. */
  lemma ShrinkDropsFront(mem: Bytes, sb: SplitBuffer, len: nat)
    requires WellFormed(mem, sb) && len <= sb.firstLength + sb.secondLength
    ensures WellFormed(mem, Shrink(sb, len)) && Window(mem, Shrink(sb, len)) == Window(mem, sb)[len..]
  {
    var before := Window(mem, sb);
    var rest := Window(mem, Shrink(sb, len));
    forall k | 0 <= k < |rest|
      ensures rest[k] == before[len + k]
    {
      WindowAt(mem, Shrink(sb, len), k);
      WindowAt(mem, sb, len + k);
    }
  }

  /** writeAndShrink fills the first len positions of the region and leaves
      the rest of it as the new region; nothing outside the region changes. */
  lemma WriteAndShrinkFillsFront(mem: Bytes, sb: SplitBuffer, data: Bytes)
    requires WellFormed(mem, sb) && |data| <= sb.firstLength + sb.secondLength
    ensures var r := WriteAndShrink(mem, sb, data);
      WellFormed(r.0, sb) && WellFormed(r.0, r.1)
      && Window(r.0, sb) == data + Window(mem, sb)[|data|..]
      && Window(r.0, r.1) == Window(mem, sb)[|data|..]
      && forall i :: 0 <= i < |mem| && !InRegion(sb, i) ==> r.0[i] == mem[i]
  {
    var r := WriteAndShrink(mem, sb, data);
    WriteAndShrinkWrites(mem, sb, data);
    SplitWriteIsWindowWrite(mem, sb, data, 0);
    EmptyPrefix(Window(mem, sb), data);
    ShrinkDropsFront(r.0, sb, |data|);
  }

  /** writeAndShrink writes exactly what write does at offset 0. */
  lemma WriteAndShrinkWrites(mem: Bytes, sb: SplitBuffer, data: Bytes)
    requires WellFormed(mem, sb) && |data| <= sb.firstLength + sb.secondLength
    ensures WriteAndShrink(mem, sb, data).0 == SplitWrite(mem, sb, data, 0)
  {
    if sb.firstLength == 0 < |data| {
      var m1 := Overwrite(mem, sb.begin, data[..0]);
      assert m1 == mem;
      assert data[0..] == data;
    }
  }

  lemma EmptyPrefix<T>(a: seq<T>, d: seq<T>)
    requires |d| <= |a|
    ensures a[..0] + d + a[|d|..] == d + a[|d|..]
  {
  }

  function Zeros(n: nat): (z: Bytes)
    ensures |z| == n
  {
    seq(n, _ => 0)
  }

  /** writeAhead: reserve `bytes` at the end of the chain. If they fit in the
      current buffer the region is one segment; otherwise the rest of the
      current buffer is the first segment and the remainder starts a new
      buffer. The reserved bytes' contents are left unspecified (zeros here). */
  function WriteAhead(w: PacketWriter, bytes: nat): (r: (PacketWriter, SplitBuffer))
    requires Valid(w)
    ensures var (w2, sb) := r;
      |Contents(w2)| == |Contents(w)| + bytes
      && Contents(w2)[..|Contents(w)|] == Contents(w)
      && WellFormed(Contents(w2), sb)
      && sb.begin == |Contents(w)| && sb.firstLength + sb.secondLength == bytes
      && Window(Contents(w2), sb) == Contents(w2)[|Contents(w)|..]
      && (sb.next.None? <==> bytes <= DATA_SIZE - |w.current|)
      && (sb.next.Some? ==> sb.firstLength == DATA_SIZE - |w.current|)
      && (Valid(w2) <==> bytes <= 2 * DATA_SIZE - |w.current|)
      && Unaccounted(w2) == Unaccounted(w)
  {
    var c := Contents(w);
    if bytes <= DATA_SIZE - |w.current| then
      var w2 := w.(current := w.current + Zeros(bytes));
      var sb := SplitBuffer(|c|, bytes, None, 0);
      WriteAheadOneSegment(w, bytes);
      (w2, sb)
    else
      var first := DATA_SIZE - |w.current|;
      var w2 := NextBuffer(w.(current := w.current + Zeros(first))).(current := Zeros(bytes - first));
      var sb := SplitBuffer(|c|, first, Some(|c| + first), bytes - first);
      WriteAheadTwoSegments(w, bytes);
      (w2, sb)
  }

  /** What writeAhead promises of the writer `w2` and region `sb` it returns
      for a reservation of `bytes` on `w`. */
  predicate Reserved(w: PacketWriter, bytes: nat, w2: PacketWriter, sb: SplitBuffer)
    requires Valid(w)
  {
    |Contents(w2)| == |Contents(w)| + bytes
    && Contents(w2)[..|Contents(w)|] == Contents(w)
    && WellFormed(Contents(w2), sb)
    && sb.begin == |Contents(w)| && sb.firstLength + sb.secondLength == bytes
    && Window(Contents(w2), sb) == Contents(w2)[|Contents(w)|..]
    && (sb.next.None? <==> bytes <= DATA_SIZE - |w.current|)
    && (sb.next.Some? ==> sb.firstLength == DATA_SIZE - |w.current|)
    && (Valid(w2) <==> bytes <= 2 * DATA_SIZE - |w.current|)
    && Unaccounted(w2) == Unaccounted(w)
  }

  lemma WriteAheadOneSegment(w: PacketWriter, bytes: nat)
    requires Valid(w) && bytes <= DATA_SIZE - |w.current|
    ensures Reserved(w, bytes, w.(current := w.current + Zeros(bytes)), SplitBuffer(|Contents(w)|, bytes, None, 0))
  {
    var c := Contents(w);
    var w2 := w.(current := w.current + Zeros(bytes));
    assert Contents(w2) == c + Zeros(bytes);
  }

  lemma WriteAheadTwoSegments(w: PacketWriter, bytes: nat)
    requires Valid(w) && bytes > DATA_SIZE - |w.current|
    ensures var first := DATA_SIZE - |w.current|;
      Reserved(w, bytes, NextBuffer(w.(current := w.current + Zeros(first))).(current := Zeros(bytes - first)),
               SplitBuffer(|Contents(w)|, first, Some(|Contents(w)| + first), bytes - first))
  {
    var c := Contents(w);
    var first := DATA_SIZE - |w.current|;
    var full := w.(current := w.current + Zeros(first));
    var w2 := NextBuffer(full).(current := Zeros(bytes - first));
    assert Contents(full) == c + Zeros(first);
    assert Contents(w2) == c + Zeros(first) + Zeros(bytes - first);
  }

  // ---------------------------------------------------------------------------
  // UnsentPacketQueue

  /** A queued buffer's bytes_written and bytes_sent. */
  datatype QueuedBuffer = QueuedBuffer(bytesWritten: nat, bytesSent: nat)

  /** The queue from unsent_first on, and whether unsent_last is set. */
  datatype UnsentQueue = UnsentQueue(buffers: seq<QueuedBuffer>, hasLast: bool)

  predicate QueueValid(q: UnsentQueue) {
    (q.hasLast <==> |q.buffers| > 0)
    && forall i :: 0 <= i < |q.buffers| ==> q.buffers[i].bytesSent <= q.buffers[i].bytesWritten <= DATA_SIZE
  }

  /** Bytes written but not yet sent. */
  function Unsent(bs: seq<QueuedBuffer>): int
    decreases |bs|
  {
    if |bs| == 0 then 0 else bs[0].bytesWritten - bs[0].bytesSent + Unsent(bs[1..])
  }

  datatype PacketError = AssertionFailed  // ASSERT(unsent_first) on an exhausted queue

  /** UnsentPacketQueue::sent: `bytes` more have gone out. A buffer that ends
      up entirely sent is dropped, unless it is the last one and still has
      room for more; the head buffer otherwise just advances bytes_sent. */
  function Sent(q: UnsentQueue, bytes: nat): (r: Result<UnsentQueue, PacketError>)
    requires QueueValid(q)
    ensures r.Err? <==> bytes > Unsent(q.buffers)
    ensures r.Ok? ==> QueueValid(r.value) && Unsent(r.value.buffers) == Unsent(q.buffers) - bytes
    ensures r.Ok? ==> |r.value.buffers| <= |q.buffers|
    ensures r.Ok? && |r.value.buffers| > 0 ==>
      (r.value.buffers[1..] == q.buffers[|q.buffers| - |r.value.buffers| + 1..])
    ensures r.Ok? && |r.value.buffers| == |q.buffers| > 0 ==>
      (r.value.buffers[0] == q.buffers[0].(bytesSent := q.buffers[0].bytesSent + bytes))
    ensures r.Ok? && |q.buffers| == 1 && q.buffers[0].bytesWritten < DATA_SIZE ==> |r.value.buffers| == 1
    decreases |q.buffers|
  {
    UnsentNonNegative(q.buffers);
    if bytes == 0 then Ok(q)
    else if |q.buffers| == 0 then Err(AssertionFailed)
    else
      var b := q.buffers[0];
      if KeepsHead(q, bytes) then
        AdvanceHead(q, bytes);
        Ok(UnsentQueue([b.(bytesSent := b.bytesSent + bytes)] + q.buffers[1..], q.hasLast))
      else
        DropHead(q);
        var rest := q.buffers[1..];
        Sent(UnsentQueue(rest, if |rest| == 0 then false else q.hasLast), bytes - (b.bytesWritten - b.bytesSent))
  }

  /** After a send the head is the first buffer that was not dropped: the
      dropped buffers' unsent bytes all went out, and the rest of `bytes`
      advanced the new head's bytes_sent. */
  lemma {:induction false} SentNewHead(q: UnsentQueue, bytes: nat, r: UnsentQueue)
    requires QueueValid(q) && Sent(q, bytes) == Ok(r) && 0 < |r.buffers|
    ensures var k := |q.buffers| - |r.buffers|;
      Unsent(q.buffers[..k]) <= bytes
      && r.buffers[0] == q.buffers[k].(bytesSent := q.buffers[k].bytesSent + bytes - Unsent(q.buffers[..k]))
    decreases |q.buffers|, 1
  {
    if bytes == 0 {
      assert Sent(q, bytes) == Ok(q);
      NothingBeforeHead(q.buffers);
    } else {
      var b := q.buffers[0];
      if KeepsHead(q, bytes) {
        assert Sent(q, bytes) == Ok(UnsentQueue([b.(bytesSent := b.bytesSent + bytes)] + q.buffers[1..], q.hasLast));
        NothingBeforeHead(q.buffers);
      } else {
        DroppedHeadNewHead(q, bytes, r);
      }
    }
  }

  /** The head buffer stays: it still has unsent bytes after this send, or
      it is the last buffer and has room for more. */
  predicate KeepsHead(q: UnsentQueue, bytes: nat)
    requires |q.buffers| > 0
  {
    var b := q.buffers[0];
    b.bytesSent + bytes <= b.bytesWritten
    && (b.bytesSent + bytes != b.bytesWritten || (|q.buffers| <= 1 && DATA_SIZE - b.bytesWritten > 0))
  }

  /** SentNewHead for a send that drops the head buffer. */
  lemma {:induction false} DroppedHeadNewHead(q: UnsentQueue, bytes: nat, r: UnsentQueue)
    requires QueueValid(q) && bytes > 0 && |q.buffers| > 0 && !KeepsHead(q, bytes)
    requires Sent(q, bytes) == Ok(r) && 0 < |r.buffers|
    ensures var k := |q.buffers| - |r.buffers|;
      Unsent(q.buffers[..k]) <= bytes
      && r.buffers[0] == q.buffers[k].(bytesSent := q.buffers[k].bytesSent + bytes - Unsent(q.buffers[..k]))
    decreases |q.buffers|, 0
  {
    var b := q.buffers[0];
    var rest := q.buffers[1..];
    var d := bytes - (b.bytesWritten - b.bytesSent);
    SentDropsHead(q, bytes);
    SentNewHead(UnsentQueue(rest, if |rest| == 0 then false else q.hasLast), d, r);
    NewHeadBehindDropped(q.buffers, bytes, |r.buffers|, r.buffers[0]);
  }

  /** A send that does not keep the head is the send of what remains to the
      rest of the queue. */
  lemma SentDropsHead(q: UnsentQueue, bytes: nat)
    requires QueueValid(q) && bytes > 0 && |q.buffers| > 0 && !KeepsHead(q, bytes)
    ensures var rest := q.buffers[1..];
      var q' := UnsentQueue(rest, if |rest| == 0 then false else q.hasLast);
      QueueValid(q')
      && Sent(q, bytes) == Sent(q', bytes - (q.buffers[0].bytesWritten - q.buffers[0].bytesSent))
  {
    DropHead(q);
  }

  /** An empty prefix has nothing unsent. */
  lemma NothingBeforeHead(bs: seq<QueuedBuffer>)
    ensures Unsent(bs[..0]) == 0
  {
    assert bs[..0] == [];
  }

  /** Dropping the head buffer moves the new head of the rest one place back
      in the whole queue, with the head's unsent bytes counted as sent. */
  lemma NewHeadBehindDropped(bs: seq<QueuedBuffer>, bytes: nat, m: nat, head: QueuedBuffer)
    requires 0 < m < |bs| && bs[0].bytesSent <= bs[0].bytesWritten
    requires bs[0].bytesWritten - bs[0].bytesSent <= bytes
    requires var rest, d := bs[1..], bytes - (bs[0].bytesWritten - bs[0].bytesSent);
      var k := |rest| - m;
      Unsent(rest[..k]) <= d
      && head == rest[k].(bytesSent := rest[k].bytesSent + d - Unsent(rest[..k]))
    ensures var k := |bs| - m;
      Unsent(bs[..k]) <= bytes
      && head == bs[k].(bytesSent := bs[k].bytesSent + bytes - Unsent(bs[..k]))
  {
    var k := |bs| - m;
    assert bs[..k][1..] == bs[1..][..k - 1];
    assert bs[1..][k - 1] == bs[k];
  }

  /** Sending part of the head buffer leaves the rest of the queue alone. */
  lemma AdvanceHead(q: UnsentQueue, bytes: nat)
    requires QueueValid(q) && |q.buffers| > 0
    requires q.buffers[0].bytesSent + bytes <= q.buffers[0].bytesWritten
    ensures var bs := [q.buffers[0].(bytesSent := q.buffers[0].bytesSent + bytes)] + q.buffers[1..];
      QueueValid(UnsentQueue(bs, q.hasLast)) && Unsent(bs) == Unsent(q.buffers) - bytes >= 0
      && |bs| == |q.buffers| && bs[1..] == q.buffers[1..]
  {
    var bs := [q.buffers[0].(bytesSent := q.buffers[0].bytesSent + bytes)] + q.buffers[1..];
    assert bs[1..] == q.buffers[1..];
    UnsentNonNegative(bs);
  }

  /** Dropping the head buffer: what it still held leaves the count, and
      every suffix of the rest is a suffix of the whole. */
  lemma DropHead(q: UnsentQueue)
    requires QueueValid(q) && |q.buffers| > 0
    ensures var rest := q.buffers[1..];
      QueueValid(UnsentQueue(rest, if |rest| == 0 then false else q.hasLast))
      && Unsent(q.buffers) == q.buffers[0].bytesWritten - q.buffers[0].bytesSent + Unsent(rest)
      && forall k :: 0 <= k <= |rest| ==> rest[k..] == q.buffers[k + 1..]
  {
    UnsentNonNegative(q.buffers[1..]);
  }

  lemma {:induction false} UnsentNonNegative(bs: seq<QueuedBuffer>)
    requires forall i :: 0 <= i < |bs| ==> bs[i].bytesSent <= bs[i].bytesWritten
    ensures Unsent(bs) >= 0
    decreases |bs|
  {
    if |bs| > 0 {
      UnsentNonNegative(bs[1..]);
    }
  }

  /** discardAll: both ends of the queue are null. */
  function DiscardAll(q: UnsentQueue): (r: UnsentQueue)
    ensures QueueValid(r) && Unsent(r.buffers) == 0
    ensures r.buffers == [] && !r.hasLast
  {
    UnsentQueue([], false)
  }

  /** After discardAll nothing is left to send: reporting zero bytes sent
      succeeds and changes nothing, and reporting any positive number fails. */
  lemma SentAfterDiscard(q: UnsentQueue, bytes: nat)
    ensures Sent(DiscardAll(q), bytes).Ok? <==> bytes == 0
    ensures bytes == 0 ==> Sent(DiscardAll(q), bytes) == Ok(DiscardAll(q))
  {
  }
}
