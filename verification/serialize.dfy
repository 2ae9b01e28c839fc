/** The bounds-checked binary reader and the protocol-version guard
    (flow/serialize.cpp). The reader is a cursor over a byte buffer; an
    assertion that fails in simulation is kept apart from the ordinary
    serialization error it replaces there. */
module Serialize {
  import opened Base

  datatype SerializeError =
    | SerializationFailed  // serialization_failed()
    | InternalError        // ASSERT(!g_network->isSimulated()) failing in simulation

  /** The error a failed check raises: in simulation the assertion before the
      throw fires first. */
  function CheckFailure(isSimulated: bool): SerializeError {
    if isSimulated then InternalError else SerializationFailed
  }

  /** _AssumeVersion: a version older than the oldest valid protocol is rejected. */
  function AssumeVersion(version: uint64, minValidProtocolVersion: uint64, isSimulated: bool): (r: Result<uint64, SerializeError>)
    ensures r.Err? <==> version < minValidProtocolVersion
    ensures r.Ok? ==> r.value == version
    ensures r.Err? ==> r.error == (if isSimulated then InternalError else SerializationFailed)
  {
    if version < minValidProtocolVersion then Err(CheckFailure(isSimulated)) else Ok(version)
  }

  /** The versions the guard lets through are exactly those from the oldest
      valid protocol on: that version itself passes, any later version passes
      unchanged once an earlier one has, and every refusal raises the same
      error as a failed read in the same environment, whatever the version. */
  lemma AcceptedVersionsUpwardClosed(v: uint64, w: uint64, minValidProtocolVersion: uint64, isSimulated: bool)
    ensures AssumeVersion(minValidProtocolVersion, minValidProtocolVersion, isSimulated) == Ok(minValidProtocolVersion)
    ensures AssumeVersion(v, minValidProtocolVersion, isSimulated).Ok? && v <= w ==>
      AssumeVersion(w, minValidProtocolVersion, isSimulated) == Ok(w)
    ensures AssumeVersion(w, minValidProtocolVersion, isSimulated).Err? && v <= w ==>
      AssumeVersion(v, minValidProtocolVersion, isSimulated) == AssumeVersion(w, minValidProtocolVersion, isSimulated)
    ensures AssumeVersion(v, minValidProtocolVersion, isSimulated).Err? ==>
      AssumeVersion(v, minValidProtocolVersion, isSimulated).error
        == ReadBytes(BinaryReader([], 0), 1, isSimulated).error
  {
  }

  /** The buffer read from and the position of `begin` in it; `end` is the
      buffer's end. */
  datatype BinaryReader = BinaryReader(data: Bytes, cursor: nat)

  predicate Valid(r: BinaryReader) {
    r.cursor <= |r.data|
  }

  /** What a successful read hands back: the reader moved on and where the
      bytes read start. */
  datatype Read = Read(reader: BinaryReader, start: nat)

  /** readBytes: the bytes start at the old cursor, and the cursor moves by
      exactly `bytes`; a read that would pass the end fails and leaves the
      reader as it was. `bytes` is a signed count, so it may move the cursor
      back, but not before the start of the buffer. */
  function ReadBytes(r: BinaryReader, bytes: int, isSimulated: bool): (res: Result<Read, SerializeError>)
    requires Valid(r) && r.cursor + bytes >= 0
    ensures res.Err? <==> r.cursor + bytes > |r.data|
    ensures res.Err? ==> res.error == CheckFailure(isSimulated)
    ensures res.Ok? ==> res.value.start == r.cursor
    ensures res.Ok? ==> res.value.reader == r.(cursor := r.cursor + bytes) && Valid(res.value.reader)
  {
    var e := r.cursor + bytes;
    if e > |r.data| then Err(CheckFailure(isSimulated))
    else Ok(Read(BinaryReader(r.data, e), r.cursor))
  }

  function Sum(counts: seq<nat>): nat
    decreases |counts|
  {
    if |counts| == 0 then 0 else counts[0] + Sum(counts[1..])
  }

  /** A run of reads, one per count, stopping at the first failure: the
      reader afterwards and the slices the reads returned. */
  function ReadAll(r: BinaryReader, counts: seq<nat>, isSimulated: bool): (res: Result<(BinaryReader, seq<Bytes>), SerializeError>)
    requires Valid(r)
    ensures res.Ok? ==> |res.value.1| == |counts|
    decreases |counts|
  {
    if |counts| == 0 then Ok((r, []))
    else
      match ReadBytes(r, counts[0], isSimulated)
      case Err(e) => Err(e)
      case Ok(read) =>
        var piece := r.data[read.start..read.reader.cursor];
        match ReadAll(read.reader, counts[1..], isSimulated)
        case Err(e) => Err(e)
        case Ok(rest) => Ok((rest.0, [piece] + rest.1))
  }

  /** Successive reads return contiguous, non-overlapping slices: together
      they are exactly the bytes between the first cursor and the last, each
      as long as asked; the run fails exactly when the counts add up to more
      than is left, and the cursor never passes the end. */
  lemma ReadsAreContiguous(r: BinaryReader, counts: seq<nat>, isSimulated: bool)
    requires Valid(r)
    ensures var res := ReadAll(r, counts, isSimulated);
      (res.Err? <==> r.cursor + Sum(counts) > |r.data|)
      && (res.Ok? ==>
            res.value.0.data == r.data
            && res.value.0.cursor == r.cursor + Sum(counts) <= |r.data|
            && |res.value.1| == |counts|
            && (forall i :: 0 <= i < |counts| ==> |res.value.1[i]| == counts[i])
            && Flatten(res.value.1) == r.data[r.cursor..res.value.0.cursor])
  {
    ReadAllCursor(r, counts, isSimulated);
    if ReadAll(r, counts, isSimulated).Ok? {
      ReadAllPieces(r, counts, isSimulated);
    }
  }

  /** Where the run leaves the cursor, and when it fails. */
  lemma {:induction false} ReadAllCursor(r: BinaryReader, counts: seq<nat>, isSimulated: bool)
    requires Valid(r)
    ensures var res := ReadAll(r, counts, isSimulated);
      (res.Err? <==> r.cursor + Sum(counts) > |r.data|)
      && (res.Ok? ==> res.value.0 == r.(cursor := r.cursor + Sum(counts)) && |res.value.1| == |counts|)
    decreases |counts|
  {
    if |counts| > 0 {
      var first := ReadBytes(r, counts[0], isSimulated);
      if first.Ok? {
        ReadAllCursor(first.value.reader, counts[1..], isSimulated);
      }
    }
  }

  /** The slices a successful run returns, one per count, back to back. */
  lemma {:induction false} ReadAllPieces(r: BinaryReader, counts: seq<nat>, isSimulated: bool)
    requires Valid(r) && ReadAll(r, counts, isSimulated).Ok?
    ensures var res := ReadAll(r, counts, isSimulated).value;
      r.cursor + Sum(counts) <= |r.data|
      && (forall i :: 0 <= i < |counts| ==> |res.1[i]| == counts[i])
      && Flatten(res.1) == r.data[r.cursor..r.cursor + Sum(counts)]
    decreases |counts|
  {
    ReadAllCursor(r, counts, isSimulated);
    if |counts| > 0 {
      ReadAllFirst(r, counts, isSimulated);
      var next := r.(cursor := r.cursor + counts[0]);
      var end := r.cursor + Sum(counts);
      assert end == next.cursor + Sum(counts[1..]);
      ReadAllPieces(next, counts[1..], isSimulated);
      var rest := ReadAll(next, counts[1..], isSimulated).value.1;
      var piece := r.data[r.cursor..next.cursor];
      var all := ReadAll(r, counts, isSimulated).value.1;
      assert all == [piece] + rest;
      PieceLengths(piece, rest, counts);
      FlattenCons(piece, rest);
      assert Flatten(rest) == r.data[next.cursor..end];
      SliceSplit(r.data, r.cursor, next.cursor, end);
    }
  }

  /** A successful run is its first read followed by the run of the others. */
  lemma ReadAllFirst(r: BinaryReader, counts: seq<nat>, isSimulated: bool)
    requires Valid(r) && |counts| > 0 && ReadAll(r, counts, isSimulated).Ok?
    ensures r.cursor + counts[0] <= |r.data|
    ensures var next := r.(cursor := r.cursor + counts[0]);
      ReadAll(next, counts[1..], isSimulated).Ok?
      && ReadAll(r, counts, isSimulated).value.1
         == [r.data[r.cursor..next.cursor]] + ReadAll(next, counts[1..], isSimulated).value.1
  {
  }

  lemma PieceLengths(piece: Bytes, rest: seq<Bytes>, counts: seq<nat>)
    requires |counts| == |rest| + 1 && |piece| == counts[0]
    requires forall i :: 0 <= i < |rest| ==> |rest[i]| == counts[1..][i]
    ensures forall i :: 0 <= i < |counts| ==> |([piece] + rest)[i]| == counts[i]
  {
    var all := [piece] + rest;
    forall i | 1 <= i < |all| ensures |all[i]| == counts[i] {
      assert all[i] == rest[i - 1];
    }
  }
}
