/** Segment files: the mutations of one batch, one RecordIO record each, as the flusher writes them and the loader reads
    them. */
module Segments {
  import opened Options
  import opened Bytes
  import opened Crc32c
  import opened FramedStream
  import opened RecordIo
  import opened RecordIoStreams
  import opened Mutations
  import LoaderModel

  /** How a mutation is marshalled; decoding refuses what is not a message. */
  datatype Codec = Codec(encode: Mutation -> Record, decode: Record -> Option<Mutation>)

  ghost predicate CodecOk(c: Codec) {
    forall m :: c.decode(c.encode(m)) == Some(m)
  }

  function Records(c: Codec, ms: seq<Mutation>): seq<Record> {
    seq<Record>(|ms|, i requires 0 <= i < |ms| => c.encode(ms[i]))
  }

  /** The bytes of a segment. */
  function SegmentBytes(c: Codec, sum: Checksum, ms: seq<Mutation>): seq<byte> {
    Encode(Writer(sum), Records(c, ms))
  }

  /** Every mutation is within the scanner's record size limit. */
  ghost predicate Loadable(c: Codec, ms: seq<Mutation>) {
    Fit(Records(c, ms), Fits(DEFAULT_MAX_RECORD_SIZE))
  }

  datatype WriteFault = NilMutation | RecordFault(fault: WriteError)

  /** The segment writer: a RecordIO writer that is given mutations. */
  class SegmentWriter {
    const codec: Codec
    const inner: RecordWriter

    constructor (codec: Codec, sum: Checksum, fails: nat -> bool)
      ensures fresh(inner) && inner.Valid() && this.codec == codec && inner.sum == sum && inner.fails == fails
      ensures !inner.failed && !inner.closed && inner.sink == [] && inner.started == []
    {
      this.codec := codec;
      inner := new RecordWriter(sum, false, fails);
    }

    /** Appends the frame of one mutation. A nil mutation is refused and changes nothing. */
    method Write(m: Option<Mutation>) returns (err: Option<WriteFault>)
      requires inner.Valid()
      modifies inner
      ensures inner.Valid() && inner.closed == old(inner.closed)
      ensures m.None? ==> err == Some(NilMutation) && unchanged(inner)
      ensures m.Some? && !old(inner.failed) && !inner.closed ==>
                inner.started == old(inner.started) + [codec.encode(m.value)] && inner.failed == (err != None)
      ensures m.Some? && !old(inner.failed) && !inner.closed ==>
                old(inner.calls) <= inner.calls && (err == None <==> inner.Worked(old(inner.calls)))
      ensures m.Some? && (old(inner.failed) || inner.closed) ==> err != None && unchanged(inner)
    {
      if m.None? { return Some(NilMutation); }
      var _, _, e := inner.WriteRecord(codec.encode(m.value));
      return if e.Some? then Some(RecordFault(e.value)) else None;
    }
  }

  /** Writing a batch as the flusher does: every mutation, then a close. Without an error the bytes are the segment's,
      and there is none unless the writer below fails, which a buffer never does. */
  method WriteSegment(c: Codec, sum: Checksum, ms: seq<Mutation>, fails: nat -> bool)
    returns (data: seq<byte>, err: Option<WriteFault>)
    ensures err == None ==> data == SegmentBytes(c, sum, ms)
    ensures (forall i: nat :: !fails(i)) ==> err == None
  {
    var w := new SegmentWriter(c, sum, fails);
    for i := 0 to |ms|
      invariant fresh(w.inner) && w.inner.Valid() && !w.inner.failed && !w.inner.closed
      invariant w.inner.started == Records(c, ms[..i])
    {
      assert Records(c, ms[..i + 1]) == Records(c, ms[..i]) + [c.encode(ms[i])];
      err := w.Write(Some(ms[i]));
      if err.Some? { return [], err; }
    }
    assert ms[..|ms|] == ms;
    var e := w.inner.Close();
    if e.Some? { return [], Some(RecordFault(e.value)); }
    return w.inner.sink, None;
  }

  // ---- Reading

  datatype Decoded = Decoded(mutations: seq<Mutation>, ok: bool)

  /** Decoding records up to the first that is refused. */
  function DecodeAll(c: Codec, rs: seq<Record>): Decoded {
    if rs == [] then Decoded([], true)
    else
      var m := c.decode(rs[0]);
      if m.None? then Decoded([], false)
      else
        var rest := DecodeAll(c, rs[1..]);
        Decoded([m.value] + rest.mutations, rest.ok)
  }

  /** The records are decoded in order, up to the first that is refused and no further. */
  lemma {:induction false} DecodeAllStops(c: Codec, rs: seq<Record>)
    ensures var d := DecodeAll(c, rs);
            && |d.mutations| <= |rs| && (d.ok <==> |d.mutations| == |rs|)
            && (forall i :: 0 <= i < |d.mutations| ==> c.decode(rs[i]) == Some(d.mutations[i]))
            && (!d.ok ==> c.decode(rs[|d.mutations|]).None?)
  {
    if rs != [] { DecodeAllStops(c, rs[1..]); }
  }

  lemma {:induction false} DecodeConcat(c: Codec, a: seq<Record>, b: seq<Record>)
    requires DecodeAll(c, a).ok
    ensures DecodeAll(c, a + b) == Decoded(DecodeAll(c, a).mutations + DecodeAll(c, b).mutations, DecodeAll(c, b).ok)
  {
    if a == [] {
      assert a + b == b;
    } else {
      assert (a + b)[1..] == a[1..] + b;
      DecodeConcat(c, a[1..], b);
    }
  }

  /** What reading a segment's bytes gives: mutations, and then the end or an error. */
  function Open(c: Codec, sum: Checksum, data: seq<byte>): LoaderModel.Opened {
    var s := ScanAll(Scanner(sum, DEFAULT_MAX_RECORD_SIZE), data);
    var d := DecodeAll(c, s.records);
    LoaderModel.Stream(d.mutations, d.ok && s.fault == None)
  }

  lemma OneRecord(c: Codec, r: Record)
    ensures DecodeAll(c, [r]) == match c.decode(r) case None => Decoded([], false) case Some(m) => Decoded([m], true)
  {
  }

  lemma DecodeNext(c: Codec, records: seq<Record>, r: Record, later: seq<Record>, ms: seq<Mutation>)
    requires DecodeAll(c, records) == Decoded(ms, true)
    ensures c.decode(r).Some? ==> DecodeAll(c, records + [r]) == Decoded(ms + [c.decode(r).value], true)
    ensures c.decode(r).None? ==> DecodeAll(c, records + [r] + later) == Decoded(ms, false)
  {
    OneRecord(c, r);
    DecodeConcat(c, records, [r]);
    if c.decode(r).None? {
      assert records + [r] + later == records + ([r] + later);
      DecodeConcat(c, records, [r] + later);
    }
  }

  /** The loader's loop over one segment: Next until it reports the end or an error. */
  method ReadSegment(c: Codec, sum: Checksum, data: seq<byte>) returns (ms: seq<Mutation>, ends: bool)
    ensures Open(c, sum, data) == LoaderModel.Stream(ms, ends)
  {
    hide ScanAll, ReadFrame;
    var s := new RecordScanner(sum, data, DEFAULT_MAX_RECORD_SIZE, false);
    ghost var whole := ScanAll(Scanner(sum, DEFAULT_MAX_RECORD_SIZE), data);
    ghost var records: seq<Record> := [];
    assert data[0..] == data;
    ms := [];
    while true
      invariant s.Valid() && fresh(s) && s.sum == sum && s.data == data && s.max == DEFAULT_MAX_RECORD_SIZE
      invariant s.err == None && whole == Rest(sum, data, DEFAULT_MAX_RECORD_SIZE, records, s.lastValidOffset)
      invariant DecodeAll(c, records) == Decoded(ms, true)
      decreases |data| - s.lastValidOffset
    {
      ghost var at := s.lastValidOffset;
      var more := s.Scan();
      StepResumes(Scanner(sum, DEFAULT_MAX_RECORD_SIZE), data, at, records, more, s.CurrentRecord(), s.lastValidOffset,
                  s.err);
      if !more { return ms, s.err == None; }
      var r := s.CurrentRecord();
      ghost var later := ScanAll(Scanner(sum, DEFAULT_MAX_RECORD_SIZE), data[s.lastValidOffset..]).records;
      DecodeNext(c, records, r, later, ms);
      var m := c.decode(r);
      if m.None? { return ms, false; }
      records, ms := records + [r], ms + [m.value];
    }
  }

  // ---- The theorems

  lemma {:induction false} DecodeRecords(c: Codec, ms: seq<Mutation>)
    requires CodecOk(c)
    ensures DecodeAll(c, Records(c, ms)) == Decoded(ms, true)
  {
    if ms != [] {
      assert Records(c, ms)[1..] == Records(c, ms[1..]);
      DecodeRecords(c, ms[1..]);
    }
  }

  /** Reading what was written gives back the batch. */
  lemma SegmentRoundTrip(c: Codec, sum: Checksum, ms: seq<Mutation>)
    requires CodecOk(c) && Loadable(c, ms)
    ensures Open(c, sum, SegmentBytes(c, sum, ms)) == LoaderModel.Stream(ms, true)
  {
    ScanInvertsEncode(sum, Records(c, ms), DEFAULT_MAX_RECORD_SIZE);
    DecodeRecords(c, ms);
  }

  lemma RecordsAround(c: Codec, before: seq<Mutation>, m: Mutation, after: seq<Mutation>)
    requires Loadable(c, before + [m] + after)
    ensures Records(c, before + [m] + after) == Records(c, before) + [c.encode(m)] + Records(c, after)
    ensures Fit(Records(c, before), Fits(DEFAULT_MAX_RECORD_SIZE)) && |c.encode(m)| <= DEFAULT_MAX_RECORD_SIZE
  {
    var rs, r, all := Records(c, before), c.encode(m), Records(c, before + [m] + after);
    assert forall j :: 0 <= j < |rs| ==> rs[j] == all[j];
    assert all[|rs|] == r;
  }

  lemma ChangeInTail(head: seq<byte>, tail: seq<byte>, i: nat, x: byte)
    requires i < |tail|
    ensures (head + tail)[|head| + i := x] == head + tail[i := x]
  {
  }

  lemma DamagedBytes(c: Codec, sum: Checksum, before: seq<Mutation>, m: Mutation, after: seq<Mutation>, i: nat, x: byte)
    requires CodecOk(c) && Loadable(c, before + [m] + after) && DetectsByteChange(sum)
    requires i < |Frame(sum, c.encode(m))| && x != Frame(sum, c.encode(m))[i]
    ensures var head, tail := SegmentBytes(c, sum, before), Frame(sum, c.encode(m)) + SegmentBytes(c, sum, after);
            && SegmentBytes(c, sum, before + [m] + after) == head + tail
            && Open(c, sum, head + tail[i := x]) == LoaderModel.Stream(before, false)
  {
    hide Encode, Frame, Records, Fit, DecodeAll, ScanAll, DetectsByteChange;
    RecordsAround(c, before, m, after);
    ScanOfCorruptStream(sum, Records(c, before), c.encode(m), Records(c, after), i, x, DEFAULT_MAX_RECORD_SIZE);
    DecodeRecords(c, before);
  }

  /** A segment with any one byte changed opens as a proper prefix of the batch and then an error: a damaged mutation
      is never applied, so the loader's passes over stored segments open as its model expects. */
  lemma DamagedSegment(c: Codec, sum: Checksum, before: seq<Mutation>, m: Mutation, after: seq<Mutation>, i: nat,
                       x: byte)
    requires CodecOk(c) && Loadable(c, before + [m] + after) && DetectsByteChange(sum)
    requires i < |Frame(sum, c.encode(m))| && x != Frame(sum, c.encode(m))[i]
    ensures var at := |SegmentBytes(c, sum, before)| + i;
            var data := SegmentBytes(c, sum, before + [m] + after);
            && at < |data| && Open(c, sum, data[at := x]) == LoaderModel.Stream(before, false)
            && LoaderModel.OpensAs(Open(c, sum, data[at := x]), before + [m] + after)
  {
    hide Encode, Frame, Open;
    var data := SegmentBytes(c, sum, before + [m] + after);
    DamagedBytes(c, sum, before, m, after, i, x);
    ChangeInTail(SegmentBytes(c, sum, before), Frame(sum, c.encode(m)) + SegmentBytes(c, sum, after), i, x);
    assert before <= before + [m] + after;
  }
}
