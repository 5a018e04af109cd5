/** The RecordIO writer and scanner as the objects that update themselves, proved against the stream functions. */
module RecordIoStreams {
  import opened Options
  import opened Bytes
  import opened Crc32c
  import opened FramedStream
  import opened RecordIo

  /** What a call on the writer reports. */
  datatype WriteError = IoFailed | Closed | CloseFailed

  lemma FrameAppended(sum: Checksum, rs: seq<Record>, r: Record)
    ensures Encode(Writer(sum), rs + [r]) == Encode(Writer(sum), rs) + (Header(sum, |r|) + r + PutUint32(sum(r)))
  {
    EncodeAround(Writer(sum), rs, r, []);
    assert rs + [r] + [] == rs + [r];
    assert Frame(sum, r) + Encode(Writer(sum), []) == Frame(sum, r);
  }

  class RecordWriter {
    const sum: Checksum
    /** Bytes that reached the underlying writer, and bytes still in the buffer. */
    var sink: seq<byte>
    var buffered: seq<byte>
    var offset: nat
    var closed: bool
    var failed: bool
    /** Whether the underlying writer can be closed, and whether it has been. */
    var closes: bool
    var sinkClosed: bool
    /** The underlying writer: which of the calls made on it fail, and how many have been made. */
    const fails: nat -> bool
    var calls: nat
    /** Every record whose write was started since the last reset. */
    ghost var started: seq<Record>

    /** While nothing has failed the two byte strings are the frames of every record written, and the offset is
        their length; in every state the sink holds a prefix of those frames. */
    ghost predicate Valid()
      reads this
    {
      && sink <= Encode(Writer(sum), started) && (sinkClosed ==> closed && closes)
      && (!failed ==> sink + buffered == Encode(Writer(sum), started) && offset == |sink + buffered|)
    }

    /** Every call since the given one worked. */
    ghost predicate Worked(since: nat)
      reads this
    {
      forall i :: since <= i < calls ==> !fails(i)
    }

    constructor (sum: Checksum, closes: bool, fails: nat -> bool)
      ensures this.sum == sum && this.closes == closes && Valid() && !failed && !closed && sink == [] && started == []
      ensures this.fails == fails && calls == 0
    {
      this.sum, this.closes, this.fails, sinkClosed, calls := sum, closes, fails, false, 0;
      sink, buffered, offset, closed, failed, started := [], [], 0, false, false, [];
    }

    method Reset(closes: bool)
      modifies this
      ensures this.closes == closes && Valid() && !failed && !closed && sink == [] && started == []
      ensures calls == old(calls)
    {
      this.closes, sinkClosed := closes, false;
      sink, buffered, offset, closed, failed, started := [], [], 0, false, false, [];
    }

    /** The buffered writer takes all the bytes, passing on any part of what it holds, or it fails part way. */
    method Accept(bytes: seq<byte>) returns (ok: bool)
      modifies `sink, `buffered, `calls
      ensures old(sink) <= sink <= old(sink + buffered) + bytes
      ensures ok ==> sink + buffered == old(sink + buffered) + bytes
      ensures calls == old(calls) + 1 && (ok <==> Worked(old(calls)))
    {
      var all := sink + buffered + bytes;
      var k :| |sink| <= k <= |all|;
      sink, buffered := all[..k], all[k..];
      ok := !fails(calls);
      calls := calls + 1;
    }

    method AcceptFrame(header: seq<byte>, payload: seq<byte>, footer: seq<byte>) returns (ok: bool)
      modifies `sink, `buffered, `calls
      ensures old(sink) <= sink <= old(sink + buffered) + (header + payload + footer)
      ensures ok ==> sink + buffered == old(sink + buffered) + (header + payload + footer)
      ensures old(calls) <= calls && (ok <==> Worked(old(calls)))
    {
      ghost var before := sink + buffered;
      assert before + header + payload + footer == before + (header + payload + footer);
      ok := Accept(header);
      if ok && |payload| > 0 { ok := Accept(payload); }
      if ok { ok := Accept(footer); }
    }

    /** Appends one frame, or fails, because a call below failed, and stays failed; an earlier failure or a close
        refuses and changes nothing. */
    method WriteRecord(record: Record) returns (n: nat, start: nat, err: Option<WriteError>)
      requires Valid()
      modifies this
      ensures Valid() && start == old(offset) && closed == old(closed) && closes == old(closes)
      ensures old(failed) ==> err == Some(IoFailed)
      ensures !old(failed) && closed ==> err == Some(Closed)
      ensures old(failed) || closed ==> n == 0 && unchanged(this)
      ensures !old(failed) && !closed ==> started == old(started) + [record] && failed == (err != None)
      ensures !old(failed) && !closed ==> old(calls) <= calls && (err == None <==> Worked(old(calls)))
      ensures err == None ==> n == FRAME_OVERHEAD + |record| && offset == start + n && old(sink) <= sink
      ensures err == None ==> sink + buffered == old(sink + buffered) + Frame(sum, record)
      ensures err != None ==> n == 0 && offset == start
    {
      hide Encode, Writer, Header, PutUint32;
      if failed { return 0, offset, Some(IoFailed); }
      if closed { return 0, offset, Some(Closed); }
      start := offset;
      FrameAppended(sum, started, record);
      started := started + [record];
      var ok := AcceptFrame(Header(sum, |record|), record, PutUint32(sum(record)));
      if !ok {
        failed := true;
        return 0, start, Some(IoFailed);
      }
      offset := offset + FRAME_OVERHEAD + |record|;
      return FRAME_OVERHEAD + |record|, start, None;
    }

    /** Empties the buffer into the sink, or fails and stays failed. */
    method Flush() returns (err: Option<WriteError>)
      requires Valid()
      modifies `sink, `buffered, `failed, `calls
      ensures Valid()
      ensures old(failed) ==> err == Some(IoFailed) && unchanged(this)
      ensures !old(failed) ==> calls == old(calls) + 1 && (err == None <==> Worked(old(calls)))
      ensures err == if failed then Some(IoFailed) else None
      ensures err == None ==> buffered == [] && sink == Encode(Writer(sum), started)
    {
      hide Encode, Writer;
      if failed { return Some(IoFailed); }
      var ok := !fails(calls);
      calls := calls + 1;
      assert ok <==> Worked(old(calls));
      if !ok {
        var k :| 0 <= k <= |buffered|;
        assert sink + buffered == (sink + buffered[..k]) + buffered[k..];
        sink, buffered, failed := sink + buffered[..k], buffered[k..], true;
        return Some(IoFailed);
      }
      sink, buffered := sink + buffered, [];
      return None;
    }

    /** The first close flushes and then closes the underlying writer, even if the flush failed; a failed flush is
        reported before a failed close. Later closes do nothing and report success. */
    method Close() returns (err: Option<WriteError>)
      requires Valid()
      modifies `sink, `buffered, `failed, `closed, `sinkClosed, `calls
      ensures Valid() && closed
      ensures old(closed) ==> err == None && unchanged(this)
      ensures !old(closed) ==> sinkClosed == closes && (err == Some(IoFailed) <==> failed)
      ensures !old(closed) && !failed ==> sink == Encode(Writer(sum), started) && err in {None, Some(CloseFailed)}
      ensures err == Some(CloseFailed) ==> sinkClosed
      ensures !old(closed) ==> old(calls) <= calls && (err == None <==> !old(failed) && Worked(old(calls)))
      ensures !old(closed) && err == None ==> !failed && sink == Encode(Writer(sum), started)
    {
      hide Encode, Writer;
      if closed { return None; }
      err := Flush();
      closed := true;
      if closes {
        sinkClosed := true;
        if err == None && fails(calls) { err := Some(CloseFailed); }
        calls := calls + 1;
      }
    }
  }

  /** Whatever the writer did and wherever it stopped, a scan of its sink yields a prefix of the records written
      and ends cleanly or with a torn write, never with corruption. */
  lemma InterruptedWriteScan(sum: Checksum, started: seq<Record>, sink: seq<byte>, max: nat) returns (j: nat)
    requires max <= MAX_INT && Fit(started, Fits(max))
    requires sink <= Encode(Writer(sum), started)
    ensures j <= |started| && ScanAll(Scanner(sum, max), sink).records == started[..j]
    ensures ScanAll(Scanner(sum, max), sink).fault in {None, Some(TornWrite)}
    ensures sink == Encode(Writer(sum), started) ==> j == |started| && ScanAll(Scanner(sum, max), sink).fault == None
  {
    assert sink == Encode(Writer(sum), started)[..|sink|];
    j := ScanOfCutStream(sum, started, |sink|, max);
    if sink == Encode(Writer(sum), started) {
      ScanInvertsEncode(sum, started, max);
      assert |started[..j]| == j;
    }
  }

  /** The frame read at offset `start`, in offsets of the whole stream. */
  lemma FrameAt(sum: Checksum, data: seq<byte>, start: nat, n: nat, max: nat)
    requires max <= MAX_INT && start <= |data|
    requires ReadHeader(sum, data[start..], max) == Length(n)
    ensures Scanner(sum, max)(data[start..])
            == if start + FRAME_OVERHEAD + n > |data| then Bad(TornWrite)
               else if sum(data[start + 12..start + 12 + n]) != Uint32(data[start + 12 + n..start + 16 + n])
               then Bad(DataCorrupted)
               else Good(data[start + 12..start + 12 + n], FRAME_OVERHEAD + n)
  {
    hide Uint32, Uint64, ReadHeader;
    if start + FRAME_OVERHEAD + n <= |data| {
      SliceFrom(data, start, 12, 12 + n);
      SliceFrom(data, start, 12 + n, 16 + n);
    }
  }

  lemma SliceFrom(data: seq<byte>, start: nat, a: nat, b: nat)
    requires a <= b && start + b <= |data|
    ensures data[start..][a..b] == data[start + a..start + b]
  {
  }

  class RecordScanner {
    const sum: Checksum
    const data: seq<byte>
    const max: nat
    /** Whether the underlying reader can seek. */
    const seekable: bool
    /** How far the scanner has read; seeking may take it past the end. */
    var pos: nat
    var buf: seq<byte>
    var recordLen: nat
    var offset: nat
    var lastValidOffset: nat
    var err: Option<Fault>

    ghost predicate Valid()
      reads this
    {
      && max <= MAX_INT
      && recordLen <= |buf| <= MAX_INT
      && lastValidOffset <= |data|
      && (err == None ==> pos == lastValidOffset)
    }

    constructor (sum: Checksum, data: seq<byte>, max: nat, seekable: bool)
      requires max <= MAX_INT
      ensures Valid() && err == None && lastValidOffset == 0
      ensures this.sum == sum && this.data == data && this.max == max && this.seekable == seekable
    {
      this.sum, this.data, this.max, this.seekable := sum, data, max, seekable;
      pos, buf, recordLen, offset, lastValidOffset, err := 0, [], 0, 0, 0, None;
    }

    /** Reads n bytes, or all that are left if there are fewer. */
    method ReadFull(n: nat) returns (bytes: seq<byte>)
      modifies `pos
      ensures old(pos) + n <= |data| ==> bytes == data[old(pos)..old(pos) + n] && pos == old(pos) + n
      ensures old(pos) + n > |data| && n > 0 ==> |bytes| < n
      ensures old(pos) == |data| ==> bytes == [] && pos == old(pos)
      ensures old(pos) < |data| < old(pos) + n ==> bytes != []
    {
      if pos + n <= |data| {
        bytes := data[pos..pos + n];
        pos := pos + n;
      } else if pos < |data| {
        bytes := data[pos..];
        pos := |data|;
      } else {
        bytes := [];
      }
    }

    method ReadHeaderBytes() returns (length: nat, ok: bool)
      requires Valid() && err == None
      modifies `pos, `recordLen, `err
      ensures recordLen == 0
      ensures match ReadHeader(sum, data[old(pos)..], max)
              case NoHeader => !ok && err == None && pos == old(pos)
              case BadHeader(fault) => !ok && err == Some(fault)
              case Length(n) => ok && err == None && length == n && pos == old(pos) + HEADER_SIZE
    {
      recordLen, length, ok := 0, 0, false;
      ghost var rest := data[pos..];
      var header := ReadFull(HEADER_SIZE);
      if |header| < HEADER_SIZE {
        if |header| != 0 { err := Some(TornWrite); }
        return;
      }
      assert header == rest[..12] && header[..8] == rest[..8] && header[8..12] == rest[8..12];
      if sum(header[..8]) != Uint32(header[8..12]) {
        err := Some(HeaderCorrupted);
        return;
      }
      if Uint64(header[..8]) > max {
        err := Some(RecordTooLarge);
        return;
      }
      return Uint64(header[..8]), true;
    }

    /** The current record. */
    function CurrentRecord(): Record
      requires Valid()
      reads this
    {
      buf[..recordLen]
    }

    /** The part of a scan after the header. */
    method ReadBody(start: nat, n: nat) returns (ok: bool)
      requires n <= max <= MAX_INT && pos == start + HEADER_SIZE <= |data| && err == None
      requires lastValidOffset == start
      modifies `pos, `buf, `recordLen, `lastValidOffset, `err
      ensures recordLen <= |buf| <= MAX_INT
      ensures !ok ==> lastValidOffset == start
      ensures pos == start + FRAME_OVERHEAD + n || !ok
      ensures if start + FRAME_OVERHEAD + n > |data| then !ok && err == Some(TornWrite)
              else if sum(data[start + 12..start + 12 + n]) != Uint32(data[start + 12 + n..start + 16 + n])
              then !ok && err == Some(DataCorrupted)
              else ok && err == None && buf[..recordLen] == data[start + 12..start + 12 + n]
                   && lastValidOffset == start + FRAME_OVERHEAD + n
    {
      buf, recordLen := [], 0;
      if n > 0 {
        var bytes := ReadFull(n);
        if |bytes| < n {
          err := Some(TornWrite);
          return false;
        }
        buf, recordLen := bytes, n;
      }
      var footer := ReadFull(FOOTER_SIZE);
      if |footer| < FOOTER_SIZE {
        err := Some(TornWrite);
        return false;
      }
      assert buf[..n] == data[start + 12..start + 12 + n];
      if sum(buf[..n]) != Uint32(footer) {
        err := Some(DataCorrupted);
        return false;
      }
      lastValidOffset := start + FRAME_OVERHEAD + n;
      return true;
    }

    /** One step: what `ReadFrame` finds at the last valid offset; errors are sticky and move nothing. */
    method Scan() returns (ok: bool)
      requires Valid()
      modifies this
      ensures Valid()
      ensures old(err) != None ==> !ok && unchanged(this)
      ensures old(err) == None ==>
                match Scanner(sum, max)(data[old(lastValidOffset)..])
                case End => !ok && err == None && lastValidOffset == old(lastValidOffset)
                case Bad(fault) => !ok && err == Some(fault) && lastValidOffset == old(lastValidOffset)
                case Good(r, size) =>
                  ok && err == None && CurrentRecord() == r
                  && offset == old(lastValidOffset) && lastValidOffset == offset + size
    {
      if err != None { return false; }
      var start := lastValidOffset;
      var n, more := ReadHeaderBytes();
      if !more { return false; }
      FrameAt(sum, data, start, n, max);
      offset := start;
      ok := ReadBody(start, n);
    }

    /** One step over a frame without reading its payload, for every split of the payload between the read buffer
        and the underlying reader, and for both ways of passing over the rest. */
    method Skip() returns (ok: bool)
      requires Valid()
      modifies this
      ensures Valid()
      ensures old(err) != None ==> !ok && unchanged(this)
      ensures old(err) == None ==>
                match SkipFrame(sum, data[old(lastValidOffset)..], max)
                case SkipEnd => !ok && err == None && lastValidOffset == old(lastValidOffset)
                case SkipBad(fault) => !ok && err == Some(fault) && lastValidOffset == old(lastValidOffset)
                case Skipped(size) =>
                  ok && err == None && offset == old(lastValidOffset) && lastValidOffset == offset + size
    {
      if err != None { return false; }
      var start := lastValidOffset;
      var payload, more := ReadHeaderBytes();
      if !more { return false; }
      var buffered :| 0 <= buffered <= |data| - pos;
      pos := pos + if payload < buffered then payload else buffered;
      if payload > buffered {
        var remain := payload - buffered;
        if seekable {
          pos := pos + remain;
        } else if |data| - pos < remain {
          pos, err := |data|, Some(TornWrite);
          return false;
        } else {
          pos := pos + remain;
        }
      }
      var footer := ReadFull(FOOTER_SIZE);
      if |footer| < FOOTER_SIZE {
        err := Some(TornWrite);
        return false;
      }
      offset, lastValidOffset := start, start + FRAME_OVERHEAD + payload;
      return true;
    }
  }

  /** What one successful or final step of the scanner does to a scan in progress. */
  lemma StepResumes(read: Reader<Record, Fault>, data: seq<byte>, at: nat, records: seq<Record>, ok: bool, r: Record,
                    next: nat, err: Option<Fault>)
    requires Progress(read) && at <= |data|
    requires match read(data[at..])
             case End => !ok && err == None
             case Bad(fault) => !ok && err == Some(fault)
             case Good(record, size) => ok && r == record && next == at + size
    ensures ok ==> at < next <= |data|
                   && Resume(records, at, ScanAll(read, data[at..]))
                      == Resume(records + [r], next, ScanAll(read, data[next..]))
    ensures !ok ==> Resume(records, at, ScanAll(read, data[at..])) == Scanned(records, at, err)
  {
    ResumeStep(read, data, at, records);
  }

  /** The loop that every reader of a whole object runs: scan to the end, copy each record, then report the
      scanner's error. */
  method ReadAllRecords(sum: Checksum, data: seq<byte>, max: nat)
    returns (records: seq<Record>, valid: nat, fault: Option<Fault>)
    requires max <= MAX_INT
    ensures Scanned(records, valid, fault) == ScanAll(Scanner(sum, max), data)
  {
    var s := new RecordScanner(sum, data, max, false);
    records := [];
    ghost var whole := ScanAll(Scanner(sum, max), data);
    assert data[0..] == data;
    var more := true;
    while more
      invariant s.Valid() && s.sum == sum && s.data == data && s.max == max && fresh(s)
      invariant more ==> s.err == None && whole == Rest(sum, data, max, records, s.lastValidOffset)
      invariant !more ==> whole == Scanned(records, s.lastValidOffset, s.err)
      decreases |data| - s.lastValidOffset, more
    {
      ghost var at := s.lastValidOffset;
      more := s.Scan();
      StepResumes(Scanner(sum, max), data, at, records, more, s.CurrentRecord(), s.lastValidOffset, s.err);
      if more { records := records + [s.CurrentRecord()]; }
    }
    valid, fault := s.lastValidOffset, s.err;
  }

  ghost function Rest(sum: Checksum, data: seq<byte>, max: nat, records: seq<Record>, at: nat): Scanned<Record, Fault>
    requires max <= MAX_INT && at <= |data|
  {
    Resume(records, at, ScanAll(Scanner(sum, max), data[at..]))
  }
}
