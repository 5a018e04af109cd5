/** The RecordIO framing: what the writer emits, what one scanner step yields on any bytes, and the laws of whole
    streams. A frame is length (8 bytes), checksum of the length (4), payload, checksum of the payload (4). Everything
    here holds for any checksum; the format uses `Crc32c.MaskedCrc`. */
module RecordIo {
  import opened Options
  import ByteNumbers
  import opened Bytes
  import opened Crc32c
  import opened FramedStream

  const HEADER_SIZE := 12
  const FOOTER_SIZE := 4
  const FRAME_OVERHEAD := 16
  const DEFAULT_MAX_RECORD_SIZE := 64 * 1024 * 1024

  const MAX_INT := 0x7FFF_FFFF_FFFF_FFFF

  /** A byte slice: its length fits the 64-bit int of the source. */
  type Record = r: seq<byte> | |r| <= MAX_INT

  datatype Fault = TornWrite | HeaderCorrupted | DataCorrupted | RecordTooLarge

  function Header(sum: Checksum, length: nat): (h: seq<byte>)
    requires length < U64
    ensures |h| == HEADER_SIZE
  {
    PutUint64(length) + PutUint32(sum(PutUint64(length)))
  }

  function Frame(sum: Checksum, r: Record): (f: seq<byte>)
    ensures |f| == FRAME_OVERHEAD + |r|
  {
    Header(sum, |r|) + r + PutUint32(sum(r))
  }

  /** The length field, or why it cannot be used. */
  datatype HeaderRead = NoHeader | BadHeader(fault: Fault) | Length(length: nat)

  function ReadHeader(sum: Checksum, data: seq<byte>, max: nat): (h: HeaderRead)
    ensures h.Length? ==> |data| >= HEADER_SIZE && h.length == Uint64(data[..8]) <= max
  {
    if data == [] then NoHeader
    else if |data| < HEADER_SIZE then BadHeader(TornWrite)
    else if sum(data[..8]) != Uint32(data[8..12]) then BadHeader(HeaderCorrupted)
    else if Uint64(data[..8]) > max then BadHeader(RecordTooLarge)
    else Length(Uint64(data[..8]))
  }

  /** One step of a scanner that rejects records longer than max. */
  function ReadFrame(sum: Checksum, data: seq<byte>, max: nat): (s: Step<Record, Fault>)
    requires max <= MAX_INT
    ensures s.Good? ==> 0 < s.size == FRAME_OVERHEAD + |s.record| <= |data|
  {
    match ReadHeader(sum, data, max)
    case NoHeader => End
    case BadHeader(fault) => Bad(fault)
    case Length(n) =>
      if |data| < FRAME_OVERHEAD + n then Bad(TornWrite)
      else if sum(data[12..12 + n]) != Uint32(data[12 + n..16 + n]) then Bad(DataCorrupted)
      else Good(data[12..12 + n], FRAME_OVERHEAD + n)
  }

  function Writer(sum: Checksum): Printer<Record> {
    (r: Record) => Frame(sum, r)
  }

  /** A scanner with the given record size limit. */
  function Scanner(sum: Checksum, max: nat): (read: Reader<Record, Fault>)
    requires max <= MAX_INT
    ensures Progress(read)
  {
    (data: seq<byte>) => ReadFrame(sum, data, max)
  }

  function Fits(max: nat): Record -> bool {
    (r: Record) => |r| <= max
  }

  // ---- One frame

  lemma FrameParts(sum: Checksum, r: Record, tail: seq<byte>)
    ensures var data := Frame(sum, r) + tail;
            && data[..8] == PutUint64(|r|)
            && data[8..12] == PutUint32(sum(PutUint64(|r|)))
            && data[12..12 + |r|] == r
            && data[12 + |r|..16 + |r|] == PutUint32(sum(r))
  {
  }

  /** The layout of a frame: the length in eight bytes, least significant first, its checksum in four, the record, and
      the record's checksum in four. */
  lemma FrameLayout(sum: Checksum, r: Record)
    ensures var f := Frame(sum, r);
            && (forall i :: 0 <= i < 8 ==> ByteNumbers.Number(f[i]) == |r| / Radix(i) % 256)
            && f[8..12] == PutUint32(sum(f[..8]))
            && f[12..12 + |r|] == r
            && f[12 + |r|..] == PutUint32(sum(r))
  {
    hide PutUint32, Header, Frame, ByteNumbers.Number;
    var f := Frame(sum, r);
    FrameParts(sum, r, []);
    assert f + [] == f;
    forall i | 0 <= i < 8 ensures ByteNumbers.Number(f[i]) == |r| / Radix(i) % 256 {
      LengthByte(|r|, i);
      assert f[i] == f[..8][i];
    }
  }

  lemma LengthByte(n: nat, i: nat)
    requires n < U64 && i < 8
    ensures ByteNumbers.Number(PutUint64(n)[i]) == n / Radix(i) % 256
  {
    LittleEndianByte(n, 8, i);
  }

  lemma ReadWholeFrame(sum: Checksum, r: Record, tail: seq<byte>, max: nat)
    requires |r| <= max <= MAX_INT
    ensures ReadFrame(sum, Frame(sum, r) + tail, max) == Good(r, |Frame(sum, r)|)
  {
    hide Uint32, PutUint32, Uint64, PutUint64;
    FrameParts(sum, r, tail);
    Uint32Decodes(sum(PutUint64(|r|)));
    Uint32Decodes(sum(r));
  }

  /** A record over the limit is refused as such, by Scan and by Skip, from its header alone. */
  lemma TooLargeIsRefused(sum: Checksum, r: Record, k: nat, max: nat)
    requires max < |r| && max <= MAX_INT && HEADER_SIZE <= k <= |Frame(sum, r)|
    ensures ReadFrame(sum, Frame(sum, r)[..k], max) == Bad(RecordTooLarge)
    ensures SkipFrame(sum, Frame(sum, r)[..k], max) == SkipBad(RecordTooLarge)
  {
    hide Uint32, PutUint32, Uint64, PutUint64, Header, Frame;
    var whole := Frame(sum, r);
    var data := whole[..k];
    FrameParts(sum, r, []);
    assert whole + [] == whole;
    Uint32Decodes(sum(PutUint64(|r|)));
    assert data[..8] == whole[..8];
    assert data[8..12] == whole[8..12];
  }

  lemma ReadCutFrame(sum: Checksum, r: Record, k: nat, max: nat)
    requires |r| <= max <= MAX_INT
    requires 0 < k < |Frame(sum, r)|
    ensures ReadFrame(sum, Frame(sum, r)[..k], max) == Bad(TornWrite)
  {
    hide Uint32, PutUint32, Uint64, PutUint64, Header, Frame;
    if k >= HEADER_SIZE {
      var whole := Frame(sum, r);
      var data := whole[..k];
      FrameParts(sum, r, []);
      assert whole + [] == whole;
      Uint32Decodes(sum(PutUint64(|r|)));
      assert data[..8] == whole[..8];
      assert data[8..12] == whole[8..12];
    }
  }

  lemma GoodHeaderIsWritten(sum: Checksum, data: seq<byte>, max: nat)
    requires ReadHeader(sum, data, max).Length?
    ensures data[..12] == Header(sum, ReadHeader(sum, data, max).length)
  {
    hide Uint32, PutUint32, Uint64, PutUint64;
    PutUint64Surjective(data[..8]);
    PutUint32Surjective(data[8..12]);
    assert data[..12] == data[..8] + data[8..12];
  }

  /** A frame that a scanner accepts is the writer's frame of its payload. */
  lemma GoodFrameIsWritten(sum: Checksum, data: seq<byte>, max: nat)
    requires max <= MAX_INT
    requires ReadFrame(sum, data, max).Good?
    ensures var Good(r, size) := ReadFrame(sum, data, max);
            |r| <= max && data[..size] == Frame(sum, r)
  {
    hide Uint32, PutUint32, Uint64, PutUint64;
    var n := |ReadFrame(sum, data, max).record|;
    GoodHeaderIsWritten(sum, data, max);
    PutUint32Surjective(data[12 + n..16 + n]);
    assert data[..16 + n] == data[..12] + data[12..12 + n] + data[12 + n..16 + n];
  }

  lemma RecordIoReads(sum: Checksum, max: nat)
    requires max <= MAX_INT
    ensures Reads(Writer(sum), Scanner(sum, max), Fits(max), TornWrite)
  {
    var read := Scanner(sum, max);
    forall r: Record, tail: seq<byte> | Fits(max)(r) ensures read(Frame(sum, r) + tail) == Good(r, |Frame(sum, r)|) {
      ReadWholeFrame(sum, r, tail, max);
    }
    forall r: Record, k: int | Fits(max)(r) && 0 < k < |Frame(sum, r)|
      ensures read(Frame(sum, r)[..k]) == Bad(TornWrite)
    {
      ReadCutFrame(sum, r, k, max);
    }
  }

  lemma RecordIoAccepts(sum: Checksum, max: nat)
    requires max <= MAX_INT
    ensures Accepts(Writer(sum), Scanner(sum, max), Fits(max))
  {
    forall data: seq<byte> | Scanner(sum, max)(data).Good?
      ensures var Good(r, size) := Scanner(sum, max)(data); Fits(max)(r) && data[..size] == Frame(sum, r)
    {
      GoodFrameIsWritten(sum, data, max);
    }
  }

  // ---- Whole streams

  /** Torn-write detection at every cut point of every written stream: the scan yields exactly the records whose
      frames end at or before the cut, a clean end on a frame boundary and a torn write anywhere else, and
      LastValidOffset is the largest boundary at or below the cut. */
  lemma ScanOfCutStream(sum: Checksum, rs: seq<Record>, k: nat, max: nat) returns (j: nat)
    requires max <= MAX_INT && Fit(rs, Fits(max))
    requires k <= |Encode(Writer(sum), rs)|
    ensures WholeFrames(Writer(sum), rs, k, j)
    ensures ScanAll(Scanner(sum, max), Encode(Writer(sum), rs)[..k])
            == Scanned(rs[..j], Boundary(Writer(sum), rs, j),
                       if k == Boundary(Writer(sum), rs, j) then None else Some(TornWrite))
  {
    RecordIoReads(sum, max);
    j := CutHasWholeFrames(Writer(sum), rs, k);
    ScanCut(Writer(sum), Scanner(sum, max), Fits(max), TornWrite, rs, k, j);
  }

  lemma ScanInvertsEncode(sum: Checksum, rs: seq<Record>, max: nat)
    requires max <= MAX_INT && Fit(rs, Fits(max))
    ensures ScanAll(Scanner(sum, max), Encode(Writer(sum), rs)) == Scanned(rs, |Encode(Writer(sum), rs)|, None)
  {
    RecordIoReads(sum, max);
    assert rs[..|rs|] == rs && Encode(Writer(sum), rs)[..|Encode(Writer(sum), rs)|] == Encode(Writer(sum), rs);
    ScanCut(Writer(sum), Scanner(sum, max), Fits(max), TornWrite, rs, |Encode(Writer(sum), rs)|, |rs|);
  }

  /** A byte string scanned to a clean end is the writer's encoding of what was scanned, byte for byte; in any
      case the bytes below LastValidOffset are. */
  lemma ScanIsCanonical(sum: Checksum, data: seq<byte>, max: nat)
    requires max <= MAX_INT
    ensures var s := ScanAll(Scanner(sum, max), data);
            && s.valid <= |data| && data[..s.valid] == Encode(Writer(sum), s.records) && Fit(s.records, Fits(max))
            && (s.fault == None ==> data == Encode(Writer(sum), s.records))
  {
    RecordIoAccepts(sum, max);
    ScanCanonical(Writer(sum), Scanner(sum, max), Fits(max), data);
  }

  // ---- Skip

  /** A step that passes over a frame without reading its payload. */
  datatype SkipStep = SkipEnd | SkipBad(fault: Fault) | Skipped(size: nat)

  function SkipFrame(sum: Checksum, data: seq<byte>, max: nat): SkipStep {
    match ReadHeader(sum, data, max)
    case NoHeader => SkipEnd
    case BadHeader(fault) => SkipBad(fault)
    case Length(n) => if |data| < FRAME_OVERHEAD + n then SkipBad(TornWrite) else Skipped(FRAME_OVERHEAD + n)
  }

  /** What Scan's outcome looks like to a caller of Skip. */
  function AsSkip(step: Step<Record, Fault>): SkipStep {
    match step
    case End => SkipEnd
    case Bad(fault) => SkipBad(fault)
    case Good(_, size) => Skipped(size)
  }

  /** A complete frame with a good header, whose payload does not match its checksum. */
  predicate DamagedPayload(sum: Checksum, data: seq<byte>, max: nat) {
    && |data| >= HEADER_SIZE && sum(data[..8]) == Uint32(data[8..12])
    && var n := Uint64(data[..8]);
       n <= max && |data| >= FRAME_OVERHEAD + n && sum(data[12..12 + n]) != Uint32(data[12 + n..16 + n])
  }

  /** Skip and Scan part company on exactly that kind of input; there Skip passes over the frame that Scan reports. */
  lemma SkipVersusScan(sum: Checksum, data: seq<byte>, max: nat)
    requires max <= MAX_INT
    ensures SkipFrame(sum, data, max) == AsSkip(Scanner(sum, max)(data)) <==> !DamagedPayload(sum, data, max)
    ensures DamagedPayload(sum, data, max) ==>
              && SkipFrame(sum, data, max) == Skipped(FRAME_OVERHEAD + Uint64(data[..8]))
              && Scanner(sum, max)(data) == Bad(DataCorrupted)
  {
    hide Uint32, Uint64;
  }

  lemma SkipAgreesOnCut(sum: Checksum, rs: seq<Record>, k: nat, data: seq<byte>, max: nat)
    requires max <= MAX_INT && Fit(rs, Fits(max))
    requires k <= |Encode(Writer(sum), rs)| && data == Encode(Writer(sum), rs)[..k]
    ensures SkipFrame(sum, data, max) == AsSkip(Scanner(sum, max)(data))
  {
    var j := ScanOfCutStream(sum, rs, k, max);
    FirstFaultIsReported(Scanner(sum, max), data, DataCorrupted);
    SkipVersusScan(sum, data, max);
  }

  lemma FitFrom(rs: seq<Record>, i: nat, fits: Record -> bool)
    requires i <= |rs| && Fit(rs, fits)
    ensures Fit(rs[i..], fits)
  {
  }

  /** On a written stream, cut anywhere and entered at any frame boundary, Skip agrees with Scan. */
  lemma SkipAgreesWithScan(sum: Checksum, rs: seq<Record>, k: nat, i: nat, max: nat)
    requires max <= MAX_INT && Fit(rs, Fits(max))
    requires i <= |rs| && Boundary(Writer(sum), rs, i) <= k <= |Encode(Writer(sum), rs)|
    ensures var data := Encode(Writer(sum), rs)[Boundary(Writer(sum), rs, i)..k];
            SkipFrame(sum, data, max) == AsSkip(Scanner(sum, max)(data))
  {
    EncodeFrom(Writer(sum), rs, i, k);
    FitFrom(rs, i, Fits(max));
    SkipAgreesOnCut(sum, rs[i..], k - Boundary(Writer(sum), rs, i),
                    Encode(Writer(sum), rs)[Boundary(Writer(sum), rs, i)..k], max);
  }

  // ---- Corruption

  /** Changing one byte of the length field or of its checksum is reported as a corrupted header, whatever
      follows. */
  lemma HeaderCorruptionDetected(sum: Checksum, r: Record, tail: seq<byte>, i: nat, x: byte, max: nat)
    requires max <= MAX_INT
    requires i < HEADER_SIZE && x != Frame(sum, r)[i] && DetectsByteChange(sum)
    ensures ReadFrame(sum, (Frame(sum, r) + tail)[i := x], max) == Bad(HeaderCorrupted)
  {
    hide Uint32, PutUint32, Uint64, PutUint64;
    var data := Frame(sum, r) + tail;
    var bad := data[i := x];
    FrameParts(sum, r, tail);
    Uint32Decodes(sum(PutUint64(|r|)));
    Uint32Decodes(sum(r));
    if i < 8 {
      assert bad[..8] == data[..8][i := x] && bad[8..12] == data[8..12];
      assert Changed(data[..8], bad[..8], i);
    } else {
      assert bad[..8] == data[..8] && bad[8..12] == data[8..12][i - 8 := x];
      Uint32Compares(sum(data[..8]), bad[8..12]);
    }
  }

  /** Changing one byte of the payload or of its checksum is reported as corrupted data, whatever follows. */
  lemma DataCorruptionDetected(sum: Checksum, r: Record, tail: seq<byte>, i: nat, x: byte, max: nat)
    requires |r| <= max <= MAX_INT
    requires HEADER_SIZE <= i < |Frame(sum, r)| && x != Frame(sum, r)[i] && DetectsByteChange(sum)
    ensures ReadFrame(sum, (Frame(sum, r) + tail)[i := x], max) == Bad(DataCorrupted)
  {
    hide Uint32, PutUint32, Uint64, PutUint64;
    var n := |r|;
    var data := Frame(sum, r) + tail;
    var bad := data[i := x];
    FrameParts(sum, r, tail);
    Uint32Decodes(sum(PutUint64(|r|)));
    Uint32Decodes(sum(r));
    assert bad[..8] == data[..8] && bad[8..12] == data[8..12];
    if i < 12 + n {
      assert bad[12..12 + n] == r[i - 12 := x] && bad[12 + n..16 + n] == data[12 + n..16 + n];
      assert Changed(r, bad[12..12 + n], i - 12);
    } else {
      assert bad[12..12 + n] == r && bad[12 + n..16 + n] == data[12 + n..16 + n][i - 12 - n := x];
      Uint32Compares(sum(r), bad[12 + n..16 + n]);
    }
  }

  /** Every written frame with one byte of its payload, or of the payload's checksum, changed is such an input. */
  lemma SkipPassesOverDamage(sum: Checksum, r: Record, tail: seq<byte>, i: nat, x: byte, max: nat)
    requires |r| <= max <= MAX_INT
    requires HEADER_SIZE <= i < |Frame(sum, r)| && x != Frame(sum, r)[i] && DetectsByteChange(sum)
    ensures var bad := (Frame(sum, r) + tail)[i := x];
            && SkipFrame(sum, bad, max) == Skipped(|Frame(sum, r)|) && Scanner(sum, max)(bad) == Bad(DataCorrupted)
            && DamagedPayload(sum, bad, max)
  {
    hide Uint32, PutUint32, Uint64, PutUint64;
    var data := Frame(sum, r) + tail;
    var bad := data[i := x];
    DataCorruptionDetected(sum, r, tail, i, x, max);
    FrameParts(sum, r, tail);
    assert bad[..8] == data[..8];
  }

  lemma CorruptionDetected(sum: Checksum, r: Record, tail: seq<byte>, i: nat, x: byte, max: nat)
    requires |r| <= max <= MAX_INT
    requires i < |Frame(sum, r)| && x != Frame(sum, r)[i] && DetectsByteChange(sum)
    ensures Scanner(sum, max)((Frame(sum, r) + tail)[i := x])
            == Bad(if i < HEADER_SIZE then HeaderCorrupted else DataCorrupted)
  {
    if i < HEADER_SIZE {
      HeaderCorruptionDetected(sum, r, tail, i, x, max);
    } else {
      DataCorruptionDetected(sum, r, tail, i, x, max);
    }
  }

  /** A stream with one byte changed in the frame of r still yields every record before r, then reports the damage:
      no changed record is ever returned. */
  lemma ScanOfCorruptStream(sum: Checksum, before: seq<Record>, r: Record, after: seq<Record>, i: nat, x: byte,
                            max: nat)
    requires max <= MAX_INT && Fit(before, Fits(max)) && |r| <= max
    requires i < |Frame(sum, r)| && x != Frame(sum, r)[i] && DetectsByteChange(sum)
    ensures Encode(Writer(sum), before + [r] + after)
            == Encode(Writer(sum), before) + (Frame(sum, r) + Encode(Writer(sum), after))
    ensures ScanAll(Scanner(sum, max),
                    Encode(Writer(sum), before) + (Frame(sum, r) + Encode(Writer(sum), after))[i := x])
            == Scanned(before, |Encode(Writer(sum), before)|,
                       Some(if i < HEADER_SIZE then HeaderCorrupted else DataCorrupted))
  {
    var tail := Encode(Writer(sum), after);
    EncodeAround(Writer(sum), before, r, after);
    CorruptionDetected(sum, r, tail, i, x, max);
    RecordIoReads(sum, max);
    ScanDamaged(Writer(sum), Scanner(sum, max), Fits(max), TornWrite, before, (Frame(sum, r) + tail)[i := x],
                if i < HEADER_SIZE then HeaderCorrupted else DataCorrupted);
  }
}
