/** Streams of self-delimiting frames, for any frame format: the theory that RecordIO instantiates. `frame`
    prints one record, `read` makes one step at the front of some bytes. */
module FramedStream {
  import opened Options
  import opened Bytes

  /** Nothing there, an error, or a record that takes up `size` bytes. */
  datatype Step<+R, +E> = End | Bad(fault: E) | Good(record: R, size: nat)

  /** The records of a whole scan, the offset after the last of them, and the error that ended it, if any. */
  datatype Scanned<+R, +E> = Scanned(records: seq<R>, valid: nat, fault: Option<E>)

  type Printer<!R> = R -> seq<byte>
  type Reader<!R, !E> = seq<byte> -> Step<R, E>

  ghost predicate Progress<R, E>(read: Reader<R, E>) {
    forall data :: read(data).Good? ==> 0 < read(data).size <= |data|
  }

  function Encode<R>(frame: Printer<R>, rs: seq<R>): seq<byte> {
    if rs == [] then [] else frame(rs[0]) + Encode(frame, rs[1..])
  }

  /** Where the first j frames end. */
  function Boundary<R>(frame: Printer<R>, rs: seq<R>, j: nat): nat
    requires j <= |rs|
  {
    |Encode(frame, rs[..j])|
  }

  function ScanAll<R, E>(read: Reader<R, E>, data: seq<byte>): Scanned<R, E>
    requires Progress(read)
    decreases |data|
  {
    match read(data)
    case End => Scanned([], 0, None)
    case Bad(fault) => Scanned([], 0, Some(fault))
    case Good(r, size) =>
      var rest := ScanAll(read, data[size..]);
      Scanned([r] + rest.records, size + rest.valid, rest.fault)
  }

  /** `read` undoes `frame` on records that fit, and reports `torn` on every proper part of a frame. */
  ghost predicate Reads<R(!new), E(!new)>(frame: Printer<R>, read: Reader<R, E>, fits: R -> bool, torn: E) {
    && Progress(read)
    && read([]) == End
    && (forall r, tail :: fits(r) ==> read(frame(r) + tail) == Good(r, |frame(r)|))
    && (forall r, k :: fits(r) && 0 < k < |frame(r)| ==> read(frame(r)[..k]) == Bad(torn))
  }

  /** `read` accepts nothing but whole frames of records that fit. */
  ghost predicate Accepts<R(!new), E(!new)>(frame: Printer<R>, read: Reader<R, E>, fits: R -> bool) {
    && Progress(read)
    && (forall data :: read(data) == End ==> data == [])
    && (forall data :: read(data).Good? ==>
          var Good(r, size) := read(data); fits(r) && data[..size] == frame(r))
  }

  ghost predicate Fit<R>(rs: seq<R>, fits: R -> bool) {
    forall i :: 0 <= i < |rs| ==> fits(rs[i])
  }

  /** The stream cut at k holds exactly the first j frames. */
  ghost predicate WholeFrames<R>(frame: Printer<R>, rs: seq<R>, k: nat, j: nat) {
    && j <= |rs|
    && Boundary(frame, rs, j) <= k
    && (j < |rs| ==> k < Boundary(frame, rs, j + 1))
  }

  lemma {:induction false} EncodeConcat<R>(frame: Printer<R>, rs: seq<R>, ts: seq<R>)
    ensures Encode(frame, rs + ts) == Encode(frame, rs) + Encode(frame, ts)
  {
    if rs == [] {
      assert rs + ts == ts;
    } else {
      assert (rs + ts)[1..] == rs[1..] + ts;
      EncodeConcat(frame, rs[1..], ts);
    }
  }

  lemma EncodeAround<R>(frame: Printer<R>, before: seq<R>, r: R, after: seq<R>)
    ensures Encode(frame, before + [r] + after) == Encode(frame, before) + (frame(r) + Encode(frame, after))
  {
    assert before + [r] + after == before + ([r] + after);
    EncodeConcat(frame, before, [r] + after);
    assert ([r] + after)[1..] == after;
  }

  lemma EncodeFrom<R>(frame: Printer<R>, rs: seq<R>, i: nat, k: nat)
    requires i <= |rs| && Boundary(frame, rs, i) <= k <= |Encode(frame, rs)|
    ensures k - Boundary(frame, rs, i) <= |Encode(frame, rs[i..])|
    ensures Encode(frame, rs)[Boundary(frame, rs, i)..k] == Encode(frame, rs[i..])[..k - Boundary(frame, rs, i)]
  {
    EncodeConcat(frame, rs[..i], rs[i..]);
    assert rs[..i] + rs[i..] == rs;
  }

  lemma BoundaryCons<R>(frame: Printer<R>, rs: seq<R>, j: nat)
    requires 1 <= j <= |rs|
    ensures Boundary(frame, rs, j) == |frame(rs[0])| + Boundary(frame, rs[1..], j - 1)
  {
    assert rs[..j][1..] == rs[1..][..j - 1];
  }

  lemma BoundaryOne<R>(frame: Printer<R>, rs: seq<R>)
    requires rs != []
    ensures Boundary(frame, rs, 0) == 0
    ensures Boundary(frame, rs, 1) == |frame(rs[0])|
  {
    assert rs[..1][1..] == [];
  }

  lemma {:induction false} CutHasWholeFrames<R>(frame: Printer<R>, rs: seq<R>, k: nat) returns (j: nat)
    requires k <= |Encode(frame, rs)|
    ensures WholeFrames(frame, rs, k, j)
  {
    if rs == [] || k < |frame(rs[0])| {
      j := 0;
      if rs != [] { BoundaryOne(frame, rs); }
    } else {
      var i := CutHasWholeFrames(frame, rs[1..], k - |frame(rs[0])|);
      j := i + 1;
      BoundaryCons(frame, rs, j);
      if j < |rs| { BoundaryCons(frame, rs, j + 1); }
    }
  }

  lemma ScanFrame<R(!new), E(!new)>(frame: Printer<R>, read: Reader<R,
                    E>, fits: R -> bool, torn: E, r: R, tail: seq<byte>)
    requires Reads(frame, read, fits, torn) && fits(r)
    ensures var rest := ScanAll(read, tail);
            ScanAll(read, frame(r) + tail) == Scanned([r] + rest.records, |frame(r)| + rest.valid, rest.fault)
  {
    assert (frame(r) + tail)[|frame(r)|..] == tail;
  }

  lemma ScanPart<R(!new), E(!new)>(frame: Printer<R>, read: Reader<R, E>, fits: R -> bool, torn: E, r: R, k: nat)
    requires Reads(frame, read, fits, torn) && fits(r) && k < |frame(r)|
    ensures ScanAll(read, frame(r)[..k]) == Scanned([], 0, if k == 0 then None else Some(torn))
  {
    if k == 0 { assert frame(r)[..k] == []; }
  }

  lemma CutCons<R>(frame: Printer<R>, rs: seq<R>, k: nat, j: nat)
    requires k <= |Encode(frame, rs)| && WholeFrames(frame, rs, k, j) && j > 0
    ensures var n := |frame(rs[0])|;
            && n <= k && k - n <= |Encode(frame, rs[1..])|
            && Encode(frame, rs)[..k] == frame(rs[0]) + Encode(frame, rs[1..])[..k - n]
            && WholeFrames(frame, rs[1..], k - n, j - 1)
            && Boundary(frame, rs, j) == n + Boundary(frame, rs[1..], j - 1)
  {
    BoundaryCons(frame, rs, j);
    if j < |rs| { BoundaryCons(frame, rs, j + 1); }
  }

  lemma ScanCutCons<R(!new), E(!new)>(
      frame: Printer<R>, read: Reader<R, E>, fits: R -> bool, torn: E, rs: seq<R>, k: nat, j: nat)
    requires Reads(frame, read, fits, torn) && Fit(rs, fits)
    requires k <= |Encode(frame, rs)| && WholeFrames(frame, rs, k, j) && j > 0
    ensures var n := |frame(rs[0])|;
            && n <= k && k - n <= |Encode(frame, rs[1..])|
            && var rest := ScanAll(read, Encode(frame, rs[1..])[..k - n]);
               ScanAll(read, Encode(frame, rs)[..k]) == Scanned([rs[0]] + rest.records, n + rest.valid, rest.fault)
  {
    CutCons(frame, rs, k, j);
    ScanFrame(frame, read, fits, torn, rs[0], Encode(frame, rs[1..])[..k - |frame(rs[0])|]);
  }

  lemma ScanCutFirst<R(!new), E(!new)>(
      frame: Printer<R>, read: Reader<R, E>, fits: R -> bool, torn: E, rs: seq<R>, k: nat)
    requires Reads(frame, read, fits, torn) && Fit(rs, fits)
    requires k <= |Encode(frame, rs)| && WholeFrames(frame, rs, k, 0)
    ensures ScanAll(read, Encode(frame, rs)[..k])
            == Scanned(rs[..0], Boundary(frame, rs, 0), if k == Boundary(frame, rs, 0) then None else Some(torn))
  {
    if rs == [] {
      assert Encode(frame, rs)[..k] == [];
    } else {
      BoundaryOne(frame, rs);
      assert Encode(frame, rs)[..k] == frame(rs[0])[..k];
      ScanPart(frame, read, fits, torn, rs[0], k);
    }
  }

  lemma CutCount<R>(frame: Printer<R>, rs: seq<R>, k: nat, j: nat)
    requires WholeFrames(frame, rs, k, j)
    ensures j <= |rs|
  {
  }

  lemma {:induction false} ScanCut<R(!new), E(!new)>(
      frame: Printer<R>, read: Reader<R, E>, fits: R -> bool, torn: E, rs: seq<R>, k: nat, j: nat)
    requires Reads(frame, read, fits, torn) && Fit(rs, fits)
    requires k <= |Encode(frame, rs)| && WholeFrames(frame, rs, k, j)
    ensures ScanAll(read, Encode(frame, rs)[..k])
            == Scanned(rs[..j], Boundary(frame, rs, j), if k == Boundary(frame, rs, j) then None else Some(torn))
  {
    hide Reads, ScanAll, Encode, WholeFrames, Boundary;
    if j == 0 {
      ScanCutFirst(frame, read, fits, torn, rs, k);
    } else {
      CutCount(frame, rs, k, j);
      var n := |frame(rs[0])|;
      ScanCutCons(frame, read, fits, torn, rs, k, j);
      CutCons(frame, rs, k, j);
      ScanCut(frame, read, fits, torn, rs[1..], k - n, j - 1);
      assert rs[..j] == [rs[0]] + rs[1..][..j - 1];
    }
  }

  lemma CanonicalStep<R, E>(frame: Printer<R>, data: seq<byte>, r: R, size: nat, rest: Scanned<R, E>)
    requires size <= |data| && data[..size] == frame(r)
    requires rest.valid <= |data[size..]| && data[size..][..rest.valid] == Encode(frame, rest.records)
    ensures data[..size + rest.valid] == Encode(frame, [r] + rest.records)
    ensures data[size..] == Encode(frame, rest.records) ==> data == Encode(frame, [r] + rest.records)
  {
    assert ([r] + rest.records)[1..] == rest.records;
    assert data[..size + rest.valid] == data[..size] + data[size..][..rest.valid];
    assert data == data[..size] + data[size..];
  }

  lemma {:induction false} ScanCanonical<R(!new), E(!new)>(
      frame: Printer<R>, read: Reader<R, E>, fits: R -> bool, data: seq<byte>)
    requires Accepts(frame, read, fits)
    ensures var s := ScanAll(read, data);
            && s.valid <= |data| && data[..s.valid] == Encode(frame, s.records) && Fit(s.records, fits)
            && (s.fault == None ==> data == Encode(frame, s.records))
    decreases |data|
  {
    var s := ScanAll(read, data);
    if read(data).Good? {
      var Good(r, size) := read(data);
      ScanCanonical(frame, read, fits, data[size..]);
      CanonicalStep(frame, data, r, size, ScanAll(read, data[size..]));
    }
  }

  /** A scan that has yielded `records` and stands at `at`, to be continued by the rest. */
  ghost function Resume<R, E>(records: seq<R>, at: nat, rest: Scanned<R, E>): Scanned<R, E> {
    Scanned(records + rest.records, at + rest.valid, rest.fault)
  }

  lemma ResumeStep<R, E>(read: Reader<R, E>, data: seq<byte>, at: nat, records: seq<R>)
    requires Progress(read) && at <= |data|
    ensures match read(data[at..])
            case End => Resume(records, at, ScanAll(read, data[at..])) == Scanned(records, at, None)
            case Bad(fault) => Resume(records, at, ScanAll(read, data[at..])) == Scanned(records, at, Some(fault))
            case Good(r, size) =>
              && at + size <= |data|
              && Resume(records, at, ScanAll(read, data[at..]))
                 == Resume(records + [r], at + size, ScanAll(read, data[at + size..]))
  {
    match read(data[at..]) {
      case End =>
      case Bad(fault) =>
      case Good(r, size) =>
        assert data[at..][size..] == data[at + size..];
        var rest := ScanAll(read, data[at + size..]);
        assert records + ([r] + rest.records) == (records + [r]) + rest.records;
    }
  }

  lemma FirstFaultIsReported<R, E>(read: Reader<R, E>, data: seq<byte>, fault: E)
    requires Progress(read)
    requires ScanAll(read, data).fault != Some(fault)
    ensures read(data) != Bad(fault)
  {
  }

  /** Damage in frame j that `read` notices ends the scan after the first j records. */
  lemma {:induction false} ScanDamaged<R(!new), E(!new)>(
      frame: Printer<R>, read: Reader<R, E>, fits: R -> bool, torn: E, rs: seq<R>, tail: seq<byte>, fault: E)
    requires Reads(frame, read, fits, torn) && Fit(rs, fits)
    requires read(tail) == Bad(fault)
    ensures ScanAll(read, Encode(frame, rs) + tail) == Scanned(rs, |Encode(frame, rs)|, Some(fault))
  {
    if rs == [] {
      assert Encode(frame, rs) + tail == tail;
    } else {
      var rest := Encode(frame, rs[1..]) + tail;
      assert Encode(frame, rs) + tail == frame(rs[0]) + rest;
      ScanFrame(frame, read, fits, torn, rs[0], rest);
      ScanDamaged(frame, read, fits, torn, rs[1..], tail, fault);
    }
  }
}
