/** The object keys of the WAL: `<prefix>/<20-digit sequence number>.recordio`. */
module WalKeys {
  import Lexicographic

  const U64 := 0x1_0000_0000_0000_0000
  const SUFFIX := ".recordio"
  const WIDTH := 20

  function Power10(k: nat): (r: nat)
    ensures r > 0
  {
    if k == 0 then 1 else 10 * Power10(k - 1)
  }

  function Digit(d: nat): (c: char)
    requires d < 10
    ensures IsDigit(c) && DigitValue(c) == d
  {
    '0' + d as char
  }

  predicate IsDigit(c: char) {
    '0' <= c <= '9'
  }

  function DigitValue(c: char): nat
    requires IsDigit(c)
  {
    (c - '0') as nat
  }

  /** The k low decimal digits of n, zero-padded: what %0kd prints when n has at most k digits. */
  function Decimal(n: nat, k: nat): (s: string)
    ensures |s| == k
  {
    if k == 0 then "" else Decimal(n / 10, k - 1) + [Digit(n % 10)]
  }

  function SegmentKey(prefix: string, n: nat): string {
    prefix + "/" + Decimal(n, WIDTH) + SUFFIX
  }

  // ---- parseSeq

  datatype Parsed = Seq(n: nat) | BadKey

  /** path.Base: the last element of a path. */
  function Base(path: string): string {
    if path == "" then "."
    else if path[|path| - 1] == '/' then (if |path| == 1 then "/" else Base(path[..|path| - 1]))
    else LastElement(path)
  }

  function LastElement(path: string): string {
    if path == "" then ""
    else if path[|path| - 1] == '/' then ""
    else LastElement(path[..|path| - 1]) + [path[|path| - 1]]
  }

  /** strconv.ParseUint in base 10 without its 64-bit limit. */
  function DecimalValue(s: string): nat
    requires forall i :: 0 <= i < |s| ==> IsDigit(s[i])
  {
    if s == "" then 0 else 10 * DecimalValue(s[..|s| - 1]) + DigitValue(s[|s| - 1])
  }

  function ParseSeq(key: string): Parsed {
    var base := Base(key);
    if |base| < |SUFFIX| || base[|base| - |SUFFIX|..] != SUFFIX then BadKey
    else
      var raw := base[..|base| - |SUFFIX|];
      if |raw| != WIDTH then BadKey
      else if exists i :: 0 <= i < |raw| && !IsDigit(raw[i]) then BadKey
      else if DecimalValue(raw) >= U64 || DecimalValue(raw) == 0 then BadKey
      else Seq(DecimalValue(raw))
  }

  // ---- Laws

  lemma {:induction false} DecimalDigits(n: nat, k: nat)
    ensures forall i :: 0 <= i < k ==> IsDigit(Decimal(n, k)[i])
  {
    if k > 0 { DecimalDigits(n / 10, k - 1); }
  }

  lemma {:induction false} DecimalRoundTrip(n: nat, k: nat)
    requires n < Power10(k)
    ensures forall i :: 0 <= i < k ==> IsDigit(Decimal(n, k)[i])
    ensures DecimalValue(Decimal(n, k)) == n
  {
    DecimalDigits(n, k);
    if k > 0 {
      DecimalRoundTrip(n / 10, k - 1);
      assert Decimal(n, k)[..k - 1] == Decimal(n / 10, k - 1);
    }
  }

  lemma {:induction false} ValueRoundTrip(s: string)
    requires forall i :: 0 <= i < |s| ==> IsDigit(s[i])
    ensures Decimal(DecimalValue(s), |s|) == s
  {
    if s != "" {
      var init := s[..|s| - 1];
      ValueRoundTrip(init);
      var n, d := DecimalValue(init), DigitValue(s[|s| - 1]);
      assert (10 * n + d) / 10 == n && (10 * n + d) % 10 == d;
      assert s == init + [s[|s| - 1]];
    }
  }

  lemma WidthFitsU64()
    ensures U64 < Power10(WIDTH)
  {
    assert Power10(5) == 100000;
    assert Power10(10) == 100000 * Power10(5);
    assert Power10(15) == 100000 * Power10(10);
    assert Power10(20) == 100000 * Power10(15);
  }

  /** Fixed-width decimals sort as numbers. */
  lemma {:induction false} DecimalOrder(a: nat, b: nat, k: nat)
    requires a < Power10(k) && b < Power10(k)
    ensures Lexicographic.Less(Decimal(a, k), Decimal(b, k)) <==> a < b
    ensures Decimal(a, k) == Decimal(b, k) <==> a == b
  {
    if k > 0 {
      DecimalOrder(a / 10, b / 10, k - 1);
      var x, y := [Digit(a % 10)], [Digit(b % 10)];
      Lexicographic.SameLength(Decimal(a / 10, k - 1), Decimal(b / 10, k - 1), x, y);
      assert Lexicographic.Less(x, y) <==> a % 10 < b % 10;
      DecimalRoundTrip(a, k);
      DecimalRoundTrip(b, k);
    }
  }

  lemma KeyLess(prefix: string, a: nat, b: nat)
    requires a < U64 && b < U64
    ensures Lexicographic.Less(SegmentKey(prefix, a), SegmentKey(prefix, b)) <==> a < b
  {
    WidthFitsU64();
    var x, y := Decimal(a, WIDTH), Decimal(b, WIDTH);
    DecimalOrder(a, b, WIDTH);
    assert SegmentKey(prefix, a) == (prefix + "/") + (x + SUFFIX);
    assert SegmentKey(prefix, b) == (prefix + "/") + (y + SUFFIX);
    Lexicographic.SharedPrefix(prefix + "/", x + SUFFIX, y + SUFFIX);
    Lexicographic.SameLength(x, y, SUFFIX, SUFFIX);
    Lexicographic.Irreflexive(SUFFIX);
  }

  /** Key order is numeric order, for all 64-bit sequence numbers. */
  lemma KeyOrder(prefix: string, a: nat, b: nat)
    requires a < U64 && b < U64
    ensures Lexicographic.Less(SegmentKey(prefix, a), SegmentKey(prefix, b)) <==> a < b
    ensures SegmentKey(prefix, a) == SegmentKey(prefix, b) <==> a == b
  {
    KeyLess(prefix, a, b);
    KeyLess(prefix, b, a);
    Lexicographic.Irreflexive(SegmentKey(prefix, a));
  }

  lemma {:induction false} LastElementOf(p: string, s: string)
    requires forall i :: 0 <= i < |s| ==> s[i] != '/'
    ensures LastElement(p + "/" + s) == s
  {
    if s == "" {
      assert p + "/" + s == p + "/";
    } else {
      var init := s[..|s| - 1];
      LastElementOf(p, init);
      assert (p + "/" + s)[..|p + "/" + s| - 1] == p + "/" + init;
    }
  }

  /** parseSeq undoes segmentKey. */
  lemma ParseInvertsKey(prefix: string, n: nat)
    requires 1 <= n < U64
    ensures ParseSeq(SegmentKey(prefix, n)) == Seq(n)
  {
    WidthFitsU64();
    DecimalRoundTrip(n, WIDTH);
    var base := Decimal(n, WIDTH) + SUFFIX;
    assert SegmentKey(prefix, n) == prefix + "/" + base;
    LastElementOf(prefix, base);
    assert SegmentKey(prefix, n)[|SegmentKey(prefix, n)| - 1] == 'o';
    assert base[|base| - |SUFFIX|..] == SUFFIX && base[..|base| - |SUFFIX|] == Decimal(n, WIDTH);
  }

  /** parseSeq accepts nothing else: the last element of a key it accepts is the one segmentKey gives that number. */
  lemma ParseAcceptsOnlyKeys(key: string)
    requires ParseSeq(key).Seq?
    ensures var n := ParseSeq(key).n;
            1 <= n < U64 && Base(key) == Decimal(n, WIDTH) + SUFFIX
  {
    var base := Base(key);
    var raw := base[..|base| - |SUFFIX|];
    ValueRoundTrip(raw);
    assert base == raw + base[|base| - |SUFFIX|..];
  }
}
