/** A byte and the number it stands for, bit by bit. */
module ByteNumbers {

  type byte = bv8

  function FromBits(p0: bool, p1: bool, p2: bool, p3: bool, p4: bool, p5: bool, p6: bool, p7: bool): byte {
    (if p0 then 1 else 0) | (if p1 then 2 else 0) | (if p2 then 4 else 0) | (if p3 then 8 else 0) |
    (if p4 then 16 else 0) | (if p5 then 32 else 0) | (if p6 then 64 else 0) | (if p7 then 128 else 0)
  }

  function Weigh(p: bool, rest: nat): nat {
    (if p then 1 else 0) + 2 * rest
  }

  function Sum(p0: bool, p1: bool, p2: bool, p3: bool, p4: bool, p5: bool, p6: bool, p7: bool): nat {
    Weigh(p0, Weigh(p1, Weigh(p2, Weigh(p3, Weigh(p4, Weigh(p5, Weigh(p6, Weigh(p7, 0))))))))
  }

  predicate Has(b: byte, bit: byte) {
    b & bit != 0
  }

  function Number(b: byte): nat {
    Sum(Has(b, 1), Has(b, 2), Has(b, 4), Has(b, 8), Has(b, 16), Has(b, 32), Has(b, 64), Has(b, 128))
  }

  predicate Odd(n: nat) {
    n % 2 == 1
  }

  function ByteOf(n: nat): byte
    requires n < 256
  {
    FromBits(Odd(n), Odd(n / 2), Odd(n / 4), Odd(n / 8), Odd(n / 16), Odd(n / 32), Odd(n / 64), Odd(n / 128))
  }

  lemma BitsOf(p0: bool, p1: bool, p2: bool, p3: bool, p4: bool, p5: bool, p6: bool, p7: bool)
    ensures var b := FromBits(p0, p1, p2, p3, p4, p5, p6, p7);
            && Has(b, 1) == p0 && Has(b, 2) == p1 && Has(b, 4) == p2 && Has(b, 8) == p3
            && Has(b, 16) == p4 && Has(b, 32) == p5 && Has(b, 64) == p6 && Has(b, 128) == p7
  {
  }

  lemma FromBitsOf(b: byte)
    ensures FromBits(Has(b, 1), Has(b, 2), Has(b, 4), Has(b, 8), Has(b, 16), Has(b, 32), Has(b, 64), Has(b, 128)) == b
  {
  }

  lemma Splits(n: nat)
    ensures Weigh(Odd(n), n / 2) == n
  {
  }

  lemma Weighs(p: bool, rest: nat)
    ensures Odd(Weigh(p, rest)) == p && Weigh(p, rest) / 2 == rest
  {
  }

  /** The eight binary digits of a number below 256. */
  lemma DigitsSum(n: nat)
    requires n < 256
    ensures Sum(Odd(n), Odd(n / 2), Odd(n / 4), Odd(n / 8), Odd(n / 16), Odd(n / 32), Odd(n / 64), Odd(n / 128)) == n
  {
    hide Weigh;
    assert n / 4 == n / 2 / 2 && n / 8 == n / 4 / 2 && n / 16 == n / 8 / 2 && n / 32 == n / 16 / 2
           && n / 64 == n / 32 / 2;
    assert n / 128 == n / 64 / 2 && n / 128 / 2 == 0;
    Splits(n); Splits(n / 2); Splits(n / 4); Splits(n / 8);
    Splits(n / 16); Splits(n / 32); Splits(n / 64); Splits(n / 128);
  }

  lemma SumDigits(p0: bool, p1: bool, p2: bool, p3: bool, p4: bool, p5: bool, p6: bool, p7: bool)
    ensures var n := Sum(p0, p1, p2, p3, p4, p5, p6, p7);
            && n < 256
            && Odd(n) == p0 && Odd(n / 2) == p1 && Odd(n / 4) == p2 && Odd(n / 8) == p3
            && Odd(n / 16) == p4 && Odd(n / 32) == p5 && Odd(n / 64) == p6 && Odd(n / 128) == p7
  {
    var w7 := Weigh(p7, 0);
    var w6 := Weigh(p6, w7);
    var w5 := Weigh(p5, w6);
    var w4 := Weigh(p4, w5);
    var w3 := Weigh(p3, w4);
    var w2 := Weigh(p2, w3);
    var w1 := Weigh(p1, w2);
    var n := Weigh(p0, w1);
    assert n < 256;
    Weighs(p0, w1); Weighs(p1, w2); Weighs(p2, w3); Weighs(p3, w4); Weighs(p4, w5); Weighs(p5, w6);
    Weighs(p6, w7); Weighs(p7, 0);
    assert n / 4 == n / 2 / 2 && n / 8 == n / 4 / 2 && n / 16 == n / 8 / 2 && n / 32 == n / 16 / 2
           && n / 64 == n / 32 / 2;
    assert n / 128 == n / 64 / 2;
  }

  lemma ByteOfNumber(n: nat)
    requires n < 256
    ensures Number(ByteOf(n)) == n
  {
    hide FromBits, Sum, Odd;
    BitsOf(Odd(n), Odd(n / 2), Odd(n / 4), Odd(n / 8), Odd(n / 16), Odd(n / 32), Odd(n / 64), Odd(n / 128));
    DigitsSum(n);
  }

  lemma NumberOfByte(b: byte)
    ensures Number(b) < 256 && ByteOf(Number(b)) == b
  {
    hide FromBits, Sum, Odd, Has;
    SumDigits(Has(b, 1), Has(b, 2), Has(b, 4), Has(b, 8), Has(b, 16), Has(b, 32), Has(b, 64), Has(b, 128));
    FromBitsOf(b);
  }
}

/** Bytes and the little-endian integers of the RecordIO framing (Go's encoding/binary). */
module Bytes {
  import ByteNumbers

  type byte = ByteNumbers.byte

  const U64 := 0x1_0000_0000_0000_0000

  /** 256 to the power k. */
  function Radix(k: nat): (r: nat)
    ensures r > 0
  {
    if k == 0 then 1 else 256 * Radix(k - 1)
  }

  /** The k low bytes of n, least significant first. */
  function ToLittleEndian(n: nat, k: nat): (s: seq<byte>)
    ensures |s| == k
  {
    if k == 0 then [] else [ByteNumbers.ByteOf(n % 256)] + ToLittleEndian(n / 256, k - 1)
  }

  function FromLittleEndian(s: seq<byte>): (n: nat)
  {
    if s == [] then 0 else ByteNumbers.Number(s[0]) + 256 * FromLittleEndian(s[1..])
  }

  lemma {:induction false} LittleEndianBound(s: seq<byte>)
    ensures FromLittleEndian(s) < Radix(|s|)
  {
    if s != [] {
      LittleEndianBound(s[1..]);
      ByteNumbers.NumberOfByte(s[0]);
    }
  }

  lemma {:induction false} LittleEndianDecodes(n: nat, k: nat)
    requires n < Radix(k)
    ensures FromLittleEndian(ToLittleEndian(n, k)) == n
  {
    if k > 0 {
      LittleEndianDecodes(n / 256, k - 1);
      ByteNumbers.ByteOfNumber(n % 256);
      assert ToLittleEndian(n, k)[1..] == ToLittleEndian(n / 256, k - 1);
    }
  }

  lemma LowByte(low: int, rest: nat)
    requires 0 <= low < 256
    ensures (low + 256 * rest) % 256 == low && (low + 256 * rest) / 256 == rest
  {
  }

  lemma {:induction false} LittleEndianEncodes(s: seq<byte>)
    ensures ToLittleEndian(FromLittleEndian(s), |s|) == s
  {
    if s != [] {
      LittleEndianEncodes(s[1..]);
      ByteNumbers.NumberOfByte(s[0]);
      LowByte(ByteNumbers.Number(s[0]), FromLittleEndian(s[1..]));
      assert s == [s[0]] + s[1..];
    }
  }

  lemma DivideTwice(n: nat, r: nat)
    requires r > 0
    ensures n / 256 / r == n / (256 * r)
  {
    var q, rest := n / (256 * r), n % (256 * r);
    assert n == q * (256 * r) + rest;
    assert n / 256 == q * r + rest / 256 by { assert n == 256 * (q * r) + rest; }
    assert rest / 256 < r;
    QuotientIs(n / 256, r, q, rest / 256);
  }

  lemma MultipleIsLarge(x: int, r: int)
    requires r >= 0
    ensures x >= 1 ==> x * r >= r
    ensures x <= -1 ==> x * r <= -r
  {
    if x >= 1 { assert (x - 1) * r >= 0; }
    if x <= -1 { assert (-1 - x) * r >= 0; }
  }

  lemma QuotientIs(n: nat, r: nat, q: nat, rest: nat)
    requires n == q * r + rest && rest < r
    ensures n / r == q
  {
    assert (n / r - q) * r == rest - n % r;
    MultipleIsLarge(n / r - q, r);
  }

  /** Byte i is the digit of weight 256^i. */
  lemma {:induction false} LittleEndianByte(n: nat, k: nat, i: nat)
    requires i < k
    ensures ByteNumbers.Number(ToLittleEndian(n, k)[i]) == n / Radix(i) % 256
    decreases k
  {
    if i == 0 {
      ByteNumbers.ByteOfNumber(n % 256);
    } else {
      LittleEndianByte(n / 256, k - 1, i - 1);
      DivideTwice(n, Radix(i - 1));
    }
  }

  lemma RadixEight()
    ensures Radix(8) == U64
  {
    assert Radix(4) == 256 * 256 * 256 * 256;
    assert Radix(8) == 256 * 256 * 256 * 256 * Radix(4);
  }

  function PutUint64(n: nat): (s: seq<byte>)
    requires n < U64
    ensures |s| == 8
    ensures Uint64(s) == n
  {
    RadixEight();
    LittleEndianDecodes(n, 8);
    ToLittleEndian(n, 8)
  }

  function Uint64(s: seq<byte>): (n: nat)
    requires |s| == 8
    ensures n < U64
  {
    RadixEight();
    LittleEndianBound(s);
    FromLittleEndian(s)
  }

  lemma PutUint64Surjective(s: seq<byte>)
    requires |s| == 8
    ensures PutUint64(Uint64(s)) == s
  {
    LittleEndianEncodes(s);
  }

  /** The bytes of a word, least significant first. */
  function PutUint32(c: bv32): (s: seq<byte>)
    ensures |s| == 4
  {
    [(c & 0xFF) as bv8, ((c >> 8) & 0xFF) as bv8, ((c >> 16) & 0xFF) as bv8, ((c >> 24) & 0xFF) as bv8]
  }

  function Word(b0: byte, b1: byte, b2: byte, b3: byte): bv32 {
    (b0 as bv32) | (b1 as bv32 << 8) | (b2 as bv32 << 16) | (b3 as bv32 << 24)
  }

  /** A word from its bytes. */
  function Uint32(s: seq<byte>): bv32
    requires |s| == 4
  {
    Word(s[0], s[1], s[2], s[3])
  }

  lemma Uint32Decodes(c: bv32)
    ensures Uint32(PutUint32(c)) == c
  {
  }

  lemma WordBytes(b0: byte, b1: byte, b2: byte, b3: byte)
    ensures PutUint32(Word(b0, b1, b2, b3)) == [b0, b1, b2, b3]
  {
  }

  lemma PutUint32Surjective(s: seq<byte>)
    requires |s| == 4
    ensures PutUint32(Uint32(s)) == s
  {
    hide PutUint32, Word;
    WordBytes(s[0], s[1], s[2], s[3]);
  }

  /** Comparing the bytes of a word is comparing the word. */
  lemma Uint32Compares(c: bv32, s: seq<byte>)
    requires |s| == 4
    ensures s == PutUint32(c) <==> Uint32(s) == c
  {
    hide PutUint32, Uint32;
    Uint32Decodes(c);
    PutUint32Surjective(s);
  }
}
