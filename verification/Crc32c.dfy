/** CRC-32C (section 12.1 of RFC 3720), masked as the RecordIO format stores it, and what it detects. */
module Crc32c {
  import opened Bytes

  /** The Castagnoli polynomial, bits reversed. */
  const POLYNOMIAL: bv32 := 0x82F63B78
  const MASK_DELTA: bv32 := 0xa282ead8

  /** One bit of polynomial division. */
  function Bit(c: bv32): bv32 {
    if c & 1 == 1 then (c >> 1) ^ POLYNOMIAL else c >> 1
  }

  function FourBits(c: bv32): bv32 {
    Bit(Bit(Bit(Bit(c))))
  }

  function Absorb(c: bv32, b: byte): bv32 {
    c ^ (b as bv32)
  }

  /** How one byte changes the register: what the 256-word table of the byte-wise algorithm looks up. */
  function ByteStep(c: bv32, b: byte): bv32 {
    FourBits(FourBits(Absorb(c, b)))
  }

  /** The register after feeding `data` byte by byte to register `c`. */
  function Feed<Register>(step: (Register, byte) -> Register, c: Register, data: seq<byte>): Register
    decreases |data|
  {
    if data == [] then c else Feed(step, step(c, data[0]), data[1..])
  }

  function Invert(c: bv32): bv32 {
    c ^ 0xFFFFFFFF
  }

  function Rotate(c: bv32): bv32 {
    (c >> 15) | (c << 17)
  }

  function AddDelta(c: bv32): bv32 {
    c + MASK_DELTA
  }

  /** The stored form of a finished register. */
  function Finish<Register>(invert: Register -> Register, rotate: Register -> Register, add: Register -> Register,
                            c: Register): Register {
    add(rotate(invert(c)))
  }

  function MaskedCrc(data: seq<byte>): bv32 {
    Finish(Invert, Rotate, AddDelta, Feed(ByteStep, 0xFFFFFFFF, data))
  }

  // ---- The register is reversible, for a fixed byte and for a fixed register

  lemma BitInjective(a: bv32, b: bv32)
    requires Bit(a) == Bit(b)
    ensures a == b
  {
  }

  lemma FourBitsInjective(a: bv32, b: bv32)
    requires FourBits(a) == FourBits(b)
    ensures a == b
  {
    hide Bit;
    BitInjective(Bit(Bit(Bit(a))), Bit(Bit(Bit(b))));
    BitInjective(Bit(Bit(a)), Bit(Bit(b)));
    BitInjective(Bit(a), Bit(b));
    BitInjective(a, b);
  }

  ghost predicate Injective<Register(!new)>(f: Register -> Register) {
    forall a, b :: f(a) == f(b) ==> a == b
  }

  lemma AbsorbInjective(a: bv32, b: bv32, x: byte, y: byte)
    requires Absorb(a, x) == Absorb(b, y)
    ensures x == y ==> a == b
    ensures a == b ==> x == y
  {
  }

  lemma MaskInjective()
    ensures Injective(Invert) && Injective(Rotate) && Injective(AddDelta)
  {
    assert forall a, b :: Invert(a) == Invert(b) ==> a == b;
    assert forall a, b :: Rotate(a) == Rotate(b) ==> a == b;
    assert forall a, b :: AddDelta(a) == AddDelta(b) ==> a == b;
  }

  ghost predicate Reversible<Register(!new)>(step: (Register, byte) -> Register) {
    && (forall a, b, x :: step(a, x) == step(b, x) ==> a == b)
    && (forall a, x, y :: step(a, x) == step(a, y) ==> x == y)
  }

  lemma ByteStepReversible()
    ensures Reversible(ByteStep)
  {
    hide FourBits, Absorb;
    forall a, b, x, y | ByteStep(a, x) == ByteStep(b, y) ensures (x == y ==> a == b) && (a == b ==> x == y) {
      FourBitsInjective(FourBits(Absorb(a, x)), FourBits(Absorb(b, y)));
      FourBitsInjective(Absorb(a, x), Absorb(b, y));
      AbsorbInjective(a, b, x, y);
    }
  }

  lemma {:induction false} FeedInjective<Register(!new)>(step: (Register, byte) -> Register, a: Register,
                                                         b: Register, data: seq<byte>)
    requires Reversible(step)
    requires Feed(step, a, data) == Feed(step, b, data)
    ensures a == b
    decreases |data|
  {
    if data != [] {
      var x := data[0];
      FeedInjective(step, step(a, x), step(b, x), data[1..]);
      assert step(a, x) == step(b, x);
    }
  }

  lemma {:induction false} FeedDetects<Register(!new)>(step: (Register, byte) -> Register, c: Register,
                                                       s: seq<byte>, i: nat, x: byte)
    requires Reversible(step)
    requires i < |s| && x != s[i]
    ensures Feed(step, c, s[i := x]) != Feed(step, c, s)
    decreases i
  {
    var t := s[i := x];
    if i > 0 {
      assert t[1..] == s[1..][i - 1 := x];
      FeedDetects(step, step(c, s[0]), s[1..], i - 1, x);
    } else if Feed(step, c, t) == Feed(step, c, s) {
      assert t[1..] == s[1..];
      FeedInjective(step, step(c, x), step(c, s[0]), s[1..]);
    }
  }

  type Checksum = seq<byte> -> bv32

  /** t is s with the byte at i changed. */
  predicate Changed(s: seq<byte>, t: seq<byte>, i: nat) {
    i < |s| == |t| && s[i] != t[i] && t == s[i := t[i]]
  }

  /** Changing any one byte of any string changes its checksum. */
  ghost predicate DetectsByteChange(sum: Checksum) {
    forall s, t, i :: Changed(s, t, i) ==> sum(t) != sum(s)
  }

  lemma MaskedCrcDetectsByteChange()
    ensures DetectsByteChange(MaskedCrc)
  {
    hide ByteStep, Invert, Rotate, AddDelta;
    ByteStepReversible();
    MaskInjective();
    forall s, t, i | Changed(s, t, i) ensures MaskedCrc(t) != MaskedCrc(s) {
      FeedDetects(ByteStep, 0xFFFFFFFF, s, i, t[i]);
    }
  }

  /** A register and the bytes fed to it: one byte at a time. */
  lemma FeedNext<Register>(step: (Register, byte) -> Register, c: Register, b: byte, rest: seq<byte>)
    ensures Feed(step, c, [b] + rest) == Feed(step, step(c, b), rest)
  {
    assert ([b] + rest)[1..] == rest;
  }

  /** The check value of CRC-32C: the checksum of the digits 1 to 9 is E3069283, before it is masked. */
  lemma CheckValue()
    ensures Invert(Feed(ByteStep, 0xFFFFFFFF, [0x31, 0x32, 0x33, 0x34, 0x35, 0x36, 0x37, 0x38, 0x39])) == 0xE3069283
    ensures MaskedCrc([0x31, 0x32, 0x33, 0x34, 0x35, 0x36, 0x37, 0x38, 0x39]) == 0xC78AB0E5
  {
    hide ByteStep, Feed;
    DigitSteps();
    var d9: seq<byte> := [];
    var d8: seq<byte> := [0x39] + d9;
    var d7: seq<byte> := [0x38] + d8;
    var d6: seq<byte> := [0x37] + d7;
    var d5: seq<byte> := [0x36] + d6;
    var d4: seq<byte> := [0x35] + d5;
    var d3: seq<byte> := [0x34] + d4;
    var d2: seq<byte> := [0x33] + d3;
    var d1: seq<byte> := [0x32] + d2;
    var d0: seq<byte> := [0x31] + d1;
    assert d0 == [0x31, 0x32, 0x33, 0x34, 0x35, 0x36, 0x37, 0x38, 0x39];
    FeedNext(ByteStep, 0xFFFFFFFF, 0x31, d1);
    FeedNext(ByteStep, 0x6F0A661C, 0x32, d2);
    FeedNext(ByteStep, 0x8CAA3B9F, 0x33, d3);
    FeedNext(ByteStep, 0xEF84D04D, 0x34, d4);
    FeedNext(ByteStep, 0x09C50B11, 0x35, d5);
    FeedNext(ByteStep, 0xE72EDCCA, 0x36, d6);
    FeedNext(ByteStep, 0xBECA8E79, 0x37, d7);
    FeedNext(ByteStep, 0xEDBD6815, 0x38, d8);
    FeedNext(ByteStep, 0x9F787F65, 0x39, d9);
    FeedNone(0x1CF96D7C);
  }

  lemma FeedNone(c: bv32)
    ensures Feed(ByteStep, c, []) == c
  {
  }

  lemma DigitSteps()
    ensures ByteStep(0xFFFFFFFF, 0x31) == 0x6F0A661C
    ensures ByteStep(0x6F0A661C, 0x32) == 0x8CAA3B9F
    ensures ByteStep(0x8CAA3B9F, 0x33) == 0xEF84D04D
    ensures ByteStep(0xEF84D04D, 0x34) == 0x09C50B11
    ensures ByteStep(0x09C50B11, 0x35) == 0xE72EDCCA
    ensures ByteStep(0xE72EDCCA, 0x36) == 0xBECA8E79
    ensures ByteStep(0xBECA8E79, 0x37) == 0xEDBD6815
    ensures ByteStep(0xEDBD6815, 0x38) == 0x9F787F65
    ensures ByteStep(0x9F787F65, 0x39) == 0x1CF96D7C
  {
  }
}
