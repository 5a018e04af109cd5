/** The half-precision storage format: binary16 of IEEE 754-2019 section 3.4, encoded from binary32 with
    roundTiesToEven of section 4.3.1. Magnitudes are integers in units of 2^-149, the least binary32 subnormal. */
module Fp16 {
  import opened Options
  import opened Powers

  // ---- The formats

  /** The bit fields of a float32. */
  datatype Float32 = Float32(negative: bool, exponent: nat, mantissa: nat)

  /** A uint16: the sign bit and the other fifteen. */
  datatype Half = Half(negative: bool, bits: nat)

  predicate IsFloat32(x: Float32) {
    x.exponent < 256 && x.mantissa < 0x80_0000
  }

  /** Not a NaN, not an infinity. */
  predicate Finite(x: Float32) {
    IsFloat32(x) && x.exponent < 255
  }

  predicate FiniteHalf(h: Half) {
    h.bits < 0x7C00
  }

  /** The magnitude of a finite float32. */
  function Value(x: Float32): nat {
    if x.exponent == 0 then x.mantissa else (0x80_0000 + x.mantissa) * Pow2(x.exponent - 1)
  }

  /** The magnitude of a half in units of 2^-24, the least half subnormal. */
  function Units(bits: nat): nat {
    if bits < 1024 then bits else (1024 + bits % 1024) * Pow2(bits / 1024 - 1)
  }

  /** The exponent of 2^-24 in units of 2^-149. */
  const UNIT := 125

  function HalfValue(bits: nat): nat {
    Units(bits) * Pow2(UNIT)
  }

  lemma LeadingBit(k: nat)
    ensures k == 23 ==> Pow2(k) == 0x80_0000
  {
    if k == 23 {
      assert Pow2(8) == 0x100 && Pow2(16) == 0x100 * Pow2(8);
      assert Pow2(23) == 0x80 * Pow2(16);
    }
  }

  // ---- The code

  /** Round to nearest, ties to even, given the truncated bits, the remainder and half of its range. */
  function RoundUp(half: nat, rem: nat, mid: nat): nat {
    if rem > mid || (rem == mid && half % 2 == 1) then half + 1 else half
  }

  /** m >> k, and the k bits that this shifts out. */
  function ShiftRight(m: nat, k: nat): nat
    decreases k
  {
    if k == 0 then m else ShiftRight(m / 2, k - 1)
  }

  function LowBits(m: nat, k: nat): nat
    decreases k
  {
    if k == 0 then 0 else m % 2 + 2 * LowBits(m / 2, k - 1)
  }

  /** A mantissa with its leading bit, shifted right and rounded. */
  function ShiftRounded(mant: nat, shift: nat): nat
    requires shift > 0
  {
    RoundUp(ShiftRight(mant, shift), LowBits(mant, shift), Pow2(shift - 1))
  }

  /** fp16FromFloat32; none is an overflow. */
  function FromFloat32(x: Float32): Option<Half>
    requires Finite(x)
  {
    var exp := x.exponent - 127 + 15;
    if exp >= 31 then None
    else if exp < -10 then Some(Half(x.negative, 0))
    else if exp <= 0 then Some(Half(x.negative, ShiftRounded(x.mantissa + 0x80_0000, 14 - exp)))
    else
      var half := RoundUp(exp * 1024 + x.mantissa / 0x2000, x.mantissa % 0x2000, 0x1000);
      if half >= 0x7C00 then None else Some(Half(x.negative, half))
  }

  /** The float32 of magnitude m * 2^-24, for m after k doublings. */
  function Normalised(negative: bool, m: nat, k: nat): Float32
    requires k <= 23 && Pow2(k) <= m < 0x100_0000
    decreases 23 - k
  {
    LeadingBit(k);
    if m >= 0x80_0000 then Float32(negative, 126 - k, m - 0x80_0000) else Normalised(negative, 2 * m, k + 1)
  }

  /** fp16ToFloat32. The product for a subnormal is exact: the float32 of that magnitude. */
  function ToFloat32(h: Half): Float32 {
    var exp, mant := h.bits / 1024, h.bits % 1024;
    if exp == 0 then (if mant == 0 then Float32(h.negative, 0, 0) else Normalised(h.negative, mant, 0))
    else if exp == 31 then Float32(h.negative, 255, mant * 0x2000)
    else Float32(h.negative, exp + 112, mant * 0x2000)
  }

  // ---- What it should do

  function Distance(v: nat, w: nat): nat {
    if v <= w then w - v else v - w
  }

  /** No half is nearer to v, and one as near leaves the even one; 0x7C00 stands for what would be the next half if the
      format went on. */
  ghost predicate Nearest(v: nat, bits: nat) {
    && bits <= 0x7C00
    && forall c: nat :: c <= 0x7C00 && c != bits ==>
         && Distance(v, HalfValue(bits)) <= Distance(v, HalfValue(c))
         && (Distance(v, HalfValue(bits)) == Distance(v, HalfValue(c)) ==> bits % 2 == 0)
  }

  // ---- The halves are in order

  lemma UnitsNext(bits: nat)
    ensures Units(bits + 1) == Units(bits) + (if bits < 1024 then 1 else Pow2(bits / 1024 - 1))
  {
    if bits >= 1024 {
      var e, m := bits / 1024, bits % 1024;
      if m < 1023 {
        assert (bits + 1) / 1024 == e && (bits + 1) % 1024 == m + 1;
        assert (1024 + (m + 1)) * Pow2(e - 1) == (1024 + m) * Pow2(e - 1) + Pow2(e - 1);
      } else {
        assert (bits + 1) / 1024 == e + 1 && (bits + 1) % 1024 == 0;
        assert Pow2(e) == 2 * Pow2(e - 1);
      }
    } else if bits == 1023 {
      assert Pow2(0) == 1;
    }
  }

  lemma {:induction false} UnitsIncrease(a: nat, b: nat)
    requires a < b
    ensures Units(a) < Units(b)
    decreases b
  {
    UnitsNext(b - 1);
    if a < b - 1 { UnitsIncrease(a, b - 1); }
  }

  lemma HalvesIncrease(a: nat, b: nat)
    requires a < b
    ensures HalfValue(a) < HalfValue(b)
  {
    UnitsIncrease(a, b);
    Scales(Units(a), Units(b), Pow2(UNIT));
  }

  lemma Scales(a: nat, b: nat, w: nat)
    requires a < b && w > 0
    ensures a * w < b * w
  {
  }

  // ---- Rounding picks the nearest

  lemma RoundChooses(lo: nat, hi: nat, v: nat, rem: nat, mid: nat, w: nat)
    requires w > 0 && rem < 2 * mid && v == lo + rem * w && hi == lo + 2 * mid * w
    ensures lo <= v < hi
    ensures (rem < mid <==> v - lo < hi - v) && (rem == mid <==> v - lo == hi - v)
  {
    assert 2 * mid * w == mid * w + mid * w;
    if rem < mid { Scales(rem, mid, w); } else if rem > mid { Scales(mid, rem, w); }
    Scales(rem, 2 * mid, w);
  }

  lemma BetweenHalves(v: nat, half: nat, c: nat)
    requires HalfValue(half) <= v < HalfValue(half + 1)
    ensures c < half ==> Distance(v, HalfValue(c)) > v - HalfValue(half)
    ensures c > half + 1 ==> Distance(v, HalfValue(c)) > HalfValue(half + 1) - v
  {
    if c < half { HalvesIncrease(c, half); }
    if c > half + 1 { HalvesIncrease(half + 1, c); }
  }

  lemma RoundIsNearest(v: nat, half: nat, rem: nat, mid: nat, w: nat)
    requires w > 0 && rem < 2 * mid && half < 0x7C00
    requires v == HalfValue(half) + rem * w && HalfValue(half + 1) == HalfValue(half) + 2 * mid * w
    ensures Nearest(v, RoundUp(half, rem, mid))
  {
    var lo, hi, bits := HalfValue(half), HalfValue(half + 1), RoundUp(half, rem, mid);
    RoundChooses(lo, hi, v, rem, mid, w);
    ChoiceIsNearest(v, half, bits);
  }

  lemma ChoiceIsNearest(v: nat, half: nat, bits: nat)
    requires half < 0x7C00 && HalfValue(half) <= v < HalfValue(half + 1)
    requires bits == half ==>
               v - HalfValue(half) < HalfValue(half + 1) - v
               || (v - HalfValue(half) == HalfValue(half + 1) - v && half % 2 == 0)
    requires bits == half + 1 ==>
               v - HalfValue(half) > HalfValue(half + 1) - v
               || (v - HalfValue(half) == HalfValue(half + 1) - v && half % 2 == 1)
    requires bits == half || bits == half + 1
    ensures Nearest(v, bits)
  {
    hide HalfValue;
    forall c: nat | c <= 0x7C00 && c != bits
      ensures Distance(v, HalfValue(bits)) <= Distance(v, HalfValue(c))
      ensures Distance(v, HalfValue(bits)) == Distance(v, HalfValue(c)) ==> bits % 2 == 0
    {
      BetweenHalves(v, half, c);
    }
  }

  // ---- The three ranges of the code

  lemma {:induction false} ShiftSplits(m: nat, k: nat)
    ensures LowBits(m, k) < Pow2(k) && m == ShiftRight(m, k) * Pow2(k) + LowBits(m, k)
    decreases k
  {
    if k > 0 {
      ShiftSplits(m / 2, k - 1);
      OneMoreBit(m, m / 2, m % 2, ShiftRight(m / 2, k - 1), Pow2(k - 1), LowBits(m / 2, k - 1));
    }
  }

  lemma OneMoreBit(m: nat, half: nat, bit: nat, q: nat, p: nat, low: nat)
    requires m == 2 * half + bit && bit < 2 && half == q * p + low && low < p
    ensures bit + 2 * low < 2 * p && m == q * (2 * p) + (bit + 2 * low)
  {
    assert q * (2 * p) == 2 * (q * p);
  }

  /** Above the subnormals: the unit in the last place is 2^13 of the float32's. */
  lemma NormalRange(x: Float32, e: nat, w: nat, q: nat, rem: nat)
    requires Finite(x) && x.exponent == e + 112 && 1 <= e <= 30 && w == Pow2(e + 111)
    requires x.mantissa == 0x2000 * q + rem && rem < 0x2000
    ensures q < 1024 && Value(x) == HalfValue(e * 1024 + q) + rem * w
    ensures HalfValue(e * 1024 + q + 1) == HalfValue(e * 1024 + q) + 2 * 0x1000 * w
  {
    hide Pow2;
    var bits := e * 1024 + q;
    assert bits / 1024 == e && bits % 1024 == q;
    UlpIs(e, w);
    var ulp := Pow2(e - 1) * Pow2(UNIT);
    assert HalfValue(bits) == (1024 + q) * ulp by { Regroup(1024 + q, Pow2(e - 1), Pow2(UNIT)); }
    assert (1024 + q) * (0x2000 * w) + rem * w == (0x80_0000 + (0x2000 * q + rem)) * w;
    UnitsNext(bits);
    Distribute(Units(bits), Pow2(e - 1), Pow2(UNIT));
  }

  lemma Doubles(k: nat)
    requires k > 0
    ensures Pow2(k) == 2 * Pow2(k - 1)
  {
  }

  lemma Regroup(a: nat, b: nat, c: nat)
    ensures a * b * c == a * (b * c)
  {
  }

  lemma Distribute(a: nat, b: nat, c: nat)
    ensures (a + b) * c == a * c + b * c
  {
  }

  lemma UlpIs(e: nat, w: nat)
    requires e >= 1 && w == Pow2(e + 111)
    ensures Pow2(e - 1) * Pow2(UNIT) == 0x2000 * w
  {
    hide Pow2;
    Pow2Add(e - 1, UNIT);
    Pow2Add(13, e + 111);
    SmallPowers();
  }

  /** The subnormals, where the unit is fixed. */
  lemma SubnormalRange(mant: nat, shift: nat, w: nat)
    requires 0x80_0000 <= mant < 0x100_0000 && 14 <= shift <= 24 && w == Pow2(UNIT - shift)
    ensures var q := ShiftRight(mant, shift);
            && q < 1024 && mant * w == HalfValue(q) + LowBits(mant, shift) * w
            && HalfValue(q + 1) == HalfValue(q) + 2 * Pow2(shift - 1) * w
  {
    hide Pow2, ShiftRight, LowBits;
    var q, rem, p := ShiftRight(mant, shift), LowBits(mant, shift), Pow2(shift);
    Doubles(shift);
    ShiftSplits(mant, shift);
    FewBits(mant, q, shift);
    Pow2Add(shift, UNIT - shift);
    Distribute(q * p, rem, w);
    Regroup(q, p, w);
    UnitsNext(q);
    Distribute(q, 1, Pow2(UNIT));
  }

  lemma FewBits(mant: nat, q: nat, shift: nat)
    requires mant < 0x100_0000 && shift >= 14 && q * Pow2(shift) <= mant
    ensures q < 1024
  {
    Pow2Grows(14, shift);
    assert Pow2(14) == 0x4000;
    if q >= 1024 { NoLess(1024, q, 0x4000, Pow2(shift)); }
  }

  /** Below half of the least subnormal. */
  lemma TinyRange(x: Float32)
    requires Finite(x) && x.exponent < 102
    ensures Value(x) < Pow2(UNIT - 1)
  {
    if x.exponent == 0 {
      Pow2Grows(23, UNIT - 1);
      LeadingBit(23);
    } else {
      Pow2Grows(x.exponent - 1, 100);
      Pow2Add(24, 100);
      assert Pow2(24) == 2 * Pow2(23);
      LeadingBit(23);
      Products(0x80_0000 + x.mantissa, 0x100_0000, Pow2(x.exponent - 1), Pow2(100));
    }
  }

  lemma NoLess(a: nat, b: nat, c: nat, d: nat)
    requires a <= b && c <= d
    ensures a * c <= b * d
  {
    assert a * c <= b * c <= b * d;
  }

  lemma Products(a: nat, b: nat, c: nat, d: nat)
    requires a < b && 0 < c <= d
    ensures a * c < b * d
  {
    assert a * c < b * c <= b * d;
  }

  // ---- Overflow

  /** 65520, half-way between the greatest half and the next. */
  function Limit(): nat {
    65520 * Pow2(149)
  }

  lemma GreatestHalves()
    ensures HalfValue(0x7BFF) + HalfValue(0x7C00) == 2 * Limit()
    ensures HalfValue(0x7C00) == Pow2(165)
  {
    hide Pow2;
    SmallPowers();
    Pow2Add(29, UNIT);
    Pow2Add(30, UNIT);
    Pow2Add(10, 155);
    Pow2Add(4, 149);
    Doubles(154);
    Doubles(155);
    Regroup(2047, Pow2(29), Pow2(UNIT));
    Regroup(1024, Pow2(30), Pow2(UNIT));
  }

  lemma SmallPowers()
    ensures Pow2(4) == 16 && Pow2(10) == 1024 && Pow2(13) == 0x2000
  {
  }

  /** Rounding leaves the format exactly at the limit and above. */
  lemma NearestTop(v: nat, bits: nat)
    requires Nearest(v, bits)
    ensures bits == 0x7C00 <==> v >= Limit()
  {
    hide HalfValue, Limit;
    GreatestHalves();
    HalvesIncrease(0x7BFF, 0x7C00);
    if bits < 0x7BFF { HalvesIncrease(bits, 0x7BFF); }
    if bits != 0x7C00 { assert Distance(v, HalfValue(bits)) <= Distance(v, HalfValue(0x7C00)); }
    if bits != 0x7BFF { assert Distance(v, HalfValue(bits)) <= Distance(v, HalfValue(0x7BFF)); }
  }

  // ---- The theorems about one value

  lemma NormalRounds(x: Float32)
    requires Finite(x) && 112 < x.exponent < 143
    ensures Nearest(Value(x), RoundUp((x.exponent - 112) * 1024 + x.mantissa / 0x2000, x.mantissa % 0x2000, 0x1000))
  {
    hide HalfValue, Nearest;
    var e, q, rem := x.exponent - 112, x.mantissa / 0x2000, x.mantissa % 0x2000;
    var w := Pow2(e + 111);
    NormalRange(x, e, w, q, rem);
    RoundIsNearest(Value(x), e * 1024 + q, rem, 0x1000, w);
  }

  lemma SubnormalRounds(x: Float32)
    requires Finite(x) && 102 <= x.exponent <= 112
    ensures Nearest(Value(x), ShiftRounded(x.mantissa + 0x80_0000, 126 - x.exponent))
    ensures ShiftRounded(x.mantissa + 0x80_0000, 126 - x.exponent) <= 1024
  {
    hide HalfValue, Nearest, Pow2, ShiftRight, LowBits;
    var mant, shift := x.mantissa + 0x80_0000, 126 - x.exponent;
    var w := Pow2(UNIT - shift);
    SubnormalRange(mant, shift, w);
    ShiftSplits(mant, shift);
    Doubles(shift);
    RoundIsNearest(Value(x), ShiftRight(mant, shift), LowBits(mant, shift), Pow2(shift - 1), w);
  }

  lemma TinyRounds(x: Float32)
    requires Finite(x) && x.exponent < 102
    ensures Nearest(Value(x), 0)
  {
    hide Nearest, Pow2;
    TinyRange(x);
    Doubles(UNIT);
    RoundIsNearest(Value(x), 0, Value(x), Pow2(UNIT - 1), 1);
  }

  lemma HugeOverflows(x: Float32)
    requires Finite(x) && x.exponent >= 143
    ensures Value(x) >= Limit()
  {
    hide Pow2, HalfValue, Limit;
    GreatestHalves();
    HalvesIncrease(0x7BFF, 0x7C00);
    LeadingBit(23);
    Pow2Add(23, 142);
    Pow2Grows(142, x.exponent - 1);
    NoLess(0x80_0000, 0x80_0000 + x.mantissa, Pow2(142), Pow2(x.exponent - 1));
  }

  /** Encoding a finite value succeeds exactly when its magnitude is below 65520, and then gives the nearest half, the
      even one of two, with the value's sign; subnormals included. */
  lemma EncodesNearest(x: Float32)
    requires Finite(x)
    ensures FromFloat32(x).Some? <==> Value(x) < Limit()
    ensures FromFloat32(x).Some? ==>
              var h := FromFloat32(x).value;
              h.negative == x.negative && FiniteHalf(h) && Nearest(Value(x), h.bits)
  {
    hide Nearest, Value, Limit, Pow2;
    if x.exponent >= 143 {
      HugeOverflows(x);
    } else if x.exponent > 112 {
      NormalRounds(x);
      NearestTop(Value(x), RoundUp((x.exponent - 112) * 1024 + x.mantissa / 0x2000, x.mantissa % 0x2000, 0x1000));
    } else if x.exponent >= 102 {
      SubnormalRounds(x);
      NearestTop(Value(x), ShiftRounded(x.mantissa + 0x80_0000, 126 - x.exponent));
    } else {
      TinyRounds(x);
      NearestTop(Value(x), 0);
    }
  }

  lemma {:induction false} NormalisedValue(negative: bool, m: nat, k: nat)
    requires k <= 23 && Pow2(k) <= m < 0x100_0000
    ensures var x := Normalised(negative, m, k);
            Finite(x) && x.negative == negative && Value(x) == m * Pow2(UNIT - k)
    decreases 23 - k
  {
    LeadingBit(k);
    if m < 0x80_0000 {
      NormalisedValue(negative, 2 * m, k + 1);
      Doubles(UNIT - k);
      Regroup(m, 2, Pow2(UNIT - k - 1));
    }
  }

  /** Decoding a finite half gives the float32 of its sign and exactly its magnitude. */
  lemma DecodesExactly(h: Half)
    requires FiniteHalf(h)
    ensures Finite(ToFloat32(h)) && ToFloat32(h).negative == h.negative && Value(ToFloat32(h)) == HalfValue(h.bits)
  {
    hide Pow2;
    var e, m := h.bits / 1024, h.bits % 1024;
    if e > 0 {
      NormalRange(ToFloat32(h), e, Pow2(e + 111), m, 0);
    } else if m > 0 {
      assert Pow2(0) == 1 by { One(); }
      NormalisedValue(h.negative, m, 0);
    }
  }

  lemma One()
    ensures Pow2(0) == 1
  {
  }

  /** Encoding the decoding of any finite half returns it unchanged, minus zero included. */
  lemma RoundTrip(h: Half)
    requires FiniteHalf(h)
    ensures Finite(ToFloat32(h)) && FromFloat32(ToFloat32(h)) == Some(h)
  {
    hide Value, HalfValue, Limit, FromFloat32, ToFloat32;
    var x := ToFloat32(h);
    DecodesExactly(h);
    EncodesNearest(x);
    GreatestHalves();
    HalvesIncrease(0x7BFF, 0x7C00);
    if h.bits < 0x7BFF { HalvesIncrease(h.bits, 0x7BFF); }
    var b := FromFloat32(x).value.bits;
    if b < h.bits {
      HalvesIncrease(b, h.bits);
    } else if h.bits < b {
      HalvesIncrease(h.bits, b);
    }
  }

  lemma NearestMonotone(v: nat, b: nat, w: nat, c: nat)
    requires v <= w && Nearest(v, b) && Nearest(w, c)
    ensures b <= c
  {
    hide HalfValue;
    if c < b {
      HalvesIncrease(c, b);
      if c + 1 < b {
        HalvesIncrease(c, c + 1);
        HalvesIncrease(c + 1, b);
      }
    }
  }

  /** A magnitude with its sign. */
  function Signed(negative: bool, magnitude: nat): int {
    if negative then 0 - magnitude else magnitude
  }

  lemma ZeroRounds(v: nat, b: nat)
    requires Nearest(v, b) && v == 0
    ensures b == 0
  {
    hide HalfValue;
    assert HalfValue(0) == 0 by { ZeroHalf(); }
    if b > 0 { HalvesIncrease(0, b); }
  }

  lemma ZeroHalf()
    ensures HalfValue(0) == 0
  {
  }

  /** Encoding keeps the order of signed values. */
  lemma EncodingIsMonotone(x: Float32, y: Float32)
    requires Finite(x) && Finite(y) && FromFloat32(x).Some? && FromFloat32(y).Some?
    requires Signed(x.negative, Value(x)) <= Signed(y.negative, Value(y))
    ensures var g, h := FromFloat32(x).value, FromFloat32(y).value;
            Signed(g.negative, HalfValue(g.bits)) <= Signed(h.negative, HalfValue(h.bits))
  {
    hide HalfValue, Value, Nearest, FromFloat32, Limit;
    var g, h := FromFloat32(x).value, FromFloat32(y).value;
    EncodesNearest(x);
    EncodesNearest(y);
    ZeroHalf();
    if !x.negative {
      if y.negative {
        ZeroRounds(Value(x), g.bits);
        ZeroRounds(Value(y), h.bits);
      } else {
        NearestMonotone(Value(x), g.bits, Value(y), h.bits);
        if g.bits < h.bits { HalvesIncrease(g.bits, h.bits); }
      }
    } else if y.negative {
      NearestMonotone(Value(y), h.bits, Value(x), g.bits);
      if h.bits < g.bits { HalvesIncrease(h.bits, g.bits); }
    }
  }

  // ---- A vector

  datatype EncodeError = DimensionMismatch | NonFinite | Overflow

  /** Element i can be stored. */
  predicate Storable(x: Float32)
    requires IsFloat32(x)
  {
    Finite(x) && Value(x) < Limit()
  }

  /** EncodeFP16: encodes into the front of dst; stops at the first element that cannot be stored, with what came before
      it already written. */
  method EncodeFP16(dst: array<Half>, src: seq<Float32>) returns (err: Option<EncodeError>)
    requires forall i :: 0 <= i < |src| ==> IsFloat32(src[i])
    modifies dst
    ensures err == None <==> |src| <= dst.Length && forall i :: 0 <= i < |src| ==> Storable(src[i])
    ensures err == Some(DimensionMismatch) <==> dst.Length < |src|
    ensures var n := Written(dst.Length, src);
            && (forall i :: 0 <= i < n ==> Finite(src[i]) && FromFloat32(src[i]) == Some(dst[i]))
            && (forall i :: n <= i < dst.Length ==> dst[i] == old(dst[i]))
            && (err == Some(NonFinite) ==> n < |src| && !Finite(src[n]))
            && (err == Some(Overflow) ==> n < |src| && Finite(src[n]) && Value(src[n]) >= Limit())
  {
    hide Value, Limit, FromFloat32;
    if dst.Length < |src| { return Some(DimensionMismatch); }
    for i := 0 to |src|
      invariant forall j :: 0 <= j < i ==> Storable(src[j])
      invariant forall j :: 0 <= j < i ==> Finite(src[j]) && FromFloat32(src[j]) == Some(dst[j])
      invariant forall j :: i <= j < dst.Length ==> dst[j] == old(dst[j])
    {
      if src[i].exponent == 255 {
        WrittenIs(dst.Length, src, i);
        return Some(NonFinite);
      }
      EncodesNearest(src[i]);
      var h := FromFloat32(src[i]);
      if h.None? {
        WrittenIs(dst.Length, src, i);
        return Some(Overflow);
      }
      dst[i] := h.value;
    }
    WrittenIs(dst.Length, src, |src|);
    return None;
  }

  /** The number of elements before the first that cannot be stored. */
  ghost function Written(length: nat, src: seq<Float32>): (n: nat)
    requires forall i :: 0 <= i < |src| ==> IsFloat32(src[i])
    ensures n <= |src| && (n > 0 ==> |src| <= length)
  {
    if length < |src| then 0
    else if src == [] || !Storable(src[0]) then 0
    else 1 + Written(length, src[1..])
  }

  lemma {:induction false} WrittenIs(length: nat, src: seq<Float32>, n: nat)
    requires forall i :: 0 <= i < |src| ==> IsFloat32(src[i])
    requires n <= |src| <= length && forall j :: 0 <= j < n ==> Storable(src[j])
    requires n < |src| ==> !Storable(src[n])
    ensures Written(length, src) == n
  {
    if n > 0 {
      assert forall j :: 0 <= j < n - 1 ==> src[1..][j] == src[j + 1];
      WrittenIs(length, src[1..], n - 1);
    }
  }
}
