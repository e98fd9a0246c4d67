/**
  Half-precision floats on the wire: both encoders truncate, and the two decoders differ.

  A float32 is its sign, its 8-bit exponent and its 23-bit mantissa; a half is 1, 5 and 10 bits in a
  number. Magnitudes are counted in units of 2^-149 for a float32 and of 2^-24 for a half, so that
  they are integers; 2^125 units of the first kind make one of the second.
 */
module Float16 {
  import opened Basics
  import opened Powers

  datatype Float32 = Float32(negative: bool, exponent: nat, mantissa: nat)

  predicate IsFloat32(f: Float32) {
    f.exponent < 256 && f.mantissa < 0x80_0000
  }

  const SIGN: nat := 0x8000
  const INFINITY: nat := 0x7C00

  /** `n >> s`. */
  function ShiftRight(n: nat, s: nat): (r: nat)
    ensures r <= n && (s > 0 ==> 2 * r <= n)
  {
    if s == 0 then n else ShiftRight(n / 2, s - 1)
  }

  // ---------------------------------------------------------------- encoding

  /** float32_to_float16 and float32ToFloat16: the same formulas in both languages. */
  function Encode(f: Float32): (h: nat)
    requires IsFloat32(f)
    ensures h < 0x1_0000
  {
    (if f.negative then SIGN else 0) + EncodeMagnitude(f)
  }

  function EncodeMagnitude(f: Float32): (h: nat)
    requires IsFloat32(f)
    ensures h < SIGN
  {
    if f.exponent == 0 then 0
    else if f.exponent == 0xFF then INFINITY + if f.mantissa != 0 then 0x0200 else 0
    else
      var newExp: int := f.exponent - 127 + 15;
      if newExp >= 31 then INFINITY
      else if newExp < -10 then 0
      else if newExp <= 0 then ShiftRight(f.mantissa + 0x80_0000, 1 - newExp) / 0x2000
      else newExp * 0x400 + f.mantissa / 0x2000
  }

  // ---------------------------------------------------------------- magnitudes

  function FloatUnits(f: Float32): nat {
    if f.exponent == 0 then f.mantissa else (f.mantissa + 0x80_0000) * Pow2(f.exponent - 1)
  }

  function HalfUnits(h: nat): nat {
    if h / 0x400 == 0 then h else (h % 0x400 + 0x400) * Pow2(h / 0x400 - 1)
  }

  /** The distance from a half to the next larger one. */
  function Ulp(h: nat): nat {
    if h / 0x400 == 0 then 1 else Pow2(h / 0x400 - 1)
  }

  lemma {:induction false} PowAdd(a: nat, b: nat)
    ensures Pow2(a + b) == Pow2(a) * Pow2(b)
  {
    if a > 0 {
      PowAdd(a - 1, b);
      assert Pow2(a + b) == 2 * Pow2(a - 1 + b);
      Doubled(Pow2(a - 1), Pow2(b));
    }
  }

  lemma Doubled(p: nat, q: nat)
    ensures 2 * (p * q) == (2 * p) * q == p * (2 * q)
  {
  }

  lemma {:induction false} PowMonotone(a: nat, b: nat)
    requires a <= b
    ensures Pow2(a) <= Pow2(b)
  {
    if a < b {
      PowMonotone(a, b - 1);
    }
  }

  /** A shift to the right divides, rounding down. */
  lemma {:induction false} ShiftBounds(n: nat, s: nat)
    ensures ShiftRight(n, s) * Pow2(s) <= n < (ShiftRight(n, s) + 1) * Pow2(s)
  {
    if s > 0 {
      var r, p := ShiftRight(n / 2, s - 1), Pow2(s - 1);
      ShiftBounds(n / 2, s - 1);
      Doubled(r, p);
      Doubled(r + 1, p);
      assert r * Pow2(s) == 2 * (r * p) && (r + 1) * Pow2(s) == 2 * ((r + 1) * p);
    }
  }

  lemma {:induction false} ShiftOfShift(n: nat, s: nat, t: nat)
    ensures ShiftRight(ShiftRight(n, s), t) == ShiftRight(n, s + t)
  {
    if s > 0 {
      ShiftOfShift(n / 2, s - 1, t);
    }
  }

  lemma ShiftBy13(n: nat)
    ensures ShiftRight(n, 13) == n / 0x2000
  {
    ShiftBounds(n, 13);
    assert Pow2(13) == 0x2000;
  }

  lemma {:induction false} ShiftUndoesProduct(n: nat, s: nat)
    ensures ShiftRight(n * Pow2(s), s) == n
  {
    if s > 0 {
      Doubled(n, Pow2(s - 1));
      assert n * Pow2(s) / 2 == n * Pow2(s - 1);
      ShiftUndoesProduct(n, s - 1);
    } else {
      assert n * 1 == n;
    }
  }

  // ---------------------------------------------------------------- truncation

  /** The float lies between its half and the next one, in magnitude. */
  ghost predicate Truncated(f: Float32, h: nat) {
    HalfUnits(h) * Pow2(125) <= FloatUnits(f) < (HalfUnits(h) + Ulp(h)) * Pow2(125)
  }

  lemma Scaled(a: nat, b: nat, p: nat)
    requires p > 0
    ensures a <= b ==> a * p <= b * p
    ensures a < b ==> a * p < b * p
  {
    if a < b {
      var d := b - a - 1;
      Distributed(a, d + 1, p);
      Distributed(d, 1, p);
    }
  }

  lemma Distributed(a: nat, b: nat, p: nat)
    ensures (a + b) * p == a * p + b * p
  {
  }

  /** Below the smallest half: everything becomes zero. */
  lemma TinyTruncates(f: Float32)
    requires IsFloat32(f) && f.exponent < 102
    ensures EncodeMagnitude(f) == 0 && Truncated(f, 0)
  {
    hide Pow2;
    assert HalfUnits(0) * Pow2(125) == 0 && (HalfUnits(0) + Ulp(0)) * Pow2(125) == Pow2(125);
    PowMonotone(24, 125);
    TwentyFour();
    if f.exponent > 0 {
      var p := Pow2(f.exponent - 1);
      Scaled(f.mantissa + 0x80_0000, Pow2(24), p);
      PowAdd(24, f.exponent - 1);
      PowMonotone(24 + (f.exponent - 1), 125);
    }
  }

  lemma TwentyFour()
    ensures Pow2(24) == 0x100_0000
  {
    assert Pow2(12) == 0x1000;
    PowAdd(12, 12);
  }

  /** Where the half is subnormal. */
  lemma SubnormalTruncates(f: Float32)
    requires IsFloat32(f) && 102 <= f.exponent <= 112
    ensures EncodeMagnitude(f) < 0x400 && Truncated(f, EncodeMagnitude(f))
  {
    hide Pow2, ShiftRight;
    var n, t, p := f.mantissa + 0x80_0000, 126 - f.exponent, Pow2(f.exponent - 1);
    var r := ShiftRight(n, t);
    ShiftOfShift(n, t - 13, 13);
    ShiftBy13(ShiftRight(n, t - 13));
    assert EncodeMagnitude(f) == r;
    ShiftBounds(n, t);
    PowAdd(t, f.exponent - 1);
    Scaled(r * Pow2(t), n, p);
    Scaled(n, (r + 1) * Pow2(t), p);
    Associated(r, Pow2(t), p);
    Associated(r + 1, Pow2(t), p);
  }

  lemma Associated(a: nat, b: nat, c: nat)
    ensures a * b * c == a * (b * c)
  {
  }

  /** Where the half is normal. */
  lemma NormalTruncates(f: Float32)
    requires IsFloat32(f) && 112 < f.exponent <= 142
    ensures 0x400 <= EncodeMagnitude(f) < INFINITY && Truncated(f, EncodeMagnitude(f))
  {
    hide Pow2;
    var e, m := f.exponent - 112, f.mantissa / 0x2000;
    var h, n, p := EncodeMagnitude(f), f.mantissa + 0x80_0000, Pow2(f.exponent - 1);
    assert h / 0x400 == e && h % 0x400 == m;
    ThirteenBits();
    PowAdd(e - 1, 112);
    PowAdd(13, 112);
    var q := m + 0x400;
    Scaled(q * Pow2(13), n, p);
    Scaled(n, (q + 1) * Pow2(13), p);
    Regrouped(q, Pow2(13), Pow2(e - 1), Pow2(112));
    Regrouped(q + 1, Pow2(13), Pow2(e - 1), Pow2(112));
    assert (q + 1) * Pow2(e - 1) == q * Pow2(e - 1) + Pow2(e - 1);
  }

  lemma ThirteenBits()
    ensures Pow2(13) == 0x2000
  {
  }

  lemma Regrouped(a: nat, b: nat, c: nat, d: nat)
    ensures a * b * (c * d) == a * c * (b * d)
  {
    assert a * b * (c * d) == a * (b * (c * d)) == a * (c * (b * d)) == a * c * (b * d) by {
      Associated(a, b, c * d);
      Associated(a, c, b * d);
      assert b * (c * d) == c * (b * d) by {
        Associated(b, c, d);
        Associated(c, b, d);
      }
    }
  }

  /** Every float32 below 2^16 in magnitude is rounded toward zero to a half. */
  lemma TruncatesTowardZero(f: Float32)
    requires IsFloat32(f) && f.exponent <= 142
    ensures EncodeMagnitude(f) < INFINITY && Truncated(f, EncodeMagnitude(f))
  {
    if f.exponent < 102 {
      TinyTruncates(f);
    } else if f.exponent <= 112 {
      SubnormalTruncates(f);
    } else {
      NormalTruncates(f);
    }
  }

  /** The error is below 2^-10 of the value where the half is normal, and below 2^-24 elsewhere. */
  lemma ErrorBounds(f: Float32)
    requires IsFloat32(f) && f.exponent <= 142
    ensures var h := EncodeMagnitude(f);
            var error := FloatUnits(f) - HalfUnits(h) * Pow2(125);
            && 0 <= error
            && (f.exponent > 112 ==> 1024 * error < FloatUnits(f))
            && (f.exponent <= 112 ==> error < Pow2(125))
  {
    hide Pow2, FloatUnits;
    TruncatesTowardZero(f);
    var h := EncodeMagnitude(f);
    var u, w := Ulp(h), Pow2(125);
    assert (HalfUnits(h) + u) * w == HalfUnits(h) * w + u * w;
    if f.exponent > 112 {
      NormalTruncates(f);
      Scaled(0x400, h % 0x400 + 0x400, u);
      Scaled(0x400 * u, HalfUnits(h), w);
      Associated(0x400, u, w);
    } else {
      if f.exponent < 102 {
        TinyTruncates(f);
      } else {
        SubnormalTruncates(f);
      }
      assert u == 1 && u * w == w;
    }
  }

  /** From 2^16 on, both encoders give infinity. */
  lemma LargeIsInfinity(f: Float32)
    requires IsFloat32(f) && 142 < f.exponent < 255
    ensures EncodeMagnitude(f) == INFINITY
  {
  }

  // ---------------------------------------------------------------- backend decoder

  function Power(n: int): real {
    if n >= 0 then Pow2(n) as real else 1.0 / Pow2(-n) as real
  }

  function Signed(negative: bool, magnitude: real): real {
    if negative then -magnitude else magnitude
  }

  /** decodeFloat16, on exact numbers; None for NaN. */
  function Decode(binary: nat): Option<real>
    requires binary < 0x1_0000
  {
    var exponent, fraction := binary / 0x400 % 0x20, binary % 0x400;
    if exponent == 0x1F && fraction != 0 then None
    else Some(Signed(binary >= SIGN, DecodeMagnitude(exponent, fraction)))
  }

  function DecodeMagnitude(exponent: nat, fraction: nat): real {
    if exponent == 0 then Power(-14) * (fraction as real / 1024.0)
    else if exponent == 0x1F then Power(-15)
    else Power(exponent - 15) * (1.0 + fraction as real / 1024.0)
  }

  /** The decoder's formulas give the number the half stands for, below infinity. */
  lemma DecodeIsExact(h: nat)
    requires h < INFINITY
    ensures Decode(h) == Some(HalfUnits(h) as real / Pow2(24) as real)
    ensures Decode(h + SIGN) == Some(-(HalfUnits(h) as real / Pow2(24) as real))
  {
    hide Pow2, Power, DecodeMagnitude;
    var e, m := h / 0x400, h % 0x400;
    assert h / 0x400 % 0x20 == e && (h + SIGN) / 0x400 % 0x20 == e && (h + SIGN) % 0x400 == m;
    if e > 0 {
      DecodeNormal(e, m);
    } else {
      DecodeSubnormal(m);
    }
  }

  lemma DecodeSubnormal(m: nat)
    ensures DecodeMagnitude(0, m) == m as real / Pow2(24) as real
  {
    Fourteen();
    TwentyFour();
  }

  lemma Fourteen()
    ensures Pow2(14) == 0x4000 && Pow2(10) == 0x400
  {
  }

  lemma DecodeNormal(e: nat, m: nat)
    requires 0 < e < 31 && m < 0x400
    ensures DecodeMagnitude(e, m) == ((m + 0x400) * Pow2(e - 1)) as real / Pow2(24) as real
  {
    hide Pow2;
    TwentyFour();
    Fourteen();
    var a, b := Pow2(e - 1) as real, (m + 0x400) as real;
    assert ((m + 0x400) * Pow2(e - 1)) as real == b * a;
    assert 1.0 + m as real / 1024.0 == b / 1024.0;
    if e >= 15 {
      PowAdd(e - 15, 14);
      assert a == Pow2(e - 15) as real * 16384.0;
    } else {
      PowAdd(e - 1, 15 - e);
      var c := Pow2(15 - e) as real;
      assert a * c == 16384.0;
      assert 1.0 / c == a / 16384.0;
    }
    assert Power(e - 15) == a / 16384.0;
    assert a / 16384.0 * (b / 1024.0) == b * a / 16777216.0;
  }

  /** Backend decoding of what either side encoded: the value rounded toward zero, with its sign. */
  lemma BackendDecodesTruncated(f: Float32)
    requires IsFloat32(f) && f.exponent <= 142
    ensures var h := EncodeMagnitude(f);
            var magnitude := HalfUnits(h) as real / Pow2(24) as real;
            Truncated(f, h) && Decode(Encode(f)) == Some(if f.negative then -magnitude else magnitude)
  {
    hide Decode, EncodeMagnitude, Truncated;
    TruncatesTowardZero(f);
    DecodeIsExact(EncodeMagnitude(f));
  }

  lemma Fifteen()
    ensures Pow2(15) == 32768
  {
    Fourteen();
    PowAdd(1, 14);
    assert Pow2(1) == 2;
  }

  /** An infinity is decoded as 2^-15. */
  lemma InfinityIsDecodedWrong()
    ensures Decode(INFINITY) == Some(1.0 / 32768.0) && Decode(INFINITY + SIGN) == Some(-1.0 / 32768.0)
  {
    hide Pow2;
    Fifteen();
  }

  // ---------------------------------------------------------------- firmware decoder

  /** The loop that shifts a subnormal mantissa up to its hidden bit. */
  function Normalise(mantissa: nat, exponent: int): (r: (nat, int))
    requires 0 < mantissa < 0x800
    ensures 0x400 <= r.0 < 0x800 && r.1 <= exponent
    decreases 0x800 - mantissa
  {
    if mantissa >= 0x400 then (mantissa, exponent) else Normalise(mantissa * 2, exponent - 1)
  }

  /** The 0xF9 branch of ykp_tlv_read_float. */
  method FirmwareDecode(h: nat) returns (f: Float32)
    requires h < 0x1_0000
    ensures f == Decoded(h)
  {
    var negative, exponent, mantissa := h >= SIGN, h / 0x400 % 0x20, h % 0x400;
    if exponent == 0 {
      if mantissa == 0 {
        return Float32(negative, 0, 0);
      }
      var e, m := 127 - 15, mantissa;
      while m < 0x400
        invariant 0 < m < 0x800 && Normalise(m, e) == Normalise(mantissa, 127 - 15)
        decreases 0x800 - m
      {
        m := m * 2;
        e := e - 1;
      }
      NormaliseShifts(mantissa, 127 - 15, 0);
      return Float32(negative, e, m % 0x400 * 0x2000);
    } else if exponent == 31 {
      return Float32(negative, 0xFF, mantissa * 0x2000);
    }
    f := Float32(negative, exponent - 15 + 127, mantissa * 0x2000);
  }

  function Decoded(h: nat): (f: Float32)
    requires h < 0x1_0000
    ensures IsFloat32(f)
  {
    var negative, exponent, mantissa := h >= SIGN, h / 0x400 % 0x20, h % 0x400;
    if exponent == 0 then
      if mantissa == 0 then Float32(negative, 0, 0)
      else
        NormaliseShifts(mantissa, 127 - 15, 0);
        var (m, e) := Normalise(mantissa, 127 - 15);
        Float32(negative, e, m % 0x400 * 0x2000)
    else if exponent == 31 then Float32(negative, 0xFF, mantissa * 0x2000)
    else Float32(negative, exponent - 15 + 127, mantissa * 0x2000)
  }

  /** The loop runs `k` times, at most ten, and multiplies the mantissa by 2^k. */
  lemma {:induction false} NormaliseShifts(mantissa: nat, exponent: int, done: nat)
    requires 0 < mantissa < 0x800 && done <= 10 && mantissa >= Pow2(done)
    ensures var (m, e) := Normalise(mantissa, exponent);
            0 <= exponent - e <= 10 - done && m == mantissa * Pow2(exponent - e)
    decreases 0x800 - mantissa
  {
    if mantissa >= 0x400 {
      assert mantissa * 1 == mantissa;
    } else {
      Fourteen();
      if done == 10 {
        assert false;
      }
      NormaliseShifts(mantissa * 2, exponent - 1, done + 1);
      var (m, e) := Normalise(mantissa * 2, exponent - 1);
      Doubled(mantissa, Pow2(exponent - 1 - e));
    }
  }

  lemma DecodedSubnormal(h: nat, m: nat)
    requires 0 < m < 0x400 && (h == m || h == SIGN + m)
    ensures Decoded(h) == Float32(h != m, Normalise(m, 112).1, Normalise(m, 112).0 % 0x400 * 0x2000)
  {
    hide Normalise;
    assert h / 0x400 % 0x20 == 0 && h % 0x400 == m;
  }

  lemma HiddenBit(n: nat)
    requires 0x400 <= n < 0x800
    ensures n % 0x400 * 0x2000 + 0x80_0000 == n * 0x2000
  {
  }

  lemma PowZero()
    ensures Pow2(0) == 1
  {
  }

  /** The subnormal half `m` becomes (m * 2^k) * 2^13 with exponent 112 - k: half of what it stands for. */
  lemma SubnormalDecoded(h: nat, m: nat) returns (k: nat)
    requires 0 < m < 0x400 && (h == m || h == SIGN + m)
    ensures k <= 10 && Decoded(h).exponent == 112 - k && Decoded(h).negative == (h != m)
    ensures Decoded(h).mantissa + 0x80_0000 == m * Pow2(k) * 0x2000
  {
    hide Pow2, Normalise, Decoded;
    PowZero();
    NormaliseShifts(m, 112, 0);
    DecodedSubnormal(h, m);
    var (n, e) := Normalise(m, 112);
    k := 112 - e;
    HiddenBit(n);
  }

  /** The firmware reads a subnormal half as half its value, and everything normal exactly. */
  lemma FirmwareDecodesTo(h: nat)
    requires h < INFINITY
    ensures h / 0x400 > 0 ==> FloatUnits(Decoded(h)) == HalfUnits(h) * Pow2(125)
    ensures h / 0x400 == 0 ==> 2 * FloatUnits(Decoded(h)) == HalfUnits(h) * Pow2(125)
  {
    hide Pow2;
    ThirteenBits();
    var e, m := h / 0x400, h % 0x400;
    assert h / 0x400 % 0x20 == e;
    if e > 0 {
      PowAdd(e - 1, 112);
      PowAdd(13, 112);
      Regrouped(m + 0x400, Pow2(13), Pow2(e - 1), Pow2(112));
    } else if m > 0 {
      var k := SubnormalDecoded(h, m);
      Regrouped(m, Pow2(k), Pow2(13), Pow2(111 - k));
      PowAdd(k, 111 - k);
      PowAdd(13, 111);
      OneMore();
      Doubled(m, Pow2(124));
      assert m * Pow2(k) * Pow2(13) * Pow2(111 - k) == m * Pow2(124) by {
        Associated(m * Pow2(k), Pow2(13), Pow2(111 - k));
        Associated(m, Pow2(13), Pow2(111));
      }
    }
  }

  lemma OneMore()
    ensures Pow2(125) == 2 * Pow2(124)
  {
  }

  /**
    Decoding in the firmware and encoding again gives the half back exactly if it is no subnormal
    and no other NaN than 0x7E00.
   */
  lemma FirmwareRoundTrip(h: nat)
    requires h < SIGN
    ensures Encode(Decoded(h)) == h && Encode(Decoded(h + SIGN)) == h + SIGN <==>
            h == 0 || 0x400 <= h <= INFINITY || h == INFINITY + 0x0200
    ensures h < 0x400 ==> Encode(Decoded(h)) == h / 2 && Encode(Decoded(h + SIGN)) == h / 2 + SIGN
  {
    hide Pow2, ShiftRight;
    var e, m := h / 0x400, h % 0x400;
    assert h / 0x400 % 0x20 == e && (h + SIGN) / 0x400 % 0x20 == e && (h + SIGN) % 0x400 == m;
    if e == 0 && m > 0 {
      SubnormalReencoded(h, m);
      SubnormalReencoded(h + SIGN, m);
    }
  }

  lemma SubnormalReencoded(h: nat, m: nat)
    requires 0 < m < 0x400 && (h == m || h == SIGN + m)
    ensures EncodeMagnitude(Decoded(h)) == m / 2
  {
    hide Pow2, ShiftRight, Decoded;
    var k := SubnormalDecoded(h, m);
    var f := Decoded(h);
    var n := f.mantissa + 0x80_0000;
    ThirteenBits();
    Regrouped(m, Pow2(k), 0x2000, 1);
    assert n == m * 0x2000 * Pow2(k);
    ShiftOfShift(n, k, 1);
    ShiftUndoesProduct(m * 0x2000, k);
    ShiftByOne(m * 0x2000);
  }

  lemma ShiftByOne(n: nat)
    ensures ShiftRight(n, 1) == n / 2
  {
  }
}
