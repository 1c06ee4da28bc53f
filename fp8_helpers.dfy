/** The test-bench conversions between E4M3 bytes and Python floats
    (tests/utils/fp8_helpers.py): the reference the hardware units are
    compared against. */
module Fp8Helpers {
  import opened Bits
  import opened FpDefs

  /** A Python float as these helpers see it. Finite values are exact
      reals; -0.0 is kept apart because `fp8_to_float` returns it for 0x80. */
  datatype PyFloat = Num(x: real) | NegZero | Inf(negative: bool) | NaN
  {
    /** Python's `f == 0`, true for both zeros. */
    predicate IsZero()
    {
      NegZero? || (Num? && x == 0.0)
    }
  }

  /** The magnitude of a finite non-zero byte: (frac/8 + 1) * 2^(e-7) for
      a normal exponent field, frac/8 * 2^-6 for a denormal one. */
  function Magnitude(e: nat, frac: nat): (v: real)
    requires e <= 14 && frac <= 7 && (e != 0 || frac != 0)
    ensures v > 0.0
  {
    var normalizedFrac := if e == 0 then frac as real / 8.0 else frac as real / 8.0 + 1.0;
    var unbiasedExp := if e == 0 then -6 else e - 7;
    Ldexp(normalizedFrac, unbiasedExp)
  }

  /** `fp8_to_float`: decodes an E4M3 byte. */
  function Fp8ToFloat(b: Byte): (r: PyFloat)
    ensures r.NaN? <==> ExpOf(b) == 15 && ManOf(b) != 0
    ensures r.Inf? <==> ExpOf(b) == 15 && ManOf(b) == 0
    ensures r.Inf? ==> (r.negative <==> SignOf(b) == 1)
    ensures r.IsZero() <==> ExpOf(b) == 0 && ManOf(b) == 0
    ensures r.NegZero? <==> b == 0x80
    ensures r.Num? && r.x != 0.0 ==> (r.x < 0.0 <==> SignOf(b) == 1)
  {
    var sign, e, frac := SignOf(b), ExpOf(b), ManOf(b);
    FieldsDetermineByte(b);
    if e == 15 then (if frac == 0 then Inf(sign == 1) else NaN)
    else if e == 0 && frac == 0 then (if sign == 1 then NegZero else Num(0.0))
    else
      var value := Magnitude(e, frac);
      Num(if sign == 1 then -value else value)
  }

  /** A decoded normal value lies in the binade of its exponent field, and
      a denormal one below the smallest normal. */
  lemma DecodedMagnitude(b: Byte)
    requires ExpOf(b) < 15
    ensures Fp8ToFloat(b).Num? || Fp8ToFloat(b).NegZero?
    ensures Fp8ToFloat(b).Num? && 1 <= ExpOf(b) ==>
      Ldexp(1.0, ExpOf(b) - 7) <= Abs(Fp8ToFloat(b).x) < Ldexp(1.0, ExpOf(b) - 6)
    ensures Fp8ToFloat(b).Num? && ExpOf(b) == 0 ==> Abs(Fp8ToFloat(b).x) < Ldexp(1.0, -6)
  {
    var e, frac := ExpOf(b), ManOf(b);
    if e != 0 || frac != 0 {
      assert Abs(Fp8ToFloat(b).x) == Magnitude(e, frac);
      MagnitudeBinade(e, frac);
    }
  }

  lemma MagnitudeBinade(e: nat, frac: nat)
    requires e <= 14 && frac <= 7 && (e != 0 || frac != 0)
    ensures 1 <= e ==> Ldexp(1.0, e - 7) <= Magnitude(e, frac) < Ldexp(1.0, e - 6)
    ensures e == 0 ==> Magnitude(e, frac) < Ldexp(1.0, -6)
  {
    if e == 0 {
      LdexpMonotone(frac as real / 8.0, 1.0, -6);
    } else {
      var f := frac as real / 8.0 + 1.0;
      var k := e as int - 7;
      assert Magnitude(e, frac) == Ldexp(f, k);
      LdexpMonotone(1.0, f, k);
      LdexpMonotone(f, 2.0, k);
      LdexpDouble(1.0, k);
      LdexpStep(1.0, k);
    }
  }

  /** Python's `round` on a float: the nearest integer, ties to the even one. */
  function RoundHalfEven(x: real): (n: int)
    ensures -0.5 <= n as real - x <= 0.5
    ensures (n as real - x == 0.5 || x - n as real == 0.5) ==> n % 2 == 0
  {
    var fl := x.Floor;
    var d := x - fl as real;
    if d < 0.5 then fl
    else if d > 0.5 then fl + 1
    else if fl % 2 == 0 then fl
    else fl + 1
  }

  /** The first loop of `float_to_fp8`: halve while f >= 2, counting the
      exponent up. */
  function HalveIntoRange(f: real, e: int): (r: (real, int))
    requires f > 0.0
    ensures 0.0 < r.0 < 2.0 && r.1 >= e
    ensures f >= 1.0 ==> r.0 >= 1.0
    decreases f.Floor
  {
    if f >= 2.0 then
      HalvingLowersFloor(f);
      HalveIntoRange(f / 2.0, e + 1)
    else (f, e)
  }

  lemma HalvingLowersFloor(f: real)
    requires f >= 2.0
    ensures (f / 2.0).Floor < f.Floor
  {
  }

  /** The second loop: double while f < 1 and the exponent is above -7. */
  function DoubleIntoRange(f: real, e: int): (r: (real, int))
    requires f > 0.0 && e >= -7
    ensures r.0 > 0.0 && -7 <= r.1 <= e
    ensures f < 2.0 ==> r.0 < 2.0
    ensures r.1 > -7 ==> r.0 >= 1.0
    decreases e + 7
  {
    if f < 1.0 && e > -7 then DoubleIntoRange(f * 2.0, e - 1)
    else (f, e)
  }

  /** Both loops: a positive magnitude as m * 2^exp with m in [1, 2),
      or exp == -7 and m below 2 for values under 2^-6. */
  function Normalize(a: real): (r: (real, int))
    requires a > 0.0
    ensures 0.0 < r.0 < 2.0 && r.1 >= -7
    ensures r.1 > -7 ==> r.0 >= 1.0
  {
    var h := HalveIntoRange(a, 0);
    DoubleIntoRange(h.0, h.1)
  }

  /** Halving and doubling keep the value m * 2^exp. */
  lemma {:induction false} HalvingKeepsValue(f: real, e: int)
    requires f > 0.0
    ensures var r := HalveIntoRange(f, e); Ldexp(r.0, r.1) == Ldexp(f, e)
    decreases f.Floor
  {
    if f >= 2.0 {
      HalvingLowersFloor(f);
      HalvingKeepsValue(f / 2.0, e + 1);
      LdexpDouble(f / 2.0, e + 1);
      assert 2.0 * (f / 2.0) == f;
    }
  }

  lemma {:induction false} DoublingKeepsValue(f: real, e: int)
    requires f > 0.0 && e >= -7
    ensures var r := DoubleIntoRange(f, e); Ldexp(r.0, r.1) == Ldexp(f, e)
    decreases e + 7
  {
    if f < 1.0 && e > -7 {
      DoublingKeepsValue(f * 2.0, e - 1);
      LdexpDouble(f, e);
      assert f * 2.0 == 2.0 * f;
    }
  }

  /** Normalisation writes the magnitude as m * 2^exp exactly. */
  lemma NormalizeKeepsValue(a: real)
    requires a > 0.0
    ensures Ldexp(Normalize(a).0, Normalize(a).1) == a
  {
    HalvingKeepsValue(a, 0);
    var h := HalveIntoRange(a, 0);
    DoublingKeepsValue(h.0, h.1);
  }

  /** What `float_to_fp8` returns, as written: the rounded fraction is
      OR-ed into the exponent field, and denormals take `round(f * 8)`. */
  function Encoding(f: PyFloat): (r: Byte)
  {
    if f.IsZero() then 0
    else if f == Inf(false) then 0x78
    else if f == Inf(true) then 0xF8
    else if f.NaN? then NAN
    else
      var n := Normalize(Abs(f.x));
      NormalizedEncoding(if f.x < 0.0 then 0x80 else 0, n.0, n.1)
  }

  /** The tail of `float_to_fp8` once the magnitude is m * 2^exp. */
  function NormalizedEncoding(sign: nat, m: real, exp: int): (r: Byte)
    requires sign == 0 || sign == 0x80
    requires 0.0 < m < 2.0 && exp >= -7 && (exp > -7 ==> m >= 1.0)
  {
    if exp <= -7 then BitOr(sign, RoundHalfEven(m * 8.0))
    else
      var frac := RoundHalfEven((m - 1.0) * 8.0);
      if exp + 7 > 14 then BitOr(sign, 0x78)
      else BitOr(BitOr(sign, (exp + 7) * 8), frac)
  }

  /** `float_to_fp8`, with its two normalisation loops. */
  method FloatToFp8(f: PyFloat) returns (r: Byte)
    ensures r == Encoding(f)
  {
    if f.IsZero() {
      return 0;
    }
    if f == Inf(false) {
      return 0x78;
    }
    if f == Inf(true) {
      return 0xF8;
    }
    if f.NaN? {
      return NAN;
    }
    var sign: nat := if f.x < 0.0 then 0x80 else 0;
    var m, exp := FindExponent(Abs(f.x));
    if exp <= -7 {
      var frac := RoundHalfEven(m * 8.0);
      return BitOr(sign, frac);
    }
    var biasedExp := exp + 7;
    var frac := RoundHalfEven((m - 1.0) * 8.0);
    if biasedExp > 14 {
      return BitOr(sign, 0x78);
    }
    return BitOr(BitOr(sign, biasedExp * 8), frac);
  }

  /** The two loops under "Find exponent" in `float_to_fp8`. */
  method FindExponent(a: real) returns (m: real, exp: int)
    requires a > 0.0
    ensures (m, exp) == Normalize(a)
  {
    m, exp := a, 0;
    while m >= 2.0
      invariant m > 0.0 && exp >= 0
      invariant HalveIntoRange(m, exp) == HalveIntoRange(a, 0)
      decreases m.Floor
    {
      HalvingLowersFloor(m);
      m := m / 2.0;
      exp := exp + 1;
    }
    while m < 1.0 && exp > -7
      invariant m > 0.0 && exp >= -7
      invariant DoubleIntoRange(m, exp) == Normalize(a)
      decreases exp + 7
    {
      m := m * 2.0;
      exp := exp - 1;
    }
  }

  /** The encoding `float_to_fp8` evidently intends: a fraction that rounds
      up to 8 carries into the exponent, and a denormal keeps f * 2^-7 by
      taking `round(f * 4)`. */
  function CorrectedEncoding(f: PyFloat): (r: Byte)
  {
    if f.IsZero() then 0
    else if f == Inf(false) then 0x78
    else if f == Inf(true) then 0xF8
    else if f.NaN? then NAN
    else
      var sign: nat := if f.x < 0.0 then 0x80 else 0;
      var (m, exp) := Normalize(Abs(f.x));
      if exp <= -7 then sign + RoundHalfEven(m * 4.0)
      else
        var code := (exp + 7) * 8 + RoundHalfEven((m - 1.0) * 8.0);
        if code >= 0x78 then sign + 0x78 else sign + code
  }

  lemma {:induction false} HalveScaled(v: real, k: nat, e0: int)
    requires 1.0 <= v < 2.0
    ensures HalveIntoRange(Ldexp(v, k), e0) == (v, e0 + k)
  {
    if k > 0 {
      LdexpStep(v, k - 1);
      LdexpMonotone(1.0, v, k - 1);
      LdexpExpMonotone(1.0, 0, k - 1);
      assert Ldexp(v, k) >= 2.0;
      assert Ldexp(v, k) / 2.0 == Ldexp(v, k - 1);
      HalveScaled(v, k - 1, e0 + 1);
    }
  }

  lemma {:induction false} DoubleScaled(v: real, k: nat, e0: int)
    requires 1.0 <= v < 2.0 && e0 - k > -7
    ensures DoubleIntoRange(Ldexp(v, -(k as int)), e0) == (v, e0 - k)
  {
    if k > 0 {
      var j: int := k;
      LdexpStep(v, -j);
      LdexpMonotone(v, 2.0, 1 - j);
      LdexpExpMonotone(2.0, 1 - j, 0);
      assert Ldexp(v, -j) < 1.0;
      assert Ldexp(v, -j) * 2.0 == Ldexp(v, 1 - j);
      DoubleScaled(v, k - 1, e0 - 1);
    }
  }

  /** A value that stays below 1 however far it is doubled ends at -7. */
  lemma {:induction false} DoubleToFloor(f: real, e: int)
    requires f > 0.0 && e >= -7
    requires Ldexp(f, e + 6) < 1.0
    ensures DoubleIntoRange(f, e) == (Ldexp(f, e + 7), -7)
    decreases e + 7
  {
    if e > -7 {
      LdexpExpMonotone(f, 0, e + 6);
      assert f < 1.0;
      LdexpDouble(f, e + 6);
      LdexpDouble(f, e + 7);
      assert f * 2.0 == 2.0 * f;
      DoubleToFloor(f * 2.0, e - 1);
    }
  }

  /** A normal value in [1, 2) * 2^k normalises back to (v, k). */
  lemma NormalizeNormal(v: real, k: int)
    requires 1.0 <= v < 2.0 && -6 <= k
    ensures Normalize(Ldexp(v, k)) == (v, k)
  {
    if k >= 0 {
      HalveScaled(v, k, 0);
      assert DoubleIntoRange(v, k) == (v, k);
    } else {
      NormalizeBelowOne(v, k);
    }
  }

  lemma NormalizeBelowOne(v: real, k: int)
    requires 1.0 <= v < 2.0 && -6 <= k < 0
    ensures Normalize(Ldexp(v, k)) == (v, k)
  {
    DoubleScaled(v, -k, 0);
    assert Ldexp(v, k) < 2.0 by {
      LdexpMonotone(v, 2.0, k);
      LdexpExpMonotone(2.0, k, 0);
    }
    assert HalveIntoRange(Ldexp(v, k), 0) == (Ldexp(v, k), 0);
  }

  /** The fields of a byte, OR-ed together as `float_to_fp8` does. */
  lemma OrFields(s: nat, e: nat, m: nat)
    requires s <= 1 && e <= 15 && m <= 7
    ensures BitOr(BitOr(s * 128, e * 8), m) == Pack(s, e, m)
  {
    SmallPowers();
    BitOrDisjoint(s, e * 8, 7);
    BitOrDisjoint(s * 16 + e, m, 3);
  }

  /** A finite non-zero byte decodes to its signed magnitude. */
  lemma DecodeFinite(b: Byte)
    requires ExpOf(b) < 15 && (ExpOf(b) != 0 || ManOf(b) != 0)
    ensures Fp8ToFloat(b) == Num(Signed(SignOf(b), Magnitude(ExpOf(b), ManOf(b))))
  {
  }

  function Signed(s: nat, v: real): real
  {
    if s == 1 then -v else v
  }

  /** Every normal byte survives decoding and re-encoding. */
  lemma NormalRoundTrip(b: Byte)
    requires 1 <= ExpOf(b) <= 14
    ensures Encoding(Fp8ToFloat(b)) == b
  {
    DecodeFinite(b);
    EncodeNormalValue(SignOf(b), ExpOf(b), ManOf(b));
    FieldsDetermineByte(b);
  }

  lemma EncodeNormalValue(s: nat, e: nat, m: nat)
    requires s <= 1 && 1 <= e <= 14 && m <= 7
    ensures Encoding(Num(Signed(s, Magnitude(e, m)))) == Pack(s, e, m)
  {
    var v := m as real / 8.0 + 1.0;
    var x := Signed(s, Magnitude(e, m));
    assert Abs(x) == Ldexp(v, e as int - 7);
    NormalizeNormal(v, e as int - 7);
    assert (v - 1.0) * 8.0 == m as real;
    assert RoundHalfEven(m as real) == m;
    OrFields(s, e, m);
    assert NormalizedEncoding(s * 128, v, e as int - 7) == BitOr(BitOr(s * 128, e * 8), m);
  }

  /** Magnitudes of 256 and above (2^8, past the largest binade) encode
      as infinity of their sign. */
  lemma OverflowSaturates(x: real)
    requires Abs(x) >= 256.0
    ensures Encoding(Num(x)) == if x < 0.0 then 0xF8 else 0x78
  {
    var (m, exp) := Normalize(Abs(x));
    NormalizeKeepsValue(Abs(x));
    if exp <= 7 {
      LdexpMonotone(m, 2.0, exp);
      LdexpExpMonotone(2.0, exp, 7);
      LdexpDouble(1.0, 8);
      LdexpSmall();
      assert false;
    }
    SmallPowers();
    BitOrDisjoint(1, 0x78, 7);
  }

  /** The intended encoding restores every byte that is not NaN and not
      negative zero (Python's `f == 0` folds -0.0 into 0). */
  lemma CorrectedRoundTrip(b: Byte)
    requires ExpOf(b) < 15 || ManOf(b) == 0
    requires b != 0x80
    ensures CorrectedEncoding(Fp8ToFloat(b)) == b
  {
    var e, m := ExpOf(b), ManOf(b);
    if e == 0 && m != 0 {
      CorrectedRoundTripDenormal(b);
    } else if 1 <= e <= 14 {
      CorrectedRoundTripNormal(b);
    } else {
      RoundTripSpecial(b);
    }
  }

  /** Zero and the two infinities round-trip under either encoding. */
  lemma RoundTripSpecial(b: Byte)
    requires (ExpOf(b) == 0 || ExpOf(b) == 15) && ManOf(b) == 0 && b != 0x80
    ensures Encoding(Fp8ToFloat(b)) == b
    ensures CorrectedEncoding(Fp8ToFloat(b)) == b
  {
    FieldsDetermineByte(b);
    if ExpOf(b) == 15 {
      InfinityRoundTrip(b);
    } else {
      assert b == 0;
      ZeroRoundTrip();
    }
  }

  lemma ZeroRoundTrip()
    ensures Encoding(Fp8ToFloat(0)) == 0
    ensures CorrectedEncoding(Fp8ToFloat(0)) == 0
  {
    assert Fp8ToFloat(0) == Num(0.0);
  }

  lemma InfinityRoundTrip(b: Byte)
    requires ExpOf(b) == 15 && ManOf(b) == 0
    ensures Encoding(Fp8ToFloat(b)) == b
    ensures CorrectedEncoding(Fp8ToFloat(b)) == b
  {
    var s := SignOf(b);
    FieldsDetermineByte(b);
    assert b == s * 128 + 120;
    var f := Inf(s == 1);
    assert Fp8ToFloat(b) == f;
    assert Encoding(f) == if s == 1 then 0xF8 else 0x78;
    assert CorrectedEncoding(f) == if s == 1 then 0xF8 else 0x78;
  }

  lemma CorrectedRoundTripDenormal(b: Byte)
    requires ExpOf(b) == 0 && ManOf(b) != 0
    ensures CorrectedEncoding(Fp8ToFloat(b)) == b
  {
    DecodeFinite(b);
    CorrectedEncodeDenormalValue(SignOf(b), ManOf(b));
    FieldsDetermineByte(b);
  }

  lemma CorrectedEncodeDenormalValue(s: nat, m: nat)
    requires s <= 1 && 1 <= m <= 7
    ensures CorrectedEncoding(Num(Signed(s, Magnitude(0, m)))) == s * 128 + m
  {
    var x := Signed(s, Magnitude(0, m));
    assert Abs(x) == Ldexp(m as real / 8.0, -6);
    DenormalNormalize(m);
    assert m as real / 4.0 * 4.0 == m as real;
    assert RoundHalfEven(m as real) == m;
  }

  lemma CorrectedRoundTripNormal(b: Byte)
    requires 1 <= ExpOf(b) <= 14
    ensures CorrectedEncoding(Fp8ToFloat(b)) == b
  {
    DecodeFinite(b);
    CorrectedEncodeNormalValue(SignOf(b), ExpOf(b), ManOf(b));
    FieldsDetermineByte(b);
  }

  lemma CorrectedEncodeNormalValue(s: nat, e: nat, m: nat)
    requires s <= 1 && 1 <= e <= 14 && m <= 7
    ensures CorrectedEncoding(Num(Signed(s, Magnitude(e, m)))) == Pack(s, e, m)
  {
    var v := m as real / 8.0 + 1.0;
    var x := Signed(s, Magnitude(e, m));
    assert Abs(x) == Ldexp(v, e as int - 7);
    NormalizeNormal(v, e as int - 7);
    assert (v - 1.0) * 8.0 == m as real;
    assert RoundHalfEven(m as real) == m;
  }

  /** A denormal byte's value m/8 * 2^-6 normalises to (m/4, -7). */
  lemma DenormalNormalize(m: nat)
    requires 1 <= m <= 7
    ensures Normalize(Ldexp(m as real / 8.0, -6)) == (m as real / 4.0, -7)
  {
    var v := Ldexp(m as real / 8.0, -6);
    LdexpMonotone(m as real / 8.0, 1.0, -6);
    LdexpExpMonotone(1.0, -6, 0);
    assert HalveIntoRange(v, 0) == (v, 0);
    DenormalScale(m as real / 8.0);
    DoubleToFloor(v, 0);
  }

  /** Scaling down by 2^6 and back up by 2^7 doubles. */
  lemma DenormalScale(a: real)
    ensures Ldexp(Ldexp(a, -6), 6) == a
    ensures Ldexp(Ldexp(a, -6), 7) == 2.0 * a
  {
    LdexpLdexp(a, -6, 6);
    LdexpLdexp(a, -6, 7);
    LdexpStep(a, 0);
  }

  /** As written, 1.9375 (halfway between 0x3F and 0x40) rounds its
      fraction up to 8, and OR-ing 8 into the exponent field gives 0x38,
      which decodes to 1.0; the intended encoding gives 0x40 = 2.0. */
  lemma LostCarryExample()
    ensures Encoding(Num(1.9375)) == 0x38
    ensures Fp8ToFloat(0x38) == Num(1.0)
    ensures CorrectedEncoding(Num(1.9375)) == 0x40
    ensures Fp8ToFloat(0x40) == Num(2.0)
  {
    assert Normalize(1.9375) == (1.9375, 0);
    assert RoundHalfEven(7.5) == 8;
    BitOrEight(7);
    BitOrOne(7);
  }

  /** As written, the denormal 0x04 (2^-7) re-encodes as 0x08, which
      decodes to twice the value (`DenormalDoubled`); the intended encoding
      restores it (`CorrectedRoundTrip`). */
  lemma DenormalReencoded()
    ensures Encoding(Fp8ToFloat(0x04)) == 0x08
  {
    assert ExpOf(0x04) == 0 && ManOf(0x04) == 4 && SignOf(0x04) == 0;
    var x := Ldexp(0.5, -6);
    assert Fp8ToFloat(0x04) == Num(x);
    DenormalNormalize(4);
    assert Normalize(x) == (1.0, -7);
    assert RoundHalfEven(8.0) == 8;
    assert Encoding(Num(x)) == BitOr(0, 8);
  }

  lemma DenormalDoubled()
    ensures Fp8ToFloat(0x08).x == 2.0 * Fp8ToFloat(0x04).x
  {
    assert ExpOf(0x04) == 0 && ManOf(0x04) == 4 && SignOf(0x04) == 0;
    assert ExpOf(0x08) == 1 && ManOf(0x08) == 0 && SignOf(0x08) == 0;
    assert Fp8ToFloat(0x04) == Num(Ldexp(0.5, -6));
    assert Fp8ToFloat(0x08) == Num(Ldexp(1.0, -6));
    LdexpDouble(0.5, -6);
  }
}
