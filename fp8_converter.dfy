/** `convert_to_e4m3` (src/utils/fp8_converter.py): a decimal number to the
    8-character E4M3 bit string. Unlike the test helpers, this converter
    treats exponent field 15 as finite (only 1111/111 is NaN) and rounds
    the mantissa half up with a carry into the exponent. */
module Fp8Converter {
  import opened Bits
  import opened FpDefs
  import opened Fp8Helpers
  import opened BitStrings

  /** The byte b as the 8-character string sign + exponent + mantissa. */
  lemma ByteString(b: Byte)
    ensures Format(b, 8) == SignChar(SignOf(b) == 1) + (Format(ExpOf(b), 4) + Format(ManOf(b), 3))
  {
    var s, e, m := SignOf(b), ExpOf(b), ManOf(b);
    var hi := b / 8;
    ByteAsShifts(b);
    FormatSplitAt(b, hi, m, 5, 3);
    FormatSplitAt(hi, s, e, 1, 4);
    SignFormat(s);
    Regrouped(Format(b, 8), Format(hi, 5), Format(m, 3), Format(s, 1), Format(e, 4), SignChar(s == 1));
  }

  /** The byte's value from its fields, as shifts. */
  lemma ByteAsShifts(b: Byte)
    ensures b == Shl(b / 8, 3) + ManOf(b) && ManOf(b) < Pow2(3)
    ensures b / 8 == Shl(SignOf(b), 4) + ExpOf(b) && ExpOf(b) < Pow2(4)
  {
    SmallPowers();
    FieldsDetermineByte(b);
    ShlSmall(b / 8);
    ShlSmall(SignOf(b));
  }

  lemma SignFormat(s: nat)
    requires s <= 1
    ensures Format(s, 1) == SignChar(s == 1)
  {
    assert Format(s, 1) == "" + Digit(s);
  }

  lemma Regrouped(whole: string, high: string, low: string, first: string, middle: string, sign: string)
    requires whole == high + low && high == first + middle && first == sign
    ensures whole == sign + (middle + low)
  {
    ConcatAssoc(first, middle, low);
  }

  /** The `for i in range(3)` loop run for n steps: double the value, then
      append '1' and subtract one when it reached 1, else append '0'.
      Returns the digits and what is left. */
  function MantissaDigits(v: real, n: nat): (r: (string, real))
    requires v >= 0.0
    ensures |r.0| == n && r.1 >= 0.0
    ensures v < 1.0 ==> r.1 < 1.0
  {
    if n == 0 then ("", v)
    else
      var previous := MantissaDigits(v, n - 1);
      var d := previous.1 * 2.0;
      if d >= 1.0 then (previous.0 + "1", d - 1.0) else (previous.0 + "0", d)
  }

  /** The digits and the remainder together keep the value: v * 2^n ==
      digits + remainder. */
  lemma {:induction false} DigitsValue(v: real, n: nat)
    requires v >= 0.0
    ensures Ldexp(v, n) == BinVal(MantissaDigits(v, n).0) as real + MantissaDigits(v, n).1
  {
    if n > 0 {
      var previous := MantissaDigits(v, n - 1);
      var r := MantissaDigits(v, n);
      DigitsValue(v, n - 1);
      LdexpStep(v, n - 1);
      assert r.0[..n - 1] == previous.0;
    }
  }

  lemma {:induction false} DigitsAreBinary(v: real, n: nat)
    requires v >= 0.0
    ensures IsBinary(MantissaDigits(v, n).0)
  {
    if n > 0 {
      DigitsAreBinary(v, n - 1);
    }
  }

  /** A fraction k/8 yields the three digits of k with nothing left. */
  lemma EighthsDigits(k: nat)
    requires k < 8
    ensures MantissaDigits(k as real / 8.0, 3) == (Format(k, 3), 0.0)
  {
    var r := MantissaDigits(k as real / 8.0, 3);
    DigitsValue(k as real / 8.0, 3);
    LdexpEight(k as real / 8.0);
    assert k as real == BinVal(r.0) as real + r.1;
    assert BinVal(r.0) == k;
    DigitsAreBinary(k as real / 8.0, 3);
    FormatBinVal(r.0);
  }

  /** From a value of at least 1 every digit is '1' and at least 1 is left. */
  lemma {:induction false} DigitsFromOne(v: real, n: nat)
    requires v >= 1.0
    ensures forall i | 0 <= i < n :: MantissaDigits(v, n).0[i] == '1'
    ensures MantissaDigits(v, n).1 >= 1.0
  {
    if n > 0 {
      DigitsFromOne(v, n - 1);
    }
  }

  /** The rounding step: when what is left after the three digits is at
      least 1/2, add one to the mantissa; an overflow past 7 resets it to
      000 and carries into the biased exponent, which stops at 15. */
  function RoundMantissa(bits: string, rem: real, biased: nat): (r: (string, nat))
    requires |bits| == 3 && biased <= 15
    ensures |r.0| == 3 && biased <= r.1 <= 15
  {
    SmallPowers();
    if rem >= 0.5 then
      var asInt := BinVal(bits) + 1;
      if asInt > 7 then (Format(0, 3), if biased + 1 > 14 then 15 else biased + 1)
      else (Format(asInt, 3), biased)
    else (bits, biased)
  }

  /** Below exponent 15, rounding adds exactly the rounding bit to the
      7-bit code exponent * 8 + mantissa: a mantissa overflow carries. */
  lemma RoundingCarries(bits: string, rem: real, biased: nat)
    requires |bits| == 3 && biased <= 14
    ensures var r := RoundMantissa(bits, rem, biased);
      r.1 * 8 + BinVal(r.0) == biased * 8 + BinVal(bits) + (if rem >= 0.5 then 1 else 0)
  {
    SmallPowers();
    BinValBound(bits);
    var r := RoundMantissa(bits, rem, biased);
    var asInt := BinVal(bits) + 1;
    if rem >= 0.5 {
      if asInt > 7 {
        assert r == (Format(0, 3), biased + 1);
        BinValFormat(0, 3);
      } else {
        assert r == (Format(asInt, 3), biased);
        BinValFormat(asInt, 3);
      }
    } else {
      assert r == (bits, biased);
    }
  }

  /** The doubling loop of the normalisation: double while below 1,
      counting the exponent down (no lower limit). */
  function DoubleUp(f: real, e: int): (r: (real, int))
    requires f > 0.0
    ensures 1.0 <= r.0 && r.1 <= e
    ensures f < 2.0 ==> r.0 < 2.0
    decreases (1.0 / f).Floor
  {
    if f < 1.0 then
      DoublingLowersReciprocal(f);
      DoubleUp(f * 2.0, e - 1)
    else (f, e)
  }

  lemma DoublingLowersReciprocal(f: real)
    requires 0.0 < f < 1.0
    ensures (1.0 / f).Floor >= 1
    ensures (1.0 / (f * 2.0)).Floor < (1.0 / f).Floor
  {
    var y := 1.0 / f;
    assert y * f == 1.0;
    assert y > 1.0;
    assert 1.0 / (f * 2.0) == y / 2.0;
    if y >= 2.0 {
      HalvingLowersFloor(y);
    }
  }

  /** The normalisation of `convert_to_e4m3`: halve from 2 upwards, double
      from below 1, leaving the magnitude in [1, 2). */
  function ConverterNormalize(a: real): (r: (real, int))
    requires a > 0.0
    ensures 1.0 <= r.0 < 2.0
  {
    if a >= 2.0 then HalveIntoRange(a, 0)
    else if a < 1.0 then DoubleUp(a, 0)
    else (a, 0)
  }

  lemma {:induction false} DoubleUpKeepsValue(f: real, e: int)
    requires f > 0.0
    ensures var r := DoubleUp(f, e); Ldexp(r.0, r.1) == Ldexp(f, e)
    decreases (1.0 / f).Floor
  {
    if f < 1.0 {
      DoublingLowersReciprocal(f);
      DoubleUpKeepsValue(f * 2.0, e - 1);
      LdexpDouble(f, e);
      assert f * 2.0 == 2.0 * f;
    }
  }

  /** Normalisation keeps the value: a == m * 2^exponent. */
  lemma ConverterNormalizeKeepsValue(a: real)
    requires a > 0.0
    ensures Ldexp(ConverterNormalize(a).0, ConverterNormalize(a).1) == a
  {
    if a >= 2.0 {
      HalvingKeepsValue(a, 0);
    } else if a < 1.0 {
      DoubleUpKeepsValue(a, 0);
    }
  }

  lemma {:induction false} DoubleUpScaled(v: real, k: nat, e0: int)
    requires 1.0 <= v < 2.0
    ensures DoubleUp(Ldexp(v, -(k as int)), e0) == (v, e0 - k)
  {
    if k > 0 {
      var j: int := k;
      LdexpStep(v, -j);
      LdexpMonotone(v, 2.0, 1 - j);
      LdexpExpMonotone(2.0, 1 - j, 0);
      assert Ldexp(v, -j) < 1.0;
      assert Ldexp(v, -j) * 2.0 == Ldexp(v, 1 - j);
      DoubleUpScaled(v, k - 1, e0 - 1);
    }
  }

  /** Normalisation undoes scaling: v * 2^k with v in [1, 2) gives (v, k). */
  lemma ConverterNormalizeScaled(v: real, k: int)
    requires 1.0 <= v < 2.0
    ensures ConverterNormalize(Ldexp(v, k)) == (v, k)
  {
    var a := Ldexp(v, k);
    if k > 0 {
      HalveScaled(v, k, 0);
      LdexpStep(v, k - 1);
      LdexpMonotone(1.0, v, k - 1);
      LdexpExpMonotone(1.0, 0, k - 1);
    } else if k < 0 {
      DoubleUpScaled(v, -k, 0);
      LdexpMonotone(v, 2.0, k);
      LdexpExpMonotone(2.0, k, 0);
    }
  }

  /** A magnitude below 2^k normalises to an exponent below k. */
  lemma ExponentBelow(a: real, k: int)
    requires 0.0 < a < Ldexp(1.0, k)
    ensures ConverterNormalize(a).1 < k
  {
    var r := ConverterNormalize(a);
    ConverterNormalizeKeepsValue(a);
    if r.1 >= k {
      LdexpMonotone(1.0, r.0, r.1);
      LdexpExpMonotone(1.0, k, r.1);
      assert false;
    }
  }

  /** A magnitude of at least 2^k normalises to an exponent of at least k. */
  lemma ExponentAtLeast(a: real, k: int)
    requires a > 0.0 && a >= Ldexp(1.0, k)
    ensures ConverterNormalize(a).1 >= k
  {
    var r := ConverterNormalize(a);
    ConverterNormalizeKeepsValue(a);
    if r.1 < k {
      LdexpMonotone(r.0, 2.0, r.1);
      LdexpDouble(1.0, r.1 + 1);
      LdexpExpMonotone(1.0, r.1 + 1, k);
      assert false;
    }
  }

  /** The sign character: "1" for a negative number. */
  function SignChar(negative: bool): string
  {
    if negative then "1" else "0"
  }

  /** Where `convert_to_e4m3` stands after normalising a non-zero finite
      magnitude and checking the exponent range: saturated, or the biased
      exponent and the magnitude the mantissa digits are read from. */
  datatype Stage = Saturated | Fields(biased: nat, scaled: real)

  /** As written (`corrected` false) only a biased exponent below 0 takes
      the denormal path, scaling by 2^6; `corrected` also sends biased
      exponent 0 there. */
  function Staging(a: real, corrected: bool): (st: Stage)
    requires a > 0.0
    ensures st.Fields? ==> st.biased <= 15 && st.scaled > 0.0 && (st.biased != 0 ==> st.scaled >= 1.0)
  {
    var (m, exponent) := ConverterNormalize(a);
    var biased := exponent + 7;
    var denormal := if corrected then biased <= 0 else biased < 0;
    if denormal then Fields(0, a * 64.0)
    else if biased > 14 && a >= 448.0 then Saturated
    else Fields(if biased > 14 then 15 else biased, m)
  }

  /** The exponent and mantissa characters from the biased exponent and
      the scaled magnitude: three mantissa digits, rounding, and the guard
      that turns 1111/111 into 1111/110. */
  function FieldBits(biased: nat, scaled: real): (bits: string)
    requires biased <= 15 && scaled > 0.0 && (biased != 0 ==> scaled >= 1.0)
    ensures |bits| == 7
  {
    var mantissaValue := if biased == 0 then scaled else scaled - 1.0;
    var (digits, rem) := MantissaDigits(mantissaValue, 3);
    var (rounded, biased1) := RoundMantissa(digits, rem, biased);
    Format(biased1, 4) + (if biased1 == 15 && rounded == "111" then "110" else rounded)
  }

  /** The string for a finite non-zero magnitude `a` with the given sign. */
  function EncodeMagnitude(negative: bool, a: real, corrected: bool): (binary: string)
    requires a > 0.0
    ensures |binary| == 8
    ensures binary[0] == '1' <==> negative
  {
    SignChar(negative) + match Staging(a, corrected)
      case Saturated => "1111110"
      case Fields(biased, scaled) => FieldBits(biased, scaled)
  }

  /** `convert_to_e4m3(number)` (`corrected` false). An infinite input
      never returns (its halving loop does not end), hence the
      precondition. */
  function Conversion(number: PyFloat, corrected: bool): (binary: string)
    requires !number.Inf?
    ensures |binary| == 8
    ensures binary[0] == '1' <==> number.Num? && number.x < 0.0
  {
    if number.IsZero() then "00000000"
    else if number.NaN? then "0" + "1111111"
    else EncodeMagnitude(number.x < 0.0, Abs(number.x), corrected)
  }

  method ConvertToE4m3(number: PyFloat) returns (binary: string)
    requires !number.Inf?
    ensures binary == Conversion(number, false)
  {
    if number.IsZero() {
      return "00000000";
    }
    var signBit := if number.Num? && number.x < 0.0 then "1" else "0";
    if number.NaN? {
      return signBit + "1111111";
    }
    var absNum := Abs(number.x);
    var stage := StageMagnitude(absNum);
    if stage.Saturated? {
      return signBit + "1111110";
    }
    var fields := ExponentAndMantissa(stage.biased, stage.scaled);
    binary := signBit + fields;
  }

  /** The normalisation and the biased exponent's clamping: the denormal
      scaling, the saturation return and the clamp to 15. */
  method StageMagnitude(absNum: real) returns (stage: Stage)
    requires absNum > 0.0
    ensures stage == Staging(absNum, false)
  {
    var normalized, exponent := NormalizeMagnitude(absNum);
    var biasedExponent := exponent + 7;
    if biasedExponent < 0 {
      biasedExponent := 0;
      normalized := absNum * 64.0;
    }
    if biasedExponent > 14 {
      if absNum >= 448.0 {
        return Saturated;
      }
      biasedExponent := 15;
    }
    stage := Fields(biasedExponent, normalized);
  }

  /** The two normalisation loops. */
  method NormalizeMagnitude(absNum: real) returns (normalized: real, exponent: int)
    requires absNum > 0.0
    ensures (normalized, exponent) == ConverterNormalize(absNum)
  {
    exponent := 0;
    normalized := absNum;
    if normalized >= 2.0 {
      while normalized >= 2.0
        invariant normalized > 0.0
        invariant HalveIntoRange(normalized, exponent) == HalveIntoRange(absNum, 0)
        decreases normalized.Floor
      {
        HalvingLowersFloor(normalized);
        normalized := normalized / 2.0;
        exponent := exponent + 1;
      }
    } else if normalized < 1.0 && normalized > 0.0 {
      while normalized < 1.0
        invariant normalized > 0.0
        invariant DoubleUp(normalized, exponent) == DoubleUp(absNum, 0)
        decreases (1.0 / normalized).Floor
      {
        DoublingLowersReciprocal(normalized);
        normalized := normalized * 2.0;
        exponent := exponent - 1;
      }
    }
  }

  /** From the mantissa extraction to the assembled exponent and mantissa
      bits. */
  method ExponentAndMantissa(biased: nat, normalized: real) returns (fields: string)
    requires biased <= 15 && normalized > 0.0 && (biased != 0 ==> normalized >= 1.0)
    ensures fields == FieldBits(biased, normalized)
  {
    SmallPowers();
    var biasedExponent := biased;
    var mantissaValue := if biasedExponent == 0 then normalized else normalized - 1.0;
    var mantissaBits, rest := MantissaBits(mantissaValue);
    if rest >= 0.5 {
      var asInt := BinVal(mantissaBits) + 1;
      if asInt > 7 {
        asInt := 0;
        biasedExponent := biasedExponent + 1;
        if biasedExponent > 14 {
          biasedExponent := 15;
        }
      }
      mantissaBits := Format(asInt, 3);
    }
    if biasedExponent == 15 && mantissaBits == "111" {
      mantissaBits := "110";
    }
    fields := Format(biasedExponent, 4) + mantissaBits;
  }

  /** The mantissa loop: three binary digits of the value. */
  method MantissaBits(value: real) returns (bits: string, rest: real)
    requires value >= 0.0
    ensures (bits, rest) == MantissaDigits(value, 3)
  {
    bits, rest := "", value;
    for i := 0 to 3
      invariant (bits, rest) == MantissaDigits(value, i)
    {
      rest := rest * 2.0;
      if rest >= 1.0 {
        bits := bits + "1";
        rest := rest - 1.0;
      } else {
        bits := bits + "0";
      }
    }
  }

  /** Python's `format` and `int(s, 2)` on the all-ones patterns. */
  lemma OnesPatterns()
    ensures Format(15, 4) == "1111" && BinVal("1111") == 15
    ensures Format(7, 3) == "111" && BinVal("111") == 7
  {
    SmallPowers();
    BinValFormat(15, 4);
    BinValFormat(7, 3);
  }

  /** The field characters are never the NaN pattern 1111111. */
  lemma FieldBitsNotNan(biased: nat, scaled: real)
    requires biased <= 15 && scaled > 0.0 && (biased != 0 ==> scaled >= 1.0)
    ensures FieldBits(biased, scaled) != "1111111"
  {
    SmallPowers();
    var mantissaValue := if biased == 0 then scaled else scaled - 1.0;
    var (digits, rem) := MantissaDigits(mantissaValue, 3);
    var (rounded, biased1) := RoundMantissa(digits, rem, biased);
    var final := if biased1 == 15 && rounded == "111" then "110" else rounded;
    var e := Format(biased1, 4);
    assert FieldBits(biased, scaled) == e + final;
    if e + final == "1111111" {
      assert e == (e + final)[..4] == "1111";
      assert final == (e + final)[4..];
      OnesPatterns();
      BinValFormat(biased1, 4);
      assert false;
    }
  }

  /** The result is never the NaN pattern 1111/111 unless the input is NaN. */
  lemma NanPatternOnlyForNan(number: PyFloat)
    requires !number.Inf?
    ensures Conversion(number, false)[1..] == "1111111" <==> number.NaN?
  {
    if !number.IsZero() && !number.NaN? {
      var st := Staging(Abs(number.x), false);
      if st.Fields? {
        FieldBitsNotNan(st.biased, st.scaled);
      }
    }
  }

  lemma {:induction false} FormatIsBinary(x: nat, w: nat)
    ensures IsBinary(Format(x, w))
  {
    if w > 0 {
      FormatIsBinary(x / 2, w - 1);
    }
  }

  lemma FieldBitsAreBinary(biased: nat, scaled: real)
    requires biased <= 15 && scaled > 0.0 && (biased != 0 ==> scaled >= 1.0)
    ensures IsBinary(FieldBits(biased, scaled))
  {
    var mantissaValue := if biased == 0 then scaled else scaled - 1.0;
    var (digits, rem) := MantissaDigits(mantissaValue, 3);
    var (rounded, biased1) := RoundMantissa(digits, rem, biased);
    DigitsAreBinary(mantissaValue, 3);
    FormatIsBinary(0, 3);
    FormatIsBinary(BinVal(digits) + 1, 3);
    FormatIsBinary(biased1, 4);
    assert IsBinary(rounded);
  }

  /** The result is 8 characters of '0' and '1': sign, 4 exponent and 3
      mantissa bits. */
  lemma ConversionWellFormed(number: PyFloat)
    requires !number.Inf?
    ensures IsBinary(Conversion(number, false))
  {
    if !number.IsZero() && !number.NaN? {
      var st := Staging(Abs(number.x), false);
      if st.Fields? {
        FieldBitsAreBinary(st.biased, st.scaled);
      }
    }
  }

  /** A magnitude of 448 or more saturates to sign + 1111110. */
  lemma SaturatesFrom448(x: real)
    requires Abs(x) >= 448.0
    ensures Conversion(Num(x), false) == SignChar(x < 0.0) + "1111110"
  {
    LdexpSmall();
    ExponentAtLeast(Abs(x), 8);
  }

  /** A normal value v * 2^k (v in [1, 2)) stages with biased exponent
      k + 7 and magnitude v, up to exponent field 15 below 448. */
  lemma StagingNormal(v: real, k: int, corrected: bool)
    requires 1.0 <= v < 2.0 && -6 <= k <= 8
    requires k == 8 ==> Ldexp(v, 8) < 448.0
    ensures Staging(Ldexp(v, k), corrected) == Fields(k + 7, v)
  {
    ConverterNormalizeScaled(v, k);
  }

  /** The exponent field e with the exact mantissa m/8 gives the strings of
      e and m, except the NaN pattern. */
  lemma FieldBitsExact(e: nat, m: nat)
    requires e <= 15 && m <= 7 && (e == 15 ==> m != 7) && (e == 0 ==> m != 0)
    ensures FieldBits(e, if e == 0 then m as real / 8.0 else m as real / 8.0 + 1.0)
      == Format(e, 4) + Format(m, 3)
  {
    var v := if e == 0 then m as real / 8.0 else m as real / 8.0 + 1.0;
    EighthsDigits(m);
    if e == 15 {
      NotAllOnes(m);
    }
    ExactFieldBits(e, v, Format(m, 3));
  }

  /** Digits that leave nothing to round are kept as they are, unless they
      would complete the NaN pattern. */
  lemma ExactFieldBits(biased: nat, scaled: real, digits: string)
    requires biased <= 15 && scaled > 0.0 && (biased != 0 ==> scaled >= 1.0)
    requires MantissaDigits(if biased == 0 then scaled else scaled - 1.0, 3) == (digits, 0.0)
    requires biased == 15 ==> digits != "111"
    ensures FieldBits(biased, scaled) == Format(biased, 4) + digits
  {
  }

  /** Only 7 formats as 111. */
  lemma NotAllOnes(m: nat)
    requires m < 7
    ensures Format(m, 3) != "111"
  {
    OnesPatterns();
    SmallPowers();
    BinValFormat(m, 3);
  }

  /** The normal value (1 + m/8) * 2^(e-7), for exponent field e in 1..14
      and, the converter treating 1111 as finite, e == 15 with m <= 5. */
  lemma EncodeNormal(negative: bool, e: nat, m: nat, corrected: bool)
    requires 1 <= e <= 15 && m <= 7 && (e == 15 ==> m <= 5)
    ensures EncodeMagnitude(negative, Ldexp(m as real / 8.0 + 1.0, e as int - 7), corrected)
      == SignChar(negative) + (Format(e, 4) + Format(m, 3))
  {
    var v := m as real / 8.0 + 1.0;
    if e == 15 {
      BelowSaturation(v);
    }
    StagingNormal(v, e as int - 7, corrected);
    EncodeExact(negative, Ldexp(v, e as int - 7), corrected, e, m);
  }

  /** A magnitude that stages as exponent field e with the exact mantissa
      m/8 is encoded as the strings of e and m. */
  lemma EncodeExact(negative: bool, a: real, corrected: bool, e: nat, m: nat)
    requires e <= 15 && m <= 7 && (e == 15 ==> m != 7) && (e == 0 ==> m != 0) && a > 0.0
    requires Staging(a, corrected) == Fields(e, if e == 0 then m as real / 8.0 else m as real / 8.0 + 1.0)
    ensures EncodeMagnitude(negative, a, corrected) == SignChar(negative) + (Format(e, 4) + Format(m, 3))
  {
    FieldBitsExact(e, m);
    EncodeStaged(negative, a, corrected, e, if e == 0 then m as real / 8.0 else m as real / 8.0 + 1.0);
  }

  /** A magnitude that stages as fields is encoded by its sign character
      and `FieldBits`. */
  lemma EncodeStaged(negative: bool, a: real, corrected: bool, biased: nat, scaled: real)
    requires a > 0.0 && Staging(a, corrected) == Fields(biased, scaled)
    ensures biased <= 15 && scaled > 0.0 && (biased != 0 ==> scaled >= 1.0)
    ensures EncodeMagnitude(negative, a, corrected) == SignChar(negative) + FieldBits(biased, scaled)
  {
  }

  /** (1 + m/8) * 2^8 with m <= 5 is below 448. */
  lemma BelowSaturation(v: real)
    requires v <= 1.625
    ensures Ldexp(v, 8) < 448.0
  {
    LdexpMonotone(v, 1.75, 8);
    LdexpDouble(0.875, 8);
    LdexpDouble(1.75, 7);
    LdexpSmall();
  }

  /** A denormal value m/8 * 2^-6 stages on the denormal path, scaled back
      to m/8, when its biased exponent is below the denormal threshold. */
  lemma StagingDenormal(m: nat, corrected: bool)
    requires 1 <= m <= 7 && (!corrected ==> m <= 3)
    ensures Staging(Ldexp(m as real / 8.0, -6), corrected) == Fields(0, m as real / 8.0)
  {
    var a := Ldexp(m as real / 8.0, -6);
    if corrected {
      LdexpMonotone(m as real / 8.0, 1.0, -6);
      ExponentBelow(a, -6);
    } else {
      LdexpMonotone(m as real / 8.0, 0.5, -6);
      LdexpDouble(0.5, -6);
      ExponentBelow(a, -7);
    }
    LdexpSixtyFour(m as real / 8.0);
  }

  lemma EncodeDenormal(negative: bool, m: nat, corrected: bool)
    requires 1 <= m <= 7 && (!corrected ==> m <= 3)
    ensures EncodeMagnitude(negative, Ldexp(m as real / 8.0, -6), corrected)
      == SignChar(negative) + (Format(0, 4) + Format(m, 3))
  {
    StagingDenormal(m, corrected);
    EncodeExact(negative, Ldexp(m as real / 8.0, -6), corrected, 0, m);
  }

  /** As written, a value in [2^-7, 2^-6) has biased exponent 0 but is not
      scaled, so its mantissa digits come from m' in [1, 2). */
  lemma StagingUpperDenormal(m: nat)
    requires 4 <= m <= 7
    ensures var st := Staging(Ldexp(m as real / 8.0, -6), false);
      st.Fields? && st.biased == 0 && st.scaled >= 1.0
  {
    var a := Ldexp(m as real / 8.0, -6);
    LdexpMonotone(m as real / 8.0, 1.0, -6);
    ExponentBelow(a, -6);
    LdexpMonotone(0.5, m as real / 8.0, -6);
    LdexpDouble(0.5, -6);
    ExponentAtLeast(a, -7);
  }

  /** Biased exponent 0 with an unscaled magnitude in [1, 2): all three
      digits are 1 with at least 1 left, so the mantissa overflows into
      exponent 1. */
  lemma FieldBitsFromOne(v: real)
    requires v >= 1.0
    ensures FieldBits(0, v) == Format(1, 4) + Format(0, 3)
  {
    DigitsFromOne(v, 3);
    var digits := MantissaDigits(v, 3).0;
    assert digits == "111";
    OnesPatterns();
  }

  lemma EncodeUpperDenormal(negative: bool, m: nat)
    requires 4 <= m <= 7
    ensures EncodeMagnitude(negative, Ldexp(m as real / 8.0, -6), false)
      == SignChar(negative) + (Format(1, 4) + Format(0, 3))
  {
    StagingUpperDenormal(m);
    FieldBitsFromOne(Staging(Ldexp(m as real / 8.0, -6), false).scaled);
  }

  /** A decoded finite non-zero byte reaches the converter as its sign
      and its magnitude. */
  lemma ConversionOfByte(b: Byte, corrected: bool)
    requires ExpOf(b) < 15 && (ExpOf(b) != 0 || ManOf(b) != 0)
    ensures Conversion(Fp8ToFloat(b), corrected)
      == EncodeMagnitude(SignOf(b) == 1, Magnitude(ExpOf(b), ManOf(b)), corrected)
  {
    DecodeFinite(b);
    var v := Magnitude(ExpOf(b), ManOf(b));
    var x := Signed(SignOf(b), v);
    assert Abs(x) == v && (x < 0.0 <==> SignOf(b) == 1);
  }

  /** Every normal byte (exponent field 1..14) converts back to its own
      bit string, with either denormal test. */
  lemma NormalConverterRoundTrip(b: Byte, corrected: bool)
    requires 1 <= ExpOf(b) <= 14
    ensures Conversion(Fp8ToFloat(b), corrected) == Format(b, 8)
  {
    var s, e, m := SignOf(b), ExpOf(b), ManOf(b);
    ConversionOfByte(b, corrected);
    assert Magnitude(e, m) == Ldexp(m as real / 8.0 + 1.0, e as int - 7);
    EncodeNormal(s == 1, e, m, corrected);
    ByteString(b);
  }

  /** A denormal byte converts back to itself whenever the denormal path
      takes it. */
  lemma DenormalConverterRoundTrip(b: Byte, corrected: bool)
    requires ExpOf(b) == 0 && 1 <= ManOf(b) && (!corrected ==> ManOf(b) <= 3)
    ensures Conversion(Fp8ToFloat(b), corrected) == Format(b, 8)
  {
    var s, m := SignOf(b), ManOf(b);
    ConversionOfByte(b, corrected);
    assert Magnitude(0, m) == Ldexp(m as real / 8.0, -6);
    EncodeDenormal(s == 1, m, corrected);
    ByteString(b);
  }

  /** As written, the upper denormals (mantissa 4..7) all convert to the
      smallest normal of their sign, 2^-6. */
  lemma UpperDenormalsCollapse(b: Byte)
    requires ExpOf(b) == 0 && 4 <= ManOf(b)
    ensures Conversion(Fp8ToFloat(b), false) == Format(SignOf(b) * 128 + 8, 8)
  {
    var s, m := SignOf(b), ManOf(b);
    ConversionOfByte(b, false);
    assert Magnitude(0, m) == Ldexp(m as real / 8.0, -6);
    EncodeUpperDenormal(s == 1, m);
    var smallest := SignChar(s == 1) + (Format(1, 4) + Format(0, 3));
    assert Conversion(Fp8ToFloat(b), false) == smallest;
    SmallestNormalFields(s);
    ByteString(s * 128 + 8);
    assert Format(s * 128 + 8, 8) == smallest;
  }

  /** The fields of the smallest normal byte of sign s. */
  lemma SmallestNormalFields(s: nat)
    requires s <= 1
    ensures s * 128 + 8 < 256
    ensures SignOf(s * 128 + 8) == s && ExpOf(s * 128 + 8) == 1 && ManOf(s * 128 + 8) == 0
  {
  }

  /** With the denormal test `biased_exponent <= 0`, every byte that
      decodes to a finite value other than -0.0 converts back to itself. */
  lemma CorrectedConverterRoundTrip(b: Byte)
    requires ExpOf(b) < 15 && b != 0x80
    ensures Conversion(Fp8ToFloat(b), true) == Format(b, 8)
    ensures CorrectedConversion(Fp8ToFloat(b)) == Format(b, 8)
  {
    var e, m := ExpOf(b), ManOf(b);
    if e == 0 && m == 0 {
      FieldsDetermineByte(b);
      assert b == 0;
      ZeroConverts(true);
    } else if e == 0 {
      DenormalConverterRoundTrip(b, true);
    } else {
      NormalConverterRoundTrip(b, true);
    }
  }

  /** `abs(number)` of line 17 on a Python float. */
  function AbsFloat(number: PyFloat): (r: PyFloat)
    ensures r.Inf? <==> number.Inf?
    ensures r.Inf? ==> !r.negative
    ensures r.Num? ==> r.x >= 0.0
  {
    match number
    case Num(x) => Num(Abs(x))
    case NegZero => Num(0.0)
    case Inf(_) => Inf(false)
    case NaN => NaN
  }

  /** n passes of `normalized_num /= 2` (line 33) on a Python float. */
  function Halvings(v: PyFloat, n: nat): PyFloat
  {
    if n == 0 then v
    else
      var h := Halvings(v, n - 1);
      if h.Num? then Num(h.x / 2.0) else h
  }

  /** The guard `normalized_num >= 2` of lines 31-32 on a Python float. */
  predicate AtLeastTwo(v: PyFloat)
  {
    (v.Num? && v.x >= 2.0) || v == Inf(false)
  }

  /** As written, an infinite input never leaves the halving loop of lines
      31-34: its magnitude is +inf, which halves to +inf, so after any
      number of passes the guard still holds. */
  lemma {:induction false} InfinityNeverNormalises(number: PyFloat, n: nat)
    requires number.Inf?
    ensures Halvings(AbsFloat(number), n) == Inf(false)
    ensures AtLeastTwo(Halvings(AbsFloat(number), n))
  {
    if n > 0 {
      InfinityNeverNormalises(number, n - 1);
    }
  }

  /** `convert_to_e4m3` as evidently intended: an infinity saturates like
      every other magnitude of 448 or more (lines 58-62), and a biased
      exponent of 0 takes the denormal path. */
  function CorrectedConversion(number: PyFloat): (binary: string)
    ensures |binary| == 8
    ensures binary[0] == '1' <==> (number.Num? && number.x < 0.0) || (number.Inf? && number.negative)
  {
    if number.Inf? then SignChar(number.negative) + "1111110"
    else Conversion(number, true)
  }

  /** Corrected, every magnitude of 448 or more, infinities included,
      saturates to its sign and 1111110. */
  lemma CorrectedSaturates(number: PyFloat)
    requires number.Inf? || (number.Num? && Abs(number.x) >= 448.0)
    ensures CorrectedConversion(number)
      == SignChar((number.Num? && number.x < 0.0) || (number.Inf? && number.negative)) + "1111110"
  {
    if number.Num? {
      LdexpSmall();
      ExponentAtLeast(Abs(number.x), 8);
    }
  }

  /** Corrected, the result is the NaN pattern 1111/111 exactly for NaN,
      and it is always 8 characters of '0' and '1'. */
  lemma CorrectedNanOnlyForNan(number: PyFloat)
    ensures CorrectedConversion(number)[1..] == "1111111" <==> number.NaN?
    ensures IsBinary(CorrectedConversion(number))
  {
    if !number.Inf? && !number.IsZero() && !number.NaN? {
      var st := Staging(Abs(number.x), true);
      if st.Fields? {
        FieldBitsNotNan(st.biased, st.scaled);
        FieldBitsAreBinary(st.biased, st.scaled);
      }
    }
  }

  /** The byte 0x00 converts back to eight zeros. */
  lemma ZeroConverts(corrected: bool)
    ensures Conversion(Fp8ToFloat(0), corrected) == Format(0, 8)
  {
    assert Fp8ToFloat(0).IsZero();
    assert Format(0, 2) == "0" + "0";
    assert Format(0, 4) == "00" + "0" + "0";
    assert Format(0, 6) == "0000" + "0" + "0";
    assert Format(0, 8) == "000000" + "0" + "0";
  }

  /** Exponent field 15 is finite for the converter: (1 + m/8) * 2^8 with
      m <= 5 converts to 1111 and mantissa m. */
  lemma ExponentFifteenFinite(m: nat)
    requires m <= 5
    ensures Conversion(Num(Ldexp(m as real / 8.0 + 1.0, 8)), false) == "0" + ("1111" + Format(m, 3))
  {
    EncodeNormal(false, 15, m, false);
    OnesPatterns();
  }
}
