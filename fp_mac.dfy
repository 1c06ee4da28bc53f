/** `fp_mac` (src/hdl/components/fp_mac.py): a generic-width floating-point
    multiply-accumulate pipeline of three clocked stages, `unpack`,
    `multiply` and `accumulate`. All three read the registers' pre-edge
    values, so one edge moves every stage at once. Each `always_seq`
    reset restores every register its block drives to 0 / False (the
    `result` port is taken to be a `width`-bit signal starting at 0). */
module FpMac {
  import opened Bits
  import opened Wrappers

  /** The widths the generator is parameterised with. */
  datatype Format = Format(width: nat, expBits: nat, mantBits: nat)
  {
    predicate Valid()
    {
      expBits >= 2 && mantBits >= 2 && width == 1 + expBits + mantBits
    }

    /** The all-ones exponent `2**EXP_BITS - 1`. */
    function MaxExp(): nat
    {
      Pow2(expBits) - 1
    }

    /** `BIAS = 2**(EXP_BITS - 1) - 1`. */
    function Bias(): nat
      requires expBits >= 1
    {
      Pow2(expBits - 1) - 1
    }
  }

  /** The width table of lines 32-45; None is the ValueError. */
  function FormatFor(width: int): (r: Option<Format>)
    ensures r.Some? <==> width == 16 || width == 32 || width == 64 || width == 128
    ensures r.Some? ==> r.value.width == width && r.value.Valid()
    ensures width == 32 ==> r == Some(Format(32, 8, 23))
  {
    if width == 16 then Some(Format(16, 5, 10))
    else if width == 32 then Some(Format(32, 8, 23))
    else if width == 64 then Some(Format(64, 11, 52))
    else if width == 128 then Some(Format(128, 15, 112))
    else None
  }

  /** The bias sits in the middle of the exponent range: twice the bias
      plus one is the all-ones exponent. */
  lemma BiasIsHalfMaxExp(f: Format)
    requires f.expBits >= 1
    ensures 2 * f.Bias() + 1 == f.MaxExp()
  {
    assert Pow2(f.expBits) == 2 * Pow2(f.expBits - 1);
  }

  /** The fields one operand unpacks to. */
  datatype Fields = Fields(sign: bool, exp: nat, mant: nat)

  /** Lines 92-102 for one operand. The exponent is taken from
      `x[width-2 : width-2-EXP_BITS]` and the mantissa from
      `x[width-2-EXP_BITS:]`: both one bit below the fields of the
      format, so the mantissa keeps only MANT_BITS - 1 bits. */
  function Unpack(f: Format, x: nat): (u: Fields)
    requires f.Valid()
    ensures u.sign <==> Bit(x, f.width - 1)
    ensures u.exp == Slice(x, f.width - 2, f.mantBits - 1) && u.exp < Pow2(f.expBits)
    ensures u.mant == Slice(x, f.mantBits - 1, 0) && u.mant < Pow2(f.mantBits - 1)
  {
    Fields(Bit(x, f.width - 1),
      Slice(x, f.width - 2, f.width - 2 - f.expBits),
      Slice(x, f.width - 2 - f.expBits, 0))
  }

  /** The registers `unpack` drives. */
  datatype UnpackRegs = UnpackRegs(a: Fields, b: Fields, c: Fields, stage1Valid: bool)

  /** The registers `multiply` drives. */
  datatype MulRegs = MulRegs(
    sign: bool, exp: nat, mant: nat, normExp: nat, normMant: nat, stage2Valid: bool)

  /** The registers `accumulate` drives, with the `result` port. */
  datatype AccRegs = AccRegs(
    sign: bool, exp: nat, mant: nat, result: nat, overflow: bool, underflow: bool)

  datatype MacState = MacState(u: UnpackRegs, m: MulRegs, acc: AccRegs)
  {
    /** Every register holds a value of its declared width. */
    predicate Valid(f: Format)
    {
      && u.a.exp < Pow2(f.expBits) && u.b.exp < Pow2(f.expBits) && u.c.exp < Pow2(f.expBits)
      && u.a.mant < Pow2(f.mantBits) && u.b.mant < Pow2(f.mantBits) && u.c.mant < Pow2(f.mantBits)
      && m.exp < Pow2(f.expBits + 1) && m.mant < Pow2(2 * f.mantBits + 2)
      && m.normExp < Pow2(f.expBits + 1) && m.normMant < Pow2(f.mantBits + 3)
      && acc.exp < Pow2(f.expBits + 2) && acc.mant < Pow2(f.mantBits + 5)
      && acc.result < Pow2(f.width)
    }
  }

  const ZeroFields: Fields := Fields(false, 0, 0)

  /** Every register at 0 / False: the initial and the reset state. */
  const Initial: MacState := MacState(
    UnpackRegs(ZeroFields, ZeroFields, ZeroFields, false),
    MulRegs(false, 0, 0, 0, 0, false),
    AccRegs(false, 0, 0, 0, false, false))

  /** `concat(intbv(1), mant)` for a MANT_BITS-wide mantissa. */
  function FullMant(f: Format, mant: nat): nat
  {
    Pow2(f.mantBits) + mant
  }

  /** `a_exp + b_exp - BIAS` with both exponents regular fits `mul_exp`'s
      EXP_BITS + 1 bits from above. */
  lemma RegularExpBelow(f: Format, ea: nat, eb: nat)
    requires f.Valid() && ea < f.MaxExp() && eb < f.MaxExp()
    ensures ea + eb - f.Bias() < Pow2(f.expBits + 1)
  {
    assert Pow2(f.expBits + 1) == 2 * Pow2(f.expBits);
  }

  /** The product of two extended mantissas fits `mul_mant`'s
      2 * MANT_BITS + 2 bits. */
  lemma FullProductFits(f: Format, x: nat, y: nat)
    requires x < Pow2(f.mantBits) && y < Pow2(f.mantBits)
    ensures FullMant(f, x) * FullMant(f, y) < Pow2(2 * f.mantBits + 2)
  {
    var q := Pow2(f.mantBits + 1);
    assert q == 2 * Pow2(f.mantBits);
    ProductBelow(FullMant(f, x), FullMant(f, y), q);
    Pow2Add(f.mantBits + 1, f.mantBits + 1);
    assert f.mantBits + 1 + (f.mantBits + 1) == 2 * f.mantBits + 2;
  }

  lemma ProductBelow(x: nat, y: nat, q: nat)
    requires x < q && y < q
    ensures x * y < q * q
  {
    MulLeftMonotone(x, y, q);
    MulRightMonotone(x, q - 1, q);
  }

  /** Lines 113-138: the values written to `mul_exp` and `mul_mant`. A zero
      (or denormal) exponent is tested before the all-ones one; None is
      the range error of a negative `mul_exp`. */
  function ProductFields(f: Format, a: Fields, b: Fields): (r: Option<(nat, nat)>)
    requires f.Valid() && a.exp < Pow2(f.expBits) && b.exp < Pow2(f.expBits)
    requires a.mant < Pow2(f.mantBits) && b.mant < Pow2(f.mantBits)
    ensures r.Some? ==> r.value.0 < Pow2(f.expBits + 1) && r.value.1 < Pow2(2 * f.mantBits + 2)
  {
    var max := f.MaxExp();
    assert Pow2(f.expBits + 1) == 2 * Pow2(f.expBits);
    if a.exp == 0 || b.exp == 0 then Some((0, 0))
    else if a.exp == max || b.exp == max then
      Some((max, if (a.exp == max && a.mant != 0) || (b.exp == max && b.mant != 0) then 1 else 0))
    else if a.exp + b.exp < f.Bias() then None
    else
      RegularExpBelow(f, a.exp, b.exp);
      FullProductFits(f, a.mant, b.mant);
      Some((a.exp + b.exp - f.Bias(), FullMant(f, a.mant) * FullMant(f, b.mant)))
  }

  /** Lines 140-148: normalising the pre-edge product. The slices drop the
      product's leading one. */
  function NormalizedProduct(f: Format, m: MulRegs): (r: (nat, nat))
    requires f.Valid()
    ensures r.1 < Pow2(f.mantBits + 2)
  {
    if Bit(m.mant, 2 * f.mantBits + 1) then
      (m.exp + 1, Slice(m.mant, 2 * f.mantBits + 1, f.mantBits - 1))
    else
      (m.exp, Slice(m.mant, 2 * f.mantBits, f.mantBits - 2))
  }

  /** The `multiply` stage. With `stage1_valid` low it writes nothing. */
  function MultiplyStage(f: Format, st: MacState): (r: Option<MulRegs>)
    requires f.Valid() && st.Valid(f)
    ensures r.Some? ==> r.value.exp < Pow2(f.expBits + 1) && r.value.mant < Pow2(2 * f.mantBits + 2)
    ensures r.Some? ==> r.value.normExp < Pow2(f.expBits + 1) && r.value.normMant < Pow2(f.mantBits + 3)
  {
    if !st.u.stage1Valid then Some(st.m)
    else
      var pf := ProductFields(f, st.u.a, st.u.b);
      var norm := NormalizedProduct(f, st.m);
      assert Pow2(f.mantBits + 3) == 2 * Pow2(f.mantBits + 2);
      if pf.None? || norm.0 >= Pow2(f.expBits + 1) then None
      else Some(MulRegs(st.u.a.sign != st.u.b.sign, pf.value.0, pf.value.1, norm.0, norm.1, true))
  }

  /** A signed add of two sign-magnitude values, in the branch order of
      lines 226-237: on a tie of magnitudes the first sign is kept. */
  function SignedAdd(s1: bool, x1: nat, s2: bool, x2: nat): (r: (bool, nat))
    ensures SignedValue(r.0, r.1) == SignedValue(s1, x1) + SignedValue(s2, x2)
    ensures r.1 <= x1 + x2
  {
    if s1 == s2 then (s1, x1 + x2)
    else if x1 >= x2 then (s1, x1 - x2)
    else (s2, x2 - x1)
  }

  /** `c_full_mant`: `concat(intbv(1), c_mant, intbv(0)[3:])`. */
  function CFullMant(f: Format, mant: nat): nat
  {
    FullMant(f, mant) * 8
  }

  /** The aligned operands of lines 210-278 for two normal addends: the
      one with the smaller exponent is shifted right by the difference,
      or dropped beyond MANT_BITS + 3. The product side is in the first
      place except when `c` has the larger exponent. */
  datatype Alignment = Alignment(exp: nat, firstSign: bool, first: nat, secondSign: bool, second: nat)

  function Align(f: Format, c: Fields, m: MulRegs): (al: Alignment)
    requires f.Valid() && c.mant < Pow2(f.mantBits) && m.normMant < Pow2(f.mantBits + 3)
    ensures al.first < Pow2(f.mantBits + 4) && al.second < Pow2(f.mantBits + 4)
    ensures al.exp == if m.normExp > c.exp then m.normExp else c.exp
  {
    assert Pow2(f.mantBits + 4) == 2 * Pow2(f.mantBits + 3);
    assert Pow2(f.mantBits + 3) == 2 * Pow2(f.mantBits + 2);
    assert Pow2(f.mantBits + 2) == 2 * Pow2(f.mantBits + 1);
    assert Pow2(f.mantBits + 1) == 2 * Pow2(f.mantBits);
    if m.normExp > c.exp then
      var diff := m.normExp - c.exp;
      var cFull := CFullMant(f, c.mant);
      ShrAtMost(cFull, 1);
      ShrMonotone(cFull, 1, diff);
      Alignment(m.normExp, m.sign, m.normMant, c.sign, if diff > f.mantBits + 3 then 0 else Shr(cFull, diff))
    else if c.exp > m.normExp then
      var diff := c.exp - m.normExp;
      ShrAtMost(m.normMant, diff);
      Alignment(c.exp, c.sign, c.mant, m.sign, if diff > f.mantBits + 3 then 0 else Shr(m.normMant, diff))
    else
      Alignment(c.exp, m.sign, m.normMant, c.sign, c.mant)
  }

  /** Shifting further right never gives more. */
  lemma ShrMonotone(x: nat, j: nat, k: nat)
    requires 1 <= j <= k
    ensures Shr(x, k) <= Shr(x, j)
    ensures Shr(x, j) * 2 <= x
  {
    Pow2Add(j, k - j);
    DivDiv(x, Pow2(j), Pow2(k - j));
    ShrAtMost(Shr(x, j), k - j);
    assert Pow2(j) == 2 * Pow2(j - 1);
    DivDiv(x, 2, Pow2(j - 1));
    ShrAtMost(x / 2, j - 1);
    DivMulAdd(x / 2, 2, x % 2);
  }

  /** Both addends special (lines 174-208): NaN first, then the
      infinities; when neither is an infinity nor a NaN the last branch
      still returns an infinity with the product's sign. */
  function SpecialSum(f: Format, c: Fields, m: MulRegs): (r: Fields)
    requires f.Valid()
    ensures r.exp == f.MaxExp() && r.mant <= 1
  {
    var max := f.MaxExp();
    if (c.exp == max && c.mant != 0) || (m.normExp >= max && Bit(m.normMant, f.mantBits)) then
      Fields(false, max, 1)
    else if c.exp == max && m.normExp >= max then
      if c.sign == m.sign then Fields(c.sign, max, 0) else Fields(false, max, 1)
    else if c.exp == max then Fields(c.sign, max, 0)
    else Fields(m.sign, max, 0)
  }

  predicate CSpecial(f: Format, c: Fields)
  {
    c.exp == 0 || c.exp == f.MaxExp()
  }

  predicate MulSpecial(f: Format, m: MulRegs)
  {
    m.normExp == 0 || m.normExp >= f.MaxExp()
  }

  /** Lines 157-278: what `add_sign`, `add_exp` and `add_mant` receive. */
  function AddFields(f: Format, c: Fields, m: MulRegs): (r: Fields)
    requires f.Valid() && c.exp < Pow2(f.expBits) && c.mant < Pow2(f.mantBits)
    requires m.normExp < Pow2(f.expBits + 1) && m.normMant < Pow2(f.mantBits + 3)
    ensures r.exp < Pow2(f.expBits + 2) && r.mant < Pow2(f.mantBits + 5)
  {
    assert Pow2(f.expBits + 2) == 2 * Pow2(f.expBits + 1);
    assert Pow2(f.expBits + 1) == 2 * Pow2(f.expBits);
    assert Pow2(f.mantBits + 5) == 2 * Pow2(f.mantBits + 4);
    assert Pow2(f.mantBits + 4) == 2 * Pow2(f.mantBits + 3);
    assert Pow2(f.mantBits + 3) == 2 * Pow2(f.mantBits + 2);
    assert Pow2(f.mantBits + 2) == 2 * Pow2(f.mantBits + 1);
    assert Pow2(f.mantBits + 1) == 2 * Pow2(f.mantBits);
    if CSpecial(f, c) && !MulSpecial(f, m) then c
    else if MulSpecial(f, m) && !CSpecial(f, c) then Fields(m.sign, m.normExp, m.normMant)
    else if MulSpecial(f, m) && CSpecial(f, c) then SpecialSum(f, c, m)
    else
      var al := Align(f, c, m);
      var s := SignedAdd(al.firstSign, al.first, al.secondSign, al.second);
      Fields(s.0, al.exp, s.1)
  }

  /** The leading-zeros count of lines 292-296: `temp_mant` doubles (it
      is not truncated) until its bit MANT_BITS + 2 is set or the count
      reaches `add_exp`. */
  function LeadingZeros(f: Format, temp: nat, count: nat, exp: nat): (lz: nat)
    requires count <= exp
    ensures count <= lz <= exp
    ensures lz < exp ==> Bit(temp * Pow2(lz - count), f.mantBits + 2)
    decreases exp - count
  {
    if !Bit(temp, f.mantBits + 2) && count < exp then
      var lz := LeadingZeros(f, temp * 2, count + 1, exp);
      Pow2ShiftOne(temp, lz - count);
      lz
    else count
  }

  lemma Pow2ShiftOne(t: nat, k: nat)
    requires k >= 1
    ensures t * 2 * Pow2(k - 1) == t * Pow2(k)
  {
  }

  lemma MulPow2Succ(x: nat, k: nat)
    ensures x * Pow2(k) * 2 == x * Pow2(k + 1)
  {
  }

  /** The loop itself. */
  method CountLeadingZeros(f: Format, addMant: nat, addExp: nat) returns (leadingZeros: nat, tempMant: nat)
    ensures leadingZeros == LeadingZeros(f, addMant, 0, addExp)
    ensures tempMant == addMant * Pow2(leadingZeros)
  {
    leadingZeros := 0;
    tempMant := addMant;
    while !Bit(tempMant, f.mantBits + 2) && leadingZeros < addExp
      invariant leadingZeros <= addExp
      invariant tempMant == addMant * Pow2(leadingZeros)
      invariant LeadingZeros(f, tempMant, leadingZeros, addExp) == LeadingZeros(f, addMant, 0, addExp)
      decreases addExp - leadingZeros
    {
      MulPow2Succ(addMant, leadingZeros);
      leadingZeros := leadingZeros + 1;
      tempMant := tempMant * 2;
    }
  }

  /** `concat(hi, lo)` with `lo` of width w. */
  function Concat(hi: nat, lo: nat, w: nat): nat
  {
    hi * Pow2(w) + lo
  }

  /** Lines 280-311, on the pre-edge `add_sign`, `add_exp` and `add_mant`:
      the new `result` and flags. None where Python raises: the overflow
      and renormalising branches pass the plain integers `add_exp + 1`
      and `add_exp - leading_zeros` to `concat`, which refuses them;
      the denormal branch shifts by `add_exp - 1`, negative when `add_exp`
      is 0; and `result` only takes `width`-bit values. */
  function NormalizeResult(f: Format, acc: AccRegs): (r: Option<AccRegs>)
    requires f.Valid()
    ensures r.Some? ==> r.value.result < Pow2(f.width) && r.value.overflow == acc.overflow
  {
    var sign := if acc.sign then 1 else 0;
    var M := f.mantBits;
    if Bit(acc.mant, M + 4) then None
    else if Bit(acc.mant, M + 3) then
      var v := Concat(Concat(sign, acc.exp, f.expBits + 2), Slice(acc.mant, M + 2, 2), M);
      if v >= Pow2(f.width) then None else Some(acc.(result := v))
    else
      var lz := LeadingZeros(f, acc.mant, 0, acc.exp);
      if lz < acc.exp || acc.exp == 0 then None
      else
        var shifted := Slice(acc.mant, M, 0) * Pow2(acc.exp - 1);
        var v := Concat(Concat(sign, 0, f.expBits), shifted, M + acc.exp - 1);
        if v >= Pow2(f.width) then None
        else Some(acc.(result := v, underflow := acc.underflow || acc.mant != 0))
  }

  /** A value below 2^(k+1) has bit k set exactly when it reaches 2^k. */
  lemma TopBit(x: nat, k: nat)
    requires x < Pow2(k + 1)
    ensures Bit(x, k) <==> x >= Pow2(k)
  {
    var p := Pow2(k);
    assert Pow2(k + 1) == 2 * p;
    if x >= p {
      DivMulAdd(1, p, x - p);
    } else {
      DivMulAdd(0, p, x);
    }
  }

  /** The leading-zeros loop on a mantissa below 2^(MANT_BITS+3) keeps it
      there, and when it stops before the count reaches `add_exp` the
      mantissa has its leading one at bit MANT_BITS + 2. */
  lemma {:induction false} LeadingOneForm(f: Format, temp: nat, count: nat, exp: nat)
    requires count <= exp && temp < Pow2(f.mantBits + 3)
    ensures var lz := LeadingZeros(f, temp, count, exp);
      && temp * Pow2(lz - count) < Pow2(f.mantBits + 3)
      && (lz < exp ==> Pow2(f.mantBits + 2) <= temp * Pow2(lz - count))
    decreases exp - count
  {
    var p := Pow2(f.mantBits + 2);
    assert Pow2(f.mantBits + 3) == 2 * p;
    TopBit(temp, f.mantBits + 2);
    if !Bit(temp, f.mantBits + 2) && count < exp {
      LeadingOneForm(f, temp * 2, count + 1, exp);
      Pow2ShiftOne(temp, LeadingZeros(f, temp, count, exp) - count);
    }
  }

  /** The fields the corrected normalisation writes, and whether it sets
      `overflow` and `underflow`. */
  datatype Normalised = Normalised(fields: Fields, setsOverflow: bool, setsUnderflow: bool)

  /** Lines 280-311 as evidently intended: the same branches and slices,
      with `add_exp + 1` and `add_exp - leading_zeros` taken as
      EXP_BITS-wide fields and the denormal shift guarded at 0. */
  function CorrectedFields(f: Format, acc: AccRegs): (n: Normalised)
    requires f.Valid()
    ensures n.fields.sign == acc.sign
  {
    var M := f.mantBits;
    if Bit(acc.mant, M + 4) then
      Normalised(Fields(acc.sign, acc.exp + 1, Slice(acc.mant, M + 3, 3)), acc.exp + 1 >= f.MaxExp(), false)
    else if Bit(acc.mant, M + 3) then
      Normalised(Fields(acc.sign, acc.exp, Slice(acc.mant, M + 2, 2)), false, false)
    else
      var lz := LeadingZeros(f, acc.mant, 0, acc.exp);
      if lz >= acc.exp then
        var shift := if acc.exp >= 1 then acc.exp - 1 else 0;
        Normalised(Fields(acc.sign, 0, Slice(acc.mant, M, 0) * Pow2(shift)), false, acc.mant != 0)
      else
        Normalised(Fields(acc.sign, acc.exp - lz, Slice(acc.mant * Pow2(lz), M + 2, 2)), false, false)
  }

  /** `concat(sign, exp, mant)` with an EXP_BITS-wide exponent and a
      MANT_BITS-wide mantissa: a `width`-bit word. */
  function Word(f: Format, x: Fields): (w: nat)
    requires f.Valid()
    ensures w < Pow2(f.width)
  {
    var e, m := x.exp % Pow2(f.expBits), x.mant % Pow2(f.mantBits);
    var s := if x.sign then 1 else 0;
    WordBound(s, e, m, f.expBits, f.mantBits);
    Concat(Concat(s, e, f.expBits), m, f.mantBits)
  }

  /** A sign bit, an `ew`-bit field and an `mw`-bit field fill
      1 + ew + mw bits. */
  lemma WordBound(s: nat, e: nat, m: nat, ew: nat, mw: nat)
    requires s <= 1 && e < Pow2(ew) && m < Pow2(mw)
    ensures Concat(Concat(s, e, ew), m, mw) < Pow2(1 + ew + mw)
  {
    var p, q, r := Pow2(ew), Pow2(mw), Pow2(ew + 1);
    assert r == 2 * p;
    var hi := Concat(s, e, ew);
    assert hi < r by {
      if s == 0 {
        assert hi == e;
      } else {
        assert hi == p + e;
      }
    }
    ConcatBound(hi, m, mw, r);
    Pow2Add(mw, ew + 1);
    assert mw + (ew + 1) == 1 + ew + mw;
  }

  lemma ConcatBound(hi: nat, lo: nat, w: nat, b: nat)
    requires hi < b && lo < Pow2(w)
    ensures Concat(hi, lo, w) < Pow2(w) * b
  {
    PackLanesStep(lo, hi, Pow2(w), b);
  }

  /** The corrected normalisation: it never raises. */
  function CorrectedNormalize(f: Format, acc: AccRegs): (r: AccRegs)
    requires f.Valid()
    ensures r.result < Pow2(f.width)
    ensures (r.sign, r.exp, r.mant) == (acc.sign, acc.exp, acc.mant)
  {
    var n := CorrectedFields(f, acc);
    acc.(result := Word(f, n.fields),
         overflow := acc.overflow || n.setsOverflow,
         underflow := acc.underflow || n.setsUnderflow)
  }

  /** Corrected, a carry out of the mantissa raises the exponent by one
      and sets `overflow` exactly when that exponent reaches the all-ones
      value; `underflow` is set only by a non-zero mantissa that needs
      renormalising. */
  lemma CorrectedFlags(f: Format, acc: AccRegs)
    requires f.Valid()
    ensures var n, M := CorrectedNormalize(f, acc), f.mantBits;
      && (n.overflow <==> acc.overflow || (Bit(acc.mant, M + 4) && acc.exp + 1 >= f.MaxExp()))
      && (Bit(acc.mant, M + 4) ==> CorrectedFields(f, acc).fields.exp == acc.exp + 1)
      && (n.underflow && !acc.underflow ==> acc.mant != 0 && !Bit(acc.mant, M + 4) && !Bit(acc.mant, M + 3))
  {
  }

  /** Corrected, a mantissa that needs renormalising is shifted until its
      leading one sits at bit MANT_BITS + 2, and the exponent is lowered
      by the shift. */
  lemma CorrectedLeadingOne(f: Format, acc: AccRegs)
    requires f.Valid() && acc.mant < Pow2(f.mantBits + 5)
    requires !Bit(acc.mant, f.mantBits + 4) && !Bit(acc.mant, f.mantBits + 3)
    requires LeadingZeros(f, acc.mant, 0, acc.exp) < acc.exp
    ensures var lz, M := LeadingZeros(f, acc.mant, 0, acc.exp), f.mantBits;
      && Pow2(M + 2) <= acc.mant * Pow2(lz) < Pow2(M + 3)
      && CorrectedFields(f, acc).fields == Fields(acc.sign, acc.exp - lz, Slice(acc.mant * Pow2(lz), M + 2, 2))
  {
    var M := f.mantBits;
    TopBit(acc.mant, M + 4);
    TopBit(acc.mant, M + 3);
    LeadingOneForm(f, acc.mant, 0, acc.exp);
  }

  /** The `accumulate` stage. With `stage2_valid` low it writes nothing.
      With `corrected` the normalisation is `CorrectedNormalize`. */
  function AccumulateStage(f: Format, st: MacState, corrected: bool): (r: Option<AccRegs>)
    requires f.Valid() && st.Valid(f)
    ensures r.Some? ==> r.value.exp < Pow2(f.expBits + 2) && r.value.mant < Pow2(f.mantBits + 5)
    ensures r.Some? ==> r.value.result < Pow2(f.width)
  {
    if !st.m.stage2Valid then Some(st.acc)
    else
      var add := AddFields(f, st.u.c, st.m);
      var n := if corrected then Some(CorrectedNormalize(f, st.acc)) else NormalizeResult(f, st.acc);
      if n.None? then None
      else Some(n.value.(sign := add.sign, exp := add.exp, mant := add.mant))
  }

  /** One rising edge of the three stages; `a`, `b` and `c` are the
      operand inputs. */
  function EdgeNext(f: Format, st: MacState, reset: bool, a: nat, b: nat, c: nat, corrected: bool): (r: Option<MacState>)
    requires f.Valid() && st.Valid(f)
    ensures r.Some? ==> r.value.Valid(f)
  {
    if reset then Some(Initial)
    else
      assert Pow2(f.mantBits) == 2 * Pow2(f.mantBits - 1);
      var u := UnpackRegs(Unpack(f, a), Unpack(f, b), Unpack(f, c), true);
      var m := MultiplyStage(f, st);
      var acc := AccumulateStage(f, st, corrected);
      if m.None? || acc.None? then None
      else Some(MacState(u, m.value, acc.value))
  }

  /** Corrected, an edge raises only in the `multiply` stage, and
      `overflow` is set on an edge exactly when a valid pre-edge sum
      carries out of its mantissa with `add_exp + 1` at the all-ones
      exponent or above. */
  lemma CorrectedEdge(f: Format, st: MacState, a: nat, b: nat, c: nat)
    requires f.Valid() && st.Valid(f)
    ensures EdgeNext(f, st, false, a, b, c, true).None? <==> MultiplyStage(f, st).None?
    ensures EdgeNext(f, st, false, a, b, c, true).Some? ==>
      (EdgeNext(f, st, false, a, b, c, true).value.acc.overflow <==>
        st.acc.overflow || (st.m.stage2Valid && Bit(st.acc.mant, f.mantBits + 4) && st.acc.exp + 1 >= f.MaxExp()))
  {
    CorrectedFlags(f, st.acc);
  }

  /** A non-reset edge is the three stages side by side, each on the
      pre-edge registers. */
  lemma EdgeIsStages(f: Format, st: MacState, a: nat, b: nat, c: nat, corrected: bool)
    requires f.Valid() && st.Valid(f)
    ensures EdgeNext(f, st, false, a, b, c, corrected).Some? <==>
      MultiplyStage(f, st).Some? && AccumulateStage(f, st, corrected).Some?
    ensures EdgeNext(f, st, false, a, b, c, corrected).Some? ==>
      EdgeNext(f, st, false, a, b, c, corrected).value ==
        MacState(UnpackRegs(Unpack(f, a), Unpack(f, b), Unpack(f, c), true),
                 MultiplyStage(f, st).value, AccumulateStage(f, st, corrected).value)
  {
  }

  /** `unpack` sets `stage1_valid` on every edge; `multiply` sets
      `stage2_valid` once it has seen `stage1_valid`, and only reset
      clears them. */
  lemma ValidFlags(f: Format, st: MacState, reset: bool, a: nat, b: nat, c: nat, corrected: bool)
    requires f.Valid() && st.Valid(f) && EdgeNext(f, st, reset, a, b, c, corrected).Some?
    ensures var n := EdgeNext(f, st, reset, a, b, c, corrected).value;
      && (n.u.stage1Valid <==> !reset)
      && (n.m.stage2Valid <==> !reset && (st.m.stage2Valid || st.u.stage1Valid))
  {
  }

  /** The `multiply` stage on a valid pre-edge unpack. */
  lemma ProductCases(f: Format, st: MacState)
    requires f.Valid() && st.Valid(f) && st.u.stage1Valid
    requires MultiplyStage(f, st).Some?
    ensures var n, x, y := MultiplyStage(f, st).value, st.u.a, st.u.b;
      && (n.sign <==> x.sign != y.sign)
      // a zero exponent wins over an all-ones one: 0 x inf gives 0
      && (x.exp == 0 || y.exp == 0 ==> n.exp == 0 && n.mant == 0)
      && (x.exp != 0 && y.exp != 0 && (x.exp == f.MaxExp() || y.exp == f.MaxExp()) ==>
            && n.exp == f.MaxExp()
            && (n.mant == 1 <==> (x.exp == f.MaxExp() && x.mant != 0) || (y.exp == f.MaxExp() && y.mant != 0))
            && n.mant <= 1)
      && (x.exp != 0 && y.exp != 0 && x.exp != f.MaxExp() && y.exp != f.MaxExp() ==>
            && n.exp == x.exp + y.exp - f.Bias()
            && n.mant == (Pow2(f.mantBits) + x.mant) * (Pow2(f.mantBits) + y.mant))
  {
  }

  /** The only error of the `multiply` stage besides a carry out of
      `norm_mul_exp`: two regular exponents summing below the bias. */
  lemma ProductRaises(f: Format, st: MacState)
    requires f.Valid() && st.Valid(f) && st.u.stage1Valid
    requires NormalizedProduct(f, st.m).0 < Pow2(f.expBits + 1)
    ensures var x, y := st.u.a, st.u.b;
      MultiplyStage(f, st).None? <==>
        x.exp != 0 && y.exp != 0 && x.exp != f.MaxExp() && y.exp != f.MaxExp() && x.exp + y.exp < f.Bias()
  {
  }

  /** Lines 174-208: two special addends. */
  lemma SpecialAddends(f: Format, c: Fields, m: MulRegs)
    requires f.Valid() && c.exp < Pow2(f.expBits) && c.mant < Pow2(f.mantBits)
    requires m.normExp < Pow2(f.expBits + 1) && m.normMant < Pow2(f.mantBits + 3)
    requires CSpecial(f, c) && MulSpecial(f, m)
    ensures var r, max := AddFields(f, c, m), f.MaxExp();
      var cNan, mNan := c.exp == max && c.mant != 0, m.normExp >= max && Bit(m.normMant, f.mantBits);
      && (cNan || mNan ==> r == Fields(false, max, 1))
      && (!cNan && !mNan && c.exp == max && m.normExp >= max && c.sign != m.sign ==> r == Fields(false, max, 1))
      && (!cNan && !mNan && c.exp == max && m.normExp >= max && c.sign == m.sign ==> r == Fields(c.sign, max, 0))
      && (!cNan && c.exp == max && m.normExp < max ==> r == Fields(c.sign, max, 0))
  {
  }

  /** As written, a zero addend plus a zero product is an infinity with
      the product's sign. */
  lemma ZeroPlusZeroIsInfinite(f: Format, c: Fields, m: MulRegs)
    requires f.Valid() && c.exp < Pow2(f.expBits) && c.mant < Pow2(f.mantBits)
    requires m.normExp < Pow2(f.expBits + 1) && m.normMant < Pow2(f.mantBits + 3)
    requires c.exp == 0 && m.normExp == 0
    ensures AddFields(f, c, m) == Fields(m.sign, f.MaxExp(), 0)
  {
    assert Pow2(f.expBits) >= 4 by {
      assert Pow2(f.expBits) == 2 * Pow2(f.expBits - 1);
      assert Pow2(f.expBits - 1) >= 2;
    }
  }

  /** A special addend beside a regular one passes through unchanged. */
  lemma OneSpecialAddend(f: Format, c: Fields, m: MulRegs)
    requires f.Valid() && c.exp < Pow2(f.expBits) && c.mant < Pow2(f.mantBits)
    requires m.normExp < Pow2(f.expBits + 1) && m.normMant < Pow2(f.mantBits + 3)
    ensures CSpecial(f, c) && !MulSpecial(f, m) ==> AddFields(f, c, m) == c
    ensures MulSpecial(f, m) && !CSpecial(f, c) ==> AddFields(f, c, m) == Fields(m.sign, m.normExp, m.normMant)
  {
  }

  /** Two regular addends: the result is the signed sum of the aligned
      mantissas at the larger exponent. */
  lemma RegularAddends(f: Format, c: Fields, m: MulRegs)
    requires f.Valid() && c.exp < Pow2(f.expBits) && c.mant < Pow2(f.mantBits)
    requires m.normExp < Pow2(f.expBits + 1) && m.normMant < Pow2(f.mantBits + 3)
    requires !CSpecial(f, c) && !MulSpecial(f, m)
    ensures var r, al := AddFields(f, c, m), Align(f, c, m);
      && r.exp == (if m.normExp > c.exp then m.normExp else c.exp)
      && SignedValue(r.sign, r.mant) == SignedValue(al.firstSign, al.first) + SignedValue(al.secondSign, al.second)
      && (al.firstSign, al.secondSign) == (if c.exp > m.normExp then (c.sign, m.sign) else (m.sign, c.sign))
  {
  }

  /** The `overflow` flag never changes: the statement that would set it
      comes after a `concat` that raises. */
  lemma OverflowNeverSet(f: Format, st: MacState, reset: bool, a: nat, b: nat, c: nat)
    requires f.Valid() && st.Valid(f) && !reset && EdgeNext(f, st, reset, a, b, c, false).Some?
    ensures EdgeNext(f, st, reset, a, b, c, false).value.acc.overflow == st.acc.overflow
  {
  }

  /** `underflow` is raised only by the denormal branch, and only for a
      non-zero pre-edge `add_mant`. */
  lemma UnderflowOnlyForDenormal(f: Format, st: MacState)
    requires f.Valid() && st.Valid(f) && AccumulateStage(f, st, false).Some?
    ensures var n := AccumulateStage(f, st, false).value;
      n.underflow && !st.acc.underflow ==>
        && st.m.stage2Valid && st.acc.mant != 0
        && !Bit(st.acc.mant, f.mantBits + 4) && !Bit(st.acc.mant, f.mantBits + 3)
        && LeadingZeros(f, st.acc.mant, 0, st.acc.exp) == st.acc.exp
  {
  }

  /** From reset, whatever the inputs, the pipeline cannot complete a
      third edge: the first edge with `stage2_valid` normalises the reset
      value of `add_mant` and `add_exp`, 0 and 0, and shifts by -1. */
  lemma NoThirdEdge(f: Format, a1: nat, b1: nat, c1: nat, a2: nat, b2: nat, c2: nat, a3: nat, b3: nat, c3: nat)
    requires f.Valid()
    ensures EdgeNext(f, Initial, false, a1, b1, c1, false).Some?
    ensures var s1 := EdgeNext(f, Initial, false, a1, b1, c1, false).value;
      var s2 := EdgeNext(f, s1, false, a2, b2, c2, false);
      s2.None? || EdgeNext(f, s2.value, false, a3, b3, c3, false).None?
  {
    var s1 := EdgeNext(f, Initial, false, a1, b1, c1, false).value;
    assert s1.m == Initial.m && s1.acc == Initial.acc;
    var s2 := EdgeNext(f, s1, false, a2, b2, c2, false);
    if s2.Some? {
      assert s2.value.acc == Initial.acc && s2.value.m.stage2Valid;
      assert !Bit(0, f.mantBits + 4) && !Bit(0, f.mantBits + 3);
      assert NormalizeResult(f, Initial.acc).None?;
    }
  }

  /** The pipeline as a clocked block. */
  class Mac {
    const f: Format
    var st: MacState

    ghost predicate Valid()
      reads this
    {
      f.Valid() && st.Valid(f)
    }

    /** A unit of the widths `FormatFor` gives. */
    constructor (fmt: Format)
      requires fmt.Valid()
      ensures Valid() && f == fmt && st == Initial
    {
      f := fmt;
      st := Initial;
    }

    function Result(): nat
      reads this
    {
      st.acc.result
    }

    /** One rising edge; `ok` is false where MyHDL raises, and then the
        registers are left as they were. */
    method Tick(reset: bool, a: nat, b: nat, c: nat) returns (ok: bool)
      requires Valid()
      modifies this
      ensures Valid()
      ensures ok <==> EdgeNext(f, old(st), reset, a, b, c, false).Some?
      ensures st == if ok then EdgeNext(f, old(st), reset, a, b, c, false).value else old(st)
    {
      var next := EdgeNext(f, st, reset, a, b, c, false);
      ok := next.Some?;
      if ok {
        st := next.value;
      }
    }
  }
}
