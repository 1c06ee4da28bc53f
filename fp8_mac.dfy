/** `fp8_mac` (src/hdl/components/fp8_mac.py): a draft E4M3
    multiply-accumulate unit. `decompose_acc_product` and `align_operands`
    are combinational functions of the accumulator `acc` and of `product`;
    `accumulate` is one rising edge; `output_logic` drives `result` from
    `acc`. The multiplier that drives `product` is not part of this model:
    `product` is a free input of every edge, holding the value it had
    settled to before the edge. The widths come from the E4M3 constants
    (8 bits, 4 exponent bits, 3 mantissa bits). */
module Fp8Mac {
  import opened Bits
  import opened FpDefs
  import opened Wrappers

  /** The NaN pattern the accumulator stores: sign 1, exponent 15, mantissa 1. */
  const MAC_NAN: Byte := 0xF9

  /** The +0 the zero-sum and complete-underflow branches store. */
  const CLEARED: Byte := 0x00

  /** The exponent difference above which the smaller operand is dropped. */
  const ALIGN_LIMIT: nat := 2 * MAN_BITS + EXP_BITS

  predicate IsNan(x: Byte)
  {
    ExpOf(x) == 15 && ManOf(x) != 0
  }

  /** The signals `decompose_acc_product` drives for one of its operands. */
  datatype Operand = Operand(sign: bool, exp: nat, man: nat, manExt: nat, isZero: bool, isNan: bool)

  /** `decompose_acc_product` for `acc` or `product`. As written the sign is
      `x[7:] == 1`, a comparison of bits 6..0 with 1; with `corrected` it
      is bit 7. The extended mantissa carries the implicit one at bit 3
      unless the exponent is 0. */
  function Decompose(x: Byte, corrected: bool): (d: Operand)
    ensures d.exp == ExpOf(x) && d.man == ManOf(x)
    ensures d.sign <==> if corrected then SignOf(x) == 1 else x % 128 == 1
    ensures d.isZero <==> x == 0x00 || x == 0x80
    ensures d.isNan <==> IsNan(x)
    ensures d.manExt < 16 && d.manExt % 8 == ManOf(x) && (d.manExt >= 8 <==> ExpOf(x) != 0)
  {
    SpecialPatterns(x);
    SmallPowers();
    var exp, man := ExpOf(x), ManOf(x);
    Operand(
      if corrected then SignOf(x) == 1 else Slice(x, WIDTH - 1, 0) == 1,
      exp, man, if exp == 0 then man else 8 + man,
      exp == 0 && man == 0, exp == 15 && man != 0)
  }

  /** `aligned_acc` and `aligned_prod`. */
  datatype Aligned = Aligned(acc: nat, prod: nat)

  /** `align_operands`: the operand with the larger exponent (the product
      on a tie) is scaled by 8 and the other is shifted down by the
      exponent difference, or dropped beyond `ALIGN_LIMIT`; a zero operand
      contributes 0. */
  function AlignOperands(a: Operand, p: Operand): (al: Aligned)
    requires a.manExt < 16 && p.manExt < 16
    ensures al.acc <= 120 && al.prod <= 120 && al.acc + al.prod <= 135
    ensures a.isZero ==> al.acc == 0 && al.prod == 8 * p.manExt
    ensures !a.isZero && p.isZero ==> al.acc == 8 * a.manExt && al.prod == 0
    ensures !a.isZero && !p.isZero && a.exp > p.exp ==> al.acc == 8 * a.manExt && al.prod <= p.manExt
    ensures !a.isZero && !p.isZero && a.exp <= p.exp ==> al.prod == 8 * p.manExt && al.acc <= a.manExt
  {
    if a.isZero then Aligned(0, p.manExt * 8)
    else if p.isZero then Aligned(a.manExt * 8, 0)
    else if a.exp > p.exp then
      var expDiff := a.exp - p.exp;
      ShrAtMost(p.manExt, expDiff);
      if expDiff > ALIGN_LIMIT then Aligned(a.manExt * 8, 0)
      else Aligned(a.manExt * 8, Shr(p.manExt, expDiff))
    else
      var expDiff := p.exp - a.exp;
      ShrAtMost(a.manExt, expDiff);
      if expDiff > ALIGN_LIMIT then Aligned(0, p.manExt * 8)
      else Aligned(Shr(a.manExt, expDiff), p.manExt * 8)
  }

  /** The values lines 139-150 write to `sum_val` and `final_sign`: the
      signed sum of the aligned operands, as sign and magnitude. */
  function SignedSum(a: Operand, p: Operand, al: Aligned): (s: (bool, nat))
    ensures SignedValue(s.0, s.1) == SignedValue(a.sign, al.acc) + SignedValue(p.sign, al.prod)
    ensures s.1 <= al.acc + al.prod
  {
    if a.sign == p.sign then (a.sign, al.acc + al.prod)
    else if al.acc >= al.prod then (a.sign, al.acc - al.prod)
    else (p.sign, al.prod - al.acc)
  }

  /** The countdown of lines 157-161 from bit `pos`: it stops at a set bit
      or at bit 0. */
  function LeadingBit(s: nat, pos: nat): (q: nat)
    ensures q <= pos
    ensures q > 0 ==> Bit(s, q)
    ensures forall k: nat | q < k <= pos :: !Bit(s, k)
  {
    if pos > 0 && !Bit(s, pos) then LeadingBit(s, pos - 1) else pos
  }

  /** `leading_bit_pos` after the search: it starts at bit 6 and is left
      there when the sum is 0. */
  function LeadingBitPos(sum: nat): (q: nat)
    ensures q <= 2 * MAN_BITS
  {
    if sum != 0 then LeadingBit(sum, 2 * MAN_BITS) else 2 * MAN_BITS
  }

  /** The search loop itself. */
  method FindLeadingBit(tmpSum: nat) returns (leadingBitPos: nat)
    ensures leadingBitPos == LeadingBitPos(tmpSum)
  {
    leadingBitPos := 2 * MAN_BITS;
    if tmpSum != 0 {
      while !Bit(tmpSum, leadingBitPos) && leadingBitPos > 0
        invariant leadingBitPos <= 2 * MAN_BITS
        invariant LeadingBit(tmpSum, leadingBitPos) == LeadingBit(tmpSum, 2 * MAN_BITS)
      {
        leadingBitPos := leadingBitPos - 1;
      }
    }
  }

  /** Below 128 the search finds the leading one: the sum lies in
      [2^q, 2^(q+1)). */
  lemma LeadingBitBounds(sum: nat)
    requires 0 < sum < 128
    ensures Pow2(LeadingBitPos(sum)) <= sum < Pow2(LeadingBitPos(sum) + 1)
  {
    SmallPowers();
    assert Pow2(7) == 128;
    var q := LeadingBitPos(sum);
    LeadingBitBelow(sum, 2 * MAN_BITS);
    if q > 0 {
      if sum < Pow2(q) {
        BitAboveClear(sum, q);
      }
    }
  }

  lemma {:induction false} LeadingBitBelow(s: nat, pos: nat)
    requires s < Pow2(pos + 1)
    ensures s < Pow2(LeadingBit(s, pos) + 1)
    decreases pos
  {
    if pos > 0 && !Bit(s, pos) {
      BitClearBelow(s, pos);
      LeadingBitBelow(s, pos - 1);
    }
  }

  /** Below 2^(k+1), a clear bit k means the value is below 2^k. */
  lemma BitClearBelow(s: nat, k: nat)
    requires s < Pow2(k + 1) && !Bit(s, k)
    ensures s < Pow2(k)
  {
    var p := Pow2(k);
    assert Pow2(k + 1) == 2 * p;
    QuotientBelowTwo(s, p);
  }

  lemma QuotientBelowTwo(s: nat, p: nat)
    requires 1 <= p && s < 2 * p
    ensures s / p < 2
  {
    if s >= p {
      DivMulAdd(1, p, s - p);
    } else {
      DivMulAdd(0, p, s);
    }
  }

  /** The registers `accumulate` writes. `sum_val` is 12 bits wide,
      `final_exp` 4 and `final_man` 3. */
  datatype MacState = MacState(
    acc: Byte, overflow: bool, sumVal: nat,
    finalSign: bool, finalExp: nat, finalMan: nat)
  {
    /** The declared ranges, and `final_exp` is only ever written with an
        exponent in 1..14. */
    predicate Valid()
    {
      sumVal < 4096 && finalExp <= 14 && finalMan <= 7
    }
  }

  /** Every register at its initial value, which is also what the reset
      of `always_seq` restores. */
  const Initial: MacState := MacState(0, false, 0, false, 0, 0)

  /** `x << k` for a non-negative count. */
  function ShiftLeft(x: nat, k: nat): nat
  {
    x * Pow2(k)
  }

  /** `common_exp`: the larger of the two exponents. */
  function CommonExp(a: Operand, p: Operand): nat
  {
    if a.exp > p.exp then a.exp else p.exp
  }

  /** `adjusted_exp`: the common exponent less `leading_bit_pos - 3`. */
  function AdjustedExp(sum: nat, commonExp: nat): int
  {
    commonExp - (LeadingBitPos(sum) - MAN_BITS)
  }

  /** Lines 152-207: the normalisation. It reads the pre-edge `sum_val`,
      `final_sign`, `final_exp` and `final_man`, since `sum_val` and
      `final_sign` were only given their next values by lines 139-150;
      `common_exp` is the larger of the two current exponents. The result
      is None where `sum_val << exp_adj` is given a negative count, which
      Python refuses. */
  function Normalize(st: MacState, commonExp: nat): (r: Option<MacState>)
    requires st.Valid() && commonExp <= 15
    ensures r.Some? ==> r.value.Valid()
    ensures r.Some? ==> r.value.sumVal == st.sumVal && r.value.finalSign == st.finalSign
  {
    var sign := if st.finalSign then 1 else 0;
    var expAdj := LeadingBitPos(st.sumVal) - MAN_BITS;
    var adjustedExp := AdjustedExp(st.sumVal, commonExp);
    if st.sumVal == 0 then Some(st.(acc := CLEARED, overflow := false))
    else if adjustedExp >= 15 then Some(st.(acc := Pack(sign, 14, 7), overflow := true))
    else if adjustedExp <= 0 then
      var shift: nat := 1 - adjustedExp;
      if shift > 2 * MAN_BITS then Some(st.(acc := CLEARED, overflow := false))
      else
        var denormMan := Shr(st.sumVal, shift);
        Some(st.(acc := Pack(sign, 0, if denormMan < 8 then denormMan else 7), overflow := false))
    else if expAdj < 0 then None
    else
      var normalizedMan := Shr(ShiftLeft(st.sumVal, expAdj), MAN_BITS);
      Some(st.(
        acc := Pack(sign, st.finalExp, st.finalMan), overflow := false,
        finalMan := normalizedMan % 8, finalExp := adjustedExp))
  }

  /** The last branch of `accumulate`: both operands are non-zero numbers. */
  function ArithmeticNext(st: MacState, a: Operand, p: Operand): (r: Option<MacState>)
    requires st.Valid() && a.manExt < 16 && p.manExt < 16 && a.exp <= 15 && p.exp <= 15
    ensures r.Some? ==> r.value.Valid()
  {
    var al := AlignOperands(a, p);
    var s := SignedSum(a, p, al);
    var n := Normalize(st, CommonExp(a, p));
    if n.None? then None else Some(n.value.(sumVal := s.1, finalSign := s.0))
  }

  /** One rising edge of `accumulate`. A reset restores every register it
      drives; with `enable` low nothing changes. */
  function AccumulateNext(st: MacState, reset: bool, enable: bool, product: Byte, corrected: bool): (r: Option<MacState>)
    requires st.Valid()
    ensures r.Some? ==> r.value.Valid()
  {
    var a, p := Decompose(st.acc, corrected), Decompose(product, corrected);
    if reset then Some(Initial)
    else if !enable then Some(st)
    else if a.isNan || p.isNan then Some(st.(acc := MAC_NAN, overflow := false))
    else if a.isZero then Some(st.(acc := product, overflow := false))
    else if p.isZero then Some(st.(overflow := false))
    else ArithmeticNext(st, a, p)
  }

  /** The control branches of `accumulate`, in their order of precedence. */
  lemma ControlBranches(st: MacState, reset: bool, enable: bool, product: Byte, corrected: bool)
    requires st.Valid()
    ensures reset ==> AccumulateNext(st, reset, enable, product, corrected) == Some(Initial)
    ensures !reset && !enable ==> AccumulateNext(st, reset, enable, product, corrected) == Some(st)
    ensures !reset && enable && (IsNan(st.acc) || IsNan(product)) ==>
      AccumulateNext(st, reset, enable, product, corrected) == Some(st.(acc := 0xF9, overflow := false))
    ensures !reset && enable && !IsNan(st.acc) && !IsNan(product) && (st.acc == 0x00 || st.acc == 0x80) ==>
      AccumulateNext(st, reset, enable, product, corrected) == Some(st.(acc := product, overflow := false))
    ensures !reset && enable && !IsNan(st.acc) && !IsNan(product) && st.acc != 0x00 && st.acc != 0x80
      && (product == 0x00 || product == 0x80)
      ==> AccumulateNext(st, reset, enable, product, corrected) == Some(st.(overflow := false))
  {
  }

  /** The 0xF9 the NaN branch stores is a NaN: exponent 15, mantissa 1,
      sign 1. */
  lemma NanPattern()
    ensures MAC_NAN == Pack(1, 15, 1) && IsNan(MAC_NAN)
  {
    PackFields(1, 15, 1);
  }

  /** Both operands are non-zero numbers, so the last branch is taken. */
  predicate Arithmetic(st: MacState, reset: bool, enable: bool, product: Byte)
  {
    && !reset && enable && !IsNan(st.acc) && !IsNan(product)
    && st.acc != 0x00 && st.acc != 0x80 && product != 0x00 && product != 0x80
  }

  lemma ArithmeticBranch(st: MacState, reset: bool, enable: bool, product: Byte, corrected: bool)
    requires st.Valid() && Arithmetic(st, reset, enable, product)
    ensures AccumulateNext(st, reset, enable, product, corrected)
      == ArithmeticNext(st, Decompose(st.acc, corrected), Decompose(product, corrected))
  {
  }

  /** `overflow` is raised only by the clamp, which stores sign|0x77 (the
      largest finite magnitude, with the pre-edge `final_sign`), and the
      clamp always raises it. */
  lemma OverflowOnlyWhenClamped(st: MacState, reset: bool, enable: bool, product: Byte, corrected: bool)
    requires st.Valid()
    requires AccumulateNext(st, reset, enable, product, corrected).Some?
    ensures var n := AccumulateNext(st, reset, enable, product, corrected).value;
      n.overflow && (reset || enable) ==>
        && Arithmetic(st, reset, enable, product)
        && ExpOf(n.acc) == 14 && ManOf(n.acc) == 7 && (SignOf(n.acc) == 1 <==> st.finalSign)
    ensures var n := AccumulateNext(st, reset, enable, product, corrected).value;
      var a, p := Decompose(st.acc, corrected), Decompose(product, corrected);
      (Arithmetic(st, reset, enable, product) && st.sumVal != 0
        && AdjustedExp(st.sumVal, CommonExp(a, p)) >= 15) ==> n.overflow
  {
    var sign := if st.finalSign then 1 else 0;
    PackFields(sign, 14, 7);
  }

  /** A zero pre-edge sum stores +0 and clears `overflow`. */
  lemma ZeroSumClears(st: MacState, reset: bool, enable: bool, product: Byte, corrected: bool)
    requires st.Valid() && Arithmetic(st, reset, enable, product) && st.sumVal == 0
    ensures AccumulateNext(st, reset, enable, product, corrected).Some?
    ensures var n := AccumulateNext(st, reset, enable, product, corrected).value;
      n.acc == 0 && !n.overflow
  {
  }

  /** The arithmetic branch never stores an infinity or a NaN: the clamp
      uses exponent 14, denormals exponent 0, and the normal branch the
      pre-edge `final_exp`, which is never written above 14. */
  lemma ArithmeticStaysFinite(st: MacState, reset: bool, enable: bool, product: Byte, corrected: bool)
    requires st.Valid() && Arithmetic(st, reset, enable, product)
    requires AccumulateNext(st, reset, enable, product, corrected).Some?
    ensures ExpOf(AccumulateNext(st, reset, enable, product, corrected).value.acc) <= 14
  {
    var a, p := Decompose(st.acc, corrected), Decompose(product, corrected);
    NormalizeFinite(st, CommonExp(a, p));
  }

  lemma NormalizeFinite(st: MacState, commonExp: nat)
    requires st.Valid() && commonExp <= 15 && Normalize(st, commonExp).Some?
    ensures ExpOf(Normalize(st, commonExp).value.acc) <= 14
  {
    var sign := if st.finalSign then 1 else 0;
    var adjustedExp := AdjustedExp(st.sumVal, commonExp);
    if st.sumVal == 0 {
    } else if adjustedExp >= 15 {
      PackFields(sign, 14, 7);
    } else if adjustedExp <= 0 {
      var shift: nat := 1 - adjustedExp;
      if shift <= 2 * MAN_BITS {
        var denormMan := Shr(st.sumVal, shift);
        PackFields(sign, 0, if denormMan < 8 then denormMan else 7);
      }
    } else {
      PackFields(sign, st.finalExp, st.finalMan);
    }
  }

  /** The arithmetic branch writes the signed sum of the aligned operands
      to `sum_val` and `final_sign`, where each operand's sign is the one
      the decomposition reads. */
  lemma SumRegisters(st: MacState, reset: bool, enable: bool, product: Byte, corrected: bool)
    requires st.Valid() && Arithmetic(st, reset, enable, product)
    requires AccumulateNext(st, reset, enable, product, corrected).Some?
    ensures var n := AccumulateNext(st, reset, enable, product, corrected).value;
      var a, p := Decompose(st.acc, corrected), Decompose(product, corrected);
      var al := AlignOperands(a, p);
      SignedValue(n.finalSign, n.sumVal) == SignedValue(a.sign, al.acc) + SignedValue(p.sign, al.prod)
  {
  }

  /** The only error: a non-zero pre-edge sum whose leading bit (searched
      from bit 6) lies below bit 3 while its exponent stays in 1..14 is
      shifted by a negative count. */
  lemma RaisesOnlyOnNegativeShift(st: MacState, reset: bool, enable: bool, product: Byte, corrected: bool)
    requires st.Valid()
    ensures AccumulateNext(st, reset, enable, product, corrected).None? <==>
      && Arithmetic(st, reset, enable, product)
      && st.sumVal != 0 && LeadingBitPos(st.sumVal) < MAN_BITS
      && var a, p := Decompose(st.acc, corrected), Decompose(product, corrected);
         0 < AdjustedExp(st.sumVal, CommonExp(a, p)) < 15
  {
  }

  /** Below 128, the search stops below bit 3 exactly for the sums below 8. */
  lemma SmallSumShiftsNegative(sum: nat)
    requires 0 < sum < 128
    ensures LeadingBitPos(sum) < MAN_BITS <==> sum < 8
  {
    LeadingBitBounds(sum);
    var q := LeadingBitPos(sum);
    SmallPowers();
    if q >= 3 {
      Pow2Monotone(3, q);
    } else {
      Pow2Monotone(q + 1, 3);
    }
  }

  /** `adjusted_exp` is at least 0 - (6 - 3), so the underflow shift is at
      most 4 and the complete-underflow branch (shift above 6) is never
      taken. */
  lemma UnderflowShiftAtMostFour(sum: nat, commonExp: nat)
    ensures AdjustedExp(sum, commonExp) >= -3
    ensures AdjustedExp(sum, commonExp) <= 0 ==> 1 - AdjustedExp(sum, commonExp) <= 4
  {
  }

  /** As written, the sign of -1.0 (0xB8) reads as positive and the sign
      of the smallest positive denormal (0x01) as negative. */
  lemma SignFromLowBits()
    ensures SignOf(0xB8) == 1 && !Decompose(0xB8, false).sign
    ensures SignOf(0x01) == 0 && Decompose(0x01, false).sign
  {
  }

  /** With acc = 1.0 and product = -1.0, the code as written adds the two
      aligned mantissas (8 + 64) where opposite signs call for their
      difference. */
  lemma OppositeSignsAdded()
    ensures Arithmetic(Initial.(acc := 0x38), false, true, 0xB8)
    ensures AccumulateNext(Initial.(acc := 0x38), false, true, 0xB8, false).Some?
    ensures var n := AccumulateNext(Initial.(acc := 0x38), false, true, 0xB8, false).value;
      n.sumVal == 72 && !n.finalSign
    ensures var n := AccumulateNext(Initial.(acc := 0x38), false, true, 0xB8, true).value;
      n.sumVal == 56 && n.finalSign
  {
    SmallPowers();
    assert Decompose(0x38, false).manExt == 8 && Decompose(0xB8, false).manExt == 8;
    assert ExpOf(0x38) == 7 && ExpOf(0xB8) == 7;
  }

  /** With the corrected decomposition, `sum_val` and `final_sign` hold the
      signed sum of the aligned operands under their bit-7 signs: opposite
      signs subtract. */
  lemma CorrectedSignedSum(st: MacState, reset: bool, enable: bool, product: Byte)
    requires st.Valid() && Arithmetic(st, reset, enable, product)
    requires AccumulateNext(st, reset, enable, product, true).Some?
    ensures var n := AccumulateNext(st, reset, enable, product, true).value;
      var al := AlignOperands(Decompose(st.acc, true), Decompose(product, true));
      SignedValue(n.finalSign, n.sumVal) == SignedValue(SignOf(st.acc) == 1, al.acc) + SignedValue(SignOf(product) == 1, al.prod)
  {
    SumRegisters(st, reset, enable, product, true);
  }

  /** `reset` and `enable` held, `product` held: the accumulator after n edges. */
  function HeldEdges(st: MacState, product: Byte, n: nat): (r: Option<MacState>)
    requires st.Valid()
    ensures r.Some? ==> r.value.Valid()
    decreases n
  {
    if n == 0 then Some(st)
    else
      var next := AccumulateNext(st, false, true, product, false);
      if next.None? then None else HeldEdges(next.value, product, n - 1)
  }

  /** Because the normalisation reads the previous edge's sum, 1.0
      accumulated onto 1.0 from reset alternates: the first edge loads
      1.0, the second stores 0 (the stale sum is 0), the third loads 1.0
      again. */
  lemma OnePlusOneFromReset()
    ensures HeldEdges(Initial, 0x38, 1) == Some(Initial.(acc := 0x38))
    ensures HeldEdges(Initial, 0x38, 2).Some? && HeldEdges(Initial, 0x38, 2).value.acc == 0
    ensures HeldEdges(Initial, 0x38, 3).Some? && HeldEdges(Initial, 0x38, 3).value.acc == 0x38
  {
    SmallPowers();
    var s1 := Initial.(acc := 0x38);
    assert AccumulateNext(Initial, false, true, 0x38, false) == Some(s1);
    assert ExpOf(0x38) == 7 && ManOf(0x38) == 0;
    var s2 := MacState(0, false, 72, false, 0, 0);
    assert AccumulateNext(s1, false, true, 0x38, false) == Some(s2);
    var s3 := s2.(acc := 0x38);
    assert AccumulateNext(s2, false, true, 0x38, false) == Some(s3);
    assert HeldEdges(s3, 0x38, 0) == Some(s3);
    assert HeldEdges(s2, 0x38, 1) == Some(s3);
    assert HeldEdges(s1, 0x38, 1) == Some(s2);
  }

  /** The accumulator as a clocked block; `result` mirrors `acc`. */
  class Accumulator {
    var st: MacState

    ghost predicate Valid()
      reads this
    {
      st.Valid()
    }

    constructor ()
      ensures Valid() && st == Initial
    {
      st := Initial;
    }

    /** `output_logic`. */
    function Result(): Byte
      reads this
    {
      st.acc
    }

    /** One rising edge; `ok` is false where MyHDL raises, and then the
        registers are left as they were. */
    method Tick(reset: bool, enable: bool, product: Byte) returns (ok: bool)
      requires Valid()
      modifies this
      ensures Valid()
      ensures ok <==> AccumulateNext(old(st), reset, enable, product, false).Some?
      ensures st == if ok then AccumulateNext(old(st), reset, enable, product, false).value else old(st)
      ensures Result() == st.acc
    {
      var next := AccumulateNext(st, reset, enable, product, false);
      ok := next.Some?;
      if ok {
        st := next.value;
      }
    }
  }
}
