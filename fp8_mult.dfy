/** `fp8_e4m3_multiply` (src/hdl/components/fp8_e4m3_mult.py): an E4M3
    multiplier whose clocked process `multiply_proc` writes a bank of
    registers from the inputs and from the registers' own pre-edge values,
    and whose combinational `assemble_output` drives `output_z` from the
    result flags and the z fields. `output_z` has a second driver: the
    reset branch of `multiply_proc` writes 0 to it directly. */
module Fp8Mult {
  import opened Bits
  import opened FpDefs
  import opened Wrappers

  /** The signals `decompose_inputs` drives for one operand. */
  datatype Decomposed = Decomposed(
    sign: bool, exp: nat, man: nat, manExt: nat,
    isZero: bool, isInf: bool, isNan: bool)

  function DecomposeInputs(x: Byte): (d: Decomposed)
    ensures d.sign <==> SignOf(x) == 1
    ensures d.exp == ExpOf(x) && d.man == ManOf(x)
    ensures d.manExt <= 15
    ensures d.isZero <==> x == 0x00 || x == 0x80
    ensures d.isInf <==> x == 0x78 || x == 0xF8
    ensures d.isNan <==> ExpOf(x) == 15 && ManOf(x) != 0
  {
    SpecialPatterns(x);
    var exp, man := ExpOf(x), ManOf(x);
    Decomposed(
      SignOf(x) == 1, exp, man, if exp != 0 then 8 + man else man,
      exp == 0 && man == 0, exp == 15 && man == 0, exp == 15 && man != 0)
  }

  /** Every register `multiply_proc` writes, and `output_z`. */
  datatype MultState = MultState(
    zSign: bool, zExp: nat, zMan: nat,
    expSum: int, product: nat, normalizedMan: nat,
    resultIsNan: bool, resultIsInf: bool, resultIsZero: bool,
    outputZ: Byte)
  {
    /** Every register holds a value of its declared range; `exp_sum` is
        `intbv(min=-14, max=14)`. */
    predicate Valid()
    {
      zExp <= 15 && zMan <= 7 && -14 <= expSum < 14 && product < 256 && normalizedMan <= 7
    }
  }

  /** All signals at their initial value. */
  const Initial: MultState := MultState(false, 0, 0, 0, 0, 0, false, false, false, 0)

  /** `assemble_output`. */
  function AssembleOutput(st: MultState): (z: Byte)
    requires st.Valid()
  {
    if st.resultIsNan then 0x7C
    else if st.resultIsInf then Pack(if st.zSign then 1 else 0, 15, 0)
    else if st.resultIsZero then Pack(if st.zSign then 1 else 0, 0, 0)
    else Pack(if st.zSign then 1 else 0, st.zExp, st.zMan)
  }

  /** The signals `assemble_output` is sensitive to have the same values. */
  predicate SameAssembleInputs(s: MultState, t: MultState)
  {
    && s.resultIsNan == t.resultIsNan && s.resultIsInf == t.resultIsInf
    && s.resultIsZero == t.resultIsZero
    && s.zSign == t.zSign && s.zExp == t.zExp && s.zMan == t.zMan
  }

  /** The unbiased exponent; exponent 0 counts as -6. */
  function AdjustedExp(d: Decomposed): int
  {
    if d.exp == 0 then -7 + 1 else d.exp - 7
  }

  /** p * q by repeated addition. The lemmas below reach the product
      through `MulIsProduct` where they need its value, which keeps a
      product of two unknowns out of every other proof. */
  function Mul(p: nat, q: nat): nat
  {
    if q == 0 then 0 else Mul(p, q - 1) + p
  }

  lemma {:induction false} MulIsProduct(p: nat, q: nat)
    ensures Mul(p, q) == p * q
  {
    if q != 0 {
      MulIsProduct(p, q - 1);
    }
  }

  /** The product of the extended mantissas, which fits `product`'s 8 bits. */
  function ExtProduct(a: Decomposed, b: Decomposed): (p: nat)
    requires a.manExt <= 15 && b.manExt <= 15
    ensures p <= 225
  {
    MulIsProduct(a.manExt, b.manExt);
    ProductFits(a.manExt, b.manExt);
    Mul(a.manExt, b.manExt)
  }

  /** `multiply_proc` on the regular path. The first write of `exp_sum`
      must lie in its range even when a later write replaces it. The
      normalisation and the exponent check read the pre-edge `product`,
      `exp_sum` and `normalized_man`; bit 7 of an 8-bit `product` is set
      exactly when it is at least 128. */
  function RegularNext(st: MultState, a: Decomposed, b: Decomposed): (r: Option<MultState>)
    requires st.Valid() && a.manExt <= 15 && b.manExt <= 15
    ensures r.Some? ==> r.value.Valid() && r.value.outputZ == st.outputZ
  {
    var expSum := AdjustedExp(a) + AdjustedExp(b);
    var product := ExtProduct(a, b);
    var topBit := st.product >= 128;
    var normalizedMan := if topBit then (st.product / 16) % 8 else (st.product / 8) % 8;
    var expSumNext := if topBit then st.expSum + 1 else expSum;
    if !(-14 <= expSum < 14 && expSumNext < 14) then None
    else
      var s := MultState(
        a.sign != b.sign, st.zExp, st.zMan, expSumNext, product, normalizedMan,
        false, false, false, st.outputZ);
      if st.expSum >= 7 then Some(s.(resultIsInf := true))
      else if st.expSum < -7 + 1 then Some(s.(resultIsZero := true))
      else Some(s.(zExp := st.expSum + 7, zMan := st.normalizedMan))
  }

  /** The top-bit test `product[7]` on an 8-bit value. */
  lemma TopBit(p: nat)
    requires p < 256
    ensures Bit(p, 7) <==> p >= 128
  {
    SmallPowers();
  }

  /** The slices `product[7:4]` and `product[6:3]` that `normalized_man`
      takes, written out as `RegularNext` computes them. */
  lemma NormalizedSlices(p: nat)
    ensures Slice(p, 7, 4) == (p / 16) % 8 && Slice(p, 6, 3) == (p / 8) % 8
  {
    SmallPowers();
  }

  /** The product of two 4-bit extended mantissas fits `product`'s 8 bits. */
  lemma ProductFits(p: nat, q: nat)
    requires p <= 15 && q <= 15
    ensures p * q <= 225
  {
    MulLeftMonotone(p, q, 15);
    MulRightMonotone(p, 15, 15);
  }

  /** The registers after one rising edge, before `output_z` is settled. */
  function RegistersNext(st: MultState, a: Decomposed, b: Decomposed): (r: Option<MultState>)
    requires st.Valid() && a.manExt <= 15 && b.manExt <= 15
    ensures r.Some? ==> r.value.Valid() && r.value.outputZ == st.outputZ
  {
    var zSign := a.sign != b.sign;
    if a.isNan || b.isNan || (a.isInf && b.isZero) || (b.isInf && a.isZero) then
      Some(st.(zSign := zSign, resultIsNan := true, resultIsInf := false, resultIsZero := false))
    else if a.isInf || b.isInf then
      Some(st.(zSign := zSign, resultIsNan := false, resultIsInf := true, resultIsZero := false))
    else if a.isZero || b.isZero then
      Some(st.(zSign := zSign, resultIsNan := false, resultIsInf := false, resultIsZero := true))
    else RegularNext(st, a, b)
  }

  /** One rising edge on the decomposed inputs, or None when a write
      leaves `exp_sum`'s range (MyHDL raises). Reset only writes 0 to
      `output_z`. Otherwise `assemble_output` runs again exactly when one of
      its inputs changed; when none did, `output_z` keeps its value. */
  function EdgeNext(st: MultState, rst: bool, a: Decomposed, b: Decomposed): (r: Option<MultState>)
    requires st.Valid() && a.manExt <= 15 && b.manExt <= 15
    ensures r.Some? ==> r.value.Valid()
    ensures rst ==> r == Some(st.(outputZ := 0))
  {
    if rst then Some(st.(outputZ := 0))
    else
      match RegistersNext(st, a, b)
      case None => None
      case Some(regs) => Some(Assembled(st, regs))
  }

  /** `output_z` after the registers changed from `st` to `regs`:
      `assemble_output` runs again exactly when one of its inputs changed. */
  function Assembled(st: MultState, regs: MultState): (n: MultState)
    requires regs.Valid()
    ensures n.Valid() && n.(outputZ := regs.outputZ) == regs
  {
    if SameAssembleInputs(regs, st) then regs
    else regs.(outputZ := AssembleOutput(regs))
  }

  /** One rising edge with the input bytes `input_a` and `input_b`. */
  function MultiplyNext(st: MultState, rst: bool, inputA: Byte, inputB: Byte): (r: Option<MultState>)
    requires st.Valid()
    ensures r.Some? ==> r.value.Valid()
    ensures rst ==> r == Some(st.(outputZ := 0))
  {
    EdgeNext(st, rst, DecomposeInputs(inputA), DecomposeInputs(inputB))
  }

  /** `output_z` shows what `assemble_output` computes from the registers. */
  predicate Consistent(st: MultState)
  {
    st.Valid() && st.outputZ == AssembleOutput(st)
  }

  /** An edge without reset keeps `output_z` in step with the registers. */
  lemma EdgeKeepsConsistent(st: MultState, a: Decomposed, b: Decomposed)
    requires Consistent(st) && a.manExt <= 15 && b.manExt <= 15
    requires EdgeNext(st, false, a, b).Some?
    ensures Consistent(EdgeNext(st, false, a, b).value)
  {
    var regs := RegistersNext(st, a, b).value;
    if SameAssembleInputs(regs, st) {
      AssembleReadsItsInputs(regs, st);
    }
  }

  /** `assemble_output` depends on nothing but its inputs. */
  lemma AssembleReadsItsInputs(s: MultState, t: MultState)
    requires s.Valid() && t.Valid() && SameAssembleInputs(s, t)
    ensures AssembleOutput(s) == AssembleOutput(t)
  {
  }

  /** After an edge without reset, `output_z` is assembled from the new
      registers even when the state before it was not consistent, unless
      no input of `assemble_output` changed. */
  lemma EdgeAssembles(st: MultState, a: Decomposed, b: Decomposed)
    requires st.Valid() && a.manExt <= 15 && b.manExt <= 15
    requires EdgeNext(st, false, a, b).Some?
    ensures var n := EdgeNext(st, false, a, b).value;
      !SameAssembleInputs(n, st) ==> n.outputZ == AssembleOutput(n)
  {
  }

  predicate IsNan(x: Byte)
  {
    ExpOf(x) == 15 && ManOf(x) != 0
  }

  predicate IsInf(x: Byte)
  {
    x == 0x78 || x == 0xF8
  }

  predicate IsZero(x: Byte)
  {
    x == 0x00 || x == 0x80
  }

  /** An operand that is neither NaN, infinity nor zero. */
  predicate Regular(x: Byte)
  {
    !IsNan(x) && !IsInf(x) && !IsZero(x)
  }

  /** The sign bit of a product: the XOR of the operands' sign bits. */
  function XorSign(x: Byte, y: Byte): (s: nat)
    ensures s <= 1
    ensures s == 1 <==> SignOf(x) != SignOf(y)
  {
    if SignOf(x) != SignOf(y) then 1 else 0
  }

  /** The decomposed signs differ exactly when the sign bits do. */
  lemma DecomposedSigns(x: Byte, y: Byte)
    ensures (DecomposeInputs(x).sign != DecomposeInputs(y).sign) <==> XorSign(x, y) == 1
  {
  }

  /** The sign bit `z_sign` stands for. */
  function SignBit(a: Decomposed, b: Decomposed): (s: nat)
    ensures s <= 1
  {
    if a.sign != b.sign then 1 else 0
  }

  /** The operand pairs `multiply_proc` sends to NaN, to infinity and to
      zero, tested in that order. */
  predicate NanCase(a: Decomposed, b: Decomposed)
  {
    a.isNan || b.isNan || (a.isInf && b.isZero) || (b.isInf && a.isZero)
  }

  predicate InfCase(a: Decomposed, b: Decomposed)
  {
    !NanCase(a, b) && (a.isInf || b.isInf)
  }

  predicate ZeroCase(a: Decomposed, b: Decomposed)
  {
    !NanCase(a, b) && !InfCase(a, b) && (a.isZero || b.isZero)
  }

  predicate RegularCase(a: Decomposed, b: Decomposed)
  {
    !a.isNan && !b.isNan && !a.isInf && !b.isInf && !a.isZero && !b.isZero
  }

  /** Every edge without reset that does not raise sets `z_sign` to the
      XOR of the signs, and every result but NaN carries it as sign bit. */
  lemma EdgeSign(st: MultState, a: Decomposed, b: Decomposed)
    requires st.Valid() && a.manExt <= 15 && b.manExt <= 15
    requires EdgeNext(st, false, a, b).Some?
    ensures var n := EdgeNext(st, false, a, b).value;
      (n.zSign <==> SignBit(a, b) == 1)
      && (!n.resultIsNan ==> SignOf(AssembleOutput(n)) == SignBit(a, b))
  {
    var regs := RegistersNext(st, a, b).value;
    assert regs.zSign == (a.sign != b.sign);
    var n := EdgeNext(st, false, a, b).value;
    assert n.zSign == regs.zSign && n.resultIsNan == regs.resultIsNan;
    if !n.resultIsNan {
      AssembledSign(n);
    }
  }

  /** Every result but NaN carries `z_sign` as its sign bit. */
  lemma AssembledSign(st: MultState)
    requires st.Valid() && !st.resultIsNan
    ensures SignOf(AssembleOutput(st)) == if st.zSign then 1 else 0
  {
  }

  /** An edge on special operands never raises; NaN (or infinity times
      zero) gives 0x7C, then infinity the signed infinity, then zero the
      signed zero. */
  lemma SpecialEdge(st: MultState, a: Decomposed, b: Decomposed)
    requires st.Valid() && a.manExt <= 15 && b.manExt <= 15 && !RegularCase(a, b)
    ensures EdgeNext(st, false, a, b).Some?
    ensures AssembleOutput(EdgeNext(st, false, a, b).value) == SpecialValue(a, b)
  {
    var regs := SpecialRegisters(st, a, b);
    assert RegistersNext(st, a, b) == Some(regs);
    var n := EdgeNext(st, false, a, b).value;
    assert SameAssembleInputs(n, regs);
    AssembleReadsItsInputs(n, regs);
    SpecialOutput(st, a, b);
  }

  /** NaN's 0x7C, the signed infinity or the signed zero, by case. */
  function SpecialValue(a: Decomposed, b: Decomposed): Byte
  {
    if NanCase(a, b) then 0x7C
    else if InfCase(a, b) then Pack(SignBit(a, b), 15, 0)
    else Pack(SignBit(a, b), 0, 0)
  }

  /** The registers an edge on special operands writes. */
  function SpecialRegisters(st: MultState, a: Decomposed, b: Decomposed): (r: MultState)
    requires st.Valid()
    ensures r.Valid()
  {
    st.(zSign := a.sign != b.sign, resultIsNan := NanCase(a, b), resultIsInf := InfCase(a, b),
        resultIsZero := ZeroCase(a, b))
  }

  lemma SpecialOutput(st: MultState, a: Decomposed, b: Decomposed)
    requires st.Valid() && !RegularCase(a, b)
    ensures AssembleOutput(SpecialRegisters(st, a, b)) == SpecialValue(a, b)
  {
    var regs := SpecialRegisters(st, a, b);
    var sign := if regs.zSign then 1 else 0;
    assert sign == SignBit(a, b);
  }

  /** `z_sign` becomes the XOR of the input signs on every edge without
      reset, and every result but NaN carries it as its sign bit. */
  lemma SignIsXor(st: MultState, x: Byte, y: Byte)
    requires st.Valid() && MultiplyNext(st, false, x, y).Some?
    ensures var n := MultiplyNext(st, false, x, y).value;
      (n.zSign <==> XorSign(x, y) == 1) && (!n.resultIsNan ==> SignOf(AssembleOutput(n)) == XorSign(x, y))
  {
    EdgeSign(st, DecomposeInputs(x), DecomposeInputs(y));
    DecomposedSigns(x, y);
  }

  /** A NaN operand, or infinity times zero, gives 0x7C, without a sign. */
  lemma NanProduct(st: MultState, x: Byte, y: Byte)
    requires st.Valid()
    requires IsNan(x) || IsNan(y) || (IsInf(x) && IsZero(y)) || (IsZero(x) && IsInf(y))
    ensures MultiplyNext(st, false, x, y).Some?
    ensures AssembleOutput(MultiplyNext(st, false, x, y).value) == 0x7C
  {
    var a, b := DecomposeInputs(x), DecomposeInputs(y);
    assert NanCase(a, b);
    SpecialEdge(st, a, b);
  }

  /** Otherwise infinity times anything gives the signed infinity
      0x78 | sign << 7. */
  lemma InfProduct(st: MultState, x: Byte, y: Byte)
    requires st.Valid()
    requires !IsNan(x) && !IsNan(y) && !IsZero(x) && !IsZero(y) && (IsInf(x) || IsInf(y))
    ensures MultiplyNext(st, false, x, y).Some?
    ensures AssembleOutput(MultiplyNext(st, false, x, y).value) == Pack(XorSign(x, y), 15, 0)
  {
    var a, b := DecomposeInputs(x), DecomposeInputs(y);
    assert InfCase(a, b) && !NanCase(a, b);
    assert SignBit(a, b) == XorSign(x, y) by {
      DecomposedSigns(x, y);
    }
    SpecialEdge(st, a, b);
    assert MultiplyNext(st, false, x, y) == EdgeNext(st, false, a, b);
  }

  /** Otherwise a zero operand gives the signed zero sign << 7. */
  lemma ZeroProduct(st: MultState, x: Byte, y: Byte)
    requires st.Valid()
    requires !IsNan(x) && !IsNan(y) && !IsInf(x) && !IsInf(y) && (IsZero(x) || IsZero(y))
    ensures MultiplyNext(st, false, x, y).Some?
    ensures AssembleOutput(MultiplyNext(st, false, x, y).value) == Pack(XorSign(x, y), 0, 0)
  {
    var a, b := DecomposeInputs(x), DecomposeInputs(y);
    assert ZeroCase(a, b) && !NanCase(a, b) && !InfCase(a, b);
    assert SignBit(a, b) == XorSign(x, y) by {
      DecomposedSigns(x, y);
    }
    SpecialEdge(st, a, b);
    assert MultiplyNext(st, false, x, y) == EdgeNext(st, false, a, b);
  }

  /** One edge on regular operands whose pre-edge `product` has bit 7
      clear: `product` and `exp_sum` take the new values, `normalized_man`
      the pre-edge product's bits 5..3, and the result flags and z fields
      follow the pre-edge `exp_sum`: 7 or more gives infinity, below -6
      zero, otherwise exponent field `exp_sum + 7` with the pre-edge
      `normalized_man`; outside that window the z fields are kept. */
  lemma RegularEdge(st: MultState, a: Decomposed, b: Decomposed)
    requires st.Valid() && a.manExt <= 15 && b.manExt <= 15 && RegularCase(a, b)
    requires AdjustedExp(a) + AdjustedExp(b) < 14 && st.product < 128
    ensures RegistersNext(st, a, b).Some?
    ensures var n := RegistersNext(st, a, b).value;
      && n.product == ExtProduct(a, b) && n.expSum == AdjustedExp(a) + AdjustedExp(b)
      && n.normalizedMan == (st.product / 8) % 8
      && (n.zSign <==> a.sign != b.sign) && !n.resultIsNan
      && (n.resultIsInf <==> st.expSum >= 7)
      && (n.resultIsZero <==> st.expSum < -6)
      && (-6 <= st.expSum < 7 ==> n.zExp == st.expSum + 7 && n.zMan == st.normalizedMan)
      && (!(-6 <= st.expSum < 7) ==> n.zExp == st.zExp && n.zMan == st.zMan)
      && n.outputZ == st.outputZ
  {
    assert AdjustedExp(a) >= -6 && AdjustedExp(b) >= -6;
    assert RegistersNext(st, a, b) == RegularNext(st, a, b);
  }

  /** An edge without reset either raises or writes the registers of
      `RegistersNext`, and `output_z` as `EdgeNext` decides. */
  lemma EdgeWritesRegisters(st: MultState, a: Decomposed, b: Decomposed)
    requires st.Valid() && a.manExt <= 15 && b.manExt <= 15
    ensures EdgeNext(st, false, a, b).Some? <==> RegistersNext(st, a, b).Some?
    ensures EdgeNext(st, false, a, b).Some? ==>
      EdgeNext(st, false, a, b).value.(outputZ := st.outputZ) == RegistersNext(st, a, b).value
  {
  }

  /** Any edge on regular operands that does not raise registers their
      mantissa product. */
  lemma RegularProduct(st: MultState, a: Decomposed, b: Decomposed)
    requires st.Valid() && a.manExt <= 15 && b.manExt <= 15 && RegularCase(a, b)
    requires RegistersNext(st, a, b).Some?
    ensures RegistersNext(st, a, b).value.product == ExtProduct(a, b)
  {
    assert RegistersNext(st, a, b) == RegularNext(st, a, b);
  }

  /** The state after `n` edges without reset with the decomposed inputs
      held, or None once an edge raises. */
  function HeldEdges(st: MultState, a: Decomposed, b: Decomposed, n: nat): (r: Option<MultState>)
    requires st.Valid() && a.manExt <= 15 && b.manExt <= 15
    ensures r.Some? ==> r.value.Valid()
    decreases n
  {
    if n == 0 then Some(st)
    else match EdgeNext(st, false, a, b)
      case None => None
      case Some(next) => HeldEdges(next, a, b, n - 1)
  }

  /** The first of n held edges, when it gives `next`. */
  lemma HeldEdgesStep(st: MultState, a: Decomposed, b: Decomposed, n: nat, next: MultState)
    requires st.Valid() && a.manExt <= 15 && b.manExt <= 15 && n > 0
    requires EdgeNext(st, false, a, b) == Some(next)
    ensures HeldEdges(st, a, b, n) == HeldEdges(next, a, b, n - 1)
  {
  }

  /** The exponent sum s the held operands register. */
  function HeldSum(a: Decomposed, b: Decomposed): int
  {
    AdjustedExp(a) + AdjustedExp(b)
  }

  /** A consistent state whose `product`, `exp_sum` and `normalized_man`
      already hold what the held operands produce. */
  predicate Primed(st: MultState, a: Decomposed, b: Decomposed)
    requires a.manExt <= 15 && b.manExt <= 15
  {
    && Consistent(st) && st.product == ExtProduct(a, b) && st.expSum == HeldSum(a, b)
    && st.normalizedMan == (ExtProduct(a, b) / 8) % 8
  }

  /** A primed state whose flags and z fields show the product: `z_sign`
      the XOR, infinity for s >= 7, zero for s < -6, and otherwise exponent
      field s + 7 with the product's bits 5..3. */
  predicate Settled(st: MultState, a: Decomposed, b: Decomposed)
    requires a.manExt <= 15 && b.manExt <= 15
  {
    && Primed(st, a, b) && (st.zSign <==> a.sign != b.sign) && !st.resultIsNan
    && (st.resultIsInf <==> HeldSum(a, b) >= 7) && (st.resultIsZero <==> HeldSum(a, b) < -6)
    && (-6 <= HeldSum(a, b) < 7 ==> st.zExp == HeldSum(a, b) + 7 && st.zMan == (ExtProduct(a, b) / 8) % 8)
  }

  /** The operands of `HeldEdgesSettle`. */
  predicate Settling(a: Decomposed, b: Decomposed)
  {
    && a.manExt <= 15 && b.manExt <= 15 && RegularCase(a, b)
    && ExtProduct(a, b) < 128 && HeldSum(a, b) < 14
  }

  /** An edge after one that registered the product primes the state. */
  lemma EdgePrimes(st: MultState, a: Decomposed, b: Decomposed)
    requires Settling(a, b) && Consistent(st) && st.product == ExtProduct(a, b)
    ensures EdgeNext(st, false, a, b).Some? && Primed(EdgeNext(st, false, a, b).value, a, b)
  {
    RegularEdge(st, a, b);
    EdgeWritesRegisters(st, a, b);
    EdgeKeepsConsistent(st, a, b);
  }

  /** An edge from a primed state settles it. */
  lemma EdgeSettles(st: MultState, a: Decomposed, b: Decomposed)
    requires Settling(a, b) && Primed(st, a, b)
    ensures EdgeNext(st, false, a, b).Some? && Settled(EdgeNext(st, false, a, b).value, a, b)
  {
    RegularEdge(st, a, b);
    EdgeWritesRegisters(st, a, b);
    EdgeKeepsConsistent(st, a, b);
  }

  /** No edge changes a settled state. */
  lemma SettledIsFixed(st: MultState, a: Decomposed, b: Decomposed)
    requires Settling(a, b) && Settled(st, a, b)
    ensures EdgeNext(st, false, a, b) == Some(st)
  {
    RegularEdge(st, a, b);
    assert RegistersNext(st, a, b) == Some(st);
  }

  /** With regular operands held, a mantissa product below 128 and an
      exponent sum below 14, three edges after a consistent state give a
      settled state that no further edge changes. The first edge must not
      raise: it normalises the product registered before. */
  lemma HeldEdgesSettle(st: MultState, a: Decomposed, b: Decomposed)
    requires Settling(a, b) && Consistent(st) && EdgeNext(st, false, a, b).Some?
    ensures HeldEdges(st, a, b, 3).Some? && Settled(HeldEdges(st, a, b, 3).value, a, b)
    ensures EdgeNext(HeldEdges(st, a, b, 3).value, false, a, b) == HeldEdges(st, a, b, 3)
  {
    var st1 := EdgeNext(st, false, a, b).value;
    EdgeKeepsConsistent(st, a, b);
    EdgeWritesRegisters(st, a, b);
    RegularProduct(st, a, b);
    EdgePrimes(st1, a, b);
    var st2 := EdgeNext(st1, false, a, b).value;
    EdgeSettles(st2, a, b);
    var st3 := EdgeNext(st2, false, a, b).value;
    assert HeldEdges(st2, a, b, 1) == Some(st3);
    assert HeldEdges(st1, a, b, 2) == Some(st3);
    assert HeldEdges(st, a, b, 3) == Some(st3);
    SettledIsFixed(st3, a, b);
  }

  /** The sum of the unbiased exponents, as `exp_sum` registers it. */
  function ExponentSum(x: Byte, y: Byte): int
  {
    AdjustedExp(DecomposeInputs(x)) + AdjustedExp(DecomposeInputs(y))
  }

  /** The product of the extended mantissas, as `product` registers it. */
  function MantissaProduct(x: Byte, y: Byte): (p: nat)
    ensures p <= 225
  {
    ExtProduct(DecomposeInputs(x), DecomposeInputs(y))
  }

  /** What the multiplier settles on for regular operands whose mantissa
      product is below 128: the sign XOR, and from the exponent sum s and
      the product p either infinity (s >= 7), zero (s < -6) or exponent
      field s + 7 with mantissa p's bits 5..3, truncated. */
  function SettledProduct(x: Byte, y: Byte): (z: Byte)
  {
    var s, p := ExponentSum(x, y), MantissaProduct(x, y);
    if s >= 7 then Pack(XorSign(x, y), 15, 0)
    else if s < -6 then Pack(XorSign(x, y), 0, 0)
    else Pack(XorSign(x, y), s + 7, (p / 8) % 8)
  }

  /** The state after `n` edges without reset with the input bytes held. */
  function HeldRun(st: MultState, x: Byte, y: Byte, n: nat): (r: Option<MultState>)
    requires st.Valid()
    ensures r.Some? ==> r.value.Valid()
  {
    HeldEdges(st, DecomposeInputs(x), DecomposeInputs(y), n)
  }

  /** With regular operands held, a mantissa product below 128 and an
      exponent sum in range, three edges after a consistent state the output
      shows `SettledProduct`, and the state no longer changes. The first
      edge must not raise: it normalises the product registered before. */
  lemma SettlesOnHeldInputs(st: MultState, x: Byte, y: Byte)
    requires Consistent(st) && Regular(x) && Regular(y)
    requires MantissaProduct(x, y) < 128 && ExponentSum(x, y) < 14
    requires MultiplyNext(st, false, x, y).Some?
    ensures HeldRun(st, x, y, 3).Some?
    ensures HeldRun(st, x, y, 3).value.outputZ == SettledProduct(x, y)
    ensures MultiplyNext(HeldRun(st, x, y, 3).value, false, x, y) == HeldRun(st, x, y, 3)
  {
    var a, b := DecomposeInputs(x), DecomposeInputs(y);
    assert Settling(a, b);
    HeldEdgesSettle(st, a, b);
    SettledOutput(HeldEdges(st, a, b, 3).value, a, b);
    SettledOnBytes(x, y);
  }

  /** The output `HeldEdgesSettle` describes, from the decomposed inputs. */
  function SettledValue(a: Decomposed, b: Decomposed): (z: Byte)
    requires a.manExt <= 15 && b.manExt <= 15
  {
    var s := AdjustedExp(a) + AdjustedExp(b);
    if s >= 7 then Pack(SignBit(a, b), 15, 0)
    else if s < -6 then Pack(SignBit(a, b), 0, 0)
    else Pack(SignBit(a, b), s + 7, (ExtProduct(a, b) / 8) % 8)
  }

  lemma SettledOnBytes(x: Byte, y: Byte)
    ensures SettledProduct(x, y) == SettledValue(DecomposeInputs(x), DecomposeInputs(y))
  {
    DecomposedSigns(x, y);
  }

  /** A settled state shows `SettledValue`. */
  lemma SettledOutput(st: MultState, a: Decomposed, b: Decomposed)
    requires a.manExt <= 15 && b.manExt <= 15 && Settled(st, a, b)
    ensures st.outputZ == SettledValue(a, b)
  {
    var sign := if st.zSign then 1 else 0;
    assert sign == SignBit(a, b);
  }

  /** A state that an edge keeps stays through any number of edges. */
  lemma {:induction false} FixedStays(st: MultState, a: Decomposed, b: Decomposed, n: nat)
    requires st.Valid() && a.manExt <= 15 && b.manExt <= 15
    requires EdgeNext(st, false, a, b) == Some(st)
    ensures HeldEdges(st, a, b, n) == Some(st)
    decreases n
  {
    if n > 0 {
      HeldEdgesStep(st, a, b, n, st);
      FixedStays(st, a, b, n - 1);
    }
  }

  /** n + k held edges are n held edges followed by k more. */
  lemma {:induction false} HeldEdgesSplit(st: MultState, a: Decomposed, b: Decomposed, n: nat, k: nat)
    requires st.Valid() && a.manExt <= 15 && b.manExt <= 15
    requires HeldEdges(st, a, b, n).Some?
    ensures HeldEdges(st, a, b, n + k) == HeldEdges(HeldEdges(st, a, b, n).value, a, b, k)
    decreases n
  {
    if n > 0 {
      var next := EdgeNext(st, false, a, b).value;
      HeldEdgesStep(st, a, b, n, next);
      HeldEdgesStep(st, a, b, n + k, next);
      HeldEdgesSplit(next, a, b, n - 1, k);
    }
  }

  /** From the initial state, held operands of the kind
      `SettlesOnHeldInputs` covers show `SettledProduct` after five
      edges. */
  lemma SettledAfterFive(x: Byte, y: Byte)
    requires Regular(x) && Regular(y) && MantissaProduct(x, y) < 128 && ExponentSum(x, y) < 14
    requires MultiplyNext(Initial, false, x, y).Some?
    ensures HeldRun(Initial, x, y, 5).Some? && HeldRun(Initial, x, y, 5).value.outputZ == SettledProduct(x, y)
  {
    var a, b := DecomposeInputs(x), DecomposeInputs(y);
    SettlesOnHeldInputs(Initial, x, y);
    var settled := HeldEdges(Initial, a, b, 3).value;
    FixedStays(settled, a, b, 2);
    HeldEdgesSplit(Initial, a, b, 3, 2);
  }

  /** 1.5 * 2.0 (0x3C times 0x40) settles to 3.0 (0x44) and 0.5 * 4.0
      (0x30 times 0x48) to 2.0 (0x40) within five edges. */
  lemma SettleVectors()
    ensures HeldRun(Initial, 0x3C, 0x40, 5).Some? && HeldRun(Initial, 0x3C, 0x40, 5).value.outputZ == 0x44
    ensures HeldRun(Initial, 0x30, 0x48, 5).Some? && HeldRun(Initial, 0x30, 0x48, 5).value.outputZ == 0x40
  {
    FirstVectorOperands();
    SecondVectorOperands();
    VectorFirstEdges();
    SettledAfterFive(0x3C, 0x40);
    SettledAfterFive(0x30, 0x48);
  }

  /** The first operands of `SettleVectors` and what they settle on. */
  lemma FirstVectorOperands()
    ensures Regular(0x3C) && Regular(0x40)
    ensures MantissaProduct(0x3C, 0x40) == 96 && ExponentSum(0x3C, 0x40) == 1
    ensures SettledProduct(0x3C, 0x40) == 0x44
  {
    assert ExpOf(0x3C) == 7 && ManOf(0x3C) == 4 && ExpOf(0x40) == 8 && ManOf(0x40) == 0;
    MulIsProduct(12, 8);
  }

  /** The second operands of `SettleVectors` and what they settle on. */
  lemma SecondVectorOperands()
    ensures Regular(0x30) && Regular(0x48)
    ensures MantissaProduct(0x30, 0x48) == 64 && ExponentSum(0x30, 0x48) == 1
    ensures SettledProduct(0x30, 0x48) == 0x40
  {
    assert ExpOf(0x30) == 6 && ManOf(0x30) == 0 && ExpOf(0x48) == 9 && ManOf(0x48) == 0;
    MulIsProduct(8, 8);
  }

  /** The first edge from the initial state does not raise on either pair. */
  lemma VectorFirstEdges()
    ensures MultiplyNext(Initial, false, 0x3C, 0x40).Some?
    ensures MultiplyNext(Initial, false, 0x30, 0x48).Some?
  {
    FirstVectorOperands();
    SecondVectorOperands();
  }

  /** As written, a held mantissa product of 128 or more never settles:
      every edge reads the registered product's bit 7 and increments
      `exp_sum` again, so the output drifts up by one binade per edge until
      the write leaves `exp_sum`'s range. */
  lemma DriftStep(st: MultState, a: Decomposed, b: Decomposed)
    requires st.Valid() && a.manExt <= 15 && b.manExt <= 15 && RegularCase(a, b)
    requires st.product >= 128 && EdgeNext(st, false, a, b).Some?
    ensures EdgeNext(st, false, a, b).value.expSum == st.expSum + 1
    ensures EdgeNext(st, false, a, b).value.product == ExtProduct(a, b)
  {
    assert RegistersNext(st, a, b) == RegularNext(st, a, b);
    EdgeWritesRegisters(st, a, b);
  }

  /** While the edges do not raise, each one adds 1 to `exp_sum`. */
  lemma {:induction false} DriftCounts(st: MultState, a: Decomposed, b: Decomposed, n: nat)
    requires st.Valid() && a.manExt <= 15 && b.manExt <= 15 && RegularCase(a, b)
    requires ExtProduct(a, b) >= 128 && st.product >= 128
    ensures HeldEdges(st, a, b, n).Some? ==> HeldEdges(st, a, b, n).value.expSum == st.expSum + n
    decreases n
  {
    if n > 0 && EdgeNext(st, false, a, b).Some? {
      var next := EdgeNext(st, false, a, b).value;
      DriftStep(st, a, b);
      DriftCounts(next, a, b, n - 1);
      assert HeldEdges(st, a, b, n) == HeldEdges(next, a, b, n - 1);
    }
  }

  /** With such operands held, some edge among the first 29 raises,
      whatever the state before. */
  lemma HeldEdgesRaise(st: MultState, a: Decomposed, b: Decomposed)
    requires st.Valid() && a.manExt <= 15 && b.manExt <= 15 && RegularCase(a, b)
    requires ExtProduct(a, b) >= 128
    ensures HeldEdges(st, a, b, 29).None?
  {
    if EdgeNext(st, false, a, b).Some? {
      var next := EdgeNext(st, false, a, b).value;
      EdgeWritesRegisters(st, a, b);
      RegularProduct(st, a, b);
      DriftCounts(next, a, b, 28);
      assert HeldEdges(st, a, b, 29) == HeldEdges(next, a, b, 28);
    }
  }

  /** On the input bytes: regular operands whose mantissa product is 128 or
      more, held for 29 edges, make `multiply_proc` raise. */
  lemma HeldProductRaises(st: MultState, x: Byte, y: Byte)
    requires st.Valid() && Regular(x) && Regular(y) && MantissaProduct(x, y) >= 128
    ensures HeldRun(st, x, y, 29).None?
  {
    var a, b := DecomposeInputs(x), DecomposeInputs(y);
    assert RegularCase(a, b);
    HeldEdgesRaise(st, a, b);
  }

  /** 1.5 * 1.5 (0x3C times 0x3C) has mantissa product 12 * 12 = 144. */
  lemma DriftExample()
    ensures Regular(0x3C) && MantissaProduct(0x3C, 0x3C) == 144
    ensures HeldRun(Initial, 0x3C, 0x3C, 29).None?
  {
    var a := DecomposeInputs(0x3C);
    assert ExpOf(0x3C) == 7 && ManOf(0x3C) == 4;
    assert a.manExt == 12;
    MulIsProduct(12, 12);
    HeldProductRaises(Initial, 0x3C, 0x3C);
  }

  /** 0x3C (1.5) decomposed. */
  const OneAndAHalf := Decomposed(false, 7, 4, 12, false, false, false)

  /** The states after each of the first four edges of the held
      1.5 * 1.5 from the initial state. */
  const Drift1 := MultState(false, 7, 0, 0, 144, 0, false, false, false, 0x38)
  const Drift2 := MultState(false, 7, 0, 1, 144, 1, false, false, false, 0x38)
  const Drift3 := MultState(false, 8, 1, 2, 144, 1, false, false, false, 0x41)
  const Drift4 := MultState(false, 9, 1, 3, 144, 1, false, false, false, 0x49)

  /** The first edge registers the product 144. */
  lemma DriftFirstEdge()
    ensures Drift1.Valid()
    ensures EdgeNext(Initial, false, OneAndAHalf, OneAndAHalf) == Some(Drift1)
  {
    MulIsProduct(12, 12);
    assert ExtProduct(OneAndAHalf, OneAndAHalf) == 144;
    assert RegistersNext(Initial, OneAndAHalf, OneAndAHalf) == Some(Drift1.(outputZ := 0));
    assert AssembleOutput(Drift1.(outputZ := 0)) == 0x38;
  }

  /** The second edge normalises it. */
  lemma DriftSecondEdge()
    ensures Drift1.Valid() && Drift2.Valid()
    ensures EdgeNext(Drift1, false, OneAndAHalf, OneAndAHalf) == Some(Drift2)
  {
    MulIsProduct(12, 12);
    assert ExtProduct(OneAndAHalf, OneAndAHalf) == 144;
  }

  /** The next two edges: `exp_sum` climbs by one on each. */
  lemma DriftLaterEdges()
    ensures Drift2.Valid() && Drift3.Valid() && Drift4.Valid()
    ensures EdgeNext(Drift2, false, OneAndAHalf, OneAndAHalf) == Some(Drift3)
    ensures EdgeNext(Drift3, false, OneAndAHalf, OneAndAHalf) == Some(Drift4)
  {
    MulIsProduct(12, 12);
    assert ExtProduct(OneAndAHalf, OneAndAHalf) == 144;
  }

  /** From the initial state, the held 1.5 * 1.5 shows 2.25 (0x41) after
      the third edge and 4.5 (0x49) after the fourth. */
  lemma DriftExampleOutputs()
    ensures HeldRun(Initial, 0x3C, 0x3C, 3) == Some(Drift3) && Drift3.outputZ == 0x41
    ensures HeldRun(Initial, 0x3C, 0x3C, 4) == Some(Drift4) && Drift4.outputZ == 0x49
  {
    assert ExpOf(0x3C) == 7 && ManOf(0x3C) == 4;
    assert DecomposeInputs(0x3C) == OneAndAHalf;
    var h := OneAndAHalf;
    DriftFirstEdge();
    DriftSecondEdge();
    DriftLaterEdges();
    HeldEdgesStep(Initial, h, h, 3, Drift1);
    HeldEdgesStep(Drift1, h, h, 2, Drift2);
    HeldEdgesStep(Drift2, h, h, 1, Drift3);
    HeldEdgesStep(Initial, h, h, 4, Drift1);
    HeldEdgesStep(Drift1, h, h, 3, Drift2);
    HeldEdgesStep(Drift2, h, h, 2, Drift3);
    HeldEdgesStep(Drift3, h, h, 1, Drift4);
  }

  /** The regular path as evidently intended: the fresh product is
      normalised on the same edge, `exp_sum` is the exponent sum plus the
      product's bit 7, and the overflow test reads that new sum. */
  function CorrectedRegularNext(st: MultState, a: Decomposed, b: Decomposed): (r: Option<MultState>)
    requires st.Valid() && a.manExt <= 15 && b.manExt <= 15
    ensures r.Some? ==> r.value.Valid() && r.value.outputZ == st.outputZ
  {
    var p := ExtProduct(a, b);
    var expSum := if p >= 128 then HeldSum(a, b) + 1 else HeldSum(a, b);
    var man := if p >= 128 then (p / 16) % 8 else (p / 8) % 8;
    if !(-14 <= HeldSum(a, b) < 14 && expSum < 14) then None
    else
      var s := MultState(
        a.sign != b.sign, st.zExp, st.zMan, expSum, p, man, false, false, false, st.outputZ);
      if expSum >= 7 then Some(s.(resultIsInf := true))
      else if expSum < -7 + 1 then Some(s.(resultIsZero := true))
      else Some(s.(zExp := expSum + 7, zMan := man))
  }

  /** One corrected edge; the special cases and reset are unchanged. */
  function CorrectedEdgeNext(st: MultState, rst: bool, a: Decomposed, b: Decomposed): (r: Option<MultState>)
    requires st.Valid() && a.manExt <= 15 && b.manExt <= 15
    ensures r.Some? ==> r.value.Valid()
  {
    if rst || !RegularCase(a, b) then EdgeNext(st, rst, a, b)
    else
      match CorrectedRegularNext(st, a, b)
      case None => None
      case Some(regs) => Some(Assembled(st, regs))
  }

  function CorrectedMultiplyNext(st: MultState, rst: bool, inputA: Byte, inputB: Byte): (r: Option<MultState>)
    requires st.Valid()
    ensures r.Some? ==> r.value.Valid()
  {
    CorrectedEdgeNext(st, rst, DecomposeInputs(inputA), DecomposeInputs(inputB))
  }

  /** What the corrected multiplier shows for regular operands: the sign
      XOR, and from the exponent sum s and the product p, normalised to
      exponent e = s + p[7], either infinity (e >= 7), zero (e < -6) or
      exponent field e + 7 with the three bits below p's leading bit. */
  function CorrectedProduct(x: Byte, y: Byte): (z: Byte)
  {
    var s, p := ExponentSum(x, y), MantissaProduct(x, y);
    var e := if p >= 128 then s + 1 else s;
    var m := if p >= 128 then (p / 16) % 8 else (p / 8) % 8;
    if e >= 7 then Pack(XorSign(x, y), 15, 0)
    else if e < -6 then Pack(XorSign(x, y), 0, 0)
    else Pack(XorSign(x, y), e + 7, m)
  }

  /** `CorrectedProduct` from the decomposed inputs. */
  function CorrectedValue(a: Decomposed, b: Decomposed): (z: Byte)
    requires a.manExt <= 15 && b.manExt <= 15
  {
    var p := ExtProduct(a, b);
    var e := if p >= 128 then HeldSum(a, b) + 1 else HeldSum(a, b);
    if e >= 7 then Pack(SignBit(a, b), 15, 0)
    else if e < -6 then Pack(SignBit(a, b), 0, 0)
    else Pack(SignBit(a, b), e + 7, if p >= 128 then (p / 16) % 8 else (p / 8) % 8)
  }

  lemma CorrectedOnBytes(x: Byte, y: Byte)
    ensures CorrectedProduct(x, y) == CorrectedValue(DecomposeInputs(x), DecomposeInputs(y))
  {
    DecomposedSigns(x, y);
  }

  /** The registers a corrected edge writes show `CorrectedValue`. */
  lemma CorrectedOutput(st: MultState, a: Decomposed, b: Decomposed)
    requires st.Valid() && a.manExt <= 15 && b.manExt <= 15
    requires CorrectedRegularNext(st, a, b).Some?
    ensures AssembleOutput(CorrectedRegularNext(st, a, b).value) == CorrectedValue(a, b)
  {
    var regs := CorrectedRegularNext(st, a, b).value;
    var sign := if regs.zSign then 1 else 0;
    assert sign == SignBit(a, b);
  }

  /** A corrected edge writes the same registers from any state whose
      z fields agree. */
  lemma CorrectedRegistersAgree(st: MultState, a: Decomposed, b: Decomposed)
    requires st.Valid() && a.manExt <= 15 && b.manExt <= 15
    requires CorrectedRegularNext(st, a, b).Some?
    ensures var regs := CorrectedRegularNext(st, a, b).value;
      CorrectedRegularNext(regs, a, b) == Some(regs)
  {
  }

  /** With regular operands and a consistent state, one corrected edge
      that does not raise shows `CorrectedValue`, and a second edge with
      the same inputs changes nothing. */
  lemma CorrectedEdgeSettles(st: MultState, a: Decomposed, b: Decomposed)
    requires Consistent(st) && a.manExt <= 15 && b.manExt <= 15 && RegularCase(a, b)
    requires CorrectedEdgeNext(st, false, a, b).Some?
    ensures var n := CorrectedEdgeNext(st, false, a, b).value;
      n.outputZ == CorrectedValue(a, b) && CorrectedEdgeNext(n, false, a, b) == Some(n)
  {
    var regs := CorrectedRegularNext(st, a, b).value;
    var n := Assembled(st, regs);
    assert CorrectedEdgeNext(st, false, a, b) == Some(n);
    CorrectedOutput(st, a, b);
    if SameAssembleInputs(regs, st) {
      AssembleReadsItsInputs(regs, st);
    }
    CorrectedRegistersAgree(st, a, b);
    assert CorrectedRegularNext(n, a, b) == Some(n);
  }

  /** On the input bytes: one corrected edge shows `CorrectedProduct`,
      which the next edge keeps. */
  lemma CorrectedSettlesInOneEdge(st: MultState, x: Byte, y: Byte)
    requires Consistent(st) && Regular(x) && Regular(y)
    requires CorrectedMultiplyNext(st, false, x, y).Some?
    ensures var n := CorrectedMultiplyNext(st, false, x, y).value;
      n.outputZ == CorrectedProduct(x, y) && CorrectedMultiplyNext(n, false, x, y) == Some(n)
  {
    var a, b := DecomposeInputs(x), DecomposeInputs(y);
    assert RegularCase(a, b);
    CorrectedEdgeSettles(st, a, b);
    CorrectedOnBytes(x, y);
  }

  /** A corrected edge on regular operands raises only when the exponent
      sum plus the product's bit 7 reaches 14. */
  lemma CorrectedRaisesOnlyAtTop(st: MultState, x: Byte, y: Byte)
    requires st.Valid() && Regular(x) && Regular(y)
    ensures CorrectedMultiplyNext(st, false, x, y).None?
      <==> ExponentSum(x, y) + (if MantissaProduct(x, y) >= 128 then 1 else 0) >= 14
  {
    var a, b := DecomposeInputs(x), DecomposeInputs(y);
    assert RegularCase(a, b);
    assert AdjustedExp(a) >= -6 && AdjustedExp(b) >= -6;
  }

  /** Below 128 the corrected product is what the as-written multiplier
      settles on after three edges. */
  lemma CorrectedAgreesBelow128(x: Byte, y: Byte)
    requires MantissaProduct(x, y) < 128
    ensures CorrectedProduct(x, y) == SettledProduct(x, y)
  {
  }

  /** The corrected mantissa is the three bits below the product's
      leading bit, truncated: for p in [64, 256) the leading bit and those
      three bits bound p from below, and the next mantissa step from above. */
  lemma NormalizedMantissa(p: nat)
    requires 64 <= p < 256
    ensures p >= 128 ==> (8 + (p / 16) % 8) * 16 <= p < (9 + (p / 16) % 8) * 16
    ensures p < 128 ==> (8 + (p / 8) % 8) * 8 <= p < (9 + (p / 8) % 8) * 8
  {
  }

  /** The multiplier as a clocked block. */
  class Multiplier {
    var st: MultState

    ghost predicate Valid()
      reads this
    {
      st.Valid()
    }

    constructor ()
      ensures Valid() && st == Initial
    {
      st := Initial;
    }

    function OutputZ(): Byte
      reads this
    {
      st.outputZ
    }

    /** One rising edge; `ok` is false where MyHDL raises, and then the
        registers are left as they were. */
    method Tick(rst: bool, inputA: Byte, inputB: Byte) returns (ok: bool)
      requires Valid()
      modifies this
      ensures Valid()
      ensures ok <==> MultiplyNext(old(st), rst, inputA, inputB).Some?
      ensures st == if ok then MultiplyNext(old(st), rst, inputA, inputB).value else old(st)
    {
      var next := MultiplyNext(st, rst, inputA, inputB);
      ok := next.Some?;
      if ok {
        st := next.value;
      }
    }
  }
}
