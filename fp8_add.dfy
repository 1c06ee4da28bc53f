/** `fp8_e4m3_add` (src/hdl/components/fp8_e4m3_add.py): an E4M3 adder made
    of four combinational blocks and an output register. Each block is a
    function of the signals it reads. Where a block reads a signal that it
    has itself assigned (`exp_diff`, `final_exp`), the model reads the value
    just assigned, so every block is a plain function of its inputs. */
module Fp8Add {
  import opened Bits
  import opened FpDefs

  /** The signals `extract_components` drives for one operand. */
  datatype Operand = Operand(
    sign: bool, exp: nat, man: nat,
    isZero: bool, isInf: bool, isNan: bool,
    manExt: nat)

  /** Fields, special-case flags and the mantissa extended with the
      implicit bit (`(8 | man) << 2`, or `man << 2` for exponent 0). */
  function ExtractComponents(x: Byte): (o: Operand)
    ensures o.sign <==> SignOf(x) == 1
    ensures o.exp == ExpOf(x) && o.man == ManOf(x)
    ensures o.manExt <= 60
    ensures o.isZero <==> x == 0x00 || x == 0x80
    ensures o.isNan <==> o.exp == 15 && o.man != 0
    ensures o.isInf <==> x == 0x78 || x == 0xF8
  {
    SpecialPatterns(x);
    var exp, man := ExpOf(x), ManOf(x);
    Operand(
      SignOf(x) == 1, exp, man,
      exp == 0 && man == 0, exp == 15 && man == 0, exp == 15 && man != 0,
      if exp == 0 then man * 4 else (8 + man) * 4)
  }

  /** The signals `align_mantissas` drives. */
  datatype Alignment = Alignment(largerExp: nat, expDiff: nat, alignedA: nat, alignedB: nat)

  /** The mantissa of the smaller exponent is shifted right by the exponent
      difference, or cleared when the difference is 8 or more. */
  function AlignMantissas(a: Operand, b: Operand): (al: Alignment)
    ensures al.largerExp == if a.exp >= b.exp then a.exp else b.exp
    ensures al.alignedA <= a.manExt && al.alignedB <= b.manExt
  {
    if a.exp >= b.exp then
      var expDiff := a.exp - b.exp;
      if b.exp == 0 && a.exp == 0 then Alignment(a.exp, expDiff, a.manExt, b.manExt)
      else if expDiff >= 8 then Alignment(a.exp, expDiff, a.manExt, 0)
      else Alignment(a.exp, expDiff, a.manExt, ShiftRight(b.manExt, expDiff))
    else
      var expDiff := b.exp - a.exp;
      if expDiff >= 8 then Alignment(b.exp, expDiff, 0, b.manExt)
      else Alignment(b.exp, expDiff, ShiftRight(a.manExt, expDiff), b.manExt)
  }

  /** x << k. */
  function ShiftLeft(x: nat, k: nat): nat
  {
    x * Pow2(k)
  }

  /** x >> k. */
  function ShiftRight(x: nat, k: nat): (r: nat)
    ensures r <= x
    ensures k == 0 ==> r == x
  {
    DivNonNegative(x, Pow2(k));
    x / Pow2(k)
  }

  /** The signals `add_mantissas` drives: `add_result` and `final_sign`. */
  datatype Sum = Sum(addResult: nat, finalSign: bool)

  /** Same signs add; different signs subtract the smaller aligned mantissa
      from the larger and take the larger one's sign (a's on a tie). */
  function AddMantissas(a: Operand, b: Operand, al: Alignment): (s: Sum)
    ensures a.sign == b.sign ==> s.addResult == al.alignedA + al.alignedB
    ensures a.sign != b.sign ==> s.addResult + Min(al.alignedA, al.alignedB) == Max(al.alignedA, al.alignedB)
  {
    if a.sign == b.sign then Sum(al.alignedA + al.alignedB, a.sign)
    else if al.alignedA >= al.alignedB then Sum(al.alignedA - al.alignedB, a.sign)
    else Sum(al.alignedB - al.alignedA, b.sign)
  }

  /** The signals `final_exp` and `final_man` from `normalize_and_round`. */
  datatype Rounded = Rounded(exp: nat, man: nat)

  /** `normalize_and_round`. The leading-one search starts at bit 7 and
      the normalising shift brings the leading one to bit 7, while the
      mantissa is read from bits 4..2 of the shifted sum (as written). */
  function NormalizeAndRound(addResult: nat, largerExp: nat): (r: Rounded)
    requires largerExp <= 15
    ensures r.man <= 7
    ensures addResult < 128 ==> r.exp <= 15
    ensures addResult == 0 ==> r == Rounded(0, 0)
  {
    if addResult == 0 then Rounded(0, 0)
    else if Bit(addResult, 8) then CarryOut(addResult, largerExp)
    else
      LeadBelowSeven(addResult);
      var leadPos := LeadingOne(addResult, 7);
      if leadPos < 0 then Rounded(0, 0)
      else
        var shiftLeft := 7 - leadPos;
        if largerExp <= shiftLeft then
          if largerExp == 0 then Rounded(0, (addResult / 4) % 8)
          else Rounded(0, (ShiftLeft(addResult, largerExp) / 4) % 8)
        else
          var finalExp := largerExp - shiftLeft;
          var shifted := ShiftLeft(addResult, shiftLeft);
          var guard, roundBit, sticky := Bit(shifted, 2), Bit(shifted, 1), Bit(shifted, 0);
          var tempMan := (shifted / 4) % 8;
          if roundBit && (sticky || guard) then
            if tempMan == 7 && finalExp == 14 then Rounded(15, 0)
            else if tempMan == 7 then Rounded(finalExp + 1, 0)
            else Rounded(finalExp, tempMan + 1)
          else Rounded(finalExp, tempMan)
  }

  /** The branch for a carry into bit 8 of `add_result`. */
  function CarryOut(addResult: nat, largerExp: nat): (r: Rounded)
    ensures r.exp <= 15 && r.man <= 7
  {
    if largerExp >= 14 then Rounded(15, 0)
    else
      var finalExp := largerExp + 1;
      var guard, roundBit, sticky := Bit(addResult, 2), Bit(addResult, 1), Bit(addResult, 0);
      var tempMan := (addResult / 8) % 8;
      if roundBit && (sticky || guard) then
        if tempMan == 7 then
          var carried := finalExp + 1;
          if carried == 15 then Rounded(15, 0) else Rounded(carried, 0)
        else Rounded(finalExp, tempMan + 1)
      else Rounded(finalExp, tempMan)
  }

  /** The position of the highest set bit at or below `pos`, or -1 when
      none is set: the countdown `while lead_pos >= 0 and not
      add_result[lead_pos]`. */
  function LeadingOne(x: nat, pos: int): (p: int)
    requires pos >= -1
    ensures -1 <= p <= pos
    ensures p >= 0 ==> Bit(x, p)
    ensures forall k: nat | p < k <= pos :: !Bit(x, k)
    decreases pos + 1
  {
    if pos >= 0 && !Bit(x, pos) then LeadingOne(x, pos - 1) else pos
  }

  /** Below 128 the leading one is at most bit 6. */
  lemma LeadBelowSeven(x: nat)
    ensures x < 128 ==> LeadingOne(x, 7) <= 6
  {
    if x < 128 {
      SmallPowers();
      BitAboveClear(x, 7);
    }
  }

  /** The leading-one loop of `normalize_and_round`. */
  method LeadingOnePosition(addResult: nat) returns (leadPos: int)
    ensures leadPos == LeadingOne(addResult, 7)
  {
    leadPos := 7;
    while leadPos >= 0 && !Bit(addResult, leadPos)
      invariant -1 <= leadPos <= 7
      invariant LeadingOne(addResult, leadPos) == LeadingOne(addResult, 7)
      decreases leadPos + 1
    {
      leadPos := leadPos - 1;
    }
  }

  /** `handle_special_cases`, in its order of precedence. */
  function HandleSpecialCases(inputA: Byte, inputB: Byte, a: Operand, b: Operand, s: Sum, r: Rounded): Byte
    requires r.exp <= 15 && r.man <= 7
  {
    if a.isNan || b.isNan || (a.isInf && b.isInf && a.sign != b.sign) then 0xFC
    else if a.isInf then Pack(if a.sign then 1 else 0, 15, 0)
    else if b.isInf then Pack(if b.sign then 1 else 0, 15, 0)
    else if a.isZero && b.isZero then (if a.sign && b.sign then 0x80 else 0x00)
    else if a.isZero then inputB
    else if b.isZero then inputA
    else if s.addResult == 0 then 0x00
    else Pack(if s.finalSign then 1 else 0, r.exp, r.man)
  }

  /** The settled combinational result for the inputs a and b. */
  function Add(inputA: Byte, inputB: Byte): Byte
  {
    var a, b := ExtractComponents(inputA), ExtractComponents(inputB);
    var al := AlignMantissas(a, b);
    var s := AddMantissas(a, b, al);
    SumBound(a, b, al, s);
    HandleSpecialCases(inputA, inputB, a, b, s, NormalizeAndRound(s.addResult, al.largerExp))
  }

  /** The sum of two aligned mantissas is at most 0b1111000. */
  lemma SumBound(a: Operand, b: Operand, al: Alignment, s: Sum)
    requires a.manExt <= 60 && b.manExt <= 60
    requires al.alignedA <= a.manExt && al.alignedB <= b.manExt
    requires s == AddMantissas(a, b, al)
    ensures s.addResult <= 120
  {
  }

  predicate IsNan(x: Byte)
  {
    ExpOf(x) == 15 && ManOf(x) != 0
  }

  predicate IsInf(x: Byte)
  {
    x == 0x78 || x == 0xF8
  }

  predicate IsZero(x: Byte)
  {
    x == 0x00 || x == 0x80
  }

  /** A NaN operand, or infinities of opposite signs, give 0xFC. */
  lemma NanResult(x: Byte, y: Byte)
    requires IsNan(x) || IsNan(y) || (IsInf(x) && IsInf(y) && x != y)
    ensures Add(x, y) == 0xFC
  {
    var a, b := ExtractComponents(x), ExtractComponents(y);
    if !IsNan(x) && !IsNan(y) {
      assert a.isInf && b.isInf && a.sign != b.sign;
    }
  }

  /** Otherwise an infinite operand gives that infinity, a's before b's. */
  lemma InfinityResult(x: Byte, y: Byte)
    requires !IsNan(x) && !IsNan(y) && !(IsInf(x) && IsInf(y) && x != y)
    ensures IsInf(x) ==> Add(x, y) == x
    ensures !IsInf(x) && IsInf(y) ==> Add(x, y) == y
  {
  }

  /** Zero plus zero is -0 only when both are -0. */
  lemma ZeroPlusZero(x: Byte, y: Byte)
    requires IsZero(x) && IsZero(y)
    ensures Add(x, y) == if x == 0x80 && y == 0x80 then 0x80 else 0x00
  {
    var a, b := ExtractComponents(x), ExtractComponents(y);
    assert a.isZero && b.isZero;
    assert a.sign <==> x == 0x80;
    assert b.sign <==> y == 0x80;
    assert !a.isNan && !b.isNan && !a.isInf && !b.isInf;
  }

  /** Adding a zero to a number that is neither NaN, infinite nor zero
      returns it bit for bit, on either side. */
  lemma ZeroIdentity(z: Byte, x: Byte)
    requires IsZero(z) && !IsNan(x) && !IsInf(x) && !IsZero(x)
    ensures Add(z, x) == x && Add(x, z) == x
  {
  }

  /** A finite non-zero number plus its negation cancels to +0. */
  lemma Cancellation(x: Byte)
    requires ExpOf(x) < 15 && !IsZero(x)
    ensures Add(x, Negate(x)) == 0x00
  {
    var y := Negate(x);
    assert ExpOf(y) == ExpOf(x) && ManOf(y) == ManOf(x) && SignOf(y) != SignOf(x);
  }

  /** x with its sign bit flipped. */
  function Negate(x: Byte): (y: Byte)
    ensures ExpOf(y) == ExpOf(x) && ManOf(y) == ManOf(x) && SignOf(y) == 1 - SignOf(x)
  {
    PackFields(1 - SignOf(x), ExpOf(x), ManOf(x));
    Pack(1 - SignOf(x), ExpOf(x), ManOf(x))
  }

  /** The aligned sum never carries into bit 8, nor even reaches bit 7, so
      the carry branch of `normalize_and_round` is dead and the leading-one
      search never finds bit 7. */
  lemma CarryUnreachable(x: Byte, y: Byte)
    ensures var a, b := ExtractComponents(x), ExtractComponents(y);
      var s := AddMantissas(a, b, AlignMantissas(a, b));
      s.addResult < 128 && !Bit(s.addResult, 8) && !Bit(s.addResult, 7)
  {
    var a, b := ExtractComponents(x), ExtractComponents(y);
    var s := AddMantissas(a, b, AlignMantissas(a, b));
    SumBound(a, b, AlignMantissas(a, b), s);
    SmallBitsClear(s.addResult);
  }

  lemma SmallBitsClear(v: nat)
    requires v < 128
    ensures !Bit(v, 8) && !Bit(v, 7)
  {
    SmallPowers();
    assert Pow2(8) == 256;
  }

  /** Swapping the operands swaps the aligned mantissas and keeps the
      larger exponent and the difference. */
  lemma AlignSwap(a: Operand, b: Operand)
    ensures var al, la := AlignMantissas(a, b), AlignMantissas(b, a);
      la == Alignment(al.largerExp, al.expDiff, al.alignedB, al.alignedA)
  {
  }

  /** Swapping the operands keeps `add_result`, and `final_sign` too unless
      the result is zero. */
  lemma AddSwap(a: Operand, b: Operand)
    ensures var s, t := AddMantissas(a, b, AlignMantissas(a, b)), AddMantissas(b, a, AlignMantissas(b, a));
      s.addResult == t.addResult && (s.addResult != 0 ==> s.finalSign == t.finalSign)
  {
    AlignSwap(a, b);
  }

  /** The adder is commutative, bit for bit, on all 65536 input pairs. */
  lemma Commutative(x: Byte, y: Byte)
    ensures Add(x, y) == Add(y, x)
  {
    var a, b := ExtractComponents(x), ExtractComponents(y);
    AlignSwap(a, b);
    AddSwap(a, b);
  }

  /** `reg_output`: the registered output of the adder. */
  class Adder {
    var outputZ: Byte

    constructor ()
      ensures outputZ == 0
    {
      outputZ := 0;
    }

    /** One rising edge: reset clears the output, otherwise it takes the
        combinational sum of the inputs. */
    method Tick(rst: bool, inputA: Byte, inputB: Byte)
      modifies this
      ensures outputZ == if rst then 0 else Add(inputA, inputB)
    {
      if rst {
        outputZ := 0;
      } else {
        outputZ := Add(inputA, inputB);
      }
    }
  }
}
