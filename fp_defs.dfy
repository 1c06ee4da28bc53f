/** The E4M3 8-bit floating-point layout: bit 7 sign, bits 6..3 the
    exponent (bias 7), bits 2..0 the mantissa. */
module FpDefs {
  import opened Bits

  const WIDTH: nat := 8
  const EXP_BITS: nat := 4
  const MAN_BITS: nat := 3
  const EXP_BIAS: nat := 7
  const NAN: nat := 0x7F
  const ZERO: nat := 0x00

  /** An 8-bit bus value. */
  type Byte = x: nat | x < 256

  /** What `extract_components_constants` returns. */
  datatype ComponentConstants = ComponentConstants(signMask: nat, expMask: nat, manMask: nat, expShift: nat)

  function ExtractComponentsConstants(): (c: ComponentConstants)
    ensures c.signMask == 0x80 && c.expMask == 0x78 && c.manMask == 0x07
    ensures c.expShift == MAN_BITS
    // the three masks are pairwise disjoint and together cover the byte
    ensures (c.signMask as bv8) & (c.expMask as bv8) == 0
    ensures (c.signMask as bv8) & (c.manMask as bv8) == 0
    ensures (c.expMask as bv8) & (c.manMask as bv8) == 0
    ensures (c.signMask as bv8) | (c.expMask as bv8) | (c.manMask as bv8) == 0xFF
  {
    SmallPowers();
    ComponentConstants(Pow2(WIDTH - 1), (Pow2(EXP_BITS) - 1) * Pow2(MAN_BITS), Pow2(MAN_BITS) - 1, MAN_BITS)
  }

  lemma WidthIsSumOfFields()
    ensures WIDTH == 1 + EXP_BITS + MAN_BITS
  {
  }

  /** Sign bit (bit 7). */
  function SignOf(b: Byte): (s: nat)
    ensures s <= 1
  {
    b / 128
  }

  /** Exponent field (bits 6..3). */
  function ExpOf(b: Byte): (e: nat)
    ensures e <= 15
  {
    (b / 8) % 16
  }

  /** Mantissa field (bits 2..0). */
  function ManOf(b: Byte): (m: nat)
    ensures m <= 7
  {
    b % 8
  }

  /** Assembles sign, exponent and mantissa fields into a byte. */
  function Pack(s: nat, e: nat, m: nat): Byte
    requires s <= 1 && e <= 15 && m <= 7
  {
    (if s == 1 then 128 else 0) + 8 * e + m
  }

  /** Packing and then extracting gives back each field. */
  lemma PackFields(s: nat, e: nat, m: nat)
    requires s <= 1 && e <= 15 && m <= 7
    ensures SignOf(Pack(s, e, m)) == s && ExpOf(Pack(s, e, m)) == e && ManOf(Pack(s, e, m)) == m
  {
    DivMulAdd(s * 16 + e, 8, m);
    DivMulAdd(s, 16, e);
    DivMulAdd(s, 128, e * 8 + m);
  }

  lemma {:induction false} FieldsDetermineByte(b: Byte)
    ensures Pack(SignOf(b), ExpOf(b), ManOf(b)) == b
  {
    DivMulAdd(b / 8, 8, b % 8);
    DivMulAdd(b / 8 / 16, 16, (b / 8) % 16);
    DivDiv(b, 8, 16);
  }

  /** The zero and infinity patterns by their fields: exponent 0 with
      mantissa 0 is exactly 0x00 or 0x80, exponent 15 with mantissa 0 is
      exactly 0x78 or 0xF8. */
  lemma SpecialPatterns(b: Byte)
    ensures ExpOf(b) == 0 && ManOf(b) == 0 <==> b == 0x00 || b == 0x80
    ensures ExpOf(b) == 15 && ManOf(b) == 0 <==> b == 0x78 || b == 0xF8
  {
    FieldsDetermineByte(b);
    if ExpOf(b) == 0 && ManOf(b) == 0 {
      assert b == Pack(SignOf(b), 0, 0);
    }
    if ExpOf(b) == 15 && ManOf(b) == 0 {
      assert b == Pack(SignOf(b), 15, 0);
    }
  }

  lemma NanAndZeroFields()
    ensures ExpOf(NAN) == 15 && ManOf(NAN) == 7 && SignOf(NAN) == 0
    ensures ExpOf(ZERO) == 0 && ManOf(ZERO) == 0
  {
  }

  /** The masks of `extract_components_constants` select exactly the fields
      of any byte x. */
  lemma MasksSelectFields(x: bv8)
    ensures var c := ExtractComponentsConstants();
      && (x & (c.signMask as bv8)) as nat == SignOf(x as nat) * 128
      && (x & (c.expMask as bv8)) as nat == ExpOf(x as nat) * 8
      && (x & (c.manMask as bv8)) as nat == ManOf(x as nat)
  {
    SignMaskSelects(x);
    ExpMaskSelects(x);
    ManMaskSelects(x);
  }

  lemma SignMaskSelects(x: bv8)
    ensures (x & 0x80) as nat == (x as nat / 128) * 128
  {
  }

  lemma ExpMaskSelects(x: bv8)
    ensures (x & 0x78) as nat == ((x as nat / 8) % 16) * 8
  {
    assert x & 0x78 == ((x >> 3) & 0x0F) << 3;
    assert (x >> 3) as nat == x as nat / 8;
    assert ((x >> 3) & 0x0F) as nat == (x >> 3) as nat % 16;
  }

  lemma ManMaskSelects(x: bv8)
    ensures (x & 0x07) as nat == x as nat % 8
  {
  }
}
