/** Python's binary strings as the converter uses them: `format(x, "0wb")`
    and `int(s, 2)`. */
module BitStrings {
  import opened Bits

  /** A string of '0' and '1' characters. */
  predicate IsBinary(s: string)
  {
    forall i | 0 <= i < |s| :: s[i] == '0' || s[i] == '1'
  }

  /** The value of one binary character. */
  function BitValue(c: char): nat
  {
    if c == '1' then 1 else 0
  }

  /** Python's `int(s, 2)`. */
  function BinVal(s: string): nat
  {
    if s == [] then 0 else 2 * BinVal(s[..|s| - 1]) + BitValue(s[|s| - 1])
  }

  /** Python's `format(x, "0wb")` for an x that fits in w bits (every call
      in the converter does): the w low bits of x, most significant first. */
  function Format(x: nat, w: nat): (s: string)
    ensures |s| == w
  {
    if w == 0 then "" else Format(x / 2, w - 1) + Digit(x)
  }

  /** The low bit of x as a one-character string. */
  function Digit(x: nat): string
  {
    if x % 2 == 1 then "1" else "0"
  }

  lemma {:induction false} BinValFormat(x: nat, w: nat)
    requires x < Pow2(w)
    ensures BinVal(Format(x, w)) == x
  {
    if w > 0 {
      var s := Format(x, w);
      var prefix := Format(x / 2, w - 1);
      assert s == prefix + Digit(x);
      assert s[..w - 1] == prefix;
      assert BitValue(s[w - 1]) == x % 2;
      assert BinVal(s) == 2 * BinVal(prefix) + x % 2;
      assert x / 2 < Pow2(w - 1);
      BinValFormat(x / 2, w - 1);
    }
  }

  lemma {:induction false} BinValBound(s: string)
    ensures BinVal(s) < Pow2(|s|)
  {
    if s != [] {
      BinValBound(s[..|s| - 1]);
    }
  }

  lemma {:induction false} FormatBinVal(s: string)
    requires IsBinary(s)
    ensures Format(BinVal(s), |s|) == s
  {
    if s != [] {
      var prefix := s[..|s| - 1];
      assert IsBinary(prefix);
      FormatBinVal(prefix);
      var v := BinVal(s);
      assert v / 2 == BinVal(prefix) && v % 2 == BitValue(s[|s| - 1]);
      assert s == prefix + [s[|s| - 1]];
    }
  }

  /** hi shifted left by k bits, hi * 2^k, kept free of products. */
  function Shl(hi: nat, k: nat): nat
  {
    if k == 0 then hi else 2 * Shl(hi, k - 1)
  }

  lemma ShlSmall(x: nat)
    ensures Shl(x, 3) == 8 * x && Shl(x, 4) == 16 * x
  {
    assert Shl(x, 1) == 2 * x;
    assert Shl(x, 2) == 4 * x;
  }

  /** Formatting hi * 2^k + lo (lo below 2^k) in a + k bits writes hi in
      a bits, then lo in k bits. */
  lemma {:induction false} FormatConcat(hi: nat, lo: nat, a: nat, k: nat)
    requires lo < Pow2(k)
    ensures Format(Shl(hi, k) + lo, a + k) == Format(hi, a) + Format(lo, k)
  {
    if k == 0 {
      assert lo == 0;
    } else {
      var x := Shl(hi, k) + lo;
      var y := Shl(hi, k - 1) + lo / 2;
      assert x / 2 == y && x % 2 == lo % 2;
      FormatConcat(hi, lo / 2, a, k - 1);
      var h, l := Format(hi, a), Format(lo / 2, k - 1);
      assert Format(y, a + (k - 1)) == h + l;
      assert Format(x, a + k) == (h + l) + Digit(lo);
      assert Format(lo, k) == l + Digit(lo);
      ConcatAssoc(h, l, Digit(lo));
    }
  }

  /** FormatConcat for a value already known to be hi * 2^k + lo. */
  lemma FormatSplitAt(x: nat, hi: nat, lo: nat, a: nat, k: nat)
    requires x == Shl(hi, k) + lo && lo < Pow2(k)
    ensures Format(x, a + k) == Format(hi, a) + Format(lo, k)
  {
    FormatConcat(hi, lo, a, k);
  }

  lemma ConcatAssoc(x: string, y: string, z: string)
    ensures (x + y) + z == x + (y + z)
  {
  }
}
