/** Unsigned bit-field arithmetic on naturals, the way MyHDL's `intbv`
    slices read and write them: `x[hi:lo]` is `Slice(x, hi, lo)`. */
module Bits {

  /** 2 to the power n. */
  function Pow2(n: nat): (r: nat)
    ensures r >= 1
    ensures n >= 1 ==> r >= 2
  {
    if n == 0 then 1 else 2 * Pow2(n - 1)
  }

  lemma {:induction false} Pow2Add(a: nat, b: nat)
    ensures Pow2(a + b) == Pow2(a) * Pow2(b)
  {
    if a > 0 {
      Pow2Add(a - 1, b);
      DoubleProduct(Pow2(a - 1), Pow2(b));
    }
  }

  lemma DoubleProduct(p: nat, q: nat)
    ensures 2 * (p * q) == (2 * p) * q
  {
  }

  lemma {:induction false} Pow2Monotone(a: nat, b: nat)
    requires a <= b
    ensures Pow2(a) <= Pow2(b)
  {
    if a < b {
      Pow2Monotone(a, b - 1);
    }
  }

  /** Bits hi-1 .. lo of x, as the MyHDL slice `x[hi:lo]`. */
  function Slice(x: nat, hi: nat, lo: nat): (r: nat)
    requires lo <= hi
    ensures r < Pow2(hi - lo)
  {
    (x / Pow2(lo)) % Pow2(hi - lo)
  }

  /** Bit i of x, as the MyHDL index `x[i]`. */
  predicate Bit(x: nat, i: nat)
  {
    (x / Pow2(i)) % 2 == 1
  }

  /** A value below 2^i has bit i clear. */
  lemma BitAboveClear(x: nat, i: nat)
    requires x < Pow2(i)
    ensures !Bit(x, i)
  {
    DivMulAdd(0, Pow2(i), x);
  }

  lemma DivMulAdd(q: nat, p: nat, r: nat)
    requires p >= 1 && r < p
    ensures (q * p + r) / p == q && (q * p + r) % p == r
  {
    var x := q * p + r;
    var qq, rr := x / p, x % p;
    assert qq * p + rr == q * p + r;
    if qq > q {
      assert qq * p >= (q + 1) * p by { MulRightMonotone(q + 1, qq, p); }
      assert false;
    } else if qq < q {
      assert q * p >= (qq + 1) * p by { MulRightMonotone(qq + 1, q, p); }
      assert false;
    }
  }

  lemma MulRightMonotone(a: nat, b: nat, p: nat)
    requires a <= b
    ensures a * p <= b * p
  {
  }

  lemma {:induction false} DivDiv(x: nat, p: nat, q: nat)
    requires p >= 1 && q >= 1
    ensures x / p / q == x / (p * q)
  {
    var a := x / p;
    var b := a / q;
    var c := a % q;
    var d := x % p;
    assert x == a * p + d;
    assert a == b * q + c;
    Regroup(b, q, c, p, d);
    DigitBound(c, q, p, d);
    DivMulAdd(b, p * q, c * p + d);
  }

  lemma Regroup(b: nat, q: nat, c: nat, p: nat, d: nat)
    ensures (b * q + c) * p + d == b * (p * q) + (c * p + d)
  {
  }

  lemma DigitBound(c: nat, q: nat, p: nat, d: nat)
    requires c < q && d < p
    ensures c * p + d < p * q
  {
    MulRightMonotone(c + 1, q, p);
  }

  /** Packing little-endian fields of width w: element k sits at bits
      [(k+1)*w : k*w], which is what `concat(*reversed(xs))` builds. */
  function PackLanes(xs: seq<nat>, w: nat): nat
  {
    if xs == [] then 0 else xs[0] + Pow2(w) * PackLanes(xs[1..], w)
  }

  predicate Fits(xs: seq<nat>, w: nat)
  {
    forall k :: 0 <= k < |xs| ==> xs[k] < Pow2(w)
  }

  lemma {:induction false} PackLanesBound(xs: seq<nat>, w: nat)
    requires Fits(xs, w)
    ensures PackLanes(xs, w) < Pow2(|xs| * w)
  {
    if xs != [] {
      assert Fits(xs[1..], w);
      PackLanesBound(xs[1..], w);
      PackLanesStep(xs[0], PackLanes(xs[1..], w), Pow2(w), Pow2((|xs| - 1) * w));
      MulSplit(|xs|, w);
      Pow2Add(w, (|xs| - 1) * w);
    }
  }

  lemma PackLanesStep(x: nat, rest: nat, a: nat, b: nat)
    requires x < a && rest < b
    ensures x + a * rest < a * b
  {
    MulLeftMonotone(a, rest + 1, b);
    MulSucc(a, rest);
  }

  lemma MulSucc(a: nat, r: nat)
    ensures a * (r + 1) == a * r + a
  {
  }

  lemma MulLeftMonotone(p: nat, a: nat, b: nat)
    requires a <= b
    ensures p * a <= p * b
  {
  }

  /** Dividing a packed word by 2^(k*w) drops its first k fields. */
  lemma {:induction false} PackLanesShift(xs: seq<nat>, w: nat, k: nat)
    requires Fits(xs, w) && k <= |xs|
    ensures PackLanes(xs, w) / Pow2(k * w) == PackLanes(xs[k..], w)
  {
    if k == 0 {
      assert xs[0..] == xs;
    } else {
      var rest := PackLanes(xs[1..], w);
      PackLanesHead(xs, w);
      assert Fits(xs[1..], w);
      PackLanesShift(xs[1..], w, k - 1);
      assert xs[1..][k - 1..] == xs[k..];
      MulSplit(k, w);
      Pow2Add(w, (k - 1) * w);
      DivDiv(PackLanes(xs, w), Pow2(w), Pow2((k - 1) * w));
    }
  }

  lemma PackLanesHead(xs: seq<nat>, w: nat)
    requires Fits(xs, w) && xs != []
    ensures PackLanes(xs, w) / Pow2(w) == PackLanes(xs[1..], w)
    ensures PackLanes(xs, w) % Pow2(w) == xs[0]
  {
    assert xs[0] < Pow2(w);
    DivMulAdd(PackLanes(xs[1..], w), Pow2(w), xs[0]);
  }

  lemma MulSplit(k: nat, w: nat)
    requires k >= 1
    ensures k * w == w + (k - 1) * w
  {
  }

  /** Reading back field k of a packed word recovers element k. */
  lemma SliceOfPackLanes(xs: seq<nat>, w: nat, k: nat)
    requires Fits(xs, w) && k < |xs|
    ensures Slice(PackLanes(xs, w), (k + 1) * w, k * w) == xs[k]
  {
    assert (k + 1) * w - k * w == w;
    PackLanesShift(xs, w, k);
    PackLanesHead(xs[k..], w);
  }

  /** Every field of a packed word reads back its element. */
  lemma SlicesOfPackLanes(xs: seq<nat>, w: nat)
    requires Fits(xs, w)
    ensures forall k | 0 <= k < |xs| :: Slice(PackLanes(xs, w), (k + 1) * w, k * w) == xs[k]
  {
    forall k | 0 <= k < |xs|
      ensures Slice(PackLanes(xs, w), (k + 1) * w, k * w) == xs[k]
    {
      MulSplit(k + 1, w);
      SliceOfPackLanes(xs, w, k);
    }
  }

  /** i * w, built by repeated addition so that lane arithmetic stays
      linear. */
  function Offset(i: nat, w: nat): nat
  {
    if i == 0 then 0 else Offset(i - 1, w) + w
  }

  lemma {:induction false} OffsetIsProduct(i: nat, w: nat)
    ensures Offset(i, w) == i * w
  {
    if i > 0 {
      OffsetIsProduct(i - 1, w);
      MulSplit(i, w);
    }
  }

  /** Field i of width w of a bus: the MyHDL slice `x[(i+1)*w : i*w]`
      (OffsetIsProduct). */
  function Lane(x: nat, i: nat, w: nat): (r: nat)
    ensures r < Pow2(w)
  {
    Slice(x, Offset(i + 1, w), Offset(i, w))
  }

  /** Lane i is the slice with the product bounds as the source writes them. */
  lemma LaneIsSlice(x: nat, i: nat, w: nat)
    ensures Lane(x, i, w) == Slice(x, (i + 1) * w, i * w)
  {
    OffsetIsProduct(i, w);
    OffsetIsProduct(i + 1, w);
  }

  /** Every field of 0 is 0. */
  lemma LaneOfZero(i: nat, w: nat)
    ensures Lane(0, i, w) == 0
  {
    DivMulAdd(0, Pow2(Offset(i, w)), 0);
    DivMulAdd(0, Pow2(Offset(i + 1, w) - Offset(i, w)), 0);
  }

  /** The k low bits of field i, as the MyHDL slice
      `x[i*w + k : i*w]` reads them. */
  lemma LowBitsOfLane(x: nat, i: nat, w: nat, k: nat)
    requires k <= w
    ensures Slice(x, Offset(i, w) + k, Offset(i, w)) == Lane(x, i, w) % Pow2(k)
  {
    var o, hi := Offset(i, w), Offset(i + 1, w);
    assert hi == o + w;
    assert Lane(x, i, w) == Slice(x, hi, o);
    LowBitsAt(x, o, hi, w, k);
  }

  /** The k low bits of the w-bit field starting at bit o. */
  lemma LowBitsAt(x: nat, o: nat, hi: nat, w: nat, k: nat)
    requires k <= w && hi == o + w
    ensures Slice(x, o + k, o) == Slice(x, hi, o) % Pow2(k)
  {
    var y := x / Pow2(o);
    assert Slice(x, o + k, o) == y % Pow2(k);
    assert Slice(x, hi, o) == y % Pow2(w);
    LowBitsOfPow2(y, w, k);
  }

  /** The k low bits of y survive a reduction to w >= k bits. */
  lemma LowBitsOfPow2(y: nat, w: nat, k: nat)
    requires k <= w
    ensures (y % Pow2(w)) % Pow2(k) == y % Pow2(k)
  {
    Pow2Add(k, w - k);
    assert k + (w - k) == w;
    LowDigits(y, Pow2(k), Pow2(w - k), Pow2(w));
  }

  /** The low digits of x in base p survive a reduction mod pq = p * q. */
  lemma LowDigits(x: nat, p: nat, q: nat, pq: nat)
    requires p >= 1 && q >= 1 && pq == p * q
    ensures (x % pq) % p == x % p
  {
    ModSplit(x, p, q);
    var c := (x / p) % q;
    assert p * c == c * p;
    DivMulAdd(c, p, x % p);
  }

  /** The n fields of width w of a bus. */
  function Lanes(x: nat, n: nat, w: nat): (s: seq<nat>)
    ensures |s| == n
    ensures Fits(s, w)
  {
    seq(n, i requires 0 <= i < n => Lane(x, i, w))
  }

  /** Slicing a packed word field by field gives back the packed elements. */
  lemma LanesOfPackLanes(xs: seq<nat>, w: nat)
    requires Fits(xs, w)
    ensures Lanes(PackLanes(xs, w), |xs|, w) == xs
  {
    forall k | 0 <= k < |xs|
      ensures Lanes(PackLanes(xs, w), |xs|, w)[k] == xs[k]
    {
      OffsetIsProduct(k, w);
      OffsetIsProduct(k + 1, w);
      SliceOfPackLanes(xs, w, k);
    }
  }

  /** x shifted right by k bits. */
  function Shr(x: nat, k: nat): nat
  {
    DivNonNegative(x, Pow2(k));
    x / Pow2(k)
  }

  /** `x >> k` stays at or below x. */
  lemma ShrAtMost(x: nat, k: nat)
    ensures Shr(x, k) <= x
  {
    var q, p := Shr(x, k), Pow2(k);
    DivMulAdd(q, p, x % p);
    MulRightMonotone(1, p, q);
  }

  lemma DivNonNegative(x: nat, p: nat)
    requires p >= 1
    ensures x / p >= 0
  {
    var q, r := x / p, x % p;
    assert q * p + r == x;
    NegativeProduct(q, p);
  }

  lemma NegativeProduct(q: int, p: nat)
    ensures q < 0 ==> q * p + p <= 0
  {
  }

  /** Packing the n fields of a bus gives back its n * w low bits. */
  lemma {:induction false} PackLanesOfLanes(x: nat, n: nat, w: nat)
    ensures PackLanes(Lanes(x, n, w), w) == x % Pow2(Offset(n, w))
  {
    if n == 0 {
      assert Lanes(x, n, w) == [];
    } else {
      LanesTail(x, n, w);
      LaneZero(x, w);
      PackLanesOfLanes(Shr(x, w), n - 1, w);
      LowBitsSplit(x, n, w);
    }
  }

  /** The fields of a bus after the first are the fields of the bus
      shifted right by one field. */
  lemma LanesTail(x: nat, n: nat, w: nat)
    requires n >= 1
    ensures Lanes(x, n, w)[1..] == Lanes(Shr(x, w), n - 1, w)
  {
    var s := Lanes(x, n, w);
    var rest := Lanes(Shr(x, w), n - 1, w);
    forall k | 0 <= k < n - 1
      ensures s[1..][k] == rest[k]
    {
      LaneShift(x, w, k);
    }
  }

  /** The n * w low bits of x are its w low bits below the (n - 1) * w low
      bits of x shifted right by w. */
  lemma LowBitsSplit(x: nat, n: nat, w: nat)
    requires n >= 1
    ensures x % Pow2(Offset(n, w)) == x % Pow2(w) + Pow2(w) * (Shr(x, w) % Pow2(Offset(n - 1, w)))
  {
    var m := Offset(n - 1, w);
    assert Offset(n, w) == w + m;
    Pow2Add(w, m);
    ModSplit(x, Pow2(w), Pow2(m));
  }

  lemma LaneZero(x: nat, w: nat)
    ensures Lane(x, 0, w) == x % Pow2(w)
  {
    assert Offset(1, w) == w;
  }

  /** Field k + 1 of x is field k of x shifted right by w bits. */
  lemma LaneShift(x: nat, w: nat, k: nat)
    ensures Lane(x, k + 1, w) == Lane(Shr(x, w), k, w)
  {
    var lo := Offset(k, w);
    OffsetShift(k, w);
    assert Lane(x, k + 1, w) == (x / Pow2(w + lo)) % Pow2(w);
    Pow2Add(w, lo);
    DivDiv(x, Pow2(w), Pow2(lo));
  }

  lemma {:induction false} OffsetShift(k: nat, w: nat)
    ensures Offset(k + 1, w) == w + Offset(k, w)
  {
  }

  lemma ModSmall(x: nat, p: nat)
    requires x < p
    ensures x % p == x
  {
    DivMulAdd(0, p, x);
  }

  /** x mod (p * q) from x mod p and (x / p) mod q. */
  lemma ModSplit(x: nat, p: nat, q: nat)
    requires p >= 1 && q >= 1
    ensures x % (p * q) == x % p + p * ((x / p) % q)
  {
    var a, d := x / p, x % p;
    var b, c := a / q, a % q;
    assert x == a * p + d;
    assert a == b * q + c;
    Regroup(b, q, c, p, d);
    DigitBound(c, q, p, d);
    DivMulAdd(b, p * q, c * p + d);
    assert c * p == p * c;
  }

  /** Bitwise OR of two naturals, bit by bit from the least significant. */
  function BitOr(a: nat, b: nat): (r: nat)
    ensures r <= a + b
    decreases a + b
  {
    if a == 0 then b
    else if b == 0 then a
    else (if a % 2 == 1 || b % 2 == 1 then 1 else 0) + 2 * BitOr(a / 2, b / 2)
  }

  /** OR-ing a value below 2^k into a multiple of 2^k is addition. */
  lemma {:induction false} BitOrDisjoint(h: nat, l: nat, k: nat)
    requires l < Pow2(k)
    ensures BitOr(h * Pow2(k), l) == h * Pow2(k) + l
  {
    if k > 0 && h * Pow2(k) != 0 && l != 0 {
      var p := Pow2(k - 1);
      assert h * Pow2(k) == 2 * (h * p);
      assert (h * Pow2(k)) / 2 == h * p;
      assert (h * Pow2(k)) % 2 == 0;
      BitOrDisjoint(h, l / 2, k - 1);
    }
  }

  /** OR-ing the value 1 sets bit 0: odd numbers are unchanged. */
  lemma BitOrOne(e: nat)
    ensures BitOr(e, 1) == if e % 2 == 1 then e else e + 1
  {
    if e != 0 {
      assert BitOr(e, 1) == 1 + 2 * BitOr(e / 2, 0);
    }
  }

  lemma BitOrDouble(x: nat, y: nat)
    ensures BitOr(2 * x, 2 * y) == 2 * BitOr(x, y)
  {
    if x != 0 && y != 0 {
      assert (2 * x) / 2 == x && (2 * y) / 2 == y;
    }
  }

  /** OR-ing 8 into a multiple of 8 sets bit 3 of it. */
  lemma BitOrEight(e: nat)
    ensures BitOr(e * 8, 8) == BitOr(e, 1) * 8
  {
    BitOrDouble(4 * e, 4);
    BitOrDouble(2 * e, 2);
    BitOrDouble(e, 1);
  }

  /** m * 2^k for any integer k, built from doublings and halvings so
      that every step stays linear in m. */
  function Ldexp(m: real, k: int): (r: real)
    ensures m > 0.0 ==> r > 0.0
    ensures m == 0.0 ==> r == 0.0
    decreases if k < 0 then -k else k
  {
    if k == 0 then m
    else if k > 0 then 2.0 * Ldexp(m, k - 1)
    else Ldexp(m, k + 1) / 2.0
  }

  lemma LdexpStep(m: real, k: int)
    ensures Ldexp(m, k + 1) == 2.0 * Ldexp(m, k)
  {
  }

  /** Scaling distributes over addition. */
  lemma {:induction false} LdexpAdd(a: real, b: real, k: int)
    ensures Ldexp(a + b, k) == Ldexp(a, k) + Ldexp(b, k)
    decreases if k < 0 then -k else k
  {
    if k > 0 {
      LdexpAdd(a, b, k - 1);
    } else if k < 0 {
      LdexpAdd(a, b, k + 1);
    }
  }

  lemma LdexpDouble(m: real, k: int)
    ensures Ldexp(2.0 * m, k) == 2.0 * Ldexp(m, k)
    ensures Ldexp(m, k) == Ldexp(2.0 * m, k - 1)
  {
    LdexpAdd(m, m, k);
    assert m + m == 2.0 * m;
    LdexpStep(2.0 * m, k - 1);
    LdexpAdd(m, m, k - 1);
    LdexpStep(m, k - 1);
  }

  /** Scaling by 2^k preserves order. */
  lemma {:induction false} LdexpMonotone(a: real, b: real, k: int)
    requires a <= b
    ensures Ldexp(a, k) <= Ldexp(b, k)
    ensures a < b ==> Ldexp(a, k) < Ldexp(b, k)
    decreases if k < 0 then -k else k
  {
    if k > 0 {
      LdexpMonotone(a, b, k - 1);
    } else if k < 0 {
      LdexpMonotone(a, b, k + 1);
    }
  }

  /** For a positive m, a larger exponent gives a larger value. */
  lemma {:induction false} LdexpExpMonotone(m: real, j: int, k: int)
    requires m > 0.0 && j <= k
    ensures Ldexp(m, j) <= Ldexp(m, k)
    decreases k - j
  {
    if j < k {
      LdexpExpMonotone(m, j, k - 1);
      LdexpStep(m, k - 1);
    }
  }

  /** Scaling twice adds the exponents. */
  lemma {:induction false} LdexpLdexp(a: real, j: int, k: int)
    ensures Ldexp(Ldexp(a, j), k) == Ldexp(a, j + k)
    decreases if k < 0 then -k else k
  {
    if k > 0 {
      LdexpLdexp(a, j, k - 1);
      LdexpStep(a, j + k - 1);
    } else if k < 0 {
      LdexpLdexp(a, j, k + 1);
      LdexpStep(a, j + k);
    }
  }

  lemma {:induction false} LdexpOfNat(k: nat)
    ensures Ldexp(1.0, k) == Pow2(k) as real
  {
    if k > 0 {
      LdexpOfNat(k - 1);
    }
  }

  lemma LdexpEight(x: real)
    ensures Ldexp(x, 3) == 8.0 * x
  {
    LdexpStep(x, 0);
    LdexpStep(x, 1);
    LdexpStep(x, 2);
  }

  lemma LdexpSixtyFour(x: real)
    ensures Ldexp(x, 6) == 64.0 * x
    ensures Ldexp(x, -6) * 64.0 == x
  {
    LdexpEight(x);
    LdexpLdexp(x, 3, 3);
    LdexpEight(Ldexp(x, 3));
    LdexpLdexp(x, -6, 6);
    LdexpEight(Ldexp(x, -6));
    LdexpLdexp(x, -6, 3);
    LdexpEight(Ldexp(x, -3));
    LdexpLdexp(x, -3, 3);
  }

  lemma LdexpSmall()
    ensures Ldexp(1.0, 7) == 128.0 && Ldexp(1.0, 8) == 256.0
  {
    assert Ldexp(1.0, 2) == 4.0;
    assert Ldexp(1.0, 4) == 16.0;
    assert Ldexp(1.0, 6) == 64.0;
  }

  lemma SmallPowers()
    ensures Pow2(3) == 8 && Pow2(4) == 16 && Pow2(7) == 128 && Pow2(8) == 256
  {
    assert Pow2(2) == 4;
    assert Pow2(3) == 8;
    assert Pow2(4) == 16;
    assert Pow2(5) == 32;
    assert Pow2(6) == 64;
    assert Pow2(7) == 128;
  }

  function Abs(x: real): (r: real)
    ensures r >= 0.0 && (r == x || r == -x)
  {
    if x < 0.0 then -x else x
  }

  /** Python's `min` and `max` of two integers. */
  function Min(a: int, b: int): int
  {
    if a <= b then a else b
  }

  function Max(a: int, b: int): int
  {
    if a >= b then a else b
  }

  /** A sign and a magnitude as an integer. */
  function SignedValue(negative: bool, magnitude: nat): int
  {
    if negative then -(magnitude as int) else magnitude
  }
}
