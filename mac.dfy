/** `mac` (src/hdl/components/mac.py): an integer multiply-accumulate
    register with a synchronous clear. The accumulator is an intbv with
    `result`'s range [min, max); a sum outside it is a MyHDL range error,
    modelled as a failed edge. */
module Mac {
  import opened Wrappers

  /** The half-open value range [lo, hi) of the `result` signal. */
  datatype Range = Range(lo: int, hi: int)
  {
    predicate Holds(v: int)
    {
      lo <= v < hi
    }
  }

  /** The inputs seen at one rising clock edge. */
  datatype MacInput = MacInput(reset: bool, clear: bool, a: int, b: int)

  /** The accumulator after one edge, or None for the range error. Reset
      restores the initial value 0; `clear` stores 0; otherwise the product
      a * b is added. */
  function MacNext(acc: int, x: MacInput, r: Range): (next: Option<int>)
    requires r.Holds(0)
    ensures next.Some? ==> r.Holds(next.value)
    ensures !x.reset && !x.clear ==> (next.Some? <==> r.Holds(acc + x.a * x.b))
    ensures next.Some? && !x.reset && !x.clear ==> next.value == acc + x.a * x.b
    ensures x.reset || x.clear ==> next == Some(0)
  {
    if x.reset || x.clear then Some(0)
    else if r.Holds(acc + x.a * x.b) then Some(acc + x.a * x.b)
    else None
  }

  /** The accumulator after the edges `xs`, or None once an edge fails. */
  function MacRun(acc: int, xs: seq<MacInput>, r: Range): Option<int>
    requires r.Holds(0)
    decreases |xs|
  {
    if xs == [] then Some(acc)
    else match MacNext(acc, xs[0], r)
      case None => None
      case Some(next) => MacRun(next, xs[1..], r)
  }

  /** The sum of the products a * b of the edges `xs`. */
  function Dot(xs: seq<MacInput>): int
  {
    if xs == [] then 0 else xs[0].a * xs[0].b + Dot(xs[1..])
  }

  /** Every partial sum acc + Dot(xs[..k]) lies in the range. */
  predicate PartialSumsHold(acc: int, xs: seq<MacInput>, r: Range)
  {
    forall k | 1 <= k <= |xs| :: r.Holds(acc + Dot(xs[..k]))
  }

  /** Without reset or clear, and while every partial sum stays in range,
      the accumulator ends at its start plus the dot product of the
      operand pairs. */
  lemma {:induction false} AccumulatesDot(acc: int, xs: seq<MacInput>, r: Range)
    requires r.Holds(0)
    requires forall i | 0 <= i < |xs| :: !xs[i].reset && !xs[i].clear
    requires PartialSumsHold(acc, xs, r)
    ensures MacRun(acc, xs, r) == Some(acc + Dot(xs))
    decreases |xs|
  {
    if xs != [] {
      var x := xs[0];
      assert xs[..1] == [x];
      assert Dot([x]) == x.a * x.b + Dot([]);
      assert r.Holds(acc + x.a * x.b);
      var next := acc + x.a * x.b;
      forall k | 1 <= k <= |xs[1..]|
        ensures r.Holds(next + Dot(xs[1..][..k]))
      {
        assert xs[..k + 1] == [x] + xs[1..][..k];
        assert xs[..k + 1][1..] == xs[1..][..k];
        assert r.Holds(acc + Dot(xs[..k + 1]));
      }
      AccumulatesDot(next, xs[1..], r);
    }
  }

  /** When some partial sum leaves the range (and earlier ones do not), the
      run fails: the model never silently wraps. */
  lemma {:induction false} OverflowFails(acc: int, xs: seq<MacInput>, r: Range, k: nat)
    requires r.Holds(0)
    requires forall i | 0 <= i < |xs| :: !xs[i].reset && !xs[i].clear
    requires 1 <= k <= |xs| && !r.Holds(acc + Dot(xs[..k]))
    ensures MacRun(acc, xs, r) == None
    decreases |xs|
  {
    var x := xs[0];
    assert xs[..1] == [x];
    assert Dot([x]) == x.a * x.b + Dot([]);
    if r.Holds(acc + x.a * x.b) {
      assert k > 1;
      assert xs[..k] == [x] + xs[1..][..k - 1];
      assert xs[..k][1..] == xs[1..][..k - 1];
      OverflowFails(acc + x.a * x.b, xs[1..], r, k - 1);
    }
  }

  /** An edge with `clear` (or reset) starts again from 0 whatever came
      before, provided the earlier edges did not fail. */
  lemma {:induction false} ClearRestarts(acc: int, xs: seq<MacInput>, x: MacInput, r: Range)
    requires r.Holds(0) && (x.clear || x.reset)
    requires MacRun(acc, xs, r).Some?
    ensures MacRun(acc, xs + [x], r) == Some(0)
    decreases |xs|
  {
    if xs == [] {
      assert [x][1..] == [];
    } else {
      assert (xs + [x])[1..] == xs[1..] + [x];
      ClearRestarts(MacNext(acc, xs[0], r).value, xs[1..], x, r);
    }
  }

  class MacUnit {
    const range: Range
    var acc: int

    ghost predicate Valid()
      reads this
    {
      range.Holds(0) && range.Holds(acc)
    }

    /** `acc = Signal(intbv(0, min=result.min, max=result.max))`, which
        MyHDL accepts only when 0 lies in the range. */
    constructor (range: Range)
      requires range.Holds(0)
      ensures Valid() && this.range == range && acc == 0
    {
      this.range := range;
      acc := 0;
    }

    /** `output_logic`: `result` follows the accumulator. */
    function Result(): int
      reads this
    {
      acc
    }

    /** `accumulate` at one rising edge; `ok` is false when the new sum is
        outside the range, where MyHDL raises and the accumulator is not
        updated. */
    method Tick(x: MacInput) returns (ok: bool)
      requires Valid()
      modifies this
      ensures Valid()
      ensures ok == MacNext(old(acc), x, range).Some?
      ensures acc == if ok then MacNext(old(acc), x, range).value else old(acc)
    {
      if x.reset || x.clear {
        acc := 0;
        ok := true;
      } else {
        var sum := acc + x.a * x.b;
        ok := range.lo <= sum < range.hi;
        if ok {
          acc := sum;
        }
      }
    }
  }
}
