/** `register` (src/hdl/components/reg.py): a width-bit register with a
    synchronous active-high reset and an enable; `q` shows the stored
    value. */
module Reg {
  import opened Bits

  /** The inputs seen at one rising clock edge. */
  datatype RegInput = RegInput(reset: bool, en: bool, d: nat)

  /** The value stored after one clock edge: reset stores 0 (the register's
      initial value), otherwise an enabled edge stores `d`. */
  function RegNext(stored: nat, x: RegInput): nat
  {
    if x.reset then 0 else if x.en then x.d else stored
  }

  /** The stored value after the edges `xs`, in order. */
  function RegRun(stored: nat, xs: seq<RegInput>): nat
    decreases |xs|
  {
    if xs == [] then stored else RegRun(RegNext(stored, xs[0]), xs[1..])
  }

  /** A reference reading of the register: the value written by the last
      edge that reset or enabled it, or the starting value when none did. */
  function LastWrite(stored: nat, xs: seq<RegInput>): nat
  {
    if xs == [] then stored
    else
      var x := xs[|xs| - 1];
      if x.reset then 0 else if x.en then x.d else LastWrite(stored, xs[..|xs| - 1])
  }

  /** Every `d` fits the register's width. */
  predicate Fit(xs: seq<RegInput>, width: nat)
  {
    forall i | 0 <= i < |xs| :: xs[i].d < Pow2(width)
  }

  /** One more edge after a run. */
  lemma {:induction false} RegRunSnoc(stored: nat, xs: seq<RegInput>, x: RegInput)
    ensures RegRun(stored, xs + [x]) == RegNext(RegRun(stored, xs), x)
    decreases |xs|
  {
    if xs != [] {
      assert (xs + [x])[1..] == xs[1..] + [x];
      RegRunSnoc(RegNext(stored, xs[0]), xs[1..], x);
    }
  }

  /** Clocking the register holds the value of the last write. */
  lemma {:induction false} RunIsLastWrite(stored: nat, xs: seq<RegInput>)
    ensures RegRun(stored, xs) == LastWrite(stored, xs)
  {
    if xs != [] {
      var prefix := xs[..|xs| - 1];
      assert xs == prefix + [xs[|xs| - 1]];
      RegRunSnoc(stored, prefix, xs[|xs| - 1]);
      RunIsLastWrite(stored, prefix);
    }
  }

  /** With the enable low and no reset, the stored value never changes. */
  lemma {:induction false} HoldsWhileDisabled(stored: nat, xs: seq<RegInput>)
    requires forall i | 0 <= i < |xs| :: !xs[i].reset && !xs[i].en
    ensures RegRun(stored, xs) == stored
    decreases |xs|
  {
    if xs != [] {
      HoldsWhileDisabled(RegNext(stored, xs[0]), xs[1..]);
    }
  }

  /** The register never holds more than `width` bits when every `d` fits. */
  lemma {:induction false} RunFits(stored: nat, xs: seq<RegInput>, width: nat)
    requires stored < Pow2(width) && Fit(xs, width)
    ensures RegRun(stored, xs) < Pow2(width)
    decreases |xs|
  {
    if xs != [] {
      RunFits(RegNext(stored, xs[0]), xs[1..], width);
    }
  }

  class Register {
    const width: nat
    var stored: nat

    ghost predicate Valid()
      reads this
    {
      stored < Pow2(width)
    }

    constructor (width: nat)
      ensures Valid() && this.width == width && stored == 0
    {
      this.width := width;
      stored := 0;
    }

    /** `output_logic`: `q` follows the stored value. */
    function Q(): nat
      reads this
    {
      stored
    }

    /** `reg_logic` at one rising edge. A `d` wider than the register would
        be an intbv range error, so it is excluded. */
    method Tick(x: RegInput)
      requires Valid() && x.d < Pow2(width)
      modifies this
      ensures Valid() && stored == RegNext(old(stored), x)
    {
      if x.reset {
        stored := 0;
      } else if x.en {
        stored := x.d;
      }
    }
  }
}
