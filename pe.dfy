/** `pe` (src/hdl/components/pe.py): a processing element made of two
    pass-through registers for the operands, an integer MAC whose clear
    input is the reset, and an output that follows the MAC while
    `read_result` is high and holds otherwise. */
module Pe {
  import opened Bits
  import opened Wrappers
  import opened Reg
  import opened Mac

  /** The inputs seen at one rising clock edge. */
  datatype PeInput = PeInput(reset: bool, aIn: nat, bIn: nat, readResult: bool)

  /** The observable state: `a_out`, `b_out`, `mac_out` and `c_out`. */
  datatype PeState = PeState(aOut: nat, bOut: nat, macOut: int, cOut: int)

  /** The edge as the MAC sees it: `mac(clk, reset, a_in, b_in, reset, mac_out)`. */
  function MacView(x: PeInput): MacInput
  {
    MacInput(x.reset, x.reset, x.aIn, x.bIn)
  }

  /** The range of `mac_out = Signal(intbv(0)[acc_width:0])`. */
  function AccRange(accWidth: nat): (r: Range)
    ensures r.Holds(0)
  {
    Range(0, Pow2(accWidth))
  }

  /** One edge of the whole element, or None when the MAC's sum leaves
      `mac_out`'s range. */
  function PeNext(st: PeState, x: PeInput, accWidth: nat): Option<PeState>
  {
    match MacNext(st.macOut, MacView(x), AccRange(accWidth))
    case None => None
    case Some(acc) =>
      Some(PeState(
        RegNext(st.aOut, RegInput(x.reset, true, x.aIn)),
        RegNext(st.bOut, RegInput(x.reset, true, x.bIn)),
        acc,
        if x.readResult then acc else st.cOut))
  }

  function PeRun(st: PeState, xs: seq<PeInput>, accWidth: nat): Option<PeState>
    decreases |xs|
  {
    if xs == [] then Some(st)
    else match PeNext(st, xs[0], accWidth)
      case None => None
      case Some(next) => PeRun(next, xs[1..], accWidth)
  }

  function MacViews(xs: seq<PeInput>): (ms: seq<MacInput>)
    ensures |ms| == |xs|
    ensures forall i | 0 <= i < |xs| :: ms[i] == MacView(xs[i])
  {
    if xs == [] then [] else [MacView(xs[0])] + MacViews(xs[1..])
  }

  /** One edge: `a_out` and `b_out` are registered copies of the inputs
      (reset gives 0), `c_out` takes the new MAC value exactly when
      `read_result` is high. */
  lemma OneEdge(st: PeState, x: PeInput, accWidth: nat)
    requires PeNext(st, x, accWidth).Some?
    ensures var n := PeNext(st, x, accWidth).value;
      && n.aOut == (if x.reset then 0 else x.aIn)
      && n.bOut == (if x.reset then 0 else x.bIn)
      && (x.reset ==> n.macOut == 0)
      && (!x.reset ==> n.macOut == st.macOut + x.aIn * x.bIn)
      && n.cOut == (if x.readResult then n.macOut else st.cOut)
  {
  }

  /** The MAC inside the element runs exactly as a MAC fed the same
      operands with reset as its clear. */
  lemma {:induction false} MacInside(st: PeState, xs: seq<PeInput>, accWidth: nat)
    ensures PeRun(st, xs, accWidth).Some? <==> MacRun(st.macOut, MacViews(xs), AccRange(accWidth)).Some?
    ensures PeRun(st, xs, accWidth).Some? ==>
      PeRun(st, xs, accWidth).value.macOut == MacRun(st.macOut, MacViews(xs), AccRange(accWidth)).value
    decreases |xs|
  {
    if xs != [] {
      assert MacViews(xs)[1..] == MacViews(xs[1..]);
      var n := PeNext(st, xs[0], accWidth);
      if n.Some? {
        MacInside(n.value, xs[1..], accWidth);
      }
    }
  }

  /** After a reset edge and then edges without reset whose partial sums fit
      in `acc_width` bits, `mac_out` is the dot product of the operand
      pairs, and so is `c_out` when the last edge reads the result. */
  lemma ComputesDot(st: PeState, r: PeInput, xs: seq<PeInput>, accWidth: nat)
    requires r.reset && xs != []
    requires forall i | 0 <= i < |xs| :: !xs[i].reset
    requires PartialSumsHold(0, MacViews(xs), AccRange(accWidth))
    requires xs[|xs| - 1].readResult
    ensures PeRun(st, [r] + xs, accWidth).Some?
    ensures PeRun(st, [r] + xs, accWidth).value.macOut == Dot(MacViews(xs))
    ensures PeRun(st, [r] + xs, accWidth).value.cOut == Dot(MacViews(xs))
  {
    var range := AccRange(accWidth);
    var first := PeNext(st, r, accWidth).value;
    assert ([r] + xs)[1..] == xs;
    AccumulatesDot(0, MacViews(xs), range);
    MacInside(first, xs, accWidth);
    var prefix := xs[..|xs| - 1];
    var last := xs[|xs| - 1];
    assert xs == prefix + [last];
    PeRunSnoc(first, prefix, last, accWidth);
  }

  lemma {:induction false} PeRunSnoc(st: PeState, xs: seq<PeInput>, x: PeInput, accWidth: nat)
    ensures PeRun(st, xs + [x], accWidth) ==
      match PeRun(st, xs, accWidth)
      case None => None
      case Some(s) => PeNext(s, x, accWidth)
    decreases |xs|
  {
    if xs == [] {
      assert [x][1..] == [];
    } else {
      assert (xs + [x])[1..] == xs[1..] + [x];
      var n := PeNext(st, xs[0], accWidth);
      if n.Some? {
        PeRunSnoc(n.value, xs[1..], x, accWidth);
      }
    }
  }

  class ProcessingElement {
    const dataWidth: nat
    const accWidth: nat
    const regA: Register
    const regB: Register
    const mac: MacUnit
    var cOut: int

    ghost predicate Valid()
      reads this, regA, regB, mac
    {
      && regA != regB
      && regA.Valid() && regB.Valid() && mac.Valid()
      && regA.width == dataWidth && regB.width == dataWidth
      && mac.range == AccRange(accWidth)
    }

    function State(): PeState
      reads this, regA, regB, mac
    {
      PeState(regA.Q(), regB.Q(), mac.Result(), cOut)
    }

    /** A freshly elaborated element; `c_out` starts at its caller's
        initial value. */
    constructor (dataWidth: nat, accWidth: nat, cOut0: int)
      ensures Valid() && this.dataWidth == dataWidth && this.accWidth == accWidth
      ensures fresh(regA) && fresh(regB) && fresh(mac)
      ensures State() == PeState(0, 0, 0, cOut0)
    {
      this.dataWidth := dataWidth;
      this.accWidth := accWidth;
      regA := new Register(dataWidth);
      regB := new Register(dataWidth);
      mac := new MacUnit(AccRange(accWidth));
      cOut := cOut0;
    }

    /** One rising edge of all three sub-units, then `output_logic`. When
        the MAC raises (`ok` false), the operand registers have already
        latched and the MAC and `c_out` keep their values. */
    method Tick(x: PeInput) returns (ok: bool)
      requires Valid() && x.aIn < Pow2(dataWidth) && x.bIn < Pow2(dataWidth)
      modifies this, regA, regB, mac
      ensures Valid()
      ensures ok <==> PeNext(old(State()), x, accWidth).Some?
      ensures ok ==> State() == PeNext(old(State()), x, accWidth).value
      ensures !ok ==> State().macOut == old(State()).macOut && State().cOut == old(State()).cOut
      ensures !ok ==> State().aOut == (if x.reset then 0 else x.aIn) && State().bOut == (if x.reset then 0 else x.bIn)
    {
      regA.Tick(RegInput(x.reset, true, x.aIn));
      regB.Tick(RegInput(x.reset, true, x.bIn));
      ok := mac.Tick(MacView(x));
      if ok && x.readResult {
        cOut := mac.Result();
      }
    }
  }
}
