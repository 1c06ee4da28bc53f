/** `fp8_processing_array` (src/hdl/components/fp8_processing_array.py):
    the fixed 2x2 array of FP8 processing elements. The PEs are not part of
    this model: their results, done flags and ready flags are free inputs
    of every edge. What is modelled is the slicing of the input buses, the
    wiring of the PEs, the sticky done latches with their `all_pes_done`
    barrier, the read-gated output register and the two output blocks. */
module Fp8ProcessingArray {
  import opened Bits
  import opened Wrappers

  const ROWS: nat := 2
  const COLS: nat := 2
  const DATA_WIDTH: nat := 8
  const PES: nat := ROWS * COLS

  /** The element a PE is given from byte m of a bus: as written
      (`corrected` false) the low seven bits, since the MyHDL slices
      `[7:0]` and `[15:8]` are seven bits wide; corrected, the whole byte. */
  function Element(vector: nat, m: nat, corrected: bool): nat
  {
    if corrected then Lane(vector, m, DATA_WIDTH) else Lane(vector, m, DATA_WIDTH) % 0x80
  }

  /** `shadow_slices`: as written slice 0 is `vector[7:0]` and slice 1
      `vector[15:8]`; corrected, `vector[8:0]` and `vector[16:8]`. The
      seven-bit value always fits the 8-bit shadow signal, so neither
      raises. */
  function ShadowSlices(vector: nat, corrected: bool): (s: seq<nat>)
    ensures |s| == ROWS
    ensures forall m | 0 <= m < ROWS :: s[m] == Element(vector, m, corrected)
  {
    SevenBits(vector, 0);
    SevenBits(vector, 1);
    SmallPowers();
    LaneIsSlice(vector, 0, DATA_WIDTH);
    LaneIsSlice(vector, 1, DATA_WIDTH);
    if corrected then [Slice(vector, 8, 0), Slice(vector, 16, 8)]
    else [Slice(vector, 7, 0), Slice(vector, 15, 8)]
  }

  /** `x[8m+7 : 8m]` is byte m of x without its top bit. */
  lemma SevenBits(x: nat, m: nat)
    ensures Slice(x, 8 * m + 7, 8 * m) == Lane(x, m, DATA_WIDTH) % 0x80
  {
    SmallPowers();
    OffsetIsProduct(m, DATA_WIDTH);
    LowBitsOfLane(x, m, DATA_WIDTH, 7);
  }

  /** As written, an operand byte with its top bit set reaches the PE
      without it: 0xC0 (-2.0 in E4M3) arrives as 0x40 (2.0). Corrected,
      the whole byte arrives. */
  lemma TopBitDropped(vector: nat)
    ensures forall m | 0 <= m < ROWS ::
      ShadowSlices(vector, false)[m] + (if Lane(vector, m, DATA_WIDTH) >= 0x80 then 0x80 else 0)
        == ShadowSlices(vector, true)[m]
  {
    SmallPowers();
    forall m | 0 <= m < ROWS
      ensures Lane(vector, m, DATA_WIDTH) % 0x80 + (if Lane(vector, m, DATA_WIDTH) >= 0x80 then 0x80 else 0)
        == Lane(vector, m, DATA_WIDTH)
    {
      var b := Lane(vector, m, DATA_WIDTH);
      if b >= 0x80 {
        DivMulAdd(1, 0x80, b - 0x80);
      } else {
        ModSmall(b, 0x80);
      }
    }
  }

  /** The four PE instantiations: the A and B slices each PE is given. */
  function PeOperands(aVector: nat, bVector: nat, corrected: bool): (ops: seq<(nat, nat)>)
    ensures |ops| == PES
    ensures forall i, j | 0 <= i < ROWS && 0 <= j < COLS ::
      ops[2 * i + j] == (Element(aVector, i, corrected), Element(bVector, j, corrected))
  {
    var a, b := ShadowSlices(aVector, corrected), ShadowSlices(bVector, corrected);
    [(a[0], b[0]), (a[0], b[1]), (a[1], b[0]), (a[1], b[1])]
  }

  /** What the PEs drive on one edge, with the array's own inputs. */
  datatype EdgeInputs = EdgeInputs(
    reset: bool, dataValid: bool, readEn: bool,
    macDone: seq<bool>, cOutputs: seq<nat>)
  {
    predicate Valid()
    {
      |macDone| == PES && |cOutputs| == PES && Fits(cOutputs, DATA_WIDTH)
    }

    /** The edges on which the latches are cleared. */
    predicate Clears()
    {
      reset || dataValid
    }
  }

  /** The inputs of one edge, with one done flag and one byte per PE. */
  type Edge = e: EdgeInputs | e.Valid()
    witness EdgeInputs(false, false, false, [false, false, false, false], [0, 0, 0, 0])

  /** The registers `pe_done_latch_logic` drives. */
  datatype ArrayState = ArrayState(latches: seq<bool>, allPesDone: bool, outputReg: nat)
  {
    predicate Valid()
    {
      |latches| == PES && outputReg < Pow2(PES * DATA_WIDTH)
    }
  }

  const Initial: ArrayState := ArrayState([false, false, false, false], false, 0)

  /** Some PE result has its top bit set. */
  predicate TopBitSet(cOutputs: seq<nat>)
  {
    exists k | 0 <= k < |cOutputs| :: cOutputs[k] >= 0x80
  }

  /** The temporary word of lines 186-198. As written, `temp[8k+7:8k] =
      c_outputs[k]` assigns an 8-bit value to a seven-bit slice, which
      MyHDL refuses with a ValueError (None) once the value reaches 0x80,
      that is for every negative FP8 result; below that each value lands
      in byte k with bit 8k+7 clear. Corrected (`temp[8k+8:8k]`) it never
      raises. Either way byte k of the word is `c_outputs[k]`. */
  function OutputWord(cOutputs: seq<nat>, corrected: bool): (w: Option<nat>)
    requires |cOutputs| == PES && Fits(cOutputs, DATA_WIDTH)
    ensures w.Some? <==> corrected || forall k | 0 <= k < PES :: cOutputs[k] < 0x80
    ensures w.Some? ==> w.value < Pow2(PES * DATA_WIDTH) && Lanes(w.value, PES, DATA_WIDTH) == cOutputs
  {
    if !corrected && TopBitSet(cOutputs) then None
    else
      PackLanesBound(cOutputs, DATA_WIDTH);
      LanesOfPackLanes(cOutputs, DATA_WIDTH);
      Some(PackLanes(cOutputs, DATA_WIDTH))
  }

  /** `all_done` after the four `and`s: the pre-edge latches. */
  predicate AllSet(latches: seq<bool>)
  {
    forall k | 0 <= k < |latches| :: latches[k]
  }

  /** The four `if mac_done_signals[k]: pe_done_latches[k].next = 1`. */
  function SetLatches(latches: seq<bool>, macDone: seq<bool>): (r: seq<bool>)
    requires |latches| == PES && |macDone| == PES
    ensures |r| == PES
    ensures forall k | 0 <= k < PES :: r[k] <==> latches[k] || macDone[k]
  {
    seq(PES, k requires 0 <= k < PES => latches[k] || macDone[k])
  }

  /** One rising edge of `pe_done_latch_logic`; None where the output
      word raises. */
  function LatchNext(st: ArrayState, e: Edge, corrected: bool): (n: Option<ArrayState>)
    requires st.Valid()
    ensures n.Some? ==> n.value.Valid()
    ensures n.None? <==> !e.Clears() && e.readEn && !corrected && TopBitSet(e.cOutputs)
  {
    if e.reset then Some(Initial)
    else if e.dataValid then Some(st.(latches := [false, false, false, false], allPesDone := false))
    else if !e.readEn then Some(st.(latches := SetLatches(st.latches, e.macDone), allPesDone := AllSet(st.latches)))
    else
      match OutputWord(e.cOutputs, corrected)
      case None => None
      case Some(w) => Some(ArrayState(SetLatches(st.latches, e.macDone), AllSet(st.latches), w))
  }

  /** What the edge does: reset clears everything; `data_valid` clears the
      latches and `all_pes_done` and keeps the output register; otherwise
      each latch is set by its PE's done and never cleared,
      `all_pes_done` is the AND of the pre-edge latches, and the output
      register takes the PE results when `read_en` is high and holds
      otherwise. */
  lemma LatchEdge(st: ArrayState, e: Edge, corrected: bool)
    requires st.Valid() && LatchNext(st, e, corrected).Some?
    ensures var n := LatchNext(st, e, corrected).value;
      && (e.reset ==> n.outputReg == 0 && !n.allPesDone && forall k | 0 <= k < PES :: !n.latches[k])
      && (!e.reset && e.dataValid ==>
            n.outputReg == st.outputReg && !n.allPesDone && forall k | 0 <= k < PES :: !n.latches[k])
      && (!e.Clears() ==>
            && (forall k | 0 <= k < PES :: n.latches[k] <==> st.latches[k] || e.macDone[k])
            && (n.allPesDone <==> forall k | 0 <= k < PES :: st.latches[k])
            && (e.readEn ==> forall k | 0 <= k < PES :: Lane(n.outputReg, k, DATA_WIDTH) == e.cOutputs[k])
            && (!e.readEn ==> n.outputReg == st.outputReg))
  {
    if !e.Clears() && e.readEn {
      var w := OutputWord(e.cOutputs, corrected).value;
      forall k | 0 <= k < PES
        ensures Lane(w, k, DATA_WIDTH) == e.cOutputs[k]
      {
        assert Lanes(w, PES, DATA_WIDTH)[k] == e.cOutputs[k];
      }
    }
  }

  /** The corrected edge never raises, and where the edge as written
      does not raise the two agree. */
  lemma CorrectedLatchAgrees(st: ArrayState, e: Edge)
    requires st.Valid()
    ensures LatchNext(st, e, true).Some?
    ensures LatchNext(st, e, false).Some? ==> LatchNext(st, e, false) == LatchNext(st, e, true)
  {
  }

  /** The state after the first n edges of a trace; None once an edge
      has raised. */
  function RunTo(st: ArrayState, ins: seq<Edge>, n: nat, corrected: bool): (r: Option<ArrayState>)
    requires st.Valid() && n <= |ins|
    ensures r.Some? ==> r.value.Valid()
  {
    if n == 0 then Some(st)
    else
      match RunTo(st, ins, n - 1, corrected)
      case None => None
      case Some(prev) => LatchNext(prev, ins[n - 1], corrected)
  }

  /** Edge c clears and none of the edges after it, up to edge n, does. */
  predicate LastClearBefore(ins: seq<Edge>, c: nat, n: nat)
  {
    c < n <= |ins| && ins[c].Clears() && forall t | c < t < n :: !ins[t].Clears()
  }

  /** PE k reported done on some edge strictly between lo and hi. */
  predicate DoneSeen(ins: seq<Edge>, k: nat, lo: nat, hi: nat)
    requires hi <= |ins| && k < PES
  {
    exists t | lo < t < hi :: ins[t].macDone[k]
  }

  /** Every PE reported done on some edge strictly between lo and hi. */
  predicate AllDoneSeen(ins: seq<Edge>, lo: nat, hi: nat)
    requires hi <= |ins|
  {
    forall k | 0 <= k < PES :: DoneSeen(ins, k, lo, hi)
  }

  /** Latch k after one edge. */
  lemma LatchBit(st: ArrayState, e: Edge, k: nat, corrected: bool)
    requires st.Valid() && k < PES && LatchNext(st, e, corrected).Some?
    ensures LatchNext(st, e, corrected).value.latches[k] <==> !e.Clears() && (st.latches[k] || e.macDone[k])
  {
  }

  /** `all_pes_done` after one edge. */
  lemma AllDoneBit(st: ArrayState, e: Edge, corrected: bool)
    requires st.Valid() && LatchNext(st, e, corrected).Some?
    ensures LatchNext(st, e, corrected).value.allPesDone <==> !e.Clears() && AllSet(st.latches)
  {
  }

  /** The last step of a run that has not raised. */
  lemma RunStep(st: ArrayState, ins: seq<Edge>, n: nat, corrected: bool)
    requires st.Valid() && 0 < n <= |ins|
    requires RunTo(st, ins, n, corrected).Some?
    ensures RunTo(st, ins, n - 1, corrected).Some?
    ensures LatchNext(RunTo(st, ins, n - 1, corrected).value, ins[n - 1], corrected) == RunTo(st, ins, n, corrected)
  {
  }

  /** Latch k after the last step of a run that has not raised. */
  lemma RunLatch(st: ArrayState, ins: seq<Edge>, n: nat, k: nat, corrected: bool)
    requires st.Valid() && 0 < n <= |ins| && k < PES
    requires RunTo(st, ins, n, corrected).Some?
    ensures RunTo(st, ins, n - 1, corrected).Some?
    ensures RunTo(st, ins, n, corrected).value.latches[k] <==>
      !ins[n - 1].Clears() && (RunTo(st, ins, n - 1, corrected).value.latches[k] || ins[n - 1].macDone[k])
  {
    RunStep(st, ins, n, corrected);
    LatchBit(RunTo(st, ins, n - 1, corrected).value, ins[n - 1], k, corrected);
  }

  /** Extending the window by its last edge. */
  lemma DoneSeenStep(ins: seq<Edge>, k: nat, lo: nat, hi: nat)
    requires lo < hi <= |ins| && k < PES
    ensures DoneSeen(ins, k, lo, hi) <==> DoneSeen(ins, k, lo, hi - 1) || (lo < hi - 1 && ins[hi - 1].macDone[k])
  {
    if DoneSeen(ins, k, lo, hi) && !(lo < hi - 1 && ins[hi - 1].macDone[k]) {
      var t :| lo < t < hi && ins[t].macDone[k];
      assert DoneSeen(ins, k, lo, hi - 1);
    }
  }

  /** A latch is set exactly when its PE's done was seen on an edge after
      the last clear. */
  lemma {:induction false} LatchHistory(st: ArrayState, ins: seq<Edge>, c: nat, n: nat, k: nat, corrected: bool)
    requires st.Valid()
    requires LastClearBefore(ins, c, n) && k < PES
    requires RunTo(st, ins, n, corrected).Some?
    ensures RunTo(st, ins, n, corrected).value.latches[k] <==> DoneSeen(ins, k, c, n)
    decreases n
  {
    RunLatch(st, ins, n, k, corrected);
    DoneSeenStep(ins, k, c, n);
    if n > c + 1 {
      assert !ins[n - 1].Clears();
      assert LastClearBefore(ins, c, n - 1);
      LatchHistory(st, ins, c, n - 1, k, corrected);
    } else {
      assert ins[n - 1].Clears();
    }
  }

  /** The barrier: `all_pes_done` is high after n edges exactly when every
      PE's done was seen after the last clear, on an edge before the
      last one (the AND reads the latches before they are updated). */
  lemma AllPesDoneBarrier(st: ArrayState, ins: seq<Edge>, c: nat, n: nat, corrected: bool)
    requires st.Valid()
    requires LastClearBefore(ins, c, n)
    requires RunTo(st, ins, n, corrected).Some?
    ensures RunTo(st, ins, n, corrected).value.allPesDone <==> AllDoneSeen(ins, c, n - 1)
  {
    var m := n - 1;
    RunStep(st, ins, n, corrected);
    var prev := RunTo(st, ins, m, corrected).value;
    AllDoneBit(prev, ins[m], corrected);
    if m == c {
      assert ins[m].Clears();
      assert !DoneSeen(ins, 0, c, m);
    } else {
      assert !ins[m].Clears();
      forall k | 0 <= k < PES
        ensures prev.latches[k] <==> DoneSeen(ins, k, c, m)
      {
        LatchHistory(st, ins, c, m, k, corrected);
      }
      assert AllSet(prev.latches) <==> AllDoneSeen(ins, c, m);
    }
  }

  /** `output_connection`: `o_c_matrix` is the output register whatever
      `read_en` is, and `o_mac_done` is `all_pes_done`. */
  function OutputConnection(st: ArrayState, readEn: bool): (r: (nat, bool))
  {
    if readEn then (st.outputReg, st.allPesDone) else (st.outputReg, st.allPesDone)
  }

  lemma OutputIgnoresReadEn(st: ArrayState)
    ensures OutputConnection(st, true) == OutputConnection(st, false) == (st.outputReg, st.allPesDone)
  {
  }

  /** `ready_logic`: the AND of the four PE ready flags. */
  function ReadyLogic(ready: seq<bool>): (r: bool)
    requires |ready| == PES
    ensures r <==> forall k | 0 <= k < PES :: ready[k]
  {
    ready[0] && ready[1] && ready[2] && ready[3]
  }

  /** The latch block as a clocked unit. */
  class DoneLatches {
    var st: ArrayState

    ghost predicate Valid()
      reads this
    {
      st.Valid()
    }

    constructor ()
      ensures Valid() && st == Initial
    {
      st := Initial;
    }

    /** One rising edge as written; `ok` is false where MyHDL raises,
        and then the registers are left as they were. */
    method Tick(e: Edge) returns (ok: bool)
      requires Valid()
      modifies this
      ensures Valid()
      ensures ok <==> LatchNext(old(st), e, false).Some?
      ensures st == if ok then LatchNext(old(st), e, false).value else old(st)
    {
      var next := LatchNext(st, e, false);
      ok := next.Some?;
      if ok {
        st := next.value;
      }
    }
  }
}
