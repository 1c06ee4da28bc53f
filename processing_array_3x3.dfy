/** `processing_array_3x3` (src/hdl/components/processing_array_3x3.py):
    the broadcast 3x3 integer array. The nine processing elements are not
    part of this model (the `processing_element` block it instantiates is
    not defined in pe.py); their results, overflow flags and done flags are
    free inputs of every edge. What is modelled is the slicing of the input
    buses and the PE wiring, the IDLE/PROCESSING control FSM with its
    `o_computation_done` register, the AND and OR reductions, the result
    register and the read-gated output. */
module ProcessingArray3x3 {
  import opened Bits
  import opened Wrappers

  const DATA_WIDTH: nat := 8
  const ACC_WIDTH: nat := 32
  const ARRAY_SIZE: nat := 3
  const NUM_PES: nat := 9

  /** The signal ranges of the source: `intbv(min=..., max=...)` excludes
      its `max`. */
  const DATA_MIN: int := -0x80
  const DATA_MAX: int := 0x7F
  const ACC_MIN: int := -0x8000_0000
  const ACC_MAX: int := 0x7FFF_FFFF

  const TWO_32: nat := 0x1_0000_0000

  lemma AccPowers()
    ensures Pow2(ACC_WIDTH) == TWO_32
  {
    SmallPowers();
    Pow2Add(8, 8);
    Pow2Add(16, 16);
  }

  // ---------------------------------------------------------------------
  // Slicing and wiring

  /** `shadow_slices`: `i_a_vector[7:0]`, `[15:8]` and `[23:16]` are
      MyHDL slices of seven bits, so element m is the low seven bits of
      byte m of the bus and the top bit of every byte is never read. The
      seven bits are driven onto a signal of range DATA_MIN <= v < DATA_MAX;
      MyHDL raises a ValueError (None) only for 0x7F, which the exclusive
      `max` leaves out. */
  function ShadowSlices(vector: nat): (s: Option<seq<nat>>)
    ensures s.Some? <==> forall m | 0 <= m < ARRAY_SIZE :: Lane(vector, m, DATA_WIDTH) % 0x80 != 0x7F
    ensures s.Some? ==> |s.value| == ARRAY_SIZE
    ensures s.Some? ==> forall m | 0 <= m < ARRAY_SIZE :: s.value[m] == Lane(vector, m, DATA_WIDTH) % 0x80
  {
    SevenBits(vector, 0);
    SevenBits(vector, 1);
    SevenBits(vector, 2);
    var elements := [Slice(vector, 7, 0), Slice(vector, 15, 8), Slice(vector, 23, 16)];
    assert forall m | 0 <= m < ARRAY_SIZE :: elements[m] == Lane(vector, m, DATA_WIDTH) % 0x80;
    if elements[0] < DATA_MAX && elements[1] < DATA_MAX && elements[2] < DATA_MAX then Some(elements) else None
  }

  /** `x[8m+7 : 8m]` is byte m of x without its top bit. */
  lemma SevenBits(x: nat, m: nat)
    ensures Slice(x, 8 * m + 7, 8 * m) == Lane(x, m, DATA_WIDTH) % 0x80
  {
    SmallPowers();
    OffsetIsProduct(m, DATA_WIDTH);
    LowBitsOfLane(x, m, DATA_WIDTH, 7);
  }

  /** A bus holding one byte x: element 0 is x, the others are 0. */
  lemma OneByte(x: nat)
    requires x < 0x100
    ensures Lane(x, 0, DATA_WIDTH) == x && Lane(x, 1, DATA_WIDTH) == 0 && Lane(x, 2, DATA_WIDTH) == 0
  {
    SmallPowers();
    LaneZero(x, DATA_WIDTH);
    ModSmall(x, Pow2(DATA_WIDTH));
    assert Offset(1, DATA_WIDTH) == 8 && Offset(2, DATA_WIDTH) == 16;
    Pow2Monotone(8, 16);
    DivMulAdd(0, Pow2(8), x);
    DivMulAdd(0, Pow2(16), x);
  }

  /** As written, for a bus holding one byte x in element 0: the slicing
      raises exactly when the low seven bits of x are 0x7F (so for -1,
      0xFF in two's complement, and for 127), and otherwise element 0
      is x without its top bit (-128, 0x80, reaches the PE as 0). */
  lemma SlicesAsWritten(x: nat)
    requires x < 0x100
    ensures ShadowSlices(x).None? <==> x % 0x80 == 0x7F
    ensures ShadowSlices(x).Some? ==> ShadowSlices(x).value == [x % 0x80, 0, 0]
  {
    OneByte(x);
    var expected := [x % 0x80, 0, 0];
    assert forall m | 0 <= m < ARRAY_SIZE :: Lane(x, m, DATA_WIDTH) % 0x80 == expected[m];
    if ShadowSlices(x).Some? {
      assert ShadowSlices(x).value == expected;
    }
  }

  /** A byte read as an 8-bit two's-complement number. */
  function SignedByte(b: nat): (v: int)
    requires b < 0x100
    ensures DATA_MIN <= v <= DATA_MAX
    ensures v % 0x100 == b
  {
    if b >= 0x80 then b - 0x100 else b
  }

  /** The slicing the array evidently intends: each whole byte read as a
      signed element. It never raises, and packing the elements back in
      two's complement gives each byte of the bus. */
  function SignedSlices(vector: nat): (s: seq<int>)
    ensures |s| == ARRAY_SIZE
    ensures forall m | 0 <= m < ARRAY_SIZE ::
      DATA_MIN <= s[m] <= DATA_MAX && s[m] % 0x100 == Lane(vector, m, DATA_WIDTH)
  {
    SmallPowers();
    seq(ARRAY_SIZE, m requires 0 <= m < ARRAY_SIZE => SignedByte(Lane(vector, m, DATA_WIDTH)))
  }

  /** The two agree exactly on buses whose bytes are all below 0x7F. */
  lemma SignedSlicesAgree(vector: nat)
    ensures ShadowSlices(vector) == Some(SignedSlices(vector)) <==>
      forall m | 0 <= m < ARRAY_SIZE :: Lane(vector, m, DATA_WIDTH) < 0x7F
  {
    SmallPowers();
    var agree := forall m | 0 <= m < ARRAY_SIZE :: Lane(vector, m, DATA_WIDTH) < 0x7F;
    if agree {
      forall m | 0 <= m < ARRAY_SIZE
        ensures Lane(vector, m, DATA_WIDTH) % 0x80 == Lane(vector, m, DATA_WIDTH)
      {
        ModSmall(Lane(vector, m, DATA_WIDTH), 0x80);
      }
      assert ShadowSlices(vector).value == SignedSlices(vector);
    } else if ShadowSlices(vector).Some? {
      var m :| 0 <= m < ARRAY_SIZE && Lane(vector, m, DATA_WIDTH) >= 0x7F;
      assert ShadowSlices(vector).value[m] != SignedSlices(vector)[m];
    }
  }

  /** The nine PE instantiations: PE 3i+j gets A slice i and B slice j. */
  function PeOperands<T>(a: seq<T>, b: seq<T>): (ops: seq<(T, T)>)
    requires |a| == ARRAY_SIZE && |b| == ARRAY_SIZE
    ensures |ops| == NUM_PES
    ensures forall i, j | 0 <= i < ARRAY_SIZE && 0 <= j < ARRAY_SIZE :: ops[3 * i + j] == (a[i], b[j])
  {
    [(a[0], b[0]), (a[0], b[1]), (a[0], b[2]),
     (a[1], b[0]), (a[1], b[1]), (a[1], b[2]),
     (a[2], b[0]), (a[2], b[1]), (a[2], b[2])]
  }

  // ---------------------------------------------------------------------
  // Reductions

  /** `pe_done_logic`: the AND of the nine done flags. */
  function AllPesDone(dones: seq<bool>): (r: bool)
    requires |dones| == NUM_PES
    ensures r <==> forall k | 0 <= k < NUM_PES :: dones[k]
  {
    dones[0] && dones[1] && dones[2] && dones[3] && dones[4]
    && dones[5] && dones[6] && dones[7] && dones[8]
  }

  /** `overflow_logic`: the OR of the nine overflow flags. */
  function OverflowDetected(flags: seq<bool>): (r: bool)
    requires |flags| == NUM_PES
    ensures r <==> exists k | 0 <= k < NUM_PES :: flags[k]
  {
    flags[0] || flags[1] || flags[2] || flags[3] || flags[4]
    || flags[5] || flags[6] || flags[7] || flags[8]
  }

  // ---------------------------------------------------------------------
  // One clock edge

  /** The array's inputs on one edge, with what the PEs drive. */
  datatype EdgeInputs = EdgeInputs(
    reset: bool, dataValid: bool, clearAcc: bool,
    peResults: seq<int>, peOverflows: seq<bool>, peDones: seq<bool>)
  {
    /** Nine of each, and every PE result inside its signal's range. */
    predicate Valid()
    {
      && |peResults| == NUM_PES && |peOverflows| == NUM_PES && |peDones| == NUM_PES
      && forall k | 0 <= k < NUM_PES :: ACC_MIN <= peResults[k] < ACC_MAX
    }
  }

  /** The inputs of an edge on which the source can be simulated. */
  type Edge = e: EdgeInputs | e.Valid()
    witness EdgeInputs(false, false, false, [0, 0, 0, 0, 0, 0, 0, 0, 0],
      [false, false, false, false, false, false, false, false, false],
      [false, false, false, false, false, false, false, false, false])

  datatype Phase = Idle | Processing

  /** The registers of `fsm_control_logic`. */
  datatype Fsm = Fsm(state: Phase, computationDone: bool)

  const FsmInitial: Fsm := Fsm(Idle, false)

  /** One edge of `fsm_control_logic`. */
  function FsmNext(f: Fsm, reset: bool, dataValid: bool, allPesDone: bool): (n: Fsm)
    ensures n.computationDone <==> !reset && f.state == Processing && allPesDone
    ensures n.state == Processing <==>
      !reset && (if f.state == Idle then dataValid else !allPesDone)
  {
    if reset then FsmInitial
    else match f.state
      case Idle => Fsm(if dataValid then Processing else Idle, false)
      case Processing => if allPesDone then Fsm(Idle, true) else Fsm(Processing, false)
  }

  /** `o_computation_done` is a one-edge pulse: it is never high after two
      consecutive edges, from any state. */
  lemma DonePulse(f: Fsm, reset1: bool, valid1: bool, done1: bool, reset2: bool, valid2: bool, done2: bool)
    requires FsmNext(f, reset1, valid1, done1).computationDone
    ensures !FsmNext(FsmNext(f, reset1, valid1, done1), reset2, valid2, done2).computationDone
  {
  }

  /** The FSM after the first n edges of a trace. */
  function FsmRun(f: Fsm, ins: seq<Edge>, n: nat): Fsm
    requires n <= |ins|
  {
    if n == 0 then f
    else
      var e := ins[n - 1];
      FsmNext(FsmRun(f, ins, n - 1), e.reset, e.dataValid, AllPesDone(e.peDones))
  }

  /** No reset and not all PEs done on any edge strictly between s and n. */
  predicate Waiting(ins: seq<Edge>, s: nat, n: nat)
    requires n <= |ins|
  {
    forall t | s < t < n :: !ins[t].reset && !AllPesDone(ins[t].peDones)
  }

  /** Once `data_valid` starts a computation in IDLE, the FSM stays in
      PROCESSING with `o_computation_done` low until an edge on which all
      the PEs are done. */
  lemma {:induction false} ProcessingUntilAllDone(f: Fsm, ins: seq<Edge>, s: nat, n: nat)
    requires s < n <= |ins|
    requires FsmRun(f, ins, s).state == Idle && ins[s].dataValid && !ins[s].reset
    requires Waiting(ins, s, n)
    ensures FsmRun(f, ins, n) == Fsm(Processing, false)
    decreases n
  {
    if n > s + 1 {
      assert Waiting(ins, s, n - 1);
      ProcessingUntilAllDone(f, ins, s, n - 1);
      assert !ins[n - 1].reset && !AllPesDone(ins[n - 1].peDones);
    }
  }

  /** The edge on which all PEs are done ends the computation: the FSM is
      back in IDLE with `o_computation_done` high. */
  lemma {:induction false} CompletesOnAllDone(f: Fsm, ins: seq<Edge>, s: nat, n: nat)
    requires s < n < |ins|
    requires FsmRun(f, ins, s).state == Idle && ins[s].dataValid && !ins[s].reset
    requires Waiting(ins, s, n)
    requires !ins[n].reset && AllPesDone(ins[n].peDones)
    ensures FsmRun(f, ins, n + 1) == Fsm(Idle, true)
  {
    ProcessingUntilAllDone(f, ins, s, n);
  }

  /** The 32-bit field a PE result is evidently meant to occupy: its two's
      complement. */
  function Field(r: int): (x: nat)
    ensures x < TWO_32
    ensures 0 <= r < TWO_32 ==> x == r
  {
    r % TWO_32
  }

  function Fields(results: seq<int>): (xs: seq<nat>)
    ensures |xs| == |results|
    ensures forall k | 0 <= k < |xs| :: xs[k] == Field(results[k])
  {
    seq(|results|, k requires 0 <= k < |results| => Field(results[k]))
  }

  /** A 32-bit field read back as a signed number, as the test bench of
      the array unpacks `o_result_matrix`. */
  function SignedField(x: nat): int
    requires x < Pow2(ACC_WIDTH)
  {
    AccPowers();
    if x >= 0x8000_0000 then x - TWO_32 else x
  }

  /** Reading a stored field back gives the result that was stored. */
  lemma SignedFieldOfField(r: int)
    requires -0x8000_0000 <= r < 0x8000_0000
    ensures Field(r) < Pow2(ACC_WIDTH)
    ensures SignedField(Field(r)) == r
  {
    AccPowers();
  }

  predicate NonNegative(results: seq<int>)
  {
    forall k | 0 <= k < |results| :: results[k] >= 0
  }

  /** One edge of `result_matrix_logic`. As written (`corrected` false),
      each `temp_result_matrix.next[32k+32:32k] = pe_results[k]` ORs the
      result into an unsigned register, so a negative result makes MyHDL
      raise (None). With `corrected`, each result is stored in two's
      complement. */
  function ResultNext(reg: nat, e: Edge, corrected: bool): (r: Option<nat>)
    requires reg < Pow2(NUM_PES * ACC_WIDTH)
    ensures r.Some? ==> r.value < Pow2(NUM_PES * ACC_WIDTH)
  {
    if e.reset || e.clearAcc then Some(0)
    else if !AllPesDone(e.peDones) then Some(reg)
    else if !corrected && !NonNegative(e.peResults) then None
    else
      var fields := Fields(e.peResults);
      AccPowers();
      PackLanesBound(fields, ACC_WIDTH);
      Some(PackLanes(fields, ACC_WIDTH))
  }

  /** Reset and `clear_acc` clear the register; it holds unless all PEs
      are done. */
  lemma ResultClearAndHold(reg: nat, e: Edge, corrected: bool)
    requires reg < Pow2(NUM_PES * ACC_WIDTH)
    ensures e.reset || e.clearAcc ==> ResultNext(reg, e, corrected) == Some(0)
    ensures !e.reset && !e.clearAcc && !(forall k | 0 <= k < NUM_PES :: e.peDones[k]) ==>
      ResultNext(reg, e, corrected) == Some(reg)
  {
  }

  /** A load as written: it raises exactly when some PE result is
      negative, and otherwise field k of the register is `pe_results[k]`. */
  lemma LoadAsWritten(reg: nat, e: Edge)
    requires reg < Pow2(NUM_PES * ACC_WIDTH)
    requires !e.reset && !e.clearAcc && AllPesDone(e.peDones)
    ensures ResultNext(reg, e, false).Some? <==> forall k | 0 <= k < NUM_PES :: e.peResults[k] >= 0
    ensures ResultNext(reg, e, false).Some? ==>
      forall k | 0 <= k < NUM_PES :: Lane(ResultNext(reg, e, false).value, k, ACC_WIDTH) == e.peResults[k]
  {
    if NonNegative(e.peResults) {
      var fields := Fields(e.peResults);
      AccPowers();
      LanesOfPackLanes(fields, ACC_WIDTH);
      assert forall k | 0 <= k < NUM_PES :: Lanes(PackLanes(fields, ACC_WIDTH), NUM_PES, ACC_WIDTH)[k] == fields[k];
    }
  }

  /** The nine results a load edge sees when PE 0 ends at -1. */
  const MINUS_ONE_FIRST: seq<int> := [-1, 0, 0, 0, 0, 0, 0, 0, 0]
  const ALL_DONE: seq<bool> := [true, true, true, true, true, true, true, true, true]
  const NO_OVERFLOW: seq<bool> := [false, false, false, false, false, false, false, false, false]

  /** A dot product of -1 in PE 0 stops the simulation on the load edge. */
  lemma MinusOneRaises(reg: nat)
    requires reg < Pow2(NUM_PES * ACC_WIDTH)
    ensures ResultNext(reg, EdgeInputs(false, false, false, MINUS_ONE_FIRST, NO_OVERFLOW, ALL_DONE), false).None?
  {
    assert !NonNegative(MINUS_ONE_FIRST) by {
      assert MINUS_ONE_FIRST[0] < 0;
    }
  }

  /** The corrected load never raises, and reading each field back as a
      signed 32-bit number gives the PE results. */
  lemma LoadCorrected(reg: nat, e: Edge)
    requires reg < Pow2(NUM_PES * ACC_WIDTH)
    requires !e.reset && !e.clearAcc && AllPesDone(e.peDones)
    ensures ResultNext(reg, e, true).Some?
    ensures forall k | 0 <= k < NUM_PES ::
      SignedField(Lane(ResultNext(reg, e, true).value, k, ACC_WIDTH)) == e.peResults[k]
  {
    var fields := Fields(e.peResults);
    AccPowers();
    LanesOfPackLanes(fields, ACC_WIDTH);
    forall k | 0 <= k < NUM_PES
      ensures SignedField(Lane(PackLanes(fields, ACC_WIDTH), k, ACC_WIDTH)) == e.peResults[k]
    {
      assert Lanes(PackLanes(fields, ACC_WIDTH), NUM_PES, ACC_WIDTH)[k] == fields[k];
      SignedFieldOfField(e.peResults[k]);
    }
  }

  /** Where the source does not raise, the corrected load agrees with it. */
  lemma CorrectedLoadAgrees(reg: nat, e: Edge)
    requires reg < Pow2(NUM_PES * ACC_WIDTH)
    requires ResultNext(reg, e, false).Some?
    ensures ResultNext(reg, e, true) == ResultNext(reg, e, false)
  {
  }

  /** `output_logic`: the result register while `read_enable` is high,
      otherwise 0. */
  function OutputLogic(reg: nat, readEnable: bool): (o: nat)
  {
    if readEnable then reg else 0
  }

  /** Reading after a corrected load: with `read_enable` high every field
      of `o_result_matrix` decodes to its PE's result; with it low every
      field is 0. */
  lemma ReadAfterLoad(reg: nat, e: Edge, readEnable: bool)
    requires reg < Pow2(NUM_PES * ACC_WIDTH)
    requires !e.reset && !e.clearAcc && AllPesDone(e.peDones)
    ensures ResultNext(reg, e, true).Some?
    ensures var o := OutputLogic(ResultNext(reg, e, true).value, readEnable);
      forall k | 0 <= k < NUM_PES ::
        SignedField(Lane(o, k, ACC_WIDTH)) == if readEnable then e.peResults[k] else 0
  {
    LoadCorrected(reg, e);
    if !readEnable {
      forall k | 0 <= k < NUM_PES
        ensures SignedField(Lane(0, k, ACC_WIDTH)) == 0
      {
        LaneOfZero(k, ACC_WIDTH);
      }
    }
  }

  /** The array's clocked registers. */
  class Array3x3 {
    var fsm: Fsm
    var resultReg: nat

    ghost predicate Valid()
      reads this
    {
      resultReg < Pow2(NUM_PES * ACC_WIDTH)
    }

    constructor ()
      ensures Valid() && fsm == FsmInitial && resultReg == 0
    {
      fsm := FsmInitial;
      resultReg := 0;
    }

    function ResultMatrix(readEnable: bool): nat
      reads this
    {
      OutputLogic(resultReg, readEnable)
    }

    function ComputationDone(): bool
      reads this
    {
      fsm.computationDone
    }

    /** One rising edge of both clocked blocks; `ok` is false where MyHDL
        raises, and then the registers are left as they were. */
    method Tick(e: Edge) returns (ok: bool)
      requires Valid()
      modifies this
      ensures Valid()
      ensures ok <==> ResultNext(old(resultReg), e, false).Some?
      ensures ok ==> fsm == FsmNext(old(fsm), e.reset, e.dataValid, AllPesDone(e.peDones))
      ensures ok ==> resultReg == ResultNext(old(resultReg), e, false).value
      ensures !ok ==> fsm == old(fsm) && resultReg == old(resultReg)
    {
      var next := ResultNext(resultReg, e, false);
      ok := next.Some?;
      if ok {
        fsm := FsmNext(fsm, e.reset, e.dataValid, AllPesDone(e.peDones));
        resultReg := next.value;
      }
    }
  }
}
