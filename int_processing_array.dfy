/** `processing_array_3x3` of src/hdl/components/int_processing_array.py:
    the second 3x3 integer array, with an IDLE/COMPUTING/DONE handshake.
    The nine processing elements are not part of this model (the
    `processing_element` block is not defined in pe.py); their results,
    overflow flags and done flags are free inputs of every edge. What is
    modelled is `vector_decomposition`, `aggregate_flags`, the `fsm` block
    and `pack_output`. The PE instantiation loop is the loop of the generic
    array with rows = cols = 3 (ProcessingArray.PeWiring). */
module IntProcessingArray {
  import opened Bits
  import opened Wrappers
  import ProcessingArray3x3

  const DATA_WIDTH: nat := 8
  const ACC_WIDTH: nat := 32
  const ARRAY_SIZE: nat := 3
  const NUM_PES: nat := 9

  /** The element signals hold -128 <= v < 128; the PE results
      -2^31 <= v < 2^31. */
  const ELEMENT_MAX: int := 0x80
  const RESULT_MIN: int := -0x8000_0000
  const RESULT_MAX: int := 0x8000_0000

  // ---------------------------------------------------------------------
  // vector_decomposition

  /** Every byte of both buses fits the element signals. */
  predicate Decomposes(aVector: nat, bVector: nat)
  {
    forall i | 0 <= i < ARRAY_SIZE ::
      Lane(aVector, i, DATA_WIDTH) < ELEMENT_MAX && Lane(bVector, i, DATA_WIDTH) < ELEMENT_MAX
  }

  /** `vector_decomposition`: for each i, element i of each bus is bits
      [(i+1)*8 : i*8], an unsigned byte, driven onto a signal that holds
      only bytes below 128. MyHDL raises a ValueError at the first byte
      the signal cannot hold (`ok` false). */
  method VectorDecomposition(aVector: nat, bVector: nat) returns (ok: bool, a: seq<nat>, b: seq<nat>)
    ensures ok <==> Decomposes(aVector, bVector)
    ensures ok ==> a == Lanes(aVector, ARRAY_SIZE, DATA_WIDTH) && b == Lanes(bVector, ARRAY_SIZE, DATA_WIDTH)
  {
    a, b := [], [];
    for i := 0 to ARRAY_SIZE
      invariant |a| == i && |b| == i
      invariant forall k | 0 <= k < i :: a[k] == Lane(aVector, k, DATA_WIDTH) && a[k] < ELEMENT_MAX
      invariant forall k | 0 <= k < i :: b[k] == Lane(bVector, k, DATA_WIDTH) && b[k] < ELEMENT_MAX
    {
      LaneIsSlice(aVector, i, DATA_WIDTH);
      LaneIsSlice(bVector, i, DATA_WIDTH);
      var x := Slice(aVector, (i + 1) * 8, i * 8);
      if x >= ELEMENT_MAX {
        return false, a, b;
      }
      a := a + [x];
      var y := Slice(bVector, (i + 1) * 8, i * 8);
      if y >= ELEMENT_MAX {
        return false, a, b;
      }
      b := b + [y];
    }
    ok := true;
  }

  /** -128 packed in two's complement (0x80) in element 0 of A makes the
      decomposition raise. */
  lemma MostNegativeElementRaises()
    ensures !Decomposes(0x80, 0)
  {
    ProcessingArray3x3.OneByte(0x80);
  }

  /** Buses packed from elements below 128 (such as 127 in every
      element) pass, and decompose into the packed elements. */
  lemma PackedElementsDecompose(xs: seq<nat>, ys: seq<nat>)
    requires |xs| == ARRAY_SIZE && |ys| == ARRAY_SIZE
    requires forall i | 0 <= i < ARRAY_SIZE :: xs[i] < ELEMENT_MAX && ys[i] < ELEMENT_MAX
    ensures Decomposes(PackLanes(xs, DATA_WIDTH), PackLanes(ys, DATA_WIDTH))
    ensures Lanes(PackLanes(xs, DATA_WIDTH), ARRAY_SIZE, DATA_WIDTH) == xs
    ensures Lanes(PackLanes(ys, DATA_WIDTH), ARRAY_SIZE, DATA_WIDTH) == ys
  {
    SmallPowers();
    assert Fits(xs, DATA_WIDTH) && Fits(ys, DATA_WIDTH);
    LanesOfPackLanes(xs, DATA_WIDTH);
    LanesOfPackLanes(ys, DATA_WIDTH);
    var a, b := PackLanes(xs, DATA_WIDTH), PackLanes(ys, DATA_WIDTH);
    forall i | 0 <= i < ARRAY_SIZE
      ensures Lane(a, i, DATA_WIDTH) == xs[i] && Lane(b, i, DATA_WIDTH) == ys[i]
    {
      assert Lanes(a, ARRAY_SIZE, DATA_WIDTH)[i] == xs[i];
      assert Lanes(b, ARRAY_SIZE, DATA_WIDTH)[i] == ys[i];
    }
  }

  /** The decomposition the array evidently intends, each byte read as a
      signed element (ProcessingArray3x3.SignedSlices), agrees with the
      source wherever the source does not raise. */
  lemma SignedDecompositionAgrees(aVector: nat, bVector: nat)
    requires Decomposes(aVector, bVector)
    ensures ProcessingArray3x3.SignedSlices(aVector) == Lanes(aVector, ARRAY_SIZE, DATA_WIDTH)
    ensures ProcessingArray3x3.SignedSlices(bVector) == Lanes(bVector, ARRAY_SIZE, DATA_WIDTH)
  {
  }

  // ---------------------------------------------------------------------
  // aggregate_flags

  datatype Phase = Idle | Computing | Done

  /** A 3x3 grid of PE signals. */
  predicate Square<T>(g: seq<seq<T>>)
  {
    |g| == ARRAY_SIZE && forall i | 0 <= i < ARRAY_SIZE :: |g[i]| == ARRAY_SIZE
  }

  /** `aggregate_flags`: the nested loop ORs the overflow flags (and ANDs
      the done flags into a value nothing reads); `o_computation_done` and
      `o_ready_for_data` follow the state alone. */
  method AggregateFlags(state: Phase, dones: seq<seq<bool>>, overflows: seq<seq<bool>>)
    returns (computationDone: bool, overflowDetected: bool, readyForData: bool)
    requires Square(dones) && Square(overflows)
    ensures overflowDetected <==> exists i, j | 0 <= i < ARRAY_SIZE && 0 <= j < ARRAY_SIZE :: overflows[i][j]
    ensures computationDone <==> state == Done
    ensures readyForData <==> state == Idle
  {
    var doneSum := true;
    var overflowSum := false;
    for i := 0 to ARRAY_SIZE
      invariant doneSum <==> forall p, q | 0 <= p < i && 0 <= q < ARRAY_SIZE :: dones[p][q]
      invariant overflowSum <==> exists p, q | 0 <= p < i && 0 <= q < ARRAY_SIZE :: overflows[p][q]
    {
      for j := 0 to ARRAY_SIZE
        invariant doneSum <==>
          (forall p, q | 0 <= p < i && 0 <= q < ARRAY_SIZE :: dones[p][q]) && forall q | 0 <= q < j :: dones[i][q]
        invariant overflowSum <==>
          (exists p, q | 0 <= p < i && 0 <= q < ARRAY_SIZE :: overflows[p][q]) || exists q | 0 <= q < j :: overflows[i][q]
      {
        doneSum := doneSum && dones[i][j];
        overflowSum := overflowSum || overflows[i][j];
      }
    }
    computationDone := state == Done;
    overflowDetected := overflowSum;
    readyForData := state == Idle;
  }

  // ---------------------------------------------------------------------
  // One clock edge

  /** The array's inputs on one edge, with what the PEs drive. */
  datatype EdgeInputs = EdgeInputs(
    reset: bool, dataValid: bool, readEnable: bool,
    peResults: seq<seq<int>>, peDones: seq<seq<bool>>)
  {
    predicate Valid()
    {
      && Square(peResults) && Square(peDones)
      && forall i, j | 0 <= i < ARRAY_SIZE && 0 <= j < ARRAY_SIZE :: RESULT_MIN <= peResults[i][j] < RESULT_MAX
    }

    /** `all(pe_dones[i][j] ...)`. */
    predicate AllDone()
      requires Valid()
    {
      forall i, j | 0 <= i < ARRAY_SIZE && 0 <= j < ARRAY_SIZE :: peDones[i][j]
    }
  }

  type Edge = e: EdgeInputs | e.Valid()
    witness EdgeInputs(false, false, false,
      [[0, 0, 0], [0, 0, 0], [0, 0, 0]],
      [[false, false, false], [false, false, false], [false, false, false]])

  /** The registers of the `fsm` block. */
  datatype Fsm = Fsm(state: Phase, internalEnable: bool)
  {
    /** `internal_enable` is only ever high in COMPUTING. */
    predicate Valid()
    {
      internalEnable ==> state == Computing
    }
  }

  const FsmInitial: Fsm := Fsm(Idle, false)

  /** One edge of `fsm`; reset is the `always_seq` reset to the initial
      values. A state the source leaves unassigned keeps its value. */
  function FsmNext(f: Fsm, reset: bool, dataValid: bool, allDone: bool): Fsm
  {
    if reset then FsmInitial
    else match f.state
      case Idle => if dataValid then Fsm(Computing, true) else f
      case Computing => Fsm(if allDone then Done else Computing, false)
      case Done => if dataValid then f else f.(state := Idle)
  }

  /** Where each state is entered from, and the enable pulse: from a valid
      state, `internal_enable` is high after an edge exactly when that edge
      started a computation. */
  lemma FsmEdge(f: Fsm, reset: bool, dataValid: bool, allDone: bool)
    requires f.Valid()
    ensures var n := FsmNext(f, reset, dataValid, allDone);
      && n.Valid()
      && (n.internalEnable <==> !reset && f.state == Idle && dataValid)
      && (n.state == Computing <==> !reset && ((f.state == Idle && dataValid) || (f.state == Computing && !allDone)))
      && (n.state == Done <==> !reset && ((f.state == Computing && allDone) || (f.state == Done && dataValid)))
      && (n.state == Idle <==> reset || (f.state != Computing && !dataValid))
  {
  }

  /** The FSM after the first n edges of a trace. */
  function FsmRun(f: Fsm, ins: seq<Edge>, n: nat): Fsm
    requires n <= |ins|
  {
    if n == 0 then f
    else
      var e := ins[n - 1];
      FsmNext(FsmRun(f, ins, n - 1), e.reset, e.dataValid, e.AllDone())
  }

  /** No reset, and not all PEs done, on any edge strictly between s and n. */
  predicate Waiting(ins: seq<Edge>, s: nat, n: nat)
    requires n <= |ins|
  {
    forall t | s < t < n :: !ins[t].reset && !ins[t].AllDone()
  }

  /** The handshake: after `data_valid` starts a computation in IDLE, the
      array stays in COMPUTING with `internal_enable` low from the second
      edge on, until an edge on which all PEs are done. */
  lemma {:induction false} ComputingUntilAllDone(f: Fsm, ins: seq<Edge>, s: nat, n: nat)
    requires s < n <= |ins|
    requires FsmRun(f, ins, s).state == Idle && ins[s].dataValid && !ins[s].reset
    requires Waiting(ins, s, n)
    ensures FsmRun(f, ins, n) == Fsm(Computing, n == s + 1)
    decreases n
  {
    if n > s + 1 {
      assert Waiting(ins, s, n - 1);
      ComputingUntilAllDone(f, ins, s, n - 1);
      assert !ins[n - 1].reset && !ins[n - 1].AllDone();
    }
  }

  /** ... and on that edge it moves to DONE, where `o_computation_done` is
      high until `data_valid` is low. */
  lemma ReachesDone(f: Fsm, ins: seq<Edge>, s: nat, n: nat)
    requires s < n < |ins|
    requires FsmRun(f, ins, s).state == Idle && ins[s].dataValid && !ins[s].reset
    requires Waiting(ins, s, n)
    requires !ins[n].reset && ins[n].AllDone()
    ensures FsmRun(f, ins, n + 1) == Fsm(Done, false)
  {
    ComputingUntilAllDone(f, ins, s, n);
  }

  // ---------------------------------------------------------------------
  // pack_output

  /** The result slots in the order the nested loop writes them: slot
      3i+j holds PE (i, j). */
  function FlatResults(results: seq<seq<int>>): (r: seq<int>)
    requires Square(results)
    ensures |r| == NUM_PES
    ensures forall i, j | 0 <= i < ARRAY_SIZE && 0 <= j < ARRAY_SIZE :: r[3 * i + j] == results[i][j]
  {
    results[0] + results[1] + results[2]
  }

  /** The nested loop of `pack_output`: `result_reg[(idx+1)*32 : idx*32]
      = pe_results[i][j]` for idx = 3i+j. As written (`corrected` false)
      `result_reg` is a Signal, which takes no item assignment, so the
      first write raises a TypeError (`ok` false). Corrected, the nine
      32-bit fields of the register take the results in two's
      complement. */
  method WriteResults(results: seq<seq<int>>, corrected: bool) returns (ok: bool, slots: seq<nat>)
    requires Square(results)
    ensures ok <==> corrected
    ensures ok ==> slots == ProcessingArray3x3.Fields(FlatResults(results))
  {
    slots := [];
    for i := 0 to ARRAY_SIZE
      invariant |slots| == 3 * i
      invariant !corrected ==> i == 0
      invariant forall p, q | 0 <= p < i && 0 <= q < ARRAY_SIZE ::
        slots[3 * p + q] == ProcessingArray3x3.Field(results[p][q])
    {
      for j := 0 to ARRAY_SIZE
        invariant |slots| == 3 * i + j
        invariant !corrected ==> j == 0
        invariant forall p, q | 0 <= p < i && 0 <= q < ARRAY_SIZE ::
          slots[3 * p + q] == ProcessingArray3x3.Field(results[p][q])
        invariant forall q | 0 <= q < j :: slots[3 * i + q] == ProcessingArray3x3.Field(results[i][q])
      {
        if !corrected {
          return false, slots;
        }
        slots := slots + [ProcessingArray3x3.Field(results[i][j])];
      }
    }
    ok := true;
    var flat := FlatResults(results);
    forall idx | 0 <= idx < NUM_PES
      ensures slots[idx] == ProcessingArray3x3.Field(flat[idx])
    {
      assert idx == 3 * (idx / 3) + idx % 3;
    }
  }

  /** The registers `pack_output` drives or writes: the nine fields of
      `result_reg` and the `o_result_matrix` port. */
  datatype Output = Output(slots: seq<nat>, resultMatrix: nat)
  {
    predicate Valid()
    {
      |slots| == NUM_PES && Fits(slots, ACC_WIDTH)
    }
  }

  /** Both registers as reset leaves them: nine zero fields and a zero
      port. */
  const Cleared: Output := Output([0, 0, 0, 0, 0, 0, 0, 0, 0], 0)

  /** One edge of `pack_output`, as the function the loop is checked
      against. The slots are written in place, so `o_result_matrix` takes
      the values written on the same edge. The reset of `always_seq`
      restores every output of the block, `result_reg` (the target of the
      slice stores) as well as the port. As written a read in DONE raises
      (None). */
  function PackNext(o: Output, f: Fsm, e: Edge, corrected: bool): (r: Option<Output>)
    requires o.Valid()
    ensures r.Some? ==> r.value.Valid()
  {
    if e.reset then Some(Cleared)
    else if e.readEnable && f.state == Done then
      if !corrected then None
      else
        var slots := ProcessingArray3x3.Fields(FlatResults(e.peResults));
        ProcessingArray3x3.AccPowers();
        Some(Output(slots, PackLanes(slots, ACC_WIDTH)))
    else Some(o.(resultMatrix := PackLanes(o.slots, ACC_WIDTH)))
  }

  /** As written, the array never delivers a result: every read in DONE
      raises, reset clears the nine fields, and every other edge leaves
      them as they were, so from reset on they stay 0. */
  lemma ReadInDone(o: Output, f: Fsm, e: Edge)
    requires o.Valid()
    ensures PackNext(o, f, e, false).None? <==> !e.reset && e.readEnable && f.state == Done
    ensures PackNext(o, f, e, false).Some? ==> PackNext(o, f, e, false).value.slots == if e.reset then Cleared.slots else o.slots
  {
  }

  /** A read in DONE, corrected: it never raises, and each field of
      `o_result_matrix` read back as a signed 32-bit number is the PE's
      result. */
  lemma CorrectedReadInDone(o: Output, f: Fsm, e: Edge)
    requires o.Valid() && !e.reset && e.readEnable && f.state == Done
    ensures PackNext(o, f, e, true).Some?
    ensures forall i, j | 0 <= i < ARRAY_SIZE && 0 <= j < ARRAY_SIZE ::
      ProcessingArray3x3.SignedField(Lane(PackNext(o, f, e, true).value.resultMatrix, 3 * i + j, ACC_WIDTH))
        == e.peResults[i][j]
  {
    ReadFields(o, f, e);
    forall i, j | 0 <= i < ARRAY_SIZE && 0 <= j < ARRAY_SIZE
      ensures ProcessingArray3x3.SignedField(Lane(PackNext(o, f, e, true).value.resultMatrix, 3 * i + j, ACC_WIDTH))
        == e.peResults[i][j]
    {
      ProcessingArray3x3.SignedFieldOfField(e.peResults[i][j]);
    }
  }

  /** Field 3i+j of the port after a corrected read is the stored form of
      `pe_results[i][j]`. */
  lemma ReadFields(o: Output, f: Fsm, e: Edge)
    requires o.Valid() && !e.reset && e.readEnable && f.state == Done
    ensures PackNext(o, f, e, true).Some?
    ensures forall i, j | 0 <= i < ARRAY_SIZE && 0 <= j < ARRAY_SIZE ::
      Lane(PackNext(o, f, e, true).value.resultMatrix, 3 * i + j, ACC_WIDTH)
        == ProcessingArray3x3.Field(e.peResults[i][j])
  {
    var flat := FlatResults(e.peResults);
    var slots := ProcessingArray3x3.Fields(flat);
    ProcessingArray3x3.AccPowers();
    LanesOfPackLanes(slots, ACC_WIDTH);
    forall i, j | 0 <= i < ARRAY_SIZE && 0 <= j < ARRAY_SIZE
      ensures Lane(PackLanes(slots, ACC_WIDTH), 3 * i + j, ACC_WIDTH) == ProcessingArray3x3.Field(e.peResults[i][j])
    {
      assert Lanes(PackLanes(slots, ACC_WIDTH), NUM_PES, ACC_WIDTH)[3 * i + j] == slots[3 * i + j];
    }
  }

  /** Outside a read in DONE the port shows the fields already held, and
      reset clears both the fields and the port. */
  lemma PortShowsHeldFields(o: Output, f: Fsm, e: Edge, corrected: bool)
    requires o.Valid() && !(e.readEnable && f.state == Done)
    ensures PackNext(o, f, e, corrected).Some?
    ensures !e.reset ==> PackNext(o, f, e, corrected).value.slots == o.slots
    ensures !e.reset ==> Lanes(PackNext(o, f, e, corrected).value.resultMatrix, NUM_PES, ACC_WIDTH) == o.slots
    ensures e.reset ==> forall k | 0 <= k < NUM_PES :: PackNext(o, f, e, corrected).value.slots[k] == 0
    ensures e.reset ==> PackNext(o, f, e, corrected).value.resultMatrix == 0
  {
    LanesOfPackLanes(o.slots, ACC_WIDTH);
  }

  /** The array's clocked registers. */
  class IntArray {
    var fsm: Fsm
    var out: Output

    ghost predicate Valid()
      reads this
    {
      fsm.Valid() && out.Valid()
    }

    constructor ()
      ensures Valid() && fsm == FsmInitial && out == Cleared
    {
      fsm := FsmInitial;
      out := Cleared;
    }

    /** One rising edge of `fsm` and `pack_output`, both reading the
        state before the edge; `ok` is false where MyHDL raises, and then
        the registers are left as they were. */
    method Tick(e: Edge) returns (ok: bool)
      requires Valid()
      modifies this
      ensures Valid()
      ensures ok <==> PackNext(old(out), old(fsm), e, false).Some?
      ensures ok ==> fsm == FsmNext(old(fsm), e.reset, e.dataValid, e.AllDone())
      ensures ok ==> out == PackNext(old(out), old(fsm), e, false).value
      ensures !ok ==> fsm == old(fsm) && out == old(out)
    {
      var nextOut: Output;
      if e.reset {
        nextOut := Cleared;
      } else if e.readEnable && fsm.state == Done {
        var written, slots := WriteResults(e.peResults, false);
        if !written {
          return false;
        }
        ProcessingArray3x3.AccPowers();
        nextOut := Output(slots, PackLanes(slots, ACC_WIDTH));
      } else {
        nextOut := out.(resultMatrix := PackLanes(out.slots, ACC_WIDTH));
      }
      FsmEdge(fsm, e.reset, e.dataValid, e.AllDone());
      fsm := FsmNext(fsm, e.reset, e.dataValid, e.AllDone());
      out := nextOut;
      ok := true;
    }
  }
}
