/** `processing_array` (src/hdl/components/processing_array.py): the
    combinational part of the generic rows x cols array. The input buses are
    cut into data_width-bit slices, PE i*cols+j is wired to A slice i and
    B slice j, the PE results are concatenated into `o_c_matrix`, and
    `o_saturate_detect` is the OR of the PE saturate flags. The PEs
    themselves are not modelled here: their results and flags are inputs. */
module ProcessingArray {
  import opened Bits

  /** `shadow_slices`: slice i of each bus is bits [(i+1)*w : i*w]. */
  method ShadowSlices(aVector: nat, bVector: nat, rows: nat, cols: nat, w: nat)
    returns (aSlices: seq<nat>, bSlices: seq<nat>)
    ensures aSlices == Lanes(aVector, rows, w)
    ensures bSlices == Lanes(bVector, cols, w)
  {
    aSlices := SliceBus(aVector, rows, w);
    bSlices := SliceBus(bVector, cols, w);
  }

  /** One loop of `shadow_slices`, over the n slices of one bus. */
  method SliceBus(vector: nat, n: nat, w: nat) returns (slices: seq<nat>)
    ensures slices == Lanes(vector, n, w)
  {
    slices := [];
    for i := 0 to n
      invariant |slices| == i
      invariant forall k | 0 <= k < i :: slices[k] == Lane(vector, k, w)
    {
      var highBit, lowBit := (i + 1) * w, i * w;
      LaneIsSlice(vector, i, w);
      slices := slices + [Slice(vector, highBit, lowBit)];
    }
  }

  /** Each slice is the MyHDL slice with the source's own bounds. */
  lemma SliceBounds(vector: nat, n: nat, w: nat, i: nat)
    requires i < n
    ensures Lanes(vector, n, w)[i] == Slice(vector, (i + 1) * w, i * w)
  {
    LaneIsSlice(vector, i, w);
  }

  /** The PE instantiation loops: entry pe_idx of the result names the A
      slice and the B slice that PE pe_idx is connected to. */
  method PeWiring(rows: nat, cols: nat) returns (wiring: seq<(nat, nat)>)
    ensures |wiring| == rows * cols
    ensures cols > 0 ==> forall k | 0 <= k < |wiring| :: wiring[k] == (k / cols, k % cols)
  {
    wiring := [];
    for i := 0 to rows
      invariant |wiring| == Offset(i, cols)
      invariant cols > 0 ==> forall k | 0 <= k < |wiring| :: wiring[k] == (k / cols, k % cols)
    {
      for j := 0 to cols
        invariant |wiring| == Offset(i, cols) + j
        invariant cols > 0 ==> forall k | 0 <= k < |wiring| :: wiring[k] == (k / cols, k % cols)
      {
        var peIdx := Offset(i, cols) + j;
        OffsetIsProduct(i, cols);
        DivMulAdd(i, cols, j);
        wiring := wiring + [(i, j)];
      }
    }
    OffsetIsProduct(rows, cols);
  }

  /** PE i*cols+j receives A slice i and B slice j. */
  lemma WiringAt(wiring: seq<(nat, nat)>, rows: nat, cols: nat, i: nat, j: nat)
    requires |wiring| == rows * cols
    requires cols > 0 ==> forall k | 0 <= k < |wiring| :: wiring[k] == (k / cols, k % cols)
    requires i < rows && j < cols
    ensures i * cols + j < |wiring|
    ensures wiring[i * cols + j] == (i, j)
  {
    DivMulAdd(i, cols, j);
    MulRightMonotone(i + 1, rows, cols);
  }

  /** `output_collection`: `concat(*reversed(c_outputs))` puts c_outputs[0]
      in the lowest acc_width bits. */
  function OutputCollection(cOutputs: seq<nat>, accWidth: nat): nat
  {
    PackLanes(cOutputs, accWidth)
  }

  /** Field k of `o_c_matrix` is c_outputs[k], and nothing lies above the
      last field. */
  lemma OutputFields(cOutputs: seq<nat>, accWidth: nat)
    requires Fits(cOutputs, accWidth)
    ensures OutputCollection(cOutputs, accWidth) < Pow2(|cOutputs| * accWidth)
    ensures Lanes(OutputCollection(cOutputs, accWidth), |cOutputs|, accWidth) == cOutputs
    ensures forall k | 0 <= k < |cOutputs| ::
      Slice(OutputCollection(cOutputs, accWidth), (k + 1) * accWidth, k * accWidth) == cOutputs[k]
  {
    PackLanesBound(cOutputs, accWidth);
    LanesOfPackLanes(cOutputs, accWidth);
    SlicesOfPackLanes(cOutputs, accWidth);
  }

  /** `o_c_matrix` is determined by its fields: cutting it into acc_width
      slices and concatenating them again gives it back. */
  lemma OutputFromFields(matrix: nat, n: nat, accWidth: nat)
    requires matrix < Pow2(Offset(n, accWidth))
    ensures OutputCollection(Lanes(matrix, n, accWidth), accWidth) == matrix
  {
    PackLanesOfLanes(matrix, n, accWidth);
    ModSmall(matrix, Pow2(Offset(n, accWidth)));
  }

  /** The OR loop of `output_collection`, with its early exit. */
  method SaturateDetect(flags: seq<bool>) returns (detected: bool)
    ensures detected <==> exists idx | 0 <= idx < |flags| :: flags[idx]
  {
    detected := false;
    var idx := 0;
    while idx < |flags|
      invariant 0 <= idx <= |flags|
      invariant !detected
      invariant forall k | 0 <= k < idx :: !flags[k]
    {
      if flags[idx] {
        detected := true;
        break;
      }
      idx := idx + 1;
    }
  }
}
