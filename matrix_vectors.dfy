/** `extract_matrix_vectors` (tests/utils/hdl_bit_vector_helpers.py): packs
    each column of A and each row of B into one intbv bus, element i in
    bits [(i+1)*w : i*w], so that the array's slicing hands PE (i, j) the
    operands A[i][k] and B[k][j] for the k-th pair of buses. */
module MatrixVectors {
  import opened Bits
  import opened Wrappers

  /** A two-dimensional integer NumPy array: its shape and its rows. */
  datatype Matrix = Matrix(rows: nat, cols: nat, cells: seq<seq<int>>)
  {
    predicate Valid()
    {
      |cells| == rows && forall i | 0 <= i < rows :: |cells[i]| == cols
    }

    /** `A_np[:, j]`. */
    function Column(j: nat): (c: seq<int>)
      requires Valid() && j < cols
      ensures |c| == rows
      ensures forall i | 0 <= i < rows :: c[i] == cells[i][j]
    {
      seq(rows, i requires 0 <= i < rows => cells[i][j])
    }
  }

  /** A vector can be packed: the bus `intbv(0)[len*w : 0]` exists (MyHDL
      refuses a slice with high <= low, so len*w must be positive), and
      every element lies in [0, 2^w) (a larger slice value, or a negative
      one that would drive the bus below 0, raises ValueError). */
  predicate Packable(xs: seq<int>, w: nat)
  {
    |xs| > 0 && w > 0 && forall k | 0 <= k < |xs| :: 0 <= xs[k] < Pow2(w)
  }

  function Naturals(xs: seq<int>): (ns: seq<nat>)
    requires forall k | 0 <= k < |xs| :: 0 <= xs[k]
    ensures |ns| == |xs| && forall k | 0 <= k < |xs| :: ns[k] == xs[k]
  {
    seq(|xs|, k requires 0 <= k < |xs| => xs[k] as nat)
  }

  /** The value of the bus holding xs. */
  function Packed(xs: seq<int>, w: nat): nat
    requires Packable(xs, w)
  {
    PackLanes(Naturals(xs), w)
  }

  /** What `extract_matrix_vectors` returns, or None when it raises. */
  function MatrixVectors(a: Matrix, b: Matrix, w: nat): Option<(seq<nat>, seq<nat>)>
    requires a.Valid() && b.Valid()
  {
    if a.cols != b.rows then None
    else if exists j | 0 <= j < a.cols :: !Packable(a.Column(j), w) then None
    else if exists i | 0 <= i < b.rows :: !Packable(b.cells[i], w) then None
    else Some((seq(a.cols, j requires 0 <= j < a.cols => Packed(a.Column(j), w)),
               seq(b.rows, i requires 0 <= i < b.rows => Packed(b.cells[i], w))))
  }

  /** The two loops of `extract_matrix_vectors`. */
  method ExtractMatrixVectors(a: Matrix, b: Matrix, w: nat) returns (r: Option<(seq<nat>, seq<nat>)>)
    requires a.Valid() && b.Valid()
    ensures r == MatrixVectors(a, b, w)
  {
    if a.cols != b.rows {
      return None;
    }
    var aVectorList: seq<nat> := [];
    for j := 0 to a.cols
      invariant |aVectorList| == j
      invariant forall c | 0 <= c < j :: Packable(a.Column(c), w) && aVectorList[c] == Packed(a.Column(c), w)
    {
      var aVector := PackVector(a.Column(j), w);
      if aVector.None? {
        return None;
      }
      aVectorList := aVectorList + [aVector.value];
    }
    var bVectorList: seq<nat> := [];
    for i := 0 to b.rows
      invariant |bVectorList| == i
      invariant forall c | 0 <= c < i :: Packable(b.cells[c], w) && bVectorList[c] == Packed(b.cells[c], w)
    {
      var bVector := PackVector(b.cells[i], w);
      if bVector.None? {
        return None;
      }
      bVectorList := bVectorList + [bVector.value];
    }
    assert aVectorList == seq(a.cols, j requires 0 <= j < a.cols => Packed(a.Column(j), w));
    assert bVectorList == seq(b.rows, i requires 0 <= i < b.rows => Packed(b.cells[i], w));
    r := Some((aVectorList, bVectorList));
  }

  /** One inner loop: a zero bus of |xs| * w bits, then `vector[(i+1)*w :
      i*w] = int(val)` for each element. The bus is kept as its |xs| fields
      of w bits, which is exact because every write covers one whole field. */
  method PackVector(xs: seq<int>, w: nat) returns (v: Option<nat>)
    ensures v.Some? <==> Packable(xs, w)
    ensures v.Some? ==> v.value == Packed(xs, w)
  {
    if |xs| == 0 || w == 0 {
      return None;
    }
    var fields: seq<nat> := seq(|xs|, _ => 0);
    for i := 0 to |xs|
      invariant |fields| == |xs|
      invariant forall k | 0 <= k < i :: 0 <= xs[k] < Pow2(w) && fields[k] == xs[k]
    {
      var val := xs[i];
      if val < 0 || val >= Pow2(w) {
        return None;
      }
      fields := fields[i := val];
    }
    assert fields == Naturals(xs);
    v := Some(PackLanes(fields, w));
  }

  /** The bus of a packable vector has |xs| * w bits and field k, bits
      [(k+1)*w : k*w] (LaneIsSlice), holds xs[k]. */
  lemma PackedFields(xs: seq<int>, w: nat)
    requires Packable(xs, w)
    ensures Packed(xs, w) < Pow2(|xs| * w)
    ensures forall k | 0 <= k < |xs| :: Lane(Packed(xs, w), k, w) == xs[k]
  {
    var ns := Naturals(xs);
    assert Fits(ns, w);
    PackLanesBound(ns, w);
    forall k | 0 <= k < |xs|
      ensures Lane(Packed(xs, w), k, w) == xs[k]
    {
      PackedField(ns, w, k);
    }
  }

  lemma PackedField(ns: seq<nat>, w: nat, k: nat)
    requires Fits(ns, w) && k < |ns|
    ensures Lane(PackLanes(ns, w), k, w) == ns[k]
  {
    SliceOfPackLanes(ns, w, k);
    LaneIsSlice(PackLanes(ns, w), k, w);
  }

  /** A-vector j holds column j of A, B-vector i holds row i of B: field i
      (bits [(i+1)*w : i*w]) of A-vector j is A[i][j] and field j of
      B-vector i is B[i][j]; there are cols(A) A-vectors of rows(A)*w bits
      and rows(B) B-vectors of cols(B)*w bits. */
  lemma VectorLayout(a: Matrix, b: Matrix, w: nat)
    requires a.Valid() && b.Valid()
    requires MatrixVectors(a, b, w).Some?
    ensures var (aVectors, bVectors) := MatrixVectors(a, b, w).value;
      && |aVectors| == a.cols && |bVectors| == b.rows
      && (forall j | 0 <= j < a.cols :: aVectors[j] < Pow2(a.rows * w))
      && (forall i | 0 <= i < b.rows :: bVectors[i] < Pow2(b.cols * w))
      && (forall i, j | 0 <= i < a.rows && 0 <= j < a.cols :: Lane(aVectors[j], i, w) == a.cells[i][j])
      && (forall i, j | 0 <= i < b.rows && 0 <= j < b.cols :: Lane(bVectors[i], j, w) == b.cells[i][j])
  {
    forall j | 0 <= j < a.cols
      ensures Packed(a.Column(j), w) < Pow2(a.rows * w)
      ensures forall i | 0 <= i < a.rows :: Lane(Packed(a.Column(j), w), i, w) == a.cells[i][j]
    {
      PackedFields(a.Column(j), w);
    }
    forall i | 0 <= i < b.rows
      ensures Packed(b.cells[i], w) < Pow2(b.cols * w)
      ensures forall j | 0 <= j < b.cols :: Lane(Packed(b.cells[i], w), j, w) == b.cells[i][j]
    {
      PackedFields(b.cells[i], w);
    }
  }

  /** Feeding the k-th A-vector and the k-th B-vector to an array that cuts
      its buses into w-bit slices hands PE (i, j) the operands A[i][k] and
      B[k][j]: over k, the PE sees the terms of entry (i, j) of A * B. */
  lemma ArrayReceivesOperands(a: Matrix, b: Matrix, w: nat, k: nat, i: nat, j: nat)
    requires a.Valid() && b.Valid()
    requires MatrixVectors(a, b, w).Some?
    requires k < a.cols && i < a.rows && j < b.cols
    ensures Lanes(MatrixVectors(a, b, w).value.0[k], a.rows, w)[i] == a.cells[i][k]
    ensures Lanes(MatrixVectors(a, b, w).value.1[k], b.cols, w)[j] == b.cells[k][j]
  {
    PackedFields(a.Column(k), w);
    PackedFields(b.cells[k], w);
  }

  /** Matrices of the right shapes whose entries all fit in w bits pack
      without error. */
  lemma FittingMatricesPack(a: Matrix, b: Matrix, w: nat)
    requires a.Valid() && b.Valid()
    requires a.cols == b.rows && w > 0 && a.rows > 0 && b.cols > 0
    requires forall i, j | 0 <= i < a.rows && 0 <= j < a.cols :: 0 <= a.cells[i][j] < Pow2(w)
    requires forall i, j | 0 <= i < b.rows && 0 <= j < b.cols :: 0 <= b.cells[i][j] < Pow2(w)
    ensures MatrixVectors(a, b, w).Some?
  {
    forall j | 0 <= j < a.cols
      ensures Packable(a.Column(j), w)
    {
    }
  }

  /** An entry that does not fit in w bits, or a negative one, makes the
      slice assignment raise. */
  lemma OutOfRangeRaises(a: Matrix, b: Matrix, w: nat, i: nat, j: nat)
    requires a.Valid() && b.Valid()
    requires i < a.rows && j < a.cols
    requires a.cells[i][j] < 0 || a.cells[i][j] >= Pow2(w)
    ensures MatrixVectors(a, b, w) == None
  {
    assert !Packable(a.Column(j), w);
  }
}
