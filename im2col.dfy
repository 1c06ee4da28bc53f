/** The im2col walkthrough (scripts/im2_column_example.py): direct
    convolution, the im2col transform and its multi-channel, strided and
    padded form, and convolution as a kernel-vector by im2col-matrix
    product. A numpy array is a sequence of rows of reals; a
    three-dimensional one a sequence of such planes. */
module Im2col {
  import opened Bits
  import opened Wrappers

  type Matrix = seq<seq<real>>

  /** An array of shape (h, w). */
  predicate IsMatrix<T>(m: seq<seq<T>>, h: nat, w: nat)
  {
    |m| == h && forall i | 0 <= i < h :: |m[i]| == w
  }

  /** The second dimension of an array (its first row's length). */
  function Width<T>(m: seq<seq<T>>): nat
  {
    if |m| == 0 then 0 else |m[0]|
  }

  /** A rectangular array: every row as long as the first. */
  predicate Rect<T>(m: seq<seq<T>>)
  {
    IsMatrix(m, |m|, Width(m))
  }

  /** `np.zeros((h, w))`. */
  function Zeros(h: nat, w: nat): (m: Matrix)
    ensures IsMatrix(m, h, w)
    ensures forall i, j | 0 <= i < h && 0 <= j < w :: m[i][j] == 0.0
  {
    seq(h, _ => seq(w, _ => 0.0))
  }

  /** The next multiple of w. */
  lemma MulStep(a: nat, w: nat)
    ensures (a + 1) * w == a * w + w
  {
  }

  /** Block a + 1 of h blocks of w starts w after block a and ends within
      the h * w. */
  lemma NextBlock(a: nat, h: nat, w: nat)
    requires a < h
    ensures (a + 1) * w == a * w + w && a * w + w <= h * w
  {
    MulRightMonotone(a + 1, h, w);
  }

  /** Every index below h * w is a * w + b for one cell (a, b) of an h x w
      grid. */
  lemma RowMajorOf(k: nat, h: nat, w: nat) returns (a: nat, b: nat)
    requires k < h * w
    ensures a < h && b < w && k == a * w + b
  {
    a, b := k / w, k % w;
    if a >= h {
      MulRightMonotone(h, a, w);
    }
  }

  // ---------------------------------------------------------------------
  // Row-major index arithmetic

  /** Position (a, b) of an array of width w comes before position (p, q)
      in row-major order exactly when a * w + b < p * w + q. */
  lemma RowMajorBefore(a: nat, b: nat, p: nat, q: nat, w: nat)
    requires b < w && q <= w
    ensures (a < p || (a == p && b < q)) <==> a * w + b < p * w + q
  {
    if a < p {
      MulRightMonotone(a + 1, p, w);
    } else if a > p {
      MulRightMonotone(p + 1, a, w);
    }
  }

  /** Index (a, b) of an h x w array, flattened row-major, is below h * w. */
  lemma RowMajorBound(a: nat, b: nat, h: nat, w: nat)
    requires a < h && b < w
    ensures a * w + b < h * w
  {
    RowMajorBefore(a, b, h, 0, w);
  }

  lemma {:induction false} MulAssoc(x: nat, y: nat, z: nat)
    ensures x * y * z == x * (y * z)
  {
    if x > 0 {
      MulAssoc(x - 1, y, z);
      assert x * y == (x - 1) * y + y;
      assert x * (y * z) == (x - 1) * (y * z) + y * z;
    }
  }

  /** The row-major position a * w + b splits back into a and b. */
  lemma RowMajorSplit(a: nat, b: nat, w: nat)
    requires b < w
    ensures (a * w + b) / w == a && (a * w + b) % w == b
  {
    DivMulAdd(a, w, b);
  }

  // ---------------------------------------------------------------------
  // flatten, reshape and dot

  /** `flatten()`: the rows one after another (row-major order). */
  function Flatten<T>(m: seq<seq<T>>): seq<T>
  {
    if |m| == 0 then [] else m[0] + Flatten(m[1..])
  }

  lemma {:induction false} FlattenLength<T>(m: seq<seq<T>>, h: nat, w: nat)
    requires IsMatrix(m, h, w)
    ensures |Flatten(m)| == Offset(h, w)
  {
    if h > 0 {
      FlattenLength(m[1..], h - 1, w);
    }
  }

  lemma {:induction false} FlattenAtOffset<T>(m: seq<seq<T>>, h: nat, w: nat, a: nat, b: nat)
    requires IsMatrix(m, h, w) && a < h && b < w
    ensures |Flatten(m)| == Offset(h, w)
    ensures Offset(a, w) + b < Offset(h, w)
    ensures Flatten(m)[Offset(a, w) + b] == m[a][b]
    decreases h
  {
    FlattenLength(m, h, w);
    if a > 0 {
      FlattenAtOffset(m[1..], h - 1, w, a - 1, b);
    }
  }

  /** Flattening a sequence of arrays with n columns gives an array with n
      columns. */
  lemma {:induction false} FlattenRows<T>(m: seq<seq<seq<T>>>, n: nat)
    requires forall i | 0 <= i < |m| :: IsMatrix(m[i], |m[i]|, n)
    ensures IsMatrix(Flatten(m), |Flatten(m)|, n)
  {
    if |m| > 0 {
      FlattenRows(m[1..], n);
    }
  }

  /** Flattening an h x w array gives h * w elements, entry (a, b) at
      position a * w + b. */
  lemma FlattenAt<T>(m: seq<seq<T>>, h: nat, w: nat, a: nat, b: nat)
    requires IsMatrix(m, h, w) && a < h && b < w
    ensures |Flatten(m)| == h * w && a * w + b < h * w
    ensures Flatten(m)[a * w + b] == m[a][b]
  {
    FlattenAtOffset(m, h, w, a, b);
    OffsetIsProduct(h, w);
    OffsetIsProduct(a, w);
  }

  lemma FlattenSize<T>(m: seq<seq<T>>, h: nat, w: nat)
    requires IsMatrix(m, h, w)
    ensures |Flatten(m)| == h * w
  {
    FlattenLength(m, h, w);
    OffsetIsProduct(h, w);
  }

  /** Element a * w + b of a row-major vector of h * w elements. */
  function RowMajorAt(v: seq<real>, h: nat, w: nat, a: nat, b: nat): real
    requires |v| == h * w && a < h && b < w
  {
    RowMajorBound(a, b, h, w);
    v[a * w + b]
  }

  /** `v.reshape(h, w)`: the vector cut into h rows of w. */
  function Reshape(v: seq<real>, h: nat, w: nat): (m: Matrix)
    requires |v| == h * w
    ensures IsMatrix(m, h, w)
  {
    seq(h, a requires 0 <= a < h => seq(w, b requires 0 <= b < w => RowMajorAt(v, h, w, a, b)))
  }

  /** Reshaping undoes flattening. */
  lemma ReshapeFlatten(m: Matrix, h: nat, w: nat)
    requires IsMatrix(m, h, w)
    ensures |Flatten(m)| == h * w && Reshape(Flatten(m), h, w) == m
  {
    FlattenSize(m, h, w);
    var r := Reshape(Flatten(m), h, w);
    forall a | 0 <= a < h
      ensures r[a] == m[a]
    {
      forall b | 0 <= b < w
        ensures r[a][b] == m[a][b]
      {
        FlattenAt(m, h, w, a, b);
      }
    }
  }

  /** The sum of the products of corresponding elements. */
  function Dot(x: seq<real>, y: seq<real>): real
    requires |x| == |y|
  {
    if |x| == 0 then 0.0 else x[0] * y[0] + Dot(x[1..], y[1..])
  }

  lemma {:induction false} DotSymmetric(x: seq<real>, y: seq<real>)
    requires |x| == |y|
    ensures Dot(x, y) == Dot(y, x)
  {
    if |x| > 0 {
      DotSymmetric(x[1..], y[1..]);
    }
  }

  /** Column c of an array with n columns. */
  function Column(m: Matrix, n: nat, c: nat): (col: seq<real>)
    requires IsMatrix(m, |m|, n) && c < n
    ensures |col| == |m| && forall r | 0 <= r < |m| :: col[r] == m[r][c]
  {
    seq(|m|, r requires 0 <= r < |m| => m[r][c])
  }

  /** `np.dot(v, m)` for a vector v and a two-dimensional m: element c is
      v weighted by column c. */
  function VecMat(v: seq<real>, m: Matrix, n: nat): (r: seq<real>)
    requires IsMatrix(m, |v|, n)
    ensures |r| == n && forall c | 0 <= c < n :: r[c] == Dot(v, Column(m, n, c))
  {
    seq(n, c requires 0 <= c < n => Dot(v, Column(m, n, c)))
  }

  /** `m[:, c] = v`. */
  function SetColumn(m: Matrix, n: nat, c: nat, v: seq<real>): (r: Matrix)
    requires IsMatrix(m, |v|, n) && c < n
    ensures IsMatrix(r, |v|, n)
    ensures forall i, j | 0 <= i < |v| && 0 <= j < n ::
      r[i][j] == if j == c then v[i] else m[i][j]
  {
    seq(|v|, i requires 0 <= i < |v| => m[i][c := v[i]])
  }

  // ---------------------------------------------------------------------
  // Kernel positions

  /** `(n - k) // s + 1`: how many kernel positions fit along an axis.
      Python's floor division makes it 0 for a kernel up to s longer than
      the axis; a longer kernel gives a negative size, which `np.zeros`
      refuses. */
  function OutDim(n: nat, k: nat, s: nat): (d: nat)
    requires k <= n + s && s >= 1
    ensures d >= 1 <==> k <= n
  {
    if k <= n then (n - k) / s + 1 else 0
  }

  /** Position i lies inside the output exactly when its patch, starting
      at i * s, ends inside the image. */
  lemma StrideFits(n: nat, k: nat, s: nat, i: nat)
    requires k <= n + s && s >= 1
    ensures i < OutDim(n, k, s) <==> i * s + k <= n
  {
    if k <= n {
      var q := (n - k) / s;
      if i <= q {
        MulRightMonotone(i, q, s);
      } else {
        MulRightMonotone(q + 1, i, s);
      }
    }
  }

  /** The stride is positive and the kernel is at most a stride longer
      than the image along each axis, so that the output has a size (no
      size at all when the kernel is longer than the image). */
  predicate KernelFits(img: Matrix, kh: nat, kw: nat, s: nat)
  {
    Rect(img) && 1 <= kh <= |img| + s && 1 <= kw <= Width(img) + s && s >= 1
  }

  /** The same for an actual kernel array. */
  predicate ConvShape(img: Matrix, ker: Matrix, s: nat)
  {
    Rect(ker) && KernelFits(img, |ker|, Width(ker), s)
  }

  /** `m[r0 : r0 + h, c0 : c0 + w]`, inside the bounds of m. */
  function Block(m: Matrix, r0: nat, c0: nat, h: nat, w: nat): (b: Matrix)
    requires Rect(m) && r0 + h <= |m| && c0 + w <= Width(m)
    ensures IsMatrix(b, h, w)
    ensures forall a, c | 0 <= a < h && 0 <= c < w :: b[a][c] == m[r0 + a][c0 + c]
  {
    seq(h, a requires 0 <= a < h => m[r0 + a][c0 .. c0 + w])
  }

  /** The flattened patch under the kernel at output position (i, j): rows
      i*s .. i*s+kh-1 and columns j*s .. j*s+kw-1 of the image. */
  function PatchAt(img: Matrix, kh: nat, kw: nat, s: nat, i: nat, j: nat): (p: seq<real>)
    requires KernelFits(img, kh, kw, s)
    requires i < OutDim(|img|, kh, s) && j < OutDim(Width(img), kw, s)
    ensures |p| == kh * kw
  {
    StrideFits(|img|, kh, s, i);
    StrideFits(Width(img), kw, s, j);
    var b := Block(img, i * s, j * s, kh, kw);
    FlattenSize(b, kh, kw);
    Flatten(b)
  }

  /** Element a * kw + b of that patch is image entry (i*s + a, j*s + b). */
  lemma PatchEntry(img: Matrix, kh: nat, kw: nat, s: nat, i: nat, j: nat, a: nat, b: nat)
    requires KernelFits(img, kh, kw, s)
    requires i < OutDim(|img|, kh, s) && j < OutDim(Width(img), kw, s)
    requires a < kh && b < kw
    ensures var y, x, r := i * s + a, j * s + b, a * kw + b;
      && y < |img| && x < Width(img) && r < kh * kw
      && PatchAt(img, kh, kw, s, i, j)[r] == img[y][x]
  {
    StrideFits(|img|, kh, s, i);
    StrideFits(Width(img), kw, s, j);
    FlattenAt(Block(img, i * s, j * s, kh, kw), kh, kw, a, b);
  }

  // ---------------------------------------------------------------------
  // direct_convolution

  /** Output entry (i, j): the patch at (i * s, j * s) weighted by the
      kernel, `np.sum(roi * kernel)`. */
  function ConvOut(img: Matrix, ker: Matrix, s: nat, i: nat, j: nat): real
    requires ConvShape(img, ker, s)
    requires i < OutDim(|img|, |ker|, s) && j < OutDim(Width(img), Width(ker), s)
  {
    FlattenSize(ker, |ker|, Width(ker));
    Dot(PatchAt(img, |ker|, Width(ker), s, i, j), Flatten(ker))
  }

  /** What a convolution of img by ker with stride s is. */
  function Convolution(img: Matrix, ker: Matrix, s: nat): (out: Matrix)
    requires ConvShape(img, ker, s)
    ensures IsMatrix(out, OutDim(|img|, |ker|, s), OutDim(Width(img), Width(ker), s))
  {
    var oh, ow := OutDim(|img|, |ker|, s), OutDim(Width(img), Width(ker), s);
    seq(oh, i requires 0 <= i < oh => seq(ow, j requires 0 <= j < ow => ConvOut(img, ker, s, i, j)))
  }

  /** `direct_convolution`: slides the kernel over the image and fills the
      zeroed output entry by entry. */
  method DirectConvolution(img: Matrix, ker: Matrix, s: nat) returns (output: Matrix)
    requires ConvShape(img, ker, s)
    ensures output == Convolution(img, ker, s)
  {
    var kh, kw := |ker|, Width(ker);
    var oh, ow := OutDim(|img|, kh, s), OutDim(Width(img), kw, s);
    output := Zeros(oh, ow);
    for i := 0 to oh
      invariant IsMatrix(output, oh, ow)
      invariant forall p | 0 <= p < i :: output[p] == Convolution(img, ker, s)[p]
    {
      output := DirectRow(img, ker, s, output, i);
    }
  }

  /** The inner loop of `direct_convolution`: output row i, one region of
      interest at a time. */
  method DirectRow(img: Matrix, ker: Matrix, s: nat, output0: Matrix, i: nat) returns (output: Matrix)
    requires ConvShape(img, ker, s)
    requires i < |output0| == OutDim(|img|, |ker|, s) && |output0[i]| == OutDim(Width(img), Width(ker), s)
    ensures output == output0[i := Convolution(img, ker, s)[i]]
  {
    var kh, kw := |ker|, Width(ker);
    var ow := OutDim(Width(img), kw, s);
    StrideFits(|img|, kh, s, i);
    FlattenSize(ker, kh, kw);
    var row := output0[i];
    for j := 0 to ow
      invariant |row| == ow
      invariant forall q | 0 <= q < j :: row[q] == ConvOut(img, ker, s, i, q)
    {
      StrideFits(Width(img), kw, s, j);
      var roi := Block(img, i * s, j * s, kh, kw);
      FlattenSize(roi, kh, kw);
      row := row[j := Dot(Flatten(roi), Flatten(ker))];
    }
    assert row == Convolution(img, ker, s)[i];
    output := output0[i := row];
  }

  // ---------------------------------------------------------------------
  // im2col and convolution_im2col

  /** The patches under the kernel, by output position. */
  function PatchGrid(img: Matrix, kh: nat, kw: nat, s: nat): (g: seq<seq<seq<real>>>)
    requires KernelFits(img, kh, kw, s)
    ensures IsMatrix(g, OutDim(|img|, kh, s), OutDim(Width(img), kw, s))
  {
    var oh, ow := OutDim(|img|, kh, s), OutDim(Width(img), kw, s);
    seq(oh, i requires 0 <= i < oh => seq(ow, j requires 0 <= j < ow => PatchAt(img, kh, kw, s, i, j)))
  }

  /** The patches in the order `im2col` visits them: rows of output
      positions top to bottom, each left to right. */
  function PatchColumns(img: Matrix, kh: nat, kw: nat, s: nat): (cols: seq<seq<real>>)
    requires KernelFits(img, kh, kw, s)
    ensures |cols| == OutDim(|img|, kh, s) * OutDim(Width(img), kw, s)
  {
    FlattenSize(PatchGrid(img, kh, kw, s), OutDim(|img|, kh, s), OutDim(Width(img), kw, s));
    Flatten(PatchGrid(img, kh, kw, s))
  }

  /** There are oh * ow of them, and number i * ow + j is the patch at
      output position (i, j). */
  lemma PatchColumnsAt(img: Matrix, kh: nat, kw: nat, s: nat, i: nat, j: nat)
    requires KernelFits(img, kh, kw, s)
    requires i < OutDim(|img|, kh, s) && j < OutDim(Width(img), kw, s)
    ensures var ow := OutDim(Width(img), kw, s);
      && |PatchColumns(img, kh, kw, s)| == OutDim(|img|, kh, s) * ow
      && i * ow + j < |PatchColumns(img, kh, kw, s)|
      && PatchColumns(img, kh, kw, s)[i * ow + j] == PatchAt(img, kh, kw, s, i, j)
  {
    FlattenAt(PatchGrid(img, kh, kw, s), OutDim(|img|, kh, s), OutDim(Width(img), kw, s), i, j);
  }

  /** m holds v as column c. */
  predicate ColumnIs(m: Matrix, c: nat, v: seq<real>)
  {
    |m| == |v| && forall r | 0 <= r < |m| :: c < |m[r]| && m[r][c] == v[r]
  }

  /** `im2col`: a (kh * kw) x (oh * ow) array whose column c is the c-th
      patch `im2col` visits, flattened row-major (PatchColumnsAt). */
  method Im2colMatrix(img: Matrix, kh: nat, kw: nat, s: nat) returns (m: Matrix)
    requires KernelFits(img, kh, kw, s)
    ensures IsMatrix(m, kh * kw, OutDim(|img|, kh, s) * OutDim(Width(img), kw, s))
    ensures forall c | 0 <= c < OutDim(|img|, kh, s) * OutDim(Width(img), kw, s) ::
      ColumnIs(m, c, PatchColumns(img, kh, kw, s)[c])
  {
    var oh, ow := OutDim(|img|, kh, s), OutDim(Width(img), kw, s);
    m := Zeros(kh * kw, oh * ow);
    var colIdx := 0;
    var i := 0;
    ghost var ii := 0;
    while i < |img| - kh + 1
      invariant ii <= oh && i == ii * s && colIdx == ii * ow && colIdx <= oh * ow
      invariant IsMatrix(m, kh * kw, oh * ow)
      invariant forall c | 0 <= c < colIdx :: ColumnIs(m, c, PatchColumns(img, kh, kw, s)[c])
      decreases oh - ii
    {
      StrideFits(|img|, kh, s, ii);
      m, colIdx := FillPatchRow(img, kh, kw, s, m, i, ii, colIdx);
      MulStep(ii, s);
      NextBlock(ii, oh, ow);
      i := i + s;
      ii := ii + 1;
    }
    StrideFits(|img|, kh, s, ii);
  }

  /** The inner loop of `im2col` for the patches starting on image row
      i = ii * s: they become columns ii * ow to ii * ow + ow - 1. */
  method FillPatchRow(img: Matrix, kh: nat, kw: nat, s: nat, m0: Matrix, i: nat, ghost ii: nat, colIdx0: nat)
    returns (m: Matrix, colIdx: nat)
    requires KernelFits(img, kh, kw, s)
    requires ii < OutDim(|img|, kh, s) && i == ii * s
    requires colIdx0 == ii * OutDim(Width(img), kw, s) && colIdx0 <= OutDim(|img|, kh, s) * OutDim(Width(img), kw, s)
    requires IsMatrix(m0, kh * kw, OutDim(|img|, kh, s) * OutDim(Width(img), kw, s))
    requires forall c | 0 <= c < colIdx0 :: ColumnIs(m0, c, PatchColumns(img, kh, kw, s)[c])
    ensures colIdx == colIdx0 + OutDim(Width(img), kw, s)
    ensures IsMatrix(m, kh * kw, OutDim(|img|, kh, s) * OutDim(Width(img), kw, s))
    ensures colIdx <= OutDim(|img|, kh, s) * OutDim(Width(img), kw, s)
    ensures forall c | 0 <= c < colIdx :: ColumnIs(m, c, PatchColumns(img, kh, kw, s)[c])
  {
    var oh, ow := OutDim(|img|, kh, s), OutDim(Width(img), kw, s);
    var n := oh * ow;
    ghost var cols := PatchColumns(img, kh, kw, s);
    StrideFits(|img|, kh, s, ii);
    m, colIdx := m0, colIdx0;
    var j := 0;
    ghost var jj := 0;
    while j < Width(img) - kw + 1
      invariant jj <= ow && j == jj * s && colIdx == ii * ow + jj && colIdx <= n
      invariant IsMatrix(m, kh * kw, n)
      invariant forall c | 0 <= c < colIdx :: ColumnIs(m, c, cols[c])
      decreases ow - jj
    {
      StrideFits(Width(img), kw, s, jj);
      PatchColumnsAt(img, kh, kw, s, ii, jj);
      var patch := Block(img, i, j, kh, kw);
      FlattenSize(patch, kh, kw);
      assert Flatten(patch) == cols[colIdx];
      m := SetColumn(m, n, colIdx, Flatten(patch));
      colIdx := colIdx + 1;
      MulStep(jj, s);
      j := j + s;
      jj := jj + 1;
    }
    StrideFits(Width(img), kw, s, jj);
  }

  /** `convolution_im2col`: the flattened kernel times the im2col matrix,
      reshaped to the output's shape, is the convolution. */
  method ConvolutionIm2col(img: Matrix, ker: Matrix, s: nat) returns (output: Matrix)
    requires ConvShape(img, ker, s)
    ensures output == Convolution(img, ker, s)
  {
    var kh, kw := |ker|, Width(ker);
    var m := Im2colMatrix(img, kh, kw, s);
    var kernelVec := Flatten(ker);
    var oh, ow := OutDim(|img|, kh, s), OutDim(Width(img), kw, s);
    FlattenSize(ker, kh, kw);
    var outputVec := VecMat(kernelVec, m, oh * ow);
    output := Reshape(outputVec, oh, ow);
    forall i | 0 <= i < oh
      ensures output[i] == Convolution(img, ker, s)[i]
    {
      forall j | 0 <= j < ow
        ensures output[i][j] == ConvOut(img, ker, s, i, j)
      {
        RowMajorBound(i, j, oh, ow);
        assert output[i][j] == Dot(kernelVec, Column(m, oh * ow, i * ow + j));
        Im2colProductAt(img, ker, s, m, oh * ow, i, j, i * ow + j);
      }
    }
  }

  /** Element col = i * ow + j of the product of the flattened kernel with
      an n-column matrix whose column col is patch (i, j) is output (i, j)
      of the direct convolution. */
  lemma Im2colProductAt(img: Matrix, ker: Matrix, s: nat, m: Matrix, n: nat, i: nat, j: nat, col: nat)
    requires ConvShape(img, ker, s)
    requires i < OutDim(|img|, |ker|, s) && j < OutDim(Width(img), Width(ker), s)
    requires n == OutDim(|img|, |ker|, s) * OutDim(Width(img), Width(ker), s)
    requires col == i * OutDim(Width(img), Width(ker), s) + j && col < n
    requires IsMatrix(m, |Flatten(ker)|, n) && ColumnIs(m, col, PatchColumns(img, |ker|, Width(ker), s)[col])
    ensures Dot(Flatten(ker), Column(m, n, col)) == ConvOut(img, ker, s, i, j)
  {
    var kh, kw := |ker|, Width(ker);
    FlattenSize(ker, kh, kw);
    PatchColumnsAt(img, kh, kw, s, i, j);
    var patch := PatchAt(img, kh, kw, s, i, j);
    assert Column(m, n, col) == patch;
    DotSymmetric(Flatten(ker), patch);
  }

  // ---------------------------------------------------------------------
  // im2col_general

  /** The input of `im2col_general`: a two-dimensional image, or a stack
      of channels of one shape. */
  datatype Input = Image(m: Matrix) | Channels(planes: seq<Matrix>)

  /** A two-dimensional input becomes a single channel
      (`input_data.reshape(1, H, W)`). */
  function AsChannels(x: Input): seq<Matrix>
  {
    match x
    case Image(m) => [m]
    case Channels(planes) => planes
  }

  /** Every channel has shape (h, w). */
  predicate ChannelsShape(planes: seq<Matrix>, h: nat, w: nat)
  {
    forall c | 0 <= c < |planes| :: IsMatrix(planes[c], h, w)
  }

  /** The shape of an `im2col_general` call: C channels of h x w, a
      kh x kw kernel, strides and paddings. */
  datatype Geometry = Geometry(channels: nat, h: nat, w: nat, kh: nat, kw: nat, sh: nat, sw: nat, ph: nat, pw: nat)
  {
    /** The strides are positive and the kernel is at most a stride
        longer than the padded image, so that the output has a size. */
    predicate Valid()
    {
      1 <= kh <= h + 2 * ph + sh && 1 <= kw <= w + 2 * pw + sw && sh >= 1 && sw >= 1
    }

    /** `out_h = (H + 2 * P_h - K_h) // S_h + 1`. */
    function OutH(): nat
      requires Valid()
    {
      OutDim(h + 2 * ph, kh, sh)
    }

    /** `out_w = (W + 2 * P_w - K_w) // S_w + 1`. */
    function OutW(): nat
      requires Valid()
    {
      OutDim(w + 2 * pw, kw, sw)
    }
  }

  /** The geometry of input x, read off its first channel. */
  function GeometryOf(x: Input, kh: nat, kw: nat, sh: nat, sw: nat, ph: nat, pw: nat): Geometry
  {
    var planes := AsChannels(x);
    if |planes| == 0 then Geometry(0, 0, 0, kh, kw, sh, sw, ph, pw)
    else Geometry(|planes|, |planes[0]|, Width(planes[0]), kh, kw, sh, sw, ph, pw)
  }

  /** An input `im2col_general` accepts: at least one channel, all of one
      shape, and a kernel that fits inside the padded image. */
  predicate GeneralShape(x: Input, kh: nat, kw: nat, sh: nat, sw: nat, ph: nat, pw: nat)
  {
    var g := GeometryOf(x, kh, kw, sh, sw, ph, pw);
    g.channels >= 1 && ChannelsShape(AsChannels(x), g.h, g.w) && g.Valid()
  }

  /** The value the constant padding puts at (y, x) of a padded plane:
      the plane's pixel (y - ph, x - pw) inside, zero around it. */
  function PadValue(plane: Matrix, g: Geometry, y: nat, x: nat): real
    requires IsMatrix(plane, g.h, g.w)
  {
    if g.ph <= y < g.ph + g.h && g.pw <= x < g.pw + g.w then plane[y - g.ph][x - g.pw] else 0.0
  }

  /** One channel with ph zero rows above and below and pw zero columns on
      either side. */
  function PadPlane(plane: Matrix, g: Geometry): (q: Matrix)
    requires IsMatrix(plane, g.h, g.w)
    ensures IsMatrix(q, g.h + 2 * g.ph, g.w + 2 * g.pw)
    ensures forall y, x | 0 <= y < g.h + 2 * g.ph && 0 <= x < g.w + 2 * g.pw :: q[y][x] == PadValue(plane, g, y, x)
  {
    seq(g.h + 2 * g.ph, y requires 0 <= y < g.h + 2 * g.ph =>
      seq(g.w + 2 * g.pw, x requires 0 <= x < g.w + 2 * g.pw => PadValue(plane, g, y, x)))
  }

  /** `np.pad(planes, ((0, 0), (ph, ph), (pw, pw)), "constant")`. */
  function Pad(planes: seq<Matrix>, g: Geometry): (p: seq<Matrix>)
    requires ChannelsShape(planes, g.h, g.w)
    ensures |p| == |planes| && ChannelsShape(p, g.h + 2 * g.ph, g.w + 2 * g.pw)
  {
    seq(|planes|, c requires 0 <= c < |planes| => PadPlane(planes[c], g))
  }

  /** The padded array: zeros around each channel, the channel itself
      inside. */
  lemma PadEntry(planes: seq<Matrix>, g: Geometry, c: nat, y: nat, x: nat)
    requires ChannelsShape(planes, g.h, g.w)
    requires c < |planes| && y < g.h + 2 * g.ph && x < g.w + 2 * g.pw
    ensures Pad(planes, g)[c][y][x] ==
      if g.ph <= y < g.ph + g.h && g.pw <= x < g.pw + g.w then planes[c][y - g.ph][x - g.pw] else 0.0
  {
    assert Pad(planes, g)[c] == PadPlane(planes[c], g);
  }

  /** Without padding, `np.pad` would change nothing: skipping it when
      both paddings are zero is immaterial. */
  lemma PadNothing(planes: seq<Matrix>, g: Geometry)
    requires ChannelsShape(planes, g.h, g.w) && g.ph == 0 && g.pw == 0
    ensures Pad(planes, g) == planes
  {
    var p := Pad(planes, g);
    forall c | 0 <= c < |planes|
      ensures p[c] == planes[c]
    {
      forall y | 0 <= y < g.h
        ensures p[c][y] == planes[c][y]
      {
      }
    }
  }

  /** `padded_data`: padded only when a padding is positive. */
  function Padded(planes: seq<Matrix>, g: Geometry): (p: seq<Matrix>)
    requires ChannelsShape(planes, g.h, g.w)
    ensures |p| == |planes| && ChannelsShape(p, g.h + 2 * g.ph, g.w + 2 * g.pw)
  {
    if g.ph > 0 || g.pw > 0 then Pad(planes, g) else planes
  }

  /** `padded_data[c, i * S_h + k_h, j * S_w + k_w]`. */
  function PaddedAt(p: seq<Matrix>, g: Geometry, c: nat, a: nat, b: nat, i: nat, j: nat): real
    requires g.Valid() && |p| == g.channels && ChannelsShape(p, g.h + 2 * g.ph, g.w + 2 * g.pw)
    requires c < g.channels && a < g.kh && b < g.kw && i < g.OutH() && j < g.OutW()
  {
    StrideFits(g.h + 2 * g.ph, g.kh, g.sh, i);
    StrideFits(g.w + 2 * g.pw, g.kw, g.sw, j);
    p[c][i * g.sh + a][j * g.sw + b]
  }

  /** Row (c, a, b) of the general im2col matrix: what kernel tap (a, b) of
      channel c sees at every output position, row-major. */
  function GeneralRow(p: seq<Matrix>, g: Geometry, c: nat, a: nat, b: nat): (row: seq<real>)
    requires g.Valid() && |p| == g.channels && ChannelsShape(p, g.h + 2 * g.ph, g.w + 2 * g.pw)
    requires c < g.channels && a < g.kh && b < g.kw
    ensures |row| == g.OutH() * g.OutW()
  {
    var grid := seq(g.OutH(), i requires 0 <= i < g.OutH() =>
      seq(g.OutW(), j requires 0 <= j < g.OutW() => PaddedAt(p, g, c, a, b, i, j)));
    FlattenSize(grid, g.OutH(), g.OutW());
    Flatten(grid)
  }

  /** Element i * ow + j of that row. */
  lemma GeneralRowAt(p: seq<Matrix>, g: Geometry, c: nat, a: nat, b: nat, i: nat, j: nat)
    requires g.Valid() && |p| == g.channels && ChannelsShape(p, g.h + 2 * g.ph, g.w + 2 * g.pw)
    requires c < g.channels && a < g.kh && b < g.kw && i < g.OutH() && j < g.OutW()
    ensures i * g.OutW() + j < g.OutH() * g.OutW()
    ensures GeneralRow(p, g, c, a, b)[i * g.OutW() + j] == PaddedAt(p, g, c, a, b, i, j)
  {
    var grid := seq(g.OutH(), i requires 0 <= i < g.OutH() =>
      seq(g.OutW(), j requires 0 <= j < g.OutW() => PaddedAt(p, g, c, a, b, i, j)));
    FlattenAt(grid, g.OutH(), g.OutW(), i, j);
  }

  /** The kernel taps of channel c, row-major. */
  function ChannelRows(p: seq<Matrix>, g: Geometry, c: nat): (rows: seq<seq<seq<real>>>)
    requires g.Valid() && |p| == g.channels && ChannelsShape(p, g.h + 2 * g.ph, g.w + 2 * g.pw)
    requires c < g.channels
    ensures IsMatrix(rows, g.kh, g.kw)
  {
    seq(g.kh, a requires 0 <= a < g.kh => seq(g.kw, b requires 0 <= b < g.kw => GeneralRow(p, g, c, a, b)))
  }

  /** The kh * kw rows of channel c, its taps row-major. */
  function ChannelBlock(p: seq<Matrix>, g: Geometry, c: nat): (block: Matrix)
    requires g.Valid() && |p| == g.channels && ChannelsShape(p, g.h + 2 * g.ph, g.w + 2 * g.pw)
    requires c < g.channels
    ensures IsMatrix(block, g.kh * g.kw, g.OutH() * g.OutW())
  {
    FlattenSize(ChannelRows(p, g, c), g.kh, g.kw);
    FlattenRows(ChannelRows(p, g, c), g.OutH() * g.OutW());
    Flatten(ChannelRows(p, g, c))
  }

  /** The blocks of all channels, in channel order. */
  function ChannelBlocks(p: seq<Matrix>, g: Geometry): (blocks: seq<Matrix>)
    requires g.Valid() && |p| == g.channels && ChannelsShape(p, g.h + 2 * g.ph, g.w + 2 * g.pw)
    ensures IsMatrix(blocks, g.channels, g.kh * g.kw)
    ensures forall c | 0 <= c < g.channels :: blocks[c] == ChannelBlock(p, g, c)
  {
    seq(g.channels, c requires 0 <= c < g.channels => ChannelBlock(p, g, c))
  }

  /** The rows of the general im2col matrix, channel by channel. */
  function GeneralRows(p: seq<Matrix>, g: Geometry): (rows: seq<seq<real>>)
    requires g.Valid() && |p| == g.channels && ChannelsShape(p, g.h + 2 * g.ph, g.w + 2 * g.pw)
    ensures IsMatrix(rows, g.channels * (g.kh * g.kw), g.OutH() * g.OutW())
  {
    var perChannel := ChannelBlocks(p, g);
    FlattenSize(perChannel, g.channels, g.kh * g.kw);
    FlattenRows(perChannel, g.OutH() * g.OutW());
    Flatten(perChannel)
  }

  /** Row c * kh * kw + a * kw + b of the general im2col matrix is row
      (c, a, b). */
  lemma GeneralRowsAt(p: seq<Matrix>, g: Geometry, c: nat, a: nat, b: nat)
    requires g.Valid() && |p| == g.channels && ChannelsShape(p, g.h + 2 * g.ph, g.w + 2 * g.pw)
    requires c < g.channels && a < g.kh && b < g.kw
    ensures c * g.kh * g.kw + a * g.kw + b == c * (g.kh * g.kw) + a * g.kw + b
    ensures c * (g.kh * g.kw) + a * g.kw + b < g.channels * (g.kh * g.kw)
    ensures GeneralRows(p, g)[c * (g.kh * g.kw) + a * g.kw + b] == GeneralRow(p, g, c, a, b)
  {
    MulAssoc(c, g.kh, g.kw);
    var perChannel := ChannelBlocks(p, g);
    FlattenAt(ChannelRows(p, g, c), g.kh, g.kw, a, b);
    FlattenAt(perChannel, g.channels, g.kh * g.kw, c, a * g.kw + b);
  }

  /** What `im2col_general` returns for input x. */
  function Im2colGeneralSpec(x: Input, kh: nat, kw: nat, sh: nat, sw: nat, ph: nat, pw: nat): (m: Matrix)
    requires GeneralShape(x, kh, kw, sh, sw, ph, pw)
    ensures var g := GeometryOf(x, kh, kw, sh, sw, ph, pw);
      IsMatrix(m, g.channels * (kh * kw), g.OutH() * g.OutW())
  {
    var g := GeometryOf(x, kh, kw, sh, sw, ph, pw);
    GeneralRows(Padded(AsChannels(x), g), g)
  }

  /** Entry (c * kh * kw + a * kw + b, i * ow + j) of the rows is the
      padded value tap (a, b) of channel c sees at output position (i, j). */
  lemma GeneralRowsEntry(p: seq<Matrix>, g: Geometry, c: nat, a: nat, b: nat, i: nat, j: nat, row: nat, col: nat)
    requires g.Valid() && |p| == g.channels && ChannelsShape(p, g.h + 2 * g.ph, g.w + 2 * g.pw)
    requires c < g.channels && a < g.kh && b < g.kw && i < g.OutH() && j < g.OutW()
    requires row == c * g.kh * g.kw + a * g.kw + b && col == i * g.OutW() + j
    ensures row < |GeneralRows(p, g)| && col < |GeneralRows(p, g)[row]|
    ensures GeneralRows(p, g)[row][col] == PaddedAt(p, g, c, a, b, i, j)
  {
    GeneralRowsAt(p, g, c, a, b);
    GeneralRowAt(p, g, c, a, b, i, j);
  }

  /** The padded value at (i * sh + a, j * sw + b): the input pixel
      (i * sh + a - ph, j * sw + b - pw) inside the image, zero in the
      padding. */
  lemma PaddedAtInput(planes: seq<Matrix>, g: Geometry, c: nat, a: nat, b: nat, i: nat, j: nat)
    requires g.Valid() && |planes| == g.channels && ChannelsShape(planes, g.h, g.w)
    requires c < g.channels && a < g.kh && b < g.kw && i < g.OutH() && j < g.OutW()
    ensures i * g.sh + a < g.h + 2 * g.ph && j * g.sw + b < g.w + 2 * g.pw
    ensures var y, z := i * g.sh + a, j * g.sw + b;
      PaddedAt(Padded(planes, g), g, c, a, b, i, j) ==
        if g.ph <= y < g.ph + g.h && g.pw <= z < g.pw + g.w then planes[c][y - g.ph][z - g.pw] else 0.0
  {
    var y, z := i * g.sh + a, j * g.sw + b;
    assert y < g.h + 2 * g.ph && z < g.w + 2 * g.pw by {
      StrideFits(g.h + 2 * g.ph, g.kh, g.sh, i);
      StrideFits(g.w + 2 * g.pw, g.kw, g.sw, j);
    }
    PaddedEntry(planes, g, c, y, z);
    assert PaddedAt(Padded(planes, g), g, c, a, b, i, j) == Padded(planes, g)[c][y][z];
  }

  /** Entry (c, y, z) of the padded array, padded or not. */
  lemma PaddedEntry(planes: seq<Matrix>, g: Geometry, c: nat, y: nat, z: nat)
    requires ChannelsShape(planes, g.h, g.w)
    requires c < |planes| && y < g.h + 2 * g.ph && z < g.w + 2 * g.pw
    ensures Padded(planes, g)[c][y][z] ==
      if g.ph <= y < g.ph + g.h && g.pw <= z < g.pw + g.w then planes[c][y - g.ph][z - g.pw] else 0.0
  {
    if g.ph > 0 || g.pw > 0 {
      PadEntry(planes, g, c, y, z);
    }
  }

  /** Entry (row, col) of the general im2col matrix, with row =
      c * kh * kw + a * kw + b and col = i * ow + j, is the padded input at
      channel c, row i * sh + a, column j * sw + b: the input pixel
      (i * sh + a - ph, j * sw + b - pw) when it lies inside the image, and
      zero in the padding. */
  lemma Im2colGeneralEntry(x: Input, kh: nat, kw: nat, sh: nat, sw: nat, ph: nat, pw: nat,
                           c: nat, a: nat, b: nat, i: nat, j: nat, row: nat, col: nat)
    requires GeneralShape(x, kh, kw, sh, sw, ph, pw)
    requires var g := GeometryOf(x, kh, kw, sh, sw, ph, pw);
      c < g.channels && a < kh && b < kw && i < g.OutH() && j < g.OutW()
    requires row == c * kh * kw + a * kw + b
    requires col == i * GeometryOf(x, kh, kw, sh, sw, ph, pw).OutW() + j
    ensures row < |Im2colGeneralSpec(x, kh, kw, sh, sw, ph, pw)|
    ensures col < |Im2colGeneralSpec(x, kh, kw, sh, sw, ph, pw)[row]|
    ensures var g := GeometryOf(x, kh, kw, sh, sw, ph, pw);
      var y, z := i * sh + a, j * sw + b;
      Im2colGeneralSpec(x, kh, kw, sh, sw, ph, pw)[row][col] ==
        if ph <= y < ph + g.h && pw <= z < pw + g.w then AsChannels(x)[c][y - ph][z - pw] else 0.0
  {
    var g := GeometryOf(x, kh, kw, sh, sw, ph, pw);
    GeneralRowsEntry(Padded(AsChannels(x), g), g, c, a, b, i, j, row, col);
    PaddedAtInput(AsChannels(x), g, c, a, b, i, j);
  }

  /** `im2col_general` on a two-dimensional image with stride s in both
      directions and no padding builds the matrix `im2col` builds: its
      column c is the c-th patch. */
  lemma Im2colGeneralAgrees(img: Matrix, kh: nat, kw: nat, s: nat)
    requires KernelFits(img, kh, kw, s)
    ensures GeneralShape(Image(img), kh, kw, s, s, 0, 0)
    ensures var m := Im2colGeneralSpec(Image(img), kh, kw, s, s, 0, 0);
      && IsMatrix(m, kh * kw, OutDim(|img|, kh, s) * OutDim(Width(img), kw, s))
      && forall c | 0 <= c < OutDim(|img|, kh, s) * OutDim(Width(img), kw, s) ::
           ColumnIs(m, c, PatchColumns(img, kh, kw, s)[c])
  {
    var oh, ow := OutDim(|img|, kh, s), OutDim(Width(img), kw, s);
    var m, cols := Im2colGeneralSpec(Image(img), kh, kw, s, s, 0, 0), PatchColumns(img, kh, kw, s);
    assert ChannelsShape(AsChannels(Image(img)), |img|, Width(img));
    assert IsMatrix(m, kh * kw, oh * ow);
    forall c | 0 <= c < oh * ow
      ensures ColumnIs(m, c, cols[c])
    {
      var i, j := RowMajorOf(c, oh, ow);
      GeneralColumn(img, kh, kw, s, i, j, c);
    }
  }

  /** Column c = i * ow + j of that matrix is patch (i, j). */
  lemma GeneralColumn(img: Matrix, kh: nat, kw: nat, s: nat, i: nat, j: nat, c: nat)
    requires KernelFits(img, kh, kw, s)
    requires i < OutDim(|img|, kh, s) && j < OutDim(Width(img), kw, s)
    requires c == i * OutDim(Width(img), kw, s) + j
    ensures GeneralShape(Image(img), kh, kw, s, s, 0, 0)
    ensures c < |PatchColumns(img, kh, kw, s)|
    ensures ColumnIs(Im2colGeneralSpec(Image(img), kh, kw, s, s, 0, 0), c, PatchColumns(img, kh, kw, s)[c])
  {
    assert ChannelsShape(AsChannels(Image(img)), |img|, Width(img));
    var m, cols := Im2colGeneralSpec(Image(img), kh, kw, s, s, 0, 0), PatchColumns(img, kh, kw, s);
    PatchColumnsAt(img, kh, kw, s, i, j);
    assert |m| == |cols[c]| == kh * kw;
    forall r | 0 <= r < kh * kw
      ensures c < |m[r]| && m[r][c] == cols[c][r]
    {
      var a, b := RowMajorOf(r, kh, kw);
      GeneralEntryIsPatch(img, kh, kw, s, i, j, a, b, r, c);
    }
  }

  /** Tap (a, b) of patch (i, j) lies inside the image. */
  lemma PatchPixelInside(img: Matrix, kh: nat, kw: nat, s: nat, i: nat, j: nat, a: nat, b: nat)
    requires KernelFits(img, kh, kw, s)
    requires i < OutDim(|img|, kh, s) && j < OutDim(Width(img), kw, s) && a < kh && b < kw
    ensures i * s + a < |img| && j * s + b < |img[i * s + a]|
  {
    StrideFits(|img|, kh, s, i);
    StrideFits(Width(img), kw, s, j);
    var y := i * s + a;
    assert |img[y]| == Width(img);
  }

  /** Entry (r, c) = (a * kw + b, i * ow + j) of that matrix is entry r of
      patch (i, j): both are pixel (i * s + a, j * s + b). */
  lemma GeneralEntryIsPatch(img: Matrix, kh: nat, kw: nat, s: nat, i: nat, j: nat, a: nat, b: nat, r: nat, c: nat)
    requires KernelFits(img, kh, kw, s)
    requires i < OutDim(|img|, kh, s) && j < OutDim(Width(img), kw, s) && a < kh && b < kw
    requires r == a * kw + b && c == i * OutDim(Width(img), kw, s) + j
    ensures GeneralShape(Image(img), kh, kw, s, s, 0, 0)
    ensures |Im2colGeneralSpec(Image(img), kh, kw, s, s, 0, 0)| == kh * kw
    ensures |PatchColumns(img, kh, kw, s)| == OutDim(|img|, kh, s) * OutDim(Width(img), kw, s)
    ensures r < kh * kw && c < |PatchColumns(img, kh, kw, s)|
    ensures |PatchColumns(img, kh, kw, s)[c]| == kh * kw
    ensures c < |Im2colGeneralSpec(Image(img), kh, kw, s, s, 0, 0)[r]|
    ensures Im2colGeneralSpec(Image(img), kh, kw, s, s, 0, 0)[r][c] == PatchColumns(img, kh, kw, s)[c][r]
  {
    var g := GeometryOf(Image(img), kh, kw, s, s, 0, 0);
    assert g == Geometry(1, |img|, Width(img), kh, kw, s, s, 0, 0);
    assert ChannelsShape(AsChannels(Image(img)), |img|, Width(img));
    RowMajorBound(a, b, kh, kw);
    PatchPixelInside(img, kh, kw, s, i, j, a, b);
    var pixel := img[i * s + a][j * s + b];
    var m := Im2colGeneralSpec(Image(img), kh, kw, s, s, 0, 0);
    assert c < |m[r]| && m[r][c] == pixel by {
      Im2colGeneralEntry(Image(img), kh, kw, s, s, 0, 0, 0, a, b, i, j, r, c);
    }
    assert |PatchColumns(img, kh, kw, s)[c]| == kh * kw && PatchColumns(img, kh, kw, s)[c][r] == pixel by {
      PatchColumnsAt(img, kh, kw, s, i, j);
      PatchEntry(img, kh, kw, s, i, j, a, b);
    }
  }

  /** `im2col_general`: five nested loops fill the zeroed matrix one entry
      at a time. */
  method Im2colGeneral(x: Input, kh: nat, kw: nat, sh: nat, sw: nat, ph: nat, pw: nat) returns (m: Matrix)
    requires GeneralShape(x, kh, kw, sh, sw, ph, pw)
    ensures m == Im2colGeneralSpec(x, kh, kw, sh, sw, ph, pw)
  {
    var planes := AsChannels(x);
    var g := GeometryOf(x, kh, kw, sh, sw, ph, pw);
    var outH, outW := g.OutH(), g.OutW();
    var padded := if ph > 0 || pw > 0 then Pad(planes, g) else planes;
    assert padded == Padded(planes, g);
    m := FillChannels(padded, g);
  }

  /** The channel loop of `im2col_general` over the padded planes. */
  method FillChannels(p: seq<Matrix>, g: Geometry) returns (m: Matrix)
    requires g.Valid() && |p| == g.channels && ChannelsShape(p, g.h + 2 * g.ph, g.w + 2 * g.pw)
    ensures m == GeneralRows(p, g)
  {
    ghost var kk := g.kh * g.kw;
    ghost var rows := GeneralRows(p, g);
    ghost var n := g.OutH() * g.OutW();
    MulAssoc(g.channels, g.kh, g.kw);
    m := Zeros(g.channels * g.kh * g.kw, g.OutH() * g.OutW());
    ghost var lo := 0;
    for c := 0 to g.channels
      invariant lo == c * kk && lo <= |rows|
      invariant IsMatrix(m, |rows|, n)
      invariant forall r | 0 <= r < lo :: m[r] == rows[r]
    {
      NextBlock(c, g.channels, kk);
      m := FillChannel(p, g, m, c, rows, n, lo, kk);
      lo := lo + kk;
    }
    assert m == rows;
  }

  /** The k_h loop of `im2col_general` for channel c: rows lo = c * kh * kw
      to lo + kh * kw - 1 become the channel's taps. */
  method FillChannel(p: seq<Matrix>, g: Geometry, m0: Matrix, c: nat,
                     ghost rows: Matrix, ghost n: nat, ghost lo: nat, ghost kk: nat) returns (m: Matrix)
    requires g.Valid() && |p| == g.channels && ChannelsShape(p, g.h + 2 * g.ph, g.w + 2 * g.pw)
    requires rows == GeneralRows(p, g) && n == g.OutH() * g.OutW()
    requires c < g.channels && kk == g.kh * g.kw && lo == c * kk && lo + kk <= |m0|
    requires |m0| == |rows| && IsMatrix(m0, |m0|, n)
    requires forall r | 0 <= r < lo :: m0[r] == rows[r]
    ensures IsMatrix(m, |m0|, n)
    ensures forall r | 0 <= r < lo + kk :: m[r] == rows[r]
  {
    m := m0;
    ghost var hi := lo;
    for a := 0 to g.kh
      invariant hi == lo + a * g.kw && hi <= lo + kk
      invariant IsMatrix(m, |m0|, n)
      invariant forall r | 0 <= r < hi :: m[r] == rows[r]
    {
      NextBlock(a, g.kh, g.kw);
      m := FillTaps(p, g, m, c, a, rows, n, hi);
      hi := hi + g.kw;
    }
  }

  /** The k_w loop of `im2col_general`: rows base to base + kw - 1 of
      channel c and kernel row a. */
  method FillTaps(p: seq<Matrix>, g: Geometry, m0: Matrix, c: nat, a: nat,
                  ghost rows: Matrix, ghost n: nat, ghost base: nat) returns (m: Matrix)
    requires g.Valid() && |p| == g.channels && ChannelsShape(p, g.h + 2 * g.ph, g.w + 2 * g.pw)
    requires rows == GeneralRows(p, g) && n == g.OutH() * g.OutW()
    requires c < g.channels && a < g.kh && base == c * (g.kh * g.kw) + a * g.kw
    requires |m0| == |rows| && base + g.kw <= |m0| && IsMatrix(m0, |m0|, n)
    requires forall r | 0 <= r < base :: m0[r] == rows[r]
    ensures IsMatrix(m, |m0|, n)
    ensures forall r | 0 <= r < base + g.kw :: m[r] == rows[r]
  {
    m := m0;
    for b := 0 to g.kw
      invariant IsMatrix(m, |m0|, n)
      invariant forall r | 0 <= r < base + b :: m[r] == rows[r]
    {
      GeneralRowsAt(p, g, c, a, b);
      var rowIdx := c * g.kh * g.kw + a * g.kw + b;
      m := FillGeneralRow(p, g, m, rowIdx, c, a, b);
    }
  }

  /** The two inner loops of `im2col_general`: row rowIdx becomes row
      (c, a, b); the other rows are left as they were. */
  method FillGeneralRow(p: seq<Matrix>, g: Geometry, m0: Matrix, rowIdx: nat, c: nat, a: nat, b: nat)
    returns (m: Matrix)
    requires g.Valid() && |p| == g.channels && ChannelsShape(p, g.h + 2 * g.ph, g.w + 2 * g.pw)
    requires c < g.channels && a < g.kh && b < g.kw
    requires rowIdx < |m0| && |m0[rowIdx]| == g.OutH() * g.OutW()
    ensures m == m0[rowIdx := GeneralRow(p, g, c, a, b)]
  {
    var outH, outW := g.OutH(), g.OutW();
    ghost var row := GeneralRow(p, g, c, a, b);
    m := m0;
    var colIdx := 0;
    for i := 0 to outH
      invariant colIdx == i * outW && colIdx <= outH * outW
      invariant rowIdx < |m| && m == m0[rowIdx := m[rowIdx]] && |m[rowIdx]| == outH * outW
      invariant forall q | 0 <= q < colIdx :: m[rowIdx][q] == row[q]
    {
      NextBlock(i, outH, outW);
      m, colIdx := FillGeneralSegment(p, g, m, rowIdx, c, a, b, i, colIdx);
    }
    assert m[rowIdx] == row;
  }

  /** The innermost loop of `im2col_general`: output row i of tap (c, a, b)
      goes to columns i * ow to i * ow + ow - 1 of row rowIdx. */
  method FillGeneralSegment(p: seq<Matrix>, g: Geometry, m0: Matrix, rowIdx: nat, c: nat, a: nat, b: nat,
                            i: nat, colIdx0: nat)
    returns (m: Matrix, colIdx: nat)
    requires g.Valid() && |p| == g.channels && ChannelsShape(p, g.h + 2 * g.ph, g.w + 2 * g.pw)
    requires c < g.channels && a < g.kh && b < g.kw && i < g.OutH()
    requires rowIdx < |m0| && |m0[rowIdx]| == g.OutH() * g.OutW()
    requires colIdx0 == i * g.OutW() && colIdx0 + g.OutW() <= g.OutH() * g.OutW()
    requires forall q | 0 <= q < colIdx0 :: m0[rowIdx][q] == GeneralRow(p, g, c, a, b)[q]
    ensures colIdx == colIdx0 + g.OutW()
    ensures rowIdx < |m| && m == m0[rowIdx := m[rowIdx]] && |m[rowIdx]| == |m0[rowIdx]|
    ensures forall q | 0 <= q < colIdx :: m[rowIdx][q] == GeneralRow(p, g, c, a, b)[q]
  {
    var outW := g.OutW();
    ghost var row := GeneralRow(p, g, c, a, b);
    StrideFits(g.h + 2 * g.ph, g.kh, g.sh, i);
    var inI := i * g.sh + a;
    var line := m0[rowIdx];
    colIdx := colIdx0;
    for j := 0 to outW
      invariant colIdx == colIdx0 + j && |line| == |m0[rowIdx]|
      invariant forall q | 0 <= q < colIdx :: line[q] == row[q]
    {
      StrideFits(g.w + 2 * g.pw, g.kw, g.sw, j);
      GeneralRowAt(p, g, c, a, b, i, j);
      var inJ := j * g.sw + b;
      line := line[colIdx := p[c][inI][inJ]];
      colIdx := colIdx + 1;
    }
    m := m0[rowIdx := line];
  }
}
