/** `tiled_convolution_im2col` (scripts/im2_column_example.py): the image
    is cut into tiles of tile_size x tile_size output positions, each
    tile (with the kernel's overlap) is convolved on its own with
    `convolution_im2col`, and the tile's output is copied into the full
    output with a numpy slice assignment. Where the copy's two shapes do
    not broadcast, numpy raises; the model returns None there. */
module Im2colTiled {
  import opened Bits
  import opened Wrappers
  import opened Im2col

  // ---------------------------------------------------------------------
  // numpy slice assignment

  /** How many elements `x[:k]` keeps of n: the first k for k >= 0, all
      but the last -k for negative k, never fewer than none. */
  function PrefixLength(k: int, n: nat): (r: nat)
    ensures r <= n
    ensures 0 <= k ==> r == Min(k, n)
  {
    if k >= 0 then Min(k, n) else Max(0, n + k)
  }

  /** numpy stores r values into l places along an axis when the counts
      agree or a single value is repeated. */
  predicate Broadcasts(r: nat, l: nat)
  {
    r == l || r == 1
  }

  /** `out[hs:he, ws:we] = src[:rh, :rw]`, for target slices inside out
      (an end before its start is an empty slice). */
  function AssignBlock(out: Matrix, hs: nat, he: int, ws: nat, we: int, src: Matrix, rh: int, rw: int)
    : (r: Option<Matrix>)
    requires Rect(out) && he <= |out| && we <= Width(out) && Rect(src)
    ensures r.Some? ==> IsMatrix(r.value, |out|, Width(out))
  {
    var lh, lw := Max(0, he - hs), Max(0, we - ws);
    var sh, sw := PrefixLength(rh, |src|), PrefixLength(rw, Width(src));
    if !Broadcasts(sh, lh) || !Broadcasts(sw, lw) then None
    else
      Some(seq(|out|, y requires 0 <= y < |out| =>
        seq(Width(out), x requires 0 <= x < Width(out) =>
          if hs <= y < hs + lh && ws <= x < ws + lw
          then src[if sh == 1 then 0 else y - hs][if sw == 1 then 0 else x - ws]
          else out[y][x])))
  }

  /** The assignment raises exactly when, along some axis, the source
      keeps neither as many values as the target slice has places nor a
      single one; otherwise the slice takes the source's values, repeated
      along an axis where it keeps one, and everything else is kept. */
  lemma AssignBlockSpec(out: Matrix, hs: nat, he: int, ws: nat, we: int, src: Matrix, rh: int, rw: int)
    requires Rect(out) && he <= |out| && we <= Width(out) && Rect(src)
    ensures var r := AssignBlock(out, hs, he, ws, we, src, rh, rw);
      var lh, lw := Max(0, he - hs), Max(0, we - ws);
      var sh, sw := PrefixLength(rh, |src|), PrefixLength(rw, Width(src));
      && (r.Some? <==> Broadcasts(sh, lh) && Broadcasts(sw, lw))
      && (r.Some? ==> forall y, x | 0 <= y < |out| && 0 <= x < Width(out) ::
            && (hs <= y < hs + lh && ws <= x < ws + lw ==>
                  r.value[y][x] == src[if sh == 1 then 0 else y - hs][if sw == 1 then 0 else x - ws])
            && (!(hs <= y < hs + lh && ws <= x < ws + lw) ==> r.value[y][x] == out[y][x]))
  {
  }

  // ---------------------------------------------------------------------
  // One tile

  /** `min(start + tile_size + k - 1, n)`: where a tile starting at start
      ends, with the kernel's overlap, clipped to the image. */
  function TileEnd(start: nat, t: nat, k: nat, n: nat): (e: nat)
    requires k >= 1
    ensures e <= n && (start <= n ==> start <= e)
  {
    if start + t + k - 1 <= n then start + t + k - 1 else n
  }

  /** First output row (or column) a tile's output is copied to. As
      written, `max(0, (start - k + 1) // stride)`; corrected, the
      output position of the tile's first patch, start // stride. */
  function OutStart(start: nat, k: nat, s: nat, corrected: bool): nat
    requires s >= 1
  {
    if corrected then start / s else Max(0, (start - k + 1) / s)
  }

  /** One past the last output row (or column) it is copied to, at most
      n. As written, `min(n, (end - k + 1) // stride)`; corrected, as many
      as the tile's output has. */
  function OutEnd(start: nat, end: nat, k: nat, s: nat, n: nat, tileOut: nat, corrected: bool): (e: int)
    requires s >= 1
    ensures e <= n
  {
    if corrected then Min(n, OutStart(start, k, s, corrected) + tileOut) else Min(n, (end - k + 1) / s)
  }

  /** The shape of the full output. */
  predicate OutputShape(img: Matrix, ker: Matrix, s: nat, out: Matrix)
    requires ConvShape(img, ker, s)
  {
    IsMatrix(out, OutDim(|img|, |ker|, s), OutDim(Width(img), Width(ker), s))
  }

  /** Lines 171-181: the output rows and columns a tile's output goes to,
      for the tile at (tr, tc) ending at (he, we), and the slice
      assignment that copies it there. */
  function PlaceTile(out: Matrix, oh: nat, ow: nat, tileOut: Matrix, tr: nat, tc: nat, he: nat, we: nat,
                     kh: nat, kw: nat, s: nat, corrected: bool): (r: Option<Matrix>)
    requires IsMatrix(out, oh, ow) && oh >= 1 && Rect(tileOut) && s >= 1
    ensures r.Some? ==> IsMatrix(r.value, oh, ow)
  {
    assert Width(out) == |out[0]| == ow;
    var hs, ws := OutStart(tr, kh, s, corrected), OutStart(tc, kw, s, corrected);
    var he', we' := OutEnd(tr, he, kh, s, oh, |tileOut|, corrected), OutEnd(tc, we, kw, s, ow, Width(tileOut), corrected);
    AssignBlock(out, hs, he', ws, we', tileOut, he' - hs, we' - ws)
  }

  /** The body of the two tile loops for the tile at (tr, tc): skipped
      when it is smaller than the kernel, else convolved and copied. */
  function TileStep(img: Matrix, ker: Matrix, t: nat, s: nat, corrected: bool, out: Matrix, tr: nat, tc: nat)
    : (r: Option<Matrix>)
    requires ConvShape(img, ker, s) && t >= 1 && tr < |img| && tc < Width(img)
    requires OutputShape(img, ker, s, out)
    ensures r.Some? ==> OutputShape(img, ker, s, r.value)
  {
    var he, we := TileEnd(tr, t, |ker|, |img|), TileEnd(tc, t, Width(ker), Width(img));
    if he - tr < |ker| || we - tc < Width(ker) then Some(out)
    else
      var oh, ow := OutDim(|img|, |ker|, s), OutDim(Width(img), Width(ker), s);
      var tileOut := Convolution(Block(img, tr, tc, he - tr, we - tc), ker, s);
      PlaceTile(out, oh, ow, tileOut, tr, tc, he, we, |ker|, Width(ker), s, corrected)
  }

  /** The inner loop: the tiles of tile row tr from column tc on. */
  function RowOfTiles(img: Matrix, ker: Matrix, t: nat, s: nat, corrected: bool, out: Matrix, tr: nat, tc: nat)
    : (r: Option<Matrix>)
    requires ConvShape(img, ker, s) && t >= 1 && tr < |img|
    requires OutputShape(img, ker, s, out)
    ensures r.Some? ==> OutputShape(img, ker, s, r.value)
    decreases Width(img) - tc
  {
    if tc >= Width(img) then Some(out)
    else
      match TileStep(img, ker, t, s, corrected, out, tr, tc)
      case None => None
      case Some(next) => RowOfTiles(img, ker, t, s, corrected, next, tr, tc + t)
  }

  /** The outer loop: the tile rows from tr on. */
  function TilesFrom(img: Matrix, ker: Matrix, t: nat, s: nat, corrected: bool, out: Matrix, tr: nat)
    : (r: Option<Matrix>)
    requires ConvShape(img, ker, s) && t >= 1
    requires OutputShape(img, ker, s, out)
    ensures r.Some? ==> OutputShape(img, ker, s, r.value)
    decreases |img| - tr
  {
    if tr >= |img| then Some(out)
    else
      match RowOfTiles(img, ker, t, s, corrected, out, tr, 0)
      case None => None
      case Some(next) => TilesFrom(img, ker, t, s, corrected, next, tr + t)
  }

  /** One turn of the inner loop. */
  lemma RowOfTilesStep(img: Matrix, ker: Matrix, t: nat, s: nat, corrected: bool, out: Matrix, tr: nat, tc: nat)
    requires ConvShape(img, ker, s) && t >= 1 && tr < |img| && tc < Width(img)
    requires OutputShape(img, ker, s, out)
    ensures var step := TileStep(img, ker, t, s, corrected, out, tr, tc);
      RowOfTiles(img, ker, t, s, corrected, out, tr, tc)
        == if step.None? then None else RowOfTiles(img, ker, t, s, corrected, step.value, tr, tc + t)
  {
  }

  /** One turn of the outer loop. */
  lemma TilesFromStep(img: Matrix, ker: Matrix, t: nat, s: nat, corrected: bool, out: Matrix, tr: nat)
    requires ConvShape(img, ker, s) && t >= 1 && tr < |img|
    requires OutputShape(img, ker, s, out)
    ensures var row := RowOfTiles(img, ker, t, s, corrected, out, tr, 0);
      TilesFrom(img, ker, t, s, corrected, out, tr)
        == if row.None? then None else TilesFrom(img, ker, t, s, corrected, row.value, tr + t)
  {
  }

  /** What `tiled_convolution_im2col` returns, None where it raises:
      `range` refuses a zero step, and a negative step visits no tile. */
  function Tiled(img: Matrix, ker: Matrix, tileSize: int, s: nat, corrected: bool): (r: Option<Matrix>)
    requires ConvShape(img, ker, s)
  {
    var zeros := Zeros(OutDim(|img|, |ker|, s), OutDim(Width(img), Width(ker), s));
    if tileSize == 0 then None
    else if tileSize < 0 then Some(zeros)
    else TilesFrom(img, ker, tileSize, s, corrected, zeros, 0)
  }

  // ---------------------------------------------------------------------
  // Tiles that are skipped

  /** Every tile of tile row tr from column tc on is smaller than the
      kernel, so the rest of the row leaves the output as it is. */
  lemma {:induction false} RowSkips(img: Matrix, ker: Matrix, t: nat, s: nat, corrected: bool, out: Matrix, tr: nat, tc: nat)
    requires ConvShape(img, ker, s) && t >= 1 && tr < |img|
    requires OutputShape(img, ker, s, out)
    requires |img| - tr < |ker| || Width(img) - tc < Width(ker)
    ensures RowOfTiles(img, ker, t, s, corrected, out, tr, tc) == Some(out)
    decreases Width(img) - tc
  {
    if tc < Width(img) {
      RowSkips(img, ker, t, s, corrected, out, tr, tc + t);
    }
  }

  /** Every tile row from tr on is shorter than the kernel, or the image
      is narrower than it. */
  lemma {:induction false} TilesSkip(img: Matrix, ker: Matrix, t: nat, s: nat, corrected: bool, out: Matrix, tr: nat)
    requires ConvShape(img, ker, s) && t >= 1
    requires OutputShape(img, ker, s, out)
    requires |img| - tr < |ker| || Width(img) < Width(ker)
    ensures TilesFrom(img, ker, t, s, corrected, out, tr) == Some(out)
    decreases |img| - tr
  {
    if tr < |img| {
      RowSkips(img, ker, t, s, corrected, out, tr, 0);
      TilesSkip(img, ker, t, s, corrected, out, tr + t);
    }
  }

  // ---------------------------------------------------------------------
  // A tile's output is a piece of the full output

  /** Two arrays of the same shape with the same entries are equal. */
  lemma SameEntries(m: Matrix, n: Matrix, h: nat, w: nat)
    requires IsMatrix(m, h, w) && IsMatrix(n, h, w)
    requires forall y, x | 0 <= y < h && 0 <= x < w :: m[y][x] == n[y][x]
    ensures m == n
  {
    forall y | 0 <= y < h
      ensures m[y] == n[y]
    {
      assert forall x | 0 <= x < w :: m[y][x] == n[y][x];
    }
  }

  /** A block of a block is a block of the whole. */
  lemma BlockOfBlock(m: Matrix, r0: nat, c0: nat, h: nat, w: nat, r1: nat, c1: nat, h1: nat, w1: nat)
    requires Rect(m) && r0 + h <= |m| && c0 + w <= Width(m)
    requires r1 + h1 <= h && c1 + w1 <= w && h >= 1
    ensures var tile := Block(m, r0, c0, h, w);
      && Rect(tile) && Width(tile) == w
      && Block(tile, r1, c1, h1, w1) == Block(m, r0 + r1, c0 + c1, h1, w1)
  {
    var tile := Block(m, r0, c0, h, w);
    assert Width(tile) == |tile[0]| == w;
    SameEntries(Block(tile, r1, c1, h1, w1), Block(m, r0 + r1, c0 + c1, h1, w1), h1, w1);
  }

  /** The whole image is its own block. */
  lemma WholeBlock(m: Matrix)
    requires Rect(m)
    ensures Block(m, 0, 0, |m|, Width(m)) == m
  {
    SameEntries(Block(m, 0, 0, |m|, Width(m)), m, |m|, Width(m));
  }

  /** With stride 1, output (y - tr, x - tc) of an h x w tile cut out at
      (tr, tc) is output (y, x) of the whole image: the tile's patches are
      the image's. */
  lemma TileConvOut(img: Matrix, ker: Matrix, tr: nat, tc: nat, h: nat, w: nat, y: nat, x: nat)
    requires ConvShape(img, ker, 1)
    requires tr + h <= |img| && tc + w <= Width(img) && |ker| <= h && Width(ker) <= w
    requires tr <= y < tr + OutDim(h, |ker|, 1) && tc <= x < tc + OutDim(w, Width(ker), 1)
    ensures var tile := Block(img, tr, tc, h, w);
      && ConvShape(tile, ker, 1)
      && y < OutDim(|img|, |ker|, 1) && x < OutDim(Width(img), Width(ker), 1)
      && Convolution(tile, ker, 1)[y - tr][x - tc] == Convolution(img, ker, 1)[y][x]
  {
    var kh, kw := |ker|, Width(ker);
    var tile := Block(img, tr, tc, h, w);
    var q, r := y - tr, x - tc;
    BlockOfBlock(img, tr, tc, h, w, q, r, kh, kw);
    assert PatchAt(tile, kh, kw, 1, q, r) == PatchAt(img, kh, kw, 1, y, x);
    assert Convolution(tile, ker, 1)[q][r] == ConvOut(tile, ker, 1, q, r);
  }

  // ---------------------------------------------------------------------
  // When tiling is exact

  /** With a tile at least as large as the output, the first tile is the
      whole image and every other tile is skipped: the result is the
      convolution, as written for stride 1 and corrected for any
      stride. */
  lemma SingleTile(img: Matrix, ker: Matrix, tileSize: int, s: nat, corrected: bool)
    requires ConvShape(img, ker, s) && (corrected || s == 1)
    requires tileSize >= 1 && |img| - |ker| < tileSize && Width(img) - Width(ker) < tileSize
    ensures Tiled(img, ker, tileSize, s, corrected) == Some(Convolution(img, ker, s))
  {
    var t: nat := tileSize;
    var kh, kw := |ker|, Width(ker);
    var oh, ow := OutDim(|img|, kh, s), OutDim(Width(img), kw, s);
    var zeros, conv := Zeros(oh, ow), Convolution(img, ker, s);
    if |img| < kh || Width(img) < kw {
      // No tile holds the kernel, and the output has no entries.
      TilesSkip(img, ker, t, s, corrected, zeros, 0);
      SameEntries(zeros, conv, oh, ow);
      return;
    }
    assert TileEnd(0, t, kh, |img|) == |img| && TileEnd(0, t, kw, Width(img)) == Width(img);
    WholeBlock(img);
    assert OutStart(0, kh, s, corrected) == 0 && OutStart(0, kw, s, corrected) == 0;
    assert OutEnd(0, |img|, kh, s, oh, oh, corrected) == oh;
    assert OutEnd(0, Width(img), kw, s, ow, ow, corrected) == ow;
    var first := AssignBlock(zeros, 0, oh, 0, ow, conv, oh, ow);
    assert Width(zeros) == ow && Width(conv) == ow;
    AssignBlockSpec(zeros, 0, oh, 0, ow, conv, oh, ow);
    SameEntries(first.value, conv, oh, ow);
    assert TileStep(img, ker, t, s, corrected, zeros, 0, 0) == Some(conv);
    RowSkips(img, ker, t, s, corrected, conv, 0, t);
    TilesSkip(img, ker, t, s, corrected, conv, t);
  }

  /** The script's own example, a 16 x 16 image and a 3 x 3 kernel in
      tiles of 14, is a single tile: it matches the direct convolution. */
  lemma ScriptExample(img: Matrix, ker: Matrix)
    requires IsMatrix(img, 16, 16) && IsMatrix(ker, 3, 3)
    ensures ConvShape(img, ker, 1)
    ensures Tiled(img, ker, 14, 1, false) == Some(Convolution(img, ker, 1))
  {
    assert Width(img) == |img[0]| == 16 && Width(ker) == |ker[0]| == 3;
    SingleTile(img, ker, 14, 1, false);
  }

  /** Entry (y, x) after `out[tr:tr+rh, tc:tc+rw] = src[:rh, :rw]` for
      an rh x rw source: the source's entry inside the block, out's
      outside. */
  lemma PlacedEntry(out: Matrix, src: Matrix, tr: nat, tc: nat, rh: nat, rw: nat, y: nat, x: nat)
    requires Rect(out) && IsMatrix(src, rh, rw) && rh >= 1
    requires tr + rh <= |out| && tc + rw <= Width(out) && y < |out| && x < Width(out)
    ensures var r := AssignBlock(out, tr, tr + rh, tc, tc + rw, src, rh, rw);
      && r.Some?
      && r.value[y][x] == if tr <= y < tr + rh && tc <= x < tc + rw then src[y - tr][x - tc] else out[y][x]
  {
    assert Width(src) == |src[0]| == rw;
    AssignBlockSpec(out, tr, tr + rh, tc, tc + rw, src, rh, rw);
  }

  /** PlaceTile with its four slice bounds worked out. */
  lemma PlaceTileIs(out: Matrix, oh: nat, ow: nat, tileOut: Matrix, tr: nat, tc: nat, he: nat, we: nat,
                    kh: nat, kw: nat, s: nat, corrected: bool, hs: nat, he': int, ws: nat, we': int, lh: int, lw: int)
    requires IsMatrix(out, oh, ow) && oh >= 1 && Rect(tileOut) && s >= 1
    requires hs == OutStart(tr, kh, s, corrected) && ws == OutStart(tc, kw, s, corrected)
    requires he' == OutEnd(tr, he, kh, s, oh, |tileOut|, corrected)
    requires we' == OutEnd(tc, we, kw, s, ow, Width(tileOut), corrected)
    requires lh == he' - hs && lw == we' - ws
    ensures he' <= |out| && we' <= Width(out)
    ensures PlaceTile(out, oh, ow, tileOut, tr, tc, he, we, kh, kw, s, corrected)
         == AssignBlock(out, hs, he', ws, we', tileOut, lh, lw)
  {
    assert Width(out) == |out[0]| == ow;
  }

  /** The step for a tile that is not skipped is its placement. */
  lemma UnskippedStep(img: Matrix, ker: Matrix, t: nat, s: nat, corrected: bool, out: Matrix, tr: nat, tc: nat)
    requires ConvShape(img, ker, s) && t >= 1 && tr < |img| && tc < Width(img)
    requires OutputShape(img, ker, s, out)
    requires TileEnd(tr, t, |ker|, |img|) - tr >= |ker| && TileEnd(tc, t, Width(ker), Width(img)) - tc >= Width(ker)
    ensures var he, we := TileEnd(tr, t, |ker|, |img|), TileEnd(tc, t, Width(ker), Width(img));
      TileStep(img, ker, t, s, corrected, out, tr, tc)
        == PlaceTile(out, OutDim(|img|, |ker|, s), OutDim(Width(img), Width(ker), s),
                     Convolution(Block(img, tr, tc, he - tr, we - tc), ker, s), tr, tc, he, we, |ker|, Width(ker), s, corrected)
  {
  }

  /** A tile that is not skipped, with the corrected placement and stride
      1: it is th x tw, its output is rh x rw, and the output goes to rows
      tr .. tr + rh - 1 and columns tc .. tc + rw - 1, the tile's own
      output positions clipped to the output. */
  lemma CorrectedStep(img: Matrix, ker: Matrix, t: nat, out: Matrix, tr: nat, tc: nat)
    returns (th: nat, tw: nat, rh: nat, rw: nat)
    requires ConvShape(img, ker, 1) && t >= 1 && tr < |img| && tc < Width(img)
    requires OutputShape(img, ker, 1, out)
    requires TileEnd(tr, t, |ker|, |img|) - tr >= |ker| && TileEnd(tc, t, Width(ker), Width(img)) - tc >= Width(ker)
    ensures tr + th <= |img| && tc + tw <= Width(img) && |ker| <= th && Width(ker) <= tw
    ensures rh >= 1 && rw >= 1
    ensures tr + rh == Min(tr + t, OutDim(|img|, |ker|, 1))
    ensures tc + rw == Min(tc + t, OutDim(Width(img), Width(ker), 1))
    ensures var tileOut := Convolution(Block(img, tr, tc, th, tw), ker, 1);
      && rh == OutDim(th, |ker|, 1) && rw == OutDim(tw, Width(ker), 1)
      && IsMatrix(tileOut, rh, rw)
      && TileStep(img, ker, t, 1, true, out, tr, tc) == AssignBlock(out, tr, tr + rh, tc, tc + rw, tileOut, rh, rw)
  {
    var kh, kw := |ker|, Width(ker);
    var oh, ow := OutDim(|img|, kh, 1), OutDim(Width(img), kw, 1);
    var he, we := TileEnd(tr, t, kh, |img|), TileEnd(tc, t, kw, Width(img));
    th, tw := he - tr, we - tc;
    rh, rw := th - kh + 1, tw - kw + 1;
    var tileOut := Convolution(Block(img, tr, tc, th, tw), ker, 1);
    assert |tileOut| == rh;
    CorrectedPlacement(img, ker, t, out, tr, tc, tileOut, rh, rw);
  }

  /** The corrected step of a tile that is not skipped, with its output
      rh x rw: the slice assignment to rows tr .. tr + rh - 1 and columns
      tc .. tc + rw - 1. */
  lemma CorrectedPlacement(img: Matrix, ker: Matrix, t: nat, out: Matrix, tr: nat, tc: nat, tileOut: Matrix, rh: nat, rw: nat)
    requires ConvShape(img, ker, 1) && t >= 1 && tr < |img| && tc < Width(img)
    requires OutputShape(img, ker, 1, out)
    requires TileEnd(tr, t, |ker|, |img|) - tr >= |ker| && TileEnd(tc, t, Width(ker), Width(img)) - tc >= Width(ker)
    requires tileOut == Convolution(Block(img, tr, tc, TileEnd(tr, t, |ker|, |img|) - tr, TileEnd(tc, t, Width(ker), Width(img)) - tc), ker, 1)
    requires IsMatrix(tileOut, rh, rw) && rh >= 1
    requires tr + rh == OutEnd(tr, TileEnd(tr, t, |ker|, |img|), |ker|, 1, OutDim(|img|, |ker|, 1), rh, true)
    requires tc + rw == OutEnd(tc, TileEnd(tc, t, Width(ker), Width(img)), Width(ker), 1, OutDim(Width(img), Width(ker), 1), rw, true)
    ensures tr + rh <= |out| && tc + rw <= Width(out)
    ensures TileStep(img, ker, t, 1, true, out, tr, tc) == AssignBlock(out, tr, tr + rh, tc, tc + rw, tileOut, rh, rw)
  {
    var he, we := TileEnd(tr, t, |ker|, |img|), TileEnd(tc, t, Width(ker), Width(img));
    assert Width(tileOut) == |tileOut[0]| == rw;
    assert OutStart(tr, |ker|, 1, true) == tr && OutStart(tc, Width(ker), 1, true) == tc;
    PlaceTileIs(out, OutDim(|img|, |ker|, 1), OutDim(Width(img), Width(ker), 1), tileOut, tr, tc, he, we,
                |ker|, Width(ker), 1, true, tr, tr + rh, tc, tc + rw, rh, rw);
    UnskippedStep(img, ker, t, 1, true, out, tr, tc);
  }

  /** With stride 1, a corrected tile step writes the convolution on the
      tile's own output positions, rows tr .. tr + t - 1 and columns
      tc .. tc + t - 1 (as far as the output reaches), and leaves every
      other entry as it was. */
  lemma TileStepCorrected(img: Matrix, ker: Matrix, t: nat, out: Matrix, tr: nat, tc: nat)
    requires ConvShape(img, ker, 1) && t >= 1 && tr < |img| && tc < Width(img)
    requires OutputShape(img, ker, 1, out)
    ensures var r := TileStep(img, ker, t, 1, true, out, tr, tc);
      var conv := Convolution(img, ker, 1);
      var oh, ow := OutDim(|img|, |ker|, 1), OutDim(Width(img), Width(ker), 1);
      && r.Some?
      && forall y, x | 0 <= y < oh && 0 <= x < ow ::
           r.value[y][x] == if tr <= y < tr + t && tc <= x < tc + t then conv[y][x] else out[y][x]
  {
    var kh, kw := |ker|, Width(ker);
    var oh, ow := OutDim(|img|, kh, 1), OutDim(Width(img), kw, 1);
    var conv := Convolution(img, ker, 1);
    if TileEnd(tr, t, kh, |img|) - tr >= kh && TileEnd(tc, t, kw, Width(img)) - tc >= kw {
      assert Width(out) == |out[0]| == ow;
      var th, tw, rh, rw := CorrectedStep(img, ker, t, out, tr, tc);
      var tileOut := Convolution(Block(img, tr, tc, th, tw), ker, 1);
      var r := AssignBlock(out, tr, tr + rh, tc, tc + rw, tileOut, rh, rw);
      forall y, x | 0 <= y < oh && 0 <= x < ow
        ensures r.value[y][x] == if tr <= y < tr + t && tc <= x < tc + t then conv[y][x] else out[y][x]
      {
        CorrectedEntry(img, ker, t, out, tr, tc, th, tw, rh, rw, y, x);
      }
    }
  }

  /** One entry of TileStepCorrected for a tile that is not skipped. */
  lemma CorrectedEntry(img: Matrix, ker: Matrix, t: nat, out: Matrix, tr: nat, tc: nat,
                       th: nat, tw: nat, rh: nat, rw: nat, y: nat, x: nat)
    requires ConvShape(img, ker, 1) && OutputShape(img, ker, 1, out)
    requires tr + th <= |img| && tc + tw <= Width(img) && |ker| <= th && Width(ker) <= tw
    requires rh == OutDim(th, |ker|, 1) && rw == OutDim(tw, Width(ker), 1)
    requires tr + rh == Min(tr + t, OutDim(|img|, |ker|, 1))
    requires tc + rw == Min(tc + t, OutDim(Width(img), Width(ker), 1))
    requires y < OutDim(|img|, |ker|, 1) && x < OutDim(Width(img), Width(ker), 1)
    ensures var tileOut := Convolution(Block(img, tr, tc, th, tw), ker, 1);
      var r := AssignBlock(out, tr, tr + rh, tc, tc + rw, tileOut, rh, rw);
      && r.Some?
      && r.value[y][x] == if tr <= y < tr + t && tc <= x < tc + t then Convolution(img, ker, 1)[y][x] else out[y][x]
  {
    var tileOut := Convolution(Block(img, tr, tc, th, tw), ker, 1);
    var r := AssignBlock(out, tr, tr + rh, tc, tc + rw, tileOut, rh, rw);
    var inside := tr <= y < tr + t && tc <= x < tc + t;
    assert inside <==> tr <= y < tr + rh && tc <= x < tc + rw;
    assert r.Some? && r.value[y][x] == if inside then tileOut[y - tr][x - tc] else out[y][x] by {
      assert Width(out) == |out[0]|;
      PlacedEntry(out, tileOut, tr, tc, rh, rw, y, x);
    }
    if inside {
      assert tileOut[y - tr][x - tc] == Convolution(img, ker, 1)[y][x] by {
        TileConvOut(img, ker, tr, tc, th, tw, y, x);
      }
    }
  }

  /** The rest of tile row tr, from column tc on, corrected: the band of
      rows tr .. tr + t - 1 holds the convolution from column tc on. */
  lemma {:induction false} RowCorrected(img: Matrix, ker: Matrix, t: nat, out: Matrix, tr: nat, tc: nat)
    requires ConvShape(img, ker, 1) && t >= 1 && tr < |img|
    requires OutputShape(img, ker, 1, out)
    ensures var r := RowOfTiles(img, ker, t, 1, true, out, tr, tc);
      var conv := Convolution(img, ker, 1);
      var oh, ow := OutDim(|img|, |ker|, 1), OutDim(Width(img), Width(ker), 1);
      && r.Some?
      && forall y, x | 0 <= y < oh && 0 <= x < ow ::
           r.value[y][x] == if tr <= y < tr + t && tc <= x then conv[y][x] else out[y][x]
    decreases Width(img) - tc
  {
    if tc < Width(img) {
      TileStepCorrected(img, ker, t, out, tr, tc);
      var next := TileStep(img, ker, t, 1, true, out, tr, tc).value;
      RowCorrected(img, ker, t, next, tr, tc + t);
    }
  }

  /** The tile rows from tr on, corrected: every output row from tr on
      holds the convolution. */
  lemma {:induction false} TilesCorrected(img: Matrix, ker: Matrix, t: nat, out: Matrix, tr: nat)
    requires ConvShape(img, ker, 1) && t >= 1
    requires OutputShape(img, ker, 1, out)
    ensures var r := TilesFrom(img, ker, t, 1, true, out, tr);
      var conv := Convolution(img, ker, 1);
      var oh, ow := OutDim(|img|, |ker|, 1), OutDim(Width(img), Width(ker), 1);
      && r.Some?
      && forall y, x | 0 <= y < oh && 0 <= x < ow ::
           r.value[y][x] == if tr <= y then conv[y][x] else out[y][x]
    decreases |img| - tr
  {
    if tr < |img| {
      RowCorrected(img, ker, t, out, tr, 0);
      var next := RowOfTiles(img, ker, t, 1, true, out, tr, 0).value;
      TilesCorrected(img, ker, t, next, tr + t);
    }
  }

  /** With the corrected placement and stride 1, the tiled convolution is
      the convolution, whatever the (positive) tile size. */
  lemma TiledCorrect(img: Matrix, ker: Matrix, tileSize: int)
    requires ConvShape(img, ker, 1) && tileSize >= 1
    ensures Tiled(img, ker, tileSize, 1, true) == Some(Convolution(img, ker, 1))
  {
    var oh, ow := OutDim(|img|, |ker|, 1), OutDim(Width(img), Width(ker), 1);
    var zeros := Zeros(oh, ow);
    TilesCorrected(img, ker, tileSize, zeros, 0);
    SameEntries(Tiled(img, ker, tileSize, 1, true).value, Convolution(img, ker, 1), oh, ow);
  }

  // ---------------------------------------------------------------------
  // Where the script as written goes wrong

  /** A one-column image under the kernel [[1], [1]]: output i is the
      sum of rows i and i + 1. */
  lemma PairSum(img: Matrix, i: nat)
    requires IsMatrix(img, |img|, 1) && i + 2 <= |img|
    ensures ConvShape(img, [[1.0], [1.0]], 1) && i < OutDim(|img|, 2, 1)
    ensures ConvOut(img, [[1.0], [1.0]], 1, i, 0) == img[i][0] + img[i + 1][0]
  {
    var ker := [[1.0], [1.0]];
    assert Width(img) == |img[0]| == 1;
    assert ConvShape(img, ker, 1);
    var p := PatchAt(img, 2, 1, 1, i, 0);
    PatchEntry(img, 2, 1, 1, i, 0, 0, 0);
    PatchEntry(img, 2, 1, 1, i, 0, 1, 0);
    FlattenSize(Block(img, i, 0, 2, 1), 2, 1);
    assert ker[1..] == [[1.0]] && Flatten(ker) == [1.0, 1.0];
    var f := Flatten(ker);
    assert Dot(p[1..][1..], f[1..][1..]) == 0.0;
    assert Dot(p[1..], f[1..]) == p[1];
  }

  /** A one-column image under the kernel [[1]] with stride s: output i is
      row i * s. */
  lemma Pick(img: Matrix, s: nat, i: nat)
    requires IsMatrix(img, |img|, 1) && |img| >= 1 && s >= 1 && i < OutDim(|img|, 1, s)
    ensures ConvShape(img, [[1.0]], s)
    ensures i * s < |img| && ConvOut(img, [[1.0]], s, i, 0) == img[i * s][0]
  {
    var ker := [[1.0]];
    assert Width(img) == |img[0]| == 1;
    assert ConvShape(img, ker, s);
    var p := PatchAt(img, 1, 1, s, i, 0);
    PatchEntry(img, 1, 1, s, i, 0, 0, 0);
    FlattenSize(Block(img, i * s, 0, 1, 1), 1, 1);
    assert ker[1..] == [] && Flatten(ker) == [1.0];
    var f := Flatten(ker);
    assert Dot(p[1..], f[1..]) == 0.0;
  }

  /** A tile that is not skipped, as written, with its end, its output
      and its four slice bounds worked out. */
  lemma AsWrittenStep(img: Matrix, ker: Matrix, t: nat, s: nat, out: Matrix, tr: nat, tc: nat,
                      he: nat, we: nat, tileOut: Matrix, hs: nat, he': int, ws: nat, we': int)
    requires ConvShape(img, ker, s) && t >= 1 && tr < |img| && tc < Width(img)
    requires OutputShape(img, ker, s, out)
    requires he == TileEnd(tr, t, |ker|, |img|) && we == TileEnd(tc, t, Width(ker), Width(img))
    requires he - tr >= |ker| && we - tc >= Width(ker)
    requires tileOut == Convolution(Block(img, tr, tc, he - tr, we - tc), ker, s)
    requires hs == OutStart(tr, |ker|, s, false) && ws == OutStart(tc, Width(ker), s, false)
    requires he' == OutEnd(tr, he, |ker|, s, OutDim(|img|, |ker|, s), |tileOut|, false)
    requires we' == OutEnd(tc, we, Width(ker), s, OutDim(Width(img), Width(ker), s), Width(tileOut), false)
    ensures he' <= |out| && we' <= Width(out)
    ensures TileStep(img, ker, t, s, false, out, tr, tc) == AssignBlock(out, hs, he', ws, we', tileOut, he' - hs, we' - ws)
  {
    var oh, ow := OutDim(|img|, |ker|, s), OutDim(Width(img), Width(ker), s);
    UnskippedStep(img, ker, t, s, false, out, tr, tc);
    PlaceTileIs(out, oh, ow, tileOut, tr, tc, he, we, |ker|, Width(ker), s, false, hs, he', ws, we', he' - hs, we' - ws);
  }

  /** A column a, b as a 2 x 1 array. */
  lemma Column2(m: Matrix, a: real, b: real)
    requires IsMatrix(m, 2, 1) && m[0][0] == a && m[1][0] == b
    ensures m == [[a], [b]]
  {
    SameEntries(m, [[a], [b]], 2, 1);
  }

  /** A single value as a 1 x 1 array. */
  lemma Single(m: Matrix, a: real)
    requires IsMatrix(m, 1, 1) && m[0][0] == a
    ensures m == [[a]]
  {
    SameEntries(m, [[a]], 1, 1);
  }

  /** `out[0:1, 0:1] = [[v]]` on a 2 x 1 array sets its top entry. */
  lemma SetTop(out: Matrix, v: real)
    requires IsMatrix(out, 2, 1)
    ensures AssignBlock(out, 0, 1, 0, 1, [[v]], 1, 1) == Some([[v], [out[1][0]]])
  {
    assert Width(out) == |out[0]| == 1;
    AssignBlockSpec(out, 0, 1, 0, 1, [[v]], 1, 1);
    Column2(AssignBlock(out, 0, 1, 0, 1, [[v]], 1, 1).value, v, out[1][0]);
  }

  /** `out[0:2, 0:1] = [[v]]` on a 2 x 1 array repeats v over both
      entries. */
  lemma SetBoth(out: Matrix, v: real)
    requires IsMatrix(out, 2, 1)
    ensures AssignBlock(out, 0, 2, 0, 1, [[v]], 2, 1) == Some([[v], [v]])
  {
    assert Width(out) == |out[0]| == 1;
    AssignBlockSpec(out, 0, 2, 0, 1, [[v]], 2, 1);
    Column2(AssignBlock(out, 0, 2, 0, 1, [[v]], 2, 1).value, v, v);
  }

  const OverlapImage: Matrix := [[1.0], [2.0], [3.0]]
  const PairKernel: Matrix := [[1.0], [1.0]]

  /** The convolution of the overlap example. */
  lemma OverlapConvolution()
    ensures ConvShape(OverlapImage, PairKernel, 1)
    ensures Convolution(OverlapImage, PairKernel, 1) == [[3.0], [5.0]]
  {
    PairSum(OverlapImage, 0);
    PairSum(OverlapImage, 1);
    Column2(Convolution(OverlapImage, PairKernel, 1), 3.0, 5.0);
  }

  /** The tile of rows r and r + 1 of a one-column image, under the
      kernel [[1], [1]], has the one output row[r] + row[r + 1]. */
  lemma PairTile(img: Matrix, r: nat)
    requires IsMatrix(img, |img|, 1) && r + 2 <= |img|
    ensures var tile := Block(img, r, 0, 2, 1);
      ConvShape(tile, PairKernel, 1) && Convolution(tile, PairKernel, 1) == [[img[r][0] + img[r + 1][0]]]
  {
    assert Width(img) == |img[0]| == 1;
    var tile := Block(img, r, 0, 2, 1);
    PairSum(tile, 0);
    Single(Convolution(tile, PairKernel, 1), img[r][0] + img[r + 1][0]);
  }

  /** The one output of the tile of rows r and r + 1 of a one-column
      image under the kernel [[1], [1]]. */
  function PairTileOut(img: Matrix, r: nat): real
    requires IsMatrix(img, |img|, 1) && r + 2 <= |img|
  {
    assert Width(img) == |img[0]| == 1;
    Convolution(Block(img, r, 0, 2, 1), PairKernel, 1)[0][0]
  }

  /** The first tile of a 3 x 1 image with tiles of 1, rows 0 and 1,
      goes to output row 0. */
  lemma OverlapFirstTile(img: Matrix, out: Matrix)
    requires IsMatrix(img, 3, 1) && IsMatrix(out, 2, 1)
    ensures ConvShape(img, PairKernel, 1) && OutputShape(img, PairKernel, 1, out)
    ensures TileStep(img, PairKernel, 1, 1, false, out, 0, 0) == Some([[PairTileOut(img, 0)], [out[1][0]]])
  {
    var ker, v := PairKernel, PairTileOut(img, 0);
    assert Width(img) == |img[0]| == 1;
    Single(Convolution(Block(img, 0, 0, 2, 1), ker, 1), v);
    assert TileEnd(0, 1, 2, 3) == 2 && TileEnd(0, 1, 1, 1) == 1;
    AsWrittenStep(img, ker, 1, 1, out, 0, 0, 2, 1, [[v]], 0, 1, 0, 1);
    SetTop(out, v);
  }

  /** The second tile, rows 1 and 2, goes to output rows 0 and 1: its one
      output is repeated over both. */
  lemma OverlapSecondTile(img: Matrix, out: Matrix)
    requires IsMatrix(img, 3, 1) && IsMatrix(out, 2, 1)
    ensures ConvShape(img, PairKernel, 1) && OutputShape(img, PairKernel, 1, out)
    ensures var v := PairTileOut(img, 1);
      TileStep(img, PairKernel, 1, 1, false, out, 1, 0) == Some([[v], [v]])
  {
    var ker, v := PairKernel, PairTileOut(img, 1);
    assert Width(img) == |img[0]| == 1;
    Single(Convolution(Block(img, 1, 0, 2, 1), ker, 1), v);
    assert TileEnd(1, 1, 2, 3) == 3 && TileEnd(0, 1, 1, 1) == 1;
    AsWrittenStep(img, ker, 1, 1, out, 1, 0, 3, 1, [[v]], 0, 2, 0, 1);
    SetBoth(out, v);
  }

  /** The two tiles' outputs in the overlap example. */
  lemma OverlapTileOutputs()
    ensures PairTileOut(OverlapImage, 0) == 3.0 && PairTileOut(OverlapImage, 1) == 5.0
  {
    PairTile(OverlapImage, 0);
    PairTile(OverlapImage, 1);
  }

  /** Tiles overlap by the kernel, but as written each tile's output is
      copied from `(start - k + 1) // stride`, kernel - 1 rows too early:
      a 3 x 1 image, a 2 x 1 kernel of ones and tiles of 1 give
      [[5], [5]], where the convolution is [[3], [5]]. */
  lemma OverlapCounterexample()
    ensures ConvShape(OverlapImage, PairKernel, 1)
    ensures Convolution(OverlapImage, PairKernel, 1) == [[3.0], [5.0]]
    ensures Tiled(OverlapImage, PairKernel, 1, 1, false) == Some([[5.0], [5.0]])
  {
    var img, ker := OverlapImage, PairKernel;
    OverlapConvolution();
    OverlapTileOutputs();
    var o1, o2 := [[3.0], [0.0]], [[5.0], [5.0]];
    OverlapFirstTile(img, Zeros(2, 1));
    OverlapSecondTile(img, o1);
    assert OutputShape(img, ker, 1, o2) by { assert Width(o2) == 1; }
    RowOfTilesStep(img, ker, 1, 1, false, Zeros(2, 1), 0, 0);
    RowSkips(img, ker, 1, 1, false, o1, 0, 1);
    TilesFromStep(img, ker, 1, 1, false, Zeros(2, 1), 0);
    RowOfTilesStep(img, ker, 1, 1, false, o1, 1, 0);
    RowSkips(img, ker, 1, 1, false, o2, 1, 1);
    TilesFromStep(img, ker, 1, 1, false, o1, 1);
    TilesSkip(img, ker, 1, 1, false, o2, 2);
  }

  // ---------------------------------------------------------------------
  // The script as written

  /** `tiled_convolution_im2col` as written: two loops over the tile
      corners, each tile convolved by `convolution_im2col`. */
  method TiledConvolution(img: Matrix, ker: Matrix, tileSize: int, s: nat) returns (r: Option<Matrix>)
    requires ConvShape(img, ker, s)
    ensures r == Tiled(img, ker, tileSize, s, false)
  {
    var output := Zeros(OutDim(|img|, |ker|, s), OutDim(Width(img), Width(ker), s));
    if tileSize == 0 {
      return None;
    }
    if tileSize < 0 {
      return Some(output);
    }
    var t: nat := tileSize;
    ghost var goal := Tiled(img, ker, tileSize, s, false);
    var tileRow := 0;
    while tileRow < |img|
      invariant OutputShape(img, ker, s, output)
      invariant TilesFrom(img, ker, t, s, false, output, tileRow) == goal
      decreases |img| - tileRow
    {
      var next := TileRow(img, ker, t, s, output, tileRow);
      TilesFromStep(img, ker, t, s, false, output, tileRow);
      if next.None? {
        return None;
      }
      output, tileRow := next.value, tileRow + t;
    }
    return Some(output);
  }

  /** The inner loop of `tiled_convolution_im2col`: the tiles of tile row
      tileRow, left to right. */
  method TileRow(img: Matrix, ker: Matrix, t: nat, s: nat, output0: Matrix, tileRow: nat) returns (r: Option<Matrix>)
    requires ConvShape(img, ker, s) && t >= 1 && tileRow < |img|
    requires OutputShape(img, ker, s, output0)
    ensures r == RowOfTiles(img, ker, t, s, false, output0, tileRow, 0)
  {
    ghost var goal := RowOfTiles(img, ker, t, s, false, output0, tileRow, 0);
    var output := output0;
    var tileCol := 0;
    while tileCol < Width(img)
      invariant OutputShape(img, ker, s, output)
      invariant RowOfTiles(img, ker, t, s, false, output, tileRow, tileCol) == goal
      decreases Width(img) - tileCol
    {
      var next := ProcessTile(img, ker, t, s, output, tileRow, tileCol);
      RowOfTilesStep(img, ker, t, s, false, output, tileRow, tileCol);
      if next.None? {
        return None;
      }
      output, tileCol := next.value, tileCol + t;
    }
    return Some(output);
  }

  /** The loop body for the tile at (tileRow, tileCol): skip it when it is
      smaller than the kernel, else convolve it and copy its output. */
  method ProcessTile(img: Matrix, ker: Matrix, t: nat, s: nat, output: Matrix, tileRow: nat, tileCol: nat)
    returns (r: Option<Matrix>)
    requires ConvShape(img, ker, s) && t >= 1 && tileRow < |img| && tileCol < Width(img)
    requires OutputShape(img, ker, s, output)
    ensures r == TileStep(img, ker, t, s, false, output, tileRow, tileCol)
  {
    var kh, kw := |ker|, Width(ker);
    var oh, ow := OutDim(|img|, kh, s), OutDim(Width(img), kw, s);
    var hEnd := TileEnd(tileRow, t, kh, |img|);
    var wEnd := TileEnd(tileCol, t, kw, Width(img));
    if hEnd - tileRow < kh || wEnd - tileCol < kw {
      return Some(output);
    }
    var tile := Block(img, tileRow, tileCol, hEnd - tileRow, wEnd - tileCol);
    var tileOutput := ConvolutionIm2col(tile, ker, s);
    r := PlaceTile(output, oh, ow, tileOutput, tileRow, tileCol, hEnd, wEnd, kh, kw, s, false);
  }
}
