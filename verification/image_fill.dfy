/**
 * The integer kernels of the inpainting demo (ImageFill/Window1.xaml.cs): the
 * grayscale conversion of the original image, the damage mask, the 4-neighbour
 * gathering of the restore step, the restore step's per-pixel update, and the reset
 * of the restored image. Images are the rows x cols x 4 arrays of GImage; the random
 * draw that picks damaged pixels and the double-valued blend of an unknown pixel with
 * its neighbours' mean are parameters.
 */
module ImageFill {
  import opened Bytes
  import opened Wrappers
  import GImage

  type Array3 = GImage.Array3

  /** A pixel array as GetPixelArray returns it: rectangular, four channels. */
  predicate IsImage(a: Array3)
  {
    a.Valid() && a.depth == 4
  }

  /** A gray opaque pixel: channels 0-2 equal, alpha 255. */
  function GrayPixel(v: byte): (p: seq<byte>)
    ensures |p| == 4
  {
    [v, v, v, 255]
  }

  /** The pixel is four bytes, the first three equal and the last 255. */
  predicate IsGray(p: seq<byte>)
  {
    |p| == 4 && p[0] == p[1] == p[2] && p[3] == 255
  }

  lemma GrayPixelIsGray(v: byte)
    ensures IsGray(GrayPixel(v))
    ensures forall p :: IsGray(p) ==> p == GrayPixel(p[0])
  {
    forall p | IsGray(p)
      ensures p == GrayPixel(p[0])
    {
      assert p == [p[0], p[1], p[2], p[3]];
    }
  }

  /** Every pixel of the image is gray and opaque. */
  predicate AllGray(a: Array3)
    requires a.Valid()
  {
    forall i, j :: 0 <= i < a.rows && 0 <= j < a.cols ==> IsGray(a.cells[i][j])
  }

  /** The array with pixel (i, j) replaced by p. */
  function SetPixel(a: Array3, i: nat, j: nat, p: seq<byte>): (r: Array3)
    requires a.Valid() && i < a.rows && j < a.cols && |p| == a.depth
    ensures r.Valid() && r.rows == a.rows && r.cols == a.cols && r.depth == a.depth
    ensures r.cells[i][j] == p
    ensures forall i', j' :: 0 <= i' < a.rows && 0 <= j' < a.cols && (i' != i || j' != j) ==>
      r.cells[i'][j'] == a.cells[i'][j']
  {
    GImage.Array3(a.rows, a.cols, a.depth, a.cells[i := a.cells[i][j := p]])
  }

  /** An array of the GImage model survives SetPixelArray followed by GetPixelArray. */
  lemma StoreThenLoad(a: Array3)
    requires IsImage(a)
    ensures GImage.SetPixelArray(a, a.rows, a.cols).Success?
    ensures GImage.GetPixelArray(GImage.SetPixelArray(a, a.rows, a.cols).value) == a
  {
    GImage.SetPixelArrayMatchesConstructor(a, a.rows, a.cols);
    GImage.UnpackPack(a);
  }

  // --------------------------------------------------------------- grayscale

  /**
   * The gray level of a pixel: the integer mean of its first three channels. It
   * lies between their least and greatest, so the byte cast loses nothing.
   */
  function GrayValue(p: seq<byte>): (g: byte)
    requires |p| >= 3
    ensures 3 * g <= p[0] + p[1] + p[2] < 3 * g + 3
    ensures g <= p[0] || g <= p[1] || g <= p[2]
    ensures g >= p[0] || g >= p[1] || g >= p[2]
  {
    (p[0] as int + p[1] + p[2]) / 3
  }

  /** A pixel whose three channels already agree keeps its level. */
  lemma GrayValueOfGray(v: byte, alpha: byte)
    ensures GrayValue([v, v, v, alpha]) == v
  {
  }

  /** The grayscale loop of getOriginalGrayscaleImage, on the unpacked pixel array. */
  function Grayscale(a: Array3): (g: Array3)
    requires IsImage(a)
    ensures IsImage(g) && g.rows == a.rows && g.cols == a.cols
    ensures AllGray(g)
    ensures forall i, j :: 0 <= i < a.rows && 0 <= j < a.cols ==> g.cells[i][j][0] == GrayValue(a.cells[i][j])
  {
    GImage.Array3(a.rows, a.cols, 4,
      seq(a.rows, i requires 0 <= i < a.rows =>
        seq(a.cols, j requires 0 <= j < a.cols => GrayPixel(GrayValue(a.cells[i][j])))))
  }

  /** Converting a gray image again changes nothing. */
  lemma GrayscaleIdempotent(a: Array3)
    requires IsImage(a)
    ensures Grayscale(Grayscale(a)) == Grayscale(a)
  {
    var g := Grayscale(a);
    var gg := Grayscale(g);
    forall i | 0 <= i < a.rows
      ensures gg.cells[i] == g.cells[i]
    {
      forall j | 0 <= j < a.cols
        ensures gg.cells[i][j] == g.cells[i][j]
      {
        var v := g.cells[i][j][0];
        assert g.cells[i][j] == GrayPixel(v);
        GrayValueOfGray(v, 255);
      }
    }
  }

  /**
   * getOriginalGrayscaleImage, from the loaded bitmap on: unpack it, convert, and
   * store the result back at the bitmap's own size. The stored bitmap unpacks to the
   * gray array.
   */
  function OriginalGrayscaleImage(b: GImage.Bitmap): (r: Result<GImage.Bitmap>)
    requires b.Valid()
    ensures r.Success? && r.value.Valid() && r.value.rows == b.rows && r.value.cols == b.cols
    ensures GImage.GetPixelArray(r.value) == Grayscale(GImage.GetPixelArray(b))
  {
    var g := Grayscale(GImage.GetPixelArray(b));
    StoreThenLoad(g);
    GImage.SetPixelArray(g, b.rows, b.cols)
  }

  // ------------------------------------------------------------------ damage

  /** A rows x cols mask of known pixels. */
  predicate IsMask(known: seq<seq<bool>>, rows: nat, cols: nat)
  {
    |known| == rows && forall i :: 0 <= i < rows ==> |known[i]| == cols
  }

  /** The pixel a damaged pixel is painted with: channel 2 packs to the blue byte of BGRA, so it shows opaque blue. */
  const DamagedPixel: seq<byte> := [0, 0, 255, 255]

  /**
   * updateDamagedImage: pixel (i, j) is damaged when the draw hit(i, j) says so; it
   * is then unknown and painted blue, and every other pixel is known and unchanged.
   */
  function DamageImage(a: Array3, hit: (nat, nat) -> bool): (r: (Array3, seq<seq<bool>>))
    requires IsImage(a)
    ensures IsImage(r.0) && r.0.rows == a.rows && r.0.cols == a.cols
    ensures IsMask(r.1, a.rows, a.cols)
    ensures forall i, j :: 0 <= i < a.rows && 0 <= j < a.cols ==>
      && (r.1[i][j] <==> !hit(i, j))
      && r.0.cells[i][j] == (if r.1[i][j] then a.cells[i][j] else DamagedPixel)
    ensures AllGray(a) ==> forall i, j :: 0 <= i < a.rows && 0 <= j < a.cols ==> (r.1[i][j] <==> IsGray(r.0.cells[i][j]))
  {
    var pixels := GImage.Array3(a.rows, a.cols, 4,
      seq(a.rows, i requires 0 <= i < a.rows =>
        seq(a.cols, j requires 0 <= j < a.cols => if hit(i, j) then DamagedPixel else a.cells[i][j])));
    var known := seq(a.rows, i requires 0 <= i < a.rows => seq(a.cols, j requires 0 <= j < a.cols => !hit(i, j)));
    (pixels, known)
  }

  // ----------------------------------------------------------------- neighbours

  /** A pixel position. */
  datatype Pos = Pos(row: nat, col: nat)

  /** The 4-neighbourhood in the order getNeighbors visits it: up, left, down, right. */
  const Offsets: seq<(int, int)> := [(-1, 0), (0, -1), (1, 0), (0, 1)]

  /** The position (i + di, j + dj) if it falls inside the image. */
  function Shifted(offset: (int, int), i: nat, j: nat, rows: nat, cols: nat): (r: seq<Pos>)
    ensures |r| <= 1
    ensures forall k :: 0 <= k < |r| ==> r[k].row < rows && r[k].col < cols
  {
    var ni, nj := i + offset.0, j + offset.1;
    if 0 <= ni < rows && 0 <= nj < cols then [Pos(ni, nj)] else []
  }

  /** The positions (i + di, j + dj), for the offsets in order, that fall inside the image. */
  function InBounds(offsets: seq<(int, int)>, i: nat, j: nat, rows: nat, cols: nat): (r: seq<Pos>)
    ensures |r| <= |offsets|
    ensures forall k :: 0 <= k < |r| ==> r[k].row < rows && r[k].col < cols
  {
    if offsets == [] then [] else Shifted(offsets[0], i, j, rows, cols) + InBounds(offsets[1..], i, j, rows, cols)
  }

  /** The in-bounds 4-neighbours of (i, j). */
  function Neighbors(i: nat, j: nat, rows: nat, cols: nat): (r: seq<Pos>)
    ensures |r| <= 4
    ensures forall k :: 0 <= k < |r| ==> r[k].row < rows && r[k].col < cols
  {
    InBounds(Offsets, i, j, rows, cols)
  }

  /** Channel 0 of the pixel at p. */
  function Channel0(a: Array3, p: Pos): byte
    requires a.Valid() && a.depth >= 1 && p.row < a.rows && p.col < a.cols
  {
    a.cells[p.row][p.col][0]
  }

  /** The sum of channel 0 over the given positions (the positions outside the image add nothing). */
  function Channel0Sum(a: Array3, ps: seq<Pos>): (s: nat)
    requires a.Valid() && a.depth >= 1
    ensures s <= 255 * |ps|
  {
    if ps == [] then 0
    else (if ps[0].row < a.rows && ps[0].col < a.cols then Channel0(a, ps[0]) else 0) + Channel0Sum(a, ps[1..])
  }

  /**
   * getNeighbors: the number of in-bounds 4-neighbours of (i, j) and the sum of their
   * channel 0, reading only pixels inside the image.
   */
  method GetNeighbors(pixels: Array3, i: nat, j: nat, rows: nat, cols: nat) returns (neighborSum: nat, neighborCount: nat)
    requires IsImage(pixels) && pixels.rows == rows && pixels.cols == cols
    requires i < rows && j < cols
    ensures neighborCount == |Neighbors(i, j, rows, cols)|
    ensures neighborSum == Channel0Sum(pixels, Neighbors(i, j, rows, cols))
  {
    ghost var up, left := Shifted((-1, 0), i, j, rows, cols), Shifted((0, -1), i, j, rows, cols);
    ghost var down, right := Shifted((1, 0), i, j, rows, cols), Shifted((0, 1), i, j, rows, cols);
    neighborCount, neighborSum := 0, 0;
    ShiftedSum(pixels, (-1, 0), i, j);
    if i > 0 {
      neighborCount := neighborCount + 1;
      neighborSum := neighborSum + Channel0(pixels, Pos(i - 1, j));
    }
    assert neighborCount == |up| && neighborSum == Channel0Sum(pixels, up);
    ShiftedSum(pixels, (0, -1), i, j);
    if j > 0 {
      neighborCount := neighborCount + 1;
      neighborSum := neighborSum + Channel0(pixels, Pos(i, j - 1));
    }
    assert neighborCount == |up| + |left|;
    assert neighborSum == Channel0Sum(pixels, up) + Channel0Sum(pixels, left);
    ShiftedSum(pixels, (1, 0), i, j);
    if i + 1 < rows {
      neighborCount := neighborCount + 1;
      neighborSum := neighborSum + Channel0(pixels, Pos(i + 1, j));
    }
    assert neighborCount == |up| + |left| + |down|;
    assert neighborSum == Channel0Sum(pixels, up) + Channel0Sum(pixels, left) + Channel0Sum(pixels, down);
    ShiftedSum(pixels, (0, 1), i, j);
    if j + 1 < cols {
      neighborCount := neighborCount + 1;
      neighborSum := neighborSum + Channel0(pixels, Pos(i, j + 1));
    }
    assert neighborCount == |up| + |left| + |down| + |right|;
    assert neighborSum == Channel0Sum(pixels, up) + Channel0Sum(pixels, left) + Channel0Sum(pixels, down) + Channel0Sum(pixels, right);
    NeighborParts(pixels, i, j);
  }

  /** One shifted position contributes one pixel's channel 0 if it is inside, nothing otherwise. */
  lemma ShiftedSum(pixels: Array3, offset: (int, int), i: nat, j: nat)
    requires IsImage(pixels)
    ensures var ni, nj := i + offset.0, j + offset.1;
      var inside := 0 <= ni < pixels.rows && 0 <= nj < pixels.cols;
      && |Shifted(offset, i, j, pixels.rows, pixels.cols)| == (if inside then 1 else 0)
      && Channel0Sum(pixels, Shifted(offset, i, j, pixels.rows, pixels.cols)) == (if inside then Channel0(pixels, Pos(ni, nj)) else 0)
  {
    var ps := Shifted(offset, i, j, pixels.rows, pixels.cols);
    if ps != [] {
      assert ps[1..] == [];
    }
  }

  /** The count and sum over the neighbours split into the four directions. */
  lemma NeighborParts(pixels: Array3, i: nat, j: nat)
    requires IsImage(pixels)
    ensures var rows, cols := pixels.rows, pixels.cols;
      var up, left := Shifted((-1, 0), i, j, rows, cols), Shifted((0, -1), i, j, rows, cols);
      var down, right := Shifted((1, 0), i, j, rows, cols), Shifted((0, 1), i, j, rows, cols);
      && |Neighbors(i, j, rows, cols)| == |up| + |left| + |down| + |right|
      && Channel0Sum(pixels, Neighbors(i, j, rows, cols))
         == Channel0Sum(pixels, up) + Channel0Sum(pixels, left) + Channel0Sum(pixels, down) + Channel0Sum(pixels, right)
  {
    var rows, cols := pixels.rows, pixels.cols;
    var up, left := Shifted((-1, 0), i, j, rows, cols), Shifted((0, -1), i, j, rows, cols);
    var down, right := Shifted((1, 0), i, j, rows, cols), Shifted((0, 1), i, j, rows, cols);
    NeighborsUnfold(i, j, rows, cols);
    SumConcat(pixels, down, right);
    SumConcat(pixels, left, down + right);
    SumConcat(pixels, up, left + (down + right));
  }

  /** Neighbors is the four shifted positions in visiting order, each kept if inside. */
  lemma NeighborsUnfold(i: nat, j: nat, rows: nat, cols: nat)
    ensures Neighbors(i, j, rows, cols) ==
      Shifted((-1, 0), i, j, rows, cols) + (Shifted((0, -1), i, j, rows, cols)
        + (Shifted((1, 0), i, j, rows, cols) + Shifted((0, 1), i, j, rows, cols)))
  {
    var o1, o2, o3: seq<(int, int)> := [(0, -1), (1, 0), (0, 1)], [(1, 0), (0, 1)], [(0, 1)];
    assert Offsets[1..] == o1 && o1[1..] == o2 && o2[1..] == o3 && o3[1..] == [];
    var r := Shifted((0, 1), i, j, rows, cols);
    assert InBounds(o3, i, j, rows, cols) == r + InBounds([], i, j, rows, cols);
    assert r + [] == r;
    assert InBounds(o2, i, j, rows, cols) == Shifted((1, 0), i, j, rows, cols) + InBounds(o3, i, j, rows, cols);
    assert InBounds(o1, i, j, rows, cols) == Shifted((0, -1), i, j, rows, cols) + InBounds(o2, i, j, rows, cols);
    assert InBounds(Offsets, i, j, rows, cols) == Shifted((-1, 0), i, j, rows, cols) + InBounds(o1, i, j, rows, cols);
  }

  /** Channel0Sum of a concatenation is the sum of the parts. */
  lemma {:induction false} SumConcat(a: Array3, ps: seq<Pos>, qs: seq<Pos>)
    requires a.Valid() && a.depth >= 1
    ensures Channel0Sum(a, ps + qs) == Channel0Sum(a, ps) + Channel0Sum(a, qs)
  {
    if ps != [] {
      assert (ps + qs)[1..] == ps[1..] + qs;
      SumConcat(a, ps[1..], qs);
    } else {
      assert ps + qs == qs;
    }
  }

  /** Every neighbour is one step up, down, left or right of (i, j). */
  lemma NeighborsAdjacent(i: nat, j: nat, rows: nat, cols: nat)
    requires i < rows && j < cols
    ensures forall k :: 0 <= k < |Neighbors(i, j, rows, cols)| ==>
      var p := Neighbors(i, j, rows, cols)[k];
      (p.row == i && (p.col + 1 == j || p.col == j + 1)) || (p.col == j && (p.row + 1 == i || p.row == i + 1))
  {
    NeighborsUnfold(i, j, rows, cols);
  }

  /**
   * A pixel has at least one neighbour exactly when the image is more than one pixel,
   * so the mean at the blend step has a non-zero divisor except in a 1 x 1 image.
   */
  lemma NeighborCountPositive(i: nat, j: nat, rows: nat, cols: nat)
    requires i < rows && j < cols
    ensures 1 <= |Neighbors(i, j, rows, cols)| <==> rows >= 2 || cols >= 2
  {
    NeighborsUnfold(i, j, rows, cols);
  }

  // ----------------------------------------------------------------- restore

  /** Position p comes before (i, j) in the row-major order of the restore sweep. */
  predicate Before(p: Pos, i: nat, j: nat)
  {
    p.row < i || (p.row == i && p.col < j)
  }

  /**
   * Channel 0 at p as the sweep sees it when it reaches (i, j): positions already
   * visited read the swept image, the others still hold the image the sweep started from.
   */
  function SnapLevel(swept: Array3, start: Array3, p: Pos, i: nat, j: nat): byte
    requires IsImage(swept) && IsImage(start) && swept.rows == start.rows && swept.cols == start.cols
    requires p.row < swept.rows && p.col < swept.cols
  {
    if Before(p, i, j) then Channel0(swept, p) else Channel0(start, p)
  }

  /** The channel-0 sum over ps as the sweep sees it at (i, j); positions outside add nothing. */
  function SnapSum(swept: Array3, start: Array3, ps: seq<Pos>, i: nat, j: nat): nat
    requires IsImage(swept) && IsImage(start) && swept.rows == start.rows && swept.cols == start.cols
  {
    if ps == [] then 0
    else
      var here := if ps[0].row < swept.rows && ps[0].col < swept.cols then SnapLevel(swept, start, ps[0], i, j) else 0;
      here + SnapSum(swept, start, ps[1..], i, j)
  }

  /**
   * While the sweep is at (i, j) and has not yet touched (i, j) or anything after it,
   * the sum getNeighbors reads is the snapshot sum.
   */
  lemma {:induction false} SumIsSnap(pixels: Array3, start: Array3, ps: seq<Pos>, i: nat, j: nat)
    requires IsImage(pixels) && IsImage(start) && pixels.rows == start.rows && pixels.cols == start.cols
    requires forall i', j' :: 0 <= i' < pixels.rows && 0 <= j' < pixels.cols && !Before(Pos(i', j'), i, j) ==>
      pixels.cells[i'][j'] == start.cells[i'][j']
    ensures Channel0Sum(pixels, ps) == SnapSum(pixels, start, ps, i, j)
  {
    if ps != [] {
      SumIsSnap(pixels, start, ps[1..], i, j);
      var p := ps[0];
      if p.row < pixels.rows && p.col < pixels.cols && !Before(p, i, j) {
        assert pixels.cells[p.row][p.col] == start.cells[p.row][p.col];
      }
    }
  }

  /** Writing a pixel at or after (i, j) leaves the snapshot at (i, j) as it was. */
  lemma {:induction false} SnapSumSet(pixels: Array3, start: Array3, ps: seq<Pos>, i: nat, j: nat, ci: nat, cj: nat, v: seq<byte>)
    requires IsImage(pixels) && IsImage(start) && pixels.rows == start.rows && pixels.cols == start.cols
    requires ci < pixels.rows && cj < pixels.cols && |v| == 4 && !Before(Pos(ci, cj), i, j)
    ensures SnapSum(SetPixel(pixels, ci, cj, v), start, ps, i, j) == SnapSum(pixels, start, ps, i, j)
  {
    if ps != [] {
      SnapSumSet(pixels, start, ps[1..], i, j, ci, cj, v);
    }
  }

  /**
   * Pixel (i, j) as the restore sweep leaves it: gray, with the original's channel 0
   * as its level if it is known, and otherwise with the level blend gives for its level
   * in the start image and the count and snapshot sum of its neighbours.
   */
  predicate Restored(pixels: Array3, orig: Array3, start: Array3, known: seq<seq<bool>>,
                     blend: (byte, nat, nat) -> byte, i: nat, j: nat)
    requires IsImage(pixels) && IsImage(orig) && IsImage(start) && IsMask(known, orig.rows, orig.cols)
    requires pixels.rows == orig.rows == start.rows && pixels.cols == orig.cols == start.cols
    requires i < orig.rows && j < orig.cols
  {
    var ns := Neighbors(i, j, orig.rows, orig.cols);
    pixels.cells[i][j] == GrayPixel(
      if known[i][j] then orig.cells[i][j][0]
      else blend(start.cells[i][j][0], SnapSum(pixels, start, ns, i, j), |ns|))
  }

  /**
   * improveRestoredImage: one sweep in row-major order. A known pixel takes the
   * original's channel 0 as its gray level; an unknown pixel takes the level
   * blend(old level, neighbour sum, neighbour count), where the neighbours above and to
   * the left are read as already updated and the others as they were. Every pixel
   * leaves gray and opaque, and on a gray original every known pixel is restored exactly.
   */
  method ImproveRestoredImage(orig: Array3, restored: Array3, known: seq<seq<bool>>, blend: (byte, nat, nat) -> byte)
    returns (pixels: Array3)
    requires IsImage(orig) && IsImage(restored) && orig.rows == restored.rows && orig.cols == restored.cols
    requires IsMask(known, orig.rows, orig.cols)
    ensures IsImage(pixels) && pixels.rows == restored.rows && pixels.cols == restored.cols
    ensures forall i, j :: 0 <= i < orig.rows && 0 <= j < orig.cols ==>
      Restored(pixels, orig, restored, known, blend, i, j) && IsGray(pixels.cells[i][j])
    ensures AllGray(orig) ==> forall i, j :: 0 <= i < orig.rows && 0 <= j < orig.cols && known[i][j] ==>
      pixels.cells[i][j] == orig.cells[i][j]
  {
    pixels := restored;
    var i := 0;
    while i < orig.rows
      invariant i <= orig.rows
      invariant IsImage(pixels) && pixels.rows == orig.rows && pixels.cols == orig.cols
      invariant forall i', j' :: 0 <= i' < orig.rows && 0 <= j' < orig.cols && Before(Pos(i', j'), i, 0) ==>
        Restored(pixels, orig, restored, known, blend, i', j')
      invariant forall i', j' :: 0 <= i' < orig.rows && 0 <= j' < orig.cols && !Before(Pos(i', j'), i, 0) ==>
        pixels.cells[i'][j'] == restored.cells[i'][j']
    {
      var j := 0;
      while j < orig.cols
        invariant j <= orig.cols
        invariant IsImage(pixels) && pixels.rows == orig.rows && pixels.cols == orig.cols
        invariant forall i', j' :: 0 <= i' < orig.rows && 0 <= j' < orig.cols && Before(Pos(i', j'), i, j) ==>
          Restored(pixels, orig, restored, known, blend, i', j')
        invariant forall i', j' :: 0 <= i' < orig.rows && 0 <= j' < orig.cols && !Before(Pos(i', j'), i, j) ==>
          pixels.cells[i'][j'] == restored.cells[i'][j']
      {
        pixels := RestorePixel(orig, restored, known, blend, pixels, i, j);
        j := j + 1;
      }
      i := i + 1;
    }
    forall i, j | 0 <= i < orig.rows && 0 <= j < orig.cols
      ensures IsGray(pixels.cells[i][j])
      ensures AllGray(orig) && known[i][j] ==> pixels.cells[i][j] == orig.cells[i][j]
    {
      assert Restored(pixels, orig, restored, known, blend, i, j);
      GrayPixelIsGray(pixels.cells[i][j][0]);
      if AllGray(orig) && known[i][j] {
        GrayPixelIsGray(orig.cells[i][j][0]);
      }
    }
  }

  /**
   * The body of the sweep at (i, j): the pixel gets its restored level, the pixels
   * already visited stay restored, and the pixels after (i, j) still hold the start image.
   */
  method RestorePixel(orig: Array3, restored: Array3, known: seq<seq<bool>>, blend: (byte, nat, nat) -> byte,
                      pixels: Array3, i: nat, j: nat) returns (next: Array3)
    requires IsImage(orig) && IsImage(restored) && orig.rows == restored.rows && orig.cols == restored.cols
    requires IsMask(known, orig.rows, orig.cols)
    requires IsImage(pixels) && pixels.rows == orig.rows && pixels.cols == orig.cols
    requires i < orig.rows && j < orig.cols
    requires forall i', j' :: 0 <= i' < orig.rows && 0 <= j' < orig.cols && Before(Pos(i', j'), i, j) ==>
      Restored(pixels, orig, restored, known, blend, i', j')
    requires forall i', j' :: 0 <= i' < orig.rows && 0 <= j' < orig.cols && !Before(Pos(i', j'), i, j) ==>
      pixels.cells[i'][j'] == restored.cells[i'][j']
    ensures IsImage(next) && next.rows == orig.rows && next.cols == orig.cols
    ensures forall i', j' :: 0 <= i' < orig.rows && 0 <= j' < orig.cols && Before(Pos(i', j'), i, j + 1) ==>
      Restored(next, orig, restored, known, blend, i', j')
    ensures forall i', j' :: 0 <= i' < orig.rows && 0 <= j' < orig.cols && !Before(Pos(i', j'), i, j + 1) ==>
      next.cells[i'][j'] == restored.cells[i'][j']
  {
    var ns := Neighbors(i, j, orig.rows, orig.cols);
    var level: byte;
    if known[i][j] {
      level := orig.cells[i][j][0];
    } else {
      var neighborSum, neighborCount := GetNeighbors(pixels, i, j, orig.rows, orig.cols);
      SumIsSnap(pixels, restored, ns, i, j);
      level := blend(pixels.cells[i][j][0], neighborSum, neighborCount);
    }
    next := SetPixel(pixels, i, j, GrayPixel(level));
    SnapSumSet(pixels, restored, ns, i, j, i, j, GrayPixel(level));
    assert Restored(next, orig, restored, known, blend, i, j);
    forall i', j' | 0 <= i' < orig.rows && 0 <= j' < orig.cols && Before(Pos(i', j'), i, j)
      ensures Restored(next, orig, restored, known, blend, i', j')
    {
      assert Restored(pixels, orig, restored, known, blend, i', j');
      SnapSumSet(pixels, restored, Neighbors(i', j', orig.rows, orig.cols), i', j', i, j, GrayPixel(level));
    }
  }

  /** updateRestoredImage: every pixel set to opaque black. */
  function ResetImage(a: Array3): (r: Array3)
    requires IsImage(a)
    ensures IsImage(r) && r.rows == a.rows && r.cols == a.cols
    ensures forall i, j :: 0 <= i < a.rows && 0 <= j < a.cols ==> r.cells[i][j] == GrayPixel(0)
  {
    var row := seq(a.cols, _ => GrayPixel(0));
    GImage.Array3(a.rows, a.cols, 4, seq(a.rows, _ => row))
  }

  /**
   * The reset depends only on the size of the image, and it is a gray image: a
   * restore sweep may start from it.
   */
  lemma ResetForgetsContents(a: Array3, b: Array3)
    requires IsImage(a) && IsImage(b) && a.rows == b.rows && a.cols == b.cols
    ensures ResetImage(a) == ResetImage(b)
    ensures AllGray(ResetImage(a))
  {
    var ra, rb := ResetImage(a), ResetImage(b);
    forall i | 0 <= i < a.rows
      ensures ra.cells[i] == rb.cells[i]
    {
    }
    GrayPixelIsGray(0);
  }

  // ----------------------------------------------------------------- pipeline

  /**
   * A restart followed by one improvement, on the gray original of a loaded image:
   * damage the original, reset the restored image, then sweep it once with the
   * damage mask. Every pixel the damage spared comes back exactly; every damaged pixel
   * is blended from the reset level 0 with its neighbours as the sweep saw them.
   */
  method RestartThenImprove(loaded: Array3, hit: (nat, nat) -> bool, blend: (byte, nat, nat) -> byte)
    returns (damaged: Array3, known: seq<seq<bool>>, pixels: Array3)
    requires IsImage(loaded)
    ensures IsImage(damaged) && damaged.rows == loaded.rows && damaged.cols == loaded.cols
    ensures IsImage(pixels) && pixels.rows == loaded.rows && pixels.cols == loaded.cols
    ensures IsMask(known, loaded.rows, loaded.cols)
    ensures forall i, j :: 0 <= i < loaded.rows && 0 <= j < loaded.cols ==> (known[i][j] <==> !hit(i, j))
    ensures forall i, j :: 0 <= i < loaded.rows && 0 <= j < loaded.cols && !hit(i, j) ==>
      && damaged.cells[i][j] == Grayscale(loaded).cells[i][j]
      && pixels.cells[i][j] == Grayscale(loaded).cells[i][j]
    ensures forall i, j :: 0 <= i < loaded.rows && 0 <= j < loaded.cols && hit(i, j) ==>
      var ns := Neighbors(i, j, loaded.rows, loaded.cols);
      && damaged.cells[i][j] == DamagedPixel
      && pixels.cells[i][j] == GrayPixel(blend(0, SnapSum(pixels, ResetImage(loaded), ns, i, j), |ns|))
  {
    var orig := Grayscale(loaded);
    var dk := DamageImage(orig, hit);
    damaged, known := dk.0, dk.1;
    var restored := ResetImage(orig);
    assert restored == ResetImage(loaded) by {
      ResetForgetsContents(orig, loaded);
    }
    pixels := ImproveRestoredImage(orig, restored, known, blend);
    forall i, j | 0 <= i < loaded.rows && 0 <= j < loaded.cols && hit(i, j)
      ensures pixels.cells[i][j] == GrayPixel(blend(0, SnapSum(pixels, restored, Neighbors(i, j, loaded.rows, loaded.cols), i, j),
                                                    |Neighbors(i, j, loaded.rows, loaded.cols)|))
    {
      assert Restored(pixels, orig, restored, known, blend, i, j);
      assert restored.cells[i][j][0] == 0;
    }
  }
}
