/**
 * The pixel packing of GImage (Testbed2D/GImage.cs): an H x W x 4 array of RGBA
 * bytes and the flat, row-major BGRA32 buffer a bitmap is made from. Packing
 * writes channels 2, 1, 0 of each pixel to its bytes 0, 1, 2 and alpha to byte 3;
 * unpacking reverses the swap. The bitmap calls themselves (BitmapSource.Create,
 * CopyPixels) are replaced by the buffer they take or give.
 */
module GImage {
  import opened Wrappers
  import opened Bytes
  import opened Arith

  /** A rectangular byte[rows, cols, depth] array, as nested sequences. */
  datatype Array3 = Array3(rows: nat, cols: nat, depth: nat, cells: seq<seq<seq<byte>>>)
  {
    predicate Valid()
    {
      && |cells| == rows
      && (forall y :: 0 <= y < rows ==> |cells[y]| == cols)
      && (forall y, x :: 0 <= y < rows && 0 <= x < cols ==> |cells[y][x]| == depth)
    }
  }

  /** A BGRA32 bitmap: rows of cols pixels, four bytes each, with no padding between rows. */
  datatype Bitmap = Bitmap(rows: nat, cols: nat, pixels: seq<byte>)
  {
    predicate Valid()
    {
      |pixels| == rows * Stride(cols)
    }
  }

  /** Bytes per row of a bitmap cols pixels wide. */
  function Stride(cols: nat): nat
  {
    cols * 4
  }

  /** The array channel stored at byte k of a packed pixel: blue, green, red, then alpha. */
  function Swap(k: nat): (c: nat)
    requires k < 4
    ensures c < 4
    ensures k < 3 ==> c == 2 - k
    ensures k == 3 ==> c == 3
  {
    if k < 3 then 2 - k else 3
  }

  /** Position of byte k of pixel x within its row. */
  function PixelOffset(x: nat, k: nat): nat
  {
    x * 4 + k
  }

  /** Position of byte k of pixel (y, x) in a buffer whose rows are cols pixels wide. */
  function Offset(y: nat, x: nat, k: nat, cols: nat): nat
  {
    y * Stride(cols) + PixelOffset(x, k)
  }

  /** The four bytes one pixel packs to. */
  function PackPixel(p: seq<byte>): (r: seq<byte>)
    requires |p| >= 4
    ensures |r| == 4
    ensures forall k :: 0 <= k < 4 ==> r[k] == p[Swap(k)]
  {
    [p[2], p[1], p[0], p[3]]
  }

  /** The bytes of pixels 0 .. n-1 of one row, in the order the inner loops write them. */
  function PackRow(row: seq<seq<byte>>, n: nat): (r: seq<byte>)
    requires n <= |row| && forall x :: 0 <= x < n ==> |row[x]| >= 4
    ensures |r| == Stride(n)
  {
    if n == 0 then [] else PackRow(row, n - 1) + PackPixel(row[n - 1])
  }

  /** The array may be read at every (y, x, k) with y < n, x < m and k < 4. */
  predicate Readable(a: Array3, n: nat, m: nat)
  {
    && n <= |a.cells|
    && (forall y :: 0 <= y < n ==> m <= |a.cells[y]|)
    && (forall y, x :: 0 <= y < n && 0 <= x < m ==> |a.cells[y][x]| >= 4)
  }

  /** The buffer the packing loops fill for rows 0 .. n-1 and columns 0 .. m-1. */
  function PackRows(a: Array3, n: nat, m: nat): (r: seq<byte>)
    requires m == 0 || Readable(a, n, m)
    ensures |r| == n * Stride(m)
  {
    if n == 0 || m == 0 then []
    else PackRows(a, n - 1, m) + PackRow(a.cells[n - 1], m)
  }

  /**
   * The GImage(byte[,,]) constructor: an array whose third dimension is not 4 is
   * rejected; otherwise the bitmap has the array's height and width.
   */
  function FromPixelArray(a: Array3): (r: Result<Bitmap>)
    requires a.Valid()
    ensures r.Failure? <==> a.depth != 4
    ensures r.Failure? ==> r.error == WrongChannelCount
    ensures r.Success? ==> r.value.Valid() && r.value.rows == a.rows && r.value.cols == a.cols
  {
    if a.depth != 4 then Failure(WrongChannelCount)
    else Success(Bitmap(a.rows, a.cols, PackRows(a, a.rows, a.cols)))
  }

  /**
   * SetPixelArray: packs the nRows x nCols corner of the array. Reading outside the
   * array (more rows or columns than it has, or fewer than four channels) raises
   * IndexOutOfRange, unless the loops never run because a dimension is 0.
   */
  function SetPixelArray(a: Array3, nRows: nat, nCols: nat): (r: Result<Bitmap>)
    requires a.Valid()
    ensures r.Failure? <==> nRows > 0 && nCols > 0 && (nRows > a.rows || nCols > a.cols || a.depth < 4)
    ensures r.Failure? ==> r.error == IndexOutOfRange
    ensures r.Success? ==> r.value.Valid() && r.value.rows == nRows && r.value.cols == nCols
  {
    if nRows > 0 && nCols > 0 && (nRows > a.rows || nCols > a.cols || a.depth < 4) then
      Failure(IndexOutOfRange)
    else
      Success(Bitmap(nRows, nCols, PackRows(a, nRows, nCols)))
  }

  /** The byte at (y, x, k) of a bitmap. */
  function ByteAt(b: Bitmap, y: nat, x: nat, k: nat): byte
    requires b.Valid() && y < b.rows && x < b.cols && k < 4
  {
    OffsetBound(y, x, k, b.rows, b.cols);
    b.pixels[Offset(y, x, k, b.cols)]
  }

  /** GetPixelArray: the bitmap unpacked into a rows x cols x 4 RGBA array. */
  function GetPixelArray(b: Bitmap): (a: Array3)
    requires b.Valid()
    ensures a.Valid() && a.rows == b.rows && a.cols == b.cols && a.depth == 4
  {
    Array3(b.rows, b.cols, 4,
      seq(b.rows, y requires 0 <= y < b.rows =>
        seq(b.cols, x requires 0 <= x < b.cols =>
          seq(4, c requires 0 <= c < 4 => ByteAt(b, y, x, Swap(c))))))
  }

  /**
   * The packing loops as the constructor and SetPixelArray run them: a zeroed
   * buffer of nRows * stride bytes, then one store per byte in row-major order.
   */
  method PackLoop(a: Array3, nRows: nat, nCols: nat) returns (pixels: seq<byte>)
    requires nCols == 0 || Readable(a, nRows, nCols)
    ensures pixels == PackRows(a, nRows, nCols)
  {
    var stride := nCols * 4;
    var size := nRows * stride;
    ghost var want := PackRows(a, nRows, nCols);
    pixels := Zeros(size);
    for y := 0 to nRows
      invariant |pixels| == size
      invariant forall o :: 0 <= o < size ==> pixels[o] == if o < y * stride then want[o] else 0
    {
      for x := 0 to nCols
        invariant |pixels| == size
        invariant forall o :: 0 <= o < size ==> pixels[o] == if o < y * stride + x * 4 then want[o] else 0
      {
        for i := 0 to 3
          invariant |pixels| == size
          invariant forall o :: 0 <= o < size ==> pixels[o] == if o < y * stride + x * 4 + i then want[o] else 0
        {
          StoreAt(a, nRows, nCols, y, x, i);
          pixels := pixels[y * stride + x * 4 + i := a.cells[y][x][2 - i]];
        }
        StoreAt(a, nRows, nCols, y, x, 3);
        pixels := pixels[y * stride + x * 4 + 3 := a.cells[y][x][3]];
      }
      assert y * stride + nCols * 4 == (y + 1) * stride;
    }
  }

  /** The store the loops make at (y, x, k) is inside the buffer and puts the packed byte there. */
  lemma StoreAt(a: Array3, n: nat, m: nat, y: nat, x: nat, k: nat)
    requires Readable(a, n, m) && y < n && x < m && k < 4
    ensures Offset(y, x, k, m) < n * Stride(m)
    ensures PackRows(a, n, m)[Offset(y, x, k, m)] == a.cells[y][x][Swap(k)]
  {
    PackRowsAt(a, n, m, y, x, k);
  }

  // ---------------------------------------------------------------- offsets

  /** Every offset of an n x m buffer lies inside it. */
  lemma OffsetBound(y: nat, x: nat, k: nat, n: nat, m: nat)
    requires y < n && x < m && k < 4
    ensures Offset(y, x, k, m) < n * Stride(m)
  {
    assert PixelOffset(x, k) < Stride(m);
    MulStep(y, n, Stride(m));
  }

  /** Distinct (row, column, byte) triples of a buffer have distinct offsets: each byte is written once. */
  lemma {:induction false} OffsetInjective(y: nat, x: nat, k: nat, y': nat, x': nat, k': nat, m: nat)
    requires x < m && k < 4 && x' < m && k' < 4
    requires Offset(y, x, k, m) == Offset(y', x', k', m)
    ensures y == y' && x == x' && k == k'
  {
    var s := Stride(m);
    if y > 0 && y' > 0 {
      assert y * s == (y - 1) * s + s;
      assert y' * s == (y' - 1) * s + s;
      OffsetInjective(y - 1, x, k, y' - 1, x', k', m);
    } else if y > 0 {
      MulStep(0, y, s);
      assert false;
    } else if y' > 0 {
      MulStep(0, y', s);
      assert false;
    }
  }

  /** Every position of an n x m buffer is the offset of some (row, column, byte). */
  lemma {:induction false} OffsetCover(o: nat, n: nat, m: nat) returns (y: nat, x: nat, k: nat)
    requires o < n * Stride(m)
    ensures y < n && x < m && k < 4 && Offset(y, x, k, m) == o
  {
    var s := Stride(m);
    assert n * s == (n - 1) * s + s;
    if o < s {
      y, x, k := 0, o / 4, o % 4;
    } else {
      var y';
      y', x, k := OffsetCover(o - s, n - 1, m);
      y := y' + 1;
      assert y * s == y' * s + s;
    }
  }

  // ---------------------------------------------------------------- packing

  /** Byte k of pixel x of a packed row is that pixel's channel Swap(k). */
  lemma {:induction false} PackRowAt(row: seq<seq<byte>>, n: nat, x: nat, k: nat)
    requires n <= |row| && forall x :: 0 <= x < n ==> |row[x]| >= 4
    requires x < n && k < 4
    ensures PackRow(row, n)[PixelOffset(x, k)] == row[x][Swap(k)]
  {
    if x < n - 1 {
      PackRowAt(row, n - 1, x, k);
    } else {
      assert PixelOffset(x, k) == Stride(n - 1) + k;
    }
  }

  /** Byte k of pixel (y, x) of the packed buffer is that pixel's channel Swap(k). */
  lemma {:induction false} PackRowsAt(a: Array3, n: nat, m: nat, y: nat, x: nat, k: nat)
    requires Readable(a, n, m)
    requires y < n && x < m && k < 4
    ensures var o := Offset(y, x, k, m);
            o < |PackRows(a, n, m)| && PackRows(a, n, m)[o] == a.cells[y][x][Swap(k)]
  {
    OffsetBound(y, x, k, n, m);
    var s := Stride(m);
    assert (n - 1) * s + s == n * s;
    if y < n - 1 {
      OffsetBound(y, x, k, n - 1, m);
      PackRowsAt(a, n - 1, m, y, x, k);
    } else {
      PackRowAt(a.cells[n - 1], m, x, k);
    }
  }

  /** Swapping twice restores the channel: the byte order is its own inverse. */
  lemma SwapInvolution(k: nat)
    requires k < 4
    ensures Swap(Swap(k)) == k
  {
  }

  // ---------------------------------------------------------------- round trips

  /** Unpacking the buffer the constructor packs gives back the array it was given. */
  lemma UnpackPack(a: Array3)
    requires a.Valid() && a.depth == 4
    ensures FromPixelArray(a).Success?
    ensures GetPixelArray(FromPixelArray(a).value) == a
  {
    var b := FromPixelArray(a).value;
    var a' := GetPixelArray(b);
    forall y, x, c | 0 <= y < a.rows && 0 <= x < a.cols && 0 <= c < 4
      ensures a'.cells[y][x][c] == a.cells[y][x][c]
    {
      PackRowsAt(a, a.rows, a.cols, y, x, Swap(c));
    }
    forall y | 0 <= y < a.rows ensures a'.cells[y] == a.cells[y] {
      forall x | 0 <= x < a.cols ensures a'.cells[y][x] == a.cells[y][x] {
      }
    }
  }

  /** Packing the unpacking of a bitmap restores its buffer byte for byte. */
  lemma PackUnpack(b: Bitmap)
    requires b.Valid()
    ensures FromPixelArray(GetPixelArray(b)) == Success(b)
  {
    var p := PackRows(GetPixelArray(b), b.rows, b.cols);
    forall o | 0 <= o < |p| ensures p[o] == b.pixels[o] {
      PackUnpackAt(b, o);
    }
    assert p == b.pixels;
  }

  lemma PackUnpackAt(b: Bitmap, o: nat)
    requires b.Valid() && o < |b.pixels|
    ensures var p := PackRows(GetPixelArray(b), b.rows, b.cols);
            o < |p| && p[o] == b.pixels[o]
  {
    var y, x, k := OffsetCover(o, b.rows, b.cols);
    PackRowsAt(GetPixelArray(b), b.rows, b.cols, y, x, k);
  }

  /** The top-left n x m corner of an array. */
  function Crop(a: Array3, n: nat, m: nat): (c: Array3)
    requires a.Valid() && n <= a.rows && m <= a.cols
    ensures c.Valid() && c.rows == n && c.cols == m && c.depth == a.depth
    ensures forall y, x :: 0 <= y < n && 0 <= x < m ==> c.cells[y][x] == a.cells[y][x]
  {
    Array3(n, m, a.depth, seq(n, y requires 0 <= y < n => a.cells[y][..m]))
  }

  /**
   * SetPixelArray on a four-channel array, inside its bounds, builds the bitmap the
   * constructor builds from the corner it reads: with the array's own size, exactly
   * the constructor's bitmap.
   */
  lemma SetPixelArrayMatchesConstructor(a: Array3, nRows: nat, nCols: nat)
    requires a.Valid() && a.depth == 4 && nRows <= a.rows && nCols <= a.cols
    ensures SetPixelArray(a, nRows, nCols) == FromPixelArray(Crop(a, nRows, nCols))
    ensures SetPixelArray(a, a.rows, a.cols) == FromPixelArray(a)
  {
    var c := Crop(a, nRows, nCols);
    if nCols > 0 {
      PackRowsSame(a, c, nRows, nCols);
    }
  }

  /** Two arrays that agree on their n x m corner pack it to the same bytes. */
  lemma {:induction false} PackRowsSame(a: Array3, b: Array3, n: nat, m: nat)
    requires Readable(a, n, m) && Readable(b, n, m)
    requires forall y, x :: 0 <= y < n && 0 <= x < m ==> a.cells[y][x] == b.cells[y][x]
    ensures PackRows(a, n, m) == PackRows(b, n, m)
  {
    if n > 0 && m > 0 {
      PackRowsSame(a, b, n - 1, m);
      PackRowSame(a.cells[n - 1], b.cells[n - 1], m);
    }
  }

  lemma {:induction false} PackRowSame(r: seq<seq<byte>>, r': seq<seq<byte>>, m: nat)
    requires m <= |r| && m <= |r'|
    requires forall x :: 0 <= x < m ==> |r[x]| >= 4 && r[x] == r'[x]
    ensures PackRow(r, m) == PackRow(r', m)
  {
    if m > 0 {
      PackRowSame(r, r', m - 1);
    }
  }
}
