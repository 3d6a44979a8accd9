/**
 Scanlines: rows of black and white cells, each cell enlarged to a square of RGB pixels and each
 line preceded by filter type 0 (section 6.2 of RFC 2083), and where their bytes are.
 */
module PngRaster {
  import opened Wrappers
  import opened PngFile

  // ---------- Scanlines ----------

  /** A block, repeated; not at all for a count that is not positive. */
  function Repeat(block: Bytes, n: int): Bytes {
    if n <= 0 then [] else Repeat(block, n - 1) + block
  }

  function Channel(black: bool): Byte { if black then 0 else 255 }

  /** The pixels of a row of cells, without the filter byte. */
  function Pixels(cells: seq<bool>, scale: int): Bytes {
    if cells == [] then []
    else
      var c := Channel(cells[|cells| - 1]);
      Pixels(cells[..|cells| - 1], scale) + Repeat([c, c, c], scale)
  }

  /** The scanlines of rows of cells, each with filter type 0 (section 6.2 of RFC 2083). */
  function Scanlines(rows: seq<seq<bool>>, scale: int): Bytes {
    if rows == [] then []
    else Scanlines(rows[..|rows| - 1], scale) + Repeat(Line(rows[|rows| - 1], scale), scale)
  }

  lemma {:induction false} RepeatAt(block: Bytes, n: int, i: nat, k: nat)
    requires i < n && k < |block|
    ensures |Repeat(block, n)| == n * |block|
    ensures 0 <= i * |block| + k < |Repeat(block, n)| && Repeat(block, n)[i * |block| + k] == block[k]
  {
    RepeatLength(block, n - 1);
    if i < n - 1 {
      RepeatAt(block, n - 1, i, k);
    }
    assert n * |block| == (n - 1) * |block| + |block|;
    assert i * |block| + |block| <= n * |block| by {
      WithinBlocks(i, n, |block|);
    }
  }

  lemma WithinBlocks(i: nat, n: int, size: nat)
    requires i < n
    ensures i * size + size <= n * size
  {
    assert (n - i - 1) * size >= 0;
    assert n * size == i * size + size + (n - i - 1) * size;
  }

  lemma {:induction false} RepeatLength(block: Bytes, n: int)
    ensures |Repeat(block, n)| == if n <= 0 then 0 else n * |block|
  {
    if n > 0 {
      RepeatLength(block, n - 1);
      assert n * |block| == (n - 1) * |block| + |block|;
    }
  }

  lemma {:induction false} PixelsLength(cells: seq<bool>, scale: nat)
    ensures |Pixels(cells, scale)| == |cells| * (scale * 3)
  {
    if cells != [] {
      var c := Channel(cells[|cells| - 1]);
      PixelsLength(cells[..|cells| - 1], scale);
      RepeatLength([c, c, c], scale);
      assert |cells| * (scale * 3) == (|cells| - 1) * (scale * 3) + scale * 3;
    }
  }

  lemma {:induction false} PixelsAt(cells: seq<bool>, scale: nat, x: nat, t: nat, channel: nat)
    requires x < |cells| && t < scale && channel < 3
    ensures 0 <= x * (scale * 3) + (t * 3 + channel) < |Pixels(cells, scale)|
    ensures Pixels(cells, scale)[x * (scale * 3) + (t * 3 + channel)] == if cells[x] then 0 else 255
  {
    var last := |cells| - 1;
    var c := Channel(cells[last]);
    PixelsLength(cells, scale);
    PixelsLength(cells[..last], scale);
    RepeatAt([c, c, c], scale, t, channel);
    WithinBlocks(x, |cells|, scale * 3);
    if x < last {
      PixelsAt(cells[..last], scale, x, t, channel);
    }
  }

  function Line(cells: seq<bool>, scale: int): Bytes { [0] + Pixels(cells, scale) }

  lemma LineLength(cells: seq<bool>, scale: nat)
    ensures |Line(cells, scale)| == LineSize(|cells| * scale)
  {
    PixelsLength(cells, scale);
    assert |cells| * (scale * 3) == 3 * (|cells| * scale);
  }

  ghost predicate Uniform(rows: seq<seq<bool>>, scale: nat, size: nat) {
    forall y :: 0 <= y < |rows| ==> |Line(rows[y], scale)| == size
  }

  lemma {:induction false} ScanlinesLength(rows: seq<seq<bool>>, scale: nat, size: nat)
    requires Uniform(rows, scale, size)
    ensures |Scanlines(rows, scale)| == |rows| * (scale * size)
  {
    if rows != [] {
      var last := |rows| - 1;
      ScanlinesLength(rows[..last], scale, size);
      RepeatLength(Line(rows[last], scale), scale);
      OneMoreBlock(last, scale * size);
    }
  }

  lemma OneMoreBlock(n: nat, size: nat)
    ensures (n + 1) * size == n * size + size
  {
  }

  lemma {:induction false} ScanlinesAt(rows: seq<seq<bool>>, scale: nat, size: nat, y: nat, t: nat, k: nat)
    requires Uniform(rows, scale, size) && y < |rows| && t < scale && k < size
    ensures 0 <= y * (scale * size) + (t * size + k) < |Scanlines(rows, scale)|
    ensures Scanlines(rows, scale)[y * (scale * size) + (t * size + k)] == Line(rows[y], scale)[k]
  {
    var last := |rows| - 1;
    ScanlinesLength(rows, scale, size);
    ScanlinesLength(rows[..last], scale, size);
    RepeatAt(Line(rows[last], scale), scale, t, k);
    WithinBlocks(y, |rows|, scale * size);
    WithinBlocks(t, scale, size);
    if y < last {
      ScanlinesAt(rows[..last], scale, size, y, t, k);
    }
  }

  // ---------- The raster ----------

  ghost predicate Rectangular(rows: seq<seq<bool>>, w: nat) {
    forall y :: 0 <= y < |rows| ==> |rows[y]| == w
  }

  lemma RectangularIsUniform(rows: seq<seq<bool>>, w: nat, scale: nat)
    requires Rectangular(rows, w)
    ensures Uniform(rows, scale, LineSize(w * scale))
  {
    forall y | 0 <= y < |rows|
      ensures |Line(rows[y], scale)| == LineSize(w * scale)
    {
      LineLength(rows[y], scale);
    }
  }

  /** A position among blocks of blocks: the block it is in, and the place in the block. */
  lemma NestedPosition(p: nat, scale: nat, size: nat, n: nat) returns (q: nat, r: nat)
    requires scale > 0 && p < n * scale
    ensures q == p / scale && q < n && r < scale
    ensures p * size == q * (scale * size) + r * size
  {
    q, r := p / scale, p % scale;
    assert p == q * scale + r;
    assert q < n by {
      assert q >= n ==> q * scale >= n * scale;
    }
    assert p * size == q * scale * size + r * size;
    assert q * scale * size == q * (scale * size);
  }

  lemma CellOf(p: nat, scale: nat, n: nat)
    requires scale > 0 && p < n * scale
    ensures 0 <= p / scale < n
  {
    var _, _ := NestedPosition(p, scale, 1, n);
  }

  /** A byte of a scanline is one of the row that the scanline enlarges. */
  lemma ByteOfLine(rows: seq<seq<bool>>, scale: nat, size: nat, py: nat, k: nat)
    requires Uniform(rows, scale, size) && scale > 0 && py < |rows| * scale && k < size
    ensures py / scale < |rows|
    ensures 0 <= py * size + k < |Scanlines(rows, scale)|
    ensures Scanlines(rows, scale)[py * size + k] == Line(rows[py / scale], scale)[k]
  {
    var y, t := NestedPosition(py, scale, size, |rows|);
    ScanlinesAt(rows, scale, size, y, t, k);
    assert py * size + k == y * (scale * size) + (t * size + k);
  }

  lemma ByteOfPixel(cells: seq<bool>, scale: nat, px: nat, channel: nat)
    requires scale > 0 && px < |cells| * scale && channel < 3
    ensures px / scale < |cells|
    ensures 1 + 3 * px + channel < |Line(cells, scale)|
    ensures Line(cells, scale)[1 + 3 * px + channel] == Channel(cells[px / scale])
  {
    var x, t := NestedPosition(px, scale, 3, |cells|);
    PixelsAt(cells, scale, x, t, channel);
    assert 3 * px + channel == x * (scale * 3) + (t * 3 + channel);
  }

  lemma ChannelOfPixel(
    rows: seq<seq<bool>>, w: nat, scale: nat, size: nat, px: nat, py: nat, at: nat, x: nat, y: nat, channel: nat)
    requires Rectangular(rows, w) && Uniform(rows, scale, size)
    requires scale > 0 && py < |rows| * scale && px < w * scale && channel < 3
    requires x == px / scale < w && y == py / scale < |rows| && at == py * size + (1 + 3 * px) + channel
    ensures at < |Scanlines(rows, scale)| && Scanlines(rows, scale)[at] == Channel(rows[y][x])
  {
    ByteOfPixel(rows[y], scale, px, channel);
    ByteOfLine(rows, scale, size, py, 1 + 3 * px + channel);
  }

  /** Every pixel has the colour of the cell it enlarges: (0, 0, 0) for a black one, (255, 255, 255) for a white one. */
  lemma PixelOfCell(rows: seq<seq<bool>>, w: nat, scale: nat, px: nat, py: nat)
    requires Rectangular(rows, w) && scale > 0 && py < |rows| * scale && px < w * scale
    ensures py / scale < |rows| && px / scale < w
    ensures PixelAt(Scanlines(rows, scale), w * scale, px, py) ==
      if rows[py / scale][px / scale] then Some((0, 0, 0)) else Some((255, 255, 255))
  {
    RectangularIsUniform(rows, w, scale);
    var size := LineSize(w * scale);
    CellOf(py, scale, |rows|);
    CellOf(px, scale, w);
    var at := py * size + (1 + 3 * px);
    ChannelOfPixel(rows, w, scale, size, px, py, at, px / scale, py / scale, 0);
    ChannelOfPixel(rows, w, scale, size, px, py, at + 1, px / scale, py / scale, 1);
    ChannelOfPixel(rows, w, scale, size, px, py, at + 2, px / scale, py / scale, 2);
  }

  lemma FilterOfLine(rows: seq<seq<bool>>, w: nat, scale: nat, py: nat)
    requires Rectangular(rows, w) && scale > 0 && py < |rows| * scale
    ensures FilterAt(Scanlines(rows, scale), w * scale, py) == Some(0)
  {
    RectangularIsUniform(rows, w, scale);
    ByteOfLine(rows, scale, LineSize(w * scale), py, 0);
  }

  lemma RasterLength(rows: seq<seq<bool>>, w: nat, scale: nat)
    requires Rectangular(rows, w)
    ensures |Scanlines(rows, scale)| == (|rows| * scale) * LineSize(w * scale)
  {
    RectangularIsUniform(rows, w, scale);
    ScanlinesLength(rows, scale, LineSize(w * scale));
    Regroup(|rows|, scale, LineSize(w * scale));
  }

  lemma Regroup(a: nat, b: nat, c: nat)
    ensures a * (b * c) == (a * b) * c
  {
  }

  lemma SizeOfRaster(rows: seq<seq<bool>>, w: nat, scale: nat, width: nat, height: nat)
    requires Rectangular(rows, w) && width == w * scale && height == |rows| * scale
    ensures |Scanlines(rows, scale)| == height * LineSize(width)
  {
    RasterLength(rows, w, scale);
  }

  lemma FiltersOfRaster(rows: seq<seq<bool>>, w: nat, scale: nat, width: nat, height: nat)
    requires Rectangular(rows, w) && scale > 0 && width == w * scale && height == |rows| * scale
    ensures forall py: nat :: py < height ==> FilterAt(Scanlines(rows, scale), width, py) == Some(0)
  {
    forall py: nat | py < height
      ensures FilterAt(Scanlines(rows, scale), width, py) == Some(0)
    {
      FilterOfLine(rows, w, scale, py);
    }
  }

  lemma NothingAtScaleZero(rows: seq<seq<bool>>, w: nat)
    requires Rectangular(rows, w)
    ensures Scanlines(rows, 0) == []
  {
    RasterLength(rows, w, 0);
  }

  lemma Enlarged(x: nat, scale: nat, n: nat)
    requires x < n && scale > 0
    ensures 0 <= x * scale < n * scale && x * scale / scale == x
  {
    WithinBlocks(x, n, scale);
    QuotientIsUnique(x, scale, x * scale / scale, x * scale % scale);
  }

  lemma QuotientIsUnique(x: nat, scale: nat, q: nat, r: nat)
    requires x * scale == q * scale + r && r < scale
    ensures q == x
  {
    if q < x {
      WithinBlocks(q, x, scale);
    } else if x < q {
      WithinBlocks(x, q, scale);
    }
  }
}
