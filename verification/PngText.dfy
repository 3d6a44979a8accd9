/**
 Rendering a line of text as a PNG image: glyphs are drawn on a grid of cells, the cells are scaled
 up to scanlines of RGB pixels, and the result is wrapped in the chunks of a PNG file.
 */
module PngText {
  import opened Wrappers
  import opened PngFile
  import opened PngRaster

  // ---------- Glyphs ----------

  const CHAR_W := 5
  const CHAR_H := 7
  const SPACING := 1

  predicate IsGlyph(g: seq<string>) {
    && |g| == CHAR_H
    && forall r :: 0 <= r < CHAR_H ==> |g[r]| == CHAR_W && forall c :: 0 <= c < CHAR_W ==> g[r][c] in {'.', '#'}
  }

  type Glyph = g: seq<string> | IsGlyph(g) witness seq(CHAR_H, _ => ".....")

  function Font(name: string): Option<seq<string>> {
    if name == " " then Some([".....", ".....", ".....", ".....", ".....", ".....", "....."])
    else if name == "-" then Some([".....", ".....", ".....", "#####", ".....", ".....", "....."])
    else if name == "0" then Some([".###.", "#...#", "#..##", "#.#.#", "##..#", "#...#", ".###."])
    else if name == "1" then Some(["..#..", ".##..", "..#..", "..#..", "..#..", "..#..", ".###."])
    else if name == "2" then Some([".###.", "#...#", "....#", "...#.", "..#..", ".#...", "#####"])
    else if name == "E" then Some(["#####", "#....", "#....", "###..", "#....", "#....", "#####"])
    else if name == "O" then Some([".###.", "#...#", "#...#", "#...#", "#...#", "#...#", ".###."])
    else if name == "R" then Some(["####.", "#...#", "#...#", "####.", "#.#..", "#..#.", "#...#"])
    else if name == "X" then Some(["#...#", "#...#", ".#.#.", "..#..", ".#.#.", "#...#", "#...#"])
    else None
  }

  lemma FontGlyphsFit(name: string)
    requires Font(name).Some?
    ensures IsGlyph(Font(name).value)
  {
  }

  // ---------- Ink ----------

  /** The position that an index of Python denotes in a list: a negative one counts from the end. */
  function Position(index: int, length: nat): Option<nat> {
    if 0 <= index < length then Some(index)
    else if index < 0 <= index + length then Some(index + length)
    else None
  }

  function GlyphX(margin: int, index: nat): int { margin + index * (CHAR_W + SPACING) }

  function GridWidth(n: nat, margin: int): int { margin * 2 + n * (CHAR_W + SPACING) - SPACING }

  function GridHeight(margin: int): int { margin * 2 + CHAR_H }

  function AtLeastZero(n: int): nat { if n < 0 then 0 else n }

  function Columns(n: nat, margin: int): nat { AtLeastZero(GridWidth(n, margin)) }

  function Rows(margin: int): nat { AtLeastZero(GridHeight(margin)) }

  /** Row `r` and column `c` of the glyph at (x0, y0) is a `#` and falls on the cell (x, y) of a grid. */
  predicate Hits(g: Glyph, x0: int, y0: int, w: nat, h: nat, r: nat, c: nat, x: int, y: int)
    requires r < CHAR_H && c < CHAR_W
  {
    g[r][c] == '#' && Position(y0 + r, h) == Some(y) && Position(x0 + c, w) == Some(x)
  }

  predicate CellLands(g: Glyph, x0: int, y0: int, w: nat, h: nat, r: nat, c: nat)
    requires r < CHAR_H && c < CHAR_W
  {
    g[r][c] == '#' ==> Position(y0 + r, h).Some? && Position(x0 + c, w).Some?
  }

  /** Every `#` of the glyph falls on a cell of the grid. */
  ghost predicate Lands(g: Glyph, x0: int, y0: int, w: nat, h: nat) {
    forall r: nat, c: nat :: r < CHAR_H && c < CHAR_W ==> CellLands(g, x0, y0, w, h, r, c)
  }

  ghost predicate OnGlyph(g: Glyph, x0: int, y0: int, w: nat, h: nat, x: int, y: int) {
    exists r: nat, c: nat :: r < CHAR_H && c < CHAR_W && Hits(g, x0, y0, w, h, r, c, x, y)
  }

  ghost predicate InkedBy(glyphs: seq<Glyph>, margin: int, w: nat, h: nat, x: int, y: int) {
    exists i :: 0 <= i < |glyphs| && OnGlyph(glyphs[i], GlyphX(margin, i), margin, w, h, x, y)
  }

  /** The cell (x, y) is black. */
  ghost predicate Inked(glyphs: seq<Glyph>, margin: int, x: int, y: int) {
    InkedBy(glyphs, margin, Columns(|glyphs|, margin), Rows(margin), x, y)
  }

  ghost predicate AllLand(glyphs: seq<Glyph>, margin: int) {
    forall i :: 0 <= i < |glyphs| ==>
      Lands(glyphs[i], GlyphX(margin, i), margin, Columns(|glyphs|, margin), Rows(margin))
  }

  /** With a margin, every cell of every glyph lies on the grid, and no column belongs to two glyphs. */
  lemma GlyphColumns(n: nat, margin: nat, i: nat, j: nat, x: int)
    requires i < n && j < n && GlyphX(margin, i) <= x < GlyphX(margin, i) + CHAR_W
    ensures 0 <= x < GridWidth(n, margin)
    ensures GlyphX(margin, j) <= x < GlyphX(margin, j) + CHAR_W <==> i == j
  {
  }

  lemma MarginLands(glyphs: seq<Glyph>, margin: nat)
    ensures AllLand(glyphs, margin)
  {
    forall i, r: nat, c: nat | 0 <= i < |glyphs| && r < CHAR_H && c < CHAR_W
      ensures CellLands(glyphs[i], GlyphX(margin, i), margin, Columns(|glyphs|, margin), Rows(margin), r, c)
    {
      GlyphColumns(|glyphs|, margin, i, i, GlyphX(margin, i) + c);
    }
  }

  /** With a negative margin, a glyph with ink in its last row does not fit. */
  lemma NegativeMarginCutsOff(glyphs: seq<Glyph>, margin: int, i: nat, c: nat)
    requires margin < 0 && i < |glyphs| && c < CHAR_W && glyphs[i][CHAR_H - 1][c] == '#'
    ensures !AllLand(glyphs, margin)
  {
    assert !CellLands(glyphs[i], GlyphX(margin, i), margin, Columns(|glyphs|, margin), Rows(margin), CHAR_H - 1, c);
  }

  /** The grid shows each glyph where it stands, cell by cell. */
  lemma InkShowsGlyph(glyphs: seq<Glyph>, margin: nat, i: nat, r: nat, c: nat)
    requires i < |glyphs| && r < CHAR_H && c < CHAR_W
    ensures Inked(glyphs, margin, GlyphX(margin, i) + c, margin + r) <==> glyphs[i][r][c] == '#'
  {
    var (w, h) := (Columns(|glyphs|, margin), Rows(margin));
    var (x, y) := (GlyphX(margin, i) + c, margin + r);
    GlyphColumns(|glyphs|, margin, i, i, x);
    if glyphs[i][r][c] == '#' {
      assert Hits(glyphs[i], GlyphX(margin, i), margin, w, h, r, c, x, y);
    }
    if Inked(glyphs, margin, x, y) {
      var j :| 0 <= j < |glyphs| && OnGlyph(glyphs[j], GlyphX(margin, j), margin, w, h, x, y);
      var r': nat, c': nat :|
        r' < CHAR_H && c' < CHAR_W && Hits(glyphs[j], GlyphX(margin, j), margin, w, h, r', c', x, y);
      GlyphColumns(|glyphs|, margin, i, j, x);
    }
  }

  /** Two rows of glyphs leave the same ink on the grid of the first one. */
  ghost predicate SameInk(a: seq<Glyph>, b: seq<Glyph>, margin: int) {
    forall x, y :: 0 <= x < GridWidth(|a|, margin) && 0 <= y < GridHeight(margin) ==>
      (Inked(a, margin, x, y) <==> Inked(b, margin, x, y))
  }

  /** Different rows of glyphs of the same length leave different ink. */
  lemma InkIsLegible(a: seq<Glyph>, b: seq<Glyph>, margin: nat)
    requires |a| == |b| && SameInk(a, b, margin)
    ensures a == b
  {
    forall i | 0 <= i < |a|
      ensures a[i] == b[i]
    {
      forall r, c | 0 <= r < CHAR_H && 0 <= c < CHAR_W
        ensures a[i][r][c] == b[i][r][c]
      {
        InkShowsGlyph(a, margin, i, r, c);
        InkShowsGlyph(b, margin, i, r, c);
        GlyphColumns(|a|, margin, i, i, GlyphX(margin, i) + c);
      }
      forall r | 0 <= r < CHAR_H
        ensures a[i][r] == b[i][r]
      {
      }
    }
  }

  /** Glyph `i` has a `#` in row `r` and column `c`. */
  predicate Marks(glyphs: seq<Glyph>, i: int, r: int, c: int) {
    0 <= i < |glyphs| && 0 <= r < 7 && 0 <= c < 5 && glyphs[i][r][c] == '#'
  }

  /** The index denotes a position of a list of length `n`, counted from the end when it is negative. */
  predicate Denotes(index: int, n: nat, position: nat) {
    position < n && (index == position || index + n == position)
  }

  /**
   Where the ink is, in numbers: cell (c, r) of glyph i is drawn at (margin + 6i + c, margin + r) of a
   grid of 2 * margin + 6n - 1 by 2 * margin + 7 cells, where a negative index counts from the end.
   */
  lemma InkInNumbers(glyphs: seq<Glyph>, margin: int, w: nat, h: nat, x: nat, y: nat)
    requires w == 2 * margin + 6 * |glyphs| - 1 && h == 2 * margin + 7 && x < w && y < h
    ensures Inked(glyphs, margin, x, y) <==> exists i, r, c ::
      Marks(glyphs, i, r, c) && Denotes(margin + 6 * i + c, w, x) && Denotes(margin + r, h, y)
  {
    if i: nat, r: nat, c: nat :|
      Marks(glyphs, i, r, c) && Denotes(margin + 6 * i + c, w, x) && Denotes(margin + r, h, y) {
      HitsInNumbers(glyphs, margin, w, h, i, r, c, x, y);
    }
    if Inked(glyphs, margin, x, y) {
      var i :| 0 <= i < |glyphs| && OnGlyph(glyphs[i], GlyphX(margin, i), margin, w, h, x, y);
      var r: nat, c: nat :| r < CHAR_H && c < CHAR_W && Hits(glyphs[i], GlyphX(margin, i), margin, w, h, r, c, x, y);
      HitsInNumbers(glyphs, margin, w, h, i, r, c, x, y);
    }
  }

  lemma HitsInNumbers(glyphs: seq<Glyph>, margin: int, w: nat, h: nat, i: nat, r: nat, c: nat, x: nat, y: nat)
    requires i < |glyphs| && r < CHAR_H && c < CHAR_W
    ensures Hits(glyphs[i], GlyphX(margin, i), margin, w, h, r, c, x, y) <==>
      Marks(glyphs, i, r, c) && Denotes(margin + 6 * i + c, w, x) && Denotes(margin + r, h, y)
  {
  }

  /** All ink is on the grid, in numbers. */
  lemma LandsInNumbers(glyphs: seq<Glyph>, margin: int, w: nat, h: nat)
    requires w == Columns(|glyphs|, margin) && h == Rows(margin)
    ensures w == (if 2 * margin + 6 * |glyphs| - 1 < 0 then 0 else 2 * margin + 6 * |glyphs| - 1)
    ensures h == (if 2 * margin + 7 < 0 then 0 else 2 * margin + 7)
    ensures AllLand(glyphs, margin) <==> forall i, r, c :: Marks(glyphs, i, r, c) ==>
      0 <= margin + 6 * i + c + w && margin + 6 * i + c < w && 0 <= margin + r + h && margin + r < h
  {
    if AllLand(glyphs, margin) {
      forall i: nat, r: nat, c: nat | Marks(glyphs, i, r, c)
        ensures 0 <= margin + 6 * i + c + w && margin + 6 * i + c < w && 0 <= margin + r + h && margin + r < h
      {
        assert CellLands(glyphs[i], GlyphX(margin, i), margin, w, h, r, c);
      }
    }
    if !AllLand(glyphs, margin) {
      var i :| 0 <= i < |glyphs| && !Lands(glyphs[i], GlyphX(margin, i), margin, w, h);
      var r: nat, c: nat :| r < CHAR_H && c < CHAR_W && !CellLands(glyphs[i], GlyphX(margin, i), margin, w, h, r, c);
      assert Marks(glyphs, i, r, c);
    }
  }

  lemma InkOfOneMore(glyphs: seq<Glyph>, margin: int, w: nat, h: nat, n: nat, x: int, y: int)
    requires n < |glyphs|
    ensures InkedBy(glyphs[..n + 1], margin, w, h, x, y) <==>
      InkedBy(glyphs[..n], margin, w, h, x, y) || OnGlyph(glyphs[n], GlyphX(margin, n), margin, w, h, x, y)
  {
    assert forall i :: 0 <= i < n ==> glyphs[..n][i] == glyphs[i] && glyphs[..n + 1][i] == glyphs[i];
    assert glyphs[..n + 1][n] == glyphs[n];
  }

  // ---------- Drawing ----------

  /** The cell is one that the first `n` columns of row `r` fall on. */
  ghost predicate RowHits(g: Glyph, x0: int, y0: int, w: nat, h: nat, r: nat, n: nat, x: int, y: int)
    requires r < CHAR_H && n <= CHAR_W
  {
    exists c: nat :: c < n && Hits(g, x0, y0, w, h, r, c, x, y)
  }

  ghost predicate RowsHit(g: Glyph, x0: int, y0: int, w: nat, h: nat, n: nat, x: int, y: int)
    requires n <= CHAR_H
  {
    exists r: nat :: r < n && RowHits(g, x0, y0, w, h, r, CHAR_W, x, y)
  }

  lemma RowsHitGlyph(g: Glyph, x0: int, y0: int, w: nat, h: nat, x: int, y: int)
    ensures RowsHit(g, x0, y0, w, h, CHAR_H, x, y) <==> OnGlyph(g, x0, y0, w, h, x, y)
  {
    if r: nat, c: nat :| r < CHAR_H && c < CHAR_W && Hits(g, x0, y0, w, h, r, c, x, y) {
      assert RowHits(g, x0, y0, w, h, r, CHAR_W, x, y);
    }
  }

  /** Blackens the cells under one row of a glyph, up to the first one that is not on the grid. */
  method DrawRow(grid: array2<int>, glyph: Glyph, x0: int, y0: int, r: nat) returns (ok: bool)
    requires r < CHAR_H
    modifies grid
    ensures ok <==> forall c: nat :: c < CHAR_W ==> CellLands(glyph, x0, y0, grid.Length1, grid.Length0, r, c)
    ensures ok ==> forall y, x :: 0 <= y < grid.Length0 && 0 <= x < grid.Length1 ==>
      grid[y, x] == if RowHits(glyph, x0, y0, grid.Length1, grid.Length0, r, CHAR_W, x, y) then 0 else old(grid[y, x])
  {
    for c := 0 to CHAR_W
      invariant forall c': nat :: c' < c ==> CellLands(glyph, x0, y0, grid.Length1, grid.Length0, r, c')
      invariant forall y, x :: 0 <= y < grid.Length0 && 0 <= x < grid.Length1 ==>
        grid[y, x] == if RowHits(glyph, x0, y0, grid.Length1, grid.Length0, r, c, x, y) then 0 else old(grid[y, x])
    {
      if glyph[r][c] == '#' {
        var (y, x) := (Position(y0 + r, grid.Length0), Position(x0 + c, grid.Length1));
        if y.None? || x.None? {
          assert !CellLands(glyph, x0, y0, grid.Length1, grid.Length0, r, c);
          return false;
        }
        grid[y.value, x.value] := 0;
        assert Hits(glyph, x0, y0, grid.Length1, grid.Length0, r, c, x.value, y.value);
      }
    }
    ok := true;
  }

  /** Blackens the cells under one glyph, unless a cell is not on the grid. */
  method DrawGlyph(grid: array2<int>, glyph: Glyph, x0: int, y0: int) returns (ok: bool)
    modifies grid
    ensures ok <==> Lands(glyph, x0, y0, grid.Length1, grid.Length0)
    ensures ok ==> forall y, x :: 0 <= y < grid.Length0 && 0 <= x < grid.Length1 ==>
      grid[y, x] == if OnGlyph(glyph, x0, y0, grid.Length1, grid.Length0, x, y) then 0 else old(grid[y, x])
  {
    for r := 0 to CHAR_H
      invariant forall r': nat, c: nat :: r' < r && c < CHAR_W ==>
        CellLands(glyph, x0, y0, grid.Length1, grid.Length0, r', c)
      invariant forall y, x :: 0 <= y < grid.Length0 && 0 <= x < grid.Length1 ==>
        grid[y, x] == if RowsHit(glyph, x0, y0, grid.Length1, grid.Length0, r, x, y) then 0 else old(grid[y, x])
    {
      ok := DrawRow(grid, glyph, x0, y0, r);
      if !ok {
        return;
      }
      forall y, x
        ensures RowsHit(glyph, x0, y0, grid.Length1, grid.Length0, r + 1, x, y) <==>
          RowsHit(glyph, x0, y0, grid.Length1, grid.Length0, r, x, y) ||
          RowHits(glyph, x0, y0, grid.Length1, grid.Length0, r, CHAR_W, x, y)
      {
      }
    }
    ok := true;
    forall y, x
      ensures RowsHit(glyph, x0, y0, grid.Length1, grid.Length0, CHAR_H, x, y) <==>
        OnGlyph(glyph, x0, y0, grid.Length1, grid.Length0, x, y)
    {
      RowsHitGlyph(glyph, x0, y0, grid.Length1, grid.Length0, x, y);
    }
  }

  /** The grid of a row of glyphs, white with their ink, unless some of it is not on the grid. */
  method DrawText(glyphs: seq<Glyph>, margin: int) returns (grid: array2<int>, ok: bool)
    ensures fresh(grid) && grid.Length0 == Rows(margin) && grid.Length1 == Columns(|glyphs|, margin)
    ensures ok <==> AllLand(glyphs, margin)
    ensures ok ==> forall y, x :: 0 <= y < grid.Length0 && 0 <= x < grid.Length1 ==>
      grid[y, x] == if Inked(glyphs, margin, x, y) then 0 else 1
  {
    var (w, h) := (Columns(|glyphs|, margin), Rows(margin));
    grid := new int[h, w]((_, _) => 1);
    for n := 0 to |glyphs|
      invariant fresh(grid)
      invariant forall i :: 0 <= i < n ==> Lands(glyphs[i], GlyphX(margin, i), margin, w, h)
      invariant forall y, x :: 0 <= y < grid.Length0 && 0 <= x < grid.Length1 ==>
        grid[y, x] == if InkedBy(glyphs[..n], margin, w, h, x, y) then 0 else 1
    {
      ok := DrawGlyph(grid, glyphs[n], GlyphX(margin, n), margin);
      if !ok {
        return;
      }
      forall y, x | 0 <= y < grid.Length0 && 0 <= x < grid.Length1
        ensures grid[y, x] == if InkedBy(glyphs[..n + 1], margin, w, h, x, y) then 0 else 1
      {
        InkOfOneMore(glyphs, margin, w, h, n, x, y);
      }
    }
    assert glyphs[..|glyphs|] == glyphs;
    ok := true;
  }

  // ---------- Rendering ----------

  datatype Failure = UnknownGlyph(name: string) | IndexError | StructError

  /** The glyphs of a text, or the first name without one; `upper` is the upper-case form of a character. */
  function Glyphs(text: string, upper: char -> string): Result<seq<Glyph>, Failure> {
    if text == [] then Ok([])
    else
      var before := Glyphs(text[..|text| - 1], upper);
      var name := upper(text[|text| - 1]);
      if before.Err? then before
      else if Font(name).None? then Err(UnknownGlyph(name))
      else
        FontGlyphsFit(name);
        Ok(before.value + [Font(name).value])
  }

  /** The black cells of the grid are 0, the others 1. */
  ghost predicate Draws(grid: array2<int>, rows: seq<seq<bool>>)
    reads grid
  {
    && |rows| == grid.Length0 && Rectangular(rows, grid.Length1)
    && forall y, x :: 0 <= y < grid.Length0 && 0 <= x < grid.Length1 ==> grid[y, x] == if rows[y][x] then 0 else 1
  }

  /** The pixels of one row of the grid. */
  method RenderRow(grid: array2<int>, y: nat, scale: int, ghost rows: seq<seq<bool>>) returns (template: Bytes)
    requires Draws(grid, rows) && y < grid.Length0
    ensures template == Pixels(rows[y], scale)
  {
    template := [];
    for x := 0 to grid.Length1
      invariant template == Pixels(rows[y][..x], scale)
    {
      var channel: Byte := if grid[y, x] != 0 then 255 else 0;
      assert rows[y][..x + 1][..x] == rows[y][..x];
      template := template + Repeat([channel, channel, channel], scale);
    }
    assert rows[y][..grid.Length1] == rows[y];
  }

  /** Appends a scanline as often as the scale says. */
  method AppendLines(raw: Bytes, template: Bytes, scale: int) returns (longer: Bytes)
    ensures longer == raw + Repeat([0] + template, scale)
  {
    longer := raw;
    var n := 0;
    while n < scale
      invariant 0 <= n && (n <= scale || n == 0)
      invariant longer == raw + Repeat([0] + template, n)
    {
      longer := longer + [0];
      longer := longer + template;
      n := n + 1;
    }
  }

  method RenderScanlines(grid: array2<int>, scale: int, ghost rows: seq<seq<bool>>) returns (raw: Bytes)
    requires Draws(grid, rows)
    ensures raw == Scanlines(rows, scale)
  {
    raw := [];
    for y := 0 to grid.Length0
      invariant raw == Scanlines(rows[..y], scale)
    {
      var template := RenderRow(grid, y, scale, rows);
      raw := AppendLines(raw, template, scale);
      assert rows[..y + 1][..y] == rows[..y];
    }
    assert rows[..grid.Length0] == rows;
  }

  /** The inked cells of a grid, row by row. */
  ghost function Cells(glyphs: seq<Glyph>, margin: int, w: nat, h: nat): (rows: seq<seq<bool>>)
    ensures |rows| == h && Rectangular(rows, w)
    ensures forall x, y :: 0 <= y < h && 0 <= x < w ==> rows[y][x] == Inked(glyphs, margin, x, y)
  {
    seq(h, y => seq(w, x => Inked(glyphs, margin, x, y)))
  }

  /** The raw image data of a row of glyphs. */
  ghost function Raster(glyphs: seq<Glyph>, margin: int, scale: int): Bytes {
    Scanlines(Cells(glyphs, margin, Columns(|glyphs|, margin), Rows(margin)), scale)
  }

  /** The file that shows a row of glyphs, unless ink misses the grid or a number does not fit in 32 bits. */
  ghost function FileOf(codec: Codec, glyphs: seq<Glyph>, margin: int, scale: int): Result<Bytes, Failure> {
    var (width, height) := (GridWidth(|glyphs|, margin) * scale, GridHeight(margin) * scale);
    var compressed := codec.compress(Raster(glyphs, margin, scale));
    if !AllLand(glyphs, margin) then Err(IndexError)
    else if Packs(width) && Packs(height) && Packs(|compressed|) then Ok(Encode(codec, width, height, compressed))
    else Err(StructError)
  }

  method RenderTextPng(text: string, scale: int, margin: int, upper: char -> string, codec: Codec)
    returns (r: Result<Bytes, Failure>)
    ensures var glyphs := Glyphs(text, upper);
      r == if glyphs.Err? then Err(glyphs.error) else FileOf(codec, glyphs.value, margin, scale)
  {
    var looked := Glyphs(text, upper);
    if looked.Err? {
      return Err(looked.error);
    }
    var glyphs := looked.value;
    var grid, ok := DrawText(glyphs, margin);
    if !ok {
      return Err(IndexError);
    }
    var raw := RenderScanlines(grid, scale, Cells(glyphs, margin, grid.Length1, grid.Length0));
    var width := GridWidth(|glyphs|, margin) * scale;
    var height := GridHeight(margin) * scale;
    var compressed := codec.compress(raw);
    if !Packs(width) || !Packs(height) || !Packs(|compressed|) {
      return Err(StructError);
    }
    r := Ok(Encode(codec, width, height, compressed));
  }

  ghost predicate FirstUnknown(text: string, upper: char -> string, i: nat) {
    i < |text| && Font(upper(text[i])).None? && forall j :: 0 <= j < i ==> Font(upper(text[j])).Some?
  }

  /** The glyphs stand in the places of their characters. */
  ghost predicate SpellsOut(text: string, upper: char -> string, glyphs: seq<Glyph>) {
    |glyphs| == |text| && forall i :: 0 <= i < |text| ==> Font(upper(text[i])) == Some(glyphs[i])
  }

  /** Every character is looked up in its place, and the first one without a glyph is reported. */
  lemma {:induction false} GlyphsOfText(text: string, upper: char -> string)
    ensures Glyphs(text, upper).Ok? ==> SpellsOut(text, upper, Glyphs(text, upper).value)
    ensures Glyphs(text, upper).Err? ==>
      exists i: nat :: FirstUnknown(text, upper, i) && Glyphs(text, upper).error == UnknownGlyph(upper(text[i]))
  {
    if text != [] {
      var last := |text| - 1;
      var front := text[..last];
      GlyphsOfText(front, upper);
      if Glyphs(front, upper).Err? {
        var i: nat :| FirstUnknown(front, upper, i) && Glyphs(front, upper).error == UnknownGlyph(upper(front[i]));
        StillFirstUnknown(text, upper, i);
      } else if Font(upper(text[last])).None? {
        KnownSoFar(text, upper, Glyphs(front, upper).value);
      }
    }
  }

  lemma StillFirstUnknown(text: string, upper: char -> string, i: nat)
    requires text != [] && FirstUnknown(text[..|text| - 1], upper, i)
    ensures FirstUnknown(text, upper, i) && text[..|text| - 1][i] == text[i]
  {
    assert forall j :: 0 <= j < i ==> text[..|text| - 1][j] == text[j];
  }

  lemma KnownSoFar(text: string, upper: char -> string, glyphs: seq<Glyph>)
    requires text != [] && SpellsOut(text[..|text| - 1], upper, glyphs) && Font(upper(text[|text| - 1])).None?
    ensures FirstUnknown(text, upper, |text| - 1)
  {
    assert forall j :: 0 <= j < |text| - 1 ==> text[..|text| - 1][j] == text[j];
  }

  /**
   The picture of a row of glyphs: unfiltered lines, with a black pixel (0, 0, 0) where the enlarged
   cell has ink and a white one (255, 255, 255) elsewhere.
   */
  ghost predicate Shows(picture: Picture, glyphs: seq<Glyph>, margin: int, scale: nat) {
    && |picture.raw| == picture.height * LineSize(picture.width)
    && (forall py: nat :: py < picture.height ==> FilterAt(picture.raw, picture.width, py) == Some(0))
    && (forall px: nat, py: nat :: px < picture.width && py < picture.height ==>
          PixelAt(picture.raw, picture.width, px, py) ==
            if InkAt(glyphs, margin, scale, px, py) then Some((0, 0, 0)) else Some((255, 255, 255)))
  }

  /** The cell that the pixel (px, py) enlarges has ink. */
  ghost predicate InkAt(glyphs: seq<Glyph>, margin: int, scale: nat, px: nat, py: nat) {
    scale > 0 && Inked(glyphs, margin, px / scale, py / scale)
  }

  lemma InkOfCell(glyphs: seq<Glyph>, margin: int, rows: seq<seq<bool>>, w: nat, x: nat, y: nat)
    requires rows == Cells(glyphs, margin, w, |rows|) && x < w && y < |rows|
    ensures |rows[y]| == w && rows[y][x] == Inked(glyphs, margin, x, y)
  {
  }

  lemma InkOfPixel(glyphs: seq<Glyph>, margin: int, rows: seq<seq<bool>>, w: nat, scale: nat, px: nat, py: nat)
    requires rows == Cells(glyphs, margin, w, |rows|)
    requires scale > 0 && px < w * scale && py < |rows| * scale
    ensures PixelAt(Scanlines(rows, scale), w * scale, px, py) ==
      if InkAt(glyphs, margin, scale, px, py) then Some((0, 0, 0)) else Some((255, 255, 255))
  {
    CellOf(px, scale, w);
    CellOf(py, scale, |rows|);
    PixelOfCell(rows, w, scale, px, py);
    InkOfCell(glyphs, margin, rows, w, px / scale, py / scale);
  }

  lemma PixelsOfRaster(
    glyphs: seq<Glyph>, margin: int, rows: seq<seq<bool>>, w: nat, scale: nat, width: nat, height: nat)
    requires rows == Cells(glyphs, margin, w, |rows|)
    requires scale > 0 && width == w * scale && height == |rows| * scale
    ensures forall px: nat, py: nat :: px < width && py < height ==>
      PixelAt(Scanlines(rows, scale), width, px, py) ==
        if InkAt(glyphs, margin, scale, px, py) then Some((0, 0, 0)) else Some((255, 255, 255))
  {
    forall px: nat, py: nat | px < width && py < height
      ensures PixelAt(Scanlines(rows, scale), width, px, py) ==
        if InkAt(glyphs, margin, scale, px, py) then Some((0, 0, 0)) else Some((255, 255, 255))
    {
      InkOfPixel(glyphs, margin, rows, w, scale, px, py);
    }
  }

  lemma EnlargedCellsShow(
    glyphs: seq<Glyph>, margin: int, rows: seq<seq<bool>>, w: nat, scale: nat, width: nat, height: nat)
    requires rows == Cells(glyphs, margin, w, |rows|)
    requires scale > 0 && width == w * scale && height == |rows| * scale
    ensures Shows(Picture(width, height, Scanlines(rows, scale)), glyphs, margin, scale)
  {
    SizeOfRaster(rows, w, scale, width, height);
    FiltersOfRaster(rows, w, scale, width, height);
    PixelsOfRaster(glyphs, margin, rows, w, scale, width, height);
  }

  lemma RasterShows(glyphs: seq<Glyph>, margin: int, scale: nat, width: nat, height: nat)
    requires GridHeight(margin) >= 0
    requires width == GridWidth(|glyphs|, margin) * scale && height == GridHeight(margin) * scale
    ensures Shows(Picture(width, height, Raster(glyphs, margin, scale)), glyphs, margin, scale)
  {
    var (w, h) := (Columns(|glyphs|, margin), Rows(margin));
    if scale == 0 {
      NothingAtScaleZero(Cells(glyphs, margin, w, h), w);
    } else {
      NoColumns(GridWidth(|glyphs|, margin), scale);
      EnlargedCellsShow(glyphs, margin, Cells(glyphs, margin, w, h), w, scale, width, height);
    }
  }

  lemma NoColumns(w: int, scale: nat)
    requires w * scale >= 0
    ensures AtLeastZero(w) * scale == w * scale
  {
  }

  lemma ScaleOfHeight(h: int, scale: int)
    requires h > 0 && h * scale >= 0
    ensures scale >= 0
  {
  }

  /** The file that is emitted reads back as a picture of the text, as long as the grid has rows. */
  lemma RenderedFileShowsText(codec: Codec, glyphs: seq<Glyph>, margin: int, scale: int)
    requires Inflates(codec) && FileOf(codec, glyphs, margin, scale).Ok? && GridHeight(margin) > 0
    ensures scale >= 0
    ensures
      var picture := Decode(codec, FileOf(codec, glyphs, margin, scale).value);
      && picture.Some?
      && picture.value.width == GridWidth(|glyphs|, margin) * scale
      && picture.value.height == GridHeight(margin) * scale
      && Shows(picture.value, glyphs, margin, scale)
  {
    var (width, height) := (GridWidth(|glyphs|, margin) * scale, GridHeight(margin) * scale);
    ScaleOfHeight(GridHeight(margin), scale);
    DecodeEncoded(codec, width, height, Raster(glyphs, margin, scale));
    RasterShows(glyphs, margin, scale, width, height);
  }

  /** A `#` of the glyphs stands at the cell (x, y). */
  predicate Stands(glyphs: seq<Glyph>, margin: int, i: int, r: int, c: int, x: int, y: int) {
    && 0 <= i < |glyphs| && 0 <= r < 7 && 0 <= c < 5 && glyphs[i][r][c] == '#'
    && x == margin + 6 * i + c && y == margin + r
  }

  lemma InkStands(glyphs: seq<Glyph>, margin: nat, w: nat, h: nat, x: nat, y: nat)
    requires w == 2 * margin + 6 * |glyphs| - 1 && h == 2 * margin + 7 && x < w && y < h
    ensures Inked(glyphs, margin, x, y) <==> exists i, r, c :: Stands(glyphs, margin, i, r, c, x, y)
  {
    InkInNumbers(glyphs, margin, w, h, x, y);
    if i, r, c :| Stands(glyphs, margin, i, r, c, x, y) {
      assert Marks(glyphs, i, r, c) && Denotes(margin + 6 * i + c, w, x) && Denotes(margin + r, h, y);
    }
    if i, r, c :| Marks(glyphs, i, r, c) && Denotes(margin + 6 * i + c, w, x) && Denotes(margin + r, h, y) {
      assert Stands(glyphs, margin, i, r, c, x, y);
    }
  }

  /**
   The emitted file in numbers: a picture of (2 * margin + 6n - 1) * scale by (2 * margin + 7) * scale
   pixels, of which pixel (X, Y) is black exactly when X / scale == margin + 6i + c and
   Y / scale == margin + r for a `#` in row r and column c of glyph i, and white otherwise.
   */
  lemma FileInNumbers(codec: Codec, glyphs: seq<Glyph>, margin: nat, scale: int)
    requires Inflates(codec) && FileOf(codec, glyphs, margin, scale).Ok? && scale > 0
    ensures
      var picture := Decode(codec, FileOf(codec, glyphs, margin, scale).value);
      && picture.Some?
      && picture.value.width == (2 * margin + 6 * |glyphs| - 1) * scale
      && picture.value.height == (2 * margin + 7) * scale
      && forall px: nat, py: nat :: px < picture.value.width && py < picture.value.height ==>
           PixelAt(picture.value.raw, picture.value.width, px, py) ==
             if exists i, r, c :: Stands(glyphs, margin, i, r, c, px / scale, py / scale)
             then Some((0, 0, 0)) else Some((255, 255, 255))
  {
    RenderedFileShowsText(codec, glyphs, margin, scale);
    var picture := Decode(codec, FileOf(codec, glyphs, margin, scale).value).value;
    var (w, h) := (2 * margin + 6 * |glyphs| - 1, 2 * margin + 7);
    forall px: nat, py: nat | px < picture.width && py < picture.height
      ensures InkAt(glyphs, margin, scale, px, py) <==>
        exists i, r, c :: Stands(glyphs, margin, i, r, c, px / scale, py / scale)
    {
      WidthIsPositive(w, scale, px);
      CellOf(px, scale, w);
      CellOf(py, scale, h);
      InkStands(glyphs, margin, w, h, px / scale, py / scale);
    }
  }

  lemma WidthIsPositive(w: int, scale: nat, px: nat)
    requires px < w * scale
    ensures w > 0
  {
  }

  // ---------- Valid files ----------

  /** The size of the grid and the scale make a picture within the limits of the format. */
  predicate ValidSize(n: nat, margin: int, scale: int) {
    && scale >= 1 && GridWidth(n, margin) >= 1 && GridHeight(margin) >= 1
    && GridWidth(n, margin) * scale <= LARGEST && GridHeight(margin) * scale <= LARGEST
  }

  lemma SizeIsPositive(n: nat, margin: int, scale: int)
    requires scale >= 1 && GridWidth(n, margin) >= 1 && GridHeight(margin) >= 1
    ensures GridWidth(n, margin) * scale >= 1 && GridHeight(margin) * scale >= 1
  {
  }

  lemma PositiveSize(w: int, h: int, scale: int)
    requires h > 0 && w * scale >= 1 && h * scale >= 1
    ensures scale >= 1 && w >= 1
  {
  }

  /** Without rows there is no image data, so that no picture of a positive height is complete. */
  lemma NoRowsIsIncomplete(glyphs: seq<Glyph>, margin: int, scale: int, width: nat, height: nat)
    requires GridHeight(margin) < 0 && height >= 1
    ensures !Complete(Picture(width, height, Raster(glyphs, margin, scale)))
  {
    assert Cells(glyphs, margin, Columns(|glyphs|, margin), 0) == [];
    assert height * LineSize(width) >= 1;
  }

  /**
   A valid file is emitted exactly when all ink is on the grid, the scale is at least 1, the grid has
   a column and a row, and neither side of the picture nor the data exceeds 2^31 - 1.
   */
  lemma ValidExactly(codec: Codec, glyphs: seq<Glyph>, margin: int, scale: int)
    requires Inflates(codec)
    ensures
      FileOf(codec, glyphs, margin, scale).Ok? && ValidFile(codec, FileOf(codec, glyphs, margin, scale).value) <==>
      && AllLand(glyphs, margin) && ValidSize(|glyphs|, margin, scale)
      && |codec.compress(Raster(glyphs, margin, scale))| <= LARGEST
  {
    var (width, height) := (GridWidth(|glyphs|, margin) * scale, GridHeight(margin) * scale);
    var raw := Raster(glyphs, margin, scale);
    if FileOf(codec, glyphs, margin, scale).Ok? {
      ValidEncodedExactly(codec, width, height, raw);
      if GridHeight(margin) > 0 {
        if width >= 1 && height >= 1 {
          PositiveSize(GridWidth(|glyphs|, margin), GridHeight(margin), scale);
          RasterShows(glyphs, margin, scale, width, height);
        }
      } else if height >= 1 {
        NoRowsIsIncomplete(glyphs, margin, scale, width, height);
      }
    }
    if ValidSize(|glyphs|, margin, scale) {
      SizeIsPositive(|glyphs|, margin, scale);
      RasterShows(glyphs, margin, scale, width, height);
    }
  }

  /** At scale 0 a file is emitted for every text, and it is not valid. */
  lemma ScaleZeroIsNotValid(codec: Codec, glyphs: seq<Glyph>, margin: nat)
    requires Inflates(codec) && Packs(|codec.compress([])|)
    ensures FileOf(codec, glyphs, margin, 0) == Ok(Encode(codec, 0, 0, codec.compress([])))
    ensures !ValidFile(codec, Encode(codec, 0, 0, codec.compress([])))
  {
    MarginLands(glyphs, margin);
    NothingAtScaleZero(Cells(glyphs, margin, Columns(|glyphs|, margin), Rows(margin)), Columns(|glyphs|, margin));
    ValidEncodedExactly(codec, 0, 0, []);
  }

  // ---------- Legibility ----------

  /** A picture of two rows of glyphs of the same length: they leave the same ink. */
  lemma PictureIsLegible(picture: Picture, a: seq<Glyph>, b: seq<Glyph>, margin: int, scale: nat)
    requires Shows(picture, a, margin, scale) && Shows(picture, b, margin, scale) && |a| == |b| && scale > 0
    requires picture.width == GridWidth(|a|, margin) * scale && picture.height == GridHeight(margin) * scale
    ensures SameInk(a, b, margin)
  {
    forall x, y | 0 <= x < GridWidth(|a|, margin) && 0 <= y < GridHeight(margin)
      ensures Inked(a, margin, x, y) <==> Inked(b, margin, x, y)
    {
      Enlarged(x, scale, GridWidth(|a|, margin));
      Enlarged(y, scale, GridHeight(margin));
      var pixel := PixelAt(picture.raw, picture.width, x * scale, y * scale);
      assert pixel == Some((0, 0, 0)) <==> InkAt(a, margin, scale, x * scale, y * scale);
      assert pixel == Some((0, 0, 0)) <==> InkAt(b, margin, scale, x * scale, y * scale);
    }
  }

  lemma Unscale(u: int, v: int, scale: int)
    requires scale != 0 && u * scale == v * scale
    ensures u == v
  {
    assert (u - v) * scale == 0;
  }

  /** At a scale below 0 a file is emitted only for a grid without rows. */
  lemma NoRowsBelowScaleZero(margin: int, scale: int)
    requires scale < 0 && GridHeight(margin) * scale >= 0
    ensures GridHeight(margin) <= 0
  {
  }

  lemma FileShowsInk(codec: Codec, a: seq<Glyph>, b: seq<Glyph>, margin: int, scale: int)
    requires Inflates(codec) && scale != 0
    requires FileOf(codec, a, margin, scale).Ok? && FileOf(codec, b, margin, scale) == FileOf(codec, a, margin, scale)
    ensures |a| == |b| && SameInk(a, b, margin)
  {
    var height := GridHeight(margin) * scale;
    DecodeEncoded(codec, GridWidth(|a|, margin) * scale, height, Raster(a, margin, scale));
    DecodeEncoded(codec, GridWidth(|b|, margin) * scale, height, Raster(b, margin, scale));
    Unscale(GridWidth(|a|, margin), GridWidth(|b|, margin), scale);
    if scale < 0 {
      NoRowsBelowScaleZero(margin, scale);
    } else {
      PositiveHeight(margin, scale);
      RenderedFileShowsText(codec, a, margin, scale);
      RenderedFileShowsText(codec, b, margin, scale);
      PictureIsLegible(Decode(codec, FileOf(codec, a, margin, scale).value).value, a, b, margin, scale);
    }
  }

  lemma PositiveHeight(margin: int, scale: int)
    requires scale > 0 && GridHeight(margin) * scale >= 0
    ensures GridHeight(margin) > 0
  {
  }

  lemma SameInkSameRaster(a: seq<Glyph>, b: seq<Glyph>, margin: int, scale: int)
    requires |a| == |b| && SameInk(a, b, margin)
    ensures Raster(a, margin, scale) == Raster(b, margin, scale)
  {
    var (w, h) := (Columns(|a|, margin), Rows(margin));
    var (rows, rows') := (Cells(a, margin, w, h), Cells(b, margin, w, h));
    forall y | 0 <= y < h
      ensures rows[y] == rows'[y]
    {
      assert forall x :: 0 <= x < w ==> rows[y][x] == rows'[y][x];
    }
    assert rows == rows';
  }

  /**
   Two rows of glyphs give the same file exactly when they leave the same ink on a grid of the same
   size, or nothing is drawn at all; with a margin from 0 the same ink means the same glyphs.
   */
  lemma SameFileExactly(codec: Codec, a: seq<Glyph>, b: seq<Glyph>, margin: int, scale: int)
    requires Inflates(codec) && FileOf(codec, a, margin, scale).Ok? && FileOf(codec, b, margin, scale).Ok?
    ensures FileOf(codec, a, margin, scale) == FileOf(codec, b, margin, scale) <==>
      (|a| == |b| && SameInk(a, b, margin)) || scale == 0
    ensures margin >= 0 ==> (|a| == |b| && SameInk(a, b, margin) <==> a == b)
  {
    if margin >= 0 && |a| == |b| && SameInk(a, b, margin) {
      InkIsLegible(a, b, margin);
    }
    if scale == 0 {
      NothingAtScaleZero(Cells(a, margin, Columns(|a|, margin), Rows(margin)), Columns(|a|, margin));
      NothingAtScaleZero(Cells(b, margin, Columns(|b|, margin), Rows(margin)), Columns(|b|, margin));
    } else if FileOf(codec, a, margin, scale) == FileOf(codec, b, margin, scale) {
      FileShowsInk(codec, a, b, margin, scale);
    } else if |a| == |b| && SameInk(a, b, margin) {
      SameInkSameRaster(a, b, margin, scale);
      assert false;
    }
  }

  // ---------- Texts on a grid that is too small ----------

  const BLANK: Glyph := [".....", ".....", ".....", ".....", ".....", ".....", "....."]
  const DASH: Glyph := [".....", ".....", ".....", "#####", ".....", ".....", "....."]

  ghost predicate InFont(g: Glyph) {
    exists name: string :: Font(name) == Some(g)
  }

  ghost predicate Printable(glyphs: seq<Glyph>) {
    forall i :: 0 <= i < |glyphs| ==> InFont(glyphs[i])
  }

  /** All characters but " " and "-" have ink in their last row. */
  lemma InkInLastRow(g: Glyph)
    requires InFont(g)
    ensures g == BLANK || g == DASH || g[CHAR_H - 1][0] == '#' || g[CHAR_H - 1][1] == '#'
  {
    var name: string :| Font(name) == Some(g);
  }

  /** With a negative margin only blanks and dashes fit; a dash needs a row and a glyph behind it. */
  lemma WhatFits(glyphs: seq<Glyph>, margin: int, i: nat)
    requires margin < 0 && i < |glyphs| && InFont(glyphs[i]) && AllLand(glyphs, margin)
    ensures glyphs[i] == BLANK || (glyphs[i] == DASH && margin >= -3 && i < |glyphs| - 1)
  {
    var (w, h) := (Columns(|glyphs|, margin), Rows(margin));
    InkInLastRow(glyphs[i]);
    if glyphs[i] == DASH {
      assert CellLands(glyphs[i], GlyphX(margin, i), margin, w, h, 3, 4);
    } else if glyphs[i][CHAR_H - 1][0] == '#' {
      NegativeMarginCutsOff(glyphs, margin, i, 0);
    } else if glyphs[i][CHAR_H - 1][1] == '#' {
      NegativeMarginCutsOff(glyphs, margin, i, 1);
    }
  }

  /** The last column of a dash is its own, although the first dash may wrap around to the right end. */
  lemma OwnColumn(n: nat, margin: int, i: nat, j: nat, c: nat)
    requires -3 <= margin < 0 && i < n - 1 && j < n && c < CHAR_W
    requires Position(GlyphX(margin, j) + c, Columns(n, margin)) == Some(GlyphX(margin, i) + CHAR_W - 1)
    ensures i == j
  {
  }

  /** On a grid that is too small a dash still shows where it stands. */
  lemma InkShowsDash(glyphs: seq<Glyph>, margin: int, i: nat)
    requires -3 <= margin < 0 && i < |glyphs| - 1
    requires forall j :: 0 <= j < |glyphs| ==> glyphs[j] == BLANK || glyphs[j] == DASH
    ensures 0 <= GlyphX(margin, i) + CHAR_W - 1 < GridWidth(|glyphs|, margin) && 0 <= margin + 3 < GridHeight(margin)
    ensures Inked(glyphs, margin, GlyphX(margin, i) + CHAR_W - 1, margin + 3) <==> glyphs[i] == DASH
  {
    var (w, h) := (Columns(|glyphs|, margin), Rows(margin));
    var (x, y) := (GlyphX(margin, i) + CHAR_W - 1, margin + 3);
    if glyphs[i] == DASH {
      assert Hits(glyphs[i], GlyphX(margin, i), margin, w, h, 3, CHAR_W - 1, x, y);
    }
    if Inked(glyphs, margin, x, y) {
      var j: nat :| j < |glyphs| && OnGlyph(glyphs[j], GlyphX(margin, j), margin, w, h, x, y);
      var r: nat, c: nat :| r < CHAR_H && c < CHAR_W && Hits(glyphs[j], GlyphX(margin, j), margin, w, h, r, c, x, y);
      OwnColumn(|glyphs|, margin, i, j, c);
      assert glyphs[j] != BLANK;
    }
  }

  /** So with any margin, rows of characters of one length that fit and leave the same ink are the same. */
  lemma PrintedInkIsLegible(a: seq<Glyph>, b: seq<Glyph>, margin: int)
    requires Printable(a) && Printable(b) && AllLand(a, margin) && AllLand(b, margin)
    requires |a| == |b| && SameInk(a, b, margin)
    ensures a == b
  {
    if margin >= 0 {
      InkIsLegible(a, b, margin);
    } else {
      forall i: nat | i < |a|
        ensures a[i] == BLANK || (a[i] == DASH && margin >= -3 && i < |a| - 1)
        ensures b[i] == BLANK || (b[i] == DASH && margin >= -3 && i < |a| - 1)
      {
        WhatFits(a, margin, i);
        WhatFits(b, margin, i);
      }
      forall i: nat | i < |a|
        ensures a[i] == b[i]
      {
        if margin >= -3 && i < |a| - 1 {
          InkShowsDash(a, margin, i);
          InkShowsDash(b, margin, i);
        }
      }
    }
  }

  // ---------- Texts ----------

  lemma FontIsLegible(a: string, b: string)
    requires Font(a).Some? && Font(a) == Font(b)
    ensures a == b
  {
  }

  /** The texts are the same in upper case. */
  predicate SameNames(a: string, b: string, upper: char -> string) {
    |a| == |b| && forall i :: 0 <= i < |a| ==> upper(a[i]) == upper(b[i])
  }

  lemma SameGlyphsSameNames(a: string, b: string, upper: char -> string, ga: seq<Glyph>, gb: seq<Glyph>)
    requires SpellsOut(a, upper, ga) && SpellsOut(b, upper, gb)
    ensures ga == gb <==> SameNames(a, b, upper)
  {
    if ga == gb {
      forall i | 0 <= i < |a|
        ensures upper(a[i]) == upper(b[i])
      {
        FontIsLegible(upper(a[i]), upper(b[i]));
      }
    }
  }

  lemma SpelledIsPrintable(text: string, upper: char -> string, glyphs: seq<Glyph>)
    requires Glyphs(text, upper) == Ok(glyphs)
    ensures SpellsOut(text, upper, glyphs) && Printable(glyphs)
  {
    GlyphsOfText(text, upper);
    assert forall i :: 0 <= i < |glyphs| ==> Font(upper(text[i])) == Some(glyphs[i]);
  }

  /** For all margins, two texts give the same file exactly when they are the same in upper case or the scale is 0. */
  lemma FilesTellTextsApart(
    codec: Codec, a: string, b: string, upper: char -> string, margin: int, scale: int, ga: seq<Glyph>, gb: seq<Glyph>)
    requires Inflates(codec) && Glyphs(a, upper) == Ok(ga) && Glyphs(b, upper) == Ok(gb)
    requires FileOf(codec, ga, margin, scale).Ok? && FileOf(codec, gb, margin, scale).Ok?
    ensures FileOf(codec, ga, margin, scale) == FileOf(codec, gb, margin, scale) <==>
      SameNames(a, b, upper) || scale == 0
  {
    SpelledIsPrintable(a, upper, ga);
    SpelledIsPrintable(b, upper, gb);
    SameFileExactly(codec, ga, gb, margin, scale);
    SameGlyphsSameNames(a, b, upper, ga, gb);
    if |ga| == |gb| && SameInk(ga, gb, margin) {
      PrintedInkIsLegible(ga, gb, margin);
    }
  }
}
