/** The drawing routines, each an in-place byte loop that refines an exact update of a pixel grid. */
module Framebuffer {
  import opened Bits
  import opened Layout
  import Colour

  /** Rows of pixel values, top to bottom. */
  type Grid = seq<seq<int>>

  ghost predicate Shaped(m: Mode, g: Grid) {
    |g| == m.vRes && forall v :: 0 <= v < |g| ==> |g[v]| == m.hRes
  }

  /**
   * The cells a row-by-row fill touches before it stops: the whole area when it is not too
   * wide, otherwise only its first row. Cells off the screen are never reached.
   */
  predicate Filled(m: Mode, x: nat, y: nat, w: nat, h: nat, u: nat, v: nat) {
    x <= u < x + w && y <= v < y + h && (x + w <= m.hRes || v == y)
  }

  predicate Fits(m: Mode, x: nat, y: nat, w: nat, h: nat) {
    w == 0 || h == 0 || (x + w <= m.hRes && y + h <= m.vRes)
  }

  /** A rectangle fits when all its cells are on the screen, an empty one anywhere. */
  lemma FitsMeans(m: Mode, x: nat, y: nat, w: nat, h: nat)
    ensures Fits(m, x, y, w, h) <==> forall u, v :: x <= u < x + w && y <= v < y + h ==> m.OnScreen(u, v)
  {
    if w > 0 && h > 0 && !Fits(m, x, y, w, h) {
      assert !m.OnScreen(x + w - 1, y + h - 1);
    }
  }

  /**
   * What a fill has painted: all its cells when they fit; the first row, clipped, when it is too
   * wide; and otherwise the rows on the screen.
   */
  lemma FilledMeans(m: Mode, x: nat, y: nat, w: nat, h: nat, u: nat, v: nat)
    requires m.OnScreen(u, v)
    ensures Fits(m, x, y, w, h) ==> (Filled(m, x, y, w, h, u, v) <==> x <= u < x + w && y <= v < y + h)
    ensures x + w > m.hRes && h > 0 ==> (Filled(m, x, y, w, h, u, v) <==> x <= u && v == y)
    ensures x + w <= m.hRes && y + h > m.vRes ==> (Filled(m, x, y, w, h, u, v) <==> x <= u < x + w && y <= v)
  {
  }

  /** The bytes of video memory show exactly the grid. */
  ghost predicate Depicts(bytes: seq<U8>, m: Mode, g: Grid) {
    && |bytes| == m.Size()
    && Shaped(m, g)
    && forall u, v {:trigger ReadPixel(bytes, m, u, v)} :: m.OnScreen(u, v) ==> ReadPixel(bytes, m, u, v) == g[v][u]
  }

  /** Writing the bytes of one pixel updates one cell of the grid. */
  lemma WriteUpdatesCell(before: seq<U8>, after: seq<U8>, m: Mode, g: Grid, x: nat, y: nat, color: nat)
    requires Depicts(before, m, g) && m.OnScreen(x, y) && PixelWritten(before, after, m, x, y, color)
    ensures Depicts(after, m, g[y := g[y][x := m.Stored(color)]])
  {
    var g' := g[y := g[y][x := m.Stored(color)]];
    forall u, v | m.OnScreen(u, v)
      ensures ReadPixel(after, m, u, v) == g'[v][u]
    {
      ReadAfterWrite(before, after, m, x, y, color, u, v);
      assert ReadPixel(before, m, u, v) == g[v][u];
    }
  }

  /** One call of the pixel routine. */
  datatype Plot = Plot(x: U16, y: U16, color: U32)

  /** The effect of one call on video memory: the lanes of the pixel, or nothing off the screen. */
  ghost predicate Plots(m: Mode, before: seq<U8>, p: Plot, after: seq<U8>) {
    if m.OnScreen(p.x, p.y) then PixelWritten(before, after, m, p.x, p.y, p.color) else after == before
  }

  /** The last colour drawn at a pixel, cut to its bytes, or what was there at first. */
  function LastDrawn(m: Mode, plots: seq<Plot>, u: nat, v: nat, initial: nat): nat {
    if plots == [] then initial
    else
      var p := plots[|plots| - 1];
      if (p.x, p.y) == (u, v) then m.Stored(p.color) else LastDrawn(m, plots[..|plots| - 1], u, v, initial)
  }

  /** `mems` is video memory before the first call and after each. */
  ghost predicate Replays(m: Mode, mems: seq<seq<U8>>, plots: seq<Plot>) {
    && |mems| == |plots| + 1 && |mems[0]| == m.Size()
    && (plots == [] ||
        var n := |plots| - 1;
        Replays(m, mems[..n + 1], plots[..n]) && Plots(m, mems[n], plots[n], mems[n + 1]))
  }

  /** After any sequence of pixel calls, decoding a pixel's bytes gives the last colour drawn there. */
  lemma {:induction false} LastWriteWins(m: Mode, mems: seq<seq<U8>>, plots: seq<Plot>, u: nat, v: nat)
    requires Replays(m, mems, plots) && m.OnScreen(u, v)
    ensures |mems[|plots|]| == m.Size()
    ensures ReadPixel(mems[|plots|], m, u, v) == LastDrawn(m, plots, u, v, ReadPixel(mems[0], m, u, v))
    decreases |plots|
  {
    if plots != [] {
      var n := |plots| - 1;
      LastWriteWins(m, mems[..n + 1], plots[..n], u, v);
      if m.OnScreen(plots[n].x, plots[n].y) {
        ReadAfterWrite(mems[n], mems[n + 1], m, plots[n].x, plots[n].y, plots[n].color, u, v);
      }
    }
  }

  /** Two memories that show the same grid hold the same bytes. */
  lemma GridDeterminesBytes(a: seq<U8>, b: seq<U8>, m: Mode, g: Grid)
    requires Depicts(a, m, g) && Depicts(b, m, g)
    ensures a == b
  {
    forall o | 0 <= o < |a|
      ensures a[o] == b[o]
    {
      OffsetLocate(m, o);
      var (x, y, lane) := Locate(m, o);
      PixelEnd(m, x, y);
      var start, end := Offset(m, x, y, 0), Offset(m, x, y, m.Bytes());
      assert ReadPixel(a, m, x, y) == g[y][x] == ReadPixel(b, m, x, y);
      DecodeInjective(a[start..end], b[start..end]);
      assert a[start..end][lane] == b[start..end][lane];
    }
  }

  /** The image pixel in column `c` of row `r`. */
  function Texel(sprite: seq<U8>, width: nat, height: nat, c: int, r: int): U8
    requires |sprite| == width * height
  {
    if 0 <= c < width && 0 <= r < height then
      RowMajorBound(c, r, width, height);
      sprite[r * width + c]
    else 0
  }

  /** The image is stored row by row. */
  lemma TexelOrder(sprite: seq<U8>, width: nat, height: nat, p: nat)
    requires |sprite| == width * height && p < |sprite|
    ensures width > 0 && Texel(sprite, width, height, p % width, p / width) == sprite[p]
  {
    RowOfPixel(p, width, height);
  }

  /** From column `k` on, `inks` are the stored values of the image pixels from index `p` on. */
  ghost predicate RowInks(m: Mode, inks: seq<int>, sprite: seq<U8>, k: nat, p: nat)
    decreases |inks| - k
  {
    k >= |inks| || (p < |sprite| && inks[k] == m.Ink(sprite[p]) && RowInks(m, inks, sprite, k + 1, p + 1))
  }

  /** From row `r` on, `pic` holds the stored values of the image rows from index `p` on. */
  ghost predicate ImageInks(m: Mode, pic: Grid, sprite: seq<U8>, width: nat, r: nat, p: nat)
    decreases |pic| - r
  {
    r >= |pic| || (|pic[r]| == width && RowInks(m, pic[r], sprite, 0, p) && ImageInks(m, pic, sprite, width, r + 1, p + width))
  }

  /** The rows of values the image should leave, as one sequence per row. */
  function ImagePicture(m: Mode, sprite: seq<U8>, width: nat, height: nat): (pic: Grid)
    requires |sprite| == width * height
    ensures |pic| == height && forall r :: 0 <= r < height ==> |pic[r]| == width
  {
    seq(height, r requires 0 <= r < height => seq(width, c requires 0 <= c < width => m.Ink(Texel(sprite, width, height, c, r))))
  }

  lemma {:induction false} RowIsInked(m: Mode, sprite: seq<U8>, width: nat, height: nat, r: nat, k: nat)
    requires |sprite| == width * height && r < height && k <= width
    ensures 0 <= r * width && RowInks(m, ImagePicture(m, sprite, width, height)[r], sprite, k, r * width + k)
    decreases width - k
  {
    RowInside(r, width, height);
    if k < width {
      RowIsInked(m, sprite, width, height, r, k + 1);
    }
  }

  lemma {:induction false} ImageIsInked(m: Mode, sprite: seq<U8>, width: nat, height: nat, r: nat)
    requires |sprite| == width * height && r <= height
    ensures 0 <= r * width && ImageInks(m, ImagePicture(m, sprite, width, height), sprite, width, r, r * width)
    decreases height - r
  {
    MulMonotone(0, r, width);
    if r < height {
      RowInside(r, width, height);
      RowIsInked(m, sprite, width, height, r, 0);
      ImageIsInked(m, sprite, width, height, r + 1);
    }
  }

  lemma RowInside(r: nat, width: nat, height: nat)
    requires r < height
    ensures (r + 1) * width == r * width + width <= width * height
  {
    MulMonotone(r + 1, height, width);
  }

  /** A black screen is a memory full of zeros. */
  lemma BlackBytes(bytes: seq<U8>, m: Mode, g: Grid)
    requires Depicts(bytes, m, g)
    requires forall u, v :: m.OnScreen(u, v) ==> g[v][u] == 0
    ensures bytes == seq(|bytes|, _ => 0)
  {
    var zeros: seq<U8> := seq(|bytes|, _ => 0);
    forall u, v | m.OnScreen(u, v)
      ensures ReadPixel(zeros, m, u, v) == g[v][u]
    {
      PixelEnd(m, u, v);
      DecodeZeros(zeros[Offset(m, u, v, 0)..Offset(m, u, v, m.Bytes())]);
    }
    GridDeterminesBytes(bytes, zeros, m, g);
  }

  /** Which of `n` tiles of the given size holds coordinate `k`. */
  function TileOf(k: nat, size: nat, n: U8): (t: U8)
    requires k < n * size
    ensures t < n && t * size <= k < t * size + size
  {
    QuotientBelow(k, size, n);
    k / size
  }

  /** Tiles do not overlap: the cells of tile `t` are exactly those `TileOf` sends to `t`. */
  lemma TileCells(t: U8, size: nat, n: U8)
    requires t < n
    ensures t * size + size <= n * size && (t + 1) * size == t * size + size
    ensures forall k :: 0 <= k < n * size ==> (TileOf(k, size, n) == t <==> t * size <= k < t * size + size)
  {
    RowInside(t, size, n);
    forall k | 0 <= k < n * size && t * size <= k < t * size + size
      ensures TileOf(k, size, n) == t
    {
      DivModUnique(k, size, t, k - t * size);
    }
  }

  /** The size of each of `n` tiles along an axis. */
  function TileSize(res: U16, n: U8): (size: U16)
    requires n >= 1
    ensures n * size <= res < n * (size + 1)
  {
    QuotientBounds(res, n);
    res / n
  }

  /** A tile starts on the screen, at the coordinate the 16-bit product gives. */
  lemma TilePlace(t: U8, n: U8, res: U16, start: nat)
    requires t < n && start == Product(t, TileSize(res, n))
    ensures ToU16(t * TileSize(res, n)) == start && start + TileSize(res, n) <= res
  {
    ProductIsTimes(t, TileSize(res, n));
    TileInside(t, n, res);
  }

  /** Every tile lies on the screen, so no coordinate is cut to 16 bits. */
  lemma TileInside(t: U8, n: U8, res: U16)
    requires t < n
    ensures var size := TileSize(res, n); 0 <= t * size && t * size + size <= n * size <= res
  {
    var size: nat := TileSize(res, n);
    RowInside(t, size, n);
    MulMonotone(0, t, size);
  }

  /** The part of the screen that is tiled. */
  predicate Tiled(m: Mode, n: U8, u: nat, v: nat)
    requires n >= 1
  {
    u < n * TileSize(m.hRes, n) && v < n * TileSize(m.vRes, n)
  }

  /** What the pattern shows at a cell: the colour of the tile the cell lies in. */
  function PatternInk(m: Mode, first: U32, step: U8, n: U8, u: nat, v: nat): int
    requires n >= 1 && Tiled(m, n, u, v)
  {
    m.Ink(Colour.PatternColour(m, first, step, n, TileOf(v, TileSize(m.vRes, n), n), TileOf(u, TileSize(m.hRes, n), n)))
  }

  /** `after` is the pattern on its tiles and `before` elsewhere. */
  ghost predicate Patterned(m: Mode, first: U32, step: U8, n: U8, before: Grid, after: Grid)
    requires n >= 1 && Shaped(m, before) && Shaped(m, after)
  {
    forall u, v :: m.OnScreen(u, v) ==>
      after[v][u] == if Tiled(m, n, u, v) then PatternInk(m, first, step, n, u, v) else before[v][u]
  }

  lemma PatternPicture(m: Mode, first: U32, step: U8, n: U8, before: Grid) returns (target: Grid)
    requires n >= 1 && Shaped(m, before)
    ensures Shaped(m, target) && Patterned(m, first, step, n, before, target)
  {
    target := seq(m.vRes, v requires 0 <= v < m.vRes => seq(m.hRes, u requires 0 <= u < m.hRes =>
      if Tiled(m, n, u, v) then PatternInk(m, first, step, n, u, v) else before[v][u]));
  }

  /** The first `top` rows and `right` columns of `after` show `target`, the rest is `before`. */
  ghost predicate TiledTo(m: Mode, before: Grid, target: Grid, after: Grid, right: nat, top: nat)
    requires Shaped(m, before) && Shaped(m, target) && Shaped(m, after)
  {
    forall u, v :: m.OnScreen(u, v) ==> after[v][u] == if u < right && v < top then target[v][u] else before[v][u]
  }

  /** Of the rows from `top` on, the first `left` columns of `after` show `target`, the rest is `before`. */
  ghost predicate RowTiledTo(m: Mode, before: Grid, target: Grid, after: Grid, left: nat, top: nat, height: nat)
    requires Shaped(m, before) && Shaped(m, target) && Shaped(m, after)
  {
    forall u, v :: m.OnScreen(u, v) ==>
      after[v][u] == if u < left && top <= v < top + height then target[v][u] else before[v][u]
  }

  /** One more row of tiles. */
  lemma TiledFurther(m: Mode, before: Grid, now: Grid, target: Grid, after: Grid, right: nat, top: nat, height: nat)
    requires Shaped(m, before) && Shaped(m, now) && Shaped(m, target) && Shaped(m, after)
    requires TiledTo(m, before, target, now, right, top)
    requires RowTiledTo(m, now, target, after, right, top, height)
    ensures TiledTo(m, before, target, after, right, top + height)
  {
  }

  /** One more tile of a row. */
  lemma OneTileFurther(m: Mode, first: U32, step: U8, n: U8, i: U8, j: U8, start: Grid, target: Grid,
      before: Grid, now: Grid, after: Grid, left: nat, top: nat)
    requires Shaped(m, start) && Shaped(m, target) && Shaped(m, before) && Shaped(m, now) && Shaped(m, after)
    requires i < n && j < n && left == Product(j, TileSize(m.hRes, n)) && top == Product(i, TileSize(m.vRes, n))
    requires Patterned(m, first, step, n, start, target)
    requires RowTiledTo(m, before, target, now, left, top, TileSize(m.vRes, n))
    requires var width, height := TileSize(m.hRes, n), TileSize(m.vRes, n);
             forall u, v :: m.OnScreen(u, v) ==>
               after[v][u] == if left <= u < left + width && top <= v < top + height
                              then m.Ink(Colour.PatternColour(m, first, step, n, i, j)) else now[v][u]
    ensures RowTiledTo(m, before, target, after, left + TileSize(m.hRes, n), top, TileSize(m.vRes, n))
  {
    var width, height := TileSize(m.hRes, n), TileSize(m.vRes, n);
    forall u, v | m.OnScreen(u, v) && left <= u < left + width && top <= v < top + height
      ensures after[v][u] == target[v][u]
    {
      TileShows(m, first, step, n, i, j, left, top, u, v);
    }
  }

  lemma TiledIsProduct(m: Mode, n: U8, u: nat, v: nat)
    requires n >= 1
    ensures Tiled(m, n, u, v) <==> u < Product(n, TileSize(m.hRes, n)) && v < Product(n, TileSize(m.vRes, n))
  {
    ProductIsTimes(n, TileSize(m.hRes, n));
    ProductIsTimes(n, TileSize(m.vRes, n));
  }

  /** All rows of tiles together are the pattern. */
  lemma PatternMeaning(m: Mode, first: U32, step: U8, n: U8, before: Grid, target: Grid, after: Grid)
    requires n >= 1 && Shaped(m, before) && Shaped(m, target) && Shaped(m, after)
    requires Patterned(m, first, step, n, before, target)
    requires TiledTo(m, before, target, after, Product(n, TileSize(m.hRes, n)), Product(n, TileSize(m.vRes, n)))
    ensures Patterned(m, first, step, n, before, after)
  {
    forall u, v | m.OnScreen(u, v)
      ensures after[v][u] == target[v][u]
    {
      TiledIsProduct(m, n, u, v);
    }
  }

  /** Inside tile (i, j) the pattern has that tile's colour. */
  lemma TileShows(m: Mode, first: U32, step: U8, n: U8, i: U8, j: U8, left: nat, top: nat, u: nat, v: nat)
    requires i < n && j < n && left == Product(j, TileSize(m.hRes, n)) && top == Product(i, TileSize(m.vRes, n))
    requires left <= u < left + TileSize(m.hRes, n) && top <= v < top + TileSize(m.vRes, n)
    ensures Tiled(m, n, u, v) && PatternInk(m, first, step, n, u, v) == m.Ink(Colour.PatternColour(m, first, step, n, i, j))
  {
    ProductIsTimes(j, TileSize(m.hRes, n));
    ProductIsTimes(i, TileSize(m.vRes, n));
    TileCells(j, TileSize(m.hRes, n), n);
    TileCells(i, TileSize(m.vRes, n), n);
  }

  /** Columns `x` to `x + width - 1` of rows `y` to `end - 1` of `after` are `ink`, the rest is `before`. */
  ghost predicate InkedTo(m: Mode, before: Grid, after: Grid, x: nat, y: nat, width: nat, end: nat, ink: int)
    requires Shaped(m, before) && Shaped(m, after)
  {
    forall u, v :: m.OnScreen(u, v) ==>
      after[v][u] == if x <= u < x + width && y <= v < end then ink else before[v][u]
  }

  /** The whole effect of a fill on the picture, whether it fits or not. */
  ghost predicate Inked(m: Mode, before: Grid, after: Grid, x: nat, y: nat, w: nat, h: nat, ink: int)
    requires Shaped(m, before) && Shaped(m, after)
  {
    forall u, v :: m.OnScreen(u, v) ==>
      after[v][u] == if Filled(m, x, y, w, h, u, v) then ink else before[v][u]
  }

  /** One more row of a rectangle; only for an empty one can `row`, the 16-bit `i`, differ from `i`. */
  lemma InkedFurther(m: Mode, before: Grid, now: Grid, after: Grid, x: nat, y: nat, width: nat, i: nat, row: nat, ink: int)
    requires Shaped(m, before) && Shaped(m, now) && Shaped(m, after) && (width > 0 ==> row == i)
    requires y <= i && InkedTo(m, before, now, x, y, width, i, ink)
    requires Inked(m, now, after, x, row, width, 1, ink) && Fits(m, x, row, width, 1)
    ensures InkedTo(m, before, after, x, y, width, i + 1, ink)
  {
  }

  /** A row that does not fit ends the rectangle early. */
  lemma InkedPart(m: Mode, before: Grid, now: Grid, after: Grid, x: nat, y: nat, width: nat, height: nat, i: nat, row: nat, ink: int)
    requires Shaped(m, before) && Shaped(m, now) && Shaped(m, after) && (width > 0 ==> row == i)
    requires y <= i < y + height && (i > y && width > 0 ==> x + width <= m.hRes && i <= m.vRes)
    requires InkedTo(m, before, now, x, y, width, i, ink)
    requires Inked(m, now, after, x, row, width, 1, ink) && !Fits(m, x, row, width, 1)
    ensures Inked(m, before, after, x, y, width, height, ink) && !Fits(m, x, y, width, height)
  {
  }

  lemma InkedAll(m: Mode, before: Grid, after: Grid, x: nat, y: nat, width: nat, height: nat, ink: int)
    requires Shaped(m, before) && Shaped(m, after) && InkedTo(m, before, after, x, y, width, y + height, ink)
    requires height > 0 && width > 0 ==> x + width <= m.hRes && y + height <= m.vRes
    ensures Inked(m, before, after, x, y, width, height, ink) && Fits(m, x, y, width, height)
  {
  }

  /** The pattern, tile by tile: every cell of tile (row i, column j) has the colour of that tile. */
  lemma PatternTile(m: Mode, first: U32, step: U8, n: U8, before: Grid, after: Grid, i: U8, j: U8, u: nat, v: nat)
    requires i < n && j < n && Shaped(m, before) && Shaped(m, after) && Patterned(m, first, step, n, before, after)
    requires j * (m.hRes / n) <= u < (j + 1) * (m.hRes / n) && i * (m.vRes / n) <= v < (i + 1) * (m.vRes / n)
    ensures m.OnScreen(u, v) && after[v][u] == m.Ink(Colour.PatternColour(m, first, step, n, i, j))
  {
    var width, height := TileSize(m.hRes, n), TileSize(m.vRes, n);
    TileSizeIs(m.hRes, n);
    TileSizeIs(m.vRes, n);
    ProductIsTimes(j, width);
    ProductIsTimes(i, height);
    TileCells(j, width, n);
    TileCells(i, height, n);
    TileInside(j, n, m.hRes);
    TileInside(i, n, m.vRes);
    TileShows(m, first, step, n, i, j, Product(j, width), Product(i, height), u, v);
  }

  lemma TileSizeIs(res: U16, n: U8)
    requires n >= 1
    ensures TileSize(res, n) == res / n
  {
  }

  /** The margin right of the last column and below the last row is as before. */
  lemma PatternMargin(m: Mode, first: U32, step: U8, n: U8, before: Grid, after: Grid, u: nat, v: nat)
    requires n >= 1 && Shaped(m, before) && Shaped(m, after) && Patterned(m, first, step, n, before, after)
    requires m.OnScreen(u, v) && (u >= n * (m.hRes / n) || v >= n * (m.vRes / n))
    ensures after[v][u] == before[v][u]
  {
    TileSizeIs(m.hRes, n);
    TileSizeIs(m.vRes, n);
  }

  /** The indexed pattern in numbers: the tiles count up from `first` row by row. */
  lemma IndexedTile(m: Mode, first: U32, step: U8, n: U8, before: Grid, after: Grid, i: U8, j: U8, u: nat, v: nat)
    requires i < n && j < n && Shaped(m, before) && Shaped(m, after) && Patterned(m, first, step, n, before, after)
    requires m.memModel == 4 && m.bits <= 32
    requires j * (m.hRes / n) <= u < (j + 1) * (m.hRes / n) && i * (m.vRes / n) <= v < (i + 1) * (m.vRes / n)
    ensures m.OnScreen(u, v) && after[v][u] == (first + (i * n + j) * step) % Pow2(m.bits)
  {
    PatternTile(m, first, step, n, before, after, i, j, u, v);
    Colour.PatternIndexed(m, first, step, n, i, j);
    var c := Colour.PatternColour(m, first, step, n, i, j);
    CutsAreRemainders(m, c);
    AlreadyReduced(first + (i * n + j) * step, Pow2(m.bits), c);
  }

  lemma AlreadyReduced(x: int, d: int, c: int)
    requires d > 0 && c == x % d
    ensures c % d == c
  {
    DivModUnique(c, d, 0, c);
  }

  class Video {
    const mode: Mode
    const mem: array<U8>
    ghost var grid: Grid

    ghost predicate Valid()
      reads this, mem
    {
      mode.Valid() && Depicts(mem[..], mode, grid)
    }

    /** Takes the memory the mapper returned, of exactly the size that was asked for. */
    constructor (m: Mode, ram: array<U8>)
      requires m.Valid() && ram.Length == m.VramSize()
      ensures Valid() && mode == m && mem == ram
    {
      SizeExact(m);
      mode, mem := m, ram;
      ghost var bytes := ram[..];
      grid := seq(m.vRes, v requires 0 <= v < m.vRes =>
                seq(m.hRes, u requires 0 <= u < m.hRes => ReadPixel(bytes, m, u, v)));
    }

    /** The byte loop of the pixel routine. */
    method StoreLanes(pos: nat, color: U32)
      requires pos + mode.Bytes() <= mem.Length
      modifies mem
      ensures mem[..pos] == old(mem[..pos])
      ensures mem[pos + mode.Bytes()..] == old(mem[pos + mode.Bytes()..])
      ensures HoldsLanes(mem[pos..pos + mode.Bytes()], color)
    {
      var i := 0;
      while i < mode.Bytes()
        invariant 0 <= i <= mode.Bytes()
        invariant mem[..pos] == old(mem[..pos])
        invariant mem[pos + mode.Bytes()..] == old(mem[pos + mode.Bytes()..])
        invariant forall k :: 0 <= k < i ==> mem[pos + k] == Lane(color, k)
      {
        mem[pos + i] := Lane(color, i);
        i := i + 1;
      }
    }

    method DrawPixel(x: U16, y: U16, color: U32) returns (ok: bool)
      requires Valid()
      modifies mem, `grid
      ensures Valid()
      ensures ok == mode.OnScreen(x, y)
      ensures grid == if ok then old(grid)[y := old(grid)[y][x := mode.Stored(color)]] else old(grid)
      ensures Plots(mode, old(mem[..]), Plot(x, y, color), mem[..])
    {
      if x >= mode.hRes || y >= mode.vRes {
        return false;
      }
      NoWrap(mode, x, y);
      PixelEnd(mode, x, y);
      ghost var before := mem[..];
      StoreLanes(Address32(mode, x, y), color);
      WriteUpdatesCell(before, mem[..], mode, grid, x, y, color);
      grid := grid[y := grid[y][x := mode.Stored(color)]];
      return true;
    }

    /** The pixel routine as the loops below use it, without its account of the bytes. */
    method SetPixel(x: U16, y: U16, color: U32) returns (ok: bool)
      requires Valid()
      modifies mem, `grid
      ensures Valid()
      ensures ok == mode.OnScreen(x, y)
      ensures grid == if ok then old(grid)[y := old(grid)[y][x := mode.Stored(color)]] else old(grid)
    {
      ok := DrawPixel(x, y, color);
    }

    method DrawHLine(x: U16, y: U16, len: U16, color: U32) returns (ok: bool)
      requires Valid()
      modifies mem, `grid
      ensures Valid()
      ensures ok == Fits(mode, x, y, len, 1)
      ensures Inked(mode, old(grid), grid, x, y, len, 1, mode.Stored(color))
    {
      var j := x;
      while j < x + len
        invariant x <= j <= x + len
        invariant Valid()
        invariant j > x ==> mode.OnScreen(j - 1, y)
        invariant forall u, v :: mode.OnScreen(u, v) ==>
                    grid[v][u] == if v == y && x <= u < j then mode.Stored(color) else old(grid)[v][u]
      {
        var drawn := SetPixel(ToU16(j), y, color);
        if !drawn {
          return false;
        }
        j := j + 1;
      }
      return true;
    }

    method DrawRectangle(x: U16, y: U16, width: U16, height: U16, color: U32) returns (ok: bool)
      requires Valid()
      modifies mem, `grid
      ensures Valid()
      ensures ok == Fits(mode, x, y, width, height)
      ensures Inked(mode, old(grid), grid, x, y, width, height, mode.Ink(color))
    {
      var ink := Mask(mode, color);
      var i := y;
      while i < y + height
        invariant y <= i <= y + height
        invariant Valid()
        invariant i > y && width > 0 ==> x + width <= mode.hRes && i <= mode.vRes
        invariant InkedTo(mode, old(grid), grid, x, y, width, i, ink)
      {
        ghost var before := grid;
        var row := ToU16(i);
        if width > 0 {
          ToU16Exact(i);
        }
        var drawn := DrawHLine(x, row, width, ink);
        if !drawn {
          InkedPart(mode, old(grid), before, grid, x, y, width, height, i, row, ink);
          return false;
        }
        InkedFurther(mode, old(grid), before, grid, x, y, width, i, row, ink);
        i := i + 1;
      }
      InkedAll(mode, old(grid), grid, x, y, width, height, ink);
      return true;
    }

    /** One pixel of an image, masked to the mode's depth. */
    method DrawTexel(x: U16, y: U16, texel: U8) returns (ok: bool)
      requires Valid()
      modifies mem, `grid
      ensures Valid()
      ensures ok == mode.OnScreen(x, y)
      ensures grid == if ok then old(grid)[y := old(grid)[y][x := mode.Ink(texel)]] else old(grid)
    {
      ok := SetPixel(x, y, Mask(mode, texel));
    }

    /** The inner loop of the image routine: one row of pixels, read from index `next` on. */
    method DrawImgRow(x: U16, y: U16, width: U16, sprite: seq<U8>, next: nat, ghost inks: seq<int>) returns (ok: bool)
      requires Valid() && |inks| == width && RowInks(mode, inks, sprite, 0, next)
      modifies mem, `grid
      ensures Valid()
      ensures ok == Fits(mode, x, y, width, 1)
      ensures forall u, v :: mode.OnScreen(u, v) ==>
                grid[v][u] == if v == y && x <= u < x + width then inks[u - x] else old(grid)[v][u]
    {
      var j, p: nat := x, next;
      while j < x + width
        invariant x <= j <= x + width
        invariant Valid()
        invariant RowInks(mode, inks, sprite, j - x, p)
        invariant j > x ==> mode.OnScreen(j - 1, y)
        invariant forall u, v :: mode.OnScreen(u, v) ==>
                    grid[v][u] == if v == y && x <= u < j then inks[u - x] else old(grid)[v][u]
      {
        var drawn := DrawTexel(ToU16(j), y, sprite[p]);
        if !drawn {
          return false;
        }
        p := p + 1;
        j := j + 1;
      }
      return true;
    }

    /** The loop of the image routine, against the rows of values it should leave. */
    method DrawImgRows(x: U16, y: U16, width: U16, height: U16, sprite: seq<U8>, ghost pic: Grid) returns (ok: bool)
      requires Valid() && |pic| == height && (forall r :: 0 <= r < height ==> |pic[r]| == width)
      requires ImageInks(mode, pic, sprite, width, 0, 0)
      modifies mem, `grid
      ensures Valid()
      ensures ok == Fits(mode, x, y, width, height)
      ensures forall u, v :: mode.OnScreen(u, v) ==>
                grid[v][u] == if Filled(mode, x, y, width, height, u, v) then pic[v - y][u - x] else old(grid)[v][u]
    {
      var i, next: nat := y, 0;
      while i < y + height
        invariant y <= i <= y + height
        invariant Valid()
        invariant ImageInks(mode, pic, sprite, width, i - y, next)
        invariant i > y && width > 0 ==> x + width <= mode.hRes && i <= mode.vRes
        invariant forall u, v :: mode.OnScreen(u, v) ==>
                    grid[v][u] == if x <= u < x + width && y <= v < i then pic[v - y][u - x] else old(grid)[v][u]
      {
        var drawn := DrawImgRow(x, ToU16(i), width, sprite, next, pic[i - y]);
        if !drawn {
          return false;
        }
        next := next + width;
        i := i + 1;
      }
      return true;
    }

    /** Draws the image whose pixels are `sprite`, row by row; a running index walks through it. */
    method DrawImg(x: U16, y: U16, width: U16, height: U16, sprite: seq<U8>) returns (ok: bool)
      requires Valid() && |sprite| == width * height
      modifies mem, `grid
      ensures Valid()
      ensures ok == Fits(mode, x, y, width, height)
      ensures forall u, v :: mode.OnScreen(u, v) ==>
                grid[v][u] == if Filled(mode, x, y, width, height, u, v) then mode.Ink(Texel(sprite, width, height, u - x, v - y))
                              else old(grid)[v][u]
    {
      ImageIsInked(mode, sprite, width, height, 0);
      ok := DrawImgRows(x, y, width, height, sprite, ImagePicture(mode, sprite, width, height));
    }

    /** The inner loop of the clearing routine: one column. */
    method ClearColumn(i: U16) returns (ok: bool)
      requires Valid() && i < mode.hRes
      modifies mem, `grid
      ensures Valid() && ok
      ensures forall u, v :: mode.OnScreen(u, v) ==> grid[v][u] == if u == i then 0 else old(grid)[v][u]
    {
      LowBitsOfZero(8 * mode.Bytes());
      var j: U16 := 0;
      while j < mode.vRes
        invariant j <= mode.vRes
        invariant Valid()
        invariant forall u, v :: mode.OnScreen(u, v) ==> grid[v][u] == if u == i && v < j then 0 else old(grid)[v][u]
      {
        var drawn := SetPixel(i, j, 0);
        if !drawn {
          return false;
        }
        j := ToU16(j + 1);
      }
      return true;
    }

    /** Blackens the screen, column by column, with 16-bit loop counters. */
    method Clear() returns (ok: bool)
      requires Valid()
      modifies mem, `grid
      ensures Valid() && ok
      ensures forall u, v :: mode.OnScreen(u, v) ==> grid[v][u] == 0
      ensures mem[..] == seq(mem.Length, _ => 0)
    {
      var i: U16 := 0;
      while i < mode.hRes
        invariant i <= mode.hRes
        invariant Valid()
        invariant forall u, v :: mode.OnScreen(u, v) && u < i ==> grid[v][u] == 0
      {
        var cleared := ClearColumn(i);
        if !cleared {
          return false;
        }
        i := ToU16(i + 1);
      }
      BlackBytes(mem[..], mode, grid);
      return true;
    }

    /** The sizes every tile of the pattern has. */
    predicate TileSizes(n: U8, width: U16, height: U16)
      requires n >= 1
    {
      width == TileSize(mode.hRes, n) && height == TileSize(mode.vRes, n)
    }

    /** The rectangle call of tile (i, j), whose result the pattern routine ignores. */
    method DrawTile(n: U8, first: U32, step: U8, i: U8, j: U8, width: U16, height: U16, ghost left: nat, ghost top: nat)
      requires Valid() && i < n && j < n && TileSizes(n, width, height) && left == Product(j, width) && top == Product(i, height)
      modifies mem, `grid
      ensures Valid()
      ensures forall u, v :: mode.OnScreen(u, v) ==>
                grid[v][u] == if left <= u < left + width && top <= v < top + height
                              then mode.Ink(Colour.PatternColour(mode, first, step, n, i, j)) else old(grid)[v][u]
    {
      TilePlace(j, n, mode.hRes, left);
      TilePlace(i, n, mode.vRes, top);
      var color := Colour.PatternColour(mode, first, step, n, i, j);
      var ok := DrawRectangle(ToU16(j * width), ToU16(i * height), width, height, color);
      assert ok;
    }

    /** The inner loop of the pattern routine: one row of tiles of the pattern `target`. */
    method DrawTileRow(n: U8, first: U32, step: U8, i: U8, width: U16, height: U16, ghost start: Grid, ghost target: Grid,
        ghost right: nat, ghost top: nat)
      requires Valid() && i < n && TileSizes(n, width, height) && right == Product(n, width) && top == Product(i, height)
      requires Shaped(mode, start) && Shaped(mode, target) && Patterned(mode, first, step, n, start, target)
      modifies mem, `grid
      ensures Valid()
      ensures RowTiledTo(mode, old(grid), target, grid, right, top, height)
    {
      var j := 0;
      ghost var left := 0;
      while j < n
        invariant 0 <= j <= n && left == Product(j, width)
        invariant Valid()
        invariant RowTiledTo(mode, old(grid), target, grid, left, top, height)
      {
        ghost var before := grid;
        DrawTile(n, first, step, i, j, width, height, left, top);
        OneTileFurther(mode, first, step, n, i, j, start, target, old(grid), before, grid, left, top);
        left := left + width;
        j := j + 1;
      }
    }

    /** The outer loop: the rows of tiles, from top to bottom. */
    method DrawTiles(n: U8, first: U32, step: U8, width: U16, height: U16, ghost target: Grid)
      requires Valid() && n >= 1 && TileSizes(n, width, height)
      requires Shaped(mode, target) && Patterned(mode, first, step, n, grid, target)
      modifies mem, `grid
      ensures Valid()
      ensures TiledTo(mode, old(grid), target, grid, Product(n, width), Product(n, height))
    {
      ghost var right := Product(n, width);
      var i := 0;
      ghost var top := 0;
      while i < n
        invariant 0 <= i <= n && top == Product(i, height)
        invariant Valid()
        invariant TiledTo(mode, old(grid), target, grid, right, top)
      {
        ghost var before := grid;
        DrawTileRow(n, first, step, i, width, height, old(grid), target, right, top);
        TiledFurther(mode, old(grid), before, target, grid, right, top, height);
        top := top + height;
        i := i + 1;
      }
    }

    /** Tiles the screen; the result of each rectangle call is ignored, and none can fail. */
    method DrawPattern(n: U8, first: U32, step: U8) returns (ok: bool)
      requires Valid() && n >= 1
      modifies mem, `grid
      ensures Valid() && ok
      ensures Patterned(mode, first, step, n, old(grid), grid)
    {
      var width, height := TileSize(mode.hRes, n), TileSize(mode.vRes, n);
      ghost var target := PatternPicture(mode, first, step, n, grid);
      DrawTiles(n, first, step, width, height, target);
      PatternMeaning(mode, first, step, n, old(grid), target, grid);
      return true;
    }
  }
}
