/**
  The pure part of distance-map seeding: where the source sits inside the
  target grid, which source sample a target cell reads, how a sample becomes
  a 16.16 coverage value, and the map the seeding loop must leave behind.
 */
module BsdfSeed {
  import opened BsdfTypes

  // ---------------------------------------------------------------------
  // Row-major grids addressed by a flat index `row * width + col`
  // ---------------------------------------------------------------------

  /** Multiplying by a non-negative factor keeps order. */
  lemma MulMonotone(a: int, b: int, c: int)
    requires a <= b && 0 <= c
    ensures a * c <= b * c
  {
    assert b * c - a * c == (b - a) * c;
  }

  /** Quotient and remainder by a positive divisor are the only pair with `k == q * w + r` and `0 <= r < w`. */
  lemma DivModUnique(k: int, w: int, q: int, r: int)
    requires 0 < w && 0 <= r < w && k == q * w + r
    ensures k / w == q && k % w == r
  {
    var q', r' := k / w, k % w;
    assert (q - q') * w == r' - r;
    if q' < q {
      MulMonotone(1, q - q', w);
    } else if q < q' {
      assert (q' - q) * w == r - r';
      MulMonotone(1, q' - q, w);
    }
  }

  /** Cell `(col, row)` of a `width × height` grid has a flat index inside the grid, and the index decodes back to it. */
  lemma FlatIndexDecode(col: int, row: int, width: int, height: int)
    requires 0 <= col < width && 0 <= row < height
    ensures 0 <= row * width + col < width * height
    ensures (row * width + col) % width == col
    ensures (row * width + col) / width == row
  {
    MulMonotone(0, row, width);
    MulMonotone(row, height - 1, width);
    assert (height - 1) * width + width == width * height;
    DivModUnique(row * width + col, width, row, col);
  }

  /** Every flat index of a `width × height` grid is the index of a cell of the grid. */
  lemma FlatIndexCovers(k: int, width: int, height: int)
    requires 0 <= width && 0 <= k < width * height
    ensures 0 < width
    ensures 0 <= k % width < width && 0 <= k / width < height
    ensures (k / width) * width + k % width == k
  {
    if width == 0 {
      assert false;
    }
    if k / width >= height {
      MulMonotone(height, k / width, width);
      assert false;
    }
  }

  // ---------------------------------------------------------------------
  // Centring the source in the target
  // ---------------------------------------------------------------------

  /**
    Padding before the source on one axis: half the slack rounded down, so
    the leading padding is never more than the trailing one, and at most one
    cell less.
   */
  function CenterOffset(target: nat, source: nat): (d: nat)
    requires source <= target
    ensures d <= (target - source) - d <= d + 1
  {
    (target - source) / 2
  }

  /** The source, its target grid size, and a buffer large enough for the source. */
  predicate Fits(src: Bitmap, width: nat, rows: nat) {
    src.Valid() && src.width <= width && src.rows <= rows
  }

  /** Target cell `(ti, tj)` lies over the centred source. */
  predicate InWindow(src: Bitmap, width: nat, rows: nat, ti: int, tj: int)
    requires src.width <= width && src.rows <= rows
  {
    var si := ti - CenterOffset(width, src.width);
    var sj := tj - CenterOffset(rows, src.rows);
    0 <= si < src.width && 0 <= sj < src.rows
  }

  // ---------------------------------------------------------------------
  // Reading the source
  // ---------------------------------------------------------------------

  /** The source row read for window row `sj`; with `flipY` the rows are taken bottom-up. */
  function SourceRow(sj: int, sRows: int, flipY: bool): (r: int)
    requires 0 <= sj < sRows
    ensures 0 <= r < sRows
  {
    if flipY then sRows - sj - 1 else sj
  }

  /** The row map is its own inverse. */
  lemma SourceRowInvolutive(sj: int, sRows: int, flipY: bool)
    requires 0 <= sj < sRows
    ensures SourceRow(SourceRow(sj, sRows, flipY), sRows, flipY) == sj
  {
  }

  /** The row map is one-to-one (and so, on a finite range, a bijection). */
  lemma SourceRowInjective(a: int, b: int, sRows: int, flipY: bool)
    requires 0 <= a < sRows && 0 <= b < sRows
    requires SourceRow(a, sRows, flipY) == SourceRow(b, sRows, flipY)
    ensures a == b
  {
  }

  /** Index into the source buffer of window pixel `(si, sj)`, with `sWidth` as the row stride. */
  function SourceIndex(si: int, sj: int, sWidth: int, sRows: int, flipY: bool): (k: int)
    requires 0 <= si < sWidth && 0 <= sj < sRows
    ensures 0 <= k < sWidth * sRows
  {
    FlatIndexDecode(si, SourceRow(sj, sRows, flipY), sWidth, sRows);
    if flipY then (sRows - sj - 1) * sWidth + si else sj * sWidth + si
  }

  /** The source index decodes to column `si` and to the row `SourceRow` picks. */
  lemma SourceIndexDecode(si: int, sj: int, sWidth: int, sRows: int, flipY: bool)
    requires 0 <= si < sWidth && 0 <= sj < sRows
    ensures SourceIndex(si, sj, sWidth, sRows, flipY) % sWidth == si
    ensures SourceIndex(si, sj, sWidth, sRows, flipY) / sWidth == SourceRow(sj, sRows, flipY)
  {
    FlatIndexDecode(si, SourceRow(sj, sRows, flipY), sWidth, sRows);
  }

  /** No two window pixels read the same source sample. */
  lemma SourceIndexInjective(si1: int, sj1: int, si2: int, sj2: int, sWidth: int, sRows: int, flipY: bool)
    requires 0 <= si1 < sWidth && 0 <= sj1 < sRows
    requires 0 <= si2 < sWidth && 0 <= sj2 < sRows
    requires SourceIndex(si1, sj1, sWidth, sRows, flipY) == SourceIndex(si2, sj2, sWidth, sRows, flipY)
    ensures si1 == si2 && sj1 == sj2
  {
    SourceIndexDecode(si1, sj1, sWidth, sRows, flipY);
    SourceIndexDecode(si2, sj2, sWidth, sRows, flipY);
    SourceRowInjective(sj1, sj2, sRows, flipY);
  }

  /** Every source sample is read by some window pixel, namely the one named here. */
  lemma SourceIndexOnto(s: int, sWidth: int, sRows: int, flipY: bool)
    requires 0 <= sWidth && 0 <= s < sWidth * sRows
    ensures 0 < sWidth && 0 <= s % sWidth < sWidth && 0 <= s / sWidth < sRows
    ensures SourceIndex(s % sWidth, SourceRow(s / sWidth, sRows, flipY), sWidth, sRows, flipY) == s
  {
    FlatIndexCovers(s, sWidth, sRows);
    SourceRowInvolutive(s / sWidth, sRows, flipY);
  }

  // ---------------------------------------------------------------------
  // Sample to coverage
  // ---------------------------------------------------------------------

  /**
    An 8-bit coverage sample as 16.16 fixed point. The top sample 255 is
    promoted to 256 first, so a fully covered pixel is exactly 1.0; every
    other sample `v` is `v / 256`.
   */
  function Coverage(v: Byte): (c: int)
    ensures 0 <= c <= FIXED_ONE
    ensures c == FIXED_ONE <==> v == 255
    ensures v < 255 ==> c == v * 256
  {
    var p := if v == 255 then 256 else v;
    p * 256
  }

  /** Coverage keeps the order of samples, so distinct samples stay distinct. */
  lemma CoverageStrictlyMonotone(v: Byte, w: Byte)
    requires v < w
    ensures Coverage(v) < Coverage(w)
  {
  }

  // ---------------------------------------------------------------------
  // What seeding writes
  // ---------------------------------------------------------------------

  /**
    The `dist` seeding gives target cell `(ti, tj)`: the sentinel outside the
    centred source, the coverage of the sample it reads inside it.
   */
  function CellDist(src: Bitmap, width: nat, rows: nat, flipY: bool, ti: int, tj: int): (d: int)
    requires Fits(src, width, rows)
    ensures d == FT_INT_MAX <==> !InWindow(src, width, rows, ti, tj)
    ensures InWindow(src, width, rows, ti, tj) ==> 0 <= d <= FIXED_ONE
  {
    var si := ti - CenterOffset(width, src.width);
    var sj := tj - CenterOffset(rows, src.rows);
    if si < 0 || si >= src.width || sj < 0 || sj >= src.rows then
      FT_INT_MAX
    else
      Coverage(src.buffer[SourceIndex(si, sj, src.width, src.rows, flipY)])
  }

  /**
    The first `n` records of the distance map after seeding: record `k`
    keeps its `near` and gets the `dist` of the cell its flat index names.
    Built one record at a time, in the order the seeding loop writes them.
   */
  function SeededPrefix(cells: seq<ED>, src: Bitmap, width: nat, rows: nat, flipY: bool, n: nat): (r: seq<ED>)
    requires Fits(src, width, rows) && |cells| == width * rows && n <= |cells|
    ensures |r| == n
    ensures forall k :: 0 <= k < n ==> r[k].near == cells[k].near
  {
    if n == 0 then []
    else
      FlatIndexCovers(n - 1, width, rows);
      SeededPrefix(cells, src, width, rows, flipY, n - 1)
        + [cells[n - 1].(dist := CellDist(src, width, rows, flipY, (n - 1) % width, (n - 1) / width))]
  }

  /** The whole distance map after seeding: one record per cell, each keeping its `near`. */
  function SeededMap(cells: seq<ED>, src: Bitmap, width: nat, rows: nat, flipY: bool): (r: seq<ED>)
    requires Fits(src, width, rows) && |cells| == width * rows
    ensures |r| == |cells|
    ensures forall k :: 0 <= k < |r| ==> r[k].near == cells[k].near
  {
    SeededPrefix(cells, src, width, rows, flipY, |cells|)
  }

  /** Record `k` of a seeded prefix is record `k` of the input with the `dist` of its cell. */
  lemma {:induction false} SeededPrefixAt(cells: seq<ED>, src: Bitmap, width: nat, rows: nat, flipY: bool, n: nat, k: int)
    requires Fits(src, width, rows) && |cells| == width * rows && n <= |cells|
    requires 0 <= k < n
    ensures 0 < width
    ensures SeededPrefix(cells, src, width, rows, flipY, n)[k]
         == cells[k].(dist := CellDist(src, width, rows, flipY, k % width, k / width))
  {
    FlatIndexCovers(k, width, rows);
    if k < n - 1 {
      SeededPrefixAt(cells, src, width, rows, flipY, n - 1, k);
    }
  }

  /** Seeding writes cell `(ti, tj)` at flat index `tj * width + ti`, and only its `dist`. */
  lemma SeededMapAt(cells: seq<ED>, src: Bitmap, width: nat, rows: nat, flipY: bool, ti: int, tj: int)
    requires Fits(src, width, rows) && |cells| == width * rows
    requires 0 <= ti < width && 0 <= tj < rows
    ensures 0 <= tj * width + ti < |cells|
    ensures SeededMap(cells, src, width, rows, flipY)[tj * width + ti]
         == cells[tj * width + ti].(dist := CellDist(src, width, rows, flipY, ti, tj))
  {
    FlatIndexDecode(ti, tj, width, rows);
    SeededPrefixAt(cells, src, width, rows, flipY, |cells|, tj * width + ti);
  }

  /**
    In the seeded map, a cell holds `FT_INT_MAX` exactly when it is padding;
    every other cell holds a coverage between 0 and 1.0.
   */
  lemma SeededMapPaddingExactly(cells: seq<ED>, src: Bitmap, width: nat, rows: nat, flipY: bool, ti: int, tj: int)
    requires Fits(src, width, rows) && |cells| == width * rows
    requires 0 <= ti < width && 0 <= tj < rows
    ensures 0 <= tj * width + ti < |cells|
    ensures SeededMap(cells, src, width, rows, flipY)[tj * width + ti].dist == FT_INT_MAX
        <==> !InWindow(src, width, rows, ti, tj)
    ensures InWindow(src, width, rows, ti, tj)
        ==> 0 <= SeededMap(cells, src, width, rows, flipY)[tj * width + ti].dist <= FIXED_ONE
  {
    SeededMapAt(cells, src, width, rows, flipY, ti, tj);
  }

  /**
    Seeding does not depend on what the map held before except for `near`,
    so seeding a seeded map changes nothing.
   */
  lemma SeededMapIdempotent(cells: seq<ED>, src: Bitmap, width: nat, rows: nat, flipY: bool)
    requires Fits(src, width, rows) && |cells| == width * rows
    ensures SeededMap(SeededMap(cells, src, width, rows, flipY), src, width, rows, flipY)
         == SeededMap(cells, src, width, rows, flipY)
  {
    var once := SeededMap(cells, src, width, rows, flipY);
    var twice := SeededMap(once, src, width, rows, flipY);
    forall k | 0 <= k < |cells|
      ensures twice[k] == once[k]
    {
      SeededPrefixAt(cells, src, width, rows, flipY, |cells|, k);
      SeededPrefixAt(once, src, width, rows, flipY, |cells|, k);
    }
  }

  /**
    Source pixel `(si, sj)` lands on target cell `(si + x_diff, sj + y_diff)`:
    that cell is in the grid, over the window, and seeded with the coverage
    of the sample the pixel reads.
   */
  lemma CentredPlacement(src: Bitmap, width: nat, rows: nat, flipY: bool, si: int, sj: int)
    requires Fits(src, width, rows)
    requires 0 <= si < src.width && 0 <= sj < src.rows
    ensures 0 <= si + CenterOffset(width, src.width) < width
    ensures 0 <= sj + CenterOffset(rows, src.rows) < rows
    ensures InWindow(src, width, rows, si + CenterOffset(width, src.width), sj + CenterOffset(rows, src.rows))
    ensures CellDist(src, width, rows, flipY, si + CenterOffset(width, src.width), sj + CenterOffset(rows, src.rows))
         == Coverage(src.buffer[SourceIndex(si, sj, src.width, src.rows, flipY)])
  {
  }

  /** A window pixel that reads sample `s` is the pixel `SourceIndexOnto` names for `s`. */
  lemma SampleReaderIsNamed(s: int, si: int, sj: int, sWidth: int, sRows: int, flipY: bool)
    requires 0 <= si < sWidth && 0 <= sj < sRows
    requires SourceIndex(si, sj, sWidth, sRows, flipY) == s
    ensures 0 < sWidth && 0 <= s / sWidth < sRows
    ensures si == s % sWidth && sj == SourceRow(s / sWidth, sRows, flipY)
  {
    SourceIndexOnto(s, sWidth, sRows, flipY);
    SourceIndexInjective(si, sj, s % sWidth, SourceRow(s / sWidth, sRows, flipY), sWidth, sRows, flipY);
  }

  /**
    Each source sample is read by exactly one target cell: the cell over the
    window pixel `SourceIndexOnto` names, and no other in-window cell.
   */
  lemma SampleReadOnce(src: Bitmap, width: nat, rows: nat, flipY: bool, s: int, ti: int, tj: int)
    requires Fits(src, width, rows) && 0 <= s < src.width * src.rows
    requires 0 <= ti < width && 0 <= tj < rows && InWindow(src, width, rows, ti, tj)
    ensures 0 < src.width && 0 <= s / src.width < src.rows
    ensures SourceIndex(ti - CenterOffset(width, src.width), tj - CenterOffset(rows, src.rows), src.width, src.rows, flipY) == s
        <==> (ti == s % src.width + CenterOffset(width, src.width)
              && tj == SourceRow(s / src.width, src.rows, flipY) + CenterOffset(rows, src.rows))
  {
    var si := ti - CenterOffset(width, src.width);
    var sj := tj - CenterOffset(rows, src.rows);
    // the named pixel reads `s`
    SourceIndexOnto(s, src.width, src.rows, flipY);
    // and any pixel reading `s` is the named one
    if SourceIndex(si, sj, src.width, src.rows, flipY) == s {
      SampleReaderIsNamed(s, si, sj, src.width, src.rows, flipY);
    }
  }
}
