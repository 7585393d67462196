/** Padding and sliding-window geometry of `detection()`: how much zero
    padding the image gets, which windows are cut from the padded image and
    in which order, the `passes` bookkeeping grid, and the row/column counter
    that maps each prediction back to its window. */
module Tiling {
  import opened Wrappers
  import opened Arith

  /** Height and width of the sliding window (`hw`); fixed, not a parameter. */
  const Window: int := 512

  /** Window stride in (row, column) order. */
  datatype Stride = Stride(rows: int, cols: int)

  /** Zero padding added on each side of the image. */
  datatype Padding = Padding(left: int, top: int, right: int, bottom: int)

  /** The ways a stride keeps `detection()` from returning. `% 0` divides by
      zero; a negative stride makes the pad widths negative, which `np.pad`
      rejects; a window cut short at the padded image's edge makes the
      window stack ragged, or hands the network and then the stitching a
      block that is not 512 by 512, which raises or ends in `exit(1)`; and
      a stitching write that runs past the end of its sheet raises. */
  datatype ConfigError = ZeroStride | NegativeStride | ShortWindow | StitchOverrun

  /** Top-left corner of one window, in padded-image pixels. */
  datatype Tile = Tile(row: int, col: int)

  predicate ValidStride(s: Stride) {
    s.rows > 0 && s.cols > 0
  }

  // ---------------------------------------------------------------------
  // Padding

  /** Right (or bottom) padding for an axis of length `n`: one stride minus
      the remainder, plus one more stride unless that is a whole number of
      windows. */
  function TrailingPad(n: nat, s: int): (p: int)
    requires s > 0
    ensures (n + s + p) % s == 0
    ensures 1 <= p <= 2 * s
    ensures s < Window ==> s + 1 <= p
  {
    var p0 := s - n % s;
    var q := n / s;
    DivMod(n, s);
    if p0 % Window > 0 then
      MulSucc(q, s); MulSucc(q + 1, s); MulSucc(q + 2, s);
      DivModUnique(n + s + p0 + s, s, q + 3, 0);
      p0 + s
    else
      MulSucc(q, s); MulSucc(q + 1, s);
      DivModUnique(n + s + p0, s, q + 2, 0);
      p0
  }

  /** The padding `detection()` computes, or the error it raises. */
  function Pad(h: nat, w: nat, s: Stride): (r: Result<Padding, ConfigError>)
    ensures r.Success? <==> ValidStride(s)
    ensures r.Failure? ==> (r.error == ZeroStride <==> s.rows == 0 || s.cols == 0)
    ensures r.Success? ==>
      && r.value.left == s.cols && r.value.top == s.rows
      && (w + r.value.left + r.value.right) % s.cols == 0
      && (h + r.value.top + r.value.bottom) % s.rows == 0
      && (s.cols < Window ==> s.cols + 1 <= r.value.right <= 2 * s.cols)
      && (s.rows < Window ==> s.rows + 1 <= r.value.bottom <= 2 * s.rows)
  {
    if s.rows == 0 || s.cols == 0 then Failure(ZeroStride)
    else if s.rows < 0 || s.cols < 0 then Failure(NegativeStride)
    else Success(Padding(s.cols, s.rows, TrailingPad(w, s.cols), TrailingPad(h, s.rows)))
  }

  function PaddedHeight(h: nat, s: Stride): nat
    requires ValidStride(s)
  {
    h + s.rows + TrailingPad(h, s.rows)
  }

  function PaddedWidth(w: nat, s: Stride): nat
    requires ValidStride(s)
  {
    w + s.cols + TrailingPad(w, s.cols)
  }

  /** `n_row`: windows per column of the grid. The padded height is exactly
      one stride more than `n_row` strides. */
  function RowCount(h: nat, s: Stride): (n: nat)
    requires ValidStride(s)
    ensures n >= 1
    ensures PaddedHeight(h, s) == (n + 1) * s.rows
  {
    AxisCount(PaddedHeight(h, s), s.rows)
  }

  /** `n_col`: windows per row of the grid. */
  function ColCount(w: nat, s: Stride): (n: nat)
    requires ValidStride(s)
    ensures n >= 1
    ensures PaddedWidth(w, s) == (n + 1) * s.cols
  {
    AxisCount(PaddedWidth(w, s), s.cols)
  }

  /** `int(padded / stride) - 1` for a padded length that is a multiple of
      the stride and longer than one stride. */
  function AxisCount(padded: nat, s: int): (n: nat)
    requires s > 0 && padded > s && padded % s == 0
    ensures n >= 1 && padded == (n + 1) * s
  {
    var q := padded / s;
    DivMod(padded, s);
    assert q >= 2 by {
      if q <= 1 {
        MulMono(q, 1, s);
      }
    }
    MulSucc(q - 1, s);
    q - 1
  }

  // ---------------------------------------------------------------------
  // Window enumeration

  /** Python's `range(start, stop, step)` for a positive step. */
  function Range(start: int, stop: int, step: int): seq<int>
    requires step > 0
    decreases stop - start
  {
    if start >= stop then [] else [start] + Range(start + step, stop, step)
  }

  /** `range(a * step, m * step, step)` has `m - a` elements. */
  lemma {:induction false} RangeLen(a: int, m: int, step: int)
    requires step > 0 && a <= m
    ensures |Range(a * step, m * step, step)| == m - a
    decreases m - a
  {
    if a < m {
      MulStrict(a, m, step);
      MulSucc(a, step);
      RangeLen(a + 1, m, step);
    }
  }

  /** The `k`-th element of `range(a * step, m * step, step)` is `(a + k) * step`. */
  lemma {:induction false} RangeAt(a: int, m: int, step: int, k: nat)
    requires step > 0 && a <= m && k < m - a
    ensures |Range(a * step, m * step, step)| == m - a
    ensures Range(a * step, m * step, step)[k] == (a + k) * step
    decreases k
  {
    RangeLen(a, m, step);
    MulStrict(a, m, step);
    MulSucc(a, step);
    if k > 0 {
      RangeAt(a + 1, m, step, k - 1);
    }
  }

  /** The inner loop: one window per column start, all at row `r`. */
  function RowOfTiles(r: int, cols: seq<int>): (t: seq<Tile>)
    ensures |t| == |cols|
    ensures forall k :: 0 <= k < |cols| ==> t[k] == Tile(r, cols[k])
  {
    if cols == [] then [] else [Tile(r, cols[0])] + RowOfTiles(r, cols[1..])
  }

  /** The nested loop: row starts outside, column starts inside. */
  function Nest(rows: seq<int>, cols: seq<int>): seq<Tile> {
    if rows == [] then [] else RowOfTiles(rows[0], cols) + Nest(rows[1..], cols)
  }

  lemma {:induction false} NestLen(rows: seq<int>, cols: seq<int>)
    ensures |Nest(rows, cols)| == |rows| * |cols|
  {
    if rows != [] {
      NestLen(rows[1..], cols);
      MulSucc(|rows| - 1, |cols|);
    }
  }

  /** Grid cell (a, b) of the nested loop is emitted at position `a * |cols| + b`. */
  lemma NestAt(rows: seq<int>, cols: seq<int>, a: nat, b: nat)
    requires a < |rows| && b < |cols|
    ensures a * |cols| + b < |Nest(rows, cols)|
    ensures Nest(rows, cols)[a * |cols| + b] == Tile(rows[a], cols[b])
  {
    NestAtStart(rows, cols, a, b);
    RowStartIsProduct(a, |cols|);
  }

  /** Where grid row `a` starts in the row-major order, counted row by row. */
  function RowStart(a: nat, c: nat): (k: nat) {
    if a == 0 then 0 else c + RowStart(a - 1, c)
  }

  lemma {:induction false} RowStartIsProduct(a: nat, c: nat)
    ensures RowStart(a, c) == a * c
  {
    if a > 0 {
      RowStartIsProduct(a - 1, c);
      MulSucc(a - 1, c);
    }
  }

  lemma {:induction false} NestAtStart(rows: seq<int>, cols: seq<int>, a: nat, b: nat)
    requires a < |rows| && b < |cols|
    ensures RowStart(a, |cols|) + b < |Nest(rows, cols)|
    ensures Nest(rows, cols)[RowStart(a, |cols|) + b] == Tile(rows[a], cols[b])
  {
    var c := |cols|;
    var k := RowStart(a, c) + b;
    var head := RowOfTiles(rows[0], cols);
    var tail := Nest(rows[1..], cols);
    assert Nest(rows, cols) == head + tail;
    if a == 0 {
      RowAt(head, tail, b);
    } else {
      NestAtStart(rows[1..], cols, a - 1, b);
      var k' := RowStart(a - 1, c) + b;
      assert k == |head| + k';
      TailAt(head, tail, k');
      assert rows[1..][a - 1] == rows[a];
    }
  }

  /** Indexing the first part of a concatenation. */
  lemma RowAt(head: seq<Tile>, tail: seq<Tile>, k: nat)
    requires k < |head|
    ensures k < |head + tail| && (head + tail)[k] == head[k]
  {
  }

  /** Indexing the second part of a concatenation. */
  lemma TailAt(head: seq<Tile>, tail: seq<Tile>, k: nat)
    requires k < |tail|
    ensures |head| + k < |head + tail| && (head + tail)[|head| + k] == tail[k]
  {
  }

  /** The windows `detection()` cuts, in the order it appends them to `X`. */
  function Tiles(h: nat, w: nat, s: Stride): seq<Tile>
    requires ValidStride(s)
  {
    Nest(Range(0, PaddedHeight(h, s) - s.rows, s.rows),
         Range(0, PaddedWidth(w, s) - s.cols, s.cols))
  }

  lemma Stops(h: nat, w: nat, s: Stride)
    requires ValidStride(s)
    ensures PaddedHeight(h, s) - s.rows == RowCount(h, s) * s.rows
    ensures PaddedWidth(w, s) - s.cols == ColCount(w, s) * s.cols
    ensures 0 * s.rows == 0 && 0 * s.cols == 0
  {
    MulSucc(RowCount(h, s), s.rows);
    MulSucc(ColCount(w, s), s.cols);
  }

  /** The loop emits exactly `n_row * n_col` windows. */
  lemma TileCount(h: nat, w: nat, s: Stride)
    requires ValidStride(s)
    ensures |Tiles(h, w, s)| == RowCount(h, s) * ColCount(w, s)
  {
    var nr, nc := RowCount(h, s), ColCount(w, s);
    Stops(h, w, s);
    RangeLen(0, nr, s.rows);
    RangeLen(0, nc, s.cols);
    NestLen(Range(0, nr * s.rows, s.rows), Range(0, nc * s.cols, s.cols));
  }

  /** Grid cell (a, b) is window number `a * n_col + b`, cut at `(a * stride.rows, b * stride.cols)`. */
  lemma TileAt(h: nat, w: nat, s: Stride, a: nat, b: nat)
    requires ValidStride(s) && a < RowCount(h, s) && b < ColCount(w, s)
    ensures a * ColCount(w, s) + b < |Tiles(h, w, s)|
    ensures Tiles(h, w, s)[a * ColCount(w, s) + b] == Tile(a * s.rows, b * s.cols)
  {
    var nr, nc := RowCount(h, s), ColCount(w, s);
    Stops(h, w, s);
    var rows, cols := Range(0, nr * s.rows, s.rows), Range(0, nc * s.cols, s.cols);
    assert Tiles(h, w, s) == Nest(rows, cols);
    RangeAt(0, nr, s.rows, a);
    RangeAt(0, nc, s.cols, b);
    assert |cols| == nc && rows[a] == a * s.rows && cols[b] == b * s.cols;
    NestAt(rows, cols, a, b);
  }

  /** Row-major order: window `k` starts at row `(k div n_col) * stride.rows`
      and column `(k mod n_col) * stride.cols`. */
  lemma TileAtIndex(h: nat, w: nat, s: Stride, k: nat)
    requires ValidStride(s) && k < |Tiles(h, w, s)|
    ensures k / ColCount(w, s) < RowCount(h, s)
    ensures Tiles(h, w, s)[k] == Tile((k / ColCount(w, s)) * s.rows, (k % ColCount(w, s)) * s.cols)
  {
    var nr, nc := RowCount(h, s), ColCount(w, s);
    TileCount(h, w, s);
    GridIndex(k, nr, nc);
    TileAt(h, w, s, k / nc, k % nc);
  }

  predicate Covers(t: Tile, y: int, x: int) {
    t.row <= y < t.row + Window && t.col <= x < t.col + Window
  }

  /** The grid row (or column) whose window covers padded coordinate `y`
      when the stride is at most half a window. */
  lemma AxisCover(y: int, n: nat, st: int) returns (a: nat)
    requires st > 0 && 2 * st <= Window && n >= 1 && 0 <= y < (n + 1) * st
    ensures a < n && a * st <= y < a * st + Window
  {
    DivMod(y, st);
    var q := y / st;
    if q < n {
      a := q;
    } else {
      a := n - 1;
      AxisLast(y, n, st, q);
    }
  }

  /** Past the last grid row, the last window still reaches `y`. */
  lemma AxisLast(y: int, n: nat, st: int, q: int)
    requires st > 0 && 2 * st <= Window && n >= 1 && y < (n + 1) * st
    requires n <= q && q * st <= y
    ensures (n - 1) * st <= y < (n - 1) * st + Window
  {
    MulSucc(n - 1, st);
    MulSucc(n, st);
    MulMono(n, q, st);
  }

  /** With a stride of at most half a window (the default is exactly half),
      the windows leave no padded pixel uncovered. */
  lemma Coverage(h: nat, w: nat, s: Stride, y: int, x: int)
    requires ValidStride(s) && 2 * s.rows <= Window && 2 * s.cols <= Window
    requires 0 <= y < PaddedHeight(h, s) && 0 <= x < PaddedWidth(w, s)
    ensures exists k :: 0 <= k < |Tiles(h, w, s)| && Covers(Tiles(h, w, s)[k], y, x)
  {
    var nr, nc := RowCount(h, s), ColCount(w, s);
    var a := AxisCover(y, nr, s.rows);
    var b := AxisCover(x, nc, s.cols);
    var k := a * nc + b;
    var ts := Tiles(h, w, s);
    assert 0 <= k < |ts| && ts[k] == Tile(a * s.rows, b * s.cols) by {
      MulNonNeg(a, nc);
      TileAt(h, w, s, a, b);
    }
    assert Covers(ts[k], y, x);
  }

  /** Every window is a full 512 by 512 block: the stride is at least half a
      window on both axes. */
  predicate FullWindows(s: Stride) {
    Window <= 2 * s.rows && Window <= 2 * s.cols
  }

  /** Below half a window on some axis, the last window, cut at `n_row - 1`
      and `n_col - 1` strides, runs past the padded image, so the slice
      `image_padded[r:r + 512, c:c + 512]` returns a shorter block. */
  lemma LastWindowShort(h: nat, w: nat, s: Stride)
    requires ValidStride(s) && !FullWindows(s)
    ensures |Tiles(h, w, s)| >= 1
    ensures var t := Tiles(h, w, s)[|Tiles(h, w, s)| - 1];
      t.row + Window > PaddedHeight(h, s) || t.col + Window > PaddedWidth(w, s)
  {
    var nr, nc := RowCount(h, s), ColCount(w, s);
    TileCount(h, w, s);
    TileAt(h, w, s, nr - 1, nc - 1);
    MulSucc(nr - 1, nc);
    MulNonNeg(nr - 1, nc);
    MulSucc(nr - 1, s.rows); MulSucc(nr, s.rows);
    MulSucc(nc - 1, s.cols); MulSucc(nc, s.cols);
  }

  /** With a stride of at least half a window, every window lies wholly
      inside the padded image, so none is truncated by the slice. */
  lemma TilesInside(h: nat, w: nat, s: Stride, k: nat)
    requires ValidStride(s) && Window <= 2 * s.rows && Window <= 2 * s.cols
    requires k < |Tiles(h, w, s)|
    ensures 0 <= Tiles(h, w, s)[k].row && Tiles(h, w, s)[k].row + Window <= PaddedHeight(h, s)
    ensures 0 <= Tiles(h, w, s)[k].col && Tiles(h, w, s)[k].col + Window <= PaddedWidth(w, s)
  {
    var nr, nc := RowCount(h, s), ColCount(w, s);
    TileAtIndex(h, w, s, k);
    var a, b := k / nc, k % nc;
    DivMod(k, nc);
    MulNonNeg(a, s.rows);
    MulNonNeg(b, s.cols);
    MulMono(a + 1, nr, s.rows);
    MulMono(b + 1, nc, s.cols);
    MulSucc(a, s.rows); MulSucc(a + 1, s.rows); MulSucc(nr, s.rows);
    MulSucc(b, s.cols); MulSucc(b + 1, s.cols); MulSucc(nc, s.cols);
  }

  // ---------------------------------------------------------------------
  // The `passes` grid

  /** `passes[a:a+2, b:b+2] += 1`; the slice is clamped to the grid. */
  function Bump(g: seq<seq<nat>>, a: int, b: int): (r: seq<seq<nat>>)
    ensures |r| == |g|
    ensures forall i :: 0 <= i < |g| ==> |r[i]| == |g[i]|
  {
    seq(|g|, i requires 0 <= i < |g| =>
      seq(|g[i]|, j requires 0 <= j < |g[i]| =>
        g[i][j] + (if a <= i < a + 2 && b <= j < b + 2 then 1 else 0)))
  }

  /** Applies the window loop's bumps, with window corners in stride units. */
  function BumpAll(g: seq<seq<nat>>, ts: seq<Tile>, s: Stride): (r: seq<seq<nat>>)
    requires ValidStride(s)
    decreases |ts|
    ensures |r| == |g|
    ensures forall i :: 0 <= i < |g| ==> |r[i]| == |g[i]|
  {
    if ts == [] then g
    else BumpAll(Bump(g, ts[0].row / s.rows, ts[0].col / s.cols), ts[1..], s)
  }

  function Zeros(rows: nat, cols: nat): (g: seq<seq<nat>>)
    ensures |g| == rows
    ensures forall i :: 0 <= i < rows ==> |g[i]| == cols
  {
    seq(rows, i => seq(cols, j => 0))
  }

  /** The `passes` grid after the window loop. */
  function Passes(h: nat, w: nat, s: Stride): seq<seq<nat>>
    requires ValidStride(s)
  {
    BumpAll(Zeros(RowCount(h, s) + 1, ColCount(w, s) + 1), Tiles(h, w, s), s)
  }

  /** Number of windows in `ts` whose 2x2 block of stride cells holds cell (i, j). */
  function CoverCount(ts: seq<Tile>, s: Stride, i: int, j: int): nat
    requires ValidStride(s)
  {
    if ts == [] then 0
    else
      (if ts[0].row / s.rows <= i < ts[0].row / s.rows + 2
          && ts[0].col / s.cols <= j < ts[0].col / s.cols + 2 then 1 else 0)
      + CoverCount(ts[1..], s, i, j)
  }

  lemma {:induction false} BumpAllCell(g: seq<seq<nat>>, ts: seq<Tile>, s: Stride, i: int, j: int)
    requires ValidStride(s) && 0 <= i < |g| && 0 <= j < |g[i]|
    ensures BumpAll(g, ts, s)[i][j] == g[i][j] + CoverCount(ts, s, i, j)
    decreases |ts|
  {
    if ts != [] {
      BumpAllCell(Bump(g, ts[0].row / s.rows, ts[0].col / s.cols), ts[1..], s, i, j);
    }
  }

  lemma {:induction false} CoverCountAppend(a: seq<Tile>, b: seq<Tile>, s: Stride, i: int, j: int)
    requires ValidStride(s)
    ensures CoverCount(a + b, s, i, j) == CoverCount(a, s, i, j) + CoverCount(b, s, i, j)
  {
    if a == [] {
      assert a + b == b;
    } else {
      assert (a + b)[0] == a[0];
      assert (a + b)[1..] == a[1..] + b;
      CoverCountAppend(a[1..], b, s, i, j);
    }
  }

  /** How many of the consecutive stride cells `lo, lo+1, ..., hi-1` have a
      2-cell block containing `i`. */
  function Hits(lo: int, hi: int, i: int): nat
    decreases hi - lo
  {
    if lo >= hi then 0 else (if lo <= i < lo + 2 then 1 else 0) + Hits(lo + 1, hi, i)
  }

  lemma {:induction false} HitsClosedForm(lo: int, hi: int, i: int)
    requires lo <= hi && lo <= i
    ensures Hits(lo, hi, i) == (if lo <= i - 1 < hi then 1 else 0) + (if i < hi then 1 else 0)
    decreases hi - lo
  {
    if lo < hi {
      if lo + 1 <= i {
        HitsClosedForm(lo + 1, hi, i);
      } else {
        assert i == lo;
        HitsOutside(lo + 1, hi, i);
      }
    }
  }

  lemma {:induction false} HitsOutside(lo: int, hi: int, i: int)
    requires i < lo
    ensures Hits(lo, hi, i) == 0
    decreases hi - lo
  {
    if lo < hi {
      HitsOutside(lo + 1, hi, i);
    }
  }

  lemma {:induction false} CoverCountRow(r: int, a: nat, m: nat, s: Stride, i: int, j: int)
    requires ValidStride(s) && a <= m
    ensures CoverCount(RowOfTiles(r, Range(a * s.cols, m * s.cols, s.cols)), s, i, j)
      == (if r / s.rows <= i < r / s.rows + 2 then Hits(a, m, j) else 0)
    decreases m - a
  {
    var cols := Range(a * s.cols, m * s.cols, s.cols);
    if a < m {
      MulStrict(a, m, s.cols);
      MulSucc(a, s.cols);
      MulDiv(a, s.cols);
      assert cols == [a * s.cols] + Range((a + 1) * s.cols, m * s.cols, s.cols);
      var t := RowOfTiles(r, cols);
      assert t[0] == Tile(r, a * s.cols);
      assert t[1..] == RowOfTiles(r, cols[1..]);
      CoverCountRow(r, a + 1, m, s, i, j);
    } else {
      assert cols == [];
    }
  }

  lemma {:induction false} CoverCountNest(a: nat, m: nat, nc: nat, s: Stride, i: int, j: int)
    requires ValidStride(s) && a <= m
    ensures CoverCount(Nest(Range(a * s.rows, m * s.rows, s.rows), Range(0, nc * s.cols, s.cols)), s, i, j)
      == Hits(a, m, i) * Hits(0, nc, j)
    decreases m - a
  {
    var rows := Range(a * s.rows, m * s.rows, s.rows);
    var cols := Range(0, nc * s.cols, s.cols);
    if a < m {
      var rest := Range((a + 1) * s.rows, m * s.rows, s.rows);
      var here := RowOfTiles(a * s.rows, cols);
      var hr, hc := Hits(a + 1, m, i), Hits(0, nc, j);
      NestHead(a, m, s, cols);
      CoverCountAppend(here, Nest(rest, cols), s, i, j);
      RowHits(a, nc, s, i, j);
      CoverCountNest(a + 1, m, nc, s, i, j);
      if a <= i < a + 2 {
        Distrib(hr, hc);
      }
    } else {
      assert rows == [];
    }
  }

  lemma Distrib(x: int, y: int)
    ensures (1 + x) * y == y + x * y
  {
  }

  /** The outer loop's first row start, split off. */
  lemma NestHead(a: nat, m: nat, s: Stride, cols: seq<int>)
    requires ValidStride(s) && a < m
    ensures Nest(Range(a * s.rows, m * s.rows, s.rows), cols)
      == RowOfTiles(a * s.rows, cols) + Nest(Range((a + 1) * s.rows, m * s.rows, s.rows), cols)
  {
    var rows := Range(a * s.rows, m * s.rows, s.rows);
    assert rows == [a * s.rows] + Range((a + 1) * s.rows, m * s.rows, s.rows) by {
      MulStrict(a, m, s.rows);
      MulSucc(a, s.rows);
    }
  }

  /** One row of windows, at stride row `a`, reaches cell (i, j) as often as
      its columns do, provided the row does. */
  lemma RowHits(a: nat, nc: nat, s: Stride, i: int, j: int)
    requires ValidStride(s)
    ensures CoverCount(RowOfTiles(a * s.rows, Range(0, nc * s.cols, s.cols)), s, i, j)
      == if a <= i < a + 2 then Hits(0, nc, j) else 0
  {
    MulDiv(a, s.rows);
    assert 0 * s.cols == 0;
    CoverCountRow(a * s.rows, 0, nc, s, i, j);
  }

  /** Cell (i, j) of `passes` is the product of how many window rows and
      how many window columns reach it. */
  lemma PassesCell(h: nat, w: nat, s: Stride, i: nat, j: nat)
    requires ValidStride(s)
    requires i <= RowCount(h, s) && j <= ColCount(w, s)
    ensures |Passes(h, w, s)| == RowCount(h, s) + 1
    ensures |Passes(h, w, s)[i]| == ColCount(w, s) + 1
    ensures Passes(h, w, s)[i][j] == Hits(0, RowCount(h, s), i) * Hits(0, ColCount(w, s), j)
  {
    var nr, nc := RowCount(h, s), ColCount(w, s);
    var g := Zeros(nr + 1, nc + 1);
    BumpAllCell(g, Tiles(h, w, s), s, i, j);
    Stops(h, w, s);
    CoverCountNest(0, nr, nc, s, i, j);
  }

  /** The `passes` grid has `n_row + 1` by `n_col + 1` cells; each holds 1
      at the four corners, 4 strictly inside, and 2 on the rest of the
      border, so no cell is ever 0. */
  lemma PassesShape(h: nat, w: nat, s: Stride, i: nat, j: nat)
    requires ValidStride(s)
    requires i <= RowCount(h, s) && j <= ColCount(w, s)
    ensures |Passes(h, w, s)| == RowCount(h, s) + 1
    ensures |Passes(h, w, s)[i]| == ColCount(w, s) + 1
    ensures var nr, nc := RowCount(h, s), ColCount(w, s);
      var p := Passes(h, w, s)[i][j];
      && ((i == 0 || i == nr) && (j == 0 || j == nc) ==> p == 1)
      && (0 < i < nr && 0 < j < nc ==> p == 4)
      && (!((i == 0 || i == nr) && (j == 0 || j == nc)) && !(0 < i < nr && 0 < j < nc) ==> p == 2)
  {
    var nr, nc := RowCount(h, s), ColCount(w, s);
    PassesCell(h, w, s, i, j);
    HitsClosedForm(0, nr, i);
    HitsClosedForm(0, nc, j);
    var hr, hc := Hits(0, nr, i), Hits(0, nc, j);
    assert (i == 0 || i == nr) <==> hr == 1;
    assert 0 < i < nr <==> hr == 2;
    assert (j == 0 || j == nc) <==> hc == 1;
    assert 0 < j < nc <==> hc == 2;
    ProductOfCounts(hr, hc);
  }

  lemma ProductOfCounts(x: int, y: int)
    requires 1 <= x <= 2 && 1 <= y <= 2
    ensures x * y == if x == 1 && y == 1 then 1 else if x == 2 && y == 2 then 4 else 2
  {
  }

  // ---------------------------------------------------------------------
  // The prediction loop's row/column counter

  /** The `(row, col)` pair the prediction loop keeps beside `enumerate(Y)`. */
  datatype Counter = Counter(row: int, col: int)

  /** `col += 1; if col >= n_col: col = 0; row += 1`. */
  function Advance(c: Counter, nCol: int): Counter {
    if c.col + 1 >= nCol then Counter(c.row + 1, 0) else Counter(c.row, c.col + 1)
  }

  /** The counter when the loop reaches prediction `i`. */
  function CounterAt(i: nat, nCol: int): Counter {
    if i == 0 then Counter(0, 0) else Advance(CounterAt(i - 1, nCol), nCol)
  }

  /** The counter is integer division and remainder by `n_col`. */
  lemma {:induction false} CounterIsDivMod(i: nat, nCol: int)
    requires nCol >= 1
    ensures CounterAt(i, nCol) == Counter(i / nCol, i % nCol)
  {
    if i == 0 {
      DivModUnique(0, nCol, 0, 0);
    } else {
      CounterIsDivMod(i - 1, nCol);
      var q, r := (i - 1) / nCol, (i - 1) % nCol;
      DivMod(i - 1, nCol);
      if r + 1 >= nCol {
        DivModUnique(i, nCol, q + 1, 0);
      } else {
        DivModUnique(i, nCol, q, r + 1);
      }
    }
  }

  /** `(y_offset, x_offset)` handed to the blob scorer for prediction `i`. */
  function Offsets(w: nat, s: Stride, i: nat): (int, int)
    requires ValidStride(s)
  {
    var c := CounterAt(i, ColCount(w, s));
    (c.row * s.rows - s.rows, c.col * s.cols - s.cols)
  }

  /** Prediction `i`'s offsets are its own window's corner minus the top and
      left padding, so tile-local coordinates plus the offsets are
      coordinates in the unpadded image. */
  lemma OffsetsMatchTile(h: nat, w: nat, s: Stride, i: nat)
    requires ValidStride(s) && i < |Tiles(h, w, s)|
    ensures Offsets(w, s, i).0 == Tiles(h, w, s)[i].row - s.rows
    ensures Offsets(w, s, i).1 == Tiles(h, w, s)[i].col - s.cols
  {
    TileAtIndex(h, w, s, i);
    CounterIsDivMod(i, ColCount(w, s));
  }

  // ---------------------------------------------------------------------
  // Stitching the predictions into four sheets

  /** `blob_l`, `blob_t`, `blob_r`, `blob_b`. */
  datatype Sheet = LeftSheet | TopSheet | RightSheet | BottomSheet

  /** Prediction `i`, at grid row `row`, goes to the left or top sheet on an
      even row and to the bottom or right sheet on an odd one; which of the
      two is decided by the parity of `i` itself, not of its column. */
  function SheetOf(i: nat, row: int): Sheet {
    if row % 2 == 0 then (if i % 2 == 0 then LeftSheet else TopSheet)
    else (if i % 2 == 0 then BottomSheet else RightSheet)
  }

  /** `ceil(n / 2)`: `hi_row`, `hi_col`. */
  function HalfUp(n: nat): nat {
    (n + 1) / 2
  }

  /** `floor(n / 2)`: `lo_row`, `lo_col`. */
  function HalfDown(n: nat): nat {
    n / 2
  }

  /** A sheet's height in windows: `hi_row` for the left and top sheets,
      `lo_row` for the other two. */
  function SheetRows(sh: Sheet, nRow: nat): nat {
    if sh == LeftSheet || sh == TopSheet then HalfUp(nRow) else HalfDown(nRow)
  }

  /** A sheet's width in windows: `hi_col` for the left and right sheets,
      `lo_col` for the other two. */
  function SheetCols(sh: Sheet, nCol: nat): nat {
    if sh == LeftSheet || sh == RightSheet then HalfUp(nCol) else HalfDown(nCol)
  }

  /** `y_i` (or `x_i`): the grid row (column) times the stride, one stride
      less when it is odd. */
  function StitchStart(k: int, st: int): int {
    if k % 2 == 0 then k * st else k * st - st
  }

  /** `sheet[y_i:y_i + 512, x_i:x_i + 512] = Y_` with a 512 by 512 response:
      the slice is clamped to the sheet, and the assignment succeeds only
      when the clamped slice is 512 by 512 as well. */
  predicate WriteFits(i: nat, nRow: nat, nCol: nat, s: Stride)
    requires nCol >= 1
  {
    var c := CounterAt(i, nCol);
    var sh := SheetOf(i, c.row);
    && StitchStart(c.row, s.rows) + Window <= Window * SheetRows(sh, nRow)
    && StitchStart(c.col, s.cols) + Window <= Window * SheetCols(sh, nCol)
  }

  /** Every one of the `n_row * n_col` predictions is written without
      running past its sheet. */
  predicate Stitches(h: nat, w: nat, s: Stride)
    requires ValidStride(s)
  {
    var nr, nc := RowCount(h, s), ColCount(w, s);
    forall i: nat :: i < nr * nc ==> WriteFits(i, nr, nc, s)
  }

  /** `detection()` gets through padding, cutting and stitching. */
  predicate Completes(h: nat, w: nat, s: Stride) {
    ValidStride(s) && FullWindows(s) && Stitches(h, w, s)
  }

  /** Multiplying by an odd number keeps the parity. */
  lemma OddFactorParity(a: int, n: int)
    requires n % 2 == 1
    ensures (a * n) % 2 == a % 2
  {
    var p := n / 2;
    assert n == 2 * p + 1;
    assert a * n == 2 * (a * p) + a;
    DivMod(a, 2);
    DivModUnique(a * n, 2, a * p + a / 2, a % 2);
  }

  /** `StitchStart` is twice the pair index `k / 2` strides. */
  lemma StitchStartPairs(k: int, st: int)
    ensures StitchStart(k, st) == 2 * (k / 2) * st
  {
    DivMod(k, 2);
    var q := k / 2;
    if k % 2 == 0 {
      assert k == 2 * q;
    } else {
      assert k - 1 == 2 * q;
      assert k * st - st == (k - 1) * st;
    }
  }

  /** Whichever sheet prediction `i` goes to, the pair index of its grid row
      is a row of that sheet and the pair index of its column a column. */
  lemma SlotInSheet(i: nat, nRow: nat, nCol: nat)
    requires nCol >= 1 && i < nRow * nCol
    ensures var c := CounterAt(i, nCol);
      var sh := SheetOf(i, c.row);
      && 0 <= c.row < nRow && 0 <= c.col < nCol
      && c.row / 2 < SheetRows(sh, nRow) && c.col / 2 < SheetCols(sh, nCol)
  {
    CounterIsDivMod(i, nCol);
    GridIndex(i, nRow, nCol);
    var row, col := i / nCol, i % nCol;
    if col % 2 == 0 && nCol % 2 == 1 {
      SameParity(i, row, col, nCol);
    }
    SlotFits(i, row, col, nRow, nCol);
  }

  /** With an odd number of columns, an even column keeps the row's parity
      in the prediction index. */
  lemma SameParity(i: int, row: int, col: int, nCol: int)
    requires i == row * nCol + col && nCol % 2 == 1 && col % 2 == 0
    ensures i % 2 == row % 2
  {
    var a := row * nCol;
    OddFactorParity(row, nCol);
    DivMod(a, 2);
    DivMod(col, 2);
    DivModUnique(i, 2, a / 2 + col / 2, row % 2);
  }

  /** The pair indices of a grid position fit the sheet its parities pick,
      provided an odd-width grid's last even column keeps the row parity. */
  lemma SlotFits(i: nat, row: int, col: int, nRow: nat, nCol: nat)
    requires 0 <= row < nRow && 0 <= col < nCol
    requires col % 2 == 0 && nCol % 2 == 1 ==> i % 2 == row % 2
    ensures var sh := SheetOf(i, row);
      row / 2 < SheetRows(sh, nRow) && col / 2 < SheetCols(sh, nCol)
  {
  }

  /** One axis of a write fits when the pair index is a slot of the sheet
      and the stride is at most half a window, or the index is 0 or 1. */
  lemma StartFits(k: int, st: int, slots: int)
    requires 0 <= k && k / 2 < slots && 0 < st && (2 * st <= Window || k < 2)
    ensures StitchStart(k, st) + Window <= Window * slots
  {
    StitchStartPairs(k, st);
    var q := k / 2;
    if 2 * st <= Window {
      MulMono(st, Window / 2, 2 * q);
    }
    MulMono(q + 1, slots, Window);
  }

  /** Every write fits when each axis has a stride of at most half a window
      or at most two windows. */
  lemma StitchesWhen(h: nat, w: nat, s: Stride)
    requires ValidStride(s)
    requires 2 * s.rows <= Window || RowCount(h, s) <= 2
    requires 2 * s.cols <= Window || ColCount(w, s) <= 2
    ensures Stitches(h, w, s)
  {
    var nr, nc := RowCount(h, s), ColCount(w, s);
    forall i: nat | i < nr * nc
      ensures WriteFits(i, nr, nc, s)
    {
      SlotInSheet(i, nr, nc);
      var c := CounterAt(i, nc);
      var sh := SheetOf(i, c.row);
      StartFits(c.row, s.rows, SheetRows(sh, nr));
      StartFits(c.col, s.cols, SheetCols(sh, nc));
    }
  }

  /** With more than half a window of row stride and three or more grid
      rows, the first window of the last even grid row runs past the
      bottom of the left sheet. */
  lemma RowOverrun(h: nat, w: nat, s: Stride)
    requires ValidStride(s) && Window < 2 * s.rows && RowCount(h, s) >= 3
    ensures !Stitches(h, w, s)
  {
    var nr, nc := RowCount(h, s), ColCount(w, s);
    var i := RowOverrunAt(nr, nc, s);
  }

  /** The write of prediction `2 m n_col`, where `2 m` is the last even
      grid row, overruns the left sheet. */
  lemma RowOverrunAt(nr: nat, nc: nat, s: Stride) returns (i: nat)
    requires nc >= 1 && nr >= 3 && Window < 2 * s.rows
    ensures i < nr * nc && !WriteFits(i, nr, nc, s)
  {
    var m := HalfUp(nr) - 1;
    var q := m * nc;
    MulNonNeg(m, nc);
    i := 2 * q;
    assert i == (2 * m) * nc;
    MulStrict(2 * m, nr, nc);
    CounterIsDivMod(i, nc);
    DivModUnique(i, nc, 2 * m, 0);
    DivModUnique(i, 2, q, 0);
    assert CounterAt(i, nc) == Counter(2 * m, 0);
    assert SheetOf(i, 2 * m) == LeftSheet;
    RowStartPast(m, s.rows);
  }

  /** Row `2 m`, for `m >= 1`, starts past the room a sheet of `m + 1`
      windows leaves when the stride exceeds half a window. */
  lemma RowStartPast(m: int, st: int)
    requires m >= 1 && Window < 2 * st
    ensures StitchStart(2 * m, st) + Window > Window * (m + 1)
  {
    DivModUnique(2 * m, 2, m, 0);
    MulMono(Window / 2 + 1, st, 2 * m);
  }

  /** With more than half a window of column stride and three or more grid
      columns, the last even column of the first row runs past the right
      edge of the left sheet. */
  lemma ColOverrun(h: nat, w: nat, s: Stride)
    requires ValidStride(s) && Window < 2 * s.cols && ColCount(w, s) >= 3
    ensures !Stitches(h, w, s)
  {
    var nr, nc := RowCount(h, s), ColCount(w, s);
    var m := HalfUp(nc) - 1;
    var i := 2 * m;
    MulMono(1, nr, nc);
    CounterIsDivMod(i, nc);
    DivModUnique(i, nc, 0, i);
    assert CounterAt(i, nc) == Counter(0, 2 * m);
    assert SheetOf(i, 0) == LeftSheet;
    RowStartPast(m, s.cols);
    assert !WriteFits(i, nr, nc, s);
  }

  /** The stitching succeeds exactly when each axis has a stride of at most
      half a window or at most two grid positions. */
  lemma StitchesIff(h: nat, w: nat, s: Stride)
    requires ValidStride(s)
    ensures Stitches(h, w, s) <==>
      && (2 * s.rows <= Window || RowCount(h, s) <= 2)
      && (2 * s.cols <= Window || ColCount(w, s) <= 2)
  {
    if !(2 * s.rows <= Window || RowCount(h, s) <= 2) {
      RowOverrun(h, w, s);
    } else if !(2 * s.cols <= Window || ColCount(w, s) <= 2) {
      ColOverrun(h, w, s);
    } else {
      StitchesWhen(h, w, s);
    }
  }

  /** `detection()` gets through exactly when each stride is half a window,
      or more than half with at most two grid positions on that axis. */
  lemma CompletesIff(h: nat, w: nat, s: Stride)
    ensures Completes(h, w, s) <==>
      && ValidStride(s)
      && (2 * s.rows == Window || (Window < 2 * s.rows && RowCount(h, s) <= 2))
      && (2 * s.cols == Window || (Window < 2 * s.cols && ColCount(w, s) <= 2))
  {
    if ValidStride(s) {
      StitchesIff(h, w, s);
    }
  }

  /** The default stride of half a window completes on every image. */
  lemma DefaultStrideCompletes(h: nat, w: nat)
    ensures Completes(h, w, Stride(256, 256))
  {
    CompletesIff(h, w, Stride(256, 256));
  }

  /** A 1000 by 1000 image with stride (200, 200) pads to 1600 by 1600; the
      last window of the first row starts at column 1200 and is only 400
      wide. */
  lemma ShortStrideExample()
    ensures var s := Stride(200, 200);
      && PaddedWidth(1000, s) == 1600 && ColCount(1000, s) == 7
      && Tiles(1000, 1000, s)[6] == Tile(0, 1200)
      && !Completes(1000, 1000, s)
  {
    TileAt(1000, 1000, Stride(200, 200), 0, 6);
  }

  /** A 1000 by 1000 image with stride (300, 300) has a 5 by 5 grid, and
      prediction 3 writes columns 600 to 1112 of the 1024-wide top sheet. */
  lemma WideStrideExample()
    ensures var s := Stride(300, 300);
      && RowCount(1000, s) == 5 && ColCount(1000, s) == 5
      && CounterAt(3, 5) == Counter(0, 3) && SheetOf(3, 0) == TopSheet
      && StitchStart(3, 300) == 600 && Window * SheetCols(TopSheet, 5) == 1024
      && !WriteFits(3, 5, 5, s) && !Completes(1000, 1000, s)
  {
  }

  /** A 600 by 600 image with stride (512, 512) has a 3 by 3 grid, and
      prediction 2 writes columns 1024 to 1536 of the 1024-wide left sheet. */
  lemma WholeWindowStrideExample()
    ensures var s := Stride(512, 512);
      && RowCount(600, s) == 3 && ColCount(600, s) == 3
      && CounterAt(2, 3) == Counter(0, 2) && SheetOf(2, 0) == LeftSheet
      && StitchStart(2, 512) == 1024 && Window * SheetCols(LeftSheet, 3) == 1024
      && !WriteFits(2, 3, 3, s) && !Completes(600, 600, s)
  {
  }

  /** A 400 by 400 image with stride (512, 512) has a 2 by 2 grid, and
      every write fits. */
  lemma SmallImageWideStride()
    ensures RowCount(400, Stride(512, 512)) == 2 && Completes(400, 400, Stride(512, 512))
  {
    CompletesIff(400, 400, Stride(512, 512));
  }
}
