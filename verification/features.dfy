/** The `Feature` record of the feature package: a centroid, a bounding box
    in (row, column) corners, and optionally the region's convex mask; its
    alias accessors, `move`, and the bounding-box and pixelwise `overlap`
    between two features. Also the extractor's feature list, which cannot
    be read before a scan has set it. */
module Features {
  import opened Wrappers

  /** A boolean image, row by row (`convex_image`). */
  type Mask = seq<seq<bool>>

  /** What the feature keeps of its `regionprops`: the convex mask, which a
      region object may carry as `None`. */
  datatype Region = Region(convex: Option<Mask>)

  /** A feature: centroid `(r, c)`, box corners `(br1, bc1)` and `(br2, bc2)`,
      and the region it was built from, if any. Without a region the feature
      has no `convex_image` attribute at all. */
  datatype Feature = Feature(r: int, c: int, br1: int, bc1: int, br2: int, bc2: int,
                             confidence: Option<real>, unclear: bool, clusterId: int,
                             region: Option<Region>)

  /** `Feature(pos, bbox, regionprops)`: position and box in (row, column)
      order, no confidence yet, not unclear, cluster 0. */
  function NewFeature(pos: (int, int), bbox: (int, int, int, int), region: Option<Region>): (f: Feature)
    ensures Y(f) == pos.0 && X(f) == pos.1 && BboxRc(f) == bbox
    ensures f.confidence.None? && !f.unclear && f.clusterId == 0 && f.region == region
  {
    Feature(pos.0, pos.1, bbox.0, bbox.1, bbox.2, bbox.3, None, false, 0, region)
  }

  // ---------------------------------------------------------------------
  // Accessors: x/y are the column/row aliases

  function X(f: Feature): int { f.c }
  function Y(f: Feature): int { f.r }

  /** `bbox`: (x1, y1, x2, y2). */
  function Bbox(f: Feature): (int, int, int, int) { (f.bc1, f.br1, f.bc2, f.br2) }

  /** `bboxrc`: (r1, c1, r2, c2). */
  function BboxRc(f: Feature): (int, int, int, int) { (f.br1, f.bc1, f.br2, f.bc2) }

  /** `dim`: (width, height). */
  function Dim(f: Feature): (int, int) { (f.bc2 - f.bc1, f.br2 - f.br1) }

  /** `dimrc`: (height, width). */
  function DimRc(f: Feature): (int, int) { (f.br2 - f.br1, f.bc2 - f.bc1) }

  function BboxArea(f: Feature): int { (f.bc2 - f.bc1) * (f.br2 - f.br1) }

  /** The two box views list the same corners with the axes swapped, and the
      box area is the product of the row-major dimensions. */
  lemma ViewsAgree(f: Feature)
    ensures Bbox(f) == (BboxRc(f).1, BboxRc(f).0, BboxRc(f).3, BboxRc(f).2)
    ensures Dim(f) == (DimRc(f).1, DimRc(f).0)
    ensures BboxArea(f) == DimRc(f).0 * DimRc(f).1
  {
  }

  // ---------------------------------------------------------------------
  // move

  /** `move(x, y)`: the centroid goes to (x, y) and every box edge shifts by
      the same difference, so the box keeps its size; nothing else changes. */
  function Move(f: Feature, x: int, y: int): (g: Feature)
    ensures X(g) == x && Y(g) == y
    ensures Bbox(g) == (f.bc1 + (x - X(f)), f.br1 + (y - Y(f)), f.bc2 + (x - X(f)), f.br2 + (y - Y(f)))
    ensures Dim(g) == Dim(f) && BboxArea(g) == BboxArea(f)
    ensures g.confidence == f.confidence && g.unclear == f.unclear
    ensures g.clusterId == f.clusterId && g.region == f.region
  {
    var dx, dy := x - X(f), y - Y(f);
    f.(bc1 := f.bc1 + dx, bc2 := f.bc2 + dx, br1 := f.br1 + dy, br2 := f.br2 + dy, c := x, r := y)
  }

  /** Moving back to the old centroid undoes a move. */
  lemma MoveBack(f: Feature, x: int, y: int)
    ensures Move(Move(f, x, y), X(f), Y(f)) == f
  {
  }

  /** Two moves are one move to the second target. */
  lemma MoveTwice(f: Feature, x1: int, y1: int, x2: int, y2: int)
    ensures Move(Move(f, x1, y1), x2, y2) == Move(f, x2, y2)
  {
  }

  // ---------------------------------------------------------------------
  // Bounding-box overlap

  /** The intersection box `(ir1, ic1, ir2, ic2)`. */
  function Meet(a: Feature, b: Feature): (int, int, int, int) {
    (Max(a.br1, b.br1), Max(a.bc1, b.bc1), Min(a.br2, b.br2), Min(a.bc2, b.bc2))
  }

  function Max(x: int, y: int): int { if x >= y then x else y }
  function Min(x: int, y: int): int { if x <= y then x else y }

  /** No strict overlap on one of the two axes. */
  predicate Apart(a: Feature, b: Feature) {
    var m := Meet(a, b);
    m.0 >= m.2 || m.1 >= m.3
  }

  /** `a`'s box is the intersection box. */
  predicate IsMeet(a: Feature, b: Feature) {
    Meet(a, b) == BboxRc(a)
  }

  function MeetArea(a: Feature, b: Feature): int {
    var m := Meet(a, b);
    (m.2 - m.0) * (m.3 - m.1)
  }

  lemma MeetSymmetric(a: Feature, b: Feature)
    ensures Meet(a, b) == Meet(b, a) && MeetArea(a, b) == MeetArea(b, a)
    ensures Apart(a, b) == Apart(b, a)
  {
  }

  /** When the boxes overlap, both are proper boxes, the intersection lies
      inside each, and its area is positive and at most each box's area,
      strictly less when it is not that box. */
  lemma MeetInside(a: Feature, b: Feature)
    requires !Apart(a, b)
    ensures a.br1 < a.br2 && a.bc1 < a.bc2 && b.br1 < b.br2 && b.bc1 < b.bc2
    ensures 0 < MeetArea(a, b) <= BboxArea(a) && MeetArea(a, b) <= BboxArea(b)
    ensures !IsMeet(a, b) ==> MeetArea(a, b) < BboxArea(a)
  {
    var m := Meet(a, b);
    var ri, ci := m.2 - m.0, m.3 - m.1;
    var ra, ca := a.br2 - a.br1, a.bc2 - a.bc1;
    var rb, cb := b.br2 - b.br1, b.bc2 - b.bc1;
    AreaLe(ri, ci, ra, ca);
    AreaLe(ri, ci, rb, cb);
    assert BboxArea(a) == ca * ra && ca * ra == ra * ca;
    assert BboxArea(b) == cb * rb && cb * rb == rb * cb;
  }

  /** A sub-rectangle has no larger area, and a strictly smaller one when
      one side is strictly shorter. */
  lemma AreaLe(ri: int, ci: int, ra: int, ca: int)
    requires 0 < ri <= ra && 0 < ci <= ca
    ensures 0 < ri * ci <= ra * ca
    ensures (ri < ra || ci < ca) ==> ri * ci < ra * ca
  {
    assert ri * ci <= ra * ci;
    assert ra * ci <= ra * ca;
    if ri < ra {
      assert ri * ci < ra * ci;
    }
    if ci < ca {
      assert ra * ci < ra * ca;
    }
  }

  /** The bounding-box half of `overlap` for overlapping boxes: the number of
      shared box pixels and its share of the union, 1 when one box is the
      intersection. */
  function BoxShare(a: Feature, b: Feature): (r: (int, real))
    requires !Apart(a, b)
    ensures 0 < r.0 && 0.0 < r.1 <= 1.0
  {
    MeetInside(a, b);
    MeetInside(b, a);
    MeetSymmetric(a, b);
    if IsMeet(a, b) then (BboxArea(a), 1.0)
    else if IsMeet(b, a) then (BboxArea(b), 1.0)
    else
      var i := MeetArea(a, b);
      var u := BboxArea(a) + BboxArea(b) - i;
      assert 0 < i < u;
      (i, i as real / u as real)
  }

  // ---------------------------------------------------------------------
  // Pixelwise overlap

  /** Width of a mask (its first row), as numpy's second shape entry. */
  function Cols(m: Mask): nat {
    if |m| == 0 then 0 else |m[0]|
  }

  predicate RectMask(m: Mask) {
    forall i :: 0 <= i < |m| ==> |m[i]| == Cols(m)
  }

  /** `slice[...] = mask` succeeds for a target of `rows` x `cols` when the
      mask is 2-D and each of its sides matches or is 1 (numpy broadcasting). */
  predicate Fits(m: Mask, rows: int, cols: int) {
    RectMask(m) && (|m| == rows || |m| == 1) && (Cols(m) == cols || Cols(m) == 1)
  }

  /** Mask value at (i, j) after broadcasting. */
  function Cell(m: Mask, i: int, j: int): bool {
    var ii := if |m| == 1 then 0 else i;
    var jj := if Cols(m) == 1 then 0 else j;
    0 <= ii < |m| && 0 <= jj < |m[ii]| && m[ii][jj]
  }

  /** A mask written into the union-box array at offset (top, left) over a
      `rows` x `cols` block. */
  datatype Placement = Placement(mask: Mask, top: int, left: int, rows: int, cols: int)

  predicate Covered(pl: Placement, i: int, j: int) {
    var li, lj := i - pl.top, j - pl.left;
    0 <= li < pl.rows && 0 <= lj < pl.cols && Cell(pl.mask, li, lj)
  }

  /** `True` cells of `a` (and of `b` too, when `both`) in row `i`, columns
      `j` up to `cols`. */
  function CountRow(a: Placement, b: Placement, both: bool, i: int, j: int, cols: int): (n: nat)
    decreases cols - j
  {
    if j >= cols then 0
    else (if Covered(a, i, j) && (!both || Covered(b, i, j)) then 1 else 0)
         + CountRow(a, b, both, i, j + 1, cols)
  }

  /** The same over rows `i` up to `rows`. */
  function CountRows(a: Placement, b: Placement, both: bool, i: int, rows: int, cols: int): (n: nat)
    decreases rows - i
  {
    if i >= rows then 0
    else CountRow(a, b, both, i, 0, cols) + CountRows(a, b, both, i + 1, rows, cols)
  }

  lemma {:induction false} CountRowFacts(a: Placement, b: Placement, i: int, j: int, cols: int)
    ensures CountRow(a, b, true, i, j, cols) == CountRow(b, a, true, i, j, cols)
    ensures CountRow(a, b, true, i, j, cols) <= CountRow(a, b, false, i, j, cols)
    decreases cols - j
  {
    if j < cols {
      CountRowFacts(a, b, i, j + 1, cols);
    }
  }

  /** Counting shared cells does not depend on the order of the two masks,
      and there are no more of them than cells of either mask. */
  lemma {:induction false} CountFacts(a: Placement, b: Placement, i: int, rows: int, cols: int)
    ensures CountRows(a, b, true, i, rows, cols) == CountRows(b, a, true, i, rows, cols)
    ensures CountRows(a, b, true, i, rows, cols) <= CountRows(a, b, false, i, rows, cols)
    ensures CountRows(a, b, true, i, rows, cols) <= CountRows(b, a, false, i, rows, cols)
    decreases rows - i
  {
    if i < rows {
      CountRowFacts(a, b, i, 0, cols);
      CountRowFacts(b, a, i, 0, cols);
      CountFacts(a, b, i + 1, rows, cols);
    }
  }

  /** The share of shared mask pixels: 1 when they are all of either mask,
      else intersection over union. */
  function PixelShare(both: nat, area1: nat, area2: nat): (s: real)
    requires both <= area1 && both <= area2
    ensures 0.0 <= s <= 1.0
  {
    if both == area1 || both == area2 then 1.0
    else
      assert both < area1 + area2 - both;
      both as real / (area1 + area2 - both) as real
  }

  /** Short of all of either mask, the share is intersection over union. */
  lemma PixelShareIoU(both: nat, area1: nat, area2: nat)
    requires both <= area1 && both <= area2
    ensures both != area1 && both != area2 ==>
      PixelShare(both, area1, area2) * (area1 + area2 - both) as real == both as real
  {
    if both != area1 && both != area2 {
      var u := (area1 + area2 - both) as real;
      assert u > 0.0;
      assert (both as real / u) * u == both as real;
    }
  }

  /** The pixel entries of an overlap for the counts (shared, own a, own
      b): the shared count, and a share of 1 when that is all of either
      mask's pixels, else shared / (own a + own b - shared). */
  ghost predicate PixelsAre(o: Overlap, c: (nat, nat, nat)) {
    var (both, area1, area2) := c;
    && o.pixels == Some(both) && o.pixelShare.Some?
    && ((both == area1 || both == area2) ==> o.pixelShare.value == 1.0)
    && (both != area1 && both != area2 ==>
          o.pixelShare.value * (area1 + area2 - both) as real == both as real)
  }

  // ---------------------------------------------------------------------
  // The same counts, read off the masks' own rows

  /** A mask placed without broadcasting: as many rows and columns as its
      block, every row as long as the first. */
  predicate Exact(p: Placement) {
    |p.mask| == p.rows && RectMask(p.mask) && Cols(p.mask) == p.cols
  }

  /** An exactly placed mask covers a cell when the cell is in its block
      and the mask pixel there is set. */
  lemma CoveredExact(p: Placement, i: int, j: int)
    requires Exact(p)
    ensures Covered(p, i, j) <==>
      && p.top <= i < p.top + p.rows && p.left <= j < p.left + p.cols
      && p.mask[i - p.top][j - p.left]
  {
  }

  /** Positions `k` in `[j, hi)` where pixel `k - dx` of row `x` and pixel
      `k - dy` of row `y` are both set. */
  function SharedSpan(x: seq<bool>, dx: int, y: seq<bool>, dy: int, j: int, hi: int): nat
    requires dx <= j && dy <= j && hi - dx <= |x| && hi - dy <= |y|
    decreases hi - j
  {
    if j >= hi then 0
    else (if x[j - dx] && y[j - dy] then 1 else 0) + SharedSpan(x, dx, y, dy, j + 1, hi)
  }

  /** The pixels two exactly placed masks share in union row `i`: over the
      overlap of their column ranges, both masks' rows have the pixel set. */
  function SharedInRow(a: Placement, b: Placement, i: int): nat
    requires Exact(a) && Exact(b)
  {
    var lo, hi := Max(a.left, b.left), Min(a.left + a.cols, b.left + b.cols);
    if !(a.top <= i < a.top + a.rows && b.top <= i < b.top + b.rows) || lo >= hi then 0
    else SharedSpan(a.mask[i - a.top], a.left, b.mask[i - b.top], b.left, lo, hi)
  }

  /** The same summed over union rows `i` up to `rows`. */
  function SharedRows(a: Placement, b: Placement, i: int, rows: int): nat
    requires Exact(a) && Exact(b)
    decreases rows - i
  {
    if i >= rows then 0 else SharedInRow(a, b, i) + SharedRows(a, b, i + 1, rows)
  }

  /** From column `j` on, the union-row count is the masks' shared span
      from `j` (or from the column overlap's start, if later). */
  lemma {:induction false} RowMatches(a: Placement, b: Placement, i: int, j: int, cols: int)
    requires Exact(a) && Exact(b)
    requires Min(a.left + a.cols, b.left + b.cols) <= cols
    ensures var lo, hi := Max(a.left, b.left), Min(a.left + a.cols, b.left + b.cols);
      CountRow(a, b, true, i, j, cols) ==
        if !(a.top <= i < a.top + a.rows && b.top <= i < b.top + b.rows) || lo >= hi then 0
        else SharedSpan(a.mask[i - a.top], a.left, b.mask[i - b.top], b.left, Max(j, lo), hi)
    decreases cols - j
  {
    if j < cols {
      RowMatches(a, b, i, j + 1, cols);
      CoveredExact(a, i, j);
      CoveredExact(b, i, j);
    }
  }

  /** Row by row, the union-box count of shared cells is the masks' own
      shared count. */
  lemma {:induction false} RowsMatch(a: Placement, b: Placement, i: int, rows: int, cols: int)
    requires Exact(a) && Exact(b) && 0 <= a.left && 0 <= b.left
    requires Min(a.left + a.cols, b.left + b.cols) <= cols
    ensures CountRows(a, b, true, i, rows, cols) == SharedRows(a, b, i, rows)
    decreases rows - i
  {
    if i < rows {
      RowMatches(a, b, i, 0, cols);
      RowsMatch(a, b, i + 1, rows, cols);
    }
  }

  /** Set pixels of one mask row from column `j` on, and of a whole mask
      from row `i` on (numpy's `sum`). */
  function RowPixels(x: seq<bool>, j: nat): nat
    decreases |x| - j
  {
    if j >= |x| then 0 else (if x[j] then 1 else 0) + RowPixels(x, j + 1)
  }

  function MaskPixels(m: Mask, i: nat): nat
    decreases |m| - i
  {
    if i >= |m| then 0 else RowPixels(m[i], 0) + MaskPixels(m, i + 1)
  }

  /** A row shares with itself exactly its set pixels. */
  lemma {:induction false} SelfSpan(x: seq<bool>, d: int, j: int, hi: int)
    requires d <= j <= hi && hi - d == |x|
    ensures SharedSpan(x, d, x, d, j, hi) == RowPixels(x, j - d)
    decreases hi - j
  {
    if j < hi {
      SelfSpan(x, d, j + 1, hi);
    }
  }

  /** An exactly placed mask shares with itself, from union row `i` on, the
      set pixels of its rows from there on, when the union rows reach past
      its block. */
  lemma {:induction false} SelfRows(p: Placement, i: int, rows: int)
    requires Exact(p) && p.top + p.rows <= rows
    ensures SharedRows(p, p, i, rows) == MaskPixels(p.mask, if i <= p.top then 0 else i - p.top)
    decreases rows - i
  {
    if i < rows {
      SelfRows(p, i + 1, rows);
      if p.top <= i < p.top + p.rows && p.cols > 0 {
        SelfSpan(p.mask[i - p.top], p.left, p.left, p.left + p.cols);
      }
    }
  }

  /** Counting one mask's cells is counting the cells it shares with itself. */
  lemma {:induction false} OwnIsShared(a: Placement, b: Placement, i: int, rows: int, cols: int)
    ensures CountRows(a, b, false, i, rows, cols) == CountRows(a, a, true, i, rows, cols)
    decreases rows - i
  {
    if i < rows {
      OwnRowIsShared(a, b, i, 0, cols);
      OwnIsShared(a, b, i + 1, rows, cols);
    }
  }

  lemma {:induction false} OwnRowIsShared(a: Placement, b: Placement, i: int, j: int, cols: int)
    ensures CountRow(a, b, false, i, j, cols) == CountRow(a, a, true, i, j, cols)
    decreases cols - j
  {
    if j < cols {
      OwnRowIsShared(a, b, i, j + 1, cols);
    }
  }

  // ---------------------------------------------------------------------
  // overlap()

  /** The exceptions `overlap` can raise: a feature built without a region
      has no `convex_image` attribute; a region whose convex image is `None`
      makes it raise its own exception; and so does a mask that does not
      fit its box in the union array. */
  datatype OverlapError = NoConvexAttribute | MissingConvexImage | SliceMismatch

  /** `(bbox pixels, pixels, bbox share, pixel share)`; the two pixel entries
      are `None` in bounding-box-only mode. */
  datatype Overlap = Overlap(bboxPixels: int, pixels: Option<int>, bboxShare: real, pixelShare: Option<real>)

  /** The convex mask, or the exception reading it raises. */
  function ConvexOf(f: Feature): Result<Mask, OverlapError> {
    match f.region
    case None => Failure(NoConvexAttribute)
    case Some(reg) => if reg.convex.None? then Failure(MissingConvexImage) else Success(reg.convex.value)
  }

  /** The test at the head of `overlap`, evaluated left to right: the first
      feature's mask is read first. */
  function Masks(a: Feature, b: Feature): Result<(Mask, Mask), OverlapError> {
    match ConvexOf(a)
    case Failure(e) => Failure(e)
    case Success(ma) =>
      match ConvexOf(b)
      case Failure(e) => Failure(e)
      case Success(mb) => Success((ma, mb))
  }

  /** Where `a`'s mask goes in the union-box array. */
  function PlaceIn(a: Feature, b: Feature, m: Mask): Placement {
    Placement(m, a.br1 - Min(a.br1, b.br1), a.bc1 - Min(a.bc1, b.bc1), a.br2 - a.br1, a.bc2 - a.bc1)
  }

  /** Shared and own pixel counts over the union box, or the slicing error. */
  function PixelCounts(a: Feature, b: Feature, ma: Mask, mb: Mask): (r: Result<(nat, nat, nat), OverlapError>)
    ensures r.Success? ==> r.value.0 <= r.value.1 && r.value.0 <= r.value.2
  {
    var pa, pb := PlaceIn(a, b, ma), PlaceIn(b, a, mb);
    if !Fits(ma, pa.rows, pa.cols) || !Fits(mb, pb.rows, pb.cols) then Failure(SliceMismatch)
    else
      var rows := Max(a.br2, b.br2) - Min(a.br1, b.br1);
      var cols := Max(a.bc2, b.bc2) - Min(a.bc1, b.bc1);
      CountFacts(pa, pb, 0, rows, cols);
      Success((CountRows(pa, pb, true, 0, rows, cols),
               CountRows(pa, pb, false, 0, rows, cols),
               CountRows(pb, pa, false, 0, rows, cols)))
  }

  /** For masks that fit their boxes exactly, the three counts are the
      pixels the masks share at the same image position and each mask's
      own set pixels, read off the masks' rows: `overlap_slice1` and
      `overlap_slice2` add nothing and lose nothing. */
  lemma PixelCountsByMasks(a: Feature, b: Feature, ma: Mask, mb: Mask)
    requires Exact(PlaceIn(a, b, ma)) && Exact(PlaceIn(b, a, mb))
    ensures var pa, pb := PlaceIn(a, b, ma), PlaceIn(b, a, mb);
      var rows := Max(a.br2, b.br2) - Min(a.br1, b.br1);
      PixelCounts(a, b, ma, mb) == Success((SharedRows(pa, pb, 0, rows), MaskPixels(ma, 0), MaskPixels(mb, 0)))
  {
    var pa, pb := PlaceIn(a, b, ma), PlaceIn(b, a, mb);
    var rows := Max(a.br2, b.br2) - Min(a.br1, b.br1);
    var cols := Max(a.bc2, b.bc2) - Min(a.bc1, b.bc1);
    RowsMatch(pa, pb, 0, rows, cols);
    OwnIsShared(pa, pb, 0, rows, cols);
    OwnIsShared(pb, pa, 0, rows, cols);
    RowsMatch(pa, pa, 0, rows, cols);
    RowsMatch(pb, pb, 0, rows, cols);
    SelfRows(pa, 0, rows);
    SelfRows(pb, 0, rows);
  }

  /** `a.overlap(b, bbox_only)`. In pixel mode, with overlapping boxes, the
      result carries the number of union-box cells both placed masks cover,
      and its share is 1 when that is all of either mask's cells and
      otherwise the intersection over the union of the two masks. */
  function OverlapOf(a: Feature, b: Feature, bboxOnly: bool): (r: Result<Overlap, OverlapError>)
    ensures bboxOnly ==> r.Success? && r.value.pixels.None? == !Apart(a, b)
    ensures !bboxOnly ==> (r.Success? ==> Masks(a, b).Success?)
    ensures !bboxOnly && !Apart(a, b) && Masks(a, b).Success? ==>
      var (ma, mb) := Masks(a, b).value;
      && (r.Success? <==> PixelCounts(a, b, ma, mb).Success?)
      && (r.Success? ==>
            PixelsAre(r.value, PixelCounts(a, b, ma, mb).value))
    ensures r.Success? ==> 0.0 <= r.value.bboxShare <= 1.0
    ensures r.Success? && r.value.pixelShare.Some? ==> 0.0 <= r.value.pixelShare.value <= 1.0
  {
    if !bboxOnly && Masks(a, b).Failure? then Failure(Masks(a, b).error)
    else if Apart(a, b) then Success(Overlap(0, Some(0), 0.0, Some(0.0)))
    else
      var (bi, bs) := BoxShare(a, b);
      if bboxOnly then Success(Overlap(bi, None, bs, None))
      else
        var (ma, mb) := Masks(a, b).value;
        WithPixels(bi, bs, PixelCounts(a, b, ma, mb))
  }

  /** Pixel mode for overlapping boxes: the box entries joined with the
      pixel counts, or the slicing error. */
  function WithPixels(bi: int, bs: real, c: Result<(nat, nat, nat), OverlapError>): (r: Result<Overlap, OverlapError>)
    requires c.Success? ==> c.value.0 <= c.value.1 && c.value.0 <= c.value.2
    ensures r.Success? <==> c.Success?
    ensures r.Success? ==> && PixelsAre(r.value, c.value) && r.value.bboxPixels == bi
                           && r.value.bboxShare == bs && r.value.pixelShare.Some?
                           && 0.0 <= r.value.pixelShare.value <= 1.0
  {
    match c
    case Failure(e) => Failure(e)
    case Success((both, area1, area2)) =>
      PixelShareIoU(both, area1, area2);
      Success(Overlap(bi, Some(both), bs, Some(PixelShare(both, area1, area2))))
  }

  /** Boxes that do not strictly overlap on both axes give all zeros, in both
      modes, once the masks could be read. */
  lemma OverlapApart(a: Feature, b: Feature, bboxOnly: bool)
    requires Apart(a, b) && (bboxOnly || Masks(a, b).Success?)
    ensures OverlapOf(a, b, bboxOnly) == Success(Overlap(0, Some(0), 0.0, Some(0.0)))
  {
  }

  /** When `b`'s box lies inside `a`'s (or equals it), the shared box pixels
      are `b`'s whole box and the share is 1. */
  lemma OverlapContained(a: Feature, b: Feature, bboxOnly: bool)
    requires b.br1 < b.br2 && b.bc1 < b.bc2
    requires a.br1 <= b.br1 && b.br2 <= a.br2 && a.bc1 <= b.bc1 && b.bc2 <= a.bc2
    requires OverlapOf(a, b, bboxOnly).Success?
    ensures OverlapOf(a, b, bboxOnly).value.bboxPixels == BboxArea(b)
    ensures OverlapOf(a, b, bboxOnly).value.bboxShare == 1.0
  {
    assert Meet(a, b) == BboxRc(b);
    assert !Apart(a, b);
    if IsMeet(a, b) {
      assert BboxRc(a) == BboxRc(b);
    }
  }

  /** Partial overlap: the shared box pixels are the intersection's area and
      the share is that over the union's area, strictly between 0 and 1. */
  lemma OverlapPartial(a: Feature, b: Feature, bboxOnly: bool)
    requires !Apart(a, b) && !IsMeet(a, b) && !IsMeet(b, a)
    requires OverlapOf(a, b, bboxOnly).Success?
    ensures OverlapOf(a, b, bboxOnly).value.bboxPixels == MeetArea(a, b)
    ensures OverlapOf(a, b, bboxOnly).value.bboxShare * (BboxArea(a) + BboxArea(b) - MeetArea(a, b)) as real
      == MeetArea(a, b) as real
    ensures 0.0 < OverlapOf(a, b, bboxOnly).value.bboxShare < 1.0
  {
    MeetInside(a, b);
    MeetInside(b, a);
    MeetSymmetric(a, b);
    var i, u := MeetArea(a, b), BboxArea(a) + BboxArea(b) - MeetArea(a, b);
    assert 0 < i < u;
    assert BoxShare(a, b) == (i, i as real / u as real);
    RatioBelowOne(i, u);
  }

  lemma RatioBelowOne(i: int, u: int)
    requires 0 < i < u
    ensures 0.0 < i as real / u as real < 1.0
    ensures (i as real / u as real) * u as real == i as real
  {
    var q := i as real / u as real;
    assert q * u as real == i as real;
  }

  /** `overlap` is symmetric: swapping the features raises in the same
      cases, and otherwise gives the same four numbers. (Which exception is
      raised can differ, since the first feature's mask is read first.) */
  lemma OverlapSymmetric(a: Feature, b: Feature, bboxOnly: bool)
    ensures OverlapOf(a, b, bboxOnly).Success? == OverlapOf(b, a, bboxOnly).Success?
    ensures OverlapOf(a, b, bboxOnly).Success? ==> OverlapOf(a, b, bboxOnly) == OverlapOf(b, a, bboxOnly)
  {
    MeetSymmetric(a, b);
    if !Apart(a, b) {
      BoxShareSymmetric(a, b);
      if !bboxOnly && Masks(a, b).Success? {
        var (ma, mb) := Masks(a, b).value;
        assert Masks(b, a) == Success((mb, ma));
        PixelCountsSymmetric(a, b, ma, mb);
      }
    }
  }

  lemma BoxShareSymmetric(a: Feature, b: Feature)
    requires !Apart(a, b)
    ensures !Apart(b, a) && BoxShare(a, b) == BoxShare(b, a)
  {
    MeetSymmetric(a, b);
    if IsMeet(a, b) && IsMeet(b, a) {
      assert BboxRc(a) == BboxRc(b);
    }
  }

  lemma PixelCountsSymmetric(a: Feature, b: Feature, ma: Mask, mb: Mask)
    ensures PixelCounts(a, b, ma, mb).Success? == PixelCounts(b, a, mb, ma).Success?
    ensures PixelCounts(a, b, ma, mb).Success? ==>
      var (x, y, z) := PixelCounts(a, b, ma, mb).value;
      PixelCounts(b, a, mb, ma).value == (x, z, y)
  {
    var pa, pb := PlaceIn(a, b, ma), PlaceIn(b, a, mb);
    var rows := Max(a.br2, b.br2) - Min(a.br1, b.br1);
    var cols := Max(a.bc2, b.bc2) - Min(a.bc1, b.bc1);
    assert rows == Max(b.br2, a.br2) - Min(b.br1, a.br1);
    assert cols == Max(b.bc2, a.bc2) - Min(b.bc1, a.bc1);
    CountFacts(pa, pb, 0, rows, cols);
  }

  /** Row/column boxes (0,0,4,4) and (2,0,6,4): 8 shared box pixels, a third
      of the union, whichever feature asks. */
  lemma OverlapHalfBoxes(a: Feature, b: Feature)
    requires BboxRc(a) == (0, 0, 4, 4) && BboxRc(b) == (2, 0, 6, 4)
    ensures OverlapOf(a, b, true) == Success(Overlap(8, None, 1.0 / 3.0, None))
    ensures OverlapOf(b, a, true) == Success(Overlap(8, None, 1.0 / 3.0, None))
  {
    assert Meet(a, b) == (2, 0, 4, 4);
    assert BboxArea(a) == 16 && BboxArea(b) == 16 && MeetArea(a, b) == 8;
    OverlapSymmetric(a, b, true);
  }

  // ---------------------------------------------------------------------
  // FeatureExtractor's list

  /** An extractor's feature list: `None` until a scan sets it. */
  datatype Extractor = Extractor(list: Option<seq<Feature>>)

  datatype ExtractorError = NotScanned

  function NewExtractor(): Extractor {
    Extractor(None)
  }

  /** A scan's result stored in the extractor. */
  function Scanned(e: Extractor, features: seq<Feature>): Extractor {
    e.(list := Some(features))
  }

  /** `get_feature_list()`: the list, or the exception before any scan. */
  function GetFeatureList(e: Extractor): (r: Result<seq<Feature>, ExtractorError>)
    ensures r.Success? <==> e.list.Some?
    ensures r.Success? ==> r.value == e.list.value
  {
    if e.list.None? then Failure(NotScanned) else Success(e.list.value)
  }

  /** A fresh extractor raises; after a scan the list is what the scan found. */
  lemma FeatureListAfterScan(e: Extractor, features: seq<Feature>)
    ensures GetFeatureList(NewExtractor()) == Failure(NotScanned)
    ensures GetFeatureList(Scanned(e, features)) == Success(features)
  {
  }
}
