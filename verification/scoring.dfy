/** Per-blob scoring in `_blob_detect`: clip the blob radius, average the
    window's response over a disc around the blob centre, and translate the
    centre to unpadded image coordinates. The response map comes from the
    network (an input here) and the blobs from the scale-space extractor
    (also an input), each blob already carrying sigma * sqrt(2). */
module Scoring {
  import opened Slices
  import opened Arith

  /** A response map: rows of intensities, as the network returns them. */
  type Grid = seq<seq<int>>

  /** One extractor result: centre row, centre column, and sigma * sqrt(2). */
  datatype Blob = Blob(row: int, col: int, s: real)

  /** A detected feature as `detection()` builds it: a `DisplotDataFeature`
      whose four fields it sets. */
  datatype Candidate = Candidate(x: int, y: int, r: real, confidence: real)

  function Width(g: Grid): nat {
    if |g| == 0 then 0 else |g[0]|
  }

  /** Every row has the same length, as in a 2-D array. */
  predicate Rect(g: Grid) {
    forall i :: 0 <= i < |g| ==> |g[i]| == Width(g)
  }

  /** Every value fits an unsigned byte, as the network's output does. */
  predicate Bytes(g: Grid) {
    forall i, j :: 0 <= i < |g| && 0 <= j < |g[i]| ==> 0 <= g[i][j] <= 255
  }

  /** `np.clip(v, lo, hi)`, which is `min(max(v, lo), hi)`. */
  function Clip(v: real, lo: real, hi: real): (r: real)
    ensures lo <= hi ==> lo <= r <= hi
    ensures lo <= v <= hi ==> r == v
  {
    var m := if v < lo then lo else v;
    if m > hi then hi else m
  }

  /** Python's `int()` on a float: truncation toward zero. */
  function Trunc(v: real): (i: int)
    ensures v >= 0.0 ==> i as real <= v < i as real + 1.0
    ensures v < 0.0 ==> i as real - 1.0 < v <= i as real
  {
    if v >= 0.0 then v.Floor else -((-v).Floor)
  }

  function Sum(s: seq<int>): int {
    if s == [] then 0 else s[0] + Sum(s[1..])
  }

  lemma {:induction false} SumAppend(a: seq<int>, b: seq<int>)
    ensures Sum(a + b) == Sum(a) + Sum(b)
  {
    if a == [] {
      assert a + b == b;
    } else {
      assert (a + b)[1..] == a[1..] + b;
      SumAppend(a[1..], b);
    }
  }

  lemma {:induction false} SumBounds(s: seq<int>)
    requires forall k :: 0 <= k < |s| ==> 0 <= s[k] <= 255
    ensures 0 <= Sum(s) <= 255 * |s|
  {
    if s != [] {
      SumBounds(s[1..]);
    }
  }

  /** Confidence from the disc samples: their mean divided by 255, or 0 when
      the disc took no samples. */
  function Confidence(samples: seq<int>): real {
    if |samples| > 0 then (Sum(samples) as real / |samples| as real) / 255.0 else 0.0
  }

  lemma ConfidenceBounds(samples: seq<int>)
    requires forall k :: 0 <= k < |samples| ==> 0 <= samples[k] <= 255
    ensures 0.0 <= Confidence(samples) <= 1.0
  {
    SumBounds(samples);
    if |samples| > 0 {
      var n := |samples| as real;
      var t := Sum(samples) as real;
      assert t <= n * 255.0;
      DivNonNegReal(t, n);
      DivAtMostReal(t, n, 255.0);
      DivNonNegReal(t / n, 255.0);
      DivAtMostReal(t / n, 255.0, 1.0);
    }
  }

  // ---------------------------------------------------------------------
  // The slice-and-loop the source performs

  /** The source's disc test on an offset `(dr, dc)` from the centre:
      `dr^2 + dc^2 <= ri^2`. */
  predicate InDisc(dr: int, dc: int, ri: int) {
    Sq(dr) + Sq(dc) <= Sq(ri)
  }

  /** `n * n`, built up by odd numbers so that unfolding the disc test
      stays linear. */
  function Sq(n: int): nat
    decreases if n < 0 then -n else n, if n < 0 then 1 else 0
  {
    if n < 0 then Sq(-n) else if n == 0 then 0 else Sq(n - 1) + 2 * n - 1
  }

  lemma {:induction false} SqIsSquare(n: int)
    ensures Sq(n) == n * n
    decreases if n < 0 then -n else n, if n < 0 then 1 else 0
  {
    if n < 0 {
      SqIsSquare(-n);
    } else if n > 0 {
      SqIsSquare(n - 1);
    }
  }

  /** The disc test of radius `ri`, as a test on offsets. The walks below
      take the test as a parameter: they only need to know that they apply
      it to each offset in turn. */
  function Disc(ri: int): (int, int) -> bool {
    (dr, dc) => InDisc(dr, dc, ri)
  }

  /** Samples from one row of the sliced square: row `row` of `g`, columns
      `startC + sc` for `sc` from `sc` up to `lenC`, kept when the in-square
      offsets pass `keep(sq_r - r_i, sq_c - r_i)`, where `dr` is the row's
      `sq_r - r_i`. The slice bounds keep every read on the map, where `At`
      is plain indexing. */
  function RowSamples(g: Grid, keep: (int, int) -> bool, row: int, startC: int, lenC: nat,
                      dr: int, ri: int, sc: nat): (s: seq<int>)
    ensures Bytes(g) ==> forall k :: 0 <= k < |s| ==> 0 <= s[k] <= 255
    decreases lenC - sc
  {
    if sc >= lenC then []
    else
      (if keep(dr, sc - ri) then [At(g, row, startC + sc)] else [])
      + RowSamples(g, keep, row, startC, lenC, dr, ri, sc + 1)
  }

  /** Samples of the sliced square, row by row from in-square row `sr`. */
  function SquareSamples(g: Grid, keep: (int, int) -> bool, startR: int, lenR: nat,
                         startC: int, lenC: nat, ri: int, sr: nat): (s: seq<int>)
    ensures Bytes(g) ==> forall k :: 0 <= k < |s| ==> 0 <= s[k] <= 255
    decreases lenR - sr
  {
    if sr >= lenR then []
    else
      RowSamples(g, keep, startR + sr, startC, lenC, sr - ri, ri, 0)
      + SquareSamples(g, keep, startR, lenR, startC, lenC, ri, sr + 1)
  }

  /** The response at (i, j), or 0 off the map. */
  function At(g: Grid, i: int, j: int): (v: int)
    ensures Bytes(g) ==> 0 <= v <= 255
  {
    if 0 <= i < |g| && 0 <= j < |g[i]| then g[i][j] else 0
  }

  /** The samples `_blob_detect` averages for a blob centred at (cy, cx)
      with integer radius `ri`: the square `im[cy-ri:cy+ri, cx-ri:cx+ri]`
      under Python slicing, restricted to the disc. */
  function DiscSamples(g: Grid, cy: int, cx: int, ri: int): seq<int>
    requires Rect(g)
  {
    SquareSamples(g, Disc(ri), Start(cy - ri, |g|), Len(cy - ri, cy + ri, |g|),
                  Start(cx - ri, Width(g)), Len(cx - ri, cx + ri, Width(g)), ri, 0)
  }

  /** One extracted blob scored and moved to unpadded image coordinates. */
  function ScoreBlob(g: Grid, b: Blob, xOffset: int, yOffset: int, minR: real, maxR: real): (c: Candidate)
    requires Rect(g)
    ensures c.x == b.col + xOffset && c.y == b.row + yOffset
    ensures minR <= maxR ==> minR <= c.r <= maxR
    ensures Bytes(g) ==> 0.0 <= c.confidence <= 1.0
  {
    var r := Clip(b.s, minR, maxR);
    var samples := DiscSamples(g, b.row, b.col, Trunc(r));
    assert Bytes(g) ==> 0.0 <= Confidence(samples) <= 1.0 by {
      if Bytes(g) {
        ConfidenceBounds(samples);
      }
    }
    Candidate(b.col + xOffset, b.row + yOffset, r, Confidence(samples))
  }

  /** `_blob_detect` on one window: every blob scored, in extractor order. */
  function ScoreTile(g: Grid, blobs: seq<Blob>, xOffset: int, yOffset: int, minR: real, maxR: real): (cs: seq<Candidate>)
    requires Rect(g)
    ensures |cs| == |blobs|
    ensures Bytes(g) ==> forall k :: 0 <= k < |cs| ==> 0.0 <= cs[k].confidence <= 1.0
  {
    if blobs == [] then []
    else [ScoreBlob(g, blobs[0], xOffset, yOffset, minR, maxR)] + ScoreTile(g, blobs[1..], xOffset, yOffset, minR, maxR)
  }

  /** Candidate `j` of a window is blob `j` of that window, scored. */
  lemma {:induction false} ScoreTileAt(g: Grid, blobs: seq<Blob>, xOffset: int, yOffset: int, minR: real, maxR: real, j: nat)
    requires Rect(g) && j < |blobs|
    ensures ScoreTile(g, blobs, xOffset, yOffset, minR, maxR)[j] == ScoreBlob(g, blobs[j], xOffset, yOffset, minR, maxR)
  {
    if j > 0 {
      ScoreTileAt(g, blobs[1..], xOffset, yOffset, minR, maxR, j - 1);
      assert blobs[1..][j - 1] == blobs[j];
    }
  }

  // ---------------------------------------------------------------------
  // The disc itself, as a list of offsets from the centre

  /** Offsets `(dr, dc)` passing `keep`, with `dc` from `dc` up to `ri - 1`. */
  function OffsetRow(keep: (int, int) -> bool, dr: int, ri: int, dc: int): seq<(int, int)>
    decreases ri - dc
  {
    if dc >= ri then []
    else (if keep(dr, dc) then [(dr, dc)] else []) + OffsetRow(keep, dr, ri, dc + 1)
  }

  /** Offsets passing `keep`, row-major, with rows from `dr` up to `ri - 1`
      and columns from `-ri` up to `ri - 1`. */
  function OffsetRows(keep: (int, int) -> bool, ri: int, dr: int): seq<(int, int)>
    decreases ri - dr
  {
    if dr >= ri then [] else OffsetRow(keep, dr, ri, 0 - ri) + OffsetRows(keep, ri, dr + 1)
  }

  /** The offsets the source's square-and-test visits when the square is not
      cut by the window edge, in the order it visits them. */
  function DiscOffsets(ri: int): seq<(int, int)> {
    OffsetRows(Disc(ri), ri, 0 - ri)
  }

  lemma {:induction false} OffsetRowMembers(keep: (int, int) -> bool, dr: int, ri: int, dc: int, p: (int, int))
    ensures p in OffsetRow(keep, dr, ri, dc) ==> p.0 == dr && dc <= p.1 < ri && keep(dr, p.1)
    ensures p.0 == dr && dc <= p.1 < ri && keep(dr, p.1) ==> p in OffsetRow(keep, dr, ri, dc)
    decreases ri - dc
  {
    if dc < ri {
      OffsetRowMembers(keep, dr, ri, dc + 1, p);
    }
  }

  lemma {:induction false} OffsetRowsMembers(keep: (int, int) -> bool, ri: int, dr: int, p: (int, int))
    ensures p in OffsetRows(keep, ri, dr) ==> dr <= p.0 < ri && -ri <= p.1 < ri && keep(p.0, p.1)
    ensures dr <= p.0 < ri && -ri <= p.1 < ri && keep(p.0, p.1) ==> p in OffsetRows(keep, ri, dr)
  {
    OffsetRowsSound(keep, ri, dr, p);
    OffsetRowsComplete(keep, ri, dr, p);
  }

  lemma {:induction false} OffsetRowsSound(keep: (int, int) -> bool, ri: int, dr: int, p: (int, int))
    ensures p in OffsetRows(keep, ri, dr) ==> dr <= p.0 < ri && -ri <= p.1 < ri && keep(p.0, p.1)
    decreases ri - dr
  {
    if dr < ri {
      OffsetRowMembers(keep, dr, ri, 0 - ri, p);
      OffsetRowsSound(keep, ri, dr + 1, p);
    }
  }

  lemma {:induction false} OffsetRowsComplete(keep: (int, int) -> bool, ri: int, dr: int, p: (int, int))
    ensures dr <= p.0 < ri && -ri <= p.1 < ri && keep(p.0, p.1) ==> p in OffsetRows(keep, ri, dr)
    decreases ri - dr
  {
    if dr < ri {
      OffsetRowMembers(keep, dr, ri, 0 - ri, p);
      OffsetRowsComplete(keep, ri, dr + 1, p);
    }
  }

  /** The disc holds exactly the offsets in `[-ri, ri - 1]` squared whose
      squared length is at most `ri^2`: the half-open square of the slice
      leaves out the row and column at `+ri`. */
  lemma DiscOffsetsMembers(ri: int, dr: int, dc: int)
    ensures (dr, dc) in DiscOffsets(ri) <==> -ri <= dr < ri && -ri <= dc < ri && dr * dr + dc * dc <= ri * ri
  {
    OffsetRowsMembers(Disc(ri), ri, 0 - ri, (dr, dc));
    assert Disc(ri)(dr, dc) == InDisc(dr, dc, ri);
    SqIsSquare(dr);
    SqIsSquare(dc);
    SqIsSquare(ri);
  }

  /** The response values at the given offsets from (cy, cx), in order. */
  function Pick(g: Grid, cy: int, cx: int, offs: seq<(int, int)>): (s: seq<int>)
    ensures |s| == |offs|
  {
    if offs == [] then [] else [At(g, cy + offs[0].0, cx + offs[0].1)] + Pick(g, cy, cx, offs[1..])
  }

  lemma {:induction false} PickValues(g: Grid, cy: int, cx: int, offs: seq<(int, int)>)
    ensures forall k :: 0 <= k < |offs| ==> Pick(g, cy, cx, offs)[k] == At(g, cy + offs[k].0, cx + offs[k].1)
  {
    if offs != [] {
      PickValues(g, cy, cx, offs[1..]);
      forall k | 1 <= k < |offs|
        ensures Pick(g, cy, cx, offs)[k] == At(g, cy + offs[k].0, cx + offs[k].1)
      {
        assert offs[k] == offs[1..][k - 1];
      }
    }
  }

  lemma {:induction false} PickAppend(g: Grid, cy: int, cx: int, a: seq<(int, int)>, b: seq<(int, int)>)
    ensures Pick(g, cy, cx, a + b) == Pick(g, cy, cx, a) + Pick(g, cy, cx, b)
  {
    if a == [] {
      assert a + b == b;
    } else {
      assert (a + b)[1..] == a[1..] + b;
      PickAppend(g, cy, cx, a[1..], b);
    }
  }

  /** Inside the square, the source's in-square index test is the test on
      offsets from the centre. */
  lemma {:induction false} RowSamplesArePicked(g: Grid, keep: (int, int) -> bool, cy: int, cx: int, ri: int,
                                               row: int, startC: int, len: nat, dr: int, sc: nat)
    requires row == cy + dr && startC == cx - ri && len == 2 * ri && sc <= len
    ensures RowSamples(g, keep, row, startC, len, dr, ri, sc) == Pick(g, cy, cx, OffsetRow(keep, dr, ri, sc - ri))
    decreases len - sc
  {
    if sc < len {
      RowSamplesArePicked(g, keep, cy, cx, ri, row, startC, len, dr, sc + 1);
      RowStep(g, keep, cy, cx, ri, row, startC, len, dr, sc);
    } else {
      assert RowSamples(g, keep, row, startC, len, dr, ri, sc) == [];
      assert OffsetRow(keep, dr, ri, sc - ri) == [];
    }
  }

  /** One cell of a row read at its disc offset, then the rest. */
  lemma RowStep(g: Grid, keep: (int, int) -> bool, cy: int, cx: int, ri: int,
                row: int, startC: int, len: nat, dr: int, sc: nat)
    requires row == cy + dr && startC == cx - ri && len == 2 * ri && sc < len
    requires RowSamples(g, keep, row, startC, len, dr, ri, sc + 1) == Pick(g, cy, cx, OffsetRow(keep, dr, ri, sc + 1 - ri))
    ensures RowSamples(g, keep, row, startC, len, dr, ri, sc) == Pick(g, cy, cx, OffsetRow(keep, dr, ri, sc - ri))
  {
    var dc := sc - ri;
    var head := if keep(dr, dc) then [(dr, dc)] else [];
    var here := if keep(dr, dc) then [At(g, row, startC + sc)] else [];
    RowUnfold(g, keep, row, startC, len, dr, ri, sc);
    OffsetRowUnfold(keep, dr, ri, dc, sc + 1 - ri);
    PickHead(g, keep, cy, cx, row, startC + sc, dr, dc);
    Assemble(g, cy, cx, RowSamples(g, keep, row, startC, len, dr, ri, sc), here,
             RowSamples(g, keep, row, startC, len, dr, ri, sc + 1),
             head, OffsetRow(keep, dr, ri, sc + 1 - ri), OffsetRow(keep, dr, ri, dc));
  }

  /** One sample of a row, then the rest. */
  lemma RowUnfold(g: Grid, keep: (int, int) -> bool, row: int, startC: int, len: nat, dr: int, ri: int, sc: nat)
    requires sc < len
    ensures RowSamples(g, keep, row, startC, len, dr, ri, sc)
      == (if keep(dr, sc - ri) then [At(g, row, startC + sc)] else [])
         + RowSamples(g, keep, row, startC, len, dr, ri, sc + 1)
  {
  }

  lemma OffsetRowUnfold(keep: (int, int) -> bool, dr: int, ri: int, dc: int, next: int)
    requires dc < ri && next == dc + 1
    ensures OffsetRow(keep, dr, ri, dc) == (if keep(dr, dc) then [(dr, dc)] else []) + OffsetRow(keep, dr, ri, next)
  {
  }

  /** Picking the one offset of a row step reads the cell the source reads. */
  lemma PickHead(g: Grid, keep: (int, int) -> bool, cy: int, cx: int, row: int, col: int, dr: int, dc: int)
    requires row == cy + dr && col == cx + dc
    ensures Pick(g, cy, cx, if keep(dr, dc) then [(dr, dc)] else [])
              == if keep(dr, dc) then [At(g, row, col)] else []
  {
    if keep(dr, dc) {
      assert [(dr, dc)][1..] == [];
    }
  }

  lemma {:induction false} SquareSamplesArePicked(g: Grid, keep: (int, int) -> bool, cy: int, cx: int, ri: int,
                                                  startR: int, startC: int, len: nat, sr: nat)
    requires startR == cy - ri && startC == cx - ri && len == 2 * ri && sr <= len
    ensures SquareSamples(g, keep, startR, len, startC, len, ri, sr) == Pick(g, cy, cx, OffsetRows(keep, ri, sr - ri))
    decreases len - sr
  {
    if sr < len {
      SquareSamplesArePicked(g, keep, cy, cx, ri, startR, startC, len, sr + 1);
      SquareStep(g, keep, cy, cx, ri, startR, startC, len, sr);
    } else {
      assert SquareSamples(g, keep, startR, len, startC, len, ri, sr) == [];
      assert OffsetRows(keep, ri, sr - ri) == [];
    }
  }

  /** One row of the square read at the disc offsets of that row, then the
      rest. */
  lemma SquareStep(g: Grid, keep: (int, int) -> bool, cy: int, cx: int, ri: int,
                   startR: int, startC: int, len: nat, sr: nat)
    requires startR == cy - ri && startC == cx - ri && len == 2 * ri && sr < len
    requires SquareSamples(g, keep, startR, len, startC, len, ri, sr + 1) == Pick(g, cy, cx, OffsetRows(keep, ri, sr + 1 - ri))
    ensures SquareSamples(g, keep, startR, len, startC, len, ri, sr) == Pick(g, cy, cx, OffsetRows(keep, ri, sr - ri))
  {
    SquareUnfold(g, keep, startR, len, startC, len, ri, sr);
    OffsetRowsUnfold(keep, ri, sr - ri, sr + 1 - ri);
    RowSamplesArePicked(g, keep, cy, cx, ri, startR + sr, startC, len, sr - ri, 0);
    Assemble(g, cy, cx, SquareSamples(g, keep, startR, len, startC, len, ri, sr),
             RowSamples(g, keep, startR + sr, startC, len, sr - ri, ri, 0),
             SquareSamples(g, keep, startR, len, startC, len, ri, sr + 1),
             OffsetRow(keep, sr - ri, ri, 0 - ri), OffsetRows(keep, ri, sr + 1 - ri), OffsetRows(keep, ri, sr - ri));
  }

  lemma OffsetRowsUnfold(keep: (int, int) -> bool, ri: int, dr: int, next: int)
    requires dr < ri && next == dr + 1
    ensures OffsetRows(keep, ri, dr) == OffsetRow(keep, dr, ri, 0 - ri) + OffsetRows(keep, ri, next)
  {
  }

  /** One row of the square, then the rest. */
  lemma SquareUnfold(g: Grid, keep: (int, int) -> bool, startR: int, lenR: nat, startC: int, lenC: nat, ri: int, sr: nat)
    requires sr < lenR
    ensures SquareSamples(g, keep, startR, lenR, startC, lenC, ri, sr)
      == RowSamples(g, keep, startR + sr, startC, lenC, sr - ri, ri, 0)
         + SquareSamples(g, keep, startR, lenR, startC, lenC, ri, sr + 1)
  {
  }

  /** Samples that split like the offsets they pick. */
  lemma Assemble(g: Grid, cy: int, cx: int, whole: seq<int>, here: seq<int>, later: seq<int>,
                 row: seq<(int, int)>, rest: seq<(int, int)>, all: seq<(int, int)>)
    requires whole == here + later && all == row + rest
    requires here == Pick(g, cy, cx, row) && later == Pick(g, cy, cx, rest)
    ensures whole == Pick(g, cy, cx, all)
  {
    PickAppend(g, cy, cx, row, rest);
  }

  /** `v` is the response at offset `p` from (cy, cx), and that cell lies on
      the map. */
  predicate ReadsCell(g: Grid, cy: int, cx: int, p: (int, int), v: int) {
    0 <= cy + p.0 < |g| && 0 <= cx + p.1 < |g[cy + p.0]| && v == g[cy + p.0][cx + p.1]
  }

  /** When the square around the centre lies inside the response map, the
      source averages exactly the response values at the disc offsets, and
      every one of those lies on the map. */
  lemma DiscSamplesInside(g: Grid, cy: int, cx: int, ri: int)
    requires Rect(g) && 0 <= ri <= cy && cy + ri <= |g| && ri <= cx && cx + ri <= Width(g)
    ensures DiscSamples(g, cy, cx, ri) == Pick(g, cy, cx, DiscOffsets(ri))
    ensures forall k :: 0 <= k < |DiscOffsets(ri)| ==>
      ReadsCell(g, cy, cx, DiscOffsets(ri)[k], DiscSamples(g, cy, cx, ri)[k])
  {
    var s := DiscSamples(g, cy, cx, ri);
    var sq := SquareSamples(g, Disc(ri), cy - ri, 2 * ri, cx - ri, 2 * ri, ri, 0);
    SquareInside(g, cy, cx, ri);
    assert s == sq;
    SquareSamplesArePicked(g, Disc(ri), cy, cx, ri, cy - ri, cx - ri, 2 * ri, 0);
    assert sq == Pick(g, cy, cx, OffsetRows(Disc(ri), ri, 0 - ri));
    assert OffsetRows(Disc(ri), ri, 0 - ri) == DiscOffsets(ri);
    PicksOnMap(g, cy, cx, ri, DiscOffsets(ri), s);
  }

  /** Picking at disc offsets around a centre whose square lies inside the
      map reads cells on the map. */
  lemma PicksOnMap(g: Grid, cy: int, cx: int, ri: int, offs: seq<(int, int)>, s: seq<int>)
    requires Rect(g) && 0 <= ri <= cy && cy + ri <= |g| && ri <= cx && cx + ri <= Width(g)
    requires offs == DiscOffsets(ri) && s == Pick(g, cy, cx, offs)
    ensures forall k :: 0 <= k < |offs| ==> ReadsCell(g, cy, cx, offs[k], s[k])
  {
    PickValues(g, cy, cx, offs);
    forall k | 0 <= k < |offs|
      ensures ReadsCell(g, cy, cx, offs[k], s[k])
    {
      assert offs[k] in offs;
      OffsetInSquare(ri, offs[k]);
      assert s[k] == At(g, cy + offs[k].0, cx + offs[k].1);
    }
  }

  /** Every disc offset lies in the half-open square `[-ri, ri)` squared. */
  lemma OffsetInSquare(ri: int, p: (int, int))
    requires p in DiscOffsets(ri)
    ensures -ri <= p.0 < ri && -ri <= p.1 < ri
  {
    OffsetRowsMembers(Disc(ri), ri, 0 - ri, p);
  }

  /** Neither slice of the square is cut when it lies inside the map. */
  lemma SquareInside(g: Grid, cy: int, cx: int, ri: int)
    requires Rect(g) && 0 <= ri <= cy && cy + ri <= |g| && ri <= cx && cx + ri <= Width(g)
    ensures DiscSamples(g, cy, cx, ri) == SquareSamples(g, Disc(ri), cy - ri, 2 * ri, cx - ri, 2 * ri, ri, 0)
  {
    assert Start(cy - ri, |g|) == cy - ri;
    assert Len(cy - ri, cy + ri, |g|) == 2 * ri;
    assert Start(cx - ri, Width(g)) == cx - ri;
    assert Len(cx - ri, cx + ri, Width(g)) == 2 * ri;
  }

  /** A centre closer to the top edge than its radius makes the row slice
      start negative; Python counts that from the bottom edge, the slice
      comes out empty, and the blob scores 0 whatever the response is. */
  lemma TopEdgeWraps(g: Grid, cy: int, cx: int, ri: int)
    requires Rect(g) && 0 <= cy < ri && 2 * ri <= |g|
    ensures DiscSamples(g, cy, cx, ri) == []
    ensures Confidence(DiscSamples(g, cy, cx, ri)) == 0.0
  {
    assert Len(cy - ri, cy + ri, |g|) == 0;
  }
}
