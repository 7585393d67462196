/** The overlap cases the feature tests check, on the tests' two convex
    masks: a 4 by 4 mask of 10 pixels and a 9 by 9 mask of 55 pixels.

    Each test's features are built from a mask parameter, so the facts
    about their boxes and placements hold for any mask; only the pixel
    counts read the masks themselves, one small count per lemma. */
module FeatureExamples {
  import opened Wrappers
  import opened Features

  // ---------------------------------------------------------------------
  // The tests' masks

  /** The 4 by 4 convex mask, 10 pixels. */
  const Small: Mask := [
    [false, false, true, false],
    [false, true, true, true],
    [true, true, true, true],
    [false, true, true, false]
  ]

  /** The 9 by 9 convex mask, 55 pixels, one row at a time. */
  const Large0: seq<bool> := [false, false, true, true, true, false, false, false, false]
  const Large1: seq<bool> := [false, true, true, true, true, true, true, false, false]
  const Large2: seq<bool> := [true, true, true, true, true, true, true, true, false]
  const Large3: seq<bool> := [true, true, true, true, true, true, true, true, true]
  const Large4: seq<bool> := [true, true, true, true, true, true, true, true, false]
  const Large5: seq<bool> := [true, true, true, true, true, true, true, true, false]
  const Large6: seq<bool> := [false, true, true, true, true, true, true, true, false]
  const Large7: seq<bool> := [false, false, true, true, true, true, true, false, false]
  const Large8: seq<bool> := [false, false, false, true, false, false, false, false, false]
  const Large: Mask := [Large0, Large1, Large2, Large3, Large4, Large5, Large6, Large7, Large8]

  lemma SmallPixels()
    ensures MaskPixels(Small, 0) == 10
  {
  }

  lemma LargePixels()
    ensures MaskPixels(Large, 0) == 55
  {
    assert MaskPixels(Large, 9) == 0;
    assert MaskPixels(Large, 8) == 1;
    assert MaskPixels(Large, 7) == 6;
    assert MaskPixels(Large, 6) == 13;
    assert MaskPixels(Large, 5) == 21;
    assert MaskPixels(Large, 4) == 29;
    assert MaskPixels(Large, 3) == 38;
    assert MaskPixels(Large, 2) == 46;
    assert MaskPixels(Large, 1) == 52;
  }

  lemma SmallExact(top: int, left: int)
    ensures Exact(Placement(Small, top, left, 4, 4))
  {
  }

  lemma LargeExact()
    ensures Exact(Placement(Large, 0, 0, 9, 9))
  {
  }

  // ---------------------------------------------------------------------
  // The tests' features

  /** `Feature(pos, bbox, regionprops)` with a region carrying mask `m`. */
  function WithMask(pos: (int, int), bbox: (int, int, int, int), m: Mask): Feature {
    NewFeature(pos, bbox, Some(Region(Some(m))))
  }

  /** The tests' features: centroid and box as in the tests' set-up. */
  function Feature1(m: Mask): Feature { WithMask((2, 2), (0, 0, 4, 4), m) }
  function Feature1Larger(m: Mask): Feature { WithMask((5, 5), (0, 0, 9, 9), m) }
  function Feature2(m: Mask): Feature { WithMask((4, 2), (2, 0, 6, 4), m) }
  function Feature3(m: Mask): Feature { WithMask((5, 2), (3, 0, 7, 4), m) }
  function Feature4(m: Mask): Feature { WithMask((22, 22), (20, 20, 25, 25), m) }
  function Feature5(m: Mask): Feature { WithMask((2, 2), (0, 7, 4, 11), m) }

  /** Both modes of `overlap` from their parts, for overlapping boxes. */
  lemma OverlapOfParts(a: Feature, b: Feature, ma: Mask, mb: Mask, both: nat, area1: nat, area2: nat)
    requires !Apart(a, b) && Masks(a, b) == Success((ma, mb))
    requires PixelCounts(a, b, ma, mb) == Success((both, area1, area2))
    ensures both <= area1 && both <= area2
    ensures OverlapOf(a, b, true) == Success(Overlap(BoxShare(a, b).0, None, BoxShare(a, b).1, None))
    ensures OverlapOf(a, b, false) ==
      Success(Overlap(BoxShare(a, b).0, Some(both), BoxShare(a, b).1, Some(PixelShare(both, area1, area2))))
  {
  }

  // ---------------------------------------------------------------------
  // `test_overlap_total`

  lemma TotalShared()
    ensures SharedRows(Placement(Large, 0, 0, 9, 9), Placement(Small, 0, 0, 4, 4), 0, 9) == 10
  {
    TotalSharedBelow();
  }

  lemma TotalSharedBelow()
    ensures SharedRows(Placement(Large, 0, 0, 9, 9), Placement(Small, 0, 0, 4, 4), 2, 9) == 6
  {
    assert SharedRows(Placement(Large, 0, 0, 9, 9), Placement(Small, 0, 0, 4, 4), 4, 9) == 0;
  }

  lemma TotalPlaced(s: Mask, l: Mask)
    ensures PlaceIn(Feature1Larger(l), Feature1(s), l) == Placement(l, 0, 0, 9, 9)
    ensures PlaceIn(Feature1(s), Feature1Larger(l), s) == Placement(s, 0, 0, 4, 4)
    ensures Max(Feature1Larger(l).br2, Feature1(s).br2) - Min(Feature1Larger(l).br1, Feature1(s).br1) == 9
  {
  }

  lemma TotalCounts(s: Mask, l: Mask)
    requires s == Small && l == Large
    ensures PixelCounts(Feature1Larger(l), Feature1(s), l, s) == Success((10, 55, 10))
  {
    TotalPlaced(s, l);
    SmallExact(0, 0);
    LargeExact();
    PixelCountsByMasks(Feature1Larger(l), Feature1(s), l, s);
    TotalShared();
    SmallPixels();
    LargePixels();
  }

  lemma TotalBoxes(s: Mask, l: Mask)
    ensures !Apart(Feature1Larger(l), Feature1(s)) && BoxShare(Feature1Larger(l), Feature1(s)) == (16, 1.0)
    ensures Masks(Feature1Larger(l), Feature1(s)) == Success((l, s))
  {
    assert Meet(Feature1Larger(l), Feature1(s)) == (0, 0, 4, 4);
    assert !IsMeet(Feature1Larger(l), Feature1(s)) && IsMeet(Feature1(s), Feature1Larger(l));
  }

  lemma TotalForward(s: Mask, l: Mask)
    requires PixelCounts(Feature1Larger(l), Feature1(s), l, s) == Success((10, 55, 10))
    ensures OverlapOf(Feature1Larger(l), Feature1(s), true) == Success(Overlap(16, None, 1.0, None))
    ensures OverlapOf(Feature1Larger(l), Feature1(s), false) == Success(Overlap(16, Some(10), 1.0, Some(1.0)))
  {
    TotalBoxes(s, l);
    OverlapOfParts(Feature1Larger(l), Feature1(s), l, s, 10, 55, 10);
  }

  /** `test_overlap_total`: the small feature's box lies inside the larger
      one's and every pixel of its mask is set in the larger mask, so both
      shares are 1. */
  lemma OverlapTotal(s: Mask, l: Mask)
    requires s == Small && l == Large
    ensures OverlapOf(Feature1Larger(l), Feature1(s), true) == Success(Overlap(16, None, 1.0, None))
    ensures OverlapOf(Feature1(s), Feature1Larger(l), true) == Success(Overlap(16, None, 1.0, None))
    ensures OverlapOf(Feature1Larger(l), Feature1(s), false) == Success(Overlap(16, Some(10), 1.0, Some(1.0)))
    ensures OverlapOf(Feature1(s), Feature1Larger(l), false) == Success(Overlap(16, Some(10), 1.0, Some(1.0)))
  {
    TotalCounts(s, l);
    TotalForward(s, l);
    OverlapSymmetric(Feature1Larger(l), Feature1(s), false);
    OverlapSymmetric(Feature1Larger(l), Feature1(s), true);
  }

  // ---------------------------------------------------------------------
  // `test_overlap_half`

  lemma HalfShared()
    ensures SharedRows(Placement(Small, 0, 0, 4, 4), Placement(Small, 2, 0, 4, 4), 0, 6) == 3
  {
  }

  lemma HalfPlaced(m: Mask)
    ensures PlaceIn(Feature1(m), Feature2(m), m) == Placement(m, 0, 0, 4, 4)
    ensures PlaceIn(Feature2(m), Feature1(m), m) == Placement(m, 2, 0, 4, 4)
    ensures Max(Feature1(m).br2, Feature2(m).br2) - Min(Feature1(m).br1, Feature2(m).br1) == 6
  {
  }

  lemma HalfCounts(m: Mask)
    requires m == Small
    ensures PixelCounts(Feature1(m), Feature2(m), m, m) == Success((3, 10, 10))
  {
    HalfPlaced(m);
    SmallExact(0, 0);
    SmallExact(2, 0);
    PixelCountsByMasks(Feature1(m), Feature2(m), m, m);
    HalfShared();
    SmallPixels();
  }

  lemma HalfBoxes(m: Mask)
    ensures !Apart(Feature1(m), Feature2(m)) && BoxShare(Feature1(m), Feature2(m)) == (8, 1.0 / 3.0)
    ensures Masks(Feature1(m), Feature2(m)) == Success((m, m))
  {
    assert Meet(Feature1(m), Feature2(m)) == (2, 0, 4, 4);
    assert !IsMeet(Feature1(m), Feature2(m)) && !IsMeet(Feature2(m), Feature1(m));
  }

  lemma HalfForward(m: Mask)
    requires PixelCounts(Feature1(m), Feature2(m), m, m) == Success((3, 10, 10))
    ensures OverlapOf(Feature1(m), Feature2(m), true) == Success(Overlap(8, None, 1.0 / 3.0, None))
    ensures OverlapOf(Feature1(m), Feature2(m), false) == Success(Overlap(8, Some(3), 1.0 / 3.0, Some(3.0 / 17.0)))
  {
    HalfBoxes(m);
    assert PixelShare(3, 10, 10) == 3.0 / 17.0;
    OverlapOfParts(Feature1(m), Feature2(m), m, m, 3, 10, 10);
  }

  /** `test_overlap_half`: the second feature is the first moved down by
      two rows; 8 shared box pixels of 24 and 3 shared mask pixels of 17, in
      either order. */
  lemma OverlapHalf(m: Mask)
    requires m == Small
    ensures OverlapOf(Feature1(m), Feature2(m), true) == Success(Overlap(8, None, 1.0 / 3.0, None))
    ensures OverlapOf(Feature2(m), Feature1(m), true) == Success(Overlap(8, None, 1.0 / 3.0, None))
    ensures OverlapOf(Feature1(m), Feature2(m), false) == Success(Overlap(8, Some(3), 1.0 / 3.0, Some(3.0 / 17.0)))
    ensures OverlapOf(Feature2(m), Feature1(m), false) == Success(Overlap(8, Some(3), 1.0 / 3.0, Some(3.0 / 17.0)))
  {
    HalfCounts(m);
    HalfForward(m);
    OverlapSymmetric(Feature1(m), Feature2(m), false);
    OverlapSymmetric(Feature1(m), Feature2(m), true);
  }

  // ---------------------------------------------------------------------
  // `test_overlap_quarter`

  lemma QuarterShared()
    ensures SharedRows(Placement(Small, 0, 0, 4, 4), Placement(Small, 3, 0, 4, 4), 0, 7) == 1
  {
  }

  lemma QuarterPlaced(m: Mask)
    ensures PlaceIn(Feature1(m), Feature3(m), m) == Placement(m, 0, 0, 4, 4)
    ensures PlaceIn(Feature3(m), Feature1(m), m) == Placement(m, 3, 0, 4, 4)
    ensures Max(Feature1(m).br2, Feature3(m).br2) - Min(Feature1(m).br1, Feature3(m).br1) == 7
  {
  }

  lemma QuarterCounts(m: Mask)
    requires m == Small
    ensures PixelCounts(Feature1(m), Feature3(m), m, m) == Success((1, 10, 10))
  {
    QuarterPlaced(m);
    SmallExact(0, 0);
    SmallExact(3, 0);
    PixelCountsByMasks(Feature1(m), Feature3(m), m, m);
    QuarterShared();
    SmallPixels();
  }

  lemma QuarterBoxes(m: Mask)
    ensures !Apart(Feature1(m), Feature3(m)) && BoxShare(Feature1(m), Feature3(m)) == (4, 1.0 / 7.0)
    ensures Masks(Feature1(m), Feature3(m)) == Success((m, m))
  {
    assert Meet(Feature1(m), Feature3(m)) == (3, 0, 4, 4);
    assert !IsMeet(Feature1(m), Feature3(m)) && !IsMeet(Feature3(m), Feature1(m));
  }

  lemma QuarterForward(m: Mask)
    requires PixelCounts(Feature1(m), Feature3(m), m, m) == Success((1, 10, 10))
    ensures OverlapOf(Feature1(m), Feature3(m), true) == Success(Overlap(4, None, 1.0 / 7.0, None))
    ensures OverlapOf(Feature1(m), Feature3(m), false) == Success(Overlap(4, Some(1), 1.0 / 7.0, Some(1.0 / 19.0)))
  {
    QuarterBoxes(m);
    assert PixelShare(1, 10, 10) == 1.0 / 19.0;
    OverlapOfParts(Feature1(m), Feature3(m), m, m, 1, 10, 10);
  }

  /** `test_overlap_quarter`: the third feature is the first moved down by
      three rows; 4 shared box pixels of 28, 1 shared mask pixel of 19. */
  lemma OverlapQuarter(m: Mask)
    requires m == Small
    ensures OverlapOf(Feature3(m), Feature1(m), true) == Success(Overlap(4, None, 1.0 / 7.0, None))
    ensures OverlapOf(Feature1(m), Feature3(m), true) == Success(Overlap(4, None, 1.0 / 7.0, None))
    ensures OverlapOf(Feature3(m), Feature1(m), false) == Success(Overlap(4, Some(1), 1.0 / 7.0, Some(1.0 / 19.0)))
    ensures OverlapOf(Feature1(m), Feature3(m), false) == Success(Overlap(4, Some(1), 1.0 / 7.0, Some(1.0 / 19.0)))
  {
    QuarterCounts(m);
    QuarterForward(m);
    OverlapSymmetric(Feature1(m), Feature3(m), false);
    OverlapSymmetric(Feature1(m), Feature3(m), true);
  }

  // ---------------------------------------------------------------------
  // `test_overlap_different_size`

  lemma SideShared()
    ensures SharedRows(Placement(Small, 0, 7, 4, 4), Placement(Large, 0, 0, 9, 9), 0, 9) == 2
  {
  }

  lemma SidePlaced(s: Mask, l: Mask)
    ensures PlaceIn(Feature5(s), Feature1Larger(l), s) == Placement(s, 0, 7, 4, 4)
    ensures PlaceIn(Feature1Larger(l), Feature5(s), l) == Placement(l, 0, 0, 9, 9)
    ensures Max(Feature5(s).br2, Feature1Larger(l).br2) - Min(Feature5(s).br1, Feature1Larger(l).br1) == 9
  {
  }

  lemma SideCounts(s: Mask, l: Mask)
    requires s == Small && l == Large
    ensures PixelCounts(Feature5(s), Feature1Larger(l), s, l) == Success((2, 10, 55))
  {
    SidePlaced(s, l);
    SmallExact(0, 7);
    LargeExact();
    PixelCountsByMasks(Feature5(s), Feature1Larger(l), s, l);
    SideShared();
    SmallPixels();
    LargePixels();
  }

  lemma SideBoxes(s: Mask, l: Mask)
    ensures !Apart(Feature5(s), Feature1Larger(l)) && BoxShare(Feature5(s), Feature1Larger(l)) == (8, 8.0 / 89.0)
    ensures Masks(Feature5(s), Feature1Larger(l)) == Success((s, l))
  {
    assert Meet(Feature5(s), Feature1Larger(l)) == (0, 7, 4, 9);
    assert !IsMeet(Feature5(s), Feature1Larger(l)) && !IsMeet(Feature1Larger(l), Feature5(s));
  }

  lemma SideForward(s: Mask, l: Mask)
    requires PixelCounts(Feature5(s), Feature1Larger(l), s, l) == Success((2, 10, 55))
    ensures OverlapOf(Feature5(s), Feature1Larger(l), true) == Success(Overlap(8, None, 8.0 / 89.0, None))
    ensures OverlapOf(Feature5(s), Feature1Larger(l), false) == Success(Overlap(8, Some(2), 8.0 / 89.0, Some(2.0 / 63.0)))
  {
    SideBoxes(s, l);
    assert PixelShare(2, 10, 55) == 2.0 / 63.0;
    OverlapOfParts(Feature5(s), Feature1Larger(l), s, l, 2, 10, 55);
  }

  /** `test_overlap_different_size`: the fifth feature sits seven columns to
      the right and overlaps the larger one's last two columns; 8 shared box
      pixels of 89 and 2 shared mask pixels of 63 (the test compares the
      latter with the double nearest 2/63). */
  lemma OverlapDifferentSize(s: Mask, l: Mask)
    requires s == Small && l == Large
    ensures OverlapOf(Feature5(s), Feature1Larger(l), true) == Success(Overlap(8, None, 8.0 / 89.0, None))
    ensures OverlapOf(Feature1Larger(l), Feature5(s), true) == Success(Overlap(8, None, 8.0 / 89.0, None))
    ensures OverlapOf(Feature5(s), Feature1Larger(l), false) == Success(Overlap(8, Some(2), 8.0 / 89.0, Some(2.0 / 63.0)))
    ensures OverlapOf(Feature1Larger(l), Feature5(s), false) == Success(Overlap(8, Some(2), 8.0 / 89.0, Some(2.0 / 63.0)))
  {
    SideCounts(s, l);
    SideForward(s, l);
    OverlapSymmetric(Feature5(s), Feature1Larger(l), false);
    OverlapSymmetric(Feature5(s), Feature1Larger(l), true);
  }

  // ---------------------------------------------------------------------
  // `test_overlap_none`

  /** `test_overlap_none`: boxes far apart give all zeros, in either order. */
  lemma OverlapNone(m: Mask)
    ensures OverlapOf(Feature1(m), Feature4(m), false) == Success(Overlap(0, Some(0), 0.0, Some(0.0)))
    ensures OverlapOf(Feature4(m), Feature1(m), false) == Success(Overlap(0, Some(0), 0.0, Some(0.0)))
  {
  }
}
