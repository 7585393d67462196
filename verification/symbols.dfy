/** The rectangle helpers of the image view's symbols: a rectangle with its
    corners ordered at construction, kept inside the scene by `move`, with
    its lower-right corner clamped by `resize`, and the two overlap tests.
    The exclusion box is the same rectangle with a floor of 12 on its
    resize target and its size setters. */
module Symbols {

  /** A scene bound: `math.inf` by default, or a finite maximum. */
  datatype Limit = Unbounded | AtMost(n: int)

  /** `t` is at or beyond the bound. */
  predicate AtOrPast(t: int, lim: Limit) {
    lim.AtMost? && t >= lim.n
  }

  /** `t` is beyond the bound. */
  predicate Past(t: int, lim: Limit) {
    lim.AtMost? && t > lim.n
  }

  /** `t` does not exceed the bound. */
  predicate Within(t: int, lim: Limit) {
    lim.Unbounded? || t <= lim.n
  }

  datatype Rect = Rect(x1: int, y1: int, x2: int, y2: int, maxX: Limit, maxY: Limit)

  function Min(a: int, b: int): int { if a <= b then a else b }
  function Max(a: int, b: int): int { if a >= b then a else b }

  function Width(r: Rect): int { r.x2 - r.x1 }
  function Height(r: Rect): int { r.y2 - r.y1 }
  function Area(r: Rect): int { Width(r) * Height(r) }

  /** The corners are ordered. */
  predicate Ordered(r: Rect) {
    r.x1 <= r.x2 && r.y1 <= r.y2
  }

  /** The rectangle lies in the scene, as `move`'s documentation promises. */
  predicate Inside(r: Rect) {
    0 <= r.x1 <= r.x2 && Within(r.x2, r.maxX) && 0 <= r.y1 <= r.y2 && Within(r.y2, r.maxY)
  }

  /** `DisplotSymbolRect(x1, y1, x2, y2, max_x, max_y)`: whatever corners are
      given, the stored ones are the lower and the upper of each pair. */
  function NewRect(x1: int, y1: int, x2: int, y2: int, maxX: Limit, maxY: Limit): (r: Rect)
    ensures Ordered(r) && Width(r) >= 0 && Height(r) >= 0 && Area(r) >= 0
    ensures {r.x1, r.x2} == {x1, x2} && {r.y1, r.y2} == {y1, y2}
    ensures r.maxX == maxX && r.maxY == maxY
  {
    var r := Rect(Min(x1, x2), Min(y1, y2), Max(x1, x2), Max(y1, y2), maxX, maxY);
    assert Width(r) * Height(r) >= 0 by {
      NonNegProduct(Width(r), Height(r));
    }
    r
  }

  lemma NonNegProduct(a: int, b: int)
    requires a >= 0 && b >= 0
    ensures a * b >= 0
  {
  }

  /** The `width` setter: the right edge moves, the left one stays. */
  function SetWidth(r: Rect, w: int): (s: Rect)
    ensures Width(s) == w && s.x1 == r.x1 && s.(x2 := r.x2) == r
  {
    r.(x2 := r.x1 + w)
  }

  /** The `height` setter. */
  function SetHeight(r: Rect, h: int): (s: Rect)
    ensures Height(s) == h && s.y1 == r.y1 && s.(y2 := r.y2) == r
  {
    r.(y2 := r.y1 + h)
  }

  // ---------------------------------------------------------------------
  // move

  /** One axis of `move`: the target `t` for the low edge, the current edges
      and the bound. In the middle branch the width read after the high edge
      has changed is the old width again, in the far branch it is not: the
      high edge goes to the bound and the low edge is recomputed from the
      new width, which gives back the old low edge. */
  function MoveAxis(lo: int, hi: int, t: int, lim: Limit): (e: (int, int))
    ensures t < 0 ==> e.0 == 0 && e.1 - e.0 == hi - lo
    ensures 0 <= t && !Past(t + (hi - lo), lim) ==> e.0 == t && e.1 - e.0 == hi - lo
    ensures 0 <= t && Past(t + (hi - lo), lim) ==> e.0 == lo && e.1 == lim.n
  {
    var width := hi - lo;
    if t < 0 then
      var hi' := width;
      (0, hi')
    else if lim.AtMost? && t > lim.n - width then
      var hi' := lim.n;
      var width' := hi' - lo;
      (lim.n - width', hi')
    else
      var hi' := t + width;
      (t, hi')
  }

  /** `move(x1, y1)`. */
  function Move(r: Rect, x: int, y: int): (s: Rect)
    ensures s.maxX == r.maxX && s.maxY == r.maxY
    ensures (s.x1, s.x2) == MoveAxis(r.x1, r.x2, x, r.maxX)
    ensures (s.y1, s.y2) == MoveAxis(r.y1, r.y2, y, r.maxY)
  {
    var (x1, x2) := MoveAxis(r.x1, r.x2, x, r.maxX);
    var (y1, y2) := MoveAxis(r.y1, r.y2, y, r.maxY);
    r.(x1 := x1, x2 := x2, y1 := y1, y2 := y2)
  }

  lemma MoveAxisInside(lo: int, hi: int, t: int, lim: Limit)
    requires 0 <= lo <= hi && Within(hi, lim)
    ensures var e := MoveAxis(lo, hi, t, lim);
      0 <= e.0 <= e.1 && Within(e.1, lim)
  {
  }

  /** A rectangle inside the scene stays inside it, wherever it is moved. */
  lemma MoveInside(r: Rect, x: int, y: int)
    requires Inside(r)
    ensures Inside(Move(r, x, y))
  {
    MoveAxisInside(r.x1, r.x2, x, r.maxX);
    MoveAxisInside(r.y1, r.y2, y, r.maxY);
  }

  /** A target that leaves room for the width translates the rectangle and
      keeps its size; a negative target snaps the edge to 0 and keeps its
      size too. */
  lemma MoveTranslates(r: Rect, x: int, y: int)
    requires Within(x + Width(r), r.maxX) && Within(y + Height(r), r.maxY)
    ensures var s := Move(r, x, y);
      && s.x1 == Max(x, 0) && s.y1 == Max(y, 0)
      && Width(s) == Width(r) && Height(s) == Height(r)
  {
  }

  /** A target past the room left by the width pins the right edge to the
      bound and leaves the left edge where it was, so the width changes
      unless the right edge was already on the bound. */
  lemma MovePastBound(r: Rect, x: int)
    requires x >= 0 && r.maxX.AtMost? && x + Width(r) > r.maxX.n
    ensures Move(r, x, r.y1).x1 == r.x1 && Move(r, x, r.y1).x2 == r.maxX.n
    ensures Width(Move(r, x, r.y1)) == Width(r) <==> r.x2 == r.maxX.n
  {
  }

  /** For a rectangle inside the scene, moving twice to the same target is
      moving once. */
  lemma MoveIdempotent(r: Rect, x: int, y: int)
    requires Inside(r)
    ensures Move(Move(r, x, y), x, y) == Move(r, x, y)
  {
    MoveAxisIdempotent(r.x1, r.x2, x, r.maxX);
    MoveAxisIdempotent(r.y1, r.y2, y, r.maxY);
  }

  lemma MoveAxisIdempotent(lo: int, hi: int, t: int, lim: Limit)
    requires lo <= hi && Within(hi, lim)
    ensures var e := MoveAxis(lo, hi, t, lim);
      MoveAxis(e.0, e.1, t, lim) == e
  {
  }

  // ---------------------------------------------------------------------
  // resize

  /** One axis of `resize`: the requested high edge is raised to the low
      edge, or lowered to the bound once it reaches it. */
  function ResizeAxis(lo: int, t: int, lim: Limit): (hi: int)
    ensures t < lo ==> hi == lo
    ensures lo <= t && AtOrPast(t, lim) ==> hi == lim.n
    ensures lo <= t && !AtOrPast(t, lim) ==> hi == t
  {
    if t - lo < 0 then lo
    else if AtOrPast(t, lim) then lim.n
    else t
  }

  /** `resize(x2, y2)`: the upper-left corner never moves. */
  function Resize(r: Rect, x: int, y: int): (s: Rect)
    ensures s.x1 == r.x1 && s.y1 == r.y1 && s.maxX == r.maxX && s.maxY == r.maxY
    ensures s.x2 == ResizeAxis(r.x1, x, r.maxX) && s.y2 == ResizeAxis(r.y1, y, r.maxY)
  {
    r.(x2 := ResizeAxis(r.x1, x, r.maxX), y2 := ResizeAxis(r.y1, y, r.maxY))
  }

  /** A rectangle inside the scene stays inside it, whatever the request,
      and resizing again with the same request changes nothing. */
  lemma ResizeInside(r: Rect, x: int, y: int)
    requires Inside(r)
    ensures Inside(Resize(r, x, y))
    ensures Resize(Resize(r, x, y), x, y) == Resize(r, x, y)
  {
  }

  // ---------------------------------------------------------------------
  // Overlap tests

  /** Closed-box containment of a point. */
  predicate Holds(x: int, y: int, x1: int, y1: int, x2: int, y2: int) {
    x1 <= x <= x2 && y1 <= y <= y2
  }

  /** `overlapsPoint(x, y)`: the point is on or inside the rectangle. */
  predicate OverlapsPoint(r: Rect, x: int, y: int) {
    Holds(x, y, r.x1, r.y1, r.x2, r.y2)
  }

  /** `overlapsRect(x1, y1, x2, y2)` as written: the intersection corners
      differ by at least 1 the wrong way round on some axis. */
  function OverlapsRect(r: Rect, x1: int, y1: int, x2: int, y2: int): (b: bool)
    ensures b <==> Max(x1, r.x1) > Min(x2, r.x2) || Max(y1, r.y1) > Min(y2, r.y2)
  {
    var ix1, iy1 := Max(x1, r.x1), Max(y1, r.y1);
    var ix2, iy2 := Min(x2, r.x2), Min(y2, r.y2);
    ix1 - ix2 >= 1 || iy1 - iy2 >= 1
  }

  /** Some point lies in both closed boxes. */
  ghost predicate SharePoint(r: Rect, x1: int, y1: int, x2: int, y2: int) {
    exists x, y :: OverlapsPoint(r, x, y) && Holds(x, y, x1, y1, x2, y2)
  }

  lemma SharePointIff(r: Rect, x1: int, y1: int, x2: int, y2: int)
    ensures SharePoint(r, x1, y1, x2, y2)
      <==> Max(x1, r.x1) <= Min(x2, r.x2) && Max(y1, r.y1) <= Min(y2, r.y2)
  {
    if Max(x1, r.x1) <= Min(x2, r.x2) && Max(y1, r.y1) <= Min(y2, r.y2) {
      var x, y := Max(x1, r.x1), Max(y1, r.y1);
      assert OverlapsPoint(r, x, y) && Holds(x, y, x1, y1, x2, y2);
    }
  }

  /** As written, `overlapsRect` answers the opposite question to the one
      it documents: it is true exactly when no point is shared. */
  lemma OverlapsRectSeparated(r: Rect, x1: int, y1: int, x2: int, y2: int)
    ensures OverlapsRect(r, x1, y1, x2, y2) <==> !SharePoint(r, x1, y1, x2, y2)
  {
    SharePointIff(r, x1, y1, x2, y2);
  }

  /** A rectangle with ordered corners does not overlap itself, according
      to `overlapsRect` as written. */
  lemma OverlapsRectNotSelf(r: Rect)
    requires Ordered(r)
    ensures !OverlapsRect(r, r.x1, r.y1, r.x2, r.y2)
  {
  }

  /** The documented test: some point of the tested box is on or inside the
      rectangle. */
  function OverlapsRectIntended(r: Rect, x1: int, y1: int, x2: int, y2: int): (b: bool)
    ensures b <==> SharePoint(r, x1, y1, x2, y2)
  {
    SharePointIff(r, x1, y1, x2, y2);
    !OverlapsRect(r, x1, y1, x2, y2)
  }

  /** The documented test finds that a rectangle with ordered corners
      overlaps itself. */
  lemma OverlapsRectIntendedSelf(r: Rect)
    requires Ordered(r)
    ensures OverlapsRectIntended(r, r.x1, r.y1, r.x2, r.y2)
  {
    assert OverlapsPoint(r, r.x1, r.y1) && Holds(r.x1, r.y1, r.x1, r.y1, r.x2, r.y2);
  }

  // ---------------------------------------------------------------------
  // Exclusion box

  /** `resizeBoxWidth`: the side of the resize handle. */
  const HandleSide: int := 12

  /** The exclusion box's `width` setter: never narrower than the handle. */
  function ExclusionSetWidth(r: Rect, w: int): (s: Rect)
    ensures Width(s) >= HandleSide && Width(s) == Max(w, HandleSide)
    ensures s.x1 == r.x1 && s.(x2 := r.x2) == r
  {
    r.(x2 := r.x1 + (if w < HandleSide then HandleSide else w))
  }

  /** The exclusion box's `height` setter. */
  function ExclusionSetHeight(r: Rect, h: int): (s: Rect)
    ensures Height(s) >= HandleSide && Height(s) == Max(h, HandleSide)
    ensures s.y1 == r.y1 && s.(y2 := r.y2) == r
  {
    r.(y2 := r.y1 + (if h < HandleSide then HandleSide else h))
  }

  /** At or above the handle side the setters agree with the plain ones. */
  lemma ExclusionSettersAgree(r: Rect, w: int, h: int)
    requires w >= HandleSide && h >= HandleSide
    ensures ExclusionSetWidth(r, w) == SetWidth(r, w)
    ensures ExclusionSetHeight(r, h) == SetHeight(r, h)
  {
  }

  /** The exclusion box's `resize`: requested coordinates below 12 are
      raised to 12 (an absolute coordinate, not a size) before the plain
      clamping. */
  function ExclusionResize(r: Rect, x: int, y: int): (s: Rect)
    ensures s == Resize(r, Max(x, HandleSide), Max(y, HandleSide))
  {
    var x' := if x < HandleSide then HandleSide else x;
    var y' := if y < HandleSide then HandleSide else y;
    Resize(r, x', y')
  }

  /** When the scene reaches 12 on an axis, the exclusion box's edge on that
      axis ends at 12 or beyond after a resize, whatever was requested. */
  lemma ExclusionResizeFloor(r: Rect, x: int, y: int)
    requires Within(HandleSide, r.maxX) && Within(HandleSide, r.maxY)
    ensures ExclusionResize(r, x, y).x2 >= HandleSide
    ensures ExclusionResize(r, x, y).y2 >= HandleSide
  {
  }
}
