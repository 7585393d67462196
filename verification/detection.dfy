/** `detection()` end to end, with the network and the blob extractor as
    inputs: pad the image, cut the windows, score every blob each window's
    extractor found, move it to unpadded image coordinates, and hand the
    whole list to `discrimination` with four samples per feature. */
module Detection {
  import opened Wrappers
  import opened Tiling
  import opened Scoring
  import opened Dedup

  /** What the network returns for one window and what the blob extractor
      finds in that response. */
  datatype WindowOutput = WindowOutput(response: Grid, blobs: seq<Blob>)

  /** The keyword arguments of `detection()` that the model uses. */
  datatype Settings = Settings(stride: Stride, minR: real, maxR: real,
                               border: int, overlap: int, tolerance: real)

  /** `detection()` always calls `discrimination` with four samples: each
      dislocation is expected in the four windows that overlap it. */
  const DetectSamples: int := 4

  predicate Rects(outs: seq<WindowOutput>) {
    forall k :: 0 <= k < |outs| ==> Rect(outs[k].response)
  }

  predicate AllBytes(outs: seq<WindowOutput>) {
    forall k :: 0 <= k < |outs| ==> Bytes(outs[k].response)
  }

  /** The candidates of window `k`: its blobs scored and moved by its
      offsets. */
  function WindowCandidates(outs: seq<WindowOutput>, w: nat, s: Stride, minR: real, maxR: real, k: nat): (cs: seq<Candidate>)
    requires ValidStride(s) && k < |outs| && Rects(outs)
    ensures |cs| == |outs[k].blobs|
    ensures Bytes(outs[k].response) ==> forall m :: 0 <= m < |cs| ==> 0.0 <= cs[m].confidence <= 1.0
  {
    var off := Offsets(w, s, k);
    ScoreTile(outs[k].response, outs[k].blobs, off.1, off.0, minR, maxR)
  }

  /** One candidate list per window, in prediction order, as the pool's
      ordered results return them. */
  function Windows(outs: seq<WindowOutput>, w: nat, s: Stride, minR: real, maxR: real): (ws: seq<seq<Candidate>>)
    requires ValidStride(s) && Rects(outs)
    ensures |ws| == |outs|
  {
    seq(|outs|, k requires 0 <= k < |outs| => WindowCandidates(outs, w, s, minR, maxR, k))
  }

  /** The lists joined end to end. */
  function Flatten<T>(ss: seq<seq<T>>): seq<T> {
    if ss == [] then [] else ss[0] + Flatten(ss[1..])
  }

  /** Every position of the joined list is a position of one of the lists. */
  lemma {:induction false} FlattenIndex<T>(ss: seq<seq<T>>, m: nat) returns (k: nat, j: nat)
    requires m < |Flatten(ss)|
    ensures k < |ss| && j < |ss[k]| && Flatten(ss)[m] == ss[k][j]
  {
    assert Flatten(ss) == ss[0] + Flatten(ss[1..]);
    if m < |ss[0]| {
      k, j := 0, m;
    } else {
      var k', j' := FlattenIndex(ss[1..], m - |ss[0]|);
      k, j := k' + 1, j';
    }
  }

  /** The candidates of every window, window by window, each window's blobs
      in extractor order, as `tds.extend` builds them. */
  function Gather(outs: seq<WindowOutput>, w: nat, s: Stride, minR: real, maxR: real): seq<Candidate>
    requires ValidStride(s) && Rects(outs)
  {
    Flatten(Windows(outs, w, s, minR, maxR))
  }

  /** Candidate `m` of the gathered list comes from blob `j` of window `k`,
      scored with that window's offsets. */
  lemma GatherOrigin(outs: seq<WindowOutput>, w: nat, s: Stride, minR: real, maxR: real, m: nat) returns (k: nat, j: nat)
    requires ValidStride(s) && Rects(outs)
    requires m < |Gather(outs, w, s, minR, maxR)|
    ensures k < |outs| && j < |outs[k].blobs|
    ensures Gather(outs, w, s, minR, maxR)[m]
      == ScoreBlob(outs[k].response, outs[k].blobs[j], Offsets(w, s, k).1, Offsets(w, s, k).0, minR, maxR)
  {
    var ws := Windows(outs, w, s, minR, maxR);
    k, j := FlattenIndex(ws, m);
    assert ws[k] == WindowCandidates(outs, w, s, minR, maxR, k);
    var off := Offsets(w, s, k);
    ScoreTileAt(outs[k].response, outs[k].blobs, off.1, off.0, minR, maxR, j);
  }

  /** With byte-valued responses every gathered confidence is in [0, 1]. */
  lemma GatherConfidence(outs: seq<WindowOutput>, w: nat, s: Stride, minR: real, maxR: real)
    requires ValidStride(s) && Rects(outs) && AllBytes(outs)
    ensures var cs := Gather(outs, w, s, minR, maxR);
      forall m :: 0 <= m < |cs| ==> 0.0 <= cs[m].confidence <= 1.0
  {
    var ws := Windows(outs, w, s, minR, maxR);
    var cs := Gather(outs, w, s, minR, maxR);
    forall m | 0 <= m < |cs|
      ensures 0.0 <= cs[m].confidence <= 1.0
    {
      var k, j := FlattenIndex(ws, m);
      assert ws[k] == WindowCandidates(outs, w, s, minR, maxR, k);
    }
  }

  /** `detection(image, ...)` on an image of height `h` and width `w`: the
      features and their average confidence, or why it does not return.
      The stride is checked in the order the code meets the problem: the
      padding, then the window stack, then the stitching writes. The
      network is taken to answer a 512 by 512 window with a 512 by 512
      response. */
  function Detect(h: nat, w: nat, outs: seq<WindowOutput>, st: Settings): (r: Result<Outcome, ConfigError>)
    requires Rects(outs)
    ensures r.Success? <==> Completes(h, w, st.stride)
    ensures r.Failure? ==> (r.error == ZeroStride <==> st.stride.rows == 0 || st.stride.cols == 0)
    ensures r.Failure? ==> (r.error == ShortWindow <==> ValidStride(st.stride) && !FullWindows(st.stride))
    ensures r.Failure? ==> (r.error == StitchOverrun <==>
      ValidStride(st.stride) && FullWindows(st.stride) && !Stitches(h, w, st.stride))
  {
    match Pad(h, w, st.stride)
    case Failure(e) => Failure(e)
    case Success(_) =>
      if !FullWindows(st.stride) then Failure(ShortWindow)
      else if !Stitches(h, w, st.stride) then Failure(StitchOverrun)
      else
        var cands := Gather(outs, w, st.stride, st.minR, st.maxR);
        Success(Discriminate(cands, h, w, Params(st.border, st.overlap, st.tolerance, DetectSamples)))
  }

  /** `detection()` returns exactly for strides of half a window, and for
      longer strides only on images small enough to leave at most two grid
      positions on each axis where the stride is longer; below half a
      window on either axis it never returns. */
  lemma DetectReturns(h: nat, w: nat, outs: seq<WindowOutput>, st: Settings)
    requires Rects(outs)
    ensures Detect(h, w, outs, st).Success? <==>
      && ValidStride(st.stride)
      && (2 * st.stride.rows == Window || (Window < 2 * st.stride.rows && RowCount(h, st.stride) <= 2))
      && (2 * st.stride.cols == Window || (Window < 2 * st.stride.cols && ColCount(w, st.stride) <= 2))
    ensures Window > 2 * st.stride.rows || Window > 2 * st.stride.cols ==> Detect(h, w, outs, st).Failure?
    ensures st.stride == Stride(256, 256) ==> Detect(h, w, outs, st).Success?
  {
    CompletesIff(h, w, st.stride);
  }

  lemma {:induction false} MaxConfAtMost(p: seq<Candidate>, hi: real)
    requires 0.0 <= hi && forall k :: 0 <= k < |p| ==> p[k].confidence <= hi
    ensures MaxConf(p) <= hi
  {
    if p != [] {
      assert forall k :: 0 <= k < |p[1..]| ==> p[1..][k] == p[k + 1];
      MaxConfAtMost(p[1..], hi);
    }
  }

  /** When `detection()` returns and the responses are byte-valued, every
      feature lies strictly inside the border margin in x and inside it in
      y, and its confidence is an average that reaches the tolerance and is
      at most 1; the overall average reaches the tolerance too. */
  lemma DetectSound(h: nat, w: nat, outs: seq<WindowOutput>, st: Settings)
    requires Rects(outs) && AllBytes(outs)
    ensures var r := Detect(h, w, outs, st);
      r.Success? ==>
      && (r.value.average.Some? ==> st.tolerance <= r.value.average.value)
      && forall m :: 0 <= m < |r.value.features| ==>
        && st.tolerance <= r.value.features[m].confidence <= 1.0
        && st.border < r.value.features[m].x < w - st.border
        && st.border <= r.value.features[m].y < h - st.border
  {
    if Completes(h, w, st.stride) {
      var cands := Gather(outs, w, st.stride, st.minR, st.maxR);
      var prm := Params(st.border, st.overlap, st.tolerance, DetectSamples);
      assert Detect(h, w, outs, st) == Success(Discriminate(cands, h, w, prm));
      GatherConfidence(outs, w, st.stride, st.minR, st.maxR);
      MaxConfAtMost(cands, 1.0);
      OutcomeSound(cands, h, w, prm, 1.0);
    }
  }

  /** What the second pass promises about its outcome, with the largest
      input confidence bounded by `hi`. */
  lemma OutcomeSound(cands: seq<Candidate>, h: int, w: int, prm: Params, hi: real)
    requires prm.samples >= 1 && MaxConf(cands) <= hi
    ensures var out := Discriminate(cands, h, w, prm);
      && (out.average.Some? ==> prm.tolerance <= out.average.value)
      && forall m :: 0 <= m < |out.features| ==>
        && prm.tolerance <= out.features[m].confidence <= hi
        && prm.border < out.features[m].x < w - prm.border
        && prm.border <= out.features[m].y < h - prm.border
  {
    var out := Discriminate(cands, h, w, prm);
    DiscriminateSound(cands, h, w, prm);
    forall m | 0 <= m < |out.features|
      ensures prm.border < out.features[m].x < w - prm.border
      ensures prm.border <= out.features[m].y < h - prm.border
    {
      var _ := FeatureIsCandidate(cands, h, w, prm, m);
    }
  }

  /** Each feature is one extracted blob of one window, seen through that
      window: its centre is the blob's centre plus the window's corner minus
      the top and left padding, and its radius is the clipped `sigma * sqrt(2)`.
      Needs one network output per window, as the prediction step gives. */
  lemma FeatureOrigin(h: nat, w: nat, outs: seq<WindowOutput>, st: Settings, m: nat) returns (k: nat, j: nat)
    requires Rects(outs) && Detect(h, w, outs, st).Success?
    requires |outs| == |Tiles(h, w, st.stride)|
    requires m < |Detect(h, w, outs, st).value.features|
    ensures k < |Tiles(h, w, st.stride)| && j < |outs[k].blobs|
    ensures var f := Detect(h, w, outs, st).value.features[m];
      var b := outs[k].blobs[j];
      var t := Tiles(h, w, st.stride)[k];
      && f.x == b.col + t.col - st.stride.cols
      && f.y == b.row + t.row - st.stride.rows
      && f.r == Clip(b.s, st.minR, st.maxR)
  {
    var s := st.stride;
    var cands := Gather(outs, w, s, st.minR, st.maxR);
    var prm := Params(st.border, st.overlap, st.tolerance, DetectSamples);
    var out := Discriminate(cands, h, w, prm);
    assert Detect(h, w, outs, st) == Success(out);
    var idx := FeatureIsCandidate(cands, h, w, prm, m);
    k, j := GatherOrigin(outs, w, s, st.minR, st.maxR, idx);
    OffsetsMatchTile(h, w, s, k);
  }

  /** Feature `m` of `discrimination` is input candidate `idx` with a new
      confidence. */
  lemma FeatureIsCandidate(p: seq<Candidate>, h: int, w: int, prm: Params, m: nat) returns (idx: nat)
    requires prm.samples >= 1 && m < |Discriminate(p, h, w, prm).features|
    ensures idx < |p| && Kept(p[idx], h, w, prm.border)
    ensures var f := Discriminate(p, h, w, prm).features[m];
      f == p[idx].(confidence := f.confidence)
  {
    DiscriminateSound(p, h, w, prm);
    var f := Discriminate(p, h, w, prm).features[m];
    var c :| c in p && Kept(c, h, w, prm.border) && f == c.(confidence := f.confidence);
    idx :| 0 <= idx < |p| && p[idx] == c;
  }
}
