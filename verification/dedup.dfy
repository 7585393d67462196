/** `discrimination()`: drop candidates near the image border or below the
    noise floor, then merge candidates whose discs overlap into one feature
    whose confidence is the average of the cluster's best `samples`
    confidences.

    The merge loop mutates the candidates it emits: the winner of a cluster
    gets the averaged confidence written into it, later clusters read that
    new value, and the output list holds references, so every emitted entry
    shows its candidate's confidence as it stands after the loop. The model
    keeps the pruned candidates fixed, threads their current confidences
    through the loop, records winners as indices, and resolves the indices
    against the final confidences at the end. */
module Dedup {
  import opened Wrappers
  import opened Sorting
  import opened Arith
  import Scoring

  type Candidate = Scoring.Candidate

  /** Candidates below this confidence are pruned before merging. */
  const NoiseFloor: real := 0.01

  /** The tuning arguments of `discrimination()`: `td_border`,
      `td_overlap`, `pred_tolerance` and `detect_samples`. */
  datatype Params = Params(border: int, overlap: int, tolerance: real, samples: int)

  /** The first pass keeps a candidate with `border < x < width - border`,
      `border <= y < height - border` and a confidence at or above the noise
      floor. */
  predicate Kept(c: Candidate, height: int, width: int, border: int) {
    && border < c.x < width - border
    && border <= c.y < height - border
    && c.confidence >= NoiseFloor
  }

  /** The first pass, in input order. */
  function Prune(p: seq<Candidate>, height: int, width: int, border: int): (q: seq<Candidate>)
    ensures |q| <= |p|
    ensures forall c :: c in q <==> c in p && Kept(c, height, width, border)
  {
    if p == [] then []
    else (if Kept(p[0], height, width, border) then [p[0]] else []) + Prune(p[1..], height, width, border)
  }

  /** Pruning is a filter: it distributes over concatenation, so the kept
      candidates keep their relative order. */
  lemma {:induction false} PruneAppend(a: seq<Candidate>, b: seq<Candidate>, height: int, width: int, border: int)
    ensures Prune(a + b, height, width, border) == Prune(a, height, width, border) + Prune(b, height, width, border)
  {
    if a == [] {
      assert a + b == b;
    } else {
      assert (a + b)[1..] == a[1..] + b;
      PruneAppend(a[1..], b, height, width, border);
    }
  }

  // ---------------------------------------------------------------------
  // Overlap between two candidates

  /** The distance below which two discs count as overlapping. */
  function Reach(a: Candidate, b: Candidate, overlap: int): real {
    a.r + b.r - overlap as real
  }

  function SquaredDistance(a: Candidate, b: Candidate): int {
    (a.x - b.x) * (a.x - b.x) + (a.y - b.y) * (a.y - b.y)
  }

  /** `hypot(dx, dy) < r + r' - td_overlap`, compared on squares: the
      Euclidean distance is never negative, so a non-positive reach admits
      nothing. */
  predicate Close(a: Candidate, b: Candidate, overlap: int) {
    var t := Reach(a, b, overlap);
    t > 0.0 && SquaredDistance(a, b) as real < t * t
  }

  lemma CloseSymmetric(a: Candidate, b: Candidate, overlap: int)
    ensures Close(a, b, overlap) <==> Close(b, a, overlap)
  {
    assert SquaredDistance(a, b) == SquaredDistance(b, a);
  }

  /** The merge loop compares a seed with every pruned candidate, itself
      included, and a candidate overlaps itself exactly when its diameter
      exceeds the allowed overlap. */
  lemma CloseSelf(a: Candidate, overlap: int)
    ensures Close(a, a, overlap) <==> 2.0 * a.r > overlap as real
  {
    assert SquaredDistance(a, a) == 0;
    var t := Reach(a, a, overlap);
    assert SquaredDistance(a, a) as real == 0.0;
    if t > 0.0 {
      MulLt(0.0, t, t);
      calc {
        SquaredDistance(a, a) as real;
      == 0.0 * t;
      <  t * t;
      }
    }
  }

  lemma SquareMono(d: real, t: real)
    requires 0.0 <= d && 0.0 < t
    ensures d < t <==> d * d < t * t
  {
    if d < t {
      MulLe(d, t, d);
      MulLt(d, t, t);
      calc {
        d * d;
      <= t * d;
      == d * t;
      <  t * t;
      }
    } else {
      MulLe(t, d, t);
      MulLe(t, d, d);
      calc {
        t * t;
      <= d * t;
      == t * d;
      <= d * d;
      }
    }
  }

  lemma MulLe(a: real, b: real, c: real)
    requires a <= b && 0.0 <= c
    ensures a * c <= b * c
  {
    assert b * c - a * c == (b - a) * c;
  }

  lemma MulLt(a: real, b: real, c: real)
    requires a < b && 0.0 < c
    ensures a * c < b * c
  {
    assert b * c - a * c == (b - a) * c;
  }

  /** The squared comparison agrees with the source's test on the
      Euclidean distance `d`, for every non-negative `d` whose square is the
      squared distance. */
  lemma CloseIsDistance(a: Candidate, b: Candidate, overlap: int, d: real)
    requires 0.0 <= d && d * d == SquaredDistance(a, b) as real
    ensures Close(a, b, overlap) <==> d < Reach(a, b, overlap)
  {
    var t := Reach(a, b, overlap);
    if t > 0.0 {
      SquareMono(d, t);
    }
  }

  // ---------------------------------------------------------------------
  // One cluster

  /** Indices from `j` on whose candidates overlap candidate `i`, in order. */
  function CloseFrom(p: seq<Candidate>, i: nat, j: nat, overlap: int): (r: seq<nat>)
    requires i < |p|
    ensures forall m :: m in r ==> j <= m < |p|
    ensures forall m :: multiset(r)[m] == if j <= m < |p| && Close(p[i], p[m], overlap) then 1 else 0
    decreases |p| - j
  {
    if j >= |p| then []
    else (if Close(p[i], p[j], overlap) then [j] else []) + CloseFrom(p, i, j + 1, overlap)
  }

  /** `overlap_list` for seed `i`, as indices: the seed, then every
      overlapping candidate in order, the seed again among them. */
  function Cluster(p: seq<Candidate>, i: nat, overlap: int): (c: seq<nat>)
    requires i < |p|
    ensures c != [] && c[0] == i
    ensures forall m :: m in c ==> m < |p|
  {
    [i] + CloseFrom(p, i, 0, overlap)
  }

  /** The seed enters its own cluster twice when it overlaps itself, every
      other overlapping candidate once, and nothing else enters. */
  lemma ClusterCount(p: seq<Candidate>, i: nat, overlap: int, m: nat)
    requires i < |p|
    ensures multiset(Cluster(p, i, overlap))[m]
      == (if m == i then 1 else 0) + (if m < |p| && Close(p[i], p[m], overlap) then 1 else 0)
  {
    assert multiset(Cluster(p, i, overlap)) == multiset{i} + multiset(CloseFrom(p, i, 0, overlap));
  }

  // ---------------------------------------------------------------------
  // Ranking and averaging

  /** The current confidence of candidate `a`. */
  function ConfOf(conf: seq<real>, a: nat): real {
    if a < |conf| then conf[a] else 0.0
  }

  /** `sorted(key=confidence, reverse=True)` as a stable sort: `a` may come
      first when its confidence is at least `b`'s. */
  function ByConf(conf: seq<real>): (nat, nat) -> bool {
    (a: nat, b: nat) => ConfOf(conf, a) >= ConfOf(conf, b)
  }

  lemma ByConfTotal(conf: seq<real>)
    ensures TotalPreorder(ByConf(conf))
  {
  }

  /** The cluster ranked by current confidence, highest first, ties in
      cluster order. */
  function Ranked(conf: seq<real>, cluster: seq<nat>): (r: seq<nat>)
    ensures |r| == |cluster| && multiset(r) == multiset(cluster)
    ensures forall k :: 0 <= k < |r| ==> r[k] in cluster
  {
    var r := Sort(cluster, ByConf(conf));
    assert forall k :: 0 <= k < |r| ==> r[k] in multiset(r);
    r
  }

  /** The head of the ranking is the first member of the cluster whose
      confidence is the cluster's highest. */
  lemma RankedHead(conf: seq<real>, cluster: seq<nat>) returns (k: nat)
    requires cluster != []
    ensures IsFirstLeast(cluster, k, ByConf(conf)) && Ranked(conf, cluster)[0] == cluster[k]
  {
    ByConfTotal(conf);
    k := SortHead(cluster, ByConf(conf));
  }

  /** No ranked member has a higher confidence than the head. */
  lemma RankedBelowHead(conf: seq<real>, cluster: seq<nat>, j: nat)
    requires j < |cluster|
    ensures ConfOf(conf, Ranked(conf, cluster)[j]) <= ConfOf(conf, Ranked(conf, cluster)[0])
  {
    ByConfTotal(conf);
    SortSorted(cluster, ByConf(conf));
    var r := Ranked(conf, cluster);
    if j > 0 {
      assert ByConf(conf)(r[0], r[j]);
    }
  }

  function Confs(conf: seq<real>, idx: seq<nat>): (s: seq<real>)
    ensures |s| == |idx|
    ensures forall k :: 0 <= k < |idx| ==> s[k] == ConfOf(conf, idx[k])
  {
    if idx == [] then [] else [ConfOf(conf, idx[0])] + Confs(conf, idx[1..])
  }

  function Zeros(n: nat): (s: seq<real>)
    ensures |s| == n && forall k :: 0 <= k < n ==> s[k] == 0.0
  {
    if n == 0 then [] else [0.0] + Zeros(n - 1)
  }

  function Total(s: seq<real>): real {
    if s == [] then 0.0 else s[0] + Total(s[1..])
  }

  function Min(a: int, b: int): int {
    if a <= b then a else b
  }

  /** `pred_list`: the confidences of the first `samples` ranked members,
      padded with zeros to `samples` entries. */
  function PredList(conf: seq<real>, ranked: seq<nat>, samples: nat): (s: seq<real>)
    ensures |s| == samples
    ensures forall k :: 0 <= k < samples ==>
      s[k] == if k < |ranked| then ConfOf(conf, ranked[k]) else 0.0
  {
    var top := Min(samples, |ranked|);
    Confs(conf, ranked[..top]) + Zeros(samples - top)
  }

  /** `pred`: the average of the padded list. */
  function Score(conf: seq<real>, cluster: seq<nat>, samples: nat): real
    requires samples >= 1
  {
    Total(PredList(conf, Ranked(conf, cluster), samples)) / samples as real
  }

  lemma {:induction false} TotalBounds(s: seq<real>, hi: real)
    requires forall k :: 0 <= k < |s| ==> 0.0 <= s[k] <= hi
    ensures 0.0 <= Total(s) <= |s| as real * hi
    ensures s != [] ==> s[0] <= Total(s)
  {
    if s != [] {
      TotalBounds(s[1..], hi);
    }
  }

  lemma {:induction false} TotalAtLeast(s: seq<real>, lo: real)
    requires forall k :: 0 <= k < |s| ==> lo <= s[k]
    ensures |s| as real * lo <= Total(s)
  {
    if s != [] {
      TotalAtLeast(s[1..], lo);
    }
  }

  /** The mean of a non-empty list whose head is its largest entry and
      whose entries are not negative lies between the head over the length
      and the head. */
  lemma MeanBounds(s: seq<real>)
    requires s != [] && forall k :: 0 <= k < |s| ==> 0.0 <= s[k] <= s[0]
    ensures s[0] / |s| as real <= Total(s) / |s| as real <= s[0]
  {
    var n := |s| as real;
    TotalBounds(s, s[0]);
    DivMonoReal(s[0], Total(s), n);
    DivAtMostReal(Total(s), n, s[0]);
  }

  /** With confidences that are not negative, the averaged confidence lies
      between the head's confidence divided by `samples` and the head's
      confidence; with one sample it is the head's confidence. */
  lemma ScoreBounds(conf: seq<real>, cluster: seq<nat>, samples: nat)
    requires samples >= 1 && cluster != []
    requires forall k :: 0 <= k < |conf| ==> conf[k] >= 0.0
    ensures var hi := ConfOf(conf, Ranked(conf, cluster)[0]);
      && hi / samples as real <= Score(conf, cluster, samples) <= hi
      && 0.0 <= Score(conf, cluster, samples)
      && (samples == 1 ==> Score(conf, cluster, samples) == hi)
  {
    var ranked := Ranked(conf, cluster);
    var s := PredList(conf, ranked, samples);
    forall k | 0 <= k < |s|
      ensures 0.0 <= s[k] <= s[0]
    {
      if k < |ranked| {
        RankedBelowHead(conf, cluster, k);
      }
    }
    MeanBounds(s);
    TotalBounds(s, s[0]);
    DivNonNegReal(Total(s), |s| as real);
  }

  // ---------------------------------------------------------------------
  // The merge loop

  /** The loop's state: current confidences of the pruned candidates,
      `tds_visited` as a set, emitted winners as indices (`tds_final`), and
      the averaged confidences they were emitted with (`pred_avg`). */
  datatype State = State(conf: seq<real>, visited: set<nat>, winners: seq<nat>, preds: seq<real>)

  /** Indices of every candidate that overlaps candidate `i`. */
  function CloseSet(p: seq<Candidate>, i: nat, overlap: int): (s: set<nat>)
    requires i < |p|
    ensures forall j :: j in s <==> 0 <= j < |p| && Close(p[i], p[j], overlap)
  {
    set j: nat | j < |p| && Close(p[i], p[j], overlap)
  }

  /** One iteration for seed `i`. A visited seed is skipped. Otherwise every
      overlapping candidate is marked visited, whether or not the cluster
      survives; a cluster whose average reaches the tolerance emits the head
      of its ranking, which takes the average as its new confidence. */
  function Step(p: seq<Candidate>, st: State, i: nat, prm: Params): (r: State)
    requires i < |p| && |st.conf| == |p| && prm.samples >= 1
    ensures |r.conf| == |p|
    ensures i in st.visited ==> r == st
    ensures i !in st.visited ==> r.visited == st.visited + CloseSet(p, i, prm.overlap)
    ensures |st.winners| <= |r.winners| <= |st.winners| + 1
    ensures r.winners[..|st.winners|] == st.winners
    ensures (forall m :: 0 <= m < |st.winners| ==> st.winners[m] < |p|) ==>
      forall m :: 0 <= m < |r.winners| ==> r.winners[m] < |p|
    ensures |r.preds| - |st.preds| == |r.winners| - |st.winners|
  {
    if i in st.visited then st
    else
      var c := Cluster(p, i, prm.overlap);
      var visited := st.visited + CloseSet(p, i, prm.overlap);
      var pred := Score(st.conf, c, prm.samples);
      if pred < prm.tolerance then st.(visited := visited)
      else
        var w := Ranked(st.conf, c)[0];
        State(st.conf[w := pred], visited, st.winners + [w], st.preds + [pred])
  }

  /** When a step emits, the seed was unvisited; the emitted index is the
      first member of the seed's cluster with the cluster's highest current
      confidence; its confidence becomes the recorded average, which reaches
      the tolerance and lies between that highest confidence over `samples`
      and the highest confidence itself; nothing else changes. */
  lemma StepEmits(p: seq<Candidate>, st: State, i: nat, prm: Params) returns (k: nat, w: nat, pred: real)
    requires i < |p| && |st.conf| == |p| && prm.samples >= 1
    requires forall j :: 0 <= j < |p| ==> st.conf[j] >= 0.0
    requires Step(p, st, i, prm).winners != st.winners
    ensures i !in st.visited
    ensures IsFirstLeast(Cluster(p, i, prm.overlap), k, ByConf(st.conf))
    ensures w == Cluster(p, i, prm.overlap)[k] && w < |p|
    ensures Step(p, st, i, prm)
      == State(st.conf[w := pred], st.visited + CloseSet(p, i, prm.overlap), st.winners + [w], st.preds + [pred])
    ensures 0.0 <= pred && prm.tolerance <= pred
    ensures st.conf[w] / prm.samples as real <= pred <= st.conf[w]
  {
    var c := Cluster(p, i, prm.overlap);
    k := RankedHead(st.conf, c);
    w := c[k];
    pred := Score(st.conf, c, prm.samples);
    ScoreBounds(st.conf, c, prm.samples);
  }

  /** When a seed is unvisited and the step emits nothing, the cluster's
      average fell short of the tolerance and only the visited set grew. */
  lemma StepDrops(p: seq<Candidate>, st: State, i: nat, prm: Params)
    requires i < |p| && |st.conf| == |p| && prm.samples >= 1
    requires i !in st.visited && Step(p, st, i, prm).winners == st.winners
    ensures Score(st.conf, Cluster(p, i, prm.overlap), prm.samples) < prm.tolerance
    ensures Step(p, st, i, prm) == st.(visited := st.visited + CloseSet(p, i, prm.overlap))
  {
  }

  /** What the loop keeps true: one confidence per candidate, none negative
      and none above `hi`, winners are candidates whose confidence is at
      least the tolerance, and every recorded average passed the tolerance. */
  ghost predicate Inv(n: nat, st: State, tolerance: real, hi: real) {
    && |st.conf| == n
    && (forall k :: 0 <= k < n ==> 0.0 <= st.conf[k] <= hi)
    && |st.winners| == |st.preds|
    && (forall m :: 0 <= m < |st.winners| ==> st.winners[m] < n && st.conf[st.winners[m]] >= tolerance)
    && (forall m :: 0 <= m < |st.preds| ==> tolerance <= st.preds[m] <= hi)
  }

  /** A step keeps the loop's invariant. */
  lemma StepInv(p: seq<Candidate>, st: State, i: nat, prm: Params, hi: real)
    requires i < |p| && prm.samples >= 1 && Inv(|p|, st, prm.tolerance, hi)
    ensures Inv(|p|, Step(p, st, i, prm), prm.tolerance, hi)
  {
    var r := Step(p, st, i, prm);
    if r.winners == st.winners {
      if i !in st.visited {
        StepDrops(p, st, i, prm);
      }
    } else {
      EmitInv(p, st, i, prm, hi, r);
    }
  }

  lemma EmitInv(p: seq<Candidate>, st: State, i: nat, prm: Params, hi: real, r: State)
    requires i < |p| && prm.samples >= 1 && Inv(|p|, st, prm.tolerance, hi)
    requires r == Step(p, st, i, prm) && r.winners != st.winners
    ensures Inv(|p|, r, prm.tolerance, hi)
  {
    var _, w, pred := StepEmits(p, st, i, prm);
    InvAfterEmit(|p|, st, r, w, pred, prm.tolerance, hi);
  }

  /** Emitting `w` with average `pred` keeps the invariant when the average
      is in range. */
  lemma InvAfterEmit(n: nat, st: State, r: State, w: nat, pred: real, tolerance: real, hi: real)
    requires Inv(n, st, tolerance, hi) && w < n && tolerance <= pred && 0.0 <= pred <= hi
    requires r.conf == st.conf[w := pred] && r.winners == st.winners + [w] && r.preds == st.preds + [pred]
    ensures Inv(n, r, tolerance, hi)
  {
    forall m | 0 <= m < |r.winners|
      ensures r.winners[m] < n && r.conf[r.winners[m]] >= tolerance
    {
      if m < |st.winners| {
        assert r.winners[m] == st.winners[m];
      }
    }
  }

  /** The loop body for seed `k` as a total function of the state; the
      loop only ever passes it states of the right shape. */
  function Body(p: seq<Candidate>, prm: Params): (State, nat) -> State {
    (s: State, k: nat) =>
      if k < |p| && |s.conf| == |p| && prm.samples >= 1 then Step(p, s, k, prm) else s
  }

  /** The body skips a visited seed. */
  lemma BodyVisited(p: seq<Candidate>, prm: Params, s: State, k: nat)
    requires k < |p| && |s.conf| == |p| && prm.samples >= 1 && k in s.visited
    ensures Body(p, prm)(s, k) == s
  {
  }

  /** `for i in range(i, n)` with loop body `f`. */
  function Loop(f: (State, nat) -> State, st: State, i: nat, n: nat): State
    decreases n - i
  {
    if i >= n then st else Loop(f, f(st, i), i + 1, n)
  }

  /** An invariant that the body carries from before iteration `k` to
      before iteration `k + 1` holds when the loop ends. */
  lemma {:induction false} LoopKeeps(f: (State, nat) -> State, P: (State, nat) -> bool, st: State, i: nat, n: nat)
    requires i <= n && P(st, i)
    requires forall s: State, k: nat :: i <= k < n && P(s, k) ==> P(f(s, k), k + 1)
    ensures P(Loop(f, st, i, n), n)
    decreases n - i
  {
    if i < n {
      LoopKeeps(f, P, f(st, i), i + 1, n);
    }
  }

  /** A state the body leaves alone from iteration `i` on is the loop's
      result. */
  lemma {:induction false} LoopFixed(f: (State, nat) -> State, st: State, i: nat, n: nat)
    requires forall k: nat :: i <= k < n ==> f(st, k) == st
    ensures Loop(f, st, i, n) == st
    decreases n - i
  {
    if i < n {
      LoopFixed(f, st, i + 1, n);
    }
  }

  /** The shape the loop keeps before iteration `k`: one confidence per
      candidate, one average per winner, at most one winner per iteration
      so far, and every winner a candidate. */
  predicate Shaped(n: nat, s: State, k: nat) {
    && |s.conf| == n
    && |s.winners| == |s.preds| <= k
    && forall m :: 0 <= m < |s.winners| ==> s.winners[m] < n
  }

  /** A step keeps the shape. */
  lemma StepShaped(p: seq<Candidate>, prm: Params, s: State, k: nat)
    requires prm.samples >= 1 && k < |p| && Shaped(|p|, s, k)
    ensures Shaped(|p|, Body(p, prm)(s, k), k + 1)
  {
  }

  // ---------------------------------------------------------------------
  // The whole pass

  /** The final state of the merge loop over the pruned candidates. */
  function Merge(q: seq<Candidate>, prm: Params): (st: State)
    requires prm.samples >= 1
    ensures |st.conf| == |q| && |st.winners| <= |q| && |st.preds| == |st.winners|
    ensures forall m :: 0 <= m < |st.winners| ==> st.winners[m] < |q|
  {
    var st0 := State(InitialConf(q), {}, [], []);
    var P := (s: State, k: nat) => Shaped(|q|, s, k);
    forall s: State, k: nat | 0 <= k < |q| && P(s, k)
      ensures P(Body(q, prm)(s, k), k + 1)
    {
      StepShaped(q, prm, s, k);
    }
    LoopKeeps(Body(q, prm), P, st0, 0, |q|);
    Loop(Body(q, prm), st0, 0, |q|)
  }

  /** The loop keeps `Inv`. */
  lemma MergeInv(q: seq<Candidate>, prm: Params, hi: real)
    requires prm.samples >= 1
    requires forall k :: 0 <= k < |q| ==> 0.0 <= q[k].confidence <= hi
    ensures Inv(|q|, Merge(q, prm), prm.tolerance, hi)
  {
    var st0 := State(InitialConf(q), {}, [], []);
    var P := (s: State, k: nat) => Inv(|q|, s, prm.tolerance, hi);
    forall s: State, k: nat | 0 <= k < |q| && P(s, k)
      ensures P(Body(q, prm)(s, k), k + 1)
    {
      StepInv(q, s, k, prm, hi);
    }
    LoopKeeps(Body(q, prm), P, st0, 0, |q|);
  }

  /** The two results of `discrimination()`: the emitted features and the
      mean of their averaged confidences, `None` where numpy yields NaN for
      an empty list. */
  datatype Outcome = Outcome(features: seq<Candidate>, average: Option<real>)

  function Mean(s: seq<real>): (m: Option<real>)
    ensures m.None? <==> s == []
  {
    if s == [] then None else Some(Total(s) / |s| as real)
  }

  /** The mean of values that all reach `lo` reaches `lo`. */
  lemma MeanAtLeast(s: seq<real>, lo: real)
    requires s != [] && forall k :: 0 <= k < |s| ==> lo <= s[k]
    ensures lo <= Mean(s).value
  {
    TotalAtLeast(s, lo);
    var n := |s| as real;
    DivMonoReal(n * lo, Total(s), n);
    MulDivReal(n, lo);
  }

  function InitialConf(q: seq<Candidate>): (conf: seq<real>)
    ensures |conf| == |q| && forall k :: 0 <= k < |q| ==> conf[k] == q[k].confidence
  {
    if q == [] then [] else [q[0].confidence] + InitialConf(q[1..])
  }

  /** The emitted features: each winner's candidate with its confidence as
      it stands after the loop. */
  function Resolve(q: seq<Candidate>, st: State): (out: seq<Candidate>)
    requires forall m :: 0 <= m < |st.winners| ==> st.winners[m] < |q| && st.winners[m] < |st.conf|
    ensures |out| == |st.winners|
    ensures forall m :: 0 <= m < |out| ==>
      out[m] == q[st.winners[m]].(confidence := st.conf[st.winners[m]])
  {
    seq(|st.winners|, m requires 0 <= m < |st.winners| =>
      q[st.winners[m]].(confidence := st.conf[st.winners[m]]))
  }

  /** The largest confidence in `p`, or 0. */
  function MaxConf(p: seq<Candidate>): (hi: real)
    ensures 0.0 <= hi && forall k :: 0 <= k < |p| ==> p[k].confidence <= hi
  {
    if p == [] then 0.0
    else
      var rest := MaxConf(p[1..]);
      assert forall k :: 1 <= k < |p| ==> p[k] == p[1..][k - 1];
      if p[0].confidence > rest then p[0].confidence else rest
  }

  /** Kept candidates have confidences between the noise floor and the
      largest input confidence. */
  lemma PrunedConf(p: seq<Candidate>, q: seq<Candidate>, height: int, width: int, border: int)
    requires q == Prune(p, height, width, border)
    ensures forall k :: 0 <= k < |q| ==> 0.0 <= q[k].confidence <= MaxConf(p)
  {
    forall k | 0 <= k < |q|
      ensures 0.0 <= q[k].confidence <= MaxConf(p)
    {
      assert q[k] in q;
      var j :| 0 <= j < |p| && p[j] == q[k];
    }
  }

  /** `discrimination(image, tds, ...)` for an image of the given height and
      width: prune, merge, and resolve the winners. */
  function Discriminate(p: seq<Candidate>, height: int, width: int, prm: Params): (out: Outcome)
    requires prm.samples >= 1
    ensures |out.features| <= |Prune(p, height, width, prm.border)|
    ensures out.average.None? <==> out.features == []
  {
    var q := Prune(p, height, width, prm.border);
    var st := Merge(q, prm);
    Outcome(Resolve(q, st), Mean(st.preds))
  }

  /** Every emitted feature is a kept candidate whose confidence has been
      replaced by an average that reaches the tolerance and does not exceed
      the largest input confidence, and the overall average, when there is
      one, reaches the tolerance too. */
  lemma DiscriminateSound(p: seq<Candidate>, height: int, width: int, prm: Params)
    requires prm.samples >= 1
    ensures var out := Discriminate(p, height, width, prm);
      && (out.average.Some? ==> prm.tolerance <= out.average.value)
      && forall m :: 0 <= m < |out.features| ==>
        && prm.tolerance <= out.features[m].confidence <= MaxConf(p)
        && exists c :: c in p && Kept(c, height, width, prm.border)
                       && out.features[m] == c.(confidence := out.features[m].confidence)
  {
    var q := Prune(p, height, width, prm.border);
    var st := Merge(q, prm);
    var hi := MaxConf(p);
    PrunedConf(p, q, height, width, prm.border);
    MergeInv(q, prm, hi);
    var out := Discriminate(p, height, width, prm);
    assert out == Outcome(Resolve(q, st), Mean(st.preds));
    forall m | 0 <= m < |out.features|
      ensures prm.tolerance <= out.features[m].confidence <= hi
      ensures exists c :: c in p && Kept(c, height, width, prm.border)
                          && out.features[m] == c.(confidence := out.features[m].confidence)
    {
      var w := st.winners[m];
      assert out.features[m] == q[w].(confidence := st.conf[w]);
      assert q[w] in q;
    }
    if st.preds != [] {
      MeanAtLeast(st.preds, prm.tolerance);
    }
  }
}
