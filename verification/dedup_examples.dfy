/** Worked cases of `discrimination()`: the same dislocation reported by
    four overlapping windows, and an isolated weak candidate. */
module DedupExamples {
  import opened Wrappers
  import opened Sorting
  import opened Dedup
  import Scoring

  /** Four reports of one dislocation: same centre, same radius, wide
      enough to overlap themselves, confidences in descending order, all
      kept by the first pass. */
  predicate FourReports(p: seq<Candidate>, height: int, width: int, prm: Params) {
    && |p| == 4
    && (forall j :: 0 <= j < 4 ==> p[j].x == p[0].x && p[j].y == p[0].y && p[j].r == p[0].r)
    && (forall j :: 0 <= j < 4 ==> Kept(p[j], height, width, prm.border))
    && 2.0 * p[0].r > prm.overlap as real
    && p[0].confidence >= p[1].confidence >= p[2].confidence >= p[3].confidence
  }

  lemma FourKept(p: seq<Candidate>, height: int, width: int, prm: Params)
    requires FourReports(p, height, width, prm)
    ensures Prune(p, height, width, prm.border) == p
  {
    var b := prm.border;
    assert p[3..][1..] == [];
    PruneKeepsHead(p[3..], height, width, b);
    assert p[2..][1..] == p[3..];
    PruneKeepsHead(p[2..], height, width, b);
    assert p[1..][1..] == p[2..];
    PruneKeepsHead(p[1..], height, width, b);
    PruneKeepsHead(p, height, width, b);
  }

  /** A kept head in front of a tail the first pass keeps whole. */
  lemma PruneKeepsHead(p: seq<Candidate>, height: int, width: int, b: int)
    requires p != [] && Kept(p[0], height, width, b) && Prune(p[1..], height, width, b) == p[1..]
    ensures Prune(p, height, width, b) == p
  {
  }

  lemma FourClose(p: seq<Candidate>, height: int, width: int, prm: Params)
    requires FourReports(p, height, width, prm)
    ensures forall j :: 0 <= j < 4 ==> Close(p[0], p[j], prm.overlap)
  {
    forall j | 0 <= j < 4
      ensures Close(p[0], p[j], prm.overlap)
    {
      assert SquaredDistance(p[0], p[j]) == SquaredDistance(p[0], p[0]);
      CloseSelf(p[0], prm.overlap);
    }
  }

  lemma FourCluster(p: seq<Candidate>, height: int, width: int, prm: Params)
    requires FourReports(p, height, width, prm)
    ensures Cluster(p, 0, prm.overlap) == [0, 0, 1, 2, 3]
  {
    var ov := prm.overlap;
    FourClose(p, height, width, prm);
    assert CloseFrom(p, 0, 4, ov) == [];
    assert CloseFrom(p, 0, 3, ov) == [3];
    assert CloseFrom(p, 0, 2, ov) == [2, 3];
    assert CloseFrom(p, 0, 1, ov) == [1, 2, 3];
  }

  lemma FourCloseSet(p: seq<Candidate>, height: int, width: int, prm: Params)
    requires FourReports(p, height, width, prm)
    ensures CloseSet(p, 0, prm.overlap) == {0, 1, 2, 3}
  {
    FourClose(p, height, width, prm);
    var cs := CloseSet(p, 0, prm.overlap);
    assert forall j :: j in cs <==> j in {0, 1, 2, 3};
  }

  /** Inserting in front of a sorted tail whose head is no higher. */
  lemma InsertFront(conf: seq<real>, x: nat, t: seq<nat>)
    requires t != [] && ConfOf(conf, x) >= ConfOf(conf, t[0])
    ensures Insert(x, t, ByConf(conf)) == [x] + t
  {
  }

  lemma SortCons(conf: seq<real>, x: nat, t: seq<nat>)
    ensures Sort([x] + t, ByConf(conf)) == Insert(x, Sort(t, ByConf(conf)), ByConf(conf))
  {
    assert ([x] + t)[1..] == t;
  }

  /** Sorting a cluster already in descending order of confidence leaves it
      unchanged, one insertion at a time. */
  lemma SortedStep(conf: seq<real>, x: nat, t: seq<nat>)
    requires t != [] && Sort(t, ByConf(conf)) == t && ConfOf(conf, x) >= ConfOf(conf, t[0])
    ensures Sort([x] + t, ByConf(conf)) == [x] + t
  {
    SortCons(conf, x, t);
    InsertFront(conf, x, t);
  }

  /** A cluster listed in descending order of confidence ranks as listed. */
  lemma DescendingRanked(conf: seq<real>)
    requires |conf| == 4 && conf[0] >= conf[1] >= conf[2] >= conf[3]
    ensures Ranked(conf, [0, 0, 1, 2, 3]) == [0, 0, 1, 2, 3]
  {
    var c: seq<nat> := [0, 0, 1, 2, 3];
    DescendingSorted(conf, c);
    assert Ranked(conf, c) == Sort(c, ByConf(conf));
  }

  lemma DescendingSorted(conf: seq<real>, c: seq<nat>)
    requires |conf| == 4 && conf[0] >= conf[1] >= conf[2] >= conf[3]
    requires c == [0, 0, 1, 2, 3]
    ensures Sort(c, ByConf(conf)) == c
  {
    var s3: seq<nat> := [3];
    var s23: seq<nat> := [2] + s3;
    var s123: seq<nat> := [1] + s23;
    var s0123: seq<nat> := [0] + s123;
    var s00123: seq<nat> := [0] + s0123;
    assert Sort(s3, ByConf(conf)) == s3 by {
      assert s3[1..] == [];
    }
    SortedStep(conf, 2, s3);
    SortedStep(conf, 1, s23);
    SortedStep(conf, 0, s123);
    SortedStep(conf, 0, s0123);
    assert s00123 == c;
  }

  lemma Total4(s: seq<real>)
    requires |s| == 4
    ensures Total(s) == s[0] + s[1] + s[2] + s[3]
  {
    var t1, t2, t3 := s[1..], s[2..], s[3..];
    assert t1[1..] == t2 && t2[1..] == t3 && t3[1..] == [];
    assert Total(t3) == s[3];
    assert Total(t2) == s[2] + s[3];
    assert Total(t1) == s[1] + s[2] + s[3];
  }

  /** With four samples, the seed counted twice pushes the lowest
      confidence out of the average. */
  lemma DescendingScore(conf: seq<real>)
    requires |conf| == 4 && conf[0] >= conf[1] >= conf[2] >= conf[3]
    ensures Score(conf, [0, 0, 1, 2, 3], 4) == (2.0 * conf[0] + conf[1] + conf[2]) / 4.0
  {
    var c: seq<nat> := [0, 0, 1, 2, 3];
    DescendingRanked(conf);
    var s := PredList(conf, c, 4);
    assert Score(conf, c, 4) == Total(s) / 4.0;
    TopFour(conf, c, s);
    Total4(s);
  }

  /** The four averaged values of a ranking that begins 0, 0, 1, 2. */
  lemma TopFour(conf: seq<real>, c: seq<nat>, s: seq<real>)
    requires |conf| == 4 && |c| == 5 && c[0] == 0 && c[1] == 0 && c[2] == 1 && c[3] == 2
    requires s == PredList(conf, c, 4)
    ensures |s| == 4 && s[0] == conf[0] && s[1] == conf[0] && s[2] == conf[1] && s[3] == conf[2]
  {
  }

  /** One unvisited step, written out for a known cluster, average,
      winner and visited set. */
  lemma StepUnvisited(p: seq<Candidate>, st: State, i: nat, prm: Params,
                      pred: real, w: nat, vis: set<nat>)
    requires i < |p| && |st.conf| == |p| && prm.samples >= 1 && i !in st.visited
    requires pred == Score(st.conf, Cluster(p, i, prm.overlap), prm.samples)
    requires w == Ranked(st.conf, Cluster(p, i, prm.overlap))[0] && w < |p|
    requires vis == st.visited + CloseSet(p, i, prm.overlap)
    ensures Step(p, st, i, prm)
      == if pred < prm.tolerance then st.(visited := vis)
         else State(st.conf[w := pred], vis, st.winners + [w], st.preds + [pred])
  {
  }

  /** The first seed's cluster: its average, its head and what it marks
      visited. */
  lemma FourFirstCluster(p: seq<Candidate>, height: int, width: int, prm: Params, conf: seq<real>)
    requires FourReports(p, height, width, prm)
    requires conf == InitialConf(p)
    ensures Score(conf, Cluster(p, 0, prm.overlap), 4)
      == (2.0 * p[0].confidence + p[1].confidence + p[2].confidence) / 4.0
    ensures Ranked(conf, Cluster(p, 0, prm.overlap))[0] == 0
    ensures CloseSet(p, 0, prm.overlap) == {0, 1, 2, 3}
  {
    FourCluster(p, height, width, prm);
    FourCloseSet(p, height, width, prm);
    DescendingScore(conf);
    DescendingRanked(conf);
  }

  /** The first seed absorbs all four reports. */
  lemma FourFirstStep(p: seq<Candidate>, height: int, width: int, prm: Params, conf: seq<real>, pred: real)
    requires FourReports(p, height, width, prm) && prm.samples == 4
    requires conf == InitialConf(p) && |conf| == 4
    requires pred == (2.0 * p[0].confidence + p[1].confidence + p[2].confidence) / 4.0
    ensures Step(p, State(conf, {}, [], []), 0, prm)
      == if pred >= prm.tolerance then State(conf[0 := pred], {0, 1, 2, 3}, [0], [pred])
         else State(conf, {0, 1, 2, 3}, [], [])
  {
    FourFirstCluster(p, height, width, prm, conf);
    StepFresh(p, conf, 0, prm, pred, 0, {0, 1, 2, 3});
  }

  /** The first step, from the loop's initial state. */
  lemma StepFresh(p: seq<Candidate>, conf: seq<real>, i: nat, prm: Params,
                  pred: real, w: nat, vis: set<nat>)
    requires i < |p| && |conf| == |p| && prm.samples >= 1
    requires pred == Score(conf, Cluster(p, i, prm.overlap), prm.samples)
    requires w == Ranked(conf, Cluster(p, i, prm.overlap))[0] && w < |p|
    requires vis == CloseSet(p, i, prm.overlap)
    ensures Step(p, State(conf, {}, [], []), i, prm)
      == if pred < prm.tolerance then State(conf, vis, [], [])
         else State(conf[w := pred], vis, [w], [pred])
  {
    var st0 := State(conf, {}, [], []);
    assert st0.visited + vis == vis;
    StepUnvisited(p, st0, i, prm, pred, w, vis);
    assert st0.winners + [w] == [w] && st0.preds + [pred] == [pred];
  }

  /** The loop's first iteration, taken out of the recursion. */
  lemma MergeFirst(p: seq<Candidate>, prm: Params)
    requires prm.samples >= 1 && p != []
    ensures Merge(p, prm) == Loop(Body(p, prm), Step(p, State(InitialConf(p), {}, [], []), 0, prm), 1, |p|)
  {
  }

  /** The other three seeds were visited by the first. */
  lemma FourLoop(p: seq<Candidate>, height: int, width: int, prm: Params, conf: seq<real>, pred: real, st1: State)
    requires FourReports(p, height, width, prm) && prm.samples == 4
    requires conf == InitialConf(p)
    requires pred == (2.0 * p[0].confidence + p[1].confidence + p[2].confidence) / 4.0
    requires st1 == if pred >= prm.tolerance then State(conf[0 := pred], {0, 1, 2, 3}, [0], [pred])
                    else State(conf, {0, 1, 2, 3}, [], [])
    ensures Merge(p, prm) == st1
  {
    MergeFirst(p, prm);
    FourFirstStep(p, height, width, prm, conf, pred);
    assert |st1.conf| == 4 && st1.visited == {0, 1, 2, 3};
    RestVisited(p, prm, st1);
  }

  /** After a first step that visits all four seeds, the loop is done. */
  lemma RestVisited(p: seq<Candidate>, prm: Params, st: State)
    requires |p| == 4 && |st.conf| == 4 && prm.samples >= 1 && st.visited == {0, 1, 2, 3}
    ensures Loop(Body(p, prm), st, 1, 4) == st
  {
    forall k: nat | 1 <= k < 4
      ensures Body(p, prm)(st, k) == st
    {
      BodyVisited(p, prm, st, k);
    }
    LoopFixed(Body(p, prm), st, 1, 4);
  }

  /** Four reports of one dislocation merge into one feature: the first
      report, carrying `(2 * c0 + c1 + c2) / 4`, when that reaches the
      tolerance. The seed is compared with itself, so its confidence is
      counted twice and the lowest confidence `c3` drops out of the average. */
  lemma FourMergeEmits(p: seq<Candidate>, height: int, width: int, prm: Params, pred: real)
    requires FourReports(p, height, width, prm) && prm.samples == 4
    requires pred == (2.0 * p[0].confidence + p[1].confidence + p[2].confidence) / 4.0
    requires pred >= prm.tolerance
    ensures Discriminate(p, height, width, prm) == Outcome([p[0].(confidence := pred)], Some(pred))
  {
    var conf := InitialConf(p);
    var st := State(conf[0 := pred], {0, 1, 2, 3}, [0], [pred]);
    FourKept(p, height, width, prm);
    FourLoop(p, height, width, prm, conf, pred, st);
    DiscriminateOf(p, height, width, prm, p, st);
    ResolveHead(p, st, pred);
    MeanOne(pred);
  }

  /** A state whose one winner is the first candidate resolves to that
      candidate with the winner's confidence. */
  lemma ResolveHead(p: seq<Candidate>, st: State, pred: real)
    requires p != [] && |st.conf| == |p| && st.winners == [0] && st.conf[0] == pred
    ensures Resolve(p, st) == [p[0].(confidence := pred)]
  {
    var out := Resolve(p, st);
    assert |out| == 1 && out[0] == p[0].(confidence := pred);
  }

  /** The same four reports merge into nothing when that average falls
      short of the tolerance. */
  lemma FourMergeDrops(p: seq<Candidate>, height: int, width: int, prm: Params, pred: real)
    requires FourReports(p, height, width, prm) && prm.samples == 4
    requires pred == (2.0 * p[0].confidence + p[1].confidence + p[2].confidence) / 4.0
    requires pred < prm.tolerance
    ensures Discriminate(p, height, width, prm) == Outcome([], None)
  {
    var conf := InitialConf(p);
    var st := State(conf, {0, 1, 2, 3}, [], []);
    FourKept(p, height, width, prm);
    FourLoop(p, height, width, prm, conf, pred, st);
    DiscriminateOf(p, height, width, prm, p, st);
    assert Resolve(p, st) == [];
  }

  lemma MeanOne(x: real)
    ensures Mean([x]) == Some(x)
  {
    assert [x][1..] == [];
    assert Total([x]) == x;
    assert |[x]| as real == 1.0;
    assert x / 1.0 == x;
    assert Mean([x]) == Some(Total([x]) / |[x]| as real);
  }

  /** `Discriminate` in terms of the pruned candidates and the loop's final state. */
  lemma DiscriminateOf(p: seq<Candidate>, height: int, width: int, prm: Params, q: seq<Candidate>, st: State)
    requires prm.samples >= 1 && q == Prune(p, height, width, prm.border) && st == Merge(q, prm)
    ensures Discriminate(p, height, width, prm) == Outcome(Resolve(q, st), Mean(st.preds))
  {
  }

  /** The case of confidences 0.9, 0.8, 0.7 and 0.6: one feature with
      confidence 0.825, where the average of the four reports is 0.75. */
  lemma FourAt825(p: seq<Candidate>, height: int, width: int, prm: Params)
    requires FourReports(p, height, width, prm) && prm.samples == 4 && prm.tolerance <= 0.825
    requires p[0].confidence == 0.9 && p[1].confidence == 0.8
    requires p[2].confidence == 0.7 && p[3].confidence == 0.6
    ensures Discriminate(p, height, width, prm) == Outcome([p[0].(confidence := 0.825)], Some(0.825))
  {
    FourMergeEmits(p, height, width, prm, 0.825);
  }
}
