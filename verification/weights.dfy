/** Weight-file names: `<model>_<iteration>.h5` in the weights directory,
    decoded by the pattern `(?P<g0>\S+?)_(?P<g1>\S+?).h5` under `re.match`,
    the search for a free iteration name, and the listing of the saved
    weights. The directory is abstract: the set of paths that exist and the
    names the directory lists. */
module Weights {
  import opened Wrappers
  import opened Text
  import opened Sorting

  // ---------------------------------------------------------------------
  // Names and paths

  /** `FN_WEIGHTS.format(model_id, iter_id)`. */
  function FileName(m: string, i: string): (s: string)
    ensures s == m + "_" + i + ".h5"
  {
    m + "_" + i + ".h5"
  }

  /** `os.path.join(a, b)` for POSIX paths. */
  function Join(a: string, b: string): string {
    if |b| > 0 && b[0] == '/' then b
    else if a == [] || a[|a| - 1] == '/' then a + b
    else a + "/" + b
  }

  /** `path(model_id, iter_id, basename)`, with `PATH_WEIGHTS` as `root`. */
  function PathOf(root: string, m: string, i: string, basename: bool): (p: string)
    ensures basename ==> p == FileName(m, i)
    ensures !basename ==> p == Join(root, FileName(m, i))
  {
    var bn := FileName(m, i);
    if basename then bn else Join(root, bn)
  }

  /** Ids without slashes name a file directly in the weights directory. */
  lemma PathBasename(root: string, m: string, i: string)
    requires '/' !in m && '/' !in i
    ensures Basename(PathOf(root, m, i, false)) == PathOf(root, m, i, true)
  {
    BasenameOfJoin(root, FileName(m, i));
  }

  /** Joining a slash-free name to a directory keeps it as the basename. */
  lemma BasenameOfJoin(root: string, bn: string)
    requires '/' !in bn
    ensures Basename(Join(root, bn)) == bn
  {
    var p := Join(root, bn);
    if root == [] || root[|root| - 1] == '/' {
      if root != [] {
        assert p[|root| - 1] == '/';
        assert forall j :: |root| <= j < |p| ==> p[j] == bn[j - |root|];
        LastIndexIs(p, '/', |root| - 1);
      } else {
        assert p == bn;
      }
    } else {
      assert p == root + "/" + bn;
      assert p[|root|] == '/';
      assert forall j :: |root| + 1 <= j < |p| ==> p[j] == bn[j - |root| - 1];
      LastIndexIs(p, '/', |root|);
    }
  }

  // ---------------------------------------------------------------------
  // The pattern

  /** Characters `\S` does not match: the whitespace of Python's Unicode
      patterns. */
  predicate IsSpace(c: char) {
    var n := c as int;
    || n == 0x20 || 0x09 <= n <= 0x0D || 0x1C <= n <= 0x1F || n == 0x85 || n == 0xA0
    || n == 0x1680 || 0x2000 <= n <= 0x200A || n == 0x2028 || n == 0x2029
    || n == 0x202F || n == 0x205F || n == 0x3000
  }

  /** `s[a..b]` is all `\S`. */
  predicate Solid(s: string, a: int, b: int)
    requires 0 <= a <= b <= |s|
  {
    forall j :: a <= j < b ==> !IsSpace(s[j])
  }

  /** The part of the pattern after the underscore matches from `st` with a
      `g1` of length `k`: `k` non-space characters, any character but a
      newline (the unescaped `.`), then `h5`; whatever follows is ignored,
      since `re.match` is not anchored at the end. */
  predicate TailAt(s: string, st: nat, k: nat) {
    && 1 <= k && st + k + 3 <= |s|
    && Solid(s, st, st + k)
    && s[st + k] != '\n' && s[st + k + 1] == 'h' && s[st + k + 2] == '5'
  }

  /** The whole pattern matches with a `g0` of length `l` and a `g1` of
      length `k`. */
  predicate MatchAt(s: string, l: nat, k: nat) {
    && 1 <= l < |s| && Solid(s, 0, l) && s[l] == '_'
    && TailAt(s, l + 1, k)
  }

  /** The lazy `g1` search: the shortest `k` from `k0` on. */
  function TailFrom(s: string, st: nat, k: nat): (r: Option<nat>)
    requires 1 <= k && st + k - 1 <= |s| && Solid(s, st, st + k - 1)
    ensures r.Some? ==> k <= r.value && TailAt(s, st, r.value)
                        && forall k': nat :: k <= k' < r.value ==> !TailAt(s, st, k')
    ensures r.None? ==> forall k': nat :: k <= k' ==> !TailAt(s, st, k')
    decreases |s| - (st + k)
  {
    if st + k > |s| then None
    else if IsSpace(s[st + k - 1]) then
      assert forall k': nat :: k <= k' ==> !TailAt(s, st, k') by {
        forall k': nat | k <= k'
          ensures !TailAt(s, st, k')
        {
          assert st <= st + k - 1 < st + k';
        }
      }
      None
    else if st + k + 3 <= |s| && s[st + k] != '\n' && s[st + k + 1] == 'h' && s[st + k + 2] == '5' then
      Some(k)
    else
      TailFrom(s, st, k + 1)
  }

  /** The lazy `g0` search: the shortest `l` from `l0` on for which some
      `g1` completes the match, and the shortest such `g1`. */
  function MatchFrom(s: string, l: nat): (r: Option<(nat, nat)>)
    requires 1 <= l && l - 1 <= |s| && Solid(s, 0, l - 1)
    ensures r.Some? ==> && l <= r.value.0 && MatchAt(s, r.value.0, r.value.1)
                        && (forall l': nat, k': nat :: l <= l' < r.value.0 ==> !MatchAt(s, l', k'))
                        && (forall k': nat :: k' < r.value.1 ==> !MatchAt(s, r.value.0, k'))
    ensures r.None? ==> forall l': nat, k': nat :: l <= l' ==> !MatchAt(s, l', k')
    decreases |s| - l
  {
    if l >= |s| then None
    else if IsSpace(s[l - 1]) then
      assert forall l': nat, k': nat :: l <= l' ==> !MatchAt(s, l', k') by {
        forall l': nat, k': nat | l <= l'
          ensures !MatchAt(s, l', k')
        {
          assert 0 <= l - 1 < l';
        }
      }
      None
    else if s[l] == '_' && TailFrom(s, l + 1, 1).Some? then
      Some((l, TailFrom(s, l + 1, 1).value))
    else
      assert forall k': nat :: !MatchAt(s, l, k');
      MatchFrom(s, l + 1)
  }

  /** `_FN_WEIGHTS_RE.match(name)`: the lengths of `g0` and `g1`. */
  function Match(s: string): (r: Option<(nat, nat)>)
    ensures r.None? <==> forall l: nat, k: nat :: !MatchAt(s, l, k)
    ensures r.Some? ==> && MatchAt(s, r.value.0, r.value.1)
                        && (forall l: nat, k: nat :: l < r.value.0 ==> !MatchAt(s, l, k))
                        && (forall k: nat :: k < r.value.1 ==> !MatchAt(s, r.value.0, k))
  {
    MatchFrom(s, 1)
  }

  /** The pattern matches `b` with no choice of group lengths. */
  ghost predicate NoMatch(b: string) {
    forall l: nat, k: nat :: !MatchAt(b, l, k)
  }

  /** `g0` and `g1` are the groups `re.match` reports on `b`: they match,
      `g0` is as short as any match allows, and `g1` as short as any match
      with that `g0` allows. */
  ghost predicate Groups(b: string, g0: string, g1: string) {
    && MatchAt(b, |g0|, |g1|) && b[..|g0|] == g0 && b[|g0| + 1..|g0| + 1 + |g1|] == g1
    && (forall l: nat, k: nat :: l < |g0| ==> !MatchAt(b, l, k))
    && (forall k: nat :: k < |g1| ==> !MatchAt(b, |g0|, k))
  }

  /** `path_decode(path)`: the groups of the match on the basename, or none
      exactly when the pattern does not match it. */
  function PathDecode(p: string): (r: Option<(string, string)>)
    ensures r.None? <==> NoMatch(Basename(p))
    ensures r.Some? ==> Groups(Basename(p), r.value.0, r.value.1)
  {
    DecodeName(Basename(p))
  }

  /** The groups of the match on a file name. */
  function DecodeName(b: string): (r: Option<(string, string)>)
    ensures r.None? <==> NoMatch(b)
    ensures r.Some? ==> Groups(b, r.value.0, r.value.1)
  {
    match Match(b)
    case None => None
    case Some((l, k)) => Some((b[..l], b[l + 1..l + 1 + k]))
  }

  // ---------------------------------------------------------------------
  // Decoding what `path` encodes

  predicate NoSpace(s: string) {
    forall j :: 0 <= j < |s| ==> !IsSpace(s[j])
  }

  /** `h5` occurs in `s`. */
  predicate HasH5(s: string) {
    exists j :: 0 <= j < |s| - 1 && s[j] == 'h' && s[j + 1] == '5'
  }

  /** `s` starts with `m`, an underscore, `i`, the character `c` and `h5`. */
  predicate Shaped(s: string, m: string, i: string, c: char) {
    && |m| + |i| + 4 <= |s|
    && (forall j :: 0 <= j < |m| ==> s[j] == m[j])
    && s[|m|] == '_'
    && (forall j :: 0 <= j < |i| ==> s[|m| + 1 + j] == i[j])
    && s[|m| + 1 + |i|] == c && s[|m| + 2 + |i|] == 'h' && s[|m| + 3 + |i|] == '5'
  }

  lemma ShapedOf(m: string, i: string, c: char, rest: string)
    ensures Shaped(m + "_" + i + [c] + "h5" + rest, m, i, c)
  {
  }

  /** No match has a shorter `g0`: `g0` would have to stop at an underscore
      inside `m`. */
  lemma NoShorterModel(s: string, m: string, i: string, c: char)
    requires Shaped(s, m, i, c) && '_' !in m
    ensures forall l: nat, k: nat :: l < |m| ==> !MatchAt(s, l, k)
  {
    forall l: nat, k: nat | l < |m|
      ensures !MatchAt(s, l, k)
    {
      assert s[l] == m[l];
    }
  }

  /** No match with `g0 == m` has a shorter `g1`: it would need `h5` inside
      `i` followed by `c`. */
  lemma NoShorterIteration(s: string, m: string, i: string, c: char)
    requires Shaped(s, m, i, c) && !HasH5(i + [c])
    ensures forall k: nat :: k < |i| ==> !MatchAt(s, |m|, k)
  {
    var l := |m|;
    var ic := i + [c];
    forall k: nat | k < |i|
      ensures !MatchAt(s, l, k)
    {
      if k + 2 < |ic| {
        assert s[l + 2 + k] == ic[k + 1] && s[l + 3 + k] == ic[k + 2];
      }
    }
  }

  /** The match on a shaped name has `g0 == m` and `g1 == i`. */
  lemma MatchShaped(s: string, m: string, i: string, c: char)
    requires Shaped(s, m, i, c) && m != [] && '_' !in m && NoSpace(m)
    requires i != [] && NoSpace(i) && !HasH5(i + [c]) && c != '\n'
    ensures Match(s) == Some((|m|, |i|))
  {
    assert Solid(s, 0, |m|);
    assert Solid(s, |m| + 1, |m| + 1 + |i|) by {
      forall j | |m| + 1 <= j < |m| + 1 + |i|
        ensures !IsSpace(s[j])
      {
        assert s[j] == i[j - |m| - 1];
      }
    }
    assert MatchAt(s, |m|, |i|);
    NoShorterModel(s, m, i, c);
    NoShorterIteration(s, m, i, c);
  }

  /** A model id with no underscore and an iteration id followed by any
      non-newline character `c` and `h5` decode back to the two ids,
      whatever follows, as long as `h5` does not already occur in the
      iteration id followed by `c`. With `c` the dot, this is decoding a
      name `path` made; other choices show that `m_iXh5` and `m_i.h5.bak`
      decode too. */
  lemma DecodeOf(m: string, i: string, c: char, rest: string)
    requires m != [] && '_' !in m && '/' !in m && NoSpace(m)
    requires i != [] && '/' !in i && NoSpace(i) && !HasH5(i + [c])
    requires c != '\n' && c != '/' && '/' !in rest
    ensures PathDecode(m + "_" + i + [c] + "h5" + rest) == Some((m, i))
  {
    var s := m + "_" + i + [c] + "h5" + rest;
    ShapedOf(m, i, c, rest);
    MatchShaped(s, m, i, c);
    ShapedGroups(s, m, i, c);
    SlashFree(m, i, c, rest);
  }

  lemma SlashFree(m: string, i: string, c: char, rest: string)
    requires '/' !in m && '/' !in i && c != '/' && '/' !in rest
    ensures Basename(m + "_" + i + [c] + "h5" + rest) == m + "_" + i + [c] + "h5" + rest
  {
    assert '/' !in m + "_" + i + [c] + "h5" + rest;
  }

  /** The groups of a shaped name are `m` and `i`. */
  lemma ShapedGroups(s: string, m: string, i: string, c: char)
    requires Shaped(s, m, i, c)
    ensures s[..|m|] == m && s[|m| + 1..|m| + 1 + |i|] == i
  {
  }

  /** Decoding the file name `path` builds gives back the ids. */
  lemma PathDecodeRoundTrip(root: string, m: string, i: string)
    requires m != [] && '_' !in m && '/' !in m && NoSpace(m)
    requires i != [] && '/' !in i && NoSpace(i) && !HasH5(i)
    ensures PathDecode(PathOf(root, m, i, true)) == Some((m, i))
    ensures PathDecode(PathOf(root, m, i, false)) == Some((m, i))
  {
    var f := FileName(m, i);
    NoH5Dot(i);
    DecodeOf(m, i, '.', "");
    assert m + "_" + i + ['.'] + "h5" + "" == f;
    SlashFree(m, i, '.', "");
    BasenameOfJoin(root, f);
  }

  /** A dot after an id without `h5` does not make one. */
  lemma NoH5Dot(i: string)
    requires !HasH5(i)
    ensures !HasH5(i + ['.'])
  {
    var ic := i + ['.'];
    forall j | 0 <= j < |ic| - 1 && ic[j] == 'h'
      ensures ic[j + 1] != '5'
    {
      if j + 1 < |i| {
        assert ic[j] == i[j] && ic[j + 1] == i[j + 1];
      }
    }
  }

  /** A name not ending in the pattern's shape does not decode: with no
      underscore after the first character there is no match. */
  lemma NoUnderscoreNoMatch(s: string)
    requires forall j :: 1 <= j < |s| ==> s[j] != '_'
    ensures Match(s).None?
  {
  }

  // ---------------------------------------------------------------------
  // available()

  /** The decimal digits of `n`, as `str(n)`. */
  function Str(n: nat): (s: string)
    ensures |s| >= 1
  {
    if n < 10 then [Digit(n)] else Str(n / 10) + [Digit(n % 10)]
  }

  function Digit(d: nat): char
    requires d < 10
  {
    ('0' as int + d) as char
  }

  function Parse(s: string): int {
    if s == [] then 0 else Parse(s[..|s| - 1]) * 10 + (s[|s| - 1] as int - '0' as int)
  }

  /** `int(str(n)) == n`, so `str` is injective. */
  lemma {:induction false} ParseStr(n: nat)
    ensures Parse(Str(n)) == n
  {
    if n >= 10 {
      var s := Str(n);
      assert s[..|s| - 1] == Str(n / 10);
      ParseStr(n / 10);
    }
  }

  /** The iteration id the `k`-th probe of `available` tries. */
  function Probe(i: string, k: nat): string {
    if k == 0 then i else i + "_" + Str(k)
  }

  /** The path the `k`-th probe checks. */
  function ProbePath(root: string, m: string, i: string, k: nat): string {
    PathOf(root, m, Probe(i, k), false)
  }

  lemma JoinInjective(root: string, b1: string, b2: string)
    requires |b1| > 0 && |b2| > 0 && b1[0] == b2[0] && Join(root, b1) == Join(root, b2)
    ensures b1 == b2
  {
    if b1[0] != '/' {
      var pre := if root == [] || root[|root| - 1] == '/' then root else root + "/";
      assert Join(root, b1) == pre + b1 && Join(root, b2) == pre + b2;
      assert b1 == (pre + b1)[|pre|..];
      assert b2 == (pre + b2)[|pre|..];
    }
  }

  /** Different probes check different paths. */
  lemma ProbesDistinct(root: string, m: string, i: string, k1: nat, k2: nat)
    requires ProbePath(root, m, i, k1) == ProbePath(root, m, i, k2)
    ensures k1 == k2
  {
    var x1, x2 := Probe(i, k1), Probe(i, k2);
    var b1, b2 := FileName(m, x1), FileName(m, x2);
    assert b1[0] == b2[0] by {
      if m == [] {
        assert b1[0] == '_' && b2[0] == '_';
      } else {
        assert b1[0] == m[0] && b2[0] == m[0];
      }
    }
    JoinInjective(root, b1, b2);
    assert x1 == b1[|m| + 1..|b1| - 3];
    assert x2 == b2[|m| + 1..|b2| - 3];
    if k1 != 0 && k2 != 0 {
      assert Str(k1) == x1[|i| + 1..];
      assert Str(k2) == x2[|i| + 1..];
      ParseStr(k1);
      ParseStr(k2);
    }
  }

  /** As many probes as there are existing paths cannot all hit one: the
      probes are distinct, so the first `n` of them are `n` elements of
      `present`. */
  lemma {:induction false} ProbesBounded(root: string, m: string, i: string, present: set<string>, n: nat)
    requires forall k :: 0 <= k < n ==> ProbePath(root, m, i, k) in present
    ensures n <= |present|
  {
    if n > 0 {
      var last := ProbePath(root, m, i, n - 1);
      var rest := present - {last};
      forall k | 0 <= k < n - 1
        ensures ProbePath(root, m, i, k) in rest
      {
        if ProbePath(root, m, i, k) == last {
          ProbesDistinct(root, m, i, k, n - 1);
        }
      }
      ProbesBounded(root, m, i, rest, n - 1);
    }
  }

  /** The probing loop from probe `k` on. */
  function ProbeFrom(root: string, m: string, i: string, present: set<string>, k: nat): (r: nat)
    requires forall j :: 0 <= j < k ==> ProbePath(root, m, i, j) in present
    ensures k <= r && ProbePath(root, m, i, r) !in present
    ensures forall j :: 0 <= j < r ==> ProbePath(root, m, i, j) in present
    decreases |present| - k
  {
    ProbesBounded(root, m, i, present, k);
    if ProbePath(root, m, i, k) !in present then k
    else
      ProbesBounded(root, m, i, present, k + 1);
      ProbeFrom(root, m, i, present, k + 1)
  }

  /** `available(model_id, iter_id)`: `iter_id` itself if its path is free,
      else `iter_id_k` for the least `k` whose path is free. The loop ends
      because only finitely many paths exist. */
  function Available(root: string, m: string, i: string, present: set<string>): (r: (string, string))
    ensures r.0 == m && PathOf(root, m, r.1, false) !in present
    ensures PathOf(root, m, i, false) !in present ==> r.1 == i
    ensures PathOf(root, m, i, false) in present ==>
      exists k :: k >= 1 && r.1 == i + "_" + Str(k)
                 && forall j :: 0 <= j < k ==> ProbePath(root, m, i, j) in present
  {
    var k := ProbeFrom(root, m, i, present, 0);
    (m, Probe(i, k))
  }

  // ---------------------------------------------------------------------
  // list_weights() and weights_exist()

  /** The sort key `k[0] + k[1]`. */
  function KeyLe(a: (string, string), b: (string, string)): bool {
    StrLe(a.0 + a.1, b.0 + b.1)
  }

  lemma KeyLeTotalPreorder()
    ensures TotalPreorder(KeyLe)
  {
    forall x, y
      ensures KeyLe(x, y) || KeyLe(y, x)
    {
      StrLeTotal(x.0 + x.1, y.0 + y.1);
    }
    forall x, y, z | KeyLe(x, y) && KeyLe(y, z)
      ensures KeyLe(x, z)
    {
      StrLeTrans(x.0 + x.1, y.0 + y.1, z.0 + z.1);
    }
  }

  /** Each name decoded, in order. */
  function DecodeEach(names: seq<string>): (ds: seq<Option<(string, string)>>)
    ensures |ds| == |names| && forall k :: 0 <= k < |names| ==> ds[k] == PathDecode(names[k])
  {
    if names == [] then [] else [PathDecode(names[0])] + DecodeEach(names[1..])
  }

  /** The successful decodings among `ds`, in order, restricted to one
      model when one is given. */
  function Kept(ds: seq<Option<(string, string)>>, model: Option<string>): (r: seq<(string, string)>)
    ensures forall x :: x in r <==> Some(x) in ds && (model.None? || x.0 == model.value)
  {
    if ds == [] then []
    else
      var keep := ds[0].Some? && (model.None? || ds[0].value.0 == model.value);
      (if keep then [ds[0].value] else []) + Kept(ds[1..], model)
  }

  /** The decoded names of `names`, in order, restricted to one model when
      one is given. */
  function Decoded(names: seq<string>, model: Option<string>): (r: seq<(string, string)>)
    ensures forall x :: x in r <==>
      (exists f :: f in names && PathDecode(f) == Some(x)) && (model.None? || x.0 == model.value)
  {
    var ds := DecodeEach(names);
    assert forall x :: Some(x) in ds <==> exists f :: f in names && PathDecode(f) == Some(x) by {
      forall x
        ensures Some(x) in ds <==> exists f :: f in names && PathDecode(f) == Some(x)
      {
        if Some(x) in ds {
          var k :| 0 <= k < |ds| && ds[k] == Some(x);
          assert names[k] in names;
        }
        if exists f :: f in names && PathDecode(f) == Some(x) {
          var f :| f in names && PathDecode(f) == Some(x);
          var k :| 0 <= k < |names| && names[k] == f;
          assert ds[k] == Some(x);
        }
      }
    }
    Kept(ds, model)
  }

  /** `list_weights(model_id)` over the directory listing `names`: the
      decodable names, restricted to the model, sorted by model id plus
      iteration id. */
  function ListWeights(names: seq<string>, model: Option<string>): (r: seq<(string, string)>)
    ensures multiset(r) == multiset(Decoded(names, model))
    ensures Sorted(r, KeyLe)
    ensures forall x :: x in r <==>
      (exists f :: f in names && PathDecode(f) == Some(x)) && (model.None? || x.0 == model.value)
  {
    KeyLeTotalPreorder();
    SortSorted(Decoded(names, model), KeyLe);
    var r := Sort(Decoded(names, model), KeyLe);
    assert forall x :: x in r <==> x in multiset(r);
    r
  }

  /** `weights_exist(model_id, iter_id)`: with an iteration id, whether its
      path exists; without, whether any file of the model is listed. */
  function WeightsExist(root: string, names: seq<string>, present: set<string>,
                        m: string, i: Option<string>): (b: bool)
    ensures i.Some? ==> (b <==> PathOf(root, m, i.value, false) in present)
    ensures i.None? ==> (b <==> exists f :: f in names && PathDecode(f).Some? && PathDecode(f).value.0 == m)
  {
    if i.Some? then PathOf(root, m, i.value, false) in present
    else
      ListedIff(names, m);
      |ListWeights(names, Some(m))| > 0
  }

  /** Some weights of model `m` are listed exactly when some listed name
      decodes to model `m`. */
  lemma ListedIff(names: seq<string>, m: string)
    ensures ListWeights(names, Some(m)) != [] <==>
      exists f :: f in names && PathDecode(f).Some? && PathDecode(f).value.0 == m
  {
    var lst := ListWeights(names, Some(m));
    if exists f :: f in names && PathDecode(f).Some? && PathDecode(f).value.0 == m {
      var f :| f in names && PathDecode(f).Some? && PathDecode(f).value.0 == m;
      assert PathDecode(f).value in lst;
    }
    if lst != [] {
      assert lst[0] in lst;
    }
  }
}
