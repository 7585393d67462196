/** Python's `sorted` as a stable insertion sort under a total preorder
    `le`. An element is inserted in front of the first element it is
    `le`-below, so of two equivalent elements the one that came first
    stays first, as in Python's stable sort. A descending sort by a key
    (`sorted(..., reverse=True)`) is the same sort with `le` reversed:
    Python's `reverse=True` also keeps equal elements in their original order. */
module Sorting {

  ghost predicate TotalPreorder<T(!new)>(le: (T, T) -> bool) {
    && (forall x, y :: le(x, y) || le(y, x))
    && (forall x, y, z :: le(x, y) && le(y, z) ==> le(x, z))
  }

  ghost predicate Sorted<T>(s: seq<T>, le: (T, T) -> bool) {
    forall i, j :: 0 <= i < j < |s| ==> le(s[i], s[j])
  }

  /** `s[i]` is `le`-below every element and strictly below every element
      before it: the element a stable sort puts first. */
  ghost predicate IsFirstLeast<T>(s: seq<T>, i: int, le: (T, T) -> bool) {
    && 0 <= i < |s|
    && (forall j :: 0 <= j < |s| ==> le(s[i], s[j]))
    && (forall j :: 0 <= j < i ==> !le(s[j], s[i]))
  }

  function Insert<T>(x: T, t: seq<T>, le: (T, T) -> bool): (r: seq<T>)
    ensures multiset(r) == multiset(t) + multiset{x}
    ensures |r| == |t| + 1
  {
    if t == [] || le(x, t[0]) then [x] + t
    else
      assert t == [t[0]] + t[1..];
      [t[0]] + Insert(x, t[1..], le)
  }

  function Sort<T>(s: seq<T>, le: (T, T) -> bool): (r: seq<T>)
    ensures multiset(r) == multiset(s)
    ensures |r| == |s|
  {
    if s == [] then []
    else
      assert s == [s[0]] + s[1..];
      Insert(s[0], Sort(s[1..], le), le)
  }

  lemma {:induction false} InsertSorted<T(!new)>(x: T, t: seq<T>, le: (T, T) -> bool)
    requires TotalPreorder(le) && Sorted(t, le)
    ensures Sorted(Insert(x, t, le), le)
  {
    if t == [] || le(x, t[0]) {
    } else {
      InsertSorted(x, t[1..], le);
      var r := Insert(x, t, le);
      var tail := Insert(x, t[1..], le);
      assert r == [t[0]] + tail;
      forall j | 0 <= j < |tail|
        ensures le(t[0], tail[j])
      {
        assert tail[j] in multiset(tail);
        if tail[j] != x {
          assert tail[j] in multiset(t[1..]);
          var m :| 0 <= m < |t[1..]| && t[1..][m] == tail[j];
        }
      }
    }
  }

  /** The result of `Sort` is ordered by `le`. */
  lemma {:induction false} SortSorted<T(!new)>(s: seq<T>, le: (T, T) -> bool)
    requires TotalPreorder(le)
    ensures Sorted(Sort(s, le), le)
  {
    if s != [] {
      SortSorted(s[1..], le);
      InsertSorted(s[0], Sort(s[1..], le), le);
    }
  }

  /** Stability at the head: the first element of the sorted sequence is
      the first element of `s` that is `le`-below all others. */
  lemma {:induction false} SortHead<T(!new)>(s: seq<T>, le: (T, T) -> bool) returns (i: nat)
    requires TotalPreorder(le) && s != []
    ensures IsFirstLeast(s, i, le) && Sort(s, le)[0] == s[i]
  {
    if s[1..] == [] {
      i := 0;
    } else {
      var i' := SortHead(s[1..], le);
      var t := Sort(s[1..], le);
      assert Sort(s, le) == Insert(s[0], t, le);
      if le(s[0], t[0]) {
        i := 0;
        HeadStays(s, le, i');
      } else {
        i := i' + 1;
        HeadMoves(s, le, i');
      }
    }
  }

  /** A head no greater than the tail's first least stays first. */
  lemma HeadStays<T(!new)>(s: seq<T>, le: (T, T) -> bool, i': nat)
    requires TotalPreorder(le) && |s| > 1 && IsFirstLeast(s[1..], i', le) && le(s[0], s[1..][i'])
    ensures IsFirstLeast(s, 0, le)
  {
    forall j | 0 <= j < |s|
      ensures le(s[0], s[j])
    {
      if j > 0 {
        assert s[j] == s[1..][j - 1];
      }
    }
  }

  /** Otherwise the tail's first least is the first least of the whole. */
  lemma HeadMoves<T(!new)>(s: seq<T>, le: (T, T) -> bool, i': nat)
    requires TotalPreorder(le) && |s| > 1 && IsFirstLeast(s[1..], i', le) && !le(s[0], s[1..][i'])
    ensures IsFirstLeast(s, i' + 1, le)
  {
    var i := i' + 1;
    forall j | 0 <= j < |s|
      ensures le(s[i], s[j])
    {
      if j > 0 {
        assert s[j] == s[1..][j - 1];
      }
    }
    forall j | 0 <= j < i
      ensures !le(s[j], s[i])
    {
      if j > 0 {
        assert s[j] == s[1..][j - 1];
      }
    }
  }
}
