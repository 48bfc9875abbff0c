/**
 * `ORDER BY` and `LIMIT` over in-memory rows: an insertion sort by a caller-supplied
 * "comes no later than" relation, and the first `k` rows of the sorted result.
 */
module Sorting {

  /** The relation orders every pair and is transitive (ties are allowed). */
  ghost predicate IsTotalPreorder<T(!new)>(le: (T, T) -> bool)
  {
    && (forall x, y :: le(x, y) || le(y, x))
    && (forall x, y, z :: le(x, y) && le(y, z) ==> le(x, z))
  }

  predicate SortedBy<T>(s: seq<T>, le: (T, T) -> bool)
  {
    forall i, j :: 0 <= i < j < |s| ==> le(s[i], s[j])
  }

  /** Inserts `x` before the first element it may precede. */
  function InsertBy<T>(x: T, s: seq<T>, le: (T, T) -> bool): (r: seq<T>)
    ensures multiset(r) == multiset(s) + multiset{x}
  {
    if s == [] || le(x, s[0]) then [x] + s
    else
      assert s == [s[0]] + s[1..];
      [s[0]] + InsertBy(x, s[1..], le)
  }

  /** A sorted sequence stays sorted under a new head that comes no later than any element. */
  lemma ConsSorted<T>(h: T, t: seq<T>, le: (T, T) -> bool)
    requires SortedBy(t, le) && forall i :: 0 <= i < |t| ==> le(h, t[i])
    ensures SortedBy([h] + t, le)
  {
    var r := [h] + t;
    forall i, j | 0 <= i < j < |r|
      ensures le(r[i], r[j])
    {
      if i == 0 {
        assert r[j] == t[j - 1];
      } else {
        assert r[i] == t[i - 1] && r[j] == t[j - 1];
      }
    }
  }

  lemma {:induction false} InsertBySorted<T(!new)>(x: T, s: seq<T>, le: (T, T) -> bool)
    requires IsTotalPreorder(le) && SortedBy(s, le)
    ensures SortedBy(InsertBy(x, s, le), le)
  {
    if s == [] {
    } else if le(x, s[0]) {
      forall i | 0 <= i < |s|
        ensures le(x, s[i])
      {
        if i > 0 {
          assert le(s[0], s[i]);
        }
      }
      ConsSorted(x, s, le);
    } else {
      var tail := InsertBy(x, s[1..], le);
      InsertBySorted(x, s[1..], le);
      forall k | 0 <= k < |tail|
        ensures le(s[0], tail[k])
      {
        var y := tail[k];
        assert y in multiset(tail);
        if y != x {
          assert y in multiset(s[1..]);
          var j :| 0 <= j < |s[1..]| && s[1..][j] == y;
          assert s[1 + j] == y;
        }
      }
      ConsSorted(s[0], tail, le);
    }
  }

  /** The elements of `s`, sorted by `le`. */
  function SortBy<T>(s: seq<T>, le: (T, T) -> bool): (r: seq<T>)
    ensures multiset(r) == multiset(s)
    ensures |r| == |s|
  {
    if s == [] then []
    else
      assert s == [s[0]] + s[1..];
      InsertBy(s[0], SortBy(s[1..], le), le)
  }

  lemma {:induction false} SortBySorted<T(!new)>(s: seq<T>, le: (T, T) -> bool)
    requires IsTotalPreorder(le)
    ensures SortedBy(SortBy(s, le), le)
  {
    if s != [] {
      SortBySorted(s[1..], le);
      InsertBySorted(s[0], SortBy(s[1..], le), le);
    }
  }

  /** In a sorted sequence, every element of a prefix comes no later than any element left out of it. */
  lemma PrefixComesFirst<T>(sorted: seq<T>, le: (T, T) -> bool, n: nat)
    requires SortedBy(sorted, le) && n <= |sorted|
    ensures SortedBy(sorted[..n], le) && multiset(sorted[..n]) <= multiset(sorted)
    ensures multiset(sorted) - multiset(sorted[..n]) == multiset(sorted[n..])
    ensures forall x, i :: x in multiset(sorted[n..]) && 0 <= i < n ==> le(sorted[..n][i], x)
  {
    assert sorted == sorted[..n] + sorted[n..];
    forall x, i | x in multiset(sorted[n..]) && 0 <= i < n
      ensures le(sorted[..n][i], x)
    {
      var j :| 0 <= j < |sorted[n..]| && sorted[n..][j] == x;
      assert sorted[n + j] == x;
    }
  }

  /** `ORDER BY ... LIMIT k`: the first `k` elements of the sorted sequence (all if fewer). */
  function TopBy<T(!new)>(s: seq<T>, le: (T, T) -> bool, k: nat): (r: seq<T>)
    requires IsTotalPreorder(le)
    ensures |r| == if |s| < k then |s| else k
    ensures SortedBy(r, le)
    ensures multiset(r) <= multiset(s)
    ensures forall x, i :: x in multiset(s) - multiset(r) && 0 <= i < |r| ==> le(r[i], x)
  {
    var sorted := SortBy(s, le);
    SortBySorted(s, le);
    var n := if |s| < k then |s| else k;
    PrefixComesFirst(sorted, le, n);
    sorted[..n]
  }
}
