/** `Array.prototype.filter` and the table scans built on it. */
module Seqs {

  /** The elements of `s` that satisfy `p`, in their order in `s`. */
  function Filter<T(!new)>(s: seq<T>, p: T -> bool): (r: seq<T>)
    ensures |r| <= |s|
    ensures forall x :: x in r <==> x in s && p(x)
  {
    if s == [] then []
    else if p(s[0]) then [s[0]] + Filter(s[1..], p)
    else Filter(s[1..], p)
  }

  /** Filtering what was appended filters the appended element alone. */
  lemma {:induction false} FilterAppend<T(!new)>(s: seq<T>, x: T, p: T -> bool)
    ensures Filter(s + [x], p) == Filter(s, p) + (if p(x) then [x] else [])
  {
    if s != [] {
      assert (s + [x])[1..] == s[1..] + [x];
      FilterAppend(s[1..], x, p);
    }
  }

  /** Filtering by `p` first changes nothing when `q` already implies `p`. */
  lemma {:induction false} FilterFilter<T(!new)>(s: seq<T>, p: T -> bool, q: T -> bool)
    requires forall x :: q(x) ==> p(x)
    ensures Filter(Filter(s, p), q) == Filter(s, q)
  {
    if s != [] {
      FilterFilter(s[1..], p, q);
    }
  }

  /** A filter keeps everything when every element passes, and nothing when none does. */
  lemma {:induction false} FilterAllOrNone<T(!new)>(s: seq<T>, p: T -> bool)
    ensures (forall x :: x in s ==> p(x)) ==> Filter(s, p) == s
    ensures (forall x :: x in s ==> !p(x)) ==> Filter(s, p) == []
  {
    if s != [] {
      FilterAllOrNone(s[1..], p);
    }
  }

  /** No two positions of `s` agree on `f`. */
  ghost predicate DistinctBy<T, K>(s: seq<T>, f: T -> K)
  {
    forall i, j :: 0 <= i < j < |s| ==> f(s[i]) != f(s[j])
  }

  /** Under `DistinctBy`, two elements of `s` that agree on `f` are equal. */
  lemma DistinctByAgree<T, K>(s: seq<T>, f: T -> K, x: T, y: T)
    requires DistinctBy(s, f) && x in s && y in s && f(x) == f(y)
    ensures x == y
  {
    var i :| 0 <= i < |s| && s[i] == x;
    var j :| 0 <= j < |s| && s[j] == y;
    assert !(i < j) && !(j < i);
  }

  /** A filtered sequence keeps the distinctness of the sequence it came from. */
  lemma {:induction false} FilterKeepsDistinct<T(!new), K>(s: seq<T>, p: T -> bool, f: T -> K)
    requires DistinctBy(s, f)
    ensures DistinctBy(Filter(s, p), f)
  {
    if s != [] {
      var tail := s[1..];
      assert DistinctBy(tail, f) by {
        forall i, j | 0 <= i < j < |tail| ensures f(tail[i]) != f(tail[j]) {
          assert tail[i] == s[i + 1] && tail[j] == s[j + 1];
        }
      }
      FilterKeepsDistinct(tail, p, f);
      if p(s[0]) {
        var r := Filter(s, p);
        var rt := Filter(tail, p);
        assert r == [s[0]] + rt;
        forall i, j | 0 <= i < j < |r| ensures f(r[i]) != f(r[j]) {
          if i == 0 {
            assert r[j] == rt[j - 1] && r[j] in tail;
            var k :| 0 <= k < |tail| && tail[k] == r[j];
            assert s[k + 1] == r[j];
          } else {
            assert r[i] == rt[i - 1] && r[j] == rt[j - 1];
          }
        }
      }
    }
  }

  /** Appending an element whose `f` is new keeps `DistinctBy`. */
  lemma DistinctByAppend<T, K>(s: seq<T>, x: T, f: T -> K)
    requires DistinctBy(s, f)
    requires forall y :: y in s ==> f(y) != f(x)
    ensures DistinctBy(s + [x], f)
  {
    var t := s + [x];
    forall i, j | 0 <= i < j < |t| ensures f(t[i]) != f(t[j]) {
      assert t[i] == s[i];
      if j < |s| {
        assert t[j] == s[j];
      }
    }
  }
}
