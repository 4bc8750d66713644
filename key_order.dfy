/**
 * The order in which IndexedDB compares the keys of an index: strings by
 * their characters, lexicographically, and the compound key
 * `[subjectId+date]` as a pair, first component first.
 */
module KeyOrder {

  /** `a` sorts strictly before `b`: a proper prefix, or smaller at the first difference. */
  predicate StrLess(a: string, b: string)
  {
    if a == [] then b != []
    else if b == [] then false
    else if a[0] != b[0] then a[0] < b[0]
    else StrLess(a[1..], b[1..])
  }

  predicate StrLessEq(a: string, b: string)
  {
    !StrLess(b, a)
  }

  lemma {:induction false} StrLessIrreflexive(a: string)
    ensures !StrLess(a, a)
  {
    if a != [] {
      StrLessIrreflexive(a[1..]);
    }
  }

  lemma {:induction false} StrLessTransitive(a: string, b: string, c: string)
    requires StrLess(a, b) && StrLess(b, c)
    ensures StrLess(a, c)
  {
    if a != [] && b != [] && c != [] && a[0] == b[0] && b[0] == c[0] {
      StrLessTransitive(a[1..], b[1..], c[1..]);
    }
  }

  /** Two different strings are always ordered one way or the other. */
  lemma {:induction false} StrLessTotal(a: string, b: string)
    requires a != b
    ensures StrLess(a, b) || StrLess(b, a)
  {
    if a != [] && b != [] && a[0] == b[0] {
      assert a == [a[0]] + a[1..] && b == [b[0]] + b[1..];
      StrLessTotal(a[1..], b[1..]);
    }
  }

  lemma {:induction false} StrLessAsymmetric(a: string, b: string)
    requires StrLess(a, b)
    ensures !StrLess(b, a)
  {
    if a != [] && b != [] && a[0] == b[0] {
      StrLessAsymmetric(a[1..], b[1..]);
    }
  }

  /** A common prefix does not change how two strings compare. */
  lemma {:induction false} StrLessCommonPrefix(p: string, a: string, b: string)
    ensures StrLess(p + a, p + b) <==> StrLess(a, b)
  {
    if p != [] {
      assert (p + a)[1..] == p[1..] + a;
      assert (p + b)[1..] == p[1..] + b;
      StrLessCommonPrefix(p[1..], a, b);
    } else {
      assert p + a == a && p + b == b;
    }
  }

  /** A string that sorts between `p + x` (inclusive) and `p + y` (exclusive) starts with `p`. */
  lemma {:induction false} BetweenHasPrefix(p: string, x: string, y: string, d: string)
    requires StrLessEq(p + x, d) && StrLess(d, p + y)
    ensures p <= d
  {
    if p != [] {
      assert (p + x)[0] == p[0] && (p + y)[0] == p[0];
      assert (p + x)[1..] == p[1..] + x;
      assert (p + y)[1..] == p[1..] + y;
      BetweenHasPrefix(p[1..], x, y, d[1..]);
    }
  }

  /** The order of compound keys `[a, b]`: by `a`, then by `b`. */
  predicate PairLess(k: (string, string), l: (string, string))
  {
    StrLess(k.0, l.0) || (k.0 == l.0 && StrLess(k.1, l.1))
  }

  /**
   * Keys that Dexie's `between(lower, upper)` selects: at or after `lower`
   * and strictly before `upper`, or at or before `upper` when
   * `includeUpper` is set.
   */
  predicate InKeyRange(k: (string, string), lower: (string, string), upper: (string, string), includeUpper: bool): (r: bool)
    ensures r ==> k == lower || PairLess(lower, k)
    ensures r ==> PairLess(k, upper) || (includeUpper && k == upper)
  {
    PairLessTotal(k, lower);
    !PairLess(k, lower) && (PairLess(k, upper) || (includeUpper && k == upper))
  }

  /** Two different compound keys are always ordered one way or the other. */
  lemma PairLessTotal(k: (string, string), l: (string, string))
    ensures k == l || PairLess(k, l) || PairLess(l, k)
  {
    if k.0 != l.0 {
      StrLessTotal(k.0, l.0);
    } else if k.1 != l.1 {
      StrLessTotal(k.1, l.1);
    }
  }

  /** With both bounds on one subject, the range is that subject's dates in the string range. */
  lemma OneSubjectRange(k: (string, string), sid: string, lo: string, hi: string, includeUpper: bool)
    ensures InKeyRange(k, (sid, lo), (sid, hi), includeUpper)
            <==> k.0 == sid && StrLessEq(lo, k.1) && (StrLess(k.1, hi) || (includeUpper && k.1 == hi))
  {
    StrLessIrreflexive(sid);
    if k.0 != sid {
      StrLessTotal(k.0, sid);
      if StrLess(sid, k.0) {
        StrLessAsymmetric(sid, k.0);
      }
    }
  }
}
