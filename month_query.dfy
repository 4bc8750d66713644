/**
 * `getAttendanceForMonth(subjectId, year, month)`: the range query over the
 * compound index `[subjectId+date]` from `[subjectId, "YYYY-MM-01"]` to
 * `[subjectId, "YYYY-MM-31"]`.
 */
module MonthQuery {

  import opened Seqs
  import opened Records
  import opened JsStrings
  import opened KeyOrder

  /**
   * `${year}-${String(month).padStart(2, '0')}-`, the text both bounds start
   * with. It ends with `-`; for a nonnegative year and a month below 100 it
   * is the year's digits, `-`, two digits spelling the month, and `-`.
   */
  function MonthPrefix(year: int, month: int): (r: string)
    ensures |r| > 0 && r[|r| - 1] == '-'
    ensures year >= 0 && 0 <= month < 100 ==>
              var ys := Decimal(year);
              && |r| == |ys| + 4 && r[..|ys|] == ys && r[|ys|] == '-'
              && AllDigits(r[|ys| + 1..|ys| + 3]) && DigitsValue(r[|ys| + 1..|ys| + 3]) == month
  {
    var ys := NumberToString(year);
    var ms := PadStart(NumberToString(month), 2, '0');
    DashedFields(ys, ms);
    if year >= 0 && 0 <= month < 100 then
      DecimalBelow100(month);
      PadStartValue(month, 2);
      ys + "-" + ms + "-"
    else ys + "-" + ms + "-"
  }

  /** The fields of `ys-ms-`, by position. */
  lemma DashedFields(ys: string, ms: string)
    ensures var r := ys + "-" + ms + "-";
            && |r| == |ys| + |ms| + 2 && r[..|ys|] == ys && r[|ys|] == '-'
            && r[|ys| + 1..|ys| + 1 + |ms|] == ms && r[|r| - 1] == '-'
  {
    var r := ys + "-" + ms + "-";
    assert r == ys + ("-" + ms + "-");
  }

  /** A number below 100 has at most two decimal digits. */
  lemma DecimalBelow100(n: nat)
    requires n < 100
    ensures |Decimal(n)| <= 2
  {
    if n >= 10 {
      assert |Decimal(n / 10)| == 1;
    }
  }

  /** The lower bound: the month's prefix and the day `01`. */
  function MonthStart(year: int, month: int): (r: string)
    ensures |r| == |MonthPrefix(year, month)| + 2 && r[..|r| - 2] == MonthPrefix(year, month)
    ensures IsDigit(r[|r| - 2]) && IsDigit(r[|r| - 1]) && DayValue(r[|r| - 2], r[|r| - 1]) == 1
  {
    MonthPrefix(year, month) + "01"
  }

  /** The upper bound: the month's prefix and the day `31`, whatever the month's length. */
  function MonthEnd(year: int, month: int): (r: string)
    ensures |r| == |MonthPrefix(year, month)| + 2 && r[..|r| - 2] == MonthPrefix(year, month)
    ensures IsDigit(r[|r| - 2]) && IsDigit(r[|r| - 1]) && DayValue(r[|r| - 2], r[|r| - 1]) == 31
  {
    MonthPrefix(year, month) + "31"
  }

  /**
   * The rows `between([subjectId, lower], [subjectId, upper], true, includeUpper)`
   * selects: the subject's rows whose date is at or after `lower` and before
   * `upper`, or equal to it when `includeUpper` is set.
   */
  function RowsBetween(rows: seq<Attendance>, subjectId: string, lower: string, upper: string,
                       includeUpper: bool): (r: seq<Attendance>)
    ensures forall a :: a in r <==>
              && a in rows && a.subjectId == subjectId && StrLessEq(lower, a.date)
              && (StrLess(a.date, upper) || (includeUpper && a.date == upper))
  {
    var r := Filter(rows, (a: Attendance) => InKeyRange(Key(a), (subjectId, lower), (subjectId, upper), includeUpper));
    forall a ensures InKeyRange(Key(a), (subjectId, lower), (subjectId, upper), includeUpper)
                     <==> a.subjectId == subjectId && StrLessEq(lower, a.date)
                          && (StrLess(a.date, upper) || (includeUpper && a.date == upper))
    {
      OneSubjectRange(Key(a), subjectId, lower, upper, includeUpper);
    }
    r
  }

  /**
   * The query as the source writes it: Dexie's `between` leaves the upper
   * bound out. Every row returned is the subject's and dated in the month.
   */
  function GetAttendanceForMonth(rows: seq<Attendance>, subjectId: string, year: int, month: int): (r: seq<Attendance>)
    ensures forall a :: a in r ==> a in rows && a.subjectId == subjectId && MonthPrefix(year, month) <= a.date
  {
    var r := RowsBetween(rows, subjectId, MonthStart(year, month), MonthEnd(year, month), false);
    forall a | a in r ensures MonthPrefix(year, month) <= a.date {
      RangeHasPrefix(rows, subjectId, MonthPrefix(year, month), false, a);
    }
    r
  }

  /**
   * The query with the upper bound included, `between(lower, upper, true, true)`.
   * Every row returned is the subject's and dated in the month.
   */
  function GetAttendanceForWholeMonth(rows: seq<Attendance>, subjectId: string, year: int, month: int): (r: seq<Attendance>)
    ensures forall a :: a in r ==> a in rows && a.subjectId == subjectId && MonthPrefix(year, month) <= a.date
  {
    var r := RowsBetween(rows, subjectId, MonthStart(year, month), MonthEnd(year, month), true);
    forall a | a in r ensures MonthPrefix(year, month) <= a.date {
      RangeHasPrefix(rows, subjectId, MonthPrefix(year, month), true, a);
    }
    r
  }

  /** The bounds are ordered, so the range is never inverted. */
  lemma BoundsOrdered(year: int, month: int)
    ensures StrLess(MonthStart(year, month), MonthEnd(year, month))
  {
    StrLessCommonPrefix(MonthPrefix(year, month), "01", "31");
  }

  /**
   * A row is returned exactly when it belongs to the subject and its date
   * sorts at or after the first bound and strictly before the second.
   */
  lemma MonthQueryMembership(rows: seq<Attendance>, subjectId: string, year: int, month: int, a: Attendance)
    ensures a in GetAttendanceForMonth(rows, subjectId, year, month)
            <==> a in rows && a.subjectId == subjectId
                 && StrLessEq(MonthStart(year, month), a.date) && StrLess(a.date, MonthEnd(year, month))
  {
    OneSubjectRange(Key(a), subjectId, MonthStart(year, month), MonthEnd(year, month), false);
  }

  function DayValue(d1: char, d2: char): nat
    requires IsDigit(d1) && IsDigit(d2)
  {
    10 * DigitValue(d1) + DigitValue(d2)
  }

  /** How two two-digit day strings compare: by the number they spell. */
  lemma DayLess(d1: char, d2: char, e1: char, e2: char)
    requires IsDigit(d1) && IsDigit(d2) && IsDigit(e1) && IsDigit(e2)
    ensures StrLess([d1, d2], [e1, e2]) <==> DayValue(d1, d2) < DayValue(e1, e2)
  {
    assert [d1, d2][1..] == [d2] && [e1, e2][1..] == [e2];
    assert [d2][1..] == [] && [e2][1..] == [];
    assert !StrLess([], []);
    assert StrLess([d2], [e2]) <==> d2 < e2;
    assert d1 < e1 <==> DigitValue(d1) < DigitValue(e1);
  }

  /**
   * For a date `p + DD` of the subject, the range from `p + "01"` to `p + "31"`
   * holds the row exactly for the days 01 to 30, or 01 to 31 when the upper
   * bound is included.
   */
  lemma RangeDays(rows: seq<Attendance>, subjectId: string, p: string, includeUpper: bool,
                  a: Attendance, d1: char, d2: char)
    requires a in rows && a.subjectId == subjectId
    requires IsDigit(d1) && IsDigit(d2) && a.date == p + [d1, d2]
    ensures a in RowsBetween(rows, subjectId, p + "01", p + "31", includeUpper)
            <==> 1 <= DayValue(d1, d2) <= (if includeUpper then 31 else 30)
  {
    OneSubjectRange(Key(a), subjectId, p + "01", p + "31", includeUpper);
    StrLessCommonPrefix(p, [d1, d2], "01");
    StrLessCommonPrefix(p, [d1, d2], "31");
    DayLess(d1, d2, '0', '1');
    DayLess(d1, d2, '3', '1');
    assert a.date == p + "31" <==> [d1, d2] == "31" by {
      if a.date == p + "31" {
        assert [d1, d2] == a.date[|p|..] == "31";
      }
    }
  }

  /**
   * For a date `YYYY-MM-DD` of the subject, the query returns the row exactly
   * for the days 01 to 30: a row dated the 31st is never returned.
   */
  lemma MonthQueryDays(rows: seq<Attendance>, subjectId: string, year: int, month: int,
                       a: Attendance, d1: char, d2: char)
    requires a in rows && a.subjectId == subjectId
    requires IsDigit(d1) && IsDigit(d2) && a.date == MonthPrefix(year, month) + [d1, d2]
    ensures a in GetAttendanceForMonth(rows, subjectId, year, month) <==> 1 <= DayValue(d1, d2) <= 30
  {
    RangeDays(rows, subjectId, MonthPrefix(year, month), false, a, d1, d2);
  }

  /** Concretely: with the source's bounds, a row dated 2024-01-31 is not in January 2024. */
  lemma JanuaryThe31stIsDropped(rows: seq<Attendance>, id: string, subjectId: string, status: string)
    requires Attendance(id, subjectId, "2024-01-31", status) in rows
    ensures Attendance(id, subjectId, "2024-01-31", status) !in GetAttendanceForMonth(rows, subjectId, 2024, 1)
  {
    JanuaryPrefix();
    The31stIsDropped(rows, subjectId, 2024, 1, Attendance(id, subjectId, "2024-01-31", status));
  }

  lemma JanuaryPrefix()
    ensures MonthPrefix(2024, 1) == "2024-01-"
  {
    assert Decimal(2024) == "2024" by {
      assert Decimal(202) == "202" by {
        assert Decimal(20) == "20";
      }
    }
    assert NumberToString(2024) == "2024";
    assert NumberToString(1) == "1";
    assert seq(1, _ => '0') == "0";
    assert PadStart("1", 2, '0') == "01";
    assert "2024" + "-" + "01" + "-" == "2024-01-";
  }

  /** With the upper bound included, every day 01 to 31 of the month is returned. */
  lemma WholeMonthDays(rows: seq<Attendance>, subjectId: string, year: int, month: int,
                       a: Attendance, d1: char, d2: char)
    requires a in rows && a.subjectId == subjectId
    requires IsDigit(d1) && IsDigit(d2) && a.date == MonthPrefix(year, month) + [d1, d2]
    ensures a in GetAttendanceForWholeMonth(rows, subjectId, year, month) <==> 1 <= DayValue(d1, d2) <= 31
  {
    RangeDays(rows, subjectId, MonthPrefix(year, month), true, a, d1, d2);
  }

  /** Whichever the upper bound, a date in the range starts with `p`. */
  lemma RangeHasPrefix(rows: seq<Attendance>, subjectId: string, p: string, includeUpper: bool, a: Attendance)
    requires a in RowsBetween(rows, subjectId, p + "01", p + "31", includeUpper)
    ensures p <= a.date
  {
    OneSubjectRange(Key(a), subjectId, p + "01", p + "31", includeUpper);
    if a.date != p + "31" {
      BetweenHasPrefix(p, "01", "31", a.date);
    }
  }

  /** Every date either query returns starts with `YYYY-MM-`. */
  lemma MonthQueryDatesInMonth(rows: seq<Attendance>, subjectId: string, year: int, month: int, a: Attendance)
    requires a in GetAttendanceForMonth(rows, subjectId, year, month)
             || a in GetAttendanceForWholeMonth(rows, subjectId, year, month)
    ensures MonthPrefix(year, month) <= a.date
  {
    var p := MonthPrefix(year, month);
    if a in GetAttendanceForMonth(rows, subjectId, year, month) {
      RangeHasPrefix(rows, subjectId, p, false, a);
    } else {
      RangeHasPrefix(rows, subjectId, p, true, a);
    }
  }

  /** Two `digits-...` texts, one a prefix of the other, agree on the leading digits. */
  lemma {:induction false} DigitFieldPrefix(a: string, t: string, b: string, u: string)
    requires AllDigits(a) && AllDigits(b)
    requires a + ['-'] + t <= b + ['-'] + u
    ensures a == b && t <= u
  {
    var x := a + ['-'] + t;
    var y := b + ['-'] + u;
    assert x[0] == y[0];
    assert x[0] == (if a == [] then '-' else a[0]);
    assert y[0] == (if b == [] then '-' else b[0]);
    assert x[1..] <= y[1..];
    if a == [] {
      assert x[1..] == t && y[1..] == u;
    } else {
      assert x[1..] == a[1..] + ['-'] + t;
      assert y[1..] == b[1..] + ['-'] + u;
      DigitFieldPrefix(a[1..], t, b[1..], u);
      assert a == [a[0]] + a[1..] && b == [b[0]] + b[1..];
    }
  }

  /** In `Y-M-`, with `Y` and `M` digit strings, a prefix of the same shape has the same `Y` and `M`. */
  lemma DashedFieldsPrefix(ys: string, ms: string, ys2: string, ms2: string)
    requires AllDigits(ys) && AllDigits(ms) && AllDigits(ys2) && AllDigits(ms2)
    requires ys + ['-'] + ms + ['-'] <= ys2 + ['-'] + ms2 + ['-']
    ensures ys == ys2 && ms == ms2
  {
    assert ys + ['-'] + ms + ['-'] == ys + ['-'] + (ms + ['-']);
    assert ys2 + ['-'] + ms2 + ['-'] == ys2 + ['-'] + (ms2 + ['-']);
    DigitFieldPrefix(ys, ms + ['-'], ys2, ms2 + ['-']);
    assert ms + ['-'] + [] == ms + ['-'] && ms2 + ['-'] + [] == ms2 + ['-'];
    DigitFieldPrefix(ms, [], ms2, []);
  }

  /** For nonnegative numbers, `MonthPrefix(year, month)` is `Y-MM-` with `Y` and `MM` spelling them. */
  lemma MonthPrefixFields(year: nat, month: nat)
    ensures var ms := PadStart(Decimal(month), 2, '0');
            && MonthPrefix(year, month) == Decimal(year) + ['-'] + ms + ['-']
            && AllDigits(Decimal(year)) && DigitsValue(Decimal(year)) == year
            && AllDigits(ms) && DigitsValue(ms) == month
  {
    PadStartValue(month, 2);
    DecimalRoundTrip(year);
  }

  /** `MonthPrefix` tells the months apart: of two different months, neither prefix starts the other. */
  lemma MonthPrefixInjective(year: nat, month: nat, year2: nat, month2: nat)
    requires MonthPrefix(year, month) <= MonthPrefix(year2, month2)
    ensures year == year2 && month == month2
  {
    MonthPrefixFields(year, month);
    MonthPrefixFields(year2, month2);
    DashedFieldsPrefix(Decimal(year), PadStart(Decimal(month), 2, '0'),
                       Decimal(year2), PadStart(Decimal(month2), 2, '0'));
  }

  /** Two prefixes of one string: the shorter is a prefix of the longer. */
  lemma CommonPrefixes(p: string, q: string, d: string)
    requires p <= d && q <= d
    ensures p <= q || q <= p
  {
    if |p| <= |q| {
      assert p == d[..|p|] == q[..|p|];
    } else {
      assert q == d[..|q|] == p[..|q|];
    }
  }

  /** Only one month's prefix can start a given date. */
  lemma DateDeterminesMonth(year: nat, month: nat, year2: nat, month2: nat, date: string)
    requires MonthPrefix(year, month) <= date && MonthPrefix(year2, month2) <= date
    ensures year == year2 && month == month2
  {
    CommonPrefixes(MonthPrefix(year, month), MonthPrefix(year2, month2), date);
    if MonthPrefix(year, month) <= MonthPrefix(year2, month2) {
      MonthPrefixInjective(year, month, year2, month2);
    } else {
      MonthPrefixInjective(year2, month2, year, month);
    }
  }

  /**
   * A row dated in any other month (years and months being nonnegative) is
   * never returned: in particular no date of the next month.
   */
  lemma MonthQueryExcludesOtherMonths(rows: seq<Attendance>, subjectId: string, year: nat, month: nat,
                                      otherYear: nat, otherMonth: nat, a: Attendance)
    requires (otherYear, otherMonth) != (year, month)
    requires MonthPrefix(otherYear, otherMonth) <= a.date
    ensures a !in GetAttendanceForMonth(rows, subjectId, year, month)
    ensures a !in GetAttendanceForWholeMonth(rows, subjectId, year, month)
  {
    if a in GetAttendanceForMonth(rows, subjectId, year, month)
       || a in GetAttendanceForWholeMonth(rows, subjectId, year, month)
    {
      MonthQueryDatesInMonth(rows, subjectId, year, month, a);
      DateDeterminesMonth(year, month, otherYear, otherMonth, a.date);
    }
  }

  /** With the source's bounds, a row dated the 31st is never in its month. */
  lemma The31stIsDropped(rows: seq<Attendance>, subjectId: string, year: int, month: int, a: Attendance)
    requires a.date == MonthPrefix(year, month) + "31"
    ensures a !in GetAttendanceForMonth(rows, subjectId, year, month)
  {
    if a in rows && a.subjectId == subjectId {
      MonthQueryDays(rows, subjectId, year, month, a, '3', '1');
    }
  }
}
