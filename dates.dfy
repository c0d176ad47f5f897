/**
  Calendar dates as Python's `datetime.date` holds them, their chronological
  order, and the `strftime('%Y-%m-%d')` rendering used by `FiiPosition.to_dict`.
  `ParseDate` is the inverse of that rendering; it is not in the program and is
  here so that the rendering can be shown injective and order-preserving.
*/
module Dates {
  import opened Wrappers

  datatype YearMonthDay = YMD(year: int, month: int, day: int)

  const MIN_YEAR := 1
  const MAX_YEAR := 9999

  predicate IsLeapYear(y: int) {
    y % 4 == 0 && (y % 100 != 0 || y % 400 == 0)
  }

  function DaysInMonth(y: int, m: int): int {
    if m == 2 then (if IsLeapYear(y) then 29 else 28)
    else if m == 4 || m == 6 || m == 9 || m == 11 then 30
    else 31
  }

  predicate IsValidDate(d: YearMonthDay) {
    && MIN_YEAR <= d.year <= MAX_YEAR
    && 1 <= d.month <= 12
    && 1 <= d.day <= DaysInMonth(d.year, d.month)
  }

  /** A `datetime.date`: Python refuses to build an invalid one. */
  type Date = d: YearMonthDay | IsValidDate(d) witness YMD(1970, 1, 1)

  /**
    A number that grows with the date: year, month and day as digits of a
    mixed radix (months of 31 days, years of 12 months). Not the day count
    since year 1, but ordered the same way.
  */
  function DateRank(d: Date): int {
    (d.year * 12 + (d.month - 1)) * 31 + (d.day - 1)
  }

  /** Chronological order of dates, as Python's `<` on `date` values. */
  predicate Before(a: Date, b: Date) {
    DateRank(a) < DateRank(b)
  }

  /** `Before` is the lexicographic order on (year, month, day). */
  lemma BeforeIsLexicographic(a: Date, b: Date)
    ensures Before(a, b) <==>
      || a.year < b.year
      || (a.year == b.year && a.month < b.month)
      || (a.year == b.year && a.month == b.month && a.day < b.day)
  {
    assert 0 <= a.day - 1 < 31 && 0 <= b.day - 1 < 31;
    assert 0 <= a.month - 1 < 12 && 0 <= b.month - 1 < 12;
  }

  lemma BeforeIsStrictTotalOrder(a: Date, b: Date, c: Date)
    ensures !Before(a, a)
    ensures Before(a, b) ==> !Before(b, a)
    ensures Before(a, b) && Before(b, c) ==> Before(a, c)
    ensures a == b || Before(a, b) || Before(b, a)
  {
    BeforeIsLexicographic(a, b);
  }

  // ----- decimal digits -----

  predicate IsDigit(c: char) {
    '0' <= c <= '9'
  }

  predicate AllDigits(s: string) {
    forall i :: 0 <= i < |s| ==> IsDigit(s[i])
  }

  function DigitValue(c: char): int {
    c as int - '0' as int
  }

  function DigitChar(v: int): (c: char)
    requires 0 <= v <= 9
    ensures IsDigit(c) && DigitValue(c) == v
  {
    ('0' as int + v) as char
  }

  function Pow10(w: nat): (p: nat)
    ensures p >= 1
  {
    if w == 0 then 1 else 10 * Pow10(w - 1)
  }

  /** `n` written in exactly `w` decimal digits, with leading zeros. */
  function PadDigits(n: nat, w: nat): (s: string)
    requires n < Pow10(w)
    ensures |s| == w && AllDigits(s)
  {
    if w == 0 then []
    else PadDigits(n / 10, w - 1) + [DigitChar(n % 10)]
  }

  /** The number a string of decimal digits denotes. */
  function DigitsValue(s: string): int {
    if s == [] then 0
    else 10 * DigitsValue(s[..|s| - 1]) + DigitValue(s[|s| - 1])
  }

  lemma {:induction false} DigitsValueOfPad(n: nat, w: nat)
    requires n < Pow10(w)
    ensures DigitsValue(PadDigits(n, w)) == n
  {
    if w > 0 {
      var s := PadDigits(n, w);
      assert s[..|s| - 1] == PadDigits(n / 10, w - 1);
      DigitsValueOfPad(n / 10, w - 1);
    }
  }

  lemma {:induction false} PadOfDigitsValue(s: string)
    requires AllDigits(s)
    ensures 0 <= DigitsValue(s) < Pow10(|s|)
    ensures PadDigits(DigitsValue(s), |s|) == s
  {
    if s != [] {
      var init := s[..|s| - 1];
      PadOfDigitsValue(init);
      var n := DigitsValue(s);
      assert n / 10 == DigitsValue(init) && n % 10 == DigitValue(s[|s| - 1]);
      assert s == init + [s[|s| - 1]];
    }
  }

  // ----- lexicographic order on strings -----

  /** Lexicographic order on strings, as Python's `<` on `str`. */
  predicate StrLess(s: string, t: string) {
    if s == [] then t != []
    else t != [] && (s[0] < t[0] || (s[0] == t[0] && StrLess(s[1..], t[1..])))
  }

  lemma {:induction false} StrLessAppend(a: string, s: string, b: string, t: string)
    requires |a| == |b|
    ensures StrLess(a + s, b + t) <==> StrLess(a, b) || (a == b && StrLess(s, t))
  {
    if a != [] {
      assert (a + s)[0] == a[0] && (b + t)[0] == b[0];
      assert (a + s)[1..] == a[1..] + s && (b + t)[1..] == b[1..] + t;
      StrLessAppend(a[1..], s, b[1..], t);
      if a[0] == b[0] && a[1..] == b[1..] {
        assert a == b by { assert a == [a[0]] + a[1..] && b == [b[0]] + b[1..]; }
      }
    } else {
      assert a + s == s && b + t == t;
    }
  }

  lemma DivModOrder(x: nat, y: nat)
    ensures x < y <==> x / 10 < y / 10 || (x / 10 == y / 10 && x % 10 < y % 10)
  {
    assert x == 10 * (x / 10) + x % 10 && y == 10 * (y / 10) + y % 10;
  }

  lemma SingleDigitOrder(u: int, v: int)
    requires 0 <= u <= 9 && 0 <= v <= 9
    ensures StrLess([DigitChar(u)], [DigitChar(v)]) <==> u < v
  {
    assert [DigitChar(u)][1..] == [] && [DigitChar(v)][1..] == [];
  }

  lemma DropLastDigit(x: nat, w: nat)
    requires 0 < w && x < Pow10(w)
    ensures x / 10 < Pow10(w - 1)
  {
    assert Pow10(w) == 10 * Pow10(w - 1);
  }

  lemma {:induction false} PadDigitsOrder(x: nat, y: nat, w: nat)
    requires x < Pow10(w) && y < Pow10(w)
    ensures StrLess(PadDigits(x, w), PadDigits(y, w)) <==> x < y
  {
    if w > 0 {
      DropLastDigit(x, w);
      DropLastDigit(y, w);
      var px, py := PadDigits(x / 10, w - 1), PadDigits(y / 10, w - 1);
      var dx, dy := [DigitChar(x % 10)], [DigitChar(y % 10)];
      assert PadDigits(x, w) == px + dx && PadDigits(y, w) == py + dy;
      PadDigitsOrder(x / 10, y / 10, w - 1);
      StrLessAppend(px, dx, py, dy);
      SingleDigitOrder(x % 10, y % 10);
      PadDigitsInjective(x / 10, y / 10, w - 1);
      DivModOrder(x, y);
    }
  }

  // ----- strftime('%Y-%m-%d') -----

  /** `date.strftime('%Y-%m-%d')`: four-digit year, two-digit month and day, joined by '-'. */
  function FormatDate(d: Date): (s: string)
    ensures |s| == 10 && s[4] == '-' && s[7] == '-'
    ensures AllDigits(s[..4]) && AllDigits(s[5..7]) && AllDigits(s[8..])
  {
    var s := PadDigits(d.year, 4) + "-" + PadDigits(d.month, 2) + "-" + PadDigits(d.day, 2);
    assert s[..4] == PadDigits(d.year, 4) && s[5..7] == PadDigits(d.month, 2)
      && s[8..] == PadDigits(d.day, 2);
    s
  }

  /** Reads back a `YYYY-MM-DD` string; `None` for anything that is not a valid date in that form. */
  function ParseDate(s: string): Option<Date> {
    if |s| == 10 && s[4] == '-' && s[7] == '-'
       && AllDigits(s[..4]) && AllDigits(s[5..7]) && AllDigits(s[8..]) then
      var ymd := YMD(DigitsValue(s[..4]), DigitsValue(s[5..7]), DigitsValue(s[8..]));
      if IsValidDate(ymd) then Some(ymd) else None
    else None
  }

  lemma FormatThenParse(d: Date)
    ensures ParseDate(FormatDate(d)) == Some(d)
  {
    var s := FormatDate(d);
    assert s[..4] == PadDigits(d.year, 4) && s[5..7] == PadDigits(d.month, 2)
      && s[8..] == PadDigits(d.day, 2);
    DigitsValueOfPad(d.year, 4);
    DigitsValueOfPad(d.month, 2);
    DigitsValueOfPad(d.day, 2);
  }

  lemma SplitAtDashes(s: string)
    requires |s| == 10 && s[4] == '-' && s[7] == '-'
    ensures s == s[..4] + ("-" + (s[5..7] + ("-" + s[8..])))
  {
    var t := s[..4] + ("-" + (s[5..7] + ("-" + s[8..])));
    assert |t| == 10;
    forall i | 0 <= i < 10 ensures t[i] == s[i] {
      if i < 4 {
        assert t[i] == s[..4][i];
      } else if i < 5 {
      } else if i < 7 {
        assert t[i] == s[5..7][i - 5];
      } else if i < 8 {
      } else {
        assert t[i] == s[8..][i - 8];
      }
    }
  }

  lemma ParseThenFormat(s: string, d: Date)
    requires ParseDate(s) == Some(d)
    ensures FormatDate(d) == s
  {
    assert d == YMD(DigitsValue(s[..4]), DigitsValue(s[5..7]), DigitsValue(s[8..]));
    PadOfDigitsValue(s[..4]);
    PadOfDigitsValue(s[5..7]);
    PadOfDigitsValue(s[8..]);
    FormatDateParts(d);
    SplitAtDashes(s);
  }

  lemma FormatDateInjective(a: Date, b: Date)
    ensures FormatDate(a) == FormatDate(b) <==> a == b
  {
    FormatThenParse(a);
    FormatThenParse(b);
  }

  /** Comparing two `-`-joined strings whose first parts have the same length. */
  lemma DashJoinOrder(a: string, s: string, b: string, t: string)
    requires |a| == |b|
    ensures StrLess(a + ("-" + s), b + ("-" + t)) <==> StrLess(a, b) || (a == b && StrLess(s, t))
  {
    StrLessAppend(a, "-" + s, b, "-" + t);
    StrLessAppend("-", s, "-", t);
    assert !StrLess("-", "-");
  }

  lemma PadDigitsInjective(x: nat, y: nat, w: nat)
    requires x < Pow10(w) && y < Pow10(w)
    ensures PadDigits(x, w) == PadDigits(y, w) <==> x == y
  {
    DigitsValueOfPad(x, w);
    DigitsValueOfPad(y, w);
  }

  lemma FormatDateParts(d: Date)
    ensures FormatDate(d) ==
      PadDigits(d.year, 4) + ("-" + (PadDigits(d.month, 2) + ("-" + PadDigits(d.day, 2))))
  {
  }

  /** Rendered dates compare as strings exactly as the dates compare chronologically. */
  lemma FormatDateOrder(a: Date, b: Date)
    ensures StrLess(FormatDate(a), FormatDate(b)) <==> Before(a, b)
  {
    var ya, yb := PadDigits(a.year, 4), PadDigits(b.year, 4);
    var ma, mb := PadDigits(a.month, 2), PadDigits(b.month, 2);
    var da, db := PadDigits(a.day, 2), PadDigits(b.day, 2);
    FormatDateParts(a);
    FormatDateParts(b);
    DashJoinOrder(ya, ma + ("-" + da), yb, mb + ("-" + db));
    DashJoinOrder(ma, da, mb, db);
    PadDigitsOrder(a.year, b.year, 4);
    PadDigitsOrder(a.month, b.month, 2);
    PadDigitsOrder(a.day, b.day, 2);
    PadDigitsInjective(a.year, b.year, 4);
    PadDigitsInjective(a.month, b.month, 2);
    BeforeIsLexicographic(a, b);
  }
}
