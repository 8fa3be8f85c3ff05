/** Byte-wise order of text, as SQLite's BINARY collation and Go's string comparison have it. */
module Lex {

  predicate Less(a: string, b: string) {
    |b| > 0 && (|a| == 0 || a[0] < b[0] || (a[0] == b[0] && Less(a[1..], b[1..])))
  }

  lemma {:induction false} Irreflexive(a: string)
    ensures !Less(a, a)
  {
    if |a| > 0 {
      Irreflexive(a[1..]);
    }
  }

  lemma {:induction false} Transitive(a: string, b: string, c: string)
    requires Less(a, b) && Less(b, c)
    ensures Less(a, c)
  {
    if |a| > 0 && a[0] == b[0] == c[0] {
      Transitive(a[1..], b[1..], c[1..]);
    }
  }

  lemma {:induction false} Total(a: string, b: string)
    ensures Less(a, b) || a == b || Less(b, a)
  {
    if |a| > 0 && |b| > 0 {
      Total(a[1..], b[1..]);
      if a[0] == b[0] && a[1..] == b[1..] {
        assert a == [a[0]] + a[1..] == [b[0]] + b[1..] == b;
      }
    } else if |a| == 0 && |b| == 0 {
      assert a == b;
    }
  }

  /** Of two texts of one length, the smaller has the smaller character where they first differ. */
  lemma {:induction false} FirstDifference(a: string, b: string) returns (n: nat)
    requires |a| == |b| && Less(a, b)
    ensures n < |a| && a[n] < b[n] && forall m :: 0 <= m < n ==> a[m] == b[m]
  {
    if a[0] < b[0] {
      n := 0;
    } else {
      var rest := FirstDifference(a[1..], b[1..]);
      n := rest + 1;
      forall m | 0 <= m < n
        ensures a[m] == b[m]
      {
        assert m > 0 ==> a[m] == a[1..][m - 1] && b[m] == b[1..][m - 1];
      }
    }
  }

  /** Fixed-width decimal numerals, zero padded. */
  function Digits(n: nat, width: nat): (s: string)
    ensures |s| == width
  {
    if width == 0 then "" else Digits(n / 10, width - 1) + [Digit(n % 10)]
  }

  function Digit(n: nat): char
    requires n < 10
  {
    (48 + n) as char
  }

  function Pow10(n: nat): nat {
    if n == 0 then 1 else 10 * Pow10(n - 1)
  }

  /** Text order of equally wide numerals is numeric order, and what follows breaks ties. */
  lemma {:induction false} DigitsOrder(a: nat, b: nat, width: nat, x: string, y: string)
    requires a < Pow10(width) && b < Pow10(width)
    ensures Less(Digits(a, width) + x, Digits(b, width) + y) <==> a < b || (a == b && Less(x, y))
    decreases width
  {
    if width == 0 {
      assert Digits(a, 0) + x == x && Digits(b, 0) + y == y;
    } else {
      var x', y' := [Digit(a % 10)] + x, [Digit(b % 10)] + y;
      assert Digits(a, width) + x == Digits(a / 10, width - 1) + x';
      assert Digits(b, width) + y == Digits(b / 10, width - 1) + y';
      DigitsOrder(a / 10, b / 10, width - 1, x', y');
      assert x'[1..] == x && y'[1..] == y;
    }
  }
}

/** The proleptic Gregorian calendar of Go's `time` package for the years 0000 to 9999, with
    days counted from 0000-01-01, and the `YYYY-MM-DD` text (the full-date of section 5.6 of
    RFC 3339) under which rows are stored and compared.
 */
module Calendar {
  import opened Lex

  /** 400 Gregorian years have 146097 days; years 0000 to 9999 have 25 times as many. */
  const DAYS: nat := 3652425

  type Day = n: nat | n < DAYS

  datatype Date = Date(year: nat, month: nat, day: nat)

  predicate IsLeap(y: nat) {
    y % 4 == 0 && (y % 100 != 0 || y % 400 == 0)
  }

  function DaysIn(y: nat, m: nat): (n: nat)
    requires 1 <= m <= 12
    ensures 28 <= n <= 31
  {
    if m == 2 then (if IsLeap(y) then 29 else 28)
    else if m == 4 || m == 6 || m == 9 || m == 11 then 30
    else 31
  }

  predicate Valid(d: Date) {
    1 <= d.month <= 12 && 1 <= d.day <= DaysIn(d.year, d.month)
  }

  function NextDay(d: Date): (r: Date)
    requires Valid(d)
    ensures Valid(r)
  {
    if d.day < DaysIn(d.year, d.month) then Date(d.year, d.month, d.day + 1)
    else if d.month < 12 then Date(d.year, d.month + 1, 1)
    else Date(d.year + 1, 1, 1)
  }

  /** Counting days one at a time. */
  function DateOf(n: nat): (d: Date)
    ensures Valid(d)
  {
    if n == 0 then Date(0, 1, 1) else NextDay(DateOf(n - 1))
  }

  function YearStart(y: nat): int {
    365 * y + (y + 3) / 4 - (y + 99) / 100 + (y + 399) / 400
  }

  function MonthStart(y: nat, m: nat): nat
    requires 1 <= m <= 12
  {
    if m == 1 then 0 else MonthStart(y, m - 1) + DaysIn(y, m - 1)
  }

  /** The closed form that inverts `DateOf`. */
  function DayNumber(d: Date): int
    requires Valid(d)
  {
    YearStart(d.year) + MonthStart(d.year, d.month) + d.day - 1
  }

  lemma YearLength(y: nat)
    ensures YearStart(y + 1) == YearStart(y) + (if IsLeap(y) then 366 else 365)
  {
    RoundUp4(y);
    RoundUp100(y);
    RoundUp400(y);
    Divides4(y);
    Divides100(y);
  }

  lemma RoundUp4(y: nat)
    ensures (y + 4) / 4 == y / 4 + 1
    ensures (y + 3) / 4 == (if y % 4 == 0 then y / 4 else y / 4 + 1)
  {
  }

  lemma RoundUp100(y: nat)
    ensures (y + 100) / 100 == y / 100 + 1
    ensures (y + 99) / 100 == (if y % 100 == 0 then y / 100 else y / 100 + 1)
  {
  }

  lemma RoundUp400(y: nat)
    ensures (y + 400) / 400 == y / 400 + 1
    ensures (y + 399) / 400 == (if y % 400 == 0 then y / 400 else y / 400 + 1)
  {
  }

  lemma Divides4(y: nat)
    ensures y % 100 == 0 ==> y % 4 == 0
  {
    if y % 100 == 0 {
      var q := y / 100;
      assert y == 100 * q;
      assert y == 4 * (25 * q);
    }
  }

  lemma Divides100(y: nat)
    ensures y % 400 == 0 ==> y % 100 == 0
  {
    if y % 400 == 0 {
      var q := y / 400;
      assert y == 400 * q;
      assert y == 100 * (4 * q);
    }
  }

  lemma MonthLengths(y: nat)
    ensures MonthStart(y, 12) + 31 == (if IsLeap(y) then 366 else 365)
  {
    assert MonthStart(y, 2) == 31;
    assert MonthStart(y, 3) == 31 + DaysIn(y, 2);
    assert MonthStart(y, 5) == MonthStart(y, 3) + 61;
    assert MonthStart(y, 7) == MonthStart(y, 5) + 61;
    assert MonthStart(y, 9) == MonthStart(y, 7) + 62;
    assert MonthStart(y, 11) == MonthStart(y, 9) + 61;
  }

  /** The months before month `m` have the lengths of the Gregorian calendar: from March on, the
      running total is the whole part of 30.6 days per month. */
  lemma MonthStartFormula(y: nat, m: nat)
    requires 1 <= m <= 12
    ensures MonthStart(y, m) ==
              if m <= 2 then 31 * (m - 1) else 59 + (if IsLeap(y) then 1 else 0) + (153 * (m - 3) + 2) / 5
  {
    if m > 1 {
      MonthStartFormula(y, m - 1);
    }
  }

  lemma {:induction false} YearStartMonotone(a: nat, b: nat)
    requires a <= b
    ensures YearStart(a) <= YearStart(b)
  {
    if a < b {
      YearLength(b - 1);
      YearStartMonotone(a, b - 1);
    }
  }

  lemma {:induction false} MonthStartMonotone(y: nat, a: nat, b: nat)
    requires 1 <= a < b <= 12
    ensures MonthStart(y, a) + DaysIn(y, a) <= MonthStart(y, b)
  {
    if a < b - 1 {
      MonthStartMonotone(y, a, b - 1);
    }
  }

  lemma DayWithinYear(d: Date)
    requires Valid(d)
    ensures YearStart(d.year) <= DayNumber(d) < YearStart(d.year + 1)
  {
    YearLength(d.year);
    MonthLengths(d.year);
    if d.month < 12 {
      MonthStartMonotone(d.year, d.month, 12);
    }
  }

  lemma NextDayNumber(d: Date)
    requires Valid(d)
    ensures DayNumber(NextDay(d)) == DayNumber(d) + 1
  {
    YearLength(d.year);
    MonthLengths(d.year);
  }

  /** Stepping day by day agrees with the closed form. */
  lemma {:induction false} DayNumberOfDate(n: nat)
    ensures DayNumber(DateOf(n)) == n
  {
    if n == 0 {
      assert YearStart(0) == 0;
    } else {
      DayNumberOfDate(n - 1);
      NextDayNumber(DateOf(n - 1));
    }
  }

  predicate DateLess(a: Date, b: Date) {
    || a.year < b.year
    || (a.year == b.year && (a.month < b.month || (a.month == b.month && a.day < b.day)))
  }

  lemma DayNumberMonotone(a: Date, b: Date)
    requires Valid(a) && Valid(b) && DateLess(a, b)
    ensures DayNumber(a) < DayNumber(b)
  {
    if a.year < b.year {
      DayWithinYear(a);
      DayWithinYear(b);
      YearStartMonotone(a.year + 1, b.year);
    } else if a.month < b.month {
      MonthStartMonotone(a.year, a.month, b.month);
    }
  }

  /** Day numbers and calendar dates are ordered alike. */
  lemma DateOrder(a: nat, b: nat)
    ensures DateLess(DateOf(a), DateOf(b)) <==> a < b
  {
    DayNumberOfDate(a);
    DayNumberOfDate(b);
    if DateLess(DateOf(a), DateOf(b)) {
      DayNumberMonotone(DateOf(a), DateOf(b));
    } else if DateLess(DateOf(b), DateOf(a)) {
      DayNumberMonotone(DateOf(b), DateOf(a));
    }
  }

  /** Every calendar date of the years 0000 to 9999 is the date of exactly one day number. */
  lemma DateOfDayNumber(d: Date)
    requires Valid(d) && d.year <= 9999
    ensures 0 <= DayNumber(d) < DAYS
    ensures DateOf(DayNumber(d)) == d
  {
    DayWithinYear(d);
    YearStartMonotone(0, d.year);
    YearStartMonotone(d.year + 1, 10000);
    var e := DateOf(DayNumber(d));
    DayNumberOfDate(DayNumber(d));
    if DateLess(d, e) {
      DayNumberMonotone(d, e);
    } else if DateLess(e, d) {
      DayNumberMonotone(e, d);
    }
  }

  lemma DayYear(n: Day)
    ensures DateOf(n).year <= 9999
  {
    DayNumberOfDate(n);
    var y := DateOf(n).year;
    DayWithinYear(DateOf(n));
    YearStartMonotone(if 10000 <= y then 10000 else y, y);
    assert YearStart(10000) == DAYS;
  }

  /** `t.UTC().Format("2006-01-02")`. */
  function Text(n: Day): string {
    var d := DateOf(n);
    Digits(d.year, 4) + ("-" + (Digits(d.month, 2) + ("-" + (Digits(d.day, 2) + ""))))
  }

  /** The layout of the text, character by character. */
  lemma TextLayout(n: Day)
    ensures var s, d, decimal := Text(n), DateOf(n), "0123456789";
            && |s| == 10 && s[4] == '-' && s[7] == '-' && d.year < 10000
            && s[0] == decimal[d.year / 1000] && s[1] == decimal[d.year / 100 % 10]
            && s[2] == decimal[d.year / 10 % 10] && s[3] == decimal[d.year % 10]
            && s[5] == decimal[d.month / 10] && s[6] == decimal[d.month % 10]
            && s[8] == decimal[d.day / 10] && s[9] == decimal[d.day % 10]
  {
    DayYear(n);
    var d := DateOf(n);
    TwoDigits(d.month);
    TwoDigits(d.day);
    FourDigits(d.year);
    Joined(Digits(d.year, 4), Digits(d.month, 2), Digits(d.day, 2));
  }

  lemma Joined(a: string, b: string, c: string)
    requires |a| == 4 && |b| == |c| == 2
    ensures a + ("-" + (b + ("-" + (c + "")))) == [a[0], a[1], a[2], a[3], '-', b[0], b[1], '-', c[0], c[1]]
  {
  }

  lemma DigitIsDecimal(n: nat)
    requires n < 10
    ensures Digit(n) == "0123456789"[n]
  {
  }

  lemma TwoDigits(n: nat)
    requires n < 100
    ensures Digits(n, 2) == ["0123456789"[n / 10], "0123456789"[n % 10]]
  {
    DigitIsDecimal(n / 10);
    DigitIsDecimal(n % 10);
    assert Digits(n / 10, 1) == Digits(n / 10 / 10, 0) + [Digit(n / 10 % 10)];
  }

  lemma FourDigits(n: nat)
    requires n < 10000
    ensures Digits(n, 4) == ["0123456789"[n / 1000], "0123456789"[n / 100 % 10],
                             "0123456789"[n / 10 % 10], "0123456789"[n % 10]]
  {
    DigitIsDecimal(n / 10 % 10);
    DigitIsDecimal(n % 10);
    assert n / 10 / 10 == n / 100 && n / 100 / 10 == n / 1000;
    TwoDigits(n / 100);
    assert Digits(n, 4) == Digits(n / 10, 3) + [Digit(n % 10)];
    assert Digits(n / 10, 3) == Digits(n / 10 / 10, 2) + [Digit(n / 10 % 10)];
  }

  /** Text order on `YYYY-MM-DD` is calendar order; section 5.1 of RFC 3339 relies on this. */
  lemma TextOrder(a: Day, b: Day)
    ensures Less(Text(a), Text(b)) <==> a < b
  {
    var x, y := DateOf(a), DateOf(b);
    DayYear(a);
    DayYear(b);
    DateOrder(a, b);
    assert Pow10(2) == 100;
    assert Pow10(4) == 100 * Pow10(2);
    var xd, yd := Digits(x.day, 2) + "", Digits(y.day, 2) + "";
    var xm, ym := Digits(x.month, 2) + ("-" + xd), Digits(y.month, 2) + ("-" + yd);
    DigitsOrder(x.day, y.day, 2, "", "");
    SameHead("-", xd, yd);
    DigitsOrder(x.month, y.month, 2, "-" + xd, "-" + yd);
    SameHead("-", xm, ym);
    DigitsOrder(x.year, y.year, 4, "-" + xm, "-" + ym);
  }

  lemma SameHead(c: string, x: string, y: string)
    requires |c| == 1
    ensures Less(c + x, c + y) <==> Less(x, y)
  {
    assert (c + x)[1..] == x && (c + y)[1..] == y;
  }

  /** Two days have the same text only when they are the same day. */
  lemma TextInjective(a: Day, b: Day)
    ensures Text(a) == Text(b) <==> a == b
  {
    TextOrder(a, b);
    TextOrder(b, a);
    if Text(a) == Text(b) {
      Irreflexive(Text(a));
    }
  }

  /** The first day of the month that `n` falls in. */
  function StartOfMonth(n: Day): (s: Day)
    ensures s <= n < s + 31
  {
    FirstOfMonth(n);
    n - (DateOf(n).day - 1)
  }

  lemma FirstOfMonth(n: Day)
    ensures DayNumber(DateOf(n).(day := 1)) == n - (DateOf(n).day - 1) >= 0
  {
    DayNumberOfDate(n);
    DayWithinYear(DateOf(n).(day := 1));
    YearStartMonotone(0, DateOf(n).year);
    assert YearStart(0) == 0;
  }

  /** `time.Date(now.Year(), now.Month(), 1, ...)` is the day that `StartOfMonth` computes. */
  lemma StartOfMonthDate(n: Day)
    ensures DateOf(StartOfMonth(n)) == DateOf(n).(day := 1)
  {
    DayYear(n);
    FirstOfMonth(n);
    DateOfDayNumber(DateOf(n).(day := 1));
  }
}
