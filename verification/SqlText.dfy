/**
 Text comparison of timestamps in SQL.

 The stored timestamps read `2026-08-04T20:00:00...` and SQLite's `datetime()` prints
 `2026-08-04 20:00:00`. Compared as text, the separator outranks the time of day, so the test
 `ts >= datetime(...)` is a comparison of dates alone.
 */
module SqlText {
  import opened Rollup

  ghost predicate TextLe(a: string, b: string) {
    if a == [] then true
    else if b == [] then false
    else if a[0] != b[0] then a[0] < b[0]
    else TextLe(a[1..], b[1..])
  }

  /** Texts of one length: the first difference decides, whatever follows. */
  lemma {:induction false} PrefixDecides(a: string, b: string, x: string, y: string)
    requires |a| == |b| && a != b
    ensures TextLe(a + x, b + y) <==> TextLe(a, b)
  {
    assert (a + x)[0] == a[0] && (b + y)[0] == b[0];
    if a[0] == b[0] {
      assert (a + x)[1..] == a[1..] + x && (b + y)[1..] == b[1..] + y;
      PrefixDecides(a[1..], b[1..], x, y);
    }
  }

  lemma {:induction false} CommonPrefix(p: string, x: string, y: string)
    ensures TextLe(p + x, p + y) <==> TextLe(x, y)
  {
    if p == [] {
      assert p + x == x && p + y == y;
    } else {
      assert (p + x)[1..] == p[1..] + x && (p + y)[1..] == p[1..] + y;
      CommonPrefix(p[1..], x, y);
    }
  }

  lemma {:induction false} TextLeReflexive(a: string)
    ensures TextLe(a, a)
  {
    if a != [] {
      TextLeReflexive(a[1..]);
    }
  }

  function Digits(n: nat, width: nat): string {
    if width == 0 then [] else Digits(n / 10, width - 1) + ['0' + (n % 10) as char]
  }

  function Power10(width: nat): nat { if width == 0 then 1 else 10 * Power10(width - 1) }

  lemma {:induction false} DigitsLength(n: nat, width: nat)
    ensures |Digits(n, width)| == width
  {
    if width > 0 {
      DigitsLength(n / 10, width - 1);
    }
  }

  /** Fixed-width decimals compare as the numbers do. */
  lemma {:induction false} DigitsOrder(a: nat, b: nat, width: nat)
    requires a < Power10(width) && b < Power10(width)
    ensures TextLe(Digits(a, width), Digits(b, width)) <==> a <= b
    ensures Digits(a, width) == Digits(b, width) <==> a == b
  {
    if width > 0 {
      var p, q, x, y := Digits(a / 10, width - 1), Digits(b / 10, width - 1), ['0' + (a % 10) as char],
          ['0' + (b % 10) as char];
      DigitsOrder(a / 10, b / 10, width - 1);
      DigitsLength(a / 10, width - 1);
      DigitsLength(b / 10, width - 1);
      assert (p + x)[..width - 1] == p && (p + x)[width - 1] == x[0];
      assert (q + y)[..width - 1] == q && (q + y)[width - 1] == y[0];
      if p == q {
        CommonPrefix(p, x, y);
        assert x[1..] == [] && y[1..] == [];
      } else {
        PrefixDecides(p, q, x, y);
      }
    }
  }

  datatype Date = Date(year: nat, month: nat, day: nat) {
    predicate Valid() { year < 10000 && month < 100 && day < 100 }
    function Text(): string { Digits(year, 4) + ("-" + (Digits(month, 2) + ("-" + Digits(day, 2)))) }
    predicate NotAfter(that: Date) {
      year < that.year || (year == that.year && (month < that.month || (month == that.month && day <= that.day)))
    }
  }

  lemma Powers()
    ensures Power10(2) == 100 && Power10(4) == 10000
  {
    assert Power10(1) == 10;
    assert Power10(3) == 1000;
  }

  /** Two texts that start with fields of one length compare by those fields first. */
  lemma FieldFirst(a: string, b: string, x: string, y: string)
    requires |a| == |b|
    ensures TextLe(a + x, b + y) <==> if a == b then TextLe(x, y) else TextLe(a, b)
  {
    if a == b {
      CommonPrefix(a, x, y);
    } else {
      PrefixDecides(a, b, x, y);
    }
  }

  lemma NumberFirst(a: nat, b: nat, width: nat, x: string, y: string)
    requires a < Power10(width) && b < Power10(width)
    ensures TextLe(Digits(a, width) + x, Digits(b, width) + y) <==> a < b || (a == b && TextLe(x, y))
  {
    DigitsOrder(a, b, width);
    DigitsLength(a, width);
    DigitsLength(b, width);
    FieldFirst(Digits(a, width), Digits(b, width), x, y);
  }

  /** `YYYY-MM-DD` texts compare chronologically. */
  lemma DateOrder(a: Date, b: Date)
    requires a.Valid() && b.Valid()
    ensures TextLe(a.Text(), b.Text()) <==> a.NotAfter(b)
  {
    Powers();
    var da, db := Digits(a.day, 2), Digits(b.day, 2);
    var ma, mb := Digits(a.month, 2) + ("-" + da), Digits(b.month, 2) + ("-" + db);
    NumberFirst(a.year, b.year, 4, "-" + ma, "-" + mb);
    CommonPrefix("-", ma, mb);
    NumberFirst(a.month, b.month, 2, "-" + da, "-" + db);
    CommonPrefix("-", da, db);
    DigitsOrder(a.day, b.day, 2);
  }

  lemma DateTexts(a: Date, b: Date)
    requires a.Valid() && b.Valid()
    ensures |a.Text()| == 10
    ensures a.Text() == b.Text() <==> a == b
  {
    DigitsLength(a.year, 4);
    DigitsLength(a.month, 2);
    DigitsLength(a.day, 2);
    if a.Text() == b.Text() {
      DateOrder(a, b);
      DateOrder(b, a);
      TextLeReflexive(a.Text());
    }
  }

  /**
   `ts >= datetime(cutoff)`: with `T` after the date on the left and a space on the right, the
   times of day and the offset never matter.
   */
  lemma SeparatorDecides(ts: Date, rest: string, cutoff: Date, time: string)
    requires ts.Valid() && cutoff.Valid()
    ensures TextLe(cutoff.Text() + " " + time, ts.Text() + "T" + rest) <==> cutoff.NotAfter(ts)
  {
    DateOrder(cutoff, ts);
    DateTexts(cutoff, ts);
    DateTexts(ts, cutoff);
    var c, t := cutoff.Text(), ts.Text();
    assert c + " " + time == c + (" " + time) && t + "T" + rest == t + ("T" + rest);
    FieldFirst(c, t, " " + time, "T" + rest);
  }

  // ----- The calendar: from dates to the day numbers of `Rollup`

  predicate Leap(year: nat) { year % 4 == 0 && (year % 100 != 0 || year % 400 == 0) }

  function MonthLength(year: nat, month: nat): nat {
    if month == 2 then (if Leap(year) then 29 else 28)
    else if month in {4, 6, 9, 11} then 30
    else 31
  }

  function DaysBeforeMonth(year: nat, month: nat): nat {
    if month <= 1 then 0 else DaysBeforeMonth(year, month - 1) + MonthLength(year, month - 1)
  }

  function DaysBeforeYear(year: nat): nat {
    if year == 0 then 0 else DaysBeforeYear(year - 1) + DaysBeforeMonth(year - 1, 13)
  }

  predicate Gregorian(d: Date) {
    d.year < 10000 && 1 <= d.month <= 12 && 1 <= d.day <= MonthLength(d.year, d.month)
  }

  function DayNumber(d: Date): nat { DaysBeforeYear(d.year) + DaysBeforeMonth(d.year, d.month) + d.day }

  lemma {:induction false} MonthsGrow(year: nat, m: nat, n: nat)
    requires 1 <= m < n
    ensures DaysBeforeMonth(year, m) + MonthLength(year, m) <= DaysBeforeMonth(year, n)
  {
    if m + 1 < n {
      MonthsGrow(year, m, n - 1);
    }
  }

  lemma {:induction false} YearsGrow(y: nat, z: nat)
    requires y < z
    ensures DaysBeforeYear(y) + DaysBeforeMonth(y, 13) <= DaysBeforeYear(z)
  {
    if y + 1 < z {
      YearsGrow(y, z - 1);
    }
  }

  // ----- The calendar in closed form

  /** On which day of the year, counted from 0, each month starts. */
  lemma MonthStarts(year: nat)
    ensures var leap := if year % 4 == 0 && (year % 100 != 0 || year % 400 == 0) then 1 else 0;
            forall m :: 1 <= m <= 13 ==>
              DaysBeforeMonth(year, m) ==
              [0, 31, 59, 90, 120, 151, 181, 212, 243, 273, 304, 334, 365][m - 1] + if m > 2 then leap else 0
  {
    var d := (m: nat) => DaysBeforeMonth(year, m);
    assert d(1) == 0 && d(2) == 31;
    assert d(3) == d(2) + MonthLength(year, 2);
    assert d(4) == d(3) + 31;
    assert d(5) == d(4) + 30;
    assert d(6) == d(5) + 31;
    assert d(7) == d(6) + 30;
    assert d(8) == d(7) + 31;
    assert d(9) == d(8) + 31;
    assert d(10) == d(9) + 30;
    assert d(11) == d(10) + 31;
    assert d(12) == d(11) + 30;
    assert d(13) == d(12) + 31;
  }

  /** The leap years before a year. */
  function Leaps(year: nat): int { (year + 3) / 4 - (year + 99) / 100 + (year + 399) / 400 }

  /** The days before a year of the Gregorian calendar, counted from the year 0. */
  lemma {:induction false} YearStarts(year: nat)
    ensures DaysBeforeYear(year) == 365 * year + Leaps(year)
  {
    if year > 0 {
      hide DaysBeforeMonth, Leaps;
      YearStarts(year - 1);
      YearLength(year - 1);
      LeapStep(year - 1);
    } else {
      assert Leaps(0) == 0;
    }
  }

  lemma YearLength(year: nat)
    ensures DaysBeforeMonth(year, 13) ==
            365 + if year % 4 == 0 && (year % 100 != 0 || year % 400 == 0) then 1 else 0
  {
    MonthStarts(year);
  }

  lemma LeapStep(y: nat)
    ensures Leaps(y + 1) == Leaps(y) + if y % 4 == 0 && (y % 100 != 0 || y % 400 == 0) then 1 else 0
  {
    Fours(y);
    Hundreds(y);
    FourHundreds(y);
  }

  lemma Fours(y: nat)
    ensures (y + 4) / 4 == (y + 3) / 4 + if y % 4 == 0 then 1 else 0
  {
  }

  lemma Hundreds(y: nat)
    ensures (y + 100) / 100 == (y + 99) / 100 + if y % 100 == 0 then 1 else 0
    ensures y % 100 == 0 ==> y % 4 == 0
  {
    var q, r := y / 100, y % 100;
    assert y == 100 * q + r;
    if r == 0 {
      assert y == 4 * (25 * q);
    }
  }

  lemma FourHundreds(y: nat)
    ensures (y + 400) / 400 == (y + 399) / 400 + if y % 400 == 0 then 1 else 0
    ensures y % 400 == 0 ==> y % 100 == 0
  {
    var q, r := y / 400, y % 400;
    assert y == 400 * q + r;
    if r == 0 {
      assert y == 100 * (4 * q);
    }
  }

  /** 1 January 1970 is day 719529, counted from 1 January of the year 0. */
  lemma UnixEpoch(d: Date)
    requires d.year == 1970 && d.month == 1 && d.day == 1
    ensures DayNumber(d) == 719529
  {
    hide DaysBeforeYear;
    YearStarts(d.year);
  }

  lemma EarlierHasSmallerNumber(a: Date, b: Date)
    requires Gregorian(a) && Gregorian(b) && a.NotAfter(b) && a != b
    ensures DayNumber(a) < DayNumber(b)
  {
    if a.year < b.year {
      YearsGrow(a.year, b.year);
      MonthsGrow(a.year, a.month, 13);
    } else if a.month < b.month {
      MonthsGrow(a.year, a.month, b.month);
    }
  }

  /**
   The window test of `Rollup` is what SQLite computes on the texts, for every offset and time of day.
   `epoch` is the day number of the day 0 of `Rollup`.
   */
  lemma TextWindowIsTextual(e: Event, cutoff: int, epoch: int, localDate: Date, rest: string, cutoffDate: Date,
      time: string)
    requires Gregorian(localDate) && DayNumber(localDate) == epoch + LocalDay(e)
    requires Gregorian(cutoffDate) && DayNumber(cutoffDate) == epoch + DayOf(cutoff)
    ensures TextWindow(e, cutoff) <==> TextLe(cutoffDate.Text() + " " + time, localDate.Text() + "T" + rest)
  {
    SeparatorDecides(localDate, rest, cutoffDate, time);
    if localDate != cutoffDate {
      if cutoffDate.NotAfter(localDate) {
        EarlierHasSmallerNumber(cutoffDate, localDate);
      } else {
        EarlierHasSmallerNumber(localDate, cutoffDate);
      }
    }
  }
}
