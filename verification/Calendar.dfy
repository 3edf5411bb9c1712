/** The proleptic Gregorian calendar: date validity, date order, and day ordinals. */
module Calendar {
  const MIN_YEAR: int := 1
  const MAX_YEAR: int := 9999

  datatype Date = Date(year: int, month: int, day: int) {
    /** The dates that exist in the calendar, whatever the year. */
    predicate Valid() {
      1 <= month <= 12 && 1 <= day <= DaysInMonth(year, month)
    }

    /** The dates that can be represented. */
    predicate InRange() {
      Valid() && MIN_YEAR <= year <= MAX_YEAR
    }

    /** Dates compare by year, then month, then day. */
    predicate Leq(other: Date) {
      year < other.year
      || (year == other.year && (month < other.month || (month == other.month && day <= other.day)))
    }
  }

  predicate IsLeap(y: int) {
    y % 4 == 0 && (y % 100 != 0 || y % 400 == 0)
  }

  function DaysInMonth(y: int, m: int): (n: int)
    ensures 28 <= n <= 31
  {
    if m == 2 then (if IsLeap(y) then 29 else 28)
    else if m == 4 || m == 6 || m == 9 || m == 11 then 30
    else 31
  }

  function DaysInYear(y: int): int {
    if IsLeap(y) then 366 else 365
  }

  /** Days from the start of year 1 to the start of year `y`. */
  function DaysBeforeYear(y: int): int {
    365 * (y - 1) + (y - 1) / 4 - (y - 1) / 100 + (y - 1) / 400
  }

  /** Days from the start of the year to the start of month `m`; month 13 is the year's end. */
  function DaysBeforeMonth(y: int, m: int): int
    requires 1 <= m <= 13
  {
    [0, 31, 59, 90, 120, 151, 181, 212, 243, 273, 304, 334, 365][m - 1] + if m > 2 && IsLeap(y) then 1 else 0
  }

  /** Day 1 is 1 January of year 1. */
  function Ordinal(d: Date): int
    requires 1 <= d.month <= 12
  {
    DaysBeforeYear(d.year) + DaysBeforeMonth(d.year, d.month) + d.day
  }

  lemma FourDivides(z: int)
    ensures 4 * z % 4 == 0
  {
  }

  lemma HundredDivides(z: int)
    ensures 100 * z % 100 == 0
  {
  }

  lemma Multiples(y: int)
    ensures y % 100 == 0 ==> y % 4 == 0
    ensures y % 400 == 0 ==> y % 100 == 0
  {
    FourDivides(25 * (y / 100));
    HundredDivides(4 * (y / 400));
  }

  lemma NextFourth(y: int)
    ensures y / 4 == (y - 1) / 4 + if y % 4 == 0 then 1 else 0
  {
  }

  lemma NextHundredth(y: int)
    ensures y / 100 == (y - 1) / 100 + if y % 100 == 0 then 1 else 0
  {
  }

  lemma NextFourHundredth(y: int)
    ensures y / 400 == (y - 1) / 400 + if y % 400 == 0 then 1 else 0
  {
  }

  lemma NextYear(y: int)
    ensures DaysBeforeYear(y + 1) == DaysBeforeYear(y) + DaysInYear(y)
  {
    Multiples(y);
    NextFourth(y);
    NextHundredth(y);
    NextFourHundredth(y);
  }

  /** The table of month starts is the running sum of the month lengths. */
  lemma MonthStarts(y: int, m: int)
    requires 1 <= m <= 12
    ensures DaysBeforeMonth(y, m + 1) == DaysBeforeMonth(y, m) + DaysInMonth(y, m)
  {
  }

  function NextMonth(y: int, m: int): (r: (int, int)) {
    if m == 12 then (y + 1, 1) else (y, m + 1)
  }

  /** The day after the end of a month is the first of the next month. */
  lemma MonthsMeet(y: int, m: int)
    requires 1 <= m <= 12
    ensures var n := NextMonth(y, m);
      Ordinal(Date(n.0, n.1, 1)) == Ordinal(Date(y, m, 1)) + DaysInMonth(y, m)
  {
    NextYear(y);
    MonthStarts(y, m);
  }

  lemma {:induction false} MonthsAscend(y: int, m: int, n: int)
    requires 1 <= m < n <= 13
    ensures DaysBeforeMonth(y, m) + DaysInMonth(y, m) <= DaysBeforeMonth(y, n)
  {
    MonthStarts(y, n - 1);
    if m + 1 < n { MonthsAscend(y, m, n - 1); }
  }

  lemma {:induction false} YearsAscend(y: int, z: int)
    requires y < z
    ensures DaysBeforeYear(y) + DaysInYear(y) <= DaysBeforeYear(z)
    decreases z - y
  {
    if y + 1 < z {
      YearsAscend(y, z - 1);
      NextYear(z - 1);
    } else {
      NextYear(y);
    }
  }

  lemma DayOfYear(d: Date)
    requires d.Valid()
    ensures 1 <= DaysBeforeMonth(d.year, d.month) + d.day <= DaysInYear(d.year)
  {
    if d.month > 1 { MonthsAscend(d.year, 1, d.month); }
    MonthsAscend(d.year, d.month, 13);
  }

  lemma LaterIsGreater(a: Date, b: Date)
    requires a.Valid() && b.Valid() && a.Leq(b) && a != b
    ensures Ordinal(a) < Ordinal(b)
  {
    if a.year < b.year {
      DayOfYear(a);
      DayOfYear(b);
      YearsAscend(a.year, b.year);
    } else if a.month < b.month {
      MonthsAscend(a.year, a.month, b.month);
    }
  }

  /** Comparing dates is comparing their day numbers. */
  lemma OrderIsOrdinalOrder(a: Date, b: Date)
    requires a.Valid() && b.Valid()
    ensures a.Leq(b) <==> Ordinal(a) <= Ordinal(b)
  {
    if a != b {
      if a.Leq(b) { LaterIsGreater(a, b); } else { LaterIsGreater(b, a); }
    }
  }

  /** The months alternate between 31 and 30 days, starting anew in August; February has 28 or 29. */
  lemma MonthLengths(y: int, m: int)
    requires 1 <= m <= 12
    ensures m != 2 ==> DaysInMonth(y, m) == 30 + (m + m / 8) % 2
    ensures DaysInMonth(y, 2) == DaysInYear(y) - 337
  {
  }

  lemma DivisionShifts(y: int, k: int, d: int)
    requires d > 0
    ensures (y + k * d) / d == y / d + k
  {
    assert y + k * d == (y / d + k) * d + y % d;
    QuotientIs(y + k * d, y / d + k, y % d, d);
  }

  lemma QuotientIs(n: int, q: int, r: int, d: int)
    requires d > 0 && n == q * d + r && 0 <= r < d
    ensures n / d == q
  {
    var p := n / d;
    assert (p - q) * d == r - n % d;
    if p > q { MultipleIsLarge(p - q, d); }
    if p < q { MultipleIsLarge(q - p, d); }
  }

  lemma MultipleIsLarge(k: int, d: int)
    requires k > 0 && d > 0
    ensures k * d >= d
  {
  }

  /** Four hundred years are 146097 days, whole weeks at that, and leap years recur with them. */
  lemma FourCenturies(y: int)
    ensures Ordinal(Date(y + 400, 1, 1)) == Ordinal(Date(y, 1, 1)) + 146097
  {
    DivisionShifts(y - 1, 100, 4);
    DivisionShifts(y - 1, 4, 100);
    DivisionShifts(y - 1, 1, 400);
  }
}
