/** `FinancialCalendarEngine`: the twelve periods of a fiscal year and the search for the
    period of a date. */
module FiscalCalendar {
  import opened Records
  import opened Calendar

  datatype Period = Period(fiscalYear: int, number: int, start: Date, end: Date, close: Date)

  /** The two attributes that the engine reads from the calendar's master record. */
  datatype Settings = Settings(startMonth: int, startDay: int)

  datatype CalendarError = CalendarNotFound | DateOutOfRange

  function Min(a: int, b: int): int {
    if a < b then a else b
  }

  /** Year and month of period `i`; the division rounds down and the remainder is not negative,
      also for a start month below one. */
  function PeriodYear(c: Settings, fiscalYear: int, i: int): int {
    if c.startMonth > 1 then fiscalYear + (c.startMonth - 1 + i) / 12 else fiscalYear
  }

  function PeriodMonth(c: Settings, i: int): (m: int)
    ensures 1 <= m <= 12
  {
    (c.startMonth - 1 + i) % 12 + 1
  }

  /** The period that covers a month from its start day, or from its end if it is shorter. */
  function MonthPeriod(fiscalYear: int, number: int, startDay: int, y: int, m: int): Period {
    var days := DaysInMonth(y, m);
    Period(fiscalYear, number, Date(y, m, Min(startDay, days)), Date(y, m, days),
           Date(if m == 12 then y + 1 else y, m % 12 + 1, Min(5, days)))
  }

  function PeriodAt(c: Settings, fiscalYear: int, i: int): Period {
    MonthPeriod(fiscalYear, i + 1, c.startDay, PeriodYear(c, fiscalYear, i), PeriodMonth(c, i))
  }

  /** Building a date outside years 1 to 9999, or on a day below 1, raises. */
  predicate Buildable(p: Period) {
    p.start.InRange() && p.end.InRange() && p.close.InRange()
  }

  predicate AllBuildable(c: Settings, fiscalYear: int) {
    forall i :: 0 <= i < 12 ==> Buildable(PeriodAt(c, fiscalYear, i))
  }

  function FiscalPeriods(c: Settings, fiscalYear: int): Result<seq<Period>, CalendarError> {
    if AllBuildable(c, fiscalYear) then Ok(seq(12, i => PeriodAt(c, fiscalYear, i))) else Err(DateOutOfRange)
  }

  /** `get_fiscal_periods`, given the record that the master lookup found. */
  method GetFiscalPeriods(calendar: Option<Settings>, fiscalYear: int) returns (r: Result<seq<Period>, CalendarError>)
    ensures r == if calendar.None? then Err(CalendarNotFound) else FiscalPeriods(calendar.value, fiscalYear)
  {
    if calendar.None? { return Err(CalendarNotFound); }
    var c := calendar.value;
    var periods: seq<Period> := [];
    for i := 0 to 12
      invariant |periods| == i
      invariant forall j :: 0 <= j < i ==> periods[j] == PeriodAt(c, fiscalYear, j) && Buildable(periods[j])
    {
      var totalMonth := c.startMonth - 1 + i;
      var year := if c.startMonth > 1 then fiscalYear + totalMonth / 12 else fiscalYear;
      var month := totalMonth % 12 + 1;
      var days := DaysInMonth(year, month);
      var start, end := Date(year, month, Min(c.startDay, days)), Date(year, month, days);
      var close := Date(if month == 12 then year + 1 else year, month % 12 + 1, Min(5, days));
      var period := Period(fiscalYear, i + 1, start, end, close);
      assert period == PeriodAt(c, fiscalYear, i);
      if !Buildable(period) { return Err(DateOutOfRange); }
      periods := periods + [period];
    }
    assert forall j :: 0 <= j < 12 ==> Buildable(PeriodAt(c, fiscalYear, j));
    assert periods == seq(12, j => PeriodAt(c, fiscalYear, j));
    return Ok(periods);
  }

  predicate Contains(p: Period, d: Date) {
    p.start.Leq(d) && d.Leq(p.end)
  }

  /** Whole months: any start month, and the fiscal year starts on the first. */
  predicate WholeMonths(c: Settings) {
    1 <= c.startMonth <= 12 && c.startDay == 1
  }

  /** A start day of at least one; later ones leave the first days of each month uncovered. */
  predicate Regular(c: Settings) {
    1 <= c.startMonth <= 12 && 1 <= c.startDay
  }

  /** The fiscal year and the position of the period whose month holds `d`. */
  function FiscalYearOf(c: Settings, d: Date): int {
    if d.month >= c.startMonth then d.year else d.year - 1
  }

  function PositionOf(c: Settings, d: Date): int {
    if d.month >= c.startMonth then d.month - c.startMonth else d.month - c.startMonth + 12
  }

  /** The period of the date's month. */
  function MonthsPeriod(c: Settings, d: Date): Period {
    PeriodAt(c, FiscalYearOf(c, d), PositionOf(c, d))
  }

  lemma MonthOf(c: Settings, fiscalYear: int, i: int)
    requires Regular(c) && 0 <= i < 12
    ensures
      var t := c.startMonth + i;
      && PeriodYear(c, fiscalYear, i) == (if t <= 12 then fiscalYear else fiscalYear + 1)
      && PeriodMonth(c, i) == (if t <= 12 then t else t - 12)
  {
  }

  lemma MonthPeriodContains(fiscalYear: int, number: int, startDay: int, y: int, m: int, d: Date)
    requires 1 <= m <= 12 && 1 <= startDay && d.Valid()
    ensures Contains(MonthPeriod(fiscalYear, number, startDay, y, m), d) <==>
      d.year == y && d.month == m && Min(startDay, DaysInMonth(y, m)) <= d.day
  {
  }

  /** A period holds a date exactly when it is the period of the date's month and the date is
      not before the period's start day. */
  lemma ContainsExactlyWhen(c: Settings, d: Date, fiscalYear: int, i: int)
    requires Regular(c) && d.Valid() && 0 <= i < 12
    ensures Contains(PeriodAt(c, fiscalYear, i), d) <==>
      fiscalYear == FiscalYearOf(c, d) && i == PositionOf(c, d) && Held(c, d)
  {
    MonthOf(c, fiscalYear, i);
    MonthPeriodContains(fiscalYear, i + 1, c.startDay, PeriodYear(c, fiscalYear, i), PeriodMonth(c, i), d);
  }

  /** The date is on or after the start day of its month's period. */
  predicate Held(c: Settings, d: Date) {
    Min(c.startDay, DaysInMonth(d.year, d.month)) <= d.day
  }

  /** The month after a period's is that of the next period, across fiscal years too. */
  lemma NextPeriodIsNextMonth(c: Settings, fiscalYear: int, i: int)
    requires Regular(c) && 0 <= i < 12
    ensures NextMonth(PeriodYear(c, fiscalYear, i), PeriodMonth(c, i))
      == if i < 11 then (PeriodYear(c, fiscalYear, i + 1), PeriodMonth(c, i + 1))
         else (PeriodYear(c, fiscalYear + 1, 0), PeriodMonth(c, 0))
  {
    MonthOf(c, fiscalYear, i);
    if i < 11 { MonthOf(c, fiscalYear, i + 1); } else { MonthOf(c, fiscalYear + 1, 0); }
  }

  /** The summed lengths of the day ranges from starts[k] to ends[k]. */
  function SumOfLengths(starts: seq<int>, ends: seq<int>): int
    requires |starts| == |ends|
  {
    if starts == [] then 0
    else SumOfLengths(starts[..|starts| - 1], ends[..|ends| - 1]) + ends[|ends| - 1] - starts[|starts| - 1] + 1
  }

  function Starts(c: Settings, fiscalYear: int): seq<int> {
    seq(12, i => Ordinal(PeriodAt(c, fiscalYear, i).start))
  }

  function Ends(c: Settings, fiscalYear: int): seq<int> {
    seq(12, i => Ordinal(PeriodAt(c, fiscalYear, i).end))
  }

  /** The total length in days of the twelve periods. */
  function TotalLength(c: Settings, fiscalYear: int): int {
    SumOfLengths(Starts(c, fiscalYear), Ends(c, fiscalYear))
  }

  lemma {:induction false} AdjoiningLengthsAddUp(starts: seq<int>, ends: seq<int>)
    requires |starts| == |ends| > 0
    requires forall k :: 0 <= k < |starts| - 1 ==> ends[k] + 1 == starts[k + 1]
    ensures SumOfLengths(starts, ends) == ends[|ends| - 1] - starts[0] + 1
  {
    if |starts| > 1 {
      AdjoiningLengthsAddUp(starts[..|starts| - 1], ends[..|ends| - 1]);
      assert ends[|ends| - 2] + 1 == starts[|starts| - 1];
    } else {
      assert SumOfLengths(starts[..0], ends[..0]) == 0;
    }
  }

  /** Contiguity, within a fiscal year and from one to the next. */
  lemma PeriodsTile(c: Settings, fiscalYear: int, i: int)
    requires WholeMonths(c) && 0 <= i < 12
    ensures
      var next := if i < 11 then PeriodAt(c, fiscalYear, i + 1) else PeriodAt(c, fiscalYear + 1, 0);
      Ordinal(PeriodAt(c, fiscalYear, i).end) + 1 == Ordinal(next.start)
  {
    MonthsMeet(PeriodYear(c, fiscalYear, i), PeriodMonth(c, i));
    NextPeriodIsNextMonth(c, fiscalYear, i);
  }

  /** 29 February exists in year `y` and lies within the fiscal year. */
  ghost predicate HoldsLeapDay(c: Settings, fiscalYear: int, y: int) {
    IsLeap(y) && PeriodAt(c, fiscalYear, 0).start.Leq(Date(y, 2, 29))
    && Date(y, 2, 29).Leq(PeriodAt(c, fiscalYear, 11).end)
  }

  /** A period of a whole-month calendar runs over the whole of its month. */
  lemma WholeMonth(c: Settings, fiscalYear: int, i: int, y: int, m: int)
    requires WholeMonths(c) && 0 <= i < 12
    requires if c.startMonth + i <= 12 then y == fiscalYear && m == c.startMonth + i
             else y == fiscalYear + 1 && m == c.startMonth + i - 12
    ensures PeriodAt(c, fiscalYear, i).start == Date(y, m, 1)
    ensures PeriodAt(c, fiscalYear, i).end == Date(y, m, DaysInMonth(y, m))
  {
    MonthOf(c, fiscalYear, i);
  }

  function LastMonth(c: Settings): int {
    if c.startMonth == 1 then 12 else c.startMonth - 1
  }

  function LastYear(c: Settings, fiscalYear: int): int {
    if c.startMonth == 1 then fiscalYear else fiscalYear + 1
  }

  /** The first day and the last day of a whole-month fiscal year. */
  lemma FirstAndLastDay(c: Settings, fiscalYear: int)
    requires WholeMonths(c)
    ensures PeriodAt(c, fiscalYear, 0).start == Date(fiscalYear, c.startMonth, 1)
    ensures var y, m := LastYear(c, fiscalYear), LastMonth(c);
      PeriodAt(c, fiscalYear, 11).end == Date(y, m, DaysInMonth(y, m))
  {
    WholeMonth(c, fiscalYear, 0, fiscalYear, c.startMonth);
    WholeMonth(c, fiscalYear, 11, LastYear(c, fiscalYear), LastMonth(c));
  }

  /** 29 February of `y` lies between the first and the last day, given as plain dates. */
  lemma LeapDayBetween(y: int, first: int, last: int, startMonth: int, endMonth: int)
    requires 1 <= startMonth <= 12 && IsLeap(y)
    requires
      if startMonth == 1 then last == first && endMonth == 12
      else last == first + 1 && endMonth == startMonth - 1
    ensures Date(first, startMonth, 1).Leq(Date(y, 2, 29))
         && Date(y, 2, 29).Leq(Date(last, endMonth, DaysInMonth(last, endMonth)))
      <==> y == if startMonth <= 2 then first else first + 1
  {
  }

  lemma LeapDayYear(c: Settings, fiscalYear: int, y: int)
    requires WholeMonths(c)
    ensures HoldsLeapDay(c, fiscalYear, y) <==>
      IsLeap(y) && y == if c.startMonth <= 2 then fiscalYear else fiscalYear + 1
  {
    FirstAndLastDay(c, fiscalYear);
    if IsLeap(y) {
      LeapDayBetween(y, fiscalYear, LastYear(c, fiscalYear), c.startMonth, LastMonth(c));
    }
  }

  /** Main result: a fiscal year has 365 days, or 366 exactly when it holds a 29 February. */
  lemma FiscalYearLength(c: Settings, fiscalYear: int)
    requires WholeMonths(c)
    ensures TotalLength(c, fiscalYear) == if exists y :: HoldsLeapDay(c, fiscalYear, y) then 366 else 365
  {
    var y := if c.startMonth <= 2 then fiscalYear else fiscalYear + 1;
    YearSpan(c, fiscalYear);
    LeapDayYear(c, fiscalYear, y);
    if z :| HoldsLeapDay(c, fiscalYear, z) {
      LeapDayYear(c, fiscalYear, z);
    }
  }

  lemma WholeSpan(c: Settings, fiscalYear: int)
    requires WholeMonths(c)
    ensures TotalLength(c, fiscalYear)
      == Ordinal(PeriodAt(c, fiscalYear, 11).end) - Ordinal(PeriodAt(c, fiscalYear, 0).start) + 1
  {
    forall i | 0 <= i < 11 ensures Ends(c, fiscalYear)[i] + 1 == Starts(c, fiscalYear)[i + 1] {
      PeriodsTile(c, fiscalYear, i);
    }
    AdjoiningLengthsAddUp(Starts(c, fiscalYear), Ends(c, fiscalYear));
  }

  lemma YearSpan(c: Settings, fiscalYear: int)
    requires WholeMonths(c)
    ensures TotalLength(c, fiscalYear) == DaysInYear(if c.startMonth <= 2 then fiscalYear else fiscalYear + 1)
  {
    WholeSpan(c, fiscalYear);
    PeriodsTile(c, fiscalYear, 11);
    FirstAndLastDay(c, fiscalYear);
    FirstAndLastDay(c, fiscalYear + 1);
    SameDayNextYear(fiscalYear, c.startMonth);
  }

  lemma SameDayNextYear(y: int, m: int)
    requires 1 <= m <= 12
    ensures Ordinal(Date(y + 1, m, 1)) - Ordinal(Date(y, m, 1)) == DaysInYear(if m <= 2 then y else y + 1)
  {
    NextYear(y);
  }

  lemma DayOfMonth(y: int, m: int, day: int)
    requires 1 <= m <= 12
    ensures Ordinal(Date(y, m, day)) == Ordinal(Date(y, m, 1)) + day - 1
  {
  }

  lemma CloseOfMonth(fiscalYear: int, number: int, startDay: int, y: int, m: int)
    requires 1 <= m <= 12
    ensures var p := MonthPeriod(fiscalYear, number, startDay, y, m);
      p.close.Valid() && Ordinal(p.close) == Ordinal(p.end) + 5
  {
    var p, next := MonthPeriod(fiscalYear, number, startDay, y, m), NextMonth(y, m);
    assert p.close == Date(next.0, next.1, 5);
    MonthsMeet(y, m);
    DayOfMonth(next.0, next.1, 5);
    DayOfMonth(y, m, DaysInMonth(y, m));
  }

  /** Main result: the close date is five days after the end, for every period of every calendar. */
  lemma CloseIsFiveDaysAfterEnd(c: Settings, fiscalYear: int, i: int)
    ensures var p := PeriodAt(c, fiscalYear, i);
      p.close.Valid() && Ordinal(p.close) == Ordinal(p.end) + 5
  {
    CloseOfMonth(fiscalYear, i + 1, c.startDay, PeriodYear(c, fiscalYear, i), PeriodMonth(c, i));
  }

  /** Main result: the days of a period's month before its start, which no period of any fiscal
      year holds, number min(start day, days in month) - 1; every later day of the month is held. */
  lemma GapBeforePeriod(c: Settings, fiscalYear: int, i: int, d: Date)
    requires Regular(c) && 0 <= i < 12
    requires d.Valid() && d.year == PeriodYear(c, fiscalYear, i) && d.month == PeriodMonth(c, i)
    ensures
      var p := PeriodAt(c, fiscalYear, i);
      var gap := Min(c.startDay, DaysInMonth(d.year, d.month)) - 1;
      && Ordinal(p.start) == Ordinal(Date(d.year, d.month, 1)) + gap
      && (d.day <= gap <==> forall y, j :: 0 <= j < 12 ==> !Contains(PeriodAt(c, y, j), d))
      && (d.day > gap ==> Contains(p, d))
  {
    MonthOf(c, fiscalYear, i);
    ContainsExactlyWhen(c, d, fiscalYear, i);
    if !Held(c, d) {
      forall y, j | 0 <= j < 12 ensures !Contains(PeriodAt(c, y, j), d) {
        ContainsExactlyWhen(c, d, y, j);
      }
    }
  }

  /** Position of the first of the periods that holds `d`, or their number. */
  function FirstHolding(ps: seq<Period>, d: Date): (i: nat)
    ensures i <= |ps| && (i < |ps| ==> Contains(ps[i], d)) && forall j :: 0 <= j < i ==> !Contains(ps[j], d)
  {
    if ps == [] then 0
    else if Contains(ps[0], d) then 0
    else
      assert forall j :: 1 <= j < |ps| ==> ps[j] == ps[1..][j - 1];
      1 + FirstHolding(ps[1..], d)
  }

  /** One turn of the search: the first period of the year that holds `d`, else `rest`. */
  function SearchYear(periods: Result<seq<Period>, CalendarError>, d: Date, rest: Result<Period, CalendarError>)
    : Result<Period, CalendarError>
  {
    match periods
    case Ok(ps) => var i := FirstHolding(ps, d); if i < |ps| then Ok(ps[i]) else rest
    case Err(e) => Err(e)
  }

  function FirstPeriod(periods: Result<seq<Period>, CalendarError>): Result<Period, CalendarError>
    requires periods.Ok? ==> |periods.value| > 0
  {
    match periods
    case Ok(ps) => Ok(ps[0])
    case Err(e) => Err(e)
  }

  /** The search over the given fiscal years in turn, with its fallback. */
  function LookupIn(c: Settings, d: Date, years: seq<int>): Result<Period, CalendarError> {
    if years == [] then FirstPeriod(FiscalPeriods(c, d.year))
    else SearchYear(FiscalPeriods(c, years[0]), d, LookupIn(c, d, years[1..]))
  }

  function YearsAround(d: Date): seq<int> {
    [d.year - 1, d.year, d.year + 1]
  }

  function Lookup(c: Settings, d: Date): Result<Period, CalendarError> {
    LookupIn(c, d, YearsAround(d))
  }

  /** The inner loop of the search. */
  method SearchPeriods(ps: seq<Period>, d: Date) returns (found: Option<Period>)
    ensures found == var i := FirstHolding(ps, d); if i < |ps| then Some(ps[i]) else None
  {
    for p := 0 to |ps|
      invariant forall j :: 0 <= j < p ==> !Contains(ps[j], d)
    {
      if Contains(ps[p], d) { return Some(ps[p]); }
    }
    return None;
  }

  /** `get_period_for_date` */
  method GetPeriodForDate(calendar: Option<Settings>, d: Date) returns (r: Result<Period, CalendarError>)
    ensures r == if calendar.None? then Err(CalendarNotFound) else Lookup(calendar.value, d)
  {
    var years := YearsAround(d);
    for f := 0 to |years|
      invariant calendar.Some? ==> Lookup(calendar.value, d) == LookupIn(calendar.value, d, years[f..])
    {
      var periods := GetFiscalPeriods(calendar, years[f]);
      if periods.Err? { return Err(periods.error); }
      var found := SearchPeriods(periods.value, d);
      if found.Some? { return Ok(found.value); }
      assert years[f..][1..] == years[f + 1..];
    }
    var fallback := GetFiscalPeriods(calendar, d.year);
    if fallback.Err? { return Err(fallback.error); }
    return Ok(fallback.value[0]);
  }

  lemma MonthPeriodBuildable(fiscalYear: int, number: int, startDay: int, y: int, m: int)
    requires 1 <= m <= 12 && 1 <= startDay
    ensures Buildable(MonthPeriod(fiscalYear, number, startDay, y, m)) <==>
      MIN_YEAR <= y && (if m == 12 then y + 1 else y) <= MAX_YEAR
  {
  }

  lemma PeriodBuildable(c: Settings, fiscalYear: int, i: int)
    requires Regular(c) && 0 <= i < 12
    ensures Buildable(PeriodAt(c, fiscalYear, i)) <==>
      MIN_YEAR <= PeriodYear(c, fiscalYear, i)
      && (if PeriodMonth(c, i) == 12 then 1 else 0) + PeriodYear(c, fiscalYear, i) <= MAX_YEAR
  {
    MonthPeriodBuildable(fiscalYear, i + 1, c.startDay, PeriodYear(c, fiscalYear, i), PeriodMonth(c, i));
  }

  /** The representable fiscal years. */
  lemma BuildableExactlyWhen(c: Settings, fiscalYear: int)
    requires Regular(c)
    ensures AllBuildable(c, fiscalYear) <==> MIN_YEAR <= fiscalYear < MAX_YEAR
  {
    forall i | 0 <= i < 12
      ensures MIN_YEAR <= fiscalYear < MAX_YEAR ==> Buildable(PeriodAt(c, fiscalYear, i))
      ensures i == 0 && Buildable(PeriodAt(c, fiscalYear, i)) ==> MIN_YEAR <= fiscalYear
      ensures i == 11 && Buildable(PeriodAt(c, fiscalYear, i)) ==> fiscalYear < MAX_YEAR
    {
      PeriodBuildable(c, fiscalYear, i);
      MonthOf(c, fiscalYear, i);
    }
    assert AllBuildable(c, fiscalYear) ==>
      Buildable(PeriodAt(c, fiscalYear, 0)) && Buildable(PeriodAt(c, fiscalYear, 11));
  }

  lemma SearchOneYear(c: Settings, d: Date, fiscalYear: int, ps: seq<Period>)
    requires Regular(c) && d.Valid() && |ps| == 12
    requires forall i :: 0 <= i < 12 ==> ps[i] == PeriodAt(c, fiscalYear, i)
    ensures FirstHolding(ps, d) == if fiscalYear == FiscalYearOf(c, d) && Held(c, d) then PositionOf(c, d) else 12
  {
    var n := FirstHolding(ps, d);
    if n < 12 {
      ContainsExactlyWhen(c, d, fiscalYear, n);
    } else {
      var i := PositionOf(c, d);
      assert !Contains(ps[i], d);
      ContainsExactlyWhen(c, d, fiscalYear, i);
    }
  }

  lemma SearchYearResult(c: Settings, d: Date, fiscalYear: int, rest: Result<Period, CalendarError>)
    requires Regular(c) && d.Valid()
    ensures SearchYear(FiscalPeriods(c, fiscalYear), d, rest) ==
      if !(MIN_YEAR <= fiscalYear < MAX_YEAR) then Err(DateOutOfRange)
      else if fiscalYear == FiscalYearOf(c, d) && Held(c, d) then Ok(MonthsPeriod(c, d))
      else rest
  {
    BuildableExactlyWhen(c, fiscalYear);
    if AllBuildable(c, fiscalYear) {
      SearchOneYear(c, d, fiscalYear, FiscalPeriods(c, fiscalYear).value);
    }
  }

  lemma YearStep(c: Settings, d: Date, years: seq<int>)
    requires Regular(c) && d.Valid() && years != []
    ensures LookupIn(c, d, years) ==
      if !(MIN_YEAR <= years[0] < MAX_YEAR) then Err(DateOutOfRange)
      else if years[0] == FiscalYearOf(c, d) && Held(c, d) then Ok(MonthsPeriod(c, d))
      else LookupIn(c, d, years[1..])
  {
    SearchYearResult(c, d, years[0], LookupIn(c, d, years[1..]));
  }

  lemma Fallback(c: Settings, d: Date)
    requires Regular(c)
    ensures LookupIn(c, d, []) ==
      if MIN_YEAR <= d.year < MAX_YEAR then Ok(PeriodAt(c, d.year, 0)) else Err(DateOutOfRange)
  {
    BuildableExactlyWhen(c, d.year);
  }

  /** The search once the year before the date's has been left behind. */
  lemma LookupLater(c: Settings, d: Date, years: seq<int>)
    requires Regular(c) && d.InRange() && !(Held(c, d) && d.month < c.startMonth)
    requires |years| == 2 && years[0] == d.year && years[1] == d.year + 1
    ensures LookupIn(c, d, years) ==
      if d.year == MAX_YEAR then Err(DateOutOfRange)
      else if Held(c, d) then Ok(MonthsPeriod(c, d))
      else if d.year == MAX_YEAR - 1 then Err(DateOutOfRange)
      else Ok(PeriodAt(c, d.year, 0))
  {
    YearStep(c, d, years);
    YearStep(c, d, years[1..]);
    Fallback(c, d);
    assert years[1..][1..] == [];
  }

  lemma LookupEarlier(c: Settings, d: Date, years: seq<int>)
    requires Regular(c) && d.InRange()
    requires years != [] && d.year == years[0] + 1
    ensures LookupIn(c, d, years) ==
      if d.year == MIN_YEAR then Err(DateOutOfRange)
      else if Held(c, d) && d.month < c.startMonth then Ok(MonthsPeriod(c, d))
      else LookupIn(c, d, years[1..])
  {
    YearStep(c, d, years);
  }

  /** Every result of the search. The third fiscal year never holds the date; the fallback is
      the first period of the date's year, which does not hold it either. */
  lemma LookupResult(c: Settings, d: Date)
    requires Regular(c) && d.InRange()
    ensures Lookup(c, d) ==
      if d.year == MIN_YEAR then Err(DateOutOfRange)
      else if Held(c, d) && d.month < c.startMonth then Ok(MonthsPeriod(c, d))
      else if d.year == MAX_YEAR then Err(DateOutOfRange)
      else if Held(c, d) then Ok(MonthsPeriod(c, d))
      else if d.year == MAX_YEAR - 1 then Err(DateOutOfRange)
      else Ok(PeriodAt(c, d.year, 0))
  {
    var years := YearsAround(d);
    LookupEarlier(c, d, years);
    if !(Held(c, d) && d.month < c.startMonth) {
      LookupLater(c, d, years[1..]);
    }
  }

  /** Main result: the search returns a period that holds the date exactly for dates on or
      after their month's start day, away from the two ends of the calendar. Such a period is
      the only one, over all fiscal years, that holds the date. */
  lemma LookupInvertsExactlyWhen(c: Settings, d: Date)
    requires Regular(c) && d.InRange()
    ensures
      var r := Lookup(c, d);
      && ((r.Ok? && Contains(r.value, d)) <==>
            Held(c, d) && MIN_YEAR < d.year && (d.year < MAX_YEAR || d.month < c.startMonth))
      && (r.Ok? && Contains(r.value, d) ==>
            forall y, i :: 0 <= i < 12 && Contains(PeriodAt(c, y, i), d) ==> PeriodAt(c, y, i) == r.value)
  {
    LookupResult(c, d);
    ContainsExactlyWhen(c, d, d.year, 0);
    ContainsExactlyWhen(c, d, FiscalYearOf(c, d), PositionOf(c, d));
    forall y, i | 0 <= i < 12 && Contains(PeriodAt(c, y, i), d)
      ensures PeriodAt(c, y, i) == PeriodAt(c, FiscalYearOf(c, d), PositionOf(c, d))
    {
      ContainsExactlyWhen(c, d, y, i);
    }
  }

  /** With whole-month periods the fallback is unreachable: every date of years 2 to 9998 gets
      the period that holds it. */
  lemma WholeMonthsAlwaysFound(c: Settings, d: Date)
    requires WholeMonths(c) && d.InRange() && MIN_YEAR < d.year < MAX_YEAR
    ensures var r := Lookup(c, d);
      r.Ok? && Contains(r.value, d)
  {
    LookupInvertsExactlyWhen(c, d);
  }

  /** Main result: the periods of a fiscal year, for every setting, are twelve, bear that year, and
      are numbered from 1 in order. Each is in the month that follows the start month by its number
      less one, from the start day, or from the month's last day if it is shorter, to that last day. */
  lemma PeriodsAreLabelled(c: Settings, fiscalYear: int)
    requires FiscalPeriods(c, fiscalYear).Ok?
    ensures
      var ps := FiscalPeriods(c, fiscalYear).value;
      && |ps| == 12
      && forall i :: 0 <= i < 12 ==>
           && ps[i].fiscalYear == fiscalYear && ps[i].number == i + 1
           && ps[i].start.month == ps[i].end.month == (c.startMonth - 1 + i) % 12 + 1
           && ps[i].start.year == ps[i].end.year && ps[i].end.day == DaysInMonth(ps[i].end.year, ps[i].end.month)
           && ps[i].start.day == (if c.startDay < ps[i].end.day then c.startDay else ps[i].end.day)
  {
  }

  /** Main result: what a lookup says of the date. A period returned that holds the date bears the
      calendar year if the date's month is not before the start month, else the year before, and is
      numbered by the months since the start month. */
  lemma LookupIsLabelled(c: Settings, d: Date)
    requires Regular(c) && d.InRange() && Lookup(c, d).Ok?
    requires Lookup(c, d).value.start.Leq(d) && d.Leq(Lookup(c, d).value.end)
    ensures
      var p := Lookup(c, d).value;
      && p.fiscalYear == (if c.startMonth <= d.month then d.year else d.year - 1)
      && p.number == (d.month - c.startMonth) % 12 + 1
      && p.end == Date(d.year, d.month, DaysInMonth(d.year, d.month))
  {
    LookupResult(c, d);
    ContainsExactlyWhen(c, d, d.year, 0);
    ContainsExactlyWhen(c, d, FiscalYearOf(c, d), PositionOf(c, d));
    MonthOf(c, FiscalYearOf(c, d), PositionOf(c, d));
    MonthPeriodContains(FiscalYearOf(c, d), PositionOf(c, d) + 1, c.startDay,
                        PeriodYear(c, FiscalYearOf(c, d), PositionOf(c, d)),
                        PeriodMonth(c, PositionOf(c, d)), d);
  }
}
