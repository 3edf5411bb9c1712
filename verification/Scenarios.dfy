/** Concrete inputs and their results. */
module Scenarios {
  import opened Text
  import opened Records
  import opened Resolution
  import opened Lifecycle
  import opened Calls
  import opened Import
  import opened Seeder
  import opened Rounding
  import opened Currency
  import opened Calendar
  import opened FiscalCalendar
  import opened EnumBridge
  import opened References

  /** The draft that a creation on a master with approval stores. */
  function StoredDraft(): Rec {
    Rec("r0", "M", "A", Content("Alpha", None, 0, None, map[]), false, true, 0, None, 1, None, "dev", None, Draft)
  }

  /** A created draft is found by an inclusive lookup and listed by an inclusive list, not by others,
      and a deletion removes it. */
  lemma DraftIsFoundAndDeleted()
    ensures
      var reg := Masters(true);
      var s := Run(reg, EMPTY, [Step(Creating("Alpha", None, false, "r0"), 1)]);
      && s.recs == [StoredDraft()]
      && Resolve(s.recs, "M", "A", 2, None, true) == Some(0) && Resolve(s.recs, "M", "A", 2, None, false) == None
      && ListRecords(s.recs, "M", 2, None, true) == [StoredDraft()] && ListRecords(s.recs, "M", 2, None, false) == []
      && Run(reg, s, [Step(DeleteOp("M", "A", "dev", 0), 2)]).recs == []
  {
    var reg := Masters(true);
    var s := Next(reg, EMPTY, Creating("Alpha", None, false, "r0"), 1);
    DraftIsStored(s);
    RunLast(reg, EMPTY, Creating("Alpha", None, false, "r0"), 1);
    RunLast(reg, s, DeleteOp("M", "A", "dev", 0), 2);
    DraftIsFound(s.recs);
    DraftIsListed(s.recs);
    DraftIsDeleted(s);
  }

  lemma DraftIsStored(s: State)
    requires s == Next(Masters(true), EMPTY, Creating("Alpha", None, false, "r0"), 1)
    ensures s.recs == [StoredDraft()]
  {
    Spellings();
  }

  lemma DraftIsFound(recs: seq<Rec>)
    requires recs == [StoredDraft()]
    ensures Resolve(recs, "M", "A", 2, None, true) == Some(0) && Resolve(recs, "M", "A", 2, None, false) == None
  {
    Spellings();
    assert Candidate(recs, 0, "M", "A", 2, true);
    LookupFinds(recs, "M", "A", 2, None, true);
    LookupFinds(recs, "M", "A", 2, None, false);
  }

  lemma DraftIsListed(recs: seq<Rec>)
    requires recs == [StoredDraft()]
    ensures ListRecords(recs, "M", 2, None, true) == [StoredDraft()] && ListRecords(recs, "M", 2, None, false) == []
  {
    assert recs[..0] == [];
    assert ByCode(recs, "M", 2, None, true) == [StoredDraft()] && ByCode(recs, "M", 2, None, false) == [];
    assert [StoredDraft()][..0] == [] && Sort([]) == [];
    assert Sort([StoredDraft()]) == Insert([], StoredDraft());
  }

  lemma DraftIsDeleted(s: State)
    requires s.recs == [StoredDraft()]
    ensures Next(Masters(true), s, DeleteOp("M", "A", "dev", 0), 2).recs == []
  {
    Spellings();
    DraftIsFound(s.recs);
  }

  /** A row for a new code, and what the import stores for it. */
  lemma NewRowIsStored(actor: string)
    ensures
      var row := Row(Some(" A "), Some("Alpha"), Some("d"), Absent, Some("P"), None);
      var r := ImportData(Masters(false), EMPTY, " m ", [row], [Tick(1, "r0")], actor);
      && r.1 == Ok((1, 0))
      && r.0.recs == [Rec("r0", "M", "A", Content("Alpha", Some("d"), 0, Some("P"), map[]), false, true, 1, None,
                          1, None, actor, Some(actor), Published)]
  {
    var row := Row(Some(" A "), Some("Alpha"), Some("d"), Absent, Some("P"), None);
    Spellings();
    assert Strip(" m ") == "m" && Upper("m") == "M" && Strip(" A ") == "A" && Strip("Alpha") == "Alpha";
    OneRow(Masters(false), EMPTY, row, Tick(1, "r0"), actor);
    ImportRunsExactlyWhen(Masters(false), EMPTY, " m ", [row], [Tick(1, "r0")], actor);
    OneCounts(Added);
  }

  function Currencies(): seq<SeedFile> {
    [SeedFile("CURRENCY", Some([SeedItem("USD", Titled("Dollar"), None), SeedItem("EUR", Titled("Euro"), None)])),
     SeedFile("REGION", None)]
  }

  lemma CurrencyJobs()
    ensures
      var items := Currencies()[0].items.value;
      Jobs(Currencies()) == [Job("CURRENCY", items[0]), Job("CURRENCY", items[1])] && Missing(Currencies()) == 1
  {
    var files := Currencies();
    assert files[..1][..0] == [] && Jobs(files[..1][..0]) == [];
    assert Missing(files[..1]) == 0;
  }

  /** A file with two items and a missing one, on an empty store. */
  lemma TwoItemsAreSeeded()
    ensures |Jobs(Currencies())| == 2 && Missing(Currencies()) == 1
    ensures
      var s := SeedAll([], Jobs(Currencies()), ["s0", "s1"]);
      && (s.created, s.updated, s.same) == (2, 0, 0)
      && |s.recs| == 2 && s.recs[0].masterType == s.recs[1].masterType == "CURRENCY"
      && s.recs[0].code == "USD" && s.recs[0].content.displayName == "Dollar"
      && s.recs[1].code == "EUR" && s.recs[1].content.displayName == "Euro"
  {
    CurrencyJobs();
    var items := Currencies()[0].items.value;
    var first, both := Job("CURRENCY", items[0]), Jobs(Currencies());
    assert both[..1] == [first] && [first][..0] == [];
    assert "USD"[0] != "EUR"[0];
    assert GlobalIndex([], "CURRENCY", "USD").None?;
    var s := SeedAll([], [first], ["s0", "s1"]);
    assert SeedAll([], [], ["s0", "s1"]) == Seeded([], 0, 0, 0);
    assert s.recs == [SeededRecord(first, "s0")];
    assert GlobalIndex(s.recs, "CURRENCY", "EUR").None?;
  }

  /** Ties, and numbers that are no ties. */
  lemma SomeRoundings()
    ensures Round(0.5, HalfEven) == 0 && Round(1.5, HalfEven) == 2 && Round(-2.5, HalfEven) == -2
    ensures Round(2.6, HalfEven) == 3
    ensures Round(0.5, HalfUp) == 1 && Round(2.5, HalfUp) == 3 && Round(-2.5, HalfUp) == -3 && Round(-2.4, HalfUp) == -2
  {
  }

  lemma Spelled()
    ensures Upper("USD") == "USD" && Upper("EUR") == "EUR" && Upper("JPY") == "JPY"
    ensures Normalize("USD") == "USD" && Normalize("EUR") == "EUR" && "USD" != "EUR" && "USD" != "JPY"
  {
    assert Strip("USD") == "USD" && Strip("EUR") == "EUR";
    assert "USD"[0] != "EUR"[0] && "USD"[0] != "JPY"[0];
  }

  /** 10.01 dollars at 152.5 are 1526.525 yen, and the yen has no minor unit. */
  lemma YenHaveNoMinorUnits()
    ensures
      var rates := [RateRow("USD", "JPY", "MONTHLY_AVERAGE", 152.5)];
      Convert(10.01, "USD", "actual_cost", Some(Policy("JPY", map[])), rates, Some(CurrencyMaster(0, "HALF_EVEN")))
        == Ok(Conversion(1527.0, 152.5, "MONTHLY_AVERAGE"))
  {
    var rates := [RateRow("USD", "JPY", "MONTHLY_AVERAGE", 152.5)];
    Spelled();
    assert IsRate(rates[0], "USD", "JPY", "MONTHLY_AVERAGE");
    assert Times(10.01, 152.5) == 1526.525;
    assert Scale(0) == 1.0;
    assert Units(1526.525, 1.0) == 1526.525;
    assert Round(1526.525, HalfEven) == 1527;
    assert FromUnits(1527, 1.0) == 1527.0;
  }

  lemma TenthsAreRounded()
    ensures Quantize(Times(0.1, 1.105), Scale(2), HalfEven) == 0.11
  {
    ScaleOfTwo();
    assert Times(0.1, 1.105) == 0.1105;
    assert Units(0.1105, 100.0) == 11.05;
    assert Round(11.05, HalfEven) == 11;
    assert FromUnits(11, 100.0) == 0.11;
  }

  lemma DirectIsSelected(rates: seq<RateRow>)
    requires rates == [RateRow("USD", "EUR", "MONTHLY_AVERAGE", 0.8), RateRow("eur", "usd", "Monthly_Average", 1.105)]
    ensures SelectRate(rates, "EUR", "USD", "MONTHLY_AVERAGE") == Ok(1.105)
  {
    Spelled();
    assert Upper("eur") == "EUR" && Upper("usd") == "USD";
    assert Upper("Monthly_Average") == Upper("MONTHLY_AVERAGE");
    assert !IsRate(rates[0], "EUR", "USD", "MONTHLY_AVERAGE") && IsRate(rates[1], "EUR", "USD", "MONTHLY_AVERAGE");
  }

  /** A direct rate is used although an inverse one comes first, and two decimals are the default. */
  lemma DirectRateComesFirst()
    ensures
      var rates := [RateRow("USD", "EUR", "MONTHLY_AVERAGE", 0.8), RateRow("eur", "usd", "Monthly_Average", 1.105)];
      Convert(0.1, " eur ", "actual_cost", None, rates, None) == Ok(Conversion(0.11, 1.105, "MONTHLY_AVERAGE"))
  {
    Spelled();
    assert Strip(" eur ") == "eur" && Upper("eur") == "EUR";
    DirectIsSelected([RateRow("USD", "EUR", "MONTHLY_AVERAGE", 0.8), RateRow("eur", "usd", "Monthly_Average", 1.105)]);
    TenthsAreRounded();
  }

  /** In a fiscal year that starts in April, 15 January 2027 is in the tenth period of 2026. */
  lemma JanuaryIsTheTenthPeriod(c: Settings, d: Date)
    requires c == Settings(4, 1) && d == Date(2027, 1, 15)
    ensures
      var p := Lookup(c, d);
      p.Ok? && p.value.fiscalYear == 2026 && p.value.number == 10 && p.value.end == Date(2027, 1, 31)
  {
    LookupInvertsExactlyWhen(c, d);
    LookupIsLabelled(c, d);
  }

  /** Dates are of the years 1 to 9999, so the last period of fiscal year 9999 has no close date. */
  lemma DatesEndWithYear9999()
    ensures Date(1, 1, 1).InRange() && Date(9999, 12, 31).InRange()
    ensures !Date(0, 12, 31).InRange() && !Date(10000, 1, 1).InRange()
    ensures FiscalPeriods(Settings(1, 1), 9998).Ok? && FiscalPeriods(Settings(1, 1), 9999).Err?
    ensures FiscalPeriods(Settings(1, 1), 1).Ok? && FiscalPeriods(Settings(1, 1), 0).Err?
  {
    assert !Buildable(PeriodAt(Settings(1, 1), 9999, 11)) && !Buildable(PeriodAt(Settings(1, 1), 0, 0));
  }

  /** Of two codes with one key the later one names the member. */
  lemma LaterCodeNamesTheMember()
    ensures
      var records := [MasterValue("a.b-c d", true), MasterValue("A_B_C_D", true), MasterValue("a b", false)];
      Members(records) == map["A_B_C_D" := "A_B_C_D"]
  {
    var records := [MasterValue("a.b-c d", true), MasterValue("A_B_C_D", true), MasterValue("a b", false)];
    assert Mangle("a.b-c d") == "A_B_C_D" && Mangle("A_B_C_D") == "A_B_C_D";
    assert records[..2] == [MasterValue("a.b-c d", true), MasterValue("A_B_C_D", true)];
    assert records[..2][..1] == [MasterValue("a.b-c d", true)] && records[..2][..1][..0] == [];
    assert Members(records[..2][..1]) == map["A_B_C_D" := "a.b-c d"];
    assert Members(records[..2]) == map["A_B_C_D" := "A_B_C_D"];
  }

  /** Days before years that are known, and years of each kind. */
  lemma YearStarts()
    ensures DaysBeforeYear(1) == 0 && DaysBeforeYear(1970) == 719162 && DaysBeforeYear(2000) == 730119
    ensures IsLeap(2024) && IsLeap(2000) && !IsLeap(1900) && !IsLeap(2023)
  {
  }

  /** Two providers that answer, one that raises, and a simulated reference. */
  lemma ReferencesAreCollected()
    ensures Items(Evidence([Some([("x", 2)]), None, Some([("x", 1), ("y", 3)])], [("z", 4)]))
      == [("x", 2), ("x", 1), ("y", 3), ("z", 4)]
  {
    var p: seq<Reported> := [Some([("x", 2)]), None, Some([("x", 1), ("y", 3)])];
    assert p[..2] == [Some([("x", 2)]), None] && p[..2][..1] == [Some([("x", 2)])] && p[..2][..1][..0] == [];
    assert ProviderItems(p[..2][..1]) == [("x", 2)] && ProviderItems(p[..2]) == [("x", 2)];
    assert ProviderItems(p) == [("x", 2)] + [("x", 1), ("y", 3)];
  }

  /** Counts of one entity add up, and so do all counts. */
  lemma ReferencesAreSummed(items: seq<(string, int)>)
    requires items == [("x", 2), ("y", 3), ("x", 1)]
    ensures SumOf(items) == 6 && SumFor(items, "x") == 3
  {
    var two: seq<(string, int)> := [("x", 2), ("y", 3)];
    var one: seq<(string, int)> := [("x", 2)];
    assert items[..2] == two && two[..1] == one && one[..0] == [] && "x"[0] != "y"[0];
    assert SumOf(one) == 2 && SumFor(one, "x") == 2;
    assert SumOf(two) == 5 && SumFor(two, "x") == 2;
  }
}
