/** `CurrencyConverterEngine.convert_cost`: rate selection, conversion and rounding to minor
    units, with amounts and rates as exact rationals. */
module Currency {
  import opened Text
  import opened Records
  import opened Rounding

  /** The attributes of an exchange-rate record; absent texts are empty. */
  datatype RateRow = RateRow(fromCurrency: string, toCurrency: string, rateType: string, rate: real)

  datatype Policy = Policy(reportingCurrency: string, presentation: map<string, string>)

  datatype CurrencyMaster = CurrencyMaster(minorUnits: nat, roundingRule: string)

  datatype Conversion = Conversion(converted: real, rateUsed: real, rateType: string)

  datatype RateError = RateNotFound | ZeroRate

  /** Minor units per currency unit. */
  function Scale(minorUnits: nat): (p: real)
    ensures p >= 1.0
  {
    if minorUnits == 0 then 1.0 else 10.0 * Scale(minorUnits - 1)
  }

  function ScaleOf(master: Option<CurrencyMaster>): (p: real)
    ensures p >= 1.0
  {
    Scale(if master.Some? then master.value.minorUnits else 2)
  }

  function ModeOf(master: Option<CurrencyMaster>): Mode {
    if master.None? || master.value.roundingRule == "HALF_EVEN" then HalfEven else HalfUp
  }

  /** The exact value of an amount at a rate. */
  function Times(amount: real, rate: real): real {
    amount * rate
  }

  /** An amount in minor units. */
  function Units(x: real, scale: real): real {
    x * scale
  }

  /** A whole number of minor units as an amount. */
  function FromUnits(k: int, scale: real): real
    requires scale > 0.0
  {
    k as real / scale
  }

  /** `Decimal.quantize` to a number of minor units. */
  function Quantize(x: real, scale: real, mode: Mode): real
    requires scale >= 1.0
  {
    FromUnits(Round(Units(x, scale), mode), scale)
  }

  predicate IsRate(r: RateRow, from_: string, to: string, rateType: string) {
    Upper(r.fromCurrency) == from_ && Upper(r.toCurrency) == to && Upper(r.rateType) == Upper(rateType)
  }

  function RateQuery(from_: string, to: string, rateType: string): RateRow -> bool {
    r => IsRate(r, from_, to, rateType)
  }

  function ReportingCurrency(policy: Option<Policy>): string {
    if policy.Some? then policy.value.reportingCurrency else "USD"
  }

  function RateType(policy: Option<Policy>, context: string): string {
    if policy.Some? && context in policy.value.presentation then policy.value.presentation[context]
    else "MONTHLY_AVERAGE"
  }

  /** The rate used: the first direct row, else the reciprocal of the first inverse row. */
  function SelectRate(rates: seq<RateRow>, from_: string, reporting: string, rateType: string)
    : Result<real, RateError>
  {
    match FirstIndex(rates, RateQuery(from_, reporting, rateType))
    case Some(i) => Ok(rates[i].rate)
    case None =>
      match FirstIndex(rates, RateQuery(reporting, from_, rateType))
      case None => Err(RateNotFound)
      case Some(i) => if rates[i].rate == 0.0 then Err(ZeroRate) else Ok(1.0 / rates[i].rate)
  }

  function Convert(amount: real, fromCurrency: string, context: string, policy: Option<Policy>, rates: seq<RateRow>,
                   master: Option<CurrencyMaster>): Result<Conversion, RateError>
  {
    var reporting := ReportingCurrency(policy);
    if Normalize(fromCurrency) == Upper(reporting) then Ok(Conversion(amount, 1.0, "IDENTITY"))
    else
      match SelectRate(rates, Normalize(fromCurrency), reporting, RateType(policy, context))
      case Err(e) => Err(e)
      case Ok(rate) => Ok(Conversion(Quantize(Times(amount, rate), ScaleOf(master), ModeOf(master)), rate,
                                     RateType(policy, context)))
  }

  /** A loop over the rate records with early exit. */
  method FindRate(rates: seq<RateRow>, from_: string, to: string, rateType: string) returns (found: Option<nat>)
    ensures found == FirstIndex(rates, RateQuery(from_, to, rateType))
  {
    for i := 0 to |rates|
      invariant forall j :: 0 <= j < i ==> !IsRate(rates[j], from_, to, rateType)
    {
      if IsRate(rates[i], from_, to, rateType) { return Some(i); }
    }
    return None;
  }

  /** `convert_cost` */
  method ConvertCost(amount: real, fromCurrency: string, context: string, policy: Option<Policy>, rates: seq<RateRow>,
                     master: Option<CurrencyMaster>) returns (r: Result<Conversion, RateError>)
    ensures r == Convert(amount, fromCurrency, context, policy, rates, master)
  {
    var from_ := Normalize(fromCurrency);
    var reporting := ReportingCurrency(policy);
    var rateType := RateType(policy, context);
    if from_ == Upper(reporting) { return Ok(Conversion(amount, 1.0, "IDENTITY")); }
    var inverse := false;
    var matched := FindRate(rates, from_, reporting, rateType);
    if matched.None? {
      matched := FindRate(rates, reporting, from_, rateType);
      inverse := true;
    }
    if matched.None? { return Err(RateNotFound); }
    var raw := rates[matched.value].rate;
    if inverse && raw == 0.0 { return Err(ZeroRate); }
    var rate := if inverse then 1.0 / raw else raw;
    assert SelectRate(rates, from_, reporting, rateType) == Ok(rate);
    return Ok(Conversion(Quantize(Times(amount, rate), ScaleOf(master), ModeOf(master)), rate, rateType));
  }

  lemma UnitsOfWhole(k: int, scale: real)
    requires scale > 0.0
    ensures Units(FromUnits(k, scale), scale) == k as real
  {
  }

  lemma UnitsOfQuotient(e: real, scale: real)
    requires scale > 0.0
    ensures Units(e / scale, scale) == e
  {
  }

  lemma UnitsOfDifference(a: real, b: real, scale: real)
    ensures Units(a - b, scale) == Units(a, scale) - Units(b, scale)
  {
  }

  lemma ProductIsPositive(x: real, p: real)
    requires x > 0.0 && p > 0.0
    ensures x * p > 0.0
  {
  }

  lemma FewerUnitsIsLess(x: real, y: real, scale: real)
    requires scale > 0.0 && Units(x, scale) <= Units(y, scale)
    ensures x <= y
  {
    if x > y {
      ProductIsPositive(x - y, scale);
      UnitsOfDifference(x, y, scale);
    }
  }

  lemma ScaledError(a: real, b: real, scale: real, e: real)
    requires scale > 0.0 && Abs(Units(a, scale) - Units(b, scale)) <= e
    ensures Abs(a - b) <= e / scale
  {
    UnitsOfQuotient(e, scale);
    UnitsOfDifference(a, b, scale);
    UnitsOfDifference(b, a, scale);
    FewerUnitsIsLess(a - b, e / scale, scale);
    FewerUnitsIsLess(b - a, e / scale, scale);
  }

  lemma TimesOrder(a: real, b: real, rate: real)
    requires a <= b && rate >= 0.0
    ensures Times(a, rate) <= Times(b, rate)
  {
  }

  lemma FromUnitsOrder(j: int, k: int, scale: real)
    requires j <= k && scale > 0.0
    ensures FromUnits(j, scale) <= FromUnits(k, scale)
  {
  }

  lemma QuantizeError(x: real, scale: real, mode: Mode)
    requires scale >= 1.0
    ensures Units(Quantize(x, scale, mode), scale) == Round(Units(x, scale), mode) as real
    ensures Abs(Quantize(x, scale, mode) - x) <= 0.5 / scale
  {
    var k := Round(Units(x, scale), mode);
    RoundMeetsRule(Units(x, scale), mode);
    UnitsOfWhole(k, scale);
    ScaledError(FromUnits(k, scale), x, scale, 0.5);
  }

  lemma QuantizeIsMonotone(x: real, y: real, scale: real, mode: Mode)
    requires x <= y && scale >= 1.0
    ensures Quantize(x, scale, mode) <= Quantize(y, scale, mode)
  {
    TimesOrder(x, y, scale);
    RoundIsMonotone(Units(x, scale), Units(y, scale), mode);
    FromUnitsOrder(Round(Units(x, scale), mode), Round(Units(y, scale), mode), scale);
  }

  lemma NegativeUnits(x: real, k: int, scale: real)
    requires scale > 0.0
    ensures Units(-x, scale) == -Units(x, scale) && FromUnits(-k, scale) == -FromUnits(k, scale)
  {
  }

  lemma QuantizeIsOdd(x: real, scale: real, mode: Mode)
    requires scale >= 1.0
    ensures Quantize(-x, scale, mode) == -Quantize(x, scale, mode)
  {
    RoundIsOdd(Units(x, scale), mode);
    NegativeUnits(x, Round(Units(x, scale), mode), scale);
  }

  lemma ScaleOfTwo()
    ensures Scale(2) == 100.0
  {
    assert Scale(0) == 1.0;
    assert Scale(1) == 10.0 * Scale(0);
    assert Scale(2) == 10.0 * Scale(1);
  }

  /** Dividing by ten `n` times leaves one. */
  predicate IsTenToThe(unit: real, n: nat)
    decreases n
  {
    if n == 0 then unit == 1.0 else IsTenToThe(unit / 10.0, n - 1)
  }

  lemma {:induction false} ScaleIsTenToThe(unit: real, n: nat)
    ensures IsTenToThe(unit, n) <==> unit == Scale(n)
    decreases n
  {
    if n > 0 { ScaleIsTenToThe(unit / 10.0, n - 1); }
  }

  predicate QuotedBy(row: RateRow, from_: string, to: string, rateType: string) {
    Upper(row.fromCurrency) == from_ && Upper(row.toCurrency) == to && Upper(row.rateType) == Upper(rateType)
  }

  /** Row `i` is the first that states the rate from one currency to the other. */
  ghost predicate FirstQuote(rates: seq<RateRow>, i: int, from_: string, to: string, rateType: string) {
    && 0 <= i < |rates| && QuotedBy(rates[i], from_, to, rateType)
    && forall j :: 0 <= j < i ==> !QuotedBy(rates[j], from_, to, rateType)
  }

  /** The rate is that of the first direct row, or without any the inverse of that of the first
      inverse row. */
  ghost predicate IsQuoted(rate: real, rates: seq<RateRow>, from_: string, to: string, rateType: string) {
    if exists i :: FirstQuote(rates, i, from_, to, rateType) then
      exists i :: FirstQuote(rates, i, from_, to, rateType) && rate == rates[i].rate
    else
      exists i :: FirstQuote(rates, i, to, from_, rateType) && rate * rates[i].rate == 1.0
  }

  lemma InverseOf(x: real)
    requires x != 0.0
    ensures 1.0 / x * x == 1.0
  {
  }

  lemma SelectedIsQuoted(rates: seq<RateRow>, from_: string, to: string, rateType: string)
    requires SelectRate(rates, from_, to, rateType).Ok?
    ensures IsQuoted(SelectRate(rates, from_, to, rateType).value, rates, from_, to, rateType)
  {
    forall row: RateRow, a: string, b: string ensures QuotedBy(row, a, b, rateType) <==> IsRate(row, a, b, rateType) {
    }
    var direct := FirstIndex(rates, RateQuery(from_, to, rateType));
    var inverse := FirstIndex(rates, RateQuery(to, from_, rateType));
    if direct.Some? {
      assert FirstQuote(rates, direct.value, from_, to, rateType);
    } else {
      assert FirstQuote(rates, inverse.value, to, from_, rateType);
      InverseOf(rates[inverse.value].rate);
    }
  }

  /** The minor units that a master prescribes, and its rule for ties. */
  predicate Prescribes(master: Option<CurrencyMaster>, n: nat, tiesToEven: bool) {
    match master
    case None => n == 2 && tiesToEven
    case Some(m) => n == m.minorUnits && (tiesToEven <==> m.roundingRule == "HALF_EVEN")
  }

  /** The reporting currency and the rate type that a policy prescribes for a context. */
  predicate Presents(policy: Option<Policy>, context: string, to: string, rateType: string) {
    match policy
    case None => to == "USD" && rateType == "MONTHLY_AVERAGE"
    case Some(p) =>
      to == p.reportingCurrency
      && rateType == if context in p.presentation then p.presentation[context] else "MONTHLY_AVERAGE"
  }

  /** Main result: how a conversion between two different currencies is rounded. With `n` the minor
      units of the reporting currency's master, or two without a master, and `unit` ten to the `n`,
      the result is a whole number `k` of minor units, the one nearest to amount times rate; a tie
      goes to the even one, or away from zero if the master has another rule than HALF_EVEN. */
  lemma ConversionIsCorrectlyRounded(amount: real, fromCurrency: string, context: string, policy: Option<Policy>,
                                     rates: seq<RateRow>, master: Option<CurrencyMaster>, n: nat, tiesToEven: bool,
                                     unit: real)
    returns (k: int)
    requires Convert(amount, fromCurrency, context, policy, rates, master).Ok?
    requires Normalize(fromCurrency) != Upper(ReportingCurrency(policy))
    requires Prescribes(master, n, tiesToEven) && IsTenToThe(unit, n)
    ensures
      var c := Convert(amount, fromCurrency, context, policy, rates, master).value;
      && Units(c.converted, unit) == k as real
      && IsRounding(Units(Times(amount, c.rateUsed), unit), k, if tiesToEven then HalfEven else HalfUp)
  {
    var c := Convert(amount, fromCurrency, context, policy, rates, master).value;
    var exact := Times(amount, c.rateUsed);
    k := Round(Units(exact, ScaleOf(master)), ModeOf(master));
    ScaleIsTenToThe(unit, n);
    RoundMeetsRule(Units(exact, ScaleOf(master)), ModeOf(master));
    QuantizeError(exact, ScaleOf(master), ModeOf(master));
  }

  /** Main result: which rate it uses. That is the rate of the first direct row of the rate type that
      the policy presents for the context, or without any the inverse of that of the first inverse
      row. */
  lemma ConversionUsesFirstQuote(amount: real, fromCurrency: string, context: string, policy: Option<Policy>,
                                 rates: seq<RateRow>, master: Option<CurrencyMaster>, to: string, rateType: string)
    requires Convert(amount, fromCurrency, context, policy, rates, master).Ok?
    requires Presents(policy, context, to, rateType) && Upper(Strip(fromCurrency)) != Upper(to)
    ensures
      var c := Convert(amount, fromCurrency, context, policy, rates, master).value;
      c.rateType == rateType && IsQuoted(c.rateUsed, rates, Upper(Strip(fromCurrency)), to, rateType)
  {
    var from_ := Upper(Strip(fromCurrency));
    var rate := ConvertSelects(amount, fromCurrency, context, policy, rates, master, from_, to, rateType);
    SelectedIsQuoted(rates, from_, to, rateType);
  }

  lemma ConvertSelects(amount: real, fromCurrency: string, context: string, policy: Option<Policy>, rates: seq<RateRow>,
                       master: Option<CurrencyMaster>, from_: string, to: string, rateType: string) returns (rate: real)
    requires Convert(amount, fromCurrency, context, policy, rates, master).Ok?
    requires from_ == Upper(Strip(fromCurrency)) && from_ != Upper(to) && Presents(policy, context, to, rateType)
    ensures SelectRate(rates, from_, to, rateType) == Ok(rate)
    ensures Convert(amount, fromCurrency, context, policy, rates, master)
      == Ok(Conversion(Quantize(Times(amount, rate), ScaleOf(master), ModeOf(master)), rate, rateType))
  {
    rate := SelectRate(rates, from_, to, rateType).value;
  }

  /** The error of a conversion is at most half a minor unit. */
  lemma ConversionError(amount: real, fromCurrency: string, context: string, policy: Option<Policy>,
                        rates: seq<RateRow>, master: Option<CurrencyMaster>)
    requires Convert(amount, fromCurrency, context, policy, rates, master).Ok?
    requires Normalize(fromCurrency) != Upper(ReportingCurrency(policy))
    ensures
      var c := Convert(amount, fromCurrency, context, policy, rates, master).value;
      Abs(c.converted - Times(amount, c.rateUsed)) <= 0.5 / ScaleOf(master)
  {
    var c := Convert(amount, fromCurrency, context, policy, rates, master).value;
    QuantizeError(Times(amount, c.rateUsed), ScaleOf(master), ModeOf(master));
  }

  /** A conversion into the same currency changes nothing. */
  lemma SameCurrencyIsIdentity(amount: real, fromCurrency: string, context: string, policy: Option<Policy>,
                               rates: seq<RateRow>, master: Option<CurrencyMaster>)
    requires Upper(Strip(fromCurrency)) == Upper(if policy.Some? then policy.value.reportingCurrency else "USD")
    ensures Convert(amount, fromCurrency, context, policy, rates, master) == Ok(Conversion(amount, 1.0, "IDENTITY"))
  {
  }

  /** Conversion is monotone in the amount for a positive rate. */
  lemma ConversionIsMonotone(a: real, b: real, fromCurrency: string, context: string, policy: Option<Policy>,
                             rates: seq<RateRow>, master: Option<CurrencyMaster>)
    requires a <= b && Convert(a, fromCurrency, context, policy, rates, master).Ok?
    requires Convert(a, fromCurrency, context, policy, rates, master).value.rateUsed > 0.0
    ensures Convert(b, fromCurrency, context, policy, rates, master).Ok?
    ensures Convert(a, fromCurrency, context, policy, rates, master).value.converted
      <= Convert(b, fromCurrency, context, policy, rates, master).value.converted
  {
    var rate := Convert(a, fromCurrency, context, policy, rates, master).value.rateUsed;
    TimesOrder(a, b, rate);
    QuantizeIsMonotone(Times(a, rate), Times(b, rate), ScaleOf(master), ModeOf(master));
  }

  lemma TimesNegative(a: real, rate: real)
    ensures Times(-a, rate) == -Times(a, rate)
  {
  }

  /** Conversion commutes with negation: credits convert like costs. */
  lemma ConversionIsOdd(a: real, fromCurrency: string, context: string, policy: Option<Policy>,
                        rates: seq<RateRow>, master: Option<CurrencyMaster>)
    requires Convert(a, fromCurrency, context, policy, rates, master).Ok?
    ensures Convert(-a, fromCurrency, context, policy, rates, master).Ok?
    ensures Convert(-a, fromCurrency, context, policy, rates, master).value.converted
      == -Convert(a, fromCurrency, context, policy, rates, master).value.converted
  {
    var rate := Convert(a, fromCurrency, context, policy, rates, master).value.rateUsed;
    TimesNegative(a, rate);
    QuantizeIsOdd(Times(a, rate), ScaleOf(master), ModeOf(master));
  }

  function Sum(xs: seq<real>): real {
    if xs == [] then 0.0 else Sum(xs[..|xs| - 1]) + xs[|xs| - 1]
  }

  /** The sum of the individually converted amounts. */
  function SumOfConverted(xs: seq<real>, rate: real, scale: real, mode: Mode): real
    requires scale >= 1.0
  {
    if xs == [] then 0.0
    else SumOfConverted(xs[..|xs| - 1], rate, scale, mode) + Quantize(Times(xs[|xs| - 1], rate), scale, mode)
  }

  lemma TimesSum(a: real, b: real, rate: real)
    ensures Times(a + b, rate) == Times(a, rate) + Times(b, rate)
  {
  }

  /** `n` half minor units. */
  function Halves(n: nat, scale: real): real
    requires scale >= 1.0
  {
    n as real * (0.5 / scale)
  }

  lemma OneMoreHalf(n: nat, scale: real)
    requires scale >= 1.0
    ensures Halves(0, scale) == 0.0 && Halves(n + 1, scale) == Halves(n, scale) + 0.5 / scale
  {
  }

  lemma {:induction false} DriftOfEach(xs: seq<real>, rate: real, scale: real, mode: Mode)
    requires scale >= 1.0
    ensures Abs(SumOfConverted(xs, rate, scale, mode) - Times(Sum(xs), rate)) <= Halves(|xs|, scale)
  {
    if xs != [] {
      var front, last := xs[..|xs| - 1], xs[|xs| - 1];
      DriftOfEach(front, rate, scale, mode);
      QuantizeError(Times(last, rate), scale, mode);
      TimesSum(Sum(front), last, rate);
      OneMoreHalf(|front|, scale);
    } else {
      OneMoreHalf(0, scale);
    }
  }

  lemma DriftIsBounded(xs: seq<real>, rate: real, scale: real, mode: Mode)
    requires scale >= 1.0
    ensures Abs(SumOfConverted(xs, rate, scale, mode) - Quantize(Times(Sum(xs), rate), scale, mode))
      <= Halves(|xs| + 1, scale)
  {
    DriftOfEach(xs, rate, scale, mode);
    QuantizeError(Times(Sum(xs), rate), scale, mode);
    OneMoreHalf(|xs|, scale);
  }

  /** The amounts converted one by one and added up. */
  function SumOfConversions(xs: seq<real>, fromCurrency: string, context: string, policy: Option<Policy>,
                            rates: seq<RateRow>, master: Option<CurrencyMaster>): real
  {
    if xs == [] then 0.0
    else
      var last := Convert(xs[|xs| - 1], fromCurrency, context, policy, rates, master);
      SumOfConversions(xs[..|xs| - 1], fromCurrency, context, policy, rates, master)
      + if last.Ok? then last.value.converted else 0.0
  }

  lemma {:induction false} SumOfConversionsIs(xs: seq<real>, a: real, fromCurrency: string, context: string,
                                              policy: Option<Policy>,
                                              rates: seq<RateRow>, master: Option<CurrencyMaster>)
    requires Convert(a, fromCurrency, context, policy, rates, master).Ok?
    ensures SumOfConversions(xs, fromCurrency, context, policy, rates, master)
      == if Normalize(fromCurrency) == Upper(ReportingCurrency(policy)) then Sum(xs)
         else SumOfConverted(xs, Convert(a, fromCurrency, context, policy, rates, master).value.rateUsed,
                             ScaleOf(master), ModeOf(master))
  {
    if xs != [] {
      SumOfConversionsIs(xs[..|xs| - 1], a, fromCurrency, context, policy, rates, master);
    }
  }

  /** Main result: converting n amounts one by one and adding up drifts from converting their
      sum by at most n + 1 half minor units. */
  lemma ConversionDriftIsBounded(xs: seq<real>, fromCurrency: string, context: string, policy: Option<Policy>,
                                 rates: seq<RateRow>, master: Option<CurrencyMaster>)
    requires Convert(Sum(xs), fromCurrency, context, policy, rates, master).Ok?
    ensures Abs(SumOfConversions(xs, fromCurrency, context, policy, rates, master)
                - Convert(Sum(xs), fromCurrency, context, policy, rates, master).value.converted)
      <= Halves(|xs| + 1, ScaleOf(master))
  {
    SumOfConversionsIs(xs, Sum(xs), fromCurrency, context, policy, rates, master);
    if Normalize(fromCurrency) == Upper(ReportingCurrency(policy)) {
      HalvesArePositive(|xs| + 1, ScaleOf(master));
    } else {
      DriftIsBounded(xs, Convert(Sum(xs), fromCurrency, context, policy, rates, master).value.rateUsed,
                     ScaleOf(master), ModeOf(master));
    }
  }

  lemma HalvesArePositive(n: nat, scale: real)
    requires scale >= 1.0
    ensures Halves(n, scale) >= 0.0
  {
    TimesOrder(0.0, n as real, 0.5 / scale);
  }

  /** Some row states the rate from the one currency to the other. */
  predicate HasDirectRate(rates: seq<RateRow>, from_: string, reporting: string, rateType: string) {
    exists i :: 0 <= i < |rates| && IsRate(rates[i], from_, reporting, rateType)
  }

  /** The first row of the opposite direction has the given rate. */
  predicate FirstInverseRate(rates: seq<RateRow>, from_: string, reporting: string, rateType: string, rate: real) {
    exists i :: 0 <= i < |rates| && IsRate(rates[i], reporting, from_, rateType) && rates[i].rate == rate
      && forall j :: 0 <= j < i ==> !IsRate(rates[j], reporting, from_, rateType)
  }

  /** Rows are compared in upper case with the policy's own spelling, so a reporting currency
      in any other spelling matches no row. */
  lemma MatchedReportingIsUpper(r: RateRow, other: string, reporting: string, rateType: string)
    requires IsRate(r, other, reporting, rateType) || IsRate(r, reporting, other, rateType)
    ensures Upper(reporting) == reporting
  {
    UpperIsIdempotent(r.toCurrency);
    UpperIsIdempotent(r.fromCurrency);
  }

  /** Main result: exactly when a conversion succeeds, and with which failure otherwise. */
  lemma ConvertsExactlyWhen(amount: real, fromCurrency: string, context: string, policy: Option<Policy>,
                            rates: seq<RateRow>, master: Option<CurrencyMaster>)
    ensures
      var r := Convert(amount, fromCurrency, context, policy, rates, master);
      var from_, reporting, t := Normalize(fromCurrency), ReportingCurrency(policy), RateType(policy, context);
      var direct := HasDirectRate(rates, from_, reporting, t);
      && (r.Ok? <==>
            from_ == Upper(reporting)
            || (Upper(reporting) == reporting
                && (direct || exists rate :: FirstInverseRate(rates, from_, reporting, t, rate) && rate != 0.0)))
      && (r == Err(ZeroRate)
          <==> from_ != Upper(reporting) && !direct && FirstInverseRate(rates, from_, reporting, t, 0.0))
  {
    var from_, reporting, t := Normalize(fromCurrency), ReportingCurrency(policy), RateType(policy, context);
    forall i | 0 <= i < |rates| && (IsRate(rates[i], from_, reporting, t) || IsRate(rates[i], reporting, from_, t))
      ensures Upper(reporting) == reporting
    {
      MatchedReportingIsUpper(rates[i], from_, reporting, t);
    }
    var direct, inverse := FirstIndex(rates, RateQuery(from_, reporting, t)),
      FirstIndex(rates, RateQuery(reporting, from_, t));
    assert direct.Some? <==> HasDirectRate(rates, from_, reporting, t);
    forall rate: real
      ensures FirstInverseRate(rates, from_, reporting, t, rate) <==> inverse.Some? && rates[inverse.value].rate == rate
    {
      OneFirstInverse(rates, from_, reporting, t, rate);
    }
    if inverse.Some? { assert FirstInverseRate(rates, from_, reporting, t, rates[inverse.value].rate); }
  }

  lemma OneFirstInverse(rates: seq<RateRow>, from_: string, reporting: string, t: string, rate: real)
    ensures
      var inverse := FirstIndex(rates, RateQuery(reporting, from_, t));
      FirstInverseRate(rates, from_, reporting, t, rate) <==> inverse.Some? && rates[inverse.value].rate == rate
  {
    var inverse := FirstIndex(rates, RateQuery(reporting, from_, t));
    if inverse.Some? { assert IsRate(rates[inverse.value], reporting, from_, t); }
  }

  /** An input that fails although the table has the rate: the policy says "usd". */
  lemma LowerCaseReportingFails(amount: real, context: string, types: map<string, string>,
                                master: Option<CurrencyMaster>)
    ensures
      var policy := Some(Policy("usd", types));
      var rates := [RateRow("EUR", "USD", RateType(policy, context), 2.0)];
      Convert(amount, "EUR", context, policy, rates, master) == Err(RateNotFound)
  {
    var policy := Some(Policy("usd", types));
    assert Normalize("EUR")[0] == 'E';
    assert Upper("usd")[0] == 'U';
    ConvertsExactlyWhen(amount, "EUR", context, policy, [RateRow("EUR", "USD", RateType(policy, context), 2.0)],
                        master);
  }
}
