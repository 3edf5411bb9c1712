/** Converting an amount and converting it back through the inverse of the same rate. */
module CurrencyRoundTrip {
  import opened Text
  import opened Records
  import opened Rounding
  import opened Currency

  /** `k` source minor units converted at rate `r`, in reporting minor units. */
  function There(k: int, r: real, src: real, rep: real, mode: Mode): int
    requires src >= 1.0
  {
    Round(Units(Times(FromUnits(k, src), r), rep), mode)
  }

  /** `n` reporting minor units converted at the inverse rate, in source minor units. */
  function Back(n: int, r: real, src: real, rep: real, mode: Mode): int
    requires r > 0.0 && rep >= 1.0
  {
    Round(Units(Times(FromUnits(n, rep), 1.0 / r), src), mode)
  }

  /** Reporting minor units per source minor unit. */
  function Density(r: real, src: real, rep: real): (d: real)
    requires r > 0.0 && src >= 1.0 && rep >= 1.0
    ensures d > 0.0 && Times(d, src) == Times(r, rep)
  {
    PositiveProduct(r, rep);
    PositiveQuotient(r * rep, src);
    r * rep / src
  }

  lemma PositiveProduct(a: real, b: real)
    requires a > 0.0 && b > 0.0
    ensures a * b > 0.0
  {
  }

  lemma PositiveQuotient(a: real, b: real)
    requires a > 0.0 && b > 0.0
    ensures a / b > 0.0 && a / b * b == a
  {
  }

  lemma Reassociate(x: real, a: real, b: real)
    ensures Times(Times(x, a), b) == Times(x, Times(a, b)) == Times(x, Times(b, a))
  {
  }

  lemma ThereValue(k: int, r: real, src: real, rep: real)
    requires r > 0.0 && src >= 1.0 && rep >= 1.0
    ensures Units(Times(FromUnits(k, src), r), rep) == Times(k as real, Density(r, src, rep))
  {
    var x, d := FromUnits(k, src), Density(r, src, rep);
    UnitsOfWhole(k, src);
    assert Times(x, src) == k as real;
    Reassociate(x, r, rep);
    Reassociate(x, src, d);
    assert Times(src, d) == Times(d, src);
  }

  lemma BackValue(n: int, r: real, src: real, rep: real)
    requires r > 0.0 && src >= 1.0 && rep >= 1.0
    ensures Times(Units(Times(FromUnits(n, rep), 1.0 / r), src), Density(r, src, rep)) == n as real
  {
    var z, i, d := FromUnits(n, rep), 1.0 / r, Density(r, src, rep);
    UnitsOfWhole(n, rep);
    PositiveQuotient(1.0, r);
    assert Times(i, r) == 1.0 && Times(z, rep) == n as real;
    Reassociate(Times(z, i), src, d);
    assert Times(Times(Times(z, i), src), d) == Times(Times(z, i), Times(r, rep));
    Reassociate(Times(z, i), r, rep);
    Reassociate(z, i, r);
    assert Times(z, 1.0) == z;
  }

  /** A value within half of an integer rounds to it. */
  lemma RoundsTo(x: real, k: int, mode: Mode)
    requires Abs(x - k as real) < 0.5
    ensures Round(x, mode) == k
  {
    RoundIsTheRounding(x, k, mode);
  }

  lemma RoundOfWhole(k: int, mode: Mode)
    ensures Round(k as real, mode) == k
  {
    RoundsTo(k as real, k, mode);
  }

  lemma ScaledDistance(a: real, b: real, p: real)
    requires p > 0.0
    ensures Abs(Times(a, p) - Times(b, p)) == Times(Abs(a - b), p)
  {
    assert Times(a, p) - Times(b, p) == (a - b) * p;
    if a >= b { ProductSign(a - b, p); } else { ProductSign(b - a, p); }
  }

  lemma ProductSign(x: real, p: real)
    requires x >= 0.0 && p > 0.0
    ensures x * p >= 0.0
  {
  }

  /** With at least one reporting unit per source unit the way back lands where it started. */
  lemma DenseRoundTrip(k: int, r: real, src: real, rep: real, mode: Mode, mode': Mode)
    requires r > 0.0 && src >= 1.0 && rep >= 1.0 && Density(r, src, rep) >= 1.0
    ensures Back(There(k, r, src, rep, mode), r, src, rep, mode') == k
  {
    var d := Density(r, src, rep);
    var n := There(k, r, src, rep, mode);
    var q := Units(Times(FromUnits(n, rep), 1.0 / r), src);
    ThereValue(k, r, src, rep);
    BackValue(n, r, src, rep);
    RoundMeetsRule(Times(k as real, d), mode);
    ScaledDistance(q, k as real, d);
    if d == 1.0 {
      assert Times(k as real, d) == k as real && Times(q, d) == q;
      RoundOfWhole(k, mode);
      RoundOfWhole(k, mode');
    } else {
      if Abs(q - k as real) >= 0.5 { Exceeds(Abs(q - k as real), d); }
      RoundsTo(q, k, mode');
    }
  }

  lemma Exceeds(x: real, d: real)
    requires x >= 0.5 && d > 1.0
    ensures Times(x, d) > 0.5
  {
    ProductIsPositive(x, d - 1.0);
    assert x * d == x + x * (d - 1.0);
  }

  /** If every amount came back, the outward leg would be one-to-one, so it would reach at
      least `n` from `n`. */
  lemma {:induction false} InjectiveClimbs(n: nat, r: real, src: real, rep: real, mode: Mode, mode': Mode)
    requires r > 0.0 && src >= 1.0 && rep >= 1.0
    requires forall k :: Back(There(k, r, src, rep, mode), r, src, rep, mode') == k
    ensures There(n, r, src, rep, mode) >= n
  {
    var d := Density(r, src, rep);
    if n == 0 {
      ThereValue(0, r, src, rep);
      assert Times(0.0, d) == 0.0;
      RoundOfWhole(0, mode);
    } else {
      InjectiveClimbs(n - 1, r, src, rep, mode, mode');
      ThereValue(n - 1, r, src, rep);
      ThereValue(n, r, src, rep);
      TimesOrder((n - 1) as real, n as real, d);
      RoundIsMonotone(Times((n - 1) as real, d), Times(n as real, d), mode);
      assert Back(There(n - 1, r, src, rep, mode), r, src, rep, mode') == n - 1;
      assert Back(There(n, r, src, rep, mode), r, src, rep, mode') == n;
    }
  }

  lemma SplitGap(x: real, d: real)
    ensures Times(x, 1.0 - d) == x - Times(x, d)
  {
  }

  /** With fewer reporting units than source units some amount does not come back. */
  lemma SparseRoundTripFails(r: real, src: real, rep: real, mode: Mode, mode': Mode) returns (k: int)
    requires r > 0.0 && src >= 1.0 && rep >= 1.0 && Density(r, src, rep) < 1.0
    ensures Back(There(k, r, src, rep, mode), r, src, rep, mode') != k
  {
    var d := Density(r, src, rep);
    var n := BigEnough(1.0 - d);
    if forall k :: Back(There(k, r, src, rep, mode), r, src, rep, mode') == k {
      InjectiveClimbs(n, r, src, rep, mode, mode');
      ThereValue(n, r, src, rep);
      RoundMeetsRule(Times(n as real, d), mode);
      SplitGap(n as real, d);
      assert false;
    }
    k :| Back(There(k, r, src, rep, mode), r, src, rep, mode') != k;
  }

  lemma BigEnough(gap: real) returns (n: nat)
    requires gap > 0.0
    ensures Times(n as real, gap) >= 1.0
  {
    var q := 1.0 / gap;
    PositiveQuotient(1.0, gap);
    n := q.Floor + 1;
    TimesOrder(q, n as real, gap);
  }

  lemma DensityExactlyWhen(r: real, src: real, rep: real)
    requires r > 0.0 && src >= 1.0 && rep >= 1.0
    ensures Density(r, src, rep) >= 1.0 <==> Times(r, rep) >= src
  {
    var d := Density(r, src, rep);
    assert Times(1.0, src) == src;
    if d >= 1.0 {
      TimesOrder(1.0, d, src);
    } else {
      ProductIsPositive(1.0 - d, src);
      assert (1.0 - d) * src == src - Times(d, src);
    }
  }

  lemma MultiplyByInverse(c: real, r: real)
    requires r > 0.0
    ensures Units(Times(c, 1.0 / r), r) == c
  {
    PositiveQuotient(1.0, r);
    Reassociate(c, 1.0 / r, r);
    assert Times(c, 1.0) == c;
  }

  lemma InverseError(c: real, a: real, r: real, e: real)
    requires r > 0.0 && Abs(c - Times(a, r)) <= e
    ensures Abs(Times(c, 1.0 / r) - a) <= e / r
  {
    MultiplyByInverse(c, r);
    assert Units(a, r) == Times(a, r);
    ScaledError(Times(c, 1.0 / r), a, r, e);
  }

  /** The distance of the round trip of any amount. */
  lemma RoundTripDistance(a: real, r: real, src: real, rep: real, mode: Mode, mode': Mode)
    requires r > 0.0 && src >= 1.0 && rep >= 1.0
    ensures Abs(Quantize(Times(Quantize(Times(a, r), rep, mode), 1.0 / r), src, mode') - a)
      <= 0.5 / src + 0.5 / rep / r
  {
    var c := Quantize(Times(a, r), rep, mode);
    QuantizeError(Times(a, r), rep, mode);
    InverseError(c, a, r, 0.5 / rep);
    QuantizeError(Times(c, 1.0 / r), src, mode');
  }

  /** The way back finds the row of the way there, when no row states it directly. */
  lemma InverseFindsSameRow(rates: seq<RateRow>, x: string, y: string, rateType: string)
    requires FirstIndex(rates, RateQuery(x, y, rateType)).Some?
    requires FirstIndex(rates, RateQuery(y, x, rateType)).None?
    requires rates[FirstIndex(rates, RateQuery(x, y, rateType)).value].rate > 0.0
    ensures
      var r := rates[FirstIndex(rates, RateQuery(x, y, rateType)).value].rate;
      SelectRate(rates, x, y, rateType) == Ok(r) && SelectRate(rates, y, x, rateType) == Ok(1.0 / r)
  {
  }

  /** A direct positive rate from `x` to `y`, and none back, under one rate type. */
  predicate OneWayRate(x: string, y: string, context: string, types: map<string, string>, rates: seq<RateRow>) {
    && Normalize(x) == x == Upper(x) && Normalize(y) == y == Upper(y) && x != y
    && var t := RateType(Some(Policy(y, types)), context);
       && FirstIndex(rates, RateQuery(x, y, t)).Some? && FirstIndex(rates, RateQuery(y, x, t)).None?
       && rates[FirstIndex(rates, RateQuery(x, y, t)).value].rate > 0.0
  }

  function RateOf(x: string, y: string, context: string, types: map<string, string>, rates: seq<RateRow>): (r: real)
    requires OneWayRate(x, y, context, types, rates)
    ensures r > 0.0
  {
    rates[FirstIndex(rates, RateQuery(x, y, RateType(Some(Policy(y, types)), context))).value].rate
  }

  /** An amount converted from `x` to `y` and back, each time by `convert_cost`. */
  function ThereAndBack(a: real, x: string, y: string, context: string, types: map<string, string>, rates: seq<RateRow>,
                        masterX: Option<CurrencyMaster>, masterY: Option<CurrencyMaster>)
    : Result<Conversion, RateError>
  {
    match Convert(a, x, context, Some(Policy(y, types)), rates, masterY)
    case Err(e) => Err(e)
    case Ok(there) => Convert(there.converted, y, context, Some(Policy(x, types)), rates, masterX)
  }

  lemma ThereAndBackIs(a: real, x: string, y: string, context: string, types: map<string, string>, rates: seq<RateRow>,
                       masterX: Option<CurrencyMaster>, masterY: Option<CurrencyMaster>)
    requires OneWayRate(x, y, context, types, rates)
    ensures
      var r := RateOf(x, y, context, types, rates);
      var there := Quantize(Times(a, r), ScaleOf(masterY), ModeOf(masterY));
      ThereAndBack(a, x, y, context, types, rates, masterX, masterY) ==
        Ok(Conversion(Quantize(Times(there, 1.0 / r), ScaleOf(masterX), ModeOf(masterX)), 1.0 / r,
                      RateType(Some(Policy(x, types)), context)))
  {
    var t := RateType(Some(Policy(y, types)), context);
    assert t == RateType(Some(Policy(x, types)), context);
    InverseFindsSameRow(rates, x, y, t);
  }

  /** Main result, on `convert_cost` itself: converting from currency `x` to `y` at a direct
      positive rate and back, with the same rates and rate type, returns to within half a
      source unit plus half a reporting unit's worth at that rate. */
  lemma ConvertThereAndBack(a: real, x: string, y: string, context: string, types: map<string, string>,
                            rates: seq<RateRow>, masterX: Option<CurrencyMaster>, masterY: Option<CurrencyMaster>)
    requires OneWayRate(x, y, context, types, rates)
    ensures
      var r := RateOf(x, y, context, types, rates);
      var back := ThereAndBack(a, x, y, context, types, rates, masterX, masterY);
      back.Ok? && Abs(back.value.converted - a) <= 0.5 / ScaleOf(masterX) + 0.5 / ScaleOf(masterY) / r
  {
    ThereAndBackIs(a, x, y, context, types, rates, masterX, masterY);
    RoundTripDistance(a, RateOf(x, y, context, types, rates), ScaleOf(masterX), ScaleOf(masterY), ModeOf(masterY),
                      ModeOf(masterX));
  }

  /** `k` source minor units come back as they were. */
  predicate ComesBack(k: int, x: string, y: string, context: string, types: map<string, string>, rates: seq<RateRow>,
                      masterX: Option<CurrencyMaster>, masterY: Option<CurrencyMaster>)
  {
    var a := FromUnits(k, ScaleOf(masterX));
    var back := ThereAndBack(a, x, y, context, types, rates, masterX, masterY);
    back.Ok? && back.value.converted == a
  }

  lemma FromUnitsIsInjective(j: int, k: int, scale: real)
    requires scale >= 1.0
    ensures FromUnits(j, scale) == FromUnits(k, scale) <==> j == k
  {
    UnitsOfWhole(j, scale);
    UnitsOfWhole(k, scale);
  }

  lemma ComesBackInUnits(k: int, x: string, y: string, context: string, types: map<string, string>, rates: seq<RateRow>,
                         masterX: Option<CurrencyMaster>, masterY: Option<CurrencyMaster>)
    requires OneWayRate(x, y, context, types, rates)
    ensures
      var r, src, rep := RateOf(x, y, context, types, rates), ScaleOf(masterX), ScaleOf(masterY);
      ComesBack(k, x, y, context, types, rates, masterX, masterY)
      <==> Back(There(k, r, src, rep, ModeOf(masterY)), r, src, rep, ModeOf(masterX)) == k
  {
    var r, src, rep := RateOf(x, y, context, types, rates), ScaleOf(masterX), ScaleOf(masterY);
    ThereAndBackIs(FromUnits(k, src), x, y, context, types, rates, masterX, masterY);
    FromUnitsIsInjective(Back(There(k, r, src, rep, ModeOf(masterY)), r, src, rep, ModeOf(masterX)), k, src);
  }

  /** Main result: every whole number of source units survives the round trip if and only if a
      reporting unit is worth no more than a source unit. */
  lemma RoundTripIsExactExactlyWhen(x: string, y: string, context: string, types: map<string, string>,
                                    rates: seq<RateRow>,
                                    masterX: Option<CurrencyMaster>, masterY: Option<CurrencyMaster>)
    requires OneWayRate(x, y, context, types, rates)
    ensures (forall k :: ComesBack(k, x, y, context, types, rates, masterX, masterY))
      <==> Times(RateOf(x, y, context, types, rates), ScaleOf(masterY)) >= ScaleOf(masterX)
  {
    var r, src, rep := RateOf(x, y, context, types, rates), ScaleOf(masterX), ScaleOf(masterY);
    DensityExactlyWhen(r, src, rep);
    if Density(r, src, rep) >= 1.0 {
      forall k ensures ComesBack(k, x, y, context, types, rates, masterX, masterY) {
        DenseRoundTrip(k, r, src, rep, ModeOf(masterY), ModeOf(masterX));
        ComesBackInUnits(k, x, y, context, types, rates, masterX, masterY);
      }
    } else {
      var k := SparseRoundTripFails(r, src, rep, ModeOf(masterY), ModeOf(masterX));
      ComesBackInUnits(k, x, y, context, types, rates, masterX, masterY);
    }
  }

  lemma HalfCentIsLost()
    ensures Back(There(1, 0.5, 100.0, 100.0, HalfEven), 0.5, 100.0, 100.0, HalfEven) == 0
  {
    var a := FromUnits(1, 100.0);
    assert a == 0.01;
    assert Times(a, 0.5) == 0.005;
    assert Units(Times(a, 0.5), 100.0) == 0.5;
    assert Round(0.5, HalfEven) == 0;
    assert FromUnits(0, 100.0) == 0.0;
    assert Units(Times(0.0, 1.0 / 0.5), 100.0) == 0.0;
    RoundOfWhole(0, HalfEven);
  }

  lemma EuroToDollar(context: string, types: map<string, string>, rates: seq<RateRow>)
    requires rates == [RateRow("EUR", "USD", RateType(Some(Policy("USD", types)), context), 0.5)]
    ensures OneWayRate("EUR", "USD", context, types, rates) && RateOf("EUR", "USD", context, types, rates) == 0.5
  {
    var t := RateType(Some(Policy("USD", types)), context);
    assert Upper("EUR") == "EUR" && Upper("USD") == "USD" && Strip("EUR") == "EUR" && Strip("USD") == "USD";
    assert "EUR"[0] != "USD"[0];
    assert IsRate(rates[0], "EUR", "USD", t) && !IsRate(rates[0], "USD", "EUR", t);
  }

  /** An amount that is lost: at a rate of one half, one cent converts to half a cent, which
      rounds to zero. */
  lemma OneUnitIsLost(context: string, types: map<string, string>)
    ensures
      var rates := [RateRow("EUR", "USD", RateType(Some(Policy("USD", types)), context), 0.5)];
      OneWayRate("EUR", "USD", context, types, rates) && !ComesBack(1, "EUR", "USD", context, types, rates, None, None)
  {
    var rates := [RateRow("EUR", "USD", RateType(Some(Policy("USD", types)), context), 0.5)];
    EuroToDollar(context, types, rates);
    ScaleOfTwo();
    HalfCentIsLost();
    ComesBackInUnits(1, "EUR", "USD", context, types, rates, None, None);
  }
}
