/** Rounding to an integer number of minor units: roundTiesToEven and roundTiesToAway of
    section 4.3.1 of IEEE 754-2008. Amounts are exact rationals. */
module Rounding {
  datatype Mode = HalfEven | HalfUp

  function Abs(x: real): real {
    if x < 0.0 then -x else x
  }

  function RoundHalfEven(x: real): int {
    var f := x.Floor;
    var rest := x - f as real;
    if rest < 0.5 then f
    else if rest > 0.5 then f + 1
    else if f % 2 == 0 then f else f + 1
  }

  /** Half-up in the decimal sense: ties go away from zero. */
  function RoundHalfUp(x: real): int {
    if x >= 0.0 then (x + 0.5).Floor else -(-x + 0.5).Floor
  }

  function Round(x: real, mode: Mode): int {
    if mode.HalfEven? then RoundHalfEven(x) else RoundHalfUp(x)
  }

  /** The rule itself: a nearest integer, and of two equally near ones the even one, or the one
      farther from zero. */
  predicate IsRounding(x: real, k: int, mode: Mode) {
    && Abs(k as real - x) <= 0.5
    && (Abs(k as real - x) == 0.5 ==> if mode.HalfEven? then k % 2 == 0 else Abs(k as real) > Abs(x))
  }

  /** Main result: rounding yields the one integer that the rule allows. */
  lemma RoundIsTheRounding(x: real, k: int, mode: Mode)
    ensures IsRounding(x, k, mode) <==> k == Round(x, mode)
  {
    RoundMeetsRule(x, mode);
    if IsRounding(x, k, mode) {
      RuleIsUnique(x, k, Round(x, mode), mode);
    }
  }

  lemma RoundMeetsRule(x: real, mode: Mode)
    ensures IsRounding(x, Round(x, mode), mode)
  {
  }

  lemma RuleIsUnique(x: real, j: int, k: int, mode: Mode)
    requires IsRounding(x, j, mode) && IsRounding(x, k, mode)
    ensures j == k
  {
    assert Abs(j as real - k as real) <= 1.0;
    assert -1 <= j - k <= 1;
  }

  /** Rounding keeps order. */
  lemma RoundIsMonotone(x: real, y: real, mode: Mode)
    requires x <= y
    ensures Round(x, mode) <= Round(y, mode)
  {
    RoundMeetsRule(x, mode);
    RoundMeetsRule(y, mode);
  }

  /** Rounding commutes with negation. */
  lemma RoundIsOdd(x: real, mode: Mode)
    ensures Round(-x, mode) == -Round(x, mode)
  {
    RoundMeetsRule(x, mode);
    RoundIsTheRounding(-x, -Round(x, mode), mode);
  }
}
