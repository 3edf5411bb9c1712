/** Strings as the master-data engine compares and orders them: codes are matched after
    trimming and upper-casing, and lists are sorted by code point. */
module Text {
  function UpperChar(c: char): char {
    if 'a' <= c <= 'z' then (c as int - 32) as char else c
  }

  function Upper(s: string): (u: string)
    ensures |u| == |s|
    ensures forall i :: 0 <= i < |s| ==> u[i] == UpperChar(s[i])
  {
    seq(|s|, i requires 0 <= i < |s| => UpperChar(s[i]))
  }

  predicate IsSpace(c: char) {
    c == ' ' || c == '\t' || c == '\n' || c == '\r'
  }

  /** The text without its leading and trailing white space. */
  function Strip(s: string): (t: string)
    ensures t == [] || (!IsSpace(t[0]) && !IsSpace(t[|t| - 1]))
    ensures |t| <= |s|
    ensures |t| == |s| ==> t == s
  {
    if s == [] then []
    else if IsSpace(s[0]) then Strip(s[1..])
    else if IsSpace(s[|s| - 1]) then Strip(s[..|s| - 1])
    else s
  }

  /** The form in which master types and looked-up codes are compared. */
  function Normalize(s: string): string {
    Upper(Strip(s))
  }

  lemma UpperIsIdempotent(s: string)
    ensures Upper(Upper(s)) == Upper(s)
  {
  }

  lemma UpperOfEnds(s: string)
    requires s != []
    ensures Upper(s)[1..] == Upper(s[1..]) && Upper(s)[..|s| - 1] == Upper(s[..|s| - 1])
    ensures IsSpace(Upper(s)[0]) == IsSpace(s[0]) && IsSpace(Upper(s)[|s| - 1]) == IsSpace(s[|s| - 1])
  {
    assert IsSpace(UpperChar(s[0])) == IsSpace(s[0]);
    assert IsSpace(UpperChar(s[|s| - 1])) == IsSpace(s[|s| - 1]);
  }

  lemma {:induction false} StripUpper(s: string)
    ensures Strip(Upper(s)) == Upper(Strip(s))
  {
    if s != [] {
      UpperOfEnds(s);
      if IsSpace(s[0]) {
        StripUpper(s[1..]);
      } else if IsSpace(s[|s| - 1]) {
        StripUpper(s[..|s| - 1]);
      }
    }
  }

  /** Normalising twice is normalising once, so a normalised master type stays as it is. */
  lemma NormalizeIsIdempotent(s: string)
    ensures Normalize(Normalize(s)) == Normalize(s)
  {
  }

  /** A key that is trimmed belongs to a trimmed code. */
  lemma TrimmedKeyTrimmedCode(code: string, other: string)
    requires Upper(code) == Normalize(other)
    ensures Strip(code) == code
  {
    StripUpper(code);
    NormalizeIsIdempotent(other);
    assert |Upper(Strip(code))| == |Strip(code)|;
    StrippedIsStripped(other);
  }

  /** Trimmed and upper-cased text is trimmed. */
  lemma StrippedIsStripped(s: string)
    ensures Strip(Normalize(s)) == Normalize(s)
  {
    StripUpper(Strip(s));
    StripIsIdempotent(s);
  }

  lemma StripIsIdempotent(s: string)
    ensures Strip(Strip(s)) == Strip(s)
  {
  }

  /** Code-point order on strings. */
  predicate LexLeq(a: string, b: string) {
    a == [] || (b != [] && (a[0] < b[0] || (a[0] == b[0] && LexLeq(a[1..], b[1..]))))
  }

  lemma LexTotal(a: string, b: string)
    ensures LexLeq(a, b) || LexLeq(b, a)
  {
  }

  lemma {:induction false} LexTransitive(a: string, b: string, c: string)
    requires LexLeq(a, b) && LexLeq(b, c)
    ensures LexLeq(a, c)
  {
    if a != [] && a[0] == b[0] && b[0] == c[0] {
      LexTransitive(a[1..], b[1..], c[1..]);
    }
  }

  /** The strings first differ at position `p`, where `a` has the smaller character. */
  predicate DifferAt(a: string, b: string, p: nat) {
    p < |a| && p < |b| && a[p] < b[p] && forall i :: 0 <= i < p ==> a[i] == b[i]
  }

  /** The order is that of the first difference; a proper prefix comes first. */
  lemma {:induction false} LexIsFirstDifference(a: string, b: string)
    ensures LexLeq(a, b) <==> a <= b || exists p :: DifferAt(a, b, p)
  {
    if a != [] && b != [] {
      if a[0] == b[0] {
        LexIsFirstDifference(a[1..], b[1..]);
        if p: nat :| DifferAt(a[1..], b[1..], p) {
          assert forall i :: 1 <= i < p + 1 ==> a[i] == a[1..][i - 1] && b[i] == b[1..][i - 1];
          assert DifferAt(a, b, p + 1);
        }
        if p: nat :| DifferAt(a, b, p) {
          assert DifferAt(a[1..], b[1..], p - 1);
        }
        assert a == [a[0]] + a[1..] && b == [b[0]] + b[1..];
      } else if a[0] < b[0] {
        assert DifferAt(a, b, 0);
      }
    }
  }

  const LOWER: string := "abcdefghijklmnopqrstuvwxyz"
  const UPPER: string := "ABCDEFGHIJKLMNOPQRSTUVWXYZ"

  /** The characters are equal, or the two cases of one letter. */
  predicate SameLetter(c: char, d: char) {
    c == d || exists i :: 0 <= i < 26 && (c == LOWER[i] || c == UPPER[i]) && (d == LOWER[i] || d == UPPER[i])
  }

  /** The two cases of the letter at a position of the alphabet. */
  lemma Alphabet(i: nat)
    requires i < 26
    ensures LOWER[i] as int == 'a' as int + i && UPPER[i] as int == 'A' as int + i
  {
  }

  lemma SameUpperChar(c: char, d: char)
    ensures UpperChar(c) == UpperChar(d) <==> SameLetter(c, d)
  {
    if SameLetter(c, d) && c != d {
      var i :| 0 <= i < 26 && (c == LOWER[i] || c == UPPER[i]) && (d == LOWER[i] || d == UPPER[i]);
      Alphabet(i);
    }
    if UpperChar(c) == UpperChar(d) && c != d {
      var i := UpperChar(c) as int - 'A' as int;
      Alphabet(i);
    }
  }

  /** Upper-casing identifies exactly the strings that are equal up to the case of letters, and
      leaves no small letter. */
  lemma UpperIsCaseBlind(a: string, b: string)
    ensures Upper(a) == Upper(b) <==> |a| == |b| && forall i :: 0 <= i < |a| ==> SameLetter(a[i], b[i])
    ensures forall i :: 0 <= i < |a| ==> !('a' <= Upper(a)[i] <= 'z')
  {
    if |a| == |b| {
      forall i | 0 <= i < |a| ensures Upper(a)[i] == Upper(b)[i] <==> SameLetter(a[i], b[i]) {
        SameUpperChar(a[i], b[i]);
      }
      assert Upper(a) == Upper(b) <==> forall i :: 0 <= i < |a| ==> Upper(a)[i] == Upper(b)[i];
    }
  }

  /** Outside the positions from `i` to before `j` there is only white space. */
  predicate BlankOutside(s: string, i: nat, j: nat) {
    i <= j <= |s| && forall k :: 0 <= k < |s| && (k < i || j <= k) ==> s[k] in " \t\n\r"
  }

  lemma BlankInFront(s: string, i: nat, j: nat)
    requires s != [] && s[0] in " \t\n\r" && BlankOutside(s[1..], i, j)
    ensures BlankOutside(s, i + 1, j + 1) && s[i + 1..j + 1] == s[1..][i..j]
  {
    forall k | 0 <= k < |s| && (k < i + 1 || j + 1 <= k) ensures s[k] in " \t\n\r" {
      if k > 0 { assert s[k] == s[1..][k - 1]; }
    }
  }

  lemma BlankBehind(s: string, i: nat, j: nat)
    requires s != [] && s[|s| - 1] in " \t\n\r" && BlankOutside(s[..|s| - 1], i, j)
    ensures BlankOutside(s, i, j) && s[i..j] == s[..|s| - 1][i..j]
  {
    forall k | 0 <= k < |s| && (k < i || j <= k) ensures s[k] in " \t\n\r" {
      if k < |s| - 1 { assert s[k] == s[..|s| - 1][k]; }
    }
  }

  /** Trimming takes away the white space at both ends and nothing else. */
  lemma {:induction false} StripTrims(s: string) returns (i: nat, j: nat)
    ensures BlankOutside(s, i, j) && Strip(s) == s[i..j]
    ensures Strip(s) != "" ==> Strip(s)[0] !in " \t\n\r" && Strip(s)[|Strip(s)| - 1] !in " \t\n\r"
  {
    if s == [] {
      i, j := 0, 0;
    } else if IsSpace(s[0]) {
      i, j := StripTrims(s[1..]);
      BlankInFront(s, i, j);
      i, j := i + 1, j + 1;
    } else if IsSpace(s[|s| - 1]) {
      i, j := StripTrims(s[..|s| - 1]);
      BlankBehind(s, i, j);
    } else {
      i, j := 0, |s|;
    }
  }
}
