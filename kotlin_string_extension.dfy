/**
 * `String.isNumeric()` of Kotlin/StringExtension.kt: a blank string is not
 * numeric; any other string is numeric when the whole of it matches
 * `^(-)?[0-9]*((\.)[0-9]+)?$`. The regular expression is decided by a
 * scan, and the scan is proved equal to the pattern's own reading.
 */
module KotlinStringExtension {

  /** Kotlin's `Char.isWhitespace()`: Java whitespace or a space, line or paragraph separator. */
  predicate IsWhitespace(c: char)
  {
    var v := c as int;
    (0x9 <= v <= 0xD) || (0x1C <= v <= 0x20) || v == 0xA0 || v == 0x1680
    || (0x2000 <= v <= 0x200A) || v == 0x2028 || v == 0x2029 || v == 0x202F
    || v == 0x205F || v == 0x3000
  }

  /** `isBlank()`: empty or only whitespace. */
  predicate IsBlank(s: string)
  {
    forall i | 0 <= i < |s| :: IsWhitespace(s[i])
  }

  predicate IsDigit(c: char)
  {
    '0' <= c <= '9'
  }

  predicate AllDigits(s: string)
  {
    forall i | 0 <= i < |s| :: IsDigit(s[i])
  }

  /** The length of the run of digits `s` starts with. */
  function DigitRun(s: string): (n: nat)
    ensures n <= |s| && AllDigits(s[..n]) && (n < |s| ==> !IsDigit(s[n]))
  {
    if s == [] || !IsDigit(s[0]) then 0
    else
      var n := DigitRun(s[1..]);
      assert s[..n + 1] == [s[0]] + s[1..][..n];
      n + 1
  }

  /** The characters after the optional leading '-'. */
  function Unsigned(s: string): string
  {
    if |s| > 0 && s[0] == '-' then s[1..] else s
  }

  /** The scan deciding the regular expression: sign, digits, then nothing or a '.' with digits. */
  predicate MatchesNumber(s: string)
  {
    var body := Unsigned(s);
    var rest := body[DigitRun(body)..];
    rest == [] || (rest[0] == '.' && |rest| > 1 && AllDigits(rest[1..]))
  }

  /** `s[..a]` is the `(-)?` group, `s[a..b]` the `[0-9]*` and `s[b..]` the `((\.)[0-9]+)?`. */
  ghost predicate SplitsAsNumber(s: string, a: nat, b: nat)
  {
    a <= b <= |s| && a <= 1 && (a == 1 ==> s[0] == '-') &&
    AllDigits(s[a..b]) &&
    (b == |s| || (s[b] == '.' && b + 1 < |s| && AllDigits(s[b + 1..])))
  }

  /** The whole string matches `^(-)?[0-9]*((\.)[0-9]+)?$`. */
  ghost predicate MatchesPattern(s: string)
  {
    exists a: nat, b: nat :: SplitsAsNumber(s, a, b)
  }

  /** `isNumeric()` */
  predicate IsNumeric(s: string)
  {
    if IsBlank(s) then false else MatchesNumber(s)
  }

  /** A run of digits ending at the end or at a non-digit is the run `DigitRun` finds. */
  lemma {:induction false} DigitRunUnique(t: string, m: nat)
    requires m <= |t| && AllDigits(t[..m]) && (m < |t| ==> !IsDigit(t[m]))
    ensures DigitRun(t) == m
  {
    if m > 0 {
      assert IsDigit(t[..m][0]);
      assert t[1..][..m - 1] == t[..m][1..];
      DigitRunUnique(t[1..], m - 1);
    }
  }

  /** What the scan accepts splits as the pattern reads it: the sign, the run of digits, the rest. */
  lemma ScanSplits(s: string)
    requires MatchesNumber(s)
    ensures MatchesPattern(s)
  {
    var a: nat := if |s| > 0 && s[0] == '-' then 1 else 0;
    var body := Unsigned(s);
    assert body == s[a..];
    var n := DigitRun(body);
    assert s[a..a + n] == body[..n];
    assert s[a + n..] == body[n..];
    if a + n < |s| {
      assert s[a + n + 1..] == body[n..][1..];
    }
    assert SplitsAsNumber(s, a, a + n);
  }

  /** A split of the pattern's shape is the one the scan finds. */
  lemma SplitScans(s: string, a: nat, b: nat)
    requires SplitsAsNumber(s, a, b)
    ensures MatchesNumber(s)
  {
    var body := Unsigned(s);
    assert a == (if |s| > 0 && s[0] == '-' then 1 else 0);
    assert body == s[a..];
    assert body[..b - a] == s[a..b];
    if b < |s| {
      assert body[b - a] == s[b];
    }
    DigitRunUnique(body, b - a);
    assert body[b - a..] == s[b..];
  }

  /** The scan accepts exactly the strings the pattern matches. */
  lemma MatchesNumberIff(s: string)
    ensures MatchesNumber(s) <==> MatchesPattern(s)
  {
    if MatchesNumber(s) {
      ScanSplits(s);
    }
    if MatchesPattern(s) {
      var a: nat, b: nat :| SplitsAsNumber(s, a, b);
      SplitScans(s, a, b);
    }
  }

  /** A non-empty blank string cannot match, so only the empty string is ruled out by the blank test. */
  lemma BlankNeverMatches(s: string)
    requires s != [] && IsBlank(s)
    ensures !MatchesNumber(s)
  {
    assert IsWhitespace(s[0]);
    assert Unsigned(s) == s;
    DigitRunUnique(s, 0);
  }

  /** Numeric means non-empty and matching the pattern. */
  lemma IsNumericIff(s: string)
    ensures IsNumeric(s) <==> s != [] && MatchesPattern(s)
  {
    MatchesNumberIff(s);
    if s != [] && IsBlank(s) {
      BlankNeverMatches(s);
    }
  }

  /** A numeric string has at most one '.' and no '-' but at the front. */
  lemma NumericShape(s: string)
    requires IsNumeric(s)
    ensures forall i, j | 0 <= i < |s| && 0 <= j < |s| && s[i] == '.' && s[j] == '.' :: i == j
    ensures forall i | 0 < i < |s| :: s[i] != '-'
  {
    IsNumericIff(s);
    var a: nat, b: nat :| SplitsAsNumber(s, a, b);
    forall i | a <= i < |s| && i != b
      ensures IsDigit(s[i])
    {
      if i < b {
        assert s[i] == s[a..b][i - a];
      } else {
        assert s[i] == s[b + 1..][i - b - 1];
      }
    }
  }

  /** A string that is not blank and splits as the pattern reads it is numeric. */
  lemma AcceptedSplit(s: string, a: nat, b: nat)
    requires s != [] && !IsWhitespace(s[0]) && SplitsAsNumber(s, a, b)
    ensures IsNumeric(s)
  {
    SplitScans(s, a, b);
  }

  lemma AcceptsLoneMinus()
    ensures IsNumeric("-")
  {
    AcceptedSplit("-", 1, 1);
  }

  lemma AcceptsBareFraction()
    ensures IsNumeric(".5")
  {
    assert ".5"[1..] == "5";
    AcceptedSplit(".5", 0, 0);
  }

  lemma AcceptsSignedDecimal()
    ensures IsNumeric("-12.50")
  {
    assert "-12.50"[1..3] == "12" && "-12.50"[4..] == "50";
    AcceptedSplit("-12.50", 1, 3);
  }

  /** A lone '-' and a fraction without an integer part are accepted. */
  lemma AcceptedExamples()
    ensures IsNumeric("-") && IsNumeric(".5") && IsNumeric("-12.50")
  {
    AcceptsLoneMinus();
    AcceptsBareFraction();
    AcceptsSignedDecimal();
  }

  /** `s` is not blank and the scan stops at position `n` of the unsigned part, where `s` cannot go on. */
  lemma RejectedAt(s: string, n: nat)
    requires s != [] && !IsWhitespace(s[0])
    requires var body := Unsigned(s);
      n <= |body| && AllDigits(body[..n]) && (n < |body| ==> !IsDigit(body[n]))
    requires var rest := Unsigned(s)[n..];
      rest != [] && (rest[0] != '.' || |rest| == 1 || !AllDigits(rest[1..]))
    ensures !IsNumeric(s)
  {
    DigitRunUnique(Unsigned(s), n);
  }

  lemma RejectsTrailingDot()
    ensures !IsNumeric("5.")
  {
    assert "5."[..1] == "5" && "5."[1..] == ".";
    RejectedAt("5.", 1);
  }

  lemma RejectsTwoDots()
    ensures !IsNumeric("1.2.3")
  {
    assert "1.2.3"[..1] == "1" && "1.2.3"[1..] == ".2.3" && ".2.3"[1..] == "2.3" && !IsDigit("2.3"[1]);
    RejectedAt("1.2.3", 1);
  }

  lemma RejectsPlusSign()
    ensures !IsNumeric("+1")
  {
    RejectedAt("+1", 0);
  }

  lemma RejectsLeadingSpace()
    ensures !IsNumeric(" 1")
  {
    assert !IsWhitespace(" 1"[1]);
  }

  /** The empty string, a trailing '.', two '.', a '+' and a leading space are rejected. */
  lemma RejectedExamples()
    ensures !IsNumeric("") && !IsNumeric("5.") && !IsNumeric("1.2.3") && !IsNumeric("+1") && !IsNumeric(" 1")
  {
    RejectsTrailingDot();
    RejectsTwoDots();
    RejectsPlusSign();
    RejectsLeadingSpace();
  }
}
