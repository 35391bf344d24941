/**
 * The `onChange` rule of `NumberOnlyTextField` in
 * Swift/NumberOnlyTextField.swift: a second '.' or ',' just typed at the
 * end is taken back; otherwise every character that is not a digit, '.'
 * or ',' is dropped, and the bound text is written only when that changed
 * it. The decision is a function of the new value; the view modifier is a
 * class whose `text` field stands for the binding.
 */
module NumberOnlyTextField {
  import opened Wrappers
  import opened Text

  const AllowedCharacters: string := "0123456789.,"

  predicate Disallowed(c: char)
  {
    c !in AllowedCharacters
  }

  predicate IsPeriod(c: char) { c == '.' }

  predicate IsComma(c: char) { c == ',' }

  /** `newValue.components(separatedBy: ".").count - 1` */
  function PeriodCount(newValue: string): int
  {
    |Components(newValue, IsPeriod)| - 1
  }

  /** `newValue.components(separatedBy: ",").count - 1` */
  function CommaCount(newValue: string): int
  {
    |Components(newValue, IsComma)| - 1
  }

  /** `newValue.last == "." && periodCount > 1 || newValue.last == "," && commaCount > 1` */
  predicate IsSecondSeparator(newValue: string)
  {
    |newValue| > 0 &&
    ((newValue[|newValue| - 1] == '.' && PeriodCount(newValue) > 1) ||
     (newValue[|newValue| - 1] == ',' && CommaCount(newValue) > 1))
  }

  /** `newValue.filter { "0123456789.,".contains($0) }` */
  function Filtered(newValue: string): (r: string)
    ensures |r| <= |newValue|
    ensures forall i | 0 <= i < |r| :: r[i] in AllowedCharacters
  {
    Without(newValue, Disallowed)
  }

  /** What the closure writes into the binding, if anything. */
  function Sanitised(newValue: string): (r: Option<string>)
  {
    if IsSecondSeparator(newValue) then Some(newValue[..|newValue| - 1])
    else
      var filtered := Filtered(newValue);
      if filtered != newValue then Some(filtered) else None
  }

  /** The separator counts are the numbers of '.' and ','. */
  lemma SeparatorCounts(newValue: string)
    ensures PeriodCount(newValue) == CountWhere(newValue, IsPeriod)
    ensures CommaCount(newValue) == CountWhere(newValue, IsComma)
  {
    ComponentsCount(newValue, IsPeriod);
    ComponentsCount(newValue, IsComma);
  }

  /** Filtering keeps a text exactly when it has no disallowed character. */
  lemma {:induction false} FilteredKeepsIff(s: string)
    ensures Filtered(s) == s <==> forall i | 0 <= i < |s| :: s[i] in AllowedCharacters
  {
    if s != [] {
      var init := s[..|s| - 1];
      FilteredKeepsIff(init);
      assert s == init + [s[|s| - 1]];
      if Disallowed(s[|s| - 1]) {
        assert |Filtered(s)| < |s| by {
          assert Filtered(s) == Filtered(init);
        }
      } else if Filtered(s) == s {
        assert Filtered(s) == Filtered(init) + [s[|s| - 1]];
        assert Filtered(init) == init;
      }
    }
  }

  /** A second '.' typed at the end: only that last character goes. */
  lemma SecondPeriodDropped(newValue: string)
    requires |newValue| > 0 && newValue[|newValue| - 1] == '.'
    requires CountWhere(newValue, IsPeriod) > 1
    ensures Sanitised(newValue) == Some(newValue[..|newValue| - 1])
  {
    SeparatorCounts(newValue);
  }

  /** A second ',' typed at the end: only that last character goes. */
  lemma SecondCommaDropped(newValue: string)
    requires |newValue| > 0 && newValue[|newValue| - 1] == ','
    requires CountWhere(newValue, IsComma) > 1
    ensures Sanitised(newValue) == Some(newValue[..|newValue| - 1])
  {
    SeparatorCounts(newValue);
  }

  /**
   * Otherwise the disallowed characters are dropped, and a text that has
   * none is not written back.
   */
  lemma FilterBranch(newValue: string)
    requires !IsSecondSeparator(newValue)
    ensures (forall i | 0 <= i < |newValue| :: newValue[i] in AllowedCharacters) <==> Sanitised(newValue) == None
    ensures Sanitised(newValue) != None ==> Sanitised(newValue) == Some(Filtered(newValue))
  {
    FilteredKeepsIff(newValue);
  }

  /** Taking back the last separator filters nothing else: "a1.." becomes "a1.". */
  lemma DropLastKeepsOtherCharacters()
    ensures Sanitised("a1..") == Some("a1.")
  {
    assert CountWhere("a1..", IsPeriod) == 2 by {
      assert "a1.."[..3] == "a1." && "a1."[..2] == "a1" && "a1"[..1] == "a" && "a"[..0] == "";
    }
    SecondPeriodDropped("a1..");
    assert "a1.."[..3] == "a1.";
  }

  /** A '+' is filtered out. */
  lemma FilterExample()
    ensures Sanitised("+1,5") == Some("1,5")
  {
    assert "+1,5"[..3] == "+1," && "+1,"[..2] == "+1" && "+1"[..1] == "+" && "+"[..0] == "";
    assert Filtered("+") == "";
    assert Filtered("+1") == "1";
    assert Filtered("+1,") == "1,";
    assert Filtered("+1,5") == "1,5";
  }

  /** Filtering that changes a text makes it shorter. */
  lemma {:induction false} FilteredShortens(s: string)
    ensures Filtered(s) != s ==> |Filtered(s)| < |s|
  {
    if s != [] {
      var init := s[..|s| - 1];
      FilteredShortens(init);
      assert s == init + [s[|s| - 1]];
    }
  }

  /** Every write of the closure shortens the text, so re-running it comes to an end. */
  lemma SanitisedShortens(t: string)
    ensures Sanitised(t).Some? ==> |Sanitised(t).value| < |t|
  {
    FilteredShortens(t);
  }

  /**
   * The text the field settles on. SwiftUI runs the `onChange(of: text)`
   * closure again after the closure writes `text`; this is the value at
   * which it writes nothing more.
   */
  function Settled(t: string): (r: string)
    ensures Sanitised(r) == None
    ensures |r| <= |t|
    decreases |t|
  {
    match Sanitised(t)
    case None => t
    case Some(u) =>
      SanitisedShortens(t);
      Settled(u)
  }

  /** A settled text holds only digits, '.' and ',', and does not end in a second separator. */
  lemma SettledIsAllowed(t: string)
    ensures var r := Settled(t);
      !IsSecondSeparator(r) && forall i | 0 <= i < |r| :: r[i] in AllowedCharacters
  {
    var r := Settled(t);
    FilterBranch(r);
  }

  /** A text already made of allowed characters and without a second separator settles at once. */
  lemma AllowedIsSettled(t: string)
    requires !IsSecondSeparator(t) && forall i | 0 <= i < |t| :: t[i] in AllowedCharacters
    ensures Settled(t) == t
  {
    FilterBranch(t);
  }

  /** A write of the closure is followed by the run on what it wrote. */
  lemma SettledStep(t: string, u: string)
    requires Sanitised(t) == Some(u)
    ensures Settled(t) == Settled(u)
  {
  }

  /** A text ending in its only '.' does not end in a second separator. */
  lemma OnlyPeriodAtEnd(t: string)
    requires |t| > 0 && t[|t| - 1] == '.' && CountWhere(t, IsPeriod) <= 1
    ensures !IsSecondSeparator(t)
  {
    SeparatorCounts(t);
  }

  /** Without a second separator the closure writes the filtered text when filtering changes it. */
  lemma FilterStep(t: string, u: string)
    requires !IsSecondSeparator(t) && Filtered(t) == u && u != t
    ensures Sanitised(t) == Some(u)
  {
  }

  lemma PeriodsOfLetterDigitPeriod()
    ensures CountWhere("a1.", IsPeriod) == 1
  {
    assert "a1."[..2] == "a1" && "a1"[..1] == "a" && "a"[..0] == "";
  }

  lemma FilteredLetterDigitPeriod()
    ensures Filtered("a1.") == "1."
  {
    assert "a1."[..2] == "a1" && "a1"[..1] == "a" && "a"[..0] == "";
    assert Filtered("a") == "";
    assert Filtered("a1") == "1";
  }

  lemma FilterLetter()
    ensures Sanitised("a1.") == Some("1.")
  {
    PeriodsOfLetterDigitPeriod();
    OnlyPeriodAtEnd("a1.");
    FilteredLetterDigitPeriod();
    FilterStep("a1.", "1.");
  }

  lemma OnePeriodAllowed()
    ensures !IsSecondSeparator("1.") && forall i | 0 <= i < |"1."| :: "1."[i] in AllowedCharacters
  {
    assert CountWhere("1.", IsPeriod) == 1 by {
      assert "1."[..1] == "1" && "1"[..0] == "";
    }
    OnlyPeriodAtEnd("1.");
  }

  /** "a1.." loses its second '.', and then the 'a': the field shows "1.". */
  lemma SettledExample()
    ensures Settled("a1..") == "1."
  {
    DropLastKeepsOtherCharacters();
    SettledStep("a1..", "a1.");
    FilterLetter();
    SettledStep("a1.", "1.");
    OnePeriodAllowed();
    AllowedIsSettled("1.");
  }

  class NumberOnlyTextField {
    /** The `@Binding var text`. */
    var text: string

    constructor (text: string)
      ensures this.text == text
    {
      this.text := text;
    }

    /** The `onChange(of: text)` closure. */
    method OnChange(newValue: string)
      modifies this
      ensures text == (match Sanitised(newValue) case Some(t) => t case None => old(text))
    {
      var periodCount := |Components(newValue, IsPeriod)| - 1;
      var commaCount := |Components(newValue, IsComma)| - 1;
      if |newValue| > 0 &&
        ((newValue[|newValue| - 1] == '.' && periodCount > 1) || (newValue[|newValue| - 1] == ',' && commaCount > 1))
      {
        text := newValue[..|newValue| - 1];
      } else {
        var filtered := Filtered(newValue);
        if filtered != newValue {
          text := filtered;
        }
      }
    }
  }
}
