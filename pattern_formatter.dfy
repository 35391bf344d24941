/**
 * `StringPatternFormatter` of Swift/StringPatternFormatter.swift: a list of
 * patterns applied in order to a text; a replace pattern substitutes every
 * match, an attributes pattern replaces every match by its first capture
 * group. The regular-expression engine is a parameter that returns the
 * matches of a pattern in a text (or reports that the pattern does not
 * compile); only the text of the attributed string is modelled.
 */
module PatternFormatter {
  import opened Wrappers

  /** An `NSRange`. */
  datatype Range = Range(location: nat, length: nat)
  {
    function End(): nat { location + length }
  }

  /** An `NSTextCheckingResult`: `range(at: 0)` and the capture groups `range(at: 1...)`. */
  datatype Match = Match(whole: Range, groups: seq<Range>)

  /** What `NSRegularExpression` gives: a compile error, or the matches in the text. */
  datatype Matching = InvalidPattern | Found(matches: seq<Match>)

  type RegexEngine = (string, string) -> Matching

  /** `StringPatternType` */
  datatype PatternType = Replace(to: string) | Attributes(attributes: map<string, string>)

  /** `StringPattern` */
  datatype StringPattern = StringPattern(pattern: string, kind: PatternType)

  /** A pattern that does not compile, or `stringPatternDoNotContainsMatchingCharacter`. */
  datatype FormatError = PatternError(pattern: string) | NoCaptureGroup

  /**
   * Matches as a regular-expression engine reports them: inside the text,
   * in order and not overlapping, each group inside its match.
   */
  predicate WellFormed(ms: seq<Match>, n: nat)
  {
    (forall i | 0 <= i < |ms| :: ms[i].whole.End() <= n) &&
    (forall i | 0 <= i < |ms| - 1 :: ms[i].whole.End() <= ms[i + 1].whole.location) &&
    (forall i, g | 0 <= i < |ms| && 0 <= g < |ms[i].groups| ::
      ms[i].whole.location <= ms[i].groups[g].location && ms[i].groups[g].End() <= ms[i].whole.End())
  }

  ghost predicate EngineWellFormed(engine: RegexEngine)
  {
    forall p, t :: engine(p, t).Found? ==> WellFormed(engine(p, t).matches, |t|)
  }

  /** Where match `j` starts, or the end of the text after the last match. */
  function Start(t: string, ms: seq<Match>, j: nat): (p: nat)
    requires WellFormed(ms, |t|) && j <= |ms|
    ensures p <= |t|
  {
    if j < |ms| then ms[j].whole.location else |t|
  }

  lemma StartsInOrder(t: string, ms: seq<Match>, j: nat)
    requires WellFormed(ms, |t|) && j < |ms|
    ensures ms[j].whole.End() <= Start(t, ms, j + 1)
  {
  }

  /**
   * Reference definition: the text from `pos` on, with match `i` and every
   * later one replaced by its entry in `texts`, read left to right.
   */
  function RebuildFrom(t: string, ms: seq<Match>, texts: seq<string>, i: nat, pos: nat): string
    requires WellFormed(ms, |t|) && |texts| == |ms| && i <= |ms| && pos <= Start(t, ms, i)
    decreases |ms| - i
  {
    if i == |ms| then t[pos..]
    else
      StartsInOrder(t, ms, i);
      t[pos..ms[i].whole.location] + texts[i] + RebuildFrom(t, ms, texts, i + 1, ms[i].whole.End())
  }

  /** The whole text with every match replaced. */
  function Rebuild(t: string, ms: seq<Match>, texts: seq<string>): string
    requires WellFormed(ms, |t|) && |texts| == |ms|
  {
    RebuildFrom(t, ms, texts, 0, 0)
  }

  /** Text before the next match is copied as it is. */
  lemma RebuildShift(t: string, ms: seq<Match>, texts: seq<string>, i: nat, pos: nat)
    requires WellFormed(ms, |t|) && |texts| == |ms| && i <= |ms| && pos <= Start(t, ms, i)
    ensures RebuildFrom(t, ms, texts, i, pos) == t[pos..Start(t, ms, i)] + RebuildFrom(t, ms, texts, i, Start(t, ms, i))
  {
    if i == |ms| {
      assert t[pos..] == t[pos..|t|] + t[|t|..];
    } else {
      var s := ms[i].whole.location;
      StartsInOrder(t, ms, i);
      var later := RebuildFrom(t, ms, texts, i + 1, ms[i].whole.End());
      assert RebuildFrom(t, ms, texts, i, pos) == t[pos..s] + texts[i] + later;
      assert RebuildFrom(t, ms, texts, i, s) == texts[i] + later by {
        assert t[s..s] == [];
      }
    }
  }

  /** With every match replaced by its own text, the text comes back unchanged. */
  lemma {:induction false} RebuildIdentity(t: string, ms: seq<Match>, texts: seq<string>, i: nat, pos: nat)
    requires WellFormed(ms, |t|) && |texts| == |ms| && i <= |ms| && pos <= Start(t, ms, i)
    requires forall k | i <= k < |ms| :: texts[k] == t[ms[k].whole.location..ms[k].whole.End()]
    ensures RebuildFrom(t, ms, texts, i, pos) == t[pos..]
    decreases |ms| - i
  {
    if i < |ms| {
      var m := ms[i].whole;
      StartsInOrder(t, ms, i);
      RebuildIdentity(t, ms, texts, i + 1, m.End());
      assert t[pos..] == t[pos..m.location] + t[m.location..m.End()] + t[m.End()..];
    }
  }

  /**
   * Splicing match `j - 1` into a text whose part from match `j` on is
   * already rebuilt: the earlier text is untouched, so the range is still
   * valid, and the result has one more match rebuilt.
   */
  lemma SpliceStep(t: string, ms: seq<Match>, texts: seq<string>, j: nat, str: string)
    requires WellFormed(ms, |t|) && |texts| == |ms| && 0 < j <= |ms|
    requires str == t[..Start(t, ms, j)] + RebuildFrom(t, ms, texts, j, Start(t, ms, j))
    ensures var m := ms[j - 1].whole;
      m.End() <= |str| &&
      str[..m.location] + texts[j - 1] + str[m.End()..] ==
        t[..Start(t, ms, j - 1)] + RebuildFrom(t, ms, texts, j - 1, Start(t, ms, j - 1))
  {
    var m := ms[j - 1].whole;
    var q := Start(t, ms, j);
    StartsInOrder(t, ms, j - 1);
    RebuildShift(t, ms, texts, j, m.End());
    assert str[..m.location] == t[..m.location];
    assert str[m.End()..] == t[m.End()..q] + RebuildFrom(t, ms, texts, j, q);
  }

  /** With no match left to splice, the text is the whole rebuild. */
  lemma RebuildDone(t: string, ms: seq<Match>, texts: seq<string>, str: string)
    requires WellFormed(ms, |t|) && |texts| == |ms|
    requires str == t[..Start(t, ms, 0)] + RebuildFrom(t, ms, texts, 0, Start(t, ms, 0))
    ensures str == Rebuild(t, ms, texts)
  {
    RebuildShift(t, ms, texts, 0, 0);
  }

  /** The part of the text before match `j` has not been touched yet. */
  lemma PrefixUntouched(t: string, ms: seq<Match>, texts: seq<string>, j: nat, str: string, r: Range)
    requires WellFormed(ms, |t|) && |texts| == |ms| && j <= |ms|
    requires str == t[..Start(t, ms, j)] + RebuildFrom(t, ms, texts, j, Start(t, ms, j))
    requires r.End() <= Start(t, ms, j)
    ensures r.End() <= |str| && str[r.location..r.End()] == t[r.location..r.End()]
  {
  }

  /** One step of `processAttributedKey`: the group is read from text not yet touched. */
  lemma AttributesStep(t: string, ms: seq<Match>, j: nat, str: string)
    requires WellFormed(ms, |t|) && 0 < j <= |ms|
    requires str == t[..Start(t, ms, j)] + RebuildFrom(t, ms, GroupTexts(t, ms), j, Start(t, ms, j))
    ensures var m := ms[j - 1];
      m.whole.End() <= |str| &&
      (forall g | 0 <= g < |m.groups| :: m.whole.location <= m.groups[g].location && m.groups[g].End() <= m.whole.End()) &&
      (m.groups != [] ==>
        ApplyAttributes(str, m) ==
          Ok(t[..Start(t, ms, j - 1)] + RebuildFrom(t, ms, GroupTexts(t, ms), j - 1, Start(t, ms, j - 1))))
  {
    var texts := GroupTexts(t, ms);
    var m := ms[j - 1];
    SpliceStep(t, ms, texts, j, str);
    StartsInOrder(t, ms, j - 1);
    if m.groups != [] {
      var g := m.groups[0];
      assert m.whole.location <= g.location && g.End() <= m.whole.End();
      PrefixUntouched(t, ms, texts, j, str, g);
    }
  }

  /** The text each match of a replace pattern turns into. */
  function ReplaceTexts(ms: seq<Match>, replacement: string): (texts: seq<string>)
    ensures |texts| == |ms| && forall i | 0 <= i < |ms| :: texts[i] == replacement
  {
    seq(|ms|, i => replacement)
  }

  predicate AllHaveGroups(ms: seq<Match>)
  {
    forall i | 0 <= i < |ms| :: ms[i].groups != []
  }

  /** The text of each match's first capture group, read from the original text ("" without one). */
  function GroupTexts(t: string, ms: seq<Match>): (texts: seq<string>)
    requires WellFormed(ms, |t|)
    ensures |texts| == |ms|
    ensures forall i | 0 <= i < |ms| && ms[i].groups != [] ::
      texts[i] == t[ms[i].groups[0].location..ms[i].groups[0].End()]
  {
    seq(|ms|, i requires 0 <= i < |ms| =>
      if ms[i].groups == [] then "" else t[ms[i].groups[0].location..ms[i].groups[0].End()])
  }

  /** The effect of one pattern on a text. */
  function ApplyPattern(p: StringPattern, t: string, engine: RegexEngine): Result<string, FormatError>
    requires EngineWellFormed(engine)
  {
    match engine(p.pattern, t)
    case InvalidPattern => Err(PatternError(p.pattern))
    case Found(ms) =>
      match p.kind
      case Replace(to) => Ok(Rebuild(t, ms, ReplaceTexts(ms, to)))
      case Attributes(_) =>
        if AllHaveGroups(ms) then Ok(Rebuild(t, ms, GroupTexts(t, ms))) else Err(NoCaptureGroup)
  }

  /** One more pattern after a result; an error is passed on. */
  function Step(r: Result<string, FormatError>, p: StringPattern, engine: RegexEngine): Result<string, FormatError>
    requires EngineWellFormed(engine)
  {
    match r
    case Err(e) => Err(e)
    case Ok(s) => ApplyPattern(p, s, engine)
  }

  /** The patterns applied in order, each to the previous result; the first error stops it. */
  function ApplyAll(ps: seq<StringPattern>, t: string, engine: RegexEngine): Result<string, FormatError>
    requires EngineWellFormed(engine)
  {
    if ps == [] then Ok(t)
    else Step(ApplyAll(ps[..|ps| - 1], t, engine), ps[|ps| - 1], engine)
  }

  /** Continue with more patterns after a result. */
  function Then(r: Result<string, FormatError>, ps: seq<StringPattern>, engine: RegexEngine): Result<string, FormatError>
    requires EngineWellFormed(engine)
  {
    match r
    case Err(e) => Err(e)
    case Ok(s) => ApplyAll(ps, s, engine)
  }

  lemma ApplyAllSnoc(ps: seq<StringPattern>, p: StringPattern, t: string, engine: RegexEngine)
    requires EngineWellFormed(engine)
    ensures ApplyAll(ps + [p], t, engine) == Step(ApplyAll(ps, t, engine), p, engine)
  {
    var q := ps + [p];
    assert q[..|q| - 1] == ps;
  }

  lemma ThenSnoc(r: Result<string, FormatError>, ps: seq<StringPattern>, p: StringPattern, engine: RegexEngine)
    requires EngineWellFormed(engine)
    ensures Then(r, ps + [p], engine) == Step(Then(r, ps, engine), p, engine)
  {
    if r.Ok? {
      ApplyAllSnoc(ps, p, r.value, engine);
    }
  }

  /** Applying two lists of patterns one after the other is applying their concatenation. */
  lemma {:induction false} ApplyAllAppend(a: seq<StringPattern>, b: seq<StringPattern>, t: string, engine: RegexEngine)
    requires EngineWellFormed(engine)
    ensures ApplyAll(a + b, t, engine) == Then(ApplyAll(a, t, engine), b, engine)
  {
    if b == [] {
      assert a + b == a;
    } else {
      var front := b[..|b| - 1];
      var p := b[|b| - 1];
      assert b == front + [p];
      assert a + b == (a + front) + [p];
      ApplyAllAppend(a, front, t, engine);
      ApplyAllSnoc(a + front, p, t, engine);
      ThenSnoc(ApplyAll(a, t, engine), front, p, engine);
    }
  }

  /** Once a prefix of the patterns fails, the whole list fails with the same error. */
  lemma ErrorStops(ps: seq<StringPattern>, k: nat, t: string, engine: RegexEngine)
    requires EngineWellFormed(engine) && k <= |ps| && ApplyAll(ps[..k], t, engine).Err?
    ensures ApplyAll(ps, t, engine) == ApplyAll(ps[..k], t, engine)
  {
    ApplyAllAppend(ps[..k], ps[k..], t, engine);
    assert ps[..k] + ps[k..] == ps;
  }

  /** A replace pattern whose matches all read as the replacement leaves the text as it is. */
  lemma ReplaceBySameText(p: StringPattern, t: string, engine: RegexEngine)
    requires EngineWellFormed(engine) && p.kind.Replace?
    requires var found := engine(p.pattern, t);
      found.Found? && forall i | 0 <= i < |found.matches| ::
        found.matches[i].whole.End() <= |t| &&
        t[found.matches[i].whole.location..found.matches[i].whole.End()] == p.kind.to
    ensures ApplyPattern(p, t, engine) == Ok(t)
  {
    var ms := engine(p.pattern, t).matches;
    RebuildIdentity(t, ms, ReplaceTexts(ms, p.kind.to), 0, 0);
  }

  /** A pattern with no match changes nothing, whatever its kind. */
  lemma NoMatchNoChange(p: StringPattern, t: string, engine: RegexEngine)
    requires EngineWellFormed(engine) && engine(p.pattern, t) == Found([])
    ensures ApplyPattern(p, t, engine) == Ok(t)
  {
  }

  /** An attributes pattern whose matches all have a group gives the rebuilt text. */
  lemma AttributesResult(p: StringPattern, t: string, engine: RegexEngine, str: string)
    requires EngineWellFormed(engine) && p.kind.Attributes? && engine(p.pattern, t).Found?
    requires var ms := engine(p.pattern, t).matches;
      WellFormed(ms, |t|) && AllHaveGroups(ms) &&
      str == t[..Start(t, ms, 0)] + RebuildFrom(t, ms, GroupTexts(t, ms), 0, Start(t, ms, 0))
    ensures ApplyPattern(p, t, engine) == Ok(str)
  {
    var ms := engine(p.pattern, t).matches;
    RebuildDone(t, ms, GroupTexts(t, ms), str);
  }

  /** One match without a group makes an attributes pattern fail. */
  lemma AttributesMissingGroup(p: StringPattern, t: string, engine: RegexEngine, j: nat)
    requires EngineWellFormed(engine) && p.kind.Attributes? && engine(p.pattern, t).Found?
    requires var ms := engine(p.pattern, t).matches; j < |ms| && ms[j].groups == []
    ensures ApplyPattern(p, t, engine) == Err(NoCaptureGroup)
  {
    assert !AllHaveGroups(engine(p.pattern, t).matches);
  }

  /**
   * `applyAttributes` on the text: a result without a capture group is an
   * error; otherwise the whole match is replaced by the text of group 1.
   */
  function ApplyAttributes(str: string, m: Match): (r: Result<string, FormatError>)
    requires m.whole.End() <= |str|
    requires forall g | 0 <= g < |m.groups| :: m.whole.location <= m.groups[g].location && m.groups[g].End() <= m.whole.End()
    ensures r.Err? <==> m.groups == []
    ensures r.Ok? ==> |r.value| == |str| - m.whole.length + m.groups[0].length
    ensures r.Ok? ==> r.value[..m.whole.location] == str[..m.whole.location]
  {
    if m.groups == [] then Err(NoCaptureGroup)
    else
      var g := m.groups[0];
      assert m.whole.location <= g.location && g.End() <= m.whole.End();
      Ok(str[..m.whole.location] + str[g.location..g.End()] + str[m.whole.End()..])
  }

  class StringPatternFormatter {
    var patterns: seq<StringPattern>

    constructor (patterns: seq<StringPattern>)
      ensures this.patterns == patterns
    {
      this.patterns := patterns;
    }

    /** `attributedString(for:)`: format a plain string. */
    method AttributedString(text: string, engine: RegexEngine) returns (r: Result<string, FormatError>)
      requires EngineWellFormed(engine)
      ensures r == ApplyAll(patterns, text, engine)
    {
      r := Format(text, engine);
    }

    /** `format`: the patterns applied to a copy of the text; an empty list gives the text back. */
    method Format(text: string, engine: RegexEngine) returns (r: Result<string, FormatError>)
      requires EngineWellFormed(engine)
      ensures r == ApplyAll(patterns, text, engine)
      ensures patterns == [] ==> r == Ok(text)
    {
      var mutableString := text;
      r := Process(mutableString, engine);
    }

    /** `process`: each pattern in turn, stopping at the first error. */
    method Process(s: string, engine: RegexEngine) returns (r: Result<string, FormatError>)
      requires EngineWellFormed(engine)
      ensures r == ApplyAll(patterns, s, engine)
    {
      var str := s;
      var i := 0;
      while i < |patterns|
        invariant 0 <= i <= |patterns|
        invariant ApplyAll(patterns[..i], s, engine) == Ok(str)
      {
        var p := patterns[i];
        var step: Result<string, FormatError>;
        match p.kind {
          case Replace(to) =>
            step := ProcessReplace(str, p.pattern, to, engine);
          case Attributes(attributes) =>
            step := ProcessAttributedKey(str, p.pattern, attributes, engine);
        }
        assert step == ApplyPattern(p, str, engine);
        assert patterns[..i + 1] == patterns[..i] + [p];
        ApplyAllSnoc(patterns[..i], p, s, engine);
        if step.Err? {
          ErrorStops(patterns, i + 1, s, engine);
          return Err(step.error);
        }
        str := step.value;
        i := i + 1;
      }
      assert patterns[..i] == patterns;
      r := Ok(str);
    }

    /** `processReplace`: every match of the pattern replaced, last match first. */
    method ProcessReplace(s: string, pattern: string, replacingString: string, engine: RegexEngine)
      returns (r: Result<string, FormatError>)
      requires EngineWellFormed(engine)
      ensures r == ApplyPattern(StringPattern(pattern, Replace(replacingString)), s, engine)
    {
      var found := engine(pattern, s);
      if found.InvalidPattern? {
        return Err(PatternError(pattern));
      }
      var matches := found.matches;
      ghost var texts := ReplaceTexts(matches, replacingString);
      var str := s;
      var j := |matches|;
      while j > 0
        invariant 0 <= j <= |matches|
        invariant str == s[..Start(s, matches, j)] + RebuildFrom(s, matches, texts, j, Start(s, matches, j))
      {
        SpliceStep(s, matches, texts, j, str);
        var range := matches[j - 1].whole;
        str := str[..range.location] + replacingString + str[range.End()..];
        j := j - 1;
      }
      RebuildDone(s, matches, texts, str);
      r := Ok(str);
    }

    /** `processAttributedKey`: every match replaced by its first group, last match first. */
    method ProcessAttributedKey(s: string, pattern: string, attributes: map<string, string>, engine: RegexEngine)
      returns (r: Result<string, FormatError>)
      requires EngineWellFormed(engine)
      ensures r == ApplyPattern(StringPattern(pattern, Attributes(attributes)), s, engine)
    {
      var found := engine(pattern, s);
      if found.InvalidPattern? {
        return Err(PatternError(pattern));
      }
      var matches := found.matches;
      ghost var texts := GroupTexts(s, matches);
      var str := s;
      var j := |matches|;
      while j > 0
        invariant 0 <= j <= |matches|
        invariant forall k | j <= k < |matches| :: matches[k].groups != []
        invariant str == s[..Start(s, matches, j)] + RebuildFrom(s, matches, texts, j, Start(s, matches, j))
      {
        var m := matches[j - 1];
        AttributesStep(s, matches, j, str);
        var step := ApplyAttributes(str, m);
        if step.Err? {
          AttributesMissingGroup(StringPattern(pattern, Attributes(attributes)), s, engine, j - 1);
          return Err(step.error);
        }
        str := step.value;
        j := j - 1;
      }
      AttributesResult(StringPattern(pattern, Attributes(attributes)), s, engine, str);
      r := Ok(str);
    }
  }
}
