/**
 * The `String` and `StringProtocol` extensions of Swift/StringExtension.swift.
 * A Swift string is modelled as the sequence of its Unicode scalars, one
 * scalar per `Character`.
 */
module StringExtension {
  import opened Wrappers
  import opened Text

  // ----- indexOfRepeatingCharacter -----

  /**
   * The position of the `count`-th occurrence of `character`; `None` when
   * there are fewer occurrences, and always when `count <= 0`.
   */
  method IndexOfRepeatingCharacter(s: string, character: char, count: int) returns (r: Option<nat>)
    ensures r.Some? ==> r.value < |s| && s[r.value] == character && CountOf(s[..r.value + 1], character) == count
    ensures r.None? <==> count <= 0 || CountOf(s, character) < count
  {
    var i := 0;
    var index := 0;
    while index < |s|
      invariant 0 <= index <= |s|
      invariant i == CountOf(s[..index], character)
      invariant count <= 0 || i < count
    {
      assert s[..index + 1][..index] == s[..index];
      if s[index] == character {
        i := i + 1;
        if count == i {
          CountOfPrefix(s, character, index + 1);
          return Some(index);
        }
      }
      index := index + 1;
    }
    assert s[..index] == s;
    return None;
  }

  // ----- split(by:) -----

  /** The concatenation of a list of chunks. */
  function Concat(chunks: seq<string>): string
  {
    if chunks == [] then [] else Concat(chunks[..|chunks| - 1]) + chunks[|chunks| - 1]
  }

  /**
   * Where the chunk that starts at `start` ends: `length` characters later,
   * or at the end of the string when fewer remain
   * (`index(_:offsetBy:limitedBy:) ?? endIndex`).
   */
  function ChunkEnd(start: nat, length: int, n: nat): (end: int)
    requires start <= n
    ensures length > 0 ==> start < end <= n || start == n == end
  {
    if start + length <= n then start + length else n
  }

  /**
   * Cuts the string into consecutive chunks of `length` characters; only the
   * last chunk may be shorter. The empty string gives no chunk whatever the
   * length, because the loop never runs.
   */
  method Split(s: string, length: int) returns (r: seq<string>)
    requires length > 0 || s == []
    ensures Concat(r) == s
    ensures forall k :: 0 <= k < |r| - 1 ==> |r[k]| == length
    ensures |r| > 0 ==> 1 <= |r[|r| - 1]| <= length
    ensures s == [] <==> r == []
  {
    var startIndex := 0;
    r := [];
    while startIndex < |s|
      invariant 0 <= startIndex <= |s|
      invariant Concat(r) == s[..startIndex]
      invariant forall k :: 0 <= k < |r| - 1 ==> |r[k]| == length
      invariant |r| > 0 ==> 1 <= |r[|r| - 1]| <= length
      invariant |r| > 0 && startIndex < |s| ==> |r[|r| - 1]| == length
      invariant r == [] <==> startIndex == 0
    {
      var endIndex := ChunkEnd(startIndex, length, |s|);
      var chunk := s[startIndex..endIndex];
      ConcatAppend(r, chunk);
      assert s[..startIndex] + chunk == s[..endIndex];
      r := r + [chunk];
      startIndex := endIndex;
    }
    assert s[..startIndex] == s;
  }

  lemma ConcatAppend(chunks: seq<string>, chunk: string)
    ensures Concat(chunks + [chunk]) == Concat(chunks) + chunk
  {
    var next := chunks + [chunk];
    assert next[..|next| - 1] == chunks;
  }

  // ----- whitespace, isBlank, chineseCharactersCount -----

  /**
   * The Unicode White_Space characters: `Character.isWhitespace`, and the
   * members of `CharacterSet.whitespacesAndNewlines`.
   */
  predicate IsWhitespace(c: char)
  {
    var v := c as int;
    (0x9 <= v <= 0xD) || v == 0x20 || v == 0x85 || v == 0xA0 || v == 0x1680
    || (0x2000 <= v <= 0x200A) || v == 0x2028 || v == 0x2029 || v == 0x202F
    || v == 0x205F || v == 0x3000
  }

  /** `components(separatedBy: .whitespacesAndNewlines).filter { !$0.isEmpty }.joined()`. */
  function Stripped(s: string): (r: string)
    ensures r == Without(s, IsWhitespace)
  {
    JoinedNonEmptyComponents(s, IsWhitespace);
    Joined(NonEmpty(Components(s, IsWhitespace)))
  }

  /** `isBlank`: every character is whitespace, so also the empty string. */
  function IsBlank(s: string): (b: bool)
    ensures b <==> Stripped(s) == []
    ensures s == [] ==> b
  {
    BlankIffNothingLeft(s);
    forall i | 0 <= i < |s| :: IsWhitespace(s[i])
  }

  lemma {:induction false} BlankIffNothingLeft(s: string)
    ensures (forall i | 0 <= i < |s| :: IsWhitespace(s[i])) <==> Without(s, IsWhitespace) == []
  {
    if s != [] {
      var init := s[..|s| - 1];
      BlankIffNothingLeft(init);
      assert forall i | 0 <= i < |init| :: init[i] == s[i];
    }
  }

  /** The scalar ranges `chineseCharactersCount` counts, as listed in its switch. */
  predicate IsChineseScalar(v: int)
  {
    (19968 <= v <= 40959) || (13312 <= v <= 19903) || (131072 <= v <= 173791)
    || (173824 <= v <= 177983) || (177984 <= v <= 178207) || (63744 <= v <= 64255)
    || (194560 <= v <= 195103) || (40870 <= v <= 40883) || (40884 <= v <= 40891)
    || (40892 <= v <= 40898) || v == 40899 || (40900 <= v <= 40902) || (40903 <= v <= 40907)
  }

  /** How many scalars of `t` lie in one of the Chinese ranges. */
  function ChineseCount(t: string): nat
  {
    if t == [] then 0 else ChineseCount(t[..|t| - 1]) + (if IsChineseScalar(t[|t| - 1] as int) then 1 else 0)
  }

  /** Counts the non-whitespace scalars that lie in one of the Chinese ranges. */
  method ChineseCharactersCount(s: string) returns (chineseCount: nat)
    ensures chineseCount == ChineseCount(Without(s, IsWhitespace))
    ensures chineseCount <= |Without(s, IsWhitespace)|
  {
    var stripped := Stripped(s);
    chineseCount := 0;
    var i := 0;
    while i < |stripped|
      invariant 0 <= i <= |stripped|
      invariant chineseCount == ChineseCount(stripped[..i])
      invariant chineseCount <= i
    {
      assert stripped[..i + 1][..i] == stripped[..i];
      if IsChineseScalar(stripped[i] as int) {
        chineseCount := chineseCount + 1;
      }
      i := i + 1;
    }
    assert stripped[..i] == stripped;
  }

  /**
   * Every scalar is counted at most once: the count reaches the length
   * exactly when every scalar is Chinese (what `isChinese` tests).
   */
  lemma {:induction false} ChineseCountIsFull(t: string)
    ensures ChineseCount(t) <= |t|
    ensures ChineseCount(t) == |t| <==> forall i | 0 <= i < |t| :: IsChineseScalar(t[i] as int)
  {
    if t != [] {
      var init := t[..|t| - 1];
      ChineseCountIsFull(init);
      assert forall i | 0 <= i < |init| :: init[i] == t[i];
    }
  }

  // ----- prefix(by:), suffix(by:) and Swift's prefix(_:)/suffix(_:) -----

  /** `prefix(_:)`: the first `length` characters, or all of them if there are fewer. */
  function Prefix(s: string, length: int): (r: string)
    requires length >= 0
    ensures |r| == if length < |s| then length else |s|
    ensures r <= s
  {
    if length < |s| then s[..length] else s
  }

  /** `suffix(_:)`: the last `length` characters, or all of them if there are fewer. */
  function Suffix(s: string, length: int): (r: string)
    requires length >= 0
    ensures |r| == if length < |s| then length else |s|
    ensures r == s[|s| - |r|..]
  {
    if length < |s| then s[|s| - length..] else s
  }

  /** A prefix and the complementary suffix make up the whole string. */
  lemma PrefixSuffixSplit(s: string, k: nat)
    requires k <= |s|
    ensures Prefix(s, k) + Suffix(s, |s| - k) == s
  {
  }

  // ----- replace(of:with:) -----

  /** The occurrences replaced one pattern after another, in argument order. */
  function ReplaceEach(s: string, occurrences: seq<string>, newValue: string): string
  {
    if occurrences == [] then s
    else ReplacingOccurrences(ReplaceEach(s, occurrences[..|occurrences| - 1], newValue), occurrences[|occurrences| - 1], newValue)
  }

  /** Replaces each pattern in turn, each replacement applied to the previous result. */
  method Replace(s: string, occurrences: seq<string>, newValue: string) returns (r: string)
    ensures r == ReplaceEach(s, occurrences, newValue)
    ensures occurrences == [] ==> r == s
  {
    r := s;
    var k := 0;
    while k < |occurrences|
      invariant 0 <= k <= |occurrences|
      invariant r == ReplaceEach(s, occurrences[..k], newValue)
    {
      assert occurrences[..k + 1][..k] == occurrences[..k];
      r := ReplacingOccurrences(r, occurrences[k], newValue);
      k := k + 1;
    }
    assert occurrences[..k] == occurrences;
  }

  /** Replacing a list then another is replacing their concatenation. */
  lemma {:induction false} ReplaceEachAppend(s: string, first: seq<string>, second: seq<string>, newValue: string)
    ensures ReplaceEach(s, first + second, newValue) == ReplaceEach(ReplaceEach(s, first, newValue), second, newValue)
  {
    if second == [] {
      assert first + second == first;
    } else {
      assert (first + second)[..|first + second| - 1] == first + second[..|second| - 1];
      ReplaceEachAppend(s, first, second[..|second| - 1], newValue);
    }
  }

  /** Patterns that occur nowhere along the way leave the string unchanged. */
  lemma {:induction false} ReplaceEachAbsent(s: string, occurrences: seq<string>, newValue: string)
    requires forall k | 0 <= k < |occurrences| :: !Occurs(occurrences[k], s)
    ensures ReplaceEach(s, occurrences, newValue) == s
  {
    if occurrences != [] {
      var init := occurrences[..|occurrences| - 1];
      assert forall k | 0 <= k < |init| :: init[k] == occurrences[k];
      ReplaceEachAbsent(s, init, newValue);
      ReplacingAbsent(s, occurrences[|occurrences| - 1], newValue);
    }
  }

  // ----- asciiAt(index:) -----

  /** The scalar value at `index` when it is ASCII, `None` otherwise. */
  function AsciiAt(s: string, index: int): (r: Option<nat>)
    requires 0 <= index < |s|
    ensures r.Some? <==> (s[index] as int) < 128
    ensures r.Some? ==> r.value == s[index] as int && r.value < 128
  {
    if (s[index] as int) < 128 then Some(s[index] as int) else None
  }

  // ----- the Int and range subscripts of StringProtocol -----

  /** `self[offset]`: `None` outside `0..<count`, the character otherwise. */
  function CharacterAt(s: string, offset: int): (r: Option<char>)
    ensures r.None? <==> offset < 0 || offset >= |s|
    ensures r.Some? ==> r.value == s[offset]
  {
    if offset >= 0 && offset < |s| then Some(s[offset]) else None
  }

  /** `min(max(x, 0), n)`. */
  function Clamp(x: int, n: nat): (r: nat)
    ensures r <= n
  {
    if x < 0 then 0 else if x > n then n else x
  }

  /**
   * `self[lower..<upper]`, computed as `prefix(lower + count).suffix(count)`:
   * the `count` characters that end at `upper`, cut back at both ends of the
   * string.
   */
  function SliceHalfOpen(s: string, lower: int, upper: int): (r: string)
    requires lower <= upper && upper >= 0
    ensures var hi := Clamp(upper, |s|);
      r == s[Clamp(hi - (upper - lower), |s|)..hi]
    ensures 0 <= lower && upper <= |s| ==> r == s[lower..upper]
  {
    Suffix(Prefix(s, lower + (upper - lower)), upper - lower)
  }

  /** `self[lower...upper]`: `prefix(lower + count).suffix(count)` with `count == upper - lower + 1`. */
  function SliceClosed(s: string, lower: int, upper: int): (r: string)
    requires lower <= upper && upper + 1 >= 0
    ensures var hi := Clamp(upper + 1, |s|);
      r == s[Clamp(hi - (upper - lower + 1), |s|)..hi]
    ensures 0 <= lower && upper < |s| ==> r == s[lower..upper + 1]
  {
    Suffix(Prefix(s, lower + (upper - lower + 1)), upper - lower + 1)
  }

  /** `self[...upper]`: `prefix(upper + 1)`. */
  function PrefixThrough(s: string, upper: int): (r: string)
    requires upper + 1 >= 0
    ensures r == s[..Clamp(upper + 1, |s|)]
  {
    Prefix(s, upper + 1)
  }

  /** `self[..<upper]`: `prefix(upper)`. */
  function PrefixUpTo(s: string, upper: int): (r: string)
    requires upper >= 0
    ensures r == s[..Clamp(upper, |s|)]
  {
    Prefix(s, upper)
  }

  /** `self[lower...]`: `suffix(max(0, count - lower))`, empty once `lower >= count`. */
  function SuffixFrom(s: string, lower: int): (r: string)
    ensures r == s[Clamp(lower, |s|)..]
    ensures |r| == if |s| - lower > 0 then (if lower < 0 then |s| else |s| - lower) else 0
  {
    Suffix(s, if |s| - lower > 0 then |s| - lower else 0)
  }

  /** The two partial ranges at the same bound split the string. */
  lemma UpToAndFromSplit(s: string, bound: nat)
    ensures PrefixUpTo(s, bound) + SuffixFrom(s, bound) == s
  {
  }

  /** A closed range is the half-open range one past its upper bound. */
  lemma ClosedIsHalfOpen(s: string, lower: int, upper: int)
    requires lower <= upper && upper + 1 >= 0
    ensures SliceClosed(s, lower, upper) == SliceHalfOpen(s, lower, upper + 1)
  {
  }
}
