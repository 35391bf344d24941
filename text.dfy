/**
 * Helpers over character sequences shared by the Swift models, and the
 * Foundation string operations the Swift code calls:
 * `components(separatedBy:)`, `filter { !$0.isEmpty }`, `joined()` and
 * `replacingOccurrences(of:with:)`.
 */
module Text {

  /** Number of occurrences of `c` in `s`. */
  function CountOf(s: string, c: char): (n: nat)
    ensures n <= |s|
  {
    if s == [] then 0 else CountOf(s[..|s| - 1], c) + (if s[|s| - 1] == c then 1 else 0)
  }

  /** Number of characters of `s` that satisfy `p`. */
  function CountWhere(s: string, p: char -> bool): (n: nat)
    ensures n <= |s|
  {
    if s == [] then 0 else CountWhere(s[..|s| - 1], p) + (if p(s[|s| - 1]) then 1 else 0)
  }

  /** A prefix never holds more occurrences than the whole sequence. */
  lemma {:induction false} CountOfPrefix(s: string, c: char, k: nat)
    requires k <= |s|
    ensures CountOf(s[..k], c) <= CountOf(s, c)
  {
    if k == |s| {
      assert s[..k] == s;
    } else {
      assert s[..|s| - 1][..k] == s[..k];
      CountOfPrefix(s[..|s| - 1], c, k);
    }
  }

  /** The characters of `s` that do not satisfy `p`, in their order. */
  function Without(s: string, p: char -> bool): (r: string)
    ensures |r| <= |s|
    ensures forall i :: 0 <= i < |r| ==> !p(r[i])
  {
    if s == [] then []
    else Without(s[..|s| - 1], p) + (if p(s[|s| - 1]) then [] else [s[|s| - 1]])
  }

  /**
   * `components(separatedBy:)` with a set of one-character separators: the
   * pieces between separators, including the empty ones at the ends and
   * between adjacent separators.
   */
  function Components(s: string, isSeparator: char -> bool): (parts: seq<string>)
    ensures |parts| >= 1
  {
    if s == [] then [[]]
    else
      var parts := Components(s[..|s| - 1], isSeparator);
      var c := s[|s| - 1];
      if isSeparator(c) then parts + [[]]
      else parts[..|parts| - 1] + [parts[|parts| - 1] + [c]]
  }

  /** `filter { !$0.isEmpty }` on a list of strings. */
  function NonEmpty(parts: seq<string>): (r: seq<string>)
    ensures forall i :: 0 <= i < |r| ==> r[i] != []
  {
    if parts == [] then []
    else NonEmpty(parts[..|parts| - 1]) + (if parts[|parts| - 1] == [] then [] else [parts[|parts| - 1]])
  }

  /** `joined()` on a list of strings. */
  function Joined(parts: seq<string>): string
  {
    if parts == [] then [] else Joined(parts[..|parts| - 1]) + parts[|parts| - 1]
  }

  /** There is one more component than there are separators. */
  lemma {:induction false} ComponentsCount(s: string, isSeparator: char -> bool)
    ensures |Components(s, isSeparator)| == CountWhere(s, isSeparator) + 1
  {
    if s != [] {
      ComponentsCount(s[..|s| - 1], isSeparator);
    }
  }

  /** Splitting at separators, dropping empty pieces and joining removes exactly the separators. */
  lemma {:induction false} JoinedNonEmptyComponents(s: string, isSeparator: char -> bool)
    ensures Joined(NonEmpty(Components(s, isSeparator))) == Without(s, isSeparator)
  {
    if s != [] {
      var init := s[..|s| - 1];
      var c := s[|s| - 1];
      var parts := Components(init, isSeparator);
      JoinedNonEmptyComponents(init, isSeparator);
      if isSeparator(c) {
        SeparatorStep(parts);
      } else {
        OrdinaryStep(parts, c);
      }
    }
  }

  /** A separator opens a new, empty piece, which `NonEmpty` then drops. */
  lemma SeparatorStep(parts: seq<string>)
    ensures NonEmpty(parts + [[]]) == NonEmpty(parts)
  {
    var next := parts + [[]];
    assert next[..|next| - 1] == parts;
  }

  /** Any other character extends the last piece. */
  lemma OrdinaryStep(parts: seq<string>, c: char)
    requires |parts| >= 1
    ensures var next := parts[..|parts| - 1] + [parts[|parts| - 1] + [c]];
      Joined(NonEmpty(next)) == Joined(NonEmpty(parts)) + [c]
  {
    var front := parts[..|parts| - 1];
    var last := parts[|parts| - 1];
    assert parts == front + [last];
    NonEmptyLast(front, last + [c]);
    JoinedAppend(NonEmpty(front), [last + [c]]);
    JoinedSingle(last + [c]);
    NonEmptyLast(front, last);
    if last == [] {
      assert NonEmpty(parts) == NonEmpty(front);
    } else {
      JoinedAppend(NonEmpty(front), [last]);
      JoinedSingle(last);
    }
  }

  lemma JoinedSingle(x: string)
    ensures Joined([x]) == x
  {
    var one := [x];
    assert one[..|one| - 1] == [];
  }

  /** Dropping the empty pieces of a list that ends in `last`. */
  lemma NonEmptyLast(front: seq<string>, last: string)
    ensures var parts := front + [last];
      NonEmpty(parts) == NonEmpty(front) + (if last == [] then [] else [last])
  {
    var parts := front + [last];
    assert parts[..|parts| - 1] == front;
  }

  /** Joining distributes over concatenation of the lists. */
  lemma {:induction false} JoinedAppend(a: seq<string>, b: seq<string>)
    ensures Joined(a + b) == Joined(a) + Joined(b)
  {
    if b == [] {
      assert a + b == a;
    } else {
      assert (a + b)[..|a + b| - 1] == a + b[..|b| - 1];
      JoinedAppend(a, b[..|b| - 1]);
    }
  }

  /** `target` occurs somewhere in `s`. */
  predicate Occurs(target: string, s: string)
  {
    exists i | 0 <= i <= |s| :: OccursAt(target, s, i)
  }

  /** `target` occurs in `s` starting at position `i`. */
  predicate OccursAt(target: string, s: string, i: int)
  {
    0 <= i && i + |target| <= |s| && s[i..i + |target|] == target
  }

  /**
   * Foundation's `replacingOccurrences(of:with:)`: the occurrences of
   * `target` are found left to right without overlapping, and each is
   * replaced by `replacement`; an empty `target` leaves the string as it is.
   */
  function ReplacingOccurrences(s: string, target: string, replacement: string): string
    decreases |s|
  {
    if target == [] || |s| < |target| then s
    else if s[..|target|] == target then replacement + ReplacingOccurrences(s[|target|..], target, replacement)
    else [s[0]] + ReplacingOccurrences(s[1..], target, replacement)
  }

  /** A string in which the target does not occur comes back unchanged. */
  lemma {:induction false} ReplacingAbsent(s: string, target: string, replacement: string)
    requires !Occurs(target, s)
    ensures ReplacingOccurrences(s, target, replacement) == s
    decreases |s|
  {
    if target != [] && |s| >= |target| {
      assert s[0..0 + |target|] == s[..|target|];
      assert !OccursAt(target, s, 0);
      forall i | 0 <= i <= |s[1..]| && OccursAt(target, s[1..], i)
        ensures OccursAt(target, s, i + 1)
      {
        assert s[i + 1..i + 1 + |target|] == s[1..][i..i + |target|];
      }
      ReplacingAbsent(s[1..], target, replacement);
      assert [s[0]] + s[1..] == s;
    }
  }

  /** Replacing a target by itself changes nothing. */
  lemma {:induction false} ReplacingWithItself(s: string, target: string)
    ensures ReplacingOccurrences(s, target, target) == s
    decreases |s|
  {
    if target != [] && |s| >= |target| {
      if s[..|target|] == target {
        ReplacingWithItself(s[|target|..], target);
        assert s[..|target|] + s[|target|..] == s;
      } else {
        ReplacingWithItself(s[1..], target);
        assert [s[0]] + s[1..] == s;
      }
    }
  }
}
