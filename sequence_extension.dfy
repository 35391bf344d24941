/**
 * The array and sequence helpers of Swift/SequenceExtension.swift and
 * common/ArrayExtension.swift (the latter repeats the former's array part):
 * the safe subscript, `filterDuplicates` and the two `group(by:)` forms.
 * A Swift array is a `seq`, a dictionary a `map`.
 */
module SequenceExtension {
  import opened Wrappers

  /** `self[safe: index]`: the element when the index is in bounds, otherwise nil. */
  function SafeGet<T>(s: seq<T>, index: int): (r: Option<T>)
    ensures r.None? <==> index < 0 || index >= |s|
    ensures r.Some? ==> 0 <= index < |s| && r.value == s[index]
  {
    if 0 <= index < |s| then Some(s[index]) else None
  }

  // ---------------------------------------------------------------------
  // Keys
  // ---------------------------------------------------------------------

  /** `map { filter($0) }` */
  function Keys<T, K(==)>(s: seq<T>, f: T -> K): (ks: seq<K>)
    ensures |ks| == |s| && forall i | 0 <= i < |s| :: ks[i] == f(s[i])
  {
    seq(|s|, i requires 0 <= i < |s| => f(s[i]))
  }

  /** The keys that occur in `s`. */
  function KeySet<T, K(==)>(s: seq<T>, f: T -> K): set<K>
  {
    set i | 0 <= i < |s| :: f(s[i])
  }

  lemma KeySetAppend<T, K>(s: seq<T>, x: T, f: T -> K)
    ensures KeySet(s + [x], f) == KeySet(s, f) + {f(x)}
  {
    var t := s + [x];
    assert f(t[|s|]) == f(x);
    forall k | k in KeySet(s, f)
      ensures k in KeySet(t, f)
    {
      var i :| 0 <= i < |s| && f(s[i]) == k;
      assert t[i] == s[i];
    }
  }

  lemma KeySetPrefix<T, K>(s: seq<T>, f: T -> K)
    requires s != []
    ensures KeySet(s, f) == KeySet(s[..|s| - 1], f) + {f(s[|s| - 1])}
  {
    KeySetAppend(s[..|s| - 1], s[|s| - 1], f);
    assert s[..|s| - 1] + [s[|s| - 1]] == s;
  }

  /** No two elements of `s` share a key. */
  predicate DistinctKeys<T, K(==)>(s: seq<T>, f: T -> K)
  {
    forall i, j | 0 <= i < j < |s| :: f(s[i]) != f(s[j])
  }

  /** `a` is `b` with some elements left out, the rest in order. */
  ghost predicate IsSubsequence<T>(a: seq<T>, b: seq<T>)
    decreases |b|
  {
    if a == [] then true
    else if b == [] then false
    else if a[|a| - 1] == b[|b| - 1] then IsSubsequence(a[..|a| - 1], b[..|b| - 1])
    else IsSubsequence(a, b[..|b| - 1])
  }

  // ---------------------------------------------------------------------
  // filterDuplicates
  // ---------------------------------------------------------------------

  /** `s[i]` is the first element of `s` with its key. */
  predicate IsFirst<T, K(==)>(s: seq<T>, f: T -> K, i: nat)
    requires i < |s|
  {
    forall j | 0 <= j < i :: f(s[j]) != f(s[i])
  }

  /** Reference definition: the elements that are the first with their key, in order. */
  function FirstByKey<T, K(==)>(s: seq<T>, f: T -> K): seq<T>
  {
    if s == [] then []
    else FirstByKey(s[..|s| - 1], f) + (if IsFirst(s, f, |s| - 1) then [s[|s| - 1]] else [])
  }

  /** The kept elements carry every key of the input and no other. */
  lemma {:induction false} FirstByKeyKeys<T, K>(s: seq<T>, f: T -> K)
    ensures KeySet(FirstByKey(s, f), f) == KeySet(s, f)
  {
    if s != [] {
      var init, x := s[..|s| - 1], s[|s| - 1];
      FirstByKeyKeys(init, f);
      KeySetPrefix(s, f);
      if IsFirst(s, f, |s| - 1) {
        KeySetAppend(FirstByKey(init, f), x, f);
      } else {
        assert FirstByKey(s, f) == FirstByKey(init, f);
        var j :| 0 <= j < |s| - 1 && f(s[j]) == f(x);
        assert f(init[j]) == f(x);
        assert f(x) in KeySet(init, f);
      }
    }
  }

  /** No two kept elements share a key. */
  lemma {:induction false} FirstByKeyDistinct<T, K>(s: seq<T>, f: T -> K)
    ensures DistinctKeys(FirstByKey(s, f), f)
  {
    if s != [] {
      var init, x := s[..|s| - 1], s[|s| - 1];
      var r := FirstByKey(init, f);
      FirstByKeyDistinct(init, f);
      if IsFirst(s, f, |s| - 1) {
        FirstByKeyKeys(init, f);
        forall i | 0 <= i < |r|
          ensures f(r[i]) != f(x)
        {
          assert f(r[i]) in KeySet(r, f);
          var j :| 0 <= j < |init| && f(init[j]) == f(r[i]);
          assert s[j] == init[j];
        }
      }
    }
  }

  /** The kept elements are a subsequence of the input. */
  lemma {:induction false} FirstByKeySubsequence<T, K>(s: seq<T>, f: T -> K)
    ensures IsSubsequence(FirstByKey(s, f), s)
  {
    if s != [] {
      var init := s[..|s| - 1];
      FirstByKeySubsequence(init, f);
      var r := FirstByKey(s, f);
      if IsFirst(s, f, |s| - 1) {
        assert r[..|r| - 1] == FirstByKey(init, f);
        assert r[|r| - 1] == s[|s| - 1];
      } else {
        assert r == FirstByKey(init, f);
        SubsequenceOfLonger(FirstByKey(init, f), init, s[|s| - 1]);
        assert init + [s[|s| - 1]] == s;
      }
    }
  }

  lemma {:induction false} SubsequenceOfLonger<T>(a: seq<T>, b: seq<T>, x: T)
    requires IsSubsequence(a, b)
    ensures IsSubsequence(a, b + [x])
    decreases |b|, 1
  {
    var bx := b + [x];
    assert bx[..|bx| - 1] == b;
    if a != [] && a[|a| - 1] == x {
      SubsequenceDropLast(a, b);
    }
  }

  lemma {:induction false} SubsequenceDropLast<T>(a: seq<T>, b: seq<T>)
    requires a != [] && IsSubsequence(a, b)
    ensures IsSubsequence(a[..|a| - 1], b)
    decreases |b|, 0
  {
    if b != [] {
      if a[|a| - 1] == b[|b| - 1] {
        SubsequenceOfLonger(a[..|a| - 1], b[..|b| - 1], b[|b| - 1]);
        assert b[..|b| - 1] + [b[|b| - 1]] == b;
      } else {
        SubsequenceDropLast(a, b[..|b| - 1]);
        SubsequenceOfLonger(a[..|a| - 1], b[..|b| - 1], b[|b| - 1]);
        assert b[..|b| - 1] + [b[|b| - 1]] == b;
      }
    }
  }

  /** Exactly the elements that are first with their key are kept. */
  lemma {:induction false} FirstByKeyKeepsFirsts<T, K>(s: seq<T>, f: T -> K)
    ensures forall i | 0 <= i < |s| && IsFirst(s, f, i) :: s[i] in FirstByKey(s, f)
    ensures forall x | x in FirstByKey(s, f) :: exists i | 0 <= i < |s| && IsFirst(s, f, i) :: s[i] == x
  {
    if s != [] {
      var init := s[..|s| - 1];
      FirstByKeyKeepsFirsts(init, f);
      var r := FirstByKey(s, f);
      assert forall i | 0 <= i < |init| :: s[i] == init[i];
      assert forall i | 0 <= i < |init| :: IsFirst(s, f, i) == IsFirst(init, f, i);
      forall x | x in r
        ensures exists i | 0 <= i < |s| && IsFirst(s, f, i) :: s[i] == x
      {
        if x in FirstByKey(init, f) {
          var i :| 0 <= i < |init| && IsFirst(init, f, i) && init[i] == x;
          assert IsFirst(s, f, i) && s[i] == x;
        } else {
          assert IsFirst(s, f, |s| - 1) && s[|s| - 1] == x;
        }
      }
    }
  }

  /** A sequence whose keys are already distinct is kept whole. */
  lemma {:induction false} FirstByKeyOfDistinct<T, K>(s: seq<T>, f: T -> K)
    requires DistinctKeys(s, f)
    ensures FirstByKey(s, f) == s
  {
    if s != [] {
      var init := s[..|s| - 1];
      assert DistinctKeys(init, f);
      FirstByKeyOfDistinct(init, f);
      assert init + [s[|s| - 1]] == s;
    }
  }

  /** Removing duplicates twice is removing them once. */
  lemma FirstByKeyIdempotent<T, K>(s: seq<T>, f: T -> K)
    ensures FirstByKey(FirstByKey(s, f), f) == FirstByKey(s, f)
  {
    FirstByKeyDistinct(s, f);
    FirstByKeyOfDistinct(FirstByKey(s, f), f);
  }

  /** The loop's test: the key is new exactly when no earlier element has it. */
  lemma NewKeyTest<T, K>(p: seq<T>, x: T, f: T -> K)
    ensures f(x) !in Keys(FirstByKey(p, f), f) <==> IsFirst(p + [x], f, |p|)
  {
    var s := p + [x];
    var r := FirstByKey(p, f);
    FirstByKeyKeys(p, f);
    if f(x) in Keys(r, f) {
      var i :| 0 <= i < |r| && Keys(r, f)[i] == f(x);
      assert f(r[i]) in KeySet(r, f);
      var j :| 0 <= j < |p| && f(p[j]) == f(x);
      assert s[j] == p[j];
    }
    if !IsFirst(s, f, |p|) {
      var j :| 0 <= j < |p| && f(s[j]) == f(x);
      assert s[j] == p[j];
      assert f(x) in KeySet(p, f);
      var i :| 0 <= i < |r| && f(r[i]) == f(x);
      assert Keys(r, f)[i] == f(x);
    }
  }

  /** `filterDuplicates`: keeps each element whose key is not yet among the kept ones. */
  method FilterDuplicates<T, K(==)>(s: seq<T>, filter: T -> K) returns (result: seq<T>)
    ensures result == FirstByKey(s, filter)
    ensures DistinctKeys(result, filter) && KeySet(result, filter) == KeySet(s, filter)
  {
    result := [];
    var i := 0;
    while i < |s|
      invariant 0 <= i <= |s|
      invariant result == FirstByKey(s[..i], filter)
    {
      var value := s[i];
      var key := filter(value);
      assert s[..i + 1] == s[..i] + [value];
      NewKeyTest(s[..i], value, filter);
      if key !in Keys(result, filter) {
        result := result + [value];
      }
      i := i + 1;
    }
    assert s[..|s|] == s;
    FirstByKeyDistinct(s, filter);
    FirstByKeyKeys(s, filter);
  }

  // ---------------------------------------------------------------------
  // group(by:)
  // ---------------------------------------------------------------------

  /** The elements with key `k`, in their original order. */
  function Members<T, K(==)>(s: seq<T>, f: T -> K, k: K): seq<T>
  {
    if s == [] then []
    else Members(s[..|s| - 1], f, k) + (if f(s[|s| - 1]) == k then [s[|s| - 1]] else [])
  }

  /** Reference definition of the grouping: each key of `s` to its members. */
  function Grouped<T, K(==)>(s: seq<T>, f: T -> K): map<K, seq<T>>
  {
    map k | k in KeySet(s, f) :: Members(s, f, k)
  }

  /** A group holds exactly the elements with its key, in order. */
  lemma {:induction false} MembersHaveKey<T, K>(s: seq<T>, f: T -> K, k: K)
    ensures forall i | 0 <= i < |Members(s, f, k)| :: f(Members(s, f, k)[i]) == k
    ensures IsSubsequence(Members(s, f, k), s)
  {
    if s != [] {
      var init := s[..|s| - 1];
      MembersHaveKey(init, f, k);
      var m := Members(s, f, k);
      if f(s[|s| - 1]) == k {
        assert m[..|m| - 1] == Members(init, f, k);
      } else {
        assert m == Members(init, f, k);
        SubsequenceOfLonger(Members(init, f, k), init, s[|s| - 1]);
        assert init + [s[|s| - 1]] == s;
      }
    }
  }

  /** A key has a non-empty group exactly when it occurs. */
  lemma {:induction false} MembersNonEmpty<T, K>(s: seq<T>, f: T -> K, k: K)
    ensures Members(s, f, k) != [] <==> k in KeySet(s, f)
  {
    if s != [] {
      MembersNonEmpty(s[..|s| - 1], f, k);
      KeySetPrefix(s, f);
    }
  }

  /** Appending one element extends exactly the group of its key. */
  lemma GroupedStep<T, K>(p: seq<T>, x: T, f: T -> K)
    ensures var g := Grouped(p, f);
      Grouped(p + [x], f) == g[f(x) := (if f(x) in g then g[f(x)] else []) + [x]]
  {
    var s := p + [x];
    var g := Grouped(p, f);
    var g' := g[f(x) := (if f(x) in g then g[f(x)] else []) + [x]];
    KeySetAppend(p, x, f);
    assert s[..|s| - 1] == p;
    forall k | k in KeySet(s, f)
      ensures Members(s, f, k) == g'[k]
    {
      if k != f(x) {
        assert Members(s, f, k) == Members(p, f, k);
      } else if f(x) !in g {
        MembersNonEmpty(p, f, k);
      }
    }
  }

  /** The group of each key fills a dictionary, one element at a time. */
  method Categorize<T, K(==)>(s: seq<T>, key: T -> K) returns (categories: map<K, seq<T>>)
    ensures categories == Grouped(s, key)
  {
    categories := map[];
    var i := 0;
    while i < |s|
      invariant 0 <= i <= |s|
      invariant categories == Grouped(s[..i], key)
    {
      var element := s[i];
      var k := key(element);
      assert s[..i + 1] == s[..i] + [element];
      GroupedStep(s[..i], element, key);
      if k in categories {
        categories := categories[k := categories[k] + [element]];
      } else {
        assert [] + [element] == [element];
        categories := categories[k := [element]];
      }
      assert categories == Grouped(s[..i] + [element], key);
      i := i + 1;
    }
    assert s[..|s| - 0] == s;
  }

  /**
   * `group(by:) -> [U: [Element]]`: every key of the input maps to the
   * elements with that key, in their original order; no group is empty.
   */
  method GroupDictionary<T, K(==)>(s: seq<T>, key: T -> K) returns (result: map<K, seq<T>>)
    ensures result.Keys == KeySet(s, key)
    ensures forall k | k in result :: result[k] == Members(s, key, k) && result[k] != []
  {
    var categories := Categorize(s, key);
    result := map[];
    var remaining := categories.Keys;
    while remaining != {}
      invariant remaining <= categories.Keys
      invariant result.Keys == categories.Keys - remaining
      invariant forall k | k in result :: result[k] == categories[k]
      decreases |remaining|
    {
      var k :| k in remaining;
      result := result[k := categories[k]];
      remaining := remaining - {k};
    }
    forall k | k in result
      ensures result[k] != []
    {
      MembersNonEmpty(s, key, k);
    }
  }

  /** The sizes of the groups of the keys in `ks`, added up. */
  function SumSizes<T, K(==)>(s: seq<T>, f: T -> K, ks: seq<K>): nat
  {
    if ks == [] then 0 else SumSizes(s, f, ks[..|ks| - 1]) + |Members(s, f, ks[|ks| - 1])|
  }

  predicate Distinct<K(==)>(ks: seq<K>)
  {
    forall i, j | 0 <= i < j < |ks| :: ks[i] != ks[j]
  }

  lemma {:induction false} SumSizesStep<T, K>(p: seq<T>, x: T, f: T -> K, ks: seq<K>)
    requires Distinct(ks)
    ensures SumSizes(p + [x], f, ks) == SumSizes(p, f, ks) + (if f(x) in ks then 1 else 0)
  {
    var s := p + [x];
    assert s[..|s| - 1] == p;
    if ks != [] {
      var front := ks[..|ks| - 1];
      assert Distinct(front);
      SumSizesStep(p, x, f, front);
      assert f(x) in ks <==> f(x) in front || f(x) == ks[|ks| - 1];
      if f(x) == ks[|ks| - 1] {
        assert f(x) !in front;
      }
    }
  }

  /** Over any list of distinct keys covering the input, the group sizes add up to its length. */
  lemma {:induction false} GroupSizesSum<T, K>(s: seq<T>, f: T -> K, ks: seq<K>)
    requires Distinct(ks)
    requires forall k | k in KeySet(s, f) :: k in ks
    ensures SumSizes(s, f, ks) == |s|
  {
    if s == [] {
      EmptyGroups(f, ks);
    } else {
      var init := s[..|s| - 1];
      KeySetPrefix(s, f);
      GroupSizesSum(init, f, ks);
      SumSizesStep(init, s[|s| - 1], f, ks);
      assert init + [s[|s| - 1]] == s;
    }
  }

  lemma {:induction false} EmptyGroups<T, K>(f: T -> K, ks: seq<K>)
    ensures SumSizes([], f, ks) == 0
  {
    if ks != [] {
      EmptyGroups(f, ks[..|ks| - 1]);
    }
  }

  /** The set of the keys in a list. */
  function Elements<K(==)>(ks: seq<K>): set<K>
  {
    if ks == [] then {} else Elements(ks[..|ks| - 1]) + {ks[|ks| - 1]}
  }

  lemma {:induction false} ElementsMembership<K>(ks: seq<K>, k: K)
    ensures k in Elements(ks) <==> k in ks
  {
    if ks != [] {
      var front := ks[..|ks| - 1];
      ElementsMembership(front, k);
      assert ks == front + [ks[|ks| - 1]];
    }
  }

  lemma {:induction false} DistinctCardinality<K>(ks: seq<K>)
    requires Distinct(ks)
    ensures |Elements(ks)| == |ks|
  {
    if ks != [] {
      var front := ks[..|ks| - 1];
      assert Distinct(front);
      DistinctCardinality(front);
      ElementsMembership(front, ks[|ks| - 1]);
    }
  }

  /** One array per key of a duplicate-free key list covering the input: the groups, each once. */
  lemma GroupsOfKeys<T, K>(s: seq<T>, key: T -> K, categories: map<K, seq<T>>, keys: seq<K>, groups: seq<seq<T>>)
    requires categories == Grouped(s, key)
    requires Distinct(keys) && |keys| == |groups|
    requires forall i | 0 <= i < |keys| :: keys[i] in categories && groups[i] == categories[keys[i]]
    requires forall k | k in categories :: k in keys
    ensures |groups| == |KeySet(s, key)|
    ensures forall k | k in KeySet(s, key) :: Members(s, key, k) in groups
    ensures forall i | 0 <= i < |groups| :: exists k | k in KeySet(s, key) :: groups[i] == Members(s, key, k)
  {
    DistinctCardinality(keys);
    var e := Elements(keys);
    var present := KeySet(s, key);
    forall k | k in e
      ensures k in present
    {
      ElementsMembership(keys, k);
      var i :| 0 <= i < |keys| && keys[i] == k;
    }
    forall k | k in present
      ensures k in e
    {
      assert k in categories;
      ElementsMembership(keys, k);
    }
    assert e == present;
    forall k | k in KeySet(s, key)
      ensures Members(s, key, k) in groups
    {
      assert k in categories;
      var i :| 0 <= i < |keys| && keys[i] == k;
      assert groups[i] == Members(s, key, k);
    }
    forall i | 0 <= i < |groups|
      ensures exists k | k in KeySet(s, key) :: groups[i] == Members(s, key, k)
    {
      assert keys[i] in KeySet(s, key);
    }
  }

  /**
   * `group(by:) -> [[Element]]`: the dictionary's groups, one array per
   * key; their order follows the dictionary and is not specified.
   */
  method GroupArrays<T, K(==)>(s: seq<T>, key: T -> K) returns (groups: seq<seq<T>>)
    ensures |groups| == |KeySet(s, key)|
    ensures forall k | k in KeySet(s, key) :: Members(s, key, k) in groups
    ensures forall i | 0 <= i < |groups| :: exists k | k in KeySet(s, key) :: groups[i] == Members(s, key, k)
  {
    var categories := Categorize(s, key);
    groups := [];
    ghost var keys: seq<K> := [];
    var remaining := categories.Keys;
    while remaining != {}
      invariant remaining <= categories.Keys
      invariant |keys| == |groups| && Distinct(keys)
      invariant forall i | 0 <= i < |keys| :: keys[i] in categories && keys[i] !in remaining
      invariant forall i | 0 <= i < |keys| :: groups[i] == categories[keys[i]]
      invariant forall k | k in categories && k !in remaining :: k in keys
      decreases |remaining|
    {
      var k :| k in remaining;
      groups := groups + [categories[k]];
      keys := keys + [k];
      remaining := remaining - {k};
    }
    GroupsOfKeys(s, key, categories, keys, groups);
  }
}
