/**
 * `withPrevious()` and `withPrevious(_:)` of Swift/PublisherExtension.swift,
 * on the finite sequence of elements an upstream publisher emits. The
 * Combine operators they are built from, `scan` and `compactMap`, are
 * modelled on sequences too.
 */
module PublisherExtension {
  import opened Wrappers

  /** `scan`: each element is combined with the previous accumulator; the seed is not emitted. */
  function Scan<A, T>(xs: seq<T>, seed: A, f: (A, T) -> A): (r: seq<A>)
    ensures |r| == |xs|
    ensures |xs| > 0 ==> r[0] == f(seed, xs[0])
    ensures forall i | 0 < i < |xs| :: r[i] == f(r[i - 1], xs[i])
  {
    if xs == [] then []
    else
      var init := Scan(xs[..|xs| - 1], seed, f);
      init + [f(if init == [] then seed else init[|init| - 1], xs[|xs| - 1])]
  }

  /** `compactMap { $0 }`: the present values, in order. */
  function CompactMap<T>(xs: seq<Option<T>>): (r: seq<T>)
    ensures |r| <= |xs|
    ensures (forall i | 0 <= i < |xs| :: xs[i].Some?) ==>
      |r| == |xs| && forall i | 0 <= i < |xs| :: r[i] == xs[i].value
  {
    if xs == [] then []
    else
      var init := CompactMap(xs[..|xs| - 1]);
      match xs[|xs| - 1]
      case None => init
      case Some(x) => init + [x]
  }

  /** The accumulator step of `withPrevious()`: `($0?.1, $1)`. */
  function PreviousStep<T>(acc: Option<(Option<T>, T)>, x: T): Option<(Option<T>, T)>
  {
    Some((if acc.Some? then Some(acc.value.1) else None, x))
  }

  /** The states `scan` goes through in `withPrevious()`, before `compactMap`. */
  function PreviousStates<T>(xs: seq<T>): (r: seq<Option<(Option<T>, T)>>)
    ensures |r| == |xs|
  {
    Scan(xs, None, PreviousStep)
  }

  /** `withPrevious()` */
  function WithPrevious<T>(xs: seq<T>): seq<(Option<T>, T)>
  {
    CompactMap(PreviousStates(xs))
  }

  /** `withPrevious(_:)` */
  function WithPreviousSeeded<T>(xs: seq<T>, initialPreviousValue: T): (r: seq<(T, T)>)
    ensures |r| == |xs|
  {
    Scan(xs, (initialPreviousValue, initialPreviousValue), (acc: (T, T), x: T) => (acc.1, x))
  }

  /** Every state of the scan is present and already holds the pair for its element. */
  lemma {:induction false} PreviousStateAt<T>(xs: seq<T>, i: nat)
    requires i < |xs|
    ensures PreviousStates(xs)[i] == Some((if i == 0 then None else Some(xs[i - 1]), xs[i]))
  {
    if i > 0 {
      PreviousStateAt(xs, i - 1);
    }
  }

  /**
   * `withPrevious()` emits one pair per element: the first with no
   * previous element, each later one with its predecessor.
   */
  lemma WithPreviousPairs<T>(xs: seq<T>)
    ensures |WithPrevious(xs)| == |xs|
    ensures |xs| > 0 ==> WithPrevious(xs)[0] == (None, xs[0])
    ensures forall i | 0 < i < |xs| :: WithPrevious(xs)[i] == (Some(xs[i - 1]), xs[i])
  {
    var states := PreviousStates(xs);
    forall i | 0 <= i < |xs|
      ensures states[i].Some? && states[i].value == (if i == 0 then None else Some(xs[i - 1]), xs[i])
    {
      PreviousStateAt(xs, i);
    }
  }

  /** `withPrevious(_:)` pairs each element with its predecessor, the first with the seed. */
  lemma {:induction false} WithPreviousSeededAt<T>(xs: seq<T>, initialPreviousValue: T, i: nat)
    requires i < |xs|
    ensures WithPreviousSeeded(xs, initialPreviousValue)[i] ==
      (if i == 0 then initialPreviousValue else xs[i - 1], xs[i])
  {
    if i > 0 {
      WithPreviousSeededAt(xs, initialPreviousValue, i - 1);
    }
  }

  /** The output of `withPrevious(_:)` is as long as the input and its `current` parts are the input. */
  lemma WithPreviousSeededCurrents<T>(xs: seq<T>, initialPreviousValue: T)
    ensures var r := WithPreviousSeeded(xs, initialPreviousValue);
      |r| == |xs| && (forall i | 0 <= i < |xs| :: r[i].1 == xs[i]) &&
      (|xs| > 0 ==> r[0].0 == initialPreviousValue) &&
      (forall i | 0 < i < |xs| :: r[i].0 == xs[i - 1])
  {
    var r := WithPreviousSeeded(xs, initialPreviousValue);
    forall i | 0 <= i < |xs|
      ensures r[i].1 == xs[i] && r[i].0 == (if i == 0 then initialPreviousValue else xs[i - 1])
    {
      WithPreviousSeededAt(xs, initialPreviousValue, i);
    }
  }

  /** The documented example: `(1...5)` gives `(nil, 1) (Optional(1), 2) … (Optional(4), 5)`. */
  lemma WithPreviousExample()
    ensures WithPrevious([1, 2, 3, 4, 5]) ==
      [(None, 1), (Some(1), 2), (Some(2), 3), (Some(3), 4), (Some(4), 5)]
  {
    WithPreviousPairs([1, 2, 3, 4, 5]);
  }

  /** The documented example: `(1...5)` with seed 0 gives `(0, 1) (1, 2) … (4, 5)`. */
  lemma WithPreviousSeededExample()
    ensures WithPreviousSeeded([1, 2, 3, 4, 5], 0) == [(0, 1), (1, 2), (2, 3), (3, 4), (4, 5)]
  {
    WithPreviousSeededCurrents([1, 2, 3, 4, 5], 0);
  }
}
