/** Generic sequence helpers shared by the handlers and the pages: a first-match
    search (LINQ's FirstOrDefault, JavaScript's find) and an order-keeping filter
    (LINQ's Where, JavaScript's Array.prototype.filter). */
module Seqs {
  import opened Wrappers

  /** Index of the first element satisfying `p`, or None when there is none. */
  function FindFirst<T>(xs: seq<T>, p: T -> bool): (r: Option<nat>)
    ensures r.Some? ==> r.value < |xs| && p(xs[r.value])
    ensures r.Some? ==> forall k | 0 <= k < r.value :: !p(xs[k])
    ensures r.None? <==> forall k | 0 <= k < |xs| :: !p(xs[k])
    decreases |xs|
  {
    if |xs| == 0 then None
    else if p(xs[0]) then Some(0)
    else
      match FindFirst(xs[1..], p)
      case None =>
        assert forall k | 1 <= k < |xs| :: xs[k] == xs[1..][k - 1];
        None
      case Some(i) =>
        assert forall k | 1 <= k <= i :: xs[k] == xs[1..][k - 1];
        Some(i + 1)
  }

  /** The elements satisfying `p`, in their original order. */
  function Filter<T>(xs: seq<T>, p: T -> bool): (r: seq<T>)
    ensures |r| <= |xs|
    decreases |xs|
  {
    if |xs| == 0 then []
    else if p(xs[0]) then [xs[0]] + Filter(xs[1..], p)
    else Filter(xs[1..], p)
  }

  /** The filter keeps exactly the elements satisfying `p`. */
  lemma {:induction false} FilterMembers<T>(xs: seq<T>, p: T -> bool)
    ensures forall x | x in Filter(xs, p) :: x in xs && p(x)
    ensures forall k | 0 <= k < |xs| && p(xs[k]) :: xs[k] in Filter(xs, p)
    decreases |xs|
  {
    if |xs| > 0 {
      FilterMembers(xs[1..], p);
      assert forall k | 1 <= k < |xs| :: xs[k] == xs[1..][k - 1];
    }
  }

  /** Number of elements satisfying `p`. */
  function Count<T>(xs: seq<T>, p: T -> bool): nat {
    |Filter(xs, p)|
  }

  /** Filtering distributes over concatenation, so the filter keeps order. */
  lemma {:induction false} FilterConcat<T>(a: seq<T>, b: seq<T>, p: T -> bool)
    ensures Filter(a + b, p) == Filter(a, p) + Filter(b, p)
    decreases |a|
  {
    if |a| == 0 {
      assert a + b == b;
    } else {
      var ab := a + b;
      assert ab[0] == a[0];
      assert ab[1..] == a[1..] + b;
      FilterConcat(a[1..], b, p);
    }
  }

  /** A filter that rejects nothing is the identity. */
  lemma {:induction false} FilterKeepsAll<T>(xs: seq<T>, p: T -> bool)
    requires forall k | 0 <= k < |xs| :: p(xs[k])
    ensures Filter(xs, p) == xs
    decreases |xs|
  {
    if |xs| > 0 {
      FilterKeepsAll(xs[1..], p);
    }
  }

  // The sequence identities below are kept apart from any Filter term: proved
  // next to Filter's definition they make the solver unfold it without end.

  lemma SplitJoin<T>(xs: seq<T>, i: nat)
    requires i <= |xs|
    ensures xs[..i] + xs[i..] == xs
  {
  }

  lemma SuffixParts<T>(xs: seq<T>, i: nat)
    requires i < |xs|
    ensures xs[i..][0] == xs[i] && xs[i..][1..] == xs[i + 1..]
  {
  }

  lemma UpdateParts<T>(xs: seq<T>, i: nat, v: T)
    requires i < |xs|
    ensures xs[i := v][..i] == xs[..i] && xs[i := v][i + 1..] == xs[i + 1..]
    ensures xs[i := v][i] == v
  {
  }

  lemma ConcatEmpty<T>(a: seq<T>, b: seq<T>)
    ensures a + [] + b == a + b
  {
  }

  /** Splitting a sequence around position `i`. */
  lemma FilterAround<T>(xs: seq<T>, i: nat, p: T -> bool)
    requires i < |xs|
    ensures Filter(xs, p) == Filter(xs[..i], p) + (if p(xs[i]) then [xs[i]] else []) + Filter(xs[i + 1..], p)
  {
    SplitJoin(xs, i);
    FilterConcat(xs[..i], xs[i..], p);
    SuffixParts(xs, i);
  }

  /** Replacing an element the filter rejects by another it rejects leaves the
      filtered sequence unchanged. */
  lemma FilterUpdateRejected<T>(xs: seq<T>, i: nat, v: T, p: T -> bool)
    requires i < |xs| && !p(xs[i]) && !p(v)
    ensures Filter(xs[i := v], p) == Filter(xs, p)
  {
    FilterAround(xs, i, p);
    UpdateParts(xs, i, v);
    FilterAround(xs[i := v], i, p);
  }

  /** Replacing an element the filter keeps by another it keeps leaves the
      count unchanged. */
  lemma CountUpdateKept<T>(xs: seq<T>, i: nat, v: T, p: T -> bool)
    requires i < |xs| && p(xs[i]) && p(v)
    ensures Count(xs[i := v], p) == Count(xs, p)
  {
    FilterAround(xs, i, p);
    UpdateParts(xs, i, v);
    FilterAround(xs[i := v], i, p);
  }

  /** Deleting an element the filter rejects leaves the filtered sequence
      unchanged. */
  lemma FilterDeleteRejected<T>(xs: seq<T>, i: nat, p: T -> bool)
    requires i < |xs| && !p(xs[i])
    ensures Filter(xs[..i] + xs[i + 1..], p) == Filter(xs, p)
  {
    FilterAround(xs, i, p);
    FilterConcat(xs[..i], xs[i + 1..], p);
    ConcatEmpty(Filter(xs[..i], p), Filter(xs[i + 1..], p));
  }

  /** Deleting an element the filter keeps lowers the count by one. */
  lemma CountDeleteKept<T>(xs: seq<T>, i: nat, p: T -> bool)
    requires i < |xs| && p(xs[i])
    ensures Count(xs[..i] + xs[i + 1..], p) + 1 == Count(xs, p)
  {
    FilterAround(xs, i, p);
    FilterConcat(xs[..i], xs[i + 1..], p);
  }

  lemma ConcatNil<T>(a: seq<T>)
    ensures a + [] == a
  {
  }

  /** The filter of a one-element sequence. */
  lemma FilterSingleton<T>(x: T, p: T -> bool)
    ensures Filter([x], p) == if p(x) then [x] else []
  {
    assert [x][1..] == [];
  }

  /** Appending an element the filter rejects leaves the filtered sequence
      unchanged; appending one it keeps raises the count by one. */
  lemma FilterAppend<T>(xs: seq<T>, v: T, p: T -> bool)
    ensures !p(v) ==> Filter(xs + [v], p) == Filter(xs, p)
    ensures p(v) ==> Count(xs + [v], p) == Count(xs, p) + 1
  {
    FilterConcat(xs, [v], p);
    FilterSingleton(v, p);
    ConcatNil(Filter(xs, p));
  }

  /** The count is positive exactly when some element satisfies `p`. */
  lemma CountPositive<T>(xs: seq<T>, p: T -> bool)
    ensures Count(xs, p) > 0 <==> exists k | 0 <= k < |xs| :: p(xs[k])
  {
    FilterMembers(xs, p);
    if Count(xs, p) > 0 {
      var x := Filter(xs, p)[0];
      assert x in Filter(xs, p);
      var k :| 0 <= k < |xs| && xs[k] == x;
    }
  }

  /** Filtering twice by the same predicate is filtering once. */
  lemma {:induction false} FilterIdempotent<T>(xs: seq<T>, p: T -> bool)
    ensures Filter(Filter(xs, p), p) == Filter(xs, p)
    decreases |xs|
  {
    if |xs| > 0 {
      FilterIdempotent(xs[1..], p);
      if p(xs[0]) {
        var rest := Filter(xs[1..], p);
        assert ([xs[0]] + rest)[0] == xs[0];
        assert ([xs[0]] + rest)[1..] == rest;
      }
    }
  }
}
