/**
 * `Array.prototype.map` over `seq`, defined element by element from the
 * front, and the in-place iteration that replaces each element of an array
 * by a callback's result.
 */
module JsArray {

  /** `xs.map(f)`: `f` applied to each element, in order. */
  function MapSeq<X, Y>(xs: seq<X>, f: X -> Y): (ys: seq<Y>)
    ensures |ys| == |xs|
    decreases |xs|
  {
    if xs == [] then [] else MapSeq(xs[..|xs| - 1], f) + [f(xs[|xs| - 1])]
  }

  /** Element `i` of the result is `f` of element `i`. */
  lemma {:induction false} MapSeqAt<X, Y>(xs: seq<X>, f: X -> Y, i: nat)
    requires i < |xs|
    ensures MapSeq(xs, f)[i] == f(xs[i])
    decreases |xs|
  {
    var n := |xs| - 1;
    if i < n {
      assert xs[..n][i] == xs[i];
      MapSeqAt(xs[..n], f, i);
    }
  }

  /** A sequence that agrees with `f` of `xs` at every index is `xs.map(f)`. */
  lemma MapSeqPointwise<X, Y>(xs: seq<X>, ys: seq<Y>, f: X -> Y)
    requires |ys| == |xs|
    requires forall k :: 0 <= k < |xs| ==> ys[k] == f(xs[k])
    ensures ys == MapSeq(xs, f)
  {
    forall k | 0 <= k < |xs| ensures ys[k] == MapSeq(xs, f)[k] {
      MapSeqAt(xs, f, k);
    }
  }

  /** `xs.filter(p)`: the elements `p` accepts, in their order. */
  function Filter<X>(xs: seq<X>, p: X -> bool): (ys: seq<X>)
    ensures |ys| <= |xs|
  {
    if xs == [] then [] else (if p(xs[0]) then [xs[0]] else []) + Filter(xs[1..], p)
  }

  /** Every element kept is accepted. */
  lemma {:induction false} FilterAccepted<X>(xs: seq<X>, p: X -> bool)
    ensures forall i :: 0 <= i < |Filter(xs, p)| ==> p(Filter(xs, p)[i])
  {
    if xs != [] {
      FilterAccepted(xs[1..], p);
      var rest := Filter(xs[1..], p);
      var ys := Filter(xs, p);
      forall i | 0 <= i < |ys| ensures p(ys[i]) {
        if p(xs[0]) && i > 0 {
          assert ys[i] == rest[i - 1];
        }
      }
    }
  }

  /** An element is kept exactly when it occurs and is accepted. */
  lemma {:induction false} FilterMembers<X>(xs: seq<X>, p: X -> bool)
    ensures forall x :: x in Filter(xs, p) <==> x in xs && p(x)
  {
    if xs != [] {
      FilterMembers(xs[1..], p);
      assert xs == [xs[0]] + xs[1..];
    }
  }

  /** When every element is accepted, all of them are kept, in order. */
  lemma {:induction false} FilterWhole<X>(xs: seq<X>, p: X -> bool)
    requires forall i :: 0 <= i < |xs| ==> p(xs[i])
    ensures Filter(xs, p) == xs
  {
    if xs != [] {
      FilterWhole(xs[1..], p);
      assert xs == [xs[0]] + xs[1..];
    }
  }

  /** Filtering works piece by piece: the kept elements keep their order and their repetitions. */
  lemma {:induction false} FilterConcat<X>(a: seq<X>, b: seq<X>, p: X -> bool)
    ensures Filter(a + b, p) == Filter(a, p) + Filter(b, p)
  {
    if a != [] {
      FilterConcat(a[1..], b, p);
      assert (a + b)[0] == a[0] && (a + b)[1..] == a[1..] + b;
    } else {
      assert a + b == b;
    }
  }

  /**
   * A callback run on every element in turn, each element replaced by what
   * the callback makes of it: afterwards the array holds `old(a).map(f)`.
   */
  method UpdateEach<T>(a: array<T>, f: T -> T)
    modifies a
    ensures a[..] == MapSeq(old(a[..]), f)
  {
    ghost var before := a[..];
    var i := 0;
    while i < a.Length
      invariant 0 <= i <= a.Length
      invariant forall k :: 0 <= k < i ==> a[k] == f(before[k])
      invariant forall k :: i <= k < a.Length ==> a[k] == before[k]
    {
      a[i] := f(a[i]);
      i := i + 1;
    }
    MapSeqPointwise(before, a[..], f);
  }
}
