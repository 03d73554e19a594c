/** Sequence helpers shared by the loops of the model: a list built element
    by element, and a list of lists built and flattened in one pass. */
module Seqs {

  lemma AppendAssoc<T>(a: seq<T>, b: seq<T>, c: seq<T>)
    ensures (a + b) + c == a + (b + c)
  {
  }

  /** `[f(x) for x in xs]`. */
  function MapEach<A, B>(f: A -> B, xs: seq<A>): (ys: seq<B>)
    ensures |ys| == |xs|
  {
    if xs == [] then [] else MapEach(f, xs[..|xs| - 1]) + [f(xs[|xs| - 1])]
  }

  lemma {:induction false} MapEachAt<A, B>(f: A -> B, xs: seq<A>, k: int)
    requires 0 <= k < |xs|
    ensures MapEach(f, xs)[k] == f(xs[k])
  {
    var n := |xs| - 1;
    if k < n {
      MapEachAt(f, xs[..n], k);
      assert xs[..n][k] == xs[k];
    }
  }

  lemma MapEachAll<A, B>(f: A -> B, xs: seq<A>)
    ensures forall k :: 0 <= k < |xs| ==> MapEach(f, xs)[k] == f(xs[k])
  {
    forall k | 0 <= k < |xs| ensures MapEach(f, xs)[k] == f(xs[k]) {
      MapEachAt(f, xs, k);
    }
  }

  lemma MapEachPair<A, B>(f: A -> B, a: A, b: A)
    ensures MapEach(f, [a, b]) == [f(a), f(b)]
  {
    var xs := [a, b];
    assert xs[..1] == [a] && xs[..1][..0] == [];
  }

  lemma MapEachStep<A, B>(f: A -> B, xs: seq<A>, i: nat)
    requires i < |xs|
    ensures MapEach(f, xs[..i + 1]) == MapEach(f, xs[..i]) + [f(xs[i])]
  {
    assert xs[..i + 1][..i] == xs[..i];
  }

  /** The lists `f` gives for `xs`, concatenated in order. */
  function ConcatEach<A, B>(f: A -> seq<B>, xs: seq<A>): seq<B>
  {
    if xs == [] then [] else ConcatEach(f, xs[..|xs| - 1]) + f(xs[|xs| - 1])
  }

  lemma ConcatEachStep<A, B>(f: A -> seq<B>, xs: seq<A>, i: nat)
    requires i < |xs|
    ensures ConcatEach(f, xs[..i + 1]) == ConcatEach(f, xs[..i]) + f(xs[i])
  {
    assert xs[..i + 1][..i] == xs[..i];
  }

  /** An element of the concatenation comes from the list of some `xs[i]`. */
  lemma {:induction false} ConcatEachSound<A, B>(f: A -> seq<B>, xs: seq<A>, y: B) returns (i: int)
    requires y in ConcatEach(f, xs)
    ensures 0 <= i < |xs| && y in f(xs[i])
  {
    var n := |xs| - 1;
    if y in f(xs[n]) {
      i := n;
    } else {
      i := ConcatEachSound(f, xs[..n], y);
      assert xs[..n][i] == xs[i];
    }
  }

  lemma {:induction false} ConcatEachComplete<A, B>(f: A -> seq<B>, xs: seq<A>, i: int, y: B)
    requires 0 <= i < |xs| && y in f(xs[i])
    ensures y in ConcatEach(f, xs)
  {
    var n := |xs| - 1;
    if i < n {
      assert xs[..n][i] == xs[i];
      ConcatEachComplete(f, xs[..n], i, y);
    }
  }
}
