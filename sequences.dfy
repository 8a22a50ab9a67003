/** Applying a function to every element of a sequence, in order. */
module Sequences {

  /** `xs.map(f)`. */
  function Map<A, B>(f: A --> B, xs: seq<A>): (r: seq<B>)
    requires forall i | 0 <= i < |xs| :: f.requires(xs[i])
    ensures |r| == |xs|
  {
    seq(|xs|, i requires 0 <= i < |xs| => f(xs[i]))
  }

  /** Mapping one more element appends its image. */
  lemma MapSnoc<A, B>(f: A --> B, xs: seq<A>, x: A)
    requires forall i | 0 <= i < |xs| :: f.requires(xs[i])
    requires f.requires(x)
    ensures forall i | 0 <= i < |xs + [x]| :: f.requires((xs + [x])[i])
    ensures Map(f, xs + [x]) == Map(f, xs) + [f(x)]
  {
    assert (xs + [x])[..|xs|] == xs;
  }

  /** The `k`th element of the image is the image of the `k`th element. */
  lemma MapAt<A, B>(f: A --> B, xs: seq<A>, k: nat)
    requires forall i | 0 <= i < |xs| :: f.requires(xs[i])
    requires k < |xs|
    ensures Map(f, xs)[k] == f(xs[k])
  {
  }

  /** Mapping a prefix one element longer appends that element's image. */
  lemma MapPrefix<A, B>(f: A --> B, xs: seq<A>, i: nat)
    requires forall j | 0 <= j < |xs| :: f.requires(xs[j])
    requires i < |xs|
    ensures Map(f, xs[..i + 1]) == Map(f, xs[..i]) + [f(xs[i])]
  {
    assert xs[..i + 1][..i] == xs[..i];
  }

  /** An element of a prefix other than its last is in the shorter prefix. */
  lemma InPrefix<T>(xs: seq<T>, n: nat, x: T)
    requires 0 < n <= |xs| && x in xs[..n] && x != xs[n - 1]
    ensures x in xs[..n - 1]
  {
    assert xs[..n] == xs[..n - 1] + [xs[n - 1]];
  }

  /** What a concatenation holds. */
  lemma InConcat<T>(xs: seq<T>, ys: seq<T>, x: T)
    ensures x in xs + ys <==> x in xs || x in ys
  {
  }
}
