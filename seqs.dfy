/**
 * Sequence identities, stated once for any element type so that proofs
 * about rows, jobs and commands use them without unfolding the elements.
 */
module Seqs {
  lemma AppendAssoc<T>(a: seq<T>, b: seq<T>, c: seq<T>)
    ensures (a + b) + c == a + (b + c)
  {
  }

  lemma AppendEmpty<T>(a: seq<T>)
    ensures a + [] == a
  {
  }

  lemma PrefixStep<T>(s: seq<T>, i: nat)
    requires i < |s|
    ensures s[..i + 1] == s[..i] + [s[i]]
  {
  }

  lemma PrefixInit<T>(s: seq<T>, i: nat)
    requires i < |s|
    ensures |s[..i + 1]| == i + 1 && s[..i + 1][..i] == s[..i] && s[..i + 1][i] == s[i]
  {
  }

  lemma PrefixWhole<T>(s: seq<T>, i: nat)
    requires i == |s|
    ensures s[..i] == s
  {
  }

  lemma ConsThree<T>(a: T, b: T, c: T)
    ensures [a] + ([b] + ([c] + [])) == [a, b, c]
  {
  }

  /** The state after applying `f` to each element of `xs` in turn, starting from `s0`. */
  function Fold<S, T>(s0: S, xs: seq<T>, f: (S, T) -> S): S
  {
    if xs == [] then s0 else f(Fold(s0, xs[..|xs| - 1], f), xs[|xs| - 1])
  }

  /** One more element: the state reached after `xs[..i]`, updated by `xs[i]`. */
  lemma FoldNext<S, T>(s0: S, before: S, xs: seq<T>, f: (S, T) -> S, i: nat)
    requires i < |xs|
    requires before == Fold(s0, xs[..i], f)
    ensures Fold(s0, xs[..i + 1], f) == f(before, xs[i])
  {
    PrefixInit(xs, i);
  }
}
