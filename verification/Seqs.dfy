/** Sequences: stretches of elements mapped one by one, and the newest elements. */
module Seqs {

  function FlatMap<A, B>(f: A -> seq<B>, s: seq<A>): seq<B> {
    if s == [] then [] else f(s[0]) + FlatMap(f, s[1..])
  }

  lemma {:induction false} FlatMapConcat<A, B>(f: A -> seq<B>, a: seq<A>, b: seq<A>)
    ensures FlatMap(f, a + b) == FlatMap(f, a) + FlatMap(f, b)
  {
    if a == [] {
      assert a + b == b;
    } else {
      assert (a + b)[1..] == a[1..] + b;
      FlatMapConcat(f, a[1..], b);
    }
  }

  lemma FlatMapOne<A, B>(f: A -> seq<B>, x: A)
    ensures FlatMap(f, [x]) == f(x)
  {
    assert [x][1..] == [];
    assert FlatMap(f, [x]) == f(x) + [];
  }

  lemma FlatMapAppend<A, B>(f: A -> seq<B>, a: seq<A>, x: A)
    ensures FlatMap(f, a + [x]) == FlatMap(f, a) + f(x)
  {
    FlatMapConcat(f, a, [x]);
    FlatMapOne(f, x);
  }

  lemma FlatMapPrefix<A, B>(f: A -> seq<B>, s: seq<A>, i: nat)
    requires i < |s|
    ensures FlatMap(f, s[..i + 1]) == FlatMap(f, s[..i]) + f(s[i])
  {
    assert s[..i + 1] == s[..i] + [s[i]];
    FlatMapAppend(f, s[..i], s[i]);
  }

  lemma ConcatAssociates<B>(a: seq<B>, b: seq<B>, c: seq<B>)
    ensures a + (b + c) == (a + b) + c
  {
  }

  lemma RejoinAt<B>(s: seq<B>, n: nat, b: seq<B>, c: seq<B>)
    requires n <= |s| && b + c == s[n..]
    ensures (s[..n] + b) + c == s
  {
    assert (s[..n] + b) + c == s[..n] + (b + c);
  }

  lemma SliceOfRest<B>(s: seq<B>, pos: nat, i: nat, j: nat)
    requires pos + j <= |s| && i <= j
    ensures s[pos..][i..j] == s[pos + i..pos + j]
  {
  }

  /** The newest `n` elements, where the newest come last. */
  function Newest<T>(s: seq<T>, n: nat): seq<T> {
    if |s| <= n then s else s[|s| - n..]
  }

  function Joined<B>(chunks: seq<seq<B>>): seq<B> {
    if chunks == [] then [] else chunks[0] + Joined(chunks[1..])
  }

  /** What holds of nothing, and goes on to hold with each element, holds of every prefix. */
  lemma {:induction false} PrefixInduction<T>(s: seq<T>, good: seq<T> -> bool, k: nat)
    requires k <= |s| && good([])
    requires forall j {:trigger s[j]} :: 0 <= j < |s| && good(s[..j]) ==> good(s[..j] + [s[j]])
    ensures good(s[..k])
  {
    if k == 0 {
      assert s[..0] == [];
    } else {
      PrefixInduction(s, good, k - 1);
      assert s[..k] == s[..k - 1] + [s[k - 1]];
    }
  }

  /** Two sequences of one length whose elements stand in this relation, place by place. */
  predicate Pairwise<A, B>(a: seq<A>, b: seq<B>, related: (A, B) -> bool) {
    |a| == |b| && forall i :: 0 <= i < |a| ==> related(a[i], b[i])
  }

  lemma PairwiseLonger<A, B>(x: A, a: seq<A>, b: seq<B>, related: (A, B) -> bool)
    requires b != [] && related(x, b[0]) && Pairwise(a, b[1..], related)
    ensures Pairwise([x] + a, b, related)
  {
  }
}
