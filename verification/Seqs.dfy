/** Facts about concatenation that the verifier only needs pointed out. */
module Seqs {

  lemma Regroup3<T>(a: seq<T>, b: seq<T>, c: seq<T>)
    ensures a + b + c == a + (b + c)
  {
  }

  lemma Regroup4<T>(a: seq<T>, b: seq<T>, c: seq<T>, d: seq<T>)
    ensures a + b + c + d == a + (b + (c + d))
  {
  }

  lemma Append3<T>(a: seq<T>, b: seq<T>, c: seq<T>, d: seq<T>)
    ensures a + (b + c + d) == a + b + c + d
  {
  }

  lemma SplitFirst<T>(a: T, b: T, s: seq<T>)
    ensures [a, b] + s == [a] + ([b] + s)
  {
  }

  lemma SamePrefix<T>(a: seq<T>, b: seq<T>, c: seq<T>)
    requires a + b == a + c
    ensures b == c
  {
    assert (a + b)[|a|..] == b && (a + c)[|a|..] == c;
  }

  lemma SameSuffix<T>(a: seq<T>, b: seq<T>, z: seq<T>)
    requires a + z == b + z
    ensures a == b
  {
    assert a == (a + z)[..|a|] && b == (b + z)[..|b|];
  }

  lemma Halves<T>(s: seq<T>, n: nat)
    requires n <= |s|
    ensures s == s[..n] + s[n..]
  {
  }

  lemma TailParts<T>(s: seq<T>, p: nat, k: nat)
    requires p + k <= |s|
    ensures s[p..][..k] == s[p..p + k]
    ensures p + k < |s| ==> s[p..][k] == s[p + k] && s[p..][k + 1..] == s[p + k + 1..]
  {
  }

  lemma Cut<T>(s: seq<T>, i: nat)
    requires i < |s|
    ensures s == s[..i] + ([s[i]] + s[i + 1..])
  {
  }

  lemma SameHeads<T>(x: T, a: seq<T>, y: T, b: seq<T>)
    ensures [x] + a == [y] + b <==> x == y && a == b
  {
    assert ([x] + a)[0] == x && ([y] + b)[0] == y;
    assert ([x] + a)[1..] == a && ([y] + b)[1..] == b;
  }

  ghost predicate All<T>(p: T -> bool, s: seq<T>) {
    forall i | 0 <= i < |s| :: p(s[i])
  }

  lemma AllSnoc<T>(p: T -> bool, s: seq<T>)
    requires s != []
    ensures All(p, s) <==> All(p, s[..|s| - 1]) && p(s[|s| - 1])
  {
    assert forall i | 0 <= i < |s| - 1 :: s[..|s| - 1][i] == s[i];
  }

  lemma AllPlus<T>(p: T -> bool, s: seq<T>, x: T)
    ensures All(p, s + [x]) <==> All(p, s) && p(x)
  {
    AllSnoc(p, s + [x]);
    assert (s + [x])[..|s|] == s;
  }

  /** Two lists related element by element. */
  ghost predicate Pairwise<A, B>(rel: (A, B) -> bool, a: seq<A>, b: seq<B>) {
    |a| == |b| && forall i | 0 <= i < |a| :: rel(a[i], b[i])
  }

  lemma PairwiseAppend<A, B>(rel: (A, B) -> bool, a: seq<A>, b: seq<B>, c: seq<A>, d: seq<B>)
    requires Pairwise(rel, a, b) && Pairwise(rel, c, d)
    ensures Pairwise(rel, a + c, b + d)
  {
  }

  ghost predicate Increasing<T>(less: (T, T) -> bool, s: seq<T>) {
    forall i, j | 0 <= i < j < |s| :: less(s[i], s[j])
  }

  lemma IncreasingAppend<T>(less: (T, T) -> bool, s: seq<T>, t: seq<T>)
    requires Increasing(less, s) && Increasing(less, t)
    requires forall x, y | x in s && y in t :: less(x, y)
    ensures Increasing(less, s + t)
  {
    forall i, j | 0 <= i < j < |s + t|
      ensures less((s + t)[i], (s + t)[j])
    {
      assert i < |s| ==> s[i] in s;
      assert j >= |s| ==> t[j - |s|] in t;
    }
  }
}
