/** Facts about sequences that the solver does not find on its own, stated
    once for any element type so that string and record proofs can cite
    them instead of re-deriving sequence equalities in a larger context. */
module Seqs {

  lemma AppendAssoc<T>(a: seq<T>, b: seq<T>, c: seq<T>)
    ensures a + b + c == a + (b + c)
  {
  }

  lemma PrefixOfAppend<T>(a: seq<T>, b: seq<T>)
    ensures (a + b)[..|a|] == a
  {
  }

  lemma LongPrefixOfAppend<T>(a: seq<T>, b: seq<T>, m: int)
    requires 0 <= m < |b|
    ensures (a + b)[..|a| + m] == a + b[..m] && (a + b)[|a| + m] == b[m]
  {
  }

  lemma SuffixOfAppend<T>(a: seq<T>, b: seq<T>)
    ensures (a + b)[|a|..] == b
  {
  }

  lemma SliceOfPrefix<T>(s: seq<T>, n: int, a: int, b: int)
    requires 0 <= a <= b <= n <= |s|
    ensures s[..n][a..b] == s[a..b]
  {
  }

  lemma SliceOfSuffix<T>(s: seq<T>, p: int, a: int, b: int)
    requires 0 <= p <= |s| && 0 <= a <= b <= |s| - p
    ensures s[p..][a..b] == s[p + a..p + b]
  {
  }

  lemma AppendEmpty<T>(a: seq<T>)
    ensures a + [] == a
  {
  }

  lemma SnocByElements<T>(e: seq<T>, e0: seq<T>, x: T)
    requires |e| == |e0| + 1 && e[|e0|] == x
    requires forall i :: 0 <= i < |e0| ==> e[i] == e0[i]
    ensures e == e0 + [x]
  {
  }

  lemma AppendEmptyLeft<T>(a: seq<T>)
    ensures [] + a == a
  {
  }
}
