/** Facts about sequences that several components use. */
module Sequences {

  lemma Regroup<T>(a: seq<T>, b: seq<T>, c: seq<T>)
    ensures a + (b + c) == (a + b) + c
  {
  }

  /** Cutting two sequences put together, in the second one. */
  lemma Cuts<T>(a: seq<T>, b: seq<T>, k: nat)
    requires |a| <= k <= |a| + |b|
    ensures (a + b)[k..] == b[k - |a|..] && (a + b)[..k] == a + b[..k - |a|]
  {
  }
}
