/** Facts about sequences that the string-building proofs share. */
module Sequences {

  lemma Associative<T>(a: seq<T>, b: seq<T>, c: seq<T>)
    ensures a + b + c == a + (b + c)
  {
  }

  /** A sequence is the part before index k, the element at k, and the rest. */
  lemma SplitAt<T>(s: seq<T>, k: nat)
    requires k < |s|
    ensures s == s[..k] + [s[k]] + s[k + 1..]
  {
    assert s[..k + 1] == s[..k] + [s[k]];
    assert s == s[..k + 1] + s[k + 1..];
  }

  /** An element of a part of a prefix is found at its offset in the whole. */
  lemma PrefixElement<T>(before: seq<T>, part: seq<T>, all: seq<T>, k: nat)
    requires before + part <= all && k < |part|
    ensures |before| + k < |all| && all[|before| + k] == part[k]
  {
    assert all[|before| + k] == (before + part)[|before| + k];
  }
}
