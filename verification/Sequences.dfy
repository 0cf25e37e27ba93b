/** Facts about sequences that the proofs name rather than leave to be found. */
module Sequences {

  lemma Associate<T>(a: seq<T>, b: seq<T>, c: seq<T>)
    ensures a + (b + c) == a + b + c
  {
  }

  lemma Associate4<T>(a: seq<T>, b: seq<T>, c: seq<T>, d: seq<T>)
    ensures a + (b + c + d) == a + b + c + d
  {
  }

  lemma SplitThree<T>(s: seq<T>, i: nat, j: nat)
    requires i <= j <= |s|
    ensures s == s[..i] + s[i..j] + s[j..]
  {
  }

  lemma TakeOne<T>(s: seq<T>, i: nat)
    requires i < |s|
    ensures s[..i + 1] == s[..i] + [s[i]]
  {
  }

  /** A sequence cut in front of `n` and of `k`. */
  ghost predicate Cut<T>(tail: seq<T>, n: nat, k: nat, front: seq<T>, mid: seq<T>, rest: seq<T>) {
    n <= k <= |tail| && front == tail[..n] && mid == tail[n..] && rest == tail[k..]
  }

  lemma Slices<T>(s: seq<T>, i: nat, j: nat, k: nat)
    requires i <= j <= k <= |s|
    ensures Cut(s[i..], j - i, k - i, s[i..j], s[j..], s[k..])
  {
  }
}
