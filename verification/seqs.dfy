/**
 * Laws of sequence concatenation that the verifier should not have to rediscover in a large context:
 * regrouping, empty parts, cutting at the seam, and taking elements and slices off either end. They hold
 * for all sequences and say nothing about mail; each is called where a proof has hidden everything else
 * and only needs this one step.
 */
module Seqs {

  lemma Assoc<T>(a: seq<T>, b: seq<T>, c: seq<T>)
    ensures a + (b + c) == (a + b) + c
  {
  }

  lemma Unit<T>(a: seq<T>)
    ensures a + [] == a && [] + a == a
  {
  }

  lemma Rejoin<T>(s: seq<T>, k: nat)
    requires k <= |s|
    ensures s[..k] + s[k..] == s
  {
  }

  /** Taking a nonempty front off a concatenation. */
  lemma DropFront<T>(a: seq<T>, b: seq<T>, k: nat)
    requires k <= |a|
    ensures (a + b)[..k] == a[..k] && (a + b)[k..] == a[k..] + b
  {
  }

  /** Cutting a concatenation behind the seam. */
  lemma DropFrontAcross<T>(a: seq<T>, b: seq<T>, k: nat)
    requires |a| <= k <= |a| + |b|
    ensures (a + b)[..k] == a + b[..k - |a|] && (a + b)[k..] == b[k - |a|..]
  {
  }

  /** Taking the last element off a concatenation. */
  lemma DropLast<T>(a: seq<T>, b: seq<T>)
    requires b != []
    ensures (a + b)[..|a + b| - 1] == a + b[..|b| - 1]
    ensures (a + b)[|a + b| - 1] == b[|b| - 1]
  {
  }

  /** A nonempty sequence is its front and its last element. */
  lemma Snoc<T>(s: seq<T>)
    requires s != []
    ensures s[..|s| - 1] + [s[|s| - 1]] == s
  {
  }

  /** A slice of what is behind a position. */
  lemma Behind<T>(s: seq<T>, at: nat, n: nat)
    requires at + n <= |s|
    ensures s[at..][..n] == s[at..at + n] && s[at..][n..] == s[at + n..]
  {
  }

  /** What is before an element, the element, and what is behind it. */
  lemma Pick<T>(s: seq<T>, n: nat)
    requires n < |s|
    ensures s[..n] + [s[n]] + s[n + 1..] == s
  {
  }

  /** The outer two of three parts. */
  lemma Ends<T>(a: seq<T>, b: seq<T>, c: seq<T>)
    ensures (a + b + c)[..|a|] == a && (a + b + c)[|a| + |b|..] == c
  {
  }

  /** A slice grows by one element. */
  lemma Grow<T>(s: seq<T>, a: nat, i: nat)
    requires a <= i < |s|
    ensures s[a..i + 1] == s[a..i] + [s[i]]
  {
  }

  /** A slice, cut at its end first. */
  lemma Slice<T>(s: seq<T>, a: nat, b: nat)
    requires a <= b <= |s|
    ensures s[a..b] == s[..b][a..]
  {
  }
}
