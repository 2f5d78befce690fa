/** Sequence facts shared by the reverser and the validator: byte reversal,
    bounded prefixes, and an Option type for lookups that can fail. */
module Seqs {

  datatype Option<T> = None | Some(value: T)

  function Min(a: int, b: int): (m: int) { if a <= b then a else b }

  function Max(a: int, b: int): (m: int) { if a <= b then b else a }

  /** The elements of s, last first. */
  function Reverse<T>(s: seq<T>): (r: seq<T>)
  {
    seq(|s|, i requires 0 <= i < |s| => s[|s| - 1 - i])
  }

  /** Reversal keeps the length, and position i holds the element mirrored around the middle. */
  lemma ReverseAt<T>(s: seq<T>, i: nat)
    requires i < |s|
    ensures |Reverse(s)| == |s| && Reverse(s)[i] == s[|s| - 1 - i]
  {
  }

  /** The empty sequence and a single element are their own reversal. */
  lemma ReverseShort<T>(s: seq<T>)
    requires |s| <= 1
    ensures Reverse(s) == s
  {
  }

  /** Reversing a concatenation reverses the order of the parts. */
  lemma ReverseAppend<T>(a: seq<T>, b: seq<T>)
    ensures Reverse(a + b) == Reverse(b) + Reverse(a)
  {
  }

  /** Reversal is its own inverse. */
  lemma ReverseInvolution<T>(s: seq<T>)
    ensures Reverse(Reverse(s)) == s
  {
  }

  /** For an odd length the middle element stays where it is. */
  lemma ReverseMiddle<T>(s: seq<T>)
    requires |s| % 2 == 1
    ensures Reverse(s)[|s| / 2] == s[|s| / 2]
  {
  }

  /** The first n elements of s, or all of s when it is shorter. */
  function Take<T>(s: seq<T>, n: nat): (prefix: seq<T>)
  {
    if |s| <= n then s else s[..n]
  }

  /** Cutting a concatenation at n: the cut part of a, then as much of b as still fits. */
  lemma TakeAppend<T>(a: seq<T>, b: seq<T>, n: nat)
    ensures |Take(a, n)| <= n
    ensures Take(a + b, n) == Take(a, n) + b[..Min(|b|, n - |Take(a, n)|)]
  {
    if |a| <= n {
      if |a + b| > n {
        assert (a + b)[..n] == a + b[..n - |a|];
      }
    } else {
      assert (a + b)[..n] == a[..n];
    }
  }

  /** Take is a prefix of its argument, and all of it once the bound is large enough. */
  lemma TakePrefix<T>(s: seq<T>, n: nat)
    ensures |Take(s, n)| == Min(|s|, n)
    ensures Take(s, n) == s[..|Take(s, n)|]
    ensures |s| <= n ==> Take(s, n) == s
  {
  }

  /** Cutting s at a bound that leaves its prefix p whole keeps p as a prefix. */
  lemma TakeKeepsPrefix<T>(s: seq<T>, p: seq<T>, n: nat)
    requires |p| <= n && |p| <= |s| && s[..|p|] == p
    ensures |Take(s, n)| >= |p| && Take(s, n)[..|p|] == p
  {
    if |s| > n {
      assert s[..n][..|p|] == s[..|p|];
    }
  }

  /** p is a prefix of p + x + y + z. */
  lemma PrefixOfConcat<T>(p: seq<T>, x: seq<T>, y: seq<T>, z: seq<T>)
    ensures |p + x + y + z| >= |p| && (p + x + y + z)[..|p|] == p
  {
    assert p + x + y + z == p + (x + y + z);
  }
}
