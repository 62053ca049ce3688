/** Python-style clamped slicing and small facts about growing prefixes. */
module Sequences {

  function Min(a: nat, b: nat): nat {
    if a <= b then a else b
  }

  /** The first n elements, or all of s when it is shorter (slice s[:n]). */
  function Take<T>(s: seq<T>, n: nat): (t: seq<T>)
    ensures |t| == Min(n, |s|)
  {
    if n <= |s| then s[..n] else s
  }

  /** All but the first n elements, or nothing when s is shorter (slice s[n:]). */
  function Drop<T>(s: seq<T>, n: nat): (d: seq<T>)
    ensures |d| == |s| - Min(n, |s|)
  {
    if n <= |s| then s[n..] else []
  }

  /** Taking at least the whole sequence takes all of it. */
  lemma TakeAll<T>(s: seq<T>, n: nat)
    requires |s| <= n
    ensures Take(s, n) == s
  {
  }

  /** Taking and dropping at the same place splits a sequence in two. */
  lemma TakeDrop<T>(s: seq<T>, n: nat)
    ensures Take(s, n) + Drop(s, n) == s
  {
  }

  /** Past the end of the first part, a concatenation reads the second. */
  lemma ConcatRight<T>(a: seq<T>, b: seq<T>, k: nat)
    requires |a| <= k < |a| + |b|
    ensures (a + b)[k] == b[k - |a|]
  {
  }

  /** A prefix followed by the next one or two elements is a longer prefix. */
  lemma PrefixGrowsByOne<T>(s: seq<T>, i: nat)
    requires i < |s|
    ensures s[..i] + [s[i]] == s[..i + 1]
  {
  }

  lemma PrefixGrowsByPair<T>(s: seq<T>, i: nat)
    requires i + 1 < |s|
    ensures s[..i] + [s[i], s[i + 1]] == s[..i + 2]
  {
  }
}
