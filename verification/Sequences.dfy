/** Facts about sequences that several modules use. */
module Sequences {

  type byte = b: nat | b < 256

  lemma Assoc<T>(a: seq<T>, b: seq<T>, c: seq<T>)
    ensures (a + b) + c == a + (b + c)
  {
  }

  lemma Split<T>(s: seq<T>, i: nat, k: nat)
    requires i <= k <= |s|
    ensures s[..i] + s[i..k] == s[..k] && s[..k] + s[k..] == s && s[i..k] + s[k..] == s[i..]
    ensures s[..k][..i] == s[..i] && s[..k][i..] == s[i..k]
  {
  }

  /** The bytes p stand in f at position pos. */
  predicate Holds<T(==)>(f: seq<T>, pos: nat, p: seq<T>) {
    pos + |p| <= |f| && f[pos..pos + |p|] == p
  }

  lemma HoldsParts<T>(f: seq<T>, pos: nat, a: seq<T>, b: seq<T>)
    ensures Holds(f, pos, a + b) <==> Holds(f, pos, a) && Holds(f, pos + |a|, b)
  {
    if Holds(f, pos, a + b) {
      assert f[pos..pos + |a|] == f[pos..pos + |a + b|][..|a|] == (a + b)[..|a|] == a;
      assert f[pos + |a|..pos + |a + b|] == f[pos..pos + |a + b|][|a|..] == (a + b)[|a|..] == b;
    }
  }

  lemma HoldsWithin<T>(f: seq<T>, whole: seq<T>, pos: nat, p: seq<T>)
    requires Holds(f, 0, whole) && Holds(whole, pos, p)
    ensures Holds(f, pos, p)
  {
    assert f[pos..pos + |p|] == f[0..|whole|][pos..pos + |p|];
  }

  function Fill<T>(n: nat, x: T): (s: seq<T>)
    ensures |s| == n && forall i :: 0 <= i < n ==> s[i] == x
  {
    seq(n, _ => x)
  }

  ghost predicate Distinct<T>(s: seq<T>) {
    forall i, j :: 0 <= i < j < |s| ==> s[i] != s[j]
  }

  lemma DistinctAppend<T>(s: seq<T>, x: T)
    requires Distinct(s) && x !in s
    ensures Distinct(s + [x])
  {
  }
}
