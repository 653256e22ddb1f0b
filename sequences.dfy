/**
  Facts about taking and splitting sequences, stated once so that proofs
  about rows and records can cite them instead of re-deriving them.
*/
module Sequences {

  lemma TakeSnoc<T>(s: seq<T>, i: nat)
    requires i < |s|
    ensures s[..i + 1] == s[..i] + [s[i]]
  {
  }

  lemma TakeAll<T>(s: seq<T>)
    ensures s[..|s|] == s
  {
  }

  lemma SplitLast<T>(s: seq<T>)
    requires s != []
    ensures s == s[..|s| - 1] + [s[|s| - 1]]
  {
  }

  lemma SnocIndex<T>(a: seq<T>, x: T)
    ensures |a + [x]| == |a| + 1 && (a + [x])[|a|] == x
    ensures forall k :: 0 <= k < |a| ==> (a + [x])[k] == a[k]
  {
  }

  lemma TakeIndex<T>(s: seq<T>, i: nat)
    requires i <= |s|
    ensures forall k :: 0 <= k < i ==> s[..i][k] == s[k]
  {
  }

  lemma ConcatAssoc<T>(x: seq<T>, y: seq<T>, z: seq<T>)
    ensures x + (y + z) == (x + y) + z
  {
  }

  /** `f` applied to every element, in order. */
  function Map<A, B>(f: A --> B, s: seq<A>): (r: seq<B>)
    requires forall k :: 0 <= k < |s| ==> f.requires(s[k])
    ensures |r| == |s|
    ensures forall k :: 0 <= k < |s| ==> r[k] == f(s[k])
  {
    if s == [] then []
    else
      assert forall k :: 0 <= k < |s| - 1 ==> s[..|s| - 1][k] == s[k];
      Map(f, s[..|s| - 1]) + [f(s[|s| - 1])]
  }

  lemma MapSnoc<A, B>(f: A --> B, s: seq<A>, x: A)
    requires forall k :: 0 <= k < |s| ==> f.requires(s[k])
    requires f.requires(x)
    ensures forall k :: 0 <= k < |s + [x]| ==> f.requires((s + [x])[k])
    ensures Map(f, s + [x]) == Map(f, s) + [f(x)]
  {
    assert (s + [x])[..|s|] == s;
  }
}
