/** Order-preserving operations on sequences: what a Go loop that appends the
    elements passing a test, or the image of every element, to a fresh slice
    computes. */
module Subsequences {

  /** The elements of s that pass `keep`, in their original order. */
  function Filter<T>(s: seq<T>, keep: T -> bool): (r: seq<T>)
    ensures |r| <= |s|
  {
    if s == [] then []
    else
      var init := Filter(s[..|s| - 1], keep);
      if keep(s[|s| - 1]) then init + [s[|s| - 1]] else init
  }

  /** The positions of s that pass `keep`, in ascending order. */
  function KeptIndices<T>(s: seq<T>, keep: T -> bool): (ix: seq<nat>)
    ensures forall i :: 0 <= i < |ix| ==> ix[i] < |s| && keep(s[ix[i]])
    ensures forall i, j :: 0 <= i < j < |ix| ==> ix[i] < ix[j]
    ensures forall k :: 0 <= k < |s| && keep(s[k]) ==> k in ix
  {
    if s == [] then []
    else
      var init := KeptIndices(s[..|s| - 1], keep);
      if keep(s[|s| - 1]) then init + [|s| - 1] else init
  }

  /** Filter picks exactly the kept positions, in order: the result is the
      subsequence of s at KeptIndices. */
  lemma {:induction false} FilterAtKeptIndices<T>(s: seq<T>, keep: T -> bool)
    ensures |Filter(s, keep)| == |KeptIndices(s, keep)|
    ensures forall i :: 0 <= i < |Filter(s, keep)| ==> Filter(s, keep)[i] == s[KeptIndices(s, keep)[i]]
  {
    if s != [] {
      var init := s[..|s| - 1];
      FilterAtKeptIndices(init, keep);
      assert forall k :: 0 <= k < |init| ==> init[k] == s[k];
    }
  }

  /** An element is in the result exactly when it is in the input and passes. */
  lemma FilterMembership<T>(s: seq<T>, keep: T -> bool, x: T)
    ensures x in Filter(s, keep) <==> x in s && keep(x)
  {
    FilterAtKeptIndices(s, keep);
    var r, ix := Filter(s, keep), KeptIndices(s, keep);
    if x in r {
      var i :| 0 <= i < |r| && r[i] == x;
      assert s[ix[i]] == x;
    }
    if x in s && keep(x) {
      var k :| 0 <= k < |s| && s[k] == x;
      var i :| 0 <= i < |ix| && ix[i] == k;
      assert r[i] == x;
    }
  }

  /** The image of every element of s under f, in order. */
  function Map<A, B>(s: seq<A>, f: A -> B): seq<B> {
    if s == [] then [] else Map(s[..|s| - 1], f) + [f(s[|s| - 1])]
  }

  /** Map keeps the length, and each position holds the image of the element
      at that position. */
  lemma {:induction false} MapAt<A, B>(s: seq<A>, f: A -> B)
    ensures |Map(s, f)| == |s|
    ensures forall i :: 0 <= i < |s| ==> Map(s, f)[i] == f(s[i])
  {
    if s != [] {
      var init := s[..|s| - 1];
      MapAt(init, f);
      assert forall i :: 0 <= i < |init| ==> init[i] == s[i];
    }
  }

  /** Regrouping a concatenation of five parts after the first. */
  lemma AppendAfterFirst<T>(a: seq<T>, b: seq<T>, c: seq<T>, d: seq<T>, e: seq<T>)
    ensures a + b + c + d + e == a + (b + c + d + e)
  {
  }

  /** An element in none of four parts is not in their concatenation. */
  lemma NotInAppend<T>(x: T, a: seq<T>, b: seq<T>, c: seq<T>, d: seq<T>)
    requires x !in a && x !in b && x !in c && x !in d
    ensures x !in a + b + c + d
  {
  }
}
