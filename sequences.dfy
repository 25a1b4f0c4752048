/**
 * The array methods the page chains: `map`, and `filter`, which keeps, in
 * order, the elements a callback accepts. The lemmas characterise a filter's
 * result as the subsequence at the accepted positions.
 */
module Sequences {

  /** `Array.prototype.map` */
  function Map<T, U>(s: seq<T>, f: T -> U): (r: seq<U>)
    ensures |r| == |s|
    ensures forall k :: 0 <= k < |s| ==> r[k] == f(s[k])
  {
    if s == [] then [] else [f(s[0])] + Map(s[1..], f)
  }

  /** `Array.prototype.filter` */
  function Filter<T>(s: seq<T>, keep: T -> bool): (r: seq<T>)
    ensures |r| <= |s|
  {
    if s == [] then []
    else
      var n := |s| - 1;
      Filter(s[..n], keep) + (if keep(s[n]) then [s[n]] else [])
  }

  /** The accepted positions, in increasing order. */
  function KeptIndices<T>(s: seq<T>, keep: T -> bool): seq<nat> {
    if s == [] then []
    else
      var n := |s| - 1;
      KeptIndices(s[..n], keep) + (if keep(s[n]) then [n] else [])
  }

  /**
   * The result is the subsequence of `s` at the kept positions; those
   * positions increase, and a position is kept exactly when its element is
   * accepted.
   */
  lemma {:induction false} FilterIsSubsequence<T>(s: seq<T>, keep: T -> bool)
    ensures var r, kept := Filter(s, keep), KeptIndices(s, keep);
      && |r| == |kept|
      && (forall k :: 0 <= k < |kept| ==> kept[k] < |s| && r[k] == s[kept[k]])
      && (forall k, l :: 0 <= k < l < |kept| ==> kept[k] < kept[l])
      && (forall j :: 0 <= j < |s| ==> (j in kept <==> keep(s[j])))
  {
    if s != [] {
      var n := |s| - 1;
      FilterIsSubsequence(s[..n], keep);
      assert forall j :: 0 <= j < n ==> s[..n][j] == s[j];
    }
  }

  /** An element is in the result exactly when it is in `s` and accepted. */
  lemma {:induction false} FilterElement<T>(s: seq<T>, keep: T -> bool, x: T)
    ensures x in Filter(s, keep) <==> x in s && keep(x)
  {
    if s != [] {
      var n := |s| - 1;
      FilterElement(s[..n], keep, x);
      assert s == s[..n] + [s[n]];
    }
  }

  /** Two callbacks that agree on every element give the same result. */
  lemma {:induction false} FilterSamePredicate<T>(s: seq<T>, keep: T -> bool, keep': T -> bool)
    requires forall x :: x in s ==> keep(x) == keep'(x)
    ensures Filter(s, keep) == Filter(s, keep')
  {
    if s != [] {
      var n := |s| - 1;
      assert s[n] in s;
      FilterSamePredicate(s[..n], keep, keep');
    }
  }

  /** When no element is accepted, the result is empty. */
  lemma {:induction false} FilterNone<T>(s: seq<T>, keep: T -> bool)
    requires forall x :: x in s ==> !keep(x)
    ensures Filter(s, keep) == []
  {
    if s != [] {
      var n := |s| - 1;
      assert s[n] in s;
      assert forall x :: x in s[..n] ==> x in s;
      FilterNone(s[..n], keep);
    }
  }

  /** When every element is accepted, the result is `s` itself. */
  lemma {:induction false} FilterAll<T>(s: seq<T>, keep: T -> bool)
    requires forall x :: x in s ==> keep(x)
    ensures Filter(s, keep) == s
  {
    if s != [] {
      var n := |s| - 1;
      assert s[n] in s;
      FilterAll(s[..n], keep);
      assert s == s[..n] + [s[n]];
    }
  }
}
