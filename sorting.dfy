/**
 * Sorting option lists: `Array.from(set).sort((a, b) => a.localeCompare(b))`.
 * The comparison is modelled by the total order `Strings.Less`; the sort is
 * an insertion sort, specified by sortedness and permutation.
 */
module Sorting {
  import opened Strings

  /** No two positions hold the same string. */
  predicate Distinct(s: seq<string>) {
    forall i, j :: 0 <= i < j < |s| ==> s[i] != s[j]
  }

  /** No later element is smaller than an earlier one. */
  predicate Sorted(s: seq<string>) {
    forall i, j :: 0 <= i < j < |s| ==> !Less(s[j], s[i])
  }

  /** Every earlier element is smaller than every later one. */
  predicate StrictlySorted(s: seq<string>) {
    forall i, j :: 0 <= i < j < |s| ==> Less(s[i], s[j])
  }

  /** The set of elements of a sequence. */
  function Elements(s: seq<string>): set<string> {
    set x | x in s
  }

  lemma HeadInElements(s: seq<string>)
    ensures s != [] ==> s[0] in Elements(s)
  {
  }

  lemma StrictlySortedIsDistinct(s: seq<string>)
    requires StrictlySorted(s)
    ensures Sorted(s) && Distinct(s)
  {
    forall i, j | 0 <= i < j < |s| ensures !Less(s[j], s[i]) && s[i] != s[j] {
      LessTotal(s[i], s[j]);
    }
  }

  /** Inserts `x` into a sorted sequence before the first element not smaller than it. */
  function Insert(x: string, s: seq<string>): (r: seq<string>)
    requires Sorted(s)
    ensures Sorted(r)
    ensures multiset(r) == multiset(s) + multiset{x}
    ensures StrictlySorted(s) && x !in s ==> StrictlySorted(r)
  {
    if s == [] then [x]
    else if Less(s[0], x) then
      var rest := Insert(x, s[1..]);
      assert s == [s[0]] + s[1..];
      InsertAfterHead(x, s, rest);
      [s[0]] + rest
    else
      InsertBeforeHead(x, s);
      [x] + s
  }

  lemma InsertBeforeHead(x: string, s: seq<string>)
    requires Sorted(s) && s != [] && !Less(s[0], x)
    ensures Sorted([x] + s)
    ensures StrictlySorted(s) && x !in s ==> StrictlySorted([x] + s)
  {
    forall j | 0 < j < |s| ensures !Less(s[j], x) {
      LessTotal(s[0], s[j]);
      if Less(s[0], s[j]) && Less(s[j], x) {
        LessTransitive(s[0], s[j], x);
      }
    }
    if StrictlySorted(s) && x !in s {
      LessTotal(x, s[0]);
      forall j | 0 < j < |s| ensures Less(x, s[j]) {
        LessTransitive(x, s[0], s[j]);
      }
    }
  }

  lemma InsertAfterHead(x: string, s: seq<string>, rest: seq<string>)
    requires Sorted(s) && s != [] && Less(s[0], x)
    requires Sorted(rest) && multiset(rest) == multiset(s[1..]) + multiset{x}
    requires StrictlySorted(s[1..]) && x !in s[1..] ==> StrictlySorted(rest)
    ensures Sorted([s[0]] + rest)
    ensures StrictlySorted(s) && x !in s ==> StrictlySorted([s[0]] + rest)
  {
    forall k | 0 <= k < |rest| ensures !Less(rest[k], s[0]) && (StrictlySorted(s) ==> Less(s[0], rest[k])) {
      assert rest[k] in multiset(rest);
      LessTotal(s[0], x);
      if rest[k] != x {
        assert rest[k] in s[1..];
        var m :| 0 <= m < |s[1..]| && s[1..][m] == rest[k];
        assert s[m + 1] == rest[k];
      }
    }
  }

  /** `Array.prototype.sort` under `Less`: a sorted permutation of the input, strictly sorted when the input has no duplicates. */
  function Sort(s: seq<string>): (r: seq<string>)
    ensures Sorted(r)
    ensures multiset(r) == multiset(s)
    ensures Distinct(s) ==> StrictlySorted(r)
  {
    if s == [] then []
    else
      var rest := Sort(s[1..]);
      SortStep(s, rest);
      Insert(s[0], rest)
  }

  /** Inserting the head into the sorted tail sorts the whole sequence. */
  lemma SortStep(s: seq<string>, rest: seq<string>)
    requires s != [] && Sorted(rest) && multiset(rest) == multiset(s[1..])
    requires Distinct(s[1..]) ==> StrictlySorted(rest)
    ensures multiset(Insert(s[0], rest)) == multiset(s)
    ensures Distinct(s) ==> StrictlySorted(Insert(s[0], rest))
  {
    assert s == [s[0]] + s[1..];
    if Distinct(s) {
      assert Distinct(s[1..]);
      assert s[0] !in s[1..];
      assert s[0] !in rest by {
        assert s[0] in rest <==> s[0] in multiset(rest);
      }
    }
  }

  /** Sorting keeps exactly the elements of the input. */
  lemma SortElements(s: seq<string>)
    ensures |Sort(s)| == |s|
    ensures Elements(Sort(s)) == Elements(s)
  {
    var r := Sort(s);
    assert |r| == |multiset(r)| == |multiset(s)| == |s|;
    forall x ensures x in r <==> x in s {
      assert x in r <==> x in multiset(r);
      assert x in s <==> x in multiset(s);
    }
  }

  /** Two strictly sorted sequences with the same elements are equal: the sorted option list does not depend on insertion order. */
  lemma {:induction false} StrictlySortedUnique(a: seq<string>, b: seq<string>)
    requires StrictlySorted(a) && StrictlySorted(b)
    requires Elements(a) == Elements(b)
    ensures a == b
  {
    HeadInElements(a);
    HeadInElements(b);
    if a != [] && b != [] {
      assert a[0] in Elements(b) && b[0] in Elements(a);
      if a[0] != b[0] {
        var i :| 0 <= i < |b| && b[i] == a[0];
        var j :| 0 <= j < |a| && a[j] == b[0];
        assert i > 0 && j > 0;
        assert Less(b[0], a[0]) && Less(a[0], b[0]);
        LessTotal(a[0], b[0]);
      }
      forall x ensures x in a[1..] <==> x in b[1..] {
        if x in a[1..] {
          var i :| 1 <= i < |a| && a[i] == x;
          assert Less(a[0], x);
          LessIrreflexive(x);
          assert x in Elements(b);
        }
        if x in b[1..] {
          var i :| 1 <= i < |b| && b[i] == x;
          assert Less(b[0], x);
          LessIrreflexive(x);
          assert x in Elements(a);
        }
      }
      assert Elements(a[1..]) == Elements(b[1..]);
      StrictlySortedUnique(a[1..], b[1..]);
      assert a == [a[0]] + a[1..] && b == [b[0]] + b[1..];
    }
  }
}
