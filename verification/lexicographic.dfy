/**
 * Python's ordering of column labels and the sort of `sort_index(axis=1)`
 * (app.py:67). Python compares strings code point by code point; a proper
 * prefix comes first.
 */
module Lexicographic {

  /** Python's `a < b` on str. */
  predicate Less(a: string, b: string)
  {
    if a == [] then b != []
    else if b == [] then false
    else if a[0] != b[0] then a[0] < b[0]
    else Less(a[1..], b[1..])
  }

  lemma {:induction false} LessIrreflexive(a: string)
    ensures !Less(a, a)
  {
    if a != [] {
      LessIrreflexive(a[1..]);
    }
  }

  lemma {:induction false} LessTransitive(a: string, b: string, c: string)
    requires Less(a, b) && Less(b, c)
    ensures Less(a, c)
  {
    if a != [] && b != [] && c != [] && a[0] == b[0] == c[0] {
      LessTransitive(a[1..], b[1..], c[1..]);
    }
  }

  /** Two distinct labels are always ordered one way or the other, and never both. */
  lemma {:induction false} LessTotal(a: string, b: string)
    ensures a != b ==> Less(a, b) || Less(b, a)
    ensures !(Less(a, b) && Less(b, a))
  {
    if a != [] && b != [] && a[0] == b[0] {
      LessTotal(a[1..], b[1..]);
      if a[1..] == b[1..] {
        assert a == [a[0]] + a[1..] && b == [b[0]] + b[1..];
      }
    }
  }

  /** Ascending: no later label is smaller than an earlier one. */
  predicate Sorted(s: seq<string>)
  {
    forall i, j :: 0 <= i < j < |s| ==> !Less(s[j], s[i])
  }

  predicate Distinct(s: seq<string>)
  {
    forall i, j :: 0 <= i < j < |s| ==> s[i] != s[j]
  }

  /** Appending a label that is already present breaks distinctness. */
  lemma DistinctRepeat(l: seq<string>, x: string, rest: seq<string>)
    requires x in l
    ensures !Distinct(l + ([x] + rest))
  {
    var s := l + ([x] + rest);
    var k :| 0 <= k < |l| && l[k] == x;
    assert s[k] == x && s[|l|] == x;
  }

  /** Appending a label and then more labels is appending them all at once. */
  lemma ConcatAssoc(l: seq<string>, x: string, rest: seq<string>)
    ensures l + ([x] + rest) == (l + [x]) + rest
  {
  }

  /** Strictly ascending. */
  predicate StrictlySorted(s: seq<string>)
  {
    forall i, j :: 0 <= i < j < |s| ==> Less(s[i], s[j])
  }

  /** Inserts x before the first label that is not smaller than it. */
  function Insert(x: string, s: seq<string>): (r: seq<string>)
    requires Sorted(s)
    ensures Sorted(r)
    ensures multiset(r) == multiset(s) + multiset{x}
  {
    if s == [] then [x]
    else if !Less(s[0], x) then
      InsertFront(x, s);
      [x] + s
    else
      SortedTail(s);
      var rest := Insert(x, s[1..]);
      InsertBehind(x, s, rest);
      [s[0]] + rest
  }

  /** The tail of an ascending sequence is ascending. */
  lemma SortedTail(s: seq<string>)
    requires Sorted(s) && s != []
    ensures Sorted(s[1..])
  {
    forall i, j | 0 <= i < j < |s| - 1 ensures !Less(s[1..][j], s[1..][i]) {
      assert s[1..][i] == s[i + 1] && s[1..][j] == s[j + 1];
    }
  }

  /** A label no greater than any of an ascending sequence can head it. */
  lemma SortedCons(h: string, s: seq<string>)
    requires Sorted(s) && forall j :: 0 <= j < |s| ==> !Less(s[j], h)
    ensures Sorted([h] + s)
  {
    var r := [h] + s;
    forall i, j | 0 <= i < j < |r| ensures !Less(r[j], r[i]) {
      assert r[j] == s[j - 1];
      if i > 0 {
        assert r[i] == s[i - 1];
      }
    }
  }

  /** A label no greater than the first of an ascending sequence goes in front of it. */
  lemma InsertFront(x: string, s: seq<string>)
    requires Sorted(s) && s != [] && !Less(s[0], x)
    ensures Sorted([x] + s)
  {
    forall j | 0 <= j < |s| ensures !Less(s[j], x) {
      LessTotal(s[0], x);
      LessTotal(s[0], s[j]);
      if Less(s[j], x) && Less(x, s[0]) {
        LessTransitive(s[j], x, s[0]);
      }
    }
    SortedCons(x, s);
  }

  /** A label greater than the first of an ascending sequence goes into its tail. */
  lemma InsertBehind(x: string, s: seq<string>, rest: seq<string>)
    requires Sorted(s) && s != [] && Less(s[0], x)
    requires Sorted(rest) && multiset(rest) == multiset(s[1..]) + multiset{x}
    ensures Sorted([s[0]] + rest)
    ensures multiset([s[0]] + rest) == multiset(s) + multiset{x}
  {
    assert s == [s[0]] + s[1..];
    LessTotal(s[0], x);
    forall j | 0 <= j < |rest| ensures !Less(rest[j], s[0]) {
      assert rest[j] in multiset(rest);
      if rest[j] != x {
        assert rest[j] in s[1..];
      }
    }
    SortedCons(s[0], rest);
  }

  /** `sort_index(axis=1)` on the labels: an ascending permutation of them. */
  function SortLabels(s: seq<string>): (r: seq<string>)
    ensures Sorted(r)
    ensures multiset(r) == multiset(s)
  {
    if s == [] then []
    else
      assert s == [s[0]] + s[1..];
      Insert(s[0], SortLabels(s[1..]))
  }

  /** Labels already in ascending order are left where they are. */
  lemma {:induction false} SortSorted(s: seq<string>)
    requires Sorted(s)
    ensures SortLabels(s) == s
  {
    if s != [] {
      SortSorted(s[1..]);
      assert s == [s[0]] + s[1..];
    }
  }

  /** A sequence is free of repeats exactly when no label occurs twice in its multiset. */
  lemma {:induction false} DistinctMultiplicity(s: seq<string>)
    ensures Distinct(s) <==> forall x :: multiset(s)[x] <= 1
  {
    if s != [] {
      var t := s[1..];
      assert s == [s[0]] + t;
      DistinctMultiplicity(t);
      if Distinct(s) {
        forall k | 0 <= k < |t| ensures t[k] != s[0] {
          assert t[k] == s[k + 1];
        }
        assert s[0] !in t;
      }
      if forall x :: multiset(s)[x] <= 1 {
        assert forall x :: multiset(t)[x] <= multiset(s)[x];
        assert multiset(s)[s[0]] == multiset(t)[s[0]] + 1;
        forall i, j | 0 <= i < j < |s| ensures s[i] != s[j] {
          if i == 0 {
            assert s[j] == t[j - 1];
            assert s[j] in multiset(t);
          }
        }
      }
    }
  }

  /** Sorting labels that are pairwise distinct orders them strictly. */
  lemma SortDistinctStrict(s: seq<string>)
    requires Distinct(s)
    ensures Distinct(SortLabels(s)) && StrictlySorted(SortLabels(s))
  {
    var r := SortLabels(s);
    DistinctMultiplicity(s);
    DistinctMultiplicity(r);
    forall i, j | 0 <= i < j < |r| ensures Less(r[i], r[j]) {
      LessTotal(r[i], r[j]);
    }
  }
}
