/**
 * Forward fill of one column (app.py:67, `ffill()`): a missing cell takes
 * the nearest earlier non-missing value of its column; cells before the
 * column's first observation stay missing.
 */
module ForwardFill {
  import opened Wrappers

  /** Every missing cell of s lies before its first non-missing cell. */
  predicate OnlyLeadingGaps<T>(s: seq<Option<T>>)
  {
    forall i :: 0 < i < |s| && s[i].None? ==> s[i - 1].None?
  }

  /** `Series.ffill()`. */
  function FFill<T>(s: seq<Option<T>>): (r: seq<Option<T>>)
    ensures |r| == |s|
    ensures forall i :: 0 <= i < |s| && s[i].Some? ==> r[i] == s[i]
    ensures forall i :: 0 < i < |s| && s[i].None? ==> r[i] == r[i - 1]
    ensures forall i :: 0 <= i < |s| ==> (r[i].None? <==> forall j :: 0 <= j <= i ==> s[j].None?)
  {
    if s == [] then []
    else
      var filled := FFill(s[..|s| - 1]);
      var last := s[|s| - 1];
      filled + [if last.Some? || filled == [] then last else filled[|filled| - 1]]
  }

  /** A missing cell takes the value of the nearest earlier non-missing cell. */
  lemma {:induction false} FFillNearestEarlier<T>(s: seq<Option<T>>, k: nat, i: nat)
    requires k <= i < |s| && s[k].Some?
    requires forall j :: k < j <= i ==> s[j].None?
    ensures FFill(s)[i] == s[k]
    decreases i - k
  {
    if i > k {
      FFillNearestEarlier(s, k, i - 1);
    }
  }

  /** A column is left as it is exactly when its only gaps are leading ones. */
  lemma FFillFixedPoint<T>(s: seq<Option<T>>)
    ensures FFill(s) == s <==> OnlyLeadingGaps(s)
  {
  }

  /** Forward-filling an already filled column changes nothing. */
  lemma FFillIdempotent<T>(s: seq<Option<T>>)
    ensures FFill(FFill(s)) == FFill(s)
  {
  }

  /** A column without gaps, such as the weekend flag, is unchanged. */
  lemma FFillNoGaps<T>(s: seq<Option<T>>)
    requires forall i :: 0 <= i < |s| ==> s[i].Some?
    ensures FFill(s) == s
  {
  }
}
