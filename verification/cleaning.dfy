/**
 * Per-file cleaning (app.py:61-62): `df.dropna().drop_duplicates('Fecha')`.
 *
 * A parsed file is a sequence of rows whose date and price may each be
 * missing. Cleaning keeps the complete rows and then keeps only the first
 * row of each date.
 */
module Cleaning {
  import opened Wrappers
  import opened Calendar

  /** Prices are whole numbers in this model. */
  type Price = int

  /** One parsed CSV row: (Fecha, price), either of which may be missing. */
  datatype Row = Row(date: Option<Day>, price: Option<Price>)

  /** One observation of a cleaned series. */
  datatype Obs = Obs(day: Day, price: Price)

  predicate Complete(row: Row)
  {
    row.date.Some? && row.price.Some?
  }

  /** The days a series mentions. */
  function DaysOf(s: seq<Obs>): (days: set<Day>)
    ensures forall o :: o in s ==> o.day in days
    ensures forall d :: d in days ==> exists o :: o in s && o.day == d
  {
    set o | o in s :: o.day
  }

  /** No day occurs twice: the series can serve as a row key. */
  predicate DistinctDays(s: seq<Obs>)
  {
    forall i, j :: 0 <= i < j < |s| ==> s[i].day != s[j].day
  }

  /** The price of the first observation of day d, if any. */
  function Find(s: seq<Obs>, d: Day): (p: Option<Price>)
    ensures p.Some? <==> d in DaysOf(s)
    ensures p.Some? ==> Obs(d, p.value) in s
  {
    if s == [] then None
    else if s[0].day == d then Some(s[0].price)
    else
      assert forall o :: o in s[1..] ==> o in s;
      assert DaysOf(s) == DaysOf(s[1..]) + {s[0].day};
      Find(s[1..], d)
  }

  /** The price of the first complete row dated d, if any. */
  function FirstPrice(rows: seq<Row>, d: Day): Option<Price>
  {
    if rows == [] then None
    else if Complete(rows[0]) && rows[0].date.value == d then rows[0].price
    else FirstPrice(rows[1..], d)
  }

  /** `dropna()`: the complete rows. */
  function DropMissing(rows: seq<Row>): (s: seq<Obs>)
    ensures |s| <= |rows|
    ensures forall o :: o in s <==> Row(Some(o.day), Some(o.price)) in rows
  {
    if rows == [] then []
    else
      var rest := DropMissing(rows[1..]);
      assert forall r :: r in rows <==> r == rows[0] || r in rows[1..];
      if Complete(rows[0]) then [Obs(rows[0].date.value, rows[0].price.value)] + rest
      else rest
  }

  /** `drop_duplicates('Fecha')` with its default keep='first'. */
  function DropDuplicates(s: seq<Obs>): (r: seq<Obs>)
    ensures |r| <= |s|
    ensures DistinctDays(r)
    ensures forall o :: o in r ==> o in s
    ensures DaysOf(r) == DaysOf(s)
  {
    if s == [] then []
    else
      var prefix := s[..|s| - 1];
      var last := s[|s| - 1];
      var kept := DropDuplicates(prefix);
      assert s == prefix + [last];
      DaysOfSnoc(prefix, last);
      if last.day in DaysOf(kept) then kept
      else
        AppendNewDay(kept, last);
        kept + [last]
  }

  /** Appending an observation adds its day to the days of a series. */
  lemma DaysOfSnoc(s: seq<Obs>, o: Obs)
    ensures DaysOf(s + [o]) == DaysOf(s) + {o.day}
    ensures forall x :: x in s + [o] <==> x in s || x == o
  {
    assert forall x :: x in s + [o] <==> x in s || x == o;
  }

  /** Appending an observation of a new day keeps the days distinct. */
  lemma AppendNewDay(s: seq<Obs>, o: Obs)
    requires DistinctDays(s) && o.day !in DaysOf(s)
    ensures DistinctDays(s + [o])
  {
    var r := s + [o];
    forall i, j | 0 <= i < j < |r| ensures r[i].day != r[j].day {
      assert r[i] == s[i];
      if j < |s| {
        assert r[j] == s[j];
      }
    }
  }

  /** The cleaned series of a file: no missing field, each date once. */
  function Clean(rows: seq<Row>): (s: seq<Obs>)
    ensures DistinctDays(s)
    ensures forall o :: o in s ==> Row(Some(o.day), Some(o.price)) in rows
  {
    DropDuplicates(DropMissing(rows))
  }

  /** Looking a day up after an append consults the appended observation only when the prefix lacks the day. */
  lemma {:induction false} FindAppend(s: seq<Obs>, o: Obs, d: Day)
    ensures Find(s + [o], d) == if Find(s, d).Some? then Find(s, d) else if o.day == d then Some(o.price) else None
  {
    if s != [] {
      assert (s + [o])[1..] == s[1..] + [o];
      FindAppend(s[1..], o, d);
    }
  }

  /** Deduplication keeps, for every day, the first observation of that day. */
  lemma {:induction false} DropDuplicatesKeepsFirst(s: seq<Obs>, d: Day)
    ensures Find(DropDuplicates(s), d) == Find(s, d)
  {
    if s != [] {
      var prefix := s[..|s| - 1];
      var last := s[|s| - 1];
      assert s == prefix + [last];
      DropDuplicatesKeepsFirst(prefix, d);
      FindAppend(prefix, last, d);
      var kept := DropDuplicates(prefix);
      if last.day !in DaysOf(kept) {
        FindAppend(kept, last, d);
      }
    }
  }

  /** Dropping incomplete rows leaves the first complete row of every date first. */
  lemma {:induction false} DropMissingKeepsFirst(rows: seq<Row>, d: Day)
    ensures Find(DropMissing(rows), d) == FirstPrice(rows, d)
  {
    if rows != [] {
      DropMissingKeepsFirst(rows[1..], d);
    }
  }

  /**
   * The surviving price of a date is that of the first row with that date
   * and a price; a date with no complete row does not survive.
   */
  lemma CleanKeepsFirstComplete(rows: seq<Row>, d: Day)
    ensures Find(Clean(rows), d) == FirstPrice(rows, d)
    ensures d in DaysOf(Clean(rows)) <==> FirstPrice(rows, d).Some?
  {
    DropDuplicatesKeepsFirst(DropMissing(rows), d);
    DropMissingKeepsFirst(rows, d);
  }

  /** A file whose rows are all complete loses none of them to `dropna()`. */
  lemma {:induction false} DropMissingComplete(rows: seq<Row>)
    requires forall i :: 0 <= i < |rows| ==> Complete(rows[i])
    ensures |DropMissing(rows)| == |rows|
    ensures forall i :: 0 <= i < |rows| ==> Complete(rows[i]) && DropMissing(rows)[i] == Obs(rows[i].date.value, rows[i].price.value)
  {
    if rows != [] {
      DropMissingComplete(rows[1..]);
    }
  }

  /** A series without repeated days passes deduplication unchanged; in particular deduplicating twice is deduplicating once. */
  lemma {:induction false} DropDuplicatesDistinct(s: seq<Obs>)
    requires DistinctDays(s)
    ensures DropDuplicates(s) == s
  {
    if s != [] {
      var prefix := s[..|s| - 1];
      var last := s[|s| - 1];
      DistinctDaysSnoc(prefix, last, s);
      DropDuplicatesDistinct(prefix);
      assert s == prefix + [last];
    }
  }

  /** The last observation of a series without repeated days has a day its prefix lacks. */
  lemma DistinctDaysSnoc(prefix: seq<Obs>, last: Obs, s: seq<Obs>)
    requires s == prefix + [last] && DistinctDays(s)
    ensures DistinctDays(prefix) && last.day !in DaysOf(prefix)
  {
    assert s[|prefix|] == last;
    forall k | 0 <= k < |prefix| ensures prefix[k].day != last.day {
      assert prefix[k] == s[k];
    }
    forall i, j | 0 <= i < j < |prefix| ensures prefix[i].day != prefix[j].day {
      assert prefix[i] == s[i] && prefix[j] == s[j];
    }
  }

  /** In a series without repeated days, Find returns the one price recorded for the day. */
  lemma FindDistinct(s: seq<Obs>, d: Day, p: Price)
    requires DistinctDays(s)
    ensures Find(s, d) == Some(p) <==> Obs(d, p) in s
  {
  }
}
