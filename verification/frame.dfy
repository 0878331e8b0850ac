/**
 * The consolidated table (`df_final`): a row index of calendar days and an
 * ordered collection of named columns, as a pandas DataFrame holds them.
 * The operations are the DataFrame calls of app.py:63-67.
 */
module Table {
  import opened Wrappers
  import opened Calendar
  import opened Cleaning
  import opened Lexicographic
  import opened ForwardFill

  /** A cell value: a stock price or the weekend flag. */
  datatype Value = Price(amount: Price) | Flag(weekend: bool)

  /** A cell is a value or missing (NaN). */
  type Cell = Option<Value>

  /**
   * `labels` is the column order; `data` holds each column's cells, one per
   * entry of `index`.
   */
  datatype Frame = Frame(index: seq<Day>, labels: seq<string>, data: map<string, seq<Cell>>)

  /** Labels are unique, name exactly the stored columns, and every column spans the index. */
  predicate Valid(f: Frame)
  {
    && Distinct(f.labels)
    && f.data.Keys == set n | n in f.labels
    && (forall n :: n in f.data ==> |f.data[n]| == |f.index|)
  }

  /** `pd.DataFrame(index=date_range)`: rows but no columns yet (app.py:29). */
  function EmptyFrame(days: seq<Day>): (f: Frame)
    ensures Valid(f) && f.index == days && f.labels == []
  {
    Frame(days, [], map[])
  }

  /** The row-aligned column a series contributes when left-joined onto `days`. */
  function LeftJoin(days: seq<Day>, series: seq<Obs>): (cells: seq<Cell>)
    requires DistinctDays(series)
    ensures |cells| == |days|
    ensures forall i :: 0 <= i < |days| ==> (cells[i].None? <==> days[i] !in DaysOf(series))
    ensures forall i, p :: 0 <= i < |days| ==> (cells[i] == Some(Price(p)) <==> Obs(days[i], p) in series)
  {
    var cells := seq(|days|, i requires 0 <= i < |days| =>
      match Find(series, days[i])
      case Some(p) => Some(Price(p))
      case None => None);
    forall i, p | 0 <= i < |days| ensures cells[i] == Some(Price(p)) <==> Obs(days[i], p) in series {
      FindDistinct(series, days[i], p);
    }
    cells
  }

  /** Observations dated outside the index contribute nothing: joining onto `days` sees only the series restricted to `days`. */
  lemma LeftJoinIgnoresOutside(days: seq<Day>, series: seq<Obs>, outside: seq<Obs>)
    requires DistinctDays(series + outside)
    requires forall o :: o in outside ==> o.day !in days
    ensures DistinctDays(series)
    ensures LeftJoin(days, series + outside) == LeftJoin(days, series)
  {
    assert forall i, j :: 0 <= i < j < |series| ==> series[i] == (series + outside)[i] && series[j] == (series + outside)[j];
    var a, b := LeftJoin(days, series + outside), LeftJoin(days, series);
    forall i | 0 <= i < |days| ensures a[i] == b[i] {
      assert days[i] in days;
      assert DaysOf(series + outside) == DaysOf(series) + DaysOf(outside);
      if b[i].Some? {
        var p := b[i].value.amount;
        assert Obs(days[i], p) in series;
      }
      if a[i].Some? {
        var p := a[i].value.amount;
        assert Obs(days[i], p) in series + outside;
      }
    }
  }

  /**
   * `df_final.join(df, how='left')` (app.py:63). pandas refuses to join a
   * column whose label the frame already has.
   */
  function Join(f: Frame, name: string, series: seq<Obs>): (r: Result<Frame, string>)
    requires Valid(f) && DistinctDays(series)
    ensures r.Err? <==> name in f.labels
    ensures r.Err? ==> r.error == name
    ensures r.Ok? ==> && Valid(r.value)
                      && r.value.index == f.index
                      && r.value.labels == f.labels + [name]
                      && r.value.data[name] == LeftJoin(f.index, series)
                      && forall n :: n in f.labels ==> r.value.data[n] == f.data[n]
  {
    if name in f.labels then Err(name)
    else
      var g := Frame(f.index, f.labels + [name], f.data[name := LeftJoin(f.index, series)]);
      assert Distinct(g.labels) by {
        forall i, j | 0 <= i < j < |g.labels| ensures g.labels[i] != g.labels[j] {
          if j == |f.labels| {
            assert g.labels[i] in f.labels;
          }
        }
      }
      Ok(g)
  }

  /**
   * `df_final[name] = cells` (app.py:66): replaces the column in its place
   * if the label exists, appends it otherwise.
   */
  function SetColumn(f: Frame, name: string, cells: seq<Cell>): (r: Frame)
    requires Valid(f) && |cells| == |f.index|
    ensures Valid(r)
    ensures r.index == f.index
    ensures r.labels == if name in f.labels then f.labels else f.labels + [name]
    ensures r.data[name] == cells
    ensures forall n :: n in f.labels && n != name ==> r.data[n] == f.data[n]
  {
    var labels := if name in f.labels then f.labels else f.labels + [name];
    assert Distinct(labels) by {
      forall i, j | 0 <= i < j < |labels| ensures labels[i] != labels[j] {
        if j == |f.labels| {
          assert labels[i] in f.labels;
        }
      }
    }
    Frame(f.index, labels, f.data[name := cells])
  }

  /** `df_final.ffill()`: every column forward-filled, nothing else touched. */
  function FillForward(f: Frame): (r: Frame)
    requires Valid(f)
    ensures Valid(r)
    ensures r.index == f.index && r.labels == f.labels
    ensures forall n :: n in f.labels ==> r.data[n] == FFill(f.data[n])
  {
    Frame(f.index, f.labels, map n | n in f.data :: FFill(f.data[n]))
  }

  /** `sort_index(axis=1)`: the same columns, labels in ascending order. */
  function SortColumns(f: Frame): (r: Frame)
    requires Valid(f)
    ensures Valid(r)
    ensures r.index == f.index && r.data == f.data
    ensures StrictlySorted(r.labels)
    ensures multiset(r.labels) == multiset(f.labels)
    ensures forall n :: n in r.labels <==> n in f.labels
  {
    SortDistinctStrict(f.labels);
    var labels := SortLabels(f.labels);
    assert forall n :: n in labels <==> n in f.labels by {
      assert forall n :: n in labels <==> n in multiset(labels);
      assert forall n :: n in f.labels <==> n in multiset(f.labels);
    }
    Frame(f.index, labels, f.data)
  }
}
