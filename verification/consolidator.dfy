/**
 * The consolidation run of app.py:25-67: build the calendar, fold every
 * uploaded file into the table by a left join, add the weekend flag,
 * forward-fill and sort the columns.
 */
module Consolidator {
  import opened Wrappers
  import opened Calendar
  import opened Naming
  import opened Cleaning
  import opened ForwardFill
  import opened Lexicographic
  import opened Table

  /** The label of the weekend-flag column. */
  const WeekendColumn := "Fin_de_semana"

  /** An uploaded file: its name and its rows as parsed from the CSV. */
  datatype Upload = Upload(name: string, rows: seq<Row>)

  /** Why a run ended without a table. */
  datatype Failure = ColumnsOverlap(column: string)

  /** What the page shows after a run. */
  datatype Outcome =
    | AwaitingInput        // a date field is empty or no file was uploaded (app.py:87-88)
    | Failed(failure: Failure) // the run raised (app.py:85-86)
    | Done(table: Frame)   // the consolidated table

  /** The column labels the uploads give, in upload order. */
  function StockNames(uploads: seq<Upload>): (names: seq<string>)
    ensures |names| == |uploads|
    ensures forall k :: 0 <= k < |uploads| ==> names[k] == StockName(uploads[k].name)
  {
    seq(|uploads|, k requires 0 <= k < |uploads| => StockName(uploads[k].name))
  }

  /**
   * The column an upload contributes to a table indexed by `days`, before
   * filling: on each day, the price of the file's first complete row with
   * that date, or a gap when the file has none.
   */
  function StockColumn(days: seq<Day>, upload: Upload): (cells: seq<Cell>)
    ensures |cells| == |days|
    ensures forall i :: 0 <= i < |days| ==> (cells[i].None? <==> FirstPrice(upload.rows, days[i]).None?)
    ensures forall i :: 0 <= i < |days| && FirstPrice(upload.rows, days[i]).Some? ==>
              cells[i] == Some(Price(FirstPrice(upload.rows, days[i]).value))
  {
    JoinedFirstPrice(days, upload.rows);
    LeftJoin(days, Clean(upload.rows))
  }

  /** Joining a cleaned file onto `days` puts on each day the price of its first complete row with that date. */
  lemma JoinedFirstPrice(days: seq<Day>, rows: seq<Row>)
    ensures forall i :: 0 <= i < |days| ==>
              LeftJoin(days, Clean(rows))[i] == (if FirstPrice(rows, days[i]).Some? then Some(Price(FirstPrice(rows, days[i]).value)) else None)
  {
    var cells := LeftJoin(days, Clean(rows));
    forall i | 0 <= i < |days|
      ensures cells[i] == (if FirstPrice(rows, days[i]).Some? then Some(Price(FirstPrice(rows, days[i]).value)) else None)
    {
      CleanKeepsFirstComplete(rows, days[i]);
      if FirstPrice(rows, days[i]).Some? {
        FindDistinct(Clean(rows), days[i], FirstPrice(rows, days[i]).value);
      }
    }
  }

  /** `index.dayofweek.isin([5, 6])` as a column of flags. */
  function WeekendCells(days: seq<Day>): (cells: seq<Cell>)
    ensures |cells| == |days|
    ensures forall i :: 0 <= i < |days| ==> cells[i].Some? && cells[i].value.Flag?
    ensures forall i :: 0 <= i < |days| ==> (cells[i].value.weekend <==> DayOfWeek(days[i]) >= Saturday)
  {
    seq(|days|, i requires 0 <= i < |days| => Some(Flag(DayOfWeek(days[i]) == Saturday || DayOfWeek(days[i]) == Sunday)))
  }

  /** The loop of app.py:33-63: join the uploads one after another, stopping at the first failure. */
  function JoinAll(f: Frame, uploads: seq<Upload>): (r: Result<Frame, Failure>)
    requires Valid(f)
    ensures r.Ok? ==> Valid(r.value) && r.value.index == f.index
    decreases |uploads|
  {
    if uploads == [] then Ok(f)
    else
      match Join(f, StockName(uploads[0].name), Clean(uploads[0].rows))
      case Err(column) => Err(ColumnsOverlap(column))
      case Ok(g) => JoinAll(g, uploads[1..])
  }

  /** app.py:66-67: add the weekend flag, forward-fill, sort the columns. */
  function Finalise(f: Frame): (t: Frame)
    requires Valid(f)
    ensures Valid(t) && t.index == f.index
  {
    SortColumns(FillForward(SetColumn(f, WeekendColumn, WeekendCells(f.index))))
  }

  /** The outcome of one run, from the two dates (None when the field is empty) and the uploads. */
  function Consolidation(start: Option<Day>, end: Option<Day>, uploads: seq<Upload>): (out: Outcome)
    ensures out.Done? ==> Valid(out.table)
  {
    if uploads == [] || start.None? || end.None? then AwaitingInput
    else
      match JoinAll(EmptyFrame(DateRange(start.value, end.value)), uploads)
      case Err(failure) => Failed(failure)
      case Ok(f) => Done(Finalise(f))
  }

  /** One run, step by step as app.py performs it. */
  method Consolidate(start: Option<Day>, end: Option<Day>, uploads: seq<Upload>) returns (out: Outcome)
    ensures out == Consolidation(start, end, uploads)
  {
    if uploads == [] || start.None? || end.None? {
      return AwaitingInput;
    }
    var table := EmptyFrame(DateRange(start.value, end.value));
    ghost var initial := table;
    for i := 0 to |uploads|
      invariant Valid(table)
      invariant JoinAll(table, uploads[i..]) == JoinAll(initial, uploads)
    {
      assert uploads[i..][0] == uploads[i] && uploads[i..][1..] == uploads[i + 1..];
      var name := StockName(uploads[i].name);
      var joined := Join(table, name, Clean(uploads[i].rows));
      if joined.Err? {
        return Failed(ColumnsOverlap(joined.error));
      }
      table := joined.value;
    }
    assert uploads[|uploads|..] == [];
    table := SetColumn(table, WeekendColumn, WeekendCells(table.index));
    table := SortColumns(FillForward(table));
    return Done(table);
  }

  /** The first upload's label heads the labels. */
  lemma StockNamesCons(uploads: seq<Upload>)
    requires uploads != []
    ensures StockNames(uploads) == [StockName(uploads[0].name)] + StockNames(uploads[1..])
  {
    assert StockNames(uploads) == [StockName(uploads[0].name)] + StockNames(uploads[1..]);
  }

  /** A first upload whose label the table already has ends the fold with that label repeated. */
  lemma JoinAllOverlap(f: Frame, uploads: seq<Upload>)
    requires Valid(f) && uploads != [] && StockName(uploads[0].name) in f.labels
    ensures JoinAll(f, uploads) == Err(ColumnsOverlap(StockName(uploads[0].name)))
    ensures !Distinct(f.labels + StockNames(uploads))
  {
    StockNamesCons(uploads);
    DistinctRepeat(f.labels, StockName(uploads[0].name), StockNames(uploads[1..]));
  }

  /** A first upload with a new label is joined and the fold goes on from there. */
  lemma JoinAllNext(f: Frame, uploads: seq<Upload>)
    requires Valid(f) && uploads != [] && StockName(uploads[0].name) !in f.labels
    ensures
      var g := Join(f, StockName(uploads[0].name), Clean(uploads[0].rows)).value;
      && JoinAll(f, uploads) == JoinAll(g, uploads[1..])
      && f.labels + StockNames(uploads) == g.labels + StockNames(uploads[1..])
  {
    var name := StockName(uploads[0].name);
    var g := Join(f, name, Clean(uploads[0].rows)).value;
    var rest := StockNames(uploads[1..]);
    StockNamesCons(uploads);
    assert g.labels == f.labels + [name];
    ConcatAssoc(f.labels, name, rest);
  }

  /** Folding the uploads succeeds exactly when no label repeats. */
  lemma {:induction false} JoinAllOk(f: Frame, uploads: seq<Upload>)
    requires Valid(f)
    ensures JoinAll(f, uploads).Ok? <==> Distinct(f.labels + StockNames(uploads))
    decreases |uploads|
  {
    if uploads == [] {
      assert f.labels + StockNames(uploads) == f.labels;
    } else if StockName(uploads[0].name) in f.labels {
      JoinAllOverlap(f, uploads);
    } else {
      JoinAllNext(f, uploads);
      JoinAllOk(Join(f, StockName(uploads[0].name), Clean(uploads[0].rows)).value, uploads[1..]);
    }
  }

  /**
   * A successful fold keeps the index and the earlier columns and appends
   * one joined column per upload, in upload order.
   */
  lemma {:induction false} JoinAllResult(f: Frame, uploads: seq<Upload>)
    requires Valid(f) && JoinAll(f, uploads).Ok?
    ensures
      var g := JoinAll(f, uploads).value;
      && g.index == f.index
      && g.labels == f.labels + StockNames(uploads)
      && (forall n :: n in f.labels ==> n in g.data && g.data[n] == f.data[n])
      && (forall k :: 0 <= k < |uploads| ==>
            var n := StockNames(uploads)[k];
            n in g.data && g.data[n] == StockColumn(f.index, uploads[k]))
    decreases |uploads|
  {
    if uploads == [] {
      assert f.labels + StockNames(uploads) == f.labels;
    } else {
      var name := StockName(uploads[0].name);
      if name in f.labels {
        JoinAllOverlap(f, uploads);
      } else {
        JoinAllNext(f, uploads);
        var g := Join(f, name, Clean(uploads[0].rows)).value;
        var rest := uploads[1..];
        JoinAllResult(g, rest);
        ColumnsOfFold(f, uploads, g, JoinAll(g, rest).value);
      }
    }
  }

  /** The step of JoinAllResult that locates each upload's column in the folded table. */
  lemma ColumnsOfFold(f: Frame, uploads: seq<Upload>, g: Frame, h: Frame)
    requires Valid(f) && uploads != [] && StockName(uploads[0].name) !in f.labels
    requires g == Join(f, StockName(uploads[0].name), Clean(uploads[0].rows)).value
    requires forall n :: n in g.labels ==> n in h.data && h.data[n] == g.data[n]
    requires forall k :: 0 <= k < |uploads| - 1 ==>
               var n := StockNames(uploads[1..])[k];
               n in h.data && h.data[n] == StockColumn(f.index, uploads[1..][k])
    ensures forall k :: 0 <= k < |uploads| ==>
              var n := StockNames(uploads)[k];
              n in h.data && h.data[n] == StockColumn(f.index, uploads[k])
  {
    StockNamesCons(uploads);
    var names := StockNames(uploads);
    forall k | 0 <= k < |uploads| ensures names[k] in h.data && h.data[names[k]] == StockColumn(f.index, uploads[k]) {
      if k > 0 {
        assert uploads[1..][k - 1] == uploads[k];
        assert StockNames(uploads[1..])[k - 1] == names[k];
      } else {
        assert names[0] in g.labels;
      }
    }
  }

  /** Folding onto the empty table succeeds exactly when the uploads' labels are distinct, and gives exactly their columns. */
  lemma FoldFromEmpty(days: seq<Day>, uploads: seq<Upload>)
    ensures JoinAll(EmptyFrame(days), uploads).Ok? <==> Distinct(StockNames(uploads))
    ensures JoinAll(EmptyFrame(days), uploads).Ok? ==>
      var g := JoinAll(EmptyFrame(days), uploads).value;
      && g.index == days
      && g.labels == StockNames(uploads)
      && (forall k :: 0 <= k < |uploads| ==>
            var n := StockNames(uploads)[k];
            n in g.data && g.data[n] == StockColumn(days, uploads[k]))
  {
    var f := EmptyFrame(days);
    assert f.labels + StockNames(uploads) == StockNames(uploads);
    JoinAllOk(f, uploads);
    if JoinAll(f, uploads).Ok? {
      JoinAllResult(f, uploads);
    }
  }

  /** A run shows a table, a failure or the prompt, exactly as its inputs decide. */
  lemma ConsolidationOutcome(start: Option<Day>, end: Option<Day>, uploads: seq<Upload>)
    ensures Consolidation(start, end, uploads).AwaitingInput? <==> uploads == [] || start.None? || end.None?
    ensures Consolidation(start, end, uploads).Failed? <==>
              uploads != [] && start.Some? && end.Some? && !Distinct(StockNames(uploads))
    ensures Consolidation(start, end, uploads).Failed? ==>
              Consolidation(start, end, uploads).failure.column in StockNames(uploads)
    ensures Consolidation(start, end, uploads).Failed? ==>
              multiset(StockNames(uploads))[Consolidation(start, end, uploads).failure.column] >= 2
  {
    if uploads != [] && start.Some? && end.Some? {
      var f := EmptyFrame(DateRange(start.value, end.value));
      FailedIsFailedFold(start.value, end.value, uploads);
      FoldFromEmpty(f.index, uploads);
      FailureFromEmpty(f.index, uploads);
    }
  }

  /** A failed fold onto the empty table reports a label that two uploads share. */
  lemma FailureFromEmpty(days: seq<Day>, uploads: seq<Upload>)
    ensures JoinAll(EmptyFrame(days), uploads).Err? ==>
              var column := JoinAll(EmptyFrame(days), uploads).error.column;
              column in StockNames(uploads) && multiset(StockNames(uploads))[column] >= 2
  {
    var f := EmptyFrame(days);
    FailureNamesUpload(f, uploads);
    assert f.labels + StockNames(uploads) == StockNames(uploads);
  }

  /** A run with dates and uploads fails exactly when its fold fails, and reports the fold's failure. */
  lemma FailedIsFailedFold(start: Day, end: Day, uploads: seq<Upload>)
    requires uploads != []
    ensures
      var folded := JoinAll(EmptyFrame(DateRange(start, end)), uploads);
      && !Consolidation(Some(start), Some(end), uploads).AwaitingInput?
      && (Consolidation(Some(start), Some(end), uploads).Failed? <==> folded.Err?)
      && (folded.Err? ==> Consolidation(Some(start), Some(end), uploads).failure == folded.error)
  {
  }

  /** A run with dates and uploads whose fold succeeds shows the finalised fold. */
  lemma DoneIsFinalisedFold(start: Day, end: Day, uploads: seq<Upload>)
    requires uploads != [] && JoinAll(EmptyFrame(DateRange(start, end)), uploads).Ok?
    ensures Consolidation(Some(start), Some(end), uploads) ==
              Done(Finalise(JoinAll(EmptyFrame(DateRange(start, end)), uploads).value))
  {
  }

  /**
   * The label a failed fold reports is one of the uploads' labels, and it
   * is a repeated one: it occurs at least twice among the table's labels
   * and the uploads' labels.
   */
  lemma {:induction false} FailureNamesUpload(f: Frame, uploads: seq<Upload>)
    requires Valid(f)
    ensures JoinAll(f, uploads).Err? ==> JoinAll(f, uploads).error.column in StockNames(uploads)
    ensures JoinAll(f, uploads).Err? ==>
              multiset(f.labels + StockNames(uploads))[JoinAll(f, uploads).error.column] >= 2
    decreases |uploads|
  {
    if uploads != [] {
      var name := StockName(uploads[0].name);
      StockNamesCons(uploads);
      if name in f.labels {
        JoinAllOverlap(f, uploads);
        OverlapRepeats(f.labels, name, StockNames(uploads[1..]));
      } else {
        JoinAllNext(f, uploads);
        FailureNamesUpload(Join(f, name, Clean(uploads[0].rows)).value, uploads[1..]);
      }
    }
  }

  /** A label already among `labels` occurs twice once it is added again. */
  lemma OverlapRepeats(labels: seq<string>, name: string, rest: seq<string>)
    requires name in labels
    ensures multiset(labels + ([name] + rest))[name] >= 2
  {
    assert multiset(labels + ([name] + rest)) == multiset(labels) + multiset{name} + multiset(rest);
  }

  /**
   * Finalising adds the weekend flag (replacing a column of that label),
   * forward-fills every other column, and orders the labels strictly
   * ascending; the flag column has no gaps and so is left as it is.
   */
  lemma FinaliseSpec(f: Frame)
    requires Valid(f)
    ensures
      var t := Finalise(f);
      && StrictlySorted(t.labels)
      && (forall n :: n in t.labels <==> n in f.labels || n == WeekendColumn)
      && t.data[WeekendColumn] == WeekendCells(f.index)
      && (forall n :: n in f.labels && n != WeekendColumn ==> t.data[n] == FFill(f.data[n]))
  {
    var flagged := SetColumn(f, WeekendColumn, WeekendCells(f.index));
    var filled := FillForward(flagged);
    FFillNoGaps(WeekendCells(f.index));
  }

  /**
   * The consolidated table: one row per calendar day; one column per stock
   * plus the weekend flag, in ascending label order; each stock column is
   * its file's cleaned series joined onto the calendar and forward-filled;
   * the weekend column holds the flags (it replaces a stock of that name).
   */
  lemma ConsolidatedTable(start: Day, end: Day, uploads: seq<Upload>)
    requires uploads != [] && Distinct(StockNames(uploads))
    ensures Consolidation(Some(start), Some(end), uploads).Done?
    ensures
      var t := Consolidation(Some(start), Some(end), uploads).table;
      && t.index == DateRange(start, end)
      && (forall n :: n in t.data ==> |t.data[n]| == |t.index|)
      && StrictlySorted(t.labels)
      && (forall n :: n in t.labels <==> n in StockNames(uploads) || n == WeekendColumn)
      && t.data[WeekendColumn] == WeekendCells(t.index)
      && (forall k :: 0 <= k < |uploads| && StockNames(uploads)[k] != WeekendColumn ==>
            t.data[StockNames(uploads)[k]] == FFill(StockColumn(t.index, uploads[k])))
  {
    var days := DateRange(start, end);
    var f := EmptyFrame(days);
    var names := StockNames(uploads);
    FoldFromEmpty(days, uploads);
    var g := JoinAll(f, uploads).value;
    DoneIsFinalisedFold(start, end, uploads);
    FinaliseSpec(g);
    forall k | 0 <= k < |uploads| ensures names[k] in g.labels {
      assert g.labels[k] == names[k];
    }
  }
}

