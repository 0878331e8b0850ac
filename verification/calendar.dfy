/**
 * The master calendar of the consolidator (app.py:28) and the weekday
 * arithmetic behind the weekend flag (app.py:66).
 *
 * A day is a day number counted from 1970-01-01, which is day 0 and a
 * Thursday. Weekdays are numbered as pandas' `dayofweek` numbers them:
 * Monday is 0 and Sunday is 6.
 */
module Calendar {

  type Day = int

  const Saturday := 5
  const Sunday := 6

  /** `pd.date_range(start, end, freq='D')`: every day from start to end, inclusive. */
  function DateRange(start: Day, end: Day): (days: seq<Day>)
    ensures |days| == if start <= end then end - start + 1 else 0
    ensures forall d :: d in days <==> start <= d <= end
    ensures |days| > 0 ==> days[0] == start && days[|days| - 1] == end
    ensures forall i :: 0 < i < |days| ==> days[i] == days[i - 1] + 1
    decreases end - start
  {
    if start > end then [] else [start] + DateRange(start + 1, end)
  }

  /** The calendar is strictly ascending, hence free of duplicates. */
  lemma {:induction false} DateRangeAscending(start: Day, end: Day, i: int, j: int)
    requires 0 <= i < j < |DateRange(start, end)|
    ensures DateRange(start, end)[i] < DateRange(start, end)[j]
  {
    var days := DateRange(start, end);
    if j == i + 1 {
    } else {
      DateRangeAscending(start, end, i, j - 1);
    }
  }

  /** The i-th calendar day is i days after the start. */
  lemma {:induction false} DateRangeAt(start: Day, end: Day, i: nat)
    requires i < |DateRange(start, end)|
    ensures DateRange(start, end)[i] == start + i
  {
    if i > 0 {
      DateRangeAt(start, end, i - 1);
    }
  }

  /** pandas' `dayofweek`: Monday = 0, ..., Sunday = 6. */
  function DayOfWeek(d: Day): (w: int)
    ensures 0 <= w < 7
  {
    (d + 3) % 7
  }

  /** Day 0 (1970-01-01) is a Thursday, and each next day is the next weekday. */
  lemma DayOfWeekSucc(d: Day)
    ensures DayOfWeek(0) == 3
    ensures DayOfWeek(d + 1) == (DayOfWeek(d) + 1) % 7
  {
  }

  /** The weekday repeats every seven days, and so does the weekend flag. */
  lemma WeekendPeriodic(d: Day, k: int)
    ensures DayOfWeek(d + 7 * k) == DayOfWeek(d)
    ensures DayOfWeek(d + 7 * k) >= Saturday <==> DayOfWeek(d) >= Saturday
  {
  }
}
