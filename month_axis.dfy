/**
 * GetMonths: the "MonthName Year" axis of the trend report, built by stepping
 * `from.AddMonths(0), from.AddMonths(1), ...` while the stepped date is not
 * later than midnight of the last day of `to`'s month.
 */
module MonthAxis {
  import opened Outcomes
  import opened Sequences
  import opened Calendar

  /** new DateTime(to.Year, to.Month, DaysInMonth(to.Year, to.Month)): midnight of the month's last day. */
  function EndOfMonth(d: Date): (e: Date)
    ensures MonthIndex(e) == MonthIndex(d)
  {
    DateTime(d.year, d.month, DaysInMonth(d.year, d.month), 0)
  }

  /**
   * Midnight of the last day of the month: every date of an earlier month is
   * at or before it, no date of a later month is, and a date of the month
   * itself is when it falls on an earlier day or at midnight.
   */
  lemma EndOfMonthBounds(d: Date, t: Date)
    ensures MonthIndex(t) < MonthIndex(d) ==> AtOrBefore(t, EndOfMonth(d))
    ensures MonthIndex(t) > MonthIndex(d) ==> !AtOrBefore(t, EndOfMonth(d))
    ensures MonthIndex(t) == MonthIndex(d) ==>
              (AtOrBefore(t, EndOfMonth(d)) <==> t.day < EndOfMonth(d).day || t.timeOfDay == 0)
  {
    if MonthIndex(t) == MonthIndex(d) {
      SameMonthIndex(t, d);
    }
  }

  /** The last tick of the month's last day. */
  function LastTickOfMonth(d: Date): (e: Date)
    ensures MonthIndex(e) == MonthIndex(d)
  {
    DateTime(d.year, d.month, DaysInMonth(d.year, d.month), TicksPerDay - 1)
  }

  /** A date is at or before the last tick of a month exactly when it lies in that month or earlier. */
  lemma LastTickOfMonthBounds(d: Date, t: Date)
    ensures AtOrBefore(t, LastTickOfMonth(d)) <==> MonthIndex(t) <= MonthIndex(d)
  {
    if MonthIndex(t) == MonthIndex(d) {
      SameMonthIndex(t, d);
    }
  }

  /** e.ToString("MMMM yyyy"). */
  function MonthLabel(d: Date): string {
    AxisLabel(d.month, d.year)
  }

  /**
   * Enumerable.Range(0, Int32.MaxValue).Select(e => from.AddMonths(e))
   *   .TakeWhile(e => e <= end), from step `i` on. Select is lazy, so AddMonths
   * is evaluated for the first step past `end` as well, and throws if that
   * step leaves the year 9999. The range bound Int32.MaxValue is never
   * reached: every step within `end` has a month index at most `end`'s.
   */
  function Steps(from: Date, end: Date, i: nat): (r: Result<seq<Date>>)
    ensures r.Failure? ==> r.error == DateOutOfRange
    ensures r.Success? ==> forall k :: 0 <= k < |r.value| ==> AtOrBefore(r.value[k], end)
    decreases MonthIndex(end) + 1 - MonthIndex(from) - i
  {
    var e :- AddMonths(from, i);
    if !AtOrBefore(e, end) then Success([])
    else
      MonthIndexOrder(e, end);
      var rest :- Steps(from, end, i + 1);
      Success([e] + rest)
  }

  /** .Select(e => e.ToString("MMMM yyyy")). */
  function Labels(ds: seq<Date>): (ls: seq<string>)
    ensures |ls| == |ds|
    ensures forall i, j :: 0 <= i < |ds| && 0 <= j < |ds| ==>
              (ls[i] == ls[j] <==> ds[i].month == ds[j].month && ds[i].year == ds[j].year)
  {
    var ls := seq(|ds|, k requires 0 <= k < |ds| => MonthLabel(ds[k]));
    assert forall i, j :: 0 <= i < |ds| && 0 <= j < |ds| && ls[i] == ls[j] ==>
             ds[i].month == ds[j].month && ds[i].year == ds[j].year by {
      forall i, j | 0 <= i < |ds| && 0 <= j < |ds| && ls[i] == ls[j]
        ensures ds[i].month == ds[j].month && ds[i].year == ds[j].year
      {
        AxisLabelInjective(ds[i].month, ds[i].year, ds[j].month, ds[j].year);
      }
    }
    ls
  }

  /** GetMonths as written: `end` is midnight of the last day of `to`'s month. */
  function GetMonths(from: Date, to: Date): (r: Result<seq<string>>)
    ensures r.Failure? ==> r.error == DateOutOfRange
    ensures r.Success? ==> NoDuplicates(r.value)
  {
    var ds :- Steps(from, EndOfMonth(to), 0);
    StepsEntries(from, EndOfMonth(to), 0);
    LabelsDistinct(ds);
    Success(Labels(ds))
  }

  /**
   * GetMonths with `end` moved to the last tick of `to`'s month, so that every
   * month from `from`'s through `to`'s is on the axis.
   */
  function GetMonthsThroughEnd(from: Date, to: Date): (r: Result<seq<string>>)
    ensures r.Failure? ==> r.error == DateOutOfRange
    ensures r.Success? ==> NoDuplicates(r.value)
  {
    var ds :- Steps(from, LastTickOfMonth(to), 0);
    StepsEntries(from, LastTickOfMonth(to), 0);
    LabelsDistinct(ds);
    Success(Labels(ds))
  }

  /** A successful run from step `i` on: date k is `from` advanced i + k months, and it is within `end`. */
  lemma StepsEntries(from: Date, end: Date, i: nat)
    requires Steps(from, end, i).Success?
    ensures var ds := Steps(from, end, i).value;
      forall k :: 0 <= k < |ds| ==> AddMonths(from, i + k) == Success(ds[k]) && AtOrBefore(ds[k], end)
  {
    var ds := Steps(from, end, i).value;
    forall k | 0 <= k < |ds| ensures AddMonths(from, i + k) == Success(ds[k]) {
      StepsEntry(from, end, i, k);
    }
  }

  /** Date k of a successful run from step `i` on is `from` advanced i + k months. */
  lemma {:induction false} StepsEntry(from: Date, end: Date, i: nat, k: nat)
    requires Steps(from, end, i).Success? && k < |Steps(from, end, i).value|
    ensures AddMonths(from, i + k) == Success(Steps(from, end, i).value[k])
    decreases k
  {
    var e := AddMonths(from, i).value;
    MonthIndexOrder(e, end);
    var ds := Steps(from, end, i).value;
    var rest := Steps(from, end, i + 1).value;
    assert ds == [e] + rest;
    if k == 0 {
      assert ds[k] == e;
    } else {
      StepsEntry(from, end, i + 1, k - 1);
      assert ds[k] == rest[k - 1];
      assert AddMonths(from, (i + 1) + (k - 1)) == Success(rest[k - 1]);
    }
  }

  /** A successful run from step `i` on stops at a step that exists and is past `end`. */
  lemma StepsStop(from: Date, end: Date, i: nat)
    requires Steps(from, end, i).Success?
    ensures AddMonths(from, i + |Steps(from, end, i).value|).Success?
    ensures !AtOrBefore(AddMonths(from, i + |Steps(from, end, i).value|).value, end)
  {
    var n := i + |Steps(from, end, i).value|;
    StepsEnd(from, end, i);
    EmptyRun(from, end, n);
  }

  /** The run from the step just after a successful run from step `i` is empty. */
  lemma {:induction false} StepsEnd(from: Date, end: Date, i: nat)
    requires Steps(from, end, i).Success?
    ensures Steps(from, end, i + |Steps(from, end, i).value|) == Success([])
    decreases MonthIndex(end) + 1 - MonthIndex(from) - i
  {
    var e := AddMonths(from, i).value;
    if AtOrBefore(e, end) {
      MonthIndexOrder(e, end);
      StepsEnd(from, end, i + 1);
      var ds := Steps(from, end, i).value;
      var rest := Steps(from, end, i + 1).value;
      assert ds == [e] + rest;
      assert i + |ds| == (i + 1) + |rest|;
    } else {
      assert Steps(from, end, i) == Success([]);
    }
  }

  /** An empty run starts at a step that exists and is past `end`. */
  lemma EmptyRun(from: Date, end: Date, i: nat)
    requires Steps(from, end, i) == Success([])
    ensures AddMonths(from, i).Success? && !AtOrBefore(AddMonths(from, i).value, end)
  {
  }

  /** The run from step `i` succeeds with n - i dates when steps i..n-1 are within `end` and step n is past it. */
  lemma {:induction false} StepsExact(from: Date, end: Date, i: nat, n: nat)
    requires i <= n
    requires forall k :: i <= k < n ==> AddMonths(from, k).Success? && AtOrBefore(AddMonths(from, k).value, end)
    requires AddMonths(from, n).Success? && !AtOrBefore(AddMonths(from, n).value, end)
    ensures Steps(from, end, i).Success? && |Steps(from, end, i).value| == n - i
    decreases n - i
  {
    if i < n {
      MonthIndexOrder(AddMonths(from, i).value, end);
      StepsExact(from, end, i + 1, n);
    }
  }

  /** A run can only fail once it has reached December 9999, and then with DateOutOfRange. */
  lemma {:induction false} StepsFailure(from: Date, end: Date, i: nat)
    requires i == 0 || MonthIndex(from) + i <= MonthIndex(end) + 1
    ensures Steps(from, end, i).Failure? ==>
              Steps(from, end, i).error == DateOutOfRange && MonthIndex(end) == MaxYear * 12 + 11
    decreases MonthIndex(end) + 1 - MonthIndex(from) - i
  {
    var r := AddMonths(from, i);
    if r.Success? && AtOrBefore(r.value, end) {
      MonthIndexOrder(r.value, end);
      StepsFailure(from, end, i + 1);
    }
  }

  /** Labels of dates in distinct months are distinct. */
  lemma LabelsDistinct(ds: seq<Date>)
    requires forall i, j :: 0 <= i < j < |ds| ==> MonthIndex(ds[i]) != MonthIndex(ds[j])
    ensures NoDuplicates(Labels(ds))
  {
    var ls := Labels(ds);
    forall i, j | 0 <= i < j < |ls| ensures ls[i] != ls[j] {
      AxisLabelInjective(ds[i].month, ds[i].year, ds[j].month, ds[j].year);
    }
  }

  /**
   * Entry k of the axis is the label of `from` advanced k months (by the
   * contract of AddMonths, month index MonthIndex(from) + k), so consecutive
   * entries are consecutive calendar months and no label repeats; each such
   * step is within `end`, and the step after the last entry is past it.
   */
  lemma GetMonthsEntries(from: Date, to: Date)
    requires GetMonths(from, to).Success?
    ensures var ls := GetMonths(from, to).value;
      && (forall k :: 0 <= k < |ls| ==>
            && AddMonths(from, k).Success?
            && ls[k] == MonthLabel(AddMonths(from, k).value)
            && AtOrBefore(AddMonths(from, k).value, EndOfMonth(to)))
      && AddMonths(from, |ls|).Success?
      && !AtOrBefore(AddMonths(from, |ls|).value, EndOfMonth(to))
      && NoDuplicates(ls)
  {
    GetMonthsStop(from, to);
    var ls := GetMonths(from, to).value;
    forall k | 0 <= k < |ls|
      ensures AddMonths(from, k).Success? && ls[k] == MonthLabel(AddMonths(from, k).value) && AtOrBefore(AddMonths(from, k).value, EndOfMonth(to))
    {
      GetMonthsEntry(from, to, k);
    }
  }

  /** Entry k of the axis is the label of `from` advanced k months, which is within `end`. */
  lemma GetMonthsEntry(from: Date, to: Date, k: nat)
    requires GetMonths(from, to).Success? && k < |GetMonths(from, to).value|
    ensures AddMonths(from, k).Success?
    ensures GetMonths(from, to).value[k] == MonthLabel(AddMonths(from, k).value)
    ensures AtOrBefore(AddMonths(from, k).value, EndOfMonth(to))
  {
    var end := EndOfMonth(to);
    var ds := Steps(from, end, 0).value;
    assert GetMonths(from, to).value == Labels(ds);
    StepsEntry(from, end, 0, k);
  }

  /** The step after the last entry of the axis is past `end`. */
  lemma GetMonthsStop(from: Date, to: Date)
    requires GetMonths(from, to).Success?
    ensures AddMonths(from, |GetMonths(from, to).value|).Success?
    ensures !AtOrBefore(AddMonths(from, |GetMonths(from, to).value|).value, EndOfMonth(to))
  {
    var end := EndOfMonth(to);
    var ds := Steps(from, end, 0).value;
    assert |GetMonths(from, to).value| == |ds|;
    StepsStop(from, end, 0);
  }

  /** The axis is empty exactly when `from` is later than midnight of the last day of `to`'s month. */
  lemma GetMonthsEmpty(from: Date, to: Date)
    ensures GetMonths(from, to) == Success([]) <==> !AtOrBefore(from, EndOfMonth(to))
  {
    AddZeroMonths(from);
    var end := EndOfMonth(to);
    if AtOrBefore(from, end) {
      MonthIndexOrder(from, end);
      var rest := Steps(from, end, 1);
      assert Steps(from, end, 0) == if rest.Failure? then Failure(rest.error) else Success([from] + rest.value);
    } else {
      assert Steps(from, end, 0) == Success([]);
      assert Labels([]) == [];
    }
  }

  /** The axis is never longer than the months from `from`'s through `to`'s, and lacks at most the last. */
  lemma GetMonthsLength(from: Date, to: Date)
    requires GetMonths(from, to).Success?
    ensures var ls := GetMonths(from, to).value;
      && |ls| <= (if MonthIndex(from) <= MonthIndex(to) then MonthIndex(to) - MonthIndex(from) + 1 else 0)
      && (MonthIndex(from) <= MonthIndex(to) ==> |ls| >= MonthIndex(to) - MonthIndex(from))
  {
    var end := EndOfMonth(to);
    var ds := Steps(from, end, 0).value;
    StepsEntries(from, end, 0);
    StepsStop(from, end, 0);
    if |ds| > 0 {
      MonthIndexOrder(ds[|ds| - 1], end);
    }
    MonthIndexOrder(AddMonths(from, |ds|).value, end);
  }

  /** GetMonths fails only when its run reaches December 9999, whose next step leaves the calendar. */
  lemma GetMonthsFailure(from: Date, to: Date)
    ensures GetMonths(from, to).Failure? ==>
              GetMonths(from, to).error == DateOutOfRange && to.year == MaxYear && to.month == 12
  {
    StepsFailure(from, EndOfMonth(to), 0);
  }

  /**
   * GetMonths(D, D) is the one label of D's month, except when D falls on its
   * month's last day after midnight (then it is empty) and when D lies in
   * December 9999 (then the step to January 10000 throws).
   */
  lemma GetMonthsSameDate(d: Date)
    ensures GetMonths(d, d) ==
      if d.day == DaysInMonth(d.year, d.month) && d.timeOfDay > 0 then Success([])
      else if d.year == MaxYear && d.month == 12 then Failure(DateOutOfRange)
      else Success([MonthLabel(d)])
  {
    var end := EndOfMonth(d);
    AddZeroMonths(d);
    if !AtOrBefore(d, end) {
      assert Steps(d, end, 0) == Success([]);
      assert Labels([]) == [];
    } else if d.year == MaxYear && d.month == 12 {
      assert AddMonths(d, 1).Failure?;
      assert Steps(d, end, 1) == Failure(DateOutOfRange);
    } else {
      var next := AddMonths(d, 1).value;
      MonthIndexOrder(next, end);
      StepsExact(d, end, 0, 1);
      StepsEntries(d, end, 0);
      var ds := Steps(d, end, 0).value;
      assert ds == [d];
      assert Labels(ds) == [MonthLabel(d)];
    }
  }

  /**
   * With `end` at the last tick of `to`'s month, the axis is every month from
   * `from`'s through `to`'s, in order and without repetition: entry k is
   * `from` advanced k months.
   */
  lemma GetMonthsThroughEndLength(from: Date, to: Date)
    requires GetMonthsThroughEnd(from, to).Success?
    ensures var ls := GetMonthsThroughEnd(from, to).value;
      && |ls| == (if MonthIndex(from) <= MonthIndex(to) then MonthIndex(to) - MonthIndex(from) + 1 else 0)
      && (forall k :: 0 <= k < |ls| ==> AddMonths(from, k).Success? && ls[k] == MonthLabel(AddMonths(from, k).value))
      && NoDuplicates(ls)
  {
    var ls := GetMonthsThroughEnd(from, to).value;
    ThroughEndCount(from, to);
    forall k | 0 <= k < |ls| ensures AddMonths(from, k).Success? && ls[k] == MonthLabel(AddMonths(from, k).value) {
      GetMonthsThroughEndEntry(from, to, k);
    }
  }

  /** Entry k of the corrected axis is the label of `from` advanced k months. */
  lemma GetMonthsThroughEndEntry(from: Date, to: Date, k: nat)
    requires GetMonthsThroughEnd(from, to).Success? && k < |GetMonthsThroughEnd(from, to).value|
    ensures AddMonths(from, k).Success?
    ensures GetMonthsThroughEnd(from, to).value[k] == MonthLabel(AddMonths(from, k).value)
  {
    var end := LastTickOfMonth(to);
    var ds := Steps(from, end, 0).value;
    assert GetMonthsThroughEnd(from, to).value == Labels(ds);
    StepsEntry(from, end, 0, k);
  }

  /** The run up to the last tick of `to`'s month takes one step per month from `from`'s through `to`'s. */
  lemma ThroughEndCount(from: Date, to: Date)
    requires Steps(from, LastTickOfMonth(to), 0).Success?
    ensures |Steps(from, LastTickOfMonth(to), 0).value| ==
              if MonthIndex(from) <= MonthIndex(to) then MonthIndex(to) - MonthIndex(from) + 1 else 0
  {
    ThroughEndPast(from, to, 0);
    ThroughEndWithin(from, to);
  }

  /** The run from step `i` on, up to the last tick of `to`'s month, reaches past `to`'s month. */
  lemma {:induction false} ThroughEndPast(from: Date, to: Date, i: nat)
    requires Steps(from, LastTickOfMonth(to), i).Success?
    ensures MonthIndex(to) < MonthIndex(from) + i + |Steps(from, LastTickOfMonth(to), i).value|
    decreases MonthIndex(to) + 1 - MonthIndex(from) - i
  {
    var end := LastTickOfMonth(to);
    var e := AddMonths(from, i).value;
    LastTickOfMonthBounds(to, e);
    if AtOrBefore(e, end) {
      ThroughEndPast(from, to, i + 1);
      assert |Steps(from, end, i).value| == 1 + |Steps(from, end, i + 1).value|;
    }
  }

  /** The last date of the run up to the last tick of `to`'s month lies in `to`'s month or earlier. */
  lemma ThroughEndWithin(from: Date, to: Date)
    requires Steps(from, LastTickOfMonth(to), 0).Success?
    ensures var n := |Steps(from, LastTickOfMonth(to), 0).value|;
      n > 0 ==> MonthIndex(from) + n - 1 <= MonthIndex(to)
  {
    var end := LastTickOfMonth(to);
    var ds := Steps(from, end, 0).value;
    if |ds| > 0 {
      StepsEntry(from, end, 0, |ds| - 1);
      LastTickOfMonthBounds(to, ds[|ds| - 1]);
    }
  }

  /** With `end` at the last tick of `to`'s month, every date in [from, to] has its month's label on the axis. */
  lemma GetMonthsThroughEndCovers(from: Date, to: Date, t: Date)
    requires GetMonthsThroughEnd(from, to).Success?
    requires AtOrBefore(from, t) && AtOrBefore(t, to)
    ensures MonthLabel(t) in GetMonthsThroughEnd(from, to).value
  {
    var end := LastTickOfMonth(to);
    var ds := Steps(from, end, 0).value;
    var ls := Labels(ds);
    GetMonthsThroughEndLength(from, to);
    StepsEntries(from, end, 0);
    MonthIndexOrder(from, t);
    MonthIndexOrder(t, to);
    var k := MonthIndex(t) - MonthIndex(from);
    SameMonthIndex(ds[k], t);
    assert ls[k] == MonthLabel(t);
  }

  /** GetMonthsThroughEnd, like GetMonths, fails only in December 9999. */
  lemma GetMonthsThroughEndFailure(from: Date, to: Date)
    ensures GetMonthsThroughEnd(from, to).Failure? ==> to.year == MaxYear && to.month == 12
  {
    StepsFailure(from, LastTickOfMonth(to), 0);
  }

  /**
   * As written, GetMonths leaves out `to`'s month whenever `from` has a time of
   * day after midnight and its day, clamped to that month, is its last day:
   * the step into `to`'s month is then later than midnight of that day.
   */
  lemma GetMonthsDropsLastMonth(from: Date, to: Date)
    requires MonthIndex(from) < MonthIndex(to)
    requires from.timeOfDay > 0 && from.day >= DaysInMonth(to.year, to.month)
    ensures GetMonths(from, to).Success?
    ensures |GetMonths(from, to).value| == MonthIndex(to) - MonthIndex(from)
    ensures MonthLabel(to) !in GetMonths(from, to).value
  {
    var end := EndOfMonth(to);
    var n := MonthIndex(to) - MonthIndex(from);
    forall k | 0 <= k < n ensures AddMonths(from, k).Success? && AtOrBefore(AddMonths(from, k).value, end) {
      MonthIndexOrder(AddMonths(from, k).value, end);
    }
    SameMonthIndex(AddMonths(from, n).value, to);
    StepsExact(from, end, 0, n);
    StepsEntries(from, end, 0);
    var ds := Steps(from, end, 0).value;
    var ls := Labels(ds);
    forall k | 0 <= k < n ensures ls[k] != MonthLabel(to) {
      AxisLabelInjective(ds[k].month, ds[k].year, to.month, to.year);
    }
  }

  /** One input that shows it: from 2024-01-31 10:00 to 2024-03-15 the axis is January and February 2024, without March. */
  lemma GetMonthsDropsMarch2024(from: Date, to: Date)
    requires from == DateTime(2024, 1, 31, 360_000_000_000) && to == DateTime(2024, 3, 15, 0)
    ensures GetMonths(from, to) == Success([AxisLabel(1, 2024), AxisLabel(2, 2024)])
    ensures AxisLabel(3, 2024) !in GetMonths(from, to).value
  {
    GetMonthsDropsLastMonth(from, to);
    var ls := GetMonths(from, to).value;
    assert |ls| == 2;
    assert ls[0] == AxisLabel(1, 2024) by {
      GetMonthsEntry(from, to, 0);
      AddZeroMonths(from);
    }
    assert ls[1] == AxisLabel(2, 2024) by {
      GetMonthsEntry(from, to, 1);
      SameMonthIndex(AddMonths(from, 1).value, DateTime(2024, 2, 1, 0));
    }
    PairDisplay(ls, AxisLabel(1, 2024), AxisLabel(2, 2024));
  }

  /** For the same input the corrected axis is January, February and March 2024. */
  lemma GetMonthsThroughEndKeepsMarch2024(from: Date, to: Date)
    requires from == DateTime(2024, 1, 31, 360_000_000_000) && to == DateTime(2024, 3, 15, 0)
    ensures GetMonthsThroughEnd(from, to) == Success([AxisLabel(1, 2024), AxisLabel(2, 2024), AxisLabel(3, 2024)])
  {
    GetMonthsThroughEndFailure(from, to);
    var ls := GetMonthsThroughEnd(from, to).value;
    assert |ls| == 3 by {
      GetMonthsThroughEndLength(from, to);
    }
    assert ls[0] == AxisLabel(1, 2024) by {
      GetMonthsThroughEndEntry(from, to, 0);
      AddZeroMonths(from);
    }
    assert ls[1] == AxisLabel(2, 2024) by {
      GetMonthsThroughEndEntry(from, to, 1);
      SameMonthIndex(AddMonths(from, 1).value, DateTime(2024, 2, 1, 0));
    }
    assert ls[2] == AxisLabel(3, 2024) by {
      GetMonthsThroughEndEntry(from, to, 2);
      SameMonthIndex(AddMonths(from, 2).value, to);
    }
    TripleDisplay(ls, AxisLabel(1, 2024), AxisLabel(2, 2024), AxisLabel(3, 2024));
  }
}
