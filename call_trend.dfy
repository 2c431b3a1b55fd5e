/**
 * CallTrendChartData: one lab's calls per month and call type in a date
 * range. The grid has the month axis as rows and the call types as columns;
 * valid calls are folded in first, missed calls second, each group looked up
 * under GetMonthName(Month) + " " + Year and written to the cell of exactly
 * its call type. TrendReport is the report on the month axis as written;
 * CallTrendChartData computes it on the corrected axis GetMonthsThroughEnd,
 * on which no call within the range misses its row.
 */
module CallTrend {
  import opened Outcomes
  import opened Sequences
  import opened Strings
  import opened Calendar
  import opened Calls
  import opened MonthAxis
  import opened ChartGrid

  /** The response: the lab axis, the month axis, the lab asked for, the call types, the grid and its counts. */
  datatype TrendChart = TrendChart(labs: seq<string>, period: seq<string>, labName: string, callTypes: seq<string>,
                                   trendData: Grid, countData: seq<seq<int>>)

  /** A group key: (EventTime.Month, EventTime.Year, CallType). */
  type TrendKey = (Month, Year, Option<string>)

  /** The Where clause of both queries: in range, and of the lab asked for, ignoring case. */
  predicate Kept(labName: string, eventLab: string, t: Date, from: Date, to: Date): (r: bool)
    ensures r <==> && InRange(t, from, to) && |eventLab| == |labName|
                   && forall i :: 0 <= i < |eventLab| ==> CaseVariants(eventLab[i], labName[i])
  {
    InRange(t, from, to) && SameIgnoringCase(eventLab, labName)
  }

  /** A call recorded under "Lab A" is kept for the lab asked for as "LAB A", and one of "Lab B" is not. */
  lemma KeptIgnoresCase(t: Date, from: Date, to: Date)
    requires InRange(t, from, to)
    ensures Kept("LAB A", "Lab A", t, from, to)
    ensures !Kept("LAB A", "Lab B", t, from, to)
  {
    var a, b, c := "Lab A", "LAB A", "Lab B";
    forall i | 0 <= i < |a| ensures CaseVariants(a[i], b[i]) {
      assert i == 0 || i == 1 || i == 2 || i == 3 || i == 4;
    }
    assert !CaseVariants(c[4], b[4]);
  }

  /** The group key of a valid call. */
  function ValidTrendKey(c: ValidCall): TrendKey {
    (c.eventTime.month, c.eventTime.year, c.callType)
  }

  /** The group key of a missed call. */
  function MissedTrendKey(c: MissedCall): TrendKey {
    (c.eventTime.month, c.eventTime.year, Some("Missed"))
  }

  /** The group key of every valid call the query keeps, in table order. */
  function TrendValidKeys(valid: seq<ValidCall>, labName: string, from: Date, to: Date): (ks: seq<TrendKey>)
    ensures forall x :: x in ks <==>
              exists c :: c in valid && Kept(labName, c.labName, c.eventTime, from, to) && x == ValidTrendKey(c)
  {
    if valid == [] then []
    else
      var c := valid[0];
      var rest := TrendValidKeys(valid[1..], labName, from, to);
      assert forall d :: d in valid <==> d == c || d in valid[1..];
      (if Kept(labName, c.labName, c.eventTime, from, to) then [ValidTrendKey(c)] else []) + rest
  }

  /** The group key of every missed call the query keeps, in table order. */
  function TrendMissedKeys(missed: seq<MissedCall>, labName: string, from: Date, to: Date): (ks: seq<TrendKey>)
    ensures forall x :: x in ks <==>
              exists c :: c in missed && Kept(labName, c.labName, c.eventTime, from, to) && x == MissedTrendKey(c)
  {
    if missed == [] then []
    else
      var c := missed[0];
      var rest := TrendMissedKeys(missed[1..], labName, from, to);
      assert forall d :: d in missed <==> d == c || d in missed[1..];
      (if Kept(labName, c.labName, c.eventTime, from, to) then [MissedTrendKey(c)] else []) + rest
  }

  /** The number of valid calls the query keeps that fall in month (m, y) and have call type `callType`. */
  function ValidMonthCount(valid: seq<ValidCall>, labName: string, from: Date, to: Date, m: Month, y: Year, callType: Option<string>): (n: nat)
    ensures n <= |valid|
    ensures n > 0 <==> exists c :: c in valid && Kept(labName, c.labName, c.eventTime, from, to)
                                    && c.eventTime.month == m && c.eventTime.year == y && c.callType == callType
  {
    if valid == [] then 0
    else
      var c := valid[0];
      assert forall d :: d in valid <==> d == c || d in valid[1..];
      (if Kept(labName, c.labName, c.eventTime, from, to) && c.eventTime.month == m && c.eventTime.year == y && c.callType == callType
       then 1 else 0)
        + ValidMonthCount(valid[1..], labName, from, to, m, y, callType)
  }

  /** The number of missed calls the query keeps that fall in month (m, y). */
  function MissedMonthCount(missed: seq<MissedCall>, labName: string, from: Date, to: Date, m: Month, y: Year): (n: nat)
    ensures n <= |missed|
    ensures n > 0 <==> exists c :: c in missed && Kept(labName, c.labName, c.eventTime, from, to)
                                    && c.eventTime.month == m && c.eventTime.year == y
  {
    if missed == [] then 0
    else
      var c := missed[0];
      assert forall d :: d in missed <==> d == c || d in missed[1..];
      (if Kept(labName, c.labName, c.eventTime, from, to) && c.eventTime.month == m && c.eventTime.year == y then 1 else 0)
        + MissedMonthCount(missed[1..], labName, from, to, m, y)
  }

  /** Key (m, y, callType) occurs once per kept valid call of that month and call type. */
  lemma {:induction false} TrendValidKeysCount(valid: seq<ValidCall>, labName: string, from: Date, to: Date,
                                               m: Month, y: Year, callType: Option<string>)
    ensures multiset(TrendValidKeys(valid, labName, from, to))[(m, y, callType)] ==
              ValidMonthCount(valid, labName, from, to, m, y, callType)
  {
    if valid != [] {
      TrendValidKeysCount(valid[1..], labName, from, to, m, y, callType);
    }
  }

  /** Key (m, y, callType) occurs once per kept missed call of that month, and only for "Missed". */
  lemma {:induction false} TrendMissedKeysCount(missed: seq<MissedCall>, labName: string, from: Date, to: Date,
                                                m: Month, y: Year, callType: Option<string>)
    ensures multiset(TrendMissedKeys(missed, labName, from, to))[(m, y, callType)] ==
              if callType == Some("Missed") then MissedMonthCount(missed, labName, from, to, m, y) else 0
  {
    if missed != [] {
      TrendMissedKeysCount(missed[1..], labName, from, to, m, y, callType);
    }
  }

  /** Each group is looked up under its month's label and written to the cell of exactly its call type. */
  function TrendUpdates(gs: seq<(TrendKey, nat)>): (us: seq<Update>)
    ensures |us| == |gs|
    ensures forall k :: 0 <= k < |gs| ==> us[k].row == Some(GroupLabel(gs[k].0.0, gs[k].0.1)) && us[k].count == gs[k].1
    ensures forall k, key, name :: 0 <= k < |gs| ==>
              (Targets(us[k], key, name) <==> key == GroupLabel(gs[k].0.0, gs[k].0.1) && gs[k].0.2 == Some(name))
  {
    seq(|gs|, k requires 0 <= k < |gs| => Update(Some(GroupLabel(gs[k].0.0, gs[k].0.1)), Exactly(gs[k].0.2), gs[k].1))
  }

  /**
   * The grid part of the report, from the month axis and the two lists of
   * group keys: the months as rows, each with one cell per call type.
   */
  function TrendChartOf(labs: seq<string>, labName: string, period: seq<string>, validKeys: seq<TrendKey>, missedKeys: seq<TrendKey>)
    : (r: Result<TrendChart>)
    ensures r.Success? ==>
              && r.value.labs == labs && r.value.period == period && r.value.labName == labName
              && r.value.callTypes == CallTypes
              && r.value.trendData.keys == period && |r.value.trendData.rows| == |period|
              && (forall i :: 0 <= i < |period| ==> |r.value.trendData.rows[i]| == |CallTypes|)
              && (forall i, j :: 0 <= i < |period| && 0 <= j < |CallTypes| ==> r.value.trendData.rows[i][j].name == CallTypes[j])
              && r.value.countData == CountsOf(r.value.trendData)
  {
    var zero :- ZeroGrid(period, CallTypes);
    var validUpdates := TrendUpdates(GroupCount(validKeys));
    var afterValid :- Fold(zero, validUpdates, RejectNull);
    FoldCells(zero, validUpdates, RejectNull);
    var missedUpdates := TrendUpdates(GroupCount(missedKeys));
    var afterMissed :- Fold(afterValid, missedUpdates, RejectNull);
    FoldCells(afterValid, missedUpdates, RejectNull);
    Success(TrendChart(labs, period, labName, CallTypes, afterMissed, CountsOf(afterMissed)))
  }

  /** The report as the controller computes it, on the month axis GetMonths gives. */
  function TrendReport(valid: seq<ValidCall>, missed: seq<MissedCall>, labName: string, from: Date, to: Date)
    : (r: Result<TrendChart>)
    ensures r.Success? ==>
              && GetMonths(from, to).Success? && r.value.period == GetMonths(from, to).value
              && r.value.labs == GetLabs(valid, missed) && r.value.labName == labName
    ensures r.Failure? ==>
              r.error == if GetMonths(from, to).Failure? then DateOutOfRange else KeyNotFound
  {
    var months :- GetMonths(from, to);
    TrendChartSucceeds(GetLabs(valid, missed), labName, months,
      TrendValidKeys(valid, labName, from, to), TrendMissedKeys(missed, labName, from, to));
    TrendChartOf(GetLabs(valid, missed), labName, months,
      TrendValidKeys(valid, labName, from, to), TrendMissedKeys(missed, labName, from, to))
  }

  /** The report on the corrected month axis, which ends at the last tick of `to`'s month. */
  function TrendReportThroughEnd(valid: seq<ValidCall>, missed: seq<MissedCall>, labName: string, from: Date, to: Date)
    : (r: Result<TrendChart>)
    ensures r.Success? ==>
              && GetMonthsThroughEnd(from, to).Success? && r.value.period == GetMonthsThroughEnd(from, to).value
              && r.value.labs == GetLabs(valid, missed) && r.value.labName == labName
    ensures r.Failure? ==>
              r.error == if GetMonthsThroughEnd(from, to).Failure? then DateOutOfRange else KeyNotFound
  {
    var months :- GetMonthsThroughEnd(from, to);
    TrendChartSucceeds(GetLabs(valid, missed), labName, months,
      TrendValidKeys(valid, labName, from, to), TrendMissedKeys(missed, labName, from, to));
    TrendChartOf(GetLabs(valid, missed), labName, months,
      TrendValidKeys(valid, labName, from, to), TrendMissedKeys(missed, labName, from, to))
  }

  /**
   * CallTrendChartData, with both tables, the lab and both dates resolved as
   * inputs, on the corrected month axis (GetMonthsThroughEnd); TrendReport
   * keeps the axis as written.
   */
  method CallTrendChartData(valid: seq<ValidCall>, missed: seq<MissedCall>, labName: string, from: Date, to: Date)
    returns (r: Result<TrendChart>)
    ensures r == TrendReportThroughEnd(valid, missed, labName, from, to)
  {
    var labs := GetLabs(valid, missed);
    var months :- GetMonthsThroughEnd(from, to);
    // The axis repeats no label, so the build loop cannot throw.
    var built := BuildGrid(months, CallTypes);
    var zero := built.value;
    var validGroups := GroupCount(TrendValidKeys(valid, labName, from, to));
    var missedGroups := GroupCount(TrendMissedKeys(missed, labName, from, to));
    var afterValid :- FoldUpdates(zero, TrendUpdates(validGroups), RejectNull);
    var afterMissed :- FoldUpdates(afterValid, TrendUpdates(missedGroups), RejectNull);
    var countData := CountData(afterMissed);
    r := Success(TrendChart(labs, months, labName, CallTypes, afterMissed, countData));
  }

  /** The groups of `xs` all find their row exactly when every key's month label is on the axis. */
  lemma TrendUpdatesAcceptable(xs: seq<TrendKey>, period: seq<string>)
    ensures (forall k :: 0 <= k < |GroupCount(xs)| ==> Acceptable(TrendUpdates(GroupCount(xs))[k], period, RejectNull))
        <==> forall x :: x in xs ==> GroupLabel(x.0, x.1) in period
  {
    var gs := GroupCount(xs);
    var us := TrendUpdates(gs);
    var onAxis := (x: TrendKey) => GroupLabel(x.0, x.1) in period;
    forall k | 0 <= k < |us| ensures Acceptable(us[k], period, RejectNull) <==> onAxis(gs[k].0) {
      assert us[k].row == Some(GroupLabel(gs[k].0.0, gs[k].0.1));
    }
    GroupsAll(xs, onAxis);
  }

  /**
   * Folding the groups of `xs` into a grid succeeds exactly when the month
   * label of every key is a row of the grid; every update names a row, so
   * a failure is KeyNotFound.
   */
  lemma TrendFold(g: Grid, xs: seq<TrendKey>)
    requires g.Valid()
    ensures Fold(g, TrendUpdates(GroupCount(xs)), RejectNull).Success? <==> forall x :: x in xs ==> GroupLabel(x.0, x.1) in g.keys
    ensures Fold(g, TrendUpdates(GroupCount(xs)), RejectNull).Failure? ==>
              Fold(g, TrendUpdates(GroupCount(xs)), RejectNull).error == KeyNotFound
  {
    var us := TrendUpdates(GroupCount(xs));
    assert Fold(g, us, RejectNull).Success? <==> forall x :: x in xs ==> GroupLabel(x.0, x.1) in g.keys by {
      TrendUpdatesAcceptable(xs, g.keys);
      FoldSucceeds(g, us, RejectNull);
    }
    FoldNamedRows(g, us, RejectNull);
  }

  /**
   * The grid part succeeds exactly when the month axis repeats no label and
   * the month label of every key is on it; a repeated label throws at the
   * build, a missing one with KeyNotFound.
   */
  lemma TrendChartSucceeds(labs: seq<string>, labName: string, period: seq<string>, validKeys: seq<TrendKey>, missedKeys: seq<TrendKey>)
    ensures TrendChartOf(labs, labName, period, validKeys, missedKeys).Success? <==>
              && NoDuplicates(period)
              && (forall x :: x in validKeys ==> GroupLabel(x.0, x.1) in period)
              && (forall x :: x in missedKeys ==> GroupLabel(x.0, x.1) in period)
    ensures TrendChartOf(labs, labName, period, validKeys, missedKeys).Failure? ==>
              TrendChartOf(labs, labName, period, validKeys, missedKeys).error ==
                if NoDuplicates(period) then KeyNotFound else DuplicateKey
  {
    if NoDuplicates(period) {
      var zero := ZeroGrid(period, CallTypes).value;
      TrendFold(zero, validKeys);
      var first := Fold(zero, TrendUpdates(GroupCount(validKeys)), RejectNull);
      if first.Success? {
        FoldCells(zero, TrendUpdates(GroupCount(validKeys)), RejectNull);
        TrendFold(first.value, missedKeys);
      }
    }
  }

  /**
   * The groups that write to cell `callType` of the row labelled with the
   * month (m, y) are the groups of the key (m, y, callType), and only from the
   * year 1000 on: below it no group's label is an axis label.
   */
  lemma TrendTargets(xs: seq<TrendKey>, m: Month, y: Year, callType: string)
    ensures var gs := GroupCount(xs);
      forall k :: 0 <= k < |gs| ==>
        TrendUpdates(gs)[k].count == gs[k].1 &&
        (Targets(TrendUpdates(gs)[k], AxisLabel(m, y), callType) <==> 1000 <= y && gs[k].0 == (m, y, Some(callType)))
  {
    var gs := GroupCount(xs);
    forall k | 0 <= k < |gs|
      ensures Targets(TrendUpdates(gs)[k], AxisLabel(m, y), callType) <==> 1000 <= y && gs[k].0 == (m, y, Some(callType))
    {
      GroupLabelMatchesAxis(gs[k].0.0, gs[k].0.1, m, y);
    }
  }

  /** In the grid part, a cell's count is what the valid groups and then the missed groups last wrote to it. */
  lemma TrendChartFolds(labs: seq<string>, labName: string, period: seq<string>, validKeys: seq<TrendKey>, missedKeys: seq<TrendKey>,
                        i: nat, j: nat)
    requires TrendChartOf(labs, labName, period, validKeys, missedKeys).Success?
    requires i < |period| && j < |CallTypes|
    ensures TrendChartOf(labs, labName, period, validKeys, missedKeys).value.countData[i][j] ==
              Final(TrendUpdates(GroupCount(missedKeys)), period[i], CallTypes[j],
                Final(TrendUpdates(GroupCount(validKeys)), period[i], CallTypes[j], 0))
  {
    var zero := ZeroGrid(period, CallTypes).value;
    var us1 := TrendUpdates(GroupCount(validKeys));
    var us2 := TrendUpdates(GroupCount(missedKeys));
    FoldCells(zero, us1, RejectNull);
    var afterValid := Fold(zero, us1, RejectNull).value;
    FoldCells(afterValid, us2, RejectNull);
    var afterMissed := Fold(afterValid, us2, RejectNull).value;
    assert zero.keys[i] == period[i] && zero.rows[i][j] == Cell(CallTypes[j], 0);
    assert TrendChartOf(labs, labName, period, validKeys, missedKeys) ==
      Success(TrendChart(labs, period, labName, CallTypes, afterMissed, CountsOf(afterMissed)));
  }

  /**
   * In the grid part, the cell of call type `CallTypes[j]` in the row of the
   * month (m, y) holds the missed count of (m, y, CallTypes[j]), or where
   * there is none, its valid count; rows of years below 1000 stay zero.
   */
  lemma TrendChartCell(labs: seq<string>, labName: string, period: seq<string>, validKeys: seq<TrendKey>, missedKeys: seq<TrendKey>,
                       i: nat, j: nat, m: Month, y: Year)
    requires TrendChartOf(labs, labName, period, validKeys, missedKeys).Success?
    requires i < |period| && j < |CallTypes| && period[i] == AxisLabel(m, y)
    ensures var key := (m, y, Some(CallTypes[j]));
      TrendChartOf(labs, labName, period, validKeys, missedKeys).value.countData[i][j] ==
        if 1000 <= y then Overlay(multiset(validKeys)[key], multiset(missedKeys)[key]) else 0
  {
    TrendChartFolds(labs, labName, period, validKeys, missedKeys, i, j);
    var key: TrendKey := (m, y, Some(CallTypes[j]));
    var us1 := TrendUpdates(GroupCount(validKeys));
    var us2 := TrendUpdates(GroupCount(missedKeys));
    TrendTargets(validKeys, m, y, CallTypes[j]);
    TrendTargets(missedKeys, m, y, CallTypes[j]);
    if 1000 <= y {
      FinalOfGroups(validKeys, us1, key, period[i], CallTypes[j], 0);
      FinalOfGroups(missedKeys, us2, key, period[i], CallTypes[j], Final(us1, period[i], CallTypes[j], 0));
    } else {
      FinalNone(us1, period[i], CallTypes[j], 0);
      FinalNone(us2, period[i], CallTypes[j], 0);
    }
  }

  /** Every valid key's month is on the axis exactly when the month of every valid call kept is. */
  lemma TrendValidKeysOnAxis(valid: seq<ValidCall>, labName: string, from: Date, to: Date, period: seq<string>)
    ensures (forall x :: x in TrendValidKeys(valid, labName, from, to) ==> GroupLabel(x.0, x.1) in period) <==>
              forall c :: c in valid && Kept(labName, c.labName, c.eventTime, from, to) ==>
                GroupLabel(c.eventTime.month, c.eventTime.year) in period
  {
    var ks := TrendValidKeys(valid, labName, from, to);
    if forall x :: x in ks ==> GroupLabel(x.0, x.1) in period {
      forall c | c in valid && Kept(labName, c.labName, c.eventTime, from, to)
        ensures GroupLabel(c.eventTime.month, c.eventTime.year) in period
      {
        assert ValidTrendKey(c) in ks;
      }
    }
  }

  /** Every missed key's month is on the axis exactly when the month of every missed call kept is. */
  lemma TrendMissedKeysOnAxis(missed: seq<MissedCall>, labName: string, from: Date, to: Date, period: seq<string>)
    ensures (forall x :: x in TrendMissedKeys(missed, labName, from, to) ==> GroupLabel(x.0, x.1) in period) <==>
              forall c :: c in missed && Kept(labName, c.labName, c.eventTime, from, to) ==>
                GroupLabel(c.eventTime.month, c.eventTime.year) in period
  {
    var ks := TrendMissedKeys(missed, labName, from, to);
    if forall x :: x in ks ==> GroupLabel(x.0, x.1) in period {
      forall c | c in missed && Kept(labName, c.labName, c.eventTime, from, to)
        ensures GroupLabel(c.eventTime.month, c.eventTime.year) in period
      {
        assert MissedTrendKey(c) in ks;
      }
    }
  }

  /** The month label of every call of the lab in the range, valid and missed, is on the axis. */
  predicate AllOnAxis(valid: seq<ValidCall>, missed: seq<MissedCall>, labName: string, from: Date, to: Date, period: seq<string>) {
    && (forall c :: c in valid && Kept(labName, c.labName, c.eventTime, from, to) ==>
          GroupLabel(c.eventTime.month, c.eventTime.year) in period)
    && (forall c :: c in missed && Kept(labName, c.labName, c.eventTime, from, to) ==>
          GroupLabel(c.eventTime.month, c.eventTime.year) in period)
  }

  /**
   * The report succeeds exactly when GetMonths does and every call of the lab
   * in the range falls in a month on its axis; otherwise it fails with
   * DateOutOfRange, which only a `to` in December 9999 causes, or with
   * KeyNotFound for the call whose month is missing.
   */
  lemma TrendReportSucceeds(valid: seq<ValidCall>, missed: seq<MissedCall>, labName: string, from: Date, to: Date)
    ensures TrendReport(valid, missed, labName, from, to).Success? <==>
              GetMonths(from, to).Success? && AllOnAxis(valid, missed, labName, from, to, GetMonths(from, to).value)
    ensures TrendReport(valid, missed, labName, from, to).Failure? ==>
              if GetMonths(from, to).Failure?
              then TrendReport(valid, missed, labName, from, to).error == DateOutOfRange && to.year == MaxYear && to.month == 12
              else TrendReport(valid, missed, labName, from, to).error == KeyNotFound
  {
    GetMonthsFailure(from, to);
    if GetMonths(from, to).Success? {
      var months := GetMonths(from, to).value;
      TrendValidKeysOnAxis(valid, labName, from, to, months);
      TrendMissedKeysOnAxis(missed, labName, from, to, months);
      TrendChartSucceeds(GetLabs(valid, missed), labName, months,
        TrendValidKeys(valid, labName, from, to), TrendMissedKeys(missed, labName, from, to));
    }
  }

  /**
   * A call of the lab in range dated before the year 1000 makes the report
   * fail: its group key prints the year without padding, so no axis label
   * matches it. The failure is KeyNotFound unless GetMonths has already thrown.
   */
  lemma TrendReportEarlyYear(valid: seq<ValidCall>, missed: seq<MissedCall>, labName: string, from: Date, to: Date, t: Date)
    requires t.year < 1000
    requires (exists c :: c in valid && c.eventTime == t && Kept(labName, c.labName, t, from, to))
          || (exists c :: c in missed && c.eventTime == t && Kept(labName, c.labName, t, from, to))
    ensures TrendReport(valid, missed, labName, from, to).Failure?
    ensures TrendReport(valid, missed, labName, from, to).error ==
              if GetMonths(from, to).Failure? then DateOutOfRange else KeyNotFound
  {
    if GetMonths(from, to).Success? {
      var months := GetMonths(from, to).value;
      assert GroupLabel(t.month, t.year) !in months by {
        GetMonthsEntries(from, to);
        forall k | 0 <= k < |months| ensures months[k] != GroupLabel(t.month, t.year) {
          var e := AddMonths(from, k).value;
          GroupLabelMatchesAxis(t.month, t.year, e.month, e.year);
        }
      }
      TrendReportSucceeds(valid, missed, labName, from, to);
    }
  }

  /**
   * Row i of the report is the month `from` advanced i months; its cell for
   * `CallTypes[j]` holds the number of the lab's missed calls in range of that
   * month (in the column "Missed" only), or where there are none, the number
   * of its valid calls in range of that month and call type: missed groups
   * are written last. For a year below 1000 the row stays zero.
   */
  lemma TrendReportCell(valid: seq<ValidCall>, missed: seq<MissedCall>, labName: string, from: Date, to: Date, i: nat, j: nat)
    requires TrendReport(valid, missed, labName, from, to).Success?
    requires i < |TrendReport(valid, missed, labName, from, to).value.period| && j < |CallTypes|
    ensures AddMonths(from, i).Success?
    ensures var d := AddMonths(from, i).value;
      TrendReport(valid, missed, labName, from, to).value.countData[i][j] ==
        if 1000 <= d.year
        then Overlay(ValidMonthCount(valid, labName, from, to, d.month, d.year, Some(CallTypes[j])),
                     if CallTypes[j] == "Missed" then MissedMonthCount(missed, labName, from, to, d.month, d.year) else 0)
        else 0
  {
    var months := GetMonths(from, to).value;
    GetMonthsEntries(from, to);
    var d := AddMonths(from, i).value;
    TrendChartCell(GetLabs(valid, missed), labName, months,
      TrendValidKeys(valid, labName, from, to), TrendMissedKeys(missed, labName, from, to), i, j, d.month, d.year);
    TrendValidKeysCount(valid, labName, from, to, d.month, d.year, Some(CallTypes[j]));
    TrendMissedKeysCount(missed, labName, from, to, d.month, d.year, Some(CallTypes[j]));
  }

  /** A call kept by the range filter has its month on the corrected axis, unless its year is below 1000. */
  lemma ThroughEndLabel(from: Date, to: Date, t: Date)
    requires GetMonthsThroughEnd(from, to).Success?
    requires InRange(t, from, to)
    ensures GroupLabel(t.month, t.year) in GetMonthsThroughEnd(from, to).value <==> 1000 <= t.year
  {
    var ls := GetMonthsThroughEnd(from, to).value;
    if 1000 <= t.year {
      GetMonthsThroughEndCovers(from, to, t);
    } else {
      GetMonthsThroughEndLength(from, to);
      forall k | 0 <= k < |ls| ensures ls[k] != GroupLabel(t.month, t.year) {
        var e := AddMonths(from, k).value;
        GroupLabelMatchesAxis(t.month, t.year, e.month, e.year);
      }
    }
  }

  /**
   * On the corrected axis, the report succeeds for every `to` before December
   * 9999 exactly when every call of the lab in the range is dated in the year
   * 1000 or later; no call within the range misses its row.
   */
  lemma TrendReportThroughEndSucceeds(valid: seq<ValidCall>, missed: seq<MissedCall>, labName: string, from: Date, to: Date)
    requires !(to.year == MaxYear && to.month == 12)
    ensures TrendReportThroughEnd(valid, missed, labName, from, to).Success? <==>
              && (forall c :: c in valid && Kept(labName, c.labName, c.eventTime, from, to) ==> 1000 <= c.eventTime.year)
              && (forall c :: c in missed && Kept(labName, c.labName, c.eventTime, from, to) ==> 1000 <= c.eventTime.year)
    ensures TrendReportThroughEnd(valid, missed, labName, from, to).Failure? ==>
              TrendReportThroughEnd(valid, missed, labName, from, to).error == KeyNotFound
  {
    GetMonthsThroughEndFailure(from, to);
    var months := GetMonthsThroughEnd(from, to).value;
    forall c | c in valid && Kept(labName, c.labName, c.eventTime, from, to)
      ensures GroupLabel(c.eventTime.month, c.eventTime.year) in months <==> 1000 <= c.eventTime.year
    {
      ThroughEndLabel(from, to, c.eventTime);
    }
    forall c | c in missed && Kept(labName, c.labName, c.eventTime, from, to)
      ensures GroupLabel(c.eventTime.month, c.eventTime.year) in months <==> 1000 <= c.eventTime.year
    {
      ThroughEndLabel(from, to, c.eventTime);
    }
    TrendValidKeysOnAxis(valid, labName, from, to, months);
    TrendMissedKeysOnAxis(missed, labName, from, to, months);
    TrendChartSucceeds(GetLabs(valid, missed), labName, months,
      TrendValidKeys(valid, labName, from, to), TrendMissedKeys(missed, labName, from, to));
  }

  /**
   * One input that shows it: a lab's single incoming call on 2024-03-10, asked
   * for from 2024-01-31 10:00 to 2024-03-15. As written, March is not on the
   * axis and the report throws KeyNotFound.
   */
  lemma TrendReportMissesMarch2024(valid: seq<ValidCall>, missed: seq<MissedCall>, labName: string, from: Date, to: Date)
    requires from == DateTime(2024, 1, 31, 360_000_000_000) && to == DateTime(2024, 3, 15, 0)
    requires labName == "Lab" && missed == []
    requires valid == [ValidCall("Lab", DateTime(2024, 3, 10, 0), Some("Incoming"), None)]
    ensures TrendReport(valid, missed, labName, from, to) == Failure(KeyNotFound)
  {
    var c := valid[0];
    assert c in valid && Kept(labName, c.labName, c.eventTime, from, to);
    GetMonthsDropsMarch2024(from, to);
    GroupLabelMatchesAxis(3, 2024, 3, 2024);
    TrendReportSucceeds(valid, missed, labName, from, to);
  }

  /** For the same input the report on the corrected axis succeeds. */
  lemma TrendReportThroughEndKeepsMarch2024(valid: seq<ValidCall>, missed: seq<MissedCall>, labName: string, from: Date, to: Date)
    requires from == DateTime(2024, 1, 31, 360_000_000_000) && to == DateTime(2024, 3, 15, 0)
    requires labName == "Lab" && missed == []
    requires valid == [ValidCall("Lab", DateTime(2024, 3, 10, 0), Some("Incoming"), None)]
    ensures TrendReportThroughEnd(valid, missed, labName, from, to).Success?
  {
    assert forall c :: c in valid ==> 1000 <= c.eventTime.year;
    TrendReportThroughEndSucceeds(valid, missed, labName, from, to);
  }

  /**
   * On the corrected axis, row i is the month `from` advanced i months, and
   * its cells count the lab's calls in range of that month as in TrendReportCell.
   */
  lemma TrendReportThroughEndCell(valid: seq<ValidCall>, missed: seq<MissedCall>, labName: string, from: Date, to: Date, i: nat, j: nat)
    requires TrendReportThroughEnd(valid, missed, labName, from, to).Success?
    requires i < |TrendReportThroughEnd(valid, missed, labName, from, to).value.period| && j < |CallTypes|
    ensures AddMonths(from, i).Success?
    ensures var d := AddMonths(from, i).value;
      TrendReportThroughEnd(valid, missed, labName, from, to).value.countData[i][j] ==
        if 1000 <= d.year
        then Overlay(ValidMonthCount(valid, labName, from, to, d.month, d.year, Some(CallTypes[j])),
                     if CallTypes[j] == "Missed" then MissedMonthCount(missed, labName, from, to, d.month, d.year) else 0)
        else 0
  {
    var months := GetMonthsThroughEnd(from, to).value;
    GetMonthsThroughEndLength(from, to);
    var d := AddMonths(from, i).value;
    TrendChartCell(GetLabs(valid, missed), labName, months,
      TrendValidKeys(valid, labName, from, to), TrendMissedKeys(missed, labName, from, to), i, j, d.month, d.year);
    TrendValidKeysCount(valid, labName, from, to, d.month, d.year, Some(CallTypes[j]));
    TrendMissedKeysCount(missed, labName, from, to, d.month, d.year, Some(CallTypes[j]));
  }
}
