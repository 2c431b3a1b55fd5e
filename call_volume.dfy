/**
 * GetCallVolumeChartData: calls per call type and lab in a date range. The
 * grid has the call types as rows and the labs as columns; missed calls are
 * folded in first, valid calls second, each lab matched ignoring case.
 */
module CallVolume {
  import opened Outcomes
  import opened Sequences
  import opened Strings
  import opened Calendar
  import opened Calls
  import opened ChartGrid

  /** The response: the lab axis, the call-type axis, the grid and its counts. */
  datatype VolumeChart = VolumeChart(labs: seq<string>, callTypes: seq<string>, volumeData: Grid, countData: seq<seq<int>>)

  /** The group key (LabName, CallType) of every valid call in range, in table order. */
  function ValidVolumeKeys(valid: seq<ValidCall>, from: Date, to: Date): (ks: seq<(string, Option<string>)>)
    ensures forall x :: x in ks <==> exists c :: c in valid && InRange(c.eventTime, from, to) && x == (c.labName, c.callType)
  {
    if valid == [] then []
    else
      var c := valid[0];
      var rest := ValidVolumeKeys(valid[1..], from, to);
      assert forall d :: d in valid <==> d == c || d in valid[1..];
      (if InRange(c.eventTime, from, to) then [(c.labName, c.callType)] else []) + rest
  }

  /** The group key (LabName, "Missed") of every missed call in range, in table order. */
  function MissedVolumeKeys(missed: seq<MissedCall>, from: Date, to: Date): (ks: seq<(string, Option<string>)>)
    ensures forall x :: x in ks <==> exists c :: c in missed && InRange(c.eventTime, from, to) && x == (c.labName, Some("Missed"))
  {
    if missed == [] then []
    else
      var c := missed[0];
      var rest := MissedVolumeKeys(missed[1..], from, to);
      assert forall d :: d in missed <==> d == c || d in missed[1..];
      (if InRange(c.eventTime, from, to) then [(c.labName, Some("Missed"))] else []) + rest
  }

  /** The number of valid calls in range of lab `lab` with call type `callType`. */
  function ValidTypeCount(valid: seq<ValidCall>, from: Date, to: Date, lab: string, callType: Option<string>): (n: nat)
    ensures n <= |valid|
    ensures n > 0 <==> exists c :: c in valid && InRange(c.eventTime, from, to) && c.labName == lab && c.callType == callType
  {
    if valid == [] then 0
    else
      var c := valid[0];
      assert forall d :: d in valid <==> d == c || d in valid[1..];
      (if InRange(c.eventTime, from, to) && c.labName == lab && c.callType == callType then 1 else 0)
        + ValidTypeCount(valid[1..], from, to, lab, callType)
  }

  /** The number of missed calls in range of lab `lab`. */
  function MissedLabCount(missed: seq<MissedCall>, from: Date, to: Date, lab: string): (n: nat)
    ensures n <= |missed|
    ensures n > 0 <==> exists c :: c in missed && InRange(c.eventTime, from, to) && c.labName == lab
  {
    if missed == [] then 0
    else
      var c := missed[0];
      assert forall d :: d in missed <==> d == c || d in missed[1..];
      (if InRange(c.eventTime, from, to) && c.labName == lab then 1 else 0) + MissedLabCount(missed[1..], from, to, lab)
  }

  /** Key (lab, callType) occurs among the valid keys once per valid call in range with that lab and call type. */
  lemma {:induction false} ValidVolumeKeysCount(valid: seq<ValidCall>, from: Date, to: Date, lab: string, callType: Option<string>)
    ensures multiset(ValidVolumeKeys(valid, from, to))[(lab, callType)] == ValidTypeCount(valid, from, to, lab, callType)
  {
    if valid != [] {
      ValidVolumeKeysCount(valid[1..], from, to, lab, callType);
    }
  }

  /** Key (lab, callType) occurs among the missed keys once per missed call in range of that lab, and only for "Missed". */
  lemma {:induction false} MissedVolumeKeysCount(missed: seq<MissedCall>, from: Date, to: Date, lab: string, callType: Option<string>)
    ensures multiset(MissedVolumeKeys(missed, from, to))[(lab, callType)] ==
              if callType == Some("Missed") then MissedLabCount(missed, from, to, lab) else 0
  {
    if missed != [] {
      MissedVolumeKeysCount(missed[1..], from, to, lab, callType);
    }
  }

  /** Each group is looked up under its call type and written to the cells of its lab, ignoring case. */
  function VolumeUpdates(gs: seq<((string, Option<string>), nat)>): (us: seq<Update>)
    ensures |us| == |gs|
    ensures forall k :: 0 <= k < |gs| ==> us[k].row == gs[k].0.1 && us[k].count == gs[k].1
    ensures forall k, key, name :: 0 <= k < |gs| ==>
              (Targets(us[k], key, name) <==> gs[k].0.1 == Some(key) && SameIgnoringCase(name, gs[k].0.0))
  {
    seq(|gs|, k requires 0 <= k < |gs| => Update(gs[k].0.1, IgnoringCase(gs[k].0.0), gs[k].1))
  }

  /**
   * The grid part of the report, from the lab axis and the two lists of group
   * keys: the call types as rows, each with one cell per lab, in lab order.
   */
  function VolumeChartOf(labs: seq<string>, missedKeys: seq<(string, Option<string>)>, validKeys: seq<(string, Option<string>)>)
    : (r: Result<VolumeChart>)
    ensures r.Success? ==>
              && r.value.labs == labs && r.value.callTypes == CallTypes
              && r.value.volumeData.keys == CallTypes && |r.value.volumeData.rows| == |CallTypes|
              && (forall i :: 0 <= i < |CallTypes| ==> |r.value.volumeData.rows[i]| == |labs|)
              && (forall i, j :: 0 <= i < |CallTypes| && 0 <= j < |labs| ==> r.value.volumeData.rows[i][j].name == labs[j])
              && r.value.countData == CountsOf(r.value.volumeData)
  {
    var zero :- ZeroGrid(CallTypes, labs);
    var missedUpdates := VolumeUpdates(GroupCount(missedKeys));
    var afterMissed :- Fold(zero, missedUpdates, SkipNull);
    FoldCells(zero, missedUpdates, SkipNull);
    var validUpdates := VolumeUpdates(GroupCount(validKeys));
    var afterValid :- Fold(afterMissed, validUpdates, SkipNull);
    FoldCells(afterMissed, validUpdates, SkipNull);
    Success(VolumeChart(labs, CallTypes, afterValid, CountsOf(afterValid)))
  }

  /**
   * The report as the controller computes it: the rows are the three call
   * types and the columns the labs; the only exception it can throw is
   * KeyNotFound, for a call type that is not a row.
   */
  function VolumeReport(valid: seq<ValidCall>, missed: seq<MissedCall>, from: Date, to: Date): (r: Result<VolumeChart>)
    ensures r.Success? ==>
              && r.value.labs == GetLabs(valid, missed) && r.value.volumeData.keys == CallTypes
              && r.value.countData == CountsOf(r.value.volumeData)
    ensures r.Failure? ==> r.error == KeyNotFound
  {
    var missedKeys := MissedVolumeKeys(missed, from, to);
    assert forall x :: x in missedKeys && x.1.Some? ==> x.1.value in CallTypes;
    VolumeChartSucceeds(GetLabs(valid, missed), missedKeys, ValidVolumeKeys(valid, from, to));
    VolumeChartOf(GetLabs(valid, missed), missedKeys, ValidVolumeKeys(valid, from, to))
  }

  /** GetCallVolumeChartData, with both tables, and both dates resolved, as inputs. */
  method GetCallVolumeChartData(valid: seq<ValidCall>, missed: seq<MissedCall>, from: Date, to: Date)
    returns (r: Result<VolumeChart>)
    ensures r == VolumeReport(valid, missed, from, to)
  {
    var labs := GetLabs(valid, missed);
    var zero :- BuildGrid(CallTypes, labs);
    var missedGroups := GroupCount(MissedVolumeKeys(missed, from, to));
    var validGroups := GroupCount(ValidVolumeKeys(valid, from, to));
    var afterMissed :- FoldUpdates(zero, VolumeUpdates(missedGroups), SkipNull);
    var afterValid :- FoldUpdates(afterMissed, VolumeUpdates(validGroups), SkipNull);
    var countData := CountData(afterValid);
    r := Success(VolumeChart(labs, CallTypes, afterValid, countData));
  }

  /** The groups of `xs` all find their row exactly when every key's call type is null or one of the rows. */
  lemma VolumeUpdatesAcceptable(xs: seq<(string, Option<string>)>)
    ensures (forall k :: 0 <= k < |GroupCount(xs)| ==> Acceptable(VolumeUpdates(GroupCount(xs))[k], CallTypes, SkipNull))
        <==> forall x :: x in xs && x.1.Some? ==> x.1.value in CallTypes
  {
    var gs := GroupCount(xs);
    var us := VolumeUpdates(gs);
    var typed := (x: (string, Option<string>)) => x.1.Some? ==> x.1.value in CallTypes;
    forall k | 0 <= k < |us| ensures Acceptable(us[k], CallTypes, SkipNull) <==> typed(gs[k].0) {
      assert us[k].row == gs[k].0.1;
    }
    GroupsAll(xs, typed);
  }

  /** The call types among the keys are the call types of the valid calls in range. */
  lemma ValidVolumeTypes(valid: seq<ValidCall>, from: Date, to: Date)
    ensures (forall x :: x in ValidVolumeKeys(valid, from, to) && x.1.Some? ==> x.1.value in CallTypes) <==>
            forall c :: c in valid && InRange(c.eventTime, from, to) && c.callType.Some? ==> c.callType.value in CallTypes
  {
    var vk := ValidVolumeKeys(valid, from, to);
    if forall x :: x in vk && x.1.Some? ==> x.1.value in CallTypes {
      forall c | c in valid && InRange(c.eventTime, from, to) && c.callType.Some? ensures c.callType.value in CallTypes {
        assert (c.labName, c.callType) in vk;
      }
    }
  }

  /**
   * The report fails exactly when some valid call in range has a call type
   * that is neither null nor one of the three rows, and then with
   * KeyNotFound; missed calls always find their row.
   */
  lemma VolumeReportSucceeds(valid: seq<ValidCall>, missed: seq<MissedCall>, from: Date, to: Date)
    ensures VolumeReport(valid, missed, from, to).Success? <==>
              forall c :: c in valid && InRange(c.eventTime, from, to) && c.callType.Some? ==> c.callType.value in CallTypes
    ensures VolumeReport(valid, missed, from, to).Failure? ==> VolumeReport(valid, missed, from, to).error == KeyNotFound
  {
    var mk := MissedVolumeKeys(missed, from, to);
    assert forall x :: x in mk && x.1.Some? ==> x.1.value in CallTypes;
    VolumeChartSucceeds(GetLabs(valid, missed), mk, ValidVolumeKeys(valid, from, to));
    ValidVolumeTypes(valid, from, to);
  }

  /** The grid part fails exactly when a key's call type is neither null nor a row, and then with KeyNotFound. */
  lemma VolumeChartSucceeds(labs: seq<string>, missedKeys: seq<(string, Option<string>)>, validKeys: seq<(string, Option<string>)>)
    requires forall x :: x in missedKeys && x.1.Some? ==> x.1.value in CallTypes
    ensures VolumeChartOf(labs, missedKeys, validKeys).Success? <==>
              forall x :: x in validKeys && x.1.Some? ==> x.1.value in CallTypes
    ensures VolumeChartOf(labs, missedKeys, validKeys).Failure? ==> VolumeChartOf(labs, missedKeys, validKeys).error == KeyNotFound
  {
    var zero := ZeroGrid(CallTypes, labs).value;
    VolumeUpdatesAcceptable(missedKeys);
    FoldSucceeds(zero, VolumeUpdates(GroupCount(missedKeys)), SkipNull);
    var afterMissed := Fold(zero, VolumeUpdates(GroupCount(missedKeys)), SkipNull).value;
    VolumeUpdatesAcceptable(validKeys);
    FoldSucceeds(afterMissed, VolumeUpdates(GroupCount(validKeys)), SkipNull);
  }

  /** No two lab names differ only in letter case. */
  predicate CaseDistinct(names: seq<string>) {
    forall a, b :: a in names && b in names && SameIgnoringCase(a, b) ==> a == b
  }

  /**
   * On keys whose labs are on a case-distinct lab axis, the groups that write
   * to cell `lab` of row `callType` are the groups of the key (lab, callType).
   */
  lemma VolumeTargets(xs: seq<(string, Option<string>)>, labs: seq<string>, callType: string, lab: string)
    requires forall x :: x in xs ==> x.0 in labs
    requires CaseDistinct(labs) && lab in labs
    ensures var gs := GroupCount(xs);
      forall k :: 0 <= k < |gs| ==>
        VolumeUpdates(gs)[k].count == gs[k].1 && (Targets(VolumeUpdates(gs)[k], callType, lab) <==> gs[k].0 == (lab, Some(callType)))
  {
    var gs := GroupCount(xs);
    forall k | 0 <= k < |gs|
      ensures Targets(VolumeUpdates(gs)[k], callType, lab) <==> gs[k].0 == (lab, Some(callType))
    {
      assert gs[k].0 in xs;
    }
  }

  /** In the grid part, a cell's count is what the missed groups and then the valid groups last wrote to it. */
  lemma VolumeChartFolds(labs: seq<string>, missedKeys: seq<(string, Option<string>)>, validKeys: seq<(string, Option<string>)>, i: nat, j: nat)
    requires VolumeChartOf(labs, missedKeys, validKeys).Success?
    requires i < |CallTypes| && j < |labs|
    ensures VolumeChartOf(labs, missedKeys, validKeys).value.countData[i][j] ==
              Final(VolumeUpdates(GroupCount(validKeys)), CallTypes[i], labs[j],
                Final(VolumeUpdates(GroupCount(missedKeys)), CallTypes[i], labs[j], 0))
  {
    var zero := ZeroGrid(CallTypes, labs).value;
    var us1 := VolumeUpdates(GroupCount(missedKeys));
    var us2 := VolumeUpdates(GroupCount(validKeys));
    FoldCells(zero, us1, SkipNull);
    var afterMissed := Fold(zero, us1, SkipNull).value;
    FoldCells(afterMissed, us2, SkipNull);
    var afterValid := Fold(afterMissed, us2, SkipNull).value;
    assert zero.keys[i] == CallTypes[i] && zero.rows[i][j] == Cell(labs[j], 0);
    assert VolumeChartOf(labs, missedKeys, validKeys) == Success(VolumeChart(labs, CallTypes, afterValid, CountsOf(afterValid)));
  }

  /** In the grid part, a cell holds its valid key's count, or where there is none, its missed key's count. */
  lemma VolumeChartCell(labs: seq<string>, missedKeys: seq<(string, Option<string>)>, validKeys: seq<(string, Option<string>)>, i: nat, j: nat)
    requires VolumeChartOf(labs, missedKeys, validKeys).Success?
    requires CaseDistinct(labs)
    requires forall x :: x in missedKeys ==> x.0 in labs
    requires forall x :: x in validKeys ==> x.0 in labs
    requires i < |CallTypes| && j < |labs|
    ensures var key := (labs[j], Some(CallTypes[i]));
      VolumeChartOf(labs, missedKeys, validKeys).value.countData[i][j] == Overlay(multiset(missedKeys)[key], multiset(validKeys)[key])
  {
    VolumeChartFolds(labs, missedKeys, validKeys, i, j);
    var key := (labs[j], Some(CallTypes[i]));
    var us1 := VolumeUpdates(GroupCount(missedKeys));
    var us2 := VolumeUpdates(GroupCount(validKeys));
    VolumeTargets(missedKeys, labs, CallTypes[i], labs[j]);
    FinalOfGroups(missedKeys, us1, key, CallTypes[i], labs[j], 0);
    VolumeTargets(validKeys, labs, CallTypes[i], labs[j]);
    FinalOfGroups(validKeys, us2, key, CallTypes[i], labs[j], Final(us1, CallTypes[i], labs[j], 0));
  }

  /** Every lab of a group key is on the lab axis: GetLabs reads all rows of both tables. */
  lemma VolumeKeysOnAxis(valid: seq<ValidCall>, missed: seq<MissedCall>, from: Date, to: Date)
    ensures forall x :: x in MissedVolumeKeys(missed, from, to) ==> x.0 in GetLabs(valid, missed)
    ensures forall x :: x in ValidVolumeKeys(valid, from, to) ==> x.0 in GetLabs(valid, missed)
  {
  }

  /**
   * When no two labs differ only in letter case, the cell of lab `labs[j]` in
   * row `CallTypes[i]` holds the number of valid calls in range with that lab
   * and call type, and where there are none, the number of missed calls in
   * range of that lab (which only the row "Missed" receives): valid groups
   * are written last and overwrite.
   */
  lemma VolumeReportCell(valid: seq<ValidCall>, missed: seq<MissedCall>, from: Date, to: Date, i: nat, j: nat)
    requires VolumeReport(valid, missed, from, to).Success?
    requires CaseDistinct(GetLabs(valid, missed))
    requires i < |CallTypes| && j < |GetLabs(valid, missed)|
    ensures var r := VolumeReport(valid, missed, from, to).value;
      r.countData[i][j] ==
        Overlay(if CallTypes[i] == "Missed" then MissedLabCount(missed, from, to, r.labs[j]) else 0,
                ValidTypeCount(valid, from, to, r.labs[j], Some(CallTypes[i])))
  {
    var labs := GetLabs(valid, missed);
    var mk, vk := MissedVolumeKeys(missed, from, to), ValidVolumeKeys(valid, from, to);
    VolumeKeysOnAxis(valid, missed, from, to);
    VolumeChartCell(labs, mk, vk, i, j);
    MissedVolumeKeysCount(missed, from, to, labs[j], Some(CallTypes[i]));
    ValidVolumeKeysCount(valid, from, to, labs[j], Some(CallTypes[i]));
  }

  /**
   * When moreover no valid call in range has the call type "Missed", every
   * cell is the number of calls in range with its lab and call type, missed
   * calls counting under "Missed".
   */
  lemma VolumeReportCounts(valid: seq<ValidCall>, missed: seq<MissedCall>, from: Date, to: Date, i: nat, j: nat)
    requires VolumeReport(valid, missed, from, to).Success?
    requires CaseDistinct(GetLabs(valid, missed))
    requires forall c :: c in valid && InRange(c.eventTime, from, to) ==> c.callType != Some("Missed")
    requires i < |CallTypes| && j < |GetLabs(valid, missed)|
    ensures var r := VolumeReport(valid, missed, from, to).value;
      r.countData[i][j] ==
        (if CallTypes[i] == "Missed" then MissedLabCount(missed, from, to, r.labs[j]) else 0)
        + ValidTypeCount(valid, from, to, r.labs[j], Some(CallTypes[i]))
  {
    VolumeReportCell(valid, missed, from, to, i, j);
    var lab := GetLabs(valid, missed)[j];
    if CallTypes[i] == "Missed" {
      assert (lab, Some("Missed")) !in ValidVolumeKeys(valid, from, to);
      ValidVolumeKeysCount(valid, from, to, lab, Some("Missed"));
    }
  }
}
