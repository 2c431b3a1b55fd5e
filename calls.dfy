/**
 * The rows of the two call tables the reports read, the inclusive date-range
 * filter of their queries, and the lab directory (GetLabs) built from them.
 */
module Calls {
  import opened Outcomes
  import opened Sequences
  import opened Strings
  import opened Calendar

  /** A ValidCalls row, reduced to the columns the reports select. */
  datatype ValidCall = ValidCall(labName: string, eventTime: Date, callType: Option<string>, callPurpose: Option<string>)

  /** A MissedCalls row, reduced to the columns the reports select; its call type is always "Missed". */
  datatype MissedCall = MissedCall(labName: string, eventTime: Date)

  /** The rows of the volume grid and the columns of the trend grid. */
  const CallTypes: seq<string> := ["Missed", "Incoming", "Outgoing"]

  /** `s.EventTime >= fromDate && s.EventTime <= toDate`. */
  predicate InRange(t: Date, from: Date, to: Date): (r: bool)
    ensures r ==> AtOrBefore(from, to) && MonthIndex(from) <= MonthIndex(t) <= MonthIndex(to)
  {
    MonthIndexOrder(from, t);
    MonthIndexOrder(t, to);
    AtOrBefore(from, t) && AtOrBefore(t, to)
  }

  /** ValidCalls.Select(m => m.LabName). */
  function ValidLabNames(calls: seq<ValidCall>): (names: seq<string>)
    ensures forall name :: name in names <==> exists c :: c in calls && c.labName == name
  {
    if calls == [] then [] else [calls[0].labName] + ValidLabNames(calls[1..])
  }

  /** MissedCalls.Select(m => m.LabName). */
  function MissedLabNames(calls: seq<MissedCall>): (names: seq<string>)
    ensures forall name :: name in names <==> exists c :: c in calls && c.labName == name
  {
    if calls == [] then [] else [calls[0].labName] + MissedLabNames(calls[1..])
  }

  /**
   * GetLabs: the lab names of both tables over all rows, whatever their date,
   * each kept once (names differing only in letter case stay apart) and sorted.
   */
  function GetLabs(valid: seq<ValidCall>, missed: seq<MissedCall>): (labs: seq<string>)
    ensures StrictlyAscending(labs) && NoDuplicates(labs)
    ensures forall name :: name in labs <==>
              (exists c :: c in valid && c.labName == name) || (exists c :: c in missed && c.labName == name)
  {
    var v, m := ValidLabNames(valid), MissedLabNames(missed);
    var names := Distinct(Distinct(v) + Distinct(m));
    SortAscending(names);
    var labs := Sort(names);
    AscendingDistinct(labs);
    forall name ensures name in labs <==> name in v || name in m {
      assert name in labs <==> name in multiset(names);
      DistinctSameElements(Distinct(v) + Distinct(m), name);
      DistinctSameElements(v, name);
      DistinctSameElements(m, name);
    }
    labs
  }
}
