/**
 * GetCallPurposeChartData: valid calls per purpose and lab in a date range.
 * The grid has the purpose catalog as rows and the labs as columns; each
 * group is looked up under its purpose and written to its lab's cell, with
 * lab names compared exactly. Each row also gets its total.
 */
module CallPurpose {
  import opened Outcomes
  import opened Sequences
  import opened Calendar
  import opened Calls
  import opened ChartGrid

  /** The response: the lab axis, the purposes, the grid, its counts and the row totals. */
  datatype PurposeChart = PurposeChart(labs: seq<string>, purposes: seq<string>, purposeData: Grid, countData: seq<seq<int>>, sumData: seq<int>)

  /** The group key (LabName, CallPurpose) of every valid call in range, in table order. */
  function PurposeKeys(valid: seq<ValidCall>, from: Date, to: Date): (ks: seq<(string, Option<string>)>)
    ensures forall x :: x in ks <==> exists c :: c in valid && InRange(c.eventTime, from, to) && x == (c.labName, c.callPurpose)
  {
    if valid == [] then []
    else
      var c := valid[0];
      var rest := PurposeKeys(valid[1..], from, to);
      assert forall d :: d in valid <==> d == c || d in valid[1..];
      (if InRange(c.eventTime, from, to) then [(c.labName, c.callPurpose)] else []) + rest
  }

  /** The number of valid calls in range of lab `lab` with purpose `purpose`. */
  function PurposeCount(valid: seq<ValidCall>, from: Date, to: Date, lab: string, purpose: Option<string>): (n: nat)
    ensures n <= PurposeTotal(valid, from, to, purpose) <= |valid|
    ensures n > 0 <==> exists c :: c in valid && InRange(c.eventTime, from, to) && c.labName == lab && c.callPurpose == purpose
  {
    if valid == [] then 0
    else
      var c := valid[0];
      assert forall d :: d in valid <==> d == c || d in valid[1..];
      (if InRange(c.eventTime, from, to) && c.labName == lab && c.callPurpose == purpose then 1 else 0)
        + PurposeCount(valid[1..], from, to, lab, purpose)
  }

  /** The number of valid calls in range with purpose `purpose`, of any lab. */
  function PurposeTotal(valid: seq<ValidCall>, from: Date, to: Date, purpose: Option<string>): (n: nat)
    ensures n <= |valid|
    ensures n > 0 <==> exists c :: c in valid && InRange(c.eventTime, from, to) && c.callPurpose == purpose
  {
    if valid == [] then 0
    else
      var c := valid[0];
      assert forall d :: d in valid <==> d == c || d in valid[1..];
      (if InRange(c.eventTime, from, to) && c.callPurpose == purpose then 1 else 0) + PurposeTotal(valid[1..], from, to, purpose)
  }

  /** Key (lab, purpose) occurs once per valid call in range with that lab and purpose. */
  lemma {:induction false} PurposeKeysCount(valid: seq<ValidCall>, from: Date, to: Date, lab: string, purpose: Option<string>)
    ensures multiset(PurposeKeys(valid, from, to))[(lab, purpose)] == PurposeCount(valid, from, to, lab, purpose)
  {
    if valid != [] {
      PurposeKeysCount(valid[1..], from, to, lab, purpose);
    }
  }

  /** Each group is looked up under its purpose (a null purpose throws) and written to its lab's cell. */
  function PurposeUpdates(gs: seq<((string, Option<string>), nat)>): (us: seq<Update>)
    ensures |us| == |gs|
    ensures forall k :: 0 <= k < |gs| ==> us[k].row == gs[k].0.1 && us[k].count == gs[k].1
    ensures forall k, key, name :: 0 <= k < |gs| ==>
              (Targets(us[k], key, name) <==> gs[k].0.1 == Some(key) && name == gs[k].0.0)
  {
    seq(|gs|, k requires 0 <= k < |gs| => Update(gs[k].0.1, Exactly(Some(gs[k].0.0)), gs[k].1))
  }

  /** The totals of the rows of `cd`. */
  function RowTotals(cd: seq<seq<int>>): (ts: seq<int>)
    ensures |ts| == |cd|
    ensures forall i :: 0 <= i < |cd| && (forall j :: 0 <= j < |cd[i]| ==> 0 <= cd[i][j]) ==>
              0 <= ts[i] && forall j :: 0 <= j < |cd[i]| ==> cd[i][j] <= ts[i]
  {
    seq(|cd|, i requires 0 <= i < |cd| => Sum(cd[i]))
  }

  /**
   * The grid part of the report, from the lab axis, the catalog and the group
   * keys: the purposes as rows, each with one cell per lab, in lab order, and
   * each row's total.
   */
  function PurposeChartOf(labs: seq<string>, purposes: seq<string>, keys: seq<(string, Option<string>)>)
    : (r: Result<PurposeChart>)
    ensures r.Success? ==>
              && r.value.labs == labs && r.value.purposes == purposes
              && r.value.purposeData.keys == purposes && |r.value.purposeData.rows| == |purposes|
              && (forall i :: 0 <= i < |purposes| ==> |r.value.purposeData.rows[i]| == |labs|)
              && (forall i, j :: 0 <= i < |purposes| && 0 <= j < |labs| ==> r.value.purposeData.rows[i][j].name == labs[j])
              && r.value.countData == CountsOf(r.value.purposeData)
              && |r.value.sumData| == |purposes|
              && (forall i :: 0 <= i < |purposes| ==> r.value.sumData[i] == Sum(r.value.countData[i]))
  {
    var zero :- ZeroGrid(purposes, labs);
    var updates := PurposeUpdates(GroupCount(keys));
    var filled :- Fold(zero, updates, RejectNull);
    FoldCells(zero, updates, RejectNull);
    Success(PurposeChart(labs, filled.keys, filled, CountsOf(filled), RowTotals(CountsOf(filled))))
  }

  /** The report as the controller computes it; `catalog` is the CallPurpose table's PurposeoftheCall column. */
  function PurposeReport(valid: seq<ValidCall>, missed: seq<MissedCall>, catalog: seq<string>, from: Date, to: Date)
    : (r: Result<PurposeChart>)
    ensures r.Success? ==>
              && NoDuplicates(catalog) && r.value.labs == GetLabs(valid, missed) && r.value.purposes == catalog
              && |r.value.sumData| == |catalog|
    ensures r.Failure? ==>
              && (r.error == DuplicateKey <==> !NoDuplicates(catalog))
              && (NoDuplicates(catalog) ==> r.error == NullKey || r.error == KeyNotFound)
  {
    PurposeChartSucceeds(GetLabs(valid, missed), catalog, PurposeKeys(valid, from, to));
    PurposeChartOf(GetLabs(valid, missed), catalog, PurposeKeys(valid, from, to))
  }

  /** GetCallPurposeChartData, with the tables, the catalog and both dates resolved as inputs. */
  method GetCallPurposeChartData(valid: seq<ValidCall>, missed: seq<MissedCall>, catalog: seq<string>, from: Date, to: Date)
    returns (r: Result<PurposeChart>)
    ensures r == PurposeReport(valid, missed, catalog, from, to)
  {
    var labs := GetLabs(valid, missed);
    var zero :- BuildGrid(catalog, labs);
    var groups := GroupCount(PurposeKeys(valid, from, to));
    var filled :- FoldUpdates(zero, PurposeUpdates(groups), RejectNull);
    var countData := CountData(filled);
    var sumData := SumData(countData);
    assert sumData == RowTotals(countData);
    r := Success(PurposeChart(labs, filled.keys, filled, countData, sumData));
  }

  /** The groups of `xs` all find their row exactly when every key has a purpose from the catalog. */
  lemma PurposeUpdatesAcceptable(xs: seq<(string, Option<string>)>, purposes: seq<string>)
    ensures (forall k :: 0 <= k < |GroupCount(xs)| ==> Acceptable(PurposeUpdates(GroupCount(xs))[k], purposes, RejectNull))
        <==> forall x :: x in xs ==> x.1.Some? && x.1.value in purposes
  {
    var gs := GroupCount(xs);
    var us := PurposeUpdates(gs);
    var catalogued := (x: (string, Option<string>)) => x.1.Some? && x.1.value in purposes;
    forall k | 0 <= k < |us| ensures Acceptable(us[k], purposes, RejectNull) <==> catalogued(gs[k].0) {
      assert us[k].row == gs[k].0.1;
    }
    GroupsAll(xs, catalogued);
  }

  /** A key the purpose grid accepts: its purpose is present and in the catalog. */
  predicate Catalogued(x: (string, Option<string>), purposes: seq<string>) {
    x.1.Some? && x.1.value in purposes
  }

  /**
   * The grid part succeeds exactly when the catalog has no repeated purpose
   * and every key's purpose is a catalog purpose. A repeated purpose throws
   * at the build. Otherwise the groups are looked up in the order in which
   * their keys first occur, so the exception comes from the first key that is
   * rejected: ArgumentNullException for a null purpose, KeyNotFoundException
   * for a purpose outside the catalog.
   */
  lemma PurposeChartSucceeds(labs: seq<string>, purposes: seq<string>, keys: seq<(string, Option<string>)>)
    ensures PurposeChartOf(labs, purposes, keys).Success? <==>
              NoDuplicates(purposes) && forall x :: x in keys ==> x.1.Some? && x.1.value in purposes
    ensures PurposeChartOf(labs, purposes, keys).Failure? && !NoDuplicates(purposes) ==>
              PurposeChartOf(labs, purposes, keys).error == DuplicateKey
    ensures PurposeChartOf(labs, purposes, keys).Failure? && NoDuplicates(purposes) ==>
              exists p :: 0 <= p < |keys| && !Catalogued(keys[p], purposes)
                && (forall q :: 0 <= q < p ==> Catalogued(keys[q], purposes))
                && PurposeChartOf(labs, purposes, keys).error == Rejection(keys[p].1)
  {
    if NoDuplicates(purposes) {
      var zero := ZeroGrid(purposes, labs).value;
      var gs := GroupCount(keys);
      var us := PurposeUpdates(gs);
      PurposeUpdatesAcceptable(keys, purposes);
      FoldSucceeds(zero, us, RejectNull);
      if Fold(zero, us, RejectNull).Failure? {
        PurposeFoldRejects(zero, keys, purposes);
      }
    }
  }

  /** A failing fold of the purpose groups throws for the first rejected key. */
  lemma PurposeFoldRejects(zero: Grid, keys: seq<(string, Option<string>)>, purposes: seq<string>)
    requires zero.Valid() && zero.keys == purposes
    requires Fold(zero, PurposeUpdates(GroupCount(keys)), RejectNull).Failure?
    ensures exists p :: 0 <= p < |keys| && !Catalogued(keys[p], purposes)
              && (forall q :: 0 <= q < p ==> Catalogued(keys[q], purposes))
              && Fold(zero, PurposeUpdates(GroupCount(keys)), RejectNull).error == Rejection(keys[p].1)
  {
    var gs := GroupCount(keys);
    var us := PurposeUpdates(gs);
    FoldSucceeds(zero, us, RejectNull);
    var k :| 0 <= k < |us| && !Acceptable(us[k], zero.keys, RejectNull) && Fold(zero, us, RejectNull).error == Rejection(us[k].row)
             && forall k' :: 0 <= k' < k ==> Acceptable(us[k'], zero.keys, RejectNull);
    assert forall k' :: 0 <= k' < k ==> Catalogued(gs[k'].0, purposes) by {
      forall k' | 0 <= k' < k ensures Catalogued(gs[k'].0, purposes) {
        assert us[k'].row == gs[k'].0.1;
        assert Acceptable(us[k'], zero.keys, RejectNull);
      }
    }
    assert us[k].row == gs[k].0.1;
    assert !Catalogued(gs[k].0, purposes);
    FirstRejectedGroup(keys, purposes, k);
    var p :| 0 <= p < |keys| && keys[p] == gs[k].0 && forall q :: 0 <= q < p ==> Catalogued(keys[q], purposes);
    assert Fold(zero, us, RejectNull).error == Rejection(keys[p].1);
  }

  /**
   * The groups come in the order in which their keys first occur, so when
   * group `k` is the first rejected group, its key is the first rejected key.
   */
  lemma FirstRejectedGroup(keys: seq<(string, Option<string>)>, purposes: seq<string>, k: nat)
    requires k < |GroupCount(keys)| && !Catalogued(GroupCount(keys)[k].0, purposes)
    requires forall k' :: 0 <= k' < k ==> Catalogued(GroupCount(keys)[k'].0, purposes)
    ensures exists p :: 0 <= p < |keys| && keys[p] == GroupCount(keys)[k].0
              && forall q :: 0 <= q < p ==> Catalogued(keys[q], purposes)
  {
    var gs := GroupCount(keys);
    var x := gs[k].0;
    assert x in keys;
    var p0 :| 0 <= p0 < |keys| && keys[p0] == x;
    FirstRejectedKey(keys, purposes, p0);
    var p :| 0 <= p < |keys| && !Catalogued(keys[p], purposes) && forall q :: 0 <= q < p ==> Catalogued(keys[q], purposes);
    var m :| 0 <= m < |Distinct(keys)| && Distinct(keys)[m] == keys[p];
    GroupCountOrder(keys, k, m, p);
    assert m == k;
  }

  /** When some key is rejected, there is a first rejected key. */
  lemma {:induction false} FirstRejectedKey(keys: seq<(string, Option<string>)>, purposes: seq<string>, p0: nat)
    requires p0 < |keys| && !Catalogued(keys[p0], purposes)
    ensures exists p :: 0 <= p < |keys| && !Catalogued(keys[p], purposes) && forall q :: 0 <= q < p ==> Catalogued(keys[q], purposes)
    decreases p0
  {
    if !forall q :: 0 <= q < p0 ==> Catalogued(keys[q], purposes) {
      var q :| 0 <= q < p0 && !Catalogued(keys[q], purposes);
      FirstRejectedKey(keys, purposes, q);
    }
  }

  /** In the grid part, the cell of lab `labs[j]` in row `purposes[i]` is the count of the key (labs[j], purposes[i]). */
  lemma PurposeChartCell(labs: seq<string>, purposes: seq<string>, keys: seq<(string, Option<string>)>, i: nat, j: nat)
    requires PurposeChartOf(labs, purposes, keys).Success?
    requires i < |purposes| && j < |labs|
    ensures PurposeChartOf(labs, purposes, keys).value.countData[i][j] == multiset(keys)[(labs[j], Some(purposes[i]))]
  {
    var zero := ZeroGrid(purposes, labs).value;
    var gs := GroupCount(keys);
    var us := PurposeUpdates(gs);
    FoldCells(zero, us, RejectNull);
    var filled := Fold(zero, us, RejectNull).value;
    assert zero.keys[i] == purposes[i] && zero.rows[i][j] == Cell(labs[j], 0);
    FinalOfGroups(keys, us, (labs[j], Some(purposes[i])), purposes[i], labs[j], 0);
    assert PurposeChartOf(labs, purposes, keys) ==
      Success(PurposeChart(labs, purposes, filled, CountsOf(filled), RowTotals(CountsOf(filled))));
  }

  /** The number of keys with purpose `p`. */
  function CountWithPurpose(xs: seq<(string, Option<string>)>, p: Option<string>): nat {
    if xs == [] then 0 else (if xs[0].1 == p then 1 else 0) + CountWithPurpose(xs[1..], p)
  }

  /** The keys with purpose `purpose` are as many as the valid calls in range with that purpose. */
  lemma {:induction false} PurposeKeysTotal(valid: seq<ValidCall>, from: Date, to: Date, purpose: Option<string>)
    ensures CountWithPurpose(PurposeKeys(valid, from, to), purpose) == PurposeTotal(valid, from, to, purpose)
  {
    if valid != [] {
      var c := valid[0];
      var front: seq<(string, Option<string>)> := if InRange(c.eventTime, from, to) then [(c.labName, c.callPurpose)] else [];
      CountWithPurposeConcat(front, PurposeKeys(valid[1..], from, to), purpose);
      PurposeKeysTotal(valid[1..], from, to, purpose);
    }
  }

  /** The count of a purpose distributes over concatenation. */
  lemma {:induction false} CountWithPurposeConcat(a: seq<(string, Option<string>)>, b: seq<(string, Option<string>)>, p: Option<string>)
    ensures CountWithPurpose(a + b, p) == CountWithPurpose(a, p) + CountWithPurpose(b, p)
  {
    if a == [] {
      assert a + b == b;
    } else {
      assert (a + b)[1..] == a[1..] + b;
      CountWithPurposeConcat(a[1..], b, p);
    }
  }

  /** The counts of the keys (lab, p), one per lab of the axis. */
  function LabCounts(labs: seq<string>, xs: seq<(string, Option<string>)>, p: Option<string>): seq<int> {
    seq(|labs|, j requires 0 <= j < |labs| => multiset(xs)[(labs[j], p)])
  }

  /** Adding a key of lab `labs[k]` raises that lab's count of its own purpose by one and changes nothing else. */
  lemma LabCountsCons(labs: seq<string>, x: (string, Option<string>), rest: seq<(string, Option<string>)>, p: Option<string>, k: nat)
    requires NoDuplicates(labs) && k < |labs| && labs[k] == x.0
    ensures var before := LabCounts(labs, rest, p);
      LabCounts(labs, [x] + rest, p) == if x.1 == p then before[k := before[k] + 1] else before
  {
    var before, after := LabCounts(labs, rest, p), LabCounts(labs, [x] + rest, p);
    assert multiset([x] + rest) == multiset{x} + multiset(rest);
    if x.1 == p {
      forall j | 0 <= j < |labs| ensures after[j] == before[k := before[k] + 1][j] {
        if j != k {
          assert labs[j] != labs[k];
        }
      }
    }
  }

  /** When every key's lab is on a lab axis without repetitions, the per-lab counts of purpose `p` add up to all keys of purpose `p`. */
  lemma {:induction false} LabCountsTotal(labs: seq<string>, xs: seq<(string, Option<string>)>, p: Option<string>)
    requires NoDuplicates(labs)
    requires forall x :: x in xs ==> x.0 in labs
    ensures Sum(LabCounts(labs, xs, p)) == CountWithPurpose(xs, p)
  {
    if xs == [] {
      SumZeros(LabCounts(labs, xs, p));
    } else {
      var x, rest := xs[0], xs[1..];
      assert forall y :: y in rest ==> y in xs;
      LabCountsTotal(labs, rest, p);
      assert x.0 in labs;
      var k :| 0 <= k < |labs| && labs[k] == x.0;
      LabCountsSum(labs, x, rest, p, k);
      assert xs == [x] + rest;
    }
  }

  /** Adding a key of lab `labs[k]` raises the sum of the counts of purpose `p` by one exactly when the key has purpose `p`. */
  lemma LabCountsSum(labs: seq<string>, x: (string, Option<string>), rest: seq<(string, Option<string>)>, p: Option<string>, k: nat)
    requires NoDuplicates(labs) && k < |labs| && labs[k] == x.0
    ensures Sum(LabCounts(labs, [x] + rest, p)) == Sum(LabCounts(labs, rest, p)) + (if x.1 == p then 1 else 0)
  {
    LabCountsCons(labs, x, rest, p, k);
    if x.1 == p {
      SumAdd(LabCounts(labs, rest, p), k, 1);
    }
  }

  /** In the grid part, with every key's lab on a lab axis without repetitions, row i's total is the number of keys with purpose `purposes[i]`. */
  lemma PurposeChartTotal(labs: seq<string>, purposes: seq<string>, keys: seq<(string, Option<string>)>, i: nat)
    requires PurposeChartOf(labs, purposes, keys).Success?
    requires NoDuplicates(labs)
    requires forall x :: x in keys ==> x.0 in labs
    requires i < |purposes|
    ensures PurposeChartOf(labs, purposes, keys).value.sumData[i] == CountWithPurpose(keys, Some(purposes[i]))
  {
    var r := PurposeChartOf(labs, purposes, keys).value;
    forall j | 0 <= j < |labs| ensures r.countData[i][j] == LabCounts(labs, keys, Some(purposes[i]))[j] {
      PurposeChartCell(labs, purposes, keys, i, j);
    }
    assert r.countData[i] == LabCounts(labs, keys, Some(purposes[i]));
    LabCountsTotal(labs, keys, Some(purposes[i]));
  }

  /**
   * The report succeeds exactly when the catalog has no repeated purpose and
   * every valid call in range has a purpose, and one from the catalog.
   */
  lemma PurposeReportSucceeds(valid: seq<ValidCall>, missed: seq<MissedCall>, catalog: seq<string>, from: Date, to: Date)
    ensures PurposeReport(valid, missed, catalog, from, to).Success? <==>
              && NoDuplicates(catalog)
              && forall c :: c in valid && InRange(c.eventTime, from, to) ==> c.callPurpose.Some? && c.callPurpose.value in catalog
  {
    PurposeChartSucceeds(GetLabs(valid, missed), catalog, PurposeKeys(valid, from, to));
    PurposesOfKeys(valid, catalog, from, to);
  }

  /**
   * A failing report throws DuplicateKey for a repeated catalog purpose, and
   * otherwise for the first valid call in range, in table order, whose
   * purpose is null (ArgumentNullException) or not in the catalog
   * (KeyNotFoundException).
   */
  lemma PurposeReportFailure(valid: seq<ValidCall>, missed: seq<MissedCall>, catalog: seq<string>, from: Date, to: Date)
    requires PurposeReport(valid, missed, catalog, from, to).Failure?
    ensures !NoDuplicates(catalog) ==> PurposeReport(valid, missed, catalog, from, to).error == DuplicateKey
    ensures NoDuplicates(catalog) ==>
              exists i :: 0 <= i < |valid| && InRange(valid[i].eventTime, from, to)
                && !Catalogued((valid[i].labName, valid[i].callPurpose), catalog)
                && (forall q :: 0 <= q < i && InRange(valid[q].eventTime, from, to) ==>
                      Catalogued((valid[q].labName, valid[q].callPurpose), catalog))
                && PurposeReport(valid, missed, catalog, from, to).error == Rejection(valid[i].callPurpose)
  {
    var keys := PurposeKeys(valid, from, to);
    PurposeChartSucceeds(GetLabs(valid, missed), catalog, keys);
    if NoDuplicates(catalog) {
      var p :| 0 <= p < |keys| && !Catalogued(keys[p], catalog)
                && (forall q :: 0 <= q < p ==> Catalogued(keys[q], catalog))
                && PurposeReport(valid, missed, catalog, from, to).error == Rejection(keys[p].1);
      PurposeKeysFirstRejected(valid, from, to, catalog, p);
    }
  }

  /** The first rejected key is the key of the first rejected valid call in range. */
  lemma {:induction false} PurposeKeysFirstRejected(valid: seq<ValidCall>, from: Date, to: Date, catalog: seq<string>, p: nat)
    requires p < |PurposeKeys(valid, from, to)| && !Catalogued(PurposeKeys(valid, from, to)[p], catalog)
    requires forall q :: 0 <= q < p ==> Catalogued(PurposeKeys(valid, from, to)[q], catalog)
    ensures exists i :: 0 <= i < |valid| && InRange(valid[i].eventTime, from, to)
              && PurposeKeys(valid, from, to)[p] == (valid[i].labName, valid[i].callPurpose)
              && forall q :: 0 <= q < i && InRange(valid[q].eventTime, from, to) ==>
                   Catalogued((valid[q].labName, valid[q].callPurpose), catalog)
    decreases |valid|
  {
    var keys := PurposeKeys(valid, from, to);
    var c := valid[0];
    var rest := PurposeKeys(valid[1..], from, to);
    if InRange(c.eventTime, from, to) {
      assert keys == [(c.labName, c.callPurpose)] + rest;
      if p > 0 {
        forall q | 0 <= q < p - 1 ensures Catalogued(rest[q], catalog) {
          assert rest[q] == keys[q + 1];
        }
        assert rest[p - 1] == keys[p];
        PurposeKeysFirstRejected(valid[1..], from, to, catalog, p - 1);
        assert Catalogued(keys[0], catalog);
        ShiftFirstRejected(valid, from, to, catalog, keys[p]);
      }
    } else {
      assert keys == rest;
      PurposeKeysFirstRejected(valid[1..], from, to, catalog, p);
      ShiftFirstRejected(valid, from, to, catalog, keys[p]);
    }
  }

  /** The inductive step of PurposeKeysFirstRejected: a first rejected call of the tail moves one place on. */
  lemma ShiftFirstRejected(valid: seq<ValidCall>, from: Date, to: Date, catalog: seq<string>, x: (string, Option<string>))
    requires valid != []
    requires InRange(valid[0].eventTime, from, to) ==> Catalogued((valid[0].labName, valid[0].callPurpose), catalog)
    requires exists i :: 0 <= i < |valid[1..]| && InRange(valid[1..][i].eventTime, from, to)
              && x == (valid[1..][i].labName, valid[1..][i].callPurpose)
              && forall q :: 0 <= q < i && InRange(valid[1..][q].eventTime, from, to) ==>
                   Catalogued((valid[1..][q].labName, valid[1..][q].callPurpose), catalog)
    ensures exists i :: 0 <= i < |valid| && InRange(valid[i].eventTime, from, to)
              && x == (valid[i].labName, valid[i].callPurpose)
              && forall q :: 0 <= q < i && InRange(valid[q].eventTime, from, to) ==>
                   Catalogued((valid[q].labName, valid[q].callPurpose), catalog)
  {
    var tail := valid[1..];
    var i :| 0 <= i < |tail| && InRange(tail[i].eventTime, from, to)
              && x == (tail[i].labName, tail[i].callPurpose)
              && forall q :: 0 <= q < i && InRange(tail[q].eventTime, from, to) ==>
                   Catalogued((tail[q].labName, tail[q].callPurpose), catalog);
    assert valid[i + 1] == tail[i];
    forall q | 0 < q < i + 1 && InRange(valid[q].eventTime, from, to)
      ensures Catalogued((valid[q].labName, valid[q].callPurpose), catalog)
    {
      assert valid[q] == tail[q - 1];
    }
  }

  /** The purposes among the keys are the purposes of the valid calls in range. */
  lemma PurposesOfKeys(valid: seq<ValidCall>, catalog: seq<string>, from: Date, to: Date)
    ensures (forall x :: x in PurposeKeys(valid, from, to) ==> x.1.Some? && x.1.value in catalog) <==>
            forall c :: c in valid && InRange(c.eventTime, from, to) ==> c.callPurpose.Some? && c.callPurpose.value in catalog
  {
    var keys := PurposeKeys(valid, from, to);
    if !forall c :: c in valid && InRange(c.eventTime, from, to) ==> c.callPurpose.Some? && c.callPurpose.value in catalog {
      var c :| c in valid && InRange(c.eventTime, from, to) && !(c.callPurpose.Some? && c.callPurpose.value in catalog);
      assert (c.labName, c.callPurpose) in keys;
    }
  }

  /** Every lab of a key is on the lab axis: GetLabs reads all rows. */
  lemma PurposeKeysOnAxis(valid: seq<ValidCall>, missed: seq<MissedCall>, from: Date, to: Date)
    ensures forall x :: x in PurposeKeys(valid, from, to) ==> x.0 in GetLabs(valid, missed)
  {
  }

  /**
   * Cell (catalog[i], labs[j]) counts the valid calls in range whose lab is
   * exactly labs[j] and whose purpose is catalog[i]; labs differing only in
   * letter case are counted apart.
   */
  lemma PurposeReportCell(valid: seq<ValidCall>, missed: seq<MissedCall>, catalog: seq<string>, from: Date, to: Date, i: nat, j: nat)
    requires PurposeReport(valid, missed, catalog, from, to).Success?
    requires i < |catalog| && j < |GetLabs(valid, missed)|
    ensures var r := PurposeReport(valid, missed, catalog, from, to).value;
      r.countData[i][j] == PurposeCount(valid, from, to, r.labs[j], Some(catalog[i]))
  {
    var labs := GetLabs(valid, missed);
    PurposeChartCell(labs, catalog, PurposeKeys(valid, from, to), i, j);
    PurposeKeysCount(valid, from, to, labs[j], Some(catalog[i]));
  }

  /** Row i's total is the number of valid calls in range whose purpose is catalog[i]. */
  lemma PurposeReportTotal(valid: seq<ValidCall>, missed: seq<MissedCall>, catalog: seq<string>, from: Date, to: Date, i: nat)
    requires PurposeReport(valid, missed, catalog, from, to).Success?
    requires i < |catalog|
    ensures PurposeReport(valid, missed, catalog, from, to).value.sumData[i] ==
              PurposeTotal(valid, from, to, Some(catalog[i]))
  {
    PurposeKeysTotal(valid, from, to, Some(catalog[i]));
    PurposeKeysOnAxis(valid, missed, from, to);
    PurposeChartTotal(GetLabs(valid, missed), catalog, PurposeKeys(valid, from, to), i);
  }
}
