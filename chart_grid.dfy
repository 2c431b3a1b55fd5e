/**
 * The chart grid every report fills: a Dictionary<string, List<ChartMetrics>>
 * built zero-filled from a row axis and a column axis, then overwritten by a
 * fold over grouped counts, then projected to its counts and row totals.
 */
module ChartGrid {
  import opened Outcomes
  import opened Sequences
  import opened Strings

  /** ChartMetrics: a column name and its count (0 when freshly created). */
  datatype Cell = Cell(name: string, count: int)

  /**
   * The dictionary: its keys in insertion order (the order Keys and Values
   * enumerate them in) and the row stored under each key.
   */
  datatype Grid = Grid(keys: seq<string>, rows: seq<seq<Cell>>) {
    predicate Valid() {
      |keys| == |rows| && NoDuplicates(keys)
    }
  }

  /** A row of zero cells, one per column, in column order. */
  function ZeroRow(columns: seq<string>): seq<Cell> {
    seq(|columns|, j requires 0 <= j < |columns| => Cell(columns[j], 0))
  }

  /** The dictionary the nested foreach loops build; Dictionary.Add throws on a repeated key. */
  function ZeroGrid(keys: seq<string>, columns: seq<string>): (r: Result<Grid>)
    ensures r.Success? <==> NoDuplicates(keys)
    ensures r.Failure? ==> r.error == DuplicateKey
    ensures r.Success? ==>
              && r.value.Valid() && r.value.keys == keys
              && (forall i :: 0 <= i < |keys| ==> |r.value.rows[i]| == |columns|)
              && (forall i, j :: 0 <= i < |keys| && 0 <= j < |columns| ==> r.value.rows[i][j] == Cell(columns[j], 0))
  {
    if NoDuplicates(keys) then Success(Grid(keys, seq(|keys|, _ => ZeroRow(columns))))
    else Failure(DuplicateKey)
  }

  /**
   * The nested loops: for every row key, a new list with one zero cell per
   * column, added to the dictionary under that key.
   */
  method BuildGrid(keys: seq<string>, columns: seq<string>) returns (r: Result<Grid>)
    ensures r == ZeroGrid(keys, columns)
    ensures r.Success? <==> NoDuplicates(keys)
    ensures r.Failure? ==> r.error == DuplicateKey
    ensures r.Success? ==>
              && r.value.Valid() && r.value.keys == keys
              && (forall i :: 0 <= i < |keys| ==> |r.value.rows[i]| == |columns|)
              && (forall i, j :: 0 <= i < |keys| && 0 <= j < |columns| ==> r.value.rows[i][j] == Cell(columns[j], 0))
  {
    var added: seq<string> := [];
    var rows: seq<seq<Cell>> := [];
    for i := 0 to |keys|
      invariant added == keys[..i] && NoDuplicates(added)
      invariant rows == seq(i, _ => ZeroRow(columns))
    {
      var row: seq<Cell> := [];
      for j := 0 to |columns|
        invariant |row| == j && forall k :: 0 <= k < j ==> row[k] == Cell(columns[k], 0)
      {
        row := row + [Cell(columns[j], 0)];
      }
      assert row == ZeroRow(columns);
      if keys[i] in added {
        var k :| 0 <= k < i && keys[k] == keys[i];
        return Failure(DuplicateKey);
      }
      added := added + [keys[i]];
      rows := rows + [row];
    }
    assert added == keys;
    r := Success(Grid(added, rows));
  }

  /** Which cells of the looked-up row a group writes to: `Where(m => ...)`. */
  datatype Match =
    | IgnoringCase(lab: string)   // m.Name.ToUpper() == key.ToUpper()
    | Exactly(name: Option<string>) // m.Name == key, where a null key matches no cell

  predicate Hits(m: Match, name: string) {
    match m
    case IgnoringCase(lab) => SameIgnoringCase(name, lab)
    case Exactly(key) => key == Some(name)
  }

  /** A cell the exact match of the purpose report writes is also written by the volume report's case-blind match. */
  lemma ExactlyWithinIgnoringCase(lab: string, name: string)
    ensures Hits(Exactly(Some(lab)), name) ==> Hits(IgnoringCase(lab), name)
  {
  }

  /**
   * The two matchers differ on names that differ only in letter case: a
   * group of lab "lab a" writes the cell "LAB A" when the lab is compared
   * after ToUpper, and leaves it alone when compared exactly.
   */
  lemma MatchersDiffer(key: string, count: nat)
    ensures Targets(Update(Some(key), IgnoringCase("lab a"), count), key, "LAB A")
    ensures !Targets(Update(Some(key), Exactly(Some("lab a")), count), key, "LAB A")
  {
    var a, b := "LAB A", "lab a";
    assert |a| == |b|;
    forall i | 0 <= i < |a| ensures CaseVariants(a[i], b[i]) {
      assert i == 0 || i == 1 || i == 2 || i == 3 || i == 4;
    }
    assert a[0] != b[0];
  }

  /** One grouped count: the row key it is looked up under, the cells it writes, and the count. */
  datatype Update = Update(row: Option<string>, target: Match, count: nat)

  /** Whether a group with a null row key is skipped (`continue`) or looked up (and throws). */
  datatype NullRow = SkipNull | RejectNull

  /** The update writes to the cell `name` of the row stored under `key`. */
  predicate Targets(u: Update, key: string, name: string) {
    u.row == Some(key) && Hits(u.target, name)
  }

  /** The lookup of the update's row does not throw. */
  predicate Acceptable(u: Update, keys: seq<string>, nulls: NullRow) {
    match u.row
    case None => nulls == SkipNull
    case Some(k) => k in keys
  }

  /**
   * The exception a rejected lookup of `row` throws: ArgumentNullException
   * for a null key, KeyNotFoundException for a key the dictionary lacks.
   */
  function Rejection(row: Option<string>): (e: Error)
    ensures e == NullKey || e == KeyNotFound
    ensures e == NullKey <==> row.None?
  {
    if row.None? then NullKey else KeyNotFound
  }

  /** Where the dictionary stores `k`. */
  function IndexOf(keys: seq<string>, k: string): (i: nat)
    requires k in keys
    ensures i < |keys| && keys[i] == k && k !in keys[..i]
  {
    if keys[0] == k then 0
    else
      var i := 1 + IndexOf(keys[1..], k);
      assert keys[..i] == [keys[0]] + keys[1..][..i - 1];
      i
  }

  /** `.Where(match).ToList().ForEach(s => s.count = count)` on one row. */
  function Overwritten(row: seq<Cell>, m: Match, count: int): (r: seq<Cell>)
    ensures |r| == |row|
    ensures forall j :: 0 <= j < |row| ==>
              r[j].name == row[j].name && r[j].count == if Hits(m, row[j].name) then count else row[j].count
  {
    seq(|row|, j requires 0 <= j < |row| => if Hits(m, row[j].name) then Cell(row[j].name, count) else row[j])
  }

  /**
   * One iteration of a fold loop: look the row up (or skip a null key), and
   * overwrite the count of every cell of that row the group matches.
   */
  function Apply(g: Grid, u: Update, nulls: NullRow): (r: Result<Grid>)
    requires g.Valid()
    ensures r.Success? <==> Acceptable(u, g.keys, nulls)
    ensures r.Failure? ==> r.error == Rejection(u.row)
    ensures r.Success? ==>
              && r.value.Valid() && r.value.keys == g.keys
              && (forall i :: 0 <= i < |g.rows| ==> |r.value.rows[i]| == |g.rows[i]|)
              && (forall i, j :: 0 <= i < |g.rows| && 0 <= j < |g.rows[i]| ==>
                    r.value.rows[i][j] ==
                      if Targets(u, g.keys[i], g.rows[i][j].name) then Cell(g.rows[i][j].name, u.count)
                      else g.rows[i][j])
  {
    match u.row
    case None => if nulls == SkipNull then Success(g) else Failure(NullKey)
    case Some(k) =>
      if k !in g.keys then Failure(KeyNotFound)
      else
        var i := IndexOf(g.keys, k);
        assert forall i' :: 0 <= i' < |g.keys| && g.keys[i'] == k ==> i' == i;
        Success(Grid(g.keys, g.rows[i := Overwritten(g.rows[i], u.target, u.count)]))
  }

  /** A whole fold loop over the grouped counts, in order; the first rejected lookup throws. */
  function Fold(g: Grid, us: seq<Update>, nulls: NullRow): (r: Result<Grid>)
    requires g.Valid()
    ensures r.Success? ==> r.value.Valid() && r.value.keys == g.keys
    decreases |us|
  {
    if us == [] then Success(g)
    else
      var next :- Apply(g, us[0], nulls);
      Fold(next, us[1..], nulls)
  }

  /** The count a cell holds after the updates `us`, starting from `v`: the last write wins. */
  function Final(us: seq<Update>, key: string, name: string, v: int): (r: int)
    ensures r == v || exists k :: 0 <= k < |us| && Targets(us[k], key, name) && r == us[k].count
    decreases |us|
  {
    if us == [] then v
    else Final(us[1..], key, name, if Targets(us[0], key, name) then us[0].count else v)
  }

  /** A later count written over an earlier one, when its group exists (its count is positive). */
  function Overlay(earlier: int, later: nat): (r: int)
    ensures r == earlier || r == later
    ensures later > 0 ==> r == later
  {
    if later > 0 then later else earlier
  }

  /** The loop of OverwriteMatching writes exactly the matching cells. */
  method OverwriteMatching(row: seq<Cell>, m: Match, count: int) returns (r: seq<Cell>)
    ensures r == Overwritten(row, m, count)
  {
    r := row;
    for j := 0 to |row|
      invariant |r| == |row|
      invariant forall k :: 0 <= k < j ==> r[k] == Overwritten(row, m, count)[k]
      invariant forall k :: j <= k < |row| ==> r[k] == row[k]
    {
      if Hits(m, r[j].name) {
        r := r[j := Cell(r[j].name, count)];
      }
    }
  }

  /** A fold loop: each grouped count in turn is looked up and written over its matching cells. */
  method FoldUpdates(g: Grid, us: seq<Update>, nulls: NullRow) returns (r: Result<Grid>)
    requires g.Valid()
    ensures r == Fold(g, us, nulls)
  {
    var cur := g;
    for i := 0 to |us|
      invariant cur.Valid()
      invariant Fold(cur, us[i..], nulls) == Fold(g, us, nulls)
    {
      assert us[i..][0] == us[i] && us[i..][1..] == us[i + 1..];
      var u := us[i];
      match u.row {
        case None =>
          if nulls == RejectNull {
            return Failure(NullKey);
          }
        case Some(k) =>
          if k !in cur.keys {
            return Failure(KeyNotFound);
          }
          var at := IndexOf(cur.keys, k);
          var row := OverwriteMatching(cur.rows[at], u.target, u.count);
          cur := Grid(cur.keys, cur.rows[at := row]);
      }
    }
    assert us[|us|..] == [];
    r := Success(cur);
  }

  /** A fold succeeds exactly when every lookup succeeds; otherwise the first rejected one decides the exception. */
  lemma {:induction false} FoldSucceeds(g: Grid, us: seq<Update>, nulls: NullRow)
    requires g.Valid()
    ensures Fold(g, us, nulls).Success? <==> forall k :: 0 <= k < |us| ==> Acceptable(us[k], g.keys, nulls)
    ensures Fold(g, us, nulls).Failure? ==>
              exists k :: 0 <= k < |us| && !Acceptable(us[k], g.keys, nulls) && Fold(g, us, nulls).error == Rejection(us[k].row)
                && forall k' :: 0 <= k' < k ==> Acceptable(us[k'], g.keys, nulls)
    decreases |us|
  {
    if us != [] {
      var a := Apply(g, us[0], nulls);
      AcceptableCons(us, g.keys, nulls);
      if a.Success? {
        FoldSucceeds(a.value, us[1..], nulls);
        assert Fold(g, us, nulls) == Fold(a.value, us[1..], nulls);
        if Fold(g, us, nulls).Failure? {
          FirstRejectedCons(us, g.keys, nulls, Fold(g, us, nulls).error);
        }
      } else {
        assert Fold(g, us, nulls) == Failure(Rejection(us[0].row));
        assert !Acceptable(us[0], g.keys, nulls);
      }
    }
  }

  /** Every update is acceptable exactly when the first one and every later one is. */
  lemma AcceptableCons(us: seq<Update>, keys: seq<string>, nulls: NullRow)
    requires us != []
    ensures (forall k :: 0 <= k < |us| ==> Acceptable(us[k], keys, nulls)) <==>
              Acceptable(us[0], keys, nulls) && forall k :: 0 <= k < |us[1..]| ==> Acceptable(us[1..][k], keys, nulls)
  {
    if Acceptable(us[0], keys, nulls) && forall k :: 0 <= k < |us[1..]| ==> Acceptable(us[1..][k], keys, nulls) {
      forall k | 0 < k < |us| ensures Acceptable(us[k], keys, nulls) {
        assert us[k] == us[1..][k - 1];
      }
    }
  }

  /** The first rejected update after an acceptable one is the first rejected update of the whole sequence. */
  lemma FirstRejectedCons(us: seq<Update>, keys: seq<string>, nulls: NullRow, e: Error)
    requires us != [] && Acceptable(us[0], keys, nulls)
    requires exists k :: 0 <= k < |us[1..]| && !Acceptable(us[1..][k], keys, nulls) && e == Rejection(us[1..][k].row)
               && forall k' :: 0 <= k' < k ==> Acceptable(us[1..][k'], keys, nulls)
    ensures exists k :: 0 <= k < |us| && !Acceptable(us[k], keys, nulls) && e == Rejection(us[k].row)
              && forall k' :: 0 <= k' < k ==> Acceptable(us[k'], keys, nulls)
  {
    var k :| 0 <= k < |us[1..]| && !Acceptable(us[1..][k], keys, nulls) && e == Rejection(us[1..][k].row)
               && forall k' :: 0 <= k' < k ==> Acceptable(us[1..][k'], keys, nulls);
    forall k' | 0 < k' < k + 1 ensures Acceptable(us[k'], keys, nulls) {
      assert us[k'] == us[1..][k' - 1];
    }
    assert us[k + 1] == us[1..][k];
  }

  /** A fold whose updates all name a row can only throw KeyNotFound. */
  lemma FoldNamedRows(g: Grid, us: seq<Update>, nulls: NullRow)
    requires g.Valid()
    requires forall k :: 0 <= k < |us| ==> us[k].row.Some?
    ensures Fold(g, us, nulls).Failure? ==> Fold(g, us, nulls).error == KeyNotFound
  {
    FoldSucceeds(g, us, nulls);
  }

  /**
   * After a successful fold every cell keeps its name, and its count is the
   * count of the last update that wrote to it, or its old count if none did.
   */
  lemma {:induction false} FoldCells(g: Grid, us: seq<Update>, nulls: NullRow)
    requires g.Valid() && Fold(g, us, nulls).Success?
    ensures var r := Fold(g, us, nulls).value;
      && (forall i :: 0 <= i < |g.rows| ==> |r.rows[i]| == |g.rows[i]|)
      && (forall i, j :: 0 <= i < |g.rows| && 0 <= j < |g.rows[i]| ==>
            r.rows[i][j] == Cell(g.rows[i][j].name, Final(us, g.keys[i], g.rows[i][j].name, g.rows[i][j].count)))
    decreases |us|
  {
    if us != [] {
      var next := Apply(g, us[0], nulls).value;
      FoldCells(next, us[1..], nulls);
    }
  }

  /** A cell no update writes to keeps its count. */
  lemma {:induction false} FinalNone(us: seq<Update>, key: string, name: string, v: int)
    requires forall k :: 0 <= k < |us| ==> !Targets(us[k], key, name)
    ensures Final(us, key, name, v) == v
    decreases |us|
  {
    if us != [] {
      FinalNone(us[1..], key, name, v);
    }
  }

  /** A cell exactly one update writes to ends with that update's count. */
  lemma {:induction false} FinalOne(us: seq<Update>, at: nat, key: string, name: string, v: int)
    requires at < |us| && Targets(us[at], key, name)
    requires forall k :: 0 <= k < |us| && k != at ==> !Targets(us[k], key, name)
    ensures Final(us, key, name, v) == us[at].count
    decreases |us|
  {
    if at == 0 {
      FinalNone(us[1..], key, name, us[0].count);
    } else {
      FinalOne(us[1..], at - 1, key, name, v);
    }
  }

  /**
   * When the updates are the groups of `xs` (GroupBy then Count) and the
   * cell is written by the group of `target` alone, it ends with the number
   * of occurrences of `target`, or keeps its count when there are none.
   */
  lemma FinalOfGroups<K>(xs: seq<K>, us: seq<Update>, target: K, key: string, name: string, v: int)
    requires |us| == |GroupCount(xs)|
    requires forall k :: 0 <= k < |us| ==>
               us[k].count == GroupCount(xs)[k].1 && (Targets(us[k], key, name) <==> GroupCount(xs)[k].0 == target)
    ensures Final(us, key, name, v) == Overlay(v, multiset(xs)[target])
  {
    var gs := GroupCount(xs);
    if at :| 0 <= at < |gs| && gs[at].0 == target {
      forall k | 0 <= k < |us| && k != at ensures !Targets(us[k], key, name) {
        assert Distinct(xs)[k] != Distinct(xs)[at];
      }
      FinalOne(us, at, key, name, v);
    } else {
      DistinctSameElements(xs, target);
      FinalNone(us, key, name, v);
    }
  }

  /** `.Select(m => m.count).ToList()` for every row: the grid's counts. */
  function CountsOf(g: Grid): (cd: seq<seq<int>>)
    ensures |cd| == |g.rows|
    ensures forall i :: 0 <= i < |g.rows| ==> |cd[i]| == |g.rows[i]|
    ensures forall i, j :: 0 <= i < |g.rows| && 0 <= j < |g.rows[i]| ==> cd[i][j] == g.rows[i][j].count
  {
    seq(|g.rows|, i requires 0 <= i < |g.rows| =>
      seq(|g.rows[i]|, j requires 0 <= j < |g.rows[i]| => g.rows[i][j].count))
  }

  /** The countData loop: one entry per row, in row order, listing that row's counts in cell order. */
  method CountData(g: Grid) returns (cd: seq<seq<int>>)
    ensures |cd| == |g.rows|
    ensures forall i :: 0 <= i < |g.rows| ==> |cd[i]| == |g.rows[i]|
    ensures forall i, j :: 0 <= i < |g.rows| && 0 <= j < |g.rows[i]| ==> cd[i][j] == g.rows[i][j].count
    ensures cd == CountsOf(g)
  {
    cd := [];
    for i := 0 to |g.rows|
      invariant cd == CountsOf(g)[..i]
    {
      var row := g.rows[i];
      var counts := seq(|row|, j requires 0 <= j < |row| => row[j].count);
      assert counts == CountsOf(g)[i];
      assert CountsOf(g)[..i + 1] == CountsOf(g)[..i] + [counts];
      cd := cd + [counts];
    }
    assert CountsOf(g)[..|g.rows|] == CountsOf(g);
  }

  /** The sumData loop: each entry is the total of the counts of its row. */
  method SumData(cd: seq<seq<int>>) returns (sd: seq<int>)
    ensures |sd| == |cd|
    ensures forall i :: 0 <= i < |cd| ==> sd[i] == Sum(cd[i])
  {
    sd := [];
    for i := 0 to |cd|
      invariant |sd| == i
      invariant forall k :: 0 <= k < i ==> sd[k] == Sum(cd[k])
    {
      sd := sd + [Sum(cd[i])];
    }
  }
}
