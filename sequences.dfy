/**
 * The LINQ operators the reporting engine relies on, over sequences:
 * Distinct, GroupBy followed by Count, and Sum.
 */
module Sequences {

  /** No element occurs twice. */
  predicate NoDuplicates<T(==)>(s: seq<T>) {
    forall i, j :: 0 <= i < j < |s| ==> s[i] != s[j]
  }

  /** Enumerable.Distinct: the first occurrence of every element, in input order. */
  function Distinct<T(==)>(xs: seq<T>): (d: seq<T>)
    ensures NoDuplicates(d)
    ensures forall i :: 0 <= i < |d| ==> d[i] in xs
    ensures forall i :: 0 <= i < |xs| ==> xs[i] in d
    decreases |xs|
  {
    if xs == [] then []
    else
      var front := xs[..|xs| - 1];
      var d := Distinct(front);
      var x := xs[|xs| - 1];
      assert xs == front + [x];
      if x in d then d else d + [x]
  }

  /**
   * The elements of `d` come in the order of their first occurrence in `xs`:
   * an earlier element of `d` occurs in `xs` before a later one first does.
   */
  predicate FirstOccurrenceOrder<T(==)>(d: seq<T>, xs: seq<T>) {
    forall i, j :: 0 <= i < j < |d| ==> exists p :: 0 <= p < |xs| && xs[p] == d[i] && d[j] !in xs[..p + 1]
  }

  /** A sequence of two elements is the display of them. */
  lemma PairDisplay<T>(xs: seq<T>, a: T, b: T)
    requires |xs| == 2 && xs[0] == a && xs[1] == b
    ensures xs == [a, b]
  {
  }

  /** A sequence of three elements is the display of them. */
  lemma TripleDisplay<T>(xs: seq<T>, a: T, b: T, c: T)
    requires |xs| == 3 && xs[0] == a && xs[1] == b && xs[2] == c
    ensures xs == [a, b, c]
  {
  }

  /** A prefix of a prefix is a prefix. */
  lemma TakeOfTake<T>(xs: seq<T>, n: nat, m: nat)
    requires m <= n <= |xs|
    ensures xs[..n][..m] == xs[..m]
  {
  }

  /** Distinct keeps the elements in the order in which they first occur. */
  lemma {:induction false} DistinctOrder<T>(xs: seq<T>)
    ensures FirstOccurrenceOrder(Distinct(xs), xs)
    decreases |xs|
  {
    if xs != [] {
      var front := xs[..|xs| - 1];
      var d := Distinct(front);
      var x := xs[|xs| - 1];
      assert xs == front + [x];
      DistinctOrder(front);
      var r := Distinct(xs);
      forall i, j | 0 <= i < j < |r|
        ensures exists p :: 0 <= p < |xs| && xs[p] == r[i] && r[j] !in xs[..p + 1]
      {
        if j < |d| {
          var p :| 0 <= p < |front| && front[p] == d[i] && d[j] !in front[..p + 1];
          TakeOfTake(xs, |xs| - 1, p + 1);
          assert xs[p] == r[i];
        } else {
          assert x !in front;
          var p :| 0 <= p < |front| && front[p] == d[i];
          TakeOfTake(xs, |xs| - 1, p + 1);
          assert xs[p] == r[i];
        }
      }
    }
  }

  /** Distinct drops repetitions only: it keeps exactly the elements of its input. */
  lemma DistinctSameElements<T>(xs: seq<T>, x: T)
    ensures x in Distinct(xs) <==> x in xs
  {
    var d := Distinct(xs);
    if x in d {
      var i :| 0 <= i < |d| && d[i] == x;
    }
    if x in xs {
      var i :| 0 <= i < |xs| && xs[i] == x;
    }
  }

  /**
   * GroupBy(key).Select(group => (group.Key, group.Count())) over the keys
   * of the events: one group per distinct key, in order of first occurrence,
   * with the number of events that carry that key.
   */
  function GroupCount<T(==)>(xs: seq<T>): (gs: seq<(T, nat)>)
    ensures |gs| == |Distinct(xs)|
    ensures forall i :: 0 <= i < |gs| ==>
              gs[i].0 == Distinct(xs)[i] && gs[i].1 == multiset(xs)[gs[i].0] && gs[i].1 > 0
  {
    var d := Distinct(xs);
    seq(|d|, i requires 0 <= i < |d| => (d[i], multiset(xs)[d[i]]))
  }

  /** Every group's key passes a test exactly when every element does. */
  lemma GroupsAll<T>(xs: seq<T>, test: T -> bool)
    ensures (forall k :: 0 <= k < |GroupCount(xs)| ==> test(GroupCount(xs)[k].0)) <==> forall x :: x in xs ==> test(x)
  {
    var gs := GroupCount(xs);
    if forall k :: 0 <= k < |gs| ==> test(gs[k].0) {
      forall x | x in xs ensures test(x) {
        DistinctSameElements(xs, x);
        var k :| 0 <= k < |Distinct(xs)| && Distinct(xs)[k] == x;
        assert test(gs[k].0);
      }
    }
  }

  /** The key of a group occurs before any occurrence of the key of a later group. */
  lemma GroupCountOrder<T>(xs: seq<T>, k: nat, m: nat, q: nat)
    requires k < |GroupCount(xs)| && m < |GroupCount(xs)| && q < |xs| && xs[q] == GroupCount(xs)[m].0
    ensures k < m ==> exists p :: 0 <= p < q && xs[p] == GroupCount(xs)[k].0
  {
    var gs := GroupCount(xs);
    DistinctOrder(xs);
    if k < m {
      var p :| 0 <= p < |xs| && xs[p] == gs[k].0 && gs[m].0 !in xs[..p + 1];
      assert forall i :: 0 <= i <= p ==> xs[..p + 1][i] == xs[i];
    }
  }

  /** Enumerable.Sum over a list of counts. */
  function Sum(s: seq<int>): (t: int)
    ensures (forall i :: 0 <= i < |s| ==> 0 <= s[i]) ==> 0 <= t && forall i :: 0 <= i < |s| ==> s[i] <= t
  {
    if s == [] then 0 else s[0] + Sum(s[1..])
  }

  /** Raising one entry raises the sum by as much. */
  lemma {:induction false} SumAdd(s: seq<int>, j: nat, d: int)
    requires j < |s|
    ensures Sum(s[j := s[j] + d]) == Sum(s) + d
  {
    if j > 0 {
      assert s[j := s[j] + d][1..] == s[1..][j - 1 := s[j] + d];
      SumAdd(s[1..], j - 1, d);
    }
  }

  /** A sum of zeros is zero. */
  lemma {:induction false} SumZeros(s: seq<int>)
    requires forall i :: 0 <= i < |s| ==> s[i] == 0
    ensures Sum(s) == 0
  {
    if s != [] {
      SumZeros(s[1..]);
    }
  }
}
