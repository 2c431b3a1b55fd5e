/**
 * The string operations the engine applies to lab names: String.ToUpper for
 * case-insensitive matching, and the ordering used by OrderBy(x => x).
 */
module Strings {
  import opened Sequences

  /** String.ToUpper on one character; only the ASCII letters are mapped. */
  function UpperChar(c: char): char {
    if 'a' <= c <= 'z' then (c as int - 32) as char else c
  }

  /** String.ToUpper, character by character. */
  function Upper(s: string): (u: string)
    ensures |u| == |s|
    ensures forall i :: 0 <= i < |u| ==> !('a' <= u[i] <= 'z')
    ensures forall i :: 0 <= i < |s| && 'a' <= s[i] <= 'z' ==> u[i] as int == s[i] as int - 32
    ensures forall i :: 0 <= i < |s| && !('a' <= s[i] <= 'z') ==> u[i] == s[i]
  {
    seq(|s|, i requires 0 <= i < |s| => UpperChar(s[i]))
  }

  /** Two characters that are equal or are the lower- and upper-case forms of one ASCII letter. */
  predicate CaseVariants(c: char, d: char) {
    || c == d
    || ('a' <= c <= 'z' && d as int == c as int - 32)
    || ('a' <= d <= 'z' && c as int == d as int - 32)
  }

  /**
   * `a.ToUpper() == b.ToUpper()`: the two names match exactly when they have
   * the same length and differ at most in the letter case of each character.
   */
  predicate SameIgnoringCase(a: string, b: string): (r: bool)
    ensures r <==> |a| == |b| && forall i :: 0 <= i < |a| ==> CaseVariants(a[i], b[i])
  {
    var ua, ub := Upper(a), Upper(b);
    assert |a| == |b| && (forall i :: 0 <= i < |a| ==> CaseVariants(a[i], b[i])) ==> ua == ub by {
      if |a| == |b| && forall i :: 0 <= i < |a| ==> CaseVariants(a[i], b[i]) {
        forall i | 0 <= i < |a| ensures ua[i] == ub[i] {
          assert CaseVariants(a[i], b[i]);
        }
      }
    }
    assert ua == ub ==> forall i :: 0 <= i < |a| ==> CaseVariants(a[i], b[i]) by {
      if ua == ub {
        forall i | 0 <= i < |a| ensures CaseVariants(a[i], b[i]) {
          assert ua[i] == ub[i];
        }
      }
    }
    ua == ub
  }

  /**
   * Ordinal order on strings: `a` sorts strictly before `b`. A proper prefix
   * sorts before the longer string, and otherwise the first differing
   * character decides.
   */
  predicate Below(a: string, b: string): (r: bool)
    ensures |a| < |b| && a == b[..|a|] ==> r
    ensures forall k :: 0 <= k < |a| && k < |b| && a[..k] == b[..k] && a[k] != b[k] ==> (r <==> a[k] < b[k])
    decreases |a|
  {
    assert forall k :: 0 < k <= |a| && k <= |b| && a[..k] == b[..k] ==> a[0] == b[0] && a[1..][..k - 1] == b[1..][..k - 1];
    |b| > 0 && (|a| == 0 || a[0] < b[0] || (a[0] == b[0] && Below(a[1..], b[1..])))
  }

  lemma {:induction false} BelowIrreflexive(a: string)
    ensures !Below(a, a)
    decreases |a|
  {
    if |a| > 0 {
      BelowIrreflexive(a[1..]);
    }
  }

  lemma {:induction false} BelowTransitive(a: string, b: string, c: string)
    requires Below(a, b) && Below(b, c)
    ensures Below(a, c)
    decreases |a|
  {
    if |a| > 0 && a[0] == b[0] && b[0] == c[0] {
      BelowTransitive(a[1..], b[1..], c[1..]);
    }
  }

  /** Any two different strings are ordered one way or the other. */
  lemma {:induction false} BelowTotal(a: string, b: string)
    requires a != b
    ensures Below(a, b) || Below(b, a)
    decreases |a|
  {
    if |a| > 0 && |b| > 0 && a[0] == b[0] {
      assert a == [a[0]] + a[1..] && b == [b[0]] + b[1..];
      BelowTotal(a[1..], b[1..]);
    }
  }

  /** Every element sorts strictly before every later one. */
  predicate StrictlyAscending(s: seq<string>) {
    forall i, j :: 0 <= i < j < |s| ==> Below(s[i], s[j])
  }

  /** A strictly ascending list repeats no element. */
  lemma AscendingDistinct(s: seq<string>)
    requires StrictlyAscending(s)
    ensures NoDuplicates(s)
  {
    forall i, j | 0 <= i < j < |s| ensures s[i] != s[j] {
      BelowIrreflexive(s[i]);
    }
  }

  /** Inserts `x` in front of the first element it sorts before. */
  function Insert(x: string, s: seq<string>): (r: seq<string>)
    ensures multiset(r) == multiset(s) + multiset{x}
  {
    if s == [] then [x]
    else if Below(x, s[0]) then [x] + s
    else
      assert s == [s[0]] + s[1..];
      [s[0]] + Insert(x, s[1..])
  }

  /** OrderBy(x => x) over the ordinal order, as an insertion sort. */
  function Sort(xs: seq<string>): (r: seq<string>)
    ensures multiset(r) == multiset(xs)
  {
    if xs == [] then []
    else
      assert xs == [xs[0]] + xs[1..];
      Insert(xs[0], Sort(xs[1..]))
  }

  lemma {:induction false} InsertAscending(x: string, s: seq<string>)
    requires StrictlyAscending(s) && x !in s
    ensures StrictlyAscending(Insert(x, s))
  {
    if s == [] {
    } else if Below(x, s[0]) {
      forall j | 0 < j < |s| ensures Below(x, s[j]) {
        BelowTransitive(x, s[0], s[j]);
      }
    } else {
      BelowTotal(x, s[0]);
      var rest := Insert(x, s[1..]);
      InsertAscending(x, s[1..]);
      forall j | 0 <= j < |rest| ensures Below(s[0], rest[j]) {
        assert rest[j] in multiset(rest);
        if rest[j] != x {
          assert rest[j] in multiset(s[1..]);
          var k :| 0 <= k < |s[1..]| && s[1..][k] == rest[j];
          assert s[k + 1] == rest[j];
        }
      }
    }
  }

  /** Sorting distinct names gives a strictly ascending list of the same names. */
  lemma {:induction false} SortAscending(xs: seq<string>)
    requires NoDuplicates(xs)
    ensures StrictlyAscending(Sort(xs))
  {
    if xs != [] {
      SortAscending(xs[1..]);
      assert xs[0] !in multiset(xs[1..]);
      InsertAscending(xs[0], Sort(xs[1..]));
    }
  }
}
