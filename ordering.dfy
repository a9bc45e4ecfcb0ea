/**
 * The orderings the source relies on: Python's `sorted()` on names (code-point
 * lexicographic order), `pd.unique`/`drop_duplicates` (first occurrence wins),
 * and `sort_values(by='创建日期', na_position='last')` on ledger rows.
 */
module Ordering {
  import opened Wrappers
  import opened Tables

  // ---------------------------------------------------------------------------
  // Names

  /** Python's `<=` on `str`: lexicographic by code point. */
  predicate LexLe(a: string, b: string)
    decreases |a|
  {
    a == [] || (b != [] && (a[0] < b[0] || (a[0] == b[0] && LexLe(a[1..], b[1..]))))
  }

  lemma {:induction false} LexLeTotal(a: string, b: string)
    ensures LexLe(a, b) || LexLe(b, a)
    decreases |a|
  {
    if a != [] && b != [] && a[0] == b[0] {
      LexLeTotal(a[1..], b[1..]);
    }
  }

  lemma {:induction false} LexLeTransitive(a: string, b: string, c: string)
    requires LexLe(a, b) && LexLe(b, c)
    ensures LexLe(a, c)
    decreases |a|
  {
    if a != [] && a[0] == b[0] && b[0] == c[0] {
      LexLeTransitive(a[1..], b[1..], c[1..]);
    }
  }

  lemma {:induction false} LexLeAntisymmetric(a: string, b: string)
    requires LexLe(a, b) && LexLe(b, a)
    ensures a == b
    decreases |a|
  {
    if a != [] {
      LexLeAntisymmetric(a[1..], b[1..]);
      assert a == [a[0]] + a[1..] && b == [b[0]] + b[1..];
    }
  }

  ghost predicate Sorted(xs: seq<string>) {
    forall i, j :: 0 <= i < j < |xs| ==> LexLe(xs[i], xs[j])
  }

  /** Sorted with no repeats. */
  ghost predicate StrictlySorted(xs: seq<string>) {
    Sorted(xs) && forall i, j :: 0 <= i < j < |xs| ==> xs[i] != xs[j]
  }

  lemma ConsSorted(h: string, t: seq<string>)
    requires Sorted(t)
    requires forall y :: y in t ==> LexLe(h, y)
    ensures Sorted([h] + t)
  {
    var r := [h] + t;
    forall i, j | 0 <= i < j < |r| ensures LexLe(r[i], r[j]) {
      if i > 0 { assert r[i] == t[i - 1] && r[j] == t[j - 1]; }
      else { assert r[j] == t[j - 1]; }
    }
  }

  function Insert(x: string, xs: seq<string>): (r: seq<string>)
    requires Sorted(xs)
    ensures Sorted(r)
    ensures multiset(r) == multiset(xs) + multiset{x}
    ensures forall y :: y in r <==> y == x || y in xs
  {
    if xs == [] then [x]
    else if LexLe(x, xs[0]) then
      assert forall y :: y in xs ==> LexLe(x, y) by {
        forall y | y in xs ensures LexLe(x, y) {
          var j :| 0 <= j < |xs| && xs[j] == y;
          if j > 0 { LexLeTransitive(x, xs[0], xs[j]); }
        }
      }
      ConsSorted(x, xs);
      [x] + xs
    else
      LexLeTotal(x, xs[0]);
      assert xs == [xs[0]] + xs[1..];
      var rest := Insert(x, xs[1..]);
      assert forall y :: y in xs[1..] ==> LexLe(xs[0], y) by {
        forall y | y in xs[1..] ensures LexLe(xs[0], y) {
          var j :| 0 <= j < |xs[1..]| && xs[1..][j] == y;
          assert xs[j + 1] == y;
        }
      }
      ConsSorted(xs[0], rest);
      [xs[0]] + rest
  }

  /** `sorted(names)`: an ordered permutation of the names. */
  function SortNames(xs: seq<string>): (r: seq<string>)
    ensures Sorted(r)
    ensures multiset(r) == multiset(xs)
    ensures forall y :: y in r <==> y in xs
  {
    if xs == [] then []
    else
      assert xs == [xs[0]] + xs[1..];
      Insert(xs[0], SortNames(xs[1..]))
  }

  ghost predicate NoRepeats(xs: seq<string>) {
    forall i, j :: 0 <= i < j < |xs| ==> xs[i] != xs[j]
  }

  lemma ConsNoRepeats(h: string, t: seq<string>)
    requires NoRepeats(t) && h !in t
    ensures NoRepeats([h] + t)
  {
    var r := [h] + t;
    assert forall k :: 0 < k < |r| ==> r[k] == t[k - 1] && t[k - 1] in t;
  }

  /** First occurrences, in order, of the names not already seen. */
  function UniqueFrom(xs: seq<string>, seen: set<string>): (r: seq<string>)
    ensures NoRepeats(r)
    ensures forall x :: x in r <==> x in xs && x !in seen
  {
    if xs == [] then []
    else if xs[0] in seen then UniqueFrom(xs[1..], seen)
    else
      assert xs == [xs[0]] + xs[1..];
      var rest := UniqueFrom(xs[1..], seen + {xs[0]});
      var r := [xs[0]] + rest;
      assert forall i :: 0 < i < |r| ==> r[i] == rest[i - 1];
      r
  }

  /** `pd.unique`: first occurrences, in order. */
  function Unique(xs: seq<string>): (r: seq<string>)
    ensures NoRepeats(r)
    ensures forall x :: x in r <==> x in xs
  {
    UniqueFrom(xs, {})
  }

  /** Sorting names that do not repeat gives a strictly increasing list. */
  lemma SortedDistinct(xs: seq<string>)
    requires NoRepeats(xs)
    ensures StrictlySorted(SortNames(xs))
  {
    var r := SortNames(xs);
    forall i, j | 0 <= i < j < |r| ensures r[i] != r[j] {
      if r[i] == r[j] {
        TwiceCountsTwo(r, i, j);
        NoRepeatsCountsOne(xs, r[i]);
      }
    }
  }

  /** `sorted(unique(names))` is strictly increasing and has exactly the names. */
  lemma SortedUnique(xs: seq<string>)
    ensures StrictlySorted(SortNames(Unique(xs)))
    ensures forall x :: x in SortNames(Unique(xs)) <==> x in xs
  {
    SortedDistinct(Unique(xs));
  }

  lemma TwiceCountsTwo(r: seq<string>, i: nat, j: nat)
    requires i < j < |r| && r[i] == r[j]
    ensures multiset(r)[r[i]] >= 2
  {
    assert r == r[..i] + [r[i]] + r[i+1..j] + [r[j]] + r[j+1..];
    assert multiset(r) == multiset(r[..i]) + multiset{r[i]} + multiset(r[i+1..j]) + multiset{r[j]} + multiset(r[j+1..]);
  }

  lemma {:induction false} NoRepeatsCountsOne(xs: seq<string>, x: string)
    requires NoRepeats(xs)
    ensures multiset(xs)[x] <= 1
  {
    if xs != [] {
      assert xs == [xs[0]] + xs[1..];
      assert NoRepeats(xs[1..]) by {
        forall i, j | 0 <= i < j < |xs| - 1 ensures xs[1..][i] != xs[1..][j] {
          assert xs[1..][i] == xs[i + 1] && xs[1..][j] == xs[j + 1];
        }
      }
      NoRepeatsCountsOne(xs[1..], x);
      if xs[0] == x {
        assert x !in xs[1..];
      }
    }
  }

  // ---------------------------------------------------------------------------
  // Ledger rows by creation date, missing dates last

  /** Ascending dates, missing dates after every present one. */
  predicate DateLe(a: Option<int>, b: Option<int>) {
    if a.None? then b.None? else b.None? || a.value <= b.value
  }

  function CreatedKey(r: ResultRow): Option<int> {
    AsDate(r.created)
  }

  ghost predicate ByDate(rows: seq<ResultRow>) {
    forall i, j :: 0 <= i < j < |rows| ==> DateLe(CreatedKey(rows[i]), CreatedKey(rows[j]))
  }

  lemma ConsByDate(h: ResultRow, t: seq<ResultRow>)
    requires ByDate(t)
    requires forall y :: y in t ==> DateLe(CreatedKey(h), CreatedKey(y))
    ensures ByDate([h] + t)
  {
    var r := [h] + t;
    forall i, j | 0 <= i < j < |r| ensures DateLe(CreatedKey(r[i]), CreatedKey(r[j])) {
      if i > 0 { assert r[i] == t[i - 1] && r[j] == t[j - 1]; }
      else { assert r[j] == t[j - 1]; }
    }
  }

  function InsertByDate(x: ResultRow, rows: seq<ResultRow>): (r: seq<ResultRow>)
    requires ByDate(rows)
    ensures ByDate(r)
    ensures multiset(r) == multiset(rows) + multiset{x}
    ensures forall y :: y in r <==> y == x || y in rows
  {
    if rows == [] || DateLe(CreatedKey(x), CreatedKey(rows[0])) then
      assert forall y :: y in rows ==> DateLe(CreatedKey(x), CreatedKey(y)) by {
        forall y | y in rows ensures DateLe(CreatedKey(x), CreatedKey(y)) {
          var j :| 0 <= j < |rows| && rows[j] == y;
        }
      }
      ConsByDate(x, rows);
      [x] + rows
    else
      assert rows == [rows[0]] + rows[1..];
      var rest := InsertByDate(x, rows[1..]);
      assert forall y :: y in rows[1..] ==> DateLe(CreatedKey(rows[0]), CreatedKey(y)) by {
        forall y | y in rows[1..] ensures DateLe(CreatedKey(rows[0]), CreatedKey(y)) {
          var j :| 0 <= j < |rows[1..]| && rows[1..][j] == y;
          assert rows[j + 1] == y;
        }
      }
      ConsByDate(rows[0], rest);
      [rows[0]] + rest
  }

  /** `sort_values(by='创建日期', ascending=True, na_position='last')`. */
  function SortByDate(rows: seq<ResultRow>): (r: seq<ResultRow>)
    ensures ByDate(r)
    ensures multiset(r) == multiset(rows)
    ensures forall y :: y in r <==> y in rows
  {
    if rows == [] then []
    else
      assert rows == [rows[0]] + rows[1..];
      InsertByDate(rows[0], SortByDate(rows[1..]))
  }
}
