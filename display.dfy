/**
 * `get_project_data` (app.py:596-637): the ledger rows a query matches by
 * name, cleaned name or project code, ordered by creation date with missing
 * dates last, at most ten of them, together with how many matched.
 */
module Display {
  import opened Wrappers
  import opened Names
  import opened Tables
  import opened Ordering
  import opened Sequences

  /** How many rows the page shows: `.head(10)`. */
  const PageSize := 10

  /**
   * The three masks of app.py:609-614, or-ed: the name as text contains the
   * query ignoring case, the cleaned name contains the cleaned query, or the
   * code as text contains the query ignoring case.
   */
  predicate Matches(r: ResultRow, q: string) {
    Contains(LowerAll(AsText(r.name)), LowerAll(q)) ||
    Contains(CleanName(NameOf(r.name)), CleanName(Some(q))) ||
    Contains(LowerAll(AsText(r.code)), LowerAll(q))
  }

  /** `results_df.loc[mask]`: the matching rows, in ledger order. */
  function Filter(ledger: seq<ResultRow>, q: string): (r: seq<ResultRow>)
    ensures |r| <= |ledger|
    ensures forall x :: x in r <==> x in ledger && Matches(x, q)
    ensures forall x :: multiset(r)[x] == if Matches(x, q) then multiset(ledger)[x] else 0
    ensures Subsequence(r, ledger)
  {
    if ledger == [] then []
    else
      assert ledger == [ledger[0]] + ledger[1..];
      var rest := Filter(ledger[1..], q);
      if Matches(ledger[0], q) then
        KeepHead(ledger[0], rest, ledger[1..]);
        [ledger[0]] + rest
      else
        DropHead(ledger[0], rest, ledger[1..]);
        rest
  }

  /** `pd.to_datetime(filtered_data["创建日期"], errors='coerce')` on one row. */
  function Parsed(r: ResultRow): ResultRow {
    r.(created := DateCell(AsDate(r.created)))
  }

  function ParseAll(rows: seq<ResultRow>): (r: seq<ResultRow>)
    ensures |r| == |rows| && forall i :: 0 <= i < |rows| ==> r[i] == Parsed(rows[i])
  {
    seq(|rows|, i requires 0 <= i < |rows| => Parsed(rows[i]))
  }

  function Min(a: int, b: int): int {
    if a <= b then a else b
  }

  /** The page of matching rows and the number of matching rows. */
  function ProjectData(ledger: seq<ResultRow>, q: string): (r: (seq<ResultRow>, nat))
    ensures r.1 == |Filter(ledger, q)|
    ensures |r.0| == Min(PageSize, r.1)
    ensures ByDate(r.0)
  {
    var matching := Filter(ledger, q);
    var sorted := SortByDate(ParseAll(matching));
    assert |sorted| == |matching| by {
      assert |multiset(sorted)| == |multiset(ParseAll(matching))|;
    }
    var page := sorted[..Min(PageSize, |sorted|)];
    SortedPrefix(sorted, |page|);
    (page, |matching|)
  }

  lemma SortedPrefix(rows: seq<ResultRow>, n: nat)
    requires ByDate(rows) && n <= |rows|
    ensures ByDate(rows[..n])
  {
    forall i, j | 0 <= i < j < n ensures DateLe(CreatedKey(rows[..n][i]), CreatedKey(rows[..n][j])) {
      assert rows[..n][i] == rows[i] && rows[..n][j] == rows[j];
    }
  }

  // ---------------------------------------------------------------------------
  // Properties

  /** Every row on the page is a matching ledger row with its date parsed. */
  lemma PageRowsMatch(ledger: seq<ResultRow>, q: string, x: ResultRow)
    requires x in ProjectData(ledger, q).0
    ensures exists y :: y in ledger && Matches(y, q) && x == Parsed(y)
  {
    var matching := Filter(ledger, q);
    var sorted := SortByDate(ParseAll(matching));
    assert |sorted| == |matching| by {
      assert |multiset(sorted)| == |multiset(ParseAll(matching))|;
    }
    assert x in sorted;
    assert x in ParseAll(matching);
    var i :| 0 <= i < |matching| && ParseAll(matching)[i] == x;
    assert matching[i] in matching;
  }

  /**
   * The page is the first rows of an ordering by date of all matching rows: no
   * matching row with an earlier date is left off while a later one is shown.
   */
  lemma PageIsEarliest(ledger: seq<ResultRow>, q: string)
    ensures exists all: seq<ResultRow> ::
              multiset(all) == multiset(ParseAll(Filter(ledger, q))) && ByDate(all) &&
              |ProjectData(ledger, q).0| <= |all| && ProjectData(ledger, q).0 == all[..|ProjectData(ledger, q).0|]
  {
    var all := SortByDate(ParseAll(Filter(ledger, q)));
    assert |all| == |Filter(ledger, q)| by {
      assert |multiset(all)| == |multiset(ParseAll(Filter(ledger, q)))|;
    }
  }

  /** `str.contains` with an empty pattern matches every row. */
  lemma EmptyQueryMatchesAll(ledger: seq<ResultRow>)
    ensures ProjectData(ledger, "").1 == |ledger|
  {
    var matching := Filter(ledger, "");
    forall x ensures multiset(matching)[x] == multiset(ledger)[x] {
      assert StartsWith(LowerAll(AsText(x.name)), LowerAll(""));
    }
    assert multiset(matching) == multiset(ledger);
    assert |multiset(matching)| == |multiset(ledger)|;
  }

  /** A row without a name reads as "nan", so the query "NaN" finds it. */
  lemma MissingNameMatchesNan(r: ResultRow)
    requires r.name == Null
    ensures Matches(r, "NaN")
  {
    assert LowerAll("NaN") == "nan";
    assert StartsWith(LowerAll(AsText(r.name)), "nan");
  }

  /**
   * Searching for a row's own project code finds it. This holds for the
   * literal-substring reading of `str.contains`; the program passes the query
   * as a regular expression, so a code such as "A(1)" does not find itself there.
   */
  lemma CodeFindsRow(r: ResultRow, code: string)
    requires r.code == Text(code)
    ensures Matches(r, code)
  {
    assert StartsWith(LowerAll(AsText(r.code)), LowerAll(code));
  }
}
