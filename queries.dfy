/**
 * The lists the pages offer (app.py:432-522): projects with unfinished tasks
 * that have requisitions, every project de-duplicated by cleaned name, and the
 * tasks of one project that have requisitions.
 */
module Queries {
  import opened Wrappers
  import opened Names
  import opened Tables
  import opened Ordering
  import opened Reconcile

  /**
   * Why a list could not be produced: the tables could not be loaded, a column
   * was absent (a `KeyError`), or the names to sort mixed text with a missing
   * value (a `TypeError` from `sorted`).
   */
  datatype QueryError = LoadFailed(message: string) | MissingColumn(column: string) | SortFailed

  const YearCol := "完成年份"
  const PendingColumns: seq<string> := ["项目名称", "任务名称", FinishCol, "站点名称"]
  const ProjectColumns: seq<string> := ["项目名称", YearCol]
  const TaskColumns: seq<string> := ["项目名称", "任务名称", "站点名称"]

  /** The first of the needed columns a table lacks (the first `KeyError`). */
  function FirstAbsent(columns: seq<string>, needed: seq<string>): (r: Option<string>)
    ensures r.None? <==> forall c :: c in needed ==> c in columns
    ensures r.Some? ==> r.value in needed && r.value !in columns
    ensures r.Some? ==> exists k :: 0 <= k < |needed| && needed[k] == r.value
                                   && forall j :: 0 <= j < k ==> needed[j] in columns
  {
    if needed == [] then None
    else if needed[0] !in columns then Some(needed[0])
    else
      assert needed == [needed[0]] + needed[1..];
      assert forall j :: 1 <= j < |needed| ==> needed[j] == needed[1..][j - 1];
      FirstAbsent(columns, needed[1..])
  }

  /** Projecting onto `usecols` neither adds nor removes a requested column. */
  lemma ProjectionKeeps(t: Table, usecols: seq<string>, c: string)
    requires c in usecols
    ensures c in SelectColumns(t, usecols).columns <==> c in t.columns
  {
  }

  /** The non-missing names under `col` of the rows at the given indices, in that order. */
  function NamesAt(rows: seq<Row>, col: string, idx: seq<nat>): (r: seq<string>)
    requires forall k :: 0 <= k < |idx| ==> idx[k] < |rows|
    ensures forall n :: n in r <==> exists k :: 0 <= k < |idx| && NameOf(Get(rows[idx[k]], col)) == Some(n)
  {
    if idx == [] then []
    else
      var rest := NamesAt(rows, col, idx[1..]);
      assert forall k :: 0 < k < |idx| ==> idx[k] == idx[1..][k - 1];
      var head := NameOf(Get(rows[idx[0]], col));
      if head.Some? then [head.value] + rest else rest
  }

  function Lefts(pairs: seq<(nat, nat)>): (r: seq<nat>)
    ensures |r| == |pairs| && forall k :: 0 <= k < |pairs| ==> r[k] == pairs[k].0
  {
    seq(|pairs|, k requires 0 <= k < |pairs| => pairs[k].0)
  }

  // ---------------------------------------------------------------------------
  // get_pending_projects

  /** A PMS task's cleaned (project, task). */
  function TaskKey(r: Row): (string, string) {
    (Key(Get(r, "项目名称")), Key(Get(r, "任务名称")))
  }

  /** A requisition's cleaned (project, site). */
  function SiteKey(r: Row): (string, string) {
    (Key(Get(r, "项目名称")), Key(Get(r, "站点名称")))
  }

  /** A PMS task and an SSCM requisition with equal cleaned project and task/site. */
  predicate PendingPair(p: Row, s: Row) {
    TaskKey(p) == SiteKey(s)
  }

  function TaskKeys(rows: seq<Row>): (r: seq<(string, string)>)
    ensures |r| == |rows| && forall i :: 0 <= i < |rows| ==> r[i] == TaskKey(rows[i])
  {
    seq(|rows|, i requires 0 <= i < |rows| => TaskKey(rows[i]))
  }

  function SiteKeys(rows: seq<Row>): (r: seq<(string, string)>)
    ensures |r| == |rows| && forall i :: 0 <= i < |rows| ==> r[i] == SiteKey(rows[i])
  {
    seq(|rows|, i requires 0 <= i < |rows| => SiteKey(rows[i]))
  }

  /**
   * The sorted distinct PMS project names of tasks that some requisition
   * matches on cleaned project and cleaned task/site.
   */
  function PendingProjects(pms: Table, sscm: Table): (r: Result<seq<string>, QueryError>)
    ensures r.Success? ==> StrictlySorted(r.value)
  {
    var p := SelectColumns(pms, PendingColumns);
    var s := SelectColumns(sscm, PendingColumns);
    match FirstAbsent(p.columns, ["项目名称", "任务名称"])
    case Some(c) => Failure(MissingColumn(c))
    case None =>
      match FirstAbsent(s.columns, ["项目名称", "站点名称"])
      case Some(c) => Failure(MissingColumn(c))
      case None =>
        var pairs := Join(TaskKeys(p.rows), SiteKeys(s.rows));
        var names := NamesAt(p.rows, "项目名称", Lefts(pairs));
        SortedUnique(names);
        Success(SortNames(Unique(names)))
  }

  /** The pending list fails exactly when one of the four key columns is absent. */
  lemma PendingNeedsColumns(pms: Table, sscm: Table)
    ensures PendingProjects(pms, sscm).Success? <==>
              "项目名称" in pms.columns && "任务名称" in pms.columns &&
              "项目名称" in sscm.columns && "站点名称" in sscm.columns
  {
    ProjectionKeeps(pms, PendingColumns, "项目名称");
    ProjectionKeeps(pms, PendingColumns, "任务名称");
    ProjectionKeeps(sscm, PendingColumns, "项目名称");
    ProjectionKeeps(sscm, PendingColumns, "站点名称");
  }

  /** Projection keeps the cells the pending list looks at. */
  lemma PendingProjected(pms: Table, sscm: Table, i: nat, j: nat)
    requires "项目名称" in pms.columns && "任务名称" in pms.columns
    requires "项目名称" in sscm.columns && "站点名称" in sscm.columns
    requires i < |pms.rows| && j < |sscm.rows|
    ensures var p := SelectColumns(pms, PendingColumns);
            var s := SelectColumns(sscm, PendingColumns);
            |p.rows| == |pms.rows| && |s.rows| == |sscm.rows| &&
            (PendingPair(p.rows[i], s.rows[j]) <==> PendingPair(pms.rows[i], sscm.rows[j])) &&
            Get(p.rows[i], "项目名称") == Get(pms.rows[i], "项目名称")
  {
    var p := SelectColumns(pms, PendingColumns);
    var s := SelectColumns(sscm, PendingColumns);
    ProjectionKeeps(pms, PendingColumns, "项目名称");
    ProjectionKeeps(pms, PendingColumns, "任务名称");
    ProjectionKeeps(sscm, PendingColumns, "项目名称");
    ProjectionKeeps(sscm, PendingColumns, "站点名称");
    assert Get(p.rows[i], "项目名称") == Get(pms.rows[i], "项目名称");
    assert Get(p.rows[i], "任务名称") == Get(pms.rows[i], "任务名称");
    assert Get(s.rows[j], "项目名称") == Get(sscm.rows[j], "项目名称");
    assert Get(s.rows[j], "站点名称") == Get(sscm.rows[j], "站点名称");
  }

  /** The pairs and names the pending list is built from. */
  lemma PendingNames(pms: Table, sscm: Table) returns (pairs: seq<(nat, nat)>, names: seq<string>)
    requires PendingProjects(pms, sscm).Success?
    ensures var p := SelectColumns(pms, PendingColumns);
            var s := SelectColumns(sscm, PendingColumns);
            pairs == Join(TaskKeys(p.rows), SiteKeys(s.rows)) &&
            names == NamesAt(p.rows, "项目名称", Lefts(pairs)) &&
            PendingProjects(pms, sscm).value == SortNames(Unique(names))
  {
    var p := SelectColumns(pms, PendingColumns);
    var s := SelectColumns(sscm, PendingColumns);
    pairs := Join(TaskKeys(p.rows), SiteKeys(s.rows));
    names := NamesAt(p.rows, "项目名称", Lefts(pairs));
  }

  /** Every pending name names a PMS task some requisition matches. */
  lemma PendingSound(pms: Table, sscm: Table, n: string)
    requires PendingProjects(pms, sscm).Success?
    requires n in PendingProjects(pms, sscm).value
    ensures exists i, j :: 0 <= i < |pms.rows| && 0 <= j < |sscm.rows| &&
              PendingPair(pms.rows[i], sscm.rows[j]) && NameOf(Get(pms.rows[i], "项目名称")) == Some(n)
  {
    var pairs, names := PendingNames(pms, sscm);
    var p := SelectColumns(pms, PendingColumns);
    assert n in names;
    var k :| 0 <= k < |Lefts(pairs)| && NameOf(Get(p.rows[Lefts(pairs)[k]], "项目名称")) == Some(n);
    assert pairs[k] in pairs;
    var i, j := pairs[k].0, pairs[k].1;
    PendingNeedsColumns(pms, sscm);
    PendingProjected(pms, sscm, i, j);
  }

  /** Every matched PMS task with a name puts that name in the pending list. */
  lemma PendingComplete(pms: Table, sscm: Table, i: nat, j: nat, n: string)
    requires PendingProjects(pms, sscm).Success?
    requires i < |pms.rows| && j < |sscm.rows|
    requires PendingPair(pms.rows[i], sscm.rows[j]) && NameOf(Get(pms.rows[i], "项目名称")) == Some(n)
    ensures n in PendingProjects(pms, sscm).value
  {
    var pairs, names := PendingNames(pms, sscm);
    var p := SelectColumns(pms, PendingColumns);
    var s := SelectColumns(sscm, PendingColumns);
    PendingNeedsColumns(pms, sscm);
    PendingProjected(pms, sscm, i, j);
    assert TaskKeys(p.rows)[i] == SiteKeys(s.rows)[j];
    assert (i, j) in pairs;
    var k :| 0 <= k < |pairs| && pairs[k] == (i, j);
    assert Lefts(pairs)[k] == i;
    assert n in names;
  }

  // ---------------------------------------------------------------------------
  // get_project_list

  predicate Ascending(idx: seq<nat>) {
    forall a, b :: 0 <= a < b < |idx| ==> idx[a] < idx[b]
  }

  predicate InRange(idx: seq<nat>, n: nat) {
    forall k :: 0 <= k < |idx| ==> idx[k] < n
  }

  /** A row the year filter keeps: all rows when the filter is off. */
  predicate InYear(r: Row, filterOn: bool, year: int) {
    !filterOn || Get(r, YearCol) == Number(year)
  }

  /** The indices, from `from` on, of the rows the year filter keeps. */
  function YearIndices(rows: seq<Row>, filterOn: bool, year: int, from: nat): (r: seq<nat>)
    requires from <= |rows|
    ensures Ascending(r) && InRange(r, |rows|)
    ensures forall i :: i in r <==> from <= i < |rows| && InYear(rows[i], filterOn, year)
    decreases |rows| - from
  {
    if from == |rows| then []
    else
      var rest := YearIndices(rows, filterOn, year, from + 1);
      if InYear(rows[from], filterOn, year) then
        assert forall k :: 0 <= k < |rest| ==> rest[k] in rest;
        [from] + rest
      else rest
  }

  /** The selected rows have pairwise different cleaned keys. */
  predicate DistinctKeys(keys: seq<string>, r: seq<nat>)
    requires InRange(r, |keys|)
  {
    forall a, b :: 0 <= a < b < |r| ==> keys[r[a]] != keys[r[b]]
  }

  /** Every cleaned key of `idx` outside `seen` has a selected row. */
  predicate CoversKeys(keys: seq<string>, idx: seq<nat>, seen: set<string>, r: seq<nat>)
    requires InRange(idx, |keys|) && InRange(r, |keys|)
  {
    forall i :: i in idx && keys[i] !in seen ==> exists j :: j in r && keys[j] == keys[i]
  }

  /** A row whose key an earlier row of `idx` already has is not selected. */
  predicate DropsLater(keys: seq<string>, idx: seq<nat>, r: seq<nat>)
    requires InRange(idx, |keys|)
  {
    forall a, b :: 0 <= a < b < |idx| && keys[idx[a]] == keys[idx[b]] ==> idx[b] !in r
  }

  /**
   * `drop_duplicates('清洗后的项目名称')` over the rows at `idx`: the first row of
   * each cleaned key not already in `seen`.
   */
  function FirstPerKey(keys: seq<string>, idx: seq<nat>, seen: set<string>): (r: seq<nat>)
    requires Ascending(idx) && InRange(idx, |keys|)
    ensures Ascending(r) && InRange(r, |keys|)
    ensures forall i :: i in r ==> i in idx && keys[i] !in seen
    ensures DistinctKeys(keys, r) && CoversKeys(keys, idx, seen, r) && DropsLater(keys, idx, r)
  {
    if idx == [] then []
    else
      var h := idx[0];
      if keys[h] in seen then
        var rest := FirstPerKey(keys, idx[1..], seen);
        SkipStep(keys, idx, seen, rest);
        rest
      else
        var rest := FirstPerKey(keys, idx[1..], seen + {keys[h]});
        KeepStep(keys, idx, seen, rest);
        [h] + rest
  }

  lemma SkipStep(keys: seq<string>, idx: seq<nat>, seen: set<string>, rest: seq<nat>)
    requires idx != [] && Ascending(idx) && InRange(idx, |keys|) && keys[idx[0]] in seen
    requires InRange(rest, |keys|)
    requires forall i :: i in rest ==> i in idx[1..] && keys[i] !in seen
    requires CoversKeys(keys, idx[1..], seen, rest) && DropsLater(keys, idx[1..], rest)
    ensures CoversKeys(keys, idx, seen, rest) && DropsLater(keys, idx, rest)
  {
    assert forall k :: 0 < k < |idx| ==> idx[k] == idx[1..][k - 1];
    assert forall i :: i in idx ==> i == idx[0] || i in idx[1..];
  }

  lemma KeepStep(keys: seq<string>, idx: seq<nat>, seen: set<string>, rest: seq<nat>)
    requires idx != [] && Ascending(idx) && InRange(idx, |keys|) && keys[idx[0]] !in seen
    requires Ascending(rest) && InRange(rest, |keys|)
    requires forall i :: i in rest ==> i in idx[1..] && keys[i] !in seen + {keys[idx[0]]}
    requires DistinctKeys(keys, rest)
    requires CoversKeys(keys, idx[1..], seen + {keys[idx[0]]}, rest) && DropsLater(keys, idx[1..], rest)
    ensures Ascending([idx[0]] + rest) && InRange([idx[0]] + rest, |keys|)
    ensures forall i :: i in [idx[0]] + rest ==> i in idx && keys[i] !in seen
    ensures DistinctKeys(keys, [idx[0]] + rest)
    ensures CoversKeys(keys, idx, seen, [idx[0]] + rest) && DropsLater(keys, idx, [idx[0]] + rest)
  {
    KeepOrder(keys, idx, seen, rest);
    KeepCovers(keys, idx, seen, rest);
    KeepDrops(keys, idx, seen, rest);
  }

  lemma KeepOrder(keys: seq<string>, idx: seq<nat>, seen: set<string>, rest: seq<nat>)
    requires idx != [] && Ascending(idx) && InRange(idx, |keys|)
    requires Ascending(rest) && InRange(rest, |keys|)
    requires forall i :: i in rest ==> i in idx[1..] && keys[i] != keys[idx[0]]
    requires DistinctKeys(keys, rest)
    ensures Ascending([idx[0]] + rest) && InRange([idx[0]] + rest, |keys|)
    ensures DistinctKeys(keys, [idx[0]] + rest)
  {
    var h := idx[0];
    var r := [h] + rest;
    assert forall k :: 0 < k < |r| ==> r[k] == rest[k - 1] && rest[k - 1] in rest;
    forall i | i in rest ensures h < i {
      var k :| 0 <= k < |idx[1..]| && idx[1..][k] == i;
      assert idx[k + 1] == i;
    }
  }

  lemma KeepCovers(keys: seq<string>, idx: seq<nat>, seen: set<string>, rest: seq<nat>)
    requires idx != [] && InRange(idx, |keys|) && InRange(rest, |keys|)
    requires CoversKeys(keys, idx[1..], seen + {keys[idx[0]]}, rest)
    ensures CoversKeys(keys, idx, seen, [idx[0]] + rest)
  {
    var r := [idx[0]] + rest;
    forall i | i in idx && keys[i] !in seen ensures exists j :: j in r && keys[j] == keys[i] {
      if keys[i] == keys[idx[0]] {
        assert idx[0] in r;
      } else {
        var k :| 0 <= k < |idx| && idx[k] == i;
        assert k > 0 && idx[1..][k - 1] == i;
        var j :| j in rest && keys[j] == keys[i];
        assert j in r;
      }
    }
  }

  lemma KeepDrops(keys: seq<string>, idx: seq<nat>, seen: set<string>, rest: seq<nat>)
    requires idx != [] && Ascending(idx) && InRange(idx, |keys|) && InRange(rest, |keys|)
    requires forall i :: i in rest ==> keys[i] != keys[idx[0]]
    requires DropsLater(keys, idx[1..], rest)
    ensures DropsLater(keys, idx, [idx[0]] + rest)
  {
    var r := [idx[0]] + rest;
    forall a, b | 0 <= a < b < |idx| && keys[idx[a]] == keys[idx[b]] ensures idx[b] !in r {
      if a == 0 {
        assert idx[b] != idx[0];
      } else {
        assert idx[1..][a - 1] == idx[a] && idx[1..][b - 1] == idx[b];
      }
    }
  }

  /** Names of rows whose keys differ pairwise do not repeat. */
  lemma {:induction false} NamesDistinct(rows: seq<Row>, idx: seq<nat>)
    requires InRange(idx, |rows|)
    requires DistinctKeys(KeysOf(rows, "项目名称"), idx)
    ensures NoRepeats(NamesAt(rows, "项目名称", idx))
  {
    if idx != [] {
      var keys := KeysOf(rows, "项目名称");
      var tail := idx[1..];
      assert forall a, b :: 0 <= a < b < |tail| ==> keys[tail[a]] != keys[tail[b]] by {
        assert forall k :: 0 <= k < |tail| ==> tail[k] == idx[k + 1];
      }
      NamesDistinct(rows, tail);
      var head := NameOf(Get(rows[idx[0]], "项目名称"));
      if head.Some? {
        forall n | n in NamesAt(rows, "项目名称", tail) ensures n != head.value {
          HeadIsNew(rows, idx, head.value, n);
        }
        ConsNoRepeats(head.value, NamesAt(rows, "项目名称", tail));
      }
    }
  }

  /** A later row's name differs from the first row's name, since their keys differ. */
  lemma HeadIsNew(rows: seq<Row>, idx: seq<nat>, h: string, n: string)
    requires idx != [] && InRange(idx, |rows|)
    requires DistinctKeys(KeysOf(rows, "项目名称"), idx)
    requires NameOf(Get(rows[idx[0]], "项目名称")) == Some(h)
    requires n in NamesAt(rows, "项目名称", idx[1..])
    ensures n != h
  {
    var k := NameSource(rows, idx[1..], n);
    var keys := KeysOf(rows, "项目名称");
    assert 0 < k + 1 < |idx| && idx[1..][k] == idx[k + 1];
    assert keys[idx[0]] != keys[idx[k + 1]];
    assert keys[idx[0]] == CleanName(Some(h));
    assert keys[idx[k + 1]] == CleanName(Some(n));
  }

  lemma NameSource(rows: seq<Row>, idx: seq<nat>, n: string) returns (k: nat)
    requires InRange(idx, |rows|)
    requires n in NamesAt(rows, "项目名称", idx)
    ensures k < |idx| && NameOf(Get(rows[idx[k]], "项目名称")) == Some(n)
  {
    k :| 0 <= k < |idx| && NameOf(Get(rows[idx[k]], "项目名称")) == Some(n);
  }

  /** `if year and '完成年份' in pms_df.columns`: a year of 0 counts as no year. */
  predicate YearFilterOn(t: Table, year: Option<int>) {
    year.Some? && year.value != 0 && YearCol in t.columns
  }

  function YearOf(year: Option<int>): int {
    if year.Some? then year.value else 0
  }

  /**
   * The sorted project names, one per cleaned key (the first row's), of the rows
   * in the requested completion year; a year of 0 or none, or a table without
   * '完成年份', means every row.
   */
  function ProjectList(pms: Table, year: Option<int>): (r: Result<seq<string>, QueryError>)
    ensures r.Success? ==> StrictlySorted(r.value)
  {
    var p := SelectColumns(pms, ProjectColumns);
    if "项目名称" !in p.columns then Failure(MissingColumn("项目名称"))
    else
      var idx := YearIndices(p.rows, YearFilterOn(p, year), YearOf(year), 0);
      var firsts := FirstPerKey(KeysOf(p.rows, "项目名称"), idx, {});
      var names := NamesAt(p.rows, "项目名称", firsts);
      NamesDistinct(p.rows, firsts);
      SortedDistinct(names);
      Success(SortNames(names))
  }

  /** Projection keeps what the project list reads. */
  lemma ProjectProjected(pms: Table, year: Option<int>, i: nat)
    requires "项目名称" in pms.columns && i < |pms.rows|
    ensures var p := SelectColumns(pms, ProjectColumns);
            |p.rows| == |pms.rows| && "项目名称" in p.columns &&
            YearFilterOn(p, year) == YearFilterOn(pms, year) &&
            Get(p.rows[i], "项目名称") == Get(pms.rows[i], "项目名称") &&
            InYear(p.rows[i], YearFilterOn(p, year), YearOf(year)) == InYear(pms.rows[i], YearFilterOn(pms, year), YearOf(year))
  {
    ProjectionKeeps(pms, ProjectColumns, "项目名称");
    ProjectionKeeps(pms, ProjectColumns, YearCol);
  }

  /** The intermediate results the project list is computed from. */
  lemma ProjectParts(pms: Table, year: Option<int>) returns (idx: seq<nat>, firsts: seq<nat>, names: seq<string>)
    requires "项目名称" in pms.columns
    ensures var p := SelectColumns(pms, ProjectColumns);
            idx == YearIndices(p.rows, YearFilterOn(p, year), YearOf(year), 0) &&
            firsts == FirstPerKey(KeysOf(p.rows, "项目名称"), idx, {}) &&
            names == NamesAt(p.rows, "项目名称", firsts) &&
            ProjectList(pms, year) == Success(SortNames(names))
  {
    ProjectionKeeps(pms, ProjectColumns, "项目名称");
    var p := SelectColumns(pms, ProjectColumns);
    idx := YearIndices(p.rows, YearFilterOn(p, year), YearOf(year), 0);
    firsts := FirstPerKey(KeysOf(p.rows, "项目名称"), idx, {});
    names := NamesAt(p.rows, "项目名称", firsts);
  }

  /** The project list fails exactly when the table has no '项目名称' column. */
  lemma ProjectListNeedsName(pms: Table, year: Option<int>)
    ensures ProjectList(pms, year).Failure? <==> "项目名称" !in pms.columns
  {
    ProjectionKeeps(pms, ProjectColumns, "项目名称");
  }

  /** A row `FirstPerKey` selects has no earlier row of `idx` with its key. */
  lemma FirstOfKey(keys: seq<string>, idx: seq<nat>, i: nat, j: nat)
    requires Ascending(idx) && InRange(idx, |keys|)
    requires i in FirstPerKey(keys, idx, {}) && j in idx && j < i
    ensures keys[j] != keys[i]
  {
    var a :| 0 <= a < |idx| && idx[a] == j;
    var b :| 0 <= b < |idx| && idx[b] == i;
  }

  /** Every row of `idx` shares its key with a row `FirstPerKey` selects. */
  lemma CoveredBy(keys: seq<string>, idx: seq<nat>, i: nat) returns (k: nat)
    requires Ascending(idx) && InRange(idx, |keys|) && i in idx
    ensures var r := FirstPerKey(keys, idx, {}); k < |r| && keys[r[k]] == keys[i]
  {
    var r := FirstPerKey(keys, idx, {});
    var j :| j in r && keys[j] == keys[i];
    k :| 0 <= k < |r| && r[k] == j;
  }

  /** The row-level meaning of a listed name. */
  lemma ListedRow(rows: seq<Row>, on: bool, y: int, n: string) returns (i: nat)
    requires n in NamesAt(rows, "项目名称", FirstPerKey(KeysOf(rows, "项目名称"), YearIndices(rows, on, y, 0), {}))
    ensures i < |rows| && InYear(rows[i], on, y) && NameOf(Get(rows[i], "项目名称")) == Some(n)
    ensures forall j :: 0 <= j < i && InYear(rows[j], on, y) ==> Key(Get(rows[j], "项目名称")) != Key(Get(rows[i], "项目名称"))
  {
    var keys := KeysOf(rows, "项目名称");
    var idx := YearIndices(rows, on, y, 0);
    var firsts := FirstPerKey(keys, idx, {});
    var k := NameSource(rows, firsts, n);
    i := firsts[k];
    assert i in firsts;
    forall j | 0 <= j < i && InYear(rows[j], on, y)
      ensures Key(Get(rows[j], "项目名称")) != Key(Get(rows[i], "项目名称"))
    {
      assert j in idx;
      FirstOfKey(keys, idx, i, j);
    }
  }

  /** The row-level meaning of completeness. */
  lemma CoveredRow(rows: seq<Row>, on: bool, y: int, i: nat) returns (n: string)
    requires i < |rows| && InYear(rows[i], on, y) && Key(Get(rows[i], "项目名称")) != ""
    ensures n in NamesAt(rows, "项目名称", FirstPerKey(KeysOf(rows, "项目名称"), YearIndices(rows, on, y, 0), {}))
    ensures CleanName(Some(n)) == Key(Get(rows[i], "项目名称"))
  {
    var keys := KeysOf(rows, "项目名称");
    var idx := YearIndices(rows, on, y, 0);
    var firsts := FirstPerKey(keys, idx, {});
    assert i in idx;
    var k := CoveredBy(keys, idx, i);
    var name := NameOf(Get(rows[firsts[k]], "项目名称"));
    assert keys[firsts[k]] == CleanName(name) == keys[i];
    n := name.value;
  }

  /**
   * Every listed name is the name of the first row, among those the year filter
   * keeps, that has its cleaned key.
   */
  lemma ProjectListSound(pms: Table, year: Option<int>, n: string)
    requires ProjectList(pms, year).Success? && n in ProjectList(pms, year).value
    ensures exists i :: 0 <= i < |pms.rows| && InYear(pms.rows[i], YearFilterOn(pms, year), YearOf(year)) &&
              NameOf(Get(pms.rows[i], "项目名称")) == Some(n) &&
              forall j :: 0 <= j < i && InYear(pms.rows[j], YearFilterOn(pms, year), YearOf(year)) ==>
                Key(Get(pms.rows[j], "项目名称")) != Key(Get(pms.rows[i], "项目名称"))
  {
    ProjectListNeedsName(pms, year);
    var idx, firsts, names := ProjectParts(pms, year);
    var p := SelectColumns(pms, ProjectColumns);
    assert n in names;
    var i := ListedRow(p.rows, YearFilterOn(p, year), YearOf(year), n);
    ProjectProjected(pms, year, i);
    forall j | 0 <= j < i && InYear(pms.rows[j], YearFilterOn(pms, year), YearOf(year))
      ensures Key(Get(pms.rows[j], "项目名称")) != Key(Get(pms.rows[i], "项目名称"))
    {
      ProjectProjected(pms, year, j);
    }
  }

  /** No two listed names have the same cleaned key. */
  lemma ProjectListDistinctKeys(pms: Table, year: Option<int>, x: string, y: string)
    requires ProjectList(pms, year).Success?
    requires x in ProjectList(pms, year).value && y in ProjectList(pms, year).value
    requires CleanName(Some(x)) == CleanName(Some(y))
    ensures x == y
  {
    ProjectListNeedsName(pms, year);
    var idx, firsts, names := ProjectParts(pms, year);
    var p := SelectColumns(pms, ProjectColumns);
    var keys := KeysOf(p.rows, "项目名称");
    assert x in names && y in names;
    var a := NameSource(p.rows, firsts, x);
    var b := NameSource(p.rows, firsts, y);
    assert keys[firsts[a]] == CleanName(Some(x));
    assert keys[firsts[b]] == CleanName(Some(y));
    assert a == b;
  }

  /** Every row the year filter keeps whose cleaned key is not empty has its key listed. */
  lemma ProjectListComplete(pms: Table, year: Option<int>, i: nat)
    requires ProjectList(pms, year).Success?
    requires i < |pms.rows| && InYear(pms.rows[i], YearFilterOn(pms, year), YearOf(year))
    requires Key(Get(pms.rows[i], "项目名称")) != ""
    ensures exists n :: n in ProjectList(pms, year).value && CleanName(Some(n)) == Key(Get(pms.rows[i], "项目名称"))
  {
    ProjectListNeedsName(pms, year);
    var idx, firsts, names := ProjectParts(pms, year);
    var p := SelectColumns(pms, ProjectColumns);
    ProjectProjected(pms, year, i);
    var n := CoveredRow(p.rows, YearFilterOn(p, year), YearOf(year), i);
    assert n in SortNames(names);
  }

  /**
   * After a reload every unfinished task's '完成年份' is missing, so asking for a
   * year lists nothing.
   */
  lemma YearFilterEmpty(pms: Table, y: int)
    requires y != 0 && YearCol in pms.columns && "项目名称" in pms.columns
    requires forall i :: 0 <= i < |pms.rows| ==> Get(pms.rows[i], YearCol) == Null
    ensures ProjectList(pms, Some(y)) == Success([])
  {
    var idx, firsts, names := ProjectParts(pms, Some(y));
    if idx != [] {
      assert idx[0] in idx;
      ProjectProjected(pms, Some(y), idx[0]);
    }
  }

  // ---------------------------------------------------------------------------
  // get_task_list

  /** A matched task/requisition pair of the project whose cleaned name is `cp`. */
  predicate TaskPair(p: Row, s: Row, cp: string) {
    PendingPair(p, s) && TaskKey(p).0 == cp
  }

  /** The left indices of the joined pairs whose cleaned project is `cp`, in join order. */
  function ProjectLefts(pairs: seq<(nat, nat)>, keys: seq<(string, string)>, cp: string): (r: seq<nat>)
    requires forall k :: 0 <= k < |pairs| ==> pairs[k].0 < |keys|
    ensures InRange(r, |keys|)
    ensures forall i :: i in r <==> exists k :: 0 <= k < |pairs| && pairs[k].0 == i && keys[i].0 == cp
  {
    if pairs == [] then []
    else
      var rest := ProjectLefts(pairs[1..], keys, cp);
      assert forall k :: 0 < k < |pairs| ==> pairs[k] == pairs[1..][k - 1];
      if keys[pairs[0].0].0 == cp then [pairs[0].0] + rest else rest
  }

  /** Whether some row at the given indices has no value under `col`. */
  predicate SomeMissing(rows: seq<Row>, col: string, idx: seq<nat>)
    requires InRange(idx, |rows|)
  {
    exists k :: 0 <= k < |idx| && Get(rows[idx[k]], col) == Null
  }

  /**
   * The sorted distinct task names of `project` that some requisition of the
   * same project matches on cleaned task/site.
   */
  function TaskList(pms: Table, sscm: Table, project: string): (r: Result<seq<string>, QueryError>)
    ensures r.Success? ==> StrictlySorted(r.value)
  {
    var p := SelectColumns(pms, TaskColumns);
    var s := SelectColumns(sscm, TaskColumns);
    match FirstAbsent(p.columns, ["项目名称", "任务名称"])
    case Some(c) => Failure(MissingColumn(c))
    case None =>
      match FirstAbsent(s.columns, ["项目名称", "站点名称"])
      case Some(c) => Failure(MissingColumn(c))
      case None => TaskNames(p.rows, s.rows, CleanName(Some(project)))
  }

  /** The task list over rows that hold the key columns, for the cleaned project `cp`. */
  function TaskNames(prows: seq<Row>, srows: seq<Row>, cp: string): (r: Result<seq<string>, QueryError>)
    ensures r.Success? ==> StrictlySorted(r.value)
  {
    var lefts := ProjectLefts(Join(TaskKeys(prows), SiteKeys(srows)), TaskKeys(prows), cp);
    var names := NamesAt(prows, "任务名称", lefts);
    if names != [] && SomeMissing(prows, "任务名称", lefts) then Failure(SortFailed)
    else
      SortedUnique(names);
      Success(SortNames(Unique(names)))
  }

  /** The task list reports a missing column exactly when one of the four key columns is absent. */
  lemma TaskNeedsColumns(pms: Table, sscm: Table, project: string)
    ensures (TaskList(pms, sscm, project).Failure? && TaskList(pms, sscm, project).error.MissingColumn?) <==>
              !("项目名称" in pms.columns && "任务名称" in pms.columns &&
                "项目名称" in sscm.columns && "站点名称" in sscm.columns)
  {
    ProjectionKeeps(pms, TaskColumns, "项目名称");
    ProjectionKeeps(pms, TaskColumns, "任务名称");
    ProjectionKeeps(sscm, TaskColumns, "项目名称");
    ProjectionKeeps(sscm, TaskColumns, "站点名称");
  }

  /** Projection keeps the cells the task list looks at. */
  lemma TaskProjected(pms: Table, sscm: Table, i: nat, j: nat)
    requires "项目名称" in pms.columns && "任务名称" in pms.columns
    requires "项目名称" in sscm.columns && "站点名称" in sscm.columns
    requires i < |pms.rows| && j < |sscm.rows|
    ensures var p := SelectColumns(pms, TaskColumns);
            var s := SelectColumns(sscm, TaskColumns);
            |p.rows| == |pms.rows| && |s.rows| == |sscm.rows| &&
            TaskKey(p.rows[i]) == TaskKey(pms.rows[i]) && SiteKey(s.rows[j]) == SiteKey(sscm.rows[j]) &&
            Get(p.rows[i], "任务名称") == Get(pms.rows[i], "任务名称")
  {
    var p := SelectColumns(pms, TaskColumns);
    var s := SelectColumns(sscm, TaskColumns);
    ProjectionKeeps(pms, TaskColumns, "项目名称");
    ProjectionKeeps(pms, TaskColumns, "任务名称");
    ProjectionKeeps(sscm, TaskColumns, "项目名称");
    ProjectionKeeps(sscm, TaskColumns, "站点名称");
    assert Get(p.rows[i], "项目名称") == Get(pms.rows[i], "项目名称");
    assert Get(p.rows[i], "任务名称") == Get(pms.rows[i], "任务名称");
    assert Get(s.rows[j], "项目名称") == Get(sscm.rows[j], "项目名称");
    assert Get(s.rows[j], "站点名称") == Get(sscm.rows[j], "站点名称");
  }

  /** The pairs and row indices the task list is built from. */
  lemma TaskParts(pms: Table, sscm: Table, project: string) returns (pairs: seq<(nat, nat)>, lefts: seq<nat>)
    requires "项目名称" in pms.columns && "任务名称" in pms.columns
    requires "项目名称" in sscm.columns && "站点名称" in sscm.columns
    ensures var p := SelectColumns(pms, TaskColumns);
            var s := SelectColumns(sscm, TaskColumns);
            pairs == Join(TaskKeys(p.rows), SiteKeys(s.rows)) &&
            lefts == ProjectLefts(pairs, TaskKeys(p.rows), CleanName(Some(project))) &&
            TaskList(pms, sscm, project) == TaskNames(p.rows, s.rows, CleanName(Some(project)))
  {
    TaskNeedsColumns(pms, sscm, project);
    var p := SelectColumns(pms, TaskColumns);
    var s := SelectColumns(sscm, TaskColumns);
    pairs := Join(TaskKeys(p.rows), SiteKeys(s.rows));
    lefts := ProjectLefts(pairs, TaskKeys(p.rows), CleanName(Some(project)));
  }

  /** A left index of the task list comes from a joined pair of the project. */
  lemma LeftRow(prows: seq<Row>, srows: seq<Row>, cp: string, k: nat) returns (j: nat)
    requires k < |ProjectLefts(Join(TaskKeys(prows), SiteKeys(srows)), TaskKeys(prows), cp)|
    ensures var i := ProjectLefts(Join(TaskKeys(prows), SiteKeys(srows)), TaskKeys(prows), cp)[k];
            i < |prows| && j < |srows| && TaskKeys(prows)[i] == SiteKeys(srows)[j] && TaskKeys(prows)[i].0 == cp
  {
    var pairs := Join(TaskKeys(prows), SiteKeys(srows));
    var lefts := ProjectLefts(pairs, TaskKeys(prows), cp);
    var i := lefts[k];
    assert i in lefts;
    var m :| 0 <= m < |pairs| && pairs[m].0 == i && TaskKeys(prows)[i].0 == cp;
    j := pairs[m].1;
    assert pairs[m] in pairs;
  }

  /** A joined pair of the project puts its row index among the left indices. */
  lemma RowLeft(prows: seq<Row>, srows: seq<Row>, cp: string, i: nat, j: nat) returns (k: nat)
    requires i < |prows| && j < |srows| && TaskKeys(prows)[i] == SiteKeys(srows)[j] && TaskKeys(prows)[i].0 == cp
    ensures var lefts := ProjectLefts(Join(TaskKeys(prows), SiteKeys(srows)), TaskKeys(prows), cp);
            k < |lefts| && lefts[k] == i
  {
    var pairs := Join(TaskKeys(prows), SiteKeys(srows));
    var lefts := ProjectLefts(pairs, TaskKeys(prows), cp);
    assert (i, j) in pairs;
    var m :| 0 <= m < |pairs| && pairs[m] == (i, j);
    assert i in lefts;
    k :| 0 <= k < |lefts| && lefts[k] == i;
  }

  /** Every listed task names a PMS task of the project that some requisition matches. */
  lemma TaskListSound(pms: Table, sscm: Table, project: string, n: string)
    requires TaskList(pms, sscm, project).Success? && n in TaskList(pms, sscm, project).value
    ensures exists i, j :: 0 <= i < |pms.rows| && 0 <= j < |sscm.rows| &&
              TaskPair(pms.rows[i], sscm.rows[j], CleanName(Some(project))) &&
              NameOf(Get(pms.rows[i], "任务名称")) == Some(n)
  {
    TaskNeedsColumns(pms, sscm, project);
    var pairs, lefts := TaskParts(pms, sscm, project);
    var p := SelectColumns(pms, TaskColumns);
    var names := NamesAt(p.rows, "任务名称", lefts);
    assert n in names;
    var s := SelectColumns(sscm, TaskColumns);
    var k :| 0 <= k < |lefts| && NameOf(Get(p.rows[lefts[k]], "任务名称")) == Some(n);
    var j := LeftRow(p.rows, s.rows, CleanName(Some(project)), k);
    TaskProjected(pms, sscm, lefts[k], j);
  }

  /** Every named task of the project that a requisition matches is listed, when the list succeeds. */
  lemma TaskListComplete(pms: Table, sscm: Table, project: string, i: nat, j: nat, n: string)
    requires TaskList(pms, sscm, project).Success?
    requires i < |pms.rows| && j < |sscm.rows|
    requires TaskPair(pms.rows[i], sscm.rows[j], CleanName(Some(project)))
    requires NameOf(Get(pms.rows[i], "任务名称")) == Some(n)
    ensures n in TaskList(pms, sscm, project).value
  {
    TaskNeedsColumns(pms, sscm, project);
    var pairs, lefts := TaskParts(pms, sscm, project);
    var p := SelectColumns(pms, TaskColumns);
    var s := SelectColumns(sscm, TaskColumns);
    TaskProjected(pms, sscm, i, j);
    var k := RowLeft(p.rows, s.rows, CleanName(Some(project)), i, j);
    assert n in NamesAt(p.rows, "任务名称", lefts);
  }

  /**
   * A matched task without a name next to one with a name makes `sorted` compare
   * text with a missing value, and the list fails.
   */
  lemma TaskListUnsortable(pms: Table, sscm: Table, project: string, i: nat, j: nat, i2: nat, j2: nat, n: string)
    requires "项目名称" in pms.columns && "任务名称" in pms.columns
    requires "项目名称" in sscm.columns && "站点名称" in sscm.columns
    requires i < |pms.rows| && j < |sscm.rows| && i2 < |pms.rows| && j2 < |sscm.rows|
    requires TaskPair(pms.rows[i], sscm.rows[j], CleanName(Some(project))) && Get(pms.rows[i], "任务名称") == Null
    requires TaskPair(pms.rows[i2], sscm.rows[j2], CleanName(Some(project))) && NameOf(Get(pms.rows[i2], "任务名称")) == Some(n)
    ensures TaskList(pms, sscm, project) == Failure(SortFailed)
  {
    var pairs, lefts := TaskParts(pms, sscm, project);
    var p := SelectColumns(pms, TaskColumns);
    var s := SelectColumns(sscm, TaskColumns);
    TaskProjected(pms, sscm, i, j);
    TaskProjected(pms, sscm, i2, j2);
    var k := RowLeft(p.rows, s.rows, CleanName(Some(project)), i, j);
    var k2 := RowLeft(p.rows, s.rows, CleanName(Some(project)), i2, j2);
    assert SomeMissing(p.rows, "任务名称", lefts);
    assert n in NamesAt(p.rows, "任务名称", lefts);
  }
}
