/**
 * The reconciliation engine of app.py: the inner joins of PMS tasks with SSCM
 * requisitions on cleaned keys (`initialize_results_table`, `get_pending_projects`,
 * `get_task_list`), the project list de-duplicated by cleaned name
 * (`get_project_list`), and how newly matched rows are added to the ledger.
 */
module Reconcile {
  import opened Wrappers
  import opened Names
  import opened Tables
  import opened Ordering
  import opened Columns

  /** The cleaned key of a cell (`df[col].apply(clean_name)`). */
  function Key(c: Cell): string {
    CleanName(NameOf(c))
  }

  // ---------------------------------------------------------------------------
  // Inner join

  /** The pairs `(i, j)`, `j` ascending, with `lk[i] == rk[j]`, for one left index `i`. */
  function MatchesOf<K(==)>(lk: seq<K>, rk: seq<K>, i: nat, j: nat): (r: seq<(nat, nat)>)
    requires i < |lk| && j <= |rk|
    ensures forall p :: p in r ==> p.0 == i && j <= p.1 < |rk| && lk[i] == rk[p.1]
    ensures forall b :: j <= b < |rk| && lk[i] == rk[b] ==> (i, b) in r
    ensures forall x, y :: 0 <= x < y < |r| ==> r[x].1 < r[y].1
    decreases |rk| - j
  {
    if j == |rk| then []
    else if lk[i] == rk[j] then [(i, j)] + MatchesOf(lk, rk, i, j + 1)
    else MatchesOf(lk, rk, i, j + 1)
  }

  /** Pairs in strictly increasing left-major order, hence no pair twice. */
  predicate Ascending(r: seq<(nat, nat)>) {
    forall x, y :: 0 <= x < y < |r| ==> r[x].0 < r[y].0 || (r[x].0 == r[y].0 && r[x].1 < r[y].1)
  }

  lemma AscendingAppend(m: seq<(nat, nat)>, rest: seq<(nat, nat)>, i: nat)
    requires forall p :: p in m ==> p.0 == i
    requires forall x, y :: 0 <= x < y < |m| ==> m[x].1 < m[y].1
    requires forall p :: p in rest ==> i < p.0
    requires Ascending(rest)
    ensures Ascending(m + rest)
  {
    var r := m + rest;
    forall x, y | 0 <= x < y < |r|
      ensures r[x].0 < r[y].0 || (r[x].0 == r[y].0 && r[x].1 < r[y].1)
    {
      if y < |m| {
        assert r[x] == m[x] && r[y] == m[y];
      } else if x < |m| {
        assert r[x] == m[x] && m[x] in m;
        assert r[y] == rest[y - |m|] && rest[y - |m|] in rest;
      } else {
        assert r[x] == rest[x - |m|] && r[y] == rest[y - |m|];
      }
    }
  }

  /**
   * `pd.merge(left, right, left_on=..., right_on=..., how="inner")` on key
   * columns: one output pair per matching (left row, right row), left-major.
   */
  function JoinFrom<K(==)>(lk: seq<K>, rk: seq<K>, i: nat): (r: seq<(nat, nat)>)
    requires i <= |lk|
    ensures forall p :: p in r ==> i <= p.0 < |lk| && p.1 < |rk| && lk[p.0] == rk[p.1]
    ensures forall a, b :: i <= a < |lk| && 0 <= b < |rk| && lk[a] == rk[b] ==> (a, b) in r
    ensures Ascending(r)
    decreases |lk| - i
  {
    if i == |lk| then []
    else
      var m := MatchesOf(lk, rk, i, 0);
      var rest := JoinFrom(lk, rk, i + 1);
      AscendingAppend(m, rest, i);
      m + rest
  }

  function Join<K(==)>(lk: seq<K>, rk: seq<K>): (r: seq<(nat, nat)>)
    ensures forall p :: p in r ==> p.0 < |lk| && p.1 < |rk| && lk[p.0] == rk[p.1]
    ensures forall a, b :: 0 <= a < |lk| && 0 <= b < |rk| && lk[a] == rk[b] ==> (a, b) in r
    ensures forall x, y :: 0 <= x < y < |r| ==> r[x] != r[y]
  {
    var r := JoinFrom(lk, rk, 0);
    assert Ascending(r);
    r
  }

  // ---------------------------------------------------------------------------
  // Schema validation (app.py:283-310)

  const FinishCol := "单任务物资平衡表完成时间"
  /** The name reported when no project-name column variant is present. */
  const ProjectPlaceholder := "项目名称（或类似字段）"
  const RequiredPms: seq<string> := ["任务名称", FinishCol]
  const RequiredSscm: seq<string> := ["站点名称", "物料/组合物料描述", "申领数量", "创建日期", "厂家箱号"]
  /** The columns `initialize_results_table` asks `load_excel_data` for. */
  const InitColumns: seq<string> :=
    ["项目名称", "任务名称", "站点名称", "物料/组合物料描述", "申领数量", "创建日期", "厂家箱号", FinishCol]

  /** The required fields a table lacks, in the order they are required. */
  function Missing(columns: seq<string>, required: seq<string>): (r: seq<string>)
    ensures forall f :: f in r <==> f in required && f !in columns
    ensures r == [] <==> forall f :: f in required ==> f in columns
    ensures |r| <= |required|
  {
    if required == [] then []
    else
      assert required == [required[0]] + required[1..];
      (if required[0] in columns then [] else [required[0]]) + Missing(columns, required[1..])
  }

  /** The missing fields of one source, the placeholder last when no project column is found. */
  function MissingFields(columns: seq<string>, required: seq<string>): (r: seq<string>)
    ensures forall f :: f in required && f !in columns ==> f in r
    ensures FirstPresent(columns, ProjectCandidates).None? ==> r != [] && r[|r| - 1] == ProjectPlaceholder
    ensures forall f :: f in r ==> (f in required && f !in columns)
                                   || (f == ProjectPlaceholder && FirstPresent(columns, ProjectCandidates).None?)
    ensures r == [] <==> (forall f :: f in required ==> f in columns) && FirstPresent(columns, ProjectCandidates).Some?
  {
    var m := Missing(columns, required);
    assert m != [] ==> m[0] in m;
    m + (if FirstPresent(columns, ProjectCandidates).None? then [ProjectPlaceholder] else [])
  }

  datatype InitError =
    | MissingPmsFields(pmsFields: seq<string>)
    | MissingSscmFields(sscmFields: seq<string>)
    | NoUnfinishedTasks
      /** The first five cleaned project keys of each side and the keys they share. */
    | NoMatch(pmsKeys: seq<string>, sscmKeys: seq<string>, common: set<string>)
    | NoTaskColumn
    | FieldNotFound(field: string)

  /** The project-name columns of PMS and SSCM, or the fields that are missing. */
  function CheckSchemas(pmsColumns: seq<string>, sscmColumns: seq<string>): (r: Result<(string, string), InitError>)
    ensures r.Success? <==> MissingFields(pmsColumns, RequiredPms) == [] && MissingFields(sscmColumns, RequiredSscm) == []
    ensures r.Success? ==> r.value.0 in pmsColumns && r.value.0 in ProjectCandidates && r.value.1 in sscmColumns && r.value.1 in ProjectCandidates
    ensures r.Success? ==> r.value.0 == FirstPresent(pmsColumns, ProjectCandidates).value
                           && r.value.1 == FirstPresent(sscmColumns, ProjectCandidates).value
    ensures MissingFields(pmsColumns, RequiredPms) != [] ==> r == Failure(MissingPmsFields(MissingFields(pmsColumns, RequiredPms)))
    ensures MissingFields(pmsColumns, RequiredPms) == [] && MissingFields(sscmColumns, RequiredSscm) != []
            ==> r == Failure(MissingSscmFields(MissingFields(sscmColumns, RequiredSscm)))
  {
    var mp := MissingFields(pmsColumns, RequiredPms);
    var ms := MissingFields(sscmColumns, RequiredSscm);
    if mp != [] then Failure(MissingPmsFields(mp))
    else if ms != [] then Failure(MissingSscmFields(ms))
    else Success((FirstPresent(pmsColumns, ProjectCandidates).value, FirstPresent(sscmColumns, ProjectCandidates).value))
  }

  // ---------------------------------------------------------------------------
  // Unfinished tasks and the derived key columns (app.py:313-325)

  /** A PMS task whose completion time is missing (or not a date) is unfinished. */
  predicate IsOpen(r: Row) {
    AsDate(Get(r, FinishCol)).None?
  }

  /** `pms_df[pms_df['单任务物资平衡表完成时间'].isna()]`, order kept. */
  function OpenRows(rows: seq<Row>): (r: seq<Row>)
    ensures forall x :: x in r <==> x in rows && IsOpen(x)
    ensures r == [] <==> forall x :: x in rows ==> !IsOpen(x)
    ensures |r| <= |rows|
  {
    if rows == [] then []
    else
      assert rows == [rows[0]] + rows[1..];
      (if IsOpen(rows[0]) then [rows[0]] else []) + OpenRows(rows[1..])
  }

  const CleanProject := "清洗后的项目名称"
  const CleanTask := "清洗后的任务名称"
  const PmsName := "pms_project_name"
  const CleanCode := "清洗后的项目编码"
  const CleanSite := "清洗后的站点名称"
  const SscmCode := "sscm_project_code"

  /** Assigning a column: an existing column keeps its place, a new one goes last. */
  function WithColumn(columns: seq<string>, c: string): (r: seq<string>)
    ensures c in r && forall x :: x in columns ==> x in r
    ensures forall x :: x in r ==> x in columns || x == c
  {
    if c in columns then columns else columns + [c]
  }

  function WithColumns(columns: seq<string>, a: string, b: string, c: string): seq<string> {
    WithColumn(WithColumn(WithColumn(columns, a), b), c)
  }

  /** A PMS row with its cleaned project and task keys and its original project name. */
  function AugmentPms(r: Row, pcol: string): (a: Row)
    ensures Get(a, CleanProject) == Text(Key(Get(r, pcol))) && Get(a, CleanTask) == Text(Key(Get(r, "任务名称")))
    ensures Get(a, PmsName) == Get(r, pcol)
  {
    r[CleanProject := Text(Key(Get(r, pcol)))][CleanTask := Text(Key(Get(r, "任务名称")))][PmsName := Get(r, pcol)]
  }

  /** An SSCM row with its cleaned project code and site keys and its original code. */
  function AugmentSscm(r: Row, scol: string): (a: Row)
    ensures Get(a, CleanCode) == Text(Key(Get(r, scol))) && Get(a, CleanSite) == Text(Key(Get(r, "站点名称")))
    ensures Get(a, SscmCode) == Get(r, scol)
  {
    r[CleanCode := Text(Key(Get(r, scol)))][CleanSite := Text(Key(Get(r, "站点名称")))][SscmCode := Get(r, scol)]
  }

  function PmsKeys(rows: seq<Row>): (r: seq<(Cell, Cell)>)
    ensures |r| == |rows|
    ensures forall j :: 0 <= j < |rows| ==> r[j] == (Get(rows[j], CleanProject), Get(rows[j], CleanTask))
  {
    seq(|rows|, j requires 0 <= j < |rows| => (Get(rows[j], CleanProject), Get(rows[j], CleanTask)))
  }

  function SscmKeys(rows: seq<Row>): (r: seq<(Cell, Cell)>)
    ensures |r| == |rows|
    ensures forall i :: 0 <= i < |rows| ==> r[i] == (Get(rows[i], CleanCode), Get(rows[i], CleanSite))
  {
    seq(|rows|, i requires 0 <= i < |rows| => (Get(rows[i], CleanCode), Get(rows[i], CleanSite)))
  }

  function PmsSide(open: seq<Row>, pcol: string): (r: seq<Row>)
    ensures |r| == |open| && forall j :: 0 <= j < |open| ==> r[j] == AugmentPms(open[j], pcol)
  {
    seq(|open|, j requires 0 <= j < |open| => AugmentPms(open[j], pcol))
  }

  function SscmSide(rows: seq<Row>, scol: string): (r: seq<Row>)
    ensures |r| == |rows| && forall i :: 0 <= i < |rows| ==> r[i] == AugmentSscm(rows[i], scol)
  {
    seq(|rows|, i requires 0 <= i < |rows| => AugmentSscm(rows[i], scol))
  }

  /** An SSCM row and a PMS row agree on cleaned project and cleaned task/site. */
  predicate KeysAgree(s: Row, p: Row, scol: string, pcol: string) {
    Key(Get(s, scol)) == Key(Get(p, pcol)) && Key(Get(s, "站点名称")) == Key(Get(p, "任务名称"))
  }

  /** Augmenting a row adds its three derived columns and leaves every other cell as it was. */
  lemma AugmentKeepsCells(r: Row, pcol: string, scol: string)
    ensures forall c :: c != CleanProject && c != CleanTask && c != PmsName ==> Get(AugmentPms(r, pcol), c) == Get(r, c)
    ensures forall c :: c != CleanCode && c != CleanSite && c != SscmCode ==> Get(AugmentSscm(r, scol), c) == Get(r, c)
  {
  }

  /** The join keys of the augmented rows agree exactly when the cleaned names do. */
  lemma SideKeys(s: Row, p: Row, scol: string, pcol: string)
    ensures var a, b := AugmentSscm(s, scol), AugmentPms(p, pcol);
            (Get(a, CleanCode), Get(a, CleanSite)) == (Get(b, CleanProject), Get(b, CleanTask))
            <==> KeysAgree(s, p, scol, pcol)
  {
  }

  /** The merge of SSCM (left) with unfinished PMS tasks (right) on the cleaned keys. */
  function MatchPairs(sscmRows: seq<Row>, open: seq<Row>, scol: string, pcol: string): (r: seq<(nat, nat)>)
    ensures forall q :: q in r ==> q.0 < |sscmRows| && q.1 < |open| && KeysAgree(sscmRows[q.0], open[q.1], scol, pcol)
    ensures forall a, b :: 0 <= a < |sscmRows| && 0 <= b < |open| && KeysAgree(sscmRows[a], open[b], scol, pcol) ==> (a, b) in r
    ensures ValidPairs(r, SscmSide(sscmRows, scol), PmsSide(open, pcol))
  {
    var lk, rk := SscmKeys(SscmSide(sscmRows, scol)), PmsKeys(PmsSide(open, pcol));
    var r := Join(lk, rk);
    assert forall k :: 0 <= k < |r| ==> r[k] in r;
    forall a, b | 0 <= a < |sscmRows| && 0 <= b < |open|
      ensures lk[a] == rk[b] <==> KeysAgree(sscmRows[a], open[b], scol, pcol)
    {
      SideKeys(sscmRows[a], open[b], scol, pcol);
    }
    r
  }

  // ---------------------------------------------------------------------------
  // The merged frame's columns (pandas suffixes a name both sides hold)

  /** A merged column: its name, the side it comes from, and that side's column. */
  datatype MCol = MCol(name: string, fromLeft: bool, source: string)

  /** Left columns then right columns; a name both sides hold gets "_x" / "_y". */
  function MergedColumns(left: seq<string>, right: seq<string>): (ms: seq<MCol>)
    ensures |ms| == |left| + |right|
  {
    seq(|left|, i requires 0 <= i < |left| => MCol(if left[i] in right then left[i] + "_x" else left[i], true, left[i]))
    + seq(|right|, j requires 0 <= j < |right| => MCol(if right[j] in left then right[j] + "_y" else right[j], false, right[j]))
  }

  function ColumnNames(ms: seq<MCol>): (r: seq<string>)
    ensures |r| == |ms| && forall i :: 0 <= i < |ms| ==> r[i] == ms[i].name
  {
    seq(|ms|, i requires 0 <= i < |ms| => ms[i].name)
  }

  /** A name that cannot be the result of suffixing. */
  predicate Unsuffixed(c: string) {
    |c| < 2 || (c[|c| - 2..] != "_x" && c[|c| - 2..] != "_y")
  }

  /**
   * A merged column that carries an unsuffixed name is that very column of one
   * side, and the other side does not have it.
   */
  lemma MergedName(left: seq<string>, right: seq<string>, m: MCol)
    requires m in MergedColumns(left, right) && Unsuffixed(m.name)
    ensures m.source == m.name
    ensures m.fromLeft ==> m.name in left && m.name !in right
    ensures !m.fromLeft ==> m.name in right && m.name !in left
  {
    var ms := MergedColumns(left, right);
    var k :| 0 <= k < |ms| && ms[k] == m;
  }

  /** `merged_df[name]`: the first merged column with that name. */
  function Locate(ms: seq<MCol>, name: string): (r: Option<MCol>)
    ensures r.Some? ==> r.value in ms && r.value.name == name
    ensures r.None? <==> name !in ColumnNames(ms)
  {
    if ms == [] then None
    else if ms[0].name == name then Some(ms[0])
    else
      var r := Locate(ms[1..], name);
      assert ColumnNames(ms) == [ms[0].name] + ColumnNames(ms[1..]);
      r
  }

  /** The cell of a merged row under a merged column. */
  function Fetch(m: MCol, l: Row, r: Row): Cell {
    if m.fromLeft then Get(l, m.source) else Get(r, m.source)
  }

  /** The column a field resolves to in the merged frame. */
  function Pick(ms: seq<MCol>, spec: FieldSpec): (r: Option<MCol>)
    ensures r.Some? ==> r.value in ms
    ensures r.None? <==> Resolve(ColumnNames(ms), spec).None?
  {
    match Resolve(ColumnNames(ms), spec)
    case None => None
    case Some(n) => Locate(ms, n)
  }

  // ---------------------------------------------------------------------------
  // Building the new ledger rows (app.py:346-383)

  /** Where each ledger field is taken from in the merged frame. */
  datatype Layout = Layout(task: MCol, name: MCol, code: MCol, material: MCol,
                           quantity: MCol, created: MCol, box: MCol)

  /**
   * The task column first (its own error), then each ledger field in the order
   * the new frame is built; a field that is absent fails the initialisation.
   */
  function ResolveLayout(ms: seq<MCol>): (r: Result<Layout, InitError>)
    ensures r.Success? ==> r.value.name in ms && r.value.name.name == PmsName
    ensures r.Success? ==> r.value.code in ms && r.value.code.name == SscmCode
    ensures r == Failure(NoTaskColumn) <==> Resolve(ColumnNames(ms), TaskField).None?
    ensures r.Success? ==> Pick(ms, TaskField) == Some(r.value.task) && Pick(ms, MaterialField) == Some(r.value.material)
    ensures r.Success? ==> Pick(ms, QuantityField) == Some(r.value.quantity) && Pick(ms, CreatedField) == Some(r.value.created)
    ensures r.Success? ==> Pick(ms, BoxField) == Some(r.value.box)
  {
    match Pick(ms, TaskField)
    case None => Failure(NoTaskColumn)
    case Some(task) =>
      match Locate(ms, PmsName)
      case None => Failure(FieldNotFound("项目名称"))
      case Some(name) =>
        match Locate(ms, SscmCode)
        case None => Failure(FieldNotFound("项目编码"))
        case Some(code) =>
          match Pick(ms, MaterialField)
          case None => Failure(FieldNotFound("物料/组合物料描述"))
          case Some(material) =>
            match Pick(ms, QuantityField)
            case None => Failure(FieldNotFound("申领数量"))
            case Some(quantity) =>
              match Pick(ms, CreatedField)
              case None => Failure(FieldNotFound("创建日期"))
              case Some(created) =>
                match Pick(ms, BoxField)
                case None => Failure(FieldNotFound("厂家箱号"))
                case Some(box) => Success(Layout(task, name, code, material, quantity, created, box))
  }

  /**
   * The task column is always found: the merged frame carries the derived
   * 清洗后的站点名称 column (suffixed or not), whose name contains 站点, so the
   * `NoTaskColumn` failure is unreachable from initialisation.
   */
  lemma TaskAlwaysResolves(sscmColumns: seq<string>, pcols: seq<string>)
    ensures var ms := MergedColumns(WithColumns(sscmColumns, CleanCode, CleanSite, SscmCode), pcols);
            Resolve(ColumnNames(ms), TaskField).Some? && ResolveLayout(ms) != Failure(NoTaskColumn)
  {
    var scols := WithColumns(sscmColumns, CleanCode, CleanSite, SscmCode);
    var ms := MergedColumns(scols, pcols);
    var i :| 0 <= i < |scols| && scols[i] == CleanSite;
    var n := SiteColumn(scols, pcols, i);
    SiteNameMatches(n);
  }

  lemma SiteColumn(scols: seq<string>, pcols: seq<string>, i: nat) returns (n: string)
    requires i < |scols| && scols[i] == CleanSite
    ensures n in ColumnNames(MergedColumns(scols, pcols))
    ensures n == CleanSite || n == CleanSite + "_x"
  {
    n := ColumnNames(MergedColumns(scols, pcols))[i];
  }

  lemma SiteNameMatches(n: string)
    requires n == CleanSite || n == CleanSite + "_x"
    ensures MatchesNeedles(n, TaskField.fallback)
  {
    assert n[4..6] == "站点";
    ContainsAt(n, "站点", 4);
    assert TaskField.fallback.words[1] == "站点";
  }

  /** One new ledger row from a matched (SSCM row, PMS row); usage starts out missing. */
  function BuildRow(lay: Layout, s: Row, p: Row): ResultRow {
    ResultRow(Fetch(lay.code, s, p), Fetch(lay.name, s, p), Fetch(lay.task, s, p),
              Fetch(lay.material, s, p), Fetch(lay.quantity, s, p),
              DateCell(AsDate(Fetch(lay.created, s, p))), Fetch(lay.box, s, p), Null)
  }

  predicate ValidPairs(pairs: seq<(nat, nat)>, left: seq<Row>, right: seq<Row>) {
    forall k :: 0 <= k < |pairs| ==> pairs[k].0 < |left| && pairs[k].1 < |right|
  }

  function BuildRows(lay: Layout, left: seq<Row>, right: seq<Row>, pairs: seq<(nat, nat)>): (r: seq<ResultRow>)
    requires ValidPairs(pairs, left, right)
    ensures |r| == |pairs|
    ensures forall k :: 0 <= k < |pairs| ==> r[k] == BuildRow(lay, left[pairs[k].0], right[pairs[k].1])
  {
    seq(|pairs|, k requires 0 <= k < |pairs| => BuildRow(lay, left[pairs[k].0], right[pairs[k].1]))
  }

  // ---------------------------------------------------------------------------
  // initialize_results_table, up to the merge with the existing ledger

  function Take(xs: seq<string>, n: nat): (r: seq<string>)
    ensures |r| <= n && forall x :: x in r ==> x in xs
  {
    if |xs| <= n then xs else xs[..n]
  }

  function KeysOf(rows: seq<Row>, col: string): (r: seq<string>)
    ensures |r| == |rows| && forall i :: 0 <= i < |rows| ==> r[i] == Key(Get(rows[i], col))
  {
    seq(|rows|, i requires 0 <= i < |rows| => Key(Get(rows[i], col)))
  }

  /** The cleaned project keys both sides have, for the no-match diagnostics. */
  function CommonKeys(a: seq<string>, b: seq<string>): (r: set<string>)
    ensures forall k :: k in r <==> k in a && k in b
  {
    set k | k in a && k in b
  }

  /** The built rows sorted by creation date. */
  function NewRows(lay: Layout, left: seq<Row>, right: seq<Row>, pairs: seq<(nat, nat)>): (r: seq<ResultRow>)
    requires ValidPairs(pairs, left, right)
    ensures ByDate(r) && multiset(r) == multiset(BuildRows(lay, left, right, pairs))
    ensures forall x :: x in r ==> x.used == Null && (x.created.Null? || x.created.Date?)
  {
    var built := BuildRows(lay, left, right, pairs);
    var sorted := SortByDate(built);
    assert forall x :: x in sorted ==> x in built;
    sorted
  }

  /** The new, date-sorted ledger rows, once the project-name columns are known. */
  function InitializeWith(pms: Table, sscm: Table, pcol: string, scol: string): (r: Result<seq<ResultRow>, InitError>)
    ensures r.Success? ==> ByDate(r.value)
    ensures r.Success? ==> forall x :: x in r.value ==> x.used == Null && (x.created.Null? || x.created.Date?)
  {
    var open := OpenRows(pms.rows);
    if open == [] then Failure(NoUnfinishedTasks)
    else
      var pairs := MatchPairs(sscm.rows, open, scol, pcol);
      if pairs == [] then
        var pk := Unique(KeysOf(open, pcol));
        var sk := Unique(KeysOf(sscm.rows, scol));
        Failure(NoMatch(Take(pk, 5), Take(sk, 5), CommonKeys(pk, sk)))
      else
        var pcols := WithColumns(pms.columns, CleanProject, CleanTask, PmsName);
        var scols := WithColumns(sscm.columns, CleanCode, CleanSite, SscmCode);
        match ResolveLayout(MergedColumns(scols, pcols))
        case Failure(e) => Failure(e)
        case Success(lay) => Success(NewRows(lay, SscmSide(sscm.rows, scol), PmsSide(open, pcol), pairs))
  }

  /** The new ledger rows `initialize_results_table` builds, sorted by creation date. */
  function Initialize(pms: Table, sscm: Table): (r: Result<seq<ResultRow>, InitError>)
    ensures r.Success? ==> ByDate(r.value) && forall x :: x in r.value ==> x.used == Null
    ensures MissingFields(pms.columns, RequiredPms) != [] ==> r == Failure(MissingPmsFields(MissingFields(pms.columns, RequiredPms)))
    ensures MissingFields(pms.columns, RequiredPms) == [] && MissingFields(sscm.columns, RequiredSscm) != [] ==>
              r == Failure(MissingSscmFields(MissingFields(sscm.columns, RequiredSscm)))
  {
    match CheckSchemas(pms.columns, sscm.columns)
    case Failure(e) => Failure(e)
    case Success(cols) => InitializeWith(pms, sscm, cols.0, cols.1)
  }

  // ---------------------------------------------------------------------------
  // What initialisation promises

  /** An SSCM requisition and an unfinished PMS task whose cleaned keys agree. */
  predicate Paired(s: Row, p: Row, scol: string, pcol: string) {
    IsOpen(p) && KeysAgree(s, p, scol, pcol)
  }

  /** The layout takes the project name from PMS and the code from SSCM. */
  lemma LayoutSides(lay: Layout, scols: seq<string>, pcols: seq<string>)
    requires ResolveLayout(MergedColumns(scols, pcols)) == Success(lay)
    requires PmsName in pcols && SscmCode in scols
    ensures lay.name == MCol(PmsName, false, PmsName)
    ensures lay.code == MCol(SscmCode, true, SscmCode)
  {
    MergedName(scols, pcols, lay.name);
    MergedName(scols, pcols, lay.code);
  }

  /** The layout a successful initialisation used, with the sides of name and code. */
  lemma SuccessLayout(pms: Table, sscm: Table, pcol: string, scol: string) returns (lay: Layout)
    requires CheckSchemas(pms.columns, sscm.columns) == Success((pcol, scol))
    requires Initialize(pms, sscm).Success?
    ensures lay.name == MCol(PmsName, false, PmsName) && lay.code == MCol(SscmCode, true, SscmCode)
    ensures ResolveLayout(MergedColumns(WithColumns(sscm.columns, CleanCode, CleanSite, SscmCode),
                                        WithColumns(pms.columns, CleanProject, CleanTask, PmsName))) == Success(lay)
    ensures var open := OpenRows(pms.rows);
            Initialize(pms, sscm).value == NewRows(lay, SscmSide(sscm.rows, scol), PmsSide(open, pcol), MatchPairs(sscm.rows, open, scol, pcol))
  {
    var pcols := WithColumns(pms.columns, CleanProject, CleanTask, PmsName);
    var scols := WithColumns(sscm.columns, CleanCode, CleanSite, SscmCode);
    lay := ResolveLayout(MergedColumns(scols, pcols)).value;
    LayoutSides(lay, scols, pcols);
  }

  /** A name only the left side has keeps it in the merged frame and is found there. */
  lemma LocateLeftOnly(left: seq<string>, right: seq<string>, name: string)
    requires name in left && name !in right && Unsuffixed(name)
    ensures Locate(MergedColumns(left, right), name) == Some(MCol(name, true, name))
  {
    var ms := MergedColumns(left, right);
    var i :| 0 <= i < |left| && left[i] == name;
    assert ColumnNames(ms)[i] == name;
    MergedName(left, right, Locate(ms, name).value);
  }

  /** A name only the right side has keeps it in the merged frame and is found there. */
  lemma LocateRightOnly(left: seq<string>, right: seq<string>, name: string)
    requires name in right && name !in left && Unsuffixed(name)
    ensures Locate(MergedColumns(left, right), name) == Some(MCol(name, false, name))
  {
    var ms := MergedColumns(left, right);
    var j :| 0 <= j < |right| && right[j] == name;
    assert ColumnNames(ms)[|left| + j] == name;
    MergedName(left, right, Locate(ms, name).value);
  }

  /** A field whose first accepted name is a merged column resolves to that column. */
  lemma PickFirstCandidate(ms: seq<MCol>, spec: FieldSpec)
    requires spec.candidates != [] && spec.candidates[0] in ColumnNames(ms)
    ensures Pick(ms, spec) == Locate(ms, spec.candidates[0])
  {
  }

  /** The task field is taken from PMS, the four requisition fields from SSCM, each under its own name. */
  predicate NoSharedFields(pmsColumns: seq<string>, sscmColumns: seq<string>) {
    && "任务名称" !in sscmColumns
    && "物料/组合物料描述" !in pmsColumns && "申领数量" !in pmsColumns
    && "创建日期" !in pmsColumns && "厂家箱号" !in pmsColumns
  }

  /** With no data column on both sides, every field resolves to that side's column of the same name. */
  lemma LayoutFields(lay: Layout, pms: seq<string>, sscm: seq<string>)
    requires forall f :: f in RequiredPms ==> f in pms
    requires forall f :: f in RequiredSscm ==> f in sscm
    requires NoSharedFields(pms, sscm)
    requires ResolveLayout(MergedColumns(WithColumns(sscm, CleanCode, CleanSite, SscmCode),
                                         WithColumns(pms, CleanProject, CleanTask, PmsName))) == Success(lay)
    ensures lay.task == MCol("任务名称", false, "任务名称")
    ensures lay.material == MCol("物料/组合物料描述", true, "物料/组合物料描述")
    ensures lay.quantity == MCol("申领数量", true, "申领数量")
    ensures lay.created == MCol("创建日期", true, "创建日期")
    ensures lay.box == MCol("厂家箱号", true, "厂家箱号")
  {
    var scols := WithColumns(sscm, CleanCode, CleanSite, SscmCode);
    var pcols := WithColumns(pms, CleanProject, CleanTask, PmsName);
    assert RequiredPms[0] == "任务名称";
    TaskPick(scols, pcols, sscm, pms);
    RequisitionPicks(scols, pcols, sscm, pms);
  }

  lemma TaskPick(scols: seq<string>, pcols: seq<string>, sscm: seq<string>, pms: seq<string>)
    requires scols == WithColumns(sscm, CleanCode, CleanSite, SscmCode)
    requires pcols == WithColumns(pms, CleanProject, CleanTask, PmsName)
    requires "任务名称" in pms && "任务名称" !in sscm
    ensures Pick(MergedColumns(scols, pcols), TaskField) == Some(MCol("任务名称", false, "任务名称"))
  {
    LocateRightOnly(scols, pcols, "任务名称");
    PickFirstCandidate(MergedColumns(scols, pcols), TaskField);
  }

  lemma RequisitionPicks(scols: seq<string>, pcols: seq<string>, sscm: seq<string>, pms: seq<string>)
    requires scols == WithColumns(sscm, CleanCode, CleanSite, SscmCode)
    requires pcols == WithColumns(pms, CleanProject, CleanTask, PmsName)
    requires forall f :: f in RequiredSscm ==> f in sscm
    requires NoSharedFields(pms, sscm)
    ensures var ms := MergedColumns(scols, pcols);
            && Pick(ms, MaterialField) == Some(MCol("物料/组合物料描述", true, "物料/组合物料描述"))
            && Pick(ms, QuantityField) == Some(MCol("申领数量", true, "申领数量"))
            && Pick(ms, CreatedField) == Some(MCol("创建日期", true, "创建日期"))
            && Pick(ms, BoxField) == Some(MCol("厂家箱号", true, "厂家箱号"))
  {
    assert RequiredSscm[1] == "物料/组合物料描述" && RequiredSscm[2] == "申领数量";
    assert RequiredSscm[3] == "创建日期" && RequiredSscm[4] == "厂家箱号";
    SscmOwn(scols, pcols, MaterialField, sscm, pms);
    SscmOwn(scols, pcols, QuantityField, sscm, pms);
    SscmOwn(scols, pcols, CreatedField, sscm, pms);
    SscmOwn(scols, pcols, BoxField, sscm, pms);
  }

  lemma SscmOwn(scols: seq<string>, pcols: seq<string>, spec: FieldSpec, sscm: seq<string>, pms: seq<string>)
    requires scols == WithColumns(sscm, CleanCode, CleanSite, SscmCode)
    requires pcols == WithColumns(pms, CleanProject, CleanTask, PmsName)
    requires spec.candidates != []
    requires spec.candidates[0] in RequiredSscm && spec.candidates[0] in sscm && spec.candidates[0] !in pms
    ensures Pick(MergedColumns(scols, pcols), spec) == Some(MCol(spec.candidates[0], true, spec.candidates[0]))
  {
    var c := spec.candidates[0];
    RequisitionNames(c);
    LocateLeftOnly(scols, pcols, c);
    PickFirstCandidate(MergedColumns(scols, pcols), spec);
  }

  /** The requisition fields are plain names, distinct from the key columns added to PMS. */
  lemma RequisitionNames(c: string)
    requires c in RequiredSscm
    ensures Unsuffixed(c) && c != CleanProject && c != CleanTask && c != PmsName
    ensures c != CleanCode && c != CleanSite && c != SscmCode
  {
  }

  /** The ledger row the source builds for one matched pair, field by field (app.py:376-386). */
  function Expected(s: Row, p: Row, scol: string, pcol: string): ResultRow {
    ResultRow(Get(s, scol), Get(p, pcol), Get(p, "任务名称"), Get(s, "物料/组合物料描述"),
              Get(s, "申领数量"), DateCell(AsDate(Get(s, "创建日期"))), Get(s, "厂家箱号"), Null)
  }

  /** The expected row of every matched pair, in merge order. */
  function ExpectedRows(sscmRows: seq<Row>, open: seq<Row>, scol: string, pcol: string, pairs: seq<(nat, nat)>): (r: seq<ResultRow>)
    requires ValidPairs(pairs, sscmRows, open)
    ensures |r| == |pairs|
  {
    seq(|pairs|, k requires 0 <= k < |pairs| => Expected(sscmRows[pairs[k].0], open[pairs[k].1], scol, pcol))
  }

  /** Initialisation yields exactly one new row per matched pair. */
  lemma InitializeCount(pms: Table, sscm: Table, pcol: string, scol: string)
    requires CheckSchemas(pms.columns, sscm.columns) == Success((pcol, scol))
    requires Initialize(pms, sscm).Success?
    ensures |Initialize(pms, sscm).value| == |MatchPairs(sscm.rows, OpenRows(pms.rows), scol, pcol)|
  {
    var lay := SuccessLayout(pms, sscm, pcol, scol);
    var open := OpenRows(pms.rows);
    var built := BuildRows(lay, SscmSide(sscm.rows, scol), PmsSide(open, pcol), MatchPairs(sscm.rows, open, scol, pcol));
    assert |multiset(Initialize(pms, sscm).value)| == |multiset(built)|;
  }

  /**
   * When no data column is on both sides, the new rows are, up to their date
   * order, exactly the expected rows of the matched pairs, one per pair.
   */
  lemma InitializeExact(pms: Table, sscm: Table, pcol: string, scol: string)
    requires CheckSchemas(pms.columns, sscm.columns) == Success((pcol, scol))
    requires Initialize(pms, sscm).Success?
    requires NoSharedFields(pms.columns, sscm.columns)
    ensures var open := OpenRows(pms.rows);
            var pairs := MatchPairs(sscm.rows, open, scol, pcol);
            ValidPairs(pairs, sscm.rows, open) &&
            multiset(Initialize(pms, sscm).value) == multiset(ExpectedRows(sscm.rows, open, scol, pcol, pairs))
  {
    var lay := SuccessLayout(pms, sscm, pcol, scol);
    var open := OpenRows(pms.rows);
    var pairs := MatchPairs(sscm.rows, open, scol, pcol);
    var sr, pr := SscmSide(sscm.rows, scol), PmsSide(open, pcol);
    assert forall f :: f in RequiredPms ==> f in pms.columns;
    assert forall f :: f in RequiredSscm ==> f in sscm.columns;
    LayoutFields(lay, pms.columns, sscm.columns);
    var built := BuildRows(lay, sr, pr, pairs);
    var expected := ExpectedRows(sscm.rows, open, scol, pcol, pairs);
    forall k | 0 <= k < |pairs|
      ensures built[k] == expected[k]
    {
      BuiltIsExpected(lay, sscm.rows[pairs[k].0], open[pairs[k].1], scol, pcol);
    }
    assert built == expected;
  }

  lemma BuiltIsExpected(lay: Layout, s: Row, p: Row, scol: string, pcol: string)
    requires lay.name == MCol(PmsName, false, PmsName) && lay.code == MCol(SscmCode, true, SscmCode)
    requires lay.task == MCol("任务名称", false, "任务名称")
    requires lay.material == MCol("物料/组合物料描述", true, "物料/组合物料描述")
    requires lay.quantity == MCol("申领数量", true, "申领数量")
    requires lay.created == MCol("创建日期", true, "创建日期")
    requires lay.box == MCol("厂家箱号", true, "厂家箱号")
    ensures BuildRow(lay, AugmentSscm(s, scol), AugmentPms(p, pcol)) == Expected(s, p, scol, pcol)
  {
    assert RequiredSscm[1] == "物料/组合物料描述" && RequiredSscm[2] == "申领数量";
    assert RequiredSscm[3] == "创建日期" && RequiredSscm[4] == "厂家箱号";
    RequisitionCellKept(s, scol, "物料/组合物料描述");
    RequisitionCellKept(s, scol, "申领数量");
    RequisitionCellKept(s, scol, "创建日期");
    RequisitionCellKept(s, scol, "厂家箱号");
    TaskCellKept(p, pcol);
  }

  lemma RequisitionCellKept(s: Row, scol: string, c: string)
    requires c in RequiredSscm
    ensures Get(AugmentSscm(s, scol), c) == Get(s, c)
  {
    RequisitionNames(c);
  }

  lemma TaskCellKept(p: Row, pcol: string)
    ensures Get(AugmentPms(p, pcol), "任务名称") == Get(p, "任务名称")
  {
    AugmentKeepsCells(p, pcol, pcol);
  }

  /** A sorted new row is the row built from one of the pairs. */
  lemma NewRowSource(lay: Layout, left: seq<Row>, right: seq<Row>, pairs: seq<(nat, nat)>, x: ResultRow) returns (k: nat)
    requires ValidPairs(pairs, left, right)
    requires x in NewRows(lay, left, right, pairs)
    ensures k < |pairs| && x == BuildRow(lay, left[pairs[k].0], right[pairs[k].1])
  {
    var built := BuildRows(lay, left, right, pairs);
    assert x in multiset(built);
    var i :| 0 <= i < |built| && built[i] == x;
    k := i;
  }

  /** The row built from the k-th matched pair: its keys agree, its name and code are the sides' own. */
  lemma PairRow(lay: Layout, sscmRows: seq<Row>, open: seq<Row>, scol: string, pcol: string, k: nat)
    requires lay.name == MCol(PmsName, false, PmsName) && lay.code == MCol(SscmCode, true, SscmCode)
    requires k < |MatchPairs(sscmRows, open, scol, pcol)|
    ensures var q := MatchPairs(sscmRows, open, scol, pcol)[k];
            var x := BuildRow(lay, SscmSide(sscmRows, scol)[q.0], PmsSide(open, pcol)[q.1]);
            KeysAgree(sscmRows[q.0], open[q.1], scol, pcol) &&
            x.name == Get(open[q.1], pcol) && x.code == Get(sscmRows[q.0], scol) && x.used == Null
  {
    var pairs := MatchPairs(sscmRows, open, scol, pcol);
    assert pairs[k] in pairs;
  }

  /** Every new ledger row comes from one SSCM requisition and one unfinished task with equal keys. */
  lemma InitializeSound(pms: Table, sscm: Table, pcol: string, scol: string)
    requires CheckSchemas(pms.columns, sscm.columns) == Success((pcol, scol))
    requires Initialize(pms, sscm).Success?
    ensures forall x :: x in Initialize(pms, sscm).value ==>
              exists s, p :: s in sscm.rows && p in pms.rows && Paired(s, p, scol, pcol) &&
                             x.name == Get(p, pcol) && x.code == Get(s, scol) && x.used == Null
  {
    var lay := SuccessLayout(pms, sscm, pcol, scol);
    var open := OpenRows(pms.rows);
    var sr, pr := SscmSide(sscm.rows, scol), PmsSide(open, pcol);
    var pairs := MatchPairs(sscm.rows, open, scol, pcol);
    forall x | x in Initialize(pms, sscm).value
      ensures exists s, p :: s in sscm.rows && p in pms.rows && Paired(s, p, scol, pcol) &&
                             x.name == Get(p, pcol) && x.code == Get(s, scol) && x.used == Null
    {
      var k := NewRowSource(lay, sr, pr, pairs, x);
      PairRow(lay, sscm.rows, open, scol, pcol, k);
      var s, p := sscm.rows[pairs[k].0], open[pairs[k].1];
      assert p in open;
      assert s in sscm.rows && p in pms.rows && Paired(s, p, scol, pcol) &&
             x.name == Get(p, pcol) && x.code == Get(s, scol) && x.used == Null;
    }
  }

  /** The pair (a, b) with agreeing keys yields a row among the sorted new rows. */
  lemma PairBuilt(lay: Layout, sscmRows: seq<Row>, open: seq<Row>, scol: string, pcol: string, a: nat, b: nat)
    requires lay.name == MCol(PmsName, false, PmsName) && lay.code == MCol(SscmCode, true, SscmCode)
    requires a < |sscmRows| && b < |open| && KeysAgree(sscmRows[a], open[b], scol, pcol)
    ensures exists x :: x in NewRows(lay, SscmSide(sscmRows, scol), PmsSide(open, pcol), MatchPairs(sscmRows, open, scol, pcol)) &&
                        x.name == Get(open[b], pcol) && x.code == Get(sscmRows[a], scol)
  {
    var pairs := MatchPairs(sscmRows, open, scol, pcol);
    var sr, pr := SscmSide(sscmRows, scol), PmsSide(open, pcol);
    assert (a, b) in pairs;
    var k :| 0 <= k < |pairs| && pairs[k] == (a, b);
    var built := BuildRows(lay, sr, pr, pairs);
    assert built[k] in multiset(NewRows(lay, sr, pr, pairs));
    assert built[k].name == Get(open[b], pcol) && built[k].code == Get(sscmRows[a], scol);
  }

  /** Every SSCM requisition paired with an unfinished task yields a new ledger row. */
  lemma InitializeComplete(pms: Table, sscm: Table, pcol: string, scol: string)
    requires CheckSchemas(pms.columns, sscm.columns) == Success((pcol, scol))
    requires Initialize(pms, sscm).Success?
    ensures forall s, p :: s in sscm.rows && p in pms.rows && Paired(s, p, scol, pcol) ==>
              exists x :: x in Initialize(pms, sscm).value && x.name == Get(p, pcol) && x.code == Get(s, scol)
  {
    forall s, p | s in sscm.rows && p in pms.rows && Paired(s, p, scol, pcol)
      ensures exists x :: x in Initialize(pms, sscm).value && x.name == Get(p, pcol) && x.code == Get(s, scol)
    {
      PairInInitialize(pms, sscm, pcol, scol, s, p);
    }
  }

  lemma PairInInitialize(pms: Table, sscm: Table, pcol: string, scol: string, s: Row, p: Row)
    requires CheckSchemas(pms.columns, sscm.columns) == Success((pcol, scol))
    requires Initialize(pms, sscm).Success?
    requires s in sscm.rows && p in pms.rows && Paired(s, p, scol, pcol)
    ensures exists x :: x in Initialize(pms, sscm).value && x.name == Get(p, pcol) && x.code == Get(s, scol)
  {
    var lay := SuccessLayout(pms, sscm, pcol, scol);
    var open := OpenRows(pms.rows);
    var a :| 0 <= a < |sscm.rows| && sscm.rows[a] == s;
    assert p in open;
    var b :| 0 <= b < |open| && open[b] == p;
    PairBuilt(lay, sscm.rows, open, scol, pcol, a, b);
  }

  /** No unfinished task: nothing is built. */
  lemma InitializeNeedsOpenTasks(pms: Table, sscm: Table)
    requires CheckSchemas(pms.columns, sscm.columns).Success?
    requires forall p :: p in pms.rows ==> !IsOpen(p)
    ensures Initialize(pms, sscm) == Failure(NoUnfinishedTasks)
  {
  }

  /** `KeysOf` lists exactly the keys of the rows. */
  lemma KeysOfMembers(rows: seq<Row>, col: string, k: string)
    ensures k in KeysOf(rows, col) <==> exists r :: r in rows && Key(Get(r, col)) == k
  {
    if r :| r in rows && Key(Get(r, col)) == k {
      var i :| 0 <= i < |rows| && rows[i] == r;
      assert KeysOf(rows, col)[i] == k;
    }
  }

  lemma NoPairs(sscmRows: seq<Row>, open: seq<Row>, pmsRows: seq<Row>, scol: string, pcol: string)
    requires forall p :: p in open ==> p in pmsRows && IsOpen(p)
    requires forall s, p :: s in sscmRows && p in pmsRows ==> !Paired(s, p, scol, pcol)
    ensures MatchPairs(sscmRows, open, scol, pcol) == []
  {
    var pairs := MatchPairs(sscmRows, open, scol, pcol);
    if pairs != [] {
      var q := pairs[0];
      assert q in pairs;
      var s, p := sscmRows[q.0], open[q.1];
      assert p in open && s in sscmRows;
      assert Paired(s, p, scol, pcol);
    }
  }

  /** The keys shared by the unfinished tasks and the requisitions. */
  lemma CommonKeysMeaning(pmsRows: seq<Row>, sscmRows: seq<Row>, scol: string, pcol: string, k: string)
    ensures var pk := Unique(KeysOf(OpenRows(pmsRows), pcol));
            var sk := Unique(KeysOf(sscmRows, scol));
            k in CommonKeys(pk, sk) <==>
              (exists p :: p in pmsRows && IsOpen(p) && Key(Get(p, pcol)) == k) &&
              (exists s :: s in sscmRows && Key(Get(s, scol)) == k)
  {
    var open := OpenRows(pmsRows);
    KeysOfMembers(open, pcol, k);
    KeysOfMembers(sscmRows, scol, k);
    if p :| p in pmsRows && IsOpen(p) && Key(Get(p, pcol)) == k {
      assert p in open;
    }
  }

  /** Unfinished tasks but no pair with equal keys: the no-match report. */
  lemma NoMatchReport(pms: Table, sscm: Table, pcol: string, scol: string)
    requires CheckSchemas(pms.columns, sscm.columns) == Success((pcol, scol))
    requires exists p :: p in pms.rows && IsOpen(p)
    requires forall s, p :: s in sscm.rows && p in pms.rows ==> !Paired(s, p, scol, pcol)
    ensures var pk := Unique(KeysOf(OpenRows(pms.rows), pcol));
            var sk := Unique(KeysOf(sscm.rows, scol));
            Initialize(pms, sscm) == Failure(NoMatch(Take(pk, 5), Take(sk, 5), CommonKeys(pk, sk)))
  {
    var open := OpenRows(pms.rows);
    var p0 :| p0 in pms.rows && IsOpen(p0);
    assert p0 in open;
    NoPairs(sscm.rows, open, pms.rows, scol, pcol);
  }

  /**
   * Unfinished tasks but no pair with equal keys: initialisation fails and its
   * diagnostics name a key as common exactly when both sides have it.
   */
  lemma InitializeNoMatch(pms: Table, sscm: Table, pcol: string, scol: string, k: string)
    requires CheckSchemas(pms.columns, sscm.columns) == Success((pcol, scol))
    requires exists p :: p in pms.rows && IsOpen(p)
    requires forall s, p :: s in sscm.rows && p in pms.rows ==> !Paired(s, p, scol, pcol)
    ensures Initialize(pms, sscm).Failure? && Initialize(pms, sscm).error.NoMatch?
    ensures k in Initialize(pms, sscm).error.common <==>
              (exists p :: p in pms.rows && IsOpen(p) && Key(Get(p, pcol)) == k) &&
              (exists s :: s in sscm.rows && Key(Get(s, scol)) == k)
  {
    NoMatchReport(pms, sscm, pcol, scol);
    CommonKeysMeaning(pms.rows, sscm.rows, scol, pcol, k);
  }

  // ---------------------------------------------------------------------------
  // Adding the new rows to the existing ledger (app.py:386-393)

  /** The box numbers already in the ledger, missing ones left out. */
  function KnownBoxes(ledger: seq<ResultRow>): (r: set<Cell>)
    ensures forall b :: b in r <==> b != Null && exists x :: x in ledger && x.box == b
  {
    if ledger == [] then {}
    else
      assert ledger == [ledger[0]] + ledger[1..];
      (if ledger[0].box != Null then {ledger[0].box} else {}) + KnownBoxes(ledger[1..])
  }

  /** The rows whose box number is not known, in order, each as often as it occurs. */
  function DropKnown(rows: seq<ResultRow>, known: set<Cell>): (r: seq<ResultRow>)
    ensures forall x :: x in r <==> x in rows && x.box !in known
    ensures |r| <= |rows|
    ensures forall x: ResultRow :: x.box !in known ==> multiset(r)[x] == multiset(rows)[x]
    ensures forall x: ResultRow :: x.box in known ==> multiset(r)[x] == 0
  {
    if rows == [] then []
    else
      assert rows == [rows[0]] + rows[1..];
      (if rows[0].box in known then [] else [rows[0]]) + DropKnown(rows[1..], known)
  }

  /**
   * The ledger after initialisation and the number of rows added: without
   * `force_override` and with a non-empty ledger, the new rows whose box number
   * is not yet recorded are appended; otherwise the new rows replace the ledger.
   */
  function MergeIntoLedger(existing: seq<ResultRow>, batch: seq<ResultRow>, forceOverride: bool): (r: (seq<ResultRow>, nat))
    ensures r.1 <= |batch|
  {
    if !forceOverride && existing != [] then
      var added := DropKnown(batch, KnownBoxes(existing));
      (existing + added, |added|)
    else (batch, |batch|)
  }

  /**
   * Appending keeps the existing ledger as a prefix; what follows are exactly the
   * new rows with an unrecorded box number, each as often as it was built, and
   * the count reported is how many were added.
   */
  lemma AppendKeepsLedger(existing: seq<ResultRow>, batch: seq<ResultRow>)
    requires existing != []
    ensures var (ledger, added) := MergeIntoLedger(existing, batch, false);
            |ledger| == |existing| + added && ledger[..|existing|] == existing &&
            (forall x :: x in ledger[|existing|..] <==> x in batch && x.box !in KnownBoxes(existing)) &&
            (forall x: ResultRow :: x.box !in KnownBoxes(existing) ==> multiset(ledger[|existing|..])[x] == multiset(batch)[x])
  {
    var added := DropKnown(batch, KnownBoxes(existing));
    assert (existing + added)[|existing|..] == added;
  }

  /** With `force_override`, or with nothing recorded yet, the new rows are the ledger. */
  lemma ForceReplaces(existing: seq<ResultRow>, batch: seq<ResultRow>, forceOverride: bool)
    requires forceOverride || existing == []
    ensures MergeIntoLedger(existing, batch, forceOverride) == (batch, |batch|)
  {
  }

  function SampleRow(box: Cell): ResultRow {
    ResultRow(Text("C1"), Text("P"), Text("T"), Text("M"), Number(1), Date(0), box, Null)
  }

  /**
   * Re-initialising does not make box numbers unique: two new rows for the same
   * unrecorded box are both appended.
   */
  lemma BatchDuplicatesKept()
    ensures var ledger := MergeIntoLedger([SampleRow(Text("A"))], [SampleRow(Text("B")), SampleRow(Text("B"))], false).0;
            |ledger| == 3 && ledger[1].box == ledger[2].box == Text("B")
  {
    var known := KnownBoxes([SampleRow(Text("A"))]);
    assert Text("B") !in known;
    var batch := [SampleRow(Text("B")), SampleRow(Text("B"))];
    assert batch[1..] == [SampleRow(Text("B"))] && batch[1..][1..] == [];
    assert DropKnown(batch[1..], known) == [SampleRow(Text("B"))];
    assert DropKnown(batch, known) == batch;
  }

  /** A box number already recorded is not added again. */
  lemma RecordedBoxSkipped()
    ensures MergeIntoLedger([SampleRow(Text("A"))], [SampleRow(Text("A")), SampleRow(Null)], false)
         == ([SampleRow(Text("A")), SampleRow(Null)], 1)
  {
    var known := KnownBoxes([SampleRow(Text("A"))]);
    assert SampleRow(Text("A")) in [SampleRow(Text("A"))];
    assert Text("A") in known && Null !in known;
    var batch := [SampleRow(Text("A")), SampleRow(Null)];
    assert batch[1..] == [SampleRow(Null)] && batch[1..][1..] == [];
    assert DropKnown(batch[1..], known) == [SampleRow(Null)];
    assert DropKnown(batch, known) == [SampleRow(Null)];
    assert [SampleRow(Text("A"))] + [SampleRow(Null)] == [SampleRow(Text("A")), SampleRow(Null)];
  }
}
