/**
 * Tables as the source's data frames hold them: an ordered column list and rows
 * mapping column names to cells, and the results ledger with its fixed columns
 * (app.py:80-83, app.py:204-213).
 */
module Tables {
  import opened Wrappers

  /** A cell: missing (NaN/NaT/None), text, a number, or an already-parsed date. */
  datatype Cell = Null | Text(text: string) | Number(n: int) | Date(instant: int)

  type Row = map<string, Cell>

  datatype Table = Table(columns: seq<string>, rows: seq<Row>)

  /** The cell a row holds under a column; absent means missing. */
  function Get(r: Row, c: string): Cell {
    if c in r then r[c] else Null
  }

  /** `DataFrame.empty`: no rows or no columns. */
  predicate IsEmpty(t: Table) {
    |t.rows| == 0 || |t.columns| == 0
  }

  /** `pd.to_datetime(..., errors='coerce')`: a date stays a date, anything else becomes NaT. */
  function AsDate(c: Cell): Option<int> {
    if c.Date? then Some(c.instant) else None
  }

  function DateCell(d: Option<int>): Cell {
    if d.Some? then Date(d.value) else Null
  }

  function Digits(n: nat): string
    decreases n
  {
    var d := ['0', '1', '2', '3', '4', '5', '6', '7', '8', '9'][n % 10];
    if n < 10 then [d] else Digits(n / 10) + [d]
  }

  function IntText(n: int): string {
    if n < 0 then "-" + Digits(-n) else Digits(n)
  }

  /** What `clean_name` receives for a cell: nothing for a missing cell, else its text. */
  function NameOf(c: Cell): Option<string> {
    match c
    case Null => None
    case Text(s) => Some(s)
    case Number(n) => Some(IntText(n))
    case Date(t) => Some(IntText(t))
  }

  /** `Series.astype(str)`: a missing cell renders as "nan". */
  function AsText(c: Cell): string {
    if c.Null? then "nan" else NameOf(c).value
  }

  /**
   * `df[usecols]` as `load_excel_data` applies it (app.py:240-246): only when the
   * table is not empty and holds every requested column; otherwise the table is
   * returned whole.
   */
  function SelectColumns(t: Table, usecols: seq<string>): (r: Table)
    ensures |r.rows| == |t.rows|
    ensures usecols != [] && (forall c :: c in usecols ==> c in t.columns) && !IsEmpty(t) ==> r.columns == usecols
    ensures usecols == [] || !(forall c :: c in usecols ==> c in t.columns) || IsEmpty(t) ==> r == t
    ensures forall i, c :: 0 <= i < |t.rows| && c in r.columns ==> Get(r.rows[i], c) == Get(t.rows[i], c)
  {
    if usecols != [] && (forall c :: c in usecols ==> c in t.columns) && !IsEmpty(t) then
      Table(usecols, seq(|t.rows|, i requires 0 <= i < |t.rows| => map k | k in t.rows[i] && k in usecols :: t.rows[i][k]))
    else t
  }

  // ---------------------------------------------------------------------------
  // The results ledger

  const RequiredFields: seq<string> :=
    ["项目名称", "任务名称", "物料/组合物料描述", "申领数量", "创建日期", "厂家箱号", "使用数量"]

  /** The ledger's columns, in order: `['项目编码'] + REQUIRED_FIELDS`. */
  const ResultColumns: seq<string> := ["项目编码"] + RequiredFields

  /** One ledger row, one field per column of ResultColumns, in that order. */
  datatype ResultRow = ResultRow(
    code: Cell, name: Cell, task: Cell, material: Cell,
    quantity: Cell, created: Cell, box: Cell, used: Cell)

  function ToRow(r: ResultRow): Row {
    map["项目编码" := r.code, "项目名称" := r.name, "任务名称" := r.task,
        "物料/组合物料描述" := r.material, "申领数量" := r.quantity,
        "创建日期" := r.created, "厂家箱号" := r.box, "使用数量" := r.used]
  }

  /** The ledger as the table that is written to disk: exactly the canonical columns. */
  function ToTable(ledger: seq<ResultRow>): Table {
    Table(ResultColumns, seq(|ledger|, i requires 0 <= i < |ledger| => ToRow(ledger[i])))
  }

  /** The cell of a column in a table that may lack it (`reindex` fills NaN). */
  function Column(cols: seq<string>, r: Row, c: string): Cell {
    if c in cols then Get(r, c) else Null
  }

  function FromRow(cols: seq<string>, r: Row): ResultRow {
    ResultRow(Column(cols, r, "项目编码"), Column(cols, r, "项目名称"), Column(cols, r, "任务名称"),
              Column(cols, r, "物料/组合物料描述"), Column(cols, r, "申领数量"),
              Column(cols, r, "创建日期"), Column(cols, r, "厂家箱号"), Column(cols, r, "使用数量"))
  }

  /**
   * `results_df.reindex(columns=['项目编码'] + REQUIRED_FIELDS)` after adding a
   * missing '项目编码' column (app.py:211-213): every row keeps exactly the
   * canonical fields; a column the table lacks reads as missing.
   */
  function Reindex(t: Table): (l: seq<ResultRow>)
    ensures |l| == |t.rows|
  {
    seq(|t.rows|, i requires 0 <= i < |t.rows| => FromRow(t.columns, t.rows[i]))
  }

  /** Writing the ledger and reading it back gives the same ledger. */
  lemma ReindexRoundTrip(ledger: seq<ResultRow>)
    ensures Reindex(ToTable(ledger)) == ledger
  {
    var t := ToTable(ledger);
    forall i | 0 <= i < |ledger| ensures Reindex(t)[i] == ledger[i] {
      var r := ledger[i];
      assert t.rows[i] == ToRow(r);
      assert FromRow(ResultColumns, ToRow(r)) == r;
    }
  }

  /** A legacy ledger without '项目编码' gets that column, empty, on every row. */
  lemma LegacyLedgerHasEmptyCode(t: Table)
    requires "项目编码" !in t.columns
    ensures forall r :: r in Reindex(t) ==> r.code == Null
  {
  }

  /** A ledger that already has all canonical columns keeps every cell. */
  lemma ReindexKeepsCells(t: Table, i: nat)
    requires forall c :: c in ResultColumns ==> c in t.columns
    requires i < |t.rows|
    ensures forall c :: c in ResultColumns ==> Get(ToRow(Reindex(t)[i]), c) == Get(t.rows[i], c)
  {
  }
}
