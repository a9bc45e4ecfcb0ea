/**
 * `save_usage` (app.py:528-593) without its I/O: recording how many metres of
 * one cable box were used, either by overwriting the ledger rows of a box it
 * already holds or by appending one row built from the box's first requisition.
 */
module Usage {
  import opened Wrappers
  import opened Tables

  /** Why a usage could not be recorded. */
  datatype UsageError =
    | LoadFailed(message: string)
    | NotPositive
    | UnknownBox(sn: string)
    | MissingColumn(column: string)
    | SaveFailed

  /** The columns the second load asks the requisition table for (app.py:549-551). */
  const RequisitionColumns: seq<string> := ["项目名称", "站点名称", "物料/组合物料描述", "申领数量", "创建日期", "厂家箱号"]

  /** The requisition fields the new record reads, in the order it reads them. */
  const RecordFields: seq<string> := ["项目名称", "物料/组合物料描述", "申领数量", "创建日期"]

  /** `sn_mask.any()`: some ledger row holds the box. */
  predicate Recorded(ledger: seq<ResultRow>, sn: string) {
    exists i :: 0 <= i < |ledger| && ledger[i].box == Text(sn)
  }

  /** `results_df.loc[sn_mask, "使用数量"] = usage_quantity`. */
  function SetUsed(ledger: seq<ResultRow>, sn: string, q: int): (r: seq<ResultRow>)
    ensures |r| == |ledger|
    ensures forall i :: 0 <= i < |ledger| ==> r[i].(used := ledger[i].used) == ledger[i]
    ensures forall i :: 0 <= i < |ledger| ==> r[i].used == if ledger[i].box == Text(sn) then Number(q) else ledger[i].used
    ensures Recorded(r, sn) <==> Recorded(ledger, sn)
  {
    seq(|ledger|, i requires 0 <= i < |ledger| =>
      if ledger[i].box == Text(sn) then ledger[i].(used := Number(q)) else ledger[i])
  }

  /** The first requisition row holding the box: `sscm_df.loc[sscm_mask].iloc[0]`. */
  function FirstWithBox(rows: seq<Row>, sn: string): (r: Option<nat>)
    ensures r.None? <==> forall j :: 0 <= j < |rows| ==> Get(rows[j], "厂家箱号") != Text(sn)
    ensures r.Some? ==> r.value < |rows| && Get(rows[r.value], "厂家箱号") == Text(sn) &&
                        forall j :: 0 <= j < r.value ==> Get(rows[j], "厂家箱号") != Text(sn)
  {
    if rows == [] then None
    else if Get(rows[0], "厂家箱号") == Text(sn) then Some(0)
    else
      var rest := FirstWithBox(rows[1..], sn);
      assert forall j :: 0 < j < |rows| ==> rows[j] == rows[1..][j - 1];
      if rest.None? then None else Some(rest.value + 1)
  }

  /** The ledger row appended for a box first seen in the requisition row `s`. */
  function NewRecord(project: string, task: string, sn: string, s: Row, q: int): ResultRow {
    ResultRow(Get(s, "项目名称"), Text(project), Text(task), Get(s, "物料/组合物料描述"),
              Get(s, "申领数量"), Get(s, "创建日期"), Text(sn), Number(q))
  }

  /**
   * The ledger after recording `end - start` metres for box `sn`, and whether an
   * existing row was updated (true) or a new one appended (false).
   */
  function RecordUsage(ledger: seq<ResultRow>, sscm: Table, project: string, task: string,
                       sn: string, start: int, end: int): (r: Result<(seq<ResultRow>, bool), UsageError>)
    ensures end - start <= 0 ==> r == Failure(NotPositive)
    ensures r.Success? ==> r.value.1 == Recorded(ledger, sn)
  {
    var q := end - start;
    if q <= 0 then Failure(NotPositive)
    else if Recorded(ledger, sn) then Success((SetUsed(ledger, sn, q), true))
    else
      var s := SelectColumns(sscm, RequisitionColumns);
      if "厂家箱号" !in s.columns then Failure(MissingColumn("厂家箱号"))
      else
        match FirstWithBox(s.rows, sn)
        case None => Failure(UnknownBox(sn))
        case Some(j) =>
          var absent := FirstAbsentField(s.columns);
          if absent.Some? then Failure(MissingColumn(absent.value))
          else Success((ledger + [NewRecord(project, task, sn, s.rows[j], q)], false))
  }

  /** The first field of the new record the requisition table lacks (the first `KeyError`). */
  function FirstAbsentField(columns: seq<string>): (r: Option<string>)
    ensures r.None? <==> forall c :: c in RecordFields ==> c in columns
    ensures r.Some? ==> r.value in RecordFields && r.value !in columns
    ensures r.Some? ==> exists k :: 0 <= k < |RecordFields| && RecordFields[k] == r.value
                                   && forall j :: 0 <= j < k ==> RecordFields[j] in columns
  {
    if "项目名称" !in columns then Some("项目名称")
    else if "物料/组合物料描述" !in columns then Some("物料/组合物料描述")
    else if "申领数量" !in columns then Some("申领数量")
    else if "创建日期" !in columns then Some("创建日期")
    else None
  }

  // ---------------------------------------------------------------------------
  // Properties

  /** An existing box: the row count stays, only `使用数量` of its rows changes, and it is set to the difference. */
  lemma UpdateExisting(ledger: seq<ResultRow>, sscm: Table, project: string, task: string, sn: string, start: int, end: int)
    requires end - start > 0 && Recorded(ledger, sn)
    ensures var r := RecordUsage(ledger, sscm, project, task, sn, start, end);
            r.Success? && |r.value.0| == |ledger| &&
            forall i :: 0 <= i < |ledger| ==>
              r.value.0[i].(used := ledger[i].used) == ledger[i] &&
              (ledger[i].box == Text(sn) ==> r.value.0[i].used == Number(end - start)) &&
              (ledger[i].box != Text(sn) ==> r.value.0[i] == ledger[i])
  {
  }

  /** A new box the requisitions hold: exactly one row is appended, after the unchanged ledger. */
  lemma AppendNew(ledger: seq<ResultRow>, sscm: Table, project: string, task: string, sn: string, start: int, end: int, j: nat)
    requires end - start > 0 && !Recorded(ledger, sn)
    requires forall c :: c in RequisitionColumns ==> c in sscm.columns
    requires j < |sscm.rows| && Get(sscm.rows[j], "厂家箱号") == Text(sn)
    requires forall k :: 0 <= k < j ==> Get(sscm.rows[k], "厂家箱号") != Text(sn)
    ensures var r := RecordUsage(ledger, sscm, project, task, sn, start, end);
            r.Success? && r.value.0[..|ledger|] == ledger && |r.value.0| == |ledger| + 1 &&
            var row := r.value.0[|ledger|];
            row.code == Get(sscm.rows[j], "项目名称") && row.name == Text(project) && row.task == Text(task) &&
            row.material == Get(sscm.rows[j], "物料/组合物料描述") && row.quantity == Get(sscm.rows[j], "申领数量") &&
            row.created == Get(sscm.rows[j], "创建日期") && row.box == Text(sn) && row.used == Number(end - start)
  {
    var s := SelectColumns(sscm, RequisitionColumns);
    RequisitionProjected(sscm);
    FirstWithBoxIs(s.rows, sn, j);
    assert RecordUsage(ledger, sscm, project, task, sn, start, end) ==
           Success((ledger + [NewRecord(project, task, sn, s.rows[j], end - start)], false));
  }

  /** Projecting the requisitions keeps every column the usage reads, with its cells. */
  lemma RequisitionProjected(sscm: Table)
    requires forall c :: c in RequisitionColumns ==> c in sscm.columns
    ensures var s := SelectColumns(sscm, RequisitionColumns);
            (forall c :: c in RequisitionColumns ==> c in s.columns) &&
            forall k, c :: 0 <= k < |sscm.rows| && c in RequisitionColumns ==> Get(s.rows[k], c) == Get(sscm.rows[k], c)
  {
  }

  lemma FirstWithBoxIs(rows: seq<Row>, sn: string, j: nat)
    requires j < |rows| && Get(rows[j], "厂家箱号") == Text(sn)
    requires forall k :: 0 <= k < j ==> Get(rows[k], "厂家箱号") != Text(sn)
    ensures FirstWithBox(rows, sn) == Some(j)
  {
    var f := FirstWithBox(rows, sn);
    assert Get(rows[f.value], "厂家箱号") == Text(sn);
  }

  /** A box neither the ledger nor any requisition holds is refused. */
  lemma UnknownRefused(ledger: seq<ResultRow>, sscm: Table, project: string, task: string, sn: string, start: int, end: int)
    requires end - start > 0 && !Recorded(ledger, sn)
    requires forall j :: 0 <= j < |sscm.rows| ==> Get(sscm.rows[j], "厂家箱号") != Text(sn)
    ensures RecordUsage(ledger, sscm, project, task, sn, start, end).Failure?
  {
  }

  /** Recording the same reading twice gives the same ledger as recording it once. */
  lemma RecordIdempotent(ledger: seq<ResultRow>, sscm: Table, project: string, task: string, sn: string, start: int, end: int)
    requires RecordUsage(ledger, sscm, project, task, sn, start, end).Success?
    ensures var once := RecordUsage(ledger, sscm, project, task, sn, start, end).value.0;
            RecordUsage(once, sscm, project, task, sn, start, end) == Success((once, true))
  {
    var once := RecordUsage(ledger, sscm, project, task, sn, start, end).value.0;
    if Recorded(ledger, sn) {
      var k :| 0 <= k < |ledger| && ledger[k].box == Text(sn);
      assert once[k].box == Text(sn);
    } else {
      assert once[|ledger|].box == Text(sn);
    }
    assert SetUsed(once, sn, end - start) == once;
  }

  /**
   * The quantity is set, not added: after readings 10 to 35 and then 35 to 60,
   * the box's rows hold 25.
   */
  lemma LastReadingWins(ledger: seq<ResultRow>, sscm: Table, project: string, task: string, sn: string, i: nat)
    requires RecordUsage(ledger, sscm, project, task, sn, 10, 35).Success?
    requires i < |ledger| && ledger[i].box == Text(sn)
    ensures var first := RecordUsage(ledger, sscm, project, task, sn, 10, 35).value.0;
            var second := RecordUsage(first, sscm, project, task, sn, 35, 60);
            second.Success? && second.value.0[i].used == Number(25)
  {
    var first := RecordUsage(ledger, sscm, project, task, sn, 10, 35).value.0;
    assert first[i].box == Text(sn);
  }

  /** After a box has been appended, a later reading of it updates that row instead of appending another. */
  lemma AppendThenUpdate(ledger: seq<ResultRow>, sscm: Table, project: string, task: string, sn: string,
                         start: int, end: int, start2: int, end2: int)
    requires !Recorded(ledger, sn) && RecordUsage(ledger, sscm, project, task, sn, start, end).Success?
    requires end2 - start2 > 0
    ensures var first := RecordUsage(ledger, sscm, project, task, sn, start, end).value.0;
            var second := RecordUsage(first, sscm, project, task, sn, start2, end2);
            second.Success? && second.value.1 && |second.value.0| == |ledger| + 1 &&
            second.value.0[|ledger|].used == Number(end2 - start2)
  {
    var first := RecordUsage(ledger, sscm, project, task, sn, start, end).value.0;
    assert first[|ledger|].box == Text(sn);
  }
}
