/**
 * Column resolution in `initialize_results_table` (app.py:283-312, app.py:348-374):
 * an ordered list of accepted names is tried first; some fields then fall back
 * to the first column whose name contains given words.
 */
module Columns {
  import opened Wrappers
  import opened Names

  /** The first candidate, in candidate order, that is a column. */
  function FirstPresent(columns: seq<string>, candidates: seq<string>): (r: Option<string>)
    ensures r.None? <==> forall c :: c in candidates ==> c !in columns
    ensures r.Some? ==> r.value in columns
    ensures r.Some? ==> exists k :: 0 <= k < |candidates| && candidates[k] == r.value
                                   && forall j :: 0 <= j < k ==> candidates[j] !in columns
  {
    if candidates == [] then None
    else if candidates[0] in columns then Some(candidates[0])
    else
      var r := FirstPresent(columns, candidates[1..]);
      assert forall j :: 1 <= j < |candidates| ==> candidates[j] == candidates[1..][j - 1];
      r
  }

  /** The candidate loop (`for candidate in ...: if candidate in df.columns: ...; break`). */
  method FindColumn(columns: seq<string>, candidates: seq<string>) returns (found: Option<string>)
    ensures found == FirstPresent(columns, candidates)
  {
    found := None;
    var i := 0;
    while i < |candidates|
      invariant 0 <= i <= |candidates|
      invariant FirstPresent(columns, candidates) == FirstPresent(columns, candidates[i..])
    {
      assert candidates[i..] == [candidates[i]] + candidates[i + 1..];
      if candidates[i] in columns {
        found := Some(candidates[i]);
        return;
      }
      i := i + 1;
    }
  }

  /** The words a fallback column name must contain: any one of them, or all of them. */
  datatype Needles = AnyOf(words: seq<string>) | AllOf(words: seq<string>)

  predicate ContainsAny(name: string, words: seq<string>) {
    exists k :: 0 <= k < |words| && Contains(name, words[k])
  }

  predicate ContainsAll(name: string, words: seq<string>) {
    forall k :: 0 <= k < |words| ==> Contains(name, words[k])
  }

  predicate MatchesNeedles(name: string, n: Needles) {
    match n
    case AnyOf(ws) => ContainsAny(name, ws)
    case AllOf(ws) => ContainsAll(name, ws)
  }

  /** `[col for col in columns if <words test>][0]`, when that list is not empty. */
  function FirstMatching(columns: seq<string>, n: Needles): (r: Option<string>)
    ensures r.None? <==> forall c :: c in columns ==> !MatchesNeedles(c, n)
    ensures r.Some? ==> r.value in columns && MatchesNeedles(r.value, n)
    ensures r.Some? ==> exists k :: 0 <= k < |columns| && columns[k] == r.value
                                   && forall j :: 0 <= j < k ==> !MatchesNeedles(columns[j], n)
  {
    if columns == [] then None
    else if MatchesNeedles(columns[0], n) then Some(columns[0])
    else
      var r := FirstMatching(columns[1..], n);
      assert forall j :: 1 <= j < |columns| ==> columns[j] == columns[1..][j - 1];
      r
  }

  /** How one field of a results row is located among the columns. */
  datatype FieldSpec = FieldSpec(candidates: seq<string>, fallback: Needles)

  /** The accepted names first, then the fallback search. */
  function Resolve(columns: seq<string>, spec: FieldSpec): (r: Option<string>)
    ensures r.Some? ==> r.value in columns
    ensures r.Some? ==> r.value in spec.candidates || MatchesNeedles(r.value, spec.fallback)
    ensures r.None? <==> (forall c :: c in spec.candidates ==> c !in columns)
                         && (forall c :: c in columns ==> !MatchesNeedles(c, spec.fallback))
    ensures (exists c :: c in spec.candidates && c in columns) ==> r == FirstPresent(columns, spec.candidates)
    ensures (forall c :: c in spec.candidates ==> c !in columns) ==> r == FirstMatching(columns, spec.fallback)
  {
    var p := FirstPresent(columns, spec.candidates);
    if p.Some? then p else FirstMatching(columns, spec.fallback)
  }

  const ProjectCandidates: seq<string> := ["项目名称", "项目", "工程名称", "工程"]
  const TaskField := FieldSpec(["任务名称", "任务", "站点名称", "站点"], AnyOf(["任务", "站点"]))
  const MaterialField := FieldSpec(["物料/组合物料描述"], AnyOf(["物料"]))
  const QuantityField := FieldSpec(["申领数量"], AllOf(["数量", "申领"]))
  const CreatedField := FieldSpec(["创建日期"], AnyOf(["日期"]))
  const BoxField := FieldSpec(["厂家箱号"], AnyOf(["箱号", "SN"]))

  /** A field looked up by its exact name only (`merged_df[name]`). */
  function Exact(name: string): FieldSpec {
    FieldSpec([name], AnyOf([]))
  }

  /** A PMS ledger that names its project column '工程' is still accepted. */
  lemma ProjectVariantAccepted()
    ensures FirstPresent(["工程", "任务名称"], ProjectCandidates) == Some("工程")
  {
    var cols := ["工程", "任务名称"];
    assert "项目名称" !in cols && "项目" !in cols && "工程名称" !in cols;
  }

  /** A quantity column under another name is found when it mentions both '数量' and '申领'. */
  lemma QuantityFallback()
    ensures Resolve(["本次申领数量"], QuantityField) == Some("本次申领数量")
  {
    var c := "本次申领数量";
    assert c[2..4] == "申领";
    ContainsAt(c, "申领", 2);
    assert c[4..6] == "数量";
    ContainsAt(c, "数量", 4);
    assert ContainsAll(c, ["数量", "申领"]);
  }
}
