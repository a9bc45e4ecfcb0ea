/**
 * The data cache of app.py:85-93 and app.py:128-270 and the operations that go
 * through it: `preload_data` keeps one snapshot of the three ledgers for 300
 * seconds, `refresh_cache` forces a reload and empties the memo tables of
 * `cached_projects` and `cached_tasks`, and `initialize_results_table` and
 * `save_usage` write the results ledger and then refresh.
 *
 * The files are a field of the store: each ledger file is present or absent,
 * writing the results ledger replaces that field, and the clock is a parameter.
 */
module Store {
  import opened Wrappers
  import opened Names
  import opened Tables
  import opened Ordering
  import opened Columns
  import opened Reconcile
  import opened Queries
  import opened Usage
  import opened Display

  /** `CACHE_EXPIRE`: seconds a snapshot stays fresh. */
  const CacheExpire := 300

  /** The three ledger files, each as the table it holds, or absent. */
  datatype Files = Files(pms: Option<Table>, sscm: Option<Table>, results: Option<Table>)

  /** What `cache_data` holds after a successful load. */
  datatype Snapshot = Snapshot(pms: Table, sscm: Table, results: seq<ResultRow>)

  datatype LoadError =
    | MissingFiles(missing: seq<string>)  // `check_files` found a source ledger absent
    | CastFailed(column: string)           // `astype` named a column the ledger lacks (a `KeyError`)
    | NotLoaded                            // fresh by the clock but never loaded: the source returns no tables and no error

  datatype InitFailure = LoadFailure(load: LoadError) | InitFailed(init: InitError) | ResultsNotSaved

  /** `check_files`: the labels of the absent source ledgers, task list first. */
  function CheckFiles(pmsOnDisk: bool, sscmOnDisk: bool): (r: seq<string>)
    ensures r == [] <==> pmsOnDisk && sscmOnDisk
    ensures "任务清单" in r <==> !pmsOnDisk
    ensures "领用申请单" in r <==> !sscmOnDisk
    ensures |r| <= 2
  {
    (if pmsOnDisk then [] else ["任务清单"]) + (if sscmOnDisk then [] else ["领用申请单"])
  }

  /** The results file a load creates when there is none: the canonical columns, no rows. */
  const EmptyResults := Table(ResultColumns, [])

  /**
   * The PMS ledger as `preload_data` keeps it: when it has a completion-time
   * column, only the unfinished rows, with that column coerced to missing and a
   * '完成年份' column that is missing on every row.
   */
  function PreparePms(t: Table): (r: Table)
    ensures FinishCol !in t.columns ==> r == t
    ensures FinishCol in t.columns ==>
              YearCol in r.columns && |r.rows| == |OpenRows(t.rows)| &&
              (forall c :: c in t.columns ==> c in r.columns) &&
              forall i :: 0 <= i < |r.rows| ==>
                Get(r.rows[i], YearCol) == Null && Get(r.rows[i], FinishCol) == Null &&
                forall c :: c != YearCol && c != FinishCol ==> Get(r.rows[i], c) == Get(OpenRows(t.rows)[i], c)
  {
    if FinishCol in t.columns then
      var open := OpenRows(t.rows);
      Table(WithColumn(t.columns, YearCol),
            seq(|open|, i requires 0 <= i < |open| => open[i][FinishCol := Null][YearCol := Null]))
    else t
  }

  /** The columns `preload_data` converts to categories, in the order `astype` looks them up. */
  const PmsCategories: seq<string> := ["项目名称", "任务名称"]
  const SscmCategories: seq<string> := ["项目名称", "站点名称", "厂家箱号"]

  /**
   * What a load reads from the files, or why it fails: a source ledger is
   * absent, or one of them lacks a column its `astype` names (PMS first).
   */
  function LoadSnapshot(files: Files): (r: Result<Snapshot, LoadError>)
    ensures r.Failure? <==> files.pms.None? || files.sscm.None? ||
                            (exists c :: c in PmsCategories && c !in files.pms.value.columns) ||
                            (exists c :: c in SscmCategories && c !in files.sscm.value.columns)
    ensures files.pms.None? || files.sscm.None? ==> r.Failure? && r.error.MissingFiles?
    ensures r.Failure? && r.error.CastFailed? ==>
              r.error.column in PmsCategories + SscmCategories &&
              (r.error.column !in files.pms.value.columns || r.error.column !in files.sscm.value.columns)
    ensures r.Success? ==> r.value.pms == PreparePms(files.pms.value) && r.value.sscm == files.sscm.value
    ensures r.Success? && files.results.None? ==> r.value.results == []
  {
    var missing := CheckFiles(files.pms.Some?, files.sscm.Some?);
    if missing != [] then Failure(MissingFiles(missing))
    else
      var pmsAbsent := FirstAbsent(files.pms.value.columns, PmsCategories);
      var sscmAbsent := FirstAbsent(files.sscm.value.columns, SscmCategories);
      if pmsAbsent.Some? then Failure(CastFailed(pmsAbsent.value))
      else if sscmAbsent.Some? then Failure(CastFailed(sscmAbsent.value))
      else
        var results := if files.results.Some? then files.results.value else EmptyResults;
        Success(Snapshot(PreparePms(files.pms.value), files.sscm.value, Reindex(results)))
  }

  /** The files after a load: a missing results file is created empty once both sources are there. */
  function StoredFiles(files: Files): Files {
    if files.pms.Some? && files.sscm.Some? && files.results.None? then files.(results := Some(EmptyResults))
    else files
  }

  /**
   * The files, snapshot and time stamp after `preload_data`: unchanged when the
   * snapshot is fresh or the load fails; otherwise the loaded snapshot, stamped
   * with `now`, over the files with the results file created if it was absent.
   */
  function AfterLoad(files: Files, snapshot: Option<Snapshot>, lastUpdated: int, now: int, force: bool): (r: (Files, Option<Snapshot>, int))
    ensures Loaded(files, snapshot, lastUpdated, now, force).Success? ==> r.1 == Some(Loaded(files, snapshot, lastUpdated, now, force).value)
    ensures Loaded(files, snapshot, lastUpdated, now, force).Failure? || Fresh(lastUpdated, now, force) ==> r == (files, snapshot, lastUpdated)
    ensures !Fresh(lastUpdated, now, force) && LoadSnapshot(files).Success? ==> r.0 == StoredFiles(files) && r.2 == now
  {
    if Fresh(lastUpdated, now, force) then (files, snapshot, lastUpdated)
    else
      match LoadSnapshot(files)
      case Success(v) => (StoredFiles(files), Some(v), now)
      case Failure(_) => (files, snapshot, lastUpdated)
  }

  /** Whether `preload_data` would serve the stored snapshot without reading the files. */
  predicate Fresh(lastUpdated: int, now: int, force: bool) {
    !force && now - lastUpdated < CacheExpire
  }

  /** What `preload_data` returns. */
  function Loaded(files: Files, snapshot: Option<Snapshot>, lastUpdated: int, now: int, force: bool): Result<Snapshot, LoadError> {
    if Fresh(lastUpdated, now, force) then
      if snapshot.Some? then Success(snapshot.value) else Failure(NotLoaded)
    else LoadSnapshot(files)
  }

  /** The text of a load error, as the source reports it. */
  function Describe(e: LoadError): string {
    match e
    case MissingFiles(missing) => "未找到以下必要文件:" + JoinLines(missing)
    case CastFailed(column) => "加载数据时出错: " + column
    case NotLoaded => ""
  }

  function JoinLines(lines: seq<string>): string {
    if lines == [] then "" else "\n" + lines[0] + JoinLines(lines[1..])
  }

  /**
   * The ledger `initialize_results_table` would write for a snapshot, and how
   * many rows it adds: the join of the projected tables, merged into the
   * snapshot's ledger.
   */
  function InitOutcome(s: Snapshot, forceOverride: bool): (r: Result<(seq<ResultRow>, nat), InitError>)
    ensures r.Success? ==> r.value.1 <= |r.value.0|
  {
    match Initialize(SelectColumns(s.pms, InitColumns), SelectColumns(s.sscm, InitColumns))
    case Failure(e) => Failure(e)
    case Success(batch) =>
      var (ledger, added) := MergeIntoLedger(s.results, batch, forceOverride);
      AddedFits(s.results, batch, forceOverride);
      Success((ledger, added))
  }

  lemma AddedFits(existing: seq<ResultRow>, batch: seq<ResultRow>, forceOverride: bool)
    ensures MergeIntoLedger(existing, batch, forceOverride).1 <= |MergeIntoLedger(existing, batch, forceOverride).0|
  {
    if !forceOverride && existing != [] {
      AppendKeepsLedger(existing, batch);
    }
  }

  // ---------------------------------------------------------------------------
  // Properties of loading

  /** A results ledger written to disk is read back unchanged by the next load. */
  lemma SaveThenLoad(files: Files, ledger: seq<ResultRow>)
    requires LoadSnapshot(files).Success?
    ensures LoadSnapshot(files.(results := Some(ToTable(ledger)))) ==
            Success(Snapshot(PreparePms(files.pms.value), files.sscm.value, ledger))
  {
    ReindexRoundTrip(ledger);
  }

  /**
   * Every task the cache keeps is unfinished, and its '完成年份' is missing, so
   * asking for the projects of any year lists none.
   */
  lemma YearListAlwaysEmpty(t: Table, y: int)
    requires FinishCol in t.columns && "项目名称" in t.columns && y != 0
    ensures ProjectList(PreparePms(t), Some(y)) == Success([])
  {
    var p := PreparePms(t);
    YearFilterEmpty(p, y);
  }

  /**
   * A snapshot that loaded is served again, unchanged, to any call within
   * `CacheExpire` seconds of its time stamp.
   */
  lemma ServedWithinExpiry(files: Files, snapshot: Option<Snapshot>, lastUpdated: int, now: int, force: bool, later: int)
    requires Loaded(files, snapshot, lastUpdated, now, force).Success?
    requires later - AfterLoad(files, snapshot, lastUpdated, now, force).2 < CacheExpire
    ensures var a := AfterLoad(files, snapshot, lastUpdated, now, force);
            Loaded(a.0, a.1, a.2, later, false) == Loaded(files, snapshot, lastUpdated, now, force)
  {
  }

  /**
   * Every snapshot the cache holds has the column 项目名称 in both sources, so
   * initialisation always takes the first project-name candidate, and never
   * reports 任务名称, 站点名称, 厂家箱号 or a missing project column: the other
   * candidates and those reports are unreachable through the cache.
   */
  lemma CachedProjectColumn(files: Files)
    requires LoadSnapshot(files).Success?
    ensures var s := LoadSnapshot(files).value;
            var pms, sscm := SelectColumns(s.pms, InitColumns), SelectColumns(s.sscm, InitColumns);
            && FirstPresent(pms.columns, ProjectCandidates) == Some("项目名称")
            && FirstPresent(sscm.columns, ProjectCandidates) == Some("项目名称")
            && (forall f :: f in MissingFields(pms.columns, RequiredPms) ==> f == FinishCol)
            && (forall f :: f in MissingFields(sscm.columns, RequiredSscm) ==>
                  f != "站点名称" && f != "厂家箱号" && f != ProjectPlaceholder)
  {
    var s := LoadSnapshot(files).value;
    assert PmsCategories[0] == "项目名称" && PmsCategories[1] == "任务名称";
    assert SscmCategories[0] == "项目名称" && SscmCategories[1] == "站点名称" && SscmCategories[2] == "厂家箱号";
    var pc := SelectedColumns(s.pms, ["项目名称", "任务名称"]);
    var sc := SelectedColumns(s.sscm, ["项目名称", "站点名称", "厂家箱号"]);
    PmsReports(pc);
    SscmReports(sc);
  }

  /** Projecting to the initialisation columns keeps those of `keep` the table has. */
  lemma SelectedColumns(t: Table, keep: seq<string>) returns (cols: seq<string>)
    requires forall c :: c in keep ==> c in t.columns && c in InitColumns
    ensures cols == SelectColumns(t, InitColumns).columns
    ensures forall c :: c in keep ==> c in cols
  {
    cols := SelectColumns(t, InitColumns).columns;
  }

  lemma PmsReports(cols: seq<string>)
    requires "项目名称" in cols && "任务名称" in cols
    ensures FirstPresent(cols, ProjectCandidates) == Some("项目名称")
    ensures forall f :: f in MissingFields(cols, RequiredPms) ==> f == FinishCol
  {
    assert ProjectCandidates[0] == "项目名称";
    assert RequiredPms == ["任务名称", FinishCol];
  }

  lemma SscmReports(cols: seq<string>)
    requires "项目名称" in cols && "站点名称" in cols && "厂家箱号" in cols
    ensures FirstPresent(cols, ProjectCandidates) == Some("项目名称")
    ensures forall f :: f in MissingFields(cols, RequiredSscm) ==> f != "站点名称" && f != "厂家箱号" && f != ProjectPlaceholder
  {
    assert ProjectCandidates[0] == "项目名称";
    forall f | f in MissingFields(cols, RequiredSscm)
      ensures f != "站点名称" && f != "厂家箱号" && f != ProjectPlaceholder
    {
      assert f in RequiredSscm && f !in cols;
    }
  }

  // ---------------------------------------------------------------------------
  // The cache

  class Cache {
    var files: Files
    var snapshot: Option<Snapshot>
    var lastUpdated: int
    /** `cached_projects()`: the memoised project list; only the call without a year is memoised. */
    var projectMemo: Option<Result<seq<string>, QueryError>>
    /** `cached_tasks(project_name)`: the memoised task lists, by project. */
    var taskMemo: map<string, Result<seq<string>, QueryError>>

    /**
     * A snapshot exists only once both source ledgers have been found, and holds
     * what they hold; every memoised list is sorted without repeats.
     */
    ghost predicate Valid()
      reads this
    {
      (snapshot.Some? ==> LoadSnapshot(files).Success? &&
                          snapshot.value.pms == PreparePms(files.pms.value) && snapshot.value.sscm == files.sscm.value) &&
      (projectMemo.Some? && projectMemo.value.Success? ==> StrictlySorted(projectMemo.value.value)) &&
      (forall p :: p in taskMemo && taskMemo[p].Success? ==> StrictlySorted(taskMemo[p].value))
    }

    /** The initial `cache_data`: nothing loaded, last updated at time 0. */
    constructor(files: Files)
      ensures Valid()
      ensures this.files == files && snapshot == None && lastUpdated == 0
      ensures projectMemo == None && taskMemo == map[]
    {
      this.files := files;
      snapshot := None;
      lastUpdated := 0;
      projectMemo := None;
      taskMemo := map[];
    }

    /**
     * `preload_data(force)`: a fresh snapshot is served as it is; otherwise the
     * files are read, and a successful read replaces the snapshot and stamps it
     * with `now`, while a failed one changes nothing.
     */
    method Preload(now: int, force: bool) returns (r: Result<Snapshot, LoadError>)
      requires Valid()
      modifies this
      ensures Valid()
      ensures r == Loaded(old(files), old(snapshot), old(lastUpdated), now, force)
      ensures (files, snapshot, lastUpdated) == AfterLoad(old(files), old(snapshot), old(lastUpdated), now, force)
      ensures Fresh(old(lastUpdated), now, force) ==> unchanged(this)
      ensures !Fresh(old(lastUpdated), now, force) && r.Success? ==>
                snapshot == Some(r.value) && lastUpdated == now && files == StoredFiles(old(files))
      ensures !Fresh(old(lastUpdated), now, force) && r.Failure? ==>
                snapshot == old(snapshot) && lastUpdated == old(lastUpdated) && files == old(files)
      ensures projectMemo == old(projectMemo) && taskMemo == old(taskMemo)
    {
      if Fresh(lastUpdated, now, force) {
        r := if snapshot.Some? then Success(snapshot.value) else Failure(NotLoaded);
        return;
      }
      r := LoadSnapshot(files);
      if r.Success? {
        files := StoredFiles(files);
        snapshot := Some(r.value);
        lastUpdated := now;
      }
    }

    /**
     * `refresh_cache`: expire the snapshot, reload it, and empty both memo
     * tables.
     */
    method RefreshCache(now: int)
      requires Valid()
      modifies this
      ensures Valid()
      ensures projectMemo == None && taskMemo == map[]
      ensures var l := LoadSnapshot(old(files));
              (l.Success? ==> snapshot == Some(l.value) && lastUpdated == now && files == StoredFiles(old(files))) &&
              (l.Failure? ==> snapshot == old(snapshot) && lastUpdated == 0 && files == old(files))
    {
      lastUpdated := 0;
      var _ := Preload(now, true);
      projectMemo := None;
      taskMemo := map[];
    }

    /**
     * `get_project_list(year=year)` through the cache: without a year, a memoised
     * list is returned even when the snapshot has since been reloaded.
     */
    method ProjectList(now: int, year: Option<int>) returns (r: Result<seq<string>, QueryError>)
      requires Valid()
      modifies this
      ensures Valid()
      ensures year.None? && old(projectMemo).Some? ==> r == old(projectMemo).value && unchanged(this)
      ensures year.Some? || old(projectMemo).None? ==>
                var l := Loaded(old(files), old(snapshot), old(lastUpdated), now, false);
                r == (if l.Success? then Queries.ProjectList(l.value.pms, year) else Failure(Queries.LoadFailed(Describe(l.error))))
      ensures year.Some? || old(projectMemo).None? ==> (files, snapshot, lastUpdated) == AfterLoad(old(files), old(snapshot), old(lastUpdated), now, false)
      ensures year.None? && old(projectMemo).None? ==> projectMemo == Some(r)
      ensures year.Some? ==> projectMemo == old(projectMemo)
      ensures taskMemo == old(taskMemo)
      ensures r.Success? ==> StrictlySorted(r.value)
    {
      if year.None? && projectMemo.Some? {
        r := projectMemo.value;
        return;
      }
      var l := Preload(now, false);
      r := if l.Success? then Queries.ProjectList(l.value.pms, year) else Failure(Queries.LoadFailed(Describe(l.error)));
      if year.None? {
        projectMemo := Some(r);
      }
    }
  
    /** `get_task_list(project_name)` through `cached_tasks`: a memoised list is returned as it is. */
    method TaskList(now: int, project: string) returns (r: Result<seq<string>, QueryError>)
      requires Valid()
      modifies this
      ensures Valid()
      ensures project in old(taskMemo) ==> r == old(taskMemo)[project] && unchanged(this)
      ensures project !in old(taskMemo) ==>
                var l := Loaded(old(files), old(snapshot), old(lastUpdated), now, false);
                r == (if l.Success? then Queries.TaskList(l.value.pms, l.value.sscm, project) else Failure(Queries.LoadFailed(Describe(l.error)))) &&
                taskMemo == old(taskMemo)[project := r] && projectMemo == old(projectMemo) &&
                (files, snapshot, lastUpdated) == AfterLoad(old(files), old(snapshot), old(lastUpdated), now, false)
      ensures r.Success? ==> StrictlySorted(r.value)
    {
      if project in taskMemo {
        r := taskMemo[project];
        return;
      }
      var l := Preload(now, false);
      ghost var loaded := (files, snapshot, lastUpdated);
      r := if l.Success? then Queries.TaskList(l.value.pms, l.value.sscm, project) else Failure(Queries.LoadFailed(Describe(l.error)));
      assert r.Success? ==> StrictlySorted(r.value);
      ghost var memo := taskMemo;
      taskMemo := taskMemo[project := r];
      forall p | p in taskMemo && taskMemo[p].Success? ensures StrictlySorted(taskMemo[p].value) {
        if p != project {
          assert taskMemo[p] == memo[p];
        }
      }
      assert (files, snapshot, lastUpdated) == loaded;
    }

    /** `get_pending_projects`, on the current snapshot. */
    method PendingProjects(now: int) returns (r: Result<seq<string>, QueryError>)
      requires Valid()
      modifies this
      ensures Valid()
      ensures var l := Loaded(old(files), old(snapshot), old(lastUpdated), now, false);
              r == (if l.Success? then Queries.PendingProjects(l.value.pms, l.value.sscm) else Failure(Queries.LoadFailed(Describe(l.error))))
      ensures (files, snapshot, lastUpdated) == AfterLoad(old(files), old(snapshot), old(lastUpdated), now, false)
      ensures projectMemo == old(projectMemo) && taskMemo == old(taskMemo)
    {
      var l := Preload(now, false);
      r := if l.Success? then Queries.PendingProjects(l.value.pms, l.value.sscm) else Failure(Queries.LoadFailed(Describe(l.error)));
    }

    /** `get_project_data(project_name)`, on the current snapshot's ledger. */
    method ProjectData(now: int, query: string) returns (r: Result<(seq<ResultRow>, nat), string>)
      requires Valid()
      modifies this
      ensures Valid()
      ensures var l := Loaded(old(files), old(snapshot), old(lastUpdated), now, false);
              r == (if l.Success? then Success(Display.ProjectData(l.value.results, query)) else Failure(Describe(l.error)))
      ensures (files, snapshot, lastUpdated) == AfterLoad(old(files), old(snapshot), old(lastUpdated), now, false)
      ensures projectMemo == old(projectMemo) && taskMemo == old(taskMemo)
    {
      var l := Preload(now, false);
      r := if l.Success? then Success(Display.ProjectData(l.value.results, query)) else Failure(Describe(l.error));
    }

    /**
     * `initialize_results_table(force_override)`: build the new rows from the
     * snapshot, merge them into its ledger, write the ledger (`saved` says
     * whether writing succeeded) and refresh. A failure writes no ledger; the
     * result counts the ledger's rows and the rows added.
     */
    method InitializeResultsTable(now: int, forceOverride: bool, saved: bool) returns (r: Result<(nat, nat), InitFailure>)
      requires Valid()
      modifies this
      ensures Valid()
      ensures var l := Loaded(old(files), old(snapshot), old(lastUpdated), now, false);
              (l.Failure? ==> r == Failure(LoadFailure(l.error))) &&
              (l.Success? ==>
                var o := InitOutcome(l.value, forceOverride);
                (o.Failure? ==> r == Failure(InitFailed(o.error))) &&
                (o.Success? && !saved ==> r == Failure(ResultsNotSaved)) &&
                (o.Success? && saved ==>
                  r == Success((|o.value.0|, o.value.1)) &&
                  files == AfterLoad(old(files), old(snapshot), old(lastUpdated), now, false).0.(results := Some(ToTable(o.value.0))) &&
                  snapshot == Some(l.value.(results := o.value.0)) && lastUpdated == now &&
                  projectMemo == None && taskMemo == map[]))
      ensures r.Failure? ==> (files == old(files) || files == StoredFiles(old(files))) &&
                             projectMemo == old(projectMemo) && taskMemo == old(taskMemo)
      ensures r.Failure? ==> (files, snapshot, lastUpdated) == AfterLoad(old(files), old(snapshot), old(lastUpdated), now, false)
    {
      var l := Preload(now, false);
      if l.Failure? {
        r := Failure(LoadFailure(l.error));
        return;
      }
      var o := InitOutcome(l.value, forceOverride);
      if o.Failure? {
        r := Failure(InitFailed(o.error));
        return;
      }
      if !saved {
        r := Failure(ResultsNotSaved);
        return;
      }
      WriteAndRefresh(now, o.value.0);
      r := Success((|o.value.0|, o.value.1));
    }

    /**
     * `save_usage`: record the usage in the snapshot's ledger, write the ledger
     * with exactly the canonical columns (`saved` says whether writing
     * succeeded) and refresh. A failure writes no ledger; the result says whether
     * an existing row was updated.
     */
    method SaveUsage(now: int, project: string, task: string, sn: string, start: int, end: int, saved: bool)
      returns (r: Result<bool, UsageError>)
      requires Valid()
      modifies this
      ensures Valid()
      ensures var l := Loaded(old(files), old(snapshot), old(lastUpdated), now, false);
              (l.Failure? ==> r == Failure(Usage.LoadFailed(Describe(l.error)))) &&
              (l.Success? ==>
                var u := RecordUsage(l.value.results, l.value.sscm, project, task, sn, start, end);
                (u.Failure? ==> r == Failure(u.error)) &&
                (u.Success? && !saved ==> r == Failure(SaveFailed)) &&
                (u.Success? && saved ==>
                  r == Success(u.value.1) &&
                  files == AfterLoad(old(files), old(snapshot), old(lastUpdated), now, false).0.(results := Some(ToTable(u.value.0))) &&
                  files.results.value.columns == ResultColumns &&
                  snapshot == Some(l.value.(results := u.value.0)) && lastUpdated == now &&
                  projectMemo == None && taskMemo == map[]))
      ensures r.Failure? ==> (files == old(files) || files == StoredFiles(old(files))) &&
                             projectMemo == old(projectMemo) && taskMemo == old(taskMemo)
      ensures r.Failure? ==> (files, snapshot, lastUpdated) == AfterLoad(old(files), old(snapshot), old(lastUpdated), now, false)
    {
      var l := Preload(now, false);
      if l.Failure? {
        r := Failure(Usage.LoadFailed(Describe(l.error)));
        return;
      }
      var u := RecordUsage(l.value.results, l.value.sscm, project, task, sn, start, end);
      if u.Failure? {
        r := Failure(u.error);
        return;
      }
      if !saved {
        r := Failure(SaveFailed);
        return;
      }
      snapshot := Some(l.value.(results := u.value.0));
      WriteAndRefresh(now, u.value.0);
      r := Success(u.value.1);
    }

    /**
     * Write `ledger` as the results file, then `refresh_cache`: the reloaded
     * snapshot holds the same sources and exactly the written ledger.
     */
    method WriteAndRefresh(now: int, ledger: seq<ResultRow>)
      requires Valid() && snapshot.Some?
      modifies this
      ensures Valid() && files == old(files).(results := Some(ToTable(ledger)))
      ensures snapshot == Some(old(snapshot).value.(results := ledger)) && lastUpdated == now
      ensures projectMemo == None && taskMemo == map[]
    {
      files := files.(results := Some(ToTable(ledger)));
      SaveThenLoad(files, ledger);
      RefreshCache(now);
    }
  }
}
