/**
  The run (main in main.go): every (directory, URL) pair of the catalog is
  a task, the tasks are fetched, and the metadata is persisted and the exit
  status chosen afterwards. The worker pool is modelled as a sequential fold
  of the fetch step. When every URL is listed once in the catalog, a task
  reads and writes only its own URL's entry, so the fold's metadata and
  error flag do not depend on the order of the tasks; that is what makes it
  a faithful stand-in for any schedule. A URL listed twice is not covered.
 */
module Pipeline {
  import opened Paths
  import opened Fetch

  /** The store after the run and whether any task returned an error. */
  datatype RunResult = RunResult(store: Store, hadError: bool)

  function Urls(tasks: seq<Task>): set<string>
  {
    set i | 0 <= i < |tasks| :: tasks[i].url
  }

  /** The output paths the tasks may write. */
  function Destinations(today: string, tasks: seq<Task>): set<string>
    decreases |tasks|
  {
    if tasks == [] then {}
    else
      var last := tasks[|tasks| - 1];
      Destinations(today, tasks[..|tasks| - 1]) + {OutputPath(last.dir, last.url, today)}
  }

  predicate DistinctUrls(tasks: seq<Task>)
  {
    forall i, j :: 0 <= i < j < |tasks| ==> tasks[i].url != tasks[j].url
  }

  /** The URLs of a task list are those of all but its last task plus that
      task's own. */
  lemma UrlsSnoc(tasks: seq<Task>)
    requires tasks != []
    ensures Urls(tasks) == Urls(tasks[..|tasks| - 1]) + {tasks[|tasks| - 1].url}
  {
    var init := tasks[..|tasks| - 1];
    forall i | 0 <= i < |init|
      ensures init[i] == tasks[i]
    {
    }
  }

  /** The tasks run one after another, each on the store its predecessors
      left; hadError records whether any of them failed. */
  function RunTasks(ctx: Context, tasks: seq<Task>, io: Task -> TaskIO, st: Store): (r: RunResult)
    ensures forall url :: url !in Urls(tasks) ==> SameEntry(st.metadata, r.store.metadata, url)
    ensures forall path :: path !in Destinations(ctx.today, tasks) ==>
      SameEntry(st.files, r.store.files, path)
    decreases |tasks|
  {
    if tasks == [] then
      RunResult(st, false)
    else
      var init := tasks[..|tasks| - 1];
      var last := tasks[|tasks| - 1];
      var prev := RunTasks(ctx, init, io, st);
      var step := FetchOne(ctx, last, io(last), prev.store);
      UrlsSnoc(tasks);
      RunResult(step.store, prev.hadError || step.outcome.Failed?)
  }

  /** Task `i` fails on the store the tasks before it left. */
  predicate FailsInRun(ctx: Context, tasks: seq<Task>, io: Task -> TaskIO, st: Store, i: int)
    requires 0 <= i < |tasks|
  {
    FetchOne(ctx, tasks[i], io(tasks[i]), RunTasks(ctx, tasks[..i], io, st).store).outcome.Failed?
  }

  /** Task `t` fails when run alone on `st`. */
  predicate FailsAlone(ctx: Context, t: Task, io: Task -> TaskIO, st: Store)
  {
    FetchOne(ctx, t, io(t), st).outcome.Failed?
  }

  /** hadError is set exactly when some task of the run returned an error. */
  lemma {:induction false} RunHadErrorIff(ctx: Context, tasks: seq<Task>, io: Task -> TaskIO, st: Store)
    ensures RunTasks(ctx, tasks, io, st).hadError <==>
      exists i :: 0 <= i < |tasks| && FailsInRun(ctx, tasks, io, st, i)
    decreases |tasks|
  {
    if tasks != [] {
      var n := |tasks|;
      var init := tasks[..n - 1];
      RunHadErrorIff(ctx, init, io, st);
      assert tasks[..n - 1] == init;
      assert FailsInRun(ctx, tasks, io, st, n - 1)
         == FetchOne(ctx, tasks[n - 1], io(tasks[n - 1]), RunTasks(ctx, init, io, st).store).outcome.Failed?;
      forall i | 0 <= i < n - 1
        ensures FailsInRun(ctx, tasks, io, st, i) == FailsInRun(ctx, init, io, st, i)
      {
        assert tasks[..i] == init[..i];
      }
    }
  }

  /** With distinct URLs, the tasks before task `i` leave its entry alone. */
  lemma EarlierTasksKeepEntry(ctx: Context, tasks: seq<Task>, io: Task -> TaskIO, st: Store, i: int)
    requires DistinctUrls(tasks) && 0 <= i < |tasks|
    ensures SameEntry(st.metadata, RunTasks(ctx, tasks[..i], io, st).store.metadata, tasks[i].url)
  {
    forall j | 0 <= j < i
      ensures tasks[..i][j].url != tasks[i].url
    {
      assert tasks[..i][j] == tasks[j];
    }
  }

  /** With distinct URLs, the run fails exactly when some task would fail if
      run alone on the initial store: the order of the tasks is irrelevant. */
  lemma RunFailsIffSomeTaskFails(ctx: Context, tasks: seq<Task>, io: Task -> TaskIO, st: Store)
    requires DistinctUrls(tasks)
    ensures RunTasks(ctx, tasks, io, st).hadError <==>
      exists t :: t in tasks && FailsAlone(ctx, t, io, st)
  {
    RunHadErrorIff(ctx, tasks, io, st);
    forall i | 0 <= i < |tasks|
      ensures FailsInRun(ctx, tasks, io, st, i) == FailsAlone(ctx, tasks[i], io, st)
    {
      EarlierTasksKeepEntry(ctx, tasks, io, st, i);
      FetchOneReadsOnlyOwnEntry(ctx, tasks[i], io(tasks[i]), st, RunTasks(ctx, tasks[..i], io, st).store);
    }
  }

  /** With distinct URLs, each task's URL ends the run holding exactly what
      that task would leave there if run alone on the initial store. */
  lemma {:induction false} RunEntryIsOwnStep(ctx: Context, tasks: seq<Task>, io: Task -> TaskIO, st: Store, i: int)
    requires DistinctUrls(tasks) && 0 <= i < |tasks|
    ensures SameEntry(RunTasks(ctx, tasks, io, st).store.metadata,
                      FetchOne(ctx, tasks[i], io(tasks[i]), st).store.metadata, tasks[i].url)
    decreases |tasks|
  {
    var n := |tasks|;
    var init := tasks[..n - 1];
    var last := tasks[n - 1];
    var prev := RunTasks(ctx, init, io, st);
    if i < n - 1 {
      assert init[i] == tasks[i];
      RunEntryIsOwnStep(ctx, init, io, st, i);
      assert last.url != tasks[i].url;
    } else {
      EarlierTasksKeepEntry(ctx, tasks, io, st, i);
      assert tasks[..i] == init;
      FetchOneReadsOnlyOwnEntry(ctx, last, io(last), prev.store, st);
    }
  }

  lemma SameEverywhereEqual<K, V>(m1: map<K, V>, m2: map<K, V>)
    requires forall k :: SameEntry(m1, m2, k)
    ensures m1 == m2
  {
    forall k | k in m1
      ensures k in m2 && m1[k] == m2[k]
    {
      assert SameEntry(m1, m2, k);
    }
    forall k | k in m2
      ensures k in m1
    {
      assert SameEntry(m1, m2, k);
    }
    assert m1.Keys == m2.Keys;
  }

  /** Any two orders of the same tasks with distinct URLs end with the same
      metadata and the same error flag: the order the worker pool happens to
      finish them in cannot be observed in either. */
  lemma ScheduleIndependent(ctx: Context, tasks1: seq<Task>, tasks2: seq<Task>, io: Task -> TaskIO, st: Store)
    requires DistinctUrls(tasks1) && DistinctUrls(tasks2)
    requires forall t :: t in tasks1 <==> t in tasks2
    ensures RunTasks(ctx, tasks1, io, st).store.metadata == RunTasks(ctx, tasks2, io, st).store.metadata
    ensures RunTasks(ctx, tasks1, io, st).hadError == RunTasks(ctx, tasks2, io, st).hadError
  {
    RunFailsIffSomeTaskFails(ctx, tasks1, io, st);
    RunFailsIffSomeTaskFails(ctx, tasks2, io, st);
    var m1 := RunTasks(ctx, tasks1, io, st).store.metadata;
    var m2 := RunTasks(ctx, tasks2, io, st).store.metadata;
    forall url
      ensures SameEntry(m1, m2, url)
    {
      if i :| 0 <= i < |tasks1| && tasks1[i].url == url {
        assert tasks1[i] in tasks2;
        var j :| 0 <= j < |tasks2| && tasks2[j] == tasks1[i];
        RunEntryIsOwnStep(ctx, tasks1, io, st, i);
        RunEntryIsOwnStep(ctx, tasks2, io, st, j);
      } else {
        forall j | 0 <= j < |tasks2|
          ensures tasks2[j].url != url
        {
          assert tasks2[j] in tasks1;
        }
        assert url !in Urls(tasks1);
        assert url !in Urls(tasks2);
      }
    }
    SameEverywhereEqual(m1, m2);
  }

  /** Distinct URLs can still share an output file: two URLs of one
      directory with the same last element ("http://a/x.csv" and
      "http://b/x.csv", say). When both download, the file holds the body of
      whichever task ran last, so unlike the metadata, the saved files can
      depend on the schedule. */
  lemma SharedOutputPathLastWriterWins(ctx: Context, a: Task, b: Task, io: Task -> TaskIO, st: Store)
    requires a.url != b.url
    requires OutputPath(a.dir, a.url, ctx.today) == OutputPath(b.dir, b.url, ctx.today)
    requires Downloaded(ctx, a, io(a), st) && Downloaded(ctx, b, io(b), st)
    ensures var path := OutputPath(a.dir, a.url, ctx.today);
      && path in RunTasks(ctx, [a, b], io, st).store.files
      && path in RunTasks(ctx, [b, a], io, st).store.files
      && RunTasks(ctx, [a, b], io, st).store.files[path] == ReplyFor(b, io(b), st).response.body
      && RunTasks(ctx, [b, a], io, st).store.files[path] == ReplyFor(a, io(a), st).response.body
  {
    var path := OutputPath(a.dir, a.url, ctx.today);
    assert [a, b][..1] == [a] && [b, a][..1] == [b];
    assert [a][..0] == [] && [b][..0] == [];
    var afterA := FetchOne(ctx, a, io(a), st).store;
    var afterB := FetchOne(ctx, b, io(b), st).store;
    assert RunTasks(ctx, [a], io, st).store == afterA;
    assert RunTasks(ctx, [b], io, st).store == afterB;
    assert Lookup(afterA.metadata, b.url) == Lookup(st.metadata, b.url);
    assert Lookup(afterB.metadata, a.url) == Lookup(st.metadata, a.url);
    assert ReplyFor(b, io(b), afterA) == ReplyFor(b, io(b), st);
    assert ReplyFor(a, io(a), afterB) == ReplyFor(a, io(a), st);
    assert RunTasks(ctx, [a, b], io, st).store == FetchOne(ctx, b, io(b), afterA).store;
    assert RunTasks(ctx, [b, a], io, st).store == FetchOne(ctx, a, io(a), afterB).store;
  }

  /** The catalog: directory name to its URLs. */
  type Catalog = map<string, seq<string>>

  /** The tasks of one directory, in the order its URLs are listed. */
  function DirTasks(dir: string, urls: seq<string>): (r: seq<Task>)
    ensures |r| == |urls|
    ensures forall i :: 0 <= i < |r| ==> r[i] == Task(dir, urls[i])
  {
    seq(|urls|, i requires 0 <= i < |urls| => Task(dir, urls[i]))
  }

  /** `order` lists every key once: one possible map iteration order. */
  predicate Enumerates(order: seq<string>, keys: set<string>)
  {
    && (forall i, j :: 0 <= i < j < |order| ==> order[i] != order[j])
    && (forall i :: 0 <= i < |order| ==> order[i] in keys)
    && (forall k :: k in keys ==> k in order)
  }

  /** The tasks dispatched when the catalog's directories come in `order`. */
  function CatalogTasks(catalog: Catalog, order: seq<string>): (r: seq<Task>)
    requires forall i :: 0 <= i < |order| ==> order[i] in catalog
    ensures forall t :: t in r <==> t.dir in order && t.dir in catalog && t.url in catalog[t.dir]
    decreases |order|
  {
    if order == [] then
      []
    else
      var init := order[..|order| - 1];
      var dir := order[|order| - 1];
      assert forall d :: d in order <==> d in init || d == dir;
      CatalogTasks(catalog, init) + DirTasks(dir, catalog[dir])
  }

  /** Every URL is listed once in the whole catalog. */
  predicate UniqueUrls(catalog: Catalog)
  {
    && (forall d, i, j :: d in catalog && 0 <= i < j < |catalog[d]| ==> catalog[d][i] != catalog[d][j])
    && (forall d1, d2, u :: d1 in catalog && d2 in catalog && u in catalog[d1] && u in catalog[d2] ==> d1 == d2)
  }

  /** A catalog listing each URL once yields tasks with distinct URLs, in any
      directory order. */
  lemma {:induction false} CatalogTasksDistinct(catalog: Catalog, order: seq<string>)
    requires UniqueUrls(catalog)
    requires forall i :: 0 <= i < |order| ==> order[i] in catalog
    requires forall i, j :: 0 <= i < j < |order| ==> order[i] != order[j]
    ensures DistinctUrls(CatalogTasks(catalog, order))
    decreases |order|
  {
    if order != [] {
      var init := order[..|order| - 1];
      var dir := order[|order| - 1];
      CatalogTasksDistinct(catalog, init);
      var a := CatalogTasks(catalog, init);
      var b := DirTasks(dir, catalog[dir]);
      var r := a + b;
      assert r == CatalogTasks(catalog, order);
      forall i, j | 0 <= i < j < |r|
        ensures r[i].url != r[j].url
      {
        if j < |a| {
          assert r[i] == a[i] && r[j] == a[j];
        } else if |a| <= i {
          assert r[i] == b[i - |a|] && r[j] == b[j - |a|];
        } else {
          assert r[i] == a[i] && a[i] in a;
          assert r[j] == b[j - |a|];
          assert a[i].dir in init;
          assert dir !in init;
          assert r[j].url in catalog[dir];
        }
      }
    }
  }

  /** How the process ends: aborted by log.Fatalf, or with the metadata
      written back, the files on disk and an exit status. */
  datatype Exit = Aborted | Finished(persisted: Metadata, files: map<string, seq<bv8>>, code: int)

  /** main: create every directory (any failure is fatal), run all tasks,
      always write the metadata back, and exit 1 iff some task failed. */
  function Execute(ctx: Context, catalog: Catalog, order: seq<string>, mkdirOk: string -> bool,
                   io: Task -> TaskIO, st: Store): (r: Exit)
    requires Enumerates(order, catalog.Keys)
    ensures r.Aborted? <==> exists d :: d in catalog && !mkdirOk(d)
    ensures r.Finished? ==>
      var run := RunTasks(ctx, CatalogTasks(catalog, order), io, st);
      && r.persisted == run.store.metadata
      && r.files == run.store.files
      && (r.code == 0 <==> !run.hadError)
      && (r.code == 1 <==> run.hadError)
  {
    if exists d :: d in catalog && !mkdirOk(d) then
      Aborted
    else
      var run := RunTasks(ctx, CatalogTasks(catalog, order), io, st);
      Finished(run.store.metadata, run.store.files, if run.hadError then 1 else 0)
  }

  /** A catalog task fails when run alone on the initial store. */
  predicate CatalogTaskFails(ctx: Context, catalog: Catalog, io: Task -> TaskIO, st: Store, d: string, u: string)
    requires d in catalog
  {
    u in catalog[d] && FailsAlone(ctx, Task(d, u), io, st)
  }

  /** For a catalog listing each URL once, a completed run exits with
      status 1 exactly when some (directory, URL) pair fails on its own. */
  lemma ExecuteExitCode(ctx: Context, catalog: Catalog, order: seq<string>, mkdirOk: string -> bool,
                        io: Task -> TaskIO, st: Store)
    requires Enumerates(order, catalog.Keys) && UniqueUrls(catalog)
    ensures var r := Execute(ctx, catalog, order, mkdirOk, io, st);
      r.Finished? ==>
        (r.code == 1 <==> exists d, u :: d in catalog && CatalogTaskFails(ctx, catalog, io, st, d, u))
  {
    var tasks := CatalogTasks(catalog, order);
    CatalogTasksDistinct(catalog, order);
    RunFailsIffSomeTaskFails(ctx, tasks, io, st);
    if exists t :: t in tasks && FailsAlone(ctx, t, io, st) {
      var t :| t in tasks && FailsAlone(ctx, t, io, st);
      assert CatalogTaskFails(ctx, catalog, io, st, t.dir, t.url);
    }
    if exists d, u :: d in catalog && CatalogTaskFails(ctx, catalog, io, st, d, u) {
      var d, u :| d in catalog && CatalogTaskFails(ctx, catalog, io, st, d, u);
      assert Task(d, u) in tasks;
    }
  }

  /** For a catalog listing each URL once, every listed URL is persisted
      holding what its own fetch left on the initial store. */
  lemma ExecuteListedEntries(ctx: Context, catalog: Catalog, order: seq<string>, mkdirOk: string -> bool,
                             io: Task -> TaskIO, st: Store, d: string, u: string)
    requires Enumerates(order, catalog.Keys) && UniqueUrls(catalog)
    requires d in catalog && u in catalog[d]
    ensures var r := Execute(ctx, catalog, order, mkdirOk, io, st);
      r.Finished? ==> SameEntry(r.persisted, FetchOne(ctx, Task(d, u), io(Task(d, u)), st).store.metadata, u)
  {
    var tasks := CatalogTasks(catalog, order);
    CatalogTasksDistinct(catalog, order);
    assert Task(d, u) in tasks;
    var i :| 0 <= i < |tasks| && tasks[i] == Task(d, u);
    RunEntryIsOwnStep(ctx, tasks, io, st, i);
  }

  /** A URL the catalog does not list is persisted exactly as it was loaded. */
  lemma ExecuteKeepsUnlisted(ctx: Context, catalog: Catalog, order: seq<string>, mkdirOk: string -> bool,
                             io: Task -> TaskIO, st: Store, u: string)
    requires Enumerates(order, catalog.Keys)
    requires forall d :: d in catalog ==> u !in catalog[d]
    ensures var r := Execute(ctx, catalog, order, mkdirOk, io, st);
      r.Finished? ==> SameEntry(r.persisted, st.metadata, u)
  {
    var tasks := CatalogTasks(catalog, order);
    forall i | 0 <= i < |tasks|
      ensures tasks[i].url != u
    {
      assert tasks[i] in tasks;
    }
    assert u !in Urls(tasks);
  }

  /** Go's map iteration order does not matter: for a catalog listing each
      URL once, any two directory orders abort alike, persist the same
      metadata and exit with the same status. */
  lemma ExecuteIndependentOfOrder(ctx: Context, catalog: Catalog, order1: seq<string>, order2: seq<string>,
                                  mkdirOk: string -> bool, io: Task -> TaskIO, st: Store)
    requires Enumerates(order1, catalog.Keys) && Enumerates(order2, catalog.Keys)
    requires UniqueUrls(catalog)
    ensures var r1 := Execute(ctx, catalog, order1, mkdirOk, io, st);
      var r2 := Execute(ctx, catalog, order2, mkdirOk, io, st);
      && r1.Aborted? == r2.Aborted?
      && (r1.Finished? ==> r1.persisted == r2.persisted && r1.code == r2.code)
  {
    var tasks1 := CatalogTasks(catalog, order1);
    var tasks2 := CatalogTasks(catalog, order2);
    CatalogTasksDistinct(catalog, order1);
    CatalogTasksDistinct(catalog, order2);
    ScheduleIndependent(ctx, tasks1, tasks2, io, st);
  }
}
