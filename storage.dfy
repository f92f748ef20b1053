/** The SQLite file: a `threads` table and a `steps` table, each a map from
    its primary key `id` to the rest of the row, or absent while no
    `CREATE TABLE` has run. `INSERT OR REPLACE` is a map update; a statement
    on an absent table raises "no such table"; work that is not committed
    before an exception is discarded. */
module Storage {
  import opened Wrappers
  import opened Seqs
  import opened Records
  import opened Derivation

  const ThreadsTable: string := "threads"
  const StepsTable: string := "steps"

  datatype Table<R> = Absent | Present(rows: map<string, R>)

  datatype Tables = Tables(threads: Table<ThreadRow>, steps: Table<StepRow>)

  /** What a storage call returns and the tables it leaves behind. */
  datatype Effect = Effect(outcome: Outcome<Error>, tables: Tables)

  /** `CREATE TABLE IF NOT EXISTS`: an existing table, rows and all, is left alone. */
  function CreateIfNotExists<R>(t: Table<R>): (r: Table<R>)
    ensures r.Present?
    ensures t.Present? ==> r == t
    ensures t.Absent? ==> r.rows == map[]
  {
    if t.Absent? then Present(map[]) else t
  }

  /** The schema `initialize_db` creates. */
  function EnsureSchema(tb: Tables): (r: Tables)
    ensures r.threads.Present? && r.steps.Present?
  {
    Tables(CreateIfNotExists(tb.threads), CreateIfNotExists(tb.steps))
  }

  /** Creating the schema twice leaves the same tables and rows as creating it once. */
  lemma EnsureSchemaIdempotent(tb: Tables)
    ensures EnsureSchema(EnsureSchema(tb)) == EnsureSchema(tb)
  {
  }

  /** The columns `(name, createdAt, userId, userIdentifier)` written for a thread. */
  function RowOf(t: Thread): ThreadRow {
    ThreadRow(t.name, t.createdAt, t.userId, t.userIdentifier)
  }

  /** The step rows, or none when there is no `steps` table. */
  function StepRowsOf(tb: Tables): map<string, StepRow> {
    if tb.steps.Present? then tb.steps.rows else map[]
  }

  /** `INSERT OR REPLACE` of each step in turn: a later row replaces an earlier one with the same id. */
  function UpsertAll(m: map<string, StepRow>, steps: seq<StepRecord>): map<string, StepRow>
    decreases |steps|
  {
    if steps == [] then m
    else
      var last := steps[|steps| - 1];
      UpsertAll(m, steps[..|steps| - 1])[last.id := last.row]
  }

  function IdsOf(steps: seq<StepRecord>): set<string> {
    set i | 0 <= i < |steps| :: steps[i].id
  }

  predicate DistinctIds(steps: seq<StepRecord>) {
    forall i, j :: 0 <= i < |steps| && 0 <= j < |steps| && steps[i].id == steps[j].id ==> i == j
  }

  /** The ids of all steps are those of all but the last, plus the last one's. */
  lemma IdsOfInit(steps: seq<StepRecord>)
    requires steps != []
    ensures IdsOf(steps) == IdsOf(steps[..|steps| - 1]) + {steps[|steps| - 1].id}
  {
    var n := |steps| - 1;
    var init := steps[..n];
    forall k | k in IdsOf(steps) ensures k in IdsOf(init) + {steps[n].id} {
      var i :| 0 <= i < |steps| && steps[i].id == k;
      if i < n { assert init[i] == steps[i]; }
    }
    forall k | k in IdsOf(init) ensures k in IdsOf(steps) {
      var i :| 0 <= i < |init| && init[i].id == k;
      assert steps[i] == init[i];
    }
  }

  /** Upserting adds exactly the steps' ids to the keys. */
  lemma {:induction false} UpsertAllKeys(m: map<string, StepRow>, steps: seq<StepRecord>)
    ensures UpsertAll(m, steps).Keys == m.Keys + IdsOf(steps)
  {
    if steps != [] {
      UpsertAllKeys(m, steps[..|steps| - 1]);
      IdsOfInit(steps);
    }
  }

  /** Upserting leaves the rows of every other id as they were. */
  lemma {:induction false} UpsertAllKeepsOthers(m: map<string, StepRow>, steps: seq<StepRecord>, k: string)
    requires k in m && k !in IdsOf(steps)
    ensures k in UpsertAll(m, steps) && UpsertAll(m, steps)[k] == m[k]
  {
    if steps != [] {
      IdsOfInit(steps);
      UpsertAllKeepsOthers(m, steps[..|steps| - 1], k);
    }
  }

  /** Upserting steps with distinct ids binds each id to its own row. */
  lemma {:induction false} UpsertAllBindsEach(m: map<string, StepRow>, steps: seq<StepRecord>, i: nat)
    requires DistinctIds(steps) && i < |steps|
    ensures steps[i].id in UpsertAll(m, steps) && UpsertAll(m, steps)[steps[i].id] == steps[i].row
  {
    var n := |steps| - 1;
    if i < n {
      var init := steps[..n];
      assert DistinctIds(init) by {
        forall a, b | 0 <= a < |init| && 0 <= b < |init| && init[a].id == init[b].id ensures a == b {
          assert init[a] == steps[a] && init[b] == steps[b];
        }
      }
      assert init[i] == steps[i];
      UpsertAllBindsEach(m, init, i);
    }
  }

  /** Upserting steps with distinct ids binds each id to its row and leaves every other row as it was. */
  lemma UpsertAllBinds(m: map<string, StepRow>, steps: seq<StepRecord>)
    requires DistinctIds(steps)
    ensures UpsertAll(m, steps).Keys == m.Keys + IdsOf(steps)
    ensures forall i :: 0 <= i < |steps| ==> UpsertAll(m, steps)[steps[i].id] == steps[i].row
    ensures forall k :: k in m && k !in IdsOf(steps) ==> UpsertAll(m, steps)[k] == m[k]
  {
    UpsertAllKeys(m, steps);
    forall i | 0 <= i < |steps| ensures UpsertAll(m, steps)[steps[i].id] == steps[i].row {
      UpsertAllBindsEach(m, steps, i);
    }
    forall k | k in m && k !in IdsOf(steps) ensures UpsertAll(m, steps)[k] == m[k] {
      UpsertAllKeepsOthers(m, steps, k);
    }
  }

  /** `save_thread_to_db`: upserts the thread row; no step is written. */
  function SaveEffect(tb: Tables, t: Thread): (r: Effect)
    ensures r.tables.steps == tb.steps
    ensures r.outcome.Done? <==> tb.threads.Present?
    ensures r.outcome.Fail? ==> r.outcome.error == NoSuchTable(ThreadsTable) && r.tables == tb
    ensures r.outcome.Done? ==>
      && r.tables.threads.Present?
      && r.tables.threads.rows.Keys == tb.threads.rows.Keys + {t.id}
      && r.tables.threads.rows[t.id] == RowOf(t)
      && forall k :: k in tb.threads.rows && k != t.id ==> r.tables.threads.rows[k] == tb.threads.rows[k]
  {
    if tb.threads.Absent? then Effect(Fail(NoSuchTable(ThreadsTable)), tb)
    else Effect(Done, Tables(Present(tb.threads.rows[t.id := RowOf(t)]), tb.steps))
  }

  /** The error `update_thread_in_db` raises on these tables, if any. The thread
      row is inserted first, then the history is read, then one insert runs per
      derived step. */
  function UpdateError(tb: Tables, t: Thread): Option<Error> {
    if tb.threads.Absent? then Some(NoSuchTable(ThreadsTable))
    else if HistoryOf(t).Failure? then Some(HistoryOf(t).error)
    else if DerivedSteps(t, HistoryOf(t).value) != [] && tb.steps.Absent? then Some(NoSuchTable(StepsTable))
    else None
  }

  /** `update_thread_in_db`: on success the thread row and every derived step are
      upserted and committed; on any error nothing is committed. */
  function UpdateEffect(tb: Tables, t: Thread): (r: Effect)
    ensures r.outcome.Fail? <==> UpdateError(tb, t).Some?
    ensures r.outcome.Fail? ==> r.outcome.error == UpdateError(tb, t).value && r.tables == tb
  {
    match UpdateError(tb, t)
    case Some(e) => Effect(Fail(e), tb)
    case None =>
      var steps := DerivedSteps(t, HistoryOf(t).value);
      Effect(Done, Tables(
        Present(tb.threads.rows[t.id := RowOf(t)]),
        if steps == [] then tb.steps else Present(UpsertAll(tb.steps.rows, steps))))
  }

  /** After a successful update the threads table binds `t.id` to exactly its five
      columns, every derived step id is bound to its derived row, and every other
      row is unchanged — older steps of the same thread beyond the new length included. */
  lemma UpdateEffectWrites(tb: Tables, t: Thread)
    requires UpdateEffect(tb, t).outcome.Done?
    ensures HistoryOf(t).Success?
    ensures var r := UpdateEffect(tb, t).tables;
      && tb.threads.Present? && r.threads.Present?
      && r.threads.rows.Keys == tb.threads.rows.Keys + {t.id}
      && r.threads.rows[t.id] == RowOf(t)
      && (forall k :: k in tb.threads.rows && k != t.id ==> r.threads.rows[k] == tb.threads.rows[k])
    ensures var d := DerivedSteps(t, HistoryOf(t).value);
      var r := UpdateEffect(tb, t).tables;
      && (d == [] ==> r.steps == tb.steps)
      && (d != [] ==>
        && tb.steps.Present? && r.steps.Present?
        && r.steps.rows.Keys == tb.steps.rows.Keys + IdsOf(d)
        && (forall i :: 0 <= i < |d| ==> r.steps.rows[d[i].id] == d[i].row)
        && (forall k :: k in tb.steps.rows && k !in IdsOf(d) ==> r.steps.rows[k] == tb.steps.rows[k])
        && (forall j: nat :: j >= |d| && StepId(t.id, j) in tb.steps.rows ==>
              r.steps.rows[StepId(t.id, j)] == tb.steps.rows[StepId(t.id, j)]))
  {
    var h := HistoryOf(t).value;
    var d := DerivedSteps(t, h);
    if d != [] {
      DerivedIdsDistinct(t, h);
      UpsertAllBinds(tb.steps.rows, d);
      forall j: nat | j >= |d| ensures StepId(t.id, j) !in IdsOf(d) {
        StaleIdNotDerived(t, h, j);
      }
    }
  }

  /** An ordinal at or beyond the derived length names no derived step. */
  lemma StaleIdNotDerived(t: Thread, h: seq<Turn>, j: nat)
    requires j >= |DerivedSteps(t, h)|
    ensures StepId(t.id, j) !in IdsOf(DerivedSteps(t, h))
  {
    var d := DerivedSteps(t, h);
    DerivedStepsShape(t, h);
    forall i | 0 <= i < |d| && d[i].id == StepId(t.id, j) ensures i == j {
      StepIdInjective(t.id, i, t.id, j);
    }
  }

  /** The step-insert loop of `update_thread_in_db`, on the staged (uncommitted) table:
      each insert fails while the table is missing, so a missing table matters only
      when there is at least one step. */
  method UpsertSteps(table: Table<StepRow>, steps: seq<StepRecord>) returns (res: Result<Table<StepRow>, Error>)
    ensures steps == [] ==> res == Success(table)
    ensures steps != [] && table.Absent? ==> res == Failure(NoSuchTable(StepsTable))
    ensures steps != [] && table.Present? ==> res == Success(Present(UpsertAll(table.rows, steps)))
  {
    var staged := table;
    var i := 0;
    while i < |steps|
      invariant 0 <= i <= |steps|
      invariant i == 0 ==> staged == table
      invariant i > 0 ==> table.Present? && staged == Present(UpsertAll(table.rows, steps[..i]))
    {
      if staged.Absent? {
        return Failure(NoSuchTable(StepsTable));
      }
      assert steps[..i + 1][..i] == steps[..i];
      staged := Present(staged.rows[steps[i].id := steps[i].row]);
      i := i + 1;
    }
    assert steps[..i] == steps;
    return Success(staged);
  }

  /** The step dictionary `load_threads_from_db` builds from a stored step row. */
  function LoadedStep(id: string, row: StepRow): StepDict {
    StepDict(id, Some(row.threadId), Some(row.name), Some(row.createdAt), Some(row.stepType), Some(row.output))
  }

  /** Derived steps as they read back from the table. */
  function AsLoaded(steps: seq<StepRecord>): (r: seq<StepDict>)
    ensures |r| == |steps|
    ensures forall i :: 0 <= i < |steps| ==> r[i] == LoadedStep(steps[i].id, steps[i].row)
  {
    seq(|steps|, i requires 0 <= i < |steps| => LoadedStep(steps[i].id, steps[i].row))
  }

  /** `ds` lists, once each and in some order, exactly the stored steps whose `threadId` is `threadId`. */
  ghost predicate ListsStepsOf(ds: seq<StepDict>, threadId: string, rows: map<string, StepRow>) {
    && (forall i, j :: 0 <= i < j < |ds| ==> ds[i].id != ds[j].id)
    && (forall i :: 0 <= i < |ds| ==>
          ds[i].id in rows && rows[ds[i].id].threadId == threadId && ds[i] == LoadedStep(ds[i].id, rows[ds[i].id]))
    && (forall k :: k in rows && rows[k].threadId == threadId ==> exists i :: 0 <= i < |ds| && ds[i].id == k)
  }

  /** `rec` is the thread dictionary loaded for row `row`: its columns, no `metadata` or `tags`, and its steps. */
  ghost predicate LoadedThread(rec: Thread, row: ThreadRow, rows: map<string, StepRow>) {
    && rec.name == row.name
    && rec.createdAt == row.createdAt
    && rec.userId == row.userId
    && rec.userIdentifier == row.userIdentifier
    && rec.metadata.None?
    && rec.tags.None?
    && ListsStepsOf(rec.steps, rec.id, rows)
  }

  /** `records` holds one loaded record per thread row, in some order. */
  ghost predicate IsLoadOf(records: seq<Thread>, threads: map<string, ThreadRow>, steps: map<string, StepRow>) {
    && (forall i, j :: 0 <= i < j < |records| ==> records[i].id != records[j].id)
    && (forall i :: 0 <= i < |records| ==>
          records[i].id in threads && LoadedThread(records[i], threads[records[i].id], steps))
    && (forall id :: id in threads ==> exists i :: 0 <= i < |records| && records[i].id == id)
  }

  /** Loading succeeds unless a table it queries is missing; the steps table is
      queried once per thread row, so not at all when there are none. */
  predicate LoadSucceeds(tb: Tables) {
    tb.threads.Present? && (tb.threads.rows == map[] || tb.steps.Present?)
  }

  /** `SELECT * FROM steps WHERE threadId = ?`, each row turned into a step dictionary. */
  method SelectSteps(rows: map<string, StepRow>, threadId: string) returns (ds: seq<StepDict>)
    ensures ListsStepsOf(ds, threadId, rows)
  {
    ds := [];
    var remaining := rows.Keys;
    while remaining != {}
      invariant remaining <= rows.Keys
      invariant forall i, j :: 0 <= i < j < |ds| ==> ds[i].id != ds[j].id
      invariant forall i :: 0 <= i < |ds| ==>
        ds[i].id in rows && ds[i].id !in remaining && rows[ds[i].id].threadId == threadId &&
        ds[i] == LoadedStep(ds[i].id, rows[ds[i].id])
      invariant forall k :: k in rows && k !in remaining && rows[k].threadId == threadId ==>
        exists i :: 0 <= i < |ds| && ds[i].id == k
      decreases remaining
    {
      var k :| k in remaining;
      ghost var before := ds;
      if rows[k].threadId == threadId {
        ds := ds + [LoadedStep(k, rows[k])];
      }
      forall k' | k' in rows && k' !in remaining - {k} && rows[k'].threadId == threadId
        ensures exists i :: 0 <= i < |ds| && ds[i].id == k'
      {
        if k' == k {
          assert ds[|ds| - 1].id == k;
        } else {
          var i :| 0 <= i < |before| && before[i].id == k';
          assert ds[i] == before[i];
        }
      }
      remaining := remaining - {k};
    }
  }

  /** The record built for one thread row: its columns and its selected steps. */
  method LoadThread(id: string, row: ThreadRow, stepRows: map<string, StepRow>) returns (rec: Thread)
    ensures rec.id == id && LoadedThread(rec, row, stepRows)
  {
    var steps := SelectSteps(stepRows, id);
    rec := Thread(id, row.name, None, None, row.createdAt, row.userId, row.userIdentifier, steps);
  }

  /** What the loop of `load_threads_from_db` has built once the rows outside
      `remaining` are done. */
  ghost predicate LoadedSoFar(records: seq<Thread>, remaining: set<string>,
                              threads: map<string, ThreadRow>, steps: map<string, StepRow>) {
    && remaining <= threads.Keys
    && (forall i, j :: 0 <= i < j < |records| ==> records[i].id != records[j].id)
    && (forall i :: 0 <= i < |records| ==>
          records[i].id in threads && records[i].id !in remaining &&
          LoadedThread(records[i], threads[records[i].id], steps))
    && (forall id :: id in threads && id !in remaining ==>
          exists i :: 0 <= i < |records| && records[i].id == id)
  }

  /** Loading one more row keeps `LoadedSoFar`. */
  lemma LoadedSoFarStep(records: seq<Thread>, remaining: set<string>, id: string, rec: Thread,
                        threads: map<string, ThreadRow>, steps: map<string, StepRow>)
    requires LoadedSoFar(records, remaining, threads, steps)
    requires id in remaining && rec.id == id && LoadedThread(rec, threads[id], steps)
    ensures LoadedSoFar(records + [rec], remaining - {id}, threads, steps)
  {
    var next := records + [rec];
    forall i | 0 <= i < |next|
      ensures next[i].id in threads && next[i].id !in remaining - {id}
      ensures LoadedThread(next[i], threads[next[i].id], steps)
    {
      if i < |records| { assert next[i] == records[i]; }
    }
    forall id' | id' in threads && id' !in remaining - {id}
      ensures exists i :: 0 <= i < |next| && next[i].id == id'
    {
      if id' == id {
        assert next[|next| - 1].id == id;
      } else {
        var i :| 0 <= i < |records| && records[i].id == id';
        assert next[i] == records[i];
      }
    }
  }

  /** The per-row loop of `load_threads_from_db`, over the rows of both tables. */
  method LoadAll(threadRows: map<string, ThreadRow>, stepRows: map<string, StepRow>) returns (records: seq<Thread>)
    ensures IsLoadOf(records, threadRows, stepRows)
  {
    records := [];
    var remaining := threadRows.Keys;
    while remaining != {}
      invariant LoadedSoFar(records, remaining, threadRows, stepRows)
      decreases remaining
    {
      var id :| id in remaining;
      var rec := LoadThread(id, threadRows[id], stepRows);
      LoadedSoFarStep(records, remaining, id, rec, threadRows, stepRows);
      records := records + [rec];
      remaining := remaining - {id};
    }
  }

  /** The database file, shared by every caller. */
  class Database {
    var tables: Tables

    /** Opens the file with whatever tables it already holds. */
    constructor Open(existing: Tables)
      ensures tables == existing
    {
      tables := existing;
    }

    /** `initialize_db` */
    method Initialize()
      modifies this
      ensures tables == EnsureSchema(old(tables))
    {
      if tables.threads.Absent? {
        tables := tables.(threads := Present(map[]));
      }
      if tables.steps.Absent? {
        tables := tables.(steps := Present(map[]));
      }
    }

    /** `save_thread_to_db` */
    method SaveThreadToDb(t: Thread) returns (res: Outcome<Error>)
      modifies this
      ensures Effect(res, tables) == SaveEffect(old(tables), t)
    {
      if tables.threads.Absent? {
        return Fail(NoSuchTable(ThreadsTable));
      }
      tables := tables.(threads := Present(tables.threads.rows[t.id := RowOf(t)]));
      res := Done;
    }

    /** `update_thread_in_db`: the changes are staged and committed only when every statement has run. */
    method UpdateThreadInDb(t: Thread) returns (res: Outcome<Error>)
      modifies this
      ensures Effect(res, tables) == UpdateEffect(old(tables), t)
    {
      if tables.threads.Absent? {
        return Fail(NoSuchTable(ThreadsTable));
      }
      var threadRows := tables.threads.rows[t.id := RowOf(t)];
      var history := HistoryOf(t);
      if history.Failure? {
        return Fail(history.error);
      }
      var ordered := OrderedTurns(history.value);
      var steps := BuildSteps(t.id, t.createdAt, ordered);
      assert steps == DerivedSteps(t, history.value);
      var staged := UpsertSteps(tables.steps, steps);
      if staged.Failure? {
        return Fail(staged.error);
      }
      tables := Tables(Present(threadRows), staged.value);
      res := Done;
    }

    /** `load_threads_from_db`: one record per thread row, each with its step rows;
        SQL gives no order, so neither does this. */
    method LoadThreads() returns (res: Result<seq<Thread>, Error>)
      ensures tables.threads.Absent? ==> res == Failure(NoSuchTable(ThreadsTable))
      ensures tables.threads.Present? && !LoadSucceeds(tables) ==> res == Failure(NoSuchTable(StepsTable))
      ensures LoadSucceeds(tables) ==> res.Success? && IsLoadOf(res.value, tables.threads.rows, StepRowsOf(tables))
    {
      if tables.threads.Absent? {
        return Failure(NoSuchTable(ThreadsTable));
      }
      var threadRows := tables.threads.rows;
      if threadRows != map[] && tables.steps.Absent? {
        return Failure(NoSuchTable(StepsTable));
      }
      var records := LoadAll(threadRows, StepRowsOf(tables));
      return Success(records);
    }
  }
}
