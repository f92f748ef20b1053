/** `TestDataLayer` and the process-wide state it works on: the registry
    `thread_history` (loaded from storage at start-up and then changed in
    place), the soft-delete list `deleted_thread_ids` and
    `create_step_counter`. */
module Registry {
  import opened Wrappers
  import opened Seqs
  import opened Records
  import opened Storage

  /** `next((t for t in thread_history if t["id"] == id), None)`, as an index into the registry. */
  function FindThread(registry: seq<Thread>, id: string): (r: Option<nat>)
    ensures r.Some? ==> r.value < |registry| && registry[r.value].id == id
    ensures r.Some? ==> forall j :: 0 <= j < r.value ==> registry[j].id != id
    ensures r.None? <==> forall j :: 0 <= j < |registry| ==> registry[j].id != id
  {
    FirstIndex(registry, (t: Thread) => t.id == id)
  }

  /** The thread a step belongs to: `step_dict.get("threadId")`, which no thread id equals when missing. */
  function FindOwner(registry: seq<Thread>, threadId: Option<string>): (r: Option<nat>)
    ensures threadId.None? ==> r.None?
    ensures threadId.Some? ==> r == FindThread(registry, threadId.value)
  {
    if threadId.None? then None else FindThread(registry, threadId.value)
  }

  /** `[t for t in thread_history if t["id"] not in deleted_thread_ids]` */
  function Visible(registry: seq<Thread>, deleted: seq<string>): (r: seq<Thread>)
    ensures forall i :: 0 <= i < |r| ==> r[i] in registry && r[i].id !in deleted
    ensures forall i :: 0 <= i < |registry| && registry[i].id !in deleted ==> registry[i] in r
  {
    Filter(registry, (t: Thread) => t.id !in deleted)
  }

  /** Listing keeps registry order: it distributes over concatenation. */
  lemma VisibleAppend(a: seq<Thread>, b: seq<Thread>, deleted: seq<string>)
    ensures Visible(a + b, deleted) == Visible(a, deleted) + Visible(b, deleted)
  {
    FilterAppend(a, b, (t: Thread) => t.id !in deleted);
  }

  /** Soft-deleting one more id hides exactly the entries with that id and keeps the rest in order. */
  lemma {:induction false} DeleteHidesOnlyThatId(registry: seq<Thread>, deleted: seq<string>, id: string)
    ensures Visible(registry, deleted + [id]) == Filter(Visible(registry, deleted), (t: Thread) => t.id != id)
  {
    if registry != [] {
      DeleteHidesOnlyThatId(registry[1..], deleted, id);
    }
  }

  /** The state `TestDataLayer` shares with the module it lives in. */
  class DataLayer {
    const db: Database
    var threadHistory: seq<Thread>
    var deletedThreadIds: seq<string>
    var createStepCounter: int

    /** Module start-up: `initialize_db()`, then `thread_history = load_threads_from_db()`. */
    constructor Startup(db: Database)
      modifies db
      ensures this.db == db
      ensures db.tables == EnsureSchema(old(db.tables))
      ensures IsLoadOf(threadHistory, db.tables.threads.rows, db.tables.steps.rows)
      ensures deletedThreadIds == [] && createStepCounter == 0
    {
      db.Initialize();
      var loaded := db.LoadThreads();
      this.db := db;
      threadHistory := loaded.value;
      deletedThreadIds := [];
      createStepCounter := 0;
    }

    /** `update_thread`. On a known id, only truthy arguments overwrite the entry's
        fields, the entry is written through `update_thread_in_db`, and on success its
        history and id go to the session. On an unknown id a new entry is appended
        (`createdAt` = `now1`) and a separately built dictionary (`createdAt` = `now2`,
        the second `utc_now()`) goes to `save_thread_to_db`. */
    method UpdateThread(threadId: string, name: Option<string>, userId: Option<string>,
                        metadata: Option<Metadata>, tags: Option<seq<string>>, now1: string, now2: string)
      returns (res: Outcome<Error>, session: Option<Session>)
      modifies this, db
      ensures deletedThreadIds == old(deletedThreadIds) && createStepCounter == old(createStepCounter)
      ensures FindThread(old(threadHistory), threadId).Some? ==> |threadHistory| == |old(threadHistory)|
      ensures FindThread(old(threadHistory), threadId).Some? ==>
        var i := FindThread(old(threadHistory), threadId).value;
        var was := old(threadHistory)[i];
        var t := threadHistory[i];
        && (forall j :: 0 <= j < |threadHistory| && j != i ==> threadHistory[j] == old(threadHistory)[j])
        && t.name == (if NameTruthy(name) then name else was.name)
        && t.metadata == (if MetadataTruthy(metadata) then metadata else was.metadata)
        && t.tags == (if TagsTruthy(tags) then tags else was.tags)
        && t.(name := was.name, metadata := was.metadata, tags := was.tags) == was
        && Effect(res, db.tables) == UpdateEffect(old(db.tables), t)
        && (session.Some? <==> res.Done?)
        && (session.Some? ==> HistoryOf(t) == Success(session.value.history) && session.value.threadId == t.id)
      ensures FindThread(old(threadHistory), threadId).None? ==>
        && threadHistory == old(threadHistory) + [Thread(threadId, name, metadata, tags, now1, userId, Admin, [])]
        && Effect(res, db.tables) == SaveEffect(old(db.tables), Thread(threadId, name, metadata, tags, now2, userId, Admin, []))
        && session.None?
    {
      var found := FindThread(threadHistory, threadId);
      if found.Some? {
        var i := found.value;
        var thread := threadHistory[i];
        if NameTruthy(name) {
          thread := thread.(name := name);
        }
        if MetadataTruthy(metadata) {
          thread := thread.(metadata := metadata);
        }
        if TagsTruthy(tags) {
          thread := thread.(tags := tags);
        }
        threadHistory := threadHistory[i := thread];
        res := db.UpdateThreadInDb(thread);
        if res.Done? {
          session := Some(Session(HistoryOf(thread).value, thread.id));
        } else {
          session := None;
        }
      } else {
        threadHistory := threadHistory + [Thread(threadId, name, metadata, tags, now1, userId, Admin, [])];
        var thread := Thread(threadId, name, metadata, tags, now2, userId, Admin, []);
        res := db.SaveThreadToDb(thread);
        session := None;
      }
    }

    /** `create_step`: counts every call and appends the step to the first entry whose id is its `threadId`. */
    method CreateStep(step: StepDict)
      modifies this
      ensures createStepCounter == old(createStepCounter) + 1
      ensures deletedThreadIds == old(deletedThreadIds)
      ensures FindOwner(old(threadHistory), step.threadId).None? ==> threadHistory == old(threadHistory)
      ensures FindOwner(old(threadHistory), step.threadId).Some? ==>
        var i := FindOwner(old(threadHistory), step.threadId).value;
        threadHistory == old(threadHistory)[i := old(threadHistory)[i].(steps := old(threadHistory)[i].steps + [step])]
    {
      createStepCounter := createStepCounter + 1;
      var owner := FindOwner(threadHistory, step.threadId);
      if owner.Some? {
        var i := owner.value;
        threadHistory := threadHistory[i := threadHistory[i].(steps := threadHistory[i].steps + [step])];
      }
    }

    /** `get_thread_author`: the single principal, whatever the thread. */
    function GetThreadAuthor(threadId: string): (r: string)
      ensures r == Admin
    {
      Admin
    }

    /** `list_threads`: the registry entries not soft-deleted, in registry order, on a single page. */
    function ListThreads(): (r: Page)
      reads this
      ensures r.data == Visible(threadHistory, deletedThreadIds)
      ensures !r.hasNextPage && r.startCursor.None? && r.endCursor.None?
      ensures forall i :: 0 <= i < |r.data| ==> r.data[i] in threadHistory && r.data[i].id !in deletedThreadIds
    {
      Page(Visible(threadHistory, deletedThreadIds), false, None, None)
    }

    /** `get_thread`: a fresh load from storage, ignoring both the registry and the soft-delete list. */
    method GetThread(threadId: string) returns (res: Result<Option<Thread>, Error>)
      ensures res.Success? <==> LoadSucceeds(db.tables)
      ensures db.tables.threads.Absent? ==> res == Failure(NoSuchTable(ThreadsTable))
      ensures db.tables.threads.Present? && !LoadSucceeds(db.tables) ==> res == Failure(NoSuchTable(StepsTable))
      ensures res.Success? ==> (res.value.Some? <==> threadId in db.tables.threads.rows)
      ensures res.Success? && res.value.Some? ==>
        res.value.value.id == threadId &&
        LoadedThread(res.value.value, db.tables.threads.rows[threadId], StepRowsOf(db.tables))
    {
      var loaded := db.LoadThreads();
      if loaded.Failure? {
        return Failure(loaded.error);
      }
      var records := loaded.value;
      var found := FindThread(records, threadId);
      if found.Some? {
        res := Success(Some(records[found.value]));
      } else {
        res := Success(None);
      }
    }

    /** `delete_thread`: a soft delete; the id is hidden from listing, storage is untouched. */
    method DeleteThread(threadId: string)
      modifies this
      ensures deletedThreadIds == old(deletedThreadIds) + [threadId]
      ensures threadHistory == old(threadHistory) && createStepCounter == old(createStepCounter)
      ensures ListThreads().data == Filter(old(ListThreads().data), (t: Thread) => t.id != threadId)
    {
      deletedThreadIds := deletedThreadIds + [threadId];
      DeleteHidesOnlyThatId(threadHistory, old(deletedThreadIds), threadId);
    }
  }

  /** Soft delete hides a thread from `list_threads` but not from `get_thread`, which reads storage. */
  method SoftDeleteScenario(layer: DataLayer, id: string) returns (listed: bool, fetched: Result<Option<Thread>, Error>)
    requires LoadSucceeds(layer.db.tables) && id in layer.db.tables.threads.rows
    modifies layer
    ensures !listed
    ensures fetched.Success? && fetched.value.Some? && fetched.value.value.id == id
  {
    layer.DeleteThread(id);
    var page := layer.ListThreads();
    listed := exists i :: 0 <= i < |page.data| && page.data[i].id == id;
    fetched := layer.GetThread(id);
  }
}
