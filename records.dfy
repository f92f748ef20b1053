/** The records the persistence layer passes around: conversation turns, the
    thread dictionaries of the in-memory registry, the step dictionaries the
    chat framework hands in, and the rows of the `threads` and `steps` tables. */
module Records {
  import opened Wrappers

  /** The single principal every thread is attributed to. */
  const Admin: string := "admin"

  const UserRole: string := "user"
  const AssistantRole: string := "assistant"
  const UserMessage: string := "user_message"
  const AssistantMessage: string := "assistant_message"

  /** One entry of `message_history`: `role` and `content`, and `createdAt` when the key is present. */
  datatype Turn = Turn(role: string, content: string, createdAt: Option<string>)

  /** A thread's `metadata` dictionary: its `message_history` entry, if present, and the names of its other keys. */
  datatype Metadata = Metadata(messageHistory: Option<seq<Turn>>, otherKeys: set<string>)

  /** A step dictionary: every key may be missing. `stepType` is the `type` key. */
  datatype StepDict = StepDict(
    id: string,
    threadId: Option<string>,
    name: Option<string>,
    createdAt: Option<string>,
    stepType: Option<string>,
    output: Option<string>)

  /** A thread dictionary of the registry. An absent `metadata` or `tags` key is `None`, as is an explicit `None`. */
  datatype Thread = Thread(
    id: string,
    name: Option<string>,
    metadata: Option<Metadata>,
    tags: Option<seq<string>>,
    createdAt: string,
    userId: Option<string>,
    userIdentifier: string,
    steps: seq<StepDict>)

  /** A row of the `threads` table, without its primary key `id`. */
  datatype ThreadRow = ThreadRow(name: Option<string>, createdAt: string, userId: Option<string>, userIdentifier: string)

  /** A row of the `steps` table, without its primary key `id`. */
  datatype StepRow = StepRow(threadId: string, name: string, createdAt: string, stepType: string, output: string)

  /** A step as `update_thread_in_db` builds it: its id and the row stored under that id. */
  datatype StepRecord = StepRecord(id: string, row: StepRow)

  /** What `cl.user_session` holds after an update or a resume. */
  datatype Session = Session(history: seq<Turn>, threadId: string)

  /** The listing returned by `list_threads`. */
  datatype Page = Page(data: seq<Thread>, hasNextPage: bool, startCursor: Option<string>, endCursor: Option<string>)

  /** The exceptions the layer can raise: SQLite's "no such table", and the
      `KeyError`/`TypeError` of reading `thread['metadata']['message_history']`. */
  datatype Error = NoSuchTable(table: string) | MissingMetadata | MissingHistory

  /** Python truthiness of the optional arguments of `update_thread`. */
  predicate NameTruthy(name: Option<string>) {
    name.Some? && name.value != ""
  }

  predicate MetadataTruthy(metadata: Option<Metadata>) {
    metadata.Some? && (metadata.value.messageHistory.Some? || metadata.value.otherKeys != {})
  }

  predicate TagsTruthy(tags: Option<seq<string>>) {
    tags.Some? && tags.value != []
  }

  /** `thread['metadata']['message_history']`, or the error that lookup raises. */
  function HistoryOf(t: Thread): (r: Result<seq<Turn>, Error>)
    ensures r.Success? <==> t.metadata.Some? && t.metadata.value.messageHistory.Some?
    ensures r.Success? ==> r.value == t.metadata.value.messageHistory.value
    ensures t.metadata.None? ==> r == Failure(MissingMetadata)
    ensures t.metadata.Some? && t.metadata.value.messageHistory.None? ==> r == Failure(MissingHistory)
  {
    match t.metadata
    case None => Failure(MissingMetadata)
    case Some(m) =>
      match m.messageHistory
      case None => Failure(MissingHistory)
      case Some(h) => Success(h)
  }
}
