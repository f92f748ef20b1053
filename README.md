# Thread and step persistence of the PraisonAI chat front-end

This project is a Dafny model of the persistence layer in `praisonai/ui/chat.py`. The layer stores conversation threads and their steps (messages) in two SQLite tables. It also keeps an in-memory registry of threads for the chat framework's data layer (`TestDataLayer`), and rebuilds a session's message history when a conversation is resumed. The model has three parts:

- **Storage:** the `threads` and `steps` tables as maps from `id` to the rest of the row, each possibly absent. This covers `initialize_db`, `save_thread_to_db`, `update_thread_in_db` and `load_threads_from_db`, all in the `Storage` module. `Storage.Database` is the database file.
- **Derivation:** `update_thread_in_db` turns `metadata.message_history` into numbered steps (`Derivation`). The user and assistant turns are zipped pairwise. Step *i* gets the id `{thread id}-step-{i}`.
- **Registry and resume:**
  - `Registry.DataLayer` holds the process-wide `thread_history`, `deleted_thread_ids` and `create_step_counter`. Its methods are `update_thread`, `create_step`, `list_threads`, `get_thread`, `delete_thread` and `get_thread_author`. Its constructor runs the module's start-up.
  - `Resume` models the step-to-history loop of `on_chat_resume` and its round trip with the derivation.

Modules: `Wrappers` (Option/Result/Outcome), `Seqs` (the comprehensions: filter, `next(...)`, flattened `zip`), `Decimal` (rendering `{idx}`), `Records` (the dictionaries and rows), `Derivation`, `Storage`, `Registry`, `Resume`.

The model follows the code, including these behaviours that a reader of the layer's intent might not expect:

- Updates are applied when an argument is *truthy*, not merely non-null. An empty name, an empty tag list or an empty metadata dictionary leaves the field alone.
- The not-found path of `update_thread` reads the clock twice. The registry entry and the stored row may therefore carry different `createdAt` values (`now1`, `now2`).
- The not-found path never writes steps, whatever the history holds. A thread created this way is stored with zero steps because nothing is derived at all, not because a lone user turn is left unpaired.
- Storage is not transactional beyond this: every statement runs on one connection, and only what reaches `conn.commit()` is kept. An exception in `update_thread_in_db` (missing table, missing `metadata` or `message_history`) therefore leaves both tables unchanged.
  - The registry entry has already been modified by then, and the model keeps that modification.
  - A missing `steps` table only matters when at least one step is derived.
- `get_thread` assigns its load to a local variable, so the registry is not refreshed by it.
- A thread loaded from storage has no `metadata` key. Updating it without a truthy `metadata` argument fails with `MissingMetadata`, and nothing is stored.
- Neither the SQL queries nor the model fix the order of loaded threads or loaded steps. `LoadThreads` picks rows in an unspecified order, and its contract describes the result up to order.

## Model

| member | source | states |
|---|---|---|
| Seqs.Filter | praisonai/ui/chat.py:76-77 | every kept element comes from the input and satisfies the condition; every input element that satisfies it is kept; never longer than the input |
| Seqs.FilterAppend | praisonai/ui/chat.py:76-77 | filtering distributes over concatenation, so kept elements stay in their relative order |
| Seqs.FirstIndex | praisonai/ui/chat.py:157 | the index found satisfies the condition and no earlier element does; none found exactly when no element satisfies it |
| Seqs.Interleave | praisonai/ui/chat.py:78 | the flattened zip has 2·min(|xs|, |ys|) elements, xs[k] at 2k and ys[k] at 2k+1 |
| Seqs.InterleaveDropsTrailing | praisonai/ui/chat.py:78 | elements beyond the shorter list's length do not affect the flattened zip |
| Decimal.NatToString | praisonai/ui/chat.py:83 | the numeral is non-empty, all digits, without a leading zero; its value is stated by `Decimal.NatToStringValue` |
| Decimal.NatToStringValue | praisonai/ui/chat.py:83 | the numeral of `n`, read back digit by digit, denotes `n`: `{idx}` renders the ordinal in decimal |
| Decimal.NatToStringInjective | praisonai/ui/chat.py:83 | distinct ordinals render as distinct numerals |
| Records.HistoryOf | praisonai/ui/chat.py:73 | the history is returned exactly when `metadata` is present and has `message_history`; otherwise `MissingMetadata` when there is no `metadata`, and `MissingHistory` when it lacks `message_history` |
| Records.NameTruthy | praisonai/ui/chat.py:159-160 | definition: a `name` argument overwrites only when given and not the empty string |
| Records.MetadataTruthy | praisonai/ui/chat.py:161-162 | definition: a `metadata` argument overwrites only when given and holding at least one key |
| Records.TagsTruthy | praisonai/ui/chat.py:163-164 | definition: a `tags` argument overwrites only when given and non-empty |
| Derivation.UserTurns | praisonai/ui/chat.py:76 | every kept turn is a user turn from the history, and every user turn of the history is kept (order by `Seqs.FilterAppend`) |
| Derivation.AssistantTurns | praisonai/ui/chat.py:77 | every kept turn is an assistant turn from the history, and every assistant turn of the history is kept |
| Derivation.OrderedTurns | praisonai/ui/chat.py:78 | there are 2·min(#user, #assistant) ordered turns, user turns at even and assistant turns at odd positions |
| Derivation.OrderedTurnsShape | praisonai/ui/chat.py:76-78 | ordered turns number 2·min(#user, #assistant); position 2k holds the k-th user turn, 2k+1 the k-th assistant turn; other roles and unmatched trailing turns do not appear |
| Derivation.AlternatingIsOrdered | praisonai/ui/chat.py:76-78 | a history that alternates user, assistant, … with even length is its own ordering |
| Derivation.BuildSteps | praisonai/ui/chat.py:81-94 | the enumerate loop builds exactly one step per ordered turn, the i-th as the derivation defines it |
| Derivation.StepId | praisonai/ui/chat.py:83 | definition: thread id, `-step-`, the ordinal's decimal numeral; what it denotes is stated by `Decimal.NatToStringValue` and `Derivation.StepIdInjective` |
| Derivation.StepFor | praisonai/ui/chat.py:83-94 | definition of the dictionary built for one turn; its fields are stated by `Derivation.DerivedStepsShape` |
| Derivation.StepsOf | praisonai/ui/chat.py:81-94 | definition: one step per ordered turn, at its position; `Derivation.BuildSteps` is proved equal to it |
| Derivation.DerivedSteps | praisonai/ui/chat.py:73-94 | definition: the steps of the ordered turns of the thread's history, with the thread's id and `createdAt` |
| Derivation.DerivedStepsShape | praisonai/ui/chat.py:82-94 | step i has id `{thread id}-step-{i}`, the thread's id, tags `user_message`/`user` on even and `assistant_message`/`assistant` on odd positions, the turn's content, and the turn's `createdAt` or else the thread's |
| Derivation.StepIdInjective | praisonai/ui/chat.py:83 | a step id determines its thread id and its ordinal, so ids of different threads never collide |
| Derivation.DerivedIdsDistinct | praisonai/ui/chat.py:83 | the derived step ids of one thread are pairwise distinct |
| Storage.CreateIfNotExists | praisonai/ui/chat.py:26-45 | afterwards the table exists; an existing table keeps all its rows; a new one is empty |
| Storage.EnsureSchema | praisonai/ui/chat.py:26-45 | both tables exist afterwards, each as `CREATE TABLE IF NOT EXISTS` leaves it |
| Storage.EnsureSchemaIdempotent | praisonai/ui/chat.py:26-45 | creating the schema twice leaves the same tables and rows as creating it once |
| Storage.Database.Initialize | praisonai/ui/chat.py:23-47 | `initialize_db` creates each missing table and leaves an existing one as it was |
| Storage.Database.Open | praisonai/ui/chat.py:20-23 | connecting to the file sees exactly the tables it already holds |
| Storage.RowOf | praisonai/ui/chat.py:52-55 | definition: the four non-key columns `name`, `createdAt`, `userId`, `userIdentifier` written for a thread |
| Storage.UpsertAll | praisonai/ui/chat.py:97-101 | definition: `INSERT OR REPLACE` of each step in order, a later row replacing an earlier one with the same id; stated by `Storage.UpsertAllBinds` |
| Storage.UpsertAllBinds | praisonai/ui/chat.py:97-101 | upserting steps with distinct ids binds each id to its row and leaves every other row unchanged |
| Storage.SaveEffect | praisonai/ui/chat.py:49-59 | a save writes no step; it fails with "no such table" exactly when `threads` is missing, changing nothing; otherwise it binds the id to the thread's four columns and keeps every other thread row |
| Storage.Database.SaveThreadToDb | praisonai/ui/chat.py:49-60 | the database method has exactly that effect |
| Storage.UpdateError | praisonai/ui/chat.py:67-101 | definition: the first statement that raises, in source order — the `threads` insert, then the metadata lookup, then the first `steps` insert when there are steps |
| Storage.UpdateEffect | praisonai/ui/chat.py:62-104 | an update fails exactly when a statement before the commit raises (in source order: threads table, metadata lookup, steps table), and then no table changes |
| Storage.UpdateEffectWrites | praisonai/ui/chat.py:67-101 | after a successful update the thread id is bound to exactly its columns; every derived step id is bound to its derived row; every other row is unchanged, including older steps of the same thread whose ordinal is at least the new length |
| Storage.UpsertSteps | praisonai/ui/chat.py:97-101 | the upsert loop on the staged steps table: no steps leave it as it was; otherwise it fails with "no such table" when the table is missing, and else yields the table with every step upserted in order |
| Storage.Database.UpdateThreadInDb | praisonai/ui/chat.py:62-104 | the database method, with its step loop and upsert loop, has exactly that effect |
| Storage.LoadedStep | praisonai/ui/chat.py:117-124 | definition: the step dictionary with every column of its row under its key |
| Storage.AsLoaded | praisonai/ui/chat.py:117-124 | derived steps read back as dictionaries, one per step and in the same order |
| Storage.LoadSucceeds | praisonai/ui/chat.py:109-113 | definition: loading needs the `threads` table, and the `steps` table only when there is a thread row to query it for |
| Storage.SelectSteps | praisonai/ui/chat.py:113-124 | the selected step dictionaries list, once each, exactly the stored steps whose `threadId` is the thread's id, with every column read back |
| Storage.LoadThread | praisonai/ui/chat.py:112-132 | the record for a thread row carries its columns, no `metadata` or `tags`, and exactly its steps |
| Storage.LoadedSoFarStep | praisonai/ui/chat.py:112-132 | loading one more thread row keeps the loop's promise: ids distinct, each record loaded from its own row, every finished row represented |
| Storage.LoadAll | praisonai/ui/chat.py:112-132 | the loop over thread rows yields one record per row, ids distinct, each with its columns and exactly its steps |
| Storage.Database.LoadThreads | praisonai/ui/chat.py:106-134 | the load yields one record per thread row, ids distinct, each with exactly its steps; it fails only for a missing `threads` table, or a missing `steps` table when there are thread rows |
| Registry.FindThread | praisonai/ui/chat.py:157 | the index found is the first registry entry with that id; none exactly when no entry has it |
| Registry.FindOwner | praisonai/ui/chat.py:200-202 | a step without `threadId` belongs to no entry; otherwise it belongs to the first entry with that id |
| Registry.Visible | praisonai/ui/chat.py:213 | every listed entry is from the registry and not soft-deleted; every registry entry not soft-deleted is listed |
| Registry.VisibleAppend | praisonai/ui/chat.py:213 | listing distributes over concatenation, so the listing keeps registry order |
| Registry.DeleteHidesOnlyThatId | praisonai/ui/chat.py:213-224 | soft-deleting one more id removes exactly the entries with that id from the listing and keeps the rest in order |
| Registry.DataLayer.Startup | praisonai/ui/chat.py:136-140 | at start-up the schema is created, the registry is a full load of storage, the delete list is empty and the counter is 0 |
| Registry.DataLayer.UpdateThread | praisonai/ui/chat.py:149-193 | on a known id only truthy name/metadata/tags overwrite the first matching entry; other fields and entries and the registry length are unchanged. The entry is then written as `update_thread_in_db` does, and on success the session receives its history and id. On an unknown id the registry grows by one entry with `userIdentifier` "admin", empty steps and the first timestamp; the thread is upserted with the second timestamp and no steps |
| Registry.DataLayer.CreateStep | praisonai/ui/chat.py:195-204 | the counter rises by exactly 1 on every call; the step is appended to the first entry whose id is its `threadId`; nothing else changes |
| Registry.DataLayer.GetThreadAuthor | praisonai/ui/chat.py:206-207 | the author is "admin" for every thread id |
| Registry.DataLayer.ListThreads | praisonai/ui/chat.py:209-217 | the listing holds, in registry order, exactly the entries whose id is not soft-deleted; `hasNextPage` is false and both cursors are absent |
| Registry.DataLayer.GetThread | praisonai/ui/chat.py:219-221 | the fetch reads storage afresh: it finds a thread exactly when storage has its row, and returns it with its columns and exactly its steps. It ignores the registry and the delete list, and fails only when loading fails |
| Registry.DataLayer.DeleteThread | praisonai/ui/chat.py:223-224 | a delete only appends the id to the delete list; the listing loses exactly the entries with that id; storage is untouched |
| Registry.SoftDeleteScenario | praisonai/ui/chat.py:209-224 | after deleting a stored thread it is no longer listed, yet fetching it still returns it |
| Resume.RestoredTurn | praisonai/ui/chat.py:300-306 | a `user_message` or `assistant_message` step restores one turn with that role and content `output` (or "" when missing); any other tag, or none, restores nothing |
| Resume.Reconstruct | praisonai/ui/chat.py:299-308 | restored turns are never more than the steps, each with role user or assistant and no timestamp |
| Resume.ReconstructAppend | praisonai/ui/chat.py:299-308 | reconstruction distributes over concatenation: turns are restored in step order, and a step with an unknown tag adds nothing |
| Resume.OnChatResume | praisonai/ui/chat.py:292-308 | the session history is the prior history followed by the restored turns of the thread's steps; the session thread id is the thread's id |
| Resume.ReconstructTagged | praisonai/ui/chat.py:299-306 | when every step carries one of the two tags, the i-th restored turn comes from the i-th step |
| Resume.ResumeAfterDerive | praisonai/ui/chat.py:299-308 | reconstructing the steps derived at lines 76-94 gives back the zip-interleaved turns of the history, with role and content intact |
| Resume.ResumeRoundTrip | praisonai/ui/chat.py:299-308 | a history that alternates user, assistant, … with even length comes back from derivation and resume with the same roles and contents |

## Left out

- The Chainlit handlers `start`, `setup_agent` and `send_count`, and the settings form. They are UI wiring.
- `main`: the streaming `litellm.acompletion` call is a network call with asynchronous token iteration.
- `auth_callback` (its condition is always true), and `get_user` / `create_user`. These only construct foreign `cl.PersistedUser` and `cl.User` objects.
- `cl.user_session.set`: its effects are returned as a `Session` value. `on_chat_resume` sets `message_history` only inside its loop, so a thread without steps leaves the key unset; `Session.history` stands for `get("message_history", [])`, which is the prior history in that case.
- SQLite connections, cursors, `commit`, `close` and `print` logging. The tables are maps. Commit-or-nothing is modelled by writing the new tables only at the commit point.
- `utc_now()` and `now`: timestamps are opaque strings passed in (`now1`, `now2`).
- The `queue_until_user_message` batching of `create_step`, and all async scheduling and concurrency between sessions. They are framework behaviour; every call is modelled as atomic.
- Turns without a `role` or a `content` key. Their `KeyError` is not modelled: `Turn` always has both.
- An absent `metadata` key and an explicit `metadata=None` are both `None`. Both raise before anything is committed, and both are reported as `MissingMetadata`.
- SQL `NULL` in step columns is not modelled. Thread `name` and `userId` may be missing, and every other column is a string.
- Metadata keys other than `message_history` are kept only by name, because only their presence matters (truthiness).
- Aliasing of dictionaries: registry entries are values written back in place. The step dictionaries that `create_step` shares with its caller are copied.
- Storage order: the order of `SELECT *` results is not modelled. So there is no lemma that a history read back *through storage* resumes in order. The resume round trip is stated on the derived steps, in derivation order.
