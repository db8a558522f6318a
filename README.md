# Feeds offline sync engine, in Dafny

This project models the offline synchronisation engine of the Feeds / trifle
Google Reader client, and proves properties of that model. The engine keeps
a local SQLite store in step with the server. It has three synchronizers:

- **Id** fetches the id lists of the `reading-list`, `unread` and `starred`
  views. Before any answer arrives it marks every row deletable and
  unflagged. Each answer then re-confirms and re-flags the ids it lists.
  It commits once all three views have answered.
- **Flags** posts the pending flag edits of the `flags` table to `edit-tag`.
  It sends at most 250 items per request and counts the requests in flight.
  It deletes a batch's pending rows only when that batch is acknowledged.
- **Items** first removes the rows marked `to_delete`, together with their
  content files. It then fetches the content of the rows marked `to_sync`,
  250 per request. It normalises every returned item with `process_item`
  and stores its metadata and content. It commits when the last batch is in.

It also models two helpers from `lightread/models/utils.py`:

- `split_chunks`: fixed-size tuples, with the last one padded.
- `api_method`: the JSON-output URL of a Reader API call.

Modules:

- `Wrappers` (`wrappers.dfy`): `Option` and `Result`.
- `Utils` (`utils.dfy`): `split_chunks`, `api_method`, and the
  `urlencode`/`quote_plus` and `urljoin` behaviour that `api_method` relies on.
- `Db` (`db.dfy`): the store.
  - `items` is a `map<int, Row>`.
  - `flags` is a `map<int, PendingEdit>`, keyed by the `id` column.
  - The content directory is a `map<int, string>`.
  - A snapshot of the tables records the last commit.
  - Each SQL statement the synchronizers run is a function giving its row
    effect.
  - `ListIds` lists a `SELECT id` result in ascending id order.
- `Normalize` (`normalize.dfy`): `process_item` and its inner `strip`, as
  pure functions over a parsed item. A missing key is `None`.
- `IdSync`, `FlagSync` and `ItemSync` (`id_sync.dfy`, `flag_sync.dfy`,
  `item_sync.dfy`): one class per synchronizer.
  - Fields are the counters and status the source mutates.
  - Methods are `sync` and the response callbacks, which a caller may
    invoke in any order. Each takes the HTTP status and the parsed payload
    as arguments.
  - Each method's result and new state are tied to pure specification
    functions. The lemmas beside them prove what those functions promise.

Three choices about the source's semantics:

- `sync_status` of `Items` is taken to be a GObject property. Every
  assignment to it notifies `notify::sync-status`. Every `post_sync` handler
  that `sync` has connected so far runs on that notification; `handlers`
  counts those connections.
- Methods return how many `sync-done` signals they emit.
- An exception is an error result: `gcOk` false, `raised`, or `Failure`.
  The method stops at the point where the source would stop.

## Model

| member | source | states |
|---|---|---|
| Utils.SplitChunks | lightread/models/utils.py:107-109 | every tuple has exactly `chunk_size` elements, the last one included |
| Utils.SplitChunksCount | lightread/models/utils.py:107-109 | for n > 0 there are exactly ceil(L/n) tuples (none for empty input); for n <= 0 there are none |
| Utils.SplitChunksFlatten | lightread/models/utils.py:107-109 | joining the tuples gives the input in order followed by n·ceil(L/n) − L copies of the fill value |
| Utils.SplitChunksHeads | lightread/models/utils.py:107-109 | every tuple starts with an input element, so no tuple is padding only |
| Utils.SplitChunksElems | lightread/models/utils.py:107-109 | every element of a tuple is an input element or the fill value |
| Utils.QuotePlus | lightread/models/utils.py:77 | an encoded key or value never contains `&` or `=`, and a string of always-safe characters is left unchanged |
| Utils.UrlEncodeFields | lightread/models/utils.py:77 | splitting an encoded query at `&` gives back each pair's `key=value` encoding, in the given order |
| Utils.ApiMethod | lightread/models/utils.py:66-77 | the URL starts with the base URL joined with the path and then `?` |
| Utils.ApiMethodQuery | lightread/models/utils.py:66-77 | the URL is the base URL joined with the path, then `?`, then a query listing the caller's arguments in order with `output=json` last |
| Utils.ApiMethodNoArgs | lightread/models/utils.py:66-77 | with no arguments the URL is the base URL joined with the path followed by `?output=json` |
| Db.Store.Commit | trifle/models/synchronizers.py:81 | the current tables become the committed ones; nothing else changes |
| Db.DeleteMarked | trifle/models/synchronizers.py:204 | exactly the rows marked `to_delete` are removed; every remaining row is unchanged and unmarked |
| Db.SortedIds | trifle/models/synchronizers.py:160-161 | a SELECT of ids lists each id of the set exactly once, in ascending order |
| Db.ListIds | trifle/models/synchronizers.py:202-203 | fetching the ids of a SELECT yields that ascending listing |
| Normalize.StripTags | trifle/models/synchronizers.py:233 | removing `<.+?>` matches never makes the text longer |
| Normalize.StripTagsPlain | trifle/models/synchronizers.py:233 | text without `<` is left unchanged by the tag remover |
| Normalize.StripTagsPrefix | trifle/models/synchronizers.py:233 | a prefix without `<` is kept and removal resumes after it |
| Normalize.StripTagsNoClose | trifle/models/synchronizers.py:233 | text without `>` has no match, so every `<` in it is kept and the text is unchanged |
| Normalize.StripTagsCut | trifle/models/synchronizers.py:233 | a `<` whose span reaches a newline before a closing `>` starts no match: it is kept and removal resumes right after it |
| Normalize.StripTagsTag | trifle/models/synchronizers.py:235 | `<x>` is removed as one match when x is non-empty, has no newline and no `>` after its first character (non-greedy, `.` does not match a newline) |
| Normalize.TrimStart | trifle/models/synchronizers.py:233 | the result is a suffix of the input that does not start with whitespace, and every character removed before it is whitespace |
| Normalize.TrimEnd | trifle/models/synchronizers.py:233 | the result is a prefix of the input that does not end with whitespace, and every character removed after it is whitespace |
| Normalize.Trim | trifle/models/synchronizers.py:233 | `str.strip()` leaves text that neither starts nor ends with whitespace |
| Normalize.RemoveControls | trifle/models/synchronizers.py:234 | no tab, newline or carriage return remains, and the text never grows |
| Normalize.RemoveControlsCons | trifle/models/synchronizers.py:234 | a leading tab, newline or carriage return is dropped and any other leading character is kept in front of the rest's result, so every other character is kept in order |
| Normalize.RemoveControlsAppend | trifle/models/synchronizers.py:234 | deleting the controls of a concatenation is deleting them from each part and concatenating |
| Normalize.RemoveControlsPrefix | trifle/models/synchronizers.py:236 | a prefix without `\t\n\r` is kept and deletion resumes after it |
| Normalize.Strip | trifle/models/synchronizers.py:230-234 | falsy text is returned unchanged; otherwise the result is present, no longer than the input, free of `\t\n\r`, and neither starts nor ends with whitespace |
| Normalize.StripTagged | trifle/models/synchronizers.py:230-235 | `strip` removes a `<x>` tag (x non-empty, no newline, no `>` after its first character) as one match: the tagged text strips to what the rest strips to |
| Normalize.StripPlain | trifle/models/synchronizers.py:230-234 | text with no `<`, no `\t\n\r` and no surrounding whitespace comes out of `strip` unchanged |
| Normalize.Summarize | trifle/models/synchronizers.py:255-260 | the summary is at most 140 characters: the escaped excerpt when it fits, else its first 139 characters and `…` |
| Normalize.ProcessItem | trifle/models/synchronizers.py:217-262 | a missing `origin`, `streamId` or `timestampUsec` raises; a processed item's subscription is the origin's stream id and its summary is at most 140 characters |
| Normalize.PickTimeRule | trifle/models/synchronizers.py:244-246 | with `updated` present the time is min(timestampUsec, updated·10⁶); with it missing the item raises a missing-key error when timestampUsec ≥ −10⁶ and keeps timestampUsec otherwise |
| Normalize.ProcessItemTime | trifle/models/synchronizers.py:244-246 | `process_item` keeps that time rule and raises where it raises |
| Normalize.ProcessItemHref | trifle/models/synchronizers.py:248-251 | href is the first alternate link's; the origin's HTML URL is used only when a key is missing; an empty alternate list raises |
| Normalize.ProcessItemFields | trifle/models/synchronizers.py:238-262 | subscription is the origin's stream id; only a non-empty author and a non-empty stripped title are escaped, and a title that strips to empty is stored as empty; the summary column is the `Summarize` of the saved content (the escaped 512-character excerpt of its stripped text, cut to 139 characters and `…` when longer than 140), so at most 140 characters; the content is the summary's, else the content's, else empty |
| IdSync.Id.constructor | trifle/models/synchronizers.py:19-21 | a new synchronizer has an empty status dict |
| IdSync.Id.Sync | trifle/models/synchronizers.py:24-40 | while `synchronizing` is set, nothing is queued and no row changes; otherwise the flag is set, one request per view is queued, and every row is reset |
| IdSync.Id.QueueRequests | trifle/models/synchronizers.py:30-35 | one `stream/items/ids` request per view, in order, with the view's arguments followed by `n` = the cache limit |
| IdSync.Id.OnResponse | trifle/models/synchronizers.py:42-57 | a status outside 200..399 changes neither the table nor the status; otherwise the answer's row effect is applied, the view is marked done, and completion is reported exactly when all views are done |
| IdSync.Id.EnsureIds | trifle/models/synchronizers.py:59-66 | unknown ids get a default row, then every listed id has `to_delete` cleared |
| IdSync.Id.SetSyncFlag | trifle/models/synchronizers.py:68-71 | the table becomes the `set_sync_flag` effect of the references, in order |
| IdSync.Id.SetFlagColumn | trifle/models/synchronizers.py:73-75 | the `unread` or `starred` column is set for the listed ids |
| IdSync.Id.OnStatusChange | trifle/models/synchronizers.py:78-82 | commit and `sync-done` happen exactly when every key of `states` is marked true |
| IdSync.ResetAllEffect | trifle/models/synchronizers.py:39-40 | every row ends with to_delete=1, unread=0, starred=0, to_sync=0 and keeps its other columns |
| IdSync.SetSyncFlagEffect | trifle/models/synchronizers.py:69-71 | to_sync is set and update_time takes the new value exactly for the referenced row whose stored time is strictly less (never NULL); other rows are untouched; update_time never decreases |
| IdSync.SetSyncFlagsEffect | trifle/models/synchronizers.py:68-71 | over a whole answer a row's update_time becomes the largest of its stored value and the stamps sent for it; to_sync is set exactly when that is larger than the stored value; NULL rows and all other columns are untouched |
| IdSync.SetSyncFlagsKeeps | trifle/models/synchronizers.py:68-71 | `set_sync_flag` changes only to_sync and update_time, and only of referenced rows |
| IdSync.ApplyResponse | trifle/models/synchronizers.py:48-54 | a successful answer never removes a row |
| IdSync.SyncAndFlag | trifle/models/synchronizers.py:51-54 | raising the sync flags and the view's flag column neither adds nor removes a row |
| IdSync.EnsuredRows | trifle/models/synchronizers.py:59-66 | after `ensure_ids` the rows are the known ids plus the returned ones; a returned id is unmarked, a new row takes the default flags, and known rows keep their metadata, and their whole row when not returned |
| IdSync.FlaggedRows | trifle/models/synchronizers.py:51-54 | raising the flags keeps every row's metadata and to_delete; `unread`/`starred` become set for returned ids exactly when the view is that flag; unreturned rows are untouched |
| IdSync.ApplyResponseEffect | trifle/models/synchronizers.py:48-54 | every returned id has a row with to_delete cleared; unlisted rows are untouched; listed rows keep their metadata; unread/starred are set for the listed ids only on the matching view and never cleared |
| IdSync.ApplyResponsesEffect | trifle/models/synchronizers.py:42-75 | any run of successful answers: the rows are the known ids plus all listed ones, with to_delete, unread and starred given by which answers listed them |
| IdSync.CycleOutcome | trifle/models/synchronizers.py:36-57 | after the reset and any run of answers, a row is marked for deletion exactly when no answer listed it, and is unread (starred) exactly when an `unread` (`starred`) answer listed it, or when it is new and the schema default sets the flag |
| FlagSync.Product | trifle/models/synchronizers.py:103 | the combinations are each flag in order, with remove true and then false: twice as many as flags, every pair present |
| FlagSync.Sent | trifle/models/synchronizers.py:111 | filtering out the padding never lengthens a chunk |
| FlagSync.SentMembers | trifle/models/synchronizers.py:111 | the rows sent are rows of the chunk, and a chunk that starts with a row sends at least one |
| FlagSync.Selected | trifle/models/synchronizers.py:101-104 | the selected rows of a combination are pending edits of the table |
| FlagSync.Planned | trifle/models/synchronizers.py:103-118 | every request of a round goes to the `edit-tag` URL |
| FlagSync.Flags.constructor | trifle/models/synchronizers.py:90-92 | no batch is in flight initially |
| FlagSync.Flags.Sync | trifle/models/synchronizers.py:94-123 | refused while the counter is positive; otherwise it queues the planned batches, and the counter equals their number, the sum of ceil(kᵢ/250); `sync-done` fires at once exactly when none was queued |
| FlagSync.Flags.QueueAll | trifle/models/synchronizers.py:103-118 | the combinations are walked in order, each adding its batches and one count per batch |
| FlagSync.Flags.QueueCombo | trifle/models/synchronizers.py:104-118 | a combination's rows are selected and its batches queued, each counted |
| FlagSync.Flags.QueueBatches | trifle/models/synchronizers.py:110-118 | one request per chunk, in order, each counted |
| FlagSync.Flags.OnResponse | trifle/models/synchronizers.py:125-139 | the counter drops by exactly one and `sync-done` fires when it reaches 0, even on failure; only success deletes that batch's rows; commit only on a success that brings the counter to 0 |
| FlagSync.PlannedStep | trifle/models/synchronizers.py:103-106 | each combination appends its batches, and one with no pending edits adds none |
| FlagSync.ComboCount | trifle/models/synchronizers.py:104-110 | a combination with k pending edits yields ceil(k/250) batches |
| FlagSync.PlannedCount | trifle/models/synchronizers.py:103-118 | the number of queued requests is the sum of ceil(kᵢ/250) over the combinations |
| FlagSync.PlannedEmpty | trifle/models/synchronizers.py:103-123 | nothing is queued exactly when no combination has a pending edit |
| FlagSync.BatchShape | trifle/models/synchronizers.py:108-117 | a request carries 1 to 250 ids of pending edits of its flag and direction, then the action (`r` if remove, `a` otherwise) on the flag, then the edit token |
| FlagSync.ComboShape | trifle/models/synchronizers.py:101-117 | every batch of a combination has that shape: the `None` padding is never sent |
| FlagSync.ComboCover | trifle/models/synchronizers.py:101-117 | the batches of a combination settle exactly its pending edits, each once, in SELECT order |
| FlagSync.AcknowledgeEffect | trifle/models/synchronizers.py:136-137 | acknowledging batches deletes exactly the flag rows they carry; every other pending row remains |
| FlagSync.PlannedSettles | trifle/models/synchronizers.py:103-117 | a row is settled by some batch exactly when its flag and direction are one of the combinations |
| FlagSync.RoundDrains | trifle/models/synchronizers.py:94-139 | when every batch of a round is acknowledged, exactly the pending edits of the walked flags are gone; edits of any other flag remain |
| ItemSync.IdFields | trifle/models/synchronizers.py:167 | one `('i', id)` field per id, in order |
| ItemSync.Evict | trifle/models/synchronizers.py:205-214 | collecting garbage never touches the file of an id that is not collected |
| ItemSync.EvictOutcome | trifle/models/synchronizers.py:205-214 | collection of distinct ids runs to its end exactly when every id has a content file, touches no other file, and then leaves none of theirs |
| ItemSync.EvictStop | trifle/models/synchronizers.py:205-214 | when collection stops early it stopped at an id without a file: earlier ids lost theirs, that id is left with an empty file, later ids keep theirs |
| ItemSync.EvictSet | trifle/models/synchronizers.py:205-214 | for any distinct listing of a set of ids, collection completes exactly when all have files, and then removes exactly those |
| ItemSync.GarbageOutcome | trifle/models/synchronizers.py:200-214 | `dump_garbage` completes exactly when every row marked `to_delete` had a content file, and then exactly those files are gone |
| ItemSync.ApplyItems | trifle/models/synchronizers.py:183-191 | storing a response never adds or removes rows and never removes a content file |
| ItemSync.ApplyItemsEffect | trifle/models/synchronizers.py:183-191 | rows and files the response does not name are unchanged; when no item raises, every item has an id, processes, and has its content saved |
| ItemSync.ApplyItemsLast | trifle/models/synchronizers.py:183-191 | when no item raises, the last item naming a short id decides it: its content is the saved file and its metadata are the row's metadata columns |
| ItemSync.ApplyItemsStep | trifle/models/synchronizers.py:183-191 | an item that processes is stored first, and the rest of the response is stored on top of it |
| ItemSync.ApplyItemsShift | trifle/models/synchronizers.py:183-191 | storing the first item keeps a later item the last to name its short id, and leaves that id's row to be decided by the later item's metadata |
| ItemSync.ApplyItemsLastHead | trifle/models/synchronizers.py:183-191 | an item that no later item overrides keeps its content as the saved file and its metadata in the row |
| ItemSync.Items.constructor | trifle/models/synchronizers.py:144-146 | no batch in flight and no handler connected initially |
| ItemSync.Items.SetCounter | trifle/models/synchronizers.py:175 | assigning the counter runs every connected `post_sync`: one commit and one `sync-done` per handler when the value is 0, nothing otherwise |
| ItemSync.Items.PostSync | trifle/models/synchronizers.py:194-198 | commits and emits `sync-done` exactly when the counter is 0 |
| ItemSync.Items.SaveContent | trifle/models/synchronizers.py:208-214 | `None` removes an existing file; `None` for a missing file leaves an empty file and fails; a text (re)writes the file |
| ItemSync.Items.DumpGarbage | trifle/models/synchronizers.py:200-206 | the marked rows are deleted, then their files are removed in id order, stopping at the first id without one |
| ItemSync.Items.RemoveFiles | trifle/models/synchronizers.py:205-214 | the files of the ids are removed in order as `Evict` describes, stopping at the first missing one; the tables are untouched |
| ItemSync.Items.Sync | trifle/models/synchronizers.py:148-175 | refused while batches are in flight; otherwise garbage is collected, then the `to_sync` ids are requested in batches, with the counter equal to ceil(n/250); with n = 0 `post_sync` runs at once and commits; a refused call commits nothing; otherwise the only commit is the one the counter reset makes before garbage collection, when a handler is connected |
| ItemSync.Items.CollectAndQueue | trifle/models/synchronizers.py:148-175 | garbage is collected; if it completes, one counted request per 250 `to_sync` ids is queued, or with none `post_sync` commits once; a failed collection queues nothing and commits nothing |
| ItemSync.Items.QueueBatches | trifle/models/synchronizers.py:167-174 | one request per chunk of 250 fields, each counted |
| ItemSync.Items.ProcessResponse | trifle/models/synchronizers.py:177-192 | a status in 200..399 stores the items in turn; the counter drops by exactly one whether the status succeeds or fails, unless an item raises; nothing is committed unless a handler emits `sync-done` |
| ItemSync.ContentBatches | trifle/models/synchronizers.py:167-174 | n ids give ceil(n/250) requests of exactly 250 fields; joined they are one `i` field per id, in order, then `('', '')` padding |

## Left out

- HTTP, JSON decoding, authentication and logging are not modelled. A response is its status code and its already-parsed payload. The edit token is a parameter of `Flags.Sync`. A missing `itemRefs` or `items` key in a payload is not modelled.
- `utils.escape` and `utils.short_id` come from `trifle.models.utils`, which is not part of this model. They are uninterpreted function parameters of `Items`.
- `utils.urlencode` of trifle is not part of this model either. Request bodies are therefore kept as their (key, value) field lists, and item ids are rendered as decimal strings.
- Utils.ApiMethod: a `dict` of arguments (the `.items()` branch) is not modelled, because every caller passes a list. `urljoin` is modelled only for paths of plain relative segments, which is what every caller passes.
- SQL `SELECT` without `ORDER BY` is taken to return rows in ascending id order.
- Python dictionaries iterate in insertion order. So the views are walked as `reading-list`, `unread`, `starred`, and the flags as `read`, `kept-unread`, `starred`.
- Float arithmetic is not modelled. The `1E6` products of `process_item` are integer products by 1 000 000, without float rounding or a float-typed `time`.
- `int(item['timestampUsec'])` of a string is not modelled. `timestampUsec` and `updated` arrive as integers, and a JSON `null` field is not distinguished from a missing one.
- Content files are keyed by item id. Paths, `content_dir` and real file I/O are not modelled.
- Callbacks run as method calls in any order on one thread. Event-loop concurrency is not modelled.
- Normalize.StripTags: its own contract states only the length bound. Its behaviour is stated case by case in lemmas rather than against an independent regular-expression semantics. StripTagsPlain and StripTagsNoClose cover text with no `<` or no `>`. StripTagsPrefix covers a kept prefix, StripTagsTag a removed tag, and StripTagsCut a `<` cut off by a newline. A text mixing these cases is covered only by chaining the lemmas.
- The GUI, the login and keyring code, and the icon and `unescape` helpers are outside the sync engine and are not modelled.
