# everpad sync engine in Dafny

This project models the synchronisation engine of everpad. everpad is an
Evernote client that keeps a local SQLite database of notes, notebooks,
tags and resources in step with the user's Evernote account. The model
covers three parts:

- the per-note push and pull rules of `PushNote` and `PullNote`, including
  sharing (`everpad/provider/sync/note.py`);
- the sync thread that runs one cycle after another
  (`everpad/provider/sync/agent.py`);
- the enumerations both use (`everpad/const.py`).

The model is built from these files, each holding one module:

- `const.dfy` (`Const`): the ACTION_*, SHARE_*, STATUS_* and SYNC_STATE_*
  enumerations with their stored codes. It also holds the timer constants
  and the Evernote limits: title at most 255 and content at most 5242880.
- `wrappers.dfy` (`Wrappers`): `Option`.
- `text.dfy` (`Text`): Python's slice-truncation, `str.strip()` over
  Python's whitespace set, and `binascii.b2a_hex`.
- `remote.dfy` (`Remote`): how a remote call ends, as `Outcome`. It is a
  value, or one of EDAMUserException, EDAMSystemException with
  RATE_LIMIT_REACHED and its duration, any other EDAMSystemException, or
  socket.error. The module also holds the note, resource and note-list
  records exchanged with the note store.
- `store.dfy` (`LocalStore`): the Note, Resource and Sync rows, and the
  session that holds the note and resource tables.
- `sharing.dfy` (`Sharing`): `_share_note`, `_stop_sharing_note` and the
  decision of `_check_sharing_information`.
- `push.dfy` (`NotePush`): `_create_ttype`, `_prepare_content`,
  `_prepare_resources`, the CREATE/CHANGE/DELETE branches, and the
  `PushNote.push` loop. The loop is a class over the session; its method is
  proved equal to a fold over the selected notes.
- `pull.dfy` (`NotePull`): the paged `_get_all_notes` loop, `.one()`
  lookups, `_update_note`/`_create_note`/`_create_conflict`,
  `_receive_resources`, `_remove_resources`, `_remove_notes` under SQL's
  three-valued logic, and the `PullNote.pull` loop.
- `agent.dfy` (`Agent`): the `SyncThread` class with `_init_sync`,
  `update_timer`, `sync`, `force_sync`, `_need_to_update`, `perform`,
  `remote_changes` and `local_changes`.

Remote calls are parameters. They are functions from the note id or guid
(for getResourceData, the resource guid) to an `Outcome`, or for findNotes a function from the offset to a page.
The clock is a `now` parameter in milliseconds. An exception that leaves
a loop is modelled by an `escaped` flag: the loop stops, and the rows keep
what was done before.

## Model

| member | source | states |
|---|---|---|
| Text.Truncate | everpad/provider/sync/note.py:87 | `s[:n]` keeps the first `min(n, len(s))` characters. |
| Text.StripLeft | everpad/provider/sync/note.py:121-126 | The result is a suffix of the input. Everything cut is whitespace, and the result does not start with whitespace. |
| Text.StripRight | everpad/provider/sync/note.py:121-126 | The result is a prefix of the input. Everything cut is whitespace, and the result does not end with whitespace. |
| Text.Strip | everpad/provider/sync/note.py:87 | `strip()` never lengthens its input, and a non-empty result starts and ends with a non-whitespace character. |
| Text.StripFramed | everpad/provider/sync/note.py:121-126 | Stripping whitespace padding around a core that starts and ends with non-whitespace gives back exactly that core. |
| Text.StripAllSpace | everpad/provider/sync/note.py:87 | A title made only of whitespace strips to the empty string. |
| Text.StripLeftFramed | everpad/provider/sync/note.py:121-126 | Stripping leading whitespace before a non-whitespace start returns the rest unchanged. |
| Text.StripRightFramed | everpad/provider/sync/note.py:121-126 | Stripping trailing whitespace after a non-whitespace end returns the body unchanged. |
| Text.Hex | everpad/provider/sync/note.py:451-453 | `b2a_hex` yields two hex digits per byte. |
| Text.UnhexHex | everpad/provider/sync/note.py:451-453 | `b2a_hex` loses nothing: decoding its output gives back the hash bytes. |
| Text.HexInjective | everpad/provider/sync/note.py:451-453 | Comparing the stored hex hash with `b2a_hex(bodyHash)` is the same as comparing the hashes. |
| LocalStore.RecordRateLimit | everpad/provider/sync/agent.py:202-207 | A rate limit records its duration and its end time (now plus the duration in ms) and changes no other Sync field. |
| Sharing.StopSharing | everpad/provider/sync/note.py:46-51 | Stopping sharing sets the status to NONE and clears the share date and url; no other field changes. |
| Sharing.ShareCalls | everpad/provider/sync/note.py:27-37 | shareNote runs first and getUser (the shard) only after it answered. The url `https://www.evernote.com/shard/{shard}/sh/{guid}/{key}` is formed exactly when both answer; otherwise the first exception raised is the outcome. |
| Sharing.ShareNote | everpad/provider/sync/note.py:27-44 | When shareNote and getUser both answer, the note becomes SHARED, with the given date or else now, and gets the url. A user error from either call sets the status to NONE and keeps the date and url, even when the share key was already obtained. Any other error from either call escapes and leaves the note unchanged. Only share fields change. |
| Sharing.SharingDecision | everpad/provider/sync/note.py:488-502 | Sharing stops exactly when the remote share date is falsy (absent or 0) and the status is SHARED or NEED_STOP. The note is re-shared exactly when the remote date differs from the local one and either the status is NONE, or the status is SHARED and the remote date is truthy (present and non-zero). A SHARED note whose remote date is absent is stopped, not re-shared. Both directions are stated. |
| Sharing.PendingRequestsSurvivePull | everpad/provider/sync/note.py:488-502 | A pull never touches a NEED_SHARE request and never re-shares a NEED_STOP note. |
| Sharing.CheckSharing | everpad/provider/sync/note.py:488-502 | `_check_sharing_information` carries out the decision: stop, share with the remote date, or leave the note. It changes only the share fields. |
| Sharing.SharingSettles | everpad/provider/sync/note.py:488-502 | After a share whose shareNote and getUser calls both answered, the same remote share date asks for nothing more. This holds when the remote date is truthy, and when it is absent unless the note is NONE with a stale share date. It is not claimed for a remote date of 0, where the source never settles (see the next row). |
| Sharing.ZeroShareDateAlternates | everpad/provider/sync/note.py:488-502 | A remote share date of 0 makes an unshared note shared with now as its date (`share_date or now` at note.py:38). The next pull with the same date stops sharing it, which brings it back to where it started, so the note alternates on every pull. |
| NotePush.TemplateFrames | everpad/provider/sync/note.py:121-123 | The ENML template is whitespace, then the DOCTYPE and `<en-note>` envelope, then whitespace. |
| NotePush.PaddingIsSpace | everpad/provider/sync/note.py:121-123 | The newlines and indentation around the envelope are all whitespace. |
| NotePush.EnvelopeEnds | everpad/provider/sync/note.py:121-123 | The envelope starts with `<` and ends with `>`. |
| NotePush.StripTemplate | everpad/provider/sync/note.py:121-126 | Stripping the filled template leaves exactly the DOCTYPE line and `<en-note>body</en-note>`. |
| NotePush.PrepareContent | everpad/provider/sync/note.py:119-132 | The content sent is the content truncated to 5242880 characters, sanitised, wrapped in the envelope and re-serialised. |
| NotePush.PrepareResources | everpad/provider/sync/note.py:103-117 | Push never sends more resources than the table holds. |
| NotePush.PrepareResourcesSendsLive | everpad/provider/sync/note.py:103-117 | Exactly the note's own resources not marked DELETE are sent, each with the note's guid, mime and file name. Both directions are stated. |
| NotePush.CreateTtype | everpad/provider/sync/note.py:84-101 | The title is cut to 255 characters, then stripped: it is at most 255 long and neither starts nor ends with whitespace. The guid is sent only when the local guid is non-empty. The notebook is sent only when set. The tags, content and resources are the prepared ones. |
| NotePush.TitleSentAsIs | everpad/provider/sync/note.py:87 | A title of at most 255 characters with no surrounding whitespace is sent unchanged. |
| NotePush.Dispatch | everpad/provider/sync/note.py:134-177 | CREATE: the action ends NONE on every outcome, and the guid changes only on success; non-user errors escape. CHANGE: the action ends NONE; a rate limit is recorded; only a socket error escapes. DELETE: the row goes on every outcome; a rate limit is recorded; only a socket error escapes. Other actions make no call. |
| NotePush.DispatchSettles | everpad/provider/sync/note.py:134-177 | Dispatch keeps the note id. It removes the row exactly for DELETE and leaves no CREATE, CHANGE or DELETE pending. |
| NotePush.SharePending | everpad/provider/sync/note.py:77-80 | NEED_SHARE shares the note with now as the date. NEED_STOP stops sharing. Unless an exception escapes, no sharing request is left. |
| NotePush.HandleNote | everpad/provider/sync/note.py:68-80 | Each selected note keeps its id. It is gone exactly when it was DELETE, and nothing stays pending on it. Unless something escaped, no sharing request remains either. |
| NotePush.PushHandlerGood | everpad/provider/sync/note.py:68-80 | The loop body built from `_create_ttype` and the branches handles every selected note this way. |
| NotePush.PushOne | everpad/provider/sync/note.py:62-80 | A note outside the query is kept as it is. A selected note is visited, and is replaced by what the body left of it. |
| NotePush.PushFrom | everpad/provider/sync/note.py:60-82 | The push loop. The visited ids, the kept notes and the calls only grow, with at most one visit per note. Once an exception has escaped, nothing more is visited and the remaining notes are kept as they are. |
| NotePush.PushAll | everpad/provider/sync/note.py:60-82 | A push over the whole note table visits at most one note per row. |
| NotePush.PushFromStep | everpad/provider/sync/note.py:60-82 | The loop is one note's step followed by the loop over the rest. |
| NotePush.EscapedStays | everpad/provider/sync/note.py:60-82 | Once an exception has escaped, every later note stays as it is. |
| NotePush.PushVisitsPushable | everpad/provider/sync/note.py:62-66 | A push that completes visits exactly the notes whose action is not NONE, NOEXSIST or CONFLICT, in table order. |
| NotePush.PushOneIds | everpad/provider/sync/note.py:70-75 | One step keeps the note's id in the table unless the note was DELETE. |
| NotePush.PushRemovesDeleted | everpad/provider/sync/note.py:164-177 | After a completed push the table holds exactly the ids of the notes not marked DELETE, in order. |
| NotePush.PushSettlesNotes | everpad/provider/sync/note.py:134-177 | After a completed push no note is CREATE, CHANGE or DELETE, and none asks to be shared or unshared. |
| NotePush.PushKeepsUnselected | everpad/provider/sync/note.py:62-66 | NONE, NOEXSIST and CONFLICT notes come through the push unchanged. |
| NotePush.PushLoop | everpad/provider/sync/note.py:60-82 | The `for` loop with its early exit computes the fold over the notes. |
| NotePush.PushNote.Push | everpad/provider/sync/note.py:60-82 | `push()` leaves the note table, the Sync row, the visited notes and the calls as the fold says. The resource table and ids are untouched. |
| NotePull.Offsets | everpad/provider/sync/note.py:261-284 | The offsets findNotes is asked for start at the first offset. |
| NotePull.OffsetsAfter | everpad/provider/sync/note.py:261-284 | After the offsets already asked for, the loop asks for the current offset, then, when more notes remain, those after its page. |
| NotePull.OffsetsRecurrence | everpad/provider/sync/note.py:280-284 | Each offset is the previous page's `startIndex + len(notes)`. Every page but the last reports more notes to come; the last does not. |
| NotePull.GetAllNotes | everpad/provider/sync/note.py:225-285 | The `while True` loop asks for exactly those offsets and yields the notes of those pages, in order. |
| NotePull.ServerPaged | everpad/provider/sync/note.py:261-284 | A server that serves its notes in pages of a positive size lets the loop end. |
| NotePull.ServerYieldsAll | everpad/provider/sync/note.py:261-284 | Against such a server the loop yields every note exactly once, in order. |
| NotePull.PagesOfHundred | everpad/provider/sync/note.py:261-284 | With 250 notes and pages of 100, the loop asks for offsets 0, 100 and 200. |
| NotePull.FindOne | everpad/provider/sync/note.py:376-378 | `.one()`: no row matches (NoResultFound), or exactly one row matches and it is returned, or several match. Each case is stated both ways. |
| NotePull.UpdateNote | everpad/provider/sync/note.py:373-406 | A row not older than the remote is left alone. An older CHANGE row is kept, and a conflict copy is made with an empty guid, action CONFLICT and the row as parent. Any other older row takes the remote fields and keeps its id, action, share fields and parent. |
| NotePull.UpdateSettles | everpad/provider/sync/note.py:388-393 | Pulling the same remote note again leaves an updated row alone. |
| NotePull.PlaceNote | everpad/provider/sync/note.py:201-204 | Several rows with the guid make the pull escape with nothing changed. Otherwise the placed row exists. |
| NotePull.PlaceNew | everpad/provider/sync/note.py:339-365 | An unknown guid appends one row with the next id and the remote fields. |
| NotePull.PlaceUpdate | everpad/provider/sync/note.py:373-396 | A unique row that is not both CHANGE and older than the remote becomes what `_update_note` makes of it, and no row is added. |
| NotePull.PlaceNoteRows | everpad/provider/sync/note.py:195-204 | When getNote answers with the guid asked for, existing rows keep their id and guid, at most one row (with the next id) is added, the placed row is the only row with the guid, a conflict copy has an empty guid, and note ids stay distinct. |
| NotePull.PlaceConflict | everpad/provider/sync/note.py:398-406 | A locally changed, older row stays as it is, and exactly one conflict copy is appended after it. |
| NotePull.ReceiveOne | everpad/provider/sync/note.py:445-469 | Several resource rows sharing the guid make the pull escape. When getResourceData answers, that is the only way it escapes. Whenever it escapes, the table and the ids collected stay as they were. |
| NotePull.ReceiveOneEscapes | everpad/provider/sync/note.py:445-469 | The pull escapes exactly when several rows share the guid, or when the body must be downloaded (no row holds the guid with the remote hash) and getResourceData (note.py:324-325) answers with an error. Neither call is caught. |
| NotePull.ReceiveOneDownloads | everpad/provider/sync/note.py:451-465 | The body is downloaded exactly when no row already holds the guid with the remote hash. Afterwards such a row exists and its id is the one collected. |
| NotePull.ReceiveTwiceDownloadsOnce | everpad/provider/sync/note.py:451-456 | Receiving the same resource a second time downloads nothing. |
| NotePull.ReceiveFrom | everpad/provider/sync/note.py:445-469 | The loop over the remote resources, stopping at the first escape. An escaped state is left as it is, the ids collected only grow, by at most one per resource, and no resource row is removed. |
| NotePull.ReceiveOneFrame | everpad/provider/sync/note.py:445-469 | Receiving one resource leaves the rows of other guids unchanged, keeps every row's guid and id, only appends, and collects exactly one more id. |
| NotePull.ReceiveFromFrame | everpad/provider/sync/note.py:445-469 | Receiving a list of resources keeps every row's guid and id, leaves the rows of guids not received unchanged, and extends the ids collected. |
| NotePull.ReceiveHoldsFirst | everpad/provider/sync/note.py:445-469 | The first resource received still has a row with its guid and a collected id at the end, holding its hash unless a later resource shares the guid. |
| NotePull.ReceiveCollectsEveryId | everpad/provider/sync/note.py:431-471 | A completed `_receive_resources` collects one id per remote resource. Every remote resource has a row with its guid whose id was collected, so `_remove_resources` keeps it. The row of the last resource with a given guid holds that resource's hash. |
| NotePull.KeepResources | everpad/provider/sync/note.py:476-482 | Exactly the resources of other notes and those whose id was collected survive. |
| NotePull.RemoveFilter | everpad/provider/sync/note.py:410-421 | The SQL filter of `_remove_notes`. It is false for a NOEXSIST, CREATE, CHANGE or CONFLICT row. With nothing seen it is just "not one of those actions". It is UNKNOWN exactly for an unprotected row whose id was seen and whose conflict parent is NULL, so such a row is not deleted. |
| NotePull.RemovedExactly | everpad/provider/sync/note.py:410-421 | Under SQL NULL semantics, a note is deleted exactly when its action is not NOEXSIST, CREATE, CHANGE or CONFLICT, and either nothing was seen, or its id was not seen, or its conflict parent is set and was not seen. |
| NotePull.RemainingNotes | everpad/provider/sync/note.py:410-424 | The rows that survive `_remove_notes` are exactly those the filter does not select. |
| NotePull.RemoveNotesRules | everpad/provider/sync/note.py:410-421 | Local pending rows always survive. An unseen row without a pending action goes. With nothing seen, exactly the pending rows survive. A seen row without a conflict parent stays. |
| NotePull.PullOne | everpad/provider/sync/note.py:195-217 | One iteration of `pull()`. It records at most one seen id, and exactly one unless an exception escaped. It adds at most one note row: the new row or the conflict copy. |
| NotePull.PullFrom | everpad/provider/sync/note.py:195-217 | The `for` loop of `pull()`, stopping at the first escape. An escaped state is kept. The seen ids only grow, by at most one per remote note, and the note table grows by at most one row per note. |
| NotePull.PullSeesEveryNote | everpad/provider/sync/note.py:195-207 | A pull that completes records one seen id per remote note. |
| NotePull.PullOneSeen | everpad/provider/sync/note.py:195-207 | One pull step appends to the seen ids exactly the id of the row it placed, unless the lookup escaped. That row keeps its id and guid through sharing and resources, and no other note row changes. |
| NotePull.PullOneTracks | everpad/provider/sync/note.py:195-207 | When the seen ids are exactly those of the rows whose guid was already pulled, they stay so after one more note is pulled, and note ids stay distinct. |
| NotePull.PullFromTracks | everpad/provider/sync/note.py:195-217 | After a completed pull, a row's id is among the seen ids exactly when its guid is one of the pulled guids (given that getNote answers with the guid asked for). |
| NotePull.PulledNotesSurvive | everpad/provider/sync/note.py:195-217 | After a completed pull and `_remove_notes`, a row whose guid was pulled and that has no conflict parent survives. A row with action NONE whose guid was not pulled is removed. |
| NotePull.PullWithoutResourcesKeepsThem | everpad/provider/sync/note.py:213-217 | A remote note without resources deletes none of the local note's resources, because `_remove_resources` runs only when some id was collected. |
| NotePull.PullOneTouchesOneRow | everpad/provider/sync/note.py:195-217 | One pulled note changes no row but its own, and adds at most one row. |
| NotePull.PullNote.ReceiveResources | everpad/provider/sync/note.py:431-471 | The loop computes `_receive_resources` as the fold says and changes only the resource rows. |
| NotePull.PullNote.ReceiveResource | everpad/provider/sync/note.py:446-469 | One iteration of the loop in `_receive_resources` changes the session and the collected ids as ReceiveOne says, and no note row. |
| NotePull.PullNote.RemoveResources | everpad/provider/sync/note.py:476-482 | The resource table becomes exactly the kept resources. |
| NotePull.PullNote.RemoveNotes | everpad/provider/sync/note.py:410-424 | The note table becomes exactly the remaining notes. |
| NotePull.PullNote.PullStep | everpad/provider/sync/note.py:195-217 | One iteration of the pull loop does what the step function says to the session and the seen ids. |
| NotePull.PullNote.Pull | everpad/provider/sync/note.py:190-220 | `pull()` applies the steps to every paged note. Unless an exception escapes, it then removes the notes that were not seen. |
| Agent.SyncDelay | everpad/provider/sync/agent.py:125-131 | A missing or zero setting selects DEFAULT_SYNC_DELAY. Any other setting is used as is. The delay is never 0. |
| Agent.TimerOps | everpad/provider/sync/agent.py:118-136 | `update_timer` always stops first. It restarts the timer, with the selected delay, exactly when the setting is not SYNC_MANUAL. |
| Agent.InitTable | everpad/provider/sync/agent.py:45-79 | An empty Sync table gets one row (0, now, 0, 0, 0). An existing first row has its rate limit, rate-limit time and connect-error count zeroed, and keeps its update count and last sync. |
| Agent.InitTableIdempotent | everpad/provider/sync/agent.py:45-79 | Initialising twice gives the same table as once. |
| Agent.NeedToUpdate | everpad/provider/sync/agent.py:186-232 | On success the remote count is stored, and an update is needed exactly when it differed. A rate limit is recorded and a socket error counted (+1); neither touches the update count or asks for an update. A user error escapes. |
| Agent.NeedToUpdateSettles | everpad/provider/sync/agent.py:226-232 | Asking again with the same remote count returns false and changes nothing. |
| Agent.NeedToUpdateAsWritten | everpad/provider/sync/agent.py:202-227 | As written, a non-rate-limit system error escapes. |
| Agent.SystemErrorEscapesAsWritten | everpad/provider/sync/agent.py:202-227 | The written and the corrected check differ exactly on a non-rate-limit system error. |
| Agent.Planned | everpad/provider/sync/agent.py:282-285 | A cycle attempts six steps when the remote changed and three otherwise. The pulls come exactly first. |
| Agent.Ran | everpad/provider/sync/agent.py:282-293 | The steps that run are a prefix of the planned ones: all of them when none raises, otherwise up to and including the first that raises. |
| Agent.RanAppend | everpad/provider/sync/agent.py:282-285 | The pushes run only when no pull raised. |
| Agent.LaterStepsSkipped | everpad/provider/sync/agent.py:282-289 | No step after a raising one runs. |
| Agent.Announced | everpad/provider/sync/agent.py:306-338 | Each step is announced with its own SYNC_STATE_* value, in order. |
| Agent.AnnouncedPlanned | everpad/provider/sync/agent.py:306-338 | The announcements of the planned steps are NOTEBOOKS_REMOTE, TAGS_REMOTE and NOTES_REMOTE when the remote changed, then NOTEBOOKS_LOCAL, TAGS_LOCAL and NOTES_LOCAL. |
| Agent.CycleShape | everpad/provider/sync/agent.py:270-296 | A cycle emits START first and FINISH then data_changed last, each once. In between come the announcements: a prefix of the planned ones, so remote steps come before local ones. NOTEBOOKS_REMOTE appears exactly when the remote changed. |
| Agent.CycleSignals | everpad/provider/sync/agent.py:270-296 | The signals of a cycle that gets past `_need_to_update`: START first, then FINISH and data_changed last, three more signals than steps that ran. |
| Agent.CleanCycle | everpad/provider/sync/agent.py:270-338 | When no step raises, the cycle emits the full planned sequence. |
| Agent.PlannedRuns | everpad/provider/sync/agent.py:282-285 | The steps run are the pulls run, then, if none raised, the pushes run. The cycle fails exactly when a pull or a push raised. |
| Agent.SyncThread.constructor | everpad/provider/sync/agent.py:28-40 | A new thread arms its timer through `update_timer`. |
| Agent.SyncThread.InitSync | everpad/provider/sync/agent.py:45-79 | The Sync table becomes InitTable's, the status NONE, and the last sync now. |
| Agent.SyncThread.UpdateTimer | everpad/provider/sync/agent.py:118-136 | The timer gets TimerOps' calls and runs with the selected delay, or stays stopped. |
| Agent.SyncThread.Sync | everpad/provider/sync/agent.py:243-245 | One wake-up is requested. |
| Agent.SyncThread.ForceSync | everpad/provider/sync/agent.py:236-240 | The timer is stopped, one wake-up is requested, and the timer is re-armed through `update_timer`. |
| Agent.SyncThread.CheckRemote | everpad/provider/sync/agent.py:186-232 | The first Sync row becomes NeedToUpdate's row, and the result is its answer. |
| Agent.SyncThread.Step | everpad/provider/sync/agent.py:310-320 | One step of `local_changes` or `remote_changes`: its SYNC_STATE_* value is emitted, then the step runs, with the status SYNC. The result is whether it raised. |
| Agent.SyncThread.Steps | everpad/provider/sync/agent.py:306-338 | The three steps of `local_changes` or `remote_changes`, in order, the later ones skipped once one raises. The signals are the announcements of the steps that ran, and it raises exactly when one of them raised. |
| Agent.SyncThread.RemoteChanges | everpad/provider/sync/agent.py:324-338 | The pulls are announced and run until one raises. |
| Agent.SyncThread.LocalChanges | everpad/provider/sync/agent.py:306-320 | The pushes are announced and run until one raises. |
| Agent.SyncThread.Changes | everpad/provider/sync/agent.py:282-285 | The guarded block emits the announcements of the steps that ran, and fails exactly when a step raised. |
| Agent.SyncThread.Perform | everpad/provider/sync/agent.py:250-296 | The status is SYNC while the steps run: every step method requires it, so this is checked at each call. If `_need_to_update` raises, only START has been emitted and the status stays SYNC. Otherwise the cycle's signals are emitted and the status returns to NONE. A failed step costs one session rollback and reset. The Sync row is the checked one. |

## Left out

- Rollback: after a failed step, `perform` rolls the session back to its
  last commit (agent.py:287) and opens a new one. The core commits at
  explicit points: note.py:40, 51, 82, 219, 360, 406, 424, 468 and 482,
  and agent.py:73 and 79. The model keeps no record of what was last
  committed. It counts the resets, and the rows keep everything the failed
  step had changed. One visible consequence: push commits only after its
  loop (note.py:82), unless a share call commits earlier (note.py:40, 51).
  Take a push where note A (CREATE) gets its guid from createNote, and a
  later note B (CHANGE) then meets a socket error. The source rolls A back
  to CREATE with an empty guid, so the next cycle creates A remotely a
  second time. In the model A stays NONE with its new guid. A second
  consequence: `_need_to_update` stores the remote update count in the
  Sync row (agent.py:231) without committing it. When a remote step raises
  before its first commit, the rollback discards that count, so the next
  cycle sees a changed count again and pulls again. `SyncThread.Perform`
  keeps the new count even after a failed step, so in the model the next
  cycle skips the pull.
- PushNotebook, PullNotebook, PushTag and PullTag: their modules are not
  part of this model. They are abstract steps that either complete or
  raise. In `perform` the note steps are abstract in the same way: whether
  a note step raises is a parameter, and no member ties it to the
  `escaped` results of `PushNote.Push` and `PullNote.Pull`.
- NotePull.PullNote.Pull: it takes all findNotes pages first and then
  pulls their notes. The source interleaves the pages with the pulls
  through a generator; the notes and their order are the same.
- NotePull.PullNote.Pull: errors raised by findNotes and getNote are not
  modelled, and getNote is a total function of the guid.
- Sharing.ShareNote: getUser gives the same answer for every share within
  one push or pull pass; the source asks it anew each time.
- Sharing.SharingSettles: not claimed for a remote share date of 0, where
  the source never settles (`ZeroShareDateAlternates`), nor for a NONE note
  with a stale share date and no remote date, which the source re-shares
  with now and then stops on the following pull.
- NotePull.GetAllNotes: it assumes that the server eventually reports
  no more notes (`Paged`). The source loops for as long as the server
  keeps announcing more.
- `from_api` on the models (`models.py`) is not part of this model. It is
  a copy of the remote title, content, updated time, notebook and tags
  into the row. A new row starts with action NONE and share status NONE.
- Resource bodies: reading files for upload and writing downloaded bodies
  are recorded as a sequence of downloaded guids, and the body sent is
  left out. Errors from getResourceData are modelled (`ReceiveOneEscapes`),
  but errors from opening or writing the file (note.py:327) are not.
- NotePull.ReceiveOne: when the download of a changed resource fails, the
  source has already refreshed the row in the session (note.py:454) before
  the error escapes. The model leaves the row as it was, which is the state
  the rollback in `perform` restores.
- `sanitize` and the BeautifulSoup re-serialisation: these are foreign
  code. They are two opaque string functions, applied in the source's
  order.
- UTF-8 encoding of the title, content and file names is left out; strings
  are sequences of characters.
- Logging, the thread main loop, QMutex/QWaitCondition, QTimer and the
  `_init_network` retry loop are left out. `sync()` counts a wake-up
  request, and the timer is a log of stop/start calls.
- Time: `datetime.now()` and `time.time()` are a `now` parameter in
  milliseconds. Rate-limit end times are `now + 1000 * seconds`.
- Rate-limit branches of `_push_changed_note`, `_delete_note` and
  `_need_to_update`: the intended recording is modelled.
  - As written, `EDAMErrorCode` is never imported, so every
    EDAMSystemException in these branches raises NameError.
  - `datetime` is not imported in note.py.
  - `datetime.timedelta` does not exist on the `datetime` class imported in
    agent.py.
  - `sync_state` is not passed to the push and pull classes.
  - The model records the rate limit on the Sync row handed to the push.
- Phase order: the code runs the remote steps before the local ones.
  The documented state order lists the local states first. The model
  follows the code.
- Rate-limit suppression: skipping the next cycle until the rate limit
  ends is commented out in `perform`. The model follows the code and does
  not suppress.
- STATUS_RATE and SYNC_STATE_RATE_LIMITED are defined in `const.py` but
  never set by the core; they appear only among the enumerations.

## Findings

| source | as written | input that shows it | evidently intended | confidence | as-written member | corrected member |
|---|---|---|---|---|---|---|
| everpad/provider/sync/agent.py:202-227 | An EDAMSystemException other than a rate limit ends the `except` clause without returning. Execution then reaches the log call at agent.py:227, which reads `update_count`, a name never assigned, so UnboundLocalError leaves `perform` right after START. No FINISH or data_changed is emitted, and the status stays SYNC. | getSyncState raising EDAMSystemException with a code other than RATE_LIMIT_REACHED | Return False like the other error branches, so that the cycle still pushes local changes and ends with FINISH | not executed | Agent.NeedToUpdateAsWritten | Agent.NeedToUpdate |
