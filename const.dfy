/**
 * The enumerations and limits the synchronizer works with
 * (everpad/const.py, and the Evernote EDAM limits it imports).
 * Each enumeration is a datatype; `Code()` gives the integer the
 * source stores for it.
 */
module Const {

  /** Pending-change marker of a synced row (ACTION_*). */
  datatype Action = NoAction | Create | Delete | Change | NoExist | Conflict | Duplicate
  {
    function Code(): int
    {
      match this
      case NoAction => 0
      case Create => 1
      case Delete => 2
      case Change => 3
      case NoExist => 4
      case Conflict => 5
      case Duplicate => 6
    }
  }

  /** Sharing state of a note (SHARE_*). */
  datatype ShareStatus = NotShared | NeedShare | Shared | NeedStop
  {
    function Code(): int
    {
      match this
      case NotShared => 0
      case NeedShare => 1
      case Shared => 2
      case NeedStop => 3
    }
  }

  /** Status of the sync agent (STATUS_*). */
  datatype Status = Idle | Syncing | RateLimitedStatus
  {
    function Code(): int
    {
      match this
      case Idle => 0
      case Syncing => 1
      case RateLimitedStatus => 3
    }
  }

  /** Value carried by the sync-state-changed signal (SYNC_STATE_*). */
  datatype SyncEvent =
    | Start
    | NotebooksLocal | TagsLocal | NotesLocal
    | NotebooksRemote | TagsRemote | NotesRemote
    | ShareEvent | StopShareEvent
    | Finish
    | RateLimited
  {
    function Code(): int
    {
      match this
      case Start => 0
      case NotebooksLocal => 1
      case TagsLocal => 2
      case NotesLocal => 3
      case NotebooksRemote => 4
      case TagsRemote => 5
      case NotesRemote => 6
      case ShareEvent => 7
      case StopShareEvent => 8
      case Finish => 9
      case RateLimited => 10
    }
  }

  /** DEFAULT_SYNC_DELAY: the timer interval, in milliseconds, when none is configured. */
  const DefaultSyncDelay: int := 30000 * 60

  /** SYNC_MANUAL: the configured delay that disables the timer. */
  const SyncManual: int := -1

  /** EDAM_NOTE_TITLE_LEN_MAX of the Evernote API. */
  const NoteTitleLenMax: nat := 255

  /** EDAM_NOTE_CONTENT_LEN_MAX of the Evernote API. */
  const NoteContentLenMax: nat := 5242880
}
