/**
 * The local store: the Note, Resource and Sync rows the synchronizer
 * reads and writes, and the session that holds them.
 */
module LocalStore {
  import opened Wrappers
  import opened Const

  /**
   * A local note row. `guid` is empty until the note has been created
   * remotely; `conflictParentId` is NULL except on a conflict copy.
   */
  datatype Note = Note(
    id: int,
    guid: string,
    title: string,
    content: string,
    updated: int,
    notebook: Option<string>,
    tags: seq<string>,
    action: Action,
    shareStatus: ShareStatus,
    shareDate: Option<int>,
    shareUrl: Option<string>,
    conflictParentId: Option<int>)

  /** A local resource row, attached to the note `noteId`; `hash` is the hex body hash. */
  datatype Resource = Resource(
    id: int,
    guid: string,
    noteId: int,
    hash: string,
    mime: string,
    fileName: string,
    action: Action)

  /** The Sync row: last seen update count, last sync time, rate-limit record, connection errors. */
  datatype SyncRow = SyncRow(
    updateCount: int,
    lastSync: int,
    rateLimit: int,
    rateLimitTime: int,
    connectErrorCount: int)

  /**
   * The rate-limit recording the synchronizer intends: the duration in
   * seconds, and the time it ends, in milliseconds; nothing else changes.
   */
  function RecordRateLimit(sync: SyncRow, seconds: Option<int>, now: int): (s: SyncRow)
    ensures seconds.Some? ==> s.rateLimit == seconds.value && s.rateLimitTime == now + 1000 * seconds.value
    ensures seconds.Some? ==> s.(rateLimit := sync.rateLimit, rateLimitTime := sync.rateLimitTime) == sync
    ensures seconds.None? ==> s == sync
  {
    if seconds.Some? then sync.(rateLimit := seconds.value, rateLimitTime := now + 1000 * seconds.value) else sync
  }

  /**
   * The contents of the note and resource tables, the next ids the
   * database will assign, and the guids of the resources whose body
   * was downloaded, in order.
   */
  datatype Db = Db(
    notes: seq<Note>,
    resources: seq<Resource>,
    nextNoteId: int,
    nextResourceId: int,
    downloads: seq<string>)
  {
    /** Note ids are distinct and below the next id the database will assign. */
    ghost predicate Valid()
    {
      && (forall i :: 0 <= i < |notes| ==> notes[i].id < nextNoteId)
      && (forall i, j :: 0 <= i < j < |notes| ==> notes[i].id != notes[j].id)
    }
  }

  /** The ids of `notes`, in order. */
  function NoteIds(notes: seq<Note>): seq<int>
  {
    if notes == [] then [] else [notes[0].id] + NoteIds(notes[1..])
  }

  /** The database session the synchronizers share (everpad's SQLAlchemy session). */
  class Session {
    var notes: seq<Note>
    var resources: seq<Resource>
    var nextNoteId: int
    var nextResourceId: int
    var downloads: seq<string>

    /** The tables as a value. */
    function Snapshot(): Db
      reads this
    {
      Db(notes, resources, nextNoteId, nextResourceId, downloads)
    }

    constructor (db: Db)
      ensures Snapshot() == db
    {
      notes := db.notes;
      resources := db.resources;
      nextNoteId := db.nextNoteId;
      nextResourceId := db.nextResourceId;
      downloads := db.downloads;
    }

    /** Replaces the tables with `db`. */
    method Store(db: Db)
      modifies this
      ensures Snapshot() == db
    {
      notes := db.notes;
      resources := db.resources;
      nextNoteId := db.nextNoteId;
      nextResourceId := db.nextResourceId;
      downloads := db.downloads;
    }
  }
}
