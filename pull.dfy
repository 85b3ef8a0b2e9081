/**
 * Pulling remote notes into the local store (everpad/provider/sync/note.py,
 * PullNote): the pagination of findNotes, the update-or-conflict rule for
 * a known note, the reconciliation of resources by body hash, and the
 * removal of local notes the pull did not see.
 */
module NotePull {
  import opened Wrappers
  import opened Const
  import opened Text
  import opened Remote
  import opened LocalStore
  import opened Sharing

  // ---------------------------------------------------------------
  // Pagination (_get_all_notes)
  // ---------------------------------------------------------------

  /** The offset asked for after the page `l`: its start plus its length. */
  function NextOffset(l: NoteList): nat
  {
    l.startIndex + |l.notes|
  }

  /** Whether another page is asked for after `l`: not once `totalNotes - offset <= 0`. */
  predicate MorePages(l: NoteList)
  {
    l.totalNotes - NextOffset(l) > 0
  }

  /**
   * A server whose reported totals never exceed `bound` and whose pages
   * move forward whenever more notes remain: without this the loop of
   * _get_all_notes need not end.
   */
  ghost predicate Paged(fetch: nat -> NoteList, bound: nat)
  {
    forall o: nat :: fetch(o).totalNotes <= bound && (MorePages(fetch(o)) ==> o < NextOffset(fetch(o)))
  }

  /**
   * The offsets _get_all_notes asks findNotes for, from `offset` on: each
   * next offset is the previous page's start plus its length, and the
   * last page is the first after which no notes remain.
   */
  function Offsets(fetch: nat -> NoteList, offset: nat, bound: nat): (r: seq<nat>)
    requires Paged(fetch, bound)
    ensures r != [] && r[0] == offset
    decreases bound - offset
  {
    var l := fetch(offset);
    if MorePages(l) then [offset] + Offsets(fetch, NextOffset(l), bound) else [offset]
  }

  /**
   * The offset recurrence: each offset asked for after the first is the
   * previous page's start plus its length, every page but the last
   * leaves notes to fetch, and the last leaves none.
   */
  lemma {:induction false} OffsetsRecurrence(fetch: nat -> NoteList, offset: nat, bound: nat)
    requires Paged(fetch, bound)
    ensures var r := Offsets(fetch, offset, bound);
      && (forall k :: 0 <= k < |r| - 1 ==> MorePages(fetch(r[k])) && r[k + 1] == NextOffset(fetch(r[k])))
      && !MorePages(fetch(r[|r| - 1]))
    decreases bound - offset
  {
    var l := fetch(offset);
    if MorePages(l) {
      var next := NextOffset(l);
      OffsetsRecurrence(fetch, next, bound);
      var r := Offsets(fetch, offset, bound);
      var rest := Offsets(fetch, next, bound);
      assert r == [offset] + rest;
      forall k | 0 <= k < |r| - 1
        ensures MorePages(fetch(r[k])) && r[k + 1] == NextOffset(fetch(r[k]))
      {
        if k > 0 {
          assert r[k] == rest[k - 1] && r[k + 1] == rest[k];
        }
      }
    }
  }

  /** The notes of the pages fetched at `offsets`, page after page. */
  function PagesAt(fetch: nat -> NoteList, offsets: seq<nat>): seq<RemoteNote>
  {
    if offsets == [] then [] else fetch(offsets[0]).notes + PagesAt(fetch, offsets[1..])
  }

  lemma {:induction false} PagesAtAppend(fetch: nat -> NoteList, offsets: seq<nat>, o: nat)
    ensures PagesAt(fetch, offsets + [o]) == PagesAt(fetch, offsets) + fetch(o).notes
  {
    if offsets == [] {
      assert offsets + [o] == [o];
      assert PagesAt(fetch, [o]) == fetch(o).notes + PagesAt(fetch, []);
    } else {
      assert (offsets + [o])[1..] == offsets[1..] + [o];
      PagesAtAppend(fetch, offsets[1..], o);
    }
  }

  /**
   * _get_all_notes: asks findNotes for pages from offset 0 until no notes
   * remain; returns every note of every page, in page order, and the
   * offsets asked for.
   */
  method GetAllNotes(fetch: nat -> NoteList, ghost bound: nat) returns (notes: seq<RemoteNote>, offsets: seq<nat>)
    requires Paged(fetch, bound)
    ensures offsets == Offsets(fetch, 0, bound)
    ensures notes == PagesAt(fetch, offsets)
  {
    ghost var all := Offsets(fetch, 0, bound);
    var offset: nat := 0;
    notes, offsets := [], [];
    while true
      invariant offsets + Offsets(fetch, offset, bound) == all
      invariant notes == PagesAt(fetch, offsets)
      decreases bound - offset
    {
      var page := fetch(offset);
      ghost var before := offsets;
      assert notes + page.notes == PagesAt(fetch, offsets + [offset]) by {
        PagesAtAppend(fetch, offsets, offset);
      }
      notes := notes + page.notes;
      offsets := offsets + [offset];
      OffsetsAfter(fetch, bound, before, offset);
      if page.totalNotes - NextOffset(page) <= 0 {
        return;
      }
      offset := NextOffset(page);
    }
  }

  /**
   * The offsets from `offset` on, after those asked for before it: the
   * offset itself, then those after its page when more notes remain.
   */
  lemma OffsetsAfter(fetch: nat -> NoteList, bound: nat, before: seq<nat>, offset: nat)
    requires Paged(fetch, bound)
    ensures before + Offsets(fetch, offset, bound)
      == (before + [offset]) + (if MorePages(fetch(offset)) then Offsets(fetch, NextOffset(fetch(offset)), bound) else [])
  {
    var l := fetch(offset);
    if MorePages(l) {
      assert Offsets(fetch, offset, bound) == [offset] + Offsets(fetch, NextOffset(l), bound);
    } else {
      assert Offsets(fetch, offset, bound) == [offset];
    }
  }

  /** A well-behaved server holding `all`: each page starts where asked and holds at most `max` notes. */
  function Server(all: seq<RemoteNote>, max: nat): nat -> NoteList
  {
    (o: nat) => NoteList(o, |all|, all[Min(o, |all|)..Min(o + max, |all|)])
  }

  function Min(a: nat, b: nat): nat
  {
    if a <= b then a else b
  }

  lemma ServerPaged(all: seq<RemoteNote>, max: nat)
    requires max > 0
    ensures Paged(Server(all, max), |all|)
  {
  }

  /** Against a well-behaved server the pull sees every note exactly once, in order. */
  lemma {:induction false} ServerYieldsAll(all: seq<RemoteNote>, max: nat, o: nat)
    requires max > 0 && o <= |all|
    ensures Paged(Server(all, max), |all|) && PagesAt(Server(all, max), Offsets(Server(all, max), o, |all|)) == all[o..]
    decreases |all| - o
  {
    ServerPaged(all, max);
    var fetch := Server(all, max);
    var l := fetch(o);
    var r := Offsets(fetch, o, |all|);
    assert l.notes == all[o..Min(o + max, |all|)];
    if MorePages(l) {
      ServerYieldsAll(all, max, NextOffset(l));
      assert r[1..] == Offsets(fetch, NextOffset(l), |all|);
      assert all[o..] == l.notes + all[NextOffset(l)..];
    } else {
      assert r == [o];
      assert PagesAt(fetch, r) == l.notes + PagesAt(fetch, []);
      assert NextOffset(l) == |all|;
    }
  }

  /** 250 notes in pages of 100 are fetched at offsets 0, 100 and 200. */
  lemma PagesOfHundred(all: seq<RemoteNote>)
    requires |all| == 250
    ensures Paged(Server(all, 100), 250) && Offsets(Server(all, 100), 0, 250) == [0, 100, 200]
  {
    ServerPaged(all, 100);
    var fetch := Server(all, 100);
    assert NextOffset(fetch(0)) == 100 && MorePages(fetch(0));
    assert NextOffset(fetch(100)) == 200 && MorePages(fetch(100));
    assert NextOffset(fetch(200)) == 250 && !MorePages(fetch(200));
    assert Offsets(fetch, 200, 250) == [200];
  }

  // ---------------------------------------------------------------
  // Looking a row up (query(...).filter(...).one())
  // ---------------------------------------------------------------

  /** What `.one()` finds: no row (NoResultFound), one row, or several (MultipleResultsFound). */
  datatype Found = NoMatch | Unique(index: nat) | Several

  /** The first position of `xs` from `i` on whose element satisfies `p`, if any. */
  function FirstFrom<T>(xs: seq<T>, p: T -> bool, i: nat): (r: Option<nat>)
    requires i <= |xs|
    ensures r.None? ==> forall k :: i <= k < |xs| ==> !p(xs[k])
    ensures r.Some? ==> i <= r.value < |xs| && p(xs[r.value])
    ensures r.Some? ==> forall k :: i <= k < r.value ==> !p(xs[k])
    decreases |xs| - i
  {
    if i == |xs| then None else if p(xs[i]) then Some(i) else FirstFrom(xs, p, i + 1)
  }

  /** `.one()` over the rows `xs` with the filter `p`. */
  function FindOne<T>(xs: seq<T>, p: T -> bool): (f: Found)
    ensures f.NoMatch? <==> forall k :: 0 <= k < |xs| ==> !p(xs[k])
    ensures f.Unique? ==> f.index < |xs| && p(xs[f.index])
    ensures f.Unique? ==> forall k :: 0 <= k < |xs| && p(xs[k]) ==> k == f.index
    ensures f.Several? <==> exists j, k :: 0 <= j < k < |xs| && p(xs[j]) && p(xs[k])
  {
    match FirstFrom(xs, p, 0)
    case None => NoMatch
    case Some(j) =>
      match FirstFrom(xs, p, j + 1)
      case None => Unique(j)
      case Some(k) => Several
  }

  // ---------------------------------------------------------------
  // Notes (_create_note, _update_note, _create_conflict)
  // ---------------------------------------------------------------

  /** from_api on a note: the fields the remote note carries replace the row's. */
  function FromApi(n: Note, full: RemoteNote): Note
  {
    n.(guid := full.guid, title := full.title, content := full.content, updated := full.updated,
       notebook := full.notebookGuid, tags := full.tagGuids)
  }

  /** A fresh row with id `id` filled in from the remote note; no action, not shared. */
  function NewNote(id: int, full: RemoteNote): Note
  {
    FromApi(Note(id, "", "", "", 0, None, [], NoAction, NotShared, None, None, None), full)
  }

  /** Whether the row `m` holds what the remote note `full` says. */
  predicate HoldsRemote(m: Note, full: RemoteNote)
  {
    && m.guid == full.guid && m.title == full.title && m.content == full.content
    && m.updated == full.updated && m.notebook == full.notebookGuid && m.tags == full.tagGuids
  }

  /**
   * _update_note on the row `n` and the full remote note: the row itself,
   * and the conflict copy _create_conflict adds (with id `nextId`), if any.
   */
  function UpdateNote(n: Note, full: RemoteNote, nextId: int): (r: (Note, Option<Note>))
    // not newer remotely: nothing changes
    ensures n.updated >= full.updated ==> r == (n, None)
    // newer remotely, changed locally: the row is kept, a conflict copy of the remote is added
    ensures n.updated < full.updated && n.action == Change ==>
              && r.0 == n && r.1.Some?
              && r.1.value.(guid := full.guid) == NewNote(nextId, full).(action := Conflict, conflictParentId := Some(n.id))
              && r.1.value.guid == ""
    // newer remotely, not changed locally: the row takes the remote fields and keeps the rest
    ensures n.updated < full.updated && n.action != Change ==>
              && r.1 == None && HoldsRemote(r.0, full)
              && r.0.id == n.id && r.0.action == n.action && WithSharingOf(r.0, n) == r.0
              && r.0.conflictParentId == n.conflictParentId
  {
    if n.updated < full.updated then
      if n.action == Change then
        (n, Some(NewNote(nextId, full).(guid := "", action := Conflict, conflictParentId := Some(n.id))))
      else (FromApi(n, full), None)
    else (n, None)
  }

  /** Once a row has taken the remote fields, pulling the same remote note again leaves it alone. */
  lemma UpdateSettles(n: Note, full: RemoteNote, nextId: int)
    requires UpdateNote(n, full, nextId).1 == None
    ensures var m := UpdateNote(n, full, nextId).0; UpdateNote(m, full, nextId) == (m, None)
  {
  }

  /** Where a pulled note landed: the tables, the position of its row, and whether an exception escaped. */
  datatype Placed = Placed(db: Db, index: nat, escaped: bool)

  /** The note rows whose guid is `guid`. */
  function GuidIs(guid: string): Note -> bool
  {
    (n: Note) => n.guid == guid
  }

  /**
   * The first half of a pull step: look the note up by guid; several
   * rows escape, none creates the row, one updates it.
   */
  function PlaceNote(db: Db, guid: string, full: RemoteNote): (s: Placed)
    ensures s.escaped <==> FindOne(db.notes, GuidIs(guid)).Several?
    ensures s.escaped ==> s.db == db
    ensures !s.escaped ==> s.index < |s.db.notes|
  {
    match FindOne(db.notes, GuidIs(guid))
    case Several => Placed(db, 0, true)
    case NoMatch =>
      Placed(db.(notes := db.notes + [NewNote(db.nextNoteId, full)], nextNoteId := db.nextNoteId + 1),
             |db.notes|, false)
    case Unique(i) =>
      var u := UpdateNote(db.notes[i], full, db.nextNoteId);
      if u.1.Some? then
        Placed(db.(notes := db.notes[i := u.0] + [u.1.value], nextNoteId := db.nextNoteId + 1), i, false)
      else
        Placed(db.(notes := db.notes[i := u.0]), i, false)
  }

  /**
   * A pulled note with no local row gets a new row at the end, with a
   * fresh id, holding the remote note; nothing else changes.
   */
  lemma PlaceNew(db: Db, guid: string, full: RemoteNote)
    requires forall k :: 0 <= k < |db.notes| ==> db.notes[k].guid != guid
    ensures var s := PlaceNote(db, guid, full);
      && !s.escaped && s.db.notes == db.notes + [s.db.notes[s.index]] && s.index == |db.notes|
      && s.db.notes[s.index].id == db.nextNoteId && HoldsRemote(s.db.notes[s.index], full)
      && s.db.notes[s.index].action == NoAction && s.db.nextNoteId == db.nextNoteId + 1
  {
    assert FindOne(db.notes, GuidIs(guid)).NoMatch?;
  }

  /**
   * A pulled note whose local row `i` is CHANGE and older than the
   * remote: that row stays as it was and exactly one conflict copy is
   * appended, with an empty guid, action CONFLICT and the row as parent.
   */
  lemma PlaceConflict(db: Db, guid: string, full: RemoteNote, i: nat)
    requires i < |db.notes| && db.notes[i].guid == guid
    requires forall k :: 0 <= k < |db.notes| && db.notes[k].guid == guid ==> k == i
    requires db.notes[i].action == Change && db.notes[i].updated < full.updated
    ensures var s := PlaceNote(db, guid, full);
      && !s.escaped && s.index == i && |s.db.notes| == |db.notes| + 1
      && s.db.notes[..|db.notes|] == db.notes
      && var c := s.db.notes[|db.notes|];
         c.guid == "" && c.action == Conflict && c.conflictParentId == Some(db.notes[i].id)
         && c.id == db.nextNoteId && c.content == full.content && c.updated == full.updated
  {
    assert FindOne(db.notes, GuidIs(guid)) == Unique(i);
    var s := PlaceNote(db, guid, full);
    assert db.notes[i := db.notes[i]] == db.notes;
    assert s.db.notes[..|db.notes|] == db.notes;
  }

  /**
   * A pulled note whose unique local row `i` is not both CHANGE and older
   * than the remote: that row becomes what _update_note makes of it, and
   * no row is added.
   */
  lemma PlaceUpdate(db: Db, guid: string, full: RemoteNote, i: nat)
    requires i < |db.notes| && db.notes[i].guid == guid
    requires forall k :: 0 <= k < |db.notes| && db.notes[k].guid == guid ==> k == i
    requires !(db.notes[i].action == Change && db.notes[i].updated < full.updated)
    ensures var s := PlaceNote(db, guid, full);
      && !s.escaped && s.index == i
      && s.db == db.(notes := db.notes[i := UpdateNote(db.notes[i], full, db.nextNoteId).0])
  {
    assert FindOne(db.notes, GuidIs(guid)) == Unique(i);
  }

  /**
   * Placing a note whose full remote copy carries the guid asked for:
   * rows already there keep their id and guid, at most one row is added
   * (the new row or the conflict copy, with the next id), the placed row
   * is the only one with that guid, a conflict copy has an empty guid,
   * and note ids stay distinct and below the next id.
   */
  lemma PlaceNoteRows(db: Db, guid: string, full: RemoteNote)
    requires guid != "" && full.guid == guid && db.Valid()
    requires !PlaceNote(db, guid, full).escaped
    ensures var s := PlaceNote(db, guid, full);
      && |db.notes| <= |s.db.notes| <= |db.notes| + 1
      && s.db.nextNoteId == db.nextNoteId + (|s.db.notes| - |db.notes|)
      && (forall j :: 0 <= j < |db.notes| ==> s.db.notes[j].id == db.notes[j].id && s.db.notes[j].guid == db.notes[j].guid)
      && (forall j :: |db.notes| <= j < |s.db.notes| ==> s.db.notes[j].id == db.nextNoteId && (j == s.index || s.db.notes[j].guid == ""))
      && (forall j :: 0 <= j < |s.db.notes| ==> (s.db.notes[j].guid == guid <==> j == s.index))
      && s.db.Valid()
  {
    var f := FindOne(db.notes, GuidIs(guid));
    if f.Unique? {
      var u := UpdateNote(db.notes[f.index], full, db.nextNoteId);
      assert u.0.id == db.notes[f.index].id && u.0.guid == guid;
    }
  }

  // ---------------------------------------------------------------
  // Resources (_receive_resources, _remove_resources)
  // ---------------------------------------------------------------

  /**
   * The state of _receive_resources: the resource table, the next
   * resource id, the download events, the ids collected, and whether an
   * exception escaped.
   */
  datatype Received = Received(resources: seq<Resource>, nextResourceId: int, downloads: seq<string>, ids: seq<int>, escaped: bool)

  /** The resource rows whose guid is `guid`. */
  function ResourceGuidIs(guid: string): Resource -> bool
  {
    (r: Resource) => r.guid == guid
  }

  /**
   * One remote resource of the note `noteId`: a known guid keeps its row
   * (refreshed and downloaded again when the hash differs), an unknown one
   * gets a new row and a download; several rows escape, and so does a
   * download that getResourceData answers with an error (`download` is
   * its answer per guid), leaving the table as it was before.
   */
  function ReceiveOne(st: Received, noteId: int, rr: RemoteResource, download: string -> Outcome<()>): (r: Received)
    requires !st.escaped
    ensures FindOne(st.resources, ResourceGuidIs(rr.guid)).Several? ==> r.escaped
    ensures download(rr.guid).Ok? ==> (r.escaped <==> FindOne(st.resources, ResourceGuidIs(rr.guid)).Several?)
    ensures r.escaped ==> r == st.(escaped := true)
  {
    var hash := Hex(rr.bodyHash);
    match FindOne(st.resources, ResourceGuidIs(rr.guid))
    case Several => st.(escaped := true)
    case Unique(i) =>
      var res := st.resources[i];
      if res.hash != hash then
        if !download(res.guid).Ok? then st.(escaped := true)
        else
          st.(resources := st.resources[i := res.(hash := hash, mime := rr.mime, fileName := rr.fileName)],
              downloads := st.downloads + [res.guid], ids := st.ids + [res.id])
      else st.(ids := st.ids + [res.id])
    case NoMatch =>
      if !download(rr.guid).Ok? then st.(escaped := true)
      else
        var res := Resource(st.nextResourceId, rr.guid, noteId, hash, rr.mime, rr.fileName, NoAction);
        st.(resources := st.resources + [res], nextResourceId := st.nextResourceId + 1,
            downloads := st.downloads + [rr.guid], ids := st.ids + [res.id])
  }

  /** Whether a row of `rs` already holds the remote resource's guid with its body hash. */
  predicate HeldUnchanged(rs: seq<Resource>, rr: RemoteResource)
  {
    exists k :: 0 <= k < |rs| && rs[k].guid == rr.guid && rs[k].hash == Hex(rr.bodyHash)
  }

  /**
   * A resource body is downloaded exactly when no row holds its guid
   * with the same hash, and afterwards a row holds the guid with the
   * remote hash and its id is the one collected.
   */
  lemma ReceiveOneDownloads(st: Received, noteId: int, rr: RemoteResource, download: string -> Outcome<()>)
    requires !st.escaped && !ReceiveOne(st, noteId, rr, download).escaped
    ensures var r := ReceiveOne(st, noteId, rr, download);
      r.downloads == st.downloads + (if HeldUnchanged(st.resources, rr) then [] else [rr.guid])
    ensures var r := ReceiveOne(st, noteId, rr, download);
      exists k :: 0 <= k < |r.resources| && r.resources[k].guid == rr.guid && r.resources[k].hash == Hex(rr.bodyHash)
                  && r.ids == st.ids + [r.resources[k].id]
  {
    var f := FindOne(st.resources, ResourceGuidIs(rr.guid));
    var r := ReceiveOne(st, noteId, rr, download);
    if f.Unique? {
      var i := f.index;
      if HeldUnchanged(st.resources, rr) {
        var k :| 0 <= k < |st.resources| && st.resources[k].guid == rr.guid && st.resources[k].hash == Hex(rr.bodyHash);
        assert ResourceGuidIs(rr.guid)(st.resources[k]);
        assert k == i;
      }
      assert r.resources[i].guid == rr.guid;
    } else {
      assert f.NoMatch?;
      assert !HeldUnchanged(st.resources, rr);
      assert r.resources[|st.resources|].guid == rr.guid;
    }
  }

  /**
   * One remote resource escapes exactly when several rows share its guid,
   * or when its body has to be downloaded (no row holds the guid with the
   * same hash) and getResourceData answers with an error.
   */
  lemma ReceiveOneEscapes(st: Received, noteId: int, rr: RemoteResource, download: string -> Outcome<()>)
    requires !st.escaped
    ensures ReceiveOne(st, noteId, rr, download).escaped <==>
      || FindOne(st.resources, ResourceGuidIs(rr.guid)).Several?
      || (!HeldUnchanged(st.resources, rr) && !download(rr.guid).Ok?)
  {
    var f := FindOne(st.resources, ResourceGuidIs(rr.guid));
    if f.Unique? {
      var i := f.index;
      assert st.resources[i].guid == rr.guid;
      if HeldUnchanged(st.resources, rr) {
        var k :| 0 <= k < |st.resources| && st.resources[k].guid == rr.guid && st.resources[k].hash == Hex(rr.bodyHash);
        assert ResourceGuidIs(rr.guid)(st.resources[k]);
        assert k == i;
      }
    } else if f.NoMatch? {
      assert !HeldUnchanged(st.resources, rr);
    }
  }

  /** Receiving the same remote resource a second time downloads nothing. */
  lemma ReceiveTwiceDownloadsOnce(st: Received, noteId: int, rr: RemoteResource, download: string -> Outcome<()>)
    requires !st.escaped && !ReceiveOne(st, noteId, rr, download).escaped
    requires !ReceiveOne(ReceiveOne(st, noteId, rr, download), noteId, rr, download).escaped
    ensures var r := ReceiveOne(st, noteId, rr, download);
      ReceiveOne(r, noteId, rr, download).downloads == r.downloads
  {
    var r := ReceiveOne(st, noteId, rr, download);
    ReceiveOneDownloads(st, noteId, rr, download);
    ReceiveOneDownloads(r, noteId, rr, download);
  }

  /** _receive_resources from state `st` over the remote resources `todo`, until an exception escapes. */
  function ReceiveFrom(st: Received, noteId: int, todo: seq<RemoteResource>, download: string -> Outcome<()>): (r: Received)
    ensures st.escaped ==> r == st
    ensures st.ids <= r.ids && |r.ids| <= |st.ids| + |todo|
    ensures |st.resources| <= |r.resources|
    decreases |todo|
  {
    if todo == [] || st.escaped then st else ReceiveFrom(ReceiveOne(st, noteId, todo[0], download), noteId, todo[1..], download)
  }

  /**
   * One received resource leaves every other guid's rows as they were,
   * keeps the guid and id of every row, only appends rows, and collects
   * exactly one more id.
   */
  lemma ReceiveOneFrame(st: Received, noteId: int, rr: RemoteResource, download: string -> Outcome<()>)
    requires !st.escaped && !ReceiveOne(st, noteId, rr, download).escaped
    ensures var r := ReceiveOne(st, noteId, rr, download);
      && |st.resources| <= |r.resources| && |r.ids| == |st.ids| + 1 && st.ids <= r.ids
      && (forall j :: 0 <= j < |st.resources| ==> r.resources[j].guid == st.resources[j].guid && r.resources[j].id == st.resources[j].id)
      && (forall j :: 0 <= j < |st.resources| && st.resources[j].guid != rr.guid ==> r.resources[j] == st.resources[j])
  {
  }

  /** None of the remote resources `todo` has the guid `guid`. */
  predicate Untouched(todo: seq<RemoteResource>, guid: string)
  {
    forall m :: 0 <= m < |todo| ==> todo[m].guid != guid
  }

  /**
   * Receiving `todo` keeps the guid and id of every row already there,
   * leaves the rows of guids not received as they were, and extends the
   * ids collected.
   */
  lemma {:induction false} ReceiveFromFrame(st: Received, noteId: int, todo: seq<RemoteResource>, download: string -> Outcome<()>)
    requires !ReceiveFrom(st, noteId, todo, download).escaped
    ensures var r := ReceiveFrom(st, noteId, todo, download);
      && |st.resources| <= |r.resources| && st.ids <= r.ids
      && (forall j :: 0 <= j < |st.resources| ==> r.resources[j].guid == st.resources[j].guid && r.resources[j].id == st.resources[j].id)
      && (forall j :: 0 <= j < |st.resources| && Untouched(todo, st.resources[j].guid) ==> r.resources[j] == st.resources[j])
    decreases |todo|
  {
    if todo != [] {
      assert !st.escaped;
      var st' := ReceiveOne(st, noteId, todo[0], download);
      ReceiveOneFrame(st, noteId, todo[0], download);
      ReceiveFromFrame(st', noteId, todo[1..], download);
      forall j | 0 <= j < |st.resources| && Untouched(todo, st.resources[j].guid)
        ensures Untouched(todo[1..], st'.resources[j].guid) && st'.resources[j] == st.resources[j]
      {
        assert todo[0].guid != st.resources[j].guid;
        forall m | 0 <= m < |todo[1..]|
          ensures todo[1..][m].guid != st'.resources[j].guid
        {
          assert todo[1..][m] == todo[m + 1];
        }
      }
    }
  }

  /**
   * After receiving `todo`, the remote resource `rr` has a row with its
   * guid whose id is among those collected, and which _remove_resources
   * therefore keeps; when `hashed`, that row holds `rr`'s body hash.
   */
  ghost predicate Holds(r: Received, noteId: int, rr: RemoteResource, hashed: bool)
  {
    exists j ::
      && 0 <= j < |r.resources| && r.resources[j].guid == rr.guid && r.resources[j].id in r.ids
      && r.resources[j] in KeepResources(r.resources, noteId, r.ids)
      && (hashed ==> r.resources[j].hash == Hex(rr.bodyHash))
  }

  /** The first remote resource received is held at the end, with its hash unless a later one shares its guid. */
  lemma ReceiveHoldsFirst(st: Received, noteId: int, todo: seq<RemoteResource>, download: string -> Outcome<()>)
    requires todo != [] && !ReceiveFrom(st, noteId, todo, download).escaped
    ensures Holds(ReceiveFrom(st, noteId, todo, download), noteId, todo[0], Untouched(todo[1..], todo[0].guid))
  {
    var st' := ReceiveOne(st, noteId, todo[0], download);
    var r := ReceiveFrom(st, noteId, todo, download);
    assert r == ReceiveFrom(st', noteId, todo[1..], download);
    ReceiveOneDownloads(st, noteId, todo[0], download);
    ReceiveFromFrame(st', noteId, todo[1..], download);
    var j0 :| 0 <= j0 < |st'.resources| && st'.resources[j0].guid == todo[0].guid
               && st'.resources[j0].hash == Hex(todo[0].bodyHash) && st'.ids == st.ids + [st'.resources[j0].id];
    assert st'.resources[j0].id in st'.ids;
    assert r.resources[j0].id in r.ids;
    if Untouched(todo[1..], todo[0].guid) {
      assert r.resources[j0] == st'.resources[j0];
    }
    assert r.resources[j0] in KeepResources(r.resources, noteId, r.ids);
  }

  /**
   * _receive_resources collects one id per remote resource unless an
   * exception escapes, and every remote resource has a row with its guid
   * whose id is among those collected, so that _remove_resources keeps
   * it; the row of the last resource with a given guid holds that
   * resource's body hash.
   */
  lemma {:induction false} ReceiveCollectsEveryId(st: Received, noteId: int, todo: seq<RemoteResource>, download: string -> Outcome<()>)
    requires !ReceiveFrom(st, noteId, todo, download).escaped
    ensures |ReceiveFrom(st, noteId, todo, download).ids| == |st.ids| + |todo|
    ensures forall k :: 0 <= k < |todo| ==>
      Holds(ReceiveFrom(st, noteId, todo, download), noteId, todo[k], Untouched(todo[k + 1..], todo[k].guid))
    decreases |todo|
  {
    if todo != [] {
      assert !st.escaped;
      var st' := ReceiveOne(st, noteId, todo[0], download);
      var r := ReceiveFrom(st, noteId, todo, download);
      assert r == ReceiveFrom(st', noteId, todo[1..], download);
      ReceiveOneFrame(st, noteId, todo[0], download);
      ReceiveCollectsEveryId(st', noteId, todo[1..], download);
      ReceiveHoldsFirst(st, noteId, todo, download);
      forall k | 0 < k < |todo|
        ensures Holds(r, noteId, todo[k], Untouched(todo[k + 1..], todo[k].guid))
      {
        assert todo[1..][k - 1] == todo[k] && todo[1..][k - 1 + 1..] == todo[k + 1..];
      }
    }
  }

  /**
   * _remove_resources: the rows of `rs` that stay once the resources of
   * note `noteId` whose id is not in `ids` are deleted.
   */
  function KeepResources(rs: seq<Resource>, noteId: int, ids: seq<int>): (r: seq<Resource>)
    ensures forall x :: x in r <==> x in rs && (x.id in ids || x.noteId != noteId)
    ensures |r| <= |rs|
  {
    if rs == [] then []
    else (if rs[0].id in ids || rs[0].noteId != noteId then [rs[0]] else []) + KeepResources(rs[1..], noteId, ids)
  }

  // ---------------------------------------------------------------
  // Removing unseen notes (_remove_notes), under SQL's three-valued logic
  // ---------------------------------------------------------------

  /** An SQL truth value. */
  datatype Tri = True | False | Unknown

  function FromBool(b: bool): Tri
  {
    if b then True else False
  }

  function Not(a: Tri): Tri
  {
    match a
    case True => False
    case False => True
    case Unknown => Unknown
  }

  function Or(a: Tri, b: Tri): Tri
  {
    if a == True || b == True then True else if a == False && b == False then False else Unknown
  }

  function And(a: Tri, b: Tri): Tri
  {
    if a == False || b == False then False else if a == True && b == True then True else Unknown
  }

  /** `v IN (xs)` where `v` may be NULL: NULL makes it unknown. */
  function In(v: Option<int>, xs: seq<int>): Tri
  {
    if v.None? then Unknown else FromBool(v.value in xs)
  }

  /** The actions _remove_notes never deletes: NOEXSIST, CREATE, CHANGE and CONFLICT. */
  predicate Protected(a: Action)
  {
    a == NoExist || a == Create || a == Change || a == Conflict
  }

  /** The filter of _remove_notes for the note `n`, given the ids seen during the pull. */
  function RemoveFilter(n: Note, seen: seq<int>): (t: Tri)
    ensures Protected(n.action) ==> t == False
    ensures seen == [] ==> t == FromBool(!Protected(n.action))
    ensures t == Unknown <==> !Protected(n.action) && n.id in seen && n.conflictParentId.None?
  {
    var unprotected := Not(FromBool(Protected(n.action)));
    if seen != [] then
      And(Or(Not(In(Some(n.id), seen)), Not(In(n.conflictParentId, seen))), unprotected)
    else unprotected
  }

  /** A row is deleted only when the filter is true; unknown counts as false. */
  predicate Removed(n: Note, seen: seq<int>)
  {
    RemoveFilter(n, seen) == True
  }

  /**
   * The filter in two-valued terms: a row goes when its action is not
   * protected and either nothing was seen, or its id was not seen, or it
   * has a conflict parent that was not seen. A NULL parent never selects
   * a row.
   */
  lemma RemovedExactly(n: Note, seen: seq<int>)
    ensures Removed(n, seen) <==>
      && !Protected(n.action)
      && (seen == [] || n.id !in seen || (n.conflictParentId.Some? && n.conflictParentId.value !in seen))
  {
  }

  /** The note rows that remain after _remove_notes, in table order. */
  function RemainingNotes(notes: seq<Note>, seen: seq<int>): (r: seq<Note>)
    ensures forall m :: m in r <==> m in notes && !Removed(m, seen)
  {
    if notes == [] then []
    else (if Removed(notes[0], seen) then [] else [notes[0]]) + RemainingNotes(notes[1..], seen)
  }

  /**
   * _remove_notes never deletes a protected note, deletes every other
   * note whose id was not seen, deletes every unprotected note when
   * nothing was seen, and keeps a seen note that has no conflict parent.
   */
  lemma RemoveNotesRules(notes: seq<Note>, seen: seq<int>, n: Note)
    requires n in notes
    ensures Protected(n.action) ==> n in RemainingNotes(notes, seen)
    ensures !Protected(n.action) && n.id !in seen ==> n !in RemainingNotes(notes, seen)
    ensures seen == [] ==> (n in RemainingNotes(notes, seen) <==> Protected(n.action))
    ensures n.id in seen && n.conflictParentId.None? ==> n in RemainingNotes(notes, seen)
  {
    RemovedExactly(n, seen);
  }

  // ---------------------------------------------------------------
  // The pull pass
  // ---------------------------------------------------------------

  /**
   * What the remote answers during a pull: findNotes per offset, getNote
   * per guid (the full note), shareNote per guid, getUser (the user's
   * shard, answered alike within one pass) and the current time in
   * milliseconds.
   */
  datatype PullRemote = PullRemote(
    fetch: nat -> NoteList,
    getNote: string -> RemoteNote,
    share: string -> Outcome<string>,
    shard: Outcome<string>,
    download: string -> Outcome<()>,
    now: int)

  /** The state of a pull pass: the tables, the ids seen, and whether an exception escaped. */
  datatype PullState = PullState(db: Db, seen: seq<int>, escaped: bool)

  /** The tables with the resource state of `r`. */
  function WithResources(db: Db, r: Received): Db
  {
    db.(resources := r.resources, nextResourceId := r.nextResourceId, downloads := r.downloads)
  }

  /**
   * One note of the pull loop: place it, record its id, reconcile its
   * sharing, receive its resources and, when any came, delete the
   * note's other resources.
   */
  function PullOne(st: PullState, rn: RemoteNote, remote: PullRemote): (r: PullState)
    ensures st.seen <= r.seen && |r.seen| <= |st.seen| + 1
    ensures !r.escaped ==> |r.seen| == |st.seen| + 1
    ensures |st.db.notes| <= |r.db.notes| <= |st.db.notes| + 1
  {
    var s := PlaceNote(st.db, rn.guid, remote.getNote(rn.guid));
    if s.escaped then st.(escaped := true)
    else
      var note := s.db.notes[s.index];
      var seen := st.seen + [note.id];
      var sh := CheckSharing(note, rn.shareDate, remote.share(note.guid), remote.shard, remote.now);
      var db := s.db.(notes := s.db.notes[s.index := sh.0]);
      if sh.1 then PullState(db, seen, true)
      else
        var r := ReceiveFrom(Received(db.resources, db.nextResourceId, db.downloads, [], false), sh.0.id, rn.resources, remote.download);
        var db' := WithResources(db, r);
        if !r.escaped && r.ids != [] then
          PullState(db'.(resources := KeepResources(r.resources, sh.0.id, r.ids)), seen, false)
        else PullState(db', seen, r.escaped)
  }

  /** The pull loop over `todo` from state `st`, until an exception escapes. */
  function PullFrom(st: PullState, todo: seq<RemoteNote>, remote: PullRemote): (r: PullState)
    ensures st.escaped ==> r == st
    ensures st.seen <= r.seen && |r.seen| <= |st.seen| + |todo|
    ensures |st.db.notes| <= |r.db.notes| <= |st.db.notes| + |todo|
    decreases |todo|
  {
    if todo == [] || st.escaped then st else PullFrom(PullOne(st, todo[0], remote), todo[1..], remote)
  }

  /** A pull that completes records one seen id per remote note. */
  lemma {:induction false} PullSeesEveryNote(st: PullState, todo: seq<RemoteNote>, remote: PullRemote)
    requires !PullFrom(st, todo, remote).escaped
    ensures |PullFrom(st, todo, remote).seen| == |st.seen| + |todo|
    decreases |todo|
  {
    if todo != [] {
      assert !st.escaped;
      var st' := PullOne(st, todo[0], remote);
      assert !st'.escaped ==> st'.seen == st.seen + [st'.seen[|st'.seen| - 1]];
      PullSeesEveryNote(st', todo[1..], remote);
    }
  }

  /** A pull step changes no row but the placed one, and adds at most the new row or the conflict copy. */
  lemma PullOneTouchesOneRow(st: PullState, rn: RemoteNote, remote: PullRemote)
    requires !PullOne(st, rn, remote).escaped
    ensures var s := PlaceNote(st.db, rn.guid, remote.getNote(rn.guid)); var r := PullOne(st, rn, remote);
      && |st.db.notes| <= |r.db.notes| <= |st.db.notes| + 1
      && forall k :: 0 <= k < |st.db.notes| && k != s.index ==> r.db.notes[k] == st.db.notes[k]
  {
  }

  /**
   * One pull step records the id of the row it placed, unless the lookup
   * escaped; that row keeps its id and guid through the sharing and
   * resource parts of the step, which change no other note row.
   */
  lemma PullOneSeen(st: PullState, rn: RemoteNote, remote: PullRemote)
    ensures var s := PlaceNote(st.db, rn.guid, remote.getNote(rn.guid)); var r := PullOne(st, rn, remote);
      && (s.escaped ==> r == st.(escaped := true))
      && (!s.escaped ==>
            && r.seen == st.seen + [s.db.notes[s.index].id]
            && r.db.nextNoteId == s.db.nextNoteId && |r.db.notes| == |s.db.notes|
            && (forall j :: 0 <= j < |s.db.notes| ==> r.db.notes[j].id == s.db.notes[j].id && r.db.notes[j].guid == s.db.notes[j].guid)
            && (forall j :: 0 <= j < |s.db.notes| && j != s.index ==> r.db.notes[j] == s.db.notes[j]))
  {
  }

  /** Every note of `todo` has a guid, and getNote answers each with the note asked for. */
  predicate Serves(todo: seq<RemoteNote>, remote: PullRemote)
  {
    forall k :: 0 <= k < |todo| ==> todo[k].guid != "" && remote.getNote(todo[k].guid).guid == todo[k].guid
  }

  /** The guids of the notes `todo`. */
  function Guids(todo: seq<RemoteNote>): set<string>
  {
    if todo == [] then {} else {todo[0].guid} + Guids(todo[1..])
  }

  /**
   * The ids seen during a pull are those of the rows whose guid was
   * pulled: a row's id is seen exactly when its guid is one of `pulled`.
   * Note ids stay distinct, and every seen id is below the next id.
   */
  ghost predicate Tracks(st: PullState, pulled: set<string>)
  {
    && st.db.Valid()
    && "" !in pulled
    && (forall x :: x in st.seen ==> x < st.db.nextNoteId)
    && (forall j :: 0 <= j < |st.db.notes| ==> (st.db.notes[j].id in st.seen <==> st.db.notes[j].guid in pulled))
  }

  /** A pull step of a note with a guid adds that guid to those whose rows are seen. */
  lemma PullOneTracks(st: PullState, rn: RemoteNote, remote: PullRemote, pulled: set<string>)
    requires !PullOne(st, rn, remote).escaped && Tracks(st, pulled)
    requires rn.guid != "" && remote.getNote(rn.guid).guid == rn.guid
    ensures Tracks(PullOne(st, rn, remote), pulled + {rn.guid})
  {
    var s := PlaceNote(st.db, rn.guid, remote.getNote(rn.guid));
    var r := PullOne(st, rn, remote);
    PullOneSeen(st, rn, remote);
    PlaceNoteRows(st.db, rn.guid, remote.getNote(rn.guid));
    var x := s.db.notes[s.index].id;
    forall j | 0 <= j < |r.db.notes|
      ensures r.db.notes[j].id in r.seen <==> r.db.notes[j].guid in pulled + {rn.guid}
    {
      if j != s.index {
        assert r.db.notes[j].id != x && r.db.notes[j].guid != rn.guid;
        if j >= |st.db.notes| {
          assert r.db.notes[j].id !in st.seen && r.db.notes[j].guid !in pulled;
        }
      }
    }
  }

  /** A completed pull of notes with guids adds their guids to those whose rows are seen. */
  lemma {:induction false} PullFromTracks(st: PullState, todo: seq<RemoteNote>, remote: PullRemote, pulled: set<string>)
    requires !PullFrom(st, todo, remote).escaped && Tracks(st, pulled) && Serves(todo, remote)
    ensures Tracks(PullFrom(st, todo, remote), pulled + Guids(todo))
    decreases |todo|
  {
    if todo == [] {
      assert pulled + Guids(todo) == pulled;
    } else {
      assert !st.escaped;
      PullOneTracks(st, todo[0], remote, pulled);
      assert Serves(todo[1..], remote) by {
        forall k | 0 <= k < |todo[1..]|
          ensures todo[1..][k].guid != "" && remote.getNote(todo[1..][k].guid).guid == todo[1..][k].guid
        {
          assert todo[1..][k] == todo[k + 1];
        }
      }
      PullFromTracks(PullOne(st, todo[0], remote), todo[1..], remote, pulled + {todo[0].guid});
      assert pulled + {todo[0].guid} + Guids(todo[1..]) == pulled + Guids(todo);
    }
  }

  /**
   * A completed pull from a consistent table, followed by _remove_notes:
   * a row whose guid was pulled and that has no conflict parent survives,
   * and a row with no pending action whose guid was not pulled is removed.
   */
  lemma PulledNotesSurvive(db: Db, todo: seq<RemoteNote>, remote: PullRemote)
    requires db.Valid() && Serves(todo, remote)
    requires !PullFrom(PullState(db, [], false), todo, remote).escaped
    ensures var r := PullFrom(PullState(db, [], false), todo, remote);
      var kept := RemainingNotes(r.db.notes, r.seen);
      && (forall j :: 0 <= j < |r.db.notes| && r.db.notes[j].guid in Guids(todo) && r.db.notes[j].conflictParentId.None? ==>
            r.db.notes[j] in kept)
      && (forall j :: 0 <= j < |r.db.notes| && r.db.notes[j].guid !in Guids(todo) && r.db.notes[j].action == NoAction ==>
            r.db.notes[j] !in kept)
  {
    var r := PullFrom(PullState(db, [], false), todo, remote);
    PullFromTracks(PullState(db, [], false), todo, remote, {});
    assert {} + Guids(todo) == Guids(todo);
    forall j | 0 <= j < |r.db.notes|
      ensures Removed(r.db.notes[j], r.seen) <==>
        && !Protected(r.db.notes[j].action)
        && (r.seen == [] || r.db.notes[j].id !in r.seen
            || (r.db.notes[j].conflictParentId.Some? && r.db.notes[j].conflictParentId.value !in r.seen))
    {
      RemovedExactly(r.db.notes[j], r.seen);
    }
  }

  /**
   * A remote note without resources deletes none: _remove_resources runs
   * only when some resource id was collected, so the note's local
   * resources all stay.
   */
  lemma PullWithoutResourcesKeepsThem(st: PullState, rn: RemoteNote, remote: PullRemote)
    requires rn.resources == [] && !PullOne(st, rn, remote).escaped
    ensures PullOne(st, rn, remote).db.resources == st.db.resources
  {
  }

  /** PullNote, bound to the session it works in and to what the remote answers. */
  class PullNote {
    const session: Session
    const remote: PullRemote
    var seen: seq<int>

    constructor (session: Session, remote: PullRemote)
      ensures this.session == session && this.remote == remote && seen == []
    {
      this.session := session;
      this.remote := remote;
      seen := [];
    }

    /**
     * _receive_resources for the note `note`: returns the ids collected
     * and whether an exception escaped.
     */
    method ReceiveResources(note: Note, rrs: seq<RemoteResource>) returns (ids: seq<int>, escaped: bool)
      modifies session
      ensures var r := ReceiveFrom(Received(old(session.resources), old(session.nextResourceId), old(session.downloads), [], false), note.id, rrs, remote.download);
        && session.resources == r.resources && session.nextResourceId == r.nextResourceId
        && session.downloads == r.downloads && ids == r.ids && escaped == r.escaped
      ensures session.notes == old(session.notes) && session.nextNoteId == old(session.nextNoteId)
    {
      ghost var init := Received(session.resources, session.nextResourceId, session.downloads, [], false);
      ids, escaped := [], false;
      var i := 0;
      while i < |rrs|
        invariant 0 <= i <= |rrs|
        invariant ReceiveFrom(Received(session.resources, session.nextResourceId, session.downloads, ids, false), note.id, rrs[i..], remote.download)
               == ReceiveFrom(init, note.id, rrs, remote.download)
        invariant session.notes == old(session.notes) && session.nextNoteId == old(session.nextNoteId)
      {
        var rr := rrs[i];
        assert rrs[i..][0] == rr && rrs[i..][1..] == rrs[i + 1..];
        var failed;
        ids, failed := ReceiveResource(note, rr, ids);
        if failed {
          escaped := true;
          return;
        }
        i := i + 1;
      }
      assert rrs[i..] == [];
    }

    /**
     * One iteration of the loop in _receive_resources: the remote resource
     * `rr` of `note`, with the ids collected so far. Returns the ids and
     * whether an exception escaped.
     */
    method ReceiveResource(note: Note, rr: RemoteResource, ids: seq<int>) returns (ids': seq<int>, escaped: bool)
      modifies session
      ensures var r := ReceiveOne(Received(old(session.resources), old(session.nextResourceId), old(session.downloads), ids, false), note.id, rr, remote.download);
        && session.resources == r.resources && session.nextResourceId == r.nextResourceId
        && session.downloads == r.downloads && ids' == r.ids && escaped == r.escaped
      ensures session.notes == old(session.notes) && session.nextNoteId == old(session.nextNoteId)
    {
      ids', escaped := ids, false;
      var hash := Hex(rr.bodyHash);
      var found := FindOne(session.resources, ResourceGuidIs(rr.guid));
      if found.Several? {
        escaped := true;
      } else if found.Unique? {
        var res := session.resources[found.index];
        if res.hash != hash {
          if !remote.download(res.guid).Ok? {
            return ids, true;
          }
          session.resources := session.resources[found.index := res.(hash := hash, mime := rr.mime, fileName := rr.fileName)];
          session.downloads := session.downloads + [res.guid];
        }
        ids' := ids + [res.id];
      } else if !remote.download(rr.guid).Ok? {
        escaped := true;
      } else {
        var res := Resource(session.nextResourceId, rr.guid, note.id, hash, rr.mime, rr.fileName, NoAction);
        session.downloads := session.downloads + [rr.guid];
        session.resources := session.resources + [res];
        session.nextResourceId := session.nextResourceId + 1;
        ids' := ids + [res.id];
      }
    }

    /** _remove_resources: deletes the resources of `note` whose id is not in `ids`. */
    method RemoveResources(note: Note, ids: seq<int>)
      modifies session
      ensures session.resources == KeepResources(old(session.resources), note.id, ids)
      ensures session.notes == old(session.notes) && session.nextNoteId == old(session.nextNoteId)
      ensures session.nextResourceId == old(session.nextResourceId) && session.downloads == old(session.downloads)
    {
      session.resources := KeepResources(session.resources, note.id, ids);
    }

    /** _remove_notes: deletes the note rows the filter selects, given the ids seen. */
    method RemoveNotes()
      modifies session
      ensures session.notes == RemainingNotes(old(session.notes), seen)
      ensures session.resources == old(session.resources) && session.downloads == old(session.downloads)
      ensures session.nextNoteId == old(session.nextNoteId) && session.nextResourceId == old(session.nextResourceId)
    {
      session.notes := RemainingNotes(session.notes, seen);
    }

    /**
     * pull: every remote note of every page, then, unless an exception
     * escaped, the removal of the notes not seen. Returns whether an
     * exception escaped (which ends the pass).
     */
    method Pull(ghost bound: nat) returns (escaped: bool)
      requires Paged(remote.fetch, bound)
      modifies this, session
      ensures var r := PullFrom(PullState(old(session.Snapshot()), old(seen), false),
                                PagesAt(remote.fetch, Offsets(remote.fetch, 0, bound)), remote);
        && seen == r.seen && escaped == r.escaped
        && session.Snapshot() == if r.escaped then r.db else r.db.(notes := RemainingNotes(r.db.notes, r.seen))
    {
      var todo, _ := GetAllNotes(remote.fetch, bound);
      ghost var init := PullState(session.Snapshot(), seen, false);
      escaped := false;
      var i := 0;
      while i < |todo|
        invariant 0 <= i <= |todo|
        invariant PullFrom(PullState(session.Snapshot(), seen, false), todo[i..], remote) == PullFrom(init, todo, remote)
      {
        var rn := todo[i];
        ghost var before := PullState(session.Snapshot(), seen, false);
        assert todo[i..][0] == rn && todo[i..][1..] == todo[i + 1..];
        var step := PullStep(rn);
        assert step == PullOne(before, rn, remote);
        if step.escaped {
          assert PullFrom(init, todo, remote) == step;
          escaped := true;
          return;
        }
        i := i + 1;
      }
      assert todo[i..] == [];
      RemoveNotes();
    }

    /** The loop body of pull for the remote note `rn`; the state it leaves is returned as well. */
    method PullStep(rn: RemoteNote) returns (r: PullState)
      modifies this, session
      ensures r == PullOne(PullState(old(session.Snapshot()), old(seen), false), rn, remote)
      ensures session.Snapshot() == r.db && seen == r.seen
    {
      ghost var st := PullState(session.Snapshot(), seen, false);
      var s := PlaceNote(session.Snapshot(), rn.guid, remote.getNote(rn.guid));
      if s.escaped {
        return PullState(session.Snapshot(), seen, true);
      }
      var note := s.db.notes[s.index];
      seen := seen + [note.id];
      var sh := CheckSharing(note, rn.shareDate, remote.share(note.guid), remote.shard, remote.now);
      session.Store(s.db.(notes := s.db.notes[s.index := sh.0]));
      if sh.1 {
        return PullState(session.Snapshot(), seen, true);
      }
      var ids, failed := ReceiveResources(sh.0, rn.resources);
      if !failed && ids != [] {
        RemoveResources(sh.0, ids);
      }
      r := PullState(session.Snapshot(), seen, failed);
    }
  }
}
