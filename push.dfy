/**
 * Pushing local notes to the remote (everpad/provider/sync/note.py,
 * PushNote): which notes a push visits, the note it sends, and what
 * each CREATE, CHANGE and DELETE branch leaves behind whatever the
 * remote answers.
 */
module NotePush {
  import opened Wrappers
  import opened Const
  import opened Text
  import opened Remote
  import opened LocalStore
  import opened Sharing

  /**
   * The two content transformations the model does not look inside:
   * `sanitize` (everpad.tools.sanitize) and the BeautifulSoup
   * re-serialisation of the wrapped content.
   */
  datatype ContentFilters = ContentFilters(sanitize: string -> string, reserialize: string -> string)

  /** The ENML document type line; split after its first character so that proofs can see it. */
  const Doctype: string := "<" + "!DOCTYPE en-note SYSTEM \"http://xml.evernote.com/pub/enml2.dtd\">"

  /** The indentation of the ENML template lines. */
  const Indent: string := "            "

  /** The ENML template of _prepare_content with `body` in place, before it is stripped. */
  function Template(body: string): string
  {
    "\n" + Indent + Doctype + "\n" + Indent + "<en-note>" + body + "</en-note>\n" + "        "
  }

  /** The ENML envelope the note content travels in. */
  function Envelope(body: string): string
  {
    Doctype + "\n" + Indent + "<en-note>" + body + "</en-note>"
  }

  /** The whitespace before and after the envelope in the template. */
  const TemplateLead: string := "\n" + Indent
  const TemplateTrail: string := "\n" + "        "

  lemma TemplateFrames(body: string)
    ensures Template(body) == TemplateLead + Envelope(body) + TemplateTrail
  {
  }

  /** The template's padding is whitespace only. */
  lemma PaddingIsSpace()
    ensures AllSpace(TemplateLead) && AllSpace(TemplateTrail)
  {
    assert '\n' in Spaces && ' ' in Spaces;
    forall i | 0 <= i < |TemplateLead| ensures IsSpace(TemplateLead[i]) {
      assert TemplateLead[i] == '\n' || TemplateLead[i] == ' ';
    }
    forall i | 0 <= i < |TemplateTrail| ensures IsSpace(TemplateTrail[i]) {
      assert TemplateTrail[i] == '\n' || TemplateTrail[i] == ' ';
    }
  }

  lemma EnvelopeEnds(body: string)
    ensures var e := Envelope(body); e != [] && e[0] == '<' && e[|e| - 1] == '>'
  {
    var tail := "\n" + Indent + "<en-note>" + body + "</en-note>";
    var e := Doctype + tail;
    assert Envelope(body) == e;
    assert e[0] == Doctype[0];
    assert e[|e| - 1] == tail[|tail| - 1];
  }

  /** Stripping the template leaves exactly the envelope, whatever the body. */
  lemma StripTemplate(body: string)
    ensures Strip(Template(body)) == Envelope(body)
  {
    TemplateFrames(body);
    PaddingIsSpace();
    EnvelopeEnds(body);
    StripFramed(TemplateLead, Envelope(body), TemplateTrail);
  }

  /**
   * _prepare_content: the content is cut to EDAM_NOTE_CONTENT_LEN_MAX,
   * sanitized, and only then wrapped in the envelope.
   */
  function PrepareContent(content: string, f: ContentFilters): (r: string)
    ensures r == f.reserialize(Envelope(f.sanitize(Truncate(content, NoteContentLenMax))))
  {
    var body := f.sanitize(Truncate(content, NoteContentLenMax));
    StripTemplate(body);
    f.reserialize(Strip(Template(body)))
  }

  /** The resources _prepare_resources sends: those of note `n` not marked for deletion. */
  predicate Sendable(n: Note, res: Resource)
  {
    res.noteId == n.id && res.action != Delete
  }

  /** The outgoing form of a local resource of note `n`. */
  function OutOf(n: Note, res: Resource): OutResource
  {
    OutResource(n.guid, res.id, res.mime, res.fileName)
  }

  /** _prepare_resources over the resource table `rs`, in table order. */
  function PrepareResources(n: Note, rs: seq<Resource>): (out: seq<OutResource>)
    ensures |out| <= |rs|
  {
    if rs == [] then []
    else (if Sendable(n, rs[0]) then [OutOf(n, rs[0])] else []) + PrepareResources(n, rs[1..])
  }

  /**
   * The resources sent with a note are every resource of the note that is
   * not marked DELETE, and nothing else.
   */
  lemma {:induction false} PrepareResourcesSendsLive(n: Note, rs: seq<Resource>)
    ensures forall o :: o in PrepareResources(n, rs) ==> exists res :: res in rs && Sendable(n, res) && o == OutOf(n, res)
    ensures forall res :: res in rs && Sendable(n, res) ==> OutOf(n, res) in PrepareResources(n, rs)
  {
    if rs != [] {
      PrepareResourcesSendsLive(n, rs[1..]);
      assert forall res :: res in rs[1..] ==> res in rs;
      assert forall res :: res in rs ==> res == rs[0] || res in rs[1..];
    }
  }

  /**
   * _create_ttype: the title cut to EDAM_NOTE_TITLE_LEN_MAX and then
   * stripped, the prepared content and resources, the tag guids, and the
   * notebook and note guids only when there are any.
   */
  function CreateTtype(n: Note, rs: seq<Resource>, f: ContentFilters): (t: OutNote)
    ensures t.title == Strip(Truncate(n.title, NoteTitleLenMax)) && |t.title| <= NoteTitleLenMax
    ensures t.title == [] || (!IsSpace(t.title[0]) && !IsSpace(t.title[|t.title| - 1]))
    ensures t.content == PrepareContent(n.content, f)
    ensures t.tagGuids == n.tags
    ensures t.resources == PrepareResources(n, rs)
    ensures t.notebookGuid == n.notebook
    ensures t.guid.Some? <==> n.guid != ""
    ensures t.guid.Some? ==> t.guid.value == n.guid
  {
    OutNote(
      Strip(Truncate(n.title, NoteTitleLenMax)),
      PrepareContent(n.content, f),
      n.tags,
      PrepareResources(n, rs),
      n.notebook,
      if n.guid != "" then Some(n.guid) else None)
  }

  /** A remote call made by push, with the local note it was made for. */
  datatype Call =
    | CreateCall(noteId: int, sent: OutNote)
    | UpdateCall(noteId: int, sent: OutNote)
    | DeleteCall(noteId: int, sentGuid: Option<string>)
    | ShareCall(shareGuid: string)

  /**
   * What the remote answers during a push: createNote (the new guid) and
   * updateNote/deleteNote per local note id, shareNote (the share key)
   * per guid, getUser (the user's shard, asked anew on each share but
   * answered alike within one pass), and the current time in milliseconds.
   */
  datatype PushRemote = PushRemote(
    create: int -> Outcome<string>,
    update: int -> Outcome<()>,
    delete: int -> Outcome<()>,
    share: string -> Outcome<string>,
    shard: Outcome<string>,
    now: int)

  /** A title that fits and has no surrounding whitespace is sent exactly as stored. */
  lemma TitleSentAsIs(n: Note, rs: seq<Resource>, f: ContentFilters)
    requires |n.title| <= NoteTitleLenMax
    requires n.title != [] && !IsSpace(n.title[0]) && !IsSpace(n.title[|n.title| - 1])
    ensures CreateTtype(n, rs, f).title == n.title
  {
    assert Truncate(n.title, NoteTitleLenMax) == n.title;
    assert [] + n.title + [] == n.title;
    StripFramed([], n.title, []);
  }

  /** The notes the push query selects: action not NONE, NOEXSIST or CONFLICT. */
  predicate Pushed(a: Action)
  {
    a != NoAction && a != NoExist && a != Conflict
  }

  /** An action that asks push for no further work. */
  predicate Settled(a: Action)
  {
    a != Create && a != Change && a != Delete
  }

  /** What one branch of push did to a note. */
  datatype Dispatched = Dispatched(note: Note, deleted: bool, calls: seq<Call>, rateLimit: Option<int>, escaped: bool)

  /**
   * The CREATE/CHANGE/DELETE dispatch of push with the branches
   * _push_new_note, _push_changed_note and _delete_note, for note `n`
   * sent as `t`.
   */
  function Dispatch(n: Note, t: OutNote, remote: PushRemote): (d: Dispatched)
    // CREATE: action ends NONE whatever createNote answers; the guid changes only on success;
    // anything but a user error escapes.
    ensures n.action == Create ==>
              && d.note.action == NoAction
              && d.note.guid == (if remote.create(n.id).Ok? then remote.create(n.id).value else n.guid)
              && d.note.(action := n.action, guid := n.guid) == n
              && !d.deleted && d.calls == [CreateCall(n.id, t)] && d.rateLimit == None
              && (d.escaped <==> !remote.create(n.id).Ok? && !remote.create(n.id).UserError?)
    // CHANGE: action ends NONE on every outcome; a rate limit is recorded; only a socket error escapes.
    ensures n.action == Change ==>
              && d.note == n.(action := NoAction)
              && !d.deleted && d.calls == [UpdateCall(n.id, t)]
              && d.rateLimit == remote.update(n.id).RateLimitSeconds()
              && (d.escaped <==> remote.update(n.id).SocketError?)
    // DELETE: the local row goes on every outcome; a rate limit is recorded; only a socket error escapes.
    ensures n.action == Delete ==>
              && d.deleted && d.note == n && d.calls == [DeleteCall(n.id, t.guid)]
              && d.rateLimit == remote.delete(n.id).RateLimitSeconds()
              && (d.escaped <==> remote.delete(n.id).SocketError?)
    // Any other action (DUPLICATE): no remote call, nothing changes.
    ensures Settled(n.action) ==> d == Dispatched(n, false, [], None, false)
  {
    match n.action
    case Create =>
      var o := remote.create(n.id);
      var guid := if o.Ok? then o.value else n.guid;
      Dispatched(n.(guid := guid, action := NoAction), false, [CreateCall(n.id, t)], None,
                 !o.Ok? && !o.UserError?)
    case Change =>
      var o := remote.update(n.id);
      Dispatched(n.(action := NoAction), false, [UpdateCall(n.id, t)], o.RateLimitSeconds(), o.SocketError?)
    case Delete =>
      var o := remote.delete(n.id);
      Dispatched(n, true, [DeleteCall(n.id, t.guid)], o.RateLimitSeconds(), o.SocketError?)
    case _ => Dispatched(n, false, [], None, false)
  }

  /** Dispatch keeps the note's id and leaves no CREATE, CHANGE or DELETE pending on a note it keeps. */
  lemma DispatchSettles(n: Note, t: OutNote, remote: PushRemote)
    ensures var d := Dispatch(n, t, remote);
      d.note.id == n.id && (d.deleted <==> n.action == Delete) && (!d.deleted ==> Settled(d.note.action))
  {
  }

  /** A sharing request push has to carry out. */
  predicate PendingShare(s: ShareStatus)
  {
    s == NeedShare || s == NeedStop
  }

  /**
   * The sharing step of push: NEED_SHARE shares the note (share date:
   * now), NEED_STOP stops sharing it. Once it has run without an
   * exception escaping, no sharing request is left pending.
   */
  function SharePending(n: Note, remote: PushRemote): (r: (Note, seq<Call>, bool))
    ensures WithSharingOf(r.0, n) == n
    ensures n.shareStatus == NeedShare ==>
              && (r.0, r.2) == ShareNote(n, None, remote.share(n.guid), remote.shard, remote.now)
              && r.1 == [ShareCall(n.guid)]
    ensures n.shareStatus == NeedStop ==> r == (StopSharing(n), [], false)
    ensures !PendingShare(n.shareStatus) ==> r == (n, [], false)
    ensures !r.2 ==> !PendingShare(r.0.shareStatus)
  {
    if n.shareStatus == NeedShare then
      var (m, escaped) := ShareNote(n, None, remote.share(n.guid), remote.shard, remote.now);
      (m, [ShareCall(n.guid)], escaped)
    else if n.shareStatus == NeedStop then
      (StopSharing(n), [], false)
    else
      (n, [], false)
  }

  /**
   * What push makes of one selected note: the note as it remains in the
   * table (nothing once deleted), the remote calls, the rate limit met
   * and whether an exception escaped.
   */
  datatype Handled = Handled(remains: seq<Note>, calls: seq<Call>, rateLimit: Option<int>, escaped: bool)

  /**
   * What every selected note comes to: it keeps its id, it is gone
   * exactly when it was marked DELETE, no CREATE, CHANGE or DELETE is left
   * pending on it, and unless an exception escaped no sharing request
   * either.
   */
  predicate HandledWell(n: Note, h: Handled)
  {
    && |h.remains| <= 1 && (h.remains == [] <==> n.action == Delete)
    && (forall m :: m in h.remains ==> m.id == n.id && Settled(m.action))
    && (!h.escaped ==> forall m :: m in h.remains ==> !PendingShare(m.shareStatus))
  }

  /** The body of the push loop for note `n`, sent as `t`: dispatch, then the pending sharing request. */
  function HandleNote(n: Note, t: OutNote, remote: PushRemote): (h: Handled)
    ensures HandledWell(n, h)
  {
    var d := Dispatch(n, t, remote);
    DispatchSettles(n, t, remote);
    if d.escaped then
      Handled(if d.deleted then [] else [d.note], d.calls, d.rateLimit, true)
    else
      var s := SharePending(d.note, remote);
      Handled(if d.deleted then [] else [s.0], d.calls + s.1, d.rateLimit, s.2)
  }

  /** The loop body of push, given the resource table, the content filters and the remote. */
  function PushHandler(rs: seq<Resource>, f: ContentFilters, remote: PushRemote): Note -> Handled
  {
    (n: Note) => HandleNote(n, CreateTtype(n, rs, f), remote)
  }

  /** A loop body that handles every selected note well. */
  ghost predicate GoodHandler(handle: Note -> Handled)
  {
    forall n: Note :: Pushed(n.action) ==> HandledWell(n, handle(n))
  }

  lemma PushHandlerGood(rs: seq<Resource>, f: ContentFilters, remote: PushRemote)
    ensures GoodHandler(PushHandler(rs, f, remote))
  {
  }

  /**
   * The state of a push pass: the notes already handled (those still in
   * the table), the Sync row, the ids visited, the remote calls made and
   * whether an exception escaped.
   */
  datatype PushState = PushState(done: seq<Note>, sync: SyncRow, visited: seq<int>, calls: seq<Call>, escaped: bool)

  /**
   * One step of the push loop with loop body `handle`: an unselected note
   * is carried over, a selected one handled and any rate limit recorded
   * at time `now`.
   */
  function PushOne(st: PushState, n: Note, handle: Note -> Handled, now: int): (st': PushState)
    ensures st'.visited == st.visited + (if Pushed(n.action) then [n.id] else [])
    ensures !Pushed(n.action) ==> st'.done == st.done + [n] && !st'.escaped
    ensures Pushed(n.action) ==> st'.done == st.done + handle(n).remains && st'.escaped == handle(n).escaped
  {
    if !Pushed(n.action) then st.(done := st.done + [n], escaped := false)
    else
      var h := handle(n);
      PushState(st.done + h.remains, RecordRateLimit(st.sync, h.rateLimit, now),
                st.visited + [n.id], st.calls + h.calls, h.escaped)
  }

  /**
   * The push pass over `todo` from state `st`: note by note, until an
   * exception escapes; the notes after it stay as they were.
   */
  function PushFrom(st: PushState, todo: seq<Note>, handle: Note -> Handled, now: int): (r: PushState)
    ensures st.visited <= r.visited && |r.visited| <= |st.visited| + |todo|
    ensures st.done <= r.done && st.calls <= r.calls
    ensures st.escaped ==> r.escaped && r.done == st.done + todo && r.visited == st.visited
    decreases |todo|
  {
    if todo == [] then st
    else if st.escaped then st.(done := st.done + todo)
    else PushFrom(PushOne(st, todo[0], handle, now), todo[1..], handle, now)
  }

  /** A pass that has not escaped handles the first note, then goes on with the rest. */
  lemma PushFromStep(st: PushState, todo: seq<Note>, handle: Note -> Handled, now: int)
    requires !st.escaped && todo != []
    ensures PushFrom(st, todo, handle, now) == PushFrom(PushOne(st, todo[0], handle, now), todo[1..], handle, now)
  {
  }

  /** A push pass over the whole note table, starting from the Sync row `sync`. */
  function PushAll(notes: seq<Note>, sync: SyncRow, handle: Note -> Handled, now: int): (r: PushState)
    ensures |r.visited| <= |notes|
  {
    PushFrom(PushState([], sync, [], [], false), notes, handle, now)
  }

  /** The ids of the notes the push query selects, in table order. */
  function PushedIds(notes: seq<Note>): seq<int>
  {
    if notes == [] then []
    else (if Pushed(notes[0].action) then [notes[0].id] else []) + PushedIds(notes[1..])
  }

  /** The ids of the notes not marked DELETE, in table order. */
  function KeptIds(notes: seq<Note>): seq<int>
  {
    if notes == [] then []
    else (if notes[0].action != Delete then [notes[0].id] else []) + KeptIds(notes[1..])
  }

  lemma {:induction false} NoteIdsAppend(a: seq<Note>, b: seq<Note>)
    ensures NoteIds(a + b) == NoteIds(a) + NoteIds(b)
    decreases |a|
  {
    if a == [] {
      assert a + b == b;
    } else {
      assert (a + b)[1..] == a[1..] + b;
      NoteIdsAppend(a[1..], b);
    }
  }

  /** Once an exception has escaped, the rest of the pass changes nothing but carries the notes over. */
  lemma {:induction false} EscapedStays(st: PushState, todo: seq<Note>, handle: Note -> Handled, now: int)
    requires st.escaped
    ensures PushFrom(st, todo, handle, now) == st.(done := st.done + todo)
  {
    if todo == [] {
      assert st.done + todo == st.done;
    }
  }

  /**
   * A push that completes visits exactly the notes whose action is not
   * NONE, NOEXSIST or CONFLICT, in table order.
   */
  lemma {:induction false} PushVisitsPushable(st: PushState, todo: seq<Note>, handle: Note -> Handled, now: int)
    requires !PushFrom(st, todo, handle, now).escaped
    ensures PushFrom(st, todo, handle, now).visited == st.visited + PushedIds(todo)
    decreases |todo|
  {
    if todo == [] {
      assert st.visited + PushedIds(todo) == st.visited;
    } else {
      assert !st.escaped;
      var n := todo[0];
      var st' := PushOne(st, n, handle, now);
      var here := if Pushed(n.action) then [n.id] else [];
      assert PushFrom(st, todo, handle, now).visited == st'.visited + PushedIds(todo[1..]) by {
        PushFromStep(st, todo, handle, now);
        PushVisitsPushable(st', todo[1..], handle, now);
      }
      assert PushedIds(todo) == here + PushedIds(todo[1..]);
      assert st.visited + here + PushedIds(todo[1..]) == st.visited + (here + PushedIds(todo[1..]));
    }
  }

  /** One step of push adds the note's id to those in the table unless the note is marked DELETE. */
  lemma PushOneIds(st: PushState, n: Note, handle: Note -> Handled, now: int)
    requires GoodHandler(handle)
    ensures NoteIds(PushOne(st, n, handle, now).done) == NoteIds(st.done) + (if n.action != Delete then [n.id] else [])
  {
    var added := if Pushed(n.action) then handle(n).remains else [n];
    assert PushOne(st, n, handle, now).done == st.done + added;
    assert NoteIds(added) == (if n.action != Delete then [n.id] else []) by {
      if added != [] {
        assert |added| == 1 && added[0] in added && added[0].id == n.id;
        assert added[1..] == [];
      }
    }
    NoteIdsAppend(st.done, added);
  }

  /**
   * A push that completes removes exactly the notes marked DELETE and
   * keeps every other note in table order.
   */
  lemma {:induction false} PushRemovesDeleted(st: PushState, todo: seq<Note>, handle: Note -> Handled, now: int)
    requires GoodHandler(handle)
    requires !PushFrom(st, todo, handle, now).escaped
    ensures NoteIds(PushFrom(st, todo, handle, now).done) == NoteIds(st.done) + KeptIds(todo)
    decreases |todo|
  {
    if todo == [] {
      assert NoteIds(st.done) + KeptIds(todo) == NoteIds(st.done);
    } else {
      assert !st.escaped;
      var n := todo[0];
      var st' := PushOne(st, n, handle, now);
      var here := if n.action != Delete then [n.id] else [];
      assert NoteIds(PushFrom(st, todo, handle, now).done) == NoteIds(st'.done) + KeptIds(todo[1..]) by {
        PushFromStep(st, todo, handle, now);
        PushRemovesDeleted(st', todo[1..], handle, now);
      }
      assert NoteIds(st'.done) == NoteIds(st.done) + here by {
        PushOneIds(st, n, handle, now);
      }
      assert KeptIds(todo) == here + KeptIds(todo[1..]);
      assert (NoteIds(st.done) + here) + KeptIds(todo[1..]) == NoteIds(st.done) + (here + KeptIds(todo[1..]));
    }
  }

  /**
   * Every note a push that completes leaves in the table is settled (no
   * CREATE, CHANGE or DELETE pending) and has no sharing request pending
   * unless push never selected it.
   */
  lemma {:induction false} PushSettlesNotes(st: PushState, todo: seq<Note>, handle: Note -> Handled, now: int)
    requires GoodHandler(handle)
    requires !PushFrom(st, todo, handle, now).escaped
    requires forall m :: m in st.done ==> Settled(m.action)
    ensures forall m :: m in PushFrom(st, todo, handle, now).done ==>
              && Settled(m.action)
              && (PendingShare(m.shareStatus) ==> m in st.done || (m in todo && !Pushed(m.action)))
    decreases |todo|
  {
    if todo == [] {
    } else {
      assert !st.escaped;
      var n := todo[0];
      var st' := PushOne(st, n, handle, now);
      PushFromStep(st, todo, handle, now);
      assert !st'.escaped;
      assert Pushed(n.action) ==> HandledWell(n, handle(n));
      assert forall m :: m in st'.done ==> Settled(m.action);
      assert forall m :: m in st'.done && PendingShare(m.shareStatus) ==> m in st.done || (m == n && !Pushed(n.action));
      PushSettlesNotes(st', todo[1..], handle, now);
    }
  }

  /** Push never touches a note it does not select: each such note stays in the table as it was. */
  lemma {:induction false} PushKeepsUnselected(st: PushState, todo: seq<Note>, handle: Note -> Handled, now: int)
    ensures forall n :: n in st.done ==> n in PushFrom(st, todo, handle, now).done
    ensures forall n :: n in todo && !Pushed(n.action) ==> n in PushFrom(st, todo, handle, now).done
    decreases |todo|
  {
    if todo == [] {
    } else if st.escaped {
      EscapedStays(st, todo, handle, now);
    } else {
      var st' := PushOne(st, todo[0], handle, now);
      PushKeepsUnselected(st', todo[1..], handle, now);
    }
  }

  /**
   * The loop of push over the note table `todo` with loop body `handle`:
   * note by note in table order, until an exception escapes.
   */
  method PushLoop(todo: seq<Note>, sync: SyncRow, handle: Note -> Handled, now: int) returns (r: PushState)
    ensures r == PushAll(todo, sync, handle, now)
  {
    ghost var init := PushState([], sync, [], [], false);
    var done: seq<Note> := [];
    var sync', visited, calls, escaped := sync, [], [], false;
    var i := 0;
    while i < |todo|
      invariant 0 <= i <= |todo|
      invariant PushFrom(PushState(done, sync', visited, calls, false), todo[i..], handle, now)
             == PushFrom(init, todo, handle, now)
    {
      var n := todo[i];
      ghost var before := PushState(done, sync', visited, calls, false);
      assert todo[i..][0] == n && todo[i..][1..] == todo[i + 1..];
      if Pushed(n.action) {
        var h := handle(n);
        done := done + h.remains;
        sync' := RecordRateLimit(sync', h.rateLimit, now);
        visited := visited + [n.id];
        calls := calls + h.calls;
        escaped := h.escaped;
      } else {
        done := done + [n];
      }
      assert PushState(done, sync', visited, calls, escaped) == PushOne(before, n, handle, now);
      i := i + 1;
      if escaped {
        EscapedStays(PushState(done, sync', visited, calls, escaped), todo[i..], handle, now);
        return PushState(done + todo[i..], sync', visited, calls, true);
      }
    }
    assert todo[i..] == [];
    r := PushState(done, sync', visited, calls, false);
  }

  /** PushNote, bound to the session it works in and to what the remote answers. */
  class PushNote {
    const session: Session
    const filters: ContentFilters
    const remote: PushRemote

    constructor (session: Session, filters: ContentFilters, remote: PushRemote)
      ensures this.session == session && this.filters == filters && this.remote == remote
    {
      this.session := session;
      this.filters := filters;
      this.remote := remote;
    }

    /**
     * push: handles the selected notes in table order, starting from the
     * Sync row `sync`; returns the Sync row with any rate limit recorded,
     * the ids visited, the remote calls made and whether an exception
     * escaped (which ends the pass).
     */
    method Push(sync: SyncRow) returns (sync': SyncRow, visited: seq<int>, calls: seq<Call>, escaped: bool)
      modifies session
      ensures var r := PushAll(old(session.notes), sync, PushHandler(old(session.resources), filters, remote), remote.now);
              && session.notes == r.done && sync' == r.sync
              && visited == r.visited && calls == r.calls && escaped == r.escaped
      ensures session.resources == old(session.resources)
      ensures session.nextNoteId == old(session.nextNoteId) && session.nextResourceId == old(session.nextResourceId)
      ensures session.downloads == old(session.downloads)
    {
      var r := PushLoop(session.notes, sync, PushHandler(session.resources, filters, remote), remote.now);
      session.notes := r.done;
      return r.sync, r.visited, r.calls, r.escaped;
    }
  }
}
