/**
 * The sync agent (everpad/provider/sync/agent.py): the thread object that
 * keeps the Sync row, decides whether the remote has changed, runs the
 * pull and push phases in order and reports its progress through the
 * sync-state-changed and data-changed signals.
 *
 * The remote `getSyncState` call is a parameter (its outcome); whether
 * each notebook, tag or note phase raises is a parameter too.
 */
module Agent {
  import opened Wrappers
  import opened Const
  import opened Remote
  import opened LocalStore

  /** An emitted signal: sync_state_changed with its SYNC_STATE_* value, or data_changed. */
  datatype Signal = StateChanged(event: SyncEvent) | DataChanged

  /** A call on the sync timer. */
  datatype TimerOp = StopTimer | StartTimer(interval: int)

  /*
   * Timer
   */

  /**
   * The configured delay (`int(setting or 0)`): a missing or zero setting
   * selects the default delay.
   */
  function SyncDelay(setting: Option<int>): (d: int)
    ensures d != 0
    ensures setting == None || setting == Some(0) ==> d == DefaultSyncDelay
    ensures setting.Some? && setting.value != 0 ==> d == setting.value
  {
    var delay := setting.GetOr(0);
    if delay == 0 then DefaultSyncDelay else delay
  }

  /**
   * The timer calls `update_timer` makes: always a stop first; then a
   * start with the selected delay, unless that delay is the manual one.
   */
  function TimerOps(setting: Option<int>): (ops: seq<TimerOp>)
    ensures 1 <= |ops| <= 2 && ops[0] == StopTimer
    ensures |ops| == 2 <==> setting != Some(SyncManual)
    ensures |ops| == 2 ==> ops[1] == StartTimer(SyncDelay(setting))
  {
    var delay := SyncDelay(setting);
    [StopTimer] + (if delay != SyncManual then [StartTimer(delay)] else [])
  }

  /** The interval the timer runs with after `ops`, or None when it is stopped. */
  function TimerAfter(ops: seq<TimerOp>, running: Option<int>): (r: Option<int>)
    ensures ops == [] ==> r == running
    ensures ops != [] && ops[|ops| - 1].StartTimer? ==> r == Some(ops[|ops| - 1].interval)
    ensures ops != [] && ops[|ops| - 1] == StopTimer ==> r == None
  {
    if ops == [] then running
    else match ops[|ops| - 1]
      case StopTimer => None
      case StartTimer(interval) => Some(interval)
  }

  /*
   * The Sync row
   */

  /**
   * The Sync table after `_init_sync`: a first row is created when there
   * is none; otherwise the first row has its rate-limit and connection
   * error fields zeroed and keeps its update count and last sync time.
   */
  function InitTable(table: seq<SyncRow>, now: int): (t: seq<SyncRow>)
    ensures |t| == if table == [] then 1 else |table|
    ensures t[0].rateLimit == 0 && t[0].rateLimitTime == 0 && t[0].connectErrorCount == 0
    ensures table == [] ==> t[0] == SyncRow(0, now, 0, 0, 0)
    ensures table != [] ==> t[0].updateCount == table[0].updateCount && t[0].lastSync == table[0].lastSync
    ensures table != [] ==> t[1..] == table[1..]
  {
    if table == [] then [SyncRow(0, now, 0, 0, 0)]
    else [table[0].(rateLimit := 0, rateLimitTime := 0, connectErrorCount := 0)] + table[1..]
  }

  /** Starting the agent twice leaves the Sync table as starting it once did. */
  lemma InitTableIdempotent(table: seq<SyncRow>, now: int, later: int)
    ensures InitTable(InitTable(table, now), later) == InitTable(table, now)
  {
    var once := InitTable(table, now);
    var twice := InitTable(once, later);
    assert twice[0] == once[0];
    assert twice[1..] == once[1..];
  }

  /**
   * What `_need_to_update` leaves: the Sync row, whether the remote has
   * changed, and whether an exception escaped it.
   */
  datatype Checked = Checked(row: SyncRow, need: bool, raised: bool)

  /**
   * `_need_to_update` given the outcome of `getSyncState`: on success the
   * remote update count is stored and an update is needed exactly when it
   * differs from the stored one. A rate limit is recorded, a connection
   * error counted, and neither asks for an update; a user error escapes.
   * Any other system error returns no update and leaves the row alone
   * (the code as written raises there instead: see
   * NeedToUpdateAsWritten).
   */
  function NeedToUpdate(row: SyncRow, o: Outcome<int>, now: int): (r: Checked)
    ensures r.need ==> o.Ok?
    ensures r.raised <==> o.UserError?
    ensures o.Ok? ==> r.row == row.(updateCount := o.value) && (r.need <==> o.value != row.updateCount)
    ensures o.RateLimit? ==> r.row == RecordRateLimit(row, Some(o.seconds), now) && r.row.updateCount == row.updateCount
    ensures o.SocketError? ==> r.row == row.(connectErrorCount := row.connectErrorCount + 1)
    ensures o.UserError? || o.SystemOther? ==> r.row == row
  {
    match o
    case Ok(count) => Checked(row.(updateCount := count), count != row.updateCount, false)
    case RateLimit(seconds) => Checked(RecordRateLimit(row, Some(seconds), now), false, false)
    case SocketError => Checked(row.(connectErrorCount := row.connectErrorCount + 1), false, false)
    case UserError => Checked(row, false, true)
    case SystemOther => Checked(row, false, false)
  }

  /** Asking again with the same remote count finds nothing to update and changes nothing. */
  lemma NeedToUpdateSettles(row: SyncRow, count: int, now: int, later: int)
    ensures var first := NeedToUpdate(row, Ok(count), now);
      NeedToUpdate(first.row, Ok(count), later) == Checked(first.row, false, false)
  {
  }

  /**
   * `_need_to_update` as written, for a system error other than a rate
   * limit: the handler ends without returning, and the read of the
   * never-assigned remote count raises. Every other outcome is handled
   * as in NeedToUpdate.
   */
  function NeedToUpdateAsWritten(row: SyncRow, o: Outcome<int>, now: int): (r: Checked)
    ensures o.SystemOther? ==> r == Checked(row, false, true)
    ensures !o.SystemOther? ==> r == NeedToUpdate(row, o, now)
  {
    if o.SystemOther? then Checked(row, false, true) else NeedToUpdate(row, o, now)
  }

  /**
   * The two differ on exactly one outcome: a system error that is not a
   * rate limit escapes as written, and is absorbed when corrected.
   */
  lemma SystemErrorEscapesAsWritten(row: SyncRow, o: Outcome<int>, now: int)
    ensures NeedToUpdateAsWritten(row, o, now) != NeedToUpdate(row, o, now) <==> o.SystemOther?
    ensures NeedToUpdateAsWritten(row, SystemOther, now).raised
    ensures !NeedToUpdate(row, SystemOther, now).raised
  {
  }

  /*
   * The phases of a cycle and the signals they emit
   */

  /** The six steps of a cycle: the three pulls, then the three pushes. */
  datatype Phase = PullNotebooks | PullTags | PullNotes | PushNotebooks | PushTags | PushNotes
  {
    /** The SYNC_STATE_* value emitted just before the step runs. */
    function Announce(): SyncEvent
    {
      match this
      case PullNotebooks => NotebooksRemote
      case PullTags => TagsRemote
      case PullNotes => NotesRemote
      case PushNotebooks => NotebooksLocal
      case PushTags => TagsLocal
      case PushNotes => NotesLocal
    }

    predicate IsPull()
    {
      PullNotebooks? || PullTags? || PullNotes?
    }
  }

  /** `remote_changes`, in order. */
  const RemotePhases: seq<Phase> := [PullNotebooks, PullTags, PullNotes]

  /** `local_changes`, in order. */
  const LocalPhases: seq<Phase> := [PushNotebooks, PushTags, PushNotes]

  /** The steps a cycle attempts: the pulls only when the remote has changed, the pushes always. */
  function Planned(need: bool): (ps: seq<Phase>)
    ensures |ps| == if need then 6 else 3
    ensures forall i :: 0 <= i < |ps| ==> (ps[i].IsPull() <==> need && i < 3)
  {
    (if need then RemotePhases else []) + LocalPhases
  }

  /** Whether one of `ps` raises. */
  predicate FailsIn(ps: seq<Phase>, raises: Phase -> bool)
  {
    ps != [] && (raises(ps[0]) || FailsIn(ps[1..], raises))
  }

  /** `ps` fails exactly when one of its steps raises. */
  lemma {:induction false} FailsInSome(ps: seq<Phase>, raises: Phase -> bool)
    ensures FailsIn(ps, raises) <==> exists i :: 0 <= i < |ps| && raises(ps[i])
  {
    if ps != [] {
      FailsInSome(ps[1..], raises);
      if exists i :: 0 <= i < |ps| && raises(ps[i]) {
        var i :| 0 <= i < |ps| && raises(ps[i]);
        if i > 0 {
          assert ps[1..][i - 1] == ps[i];
        }
      }
      if FailsIn(ps[1..], raises) {
        var i :| 0 <= i < |ps| - 1 && raises(ps[1..][i]);
        assert ps[i + 1] == ps[1..][i];
      }
    }
  }

  /**
   * The steps that run when `ps` are attempted in order: all of them up
   * to the first that raises, which runs and stops the rest.
   */
  function Ran(ps: seq<Phase>, raises: Phase -> bool): (r: seq<Phase>)
    ensures |r| <= |ps| && r == ps[..|r|]
    ensures ps != [] ==> r != []
    ensures forall i :: 0 <= i < |r| - 1 ==> !raises(r[i])
    ensures !FailsIn(ps, raises) ==> r == ps
    ensures FailsIn(ps, raises) ==> raises(r[|r| - 1])
  {
    if ps == [] then []
    else if raises(ps[0]) then [ps[0]]
    else [ps[0]] + Ran(ps[1..], raises)
  }

  /** Running `a` then `b`: `b` runs only when nothing in `a` raised. */
  lemma {:induction false} RanAppend(a: seq<Phase>, b: seq<Phase>, raises: Phase -> bool)
    ensures Ran(a + b, raises) == if FailsIn(a, raises) then Ran(a, raises) else a + Ran(b, raises)
    ensures FailsIn(a + b, raises) <==> FailsIn(a, raises) || FailsIn(b, raises)
  {
    if a == [] {
      assert a + b == b;
    } else {
      var ab := a + b;
      assert ab[0] == a[0] && ab[1..] == a[1..] + b;
      if raises(a[0]) {
        assert Ran(ab, raises) == [a[0]] == Ran(a, raises);
        assert FailsIn(ab, raises) && FailsIn(a, raises);
      } else {
        RanAppend(a[1..], b, raises);
        assert Ran(ab, raises) == [a[0]] + Ran(a[1..] + b, raises);
        assert FailsIn(ab, raises) == FailsIn(a[1..] + b, raises);
        assert FailsIn(a, raises) == FailsIn(a[1..], raises);
        assert FailsIn(a, raises) ==> Ran(a, raises) == [a[0]] + Ran(a[1..], raises);
        assert !FailsIn(a, raises) ==> [a[0]] + (a[1..] + Ran(b, raises)) == a + Ran(b, raises);
      }
    }
  }

  /** A step that raises stops the cycle: no later step runs. */
  lemma LaterStepsSkipped(ps: seq<Phase>, raises: Phase -> bool, k: nat)
    requires k < |ps| && raises(ps[k])
    ensures |Ran(ps, raises)| <= k + 1
  {
    var r := Ran(ps, raises);
    if |r| > k + 1 {
      assert r[k] == ps[k];
    }
  }

  /** The announcements of `ps`, in order. */
  function Announced(ps: seq<Phase>): (s: seq<Signal>)
    ensures |s| == |ps|
    ensures forall i :: 0 <= i < |ps| ==> s[i] == StateChanged(ps[i].Announce())
  {
    seq(|ps|, i requires 0 <= i < |ps| => StateChanged(ps[i].Announce()))
  }

  /** Only step announcements are among them: no START, FINISH or data_changed. */
  lemma AnnouncesStepsOnly(ps: seq<Phase>)
    ensures DataChanged !in Announced(ps)
    ensures StateChanged(Start) !in Announced(ps) && StateChanged(Finish) !in Announced(ps)
  {
  }

  /** Announcing a prefix of the steps gives a prefix of their announcements. */
  lemma AnnouncedPrefix(ps: seq<Phase>, n: nat)
    requires n <= |ps|
    ensures Announced(ps[..n]) == Announced(ps)[..n]
  {
  }

  /** The signals `remote_changes` emits when none of its steps raises. */
  const RemoteSignals: seq<Signal> :=
    [StateChanged(NotebooksRemote), StateChanged(TagsRemote), StateChanged(NotesRemote)]

  /** The signals `local_changes` emits when none of its steps raises. */
  const LocalSignals: seq<Signal> :=
    [StateChanged(NotebooksLocal), StateChanged(TagsLocal), StateChanged(NotesLocal)]

  /** Every planned step announced, in order. */
  lemma AnnouncedPlanned(need: bool)
    ensures Announced(Planned(need)) == (if need then RemoteSignals else []) + LocalSignals
  {
  }

  /**
   * The signals of a cycle that gets past `_need_to_update`: START, the
   * announcement of each step that runs, FINISH, and data_changed.
   */
  function CycleSignals(need: bool, raises: Phase -> bool): (s: seq<Signal>)
    ensures |s| == |Ran(Planned(need), raises)| + 3
    ensures s[0] == StateChanged(Start) && s[|s| - 2] == StateChanged(Finish) && s[|s| - 1] == DataChanged
  {
    [StateChanged(Start)] + Announced(Ran(Planned(need), raises)) + [StateChanged(Finish), DataChanged]
  }

  /**
   * A cycle opens with START and closes with FINISH then data_changed,
   * each emitted once. Between them come the announcements of the steps
   * that ran: at least one, and always a prefix of the planned ones, so
   * the remote steps (present exactly when the remote has changed) come
   * before the local ones.
   */
  lemma CycleShape(need: bool, raises: Phase -> bool)
    ensures var s := CycleSignals(need, raises);
      && |s| >= 4 && s[0] == StateChanged(Start)
      && s[|s| - 2..] == [StateChanged(Finish), DataChanged]
      && DataChanged !in s[..|s| - 1]
      && StateChanged(Start) !in s[1..]
      && StateChanged(Finish) !in s[..|s| - 2]
      && s[1..|s| - 2] <= (if need then RemoteSignals else []) + LocalSignals
      && (StateChanged(NotebooksRemote) in s <==> need)
  {
    var ps := Planned(need);
    var ran := Ran(ps, raises);
    var mid := Announced(ran);
    var s := CycleSignals(need, raises);
    assert s[1..|s| - 2] == mid;
    AnnouncesStepsOnly(ran);
    assert s[..|s| - 1] == [StateChanged(Start)] + mid + [StateChanged(Finish)];
    assert s[1..] == mid + [StateChanged(Finish), DataChanged];
    assert s[..|s| - 2] == [StateChanged(Start)] + mid;
    assert mid == Announced(ps)[..|ran|] by {
      AnnouncedPrefix(ps, |ran|);
    }
    AnnouncedPlanned(need);
    assert StateChanged(NotebooksRemote) in s <==> StateChanged(NotebooksRemote) in mid;
    if need {
      assert mid[0] == StateChanged(NotebooksRemote);
    } else {
      assert StateChanged(NotebooksRemote) !in LocalSignals;
    }
  }

  /** When no step raises, every planned step runs and is announced in order. */
  lemma CleanCycle(need: bool, raises: Phase -> bool)
    requires !FailsIn(Planned(need), raises)
    ensures CycleSignals(need, raises)
      == [StateChanged(Start)] + (if need then RemoteSignals else []) + LocalSignals
      + [StateChanged(Finish), DataChanged]
  {
    AnnouncedPlanned(need);
  }

  /**
   * The steps of a cycle: the pulls it runs, then, unless one of them
   * raised, the pushes it runs.
   */
  lemma PlannedRuns(need: bool, raises: Phase -> bool)
    ensures var remote := if need then RemotePhases else [];
      Ran(Planned(need), raises)
        == Ran(remote, raises) + (if FailsIn(remote, raises) then [] else Ran(LocalPhases, raises))
      && (FailsIn(Planned(need), raises) <==> FailsIn(remote, raises) || FailsIn(LocalPhases, raises))
  {
    var remote := if need then RemotePhases else [];
    assert Planned(need) == remote + LocalPhases;
    RanAppend(remote, LocalPhases, raises);
    if !FailsIn(remote, raises) {
      assert Ran(remote, raises) == remote;
    }
  }

  /** The signals of a cycle, emitted one after another after `before`. */
  lemma CycleSignalsAfter(before: seq<Signal>, need: bool, raises: Phase -> bool)
    ensures before + [StateChanged(Start)] + Announced(Ran(Planned(need), raises)) + [StateChanged(Finish)] + [DataChanged]
      == before + CycleSignals(need, raises)
  {
  }

  lemma AnnouncedAppend(a: seq<Phase>, b: seq<Phase>)
    ensures Announced(a + b) == Announced(a) + Announced(b)
  {
  }

  /*
   * The agent
   */

  /** The sync thread: its status, the Sync table, the timer and the signals emitted so far. */
  class SyncThread {
    var status: Status
    var lastSync: int
    /** The Sync table; its first row is the agent's sync state. */
    var syncTable: seq<SyncRow>
    /** sync_state_changed and data_changed, in the order they were emitted. */
    var signals: seq<Signal>
    /** Calls on the timer, in order, and the interval it runs with (None: stopped). */
    var timerLog: seq<TimerOp>
    var timerInterval: Option<int>
    /** Wake-ups requested of the waiting thread. */
    var wakes: nat
    /** Sessions rolled back and replaced after a failed step. */
    var sessionResets: nat

    /** A new thread over the stored Sync table; the timer is armed from `setting`. */
    constructor(table: seq<SyncRow>, setting: Option<int>)
      ensures syncTable == table && signals == [] && wakes == 0 && sessionResets == 0
      ensures status == Idle
      ensures timerLog == TimerOps(setting) && timerInterval == TimerAfter(TimerOps(setting), None)
    {
      status := Idle;
      lastSync := 0;
      syncTable := table;
      signals := [];
      wakes := 0;
      sessionResets := 0;
      timerLog := [];
      timerInterval := None;
      new;
      UpdateTimer(setting);
    }

    /** `_init_sync`: establishes the Sync row and clears the status. */
    method InitSync(now: int)
      modifies this
      ensures status == Idle && lastSync == now
      ensures syncTable == InitTable(old(syncTable), now)
      ensures signals == old(signals) && timerLog == old(timerLog) && timerInterval == old(timerInterval)
      ensures wakes == old(wakes) && sessionResets == old(sessionResets)
    {
      status := Idle;
      lastSync := now;
      syncTable := InitTable(syncTable, now);
    }

    /** `update_timer`: stop the timer, and restart it unless the delay is manual. */
    method UpdateTimer(setting: Option<int>)
      modifies this
      ensures timerLog == old(timerLog) + TimerOps(setting)
      ensures timerInterval == TimerAfter(TimerOps(setting), old(timerInterval))
      ensures status == old(status) && lastSync == old(lastSync) && syncTable == old(syncTable)
      ensures signals == old(signals) && wakes == old(wakes) && sessionResets == old(sessionResets)
    {
      var ops := TimerOps(setting);
      timerLog := timerLog + ops;
      timerInterval := TimerAfter(ops, timerInterval);
    }

    /** `sync`: wake the waiting thread once. */
    method Sync()
      modifies this
      ensures wakes == old(wakes) + 1
      ensures status == old(status) && lastSync == old(lastSync) && syncTable == old(syncTable)
      ensures signals == old(signals) && timerLog == old(timerLog) && timerInterval == old(timerInterval)
      ensures sessionResets == old(sessionResets)
    {
      wakes := wakes + 1;
    }

    /** `force_sync`: stop the timer, wake the thread once, and re-arm the timer. */
    method ForceSync(setting: Option<int>)
      modifies this
      ensures wakes == old(wakes) + 1
      ensures timerLog == old(timerLog) + [StopTimer] + TimerOps(setting)
      ensures timerInterval == TimerAfter(TimerOps(setting), None)
      ensures status == old(status) && lastSync == old(lastSync) && syncTable == old(syncTable)
      ensures signals == old(signals) && sessionResets == old(sessionResets)
    {
      timerLog := timerLog + [StopTimer];
      timerInterval := None;
      Sync();
      UpdateTimer(setting);
    }

    /** `_need_to_update` on the agent's Sync row, given the outcome of `getSyncState`. */
    method CheckRemote(o: Outcome<int>, now: int) returns (need: bool, raised: bool)
      requires syncTable != []
      modifies this
      ensures var c := NeedToUpdate(old(syncTable[0]), o, now);
        syncTable == old(syncTable)[0 := c.row] && need == c.need && raised == c.raised
      ensures status == old(status) && lastSync == old(lastSync) && signals == old(signals)
      ensures timerLog == old(timerLog) && timerInterval == old(timerInterval)
      ensures wakes == old(wakes) && sessionResets == old(sessionResets)
    {
      var c := NeedToUpdate(syncTable[0], o, now);
      syncTable := syncTable[0 := c.row];
      need, raised := c.need, c.raised;
    }

    /** Emits the announcement of `p`, then runs it; true when it raised. */
    method Step(p: Phase, raises: Phase -> bool) returns (raised: bool)
      requires status == Syncing
      modifies this
      ensures signals == old(signals) + [StateChanged(p.Announce())] && raised == raises(p)
      ensures status == old(status) && lastSync == old(lastSync) && syncTable == old(syncTable)
      ensures timerLog == old(timerLog) && timerInterval == old(timerInterval)
      ensures wakes == old(wakes) && sessionResets == old(sessionResets)
    {
      signals := signals + [StateChanged(p.Announce())];
      raised := raises(p);
    }

    /** `remote_changes`: the notebook, tag and note pulls, stopping at the first that raises. */
    method RemoteChanges(raises: Phase -> bool) returns (raised: bool)
      requires status == Syncing
      modifies this
      ensures signals == old(signals) + Announced(Ran(RemotePhases, raises))
      ensures raised == FailsIn(RemotePhases, raises)
      ensures status == old(status) && lastSync == old(lastSync) && syncTable == old(syncTable)
      ensures timerLog == old(timerLog) && timerInterval == old(timerInterval)
      ensures wakes == old(wakes) && sessionResets == old(sessionResets)
    {
      raised := Steps(RemotePhases, raises);
    }

    /** `local_changes`: the notebook, tag and note pushes, stopping at the first that raises. */
    method LocalChanges(raises: Phase -> bool) returns (raised: bool)
      requires status == Syncing
      modifies this
      ensures signals == old(signals) + Announced(Ran(LocalPhases, raises))
      ensures raised == FailsIn(LocalPhases, raises)
      ensures status == old(status) && lastSync == old(lastSync) && syncTable == old(syncTable)
      ensures timerLog == old(timerLog) && timerInterval == old(timerInterval)
      ensures wakes == old(wakes) && sessionResets == old(sessionResets)
    {
      raised := Steps(LocalPhases, raises);
    }

    /** Three steps in a row, the later ones skipped once one raises. */
    method Steps(ps: seq<Phase>, raises: Phase -> bool) returns (raised: bool)
      requires |ps| == 3 && status == Syncing
      modifies this
      ensures signals == old(signals) + Announced(Ran(ps, raises))
      ensures raised == FailsIn(ps, raises)
      ensures status == old(status) && lastSync == old(lastSync) && syncTable == old(syncTable)
      ensures timerLog == old(timerLog) && timerInterval == old(timerInterval)
      ensures wakes == old(wakes) && sessionResets == old(sessionResets)
    {
      var rest, last := ps[1..], ps[2..];
      assert rest[0] == ps[1] && rest[1..] == last && last[0] == ps[2] && last[1..] == [];
      assert FailsIn(last, raises) <==> raises(ps[2]);
      assert FailsIn(rest, raises) <==> raises(ps[1]) || raises(ps[2]);
      raised := Step(ps[0], raises);
      if !raised {
        raised := Step(ps[1], raises);
        if !raised {
          raised := Step(ps[2], raises);
        }
      }
    }

    /**
     * The guarded part of `perform`: the pulls when the remote has
     * changed, then the pushes, until a step raises.
     */
    method Changes(need: bool, raises: Phase -> bool) returns (failed: bool)
      requires status == Syncing
      modifies this
      ensures signals == old(signals) + Announced(Ran(Planned(need), raises))
      ensures failed == FailsIn(Planned(need), raises)
      ensures status == old(status) && lastSync == old(lastSync) && syncTable == old(syncTable)
      ensures timerLog == old(timerLog) && timerInterval == old(timerInterval)
      ensures wakes == old(wakes) && sessionResets == old(sessionResets)
    {
      ghost var remote := if need then RemotePhases else [];
      failed := false;
      if need {
        failed := RemoteChanges(raises);
      }
      ghost var pulled := signals;
      assert pulled == old(signals) + Announced(Ran(remote, raises));
      if !failed {
        failed := LocalChanges(raises);
        assert signals == old(signals) + (Announced(Ran(remote, raises)) + Announced(Ran(LocalPhases, raises)));
        AnnouncedAppend(Ran(remote, raises), Ran(LocalPhases, raises));
      }
      PlannedRuns(need, raises);
    }

    /**
     * `perform`: one sync cycle, given the outcome of `getSyncState` and
     * which steps raise. When `_need_to_update` raises, the exception
     * escapes right after START: no FINISH, no data_changed, and the
     * status stays SYNC. Otherwise the planned steps run up to the first
     * that raises; a failure rolls back and replaces the session; FINISH
     * and data_changed close the cycle and the status returns to NONE.
     */
    method Perform(o: Outcome<int>, raises: Phase -> bool, now: int) returns (escaped: bool)
      requires syncTable != []
      modifies this
      ensures lastSync == now
      ensures var c := NeedToUpdate(old(syncTable[0]), o, now);
        syncTable == old(syncTable)[0 := c.row] && escaped == c.raised
        && (escaped ==> status == Syncing && signals == old(signals) + [StateChanged(Start)]
                        && sessionResets == old(sessionResets))
        && (!escaped ==> status == Idle && signals == old(signals) + CycleSignals(c.need, raises)
                         && sessionResets == old(sessionResets) + (if FailsIn(Planned(c.need), raises) then 1 else 0))
      ensures timerLog == old(timerLog) && timerInterval == old(timerInterval) && wakes == old(wakes)
    {
      status := Syncing;
      lastSync := now;
      signals := signals + [StateChanged(Start)];
      var need, raised := CheckRemote(o, now);
      if raised {
        return true;
      }
      var failed := Changes(need, raises);
      if failed {
        sessionResets := sessionResets + 1;
      }
      signals := signals + [StateChanged(Finish)];
      status := Idle;
      signals := signals + [DataChanged];
      escaped := false;
      CycleSignalsAfter(old(signals), need, raises);
    }
  }
}
