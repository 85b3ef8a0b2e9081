/**
 * Note sharing (everpad/provider/sync/note.py, ShareNoteMixin and
 * PullNote._check_sharing_information): sharing a note, stopping it,
 * and the rule by which a pull reconciles local and remote sharing.
 */
module Sharing {
  import opened Wrappers
  import opened Const
  import opened Remote
  import opened LocalStore

  /** Python truthiness of an optional timestamp: present and non-zero. */
  predicate Truthy(d: Option<int>)
  {
    d.Some? && d.value != 0
  }

  /** The public address of a shared note. */
  function ShareUrl(shard: string, guid: string, key: string): string
  {
    "https://www.evernote.com/shard/" + shard + "/sh/" + guid + "/" + key
  }

  /** The note `n` with its three sharing fields taken from `m`. */
  function WithSharingOf(n: Note, m: Note): Note
  {
    n.(shareStatus := m.shareStatus, shareDate := m.shareDate, shareUrl := m.shareUrl)
  }

  /** _stop_sharing_note: the note is no longer shared and has no share date or address. */
  function StopSharing(n: Note): (m: Note)
    ensures m.shareStatus == NotShared && m.shareDate == None && m.shareUrl == None
    ensures WithSharingOf(m, n) == n
  {
    n.(shareStatus := NotShared, shareDate := None, shareUrl := None)
  }

  /**
   * The two remote calls of _share_note, in the order they run: shareNote
   * for the note's guid (`key`), then getUser for the shard (`shard`), the
   * latter only when the former answered. Their joint outcome is the
   * public address, or the first exception raised.
   */
  function ShareCalls(guid: string, key: Outcome<string>, shard: Outcome<string>): (u: Outcome<string>)
    ensures u.Ok? <==> key.Ok? && shard.Ok?
    ensures u.Ok? ==> u.value == ShareUrl(shard.value, guid, key.value)
    ensures !key.Ok? ==> u == key
    ensures key.Ok? && !shard.Ok? ==> u == shard
  {
    match key
    case Ok(k) =>
      (match shard
       case Ok(s) => Ok(ShareUrl(s, guid, k))
       case _ => shard)
    case _ => key
  }

  /**
   * _share_note: `key` is the outcome of shareNote for the note's guid and
   * `shard` that of getUser. Returns the note and whether an exception
   * escaped (anything but a user error, from either call).
   */
  function ShareNote(n: Note, date: Option<int>, key: Outcome<string>, shard: Outcome<string>, now: int): (r: (Note, bool))
    ensures WithSharingOf(r.0, n) == n
    ensures var u := ShareCalls(n.guid, key, shard); r.1 <==> !u.Ok? && !u.UserError?
    ensures key.Ok? && shard.Ok? ==>
              && r.0.shareStatus == Shared
              && r.0.shareUrl == Some(ShareUrl(shard.value, n.guid, key.value))
              && r.0.shareDate == Some(if Truthy(date) then date.value else now)
    ensures key.UserError? || (key.Ok? && shard.UserError?) ==> r.0.shareStatus == NotShared
    ensures !(key.Ok? && shard.Ok?) ==> r.0.shareDate == n.shareDate && r.0.shareUrl == n.shareUrl
    ensures r.1 ==> r.0 == n
  {
    match ShareCalls(n.guid, key, shard)
    case Ok(url) =>
      (n.(shareUrl := Some(url),
          shareDate := Some(if Truthy(date) then date.value else now),
          shareStatus := Shared), false)
    case UserError => (n.(shareStatus := NotShared), false)
    case _ => (n, true)
  }

  /** What a pull does about sharing for one note. */
  datatype SharingAction = StopSharingNote | ShareAgain | KeepSharing

  /**
   * The decision of _check_sharing_information, given the remote share
   * date and the local note: stop when the remote has no share date and
   * the note is shared or waiting to stop; share again when the dates
   * differ and the note is not shared, or shared with a remote share date.
   */
  function SharingDecision(remoteDate: Option<int>, n: Note): (a: SharingAction)
    ensures a.StopSharingNote? <==>
      !Truthy(remoteDate) && (n.shareStatus.Shared? || n.shareStatus.NeedStop?)
    ensures a.ShareAgain? <==>
      remoteDate != n.shareDate
      && (n.shareStatus.NotShared? || (n.shareStatus.Shared? && Truthy(remoteDate)))
  {
    if !(Truthy(remoteDate) || n.shareStatus == NotShared || n.shareStatus == NeedShare) then
      StopSharingNote
    else if !(remoteDate == n.shareDate || n.shareStatus == NeedShare || n.shareStatus == NeedStop) then
      ShareAgain
    else KeepSharing
  }

  /** A pending local share request is never disturbed by a pull; a pending stop is only ever carried out. */
  lemma PendingRequestsSurvivePull(remoteDate: Option<int>, n: Note)
    ensures n.shareStatus == NeedShare ==> SharingDecision(remoteDate, n) == KeepSharing
    ensures n.shareStatus == NeedStop ==> SharingDecision(remoteDate, n) != ShareAgain
  {
  }

  /**
   * _check_sharing_information on note `n` and remote share date
   * `remoteDate`; `key` and `shard` are what shareNote and getUser would
   * answer. Returns the note
   * and whether an exception escaped.
   */
  function CheckSharing(n: Note, remoteDate: Option<int>, key: Outcome<string>, shard: Outcome<string>, now: int): (r: (Note, bool))
    ensures WithSharingOf(r.0, n) == n
    ensures SharingDecision(remoteDate, n) == StopSharingNote ==> r == (StopSharing(n), false)
    ensures SharingDecision(remoteDate, n) == ShareAgain ==> r == ShareNote(n, remoteDate, key, shard, now)
    ensures SharingDecision(remoteDate, n) == KeepSharing ==> r == (n, false)
  {
    match SharingDecision(remoteDate, n)
    case StopSharingNote => (StopSharing(n), false)
    case ShareAgain => ShareNote(n, remoteDate, key, shard, now)
    case KeepSharing => (n, false)
  }

  /**
   * Once a pull has reconciled sharing with successful share calls, the
   * next pull with the same remote share date leaves the note alone,
   * provided the remote date is set, or is absent and the note does not
   * carry a stale date while unshared.
   */
  lemma SharingSettles(n: Note, remoteDate: Option<int>, key: Outcome<string>, shard: Outcome<string>, now: int)
    requires key.Ok? && shard.Ok?
    requires Truthy(remoteDate) || (remoteDate == None && !(n.shareStatus == NotShared && n.shareDate.Some?))
    ensures SharingDecision(remoteDate, CheckSharing(n, remoteDate, key, shard, now).0) == KeepSharing
  {
  }

  /**
   * A remote share date of 0 never settles: `share_date or now` stores
   * now for it, so an unshared note is shared again, and on the next pull
   * the same falsy remote date stops sharing it, which brings it back to
   * where it started.
   */
  lemma ZeroShareDateAlternates(n: Note, key: Outcome<string>, shard: Outcome<string>, now: int)
    requires key.Ok? && shard.Ok?
    requires n.shareStatus == NotShared && n.shareDate == None
    ensures var shared := CheckSharing(n, Some(0), key, shard, now).0;
      && shared.shareStatus == Shared && shared.shareDate == Some(now)
      && SharingDecision(Some(0), shared) == StopSharingNote
      && CheckSharing(shared, Some(0), key, shard, now).0 == n.(shareUrl := None)
  {
  }
}
