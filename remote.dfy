/**
 * What the synchronizer exchanges with the Evernote note store: the
 * outcome of one remote call, and the records (Thrift "ttypes") it
 * sends and receives.
 */
module Remote {
  import opened Wrappers
  import opened Text

  /**
   * The outcome of one remote call: its value, or the exception it raised
   * (EDAMUserException, EDAMSystemException with RATE_LIMIT_REACHED and
   * its duration in seconds, any other EDAMSystemException, socket.error).
   */
  datatype Outcome<T> = Ok(value: T) | UserError | RateLimit(seconds: int) | SystemOther | SocketError
  {
    /** The rate-limit duration this outcome reports, if it is a rate limit. */
    function RateLimitSeconds(): Option<int>
    {
      if RateLimit? then Some(seconds) else None
    }
  }

  /** A resource as the remote reports it (ttypes.Resource with data.bodyHash). */
  datatype RemoteResource = RemoteResource(guid: string, bodyHash: seq<byte>, mime: string, fileName: string)

  /** A note as the remote reports it (ttypes.Note, with attributes.shareDate). */
  datatype RemoteNote = RemoteNote(
    guid: string,
    title: string,
    content: string,
    updated: int,
    notebookGuid: Option<string>,
    tagGuids: seq<string>,
    resources: seq<RemoteResource>,
    shareDate: Option<int>)

  /** One page of findNotes: where it starts, how many notes exist in all, and the notes. */
  datatype NoteList = NoteList(startIndex: nat, totalNotes: int, notes: seq<RemoteNote>)

  /**
   * A resource sent with a note: `sourceId` names the local resource
   * whose file body is sent.
   */
  datatype OutResource = OutResource(noteGuid: string, sourceId: int, mime: string, fileName: string)

  /** The note sent to createNote/updateNote; `notebookGuid` and `guid` are set only when present. */
  datatype OutNote = OutNote(
    title: string,
    content: string,
    tagGuids: seq<string>,
    resources: seq<OutResource>,
    notebookGuid: Option<string>,
    guid: Option<string>)
}
