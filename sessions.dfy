/** The registry of client sessions kept beside the event store: a list,
    newest first, of each session's id and the paths of its two pipes. */
module Sessions {

  datatype Option<T> = None | Some(value: T)

  datatype SessionRecord = SessionRecord(sessionId: int, requestPipe: string, responsePipe: string)

  /** The position of the first record with this id, or -1. */
  function SessionIndex(sessions: seq<SessionRecord>, id: int): (k: int)
    ensures -1 <= k < |sessions|
    ensures k >= 0 ==> sessions[k].sessionId == id && forall j :: 0 <= j < k ==> sessions[j].sessionId != id
    ensures k == -1 <==> forall j :: 0 <= j < |sessions| ==> sessions[j].sessionId != id
  {
    if |sessions| == 0 then -1
    else if sessions[0].sessionId == id then 0
    else
      var k := SessionIndex(sessions[1..], id);
      if k < 0 then -1 else k + 1
  }

  /** Removing the session with an id, as `free_Session` is evidently meant
      to: the first record with that id is unlinked and the others stay in
      order; with no such record nothing changes. */
  function RemoveSession(sessions: seq<SessionRecord>, id: int): (r: seq<SessionRecord>)
  {
    var k := SessionIndex(sessions, id);
    if k < 0 then sessions else sessions[..k] + sessions[k + 1..]
  }

  lemma RemoveSessionOutcome(sessions: seq<SessionRecord>, id: int)
    ensures var r := RemoveSession(sessions, id);
      && ((forall j :: 0 <= j < |sessions| ==> sessions[j].sessionId != id) ==> r == sessions)
      && ((exists j :: 0 <= j < |sessions| && sessions[j].sessionId == id) ==>
            exists k :: 0 <= k < |sessions| && sessions[k].sessionId == id &&
              (forall j :: 0 <= j < k ==> sessions[j].sessionId != id) &&
              r == sessions[..k] + sessions[k + 1..])
  {
    var k := SessionIndex(sessions, id);
    if k >= 0 {
      assert sessions[k].sessionId == id;
    }
  }

  /** Storing a session and then removing it by its id gives back the
      registry as it was. */
  lemma RemoveAfterStore(sessions: seq<SessionRecord>, rec: SessionRecord)
    ensures RemoveSession([rec] + sessions, rec.sessionId) == sessions
  {
    assert SessionIndex([rec] + sessions, rec.sessionId) == 0;
    assert ([rec] + sessions)[1..] == sessions;
  }

  // ---------------------------------------------------------------------
  // free_Session as the source writes it

  /** One turn of the source's loop with `current` at position `c`: it
      steps to the next node and then reads that node's successor. `None`
      stands for the dereference of the null pointer past the end. */
  function FreeSessionFrom(sessions: seq<SessionRecord>, c: nat, id: int): Option<seq<SessionRecord>>
    requires c < |sessions|
    decreases |sessions| - c
  {
    var n := c + 1;
    if n >= |sessions| then None
    else if n + 1 < |sessions| && sessions[n + 1].sessionId == id then
      Some(sessions[..n + 1] + sessions[n + 2..])
    else FreeSessionFrom(sessions, n, id)
  }

  /** `free_Session` as written. */
  function FreeSessionAsWritten(sessions: seq<SessionRecord>, id: int): Option<seq<SessionRecord>> {
    if |sessions| == 0 then Some(sessions) else FreeSessionFrom(sessions, 0, id)
  }

  lemma {:induction false} FreeSessionFromOutcome(sessions: seq<SessionRecord>, c: nat, id: int)
    requires c < |sessions|
    ensures FreeSessionFrom(sessions, c, id) == None <==>
      forall p :: c + 2 <= p < |sessions| ==> sessions[p].sessionId != id
    ensures FreeSessionFrom(sessions, c, id) != None ==>
      exists p :: c + 2 <= p < |sessions| && sessions[p].sessionId == id &&
        (forall q :: c + 2 <= q < p ==> sessions[q].sessionId != id) &&
        FreeSessionFrom(sessions, c, id) == Some(sessions[..p] + sessions[p + 1..])
    decreases |sessions| - c
  {
    var n := c + 1;
    if n < |sessions| && !(n + 1 < |sessions| && sessions[n + 1].sessionId == id) {
      FreeSessionFromOutcome(sessions, n, id);
    } else if n + 1 < |sessions| {
      assert sessions[..n + 1] + sessions[n + 2..] == sessions[..c + 2] + sessions[c + 3..];
    }
  }

  /** As written, the loop never looks at the first two records, and it
      dereferences null unless a later record has the id. */
  lemma FreeSessionAsWrittenOutcome(sessions: seq<SessionRecord>, id: int)
    ensures FreeSessionAsWritten(sessions, id) == None <==>
      |sessions| > 0 && forall p :: 2 <= p < |sessions| ==> sessions[p].sessionId != id
    ensures FreeSessionAsWritten(sessions, id) != None && |sessions| > 0 ==>
      exists p :: 2 <= p < |sessions| && sessions[p].sessionId == id &&
        FreeSessionAsWritten(sessions, id) == Some(sessions[..p] + sessions[p + 1..])
  {
    if |sessions| > 0 {
      FreeSessionFromOutcome(sessions, 0, id);
    }
  }

  /** The input that shows it: with one session registered, removing that
      very session dereferences null, where the intended removal leaves an
      empty registry. */
  lemma FreeSessionSingleCrashes(rec: SessionRecord)
    ensures FreeSessionAsWritten([rec], rec.sessionId) == None
    ensures RemoveSession([rec], rec.sessionId) == []
  {
  }

  // ---------------------------------------------------------------------
  // The registry object

  /** `sessions_head` and the functions that change it. */
  class SessionRegistry {
    var sessions: seq<SessionRecord>

    constructor ()
      ensures sessions == []
    {
      sessions := [];
    }

    /** `store_session_details`: the new session goes in front, the others
        keep their order. */
    method StoreSessionDetails(sessionId: int, requestPipe: string, responsePipe: string)
      modifies this
      ensures sessions == [SessionRecord(sessionId, requestPipe, responsePipe)] + old(sessions)
    {
      var node := SessionRecord(sessionId, requestPipe, responsePipe);
      sessions := [node] + sessions;
    }

    /** `free_sessions`: every record is released and the list is empty. */
    method FreeSessions()
      modifies this
      ensures sessions == []
    {
      sessions := [];
    }

    /** `free_Session` with the intended behaviour: walk to the first record
        with the id and unlink it. */
    method FreeSession(id: int)
      modifies this
      ensures sessions == RemoveSession(old(sessions), id)
    {
      var k := 0;
      while k < |sessions|
        invariant 0 <= k <= |sessions|
        invariant forall j :: 0 <= j < k ==> sessions[j].sessionId != id
      {
        if sessions[k].sessionId == id {
          sessions := sessions[..k] + sessions[k + 1..];
          return;
        }
        k := k + 1;
      }
    }

    /** `SessionList`: the newest session, if any. */
    method Head() returns (head: Option<SessionRecord>)
      ensures sessions == [] ==> head == None
      ensures sessions != [] ==> head == Some(sessions[0])
    {
      head := if sessions == [] then None else Some(sessions[0]);
    }
  }
}
