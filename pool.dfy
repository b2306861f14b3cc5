/** The pool of session ids of the server: a fixed table telling which of
    the ids `0 .. MaxSessions - 1` belong to an active session. */
module SessionPool {

  const MaxSessions: nat := 10

  /** The lowest id whose slot is free, or -1 when every slot is taken. */
  function LowestFree(active: seq<bool>): (i: int)
    ensures -1 <= i < |active|
    ensures i >= 0 ==> !active[i] && forall j :: 0 <= j < i ==> active[j]
    ensures i == -1 <==> forall j :: 0 <= j < |active| ==> active[j]
  {
    if |active| == 0 then -1
    else
      var i := LowestFree(active[..|active| - 1]);
      if i >= 0 then i
      else if !active[|active| - 1] then |active| - 1
      else -1
  }

  /** `generate_session_id` on the table's value: the new table and the id. */
  function Generate(active: seq<bool>): (r: (seq<bool>, int))
  {
    var i := LowestFree(active);
    if i < 0 then (active, -1) else (active[i := true], i)
  }

  /** `release_session_id` on the table's value. */
  function Release(active: seq<bool>, id: int): (r: seq<bool>)
  {
    if 0 <= id < |active| then active[id := false] else active
  }

  /** The id handed out is the lowest free one, and only its slot changes;
      with no free slot the answer is -1 and nothing changes. */
  lemma GenerateOutcome(active: seq<bool>)
    ensures var (active', id) := Generate(active);
      && |active'| == |active|
      && (id == -1 <==> forall j :: 0 <= j < |active| ==> active[j])
      && (id == -1 ==> active' == active)
      && (id >= 0 ==>
            && id < |active| && !active[id] && active'[id]
            && (forall j :: 0 <= j < id ==> active[j])
            && (forall j :: 0 <= j < |active| && j != id ==> active'[j] == active[j]))
  {
  }

  /** Releasing clears exactly the slot named, if it is in range. */
  lemma ReleaseOutcome(active: seq<bool>, id: int)
    ensures var active' := Release(active, id);
      && |active'| == |active|
      && (!(0 <= id < |active|) ==> active' == active)
      && (0 <= id < |active| ==> !active'[id])
      && (forall j :: 0 <= j < |active| && j != id ==> active'[j] == active[j])
      && Release(active', id) == active'
  {
  }

  /** Releasing the id just handed out restores the table. */
  lemma ReleaseUndoesGenerate(active: seq<bool>)
    ensures var (active', id) := Generate(active);
      id >= 0 ==> Release(active', id) == active
  {
    var (active', id) := Generate(active);
    if id >= 0 {
      assert Release(active', id) == active[id := true][id := false];
      assert active[id := true][id := false] == active;
    }
  }

  /** Two allocations with no release between them never hand out the same
      id. */
  lemma GenerateTwiceDistinct(active: seq<bool>)
    ensures var (active1, id1) := Generate(active);
      var (_, id2) := Generate(active1);
      id1 >= 0 && id2 >= 0 ==> id1 != id2
  {
  }

  /** The table `active_sessions`. */
  class Pool {
    const active: array<bool>

    ghost predicate Valid()
      reads this
    {
      active.Length == MaxSessions
    }

    /** All slots start free. */
    constructor ()
      ensures Valid() && fresh(active)
      ensures forall j :: 0 <= j < MaxSessions ==> !active[j]
    {
      active := new bool[MaxSessions](_ => false);
    }

    /** `generate_session_id`: scan for the first free slot and take it. */
    method GenerateSessionId() returns (id: int)
      requires Valid()
      modifies active
      ensures (active[..], id) == Generate(old(active[..]))
      ensures -1 <= id < MaxSessions
    {
      for i := 0 to MaxSessions
        invariant forall j :: 0 <= j < i ==> active[j]
        invariant active[..] == old(active[..])
      {
        if !active[i] {
          active[i] := true;
          return i;
        }
      }
      return -1;
    }

    /** `release_session_id`: free the slot of an id in range, ignore the
        others. */
    method ReleaseSessionId(id: int)
      requires Valid()
      modifies active
      ensures active[..] == Release(old(active[..]), id)
    {
      if id >= 0 && id < MaxSessions {
        active[id] := false;
      }
    }
  }
}
