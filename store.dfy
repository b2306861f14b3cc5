/** The event store of the server: the events in creation order, looked up
    by id. Each operation is taken as one atomic step; the locks that make
    it so in the server are not modelled. */
module EventStore {
  import opened Text
  import opened Events

  function Ids(evs: seq<EventValue>): (ids: seq<nat>)
  {
    seq(|evs|, k requires 0 <= k < |evs| => evs[k].id)
  }

  ghost predicate UniqueIds(evs: seq<EventValue>) {
    forall i, j :: 0 <= i < j < |evs| ==> evs[i].id != evs[j].id
  }

  /** What the store keeps true: every event is well formed and no two
      events share an id. */
  ghost predicate StoreInvariant(evs: seq<EventValue>) {
    (forall i :: 0 <= i < |evs| ==> EventInvariant(evs[i])) && UniqueIds(evs)
  }

  /** The lookup `get_event` makes: the position of the first event with
      this id, or -1 when there is none. */
  function IndexOfId(evs: seq<EventValue>, id: nat): (k: int)
    ensures -1 <= k < |evs|
    ensures k >= 0 ==> evs[k].id == id && forall j :: 0 <= j < k ==> evs[j].id != id
    ensures k == -1 <==> forall j :: 0 <= j < |evs| ==> evs[j].id != id
  {
    if |evs| == 0 then -1
    else
      var k := IndexOfId(evs[..|evs| - 1], id);
      if k >= 0 then k
      else if evs[|evs| - 1].id == id then |evs| - 1
      else -1
  }

  /** `ems_create`: refused when the id is taken, otherwise one new event
      at the end. */
  function CreateEvent(evs: seq<EventValue>, id: nat, rows: nat, cols: nat): (r: (Status, seq<EventValue>))
  {
    if IndexOfId(evs, id) >= 0 then (AlreadyExists, evs)
    else (Ok, evs + [NewEvent(id, rows, cols)])
  }

  lemma CreateEventOutcome(evs: seq<EventValue>, id: nat, rows: nat, cols: nat)
    ensures var (status, evs') := CreateEvent(evs, id, rows, cols);
      && (status == AlreadyExists <==> exists i :: 0 <= i < |evs| && evs[i].id == id)
      && (status == AlreadyExists || status == Ok)
      && (status == AlreadyExists ==> evs' == evs)
      && (status == Ok ==>
            && |evs'| == |evs| + 1
            && evs'[..|evs|] == evs
            && evs'[|evs|] == EventValue(id, rows, cols, 0, evs'[|evs|].seats)
            && |evs'[|evs|].seats| == rows * cols
            && forall k :: 0 <= k < rows * cols ==> evs'[|evs|].seats[k] == 0)
      && (StoreInvariant(evs) ==> StoreInvariant(evs'))
  {
    var (status, evs') := CreateEvent(evs, id, rows, cols);
    if status == Ok {
      assert evs'[..|evs|] == evs;
    }
  }

  /** `ems_reserve`: refused when no event has the id, otherwise the
      reservation on that event alone. */
  function StoreReserve(evs: seq<EventValue>, id: nat, xs: seq<nat>, ys: seq<nat>): (r: (Status, seq<EventValue>))
    requires StoreInvariant(evs) && |xs| == |ys|
  {
    var k := IndexOfId(evs, id);
    if k < 0 then (NotFound, evs)
    else
      var (status, ev') := ReserveSeats(evs[k], xs, ys);
      (status, evs[k := ev'])
  }

  lemma StoreReserveOutcome(evs: seq<EventValue>, id: nat, xs: seq<nat>, ys: seq<nat>)
    requires StoreInvariant(evs) && |xs| == |ys|
    ensures var (status, evs') := StoreReserve(evs, id, xs, ys);
      && (status == NotFound <==> forall i :: 0 <= i < |evs| ==> evs[i].id != id)
      && (status != Ok ==> evs' == evs)
      && |evs'| == |evs| && Ids(evs') == Ids(evs)
      && (forall i :: 0 <= i < |evs| && evs[i].id != id ==> evs'[i] == evs[i])
      && (forall i :: 0 <= i < |evs| && evs[i].id == id ==> (status, evs'[i]) == ReserveSeats(evs[i], xs, ys))
      && StoreInvariant(evs')
  {
    var k := IndexOfId(evs, id);
    if k >= 0 {
      ReserveSeatsOutcome(evs[k], xs, ys);
      ReservePreservesInvariant(evs[k], xs, ys);
    }
  }

  /** `ems_show`: refused when no event has the id, otherwise its grid. */
  function ShowEvent(evs: seq<EventValue>, id: nat): (r: (Status, string))
    requires StoreInvariant(evs)
  {
    var k := IndexOfId(evs, id);
    if k < 0 then (NotFound, "") else (Ok, ShowText(evs[k]))
  }

  function ListLines(ids: seq<nat>): (lines: seq<string>)
  {
    seq(|ids|, k requires 0 <= k < |ids| => "Event: " + Decimal(ids[k]))
  }

  /** What `ems_list_events` writes: a fixed line for an empty store, else
      one line per event in creation order. */
  function ListText(ids: seq<nat>): string {
    if |ids| == 0 then "No events\n" else Terminated(ListLines(ids))
  }

  /** The listing reads back as the ids, and is the fixed line exactly when
      the store is empty. */
  lemma ListTextRoundTrip(ids: seq<nat>)
    ensures ListText(ids) == "No events\n" <==> ids == []
    ensures ListText(ids)[|ListText(ids)| - 1] == '\n'
    ensures ids != [] ==>
      var lines := SplitLines(ListText(ids));
      && |lines| == |ids|
      && forall k :: 0 <= k < |ids| ==>
           && lines[k] == "Event: " + Decimal(ids[k])
           && |lines[k]| > 7 && lines[k][7..] == Decimal(ids[k])
           && ParseDecimal(lines[k][7..]) == ids[k]
  {
    if ids != [] {
      var lines := ListLines(ids);
      TerminatedEnds(lines);
      forall k | 0 <= k < |ids|
        ensures '\n' !in lines[k]
        ensures lines[k][7..] == Decimal(ids[k])
        ensures ParseDecimal(Decimal(ids[k])) == ids[k]
      {
        assert lines[k][7..] == Decimal(ids[k]);
        ParseDecimalOfDecimal(ids[k]);
      }
      SplitLinesOfTerminated(lines);
      TerminatedIsJoin(lines);
      JoinStartsWith(lines, '\n');
      assert ListText(ids)[0] == lines[0][0] == 'E';
    }
  }

  /** The event of the worked case below after its first reservation. */
  function ScenarioEvent(): EventValue {
    EventValue(1, 2, 2, 1, [1, 0, 0, 0])
  }

  lemma ScenarioFirstReserve()
    ensures ReserveSeats(NewEvent(1, 2, 2), [1], [1]) == (Ok, ScenarioEvent())
  {
    var ev0 := NewEvent(1, 2, 2);
    assert ev0.seats == [0, 0, 0, 0];
    assert SeatIndex(2, 2, 1, 1) == 0;
    assert AllInBounds(2, 2, [1], [1]);
    assert Targets(2, 2, [1], [1]) == [0];
    assert !exists j :: 0 <= j < 1 && ev0.seats[SeatIndex(2, 2, [1][j], [1][j])] != 0;
    assert Fill(ev0.seats, [0], 1) == [1, 0, 0, 0] by {
      assert [0][..0] == [];
      assert Fill(ev0.seats, [], 1) == ev0.seats;
    }
    var r := ReserveSeats(ev0, [1], [1]);
    assert r.0 == Ok;
    assert r.1 == ev0.(reservations := 1, seats := Fill(ev0.seats, [0], 1));
  }

  lemma ScenarioShow()
    ensures ShowText(ScenarioEvent()) == "1 0\n0 0\n"
  {
    var ev := ScenarioEvent();
    assert Decimal(0) == "0" && Decimal(1) == "1";
    RowCellsParse(ev, 0);
    RowCellsParse(ev, 1);
    assert RowCells(ev, 0) == ["1", "0"];
    assert RowCells(ev, 1) == ["0", "0"];
    assert Join(["1", "0"], ' ') == "1 0" && Join(["0", "0"], ' ') == "0 0" by {
      assert ["1", "0"][..1] == ["1"] && ["0", "0"][..1] == ["0"];
    }
    assert GridLines(ev) == ["1 0", "0 0"];
    assert Terminated(["1 0", "0 0"]) == "1 0\n0 0\n" by {
      assert ["1 0", "0 0"][..1] == ["1 0"];
      assert ["1 0"][..0] == [];
    }
  }

  lemma ScenarioSecondReserve()
    ensures ReserveSeats(ScenarioEvent(), [1], [1]) == (AlreadyReserved, ScenarioEvent())
  {
    assert SeatIndex(2, 2, 1, 1) == 0;
    assert AllInBounds(2, 2, [1], [1]);
    assert ScenarioEvent().seats[SeatIndex(2, 2, [1][0], [1][0])] != 0;
  }

  lemma ScenarioCreate()
    ensures CreateEvent([], 1, 2, 2) == (Ok, [NewEvent(1, 2, 2)])
  {
    assert IndexOfId([], 1) == -1;
    assert [] + [NewEvent(1, 2, 2)] == [NewEvent(1, 2, 2)];
  }

  lemma ScenarioLookups()
    ensures StoreInvariant([ScenarioEvent()])
    ensures IndexOfId([NewEvent(1, 2, 2)], 1) == 0
    ensures IndexOfId([ScenarioEvent()], 1) == 0
  {
    assert EventInvariant(ScenarioEvent());
  }

  lemma ScenarioStoreFirst()
    ensures StoreInvariant([NewEvent(1, 2, 2)])
    ensures StoreReserve([NewEvent(1, 2, 2)], 1, [1], [1]) == (Ok, [ScenarioEvent()])
  {
    ScenarioLookups();
    ScenarioFirstReserve();
    assert [NewEvent(1, 2, 2)][0 := ScenarioEvent()] == [ScenarioEvent()];
  }

  lemma ScenarioStoreSecond()
    ensures StoreInvariant([ScenarioEvent()])
    ensures StoreReserve([ScenarioEvent()], 1, [1], [1]) == (AlreadyReserved, [ScenarioEvent()])
  {
    ScenarioLookups();
    ScenarioSecondReserve();
    assert [ScenarioEvent()][0 := ScenarioEvent()] == [ScenarioEvent()];
  }

  lemma ScenarioStoreShow()
    ensures StoreInvariant([ScenarioEvent()])
    ensures ShowEvent([ScenarioEvent()], 1) == (Ok, "1 0\n0 0\n")
  {
    ScenarioLookups();
    ScenarioShow();
  }

  /** A worked case: on a new 2 x 2 event, reserving seat (1,1) succeeds with
      reservation 1, reserving it again is refused and changes nothing, and
      the grid shows the first row as "1 0" and the second as "0 0". */
  lemma ReserveTwiceScenario()
    ensures CreateEvent([], 1, 2, 2) == (Ok, [NewEvent(1, 2, 2)])
    ensures StoreInvariant([ScenarioEvent()])
    ensures StoreReserve([NewEvent(1, 2, 2)], 1, [1], [1]) == (Ok, [ScenarioEvent()])
    ensures StoreReserve([ScenarioEvent()], 1, [1], [1]) == (AlreadyReserved, [ScenarioEvent()])
    ensures ShowEvent([ScenarioEvent()], 1) == (Ok, "1 0\n0 0\n")
  {
    ScenarioCreate();
    ScenarioStoreFirst();
    ScenarioStoreSecond();
    ScenarioStoreShow();
  }

  /** The store: `event_list` of the source as a sequence of events. */
  class Store {
    var events: seq<Event>
    ghost var Contents: seq<EventValue>
    ghost var Repr: set<object>

    ghost predicate Valid()
      reads this, Repr
    {
      this in Repr &&
      |events| == |Contents| &&
      (forall i :: 0 <= i < |events| ==>
        events[i] in Repr && events[i].data in Repr &&
        events[i].Valid() && events[i].Value() == Contents[i]) &&
      (forall i, j :: 0 <= i < j < |events| ==>
        events[i] != events[j] && events[i].data != events[j].data) &&
      UniqueIds(Contents)
    }

    /** `ems_init`: an empty store. */
    constructor ()
      ensures Valid() && fresh(Repr) && Contents == []
    {
      events := [];
      Contents := [];
      Repr := {this};
    }

    /** `get_event`: the events are searched from the first on. */
    method Find(eventId: nat) returns (k: int)
      requires Valid()
      ensures k == IndexOfId(Contents, eventId)
    {
      k := 0;
      while k < |events|
        invariant 0 <= k <= |events|
        invariant forall j :: 0 <= j < k ==> Contents[j].id != eventId
      {
        if events[k].id == eventId {
          return;
        }
        k := k + 1;
      }
      k := -1;
    }

    method Create(eventId: nat, numRows: nat, numCols: nat) returns (status: Status)
      requires Valid()
      modifies this
      ensures Valid() && fresh(Repr - old(Repr))
      ensures (status, Contents) == CreateEvent(old(Contents), eventId, numRows, numCols)
      ensures status != Ok ==> events == old(events)
    {
      var k := Find(eventId);
      if k >= 0 {
        return AlreadyExists;
      }
      var e := new Event(eventId, numRows, numCols);
      events := events + [e];
      Contents := Contents + [e.Value()];
      Repr := Repr + {e, e.data};
      status := Ok;
    }

    method Reserve(eventId: nat, xs: seq<nat>, ys: seq<nat>) returns (status: Status)
      requires Valid() && |xs| == |ys|
      modifies Repr
      ensures Valid() && Repr == old(Repr)
      ensures StoreInvariant(old(Contents))
      ensures (status, Contents) == StoreReserve(old(Contents), eventId, xs, ys)
    {
      var k := Find(eventId);
      if k < 0 {
        return NotFound;
      }
      var e := events[k];
      status := e.Reserve(xs, ys);
      Contents := Contents[k := e.Value()];
    }

    method Show(eventId: nat) returns (status: Status, out: string)
      requires Valid()
      ensures StoreInvariant(Contents)
      ensures (status, out) == ShowEvent(Contents, eventId)
    {
      var k := Find(eventId);
      if k < 0 {
        return NotFound, "";
      }
      out := events[k].Show();
      status := Ok;
    }

    method ListEvents() returns (out: string)
      requires Valid()
      ensures out == ListText(Ids(Contents))
    {
      if |events| == 0 {
        return "No events\n";
      }
      ghost var lines := ListLines(Ids(Contents));
      out := "";
      var i := 0;
      while i < |events|
        invariant 0 <= i <= |events|
        invariant out == Terminated(lines[..i])
      {
        out := out + "Event: ";
        out := out + Decimal(events[i].id) + "\n";
        assert lines[..i + 1][..i] == lines[..i];
        i := i + 1;
      }
      assert lines[..|events|] == lines;
    }

    /** `getNumEvents`: the events counted one by one. */
    method NumEvents() returns (n: nat)
      requires Valid()
      ensures n == |Contents|
    {
      n := 0;
      var rest := events;
      while rest != []
        invariant n + |rest| == |events|
      {
        rest := rest[1..];
        n := n + 1;
      }
    }

    /** `getRows`. The source reads the rows of whatever the lookup returns,
        so the id must be present. */
    method Rows(eventId: nat) returns (rows: nat)
      requires Valid()
      requires exists i :: 0 <= i < |Contents| && Contents[i].id == eventId
      ensures forall i :: 0 <= i < |Contents| && Contents[i].id == eventId ==> rows == Contents[i].rows
    {
      var k := Find(eventId);
      rows := events[k].rows;
    }

    /** `getCols`, under the same demand as `getRows`. */
    method Cols(eventId: nat) returns (cols: nat)
      requires Valid()
      requires exists i :: 0 <= i < |Contents| && Contents[i].id == eventId
      ensures forall i :: 0 <= i < |Contents| && Contents[i].id == eventId ==> cols == Contents[i].cols
    {
      var k := Find(eventId);
      cols := events[k].cols;
    }
  }
}
