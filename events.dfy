/** One event of the store: a `rows x cols` grid of seats held row by row
    in one array, and the counter of reservations made on it. A seat holds
    0 while free and otherwise the number of the reservation that took it. */
module Events {
  import opened Text

  /** The outcome of a store operation. The source returns 1 for every
      failure and tells them apart only by the message it writes. */
  datatype Status = Ok | NotFound | AlreadyExists | OutOfBounds | AlreadyReserved

  /** The value of an event at one moment. */
  datatype EventValue = EventValue(id: nat, rows: nat, cols: nat, reservations: nat, seats: seq<nat>)

  /** What holds of every event from its creation on: the grid has exactly
      `rows * cols` seats and no seat holds a number above the counter. */
  ghost predicate EventInvariant(ev: EventValue) {
    |ev.seats| == ev.rows * ev.cols &&
    forall k :: 0 <= k < |ev.seats| ==> ev.seats[k] <= ev.reservations
  }

  predicate InBounds(rows: nat, cols: nat, row: nat, col: nat) {
    1 <= row <= rows && 1 <= col <= cols
  }

  /** Position in the row-major array of the seat at 1-based `row`, `col`. */
  function SeatIndex(rows: nat, cols: nat, row: nat, col: nat): (k: nat)
    requires InBounds(rows, cols, row, col)
    ensures k < rows * cols
  {
    MulLeq(row - 1, rows - 1, cols);
    (row - 1) * cols + col - 1
  }

  lemma MulLeq(a: nat, b: nat, c: nat)
    requires a <= b
    ensures a * c <= b * c
  {
  }

  lemma DivModOf(q: nat, r: nat, d: nat)
    requires r < d
    ensures (q * d + r) / d == q && (q * d + r) % d == r
  {
    var n := q * d + r;
    var q', r' := n / d, n % d;
    assert n == q' * d + r';
    if q' > q {
      MulLeq(q + 1, q', d);
    } else if q' < q {
      MulLeq(q' + 1, q, d);
    }
  }

  /** The seat index gives back its row and column, so no two in-bounds
      seats share an index. */
  lemma SeatIndexInverse(rows: nat, cols: nat, row: nat, col: nat)
    requires InBounds(rows, cols, row, col)
    ensures SeatIndex(rows, cols, row, col) / cols == row - 1
    ensures SeatIndex(rows, cols, row, col) % cols == col - 1
  {
    DivModOf(row - 1, col - 1, cols);
  }

  lemma SeatIndexInjective(rows: nat, cols: nat, r1: nat, c1: nat, r2: nat, c2: nat)
    requires InBounds(rows, cols, r1, c1) && InBounds(rows, cols, r2, c2)
    ensures SeatIndex(rows, cols, r1, c1) == SeatIndex(rows, cols, r2, c2) <==> r1 == r2 && c1 == c2
  {
    SeatIndexInverse(rows, cols, r1, c1);
    SeatIndexInverse(rows, cols, r2, c2);
  }

  /** The newly created event: counter 0 and every seat free. */
  function NewEvent(id: nat, rows: nat, cols: nat): (ev: EventValue)
    ensures EventInvariant(ev)
  {
    EventValue(id, rows, cols, 0, seq(rows * cols, _ => 0))
  }

  // ---------------------------------------------------------------------
  // Reservation

  predicate AllInBounds(rows: nat, cols: nat, xs: seq<nat>, ys: seq<nat>)
    requires |xs| == |ys|
  {
    forall j :: 0 <= j < |xs| ==> InBounds(rows, cols, xs[j], ys[j])
  }

  /** The seat indices a request names, in request order. */
  function Targets(rows: nat, cols: nat, xs: seq<nat>, ys: seq<nat>): (ts: seq<nat>)
    requires |xs| == |ys| && AllInBounds(rows, cols, xs, ys)
  {
    seq(|xs|, j requires 0 <= j < |xs| => SeatIndex(rows, cols, xs[j], ys[j]))
  }

  /** Some requested seat is already taken. */
  ghost predicate SomeTaken(ev: EventValue, xs: seq<nat>, ys: seq<nat>)
    requires |ev.seats| == ev.rows * ev.cols
    requires |xs| == |ys| && AllInBounds(ev.rows, ev.cols, xs, ys)
  {
    exists j :: 0 <= j < |xs| && ev.seats[SeatIndex(ev.rows, ev.cols, xs[j], ys[j])] != 0
  }

  /** `seats` after writing `v` at each index of `ks` in turn. */
  function Fill(seats: seq<nat>, ks: seq<nat>, v: nat): (r: seq<nat>)
    requires forall j :: 0 <= j < |ks| ==> ks[j] < |seats|
    ensures |r| == |seats|
  {
    if |ks| == 0 then seats else Fill(seats, ks[..|ks| - 1], v)[ks[|ks| - 1] := v]
  }

  /** After the writes, a seat holds `v` exactly when it was written, and
      keeps its old value otherwise. */
  lemma {:induction false} FillAt(seats: seq<nat>, ks: seq<nat>, v: nat, k: nat)
    requires forall j :: 0 <= j < |ks| ==> ks[j] < |seats|
    requires k < |seats|
    ensures Fill(seats, ks, v)[k] == if k in ks then v else seats[k]
  {
    if |ks| > 0 {
      var init := ks[..|ks| - 1];
      FillAt(seats, init, v, k);
      assert ks == init + [ks[|ks| - 1]];
      assert k in ks <==> k in init || k == ks[|ks| - 1];
    }
  }

  /** `ems_reserve` on one event, all or nothing: out-of-bounds coordinates
      are checked first, then seats already taken; only then is the counter
      raised by one and the new number written to every requested seat. */
  function ReserveSeats(ev: EventValue, xs: seq<nat>, ys: seq<nat>): (r: (Status, EventValue))
    requires |ev.seats| == ev.rows * ev.cols && |xs| == |ys|
  {
    if !AllInBounds(ev.rows, ev.cols, xs, ys) then (OutOfBounds, ev)
    else if exists j :: 0 <= j < |xs| && ev.seats[SeatIndex(ev.rows, ev.cols, xs[j], ys[j])] != 0
    then (AlreadyReserved, ev)
    else
      var n := ev.reservations + 1;
      (Ok, ev.(reservations := n, seats := Fill(ev.seats, Targets(ev.rows, ev.cols, xs, ys), n)))
  }

  /** The three outcomes of a reservation and what each leaves behind. */
  lemma ReserveSeatsOutcome(ev: EventValue, xs: seq<nat>, ys: seq<nat>)
    requires |ev.seats| == ev.rows * ev.cols && |xs| == |ys|
    ensures var (status, ev') := ReserveSeats(ev, xs, ys);
      && (status == OutOfBounds <==> exists j :: 0 <= j < |xs| && !InBounds(ev.rows, ev.cols, xs[j], ys[j]))
      && (status == AlreadyReserved <==> AllInBounds(ev.rows, ev.cols, xs, ys) && SomeTaken(ev, xs, ys))
      && (status == Ok <==> AllInBounds(ev.rows, ev.cols, xs, ys) && !SomeTaken(ev, xs, ys))
      && (status != Ok ==> ev' == ev)
      && ev'.id == ev.id && ev'.rows == ev.rows && ev'.cols == ev.cols
      && |ev'.seats| == |ev.seats|
      && (status == Ok ==>
            && ev'.reservations == ev.reservations + 1
            && (forall j :: 0 <= j < |xs| ==> ev.seats[SeatIndex(ev.rows, ev.cols, xs[j], ys[j])] == 0)
            && (forall j :: 0 <= j < |xs| ==> ev'.seats[SeatIndex(ev.rows, ev.cols, xs[j], ys[j])] == ev'.reservations)
            && (forall k :: 0 <= k < |ev.seats| && k !in Targets(ev.rows, ev.cols, xs, ys) ==> ev'.seats[k] == ev.seats[k]))
  {
    var (status, ev') := ReserveSeats(ev, xs, ys);
    if status == Ok {
      var ts := Targets(ev.rows, ev.cols, xs, ys);
      forall j | 0 <= j < |xs|
        ensures ev'.seats[SeatIndex(ev.rows, ev.cols, xs[j], ys[j])] == ev'.reservations
      {
        FillAt(ev.seats, ts, ev'.reservations, ts[j]);
      }
      forall k | 0 <= k < |ev.seats| && k !in ts
        ensures ev'.seats[k] == ev.seats[k]
      {
        FillAt(ev.seats, ts, ev'.reservations, k);
      }
    }
  }

  /** A reservation keeps every seat at or below the counter. */
  lemma ReservePreservesInvariant(ev: EventValue, xs: seq<nat>, ys: seq<nat>)
    requires EventInvariant(ev) && |xs| == |ys|
    ensures EventInvariant(ReserveSeats(ev, xs, ys).1)
  {
    var (status, ev') := ReserveSeats(ev, xs, ys);
    if status == Ok {
      var ts := Targets(ev.rows, ev.cols, xs, ys);
      forall k | 0 <= k < |ev'.seats|
        ensures ev'.seats[k] <= ev'.reservations
      {
        FillAt(ev.seats, ts, ev'.reservations, k);
      }
    }
  }

  // ---------------------------------------------------------------------
  // Display

  /** The decimal texts of the seats of 0-based row `r`, left to right. */
  function RowCells(ev: EventValue, r: nat): (cells: seq<string>)
    requires |ev.seats| == ev.rows * ev.cols && r < ev.rows
  {
    seq(ev.cols, c requires 0 <= c < ev.cols =>
      Decimal(ev.seats[SeatIndex(ev.rows, ev.cols, r + 1, c + 1)]))
  }

  /** The lines of the grid: one per row, its seats separated by one space. */
  function GridLines(ev: EventValue): (lines: seq<string>)
    requires |ev.seats| == ev.rows * ev.cols
  {
    seq(ev.rows, r requires 0 <= r < ev.rows => Join(RowCells(ev, r), ' '))
  }

  /** What `ems_show` writes for an event: every grid line ended by a newline. */
  function ShowText(ev: EventValue): string
    requires |ev.seats| == ev.rows * ev.cols
  {
    Terminated(GridLines(ev))
  }

  /** A row has one cell per column, and each cell is the decimal text of
      its seat: a non-empty digit field, free of separators, that parses
      back to the seat value. */
  lemma RowCellsParse(ev: EventValue, r: nat)
    requires |ev.seats| == ev.rows * ev.cols && r < ev.rows
    ensures |RowCells(ev, r)| == ev.cols
    ensures forall c :: 0 <= c < ev.cols ==>
      var cell := RowCells(ev, r)[c];
      var seat := ev.seats[SeatIndex(ev.rows, ev.cols, r + 1, c + 1)];
      cell == Decimal(seat) &&
      cell != "" && ' ' !in cell && '\n' !in cell && AllDigits(cell) &&
      ParseDecimal(cell) == seat
  {
    forall c | 0 <= c < ev.cols
      ensures RowCells(ev, r)[c] == Decimal(ev.seats[SeatIndex(ev.rows, ev.cols, r + 1, c + 1)])
      ensures ParseDecimal(RowCells(ev, r)[c]) == ev.seats[SeatIndex(ev.rows, ev.cols, r + 1, c + 1)]
    {
      var seat := ev.seats[SeatIndex(ev.rows, ev.cols, r + 1, c + 1)];
      assert RowCells(ev, r)[c] == Decimal(seat);
      ParseDecimalOfDecimal(seat);
    }
  }

  /** A grid line has no newline and splits back into the row's cells. */
  lemma GridLineFields(ev: EventValue, r: nat)
    requires |ev.seats| == ev.rows * ev.cols && r < ev.rows
    ensures '\n' !in GridLines(ev)[r]
    ensures Fields(GridLines(ev)[r]) == RowCells(ev, r)
  {
    var cells := RowCells(ev, r);
    RowCellsParse(ev, r);
    JoinAvoids(cells, ' ', '\n');
    FieldsOfJoin(cells);
  }

  /** The displayed grid reads back as the seats: `rows` lines, line `r`
      holding `cols` decimal fields whose values are the seats of row `r`. */
  lemma ShowTextRoundTrip(ev: EventValue)
    requires |ev.seats| == ev.rows * ev.cols
    ensures ShowText(ev) == "" <==> ev.rows == 0
    ensures ev.rows > 0 ==> ShowText(ev)[|ShowText(ev)| - 1] == '\n'
    ensures var lines := SplitLines(ShowText(ev));
      && |lines| == ev.rows
      && forall r :: 0 <= r < ev.rows ==>
           var fields := Fields(lines[r]);
           && |fields| == ev.cols
           && forall c :: 0 <= c < ev.cols ==>
                fields[c] == Decimal(ev.seats[SeatIndex(ev.rows, ev.cols, r + 1, c + 1)]) &&
                ParseDecimal(fields[c]) == ev.seats[SeatIndex(ev.rows, ev.cols, r + 1, c + 1)]
  {
    var lines := GridLines(ev);
    TerminatedEnds(lines);
    forall r | 0 <= r < ev.rows
      ensures '\n' !in lines[r]
      ensures Fields(lines[r]) == RowCells(ev, r)
    {
      GridLineFields(ev, r);
    }
    SplitLinesOfTerminated(lines);
    assert SplitLines(ShowText(ev)) == lines;
    forall r | 0 <= r < ev.rows
      ensures forall c :: 0 <= c < ev.cols ==>
        Fields(lines[r])[c] == Decimal(ev.seats[SeatIndex(ev.rows, ev.cols, r + 1, c + 1)]) &&
        ParseDecimal(Fields(lines[r])[c]) == ev.seats[SeatIndex(ev.rows, ev.cols, r + 1, c + 1)]
    {
      RowCellsParse(ev, r);
    }
  }

  // ---------------------------------------------------------------------
  // The event object

  /** An event as the store keeps it: identity and shape fixed at creation,
      the counter and the seat array updated in place. */
  class Event {
    const id: nat
    const rows: nat
    const cols: nat
    var reservations: nat
    const data: array<nat>

    ghost function Value(): EventValue
      reads this, data
    {
      EventValue(id, rows, cols, reservations, data[..])
    }

    ghost predicate Valid()
      reads this, data
    {
      EventInvariant(Value())
    }

    /** The allocation and initialisation part of `ems_create`. */
    constructor (eventId: nat, numRows: nat, numCols: nat)
      ensures Valid() && fresh(data)
      ensures Value() == NewEvent(eventId, numRows, numCols)
    {
      id, rows, cols, reservations := eventId, numRows, numCols, 0;
      data := new nat[numRows * numCols](_ => 0);
      new;
      assert data[..] == NewEvent(eventId, numRows, numCols).seats;
    }

    /** The first loop of `ems_reserve`: every coordinate is in bounds. */
    method CheckBounds(xs: seq<nat>, ys: seq<nat>) returns (ok: bool)
      requires |xs| == |ys|
      ensures ok == AllInBounds(rows, cols, xs, ys)
    {
      var i := 0;
      while i < |xs|
        invariant 0 <= i <= |xs|
        invariant forall j :: 0 <= j < i ==> InBounds(rows, cols, xs[j], ys[j])
      {
        if xs[i] <= 0 || xs[i] > rows || ys[i] <= 0 || ys[i] > cols {
          return false;
        }
        i := i + 1;
      }
      return true;
    }

    /** The nested loop of `ems_reserve`: for each seat, the first request
        naming it decides whether it is already taken. */
    method CheckConflicts(xs: seq<nat>, ys: seq<nat>) returns (conflict: bool)
      requires Valid() && |xs| == |ys| && AllInBounds(rows, cols, xs, ys)
      ensures conflict == SomeTaken(Value(), xs, ys)
    {
      var i := 0;
      while i < rows * cols
        invariant 0 <= i <= rows * cols
        invariant forall j :: 0 <= j < |xs| && SeatIndex(rows, cols, xs[j], ys[j]) < i ==>
          data[SeatIndex(rows, cols, xs[j], ys[j])] == 0
      {
        var j := 0;
        while j < |xs|
          invariant 0 <= j <= |xs|
          invariant forall j' :: 0 <= j' < j ==> SeatIndex(rows, cols, xs[j'], ys[j']) != i
        {
          if SeatIndex(rows, cols, xs[j], ys[j]) != i {
            j := j + 1;
            continue;
          }
          if data[i] != 0 {
            return true;
          }
          break;
        }
        i := i + 1;
      }
      return false;
    }

    /** `ems_reserve` once the event is found. */
    method Reserve(xs: seq<nat>, ys: seq<nat>) returns (status: Status)
      requires Valid() && |xs| == |ys|
      modifies this, data
      ensures Valid()
      ensures (status, Value()) == ReserveSeats(old(Value()), xs, ys)
    {
      ghost var before := Value();
      var inBounds := CheckBounds(xs, ys);
      if !inBounds {
        return OutOfBounds;
      }
      var conflict := CheckConflicts(xs, ys);
      if conflict {
        return AlreadyReserved;
      }
      reservations := reservations + 1;
      var reservationId := reservations;
      ghost var ts := Targets(rows, cols, xs, ys);
      var i := 0;
      while i < |xs|
        invariant 0 <= i <= |xs|
        invariant reservations == reservationId
        invariant data[..] == Fill(before.seats, ts[..i], reservationId)
      {
        data[SeatIndex(rows, cols, xs[i], ys[i])] := reservationId;
        assert ts[..i + 1][..i] == ts[..i];
        i := i + 1;
      }
      assert ts[..|xs|] == ts;
      ReservePreservesInvariant(before, xs, ys);
      status := Ok;
    }

    /** The inner loop of `ems_show`: row `i` (1-based) as one line, the
        seats in decimal with one space between two of them. */
    method ShowRow(i: nat) returns (line: string)
      requires Valid() && 1 <= i <= rows
      ensures line == GridLines(Value())[i - 1]
    {
      ghost var ev := Value();
      ghost var cells := RowCells(ev, i - 1);
      line := "";
      var j := 1;
      while j <= cols
        invariant 1 <= j <= cols + 1
        invariant j <= cols ==> line == Join(cells[..j - 1], ' ') + (if j > 1 then " " else "")
        invariant j > cols ==> line == Join(cells, ' ')
      {
        var cell := Decimal(data[SeatIndex(rows, cols, i, j)]);
        assert cell == cells[j - 1];
        JoinPrefixStep(cells, ' ', j - 1);
        line := line + cell;
        if j < cols {
          line := line + " ";
        } else {
          assert cells[..j] == cells;
        }
        j := j + 1;
      }
    }

    /** `ems_show` once the event is found: every row's line ended by a
        newline. */
    method Show() returns (out: string)
      requires Valid()
      ensures out == ShowText(Value())
    {
      ghost var lines := GridLines(Value());
      out := "";
      var i := 1;
      while i <= rows
        invariant 1 <= i <= rows + 1
        invariant out == Terminated(lines[..i - 1])
      {
        var line := ShowRow(i);
        out := out + line + "\n";
        assert lines[..i][..i - 1] == lines[..i - 1];
        i := i + 1;
      }
      assert lines[..rows] == lines;
    }
  }
}
