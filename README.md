# Event management server: event store and session ids

This project models the sequential core of a small event-management server.
An *event* is a `rows x cols` grid of seats with a reservation counter. The
server keeps its events in a list in creation order. Clients create events,
reserve groups of seats all or nothing, show a grid, and list the events.
Beside the store the server keeps a registry of client sessions and a fixed
pool of ten session ids.

Modules and files:

- `text.dfy`, module `Text`: the decimal text `%u` writes, text joined by one
  separator, and lines each ended by a newline. Each comes with the parse that
  reads it back, so the output formats are stated as round trips.
- `events.dfy`, module `Events`: one event. `EventValue` is its value. Pure
  functions give the reservation (`ReserveSeats`) and the display
  (`ShowText`). The class `Event` keeps the seats in an `array<nat>` that
  `Reserve` updates in place. Its methods are proved against those functions.
- `store.dfy`, module `EventStore`: the store. The class `Store` holds
  `events: seq<Event>` in creation order. A ghost `Contents` mirrors the
  events' values, and the methods are proved against pure functions on
  `seq<EventValue>`.
- `sessions.dfy`, module `Sessions`: the session registry, newest session
  first, kept as a sequence of records. It also holds the finding about
  `free_Session` below.
- `pool.dfy`, module `SessionPool`: the table `active_sessions` of
  `MAX_SESSIONS = 10` flags, as an `array<bool>`, and the allocator.

Notes on the code that the model follows:

- `ems_show` writes only the grid lines, one per row.
- `ems_create` does not check that ids, rows or cols are positive. The model
  accepts a 0-row or 0-column event with no seats. In C that depends on
  `calloc(0, ...)`: it may return NULL, and then `ems_create` fails
  (Parte2/server/operations.c:102-107). That is the allocation-failure path
  listed under "## Left out".
- When the pool is full, `generate_session_id` returns -1 and does not wait.
  The server's `main` is what retries, and it is not modelled.
- Every failure returns 1. The model's `Status` tells the failures apart the
  way the error messages printed on each path do: `AlreadyExists`,
  `NotFound`, `OutOfBounds` and `AlreadyReserved`.

## Model

| member | source | states |
|---|---|---|
| `Text.Decimal` | Parte2/server/operations.c:207-208 | the `%u` text of a seat value is one or more digits with no leading `0`. The number 0 is written as the single digit `0` |
| `Text.ParseDecimalOfDecimal` | Parte2/server/operations.c:207-208 | reading the decimal text of `n` back gives `n` |
| `Text.SplitOnJoin` | Parte2/server/operations.c:216-222 | cutting text at the separator gives back the parts it was joined from, if no part contains the separator |
| `Text.FieldsOfJoin` | Parte2/server/operations.c:206-223 | a line whose non-empty fields are separated by single spaces splits back into exactly those fields |
| `Text.SplitLinesOfTerminated` | Parte2/server/operations.c:225-229 | text made of lines each ended by `\n` splits back into those lines |
| `Events.SeatIndex` | Parte2/server/operations.c:36 | for `1 <= row <= rows` and `1 <= col <= cols`, the index `(row-1)*cols + col-1` is below `rows*cols` |
| `Events.SeatIndexInverse` | Parte2/server/operations.c:36 | the index divided by `cols` gives `row-1`, and the remainder gives `col-1` |
| `Events.SeatIndexInjective` | Parte2/server/operations.c:36 | two in-bounds seats have the same index exactly when they are the same seat |
| `Events.NewEvent` | Parte2/server/operations.c:91-100 | a new event has `rows*cols` seats, all 0, and counter 0, so it meets the invariant that every seat is at most the counter |
| `Events.FillAt` | Parte2/server/operations.c:172-174 | after writing `v` to a list of indices, a seat holds `v` exactly when it was written, and keeps its old value otherwise |
| `Events.ReserveSeatsOutcome` | Parte2/server/operations.c:146-174 | out of bounds if and only if some coordinate is 0 or past `rows`/`cols`. Already reserved if and only if all coordinates are in bounds and some requested seat is nonzero. Ok otherwise. A failure changes nothing. Ok raises the counter by exactly 1, even for zero seats. Every requested seat was 0 and now holds the new counter; every other seat is unchanged |
| `Events.ReservePreservesInvariant` | Parte2/server/operations.c:170-174 | a reservation keeps the grid size and keeps every seat at most the counter |
| `Events.ShowTextRoundTrip` | Parte2/server/operations.c:205-230 | the shown text is empty exactly when there are no rows, and otherwise ends with `\n`. It splits into `rows` lines. Line `r` splits at single spaces into exactly `cols` fields. Field `c` is the decimal text of the seat at row `r+1`, column `c+1`, and reads back as that seat |
| `Events.RowCellsParse` | Parte2/server/operations.c:207-208 | a row has one cell per column. Each cell is the decimal text of its seat: non-empty, digits only, free of separators, and it parses back to the seat value |
| `Events.GridLineFields` | Parte2/server/operations.c:206-223 | a grid line contains no newline and splits back into the row's decimal fields |
| `Events.Event.constructor` | Parte2/server/operations.c:91-100 | the new event object has the given id, rows and cols, counter 0, and a fresh array of `rows*cols` zero seats |
| `Events.Event.CheckBounds` | Parte2/server/operations.c:146-152 | the bounds loop answers true exactly when every coordinate is within `[1,rows] x [1,cols]` |
| `Events.Event.CheckConflicts` | Parte2/server/operations.c:154-168 | the nested seat-by-request loop finds a conflict exactly when some requested seat is nonzero |
| `Events.Event.Reserve` | Parte2/server/operations.c:141-177 | the in-place reservation leaves the status, counter and seat array that `ReserveSeats` gives, and keeps the grid invariant |
| `Events.Event.ShowRow` | Parte2/server/operations.c:206-223 | the inner loop writes row `i` as its seats in decimal, one space between neighbours and none at the end |
| `Events.Event.Show` | Parte2/server/operations.c:205-230 | the nested loops write exactly `ShowText` of the event |
| `EventStore.IndexOfId` | Parte2/server/operations.c:23-28 | the lookup gives the first event with the id, or -1 exactly when no event has it |
| `EventStore.CreateEventOutcome` | Parte2/server/operations.c:77-117 | a taken id fails with the list unchanged. Otherwise exactly one event is appended at the end, with the given id, rows and cols, counter 0 and all seats 0. Earlier events are untouched, and ids stay unique |
| `EventStore.StoreReserveOutcome` | Parte2/server/operations.c:132-177 | an unknown id fails with nothing changed. Otherwise only the event with that id changes, as `ReserveSeats` says. Ids and length are kept, and the store invariant is preserved |
| `EventStore.ListTextRoundTrip` | Parte2/server/operations.c:250-283 | the listing is exactly `No events\n` when the store is empty, and it always ends with `\n`. Otherwise it has one line per event in creation order, and line `k` is exactly `Event: ` followed by the decimal text of id `k`, which reads back as that id |
| `EventStore.ScenarioFirstReserve` | Parte2/server/operations.c:146-174 | on a new 2 x 2 event, reserving (1,1) succeeds, with reservation number 1 on seat 0 |
| `EventStore.ScenarioShow` | Parte2/server/operations.c:205-230 | that grid is shown as `1 0\n0 0\n` |
| `EventStore.ReserveTwiceScenario` | Parte2/server/operations.c:121-178 | create, reserve (1,1), then reserve (1,1) again: the second reservation is refused, nothing changes, and show gives `1 0\n0 0\n` |
| `EventStore.Store.constructor` | Parte2/server/operations.c:38-48 | the initialised store is empty |
| `EventStore.Store.Find` | Parte2/server/operations.c:23-28 | the scan over the list returns `IndexOfId` of the store's contents |
| `EventStore.Store.Create` | Parte2/server/operations.c:66-119 | the new contents and status are those of `CreateEvent`. On failure the event objects are the same ones as before |
| `EventStore.Store.Reserve` | Parte2/server/operations.c:121-178 | the new contents and status are those of `StoreReserve` |
| `EventStore.Store.Show` | Parte2/server/operations.c:180-234 | the status and text are those of `ShowEvent`: `NotFound` for an unknown id, otherwise the grid text |
| `EventStore.Store.ListEvents` | Parte2/server/operations.c:236-287 | the loop writes exactly `ListText` of the ids in creation order |
| `EventStore.Store.NumEvents` | Parte2/server/operations.c:385-394 | the count is the number of events |
| `EventStore.Store.Rows` | Parte2/server/operations.c:377-380 | for an id in the store, the rows of that event |
| `EventStore.Store.Cols` | Parte2/server/operations.c:381-384 | for an id in the store, the cols of that event |
| `Sessions.SessionIndex` | Parte2/server/operations.c:355-357 | the search the intended removal makes: the first record with the id, or -1 exactly when none has it. The loop as written does not make this search, as the finding below shows |
| `Sessions.RemoveSessionOutcome` | Parte2/server/operations.c:353-365 | the intended removal unlinks the first record with the id and keeps the others in order. With no such record it changes nothing |
| `Sessions.RemoveAfterStore` | Parte2/server/operations.c:333-334 | adding a session at the front and then removing it by id restores the registry |
| `Sessions.FreeSessionFromOutcome` | Parte2/server/operations.c:355-364 | from node `c`, the source's loop dereferences null exactly when no record from `c+2` on has the id. Otherwise it unlinks the first record from `c+2` on with the id, and no record between `c+2` and it has the id |
| `Sessions.FreeSessionAsWrittenOutcome` | Parte2/server/operations.c:353-365 | as written, a non-empty registry crashes unless a record at position 2 or later has the id. The first two records are never removed |
| `Sessions.FreeSessionSingleCrashes` | Parte2/server/operations.c:355-357 | with one session registered, removing it dereferences null. The intended removal leaves the registry empty |
| `Sessions.SessionRegistry.constructor` | Parte2/server/operations.c:295 | the registry starts empty |
| `Sessions.SessionRegistry.StoreSessionDetails` | Parte2/server/operations.c:319-336 | the new record goes at the front and the rest keep their order |
| `Sessions.SessionRegistry.FreeSessions` | Parte2/server/operations.c:342-352 | the registry is left empty |
| `Sessions.SessionRegistry.FreeSession` | Parte2/server/operations.c:353-365 | the corrected removal: the registry becomes `RemoveSession` of the old one |
| `Sessions.SessionRegistry.Head` | Parte2/server/operations.c:367-369 | the newest session, or none for an empty registry |
| `SessionPool.LowestFree` | Parte2/server/main.c:29-35 | the lowest index whose slot is free, or -1 exactly when every slot is active |
| `SessionPool.GenerateOutcome` | Parte2/server/main.c:28-36 | the result is -1 with the table unchanged exactly when all slots are active. Otherwise it is the lowest free id, in range, and only its slot changes, to true |
| `SessionPool.ReleaseOutcome` | Parte2/server/main.c:39-43 | the table keeps its length. An in-range id's slot becomes false. An out-of-range id leaves the table equal to the old one. No other slot changes, and releasing twice is the same as releasing once |
| `SessionPool.ReleaseUndoesGenerate` | Parte2/server/main.c:28-43 | releasing the id just generated restores the table |
| `SessionPool.GenerateTwiceDistinct` | Parte2/server/main.c:28-36 | two allocations with no release between them never return the same non-negative id |
| `SessionPool.Pool.constructor` | Parte2/server/main.c:25 | all ten slots start free |
| `SessionPool.Pool.GenerateSessionId` | Parte2/server/main.c:28-36 | the scan leaves the table and returns the id that `Generate` gives, and the id lies in `[-1, MAX_SESSIONS)` |
| `SessionPool.Pool.ReleaseSessionId` | Parte2/server/main.c:39-43 | the table becomes `Release` of the old one |

## Findings

| source | as written | input that shows it | evidently intended | confidence | as-written member | corrected member |
|---|---|---|---|---|---|---|
| Parte2/server/operations.c:353-365 | `free_Session` steps to `current->next` before testing, then tests `current->next->session_id`. So it never looks at the first two nodes, and once it walks off the end it reads `next` through a null pointer | a registry holding one session `s`, then `free_Session(s.session_id)` | unlink the first session with the id, and change nothing when there is none | high, from reading the code; not executed | `Sessions.FreeSessionAsWritten` (shown by `Sessions.FreeSessionSingleCrashes` and `Sessions.FreeSessionAsWrittenOutcome`) | `Sessions.RemoveSession` (proved by `Sessions.RemoveSessionOutcome` and `Sessions.RemoveAfterStore`), used by `Sessions.SessionRegistry.FreeSession` |

## Left out

- Locks: the list's rwlock, each event's mutex and the session mutexes are not modelled. Their error branches are not modelled either. Each operation is one atomic step.
- The access delay (`nanosleep` before each lookup) is not modelled. Only the lookup is.
- Output: `print_str` writes to a file descriptor. The model returns the text as a string instead, so the write-failure branches are left out.
- Allocation failures (`malloc`/`calloc` returning NULL, failed `pthread_mutex_init`, failed append) are left out. Each leaves the list unchanged in the source. Also left out is `exit` when `store_session_details` cannot allocate.
- The uninitialised state: the error returned when `ems_init` has not run, a second `ems_init`, and `ems_terminate`. The store constructor stands for `ems_init`.
- `Events.ReserveSeats`: the counter and the seats are unbounded naturals. The source's `unsigned int` counter would wrap to 0 after 4294967295 reservations, and 0 would then mark seats as free. The source's `size_t` product `rows * cols` could also overflow. Neither is modelled.
- `get_event` and `append_to_list` are not part of this model. The list header that declares them is not part of it either. They are treated as a first-match search from head to tail and an append at the end.
- `getFirstEvent` is left out, because its return type does not match its body. `destroy_mutexes` destroys the two session mutexes, and locks are not modelled.
- `EventStore.Store.Rows` and `EventStore.Store.Cols` require an event with the id to exist. `getRows` and `getCols` dereference the lookup's result without a check, so with a missing id they read through a null pointer. The model does not describe that case.
- `Sessions.SessionRegistry.StoreSessionDetails`: the pipe paths are copied with `strcpy` into fixed-size fields, which can overflow. The model keeps them as unbounded strings.
- `main` of the server is left out: the named-pipe accept loop, the busy-wait on a full pool, and replying with the session id. Note that it calls `generate_session_id` twice per connection, so each client uses up two slots. This is a defect in the caller, not in the allocator.
- The client library and the batch front end are left out. They are pipe and terminal I/O.
