# Event scheduler — verified model

A model of the in-memory event scheduler of a small Go web application. The
scheduler keeps a list of events, each a block of whole hours
`[StartTime, EndTime)`, and keeps the invariant that no two events in the list
overlap. It has three operations:

- `AddEvent` scans the list. It rejects the new block if an existing event
  overlaps it. Otherwise it appends the block at the end. The list is never
  sorted.
- `DeleteEvent` removes the event at a position and shifts later events down
  by one. A position outside the list changes nothing.
- `GetEvents` returns the current list.

Two web handlers check their input before they call the scheduler. The add
handler calls `AddEvent` only when both form fields parsed as integers and
`0 <= start < end <= 23`. The delete handler calls `DeleteEvent` only for a
parsed index inside the list.

Files:

- `wrappers.dfy` (module `Wrappers`): `Option`. It is the result of parsing a
  form field: `None` when the text is not an integer.
- `scheduling.dfy` (module `Scheduling`): the `Event` datatype and the overlap
  test. It has the specification functions `AfterAdd` and `AfterDelete` on the
  list, with their lemmas. It also has the `Scheduler` class, whose `events`
  field the methods update in place. `AddEvent` keeps the source's loop with
  its early return.
- `handlers.dfy` (module `Handlers`): the two input guards, the handlers
  (`ServeAdd` and `ServeDelete` as functions, `HandleAdd` and `HandleDelete`
  as methods on a `Scheduler`), request traces and scenarios on a fresh
  `Scheduler`.

Go's `int` is 32 or 64 bits wide, depending on the platform. The model uses unbounded `int`. The core only
compares values and computes `index + 1` for `index < len(events)`, so no
value can wrap around.

The Go `AddEvent` accepts an empty or inverted block (start >= end). Such a
block does not overlap itself, so adding it twice is not rejected
(`SelfOverlapIffNonEmpty`). The handler's guard stops such blocks before
they reach `AddEvent`, so this cannot happen through the web front end
(`ReachableIsConsistent`).

## Model

| member | source | states |
|---|---|---|
| Scheduling.Scheduler.AddEvent | event-scheduler.go:23-33 | returns false exactly when some existing event overlaps `[startTime, endTime)`, and leaves the list unchanged then; otherwise the list is the old one with the event appended; the non-overlap invariant is kept |
| Scheduling.Scheduler.DeleteEvent | event-scheduler.go:36-43 | the list becomes `events[..index] + events[index+1..]` for an in-range index and stays unchanged otherwise; the non-overlap invariant is kept |
| Scheduling.Scheduler.GetEvents | event-scheduler.go:46-49 | returns the current list, unchanged |
| Scheduling.Scheduler.constructor | event-scheduler.go:52 | a new scheduler has no events and satisfies the invariant |
| Scheduling.Overlaps | event-scheduler.go:25 | the strict two-sided conflict test; no ensures of its own: `OverlapsSymmetric`, `OverlapsIffSharedHour` and `SelfOverlapIffNonEmpty` carry its contract |
| Scheduling.AfterAdd | event-scheduler.go:24-32 | the list after AddEvent; no ensures of its own: `AddConflictUnchanged`, `AddAppendsAtEnd`, `AddAdjacentSucceeds`, `AddDuplicateRejected`, `AddPreservesNonOverlapping` and `AddPreservesInHours` carry its contract |
| Scheduling.AfterDelete | event-scheduler.go:37-42 | the list after DeleteEvent; no ensures of its own: `DeleteRemovesIndex`, `DeleteOutOfRangeUnchanged`, `DeletePreservesNonOverlapping` and `DeletePreservesInHours` carry its contract |
| Scheduling.AddAll | event-scheduler.go:23-33 | the list after repeated AddEvent calls; no ensures of its own: `AddAllInInsertionOrder` carries its contract |
| Scheduling.OverlapsIffSharedHour | event-scheduler.go:25 | blocks that share an hour always overlap; two non-empty blocks that overlap share an hour, namely the later of the two starts |
| Scheduling.OverlapsSymmetric | event-scheduler.go:25 | the overlap test gives the same answer whichever of the two intervals is the new one |
| Scheduling.SelfOverlapIffNonEmpty | event-scheduler.go:25 | an interval overlaps itself exactly when start < end |
| Scheduling.NoConflictIffSeparated | event-scheduler.go:24-29 | there is no conflict exactly when every existing event ends by the new start or starts at or after the new end |
| Scheduling.AddConflictUnchanged | event-scheduler.go:25-27 | if any existing event overlaps, the list after the add is the old list |
| Scheduling.AddAppendsAtEnd | event-scheduler.go:30-32 | without a conflict the list grows by one, the old events keep their positions, and the new event is last |
| Scheduling.AddAdjacentSucceeds | event-scheduler.go:25 | an interval that only touches existing events at its ends is appended, because the comparisons are strict |
| Scheduling.AddDuplicateRejected | event-scheduler.go:25-27 | adding a non-empty interval already in the list is rejected and changes nothing |
| Scheduling.AddPreservesNonOverlapping | event-scheduler.go:24-31 | if no two events overlapped before the add, none do after it |
| Scheduling.AddPreservesInHours | event-scheduler.go:31 | appending an event within 0..23 keeps all events within 0..23 |
| Scheduling.AddAllInInsertionOrder | event-scheduler.go:23-33 | adding intervals that are mutually disjoint and disjoint from the list yields the old list followed by exactly those intervals, in insertion order |
| Scheduling.DeleteRemovesIndex | event-scheduler.go:37-39 | an in-range delete shortens the list by one, keeps earlier indices, shifts later events down by one, and removes exactly one copy of `events[index]` |
| Scheduling.DeleteOutOfRangeUnchanged | event-scheduler.go:37-42 | an out-of-range index leaves the list unchanged |
| Scheduling.DeletePreservesNonOverlapping | event-scheduler.go:39 | deleting keeps the list free of overlaps, since the result is a subsequence of the old list |
| Scheduling.DeletePreservesInHours | event-scheduler.go:39 | deleting keeps every event within 0..23 |
| Handlers.ValidInput | event-scheduler.go:77-80 | the add handler's guard; no ensures of its own: `ValidInputIffInHours` and `AddInvalidInputUnchanged` carry its contract |
| Handlers.ValidDeleteIndex | event-scheduler.go:114-115 | the delete handler's guard; no ensures of its own: `DeleteGuardMatchesDeleteEvent` carries its contract |
| Handlers.ServeAdd | event-scheduler.go:71-108 | the add handler on a list; no ensures of its own: `AddOutcomeSpec` and `AddInvalidInputUnchanged` carry its contract, and `HandleAdd` is tied to it |
| Handlers.ServeDelete | event-scheduler.go:111-124 | the delete handler on a list; no ensures of its own: `DeleteGuardMatchesDeleteEvent` carries its contract, and `HandleDelete` is tied to it |
| Handlers.Serve | event-scheduler.go:61-124 | the list after one request to any of the three routes; no ensures of its own: `ServePreservesConsistent` carries its contract |
| Handlers.ServeAll | event-scheduler.go:61-124 | the list after a sequence of requests served one at a time; no ensures of its own: `ServeAllPreservesConsistent` and `ReachableIsConsistent` carry its contract |
| Handlers.ValidInputIffInHours | event-scheduler.go:77-80 | the add guard accepts exactly two parsed values with 0 <= start < end <= 23 |
| Handlers.AddInvalidInputUnchanged | event-scheduler.go:80-89 | invalid fields give the invalid-input outcome and leave the list unchanged |
| Handlers.AddOutcomeSpec | event-scheduler.go:80-107 | the add handler succeeds exactly when the input is valid and no existing event overlaps, and reports an overlap exactly when valid input meets a conflicting event; on success the shown list has the new event appended, on any failure it is the old list |
| Handlers.DeleteGuardMatchesDeleteEvent | event-scheduler.go:114-116 | for a parsed id the handler's range check is the same as DeleteEvent's own; an unparsed id changes nothing |
| Handlers.ServePreservesConsistent | event-scheduler.go:71-124 | every add, delete or page request keeps the list free of overlaps and within 0..23 |
| Handlers.ServeAllPreservesConsistent | event-scheduler.go:71-124 | any sequence of requests keeps the list free of overlaps and within 0..23 |
| Handlers.ReachableIsConsistent | event-scheduler.go:52-124 | from the empty scheduler, every event reached through the handlers has 0 <= StartTime < EndTime <= 23, and no two overlap |
| Handlers.HandleAdd | event-scheduler.go:71-108 | the outcome and shown list are those of `ServeAdd` on the old list; the scheduler holds the shown list; the invariant is kept |
| Handlers.HandleDelete | event-scheduler.go:111-124 | the scheduler's list becomes that of `ServeDelete` on the old list; the invariant is kept |
| Handlers.AdjacentScenario | event-scheduler.go:25 | adding [9,10) then [10,11) succeeds both times and lists both in order |
| Handlers.OverlapScenario | event-scheduler.go:25-27 | adding [9,11) then [10,12) rejects the second and lists only [9,11) |
| Handlers.DuplicateScenario | event-scheduler.go:25-27 | adding [9,10) twice rejects the second and lists one event |
| Handlers.InvalidInputScenario | event-scheduler.go:80 | unparsed, empty, inverted and out-of-range fields are all rejected and nothing is added |
| Handlers.DeleteScenario | event-scheduler.go:36-43 | after adding [1,2) and [3,4) and deleting index 0, only [3,4) is left; an out-of-range or unparsed id changes nothing |

## Left out

- Web plumbing: routing, HTML templates and rendering, error messages, the
  redirect after delete and HTTP status codes (event-scheduler.go:54-68,
  82-107, 123, 127-128). The root page route only calls `GetEvents`, which is
  modelled. The add handler's result is modelled as an outcome
  (`Success`, `InvalidInput`, `Overlap`) plus the list it shows.
- Integer parsing with `strconv.Atoi` (event-scheduler.go:77-78, 114): a
  library call. Its result is modelled as `Option<int>`, `None` for a parse
  error.
- Logging (`log.Printf`, `log.Println`): output only, with no effect on
  behaviour.
- The process-wide global scheduler (event-scheduler.go:52) and requests that
  run at the same time without a lock. The model uses one `Scheduler` object,
  handling one request at a time.
- Go slice aliasing: the slice returned by `GetEvents` shares its backing
  array with the scheduler, and a later in-place delete can change what it
  holds. `GetEvents` is modelled as returning the current value of the list.
