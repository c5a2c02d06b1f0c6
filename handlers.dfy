/** The two form handlers of the web front end, reduced to their decisions.

    A form field arrives already parsed: `None` when it is not an integer.
    The add handler calls AddEvent only for parsed hours with
    0 <= start < end <= 23; the delete handler calls DeleteEvent only for a
    parsed, in-range index. Rendering, redirects and status codes are left
    out; the add handler's result is its outcome and the list it shows. */
module Handlers {

  import opened Wrappers
  import opened Scheduling

  /** What the add handler reports: the event was added, the fields were
      invalid, or the event overlaps an existing one. */
  datatype AddOutcome = Success | InvalidInput | Overlap

  datatype AddResponse = AddResponse(outcome: AddOutcome, events: seq<Event>)

  /** One request to the web front end. */
  datatype Request =
    | ShowPage
    | AddEventForm(startField: Option<int>, endField: Option<int>)
    | DeleteEventForm(idField: Option<int>)

  /** The add handler's guard: both fields parsed and 0 <= start < end <= 23. */
  predicate ValidInput(startField: Option<int>, endField: Option<int>) {
    !(startField.None? || endField.None?
      || startField.value >= endField.value
      || startField.value < FirstHour
      || endField.value > LastHour)
  }

  /** The delete handler's guard: the id parsed and indexes the list. */
  predicate ValidDeleteIndex(idField: Option<int>, count: int) {
    idField.Some? && idField.value >= 0 && idField.value < count
  }

  /** The add handler on the list `events`. */
  function ServeAdd(events: seq<Event>, startField: Option<int>, endField: Option<int>): AddResponse {
    if !ValidInput(startField, endField) then
      AddResponse(InvalidInput, events)
    else
      var ev := Event(startField.value, endField.value);
      if HasConflict(events, ev) then AddResponse(Overlap, events)
      else AddResponse(Success, AfterAdd(events, ev))
  }

  /** The delete handler on the list `events`. */
  function ServeDelete(events: seq<Event>, idField: Option<int>): seq<Event> {
    if ValidDeleteIndex(idField, |events|) then AfterDelete(events, idField.value) else events
  }

  /** The list after one request. */
  function Serve(events: seq<Event>, req: Request): seq<Event> {
    match req
    case ShowPage => events
    case AddEventForm(s, e) => ServeAdd(events, s, e).events
    case DeleteEventForm(id) => ServeDelete(events, id)
  }

  /** The list after a sequence of requests, served one at a time. */
  function ServeAll(events: seq<Event>, reqs: seq<Request>): seq<Event>
    decreases |reqs|
  {
    if reqs == [] then events else ServeAll(Serve(events, reqs[0]), reqs[1..])
  }

  /** The state every list reached through the handlers is in. */
  predicate Consistent(events: seq<Event>) {
    NonOverlapping(events) && AllInHours(events)
  }

  // ---------------------------------------------------------------------------
  // Properties of the handlers

  /** The guard accepts exactly the parsed hours within 0..23 with start
      before end. */
  lemma ValidInputIffInHours(startField: Option<int>, endField: Option<int>)
    ensures ValidInput(startField, endField) <==>
      startField.Some? && endField.Some? && InHours(Event(startField.value, endField.value))
  {}

  /** Invalid fields are reported and the list is left as it was. */
  lemma AddInvalidInputUnchanged(events: seq<Event>, startField: Option<int>, endField: Option<int>)
    requires !ValidInput(startField, endField)
    ensures ServeAdd(events, startField, endField) == AddResponse(InvalidInput, events)
  {}

  /** The add handler succeeds exactly when the input is valid and free of
      conflicts, and reports an overlap exactly when valid input conflicts;
      on success the new event is at the end of the shown list, and on
      any failure the shown list is the old one. */
  lemma AddOutcomeSpec(events: seq<Event>, startField: Option<int>, endField: Option<int>)
    ensures var r := ServeAdd(events, startField, endField);
      (r.outcome == Success <==>
        ValidInput(startField, endField)
        && forall k :: 0 <= k < |events| ==>
             !Overlaps(Event(startField.value, endField.value), events[k]))
      && (r.outcome == Overlap <==>
        ValidInput(startField, endField)
        && HasConflict(events, Event(startField.value, endField.value)))
      && (r.outcome == Success ==> r.events == events + [Event(startField.value, endField.value)])
      && (r.outcome != Success ==> r.events == events)
  {}

  /** The delete handler's own range check repeats DeleteEvent's: for any
      parsed id it does what DeleteEvent does, and an unparsed id changes
      nothing. */
  lemma DeleteGuardMatchesDeleteEvent(events: seq<Event>, idField: Option<int>)
    ensures idField.Some? ==> ServeDelete(events, idField) == AfterDelete(events, idField.value)
    ensures idField.None? ==> ServeDelete(events, idField) == events
  {}

  /** Every request keeps the list free of overlaps and within the hours. */
  lemma ServePreservesConsistent(events: seq<Event>, req: Request)
    requires Consistent(events)
    ensures Consistent(Serve(events, req))
  {
    match req
    case ShowPage =>
    case AddEventForm(s, e) =>
      if ValidInput(s, e) {
        var ev := Event(s.value, e.value);
        AddPreservesNonOverlapping(events, ev);
        AddPreservesInHours(events, ev);
      }
    case DeleteEventForm(id) =>
      if ValidDeleteIndex(id, |events|) {
        DeletePreservesNonOverlapping(events, id.value);
        DeletePreservesInHours(events, id.value);
      }
  }

  /** Any sequence of requests keeps the list free of overlaps and within
      the hours. */
  lemma {:induction false} ServeAllPreservesConsistent(events: seq<Event>, reqs: seq<Request>)
    requires Consistent(events)
    ensures Consistent(ServeAll(events, reqs))
    decreases |reqs|
  {
    if reqs != [] {
      ServePreservesConsistent(events, reqs[0]);
      ServeAllPreservesConsistent(Serve(events, reqs[0]), reqs[1..]);
    }
  }

  /** Starting from the empty scheduler, every event ever in the list has
      0 <= startTime < endTime <= 23 and no two of them overlap. */
  lemma ReachableIsConsistent(reqs: seq<Request>)
    ensures NonOverlapping(ServeAll([], reqs))
    ensures forall k :: 0 <= k < |ServeAll([], reqs)| ==>
      FirstHour <= ServeAll([], reqs)[k].startTime < ServeAll([], reqs)[k].endTime <= LastHour
  {
    ServeAllPreservesConsistent([], reqs);
  }

  // ---------------------------------------------------------------------------
  // The handlers on the scheduler object

  /** The add handler: checks the fields, then calls AddEvent, and shows the
      list as it is afterwards. */
  method HandleAdd(scheduler: Scheduler, startField: Option<int>, endField: Option<int>)
    returns (outcome: AddOutcome, shown: seq<Event>)
    modifies scheduler
    ensures AddResponse(outcome, shown) == ServeAdd(old(scheduler.events), startField, endField)
    ensures shown == scheduler.events
    ensures old(scheduler.Valid()) ==> scheduler.Valid()
  {
    if !ValidInput(startField, endField) {
      outcome := InvalidInput;
      shown := scheduler.GetEvents();
      return;
    }
    var added := scheduler.AddEvent(startField.value, endField.value);
    outcome := if added then Success else Overlap;
    shown := scheduler.GetEvents();
  }

  /** The delete handler: deletes only for a parsed, in-range id, and
      ignores anything else. */
  method HandleDelete(scheduler: Scheduler, idField: Option<int>)
    modifies scheduler
    ensures scheduler.events == ServeDelete(old(scheduler.events), idField)
    ensures old(scheduler.Valid()) ==> scheduler.Valid()
  {
    var current := scheduler.GetEvents();
    if ValidDeleteIndex(idField, |current|) {
      scheduler.DeleteEvent(idField.value);
    }
  }

  // ---------------------------------------------------------------------------
  // Scenarios on a fresh scheduler

  /** Adjacent blocks [9,10) and [10,11) are both accepted, in that order. */
  method AdjacentScenario() returns (first: AddOutcome, second: AddOutcome, list: seq<Event>)
    ensures first == Success && second == Success
    ensures list == [Event(9, 10), Event(10, 11)]
  {
    var scheduler := new Scheduler();
    first, list := HandleAdd(scheduler, Some(9), Some(10));
    second, list := HandleAdd(scheduler, Some(10), Some(11));
  }

  /** [10,12) overlaps [9,11) and is rejected; the list keeps only [9,11). */
  method OverlapScenario() returns (first: AddOutcome, second: AddOutcome, list: seq<Event>)
    ensures first == Success && second == Overlap
    ensures list == [Event(9, 11)]
  {
    var scheduler := new Scheduler();
    first, list := HandleAdd(scheduler, Some(9), Some(11));
    assert Overlaps(Event(10, 12), scheduler.events[0]);
    second, list := HandleAdd(scheduler, Some(10), Some(12));
  }

  /** Adding [9,10) twice: the second is a conflict with the first. */
  method DuplicateScenario() returns (first: AddOutcome, second: AddOutcome, list: seq<Event>)
    ensures first == Success && second == Overlap
    ensures list == [Event(9, 10)]
  {
    var scheduler := new Scheduler();
    first, list := HandleAdd(scheduler, Some(9), Some(10));
    assert Overlaps(Event(9, 10), scheduler.events[0]);
    second, list := HandleAdd(scheduler, Some(9), Some(10));
  }

  /** Invalid fields (unparsed, inverted or out of 0..23) are rejected and
      nothing is added. */
  method InvalidInputScenario() returns (outcomes: seq<AddOutcome>, list: seq<Event>)
    ensures outcomes == [InvalidInput, InvalidInput, InvalidInput, InvalidInput, InvalidInput]
    ensures list == []
  {
    var scheduler := new Scheduler();
    var o1, o2, o3, o4, o5;
    o1, list := HandleAdd(scheduler, None, Some(10));
    o2, list := HandleAdd(scheduler, Some(10), Some(10));
    o3, list := HandleAdd(scheduler, Some(12), Some(10));
    o4, list := HandleAdd(scheduler, Some(-1), Some(3));
    o5, list := HandleAdd(scheduler, Some(20), Some(24));
    outcomes := [o1, o2, o3, o4, o5];
  }

  /** Add [1,2) and [3,4), delete index 0: only [3,4) remains, at index 0;
      deleting out of range or an unparsed id changes nothing. */
  method DeleteScenario() returns (list: seq<Event>)
    ensures list == [Event(3, 4)]
  {
    var scheduler := new Scheduler();
    var o1, o2;
    o1, list := HandleAdd(scheduler, Some(1), Some(2));
    o2, list := HandleAdd(scheduler, Some(3), Some(4));
    HandleDelete(scheduler, Some(0));
    HandleDelete(scheduler, Some(5));
    HandleDelete(scheduler, None);
    list := scheduler.GetEvents();
  }

}
