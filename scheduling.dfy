/** The in-memory scheduler: a list of hour intervals that never overlap.

    An event occupies the half-open interval [startTime, endTime). New events
    are appended at the end of the list (there is no sorting) and events are
    deleted by their position in the list. */
module Scheduling {

  /** A time block, in whole hours. */
  datatype Event = Event(startTime: int, endTime: int)

  /** The hours the web form accepts: 0 <= start < end <= 23. */
  const FirstHour: int := 0
  const LastHour: int := 23

  predicate InHours(ev: Event) {
    FirstHour <= ev.startTime < ev.endTime <= LastHour
  }

  /** The conflict test of AddEvent: the new interval `a` starts before the
      existing `b` ends and ends after `b` starts. Touching intervals do not
      overlap. */
  predicate Overlaps(a: Event, b: Event) {
    a.startTime < b.endTime && a.endTime > b.startTime
  }

  /** Some event of the list overlaps `ev`. */
  predicate HasConflict(events: seq<Event>, ev: Event) {
    exists k :: 0 <= k < |events| && Overlaps(ev, events[k])
  }

  /** The scheduler's invariant: no two events of the list overlap. */
  predicate NonOverlapping(events: seq<Event>) {
    forall i, j :: 0 <= i < j < |events| ==> !Overlaps(events[j], events[i])
  }

  predicate AllInHours(events: seq<Event>) {
    forall k :: 0 <= k < |events| ==> InHours(events[k])
  }

  /** The list after AddEvent(ev.startTime, ev.endTime). */
  function AfterAdd(events: seq<Event>, ev: Event): seq<Event> {
    if HasConflict(events, ev) then events else events + [ev]
  }

  /** The list after DeleteEvent(index). */
  function AfterDelete(events: seq<Event>, index: int): seq<Event> {
    if 0 <= index < |events| then events[..index] + events[index + 1..] else events
  }

  /** The list after adding each of `evs` in turn. */
  function AddAll(events: seq<Event>, evs: seq<Event>): seq<Event>
    decreases |evs|
  {
    if evs == [] then events else AddAll(AfterAdd(events, evs[0]), evs[1..])
  }

  // ---------------------------------------------------------------------------
  // Properties of the overlap test

  /** Overlap does not depend on which interval is the new one. */
  lemma OverlapsSymmetric(a: Event, b: Event)
    ensures Overlaps(a, b) <==> Overlaps(b, a)
  {}

  /** Hour `h` lies in the block `ev`. */
  predicate Covers(ev: Event, h: int) {
    ev.startTime <= h < ev.endTime
  }

  /** For non-empty blocks the overlap test is exactly "some hour lies in
      both": the later of the two starts is such an hour. Blocks that share
      an hour always overlap, empty ones included. */
  lemma OverlapsIffSharedHour(a: Event, b: Event)
    ensures (exists h :: Covers(a, h) && Covers(b, h)) ==> Overlaps(a, b)
    ensures a.startTime < a.endTime && b.startTime < b.endTime && Overlaps(a, b) ==>
      var h := if a.startTime < b.startTime then b.startTime else a.startTime;
      Covers(a, h) && Covers(b, h)
  {}

  /** An interval overlaps itself exactly when it is non-empty; an empty or
      inverted one (start >= end) does not. */
  lemma SelfOverlapIffNonEmpty(ev: Event)
    ensures Overlaps(ev, ev) <==> ev.startTime < ev.endTime
  {}

  /** There is no conflict exactly when every existing event ends no later
      than the new one starts, or starts no earlier than it ends. */
  lemma NoConflictIffSeparated(events: seq<Event>, ev: Event)
    ensures !HasConflict(events, ev) <==>
      forall k :: 0 <= k < |events| ==>
        events[k].endTime <= ev.startTime || ev.endTime <= events[k].startTime
  {}

  // ---------------------------------------------------------------------------
  // AddEvent on the list

  /** A conflicting event is rejected and the list stays as it was. */
  lemma AddConflictUnchanged(events: seq<Event>, ev: Event, k: int)
    requires 0 <= k < |events| && Overlaps(ev, events[k])
    ensures AfterAdd(events, ev) == events
  {}

  /** A non-conflicting event is appended at the end: the list grows by one,
      the earlier events stay in place and the last one is `ev`. */
  lemma AddAppendsAtEnd(events: seq<Event>, ev: Event)
    requires !HasConflict(events, ev)
    ensures |AfterAdd(events, ev)| == |events| + 1
    ensures AfterAdd(events, ev)[..|events|] == events
    ensures AfterAdd(events, ev)[|events|] == ev
  {}

  /** An interval that touches existing events at its ends, and meets no
      other conflict, is accepted. */
  lemma {:induction false} AddAdjacentSucceeds(events: seq<Event>, ev: Event)
    requires forall k :: 0 <= k < |events| ==>
      events[k].endTime <= ev.startTime || ev.endTime <= events[k].startTime
    ensures AfterAdd(events, ev) == events + [ev]
  {
    NoConflictIffSeparated(events, ev);
  }

  /** Adding a non-empty interval that is already in the list is rejected. */
  lemma AddDuplicateRejected(events: seq<Event>, k: int)
    requires 0 <= k < |events| && events[k].startTime < events[k].endTime
    ensures AfterAdd(events, events[k]) == events
  {
    assert Overlaps(events[k], events[k]);
  }

  /** AddEvent keeps the list free of overlaps. */
  lemma AddPreservesNonOverlapping(events: seq<Event>, ev: Event)
    requires NonOverlapping(events)
    ensures NonOverlapping(AfterAdd(events, ev))
  {
    if !HasConflict(events, ev) {
      var r := events + [ev];
      forall i, j | 0 <= i < j < |r| ensures !Overlaps(r[j], r[i]) {
        if j == |events| {
          assert !Overlaps(ev, events[i]);
          OverlapsSymmetric(ev, events[i]);
        }
      }
    }
  }

  /** AddEvent keeps every event within the accepted hours when the new one is. */
  lemma AddPreservesInHours(events: seq<Event>, ev: Event)
    requires AllInHours(events) && InHours(ev)
    ensures AllInHours(AfterAdd(events, ev))
  {}

  /** Adding events that are free of overlaps with each other and with the
      list appends all of them, in the order they were added. */
  lemma {:induction false} AddAllInInsertionOrder(events: seq<Event>, evs: seq<Event>)
    requires NonOverlapping(events + evs)
    ensures AddAll(events, evs) == events + evs
    decreases |evs|
  {
    if evs != [] {
      var all := events + evs;
      assert !HasConflict(events, evs[0]) by {
        forall k | 0 <= k < |events| ensures !Overlaps(evs[0], events[k]) {
          assert all[k] == events[k] && all[|events|] == evs[0];
        }
      }
      assert AfterAdd(events, evs[0]) + evs[1..] == all;
      AddAllInInsertionOrder(events + [evs[0]], evs[1..]);
    }
  }

  // ---------------------------------------------------------------------------
  // DeleteEvent on the list

  /** Deleting an in-range index removes exactly that event: the list shrinks
      by one, earlier events keep their index and later ones move down by one. */
  lemma DeleteRemovesIndex(events: seq<Event>, index: int)
    requires 0 <= index < |events|
    ensures |AfterDelete(events, index)| == |events| - 1
    ensures forall k :: 0 <= k < index ==> AfterDelete(events, index)[k] == events[k]
    ensures forall k :: index <= k < |events| - 1 ==> AfterDelete(events, index)[k] == events[k + 1]
    ensures multiset(AfterDelete(events, index)) + multiset{events[index]} == multiset(events)
  {
    assert events == events[..index] + [events[index]] + events[index + 1..];
  }

  /** Deleting an index outside the list changes nothing. */
  lemma DeleteOutOfRangeUnchanged(events: seq<Event>, index: int)
    requires index < 0 || |events| <= index
    ensures AfterDelete(events, index) == events
  {}

  /** DeleteEvent keeps the list free of overlaps: what remains is a
      subsequence of the old list. */
  lemma DeletePreservesNonOverlapping(events: seq<Event>, index: int)
    requires NonOverlapping(events)
    ensures NonOverlapping(AfterDelete(events, index))
  {
    if 0 <= index < |events| {
      var r := AfterDelete(events, index);
      DeleteRemovesIndex(events, index);
      forall i, j | 0 <= i < j < |r| ensures !Overlaps(r[j], r[i]) {
        var i' := if i < index then i else i + 1;
        var j' := if j < index then j else j + 1;
        assert r[i] == events[i'] && r[j] == events[j'];
      }
    }
  }

  /** DeleteEvent keeps every event within the accepted hours. */
  lemma DeletePreservesInHours(events: seq<Event>, index: int)
    requires AllInHours(events)
    ensures AllInHours(AfterDelete(events, index))
  {
    if 0 <= index < |events| {
      DeleteRemovesIndex(events, index);
    }
  }

  // ---------------------------------------------------------------------------
  // The scheduler object

  /** The scheduler: owns the list of events and updates it in place. */
  class Scheduler {
    var events: seq<Event>

    ghost predicate Valid()
      reads this
    {
      NonOverlapping(events)
    }

    /** A new scheduler is empty. */
    constructor ()
      ensures events == [] && Valid()
    {
      events := [];
    }

    /** Scans the list for an event overlapping [startTime, endTime); rejects
        on the first one found, otherwise appends the new event. */
    method AddEvent(startTime: int, endTime: int) returns (added: bool)
      modifies this
      ensures added <==> forall k :: 0 <= k < |old(events)| ==>
        !Overlaps(Event(startTime, endTime), old(events)[k])
      ensures events == AfterAdd(old(events), Event(startTime, endTime))
      ensures old(Valid()) ==> Valid()
    {
      ghost var ev := Event(startTime, endTime);
      var i := 0;
      while i < |events|
        invariant 0 <= i <= |events|
        invariant forall k :: 0 <= k < i ==> !Overlaps(ev, events[k])
      {
        var event := events[i];
        if startTime < event.endTime && endTime > event.startTime {
          return false;
        }
        i := i + 1;
      }
      if NonOverlapping(events) {
        AddPreservesNonOverlapping(events, ev);
      }
      events := events + [Event(startTime, endTime)];
      added := true;
    }

    /** Removes the event at `index`, shifting later events down; an index
        outside the list changes nothing. */
    method DeleteEvent(index: int)
      modifies this
      ensures events == AfterDelete(old(events), index)
      ensures old(Valid()) ==> Valid()
    {
      if NonOverlapping(events) {
        DeletePreservesNonOverlapping(events, index);
      }
      if index >= 0 && index < |events| {
        events := events[..index] + events[index + 1..];
      }
    }

    /** The current list, in insertion order minus deletions. */
    method GetEvents() returns (list: seq<Event>)
      ensures list == events
    {
      list := events;
    }
  }

}
