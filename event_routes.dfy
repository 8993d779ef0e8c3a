/** The owner-scoped event endpoints (routers/events.py) as functions of the
    store state. Every lookup is filtered by owner, so an event that exists
    but belongs to someone else is reported as missing. */
module EventRoutes {
  import opened Domain
  import Ordering

  /** The body of an update: each field is either supplied or left out. */
  datatype EventPatch = EventPatch(
    title: Option<string>,
    start: Option<int>,
    end: Option<int>,
    status: Option<EventStatus>)

  /** The lookup every endpoint on one event starts with: id and owner both match. */
  predicate OwnedBy(es: map<EventId, Event>, caller: UserId, id: EventId)
  {
    id in es && es[id].owner == caller
  }

  /** create_event: a fresh id, owned by the caller, BUSY; the times are
      stored as given, with no check that the start precedes the end. */
  function CreateEvent(s: State, caller: UserId, title: string, start: int, end: int): (r: Step<EventId>)
    ensures r.result.Ok?
    ensures Valid(s) ==> Valid(r.state)
    ensures r.state.requests == s.requests
  {
    var id := s.nextEventId;
    Step(Ok(id), s.(events := s.events[id := Event(caller, title, start, end, Busy)],
                    nextEventId := id + 1))
  }

  /** list_events: the caller's events, by start time ascending. */
  ghost function ListEvents(es: map<EventId, Event>, caller: UserId): (r: seq<EventId>)
    ensures forall id :: id in r <==> OwnedBy(es, caller, id)
    ensures Ordering.Distinct(r)
    ensures forall i | 0 <= i < |r| :: r[i] in es
    ensures forall i, j | 0 <= i < j < |r| :: es[r[i]].start <= es[r[j]].start
  {
    Ordering.SortedKeys(map id | id in es && es[id].owner == caller :: es[id].start)
  }

  /** get_event. */
  function GetEvent(es: map<EventId, Event>, caller: UserId, id: EventId): (r: Result<Event>)
    ensures r.Ok? ==> id in es && r.value == es[id] && r.value.owner == caller
    ensures id in es && es[id].owner != caller ==> r == Err(EventNotFound)
  {
    if OwnedBy(es, caller, id) then Ok(es[id]) else Err(EventNotFound)
  }

  /** The event after the supplied fields of `p` are written into it. */
  function Patched(e: Event, p: EventPatch): Event
  {
    e.(title := if p.title.Some? then p.title.value else e.title,
       start := if p.start.Some? then p.start.value else e.start,
       end := if p.end.Some? then p.end.value else e.end,
       status := if p.status.Some? then p.status.value else e.status)
  }

  /** update_event. */
  function UpdateEvent(s: State, caller: UserId, id: EventId, p: EventPatch): (r: Step<Event>)
    ensures Valid(s) ==> Valid(r.state)
    ensures r.result.Err? ==> r.state == s
    ensures r.state.requests == s.requests && r.state.nextEventId == s.nextEventId
  {
    if !OwnedBy(s.events, caller, id) then Step(Err(EventNotFound), s)
    else
      var e := Patched(s.events[id], p);
      Step(Ok(e), s.(events := s.events[id := e]))
  }

  /** delete_event. */
  function DeleteEvent(s: State, caller: UserId, id: EventId): (r: Step<()>)
    ensures Valid(s) ==> Valid(r.state)
    ensures r.result.Err? ==> r.state == s
    ensures r.state.requests == s.requests && r.state.nextEventId == s.nextEventId
  {
    if !OwnedBy(s.events, caller, id) then Step(Err(EventNotFound), s)
    else Step(Ok(()), s.(events := s.events - {id}))
  }

  // ---------------------------------------------------------------------------
  // Properties

  /** create_event adds exactly one event, under a fresh id, and nothing else. */
  lemma CreateEventAddsOne(s: State, caller: UserId, title: string, start: int, end: int)
    requires Valid(s)
    ensures var r := CreateEvent(s, caller, title, start, end);
      && r.result.value !in s.events
      && r.state.events.Keys == s.events.Keys + {r.result.value}
      && r.state.events[r.result.value] == Event(caller, title, start, end, Busy)
      && (forall id | id in s.events :: r.state.events[id] == s.events[id])
      && r.state.requests == s.requests
  {
  }

  /** The event just created is visible to its owner, through get and list,
      and to nobody else. */
  lemma CreatedEventIsOwnedByCaller(s: State, caller: UserId, other: UserId, title: string, start: int, end: int)
    requires Valid(s)
    requires other != caller
    ensures var r := CreateEvent(s, caller, title, start, end);
      && GetEvent(r.state.events, caller, r.result.value) == Ok(Event(caller, title, start, end, Busy))
      && r.result.value in ListEvents(r.state.events, caller)
      && r.result.value !in ListEvents(r.state.events, other)
      && GetEvent(r.state.events, other, r.result.value) == Err(EventNotFound)
  {
    var r := CreateEvent(s, caller, title, start, end);
    assert OwnedBy(r.state.events, caller, r.result.value);
  }

  /** get_event finds exactly the events that list_events shows. */
  lemma GetAgreesWithList(es: map<EventId, Event>, caller: UserId, id: EventId)
    ensures GetEvent(es, caller, id).Ok? <==> id in ListEvents(es, caller)
    ensures GetEvent(es, caller, id).Err? ==> GetEvent(es, caller, id).reason == EventNotFound
  {
  }

  /** update_event succeeds exactly on the caller's own events, writes the
      supplied fields, keeps the others and the owner, and touches nothing
      else. */
  lemma UpdateEventEffect(s: State, caller: UserId, id: EventId, p: EventPatch)
    ensures var r := UpdateEvent(s, caller, id, p);
      && (r.result.Ok? <==> OwnedBy(s.events, caller, id))
      && (r.result.Err? ==> r.result.reason == EventNotFound && r.state == s)
    ensures var r := UpdateEvent(s, caller, id, p);
      r.result.Ok? ==>
        var old_ := s.events[id];
        var new_ := r.state.events[id];
        && r.result.value == new_
        && new_.owner == old_.owner
        && new_.title == (if p.title.Some? then p.title.value else old_.title)
        && new_.start == (if p.start.Some? then p.start.value else old_.start)
        && new_.end == (if p.end.Some? then p.end.value else old_.end)
        && new_.status == (if p.status.Some? then p.status.value else old_.status)
        && r.state.events.Keys == s.events.Keys
        && (forall e | e in s.events && e != id :: r.state.events[e] == s.events[e])
        && r.state.requests == s.requests
  {
  }

  /** Sending the same update twice has the effect of sending it once. */
  lemma UpdateEventIdempotent(s: State, caller: UserId, id: EventId, p: EventPatch)
    ensures var once := UpdateEvent(s, caller, id, p);
      UpdateEvent(once.state, caller, id, p) == once
  {
  }

  /** Neither endpoint looks at the swap requests: both behave the same
      whatever swap requests exist, so an event can be edited or given any
      status while a PENDING request still refers to it, and the endpoint
      itself does not refuse to delete such an event. */
  lemma EventEndpointsIgnoreSwapRequests(
    s: State, requests: map<SwapId, SwapRequest>, caller: UserId, id: EventId, p: EventPatch)
    ensures var t := s.(requests := requests);
      && UpdateEvent(t, caller, id, p).result == UpdateEvent(s, caller, id, p).result
      && UpdateEvent(t, caller, id, p).state.events == UpdateEvent(s, caller, id, p).state.events
      && DeleteEvent(t, caller, id).result == DeleteEvent(s, caller, id).result
      && DeleteEvent(t, caller, id).state.events == DeleteEvent(s, caller, id).state.events
  {
  }

  /** delete_event removes exactly the caller's event and leaves every swap
      request, including those that refer to it, as it was. */
  lemma DeleteEventEffect(s: State, caller: UserId, id: EventId)
    ensures var r := DeleteEvent(s, caller, id);
      && (r.result.Ok? <==> OwnedBy(s.events, caller, id))
      && (r.result.Err? ==> r.result.reason == EventNotFound && r.state == s)
      && (r.result.Ok? ==>
            && r.state.events.Keys == s.events.Keys - {id}
            && (forall e | e in r.state.events :: r.state.events[e] == s.events[e])
            && r.state.requests == s.requests
            && GetEvent(r.state.events, caller, id) == Err(EventNotFound))
  {
  }
}
