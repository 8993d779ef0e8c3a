/** The database session the endpoints work through, with the state-changing
    endpoints written as the routers write them: load the rows, check the
    guards one after another, assign fields one by one, commit. Each method
    is proved to do exactly what the corresponding function of EventRoutes or
    SwapRoutes describes. */
module Store {
  import opened Domain
  import EventRoutes
  import SwapRoutes

  class Database {
    var events: map<EventId, Event>
    var requests: map<SwapId, SwapRequest>
    var nextEventId: nat
    var nextSwapId: nat

    function Current(): State
      reads this
    {
      State(events, requests, nextEventId, nextSwapId)
    }

    /** An empty database. */
    constructor ()
      ensures Current() == State(map[], map[], 0, 0)
      ensures Valid(Current())
    {
      events, requests := map[], map[];
      nextEventId, nextSwapId := 0, 0;
    }

    /** create_event. */
    method CreateEvent(caller: UserId, title: string, start: int, end: int) returns (id: EventId)
      requires Valid(Current())
      modifies this
      ensures Valid(Current())
      ensures EventRoutes.CreateEvent(old(Current()), caller, title, start, end) == Step(Ok(id), Current())
    {
      id := nextEventId;
      nextEventId := nextEventId + 1;
      events := events[id := Event(caller, title, start, end, Busy)];
    }

    /** update_event: each supplied field is written in turn. */
    method UpdateEvent(caller: UserId, eventId: EventId, patch: EventRoutes.EventPatch) returns (r: Result<Event>)
      requires Valid(Current())
      modifies this
      ensures Valid(Current())
      ensures EventRoutes.UpdateEvent(old(Current()), caller, eventId, patch) == Step(r, Current())
    {
      if !(eventId in events && events[eventId].owner == caller) {
        return Err(EventNotFound);
      }
      var event := events[eventId];
      if patch.title.Some? {
        event := event.(title := patch.title.value);
      }
      if patch.start.Some? {
        event := event.(start := patch.start.value);
      }
      if patch.end.Some? {
        event := event.(end := patch.end.value);
      }
      if patch.status.Some? {
        event := event.(status := patch.status.value);
      }
      events := events[eventId := event];
      return Ok(event);
    }

    /** delete_event. */
    method DeleteEvent(caller: UserId, eventId: EventId) returns (r: Result<()>)
      requires Valid(Current())
      modifies this
      ensures Valid(Current())
      ensures EventRoutes.DeleteEvent(old(Current()), caller, eventId) == Step(r, Current())
    {
      if !(eventId in events && events[eventId].owner == caller) {
        return Err(EventNotFound);
      }
      events := events - {eventId};
      return Ok(());
    }

    /** request_swap: six guards, then the new request and both status
        changes in one commit. */
    method RequestSwap(caller: UserId, mySlotId: EventId, theirSlotId: EventId, now: int) returns (r: Result<SwapId>)
      requires Valid(Current())
      modifies this
      ensures Valid(Current())
      ensures SwapRoutes.ProposeSwap(old(Current()), caller, mySlotId, theirSlotId, now) == Step(r, Current())
    {
      if mySlotId !in events {
        SwapRoutes.ProposalChecksInOrder(Current(), caller, mySlotId, theirSlotId, now);
        return Err(MySlotNotFound);
      }
      var mySlot := events[mySlotId];
      if theirSlotId !in events {
        SwapRoutes.ProposalChecksInOrder(Current(), caller, mySlotId, theirSlotId, now);
        return Err(TheirSlotNotFound);
      }
      var theirSlot := events[theirSlotId];
      if mySlot.owner != caller {
        SwapRoutes.ProposalChecksInOrder(Current(), caller, mySlotId, theirSlotId, now);
        return Err(NotOwnerOfOfferedSlot);
      }
      if theirSlot.owner == caller {
        SwapRoutes.ProposalChecksInOrder(Current(), caller, mySlotId, theirSlotId, now);
        return Err(CannotSwapOwnSlot);
      }
      if mySlot.status != Swappable {
        SwapRoutes.ProposalChecksInOrder(Current(), caller, mySlotId, theirSlotId, now);
        return Err(MySlotNotSwappable);
      }
      if theirSlot.status != Swappable {
        SwapRoutes.ProposalChecksInOrder(Current(), caller, mySlotId, theirSlotId, now);
        return Err(TheirSlotNotSwappable);
      }
      ghost var s0 := Current();
      ProposedAs(s0, caller, mySlotId, theirSlotId, now);
      var swap := SwapRequest(caller, mySlotId, theirSlotId, Pending, now, now);
      mySlot := mySlot.(status := SwapPending);
      theirSlot := theirSlot.(status := SwapPending);
      events := events[mySlotId := mySlot][theirSlotId := theirSlot];
      var id := nextSwapId;
      nextSwapId := nextSwapId + 1;
      requests := requests[id := swap];
      return Ok(id);
    }

    /** respond_to_swap: four guards, then either the reversion of pending
        statuses or the exchange of owners through a temporary, in one commit. */
    method RespondToSwap(caller: UserId, requestId: SwapId, accepted: bool, now: int) returns (r: Result<SwapRequest>)
      requires Valid(Current())
      modifies this
      ensures Valid(Current())
      ensures SwapRoutes.RespondToSwap(old(Current()), caller, requestId, accepted, now) == Step(r, Current())
    {
      if requestId !in requests {
        SwapRoutes.ResponseChecksInOrder(Current(), caller, requestId, accepted, now);
        return Err(SwapRequestNotFound);
      }
      var swap := requests[requestId];
      var offered, requested := swap.offered, swap.requested;
      if offered !in events || requested !in events {
        SwapRoutes.ResponseChecksInOrder(Current(), caller, requestId, accepted, now);
        return Err(RelatedEventsNotFound);
      }
      if events[requested].owner != caller {
        SwapRoutes.ResponseChecksInOrder(Current(), caller, requestId, accepted, now);
        return Err(NotAuthorizedToRespond);
      }
      if swap.status != Pending {
        SwapRoutes.ResponseChecksInOrder(Current(), caller, requestId, accepted, now);
        return Err(AlreadyProcessed);
      }
      ghost var s0 := Current();
      SettledAs(s0, caller, requestId, accepted, now);
      if !accepted {
        swap := swap.(status := Rejected);
        Release(offered, requested);
      } else {
        swap := swap.(status := Accepted);
        Exchange(offered, requested);
      }
      swap := swap.(updatedAt := now);
      requests := requests[requestId := swap];
      return Ok(swap);
    }

    /** Rejection: each of the two events that is SWAP_PENDING goes back
        to SWAPPABLE. */
    method Release(offered: EventId, requested: EventId)
      requires offered in events && requested in events && offered != requested
      modifies this
      ensures events == SwapRoutes.AfterReject(old(events), offered, requested)
      ensures requests == old(requests)
      ensures nextEventId == old(nextEventId) && nextSwapId == old(nextSwapId)
    {
      if events[offered].status == SwapPending {
        events := events[offered := events[offered].(status := Swappable)];
      }
      if events[requested].status == SwapPending {
        events := events[requested := events[requested].(status := Swappable)];
      }
    }

    /** Acceptance: the owners are exchanged through a temporary, then both
        events become BUSY. */
    method Exchange(offered: EventId, requested: EventId)
      requires offered in events && requested in events && offered != requested
      modifies this
      ensures events == SwapRoutes.AfterAccept(old(events), offered, requested)
      ensures requests == old(requests)
      ensures nextEventId == old(nextEventId) && nextSwapId == old(nextSwapId)
    {
      var mine, theirs := events[offered], events[requested];
      var originalRequestedOwner := theirs.owner;
      theirs := theirs.(owner := mine.owner);
      mine := mine.(owner := originalRequestedOwner);
      theirs := theirs.(status := Busy);
      mine := mine.(status := Busy);
      events := events[offered := mine][requested := theirs];
    }
  }

  /** The outcome of an admissible proposal, spelled out field by field. */
  lemma ProposedAs(s: State, caller: UserId, my: EventId, their: EventId, now: int)
    requires Valid(s)
    requires SwapRoutes.ProposalAdmissible(s.events, caller, my, their)
    ensures var r := SwapRoutes.ProposeSwap(s, caller, my, their, now);
      && r.result == Ok(s.nextSwapId)
      && r.state.events == s.events[my := s.events[my].(status := SwapPending)]
                                   [their := s.events[their].(status := SwapPending)]
      && r.state.requests == s.requests[s.nextSwapId := SwapRequest(caller, my, their, Pending, now, now)]
      && r.state.nextSwapId == s.nextSwapId + 1
      && r.state.nextEventId == s.nextEventId
  {
  }

  /** The outcome of an admissible response, spelled out field by field. */
  lemma SettledAs(s: State, caller: UserId, id: SwapId, accepted: bool, now: int)
    requires Valid(s)
    requires SwapRoutes.ResponseAdmissible(s, caller, id)
    ensures var req := s.requests[id];
      var r := SwapRoutes.RespondToSwap(s, caller, id, accepted, now);
      && r.result == Ok(req.(status := if accepted then Accepted else Rejected, updatedAt := now))
      && r.state.requests == s.requests[id := r.result.value]
      && r.state.nextEventId == s.nextEventId && r.state.nextSwapId == s.nextSwapId
      && r.state.events == if accepted then SwapRoutes.AfterAccept(s.events, req.offered, req.requested)
                           else SwapRoutes.AfterReject(s.events, req.offered, req.requested)
  {
  }
}
