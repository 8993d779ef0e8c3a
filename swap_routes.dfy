/** The swap negotiation endpoints (routers/swaps.py) as functions of the
    store state: proposing a swap, answering one, and the three listings. */
module SwapRoutes {
  import opened Domain
  import Ordering

  // ---------------------------------------------------------------------------
  // request_swap

  /** The guards of request_swap, in the order the endpoint evaluates them. */
  const PROPOSAL_CHECKS: seq<Reason> := [
    MySlotNotFound, TheirSlotNotFound, NotOwnerOfOfferedSlot,
    CannotSwapOwnSlot, MySlotNotSwappable, TheirSlotNotSwappable]

  /** Whether guard `check` fails for the caller offering `my` for `their`. */
  predicate ProposalViolates(es: map<EventId, Event>, caller: UserId, my: EventId, their: EventId, check: Reason)
  {
    match check
    case MySlotNotFound => my !in es
    case TheirSlotNotFound => their !in es
    case NotOwnerOfOfferedSlot => my in es && es[my].owner != caller
    case CannotSwapOwnSlot => their in es && es[their].owner == caller
    case MySlotNotSwappable => my in es && es[my].status != Swappable
    case TheirSlotNotSwappable => their in es && es[their].status != Swappable
    case _ => false
  }

  /** A proposal request_swap carries out. */
  predicate ProposalAdmissible(es: map<EventId, Event>, caller: UserId, my: EventId, their: EventId)
  {
    && my in es && their in es
    && es[my].owner == caller && es[their].owner != caller
    && es[my].status == Swappable && es[their].status == Swappable
  }

  /** The refusal request_swap reports: the first guard that fails. */
  function ProposalError(es: map<EventId, Event>, caller: UserId, my: EventId, their: EventId): (r: Option<Reason>)
    ensures r.None? <==> ProposalAdmissible(es, caller, my, their)
    ensures r.None? ==> my != their
    ensures forall i | 0 <= i < |PROPOSAL_CHECKS| ::
              ProposalViolates(es, caller, my, their, PROPOSAL_CHECKS[i])
              && (forall j | 0 <= j < i :: !ProposalViolates(es, caller, my, their, PROPOSAL_CHECKS[j]))
              ==> r == Some(PROPOSAL_CHECKS[i])
  {
    var r := FirstFailing(PROPOSAL_CHECKS, c => ProposalViolates(es, caller, my, their, c));
    assert ProposalAdmissible(es, caller, my, their) <==>
      forall i | 0 <= i < |PROPOSAL_CHECKS| :: !ProposalViolates(es, caller, my, their, PROPOSAL_CHECKS[i]) by {
      assert PROPOSAL_CHECKS[0] == MySlotNotFound;
      assert PROPOSAL_CHECKS[1] == TheirSlotNotFound;
      assert PROPOSAL_CHECKS[2] == NotOwnerOfOfferedSlot;
      assert PROPOSAL_CHECKS[3] == CannotSwapOwnSlot;
      assert PROPOSAL_CHECKS[4] == MySlotNotSwappable;
      assert PROPOSAL_CHECKS[5] == TheirSlotNotSwappable;
    }
    r
  }

  /** request_swap: on success one new PENDING request, and both events
      SWAP_PENDING, written together. */
  function ProposeSwap(s: State, caller: UserId, my: EventId, their: EventId, now: int): (r: Step<SwapId>)
    ensures Valid(s) ==> Valid(r.state)
    ensures r.result.Err? ==> r.state == s
    ensures r.state.events.Keys == s.events.Keys && r.state.nextEventId == s.nextEventId
  {
    match ProposalError(s.events, caller, my, their)
    case Some(reason) => Step(Err(reason), s)
    case None =>
      var id := s.nextSwapId;
      Step(Ok(id), s.(
        events := s.events[my := s.events[my].(status := SwapPending)]
                          [their := s.events[their].(status := SwapPending)],
        requests := s.requests[id := SwapRequest(caller, my, their, Pending, now, now)],
        nextSwapId := id + 1))
  }

  /** The guards decide in order: the first that fails names the error, and
      a refused proposal writes nothing. */
  lemma ProposalChecksInOrder(s: State, caller: UserId, my: EventId, their: EventId, now: int)
    ensures var r := ProposeSwap(s, caller, my, their, now); r.result.Err? ==> r.state == s
    ensures my !in s.events ==>
      ProposeSwap(s, caller, my, their, now).result == Err(MySlotNotFound)
    ensures my in s.events && their !in s.events ==>
      ProposeSwap(s, caller, my, their, now).result == Err(TheirSlotNotFound)
    ensures my in s.events && their in s.events && s.events[my].owner != caller ==>
      ProposeSwap(s, caller, my, their, now).result == Err(NotOwnerOfOfferedSlot)
    ensures my in s.events && their in s.events && s.events[my].owner == caller
            && s.events[their].owner == caller ==>
      ProposeSwap(s, caller, my, their, now).result == Err(CannotSwapOwnSlot)
    ensures my in s.events && their in s.events && s.events[my].owner == caller
            && s.events[their].owner != caller && s.events[my].status != Swappable ==>
      ProposeSwap(s, caller, my, their, now).result == Err(MySlotNotSwappable)
    ensures my in s.events && their in s.events && s.events[my].owner == caller
            && s.events[their].owner != caller && s.events[my].status == Swappable
            && s.events[their].status != Swappable ==>
      ProposeSwap(s, caller, my, their, now).result == Err(TheirSlotNotSwappable)
    ensures ProposeSwap(s, caller, my, their, now).result.Ok? <==> ProposalAdmissible(s.events, caller, my, their)
  {
    var es := s.events;
    var e := ProposalError(es, caller, my, their);
    assert PROPOSAL_CHECKS[0] == MySlotNotFound;
    assert PROPOSAL_CHECKS[1] == TheirSlotNotFound;
    assert PROPOSAL_CHECKS[2] == NotOwnerOfOfferedSlot;
    assert PROPOSAL_CHECKS[3] == CannotSwapOwnSlot;
    assert PROPOSAL_CHECKS[4] == MySlotNotSwappable;
    assert PROPOSAL_CHECKS[5] == TheirSlotNotSwappable;
    if my !in es {
      assert ProposalViolates(es, caller, my, their, PROPOSAL_CHECKS[0]);
    } else if their !in es {
      assert ProposalViolates(es, caller, my, their, PROPOSAL_CHECKS[1]);
    } else if es[my].owner != caller {
      assert ProposalViolates(es, caller, my, their, PROPOSAL_CHECKS[2]);
    } else if es[their].owner == caller {
      assert ProposalViolates(es, caller, my, their, PROPOSAL_CHECKS[3]);
    } else if es[my].status != Swappable {
      assert ProposalViolates(es, caller, my, their, PROPOSAL_CHECKS[4]);
    } else if es[their].status != Swappable {
      assert ProposalViolates(es, caller, my, their, PROPOSAL_CHECKS[5]);
    }
  }

  /** An accepted proposal adds exactly one request, for the caller, PENDING,
      under a fresh id, between two distinct events; both events become
      SWAP_PENDING with owner, title and times kept; nothing else changes. */
  lemma ProposeSwapEffect(s: State, caller: UserId, my: EventId, their: EventId, now: int)
    requires Valid(s)
    requires ProposeSwap(s, caller, my, their, now).result.Ok?
    ensures var r := ProposeSwap(s, caller, my, their, now); var id := r.result.value;
      && my != their
      && id !in s.requests
      && r.state.requests.Keys == s.requests.Keys + {id}
      && r.state.requests[id] == SwapRequest(caller, my, their, Pending, now, now)
      && (forall k | k in s.requests :: r.state.requests[k] == s.requests[k])
      && r.state.events.Keys == s.events.Keys
      && r.state.events[my] == s.events[my].(status := SwapPending)
      && r.state.events[their] == s.events[their].(status := SwapPending)
      && (forall e | e in s.events && e != my && e != their :: r.state.events[e] == s.events[e])
  {
  }

  /** While either event is SWAP_PENDING no proposal involving it goes
      through; once both exist the refusal is never NotFound, and for the
      owner of the offered event it is a BadRequest. */
  lemma PendingEventBlocksProposal(s: State, caller: UserId, my: EventId, their: EventId, now: int)
    requires my in s.events && their in s.events
    requires s.events[my].status == SwapPending || s.events[their].status == SwapPending
    ensures var r := ProposeSwap(s, caller, my, their, now);
      && r.result.Err?
      && r.state == s
      && Kind(r.result.reason) != NotFound
      && (s.events[my].owner == caller ==> Kind(r.result.reason) == BadRequest)
  {
    ProposalChecksInOrder(s, caller, my, their, now);
  }

  /** The HTTP status of a refused proposal: 404 while either event is
      missing, then 403 when the caller does not own the offered event,
      otherwise 400. */
  lemma ProposalStatusCodes(s: State, caller: UserId, my: EventId, their: EventId, now: int)
    ensures var r := ProposeSwap(s, caller, my, their, now);
      r.result.Err? ==>
        StatusCode(Kind(r.result.reason)) ==
          if my !in s.events || their !in s.events then 404
          else if s.events[my].owner != caller then 403
          else 400
  {
    ProposalChecksInOrder(s, caller, my, their, now);
  }

  /** After a successful proposal, every further proposal that offers or asks
      for either of its two events is refused, and refused with a BadRequest
      whenever both events exist and the caller owns the one offered. */
  lemma ProposalLocksBothEvents(
    s: State, caller: UserId, my: EventId, their: EventId, now: int,
    caller2: UserId, my2: EventId, their2: EventId, now2: int)
    requires Valid(s)
    requires ProposeSwap(s, caller, my, their, now).result.Ok?
    requires my2 in {my, their} || their2 in {my, their}
    ensures var t := ProposeSwap(s, caller, my, their, now).state;
      var r := ProposeSwap(t, caller2, my2, their2, now2);
      && r.result.Err?
      && r.state == t
      && (my2 in t.events && their2 in t.events && t.events[my2].owner == caller2 ==>
            Kind(r.result.reason) == BadRequest)
  {
    var t := ProposeSwap(s, caller, my, their, now).state;
    ProposeSwapEffect(s, caller, my, their, now);
    ProposalChecksInOrder(t, caller2, my2, their2, now2);
    if my2 in t.events && their2 in t.events {
      PendingEventBlocksProposal(t, caller2, my2, their2, now2);
    }
  }

  // ---------------------------------------------------------------------------
  // respond_to_swap

  /** The guards of respond_to_swap, in the order the endpoint evaluates them. */
  const RESPONSE_CHECKS: seq<Reason> := [
    SwapRequestNotFound, RelatedEventsNotFound, NotAuthorizedToRespond, AlreadyProcessed]

  predicate ResponseViolates(s: State, caller: UserId, id: SwapId, check: Reason)
  {
    match check
    case SwapRequestNotFound => id !in s.requests
    case RelatedEventsNotFound =>
      id in s.requests && (s.requests[id].offered !in s.events || s.requests[id].requested !in s.events)
    case NotAuthorizedToRespond =>
      id in s.requests && s.requests[id].requested in s.events
      && s.events[s.requests[id].requested].owner != caller
    case AlreadyProcessed => id in s.requests && s.requests[id].status != Pending
    case _ => false
  }

  /** A response respond_to_swap carries out. */
  predicate ResponseAdmissible(s: State, caller: UserId, id: SwapId)
  {
    && id in s.requests
    && s.requests[id].offered in s.events
    && s.requests[id].requested in s.events
    && s.events[s.requests[id].requested].owner == caller
    && s.requests[id].status == Pending
  }

  /** The refusal respond_to_swap reports: the first guard that fails. */
  function ResponseError(s: State, caller: UserId, id: SwapId): (r: Option<Reason>)
    ensures r.None? <==> ResponseAdmissible(s, caller, id)
    ensures forall i | 0 <= i < |RESPONSE_CHECKS| ::
              ResponseViolates(s, caller, id, RESPONSE_CHECKS[i])
              && (forall j | 0 <= j < i :: !ResponseViolates(s, caller, id, RESPONSE_CHECKS[j]))
              ==> r == Some(RESPONSE_CHECKS[i])
  {
    var r := FirstFailing(RESPONSE_CHECKS, c => ResponseViolates(s, caller, id, c));
    assert ResponseAdmissible(s, caller, id) <==>
      forall i | 0 <= i < |RESPONSE_CHECKS| :: !ResponseViolates(s, caller, id, RESPONSE_CHECKS[i]) by {
      assert RESPONSE_CHECKS[0] == SwapRequestNotFound;
      assert RESPONSE_CHECKS[1] == RelatedEventsNotFound;
      assert RESPONSE_CHECKS[2] == NotAuthorizedToRespond;
      assert RESPONSE_CHECKS[3] == AlreadyProcessed;
    }
    r
  }

  /** An event released by a rejection: SWAP_PENDING goes back to SWAPPABLE,
      any other status stays. */
  function Released(e: Event): (r: Event)
    ensures r.owner == e.owner && r.title == e.title && r.start == e.start && r.end == e.end
    ensures r.status != SwapPending
    ensures e.status == SwapPending ==> r.status == Swappable
    ensures e.status != SwapPending ==> r == e
  {
    if e.status == SwapPending then e.(status := Swappable) else e
  }

  /** The events after a rejection of a request between `o` and `q`. */
  function AfterReject(es: map<EventId, Event>, o: EventId, q: EventId): map<EventId, Event>
    requires o in es && q in es
  {
    es[o := Released(es[o])][q := Released(es[q])]
  }

  /** The events after an acceptance: the owners of `o` and `q` are exchanged
      and both become BUSY. */
  function AfterAccept(es: map<EventId, Event>, o: EventId, q: EventId): map<EventId, Event>
    requires o in es && q in es
  {
    es[o := es[o].(owner := es[q].owner, status := Busy)]
      [q := es[q].(owner := es[o].owner, status := Busy)]
  }

  /** respond_to_swap: all guards first, then the request is closed and its
      two events are released (reject) or exchanged (accept) in one commit. */
  function RespondToSwap(s: State, caller: UserId, id: SwapId, accepted: bool, now: int): (r: Step<SwapRequest>)
    ensures Valid(s) ==> Valid(r.state)
    ensures r.result.Err? ==> r.state == s
    ensures r.state.events.Keys == s.events.Keys && r.state.nextEventId == s.nextEventId
    ensures r.result.Ok? ==> id in s.requests && s.requests[id].status == Pending
    ensures r.result.Ok? ==> r.state.requests == s.requests[id := r.result.value]
    ensures r.result.Ok? ==> r.result.value.status == if accepted then Accepted else Rejected
  {
    match ResponseError(s, caller, id)
    case Some(reason) => Step(Err(reason), s)
    case None =>
      var req := s.requests[id];
      var closed := req.(status := if accepted then Accepted else Rejected, updatedAt := now);
      var events := if accepted then AfterAccept(s.events, req.offered, req.requested)
                    else AfterReject(s.events, req.offered, req.requested);
      Step(Ok(closed), s.(events := events, requests := s.requests[id := closed]))
  }

  /** The guards decide in order, and a refused response writes nothing. */
  lemma ResponseChecksInOrder(s: State, caller: UserId, id: SwapId, accepted: bool, now: int)
    ensures var r := RespondToSwap(s, caller, id, accepted, now); r.result.Err? ==> r.state == s
    ensures id !in s.requests ==>
      RespondToSwap(s, caller, id, accepted, now).result == Err(SwapRequestNotFound)
    ensures id in s.requests
            && (s.requests[id].offered !in s.events || s.requests[id].requested !in s.events) ==>
      RespondToSwap(s, caller, id, accepted, now).result == Err(RelatedEventsNotFound)
    ensures id in s.requests && s.requests[id].offered in s.events && s.requests[id].requested in s.events
            && s.events[s.requests[id].requested].owner != caller ==>
      RespondToSwap(s, caller, id, accepted, now).result == Err(NotAuthorizedToRespond)
    ensures id in s.requests && s.requests[id].offered in s.events && s.requests[id].requested in s.events
            && s.events[s.requests[id].requested].owner == caller && s.requests[id].status != Pending ==>
      RespondToSwap(s, caller, id, accepted, now).result == Err(AlreadyProcessed)
    ensures RespondToSwap(s, caller, id, accepted, now).result.Ok? <==> ResponseAdmissible(s, caller, id)
  {
    assert RESPONSE_CHECKS[0] == SwapRequestNotFound;
    assert RESPONSE_CHECKS[1] == RelatedEventsNotFound;
    assert RESPONSE_CHECKS[2] == NotAuthorizedToRespond;
    assert RESPONSE_CHECKS[3] == AlreadyProcessed;
    if id !in s.requests {
      assert ResponseViolates(s, caller, id, RESPONSE_CHECKS[0]);
    } else if s.requests[id].offered !in s.events || s.requests[id].requested !in s.events {
      assert ResponseViolates(s, caller, id, RESPONSE_CHECKS[1]);
    } else if s.events[s.requests[id].requested].owner != caller {
      assert ResponseViolates(s, caller, id, RESPONSE_CHECKS[2]);
    } else if s.requests[id].status != Pending {
      assert ResponseViolates(s, caller, id, RESPONSE_CHECKS[3]);
    }
  }

  /** The HTTP status of a refused response: 404 while the request or
      either of its events is missing, then 403 when the caller does not own
      the requested event, otherwise 400. */
  lemma ResponseStatusCodes(s: State, caller: UserId, id: SwapId, accepted: bool, now: int)
    ensures var r := RespondToSwap(s, caller, id, accepted, now);
      r.result.Err? ==>
        StatusCode(Kind(r.result.reason)) ==
          if id !in s.requests || s.requests[id].offered !in s.events
             || s.requests[id].requested !in s.events then 404
          else if s.events[s.requests[id].requested].owner != caller then 403
          else 400
  {
    ResponseChecksInOrder(s, caller, id, accepted, now);
  }

  /** A request that is ACCEPTED or REJECTED is never answered again: every
      response to it is refused and leaves the state as it was. */
  lemma SettledRequestIsFinal(s: State, caller: UserId, id: SwapId, accepted: bool, now: int)
    requires id in s.requests && s.requests[id].status != Pending
    ensures var r := RespondToSwap(s, caller, id, accepted, now);
      && r.result.Err?
      && r.state == s
      && r.result.reason in {RelatedEventsNotFound, NotAuthorizedToRespond, AlreadyProcessed}
  {
    ResponseChecksInOrder(s, caller, id, accepted, now);
  }

  /** Rejecting closes the request as REJECTED, turns each of its two events
      that is SWAP_PENDING back into SWAPPABLE, leaves an event in another
      status and both owners as they were, and touches nothing else. */
  lemma RejectEffect(s: State, caller: UserId, id: SwapId, now: int)
    requires ResponseAdmissible(s, caller, id)
    ensures var r := RespondToSwap(s, caller, id, false, now);
      var req := s.requests[id]; var o := req.offered; var q := req.requested;
      && r.result == Ok(req.(status := Rejected, updatedAt := now))
      && r.state.requests == s.requests[id := req.(status := Rejected, updatedAt := now)]
      && r.state.events.Keys == s.events.Keys
      && (forall e | e in {o, q} ::
            && r.state.events[e].owner == s.events[e].owner
            && r.state.events[e].status == (if s.events[e].status == SwapPending then Swappable else s.events[e].status)
            && r.state.events[e] == s.events[e].(status := r.state.events[e].status))
      && (forall e | e in s.events && e != o && e != q :: r.state.events[e] == s.events[e])
  {
    ResponseChecksInOrder(s, caller, id, false, now);
  }

  /** Accepting closes the request as ACCEPTED, exchanges the owners of its
      two events and makes both BUSY, and touches no other event and no other
      request: competing requests on the same events stay as they were. */
  lemma AcceptEffect(s: State, caller: UserId, id: SwapId, now: int)
    requires Valid(s)
    requires ResponseAdmissible(s, caller, id)
    ensures var r := RespondToSwap(s, caller, id, true, now);
      var req := s.requests[id]; var o := req.offered; var q := req.requested;
      && r.result == Ok(req.(status := Accepted, updatedAt := now))
      && r.state.requests == s.requests[id := req.(status := Accepted, updatedAt := now)]
      && r.state.events.Keys == s.events.Keys
      && r.state.events[o] == s.events[o].(owner := s.events[q].owner, status := Busy)
      && r.state.events[q] == s.events[q].(owner := s.events[o].owner, status := Busy)
      && (forall e | e in s.events && e != o && e != q :: r.state.events[e] == s.events[e])
  {
    ResponseChecksInOrder(s, caller, id, true, now);
  }

  /** Once the responder has accepted, answering the same request again is
      refused as Forbidden, because the requested event now belongs to the
      former owner of the offered one; only if that was the responder too is
      the refusal the BadRequest for an already processed request. */
  lemma RespondAgainAfterAccept(s: State, caller: UserId, id: SwapId, now: int, accepted2: bool, now2: int)
    requires Valid(s)
    requires ResponseAdmissible(s, caller, id)
    ensures var t := RespondToSwap(s, caller, id, true, now).state;
      var o := s.requests[id].offered;
      RespondToSwap(t, caller, id, accepted2, now2).result ==
        if s.events[o].owner != caller then Err(NotAuthorizedToRespond) else Err(AlreadyProcessed)
  {
    var t := RespondToSwap(s, caller, id, true, now).state;
    AcceptEffect(s, caller, id, now);
    ResponseChecksInOrder(t, caller, id, accepted2, now2);
  }

  // ---------------------------------------------------------------------------
  // The listings

  /** list_swappable_slots: other users' SWAPPABLE events, by start ascending. */
  ghost function SwappableSlots(es: map<EventId, Event>, caller: UserId): (r: seq<EventId>)
    ensures forall id :: id in r <==> id in es && es[id].status == Swappable && es[id].owner != caller
    ensures Ordering.Distinct(r)
    ensures forall i | 0 <= i < |r| :: r[i] in es
    ensures forall i, j | 0 <= i < j < |r| :: es[r[i]].start <= es[r[j]].start
  {
    Ordering.SortedKeys(map id | id in es && es[id].status == Swappable && es[id].owner != caller
                                 :: es[id].start)
  }

  /** The inner joins of the request listings: both events of the request
      still exist. */
  predicate Joined(s: State, req: SwapRequest)
  {
    req.offered in s.events && req.requested in s.events
  }

  /** A row of list_incoming_requests for `caller`. */
  predicate IsIncoming(s: State, caller: UserId, id: SwapId)
  {
    && id in s.requests
    && s.requests[id].status == Pending
    && Joined(s, s.requests[id])
    && s.events[s.requests[id].requested].owner == caller
  }

  /** A row of list_outgoing_requests for `caller`, whatever its status. */
  predicate IsOutgoing(s: State, caller: UserId, id: SwapId)
  {
    id in s.requests && s.requests[id].requester == caller && Joined(s, s.requests[id])
  }

  /** list_incoming_requests: newest first. */
  ghost function IncomingRequests(s: State, caller: UserId): (r: seq<SwapId>)
    ensures forall id :: id in r <==> IsIncoming(s, caller, id)
    ensures Ordering.Distinct(r)
    ensures forall i | 0 <= i < |r| :: r[i] in s.requests
    ensures forall i, j | 0 <= i < j < |r| :: s.requests[r[i]].createdAt >= s.requests[r[j]].createdAt
  {
    Ordering.SortedKeys(map id | id in s.requests && IsIncoming(s, caller, id) :: -s.requests[id].createdAt)
  }

  /** list_outgoing_requests: newest first. */
  ghost function OutgoingRequests(s: State, caller: UserId): (r: seq<SwapId>)
    ensures forall id :: id in r <==> IsOutgoing(s, caller, id)
    ensures Ordering.Distinct(r)
    ensures forall i | 0 <= i < |r| :: r[i] in s.requests
    ensures forall i, j | 0 <= i < j < |r| :: s.requests[r[i]].createdAt >= s.requests[r[j]].createdAt
  {
    Ordering.SortedKeys(map id | id in s.requests && IsOutgoing(s, caller, id) :: -s.requests[id].createdAt)
  }

  /** A new proposal shows up as incoming for the owner of the requested
      event and as outgoing for the requester, and neither of its events is
      offered as swappable to anyone any more. */
  lemma ProposalIsListed(s: State, caller: UserId, my: EventId, their: EventId, now: int, viewer: UserId)
    requires Valid(s)
    requires ProposeSwap(s, caller, my, their, now).result.Ok?
    ensures var r := ProposeSwap(s, caller, my, their, now);
      && r.result.value in IncomingRequests(r.state, s.events[their].owner)
      && r.result.value in OutgoingRequests(r.state, caller)
      && my !in SwappableSlots(r.state.events, viewer)
      && their !in SwappableSlots(r.state.events, viewer)
  {
    var r := ProposeSwap(s, caller, my, their, now);
    ProposeSwapEffect(s, caller, my, their, now);
    assert IsIncoming(r.state, s.events[their].owner, r.result.value);
    assert IsOutgoing(r.state, caller, r.result.value);
  }

  /** Once answered, a request leaves every incoming list but stays in its
      requester's outgoing list. */
  lemma AnsweredRequestLeavesIncoming(s: State, caller: UserId, id: SwapId, accepted: bool, now: int, viewer: UserId)
    requires Valid(s)
    requires ResponseAdmissible(s, caller, id)
    ensures var t := RespondToSwap(s, caller, id, accepted, now).state;
      && id !in IncomingRequests(t, viewer)
      && id in OutgoingRequests(t, s.requests[id].requester)
  {
    var t := RespondToSwap(s, caller, id, accepted, now).state;
    if accepted { AcceptEffect(s, caller, id, now); } else { RejectEffect(s, caller, id, now); }
    assert IsOutgoing(t, s.requests[id].requester, id);
  }
}
