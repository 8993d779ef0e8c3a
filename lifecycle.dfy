/** Every state-changing endpoint as one action on the store, and what holds
    over any sequence of calls to them. */
module Lifecycle {
  import opened Domain
  import EventRoutes
  import SwapRoutes

  datatype Action =
    | Create(caller: UserId, title: string, start: int, end: int)
    | Update(caller: UserId, event: EventId, patch: EventRoutes.EventPatch)
    | Delete(caller: UserId, event: EventId)
    | Propose(caller: UserId, mySlot: EventId, theirSlot: EventId, now: int)
    | Respond(caller: UserId, request: SwapId, accepted: bool, now: int)

  /** The state after one call, whether it succeeded or was refused. */
  function Apply(s: State, a: Action): (t: State)
    ensures Valid(s) ==> Valid(t)
  {
    match a
    case Create(caller, title, start, end) => EventRoutes.CreateEvent(s, caller, title, start, end).state
    case Update(caller, event, patch) => EventRoutes.UpdateEvent(s, caller, event, patch).state
    case Delete(caller, event) => EventRoutes.DeleteEvent(s, caller, event).state
    case Propose(caller, mySlot, theirSlot, now) => SwapRoutes.ProposeSwap(s, caller, mySlot, theirSlot, now).state
    case Respond(caller, request, accepted, now) => SwapRoutes.RespondToSwap(s, caller, request, accepted, now).state
  }

  /** The state after a sequence of calls, one after another. */
  function Run(s: State, actions: seq<Action>): (t: State)
    ensures Valid(s) ==> Valid(t)
    decreases |actions|
  {
    if actions == [] then s else Run(Apply(s, actions[0]), actions[1..])
  }

  /** How the swap request ledger may change from `s` to `t`: no request
      disappears, none changes its requester, events or creation time, and an
      ACCEPTED or REJECTED request does not change at all. */
  ghost predicate LedgerEvolves(s: State, t: State)
  {
    forall id | id in s.requests ::
      && id in t.requests
      && t.requests[id].requester == s.requests[id].requester
      && t.requests[id].offered == s.requests[id].offered
      && t.requests[id].requested == s.requests[id].requested
      && t.requests[id].createdAt == s.requests[id].createdAt
      && (s.requests[id].status != Pending ==> t.requests[id] == s.requests[id])
  }

  /** A new request under an unused id keeps the ledger evolving. */
  lemma AddingEvolves(s: State, t: State, id: SwapId, req: SwapRequest)
    requires id !in s.requests
    requires t.requests == s.requests[id := req]
    ensures LedgerEvolves(s, t)
  {
  }

  /** Closing a PENDING request, with its parties, events and creation time
      kept, keeps the ledger evolving. */
  lemma ClosingEvolves(s: State, t: State, id: SwapId, req: SwapRequest)
    requires id in s.requests && s.requests[id].status == Pending
    requires req.requester == s.requests[id].requester && req.offered == s.requests[id].offered
    requires req.requested == s.requests[id].requested && req.createdAt == s.requests[id].createdAt
    requires t.requests == s.requests[id := req]
    ensures LedgerEvolves(s, t)
  {
  }

  lemma ApplyEvolves(s: State, a: Action)
    requires Valid(s)
    ensures LedgerEvolves(s, Apply(s, a))
  {
    match a
    case Create(caller, title, start, end) =>
    case Update(caller, event, patch) =>
    case Delete(caller, event) =>
    case Propose(caller, mySlot, theirSlot, now) =>
      var r := SwapRoutes.ProposeSwap(s, caller, mySlot, theirSlot, now);
      if r.result.Ok? {
        SwapRoutes.ProposeSwapEffect(s, caller, mySlot, theirSlot, now);
        AddingEvolves(s, r.state, r.result.value, r.state.requests[r.result.value]);
      }
    case Respond(caller, request, accepted, now) =>
      var r := SwapRoutes.RespondToSwap(s, caller, request, accepted, now);
      if r.result.Ok? {
        SwapRoutes.ResponseChecksInOrder(s, caller, request, accepted, now);
        if accepted {
          SwapRoutes.AcceptEffect(s, caller, request, now);
        } else {
          SwapRoutes.RejectEffect(s, caller, request, now);
        }
        ClosingEvolves(s, r.state, request, r.result.value);
      }
  }

  /** Over any sequence of calls the ledger only grows, and a request once
      settled stays exactly as it was settled. */
  lemma {:induction false} RunEvolves(s: State, actions: seq<Action>)
    requires Valid(s)
    ensures LedgerEvolves(s, Run(s, actions))
    decreases |actions|
  {
    if actions != [] {
      var s1 := Apply(s, actions[0]);
      ApplyEvolves(s, actions[0]);
      RunEvolves(s1, actions[1..]);
    }
  }

  /** Every event of `s` still present in `t` has the same owner in both. */
  ghost predicate OwnersKept(s: State, t: State)
  {
    forall e | e in s.events && e in t.events :: t.events[e].owner == s.events[e].owner
  }

  lemma CreateKeepsOwners(s: State, caller: UserId, title: string, start: int, end: int)
    requires Valid(s)
    ensures OwnersKept(s, EventRoutes.CreateEvent(s, caller, title, start, end).state)
  {
    EventRoutes.CreateEventAddsOne(s, caller, title, start, end);
  }

  lemma UpdateKeepsOwners(s: State, caller: UserId, event: EventId, patch: EventRoutes.EventPatch)
    ensures OwnersKept(s, EventRoutes.UpdateEvent(s, caller, event, patch).state)
  {
    EventRoutes.UpdateEventEffect(s, caller, event, patch);
  }

  lemma DeleteKeepsOwners(s: State, caller: UserId, event: EventId)
    ensures OwnersKept(s, EventRoutes.DeleteEvent(s, caller, event).state)
  {
    EventRoutes.DeleteEventEffect(s, caller, event);
  }

  lemma ProposeKeepsOwners(s: State, caller: UserId, my: EventId, their: EventId, now: int)
    requires Valid(s)
    ensures OwnersKept(s, SwapRoutes.ProposeSwap(s, caller, my, their, now).state)
  {
    if SwapRoutes.ProposeSwap(s, caller, my, their, now).result.Ok? {
      SwapRoutes.ProposeSwapEffect(s, caller, my, their, now);
    }
  }

  /** A rejection, or a response that is refused, changes no owner. */
  lemma RespondKeepsOwners(s: State, caller: UserId, id: SwapId, accepted: bool, now: int)
    requires !accepted || !SwapRoutes.ResponseAdmissible(s, caller, id)
    ensures OwnersKept(s, SwapRoutes.RespondToSwap(s, caller, id, accepted, now).state)
  {
    if SwapRoutes.ResponseAdmissible(s, caller, id) {
      SwapRoutes.RejectEffect(s, caller, id, now);
    } else {
      SwapRoutes.ResponseChecksInOrder(s, caller, id, accepted, now);
    }
  }

  /** Whether `a`, applied to `s`, is a response that carries out an
      acceptance. */
  predicate AcceptsSwap(s: State, a: Action)
  {
    a.Respond? && a.accepted && SwapRoutes.ResponseAdmissible(s, a.caller, a.request)
  }

  /** Event owners change only when a response successfully accepts a swap. */
  lemma OwnersChangeOnlyOnAccept(s: State, a: Action)
    requires Valid(s)
    requires !AcceptsSwap(s, a)
    ensures OwnersKept(s, Apply(s, a))
  {
    match a
    case Create(caller, title, start, end) => CreateKeepsOwners(s, caller, title, start, end);
    case Update(caller, event, patch) => UpdateKeepsOwners(s, caller, event, patch);
    case Delete(caller, event) => DeleteKeepsOwners(s, caller, event);
    case Propose(caller, mySlot, theirSlot, now) => ProposeKeepsOwners(s, caller, mySlot, theirSlot, now);
    case Respond(caller, request, accepted, now) => RespondKeepsOwners(s, caller, request, accepted, now);
  }

  /** No call of `actions`, run one after another from `s`, carries out an
      acceptance. */
  ghost predicate NoAcceptAlong(s: State, actions: seq<Action>)
    decreases |actions|
  {
    actions == [] || (!AcceptsSwap(s, actions[0]) && NoAcceptAlong(Apply(s, actions[0]), actions[1..]))
  }

  /** Over any sequence of calls in which no acceptance is carried out, every
      event that survives keeps its owner. */
  lemma {:induction false} OwnersStableWithoutAccept(s: State, actions: seq<Action>)
    requires Valid(s)
    requires NoAcceptAlong(s, actions)
    ensures OwnersKept(s, Run(s, actions))
    decreases |actions|
  {
    if actions != [] {
      var s1 := Apply(s, actions[0]);
      OwnersChangeOnlyOnAccept(s, actions[0]);
      OwnersStableWithoutAccept(s1, actions[1..]);
      var t := Run(s, actions);
      assert t == Run(s1, actions[1..]);
      forall e | e in s.events && e in t.events
        ensures t.events[e].owner == s.events[e].owner
      {
        assert OwnersKept(s, s1) && OwnersKept(s1, t);
        // An event absent after the first call cannot come back under the
        // same id: later creations use ids at or above the counter.
        assert e in s1.events by {
          if e !in s1.events {
            CreatedIdsAreFresh(s1, actions[1..], e);
          }
        }
      }
    }
  }

  /** One call never lowers the event counter and only brings in events
      under ids at or above it. */
  lemma ApplyEventIds(s: State, a: Action)
    ensures s.nextEventId <= Apply(s, a).nextEventId
    ensures forall e | e in Apply(s, a).events :: e in s.events || s.nextEventId <= e
  {
    match a
    case Create(caller, title, start, end) =>
    case Update(caller, event, patch) =>
    case Delete(caller, event) =>
    case Propose(caller, mySlot, theirSlot, now) =>
    case Respond(caller, request, accepted, now) =>
  }

  /** An event id that was handed out and is no longer in use is never used
      again: deleted events do not come back. */
  lemma {:induction false} CreatedIdsAreFresh(s: State, actions: seq<Action>, e: EventId)
    requires e !in s.events && e < s.nextEventId
    ensures e !in Run(s, actions).events
    decreases |actions|
  {
    if actions != [] {
      var s1 := Apply(s, actions[0]);
      ApplyEventIds(s, actions[0]);
      CreatedIdsAreFresh(s1, actions[1..], e);
    }
  }

  // ---------------------------------------------------------------------------
  // End-to-end scenarios

  /** User `a` offers `e1` for user `b`'s `e2`, both SWAPPABLE. The proposal
      creates a PENDING request and locks both events; a third user offering
      a SWAPPABLE event of their own for `e2` is then refused; `b` accepting
      gives `e1` to `b` and `e2` to `a`, both BUSY; `b` rejecting instead makes
      both SWAPPABLE again with the owners unchanged. */
  lemma NegotiationScenario(
    s: State, a: UserId, b: UserId, c: UserId, e1: EventId, e2: EventId, e3: EventId,
    t1: int, t2: int)
    requires Valid(s)
    requires a != b && c != b
    requires e1 in s.events && s.events[e1].owner == a && s.events[e1].status == Swappable
    requires e2 in s.events && s.events[e2].owner == b && s.events[e2].status == Swappable
    requires e3 in s.events && s.events[e3].owner == c && s.events[e3].status == Swappable
    requires e3 != e1
    ensures var p := SwapRoutes.ProposeSwap(s, a, e1, e2, t1);
      && p.result.Ok?
      && p.state.requests[p.result.value].status == Pending
      && p.state.events[e1].status == SwapPending
      && p.state.events[e2].status == SwapPending
      && SwapRoutes.ProposeSwap(p.state, c, e3, e2, t2).result == Err(TheirSlotNotSwappable)
    ensures var p := SwapRoutes.ProposeSwap(s, a, e1, e2, t1);
      var acc := SwapRoutes.RespondToSwap(p.state, b, p.result.value, true, t2);
      && acc.result.Ok?
      && acc.result.value.status == Accepted
      && acc.state.events[e1].owner == b && acc.state.events[e1].status == Busy
      && acc.state.events[e2].owner == a && acc.state.events[e2].status == Busy
    ensures var p := SwapRoutes.ProposeSwap(s, a, e1, e2, t1);
      var rej := SwapRoutes.RespondToSwap(p.state, b, p.result.value, false, t2);
      && rej.result.Ok?
      && rej.result.value.status == Rejected
      && rej.state.events[e1].owner == a && rej.state.events[e1].status == Swappable
      && rej.state.events[e2].owner == b && rej.state.events[e2].status == Swappable
  {
    SwapRoutes.ProposalChecksInOrder(s, a, e1, e2, t1);
    var p := SwapRoutes.ProposeSwap(s, a, e1, e2, t1);
    var id := p.result.value;
    SwapRoutes.ProposeSwapEffect(s, a, e1, e2, t1);
    SwapRoutes.ProposalChecksInOrder(p.state, c, e3, e2, t2);
    assert SwapRoutes.ResponseAdmissible(p.state, b, id);
    SwapRoutes.AcceptEffect(p.state, b, id, t2);
    SwapRoutes.RejectEffect(p.state, b, id, t2);
  }
}
