# Slot swapper: swap negotiation and event store, in Dafny

Slot swapper is a calendar service. Users own events (time slots), each
BUSY, SWAPPABLE or SWAP_PENDING. A user can offer one of their SWAPPABLE
events in exchange for another user's SWAPPABLE event. The offer becomes a
PENDING swap request, and both events are locked as SWAP_PENDING. The owner
of the requested event then accepts or rejects it:

- accepting exchanges the owners of the two events and makes both BUSY;
- rejecting puts whichever of the two is still SWAP_PENDING back to
  SWAPPABLE.

Around this sit:

- owner-scoped event endpoints: create, list, get, update and delete;
- three listings: other users' swappable slots, the caller's incoming
  PENDING requests, and the caller's outgoing requests.

This project models those endpoints over the store they read and write.
The store is two finite maps, events by id and swap requests by id, plus two
counters that stand for the supply of fresh uuids (`Domain.State`). Every
endpoint takes the caller's user id as a parameter. It returns a value or a
refusal (`Domain.Reason`), and each refusal maps to 404, 403 or 400 through
`Domain.Kind` and `Domain.StatusCode`.

The model has three layers:

- **Specification functions.** `EventRoutes` and `SwapRoutes` give each
  endpoint as a function from the state to a `Step`: the result paired with
  the state after the commit. A refused call leaves the state as it was. The
  guards of `request_swap` and `respond_to_swap` are constant lists evaluated
  in order by `Domain.FirstFailing`, so the first failing guard decides the
  error, as the chain of `raise`s does in the routers.
- **Imperative store.** `Store.Database` is a class whose fields are the two
  tables and the two counters. Its methods follow the router bodies: look up
  the rows, check the guards one after another, assign the fields of the
  loaded rows one by one (including the owner exchange through a temporary),
  then commit. Each method is proved to end in exactly the state, and return
  exactly the result, that the specification function gives.
- **Invariants over call sequences.** `Lifecycle` turns every
  state-changing endpoint into an action and proves what holds over any
  sequence of calls:
  - the ledger of requests only grows, and a settled request never changes;
  - owners change only on a response that carries out an acceptance;
  - deleted event ids never come back;
  - a full propose / refuse / accept-or-reject scenario.

The listings are ghost functions that specify their results: exactly the
matching ids, each once, ordered by the column the query sorts on. They are
built on `Ordering.SortedKeys`.

Behaviour of the code worth knowing:

- **Errors.** The guards raise only 404, 403 and 400. The only other error
  in the code is the 500 when `respond_to_swap`'s commit fails, which is
  left out below. The code has no retryable error and no locking. For the owner of the offered event, when the
  requested event belongs to someone else, proposing against a SWAP_PENDING
  event is a 400 "not swappable". Offering one of your own events for
  itself is the 400 "cannot swap with your own slot".
- **Response guards.** `respond_to_swap` checks that the caller owns the
  requested event before it checks that the request is PENDING.
- **Accepting.** Accepting does not reject competing PENDING requests on
  the same events.
- **Rejecting.** Rejecting does not re-check whether another request holds
  an event.
- **Incoming list.** The incoming list keeps only PENDING requests.
- **Editing events.** Events can be edited and given any status whatever
  swap requests refer to them, and the delete endpoint does not check for
  swap requests.

## Model

| member | source | states |
|---|---|---|
| Domain.FirstFailing | slota_swapper/routers/swaps.py:65-83 | The refusal reported by a chain of guards is the first failing guard in their order, and there is none exactly when every guard passes |
| Ordering.SortedKeys | slota_swapper/routers/swaps.py:38 | An ORDER BY on an integer column yields every selected id exactly once, with the column non-decreasing along the list |
| EventRoutes.CreateEvent | slota_swapper/routers/events.py:24-33 | Creating an event always succeeds, keeps the store valid, and leaves every swap request untouched |
| EventRoutes.CreateEventAddsOne | slota_swapper/routers/events.py:24-33 | The new event has a fresh id, the caller as owner, status BUSY, and the title and times as given, with no start/end check; every existing event and request is unchanged |
| EventRoutes.CreatedEventIsOwnedByCaller | slota_swapper/routers/events.py:24-55 | A created event is found by get and list for its creator, and is NotFound for, and absent from the list of, every other user |
| EventRoutes.ListEvents | slota_swapper/routers/events.py:42 | list_events returns exactly the caller's events, each once, by start time ascending |
| EventRoutes.GetEvent | slota_swapper/routers/events.py:52-55 | get_event returns the stored event only if the caller owns it; another user's event is NotFound, not Forbidden |
| EventRoutes.GetAgreesWithList | slota_swapper/routers/events.py:42-54 | get_event succeeds exactly on the ids list_events shows, and otherwise reports NotFound |
| EventRoutes.UpdateEvent | slota_swapper/routers/events.py:65-81 | update_event keeps the store valid, never touches the swap requests or the counter, and a refused update writes nothing |
| EventRoutes.UpdateEventEffect | slota_swapper/routers/events.py:65-76 | update_event succeeds exactly on the caller's own event; it writes each supplied field, keeps each omitted field and the owner, and changes no other event or request |
| EventRoutes.UpdateEventIdempotent | slota_swapper/routers/events.py:69-76 | Sending the same update twice has the same result and final state as sending it once |
| EventRoutes.EventEndpointsIgnoreSwapRequests | slota_swapper/routers/events.py:58-95 | update_event and delete_event give the same result and the same events whatever swap requests exist, so any status can be set while a request is PENDING |
| EventRoutes.DeleteEvent | slota_swapper/routers/events.py:90-94 | delete_event keeps the store valid, never touches the swap requests or the counter, and a refused delete writes nothing |
| EventRoutes.DeleteEventEffect | slota_swapper/routers/events.py:90-94 | delete_event succeeds exactly on the caller's own event; it removes that one event only, keeps every request including those referring to it, and the event is NotFound afterwards |
| SwapRoutes.ProposalError | slota_swapper/routers/swaps.py:65-83 | The proposal refusal is the first of the six guards that fails, in source order; there is none exactly when the proposal is admissible, and then the two ids differ |
| SwapRoutes.ProposeSwap | slota_swapper/routers/swaps.py:59-98 | request_swap keeps the store valid and leaves the event ids and event counter alone; a refused proposal writes nothing |
| SwapRoutes.ProposalChecksInOrder | slota_swapper/routers/swaps.py:65-83 | Each guard, when it is the first to fail, decides the error: offered missing, requested missing, offered not the caller's, requested the caller's, offered not SWAPPABLE, requested not SWAPPABLE; success exactly when all pass |
| SwapRoutes.ProposeSwapEffect | slota_swapper/routers/swaps.py:85-98 | A successful proposal adds exactly one PENDING request for the caller under a fresh id, between two distinct events, sets both events SWAP_PENDING with owner, title and times kept, and changes nothing else |
| SwapRoutes.PendingEventBlocksProposal | slota_swapper/routers/swaps.py:79-83 | When both events exist and either is SWAP_PENDING, the proposal is refused without a write, never as NotFound, and as BadRequest for the owner of the offered event |
| SwapRoutes.ProposalStatusCodes | slota_swapper/routers/swaps.py:65-83 | A refused proposal answers 404 while either event is missing, then 403 when the caller does not own the offered event, and 400 otherwise |
| SwapRoutes.ProposalLocksBothEvents | slota_swapper/routers/swaps.py:79-93 | After a successful proposal every further proposal using either of its events is refused without a write, with BadRequest once both events exist and the caller owns the offered one |
| SwapRoutes.ResponseError | slota_swapper/routers/swaps.py:195-208 | The response refusal is the first of the four guards that fails, in source order; there is none exactly when the response is admissible |
| SwapRoutes.Released | slota_swapper/routers/swaps.py:214-217 | Releasing an event turns SWAP_PENDING into SWAPPABLE and leaves an event in any other status exactly as it was; owner, title and times are kept |
| SwapRoutes.RespondToSwap | slota_swapper/routers/swaps.py:188-235 | respond_to_swap keeps the store valid; a refusal writes nothing; a success answers a request that was PENDING, replaces only that request, and sets it ACCEPTED or REJECTED as asked |
| SwapRoutes.ResponseChecksInOrder | slota_swapper/routers/swaps.py:195-208 | Each guard, when it is the first to fail, decides the error: request missing, either event missing, caller not the owner of the requested event, request not PENDING; success exactly when all pass |
| SwapRoutes.ResponseStatusCodes | slota_swapper/routers/swaps.py:195-208 | A refused response answers 404 while the request or either of its events is missing, then 403 when the caller does not own the requested event, and 400 otherwise |
| SwapRoutes.SettledRequestIsFinal | slota_swapper/routers/swaps.py:199-208 | Every response to an ACCEPTED or REJECTED request is refused and changes nothing |
| SwapRoutes.RejectEffect | slota_swapper/routers/swaps.py:211-217 | Rejecting marks the request REJECTED, turns each of the two events that is SWAP_PENDING back to SWAPPABLE, keeps any other status and both owners, and changes nothing else |
| SwapRoutes.AcceptEffect | slota_swapper/routers/swaps.py:218-231 | Accepting marks the request ACCEPTED, exchanges the two owners, makes both events BUSY, and changes no other event and no other request |
| SwapRoutes.RespondAgainAfterAccept | slota_swapper/routers/swaps.py:204-226 | Answering an accepted request again is Forbidden, because the responder no longer owns the requested event, unless the responder also owned the offered one; then it is the BadRequest for an already processed request |
| SwapRoutes.SwappableSlots | slota_swapper/routers/swaps.py:33-39 | The swappable slots are exactly the SWAPPABLE events not owned by the caller, each once, by start time ascending |
| SwapRoutes.IncomingRequests | slota_swapper/routers/swaps.py:123-131 | The incoming requests are exactly the PENDING requests whose requested event the caller owns and whose two events exist, each once, newest first |
| SwapRoutes.OutgoingRequests | slota_swapper/routers/swaps.py:160-167 | The outgoing requests are exactly the caller's requests in any status whose two events exist, each once, newest first |
| SwapRoutes.ProposalIsListed | slota_swapper/routers/swaps.py:92-131 | A new proposal is incoming for the owner of the requested event and outgoing for the requester, and neither of its events is swappable for anyone |
| SwapRoutes.AnsweredRequestLeavesIncoming | slota_swapper/routers/swaps.py:123-167 | An answered request is in nobody's incoming list, and stays in its requester's outgoing list |
| Lifecycle.Apply | slota_swapper/routers/swaps.py:59-235 | Every state-changing endpoint, successful or refused, keeps the store valid |
| Lifecycle.ApplyEvolves | slota_swapper/routers/swaps.py:85-231 | One call removes no request, never changes a request's requester, events or creation time, and leaves a settled request as it was |
| Lifecycle.RunEvolves | slota_swapper/routers/swaps.py:207-208 | The same holds over any sequence of calls: the ledger only grows and a settled request stays exactly as settled |
| Lifecycle.CreateKeepsOwners | slota_swapper/routers/events.py:24-33 | Creating an event changes no existing event's owner |
| Lifecycle.UpdateKeepsOwners | slota_swapper/routers/events.py:69-76 | Updating an event changes no owner |
| Lifecycle.DeleteKeepsOwners | slota_swapper/routers/events.py:93-94 | Deleting an event changes no surviving event's owner |
| Lifecycle.ProposeKeepsOwners | slota_swapper/routers/swaps.py:92-93 | Proposing a swap changes no owner |
| Lifecycle.RespondKeepsOwners | slota_swapper/routers/swaps.py:195-217 | A rejection, or any refused response whether it asked to accept or reject, changes no owner |
| Lifecycle.OwnersChangeOnlyOnAccept | slota_swapper/routers/swaps.py:218-223 | Any call other than a response that carries out an acceptance leaves every surviving event's owner unchanged |
| Lifecycle.OwnersStableWithoutAccept | slota_swapper/routers/swaps.py:218-223 | Over any sequence of calls in which no acceptance is carried out, every event that survives keeps its owner |
| Lifecycle.ApplyEventIds | slota_swapper/models/event.py:21 | One call never lowers the event id supply and brings in new events only under ids not handed out before |
| Lifecycle.CreatedIdsAreFresh | slota_swapper/models/event.py:21 | An event id handed out and no longer in use stays unused over any sequence of calls |
| Lifecycle.NegotiationScenario | slota_swapper/routers/swaps.py:59-226 | Proposing between two users' SWAPPABLE events locks both; a third user's proposal for the same event is refused as not swappable; accepting exchanges the owners and makes both BUSY; rejecting instead restores both to SWAPPABLE with owners kept |
| Store.Database.CreateEvent | slota_swapper/routers/events.py:18-34 | The method inserts the row and ends in exactly the state, with exactly the id, that create_event's specification gives, keeping the store valid |
| Store.Database.UpdateEvent | slota_swapper/routers/events.py:58-81 | Writing the supplied fields one by one ends in exactly the result and state of the update specification, keeping the store valid |
| Store.Database.DeleteEvent | slota_swapper/routers/events.py:84-95 | The method ends in exactly the result and state of the delete specification, keeping the store valid |
| Store.Database.RequestSwap | slota_swapper/routers/swaps.py:59-98 | The six guards in order, then the new request and the two status writes, end in exactly the result and state of ProposeSwap, keeping the store valid |
| Store.Database.RespondToSwap | slota_swapper/routers/swaps.py:188-235 | The four guards in order, then the release or the owner exchange and the request update, end in exactly the result and state of the response specification, keeping the store valid |
| Store.Database.Release | slota_swapper/routers/swaps.py:214-217 | The two conditional reverts leave the events as the rejection specification describes and change nothing else |
| Store.Database.Exchange | slota_swapper/routers/swaps.py:221-226 | The owner exchange through a temporary, then both BUSY, leaves the events as the acceptance specification describes and changes nothing else |

## Left out

- Authentication: the caller's id is a parameter. Token decoding, password
  hashing and the lookup of the current user are not part of this model.
- HTTP, routing, the ORM session and the construction of response bodies
  (the nested event and user details, the requester's and owner's names)
  are left out. The listings return ids in order, not rows.
- The users table: the joins with it in the listings are taken to always
  succeed, because every requester and owner is taken to exist.
- Commit failure: `respond_to_swap` rolls back and answers 500 when the
  commit raises, and any commit can fail in the database. Every commit
  succeeds in the model, and a refused call is all-or-nothing.
- The database's foreign keys: swap requests reference events without an
  ON DELETE rule, so deleting an event a request still refers to fails at
  commit in the database. The endpoint code does not check this, and the
  model lets the delete go through. The inner joins in the request listings
  are still modelled, so such requests would not be listed.
- Concurrency: there are no locks and no version checks in the code, and
  the model has no interleaving. Every call runs alone.
- Uuids are drawn from counters. Datetimes are integers, used only for
  ordering. The current time is a parameter `now`: it sets the creation and
  update times of a new request and the update time of an answered one,
  which the database sets through its column defaults.
- EventRoutes.ListEvents: the order among events with equal start times is
  left open, as the database leaves it.
- SwapRoutes.SwappableSlots: the order among equal start times is left open.
- SwapRoutes.IncomingRequests: the order among equal creation times is left
  open.
- SwapRoutes.OutgoingRequests: the order among equal creation times is left
  open.
- The listings are ghost functions: they specify their result rather than
  compute it.
- Input validation by the request schemas (types and required fields) is
  taken as given. The status written by an update is any of the three
  event statuses.
