/** Entities shared by the event and swap routers: the two kinds of record the
    database holds, the reasons an endpoint refuses a call, and the state of
    the store as two maps keyed by id. */
module Domain {

  type UserId = nat
  type EventId = nat
  type SwapId = nat

  datatype Option<T> = None | Some(value: T)

  /** The three statuses an event can be in (EventStatusEnum). */
  datatype EventStatus = Busy | Swappable | SwapPending

  /** The three statuses a swap request can be in (SwapRequestStatusEnum). */
  datatype SwapStatus = Pending | Accepted | Rejected

  /** A row of the events table; times are instants, used only for ordering. */
  datatype Event = Event(owner: UserId, title: string, start: int, end: int, status: EventStatus)

  /** A row of the swap_requests table. */
  datatype SwapRequest = SwapRequest(
    requester: UserId,
    offered: EventId,
    requested: EventId,
    status: SwapStatus,
    createdAt: int,
    updatedAt: int)

  /** The HTTP error classes the routers raise. */
  datatype ErrorKind = NotFound | Forbidden | BadRequest

  /** One constructor per distinct refusal (the `detail` of each HTTPException). */
  datatype Reason =
    // request_swap
    | MySlotNotFound
    | TheirSlotNotFound
    | NotOwnerOfOfferedSlot
    | CannotSwapOwnSlot
    | MySlotNotSwappable
    | TheirSlotNotSwappable
    // respond_to_swap
    | SwapRequestNotFound
    | RelatedEventsNotFound
    | NotAuthorizedToRespond
    | AlreadyProcessed
    // get_event, update_event, delete_event
    | EventNotFound

  function Kind(r: Reason): ErrorKind
  {
    match r
    case MySlotNotFound | TheirSlotNotFound | SwapRequestNotFound
      | RelatedEventsNotFound | EventNotFound => NotFound
    case NotOwnerOfOfferedSlot | NotAuthorizedToRespond => Forbidden
    case CannotSwapOwnSlot | MySlotNotSwappable | TheirSlotNotSwappable
      | AlreadyProcessed => BadRequest
  }

  function StatusCode(k: ErrorKind): (code: int)
    ensures 400 <= code < 500
  {
    match k
    case NotFound => 404
    case Forbidden => 403
    case BadRequest => 400
  }

  datatype Result<T> = Ok(value: T) | Err(reason: Reason)

  /** Everything the endpoints read and write. The two counters stand for the
      supply of fresh uuids: every id handed out so far is below its counter. */
  datatype State = State(
    events: map<EventId, Event>,
    requests: map<SwapId, SwapRequest>,
    nextEventId: nat,
    nextSwapId: nat)

  /** What an endpoint returns, together with the state after its commit. */
  datatype Step<T> = Step(result: Result<T>, state: State)

  /** The invariant every endpoint keeps: ids below the counters are the only
      ones in use, and no swap request pairs an event with itself. */
  predicate Valid(s: State)
  {
    && (forall id | id in s.events :: id < s.nextEventId)
    && (forall id | id in s.requests :: id < s.nextSwapId)
    && (forall id | id in s.requests :: s.requests[id].offered != s.requests[id].requested)
  }

  /** The first of `checks`, in order, that `violates` holds of; None when
      every check passes. This is how a router's sequence of guards, each
      raising on failure, decides which error the caller sees. */
  function FirstFailing(checks: seq<Reason>, violates: Reason -> bool): (r: Option<Reason>)
    ensures r.None? <==> forall i | 0 <= i < |checks| :: !violates(checks[i])
    ensures forall i | 0 <= i < |checks| ::
              violates(checks[i]) && (forall j | 0 <= j < i :: !violates(checks[j]))
              ==> r == Some(checks[i])
  {
    if checks == [] then None
    else if violates(checks[0]) then Some(checks[0])
    else
      var rest := FirstFailing(checks[1..], violates);
      assert forall i | 1 <= i < |checks| :: checks[1..][i - 1] == checks[i];
      rest
  }
}
