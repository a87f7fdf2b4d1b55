/**
 * The pure logic of event ingestion: validation, the content fingerprint,
 * the reconciliation of one request against the store, and a batch run
 * that applies it to every request in turn.
 */
module EventIngest {
  import opened Wrappers
  import opened EventModel

  /** The longest accepted duration: six hours, in milliseconds. */
  const SixHoursMs: int := 6 * 60 * 60 * 1000

  /** How far ahead of "now" an event time may lie, in seconds. */
  const FutureToleranceSeconds: int := 15 * 60

  /** The messages of the `IllegalArgumentException`s validation throws. */
  datatype Reason = InvalidDuration | EventTimeInFuture
  {
    function Code(): string
    {
      match this
      case InvalidDuration => "INVALID_DURATION"
      case EventTimeInFuture => "EVENT_TIME_IN_FUTURE"
    }
  }

  /** The dispositions the service declares; `Rejected` is never produced by reconciliation. */
  datatype IngestResult = Accepted | Updated | Deduped | Ignored | Rejected

  /** `validate`: the duration bound first, then the future-time bound. */
  function Validate(dto: EventRequest, now: Instant): (o: Outcome<Reason>)
    ensures o == Fail(InvalidDuration) <==> dto.durationMs < 0 || dto.durationMs > SixHoursMs
    ensures o == Fail(EventTimeInFuture) <==>
      0 <= dto.durationMs <= SixHoursMs && dto.eventTime > PlusSeconds(now, FutureToleranceSeconds)
    ensures o == Pass <==>
      0 <= dto.durationMs <= SixHoursMs && dto.eventTime <= PlusSeconds(now, FutureToleranceSeconds)
  {
    if dto.durationMs < 0 then Fail(InvalidDuration)
    else if dto.durationMs > SixHoursMs then Fail(InvalidDuration)
    else if dto.eventTime > PlusSeconds(now, FutureToleranceSeconds) then Fail(EventTimeInFuture)
    else Pass
  }

  /** The receivedTime a request is stored with: its own, else the current time. */
  function EffectiveReceivedTime(dto: EventRequest, now: Instant): Instant
  {
    match dto.receivedTime
    case Some(t) => t
    case None => now
  }

  /** `computePayloadHash`: the semantic fields of the request, receivedTime excluded. */
  function ComputePayloadHash(dto: EventRequest): (h: Fingerprint)
  {
    Fingerprint(dto.eventId, dto.machineId, dto.eventTime, dto.durationMs, dto.defectCount, dto.factoryId, dto.lineId)
  }

  /** Two requests carry the same semantic content. */
  predicate SameContent(a: EventRequest, b: EventRequest)
  {
    a.eventId == b.eventId && a.machineId == b.machineId && a.eventTime == b.eventTime &&
    a.durationMs == b.durationMs && a.defectCount == b.defectCount &&
    a.factoryId == b.factoryId && a.lineId == b.lineId
  }

  /** `mapToEntity`: a new record built from the request. */
  function MapToEntity(dto: EventRequest, receivedTime: Instant, payloadHash: Fingerprint): (e: EventEntity)
    ensures ContentOf(e) == ComputePayloadHash(dto)
    ensures e.receivedTime == receivedTime && e.payloadHash == payloadHash
  {
    EventEntity(dto.eventId, dto.machineId, dto.eventTime, receivedTime, dto.durationMs,
                dto.defectCount, payloadHash, dto.factoryId, dto.lineId)
  }

  /** The setter sequence of the UPDATED branch: every field except the id is overwritten. */
  function Overwrite(existing: EventEntity, dto: EventRequest, receivedTime: Instant, payloadHash: Fingerprint): (e: EventEntity)
    ensures e.eventId == existing.eventId
    ensures e == MapToEntity(dto, receivedTime, payloadHash).(eventId := existing.eventId)
  {
    existing.(machineId := dto.machineId, eventTime := dto.eventTime, receivedTime := receivedTime,
              durationMs := dto.durationMs, defectCount := dto.defectCount, payloadHash := payloadHash,
              factoryId := dto.factoryId, lineId := dto.lineId)
  }

  /** What one ingestion decided and the store it left. */
  datatype Reconciled = Reconciled(result: IngestResult, store: Store)

  /**
   * `ingestSingle` on a store value: validate, then decide against the
   * record stored under the same id. A validation failure is the thrown
   * exception, carried as `Failure(reason)`.
   */
  function Reconcile(store: Store, dto: EventRequest, now: Instant): (r: Result<Reconciled, Reason>)
    ensures r.Failure? <==> Validate(dto, now).Fail?
    ensures r.Failure? ==> r.error == Validate(dto, now).error
    ensures r.Success? ==> r.value.result != Rejected
    ensures r.Success? ==> (r.value.result == Accepted <==> dto.eventId !in store)
    // at most the request's own key is written, and no key is removed
    ensures r.Success? ==> r.value.store.Keys == store.Keys + {dto.eventId}
    ensures r.Success? ==> forall id :: id in store && id != dto.eventId ==> r.value.store[id] == store[id]
    ensures r.Success? && (r.value.result == Deduped || r.value.result == Ignored) ==> r.value.store == store
  {
    match Validate(dto, now)
    case Fail(reason) => Failure(reason)
    case Pass =>
      var receivedTime := EffectiveReceivedTime(dto, now);
      var payloadHash := ComputePayloadHash(dto);
      if dto.eventId in store then
        var existing := store[dto.eventId];
        if existing.payloadHash == payloadHash then
          Success(Reconciled(Deduped, store))
        else if receivedTime > existing.receivedTime then
          Success(Reconciled(Updated, store[dto.eventId := Overwrite(existing, dto, receivedTime, payloadHash)]))
        else
          Success(Reconciled(Ignored, store))
      else
        Success(Reconciled(Accepted, store[dto.eventId := MapToEntity(dto, receivedTime, payloadHash)]))
  }

  /** One entry of a batch's rejection list. */
  datatype Rejection = Rejection(eventId: string, reason: Reason)

  /** What happened to one request of a batch. */
  datatype Disposition = Done(result: IngestResult) | Failed(rejection: Rejection)

  /** The store after a batch and the disposition of each of its requests, in order. */
  datatype BatchRun = BatchRun(store: Store, dispositions: seq<Disposition>)

  /** The disposition and the store one request of a batch leaves behind. */
  function Step(store: Store, dto: EventRequest, now: Instant): (s: (Disposition, Store))
    ensures s.0.Failed? <==> Validate(dto, now).Fail?
    ensures s.0.Failed? ==> s.0.rejection == Rejection(dto.eventId, Validate(dto, now).error) && s.1 == store
    ensures s.0.Done? ==> s.0.result != Rejected && s.1.Keys == store.Keys + {dto.eventId}
  {
    match Reconcile(store, dto, now)
    case Failure(reason) => (Failed(Rejection(dto.eventId, reason)), store)
    case Success(rc) => (Done(rc.result), rc.store)
  }

  /**
   * The batch loop on a store value: each request is reconciled against the
   * store the previous ones left, with its own clock reading `clock[k]`; a
   * rejected request writes nothing and the loop goes on.
   */
  function Run(store: Store, events: seq<EventRequest>, clock: seq<Instant>): (r: BatchRun)
    requires |clock| == |events|
    ensures |r.dispositions| == |events|
    decreases |events|
  {
    if |events| == 0 then BatchRun(store, [])
    else
      var n := |events| - 1;
      var prior := Run(store, events[..n], clock[..n]);
      var (d, after) := Step(prior.store, events[n], clock[n]);
      BatchRun(after, prior.dispositions + [d])
  }
}
