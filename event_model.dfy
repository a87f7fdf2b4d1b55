/**
 * The persisted event record, the ingestion request and the time base.
 *
 * Instants are integer nanoseconds since the epoch: Java's `Instant` is a
 * (seconds, nanos) pair with nanos in [0, 1e9), which denotes exactly one
 * such integer, and `isAfter`/`isBefore` are then `>`/`<`.
 */
module EventModel {
  import opened Wrappers

  type Instant = int

  const NanosPerSecond: int := 1_000_000_000

  /** `Instant.plusSeconds`. */
  function PlusSeconds(t: Instant, seconds: int): Instant
  {
    t + seconds * NanosPerSecond
  }

  /** One element of an ingestion batch (the request DTO). */
  datatype EventRequest = EventRequest(
    eventId: string,
    machineId: string,
    eventTime: Instant,
    receivedTime: Option<Instant>,
    durationMs: int,
    defectCount: int,
    factoryId: Option<string>,
    lineId: Option<string>)

  /**
   * The content fingerprint: the seven semantic fields of an event and
   * nothing else. The source renders them into one "|"-joined string; here
   * they are kept as a tuple (see PayloadText for the string form).
   */
  datatype Fingerprint = Fingerprint(
    eventId: string,
    machineId: string,
    eventTime: Instant,
    durationMs: int,
    defectCount: int,
    factoryId: Option<string>,
    lineId: Option<string>)

  /** The stored event record, keyed by `eventId`. */
  datatype EventEntity = EventEntity(
    eventId: string,
    machineId: string,
    eventTime: Instant,
    receivedTime: Instant,
    durationMs: int,
    defectCount: int,
    payloadHash: Fingerprint,
    factoryId: Option<string>,
    lineId: Option<string>)

  /** The fingerprint of the semantic content a stored record actually holds. */
  function ContentOf(e: EventEntity): Fingerprint
  {
    Fingerprint(e.eventId, e.machineId, e.eventTime, e.durationMs, e.defectCount, e.factoryId, e.lineId)
  }

  /** The event store: one record per id. */
  type Store = map<string, EventEntity>

  /** Every record is stored under its own id (what a keyed repository guarantees). */
  ghost predicate KeyedById(store: Store)
  {
    forall id :: id in store ==> store[id].eventId == id
  }

  /** Every record's stored fingerprint is the fingerprint of the content it holds. */
  ghost predicate HashesMatchContent(store: Store)
  {
    forall id :: id in store ==> store[id].payloadHash == ContentOf(store[id])
  }
}
