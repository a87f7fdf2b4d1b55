# factory_events: event reconciliation and windowed stats, in Dafny

This project models the two pieces of sequential logic of a Spring service
that ingests telemetry events from factory machines into a keyed event store:

- **Ingestion** (`EventIngestService`). Each request of a batch is validated:
  its duration must be 0..6 h inclusive, and its event time no more than
  15 minutes after "now". It is then fingerprinted and reconciled against the
  record stored under the same id. The outcome is ACCEPTED (no record; insert),
  DEDUPED (same fingerprint; no write), UPDATED (different fingerprint and a
  strictly later receivedTime; overwrite in place) or IGNORED (different
  fingerprint, receivedTime not later; no write). The batch loop counts
  dispositions and lists rejections; a rejected request does not stop the batch.
- **Windowed statistics** (`StatsService`). For a machine and a window
  `[start, end)` with `start < end`, the service counts the stored records in
  the window and sums their defect counts, skipping the sentinel `-1`. It then
  reports Healthy when the rate (defects per hour) is below 2.0 and Warning
  otherwise.

Layout, one module per file:

| file | module | what |
|---|---|---|
| wrappers.dfy | `Wrappers` | `Option`, `Result`, `Outcome` |
| event_model.dfy | `EventModel` | instants (integer nanoseconds), request, record, fingerprint, store invariants |
| event_repository.dfy | `EventStore` | class `EventRepository`: the store as a `map<string, EventEntity>`, `FindById`, `Save` |
| event_ingest.dfy | `EventIngest` | `Validate`, `ComputePayloadHash`, `MapToEntity`, `Reconcile` (one request on a store value), `Run` (a batch on a store value) |
| batch_response.dfy | `BatchResponses` | the response's five counters and rejection list: `BatchResponse` as the service tallies, `IntendedBatchResponse` with independent counters |
| ingest_service.dfy | `IngestService` | class `EventIngestService`: the imperative `IngestSingle` and `IngestBatch`, proved against `Reconcile`, `Run` and `BatchResponse` |
| ingest_properties.dfy | `IngestProperties` | lemmas: bounds, fingerprint, each branch, invariants, idempotence, batch isolation, tallies |
| payload_text.dfy | `PayloadText` | the fingerprint as the service's joined string, and its collisions |
| stats_service.dfy | `StatsService` | `GetStats` and its parts; the rate is an exact `real` |
| stats_properties.dfy | `StatsProperties` | lemmas: window bounds, sentinel, sub-second window, order independence |

"Now" is a parameter: `IngestSingle` takes one instant, and `IngestBatch`
takes one clock reading per request (`clock[k]` for `events[k]`). Time
instants are integer nanoseconds since the epoch.

Where the model departs from a literal reading of the code, or keeps a
behaviour of the code that looks unintended, it is on purpose:
- The model follows the code on the IGNORED counter: that branch sets
  `ignored` to `deduped + 1` (EventIngestService.java:35). The response
  declares `ignored` as a field of its own (BatchIngestResponseDto.java:12),
  and each of the other branches increments its own counter. So the
  evidently intended tally is also modelled, and the two are compared (see
  Findings).
- The model follows the code on the `REJECTED` result value, which
  `ingestSingle` never returns: rejections come only from the validation
  exception.
- The model departs from the code on the fingerprint. `computePayloadHash`
  (EventIngestService.java:130-138) joins the fields with a vertical bar,
  so different contents can give equal text, and line 66 then answers
  DEDUPED. Reconciliation here compares the tuple of the seven semantic
  fields, where equal means equal content. `PayloadText` models the text
  as written and shows the collisions (see Findings and Left out).

## Model

| member | source | states |
|---|---|---|
| `EventStore.EventRepository.FindById` | src/main/java/com/company/factory_events/service/EventIngestService.java:63 | returns the record under the id exactly when one is stored, and that record carries the id |
| `EventStore.EventRepository.Save` | src/main/java/com/company/factory_events/service/EventIngestService.java:88-89 | upsert by id: the store afterwards is the old store with this record under its id, and stays keyed by id |
| `EventIngest.Validate` | src/main/java/com/company/factory_events/service/EventIngestService.java:114-128 | INVALID_DURATION iff the duration is outside 0..21 600 000 ms (both bounds allowed); else EVENT_TIME_IN_FUTURE iff the event time is strictly after now + 15 min; passes otherwise. The duration check wins when both fail |
| `EventIngest.MapToEntity` | src/main/java/com/company/factory_events/service/EventIngestService.java:95-111 | the new record holds the request's semantic content, the given receivedTime and the given fingerprint |
| `EventIngest.Overwrite` | src/main/java/com/company/factory_events/service/EventIngestService.java:70-79 | the UPDATED setters: the record keeps its id, and every other field is the request's, with the new receivedTime and fingerprint |
| `EventIngest.EffectiveReceivedTime` | src/main/java/com/company/factory_events/service/EventIngestService.java:57-59 | no contract of its own: `AcceptedWhenAbsent` proves the stored receivedTime is the request's when given and "now" otherwise |
| `EventIngest.ComputePayloadHash` | src/main/java/com/company/factory_events/service/EventIngestService.java:130-138 | no contract of its own: `FingerprintIgnoresReceivedTime` proves it ignores receivedTime, and `FingerprintMatchesIffSameContent` that equal fingerprints mean equal semantic content (the corrected fingerprint; see Findings) |
| `EventIngest.Reconcile` | src/main/java/com/company/factory_events/service/EventIngestService.java:53-92 | fails exactly when validation fails, with its reason; never yields REJECTED; ACCEPTED iff no record has the id; the keys afterwards are the old keys plus the request's id; every other key keeps its record; DEDUPED and IGNORED write nothing |
| `EventIngest.Step` | src/main/java/com/company/factory_events/service/EventIngestService.java:28-44 | one loop turn: a rejection exactly when validation fails, carrying the id and the reason and leaving the store; otherwise never REJECTED, and the keys become the old keys plus the request's id |
| `EventIngest.Run` | src/main/java/com/company/factory_events/service/EventIngestService.java:27-46 | one disposition per request, in order, each request reconciled against the store the earlier ones left |
| `BatchResponses.Rejections` | src/main/java/com/company/factory_events/service/EventIngestService.java:38-44 | one entry per failed disposition, every failed disposition's entry is in the list, and nothing else is; the order and multiplicity are fixed by `RejectionsSingleton`, `RejectionsSnoc` and `RejectionsAppend` |
| `BatchResponses.RejectionsSingleton` | src/main/java/com/company/factory_events/service/EventIngestService.java:38-44 | one disposition gives its own rejection when it failed, and nothing otherwise |
| `BatchResponses.RejectionsSnoc` | src/main/java/com/company/factory_events/service/EventIngestService.java:40-44 | one more disposition appends its rejection at the end of the list |
| `BatchResponses.RejectionsAppend` | src/main/java/com/company/factory_events/service/EventIngestService.java:27-44 | the rejections of two runs one after the other are the first run's followed by the second's, so each failed disposition contributes its entry once, in batch order |
| `BatchResponses.Tally` | src/main/java/com/company/factory_events/service/EventIngestService.java:31-44 | one turn of the switch and the catch block, as written: ACCEPTED, UPDATED and DEDUPED each raise only their own counter, and a failure raises rejected and appends its own rejection to the list. No counter of those four goes down. The ignored counter changes only on IGNORED. IGNORED and the never-returned REJECTED raise none of the four |
| `BatchResponses.BatchResponse` | src/main/java/com/company/factory_events/service/EventIngestService.java:23-49 | the response `ingestBatch` returns: the rejection list holds the rejections in order, and the rejected counter is its length; `BatchResponseAgreesExceptIgnored` proves every counter but ignored equals the corrected tally's |
| `BatchResponses.IntendedBatchResponse` | src/main/java/com/company/factory_events/service/EventIngestService.java:31-44 | corrected tally: each counter is the number of dispositions of its kind, and the rejection list is the rejections in order, as long as the rejected counter |
| `IngestService.RunExtends` | src/main/java/com/company/factory_events/service/EventIngestService.java:27-46 | one more loop turn extends the run by that request's store and its tally |
| `IngestService.EventIngestService.IngestSingle` | src/main/java/com/company/factory_events/service/EventIngestService.java:53-92 | the returned disposition or thrown reason, and the store afterwards, are those of `Reconcile` on the store before; the store stays keyed by id |
| `IngestService.EventIngestService.IngestBatch` | src/main/java/com/company/factory_events/service/EventIngestService.java:23-49 | the store afterwards is `Run`'s, and the response is `BatchResponse` of `Run`'s dispositions |
| `IngestProperties.DurationBoundsInclusive` | src/main/java/com/company/factory_events/service/EventIngestService.java:115-122 | durations 0 and 21 600 000 pass; -1 and 21 600 001 are INVALID_DURATION |
| `IngestProperties.FutureBoundaryInclusive` | src/main/java/com/company/factory_events/service/EventIngestService.java:124-127 | an event time of exactly now + 15 min passes; one nanosecond later is EVENT_TIME_IN_FUTURE |
| `IngestProperties.FingerprintIgnoresReceivedTime` | src/main/java/com/company/factory_events/service/EventIngestService.java:130-138 | the fingerprint does not depend on receivedTime |
| `IngestProperties.FingerprintMatchesIffSameContent` | src/main/java/com/company/factory_events/service/EventIngestService.java:130-138 | equal fingerprints iff all seven semantic fields are equal |
| `IngestProperties.AcceptedWhenAbsent` | src/main/java/com/company/factory_events/service/EventIngestService.java:57-59 | no record under the id: ACCEPTED, exactly that key is added, and the record holds the request's content, the effective receivedTime (given, else now) and the fingerprint |
| `IngestProperties.DedupedWhenSameContent` | src/main/java/com/company/factory_events/service/EventIngestService.java:66-68 | stored content equal to the request's: DEDUPED and the store unchanged, whatever the receivedTime |
| `IngestProperties.UpdatedWhenNewer` | src/main/java/com/company/factory_events/service/EventIngestService.java:70-81 | different content and a strictly later receivedTime: UPDATED, the record replaced by the request's, every other key untouched |
| `IngestProperties.IgnoredWhenStale` | src/main/java/com/company/factory_events/service/EventIngestService.java:84 | different content and a receivedTime not later: IGNORED and the store unchanged |
| `IngestProperties.DedupedIffSameContent` | src/main/java/com/company/factory_events/service/EventIngestService.java:66-68 | under the store invariants, DEDUPED iff the stored record's semantic fields equal the request's |
| `IngestProperties.ReconcileKeepsInvariants` | src/main/java/com/company/factory_events/service/EventIngestService.java:63-91 | every record stays under its own id, with a fingerprint true to its content |
| `IngestProperties.SecondIngestIsDeduped` | src/main/java/com/company/factory_events/service/EventIngestService.java:66-68 | ingesting an event again after it was ACCEPTED or UPDATED is DEDUPED and writes nothing |
| `IngestProperties.RunSnoc` | src/main/java/com/company/factory_events/service/EventIngestService.java:27-29 | a batch is its prefix followed by one more request |
| `IngestProperties.RunNeverRemovesKeys` | src/main/java/com/company/factory_events/service/EventIngestService.java:27-46 | a batch never removes a key, and every new key is the id of one of its requests |
| `IngestProperties.RunKeepsInvariants` | src/main/java/com/company/factory_events/service/EventIngestService.java:27-46 | a batch keeps the store keyed by id and the fingerprints true to content |
| `IngestProperties.RunRejectsExactlyInvalid` | src/main/java/com/company/factory_events/service/EventIngestService.java:38-44 | a request is rejected iff it fails validation; its entry carries its id and reason; no disposition is REJECTED |
| `IngestProperties.RunAppend` | src/main/java/com/company/factory_events/service/EventIngestService.java:27-46 | a split batch runs its second part on the store its first part left |
| `IngestProperties.BatchIsolation` | src/main/java/com/company/factory_events/service/EventIngestService.java:27-46 | a rejected request leaves the store and every other disposition as in the batch without it |
| `IngestProperties.DuplicateBatchKeepsOneRecord` | src/main/java/com/company/factory_events/service/EventIngestService.java:63-91 | an event ingested twice into an empty store gives ACCEPTED then DEDUPED and exactly one record |
| `IngestProperties.BatchResponseAgreesExceptIgnored` | src/main/java/com/company/factory_events/service/EventIngestService.java:31-44 | the returned accepted, updated, deduped and rejected counters and the rejection list equal the corrected tally's; the rejection list is as long as the rejected count |
| `IngestProperties.IgnoredSetFromDeduped` | src/main/java/com/company/factory_events/service/EventIngestService.java:35 | after an IGNORED request, ignored == deduped + 1 and deduped did not move |
| `IngestProperties.TwoIgnoredCountedOnce` | src/main/java/com/company/factory_events/service/EventIngestService.java:35 | two IGNORED requests are reported as ignored = 1 (the corrected tally gives 2) |
| `IngestProperties.DedupedLeakIntoIgnored` | src/main/java/com/company/factory_events/service/EventIngestService.java:35 | DEDUPED, DEDUPED, IGNORED is reported as ignored = 3 (the corrected tally gives 1) |
| `IngestProperties.BatchRejectedCountsInvalid` | src/main/java/com/company/factory_events/service/EventIngestService.java:38-44 | the rejected count and the rejection list's length both equal the number of requests that fail validation |
| `PayloadText.PayloadText` | src/main/java/com/company/factory_events/service/EventIngestService.java:130-138 | no contract of its own: the fingerprint text as written; `SeparatorInFieldCollides` and `NullAndNullTextCollide` prove two requests with different content can get the same text |
| `PayloadText.SeparatorInFieldCollides` | src/main/java/com/company/factory_events/service/EventIngestService.java:130-138 | moving the separator character between factoryId and lineId (factoryId "F", separator, "L" with lineId "X", against factoryId "F" with lineId "L", separator, "X") gives the same text though the content differs |
| `PayloadText.NullAndNullTextCollide` | src/main/java/com/company/factory_events/service/EventIngestService.java:136-137 | a missing lineId and the lineId "null" give the same text though the content differs |
| `StatsService.InWindow` | src/main/java/com/company/factory_events/repository/EventRepository.java:10-14 | no contract of its own: `WindowStartIncludedEndExcluded` proves a record at start is in the window and one at end is not |
| `StatsService.SelectWindow` | src/main/java/com/company/factory_events/service/StatsService.java:27-30 | a record is selected iff it is listed, is for the machine, and has start <= eventTime < end |
| `StatsService.DefectsSum` | src/main/java/com/company/factory_events/service/StatsService.java:34-37 | no contract of its own: `DefectsSumAppend`, `SentinelCountedNotSummed` and `DefectsSumPermutation` prove it adds over concatenation, skips exactly the -1 sentinel and ignores order |
| `StatsService.WholeSecondsBetween` | src/main/java/com/company/factory_events/service/StatsService.java:39 | the whole seconds of the window, rounded down: seconds * 10^9 <= end - start < (seconds + 1) * 10^9, and never negative for start <= end |
| `StatsService.AvgDefectRate` | src/main/java/com/company/factory_events/service/StatsService.java:39-42 | 0 for a window under one second; otherwise the rate times the window's seconds equals defects * 3600 (defects per hour) |
| `StatsService.Classify` | src/main/java/com/company/factory_events/service/StatsService.java:44-45 | no contract of its own: `HealthyIffBelowThreshold` proves Healthy exactly when the rate is below 2.0, in integer terms |
| `StatsService.GetStats` | src/main/java/com/company/factory_events/service/StatsService.java:21-57 | fails with INVALID_TIME_WINDOW iff start is not before end; otherwise echoes machineId, start and end, counts the selected records, sums their defects without the sentinel, gives avgDefectRate as 0 for a window under a second and defects * 3600 / seconds otherwise, and is Healthy iff the window is under a second or defects * 3600 < 2 * seconds |
| `StatsService.HealthyIffBelowThreshold` | src/main/java/com/company/factory_events/service/StatsService.java:39-45 | the rate < 2.0 test on whole seconds / 3600 equals the integer test defects * 3600 < 2 * seconds, and a zero-hour window is Healthy |
| `StatsService.RatePerHour` | src/main/java/com/company/factory_events/service/StatsService.java:39-42 | the rate is 0 for a window under one second and defects * 3600 / seconds otherwise |
| `StatsProperties.SelectWindowAppend` | src/main/java/com/company/factory_events/service/StatsService.java:27-30 | selecting from two listings one after the other is selecting from each |
| `StatsProperties.DefectsSumAppend` | src/main/java/com/company/factory_events/service/StatsService.java:34-37 | the defect sum of two listings is the sum of their sums |
| `StatsProperties.OneMoreRecord` | src/main/java/com/company/factory_events/service/StatsService.java:32-37 | one more record in the window adds one to the count and its defect count to the sum, or nothing to the sum if it is -1 (only -1 is skipped); a record outside the window changes nothing |
| `StatsProperties.SentinelCountedNotSummed` | src/main/java/com/company/factory_events/service/StatsService.java:34-37 | a -1 record in the window is counted but adds no defects |
| `StatsProperties.WindowStartIncludedEndExcluded` | src/main/java/com/company/factory_events/service/StatsService.java:27-30 | a record at start is counted; one at end is not |
| `StatsProperties.SubSecondWindowIsHealthy` | src/main/java/com/company/factory_events/service/StatsService.java:39-45 | a window under one second has rate 0 and is Healthy |
| `StatsProperties.DefectsSumPermutation` | src/main/java/com/company/factory_events/service/StatsService.java:34-37 | the defect sum does not depend on the order of the records |
| `StatsProperties.SelectWindowMultiplicity` | src/main/java/com/company/factory_events/service/StatsService.java:27-30 | the selection keeps each record in the window as often as it is listed, and no other record |
| `StatsProperties.StatsIgnoreRowOrder` | src/main/java/com/company/factory_events/service/StatsService.java:21-57 | two listings of the same records give the same response |
| `StatsProperties.StatsCountStoredRecords` | src/main/java/com/company/factory_events/service/StatsService.java:27-32 | when the listing holds each stored record once and the store is keyed by id, eventsCount is the number of stored ids whose record is for the machine and has start <= eventTime < end |

## Left out

- HTTP controllers and serialisation: routing only.
- Spring Data/JPA: the repository is a map with `FindById` and `Save`. The derived range query is the `InWindow` filter over `rows`, a listing of the stored records. `GetStats` takes that listing as a parameter; `StatsIgnoreRowOrder` shows that the listing's order does not matter, and `StatsCountStoredRecords` ties the count to the store when the listing holds each stored record once.
- Managed-entity mutation: the UPDATED setters change the managed entity, and `save` flushes it. Both are modelled as replacing the map entry (`Overwrite`). Aliasing of the entity object and dirty checking are not modelled.
- Transactions and concurrent ingestion: the model is sequential. Atomicity of the read-then-write across threads is not captured. The `@Transactional` annotation sits on a self-invoked method, so it would not apply anyway.
- The clock: "now" is a parameter. The two clock reads in `ingestSingle` (validation and the default receivedTime) are taken as one instant.
- EventIngest.Reconcile: compares the tuple of the seven semantic fields, not the joined text. Where two different contents give the same text, the code answers DEDUPED, and the model answers UPDATED or IGNORED. An example is factoryId "F|L" with lineId "X" against a stored factoryId "F" with lineId "L|X". `PayloadText` keeps the text as written, with instants rendered as decimal nanoseconds rather than ISO-8601.
- `double` arithmetic: `avgDefectRate` is an exact `real`. Rounding is not modelled. For windows under about 2^52 seconds it cannot change the status.
- Fixed-width integers: the `int` counters, the `long` defect sum and durations, the `int` defect count and the `Instant` range are unbounded here. Overflow is not modelled.
- Null fields: eventId, machineId and eventTime are always present here. Only receivedTime, factoryId and lineId are optional. In the code, a null eventTime fails at validation (EventIngestService.java:125) with an exception the batch loop does not catch. A null eventId or machineId is not dereferenced: the fingerprint renders it as "null" (lines 131-132) and it is passed on to `findById` and `mapToEntity`. None of these paths is modelled.
- Exceptions other than the validation `IllegalArgumentException` (store failures) are not modelled. They would abort the batch.
- The rejection reason is the exception message. It is modelled as `Reason`, whose `Code()` is that message text.

## Findings

| source | as written | input that shows it | evidently intended | confidence | as-written member | corrected member |
|---|---|---|---|---|---|---|
| src/main/java/com/company/factory_events/service/EventIngestService.java:35 | the IGNORED branch sets `ignored` to `deduped + 1` | a batch with two IGNORED requests reports ignored = 1; DEDUPED, DEDUPED, IGNORED reports ignored = 3 | `ignored` counts the IGNORED dispositions, as the other counters count theirs | not executed; read from the code | `IngestProperties.TwoIgnoredCountedOnce` | `BatchResponses.IntendedBatchResponse` |
| src/main/java/com/company/factory_events/service/EventIngestService.java:130-138 | the fingerprint joins the fields with a vertical bar and renders null as "null" | a factoryId or lineId that contains the vertical bar, or a lineId that is null against one that is the text "null": same text, different content, so the change is DEDUPED | equal fingerprints only for equal semantic fields | not executed; needs a vertical bar inside a field or the literal text "null" | `PayloadText.SeparatorInFieldCollides` | `IngestProperties.FingerprintMatchesIffSameContent` |

`IngestBatch` returns the as-written tally (`BatchResponse`), because that is
what the service reports. `IntendedBatchResponse` is the corrected tally, and
`BatchResponseAgreesExceptIgnored` proves that the two differ only in
`ignored`. Reconciliation uses the corrected, collision-free fingerprint.
