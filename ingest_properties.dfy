/**
 * Properties of ingestion: the validation bounds, the fingerprint, each
 * reconciliation branch, the store invariants, idempotence, and what a
 * batch run keeps and counts.
 */
module IngestProperties {
  import opened Wrappers
  import opened EventModel
  import opened EventIngest
  import opened BatchResponses

  // ---------------------------------------------------------------- validation

  /** Both duration bounds are inclusive; one millisecond past either is rejected. */
  lemma DurationBoundsInclusive(dto: EventRequest, now: Instant)
    requires dto.eventTime <= PlusSeconds(now, FutureToleranceSeconds)
    ensures Validate(dto.(durationMs := 0), now) == Pass
    ensures Validate(dto.(durationMs := SixHoursMs), now) == Pass
    ensures Validate(dto.(durationMs := -1), now) == Fail(InvalidDuration)
    ensures Validate(dto.(durationMs := SixHoursMs + 1), now) == Fail(InvalidDuration)
  {
  }

  /** An event time exactly fifteen minutes ahead passes; one nanosecond later is rejected. */
  lemma FutureBoundaryInclusive(dto: EventRequest, now: Instant)
    requires 0 <= dto.durationMs <= SixHoursMs
    ensures Validate(dto.(eventTime := now + 15 * 60 * NanosPerSecond), now) == Pass
    ensures Validate(dto.(eventTime := now + 15 * 60 * NanosPerSecond + 1), now) == Fail(EventTimeInFuture)
  {
  }

  // --------------------------------------------------------------- fingerprint

  /** The fingerprint does not depend on the receivedTime. */
  lemma FingerprintIgnoresReceivedTime(dto: EventRequest, t: Option<Instant>)
    ensures ComputePayloadHash(dto.(receivedTime := t)) == ComputePayloadHash(dto)
  {
  }

  /** Two requests have the same fingerprint exactly when their semantic fields agree. */
  lemma FingerprintMatchesIffSameContent(a: EventRequest, b: EventRequest)
    ensures ComputePayloadHash(a) == ComputePayloadHash(b) <==> SameContent(a, b)
  {
  }

  // ------------------------------------------------------ reconciliation branches

  /** No record under the id: the request is inserted as a new record and nothing else changes. */
  lemma AcceptedWhenAbsent(store: Store, dto: EventRequest, now: Instant)
    requires Validate(dto, now) == Pass
    requires dto.eventId !in store
    ensures var r := Reconcile(store, dto, now);
      r.Success? && r.value.result == Accepted &&
      r.value.store == store[dto.eventId := MapToEntity(dto, EffectiveReceivedTime(dto, now), ComputePayloadHash(dto))]
    ensures var e := Reconcile(store, dto, now).value.store[dto.eventId];
      ContentOf(e) == ComputePayloadHash(dto) && e.payloadHash == ComputePayloadHash(dto) &&
      e.receivedTime == (if dto.receivedTime.Some? then dto.receivedTime.value else now)
  {
  }

  /** A stored record with the same content: DEDUPED and no write, whatever the receivedTime. */
  lemma DedupedWhenSameContent(store: Store, dto: EventRequest, now: Instant)
    requires HashesMatchContent(store)
    requires Validate(dto, now) == Pass
    requires dto.eventId in store && ContentOf(store[dto.eventId]) == ComputePayloadHash(dto)
    ensures Reconcile(store, dto, now) == Success(Reconciled(Deduped, store))
  {
  }

  /**
   * Different content and a strictly later receivedTime: UPDATED, every
   * field of the record but its id replaced by the request's, other keys
   * untouched.
   */
  lemma UpdatedWhenNewer(store: Store, dto: EventRequest, now: Instant)
    requires KeyedById(store)
    requires Validate(dto, now) == Pass
    requires dto.eventId in store && store[dto.eventId].payloadHash != ComputePayloadHash(dto)
    requires EffectiveReceivedTime(dto, now) > store[dto.eventId].receivedTime
    ensures Reconcile(store, dto, now) == Success(Reconciled(Updated,
      store[dto.eventId := MapToEntity(dto, EffectiveReceivedTime(dto, now), ComputePayloadHash(dto))]))
  {
  }

  /** Different content and a receivedTime not after the stored one: IGNORED and no write. */
  lemma IgnoredWhenStale(store: Store, dto: EventRequest, now: Instant)
    requires Validate(dto, now) == Pass
    requires dto.eventId in store && store[dto.eventId].payloadHash != ComputePayloadHash(dto)
    requires EffectiveReceivedTime(dto, now) <= store[dto.eventId].receivedTime
    ensures Reconcile(store, dto, now) == Success(Reconciled(Ignored, store))
  {
  }

  /** With the store invariants in place, DEDUPED means exactly "same content as the stored record". */
  lemma DedupedIffSameContent(store: Store, dto: EventRequest, now: Instant)
    requires KeyedById(store) && HashesMatchContent(store)
    requires Reconcile(store, dto, now).Success? && dto.eventId in store
    ensures Reconcile(store, dto, now).value.result == Deduped <==> SameContent(AsRequest(store[dto.eventId]), dto)
  {
    FingerprintMatchesIffSameContent(AsRequest(store[dto.eventId]), dto);
  }

  /** The semantic fields of a stored record, read back as a request. */
  function AsRequest(e: EventEntity): (dto: EventRequest)
    ensures ComputePayloadHash(dto) == ContentOf(e)
  {
    EventRequest(e.eventId, e.machineId, e.eventTime, Some(e.receivedTime), e.durationMs,
                 e.defectCount, e.factoryId, e.lineId)
  }

  /** Reconciliation keeps every record under its own id and its fingerprint true to its content. */
  lemma ReconcileKeepsInvariants(store: Store, dto: EventRequest, now: Instant)
    requires KeyedById(store) && HashesMatchContent(store)
    requires Reconcile(store, dto, now).Success?
    ensures KeyedById(Reconcile(store, dto, now).value.store)
    ensures HashesMatchContent(Reconcile(store, dto, now).value.store)
  {
  }

  /**
   * Ingesting an event a second time after it was stored (ACCEPTED or
   * UPDATED) is DEDUPED and writes nothing, whatever the second receivedTime.
   */
  lemma SecondIngestIsDeduped(store: Store, dto: EventRequest, now1: Instant, now2: Instant)
    requires KeyedById(store)
    requires var r := Reconcile(store, dto, now1);
      r.Success? && (r.value.result == Accepted || r.value.result == Updated)
    requires Validate(dto, now2) == Pass
    ensures var first := Reconcile(store, dto, now1).value.store;
      Reconcile(first, dto, now2) == Success(Reconciled(Deduped, first))
  {
  }

  // ------------------------------------------------------------------ batch run

  /** The run over one more request is the run over the prefix followed by one step. */
  lemma RunSnoc(store: Store, events: seq<EventRequest>, clock: seq<Instant>, n: nat)
    requires |clock| == |events| && n == |events| - 1
    ensures var prior := Run(store, events[..n], clock[..n]);
      var step := Step(prior.store, events[n], clock[n]);
      Run(store, events, clock) == BatchRun(step.1, prior.dispositions + [step.0])
  {
  }

  /** A batch never removes a key, and every new key is the id of one of its requests. */
  lemma {:induction false} RunNeverRemovesKeys(store: Store, events: seq<EventRequest>, clock: seq<Instant>)
    requires |clock| == |events|
    ensures store.Keys <= Run(store, events, clock).store.Keys
    ensures forall id :: id in Run(store, events, clock).store ==>
      id in store || exists k :: 0 <= k < |events| && events[k].eventId == id
    decreases |events|
  {
    if |events| > 0 {
      var n := |events| - 1;
      RunNeverRemovesKeys(store, events[..n], clock[..n]);
      var prior := Run(store, events[..n], clock[..n]);
      forall id | id in Run(store, events, clock).store
        ensures id in store || exists k :: 0 <= k < |events| && events[k].eventId == id
      {
        if id !in prior.store {
          assert events[n].eventId == id;
        } else if id !in store {
          var k :| 0 <= k < n && events[..n][k].eventId == id;
          assert events[k].eventId == id;
        }
      }
    }
  }

  /** A batch keeps every record under its own id and its fingerprint true to its content. */
  lemma {:induction false} RunKeepsInvariants(store: Store, events: seq<EventRequest>, clock: seq<Instant>)
    requires |clock| == |events|
    requires KeyedById(store) && HashesMatchContent(store)
    ensures KeyedById(Run(store, events, clock).store)
    ensures HashesMatchContent(Run(store, events, clock).store)
    decreases |events|
  {
    if |events| > 0 {
      var n := |events| - 1;
      RunKeepsInvariants(store, events[..n], clock[..n]);
      var prior := Run(store, events[..n], clock[..n]);
      if Reconcile(prior.store, events[n], clock[n]).Success? {
        ReconcileKeepsInvariants(prior.store, events[n], clock[n]);
      }
    }
  }

  /**
   * A request is rejected exactly when it fails validation, its rejection
   * entry carries its id and the failing reason, and no disposition is the
   * REJECTED result value.
   */
  lemma {:induction false} RunRejectsExactlyInvalid(store: Store, events: seq<EventRequest>, clock: seq<Instant>)
    requires |clock| == |events|
    ensures var ds := Run(store, events, clock).dispositions;
      forall k :: 0 <= k < |events| ==>
        (ds[k].Failed? <==> Validate(events[k], clock[k]).Fail?) &&
        (ds[k].Failed? ==> ds[k].rejection == Rejection(events[k].eventId, Validate(events[k], clock[k]).error)) &&
        ds[k] != Done(Rejected)
    decreases |events|
  {
    if |events| > 0 {
      var n := |events| - 1;
      RunRejectsExactlyInvalid(store, events[..n], clock[..n]);
      var prior := Run(store, events[..n], clock[..n]);
      var ds := Run(store, events, clock).dispositions;
      forall k | 0 <= k < n
        ensures ds[k] == prior.dispositions[k] && events[k] == events[..n][k] && clock[k] == clock[..n][k]
      {
      }
    }
  }

  /** A batch split in two runs the second part on the store the first part left. */
  lemma {:induction false} RunAppend(store: Store, a: seq<EventRequest>, ca: seq<Instant>,
                                     b: seq<EventRequest>, cb: seq<Instant>)
    requires |ca| == |a| && |cb| == |b|
    ensures var first := Run(store, a, ca);
      var second := Run(first.store, b, cb);
      Run(store, a + b, ca + cb) == BatchRun(second.store, first.dispositions + second.dispositions)
    decreases |b|
  {
    if |b| == 0 {
      assert a + b == a && ca + cb == ca;
    } else {
      var n := |b| - 1;
      RunAppend(store, a, ca, b[..n], cb[..n]);
      assert (a + b)[..|a| + n] == a + b[..n];
      assert (ca + cb)[..|a| + n] == ca + cb[..n];
      RunSnoc(store, a + b, ca + cb, |a| + n);
      RunSnoc(Run(store, a, ca).store, b, cb, n);
    }
  }

  /**
   * A request that fails validation does not stop or change the rest of the
   * batch: the store and the other dispositions are those of the batch
   * without it, with its rejection in its place.
   */
  lemma BatchIsolation(store: Store, pre: seq<EventRequest>, cpre: seq<Instant>, e: EventRequest, c: Instant,
                       post: seq<EventRequest>, cpost: seq<Instant>)
    requires |cpre| == |pre| && |cpost| == |post|
    requires Validate(e, c).Fail?
    ensures var with := Run(store, pre + [e] + post, cpre + [c] + cpost);
      var without := Run(store, pre + post, cpre + cpost);
      with.store == without.store &&
      with.dispositions ==
        without.dispositions[..|pre|] + [Failed(Rejection(e.eventId, Validate(e, c).error))] + without.dispositions[|pre|..]
  {
    var first := Run(store, pre, cpre);
    RunAppend(store, pre, cpre, [e], [c]);
    RunSnoc(first.store, [e], [c], 0);
    assert [e][..0] == [] && [c][..0] == [];
    var middle := Run(store, pre + [e], cpre + [c]);
    assert middle.store == first.store;
    RunAppend(store, pre + [e], cpre + [c], post, cpost);
    RunAppend(store, pre, cpre, post, cpost);
    var rest := Run(first.store, post, cpost);
    assert |first.dispositions| == |pre|;
    assert (first.dispositions + rest.dispositions)[..|pre|] == first.dispositions;
    assert (first.dispositions + rest.dispositions)[|pre|..] == rest.dispositions;
  }

  /** The service's duplicate test: an event ingested twice into an empty store leaves one record. */
  lemma DuplicateBatchKeepsOneRecord(dto: EventRequest, now1: Instant, now2: Instant)
    requires Validate(dto, now1) == Pass && Validate(dto, now2) == Pass
    ensures var first := Run(map[], [dto], [now1]);
      var second := Run(first.store, [dto], [now2]);
      first.dispositions == [Done(Accepted)] && second.dispositions == [Done(Deduped)] &&
      second.store == first.store && |second.store| == 1 && dto.eventId in second.store
  {
    var empty: Store := map[];
    RunSnoc(empty, [dto], [now1], 0);
    assert [dto][..0] == [] && [now1][..0] == [] && [now2][..0] == [];
    var first := Run(empty, [dto], [now1]);
    AcceptedWhenAbsent(empty, dto, now1);
    RunSnoc(first.store, [dto], [now2], 0);
    assert KeyedById(first.store);
    SecondIngestIsDeduped(empty, dto, now1, now2);
    assert first.store.Keys == {dto.eventId};
  }

  // -------------------------------------------------------------------- tallies

  /**
   * The response `ingestBatch` returns agrees with the five-counter tally on
   * accepted, updated, deduped, rejected and the rejection list; so the
   * rejection list is as long as the rejected count.
   */
  lemma {:induction false} BatchResponseAgreesExceptIgnored(ds: seq<Disposition>)
    ensures var r := BatchResponse(ds);
      var i := IntendedBatchResponse(ds);
      r.accepted == i.accepted && r.updated == i.updated && r.deduped == i.deduped &&
      r.rejected == i.rejected && r.rejections == i.rejections && |r.rejections| == r.rejected
    decreases |ds|
  {
    if ds != [] {
      BatchResponseAgreesExceptIgnored(ds[..|ds| - 1]);
    }
  }

  /**
   * The counting defect: after an IGNORED disposition the ignored counter
   * is one more than the deduped counter, and deduped did not move.
   */
  lemma IgnoredSetFromDeduped(ds: seq<Disposition>)
    requires |ds| > 0 && ds[|ds| - 1] == Done(Ignored)
    ensures BatchResponse(ds).ignored == BatchResponse(ds).deduped + 1
    ensures BatchResponse(ds).deduped == BatchResponse(ds[..|ds| - 1]).deduped
  {
  }

  /** Two IGNORED requests and no DEDUPED one are reported as one ignored event. */
  lemma TwoIgnoredCountedOnce()
    ensures BatchResponse([Done(Ignored), Done(Ignored)]).ignored == 1
    ensures IntendedBatchResponse([Done(Ignored), Done(Ignored)]).ignored == 2
  {
    assert [Done(Ignored), Done(Ignored)][..1] == [Done(Ignored)];
    assert [Done(Ignored)][..0] == [];
  }

  /** Two DEDUPED requests and one IGNORED one are reported as three ignored events. */
  lemma DedupedLeakIntoIgnored()
    ensures BatchResponse([Done(Deduped), Done(Deduped), Done(Ignored)]).ignored == 3
    ensures IntendedBatchResponse([Done(Deduped), Done(Deduped), Done(Ignored)]).ignored == 1
  {
    var ds := [Done(Deduped), Done(Deduped), Done(Ignored)];
    assert ds[..2] == [Done(Deduped), Done(Deduped)];
    assert ds[..2][..1] == [Done(Deduped)];
    assert [Done(Deduped)][..0] == [];
    assert multiset(ds)[Done(Ignored)] == 1;
  }

  /**
   * Over a whole batch, the rejected count and the rejection list count
   * exactly the requests that fail validation.
   */
  lemma BatchRejectedCountsInvalid(store: Store, events: seq<EventRequest>, clock: seq<Instant>)
    requires |clock| == |events|
    ensures var r := BatchResponse(Run(store, events, clock).dispositions);
      r.rejected == |r.rejections| == |set k | 0 <= k < |events| && Validate(events[k], clock[k]).Fail?|
  {
    var ds := Run(store, events, clock).dispositions;
    RunRejectsExactlyInvalid(store, events, clock);
    var invalid := set k | 0 <= k < |events| && Validate(events[k], clock[k]).Fail?;
    forall k | 0 <= k < |ds|
      ensures k in FailedPositions(ds) <==> k in invalid
    {
    }
    assert FailedPositions(ds) == invalid;
  }
}
