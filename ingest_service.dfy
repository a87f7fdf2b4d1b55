/**
 * The ingestion service over the repository: `ingestSingle` reads the
 * record under the request's id and writes at most once; `ingestBatch`
 * runs it over a list of requests, bumping the response's counters and
 * appending to its rejection list.
 */
module IngestService {
  import opened Wrappers
  import opened EventModel
  import opened EventStore
  import opened EventIngest
  import opened BatchResponses

  /** The disposition a batch records for the outcome of `ingestSingle`. */
  function DispositionOf(dto: EventRequest, outcome: Result<IngestResult, Reason>): Disposition
  {
    match outcome
    case Success(r) => Done(r)
    case Failure(reason) => Failed(Rejection(dto.eventId, reason))
  }

  /**
   * One more turn of the batch loop: if `ingestSingle` on request `i` left
   * `after` and returned `outcome`, the run over the first `i + 1` requests
   * ends in `after`, and its response is the previous one tallied once more.
   */
  lemma RunExtends(store: Store, events: seq<EventRequest>, clock: seq<Instant>, i: nat,
                   after: Store, outcome: Result<IngestResult, Reason>)
    requires |clock| == |events| && i < |events|
    requires var prior := Run(store, events[..i], clock[..i]);
      match Reconcile(prior.store, events[i], clock[i])
      case Failure(reason) => outcome == Failure(reason) && after == prior.store
      case Success(rc) => outcome == Success(rc.result) && after == rc.store
    ensures var next := Run(store, events[..i + 1], clock[..i + 1]);
      next.store == after &&
      BatchResponse(next.dispositions) ==
        Tally(BatchResponse(Run(store, events[..i], clock[..i]).dispositions), DispositionOf(events[i], outcome))
  {
    assert events[..i + 1][..i] == events[..i] && clock[..i + 1][..i] == clock[..i];
    var prior := Run(store, events[..i], clock[..i]);
    var step := Step(prior.store, events[i], clock[i]);
    assert (prior.dispositions + [step.0])[..i] == prior.dispositions;
  }

  class EventIngestService {
    const repository: EventRepository

    ghost predicate Valid()
      reads this, repository
    {
      repository.Valid()
    }

    constructor (repository: EventRepository)
      requires repository.Valid()
      ensures this.repository == repository && Valid()
    {
      this.repository := repository;
    }

    /**
     * `ingestSingle` with the current time `now`: the thrown validation
     * exception is `Failure(reason)`, anything else the disposition.
     */
    method IngestSingle(dto: EventRequest, now: Instant) returns (outcome: Result<IngestResult, Reason>)
      requires Valid()
      modifies repository
      ensures Valid()
      ensures match Reconcile(old(repository.events), dto, now)
        case Failure(reason) => outcome == Failure(reason) && repository.events == old(repository.events)
        case Success(rc) => outcome == Success(rc.result) && repository.events == rc.store
    {
      match Validate(dto, now)
      case Fail(reason) =>
        return Failure(reason);
      case Pass =>
      var receivedTime := EffectiveReceivedTime(dto, now);
      var payloadHash := ComputePayloadHash(dto);
      var found := repository.FindById(dto.eventId);
      match found {
      case Some(existing) =>
        if existing.payloadHash == payloadHash {
          return Success(Deduped);
        }
        if receivedTime > existing.receivedTime {
          repository.Save(Overwrite(existing, dto, receivedTime, payloadHash));
          return Success(Updated);
        }
        return Success(Ignored);
      case None =>
        var entity := MapToEntity(dto, receivedTime, payloadHash);
        repository.Save(entity);
        return Success(Accepted);
      }
    }

    /**
     * `ingestBatch`: every request is processed in order, with its own clock
     * reading `clock[k]`; a rejected one is tallied and the loop goes on.
     */
    method IngestBatch(events: seq<EventRequest>, clock: seq<Instant>) returns (response: BatchIngestResponse)
      requires Valid()
      requires |clock| == |events|
      modifies repository
      ensures Valid()
      ensures var run := Run(old(repository.events), events, clock);
        repository.events == run.store && response == BatchResponse(run.dispositions)
    {
      ghost var initial := repository.events;
      response := EmptyResponse;
      for i := 0 to |events|
        invariant Valid()
        invariant var run := Run(initial, events[..i], clock[..i]);
          repository.events == run.store && response == BatchResponse(run.dispositions)
      {
        var dto := events[i];
        var outcome := IngestSingle(dto, clock[i]);
        RunExtends(initial, events, clock, i, repository.events, outcome);
        response := Tally(response, DispositionOf(dto, outcome));
      }
      assert events[..|events|] == events && clock[..|events|] == clock;
    }
  }
}
