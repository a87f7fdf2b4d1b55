/**
 * The batch response: five counters and the rejection list, tallied from
 * the dispositions of a batch in order.
 *
 * `BatchResponse` is the tally the service computes, including its IGNORED
 * branch that sets `ignored` from `deduped`; `IntendedBatchResponse` is the
 * tally with five independent counters.
 */
module BatchResponses {
  import opened EventIngest

  datatype BatchIngestResponse = BatchIngestResponse(
    accepted: int,
    updated: int,
    deduped: int,
    rejected: int,
    ignored: int,
    rejections: seq<Rejection>)

  const EmptyResponse := BatchIngestResponse(0, 0, 0, 0, 0, [])

  /** How many entries of `ds` are `d`. */
  function Occurrences(ds: seq<Disposition>, d: Disposition): nat
  {
    multiset(ds)[d]
  }

  /** The positions of `ds` that hold a rejection. */
  ghost function FailedPositions(ds: seq<Disposition>): set<int>
  {
    set k | 0 <= k < |ds| && ds[k].Failed?
  }

  /**
   * The rejection entries of `ds`, in order: one per failed disposition, and
   * each failed disposition's entry among them.
   */
  function Rejections(ds: seq<Disposition>): (rs: seq<Rejection>)
    ensures |rs| == |FailedPositions(ds)|
    ensures forall k :: 0 <= k < |ds| && ds[k].Failed? ==> ds[k].rejection in rs
    ensures forall r :: r in rs ==> Failed(r) in ds
    decreases |ds|
  {
    if ds == [] then []
    else
      var n := |ds| - 1;
      var before := Rejections(ds[..n]);
      assert FailedPositions(ds[..n]) == set k | 0 <= k < n && ds[k].Failed?;
      assert FailedPositions(ds) ==
        FailedPositions(ds[..n]) + (if ds[n].Failed? then {n} else {});
      assert forall k :: 0 <= k < n ==> ds[..n][k] == ds[k];
      before + (if ds[n].Failed? then [ds[n].rejection] else [])
  }

  /** A single disposition contributes its own rejection, if it has one. */
  lemma RejectionsSingleton(d: Disposition)
    ensures Rejections([d]) == if d.Failed? then [d.rejection] else []
  {
    assert [d][..0] == [];
  }

  /** One more disposition appends its rejection, if it has one. */
  lemma RejectionsSnoc(p: seq<Disposition>, d: Disposition)
    ensures Rejections(p + [d]) == Rejections(p) + if d.Failed? then [d.rejection] else []
  {
    assert (p + [d])[..|p|] == p;
  }

  /** The rejections of two runs one after the other, in that order. */
  lemma {:induction false} RejectionsAppend(a: seq<Disposition>, b: seq<Disposition>)
    ensures Rejections(a + b) == Rejections(a) + Rejections(b)
    decreases |b|
  {
    if b == [] {
      assert a + b == a;
    } else {
      var n := |b| - 1;
      var front, d := b[..n], b[n];
      assert b == front + [d];
      assert a + b == (a + front) + [d];
      RejectionsSnoc(a + front, d);
      RejectionsSnoc(front, d);
      RejectionsAppend(a, front);
    }
  }

  /** One turn of the loop body of `ingestBatch`, as the service writes it. */
  function Tally(response: BatchIngestResponse, d: Disposition): (r: BatchIngestResponse)
    // the rejected counter and the rejection list grow together
    ensures r.rejected - response.rejected == |r.rejections| - |response.rejections| <= 1
    // every counted disposition but IGNORED bumps exactly one of the other four counters
    ensures r.accepted + r.updated + r.deduped + r.rejected ==
      response.accepted + response.updated + response.deduped + response.rejected +
      (if d == Done(Ignored) || d == Done(Rejected) then 0 else 1)
    // so none of those four counters goes down, and the one that moves is the disposition's own
    ensures r.accepted >= response.accepted && r.updated >= response.updated
    ensures r.deduped >= response.deduped && r.rejected >= response.rejected
    ensures r.accepted > response.accepted <==> d == Done(Accepted)
    ensures r.updated > response.updated <==> d == Done(Updated)
    ensures r.deduped > response.deduped <==> d == Done(Deduped)
    ensures r.rejected > response.rejected <==> d.Failed?
    // the appended entry is the disposition's rejection
    ensures r.rejections == response.rejections + (if d.Failed? then [d.rejection] else [])
    // only IGNORED touches the ignored counter
    ensures d != Done(Ignored) ==> r.ignored == response.ignored
  {
    match d
    case Failed(rejection) =>
      response.(rejected := response.rejected + 1, rejections := response.rejections + [rejection])
    case Done(Accepted) => response.(accepted := response.accepted + 1)
    case Done(Updated) => response.(updated := response.updated + 1)
    case Done(Deduped) => response.(deduped := response.deduped + 1)
    case Done(Ignored) => response.(ignored := response.deduped + 1)
    case Done(Rejected) => response
  }

  /** One turn with the IGNORED branch counting its own counter. */
  function IntendedTally(response: BatchIngestResponse, d: Disposition): BatchIngestResponse
  {
    match d
    case Done(Ignored) => response.(ignored := response.ignored + 1)
    case _ => Tally(response, d)
  }

  /** The five counters count their own disposition and the list holds every rejection. */
  function IntendedBatchResponse(ds: seq<Disposition>): (r: BatchIngestResponse)
    ensures r.accepted == Occurrences(ds, Done(Accepted))
    ensures r.updated == Occurrences(ds, Done(Updated))
    ensures r.deduped == Occurrences(ds, Done(Deduped))
    ensures r.ignored == Occurrences(ds, Done(Ignored))
    ensures r.rejections == Rejections(ds) && r.rejected == |r.rejections|
    decreases |ds|
  {
    if ds == [] then EmptyResponse
    else
      var n := |ds| - 1;
      assert ds == ds[..n] + [ds[n]];
      IntendedTally(IntendedBatchResponse(ds[..n]), ds[n])
  }

  /**
   * The response `ingestBatch` returns. It agrees with the intended tally on
   * every counter but `ignored`, which is reset to `deduped + 1` at each
   * IGNORED disposition and otherwise left alone.
   */
  function BatchResponse(ds: seq<Disposition>): (r: BatchIngestResponse)
    ensures r.rejections == Rejections(ds) && r.rejected == |r.rejections|
    decreases |ds|
  {
    if ds == [] then EmptyResponse
    else
      var n := |ds| - 1;
      assert ds == ds[..n] + [ds[n]];
      Tally(BatchResponse(ds[..n]), ds[n])
  }
}
