/**
 * Windowed health statistics for one machine: the records whose event time
 * lies in the half-open window [start, end), their count, their defect sum
 * without the -1 sentinel, the defect rate per hour and the status.
 *
 * `rows` is the content of the event store as the repository lists it; the
 * range query is the filter `InWindow` over it. The rate is kept as an exact
 * `real` (the service computes it in `double`).
 */
module StatsService {
  import opened Wrappers
  import opened EventModel

  /** The sentinel defect count meaning "not measured". */
  const UnknownDefects: int := -1

  /** Seconds per hour, the divisor of the window length. */
  const SecondsPerHour: int := 3600

  /** The rate at and above which a machine is in Warning. */
  const WarningRate: real := 2.0

  datatype Status = Healthy | Warning
  {
    function Text(): string
    {
      match this
      case Healthy => "Healthy"
      case Warning => "Warning"
    }
  }

  datatype StatsError = InvalidTimeWindow

  datatype StatsResponse = StatsResponse(
    machineId: string,
    start: Instant,
    end: Instant,
    eventsCount: int,
    defectsCount: int,
    avgDefectRate: real,
    status: Status)

  /** No record is listed twice. */
  ghost predicate Distinct(rows: seq<EventEntity>)
  {
    forall i, j :: 0 <= i < j < |rows| ==> rows[i] != rows[j]
  }

  /** `rows` lists every stored record once and nothing else, as the repository's listing does. */
  ghost predicate Lists(rows: seq<EventEntity>, store: Store)
  {
    Distinct(rows) && forall e :: e in rows <==> e in store.Values
  }

  /** The derived query's condition: this machine, start included, end excluded. */
  predicate InWindow(e: EventEntity, machineId: string, start: Instant, end: Instant)
  {
    e.machineId == machineId && start <= e.eventTime && e.eventTime < end
  }

  /** The range query over the listed records, keeping their order and multiplicity. */
  function SelectWindow(rows: seq<EventEntity>, machineId: string, start: Instant, end: Instant): (sel: seq<EventEntity>)
    ensures forall e :: e in sel <==> e in rows && InWindow(e, machineId, start, end)
    ensures |sel| <= |rows|
    decreases |rows|
  {
    if rows == [] then []
    else
      var rest := SelectWindow(rows[1..], machineId, start, end);
      if InWindow(rows[0], machineId, start, end) then [rows[0]] + rest else rest
  }

  /** What one record adds to the defect sum: nothing for the sentinel. */
  function Contribution(e: EventEntity): int
  {
    if e.defectCount != UnknownDefects then e.defectCount else 0
  }

  /** The defect sum over records, skipping the sentinel. */
  function DefectsSum(events: seq<EventEntity>): int
    decreases |events|
  {
    if events == [] then 0 else Contribution(events[0]) + DefectsSum(events[1..])
  }

  /** `Duration.between(start, end).toSeconds()`: whole seconds, rounded down. */
  function WholeSecondsBetween(start: Instant, end: Instant): (seconds: int)
    ensures start <= end ==> seconds >= 0
    ensures seconds * NanosPerSecond <= end - start < (seconds + 1) * NanosPerSecond
  {
    (end - start) / NanosPerSecond
  }

  /** Defects per hour over a window of `seconds`; zero for a window under one second. */
  function AvgDefectRate(defects: int, seconds: int): (rate: real)
    ensures seconds == 0 ==> rate == 0.0
    ensures seconds != 0 ==> rate * (seconds as real) == (defects * SecondsPerHour) as real
  {
    var windowHours := (seconds as real) / (SecondsPerHour as real);
    if windowHours == 0.0 then 0.0 else (defects as real) / windowHours
  }

  function Classify(rate: real): Status
  {
    if rate < WarningRate then Healthy else Warning
  }

  /** `getStats` on the listed records. */
  function GetStats(rows: seq<EventEntity>, machineId: string, start: Instant, end: Instant)
    : (r: Result<StatsResponse, StatsError>)
    ensures r.Failure? <==> start >= end
    ensures r.Success? ==> r.value.machineId == machineId && r.value.start == start && r.value.end == end
    ensures r.Success? ==> r.value.eventsCount == |SelectWindow(rows, machineId, start, end)|
    ensures r.Success? ==> r.value.defectsCount == DefectsSum(SelectWindow(rows, machineId, start, end))
    ensures r.Success? ==>
      var seconds := WholeSecondsBetween(start, end);
      (r.value.status == Healthy <==> seconds == 0 || r.value.defectsCount * SecondsPerHour < 2 * seconds)
    ensures r.Success? ==>
      var seconds := WholeSecondsBetween(start, end);
      r.value.avgDefectRate ==
        if seconds == 0 then 0.0 else (r.value.defectsCount as real) * (SecondsPerHour as real) / (seconds as real)
  {
    if !(start < end) then Failure(InvalidTimeWindow)
    else
      var events := SelectWindow(rows, machineId, start, end);
      var eventsCount := |events|;
      var defectsCount := DefectsSum(events);
      var seconds := WholeSecondsBetween(start, end);
      var avgDefectRate := AvgDefectRate(defectsCount, seconds);
      HealthyIffBelowThreshold(defectsCount, seconds);
      RatePerHour(defectsCount, seconds);
      Success(StatsResponse(machineId, start, end, eventsCount, defectsCount, avgDefectRate, Classify(avgDefectRate)))
  }

  /**
   * The status in integers: Healthy exactly when the window is under one
   * second or defects * 3600 < 2 * seconds.
   */
  lemma HealthyIffBelowThreshold(defects: int, seconds: int)
    requires seconds >= 0
    ensures Classify(AvgDefectRate(defects, seconds)) == Healthy <==> seconds == 0 || defects * SecondsPerHour < 2 * seconds
  {
    if seconds > 0 {
      var d, s := defects as real, seconds as real;
      var h := s / 3600.0;
      assert h > 0.0;
      var rate := d / h;
      assert rate * h == d;
      // rate < 2 <==> rate * h < 2 * h, then clear the division by 3600
      ScaleLess(rate, 2.0, h);
      ScaleLess(d, 2.0 * h, 3600.0);
      assert 2.0 * h * 3600.0 == 2.0 * s;
      assert (d * 3600.0 < 2.0 * s) <==> (defects * 3600 < 2 * seconds);
    }
  }

  /** The rate is the defects per hour of whole seconds: defects * 3600 / seconds. */
  lemma RatePerHour(defects: int, seconds: int)
    ensures AvgDefectRate(defects, seconds) ==
      if seconds == 0 then 0.0 else (defects as real) * (SecondsPerHour as real) / (seconds as real)
  {
    if seconds != 0 {
      var d, s := defects as real, seconds as real;
      assert (s / 3600.0) * (d * 3600.0 / s) == d;
    }
  }

  /** Multiplying both sides by a positive factor keeps a strict order. */
  lemma ScaleLess(x: real, y: real, k: real)
    requires k > 0.0
    ensures x < y <==> x * k < y * k
  {
    if x < y {
      assert (y - x) * k > 0.0;
    } else {
      assert (x - y) * k >= 0.0;
    }
  }
}
