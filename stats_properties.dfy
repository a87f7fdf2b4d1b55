/**
 * Properties of the windowed statistics: the window's boundaries, what one
 * more record adds (and what the sentinel does not), the sub-second window,
 * and independence from the order in which records are listed.
 */
module StatsProperties {
  import opened Wrappers
  import opened EventModel
  import opened StatsService

  lemma {:induction false} SelectWindowAppend(a: seq<EventEntity>, b: seq<EventEntity>, machineId: string, start: Instant, end: Instant)
    ensures SelectWindow(a + b, machineId, start, end) == SelectWindow(a, machineId, start, end) + SelectWindow(b, machineId, start, end)
    decreases |a|
  {
    if a != [] {
      assert (a + b)[1..] == a[1..] + b;
      SelectWindowAppend(a[1..], b, machineId, start, end);
    } else {
      assert a + b == b;
    }
  }

  lemma {:induction false} DefectsSumAppend(a: seq<EventEntity>, b: seq<EventEntity>)
    ensures DefectsSum(a + b) == DefectsSum(a) + DefectsSum(b)
    decreases |a|
  {
    if a != [] {
      assert (a + b)[1..] == a[1..] + b;
      DefectsSumAppend(a[1..], b);
    } else {
      assert a + b == b;
    }
  }

  /**
   * One more stored record: a record in the window adds one to the count and
   * its defect count to the sum, except the sentinel -1 which adds nothing to
   * the sum (any other value, negative ones included, is added); a record
   * outside the window changes nothing.
   */
  lemma OneMoreRecord(rows: seq<EventEntity>, e: EventEntity, machineId: string, start: Instant, end: Instant)
    requires start < end
    ensures var before := GetStats(rows, machineId, start, end).value;
      var after := GetStats(rows + [e], machineId, start, end).value;
      if InWindow(e, machineId, start, end) then
        after.eventsCount == before.eventsCount + 1 &&
        after.defectsCount == before.defectsCount + (if e.defectCount == -1 then 0 else e.defectCount)
      else
        after == before
  {
    SelectWindowAppend(rows, [e], machineId, start, end);
    var sel := SelectWindow(rows, machineId, start, end);
    assert [e][1..] == [];
    if InWindow(e, machineId, start, end) {
      assert SelectWindow([e], machineId, start, end) == [e];
      assert DefectsSum([e]) == Contribution(e);
      DefectsSumAppend(sel, [e]);
    } else {
      assert sel + [] == sel;
    }
  }

  /** The sentinel case of the service's test: the record is counted, its defects are not. */
  lemma SentinelCountedNotSummed(rows: seq<EventEntity>, e: EventEntity, start: Instant, end: Instant)
    requires start < end && start <= e.eventTime < end && e.defectCount == -1
    ensures var before := GetStats(rows, e.machineId, start, end).value;
      var after := GetStats(rows + [e], e.machineId, start, end).value;
      after.eventsCount == before.eventsCount + 1 && after.defectsCount == before.defectsCount
  {
    OneMoreRecord(rows, e, e.machineId, start, end);
  }

  /** The window includes its start and excludes its end. */
  lemma WindowStartIncludedEndExcluded(e: EventEntity, start: Instant, end: Instant)
    requires start < end
    ensures GetStats([e.(eventTime := start)], e.machineId, start, end).value.eventsCount == 1
    ensures GetStats([e.(eventTime := end)], e.machineId, start, end).value.eventsCount == 0
  {
    assert [e.(eventTime := start)][1..] == [];
    assert [e.(eventTime := end)][1..] == [];
  }

  /** A window shorter than one second has rate zero and is Healthy, whatever the defects. */
  lemma SubSecondWindowIsHealthy(rows: seq<EventEntity>, machineId: string, start: Instant, end: Instant)
    requires start < end < start + NanosPerSecond
    ensures GetStats(rows, machineId, start, end).value.avgDefectRate == 0.0
    ensures GetStats(rows, machineId, start, end).value.status == Healthy
  {
  }

  /** Taking one record out of a listing takes its contribution out of the sum. */
  lemma DefectsSumRemove(b: seq<EventEntity>, j: int)
    requires 0 <= j < |b|
    ensures DefectsSum(b) == Contribution(b[j]) + DefectsSum(b[..j] + b[j + 1..])
  {
    var p, x, q := b[..j], b[j], b[j + 1..];
    assert b == (p + [x]) + q;
    DefectsSumAppend(p + [x], q);
    DefectsSumAppend(p, [x]);
    DefectsSumAppend(p, q);
    assert DefectsSum([x]) == Contribution(x) by {
      assert [x][1..] == [];
    }
  }

  /** Taking one record out of a listing takes it out of the multiset. */
  lemma MultisetRemove(b: seq<EventEntity>, j: int)
    requires 0 <= j < |b|
    ensures multiset(b[..j] + b[j + 1..]) == multiset(b) - multiset{b[j]}
  {
    assert b == b[..j] + [b[j]] + b[j + 1..];
    assert multiset(b) == multiset(b[..j]) + multiset{b[j]} + multiset(b[j + 1..]);
  }

  /** The defect sum depends only on which records there are, not on their order. */
  lemma {:induction false} DefectsSumPermutation(a: seq<EventEntity>, b: seq<EventEntity>)
    requires multiset(a) == multiset(b)
    ensures DefectsSum(a) == DefectsSum(b)
    decreases |a|
  {
    if a != [] {
      assert a[0] in multiset(b);
      var j :| 0 <= j < |b| && b[j] == a[0];
      var rest := b[..j] + b[j + 1..];
      MultisetRemove(b, j);
      assert a == [a[0]] + a[1..];
      assert multiset(a[1..]) == multiset(a) - multiset{a[0]};
      DefectsSumPermutation(a[1..], rest);
      DefectsSumRemove(b, j);
    }
  }

  /** The range query keeps every record of the window as often as it is listed, and no other. */
  lemma {:induction false} SelectWindowMultiplicity(rows: seq<EventEntity>, machineId: string, start: Instant, end: Instant)
    ensures forall e :: (multiset(SelectWindow(rows, machineId, start, end))[e] ==
                         if InWindow(e, machineId, start, end) then multiset(rows)[e] else 0)
    decreases |rows|
  {
    if rows != [] {
      SelectWindowMultiplicity(rows[1..], machineId, start, end);
      assert rows == [rows[0]] + rows[1..];
      assert multiset(rows) == multiset{rows[0]} + multiset(rows[1..]);
    }
  }

  /** The statistics do not depend on the order in which the store lists its records. */
  lemma StatsIgnoreRowOrder(a: seq<EventEntity>, b: seq<EventEntity>, machineId: string, start: Instant, end: Instant)
    requires multiset(a) == multiset(b)
    ensures GetStats(a, machineId, start, end) == GetStats(b, machineId, start, end)
  {
    var sa := SelectWindow(a, machineId, start, end);
    var sb := SelectWindow(b, machineId, start, end);
    SelectWindowMultiplicity(a, machineId, start, end);
    SelectWindowMultiplicity(b, machineId, start, end);
    assert multiset(sa) == multiset(sb);
    assert |sa| == |multiset(sa)| == |multiset(sb)| == |sb|;
    DefectsSumPermutation(sa, sb);
  }

  /** Selecting from a listing without repeats gives a selection without repeats. */
  lemma {:induction false} SelectWindowDistinct(rows: seq<EventEntity>, machineId: string, start: Instant, end: Instant)
    requires Distinct(rows)
    ensures Distinct(SelectWindow(rows, machineId, start, end))
    decreases |rows|
  {
    if rows != [] {
      assert Distinct(rows[1..]);
      SelectWindowDistinct(rows[1..], machineId, start, end);
      assert rows[0] !in rows[1..];
    }
  }

  /** A sequence without repeats has as many elements as it has distinct ones. */
  lemma {:induction false} DistinctCardinality(s: seq<EventEntity>)
    requires Distinct(s)
    ensures |set x | x in s| == |s|
    decreases |s|
  {
    if s != [] {
      assert Distinct(s[1..]);
      DistinctCardinality(s[1..]);
      assert s[0] !in s[1..];
      assert (set x | x in s) == {s[0]} + (set x | x in s[1..]);
    }
  }

  /** In a store keyed by id, distinct ids hold distinct records. */
  lemma {:induction false} RecordsPerId(ids: set<string>, store: Store)
    requires KeyedById(store) && ids <= store.Keys
    ensures |set id | id in ids :: store[id]| == |ids|
    decreases ids
  {
    if ids != {} {
      var id :| id in ids;
      var rest := ids - {id};
      RecordsPerId(rest, store);
      assert store[id] !in (set i | i in rest :: store[i]);
      assert (set i | i in ids :: store[i]) == (set i | i in rest :: store[i]) + {store[id]};
    }
  }

  /**
   * On a listing of the store, `eventsCount` is the number of stored records
   * of the machine whose event time lies in the window: one per id.
   */
  lemma StatsCountStoredRecords(rows: seq<EventEntity>, store: Store, machineId: string, start: Instant, end: Instant)
    requires KeyedById(store) && Lists(rows, store) && start < end
    ensures GetStats(rows, machineId, start, end).value.eventsCount ==
      |set id | id in store && InWindow(store[id], machineId, start, end)|
  {
    var sel := SelectWindow(rows, machineId, start, end);
    SelectWindowDistinct(rows, machineId, start, end);
    DistinctCardinality(sel);
    var ids := set id | id in store && InWindow(store[id], machineId, start, end);
    RecordsPerId(ids, store);
    forall x | x in sel
      ensures x in (set id | id in ids :: store[id])
    {
      assert x in store.Values;
      var id :| id in store && store[id] == x;
      assert id in ids;
    }
    assert (set x | x in sel) == (set id | id in ids :: store[id]);
  }
}
