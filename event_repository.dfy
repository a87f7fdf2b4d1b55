/**
 * The keyed event store the ingestion service reads and writes through:
 * `findById` and `save` (an upsert by id).
 */
module EventStore {
  import opened Wrappers
  import opened EventModel

  class EventRepository {
    var events: Store

    ghost predicate Valid()
      reads this
    {
      KeyedById(events)
    }

    constructor ()
      ensures Valid() && events == map[]
    {
      events := map[];
    }

    /** `findById`: the record stored under `id`, if any. */
    method FindById(id: string) returns (found: Option<EventEntity>)
      requires Valid()
      ensures found.None? <==> id !in events
      ensures found.Some? ==> found.value == events[id] && found.value.eventId == id
    {
      found := if id in events then Some(events[id]) else None;
    }

    /** `save`: insert the record, or replace the one with the same id. */
    method Save(e: EventEntity)
      requires Valid()
      modifies this
      ensures Valid()
      ensures events == old(events)[e.eventId := e]
    {
      events := events[e.eventId := e];
    }
  }
}
