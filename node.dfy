/** A sensor node: its id, its neighbour list and its event table. */
module Nodes {
  import opened EventTable

  class Node {
    const id: int
    var neighbors: seq<int>
    var eventsTable: seq<Event>

    /** The node keeps at most one record per event id. */
    ghost predicate Valid()
      reads this
    {
      IdsUnique(eventsTable)
    }

    constructor (id: int)
      ensures this.id == id && neighbors == [] && eventsTable == []
      ensures Valid()
    {
      this.id := id;
      neighbors := [];
      eventsTable := [];
    }

    /** Insert-or-improve: scan the table for the candidate's id; a stored
        record with strictly more jumps is erased and the candidate
        appended, a missing id appends the candidate. */
    method CheckEventTable(event: Event)
      requires Valid()
      modifies this`eventsTable
      ensures Valid()
      ensures eventsTable == Upserted(old(eventsTable), event)
    {
      UpsertKeepsIdsUnique(eventsTable, event);
      ghost var t := eventsTable;
      ghost var k0 := FindId(t, event.eventId);
      var exist := false;
      var i := 0;
      while i < |eventsTable|
        invariant eventsTable == t
        invariant 0 <= i <= |t|
        invariant exist <==> k0 < i
        invariant exist ==> t[k0].jumpsToEvent <= event.jumpsToEvent
      {
        if eventsTable[i].eventId == event.eventId {
          OnlyRecordFor(t, event.eventId, i);
          exist := true;
          if eventsTable[i].jumpsToEvent > event.jumpsToEvent {
            eventsTable := eventsTable[..i] + eventsTable[i + 1..];
            eventsTable := eventsTable + [event];
            return;
          }
        }
        i := i + 1;
      }
      if !exist {
        eventsTable := eventsTable + [event];
      }
    }
  }
}
