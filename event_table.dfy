/** The per-node event table of the rumor-routing simulation, as values:
    a table is the sequence of records a node keeps, in insertion order. */
module EventTable {

  datatype Option<T> = None | Some(value: T)

  /** What a node knows about one sensed event: how many hops the agent
      message had made when it passed, and where it went next. */
  datatype Event = Event(eventId: int, jumpsToEvent: int, nextNeighborToEvent: int)

  /** An agent message is an event record plus its remaining time to live.
      Storing it in a table keeps only the record (the C++ slicing copy). */
  datatype AgentMessage = AgentMessage(event: Event, ttl: int)

  /** The "next neighbour" written on the last hop of an agent walk. */
  const NoNext := -1

  /** At most one record per event id. */
  predicate IdsUnique(t: seq<Event>)
  {
    forall i, j :: 0 <= i < j < |t| ==> t[i].eventId != t[j].eventId
  }

  /** Index of the first record for `id`, or |t| when there is none. */
  function FindId(t: seq<Event>, id: int): (k: nat)
    ensures k <= |t|
    ensures k < |t| ==> t[k].eventId == id
    ensures forall j :: 0 <= j < k ==> t[j].eventId != id
  {
    if t == [] then 0
    else if t[0].eventId == id then 0
    else 1 + FindId(t[1..], id)
  }

  /** Whether some record of the table has event id `id`. */
  predicate Contains(t: seq<Event>, id: int)
    ensures Contains(t, id) <==> exists k :: 0 <= k < |t| && t[k].eventId == id
  {
    FindId(t, id) < |t|
  }

  /** The record the table holds for `id`, if any. */
  function Lookup(t: seq<Event>, id: int): (r: Option<Event>)
    ensures r.Some? <==> Contains(t, id)
    ensures r.Some? ==> r.value in t && r.value.eventId == id
  {
    var k := FindId(t, id);
    if k < |t| then Some(t[k]) else None
  }

  /** The table after offering it the candidate record `e`: insert when the
      id is absent, replace (remove, then append) when `e` has strictly
      fewer jumps, leave it alone otherwise. */
  function Upserted(t: seq<Event>, e: Event): seq<Event>
  {
    var k := FindId(t, e.eventId);
    if k == |t| then t + [e]
    else if t[k].jumpsToEvent > e.jumpsToEvent then t[..k] + t[k + 1..] + [e]
    else t
  }

  /** The table after offering it every record of `es`, in order. */
  function UpsertAll(t: seq<Event>, es: seq<Event>): seq<Event>
    decreases |es|
  {
    if es == [] then t else UpsertAll(Upserted(t, es[0]), es[1..])
  }

  /** The records of the table whose id is not `id`, in order. */
  function Without(t: seq<Event>, id: int): seq<Event>
  {
    if t == [] then []
    else (if t[0].eventId == id then [] else [t[0]]) + Without(t[1..], id)
  }

  lemma {:induction false} WithoutAppend(a: seq<Event>, b: seq<Event>, id: int)
    ensures Without(a + b, id) == Without(a, id) + Without(b, id)
  {
    if a == [] {
      assert a + b == b;
    } else {
      assert (a + b)[0] == a[0];
      assert (a + b)[1..] == a[1..] + b;
      WithoutAppend(a[1..], b, id);
    }
  }

  /** With unique ids, the record found for an id is the only one. */
  lemma OnlyRecordFor(t: seq<Event>, id: int, j: int)
    requires IdsUnique(t)
    requires 0 <= j < |t| && t[j].eventId == id
    ensures FindId(t, id) == j
  {
  }

  /** When the id is absent, upsert appends the candidate and keeps the
      existing records as they were. */
  lemma UpsertWhenAbsent(t: seq<Event>, e: Event)
    requires !Contains(t, e.eventId)
    ensures Upserted(t, e) == t + [e]
  {
  }

  /** A stored record with no more jumps than the candidate wins: the table
      is unchanged, whatever the candidate's next neighbour is. */
  lemma UpsertKeepsNoWorse(t: seq<Event>, e: Event)
    requires Lookup(t, e.eventId).Some?
    requires Lookup(t, e.eventId).value.jumpsToEvent <= e.jumpsToEvent
    ensures Upserted(t, e) == t
  {
  }

  /** A stored record with strictly more jumps is removed and the candidate
      appended; the other records keep their order. */
  lemma UpsertReplacesWorse(t: seq<Event>, e: Event)
    requires Lookup(t, e.eventId).Some?
    requires Lookup(t, e.eventId).value.jumpsToEvent > e.jumpsToEvent
    ensures exists k :: 0 <= k < |t| && t[k] == Lookup(t, e.eventId).value &&
                        Upserted(t, e) == t[..k] + t[k + 1..] + [e]
  {
    var k := FindId(t, e.eventId);
    assert t[k] == Lookup(t, e.eventId).value;
  }

  /** Upsert keeps at most one record per id. */
  lemma UpsertKeepsIdsUnique(t: seq<Event>, e: Event)
    requires IdsUnique(t)
    ensures IdsUnique(Upserted(t, e))
  {
    var k := FindId(t, e.eventId);
    var r := Upserted(t, e);
    if k < |t| && t[k].jumpsToEvent > e.jumpsToEvent {
      var rest := t[..k] + t[k + 1..];
      assert |rest| == |t| - 1;
      forall i | 0 <= i < |rest|
        ensures rest[i] == t[if i < k then i else i + 1]
      {
      }
      forall i, j | 0 <= i < j < |r|
        ensures r[i].eventId != r[j].eventId
      {
        if j == |r| - 1 {
          var ti := if i < k then i else i + 1;
          assert r[i] == t[ti] && ti != k;
        }
      }
    }
  }

  lemma WithoutDropsOwnId(x: Event)
    ensures Without([x], x.eventId) == []
  {
    assert [x][1..] == [];
  }

  /** Records of every other id are untouched, in content and order. */
  lemma UpsertLeavesOtherIds(t: seq<Event>, e: Event)
    ensures Without(Upserted(t, e), e.eventId) == Without(t, e.eventId)
  {
    var id := e.eventId;
    var k := FindId(t, id);
    WithoutDropsOwnId(e);
    if k == |t| {
      WithoutAppend(t, [e], id);
    } else if t[k].jumpsToEvent > e.jumpsToEvent {
      var front, back := t[..k], t[k + 1..];
      assert t == front + [t[k]] + back;
      WithoutDropsOwnId(t[k]);
      WithoutAppend(front + [t[k]], back, id);
      WithoutAppend(front, [t[k]], id);
      WithoutAppend(front + back, [e], id);
      WithoutAppend(front, back, id);
    }
  }

  /** Lookups of other ids see the same record after upsert. */
  lemma UpsertLookupOther(t: seq<Event>, e: Event, id: int)
    requires id != e.eventId
    ensures Lookup(Upserted(t, e), id) == Lookup(t, id)
  {
    var k := FindId(t, e.eventId);
    var r := Upserted(t, e);
    var m := FindId(t, id);
    if k < |t| && t[k].jumpsToEvent > e.jumpsToEvent {
      assert m != k;
      var rest := t[..k] + t[k + 1..];
      forall i | 0 <= i < |rest|
        ensures rest[i] == t[if i < k then i else i + 1]
      {
      }
      // the first record for id moves one place left when it follows k
      var m' := if m < k then m else m - 1;
      if m < |t| {
        assert r[m'] == t[m];
        forall j | 0 <= j < m' ensures r[j].eventId != id {
          assert r[j] == t[if j < k then j else j + 1];
        }
      } else {
        forall j | 0 <= j < |r| ensures r[j].eventId != id {
          if j < |rest| {
            assert r[j] == t[if j < k then j else j + 1];
          }
        }
      }
    } else if k == |t| {
      if m == |t| {
        assert r[|t|] == e;
      } else {
        assert r[m] == t[m];
      }
    }
  }

  /** The record kept for the candidate's id has min(old, candidate) jumps;
      on a tie the stored record stays. */
  lemma UpsertLookupSame(t: seq<Event>, e: Event)
    requires IdsUnique(t)
    ensures Lookup(Upserted(t, e), e.eventId) ==
            match Lookup(t, e.eventId)
            case None => Some(e)
            case Some(r) => if e.jumpsToEvent < r.jumpsToEvent then Some(e) else Some(r)
  {
    var id := e.eventId;
    var k := FindId(t, id);
    var r := Upserted(t, e);
    if k == |t| {
      assert r[|t|] == e;
      assert FindId(r, id) == |t|;
    } else if t[k].jumpsToEvent > e.jumpsToEvent {
      UpsertKeepsIdsUnique(t, e);
      assert r[|r| - 1] == e;
      OnlyRecordFor(r, id, |r| - 1);
    }
  }

  /** Two candidates with equal jumps: the second never alters the table,
      even when it names a different next neighbour. */
  lemma UpsertTieKeepsFirst(t: seq<Event>, e1: Event, e2: Event)
    requires IdsUnique(t)
    requires e1.eventId == e2.eventId && e1.jumpsToEvent == e2.jumpsToEvent
    ensures Upserted(Upserted(t, e1), e2) == Upserted(t, e1)
  {
    UpsertLookupSame(t, e1);
    UpsertKeepsNoWorse(Upserted(t, e1), e2);
  }

  /** No upsert makes a stored record for any id disappear or get worse. */
  lemma UpsertNeverWorse(t: seq<Event>, e: Event, id: int)
    requires IdsUnique(t)
    requires Contains(t, id)
    ensures Contains(Upserted(t, e), id)
    ensures Lookup(Upserted(t, e), id).value.jumpsToEvent <= Lookup(t, id).value.jumpsToEvent
  {
    if id == e.eventId {
      UpsertLookupSame(t, e);
    } else {
      UpsertLookupOther(t, e, id);
    }
  }

  /** A sequence of upserts keeps at most one record per id. */
  lemma {:induction false} UpsertAllKeepsIdsUnique(t: seq<Event>, es: seq<Event>)
    requires IdsUnique(t)
    ensures IdsUnique(UpsertAll(t, es))
    decreases |es|
  {
    if es != [] {
      UpsertKeepsIdsUnique(t, es[0]);
      UpsertAllKeepsIdsUnique(Upserted(t, es[0]), es[1..]);
    }
  }

  /** One upsert step, seen from the record held for `id`. */
  lemma UpsertStepFor(t: seq<Event>, e: Event, id: int)
    requires IdsUnique(t)
    ensures var r, r1 := Lookup(t, id), Lookup(Upserted(t, e), id);
      && (r1.None? <==> r.None? && e.eventId != id)
      && (e.eventId == id ==> r1.value.jumpsToEvent <= e.jumpsToEvent)
      && (r.Some? ==> r1 == r || (r1 == Some(e) && e.jumpsToEvent < r.value.jumpsToEvent))
      && (r.None? && r1.Some? ==> r1 == Some(e))
  {
    if e.eventId == id {
      UpsertLookupSame(t, e);
    } else {
      UpsertLookupOther(t, e, id);
    }
  }

  /** After a sequence of upserts the table holds a record for `id` exactly
      when it held one before or some candidate carried `id`. */
  lemma {:induction false} UpsertAllPresence(t: seq<Event>, es: seq<Event>, id: int)
    requires IdsUnique(t)
    ensures Contains(UpsertAll(t, es), id) <==>
            Contains(t, id) || exists j :: 0 <= j < |es| && es[j].eventId == id
    decreases |es|
  {
    if es != [] {
      UpsertStepFor(t, es[0], id);
      UpsertKeepsIdsUnique(t, es[0]);
      UpsertAllPresence(Upserted(t, es[0]), es[1..], id);
      if exists j :: 0 <= j < |es| && es[j].eventId == id {
        var j :| 0 <= j < |es| && es[j].eventId == id;
        if j > 0 { assert es[1..][j - 1] == es[j]; }
      }
    }
  }

  /** The stored jumps for `id` never increase along a sequence of upserts,
      end at or below every candidate's jumps for `id`, and the record only
      ever changes to a strictly better one. */
  lemma {:induction false} UpsertAllMinimum(t: seq<Event>, es: seq<Event>, id: int)
    requires IdsUnique(t)
    ensures var r := Lookup(UpsertAll(t, es), id);
      && (r.Some? ==> forall j :: 0 <= j < |es| && es[j].eventId == id ==>
                        r.value.jumpsToEvent <= es[j].jumpsToEvent)
      && (Contains(t, id) ==>
            r.Some? && (r == Lookup(t, id) || r.value.jumpsToEvent < Lookup(t, id).value.jumpsToEvent))
    decreases |es|
  {
    if es != [] {
      var t1 := Upserted(t, es[0]);
      UpsertStepFor(t, es[0], id);
      UpsertKeepsIdsUnique(t, es[0]);
      UpsertAllMinimum(t1, es[1..], id);
      var r := Lookup(UpsertAll(t, es), id);
      if r.Some? {
        forall j | 0 <= j < |es| && es[j].eventId == id
          ensures r.value.jumpsToEvent <= es[j].jumpsToEvent
        {
          if j > 0 { assert es[1..][j - 1] == es[j]; }
        }
      }
    }
  }

  /** When the record held for `id` at the end came from the sequence,
      every earlier candidate for `id` was strictly worse: among equal
      minima the first one wins. */
  lemma {:induction false} UpsertAllFirstWins(t: seq<Event>, es: seq<Event>, id: int)
    requires IdsUnique(t)
    ensures var r := Lookup(UpsertAll(t, es), id);
      r.Some? && r != Lookup(t, id) ==>
        exists i :: 0 <= i < |es| && es[i] == r.value &&
          forall j :: 0 <= j < i && es[j].eventId == id ==> es[j].jumpsToEvent > r.value.jumpsToEvent
    decreases |es|
  {
    if es != [] {
      var t1 := Upserted(t, es[0]);
      UpsertStepFor(t, es[0], id);
      UpsertKeepsIdsUnique(t, es[0]);
      UpsertAllFirstWins(t1, es[1..], id);
      UpsertAllMinimum(t1, es[1..], id);
      var r := Lookup(UpsertAll(t, es), id);
      var r1 := Lookup(t1, id);
      if r.Some? && r != Lookup(t, id) {
        if r != r1 {
          var i :| 0 <= i < |es[1..]| && es[1..][i] == r.value &&
            forall j :: 0 <= j < i && es[1..][j].eventId == id ==> es[1..][j].jumpsToEvent > r.value.jumpsToEvent;
          forall j | 0 <= j < i + 1 && es[j].eventId == id
            ensures es[j].jumpsToEvent > r.value.jumpsToEvent
          {
            if j > 0 { assert es[j] == es[1..][j - 1]; }
          }
          assert es[i + 1] == r.value;
        } else {
          assert es[0] == r.value;
        }
      }
    }
  }
}
