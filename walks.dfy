/** The two random walks as functions of an injected pick sequence:
    `picks[k]` is the index, in the current node's neighbour list, drawn
    at hop k. `nbrs[v]` is node v's neighbour list and `tables[v]` its
    event table. */
module Walks {
  import opened EventTable

  /** Hops are counted down from this time to live to 0, so a walk makes
      CONST_TTL + 1 hops. */
  const CONST_TTL := 15

  /** Every hop of the walk can draw its pick: the node is valid and the
      pick indexes its neighbour list. The last hop draws a pick too but
      does not move, so its neighbour need not be a valid node. */
  predicate WalkDefined(nbrs: seq<seq<int>>, curr: int, picks: seq<nat>)
    decreases |picks|
  {
    || picks == []
    || (&& 0 <= curr < |nbrs|
        && picks[0] < |nbrs[curr]|
        && WalkDefined(nbrs, if |picks| == 1 then NoNext else nbrs[curr][picks[0]], picks[1..]))
  }

  /** One hop of the agent walk: the node it is at and the message it
      offers that node's table. */
  datatype Hop = Hop(node: int, message: AgentMessage)

  /** The hops of an agent walk from `curr`, which has already made `jumps`
      hops and has |picks| - 1 hops of life left. */
  function AgentHops(nbrs: seq<seq<int>>, curr: int, eventName: int, jumps: int, picks: seq<nat>): (hops: seq<Hop>)
    requires WalkDefined(nbrs, curr, picks)
    ensures |hops| == |picks|
    ensures HopsInRange(hops, |nbrs|)
    decreases |picks|
  {
    if picks == [] then []
    else
      var ttl := |picks| - 1;
      var next := if ttl == 0 then NoNext else nbrs[curr][picks[0]];
      [Hop(curr, AgentMessage(Event(eventName, jumps, next), ttl))]
        + AgentHops(nbrs, next, eventName, jumps + 1, picks[1..])
  }

  /** Hop k of an agent walk is at a valid node whose neighbour list the
      pick indexes, offers a record for the event with `jumps + k` jumps,
      and has |picks| - 1 - k hops of life left. */
  lemma {:induction false} AgentHopsRecords(nbrs: seq<seq<int>>, curr: int, eventName: int, jumps: int, picks: seq<nat>)
    requires WalkDefined(nbrs, curr, picks)
    ensures var hops := AgentHops(nbrs, curr, eventName, jumps, picks);
      && (|hops| > 0 ==> hops[0].node == curr)
      && forall k :: 0 <= k < |hops| ==>
        && 0 <= hops[k].node < |nbrs|
        && picks[k] < |nbrs[hops[k].node]|
        && hops[k].message.ttl == |picks| - 1 - k
        && hops[k].message.event.eventId == eventName
        && hops[k].message.event.jumpsToEvent == jumps + k
    decreases |picks|
  {
    if picks != [] {
      var next := if |picks| == 1 then NoNext else nbrs[curr][picks[0]];
      AgentHopsRecords(nbrs, next, eventName, jumps + 1, picks[1..]);
      var hops := AgentHops(nbrs, curr, eventName, jumps, picks);
      var rest := AgentHops(nbrs, next, eventName, jumps + 1, picks[1..]);
      assert forall k :: 1 <= k < |hops| ==> hops[k] == rest[k - 1] && picks[k] == picks[1..][k - 1];
    }
  }

  /** Each hop but the last points at the neighbour it picked, which is
      where the next hop happens; the last hop points at no one. */
  lemma {:induction false} AgentHopsLinks(nbrs: seq<seq<int>>, curr: int, eventName: int, jumps: int, picks: seq<nat>)
    requires WalkDefined(nbrs, curr, picks)
    ensures var hops := AgentHops(nbrs, curr, eventName, jumps, picks);
      && (|hops| > 0 ==> hops[|hops| - 1].message.event.nextNeighborToEvent == NoNext)
      && forall k :: 0 <= k < |hops| - 1 ==>
        && 0 <= hops[k].node < |nbrs| && picks[k] < |nbrs[hops[k].node]|
        && hops[k].message.event.nextNeighborToEvent == nbrs[hops[k].node][picks[k]]
        && hops[k + 1].node == hops[k].message.event.nextNeighborToEvent
    decreases |picks|
  {
    if picks != [] {
      var next := if |picks| == 1 then NoNext else nbrs[curr][picks[0]];
      AgentHopsLinks(nbrs, next, eventName, jumps + 1, picks[1..]);
      AgentHopsRecords(nbrs, next, eventName, jumps + 1, picks[1..]);
      var hops := AgentHops(nbrs, curr, eventName, jumps, picks);
      var rest := AgentHops(nbrs, next, eventName, jumps + 1, picks[1..]);
      assert forall k :: 1 <= k < |hops| ==> hops[k] == rest[k - 1] && picks[k] == picks[1..][k - 1];
    }
  }

  /** Hop k of an agent walk from `start`, seen on its own. */
  lemma AgentHopAt(nbrs: seq<seq<int>>, start: int, eventName: int, picks: seq<nat>, k: int)
    requires WalkDefined(nbrs, start, picks)
    requires 0 <= k < |picks|
    ensures var hops := AgentHops(nbrs, start, eventName, 0, picks);
      && 0 <= hops[k].node < |nbrs| && picks[k] < |nbrs[hops[k].node]|
      && (k == 0 ==> hops[k].node == start)
      && hops[k].message == AgentMessage(
           Event(eventName, k, if k == |picks| - 1 then NoNext else nbrs[hops[k].node][picks[k]]),
           |picks| - 1 - k)
      && (k < |picks| - 1 ==> hops[k + 1].node == nbrs[hops[k].node][picks[k]])
  {
    AgentHopsRecords(nbrs, start, eventName, 0, picks);
    AgentHopsLinks(nbrs, start, eventName, 0, picks);
  }

  predicate HopsInRange(hops: seq<Hop>, n: int)
  {
    forall k :: 0 <= k < |hops| ==> 0 <= hops[k].node < n
  }

  /** The tables after every hop has offered its record to the table of
      the node it is at, in hop order. */
  function ApplyHops(tables: seq<seq<Event>>, hops: seq<Hop>): (r: seq<seq<Event>>)
    requires HopsInRange(hops, |tables|)
    ensures |r| == |tables|
    decreases |hops|
  {
    if hops == [] then tables
    else
      var before := ApplyHops(tables, hops[..|hops| - 1]);
      var h := hops[|hops| - 1];
      before[h.node := Upserted(before[h.node], h.message.event)]
  }

  /** Applying one more hop updates the table of that hop's node. */
  lemma ApplyHopsStep(tables: seq<seq<Event>>, hops: seq<Hop>, k: int)
    requires HopsInRange(hops, |tables|)
    requires 0 <= k < |hops|
    ensures HopsInRange(hops[..k], |tables|) && HopsInRange(hops[..k + 1], |tables|)
    ensures var before := ApplyHops(tables, hops[..k]);
      ApplyHops(tables, hops[..k + 1]) == before[hops[k].node := Upserted(before[hops[k].node], hops[k].message.event)]
  {
    var p := hops[..k + 1];
    assert HopsInRange(hops[..k], |tables|) && HopsInRange(p, |tables|);
    assert p != [] && p[..|p| - 1] == hops[..k] && p[|p| - 1] == hops[k];
  }

  predicate AllIdsUnique(tables: seq<seq<Event>>)
  {
    forall v :: 0 <= v < |tables| ==> IdsUnique(tables[v])
  }

  /** Applying hops keeps at most one record per id in every table. */
  lemma {:induction false} ApplyHopsKeepsIdsUnique(tables: seq<seq<Event>>, hops: seq<Hop>)
    requires HopsInRange(hops, |tables|)
    requires AllIdsUnique(tables)
    ensures AllIdsUnique(ApplyHops(tables, hops))
    decreases |hops|
  {
    if hops != [] {
      var before := ApplyHops(tables, hops[..|hops| - 1]);
      ApplyHopsKeepsIdsUnique(tables, hops[..|hops| - 1]);
      var h := hops[|hops| - 1];
      UpsertKeepsIdsUnique(before[h.node], h.message.event);
    }
  }

  /** A table that holds a record for `id` keeps holding one, never with
      more jumps, whatever hops follow. */
  lemma {:induction false} ApplyHopsNeverWorse(tables: seq<seq<Event>>, hops: seq<Hop>, v: int, id: int)
    requires HopsInRange(hops, |tables|)
    requires AllIdsUnique(tables)
    requires 0 <= v < |tables| && Contains(tables[v], id)
    ensures Contains(ApplyHops(tables, hops)[v], id)
    ensures Lookup(ApplyHops(tables, hops)[v], id).value.jumpsToEvent <= Lookup(tables[v], id).value.jumpsToEvent
    decreases |hops|
  {
    if hops != [] {
      var prefix := hops[..|hops| - 1];
      var before := ApplyHops(tables, prefix);
      ApplyHopsNeverWorse(tables, prefix, v, id);
      ApplyHopsKeepsIdsUnique(tables, prefix);
      var h := hops[|hops| - 1];
      if h.node == v {
        UpsertNeverWorse(before[v], h.message.event, id);
      }
    }
  }

  /** Every node an agent walk visits ends up knowing the event, with a
      route no longer than the jumps it was offered on that visit. */
  lemma {:induction false} AgentLeavesTrail(tables: seq<seq<Event>>, hops: seq<Hop>, eventName: int, k: int)
    requires HopsInRange(hops, |tables|)
    requires AllIdsUnique(tables)
    requires forall j :: 0 <= j < |hops| ==> hops[j].message.event.eventId == eventName
    requires 0 <= k < |hops|
    ensures Contains(ApplyHops(tables, hops)[hops[k].node], eventName)
    ensures Lookup(ApplyHops(tables, hops)[hops[k].node], eventName).value.jumpsToEvent
            <= hops[k].message.event.jumpsToEvent
  {
    var upTo := hops[..k + 1];
    var v := hops[k].node;
    assert upTo[..k] == hops[..k];
    var before := ApplyHops(tables, hops[..k]);
    ApplyHopsKeepsIdsUnique(tables, hops[..k]);
    UpsertLookupSame(before[v], hops[k].message.event);
    var mid := ApplyHops(tables, upTo);
    ApplyHopsKeepsIdsUnique(tables, upTo);
    assert hops == upTo + hops[k + 1..];
    ApplyHopsSplit(tables, upTo, hops[k + 1..]);
    ApplyHopsNeverWorse(mid, hops[k + 1..], v, eventName);
  }

  /** Hops at other nodes leave a table as it was. */
  lemma {:induction false} ApplyHopsUntouched(tables: seq<seq<Event>>, hops: seq<Hop>, v: int)
    requires HopsInRange(hops, |tables|)
    requires 0 <= v < |tables|
    requires forall j :: 0 <= j < |hops| ==> hops[j].node != v
    ensures ApplyHops(tables, hops)[v] == tables[v]
    decreases |hops|
  {
    if hops != [] {
      ApplyHopsUntouched(tables, hops[..|hops| - 1], v);
    }
  }

  /** When hops for one event come with strictly increasing jumps, a node
      that had no record for the event keeps the record of its first
      visit: later visits never have fewer jumps. */
  lemma {:induction false} FirstVisitKept(tables: seq<seq<Event>>, hops: seq<Hop>, id: int, k: int)
    requires HopsInRange(hops, |tables|)
    requires AllIdsUnique(tables)
    requires forall j :: 0 <= j < |hops| ==> hops[j].message.event.eventId == id
    requires forall a, b :: 0 <= a < b < |hops| ==>
      hops[a].message.event.jumpsToEvent < hops[b].message.event.jumpsToEvent
    requires 0 <= k < |hops|
    requires forall j :: 0 <= j < k ==> hops[j].node != hops[k].node
    requires !Contains(tables[hops[k].node], id)
    ensures Lookup(ApplyHops(tables, hops)[hops[k].node], id) == Some(hops[k].message.event)
    decreases |hops|
  {
    var v := hops[k].node;
    var last := |hops| - 1;
    var prefix := hops[..last];
    var before := ApplyHops(tables, prefix);
    ApplyHopsKeepsIdsUnique(tables, prefix);
    if k == last {
      ApplyHopsUntouched(tables, prefix, v);
      UpsertLookupSame(before[v], hops[k].message.event);
    } else {
      FirstVisitKept(tables, prefix, id, k);
      if hops[last].node == v {
        UpsertLookupSame(before[v], hops[last].message.event);
      }
    }
  }

  /** Applying a concatenation applies the two parts in turn. */
  lemma {:induction false} ApplyHopsSplit(tables: seq<seq<Event>>, a: seq<Hop>, b: seq<Hop>)
    requires HopsInRange(a + b, |tables|)
    ensures HopsInRange(a, |tables|) && HopsInRange(b, |ApplyHops(tables, a)|)
    ensures ApplyHops(tables, a + b) == ApplyHops(ApplyHops(tables, a), b)
    decreases |b|
  {
    assert forall k :: 0 <= k < |a| ==> a[k] == (a + b)[k];
    assert forall k :: 0 <= k < |b| ==> b[k] == (a + b)[|a| + k];
    if b == [] {
      assert a + b == a;
    } else {
      assert (a + b)[..|a + b| - 1] == a + b[..|b| - 1];
      ApplyHopsSplit(tables, a, b[..|b| - 1]);
    }
  }

  /** After an agent walk, a node that knew nothing of the event holds the
      record of the walk's first visit to it: the fewest jumps, and the
      neighbour picked on that visit. */
  lemma AgentFirstVisitWins(nbrs: seq<seq<int>>, tables: seq<seq<Event>>, start: int, eventName: int,
                            picks: seq<nat>, k: int)
    requires |tables| == |nbrs| && AllIdsUnique(tables)
    requires WalkDefined(nbrs, start, picks)
    requires 0 <= k < |picks|
    ensures var hops := AgentHops(nbrs, start, eventName, 0, picks);
      (forall j :: 0 <= j < k ==> hops[j].node != hops[k].node) && !Contains(tables[hops[k].node], eventName) ==>
        Lookup(ApplyHops(tables, hops)[hops[k].node], eventName) == Some(hops[k].message.event)
  {
    var hops := AgentHops(nbrs, start, eventName, 0, picks);
    AgentHopsRecords(nbrs, start, eventName, 0, picks);
    if (forall j :: 0 <= j < k ==> hops[j].node != hops[k].node) && !Contains(tables[hops[k].node], eventName) {
      FirstVisitKept(tables, hops, eventName, k);
    }
  }

  /** Every hop can draw its pick until the walk stops: at the first node
      whose table holds the event, or after the last hop. */
  predicate SearchDefined(nbrs: seq<seq<int>>, tables: seq<seq<Event>>, curr: int, id: int, picks: seq<nat>)
    decreases |picks|
  {
    || picks == []
    || (&& 0 <= curr < |nbrs| && curr < |tables|
        && picks[0] < |nbrs[curr]|
        && (|| Contains(tables[curr], id)
            || SearchDefined(nbrs, tables, if |picks| == 1 then NoNext else nbrs[curr][picks[0]], id, picks[1..])))
  }

  /** Picks that every agent hop can draw can be drawn by a search too:
      the search takes the same path until it stops. */
  lemma {:induction false} WalkDefinedSearchDefined(nbrs: seq<seq<int>>, tables: seq<seq<Event>>, curr: int, id: int, picks: seq<nat>)
    requires |tables| == |nbrs| && WalkDefined(nbrs, curr, picks)
    ensures SearchDefined(nbrs, tables, curr, id, picks)
    decreases |picks|
  {
    if picks != [] {
      WalkDefinedSearchDefined(nbrs, tables, if |picks| == 1 then NoNext else nbrs[curr][picks[0]], id, picks[1..]);
    }
  }

  /** The nodes a search walk from `curr` visits, in visit order. */
  function SearchVisits(nbrs: seq<seq<int>>, tables: seq<seq<Event>>, curr: int, id: int, picks: seq<nat>): (visits: seq<int>)
    requires SearchDefined(nbrs, tables, curr, id, picks)
    ensures |visits| <= |picks|
    ensures |picks| > 0 ==> |visits| > 0 && visits[0] == curr
    decreases |picks|
  {
    if picks == [] then []
    else if Contains(tables[curr], id) then [curr]
    else [curr] + SearchVisits(nbrs, tables, if |picks| == 1 then NoNext else nbrs[curr][picks[0]], id, picks[1..])
  }

  /** Every visited node is valid and its pick indexes its neighbour list. */
  lemma {:induction false} SearchVisitsInRange(nbrs: seq<seq<int>>, tables: seq<seq<Event>>, curr: int, id: int, picks: seq<nat>)
    requires SearchDefined(nbrs, tables, curr, id, picks)
    ensures var visits := SearchVisits(nbrs, tables, curr, id, picks);
      forall k :: 0 <= k < |visits| ==> 0 <= visits[k] < |nbrs| && visits[k] < |tables| && picks[k] < |nbrs[visits[k]]|
    decreases |picks|
  {
    if picks != [] && !Contains(tables[curr], id) {
      var next := if |picks| == 1 then NoNext else nbrs[curr][picks[0]];
      SearchVisitsInRange(nbrs, tables, next, id, picks[1..]);
      var visits := SearchVisits(nbrs, tables, curr, id, picks);
      var rest := SearchVisits(nbrs, tables, next, id, picks[1..]);
      assert forall k :: 1 <= k < |visits| ==> visits[k] == rest[k - 1] && picks[k] == picks[1..][k - 1];
    }
  }

  /** Every visit but the last is at a node that does not know the event
      and moves to the picked neighbour. */
  lemma {:induction false} SearchVisitsLinks(nbrs: seq<seq<int>>, tables: seq<seq<Event>>, curr: int, id: int, picks: seq<nat>)
    requires SearchDefined(nbrs, tables, curr, id, picks)
    ensures var visits := SearchVisits(nbrs, tables, curr, id, picks);
      forall k :: 0 <= k < |visits| - 1 ==>
        0 <= visits[k] < |tables| && picks[k] < |nbrs[visits[k]]| && 0 <= visits[k] < |nbrs|
        && !Contains(tables[visits[k]], id) && visits[k + 1] == nbrs[visits[k]][picks[k]]
    decreases |picks|
  {
    if picks != [] && !Contains(tables[curr], id) {
      var next := if |picks| == 1 then NoNext else nbrs[curr][picks[0]];
      SearchVisitsLinks(nbrs, tables, next, id, picks[1..]);
      var visits := SearchVisits(nbrs, tables, curr, id, picks);
      var rest := SearchVisits(nbrs, tables, next, id, picks[1..]);
      forall k | 0 <= k < |visits| - 1
        ensures 0 <= visits[k] < |tables| && picks[k] < |nbrs[visits[k]]| && 0 <= visits[k] < |nbrs|
        ensures !Contains(tables[visits[k]], id) && visits[k + 1] == nbrs[visits[k]][picks[k]]
      {
        if k == 0 {
          assert visits[1] == rest[0] == next;
        } else {
          assert visits[k] == rest[k - 1] && visits[k + 1] == rest[k] && picks[k] == picks[1..][k - 1];
        }
      }
    }
  }

  /** A walk that stops before using all its picks stops at a node that
      knows the event. */
  lemma {:induction false} SearchVisitsStop(nbrs: seq<seq<int>>, tables: seq<seq<Event>>, curr: int, id: int, picks: seq<nat>)
    requires SearchDefined(nbrs, tables, curr, id, picks)
    ensures var visits := SearchVisits(nbrs, tables, curr, id, picks);
      |visits| < |picks| ==> 0 <= visits[|visits| - 1] < |tables| && Contains(tables[visits[|visits| - 1]], id)
    decreases |picks|
  {
    if picks != [] && !Contains(tables[curr], id) {
      var next := if |picks| == 1 then NoNext else nbrs[curr][picks[0]];
      SearchVisitsStop(nbrs, tables, next, id, picks[1..]);
    }
  }

  /** The three facts above together. */
  lemma SearchVisitsShape(nbrs: seq<seq<int>>, tables: seq<seq<Event>>, curr: int, id: int, picks: seq<nat>)
    requires SearchDefined(nbrs, tables, curr, id, picks)
    ensures var visits := SearchVisits(nbrs, tables, curr, id, picks);
      && (forall k :: 0 <= k < |visits| ==>
            0 <= visits[k] < |nbrs| && visits[k] < |tables| && picks[k] < |nbrs[visits[k]]|)
      && (forall k :: 0 <= k < |visits| - 1 ==>
            !Contains(tables[visits[k]], id) && visits[k + 1] == nbrs[visits[k]][picks[k]])
      && (|visits| < |picks| ==> Contains(tables[visits[|visits| - 1]], id))
  {
    SearchVisitsInRange(nbrs, tables, curr, id, picks);
    SearchVisitsLinks(nbrs, tables, curr, id, picks);
    SearchVisitsStop(nbrs, tables, curr, id, picks);
  }

  /** Visit k of a search walk, seen on its own. */
  lemma SearchVisitAt(nbrs: seq<seq<int>>, tables: seq<seq<Event>>, sink: int, id: int, picks: seq<nat>, k: int)
    requires SearchDefined(nbrs, tables, sink, id, picks)
    requires 0 <= k < |SearchVisits(nbrs, tables, sink, id, picks)|
    ensures var visits := SearchVisits(nbrs, tables, sink, id, picks);
      && 0 <= visits[k] < |nbrs| && visits[k] < |tables| && picks[k] < |nbrs[visits[k]]|
      && (Contains(tables[visits[k]], id) ==> k == |visits| - 1)
      && (!Contains(tables[visits[k]], id) && k < |picks| - 1 ==>
            k < |visits| - 1 && visits[k + 1] == nbrs[visits[k]][picks[k]])
      && (!Contains(tables[visits[k]], id) && k == |visits| - 1 ==> |visits| == |picks|)
  {
    SearchVisitsShape(nbrs, tables, sink, id, picks);
  }

  function Reversed(s: seq<int>): (r: seq<int>)
    ensures |r| == |s|
    ensures forall k :: 0 <= k < |s| ==> r[k] == s[|s| - 1 - k]
  {
    if s == [] then [] else [s[|s| - 1]] + Reversed(s[..|s| - 1])
  }

  /** Outcome of a search walk: whether it met the event, and the route it
      reports (reversed on a hit, as visited on a miss). */
  function SearchResult(nbrs: seq<seq<int>>, tables: seq<seq<Event>>, sink: int, id: int, picks: seq<nat>): (bool, seq<int>)
    requires SearchDefined(nbrs, tables, sink, id, picks)
  {
    var visits := SearchVisits(nbrs, tables, sink, id, picks);
    SearchVisitsShape(nbrs, tables, sink, id, picks);
    if |visits| > 0 && Contains(tables[visits[|visits| - 1]], id) then (true, Reversed(visits))
    else (false, visits)
  }

  /** On a hit, the route starts at the first visited node that knows the
      event (the intersection node), ends at the sink, and is the visit
      order reversed; no node before the intersection knew the event. */
  lemma SearchHitRoute(nbrs: seq<seq<int>>, tables: seq<seq<Event>>, sink: int, id: int, picks: seq<nat>)
    requires SearchDefined(nbrs, tables, sink, id, picks)
    requires SearchResult(nbrs, tables, sink, id, picks).0
    ensures var route := SearchResult(nbrs, tables, sink, id, picks).1;
      && 1 <= |route| <= |picks|
      && route == Reversed(SearchVisits(nbrs, tables, sink, id, picks))
      && route[|route| - 1] == sink
      && 0 <= route[0] < |tables| && Contains(tables[route[0]], id)
      && forall k :: 1 <= k < |route| ==> 0 <= route[k] < |tables| && !Contains(tables[route[k]], id)
  {
    SearchVisitsShape(nbrs, tables, sink, id, picks);
  }

  /** On a miss, the route is the whole walk of |picks| visited nodes, none
      of which knew the event. */
  lemma SearchMissRoute(nbrs: seq<seq<int>>, tables: seq<seq<Event>>, sink: int, id: int, picks: seq<nat>)
    requires SearchDefined(nbrs, tables, sink, id, picks)
    requires !SearchResult(nbrs, tables, sink, id, picks).0
    ensures var route := SearchResult(nbrs, tables, sink, id, picks).1;
      && |route| == |picks|
      && route == SearchVisits(nbrs, tables, sink, id, picks)
      && forall k :: 0 <= k < |route| ==> 0 <= route[k] < |tables| && !Contains(tables[route[k]], id)
  {
    SearchVisitsShape(nbrs, tables, sink, id, picks);
  }

  /** A sink that already knows the event is its own intersection node. */
  lemma SearchHitAtSink(nbrs: seq<seq<int>>, tables: seq<seq<Event>>, sink: int, id: int, picks: seq<nat>)
    requires SearchDefined(nbrs, tables, sink, id, picks)
    requires |picks| > 0 && 0 <= sink < |tables| && Contains(tables[sink], id)
    ensures SearchResult(nbrs, tables, sink, id, picks) == (true, [sink])
  {
    assert SearchVisits(nbrs, tables, sink, id, picks) == [sink];
    assert Reversed([sink]) == [sink];
  }

  /** After an agent walk, a search from any node the agent visited finds
      the event at once, whatever its picks. */
  lemma AgentThenSearch(nbrs: seq<seq<int>>, tables: seq<seq<Event>>, start: int, eventName: int,
                        agentPicks: seq<nat>, k: int, searchPicks: seq<nat>)
    requires |tables| == |nbrs| && AllIdsUnique(tables)
    requires WalkDefined(nbrs, start, agentPicks)
    requires 0 <= k < |agentPicks|
    requires 0 < |searchPicks|
    requires searchPicks[0] < |nbrs[AgentHops(nbrs, start, eventName, 0, agentPicks)[k].node]|
    ensures var hops := AgentHops(nbrs, start, eventName, 0, agentPicks);
      var after := ApplyHops(tables, hops);
      && SearchDefined(nbrs, after, hops[k].node, eventName, searchPicks)
      && SearchResult(nbrs, after, hops[k].node, eventName, searchPicks) == (true, [hops[k].node])
  {
    var hops := AgentHops(nbrs, start, eventName, 0, agentPicks);
    AgentHopsRecords(nbrs, start, eventName, 0, agentPicks);
    AgentLeavesTrail(tables, hops, eventName, k);
    var v := hops[k].node;
    SearchHitAtSink(nbrs, ApplyHops(tables, hops), v, eventName, searchPicks);
  }
}
