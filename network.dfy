/** The simulation driver: building the grid of nodes and running the agent
    and search walks over it. Node ids index the `nodes` sequence. */
module Network {
  import opened EventTable
  import opened Nodes
  import opened Grid
  import opened Walks

  /** The nodes are distinct objects. */
  predicate Distinct(nodes: seq<Node>)
  {
    forall i, j :: 0 <= i < j < |nodes| ==> nodes[i] != nodes[j]
  }

  /** Every node's event table, by node id. */
  ghost function Tables(nodes: seq<Node>): (ts: seq<seq<Event>>)
    reads set n | n in nodes
    ensures |ts| == |nodes|
    ensures forall v :: 0 <= v < |nodes| ==> ts[v] == nodes[v].eventsTable
  {
    if nodes == [] then [] else [nodes[0].eventsTable] + Tables(nodes[1..])
  }

  /** Every node's neighbour list, by node id. */
  ghost function NeighborLists(nodes: seq<Node>): (ns: seq<seq<int>>)
    reads set n | n in nodes
    ensures |ns| == |nodes|
    ensures forall v :: 0 <= v < |nodes| ==> ns[v] == nodes[v].neighbors
  {
    if nodes == [] then [] else [nodes[0].neighbors] + NeighborLists(nodes[1..])
  }

  /** The neighbour lists of a `length` x `width` grid. */
  function GridLists(length: int, width: int): (ns: seq<seq<int>>)
    requires width > 0 && length * width >= 0
    ensures |ns| == length * width
    ensures forall v :: 0 <= v < |ns| ==> ns[v] == GridNeighbors(v, length, width)
  {
    seq(length * width, v => GridNeighbors(v, length, width))
  }

  /** Append node `i`'s candidate neighbours to its list, then erase the
      ones that are not node ids. */
  method GetNeighbors(nodes: seq<Node>, length: int, width: int, i: int)
    requires 0 <= i < |nodes| && width > 0
    modifies nodes[i]
    ensures nodes[i].eventsTable == old(nodes[i].eventsTable)
    ensures nodes[i].neighbors == InRange(old(nodes[i].neighbors) + Candidates(i, width), length * width)
  {
    var node := nodes[i];
    ghost var before := node.neighbors;
    node.neighbors := node.neighbors + [i - width];
    if i % width != 0 {
      node.neighbors := node.neighbors + [i - 1];
    }
    if i % width != width - 1 {
      node.neighbors := node.neighbors + [i + 1];
    }
    node.neighbors := node.neighbors + [i + width];
    assert node.neighbors == before + Candidates(i, width);
    node.neighbors := EraseOutOfRange(node.neighbors, length * width);
  }

  /** Create the `length` x `width` grid: node i gets id i, an empty event
      table and its grid neighbours. */
  method CreateNetwork(length: int, width: int) returns (nodes: seq<Node>)
    requires length >= 0 && width >= 0
    ensures |nodes| == length * width && Distinct(nodes)
    ensures forall v :: 0 <= v < |nodes| ==>
      && fresh(nodes[v])
      && nodes[v].id == v
      && nodes[v].eventsTable == []
      && nodes[v].Valid()
    ensures width > 0 ==> NeighborLists(nodes) == GridLists(length, width)
  {
    nodes := [];
    var i := 0;
    while i < length * width
      invariant 0 <= i && (i > 0 ==> width > 0 && i <= length * width)
      invariant |nodes| == i && Distinct(nodes)
      invariant forall v :: 0 <= v < i ==> fresh(nodes[v]) && nodes[v].id == v
      invariant forall v :: 0 <= v < i ==> nodes[v].eventsTable == [] && nodes[v].Valid()
      invariant forall v :: 0 <= v < i ==> nodes[v].neighbors == GridNeighbors(v, length, width)
    {
      assert width > 0;
      var node := new Node(i);
      nodes := nodes + [node];
      GetNeighbors(nodes, length, width, i);
      assert [] + Candidates(i, width) == Candidates(i, width);
      i := i + 1;
    }
    if width > 0 {
      assert |nodes| == length * width;
    }
  }

  /** The event area around the sensing node `creator` (injected here; the
      source draws it at random among the node ids): the creator and its
      grid neighbours, in increasing id order. */
  method GenerateAgentMessage(nodes: seq<Node>, length: int, width: int, creator: int) returns (eventArea: seq<int>)
    requires width > 0 && 0 <= creator < |nodes|
    ensures eventArea == InRange(AreaCandidates(creator, width), length * width)
    ensures creator < length * width ==>
      && StrictlyIncreasing(eventArea)
      && forall x :: x in eventArea <==> x == creator || x in GridNeighbors(creator, length, width)
  {
    eventArea := [creator - width];
    if creator % width != 0 {
      eventArea := eventArea + [creator - 1];
    }
    eventArea := eventArea + [creator];
    if creator % width != width - 1 {
      eventArea := eventArea + [creator + 1];
    }
    eventArea := eventArea + [creator + width];
    assert eventArea == AreaCandidates(creator, width);
    eventArea := EraseOutOfRange(eventArea, length * width);
    if creator < length * width {
      EventAreaIsClosedNeighborhood(creator, length, width);
    }
  }

  /** Offer `event` to the table of node `v`; every other node and every
      neighbour list stay as they were. */
  method OfferAt(nodes: seq<Node>, v: int, event: Event, ghost done: seq<seq<Event>>)
    requires Distinct(nodes) && 0 <= v < |nodes| && |done| == |nodes| && AllIdsUnique(done)
    requires forall u :: 0 <= u < |nodes| ==> nodes[u].eventsTable == done[u]
    modifies nodes[v]
    ensures forall u :: 0 <= u < |nodes| ==>
      && nodes[u].neighbors == old(nodes[u].neighbors)
      && nodes[u].eventsTable == done[v := Upserted(done[v], event)][u]
  {
    nodes[v].CheckEventTable(event);
    forall u | 0 <= u < |nodes|
      ensures nodes[u].neighbors == old(nodes[u].neighbors)
      ensures nodes[u].eventsTable == done[v := Upserted(done[v], event)][u]
    {
      if u != v {
        assert nodes[u] != nodes[v];
      }
    }
  }

  /** The agent walk: CONST_TTL + 1 hops from `generateNode`, each offering
      the current node's table a record with the hops made so far and the
      picked neighbour (none on the last hop), then moving there. */
  method PropagateAgentMessage(nodes: seq<Node>, generateNode: int, eventName: int, picks: seq<nat>)
    requires Distinct(nodes)
    requires forall v :: 0 <= v < |nodes| ==> nodes[v].Valid()
    requires |picks| == CONST_TTL + 1
    requires WalkDefined(NeighborLists(nodes), generateNode, picks)
    modifies set n | n in nodes
    ensures forall v :: 0 <= v < |nodes| ==> nodes[v].Valid() && nodes[v].neighbors == old(nodes[v].neighbors)
    ensures Tables(nodes) == ApplyHops(old(Tables(nodes)), AgentHops(old(NeighborLists(nodes)), generateNode, eventName, 0, picks))
  {
    ghost var tables0 := Tables(nodes);
    ghost var nbrs := NeighborLists(nodes);
    ghost var hops := AgentHops(nbrs, generateNode, eventName, 0, picks);
    ghost var done := tables0;
    var currTtl := CONST_TTL;
    var currJumps := 0;
    var currNode := generateNode;
    while currTtl != -1
      invariant -1 <= currTtl <= CONST_TTL
      invariant currJumps == CONST_TTL - currTtl
      invariant currJumps < |hops| ==> currNode == hops[currJumps].node
      invariant |done| == |nodes| && AllIdsUnique(done)
      invariant done == ApplyHops(tables0, hops[..currJumps])
      invariant forall v :: 0 <= v < |nodes| ==> nodes[v].neighbors == nbrs[v] && nodes[v].eventsTable == done[v]
      decreases currTtl + 1
    {
      AgentHopAt(nbrs, generateNode, eventName, picks, currJumps);
      ApplyHopsStep(tables0, hops, currJumps);
      var selectedNeighbors := picks[currJumps];
      var nextNode := nodes[currNode].neighbors[selectedNeighbors];
      nextNode := if currTtl == 0 then NoNext else nextNode;
      var agentMessage := AgentMessage(Event(eventName, currJumps, nextNode), currTtl);
      assert agentMessage.event == hops[currJumps].message.event;
      OfferAt(nodes, currNode, agentMessage.event, done);
      UpsertKeepsIdsUnique(done[currNode], agentMessage.event);
      done := done[currNode := Upserted(done[currNode], agentMessage.event)];
      currTtl := currTtl - 1;
      currJumps := currJumps + 1;
      currNode := nextNode;
    }
    assert hops[..currJumps] == hops;
    assert Tables(nodes) == done;
  }

  /** The search walk: from `sinkNode`, at most CONST_TTL + 1 hops; each
      visited node is appended to the path, and the first one whose table
      holds the event stops the walk and the path is reversed. Tables are
      only read. */
  method PropagateSearchMessage(nodes: seq<Node>, sinkNode: int, eventName: int, picks: seq<nat>)
    returns (res: bool, searchMessagePath: seq<int>)
    requires |picks| == CONST_TTL + 1
    requires SearchDefined(NeighborLists(nodes), Tables(nodes), sinkNode, eventName, picks)
    ensures (res, searchMessagePath) == SearchResult(NeighborLists(nodes), Tables(nodes), sinkNode, eventName, picks)
  {
    ghost var tables := Tables(nodes);
    ghost var nbrs := NeighborLists(nodes);
    ghost var visits := SearchVisits(nbrs, tables, sinkNode, eventName, picks);
    var currTtl := CONST_TTL;
    var currJumps := 0;
    var currNode := sinkNode;
    res := false;
    searchMessagePath := [];
    while currTtl != -1
      invariant -1 <= currTtl <= CONST_TTL
      invariant currJumps == CONST_TTL - currTtl
      invariant currJumps <= |visits|
      invariant searchMessagePath == visits[..currJumps]
      invariant currTtl != -1 ==> currJumps < |visits| && currNode == visits[currJumps]
      invariant currTtl == -1 ==> currJumps == |visits|
      invariant currJumps > 0 ==>
        0 <= visits[currJumps - 1] < |tables| && !Contains(tables[visits[currJumps - 1]], eventName)
      invariant !res
      decreases currTtl + 1
    {
      SearchVisitAt(nbrs, tables, sinkNode, eventName, picks, currJumps);
      var selectedNeighbors := picks[currJumps];
      var nextNode := nodes[currNode].neighbors[selectedNeighbors];
      nextNode := if currTtl == 0 then NoNext else nextNode;
      res := Contains(nodes[currNode].eventsTable, eventName);
      assert visits[..currJumps + 1] == visits[..currJumps] + [currNode];
      searchMessagePath := searchMessagePath + [currNode];
      if res {
        assert visits[..currJumps + 1] == visits;
        searchMessagePath := Reversed(searchMessagePath);
        break;
      }
      currTtl := currTtl - 1;
      currJumps := currJumps + 1;
      currNode := nextNode;
    }
    assert !res ==> visits[..currJumps] == visits;
    assert (res, searchMessagePath) == SearchResult(nbrs, tables, sinkNode, eventName, picks);
  }

  /** With at least two nodes, a walk that always picks the first
      neighbour can be drawn from any node of the grid. */
  lemma {:induction false} FirstNeighborWalkDefined(length: int, width: int, start: int, picks: seq<nat>)
    requires width > 0 && length * width >= 2 && 0 <= start < length * width
    requires forall k :: 0 <= k < |picks| ==> picks[k] == 0
    ensures WalkDefined(GridLists(length, width), start, picks)
    decreases |picks|
  {
    if picks != [] {
      GridNeighborsNonEmpty(start, length, width);
      if |picks| > 1 {
        var next := GridNeighbors(start, length, width)[0];
        assert next in GridNeighbors(start, length, width);
        FirstNeighborWalkDefined(length, width, next, picks[1..]);
      }
    }
  }

  /** The neighbour lists of the 4 x 4 grid that the scenario below uses. */
  lemma FirstNeighborGrid()
    ensures GridNeighbors(5, 4, 4) == [1, 4, 6, 9]
    ensures GridNeighbors(1, 4, 4) == [0, 2, 5]
    ensures GridNeighbors(0, 4, 4) == [1, 4]
    ensures GridNeighbors(4, 4, 4) == [0, 5, 8]
  {
    assert Candidates(5, 4) == [1, 4, 6, 9];
    assert Candidates(1, 4) == [-3, 0, 2, 5];
    assert Candidates(0, 4) == [-4, 1, 4];
    assert Candidates(4, 4) == [0, 5, 8];
  }

  /** A 4 x 4 grid, event 0 sensed at node 5, time to live 3 (four hops),
      every pick the first neighbour. Node 0's neighbours are [1, 4], so the
      agent walks 5, 1, 0, 1 and offers records with 0, 1, 2 and 3 jumps. */
  lemma FirstNeighborAgentHops(nbrs: seq<seq<int>>)
    requires |nbrs| == 16
    requires nbrs[5] == [1, 4, 6, 9] && nbrs[1] == [0, 2, 5] && nbrs[0] == [1, 4]
    ensures WalkDefined(nbrs, 5, [0, 0, 0, 0])
    ensures AgentHops(nbrs, 5, 0, 0, [0, 0, 0, 0]) ==
      [ Hop(5, AgentMessage(Event(0, 0, 1), 3)), Hop(1, AgentMessage(Event(0, 1, 0), 2)),
        Hop(0, AgentMessage(Event(0, 2, 1), 1)), Hop(1, AgentMessage(Event(0, 3, NoNext), 0)) ]
  {
    var picks: seq<nat> := [0, 0, 0, 0];
    assert WalkDefined(nbrs, 1, picks[3..]);
    assert WalkDefined(nbrs, 0, picks[2..]);
    assert WalkDefined(nbrs, 1, picks[1..]);
    assert AgentHops(nbrs, 1, 0, 3, picks[3..]) == [Hop(1, AgentMessage(Event(0, 3, NoNext), 0))];
    assert AgentHops(nbrs, 0, 0, 2, picks[2..])[0] == Hop(0, AgentMessage(Event(0, 2, 1), 1));
    assert AgentHops(nbrs, 1, 0, 1, picks[1..])[0] == Hop(1, AgentMessage(Event(0, 1, 0), 2));
  }

  /** The hops of the 4 x 4 scenario below, as a literal. */
  predicate IsScenarioWalk(empty: seq<seq<Event>>, hops: seq<Hop>)
  {
    && |empty| == 16 && (forall v :: 0 <= v < 16 ==> empty[v] == [])
    && hops ==
      [ Hop(5, AgentMessage(Event(0, 0, 1), 3)), Hop(1, AgentMessage(Event(0, 1, 0), 2)),
        Hop(0, AgentMessage(Event(0, 2, 1), 1)), Hop(1, AgentMessage(Event(0, 3, NoNext), 0)) ]
  }

  /** The first two hops of the scenario each insert a first record. */
  lemma FirstNeighborTwoHops(empty: seq<seq<Event>>, hops: seq<Hop>)
    requires IsScenarioWalk(empty, hops)
    ensures HopsInRange(hops, |empty|)
    ensures ApplyHops(empty, hops[..2]) == empty[5 := [Event(0, 0, 1)]][1 := [Event(0, 1, 0)]]
  {
    var t1 := empty[5 := [Event(0, 0, 1)]];
    assert HopsInRange(hops, |empty|);
    assert ApplyHops(empty, hops[..1]) == t1 by {
      ApplyHopsStep(empty, hops, 0);
      assert hops[..0] == [];
      assert ApplyHops(empty, hops[..0]) == empty;
      assert empty[5] == [] && hops[0].node == 5 && hops[0].message.event == Event(0, 0, 1);
      UpsertWhenAbsent(empty[5], hops[0].message.event);
      assert empty[5] + [Event(0, 0, 1)] == [Event(0, 0, 1)];
    }
    ApplyHopsStep(empty, hops, 1);
    assert hops[1].node == 1 && hops[1].message.event == Event(0, 1, 0);
    assert t1[1] == empty[1] == [];
    UpsertWhenAbsent(t1[1], hops[1].message.event);
    assert t1[1] + [Event(0, 1, 0)] == [Event(0, 1, 0)];
  }

  /** The third hop of the scenario inserts a first record at node 0. */
  lemma FirstNeighborThreeHops(empty: seq<seq<Event>>, hops: seq<Hop>)
    requires IsScenarioWalk(empty, hops)
    ensures HopsInRange(hops, |empty|)
    ensures ApplyHops(empty, hops[..3]) == empty[5 := [Event(0, 0, 1)]][1 := [Event(0, 1, 0)]][0 := [Event(0, 2, 1)]]
  {
    FirstNeighborTwoHops(empty, hops);
    var t2 := empty[5 := [Event(0, 0, 1)]][1 := [Event(0, 1, 0)]];
    ApplyHopsStep(empty, hops, 2);
    assert hops[2].node == 0 && hops[2].message.event == Event(0, 2, 1);
    assert t2[0] == empty[0] == [];
    UpsertWhenAbsent(t2[0], hops[2].message.event);
    assert t2[0] + [Event(0, 2, 1)] == [Event(0, 2, 1)];
  }

  /** On empty tables, the scenario's hops leave one record at each of
      nodes 5, 1 and 0; the repeat visit to node 1 (3 jumps) does not
      replace the record of the first (1 jump), and node 4 stays empty. */
  lemma FirstNeighborAgentTables(empty: seq<seq<Event>>, hops: seq<Hop>)
    requires IsScenarioWalk(empty, hops)
    ensures HopsInRange(hops, |empty|)
    ensures var after := ApplyHops(empty, hops);
      && after[5] == [Event(0, 0, 1)]
      && after[1] == [Event(0, 1, 0)]
      && after[0] == [Event(0, 2, 1)]
      && after[4] == []
  {
    FirstNeighborThreeHops(empty, hops);
    var t3 := ApplyHops(empty, hops[..3]);
    assert t3[5] == [Event(0, 0, 1)] && t3[1] == [Event(0, 1, 0)];
    assert t3[0] == [Event(0, 2, 1)] && t3[4] == empty[4] == [];
    ApplyHopsStep(empty, hops, 3);
    assert hops[..4] == hops;
    assert hops[3].node == 1 && hops[3].message.event == Event(0, 3, NoNext);
    UpsertKeepsNoWorse(t3[1], hops[3].message.event);
    assert t3[1 := t3[1]] == t3;
  }

  /** After that walk, a search for event 0 from node 4 moves to node 0,
      which knows the event, and reports the route [0, 4]. */
  lemma FirstNeighborSearch(nbrs: seq<seq<int>>, after: seq<seq<Event>>)
    requires |nbrs| == 16 && |after| == 16
    requires nbrs[4] == [0, 5, 8] && nbrs[0] == [1, 4]
    requires after[4] == [] && after[0] == [Event(0, 2, 1)]
    ensures SearchDefined(nbrs, after, 4, 0, [0, 0, 0, 0])
    ensures SearchResult(nbrs, after, 4, 0, [0, 0, 0, 0]) == (true, [0, 4])
  {
    assert Contains(after[0], 0) && !Contains(after[4], 0);
    var picks: seq<nat> := [0, 0, 0, 0];
    assert SearchDefined(nbrs, after, 0, 0, picks[1..]);
    assert SearchVisits(nbrs, after, 0, 0, picks[1..]) == [0];
    assert SearchVisits(nbrs, after, 4, 0, picks) == [4, 0];
    assert Reversed([4, 0]) == [0, 4];
  }

  /** The whole scenario on the 4 x 4 grid with empty tables: the agent
      from node 5 walks 5, 1, 0, 1, leaves the trail 5, 1, 0 with node 4
      still empty, and the search from node 4 meets it at node 0,
      reporting the route [0, 4]. */
  lemma FirstNeighborScenario(nbrs: seq<seq<int>>, empty: seq<seq<Event>>)
    requires nbrs == GridLists(4, 4)
    requires |empty| == 16 && forall v :: 0 <= v < 16 ==> empty[v] == []
    ensures WalkDefined(nbrs, 5, [0, 0, 0, 0])
    ensures AgentHops(nbrs, 5, 0, 0, [0, 0, 0, 0]) ==
      [ Hop(5, AgentMessage(Event(0, 0, 1), 3)), Hop(1, AgentMessage(Event(0, 1, 0), 2)),
        Hop(0, AgentMessage(Event(0, 2, 1), 1)), Hop(1, AgentMessage(Event(0, 3, NoNext), 0)) ]
    ensures var after := ApplyHops(empty, AgentHops(nbrs, 5, 0, 0, [0, 0, 0, 0]));
      && after[5] == [Event(0, 0, 1)]
      && after[1] == [Event(0, 1, 0)]
      && after[0] == [Event(0, 2, 1)]
      && after[4] == []
      && SearchDefined(nbrs, after, 4, 0, [0, 0, 0, 0])
      && SearchResult(nbrs, after, 4, 0, [0, 0, 0, 0]) == (true, [0, 4])
  {
    FirstNeighborGrid();
    assert nbrs[5] == GridNeighbors(5, 4, 4) && nbrs[1] == GridNeighbors(1, 4, 4);
    assert nbrs[0] == GridNeighbors(0, 4, 4) && nbrs[4] == GridNeighbors(4, 4, 4);
    FirstNeighborAgentHops(nbrs);
    var hops := AgentHops(nbrs, 5, 0, 0, [0, 0, 0, 0]);
    FirstNeighborAgentTables(empty, hops);
    FirstNeighborSearch(nbrs, ApplyHops(empty, hops));
  }
}
