# Rumor routing on a grid of sensor nodes

This project models the core of a rumor-routing simulation over a
`length` x `width` grid of sensor nodes:

- **Per-node event table.** A node keeps one record per sensed event: how many hops away the event is, and which neighbour leads towards it. Offering a record inserts it when the event is new. It replaces the stored record only when the candidate has strictly fewer jumps. A pure lookup says whether the event is known.
- **Grid topology.** Node `i` is linked to the nodes up, left, right and down from it that exist, in that order. Candidates outside the grid are erased in place. An event area around a sensing node is the node plus those neighbours.
- **Agent walk.** Starting at the node that sensed the event, the walk makes `CONST_TTL + 1` hops. Each hop offers the current node's table a record carrying the hops made so far and the picked neighbour. On the last hop the record carries no neighbour (`-1`).
- **Search walk.** Starting at a sink, the walk makes at most `CONST_TTL + 1` hops and only reads tables. It appends every visited node to a path. At the first node that knows the event it stops and reverses the path, giving the route from that intersection node back to the sink.

Modules:

- `event_table.dfy` (`EventTable`): the records and the table as values. Its functions specify upsert, lookup and contains, and its lemmas state their properties, one upsert at a time and over a sequence of upserts.
- `node.dfy` (`Nodes`): the node as a class. `CheckEventTable` is the in-place scan-and-update loop, proved against `Upserted`.
- `grid.dfy` (`Grid`): neighbour arithmetic, the in-place erase loop (proved against the filter `InRange`), and adjacency, symmetry, order and size lemmas.
- `walks.dfy` (`Walks`): both walks as functions of an injected sequence of neighbour picks. `AgentHops` gives the agent's hops and `ApplyHops` their effect on the tables. `SearchVisits` gives the search's visit order and `SearchResult` its outcome.
- `network.dfy` (`Network`): the simulation driver over a sequence of `Node` objects. It holds the building of the grid, the event area and both walk loops. The walks are proved against the functions of `Walks`, and the grid and the event area against those of `Grid`. It ends with a worked 4 x 4 scenario.

Randomness is a parameter. The source draws every neighbour index from a freshly seeded generator. Here the walks take `picks: seq<nat>`, and hop `k` uses `picks[k]`. The agent walk's requires (`WalkDefined`) and the search walk's (`SearchDefined`) say that each pick the walk draws indexes the current node's neighbour list. In the source, a pick outside that list, or an empty list, is undefined behaviour. On any grid of at least two nodes, `GridNeighborsNonEmpty` gives every node a neighbour to draw, and `FirstNeighborWalkDefined` shows that first-neighbour picks meet `WalkDefined` from any start. `WalkDefinedSearchDefined` shows that picks meeting `WalkDefined` also meet `SearchDefined`, whatever the tables hold.

A worked example. On a 4 x 4 grid, the agent starts at node 5 and always picks the first neighbour. It walks 5 → 1 → 0 → 1, because node 0's neighbour list is `[1, 4]`. `FirstNeighborScenario` proves:

- the agent walk is 5, 1, 0, 1;
- the second visit to node 1 (3 jumps) does not replace the record of the first (1 jump);
- node 4 stays empty;
- a search from node 4 moves to node 0, finds the event there, and reports the route `[0, 4]`.

## Model

| member | source | states |
|---|---|---|
| EventTable.Contains | main.cpp:60-65 | true exactly when some record of the table has the given event id |
| EventTable.FindId | main.cpp:45-47 | the index of the first record with the id, or the table length when there is none; no earlier record has the id |
| EventTable.Lookup | main.cpp:45-47 | finds a record exactly when `Contains` holds, and the record found is in the table with that id |
| EventTable.Upserted | main.cpp:43-58 | the reference definition of offering a record: an absent id appends the candidate; a stored record with strictly more jumps is removed and the candidate appended; otherwise the table is unchanged. Its properties are the `Upsert*` lemmas below |
| EventTable.UpsertWhenAbsent | main.cpp:55-57 | an absent id: the candidate is appended and every existing record stays as it was |
| EventTable.UpsertKeepsNoWorse | main.cpp:47-53 | a stored record with equal or fewer jumps leaves the table unchanged, whatever next neighbour the candidate names |
| EventTable.UpsertReplacesWorse | main.cpp:49-52 | a stored record with strictly more jumps is erased and the candidate appended; the other records keep their order |
| EventTable.UpsertKeepsIdsUnique | main.cpp:45-57 | upsert keeps at most one record per event id |
| EventTable.UpsertLeavesOtherIds | main.cpp:45-57 | the records of every other id are unchanged, in content and order |
| EventTable.UpsertLookupOther | main.cpp:45-57 | a lookup of any other id returns the same record after upsert |
| EventTable.UpsertLookupSame | main.cpp:47-57 | the record kept for the candidate's id is the candidate when it is new or has strictly fewer jumps, and otherwise the stored record (min of old and new, stored record on ties) |
| EventTable.UpsertTieKeepsFirst | main.cpp:49 | a second candidate with the same id and jumps never alters the table, even with a different next neighbour |
| EventTable.UpsertNeverWorse | main.cpp:45-57 | a known id stays known and its jumps never increase |
| EventTable.UpsertAllKeepsIdsUnique | main.cpp:45-57 | any sequence of upserts keeps ids unique |
| EventTable.UpsertStepFor | main.cpp:45-57 | one upsert seen from one id: it is present afterwards iff it was before or the candidate carries it; the record changes only to a strictly better candidate |
| EventTable.UpsertAllPresence | main.cpp:45-57 | after a sequence of upserts an id is known iff it was known before or some candidate carried it |
| EventTable.UpsertAllMinimum | main.cpp:45-57 | after a sequence of upserts the stored jumps for an id are at most every candidate's, and a record that was stored is kept or replaced by a strictly better one |
| EventTable.UpsertAllFirstWins | main.cpp:47-52 | a record that came from the sequence was preceded only by strictly worse candidates for its id: among equal minima the first wins |
| Nodes.Node.constructor | main.cpp:41 | a node with the given id, no neighbours and an empty table |
| Nodes.Node.CheckEventTable | main.cpp:43-58 | the scan-and-update loop leaves exactly `Upserted(old table, event)` and keeps ids unique |
| Grid.InRange | main.cpp:249-257 | keeps exactly the elements that are valid node ids, never more elements than given |
| Grid.EraseOutOfRange | main.cpp:141-149 | the in-place erase loop leaves exactly the in-range elements, in order |
| Grid.Candidates | main.cpp:239-247 | the reference definition of the unfiltered candidates: up, left unless in the first column, right unless in the last column, down. `CandidatesAreAdjacent` states what they mean |
| Grid.GridNeighbors | main.cpp:236-258 | the reference definition of the list `get_neighbors` leaves: the candidates filtered by `InRange` to valid ids. The `GridNeighbors*` lemmas state its properties |
| Grid.AreaCandidates | main.cpp:132-140 | the unfiltered event area holds exactly the creator and its unfiltered candidate neighbours |
| Grid.CandidatesAreAdjacent | main.cpp:239-247 | a value is a candidate neighbour iff it is one row or column step away, so no link crosses a row boundary |
| Grid.GridNeighborsAreAdjacent | main.cpp:236-258 | the neighbour list holds exactly the valid ids one step away |
| Grid.GridNeighborsSymmetric | main.cpp:236-258 | j is a neighbour of i iff i is a neighbour of j |
| Grid.GridNeighborsIncreasing | main.cpp:236-258 | neighbour lists are strictly increasing: up, left, right, down |
| Grid.GridNeighborsNonEmpty | main.cpp:161-164 | on a grid of two or more nodes every node has between one and four neighbours, so a pick can be drawn |
| Grid.EventAreaIsClosedNeighborhood | main.cpp:132-149 | the event area is strictly increasing and holds exactly the creator and its grid neighbours |
| Network.GetNeighbors | main.cpp:236-258 | the node's list becomes its old list plus the candidates up, left, right, down, filtered to valid ids; its table is untouched |
| Network.CreateNetwork | main.cpp:82-97 | length * width fresh distinct nodes, node v with id v, an empty table and its grid neighbours |
| Network.GenerateAgentMessage | main.cpp:124-151 | the event area is the filtered candidates and, for a valid creator, increasing and equal to the creator plus its neighbours |
| Network.OfferAt | main.cpp:169 | offering a record to one node upserts that node's table and leaves every other table and every neighbour list alone |
| Network.PropagateAgentMessage | main.cpp:154-185 | the tables become `ApplyHops` of the agent hops over the old tables; neighbour lists unchanged; ids stay unique |
| Network.PropagateSearchMessage | main.cpp:188-233 | returns exactly `SearchResult` of the walk; having no modifies clause, it changes no table |
| Network.FirstNeighborWalkDefined | main.cpp:158-165 | on a grid of two or more nodes, always picking the first neighbour gives a walk whose every pick is valid |
| Network.FirstNeighborGrid | main.cpp:236-258 | nodes 5, 1, 0 and 4 of the 4 x 4 grid have neighbours [1,4,6,9], [0,2,5], [1,4] and [0,5,8] |
| Network.FirstNeighborAgentHops | main.cpp:154-185 | first-neighbour agent walk from node 5 with four hops: nodes 5, 1, 0, 1, jumps 0 to 3, next neighbours 1, 0, 1, -1 |
| Network.FirstNeighborTwoHops | main.cpp:43-58 | the first two hops each insert the first record at nodes 5 and 1 |
| Network.FirstNeighborThreeHops | main.cpp:43-58 | the third hop inserts the first record at node 0 |
| Network.FirstNeighborAgentTables | main.cpp:43-58 | after the walk nodes 5, 1 and 0 hold one record each; the revisit of node 1 changes nothing; node 4 stays empty |
| Network.FirstNeighborSearch | main.cpp:188-233 | a search from node 4 over those tables hits at node 0 with route [0, 4] |
| Network.FirstNeighborScenario | main.cpp:154-233 | the whole worked scenario on the 4 x 4 grid: the agent's hops 5, 1, 0, 1, the tables left at nodes 5, 1 and 0 with node 4 empty, and the search result (true, [0, 4]) |
| Walks.AgentHops | main.cpp:155-184 | the agent makes exactly one hop per pick (`CONST_TTL + 1` in the driver), every hop at a valid node |
| Walks.AgentHopsRecords | main.cpp:155-169 | hop k is at a valid node whose list the pick indexes, and carries the event id, k jumps and TTL `CONST_TTL - k` |
| Walks.AgentHopsLinks | main.cpp:163-165 | each hop but the last names the picked neighbour as next, and the next hop is at that node; the last hop names -1 |
| Walks.AgentHopAt | main.cpp:155-181 | hop k of the walk: its message in full and the node of hop k + 1 |
| Walks.ApplyHops | main.cpp:169 | applying the hops keeps one table per node |
| Walks.ApplyHopsKeepsIdsUnique | main.cpp:169 | every table keeps at most one record per id through a walk |
| Walks.ApplyHopsNeverWorse | main.cpp:169 | a node that knows an id keeps knowing it, never with more jumps |
| Walks.AgentLeavesTrail | main.cpp:158-181 | every node the agent visits ends up knowing the event, with at most the jumps of that visit |
| Walks.ApplyHopsUntouched | main.cpp:169 | a node the walk never visits keeps its table |
| Walks.FirstVisitKept | main.cpp:49 | with strictly increasing jumps, a node new to the event keeps the record of its first visit |
| Walks.AgentFirstVisitWins | main.cpp:154-185 | a node new to the event ends with the record of the agent's first visit: its jumps and the neighbour picked then |
| Walks.WalkDefinedSearchDefined | main.cpp:197-200 | picks that every agent hop can draw can also be drawn by a search from the same node over any tables |
| Walks.SearchVisits | main.cpp:194-228 | the search visits at most one node per pick, starting at the sink |
| Walks.SearchVisitsInRange | main.cpp:197-200 | every visited node is valid and its pick indexes its neighbour list |
| Walks.SearchVisitsLinks | main.cpp:200-228 | every visit but the last is at a node that does not know the event, and the next visit is its picked neighbour |
| Walks.SearchVisitsStop | main.cpp:203-223 | a search that stops before its last pick stops at a node that knows the event |
| Walks.SearchVisitAt | main.cpp:194-228 | visit k on its own: it is valid, a hit is the last visit, a miss moves on or ends the TTL |
| Walks.Reversed | main.cpp:214 | same length, element k is element n - 1 - k of the input |
| Walks.SearchResult | main.cpp:203-231 | the reference definition of the search outcome: a hit when the last visited node knows the event, reporting the visits reversed; otherwise a miss reporting the visits in order. `SearchHitRoute` and `SearchMissRoute` state what it means |
| Walks.SearchHitRoute | main.cpp:203-224 | on a hit the route is the visit order reversed: it starts at the node that knows the event, ends at the sink, and no node after the first knows the event |
| Walks.SearchMissRoute | main.cpp:194-232 | on a miss the route is all `|picks|` visited nodes (`CONST_TTL + 1` in the driver), none of which knows the event |
| Walks.SearchHitAtSink | main.cpp:203-214 | a sink that knows the event gives `(true, [sink])` |
| Walks.AgentThenSearch | main.cpp:154-233 | after an agent walk, a search from any node the agent visited hits at once |

## Left out

- Console output: `print_event_table`, `show_network` and every trace line of both walks. These are presentation only.
- Random number generation. The generator seeded on each hop becomes the `picks` parameter. The random creator in `generate_agent_message` becomes its `creator` parameter.
- `show_generate_node`, `generate_sink` and `main`. They choose nodes at random and print; the model's parameters take their place.
- `new`/`delete` of nodes and agent messages, and the `Node::position` coordinates. Neither affects the protocol.
- Iterator use after `erase` in `check_event_table`. After erasing and appending, the loop goes on with an invalidated iterator, which is undefined behaviour in C++. The model does the evident intent: remove the matching record, append the candidate once, and stop. Given unique ids this is also what a vector that does not reallocate on that `push_back` ends up holding.
- Nodes.Node.CheckEventTable: requires the table to hold at most one record per id (`Valid`). Every table built only by this operation has that property, and the operation keeps it.
- Network.PropagateAgentMessage: requires the nodes to be distinct objects, as `CreateNetwork` makes them. It also requires that every pick the walk draws is valid (`WalkDefined`). Without that the source indexes out of bounds, including when a neighbour list is empty.
- Network.PropagateSearchMessage: requires every pick it draws to be valid (`SearchDefined`), for the same reason.
- Integer widths. `size_t` arithmetic in `get_neighbors` wraps `i - width` to a huge value, which the `int` cast turns into a negative id. The model writes the negative id directly, which the range filter removes as the source does. Grids whose `length * width` overflows `int` are not modelled.
- Storing an `AgentMessage` in a table keeps only its `Event` part, because `push_back(*event)` slices the object. The model offers the table the message's `event` field, so the TTL is not stored.
