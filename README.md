# Graph<E> — a verified model

This project models `Graph<E>` from Graph.java. It is a directed, weighted graph kept in two hash maps:
- the adjacency map, from source to destination to an integer cost;
- the data map, from vertex name to payload.

A vertex exists when it has a payload. An edge may name a destination that has no payload. A source without a payload may get an edge as long as its destination has no payload either.

The model is the class `Graphs.Graph` (graph.dfy). Its two fields are the two maps, as Dafny `map` values. The class has the source's operations:
- storage: `AddVertex`, `AddDirectedEdge`, `GetData`, `GetCost`, `GetAdjacentVertices`, `GetVertices`;
- the two traversals: `BreadthFirstSearch`, `DepthFirstSearch`;
- the shortest-path search: `Dijkstra`, with its parts `ConnectedFrom`, `RetrieveVertexWithLowestDistance`, `SettleFrom`, `Round`, `Relax`, `WalkBack`;
- the textual rendering: `ToString`, with its parts `HeaderText`, `AppendLines`, `AppendVertexLine`, `AppendBucket`, `AppendEntries`.

The methods are imperative. Every loop of the source is a `while` loop in the model, in the method of its operation or of one of its parts. The loops of `getVertices` and of the two traversals are in `GetVertices`, `BreadthFirstSearch` and `DepthFirstSearch`, with the inner push loops in `PushUnvisited` and `UnvisitedNeighbours`. The loops of `doDijkstras` are in `ConnectedFrom`, `MarkNeighbours`, `UnreachedAll`, `SettleFrom`, `Relax`, `RetrieveVertexWithLowestDistance` and `WalkBack`. Those of `toString` are in `HeaderText`, `AppendLines` and `AppendEntries`. The final `Collections.reverse` is not a separate step: `WalkBack` puts each vertex in front, which builds the reversed list directly. Each loop is proved against specification functions and predicates defined in five modules:
- `Lex` (lex.dfy): Java's `String.compareTo`, which orders the priority queues and the sorted maps, proved to be a strict total order.
- `Paths` (paths.dfy):
  - edges, walks, walk costs and reachability;
  - `VisitTrace`, what every traversal trace satisfies;
  - `Fringe` and `LeastFirst`, the order the priority-queue traversal visits in.
- `BreadthFirst` and `DepthFirst` (traversal.dfy): the loop invariants of the two traversals and the lemmas that keep them. `DepthFirst.DeepestFirst` states the depth-first visiting order.
- `ShortestPaths` (dijkstra.dfy):
  - the state of the main loop of `doDijkstras`;
  - its invariant when no cost is negative (distances are costs of walks, settled distances are final, predecessors form a tree);
  - what follows once the loop stops;
  - the predecessor chains the final walk follows.
- `Text` (text.dfy): the text `toString` produces, stated as joins of items, with lemmas relating it to the source's append-then-cut construction.

How the source's behaviour is represented:
- **Exceptions** are values:
  - `Outcome.Fail` and `Result.Err` for the storage operations;
  - `Traversal.StartNotFound` and `Traversal.Aborted` for the traversals;
  - `PathResult.Failed` and `PathResult.Diverges` for `doDijkstras`.
  A null dereference or unboxing is `NullPointer`. `Diverges` stands for the predecessor walk of `doDijkstras` going round a cycle forever.
- **The traversal callback** is represented by the trace of vertex names it would be called with.
- **Hash-map and hash-set iteration** takes elements in an arbitrary order (`:|`), so every property holds whatever order the Java collections use.
- **toString** returns, as ghost outputs, the order in which it read each bucket. Its text is stated against those orders.

Places where the code does not do what a caller of this class would expect; the model follows the code:
- `getCost` on a missing bucket or key throws a NullPointerException, not a dedicated "edge not found" error.
- `toString` lists each vertex's destinations in hash-map order, not sorted.
- A traversal that reaches a vertex with no outgoing edges throws, after reporting that vertex. This is because the source looks up the vertex's bucket without a check. It is modelled as `Aborted`.
- When no edge cost is negative and every vertex start reaches has a payload, `doDijkstras` gives a vertex whose cheapest walk costs 10000 or more no predecessor. On such an `end` it throws, even though the pre-pass found `end` reachable.
- The pre-pass test "start is not connected" can never succeed: `ConnectedFrom` returns exactly the vertices reachable from `start`, and `start` reaches itself.

## Model

| member | source | states |
|---|---|---|
| Graphs.Graph.constructor | Graph.java:19-24 | Both maps start empty, and the no-empty-bucket invariant holds. |
| Graphs.Graph.GetData | Graph.java:245-251 | Succeeds exactly when the name has a payload and returns that payload; otherwise the error is VertexNotFound. |
| Graphs.Graph.GetCost | Graph.java:239-243 | Succeeds exactly when the edge is stored and returns its cost; a missing bucket or key is a NullPointer error. |
| Graphs.Graph.GetAdjacentVertices | Graph.java:233-237 | Some bucket exactly when the name has one, and then it is that bucket. |
| Graphs.Graph.GetVertices | Graph.java:253-266 | The returned set is exactly the names that have a payload. |
| Graphs.Graph.AddDirectedEdge | Graph.java:26-38 | Fails (InvalidVertex, nothing changed) exactly when the source has no payload and the destination has one. Otherwise: getCost of the pair is the new cost; the source's bucket keys are its old keys plus the destination; its other costs and every other bucket are unchanged; the data map never changes; no bucket becomes empty. |
| Graphs.Graph.AddVertex | Graph.java:40-46 | Fails (DuplicateVertex, nothing changed) exactly when the name already has a payload. Otherwise the data map gains exactly name -> payload, getData returns it, and the vertex set grows by that name. The adjacency map never changes. |
| Graphs.Graph.BreadthFirstSearch | Graph.java:48-76 | StartNotFound exactly when start has no bucket. Otherwise the trace is a visit trace (start first, no repeats, each vertex a neighbour of an earlier one, all reachable), and each vertex is the least name on the fringe of those before it. A finished run visits exactly the reachable vertices. An aborted run stops at the first visited vertex without a bucket. |
| Graphs.Graph.PushUnvisited | Graph.java:66-70 | The queue gains every bucket key not yet visited, once each, and nothing else. |
| Graphs.Graph.UnvisitedNeighbours | Graph.java:96-99 | The pushed names are exactly the bucket's keys not yet visited, each once. |
| Graphs.Graph.DepthFirstSearch | Graph.java:78-106 | StartNotFound exactly when start has no bucket. Otherwise the trace is a visit trace in depth-first order: each vertex is a neighbour of the latest visited vertex that still had an unvisited neighbour. A finished run visits exactly the reachable vertices. An aborted run stops at the first visited vertex without a bucket. |
| Graphs.Graph.ConnectedFrom | Graph.java:117-143 | The connected set of the pre-pass is exactly the set of vertices reachable from start. |
| Graphs.Graph.CheckVertex | Graph.java:124-141 | For a vertex taken off the queue, every neighbour becomes connected. Connected vertices stay reachable and within the finite universe. Exactly the newly connected vertices are queued. |
| Graphs.Graph.MarkNeighbours | Graph.java:130-139 | Every bucket key becomes connected, and exactly the keys not connected before are queued for checking. |
| Graphs.Graph.UnreachedAll | Graph.java:157-161 | Every name with a payload, and no other, gets the distance 10000. |
| Graphs.Graph.RetrieveVertexWithLowestDistance | Graph.java:212-231 | NullPointer exactly when a candidate has no distance. None exactly when no candidate's distance is below Integer.MAX_VALUE, with the set unchanged. Otherwise it returns a candidate of least distance, below that bound, and removes exactly it. |
| Graphs.Graph.Relax | Graph.java:174-187 | The distance keys are kept, and every bucket key not yet visited becomes a candidate. Predecessors are either kept or set to u. Without a negative self-loop on u, the result is the order-independent relaxation from dist[u]. |
| Graphs.Graph.WalkBack | Graph.java:195-206 | Found exactly when a predecessor chain from start to end exists, and then the vertices are such a chain. End without a predecessor is Broken. |
| Graphs.Graph.StartSearch | Graph.java:152-164 | The state before the main loop: nothing visited and no predecessors; start is the only candidate at distance 0, and every other name with a payload is at 10000. This state meets both loop invariants. |
| Graphs.Graph.SettleFrom | Graph.java:152-193 | The invariant that holds on every input is kept by the main loop. Under non-negative costs with every reachable vertex holding a distance, the loop never throws, its state meets the shortest-path invariant, and it stops with every bucket settled or no candidate left. |
| Graphs.Graph.KeptRound | Graph.java:166-191 | One round keeps both invariants and settles a new vertex. It throws only when the shortest-path hypotheses fail. An exhausted round under those hypotheses means no candidates are left. |
| Graphs.Graph.Round | Graph.java:166-191 | It throws exactly when a candidate has no distance, and is exhausted only when every candidate's distance is at least Integer.MAX_VALUE. Otherwise it settles a candidate of least distance and makes a loop step; under non-negative costs the step relaxes that candidate's bucket in an order-independent way. |
| Graphs.Graph.Dijkstra | Graph.java:108-210 | Equal endpoints give cost 0 and path [start]. NoPath exactly when end is unreachable. A returned path is a walk from start to end without repeats. Under non-negative costs, a distance for every reachable vertex and some walk cheaper than 10000: a path whose cost is its walk's cost and no more than any walk's. Under the first two with every walk costing at least 10000: NullPointer. |
| Graphs.Graph.ToString | Graph.java:268-312 | The text is the header of the names in ascending order, then each name's line in that order, each bucket read in the recorded order. The names are exactly the vertices. Since buckets are never empty, every vertex line ends with its closing brace and newline. |
| Graphs.Graph.AppendLines | Graph.java:283-307 | Appends the line of every given name, in order, with the orders recorded for each bucket. |
| Graphs.Graph.HeaderText | Graph.java:272-281 | The header built by appending ", "-terminated names and cutting two characters is the joined header. |
| Graphs.Graph.AppendVertexLine | Graph.java:285-305 | Appends exactly the vertex's line; its bucket is read in an order listing each key once. |
| Graphs.Graph.AppendBucket | Graph.java:289-300 | Appends the joined entries and closing brace of a non-empty bucket, or nothing for an empty one. |
| Graphs.Graph.AppendEntries | Graph.java:289-293 | Appends every entry followed by ", ", in an order listing each key exactly once. |
| Lex.Irreflexive | Graph.java:52 | No name is below itself in compareTo order. |
| Lex.Asymmetric | Graph.java:52 | Two names are never below each other. |
| Lex.Transitive | Graph.java:52 | The compareTo order is transitive. |
| Lex.Total | Graph.java:52 | Any two distinct names are ordered one way or the other. |
| Lex.AtMostTotalOrder | Graph.java:270-271 | The non-strict order is reflexive, antisymmetric, transitive and total. |
| Lex.Least | Graph.java:59 | Polling the priority queue yields the least name of a non-empty set. |
| Lex.SortedNames | Graph.java:270 | Sorted-map key order: a strictly ascending listing of exactly the set's names. |
| Paths.ReachableSelf | Graph.java:119-120 | Every vertex reaches itself. |
| Paths.Extend | Graph.java:176-180 | Adding an edge to a walk gives a walk whose cost grows by that edge's cost. |
| Paths.ReachableStep | Graph.java:130-135 | A neighbour of a reachable vertex is reachable. |
| Paths.Prefix | Graph.java:176-180 | A non-empty prefix of a walk is a walk. |
| Paths.PrefixCost | Graph.java:176-180 | Under non-negative costs a prefix of a walk costs no more than the walk. |
| Paths.ExitCost | Graph.java:176-180 | Under non-negative costs, a prefix of a walk plus the next edge costs no more than the whole walk. |
| Paths.NonNegativeCost | Graph.java:110-113 | Under non-negative costs every walk costs at least 0. |
| Paths.LastStep | Graph.java:195-206 | A walk between distinct vertices ends with an edge from its second-last vertex, and its cost splits accordingly. |
| Paths.LeavesAt | Graph.java:166-168 | A walk that starts inside a set and ends outside it crosses the set's boundary on some edge. |
| Paths.ClosedHoldsReachable | Graph.java:122-143 | A set closed under edges that contains start contains every vertex start reaches. |
| Paths.FewerLeft | Graph.java:57-63 | Visiting a new vertex leaves fewer unvisited ones, which is why the traversals end. |
| Paths.TraceStep | Graph.java:61-63 | Visiting an unvisited reachable neighbour of a traced vertex extends a visit trace. |
| Paths.FringeExtend | Graph.java:66-69 | After visiting c, the fringe is the old fringe plus c's neighbours, less the visited vertices. |
| Paths.EmptyFringeClosed | Graph.java:57 | A trace with an empty fringe is closed under edges. |
| BreadthFirst.Unvisited | Graph.java:66-69 | The names pushed by a visit are exactly current's neighbours not yet visited. |
| BreadthFirst.Init | Graph.java:50-55 | The queue holding only start satisfies the traversal invariant. |
| BreadthFirst.LeastFirstExtend | Graph.java:59-63 | Visiting the least fringe name keeps the least-first order. |
| BreadthFirst.Next | Graph.java:59-63 | The polled unvisited name extends the trace to a least-first visit trace, and is reachable. |
| BreadthFirst.Abort | Graph.java:63-66 | A polled unvisited name without a bucket ends a least-first visit trace whose earlier names all have buckets. |
| BreadthFirst.Skip | Graph.java:59-61 | Dropping a visited name from the queue keeps the invariant. |
| BreadthFirst.PushedReachable | Graph.java:66-69 | Everything in the queue after a visit is reachable. |
| BreadthFirst.PushedFringe | Graph.java:66-69 | After a visit, the unvisited names in the queue are exactly the new fringe. |
| BreadthFirst.Visit | Graph.java:61-70 | A visit keeps the traversal invariant. |
| BreadthFirst.Done | Graph.java:57-76 | With an empty queue the trace is a least-first visit trace of exactly the reachable vertices, all of which have buckets. |
| DepthFirst.Init | Graph.java:80-85 | The stack holding only start satisfies the traversal invariant. |
| DepthFirst.Skip | Graph.java:89-91 | Popping a visited name keeps the invariant. |
| DepthFirst.SkipShape | Graph.java:89 | Popping keeps the stack and its pusher indices aligned and ordered. |
| DepthFirst.SkipEdges | Graph.java:89 | Popping keeps every stacked name a neighbour of the vertex that pushed it. |
| DepthFirst.SkipReach | Graph.java:89 | Popping keeps every stacked name reachable. |
| DepthFirst.SkipPending | Graph.java:89-91 | Popping a visited name keeps every unvisited neighbour of a visited vertex on the stack. |
| DepthFirst.TopPusher | Graph.java:89-93 | An unvisited top of stack was pushed by a visited vertex it is a neighbour of. |
| DepthFirst.AboveTopExhausted | Graph.java:89-93 | Every vertex visited after the top's pusher has no unvisited neighbour. |
| DepthFirst.Next | Graph.java:89-93 | The popped unvisited name extends the trace to a depth-first visit trace, and is reachable. |
| DepthFirst.NextDeepest | Graph.java:89-93 | A neighbour of a vertex, all of whose later vertices are exhausted, extends a depth-first trace. |
| DepthFirst.Abort | Graph.java:93-96 | A popped unvisited name without a bucket ends a depth-first visit trace whose earlier names all have buckets. |
| DepthFirst.VisitShape | Graph.java:96-99 | Pushing the neighbours keeps the stack and its pusher indices aligned and ordered. |
| DepthFirst.VisitEdges | Graph.java:96-99 | Each pushed name is a neighbour of the vertex just visited. |
| DepthFirst.VisitReach | Graph.java:96-99 | Each pushed name is reachable. |
| DepthFirst.VisitPending | Graph.java:96-99 | After a visit, every unvisited neighbour of a visited vertex is on the stack. |
| DepthFirst.Visit | Graph.java:91-100 | A visit keeps the traversal invariant. |
| DepthFirst.VisitTraceOk | Graph.java:91-93 | A visit of a vertex with a bucket keeps the trace bookkeeping. |
| DepthFirst.Done | Graph.java:87-106 | With an empty stack the trace is a depth-first visit trace of exactly the reachable vertices, all of which have buckets. |
| ShortestPaths.RelaxOne | Graph.java:176-187 | Relaxing one more bucket key keeps the maps equal to the order-independent relaxation of the keys done so far, and u's distance does not move. |
| ShortestPaths.RelaxedStep | Graph.java:166-191 | An order-independent relaxation of u's bucket, or none without a bucket, is a loop step. |
| ShortestPaths.Init | Graph.java:157-164 | The initial distances (10000 for every payload, 0 for start) satisfy both invariants. |
| ShortestPaths.BaseStep | Graph.java:166-191 | Every loop step keeps the invariant that holds on all inputs. |
| ShortestPaths.PickSettled | Graph.java:168 | Under non-negative costs no walk to the least-distance candidate is cheaper than its distance. |
| ShortestPaths.NoShortcut | Graph.java:178 | A settled distance is at most any witnessed distance of a neighbour plus the edge cost. |
| ShortestPaths.SettledKept | Graph.java:176-183 | Relaxing from the picked vertex lowers no settled distance, nor its own. |
| ShortestPaths.RelaxedAt | Graph.java:176-183 | After a step, a key either improved (new distance through u, predecessor u) or kept its distance and predecessor. |
| ShortestPaths.StepDistances | Graph.java:176-183 | A step keeps every distance within 0..10000, and keeps each distance below 10000 the cost of some walk. |
| ShortestPaths.WitnessStep | Graph.java:178-180 | A walk to u followed by the edge u -> v witnesses the relaxed distance of v. |
| ShortestPaths.StepFrontier | Graph.java:166-191 | A step keeps settled vertices final, their edges relaxed and their unsettled neighbours candidates. |
| ShortestPaths.FrontierReach | Graph.java:185 | A step keeps every settled and candidate vertex reachable. |
| ShortestPaths.FrontierSettled | Graph.java:168-170 | A step keeps every settled distance final. |
| ShortestPaths.FrontierEdges | Graph.java:176-187 | A step keeps every settled vertex's edges relaxed and its unsettled neighbours candidates. |
| ShortestPaths.StepTree | Graph.java:180-182 | A step keeps the predecessors a tree of settled vertices whose edges account for the distances. |
| ShortestPaths.TreeLinks | Graph.java:180-182 | Each predecessor stays settled, and its edge gives the whole distance. |
| ShortestPaths.SettledPredsKept | Graph.java:180-182 | A step does not change the predecessor of a settled vertex. |
| ShortestPaths.TreeRanks | Graph.java:168-170 | The settling positions stay distinct and below the number of settled vertices. |
| ShortestPaths.TreeOrder | Graph.java:180-182 | A settled vertex's predecessor was settled before it. |
| ShortestPaths.TreeCovers | Graph.java:180-182 | Every vertex other than start with a distance below 10000 has a predecessor. |
| ShortestPaths.GoodStep | Graph.java:166-191 | Under non-negative costs with every reachable vertex holding a distance, a step from the least candidate keeps the shortest-path invariant. |
| ShortestPaths.Advance | Graph.java:166-191 | A step from the least candidate keeps both invariants and settles one more vertex of the finite universe. |
| ShortestPaths.DrainedVisitedAll | Graph.java:166-172 | When no candidate is left, every reachable vertex is settled. |
| ShortestPaths.Finish | Graph.java:166-193 | After the loop, on well-posed inputs, end has a predecessor and its distance is final. |
| ShortestPaths.LastEdgeSettled | Graph.java:166 | Once every bucket is settled, the distance of a non-start vertex is final. |
| ShortestPaths.PredBelow | Graph.java:180-182 | A vertex with a predecessor has a walk from start cheaper than 10000. |
| ShortestPaths.ChainIsPath | Graph.java:195-206 | A predecessor chain along stored edges is a walk from start to its end. |
| ShortestPaths.ChainPrefix | Graph.java:198-202 | Dropping the last vertex of a chain leaves a chain to its predecessor. |
| ShortestPaths.ChainFront | Graph.java:198-202 | Putting a vertex's unseen predecessor in front of a chain gives a chain. |
| ShortestPaths.ChainsAgree | Graph.java:198-202 | Two chains to the same end agree position by position from the back. |
| ShortestPaths.NoChain | Graph.java:195-202 | A chain back from end that missed start and stops at a missing or repeated predecessor rules out any chain from start. |
| ShortestPaths.ChainExtend | Graph.java:198-202 | A chain to x extends by y when x is y's predecessor and y is new. |
| ShortestPaths.ChainCost | Graph.java:206-208 | The walk along a predecessor chain costs exactly the distance of its end. |
| ShortestPaths.ChainTo | Graph.java:195-206 | A vertex with a predecessor, or start itself, has a chain from start through earlier-settled vertices. |
| Text.TerminatedIsJoin | Graph.java:274-280 | Cutting the final ", " off the separator-terminated items gives their join. |
| Text.ListingSnoc | Graph.java:289-293 | Appending one more entry and ", " extends the listing by that key. |
| Text.ListingIsTerminated | Graph.java:289-293 | A bucket's listing is its entries each followed by ", ". |
| Text.EntriesCount | Graph.java:289-293 | A listing of keys has one entry per key. |
| Text.CutListing | Graph.java:295-298 | Cutting two characters off a non-empty listing gives the joined entries. |
| Text.VertexLineClosed | Graph.java:285-305 | A vertex line is closed with "}" and a newline exactly when the vertex has no bucket or a non-empty one. |
| Text.OrdersSnoc | Graph.java:283-289 | Recording one more bucket order keeps the orders aligned with the names. |
| Text.LinesSnoc | Graph.java:283-307 | Appending one more line extends the lines by that name. |
| Text.SameBelowLast | Graph.java:270 | Two ascending listings of the same names that share their last name agree on what comes before it. |
| Text.AscendingUnique | Graph.java:270-274 | A set of names has exactly one ascending listing, so the vertex order of the text is fixed. |

## Left out

- The callback: `CallBack` is not part of this model. Each traversal returns the trace of names it would pass, without the payloads.
- Null values: payloads are never null. The duplicate test of `addVertex`, which compares the looked-up payload with null, is modelled as key membership.
- Graphs.Graph.GetAdjacentVertices returns the bucket as a value. Aliasing the live internal map, and changes made through it, are not modelled.
- Graphs.Graph.Dijkstra takes no caller list. The model returns the path as a sequence, which is the list's final content if the list started empty. Partial contents left in the list by an exception are not modelled.
- Graphs.Graph.Dijkstra states optimality only under non-negative costs, a distance for every reachable vertex, and some walk cheaper than 10000. Otherwise it states only that a returned path is a repeat-free walk from start to end.
- Graphs.Graph.Dijkstra's `Diverges` stands for the predecessor walk cycling forever. The source's list then grows until memory runs out, which is not modelled.
- Graphs.Graph.Relax characterises the new distances only when u has no edge to itself of negative cost. Such an edge changes u's distance during the loop, and the result then depends on the bucket's order.
- Graphs.Graph.WalkBack does not state when Broken rather than Cycles is returned, beyond a missing predecessor of end. Both mean that no chain exists.
- Integer overflow: costs, distances and `getCost(..) + distances.get(..)` are mathematical integers. Java's 32-bit wrap-around is not modelled; Integer.MAX_VALUE is kept only as the bound of the minimum scan.
- String order: `Lex.Below` compares characters as Dafny `char`s. This matches compareTo on UTF-16 code units only for characters of the basic multilingual plane.
- Hash iteration order: the order in which HashMap and HashSet yield their elements is arbitrary choice. Tie-breaking among equal distances and the order of destinations in a text line are therefore not fixed.
- Text.IntToString writes Integer.toString's decimal form; its correctness as a decimal encoding is not proved.
- doDijkstras and toString are each split into several methods along the phases of the source. The StringBuffer is a string value that the methods extend and return.
