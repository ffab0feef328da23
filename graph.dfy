/**
 * A directed, weighted graph kept in two maps: the adjacency map (source ->
 * destination -> cost) and the data map (vertex name -> payload). A vertex
 * exists when it has a payload; edges may name vertices that do not.
 */
module Graphs {
  import Lex
  import opened Paths
  import Text
  import BreadthFirst
  import DepthFirst
  import ShortestPaths

  datatype Option<T> = None | Some(value: T)

  /**
   * The exceptions the graph raises, as values. The first three are the
   * IllegalArgumentExceptions of addVertex, addDirectedEdge and getData,
   * told apart by their messages; NullPointer is a null dereference or unboxing.
   */
  datatype Error = DuplicateVertex | InvalidVertex | VertexNotFound | NullPointer

  datatype Outcome = Pass | Fail(error: Error)

  datatype Result<T> = Ok(value: T) | Err(error: Error)

  /**
   * What a traversal does. The callback is modelled by the trace of the
   * vertex names it would be called with, in order. A traversal stops with
   * an exception when it visits a vertex without a bucket: Aborted holds the
   * trace up to and including that vertex, whose callback has already fired.
   */
  datatype Traversal = StartNotFound | Finished(visits: seq<string>) | Aborted(visits: seq<string>)

  /** The largest Java int: the starting "lowest cost" of the minimum scan. */
  const IntMax: int := 0x7fff_ffff

  /**
   * What doDijkstras does: it returns a cost and fills the caller's list with
   * a path (Path), returns -1 with the list holding "None" (NoPath), throws
   * (Failed), or runs forever following a cycle of predecessors (Diverges).
   */
  datatype PathResult = Path(cost: int, vertices: seq<string>) | NoPath | Failed(error: Error) | Diverges

  /** How one round of the main loop of doDijkstras ends. */
  datatype RoundStatus = Crashed | Exhausted | Settled(u: string)

  /** How following the predecessors back from the end vertex ends. */
  datatype Walk = Found(vertices: seq<string>) | Broken | Cycles

  class Graph<E> {
    var adjacency: Adjacency
    var data: map<string, E>

    /** Buckets are created only to hold an edge, so none is empty. */
    ghost predicate Valid()
      reads this
    {
      forall a :: a in adjacency ==> |adjacency[a]| > 0
    }

    constructor ()
      ensures adjacency == map[] && data == map[]
      ensures Valid()
    {
      adjacency := map[];
      data := map[];
    }

    /** getData: the payload of a vertex, or VertexNotFound. */
    function GetData(name: string): (r: Result<E>)
      reads this
      ensures r.Ok? <==> name in data
      ensures r.Ok? ==> r.value == data[name]
      ensures r.Err? ==> r.error == VertexNotFound
    {
      if name in data then Ok(data[name]) else Err(VertexNotFound)
    }

    /** getCost: the cost of the edge source -> destination; a missing bucket or key throws on a null. */
    function GetCost(source: string, destination: string): (r: Result<int>)
      reads this
      ensures r.Ok? <==> Edge(adjacency, source, destination)
      ensures r.Ok? ==> r.value == adjacency[source][destination]
      ensures r.Err? ==> r.error == NullPointer
    {
      if source in adjacency && destination in adjacency[source] then Ok(adjacency[source][destination])
      else Err(NullPointer)
    }

    /** getAdjacentVertices: the bucket of a vertex, if it has one. */
    function GetAdjacentVertices(name: string): (r: Option<map<string, int>>)
      reads this
      ensures r.Some? <==> name in adjacency
      ensures r.Some? ==> r.value == adjacency[name]
    {
      if name in adjacency then Some(adjacency[name]) else None
    }

    /** getVertices: a fresh set holding every name that has a payload. */
    method GetVertices() returns (vertices: set<string>)
      ensures vertices == data.Keys
    {
      vertices := {};
      var rest := data.Keys;
      while rest != {}
        invariant rest <= data.Keys
        invariant vertices == data.Keys - rest
        decreases rest
      {
        var i :| i in rest;
        vertices := vertices + {i};
        rest := rest - {i};
      }
    }

    /**
     * addDirectedEdge: rejected only when the source has no payload and the
     * destination has one; otherwise the source's bucket is created if
     * needed and the cost stored, replacing an earlier cost for the pair.
     */
    method AddDirectedEdge(source: string, destination: string, cost: int) returns (r: Outcome)
      modifies this
      ensures r.Fail? <==> source !in old(data) && destination in old(data)
      ensures r.Fail? ==> r.error == InvalidVertex && adjacency == old(adjacency)
      ensures r.Pass? ==> GetCost(source, destination) == Ok(cost)
      ensures r.Pass? ==> (source in adjacency &&
        adjacency[source].Keys == (if source in old(adjacency) then old(adjacency)[source].Keys else {}) + {destination})
      ensures r.Pass? ==> forall d :: d in adjacency[source] && d != destination ==>
        d in old(adjacency)[source] && adjacency[source][d] == old(adjacency)[source][d]
      ensures r.Pass? ==> forall a :: a != source ==> GetAdjacentVertices(a) == old(GetAdjacentVertices(a))
      ensures data == old(data)
      ensures old(Valid()) ==> Valid()
    {
      if source !in data && destination in data {
        return Fail(InvalidVertex);
      }
      if source !in adjacency {
        adjacency := adjacency[source := map[]];
      }
      adjacency := adjacency[source := adjacency[source][destination := cost]];
      r := Pass;
    }

    /**
     * addVertex: rejected when the name already has a payload; otherwise the
     * payload is stored and the adjacency map is left alone.
     */
    method AddVertex(name: string, payload: E) returns (r: Outcome)
      modifies this
      ensures r.Fail? <==> name in old(data)
      ensures r.Fail? ==> r.error == DuplicateVertex && data == old(data)
      ensures r.Pass? ==> data == old(data)[name := payload]
      ensures r.Pass? ==> GetData(name) == Ok(payload) && data.Keys == old(data.Keys) + {name}
      ensures adjacency == old(adjacency)
    {
      if name in data {
        return Fail(DuplicateVertex);
      }
      data := data[name := payload];
      r := Pass;
    }

    /**
     * doBreadthFirstSearch. The frontier is a priority queue of names (so a
     * name may sit in it more than once), and every step takes its least
     * name; a name already visited is dropped. The trace is therefore the
     * traversal that always visits the least name on the fringe next.
     */
    method BreadthFirstSearch(start: string) returns (r: Traversal)
      ensures r.StartNotFound? <==> start !in adjacency
      ensures !r.StartNotFound? ==> VisitTrace(adjacency, start, r.visits)
      ensures !r.StartNotFound? ==> LeastFirst(adjacency, r.visits)
      ensures r.Finished? ==> forall v :: v in r.visits <==> Reachable(adjacency, start, v)
      ensures r.Finished? ==> forall v :: Reachable(adjacency, start, v) ==> v in adjacency
      ensures r.Aborted? ==> (r.visits[|r.visits| - 1] !in adjacency &&
        forall k :: 0 <= k < |r.visits| - 1 ==> r.visits[k] in adjacency)
    {
      if start !in adjacency {
        return StartNotFound;
      }
      ghost var universe := Destinations(adjacency) + {start};
      var frontier := multiset{start};
      var visited: set<string> := {};
      var trace: seq<string> := [];
      BreadthFirst.Init(adjacency, start);
      while frontier != multiset{}
        invariant BreadthFirst.Inv(adjacency, start, universe, frontier, visited, trace)
        decreases |universe - visited|, |frontier|
      {
        var current := Lex.Least(set v | v in frontier);
        if current in visited {
          BreadthFirst.Skip(adjacency, start, universe, frontier, visited, trace, current);
          frontier := frontier - multiset{current};
        } else if current !in adjacency {
          BreadthFirst.Abort(adjacency, start, universe, frontier, visited, trace, current);
          return Aborted(trace + [current]);
        } else {
          BreadthFirst.Visit(adjacency, start, universe, frontier, visited, trace, current);
          FewerLeft(universe, visited, current);
          visited := visited + {current};
          trace := trace + [current];
          assert BreadthFirst.Unvisited(adjacency, current, visited) == adjacency[current].Keys - visited;
          frontier := PushUnvisited(frontier - multiset{current}, adjacency[current], visited);
        }
      }
      BreadthFirst.Done(adjacency, start, universe, visited, trace);
      r := Finished(trace);
    }

    /**
     * The push loop of a breadth-first visit: every key of the bucket that is
     * not in visited joins the priority queue once.
     */
    static method PushUnvisited(frontier: multiset<string>, bucket: map<string, int>, visited: set<string>)
      returns (frontier': multiset<string>)
      ensures frontier' == frontier + multiset(bucket.Keys - visited)
    {
      frontier' := frontier;
      ghost var pushed: set<string> := {};
      var rest := bucket.Keys;
      while rest != {}
        invariant rest <= bucket.Keys
        invariant pushed == bucket.Keys - rest - visited
        invariant frontier' == frontier + multiset(pushed)
        decreases rest
      {
        var i :| i in rest;
        if i !in visited {
          BreadthFirst.PushOne(frontier, frontier', pushed, i);
          frontier' := frontier' + multiset{i};
          pushed := pushed + {i};
        }
        rest := rest - {i};
      }
    }

    /**
     * The keys of a bucket that are not in visited, each once, in the order a
     * hash map happens to iterate them: the names a traversal step pushes.
     */
    static method UnvisitedNeighbours(bucket: map<string, int>, visited: set<string>) returns (pushed: seq<string>)
      ensures forall x :: x in pushed <==> x in bucket && x !in visited
      ensures forall i, j :: 0 <= i < j < |pushed| ==> pushed[i] != pushed[j]
    {
      pushed := [];
      var rest := bucket.Keys;
      while rest != {}
        invariant rest <= bucket.Keys
        invariant forall x :: x in pushed <==> x in bucket && x !in rest && x !in visited
        invariant forall i, j :: 0 <= i < j < |pushed| ==> pushed[i] != pushed[j]
        decreases rest
      {
        var x :| x in rest;
        if x !in visited {
          pushed := pushed + [x];
        }
        rest := rest - {x};
      }
    }

    /**
     * doDepthFirstSearch. The frontier is a stack: every step pops the top
     * name, drops it if already visited, and otherwise visits it and pushes
     * its unvisited neighbours in bucket order. The trace is therefore a
     * depth-first one: each new vertex is a neighbour of the most recently
     * visited vertex that still had an unvisited neighbour.
     */
    method DepthFirstSearch(start: string) returns (r: Traversal)
      ensures r.StartNotFound? <==> start !in adjacency
      ensures !r.StartNotFound? ==> VisitTrace(adjacency, start, r.visits)
      ensures !r.StartNotFound? ==> DepthFirst.DeepestFirst(adjacency, r.visits)
      ensures r.Finished? ==> forall v :: v in r.visits <==> Reachable(adjacency, start, v)
      ensures r.Finished? ==> forall v :: Reachable(adjacency, start, v) ==> v in adjacency
      ensures r.Aborted? ==> (r.visits[|r.visits| - 1] !in adjacency &&
        forall k :: 0 <= k < |r.visits| - 1 ==> r.visits[k] in adjacency)
    {
      if start !in adjacency {
        return StartNotFound;
      }
      ghost var universe := Destinations(adjacency) + {start};
      var stack := [start];
      ghost var pusher := [-1];
      var visited: set<string> := {};
      var trace: seq<string> := [];
      DepthFirst.Init(adjacency, start);
      while stack != []
        invariant DepthFirst.Inv(adjacency, start, universe, stack, pusher, visited, trace)
        decreases |universe - visited|, |stack|
      {
        var current := stack[|stack| - 1];
        if current in visited {
          DepthFirst.Skip(adjacency, start, universe, stack, pusher, visited, trace);
          stack, pusher := stack[..|stack| - 1], pusher[..|pusher| - 1];
        } else if current !in adjacency {
          DepthFirst.Abort(adjacency, start, universe, stack, pusher, visited, trace);
          return Aborted(trace + [current]);
        } else {
          var pushed := UnvisitedNeighbours(adjacency[current], visited + {current});
          DepthFirst.Visit(adjacency, start, universe, stack, pusher, visited, trace, pushed);
          FewerLeft(universe, visited, current);
          stack, pusher := stack[..|stack| - 1] + pushed, pusher[..|pusher| - 1] + DepthFirst.Repeat(|trace|, |pushed|);
          visited := visited + {current};
          trace := trace + [current];
        }
      }
      DepthFirst.Done(adjacency, start, universe, pusher, visited, trace);
      r := Finished(trace);
    }
  
    /**
     * The reachability pass of doDijkstras: a priority-queue search from
     * start that expands every vertex with a non-empty bucket and marks its
     * neighbours as connected.
     */
    method ConnectedFrom(start: string) returns (connected: set<string>)
      ensures forall v :: v in connected <==> Reachable(adjacency, start, v)
    {
      ghost var universe := Destinations(adjacency) + {start};
      var toCheck := {start};
      connected := {start};
      ReachableSelf(adjacency, start);
      while toCheck != {}
        invariant start in connected && toCheck <= connected && connected <= universe
        invariant forall v :: v in connected ==> Reachable(adjacency, start, v)
        invariant forall u, v :: u in connected && u !in toCheck && Edge(adjacency, u, v) ==> v in connected
        decreases universe - connected, toCheck
      {
        var current := Lex.Least(toCheck);
        toCheck := toCheck - {current};
        ghost var before := connected;
        connected, toCheck := CheckVertex(start, universe, connected, toCheck, current);
        if connected - before != {} {
          var w :| w in connected - before;
          assert w in universe - before && w !in universe - connected;
        }
      }
      forall v | Reachable(adjacency, start, v)
        ensures v in connected
      {
        ClosedHoldsReachable(adjacency, connected, start, v);
      }
    }

    /**
     * One step of the reachability pass, for the vertex current just taken
     * off the queue: when it has a non-empty bucket it is marked connected,
     * and every neighbour not yet connected is marked and queued.
     */
    method CheckVertex(start: string, ghost universe: set<string>, connected: set<string>, toCheck: set<string>,
                       current: string)
      returns (connected': set<string>, toCheck': set<string>)
      requires universe == Destinations(adjacency) + {start}
      requires current in connected && connected <= universe
      requires forall v :: v in connected ==> Reachable(adjacency, start, v)
      ensures connected <= connected' <= universe
      ensures forall v :: v in connected' ==> Reachable(adjacency, start, v)
      ensures forall v :: Edge(adjacency, current, v) ==> v in connected'
      ensures toCheck' == toCheck + (connected' - connected)
    {
      connected', toCheck' := connected, toCheck;
      if current in adjacency && |adjacency[current]| > 0 {
        forall v | Edge(adjacency, current, v)
          ensures Reachable(adjacency, start, v)
        {
          ReachableStep(adjacency, start, current, v);
        }
        connected' := connected' + {current};
        connected', toCheck' := MarkNeighbours(adjacency[current], connected', toCheck');
      }
    }

    /**
     * The inner loop of the reachability pass: every key of the bucket that
     * is not yet connected is marked connected and queued for checking.
     */
    static method MarkNeighbours(bucket: map<string, int>, connected: set<string>, toCheck: set<string>)
      returns (connected': set<string>, toCheck': set<string>)
      ensures connected' == connected + bucket.Keys
      ensures toCheck' == toCheck + (bucket.Keys - connected)
    {
      connected', toCheck' := connected, toCheck;
      var rest := bucket.Keys;
      while rest != {}
        invariant rest <= bucket.Keys
        invariant connected' == connected + (bucket.Keys - rest)
        invariant toCheck' == toCheck + (bucket.Keys - rest - connected)
        decreases rest
      {
        var i :| i in rest;
        if i !in connected' {
          connected' := connected' + {i};
          toCheck' := toCheck' + {i};
        }
        rest := rest - {i};
      }
    }

    /**
     * retrieveVertexWithLowestDistance: the candidate of least distance below
     * Integer.MAX_VALUE (the first met in the set's order among equals), which
     * it removes from the set; None when there is none. Looking up a candidate
     * without a distance throws.
     */
    static method RetrieveVertexWithLowestDistance(distances: map<string, int>, candidates: set<string>)
      returns (r: Result<Option<string>>, rest: set<string>)
      ensures r.Err? <==> exists x :: x in candidates && x !in distances
      ensures r.Err? ==> r.error == NullPointer && rest == candidates
      ensures r.Ok? ==> forall x :: x in candidates ==> x in distances
      ensures r == Ok(None) <==> r.Ok? && forall x :: x in candidates ==> distances[x] >= IntMax
      ensures r == Ok(None) ==> rest == candidates
      ensures r.Ok? && r.value.Some? ==>
        var m := r.value.value;
        && m in candidates && distances[m] < IntMax
        && (forall x :: x in candidates ==> distances[m] <= distances[x])
        && rest == candidates - {m}
    {
      var cheapest: Option<string> := None;
      var lowest := IntMax;
      var todo := candidates;
      while todo != {}
        invariant todo <= candidates
        invariant forall x :: x in candidates && x !in todo ==> x in distances && lowest <= distances[x]
        invariant cheapest.None? ==> lowest == IntMax
        invariant cheapest.Some? ==> (cheapest.value in candidates && cheapest.value in distances &&
          distances[cheapest.value] == lowest && lowest < IntMax)
        decreases todo
      {
        var i :| i in todo;
        if i !in distances {
          return Err(NullPointer), candidates;
        }
        if distances[i] < lowest {
          cheapest := Some(i);
          lowest := distances[i];
        }
        todo := todo - {i};
      }
      rest := if cheapest.Some? then candidates - {cheapest.value} else candidates;
      r := Ok(cheapest);
    }

    /**
     * The relaxation loop of doDijkstras for the settled vertex u: for each
     * key of u's bucket, in the bucket's order, a destination that has a
     * distance gets u as predecessor when going through u is cheaper, and a
     * destination not yet visited becomes a candidate. Unless u has an edge
     * to itself of negative cost, the distance of u does not move and the
     * result does not depend on the order.
     */
    static method Relax(bucket: map<string, int>, u: string, visited: set<string>,
                        dist: map<string, int>, pred: map<string, string>, next: set<string>)
      returns (dist': map<string, int>, pred': map<string, string>, next': set<string>)
      requires u in dist
      ensures dist'.Keys == dist.Keys
      ensures next' == next + (bucket.Keys - visited)
      ensures forall a :: a in pred' ==>
        (a in pred && pred'[a] == pred[a]) || (a in bucket && a in dist && pred'[a] == u)
      ensures (u in bucket ==> bucket[u] >= 0) ==>
        ShortestPaths.Relaxed(bucket, bucket.Keys, u, dist[u], dist, pred, dist', pred')
    {
      dist', pred', next' := dist, pred, next;
      var rest := bucket.Keys;
      while rest != {}
        invariant rest <= bucket.Keys
        invariant u in dist' && dist'.Keys == dist.Keys
        invariant next' == next + (bucket.Keys - rest - visited)
        invariant forall a :: a in pred' ==>
          (a in pred && pred'[a] == pred[a]) || (a in bucket && a in dist && pred'[a] == u)
        invariant (u in bucket ==> bucket[u] >= 0) ==>
          dist'[u] == dist[u] && ShortestPaths.Relaxed(bucket, bucket.Keys - rest, u, dist[u], dist, pred, dist', pred')
        decreases rest
      {
        var a :| a in rest;
        ghost var d1, p1 := dist', pred';
        if a in dist' && bucket[a] + dist'[u] < dist'[a] {
          dist' := dist'[a := bucket[a] + dist'[u]];
          pred' := pred'[a := u];
        }
        if u in bucket ==> bucket[u] >= 0 {
          ShortestPaths.RelaxOne(bucket, rest, u, dist[u], dist, pred, d1, p1, a, dist', pred');
        }
        if a !in visited {
          next' := next' + {a};
        }
        rest := rest - {a};
      }
      assert bucket.Keys - rest == bucket.Keys;
    }
  
    /**
     * The last part of doDijkstras: starting from the predecessor of end,
     * follow predecessors until start. A missing predecessor throws; a
     * vertex met twice means the source's loop never ends. The vertices are
     * collected back to front, which is the list the source builds and then
     * reverses.
     */
    static method WalkBack(pred: map<string, string>, start: string, end: string) returns (r: Walk)
      requires start != end
      ensures r.Found? <==> exists vs :: ShortestPaths.Chain(pred, start, end, vs)
      ensures r.Found? ==> ShortestPaths.Chain(pred, start, end, r.vertices)
      ensures end !in pred ==> r.Broken?
    {
      var path := [end];
      var seen := {end};
      var current := if end in pred then Some(pred[end]) else None;
      while true
        invariant |path| >= 1 && ShortestPaths.Chain(pred, path[0], end, path)
        invariant start !in path
        invariant forall x :: x in seen <==> x in path
        invariant current == if path[0] in pred then Some(pred[path[0]]) else None
        invariant seen <= pred.Values + {end}
        decreases pred.Values + {end} - seen
      {
        if current.None? {
          ShortestPaths.NoChain(pred, start, end, path);
          return Broken;
        }
        var c := current.value;
        if c == start {
          ShortestPaths.ChainFront(pred, path[0], end, path, start);
          return Found([start] + path);
        }
        if c in seen {
          ShortestPaths.NoChain(pred, start, end, path);
          return Cycles;
        }
        ShortestPaths.ChainFront(pred, path[0], end, path, c);
        path := [c] + path;
        seen := seen + {c};
        current := if c in pred then Some(pred[c]) else None;
      }
    }
  
    /** The distances before the main loop: 10000 for every name with a payload, put one at a time. */
    static method UnreachedAll(keys: set<string>) returns (dist: map<string, int>)
      ensures dist.Keys == keys
      ensures forall v :: v in dist ==> dist[v] == ShortestPaths.Unreached
      ensures dist == map v | v in keys :: ShortestPaths.Unreached
    {
      dist := map[];
      var rest := keys;
      while rest != {}
        invariant rest <= keys
        invariant dist.Keys == keys - rest
        invariant forall v :: v in dist ==> dist[v] == ShortestPaths.Unreached
        decreases rest
      {
        var i :| i in rest;
        dist := dist[i := ShortestPaths.Unreached];
        rest := rest - {i};
      }
      assert dist.Keys == (map v | v in keys :: ShortestPaths.Unreached).Keys;
    }

    /**
     * The main loop of doDijkstras: every vertex with a payload starts at
     * distance 10000 and start at 0; each round settles the candidate of
     * least distance and relaxes its edges, until every vertex with a bucket
     * is settled or no candidate is left. failed means a candidate without a
     * distance was looked up, which throws.
     */
    method SettleFrom(start: string)
      returns (failed: bool, visited: set<string>, next: set<string>, dist: map<string, int>,
               pred: map<string, string>, ghost rank: map<string, nat>)
      ensures !failed ==> ShortestPaths.Base(adjacency, data.Keys, start, Destinations(adjacency) + {start},
        ShortestPaths.Search(visited, next, dist, pred, rank))
      ensures NonNegative(adjacency) && ShortestPaths.Covered(adjacency, data.Keys, start) ==>
        && !failed
        && ShortestPaths.Good(adjacency, start, ShortestPaths.Search(visited, next, dist, pred, rank))
        && (adjacency.Keys <= visited || next == {})
    {
      ghost var universe := Destinations(adjacency) + {start};
      ghost var ok := NonNegative(adjacency) && ShortestPaths.Covered(adjacency, data.Keys, start);
      failed := false;
      visited, next, dist, pred, rank := StartSearch(start);
      while !(adjacency.Keys <= visited)
        invariant ShortestPaths.Base(adjacency, data.Keys, start, universe, ShortestPaths.Search(visited, next, dist, pred, rank))
        invariant ok ==> ShortestPaths.Good(adjacency, start, ShortestPaths.Search(visited, next, dist, pred, rank))
        decreases universe - visited
      {
        var status, visited', next', dist', pred', rank' := KeptRound(start, universe, visited, next, dist, pred, rank);
        if status.Crashed? {
          failed := true;
          return;
        }
        if status.Exhausted? {
          break;
        }
        visited, next, dist, pred, rank := visited', next', dist', pred', rank';
      }
    }

    /**
     * The state before the main loop: nothing visited, no predecessors, start
     * the only candidate, 10000 for every name with a payload and 0 for start.
     */
    method StartSearch(start: string)
      returns (visited: set<string>, next: set<string>, dist: map<string, int>,
               pred: map<string, string>, ghost rank: map<string, nat>)
      ensures visited == {} && next == {start} && pred == map[] && rank == map[]
      ensures dist.Keys == data.Keys + {start} && dist[start] == 0
      ensures forall v :: v in dist && v != start ==> dist[v] == ShortestPaths.Unreached
      ensures ShortestPaths.Base(adjacency, data.Keys, start, Destinations(adjacency) + {start},
        ShortestPaths.Search(visited, next, dist, pred, rank))
      ensures ShortestPaths.Good(adjacency, start, ShortestPaths.Search(visited, next, dist, pred, rank))
    {
      visited := {};
      next := {};
      pred := map[];
      dist := UnreachedAll(data.Keys);
      next := next + {start};
      dist := dist[start := 0];
      rank := map[];
      ShortestPaths.Init(adjacency, data.Keys, start);
    }

    /** One round of the main loop, and the loop invariant it keeps. */
    method KeptRound(start: string, ghost universe: set<string>, visited: set<string>, next: set<string>,
                     dist: map<string, int>, pred: map<string, string>, ghost rank: map<string, nat>)
      returns (status: RoundStatus, visited': set<string>, next': set<string>, dist': map<string, int>,
               pred': map<string, string>, ghost rank': map<string, nat>)
      requires ShortestPaths.Base(adjacency, data.Keys, start, universe, ShortestPaths.Search(visited, next, dist, pred, rank))
      requires NonNegative(adjacency) && ShortestPaths.Covered(adjacency, data.Keys, start) ==>
        ShortestPaths.Good(adjacency, start, ShortestPaths.Search(visited, next, dist, pred, rank))
      ensures status.Crashed? ==> !(NonNegative(adjacency) && ShortestPaths.Covered(adjacency, data.Keys, start))
      ensures status.Exhausted? ==> (NonNegative(adjacency) && ShortestPaths.Covered(adjacency, data.Keys, start) ==> next == {})
      ensures status.Settled? ==>
        var s2 := ShortestPaths.Search(visited', next', dist', pred', rank');
        && ShortestPaths.Base(adjacency, data.Keys, start, universe, s2)
        && (NonNegative(adjacency) && ShortestPaths.Covered(adjacency, data.Keys, start) ==> ShortestPaths.Good(adjacency, start, s2))
        && visited < visited' <= universe
    {
      ghost var ok := NonNegative(adjacency) && ShortestPaths.Covered(adjacency, data.Keys, start);
      ghost var s := ShortestPaths.Search(visited, next, dist, pred, rank);
      if ok {
        assert forall x :: x in next ==> x in dist;
      }
      status, visited', next', dist', pred', rank' := Round(visited, next, dist, pred, rank);
      if status.Settled? {
        ghost var s2 := ShortestPaths.Search(visited', next', dist', pred', rank');
        ShortestPaths.Advance(adjacency, data.Keys, start, universe, s, status.u, s2);
      }
    }

    /**
     * One round of the main loop of doDijkstras: take the candidate of least
     * distance out of next, mark it visited, and relax the edges of its
     * bucket if it has one. The source marks the vertex visited twice, once
     * before and once after the relaxation; the second time changes nothing.
     */
    method Round(visited: set<string>, next: set<string>, dist: map<string, int>,
                 pred: map<string, string>, ghost rank: map<string, nat>)
      returns (status: RoundStatus, visited': set<string>, next': set<string>, dist': map<string, int>,
               pred': map<string, string>, ghost rank': map<string, nat>)
      ensures status.Crashed? <==> exists x :: x in next && x !in dist
      ensures status.Exhausted? ==> forall x :: x in next ==> x in dist && dist[x] >= IntMax
      ensures status.Settled? ==>
        var s, s2 := ShortestPaths.Search(visited, next, dist, pred, rank),
                     ShortestPaths.Search(visited', next', dist', pred', rank');
        && ShortestPaths.Picked(s, status.u) && dist[status.u] < IntMax
        && ShortestPaths.LooseStep(adjacency, s, status.u, s2)
        && (NonNegative(adjacency) ==> ShortestPaths.Step(adjacency, s, status.u, s2))
    {
      var picked, rest := RetrieveVertexWithLowestDistance(dist, next);
      visited', next', dist', pred', rank' := visited, next, dist, pred, rank;
      if picked.Err? {
        return Crashed, visited', next', dist', pred', rank';
      }
      if picked.value.None? {
        return Exhausted, visited', next', dist', pred', rank';
      }
      var u := picked.value.value;
      next' := rest;
      visited' := visited + {u};
      rank' := rank[u := |visited|];
      if u in adjacency {
        var bucket := adjacency[u];
        if NonNegative(adjacency) {
          assert u in bucket ==> Edge(adjacency, u, u);
        }
        dist', pred', next' := Relax(bucket, u, visited', dist, pred, next');
      }
      visited' := visited' + {u};
      status := Settled(u);
      ghost var s, s2 := ShortestPaths.Search(visited, next, dist, pred, rank),
                         ShortestPaths.Search(visited', next', dist', pred', rank');
      assert ShortestPaths.LooseStep(adjacency, s, u, s2);
      if NonNegative(adjacency) {
        ShortestPaths.RelaxedStep(adjacency, s, u, s2);
      }
    }

    /**
     * doDijkstras. Equal start and end give the one-vertex path at cost 0.
     * Otherwise a reachability pass decides NoPath; then every vertex with a
     * payload starts at distance 10000 and start at 0, and the loop settles
     * the candidate of least distance and relaxes its edges until every
     * vertex with a bucket is settled or no candidate is left; finally the
     * predecessors are followed back from end.
     *
     * On every input a returned path is a walk from start to end with no
     * vertex twice. When no edge costs less than zero, every vertex start
     * reaches has a payload (or is start), and some walk to end costs less
     * than 10000, the result is a cheapest walk and its cost. When instead
     * every walk to end costs 10000 or more, the end vertex never gets a
     * predecessor and the source throws.
     */
    method Dijkstra(start: string, end: string) returns (r: PathResult)
      ensures start == end ==> r == Path(0, [start])
      ensures r.NoPath? <==> start != end && !Reachable(adjacency, start, end)
      ensures r.Path? ==> PathFromTo(adjacency, r.vertices, start, end)
      ensures r.Path? ==> forall i, j :: 0 <= i < j < |r.vertices| ==> r.vertices[i] != r.vertices[j]
      ensures ShortestPaths.WellPosed(adjacency, data.Keys, start, end) ==>
        && r.Path? && r.cost == PathCost(adjacency, r.vertices)
        && forall q :: PathFromTo(adjacency, q, start, end) ==> r.cost <= PathCost(adjacency, q)
      ensures (&& NonNegative(adjacency) && ShortestPaths.Covered(adjacency, data.Keys, start)
               && start != end && Reachable(adjacency, start, end)
               && !ReachableBelow(adjacency, start, end, ShortestPaths.Unreached)) ==>
        r == Failed(NullPointer)
    {
      if start == end {
        if NonNegative(adjacency) {
          forall q | PathFromTo(adjacency, q, start, end)
            ensures 0 <= PathCost(adjacency, q)
          {
            NonNegativeCost(adjacency, q);
          }
        }
        assert PathFromTo(adjacency, [start], start, end);
        return Path(0, [start]);
      }
      ReachableSelf(adjacency, start);
      var connected := ConnectedFrom(start);
      if start !in connected || end !in connected {
        return NoPath;
      }
      ghost var universe := Destinations(adjacency) + {start};
      ghost var ok := NonNegative(adjacency) && ShortestPaths.Covered(adjacency, data.Keys, start);
      var failed, visited, next, dist, pred, rank := SettleFrom(start);
      if failed {
        return Failed(NullPointer);
      }
      ghost var s := ShortestPaths.Search(visited, next, dist, pred, rank);
      ghost var wellPosed := ShortestPaths.WellPosed(adjacency, data.Keys, start, end);
      if wellPosed {
        ShortestPaths.Finish(adjacency, data.Keys, start, universe, s, end);
        var vs := ShortestPaths.ChainTo(adjacency, start, s, end);
      }
      if ok && end in pred {
        ShortestPaths.PredBelow(adjacency, start, s, end);
      }
      var walk := WalkBack(pred, start, end);
      if walk.Broken? {
        return Failed(NullPointer);
      }
      if walk.Cycles? {
        return Diverges;
      }
      ShortestPaths.ChainIsPath(adjacency, pred, start, end, walk.vertices);
      if end !in dist {
        return Failed(NullPointer);
      }
      if wellPosed {
        ShortestPaths.ChainCost(adjacency, start, s, end, walk.vertices);
      }
      r := Path(dist[end], walk.vertices);
    }

    /**
     * toString: the vertex names in ascending order, then one line per vertex
     * in the same order. Each bucket is read in the order its hash map
     * yields, which is any order, recorded in orders.
     */
    method ToString() returns (text: string, ghost names: seq<string>, ghost orders: seq<seq<string>>)
      ensures Lex.Ascending(names)
      ensures forall x :: x in names <==> x in data
      ensures Text.OrdersFor(names, adjacency, orders)
      ensures text == Text.Render(names, adjacency, orders)
      ensures Valid() ==> forall i :: 0 <= i < |names| ==> Text.LineClosed(Text.VertexLine(names[i], adjacency, orders[i]))
    {
      var sorted := Lex.SortedNames(data.Keys);
      names := sorted;
      text := HeaderText(sorted);
      text, orders := AppendLines(text, sorted);
      if Valid() {
        forall i | 0 <= i < |names|
          ensures Text.LineClosed(Text.VertexLine(names[i], adjacency, orders[i]))
        {
          Text.VertexLineClosed(names[i], adjacency, orders[i]);
        }
      }
    }

    /**
     * The vertex part of toString: the line of every name of sorted, in
     * order, appended to the buffer.
     */
    method AppendLines(buffer: string, sorted: seq<string>) returns (text: string, ghost orders: seq<seq<string>>)
      ensures Text.OrdersFor(sorted, adjacency, orders)
      ensures text == buffer + Text.Lines(sorted, adjacency, orders)
    {
      text := buffer;
      orders := [];
      var j := 0;
      while j < |sorted|
        invariant 0 <= j <= |sorted|
        invariant Text.OrdersFor(sorted[..j], adjacency, orders)
        invariant text == buffer + Text.Lines(sorted[..j], adjacency, orders)
      {
        var a := sorted[j];
        ghost var order;
        text, order := AppendVertexLine(text, a);
        Text.LinesSnoc(buffer, sorted[..j], a, adjacency, orders, order);
        Text.OrdersSnoc(sorted[..j], a, adjacency, orders, order);
        Text.TakeOneMore(sorted, j);
        orders := orders + [order];
        j := j + 1;
      }
      assert sorted[..|sorted|] == sorted;
    }

    /**
     * The header part of toString: every name followed by ", " after
     * "Vertices: [", the last two characters cut off, then the closing bracket.
     */
    static method HeaderText(sorted: seq<string>) returns (text: string)
      ensures text == Text.Header(sorted)
    {
      text := "Vertices: [";
      var i := 0;
      while i < |sorted|
        invariant 0 <= i <= |sorted|
        invariant text == "Vertices: [" + Text.Terminated(sorted[..i])
      {
        assert sorted[..i + 1][..i] == sorted[..i];
        text := text + (sorted[i] + ", ");
        i := i + 1;
      }
      if |sorted| > 0 {
        assert sorted[..|sorted|] == sorted;
        Text.TerminatedIsJoin(sorted);
        assert text == "Vertices: [" + Text.Join(sorted) + ", ";
      }
      text := text[..|text| - 2] + "]\nEdges:\n";
    }

    /**
     * The line of vertex a in toString, appended to the buffer: every entry
     * of its bucket followed by ", ", the last two characters cut off and the
     * brace closed only when the bucket has an entry.
     */
    method AppendVertexLine(buffer: string, a: string) returns (text: string, ghost order: seq<string>)
      ensures a in adjacency ==> Text.Enumerates(order, adjacency[a].Keys)
      ensures text == buffer + Text.VertexLine(a, adjacency, order)
    {
      var head := Text.Opening(a);
      text := buffer + head;
      order := [];
      if a in adjacency {
        text, order := AppendBucket(text, adjacency[a]);
        Text.Associative(buffer, head, Text.Closing(adjacency[a], order));
      } else {
        text := text + "}\n";
        Text.Associative(buffer, head, "}\n");
      }
    }

    /**
     * The entries of a bucket and the closing brace: every entry is appended
     * followed by ", ", and the last two characters are cut off before the
     * brace closes, which an empty bucket skips.
     */
    static method AppendBucket(buffer: string, bucket: map<string, int>) returns (text: string, ghost order: seq<string>)
      ensures Text.Enumerates(order, bucket.Keys)
      ensures text == buffer + Text.Closing(bucket, order)
    {
      text, order := AppendEntries(buffer, bucket);
      if |bucket| != 0 {
        Text.CutListing(buffer, order, bucket);
        text := text[..|text| - 2] + "}\n";
        Text.Associative(buffer, Text.Join(Text.Entries(order, bucket)), "}\n");
      } else {
        assert Text.Listing(order, bucket) == "";
      }
    }

    /** The entries of a bucket, each followed by ", ", in the order the bucket's hash map yields them. */
    static method AppendEntries(buffer: string, bucket: map<string, int>) returns (text: string, ghost order: seq<string>)
      ensures Text.Enumerates(order, bucket.Keys)
      ensures forall i :: 0 <= i < |order| ==> order[i] in bucket
      ensures |order| == |bucket.Keys|
      ensures text == buffer + Text.Listing(order, bucket)
    {
      text := buffer;
      order := [];
      var rest := bucket.Keys;
      while rest != {}
        invariant rest <= bucket.Keys
        invariant forall p, q :: 0 <= p < q < |order| ==> order[p] != order[q]
        invariant forall x :: x in order <==> x in bucket.Keys && x !in rest
        invariant forall i :: 0 <= i < |order| ==> order[i] in bucket
        invariant |order| + |rest| == |bucket.Keys|
        invariant text == buffer + Text.Listing(order, bucket)
        decreases rest
      {
        var b :| b in rest;
        Text.ListingSnoc(buffer, order, b, bucket);
        text := text + (Text.Entry(b, bucket[b]) + ", ");
        order := order + [b];
        rest := rest - {b};
      }
    }
  }
}
