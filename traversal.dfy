/**
 * The loop invariant of the breadth-first traversal and the two steps that
 * preserve it, kept apart from the method so that each proof stays small.
 */
module BreadthFirst {
  import Lex
  import opened Paths

  /**
   * The state of the traversal: the trace so far (visited is its set), and a
   * priority-queue frontier whose unvisited names are exactly the fringe.
   * Before the first step the frontier holds only the start vertex.
   */
  ghost predicate Inv(adj: Adjacency, start: string, universe: set<string>,
                      frontier: multiset<string>, visited: set<string>, trace: seq<string>)
  {
    && universe == Destinations(adj) + {start}
    && (forall v :: v in visited <==> v in trace)
    && visited <= universe
    && (forall v :: v in frontier ==> v in universe && Reachable(adj, start, v))
    && (|trace| == 0 ==> frontier == multiset{start})
    && (|trace| > 0 ==> VisitTrace(adj, start, trace))
    && (|trace| > 0 ==> forall v :: v in frontier && v !in visited <==> v in Fringe(adj, trace))
    && (forall k :: 0 <= k < |trace| ==> trace[k] in adj)
    && LeastFirst(adj, trace)
  }

  /** The neighbours of current that are not yet visited: what one visit pushes. */
  function Unvisited(adj: Adjacency, current: string, visited: set<string>): (r: set<string>)
    requires current in adj
    ensures forall v :: v in r <==> v in adj[current] && v !in visited
  {
    adj[current].Keys - visited
  }

  /** Queueing one more name not yet pushed keeps the queue equal to what it held plus the pushed names. */
  lemma PushOne(frontier: multiset<string>, queue: multiset<string>, pushed: set<string>, x: string)
    requires queue == frontier + multiset(pushed) && x !in pushed
    ensures queue + multiset{x} == frontier + multiset(pushed + {x})
  {
    assert multiset(pushed + {x}) == multiset(pushed) + multiset{x};
  }

  lemma Init(adj: Adjacency, start: string)
    ensures Inv(adj, start, Destinations(adj) + {start}, multiset{start}, {}, [])
  {
    ReachableSelf(adj, start);
  }

  /** Appending the least name of the fringe keeps every vertex the least of its fringe. */
  lemma LeastFirstExtend(adj: Adjacency, trace: seq<string>, current: string)
    requires LeastFirst(adj, trace) && Lex.IsLeast(current, Fringe(adj, trace))
    ensures LeastFirst(adj, trace + [current])
  {
    var t := trace + [current];
    forall k | 0 < k < |t|
      ensures Lex.IsLeast(t[k], Fringe(adj, t[..k]))
    {
      if k < |trace| {
        assert t[..k] == trace[..k];
      } else {
        assert t[..k] == trace;
      }
    }
  }

  /** Visiting the least unvisited name of the frontier extends the trace as promised. */
  lemma Next(adj: Adjacency, start: string, universe: set<string>,
             frontier: multiset<string>, visited: set<string>, trace: seq<string>, current: string)
    requires Inv(adj, start, universe, frontier, visited, trace)
    requires Lex.IsLeast(current, set v | v in frontier) && current !in visited
    ensures VisitTrace(adj, start, trace + [current])
    ensures LeastFirst(adj, trace + [current])
    ensures current in universe && Reachable(adj, start, current)
  {
    var t := trace + [current];
    if |trace| == 0 {
      assert current == start;
      assert VisitTrace(adj, start, t);
    } else {
      assert current in Fringe(adj, trace);
      forall v | v in Fringe(adj, trace)
        ensures Lex.AtMost(current, v)
      {
        assert v in (set v | v in frontier);
      }
      var j :| 0 <= j < |trace| && Edge(adj, trace[j], current);
      TraceStep(adj, start, trace, current, j);
      LeastFirstExtend(adj, trace, current);
    }
  }

  /** Visiting a least frontier name that has no bucket ends the traversal with a trace that says so. */
  lemma Abort(adj: Adjacency, start: string, universe: set<string>,
              frontier: multiset<string>, visited: set<string>, trace: seq<string>, current: string)
    requires Inv(adj, start, universe, frontier, visited, trace)
    requires Lex.IsLeast(current, set v | v in frontier) && current !in visited && current !in adj
    ensures var t := trace + [current];
      && VisitTrace(adj, start, t) && LeastFirst(adj, t)
      && t[|t| - 1] !in adj && forall k :: 0 <= k < |t| - 1 ==> t[k] in adj
  {
    Next(adj, start, universe, frontier, visited, trace, current);
    var t := trace + [current];
    forall k | 0 <= k < |t| - 1
      ensures t[k] in adj
    {
      assert t[k] == trace[k];
    }
  }

  /** Dropping an already-visited name from the frontier keeps the invariant. */
  lemma Skip(adj: Adjacency, start: string, universe: set<string>,
             frontier: multiset<string>, visited: set<string>, trace: seq<string>, current: string)
    requires Inv(adj, start, universe, frontier, visited, trace)
    requires current in frontier && current in visited
    ensures Inv(adj, start, universe, frontier - multiset{current}, visited, trace)
  {
    var f := frontier - multiset{current};
    assert |trace| > 0;
    forall v
      ensures v in f && v !in visited <==> v in Fringe(adj, trace)
    {
      if v != current {
        assert v in f <==> v in frontier;
      }
    }
  }

  /** The frontier after a visit still holds only reachable names of the universe. */
  lemma PushedReachable(adj: Adjacency, start: string, universe: set<string>,
                        frontier: multiset<string>, visited': set<string>, current: string)
    requires universe == Destinations(adj) + {start}
    requires forall v :: v in frontier ==> v in universe && Reachable(adj, start, v)
    requires current in adj && Reachable(adj, start, current)
    ensures var f := frontier - multiset{current} + multiset(Unvisited(adj, current, visited'));
      forall v :: v in f ==> v in universe && Reachable(adj, start, v)
  {
    var pushed := Unvisited(adj, current, visited');
    forall v | v in frontier - multiset{current} + multiset(pushed)
      ensures v in universe && Reachable(adj, start, v)
    {
      if v in pushed {
        assert Edge(adj, current, v);
        ReachableStep(adj, start, current, v);
      } else {
        assert v in frontier;
      }
    }
  }

  /** The unvisited names of the frontier after a visit are the fringe of the longer trace. */
  lemma PushedFringe(adj: Adjacency, start: string,
                     frontier: multiset<string>, visited: set<string>, trace: seq<string>, current: string)
    requires current in adj && current !in visited
    requires forall v :: v in visited <==> v in trace
    requires |trace| == 0 ==> frontier == multiset{start} && current == start
    requires |trace| > 0 ==> forall v :: v in frontier && v !in visited <==> v in Fringe(adj, trace)
    ensures var visited' := visited + {current};
      var f := frontier - multiset{current} + multiset(Unvisited(adj, current, visited'));
      forall v :: v in f && v !in visited' <==> v in Fringe(adj, trace + [current])
  {
    var visited' := visited + {current};
    var pushed := Unvisited(adj, current, visited');
    var f := frontier - multiset{current} + multiset(pushed);
    FringeExtend(adj, trace, current);
    if |trace| == 0 {
      assert Fringe(adj, trace) == {};
      assert frontier - multiset{current} == multiset{};
    }
    forall v
      ensures v in f && v !in visited' <==> v in Fringe(adj, trace + [current])
    {
      if v != current {
        assert v in frontier - multiset{current} <==> v in frontier;
      }
    }
  }

  /** Visiting a name that has a bucket and pushing its unvisited neighbours keeps the invariant. */
  lemma Visit(adj: Adjacency, start: string, universe: set<string>,
              frontier: multiset<string>, visited: set<string>, trace: seq<string>, current: string)
    requires Inv(adj, start, universe, frontier, visited, trace)
    requires Lex.IsLeast(current, set v | v in frontier) && current !in visited
    requires current in adj
    ensures var visited' := visited + {current};
      Inv(adj, start, universe,
          frontier - multiset{current} + multiset(Unvisited(adj, current, visited')),
          visited', trace + [current])
  {
    Next(adj, start, universe, frontier, visited, trace, current);
    var visited' := visited + {current};
    PushedReachable(adj, start, universe, frontier, visited', current);
    if |trace| == 0 {
      assert current == start;
    }
    PushedFringe(adj, start, frontier, visited, trace, current);
  }

  /** An empty frontier means the trace holds exactly the vertices reachable from start. */
  lemma Done(adj: Adjacency, start: string, universe: set<string>, visited: set<string>, trace: seq<string>)
    requires Inv(adj, start, universe, multiset{}, visited, trace)
    ensures VisitTrace(adj, start, trace) && LeastFirst(adj, trace)
    ensures forall v :: v in trace <==> Reachable(adj, start, v)
    ensures forall v :: Reachable(adj, start, v) ==> v in adj
  {
    assert |trace| > 0;
    assert Fringe(adj, trace) == {};
    EmptyFringeClosed(adj, trace);
    forall v | Reachable(adj, start, v)
      ensures v in trace
    {
      ClosedHoldsReachable(adj, (set w | w in trace), start, v);
    }
  }
}

/**
 * The loop invariant of the depth-first traversal. Beside the stack of names
 * it keeps, as ghost state, the index in the trace of the vertex that pushed
 * each stack entry (-1 for the start vertex). Pushers never decrease up the
 * stack, and every unvisited neighbour of a visited vertex still waits on the
 * stack under that vertex's index: that is what makes the traversal deepest-first.
 */
module DepthFirst {
  import opened Paths

  /** Every out-neighbour of u is already in p. */
  ghost predicate Exhausted(adj: Adjacency, u: string, p: seq<string>)
  {
    forall y :: Edge(adj, u, y) ==> y in p
  }

  /**
   * Each vertex after the first is a neighbour of the most recently visited
   * vertex that still had an unvisited neighbour at that moment.
   */
  ghost predicate DeepestFirst(adj: Adjacency, t: seq<string>)
  {
    forall k :: 0 < k < |t| ==> DeepestAt(adj, t, k)
  }

  /** t[k] is a neighbour of t[J], and no vertex visited after t[J] has a neighbour outside t[..k]. */
  ghost predicate ParentAt(adj: Adjacency, t: seq<string>, k: int, J: int)
    requires 0 <= J < k <= |t| && k < |t|
  {
    Edge(adj, t[J], t[k]) && forall j :: J < j < k ==> Exhausted(adj, t[j], t[..k])
  }

  ghost predicate DeepestAt(adj: Adjacency, t: seq<string>, k: int)
    requires 0 < k < |t|
  {
    exists J :: 0 <= J < k && ParentAt(adj, t, k, J)
  }

  function Repeat(x: int, n: nat): (r: seq<int>)
    ensures |r| == n && forall i :: 0 <= i < n ==> r[i] == x
  {
    seq(n, _ => x)
  }

  /** The pusher indices run parallel to the stack, never decrease, and -1 marks the start vertex. */
  ghost predicate Shape(start: string, stack: seq<string>, pusher: seq<int>, trace: seq<string>)
  {
    && |stack| == |pusher|
    && (forall i, j :: 0 <= i < j < |pusher| ==> pusher[i] <= pusher[j])
    && (forall i :: 0 <= i < |pusher| ==> -1 <= pusher[i] < |trace|)
    && (forall i :: 0 <= i < |pusher| && pusher[i] == -1 ==> stack[i] == start)
  }

  /** Every stack entry pushed by a visited vertex is one of its neighbours. */
  ghost predicate StackEdges(adj: Adjacency, stack: seq<string>, pusher: seq<int>, trace: seq<string>)
    requires |stack| == |pusher|
  {
    forall i :: 0 <= i < |pusher| && 0 <= pusher[i] < |trace| ==> Edge(adj, trace[pusher[i]], stack[i])
  }

  ghost predicate StackReach(adj: Adjacency, start: string, universe: set<string>, stack: seq<string>)
  {
    forall i :: 0 <= i < |stack| ==> stack[i] in universe && Reachable(adj, start, stack[i])
  }

  /** Every unvisited neighbour of the j-th visited vertex is on the stack, pushed by j. */
  ghost predicate Pending(adj: Adjacency, stack: seq<string>, pusher: seq<int>, visited: set<string>, trace: seq<string>)
    requires |stack| == |pusher|
  {
    forall j, y :: 0 <= j < |trace| && Edge(adj, trace[j], y) && y !in visited ==>
      exists i :: 0 <= i < |stack| && stack[i] == y && pusher[i] == j
  }

  ghost predicate TraceOk(adj: Adjacency, start: string, universe: set<string>, visited: set<string>, trace: seq<string>)
  {
    && universe == Destinations(adj) + {start}
    && (forall v :: v in visited <==> v in trace)
    && visited <= universe
    && (|trace| > 0 ==> VisitTrace(adj, start, trace))
    && (forall k :: 0 <= k < |trace| ==> trace[k] in adj)
  }

  ghost predicate Inv(adj: Adjacency, start: string, universe: set<string>,
                      stack: seq<string>, pusher: seq<int>, visited: set<string>, trace: seq<string>)
  {
    && Shape(start, stack, pusher, trace)
    && StackEdges(adj, stack, pusher, trace)
    && StackReach(adj, start, universe, stack)
    && Pending(adj, stack, pusher, visited, trace)
    && TraceOk(adj, start, universe, visited, trace)
    && DeepestFirst(adj, trace)
    && (|trace| == 0 ==> stack == [start] && pusher == [-1])
  }

  lemma Init(adj: Adjacency, start: string)
    ensures Inv(adj, start, Destinations(adj) + {start}, [start], [-1], {}, [])
  {
    ReachableSelf(adj, start);
  }

  /** Popping an already-visited name keeps the invariant. */
  lemma Skip(adj: Adjacency, start: string, universe: set<string>,
             stack: seq<string>, pusher: seq<int>, visited: set<string>, trace: seq<string>)
    requires Inv(adj, start, universe, stack, pusher, visited, trace)
    requires |stack| > 0 && stack[|stack| - 1] in visited
    ensures Inv(adj, start, universe, stack[..|stack| - 1], pusher[..|pusher| - 1], visited, trace)
  {
    SkipShape(start, stack, pusher, trace);
    SkipEdges(adj, stack, pusher, trace);
    SkipReach(adj, start, universe, stack);
    SkipPending(adj, stack, pusher, visited, trace);
    assert |trace| > 0;
  }

  lemma SkipShape(start: string, stack: seq<string>, pusher: seq<int>, trace: seq<string>)
    requires Shape(start, stack, pusher, trace) && |stack| > 0
    ensures Shape(start, stack[..|stack| - 1], pusher[..|pusher| - 1], trace)
  {
  }

  lemma SkipEdges(adj: Adjacency, stack: seq<string>, pusher: seq<int>, trace: seq<string>)
    requires |stack| == |pusher| && |stack| > 0 && StackEdges(adj, stack, pusher, trace)
    ensures StackEdges(adj, stack[..|stack| - 1], pusher[..|pusher| - 1], trace)
  {
  }

  lemma SkipReach(adj: Adjacency, start: string, universe: set<string>, stack: seq<string>)
    requires StackReach(adj, start, universe, stack) && |stack| > 0
    ensures StackReach(adj, start, universe, stack[..|stack| - 1])
  {
  }

  lemma SkipPending(adj: Adjacency, stack: seq<string>, pusher: seq<int>, visited: set<string>, trace: seq<string>)
    requires |stack| == |pusher| && |stack| > 0 && Pending(adj, stack, pusher, visited, trace)
    requires stack[|stack| - 1] in visited
    ensures Pending(adj, stack[..|stack| - 1], pusher[..|pusher| - 1], visited, trace)
  {
    var n := |stack|;
    var s, p := stack[..n - 1], pusher[..n - 1];
    forall j, y | 0 <= j < |trace| && Edge(adj, trace[j], y) && y !in visited
      ensures exists i :: 0 <= i < |s| && s[i] == y && p[i] == j
    {
      var i :| 0 <= i < |stack| && stack[i] == y && pusher[i] == j;
      assert i < n - 1 && s[i] == y && p[i] == j;
    }
  }

  /** The top of the stack, when unvisited and the trace is not empty, was pushed by a visited vertex. */
  lemma TopPusher(adj: Adjacency, start: string, stack: seq<string>, pusher: seq<int>, visited: set<string>, trace: seq<string>)
    requires Shape(start, stack, pusher, trace) && StackEdges(adj, stack, pusher, trace)
    requires forall v :: v in visited <==> v in trace
    requires |trace| > 0 && trace[0] == start
    requires |stack| > 0 && stack[|stack| - 1] !in visited
    ensures 0 <= pusher[|pusher| - 1] < |trace|
    ensures Edge(adj, trace[pusher[|pusher| - 1]], stack[|stack| - 1])
  {
    var n := |stack|;
    assert trace[0] in visited;
    assert stack[n - 1] != start;
  }

  /** No vertex visited after the top's pusher has an unvisited neighbour. */
  lemma AboveTopExhausted(adj: Adjacency, start: string, stack: seq<string>, pusher: seq<int>,
                          visited: set<string>, trace: seq<string>)
    requires Shape(start, stack, pusher, trace) && Pending(adj, stack, pusher, visited, trace)
    requires forall v :: v in visited <==> v in trace
    requires |stack| > 0
    ensures forall j :: pusher[|pusher| - 1] < j < |trace| ==> Exhausted(adj, trace[j], trace)
  {
    var n := |stack|;
    forall j, y | pusher[n - 1] < j < |trace| && Edge(adj, trace[j], y)
      ensures y in trace
    {
    }
  }

  /** Visiting the unvisited name on top of the stack extends the trace as promised. */
  lemma Next(adj: Adjacency, start: string, universe: set<string>,
             stack: seq<string>, pusher: seq<int>, visited: set<string>, trace: seq<string>)
    requires Inv(adj, start, universe, stack, pusher, visited, trace)
    requires |stack| > 0 && stack[|stack| - 1] !in visited
    ensures var current := stack[|stack| - 1];
      && VisitTrace(adj, start, trace + [current])
      && DeepestFirst(adj, trace + [current])
      && current in universe && Reachable(adj, start, current)
  {
    var n := |stack|;
    var current := stack[n - 1];
    assert current in universe && Reachable(adj, start, current);
    if |trace| == 0 {
      assert trace + [current] == [start];
    } else {
      TopPusher(adj, start, stack, pusher, visited, trace);
      AboveTopExhausted(adj, start, stack, pusher, visited, trace);
      TraceStep(adj, start, trace, current, pusher[n - 1]);
      NextDeepest(adj, trace, current, pusher[n - 1]);
    }
  }

  lemma NextDeepest(adj: Adjacency, trace: seq<string>, current: string, p: int)
    requires DeepestFirst(adj, trace)
    requires 0 <= p < |trace| && Edge(adj, trace[p], current)
    requires forall j :: p < j < |trace| ==> Exhausted(adj, trace[j], trace)
    ensures DeepestFirst(adj, trace + [current])
  {
    var t := trace + [current];
    forall k | 0 < k < |t|
      ensures DeepestAt(adj, t, k)
    {
      if k < |trace| {
        assert t[..k] == trace[..k];
        assert DeepestAt(adj, trace, k);
        var J :| 0 <= J < k && ParentAt(adj, trace, k, J);
        assert t[J] == trace[J] && t[k] == trace[k];
        forall j | J < j < k
          ensures Exhausted(adj, t[j], t[..k])
        {
          assert t[j] == trace[j];
        }
        assert ParentAt(adj, t, k, J);
      } else {
        assert t[..k] == trace;
        forall j | p < j < k
          ensures Exhausted(adj, t[j], t[..k])
        {
          assert t[j] == trace[j];
        }
        assert t[p] == trace[p];
        assert ParentAt(adj, t, k, p);
      }
    }
  }

  /** Visiting a top of stack that has no bucket ends the traversal with a trace that says so. */
  lemma Abort(adj: Adjacency, start: string, universe: set<string>,
              stack: seq<string>, pusher: seq<int>, visited: set<string>, trace: seq<string>)
    requires Inv(adj, start, universe, stack, pusher, visited, trace)
    requires |stack| > 0 && stack[|stack| - 1] !in visited && stack[|stack| - 1] !in adj
    ensures var t := trace + [stack[|stack| - 1]];
      && VisitTrace(adj, start, t) && DeepestFirst(adj, t)
      && t[|t| - 1] !in adj && forall k :: 0 <= k < |t| - 1 ==> t[k] in adj
  {
    Next(adj, start, universe, stack, pusher, visited, trace);
    var t := trace + [stack[|stack| - 1]];
    forall k | 0 <= k < |t| - 1
      ensures t[k] in adj
    {
      assert t[k] == trace[k];
    }
  }

  /** The stack after a visit keeps its shape: the new entries carry the newest index. */
  lemma VisitShape(adj: Adjacency, start: string, stack: seq<string>, pusher: seq<int>,
                   trace: seq<string>, current: string, pushed: seq<string>)
    requires Shape(start, stack, pusher, trace) && |stack| > 0
    ensures Shape(start, stack[..|stack| - 1] + pushed, pusher[..|pusher| - 1] + Repeat(|trace|, |pushed|), trace + [current])
  {
    var n := |stack|;
    var s := stack[..n - 1] + pushed;
    var p := pusher[..n - 1] + Repeat(|trace|, |pushed|);
    forall i, j | 0 <= i < j < |p|
      ensures p[i] <= p[j]
    {
      if j < n - 1 {
        assert p[i] == pusher[i] && p[j] == pusher[j];
      } else if i < n - 1 {
        assert p[i] == pusher[i];
      }
    }
    forall i | 0 <= i < |p|
      ensures -1 <= p[i] < |trace| + 1 && (p[i] == -1 ==> s[i] == start)
    {
      if i < n - 1 {
        assert p[i] == pusher[i] && s[i] == stack[i];
      }
    }
  }

  lemma VisitEdges(adj: Adjacency, start: string, stack: seq<string>, pusher: seq<int>,
                   trace: seq<string>, current: string, pushed: seq<string>)
    requires Shape(start, stack, pusher, trace)
    requires |stack| > 0 && StackEdges(adj, stack, pusher, trace)
    requires forall x :: x in pushed ==> Edge(adj, current, x)
    ensures var s, p := stack[..|stack| - 1] + pushed, pusher[..|pusher| - 1] + Repeat(|trace|, |pushed|);
      |s| == |p| && StackEdges(adj, s, p, trace + [current])
  {
    var n := |stack|;
    var t := trace + [current];
    var s := stack[..n - 1] + pushed;
    var p := pusher[..n - 1] + Repeat(|trace|, |pushed|);
    forall i | 0 <= i < |p| && 0 <= p[i] < |t|
      ensures Edge(adj, t[p[i]], s[i])
    {
      if i < n - 1 {
        assert p[i] == pusher[i] && s[i] == stack[i];
        if pusher[i] < |trace| {
          assert t[p[i]] == trace[pusher[i]];
        }
      } else {
        assert s[i] in pushed && p[i] == |trace| && t[|trace|] == current;
      }
    }
  }

  lemma VisitReach(adj: Adjacency, start: string, universe: set<string>, stack: seq<string>,
                   current: string, pushed: seq<string>)
    requires universe == Destinations(adj) + {start}
    requires StackReach(adj, start, universe, stack) && |stack| > 0
    requires Reachable(adj, start, current)
    requires forall x :: x in pushed ==> Edge(adj, current, x)
    ensures StackReach(adj, start, universe, stack[..|stack| - 1] + pushed)
  {
    var n := |stack|;
    var s := stack[..n - 1] + pushed;
    forall i | 0 <= i < |s|
      ensures s[i] in universe && Reachable(adj, start, s[i])
    {
      if i >= n - 1 {
        assert s[i] in pushed;
        ReachableStep(adj, start, current, s[i]);
      } else {
        assert s[i] == stack[i];
      }
    }
  }

  lemma VisitPending(adj: Adjacency, stack: seq<string>, pusher: seq<int>, visited: set<string>,
                     trace: seq<string>, pushed: seq<string>)
    requires |stack| == |pusher| && |stack| > 0 && Pending(adj, stack, pusher, visited, trace)
    requires forall x :: x in pushed <==> Edge(adj, stack[|stack| - 1], x) && x !in visited + {stack[|stack| - 1]}
    ensures var current := stack[|stack| - 1];
      var s, p := stack[..|stack| - 1] + pushed, pusher[..|pusher| - 1] + Repeat(|trace|, |pushed|);
      |s| == |p| && Pending(adj, s, p, visited + {current}, trace + [current])
  {
    var n := |stack|;
    var current := stack[n - 1];
    var t := trace + [current];
    var visited' := visited + {current};
    var s := stack[..n - 1] + pushed;
    var p := pusher[..n - 1] + Repeat(|trace|, |pushed|);
    forall j, y | 0 <= j < |t| && Edge(adj, t[j], y) && y !in visited'
      ensures exists i :: 0 <= i < |s| && s[i] == y && p[i] == j
    {
      if j < |trace| {
        assert t[j] == trace[j];
        var i :| 0 <= i < |stack| && stack[i] == y && pusher[i] == j;
        assert i < n - 1 && s[i] == y && p[i] == j;
      } else {
        assert y in pushed;
        var i :| 0 <= i < |pushed| && pushed[i] == y;
        assert s[n - 1 + i] == y && p[n - 1 + i] == j;
      }
    }
  }

  /**
   * Visiting the name on top of the stack, which has a bucket, and pushing
   * its unvisited neighbours in any order keeps the invariant.
   */
  lemma Visit(adj: Adjacency, start: string, universe: set<string>,
              stack: seq<string>, pusher: seq<int>, visited: set<string>, trace: seq<string>,
              pushed: seq<string>)
    requires Inv(adj, start, universe, stack, pusher, visited, trace)
    requires |stack| > 0 && stack[|stack| - 1] !in visited
    requires stack[|stack| - 1] in adj
    requires forall x :: x in pushed <==> Edge(adj, stack[|stack| - 1], x) && x !in visited + {stack[|stack| - 1]}
    ensures var current := stack[|stack| - 1];
      Inv(adj, start, universe,
          stack[..|stack| - 1] + pushed, pusher[..|pusher| - 1] + Repeat(|trace|, |pushed|),
          visited + {current}, trace + [current])
  {
    Next(adj, start, universe, stack, pusher, visited, trace);
    var current := stack[|stack| - 1];
    VisitShape(adj, start, stack, pusher, trace, current, pushed);
    VisitEdges(adj, start, stack, pusher, trace, current, pushed);
    VisitReach(adj, start, universe, stack, current, pushed);
    VisitPending(adj, stack, pusher, visited, trace, pushed);
    VisitTraceOk(adj, start, universe, visited, trace, current);
  }

  lemma VisitTraceOk(adj: Adjacency, start: string, universe: set<string>,
                     visited: set<string>, trace: seq<string>, current: string)
    requires TraceOk(adj, start, universe, visited, trace)
    requires current in universe && current in adj && VisitTrace(adj, start, trace + [current])
    ensures TraceOk(adj, start, universe, visited + {current}, trace + [current])
  {
    var t := trace + [current];
    forall k | 0 <= k < |t|
      ensures t[k] in adj
    {
      if k < |trace| {
        assert t[k] == trace[k];
      }
    }
  }

  /** An empty stack means the trace holds exactly the vertices reachable from start. */
  lemma Done(adj: Adjacency, start: string, universe: set<string>,
             pusher: seq<int>, visited: set<string>, trace: seq<string>)
    requires Inv(adj, start, universe, [], pusher, visited, trace)
    ensures VisitTrace(adj, start, trace) && DeepestFirst(adj, trace)
    ensures forall v :: v in trace <==> Reachable(adj, start, v)
    ensures forall v :: Reachable(adj, start, v) ==> v in adj
  {
    assert |trace| > 0;
    forall v | v in Fringe(adj, trace)
      ensures false
    {
    }
    assert Fringe(adj, trace) == {};
    EmptyFringeClosed(adj, trace);
    forall v | Reachable(adj, start, v)
      ensures v in trace
    {
      ClosedHoldsReachable(adj, (set w | w in trace), start, v);
    }
  }
}
