/**
 * The graph's adjacency structure as a value (source -> destination -> cost),
 * and what the algorithms promise about it: edges, paths, path costs and
 * reachability from a start vertex.
 */
module Paths {
  import Lex

  type Adjacency = map<string, map<string, int>>

  /** There is a stored edge u -> v. */
  predicate Edge(adj: Adjacency, u: string, v: string)
  {
    u in adj && v in adj[u]
  }

  /** Every name that occurs as the destination of some edge. */
  function Destinations(adj: Adjacency): (d: set<string>)
    ensures forall u, v :: Edge(adj, u, v) ==> v in d
  {
    set u, v | u in adj && v in adj[u] :: v
  }

  /** No stored edge has a negative cost. */
  ghost predicate NonNegative(adj: Adjacency)
  {
    forall u, v :: Edge(adj, u, v) ==> adj[u][v] >= 0
  }

  /** p is a non-empty walk along stored edges. */
  ghost predicate IsPath(adj: Adjacency, p: seq<string>)
  {
    |p| >= 1 && forall i :: 0 <= i < |p| - 1 ==> Edge(adj, p[i], p[i + 1])
  }

  /** p is a walk from s to t. */
  ghost predicate PathFromTo(adj: Adjacency, p: seq<string>, s: string, t: string)
  {
    IsPath(adj, p) && p[0] == s && p[|p| - 1] == t
  }

  /** The sum of the edge costs along a walk. */
  ghost function PathCost(adj: Adjacency, p: seq<string>): int
    requires IsPath(adj, p)
  {
    if |p| == 1 then 0
    else
      assert Edge(adj, p[|p| - 2], p[|p| - 1]);
      PathCost(adj, p[..|p| - 1]) + adj[p[|p| - 2]][p[|p| - 1]]
  }

  /** t can be reached from s by following stored edges (s reaches itself). */
  ghost predicate Reachable(adj: Adjacency, s: string, t: string)
  {
    exists p :: PathFromTo(adj, p, s, t)
  }

  /** Some walk from s to t costs less than bound. */
  ghost predicate ReachableBelow(adj: Adjacency, s: string, t: string, bound: int)
  {
    exists p :: PathFromTo(adj, p, s, t) && PathCost(adj, p) < bound
  }

  /** Every out-neighbour of a member of S is in S. */
  ghost predicate Closed(adj: Adjacency, S: set<string>)
  {
    forall u, v :: u in S && Edge(adj, u, v) ==> v in S
  }

  lemma ReachableSelf(adj: Adjacency, s: string)
    ensures Reachable(adj, s, s)
  {
    assert PathFromTo(adj, [s], s, s);
  }

  /** Extending a walk by one edge. */
  lemma Extend(adj: Adjacency, p: seq<string>, v: string)
    requires IsPath(adj, p) && Edge(adj, p[|p| - 1], v)
    ensures IsPath(adj, p + [v])
    ensures (p + [v])[..|p|] == p
    ensures PathCost(adj, p + [v]) == PathCost(adj, p) + adj[p[|p| - 1]][v]
  {
    assert (p + [v])[..|p|] == p;
  }

  lemma ReachableStep(adj: Adjacency, s: string, u: string, v: string)
    requires Reachable(adj, s, u) && Edge(adj, u, v)
    ensures Reachable(adj, s, v)
  {
    var p :| PathFromTo(adj, p, s, u);
    Extend(adj, p, v);
    assert PathFromTo(adj, p + [v], s, v);
  }

  /** A prefix of a walk is a walk. */
  lemma Prefix(adj: Adjacency, p: seq<string>, k: nat)
    requires IsPath(adj, p) && 1 <= k <= |p|
    ensures IsPath(adj, p[..k])
  {
  }

  /** With non-negative costs, a prefix of a walk costs no more than the walk. */
  lemma {:induction false} PrefixCost(adj: Adjacency, p: seq<string>, k: nat)
    requires NonNegative(adj)
    requires IsPath(adj, p) && 1 <= k <= |p|
    ensures IsPath(adj, p[..k])
    ensures PathCost(adj, p[..k]) <= PathCost(adj, p)
    decreases |p|
  {
    Prefix(adj, p, k);
    if k < |p| {
      var q := p[..|p| - 1];
      Prefix(adj, p, |p| - 1);
      assert q[..k] == p[..k];
      PrefixCost(adj, q, k);
      assert Edge(adj, p[|p| - 2], p[|p| - 1]);
      assert adj[p[|p| - 2]][p[|p| - 1]] >= 0;
      assert PathCost(adj, p) == PathCost(adj, q) + adj[p[|p| - 2]][p[|p| - 1]];
    } else {
      assert p[..k] == p;
    }
  }

  /** With non-negative costs, the part of a walk up to and including its i-th edge costs no more than the walk. */
  lemma ExitCost(adj: Adjacency, p: seq<string>, i: nat)
    requires NonNegative(adj) && IsPath(adj, p) && 0 < i < |p|
    ensures IsPath(adj, p[..i]) && Edge(adj, p[i - 1], p[i])
    ensures PathCost(adj, p[..i]) + adj[p[i - 1]][p[i]] <= PathCost(adj, p)
  {
    Prefix(adj, p, i);
    assert Edge(adj, p[i - 1], p[i]);
    Extend(adj, p[..i], p[i]);
    assert p[..i] + [p[i]] == p[..i + 1];
    PrefixCost(adj, p, i + 1);
  }

  /** With non-negative costs, no walk costs less than zero. */
  lemma NonNegativeCost(adj: Adjacency, p: seq<string>)
    requires NonNegative(adj) && IsPath(adj, p)
    ensures PathCost(adj, p) >= 0
  {
    PrefixCost(adj, p, 1);
  }

  /** A walk between two different vertices ends with an edge into the last one. */
  lemma LastStep(adj: Adjacency, p: seq<string>, s: string, t: string) returns (x: string)
    requires PathFromTo(adj, p, s, t) && s != t
    ensures |p| >= 2 && x == p[|p| - 2] && Edge(adj, x, t)
    ensures PathFromTo(adj, p[..|p| - 1], s, x)
    ensures PathCost(adj, p) == PathCost(adj, p[..|p| - 1]) + adj[x][t]
  {
    x := p[|p| - 2];
    assert Edge(adj, p[|p| - 2], p[|p| - 1]);
    Prefix(adj, p, |p| - 1);
  }

  /**
   * A walk that starts inside S and ends outside it leaves S along some edge:
   * p[i - 1] is in S and p[i] is not.
   */
  lemma {:induction false} LeavesAt(adj: Adjacency, p: seq<string>, S: set<string>) returns (i: nat)
    requires IsPath(adj, p) && p[0] in S && p[|p| - 1] !in S
    ensures 0 < i < |p| && p[i - 1] in S && p[i] !in S
    decreases |p|
  {
    if p[|p| - 2] in S {
      i := |p| - 1;
    } else {
      Prefix(adj, p, |p| - 1);
      i := LeavesAt(adj, p[..|p| - 1], S);
    }
  }

  /** A set that holds s and is closed under the edges holds everything s reaches. */
  lemma ClosedHoldsReachable(adj: Adjacency, S: set<string>, s: string, t: string)
    requires s in S && Closed(adj, S)
    requires Reachable(adj, s, t)
    ensures t in S
  {
    var p :| PathFromTo(adj, p, s, t);
    if t !in S {
      var i := LeavesAt(adj, p, S);
    }
  }

  /**
   * The vertices not yet in the trace p that some vertex of p has an edge to:
   * what a traversal that has visited p may visit next.
   */
  ghost function Fringe(adj: Adjacency, p: seq<string>): set<string>
  {
    set v | v in Destinations(adj) && v !in p && exists j :: 0 <= j < |p| && Edge(adj, p[j], v)
  }

  /**
   * A traversal trace from start: start first, no vertex twice, every later
   * vertex a neighbour of an earlier one, and every vertex reachable from start.
   */
  ghost predicate VisitTrace(adj: Adjacency, start: string, t: seq<string>)
  {
    && |t| >= 1 && t[0] == start
    && (forall i, j :: 0 <= i < j < |t| ==> t[i] != t[j])
    && (forall k :: 0 < k < |t| ==> exists j :: 0 <= j < k && Edge(adj, t[j], t[k]))
    && (forall k :: 0 <= k < |t| ==> Reachable(adj, start, t[k]))
  }

  /** Visiting one more vertex of the universe leaves fewer unvisited ones: why a traversal ends. */
  lemma FewerLeft(universe: set<string>, visited: set<string>, current: string)
    requires current in universe && current !in visited
    ensures |universe - (visited + {current})| < |universe - visited|
  {
    assert universe - (visited + {current}) == (universe - visited) - {current};
  }

  /** Appending a new reachable vertex with an edge from some vertex of a traversal trace gives a traversal trace. */
  lemma TraceStep(adj: Adjacency, start: string, trace: seq<string>, current: string, p: int)
    requires VisitTrace(adj, start, trace) && current !in trace && Reachable(adj, start, current)
    requires 0 <= p < |trace| && Edge(adj, trace[p], current)
    ensures VisitTrace(adj, start, trace + [current])
  {
    var t := trace + [current];
    forall i, j | 0 <= i < j < |t|
      ensures t[i] != t[j]
    {
      assert t[i] == trace[i];
      if j < |trace| {
        assert t[j] == trace[j];
      }
    }
    forall k | 0 < k < |t|
      ensures exists j :: 0 <= j < k && Edge(adj, t[j], t[k])
    {
      if k < |trace| {
        var i :| 0 <= i < k && Edge(adj, trace[i], trace[k]);
        assert t[i] == trace[i] && t[k] == trace[k];
      } else {
        assert t[p] == trace[p];
      }
    }
    forall k | 0 <= k < |t|
      ensures Reachable(adj, start, t[k])
    {
      if k < |trace| {
        assert t[k] == trace[k];
      }
    }
  }

  lemma FringeExtend(adj: Adjacency, p: seq<string>, c: string)
    requires c in adj
    ensures forall v :: v in Fringe(adj, p + [c]) <==>
      (v in Fringe(adj, p) || v in adj[c]) && v !in p && v != c
  {
    var q := p + [c];
    forall v
      ensures v in Fringe(adj, q) <==> (v in Fringe(adj, p) || v in adj[c]) && v !in p && v != c
    {
      if v in Fringe(adj, q) {
        var j :| 0 <= j < |q| && Edge(adj, q[j], v);
        if j < |p| {
          assert q[j] == p[j];
        }
      }
      if (v in Fringe(adj, p) || v in adj[c]) && v !in p && v != c {
        if v in Fringe(adj, p) {
          var j :| 0 <= j < |p| && Edge(adj, p[j], v);
          assert q[j] == p[j];
        } else {
          assert Edge(adj, q[|p|], v);
        }
      }
    }
  }

  /** When nothing is left on the fringe, the vertices of the trace are closed under the edges. */
  lemma EmptyFringeClosed(adj: Adjacency, p: seq<string>)
    requires Fringe(adj, p) == {}
    ensures Closed(adj, set v | v in p)
  {
    forall u, v | u in (set v | v in p) && Edge(adj, u, v)
      ensures v in (set v | v in p)
    {
      var j :| 0 <= j < |p| && p[j] == u;
      assert v in p || v in Fringe(adj, p);
    }
  }

  /** Each vertex after the first is the least name on the fringe of the vertices before it. */
  ghost predicate LeastFirst(adj: Adjacency, t: seq<string>)
  {
    forall k :: 0 < k < |t| ==> Lex.IsLeast(t[k], Fringe(adj, t[..k]))
  }
}
