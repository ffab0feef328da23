/**
 * The proof side of Graphs.Graph.Dijkstra: the state of its main loop, the
 * invariant that state keeps when no edge costs less than zero, and what the
 * invariant gives once the loop is over.
 */
module ShortestPaths {
  import opened Paths

  /** The distance every vertex with a payload starts at; it doubles as "not reached". */
  const Unreached: int := 10000

  /**
   * The main loop's state: the settled vertices, the candidates, the
   * distance and predecessor maps, and (for the proof only) the position at
   * which each settled vertex was settled.
   */
  datatype Search = Search(visited: set<string>, next: set<string>, dist: map<string, int>,
                           pred: map<string, string>, rank: map<string, nat>)

  /** The bucket of u, empty when u has none. */
  function Bucket(adj: Adjacency, u: string): (b: map<string, int>)
    ensures forall v :: v in b <==> Edge(adj, u, v)
  {
    if u in adj then adj[u] else map[]
  }

  /** Some walk from start to v costs exactly d. */
  ghost predicate Witnessed(adj: Adjacency, start: string, v: string, d: int)
  {
    exists p :: PathFromTo(adj, p, start, v) && PathCost(adj, p) == d
  }

  /** No walk from start to v costs less than d. */
  ghost predicate Settled(adj: Adjacency, start: string, v: string, d: int)
  {
    forall p :: PathFromTo(adj, p, start, v) ==> d <= PathCost(adj, p)
  }

  /** Every vertex reachable from start has a payload or is start itself, so it has a distance. */
  ghost predicate Covered(adj: Adjacency, vertices: set<string>, start: string)
  {
    forall v :: Reachable(adj, start, v) ==> v in vertices || v == start
  }

  /** The inputs on which the search is expected to find a shortest path. */
  ghost predicate WellPosed(adj: Adjacency, vertices: set<string>, start: string, end: string)
  {
    NonNegative(adj) && Covered(adj, vertices, start) && ReachableBelow(adj, start, end, Unreached)
  }

  /** Relaxing the edge u -> a, for a key a already handled, lowered the distance of a. */
  predicate Improves(bucket: map<string, int>, keys: set<string>, du: int, dist: map<string, int>, a: string)
  {
    a in keys && a in bucket && a in dist && du + bucket[a] < dist[a]
  }

  /**
   * dist' and pred' are dist and pred after relaxing, from a vertex u at
   * distance du, the edges of its bucket whose destinations are in keys.
   */
  ghost predicate Relaxed(bucket: map<string, int>, keys: set<string>, u: string, du: int,
                          dist: map<string, int>, pred: map<string, string>,
                          dist': map<string, int>, pred': map<string, string>)
  {
    && dist'.Keys == dist.Keys
    && (forall a :: a in dist ==> dist'[a] == if Improves(bucket, keys, du, dist, a) then du + bucket[a] else dist[a])
    && (forall a :: a in pred' <==> a in pred || Improves(bucket, keys, du, dist, a))
    && (forall a :: a in pred' ==> pred'[a] == if Improves(bucket, keys, du, dist, a) then u else pred[a])
  }

  /**
   * Relaxing the edge to one more key a keeps the maps relaxed over the keys
   * done so far. Since every key is met once, the distance compared against
   * is still the one before the loop; the distance of u itself cannot move
   * unless u has an edge to itself of negative cost.
   */
  lemma RelaxOne(bucket: map<string, int>, rest: set<string>, u: string, du: int,
                 dist: map<string, int>, pred: map<string, string>,
                 d1: map<string, int>, p1: map<string, string>, a: string,
                 d2: map<string, int>, p2: map<string, string>)
    requires Relaxed(bucket, bucket.Keys - rest, u, du, dist, pred, d1, p1)
    requires u in d1 && d1[u] == du && (u in bucket ==> bucket[u] >= 0)
    requires a in rest && rest <= bucket.Keys
    requires a in d1 && bucket[a] + du < d1[a] ==> d2 == d1[a := bucket[a] + du] && p2 == p1[a := u]
    requires !(a in d1 && bucket[a] + du < d1[a]) ==> d2 == d1 && p2 == p1
    ensures Relaxed(bucket, bucket.Keys - (rest - {a}), u, du, dist, pred, d2, p2)
    ensures u in d2 && d2[u] == du
  {
    assert bucket.Keys - (rest - {a}) == bucket.Keys - rest + {a};
  }

  /** What holds of the loop state on every input. */
  ghost predicate Base(adj: Adjacency, vertices: set<string>, start: string, universe: set<string>, s: Search)
  {
    && universe == Destinations(adj) + {start}
    && s.dist.Keys == vertices + {start}
    && s.pred.Keys <= s.dist.Keys
    && s.next !! s.visited
    && s.next <= universe && s.visited <= universe
    && (s.visited == {} ==> s.next == {start})
    && (s.visited != {} ==> start in s.visited)
    && (forall y :: y in s.pred ==> Edge(adj, s.pred[y], y))
  }

  /** Distances are bounded, and every distance below Unreached is the cost of some walk. */
  ghost predicate Distances(adj: Adjacency, start: string, s: Search)
  {
    && start in s.dist && s.dist[start] == 0 && start !in s.pred
    && (forall v :: v in s.dist ==> 0 <= s.dist[v] <= Unreached)
    && (forall v :: v in s.dist && s.dist[v] < Unreached ==> Witnessed(adj, start, v, s.dist[v]))
  }

  /**
   * Settled vertices have their final distance, their out-edges are relaxed,
   * and their unsettled neighbours are candidates.
   */
  ghost predicate Frontier(adj: Adjacency, start: string, s: Search)
  {
    && (forall v :: v in s.visited ==> Reachable(adj, start, v))
    && (forall v :: v in s.next ==> Reachable(adj, start, v))
    && (forall v :: v in s.visited ==> v in s.dist && Settled(adj, start, v, s.dist[v]))
    && (forall x, y :: x in s.visited && Edge(adj, x, y) ==>
          x in s.dist && y in s.dist && s.dist[y] <= s.dist[x] + adj[x][y])
    && (forall x, y :: x in s.visited && Edge(adj, x, y) && y !in s.visited ==> y in s.next)
  }

  /**
   * The predecessors form a tree rooted at start: each points to a settled
   * vertex along an edge that accounts for the whole distance, settled
   * vertices point to earlier-settled ones, and every vertex with a distance
   * below Unreached other than start has a predecessor.
   */
  ghost predicate Tree(adj: Adjacency, start: string, s: Search)
  {
    Ranked(s) && Links(adj, s) && CoversBelow(start, s)
  }

  /** Each settled vertex has a distinct position below the number of settled vertices. */
  ghost predicate Ranked(s: Search)
  {
    && s.rank.Keys == s.visited
    && (forall v :: v in s.rank ==> s.rank[v] < |s.visited|)
    && (forall y :: y in s.pred && y in s.visited ==> s.pred[y] in s.rank && s.rank[s.pred[y]] < s.rank[y])
  }

  /** Each predecessor is settled and its edge accounts for the whole distance below Unreached. */
  ghost predicate Links(adj: Adjacency, s: Search)
  {
    forall y :: y in s.pred ==>
      && y in s.dist && s.pred[y] in s.visited && s.pred[y] in s.dist && Edge(adj, s.pred[y], y)
      && s.dist[y] < Unreached && s.dist[y] == s.dist[s.pred[y]] + adj[s.pred[y]][y]
  }

  /** Every vertex other than start with a distance below Unreached has a predecessor. */
  ghost predicate CoversBelow(start: string, s: Search)
  {
    forall v :: v in s.dist && s.dist[v] < Unreached && v != start ==> v in s.pred
  }

  ghost predicate Good(adj: Adjacency, start: string, s: Search)
  {
    Distances(adj, start, s) && Frontier(adj, start, s) && Tree(adj, start, s)
  }

  /** u is a candidate of least distance. */
  ghost predicate Picked(s: Search, u: string)
  {
    u in s.next && u in s.dist && forall x :: x in s.next ==> x in s.dist && s.dist[u] <= s.dist[x]
  }

  /** One iteration of the loop, as far as it is fixed on every input. */
  ghost predicate LooseStep(adj: Adjacency, s: Search, u: string, s2: Search)
  {
    && s2.visited == s.visited + {u}
    && s2.next == (s.next - {u}) + (Bucket(adj, u).Keys - s2.visited)
    && s2.rank == s.rank[u := |s.visited|]
    && s2.dist.Keys == s.dist.Keys
    && (forall a :: a in s2.pred ==>
          (a in s.pred && s2.pred[a] == s.pred[a]) || (a in Bucket(adj, u) && a in s.dist && s2.pred[a] == u))
  }

  /** One iteration of the loop in which the relaxation does not depend on the bucket's order. */
  ghost predicate Step(adj: Adjacency, s: Search, u: string, s2: Search)
  {
    && LooseStep(adj, s, u, s2)
    && u in s.dist
    && Relaxed(Bucket(adj, u), Bucket(adj, u).Keys, u, s.dist[u], s.dist, s.pred, s2.dist, s2.pred)
  }

  /** An iteration that relaxes the bucket of u, if u has one, in an order-independent way is a Step. */
  lemma RelaxedStep(adj: Adjacency, s: Search, u: string, s2: Search)
    requires LooseStep(adj, s, u, s2) && u in s.dist
    requires u in adj ==> Relaxed(adj[u], adj[u].Keys, u, s.dist[u], s.dist, s.pred, s2.dist, s2.pred)
    requires u !in adj ==> s2.dist == s.dist && s2.pred == s.pred
    ensures Step(adj, s, u, s2)
  {
  }

  lemma Init(adj: Adjacency, vertices: set<string>, start: string)
    ensures var s := Search({}, {start}, (map v | v in vertices :: Unreached)[start := 0], map[], map[]);
      Base(adj, vertices, start, Destinations(adj) + {start}, s) && Good(adj, start, s)
  {
    ReachableSelf(adj, start);
    var s := Search({}, {start}, (map v | v in vertices :: Unreached)[start := 0], map[], map[]);
    forall v | v in s.dist && s.dist[v] < Unreached
      ensures Witnessed(adj, start, v, s.dist[v])
    {
      assert v == start;
      assert PathFromTo(adj, [start], start, start);
    }
  }

  /** Every iteration keeps the part of the state that holds on every input. */
  lemma BaseStep(adj: Adjacency, vertices: set<string>, start: string, universe: set<string>,
                 s: Search, u: string, s2: Search)
    requires Base(adj, vertices, start, universe, s)
    requires u in s.next && LooseStep(adj, s, u, s2)
    ensures Base(adj, vertices, start, universe, s2)
  {
    forall y | y in s2.pred
      ensures Edge(adj, s2.pred[y], y)
    {
    }
  }

  /** The candidate of least distance is settled: no walk to it is cheaper. */
  lemma PickSettled(adj: Adjacency, start: string, s: Search, u: string)
    requires NonNegative(adj)
    requires s.visited == {} ==> s.next == {start}
    requires s.visited != {} ==> start in s.visited
    requires s.next !! s.visited
    requires Distances(adj, start, s) && Frontier(adj, start, s)
    requires Picked(s, u)
    ensures Settled(adj, start, u, s.dist[u])
  {
    forall p | PathFromTo(adj, p, start, u)
      ensures s.dist[u] <= PathCost(adj, p)
    {
      if s.visited == {} {
        NonNegativeCost(adj, p);
      } else {
        var i := LeavesAt(adj, p, s.visited);
        ExitCost(adj, p, i);
        assert PathFromTo(adj, p[..i], start, p[i - 1]);
        assert p[i] in s.next;
      }
    }
  }

  /** A walk of cost du to u followed by the edge u -> v costs no less than a settled distance of v. */
  lemma NoShortcut(adj: Adjacency, start: string, u: string, du: int, v: string, dv: int)
    requires Witnessed(adj, start, u, du) && Settled(adj, start, v, dv) && Edge(adj, u, v)
    ensures dv <= du + adj[u][v]
  {
    var p :| PathFromTo(adj, p, start, u) && PathCost(adj, p) == du;
    Extend(adj, p, v);
    assert PathFromTo(adj, p + [v], start, v);
  }

  /** Relaxing from the picked vertex lowers no settled distance, nor its own. */
  lemma SettledKept(adj: Adjacency, start: string, s: Search, u: string)
    requires NonNegative(adj)
    requires Distances(adj, start, s) && Frontier(adj, start, s)
    requires u in s.dist
    ensures forall v :: v in s.visited + {u} ==> !Improves(Bucket(adj, u), Bucket(adj, u).Keys, s.dist[u], s.dist, v)
  {
    var b := Bucket(adj, u);
    forall v | v in s.visited + {u}
      ensures !Improves(b, b.Keys, s.dist[u], s.dist, v)
    {
      if v in b && v != u && s.dist[u] < Unreached {
        NoShortcut(adj, start, u, s.dist[u], v, s.dist[v]);
      }
    }
  }

  /** What one relaxation does to one vertex's distance and predecessor. */
  lemma RelaxedAt(adj: Adjacency, s: Search, u: string, s2: Search, a: string)
    requires Step(adj, s, u, s2) && a in s.dist
    ensures var b := Bucket(adj, u);
      if Improves(b, b.Keys, s.dist[u], s.dist, a) then
        Edge(adj, u, a) && s2.dist[a] == s.dist[u] + adj[u][a] && s2.dist[a] < s.dist[a] && a in s2.pred && s2.pred[a] == u
      else
        s2.dist[a] == s.dist[a] && (a in s2.pred <==> a in s.pred) && (a in s.pred ==> s2.pred[a] == s.pred[a])
  {
  }

  lemma StepDistances(adj: Adjacency, start: string, s: Search, u: string, s2: Search)
    requires NonNegative(adj)
    requires Distances(adj, start, s)
    requires Step(adj, s, u, s2)
    ensures Distances(adj, start, s2)
  {
    var b := Bucket(adj, u);
    var du := s.dist[u];
    RelaxedAt(adj, s, u, s2, start);
    if start in b {
      assert Edge(adj, u, start);
    }
    forall v | v in s2.dist
      ensures 0 <= s2.dist[v] <= Unreached
    {
      RelaxedAt(adj, s, u, s2, v);
      if Improves(b, b.Keys, du, s.dist, v) {
        assert Edge(adj, u, v);
      }
    }
    forall v | v in s2.dist && s2.dist[v] < Unreached
      ensures Witnessed(adj, start, v, s2.dist[v])
    {
      RelaxedAt(adj, s, u, s2, v);
      if Improves(b, b.Keys, du, s.dist, v) {
        assert Edge(adj, u, v) && du < Unreached;
        WitnessStep(adj, start, u, du, v);
      }
    }
  }

  /** A walk of cost du to u followed by the edge u -> v is a walk to v of cost du plus the edge's. */
  lemma WitnessStep(adj: Adjacency, start: string, u: string, du: int, v: string)
    requires Witnessed(adj, start, u, du) && Edge(adj, u, v)
    ensures Witnessed(adj, start, v, du + adj[u][v])
  {
    var p :| PathFromTo(adj, p, start, u) && PathCost(adj, p) == du;
    Extend(adj, p, v);
    assert PathFromTo(adj, p + [v], start, v);
  }

  lemma StepFrontier(adj: Adjacency, vertices: set<string>, start: string, universe: set<string>,
                     s: Search, u: string, s2: Search)
    requires NonNegative(adj) && Covered(adj, vertices, start)
    requires Base(adj, vertices, start, universe, s)
    requires Distances(adj, start, s) && Frontier(adj, start, s)
    requires Picked(s, u) && Step(adj, s, u, s2)
    requires Settled(adj, start, u, s.dist[u])
    requires forall v :: v in s2.visited ==> !Improves(Bucket(adj, u), Bucket(adj, u).Keys, s.dist[u], s.dist, v)
    ensures Frontier(adj, start, s2)
  {
    FrontierReach(adj, start, s, u, s2);
    FrontierSettled(adj, start, s, u, s2);
    FrontierEdges(adj, vertices, start, s, u, s2);
  }

  /** Settling u keeps every settled vertex and every candidate reachable. */
  lemma FrontierReach(adj: Adjacency, start: string, s: Search, u: string, s2: Search)
    requires forall v :: v in s.visited ==> Reachable(adj, start, v)
    requires forall v :: v in s.next ==> Reachable(adj, start, v)
    requires u in s.next && LooseStep(adj, s, u, s2)
    ensures forall v :: v in s2.visited ==> Reachable(adj, start, v)
    ensures forall v :: v in s2.next ==> Reachable(adj, start, v)
  {
    forall v | v in s2.next
      ensures Reachable(adj, start, v)
    {
      if v !in s.next {
        assert v in Bucket(adj, u);
        ReachableStep(adj, start, u, v);
      }
    }
  }

  /** Settled distances, including the one of u, survive the relaxation. */
  lemma FrontierSettled(adj: Adjacency, start: string, s: Search, u: string, s2: Search)
    requires forall v :: v in s.visited ==> v in s.dist && Settled(adj, start, v, s.dist[v])
    requires Step(adj, s, u, s2) && Settled(adj, start, u, s.dist[u])
    requires forall v :: v in s2.visited ==> !Improves(Bucket(adj, u), Bucket(adj, u).Keys, s.dist[u], s.dist, v)
    ensures forall v :: v in s2.visited ==> v in s2.dist && Settled(adj, start, v, s2.dist[v])
  {
    forall v | v in s2.visited
      ensures v in s2.dist && Settled(adj, start, v, s2.dist[v])
    {
      RelaxedAt(adj, s, u, s2, v);
    }
  }

  /** The edges out of settled vertices, now including u's, are relaxed, and lead to settled vertices or candidates. */
  lemma FrontierEdges(adj: Adjacency, vertices: set<string>, start: string, s: Search, u: string, s2: Search)
    requires Covered(adj, vertices, start) && s.dist.Keys == vertices + {start}
    requires Frontier(adj, start, s)
    requires Step(adj, s, u, s2) && u in s.next
    requires forall v :: v in s2.visited ==> !Improves(Bucket(adj, u), Bucket(adj, u).Keys, s.dist[u], s.dist, v)
    ensures forall x, y :: x in s2.visited && Edge(adj, x, y) ==>
      x in s2.dist && y in s2.dist && s2.dist[y] <= s2.dist[x] + adj[x][y]
    ensures forall x, y :: x in s2.visited && Edge(adj, x, y) && y !in s2.visited ==> y in s2.next
  {
    var b := Bucket(adj, u);
    forall x, y | x in s2.visited && Edge(adj, x, y)
      ensures x in s2.dist && y in s2.dist && s2.dist[y] <= s2.dist[x] + adj[x][y]
    {
      ReachableStep(adj, start, x, y);
      assert y in s.dist;
      RelaxedAt(adj, s, u, s2, x);
      RelaxedAt(adj, s, u, s2, y);
      if x == u {
        assert y in b;
      }
    }
    forall x, y | x in s2.visited && Edge(adj, x, y) && y !in s2.visited
      ensures y in s2.next
    {
      if x == u {
        assert y in b;
      }
    }
  }

  lemma StepTree(adj: Adjacency, start: string, s: Search, u: string, s2: Search)
    requires NonNegative(adj)
    requires Distances(adj, start, s) && Tree(adj, start, s)
    requires u !in s.visited && Step(adj, s, u, s2)
    requires forall v :: v in s2.visited ==> !Improves(Bucket(adj, u), Bucket(adj, u).Keys, s.dist[u], s.dist, v)
    ensures Tree(adj, start, s2)
  {
    assert forall y :: y in s.pred ==> s.pred[y] in s.visited;
    TreeLinks(adj, start, s, u, s2);
    SettledPredsKept(adj, s, u, s2);
    TreeRanks(s, u, s2);
    TreeOrder(s, u, s2);
    TreeCovers(adj, start, s, u, s2);
  }

  lemma TreeLinks(adj: Adjacency, start: string, s: Search, u: string, s2: Search)
    requires NonNegative(adj)
    requires Distances(adj, start, s) && Tree(adj, start, s)
    requires Step(adj, s, u, s2)
    requires forall v :: v in s2.visited ==> !Improves(Bucket(adj, u), Bucket(adj, u).Keys, s.dist[u], s.dist, v)
    ensures forall y :: y in s2.pred ==>
      && y in s2.dist && s2.pred[y] in s2.visited && s2.pred[y] in s2.dist && Edge(adj, s2.pred[y], y)
      && s2.dist[y] < Unreached && s2.dist[y] == s2.dist[s2.pred[y]] + adj[s2.pred[y]][y]
  {
    var b := Bucket(adj, u);
    var du := s.dist[u];
    RelaxedAt(adj, s, u, s2, u);
    forall y | y in s2.pred
      ensures && y in s2.dist && s2.pred[y] in s2.visited && s2.pred[y] in s2.dist && Edge(adj, s2.pred[y], y)
              && s2.dist[y] < Unreached && s2.dist[y] == s2.dist[s2.pred[y]] + adj[s2.pred[y]][y]
    {
      assert y in s.dist;
      RelaxedAt(adj, s, u, s2, y);
      if !Improves(b, b.Keys, du, s.dist, y) {
        RelaxedAt(adj, s, u, s2, s.pred[y]);
      }
    }
  }

  /** A settled vertex keeps its predecessor when relaxing improves no settled distance. */
  lemma SettledPredsKept(adj: Adjacency, s: Search, u: string, s2: Search)
    requires Step(adj, s, u, s2)
    requires forall v :: v in s2.visited ==> !Improves(Bucket(adj, u), Bucket(adj, u).Keys, s.dist[u], s.dist, v)
    ensures forall y :: y in s2.pred && y in s2.visited ==> y in s.pred && s2.pred[y] == s.pred[y]
  {
    forall y | y in s2.pred && y in s2.visited
      ensures y in s.pred && s2.pred[y] == s.pred[y]
    {
      assert !Improves(Bucket(adj, u), Bucket(adj, u).Keys, s.dist[u], s.dist, y);
    }
  }

  /** Settling u gives it the next position; the other positions stay. */
  lemma TreeRanks(s: Search, u: string, s2: Search)
    requires s.rank.Keys == s.visited
    requires forall v :: v in s.rank ==> s.rank[v] < |s.visited|
    requires u !in s.visited && s2.visited == s.visited + {u} && s2.rank == s.rank[u := |s.visited|]
    ensures s2.rank.Keys == s2.visited
    ensures forall v :: v in s2.rank ==> s2.rank[v] < |s2.visited|
  {
    assert |s2.visited| == |s.visited| + 1;
    forall v | v in s2.rank
      ensures s2.rank[v] < |s2.visited|
    {
      if v != u {
        assert s2.rank[v] == s.rank[v];
      }
    }
  }

  /** Settled vertices still point to earlier-settled ones after u is settled last. */
  lemma TreeOrder(s: Search, u: string, s2: Search)
    requires s.rank.Keys == s.visited
    requires forall v :: v in s.rank ==> s.rank[v] < |s.visited|
    requires forall y :: y in s.pred ==> s.pred[y] in s.visited
    requires forall y :: y in s.pred && y in s.visited ==> s.pred[y] in s.rank && s.rank[s.pred[y]] < s.rank[y]
    requires u !in s.visited && s2.visited == s.visited + {u} && s2.rank == s.rank[u := |s.visited|]
    requires forall y :: y in s2.pred && y in s2.visited ==> y in s.pred && s2.pred[y] == s.pred[y]
    ensures forall y :: y in s2.pred && y in s2.visited ==> s2.pred[y] in s2.rank && s2.rank[s2.pred[y]] < s2.rank[y]
  {
    forall y | y in s2.pred && y in s2.visited
      ensures s2.pred[y] in s2.rank && s2.rank[s2.pred[y]] < s2.rank[y]
    {
      var x := s.pred[y];
      assert x in s.visited && x != u;
      if y != u {
        assert s2.rank[y] == s.rank[y];
      }
    }
  }

  lemma TreeCovers(adj: Adjacency, start: string, s: Search, u: string, s2: Search)
    requires Tree(adj, start, s)
    requires Step(adj, s, u, s2)
    ensures forall v :: v in s2.dist && s2.dist[v] < Unreached && v != start ==> v in s2.pred
  {
    forall v | v in s2.dist && s2.dist[v] < Unreached && v != start
      ensures v in s2.pred
    {
      RelaxedAt(adj, s, u, s2, v);
    }
  }

  /** With non-negative costs, every iteration that picks a least candidate keeps the invariant. */
  lemma GoodStep(adj: Adjacency, vertices: set<string>, start: string, universe: set<string>,
                 s: Search, u: string, s2: Search)
    requires NonNegative(adj) && Covered(adj, vertices, start)
    requires Base(adj, vertices, start, universe, s) && Good(adj, start, s)
    requires Picked(s, u) && Step(adj, s, u, s2)
    ensures Good(adj, start, s2)
  {
    PickSettled(adj, start, s, u);
    SettledKept(adj, start, s, u);
    StepDistances(adj, start, s, u, s2);
    StepFrontier(adj, vertices, start, universe, s, u, s2);
    StepTree(adj, start, s, u, s2);
  }

  /**
   * One round that settles a least candidate keeps the loop invariant: the
   * part that holds on every input always, the rest when no edge costs less
   * than zero and every vertex start reaches has a distance. The round
   * settles a vertex of the universe that was not settled before.
   */
  lemma Advance(adj: Adjacency, vertices: set<string>, start: string, universe: set<string>,
                s: Search, u: string, s2: Search)
    requires Base(adj, vertices, start, universe, s)
    requires NonNegative(adj) && Covered(adj, vertices, start) ==> Good(adj, start, s)
    requires Picked(s, u) && LooseStep(adj, s, u, s2)
    requires NonNegative(adj) ==> Step(adj, s, u, s2)
    ensures Base(adj, vertices, start, universe, s2)
    ensures NonNegative(adj) && Covered(adj, vertices, start) ==> Good(adj, start, s2)
    ensures u in universe - s.visited && s2.visited == s.visited + {u}
  {
    BaseStep(adj, vertices, start, universe, s, u, s2);
    if NonNegative(adj) && Covered(adj, vertices, start) {
      GoodStep(adj, vertices, start, universe, s, u, s2);
    }
  }

  /** When no candidate is left, every vertex start reaches is settled. */
  lemma DrainedVisitedAll(adj: Adjacency, vertices: set<string>, start: string, universe: set<string>,
                          s: Search, v: string)
    requires Base(adj, vertices, start, universe, s) && Frontier(adj, start, s)
    requires s.next == {} && Reachable(adj, start, v)
    ensures v in s.visited
  {
    assert start in s.visited;
    ClosedHoldsReachable(adj, s.visited, start, v);
  }

  /**
   * Once the loop is over (every vertex with a bucket settled, or no
   * candidate left), the end vertex has a predecessor and its distance is
   * the least cost of any walk to it.
   */
  lemma Finish(adj: Adjacency, vertices: set<string>, start: string, universe: set<string>,
               s: Search, end: string)
    requires Base(adj, vertices, start, universe, s) && Frontier(adj, start, s) && CoversBelow(start, s)
    requires WellPosed(adj, vertices, start, end) && start != end
    requires adj.Keys <= s.visited || s.next == {}
    ensures end in s.dist && end in s.pred
    ensures Settled(adj, start, end, s.dist[end])
  {
    var p :| PathFromTo(adj, p, start, end) && PathCost(adj, p) < Unreached;
    assert Reachable(adj, start, end);
    if s.next == {} {
      DrainedVisitedAll(adj, vertices, start, universe, s, end);
    }
    if end !in s.visited {
      LastEdgeSettled(adj, start, s, end);
    }
    assert s.dist[end] <= PathCost(adj, p);
  }

  /** When every vertex with a bucket is settled, relaxing their edges settled every other vertex too. */
  lemma LastEdgeSettled(adj: Adjacency, start: string, s: Search, end: string)
    requires start != end && end in s.dist
    requires adj.Keys <= s.visited && Frontier(adj, start, s)
    ensures Settled(adj, start, end, s.dist[end])
  {
    forall q | PathFromTo(adj, q, start, end)
      ensures s.dist[end] <= PathCost(adj, q)
    {
      var x := LastStep(adj, q, start, end);
    }
  }

  /** A vertex with a predecessor is reached by some walk cheaper than Unreached. */
  lemma PredBelow(adj: Adjacency, start: string, s: Search, y: string)
    requires Distances(adj, start, s) && Links(adj, s)
    requires y in s.pred
    ensures ReachableBelow(adj, start, y, Unreached)
  {
    var p :| PathFromTo(adj, p, start, y) && PathCost(adj, p) == s.dist[y];
  }

  /**
   * vs runs from start to y, each later vertex recorded with the vertex
   * before it as its predecessor, and no vertex twice: what following the
   * predecessors back from y finds.
   */
  ghost predicate Chain(pred: map<string, string>, start: string, y: string, vs: seq<string>)
  {
    && |vs| >= 1 && vs[0] == start && vs[|vs| - 1] == y
    && (forall i :: 0 < i < |vs| ==> vs[i] in pred && pred[vs[i]] == vs[i - 1])
    && (forall i, j :: 0 <= i < j < |vs| ==> vs[i] != vs[j])
  }

  /** Predecessors recorded along edges give a walk. */
  lemma ChainIsPath(adj: Adjacency, pred: map<string, string>, start: string, y: string, vs: seq<string>)
    requires forall z :: z in pred ==> Edge(adj, pred[z], z)
    requires Chain(pred, start, y, vs)
    ensures PathFromTo(adj, vs, start, y)
  {
    forall i | 0 <= i < |vs| - 1
      ensures Edge(adj, vs[i], vs[i + 1])
    {
      assert vs[i + 1] in pred;
    }
  }

  lemma ChainPrefix(pred: map<string, string>, start: string, y: string, vs: seq<string>)
    requires Chain(pred, start, y, vs) && |vs| >= 2
    ensures Chain(pred, start, vs[|vs| - 2], vs[..|vs| - 1])
    ensures y in pred && pred[y] == vs[|vs| - 2]
  {
  }

  /** Putting the predecessor of the first vertex of a chain in front of it, when it is new, gives a chain from there. */
  lemma ChainFront(pred: map<string, string>, x: string, end: string, path: seq<string>, c: string)
    requires Chain(pred, x, end, path)
    requires x in pred && pred[x] == c && c !in path
    ensures Chain(pred, c, end, [c] + path)
  {
    var vs := [c] + path;
    forall i | 0 < i < |vs|
      ensures vs[i] in pred && pred[vs[i]] == vs[i - 1]
    {
      assert vs[i] == path[i - 1];
      if i > 1 {
        assert vs[i - 1] == path[i - 2];
      }
    }
    forall i, j | 0 <= i < j < |vs|
      ensures vs[i] != vs[j]
    {
      assert vs[j] == path[j - 1];
      if i > 0 {
        assert vs[i] == path[i - 1];
      }
    }
  }

  /** Two chains that end at the same vertex agree from the back, as far as both reach. */
  lemma {:induction false} ChainsAgree(pred: map<string, string>, start: string, end: string,
                                       vs: seq<string>, path: seq<string>, i: nat)
    requires Chain(pred, start, end, vs) && |path| >= 1 && Chain(pred, path[0], end, path)
    requires i < |vs| && i < |path|
    ensures vs[|vs| - 1 - i] == path[|path| - 1 - i]
    decreases i
  {
    if i > 0 {
      ChainsAgree(pred, start, end, vs, path, i - 1);
    }
  }

  /**
   * Following the predecessors back from end, when the walk has not met start
   * and either stops at a vertex without a predecessor or comes back to a
   * vertex it has already met, shows that no chain leads from start to end.
   */
  lemma NoChain(pred: map<string, string>, start: string, end: string, path: seq<string>)
    requires |path| >= 1 && Chain(pred, path[0], end, path) && start !in path
    requires path[0] !in pred || pred[path[0]] in path
    ensures !exists vs :: Chain(pred, start, end, vs)
  {
    forall vs | Chain(pred, start, end, vs)
      ensures false
    {
      var n := |path|;
      if |vs| <= n {
        ChainsAgree(pred, start, end, vs, path, |vs| - 1);
      } else {
        var m := |vs| - n;
        ChainsAgree(pred, start, end, vs, path, n - 1);
        var j :| 0 <= j < n && path[j] == vs[m - 1];
        ChainsAgree(pred, start, end, vs, path, n - 1 - j);
      }
    }
  }

  lemma ChainExtend(pred: map<string, string>, start: string, x: string, w: seq<string>, y: string)
    requires Chain(pred, start, x, w)
    requires y in pred && pred[y] == x && y !in w
    ensures Chain(pred, start, y, w + [y])
  {
    var vs := w + [y];
    forall i, j | 0 <= i < j < |vs|
      ensures vs[i] != vs[j]
    {
      if j == |w| {
        assert vs[i] == w[i];
      }
    }
  }

  /** Under the invariant, a chain to y costs exactly the distance of y. */
  lemma {:induction false} ChainCost(adj: Adjacency, start: string, s: Search, y: string, vs: seq<string>)
    requires start in s.dist && s.dist[start] == 0 && Links(adj, s)
    requires Chain(s.pred, start, y, vs)
    ensures IsPath(adj, vs) && y in s.dist && PathCost(adj, vs) == s.dist[y]
    decreases |vs|
  {
    if |vs| == 1 {
      assert PathFromTo(adj, [start], start, start);
    } else {
      var w := vs[..|vs| - 1];
      ChainPrefix(s.pred, start, y, vs);
      ChainCost(adj, start, s, vs[|vs| - 2], w);
      Extend(adj, w, y);
      assert w + [y] == vs;
    }
  }

  function RankBound(s: Search, y: string): nat
  {
    if y in s.rank then s.rank[y] else |s.visited|
  }

  /** Under the invariant, the predecessors lead back from y to start. */
  lemma {:induction false} ChainTo(adj: Adjacency, start: string, s: Search, y: string) returns (vs: seq<string>)
    requires NonNegative(adj)
    requires Ranked(s) && Links(adj, s) && CoversBelow(start, s)
    requires y == start || y in s.pred
    ensures Chain(s.pred, start, y, vs)
    ensures forall i :: 0 <= i < |vs| - 1 ==> vs[i] in s.visited && s.rank[vs[i]] < RankBound(s, y)
    decreases RankBound(s, y)
  {
    if y == start {
      vs := [start];
    } else {
      var x := s.pred[y];
      assert Edge(adj, x, y);
      assert s.rank[x] < RankBound(s, y);
      var w := ChainTo(adj, start, s, x);
      forall i | 0 <= i < |w|
        ensures w[i] in s.visited && s.rank[w[i]] < RankBound(s, y)
      {
      }
      assert y !in w;
      ChainExtend(s.pred, start, x, w, y);
      vs := w + [y];
      assert forall i :: 0 <= i < |vs| - 1 ==> vs[i] == w[i];
    }
  }
}
