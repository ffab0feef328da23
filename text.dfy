/**
 * The text the graph renders itself as: a header listing the vertex names
 * in ascending order, then one line per vertex giving its outgoing edges.
 * These functions state the format directly, by joining items with ", ";
 * Graphs.Graph.ToString builds the same text the way the source does, by
 * appending every item followed by ", " and cutting the last separator off.
 */
module Text {
  import Lex
  import Paths

  function DigitChar(d: nat): char
    requires d < 10
  {
    "0123456789"[d]
  }

  /** The decimal digits of n, most significant first. */
  function NatToString(n: nat): (s: string)
    ensures |s| >= 1
  {
    if n < 10 then [DigitChar(n)] else NatToString(n / 10) + [DigitChar(n % 10)]
  }

  /** Integer.toString: a minus sign for negative values, then the digits. */
  function IntToString(n: int): string
  {
    if n < 0 then "-" + NatToString(-n) else NatToString(n)
  }

  /** The items separated by ", ". */
  function Join(items: seq<string>): string
  {
    if |items| == 0 then ""
    else if |items| == 1 then items[0]
    else Join(items[..|items| - 1]) + ", " + items[|items| - 1]
  }

  /** Every item followed by ", ": what the buffer holds before the last separator is cut. */
  function Terminated(items: seq<string>): string
  {
    if |items| == 0 then "" else Terminated(items[..|items| - 1]) + items[|items| - 1] + ", "
  }

  /** Cutting the final ", " off the separator-terminated text leaves the joined text. */
  lemma {:induction false} TerminatedIsJoin(items: seq<string>)
    requires |items| >= 1
    ensures Terminated(items) == Join(items) + ", "
    decreases |items|
  {
    if |items| > 1 {
      TerminatedIsJoin(items[..|items| - 1]);
    } else {
      assert items[..0] == [];
    }
  }

  /** The first j + 1 names are the first j names and then the next one. */
  lemma TakeOneMore(names: seq<string>, j: int)
    requires 0 <= j < |names|
    ensures names[..j + 1] == names[..j] + [names[j]]
  {
  }

  /** Regrouping a concatenation of three texts. */
  lemma Associative(a: string, b: string, c: string)
    ensures a + b + c == a + (b + c)
  {
  }

  /** One "destination=cost" entry of a vertex line. */
  function Entry(dest: string, cost: int): string
  {
    dest + "=" + IntToString(cost)
  }

  /**
   * The entries of a bucket, in the given order of its keys. A name that is
   * not a key contributes nothing; the orders used here list keys only.
   */
  function Entries(order: seq<string>, bucket: map<string, int>): seq<string>
  {
    if |order| == 0 then []
    else
      var b := order[|order| - 1];
      Entries(order[..|order| - 1], bucket) + (if b in bucket then [Entry(b, bucket[b])] else [])
  }

  /**
   * The entries of a bucket in the given order, each followed by ", ": what
   * the buffer gains from the loop over a bucket.
   */
  function Listing(order: seq<string>, bucket: map<string, int>): string
  {
    if |order| == 0 then ""
    else
      var b := order[|order| - 1];
      Listing(order[..|order| - 1], bucket) + (if b in bucket then Entry(b, bucket[b]) + ", " else "")
  }

  /** Appending the entry of one more key, followed by ", ", extends the listing. */
  lemma ListingSnoc(buffer: string, order: seq<string>, b: string, bucket: map<string, int>)
    requires b in bucket
    ensures buffer + Listing(order, bucket) + (Entry(b, bucket[b]) + ", ") == buffer + Listing(order + [b], bucket)
  {
    assert (order + [b])[..|order|] == order;
    Associative(buffer, Listing(order, bucket), Entry(b, bucket[b]) + ", ");
  }

  /** The listing is the entries with a separator after each one. */
  lemma {:induction false} ListingIsTerminated(order: seq<string>, bucket: map<string, int>)
    ensures Listing(order, bucket) == Terminated(Entries(order, bucket))
    decreases |order|
  {
    if |order| > 0 {
      var b := order[|order| - 1];
      var prefix := Entries(order[..|order| - 1], bucket);
      ListingIsTerminated(order[..|order| - 1], bucket);
      if b in bucket {
        var entries := prefix + [Entry(b, bucket[b])];
        assert entries[..|entries| - 1] == prefix;
      } else {
        assert prefix + [] == prefix;
      }
    }
  }

  /** order lists every key of the bucket exactly once: one iteration order of a hash map. */
  ghost predicate Enumerates(order: seq<string>, keys: set<string>)
  {
    (forall i, j :: 0 <= i < j < |order| ==> order[i] != order[j]) &&
    (forall x :: x in order <==> x in keys)
  }

  /** A listing of keys only has one entry per key. */
  lemma {:induction false} EntriesCount(order: seq<string>, bucket: map<string, int>)
    requires forall i :: 0 <= i < |order| ==> order[i] in bucket
    ensures |Entries(order, bucket)| == |order|
    decreases |order|
  {
    if |order| > 0 {
      EntriesCount(order[..|order| - 1], bucket);
    }
  }

  /** Cutting the last two characters off the listing of a non-empty order of keys leaves the joined entries. */
  lemma CutListing(prefix: string, order: seq<string>, bucket: map<string, int>)
    requires forall i :: 0 <= i < |order| ==> order[i] in bucket
    requires |order| > 0
    ensures |prefix + Listing(order, bucket)| >= 2
    ensures (prefix + Listing(order, bucket))[..|prefix + Listing(order, bucket)| - 2] == prefix + Join(Entries(order, bucket))
  {
    var joined := Join(Entries(order, bucket));
    ListingIsTerminated(order, bucket);
    EntriesCount(order, bucket);
    TerminatedIsJoin(Entries(order, bucket));
    Associative(prefix, joined, ", ");
  }

  /** The start of the line of vertex a, up to the opening brace. */
  function Opening(a: string): string
  {
    "Vertex(" + a + ")--->{"
  }

  /**
   * What follows the opening brace for a vertex that has a bucket: its entries
   * and the closing brace, or nothing at all when the bucket is empty.
   */
  function Closing(bucket: map<string, int>, order: seq<string>): string
  {
    if |bucket| == 0 then "" else Join(Entries(order, bucket)) + "}\n"
  }

  /**
   * The line of vertex a. A vertex without a bucket shows "{}"; a bucket that
   * exists but is empty leaves the brace unclosed and the line unterminated,
   * because the source closes it only after cutting a separator.
   */
  function VertexLine(a: string, adj: Paths.Adjacency, order: seq<string>): string
  {
    if a !in adj then Opening(a) + "}\n" else Opening(a) + Closing(adj[a], order)
  }

  /** The line ends with the closing brace and a newline. */
  predicate LineClosed(line: string)
  {
    |line| >= 2 && line[|line| - 2..] == "}\n"
  }

  /** A vertex line is closed exactly when the vertex has no bucket or a non-empty one. */
  lemma VertexLineClosed(a: string, adj: Paths.Adjacency, order: seq<string>)
    ensures LineClosed(VertexLine(a, adj, order)) <==> (a in adj ==> |adj[a]| > 0)
  {
    var line := VertexLine(a, adj, order);
    if a in adj && |adj[a]| == 0 {
      assert line == Opening(a) && line[|line| - 1] == '{';
    } else if a in adj {
      var body := Opening(a) + Join(Entries(order, adj[a]));
      assert line == body + "}\n";
      assert line[|line| - 2..] == "}\n";
    } else {
      assert line == Opening(a) + "}\n";
      assert line[|line| - 2..] == "}\n";
    }
  }

  /** orders[i] lists the keys of the bucket of names[i], for every listed vertex that has one. */
  ghost predicate OrdersFor(names: seq<string>, adj: Paths.Adjacency, orders: seq<seq<string>>)
  {
    |orders| == |names| &&
    forall i :: 0 <= i < |names| && names[i] in adj ==> Enumerates(orders[i], adj[names[i]].Keys)
  }

  /** Recording the key order of one more vertex keeps the orders aligned with the names. */
  lemma OrdersSnoc(names: seq<string>, a: string, adj: Paths.Adjacency, orders: seq<seq<string>>, order: seq<string>)
    requires OrdersFor(names, adj, orders)
    requires a in adj ==> Enumerates(order, adj[a].Keys)
    ensures OrdersFor(names + [a], adj, orders + [order])
  {
    forall i | 0 <= i < |names| + 1 && (names + [a])[i] in adj
      ensures Enumerates((orders + [order])[i], adj[(names + [a])[i]].Keys)
    {
      if i < |names| {
        assert (names + [a])[i] == names[i] && (orders + [order])[i] == orders[i];
      }
    }
  }

  /** The line of every name in turn, the bucket of names[i] read in the order orders[i]. */
  function Lines(names: seq<string>, adj: Paths.Adjacency, orders: seq<seq<string>>): string
  {
    if |names| == 0 || |orders| == 0 then ""
    else Lines(names[..|names| - 1], adj, orders[..|orders| - 1]) + VertexLine(names[|names| - 1], adj, orders[|orders| - 1])
  }

  /** Listing one more vertex adds its line at the end. */
  lemma LinesSnoc(buffer: string, names: seq<string>, a: string, adj: Paths.Adjacency,
                  orders: seq<seq<string>>, order: seq<string>)
    ensures buffer + Lines(names, adj, orders) + VertexLine(a, adj, order) == buffer + Lines(names + [a], adj, orders + [order])
  {
    assert (names + [a])[..|names|] == names;
    assert (orders + [order])[..|orders|] == orders;
    Associative(buffer, Lines(names, adj, orders), VertexLine(a, adj, order));
  }

  /**
   * The header. With no vertices the source cuts two characters off
   * "Vertices: [", which leaves "Vertices:" before the closing bracket.
   */
  function Header(names: seq<string>): string
  {
    if |names| == 0 then "Vertices:]\nEdges:\n"
    else "Vertices: [" + Join(names) + "]\nEdges:\n"
  }

  function Render(names: seq<string>, adj: Paths.Adjacency, orders: seq<seq<string>>): string
  {
    Header(names) + Lines(names, adj, orders)
  }

  /** Of two ascending listings of the same names with the same last name, the names before it agree. */
  lemma SameBelowLast(r: seq<string>, t: seq<string>)
    requires Lex.Ascending(r) && |r| > 0 && |t| > 0
    requires forall x :: x in r <==> x in t
    requires r[|r| - 1] == t[|t| - 1]
    ensures forall i :: 0 <= i < |r| - 1 ==> r[i] in t[..|t| - 1]
  {
    var m := r[|r| - 1];
    forall i | 0 <= i < |r| - 1
      ensures r[i] in t[..|t| - 1]
    {
      var x := r[i];
      assert Lex.Below(x, m);
      Lex.Irreflexive(m);
      assert x in t;
      var j :| 0 <= j < |t| && t[j] == x;
      assert t[..|t| - 1][j] == x;
    }
  }

  /** There is only one ascending listing of a set of names, so the vertex order of the text is fixed. */
  lemma {:induction false} AscendingUnique(r: seq<string>, t: seq<string>)
    requires Lex.Ascending(r) && Lex.Ascending(t)
    requires forall x :: x in r <==> x in t
    ensures r == t
    decreases |r|
  {
    if |r| > 0 || |t| > 0 {
      assert |r| > 0 && |t| > 0 by {
        if |t| > 0 {
          assert t[0] in r;
        }
        if |r| > 0 {
          assert r[0] in t;
        }
      }
      var m, n := r[|r| - 1], t[|t| - 1];
      assert n in r && m in t;
      var i :| 0 <= i < |r| && r[i] == n;
      var j :| 0 <= j < |t| && t[j] == m;
      assert Lex.AtMost(n, m) && Lex.AtMost(m, n);
      Lex.AtMostTotalOrder(m, n, n);
      var r', t' := r[..|r| - 1], t[..|t| - 1];
      SameBelowLast(r, t);
      SameBelowLast(t, r);
      AscendingUnique(r', t');
      assert r == r' + [m] && t == t' + [n];
    }
  }
}
