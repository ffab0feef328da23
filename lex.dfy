/**
 * The order in which the graph keeps vertex names when it needs them sorted:
 * the priority-queue frontier of the breadth-first traversal and of the
 * reachability pass of Dijkstra's algorithm, and the sorted maps behind the
 * textual rendering. It is Java's String.compareTo: characters are compared
 * from the left, the first difference decides, and a proper prefix comes first.
 */
module Lex {

  /** a.compareTo(b) < 0 */
  predicate Below(a: string, b: string)
  {
    if |a| == 0 then |b| > 0
    else if |b| == 0 then false
    else if a[0] != b[0] then a[0] < b[0]
    else Below(a[1..], b[1..])
  }

  /** a.compareTo(b) <= 0 */
  predicate AtMost(a: string, b: string)
  {
    a == b || Below(a, b)
  }

  lemma {:induction false} Irreflexive(a: string)
    ensures !Below(a, a)
  {
    if |a| > 0 {
      Irreflexive(a[1..]);
    }
  }

  lemma {:induction false} Asymmetric(a: string, b: string)
    requires Below(a, b)
    ensures !Below(b, a)
  {
    if |a| > 0 && |b| > 0 && a[0] == b[0] {
      Asymmetric(a[1..], b[1..]);
    }
  }

  lemma {:induction false} Transitive(a: string, b: string, c: string)
    requires Below(a, b) && Below(b, c)
    ensures Below(a, c)
  {
    if |a| > 0 && |b| > 0 && |c| > 0 && a[0] == b[0] && b[0] == c[0] {
      Transitive(a[1..], b[1..], c[1..]);
    }
  }

  /** Any two distinct names are ordered one way or the other. */
  lemma {:induction false} Total(a: string, b: string)
    requires a != b
    ensures Below(a, b) || Below(b, a)
  {
    if |a| > 0 && |b| > 0 && a[0] == b[0] {
      assert a == [a[0]] + a[1..] && b == [b[0]] + b[1..];
      Total(a[1..], b[1..]);
    }
  }

  /** The strict order Below is a strict total order; AtMost is the matching total order. */
  lemma AtMostTotalOrder(a: string, b: string, c: string)
    ensures AtMost(a, a)
    ensures AtMost(a, b) && AtMost(b, a) ==> a == b
    ensures AtMost(a, b) && AtMost(b, c) ==> AtMost(a, c)
    ensures AtMost(a, b) || AtMost(b, a)
  {
    if a != b {
      Total(a, b);
      if Below(a, b) {
        Asymmetric(a, b);
      }
    }
    if Below(a, b) && Below(b, c) {
      Transitive(a, b, c);
    }
  }

  /** m is the least element of s. */
  ghost predicate IsLeast(m: string, s: set<string>)
  {
    m in s && forall x :: x in s ==> AtMost(m, x)
  }

  /** The strictly ascending sequences: what a sorted map's key set iterates as. */
  ghost predicate Ascending(s: seq<string>)
  {
    forall i, j :: 0 <= i < j < |s| ==> Below(s[i], s[j])
  }

  /**
   * The least element of a non-empty set of names, found by the linear scan
   * a priority queue's poll amounts to.
   */
  method Least(s: set<string>) returns (m: string)
    requires s != {}
    ensures IsLeast(m, s)
  {
    m :| m in s;
    var rest := s - {m};
    while rest != {}
      invariant m in s && rest <= s
      invariant forall x :: x in s && x !in rest ==> AtMost(m, x)
      decreases rest
    {
      var x :| x in rest;
      if Below(x, m) {
        forall y | y in s && y !in rest
          ensures AtMost(x, y)
        {
          if y != m {
            Transitive(x, m, y);
          }
        }
        m := x;
      } else if x != m {
        Total(x, m);
      }
      rest := rest - {x};
    }
  }

  /** The names of s in ascending order: the key order of a TreeMap built from s. */
  method SortedNames(s: set<string>) returns (r: seq<string>)
    ensures Ascending(r)
    ensures forall x :: x in r <==> x in s
    ensures |r| == |s|
  {
    r := [];
    var rest := s;
    while rest != {}
      invariant rest <= s
      invariant Ascending(r)
      invariant forall x :: x in r <==> x in s && x !in rest
      invariant forall i, y :: 0 <= i < |r| && y in rest ==> Below(r[i], y)
      invariant |r| + |rest| == |s|
      decreases rest
    {
      var m := Least(rest);
      forall i | 0 <= i < |r|
        ensures Below(r[i], m)
      {
      }
      forall y | y in rest - {m}
        ensures Below(m, y)
      {
      }
      r := r + [m];
      rest := rest - {m};
    }
  }
}
