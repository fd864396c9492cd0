/**
 Finite directed graphs as the metrics script builds them: a dictionary from a
 vertex to its successors.  A vertex may be named only as a successor; looking it
 up then gives no successors.
 */
module Graphs {

  datatype Vertex = Vertex(name: string)

  type Graph = map<Vertex, seq<Vertex>>

  function Successors(g: Graph, v: Vertex): seq<Vertex> {
    if v in g then g[v] else []
  }

  predicate Edge(g: Graph, x: Vertex, y: Vertex) {
    x in g && y in g[x]
  }

  function Vertices(g: Graph): set<Vertex> {
    g.Keys + set v, w | v in g && w in g[v] :: w
  }

  function Elems(s: seq<Vertex>): set<Vertex> {
    set v | v in s
  }

  ghost predicate NoDups(s: seq<Vertex>) {
    forall i, j :: 0 <= i < j < |s| ==> s[i] != s[j]
  }

  // ---------- Reachability ----------

  ghost predicate IsPath(g: Graph, p: seq<Vertex>) {
    p != [] && forall i :: 0 <= i < |p| - 1 ==> Edge(g, p[i], p[i + 1])
  }

  ghost predicate PathBetween(g: Graph, p: seq<Vertex>, x: Vertex, y: Vertex) {
    IsPath(g, p) && p[0] == x && p[|p| - 1] == y
  }

  ghost predicate Reach(g: Graph, x: Vertex, y: Vertex) {
    exists p :: PathBetween(g, p, x, y)
  }

  ghost predicate Mutual(g: Graph, x: Vertex, y: Vertex) {
    Reach(g, x, y) && Reach(g, y, x)
  }

  /** A strongly connected component: a class of mutual reachability. */
  ghost predicate IsComponent(g: Graph, c: set<Vertex>) {
    && c != {}
    && c <= Vertices(g)
    && forall x, y :: x in c ==> (y in c <==> Mutual(g, x, y))
  }

  ghost predicate OnCycle(g: Graph, v: Vertex) {
    exists w :: Edge(g, v, w) && Reach(g, w, v)
  }

  ghost predicate HasCycle(g: Graph, c: set<Vertex>) {
    exists v :: v in c && OnCycle(g, v)
  }

  ghost predicate Acyclic(g: Graph) {
    forall v :: !OnCycle(g, v)
  }

  ghost predicate Closed(g: Graph, c: set<Vertex>) {
    forall x, y :: x in c && Edge(g, x, y) ==> y in c
  }

  lemma ReachRefl(g: Graph, x: Vertex)
    ensures Reach(g, x, x)
  {
    assert PathBetween(g, [x], x, x);
  }

  lemma ReachEdge(g: Graph, x: Vertex, y: Vertex)
    requires Edge(g, x, y)
    ensures Reach(g, x, y)
  {
    assert PathBetween(g, [x, y], x, y);
  }

  lemma ReachTrans(g: Graph, x: Vertex, y: Vertex, z: Vertex)
    requires Reach(g, x, y) && Reach(g, y, z)
    ensures Reach(g, x, z)
  {
    var p :| PathBetween(g, p, x, y);
    var q :| PathBetween(g, q, y, z);
    var r := p + q[1..];
    forall i | 0 <= i < |r| - 1
      ensures Edge(g, r[i], r[i + 1])
    {
      if i < |p| - 1 {
        assert Edge(g, p[i], p[i + 1]);
      } else {
        assert Edge(g, q[i - (|p| - 1)], q[i - (|p| - 1) + 1]);
      }
    }
    assert PathBetween(g, r, x, z);
  }

  lemma EdgeInVertices(g: Graph, x: Vertex, y: Vertex)
    requires Edge(g, x, y)
    ensures x in Vertices(g) && y in Vertices(g)
  {
  }

  /** A path cannot leave a closed set. */
  lemma ClosedReach(g: Graph, c: set<Vertex>, x: Vertex, y: Vertex)
    requires Closed(g, c) && x in c && Reach(g, x, y)
    ensures y in c
  {
    var p :| PathBetween(g, p, x, y);
    var i := 0;
    while i < |p| - 1
      invariant 0 <= i < |p| && p[i] in c
    {
      assert Edge(g, p[i], p[i + 1]);
      i := i + 1;
    }
  }

  /** Whatever a closed walk of positive length visits lies on a cycle. */
  lemma MutualOnCycle(g: Graph, x: Vertex, y: Vertex)
    requires x != y && Mutual(g, x, y)
    ensures OnCycle(g, x)
  {
    var p :| PathBetween(g, p, x, y);
    assert Edge(g, p[0], p[1]);
    assert PathBetween(g, p[1..], p[1], y) by {
      forall i | 0 <= i < |p[1..]| - 1
        ensures Edge(g, p[1..][i], p[1..][i + 1])
      {
        assert Edge(g, p[i + 1], p[i + 2]);
      }
    }
    ReachTrans(g, p[1], y, x);
  }
}
