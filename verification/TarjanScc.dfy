/**
 Tarjan's search as the metrics script runs it (scripts/audit-metrics.py): one
 recursive closure over shared dictionaries, a stack and an output list.

 The class below carries that shared state.  Its correctness argument is made on
 immutable snapshots of the fields, so that each step is a small pure lemma.
 */
module TarjanScc {
  import opened Graphs

  /** The closure's variables at one moment. */
  datatype Search = Search(
    index: map<Vertex, nat>,
    low: map<Vertex, nat>,
    onStack: set<Vertex>,
    stack: seq<Vertex>,
    sccs: seq<seq<Vertex>>,
    counter: nat)

  function Union(sccs: seq<seq<Vertex>>): set<Vertex> {
    if sccs == [] then {} else Union(sccs[..|sccs| - 1]) + Elems(sccs[|sccs| - 1])
  }

  /** Every emitted list is a component whose edges stay inside it or lead to
      components emitted earlier. */
  ghost predicate Emitted(g: Graph, sccs: seq<seq<Vertex>>) {
    sccs == [] ||
    var before, last := sccs[..|sccs| - 1], sccs[|sccs| - 1];
    && Emitted(g, before)
    && NoDups(last)
    && IsComponent(g, Elems(last))
    && Elems(last) !! Union(before)
    && Closed(g, Union(before) + Elems(last))
  }

  ghost predicate Bookkeeping(g: Graph, s: Search) {
    && s.index.Keys == s.low.Keys
    && s.index.Keys <= Vertices(g)
    && s.onStack == Elems(s.stack)
    && s.onStack <= s.index.Keys
    && (forall v :: v in s.index ==> s.index[v] < s.counter)
    && Ascending(s.index, s.stack)
  }

  ghost predicate Ascending(index: map<Vertex, nat>, stack: seq<Vertex>) {
    && (forall v :: v in stack ==> v in index)
    && (forall i, j :: 0 <= i < j < |stack| ==> index[stack[i]] < index[stack[j]])
  }

  /** What left the stack is exactly what was emitted. */
  ghost predicate Settled(g: Graph, s: Search) {
    Emitted(g, s.sccs) && Union(s.sccs) == s.index.Keys - s.onStack
  }

  ghost predicate NoWhiteSuccessor(g: Graph, s: Search, gray: set<Vertex>) {
    forall x, y :: x in s.index && x !in gray && Edge(g, x, y) ==> y in s.index
  }

  ghost predicate GrayReachesUp(g: Graph, s: Search, gray: set<Vertex>)
    requires gray <= s.onStack <= s.index.Keys
  {
    forall x, y :: x in gray && y in s.onStack && s.index[x] <= s.index[y] ==> Reach(g, x, y)
  }

  ghost predicate ReachesGray(g: Graph, s: Search, gray: set<Vertex>)
    requires gray <= s.onStack <= s.index.Keys
  {
    forall y {:trigger HasGrayAncestor(g, s, gray, y)} :: y in s.onStack ==> HasGrayAncestor(g, s, gray, y)
  }

  /** `gray` holds the vertices whose call is still running. */
  ghost predicate Inv(g: Graph, s: Search, gray: set<Vertex>) {
    && Bookkeeping(g, s)
    && gray <= s.onStack
    && Settled(g, s)
    && NoWhiteSuccessor(g, s, gray)
    && GrayReachesUp(g, s, gray)
    && ReachesGray(g, s, gray)
  }

  ghost predicate HasGrayAncestor(g: Graph, s: Search, gray: set<Vertex>, y: Vertex)
    requires gray <= s.onStack <= s.index.Keys && y in s.onStack
  {
    exists x :: x in gray && s.index[x] <= s.index[y] && Reach(g, y, x)
  }

  /** Numbers once given are kept, and the stack only grows above what was there. */
  ghost predicate Grew(s: Search, t: Search) {
    && s.stack <= t.stack
    && s.onStack <= t.onStack
    && s.counter <= t.counter
    && (forall x :: x in s.index ==> x in t.index && t.index[x] == s.index[x])
    && (forall x :: x in s.index && x in s.low ==> x in t.low && t.low[x] == s.low[x])
  }

  /** `low[v]` is the number of a stacked vertex that `v` reaches. */
  ghost predicate LowReached(g: Graph, s: Search, v: Vertex)
    requires s.onStack <= s.index.Keys && v in s.low
  {
    exists y :: y in s.onStack && s.index[y] == s.low[v] && Reach(g, v, y)
  }

  /** No edge from the part of the stack above `s` (leaving out the successors of
      `v` not in `done`) leads into the part of `s` below number `low[v]`. */
  ghost predicate CrossEdgesSeen(g: Graph, s: Search, t: Search, v: Vertex, done: seq<Vertex>)
    requires v in t.low && s.onStack <= t.index.Keys
  {
    forall x, y ::
      x in t.onStack && x !in s.onStack && y in s.onStack && Edge(g, x, y) && (x != v || y in done)
      ==> t.low[v] <= t.index[y]
  }

  /** What one call `strong(v)` started in `s` has achieved when it ends in `t`. */
  ghost predicate Explored(g: Graph, s: Search, t: Search, v: Vertex) {
    && Bookkeeping(g, t)
    && Grew(s, t)
    && v in t.index
    && (if v in t.onStack
        then t.low[v] < t.index[v] && LowReached(g, t, v)
        else t.low[v] >= s.counter && t.stack == s.stack)
    && CrossEdgesSeen(g, s, t, v, Successors(g, v))
  }

  /** The state inside `strong(v)`, after the successors in `done`. */
  ghost predicate Exploring(g: Graph, s: Search, t: Search, v: Vertex, done: seq<Vertex>) {
    && Bookkeeping(g, s) && Bookkeeping(g, t)
    && Grew(s, t)
    && v !in s.index && v in t.onStack
    && s.stack + [v] <= t.stack
    && t.index[v] == s.counter
    && t.low[v] <= t.index[v]
    && LowReached(g, t, v)
    && (forall w :: w in done ==> w in t.index)
    && CrossEdgesSeen(g, s, t, v, done)
  }

  function Min(a: nat, b: nat): nat {
    if b < a then b else a
  }

  // ---------- The steps of one call ----------

  function Pushed(s: Search, v: Vertex): Search {
    Search(s.index[v := s.counter], s.low[v := s.counter], s.onStack + {v}, s.stack + [v], s.sccs, s.counter + 1)
  }

  function Lowered(s: Search, v: Vertex, n: nat): Search
    requires v in s.low
  {
    s.(low := s.low[v := Min(s.low[v], n)])
  }

  lemma PushKeepsInv(g: Graph, s: Search, gray: set<Vertex>, v: Vertex)
    requires Inv(g, s, gray)
    requires v !in s.index && v in Vertices(g)
    requires forall x :: x in gray ==> Reach(g, x, v)
    ensures Inv(g, Pushed(s, v), gray + {v})
  {
    hide Reach, Emitted, Vertices, Union;
    var t := Pushed(s, v);
    ReachRefl(g, v);
    assert t.onStack == Elems(t.stack);
    assert ReachesGray(g, t, gray + {v}) by {
      forall y | y in s.onStack
        ensures HasGrayAncestor(g, t, gray + {v}, y)
      {
        assert HasGrayAncestor(g, s, gray, y);
      }
    }
    assert Settled(g, t) by { assert t.index.Keys - t.onStack == s.index.Keys - s.onStack; }
  }

  lemma PushStarts(g: Graph, s: Search, gray: set<Vertex>, v: Vertex)
    requires Inv(g, s, gray)
    requires v !in s.index && v in Vertices(g)
    requires forall x :: x in gray ==> Reach(g, x, v)
    ensures Inv(g, Pushed(s, v), gray + {v})
    ensures Exploring(g, s, Pushed(s, v), v, [])
  {
    hide Reach, Vertices, Settled, NoWhiteSuccessor, GrayReachesUp, ReachesGray, Ascending, Elems;
    PushKeepsInv(g, s, gray, v);
    ReachRefl(g, v);
    assert LowReached(g, Pushed(s, v), v);
  }

  /** Changing `low[v]` alone disturbs nothing but the facts about `low[v]`. */
  lemma LoweredKeepsInv(g: Graph, s: Search, gray: set<Vertex>, v: Vertex, n: nat)
    requires Inv(g, s, gray) && v in s.low
    ensures Inv(g, Lowered(s, v, n), gray)
  {
    var t := Lowered(s, v, n);
    forall y | y in t.onStack
      ensures HasGrayAncestor(g, t, gray, y)
    {
      assert HasGrayAncestor(g, s, gray, y);
    }
  }

  /** The settled vertices are closed under edges. */
  lemma UnionClosed(g: Graph, sccs: seq<seq<Vertex>>)
    requires Emitted(g, sccs)
    ensures Closed(g, Union(sccs))
  {
  }

  lemma AfterCall(g: Graph, s: Search, t: Search, u: Search, v: Vertex, done: seq<Vertex>, w: Vertex)
    requires Exploring(g, s, t, v, done)
    requires Edge(g, v, w) && w !in t.index
    requires Explored(g, t, u, w)
    ensures Exploring(g, s, Lowered(u, v, u.low[w]), v, done + [w])
  {
    hide Reach, Vertices, Ascending, Elems, LowReached, CrossEdgesSeen;
    var r := Lowered(u, v, u.low[w]);
    assert u.low[v] == t.low[v];
    CallLowReached(g, s, t, u, v, done, w);
    CallCrossEdges(g, s, t, u, v, done, w);
  }

  lemma CallLowReached(g: Graph, s: Search, t: Search, u: Search, v: Vertex, done: seq<Vertex>, w: Vertex)
    requires Exploring(g, s, t, v, done)
    requires Edge(g, v, w) && w !in t.index
    requires Explored(g, t, u, w)
    ensures LowReached(g, Lowered(u, v, u.low[w]), v)
  {
    hide Reach, Vertices, Ascending, Elems, CrossEdgesSeen, Edge;
    var r := Lowered(u, v, u.low[w]);
    if u.low[w] < u.low[v] {
      assert w in u.onStack;
      var y :| y in u.onStack && u.index[y] == u.low[w] && Reach(g, w, y);
      ReachEdge(g, v, w);
      ReachTrans(g, v, w, y);
    } else {
      var y :| y in t.onStack && t.index[y] == t.low[v] && Reach(g, v, y);
      assert y in r.onStack && r.index[y] == r.low[v];
    }
  }

  lemma CallCrossEdges(g: Graph, s: Search, t: Search, u: Search, v: Vertex, done: seq<Vertex>, w: Vertex)
    requires Exploring(g, s, t, v, done)
    requires Edge(g, v, w) && w !in t.index
    requires Explored(g, t, u, w)
    ensures CrossEdgesSeen(g, s, Lowered(u, v, u.low[w]), v, done + [w])
  {
    hide Reach, Vertices, Ascending, Elems, LowReached;
    var r := Lowered(u, v, u.low[w]);
    forall x, y | x in r.onStack && x !in s.onStack && y in s.onStack && Edge(g, x, y) && (x != v || y in done + [w])
      ensures r.low[v] <= r.index[y]
    {
      if x in t.onStack {
        assert x == v && y !in done ==> y == w && y in s.index;
      } else {
        assert y in t.onStack;
        assert u.low[w] <= u.index[y];
      }
    }
  }

  lemma StackedLowReached(g: Graph, s: Search, t: Search, v: Vertex, done: seq<Vertex>, w: Vertex)
    requires Exploring(g, s, t, v, done)
    requires Edge(g, v, w) && w in t.onStack
    ensures LowReached(g, Lowered(t, v, t.index[w]), v)
  {
    hide Reach, Vertices, Ascending, Elems, CrossEdgesSeen, Edge;
    var r := Lowered(t, v, t.index[w]);
    if t.index[w] < t.low[v] {
      ReachEdge(g, v, w);
      assert w in r.onStack && r.index[w] == r.low[v];
    } else {
      var y :| y in t.onStack && t.index[y] == t.low[v] && Reach(g, v, y);
      assert y in r.onStack && r.index[y] == r.low[v];
    }
  }

  lemma StackedCrossEdges(g: Graph, s: Search, t: Search, v: Vertex, done: seq<Vertex>, w: Vertex)
    requires Exploring(g, s, t, v, done)
    requires Edge(g, v, w) && w in t.onStack
    ensures CrossEdgesSeen(g, s, Lowered(t, v, t.index[w]), v, done + [w])
  {
    hide Reach, Vertices, Ascending, Elems, LowReached, Edge;
  }

  lemma AfterStacked(g: Graph, s: Search, t: Search, v: Vertex, done: seq<Vertex>, w: Vertex)
    requires Exploring(g, s, t, v, done)
    requires Edge(g, v, w) && w in t.onStack
    ensures Exploring(g, s, Lowered(t, v, t.index[w]), v, done + [w])
  {
    hide Reach, Vertices, Ascending, Elems, LowReached, CrossEdgesSeen;
    StackedLowReached(g, s, t, v, done, w);
    StackedCrossEdges(g, s, t, v, done, w);
  }

  lemma AfterSettled(g: Graph, s: Search, t: Search, v: Vertex, done: seq<Vertex>, w: Vertex)
    requires Exploring(g, s, t, v, done)
    requires w in t.index && w !in t.onStack
    ensures Exploring(g, s, t, v, done + [w])
  {
  }

  // ---------- The end of one call ----------

  /** When `low[v]` is smaller, `v` stays on the stack: some older running call is
      reachable from everything `v` left there. */
  lemma StaysOnStack(g: Graph, s: Search, gray: set<Vertex>, t: Search, v: Vertex)
    requires Inv(g, s, gray) && Inv(g, t, gray + {v})
    requires Exploring(g, s, t, v, Successors(g, v))
    requires t.low[v] != t.index[v]
    ensures Inv(g, t, gray) && Explored(g, s, t, v)
  {
    hide Reach, Settled, Vertices, Ascending, Elems, LowReached, CrossEdgesSeen, ReachesGray;
    StillReachesGray(g, gray, t, v);
  }

  lemma StillReachesGray(g: Graph, gray: set<Vertex>, t: Search, v: Vertex)
    requires gray + {v} <= t.onStack <= t.index.Keys
    requires v in t.low && t.low[v] < t.index[v]
    requires LowReached(g, t, v) && ReachesGray(g, t, gray + {v})
    ensures ReachesGray(g, t, gray)
  {
    hide Reach;
    var z :| z in t.onStack && t.index[z] == t.low[v] && Reach(g, v, z);
    assert HasGrayAncestor(g, t, gray + {v}, z);
    var a :| a in gray + {v} && t.index[a] <= t.index[z] && Reach(g, z, a);
    assert a in gray;
    forall y | y in t.onStack
      ensures HasGrayAncestor(g, t, gray, y)
    {
      assert HasGrayAncestor(g, t, gray + {v}, y);
      var x :| x in gray + {v} && t.index[x] <= t.index[y] && Reach(g, y, x);
      if x == v {
        ReachTrans(g, y, v, z);
        ReachTrans(g, y, z, a);
      }
    }
  }

  /** The stack above `s` in `t`: exactly the vertices numbered from `v` on. */
  lemma AboveV(g: Graph, s: Search, t: Search, v: Vertex, done: seq<Vertex>)
    requires Exploring(g, s, t, v, done)
    ensures forall x :: x in t.onStack ==> (x in s.onStack <==> t.index[x] < t.index[v])
  {
    hide Reach, Vertices, LowReached, CrossEdgesSeen;
    var p := |s.stack|;
    assert t.stack[p] == v;
    forall x | x in t.onStack
      ensures x in s.onStack <==> t.index[x] < t.index[v]
    {
      var i :| 0 <= i < |t.stack| && t.stack[i] == x;
      if i < p {
        assert x == s.stack[i];
      } else {
        assert forall j :: 0 <= j < p ==> t.stack[j] == s.stack[j] && t.stack[j] != t.stack[i];
      }
    }
  }

  /** Edges out of the popped part stay inside it or lead to settled vertices. */
  lemma PoppedClosed(g: Graph, s: Search, gray: set<Vertex>, t: Search, v: Vertex)
    requires Inv(g, s, gray) && Inv(g, t, gray + {v})
    requires Exploring(g, s, t, v, Successors(g, v))
    requires t.low[v] == t.index[v]
    ensures Closed(g, Union(t.sccs) + (t.onStack - s.onStack))
  {
    hide Reach, Vertices, Union, HasGrayAncestor, LowReached, Elems, Ascending;
    UnionClosed(g, t.sccs);
    AboveV(g, s, t, v, Successors(g, v));
    forall x, y | x in t.onStack - s.onStack && Edge(g, x, y)
      ensures y in Union(t.sccs) + (t.onStack - s.onStack)
    {
      assert x !in gray;
      assert y in t.index;
      assert y !in s.onStack;
    }
  }

  lemma PoppedMutual(g: Graph, s: Search, gray: set<Vertex>, t: Search, v: Vertex, x: Vertex)
    requires Inv(g, s, gray) && Inv(g, t, gray + {v})
    requires Exploring(g, s, t, v, Successors(g, v))
    requires x in t.onStack - s.onStack
    ensures Mutual(g, v, x)
  {
    hide Reach, Settled, Vertices, Ascending, Elems, LowReached, CrossEdgesSeen, NoWhiteSuccessor;
    AboveV(g, s, t, v, Successors(g, v));
    assert HasGrayAncestor(g, t, gray + {v}, x);
    var a :| a in gray + {v} && t.index[a] <= t.index[x] && Reach(g, x, a);
    if a != v {
      ReachTrans(g, x, a, v);
    }
  }

  /** A set of vertices mutually reachable with `v`, closed up to a closed set it
      avoids, is all of `v`'s component. */
  lemma ClosedClassIsComponent(g: Graph, settled: set<Vertex>, c: set<Vertex>, v: Vertex)
    requires Closed(g, settled) && Closed(g, settled + c)
    requires settled !! c && v in c && c <= Vertices(g)
    requires forall x :: x in c ==> Mutual(g, v, x)
    ensures IsComponent(g, c)
  {
    hide Reach, Closed, Vertices;
    forall x, y | x in c
      ensures y in c <==> Mutual(g, x, y)
    {
      if y in c {
        ReachTrans(g, x, v, y);
        ReachTrans(g, y, v, x);
      } else if Mutual(g, x, y) {
        ClosedReach(g, settled + c, x, y);
        ClosedReach(g, settled, y, x);
        assert false;
      }
    }
  }

  /** The popped part is a component. */
  lemma PoppedIsComponent(g: Graph, s: Search, gray: set<Vertex>, t: Search, v: Vertex)
    requires Inv(g, s, gray) && Inv(g, t, gray + {v})
    requires Exploring(g, s, t, v, Successors(g, v))
    requires t.low[v] == t.index[v]
    ensures IsComponent(g, t.onStack - s.onStack)
  {
    hide Reach, Mutual, IsComponent, Vertices, Ascending, LowReached, CrossEdgesSeen, NoWhiteSuccessor,
        GrayReachesUp, ReachesGray, Closed, Emitted, Union;
    var c := t.onStack - s.onStack;
    forall x | x in c
      ensures Mutual(g, v, x)
    {
      PoppedMutual(g, s, gray, t, v, x);
    }
    PoppedClosed(g, s, gray, t, v);
    UnionClosed(g, t.sccs);
    ClosedClassIsComponent(g, Union(t.sccs), c, v);
  }

  function Popped(s: Search, t: Search, comp: seq<Vertex>): Search {
    Search(t.index, t.low, s.onStack, s.stack, t.sccs + [comp], t.counter)
  }

  lemma PoppedSettled(g: Graph, s: Search, gray: set<Vertex>, t: Search, v: Vertex, comp: seq<Vertex>)
    requires Inv(g, s, gray) && Inv(g, t, gray + {v})
    requires Exploring(g, s, t, v, Successors(g, v))
    requires t.low[v] == t.index[v]
    requires NoDups(comp) && Elems(comp) == t.onStack - s.onStack
    ensures Settled(g, Popped(s, t, comp))
  {
    hide Reach, IsComponent, Vertices, Ascending, LowReached, CrossEdgesSeen, NoWhiteSuccessor, GrayReachesUp,
        ReachesGray, Closed, NoDups;
    PoppedIsComponent(g, s, gray, t, v);
    PoppedClosed(g, s, gray, t, v);
    var u := Popped(s, t, comp);
    assert u.sccs[..|u.sccs| - 1] == t.sccs;
    assert u.sccs[|u.sccs| - 1] == comp;
    assert Union(u.sccs) == Union(t.sccs) + Elems(comp);
  }

  lemma PopsComponent(g: Graph, s: Search, gray: set<Vertex>, t: Search, v: Vertex, comp: seq<Vertex>)
    requires Inv(g, s, gray) && Inv(g, t, gray + {v})
    requires Exploring(g, s, t, v, Successors(g, v))
    requires t.low[v] == t.index[v]
    requires NoDups(comp) && Elems(comp) == t.onStack - s.onStack
    ensures Inv(g, Popped(s, t, comp), gray) && Explored(g, s, Popped(s, t, comp), v)
  {
    hide Reach, LowReached, Vertices, Emitted, Union, Settled, NoDups, Elems;
    var u := Popped(s, t, comp);
    PoppedSettled(g, s, gray, t, v, comp);
    assert ReachesGray(g, u, gray) by {
      forall y | y in u.onStack
        ensures HasGrayAncestor(g, u, gray, y)
      {
        assert HasGrayAncestor(g, s, gray, y);
      }
    }
    assert v !in s.onStack;
  }

  lemma GrayReachesNext(g: Graph, gray: set<Vertex>, v: Vertex, w: Vertex)
    requires forall x :: x in gray ==> Reach(g, x, v)
    requires Edge(g, v, w)
    ensures forall x :: x in gray + {v} ==> Reach(g, x, w)
    ensures w in Vertices(g)
  {
    hide Reach;
    ReachEdge(g, v, w);
    forall x | x in gray
      ensures Reach(g, x, w)
    {
      ReachTrans(g, x, v, w);
    }
  }

  lemma StackNoDups(g: Graph, s: Search, t: Search, v: Vertex, done: seq<Vertex>)
    requires Exploring(g, s, t, v, done)
    ensures NoDups(t.stack) && t.onStack == Elems(t.stack)
    ensures |s.stack| < |t.stack| && t.stack[|s.stack|] == v && t.stack[..|s.stack|] == s.stack
    ensures s.onStack == Elems(s.stack)
    ensures v in t.index && v in t.low
  {
    hide Vertices, LowReached, CrossEdgesSeen;
    assert (s.stack + [v])[|s.stack|] == v;
  }

  // ---------- What the finished search returns ----------

  /** The script's own test for a component that holds a cycle. */
  predicate IsCyclic(g: Graph, comp: seq<Vertex>) {
    |comp| > 1 || (|comp| == 1 && comp[0] in Successors(g, comp[0]))
  }

  function CyclicOnly(g: Graph, sccs: seq<seq<Vertex>>): seq<seq<Vertex>> {
    if sccs == [] then [] else
      var last := sccs[|sccs| - 1];
      CyclicOnly(g, sccs[..|sccs| - 1]) + if IsCyclic(g, last) then [last] else []
  }

  /** Earlier components never reach later ones (so no two share a vertex). */
  ghost predicate ReverseTopological(g: Graph, comps: seq<seq<Vertex>>) {
    forall i, j, x, y :: 0 <= i < j < |comps| && x in comps[i] && y in comps[j] ==> !Reach(g, x, y)
  }

  lemma {:induction false} EmittedMember(g: Graph, sccs: seq<seq<Vertex>>, k: nat)
    requires Emitted(g, sccs) && k < |sccs|
    ensures NoDups(sccs[k]) && IsComponent(g, Elems(sccs[k])) && Elems(sccs[k]) <= Union(sccs)
  {
    hide IsComponent, NoDups, Closed;
    if k < |sccs| - 1 {
      EmittedMember(g, sccs[..|sccs| - 1], k);
    }
  }

  lemma {:induction false} UnionMember(sccs: seq<seq<Vertex>>, v: Vertex) returns (k: nat)
    requires v in Union(sccs)
    ensures k < |sccs| && v in sccs[k]
  {
    k := |sccs| - 1;
    if v !in sccs[k] {
      k := UnionMember(sccs[..k], v);
    }
  }

  lemma {:induction false} CyclicOnlyMembers(g: Graph, sccs: seq<seq<Vertex>>, c: seq<Vertex>)
    ensures c in CyclicOnly(g, sccs) <==> c in sccs && IsCyclic(g, c)
  {
    if sccs != [] {
      CyclicOnlyMembers(g, sccs[..|sccs| - 1], c);
      assert sccs == sccs[..|sccs| - 1] + [sccs[|sccs| - 1]];
    }
  }

  lemma {:induction false} CyclicOnlyOrdered(g: Graph, sccs: seq<seq<Vertex>>)
    requires Emitted(g, sccs)
    ensures ReverseTopological(g, CyclicOnly(g, sccs))
    ensures forall c, x :: c in CyclicOnly(g, sccs) && x in c ==> x in Union(sccs)
  {
    hide Reach, IsComponent, NoDups, Closed;
    if sccs != [] {
      var before, last := sccs[..|sccs| - 1], sccs[|sccs| - 1];
      var kept := CyclicOnly(g, before);
      CyclicOnlyOrdered(g, before);
      UnionClosed(g, before);
      var out := CyclicOnly(g, sccs);
      forall i, j, x, y | 0 <= i < j < |out| && x in out[i] && y in out[j]
        ensures !Reach(g, x, y)
      {
        assert out[i] == kept[i];
        if j < |kept| {
          assert out[j] == kept[j];
        } else {
          assert out[i] in kept && y in Elems(last);
          if Reach(g, x, y) {
            ClosedReach(g, Union(before), x, y);
          }
        }
      }
    }
  }

  /** The script's test finds exactly the components a cycle passes through. */
  lemma CyclicIffHasCycle(g: Graph, c: seq<Vertex>)
    requires NoDups(c) && IsComponent(g, Elems(c))
    ensures IsCyclic(g, c) <==> HasCycle(g, Elems(c))
  {
    hide Reach;
    assert c[0] in Elems(c);
    if |c| > 1 {
      assert c[1] in Elems(c);
      MutualOnCycle(g, c[0], c[1]);
    } else {
      assert forall v :: v in Elems(c) ==> v == c[0];
      if IsCyclic(g, c) {
        ReachRefl(g, c[0]);
        assert OnCycle(g, c[0]);
      }
      if OnCycle(g, c[0]) {
        var w :| Edge(g, c[0], w) && Reach(g, w, c[0]);
        ReachEdge(g, c[0], w);
        assert Mutual(g, c[0], w);
        assert w == c[0];
      }
    }
  }

  lemma ComponentsSharingVertex(g: Graph, a: set<Vertex>, b: set<Vertex>, v: Vertex)
    requires IsComponent(g, a) && IsComponent(g, b) && v in a && v in b
    ensures a == b
  {
    hide Mutual, Vertices;
    forall y
      ensures y in a <==> y in b
    {
      assert y in a <==> Mutual(g, v, y);
      assert y in b <==> Mutual(g, v, y);
    }
  }

  /** Every vertex is in some component of a finite graph. */
  lemma CycleInComponent(g: Graph, sccs: seq<seq<Vertex>>, v: Vertex)
    requires Emitted(g, sccs) && Union(sccs) == Vertices(g)
    requires OnCycle(g, v)
    ensures CyclicOnly(g, sccs) != []
  {
    hide Reach, IsComponent, Union, Emitted, Vertices, CyclicOnly, IsCyclic, NoDups;
    var w :| Edge(g, v, w) && Reach(g, w, v);
    EdgeInVertices(g, v, w);
    var k := UnionMember(sccs, v);
    EmittedMember(g, sccs, k);
    CyclicIffHasCycle(g, sccs[k]);
    assert v in Elems(sccs[k]);
    CyclicOnlyMembers(g, sccs, sccs[k]);
  }

  /** The sets returned are exactly the components with a cycle. */
  lemma ReturnedExactly(g: Graph, sccs: seq<seq<Vertex>>, c: set<Vertex>)
    requires Emitted(g, sccs) && Union(sccs) == Vertices(g)
    ensures (exists k :: 0 <= k < |CyclicOnly(g, sccs)| && Elems(CyclicOnly(g, sccs)[k]) == c)
       <==> IsComponent(g, c) && HasCycle(g, c)
  {
    hide Reach, Mutual, Emitted, Union, CyclicOnly, IsCyclic, NoDups, HasCycle, Vertices;
    var out := CyclicOnly(g, sccs);
    if k :| 0 <= k < |out| && Elems(out[k]) == c {
      CyclicOnlyMembers(g, sccs, out[k]);
      var j :| 0 <= j < |sccs| && sccs[j] == out[k];
      EmittedMember(g, sccs, j);
      CyclicIffHasCycle(g, sccs[j]);
    }
    if IsComponent(g, c) && HasCycle(g, c) {
      var v :| v in c;
      var j := UnionMember(sccs, v);
      EmittedMember(g, sccs, j);
      ComponentsSharingVertex(g, c, Elems(sccs[j]), v);
      CyclicIffHasCycle(g, sccs[j]);
      CyclicOnlyMembers(g, sccs, sccs[j]);
      var k :| 0 <= k < |out| && out[k] == sccs[j];
      assert Elems(out[k]) == c;
    }
  }

  /** With no call running, nothing is on the stack, and once every key was
      visited every vertex was. */
  lemma SearchFinished(g: Graph, s: Search)
    requires Inv(g, s, {})
    requires g.Keys <= s.index.Keys
    ensures Emitted(g, s.sccs) && Union(s.sccs) == Vertices(g)
  {
    hide Reach, Emitted, Union, Ascending;
    assert s.onStack == {} by {
      assert forall y {:trigger HasGrayAncestor(g, s, {}, y)} :: y in s.onStack ==> HasGrayAncestor(g, s, {}, y);
      assert forall y :: y in s.onStack ==> !HasGrayAncestor(g, s, {}, y);
    }
    forall y | y in Vertices(g)
      ensures y in s.index
    {
      if y !in g.Keys {
        var v :| v in g && y in g[v];
        assert Edge(g, v, y);
      }
    }
  }

  lemma EmptyInv(g: Graph)
    ensures Inv(g, Search(map[], map[], {}, [], [], 0), {})
  {
  }

  lemma KeyInVertices(g: Graph, v: Vertex)
    requires v in g
    ensures v in Vertices(g)
  {
  }

  lemma ExploredGrows(g: Graph, s: Search, t: Search, v: Vertex)
    requires Explored(g, s, t, v)
    ensures v in t.index && forall x :: x in s.index ==> x in t.index
  {
  }

  lemma Returned(g: Graph, sccs: seq<seq<Vertex>>)
    requires Emitted(g, sccs) && Union(sccs) == Vertices(g)
    ensures var out := CyclicOnly(g, sccs);
      && (forall k :: 0 <= k < |out| ==> NoDups(out[k]))
      && (forall c: set<Vertex> ::
           (exists k :: 0 <= k < |out| && Elems(out[k]) == c) <==> IsComponent(g, c) && HasCycle(g, c))
      && ReverseTopological(g, out)
      && (out == [] <==> Acyclic(g))
  {
    hide Reach, Emitted, Vertices, IsComponent, ReverseTopological, CyclicOnly, Union, NoDups;
    var out := CyclicOnly(g, sccs);
    CyclicOnlyOrdered(g, sccs);
    forall k | 0 <= k < |out|
      ensures NoDups(out[k])
    {
      CyclicOnlyMembers(g, sccs, out[k]);
      var j :| 0 <= j < |sccs| && sccs[j] == out[k];
      EmittedMember(g, sccs, j);
    }
    forall c: set<Vertex>
      ensures (exists k :: 0 <= k < |out| && Elems(out[k]) == c) <==> IsComponent(g, c) && HasCycle(g, c)
    {
      ReturnedExactly(g, sccs, c);
    }
    if !Acyclic(g) {
      var v :| OnCycle(g, v);
      CycleInComponent(g, sccs, v);
    }
    if out != [] {
      assert Elems(out[0]) == Elems(out[0]);
      assert HasCycle(g, Elems(out[0]));
    }
  }

  lemma PoppedElems(full: seq<Vertex>, base: nat, comp: seq<Vertex>)
    requires NoDups(full) && base <= |full| && |comp| == |full| - base
    requires forall i :: 0 <= i < |comp| ==> comp[i] == full[|full| - 1 - i]
    ensures NoDups(comp) && Elems(comp) == Elems(full) - Elems(full[..base])
  {
    assert forall j :: 0 <= j < base ==> full[j] == full[..base][j] && full[j] in full[..base];
    forall x | x in Elems(full) - Elems(full[..base])
      ensures x in comp
    {
      var i :| 0 <= i < |full| && full[i] == x;
      assert comp[|full| - 1 - i] == x;
    }
  }

  // ---------- The search itself ----------

  class Tarjan {
    const graph: Graph
    var index: map<Vertex, nat>
    var low: map<Vertex, nat>
    var onStack: set<Vertex>
    var stack: seq<Vertex>
    var sccs: seq<seq<Vertex>>
    var counter: nat

    ghost function Snapshot(): Search
      reads this
    {
      Search(index, low, onStack, stack, sccs, counter)
    }

    constructor (g: Graph)
      ensures graph == g
      ensures Snapshot() == Search(map[], map[], {}, [], [], 0)
    {
      graph := g;
      index, low, onStack, stack, sccs, counter := map[], map[], {}, [], [], 0;
    }

    /** The popping loop of one call: takes `v` and everything above it. */
    method Pop(v: Vertex, ghost base: nat) returns (comp: seq<Vertex>)
      requires base < |stack| && stack[base] == v
      requires NoDups(stack) && onStack == Elems(stack)
      modifies this`stack, this`onStack
      ensures stack == old(stack)[..base] && onStack == Elems(stack)
      ensures NoDups(comp) && Elems(comp) == old(onStack) - onStack
    {
      comp := [];
      ghost var n := |stack|;
      while true
        invariant base < |stack| <= n && stack == old(stack)[..|stack|]
        invariant onStack == Elems(stack)
        invariant |comp| == n - |stack|
        invariant forall i :: 0 <= i < |comp| ==> comp[i] == old(stack)[n - 1 - i]
        decreases |stack|
      {
        var w := stack[|stack| - 1];
        stack := stack[..|stack| - 1];
        onStack := onStack - {w};
        comp := comp + [w];
        if w == v {
          break;
        }
      }
      PoppedElems(old(stack), base, comp);
    }

    /** Visits `v` and everything not yet visited that it reaches.  `gray` holds the
        vertices whose call is still running. */
    method Strong(v: Vertex, ghost gray: set<Vertex>)
      requires Inv(graph, Snapshot(), gray)
      requires v !in index && v in Vertices(graph)
      requires forall x :: x in gray ==> Reach(graph, x, v)
      modifies this
      ensures Inv(graph, Snapshot(), gray)
      ensures Explored(graph, old(Snapshot()), Snapshot(), v)
      decreases Vertices(graph) - index.Keys
    {
      hide Reach, Inv, Vertices, CrossEdgesSeen, LowReached, Ascending, Elems, NoDups;
      ghost var start := Snapshot();
      PushStarts(graph, start, gray, v);
      index, low := index[v := counter], low[v := counter];
      counter := counter + 1;
      stack := stack + [v];
      onStack := onStack + {v};
      assert Snapshot() == Pushed(start, v);

      var successors := Successors(graph, v);
      for i := 0 to |successors|
        invariant Inv(graph, Snapshot(), gray + {v})
        invariant Exploring(graph, start, Snapshot(), v, successors[..i])
      {
        var w := successors[i];
        ghost var before := Snapshot();
        assert successors[..i + 1] == successors[..i] + [w];
        if w !in index {
          GrayReachesNext(graph, gray, v, w);
          Strong(w, gray + {v});
          ghost var after := Snapshot();
          low := low[v := Min(low[v], low[w])];
          AfterCall(graph, start, before, after, v, successors[..i], w);
          LoweredKeepsInv(graph, after, gray + {v}, v, after.low[w]);
        } else if w in onStack {
          low := low[v := Min(low[v], index[w])];
          AfterStacked(graph, start, before, v, successors[..i], w);
          LoweredKeepsInv(graph, before, gray + {v}, v, before.index[w]);
        } else {
          AfterSettled(graph, start, before, v, successors[..i], w);
        }
      }
      assert successors[..|successors|] == successors;
      ghost var explored := Snapshot();
      StackNoDups(graph, start, explored, v, successors);
      if low[v] == index[v] {
        var comp := Pop(v, |start.stack|);
        sccs := sccs + [comp];
        PopsComponent(graph, start, gray, explored, v, comp);
      } else {
        StaysOnStack(graph, start, gray, explored, v);
      }
    }
  }

  /** The script's `tarjan_scc`.  `order` is the order its dictionary lists the keys. */
  method TarjanScc(g: Graph, order: seq<Vertex>) returns (out: seq<seq<Vertex>>)
    requires Elems(order) == g.Keys
    ensures forall k :: 0 <= k < |out| ==> NoDups(out[k])
    ensures forall c: set<Vertex> ::
      (exists k :: 0 <= k < |out| && Elems(out[k]) == c) <==> IsComponent(g, c) && HasCycle(g, c)
    ensures ReverseTopological(g, out)
    ensures out == [] <==> Acyclic(g)
  {
    hide Reach, Inv, Emitted, Vertices, Explored, IsComponent, HasCycle, ReverseTopological;
    var search := new Tarjan(g);
    EmptyInv(g);
    for i := 0 to |order|
      invariant search.graph == g && fresh(search)
      invariant Inv(g, search.Snapshot(), {})
      invariant forall k :: 0 <= k < i ==> order[k] in search.index
    {
      if order[i] !in search.index {
        assert order[i] in Elems(order);
        KeyInVertices(g, order[i]);
        ghost var before := search.Snapshot();
        search.Strong(order[i], {});
        ExploredGrows(g, before, search.Snapshot(), order[i]);
      }
    }
    assert g.Keys <= search.index.Keys by {
      forall v | v in g.Keys
        ensures v in search.index
      {
        assert v in Elems(order);
      }
    }
    SearchFinished(g, search.Snapshot());
    out := CyclicOnly(g, search.sccs);
    Returned(g, search.sccs);
  }
}
