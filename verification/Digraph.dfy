/** Workspace packages, the dependency graph they span, and its strongly connected components. */
module Digraph {

  datatype Package = Package(short: string, name: string, group: string, rel: string, deps: seq<string>)

  /** Packages by short name. A dependency on a name outside the graph is no edge of it. */
  type Graph = map<string, Package>

  ghost predicate NamedBySelf(g: Graph) {
    forall n :: n in g ==> g[n].short == n
  }

  predicate Edge(g: Graph, u: string, v: string) {
    u in g && v in g && v in g[u].deps
  }

  ghost predicate IsPath(g: Graph, p: seq<string>) {
    && p != []
    && p[0] in g
    && forall i :: 0 <= i < |p| - 1 ==> Edge(g, p[i], p[i + 1])
  }

  ghost predicate PathFromTo(g: Graph, p: seq<string>, u: string, v: string) {
    IsPath(g, p) && p[0] == u && p[|p| - 1] == v
  }

  /** `u` depends on `v`, directly, through others, or by being it. */
  ghost predicate Reach(g: Graph, u: string, v: string) {
    exists p :: PathFromTo(g, p, u, v)
  }

  lemma ReachSelf(g: Graph, u: string)
    requires u in g
    ensures Reach(g, u, u)
  {
    assert PathFromTo(g, [u], u, u);
  }

  lemma ReachEdge(g: Graph, u: string, v: string)
    requires Edge(g, u, v)
    ensures Reach(g, u, v)
  {
    assert PathFromTo(g, [u, v], u, v);
  }

  lemma ReachTransitive(g: Graph, u: string, v: string, w: string)
    requires Reach(g, u, v) && Reach(g, v, w)
    ensures Reach(g, u, w)
  {
    var p :| PathFromTo(g, p, u, v);
    var q :| PathFromTo(g, q, v, w);
    var r := p + q[1..];
    forall i | 0 <= i < |r| - 1 ensures Edge(g, r[i], r[i + 1]) {
      if i >= |p| - 1 {
        assert r[i] == q[i - |p| + 1] && r[i + 1] == q[i - |p| + 2];
      }
    }
    assert PathFromTo(g, r, u, w);
  }

  ghost predicate Closed(g: Graph, s: set<string>) {
    forall u, v {:trigger Edge(g, u, v)} :: u in s && Edge(g, u, v) ==> v in s
  }

  /** A path never leaves a closed set. */
  lemma ReachStaysInside(g: Graph, s: set<string>, u: string, v: string)
    requires Closed(g, s) && u in s && Reach(g, u, v)
    ensures v in s
  {
    var p :| PathFromTo(g, p, u, v);
    PathStaysInside(g, s, p, |p| - 1);
  }

  lemma {:induction false} PathStaysInside(g: Graph, s: set<string>, p: seq<string>, k: nat)
    requires Closed(g, s) && IsPath(g, p) && p[0] in s && k < |p|
    ensures p[k] in s
  {
    if k > 0 {
      PathStaysInside(g, s, p, k - 1);
      assert Edge(g, p[k - 1], p[k - 1 + 1]);
    }
  }

  /** A path to another node starts with an edge. */
  lemma FirstEdge(g: Graph, u: string, v: string) returns (w: string)
    requires Reach(g, u, v) && u != v
    ensures Edge(g, u, w) && Reach(g, w, v)
  {
    var p :| PathFromTo(g, p, u, v);
    w := p[1];
    assert Edge(g, p[0], p[0 + 1]);
    var q := p[1..];
    forall i | 0 <= i < |q| - 1 ensures Edge(g, q[i], q[i + 1]) {
      assert Edge(g, p[i + 1], p[i + 1 + 1]);
    }
    assert PathFromTo(g, q, w, v);
  }

  ghost function ReachSet(g: Graph, u: string): set<string> {
    set v | v in g && Reach(g, u, v)
  }

  /** The strongly connected component of `u`. */
  ghost function SccOf(g: Graph, u: string): set<string> {
    set v | v in g && Reach(g, u, v) && Reach(g, v, u)
  }

  ghost predicate IsScc(g: Graph, c: set<string>) {
    exists u :: u in g && c == SccOf(g, u)
  }

  lemma SccOfMember(g: Graph, u: string, v: string)
    requires u in g && v in SccOf(g, u)
    ensures SccOf(g, v) == SccOf(g, u)
  {
    forall w | w in g
      ensures w in SccOf(g, v) <==> w in SccOf(g, u)
    {
      if w in SccOf(g, v) {
        ReachTransitive(g, u, v, w);
        ReachTransitive(g, w, v, u);
      }
      if w in SccOf(g, u) {
        ReachTransitive(g, v, u, w);
        ReachTransitive(g, w, u, v);
      }
    }
  }

  lemma SccOfSelf(g: Graph, u: string)
    requires u in g
    ensures u in SccOf(g, u)
  {
    ReachSelf(g, u);
  }

  /** A component on which some dependency runs: two or more nodes, or one depending on itself. */
  ghost predicate Cyclic(g: Graph, c: set<string>) {
    exists u, v :: u in c && v in c && Edge(g, u, v)
  }

  /** A cyclic component no dependency leaves. */
  ghost predicate SinkCycle(g: Graph, c: set<string>) {
    IsScc(g, c) && Cyclic(g, c) && Closed(g, c)
  }

  /** The test of the source, by size and self-dependency, finds exactly the cyclic components. */
  lemma CyclicBySize(g: Graph, c: set<string>, first: string)
    requires IsScc(g, c) && first in c
    ensures Cyclic(g, c) <==> (c != {first} || Edge(g, first, first))
  {
    var root :| root in g && c == SccOf(g, root);
    SccOfMember(g, root, first);
    if c != {first} {
      var other :| other in c && other != first;
      var w := FirstEdge(g, first, other);
      ReachEdge(g, first, w);
      ReachTransitive(g, w, other, first);
      assert w in c;
    }
  }

  /**
   * Never stuck: if every node of a non-empty finite graph depends on some node of it,
   * a cyclic component without leaving edges exists.
   */
  lemma SinkCycleExists(g: Graph) returns (c: set<string>)
    requires g != map[]
    requires forall u :: u in g ==> exists v :: Edge(g, u, v)
    ensures SinkCycle(g, c)
  {
    hide Reach, SccOf, Edge, ReachSet;
    var u := SmallestReach(g);
    c := ReachSet(g, u);
    SmallestReachIsScc(g, u);
    ReachSetClosed(g, u);
    ReachSetSelf(g, u);
    var v :| Edge(g, u, v);
    assert Cyclic(g, c);
  }

  lemma ReachSetSelf(g: Graph, u: string)
    requires u in g
    ensures u in ReachSet(g, u)
  {
    ReachSelf(g, u);
  }

  lemma ReachSetClosed(g: Graph, u: string)
    ensures Closed(g, ReachSet(g, u))
  {
    forall v, w | v in ReachSet(g, u) && Edge(g, v, w) ensures w in ReachSet(g, u) {
      ReachEdge(g, v, w);
      ReachTransitive(g, u, v, w);
    }
  }

  lemma ReachSetShrinks(g: Graph, u: string, v: string)
    requires Reach(g, u, v)
    ensures ReachSet(g, v) <= ReachSet(g, u)
  {
    forall w | w in ReachSet(g, v) ensures w in ReachSet(g, u) {
      ReachTransitive(g, u, v, w);
    }
  }

  lemma SmallestReachIsScc(g: Graph, u: string)
    requires u in g && forall v :: v in g ==> |ReachSet(g, u)| <= |ReachSet(g, v)|
    ensures ReachSet(g, u) == SccOf(g, u)
  {
    ReachSelf(g, u);
    forall v | v in ReachSet(g, u) ensures v in SccOf(g, u) {
      ReachSetShrinks(g, u, v);
      if u !in ReachSet(g, v) {
        ProperSubsetSmaller(ReachSet(g, v), ReachSet(g, u));
      }
    }
  }

  lemma ProperSubsetSmaller<T>(a: set<T>, b: set<T>)
    requires a < b
    ensures |a| < |b|
  {
    assert |b - a| > 0;
    assert b == a + (b - a);
  }

  lemma SmallestReach(g: Graph) returns (u: string)
    requires g != map[]
    ensures u in g && forall v :: v in g ==> |ReachSet(g, u)| <= |ReachSet(g, v)|
  {
    u :| u in g;
    var todo := g.Keys - {u};
    while todo != {}
      invariant todo <= g.Keys && u in g
      invariant forall v :: v in g && v !in todo ==> |ReachSet(g, u)| <= |ReachSet(g, v)|
    {
      var w :| w in todo;
      todo := todo - {w};
      if |ReachSet(g, w)| < |ReachSet(g, u)| {
        u := w;
      }
    }
  }
}
