/**
 * What every step of the component traversal keeps, on a snapshot of its variables.
 * The nodes whose visit is still running are called open.
 */
module TarjanInvariant {
  import opened Digraph
  import opened Sorting

  /** `stack` holds names, bottom first; `done` holds the nodes of the components already emitted. */
  datatype Walk = Walk(next: nat, index: map<string, nat>, low: map<string, nat>, stack: seq<string>, done: set<string>)

  ghost predicate Shape(g: Graph, s: Walk) {
    && s.index.Keys <= g.Keys
    && s.low.Keys == s.index.Keys
    && (forall n :: n in s.index ==> s.index[n] < s.next)
    && (forall n :: n in s.stack ==> n in s.index && n !in s.done)
    && (forall n :: n in s.index ==> n in s.stack || n in s.done)
    && s.done <= s.index.Keys
    && (forall i, j {:trigger s.index[s.stack[i]], s.index[s.stack[j]]} :: 0 <= i < j < |s.stack| ==> s.index[s.stack[i]] < s.index[s.stack[j]])
  }

  /** Every dependency of a finished node has been seen. */
  ghost predicate Explored(g: Graph, s: Walk, open: set<string>) {
    forall u, v {:trigger Edge(g, u, v)} :: u in s.index && u !in open && Edge(g, u, v) ==> v in s.index
  }

  /** Lower stack entries reach the higher ones. */
  ghost predicate ReachUp(g: Graph, s: Walk) {
    forall i, j {:trigger Reach(g, s.stack[i], s.stack[j])} :: 0 <= i <= j < |s.stack| ==> Reach(g, s.stack[i], s.stack[j])
  }

  /** `y` reaches an open node at or below it on the stack. */
  ghost predicate ReachesOpen(g: Graph, s: Walk, open: set<string>, y: string)
    requires y in s.index && open <= s.index.Keys
  {
    exists x :: x in open && s.index[x] <= s.index[y] && Reach(g, y, x)
  }

  ghost predicate ReachDown(g: Graph, s: Walk, open: set<string>)
    requires Shape(g, s) && open <= Members(s.stack)
  {
    forall y {:trigger ReachesOpen(g, s, open, y)} :: y in s.stack ==> ReachesOpen(g, s, open, y)
  }

  ghost predicate Inv(g: Graph, s: Walk, open: set<string>) {
    && Shape(g, s)
    && open <= Members(s.stack)
    && Explored(g, s, open)
    && Closed(g, s.done)
    && ReachUp(g, s)
    && ReachDown(g, s, open)
  }

  /** `t` continues `s`: nothing already recorded changed, and the stack only grew. */
  ghost predicate Extends(s: Walk, t: Walk) {
    && s.next <= t.next
    && s.index.Keys <= t.index.Keys
    && s.low.Keys <= t.low.Keys
    && (forall n :: n in s.index ==> t.index[n] == s.index[n])
    && (forall n :: n in s.low ==> t.low[n] == s.low[n])
    && s.stack <= t.stack
    && s.done <= t.done
    && (forall n :: n in t.index && n !in s.index ==> t.index[n] >= s.next)
  }

  function Push(s: Walk, x: string): Walk {
    Walk(s.next + 1, s.index[x := s.next], s.low[x := s.next], s.stack + [x], s.done)
  }

  lemma PushKeeps(g: Graph, s: Walk, open: set<string>, x: string)
    requires Inv(g, s, open) && x in g && x !in s.index
    requires forall z :: z in open ==> Reach(g, z, x)
    ensures Inv(g, Push(s, x), open + {x})
  {
    PushReachUp(g, s, open, x);
    PushReachDown(g, s, open, x);
    hide Reach, Shape, ReachUp, ReachDown;
  }

  lemma PushReachDown(g: Graph, s: Walk, open: set<string>, x: string)
    requires Shape(g, s) && open <= Members(s.stack) && ReachDown(g, s, open) && x in g && x !in s.index
    requires Shape(g, Push(s, x)) && open + {x} <= Members(Push(s, x).stack)
    ensures ReachDown(g, Push(s, x), open + {x})
  {
    hide Reach;
    var t := Push(s, x);
    forall y | y in t.stack ensures ReachesOpen(g, t, open + {x}, y) {
      if y == x {
        ReachSelf(g, x);
      } else {
        assert y in s.stack;
        assert ReachesOpen(g, s, open, y);
        var z :| z in open && s.index[z] <= s.index[y] && Reach(g, y, z);
        assert z in open + {x} && t.index[z] <= t.index[y];
      }
    }
  }

  lemma PushReachUp(g: Graph, s: Walk, open: set<string>, x: string)
    requires Inv(g, s, open) && x in g && x !in s.index
    requires forall z :: z in open ==> Reach(g, z, x)
    ensures ReachUp(g, Push(s, x))
  {
    hide Reach;
    var t := Push(s, x);
    forall i, j | 0 <= i <= j < |t.stack| ensures Reach(g, t.stack[i], t.stack[j]) {
      if j == |s.stack| {
        if i == j {
          ReachSelf(g, x);
        } else {
          assert s.stack[i] in s.stack;
          assert ReachesOpen(g, s, open, s.stack[i]);
          var z :| z in open && s.index[z] <= s.index[s.stack[i]] && Reach(g, s.stack[i], z);
          ReachTransitive(g, s.stack[i], z, x);
        }
      }
    }
  }

  /**
   * The low-link of the open node `x`, pushed at height `base`, after some of its dependencies:
   * the index of a stacked node `x` reaches, and a bound on every edge from above `x` to below it.
   */
  ghost predicate LowLink(g: Graph, s: Walk, base: nat, x: string) {
    && Shape(g, s)
    && base < |s.stack| && s.stack[base] == x
    && s.low[x] <= s.index[x]
    && (exists y :: y in s.stack && s.index[y] == s.low[x] && Reach(g, x, y))
    && (forall u, v {:trigger Edge(g, u, v)} :: u in s.stack[base + 1..] && v in s.stack[..base] && Edge(g, u, v) ==> s.low[x] <= s.index[v])
  }

  /** The same bound for the dependencies of `x` already looked at, all of which have been seen. */
  ghost predicate Scanned(g: Graph, s: Walk, base: nat, x: string, deps: seq<string>) {
    && Shape(g, s)
    && base < |s.stack|
    && x in s.index
    && forall v {:trigger v in deps} :: v in deps && v in g ==> v in s.index && (v in s.stack[..base] ==> s.low[x] <= s.index[v])
  }

  /** An edge from the segment of an `x` that kept its own index never leads below it. */
  lemma EdgeFromSegment(g: Graph, s: Walk, open: set<string>, base: nat, x: string, i: nat, v: string)
    requires x in g && LowLink(g, s, base, x) && Scanned(g, s, base, x, g[x].deps)
    requires Explored(g, s, open + {x})
    requires s.low[x] == s.index[x]
    requires open <= Members(s.stack[..base])
    requires base <= i < |s.stack| && Edge(g, s.stack[i], v)
    ensures v in s.index && v !in s.stack[..base]
  {
    if i == base {
      assert v in g[x].deps;
    } else {
      NotOpenAbove(g, s, open, base, x, i);
      assert s.stack[i] in s.stack[base + 1..] by { assert s.stack[base + 1..][i - base - 1] == s.stack[i]; }
    }
  }

  lemma SegmentClosed(g: Graph, s: Walk, open: set<string>, base: nat, x: string)
    requires x in g && LowLink(g, s, base, x) && Scanned(g, s, base, x, g[x].deps)
    requires Explored(g, s, open + {x}) && Closed(g, s.done)
    requires s.low[x] == s.index[x]
    requires open <= Members(s.stack[..base])
    ensures Closed(g, Members(s.stack[base..]) + s.done)
  {
    var c := Members(s.stack[base..]);
    forall u, v | u in c + s.done && Edge(g, u, v) ensures v in c + s.done {
      if u in c {
        var i :| 0 <= i < |s.stack[base..]| && s.stack[base..][i] == u;
        EdgeFromSegment(g, s, open, base, x, base + i, v);
      }
    }
  }

  lemma NotOpenAbove(g: Graph, s: Walk, open: set<string>, base: nat, x: string, i: nat)
    requires Shape(g, s) && base < i < |s.stack| && s.stack[base] == x
    requires open <= Members(s.stack[..base])
    ensures s.stack[i] !in open + {x}
  {
    assert s.index[s.stack[base]] < s.index[s.stack[i]];
  }

  lemma OpenBelow(g: Graph, s: Walk, base: nat, z: string)
    requires Shape(g, s) && base < |s.stack| && z in Members(s.stack[..base])
    ensures z !in Members(s.stack[base..]) + s.done
  {
    forall i | 0 <= i < |s.stack[base..]| ensures s.stack[base..][i] != z {
      assert s.index[s.stack[base]] <= s.index[s.stack[base + i]];
    }
  }

  lemma SegmentReachesX(g: Graph, s: Walk, open: set<string>, base: nat, x: string, y: string)
    requires Shape(g, s) && base < |s.stack| && s.stack[base] == x
    requires Closed(g, Members(s.stack[base..]) + s.done)
    requires open <= Members(s.stack[..base]) && open + {x} <= Members(s.stack)
    requires y in Members(s.stack[base..]) && y in s.index && ReachesOpen(g, s, open + {x}, y)
    ensures Reach(g, y, x)
  {
    hide Reach;
    var z :| z in open + {x} && s.index[z] <= s.index[y] && Reach(g, y, z);
    if z != x {
      ReachStaysInside(g, Members(s.stack[base..]) + s.done, y, z);
      OpenBelow(g, s, base, z);
    }
  }

  /** ... so that segment is exactly the component of `x`. */
  lemma SegmentIsScc(g: Graph, s: Walk, open: set<string>, base: nat, x: string)
    requires x in g && Inv(g, s, open + {x}) && LowLink(g, s, base, x) && Scanned(g, s, base, x, g[x].deps)
    requires s.low[x] == s.index[x]
    requires open <= Members(s.stack[..base])
    ensures Members(s.stack[base..]) == SccOf(g, x)
  {
    hide Reach;
    SegmentClosed(g, s, open, base, x);
    var c := Members(s.stack[base..]);
    forall y | y in c ensures y in SccOf(g, x) {
      var i :| 0 <= i < |s.stack[base..]| && s.stack[base..][i] == y;
      assert Reach(g, s.stack[base], s.stack[base + i]);
      assert s.stack[base + i] in s.stack;
      SegmentReachesX(g, s, open, base, x, y);
    }
    assert s.stack[base..][0] == x && x in s.stack;
    forall y | y in SccOf(g, x) ensures y in c {
      ReachStaysInside(g, c + s.done, x, y);
      if y in s.done {
        ReachStaysInside(g, s.done, y, x);
      }
    }
  }

  function Pop(s: Walk, base: nat): Walk
    requires base <= |s.stack|
  {
    s.(stack := s.stack[..base], done := s.done + Members(s.stack[base..]))
  }

  lemma PopShape(g: Graph, s: Walk, base: nat)
    requires Shape(g, s) && base < |s.stack|
    ensures Shape(g, Pop(s, base))
  {
    var t := Pop(s, base);
    forall n | n in t.stack ensures n in t.index && n !in t.done {
      OpenBelow(g, s, base, n);
    }
    forall i, j | 0 <= i < j < |t.stack| ensures t.index[t.stack[i]] < t.index[t.stack[j]] {
      assert s.index[s.stack[i]] < s.index[s.stack[j]];
    }
  }

  /** Emitting the component of `x` closes its visit. */
  lemma PopKeeps(g: Graph, s: Walk, open: set<string>, base: nat, x: string)
    requires x in g && Inv(g, s, open + {x}) && LowLink(g, s, base, x) && Scanned(g, s, base, x, g[x].deps)
    requires s.low[x] == s.index[x]
    requires open <= Members(s.stack[..base])
    ensures Inv(g, Pop(s, base), open)
  {
    hide Reach;
    var t := Pop(s, base);
    PopShape(g, s, base);
    SegmentClosed(g, s, open, base, x);
    assert t.done == Members(s.stack[base..]) + s.done;
    assert ReachUp(g, t);
    forall y | y in t.stack ensures ReachesOpen(g, t, open, y) {
      PopReachesOpen(g, s, open, base, x, y);
    }
  }

  lemma PopReachesOpen(g: Graph, s: Walk, open: set<string>, base: nat, x: string, y: string)
    requires Shape(g, s) && base < |s.stack| && s.stack[base] == x
    requires open <= Members(s.stack[..base]) && open + {x} <= Members(s.stack)
    requires y in s.stack[..base] && ReachDown(g, s, open + {x})
    ensures y in s.index && ReachesOpen(g, s, open, y)
  {
    hide Reach;
    assert ReachesOpen(g, s, open + {x}, y);
    var z :| z in open + {x} && s.index[z] <= s.index[y] && Reach(g, y, z);
    assert z in open;
  }

  /** A node whose low-link lies below it stays stacked and closes its visit too. */
  lemma KeepKeeps(g: Graph, s: Walk, open: set<string>, base: nat, x: string)
    requires x in g && Inv(g, s, open + {x}) && LowLink(g, s, base, x) && Scanned(g, s, base, x, g[x].deps)
    requires s.low[x] != s.index[x]
    requires open <= Members(s.stack[..base])
    ensures Inv(g, s, open)
  {
    var z := LowLinkReachesOpen(g, s, open, base, x);
    KeepReachDown(g, s, open, x, z);
    hide LowLink, Scanned, Reach, Explored, Closed, ReachUp, ReachDown, Shape;
  }

  lemma KeepReachDown(g: Graph, s: Walk, open: set<string>, x: string, z: string)
    requires Shape(g, s) && open + {x} <= Members(s.stack) && ReachDown(g, s, open + {x})
    requires z in open && z in s.index && x in s.index && s.index[z] < s.index[x] && Reach(g, x, z)
    ensures ReachDown(g, s, open)
  {
    hide Reach;
    forall y | y in s.stack ensures ReachesOpen(g, s, open, y) {
      KeepReachesOpen(g, s, open, x, z, y);
    }
  }

  lemma KeepReachesOpen(g: Graph, s: Walk, open: set<string>, x: string, z: string, y: string)
    requires y in s.index && open + {x} <= s.index.Keys && ReachesOpen(g, s, open + {x}, y)
    requires z in open && s.index[z] < s.index[x] && Reach(g, x, z)
    ensures ReachesOpen(g, s, open, y)
  {
    hide Reach;
    var w :| w in open + {x} && s.index[w] <= s.index[y] && Reach(g, y, w);
    if w == x {
      ReachTransitive(g, y, x, z);
    }
  }

  lemma LowLinkReachesOpen(g: Graph, s: Walk, open: set<string>, base: nat, x: string) returns (z: string)
    requires LowLink(g, s, base, x) && s.low[x] != s.index[x]
    requires open + {x} <= Members(s.stack) && ReachDown(g, s, open + {x})
    ensures z in open && z in s.index && s.index[z] < s.index[x] && Reach(g, x, z)
  {
    hide Reach;
    var y :| y in s.stack && s.index[y] == s.low[x] && Reach(g, x, y);
    assert ReachesOpen(g, s, open + {x}, y);
    z :| z in open + {x} && s.index[z] <= s.index[y] && Reach(g, y, z);
    ReachTransitive(g, x, y, z);
  }

  /** What a finished visit of `x`, begun in `r`, tells its caller. */
  ghost predicate Visited(g: Graph, r: Walk, s: Walk, x: string) {
    && x in s.index && x in s.low
    && s.low[x] <= s.index[x]
    && (x in s.stack ==> exists y :: y in s.stack && y in s.index && s.index[y] == s.low[x] && Reach(g, x, y))
    && (x !in s.stack ==> s.low[x] == s.index[x])
    && |r.stack| <= |s.stack|
    && forall u, v {:trigger Edge(g, u, v)} ::
        u in s.stack[|r.stack|..] && v in r.stack && v in s.index && Edge(g, u, v) ==> s.low[x] <= s.index[v]
  }

  function SetLow(s: Walk, x: string, n: nat): Walk
    requires x in s.low
  {
    s.(low := s.low[x := if n < s.low[x] then n else s.low[x]])
  }

  lemma SetLowReachDown(g: Graph, s: Walk, open: set<string>, x: string, n: nat)
    requires x in s.low && Shape(g, s) && open <= Members(s.stack) && ReachDown(g, s, open)
    requires Shape(g, SetLow(s, x, n))
    ensures ReachDown(g, SetLow(s, x, n), open)
  {
    hide Reach;
    forall y | y in s.stack ensures ReachesOpen(g, SetLow(s, x, n), open, y) {
      assert ReachesOpen(g, s, open, y);
    }
  }

  /** Lowering a low-link breaks nothing. */
  lemma SetLowKeeps(g: Graph, s: Walk, open: set<string>, x: string, n: nat)
    requires x in s.low && Inv(g, s, open)
    ensures Inv(g, SetLow(s, x, n), open)
  {
    SetLowReachDown(g, s, open, x, n);
    hide Shape, ReachDown, Reach;
  }

  lemma JustPushed(g: Graph, r: Walk, open: set<string>, x: string)
    requires Inv(g, r, open) && x in g && x !in r.index
    requires forall z :: z in open ==> Reach(g, z, x)
    ensures LowLink(g, Push(r, x), |r.stack|, x)
    ensures Scanned(g, Push(r, x), |r.stack|, x, [])
    ensures Extends(r, Push(r, x))
    ensures open <= Members(Push(r, x).stack[..|r.stack|])
  {
    hide Reach, ReachDown, ReachUp, Explored, Closed;
    var s := Push(r, x);
    ReachSelf(g, x);
    assert s.stack[|r.stack|] == x && x in s.stack;
    assert s.stack[|r.stack| + 1..] == [];
    assert s.stack[..|r.stack|] == r.stack;
  }

  /** A dependency visited just now: its low-link joins that of `x`. */
  lemma AfterVisit(g: Graph, s: Walk, t: Walk, base: nat, x: string, deps: seq<string>, v: string)
    requires LowLink(g, s, base, x) && Scanned(g, s, base, x, deps)
    requires Extends(s, t) && Shape(g, t) && Visited(g, s, t, v)
    requires Edge(g, x, v) && v !in s.index
    ensures x in t.low && v in t.low
    ensures LowLink(g, SetLow(t, x, t.low[v]), base, x)
    ensures Scanned(g, SetLow(t, x, t.low[v]), base, x, deps + [v])
  {
    hide Reach;
    assert x in s.stack;
    VisitLowWitness(g, s, t, base, x, v);
    VisitCrossing(g, s, t, base, x, v);
    VisitScanned(g, s, t, base, x, deps, v);
    assert t.stack[base] == s.stack[base];
  }

  lemma VisitCrossing(g: Graph, s: Walk, t: Walk, base: nat, x: string, v: string)
    requires LowLink(g, s, base, x)
    requires Extends(s, t) && Shape(g, t) && Visited(g, s, t, v)
    ensures x in t.low
    ensures forall u, w {:trigger Edge(g, u, w)} :: u in t.stack[base + 1..] && w in t.stack[..base] && Edge(g, u, w)
              ==> w in t.index && SetLow(t, x, t.low[v]).low[x] <= t.index[w]
  {
    hide Reach;
    assert x in s.stack;
    forall u, w | u in t.stack[base + 1..] && w in t.stack[..base] && Edge(g, u, w)
      ensures w in t.index && SetLow(t, x, t.low[v]).low[x] <= t.index[w]
    {
      StackBelow(g, s, t, base, w);
    }
  }

  lemma StackBelow(g: Graph, s: Walk, t: Walk, base: nat, w: string)
    requires Shape(g, s) && base <= |s.stack| && Extends(s, t)
    requires w in t.stack[..base]
    ensures w in s.stack[..base] && w in s.stack && w in s.index && t.index[w] == s.index[w]
  {
    var j :| 0 <= j < base && t.stack[..base][j] == w;
    assert s.stack[j] == t.stack[j] && s.stack[..base][j] == w;
  }

  lemma VisitScanned(g: Graph, s: Walk, t: Walk, base: nat, x: string, deps: seq<string>, v: string)
    requires Scanned(g, s, base, x, deps)
    requires Extends(s, t) && Shape(g, t) && x in s.low
    requires v !in s.index && v in t.low
    ensures Scanned(g, SetLow(t, x, t.low[v]), base, x, deps + [v])
  {
    var t' := SetLow(t, x, t.low[v]);
    forall w {:trigger w in deps + [v]} | w in deps + [v] && w in g
      ensures w in t'.index && (w in t'.stack[..base] ==> t'.low[x] <= t'.index[w])
    {
      if w in t.stack[..base] {
        StackBelow(g, s, t, base, w);
        assert w in deps;
      } else if w in deps {
        assert w in s.index;
      }
    }
  }

  lemma VisitLowWitness(g: Graph, s: Walk, t: Walk, base: nat, x: string, v: string)
    requires LowLink(g, s, base, x)
    requires Extends(s, t) && Shape(g, t) && Visited(g, s, t, v)
    requires Edge(g, x, v) && v !in s.index
    ensures x in t.low && v in t.low
    ensures var t' := SetLow(t, x, t.low[v]);
            exists y :: y in t'.stack && t'.index[y] == t'.low[x] && Reach(g, x, y)
  {
    hide Reach;
    assert x in s.stack;
    var y :| y in s.stack && s.index[y] == s.low[x] && Reach(g, x, y);
    assert y in t.stack && t.index[y] == s.low[x];
    if t.low[v] < t.low[x] {
      assert v in t.stack;
      var z :| z in t.stack && z in t.index && t.index[z] == t.low[v] && Reach(g, v, z);
      ReachEdge(g, x, v);
      ReachTransitive(g, x, v, z);
    }
  }

  /** A dependency still on the stack: its index joins the low-link of `x`. */
  lemma AfterStacked(g: Graph, s: Walk, base: nat, x: string, deps: seq<string>, v: string)
    requires LowLink(g, s, base, x) && Scanned(g, s, base, x, deps)
    requires Edge(g, x, v) && v in s.stack
    ensures x in s.low && v in s.index
    ensures LowLink(g, SetLow(s, x, s.index[v]), base, x)
    ensures Scanned(g, SetLow(s, x, s.index[v]), base, x, deps + [v])
  {
    hide Reach;
    assert x in s.stack && v in s.index;
    StackedWitness(g, s, base, x, v);
    hide Shape;
  }

  lemma StackedWitness(g: Graph, s: Walk, base: nat, x: string, v: string)
    requires LowLink(g, s, base, x) && Edge(g, x, v) && v in s.stack
    ensures x in s.low && v in s.index
    ensures var t := SetLow(s, x, s.index[v]);
            exists z :: z in t.stack && t.index[z] == t.low[x] && Reach(g, x, z)
  {
    hide Reach;
    assert x in s.stack;
    ReachEdge(g, x, v);
    var t := SetLow(s, x, s.index[v]);
    if s.index[v] < s.low[x] {
      assert v in t.stack && t.index[v] == t.low[x];
    } else {
      var y :| y in s.stack && s.index[y] == s.low[x] && Reach(g, x, y);
      assert y in t.stack && t.index[y] == t.low[x];
    }
  }

  /** A dependency outside the graph or in a finished component needs nothing. */
  lemma AfterOther(g: Graph, s: Walk, base: nat, x: string, deps: seq<string>, v: string)
    requires Scanned(g, s, base, x, deps)
    requires v in g ==> v in s.index && v !in s.stack
    ensures Scanned(g, s, base, x, deps + [v])
  {
  }

  lemma KeptIsVisited(g: Graph, r: Walk, s: Walk, x: string)
    requires x in g && LowLink(g, s, |r.stack|, x) && Scanned(g, s, |r.stack|, x, g[x].deps)
    requires Extends(r, s)
    ensures Visited(g, r, s, x)
  {
    hide Reach;
    var base := |r.stack|;
    assert r.stack == s.stack[..base];
    assert x in s.stack;
    forall u, v | u in s.stack[base..] && v in r.stack && v in s.index && Edge(g, u, v) ensures s.low[x] <= s.index[v] {
      if u == x {
        assert v in g[x].deps;
      } else {
        assert s.stack[base..] == [x] + s.stack[base + 1..];
      }
    }
  }

  lemma PoppedIsVisited(g: Graph, r: Walk, s: Walk, x: string)
    requires x in g && LowLink(g, s, |r.stack|, x)
    requires s.low[x] == s.index[x]
    requires Extends(r, s)
    ensures Visited(g, r, Pop(s, |r.stack|), x)
    ensures Extends(r, Pop(s, |r.stack|))
  {
    var base := |r.stack|;
    var t := Pop(s, base);
    assert r.stack == s.stack[..base];
    assert t.stack[|r.stack|..] == [];
    assert x in s.stack;
  }

  lemma OpenBelowWitness(g: Graph, s: Walk, open: set<string>, y: string) returns (z: string)
    requires Inv(g, s, open) && y in s.stack
    ensures z in open
  {
    assert ReachesOpen(g, s, open, y);
    z :| z in open && s.index[z] <= s.index[y] && Reach(g, y, z);
  }

  /** With no visit open the stack is empty, so every seen node lies in an emitted component. */
  lemma NothingStacked(g: Graph, s: Walk)
    requires Inv(g, s, {})
    ensures s.stack == [] && s.done == s.index.Keys
  {
    if s.stack != [] {
      var z := OpenBelowWitness(g, s, {}, s.stack[0]);
    }
  }

  /** The visit of `pkg`, begun in `r`, has looked at the dependencies `deps`; `open` visits enclose it. */
  ghost predicate Scanning(g: Graph, pkg: Package, r: Walk, s: Walk, open: set<string>, deps: seq<string>) {
    && pkg.short in g && g[pkg.short] == pkg && pkg.short !in r.index && pkg.short !in r.low
    && Inv(g, s, open + {pkg.short})
    && Extends(r, s)
    && LowLink(g, s, |r.stack|, pkg.short)
    && Scanned(g, s, |r.stack|, pkg.short, deps)
    && open <= Members(s.stack[..|r.stack|])
    && forall z :: z in open ==> Reach(g, z, pkg.short)
  }

  lemma ScanStarts(g: Graph, pkg: Package, r: Walk, open: set<string>)
    requires Inv(g, r, open)
    requires pkg.short in g && g[pkg.short] == pkg && pkg.short !in r.index
    requires forall z :: z in open ==> Reach(g, z, pkg.short)
    ensures Scanning(g, pkg, r, Push(r, pkg.short), open, [])
  {
    assert pkg.short !in r.low;
    hide Inv, LowLink, Scanned, Extends;
    JustPushed(g, r, open, pkg.short);
    PushKeeps(g, r, open, pkg.short);
  }

  lemma ScanRecorded(g: Graph, pkg: Package, r: Walk, s: Walk, open: set<string>, deps: seq<string>)
    requires Scanning(g, pkg, r, s, open, deps)
    ensures pkg.short in s.index && pkg.short in s.low && r.index.Keys <= s.index.Keys
    ensures s.low.Keys == s.index.Keys
    ensures |r.stack| < |s.stack| && s.stack[|r.stack|] == pkg.short && r.stack == s.stack[..|r.stack|]
  {
    assert s.stack[|r.stack|] in s.stack;
  }

  /** Every open node, `pkg` included, reaches a dependency about to be visited. */
  lemma ScanReaches(g: Graph, pkg: Package, r: Walk, s: Walk, open: set<string>, deps: seq<string>, v: string)
    requires Scanning(g, pkg, r, s, open, deps) && Edge(g, pkg.short, v)
    ensures forall z :: z in open + {pkg.short} ==> Reach(g, z, v)
  {
    hide Inv, LowLink, Scanned, Extends, Reach;
    ReachEdge(g, pkg.short, v);
    forall z | z in open ensures Reach(g, z, v) {
      ReachTransitive(g, z, pkg.short, v);
    }
  }

  lemma ScanVisited(g: Graph, pkg: Package, r: Walk, s: Walk, t: Walk, open: set<string>, deps: seq<string>, v: string)
    requires Scanning(g, pkg, r, s, open, deps) && Edge(g, pkg.short, v) && v !in s.index
    requires Inv(g, t, open + {pkg.short}) && Extends(s, t) && Visited(g, s, t, v)
    ensures pkg.short in t.low && v in t.low
    ensures Scanning(g, pkg, r, SetLow(t, pkg.short, t.low[v]), open, deps + [v])
  {
    var x := pkg.short;
    assert Shape(g, t);
    hide Inv, LowLink, Scanned, Visited, Shape, Extends;
    AfterVisit(g, s, t, |r.stack|, x, deps, v);
    SetLowKeeps(g, t, open + {x}, x, t.low[v]);
    ScanRecorded(g, pkg, r, s, open, deps);
    LowerBase(r, s, t);
    LowFrame(r, t, x, t.low[v]);
  }

  lemma LowerBase(r: Walk, s: Walk, t: Walk)
    requires Extends(r, s) && Extends(s, t)
    ensures Extends(r, t)
    ensures t.stack[..|r.stack|] == s.stack[..|r.stack|] == r.stack
  {
    assert s.stack == t.stack[..|s.stack|];
    assert r.stack == s.stack[..|r.stack|];
  }

  lemma LowFrame(r: Walk, t: Walk, x: string, n: nat)
    requires Extends(r, t) && x !in r.low && x in t.low
    ensures Extends(r, SetLow(t, x, n))
  {
  }

  lemma ScanStacked(g: Graph, pkg: Package, r: Walk, s: Walk, open: set<string>, deps: seq<string>, v: string)
    requires Scanning(g, pkg, r, s, open, deps) && Edge(g, pkg.short, v) && v in s.stack
    ensures pkg.short in s.low && v in s.index
    ensures Scanning(g, pkg, r, SetLow(s, pkg.short, s.index[v]), open, deps + [v])
  {
    hide Inv, LowLink, Scanned, Shape, Reach;
    AfterStacked(g, s, |r.stack|, pkg.short, deps, v);
    SetLowKeeps(g, s, open + {pkg.short}, pkg.short, s.index[v]);
    LowFrame(r, s, pkg.short, s.index[v]);
  }

  lemma ScanOther(g: Graph, pkg: Package, r: Walk, s: Walk, open: set<string>, deps: seq<string>, v: string)
    requires Scanning(g, pkg, r, s, open, deps)
    requires v in g ==> v in s.index && v !in s.stack
    ensures Scanning(g, pkg, r, s, open, deps + [v])
  {
    hide Inv, LowLink, Extends, Scanned;
    AfterOther(g, s, |r.stack|, pkg.short, deps, v);
  }

  lemma ScanKept(g: Graph, pkg: Package, r: Walk, s: Walk, open: set<string>)
    requires Scanning(g, pkg, r, s, open, pkg.deps)
    requires pkg.short in s.low && pkg.short in s.index && s.low[pkg.short] != s.index[pkg.short]
    ensures Inv(g, s, open) && Extends(r, s) && Visited(g, r, s, pkg.short)
  {
    hide Inv, LowLink, Extends, Scanned, Visited;
    KeepKeeps(g, s, open, |r.stack|, pkg.short);
    KeptIsVisited(g, r, s, pkg.short);
  }

  lemma ScanPopped(g: Graph, pkg: Package, r: Walk, s: Walk, open: set<string>)
    requires Scanning(g, pkg, r, s, open, pkg.deps)
    requires pkg.short in s.low && pkg.short in s.index && s.low[pkg.short] == s.index[pkg.short]
    ensures |r.stack| < |s.stack|
    ensures Members(s.stack[|r.stack|..]) == SccOf(g, pkg.short)
    ensures Members(s.stack[|r.stack|..]) !! s.done
    ensures Inv(g, Pop(s, |r.stack|), open) && Extends(r, Pop(s, |r.stack|))
    ensures Visited(g, r, Pop(s, |r.stack|), pkg.short)
  {
    assert Shape(g, s) && |r.stack| < |s.stack| by { hide ReachDown, ReachUp, Explored; }
    forall n | n in Members(s.stack[|r.stack|..]) ensures n !in s.done {
      hide ReachDown, ReachUp, Explored, LowLink, Scanned;
    }
    hide Inv, LowLink, Extends, Scanned, Visited, Shape, SccOf;
    SegmentIsScc(g, s, open, |r.stack|, pkg.short);
    PopKeeps(g, s, open, |r.stack|, pkg.short);
    PoppedIsVisited(g, r, s, pkg.short);
  }
}
