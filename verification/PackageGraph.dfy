/** Dependency-first ordering of workspace packages: scripts/package-graph.ts. */
module PackageGraph {
  import opened Wrappers
  import opened Sorting
  import opened Digraph
  import opened TarjanInvariant
  import opened JavaScript
  import opened PackageOrder

  function Names(s: seq<Package>): (r: seq<string>)
    ensures |r| == |s| && forall i :: 0 <= i < |s| ==> r[i] == s[i].short
  {
    seq(|s|, i requires 0 <= i < |s| => s[i].short)
  }

  function NameSet(s: seq<Package>): set<string> {
    set p | p in s :: p.short
  }

  function Without(s: seq<string>, n: string): seq<string> {
    if s == [] then [] else (if s[0] == n then [] else [s[0]]) + Without(s[1..], n)
  }

  lemma {:induction false} WithoutKeeps(s: seq<string>, n: string)
    requires NoRepeats(s)
    ensures NoRepeats(Without(s, n))
    ensures forall m :: m in Without(s, n) <==> m in s && m != n
  {
    if s != [] {
      WithoutKeeps(s[1..], n);
      assert s == [s[0]] + s[1..];
      forall i | 0 <= i < |Without(s[1..], n)| ensures Without(s[1..], n)[i] != s[0] {
        assert Without(s[1..], n)[i] in s[1..];
      }
    }
  }

  /** An insertion-ordered JavaScript `Map` from short name to package. */
  datatype PackageMap = PackageMap(order: seq<string>, at: Graph) {
    ghost predicate Valid() {
      NoRepeats(order) && Members(order) == at.Keys && NamedBySelf(at)
    }

    /** Setting a present name replaces the package in place; a new name goes last. */
    function Put(p: Package): PackageMap {
      PackageMap(if p.short in at then order else order + [p.short], at[p.short := p])
    }

    function Delete(n: string): PackageMap {
      PackageMap(Without(order, n), at - {n})
    }

    lemma DeleteValid(n: string)
      requires Valid()
      ensures Delete(n).Valid()
    {
      WithoutKeeps(order, n);
      forall m ensures m in Members(Delete(n).order) <==> m in Delete(n).at {
        assert m in Members(order) <==> m in order;
      }
    }

    lemma PutValid(p: Package)
      requires Valid()
      ensures Put(p).Valid()
    {
      if p.short !in at {
        forall i | 0 <= i < |order| ensures order[i] != p.short {
          assert order[i] in Members(order);
        }
        forall n | n in Put(p).at ensures n in Members(Put(p).order) {
          if n == p.short {
            assert Put(p).order[|order|] == n;
          } else {
            assert n in Members(order);
          }
        }
      }
    }
  }

  /** A list of different packages of `g`. */
  ghost predicate Listing(g: Graph, s: seq<Package>) {
    && NoRepeats(s)
    && forall p :: p in s ==> p.short in g && g[p.short] == p
  }

  /** The names in the components emitted so far. */
  ghost function Emitted(components: seq<seq<Package>>): set<string> {
    if components == [] then {}
    else Emitted(components[..|components| - 1]) + NameSet(components[|components| - 1])
  }

  lemma {:induction false} EmittedHolds(components: seq<seq<Package>>, n: string)
    ensures n in Emitted(components) <==> exists i :: 0 <= i < |components| && n in NameSet(components[i])
  {
    if components != [] {
      var rest := components[..|components| - 1];
      EmittedHolds(rest, n);
      if n in Emitted(rest) {
        var i :| 0 <= i < |rest| && n in NameSet(rest[i]);
        assert components[i] == rest[i];
      }
      if i :| 0 <= i < |components| && n in NameSet(components[i]) {
        if i < |rest| {
          assert rest[i] == components[i];
        }
      }
    }
  }

  /** Different strongly connected components of `g`, each listed once without repeats. */
  ghost predicate SccListings(g: Graph, components: seq<seq<Package>>) {
    && (forall c :: c in components ==> c != [] && Listing(g, c) && IsScc(g, NameSet(c)))
    && (forall i, j :: 0 <= i < j < |components| ==> NameSet(components[i]) !! NameSet(components[j]))
  }

  lemma EmitComponent(g: Graph, components: seq<seq<Package>>, c: seq<Package>)
    requires SccListings(g, components)
    requires c != [] && Listing(g, c) && IsScc(g, NameSet(c)) && NameSet(c) !! Emitted(components)
    ensures SccListings(g, components + [c])
    ensures Emitted(components + [c]) == Emitted(components) + NameSet(c)
  {
    var r := components + [c];
    assert r[..|r| - 1] == components;
    forall i, j | 0 <= i < j < |r| ensures NameSet(r[i]) !! NameSet(r[j]) {
      if j == |components| {
        forall n | n in NameSet(r[i]) ensures n !in NameSet(c) {
          EmittedHolds(components, n);
        }
      }
    }
  }

  /** The variables of one component traversal of `remaining`. */
  class Traversal {
    const remaining: PackageMap
    var nextIndex: nat
    var indices: map<string, nat>
    var lowLinks: map<string, nat>
    var stack: seq<Package>
    var stacked: set<string>
    var components: seq<seq<Package>>

    ghost function Walked(): Walk
      reads this
    {
      Walk(nextIndex, indices, lowLinks, Names(stack), Emitted(components))
    }

    /** The fields agree with each other and with the snapshot. */
    ghost predicate Consistent()
      reads this
    {
      && remaining.Valid()
      && (forall p :: p in stack ==> p.short in remaining.at && remaining.at[p.short] == p)
      && stacked == Members(Names(stack))
      && SccListings(remaining.at, components)
    }

    ghost predicate Valid(open: set<string>)
      reads this
    {
      Consistent() && Inv(remaining.at, Walked(), open)
    }

    constructor (remaining: PackageMap)
      requires remaining.Valid()
      ensures this.remaining == remaining && Valid({}) && indices == map[]
    {
      this.remaining := remaining;
      nextIndex, indices, lowLinks := 0, map[], map[];
      stack, stacked, components := [], {}, [];
    }

    /** `stack.pop()`; a caller that finds the stack empty would have lost its component. */
    method Pop() returns (p: Package)
      requires stack != []
      requires Members(Names(stack)) == stacked && NoRepeats(Names(stack))
      modifies this`stack, this`stacked
      ensures p == old(stack)[|old(stack)| - 1] && stack == old(stack)[..|old(stack)| - 1]
      ensures Members(Names(stack)) == stacked && NoRepeats(Names(stack))
    {
      p := stack[|stack| - 1];
      ghost var names := Names(stack);
      assert names == names[..|stack| - 1] + [p.short];
      stack := stack[..|stack| - 1];
      assert Names(stack) == names[..|stack|];
      stacked := stacked - {p.short};
    }

    /** Pops the stack down to `pkg` and lists what came off, top first. */
    method PopComponent(pkg: Package, ghost base: nat) returns (component: seq<Package>)
      requires base < |stack| && stack[base] == pkg
      requires Members(Names(stack)) == stacked && NoRepeats(Names(stack))
      modifies this`stack, this`stacked
      ensures stack == old(stack)[..base] && stacked == Members(Names(stack))
      ensures |component| == |old(stack)| - base
      ensures forall i :: 0 <= i < |component| ==> component[i] == old(stack)[|old(stack)| - 1 - i]
    {
      ghost var before := stack;
      ghost var names := Names(stack);
      var first := Pop();
      component := [first];
      var member := first;
      while member != pkg
        invariant base <= |stack| < |before|
        invariant stack == before[..|stack|]
        invariant member == before[|stack|]
        invariant |component| == |before| - |stack|
        invariant forall i :: 0 <= i < |component| ==> component[i] == before[|before| - 1 - i]
        invariant Members(Names(stack)) == stacked && NoRepeats(Names(stack))
        decreases |stack|
      {
        var next := Pop();
        component := component + [next];
        member := next;
      }
      assert names[|stack|] == names[base];
    }

    method Enter(pkg: Package, ghost open: set<string>)
      requires Valid(open)
      requires pkg.short in remaining.at && remaining.at[pkg.short] == pkg && pkg.short !in indices
      requires forall z :: z in open ==> Reach(remaining.at, z, pkg.short)
      modifies this
      ensures Consistent()
      ensures Walked() == Push(old(Walked()), pkg.short)
      ensures Scanning(remaining.at, pkg, old(Walked()), Walked(), open, [])
    {
      hide Inv, Scanning, SccListings, Reach;
      ghost var r := Walked();
      ScanStarts(remaining.at, pkg, r, open);
      var index := nextIndex;
      nextIndex := nextIndex + 1;
      indices := indices[pkg.short := index];
      lowLinks := lowLinks[pkg.short := index];
      stack := stack + [pkg];
      stacked := stacked + {pkg.short};
      assert Names(stack) == r.stack + [pkg.short];
      assert Walked() == Push(r, pkg.short);
    }

    /** `lowLinks.set(name, Math.min(lowLinks of name, bound))`. */
    method Lower(name: string, bound: nat)
      requires Consistent() && name in lowLinks
      modifies this`lowLinks
      ensures Consistent()
      ensures Walked() == SetLow(old(Walked()), name, bound)
    {
      lowLinks := lowLinks[name := if bound < lowLinks[name] then bound else lowLinks[name]];
    }

    method ScanDependency(pkg: Package, dependency: string, ghost r: Walk, ghost open: set<string>, ghost deps: seq<string>)
      requires Consistent()
      requires Scanning(remaining.at, pkg, r, Walked(), open, deps) && dependency in pkg.deps
      modifies this
      ensures Consistent()
      ensures Scanning(remaining.at, pkg, r, Walked(), open, deps + [dependency])
      decreases remaining.at.Keys - indices.Keys, 1
    {
      ghost var g, s := remaining.at, Walked();
      assert pkg.short in g && g[pkg.short] == pkg && Inv(g, s, open + {pkg.short});
      ScanRecorded(g, pkg, r, s, open, deps);
      hide Inv, Scanning, SccListings, Reach, Extends, Visited;
      if dependency !in remaining.at {
        ScanOther(g, pkg, r, s, open, deps, dependency);
        return;
      }
      var target := remaining.at[dependency];
      assert Edge(g, pkg.short, dependency);
      if dependency !in indices {
        ScanReaches(g, pkg, r, s, open, deps, dependency);
        Visit(target, open + {pkg.short});
        ScanVisited(g, pkg, r, s, Walked(), open, deps, dependency);
        Lower(pkg.short, lowLinks[dependency]);
      } else if dependency in stacked {
        ScanStacked(g, pkg, r, s, open, deps, dependency);
        Lower(pkg.short, indices[dependency]);
      } else {
        ScanOther(g, pkg, r, s, open, deps, dependency);
      }
    }

    /** Moves the stack from `pkg` up into `components`. */
    method Emit(pkg: Package, ghost base: nat)
      requires Consistent()
      requires base < |stack| && stack[base] == pkg && NoRepeats(Names(stack))
      requires pkg.short in remaining.at
      requires Members(Walked().stack[base..]) == SccOf(remaining.at, pkg.short)
      requires Members(Walked().stack[base..]) !! Walked().done
      modifies this
      ensures Consistent()
      ensures Walked() == TarjanInvariant.Pop(old(Walked()), base)
    {
      ghost var s, before := Walked(), stack;
      hide SccOf, SccListings;
      var component := PopComponent(pkg, base);
      PoppedComponent(remaining.at, before, base, component);
      assert IsScc(remaining.at, NameSet(component));
      EmitComponent(remaining.at, components, component);
      components := components + [component];
      assert Names(stack) == s.stack[..base];
    }

    /** Emits the component of `pkg` if `pkg` is its first visited member. */
    method Leave(pkg: Package, ghost r: Walk, ghost open: set<string>)
      requires Consistent()
      requires Scanning(remaining.at, pkg, r, Walked(), open, pkg.deps)
      modifies this
      ensures Valid(open)
      ensures Extends(r, Walked())
      ensures Visited(remaining.at, r, Walked(), pkg.short)
    {
      ghost var g, s := remaining.at, Walked();
      ScanRecorded(g, pkg, r, s, open, pkg.deps);
      assert pkg.short in g && g[pkg.short] == pkg;
      StackDistinct(g, pkg, r, s, open, pkg.deps);
      hide Inv, Scanning, SccListings, SccOf, Extends, Visited;
      if lowLinks[pkg.short] != indices[pkg.short] {
        ScanKept(g, pkg, r, s, open);
        return;
      }
      ScanPopped(g, pkg, r, s, open);
      assert stack[|r.stack|] == pkg;
      Emit(pkg, |r.stack|);
    }

    /**
     * Visits `pkg` and everything it leads to. `open` holds the packages whose visit is still
     * running. Every index and low-link looked up on the way is present.
     */
    method Visit(pkg: Package, ghost open: set<string>)
      requires Valid(open)
      requires pkg.short in remaining.at && remaining.at[pkg.short] == pkg && pkg.short !in indices
      requires forall z :: z in open ==> Reach(remaining.at, z, pkg.short)
      modifies this
      ensures Valid(open)
      ensures Extends(old(Walked()), Walked())
      ensures Visited(remaining.at, old(Walked()), Walked(), pkg.short)
      decreases remaining.at.Keys - indices.Keys, 0
    {
      hide Inv, Scanning, SccListings, Reach, Extends, Visited, Names;
      ghost var r := Walked();
      Enter(pkg, open);
      ScanRecorded(remaining.at, pkg, r, Walked(), open, []);
      assert pkg.deps[..0] == [];
      for i := 0 to |pkg.deps|
        invariant Consistent()
        invariant Scanning(remaining.at, pkg, r, Walked(), open, pkg.deps[..i])
        invariant pkg.short in indices && old(indices).Keys <= indices.Keys
      {
        assert pkg.deps[..i + 1] == pkg.deps[..i] + [pkg.deps[i]];
        ScanDependency(pkg, pkg.deps[i], r, open, pkg.deps[..i]);
        ScanRecorded(remaining.at, pkg, r, Walked(), open, pkg.deps[..i + 1]);
      }
      assert pkg.deps[..|pkg.deps|] == pkg.deps;
      Leave(pkg, r, open);
    }
  }

  lemma StackDistinct(g: Graph, pkg: Package, r: Walk, s: Walk, open: set<string>, deps: seq<string>)
    requires Scanning(g, pkg, r, s, open, deps)
    ensures NoRepeats(s.stack)
  {
    forall i, j | 0 <= i < j < |s.stack| ensures s.stack[i] != s.stack[j] {
      assert s.index[s.stack[i]] < s.index[s.stack[j]];
    }
  }

  /** What came off the stack from height `base` up, as a component listing. */
  lemma PoppedComponent(g: Graph, stack: seq<Package>, base: nat, component: seq<Package>)
    requires base < |stack| && |component| == |stack| - base
    requires forall i :: 0 <= i < |component| ==> component[i] == stack[|stack| - 1 - i]
    requires NoRepeats(Names(stack))
    requires forall p :: p in stack ==> p.short in g && g[p.short] == p
    ensures Listing(g, component) && component != []
    ensures NameSet(component) == Members(Names(stack)[base..])
  {
    var names := Names(stack);
    forall i, j | 0 <= i < j < |component| ensures component[i] != component[j] {
      assert names[|stack| - 1 - j] != names[|stack| - 1 - i];
    }
    forall n | n in Members(names[base..]) ensures n in NameSet(component) {
      var i :| 0 <= i < |names[base..]| && names[base..][i] == n;
      assert component[|stack| - 1 - (base + i)] == stack[base + i];
    }
    forall n | n in NameSet(component) ensures n in Members(names[base..]) {
      var i :| 0 <= i < |component| && component[i].short == n;
      assert names[base..][|stack| - 1 - i - base] == n;
    }
  }

  // ---------- sinkCycles ----------

  /** Every component of `g` is among the listed ones. */
  ghost predicate CoversSccs(g: Graph, components: seq<seq<Package>>) {
    forall u :: u in g ==> exists i :: 0 <= i < |components| && NameSet(components[i]) == SccOf(g, u)
  }

  /** Every strongly connected component of `remaining`, each exactly once. */
  method StronglyConnected(remaining: PackageMap) returns (components: seq<seq<Package>>)
    requires remaining.Valid()
    ensures SccListings(remaining.at, components)
    ensures CoversSccs(remaining.at, components)
  {
    hide Inv, SccOf, SccListings, Reach;
    var traversal := new Traversal(remaining);
    for i := 0 to |remaining.order|
      invariant traversal.remaining == remaining && traversal.Valid({})
      invariant forall k :: 0 <= k < i ==> remaining.order[k] in traversal.indices
    {
      var name := remaining.order[i];
      assert name in Members(remaining.order);
      if name !in traversal.indices {
        traversal.Visit(remaining.at[name], {});
        assert name in traversal.Walked().index;
      }
    }
    components := traversal.components;
    AllEmitted(remaining, traversal.Walked(), components);
  }

  lemma AllEmitted(remaining: PackageMap, s: Walk, components: seq<seq<Package>>)
    requires remaining.Valid() && Inv(remaining.at, s, {})
    requires forall k :: 0 <= k < |remaining.order| ==> remaining.order[k] in s.index
    requires s.done == Emitted(components) && SccListings(remaining.at, components)
    ensures CoversSccs(remaining.at, components)
  {
    NothingStacked(remaining.at, s);
    hide Inv, SccOf;
    forall u | u in remaining.at
      ensures exists i :: 0 <= i < |components| && NameSet(components[i]) == SccOf(remaining.at, u)
    {
      assert u in Members(remaining.order);
      EmittedHolds(components, u);
      var i :| 0 <= i < |components| && u in NameSet(components[i]);
      assert components[i] in components;
      var root :| root in remaining.at && NameSet(components[i]) == SccOf(remaining.at, root);
      SccOfMember(remaining.at, root, u);
    }
  }

  /** The filter of the source: cyclic by size or self-dependency, and no dependency left outside. */
  predicate IsSinkCycle(g: Graph, component: seq<Package>)
    requires component != []
  {
    var names := NameSet(component);
    && (|component| > 1 || component[0].short in component[0].deps)
    && (forall p :: p in component ==> forall d :: d in p.deps ==> d !in g || d in names)
  }

  /** ... which keeps exactly the sink cycles. */
  lemma SinkTestExact(g: Graph, component: seq<Package>)
    requires NamedBySelf(g) && component != [] && Listing(g, component) && IsScc(g, NameSet(component))
    ensures IsSinkCycle(g, component) <==> SinkCycle(g, NameSet(component))
  {
    var names, first := NameSet(component), component[0];
    assert first in component && first.short in names;
    CyclicBySize(g, names, first.short);
    if |component| == 1 {
      assert names == {first.short};
    } else {
      assert component[1] in component && component[1].short in names && component[1] != first;
    }
    assert Edge(g, first.short, first.short) <==> first.short in first.deps;
    if IsSinkCycle(g, component) {
      forall u, v | u in names && Edge(g, u, v) ensures v in names {
        var p :| p in component && p.short == u;
      }
    }
    if SinkCycle(g, names) {
      forall p, d | p in component && d in p.deps ensures d !in g || d in names {
        assert p.short in names;
        assert d in g ==> Edge(g, p.short, d);
      }
    }
  }

  /** Listings of sink cycles of `g`, and of all of them. */
  ghost predicate SinkCycleListings(g: Graph, cycles: seq<seq<Package>>) {
    && (forall c :: c in cycles ==> c != [] && Listing(g, c) && SinkCycle(g, NameSet(c)))
    && (forall names {:trigger SinkCycle(g, names)} :: SinkCycle(g, names) ==> exists c :: c in cycles && NameSet(c) == names)
  }

  /** `cycles` are the sink cycles among `components`. */
  ghost predicate Filtered(g: Graph, components: seq<seq<Package>>, cycles: seq<seq<Package>>) {
    && (forall c :: c in cycles ==> c != [] && Listing(g, c) && SinkCycle(g, NameSet(c)))
    && (forall c :: c in components && SinkCycle(g, NameSet(c)) ==> c in cycles)
  }

  method SinkCycles(remaining: PackageMap) returns (cycles: seq<seq<Package>>)
    requires remaining.Valid()
    ensures SinkCycleListings(remaining.at, cycles)
  {
    assert NamedBySelf(remaining.at);
    var components := StronglyConnected(remaining);
    hide *;
    cycles := [];
    assert Filtered(remaining.at, components[..0], []) by { NothingFiltered(remaining.at); }
    for i := 0 to |components|
      invariant Filtered(remaining.at, components[..i], cycles)
    {
      assert components[..i + 1] == components[..i] + [components[i]];
      SinkTestAt(remaining.at, components, i);
      FilterStep(remaining.at, components[..i], components[i], cycles);
      if IsSinkCycle(remaining.at, components[i]) {
        cycles := cycles + [components[i]];
      }
    }
    assert components[..|components|] == components;
  }

  lemma NothingFiltered(g: Graph)
    ensures Filtered(g, [], [])
  {
  }

  lemma FilterStep(g: Graph, components: seq<seq<Package>>, component: seq<Package>, cycles: seq<seq<Package>>)
    requires Filtered(g, components, cycles)
    requires component != [] && Listing(g, component)
    ensures SinkCycle(g, NameSet(component)) ==> Filtered(g, components + [component], cycles + [component])
    ensures !SinkCycle(g, NameSet(component)) ==> Filtered(g, components + [component], cycles)
  {
    hide SinkCycle, Listing, NameSet;
  }

  lemma SinkTestAt(g: Graph, components: seq<seq<Package>>, i: nat)
    requires NamedBySelf(g) && SccListings(g, components) && i < |components|
    ensures components[i] != [] && Listing(g, components[i])
    ensures IsSinkCycle(g, components[i]) <==> SinkCycle(g, NameSet(components[i]))
  {
    assert components[i] in components;
    hide SccOf, SinkCycle;
    SinkTestExact(g, components[i]);
  }

  // ---------- the choice among sink cycles ----------

  function SortEach(cycles: seq<seq<Package>>, cmp: (Package, Package) -> int): (r: seq<seq<Package>>)
    ensures |r| == |cycles| && forall i :: 0 <= i < |r| ==> r[i] == StableSort(cycles[i], cmp)
  {
    seq(|cycles|, i requires 0 <= i < |cycles| => StableSort(cycles[i], cmp))
  }

  /** Compares two components by their first packages. */
  function CompareHeads(a: seq<Package>, b: seq<Package>, cmp: (Package, Package) -> int): int {
    if a != [] && b != [] then cmp(a[0], b[0]) else |a| - |b|
  }

  function HeadComparator(cmp: (Package, Package) -> int): (seq<Package>, seq<Package>) -> int {
    (a, b) => CompareHeads(a, b, cmp)
  }

  lemma HeadComparatorIsTotal(cmp: (Package, Package) -> int)
    requires TotalPreorder(cmp)
    ensures TotalPreorder(HeadComparator(cmp))
  {
    var heads := HeadComparator(cmp);
    forall a, b, c | heads(a, b) <= 0 && heads(b, c) <= 0 ensures heads(a, c) <= 0 {
      if a != [] && b != [] && c != [] {
        assert cmp(a[0], b[0]) <= 0 && cmp(b[0], c[0]) <= 0;
      }
    }
  }

  function FirstCycle(cycles: seq<seq<Package>>, cmp: (Package, Package) -> int): seq<Package>
    requires cycles != []
  {
    SortKeeps(SortEach(cycles, cmp), HeadComparator(cmp));
    StableSort(SortEach(cycles, cmp), HeadComparator(cmp))[0]
  }

  /** No two packages of `g` tie. */
  ghost predicate Decisive(g: Graph, cmp: (Package, Package) -> int) {
    && TotalPreorder(cmp)
    && forall a, b :: cmp(a, b) <= 0 && cmp(b, a) <= 0 ==> a.short == b.short
  }

  lemma ListingSorts(g: Graph, list: seq<Package>, cmp: (Package, Package) -> int)
    requires Decisive(g, cmp) && Listing(g, list)
    ensures StableSort(list, cmp) == SortedListing(PackagesOf(g, NameSet(list)), cmp)
  {
    assert Members(list) == PackagesOf(g, NameSet(list)) by {
      forall p ensures p in Members(list) <==> p in PackagesOf(g, NameSet(list)) {
        if p in list {
          assert p.short in NameSet(list);
        }
        if p in PackagesOf(g, NameSet(list)) {
          var n :| n in NameSet(list) && n in g && g[n] == p;
          var q :| q in list && q.short == n;
        }
      }
    }
    forall a, b | a in Members(list) && b in Members(list) && cmp(a, b) <= 0 && cmp(b, a) <= 0 ensures a == b {
      assert a.short == b.short;
    }
    SortIsListing(list, cmp);
  }

  /** The chosen component is one of the listed ones, and its head is below every listed package. */
  lemma FirstCycleIsLeast(cycles: seq<seq<Package>>, cmp: (Package, Package) -> int) returns (c: seq<Package>)
    requires TotalPreorder(cmp) && cycles != []
    requires forall c :: c in cycles ==> c != []
    ensures c in cycles && FirstCycle(cycles, cmp) == StableSort(c, cmp) && FirstCycle(cycles, cmp) != []
    ensures FirstCycle(cycles, cmp)[0] in c
    ensures forall c', q :: c' in cycles && q in c' ==> cmp(FirstCycle(cycles, cmp)[0], q) <= 0
  {
    var each, heads := SortEach(cycles, cmp), HeadComparator(cmp);
    HeadComparatorIsTotal(cmp);
    SortKeeps(each, heads);
    SortSorts(each, heads);
    var sorted := StableSort(each, heads);
    var r := sorted[0];
    assert r in sorted && r in each;
    hide StableSort, SortedBy, TotalPreorder;
    var k :| 0 <= k < |each| && each[k] == r;
    c := cycles[k];
    assert c in cycles && r == StableSort(c, cmp);
    SortKeeps(c, cmp);
    assert |r| == |c| && r[0] in r;
    forall c', q | c' in cycles && q in c' ensures cmp(r[0], q) <= 0 {
      var i :| 0 <= i < |cycles| && cycles[i] == c';
      LeastOfSorted(c', q, cmp);
      assert each[i] in each;
      HeadBelow(each, sorted, cmp, i);
    }
  }

  lemma LeastOfSorted(c: seq<Package>, q: Package, cmp: (Package, Package) -> int)
    requires TotalPreorder(cmp) && q in c
    ensures |StableSort(c, cmp)| == |c| && cmp(StableSort(c, cmp)[0], q) <= 0
  {
    SortKeeps(c, cmp);
    SortSorts(c, cmp);
    var s := StableSort(c, cmp);
    var i :| 0 <= i < |s| && s[i] == q;
    if i == 0 {
      assert cmp(q, q) <= 0 || cmp(q, q) <= 0;
    }
  }

  lemma HeadBelow(each: seq<seq<Package>>, sorted: seq<seq<Package>>, cmp: (Package, Package) -> int, i: nat)
    requires TotalPreorder(cmp) && TotalPreorder(HeadComparator(cmp))
    requires SortedBy(sorted, HeadComparator(cmp)) && i < |each| && each[i] in sorted
    requires sorted != [] && sorted[0] != [] && each[i] != []
    ensures cmp(sorted[0][0], each[i][0]) <= 0
  {
    var heads := HeadComparator(cmp);
    var j :| 0 <= j < |sorted| && sorted[j] == each[i];
    if j > 0 {
      assert heads(sorted[0], sorted[j]) <= 0;
    } else {
      assert heads(sorted[0], sorted[0]) <= 0;
    }
  }

  /** The source's choice is the next block of the order. */
  lemma ChosenCycleIsNextBlock(g: Graph, placed: set<string>, cycles: seq<seq<Package>>, cmp: (Package, Package) -> int)
    requires WellFormed(g) && Downward(g, placed) && placed != g.Keys && Decisive(g, cmp)
    requires Ready(g, placed) == {} && SinkCycleListings(Rest(g, placed), cycles)
    ensures cycles != []
    ensures FirstCycle(cycles, cmp) == SortedListing(PackagesOf(g, NextBlock(g, placed, cmp)), cmp)
  {
    var rest := Rest(g, placed);
    SomeCycle(g, placed, cycles);
    assert forall c :: c in cycles ==> c != [];
    assert Decisive(rest, cmp) && NamedBySelf(rest);
    var c := FirstCycleIsLeast(cycles, cmp);
    var head := FirstCycle(cycles, cmp)[0];
    hide Ready, FirstCycle, NextBlock, SortedListing, StableSort, SinkMembers, Rest, TotalPreorder, DepsExist;
    HeadLeast(rest, cycles, c, head, cmp);
    NextBlockByLeast(g, placed, head, cmp);
    HeadScc(rest, cycles, c, head);
    RestPackages(g, placed, NameSet(c));
    ListingSorts(rest, c, cmp);
  }

  lemma SomeCycle(g: Graph, placed: set<string>, cycles: seq<seq<Package>>)
    requires WellFormed(g) && Downward(g, placed) && placed != g.Keys
    requires Ready(g, placed) == {} && SinkCycleListings(Rest(g, placed), cycles)
    ensures cycles != []
  {
    NeverStuck(g, placed);
    hide Ready, Rest, WellFormed, Downward;
    var m :| m in SinkMembers(Rest(g, placed));
    assert SinkCycle(Rest(g, placed), SccOf(Rest(g, placed), m));
  }

  lemma HeadScc(rest: Graph, cycles: seq<seq<Package>>, c: seq<Package>, head: Package)
    requires SinkCycleListings(rest, cycles) && c in cycles && head in c
    ensures Listing(rest, c) && NameSet(c) == SccOf(rest, head.short)
    ensures forall n :: n in NameSet(c) ==> n in rest
  {
    assert head.short in NameSet(c);
    assert SinkCycle(rest, NameSet(c));
    var root :| root in rest && NameSet(c) == SccOf(rest, root);
    SccOfMember(rest, root, head.short);
  }

  lemma RestPackages(g: Graph, placed: set<string>, names: set<string>)
    requires forall n :: n in names ==> n in Rest(g, placed)
    ensures PackagesOf(Rest(g, placed), names) == PackagesOf(g, names)
  {
  }

  lemma HeadLeast(rest: Graph, cycles: seq<seq<Package>>, c: seq<Package>, head: Package, cmp: (Package, Package) -> int)
    requires NamedBySelf(rest) && SinkCycleListings(rest, cycles) && c in cycles && head in c
    requires forall c', q :: c' in cycles && q in c' ==> cmp(head, q) <= 0
    ensures LeastIn(head, PackagesOf(rest, SinkMembers(rest)), cmp)
  {
    assert Listing(rest, c) && head.short in NameSet(c);
    assert SinkCycle(rest, NameSet(c));
    var root :| root in rest && NameSet(c) == SccOf(rest, root);
    SccOfMember(rest, root, head.short);
    assert head.short in SinkMembers(rest);
    forall q | q in PackagesOf(rest, SinkMembers(rest)) ensures cmp(head, q) <= 0 {
      assert SinkCycle(rest, SccOf(rest, q.short));
      var c' :| c' in cycles && NameSet(c') == SccOf(rest, q.short);
      SccOfSelf(rest, q.short);
      var q' :| q' in c' && q'.short == q.short;
      assert Listing(rest, c');
    }
  }

  lemma NextBlockByLeast(g: Graph, placed: set<string>, head: Package, cmp: (Package, Package) -> int)
    requires WellFormed(g) && Downward(g, placed) && placed != g.Keys && Decisive(g, cmp)
    requires Ready(g, placed) == {}
    requires LeastIn(head, PackagesOf(Rest(g, placed), SinkMembers(Rest(g, placed))), cmp)
    ensures NextBlock(g, placed, cmp) == SccOf(Rest(g, placed), head.short)
  {
    var rest := Rest(g, placed);
    var all := PackagesOf(rest, SinkMembers(rest));
    var least :| LeastIn(least, all, cmp) && NextBlock(g, placed, cmp) == SccOf(rest, least.short);
  }

  // ---------- topoSort ----------

  /** A package names a peer that no package of the list carries. */
  datatype GraphError = MissingPeer(package: string, dependency: string)

  /** `new Map(packages.map(pkg => [pkg.short, pkg]))`. */
  ghost function ByName(packages: seq<Package>): PackageMap {
    if packages == [] then PackageMap([], map[])
    else ByName(packages[..|packages| - 1]).Put(packages[|packages| - 1])
  }

  lemma {:induction false} ByNameHolds(packages: seq<Package>)
    ensures ByName(packages).Valid()
    ensures ByName(packages).at.Keys == NameSet(packages)
    ensures forall n :: n in ByName(packages).at ==> ByName(packages).at[n] in packages
  {
    if packages != [] {
      var rest, last := packages[..|packages| - 1], packages[|packages| - 1];
      ByNameHolds(rest);
      ByName(rest).PutValid(last);
      assert packages == rest + [last];
      forall n ensures n in NameSet(packages) <==> n in NameSet(rest) || n == last.short {
        if n in NameSet(packages) && n != last.short {
          var p :| p in packages && p.short == n;
          assert p in rest;
        }
      }
    }
  }

  /** Of several packages with one short name the last is the one in the map. */
  lemma {:induction false} LastWins(packages: seq<Package>, i: nat)
    requires i < |packages| && forall j :: i < j < |packages| ==> packages[j].short != packages[i].short
    ensures packages[i].short in ByName(packages).at && ByName(packages).at[packages[i].short] == packages[i]
    decreases |packages|
  {
    var n := |packages| - 1;
    if i < n {
      LastWins(packages[..n], i);
    }
  }

  ghost predicate MissingAt(packages: seq<Package>, i: int, j: int) {
    0 <= i < |packages| && 0 <= j < |packages[i].deps| && packages[i].deps[j] !in NameSet(packages)
  }

  /** Dependency `j` of package `i` is the first one, in list order, that no package carries. */
  ghost predicate FirstMissing(packages: seq<Package>, i: int, j: int) {
    && MissingAt(packages, i, j)
    && forall k, l :: MissingAt(packages, k, l) ==> i < k || (i == k && j <= l)
  }

  ghost predicate NothingMissing(packages: seq<Package>) {
    forall i, j :: !MissingAt(packages, i, j)
  }

  lemma NothingMissingWellFormed(packages: seq<Package>)
    requires NothingMissing(packages)
    ensures WellFormed(ByName(packages).at) && Downward(ByName(packages).at, {})
  {
    var g := ByName(packages).at;
    ByNameHolds(packages);
    forall n, d | n in g && d in g[n].deps ensures d in g {
      var i :| 0 <= i < |packages| && packages[i] == g[n];
      var j :| 0 <= j < |packages[i].deps| && packages[i].deps[j] == d;
      assert !MissingAt(packages, i, j);
    }
  }

  lemma ComparatorDecides(g: Graph, groupOrder: seq<string>, collate: (string, string) -> int)
    requires Collation(collate)
    ensures Decisive(g, Comparator(groupOrder, collate))
  {
    ComparatorIsTotal(groupOrder, collate);
  }

  /** The dependency-first order of the packages of a list without missing peers. */
  ghost function Ordered(packages: seq<Package>, groupOrder: seq<string>, collate: (string, string) -> int): seq<Package>
    requires Collation(collate) && NothingMissing(packages)
  {
    NothingMissingWellFormed(packages);
    ComparatorIsTotal(groupOrder, collate);
    OrderFrom(ByName(packages).at, {}, Comparator(groupOrder, collate))
  }

  /** It goes layer by layer, each layer and each cycle by the listed groups and then by names. */
  lemma OrderedIsLayered(packages: seq<Package>, groupOrder: seq<string>, collate: (string, string) -> int)
    requires Collation(collate) && NothingMissing(packages) && |groupOrder| <= MAX_ARRAY_LENGTH
    ensures Layered(ByName(packages).at, {}, Ordered(packages, groupOrder, collate), StandingOrder(groupOrder, collate))
  {
    var g := ByName(packages).at;
    NothingMissingWellFormed(packages);
    ComparatorIsTotal(groupOrder, collate);
    hide Layered, StandingOrder, Comparator, OrderFrom, NothingMissing, ByName, TotalPreorder;
    ComparatorMeans(g, groupOrder, collate);
    OrderIsLayered(g, {}, Comparator(groupOrder, collate), StandingOrder(groupOrder, collate));
  }

  predicate AllPlaced(deps: seq<string>, placed: set<string>) {
    forall d :: d in deps ==> d in placed
  }

  /** `remaining.values()` filtered to the packages whose dependencies are placed. */
  method ReadyPackages(remaining: PackageMap, placed: set<string>) returns (ready: seq<Package>)
    requires remaining.Valid()
    ensures Listing(remaining.at, ready)
    ensures NameSet(ready) == set n | n in remaining.at && AllPlaced(remaining.at[n].deps, placed)
  {
    ready := [];
    for i := 0 to |remaining.order|
      invariant Listing(remaining.at, ready)
      invariant forall p :: p in ready ==> p.short in remaining.order[..i]
      invariant forall p :: p in ready ==> AllPlaced(p.deps, placed)
      invariant forall k :: 0 <= k < i && AllPlaced(remaining.at[remaining.order[k]].deps, placed) ==> remaining.at[remaining.order[k]] in ready
    {
      var name := remaining.order[i];
      assert name in Members(remaining.order);
      assert name !in remaining.order[..i];
      if AllPlaced(remaining.at[name].deps, placed) {
        ready := ready + [remaining.at[name]];
      }
    }
    forall n | n in remaining.at && AllPlaced(remaining.at[n].deps, placed) ensures n in NameSet(ready) {
      assert n in Members(remaining.order);
      assert remaining.at[n] in ready;
    }
  }

  /** The next packages to place: the ready ones, or else the first sink cycle. */
  method NextPackages(remaining: PackageMap, placed: set<string>, cmp: (Package, Package) -> int, ghost g: Graph)
    returns (ready: seq<Package>)
    requires remaining.Valid() && remaining.at == Rest(g, placed)
    requires WellFormed(g) && Downward(g, placed) && placed != g.Keys && Decisive(g, cmp)
    ensures ready == SortedListing(PackagesOf(g, NextBlock(g, placed, cmp)), cmp)
  {
    ready := ReadyPackages(remaining, placed);
    assert NameSet(ready) == Ready(g, placed);
    assert Decisive(remaining.at, cmp);
    ListingSorts(remaining.at, ready, cmp);
    RestPackages(g, placed, NameSet(ready));
    SortKeeps(ready, cmp);
    EmptyNames(ready);
    if ready == [] {
      var cycles := SinkCycles(remaining);
      ChosenCycleIsNextBlock(g, placed, cycles, cmp);
      ready := FirstCycle(cycles, cmp);
    } else {
      ready := StableSort(ready, cmp);
    }
  }

  lemma EmptyNames(s: seq<Package>)
    ensures NameSet(s) == {} <==> s == []
  {
    if s != [] {
      assert s[0] in s && s[0].short in NameSet(s);
    }
  }

  /**
   * Dependency-first order of `packages`. A missing peer is reported for the first package
   * and dependency, in list order, that lacks one; otherwise the result is the specified order,
   * and some sink cycle is found whenever no package is ready.
   */
  method TopoSort(packages: seq<Package>, groupOrder: seq<string>, collate: (string, string) -> int)
    returns (r: Result<seq<Package>, GraphError>)
    requires Collation(collate)
    ensures r.Success? <==> NothingMissing(packages)
    ensures r.Success? ==> r.value == Ordered(packages, groupOrder, collate)
    ensures r.Success? && |groupOrder| <= MAX_ARRAY_LENGTH ==>
      Layered(ByName(packages).at, {}, r.value, StandingOrder(groupOrder, collate))
    ensures r.Failure? ==> exists i, j :: FirstMissing(packages, i, j) && r.error == MissingPeer(packages[i].name, packages[i].deps[j])
  {
    var byName := PackageMap([], map[]);
    assert packages[..0] == [];
    for i := 0 to |packages|
      invariant byName == ByName(packages[..i])
    {
      assert packages[..i + 1][..i] == packages[..i];
      byName := byName.Put(packages[i]);
    }
    assert packages[..|packages|] == packages;
    ByNameHolds(packages);

    for i := 0 to |packages|
      invariant forall k, l :: MissingAt(packages, k, l) ==> k >= i
    {
      var pkg := packages[i];
      for j := 0 to |pkg.deps|
        invariant forall k, l :: MissingAt(packages, k, l) ==> k > i || (k == i && l >= j)
      {
        if pkg.deps[j] !in byName.at {
          assert FirstMissing(packages, i, j);
          return Failure(MissingPeer(pkg.name, pkg.deps[j]));
        }
      }
    }
    assert NothingMissing(packages);

    NothingMissingWellFormed(packages);
    ghost var g := byName.at;
    var cmp := Comparator(groupOrder, collate);
    ComparatorDecides(g, groupOrder, collate);
    var out := PlaceAll(byName, cmp);
    if |groupOrder| <= MAX_ARRAY_LENGTH {
      OrderedIsLayered(packages, groupOrder, collate);
    }
    hide *;
    r := Success(out);
  }

  /** Moves `ready` from `remaining` to the output. */
  method Place(ready: seq<Package>, out0: seq<Package>, placed0: set<string>, remaining0: PackageMap, ghost g: Graph)
    returns (out: seq<Package>, placed: set<string>, remaining: PackageMap)
    requires remaining0.Valid() && remaining0.at == Rest(g, placed0)
    ensures out == out0 + ready
    ensures placed == placed0 + NameSet(ready)
    ensures remaining.Valid() && remaining.at == Rest(g, placed)
  {
    out, placed, remaining := out0, placed0, remaining0;
    assert ready[..0] == [];
    for k := 0 to |ready|
      invariant placed == placed0 + NameSet(ready[..k])
      invariant out == out0 + ready[..k]
      invariant remaining.Valid() && remaining.at == Rest(g, placed)
    {
      var pkg := ready[k];
      assert ready[..k + 1] == ready[..k] + [pkg];
      remaining.DeleteValid(pkg.short);
      out := out + [pkg];
      placed := placed + {pkg.short};
      remaining := remaining.Delete(pkg.short);
    }
    assert ready[..|ready|] == ready;
  }

  /** What the placing loop keeps. */
  ghost predicate Placing(g: Graph, placed: set<string>, remaining: PackageMap, cmp: (Package, Package) -> int) {
    && WellFormed(g) && Downward(g, placed) && Decisive(g, cmp)
    && remaining.Valid() && remaining.at == Rest(g, placed)
  }

  /** One round of the placing loop: moves the next packages from `remaining` to the output. */
  method PlaceNext(out0: seq<Package>, placed0: set<string>, remaining0: PackageMap, cmp: (Package, Package) -> int, ghost g: Graph)
    returns (out: seq<Package>, placed: set<string>, remaining: PackageMap)
    requires Placing(g, placed0, remaining0, cmp) && remaining0.order != []
    ensures Placing(g, placed, remaining, cmp) && placed0 < placed
    ensures out + OrderFrom(g, placed, cmp) == out0 + OrderFrom(g, placed0, cmp)
  {
    hide *;
    PlacingMeans(g, placed0, remaining0, cmp);
    SomeRemaining(g, placed0, remaining0);
    var ready := NextPackages(remaining0, placed0, cmp, g);
    out, placed, remaining := Place(ready, out0, placed0, remaining0, g);
    PlaceStep(g, placed0, cmp, ready, out0, remaining);
  }

  lemma PlacingMeans(g: Graph, placed: set<string>, remaining: PackageMap, cmp: (Package, Package) -> int)
    requires Placing(g, placed, remaining, cmp)
    ensures WellFormed(g) && Downward(g, placed) && Decisive(g, cmp) && TotalPreorder(cmp)
    ensures remaining.Valid() && remaining.at == Rest(g, placed)
  {
  }

  lemma PlaceStep(g: Graph, placed: set<string>, cmp: (Package, Package) -> int, ready: seq<Package>, out: seq<Package>, remaining: PackageMap)
    requires WellFormed(g) && Downward(g, placed) && placed != g.Keys && Decisive(g, cmp) && TotalPreorder(cmp)
    requires ready == SortedListing(PackagesOf(g, NextBlock(g, placed, cmp)), cmp)
    requires remaining.Valid() && remaining.at == Rest(g, placed + NameSet(ready))
    ensures Placing(g, placed + NameSet(ready), remaining, cmp)
    ensures placed < placed + NameSet(ready)
    ensures out + ready + OrderFrom(g, placed + NameSet(ready), cmp) == out + OrderFrom(g, placed, cmp)
  {
    hide Closed, SortedListing, WellFormed, Decisive, TotalPreorder, Rest, Members, NoRepeats, NextBlock;
    var block := NextBlock(g, placed, cmp);
    BlockNames(g, block, ready);
    OrderUnfolds(g, placed, cmp);
    hide *;
  }

  /** The placing loop of `topoSort`. */
  method PlaceAll(byName: PackageMap, cmp: (Package, Package) -> int) returns (out: seq<Package>)
    requires byName.Valid() && WellFormed(byName.at) && Downward(byName.at, {}) && Decisive(byName.at, cmp)
    ensures out == OrderFrom(byName.at, {}, cmp)
  {
    ghost var g := byName.at;
    var remaining := byName;
    var placed: set<string> := {};
    out := [];
    assert Rest(g, {}) == g;
    assert Placing(g, {}, remaining, cmp);
    while remaining.order != []
      invariant Placing(g, placed, remaining, cmp)
      invariant out + OrderFrom(g, placed, cmp) == OrderFrom(g, {}, cmp)
      decreases g.Keys - placed
    {
      out, placed, remaining := PlaceNext(out, placed, remaining, cmp, g);
    }
    NoneRemaining(g, placed, remaining);
    assert OrderFrom(g, placed, cmp) == [];
  }

  lemma SomeRemaining(g: Graph, placed: set<string>, remaining: PackageMap)
    requires remaining.Valid() && remaining.at == Rest(g, placed) && remaining.order != []
    ensures placed != g.Keys
  {
    assert remaining.order[0] in Members(remaining.order);
  }

  lemma NoneRemaining(g: Graph, placed: set<string>, remaining: PackageMap)
    requires remaining.Valid() && remaining.at == Rest(g, placed) && remaining.order == []
    requires placed <= g.Keys
    ensures placed == g.Keys
  {
    forall n | n in g ensures n in placed {
      assert n !in Members(remaining.order);
    }
  }

  lemma BlockNames(g: Graph, block: set<string>, ready: seq<Package>)
    requires WellFormed(g) && block <= g.Keys && Members(ready) == PackagesOf(g, block)
    ensures NameSet(ready) == block
  {
    forall n | n in block ensures n in NameSet(ready) {
      assert g[n] in Members(ready);
    }
    forall n | n in NameSet(ready) ensures n in block {
      var p :| p in ready && p.short == n;
      assert p in Members(ready);
    }
  }

  // ---------- what topoSort promises ----------

  /** No two different packages of the list carry one short name. */
  ghost predicate DistinctNames(packages: seq<Package>) {
    forall p, q :: p in packages && q in packages && p.short == q.short ==> p == q
  }

  lemma ByNameIgnoresOrder(ps: seq<Package>, qs: seq<Package>)
    requires DistinctNames(ps) && Members(ps) == Members(qs)
    ensures ByName(ps).at == ByName(qs).at
  {
    SameMembers(ps, qs);
    ByNameHolds(ps);
    ByNameHolds(qs);
    hide ByName, DistinctNames;
    assert NameSet(ps) == NameSet(qs);
    assert NamedBySelf(ByName(ps).at) && NamedBySelf(ByName(qs).at);
  }

  lemma SameMembers(ps: seq<Package>, qs: seq<Package>)
    requires Members(ps) == Members(qs)
    ensures forall p :: p in ps <==> p in qs
  {
    forall p ensures p in ps <==> p in qs {
      assert p in ps <==> p in Members(ps);
      assert p in qs <==> p in Members(qs);
    }
  }

  lemma MissingIgnoresOrder(ps: seq<Package>, qs: seq<Package>)
    requires Members(ps) == Members(qs) && NothingMissing(ps)
    ensures NothingMissing(qs)
  {
    assert forall p :: p in ps <==> p in Members(ps);
    assert forall p :: p in qs <==> p in Members(qs);
    assert NameSet(ps) == NameSet(qs);
    forall i, j | 0 <= i < |qs| && 0 <= j < |qs[i].deps| ensures qs[i].deps[j] in NameSet(qs) {
      assert qs[i] in Members(ps);
      var k :| 0 <= k < |ps| && ps[k] == qs[i];
      assert !MissingAt(ps, k, j);
    }
  }

  /** The input order never shows: permuting the packages changes neither acceptance nor the result. */
  lemma OrderIndependent(ps: seq<Package>, qs: seq<Package>, groupOrder: seq<string>, collate: (string, string) -> int)
    requires Collation(collate) && DistinctNames(ps) && multiset(ps) == multiset(qs)
    ensures NothingMissing(ps) <==> NothingMissing(qs)
    ensures NothingMissing(ps) ==> Ordered(ps, groupOrder, collate) == Ordered(qs, groupOrder, collate)
  {
    forall p ensures p in Members(ps) <==> p in Members(qs) {
      assert p in ps <==> p in multiset(ps);
      assert p in qs <==> p in multiset(qs);
    }
    if NothingMissing(ps) {
      MissingIgnoresOrder(ps, qs);
      ByNameIgnoresOrder(ps, qs);
    }
    if NothingMissing(qs) {
      MissingIgnoresOrder(qs, ps);
    }
  }

  /**
   * The result lists every package once; a dependency comes before its dependant unless the two
   * depend on each other; such cycles stand together; without cycles the order is topological.
   */
  lemma OrderedIsDependencyFirst(packages: seq<Package>, groupOrder: seq<string>, collate: (string, string) -> int)
    requires Collation(collate) && DistinctNames(packages) && NothingMissing(packages)
    ensures var s, g := Ordered(packages, groupOrder, collate), ByName(packages).at;
            && NoRepeats(s) && Members(s) == Members(packages)
            && (forall i, d :: 0 <= i < |s| && d in s[i].deps ==> Before(s, d, i) || Mutual(g, s[i].short, d))
            && (forall i, j, k :: 0 <= i <= j <= k < |s| && Mutual(g, s[i].short, s[k].short) ==> Mutual(g, s[i].short, s[j].short))
            && (Acyclic(g) ==> forall i, d :: 0 <= i < |s| && d in s[i].deps ==> Before(s, d, i))
  {
    var g := ByName(packages).at;
    NothingMissingWellFormed(packages);
    ComparatorIsTotal(groupOrder, collate);
    OrderIsDependencyFirst(g, Comparator(groupOrder, collate));
    ByNameHolds(packages);
    hide OrderFrom, Mutual, Acyclic, Before, Comparator, WellFormed;
    forall p ensures p in PackagesOf(g, g.Keys) <==> p in Members(packages) {
      if p in packages {
        assert p.short in NameSet(packages) && g[p.short] == p;
      }
    }
  }
}
