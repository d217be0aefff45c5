/**
 * The order `topoSort` is for, stated on the graph alone: no traversal, no input order.
 * Blocks are placed one after another; a block is every package whose dependencies are all
 * placed, or, when there is none, the sink cycle holding the least package.
 */
module PackageOrder {
  import opened Digraph
  import opened JavaScript
  import opened Sorting

  /** `localeCompare` as a strict total order on strings. */
  ghost predicate Collation(collate: (string, string) -> int) {
    && TotalPreorder(collate)
    && (forall a, b :: collate(a, b) < 0 <==> collate(b, a) > 0)
    && (forall a, b :: collate(a, b) == 0 ==> a == b)
  }

  function IndexOf(s: seq<string>, x: string): int {
    if x !in s then -1 else if s[0] == x then 0 else 1 + IndexOf(s[1..], x)
  }

  function GroupRank(groupOrder: seq<string>, group: string): int {
    var index := IndexOf(groupOrder, group);
    if index == -1 then MAX_SAFE_INTEGER else index
  }

  function ComparePackages(a: Package, b: Package, groupOrder: seq<string>, collate: (string, string) -> int): int {
    var ranks := GroupRank(groupOrder, a.group) - GroupRank(groupOrder, b.group);
    if ranks != 0 then ranks
    else if collate(a.group, b.group) != 0 then collate(a.group, b.group)
    else collate(a.short, b.short)
  }

  function Comparator(groupOrder: seq<string>, collate: (string, string) -> int): (Package, Package) -> int {
    (a, b) => ComparePackages(a, b, groupOrder, collate)
  }

  /** The comparator is a total order that only packages of one short name tie in. */
  lemma ComparatorIsTotal(groupOrder: seq<string>, collate: (string, string) -> int)
    requires Collation(collate)
    ensures TotalPreorder(Comparator(groupOrder, collate))
    ensures forall a, b :: Comparator(groupOrder, collate)(a, b) <= 0 && Comparator(groupOrder, collate)(b, a) <= 0 ==> a.short == b.short
  {
    var cmp := Comparator(groupOrder, collate);
    forall a, b ensures cmp(a, b) <= 0 || cmp(b, a) <= 0 {
      CompareAntisymmetric(a, b, groupOrder, collate);
    }
    forall a, b | cmp(a, b) <= 0 && cmp(b, a) <= 0 ensures a.short == b.short {
      CompareAntisymmetric(a, b, groupOrder, collate);
    }
    forall a, b, c | cmp(a, b) <= 0 && cmp(b, c) <= 0 ensures cmp(a, c) <= 0 {
      CompareTransitive(a, b, c, groupOrder, collate);
    }
  }

  /** `g` is listed, and `h` is not listed up to there. */
  ghost predicate GroupBefore(groupOrder: seq<string>, g: string, h: string) {
    exists i :: 0 <= i < |groupOrder| && groupOrder[i] == g && h !in groupOrder[..i + 1]
  }

  /** First by the first positions of the groups, unlisted groups last and by name, then by short name. */
  ghost predicate StandsBefore(groupOrder: seq<string>, collate: (string, string) -> int, a: Package, b: Package) {
    || GroupBefore(groupOrder, a.group, b.group)
    || (a.group !in groupOrder && b.group !in groupOrder && collate(a.group, b.group) < 0)
    || (a.group == b.group && collate(a.short, b.short) < 0)
  }

  ghost function StandingOrder(groupOrder: seq<string>, collate: (string, string) -> int): (Package, Package) -> bool {
    (a, b) => StandsBefore(groupOrder, collate, a, b)
  }

  lemma {:induction false} FirstPosition(s: seq<string>, x: string)
    ensures IndexOf(s, x) == -1 <==> x !in s
    ensures x in s ==> 0 <= IndexOf(s, x) < |s| && s[IndexOf(s, x)] == x && x !in s[..IndexOf(s, x)]
  {
    if x in s && s[0] != x {
      FirstPosition(s[1..], x);
      var k := 1 + IndexOf(s[1..], x);
      assert s[..k] == [s[0]] + s[1..][..k - 1];
    }
  }

  lemma GroupsExact(groupOrder: seq<string>, g: string, h: string)
    requires |groupOrder| <= MAX_ARRAY_LENGTH
    ensures GroupRank(groupOrder, g) < GroupRank(groupOrder, h) <==> GroupBefore(groupOrder, g, h)
    ensures GroupRank(groupOrder, g) == GroupRank(groupOrder, h) <==> g == h || (g !in groupOrder && h !in groupOrder)
  {
    FirstPosition(groupOrder, g);
    FirstPosition(groupOrder, h);
    var i, j := IndexOf(groupOrder, g), IndexOf(groupOrder, h);
    if i != -1 && (j == -1 || i < j) {
      assert j != -1 ==> groupOrder[..j][..i + 1] == groupOrder[..i + 1];
      assert groupOrder[i] == g && h !in groupOrder[..i + 1];
    }
    if k :| 0 <= k < |groupOrder| && groupOrder[k] == g && h !in groupOrder[..k + 1] {
      assert i <= k;
      assert j == -1 || j > k;
    }
  }

  /** The comparator is that order. */
  lemma ComparatorExact(groupOrder: seq<string>, collate: (string, string) -> int, a: Package, b: Package)
    requires Collation(collate) && |groupOrder| <= MAX_ARRAY_LENGTH
    ensures Comparator(groupOrder, collate)(a, b) < 0 <==> StandsBefore(groupOrder, collate, a, b)
    ensures Comparator(groupOrder, collate)(a, b) == 0 <==> a.group == b.group && a.short == b.short
  {
    GroupsExact(groupOrder, a.group, b.group);
    hide GroupRank, GroupBefore;
    assert collate(a.group, a.group) == 0 && collate(a.short, a.short) == 0;
  }

  lemma CompareAntisymmetric(a: Package, b: Package, groupOrder: seq<string>, collate: (string, string) -> int)
    requires Collation(collate)
    ensures ComparePackages(a, b, groupOrder, collate) < 0 <==> ComparePackages(b, a, groupOrder, collate) > 0
    ensures ComparePackages(a, b, groupOrder, collate) > 0 <==> ComparePackages(b, a, groupOrder, collate) < 0
    ensures ComparePackages(a, b, groupOrder, collate) == 0 ==> a.short == b.short
  {
  }

  lemma CompareTransitive(a: Package, b: Package, c: Package, groupOrder: seq<string>, collate: (string, string) -> int)
    requires Collation(collate)
    requires ComparePackages(a, b, groupOrder, collate) <= 0 && ComparePackages(b, c, groupOrder, collate) <= 0
    ensures ComparePackages(a, c, groupOrder, collate) <= 0
  {
    assert collate(a.group, a.group) == 0;
    assert collate(a.group, b.group) <= 0 && collate(b.group, c.group) <= 0 ==> collate(a.group, c.group) <= 0;
    assert collate(a.short, b.short) <= 0 && collate(b.short, c.short) <= 0 ==> collate(a.short, c.short) <= 0;
  }

  // ---------- the order ----------

  ghost predicate DepsExist(g: Graph) {
    forall n, d :: n in g && d in g[n].deps ==> d in g
  }

  ghost predicate WellFormed(g: Graph) {
    NamedBySelf(g) && DepsExist(g)
  }

  /** The dependencies of placed packages are placed. */
  ghost predicate Downward(g: Graph, placed: set<string>) {
    placed <= g.Keys && Closed(g, placed)
  }

  function Rest(g: Graph, placed: set<string>): Graph {
    map n | n in g && n !in placed :: g[n]
  }

  function Ready(g: Graph, placed: set<string>): set<string> {
    set n | n in g && n !in placed && forall d :: d in g[n].deps ==> d in placed
  }

  ghost function SinkMembers(g: Graph): set<string> {
    set n | n in g && SinkCycle(g, SccOf(g, n))
  }

  function PackagesOf(g: Graph, names: set<string>): set<Package> {
    set n | n in names && n in g :: g[n]
  }

  lemma PackagesNonEmpty(g: Graph, names: set<string>)
    requires names != {} && names <= g.Keys
    ensures PackagesOf(g, names) != {}
  {
    var n :| n in names;
    assert g[n] in PackagesOf(g, names);
  }

  lemma NotReadyHasEdge(g: Graph, placed: set<string>, u: string) returns (d: string)
    requires WellFormed(g) && u in g && u !in placed && u !in Ready(g, placed)
    ensures Edge(Rest(g, placed), u, d)
  {
    d :| d in g[u].deps && d !in placed;
  }

  lemma RestHasEdges(g: Graph, placed: set<string>)
    requires WellFormed(g) && placed <= g.Keys && placed != g.Keys && Ready(g, placed) == {}
    ensures Rest(g, placed) != map[]
    ensures forall u :: u in Rest(g, placed) ==> exists v :: Edge(Rest(g, placed), u, v)
  {
    assert placed < g.Keys;
    var n :| n in g.Keys && n !in placed;
    assert n in Rest(g, placed);
    forall u | u in Rest(g, placed) ensures exists v :: Edge(Rest(g, placed), u, v) {
      var d := NotReadyHasEdge(g, placed, u);
    }
  }

  /** When no package is ready, some sink cycle is left among the remaining ones. */
  lemma NeverStuck(g: Graph, placed: set<string>)
    requires WellFormed(g) && Downward(g, placed) && placed != g.Keys
    requires Ready(g, placed) == {}
    ensures SinkMembers(Rest(g, placed)) != {}
  {
    assert placed <= g.Keys;
    hide *;
    RestHasEdges(g, placed);
    var c := SinkCycleExists(Rest(g, placed));
    SinkCycleHasMember(Rest(g, placed), c);
  }

  lemma SinkCycleHasMember(g: Graph, c: set<string>)
    requires SinkCycle(g, c)
    ensures SinkMembers(g) != {}
  {
    var u :| u in g && c == SccOf(g, u);
    assert u in SinkMembers(g);
  }

  /** The names of the next block. */
  ghost function NextBlock(g: Graph, placed: set<string>, cmp: (Package, Package) -> int): (block: set<string>)
    requires WellFormed(g) && Downward(g, placed) && placed != g.Keys && TotalPreorder(cmp)
    ensures block != {} && block <= g.Keys - placed
  {
    if Ready(g, placed) != {} then Ready(g, placed)
    else
      var rest := Rest(g, placed);
      NeverStuck(g, placed);
      PackagesNonEmpty(rest, SinkMembers(rest));
      LeastExists(PackagesOf(rest, SinkMembers(rest)), cmp);
      var least :| LeastIn(least, PackagesOf(rest, SinkMembers(rest)), cmp);
      SccOfSelf(rest, least.short);
      SccOf(rest, least.short)
  }

  lemma RestEdge(g: Graph, placed: set<string>, u: string, v: string)
    ensures Edge(Rest(g, placed), u, v) <==> Edge(g, u, v) && u !in placed && v !in placed
  {
  }

  /** Placing a block keeps the placed packages closed under dependency. */
  lemma BlockDownward(g: Graph, placed: set<string>, cmp: (Package, Package) -> int)
    requires WellFormed(g) && Downward(g, placed) && placed != g.Keys && TotalPreorder(cmp)
    ensures Downward(g, placed + NextBlock(g, placed, cmp))
  {
    var block := NextBlock(g, placed, cmp);
    if Ready(g, placed) == {} {
      BlockIsSinkCycle(g, placed, cmp);
      forall u, v | u in placed + block && Edge(g, u, v) ensures v in placed + block {
        RestEdge(g, placed, u, v);
      }
    }
  }

  /** A block that is not a ready layer is one sink cycle of the remaining packages. */
  lemma BlockIsSinkCycle(g: Graph, placed: set<string>, cmp: (Package, Package) -> int)
    requires WellFormed(g) && Downward(g, placed) && placed != g.Keys && TotalPreorder(cmp)
    requires Ready(g, placed) == {}
    ensures SinkCycle(Rest(g, placed), NextBlock(g, placed, cmp))
  {
    var rest := Rest(g, placed);
    NeverStuck(g, placed);
    PackagesNonEmpty(rest, SinkMembers(rest));
    LeastExists(PackagesOf(rest, SinkMembers(rest)), cmp);
    var least :| LeastIn(least, PackagesOf(rest, SinkMembers(rest)), cmp)
      && NextBlock(g, placed, cmp) == SccOf(rest, least.short);
  }

  /** The packages not yet placed, in the order they are placed. */
  ghost function OrderFrom(g: Graph, placed: set<string>, cmp: (Package, Package) -> int): seq<Package>
    requires WellFormed(g) && Downward(g, placed) && TotalPreorder(cmp)
    decreases g.Keys - placed
  {
    if placed == g.Keys then []
    else
      var block := NextBlock(g, placed, cmp);
      BlockDownward(g, placed, cmp);
      SortedListing(PackagesOf(g, block), cmp) + OrderFrom(g, placed + block, cmp)
  }

  lemma OrderUnfolds(g: Graph, placed: set<string>, cmp: (Package, Package) -> int)
    requires WellFormed(g) && Downward(g, placed) && TotalPreorder(cmp) && placed != g.Keys
    ensures Downward(g, placed + NextBlock(g, placed, cmp))
    ensures OrderFrom(g, placed, cmp)
         == SortedListing(PackagesOf(g, NextBlock(g, placed, cmp)), cmp) + OrderFrom(g, placed + NextBlock(g, placed, cmp), cmp)
  {
    BlockDownward(g, placed, cmp);
  }

  /** A non-empty order starts with the next block. */
  lemma Unfold(g: Graph, placed: set<string>, cmp: (Package, Package) -> int)
    requires WellFormed(g) && Downward(g, placed) && TotalPreorder(cmp) && OrderFrom(g, placed, cmp) != []
    ensures placed != g.Keys
    ensures Downward(g, placed + NextBlock(g, placed, cmp))
    ensures OrderFrom(g, placed, cmp)
         == SortedListing(PackagesOf(g, NextBlock(g, placed, cmp)), cmp) + OrderFrom(g, placed + NextBlock(g, placed, cmp), cmp)
  {
    OrderUnfolds(g, placed, cmp);
  }

  // ---------- what the order promises ----------

  ghost predicate Mutual(g: Graph, u: string, v: string) {
    Reach(g, u, v) && Reach(g, v, u)
  }

  ghost predicate Before(s: seq<Package>, name: string, i: nat) {
    exists j :: 0 <= j < i && j < |s| && s[j].short == name
  }

  lemma {:induction false} RestReach(g: Graph, placed: set<string>, u: string, v: string)
    requires Reach(Rest(g, placed), u, v)
    ensures Reach(g, u, v)
  {
    var p :| PathFromTo(Rest(g, placed), p, u, v);
    forall i | 0 <= i < |p| - 1 ensures Edge(g, p[i], p[i + 1]) {
      RestEdge(g, placed, p[i], p[i + 1]);
    }
    assert PathFromTo(g, p, u, v);
  }

  /** A ready package lies on no cycle: it reaches nothing else outside the placed ones. */
  lemma ReadyAlone(g: Graph, placed: set<string>, u: string, v: string)
    requires WellFormed(g) && Downward(g, placed)
    requires u in Ready(g, placed) && v !in placed && Reach(g, u, v)
    ensures u == v
  {
    if u != v {
      var w := FirstEdge(g, u, v);
      ReachStaysInside(g, placed, w, v);
    }
  }

  /** Two packages of one cycle block depend on each other. */
  lemma BlockMutual(g: Graph, placed: set<string>, cmp: (Package, Package) -> int, u: string, v: string)
    requires WellFormed(g) && Downward(g, placed) && placed != g.Keys && TotalPreorder(cmp)
    requires Ready(g, placed) == {}
    requires u in NextBlock(g, placed, cmp) && v in NextBlock(g, placed, cmp)
    ensures Mutual(g, u, v)
  {
    var rest, block := Rest(g, placed), NextBlock(g, placed, cmp);
    BlockIsSinkCycle(g, placed, cmp);
    hide NextBlock, Rest, Reach;
    var root :| root in rest && block == SccOf(rest, root);
    ReachTransitive(rest, u, root, v);
    ReachTransitive(rest, v, root, u);
    RestReach(g, placed, u, v);
    RestReach(g, placed, v, u);
  }

  /** Exactly the packages not placed appear, each once. */
  lemma {:induction false} OrderComplete(g: Graph, placed: set<string>, cmp: (Package, Package) -> int)
    requires WellFormed(g) && Downward(g, placed) && TotalPreorder(cmp)
    ensures Members(OrderFrom(g, placed, cmp)) == PackagesOf(g, g.Keys - placed)
    ensures NoRepeats(OrderFrom(g, placed, cmp))
    decreases g.Keys - placed
  {
    if placed != g.Keys {
      var block := NextBlock(g, placed, cmp);
      BlockDownward(g, placed, cmp);
      var head, tail := SortedListing(PackagesOf(g, block), cmp), OrderFrom(g, placed + block, cmp);
      OrderComplete(g, placed + block, cmp);
      hide NextBlock, SortedListing, Downward, OrderFrom;
      assert OrderFrom(g, placed, cmp) == head + tail;
      Concatenation(g, placed, block, head, tail);
    }
  }

  lemma Concatenation(g: Graph, placed: set<string>, block: set<string>, head: seq<Package>, tail: seq<Package>)
    requires NamedBySelf(g) && block <= g.Keys - placed
    requires Members(head) == PackagesOf(g, block) && NoRepeats(head)
    requires Members(tail) == PackagesOf(g, g.Keys - (placed + block)) && NoRepeats(tail)
    ensures Members(head + tail) == PackagesOf(g, g.Keys - placed)
    ensures NoRepeats(head + tail)
  {
    forall p ensures p in Members(head + tail) <==> p in PackagesOf(g, g.Keys - placed) {
      assert p in head + tail <==> p in Members(head) || p in Members(tail);
    }
    forall i, j | 0 <= i < |head| && 0 <= j < |tail| ensures head[i] != tail[j] {
      assert head[i] in Members(head) && tail[j] in Members(tail);
    }
  }

  /** Every dependency is placed already, comes earlier, or shares a cycle with its dependant. */
  lemma {:induction false} DependenciesFirst(g: Graph, placed: set<string>, cmp: (Package, Package) -> int, i: nat, d: string)
    requires WellFormed(g) && Downward(g, placed) && TotalPreorder(cmp)
    requires i < |OrderFrom(g, placed, cmp)| && d in OrderFrom(g, placed, cmp)[i].deps
    ensures d in placed || Before(OrderFrom(g, placed, cmp), d, i) || Mutual(g, OrderFrom(g, placed, cmp)[i].short, d)
    decreases g.Keys - placed
  {
    hide *;
    Unfold(g, placed, cmp);
    var block := NextBlock(g, placed, cmp);
    var head, tail := SortedListing(PackagesOf(g, block), cmp), OrderFrom(g, placed + block, cmp);
    ListedInBlock(g, block, head);
    if i < |head| {
      assert head[i] in head && head[i] == OrderFrom(g, placed, cmp)[i];
      BlockDependency(g, placed, cmp, head[i].short, d);
    } else {
      assert tail[i - |head|] == OrderFrom(g, placed, cmp)[i];
      DependenciesFirst(g, placed + block, cmp, i - |head|, d);
      if d in block {
        AllListed(g, block, head, tail, d, i);
      } else if Before(tail, d, i - |head|) {
        BeforeInTail(head, tail, d, i);
      }
    }
  }

  /** What a package of the next block depends on is placed or mutually dependent. */
  lemma BlockDependency(g: Graph, placed: set<string>, cmp: (Package, Package) -> int, u: string, d: string)
    requires WellFormed(g) && Downward(g, placed) && placed != g.Keys && TotalPreorder(cmp)
    requires u in NextBlock(g, placed, cmp) && d in g[u].deps
    ensures d in placed || Mutual(g, u, d)
  {
    if Ready(g, placed) == {} && d !in placed {
      hide NextBlock, Mutual, Downward, TotalPreorder, WellFormed;
      CycleDependencyInside(g, placed, cmp, u, d);
      BlockMutual(g, placed, cmp, u, d);
    } else {
      hide Mutual;
    }
  }

  lemma AllListed(g: Graph, block: set<string>, head: seq<Package>, tail: seq<Package>, d: string, i: nat)
    requires WellFormed(g) && block <= g.Keys && Members(head) == PackagesOf(g, block) && d in block && i >= |head|
    ensures Before(head + tail, d, i)
  {
    assert g[d] in Members(head);
    var j :| 0 <= j < |head| && head[j] == g[d];
    assert (head + tail)[j].short == d;
  }

  lemma BeforeInTail(head: seq<Package>, tail: seq<Package>, d: string, i: nat)
    requires i >= |head| && Before(tail, d, i - |head|)
    ensures Before(head + tail, d, i)
  {
    var j :| 0 <= j < i - |head| && j < |tail| && tail[j].short == d;
    assert (head + tail)[|head| + j].short == d;
  }

  lemma CycleDependencyInside(g: Graph, placed: set<string>, cmp: (Package, Package) -> int, u: string, d: string)
    requires WellFormed(g) && Downward(g, placed) && placed != g.Keys && TotalPreorder(cmp)
    requires Ready(g, placed) == {}
    requires u in NextBlock(g, placed, cmp) && d in g[u].deps && d !in placed
    ensures d in NextBlock(g, placed, cmp)
  {
    BlockIsSinkCycle(g, placed, cmp);
    RestEdge(g, placed, u, d);
    assert Edge(Rest(g, placed), u, d);
  }

  /** Packages of one cycle stand next to each other. */
  lemma {:induction false} CyclesContiguous(g: Graph, placed: set<string>, cmp: (Package, Package) -> int, i: nat, j: nat, k: nat)
    requires WellFormed(g) && Downward(g, placed) && TotalPreorder(cmp)
    requires i <= j <= k < |OrderFrom(g, placed, cmp)|
    requires Mutual(g, OrderFrom(g, placed, cmp)[i].short, OrderFrom(g, placed, cmp)[k].short)
    ensures Mutual(g, OrderFrom(g, placed, cmp)[i].short, OrderFrom(g, placed, cmp)[j].short)
    decreases g.Keys - placed
  {
    hide *;
    Unfold(g, placed, cmp);
    var block := NextBlock(g, placed, cmp);
    var head, tail := SortedListing(PackagesOf(g, block), cmp), OrderFrom(g, placed + block, cmp);
    if i >= |head| {
      CyclesContiguous(g, placed + block, cmp, i - |head|, j - |head|, k - |head|);
    } else {
      ListedInBlock(g, block, head);
      if k >= |head| {
        ListedOutside(g, placed + block, cmp, k - |head|);
        assert head[i] in head;
        NotMutualAcross(g, placed + block, head[i].short, tail[k - |head|].short);
      } else {
        HeadMutual(g, placed, cmp, head, i, j, k);
      }
    }
  }

  lemma ListedInBlock(g: Graph, block: set<string>, head: seq<Package>)
    requires WellFormed(g) && Members(head) == PackagesOf(g, block)
    ensures forall p :: p in head ==> p.short in block && p.short in g && g[p.short] == p
  {
    forall p | p in head ensures p.short in block && p.short in g && g[p.short] == p {
      assert p in Members(head);
    }
  }

  lemma ListedOutside(g: Graph, placed: set<string>, cmp: (Package, Package) -> int, k: nat)
    requires WellFormed(g) && Downward(g, placed) && TotalPreorder(cmp) && k < |OrderFrom(g, placed, cmp)|
    ensures OrderFrom(g, placed, cmp)[k].short !in placed
  {
    OrderComplete(g, placed, cmp);
    assert OrderFrom(g, placed, cmp)[k] in Members(OrderFrom(g, placed, cmp));
  }

  lemma NotMutualAcross(g: Graph, placed: set<string>, u: string, v: string)
    requires Downward(g, placed) && u in placed && v !in placed
    ensures !Mutual(g, u, v)
  {
    if Mutual(g, u, v) {
      ReachStaysInside(g, placed, u, v);
    }
  }

  lemma HeadMutual(g: Graph, placed: set<string>, cmp: (Package, Package) -> int, head: seq<Package>, i: nat, j: nat, k: nat)
    requires WellFormed(g) && Downward(g, placed) && placed != g.Keys && TotalPreorder(cmp)
    requires NoRepeats(head) && i <= j <= k < |head|
    requires forall p :: p in head ==> p.short in NextBlock(g, placed, cmp) && p.short in g && g[p.short] == p
    requires Mutual(g, head[i].short, head[k].short)
    ensures Mutual(g, head[i].short, head[j].short)
  {
    assert head[i] in head && head[j] in head && head[k] in head;
    if Ready(g, placed) == {} {
      BlockMutual(g, placed, cmp, head[i].short, head[j].short);
    } else {
      ReadyAlone(g, placed, head[i].short, head[k].short);
      assert head[i] == head[k];
    }
  }

  ghost predicate Acyclic(g: Graph) {
    forall u, v :: Edge(g, u, v) ==> !Reach(g, v, u)
  }

  /** The whole order: each package once, dependencies first outside cycles, cycles contiguous. */
  lemma OrderIsDependencyFirst(g: Graph, cmp: (Package, Package) -> int)
    requires WellFormed(g) && TotalPreorder(cmp)
    ensures Downward(g, {})
    ensures var s := OrderFrom(g, {}, cmp);
            && NoRepeats(s)
            && Members(s) == PackagesOf(g, g.Keys)
            && (forall i, d :: 0 <= i < |s| && d in s[i].deps ==> Before(s, d, i) || Mutual(g, s[i].short, d))
            && (forall i, j, k :: 0 <= i <= j <= k < |s| && Mutual(g, s[i].short, s[k].short) ==> Mutual(g, s[i].short, s[j].short))
            && (Acyclic(g) ==> forall i, d :: 0 <= i < |s| && d in s[i].deps ==> Before(s, d, i))
  {
    assert Downward(g, {});
    var s := OrderFrom(g, {}, cmp);
    OrderComplete(g, {}, cmp);
    hide OrderFrom, Mutual;
    assert g.Keys - {} == g.Keys;
    forall i, d | 0 <= i < |s| && d in s[i].deps
      ensures Before(s, d, i) || Mutual(g, s[i].short, d)
      ensures Acyclic(g) ==> Before(s, d, i)
    {
      DependenciesFirst(g, {}, cmp, i, d);
      assert s[i] in Members(s);
    }
    forall i, j, k | 0 <= i <= j <= k < |s| && Mutual(g, s[i].short, s[k].short)
      ensures Mutual(g, s[i].short, s[j].short)
    {
      CyclesContiguous(g, {}, cmp, i, j, k);
    }
  }

  // ---------- the order without a comparator ----------

  ghost predicate Ascends(s: seq<Package>, before: (Package, Package) -> bool) {
    forall i, j :: 0 <= i < j < |s| ==> before(s[i], s[j])
  }

  /** All ready packages, or, when there is none, the sink cycle of the package that stands before all others on sink cycles. */
  ghost predicate IsBlock(g: Graph, placed: set<string>, block: set<string>, before: (Package, Package) -> bool) {
    var rest := Rest(g, placed);
    if Ready(g, placed) != {} then block == Ready(g, placed)
    else exists n :: LeastMember(rest, n, before) && block == SccOf(rest, n)
  }

  /** The package stands before all others on sink cycles. */
  ghost predicate LeastMember(g: Graph, n: string, before: (Package, Package) -> bool) {
    n in SinkMembers(g) && forall m :: m in SinkMembers(g) && m != n ==> before(g[n], g[m])
  }

  /** `s` lists the packages not yet placed block by block, each block in ascending order. */
  ghost predicate Layered(g: Graph, placed: set<string>, s: seq<Package>, before: (Package, Package) -> bool)
    decreases |s|
  {
    if s == [] then placed == g.Keys
    else exists n, block {:trigger s[..n], PackagesOf(g, block)} ::
      && 0 < n <= |s| && Members(s[..n]) == PackagesOf(g, block) && block <= g.Keys - placed
      && IsBlock(g, placed, block, before) && Ascends(s[..n], before)
      && Layered(g, placed + block, s[n..], before)
  }

  /** A comparator and a strict order say the same of packages of different names. */
  ghost predicate Means(g: Graph, cmp: (Package, Package) -> int, before: (Package, Package) -> bool) {
    forall m, n :: m in g && n in g && m != n ==> (cmp(g[m], g[n]) <= 0 <==> before(g[m], g[n]))
  }

  lemma ComparatorMeans(g: Graph, groupOrder: seq<string>, collate: (string, string) -> int)
    requires NamedBySelf(g) && Collation(collate) && |groupOrder| <= MAX_ARRAY_LENGTH
    ensures Means(g, Comparator(groupOrder, collate), StandingOrder(groupOrder, collate))
  {
    hide StandsBefore, Comparator;
    forall m, n | m in g && n in g && m != n
      ensures Comparator(groupOrder, collate)(g[m], g[n]) <= 0 <==> StandsBefore(groupOrder, collate, g[m], g[n])
    {
      ComparatorExact(groupOrder, collate, g[m], g[n]);
    }
  }

  lemma BlockIsBlock(g: Graph, placed: set<string>, cmp: (Package, Package) -> int, before: (Package, Package) -> bool)
    requires WellFormed(g) && Downward(g, placed) && placed != g.Keys && TotalPreorder(cmp) && Means(g, cmp, before)
    ensures IsBlock(g, placed, NextBlock(g, placed, cmp), before)
  {
    if Ready(g, placed) == {} {
      var least := CycleLeast(g, placed, cmp);
      hide NextBlock, SinkMembers, Downward, TotalPreorder;
      LeastStandsBefore(g, placed, least, cmp, before);
    }
  }

  lemma CycleLeast(g: Graph, placed: set<string>, cmp: (Package, Package) -> int) returns (least: Package)
    requires WellFormed(g) && Downward(g, placed) && placed != g.Keys && TotalPreorder(cmp) && Ready(g, placed) == {}
    ensures LeastIn(least, PackagesOf(Rest(g, placed), SinkMembers(Rest(g, placed))), cmp)
    ensures NextBlock(g, placed, cmp) == SccOf(Rest(g, placed), least.short)
  {
    var rest := Rest(g, placed);
    NeverStuck(g, placed);
    PackagesNonEmpty(rest, SinkMembers(rest));
    LeastExists(PackagesOf(rest, SinkMembers(rest)), cmp);
    least :| LeastIn(least, PackagesOf(rest, SinkMembers(rest)), cmp)
      && NextBlock(g, placed, cmp) == SccOf(rest, least.short);
  }

  lemma LeastStandsBefore(g: Graph, placed: set<string>, least: Package, cmp: (Package, Package) -> int, before: (Package, Package) -> bool)
    requires WellFormed(g) && Means(g, cmp, before)
    requires LeastIn(least, PackagesOf(Rest(g, placed), SinkMembers(Rest(g, placed))), cmp)
    ensures LeastMember(Rest(g, placed), least.short, before)
  {
    var rest := Rest(g, placed);
    hide SinkCycle, SccOf;
    assert rest[least.short] == least;
    forall m | m in SinkMembers(rest) && m != least.short ensures before(least, rest[m]) {
      assert rest[m] in PackagesOf(rest, SinkMembers(rest));
      assert cmp(g[least.short], g[m]) <= 0;
    }
  }

  lemma ListingAscends(g: Graph, block: set<string>, cmp: (Package, Package) -> int, before: (Package, Package) -> bool)
    requires WellFormed(g) && block <= g.Keys && TotalPreorder(cmp) && Means(g, cmp, before)
    ensures Ascends(SortedListing(PackagesOf(g, block), cmp), before)
  {
    var s := SortedListing(PackagesOf(g, block), cmp);
    hide SortedListing, TotalPreorder, DepsExist;
    ListedInBlock(g, block, s);
    forall i, j | 0 <= i < j < |s| ensures before(s[i], s[j]) {
      assert s[i] in s && s[j] in s && s[i] != s[j];
    }
  }

  /** The specified order is the layered one. */
  lemma {:induction false} OrderIsLayered(g: Graph, placed: set<string>, cmp: (Package, Package) -> int, before: (Package, Package) -> bool)
    requires WellFormed(g) && Downward(g, placed) && TotalPreorder(cmp) && Means(g, cmp, before)
    ensures Layered(g, placed, OrderFrom(g, placed, cmp), before)
    decreases g.Keys - placed
  {
    if placed != g.Keys {
      OrderUnfolds(g, placed, cmp);
      var block := NextBlock(g, placed, cmp);
      var head, tail := SortedListing(PackagesOf(g, block), cmp), OrderFrom(g, placed + block, cmp);
      BlockIsBlock(g, placed, cmp, before);
      ListingAscends(g, block, cmp, before);
      OrderIsLayered(g, placed + block, cmp, before);
      PackagesNonEmpty(g, block);
      EmptyMembers(head);
      hide IsBlock, SortedListing, NextBlock, Ascends, OrderFrom, TotalPreorder, WellFormed;
      var s, n := head + tail, |head|;
      assert s[..n] == head && s[n..] == tail;
    }
  }
}
