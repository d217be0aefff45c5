/** The declarations pasted for one plugin's config type: scripts/gen-config-catalog.ts, collectConfigCatalog. */
module PasteClosure {
  import opened TypeResolution
  import opened Wrappers

  /** A type name and the file that mentions it. */
  datatype Item = Item(name: string, file: string)

  /** The variables of the worklist. */
  datatype State = State(
    queue: seq<Item>, pastes: seq<DeclId>, refs: map<string, TypeRef>,
    pasted: map<string, DeclId>, violations: seq<Violation>)

  /** What does not change meanwhile. */
  datatype Task = Task(w: World, globals: set<string>, entry: Item) {
    predicate Valid() { entry.file in w.files }
  }

  function Mentioned(t: Task, names: seq<string>, file: string): (items: seq<Item>)
    ensures forall y :: y in items <==> y.file == file && y.name in names && y.name !in t.globals
  {
    if names == [] then []
    else (if names[0] in t.globals then [] else [Item(names[0], file)]) + Mentioned(t, names[1..], file)
  }

  /** In the order of their mention: one more name comes last, unless it is a global. */
  lemma {:induction false} MentionedInOrder(t: Task, names: seq<string>, last: string, file: string)
    ensures Mentioned(t, names + [last], file)
         == Mentioned(t, names, file) + if last in t.globals then [] else [Item(last, file)]
  {
    var all := names + [last];
    if names == [] {
      assert all == [last] && [last][1..] == [];
    } else {
      assert all[1..] == names[1..] + [last];
      MentionedInOrder(t, names[1..], last, file);
    }
  }

  function Undocumented(d: DeclId, fields: seq<string>): (vs: seq<Violation>)
    ensures |vs| == |fields| && forall i :: 0 <= i < |fields| ==> vs[i] == NoDocs(d, fields[i])
  {
    seq(|fields|, i requires 0 <= i < |fields| => NoDocs(d, fields[i]))
  }

  function OfItem(t: Task, x: Item): (r: Resolution)
    requires x.file in t.w.files
    ensures r.Declared? ==> t.w.Holds(r.decl) && t.w.At(r.decl).name == x.name
  {
    Resolve(t.w, x.file, x.name)
  }

  /** One turn of the worklist on `x`, already taken off the queue. */
  function Handle(t: Task, s: State, x: Item): State
    requires x.file in t.w.files
  {
    match OfItem(t, x)
    case Crashed(_) => s
    case Unresolved(v) =>
      s.(violations := s.violations + (if v.Some? then [v.value] else []) + [Unknown(x.name, x.file)])
    case Imported(ref) =>
      if x.name == t.entry.name then s.(violations := s.violations + [ConfigTypeImported(x.name)])
      else if x.name in s.pasted || (x.name in s.refs && s.refs[x.name] != ref) then s.(violations := s.violations + [Ambiguous(x.name)])
      else s.(refs := s.refs[x.name := ref])
    case Declared(d) =>
      if x.name in s.pasted && s.pasted[x.name] == d then s
      else if x.name in s.pasted || x.name in s.refs then s.(violations := s.violations + [Ambiguous(x.name)])
      else
        State(s.queue + Mentioned(t, t.w.At(d).mentions, d.file), s.pastes + [d], s.refs, s.pasted[x.name := d],
              s.violations + Undocumented(d, t.w.At(d).undocumented))
  }

  // ---------- what the config type reaches ----------

  /** `y` is mentioned by the declaration `x` resolves to. */
  ghost predicate Follows(t: Task, x: Item, y: Item) {
    x.file in t.w.files && OfItem(t, x).Declared?
    && var d := OfItem(t, x).decl; y.file == d.file && y.name in t.w.At(d).mentions && y.name !in t.globals
  }

  ghost predicate Path(t: Task, p: seq<Item>) {
    p != [] && forall i :: 0 < i < |p| ==> Follows(t, p[i - 1], p[i])
  }

  ghost predicate Reached(t: Task, x: Item) {
    exists p :: Path(t, p) && p[0] == t.entry && p[|p| - 1] == x
  }

  lemma ReachedStart(t: Task)
    ensures Reached(t, t.entry)
  {
    assert Path(t, [t.entry]);
  }

  lemma ReachedNext(t: Task, x: Item, y: Item)
    requires Reached(t, x) && Follows(t, x, y)
    ensures Reached(t, y)
  {
    var p :| Path(t, p) && p[0] == t.entry && p[|p| - 1] == x;
    var q := p + [y];
    assert q[|q| - 1] == y;
    assert Path(t, q);
  }

  lemma ReachedFile(t: Task, x: Item)
    requires t.Valid() && Reached(t, x)
    ensures x.file in t.w.files
  {
    var p :| Path(t, p) && p[0] == t.entry && p[|p| - 1] == x;
    assert |p| > 1 ==> Follows(t, p[|p| - 2], p[|p| - 1]);
  }

  lemma {:induction false} ReachedWithin(t: Task, handled: set<Item>, p: seq<Item>)
    requires Path(t, p) && p[0] == t.entry && t.entry in handled
    requires forall x, y :: x in handled && Follows(t, x, y) ==> y in handled
    ensures p[|p| - 1] in handled
  {
    if |p| > 1 {
      var n := |p| - 1;
      ReachedWithin(t, handled, p[..n]);
      assert Follows(t, p[n - 1], p[n]);
    }
  }

  /** Nothing reached is unknown, ambiguous or undocumented, and the config type is declared in the package. */
  ghost predicate Clean(t: Task) {
    && (forall x :: Reached(t, x) ==> Fine(t, x))
    && (forall x, y :: Reached(t, x) && Reached(t, y) ==> Agree(t, x, y))
  }

  ghost predicate Fine(t: Task, x: Item) {
    x.file in t.w.files &&
    match OfItem(t, x)
    case Crashed(_) => true
    case Unresolved(_) => false
    case Imported(_) => x.name != t.entry.name
    case Declared(d) => t.w.At(d).undocumented == []
  }

  ghost predicate Agree(t: Task, x: Item, y: Item) {
    x.file in t.w.files && y.file in t.w.files && x.name == y.name ==> OfItem(t, x) == OfItem(t, y)
  }

  // ---------- what every turn keeps ----------

  /** The state has `x` as it resolves. */
  ghost predicate Settled(t: Task, s: State, x: Item) {
    x.file in t.w.files &&
    match OfItem(t, x)
    case Crashed(_) => false
    case Unresolved(_) => false
    case Imported(ref) => x.name in s.refs && s.refs[x.name] == ref
    case Declared(d) => x.name in s.pasted && s.pasted[x.name] == d
  }

  /** Everything recorded comes from a handled item. */
  ghost predicate Justified(t: Task, s: State, handled: set<Item>) {
    && (forall n :: n in s.pasted ==> exists x :: x in handled && x.name == n && x.file in t.w.files && OfItem(t, x) == Declared(s.pasted[n]))
    && (forall n :: n in s.refs ==> exists x :: x in handled && x.name == n && x.file in t.w.files && OfItem(t, x) == Imported(s.refs[n]))
  }

  /** The list of pastes and the map by name say the same. */
  ghost predicate Listed(t: Task, s: State) {
    && (forall k :: 0 <= k < |s.pastes| ==> t.w.Holds(s.pastes[k]))
    && (forall k :: 0 <= k < |s.pastes| ==> t.w.At(s.pastes[k]).name in s.pasted && s.pasted[t.w.At(s.pastes[k]).name] == s.pastes[k])
    && (forall j, k :: 0 <= j < k < |s.pastes| ==> t.w.At(s.pastes[j]).name != t.w.At(s.pastes[k]).name)
    && (forall n :: n in s.pasted ==> s.pasted[n] in s.pastes && t.w.Holds(s.pasted[n]) && t.w.At(s.pasted[n]).name == n)
    && (forall n :: n in s.pasted ==> n !in s.refs)
  }

  ghost predicate AllReached(t: Task, xs: set<Item>, queue: seq<Item>) {
    (forall x :: x in xs ==> Reached(t, x)) && (forall x :: x in queue ==> Reached(t, x))
  }

  ghost predicate Documented(t: Task, s: State) {
    t.entry.name !in s.refs
    && forall n :: n in s.pasted ==> t.w.Holds(s.pasted[n]) && t.w.At(s.pasted[n]).undocumented == []
  }

  ghost predicate NoneForgotten(t: Task, handled: set<Item>, queue: seq<Item>) {
    forall v, y :: v in handled && Follows(t, v, y) ==> y in handled || y in queue
  }

  /** With no violation so far, what was handled is settled and what it mentions is not forgotten. */
  ghost predicate Complete(t: Task, s: State, handled: set<Item>) {
    && Documented(t, s)
    && (forall x :: x in handled ==> Settled(t, s, x))
    && NoneForgotten(t, handled, s.queue)
    && (handled != {} ==> s.pastes != [] && OfEntry(t) == Declared(s.pastes[0]))
  }

  ghost function OfEntry(t: Task): Resolution {
    if t.Valid() then OfItem(t, t.entry) else Crashed(Unreadable(t.entry.file))
  }

  ghost predicate Inv(t: Task, s: State, handled: set<Item>) {
    && t.Valid()
    && AllReached(t, handled, s.queue)
    && (t.entry in handled || s.queue == [t.entry])
    && (handled == {} ==> s == State([t.entry], [], map[], map[], []))
    && Justified(t, s, handled)
    && Listed(t, s)
    && (s.violations == [] ==> Complete(t, s, handled))
    && (s.violations != [] ==> !Clean(t))
  }

  /** The state before a turn: `x` still heads the queue. */
  ghost function Before(s: State, x: Item): State {
    s.(queue := [x] + s.queue)
  }

  lemma HandleReached(t: Task, s: State, x: Item, handled: set<Item>)
    requires t.Valid() && AllReached(t, handled, [x] + s.queue) && x.file in t.w.files
    ensures AllReached(t, handled + {x}, Handle(t, s, x).queue)
  {
    hide Reached, Resolve, OfItem;
    assert x in [x] + s.queue;
    assert forall y :: y in s.queue ==> y in [x] + s.queue;
    var after := Handle(t, s, x);
    forall y | y in after.queue ensures Reached(t, y) {
      if y !in s.queue {
        var d := OfItem(t, x).decl;
        assert y in Mentioned(t, t.w.At(d).mentions, d.file);
        assert Follows(t, x, y);
        ReachedNext(t, x, y);
      }
    }
  }

  lemma HandleJustified(t: Task, s: State, x: Item, handled: set<Item>)
    requires Justified(t, s, handled) && x.file in t.w.files
    ensures Justified(t, Handle(t, s, x), handled + {x})
  {
    hide OfItem, Resolve, Mentioned, Undocumented;
  }

  lemma ListPaste(t: Task, s: State, d: DeclId)
    requires Listed(t, s) && t.w.Holds(d) && t.w.At(d).name !in s.pasted && t.w.At(d).name !in s.refs
    ensures Listed(t, s.(pastes := s.pastes + [d], pasted := s.pasted[t.w.At(d).name := d]))
  {
    var pastes := s.pastes + [d];
    assert pastes[|s.pastes|] == d;
    assert forall n :: n in s.pasted ==> s.pasted[n] in pastes;
  }

  lemma ListRef(t: Task, s: State, n: string, ref: TypeRef)
    requires Listed(t, s) && n !in s.pasted
    ensures Listed(t, s.(refs := s.refs[n := ref]))
  {
  }

  lemma ListRest(t: Task, s: State, queue: seq<Item>, violations: seq<Violation>)
    requires Listed(t, s)
    ensures Listed(t, s.(queue := queue, violations := violations))
  {
  }

  lemma HandleListed(t: Task, s: State, x: Item)
    requires Listed(t, s) && x.file in t.w.files
    ensures Listed(t, Handle(t, s, x))
  {
    hide OfItem, Resolve, Mentioned, Undocumented, Listed;
    var after := Handle(t, s, x);
    ListRest(t, s, after.queue, after.violations);
    var rest := s.(queue := after.queue, violations := after.violations);
    if after.pastes != s.pastes {
      ListPaste(t, rest, OfItem(t, x).decl);
    } else if after.refs != s.refs {
      ListRef(t, rest, x.name, after.refs[x.name]);
    }
  }

  /** A turn adds violations and entries and takes none away. */
  ghost predicate Grows(s: State, after: State) {
    && |s.violations| <= |after.violations| && s.pastes <= after.pastes
    && (forall n :: n in s.pasted ==> n in after.pasted && after.pasted[n] == s.pasted[n])
    && (forall n :: n in s.refs ==> n in after.refs && after.refs[n] == s.refs[n])
    && (forall y :: y in s.queue ==> y in after.queue)
  }

  lemma HandleGrows(t: Task, s: State, x: Item)
    requires x.file in t.w.files
    ensures Grows(s, Handle(t, s, x))
  {
    hide OfItem, Resolve, Mentioned, Undocumented;
  }

  lemma HandleSettles(t: Task, s: State, x: Item)
    requires x.file in t.w.files && !OfItem(t, x).Crashed? && Handle(t, s, x).violations == []
    ensures Settled(t, Handle(t, s, x), x)
    ensures OfItem(t, x).Imported? ==> x.name != t.entry.name
  {
    hide OfItem, Resolve, Mentioned, Undocumented;
  }

  /** What `x` mentions is queued with it, or was handled or queued when its declaration was pasted. */
  lemma HandleFollows(t: Task, s: State, x: Item, handled: set<Item>, y: Item)
    requires Follows(t, x, y) && Justified(t, s, handled) && Handle(t, s, x).violations == []
    requires NoneForgotten(t, handled, [x] + s.queue)
    ensures y in handled + {x} || y in Handle(t, s, x).queue
  {
    hide OfItem, Resolve;
    var d := OfItem(t, x).decl;
    if x.name in s.pasted && s.pasted[x.name] == d {
      var v :| v in handled && v.name == x.name && v.file in t.w.files && OfItem(t, v) == Declared(d);
      assert Follows(t, v, y);
    } else {
      assert y in Mentioned(t, t.w.At(d).mentions, d.file);
    }
  }

  lemma HandleAllSettled(t: Task, s: State, x: Item, handled: set<Item>)
    requires x.file in t.w.files && !OfItem(t, x).Crashed? && Handle(t, s, x).violations == []
    requires forall v :: v in handled ==> Settled(t, Before(s, x), v)
    ensures forall v :: v in handled + {x} ==> Settled(t, Handle(t, s, x), v)
  {
    HandleGrows(t, s, x);
    HandleSettles(t, s, x);
  }

  lemma HandleAllFollow(t: Task, s: State, x: Item, handled: set<Item>)
    requires x.file in t.w.files && Handle(t, s, x).violations == [] && Justified(t, s, handled)
    requires NoneForgotten(t, handled, [x] + s.queue)
    ensures NoneForgotten(t, handled + {x}, Handle(t, s, x).queue)
  {
    HandleGrows(t, s, x);
    forall v, y | v in handled + {x} && Follows(t, v, y) ensures y in handled + {x} || y in Handle(t, s, x).queue {
      if v in handled {
        assert y in handled || y in [x] + s.queue;
      } else {
        HandleFollows(t, s, x, handled, y);
      }
    }
  }

  lemma HandleDocuments(t: Task, s: State, x: Item)
    requires x.file in t.w.files && !OfItem(t, x).Crashed? && Handle(t, s, x).violations == [] && Documented(t, s)
    ensures Documented(t, Handle(t, s, x))
  {
    hide OfItem, Resolve, Mentioned;
  }

  lemma HandleComplete(t: Task, s: State, x: Item, handled: set<Item>)
    requires Inv(t, Before(s, x), handled) && x.file in t.w.files && !OfItem(t, x).Crashed?
    requires Handle(t, s, x).violations == []
    ensures Complete(t, Handle(t, s, x), handled + {x})
  {
    hide *;
    HandleGrows(t, s, x);
    NoViolations(s, Handle(t, s, x));
    CompleteBefore(t, s, x, handled);
    HandleFirst(t, s, x, handled);
    HandleDocuments(t, s, x);
    HandleAllSettled(t, s, x, handled);
    HandleAllFollow(t, s, x, handled);
    Completed(t, Handle(t, s, x), handled + {x});
  }

  lemma NoViolations(s: State, after: State)
    requires Grows(s, after) && after.violations == []
    ensures s.violations == []
  {
  }

  lemma CompleteBefore(t: Task, s: State, x: Item, handled: set<Item>)
    requires Inv(t, Before(s, x), handled) && s.violations == []
    ensures Documented(t, s) && NoneForgotten(t, handled, [x] + s.queue) && Justified(t, s, handled)
    ensures forall v :: v in handled ==> Settled(t, Before(s, x), v)
  {
    hide OfItem, Resolve, Settled, NoneForgotten;
  }

  lemma Completed(t: Task, s: State, handled: set<Item>)
    requires Documented(t, s) && NoneForgotten(t, handled, s.queue)
    requires forall v :: v in handled ==> Settled(t, s, v)
    requires s.pastes != [] && OfEntry(t) == Declared(s.pastes[0])
    ensures Complete(t, s, handled)
  {
  }

  lemma HandleFirst(t: Task, s: State, x: Item, handled: set<Item>)
    requires Inv(t, Before(s, x), handled) && x.file in t.w.files && !OfItem(t, x).Crashed?
    requires Handle(t, s, x).violations == []
    ensures Handle(t, s, x).pastes != [] && OfEntry(t) == Declared(Handle(t, s, x).pastes[0])
  {
    hide Resolve, Mentioned, Undocumented, Justified, Listed, Clean;
    HandleGrows(t, s, x);
    if handled == {} {
      assert Before(s, x).queue[0] == x == t.entry;
      HandleSettles(t, s, x);
    }
  }

  lemma NotClean(t: Task, x: Item, y: Item)
    requires Reached(t, x) && Reached(t, y) && (!Fine(t, x) || !Agree(t, x, y))
    ensures !Clean(t)
  {
  }

  lemma ViolationReason(t: Task, s: State, x: Item)
    requires x.file in t.w.files && !OfItem(t, x).Crashed?
    requires s.violations == [] && Handle(t, s, x).violations != []
    ensures !Fine(t, x) || (x.name in s.pasted && OfItem(t, x) != Declared(s.pasted[x.name]))
            || (x.name in s.refs && OfItem(t, x) != Imported(s.refs[x.name]))
  {
    hide OfItem, Resolve, Mentioned;
  }

  lemma PastedBy(t: Task, s: State, handled: set<Item>, n: string) returns (y: Item)
    requires Justified(t, s, handled) && n in s.pasted
    ensures y in handled && y.name == n && y.file in t.w.files && OfItem(t, y) == Declared(s.pasted[n])
  {
    y :| y in handled && y.name == n && y.file in t.w.files && OfItem(t, y) == Declared(s.pasted[n]);
  }

  lemma RefBy(t: Task, s: State, handled: set<Item>, n: string) returns (y: Item)
    requires Justified(t, s, handled) && n in s.refs
    ensures y in handled && y.name == n && y.file in t.w.files && OfItem(t, y) == Imported(s.refs[n])
  {
    y :| y in handled && y.name == n && y.file in t.w.files && OfItem(t, y) == Imported(s.refs[n]);
  }

  lemma AllOfThem(t: Task, handled: set<Item>, queue: seq<Item>, x: Item)
    requires AllReached(t, handled, queue) && (x in handled || x in queue)
    ensures Reached(t, x)
  {
  }

  lemma Disagree(t: Task, x: Item, y: Item)
    requires x.file in t.w.files && y.file in t.w.files && x.name == y.name && OfItem(t, x) != OfItem(t, y)
    ensures !Agree(t, x, y)
  {
  }

  /** A new violation is a reason why the config type is not clean. */
  lemma HandleConflict(t: Task, s: State, x: Item, handled: set<Item>)
    requires AllReached(t, handled, [x] + s.queue) && Justified(t, s, handled) && x.file in t.w.files && !OfItem(t, x).Crashed?
    requires s.violations == [] && Handle(t, s, x).violations != []
    ensures !Clean(t)
  {
    hide *;
    ViolationReason(t, s, x);
    AllOfThem(t, handled, [x] + s.queue, x);
    if !Fine(t, x) {
      NotClean(t, x, x);
    } else {
      var y: Item;
      if x.name in s.pasted && OfItem(t, x) != Declared(s.pasted[x.name]) {
        y := PastedBy(t, s, handled, x.name);
      } else {
        y := RefBy(t, s, handled, x.name);
      }
      AllOfThem(t, handled, [x] + s.queue, y);
      Disagree(t, x, y);
      NotClean(t, x, y);
    }
  }

  lemma EntryFirst(t: Task, s: State, x: Item, handled: set<Item>)
    requires Inv(t, Before(s, x), handled)
    ensures t.Valid() && t.entry in handled + {x}
    ensures AllReached(t, handled, [x] + s.queue) && Listed(t, s) && Justified(t, s, handled)
    ensures s.violations != [] ==> !Clean(t)
  {
    hide Complete, Clean, Follows, Resolve, OfItem, Reached;
    assert t.entry in handled || Before(s, x).queue[0] == t.entry;
    assert Listed(t, Before(s, x));
  }

  lemma Assemble(t: Task, s: State, handled: set<Item>)
    requires t.Valid() && t.entry in handled && AllReached(t, handled, s.queue) && Justified(t, s, handled) && Listed(t, s)
    requires s.violations == [] ==> Complete(t, s, handled)
    requires s.violations != [] ==> !Clean(t)
    ensures Inv(t, s, handled)
  {
  }

  /** Every turn keeps the invariant. */
  lemma HandleInv(t: Task, s: State, x: Item, handled: set<Item>)
    requires Inv(t, Before(s, x), handled) && x.file in t.w.files && !OfItem(t, x).Crashed?
    ensures Inv(t, Handle(t, s, x), handled + {x})
  {
    hide *;
    EntryFirst(t, s, x, handled);
    HandleReached(t, s, x, handled);
    HandleJustified(t, s, x, handled);
    HandleListed(t, s, x);
    HandleGrows(t, s, x);
    if Handle(t, s, x).violations == [] {
      HandleComplete(t, s, x, handled);
    } else if s.violations == [] {
      HandleConflict(t, s, x, handled);
    }
    Assemble(t, Handle(t, s, x), handled + {x});
  }

  // ---------- the outcome ----------

  datatype Catalog = Catalog(pastes: seq<DeclId>, refs: map<string, TypeRef>, violations: seq<Violation>)

  /** The name `n` mentioned in `file` is pasted from its declaration, or recorded as its one import. */
  ghost predicate Provided(t: Task, c: Catalog, file: string, n: string) {
    file in t.w.files &&
    match Resolve(t.w, file, n)
    case Declared(d) => d in c.pastes && n !in c.refs
    case Imported(ref) => n in c.refs && c.refs[n] == ref && forall k :: 0 <= k < |c.pastes| ==> NameOf(t, c.pastes[k]) != Some(n)
    case Unresolved(_) => false
    case Crashed(_) => false
  }

  function NameOf(t: Task, d: DeclId): Option<string> {
    if t.w.Holds(d) then Some(t.w.At(d).name) else None
  }

  /** Every name used in a pasted declaration is provided. */
  ghost predicate AllProvided(t: Task, c: Catalog) {
    forall k, n :: 0 <= k < |c.pastes| && t.w.Holds(c.pastes[k]) && n in t.w.At(c.pastes[k]).mentions && n !in t.globals
      ==> Provided(t, c, c.pastes[k].file, n)
  }

  /** Pastes are declarations, no two of one name. */
  ghost predicate Distinct(t: Task, c: Catalog) {
    && (forall k :: 0 <= k < |c.pastes| ==> t.w.Holds(c.pastes[k]))
    && (forall j, k :: 0 <= j < k < |c.pastes| ==> NameOf(t, c.pastes[j]) != NameOf(t, c.pastes[k]))
  }

  ghost predicate PasteReached(t: Task, d: DeclId) {
    exists x :: Reached(t, x) && x.file in t.w.files && OfItem(t, x) == Declared(d)
  }

  ghost predicate RefReached(t: Task, n: string, ref: TypeRef) {
    exists x :: Reached(t, x) && x.file in t.w.files && x.name == n && OfItem(t, x) == Imported(ref)
  }

  ghost predicate NothingElse(t: Task, c: Catalog) {
    && (forall d :: d in c.pastes ==> PasteReached(t, d))
    && (forall n :: n in c.refs ==> RefReached(t, n, c.refs[n]))
  }

  /** An unambiguous closure: the config type first, no name twice, every used name provided, nothing else. */
  ghost predicate IsClosure(t: Task, c: Catalog) {
    && c.pastes != [] && OfEntry(t) == Declared(c.pastes[0])
    && Distinct(t, c) && AllProvided(t, c) && NothingElse(t, c)
  }

  lemma SettledIsProvided(t: Task, s: State, x: Item)
    requires Listed(t, s) && Settled(t, s, x)
    ensures Provided(t, Catalog(s.pastes, s.refs, s.violations), x.file, x.name)
  {
    hide Resolve;
    assert OfItem(t, x) == Resolve(t.w, x.file, x.name);
    hide OfItem;
  }

  lemma MentionIsProvided(t: Task, s: State, handled: set<Item>, k: nat, n: string)
    requires Justified(t, s, handled) && Listed(t, s) && Complete(t, s, handled) && s.queue == []
    requires k < |s.pastes| && n in t.w.At(s.pastes[k]).mentions && n !in t.globals
    ensures Provided(t, Catalog(s.pastes, s.refs, s.violations), s.pastes[k].file, n)
  {
    hide Provided, OfItem, Resolve, Settled;
    var d := s.pastes[k];
    var x := PastedBy(t, s, handled, t.w.At(d).name);
    var y := Item(n, d.file);
    assert Follows(t, x, y);
    assert y in handled;
    SettledIsProvided(t, s, y);
  }

  lemma AllAreProvided(t: Task, s: State, handled: set<Item>)
    requires Justified(t, s, handled) && Listed(t, s) && Complete(t, s, handled) && s.queue == []
    ensures AllProvided(t, Catalog(s.pastes, s.refs, s.violations))
  {
    hide Justified, Listed, Complete, Provided;
    forall k, n | 0 <= k < |s.pastes| && t.w.Holds(s.pastes[k]) && n in t.w.At(s.pastes[k]).mentions && n !in t.globals
      ensures Provided(t, Catalog(s.pastes, s.refs, s.violations), s.pastes[k].file, n)
    {
      MentionIsProvided(t, s, handled, k, n);
    }
  }

  lemma ListedIsDistinct(t: Task, s: State)
    requires Listed(t, s)
    ensures Distinct(t, Catalog(s.pastes, s.refs, s.violations))
  {
  }

  lemma InvSays(t: Task, s: State, handled: set<Item>)
    requires Inv(t, s, handled) && s.queue == [] && s.violations == []
    ensures Justified(t, s, handled) && Listed(t, s) && Complete(t, s, handled) && AllReached(t, handled, s.queue)
    ensures t.Valid() && t.entry in handled && s.pastes != [] && OfEntry(t) == Declared(s.pastes[0])
  {
    hide OfItem, Resolve, Justified, Listed, AllReached, NoneForgotten, Settled, Clean;
  }

  lemma AllAreReached(t: Task, s: State, handled: set<Item>)
    requires AllReached(t, handled, s.queue) && Justified(t, s, handled) && Listed(t, s)
    ensures NothingElse(t, Catalog(s.pastes, s.refs, s.violations))
  {
    hide OfItem, Resolve, Reached, Justified;
    forall d | d in s.pastes ensures PasteReached(t, d) {
      var x := PastedBy(t, s, handled, t.w.At(d).name);
      assert Reached(t, x);
    }
    forall n | n in s.refs ensures RefReached(t, n, s.refs[n]) {
      var x := RefBy(t, s, handled, n);
      assert Reached(t, x);
    }
  }

  lemma ClosureParts(t: Task, c: Catalog)
    requires c.pastes != [] && OfEntry(t) == Declared(c.pastes[0])
    requires Distinct(t, c) && AllProvided(t, c) && NothingElse(t, c)
    ensures IsClosure(t, c)
  {
  }

  lemma EndIsClosure(t: Task, s: State, handled: set<Item>)
    requires Inv(t, s, handled) && s.queue == [] && s.violations == []
    ensures IsClosure(t, Catalog(s.pastes, s.refs, s.violations))
  {
    hide *;
    InvSays(t, s, handled);
    AllAreProvided(t, s, handled);
    AllAreReached(t, s, handled);
    ListedIsDistinct(t, s);
    ClosureParts(t, Catalog(s.pastes, s.refs, s.violations));
  }

  lemma HandledIsFine(t: Task, s: State, handled: set<Item>, x: Item)
    requires Complete(t, s, handled) && x in handled
    ensures Fine(t, x)
  {
    hide Resolve, OfItem, NoneForgotten;
    assert Settled(t, s, x);
  }

  lemma HandledAgree(t: Task, s: State, handled: set<Item>, x: Item, y: Item)
    requires Complete(t, s, handled) && Listed(t, s) && x in handled && y in handled
    ensures Agree(t, x, y)
  {
    hide Resolve, OfItem, NoneForgotten;
    assert Settled(t, s, x) && Settled(t, s, y);
  }

  lemma ReachedIsHandled(t: Task, s: State, handled: set<Item>, x: Item)
    requires Complete(t, s, handled) && s.queue == [] && t.entry in handled && Reached(t, x)
    ensures x in handled
  {
    var p :| Path(t, p) && p[0] == t.entry && p[|p| - 1] == x;
    ReachedWithin(t, handled, p);
  }

  lemma EndIsClean(t: Task, s: State, handled: set<Item>)
    requires Inv(t, s, handled) && s.queue == [] && s.violations == []
    ensures Clean(t)
  {
    InvSays(t, s, handled);
    hide Inv, Complete, Listed, Justified, Reached, Fine, Agree, AllReached, OfEntry;
    forall x | Reached(t, x) ensures x in handled && Fine(t, x) {
      ReachedIsHandled(t, s, handled, x);
      HandledIsFine(t, s, handled, x);
    }
    forall x, y | Reached(t, x) && Reached(t, y) ensures Agree(t, x, y) {
      HandledAgree(t, s, handled, x, y);
    }
  }

  ghost function DeclaredNames(t: Task): set<string> {
    set f, d | f in t.w.files && d in t.w.files[f].declarations :: d.name
  }

  ghost function Room(t: Task, s: State): set<string> {
    DeclaredNames(t) - s.pasted.Keys
  }

  lemma IsDeclaredName(t: Task, d: DeclId)
    requires t.w.Holds(d)
    ensures t.w.At(d).name in DeclaredNames(t)
  {
    assert t.w.files[d.file].declarations[d.pos] in t.w.files[d.file].declarations;
  }

  /** A turn either pastes a name for the first time or shortens the queue. */
  lemma HandleEnds(t: Task, s: State, x: Item)
    requires x.file in t.w.files
    ensures var after := Handle(t, s, x);
      Room(t, after) < Room(t, s) || (Room(t, after) == Room(t, s) && after.queue == s.queue)
  {
    hide Resolve, OfItem, Mentioned, Undocumented;
    if OfItem(t, x).Declared? {
      var d := OfItem(t, x).decl;
      IsDeclaredName(t, d);
      assert x.name !in s.pasted ==> x.name in Room(t, s);
    }
  }

  lemma InvStart(t: Task)
    requires t.Valid()
    ensures Inv(t, State([t.entry], [], map[], map[], []), {})
  {
    ReachedStart(t);
  }

  /** `x` is a declaration or an import, the config type itself not an import, and nothing else is recorded under its name. */
  ghost predicate Compatible(t: Task, s: State, x: Item) {
    && x.file in t.w.files
    && (OfItem(t, x).Declared? || (OfItem(t, x).Imported? && x.name != t.entry.name))
    && (x.name in s.pasted ==> OfItem(t, x) == Declared(s.pasted[x.name]))
    && (x.name in s.refs ==> OfItem(t, x) == Imported(s.refs[x.name]))
  }

  /** `x` is pasted now for the first time. */
  ghost predicate Pastes(t: Task, s: State, x: Item) {
    x.file in t.w.files && OfItem(t, x).Declared? && x.name !in s.pasted && x.name !in s.refs
  }

  /**
   * One turn, record by record. The item is settled exactly when it was or is compatible, and is
   * reported unless it is compatible and brings no undocumented field. The queue gains what a new paste
   * mentions, the pastes gain that declaration, and no other name's records change.
   */
  lemma TurnEffect(t: Task, s: State, x: Item, y: Item, n: string)
    requires x.file in t.w.files && !OfItem(t, x).Crashed?
    requires x.name in s.pasted ==> x.name !in s.refs
    ensures var after := Handle(t, s, x);
      && (Settled(t, after, x) <==> Compatible(t, s, x) || Settled(t, s, x))
      && s.violations <= after.violations
      && (after.violations == s.violations <==>
            Compatible(t, s, x) && (Pastes(t, s, x) ==> t.w.At(OfItem(t, x).decl).undocumented == []))
      && (y in after.queue <==> y in s.queue || (Pastes(t, s, x) && Follows(t, x, y)))
      && (after.pastes == if Pastes(t, s, x) then s.pastes + [OfItem(t, x).decl] else s.pastes)
      && (n != x.name ==> (n in after.pasted <==> n in s.pasted) && (n in after.refs <==> n in s.refs))
      && (n != x.name && n in s.pasted ==> after.pasted[n] == s.pasted[n])
      && (n != x.name && n in s.refs ==> after.refs[n] == s.refs[n])
      && (x.name in after.pasted && x.name !in s.pasted <==> Pastes(t, s, x))
  {
    hide OfItem, Resolve, Mentioned, Undocumented;
  }

  /** An item that was compatible changes nothing when it comes up again. */
  lemma TurnAgain(t: Task, s: State, x: Item)
    requires x.file in t.w.files && Compatible(t, s, x)
    ensures Handle(t, Handle(t, s, x), x) == Handle(t, s, x)
  {
    hide OfItem, Resolve, Mentioned, Undocumented;
  }

  /** The body of the loop behind a resolution that returned. */
  method Turn(t: Task, item: Item, resolved: Resolution, s: State) returns (after: State)
    requires item.file in t.w.files && resolved == OfItem(t, item) && !resolved.Crashed?
    ensures after == Handle(t, s, item)
  {
    hide OfItem, Resolve, Mentioned, Undocumented;
    var queue, pastes, refs, pastedDeclByName, violations := s.queue, s.pastes, s.refs, s.pasted, s.violations;
    match resolved {
      case Unresolved(violation) =>
        if violation.Some? {
          violations := violations + [violation.value];
        }
        violations := violations + [Unknown(item.name, item.file)];
      case Imported(ref) =>
        if item.name == t.entry.name {
          violations := violations + [ConfigTypeImported(item.name)];
        } else if item.name in pastedDeclByName {
          violations := violations + [Ambiguous(item.name)];
        } else if item.name in refs && refs[item.name] != ref {
          violations := violations + [Ambiguous(item.name)];
        } else {
          refs := refs[item.name := ref];
        }
      case Declared(decl) =>
        if item.name in pastedDeclByName && pastedDeclByName[item.name] == decl {
          return s;
        }
        if item.name in pastedDeclByName || item.name in refs {
          violations := violations + [Ambiguous(item.name)];
        } else {
          pastedDeclByName := pastedDeclByName[item.name := decl];
          pastes := pastes + [decl];
          violations := violations + Undocumented(decl, t.w.At(decl).undocumented);
          queue := queue + Mentioned(t, t.w.At(decl).mentions, decl.file);
        }
    }
    after := State(queue, pastes, refs, pastedDeclByName, violations);
  }

  /**
   * The worklist ends. It reports no violation exactly when everything the config type reaches is
   * known, unambiguous and documented, and then it has the closure. An exception comes from a
   * reached name whose imports cannot be read or never end.
   */
  method CollectPastes(t: Task) returns (r: Result<Catalog, Trouble>)
    requires t.Valid()
    ensures r.Failure? ==> exists x :: Reached(t, x) && x.file in t.w.files && OfItem(t, x) == Crashed(r.error)
    ensures r.Success? ==> (r.value.violations == [] <==> Clean(t))
    ensures r.Success? && r.value.violations == [] ==> IsClosure(t, r.value)
  {
    hide *;
    var s := State([t.entry], [], map[], map[], []);
    ghost var handled: set<Item> := {};
    InvStart(t);
    while s.queue != []
      invariant Inv(t, s, handled)
      decreases Room(t, s), |s.queue|
    {
      var item := s.queue[0];
      var rest := s.(queue := s.queue[1..]);
      TakenOff(t, s, handled);
      var resolved := OfItem(t, item);
      if resolved.Crashed? {
        return Failure(resolved.trouble);
      }
      HandleInv(t, rest, item, handled);
      HandleEnds(t, rest, item);
      handled := handled + {item};
      s := Turn(t, item, resolved, rest);
    }
    if s.violations == [] {
      EndIsClosure(t, s, handled);
      EndIsClean(t, s, handled);
    } else {
      ViolationsMean(t, s, handled);
    }
    r := Success(Catalog(s.pastes, s.refs, s.violations));
  }

  lemma TakenOff(t: Task, s: State, handled: set<Item>)
    requires Inv(t, s, handled) && s.queue != []
    ensures var item, rest := s.queue[0], s.(queue := s.queue[1..]);
      Before(rest, item) == s && Room(t, rest) == Room(t, s) && item.file in t.w.files && Reached(t, item)
  {
    ReachedFile(t, s.queue[0]);
  }

  lemma ViolationsMean(t: Task, s: State, handled: set<Item>)
    requires Inv(t, s, handled) && s.violations != []
    ensures !Clean(t)
  {
  }
}
