/** Type declarations across files and how a name resolves to one: scripts/gen-config-catalog.ts. */
module ConfigTypes {
  import opened Wrappers

  /** The type syntax the walk tells apart; every other form is `OtherType`. */
  datatype TypeNode =
    | TypeLiteral(members: seq<Member>)
    | Parenthesized(inner: TypeNode)
    | Intersection(types: seq<TypeNode>)
    | Union(types: seq<TypeNode>)
    | ArrayType(element: TypeNode)
    | TypeOperator(operator: Operator, inner: TypeNode)
    | IndexedAccess(whole: TypeNode, index: Option<string>)
    | Reference(name: string, qualified: bool, arguments: seq<TypeNode>)
    | OtherType

  datatype Operator = Readonly | KeyOf | Unique

  /**
   * How a member spells its name: `x`, `'x'` or `"x"` with escapes, `0x10`, `['x']`. The last has no
   * known name when the expression is no literal.
   */
  datatype MemberName =
    | Identifier(spelling: string)
    | StringLiteral(quote: char, raw: string, value: string)
    | NumericLiteral(digits: string, value: string)
    | ComputedName(expression: string, known: Option<string>)
  {
    /** The characters in the source. */
    function Text(): string {
      match this
      case Identifier(spelling) => spelling
      case StringLiteral(quote, raw, _) => [quote] + raw + [quote]
      case NumericLiteral(digits, _) => digits
      case ComputedName(expression, _) => "[" + expression + "]"
    }

    /** The key the member stands for. */
    function Key(): Option<string> {
      match this
      case Identifier(spelling) => Some(spelling)
      case StringLiteral(_, _, value) => Some(value)
      case NumericLiteral(_, value) => Some(value)
      case ComputedName(_, known) => known
    }
  }

  /** The source shows quotes, digits and brackets as they are written, the key does not. */
  lemma Spellings(text: string)
    ensures Identifier(text).Text() == text && Identifier(text).Key() == Some(text)
    ensures StringLiteral('\'', text, text).Text() == "'" + text + "'" && StringLiteral('\'', text, text).Key() == Some(text)
    ensures NumericLiteral("0x10", "16").Text() == "0x10" && NumericLiteral("0x10", "16").Key() == Some("16")
    ensures ComputedName("'x'", Some("x")).Text() == "['x']" && ComputedName("'x'", Some("x")).Key() == Some("x")
    ensures ComputedName("f()", None).Text() == "[f()]" && ComputedName("f()", None).Key() == None
  {
  }

  /**
   * A property signature; a method, or an accessor with its type; an index signature for all
   * strings; or a call signature, which has no name.
   */
  datatype Member =
    | Property(name: MemberName, type_: Option<TypeNode>)
    | OtherMember(name: MemberName, type_: Option<TypeNode>)
    | IndexSignature(values: TypeNode)
    | CallSignature

  /** An `extends` entry: a plain name, or an expression the walk cannot resolve. */
  datatype Heritage = Named(name: string) | Elsewhere

  datatype Declaration =
    | Interface(name: string, members: seq<Member>, heritage: seq<Heritage>)
    | Alias(name: string, type_: TypeNode)
    | Enum(name: string)

  /** One exported element `source as name`. */
  datatype Element = Element(name: string, source: string)

  /** `export * from`, `export { … } from` a relative `.ts` file, or an export the search skips. */
  datatype Reexport =
    | Star(target: string)
    | Listed(target: string, elements: seq<Element>)
    | Skipped

  /** Where an import leads: a file of the workspace, directly or as a package entry, or out of reach. */
  datatype Source = Within(file: string) | OutOfReach

  datatype Import = Import(imported: string, source: Source)

  datatype File = File(declarations: seq<Declaration>, imports: map<string, Import>, exports: seq<Reexport>)

  /** A declaration by its file and position. */
  datatype DeclId = DeclId(file: string, pos: nat)

  datatype World = World(files: map<string, File>) {
    predicate Holds(d: DeclId) {
      d.file in files && d.pos < |files[d.file].declarations|
    }

    function At(d: DeclId): Declaration
      requires Holds(d)
    {
      files[d.file].declarations[d.pos]
    }
  }

  // ---------- findTypeDecl ----------

  function FirstNamed(declarations: seq<Declaration>, name: string, from: nat): (r: Option<nat>)
    requires from <= |declarations|
    ensures r.Some? ==> from <= r.value < |declarations| && declarations[r.value].name == name
    ensures r.Some? ==> forall i :: from <= i < r.value ==> declarations[i].name != name
    ensures r.None? ==> forall i :: from <= i < |declarations| ==> declarations[i].name != name
    decreases |declarations| - from
  {
    if from == |declarations| then None
    else if declarations[from].name == name then Some(from)
    else FirstNamed(declarations, name, from + 1)
  }

  /** `d` is the first declaration of `name` in `file`. */
  ghost predicate Declares(w: World, file: string, name: string, d: DeclId) {
    && w.Holds(d) && d.file == file && w.At(d).name == name
    && forall i :: 0 <= i < d.pos ==> w.files[file].declarations[i].name != name
  }

  /** The first declaration of `name` in `file`. */
  function FindTypeDecl(w: World, file: string, name: string): (r: Option<DeclId>)
    requires file in w.files
    ensures r.Some? ==> w.Holds(r.value) && r.value.file == file && w.At(r.value).name == name
    ensures r.Some? <==> exists i :: 0 <= i < |w.files[file].declarations| && w.files[file].declarations[i].name == name
    ensures forall d :: r == Some(d) <==> Declares(w, file, name, d)
  {
    var r := FirstNamed(w.files[file].declarations, name, 0);
    if r.Some? then Some(DeclId(file, r.value)) else None
  }

  // ---------- findExportedTypeDecl ----------

  /** A name looked for in a file. */
  type Key = (string, string)

  /** Element `k` is the first that exports `name`. */
  ghost predicate FirstElement(elements: seq<Element>, name: string, k: int) {
    0 <= k < |elements| && elements[k].name == name && forall j :: 0 <= j < k ==> elements[j].name != name
  }

  /** The source name behind exported `name`, first element wins. */
  function SourceOf(elements: seq<Element>, name: string): (r: Option<string>)
    ensures r.Some? ==> exists e :: e in elements && e.name == name && e.source == r.value
    ensures r.None? <==> forall e :: e in elements ==> e.name != name
    ensures forall k :: FirstElement(elements, name, k) ==> r == Some(elements[k].source)
  {
    if elements == [] then None
    else if elements[0].name == name then
      assert elements[0] in elements;
      Some(elements[0].source)
    else
      assert elements == [elements[0]] + elements[1..];
      assert forall k :: FirstElement(elements, name, k) ==> FirstElement(elements[1..], name, k - 1);
      SourceOf(elements[1..], name)
  }

  /** What a re-export makes of a search for `name`. */
  function LookFor(e: Reexport, name: string): Option<string> {
    match e
    case Star(_) => Some(name)
    case Listed(_, elements) => SourceOf(elements, name)
    case Skipped => None
  }

  function SourceNames(w: World): set<string> {
    set f, e, el | f in w.files && e in w.files[f].exports && e.Listed? && el in e.elements :: el.source
  }

  ghost function Keys(w: World, names: set<string>): set<Key> {
    set f, n | f in w.files && n in names :: (f, n)
  }

  /** The search may run: `names` holds every name it can come to look for. */
  ghost predicate Searchable(w: World, names: set<string>, file: string, name: string) {
    SourceNames(w) <= names && file in w.files && name in names
  }

  lemma SearchStays(w: World, names: set<string>, file: string, name: string, i: nat)
    requires Searchable(w, names, file, name) && i < |w.files[file].exports|
    requires LookFor(w.files[file].exports[i], name).Some?
    ensures LookFor(w.files[file].exports[i], name).value in names
  {
    var e := w.files[file].exports[i];
    assert e in w.files[file].exports;
    if e.Listed? {
      var el :| el in e.elements && el.name == name && el.source == LookFor(e, name).value;
    }
  }

  /** What a search comes to; `Broken` is the exception of a re-exported file that cannot be loaded. */
  datatype Search = Hit(decl: DeclId) | Miss | Broken

  /**
   * Depth-first search for an exported declaration along re-exports. `seen` is shared by all
   * branches; the second result is its final value.
   */
  function FindExported(w: World, file: string, name: string, seen: set<Key>, ghost names: set<string>): (r: (Search, set<Key>))
    requires Searchable(w, names, file, name)
    ensures seen <= r.1
    ensures r.0.Hit? ==> w.Holds(r.0.decl)
    decreases Keys(w, names) - seen, 1, 0
  {
    if (file, name) in seen then (Miss, seen)
    else
      var local := FindTypeDecl(w, file, name);
      if local.Some? then (Hit(local.value), seen + {(file, name)})
      else
        assert (file, name) in Keys(w, names);
        FindInExports(w, file, name, 0, seen + {(file, name)}, names)
  }

  /** The search through the re-exports of `file` from position `i` on. */
  function FindInExports(w: World, file: string, name: string, i: nat, seen: set<Key>, ghost names: set<string>): (r: (Search, set<Key>))
    requires Searchable(w, names, file, name) && i <= |w.files[file].exports|
    ensures seen <= r.1
    ensures r.0.Hit? ==> w.Holds(r.0.decl)
    decreases Keys(w, names) - seen, 2, |w.files[file].exports| - i
  {
    if i == |w.files[file].exports| then (Miss, seen)
    else
      var e := w.files[file].exports[i];
      var lookFor := LookFor(e, name);
      if lookFor.None? then FindInExports(w, file, name, i + 1, seen, names)
      else if e.target !in w.files then (Broken, seen)
      else
        SearchStays(w, names, file, name, i);
        var found := FindExported(w, e.target, lookFor.value, seen, names);
        if found.0.Miss? then FindInExports(w, file, name, i + 1, found.1, names) else found
  }

  /** One re-export leads from a search to another; a local declaration ends it. */
  ghost predicate Leads(w: World, a: Key, b: Key) {
    && a.0 in w.files && (forall d :: !Declares(w, a.0, a.1, d))
    && exists e :: e in w.files[a.0].exports && Exports(e, a.1, b)
  }

  /** `export *` offers every name as it is, a list the source of the first element of that name. */
  ghost predicate Exports(e: Reexport, name: string, b: Key) {
    match e
    case Star(target) => b == (target, name)
    case Listed(target, elements) =>
      exists k :: FirstElement(elements, name, k) && b == (target, elements[k].source)
    case Skipped => false
  }

  lemma {:induction false} FirstExists(elements: seq<Element>, name: string) returns (k: nat)
    requires exists e :: e in elements && e.name == name
    ensures FirstElement(elements, name, k)
  {
    k := 0;
    while elements[k].name != name
      invariant k < |elements| && forall j :: 0 <= j < k ==> elements[j].name != name
      decreases |elements| - k
    {
      var e :| e in elements && e.name == name;
      k := k + 1;
    }
  }

  /** What a re-export makes of a search is what it exports. */
  lemma LookForExact(e: Reexport, name: string, b: Key)
    ensures Exports(e, name, b) <==> LookFor(e, name).Some? && b == (e.target, LookFor(e, name).value)
  {
    if e.Listed? && LookFor(e, name).Some? {
      var k := FirstExists(e.elements, name);
    }
  }

  lemma LeadsExact(w: World, a: Key, b: Key)
    ensures Leads(w, a, b) <==>
      a.0 in w.files && FindTypeDecl(w, a.0, a.1).None?
      && exists i :: 0 <= i < |w.files[a.0].exports|
           && LookFor(w.files[a.0].exports[i], a.1).Some?
           && b == (w.files[a.0].exports[i].target, LookFor(w.files[a.0].exports[i], a.1).value)
  {
    hide Exports, Declares, SourceOf;
    if a.0 in w.files {
      var r := FindTypeDecl(w, a.0, a.1);
      assert r.Some? ==> Declares(w, a.0, a.1, r.value);
      forall i | 0 <= i < |w.files[a.0].exports|
        ensures Exports(w.files[a.0].exports[i], a.1, b)
          <==> LookFor(w.files[a.0].exports[i], a.1).Some? && b == (w.files[a.0].exports[i].target, LookFor(w.files[a.0].exports[i], a.1).value)
      {
        LookForExact(w.files[a.0].exports[i], a.1, b);
      }
    }
  }

  /** A chain of re-exports. */
  ghost predicate Path(w: World, p: seq<Key>) {
    p != [] && forall i :: 0 <= i < |p| - 1 ==> Leads(w, p[i], p[i + 1])
  }

  /** A chain of re-exports from `p[0]` to a file that declares the last name itself. */
  ghost predicate Chain(w: World, p: seq<Key>, d: DeclId) {
    && Path(w, p)
    && var last := p[|p| - 1];
       last.0 in w.files && Declares(w, last.0, last.1, d)
  }

  lemma PathBefore(w: World, a: Key, p: seq<Key>)
    requires Path(w, p) && Leads(w, a, p[0])
    ensures Path(w, [a] + p)
  {
    var q := [a] + p;
    forall k | 0 <= k < |q| - 1 ensures Leads(w, q[k], q[k + 1]) {
      assert k > 0 ==> q[k] == p[k - 1] && q[k + 1] == p[k - 1 + 1];
    }
  }

  /** The end of the chain a search came to: a declaration for a hit, a file that is not there when it broke. */
  ghost predicate Ends(w: World, p: seq<Key>, s: Search) {
    match s
    case Hit(d) => Chain(w, p, d)
    case Broken => Path(w, p) && p[|p| - 1].0 !in w.files
    case Miss => false
  }

  /** A search that does not miss has a chain to show for it. */
  lemma {:induction false} FoundIsChain(w: World, file: string, name: string, seen: set<Key>, names: set<string>) returns (p: seq<Key>)
    requires Searchable(w, names, file, name) && !FindExported(w, file, name, seen, names).0.Miss?
    ensures p != [] && p[0] == (file, name) && Ends(w, p, FindExported(w, file, name, seen, names).0)
    decreases Keys(w, names) - seen, 1, 0
  {
    if FindTypeDecl(w, file, name).Some? {
      p := [(file, name)];
    } else {
      assert (file, name) in Keys(w, names);
      p := FoundInExportsIsChain(w, file, name, 0, seen + {(file, name)}, names);
    }
  }

  lemma {:induction false} FoundInExportsIsChain(w: World, file: string, name: string, i: nat, seen: set<Key>, names: set<string>) returns (p: seq<Key>)
    requires Searchable(w, names, file, name) && i <= |w.files[file].exports|
    requires FindTypeDecl(w, file, name).None?
    requires !FindInExports(w, file, name, i, seen, names).0.Miss?
    ensures p != [] && p[0] == (file, name) && Ends(w, p, FindInExports(w, file, name, i, seen, names).0)
    decreases Keys(w, names) - seen, 2, |w.files[file].exports| - i
  {
    var e := w.files[file].exports[i];
    var lookFor := LookFor(e, name);
    if lookFor.None? {
      p := FoundInExportsIsChain(w, file, name, i + 1, seen, names);
    } else {
      LeadsExact(w, (file, name), (e.target, lookFor.value));
      if e.target !in w.files {
        p := [(file, name), (e.target, lookFor.value)];
      } else {
        SearchStays(w, names, file, name, i);
        var found := FindExported(w, e.target, lookFor.value, seen, names);
        if found.0.Miss? {
          p := FoundInExportsIsChain(w, file, name, i + 1, found.1, names);
        } else {
          var q := FoundIsChain(w, e.target, lookFor.value, seen, names);
          PathBefore(w, (file, name), q);
          p := [(file, name)] + q;
          assert p[|p| - 1] == q[|q| - 1];
        }
      }
    }
  }

  /** `a` was searched in vain: it declares nothing and all it leads to was searched. */
  ghost predicate DeadEnd(w: World, a: Key, seen: set<Key>) {
    a.0 in w.files && FindTypeDecl(w, a.0, a.1).None? && forall b :: Leads(w, a, b) ==> b in seen
  }

  ghost predicate DeadEnds(w: World, part: set<Key>, seen: set<Key>) {
    forall a :: a in part ==> DeadEnd(w, a, seen)
  }

  lemma DeadEndsJoin(w: World, s0: set<Key>, s1: set<Key>, s2: set<Key>)
    requires s0 <= s1 <= s2 && DeadEnds(w, s1 - s0, s1) && DeadEnds(w, s2 - s1, s2)
    ensures DeadEnds(w, s2 - s0, s2)
  {
    forall a | a in s2 - s0 ensures DeadEnd(w, a, s2) {
      if a in s1 {
        assert a in s1 - s0;
      } else {
        assert a in s2 - s1;
      }
    }
  }

  /** A miss leaves only dead ends behind. */
  lemma {:induction false} MissIsDead(w: World, file: string, name: string, seen: set<Key>, names: set<string>)
    requires Searchable(w, names, file, name) && FindExported(w, file, name, seen, names).0.Miss?
    ensures var seen' := FindExported(w, file, name, seen, names).1;
            (file, name) in seen' && DeadEnds(w, seen' - seen, seen')
    decreases Keys(w, names) - seen, 1, 0
  {
    if (file, name) !in seen {
      assert (file, name) in Keys(w, names);
      MissInExportsIsDead(w, file, name, 0, seen + {(file, name)}, names);
      var seen' := FindExported(w, file, name, seen, names).1;
      assert DeadEnd(w, (file, name), seen');
    }
  }

  lemma {:induction false} MissInExportsIsDead(w: World, file: string, name: string, i: nat, seen: set<Key>, names: set<string>)
    requires Searchable(w, names, file, name) && i <= |w.files[file].exports|
    requires FindInExports(w, file, name, i, seen, names).0.Miss?
    ensures var seen' := FindInExports(w, file, name, i, seen, names).1;
            && DeadEnds(w, seen' - seen, seen')
            && forall k :: i <= k < |w.files[file].exports| && LookFor(w.files[file].exports[k], name).Some?
                 ==> (w.files[file].exports[k].target, LookFor(w.files[file].exports[k], name).value) in seen'
    decreases Keys(w, names) - seen, 2, |w.files[file].exports| - i
  {
    if i < |w.files[file].exports| {
      var e := w.files[file].exports[i];
      var lookFor := LookFor(e, name);
      if lookFor.None? {
        MissInExportsIsDead(w, file, name, i + 1, seen, names);
      } else {
        SearchStays(w, names, file, name, i);
        var hit := FindExported(w, e.target, lookFor.value, seen, names);
        MissIsDead(w, e.target, lookFor.value, seen, names);
        MissInExportsIsDead(w, file, name, i + 1, hit.1, names);
        DeadEndsJoin(w, seen, hit.1, FindInExports(w, file, name, i, seen, names).1);
      }
    }
  }

  lemma {:induction false} ChainStaysSeen(w: World, p: seq<Key>, seen: set<Key>, k: nat)
    requires DeadEnds(w, seen, seen) && p != [] && p[0] in seen && k < |p|
    requires forall i :: 0 <= i < |p| - 1 ==> Leads(w, p[i], p[i + 1])
    ensures p[k] in seen && DeadEnd(w, p[k], seen)
  {
    if k > 0 {
      ChainStaysSeen(w, p, seen, k - 1);
      assert Leads(w, p[k - 1], p[k - 1 + 1]);
    }
  }

  /**
   * The search finds the end of a chain of re-exports, however cyclic the files; it misses only when
   * no chain ends in a declaration; and it breaks only on a chain to a file that is not there.
   */
  lemma FindExportedExact(w: World, file: string, name: string, names: set<string>)
    requires Searchable(w, names, file, name)
    ensures var r := FindExported(w, file, name, {}, names).0;
            && (r.Miss? <==> !exists p :: Ends(w, p, r) && p[0] == (file, name))
            && (r.Miss? ==> forall p, d :: Chain(w, p, d) ==> p[0] != (file, name))
  {
    var r := FindExported(w, file, name, {}, names);
    if !r.0.Miss? {
      var p := FoundIsChain(w, file, name, {}, names);
    } else {
      MissIsDead(w, file, name, {}, names);
      assert r.1 - {} == r.1;
      forall p, d | Chain(w, p, d) ensures p[0] != (file, name) {
        if p[0] == (file, name) {
          ChainStaysSeen(w, p, r.1, |p| - 1);
        }
      }
    }
  }

  // ---------- the search in order ----------

  /** The first re-export, in order, along which the name is found or breaks, on every way that comes to no file and name twice. */
  function Direct(w: World, file: string, name: string, above: set<Key>, ghost names: set<string>): (r: Search)
    requires Searchable(w, names, file, name)
    ensures r.Hit? ==> w.Holds(r.decl)
    decreases Keys(w, names) - above, 1, 0
  {
    if (file, name) in above then Miss
    else
      var local := FindTypeDecl(w, file, name);
      if local.Some? then Hit(local.value)
      else
        assert (file, name) in Keys(w, names);
        DirectFrom(w, file, name, 0, above + {(file, name)}, names)
  }

  function DirectFrom(w: World, file: string, name: string, i: nat, above: set<Key>, ghost names: set<string>): (r: Search)
    requires Searchable(w, names, file, name) && i <= |w.files[file].exports|
    ensures r.Hit? ==> w.Holds(r.decl)
    decreases Keys(w, names) - above, 2, |w.files[file].exports| - i
  {
    if i == |w.files[file].exports| then Miss
    else
      var e := w.files[file].exports[i];
      if LookFor(e, name).None? then DirectFrom(w, file, name, i + 1, above, names)
      else if e.target !in w.files then Broken
      else
        SearchStays(w, names, file, name, i);
        var first := Direct(w, e.target, LookFor(e, name).value, above, names);
        if first != Miss then first else DirectFrom(w, file, name, i + 1, above, names)
  }

  /** What was searched in vain is searched in vain again, on any way. */
  lemma {:induction false} DeadIsMissed(w: World, file: string, name: string, dead: set<Key>, above: set<Key>, names: set<string>)
    requires Searchable(w, names, file, name) && (file, name) in dead + above && DeadEnds(w, dead, dead + above)
    requires forall a :: a in dead + above ==> a.0 in w.files
    ensures Direct(w, file, name, above, names) == Miss
    decreases Keys(w, names) - above, 1, 0
  {
    if (file, name) !in above {
      assert DeadEnd(w, (file, name), dead + above);
      assert (file, name) in Keys(w, names);
      assert dead + (above + {(file, name)}) == dead + above;
      DeadFromMissed(w, file, name, 0, dead, above + {(file, name)}, names);
    }
  }

  lemma {:induction false} DeadFromMissed(w: World, file: string, name: string, i: nat, dead: set<Key>, above: set<Key>, names: set<string>)
    requires Searchable(w, names, file, name) && i <= |w.files[file].exports|
    requires DeadEnd(w, (file, name), dead + above) && DeadEnds(w, dead, dead + above)
    requires forall a :: a in dead + above ==> a.0 in w.files
    ensures DirectFrom(w, file, name, i, above, names) == Miss
    decreases Keys(w, names) - above, 2, |w.files[file].exports| - i
  {
    if i < |w.files[file].exports| {
      var e := w.files[file].exports[i];
      var lookFor := LookFor(e, name);
      if lookFor.Some? {
        LeadsExact(w, (file, name), (e.target, lookFor.value));
        SearchStays(w, names, file, name, i);
        DeadIsMissed(w, e.target, lookFor.value, dead, above, names);
      }
      DeadFromMissed(w, file, name, i + 1, dead, above, names);
    }
  }
  /** The search with one shared set answers what trying every way in order answers. */
  lemma {:induction false} DirectAgrees(w: World, file: string, name: string, seen: set<Key>, above: set<Key>, names: set<string>)
    requires Searchable(w, names, file, name) && above <= seen && DeadEnds(w, seen - above, seen)
    requires forall a :: a in seen ==> a.0 in w.files
    ensures FindExported(w, file, name, seen, names).0 == Direct(w, file, name, above, names)
    decreases Keys(w, names) - seen, 1, 0
  {
    var a := (file, name);
    if a in seen {
      assert (seen - above) + above == seen;
      DeadIsMissed(w, file, name, seen - above, above, names);
    } else if FindTypeDecl(w, file, name).None? {
      assert a in Keys(w, names);
      assert (seen + {a}) - (above + {a}) == seen - above;
      assert forall b :: DeadEnd(w, b, seen) ==> DeadEnd(w, b, seen + {a});
      DirectFromAgrees(w, file, name, 0, seen + {a}, above + {a}, names);
    }
  }

  lemma {:induction false} DirectFromAgrees(w: World, file: string, name: string, i: nat, seen: set<Key>, above: set<Key>, names: set<string>)
    requires Searchable(w, names, file, name) && i <= |w.files[file].exports|
    requires above <= seen && DeadEnds(w, seen - above, seen) && forall a :: a in seen ==> a.0 in w.files
    ensures FindInExports(w, file, name, i, seen, names).0 == DirectFrom(w, file, name, i, above, names)
    decreases Keys(w, names) - seen, 2, |w.files[file].exports| - i
  {
    if i < |w.files[file].exports| {
      var e := w.files[file].exports[i];
      var lookFor := LookFor(e, name);
      if lookFor.None? {
        DirectFromAgrees(w, file, name, i + 1, seen, above, names);
      } else if e.target in w.files {
        SearchStays(w, names, file, name, i);
        DirectAgrees(w, e.target, lookFor.value, seen, above, names);
        var found := FindExported(w, e.target, lookFor.value, seen, names);
        if found.0.Miss? {
          MissIsDead(w, e.target, lookFor.value, seen, names);
          DeadEndsJoin(w, above, seen, found.1);
          forall a | a in found.1 ensures a.0 in w.files {
            if a !in seen {
              assert DeadEnd(w, a, found.1);
            }
          }
          DirectFromAgrees(w, file, name, i + 1, found.1, above, names);
        }
      }
    }
  }

  // ---------- declForTypeName ----------

  function NamesFor(w: World, name: string): set<string> {
    SourceNames(w) + {name}
  }

  /** The declaration a type name refers to in `file`; a miss is a name out of reach. */
  function DeclForTypeName(w: World, file: string, name: string): (r: Search)
    requires file in w.files
    ensures r.Hit? ==> w.Holds(r.decl)
  {
    var local := FindTypeDecl(w, file, name);
    if local.Some? then Hit(local.value)
    else if name !in w.files[file].imports then Miss
    else
      var import_ := w.files[file].imports[name];
      if import_.source.OutOfReach? then Miss
      else if import_.source.file !in w.files then Broken
      else FindExported(w, import_.source.file, import_.imported, {}, NamesFor(w, import_.imported)).0
  }

  /** `name` is not declared in `file` but imported from file `f` under the name `imported`. */
  ghost predicate ImportsFrom(w: World, file: string, name: string, f: string, imported: string)
    requires file in w.files
  {
    (forall d :: !Declares(w, file, name, d)) && name in w.files[file].imports && w.files[file].imports[name] == Import(imported, Within(f))
  }

  /** What `name` refers to: its first declaration, or what the imported name is exported as by the file it is imported from. */
  ghost predicate Refers(w: World, file: string, name: string, s: Search)
    requires file in w.files
  {
    match s
    case Hit(d) =>
      Declares(w, file, name, d)
      || exists f, imported :: ImportsFrom(w, file, name, f, imported) && f in w.files
           && Direct(w, f, imported, {}, NamesFor(w, imported)) == s
    case Broken =>
      exists f, imported :: ImportsFrom(w, file, name, f, imported)
        && (f in w.files ==> Direct(w, f, imported, {}, NamesFor(w, imported)) == s)
    case Miss =>
      (forall d :: !Declares(w, file, name, d))
      && forall f, imported :: ImportsFrom(w, file, name, f, imported)
             ==> f in w.files && Direct(w, f, imported, {}, NamesFor(w, imported)) == s
  }

  /** A name comes to exactly what it refers to. */
  lemma DeclForTypeNameExact(w: World, file: string, name: string, s: Search)
    requires file in w.files
    ensures DeclForTypeName(w, file, name) == s <==> Refers(w, file, name, s)
  {
    hide Declares, Direct, FindExported;
    var local := FindTypeDecl(w, file, name);
    assert forall d :: local == Some(d) <==> Declares(w, file, name, d);
    if local.Some? {
      assert Declares(w, file, name, local.value);
      assert forall f, imported :: !ImportsFrom(w, file, name, f, imported);
    } else if name in w.files[file].imports && w.files[file].imports[name].source.Within? {
      var f, imported := w.files[file].imports[name].source.file, w.files[file].imports[name].imported;
      assert forall g, other :: ImportsFrom(w, file, name, g, other) <==> g == f && other == imported;
      if f in w.files {
        DirectAgrees(w, f, imported, {}, {}, NamesFor(w, imported));
      }
      hide ImportsFrom;
      assert ImportsFrom(w, file, name, f, imported);
    } else {
      assert forall f, imported :: !ImportsFrom(w, file, name, f, imported);
    }
  }

  /** The declaration behind a name, if the search comes to one. */
  function TargetOf(w: World, file: string, name: string): (r: Option<DeclId>)
    requires file in w.files
    ensures r.Some? ==> w.Holds(r.value)
  {
    match DeclForTypeName(w, file, name)
    case Hit(d) => Some(d)
    case Miss => None
    case Broken => None
  }
}
