/** How a config type name resolves to a declaration or an import: scripts/gen-config-catalog.ts, resolveTypeName. */
module TypeResolution {
  import opened Wrappers

  /** A package-local import, with or without the `.ts` extension the repository asks for, or one from a package. */
  datatype Specifier = Relative(extension: bool, target: string) | Bare(specifier: string)

  datatype Import = Import(imported: string, specifier: Specifier)

  /** A declaration, the type names it mentions in order, and its fields without documentation. */
  datatype Declaration = Declaration(name: string, mentions: seq<string>, undocumented: seq<string>)

  datatype File = File(declarations: seq<Declaration>, imports: map<string, Import>)

  datatype DeclId = DeclId(file: string, pos: nat)

  datatype TypeRef = TypeRef(name: string, imported: string, specifier: string)

  datatype Trouble = NeverEnds | Unreadable(file: string)

  datatype Violation =
    | NoExtension(file: string, target: string)
    | Aliased(file: string, name: string, imported: string)
    | Unknown(name: string, file: string)
    | ConfigTypeImported(name: string)
    | Ambiguous(name: string)
    | NoDocs(decl: DeclId, field: string)

  /** What a name comes to; `Crashed` is a stack overflow or a file that cannot be read. */
  datatype Resolution =
    | Declared(decl: DeclId)
    | Imported(ref: TypeRef)
    | Unresolved(violation: Option<Violation>)
    | Crashed(trouble: Trouble)

  datatype World = World(files: map<string, File>) {
    predicate Holds(d: DeclId) {
      d.file in files && d.pos < |files[d.file].declarations|
    }

    function At(d: DeclId): Declaration
      requires Holds(d)
    {
      files[d.file].declarations[d.pos]
    }
  }

  /** The position of the first declaration of `name` from position `i` on. */
  function FindFrom(declarations: seq<Declaration>, name: string, i: nat): (r: Option<nat>)
    requires i <= |declarations|
    ensures r.Some? ==> i <= r.value < |declarations| && declarations[r.value].name == name
    ensures r.Some? ==> forall k :: i <= k < r.value ==> declarations[k].name != name
    ensures r.None? <==> forall k :: i <= k < |declarations| ==> declarations[k].name != name
    decreases |declarations| - i
  {
    if i == |declarations| then None
    else if declarations[i].name == name then Some(i)
    else FindFrom(declarations, name, i + 1)
  }

  /** `d` is the first declaration of `name` in `file`. */
  ghost predicate Declares(w: World, file: string, name: string, d: DeclId) {
    && w.Holds(d) && d.file == file && w.At(d).name == name
    && forall k :: 0 <= k < d.pos ==> w.files[file].declarations[k].name != name
  }

  function FindDecl(w: World, file: string, name: string): (r: Option<DeclId>)
    requires file in w.files
    ensures r.Some? ==> w.Holds(r.value) && w.At(r.value).name == name && r.value.file == file
    ensures forall d :: r == Some(d) <==> Declares(w, file, name, d)
  {
    match FindFrom(w.files[file].declarations, name, 0)
    case None => None
    case Some(i) => Some(DeclId(file, i))
  }

  /** `visited` is the chain of files behind the call; meeting it again means the call never returns. */
  function ResolveFrom(w: World, file: string, name: string, visited: set<string>): (r: Resolution)
    requires file in w.files && file !in visited
    ensures r.Declared? ==> w.Holds(r.decl) && w.At(r.decl).name == name
    decreases w.files.Keys - visited
  {
    var here := FindDecl(w, file, name);
    if here.Some? then Declared(here.value)
    else if name !in w.files[file].imports then Unresolved(None)
    else
      var imp := w.files[file].imports[name];
      match imp.specifier
      case Bare(specifier) => Imported(TypeRef(name, imp.imported, specifier))
      case Relative(extension, target) =>
        if !extension then Unresolved(Some(NoExtension(file, target)))
        else if imp.imported != name then Unresolved(Some(Aliased(file, name, imp.imported)))
        else if target !in w.files then Crashed(Unreadable(target))
        else if target in visited + {file} then Crashed(NeverEnds)
        else
          assert file in w.files.Keys - visited;
          ResolveFrom(w, target, name, visited + {file})
  }

  function Resolve(w: World, file: string, name: string): (r: Resolution)
    requires file in w.files
    ensures r.Declared? ==> w.Holds(r.decl) && w.At(r.decl).name == name
  {
    ResolveFrom(w, file, name, {})
  }

  // ---------- the chain of imports ----------

  /** The file the search for `name` goes on in. */
  function Next(w: World, name: string, file: string): Option<string> {
    if file !in w.files || FindDecl(w, file, name).Some? || name !in w.files[file].imports then None
    else
      var imp := w.files[file].imports[name];
      if imp.specifier.Relative? && imp.specifier.extension && imp.imported == name && imp.specifier.target in w.files
      then Some(imp.specifier.target) else None
  }

  /** The file after `n` imports. */
  function After(w: World, name: string, file: string, n: nat): Option<string> {
    if n == 0 then Some(file)
    else
      match After(w, name, file, n - 1)
      case None => None
      case Some(f) => Next(w, name, f)
  }

  ghost predicate Endless(w: World, name: string, file: string) {
    forall n: nat :: After(w, name, file, n).Some?
  }

  lemma {:induction false} AfterPlus(w: World, name: string, file: string, m: nat, n: nat)
    requires After(w, name, file, m).Some?
    ensures After(w, name, file, m + n) == After(w, name, After(w, name, file, m).value, n)
  {
    if n > 0 {
      AfterPlus(w, name, file, m, n - 1);
    }
  }

  lemma {:induction false} AfterPrefix(w: World, name: string, file: string, m: nat, n: nat)
    requires m <= n && After(w, name, file, n).Some?
    ensures After(w, name, file, m).Some?
  {
    if m < n {
      AfterPrefix(w, name, file, m, n - 1);
    }
  }

  /** A chain that comes back never ends. */
  lemma {:induction false} CycleIsEndless(w: World, name: string, file: string, k: nat, n: nat)
    requires k > 0 && After(w, name, file, k) == Some(file)
    ensures After(w, name, file, n).Some?
    decreases n
  {
    if n <= k {
      AfterPrefix(w, name, file, n, k);
    } else {
      CycleIsEndless(w, name, file, k, n - k);
      AfterPlus(w, name, file, k, n - k);
    }
  }

  /** Every file of `visited` leads to `file`. */
  ghost predicate AllLeadTo(w: World, name: string, visited: set<string>, file: string) {
    forall v :: v in visited ==> LeadsTo(w, name, v, file)
  }

  ghost predicate LeadsTo(w: World, name: string, v: string, file: string) {
    exists k: nat :: After(w, name, v, k) == Some(file)
  }

  lemma LeadsFurther(w: World, name: string, visited: set<string>, file: string, target: string)
    requires AllLeadTo(w, name, visited, file) && Next(w, name, file) == Some(target)
    ensures AllLeadTo(w, name, visited + {file}, target)
  {
    assert After(w, name, file, 0) == Some(file);
    forall v | v in visited + {file} ensures LeadsTo(w, name, v, target) {
      assert LeadsTo(w, name, v, file);
      var k: nat :| After(w, name, v, k) == Some(file);
      assert After(w, name, v, k + 1) == Some(target);
    }
  }

  lemma EndlessNext(w: World, name: string, file: string, target: string)
    requires Next(w, name, file) == Some(target)
    ensures Endless(w, name, file) <==> Endless(w, name, target)
  {
    assert After(w, name, file, 0) == Some(file);
    assert After(w, name, file, 1) == Some(target);
    if Endless(w, name, target) {
      forall n: nat ensures After(w, name, file, n).Some? {
        if n > 0 {
          AfterPlus(w, name, file, 1, n - 1);
        }
      }
    }
    if Endless(w, name, file) {
      forall n: nat ensures After(w, name, target, n).Some? {
        AfterPlus(w, name, file, 1, n);
        assert After(w, name, file, 1 + n).Some?;
      }
    }
  }

  lemma CycleLength(w: World, name: string, visited: set<string>, file: string, target: string) returns (k: nat)
    requires AllLeadTo(w, name, visited, file) && Next(w, name, file) == Some(target) && target in visited + {file}
    ensures k > 0 && After(w, name, target, k) == Some(target)
  {
    assert After(w, name, file, 0) == Some(file);
    assert LeadsTo(w, name, target, file);
    var j: nat :| After(w, name, target, j) == Some(file);
    k := j + 1;
  }

  lemma {:induction false} EndlessFrom(w: World, file: string, name: string, visited: set<string>)
    requires file in w.files && file !in visited && AllLeadTo(w, name, visited, file)
    ensures ResolveFrom(w, file, name, visited) == Crashed(NeverEnds) <==> Endless(w, name, file)
    decreases w.files.Keys - visited
  {
    match Next(w, name, file) {
      case None =>
        assert After(w, name, file, 0) == Some(file);
        assert After(w, name, file, 1) == None;
      case Some(target) =>
        LeadsFurther(w, name, visited, file, target);
        EndlessNext(w, name, file, target);
        if target in visited + {file} {
          var k: nat := CycleLength(w, name, visited, file, target);
          forall n: nat ensures After(w, name, target, n).Some? {
            CycleIsEndless(w, name, target, k, n);
          }
        } else {
          EndlessFrom(w, target, name, visited + {file});
        }
    }
  }

  /** Resolution fails to return exactly when the imports lead on for ever. */
  lemma NeverEndsExactly(w: World, file: string, name: string)
    requires file in w.files
    ensures Resolve(w, file, name) == Crashed(NeverEnds) <==> Endless(w, name, file)
  {
    EndlessFrom(w, file, name, {});
  }

  /** The first `n + 1` files of an endless chain. */
  ghost function Files(w: World, name: string, file: string, n: nat): (fs: seq<string>)
    requires Endless(w, name, file)
    ensures |fs| == n + 1 && forall k :: 0 <= k <= n ==> After(w, name, file, k) == Some(fs[k])
  {
    if n == 0 then [file] else Files(w, name, file, n - 1) + [After(w, name, file, n).value]
  }

  lemma {:induction false} FilesAreThere(w: World, name: string, file: string, n: nat)
    requires file in w.files && After(w, name, file, n).Some?
    ensures After(w, name, file, n).value in w.files
  {
    if n > 0 {
      FilesAreThere(w, name, file, n - 1);
    }
  }

  lemma {:induction false} NoRepeatsFit(fs: seq<string>, all: set<string>)
    requires (forall i, j :: 0 <= i < j < |fs| ==> fs[i] != fs[j]) && forall f :: f in fs ==> f in all
    ensures |fs| <= |all|
  {
    if fs != [] {
      NoRepeatsFit(fs[1..], all - {fs[0]});
    }
  }

  /** Some file comes twice among the first entries of the chain, one more than there are files. */
  ghost predicate ComesBack(w: World, name: string, file: string) {
    exists i: nat, j: nat :: i < j <= |w.files| && After(w, name, file, i).Some? && After(w, name, file, i) == After(w, name, file, j)
  }

  lemma EndlessComesBack(w: World, file: string, name: string)
    requires file in w.files && Endless(w, name, file)
    ensures ComesBack(w, name, file)
  {
    hide Next, FindDecl;
    var n := |w.files|;
    var fs := Files(w, name, file, n);
    hide After, Files;
    forall f | f in fs ensures f in w.files.Keys {
      var k :| 0 <= k < |fs| && fs[k] == f;
      FilesAreThere(w, name, file, k);
    }
    assert |w.files.Keys| == n;
    if forall i, j :: 0 <= i < j < |fs| ==> fs[i] != fs[j] {
      NoRepeatsFit(fs, w.files.Keys);
    }
  }

  lemma RepeatIsEndless(w: World, name: string, file: string, i: nat, j: nat, k: nat)
    requires i < j && After(w, name, file, i).Some? && After(w, name, file, i) == After(w, name, file, j)
    ensures After(w, name, file, k).Some?
  {
    hide *;
    if k <= i {
      AfterPrefix(w, name, file, k, i);
    } else {
      var f := After(w, name, file, i).value;
      AfterPlus(w, name, file, i, j - i);
      CycleIsEndless(w, name, f, j - i, k - i);
      AfterPlus(w, name, file, i, k - i);
    }
  }

  /** The imports lead on for ever exactly when the chain comes back within as many steps as there are files. */
  lemma EndlessExactly(w: World, file: string, name: string)
    requires file in w.files
    ensures Endless(w, name, file) <==> ComesBack(w, name, file)
  {
    hide After;
    if Endless(w, name, file) {
      EndlessComesBack(w, file, name);
    }
    if ComesBack(w, name, file) {
      var i: nat, j: nat :| i < j <= |w.files| && After(w, name, file, i).Some? && After(w, name, file, i) == After(w, name, file, j);
      forall k: nat ensures After(w, name, file, k).Some? {
        RepeatIsEndless(w, name, file, i, j, k);
      }
    }
  }

  /** What the file at the end of the chain makes of the name. */
  function AtEnd(w: World, name: string, file: string): Resolution
    requires file in w.files && Next(w, name, file) == None
  {
    if FindDecl(w, file, name).Some? then Declared(FindDecl(w, file, name).value)
    else if name !in w.files[file].imports then Unresolved(None)
    else
      match w.files[file].imports[name]
      case Import(imported, Bare(specifier)) => Imported(TypeRef(name, imported, specifier))
      case Import(imported, Relative(extension, target)) =>
        if !extension then Unresolved(Some(NoExtension(file, target)))
        else if imported != name then Unresolved(Some(Aliased(file, name, imported)))
        else Crashed(Unreadable(target))
  }

  /** `last` is the file where the chain from `file` ends. */
  ghost predicate EndsIn(w: World, name: string, file: string, n: nat, last: string) {
    After(w, name, file, n) == Some(last) && last in w.files && Next(w, name, last) == None
  }

  lemma {:induction false} EndFrom(w: World, file: string, name: string, visited: set<string>, n: nat, last: string)
    requires file in w.files && file !in visited && AllLeadTo(w, name, visited, file)
    requires EndsIn(w, name, file, n, last)
    ensures ResolveFrom(w, file, name, visited) == AtEnd(w, name, last)
    decreases n
  {
    if n > 0 {
      AfterPrefix(w, name, file, 1, n);
      assert After(w, name, file, 0) == Some(file);
      var target := Next(w, name, file).value;
      AfterPlus(w, name, file, 1, n - 1);
      LeadsFurther(w, name, visited, file, target);
      assert After(w, name, target, n) == None;
      if target in visited + {file} {
        var k: nat := CycleLength(w, name, visited, file, target);
        CycleIsEndless(w, name, target, k, n);
        assert false;
      } else {
        EndFrom(w, target, name, visited + {file}, n - 1, last);
      }
    }
  }

  /** Where the chain of local imports ends decides, whatever lies between. */
  lemma ChainEndDecides(w: World, file: string, name: string, n: nat, last: string)
    requires file in w.files && EndsIn(w, name, file, n, last)
    ensures Resolve(w, file, name) == AtEnd(w, name, last)
  {
    EndFrom(w, file, name, {}, n, last);
  }

  lemma {:induction false} DeclaredAt(w: World, file: string, name: string, visited: set<string>) returns (n: nat)
    requires file in w.files && file !in visited && ResolveFrom(w, file, name, visited).Declared?
    ensures After(w, name, file, n) == Some(ResolveFrom(w, file, name, visited).decl.file)
    ensures FindDecl(w, ResolveFrom(w, file, name, visited).decl.file, name) == Some(ResolveFrom(w, file, name, visited).decl)
    decreases w.files.Keys - visited
  {
    n := 0;
    if FindDecl(w, file, name).None? {
      var target := w.files[file].imports[name].specifier.target;
      var m := DeclaredAt(w, target, name, visited + {file});
      assert After(w, name, file, 0) == Some(file);
      assert After(w, name, file, 1) == Some(target);
      AfterPlus(w, name, file, 1, m);
      n := 1 + m;
    }
  }

  /** File `f` does not declare `name` and imports it, under that name and with the extension, from file `g`. */
  ghost predicate Hands(w: World, name: string, f: string, g: string) {
    && f in w.files && (forall d :: !Declares(w, f, name, d)) && g in w.files
    && name in w.files[f].imports && w.files[f].imports[name] == Import(name, Relative(true, g))
  }

  ghost predicate ImportChain(w: World, name: string, p: seq<string>) {
    p != [] && forall i :: 0 < i < |p| ==> Hands(w, name, p[i - 1], p[i])
  }

  /** A chain of local imports leads from `file` to the file of `d`, which declares the name there first. */
  ghost predicate ChainEndsAt(w: World, file: string, name: string, d: DeclId) {
    exists p :: ImportChain(w, name, p) && p[0] == file && Declares(w, p[|p| - 1], name, d)
  }

  lemma HandsExact(w: World, name: string, f: string, g: string)
    ensures Hands(w, name, f, g) <==> Next(w, name, f) == Some(g)
  {
    hide Declares;
    if f in w.files {
      var r := FindDecl(w, f, name);
      assert r.Some? ==> Declares(w, f, name, r.value);
    }
  }

  /** The files of a chain, one after another. */
  lemma {:induction false} ChainFrom(w: World, name: string, file: string, n: nat) returns (p: seq<string>)
    requires After(w, name, file, n).Some?
    ensures |p| == n + 1 && ImportChain(w, name, p) && p[0] == file && Some(p[n]) == After(w, name, file, n)
  {
    if n == 0 {
      p := [file];
    } else {
      var q := ChainFrom(w, name, file, n - 1);
      hide Next, Hands;
      HandsExact(w, name, q[n - 1], After(w, name, file, n).value);
      p := q + [After(w, name, file, n).value];
      forall i | 0 < i < |p| ensures Hands(w, name, p[i - 1], p[i]) {
        assert i < n ==> p[i - 1] == q[i - 1] && p[i] == q[i];
      }
    }
  }

  lemma {:induction false} AlongChain(w: World, name: string, p: seq<string>, n: nat)
    requires ImportChain(w, name, p) && n < |p|
    ensures After(w, name, p[0], n) == Some(p[n])
  {
    if n > 0 {
      AlongChain(w, name, p, n - 1);
      hide Next, Hands;
      HandsExact(w, name, p[n - 1], p[n]);
    }
  }

  /** A name resolves to a declaration exactly when a chain of unaliased local imports ends in the file that declares it, at its first declaration. */
  lemma DeclaredExactly(w: World, file: string, name: string, d: DeclId)
    requires file in w.files
    ensures Resolve(w, file, name) == Declared(d) <==> ChainEndsAt(w, file, name, d)
  {
    if Resolve(w, file, name) == Declared(d) {
      var n := DeclaredAt(w, file, name, {});
      var p := ChainFrom(w, name, file, n);
      assert Declares(w, p[|p| - 1], name, d);
    }
    if ChainEndsAt(w, file, name, d) {
      var p :| ImportChain(w, name, p) && p[0] == file && Declares(w, p[|p| - 1], name, d);
      AlongChain(w, name, p, |p| - 1);
      assert FindDecl(w, d.file, name) == Some(d);
      EndFrom(w, file, name, {}, |p| - 1, d.file);
    }
  }
}
