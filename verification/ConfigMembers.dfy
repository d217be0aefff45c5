/**
 * What the declarations of a config type declare, by the names members have, and when the answers
 * of lookupPath agree with it: scripts/gen-config-catalog.ts. The walk compares a key with the
 * spelling of property signatures; a declaration may also quote a name, use a method, an accessor
 * or an index signature, or be continued by another interface of its name.
 */
module ConfigMembers {
  import opened Wrappers
  import opened ConfigTypes
  import opened ConfigPaths

  // ---------- what is declared ----------

  predicate Carries(m: Member, name: string) {
    (m.Property? || m.OtherMember?) && m.name.Key() == Some(name)
  }

  /** The first member of that name, whatever its form or spelling. */
  function MemberNamed(members: seq<Member>, name: string): (r: Option<Member>)
    ensures r.Some? ==> r.value in members && Carries(r.value, name)
    ensures r.None? ==> forall m :: m in members ==> !Carries(m, name)
  {
    if members == [] then None
    else if Carries(members[0], name) then Some(members[0])
    else MemberNamed(members[1..], name)
  }

  /** The type an index signature gives to every name. */
  function Indexed(members: seq<Member>): Option<TypeNode> {
    if members == [] then None
    else if members[0].IndexSignature? then Some(members[0].values)
    else Indexed(members[1..])
  }

  /** The members of all interfaces of that name in a file: they are one interface. */
  function MembersOf(declarations: seq<Declaration>, name: string): seq<Member> {
    if declarations == [] then []
    else
      var d := declarations[0];
      (if d.Interface? && d.name == name then d.members else []) + MembersOf(declarations[1..], name)
  }

  function HeritageOf(declarations: seq<Declaration>, name: string): seq<Heritage> {
    if declarations == [] then []
    else
      var d := declarations[0];
      (if d.Interface? && d.name == name then d.heritage else []) + HeritageOf(declarations[1..], name)
  }

  function Body(w: World, id: DeclId): seq<Member>
    requires w.Holds(id)
  {
    MembersOf(w.files[id.file].declarations, w.At(id).name)
  }

  function Bases(w: World, id: DeclId): seq<Heritage>
    requires w.Holds(id)
  {
    HeritageOf(w.files[id.file].declarations, w.At(id).name)
  }

  /** The file gives the name a meaning of its own. */
  predicate Own(w: World, file: string, name: string)
    requires file in w.files
  {
    FindTypeDecl(w, file, name).Some? || name in w.files[file].imports
  }

  /** The global wrapper or array type of that name. */
  predicate Builtin(w: World, file: string, name: string, qualified: bool)
    requires file in w.files
  {
    !qualified && !Own(w, file, name)
  }

  /** The utility types that have the members of their argument. */
  predicate KeepsMembers(name: string) {
    name == "Partial" || name == "Required" || name == "Readonly" || name == "NonNullable"
  }

  predicate IsList(name: string) {
    name == "Array" || name == "ReadonlyArray"
  }

  /**
   * The type has a member there: its own under that name, else one of a base, else by an index
   * signature; every branch of a union has it, some part of an intersection; `keyof` has none.
   */
  least predicate Declared[nat](w: World, file: string, node: Node, steps: seq<PathStep>)
    requires file in w.files && Known(w, node)
  {
    steps == [] ||
    match node
    case OfDeclaration(id) =>
      (match w.At(id)
       case Interface(_, _, _) =>
         steps[0].MemberStep? &&
         (match MemberNamed(Body(w, id), steps[0].member)
          case Some(m) =>
            |steps| == 1 || (m.type_.Some? && Declared(w, id.file, OfType(m.type_.value), steps[1..]))
          case None =>
            || (exists i :: 0 <= i < |Bases(w, id)| && BaseOf(w, id.file, Bases(w, id)[i]).Hit?
                  && Declared(w, BaseOf(w, id.file, Bases(w, id)[i]).decl.file, OfDeclaration(BaseOf(w, id.file, Bases(w, id)[i]).decl), steps))
            || (Indexed(Body(w, id)).Some? && Declared(w, id.file, OfType(Indexed(Body(w, id)).value), steps[1..])))
       case Alias(_, t) => Declared(w, id.file, OfType(t), steps)
       case Enum(_) => false)
    case OfType(t) =>
      (match t
       case TypeLiteral(members) =>
         steps[0].MemberStep? &&
         (match MemberNamed(members, steps[0].member)
          case Some(m) => |steps| == 1 || (m.type_.Some? && Declared(w, file, OfType(m.type_.value), steps[1..]))
          case None => Indexed(members).Some? && Declared(w, file, OfType(Indexed(members).value), steps[1..]))
       case Parenthesized(inner) => Declared(w, file, OfType(inner), steps)
       case Intersection(types) => exists i :: 0 <= i < |types| && Declared(w, file, OfType(types[i]), steps)
       case Union(types) => forall i :: 0 <= i < |types| ==> Declared(w, file, OfType(types[i]), steps)
       case ArrayType(element) => steps[0].ArrayStep? && Declared(w, file, OfType(element), steps[1..])
       case TypeOperator(operator, inner) => operator == Readonly && Declared(w, file, OfType(inner), steps)
       case IndexedAccess(whole, index) => index.Some? && Declared(w, file, OfType(whole), [MemberStep(index.value)] + steps)
       case Reference(name, qualified, arguments) =>
         if KeepsMembers(name) && arguments != [] && Builtin(w, file, name, qualified) then Declared(w, file, OfType(arguments[0]), steps)
         else if IsList(name) && arguments != [] && Builtin(w, file, name, qualified) then
           steps[0].ArrayStep? && Declared(w, file, OfType(arguments[0]), steps[1..])
         else
           !qualified && TargetOf(w, file, name).Some?
           && Declared(w, TargetOf(w, file, name).value.file, OfDeclaration(TargetOf(w, file, name).value), steps)
       case OtherType => false)
  }

  // ---------- where the walk may read something else ----------

  /** The property of that spelling is the member of that name. */
  predicate PlainList(members: seq<Member>, body: seq<Member>, name: string) {
    && FirstProperty(members, name) == MemberNamed(body, name)
    && (MemberNamed(body, name).None? ==> Indexed(body).None?)
  }

  /** The walk reads the node differently from what it declares, as far as that can make `answer` wrong. */
  ghost predicate Doubtful(w: World, file: string, node: Node, steps: seq<PathStep>, answer: PathLookup)
    requires file in w.files && Known(w, node)
  {
    steps != [] &&
    match node
    case OfDeclaration(id) =>
      w.At(id).Interface? && steps[0].MemberStep?
      && !(PlainList(w.At(id).members, Body(w, id), steps[0].member)
           && (FirstProperty(w.At(id).members, steps[0].member).None? ==> Bases(w, id) == w.At(id).heritage))
    case OfType(t) =>
      (match t
       case TypeLiteral(members) => steps[0].MemberStep? && !PlainList(members, members, steps[0].member)
       case TypeOperator(operator, _) => answer == Found && operator != Readonly
       case Reference(name, qualified, arguments) =>
         (PassThrough(name) || ArrayName(name)) && arguments != [] && !Builtin(w, file, name, qualified)
       case _ => false)
  }

  /** If this is the answer, it is true. */
  ghost predicate Right(w: World, file: string, node: Node, steps: seq<PathStep>, answer: PathLookup, r: Walked<PathLookup>)
    requires file in w.files && Known(w, node)
  {
    r.Done? && r.value == answer ==> (Declared(w, file, node, steps) <==> answer == Found)
  }

  // ---------- the types that occur in a file ----------

  function MemberTypes(members: seq<Member>): (r: seq<TypeNode>)
    ensures forall m :: m in members && (m.Property? || m.OtherMember?) && m.type_.Some? ==> m.type_.value in r
  {
    if members == [] then []
    else
      var m := members[0];
      (match m
       case Property(_, Some(t)) => [t]
       case OtherMember(_, Some(t)) => [t]
       case IndexSignature(t) => [t]
       case _ => []) + MemberTypes(members[1..])
  }

  function Children(t: TypeNode): seq<TypeNode> {
    match t
    case TypeLiteral(members) => MemberTypes(members)
    case Parenthesized(inner) => [inner]
    case Intersection(types) => types
    case Union(types) => types
    case ArrayType(element) => [element]
    case TypeOperator(_, inner) => [inner]
    case IndexedAccess(whole, _) => [whole]
    case Reference(_, _, arguments) => arguments
    case OtherType => []
  }

  function Roots(d: Declaration): seq<TypeNode> {
    match d
    case Interface(_, members, _) => MemberTypes(members)
    case Alias(_, t) => [t]
    case Enum(_) => []
  }

  /** The type stands somewhere in a declaration of the file. */
  least predicate Occurs(w: World, file: string, t: TypeNode)
    requires file in w.files
  {
    || (exists id :: w.Holds(id) && id.file == file && t in Roots(w.At(id)))
    || (exists parent :: Occurs(w, file, parent) && t in Children(parent))
  }

  // ---------- the answers are true everywhere if and only if they are where it is doubtful ----------

  /** On every declaration and every type in one, for every path, `seen` set and allowance. */
  ghost predicate NeverWrong(w: World, answer: PathLookup) {
    && (forall id, steps, seen, fuel {:trigger LookupDeclaration(w, id, steps, seen, fuel)} ::
          w.Holds(id) ==> Right(w, id.file, OfDeclaration(id), steps, answer, LookupDeclaration(w, id, steps, seen, fuel)))
    && (forall file, t, steps, seen, fuel {:trigger LookupType(w, file, t, steps, seen, fuel)} ::
          file in w.files && Occurs(w, file, t) ==> Right(w, file, OfType(t), steps, answer, LookupType(w, file, t, steps, seen, fuel)))
  }

  ghost predicate RightWhereDoubtful(w: World, answer: PathLookup) {
    && (forall id, steps, seen, fuel {:trigger LookupDeclaration(w, id, steps, seen, fuel)} ::
          w.Holds(id) && Doubtful(w, id.file, OfDeclaration(id), steps, answer)
          ==> Right(w, id.file, OfDeclaration(id), steps, answer, LookupDeclaration(w, id, steps, seen, fuel)))
    && (forall file, t, steps, seen, fuel {:trigger LookupType(w, file, t, steps, seen, fuel)} ::
          file in w.files && Occurs(w, file, t) && Doubtful(w, file, OfType(t), steps, answer)
          ==> Right(w, file, OfType(t), steps, answer, LookupType(w, file, t, steps, seen, fuel)))
  }

  lemma DeclarationWhereDoubtful(w: World, id: DeclId, steps: seq<PathStep>, seen: set<SeenKey>, fuel: nat, answer: PathLookup)
    requires w.Holds(id) && RightWhereDoubtful(w, answer) && Doubtful(w, id.file, OfDeclaration(id), steps, answer)
    ensures Right(w, id.file, OfDeclaration(id), steps, answer, LookupDeclaration(w, id, steps, seen, fuel))
  {
  }

  lemma TypeWhereDoubtful(w: World, file: string, t: TypeNode, steps: seq<PathStep>, seen: set<SeenKey>, fuel: nat, answer: PathLookup)
    requires file in w.files && Occurs(w, file, t) && RightWhereDoubtful(w, answer) && Doubtful(w, file, OfType(t), steps, answer)
    ensures Right(w, file, OfType(t), steps, answer, LookupType(w, file, t, steps, seen, fuel))
  {
  }

  lemma ChildOccurs(w: World, file: string, t: TypeNode, child: TypeNode)
    requires file in w.files && Occurs(w, file, t) && child in Children(t)
    ensures Occurs(w, file, child)
  {
  }

  lemma RootOccurs(w: World, id: DeclId, t: TypeNode)
    requires w.Holds(id) && t in Roots(w.At(id))
    ensures Occurs(w, id.file, t)
  {
  }

  /** The answer for one base is true. */
  ghost predicate BaseRight(w: World, file: string, base: Heritage, steps: seq<PathStep>, answer: PathLookup, r: PathLookup)
    requires file in w.files
  {
    match BaseOf(w, file, base)
    case Hit(id) => Right(w, id.file, OfDeclaration(id), steps, answer, Done(r, {}, false))
    case Miss => r == Unknown
    case Broken => true
  }

  ghost predicate BasesRight(w: World, file: string, heritage: seq<Heritage>, i: nat, steps: seq<PathStep>, answer: PathLookup, all: seq<PathLookup>)
    requires file in w.files && i <= |heritage|
  {
    && |all| == |heritage| - i
    && forall k :: i <= k < |heritage| ==> Resolved(w, file, heritage[k]) && BaseRight(w, file, heritage[k], steps, answer, all[k - i])
  }

  lemma HeritageRight(w: World, id: DeclId, steps: seq<PathStep>, answer: PathLookup, all: seq<PathLookup>)
    requires w.Holds(id) && w.At(id).Interface? && steps != [] && steps[0].MemberStep? && answer != Unknown
    requires FirstProperty(w.At(id).members, steps[0].member).None? && !Doubtful(w, id.file, OfDeclaration(id), steps, answer)
    requires BasesRight(w, id.file, w.At(id).heritage, 0, steps, answer, all)
    ensures Right(w, id.file, OfDeclaration(id), steps, answer, Done(Combine(all), {}, false))
  {
    var heritage := w.At(id).heritage;
    assert Bases(w, id) == heritage;
    if answer == Found && Found in all {
      var k :| 0 <= k < |all| && all[k] == Found;
      assert BaseRight(w, id.file, heritage[k], steps, answer, all[k]);
      assert BaseOf(w, id.file, Bases(w, id)[k]).Hit?;
    }
    if answer == Missing && Combine(all) == Missing {
      forall k | 0 <= k < |heritage| && BaseOf(w, id.file, heritage[k]).Hit?
        ensures !Declared(w, BaseOf(w, id.file, heritage[k]).decl.file, OfDeclaration(BaseOf(w, id.file, heritage[k]).decl), steps)
      {
        assert BaseRight(w, id.file, heritage[k], steps, answer, all[k]);
      }
    }
  }

  lemma {:induction false} DeclarationRight(w: World, id: DeclId, steps: seq<PathStep>, seen: set<SeenKey>, fuel: nat, answer: PathLookup)
    requires w.Holds(id) && RightWhereDoubtful(w, answer) && answer != Unknown
    ensures Right(w, id.file, OfDeclaration(id), steps, answer, LookupDeclaration(w, id, steps, seen, fuel))
    decreases fuel, Unseen(w, seen, |steps| + fuel), 0
  {
    hide RightWhereDoubtful;
    if Doubtful(w, id.file, OfDeclaration(id), steps, answer) {
      DeclarationWhereDoubtful(w, id, steps, seen, fuel, answer);
    } else if steps != [] && (id, |steps|) !in seen {
      var seen' := seen + {(id, |steps|)};
      SeeMore(w, id, steps, seen, fuel);
      match w.At(id)
      case Enum(_) =>
      case Alias(_, t) =>
        RootOccurs(w, id, t);
        TypeRight(w, id.file, t, steps, seen', fuel, answer);
      case Interface(_, members, heritage) =>
        if steps[0].MemberStep? {
          var m := FirstProperty(members, steps[0].member);
          if m.Some? && |steps| > 1 && m.value.type_.Some? {
            UnseenShrinks(w, seen', |steps| - 1 + fuel, |steps| + fuel);
            RootOccurs(w, id, m.value.type_.value);
            TypeRight(w, id.file, m.value.type_.value, steps[1..], seen', fuel, answer);
          }
          if m.None? && LookupBases(w, id.file, heritage, 0, steps, seen', fuel).Done? {
            InheritedRight(w, id, steps, seen', fuel, answer);
          }
        }
    }
  }

  lemma {:induction false} InheritedRight(w: World, id: DeclId, steps: seq<PathStep>, seen: set<SeenKey>, fuel: nat, answer: PathLookup)
    requires w.Holds(id) && w.At(id).Interface? && steps != [] && steps[0].MemberStep?
    requires RightWhereDoubtful(w, answer) && answer != Unknown
    requires FirstProperty(w.At(id).members, steps[0].member).None? && !Doubtful(w, id.file, OfDeclaration(id), steps, answer)
    requires LookupBases(w, id.file, w.At(id).heritage, 0, steps, seen, fuel).Done?
    ensures Right(w, id.file, OfDeclaration(id), steps, answer, Done(Combine(LookupBases(w, id.file, w.At(id).heritage, 0, steps, seen, fuel).value), {}, false))
    decreases fuel, Unseen(w, seen, |steps| + fuel), 3
  {
    hide *;
    HoldsFile(w, id);
    BasesAreRight(w, id.file, w.At(id).heritage, 0, steps, seen, fuel, answer);
    HeritageRight(w, id, steps, answer, LookupBases(w, id.file, w.At(id).heritage, 0, steps, seen, fuel).value);
  }

  lemma {:induction false} TypeRight(w: World, file: string, t: TypeNode, steps: seq<PathStep>, seen: set<SeenKey>, fuel: nat, answer: PathLookup)
    requires file in w.files && Occurs(w, file, t) && RightWhereDoubtful(w, answer) && answer != Unknown
    ensures Right(w, file, OfType(t), steps, answer, LookupType(w, file, t, steps, seen, fuel))
    decreases fuel, Unseen(w, seen, |steps| + fuel), 1, t, 1, 0
  {
    hide RightWhereDoubtful, Occurs;
    if Doubtful(w, file, OfType(t), steps, answer) {
      TypeWhereDoubtful(w, file, t, steps, seen, fuel, answer);
    } else if steps != [] {
      UnseenShrinks(w, seen, |steps| - 1 + fuel, |steps| + fuel);
      match t
      case TypeLiteral(members) =>
        if steps[0].MemberStep? {
          var m := FirstProperty(members, steps[0].member);
          if m.Some? && |steps| > 1 && m.value.type_.Some? {
            assert m.value.type_.value < t;
            ChildOccurs(w, file, t, m.value.type_.value);
            TypeRight(w, file, m.value.type_.value, steps[1..], seen, fuel, answer);
          }
        }
      case Parenthesized(inner) =>
        ChildOccurs(w, file, t, inner);
        TypeRight(w, file, inner, steps, seen, fuel, answer);
      case Intersection(types) => PartsRight(w, file, t, steps, seen, fuel, answer);
      case Union(types) => PartsRight(w, file, t, steps, seen, fuel, answer);
      case ArrayType(element) =>
        if steps[0].ArrayStep? {
          ChildOccurs(w, file, t, element);
          TypeRight(w, file, element, steps[1..], seen, fuel, answer);
        }
      case TypeOperator(_, inner) =>
        ChildOccurs(w, file, t, inner);
        TypeRight(w, file, inner, steps, seen, fuel, answer);
      case IndexedAccess(whole, index) =>
        if index.Some? && fuel > 0 {
          ChildOccurs(w, file, t, whole);
          TypeRight(w, file, whole, [MemberStep(index.value)] + steps, seen, fuel - 1, answer);
        }
      case Reference(name, qualified, arguments) =>
        if (PassThrough(name) || ArrayName(name)) && arguments != [] {
          ChildOccurs(w, file, t, arguments[0]);
          if PassThrough(name) {
            TypeRight(w, file, arguments[0], steps, seen, fuel, answer);
          } else if steps[0].ArrayStep? {
            TypeRight(w, file, arguments[0], steps[1..], seen, fuel, answer);
          }
        } else if !qualified && TargetOf(w, file, name).Some? {
          DeclarationRight(w, TargetOf(w, file, name).value, steps, seen, fuel, answer);
        }
      case OtherType =>
    }
  }

  lemma {:induction false} PartsRight(w: World, file: string, t: TypeNode, steps: seq<PathStep>, seen: set<SeenKey>, fuel: nat, answer: PathLookup)
    requires file in w.files && Occurs(w, file, t) && RightWhereDoubtful(w, answer) && answer != Unknown
    requires steps != [] && (t.Intersection? || t.Union?)
    ensures Right(w, file, OfType(t), steps, answer, LookupType(w, file, t, steps, seen, fuel))
    decreases fuel, Unseen(w, seen, |steps| + fuel), 1, t, 0, |t.types| + 1
  {
    hide *;
    PartsLookup(w, file, t, steps, seen, fuel);
    if LookupType(w, file, t, steps, seen, fuel).Done? {
      AllAreRight(w, file, t, t.types, 0, steps, seen, fuel, answer);
      PartsMakeRight(w, file, t, steps, answer, LookupAll(w, file, t, t.types, 0, steps, seen, fuel).value);
    }
    RightByValue(w, file, t, steps, answer, LookupType(w, file, t, steps, seen, fuel));
  }

  lemma PartsLookup(w: World, file: string, t: TypeNode, steps: seq<PathStep>, seen: set<SeenKey>, fuel: nat)
    requires file in w.files && steps != [] && (t.Intersection? || t.Union?)
    ensures var r, all := LookupType(w, file, t, steps, seen, fuel), LookupAll(w, file, t, t.types, 0, steps, seen, fuel);
      (r.Done? <==> all.Done?) && (r.Done? ==> r.value == if t.Intersection? then Combine(all.value) else Agree(all.value))
  {
  }

  lemma RightByValue(w: World, file: string, t: TypeNode, steps: seq<PathStep>, answer: PathLookup, r: Walked<PathLookup>)
    requires file in w.files && (r.Done? ==> Right(w, file, OfType(t), steps, answer, Done(r.value, {}, false)))
    ensures Right(w, file, OfType(t), steps, answer, r)
  {
  }

  ghost predicate AllRight(w: World, file: string, types: seq<TypeNode>, i: nat, steps: seq<PathStep>, answer: PathLookup, all: seq<PathLookup>)
    requires file in w.files && i <= |types|
  {
    |all| == |types| - i && forall k :: i <= k < |types| ==> Right(w, file, OfType(types[k]), steps, answer, Done(all[k - i], {}, false))
  }

  lemma PartsMakeRight(w: World, file: string, t: TypeNode, steps: seq<PathStep>, answer: PathLookup, all: seq<PathLookup>)
    requires file in w.files && steps != [] && (t.Intersection? || t.Union?) && answer != Unknown
    requires AllRight(w, file, t.types, 0, steps, answer, all)
    ensures Right(w, file, OfType(t), steps, answer, Done(if t.Intersection? then Combine(all) else Agree(all), {}, false))
  {
    assert forall k :: 0 <= k < |all| ==> all[k] in all && Right(w, file, OfType(t.types[k]), steps, answer, Done(all[k], {}, false));
    if t.Intersection? && answer == Found && Found in all {
      var k :| 0 <= k < |all| && all[k] == Found;
      assert Declared(w, file, OfType(t.types[k]), steps);
    }
    if t.Union? && answer == Missing && Agree(all) == Missing {
      assert all[0] == Missing;
    }
  }

  lemma {:induction false} AllAreRight(w: World, file: string, t: TypeNode, types: seq<TypeNode>, i: nat, steps: seq<PathStep>, seen: set<SeenKey>, fuel: nat, answer: PathLookup)
    requires file in w.files && i <= |types| && Occurs(w, file, t) && RightWhereDoubtful(w, answer) && answer != Unknown
    requires (t.Intersection? || t.Union?) && t.types == types
    requires LookupAll(w, file, t, types, i, steps, seen, fuel).Done?
    ensures AllRight(w, file, types, i, steps, answer, LookupAll(w, file, t, types, i, steps, seen, fuel).value)
    decreases fuel, Unseen(w, seen, |steps| + fuel), 1, t, 0, |types| - i
  {
    hide RightWhereDoubtful, Occurs, Right;
    if i < |types| {
      var first := LookupType(w, file, types[i], steps, seen, fuel);
      ChildOccurs(w, file, t, types[i]);
      TypeRight(w, file, types[i], steps, seen, fuel, answer);
      UnseenAfter(w, seen, first.seen, |steps| + fuel);
      AllAreRight(w, file, t, types, i + 1, steps, first.seen, fuel, answer);
      RightFirst(w, file, types, i, steps, answer, first, LookupAll(w, file, t, types, i + 1, steps, first.seen, fuel).value);
    }
  }

  lemma RightFirst(w: World, file: string, types: seq<TypeNode>, i: nat, steps: seq<PathStep>, answer: PathLookup, first: Walked<PathLookup>, rest: seq<PathLookup>)
    requires file in w.files && i < |types| && first.Done?
    requires Right(w, file, OfType(types[i]), steps, answer, first) && AllRight(w, file, types, i + 1, steps, answer, rest)
    ensures AllRight(w, file, types, i, steps, answer, [first.value] + rest)
  {
    assert Right(w, file, OfType(types[i]), steps, answer, Done(first.value, {}, false));
    hide Right;
  }

  lemma {:induction false} BasesAreRight(w: World, file: string, heritage: seq<Heritage>, i: nat, steps: seq<PathStep>, seen: set<SeenKey>, fuel: nat, answer: PathLookup)
    requires file in w.files && i <= |heritage| && RightWhereDoubtful(w, answer) && answer != Unknown
    requires LookupBases(w, file, heritage, i, steps, seen, fuel).Done?
    ensures BasesRight(w, file, heritage, i, steps, answer, LookupBases(w, file, heritage, i, steps, seen, fuel).value)
    decreases fuel, Unseen(w, seen, |steps| + fuel), 2, |heritage| - i
  {
    hide RightWhereDoubtful, LookupDeclaration;
    if i < |heritage| {
      var first := LookupBase(w, file, heritage[i], steps, seen, fuel);
      BaseIsRight(w, file, heritage[i], steps, seen, fuel, answer);
      UnseenAfter(w, seen, first.seen, |steps| + fuel);
      BasesAreRight(w, file, heritage, i + 1, steps, first.seen, fuel, answer);
      hide BaseRight, Resolved, LookupBase;
    }
  }

  lemma {:induction false} BaseIsRight(w: World, file: string, base: Heritage, steps: seq<PathStep>, seen: set<SeenKey>, fuel: nat, answer: PathLookup)
    requires file in w.files && RightWhereDoubtful(w, answer) && answer != Unknown
    requires LookupBase(w, file, base, steps, seen, fuel).Done?
    ensures Resolved(w, file, base)
    ensures BaseRight(w, file, base, steps, answer, LookupBase(w, file, base, steps, seen, fuel).value)
    decreases fuel, Unseen(w, seen, |steps| + fuel), 1
  {
    hide RightWhereDoubtful, LookupDeclaration;
    if BaseOf(w, file, base).Hit? {
      DeclarationRight(w, BaseOf(w, file, base).decl, steps, seen, fuel, answer);
    }
  }

  /**
   * Only doubtful nodes matter: the answer "found", and likewise "missing", is true everywhere, for
   * every path and whatever was seen, as soon as it is true at the lists whose spelling differs from
   * the names, at interfaces continued elsewhere, at operators other than `readonly` and at wrappers
   * the file redefines.
   */
  lemma DoubtfulDecides(w: World, answer: PathLookup)
    requires answer != Unknown
    ensures NeverWrong(w, answer) <==> RightWhereDoubtful(w, answer)
  {
    if RightWhereDoubtful(w, answer) {
      forall id, steps, seen, fuel: nat | w.Holds(id)
        ensures Right(w, id.file, OfDeclaration(id), steps, answer, LookupDeclaration(w, id, steps, seen, fuel))
      {
        DeclarationRight(w, id, steps, seen, fuel, answer);
      }
      forall file, t, steps, seen, fuel: nat | file in w.files && Occurs(w, file, t)
        ensures Right(w, file, OfType(t), steps, answer, LookupType(w, file, t, steps, seen, fuel))
      {
        TypeRight(w, file, t, steps, seen, fuel, answer);
      }
    }
  }

  // ---------- when "missing" is never wrong ----------

  /** Something in the body has that name, but no property of the list spells it. */
  predicate Blind(members: seq<Member>, body: seq<Member>, name: string) {
    FirstProperty(members, name).None? && (MemberNamed(body, name).Some? || Indexed(body).Some?)
  }

  /** At a type literal with a blind list the answer is wrong, whatever was seen. */
  lemma BlindLiteralIsWrong(w: World, file: string, members: seq<Member>, name: string, seen: set<SeenKey>, fuel: nat)
    requires file in w.files && Blind(members, members, name)
    ensures LookupType(w, file, TypeLiteral(members), [MemberStep(name)], seen, fuel) == Done(Missing, seen, false)
    ensures Declared(w, file, OfType(TypeLiteral(members)), [MemberStep(name)])
  {
    EmptyPath(w, file);
  }

  lemma EmptyPath(w: World, file: string)
    requires file in w.files
    ensures forall t :: Declared(w, file, OfType(t), [])
  {
  }

  /** So it is at an interface with a blind list that extends nothing; one with bases is wrong whenever they miss the name. */
  lemma BlindInterfaceIsWrong(w: World, id: DeclId, name: string, seen: set<SeenKey>, fuel: nat)
    requires w.Holds(id) && w.At(id).Interface? && Blind(w.At(id).members, Body(w, id), name)
    ensures w.At(id).heritage == [] && (id, 1) !in seen
      ==> LookupDeclaration(w, id, [MemberStep(name)], seen, fuel) == Done(Missing, seen + {(id, 1)}, false)
    ensures Declared(w, id.file, OfDeclaration(id), [MemberStep(name)])
  {
    EmptyPath(w, id.file);
    if w.At(id).heritage == [] && (id, 1) !in seen {
      assert LookupBases(w, id.file, [], 0, [MemberStep(name)], seen + {(id, 1)}, fuel) == Done([], seen + {(id, 1)}, false);
    }
  }

  /** Nothing in the body has that name. */
  predicate Nameless(body: seq<Member>, name: string) {
    MemberNamed(body, name).None? && Indexed(body).None?
  }

  /** A name that something has is spelled by that member first, or by no property at all. */
  ghost predicate OnceSpelled(members: seq<Member>, body: seq<Member>) {
    forall name :: PlainList(members, body, name) || Blind(members, body, name) || Nameless(body, name)
  }

  ghost predicate SeesAll(members: seq<Member>, body: seq<Member>) {
    forall name :: !Blind(members, body, name)
  }

  ghost predicate AllPlain(members: seq<Member>, body: seq<Member>) {
    forall name :: PlainList(members, body, name)
  }

  /**
   * No name is spelled in two ways, no interface is continued with other bases, none extends
   * anything unless all its names are plain properties, and the global wrappers are not redefined.
   */
  ghost predicate Regular(w: World) {
    && (forall id :: w.Holds(id) && w.At(id).Interface? ==>
          && OnceSpelled(w.At(id).members, Body(w, id)) && Bases(w, id) == w.At(id).heritage
          && (w.At(id).heritage == [] || AllPlain(w.At(id).members, Body(w, id))))
    && (forall file, members {:trigger Occurs(w, file, TypeLiteral(members))} ::
          file in w.files && Occurs(w, file, TypeLiteral(members)) ==> OnceSpelled(members, members))
    && (forall file, name, qualified, arguments {:trigger Occurs(w, file, Reference(name, qualified, arguments))} ::
          file in w.files && Occurs(w, file, Reference(name, qualified, arguments)) && arguments != [] && (PassThrough(name) || ArrayName(name))
          ==> Builtin(w, file, name, qualified))
  }

  /** Every name that something in a member list has is spelled by a property of the list. */
  ghost predicate NoBlindList(w: World) {
    && (forall id :: w.Holds(id) && w.At(id).Interface? ==> SeesAll(w.At(id).members, Body(w, id)))
    && (forall file, members {:trigger Occurs(w, file, TypeLiteral(members))} ::
          file in w.files && Occurs(w, file, TypeLiteral(members)) ==> SeesAll(members, members))
  }

  lemma PlainOrNameless(members: seq<Member>, body: seq<Member>, name: string)
    requires OnceSpelled(members, body) && SeesAll(members, body)
    ensures PlainList(members, body, name) || Nameless(body, name)
  {
    assert !Blind(members, body, name);
  }

  /** Where a node is doubtful all the same, nothing is declared. */
  lemma DoubtfulDeclaration(w: World, id: DeclId, steps: seq<PathStep>)
    requires w.Holds(id) && Regular(w) && NoBlindList(w) && Doubtful(w, id.file, OfDeclaration(id), steps, Missing)
    ensures !Declared(w, id.file, OfDeclaration(id), steps)
  {
    PlainOrNameless(w.At(id).members, Body(w, id), steps[0].member);
  }

  lemma DoubtfulType(w: World, file: string, t: TypeNode, steps: seq<PathStep>)
    requires file in w.files && Occurs(w, file, t) && Regular(w) && NoBlindList(w) && Doubtful(w, file, OfType(t), steps, Missing)
    ensures !Declared(w, file, OfType(t), steps)
  {
    if t.TypeLiteral? {
      PlainOrNameless(t.members, t.members, steps[0].member);
    }
  }

  lemma NoBlindIsCertain(w: World)
    requires Regular(w) && NoBlindList(w)
    ensures NeverWrong(w, Missing)
  {
    forall id, steps | w.Holds(id) && Doubtful(w, id.file, OfDeclaration(id), steps, Missing)
      ensures !Declared(w, id.file, OfDeclaration(id), steps)
    {
      DoubtfulDeclaration(w, id, steps);
    }
    forall file, t, steps | file in w.files && Occurs(w, file, t) && Doubtful(w, file, OfType(t), steps, Missing)
      ensures !Declared(w, file, OfType(t), steps)
    {
      DoubtfulType(w, file, t, steps);
    }
    hide Doubtful, Regular, NoBlindList, Declared;
    DoubtfulDecides(w, Missing);
  }

  /**
   * On regular declarations: "missing" is never wrong, on any declaration or type in one, for any
   * path and whatever was seen, if and only if no member list has a name that only members other
   * than property signatures spelled so carry.
   */
  lemma MissingWithoutHeritage(w: World)
    requires Regular(w)
    ensures NeverWrong(w, Missing) <==> NoBlindList(w)
  {
    if NoBlindList(w) {
      NoBlindIsCertain(w);
    }
    if NeverWrong(w, Missing) {
      forall id | w.Holds(id) && w.At(id).Interface? ensures SeesAll(w.At(id).members, Body(w, id)) {
        BlindInterfaceShows(w, id);
      }
      forall file, members | file in w.files && Occurs(w, file, TypeLiteral(members)) ensures SeesAll(members, members) {
        BlindLiteralShows(w, file, members);
      }
    }
  }

  lemma BlindInterfaceShows(w: World, id: DeclId)
    requires w.Holds(id) && w.At(id).Interface? && NeverWrong(w, Missing)
    requires w.At(id).heritage == [] || AllPlain(w.At(id).members, Body(w, id))
    ensures SeesAll(w.At(id).members, Body(w, id))
  {
    if !SeesAll(w.At(id).members, Body(w, id)) {
      var name :| Blind(w.At(id).members, Body(w, id), name);
      BlindIsNotPlain(w.At(id).members, Body(w, id), name);
      BlindInterfaceIsWrong(w, id, name, {}, 0);
      MissingIsRight(w, id, [MemberStep(name)]);
    }
  }

  lemma BlindIsNotPlain(members: seq<Member>, body: seq<Member>, name: string)
    requires Blind(members, body, name)
    ensures !AllPlain(members, body)
  {
    assert !PlainList(members, body, name);
  }

  lemma MissingIsRight(w: World, id: DeclId, steps: seq<PathStep>)
    requires w.Holds(id) && NeverWrong(w, Missing)
    ensures Right(w, id.file, OfDeclaration(id), steps, Missing, LookupDeclaration(w, id, steps, {}, 0))
  {
  }

  lemma TypeMissingIsRight(w: World, file: string, t: TypeNode, steps: seq<PathStep>)
    requires file in w.files && Occurs(w, file, t) && NeverWrong(w, Missing)
    ensures Right(w, file, OfType(t), steps, Missing, LookupType(w, file, t, steps, {}, 0))
  {
  }

  lemma BlindLiteralShows(w: World, file: string, members: seq<Member>)
    requires file in w.files && Occurs(w, file, TypeLiteral(members)) && NeverWrong(w, Missing)
    ensures SeesAll(members, members)
  {
    if !SeesAll(members, members) {
      var name :| Blind(members, members, name);
      BlindLiteralIsWrong(w, file, members, name, {}, 0);
      TypeMissingIsRight(w, file, TypeLiteral(members), [MemberStep(name)]);
    }
  }

  // ---------- inputs on which the answers are wrong ----------

  function OneFile(declarations: seq<Declaration>): World {
    World(map["c.ts" := File(declarations, map[], [])])
  }

  /** `interface C { 'a-b'?: … }`. */
  const QUOTED := OneFile([Interface("C", [Property(StringLiteral('\'', "a-b", "a-b"), None)], [])])

  /** The key `a-b` is reported missing although it is declared, under quotes. */
  lemma QuotedKeyIsMissing()
    ensures var id := DeclId("c.ts", 0);
      && QUOTED.Holds(id)
      && LookupDeclaration(QUOTED, id, [MemberStep("a-b")], {}, 0) == Done(Missing, {(id, 1)}, false)
      && Declared(QUOTED, "c.ts", OfDeclaration(id), [MemberStep("a-b")])
  {
    var id := DeclId("c.ts", 0);
    assert QUOTED.At(id) == Interface("C", [Property(StringLiteral('\'', "a-b", "a-b"), None)], []);
    assert Body(QUOTED, id) == QUOTED.At(id).members;
    var m := QUOTED.At(id).members[0];
    assert m.name.Text()[0] == '\'' && "a-b"[0] == 'a';
    assert MemberNamed(Body(QUOTED, id), "a-b") == Some(m);
    BlindInterfaceIsWrong(QUOTED, id, "a-b", {}, 0);
  }

  /** `interface A { x }` and `type C = keyof A`. */
  const KEY_OF := OneFile([
    Interface("A", [Property(Identifier("x"), None)], []), Alias("C", TypeOperator(KeyOf, Reference("A", false, [])))])

  /** A path into `keyof A` is found although that type has no members. */
  lemma KeyOfIsFound()
    ensures var id := DeclId("c.ts", 1);
      && KEY_OF.Holds(id)
      && LookupDeclaration(KEY_OF, id, [MemberStep("x")], {}, 0).Done?
      && LookupDeclaration(KEY_OF, id, [MemberStep("x")], {}, 0).value == Found
      && !Declared(KEY_OF, "c.ts", OfDeclaration(id), [MemberStep("x")])
  {
    var w, a, id := KEY_OF, DeclId("c.ts", 0), DeclId("c.ts", 1);
    assert w.At(a) == Interface("A", [Property(Identifier("x"), None)], []);
    assert w.At(id) == Alias("C", TypeOperator(KeyOf, Reference("A", false, [])));
    assert FirstNamed(w.files["c.ts"].declarations, "A", 0) == Some(0);
    assert DeclForTypeName(w, "c.ts", "A") == Hit(a);
    var seen: set<SeenKey> := {} + {(id, 1)};
    assert LookupDeclaration(w, a, [MemberStep("x")], seen, 0) == Done(Found, seen + {(a, 1)}, false);
    assert LookupType(w, "c.ts", Reference("A", false, []), [MemberStep("x")], seen, 0) == Done(Found, seen + {(a, 1)}, false);
  }

  /** `interface Base { m }` and `interface C extends Base { m(): … }`. */
  const RESCUED := OneFile([
    Interface("Base", [Property(Identifier("m"), None)], []),
    Interface("C", [OtherMember(Identifier("m"), None)], [Named("Base")])])

  /** A name that only a method carries is not missing where a base spells it: the list alone does not tell. */
  lemma BaseSpellsTheMethod()
    ensures var id := DeclId("c.ts", 1);
      && RESCUED.Holds(id) && Blind(RESCUED.At(id).members, Body(RESCUED, id), "m")
      && LookupDeclaration(RESCUED, id, [MemberStep("m")], {}, 0).Done?
      && LookupDeclaration(RESCUED, id, [MemberStep("m")], {}, 0).value == Found
  {
    var w, b, id := RESCUED, DeclId("c.ts", 0), DeclId("c.ts", 1);
    var base, c := Interface("Base", [Property(Identifier("m"), None)], []), Interface("C", [OtherMember(Identifier("m"), None)], [Named("Base")]);
    assert w.files["c.ts"].declarations == [base, c];
    assert w.At(b) == base && w.At(id) == c;
    assert MembersOf([c], "C") == c.members && MembersOf([base, c], "C") == c.members;
    assert FirstNamed([base, c], "Base", 0) == Some(0);
    assert BaseOf(w, "c.ts", Named("Base")) == Hit(b);
    var steps := [MemberStep("m")];
    var seen: set<SeenKey> := {} + {(id, 1)};
    assert LookupDeclaration(w, b, steps, seen, 0) == Done(Found, seen + {(b, 1)}, false);
    assert LookupBases(w, "c.ts", [Named("Base")], 1, steps, seen + {(b, 1)}, 0) == Done([], seen + {(b, 1)}, false);
    assert LookupBases(w, "c.ts", [Named("Base")], 0, steps, seen, 0) == Done([Found] + [], seen + {(b, 1)}, false);
  }
}
