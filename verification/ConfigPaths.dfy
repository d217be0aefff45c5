/**
 * Schema key paths against declared types: scripts/gen-config-catalog.ts, parsePath and
 * lookupPath.
 */
module ConfigPaths {
  import opened Wrappers
  import opened ConfigTypes

  datatype PathStep = MemberStep(member: string) | ArrayStep

  // ---------- a path as the walk reads it ----------

  datatype Node = OfDeclaration(id: DeclId) | OfType(type_: TypeNode)

  /** The first property signature that spells its name so. */
  function FirstProperty(members: seq<Member>, text: string): (r: Option<Member>)
    ensures r.Some? ==> r.value in members && r.value.Property? && r.value.name.Text() == text
    ensures r.None? ==> forall m :: m in members && m.Property? ==> m.name.Text() != text
  {
    if members == [] then None
    else if members[0].Property? && members[0].name.Text() == text then Some(members[0])
    else FirstProperty(members[1..], text)
  }

  lemma {:induction false} FirstPropertyIsFirst(members: seq<Member>, text: string, k: nat)
    requires k < |members| && members[k].Property? && members[k].name.Text() == text
    requires forall j :: 0 <= j < k && members[j].Property? ==> members[j].name.Text() != text
    ensures FirstProperty(members, text) == Some(members[k])
  {
    if k > 0 {
      FirstPropertyIsFirst(members[1..], text, k - 1);
    }
  }

  predicate PassThrough(name: string) {
    name in {"Partial", "Required", "Readonly", "NonNullable"}
  }

  predicate ArrayName(name: string) {
    name in {"Array", "ReadonlyArray"}
  }

  ghost predicate Known(w: World, node: Node) {
    node.OfDeclaration? ==> w.Holds(node.id)
  }

  /** What an `extends` entry of a declaration in `file` leads to. */
  function BaseOf(w: World, file: string, base: Heritage): (r: Search)
    requires file in w.files
    ensures r.Hit? ==> w.Holds(r.decl)
  {
    if base.Named? then DeclForTypeName(w, file, base.name) else Miss
  }

  /**
   * The spelling of the path leads through property signatures: a union needs every branch, an
   * intersection and the heritage of an interface need one.
   */
  least predicate Present[nat](w: World, file: string, node: Node, steps: seq<PathStep>)
    requires file in w.files && Known(w, node)
  {
    steps == [] ||
    match node
    case OfDeclaration(id) =>
      (match w.At(id)
       case Interface(_, members, heritage) =>
         steps[0].MemberStep? &&
         (match FirstProperty(members, steps[0].member)
          case Some(m) =>
            |steps| == 1 || (m.type_.Some? && Present(w, id.file, OfType(m.type_.value), steps[1..]))
          case None =>
            exists i :: 0 <= i < |heritage| && BaseOf(w, id.file, heritage[i]).Hit?
              && Present(w, BaseOf(w, id.file, heritage[i]).decl.file, OfDeclaration(BaseOf(w, id.file, heritage[i]).decl), steps))
       case Alias(_, t) => Present(w, id.file, OfType(t), steps)
       case Enum(_) => false)
    case OfType(t) =>
      (match t
       case TypeLiteral(members) =>
         steps[0].MemberStep? && FirstProperty(members, steps[0].member).Some? &&
         (var m := FirstProperty(members, steps[0].member).value;
          |steps| == 1 || (m.type_.Some? && Present(w, file, OfType(m.type_.value), steps[1..])))
       case Parenthesized(inner) => Present(w, file, OfType(inner), steps)
       case Intersection(types) => exists i :: 0 <= i < |types| && Present(w, file, OfType(types[i]), steps)
       case Union(types) => forall i :: 0 <= i < |types| ==> Present(w, file, OfType(types[i]), steps)
       case ArrayType(element) => steps[0].ArrayStep? && Present(w, file, OfType(element), steps[1..])
       case TypeOperator(_, inner) => Present(w, file, OfType(inner), steps)
       case IndexedAccess(whole, index) =>
         index.Some? && Present(w, file, OfType(whole), [MemberStep(index.value)] + steps)
       case Reference(name, qualified, arguments) =>
         if PassThrough(name) && arguments != [] then Present(w, file, OfType(arguments[0]), steps)
         else if ArrayName(name) && arguments != [] then
           steps[0].ArrayStep? && Present(w, file, OfType(arguments[0]), steps[1..])
         else
           !qualified && TargetOf(w, file, name).Some?
           && Present(w, TargetOf(w, file, name).value.file, OfDeclaration(TargetOf(w, file, name).value), steps)
       case OtherType => false)
  }

  /** The spelling of the path leads nowhere: every way through property signatures is ruled out. */
  least predicate Absent[nat](w: World, file: string, node: Node, steps: seq<PathStep>)
    requires file in w.files && Known(w, node)
  {
    steps != [] &&
    match node
    case OfDeclaration(id) =>
      (match w.At(id)
       case Interface(_, members, heritage) =>
         steps[0].MemberStep? &&
         (match FirstProperty(members, steps[0].member)
          case Some(m) =>
            |steps| > 1 && m.type_.Some? && Absent(w, id.file, OfType(m.type_.value), steps[1..])
          case None =>
            forall i :: 0 <= i < |heritage| ==>
              (BaseOf(w, id.file, heritage[i]).Hit?
              && Absent(w, BaseOf(w, id.file, heritage[i]).decl.file, OfDeclaration(BaseOf(w, id.file, heritage[i]).decl), steps)))
       case Alias(_, t) => Absent(w, id.file, OfType(t), steps)
       case Enum(_) => false)
    case OfType(t) =>
      (match t
       case TypeLiteral(members) =>
         steps[0].MemberStep? &&
         (match FirstProperty(members, steps[0].member)
          case Some(m) => |steps| > 1 && m.type_.Some? && Absent(w, file, OfType(m.type_.value), steps[1..])
          case None => true)
       case Parenthesized(inner) => Absent(w, file, OfType(inner), steps)
       case Intersection(types) => forall i :: 0 <= i < |types| ==> Absent(w, file, OfType(types[i]), steps)
       case Union(types) => types != [] && forall i :: 0 <= i < |types| ==> Absent(w, file, OfType(types[i]), steps)
       case ArrayType(element) => steps[0].ArrayStep? && Absent(w, file, OfType(element), steps[1..])
       case TypeOperator(_, inner) => Absent(w, file, OfType(inner), steps)
       case IndexedAccess(whole, index) =>
         index.Some? && Absent(w, file, OfType(whole), [MemberStep(index.value)] + steps)
       case Reference(name, qualified, arguments) =>
         if PassThrough(name) && arguments != [] then Absent(w, file, OfType(arguments[0]), steps)
         else if ArrayName(name) && arguments != [] then
           steps[0].ArrayStep? && Absent(w, file, OfType(arguments[0]), steps[1..])
         else
           !qualified && TargetOf(w, file, name).Some?
           && Absent(w, TargetOf(w, file, name).value.file, OfDeclaration(TargetOf(w, file, name).value), steps)
       case OtherType => false)
  }

  /** No path is both present and absent. */
  least lemma PresentOrAbsent[nat](w: World, file: string, node: Node, steps: seq<PathStep>)
    requires file in w.files && Known(w, node)
    requires Present(w, file, node, steps)
    ensures !Absent(w, file, node, steps)
  {
    hide FirstProperty, BaseOf, TargetOf, PassThrough, ArrayName;
    if steps != [] {
      match node
      case OfDeclaration(id) =>
        match w.At(id) {
          case Interface(_, members, heritage) =>
            match FirstProperty(members, steps[0].member) {
              case Some(m) =>
                if |steps| > 1 {
                  PresentOrAbsent(w, id.file, OfType(m.type_.value), steps[1..]);
                }
              case None =>
                forall i | 0 <= i < |heritage| && BaseOf(w, id.file, heritage[i]).Hit?
                  && Present(w, BaseOf(w, id.file, heritage[i]).decl.file, OfDeclaration(BaseOf(w, id.file, heritage[i]).decl), steps)
                {
                  PresentOrAbsent(w, BaseOf(w, id.file, heritage[i]).decl.file, OfDeclaration(BaseOf(w, id.file, heritage[i]).decl), steps);
                }
            }
          case Alias(_, t) => PresentOrAbsent(w, id.file, OfType(t), steps);
          case Enum(_) =>
        }
      case OfType(t) =>
        match t
        case TypeLiteral(members) =>
          if |steps| > 1 {
            PresentOrAbsent(w, file, OfType(FirstProperty(members, steps[0].member).value.type_.value), steps[1..]);
          }
        case Parenthesized(inner) => PresentOrAbsent(w, file, OfType(inner), steps);
        case Intersection(types) =>
          forall i | 0 <= i < |types| && Present(w, file, OfType(types[i]), steps) {
            PresentOrAbsent(w, file, OfType(types[i]), steps);
          }
        case Union(types) =>
          if types != [] {
            PresentOrAbsent(w, file, OfType(types[0]), steps);
          }
        case ArrayType(element) => PresentOrAbsent(w, file, OfType(element), steps[1..]);
        case TypeOperator(_, inner) => PresentOrAbsent(w, file, OfType(inner), steps);
        case IndexedAccess(whole, index) => PresentOrAbsent(w, file, OfType(whole), [MemberStep(index.value)] + steps);
        case Reference(name, qualified, arguments) =>
          if PassThrough(name) && arguments != [] {
            PresentOrAbsent(w, file, OfType(arguments[0]), steps);
          } else if ArrayName(name) && arguments != [] {
            PresentOrAbsent(w, file, OfType(arguments[0]), steps[1..]);
          } else {
            PresentOrAbsent(w, TargetOf(w, file, name).value.file, OfDeclaration(TargetOf(w, file, name).value), steps);
          }
        case OtherType =>
    }
  }

  // ---------- lookupPath ----------

  datatype PathLookup = Found | Missing | Unknown

  /** A declaration reached with that many steps left. */
  type SeenKey = (DeclId, nat)

  /**
   * The value of a walk, its final `seen` set, and whether it met a declaration again with as many
   * steps left. `Exhausted` stands for a walk that used up its allowance of indexed accesses, the
   * one form that makes the path longer; `Broken` for the exception of a file that is not there.
   */
  datatype Walked<T> = Done(value: T, seen: set<SeenKey>, again: bool) | Exhausted | Broken

  function NoAnswer<T, U>(r: Walked<T>): Walked<U>
    requires !r.Done?
  {
    if r.Exhausted? then Exhausted else Walked.Broken
  }

  /** Any found wins, else any unknown taints, else missing. */
  function Combine(results: seq<PathLookup>): (r: PathLookup)
    ensures r == Found <==> Found in results
    ensures r == Missing <==> forall i :: 0 <= i < |results| ==> results[i] == Missing
  {
    if Found in results then Found
    else if Unknown in results then Unknown
    else
      assert forall i :: 0 <= i < |results| ==> results[i] in results && results[i] != Found && results[i] != Unknown;
      assert forall i :: 0 <= i < |results| ==> results[i] == Missing;
      Missing
  }

  /** Presence on a union is only definite when every branch agrees. */
  function Agree(results: seq<PathLookup>): PathLookup {
    if forall r :: r in results ==> r == Found then Found
    else if forall r :: r in results ==> r == Missing then Missing
    else Unknown
  }

  function AllDeclarations(w: World): set<DeclId> {
    set f, i | f in w.files && 0 <= i < |w.files[f].declarations| :: DeclId(f, i)
  }

  /** The keys a walk with at most `bound` steps can still see for the first time. */
  ghost function Unseen(w: World, seen: set<SeenKey>, bound: nat): set<SeenKey> {
    set d, k: nat | d in AllDeclarations(w) && 0 <= k <= bound && (d, k) !in seen :: (d, k)
  }

  function LookupDeclaration(w: World, id: DeclId, steps: seq<PathStep>, seen: set<SeenKey>, fuel: nat): (r: Walked<PathLookup>)
    requires w.Holds(id)
    ensures r.Done? ==> seen <= r.seen
    decreases fuel, Unseen(w, seen, |steps| + fuel), 0
  {
    if steps == [] then Done(Found, seen, false)
    else
      match w.At(id)
      case Enum(_) => Done(Unknown, seen, false)
      case Alias(_, t) =>
        if (id, |steps|) in seen then Done(Unknown, seen, true)
        else
          SeeMore(w, id, steps, seen, fuel);
          LookupType(w, id.file, t, steps, seen + {(id, |steps|)}, fuel)
      case Interface(_, members, heritage) =>
        if (id, |steps|) in seen then Done(Unknown, seen, true)
        else if steps[0].ArrayStep? then Done(Unknown, seen + {(id, |steps|)}, false)
        else
          SeeMore(w, id, steps, seen, fuel);
          var m := FirstProperty(members, steps[0].member);
          if m.Some? then
            if |steps| == 1 then Done(Found, seen + {(id, |steps|)}, false)
            else if m.value.type_.None? then Done(Unknown, seen + {(id, |steps|)}, false)
            else
              UnseenShrinks(w, seen + {(id, |steps|)}, |steps| - 1 + fuel, |steps| + fuel);
              LookupType(w, id.file, m.value.type_.value, steps[1..], seen + {(id, |steps|)}, fuel)
          else
            var bases := LookupBases(w, id.file, heritage, 0, steps, seen + {(id, |steps|)}, fuel);
            if bases.Done? then Done(Combine(bases.value), bases.seen, bases.again) else NoAnswer(bases)
  }

  lemma SeeMore(w: World, id: DeclId, steps: seq<PathStep>, seen: set<SeenKey>, fuel: nat)
    requires w.Holds(id) && (id, |steps|) !in seen
    ensures Unseen(w, seen + {(id, |steps|)}, |steps| + fuel) < Unseen(w, seen, |steps| + fuel)
  {
    assert id == DeclId(id.file, id.pos) && id in AllDeclarations(w);
    assert (id, |steps|) in Unseen(w, seen, |steps| + fuel);
  }

  lemma UnseenShrinks(w: World, seen: set<SeenKey>, bound: nat, bound': nat)
    requires bound <= bound'
    ensures Unseen(w, seen, bound) <= Unseen(w, seen, bound')
  {
  }

  lemma UnseenAfter(w: World, seen: set<SeenKey>, seen': set<SeenKey>, bound: nat)
    requires seen <= seen'
    ensures Unseen(w, seen', bound) <= Unseen(w, seen, bound)
  {
  }

  function LookupType(w: World, file: string, t: TypeNode, steps: seq<PathStep>, seen: set<SeenKey>, fuel: nat): (r: Walked<PathLookup>)
    requires file in w.files
    ensures r.Done? ==> seen <= r.seen
    decreases fuel, Unseen(w, seen, |steps| + fuel), 1, t, 1, 0
  {
    if steps == [] then Done(Found, seen, false)
    else
      match t
      case TypeLiteral(members) =>
        if steps[0].ArrayStep? then Done(Unknown, seen, false)
        else
          var m := FirstProperty(members, steps[0].member);
          if m.None? then Done(Missing, seen, false)
          else if |steps| == 1 then Done(Found, seen, false)
          else if m.value.type_.None? then Done(Unknown, seen, false)
          else
            UnseenShrinks(w, seen, |steps| - 1 + fuel, |steps| + fuel);
            assert m.value.type_.value < t;
            LookupType(w, file, m.value.type_.value, steps[1..], seen, fuel)
      case Parenthesized(inner) => LookupType(w, file, inner, steps, seen, fuel)
      case Intersection(types) =>
        var all := LookupAll(w, file, t, types, 0, steps, seen, fuel);
        if all.Done? then Done(Combine(all.value), all.seen, all.again) else NoAnswer(all)
      case Union(types) =>
        var all := LookupAll(w, file, t, types, 0, steps, seen, fuel);
        if all.Done? then Done(Agree(all.value), all.seen, all.again) else NoAnswer(all)
      case ArrayType(element) =>
        if steps[0].MemberStep? then Done(Unknown, seen, false)
        else
          UnseenShrinks(w, seen, |steps| - 1 + fuel, |steps| + fuel);
          LookupType(w, file, element, steps[1..], seen, fuel)
      case TypeOperator(_, inner) => LookupType(w, file, inner, steps, seen, fuel)
      case IndexedAccess(whole, index) =>
        if index.None? then Done(Unknown, seen, false)
        else if fuel == 0 then Exhausted
        else LookupType(w, file, whole, [MemberStep(index.value)] + steps, seen, fuel - 1)
      case Reference(name, qualified, arguments) =>
        if PassThrough(name) && arguments != [] then LookupType(w, file, arguments[0], steps, seen, fuel)
        else if ArrayName(name) && arguments != [] then
          if steps[0].MemberStep? then Done(Unknown, seen, false)
          else
            UnseenShrinks(w, seen, |steps| - 1 + fuel, |steps| + fuel);
            LookupType(w, file, arguments[0], steps[1..], seen, fuel)
        else if qualified then Done(Unknown, seen, false)
        else
          (match DeclForTypeName(w, file, name)
           case Hit(id) => LookupDeclaration(w, id, steps, seen, fuel)
           case Miss => Done(Unknown, seen, false)
           case Broken => Walked.Broken)
      case OtherType => Done(Unknown, seen, false)
  }

  /** The parts of `t` from position `i` on, left to right. */
  function LookupAll(w: World, file: string, t: TypeNode, types: seq<TypeNode>, i: nat, steps: seq<PathStep>, seen: set<SeenKey>, fuel: nat): (r: Walked<seq<PathLookup>>)
    requires file in w.files && i <= |types|
    requires (t.Intersection? || t.Union?) && t.types == types
    ensures r.Done? ==> seen <= r.seen && |r.value| == |types| - i
    decreases fuel, Unseen(w, seen, |steps| + fuel), 1, t, 0, |types| - i
  {
    if i == |types| then Done([], seen, false)
    else
      var first := LookupType(w, file, types[i], steps, seen, fuel);
      if !first.Done? then NoAnswer(first)
      else
        UnseenAfter(w, seen, first.seen, |steps| + fuel);
        var rest := LookupAll(w, file, t, types, i + 1, steps, first.seen, fuel);
        if rest.Done? then Done([first.value] + rest.value, rest.seen, first.again || rest.again) else rest
  }

  /** One base, walked. */
  function LookupBase(w: World, file: string, base: Heritage, steps: seq<PathStep>, seen: set<SeenKey>, fuel: nat): (r: Walked<PathLookup>)
    requires file in w.files
    ensures r.Done? ==> seen <= r.seen
    decreases fuel, Unseen(w, seen, |steps| + fuel), 1
  {
    match BaseOf(w, file, base)
    case Hit(id) => LookupDeclaration(w, id, steps, seen, fuel)
    case Miss => Done(Unknown, seen, false)
    case Broken => Walked.Broken
  }

  /** The bases of an interface from position `i` on, left to right. */
  function LookupBases(w: World, file: string, heritage: seq<Heritage>, i: nat, steps: seq<PathStep>, seen: set<SeenKey>, fuel: nat): (r: Walked<seq<PathLookup>>)
    requires file in w.files && i <= |heritage|
    ensures r.Done? ==> seen <= r.seen && |r.value| == |heritage| - i
    decreases fuel, Unseen(w, seen, |steps| + fuel), 2, |heritage| - i
  {
    if i == |heritage| then Done([], seen, false)
    else
      var first := LookupBase(w, file, heritage[i], steps, seen, fuel);
      if !first.Done? then NoAnswer(first)
      else
        UnseenAfter(w, seen, first.seen, |steps| + fuel);
        var rest := LookupBases(w, file, heritage, i + 1, steps, first.seen, fuel);
        if rest.Done? then Done([first.value] + rest.value, rest.seen, first.again || rest.again) else rest
  }

  // ---------- a definite answer has a derivation behind it ----------

  ghost predicate Justified(w: World, file: string, node: Node, steps: seq<PathStep>, r: PathLookup)
    requires file in w.files && Known(w, node)
  {
    && (r == Found ==> Present(w, file, node, steps))
    && (r == Missing ==> Absent(w, file, node, steps))
  }

  /** The answer for one base of an interface. */
  ghost predicate BaseJustified(w: World, file: string, base: Heritage, steps: seq<PathStep>, r: PathLookup)
    requires file in w.files
  {
    match BaseOf(w, file, base)
    case Hit(id) => Justified(w, id.file, OfDeclaration(id), steps, r)
    case Miss => r == Unknown
    case Broken => true
  }

  /** A base that can be resolved, or a miss, has an answer. */
  ghost predicate Resolved(w: World, file: string, base: Heritage)
    requires file in w.files
  {
    !BaseOf(w, file, base).Broken?
  }

  ghost predicate BasesJustified(w: World, file: string, heritage: seq<Heritage>, i: nat, steps: seq<PathStep>, all: seq<PathLookup>)
    requires file in w.files && i <= |heritage|
  {
    && |all| == |heritage| - i
    && forall k :: i <= k < |heritage| ==> Resolved(w, file, heritage[k]) && BaseJustified(w, file, heritage[k], steps, all[k - i])
  }

  lemma HeritageSound(w: World, id: DeclId, steps: seq<PathStep>, all: seq<PathLookup>)
    requires w.Holds(id) && w.At(id).Interface? && steps != [] && steps[0].MemberStep?
    requires FirstProperty(w.At(id).members, steps[0].member).None?
    requires BasesJustified(w, id.file, w.At(id).heritage, 0, steps, all)
    ensures Justified(w, id.file, OfDeclaration(id), steps, Combine(all))
  {
    var heritage := w.At(id).heritage;
    if Found in all {
      var k :| 0 <= k < |all| && all[k] == Found;
      assert BaseOf(w, id.file, heritage[k]).Hit?;
    }
  }

  lemma {:induction false} DeclarationSound(w: World, id: DeclId, steps: seq<PathStep>, seen: set<SeenKey>, fuel: nat)
    requires w.Holds(id) && LookupDeclaration(w, id, steps, seen, fuel).Done?
    ensures Justified(w, id.file, OfDeclaration(id), steps, LookupDeclaration(w, id, steps, seen, fuel).value)
    decreases fuel, Unseen(w, seen, |steps| + fuel), 0
  {
    if steps != [] && (id, |steps|) !in seen {
      var seen' := seen + {(id, |steps|)};
      SeeMore(w, id, steps, seen, fuel);
      match w.At(id)
      case Enum(_) =>
      case Alias(_, t) => TypeSound(w, id.file, t, steps, seen', fuel);
      case Interface(_, members, heritage) =>
        if steps[0].MemberStep? {
          var m := FirstProperty(members, steps[0].member);
          if m.Some? && |steps| > 1 && m.value.type_.Some? {
            UnseenShrinks(w, seen', |steps| - 1 + fuel, |steps| + fuel);
            TypeSound(w, id.file, m.value.type_.value, steps[1..], seen', fuel);
          }
          if m.None? {
            InheritedSound(w, id, steps, seen', fuel);
          }
        }
    }
  }

  lemma HoldsFile(w: World, id: DeclId)
    requires w.Holds(id)
    ensures id.file in w.files
  {
  }

  lemma {:induction false} InheritedSound(w: World, id: DeclId, steps: seq<PathStep>, seen: set<SeenKey>, fuel: nat)
    requires w.Holds(id) && w.At(id).Interface? && steps != [] && steps[0].MemberStep?
    requires FirstProperty(w.At(id).members, steps[0].member).None?
    requires LookupBases(w, id.file, w.At(id).heritage, 0, steps, seen, fuel).Done?
    ensures Justified(w, id.file, OfDeclaration(id), steps, Combine(LookupBases(w, id.file, w.At(id).heritage, 0, steps, seen, fuel).value))
    decreases fuel, Unseen(w, seen, |steps| + fuel), 3
  {
    hide *;
    HoldsFile(w, id);
    BasesSound(w, id.file, w.At(id).heritage, 0, steps, seen, fuel);
    HeritageSound(w, id, steps, LookupBases(w, id.file, w.At(id).heritage, 0, steps, seen, fuel).value);
  }

  lemma {:induction false} TypeSound(w: World, file: string, t: TypeNode, steps: seq<PathStep>, seen: set<SeenKey>, fuel: nat)
    requires file in w.files && LookupType(w, file, t, steps, seen, fuel).Done?
    ensures Justified(w, file, OfType(t), steps, LookupType(w, file, t, steps, seen, fuel).value)
    decreases fuel, Unseen(w, seen, |steps| + fuel), 1, t, 1, 0
  {
    if steps != [] {
      UnseenShrinks(w, seen, |steps| - 1 + fuel, |steps| + fuel);
      match t
      case TypeLiteral(members) =>
        if steps[0].MemberStep? {
          var m := FirstProperty(members, steps[0].member);
          if m.Some? && |steps| > 1 && m.value.type_.Some? {
            assert m.value.type_.value < t;
            TypeSound(w, file, m.value.type_.value, steps[1..], seen, fuel);
          }
        }
      case Parenthesized(inner) => TypeSound(w, file, inner, steps, seen, fuel);
      case Intersection(types) =>
        AllSound(w, file, t, types, 0, steps, seen, fuel);
        var all := LookupAll(w, file, t, types, 0, steps, seen, fuel).value;
        if Found in all {
          var k :| 0 <= k < |all| && all[k] == Found;
          assert Present(w, file, OfType(types[k]), steps);
        }
      case Union(types) =>
        AllSound(w, file, t, types, 0, steps, seen, fuel);
        var all := LookupAll(w, file, t, types, 0, steps, seen, fuel).value;
        assert forall k :: 0 <= k < |types| ==> all[k] in all;
      case ArrayType(element) =>
        if steps[0].ArrayStep? {
          TypeSound(w, file, element, steps[1..], seen, fuel);
        }
      case TypeOperator(_, inner) => TypeSound(w, file, inner, steps, seen, fuel);
      case IndexedAccess(whole, index) =>
        if index.Some? {
          TypeSound(w, file, whole, [MemberStep(index.value)] + steps, seen, fuel - 1);
        }
      case Reference(name, qualified, arguments) =>
        if PassThrough(name) && arguments != [] {
          TypeSound(w, file, arguments[0], steps, seen, fuel);
        } else if ArrayName(name) && arguments != [] {
          if steps[0].ArrayStep? {
            TypeSound(w, file, arguments[0], steps[1..], seen, fuel);
          }
        } else if !qualified {
          var target := TargetOf(w, file, name);
          if target.Some? {
            DeclarationSound(w, target.value, steps, seen, fuel);
          }
        }
      case OtherType =>
    }
  }

  lemma {:induction false} AllSound(w: World, file: string, t: TypeNode, types: seq<TypeNode>, i: nat, steps: seq<PathStep>, seen: set<SeenKey>, fuel: nat)
    requires file in w.files && i <= |types|
    requires (t.Intersection? || t.Union?) && t.types == types
    requires LookupAll(w, file, t, types, i, steps, seen, fuel).Done?
    ensures var all := LookupAll(w, file, t, types, i, steps, seen, fuel).value;
            forall k :: i <= k < |types| ==> Justified(w, file, OfType(types[k]), steps, all[k - i])
    decreases fuel, Unseen(w, seen, |steps| + fuel), 1, t, 0, |types| - i
  {
    hide Justified;
    if i < |types| {
      var first := LookupType(w, file, types[i], steps, seen, fuel);
      TypeSound(w, file, types[i], steps, seen, fuel);
      UnseenAfter(w, seen, first.seen, |steps| + fuel);
      AllSound(w, file, t, types, i + 1, steps, first.seen, fuel);
    }
  }

  lemma {:induction false} BasesSound(w: World, file: string, heritage: seq<Heritage>, i: nat, steps: seq<PathStep>, seen: set<SeenKey>, fuel: nat)
    requires file in w.files && i <= |heritage|
    requires LookupBases(w, file, heritage, i, steps, seen, fuel).Done?
    ensures BasesJustified(w, file, heritage, i, steps, LookupBases(w, file, heritage, i, steps, seen, fuel).value)
    decreases fuel, Unseen(w, seen, |steps| + fuel), 2, |heritage| - i
  {
    hide Justified, LookupDeclaration;
    if i < |heritage| {
      var first := LookupBase(w, file, heritage[i], steps, seen, fuel);
      if BaseOf(w, file, heritage[i]).Hit? {
        DeclarationSound(w, BaseOf(w, file, heritage[i]).decl, steps, seen, fuel);
      }
      UnseenAfter(w, seen, first.seen, |steps| + fuel);
      BasesSound(w, file, heritage, i + 1, steps, first.seen, fuel);
    }
  }

  // ---------- termination ----------

  /**
   * Literal indexed accesses nest at most `n` deep in the type, and every name in it that leads to a
   * declaration leads to one of rank `r` or less.
   */
  ghost predicate Fits(w: World, file: string, t: TypeNode, n: nat, rank: DeclId -> nat, r: nat)
    requires file in w.files
    decreases t
  {
    match t
    case TypeLiteral(members) => forall i :: 0 <= i < |members| ==> MemberFits(w, file, members[i], n, rank, r)
    case Parenthesized(inner) => Fits(w, file, inner, n, rank, r)
    case Intersection(types) => forall i :: 0 <= i < |types| ==> Fits(w, file, types[i], n, rank, r)
    case Union(types) => forall i :: 0 <= i < |types| ==> Fits(w, file, types[i], n, rank, r)
    case ArrayType(element) => Fits(w, file, element, n, rank, r)
    case TypeOperator(_, inner) => Fits(w, file, inner, n, rank, r)
    case IndexedAccess(whole, index) => index.None? || (n > 0 && Fits(w, file, whole, n - 1, rank, r))
    case Reference(name, _, arguments) =>
      && (TargetOf(w, file, name).Some? ==> rank(TargetOf(w, file, name).value) <= r)
      && forall i :: 0 <= i < |arguments| ==> Fits(w, file, arguments[i], n, rank, r)
    case OtherType => true
  }

  ghost predicate MemberFits(w: World, file: string, m: Member, n: nat, rank: DeclId -> nat, r: nat)
    requires file in w.files
    decreases m
  {
    m.Property? && m.type_.Some? ==> Fits(w, file, m.type_.value, n, rank, r)
  }

  ghost predicate DeclarationFits(w: World, id: DeclId, n: nat, rank: DeclId -> nat, r: nat)
    requires w.Holds(id)
  {
    match w.At(id)
    case Interface(_, members, heritage) =>
      && (forall i :: 0 <= i < |members| ==> MemberFits(w, id.file, members[i], n, rank, r))
      && (forall i :: 0 <= i < |heritage| && BaseOf(w, id.file, heritage[i]).Hit? ==> rank(BaseOf(w, id.file, heritage[i]).decl) <= r)
    case Alias(_, t) => Fits(w, id.file, t, n, rank, r)
    case Enum(_) => true
  }

  /**
   * Declarations have ranks that no reference raises, and that every reference of a declaration
   * with a literal indexed access lowers; `most` is as deep as such accesses nest.
   */
  ghost predicate AccessesDescend(w: World, rank: DeclId -> nat, most: nat) {
    forall id :: w.Holds(id) ==>
      DeclarationFits(w, id, 0, rank, rank(id)) || (rank(id) > 0 && DeclarationFits(w, id, most, rank, rank(id) - 1))
  }

  lemma OneRank(r: nat, most: nat)
    ensures (r + 1) * most == r * most + most
  {
  }

  lemma Lower(r: nat, s: nat, most: nat)
    requires r <= s
    ensures r * most <= s * most
  {
  }

  /** Every name can be looked up. */
  ghost predicate Loads(w: World) {
    forall file, name :: file in w.files ==> !DeclForTypeName(w, file, name).Broken?
  }

  /** The walk did not run out, and was not broken off where every name can be looked up. */
  ghost predicate Ended<T>(w: World, r: Walked<T>) {
    !r.Exhausted? && (Loads(w) ==> r.Done?)
  }

  lemma {:induction false} DeclarationEnds(w: World, id: DeclId, steps: seq<PathStep>, seen: set<SeenKey>, fuel: nat, rank: DeclId -> nat, most: nat)
    requires w.Holds(id) && AccessesDescend(w, rank, most) && fuel >= rank(id) * most
    ensures Ended(w, LookupDeclaration(w, id, steps, seen, fuel))
    decreases fuel, Unseen(w, seen, |steps| + fuel), 0
  {
    if steps != [] && (id, |steps|) !in seen {
      SeeMore(w, id, steps, seen, fuel);
      if DeclarationFits(w, id, 0, rank, rank(id)) {
        BodyEnds(w, id, steps, seen + {(id, |steps|)}, fuel, rank, most, 0, rank(id));
      } else {
        OneRank(rank(id) - 1, most);
        BodyEnds(w, id, steps, seen + {(id, |steps|)}, fuel, rank, most, most, rank(id) - 1);
      }
    }
  }

  /** The walk of a declaration met for the first time. */
  lemma {:induction false} BodyEnds(w: World, id: DeclId, steps: seq<PathStep>, seen: set<SeenKey>, fuel: nat, rank: DeclId -> nat, most: nat, n: nat, r: nat)
    requires w.Holds(id) && AccessesDescend(w, rank, most) && steps != []
    requires DeclarationFits(w, id, n, rank, r) && fuel >= n + r * most
    ensures match w.At(id)
      case Interface(_, members, heritage) =>
        steps[0].MemberStep? ==>
          (match FirstProperty(members, steps[0].member)
           case Some(m) => m.type_.Some? ==> Ended(w, LookupType(w, id.file, m.type_.value, steps[1..], seen, fuel))
           case None => Ended(w, LookupBases(w, id.file, heritage, 0, steps, seen, fuel)))
      case Alias(_, t) => Ended(w, LookupType(w, id.file, t, steps, seen, fuel))
      case Enum(_) => true
    decreases fuel, Unseen(w, seen, |steps| + fuel), 4
  {
    match w.At(id)
    case Enum(_) =>
    case Alias(_, t) => TypeEnds(w, id.file, t, steps, seen, fuel, rank, most, n, r);
    case Interface(_, members, heritage) =>
      if steps[0].MemberStep? {
        var m := FirstProperty(members, steps[0].member);
        if m.Some? && m.value.type_.Some? {
          UnseenShrinks(w, seen, |steps| - 1 + fuel, |steps| + fuel);
          assert MemberFits(w, id.file, m.value, n, rank, r);
          TypeEnds(w, id.file, m.value.type_.value, steps[1..], seen, fuel, rank, most, n, r);
        }
        if m.None? {
          BasesEnd(w, id.file, heritage, 0, steps, seen, fuel, rank, most, r);
        }
      }
  }

  lemma {:induction false} TypeEnds(w: World, file: string, t: TypeNode, steps: seq<PathStep>, seen: set<SeenKey>, fuel: nat, rank: DeclId -> nat, most: nat, n: nat, r: nat)
    requires file in w.files && AccessesDescend(w, rank, most) && Fits(w, file, t, n, rank, r) && fuel >= n + r * most
    ensures Ended(w, LookupType(w, file, t, steps, seen, fuel))
    decreases fuel, Unseen(w, seen, |steps| + fuel), 1, t, 1, 0
  {
    hide AccessesDescend;
    if steps != [] {
      UnseenShrinks(w, seen, |steps| - 1 + fuel, |steps| + fuel);
      match t
      case TypeLiteral(members) =>
        if steps[0].MemberStep? {
          var m := FirstProperty(members, steps[0].member);
          if m.Some? && |steps| > 1 && m.value.type_.Some? {
            assert MemberFits(w, file, m.value, n, rank, r);
            assert m.value.type_.value < t;
            TypeEnds(w, file, m.value.type_.value, steps[1..], seen, fuel, rank, most, n, r);
          }
        }
      case Parenthesized(inner) => TypeEnds(w, file, inner, steps, seen, fuel, rank, most, n, r);
      case Intersection(types) => AllEnd(w, file, t, types, 0, steps, seen, fuel, rank, most, n, r);
      case Union(types) => AllEnd(w, file, t, types, 0, steps, seen, fuel, rank, most, n, r);
      case ArrayType(element) => TypeEnds(w, file, element, steps[1..], seen, fuel, rank, most, n, r);
      case TypeOperator(_, inner) => TypeEnds(w, file, inner, steps, seen, fuel, rank, most, n, r);
      case IndexedAccess(whole, index) =>
        if index.Some? {
          TypeEnds(w, file, whole, [MemberStep(index.value)] + steps, seen, fuel - 1, rank, most, n - 1, r);
        }
      case Reference(name, qualified, arguments) =>
        if PassThrough(name) && arguments != [] {
          TypeEnds(w, file, arguments[0], steps, seen, fuel, rank, most, n, r);
        } else if ArrayName(name) && arguments != [] {
          TypeEnds(w, file, arguments[0], steps[1..], seen, fuel, rank, most, n, r);
        } else if TargetOf(w, file, name).Some? {
          Lower(rank(TargetOf(w, file, name).value), r, most);
          DeclarationEnds(w, TargetOf(w, file, name).value, steps, seen, fuel, rank, most);
        }
      case OtherType =>
    }
  }

  lemma {:induction false} AllEnd(w: World, file: string, t: TypeNode, types: seq<TypeNode>, i: nat, steps: seq<PathStep>, seen: set<SeenKey>, fuel: nat, rank: DeclId -> nat, most: nat, n: nat, r: nat)
    requires file in w.files && i <= |types| && AccessesDescend(w, rank, most)
    requires (t.Intersection? || t.Union?) && t.types == types
    requires Fits(w, file, t, n, rank, r) && fuel >= n + r * most
    ensures Ended(w, LookupAll(w, file, t, types, i, steps, seen, fuel))
    decreases fuel, Unseen(w, seen, |steps| + fuel), 1, t, 0, |types| - i
  {
    hide AccessesDescend;
    if i < |types| {
      TypeEnds(w, file, types[i], steps, seen, fuel, rank, most, n, r);
      var first := LookupType(w, file, types[i], steps, seen, fuel);
      if first.Done? {
        UnseenAfter(w, seen, first.seen, |steps| + fuel);
        AllEnd(w, file, t, types, i + 1, steps, first.seen, fuel, rank, most, n, r);
      }
    }
  }

  lemma {:induction false} BasesEnd(w: World, file: string, heritage: seq<Heritage>, i: nat, steps: seq<PathStep>, seen: set<SeenKey>, fuel: nat, rank: DeclId -> nat, most: nat, r: nat)
    requires file in w.files && i <= |heritage| && AccessesDescend(w, rank, most) && fuel >= r * most
    requires forall k :: 0 <= k < |heritage| && BaseOf(w, file, heritage[k]).Hit? ==> rank(BaseOf(w, file, heritage[k]).decl) <= r
    ensures Ended(w, LookupBases(w, file, heritage, i, steps, seen, fuel))
    decreases fuel, Unseen(w, seen, |steps| + fuel), 2, |heritage| - i
  {
    hide AccessesDescend;
    if i < |heritage| {
      if BaseOf(w, file, heritage[i]).Hit? {
        var base := BaseOf(w, file, heritage[i]).decl;
        Lower(rank(base), r, most);
        DeclarationEnds(w, base, steps, seen, fuel, rank, most);
      }
      var first := LookupBase(w, file, heritage[i], steps, seen, fuel);
      if first.Done? {
        UnseenAfter(w, seen, first.seen, |steps| + fuel);
        BasesEnd(w, file, heritage, i + 1, steps, first.seen, fuel, rank, most, r);
      }
    }
  }

  /**
   * Where literal indexed accesses lead down an order of the declarations the walk ends, recursive
   * declarations included; without such accesses one rank serves for all.
   */
  lemma LookupEnds(w: World, id: DeclId, steps: seq<PathStep>, rank: DeclId -> nat, most: nat)
    requires w.Holds(id) && AccessesDescend(w, rank, most)
    ensures Ended(w, LookupDeclaration(w, id, steps, {}, rank(id) * most))
  {
    DeclarationEnds(w, id, steps, {}, rank(id) * most, rank, most);
  }

  // ---------- the allowance does not show ----------

  lemma {:induction false} DeclarationStable(w: World, id: DeclId, steps: seq<PathStep>, seen: set<SeenKey>, fuel: nat)
    requires w.Holds(id) && !LookupDeclaration(w, id, steps, seen, fuel).Exhausted?
    ensures LookupDeclaration(w, id, steps, seen, fuel + 1) == LookupDeclaration(w, id, steps, seen, fuel)
    decreases fuel, Unseen(w, seen, |steps| + fuel), 0
  {
    if steps != [] && (id, |steps|) !in seen {
      var seen' := seen + {(id, |steps|)};
      SeeMore(w, id, steps, seen, fuel);
      match w.At(id)
      case Enum(_) =>
      case Alias(_, t) => TypeStable(w, id.file, t, steps, seen', fuel);
      case Interface(_, members, heritage) =>
        if steps[0].MemberStep? {
          var m := FirstProperty(members, steps[0].member);
          if m.Some? && |steps| > 1 && m.value.type_.Some? {
            UnseenShrinks(w, seen', |steps| - 1 + fuel, |steps| + fuel);
            TypeStable(w, id.file, m.value.type_.value, steps[1..], seen', fuel);
          }
          if m.None? {
            BasesStable(w, id.file, heritage, 0, steps, seen', fuel);
          }
        }
    }
  }

  lemma {:induction false} TypeStable(w: World, file: string, t: TypeNode, steps: seq<PathStep>, seen: set<SeenKey>, fuel: nat)
    requires file in w.files && !LookupType(w, file, t, steps, seen, fuel).Exhausted?
    ensures LookupType(w, file, t, steps, seen, fuel + 1) == LookupType(w, file, t, steps, seen, fuel)
    decreases fuel, Unseen(w, seen, |steps| + fuel), 1, t, 1, 0
  {
    if steps != [] {
      UnseenShrinks(w, seen, |steps| - 1 + fuel, |steps| + fuel);
      match t
      case TypeLiteral(members) =>
        if steps[0].MemberStep? {
          var m := FirstProperty(members, steps[0].member);
          if m.Some? && |steps| > 1 && m.value.type_.Some? {
            assert m.value.type_.value < t;
            TypeStable(w, file, m.value.type_.value, steps[1..], seen, fuel);
          }
        }
      case Parenthesized(inner) => TypeStable(w, file, inner, steps, seen, fuel);
      case Intersection(types) => AllStable(w, file, t, types, 0, steps, seen, fuel);
      case Union(types) => AllStable(w, file, t, types, 0, steps, seen, fuel);
      case ArrayType(element) =>
        if steps[0].ArrayStep? {
          TypeStable(w, file, element, steps[1..], seen, fuel);
        }
      case TypeOperator(_, inner) => TypeStable(w, file, inner, steps, seen, fuel);
      case IndexedAccess(whole, index) =>
        if index.Some? {
          TypeStable(w, file, whole, [MemberStep(index.value)] + steps, seen, fuel - 1);
        }
      case Reference(name, qualified, arguments) =>
        if PassThrough(name) && arguments != [] {
          TypeStable(w, file, arguments[0], steps, seen, fuel);
        } else if ArrayName(name) && arguments != [] {
          if steps[0].ArrayStep? {
            TypeStable(w, file, arguments[0], steps[1..], seen, fuel);
          }
        } else if !qualified && TargetOf(w, file, name).Some? {
          DeclarationStable(w, TargetOf(w, file, name).value, steps, seen, fuel);
        }
      case OtherType =>
    }
  }

  lemma {:induction false} AllStable(w: World, file: string, t: TypeNode, types: seq<TypeNode>, i: nat, steps: seq<PathStep>, seen: set<SeenKey>, fuel: nat)
    requires file in w.files && i <= |types|
    requires (t.Intersection? || t.Union?) && t.types == types
    requires !LookupAll(w, file, t, types, i, steps, seen, fuel).Exhausted?
    ensures LookupAll(w, file, t, types, i, steps, seen, fuel + 1) == LookupAll(w, file, t, types, i, steps, seen, fuel)
    decreases fuel, Unseen(w, seen, |steps| + fuel), 1, t, 0, |types| - i
  {
    if i < |types| {
      var first := LookupType(w, file, types[i], steps, seen, fuel);
      TypeStable(w, file, types[i], steps, seen, fuel);
      if first.Done? {
        UnseenAfter(w, seen, first.seen, |steps| + fuel);
        AllStable(w, file, t, types, i + 1, steps, first.seen, fuel);
      }
    }
  }

  lemma {:induction false} BasesStable(w: World, file: string, heritage: seq<Heritage>, i: nat, steps: seq<PathStep>, seen: set<SeenKey>, fuel: nat)
    requires file in w.files && i <= |heritage|
    requires !LookupBases(w, file, heritage, i, steps, seen, fuel).Exhausted?
    ensures LookupBases(w, file, heritage, i, steps, seen, fuel + 1) == LookupBases(w, file, heritage, i, steps, seen, fuel)
    decreases fuel, Unseen(w, seen, |steps| + fuel), 2, |heritage| - i
  {
    if i < |heritage| {
      if BaseOf(w, file, heritage[i]).Hit? {
        DeclarationStable(w, BaseOf(w, file, heritage[i]).decl, steps, seen, fuel);
      }
      var first := LookupBase(w, file, heritage[i], steps, seen, fuel);
      if first.Done? {
        UnseenAfter(w, seen, first.seen, |steps| + fuel);
        BasesStable(w, file, heritage, i + 1, steps, first.seen, fuel);
      }
    }
  }

  /** Every allowance that lets the walk end, at a file that is not there too, gives the same outcome. */
  lemma {:induction false} AllowanceIrrelevant(w: World, id: DeclId, steps: seq<PathStep>, less: nat, more: nat)
    requires w.Holds(id) && less <= more
    requires !LookupDeclaration(w, id, steps, {}, less).Exhausted?
    ensures LookupDeclaration(w, id, steps, {}, more) == LookupDeclaration(w, id, steps, {}, less)
    decreases more
  {
    if less < more {
      AllowanceIrrelevant(w, id, steps, less, more - 1);
      DeclarationStable(w, id, steps, {}, more - 1);
    }
  }

  /** `type A = A['x']` in a file of its own. */
  const SELF_INDEXED := World(map["a.ts" := File([Alias("A", IndexedAccess(Reference("A", false, []), Some("x")))], map[], [])])

  /** No allowance is ever enough: on a self-indexed alias the walk does not end. */
  lemma {:induction false} SelfIndexedNeverEnds(steps: seq<PathStep>, seen: set<SeenKey>, fuel: nat)
    requires steps != [] && forall k :: k in seen ==> k.1 < |steps|
    ensures SELF_INDEXED.Holds(DeclId("a.ts", 0))
    ensures LookupDeclaration(SELF_INDEXED, DeclId("a.ts", 0), steps, seen, fuel).Exhausted?
    decreases fuel
  {
    var w, id := SELF_INDEXED, DeclId("a.ts", 0);
    assert w.Holds(id);
    var t := IndexedAccess(Reference("A", false, []), Some("x"));
    assert w.At(id) == Alias("A", t);
    assert FirstNamed(w.files["a.ts"].declarations, "A", 0) == Some(0);
    assert DeclForTypeName(w, "a.ts", "A") == Hit(id);
    var seen' := seen + {(id, |steps|)};
    if fuel > 0 {
      SelfIndexedNeverEnds([MemberStep("x")] + steps, seen', fuel - 1);
      assert LookupType(w, "a.ts", Reference("A", false, []), [MemberStep("x")] + steps, seen', fuel - 1).Exhausted?;
    }
  }
}
