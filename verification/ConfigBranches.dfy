/**
 * What the `seen` set of lookupPath costs: scripts/gen-config-catalog.ts. The walk shares one set
 * between all branches and keys it by the number of steps left; the walk below keeps one for each
 * branch, keyed by the steps themselves, and decides every path.
 */
module ConfigBranches {
  import opened Wrappers
  import opened ConfigTypes
  import opened ConfigPaths

  // ---------- a walk that meets nothing again ----------

  /** The answer is as definite as the path. */
  ghost predicate Decided(w: World, file: string, node: Node, steps: seq<PathStep>, r: PathLookup)
    requires file in w.files && Known(w, node)
  {
    && (Present(w, file, node, steps) ==> r == Found)
    && (Absent(w, file, node, steps) ==> r == Missing)
  }

  ghost predicate BaseDecided(w: World, file: string, base: Heritage, steps: seq<PathStep>, r: PathLookup)
    requires file in w.files
  {
    BaseOf(w, file, base).Hit? ==> Decided(w, BaseOf(w, file, base).decl.file, OfDeclaration(BaseOf(w, file, base).decl), steps, r)
  }

  ghost predicate BasesDecided(w: World, file: string, heritage: seq<Heritage>, i: nat, steps: seq<PathStep>, all: seq<PathLookup>)
    requires file in w.files && i <= |heritage|
  {
    |all| == |heritage| - i && forall k :: i <= k < |heritage| ==> BaseDecided(w, file, heritage[k], steps, all[k - i])
  }

  lemma HeritageDecided(w: World, id: DeclId, steps: seq<PathStep>, all: seq<PathLookup>)
    requires w.Holds(id) && w.At(id).Interface? && steps != [] && steps[0].MemberStep?
    requires FirstProperty(w.At(id).members, steps[0].member).None?
    requires BasesDecided(w, id.file, w.At(id).heritage, 0, steps, all)
    ensures Decided(w, id.file, OfDeclaration(id), steps, Combine(all))
  {
    var heritage := w.At(id).heritage;
    assert forall k :: 0 <= k < |all| ==> BaseDecided(w, id.file, heritage[k], steps, all[k]);
    if Present(w, id.file, OfDeclaration(id), steps) {
      var k :| 0 <= k < |heritage| && BaseOf(w, id.file, heritage[k]).Hit?
        && Present(w, BaseOf(w, id.file, heritage[k]).decl.file, OfDeclaration(BaseOf(w, id.file, heritage[k]).decl), steps);
      assert all[k] == Found;
    }
  }

  lemma {:induction false} DeclarationDecided(w: World, id: DeclId, steps: seq<PathStep>, seen: set<SeenKey>, fuel: nat)
    requires w.Holds(id) && LookupDeclaration(w, id, steps, seen, fuel).Done? && !LookupDeclaration(w, id, steps, seen, fuel).again
    ensures Decided(w, id.file, OfDeclaration(id), steps, LookupDeclaration(w, id, steps, seen, fuel).value)
    decreases fuel, Unseen(w, seen, |steps| + fuel), 0
  {
    if steps != [] && (id, |steps|) !in seen {
      var seen' := seen + {(id, |steps|)};
      SeeMore(w, id, steps, seen, fuel);
      match w.At(id)
      case Enum(_) =>
      case Alias(_, t) => TypeDecided(w, id.file, t, steps, seen', fuel);
      case Interface(_, members, heritage) =>
        if steps[0].MemberStep? {
          var m := FirstProperty(members, steps[0].member);
          if m.Some? && |steps| > 1 && m.value.type_.Some? {
            UnseenShrinks(w, seen', |steps| - 1 + fuel, |steps| + fuel);
            TypeDecided(w, id.file, m.value.type_.value, steps[1..], seen', fuel);
          }
          if m.None? {
            InheritedDecided(w, id, steps, seen', fuel);
          }
        }
    }
  }

  lemma {:induction false} InheritedDecided(w: World, id: DeclId, steps: seq<PathStep>, seen: set<SeenKey>, fuel: nat)
    requires w.Holds(id) && w.At(id).Interface? && steps != [] && steps[0].MemberStep?
    requires FirstProperty(w.At(id).members, steps[0].member).None?
    requires LookupBases(w, id.file, w.At(id).heritage, 0, steps, seen, fuel).Done?
    requires !LookupBases(w, id.file, w.At(id).heritage, 0, steps, seen, fuel).again
    ensures Decided(w, id.file, OfDeclaration(id), steps, Combine(LookupBases(w, id.file, w.At(id).heritage, 0, steps, seen, fuel).value))
    decreases fuel, Unseen(w, seen, |steps| + fuel), 3
  {
    hide *;
    HoldsFile(w, id);
    BasesDecide(w, id.file, w.At(id).heritage, 0, steps, seen, fuel);
    HeritageDecided(w, id, steps, LookupBases(w, id.file, w.At(id).heritage, 0, steps, seen, fuel).value);
  }

  lemma {:induction false} TypeDecided(w: World, file: string, t: TypeNode, steps: seq<PathStep>, seen: set<SeenKey>, fuel: nat)
    requires file in w.files && LookupType(w, file, t, steps, seen, fuel).Done? && !LookupType(w, file, t, steps, seen, fuel).again
    ensures Decided(w, file, OfType(t), steps, LookupType(w, file, t, steps, seen, fuel).value)
    decreases fuel, Unseen(w, seen, |steps| + fuel), 1, t, 1, 0
  {
    if steps != [] {
      UnseenShrinks(w, seen, |steps| - 1 + fuel, |steps| + fuel);
      match t
      case TypeLiteral(members) =>
        if steps[0].MemberStep? {
          var m := FirstProperty(members, steps[0].member);
          if m.Some? && |steps| > 1 && m.value.type_.Some? {
            assert m.value.type_.value < t;
            TypeDecided(w, file, m.value.type_.value, steps[1..], seen, fuel);
          }
        }
      case Parenthesized(inner) => TypeDecided(w, file, inner, steps, seen, fuel);
      case Intersection(types) =>
        AllDecided(w, file, t, types, 0, steps, seen, fuel);
        PartsDecided(w, file, t, steps, LookupAll(w, file, t, types, 0, steps, seen, fuel).value);
      case Union(types) =>
        AllDecided(w, file, t, types, 0, steps, seen, fuel);
        PartsDecided(w, file, t, steps, LookupAll(w, file, t, types, 0, steps, seen, fuel).value);
      case ArrayType(element) =>
        if steps[0].ArrayStep? {
          TypeDecided(w, file, element, steps[1..], seen, fuel);
        }
      case TypeOperator(_, inner) => TypeDecided(w, file, inner, steps, seen, fuel);
      case IndexedAccess(whole, index) =>
        if index.Some? {
          TypeDecided(w, file, whole, [MemberStep(index.value)] + steps, seen, fuel - 1);
        }
      case Reference(name, qualified, arguments) =>
        if PassThrough(name) && arguments != [] {
          TypeDecided(w, file, arguments[0], steps, seen, fuel);
        } else if ArrayName(name) && arguments != [] {
          if steps[0].ArrayStep? {
            TypeDecided(w, file, arguments[0], steps[1..], seen, fuel);
          }
        } else if !qualified && TargetOf(w, file, name).Some? {
          DeclarationDecided(w, TargetOf(w, file, name).value, steps, seen, fuel);
        }
      case OtherType =>
    }
  }

  /** The parts of an intersection or a union decide the whole. */
  lemma PartsDecided(w: World, file: string, t: TypeNode, steps: seq<PathStep>, all: seq<PathLookup>)
    requires file in w.files && steps != [] && (t.Intersection? || t.Union?) && |all| == |t.types|
    requires forall k :: 0 <= k < |all| ==> Decided(w, file, OfType(t.types[k]), steps, all[k])
    ensures Decided(w, file, OfType(t), steps, if t.Intersection? then Combine(all) else Agree(all))
  {
    if t.Intersection? && Present(w, file, OfType(t), steps) {
      var k :| 0 <= k < |t.types| && Present(w, file, OfType(t.types[k]), steps);
      assert all[k] == Found;
    }
    if t.Union? && Absent(w, file, OfType(t), steps) {
      assert all[0] == Missing && all[0] in all;
    }
  }

  lemma {:induction false} AllDecided(w: World, file: string, t: TypeNode, types: seq<TypeNode>, i: nat, steps: seq<PathStep>, seen: set<SeenKey>, fuel: nat)
    requires file in w.files && i <= |types|
    requires (t.Intersection? || t.Union?) && t.types == types
    requires LookupAll(w, file, t, types, i, steps, seen, fuel).Done? && !LookupAll(w, file, t, types, i, steps, seen, fuel).again
    ensures var all := LookupAll(w, file, t, types, i, steps, seen, fuel).value;
            forall k :: i <= k < |types| ==> Decided(w, file, OfType(types[k]), steps, all[k - i])
    decreases fuel, Unseen(w, seen, |steps| + fuel), 1, t, 0, |types| - i
  {
    hide Decided;
    if i < |types| {
      var first := LookupType(w, file, types[i], steps, seen, fuel);
      TypeDecided(w, file, types[i], steps, seen, fuel);
      UnseenAfter(w, seen, first.seen, |steps| + fuel);
      AllDecided(w, file, t, types, i + 1, steps, first.seen, fuel);
    }
  }

  lemma {:induction false} BasesDecide(w: World, file: string, heritage: seq<Heritage>, i: nat, steps: seq<PathStep>, seen: set<SeenKey>, fuel: nat)
    requires file in w.files && i <= |heritage|
    requires LookupBases(w, file, heritage, i, steps, seen, fuel).Done? && !LookupBases(w, file, heritage, i, steps, seen, fuel).again
    ensures BasesDecided(w, file, heritage, i, steps, LookupBases(w, file, heritage, i, steps, seen, fuel).value)
    decreases fuel, Unseen(w, seen, |steps| + fuel), 2, |heritage| - i
  {
    hide Decided, LookupDeclaration;
    if i < |heritage| {
      var first := LookupBase(w, file, heritage[i], steps, seen, fuel);
      if BaseOf(w, file, heritage[i]).Hit? {
        DeclarationDecided(w, BaseOf(w, file, heritage[i]).decl, steps, seen, fuel);
      }
      UnseenAfter(w, seen, first.seen, |steps| + fuel);
      BasesDecide(w, file, heritage, i + 1, steps, first.seen, fuel);
    }
  }

  /**
   * A walk that meets no declaration twice with as many steps left decides the path: "found" exactly
   * when the spelling leads through property signatures, "missing" exactly when every way is ruled out.
   */
  lemma NothingAgain(w: World, id: DeclId, steps: seq<PathStep>, fuel: nat)
    requires w.Holds(id) && LookupDeclaration(w, id, steps, {}, fuel).Done? && !LookupDeclaration(w, id, steps, {}, fuel).again
    ensures var r := LookupDeclaration(w, id, steps, {}, fuel).value;
      && (r == Found <==> Present(w, id.file, OfDeclaration(id), steps))
      && (r == Missing <==> Absent(w, id.file, OfDeclaration(id), steps))
  {
    DeclarationDecided(w, id, steps, {}, fuel);
    DeclarationSound(w, id, steps, {}, fuel);
  }

  // ---------- one set for each branch ----------

  /** A declaration reached with these steps left. */
  type BranchKey = (DeclId, seq<PathStep>)

  /** The keys a branch with `steps` left can still meet for the first time. */
  ghost function Ahead(w: World, above: set<BranchKey>, steps: seq<PathStep>): set<BranchKey> {
    set d, i | d in AllDeclarations(w) && 0 <= i <= |steps| && (d, steps[i..]) !in above :: (d, steps[i..])
  }

  lemma AheadShrinks(w: World, above: set<BranchKey>, steps: seq<PathStep>)
    requires steps != []
    ensures Ahead(w, above, steps[1..]) <= Ahead(w, above, steps)
  {
    forall key | key in Ahead(w, above, steps[1..]) ensures key in Ahead(w, above, steps) {
      var i :| 0 <= i <= |steps| - 1 && key.1 == steps[1..][i..];
      var j := i + 1;
      assert steps[1..][i..] == steps[j..];
    }
  }

  lemma GoAhead(w: World, id: DeclId, above: set<BranchKey>, steps: seq<PathStep>)
    requires w.Holds(id) && (id, steps) !in above
    ensures Ahead(w, above + {(id, steps)}, steps) < Ahead(w, above, steps)
  {
    assert id == DeclId(id.file, id.pos) && id in AllDeclarations(w);
    var i := 0;
    assert steps[i..] == steps;
    assert (id, steps) in Ahead(w, above, steps);
  }

  /** `None` when the allowance is used up or a file is not there. */
  function BranchDeclaration(w: World, id: DeclId, steps: seq<PathStep>, above: set<BranchKey>, fuel: nat): Option<PathLookup>
    requires w.Holds(id)
    decreases fuel, Ahead(w, above, steps), 0
  {
    if steps == [] then Some(Found)
    else
      match w.At(id)
      case Enum(_) => Some(Unknown)
      case Alias(_, t) =>
        if (id, steps) in above then Some(Unknown)
        else
          GoAhead(w, id, above, steps);
          BranchType(w, id.file, t, steps, above + {(id, steps)}, fuel)
      case Interface(_, members, heritage) =>
        if (id, steps) in above || steps[0].ArrayStep? then Some(Unknown)
        else
          GoAhead(w, id, above, steps);
          var m := FirstProperty(members, steps[0].member);
          if m.Some? then
            if |steps| == 1 then Some(Found)
            else if m.value.type_.None? then Some(Unknown)
            else
              AheadShrinks(w, above + {(id, steps)}, steps);
              BranchType(w, id.file, m.value.type_.value, steps[1..], above + {(id, steps)}, fuel)
          else
            match BranchBases(w, id.file, heritage, 0, steps, above + {(id, steps)}, fuel)
            case None => None
            case Some(all) => Some(Combine(all))
  }

  function BranchType(w: World, file: string, t: TypeNode, steps: seq<PathStep>, above: set<BranchKey>, fuel: nat): Option<PathLookup>
    requires file in w.files
    decreases fuel, Ahead(w, above, steps), 1, t, 1, 0
  {
    if steps == [] then Some(Found)
    else
      match t
      case TypeLiteral(members) =>
        if steps[0].ArrayStep? then Some(Unknown)
        else
          var m := FirstProperty(members, steps[0].member);
          if m.None? then Some(Missing)
          else if |steps| == 1 then Some(Found)
          else if m.value.type_.None? then Some(Unknown)
          else
            AheadShrinks(w, above, steps);
            assert m.value.type_.value < t;
            BranchType(w, file, m.value.type_.value, steps[1..], above, fuel)
      case Parenthesized(inner) => BranchType(w, file, inner, steps, above, fuel)
      case Intersection(types) =>
        (match BranchAll(w, file, t, types, 0, steps, above, fuel)
         case None => None
         case Some(all) => Some(Combine(all)))
      case Union(types) =>
        (match BranchAll(w, file, t, types, 0, steps, above, fuel)
         case None => None
         case Some(all) => Some(Agree(all)))
      case ArrayType(element) =>
        if steps[0].MemberStep? then Some(Unknown)
        else
          AheadShrinks(w, above, steps);
          BranchType(w, file, element, steps[1..], above, fuel)
      case TypeOperator(_, inner) => BranchType(w, file, inner, steps, above, fuel)
      case IndexedAccess(whole, index) =>
        if index.None? then Some(Unknown)
        else if fuel == 0 then None
        else BranchType(w, file, whole, [MemberStep(index.value)] + steps, above, fuel - 1)
      case Reference(name, qualified, arguments) =>
        if PassThrough(name) && arguments != [] then BranchType(w, file, arguments[0], steps, above, fuel)
        else if ArrayName(name) && arguments != [] then
          if steps[0].MemberStep? then Some(Unknown)
          else
            AheadShrinks(w, above, steps);
            BranchType(w, file, arguments[0], steps[1..], above, fuel)
        else if qualified then Some(Unknown)
        else
          (match DeclForTypeName(w, file, name)
           case Hit(id) => BranchDeclaration(w, id, steps, above, fuel)
           case Miss => Some(Unknown)
           case Broken => None)
      case OtherType => Some(Unknown)
  }

  function BranchAll(w: World, file: string, t: TypeNode, types: seq<TypeNode>, i: nat, steps: seq<PathStep>, above: set<BranchKey>, fuel: nat): (r: Option<seq<PathLookup>>)
    requires file in w.files && i <= |types|
    requires (t.Intersection? || t.Union?) && t.types == types
    ensures r.Some? ==> |r.value| == |types| - i
    decreases fuel, Ahead(w, above, steps), 1, t, 0, |types| - i
  {
    if i == |types| then Some([])
    else
      match BranchType(w, file, types[i], steps, above, fuel)
      case None => None
      case Some(first) =>
        (match BranchAll(w, file, t, types, i + 1, steps, above, fuel)
         case None => None
         case Some(rest) => Some([first] + rest))
  }

  function BranchBase(w: World, file: string, base: Heritage, steps: seq<PathStep>, above: set<BranchKey>, fuel: nat): Option<PathLookup>
    requires file in w.files
    decreases fuel, Ahead(w, above, steps), 1
  {
    match BaseOf(w, file, base)
    case Hit(id) => BranchDeclaration(w, id, steps, above, fuel)
    case Miss => Some(Unknown)
    case Broken => None
  }

  function BranchBases(w: World, file: string, heritage: seq<Heritage>, i: nat, steps: seq<PathStep>, above: set<BranchKey>, fuel: nat): (r: Option<seq<PathLookup>>)
    requires file in w.files && i <= |heritage|
    ensures r.Some? ==> |r.value| == |heritage| - i
    decreases fuel, Ahead(w, above, steps), 2, |heritage| - i
  {
    if i == |heritage| then Some([])
    else
      match BranchBase(w, file, heritage[i], steps, above, fuel)
      case None => None
      case Some(first) =>
        (match BranchBases(w, file, heritage, i + 1, steps, above, fuel)
         case None => None
         case Some(rest) => Some([first] + rest))
  }

  // ---------- the shared walk answers what the branches answer, or nothing ----------

  ghost predicate Covers(seen: set<SeenKey>, above: set<BranchKey>) {
    forall key :: key in above ==> (key.0, |key.1|) in seen
  }

  ghost predicate Weaker(shared: PathLookup, branch: PathLookup) {
    shared == Unknown || shared == branch
  }

  ghost predicate AllWeaker(shared: seq<PathLookup>, branch: seq<PathLookup>) {
    |shared| == |branch| && forall k :: 0 <= k < |shared| ==> Weaker(shared[k], branch[k])
  }

  lemma CombineWeaker(shared: seq<PathLookup>, branch: seq<PathLookup>)
    requires AllWeaker(shared, branch)
    ensures Weaker(Combine(shared), Combine(branch)) && Weaker(Agree(shared), Agree(branch))
  {
    if Found in shared {
      var k :| 0 <= k < |shared| && shared[k] == Found;
      assert branch[k] == Found;
    }
    assert forall k :: 0 <= k < |shared| ==> shared[k] in shared && branch[k] in branch;
    if (forall r :: r in shared ==> r == Found) || (forall r :: r in shared ==> r == Missing) {
      assert shared == branch;
    }
  }

  lemma {:induction false} DeclarationWeaker(w: World, id: DeclId, steps: seq<PathStep>, seen: set<SeenKey>, above: set<BranchKey>, fuel: nat)
    requires w.Holds(id) && Covers(seen, above)
    requires LookupDeclaration(w, id, steps, seen, fuel).Done? && BranchDeclaration(w, id, steps, above, fuel).Some?
    ensures Weaker(LookupDeclaration(w, id, steps, seen, fuel).value, BranchDeclaration(w, id, steps, above, fuel).value)
    decreases fuel, Unseen(w, seen, |steps| + fuel), 0
  {
    if steps != [] && (id, |steps|) !in seen {
      var seen', above' := seen + {(id, |steps|)}, above + {(id, steps)};
      SeeMore(w, id, steps, seen, fuel);
      match w.At(id)
      case Enum(_) =>
      case Alias(_, t) => TypeWeaker(w, id.file, t, steps, seen', above', fuel);
      case Interface(_, members, heritage) =>
        if steps[0].MemberStep? {
          var m := FirstProperty(members, steps[0].member);
          if m.Some? && |steps| > 1 && m.value.type_.Some? {
            UnseenShrinks(w, seen', |steps| - 1 + fuel, |steps| + fuel);
            TypeWeaker(w, id.file, m.value.type_.value, steps[1..], seen', above', fuel);
          }
          if m.None? {
            BasesWeaker(w, id.file, heritage, 0, steps, seen', above', fuel);
            CombineWeaker(LookupBases(w, id.file, heritage, 0, steps, seen', fuel).value,
                          BranchBases(w, id.file, heritage, 0, steps, above', fuel).value);
          }
        }
    }
  }

  lemma {:induction false} TypeWeaker(w: World, file: string, t: TypeNode, steps: seq<PathStep>, seen: set<SeenKey>, above: set<BranchKey>, fuel: nat)
    requires file in w.files && Covers(seen, above)
    requires LookupType(w, file, t, steps, seen, fuel).Done? && BranchType(w, file, t, steps, above, fuel).Some?
    ensures Weaker(LookupType(w, file, t, steps, seen, fuel).value, BranchType(w, file, t, steps, above, fuel).value)
    decreases fuel, Unseen(w, seen, |steps| + fuel), 1, t, 1, 0
  {
    hide Covers;
    if steps != [] {
      UnseenShrinks(w, seen, |steps| - 1 + fuel, |steps| + fuel);
      match t
      case TypeLiteral(members) =>
        if steps[0].MemberStep? {
          var m := FirstProperty(members, steps[0].member);
          if m.Some? && |steps| > 1 && m.value.type_.Some? {
            assert m.value.type_.value < t;
            TypeWeaker(w, file, m.value.type_.value, steps[1..], seen, above, fuel);
          }
        }
      case Parenthesized(inner) => TypeWeaker(w, file, inner, steps, seen, above, fuel);
      case Intersection(types) =>
        AllAreWeaker(w, file, t, types, 0, steps, seen, above, fuel);
        CombineWeaker(LookupAll(w, file, t, types, 0, steps, seen, fuel).value, BranchAll(w, file, t, types, 0, steps, above, fuel).value);
      case Union(types) =>
        AllAreWeaker(w, file, t, types, 0, steps, seen, above, fuel);
        CombineWeaker(LookupAll(w, file, t, types, 0, steps, seen, fuel).value, BranchAll(w, file, t, types, 0, steps, above, fuel).value);
      case ArrayType(element) =>
        if steps[0].ArrayStep? {
          TypeWeaker(w, file, element, steps[1..], seen, above, fuel);
        }
      case TypeOperator(_, inner) => TypeWeaker(w, file, inner, steps, seen, above, fuel);
      case IndexedAccess(whole, index) =>
        if index.Some? {
          TypeWeaker(w, file, whole, [MemberStep(index.value)] + steps, seen, above, fuel - 1);
        }
      case Reference(name, qualified, arguments) =>
        if PassThrough(name) && arguments != [] {
          TypeWeaker(w, file, arguments[0], steps, seen, above, fuel);
        } else if ArrayName(name) && arguments != [] {
          if steps[0].ArrayStep? {
            TypeWeaker(w, file, arguments[0], steps[1..], seen, above, fuel);
          }
        } else if !qualified && TargetOf(w, file, name).Some? {
          DeclarationWeaker(w, TargetOf(w, file, name).value, steps, seen, above, fuel);
        }
      case OtherType =>
    }
  }

  lemma {:induction false} AllAreWeaker(w: World, file: string, t: TypeNode, types: seq<TypeNode>, i: nat, steps: seq<PathStep>, seen: set<SeenKey>, above: set<BranchKey>, fuel: nat)
    requires file in w.files && i <= |types| && Covers(seen, above)
    requires (t.Intersection? || t.Union?) && t.types == types
    requires LookupAll(w, file, t, types, i, steps, seen, fuel).Done? && BranchAll(w, file, t, types, i, steps, above, fuel).Some?
    ensures AllWeaker(LookupAll(w, file, t, types, i, steps, seen, fuel).value, BranchAll(w, file, t, types, i, steps, above, fuel).value)
    decreases fuel, Unseen(w, seen, |steps| + fuel), 1, t, 0, |types| - i
  {
    if i < |types| {
      var first := LookupType(w, file, types[i], steps, seen, fuel);
      TypeWeaker(w, file, types[i], steps, seen, above, fuel);
      UnseenAfter(w, seen, first.seen, |steps| + fuel);
      AllAreWeaker(w, file, t, types, i + 1, steps, first.seen, above, fuel);
    }
  }

  lemma {:induction false} BasesWeaker(w: World, file: string, heritage: seq<Heritage>, i: nat, steps: seq<PathStep>, seen: set<SeenKey>, above: set<BranchKey>, fuel: nat)
    requires file in w.files && i <= |heritage| && Covers(seen, above)
    requires LookupBases(w, file, heritage, i, steps, seen, fuel).Done? && BranchBases(w, file, heritage, i, steps, above, fuel).Some?
    ensures AllWeaker(LookupBases(w, file, heritage, i, steps, seen, fuel).value, BranchBases(w, file, heritage, i, steps, above, fuel).value)
    decreases fuel, Unseen(w, seen, |steps| + fuel), 2, |heritage| - i
  {
    hide LookupDeclaration, BranchDeclaration;
    if i < |heritage| {
      var first := LookupBase(w, file, heritage[i], steps, seen, fuel);
      if BaseOf(w, file, heritage[i]).Hit? {
        DeclarationWeaker(w, BaseOf(w, file, heritage[i]).decl, steps, seen, above, fuel);
      }
      UnseenAfter(w, seen, first.seen, |steps| + fuel);
      BasesWeaker(w, file, heritage, i + 1, steps, first.seen, above, fuel);
    }
  }

  // ---------- the walk with one set for each branch decides every path ----------

  lemma {:induction false} BasesAt(w: World, file: string, heritage: seq<Heritage>, i: nat, steps: seq<PathStep>, above: set<BranchKey>, fuel: nat, k: nat)
    requires file in w.files && i <= k < |heritage| && BranchBases(w, file, heritage, i, steps, above, fuel).Some?
    ensures BranchBase(w, file, heritage[k], steps, above, fuel) == Some(BranchBases(w, file, heritage, i, steps, above, fuel).value[k - i])
    decreases k - i
  {
    if i < k {
      BasesAt(w, file, heritage, i + 1, steps, above, fuel, k);
    }
  }

  lemma {:induction false} AllAt(w: World, file: string, t: TypeNode, types: seq<TypeNode>, i: nat, steps: seq<PathStep>, above: set<BranchKey>, fuel: nat, k: nat)
    requires file in w.files && i <= k < |types| && (t.Intersection? || t.Union?) && t.types == types
    requires BranchAll(w, file, t, types, i, steps, above, fuel).Some?
    ensures BranchType(w, file, types[k], steps, above, fuel) == Some(BranchAll(w, file, t, types, i, steps, above, fuel).value[k - i])
    decreases k - i
  {
    if i < k {
      AllAt(w, file, t, types, i + 1, steps, above, fuel, k);
    }
  }

  lemma AgreeOn(all: seq<PathLookup>, r: PathLookup)
    requires r != Unknown && forall i :: 0 <= i < |all| ==> all[i] == r
    requires all == [] ==> r == Found
    ensures Agree(all) == r
  {
    assert all != [] ==> all[0] in all;
  }

  lemma {:induction false} BranchDeclarationSound(w: World, id: DeclId, steps: seq<PathStep>, above: set<BranchKey>, fuel: nat)
    requires w.Holds(id) && BranchDeclaration(w, id, steps, above, fuel).Some?
    ensures Justified(w, id.file, OfDeclaration(id), steps, BranchDeclaration(w, id, steps, above, fuel).value)
    decreases fuel, Ahead(w, above, steps), 0
  {
    if steps != [] && (id, steps) !in above {
      var above' := above + {(id, steps)};
      GoAhead(w, id, above, steps);
      match w.At(id)
      case Enum(_) =>
      case Alias(_, t) => BranchTypeSound(w, id.file, t, steps, above', fuel);
      case Interface(_, members, heritage) =>
        if steps[0].MemberStep? {
          var m := FirstProperty(members, steps[0].member);
          if m.Some? && |steps| > 1 && m.value.type_.Some? {
            AheadShrinks(w, above', steps);
            BranchTypeSound(w, id.file, m.value.type_.value, steps[1..], above', fuel);
          }
          if m.None? {
            BranchBasesSound(w, id, steps, above', fuel);
          }
        }
    }
  }

  lemma {:induction false} BranchBasesSound(w: World, id: DeclId, steps: seq<PathStep>, above: set<BranchKey>, fuel: nat)
    requires w.Holds(id) && w.At(id).Interface? && steps != [] && steps[0].MemberStep?
    requires FirstProperty(w.At(id).members, steps[0].member).None?
    requires BranchBases(w, id.file, w.At(id).heritage, 0, steps, above, fuel).Some?
    ensures Justified(w, id.file, OfDeclaration(id), steps, Combine(BranchBases(w, id.file, w.At(id).heritage, 0, steps, above, fuel).value))
    decreases fuel, Ahead(w, above, steps), 3
  {
    var heritage := w.At(id).heritage;
    var all := BranchBases(w, id.file, heritage, 0, steps, above, fuel).value;
    forall k | 0 <= k < |heritage| ensures Resolved(w, id.file, heritage[k]) && BaseJustified(w, id.file, heritage[k], steps, all[k]) {
      BasesAt(w, id.file, heritage, 0, steps, above, fuel, k);
      if BaseOf(w, id.file, heritage[k]).Hit? {
        BranchDeclarationSound(w, BaseOf(w, id.file, heritage[k]).decl, steps, above, fuel);
      }
    }
    hide Justified, BranchBases, BaseJustified, Resolved;
    HeritageSound(w, id, steps, all);
  }

  lemma {:induction false} BranchTypeSound(w: World, file: string, t: TypeNode, steps: seq<PathStep>, above: set<BranchKey>, fuel: nat)
    requires file in w.files && BranchType(w, file, t, steps, above, fuel).Some?
    ensures Justified(w, file, OfType(t), steps, BranchType(w, file, t, steps, above, fuel).value)
    decreases fuel, Ahead(w, above, steps), 1, t, 1, 0
  {
    if steps != [] {
      AheadShrinks(w, above, steps);
      match t
      case TypeLiteral(members) =>
        if steps[0].MemberStep? {
          var m := FirstProperty(members, steps[0].member);
          if m.Some? && |steps| > 1 && m.value.type_.Some? {
            assert m.value.type_.value < t;
            BranchTypeSound(w, file, m.value.type_.value, steps[1..], above, fuel);
          }
        }
      case Parenthesized(inner) => BranchTypeSound(w, file, inner, steps, above, fuel);
      case Intersection(types) => BranchPartsSound(w, file, t, steps, above, fuel);
      case Union(types) => BranchPartsSound(w, file, t, steps, above, fuel);
      case ArrayType(element) =>
        if steps[0].ArrayStep? {
          BranchTypeSound(w, file, element, steps[1..], above, fuel);
        }
      case TypeOperator(_, inner) => BranchTypeSound(w, file, inner, steps, above, fuel);
      case IndexedAccess(whole, index) =>
        if index.Some? {
          BranchTypeSound(w, file, whole, [MemberStep(index.value)] + steps, above, fuel - 1);
        }
      case Reference(name, qualified, arguments) =>
        if PassThrough(name) && arguments != [] {
          BranchTypeSound(w, file, arguments[0], steps, above, fuel);
        } else if ArrayName(name) && arguments != [] {
          if steps[0].ArrayStep? {
            BranchTypeSound(w, file, arguments[0], steps[1..], above, fuel);
          }
        } else if !qualified && TargetOf(w, file, name).Some? {
          BranchDeclarationSound(w, TargetOf(w, file, name).value, steps, above, fuel);
        }
      case OtherType =>
    }
  }

  lemma {:induction false} BranchPartsSound(w: World, file: string, t: TypeNode, steps: seq<PathStep>, above: set<BranchKey>, fuel: nat)
    requires file in w.files && steps != [] && (t.Intersection? || t.Union?) && BranchType(w, file, t, steps, above, fuel).Some?
    ensures Justified(w, file, OfType(t), steps, BranchType(w, file, t, steps, above, fuel).value)
    decreases fuel, Ahead(w, above, steps), 1, t, 0, 0
  {
    var all := BranchAll(w, file, t, t.types, 0, steps, above, fuel).value;
    forall k | 0 <= k < |t.types| ensures all[k] in all && Justified(w, file, OfType(t.types[k]), steps, all[k]) {
      AllAt(w, file, t, t.types, 0, steps, above, fuel, k);
      BranchTypeSound(w, file, t.types[k], steps, above, fuel);
    }
    if t.Intersection? && Found in all {
      var k :| 0 <= k < |all| && all[k] == Found;
      assert Present(w, file, OfType(t.types[k]), steps);
    }
  }

  /** No key above is present at height `k` or less. */
  ghost predicate NonePresent(w: World, above: set<BranchKey>, k: nat) {
    forall key, j: nat {:trigger Present#[j](w, key.0.file, OfDeclaration(key.0), key.1)} ::
      key in above && w.Holds(key.0) && j <= k ==> !Present#[j](w, key.0.file, OfDeclaration(key.0), key.1)
  }

  lemma {:induction false} DeclarationFinds(w: World, id: DeclId, steps: seq<PathStep>, above: set<BranchKey>, fuel: nat, k: nat)
    requires w.Holds(id) && BranchDeclaration(w, id, steps, above, fuel).Some?
    requires Present#[k](w, id.file, OfDeclaration(id), steps) && NonePresent(w, above, k)
    ensures BranchDeclaration(w, id, steps, above, fuel).value == Found
    decreases k
  {
    if j: nat :| j < k && Present#[j](w, id.file, OfDeclaration(id), steps) {
      DeclarationFinds(w, id, steps, above, fuel, j);
    } else if steps != [] {
      var above' := above + {(id, steps)};
      assert NonePresent(w, above', k - 1);
      match w.At(id)
      case Enum(_) =>
      case Alias(_, t) => TypeFinds(w, id.file, t, steps, above', fuel, k - 1);
      case Interface(_, members, heritage) =>
        var m := FirstProperty(members, steps[0].member);
        if m.Some? && |steps| > 1 {
          TypeFinds(w, id.file, m.value.type_.value, steps[1..], above', fuel, k - 1);
        }
        if m.None? {
          var all := BranchBases(w, id.file, heritage, 0, steps, above', fuel).value;
          forall i | 0 <= i < |heritage| && BaseOf(w, id.file, heritage[i]).Hit?
            && Present#[k - 1](w, BaseOf(w, id.file, heritage[i]).decl.file, OfDeclaration(BaseOf(w, id.file, heritage[i]).decl), steps)
            ensures all[i] == Found
          {
            BasesAt(w, id.file, heritage, 0, steps, above', fuel, i);
            DeclarationFinds(w, BaseOf(w, id.file, heritage[i]).decl, steps, above', fuel, k - 1);
          }
        }
    }
  }

  lemma {:induction false} TypeFinds(w: World, file: string, t: TypeNode, steps: seq<PathStep>, above: set<BranchKey>, fuel: nat, k: nat)
    requires file in w.files && BranchType(w, file, t, steps, above, fuel).Some?
    requires Present#[k](w, file, OfType(t), steps) && NonePresent(w, above, k)
    ensures BranchType(w, file, t, steps, above, fuel).value == Found
    decreases k
  {
    if steps != [] {
      assert NonePresent(w, above, k - 1);
      hide NonePresent;
      match t
      case TypeLiteral(members) =>
        var m := FirstProperty(members, steps[0].member);
        if m.Some? && |steps| > 1 {
          TypeFinds(w, file, m.value.type_.value, steps[1..], above, fuel, k - 1);
        }
      case Parenthesized(inner) => TypeFinds(w, file, inner, steps, above, fuel, k - 1);
      case Intersection(types) =>
        var all := BranchAll(w, file, t, types, 0, steps, above, fuel).value;
        forall i | 0 <= i < |types| && Present#[k - 1](w, file, OfType(types[i]), steps) ensures all[i] == Found {
          AllAt(w, file, t, types, 0, steps, above, fuel, i);
          TypeFinds(w, file, types[i], steps, above, fuel, k - 1);
        }
      case Union(types) =>
        var all := BranchAll(w, file, t, types, 0, steps, above, fuel).value;
        forall i | 0 <= i < |types| ensures all[i] == Found {
          AllAt(w, file, t, types, 0, steps, above, fuel, i);
          TypeFinds(w, file, types[i], steps, above, fuel, k - 1);
        }
        AgreeOn(all, Found);
      case ArrayType(element) => TypeFinds(w, file, element, steps[1..], above, fuel, k - 1);
      case TypeOperator(_, inner) => TypeFinds(w, file, inner, steps, above, fuel, k - 1);
      case IndexedAccess(whole, index) => TypeFinds(w, file, whole, [MemberStep(index.value)] + steps, above, fuel - 1, k - 1);
      case Reference(name, qualified, arguments) =>
        if PassThrough(name) && arguments != [] {
          TypeFinds(w, file, arguments[0], steps, above, fuel, k - 1);
        } else if ArrayName(name) && arguments != [] {
          TypeFinds(w, file, arguments[0], steps[1..], above, fuel, k - 1);
        } else {
          DeclarationFinds(w, TargetOf(w, file, name).value, steps, above, fuel, k - 1);
        }
      case OtherType =>
    }
  }

  /** No key above is absent at height `k` or less. */
  ghost predicate NoneAbsent(w: World, above: set<BranchKey>, k: nat) {
    forall key, j: nat {:trigger Absent#[j](w, key.0.file, OfDeclaration(key.0), key.1)} ::
      key in above && w.Holds(key.0) && j <= k ==> !Absent#[j](w, key.0.file, OfDeclaration(key.0), key.1)
  }

  lemma {:induction false} DeclarationMisses(w: World, id: DeclId, steps: seq<PathStep>, above: set<BranchKey>, fuel: nat, k: nat)
    requires w.Holds(id) && BranchDeclaration(w, id, steps, above, fuel).Some?
    requires Absent#[k](w, id.file, OfDeclaration(id), steps) && NoneAbsent(w, above, k)
    ensures BranchDeclaration(w, id, steps, above, fuel).value == Missing
    decreases k
  {
    if j: nat :| j < k && Absent#[j](w, id.file, OfDeclaration(id), steps) {
      DeclarationMisses(w, id, steps, above, fuel, j);
    } else if steps != [] {
      var above' := above + {(id, steps)};
      assert NoneAbsent(w, above', k - 1);
      match w.At(id)
      case Enum(_) =>
      case Alias(_, t) => TypeMisses(w, id.file, t, steps, above', fuel, k - 1);
      case Interface(_, members, heritage) =>
        var m := FirstProperty(members, steps[0].member);
        if m.Some? && |steps| > 1 {
          TypeMisses(w, id.file, m.value.type_.value, steps[1..], above', fuel, k - 1);
        }
        if m.None? {
          var all := BranchBases(w, id.file, heritage, 0, steps, above', fuel).value;
          forall i | 0 <= i < |heritage| && BaseOf(w, id.file, heritage[i]).Hit?
            && Absent#[k - 1](w, BaseOf(w, id.file, heritage[i]).decl.file, OfDeclaration(BaseOf(w, id.file, heritage[i]).decl), steps)
            ensures all[i] == Missing
          {
            BasesAt(w, id.file, heritage, 0, steps, above', fuel, i);
            DeclarationMisses(w, BaseOf(w, id.file, heritage[i]).decl, steps, above', fuel, k - 1);
          }
        }
    }
  }

  lemma {:induction false} TypeMisses(w: World, file: string, t: TypeNode, steps: seq<PathStep>, above: set<BranchKey>, fuel: nat, k: nat)
    requires file in w.files && BranchType(w, file, t, steps, above, fuel).Some?
    requires Absent#[k](w, file, OfType(t), steps) && NoneAbsent(w, above, k)
    ensures BranchType(w, file, t, steps, above, fuel).value == Missing
    decreases k
  {
    if steps != [] {
      assert NoneAbsent(w, above, k - 1);
      hide NoneAbsent;
      match t
      case TypeLiteral(members) =>
        var m := FirstProperty(members, steps[0].member);
        if m.Some? && |steps| > 1 {
          TypeMisses(w, file, m.value.type_.value, steps[1..], above, fuel, k - 1);
        }
      case Parenthesized(inner) => TypeMisses(w, file, inner, steps, above, fuel, k - 1);
      case Intersection(types) =>
        var all := BranchAll(w, file, t, types, 0, steps, above, fuel).value;
        forall i | 0 <= i < |types| && Absent#[k - 1](w, file, OfType(types[i]), steps) ensures all[i] == Missing {
          AllAt(w, file, t, types, 0, steps, above, fuel, i);
          TypeMisses(w, file, types[i], steps, above, fuel, k - 1);
        }
      case Union(types) =>
        var all := BranchAll(w, file, t, types, 0, steps, above, fuel).value;
        forall i | 0 <= i < |types| ensures all[i] == Missing {
          AllAt(w, file, t, types, 0, steps, above, fuel, i);
          TypeMisses(w, file, types[i], steps, above, fuel, k - 1);
        }
        AgreeOn(all, Missing);
      case ArrayType(element) => TypeMisses(w, file, element, steps[1..], above, fuel, k - 1);
      case TypeOperator(_, inner) => TypeMisses(w, file, inner, steps, above, fuel, k - 1);
      case IndexedAccess(whole, index) => TypeMisses(w, file, whole, [MemberStep(index.value)] + steps, above, fuel - 1, k - 1);
      case Reference(name, qualified, arguments) =>
        if PassThrough(name) && arguments != [] {
          TypeMisses(w, file, arguments[0], steps, above, fuel, k - 1);
        } else if ArrayName(name) && arguments != [] {
          TypeMisses(w, file, arguments[0], steps[1..], above, fuel, k - 1);
        } else {
          DeclarationMisses(w, TargetOf(w, file, name).value, steps, above, fuel, k - 1);
        }
      case OtherType =>
    }
  }

  // ---------- and it ends where the shared walk ends ----------

  lemma {:induction false} BranchDeclarationEnds(w: World, id: DeclId, steps: seq<PathStep>, above: set<BranchKey>, fuel: nat, rank: DeclId -> nat, most: nat)
    requires w.Holds(id) && Loads(w) && AccessesDescend(w, rank, most) && fuel >= rank(id) * most
    ensures BranchDeclaration(w, id, steps, above, fuel).Some?
    decreases fuel, Ahead(w, above, steps), 0
  {
    hide Loads;
    if steps != [] && (id, steps) !in above {
      GoAhead(w, id, above, steps);
      if DeclarationFits(w, id, 0, rank, rank(id)) {
        BranchBodyEnds(w, id, steps, above + {(id, steps)}, fuel, rank, most, 0, rank(id));
      } else {
        OneRank(rank(id) - 1, most);
        BranchBodyEnds(w, id, steps, above + {(id, steps)}, fuel, rank, most, most, rank(id) - 1);
      }
    }
  }

  lemma {:induction false} BranchBodyEnds(w: World, id: DeclId, steps: seq<PathStep>, above: set<BranchKey>, fuel: nat, rank: DeclId -> nat, most: nat, n: nat, r: nat)
    requires w.Holds(id) && Loads(w) && AccessesDescend(w, rank, most) && steps != []
    requires DeclarationFits(w, id, n, rank, r) && fuel >= n + r * most
    ensures match w.At(id)
      case Interface(_, members, heritage) =>
        steps[0].MemberStep? ==>
          (match FirstProperty(members, steps[0].member)
           case Some(m) => m.type_.Some? ==> BranchType(w, id.file, m.type_.value, steps[1..], above, fuel).Some?
           case None => BranchBases(w, id.file, heritage, 0, steps, above, fuel).Some?)
      case Alias(_, t) => BranchType(w, id.file, t, steps, above, fuel).Some?
      case Enum(_) => true
    decreases fuel, Ahead(w, above, steps), 4
  {
    hide Loads, AccessesDescend;
    match w.At(id)
    case Enum(_) =>
    case Alias(_, t) => BranchTypeEnds(w, id.file, t, steps, above, fuel, rank, most, n, r);
    case Interface(_, members, heritage) =>
      if steps[0].MemberStep? {
        var m := FirstProperty(members, steps[0].member);
        if m.Some? && m.value.type_.Some? {
          AheadShrinks(w, above, steps);
          assert MemberFits(w, id.file, m.value, n, rank, r);
          BranchTypeEnds(w, id.file, m.value.type_.value, steps[1..], above, fuel, rank, most, n, r);
        }
        if m.None? {
          BranchBasesEnd(w, id.file, heritage, 0, steps, above, fuel, rank, most, r);
        }
      }
  }

  lemma {:induction false} BranchTypeEnds(w: World, file: string, t: TypeNode, steps: seq<PathStep>, above: set<BranchKey>, fuel: nat, rank: DeclId -> nat, most: nat, n: nat, r: nat)
    requires file in w.files && Loads(w) && AccessesDescend(w, rank, most) && Fits(w, file, t, n, rank, r) && fuel >= n + r * most
    ensures BranchType(w, file, t, steps, above, fuel).Some?
    decreases fuel, Ahead(w, above, steps), 1, t, 1, 0
  {
    hide AccessesDescend;
    if steps != [] {
      AheadShrinks(w, above, steps);
      match t
      case TypeLiteral(members) =>
        if steps[0].MemberStep? {
          var m := FirstProperty(members, steps[0].member);
          if m.Some? && |steps| > 1 && m.value.type_.Some? {
            assert MemberFits(w, file, m.value, n, rank, r);
            assert m.value.type_.value < t;
            BranchTypeEnds(w, file, m.value.type_.value, steps[1..], above, fuel, rank, most, n, r);
          }
        }
      case Parenthesized(inner) => BranchTypeEnds(w, file, inner, steps, above, fuel, rank, most, n, r);
      case Intersection(types) => BranchAllEnd(w, file, t, types, 0, steps, above, fuel, rank, most, n, r);
      case Union(types) => BranchAllEnd(w, file, t, types, 0, steps, above, fuel, rank, most, n, r);
      case ArrayType(element) => BranchTypeEnds(w, file, element, steps[1..], above, fuel, rank, most, n, r);
      case TypeOperator(_, inner) => BranchTypeEnds(w, file, inner, steps, above, fuel, rank, most, n, r);
      case IndexedAccess(whole, index) =>
        if index.Some? {
          BranchTypeEnds(w, file, whole, [MemberStep(index.value)] + steps, above, fuel - 1, rank, most, n - 1, r);
        }
      case Reference(name, qualified, arguments) =>
        if PassThrough(name) && arguments != [] {
          BranchTypeEnds(w, file, arguments[0], steps, above, fuel, rank, most, n, r);
        } else if ArrayName(name) && arguments != [] {
          BranchTypeEnds(w, file, arguments[0], steps[1..], above, fuel, rank, most, n, r);
        } else if TargetOf(w, file, name).Some? {
          Lower(rank(TargetOf(w, file, name).value), r, most);
          BranchDeclarationEnds(w, TargetOf(w, file, name).value, steps, above, fuel, rank, most);
        }
      case OtherType =>
    }
  }

  lemma {:induction false} BranchAllEnd(w: World, file: string, t: TypeNode, types: seq<TypeNode>, i: nat, steps: seq<PathStep>, above: set<BranchKey>, fuel: nat, rank: DeclId -> nat, most: nat, n: nat, r: nat)
    requires file in w.files && i <= |types| && Loads(w) && AccessesDescend(w, rank, most)
    requires (t.Intersection? || t.Union?) && t.types == types
    requires Fits(w, file, t, n, rank, r) && fuel >= n + r * most
    ensures BranchAll(w, file, t, types, i, steps, above, fuel).Some?
    decreases fuel, Ahead(w, above, steps), 1, t, 0, |types| - i
  {
    hide AccessesDescend, Loads;
    if i < |types| {
      BranchTypeEnds(w, file, types[i], steps, above, fuel, rank, most, n, r);
      BranchAllEnd(w, file, t, types, i + 1, steps, above, fuel, rank, most, n, r);
    }
  }

  lemma {:induction false} BranchBasesEnd(w: World, file: string, heritage: seq<Heritage>, i: nat, steps: seq<PathStep>, above: set<BranchKey>, fuel: nat, rank: DeclId -> nat, most: nat, r: nat)
    requires file in w.files && i <= |heritage| && Loads(w) && AccessesDescend(w, rank, most) && fuel >= r * most
    requires forall k :: 0 <= k < |heritage| && BaseOf(w, file, heritage[k]).Hit? ==> rank(BaseOf(w, file, heritage[k]).decl) <= r
    ensures BranchBases(w, file, heritage, i, steps, above, fuel).Some?
    decreases fuel, Ahead(w, above, steps), 2, |heritage| - i
  {
    hide AccessesDescend;
    if i < |heritage| {
      if BaseOf(w, file, heritage[i]).Hit? {
        var base := BaseOf(w, file, heritage[i]).decl;
        Lower(rank(base), r, most);
        BranchDeclarationEnds(w, base, steps, above, fuel, rank, most);
      }
      BranchBasesEnd(w, file, heritage, i + 1, steps, above, fuel, rank, most, r);
    }
  }

  // ---------- what the shared set costs ----------

  /** With a set for each branch the answer is "found" exactly on present, "missing" exactly on absent paths. */
  lemma BranchesDecide(w: World, id: DeclId, steps: seq<PathStep>, fuel: nat)
    requires w.Holds(id) && BranchDeclaration(w, id, steps, {}, fuel).Some?
    ensures var r := BranchDeclaration(w, id, steps, {}, fuel).value;
      && (r == Found <==> Present(w, id.file, OfDeclaration(id), steps))
      && (r == Missing <==> Absent(w, id.file, OfDeclaration(id), steps))
  {
    BranchDeclarationSound(w, id, steps, {}, fuel);
    if Present(w, id.file, OfDeclaration(id), steps) {
      var k: nat :| Present#[k](w, id.file, OfDeclaration(id), steps);
      DeclarationFinds(w, id, steps, {}, fuel, k);
    }
    if Absent(w, id.file, OfDeclaration(id), steps) {
      var k: nat :| Absent#[k](w, id.file, OfDeclaration(id), steps);
      DeclarationMisses(w, id, steps, {}, fuel, k);
    }
  }

  /**
   * The shared set costs the answer, and only ever turns it into "unknown", exactly when the two
   * walks differ: they agree if and only if the walk finds every present and misses every absent path.
   */
  lemma SharedSetExact(w: World, id: DeclId, steps: seq<PathStep>, fuel: nat)
    requires w.Holds(id)
    requires LookupDeclaration(w, id, steps, {}, fuel).Done? && BranchDeclaration(w, id, steps, {}, fuel).Some?
    ensures var shared := LookupDeclaration(w, id, steps, {}, fuel).value;
      var branch := BranchDeclaration(w, id, steps, {}, fuel).value;
      && (shared == branch || shared == Unknown)
      && (shared == branch <==> Decided(w, id.file, OfDeclaration(id), steps, shared))
  {
    DeclarationWeaker(w, id, steps, {}, {}, fuel);
    BranchesDecide(w, id, steps, fuel);
  }

  /** The same where every name can be looked up and literal indexed accesses lead down: both walks answer. */
  lemma SharedSetExactly(w: World, id: DeclId, steps: seq<PathStep>, rank: DeclId -> nat, most: nat)
    requires w.Holds(id) && Loads(w) && AccessesDescend(w, rank, most)
    ensures LookupDeclaration(w, id, steps, {}, rank(id) * most).Done? && BranchDeclaration(w, id, steps, {}, rank(id) * most).Some?
    ensures var shared := LookupDeclaration(w, id, steps, {}, rank(id) * most).value;
      shared == BranchDeclaration(w, id, steps, {}, rank(id) * most).value <==> Decided(w, id.file, OfDeclaration(id), steps, shared)
  {
    LookupEnds(w, id, steps, rank, most);
    BranchDeclarationEnds(w, id, steps, {}, rank(id) * most, rank, most);
    SharedSetExact(w, id, steps, rank(id) * most);
  }

  const A := Reference("A", false, [])

  /** `interface A { x }`, `type U = A | A`, `type V = A & A`. */
  const REPEATED := World(map["r.ts" := File(
    [Interface("A", [Property(Identifier("x"), None)], []), Alias("U", Union([A, A])), Alias("V", Intersection([A, A]))], map[], [])])

  lemma SecondTime(id: DeclId, step: PathStep, first: PathLookup, t: TypeNode)
    requires step.MemberStep? && id != DeclId("r.ts", 0)
    requires first == (if step.member == "x" then Found else Missing) && (t == Union([A, A]) || t == Intersection([A, A]))
    ensures var seen: set<SeenKey> := {} + {(id, 1)};
      LookupAll(REPEATED, "r.ts", t, [A, A], 0, [step], seen, 0) == Done([first, Unknown], seen + {(DeclId("r.ts", 0), 1)}, true)
  {
    var w, a, steps := REPEATED, DeclId("r.ts", 0), [step];
    var seen: set<SeenKey> := {} + {(id, 1)};
    var after := seen + {(a, 1)};
    assert w.At(a) == Interface("A", [Property(Identifier("x"), None)], []);
    assert FirstNamed(w.files["r.ts"].declarations, "A", 0) == Some(0);
    assert DeclForTypeName(w, "r.ts", "A") == Hit(a);
    assert LookupBases(w, "r.ts", [], 0, steps, after, 0) == Done([], after, false);
    assert LookupDeclaration(w, a, steps, seen, 0) == Done(first, after, false);
    assert LookupType(w, "r.ts", A, steps, seen, 0) == Done(first, after, false);
    assert LookupDeclaration(w, a, steps, after, 0) == Done(Unknown, after, true);
    assert LookupType(w, "r.ts", A, steps, after, 0) == Done(Unknown, after, true);
    assert LookupAll(w, "r.ts", t, [A, A], 2, steps, after, 0) == Done([], after, false);
    assert [Unknown] + [] == [Unknown] && [first] + [Unknown] == [first, Unknown];
    assert LookupAll(w, "r.ts", t, [A, A], 1, steps, after, 0) == Done([Unknown], after, true);
  }

  lemma RepeatedShape()
    ensures var w, a, u, v := REPEATED, DeclId("r.ts", 0), DeclId("r.ts", 1), DeclId("r.ts", 2);
      && w.Holds(a) && w.Holds(u) && w.Holds(v) && w.At(a) == Interface("A", [Property(Identifier("x"), None)], [])
      && w.At(u) == Alias("U", Union([A, A])) && w.At(v) == Alias("V", Intersection([A, A]))
      && TargetOf(w, "r.ts", "A") == Some(a)
  {
    assert FirstNamed(REPEATED.files["r.ts"].declarations, "A", 0) == Some(0);
  }

  lemma PathsInA(x: PathStep)
    requires x.MemberStep?
    ensures "r.ts" in REPEATED.files
    ensures x.member == "x" ==> Present(REPEATED, "r.ts", OfType(A), [x])
    ensures x.member != "x" ==> Absent(REPEATED, "r.ts", OfType(A), [x])
  {
    RepeatedShape();
    hide TargetOf;
    var a := DeclId("r.ts", 0);
    assert x.member == "x" ==> Present(REPEATED, "r.ts", OfDeclaration(a), [x]);
    assert x.member != "x" ==> Absent(REPEATED, "r.ts", OfDeclaration(a), [x]);
  }

  /** The second branch meets what the first has seen: a path that every branch has is "unknown". */
  lemma PresentIsUnknown()
    ensures var u := DeclId("r.ts", 1);
      && REPEATED.Holds(u) && Present(REPEATED, "r.ts", OfDeclaration(u), [MemberStep("x")])
      && LookupDeclaration(REPEATED, u, [MemberStep("x")], {}, 0).Done?
      && LookupDeclaration(REPEATED, u, [MemberStep("x")], {}, 0).value == Unknown
  {
    RepeatedShape();
    PathsInA(MemberStep("x"));
    SecondTime(DeclId("r.ts", 1), MemberStep("x"), Found, Union([A, A]));
    hide TargetOf, LookupAll;
    assert Present(REPEATED, "r.ts", OfType(Union([A, A])), [MemberStep("x")]);
    var all := [Found, Unknown];
    assert all[0] in all && all[1] in all && all[1] == Unknown;
    assert Agree(all) == Unknown;
  }

  /** So is a path that no part of an intersection has. */
  lemma AbsentIsUnknown()
    ensures var v := DeclId("r.ts", 2);
      && REPEATED.Holds(v) && Absent(REPEATED, "r.ts", OfDeclaration(v), [MemberStep("y")])
      && LookupDeclaration(REPEATED, v, [MemberStep("y")], {}, 0).Done?
      && LookupDeclaration(REPEATED, v, [MemberStep("y")], {}, 0).value == Unknown
  {
    RepeatedShape();
    PathsInA(MemberStep("y"));
    SecondTime(DeclId("r.ts", 2), MemberStep("y"), Missing, Intersection([A, A]));
    hide TargetOf, LookupAll;
    assert Absent(REPEATED, "r.ts", OfType(Intersection([A, A])), [MemberStep("y")]);
    assert [Missing, Unknown][1] == Unknown;
    assert Combine([Missing, Unknown]) == Unknown;
  }
}
