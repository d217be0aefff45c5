/**
 * When the walk of scripts/gen-config-catalog.ts meets a declaration again with as many steps left,
 * said of the declarations and the path alone.
 */
module ConfigOnce {
  import opened Wrappers
  import opened ConfigTypes
  import opened ConfigPaths
  import opened ConfigBranches

  /** A node in a file, with the steps left there. */
  datatype Place = Place(file: string, node: Node, steps: seq<PathStep>)

  ghost predicate Stands(w: World, p: Place) {
    p.file in w.files && Known(w, p.node)
  }

  function Parts(file: string, types: seq<TypeNode>, steps: seq<PathStep>): seq<Place> {
    if types == [] then [] else [Place(file, OfType(types[0]), steps)] + Parts(file, types[1..], steps)
  }

  /** The bases that can be looked up. */
  function BasePlaces(w: World, file: string, heritage: seq<Heritage>, steps: seq<PathStep>): seq<Place>
    requires file in w.files
  {
    if heritage == [] then []
    else
      (match BaseOf(w, file, heritage[0])
       case Hit(id) => [Place(id.file, OfDeclaration(id), steps)]
       case _ => []) + BasePlaces(w, file, heritage[1..], steps)
  }

  /** Where the path goes on from a declaration. */
  function FromDeclaration(w: World, id: DeclId, steps: seq<PathStep>): seq<Place>
    requires w.Holds(id) && steps != []
  {
    match w.At(id)
    case Enum(_) => []
    case Alias(_, t) => [Place(id.file, OfType(t), steps)]
    case Interface(_, members, heritage) =>
      if steps[0].ArrayStep? then []
      else
        match FirstProperty(members, steps[0].member)
        case Some(m) => if |steps| > 1 && m.type_.Some? then [Place(id.file, OfType(m.type_.value), steps[1..])] else []
        case None => BasePlaces(w, id.file, heritage, steps)
  }

  /** Where it goes on from a type. */
  function FromType(w: World, file: string, t: TypeNode, steps: seq<PathStep>): seq<Place>
    requires file in w.files && steps != []
  {
    match t
    case TypeLiteral(members) =>
      if steps[0].ArrayStep? then []
      else
        (match FirstProperty(members, steps[0].member)
         case Some(m) => if |steps| > 1 && m.type_.Some? then [Place(file, OfType(m.type_.value), steps[1..])] else []
         case None => [])
    case Parenthesized(inner) => [Place(file, OfType(inner), steps)]
    case Intersection(types) => Parts(file, types, steps)
    case Union(types) => Parts(file, types, steps)
    case ArrayType(element) => if steps[0].ArrayStep? then [Place(file, OfType(element), steps[1..])] else []
    case TypeOperator(_, inner) => [Place(file, OfType(inner), steps)]
    case IndexedAccess(whole, index) =>
      if index.Some? then [Place(file, OfType(whole), [MemberStep(index.value)] + steps)] else []
    case Reference(name, qualified, arguments) =>
      if PassThrough(name) && arguments != [] then [Place(file, OfType(arguments[0]), steps)]
      else if ArrayName(name) && arguments != [] then
        if steps[0].ArrayStep? then [Place(file, OfType(arguments[0]), steps[1..])] else []
      else if !qualified && TargetOf(w, file, name).Some? then
        [Place(TargetOf(w, file, name).value.file, OfDeclaration(TargetOf(w, file, name).value), steps)]
      else []
    case OtherType => []
  }

  function Onward(w: World, p: Place): seq<Place>
    requires Stands(w, p)
  {
    if p.steps == [] then []
    else
      match p.node
      case OfDeclaration(id) => FromDeclaration(w, id, p.steps)
      case OfType(t) => FromType(w, p.file, t, p.steps)
  }

  /** A named declaration with steps left: where recursive types are caught. */
  predicate IsGuarded(w: World, p: Place)
    requires Stands(w, p)
  {
    p.node.OfDeclaration? && p.steps != [] && !w.At(p.node.id).Enum?
  }

  function KeyOf(p: Place): SeenKey
    requires p.node.OfDeclaration?
  {
    (p.node.id, |p.steps|)
  }

  /** The path leads from `p` to the declaration `key.0` with `key.1` steps left. */
  least predicate Meets[nat](w: World, p: Place, key: SeenKey) {
    Stands(w, p) &&
    ((IsGuarded(w, p) && key == KeyOf(p)) || exists i :: 0 <= i < |Onward(w, p)| && Meets(w, Onward(w, p)[i], key))
  }

  ghost predicate AnyMeets(w: World, ps: seq<Place>, key: SeenKey) {
    exists i :: 0 <= i < |ps| && Meets(w, ps[i], key)
  }

  /** Two of the places lead to one declaration with as many steps left. */
  ghost predicate Clash(w: World, ps: seq<Place>) {
    exists i, j, key :: 0 <= i < j < |ps| && Meets(w, ps[i], key) && Meets(w, ps[j], key)
  }

  /** Somewhere behind `p` the path comes to a declaration twice with as many steps left, on one branch or on two. */
  least predicate Repeats[nat](w: World, p: Place) {
    Stands(w, p) &&
    ((IsGuarded(w, p) && AnyMeets(w, Onward(w, p), KeyOf(p)))
     || Clash(w, Onward(w, p))
     || exists i :: 0 <= i < |Onward(w, p)| && Repeats(w, Onward(w, p)[i]))
  }

  ghost predicate AnyRepeats(w: World, ps: seq<Place>) {
    Clash(w, ps) || exists i :: 0 <= i < |ps| && Repeats(w, ps[i])
  }

  // ---------- what a walk over places tells ----------

  /** From `seen` to `after` the keys met at the places were added; one was met again exactly when they repeat or it was seen. */
  ghost predicate Told(w: World, ps: seq<Place>, seen: set<SeenKey>, after: set<SeenKey>, again: bool) {
    && seen <= after
    && (forall key :: key in after ==> key in seen || AnyMeets(w, ps, key))
    && (!again ==> !AnyRepeats(w, ps) && forall key :: AnyMeets(w, ps, key) ==> key in after && key !in seen)
    && (again ==> AnyRepeats(w, ps) || exists key :: key in seen && AnyMeets(w, ps, key))
  }

  lemma MeetsPrepended(w: World, p: Place, ps: seq<Place>, key: SeenKey)
    ensures AnyMeets(w, [p] + ps, key) <==> Meets(w, p, key) || AnyMeets(w, ps, key)
  {
    hide Meets;
    var all := [p] + ps;
    if AnyMeets(w, ps, key) {
      var i :| 0 <= i < |ps| && Meets(w, ps[i], key);
      assert all[i + 1] == ps[i];
    }
    assert all[0] == p;
  }

  lemma ClashPrepended(w: World, p: Place, ps: seq<Place>)
    ensures Clash(w, [p] + ps) <==> Clash(w, ps) || exists key :: Meets(w, p, key) && AnyMeets(w, ps, key)
  {
    hide Meets;
    var all := [p] + ps;
    if Clash(w, all) {
      var i, j, key :| 0 <= i < j < |all| && Meets(w, all[i], key) && Meets(w, all[j], key);
      assert all[j] == ps[j - 1] && (if i == 0 then all[i] == p else all[i] == ps[i - 1]);
    }
    if Clash(w, ps) {
      var i, j, key :| 0 <= i < j < |ps| && Meets(w, ps[i], key) && Meets(w, ps[j], key);
      assert all[i + 1] == ps[i] && all[j + 1] == ps[j];
    }
    if key :| Meets(w, p, key) && AnyMeets(w, ps, key) {
      var j :| 0 <= j < |ps| && Meets(w, ps[j], key);
      assert all[0] == p && all[j + 1] == ps[j];
    }
  }

  lemma RepeatsPrepended(w: World, p: Place, ps: seq<Place>)
    ensures (exists i :: 0 <= i < |[p] + ps| && Repeats(w, ([p] + ps)[i]))
      <==> Repeats(w, p) || exists i :: 0 <= i < |ps| && Repeats(w, ps[i])
  {
    hide Repeats;
    var all := [p] + ps;
    if i :| 0 <= i < |ps| && Repeats(w, ps[i]) {
      assert all[i + 1] == ps[i];
    }
    assert all[0] == p;
  }

  lemma Prepended(w: World, p: Place, ps: seq<Place>)
    ensures forall key :: AnyMeets(w, [p] + ps, key) <==> Meets(w, p, key) || AnyMeets(w, ps, key)
    ensures AnyRepeats(w, [p] + ps)
      <==> Repeats(w, p) || AnyRepeats(w, ps) || exists key :: Meets(w, p, key) && AnyMeets(w, ps, key)
  {
    forall key ensures AnyMeets(w, [p] + ps, key) <==> Meets(w, p, key) || AnyMeets(w, ps, key) {
      MeetsPrepended(w, p, ps, key);
    }
    ClashPrepended(w, p, ps);
    RepeatsPrepended(w, p, ps);
    hide Meets, Repeats, AnyMeets, Clash;
  }

  lemma Single(w: World, p: Place)
    ensures forall key :: AnyMeets(w, [p], key) <==> Meets(w, p, key)
    ensures AnyRepeats(w, [p]) <==> Repeats(w, p)
  {
    Prepended(w, p, []);
    assert [p] + [] == [p];
  }

  lemma ToldBoth(w: World, p: Place, ps: seq<Place>, s0: set<SeenKey>, s1: set<SeenKey>, s2: set<SeenKey>, first: bool, rest: bool)
    requires Told(w, [p], s0, s1, first) && Told(w, ps, s1, s2, rest)
    ensures Told(w, [p] + ps, s0, s2, first || rest)
  {
    Single(w, p);
    Prepended(w, p, ps);
    hide Meets, Repeats, AnyMeets, AnyRepeats;
  }

  lemma Unfolded(w: World, p: Place)
    requires Stands(w, p)
    ensures forall key :: Meets(w, p, key) <==> (IsGuarded(w, p) && key == KeyOf(p)) || AnyMeets(w, Onward(w, p), key)
    ensures Repeats(w, p) <==> AnyRepeats(w, Onward(w, p)) || (IsGuarded(w, p) && AnyMeets(w, Onward(w, p), KeyOf(p)))
  {
    hide Onward, IsGuarded;
  }

  lemma ToldGuarded(w: World, p: Place, seen: set<SeenKey>, after: set<SeenKey>, again: bool)
    requires Stands(w, p) && IsGuarded(w, p) && KeyOf(p) !in seen
    requires Told(w, Onward(w, p), seen + {KeyOf(p)}, after, again)
    ensures Told(w, [p], seen, after, again)
  {
    Single(w, p);
    Unfolded(w, p);
    hide Meets, Repeats, AnyMeets, AnyRepeats, Onward, IsGuarded;
  }

  lemma ToldOnward(w: World, p: Place, seen: set<SeenKey>, after: set<SeenKey>, again: bool)
    requires Stands(w, p) && !IsGuarded(w, p) && Told(w, Onward(w, p), seen, after, again)
    ensures Told(w, [p], seen, after, again)
  {
    Single(w, p);
    Unfolded(w, p);
    hide Meets, Repeats, AnyMeets, AnyRepeats, Onward, IsGuarded;
  }

  lemma ToldAgain(w: World, p: Place, seen: set<SeenKey>)
    requires Stands(w, p) && IsGuarded(w, p) && KeyOf(p) in seen
    ensures Told(w, [p], seen, seen, true)
  {
    Single(w, p);
    Unfolded(w, p);
    hide Meets, Repeats, AnyMeets, AnyRepeats, Onward, IsGuarded;
  }

  lemma ToldNothing(w: World, seen: set<SeenKey>)
    ensures Told(w, [], seen, seen, false)
  {
  }

  // ---------- the walk of the code ----------

  lemma {:induction false} DeclarationTold(w: World, id: DeclId, steps: seq<PathStep>, seen: set<SeenKey>, fuel: nat)
    requires w.Holds(id) && LookupDeclaration(w, id, steps, seen, fuel).Done?
    ensures var r := LookupDeclaration(w, id, steps, seen, fuel);
      Told(w, [Place(id.file, OfDeclaration(id), steps)], seen, r.seen, r.again)
    decreases fuel, Unseen(w, seen, |steps| + fuel), 0
  {
    hide Told, Meets, Repeats, AnyMeets, AnyRepeats;
    var p, r := Place(id.file, OfDeclaration(id), steps), LookupDeclaration(w, id, steps, seen, fuel);
    ToldNothing(w, seen);
    if steps == [] || w.At(id).Enum? {
      ToldOnward(w, p, seen, seen, false);
    } else if (id, |steps|) in seen {
      ToldAgain(w, p, seen);
    } else {
      var seen' := seen + {(id, |steps|)};
      SeeMore(w, id, steps, seen, fuel);
      ToldNothing(w, seen');
      match w.At(id) {
        case Alias(_, t) => TypeTold(w, id.file, t, steps, seen', fuel);
        case Interface(_, members, heritage) =>
          if steps[0].MemberStep? {
            var m := FirstProperty(members, steps[0].member);
            if m.Some? && |steps| > 1 && m.value.type_.Some? {
              UnseenShrinks(w, seen', |steps| - 1 + fuel, |steps| + fuel);
              TypeTold(w, id.file, m.value.type_.value, steps[1..], seen', fuel);
            }
            if m.None? {
              BasesTold(w, id.file, heritage, 0, steps, seen', fuel);
              assert heritage[0..] == heritage;
            }
          }
      }
      ToldGuarded(w, p, seen, r.seen, r.again);
    }
  }

  lemma {:induction false} TypeTold(w: World, file: string, t: TypeNode, steps: seq<PathStep>, seen: set<SeenKey>, fuel: nat)
    requires file in w.files && LookupType(w, file, t, steps, seen, fuel).Done?
    ensures var r := LookupType(w, file, t, steps, seen, fuel);
      Told(w, [Place(file, OfType(t), steps)], seen, r.seen, r.again)
    decreases fuel, Unseen(w, seen, |steps| + fuel), 1, t, 1, 0
  {
    hide Told, Meets, Repeats, AnyMeets, AnyRepeats, LookupDeclaration;
    var p, r := Place(file, OfType(t), steps), LookupType(w, file, t, steps, seen, fuel);
    ToldNothing(w, seen);
    if steps != [] {
      UnseenShrinks(w, seen, |steps| - 1 + fuel, |steps| + fuel);
      match t {
        case TypeLiteral(members) =>
          if steps[0].MemberStep? {
            var m := FirstProperty(members, steps[0].member);
            if m.Some? && |steps| > 1 && m.value.type_.Some? {
              assert m.value.type_.value < t;
              TypeTold(w, file, m.value.type_.value, steps[1..], seen, fuel);
            }
          }
        case Parenthesized(inner) => TypeTold(w, file, inner, steps, seen, fuel);
        case Intersection(types) =>
          AllTold(w, file, t, types, 0, steps, seen, fuel);
          assert types[0..] == types;
        case Union(types) =>
          AllTold(w, file, t, types, 0, steps, seen, fuel);
          assert types[0..] == types;
        case ArrayType(element) =>
          if steps[0].ArrayStep? {
            TypeTold(w, file, element, steps[1..], seen, fuel);
          }
        case TypeOperator(_, inner) => TypeTold(w, file, inner, steps, seen, fuel);
        case IndexedAccess(whole, index) =>
          if index.Some? {
            TypeTold(w, file, whole, [MemberStep(index.value)] + steps, seen, fuel - 1);
          }
        case Reference(name, qualified, arguments) =>
          if PassThrough(name) && arguments != [] {
            TypeTold(w, file, arguments[0], steps, seen, fuel);
          } else if ArrayName(name) && arguments != [] {
            if steps[0].ArrayStep? {
              TypeTold(w, file, arguments[0], steps[1..], seen, fuel);
            }
          } else if !qualified && TargetOf(w, file, name).Some? {
            DeclarationTold(w, TargetOf(w, file, name).value, steps, seen, fuel);
          }
        case OtherType =>
      }
    }
    ToldOnward(w, p, seen, r.seen, r.again);
  }

  lemma {:induction false} AllTold(w: World, file: string, t: TypeNode, types: seq<TypeNode>, i: nat, steps: seq<PathStep>, seen: set<SeenKey>, fuel: nat)
    requires file in w.files && i <= |types|
    requires (t.Intersection? || t.Union?) && t.types == types
    requires LookupAll(w, file, t, types, i, steps, seen, fuel).Done?
    ensures var r := LookupAll(w, file, t, types, i, steps, seen, fuel);
      Told(w, Parts(file, types[i..], steps), seen, r.seen, r.again)
    decreases fuel, Unseen(w, seen, |steps| + fuel), 1, t, 0, |types| - i
  {
    hide Told, LookupType;
    if i == |types| {
      ToldNothing(w, seen);
    } else {
      var first := LookupType(w, file, types[i], steps, seen, fuel);
      TypeTold(w, file, types[i], steps, seen, fuel);
      UnseenAfter(w, seen, first.seen, |steps| + fuel);
      AllTold(w, file, t, types, i + 1, steps, first.seen, fuel);
      var rest := LookupAll(w, file, t, types, i + 1, steps, first.seen, fuel);
      assert types[i..][1..] == types[i + 1..];
      ToldBoth(w, Place(file, OfType(types[i]), steps), Parts(file, types[i + 1..], steps), seen, first.seen, rest.seen, first.again, rest.again);
    }
  }

  lemma {:induction false} BasesTold(w: World, file: string, heritage: seq<Heritage>, i: nat, steps: seq<PathStep>, seen: set<SeenKey>, fuel: nat)
    requires file in w.files && i <= |heritage|
    requires LookupBases(w, file, heritage, i, steps, seen, fuel).Done?
    ensures var r := LookupBases(w, file, heritage, i, steps, seen, fuel);
      Told(w, BasePlaces(w, file, heritage[i..], steps), seen, r.seen, r.again)
    decreases fuel, Unseen(w, seen, |steps| + fuel), 2, |heritage| - i
  {
    hide Told, LookupDeclaration;
    if i == |heritage| {
      ToldNothing(w, seen);
    } else {
      var first := LookupBase(w, file, heritage[i], steps, seen, fuel);
      UnseenAfter(w, seen, first.seen, |steps| + fuel);
      assert heritage[i..][1..] == heritage[i + 1..];
      if BaseOf(w, file, heritage[i]).Hit? {
        DeclarationTold(w, BaseOf(w, file, heritage[i]).decl, steps, seen, fuel);
      }
      BasesTold(w, file, heritage, i + 1, steps, first.seen, fuel);
      var rest := LookupBases(w, file, heritage, i + 1, steps, first.seen, fuel);
      if BaseOf(w, file, heritage[i]).Hit? {
        var id := BaseOf(w, file, heritage[i]).decl;
        ToldBoth(w, Place(id.file, OfDeclaration(id), steps), BasePlaces(w, file, heritage[i + 1..], steps), seen, first.seen, rest.seen, first.again, rest.again);
      } else {
        assert [] + BasePlaces(w, file, heritage[i + 1..], steps) == BasePlaces(w, file, heritage[i + 1..], steps);
      }
    }
  }

  // ---------- the condition on the declarations ----------

  /** A walk that answers meets a key of its `seen` set again exactly when the path repeats a declaration. */
  lemma AgainExactly(w: World, id: DeclId, steps: seq<PathStep>, fuel: nat)
    requires w.Holds(id) && LookupDeclaration(w, id, steps, {}, fuel).Done?
    ensures LookupDeclaration(w, id, steps, {}, fuel).again <==> Repeats(w, Place(id.file, OfDeclaration(id), steps))
  {
    DeclarationTold(w, id, steps, {}, fuel);
    Single(w, Place(id.file, OfDeclaration(id), steps));
    hide Meets, Repeats, AnyMeets, AnyRepeats, LookupDeclaration;
  }

  lemma AgainInType(w: World, file: string, t: TypeNode, steps: seq<PathStep>, fuel: nat)
    requires file in w.files && LookupType(w, file, t, steps, {}, fuel).Done?
    ensures LookupType(w, file, t, steps, {}, fuel).again <==> Repeats(w, Place(file, OfType(t), steps))
  {
    TypeTold(w, file, t, steps, {}, fuel);
    Single(w, Place(file, OfType(t), steps));
    hide Meets, Repeats, AnyMeets, AnyRepeats, LookupType;
  }

  /**
   * Where the path repeats no declaration the walk decides it: "found" exactly when the spelling
   * leads through property signatures, "missing" exactly when every way is ruled out.
   */
  lemma OnceDecides(w: World, id: DeclId, steps: seq<PathStep>, rank: DeclId -> nat, most: nat)
    requires w.Holds(id) && Loads(w) && AccessesDescend(w, rank, most) && !Repeats(w, Place(id.file, OfDeclaration(id), steps))
    ensures LookupDeclaration(w, id, steps, {}, rank(id) * most).Done?
    ensures var r := LookupDeclaration(w, id, steps, {}, rank(id) * most).value;
      && (r == Found <==> Present(w, id.file, OfDeclaration(id), steps))
      && (r == Missing <==> Absent(w, id.file, OfDeclaration(id), steps))
  {
    LookupEnds(w, id, steps, rank, most);
    hide Repeats, Present, Absent, LookupDeclaration;
    AgainExactly(w, id, steps, rank(id) * most);
    NothingAgain(w, id, steps, rank(id) * most);
  }
}
