/**
 * When the answers of lookupPath agree with what is declared, said of the declarations alone:
 * scripts/gen-config-catalog.ts.
 */
module ConfigReadings {
  import opened Wrappers
  import opened ConfigTypes
  import opened ConfigPaths
  import opened ConfigBranches
  import opened ConfigMembers
  import opened ConfigOnce

  // ---------- two readings of a path ----------

  /** At a doubtful node the spelling says what `answer` says and the names of the members the contrary. */
  ghost predicate Misread(w: World, file: string, node: Node, steps: seq<PathStep>, answer: PathLookup)
    requires file in w.files && Known(w, node)
  {
    Doubtful(w, file, node, steps, answer) &&
    if answer == Found then Present(w, file, node, steps) && !Declared(w, file, node, steps)
    else Absent(w, file, node, steps) && Declared(w, file, node, steps)
  }

  ghost predicate NothingMisread(w: World, answer: PathLookup) {
    && (forall id, steps {:trigger Misread(w, id.file, OfDeclaration(id), steps, answer)} ::
          w.Holds(id) ==> !Misread(w, id.file, OfDeclaration(id), steps, answer))
    && (forall file, t, steps {:trigger Misread(w, file, OfType(t), steps, answer)} ::
          file in w.files && Occurs(w, file, t) ==> !Misread(w, file, OfType(t), steps, answer))
  }

  /** Where the two readings nowhere differ no answer is wrong. */
  lemma ReadRight(w: World, answer: PathLookup)
    requires answer != Unknown && NothingMisread(w, answer)
    ensures NeverWrong(w, answer)
  {
    hide Doubtful, Declared, Present, Absent, Occurs;
    forall id, steps, seen, fuel: nat | w.Holds(id) && Doubtful(w, id.file, OfDeclaration(id), steps, answer)
      ensures Right(w, id.file, OfDeclaration(id), steps, answer, LookupDeclaration(w, id, steps, seen, fuel))
    {
      if LookupDeclaration(w, id, steps, seen, fuel).Done? {
        DeclarationSound(w, id, steps, seen, fuel);
        assert !Misread(w, id.file, OfDeclaration(id), steps, answer);
      }
    }
    forall file, t, steps, seen, fuel: nat | file in w.files && Occurs(w, file, t) && Doubtful(w, file, OfType(t), steps, answer)
      ensures Right(w, file, OfType(t), steps, answer, LookupType(w, file, t, steps, seen, fuel))
    {
      if LookupType(w, file, t, steps, seen, fuel).Done? {
        TypeSound(w, file, t, steps, seen, fuel);
        assert !Misread(w, file, OfType(t), steps, answer);
      }
    }
    DoubtfulDecides(w, answer);
  }

  /** A misread path that repeats no declaration gets the wrong answer. */
  lemma DeclarationMisread(w: World, id: DeclId, steps: seq<PathStep>, fuel: nat, answer: PathLookup)
    requires w.Holds(id) && answer != Unknown && Misread(w, id.file, OfDeclaration(id), steps, answer)
    requires LookupDeclaration(w, id, steps, {}, fuel).Done? && !Repeats(w, Place(id.file, OfDeclaration(id), steps))
    ensures LookupDeclaration(w, id, steps, {}, fuel).value == answer && !NeverWrong(w, answer)
  {
    hide Doubtful, Declared, Present, Absent, Repeats, LookupDeclaration;
    AgainExactly(w, id, steps, fuel);
    NothingAgain(w, id, steps, fuel);
    assert !Right(w, id.file, OfDeclaration(id), steps, answer, LookupDeclaration(w, id, steps, {}, fuel));
  }

  lemma TypeMisread(w: World, file: string, t: TypeNode, steps: seq<PathStep>, fuel: nat, answer: PathLookup)
    requires file in w.files && Occurs(w, file, t) && answer != Unknown && Misread(w, file, OfType(t), steps, answer)
    requires LookupType(w, file, t, steps, {}, fuel).Done? && !Repeats(w, Place(file, OfType(t), steps))
    ensures LookupType(w, file, t, steps, {}, fuel).value == answer && !NeverWrong(w, answer)
  {
    hide Doubtful, Declared, Present, Absent, Repeats, LookupType, Occurs;
    AgainInType(w, file, t, steps, fuel);
    TypeDecided(w, file, t, steps, {}, fuel);
    assert !Right(w, file, OfType(t), steps, answer, LookupType(w, file, t, steps, {}, fuel));
  }

  // ---------- the walk on a type ends ----------

  lemma {:induction false} FitsMore(w: World, file: string, t: TypeNode, n: nat, n': nat, rank: DeclId -> nat, r: nat, r': nat)
    requires file in w.files && Fits(w, file, t, n, rank, r) && n <= n' && r <= r'
    ensures Fits(w, file, t, n', rank, r')
    decreases t
  {
    match t
    case TypeLiteral(members) =>
      forall i | 0 <= i < |members| && members[i].Property? && members[i].type_.Some?
        ensures Fits(w, file, members[i].type_.value, n', rank, r')
      {
        assert MemberFits(w, file, members[i], n, rank, r);
        FitsMore(w, file, members[i].type_.value, n, n', rank, r, r');
      }
    case Parenthesized(inner) => FitsMore(w, file, inner, n, n', rank, r, r');
    case Intersection(types) => AllFitMore(w, file, types, n, n', rank, r, r');
    case Union(types) => AllFitMore(w, file, types, n, n', rank, r, r');
    case ArrayType(element) => FitsMore(w, file, element, n, n', rank, r, r');
    case TypeOperator(_, inner) => FitsMore(w, file, inner, n, n', rank, r, r');
    case IndexedAccess(whole, index) =>
      if index.Some? {
        FitsMore(w, file, whole, n - 1, n' - 1, rank, r, r');
      }
    case Reference(_, _, arguments) => AllFitMore(w, file, arguments, n, n', rank, r, r');
    case OtherType =>
  }

  ghost predicate AllFit(w: World, file: string, types: seq<TypeNode>, n: nat, rank: DeclId -> nat, r: nat)
    requires file in w.files
  {
    forall i :: 0 <= i < |types| ==> Fits(w, file, types[i], n, rank, r)
  }

  lemma {:induction false} AllFitMore(w: World, file: string, types: seq<TypeNode>, n: nat, n': nat, rank: DeclId -> nat, r: nat, r': nat)
    requires file in w.files && AllFit(w, file, types, n, rank, r) && n <= n' && r <= r'
    ensures AllFit(w, file, types, n', rank, r')
    decreases types
  {
    forall i | 0 <= i < |types| ensures Fits(w, file, types[i], n', rank, r') {
      FitsMore(w, file, types[i], n, n', rank, r, r');
    }
  }

  /** Accesses nest finitely deep in a type, and the names in it have a greatest rank. */
  lemma {:induction false} FitsSomehow(w: World, file: string, t: TypeNode, rank: DeclId -> nat) returns (n: nat, r: nat)
    requires file in w.files
    ensures Fits(w, file, t, n, rank, r)
    decreases t, 1
  {
    n, r := 0, 0;
    match t
    case TypeLiteral(members) => n, r := MembersFit(w, file, t, members, rank);
    case Parenthesized(inner) => n, r := FitsSomehow(w, file, inner, rank);
    case Intersection(types) => n, r := AllFitSomehow(w, file, types, rank);
    case Union(types) => n, r := AllFitSomehow(w, file, types, rank);
    case ArrayType(element) => n, r := FitsSomehow(w, file, element, rank);
    case TypeOperator(_, inner) => n, r := FitsSomehow(w, file, inner, rank);
    case IndexedAccess(whole, index) =>
      n, r := FitsSomehow(w, file, whole, rank);
      n := n + 1;
    case Reference(name, _, arguments) =>
      n, r := AllFitSomehow(w, file, arguments, rank);
      if TargetOf(w, file, name).Some? {
        var more := r + rank(TargetOf(w, file, name).value);
        AllFitMore(w, file, arguments, n, n, rank, r, more);
        r := more;
      }
    case OtherType =>
  }

  lemma {:induction false} AllFitSomehow(w: World, file: string, types: seq<TypeNode>, rank: DeclId -> nat) returns (n: nat, r: nat)
    requires file in w.files
    ensures AllFit(w, file, types, n, rank, r)
    decreases types, 0
  {
    n, r := 0, 0;
    for i := 0 to |types|
      invariant AllFit(w, file, types[..i], n, rank, r)
    {
      var m, q := FitsSomehow(w, file, types[i], rank);
      AllFitMore(w, file, types[..i], n, n + m, rank, r, r + q);
      FitsMore(w, file, types[i], m, n + m, rank, q, r + q);
      n, r := n + m, r + q;
      assert types[..i + 1] == types[..i] + [types[i]];
    }
    assert types[..|types|] == types;
  }

  lemma {:induction false} MembersFit(w: World, file: string, t: TypeNode, members: seq<Member>, rank: DeclId -> nat) returns (n: nat, r: nat)
    requires file in w.files && t == TypeLiteral(members)
    ensures forall i :: 0 <= i < |members| ==> MemberFits(w, file, members[i], n, rank, r)
    decreases t, 0
  {
    n, r := 0, 0;
    for i := 0 to |members|
      invariant forall k :: 0 <= k < i ==> MemberFits(w, file, members[k], n, rank, r)
    {
      var m: nat, q: nat := 0, 0;
      if members[i].Property? && members[i].type_.Some? {
        assert members[i] in members && members[i].type_.value < t;
        m, q := FitsSomehow(w, file, members[i].type_.value, rank);
        FitsMore(w, file, members[i].type_.value, m, n + m, rank, q, r + q);
      }
      forall k | 0 <= k < i && members[k].Property? && members[k].type_.Some?
        ensures Fits(w, file, members[k].type_.value, n + m, rank, r + q)
      {
        assert MemberFits(w, file, members[k], n, rank, r);
        FitsMore(w, file, members[k].type_.value, n, n + m, rank, r, r + q);
      }
      n, r := n + m, r + q;
    }
  }

  lemma TypeWalkEnds(w: World, file: string, t: TypeNode, steps: seq<PathStep>, rank: DeclId -> nat, most: nat) returns (fuel: nat)
    requires file in w.files && Loads(w) && AccessesDescend(w, rank, most)
    ensures LookupType(w, file, t, steps, {}, fuel).Done?
  {
    hide Fits, Loads, AccessesDescend, LookupType;
    var n, r := FitsSomehow(w, file, t, rank);
    fuel := n + r * most;
    TypeEnds(w, file, t, steps, {}, fuel, rank, most, n, r);
  }

  // ---------- the condition on the declarations ----------

  /** No misread path repeats a declaration. */
  ghost predicate MisreadOnce(w: World, answer: PathLookup) {
    && (forall id, steps {:trigger Misread(w, id.file, OfDeclaration(id), steps, answer)} ::
          w.Holds(id) && Misread(w, id.file, OfDeclaration(id), steps, answer) ==> !Repeats(w, Place(id.file, OfDeclaration(id), steps)))
    && (forall file, t, steps {:trigger Misread(w, file, OfType(t), steps, answer)} ::
          file in w.files && Occurs(w, file, t) && Misread(w, file, OfType(t), steps, answer) ==> !Repeats(w, Place(file, OfType(t), steps)))
  }

  /** "found", and likewise "missing", is never wrong if and only if no path is misread, on any declaration or type in one. */
  lemma AnswersByDeclarations(w: World, answer: PathLookup, rank: DeclId -> nat, most: nat)
    requires answer != Unknown && Loads(w) && AccessesDescend(w, rank, most) && MisreadOnce(w, answer)
    ensures NeverWrong(w, answer) <==> NothingMisread(w, answer)
  {
    hide Misread, Repeats, Loads, AccessesDescend, NeverWrong, Occurs;
    if NothingMisread(w, answer) {
      ReadRight(w, answer);
    } else if id, steps :| w.Holds(id) && Misread(w, id.file, OfDeclaration(id), steps, answer) {
      LookupEnds(w, id, steps, rank, most);
      EndedIsDone(w, LookupDeclaration(w, id, steps, {}, rank(id) * most));
      DeclarationMisread(w, id, steps, rank(id) * most, answer);
    } else {
      var file, t, steps :| file in w.files && Occurs(w, file, t) && Misread(w, file, OfType(t), steps, answer);
      var fuel := TypeWalkEnds(w, file, t, steps, rank, most);
      TypeMisread(w, file, t, steps, fuel, answer);
    }
  }

  lemma EndedIsDone(w: World, r: Walked<PathLookup>)
    requires Ended(w, r) && Loads(w)
    ensures r.Done?
  {
  }

  // ---------- "found" ----------

  /** A property of the list is spelled so, but nothing in the body has that name. */
  predicate Phantom(members: seq<Member>, body: seq<Member>, name: string) {
    FirstProperty(members, name).Some? && Nameless(body, name)
  }

  ghost predicate NoPhantom(w: World) {
    && (forall id, name {:trigger Phantom(w.At(id).members, Body(w, id), name)} ::
          w.Holds(id) && w.At(id).Interface? ==> !Phantom(w.At(id).members, Body(w, id), name))
    && (forall file, members, name {:trigger Occurs(w, file, TypeLiteral(members)), Phantom(members, members, name)} ::
          file in w.files && Occurs(w, file, TypeLiteral(members)) ==> !Phantom(members, members, name))
  }

  /** The operand of a `keyof` or `unique` has a path. */
  ghost predicate FalseOperand(w: World, file: string, operator: Operator, inner: TypeNode, steps: seq<PathStep>)
    requires file in w.files
  {
    Occurs(w, file, TypeOperator(operator, inner)) && operator != Readonly && steps != [] && Present(w, file, OfType(inner), steps)
  }

  ghost predicate NoFalseOperand(w: World) {
    forall file, operator, inner, steps :: file in w.files ==> !FalseOperand(w, file, operator, inner, steps)
  }

  /** On a path that the operand has, an operator other than `readonly` is misread. */
  lemma OperandMisread(w: World, file: string, operator: Operator, inner: TypeNode, steps: seq<PathStep>)
    requires file in w.files && FalseOperand(w, file, operator, inner, steps)
    ensures Misread(w, file, OfType(TypeOperator(operator, inner)), steps, Found)
  {
    hide Occurs;
    assert Present(w, file, OfType(TypeOperator(operator, inner)), steps);
    assert !Declared(w, file, OfType(TypeOperator(operator, inner)), steps);
  }

  /** `keyof` repeats what its operand repeats. */
  lemma OperandRepeats(w: World, file: string, operator: Operator, inner: TypeNode, steps: seq<PathStep>)
    requires file in w.files && steps != []
    ensures Repeats(w, Place(file, OfType(TypeOperator(operator, inner)), steps)) <==> Repeats(w, Place(file, OfType(inner), steps))
  {
    var p, q := Place(file, OfType(TypeOperator(operator, inner)), steps), Place(file, OfType(inner), steps);
    assert Onward(w, p) == [q];
    Unfolded(w, p);
    Single(w, q);
    hide Repeats, Meets, AnyMeets, AnyRepeats;
  }

  /** "found" is wrong as soon as an operand has a path that repeats no declaration. */
  lemma OperandIsWrong(w: World, file: string, operator: Operator, inner: TypeNode, steps: seq<PathStep>, fuel: nat)
    requires file in w.files && FalseOperand(w, file, operator, inner, steps)
    requires LookupType(w, file, inner, steps, {}, fuel).Done? && !Repeats(w, Place(file, OfType(inner), steps))
    ensures LookupType(w, file, TypeOperator(operator, inner), steps, {}, fuel).Done?
    ensures LookupType(w, file, TypeOperator(operator, inner), steps, {}, fuel).value == Found
    ensures !Declared(w, file, OfType(TypeOperator(operator, inner)), steps) && !NeverWrong(w, Found)
  {
    OperandMisread(w, file, operator, inner, steps);
    OperandRepeats(w, file, operator, inner, steps);
    hide Repeats, Declared, Present, Doubtful, Occurs, NeverWrong;
    TypeMisread(w, file, TypeOperator(operator, inner), steps, fuel, Found);
  }

  lemma PhantomLiteral(w: World, file: string, members: seq<Member>, name: string)
    requires file in w.files && Occurs(w, file, TypeLiteral(members)) && Phantom(members, members, name)
    ensures LookupType(w, file, TypeLiteral(members), [MemberStep(name)], {}, 0).Done?
    ensures LookupType(w, file, TypeLiteral(members), [MemberStep(name)], {}, 0).value == Found
    ensures !Declared(w, file, OfType(TypeLiteral(members)), [MemberStep(name)]) && !NeverWrong(w, Found)
  {
    hide Occurs;
    var r := LookupType(w, file, TypeLiteral(members), [MemberStep(name)], {}, 0);
    assert !Right(w, file, OfType(TypeLiteral(members)), [MemberStep(name)], Found, r);
  }

  lemma PhantomInterface(w: World, id: DeclId, name: string)
    requires w.Holds(id) && w.At(id).Interface? && Bases(w, id) == [] && Phantom(w.At(id).members, Body(w, id), name)
    ensures LookupDeclaration(w, id, [MemberStep(name)], {}, 0).Done?
    ensures LookupDeclaration(w, id, [MemberStep(name)], {}, 0).value == Found
    ensures !Declared(w, id.file, OfDeclaration(id), [MemberStep(name)]) && !NeverWrong(w, Found)
  {
    var r := LookupDeclaration(w, id, [MemberStep(name)], {}, 0);
    assert !Right(w, id.file, OfDeclaration(id), [MemberStep(name)], Found, r);
  }

  /** On regular declarations nothing but a phantom name or an operand is found wrongly. */
  lemma FoundNeverWrong(w: World)
    requires Regular(w) && NoPhantom(w) && NoFalseOperand(w)
    ensures NeverWrong(w, Found)
  {
    forall id, steps | w.Holds(id) ensures !Misread(w, id.file, OfDeclaration(id), steps, Found) {
      DeclarationRead(w, id, steps);
    }
    forall file, t, steps | file in w.files && Occurs(w, file, t) ensures !Misread(w, file, OfType(t), steps, Found) {
      TypeRead(w, file, t, steps);
    }
    hide Regular, NoPhantom, NoFalseOperand, Misread, Occurs;
    ReadRight(w, Found);
  }

  lemma DeclarationRead(w: World, id: DeclId, steps: seq<PathStep>)
    requires w.Holds(id) && Regular(w) && NoPhantom(w)
    ensures !Misread(w, id.file, OfDeclaration(id), steps, Found)
  {
    hide Declared;
    if Doubtful(w, id.file, OfDeclaration(id), steps, Found) {
      var name := steps[0].member;
      assert OnceSpelled(w.At(id).members, Body(w, id));
      assert !Phantom(w.At(id).members, Body(w, id), name);
    }
  }

  lemma TypeRead(w: World, file: string, t: TypeNode, steps: seq<PathStep>)
    requires file in w.files && Occurs(w, file, t) && Regular(w) && NoPhantom(w) && NoFalseOperand(w)
    ensures !Misread(w, file, OfType(t), steps, Found)
  {
    hide Declared, Occurs;
    if Doubtful(w, file, OfType(t), steps, Found) {
      match t
      case TypeLiteral(members) =>
        assert OnceSpelled(members, members);
        assert !Phantom(members, members, steps[0].member);
      case TypeOperator(operator, inner) =>
        assert !FalseOperand(w, file, operator, inner, steps);
      case _ =>
    }
  }

  /** Operands repeat no declaration on their paths. */
  ghost predicate OperandsOnce(w: World) {
    forall file, operator, inner, steps ::
      file in w.files && FalseOperand(w, file, operator, inner, steps) ==> !Repeats(w, Place(file, OfType(inner), steps))
  }

  /**
   * On regular declarations: "found" is never wrong, on any declaration or type in one, for any path
   * and whatever was seen, if and only if no property is spelled like a name that nothing has and
   * no operand of `keyof` or `unique` has a path.
   */
  lemma FoundByDeclarations(w: World, rank: DeclId -> nat, most: nat)
    requires Regular(w) && Loads(w) && AccessesDescend(w, rank, most) && OperandsOnce(w)
    ensures NeverWrong(w, Found) <==> NoPhantom(w) && NoFalseOperand(w)
  {
    if NoPhantom(w) && NoFalseOperand(w) {
      FoundNeverWrong(w);
    } else if !NoPhantom(w) {
      PhantomIsWrong(w);
    } else {
      hide Regular, Loads, AccessesDescend, FalseOperand, Repeats, NeverWrong, NoPhantom;
      var file, operator, inner, steps :| file in w.files && FalseOperand(w, file, operator, inner, steps);
      var fuel := TypeWalkEnds(w, file, inner, steps, rank, most);
      OperandIsWrong(w, file, operator, inner, steps, fuel);
    }
  }

  lemma PhantomIsWrong(w: World)
    requires Regular(w) && !NoPhantom(w)
    ensures !NeverWrong(w, Found)
  {
    hide Occurs, NeverWrong;
    if id, name :| w.Holds(id) && w.At(id).Interface? && Phantom(w.At(id).members, Body(w, id), name) {
      assert !PlainList(w.At(id).members, Body(w, id), name);
      assert w.At(id).heritage == [] || AllPlain(w.At(id).members, Body(w, id));
      PhantomInterface(w, id, name);
    } else {
      var file, members, name :| file in w.files && Occurs(w, file, TypeLiteral(members)) && Phantom(members, members, name);
      PhantomLiteral(w, file, members, name);
    }
  }

  // ---------- "missing" behind heritage ----------

  /** "missing" is wrong at an interface for a name of its own that only its bases could spell and all of them lack. */
  lemma BlindHeirIsWrong(w: World, id: DeclId, name: string, fuel: nat)
    requires w.Holds(id) && w.At(id).Interface? && Blind(w.At(id).members, Body(w, id), name)
    requires forall k :: 0 <= k < |w.At(id).heritage| ==>
      var base := BaseOf(w, id.file, w.At(id).heritage[k]);
      base.Hit? && Absent(w, base.decl.file, OfDeclaration(base.decl), [MemberStep(name)])
    requires LookupDeclaration(w, id, [MemberStep(name)], {}, fuel).Done?
    requires !Repeats(w, Place(id.file, OfDeclaration(id), [MemberStep(name)]))
    ensures LookupDeclaration(w, id, [MemberStep(name)], {}, fuel).value == Missing
    ensures Declared(w, id.file, OfDeclaration(id), [MemberStep(name)]) && !NeverWrong(w, Missing)
  {
    var steps := [MemberStep(name)];
    assert Absent(w, id.file, OfDeclaration(id), steps);
    BlindInterfaceIsWrong(w, id, name, {}, fuel);
    assert Doubtful(w, id.file, OfDeclaration(id), steps, Missing);
    hide Repeats, Declared, Absent, Doubtful, LookupDeclaration, NeverWrong;
    DeclarationMisread(w, id, steps, fuel, Missing);
  }

  /** No name is spelled in two ways, nor like a name that nothing has behind heritage; no interface is continued with other bases, no wrapper redefined. */
  ghost predicate Spelled(w: World) {
    && (forall id :: w.Holds(id) && w.At(id).Interface? ==>
          && OnceSpelled(w.At(id).members, Body(w, id)) && Bases(w, id) == w.At(id).heritage
          && (w.At(id).heritage == [] || forall name :: !Phantom(w.At(id).members, Body(w, id), name)))
    && (forall file, members {:trigger Occurs(w, file, TypeLiteral(members))} ::
          file in w.files && Occurs(w, file, TypeLiteral(members)) ==> OnceSpelled(members, members))
    && (forall file, name, qualified, arguments {:trigger Occurs(w, file, Reference(name, qualified, arguments))} ::
          file in w.files && Occurs(w, file, Reference(name, qualified, arguments)) && arguments != [] && (PassThrough(name) || ArrayName(name))
          ==> Builtin(w, file, name, qualified))
  }

  /** The path begins with a name the interface has unspelled, and all bases lack it although it is declared. */
  ghost predicate Gap(w: World, id: DeclId, steps: seq<PathStep>)
    requires w.Holds(id)
  {
    && w.At(id).Interface? && steps != [] && steps[0].MemberStep? && Blind(w.At(id).members, Body(w, id), steps[0].member)
    && Absent(w, id.file, OfDeclaration(id), steps) && Declared(w, id.file, OfDeclaration(id), steps)
  }

  ghost predicate NoGap(w: World) {
    && (forall id, steps {:trigger Gap(w, id, steps)} :: w.Holds(id) ==> !Gap(w, id, steps))
    && (forall file, members {:trigger Occurs(w, file, TypeLiteral(members))} ::
          file in w.files && Occurs(w, file, TypeLiteral(members)) ==> SeesAll(members, members))
  }

  lemma GapMisread(w: World, id: DeclId, steps: seq<PathStep>)
    requires w.Holds(id) && Spelled(w)
    ensures Misread(w, id.file, OfDeclaration(id), steps, Missing) <==> Gap(w, id, steps)
  {
    if Misread(w, id.file, OfDeclaration(id), steps, Missing) {
      var members, body, name := w.At(id).members, Body(w, id), steps[0].member;
      assert OnceSpelled(members, body);
      assert PlainList(members, body, name) || Blind(members, body, name) || Nameless(body, name);
      if Phantom(members, body, name) {
        NamelessAlone(w, id, steps);
      }
    }
  }

  lemma NamelessAlone(w: World, id: DeclId, steps: seq<PathStep>)
    requires w.Holds(id) && w.At(id).Interface? && Bases(w, id) == [] && steps != [] && steps[0].MemberStep?
    requires Nameless(Body(w, id), steps[0].member)
    ensures !Declared(w, id.file, OfDeclaration(id), steps)
  {
  }

  lemma LiteralMisread(w: World, file: string, t: TypeNode, steps: seq<PathStep>)
    requires file in w.files && Occurs(w, file, t) && Spelled(w) && Misread(w, file, OfType(t), steps, Missing)
    ensures t.TypeLiteral? && !SeesAll(t.members, t.members)
  {
    if t.TypeLiteral? {
      assert OnceSpelled(t.members, t.members);
      assert Blind(t.members, t.members, steps[0].member);
    }
  }

  /**
   * The same for "missing" with any heritage: no gap at an interface, and no type literal with a
   * name that only members other than properties spelled so carry.
   */
  lemma MissingByDeclarations(w: World, rank: DeclId -> nat, most: nat)
    requires Spelled(w) && Loads(w) && AccessesDescend(w, rank, most)
    requires forall id, steps {:trigger Gap(w, id, steps)} ::
      w.Holds(id) && Gap(w, id, steps) ==> !Repeats(w, Place(id.file, OfDeclaration(id), steps))
    ensures NeverWrong(w, Missing) <==> NoGap(w)
  {
    if NoGap(w) {
      NoGapIsRight(w);
    } else {
      hide Spelled, Loads, AccessesDescend, Repeats, NeverWrong, Occurs, Gap, SeesAll;
      if id, steps :| w.Holds(id) && Gap(w, id, steps) {
        GapIsWrong(w, id, steps, rank, most);
      } else {
        var file, members :| file in w.files && Occurs(w, file, TypeLiteral(members)) && !SeesAll(members, members);
        BlindLiteralIsNotRight(w, file, members);
      }
    }
  }

  lemma GapIsWrong(w: World, id: DeclId, steps: seq<PathStep>, rank: DeclId -> nat, most: nat)
    requires Spelled(w) && Loads(w) && AccessesDescend(w, rank, most)
    requires w.Holds(id) && Gap(w, id, steps) && !Repeats(w, Place(id.file, OfDeclaration(id), steps))
    ensures !NeverWrong(w, Missing)
  {
    hide *;
    GapMisread(w, id, steps);
    LookupEnds(w, id, steps, rank, most);
    EndedIsDone(w, LookupDeclaration(w, id, steps, {}, rank(id) * most));
    DeclarationMisread(w, id, steps, rank(id) * most, Missing);
  }

  lemma NoGapIsRight(w: World)
    requires Spelled(w) && NoGap(w)
    ensures NeverWrong(w, Missing)
  {
    hide Spelled, Occurs, SeesAll, Misread, Gap;
    forall id, steps | w.Holds(id) ensures !Misread(w, id.file, OfDeclaration(id), steps, Missing) {
      GapMisread(w, id, steps);
    }
    forall file, t, steps | file in w.files && Occurs(w, file, t) ensures !Misread(w, file, OfType(t), steps, Missing) {
      if Misread(w, file, OfType(t), steps, Missing) {
        LiteralMisread(w, file, t, steps);
      }
    }
    ReadRight(w, Missing);
  }

  lemma BlindLiteralIsNotRight(w: World, file: string, members: seq<Member>)
    requires file in w.files && Occurs(w, file, TypeLiteral(members)) && !SeesAll(members, members)
    ensures !NeverWrong(w, Missing)
  {
    if NeverWrong(w, Missing) {
      BlindLiteralShows(w, file, members);
    }
  }
}
