/** The text form of schema key paths, `agents[].id`: scripts/gen-config-catalog.ts, parsePath. */
module PathSyntax {
  import opened ConfigPaths

  const BRACKETS := "[]"

  /** The text of a list of steps: members joined by dots, each array hop a pair of brackets. */
  function Render(steps: seq<PathStep>): string {
    if steps == [] then ""
    else
      var rest, last := steps[..|steps| - 1], steps[|steps| - 1];
      match last
      case ArrayStep => Render(rest) + BRACKETS
      case MemberStep(name) => if rest == [] then name else Render(rest) + "." + name
  }

  predicate EndsWithBrackets(s: string) {
    |s| >= 2 && s[|s| - 2] == '[' && s[|s| - 1] == ']'
  }

  /** A name one segment of a path can carry. */
  predicate PlainName(name: string) {
    '.' !in name && !EndsWithBrackets(name)
  }

  /** The step lists that paths parse to. */
  ghost predicate Canonical(steps: seq<PathStep>) {
    && steps != [] && steps[0].MemberStep?
    && forall i :: 0 <= i < |steps| && steps[i].MemberStep? ==> PlainName(steps[i].member)
  }

  // ---------- String.prototype.split ----------

  function SplitDots(s: string): (r: seq<string>)
    ensures r != []
  {
    if s == "" then [""]
    else
      var rest := SplitDots(s[..|s| - 1]);
      if s[|s| - 1] == '.' then rest + [""]
      else rest[..|rest| - 1] + [rest[|rest| - 1] + [s[|s| - 1]]]
  }

  function JoinDots(parts: seq<string>): string {
    if parts == [] then ""
    else if |parts| == 1 then parts[0]
    else JoinDots(parts[..|parts| - 1]) + "." + parts[|parts| - 1]
  }

  lemma {:induction false} SplitJoins(s: string)
    ensures JoinDots(SplitDots(s)) == s
    ensures forall p :: p in SplitDots(s) ==> '.' !in p
  {
    if s != "" {
      var front, last := s[..|s| - 1], s[|s| - 1];
      SplitJoins(front);
      var rest := SplitDots(front);
      assert s == front + [last];
      if last == '.' {
        assert SplitDots(s) == rest + [""];
      } else {
        assert SplitDots(s) == rest[..|rest| - 1] + [rest[|rest| - 1] + [last]];
      }
    }
  }

  // ---------- parsePath ----------

  function Brackets(n: nat): string {
    if n == 0 then "" else Brackets(n - 1) + BRACKETS
  }

  lemma {:induction false} BracketsFront(n: nat)
    ensures BRACKETS + Brackets(n) == Brackets(n + 1)
  {
    if n > 0 {
      BracketsFront(n - 1);
    }
  }

  /** Strips the trailing pairs of brackets. */
  method StripBrackets(segment: string) returns (name: string, arrays: nat)
    requires '.' !in segment
    ensures PlainName(name) && name + Brackets(arrays) == segment
  {
    name, arrays := segment, 0;
    while EndsWithBrackets(name)
      invariant '.' !in name
      invariant name + Brackets(arrays) == segment
      decreases |name|
    {
      assert name == name[..|name| - 2] + BRACKETS;
      BracketsFront(arrays);
      assert name[..|name| - 2] + (BRACKETS + Brackets(arrays)) == name + Brackets(arrays);
      name := name[..|name| - 2];
      arrays := arrays + 1;
    }
  }

  /** The text in front of a further segment. */
  function Lead(steps: seq<PathStep>): string {
    if steps == [] then "" else Render(steps) + "."
  }

  /** Adds the steps of one dot-free segment. */
  method ParseSegment(segment: string, before: seq<PathStep>) returns (steps: seq<PathStep>)
    requires '.' !in segment
    requires before == [] || Canonical(before)
    ensures Canonical(steps) && Render(steps) == Lead(before) + segment
  {
    var name, arrays := StripBrackets(segment);
    hide *;
    steps := before + [MemberStep(name)];
    for k := 0 to arrays
      invariant Canonical(steps)
      invariant Render(steps) == Lead(before) + (name + Brackets(k))
    {
      steps := steps + [ArrayStep];
    }
  }

  /**
   * Parses a path into member and array steps. Rendering the steps gives the path back, for every
   * string, and the steps are in canonical form.
   */
  method ParsePath(path: string) returns (steps: seq<PathStep>)
    ensures Render(steps) == path
    ensures Canonical(steps)
  {
    var segments := SplitDots(path);
    SplitJoins(path);
    steps := [];
    for i := 0 to |segments|
      invariant steps == [] <==> i == 0
      invariant Render(steps) == JoinDots(segments[..i])
      invariant i > 0 ==> Canonical(steps)
    {
      JoinOneMore(segments, i);
      steps := ParseSegment(segments[i], steps);
    }
    assert segments[..|segments|] == segments;
  }

  lemma JoinOneMore(parts: seq<string>, i: nat)
    requires i < |parts|
    ensures JoinDots(parts[..i + 1]) == (if i == 0 then "" else JoinDots(parts[..i]) + ".") + parts[i]
  {
    assert parts[..i + 1][..i] == parts[..i];
  }

  // ---------- one reading only ----------

  function LastDot(s: string): int {
    if s == "" then -1 else if s[|s| - 1] == '.' then |s| - 1 else LastDot(s[..|s| - 1])
  }

  lemma {:induction false} LastDotBefore(front: string, name: string)
    requires '.' !in name
    ensures LastDot(front + "." + name) == |front|
  {
    var s := front + "." + name;
    if name == "" {
      assert s[|s| - 1] == '.';
    } else {
      assert s[..|s| - 1] == front + "." + name[..|name| - 1];
      assert s[|s| - 1] == name[|name| - 1];
      LastDotBefore(front, name[..|name| - 1]);
    }
  }

  lemma {:induction false} NoDotNoLast(name: string)
    requires '.' !in name
    ensures LastDot(name) == -1
  {
    if name != "" {
      NoDotNoLast(name[..|name| - 1]);
    }
  }

  lemma MemberEnding(steps: seq<PathStep>)
    requires Canonical(steps) && steps[|steps| - 1].MemberStep?
    ensures var name := steps[|steps| - 1].member;
            && !EndsWithBrackets(Render(steps))
            && LastDot(Render(steps)) == (if |steps| == 1 then -1 else |Render(steps[..|steps| - 1])|)
            && Render(steps)[LastDot(Render(steps)) + 1..] == name
  {
    var rest, name := steps[..|steps| - 1], steps[|steps| - 1].member;
    if rest == [] {
      NoDotNoLast(name);
    } else {
      LastDotBefore(Render(rest), name);
      var s := Render(rest) + "." + name;
      assert s[|Render(rest)| + 1..] == name;
    }
  }

  lemma ArrayEnding(steps: seq<PathStep>)
    requires Canonical(steps) && steps[|steps| - 1].ArrayStep?
    ensures |steps| > 1 && Canonical(steps[..|steps| - 1])
    ensures EndsWithBrackets(Render(steps))
    ensures Render(steps)[..|Render(steps)| - 2] == Render(steps[..|steps| - 1])
  {
    hide PlainName;
  }

  lemma SameMemberEnding(a: seq<PathStep>, b: seq<PathStep>)
    requires Canonical(a) && Canonical(b) && Render(a) == Render(b)
    requires a[|a| - 1].MemberStep? && b[|b| - 1].MemberStep?
    ensures a[|a| - 1] == b[|b| - 1] && (|a| == 1 <==> |b| == 1)
    ensures |a| > 1 ==> Render(a[..|a| - 1]) == Render(b[..|b| - 1])
  {
    MemberEnding(a);
    MemberEnding(b);
    if |a| > 1 {
      FrontOfRender(a);
      FrontOfRender(b);
      hide *;
    }
  }

  lemma FrontOfRender(steps: seq<PathStep>)
    requires |steps| > 1 && steps[|steps| - 1].MemberStep?
    ensures |Render(steps[..|steps| - 1])| <= |Render(steps)|
    ensures Render(steps)[..|Render(steps[..|steps| - 1])|] == Render(steps[..|steps| - 1])
  {
    var front := Render(steps[..|steps| - 1]);
    assert Render(steps) == front + "." + steps[|steps| - 1].member;
  }

  /** Two canonical step lists with the same text are the same: the parse is the only reading. */
  lemma {:induction false} RenderInjective(a: seq<PathStep>, b: seq<PathStep>)
    requires Canonical(a) && Canonical(b) && Render(a) == Render(b)
    ensures a == b
    decreases |a|
  {
    var la, lb := a[|a| - 1], b[|b| - 1];
    var ra, rb := a[..|a| - 1], b[..|b| - 1];
    assert a == ra + [la] && b == rb + [lb];
    if la.ArrayStep? {
      ArrayEnding(a);
    } else {
      MemberEnding(a);
    }
    if lb.ArrayStep? {
      ArrayEnding(b);
    } else {
      MemberEnding(b);
    }
    assert la.ArrayStep? <==> lb.ArrayStep?;
    if la.MemberStep? {
      SameMemberEnding(a, b);
    }
    hide *;
    if |a| > 1 {
      RenderInjective(ra, rb);
    }
  }
}
