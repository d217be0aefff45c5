/** Where a link, an image or a definition keeps its destination: scripts/markdown.ts. */
module LinkDestination {
  import opened JavaScript
  import opened Whitespace
  import opened Wrappers

  // ---------- balanced text ----------

  /** What closes a text, what opens a nested one, and whether whitespace ends it too. */
  datatype Delimiters = Delimiters(open: Option<char>, close: char, breaks: bool)

  const LABEL := Delimiters(Some('['), ']', false)
  const ANGLE := Delimiters(None, '>', false)
  const PLAIN := Delimiters(Some('('), ')', true)

  /** A character for itself, a backslash and any character, or a nested text with its delimiters. */
  datatype Piece = Plain(c: char) | Escaped(c: char) | Nested(inner: seq<Piece>)

  ghost predicate IsPlain(d: Delimiters, c: char) {
    c != '\\' && c != d.close && Some(c) != d.open
  }

  ghost predicate Proper(d: Delimiters, ps: seq<Piece>, top: bool)
    decreases ps
  {
    ps == [] ||
    (Proper(d, ps[1..], top) &&
     match ps[0]
     case Plain(c) => IsPlain(d, c) && !(top && d.breaks && IsSpace(c))
     case Escaped(_) => true
     case Nested(inner) => d.open.Some? && d.open.value != '\\' && Proper(d, inner, false))
  }

  ghost function TextOf(d: Delimiters, p: Piece): string
    decreases p
  {
    match p
    case Plain(c) => [c]
    case Escaped(c) => ['\\', c]
    case Nested(inner) => (if d.open.Some? then [d.open.value] else []) + Text(d, inner) + [d.close]
  }

  ghost function Text(d: Delimiters, ps: seq<Piece>): string
    decreases ps
  {
    if ps == [] then [] else TextOf(d, ps[0]) + Text(d, ps[1..])
  }

  predicate EndsAt(d: Delimiters, s: string, e: nat) {
    e < |s| && (s[e] == d.close || (d.breaks && IsSpace(s[e])))
  }

  /** The text from `i` is balanced up to `e`, and something that ends it stands at `e`. */
  ghost predicate Closes(d: Delimiters, s: string, i: nat, e: nat) {
    && i <= e && EndsAt(d, s, e)
    && exists ps :: Proper(d, ps, true) && Text(d, ps) == s[i..e]
  }

  // ---------- the scan ----------

  /** Where the scan from `i` at nesting `depth` stops; the length of the text when it does not. */
  function Stop(d: Delimiters, s: string, i: nat, depth: nat): nat
    decreases |s| - i
  {
    if i >= |s| then |s|
    else if s[i] == '\\' then Stop(d, s, i + 2, depth)
    else if Some(s[i]) == d.open then Stop(d, s, i + 1, depth + 1)
    else if s[i] == d.close then (if depth == 0 then i else Stop(d, s, i + 1, depth - 1))
    else if d.breaks && depth == 0 && IsSpace(s[i]) then i
    else Stop(d, s, i + 1, depth)
  }

  /** Neither delimiter is a backslash or a space, and they differ. */
  ghost predicate Sensible(d: Delimiters) {
    d.close != '\\' && d.open != Some('\\') && d.open != Some(d.close)
    && (d.breaks ==> d.open.Some? && !IsSpace(d.open.value))
  }

  /** `t` stands in `s` at `i`. */
  lemma StandsSplit(t: string, u: string, s: string, i: nat)
    requires StandsAt(t + u, s, i)
    ensures StandsAt(t, s, i) && StandsAt(u, s, i + |t|)
  {
    assert forall k :: 0 <= k < |t + u| ==> s[i + k] == (t + u)[k];
    assert forall k :: 0 <= k < |t| ==> s[i + k] == t[k];
    assert forall k :: 0 <= k < |u| ==> s[i + |t| + k] == u[k];
  }

  lemma NestedStands(d: Delimiters, inner: seq<Piece>, s: string, i: nat)
    requires d.open.Some? && StandsAt(TextOf(d, Nested(inner)), s, i)
    ensures var n := |Text(d, inner)|;
      && |TextOf(d, Nested(inner))| == n + 2 && i + n + 2 <= |s|
      && s[i] == d.open.value && StandsAt(Text(d, inner), s, i + 1) && s[i + 1 + n] == d.close
  {
    var open, close := [d.open.value], [d.close];
    StandsSplit(open + Text(d, inner), close, s, i);
    StandsSplit(open, Text(d, inner), s, i);
  }

  lemma {:induction false} ScanPastPiece(d: Delimiters, p: Piece, s: string, i: nat, depth: nat)
    requires Sensible(d) && Proper(d, [p], depth == 0) && StandsAt(TextOf(d, p), s, i)
    ensures Stop(d, s, i, depth) == Stop(d, s, i + |TextOf(d, p)|, depth)
    decreases p, 1
  {
    match p {
      case Plain(c) =>
      case Escaped(c) =>
        StandsSplit(['\\'], [c], s, i);
      case Nested(inner) =>
        NestedStands(d, inner, s, i);
        hide Text, TextOf, StandsAt, IsSpace;
        ScanPast(d, inner, s, i + 1, depth + 1);
    }
  }

  /** The scan passes over balanced text. */
  lemma {:induction false} ScanPast(d: Delimiters, ps: seq<Piece>, s: string, i: nat, depth: nat)
    requires Sensible(d) && Proper(d, ps, depth == 0) && StandsAt(Text(d, ps), s, i)
    ensures Stop(d, s, i, depth) == Stop(d, s, i + |Text(d, ps)|, depth)
    decreases ps, 0
  {
    if ps != [] {
      StandsSplit(TextOf(d, ps[0]), Text(d, ps[1..]), s, i);
      ScanPastPiece(d, ps[0], s, i, depth);
      ScanPast(d, ps[1..], s, i + |TextOf(d, ps[0])|, depth);
    }
  }

  // ---------- and back: what the scan passed was balanced ----------

  /** Texts at falling depths, each but the last closed. */
  ghost function LevelsText(d: Delimiters, ls: seq<seq<Piece>>): string
    requires ls != []
  {
    if |ls| == 1 then Text(d, ls[0]) else Text(d, ls[0]) + [d.close] + LevelsText(d, ls[1..])
  }

  ghost predicate ProperLevels(d: Delimiters, ls: seq<seq<Piece>>)
    requires ls != []
  {
    if |ls| == 1 then Proper(d, ls[0], true) else Proper(d, ls[0], false) && ProperLevels(d, ls[1..])
  }

  ghost function Prepend(p: Piece, ls: seq<seq<Piece>>): seq<seq<Piece>>
    requires ls != []
  {
    [[p] + ls[0]] + ls[1..]
  }

  lemma PrependText(d: Delimiters, p: Piece, ls: seq<seq<Piece>>)
    requires ls != [] && ProperLevels(d, ls) && Proper(d, [p], |ls| == 1)
    ensures LevelsText(d, Prepend(p, ls)) == TextOf(d, p) + LevelsText(d, ls)
    ensures ProperLevels(d, Prepend(p, ls))
  {
    assert ([p] + ls[0])[1..] == ls[0];
    assert Prepend(p, ls)[1..] == ls[1..];
    assert [p][1..] == [];
  }

  lemma NestText(d: Delimiters, ls: seq<seq<Piece>>)
    requires Sensible(d) && d.open.Some? && |ls| >= 2 && ProperLevels(d, ls)
    ensures var r := Prepend(Nested(ls[0]), ls[1..]);
      ProperLevels(d, r) && LevelsText(d, r) == [d.open.value] + LevelsText(d, ls)
  {
    var p := Nested(ls[0]);
    assert [p][1..] == [];
    assert Proper(d, [p], |ls[1..]| == 1);
    PrependText(d, p, ls[1..]);
    hide Text, ProperLevels, Proper;
    Assoc4([d.open.value], Text(d, ls[0]), [d.close], LevelsText(d, ls[1..]));
  }

  lemma Assoc4(a: string, b: string, c: string, e: string)
    ensures (a + b + c) + e == a + (b + c + e)
  {
  }

  /** The levels `ls` are what stands in `s` from `i` to `e`. */
  ghost predicate Reads(d: Delimiters, ls: seq<seq<Piece>>, s: string, i: nat, e: nat) {
    ls != [] && ProperLevels(d, ls) && i <= e <= |s| && LevelsText(d, ls) == s[i..e]
  }

  lemma ReadEscaped(d: Delimiters, ls: seq<seq<Piece>>, s: string, i: nat, e: nat)
    requires Reads(d, ls, s, i + 2, e) && s[i] == '\\'
    ensures Reads(d, Prepend(Escaped(s[i + 1]), ls), s, i, e)
  {
    assert [Escaped(s[i + 1])][1..] == [];
    PrependText(d, Escaped(s[i + 1]), ls);
  }

  lemma ReadPlain(d: Delimiters, ls: seq<seq<Piece>>, s: string, i: nat, e: nat)
    requires Reads(d, ls, s, i + 1, e) && IsPlain(d, s[i]) && !(|ls| == 1 && d.breaks && IsSpace(s[i]))
    ensures Reads(d, Prepend(Plain(s[i]), ls), s, i, e)
  {
    assert [Plain(s[i])][1..] == [];
    PrependText(d, Plain(s[i]), ls);
  }

  lemma ReadOpen(d: Delimiters, ls: seq<seq<Piece>>, s: string, i: nat, e: nat)
    requires Sensible(d) && |ls| >= 2 && Reads(d, ls, s, i + 1, e) && d.open == Some(s[i])
    ensures Reads(d, Prepend(Nested(ls[0]), ls[1..]), s, i, e)
  {
    NestText(d, ls);
  }

  lemma ReadClose(d: Delimiters, ls: seq<seq<Piece>>, s: string, i: nat, e: nat)
    requires Reads(d, ls, s, i + 1, e) && s[i] == d.close
    ensures Reads(d, [[]] + ls, s, i, e)
  {
    assert ([[]] + ls)[1..] == ls;
    assert Text(d, []) + [d.close] == [d.close];
  }

  lemma ReadNothing(d: Delimiters, s: string, i: nat)
    requires i <= |s|
    ensures Reads(d, [[]], s, i, i)
  {
  }

  lemma {:induction false} Parse(d: Delimiters, s: string, i: nat, depth: nat) returns (ls: seq<seq<Piece>>)
    requires Sensible(d) && Stop(d, s, i, depth) < |s|
    ensures EndsAt(d, s, Stop(d, s, i, depth))
    ensures |ls| == depth + 1 && Reads(d, ls, s, i, Stop(d, s, i, depth))
    decreases |s| - i
  {
    hide Reads, IsSpace, Sensible;
    var e := Stop(d, s, i, depth);
    if s[i] == '\\' {
      ls := Parse(d, s, i + 2, depth);
      ReadEscaped(d, ls, s, i, e);
      ls := Prepend(Escaped(s[i + 1]), ls);
    } else if Some(s[i]) == d.open {
      ls := Parse(d, s, i + 1, depth + 1);
      ReadOpen(d, ls, s, i, e);
      ls := Prepend(Nested(ls[0]), ls[1..]);
    } else if s[i] == d.close && depth > 0 {
      ls := Parse(d, s, i + 1, depth - 1);
      ReadClose(d, ls, s, i, e);
      ls := [[]] + ls;
    } else if s[i] == d.close || (d.breaks && depth == 0 && IsSpace(s[i])) {
      ls := [[]];
      ReadNothing(d, s, i);
    } else {
      ls := Parse(d, s, i + 1, depth);
      ReadPlain(d, ls, s, i, e);
      ls := Prepend(Plain(s[i]), ls);
    }
  }

  /** The scan finds exactly the end of the balanced text, or none when there is none. */
  lemma StopExact(d: Delimiters, s: string, i: nat)
    requires Sensible(d)
    ensures forall e: nat :: Closes(d, s, i, e) <==> e == Stop(d, s, i, 0) && e < |s|
  {
    forall e: nat ensures Closes(d, s, i, e) <==> e == Stop(d, s, i, 0) && e < |s| {
      if Closes(d, s, i, e) {
        var ps :| Proper(d, ps, true) && Text(d, ps) == s[i..e];
        assert |Text(d, ps)| == e - i;
        ScanPast(d, ps, s, i, 0);
      }
      if e == Stop(d, s, i, 0) && e < |s| {
        var ls := Parse(d, s, i, 0);
        assert Proper(d, ls[0], true) && Text(d, ls[0]) == s[i..e];
      }
    }
  }

  // ---------- the code ----------

  datatype Kind = Link | Image | Definition

  datatype Fault = NoLabel | NoSeparator | NoInline | NoAngleEnd

  ghost predicate FirstAt(s: string, c: char, i: nat, p: nat) {
    i <= p < |s| && s[p] == c && forall k :: i <= k < p ==> s[k] != c
  }

  /** `source.indexOf(c, i)`. */
  method IndexOf(s: string, c: char, i: nat) returns (r: Option<nat>)
    ensures r.Some? ==> FirstAt(s, c, i, r.value)
    ensures r.None? ==> forall k :: i <= k < |s| ==> s[k] != c
  {
    var k := i;
    while k < |s|
      invariant i <= k
      invariant forall j :: i <= j < k && j < |s| ==> s[j] != c
    {
      if s[k] == c { return Some(k); }
      k := k + 1;
    }
    r := None;
  }

  /** The first position from `i` on that holds no whitespace. */
  ghost predicate PastSpace(s: string, i: nat, p: nat) {
    && i <= p && (p == i || p <= |s|) && (p < |s| ==> !IsSpace(s[p]))
    && forall k :: i <= k < p ==> IsSpace(s[k])
  }

  method SkipWhitespace(s: string, i: nat) returns (p: nat)
    ensures PastSpace(s, i, p)
  {
    p := i;
    while p < |s| && IsSpace(s[p])
      invariant i <= p && (p == i || p <= |s|)
      invariant forall k :: i <= k < p ==> IsSpace(s[k])
    {
      p := p + 1;
    }
  }

  /** The label from the first `[` closes at `e`. */
  ghost predicate LabelEndsAt(s: string, e: nat) {
    exists f: nat :: FirstAt(s, '[', 0, f) && Closes(LABEL, s, f + 1, e)
  }

  method LabelEnd(s: string) returns (r: Option<nat>)
    ensures r.Some? ==> LabelEndsAt(s, r.value)
    ensures r.None? ==> forall e: nat :: !LabelEndsAt(s, e)
    ensures forall e: nat :: LabelEndsAt(s, e) ==> r == Some(e)
  {
    var first := IndexOf(s, '[', 0);
    if first.None? { return None; }
    StopExact(LABEL, s, first.value + 1);
    var depth := 0;
    var index := first.value;
    while index < |s|
      invariant first.value <= index
      invariant index == first.value ==> depth == 0
      invariant index > first.value ==> depth > 0 && Stop(LABEL, s, index, depth - 1) == Stop(LABEL, s, first.value + 1, 0)
    {
      var c := s[index];
      if c == '\\' {
        index := index + 1;
      } else if c == '[' {
        depth := depth + 1;
      } else if c == ']' {
        depth := depth - 1;
        if depth == 0 { return Some(index); }
      }
      index := index + 1;
    }
    r := None;
  }

  /** The end of an angle-bracket destination that starts at `start`. */
  method AngleEnd(s: string, start: nat) returns (r: Option<nat>)
    ensures r.Some? ==> Closes(ANGLE, s, start, r.value)
    ensures forall e: nat :: Closes(ANGLE, s, start, e) ==> r == Some(e)
  {
    StopExact(ANGLE, s, start);
    var index := start;
    while index < |s|
      invariant start <= index
      invariant Stop(ANGLE, s, index, 0) == Stop(ANGLE, s, start, 0)
    {
      if s[index] == '\\' {
        index := index + 1;
      } else if s[index] == '>' {
        return Some(index);
      }
      index := index + 1;
    }
    r := None;
  }

  /** Where a bare destination that starts at `start` ends: where it closes, or with the text. */
  ghost predicate PlainEndsAt(s: string, start: nat, e: nat) {
    Closes(PLAIN, s, start, e) || (e == |s| && forall k: nat :: !Closes(PLAIN, s, start, k))
  }

  method PlainEnd(s: string, start: nat) returns (e: nat)
    ensures PlainEndsAt(s, start, e)
    ensures forall k: nat :: PlainEndsAt(s, start, k) ==> k == e
  {
    StopExact(PLAIN, s, start);
    var depth := 0;
    var index := start;
    while index < |s|
      invariant start <= index
      invariant Stop(PLAIN, s, index, depth) == Stop(PLAIN, s, start, 0)
    {
      var c := s[index];
      if c == '\\' {
        index := index + 1;
      } else if c == '(' {
        depth := depth + 1;
      } else if c == ')' {
        if depth == 0 { return index; }
        depth := depth - 1;
      } else if IsSpace(c) && depth == 0 {
        return index;
      }
      index := index + 1;
    }
    e := |s|;
  }

  /** The place after the first colon from `i` on, and the whitespace behind it. */
  ghost predicate AfterColon(s: string, i: nat, p: nat) {
    exists colon: nat :: FirstAt(s, ':', i, colon) && PastSpace(s, colon + 1, p)
  }

  ghost predicate StartsBehind(s: string, kind: Kind, e: nat, p: nat) {
    if kind.Definition? then AfterColon(s, e + 1, p)
    else e + 1 < |s| && s[e + 1] == '(' && PastSpace(s, e + 2, p)
  }

  /** Where the destination of a node starts, its brackets included. */
  ghost predicate StartsAt(s: string, kind: Kind, p: nat) {
    exists e: nat :: LabelEndsAt(s, e) && StartsBehind(s, kind, e, p)
  }

  method DestinationStart(s: string, kind: Kind) returns (r: Result<nat, Fault>)
    ensures r.Success? ==> StartsAt(s, kind, r.value)
    ensures forall p: nat :: StartsAt(s, kind, p) ==> r == Success(p)
    ensures r == Failure(NoLabel) <==> forall e: nat :: !LabelEndsAt(s, e)
    ensures r != Failure(NoAngleEnd)
    ensures r == Failure(NoSeparator) ==> kind.Definition?
    ensures r == Failure(NoInline) ==> !kind.Definition?
  {
    var endOfLabel := LabelEnd(s);
    if endOfLabel.None? {
      return Failure(NoLabel);
    }
    var e := endOfLabel.value;
    hide LabelEndsAt;
    var start: nat;
    if kind.Definition? {
      var colon := IndexOf(s, ':', e + 1);
      if colon.None? {
        return Failure(NoSeparator);
      }
      start := SkipWhitespace(s, colon.value + 1);
    } else {
      if !(e + 1 < |s| && s[e + 1] == '(') {
        return Failure(NoInline);
      }
      start := SkipWhitespace(s, e + 2);
    }
    assert StartsBehind(s, kind, e, start);
    forall p: nat | StartsAt(s, kind, p) ensures p == start {
      assert StartsBehind(s, kind, e, p);
    }
    r := Success(start);
  }

  /** `[a, b)` is the destination in brackets, or bare, that starts at `p`. */
  ghost predicate Spans(s: string, p: nat, a: nat, b: nat) {
    if p < |s| && s[p] == '<' then a == p + 1 && Closes(ANGLE, s, a, b)
    else a == p && PlainEndsAt(s, a, b)
  }

  /** `[a, b)` is the destination of the node text `s`. */
  ghost predicate Located(s: string, kind: Kind, a: nat, b: nat) {
    exists p: nat :: StartsAt(s, kind, p) && Spans(s, p, a, b)
  }

  /** The located range is the destination, the only one, and an error means there is none. */
  method DestinationRange(s: string, kind: Kind) returns (r: Result<(nat, nat), Fault>)
    ensures r.Success? ==> Located(s, kind, r.value.0, r.value.1)
    ensures forall a: nat, b: nat :: Located(s, kind, a, b) ==> r == Success((a, b))
    ensures r == Failure(NoLabel) <==> forall e: nat :: !LabelEndsAt(s, e)
    ensures r == Failure(NoSeparator) ==> kind.Definition?
    ensures r == Failure(NoInline) ==> !kind.Definition?
    ensures r == Failure(NoAngleEnd) ==> exists p: nat :: StartsAt(s, kind, p)
    ensures r.Failure? && (exists p: nat :: StartsAt(s, kind, p)) ==> r == Failure(NoAngleEnd)
  {
    hide StartsAt, LabelEndsAt, Closes, PlainEndsAt;
    var from := DestinationStart(s, kind);
    if from.Failure? {
      return Failure(from.error);
    }
    var start := from.value;
    assert StartsAt(s, kind, start);
    if start < |s| && s[start] == '<' {
      var e := AngleEnd(s, start + 1);
      if e.None? {
        return Failure(NoAngleEnd);
      }
      r := Success((start + 1, e.value));
    } else {
      var e := PlainEnd(s, start);
      r := Success((start, e));
    }
    assert Spans(s, start, r.value.0, r.value.1);
  }

  // ---------- the places are unique ----------

  lemma LabelOnce(s: string, e: nat, e': nat)
    requires LabelEndsAt(s, e) && LabelEndsAt(s, e')
    ensures e == e'
  {
    var f: nat :| FirstAt(s, '[', 0, f) && Closes(LABEL, s, f + 1, e);
    var f': nat :| FirstAt(s, '[', 0, f') && Closes(LABEL, s, f' + 1, e');
    assert f == f';
    hide Closes;
    StopExact(LABEL, s, f + 1);
  }

  /** A bare destination ends where the scan stops. */
  lemma PlainEndsExact(s: string, start: nat, e: nat)
    ensures PlainEndsAt(s, start, e) <==> e == Stop(PLAIN, s, start, 0)
  {
    hide Closes, Stop;
    StopExact(PLAIN, s, start);
    StopWithin(PLAIN, s, start, 0);
    assert Closes(PLAIN, s, start, Stop(PLAIN, s, start, 0)) <==> Stop(PLAIN, s, start, 0) < |s|;
  }

  lemma {:induction false} StopWithin(d: Delimiters, s: string, i: nat, depth: nat)
    ensures Stop(d, s, i, depth) <= |s|
    ensures i <= |s| ==> i <= Stop(d, s, i, depth)
    decreases |s| - i
  {
    if i < |s| {
      if s[i] == '\\' {
        StopWithin(d, s, i + 2, depth);
      } else if Some(s[i]) == d.open {
        StopWithin(d, s, i + 1, depth + 1);
      } else if s[i] == d.close {
        if depth > 0 {
          StopWithin(d, s, i + 1, depth - 1);
        }
      } else {
        StopWithin(d, s, i + 1, depth);
      }
    }
  }
}
