/**
 * The destination a Markdown parser reads, by sections 2.4 and 6.3 of CommonMark 0.31.2, and when
 * the range located by scripts/markdown.ts is exactly that.
 */
module CommonMarkLink {
  import opened JavaScript
  import opened LinkDestination
  import opened Whitespace

  // ---------- destinations as CommonMark has them ----------

  predicate IsPunctuation(c: char) {
    '!' <= c <= '/' || ':' <= c <= '@' || '[' <= c <= '`' || '{' <= c <= '~'
  }

  /** A space or an ASCII control character. */
  predicate IsBreak(c: char) {
    c <= ' ' || c == '\U{007F}'
  }

  /** What may stand between a destination and its neighbours. */
  predicate IsBlank(c: char) {
    c in {' ', '\t', '\n', '\r'}
  }

  /** A character for itself, a punctuation character behind a backslash, or balanced parentheses. */
  datatype Mark = Char(c: char) | Escape(c: char) | Parens(inner: seq<Mark>)

  ghost function MarkText(m: Mark): string
    decreases m
  {
    match m
    case Char(c) => [c]
    case Escape(c) => ['\\', c]
    case Parens(inner) => "(" + MarksText(inner) + ")"
  }

  ghost function MarksText(ms: seq<Mark>): string
    decreases ms
  {
    if ms == [] then [] else MarkText(ms[0]) + MarksText(ms[1..])
  }

  /** Punctuation follows the first mark, within `ms` or in `tail`: a backslash there would escape it. */
  ghost predicate PunctuationNext(ms: seq<Mark>, tail: string) {
    var rest := MarksText(ms) + tail;
    rest != [] && IsPunctuation(rest[0])
  }

  /** The marks of a bare destination with `tail` behind it. */
  ghost predicate Bare(ms: seq<Mark>, tail: string)
    decreases ms
  {
    ms == [] ||
    (Bare(ms[1..], tail) &&
     match ms[0]
     case Char(c) => !IsBreak(c) && c != '(' && c != ')' && (c == '\\' ==> !PunctuationNext(ms[1..], tail))
     case Escape(c) => IsPunctuation(c)
     case Parens(inner) => Bare(inner, ")"))
  }

  /** What follows a destination: the end of the link, blanks, or for a definition the end of its text. */
  predicate Ends(kind: Kind, tail: string) {
    if tail == [] then kind.Definition? else IsBlank(tail[0]) || (tail[0] == ')' && !kind.Definition?)
  }

  /** A bare destination does not begin with `<`, and is empty only in `()`. */
  ghost predicate Destination(kind: Kind, ms: seq<Mark>, tail: string) {
    && Bare(ms, tail) && Ends(kind, tail)
    && if ms == [] then tail != [] && tail[0] == ')' else ms[0] != Char('<')
  }

  // ---------- there is one ----------

  /** Where a reader stops who knows only backslashes, parentheses, spaces and control characters. */
  function ReadTo(s: string, i: nat, depth: nat): nat
    decreases |s| - i
  {
    if i >= |s| then |s|
    else if s[i] == '\\' && i + 1 < |s| && IsPunctuation(s[i + 1]) then ReadTo(s, i + 2, depth)
    else if s[i] == '(' then ReadTo(s, i + 1, depth + 1)
    else if s[i] == ')' then (if depth == 0 then i else ReadTo(s, i + 1, depth - 1))
    else if IsBreak(s[i]) then i
    else ReadTo(s, i + 1, depth)
  }

  /** `ms` and then `tail` is all that stands in `s` from `i` on. */
  ghost predicate Here(ms: seq<Mark>, tail: string, s: string, i: nat) {
    i <= |s| && s[i..] == MarksText(ms) + tail
  }

  lemma HereNext(ms: seq<Mark>, tail: string, s: string, i: nat)
    requires ms != [] && Here(ms, tail, s, i)
    ensures Here(ms[1..], tail, s, i + |MarkText(ms[0])|)
    ensures s[i..] == MarkText(ms[0]) + (MarksText(ms[1..]) + tail)
  {
    var first, rest := MarkText(ms[0]), MarksText(ms[1..]);
    hide MarkText, MarksText;
    assert first + rest + tail == first + (rest + tail);
    assert s[i + |first|..] == s[i..][|first|..];
  }

  lemma HereChar(s: string, i: nat, c: char, rest: string)
    requires i <= |s| && s[i..] == [c] + rest
    ensures i < |s| && s[i] == c && s[i + 1..] == rest && (rest != [] ==> i + 1 < |s| && s[i + 1] == rest[0])
    ensures rest == [] ==> |s| == i + 1
  {
    assert s[i..][0] == c && s[i + 1..] == s[i..][1..];
  }

  lemma BareFirst(ms: seq<Mark>, tail: string)
    requires ms != [] && Bare(ms, tail)
    ensures Bare(ms[1..], tail)
    ensures match ms[0]
      case Char(c) => !IsBreak(c) && c != '(' && c != ')' && (c == '\\' ==> !PunctuationNext(ms[1..], tail))
      case Escape(c) => IsPunctuation(c)
      case Parens(inner) => Bare(inner, ")")
  {
  }

  lemma {:induction false} ReadMark(m: Mark, rest: string, s: string, i: nat, depth: nat)
    requires i <= |s| && s[i..] == MarkText(m) + rest
    requires match m
      case Char(c) => !IsBreak(c) && c != '(' && c != ')' && (c == '\\' ==> rest == [] || !IsPunctuation(rest[0]))
      case Escape(c) => IsPunctuation(c)
      case Parens(inner) => Bare(inner, ")")
    ensures ReadTo(s, i, depth) == ReadTo(s, i + |MarkText(m)|, depth)
    decreases m, 1
  {
    match m {
      case Char(c) => HereChar(s, i, c, rest);
      case Escape(c) =>
        assert ['\\', c] + rest == ['\\'] + ([c] + rest);
        HereChar(s, i, '\\', [c] + rest);
      case Parens(inner) =>
        InParens(inner, rest, s, i);
        hide MarkText, MarksText, Bare;
        ReadPast(inner, ")" + rest, s, i + 1, depth + 1);
    }
  }

  /** That reader stops behind a bare destination. */
  lemma {:induction false} ReadPast(ms: seq<Mark>, tail: string, s: string, i: nat, depth: nat)
    requires Bare(ms, tail) && Here(ms, tail, s, i)
    ensures ReadTo(s, i, depth) == ReadTo(s, i + |MarksText(ms)|, depth)
    decreases ms, 0
  {
    if ms != [] {
      hide Bare, ReadTo, MarkText;
      BareFirst(ms, tail);
      HereNext(ms, tail, s, i);
      ReadMark(ms[0], MarksText(ms[1..]) + tail, s, i, depth);
      ReadPast(ms[1..], tail, s, i + |MarkText(ms[0])|, depth);
    }
  }

  /** Inside parentheses the tail begins with the closing one. */
  lemma InParens(inner: seq<Mark>, rest: string, s: string, i: nat)
    requires i <= |s| && s[i..] == MarkText(Parens(inner)) + rest
    ensures i < |s| && s[i] == '(' && Here(inner, ")" + rest, s, i + 1)
    ensures var e := i + 1 + |MarksText(inner)|; e < |s| && s[e] == ')' && e + 1 == i + |MarkText(Parens(inner))|
    ensures Bare(inner, ")") ==> Bare(inner, ")" + rest)
  {
    var t := MarksText(inner);
    assert MarkText(Parens(inner)) == "(" + t + ")";
    SameFirst(inner, ")", ")" + rest);
    hide MarkText, MarksText, Bare;
    assert "(" + t + ")" + rest == ['('] + (t + (")" + rest));
    HereChar(s, i, '(', t + (")" + rest));
    assert s[i + 1..][|t|] == ')';
  }

  /** Only the first character of the tail matters. */
  lemma {:induction false} SameFirst(ms: seq<Mark>, tail: string, tail': string)
    requires tail != [] && tail' != [] && tail[0] == tail'[0]
    ensures Bare(ms, tail) <==> Bare(ms, tail')
    decreases ms
  {
    if ms != [] {
      SameFirst(ms[1..], tail, tail');
      var t := MarksText(ms[1..]);
      assert (t + tail)[0] == (t + tail')[0];
    }
  }

  lemma ReadsToEnd(kind: Kind, ms: seq<Mark>, tail: string)
    requires Bare(ms, tail) && Ends(kind, tail)
    ensures ReadTo(MarksText(ms) + tail, 0, 0) == |MarksText(ms)|
  {
    hide MarksText, Bare, ReadTo;
    var s, n := MarksText(ms) + tail, |MarksText(ms)|;
    assert s[0..] == s;
    ReadPast(ms, tail, s, 0, 0);
    assert n < |s| ==> s[n] == tail[0];
    ReadEnds(s, n);
  }

  lemma ReadEnds(s: string, n: nat)
    requires n == |s| || (n < |s| && (IsBlank(s[n]) || s[n] == ')'))
    ensures ReadTo(s, n, 0) == n
  {
  }

  /** A text begins with one destination at most. */
  lemma OneDestination(kind: Kind, ms: seq<Mark>, tail: string, ms': seq<Mark>, tail': string)
    requires Destination(kind, ms, tail) && Destination(kind, ms', tail') && MarksText(ms) + tail == MarksText(ms') + tail'
    ensures MarksText(ms) == MarksText(ms') && tail == tail'
  {
    var s, t, t' := MarksText(ms) + tail, MarksText(ms), MarksText(ms');
    ReadsToEnd(kind, ms, tail);
    ReadsToEnd(kind, ms', tail');
    hide MarksText, Destination;
    assert s[..|t|] == t && s[..|t'|] == t' && s[|t|..] == tail && s[|t'|..] == tail';
  }

  // ---------- the scan of the source on a destination ----------

  /** Behind a backslash that escapes nothing stands a character for itself, if anything. */
  lemma AfterBackslash(ms: seq<Mark>, tail: string)
    requires ms != [] && Bare(ms, tail) && ms[0] == Char('\\')
    ensures |ms| > 1 ==> ms[1].Char? && ms[1].c != '\\' && ms[2..] == ms[1..][1..]
    ensures |ms| == 1 && tail != [] ==> !IsPunctuation(tail[0])
  {
    if |ms| > 1 {
      var rest := ms[1..];
      assert (MarksText(rest) + tail)[0] == MarkText(rest[0])[0];
    } else {
      assert MarksText(ms[1..]) + tail == tail;
    }
  }

  /** The scan from here on, by what stands here. */
  lemma StopAt(s: string, i: nat, depth: nat)
    requires i < |s|
    ensures s[i] == '\\' ==> Stop(PLAIN, s, i, depth) == Stop(PLAIN, s, i + 2, depth)
    ensures s[i] == '(' ==> Stop(PLAIN, s, i, depth) == Stop(PLAIN, s, i + 1, depth + 1)
    ensures s[i] == ')' ==> Stop(PLAIN, s, i, depth) == if depth == 0 then i else Stop(PLAIN, s, i + 1, depth - 1)
    ensures s[i] !in {'\\', '(', ')'} ==> Stop(PLAIN, s, i, depth) == if depth == 0 && IsSpace(s[i]) then i else Stop(PLAIN, s, i + 1, depth)
  {
  }

  lemma HereTwo(ms: seq<Mark>, tail: string, s: string, i: nat)
    requires |ms| > 1 && ms[0].Char? && ms[1].Char? && Here(ms, tail, s, i)
    ensures i + 2 <= |s| && s[i] == ms[0].c && Here(ms[2..], tail, s, i + 2) && |MarksText(ms)| == 2 + |MarksText(ms[2..])|
  {
    HereNext(ms, tail, s, i);
    HereNext(ms[1..], tail, s, i + 1);
    HereChar(s, i, ms[0].c, MarksText(ms[1..]) + tail);
    HereChar(s, i + 1, ms[1].c, MarksText(ms[2..]) + tail);
    assert ms[1..][1..] == ms[2..];
  }

  lemma HereOne(ms: seq<Mark>, tail: string, s: string, i: nat)
    requires ms != [] && ms[0].Char? && Here(ms, tail, s, i)
    ensures i < |s| && s[i] == ms[0].c && Here(ms[1..], tail, s, i + 1) && |MarksText(ms)| == 1 + |MarksText(ms[1..])|
  {
    HereNext(ms, tail, s, i);
    HereChar(s, i, ms[0].c, MarksText(ms[1..]) + tail);
  }

  lemma HereEscape(ms: seq<Mark>, tail: string, s: string, i: nat)
    requires ms != [] && ms[0].Escape? && Here(ms, tail, s, i)
    ensures i < |s| && s[i] == '\\' && Here(ms[1..], tail, s, i + 2) && |MarksText(ms)| == 2 + |MarksText(ms[1..])|
  {
    HereNext(ms, tail, s, i);
    var c, rest := ms[0].c, MarksText(ms[1..]) + tail;
    assert ['\\', c] + rest == ['\\'] + ([c] + rest);
    HereChar(s, i, '\\', [c] + rest);
  }

  lemma HereParens(ms: seq<Mark>, tail: string, s: string, i: nat)
    requires ms != [] && ms[0].Parens? && Bare(ms, tail) && Here(ms, tail, s, i)
    ensures Here(ms[1..], tail, s, i + |MarkText(ms[0])|) && |MarksText(ms)| == |MarkText(ms[0])| + |MarksText(ms[1..])|
    ensures var inner, rest := ms[0].inner, ")" + (MarksText(ms[1..]) + tail);
      && i < |s| && s[i] == '(' && Bare(inner, rest) && Here(inner, rest, s, i + 1) && rest[0] == ')'
      && var e := i + 1 + |MarksText(inner)|; e < |s| && s[e] == ')' && e + 1 == i + |MarkText(ms[0])|
  {
    HereNext(ms, tail, s, i);
    InParens(ms[0].inner, MarksText(ms[1..]) + tail, s, i);
    BareFirst(ms, tail);
  }

  /** Balanced parentheses are passed as a whole, whitespace of other scripts in them included. */
  lemma {:induction false} ScanParens(ms: seq<Mark>, tail: string, s: string, i: nat, depth: nat)
    requires ms != [] && ms[0].Parens? && Bare(ms, tail) && Here(ms, tail, s, i)
    ensures Here(ms[1..], tail, s, i + |MarkText(ms[0])|) && |MarksText(ms)| == |MarkText(ms[0])| + |MarksText(ms[1..])|
    ensures Stop(PLAIN, s, i, depth) == Stop(PLAIN, s, i + |MarkText(ms[0])|, depth)
    decreases ms, 0
  {
    hide *;
    HereParens(ms, tail, s, i);
    var inner := ms[0].inner;
    StopAt(s, i, depth);
    ScanInside(inner, ")" + (MarksText(ms[1..]) + tail), s, i + 1, depth + 1);
    StopAt(s, i + 1 + |MarksText(inner)|, depth + 1);
  }

  lemma {:induction false} ScanInside(ms: seq<Mark>, tail: string, s: string, i: nat, depth: nat)
    requires Bare(ms, tail) && Here(ms, tail, s, i) && depth > 0 && tail != [] && tail[0] == ')'
    ensures Stop(PLAIN, s, i, depth) == Stop(PLAIN, s, i + |MarksText(ms)|, depth)
    decreases ms, 1
  {
    if ms != [] {
      BareFirst(ms, tail);
      hide Bare, Here, Stop, MarkText;
      match ms[0] {
        case Char(c) =>
          if c == '\\' {
            AfterBackslash(ms, tail);
            HereTwo(ms, tail, s, i);
            StopAt(s, i, depth);
            BareFirst(ms[1..], tail);
            ScanInside(ms[2..], tail, s, i + 2, depth);
          } else {
            HereOne(ms, tail, s, i);
            StopAt(s, i, depth);
            ScanInside(ms[1..], tail, s, i + 1, depth);
          }
        case Escape(_) =>
          HereEscape(ms, tail, s, i);
          StopAt(s, i, depth);
          ScanInside(ms[1..], tail, s, i + 2, depth);
        case Parens(_) =>
          ScanParens(ms, tail, s, i, depth);
          ScanInside(ms[1..], tail, s, i + |MarkText(ms[0])|, depth);
      }
    }
  }

  /**
   * No whitespace that is not ASCII stands outside of parentheses, unless right behind a backslash,
   * and no backslash stands last before a blank.
   */
  predicate Quiet(ms: seq<Mark>, tail: string)
    decreases |ms|
  {
    ms == [] ||
    match ms[0]
    case Char(c) =>
      if c != '\\' then !IsSpace(c) && Quiet(ms[1..], tail)
      else if |ms| == 1 then tail == []
      else Quiet(ms[2..], tail)
    case Escape(_) => Quiet(ms[1..], tail)
    case Parens(_) => Quiet(ms[1..], tail)
  }

  /** The scan stops behind a destination exactly when it is quiet. */
  lemma {:induction false} ScanExact(kind: Kind, ms: seq<Mark>, tail: string, s: string, i: nat)
    requires Bare(ms, tail) && Here(ms, tail, s, i) && Ends(kind, tail)
    ensures Stop(PLAIN, s, i, 0) == i + |MarksText(ms)| <==> Quiet(ms, tail)
    decreases ms, 2
  {
    if ms == [] {
      assert i < |s| ==> s[i..][0] == s[i] == tail[0];
    } else {
      BareFirst(ms, tail);
      hide Bare, Here, Stop, MarkText;
      match ms[0] {
        case Char(c) =>
          HereOne(ms, tail, s, i);
          StopAt(s, i, 0);
          if c != '\\' {
            ScanExact(kind, ms[1..], tail, s, i + 1);
          } else if |ms| > 1 {
            AfterBackslash(ms, tail);
            HereTwo(ms, tail, s, i);
            BareFirst(ms[1..], tail);
            ScanExact(kind, ms[2..], tail, s, i + 2);
          } else {
            LastBackslash(tail, s, i, ms);
          }
        case Escape(_) =>
          HereEscape(ms, tail, s, i);
          StopAt(s, i, 0);
          ScanExact(kind, ms[1..], tail, s, i + 2);
        case Parens(_) =>
          ScanParens(ms, tail, s, i, 0);
          ScanExact(kind, ms[1..], tail, s, i + |MarkText(ms[0])|);
      }
    }
  }

  /** A backslash that stands last makes the scan run on, unless the text ends there. */
  lemma LastBackslash(tail: string, s: string, i: nat, ms: seq<Mark>)
    requires |ms| == 1 && ms[0] == Char('\\') && Here(ms, tail, s, i)
    ensures Stop(PLAIN, s, i, 0) == i + 1 <==> tail == []
  {
    HereNext(ms, tail, s, i);
    HereChar(s, i, '\\', MarksText(ms[1..]) + tail);
    assert MarksText(ms[1..]) + tail == tail;
    StopAt(s, i, 0);
    StopWithin(PLAIN, s, i + 2, 0);
  }

  // ---------- the located range ----------

  /** The brackets in a label match, as the scan reads it: code spans and HTML count like text. */
  ghost predicate Balanced(text: string) {
    exists ps :: Proper(LABEL, ps, true) && Text(LABEL, ps) == text
  }

  ghost function Opening(kind: Kind): string {
    if kind.Image? then "![" else "["
  }

  ghost function Closing(kind: Kind): string {
    if kind.Definition? then "]:" else "]("
  }

  /** `[label](`, `![label](` or `[label]:`. */
  ghost function Head(kind: Kind, text: string): string {
    Opening(kind) + text + Closing(kind)
  }

  /** The located label ends with the label exactly when that is balanced. */
  lemma HeadEnds(kind: Kind, text: string, s: string)
    requires StandsAt(Head(kind, text), s, 0)
    ensures var e := |Head(kind, text)| - 2;
      && (LabelEndsAt(s, e) <==> Balanced(text))
      && e + 1 < |s| && s[e] == ']' && s[e + 1] == if kind.Definition? then ':' else '('
  {
    var f, e := |Opening(kind)| - 1, |Head(kind, text)| - 2;
    hide Text, Proper;
    StandsSplit(Opening(kind) + text, Closing(kind), s, 0);
    StandsSplit(Opening(kind), text, s, 0);
    assert s[e..e + 2][0] == Closing(kind)[0] && s[e..e + 2][1] == Closing(kind)[1];
    assert s[0..f + 1][f] == '[' && s[0..f + 1][0] == Opening(kind)[0];
    assert FirstAt(s, '[', 0, f) && s[f + 1..e] == text;
    assert forall g: nat :: FirstAt(s, '[', 0, g) ==> g == f;
    assert Closes(LABEL, s, f + 1, e) <==> Balanced(text);
  }

  // ---------- what stands before the destination ----------

  /**
   * Blanks on the same line; or one line ending, what the containers of the next line take from it
   * (quote marks and indentation), and blanks.
   */
  datatype Gap = SameLine(blanks: string) | NextLine(blanks: string, ending: string, prefix: string, indent: string)

  predicate AllBlank(s: string) {
    forall k :: 0 <= k < |s| ==> s[k] == ' ' || s[k] == '\t'
  }

  function GapText(g: Gap): string {
    match g
    case SameLine(blanks) => blanks
    case NextLine(blanks, ending, prefix, indent) => blanks + ending + prefix + indent
  }

  /** A `>` behind at most three spaces opens a quote, by section 5.1, and is no destination. */
  predicate OpensQuote(indent: string, rest: string) {
    '\t' !in indent && |indent| <= 3 && rest != [] && rest[0] == '>'
  }

  predicate Between(g: Gap, rest: string) {
    match g
    case SameLine(blanks) => AllBlank(blanks)
    case NextLine(blanks, ending, prefix, indent) =>
      && AllBlank(blanks) && ending in ["\n", "\r", "\r\n"] && AllBlank(indent) && !OpensQuote(indent, rest)
      && forall k :: 0 <= k < |prefix| ==> prefix[k] in {' ', '\t', '>'}
  }

  lemma GapCharacters(g: Gap, rest: string)
    requires Between(g, rest)
    ensures forall k :: 0 <= k < |GapText(g)| ==> GapText(g)[k] != ']' && (IsSpace(GapText(g)[k]) <==> GapText(g)[k] != '>')
  {
  }

  /** Where the first quote mark of a gap stands, the located destination starts. */
  lemma QuoteMarkStarts(kind: Kind, s: string, head: nat, p: nat, a: nat, b: nat)
    requires 2 <= head <= p <= |s| && LabelEndsAt(s, head - 2) && s[head - 1] == if kind.Definition? then ':' else '('
    requires forall k :: head <= k < p ==> (IsSpace(s[k]) <==> s[k] != '>')
    requires (exists k :: head <= k < p && s[k] == '>') && Located(s, kind, a, b)
    ensures a < p
  {
    hide LabelEndsAt, StartsAt, Closes, PlainEndsAt;
    var q := head;
    while s[q] != '>'
      invariant head <= q < p && exists k :: q <= k < p && s[k] == '>'
      invariant forall k :: head <= k < q ==> IsSpace(s[k])
      decreases p - q
    {
      q := q + 1;
    }
    StartExact(kind, s, head, q);
  }

  /** A label that ends elsewhere leaves the place of the destination. */
  lemma OtherLabel(kind: Kind, s: string, head: nat, p: nat, a: nat, b: nat)
    requires 2 <= head <= p <= |s| && !kind.Definition? && !LabelEndsAt(s, head - 2)
    requires s[head - 2] == ']' && s[head - 1] == '(' && forall k :: head <= k < p ==> s[k] != ']'
    requires Located(s, kind, a, b)
    ensures a < p || a > p + 1
  {
    hide Closes, PlainEndsAt;
    var q: nat :| StartsAt(s, kind, q) && Spans(s, q, a, b);
    var e: nat :| LabelEndsAt(s, e) && StartsBehind(s, kind, e, q);
    ClosedByBracket(s, e);
    hide LabelEndsAt;
    assert s[head - 2] == s[e];
    assert e < head - 2 || e >= p;
  }

  lemma ClosedByBracket(s: string, e: nat)
    requires LabelEndsAt(s, e)
    ensures e < |s| && s[e] == ']' && !IsSpace(s[e])
  {
  }

  /** The destination starts behind the blanks that follow the head, unless whitespace goes on. */
  lemma StartExact(kind: Kind, s: string, head: nat, p: nat)
    requires head >= 2 && LabelEndsAt(s, head - 2) && head <= p <= |s|
    requires s[head - 1] == if kind.Definition? then ':' else '('
    requires forall k :: head <= k < p ==> IsSpace(s[k])
    ensures p < |s| && !IsSpace(s[p]) ==> forall q: nat :: StartsAt(s, kind, q) <==> q == p
    ensures p < |s| && IsSpace(s[p]) ==> forall q: nat :: StartsAt(s, kind, q) ==> q > p
  {
    var e := head - 2;
    forall q: nat ensures StartsAt(s, kind, q) <==> StartsBehind(s, kind, e, q) {
      if StartsAt(s, kind, q) {
        var e' : nat :| LabelEndsAt(s, e') && StartsBehind(s, kind, e', q);
        LabelOnce(s, e, e');
      }
    }
    hide LabelEndsAt, StartsAt;
    forall q: nat ensures StartsBehind(s, kind, e, q) <==> PastSpace(s, head, q) {
      if kind.Definition? {
        var i := e + 1;
        assert FirstAt(s, ':', i, e + 1);
        assert forall c: nat :: FirstAt(s, ':', i, c) ==> c == e + 1;
        assert PastSpace(s, head, q) ==> AfterColon(s, i, q);
      }
    }
  }

  /** The range from the place where the bare destination starts. */
  lemma RangeExact(kind: Kind, s: string, p: nat, b: nat)
    requires p <= |s| && (p < |s| ==> s[p] != '<') && forall q: nat :: StartsAt(s, kind, q) <==> q == p
    ensures Located(s, kind, p, b) <==> b == Stop(PLAIN, s, p, 0)
  {
    PlainEndsExact(s, p, b);
    hide Stop, PlainEndsAt;
    assert StartsAt(s, kind, p);
    assert Spans(s, p, p, b) <==> PlainEndsAt(s, p, b);
  }

  lemma RangeBehind(kind: Kind, s: string, p: nat, b: nat)
    requires forall q: nat :: StartsAt(s, kind, q) ==> q > p
    ensures !Located(s, kind, p, b)
  {
  }

  lemma FirstMark(ms: seq<Mark>, tail: string)
    requires ms != [] && Bare(ms, tail)
    ensures MarksText(ms) != [] && (ms[0] != Char('<') ==> MarksText(ms)[0] != '<')
    ensures IsSpace(MarksText(ms)[0]) ==> !Quiet(ms, tail)
  {
    assert MarkText(ms[0]) != [];
  }

  lemma Layout(head: string, space: string, rest: string)
    ensures var s, p := head + space + rest, |head + space|;
      StandsAt(head, s, 0) && s[p..] == rest && |s| == p + |rest| && forall k :: |head| <= k < p ==> s[k] == space[k - |head|]
    ensures head != [] ==> (head + space + rest)[|head| - 1] == head[|head| - 1]
  {
    var s := head + space + rest;
    assert s[0..|head|] == head;
  }

  /**
   * For a link, an image or a definition as CommonMark reads it: the located range is exactly the
   * destination if and only if the label is balanced, the destination quiet, and no quote mark stands
   * before it. The label of a definition always is balanced, by section 4.7.
   */
  lemma DestinationExact(kind: Kind, text: string, gap: Gap, ms: seq<Mark>, tail: string)
    requires Destination(kind, ms, tail) && (kind.Definition? ==> Balanced(text)) && Between(gap, MarksText(ms) + tail)
    ensures var front := Head(kind, text) + GapText(gap);
      Located(front + (MarksText(ms) + tail), kind, |front|, |front| + |MarksText(ms)|)
      <==> Balanced(text) && '>' !in GapText(gap) && Quiet(ms, tail)
  {
    hide *;
    var head, space, rest := Head(kind, text), GapText(gap), MarksText(ms) + tail;
    var s, p := head + space + rest, |head + space|;
    var b := p + |MarksText(ms)|;
    GapCharacters(gap, rest);
    Layout(head, space, rest);
    HeadShape(kind, text);
    HeadEnds(kind, text, s);
    if Located(s, kind, p, b) && (!Balanced(text) || '>' in space) {
      Elsewhere(kind, text, space, rest, p, b);
    } else if Balanced(text) && '>' !in space {
      StartExact(kind, s, |head|, p);
      DestinationHead(kind, ms, tail);
      assert rest != [] && s[p] == rest[0];
      HereIs(ms, tail, s, p);
      ScanExact(kind, ms, tail, s, p);
      if IsSpace(s[p]) {
        RangeBehind(kind, s, p, b);
      } else {
        RangeExact(kind, s, p, b);
      }
    }
  }

  /** With another label, or with a quote mark in the gap, the located range is elsewhere. */
  lemma Elsewhere(kind: Kind, text: string, space: string, rest: string, a: nat, b: nat)
    requires forall k :: 0 <= k < |space| ==> space[k] != ']' && (IsSpace(space[k]) <==> space[k] != '>')
    requires (kind.Definition? ==> Balanced(text)) && (!Balanced(text) || '>' in space)
    requires Located(Head(kind, text) + space + rest, kind, a, b)
    ensures var p := |Head(kind, text) + space|; a < p || a > p + 1
  {
    hide *;
    var head := Head(kind, text);
    var s, p := head + space + rest, |head + space|;
    Layout(head, space, rest);
    HeadShape(kind, text);
    HeadEnds(kind, text, s);
    if Balanced(text) {
      var j :| 0 <= j < |space| && space[j] == '>';
      assert s[|head| + j] == '>';
      QuoteMarkStarts(kind, s, |head|, p, a, b);
    } else {
      OtherLabel(kind, s, |head|, p, a, b);
    }
  }

  lemma HeadShape(kind: Kind, text: string)
    ensures var head := Head(kind, text); |head| >= 2 && head[|head| - 1] == if kind.Definition? then ':' else '('
  {
  }

  lemma HereIs(ms: seq<Mark>, tail: string, s: string, p: nat)
    requires p <= |s| && s[p..] == MarksText(ms) + tail
    ensures Here(ms, tail, s, p)
  {
  }

  lemma DestinationHead(kind: Kind, ms: seq<Mark>, tail: string)
    requires Destination(kind, ms, tail)
    ensures Bare(ms, tail) && Ends(kind, tail)
    ensures var rest := MarksText(ms) + tail;
      rest != [] && rest[0] != '<' && (IsSpace(rest[0]) ==> !Quiet(ms, tail))
  {
    if ms != [] {
      FirstMark(ms, tail);
      hide Bare, MarksText;
      assert (MarksText(ms) + tail)[0] == MarksText(ms)[0];
    }
  }

  // ---------- destinations in angle brackets ----------

  /** The marks between angle brackets: no line ending, no bracket that is not escaped; parentheses are plain. */
  ghost predicate Angled(ms: seq<Mark>, tail: string)
    decreases |ms|
  {
    ms == [] ||
    (Angled(ms[1..], tail) &&
     match ms[0]
     case Char(c) => c !in {'<', '>', '\n', '\r'} && (c == '\\' ==> !PunctuationNext(ms[1..], tail))
     case Escape(c) => IsPunctuation(c)
     case Parens(_) => false)
  }

  lemma AngledFirst(ms: seq<Mark>, tail: string)
    requires ms != [] && Angled(ms, tail)
    ensures Angled(ms[1..], tail) && !ms[0].Parens? && (ms[0].Char? ==> ms[0].c != '>')
  {
  }

  lemma AfterBackslashInAngles(ms: seq<Mark>, tail: string)
    requires ms != [] && Angled(ms, tail) && ms[0] == Char('\\') && tail != [] && tail[0] == '>'
    ensures |ms| > 1 && ms[1].Char? && Angled(ms[2..], tail)
  {
    var rest := ms[1..];
    assert MarksText([]) + tail == tail;
    if rest != [] {
      assert (MarksText(rest) + tail)[0] == MarkText(rest[0])[0];
      assert rest[1..] == ms[2..];
    }
  }

  lemma StopAtInAngles(s: string, i: nat)
    requires i < |s|
    ensures s[i] == '\\' ==> Stop(ANGLE, s, i, 0) == Stop(ANGLE, s, i + 2, 0)
    ensures s[i] == '>' ==> Stop(ANGLE, s, i, 0) == i
    ensures s[i] !in {'\\', '>'} ==> Stop(ANGLE, s, i, 0) == Stop(ANGLE, s, i + 1, 0)
  {
  }

  lemma {:induction false} ScanAngles(ms: seq<Mark>, tail: string, s: string, i: nat)
    requires Angled(ms, tail) && Here(ms, tail, s, i) && tail != [] && tail[0] == '>'
    ensures i + |MarksText(ms)| < |s| && Stop(ANGLE, s, i, 0) == i + |MarksText(ms)|
    decreases |ms|
  {
    if ms == [] {
      assert s[i..][0] == s[i];
      StopAtInAngles(s, i);
    } else {
      AngledFirst(ms, tail);
      hide Angled, Here, Stop, MarkText, MarksText;
      if ms[0].Escape? {
        HereEscape(ms, tail, s, i);
        StopAtInAngles(s, i);
        ScanAngles(ms[1..], tail, s, i + 2);
      } else {
        HereOne(ms, tail, s, i);
        StopAtInAngles(s, i);
        if ms[0].c == '\\' {
          AfterBackslashInAngles(ms, tail);
          HereTwo(ms, tail, s, i);
          ScanAngles(ms[2..], tail, s, i + 2);
        } else {
          ScanAngles(ms[1..], tail, s, i + 1);
        }
      }
    }
  }

  /** In angle brackets the located range is exactly the destination if and only if the label is balanced and no quote mark stands before it. */
  lemma AngleExact(kind: Kind, text: string, gap: Gap, ms: seq<Mark>, tail: string)
    requires Angled(ms, ">" + tail) && (kind.Definition? ==> Balanced(text))
    requires Between(gap, "<" + (MarksText(ms) + (">" + tail)))
    ensures var front := Head(kind, text) + GapText(gap);
      Located(front + ("<" + (MarksText(ms) + (">" + tail))), kind, |front| + 1, |front| + 1 + |MarksText(ms)|)
      <==> Balanced(text) && '>' !in GapText(gap)
  {
    hide *;
    var head, space, inside := Head(kind, text), GapText(gap), MarksText(ms) + (">" + tail);
    var s, p := head + space + ("<" + inside), |head + space|;
    var b := p + 1 + |MarksText(ms)|;
    GapCharacters(gap, "<" + inside);
    Layout(head, space, "<" + inside);
    HeadShape(kind, text);
    HeadEnds(kind, text, s);
    if Located(s, kind, p + 1, b) && (!Balanced(text) || '>' in space) {
      Elsewhere(kind, text, space, "<" + inside, p + 1, b);
    } else if Balanced(text) && '>' !in space {
      assert "<" + inside == ['<'] + inside;
      HereChar(s, p, '<', inside);
      BracketIsNoSpace();
      StartExact(kind, s, |head|, p);
      HereIs(ms, ">" + tail, s, p + 1);
      ScanAngles(ms, ">" + tail, s, p + 1);
      RangeInAngles(kind, s, p, b);
    }
  }

  lemma BracketIsNoSpace()
    ensures !IsSpace('<')
  {
  }

  lemma RangeInAngles(kind: Kind, s: string, p: nat, b: nat)
    requires p < |s| && s[p] == '<' && StartsAt(s, kind, p) && b == Stop(ANGLE, s, p + 1, 0) < |s|
    ensures Located(s, kind, p + 1, b)
  {
    hide Stop, Closes, StartsAt;
    StopExact(ANGLE, s, p + 1);
    assert Spans(s, p, p + 1, b);
  }

  // ---------- destinations that are not quiet ----------

  /** `[x](a\ "t")`: the destination is `a\`, the located range takes the title too. */
  lemma BackslashBeforeTitle()
    ensures var ms, tail, s := [Char('a'), Char('\\')], " \"t\")", "[x](a\\ \"t\")";
      && Destination(Link, ms, tail) && s[4..] == MarksText(ms) + tail && |MarksText(ms)| == 2
      && !Located(s, Link, 4, 6) && Located(s, Link, 4, 10)
  {
    var ms, tail := [Char('a'), Char('\\')], " \"t\")";
    assert ms[1..] == [Char('\\')] && ms[1..][1..] == [];
    assert MarksText(ms[1..]) == ['\\'] && MarksText(ms) == ['a', '\\'];
    assert (MarksText([]) + tail)[0] == ' ';
    TitleLocated();
  }

  lemma TitleLocated()
    ensures var s := "[x](a\\ \"t\")"; !Located(s, Link, 4, 6) && Located(s, Link, 4, 10)
  {
    var s := "[x](a\\ \"t\")";
    StartsAtFour(s);
    RangeExact(Link, s, 4, 6);
    RangeExact(Link, s, 4, 10);
    assert s[4] == 'a' && s[5] == '\\' && s[7] == '"' && s[8] == 't' && s[9] == '"' && s[10] == ')';
    StopAt(s, 10, 0);
    StopAt(s, 9, 0);
    StopAt(s, 8, 0);
    StopAt(s, 7, 0);
    StopAt(s, 5, 0);
    StopAt(s, 4, 0);
  }

  /** `[x](a b)` with a no-break space: it belongs to the destination, the located range ends before it. */
  lemma NoBreakSpace()
    ensures var ms, tail, s := [Char('a'), Char('\U{00A0}'), Char('b')], ")", "[x](a\U{00A0}b)";
      && Destination(Link, ms, tail) && s[4..] == MarksText(ms) + tail && |MarksText(ms)| == 3
      && !Located(s, Link, 4, 7) && Located(s, Link, 4, 5)
  {
    var ms, tail, s := [Char('a'), Char('\U{00A0}'), Char('b')], ")", "[x](a\U{00A0}b)";
    assert ms[1..] == [Char('\U{00A0}'), Char('b')] && ms[1..][1..] == [Char('b')] && ms[1..][1..][1..] == [];
    assert MarksText(ms[1..][1..]) == ['b'] && MarksText(ms[1..]) == ['\U{00A0}', 'b'] && MarksText(ms) == ['a', '\U{00A0}', 'b'];
    StartsAtFour(s);
    RangeExact(Link, s, 4, 7);
    RangeExact(Link, s, 4, 5);
    assert s[4] == 'a' && s[5] == '\U{00A0}';
    StopAt(s, 5, 0);
    StopAt(s, 4, 0);
  }

  lemma HeadOfX(s: string)
    requires |s| >= 4 && s[..4] == "[x]("
    ensures LabelEndsAt(s, 2) && s[3] == '('
  {
    var caption := [Plain('x')];
    assert caption[1..] == [];
    assert Text(LABEL, caption) == "x" && Balanced("x") && Head(Link, "x") == "[x](";
    assert s[0..4] == s[..4] && s[..4][3] == '(';
    HeadEnds(Link, "x", s);
  }

  lemma StartsAtFour(s: string)
    requires |s| > 4 && s[..4] == "[x](" && !IsSpace(s[4])
    ensures forall q: nat :: StartsAt(s, Link, q) <==> q == 4
  {
    HeadOfX(s);
    StartExact(Link, s, 4, 4);
  }

  /**
   * `> [x](` and `> a)` on the next line: the destination is `a`, the located range is the quote mark
   * before it.
   */
  lemma QuoteMarkBefore()
    ensures var gap, ms, s := NextLine("", "\n", "> ", ""), [Char('a')], "[x](\n> a)";
      && Between(gap, MarksText(ms) + ")") && Destination(Link, ms, ")") && s[4..] == GapText(gap) + (MarksText(ms) + ")")
      && !Located(s, Link, 7, 8) && Located(s, Link, 5, 6)
  {
    QuoteMarkLocated();
    var ms := [Char('a')];
    assert ms[1..] == [] && MarksText(ms) == "a";
  }

  lemma QuoteMarkLocated()
    ensures var s := "[x](\n> a)"; !Located(s, Link, 7, 8) && Located(s, Link, 5, 6)
  {
    var s := "[x](\n> a)";
    assert s[..4] == "[x](" && s[4] == '\n' && s[5] == '>' && s[6] == ' ';
    HeadOfX(s);
    StartExact(Link, s, 4, 5);
    StopAt(s, 6, 0);
    StopAt(s, 5, 0);
    hide Stop, Located, StartsAt, LabelEndsAt;
    RangeExact(Link, s, 5, 6);
    RangeOnlyAt(Link, s, 5, 7, 8);
  }

  lemma RangeOnlyAt(kind: Kind, s: string, p: nat, a: nat, b: nat)
    requires p < |s| && s[p] != '<' && a != p && forall q: nat :: StartsAt(s, kind, q) ==> q == p
    ensures !Located(s, kind, a, b)
  {
  }

  /** ``[`]`](x)``: the bracket in the code span ends the located label, so the link has no range. */
  lemma BracketInCode()
    ensures forall a: nat, b: nat :: !Located("[`]`](x)", Link, a, b)
  {
    var s := "[`]`](x)";
    var caption := [Plain('`')];
    assert caption[1..] == [] && Text(LABEL, caption) == "`";
    assert s[1..2] == "`";
    assert FirstAt(s, '[', 0, 0) && Closes(LABEL, s, 1, 2);
    assert LabelEndsAt(s, 2);
    forall q: nat ensures !StartsAt(s, Link, q) {
      if StartsAt(s, Link, q) {
        var e: nat :| LabelEndsAt(s, e) && StartsBehind(s, Link, e, q);
        LabelOnce(s, 2, e);
      }
    }
  }
}
