/** Which source lines still show text once HTML comments are gone: scripts/markdown.ts. */
module CommentVisibility {
  import opened JavaScript
  import opened Sorting
  import opened Whitespace
  import opened Wrappers

  /** From `start` up to but not including `end`. */
  datatype Range = Range(start: nat, end: nat)

  // ---------- the comments of one HTML node ----------

  const OPENER := "<!--"
  const CLOSER := "-->"

  ghost predicate NoMark(value: string, mark: string, i: nat, j: nat) {
    forall k: nat :: i <= k < j ==> !StandsAt(mark, value, k)
  }

  /** `value.indexOf(mark, i)`. */
  method IndexOf(value: string, mark: string, i: nat) returns (r: Option<nat>)
    requires mark != []
    ensures r.Some? ==> i <= r.value && StandsAt(mark, value, r.value) && NoMark(value, mark, i, r.value)
    ensures r.None? ==> NoMark(value, mark, i, |value|)
  {
    var k := i;
    while k < |value|
      invariant i <= k
      invariant NoMark(value, mark, i, k)
    {
      if StandsAt(mark, value, k) { return Some(k); }
      k := k + 1;
    }
    r := None;
  }

  /** `r` is a comment: from an opener to the first closer behind it, or to the end of the text. */
  ghost predicate IsComment(value: string, r: Range) {
    && StandsAt(OPENER, value, r.start)
    && r.start + |OPENER| <= r.end <= |value|
    && ((r.end >= r.start + |OPENER| + |CLOSER| && StandsAt(CLOSER, value, r.end - |CLOSER|)
         && NoMark(value, CLOSER, r.start + |OPENER|, r.end - |CLOSER|))
        || (r.end == |value| && NoMark(value, CLOSER, r.start + |OPENER|, |value|)))
  }

  /** The comments of `value`, one after another, and no opener outside of them. */
  ghost predicate Comments(value: string, rs: seq<Range>) {
    && (forall i :: 0 <= i < |rs| ==> IsComment(value, rs[i]))
    && (forall i, j :: 0 <= i < j < |rs| ==> rs[i].end <= rs[j].start)
    && forall k: nat :: k < |value| && StandsAt(OPENER, value, k) ==> exists i :: 0 <= i < |rs| && rs[i].start <= k < rs[i].end
  }

  lemma EndsNoEarlier(value: string, r: Range, q: Range)
    requires IsComment(value, r) && IsComment(value, q) && r.start == q.start
    ensures r.end >= q.end
  {
    assert r.end != |value| ==> StandsAt(CLOSER, value, r.end - |CLOSER|);
  }

  ghost predicate Ordered(value: string, rs: seq<Range>) {
    && (forall i :: 0 <= i < |rs| ==> rs[i].start < rs[i].end <= |value|)
    && (forall i, j :: 0 <= i < j < |rs| ==> rs[i].end <= rs[j].start)
  }

  lemma CommentsOrdered(value: string, rs: seq<Range>)
    requires Comments(value, rs)
    ensures Ordered(value, rs)
  {
    forall i | 0 <= i < |rs| ensures rs[i].start < rs[i].end <= |value| {
      assert IsComment(value, rs[i]);
    }
  }

  lemma OpenerHeld(value: string, rs: seq<Range>, qs: seq<Range>, n: nat) returns (i: nat)
    requires Comments(value, rs) && Comments(value, qs) && n < |rs|
    ensures i < |qs| && qs[i].start <= rs[n].start < qs[i].end
    ensures IsComment(value, rs[n])
  {
    assert IsComment(value, rs[n]);
    i :| 0 <= i < |qs| && qs[i].start <= rs[n].start < qs[i].end;
  }

  lemma NotBefore(value: string, rs: seq<Range>, qs: seq<Range>, n: nat, i: nat)
    requires Ordered(value, rs) && Ordered(value, qs) && n < |rs| && n <= |qs| && rs[..n] == qs[..n]
    requires i < |qs| && qs[i].start <= rs[n].start < qs[i].end
    ensures n < |qs| && qs[n].start <= rs[n].start
  {
    assert forall m :: 0 <= m < n ==> qs[..n][m] == rs[..n][m] && rs[..n][m] == rs[m] && qs[..n][m] == qs[m];
    assert forall m :: 0 <= m < n ==> rs[m].end <= rs[n].start;
    assert n < i ==> qs[n].end <= qs[i].start;
  }

  /** Two lists of comments that begin alike go on alike. */
  lemma StartsNoLater(value: string, rs: seq<Range>, qs: seq<Range>, n: nat)
    requires Comments(value, rs) && Comments(value, qs) && n < |rs| && n <= |qs| && rs[..n] == qs[..n]
    ensures n < |qs| && qs[n].start <= rs[n].start && IsComment(value, rs[n])
  {
    hide *;
    CommentsOrdered(value, rs);
    CommentsOrdered(value, qs);
    var i := OpenerHeld(value, rs, qs, n);
    NotBefore(value, rs, qs, n, i);
  }

  /** A text has one list of comments. */
  lemma {:induction false} CommentsUnique(value: string, rs: seq<Range>, qs: seq<Range>, n: nat)
    requires Comments(value, rs) && Comments(value, qs) && n <= |rs|
    ensures n <= |qs| && rs[..n] == qs[..n]
  {
    hide *;
    if n > 0 {
      var m := n - 1;
      CommentsUnique(value, rs, qs, m);
      StartsNoLater(value, rs, qs, m);
      StartsNoLater(value, qs, rs, m);
      EndsNoEarlier(value, rs[m], qs[m]);
      EndsNoEarlier(value, qs[m], rs[m]);
      assert rs[..n] == rs[..m] + [rs[m]] && qs[..n] == qs[..m] + [qs[m]];
    }
  }

  lemma FoundComment(value: string, start: nat, close: Option<nat>)
    requires StandsAt(OPENER, value, start)
    requires match close
             case Some(c) => start + |OPENER| <= c && StandsAt(CLOSER, value, c) && NoMark(value, CLOSER, start + |OPENER|, c)
             case None => NoMark(value, CLOSER, start + |OPENER|, |value|)
    ensures var r := Range(start, if close.None? then |value| else close.value + |CLOSER|);
      IsComment(value, r) && r.start < r.end <= |value|
  {
  }

  /** The scan of one HTML node. */
  method CommentRanges(value: string) returns (rs: seq<Range>)
    ensures Comments(value, rs)
  {
    hide StandsAt, IsComment, InSome;
    rs := [];
    var cursor := 0;
    while true
      invariant cursor <= |value|
      invariant forall i :: 0 <= i < |rs| ==> IsComment(value, rs[i]) && rs[i].end <= cursor
      invariant forall i, j :: 0 <= i < j < |rs| ==> rs[i].end <= rs[j].start
      invariant forall k: nat :: k < cursor && StandsAt(OPENER, value, k) ==> InSome(rs, k)
      decreases |value| - cursor
    {
      var start := IndexOf(value, OPENER, cursor);
      if start.None? {
        break;
      }
      var close := IndexOf(value, CLOSER, start.value + |OPENER|);
      var r := Range(start.value, if close.None? then |value| else close.value + |CLOSER|);
      FoundComment(value, start.value, close);
      InSomeGrows(rs, r);
      rs := rs + [r];
      cursor := r.end;
    }
    AllInside(value, rs);
  }

  lemma AllInside(value: string, rs: seq<Range>)
    requires (forall i :: 0 <= i < |rs| ==> IsComment(value, rs[i])) && forall i, j :: 0 <= i < j < |rs| ==> rs[i].end <= rs[j].start
    requires forall k: nat :: k < |value| && StandsAt(OPENER, value, k) ==> InSome(rs, k)
    ensures Comments(value, rs)
  {
    hide StandsAt, IsComment;
  }

  /** Position `k` lies in one of the ranges. */
  ghost predicate InSome(rs: seq<Range>, k: nat) {
    exists i :: 0 <= i < |rs| && rs[i].start <= k < rs[i].end
  }

  lemma InSomeGrows(rs: seq<Range>, r: Range)
    ensures forall k: nat :: InSome(rs + [r], k) <==> InSome(rs, k) || r.start <= k < r.end
  {
    forall k: nat ensures InSome(rs + [r], k) <==> InSome(rs, k) || r.start <= k < r.end {
      if i :| 0 <= i < |rs| && rs[i].start <= k < rs[i].end {
        assert (rs + [r])[i] == rs[i];
      }
      assert (rs + [r])[|rs|] == r;
    }
  }

  // ---------- the text of one line outside of its ranges ----------

  /** The characters from `i` to `j` that no range covers, in order. */
  ghost function Shown(raw: string, rs: seq<Range>, i: nat, j: nat): string
    requires i <= j <= |raw|
    decreases j
  {
    if i == j then [] else Shown(raw, rs, i, j - 1) + if InSome(rs, j - 1) then [] else [raw[j - 1]]
  }

  lemma {:induction false} ShownJoins(raw: string, rs: seq<Range>, i: nat, j: nat, k: nat)
    requires i <= j <= k <= |raw|
    ensures Shown(raw, rs, i, j) + Shown(raw, rs, j, k) == Shown(raw, rs, i, k)
    decreases k
  {
    hide InSome;
    if j < k {
      ShownJoins(raw, rs, i, j, k - 1);
    }
  }

  lemma {:induction false} ShownAll(raw: string, rs: seq<Range>, i: nat, j: nat)
    requires i <= j <= |raw| && forall k: nat :: i <= k < j ==> !InSome(rs, k)
    ensures Shown(raw, rs, i, j) == raw[i..j]
    decreases j
  {
    hide InSome;
    if i < j {
      ShownAll(raw, rs, i, j - 1);
      assert raw[i..j] == raw[i..j - 1] + [raw[j - 1]];
    }
  }

  lemma {:induction false} ShownNone(raw: string, rs: seq<Range>, i: nat, j: nat)
    requires i <= j <= |raw| && forall k: nat :: i <= k < j ==> InSome(rs, k)
    ensures Shown(raw, rs, i, j) == []
    decreases j
  {
    hide InSome;
    if i < j {
      ShownNone(raw, rs, i, j - 1);
    }
  }

  lemma {:induction false} ShownText(raw: string, rs: seq<Range>, i: nat, j: nat)
    requires i <= j <= |raw|
    ensures HasText(Shown(raw, rs, i, j)) <==> exists k: nat :: i <= k < j && !IsSpace(raw[k]) && !InSome(rs, k)
    decreases j
  {
    hide InSome, IsSpace;
    if i < j {
      ShownText(raw, rs, i, j - 1);
      var before, last := Shown(raw, rs, i, j - 1), if InSome(rs, j - 1) then [] else [raw[j - 1]];
      HasTextJoins(before, last);
    }
  }

  lemma HasTextJoins(a: string, b: string)
    ensures HasText(a + b) <==> HasText(a) || HasText(b)
    ensures |b| == 1 ==> (HasText(b) <==> !IsSpace(b[0]))
  {
    hide IsSpace;
    if k :| 0 <= k < |a| && !IsSpace(a[k]) {
      assert (a + b)[k] == a[k];
    }
    if k :| 0 <= k < |b| && !IsSpace(b[k]) {
      assert (a + b)[|a| + k] == b[k];
    }
  }

  function ByStart(a: Range, b: Range): int {
    a.start - b.start
  }

  /** `raw.slice(i, j)`. */
  function Slice(raw: string, i: nat, j: nat): string {
    var e := if j < |raw| then j else |raw|;
    if i < e then raw[i..e] else []
  }

  ghost predicate Within(raw: string, rs: seq<Range>) {
    forall i :: 0 <= i < |rs| ==> rs[i].start <= rs[i].end <= |raw|
  }

  /** The visible text is exactly the uncovered characters, for ranges in any order, overlapping or not. */
  method VisibleText(raw: string, ranges: seq<Range>) returns (visible: string)
    requires Within(raw, ranges)
    ensures visible == Shown(raw, ranges, 0, |raw|)
  {
    var sorted := StableSort(ranges, ByStart);
    SortedRanges(raw, ranges);
    var cursor: nat := 0;
    visible := [];
    for i := 0 to |sorted|
      invariant cursor <= |raw|
      invariant forall j :: 0 <= j < i ==> sorted[j].end <= cursor
      invariant visible == Shown(raw, ranges, 0, cursor)
    {
      ShowUpTo(raw, ranges, sorted, i, cursor);
      visible := visible + Slice(raw, cursor, sorted[i].start);
      cursor := if cursor > sorted[i].end then cursor else sorted[i].end;
    }
    ShowRest(raw, ranges, sorted, cursor);
    visible := visible + raw[cursor..];
  }

  ghost predicate Arranged(raw: string, ranges: seq<Range>, sorted: seq<Range>) {
    && Within(raw, sorted)
    && (forall i, j :: 0 <= i < j < |sorted| ==> sorted[i].start <= sorted[j].start)
    && (forall k: nat :: InSome(ranges, k) <==> InSome(sorted, k))
  }

  lemma ByStartIsTotal()
    ensures TotalPreorder(ByStart)
  {
  }

  lemma SomeOf(rs: seq<Range>, qs: seq<Range>, k: nat)
    requires (forall r :: r in rs ==> r in qs) && InSome(rs, k)
    ensures InSome(qs, k)
  {
    var i :| 0 <= i < |rs| && rs[i].start <= k < rs[i].end;
    assert rs[i] in qs;
  }

  lemma SortedRanges(raw: string, ranges: seq<Range>)
    requires Within(raw, ranges)
    ensures Arranged(raw, ranges, StableSort(ranges, ByStart))
  {
    hide StableSort, InSome, TotalPreorder;
    var sorted := StableSort(ranges, ByStart);
    SortKeeps(ranges, ByStart);
    ByStartIsTotal();
    SortSorts(ranges, ByStart);
    forall i | 0 <= i < |sorted| ensures sorted[i].start <= sorted[i].end <= |raw| {
      assert sorted[i] in ranges;
    }
    forall i, j | 0 <= i < j < |sorted| ensures sorted[i].start <= sorted[j].start {
      assert ByStart(sorted[i], sorted[j]) <= 0;
    }
    forall k: nat ensures InSome(ranges, k) <==> InSome(sorted, k) {
      if InSome(ranges, k) {
        SomeOf(ranges, sorted, k);
      }
      if InSome(sorted, k) {
        SomeOf(sorted, ranges, k);
      }
    }
  }

  lemma ShowUpTo(raw: string, ranges: seq<Range>, sorted: seq<Range>, i: nat, cursor: nat)
    requires Arranged(raw, ranges, sorted) && i < |sorted| && cursor <= |raw|
    requires forall j :: 0 <= j < i ==> sorted[j].end <= cursor
    ensures var r := sorted[i]; var next := if cursor > r.end then cursor else r.end;
      next <= |raw| && Shown(raw, ranges, 0, cursor) + Slice(raw, cursor, r.start) == Shown(raw, ranges, 0, next)
  {
    var r := sorted[i];
    var middle := if cursor < r.start then r.start else cursor;
    var next := if cursor > r.end then cursor else r.end;
    forall k: nat | cursor <= k < middle ensures !InSome(ranges, k) {
      assert forall j :: 0 <= j < |sorted| ==> sorted[j].end <= cursor || r.start <= sorted[j].start;
    }
    forall k: nat | middle <= k < next ensures InSome(ranges, k) {
      assert InSome(sorted, k);
    }
    hide InSome, Arranged;
    ShownAll(raw, ranges, cursor, middle);
    ShownJoins(raw, ranges, 0, cursor, middle);
    if middle <= next {
      ShownNone(raw, ranges, middle, next);
      ShownJoins(raw, ranges, 0, middle, next);
    }
  }

  lemma ShowRest(raw: string, ranges: seq<Range>, sorted: seq<Range>, cursor: nat)
    requires Arranged(raw, ranges, sorted) && cursor <= |raw|
    requires forall j :: 0 <= j < |sorted| ==> sorted[j].end <= cursor
    ensures Shown(raw, ranges, 0, cursor) + raw[cursor..] == Shown(raw, ranges, 0, |raw|)
  {
    forall k: nat | cursor <= k < |raw| ensures !InSome(ranges, k) {
      assert !InSome(sorted, k);
    }
    hide InSome, Arranged;
    ShownAll(raw, ranges, cursor, |raw|);
    ShownJoins(raw, ranges, 0, cursor, |raw|);
  }

  /** A line without ranges stays; one with ranges stays when something that is no whitespace is uncovered. */
  method HasRenderedTextOutsideComments(raw: string, ranges: Option<seq<Range>>) returns (b: bool)
    requires ranges.Some? ==> Within(raw, ranges.value)
    ensures b <==> ranges.None? || ShowsText(raw, ranges.value)
  {
    if ranges.None? { return true; }
    var visible := VisibleText(raw, ranges.value);
    ShownText(raw, ranges.value, 0, |raw|);
    TrimLeaves(visible);
    b := |Trim(visible)| > 0;
  }

  // ---------- the lines of a document ----------

  function BreakAt(s: string): (n: nat)
    ensures n <= |s| && '\n' !in s[..n] && (n < |s| ==> s[n] == '\n')
  {
    if s == [] || s[0] == '\n' then 0 else 1 + BreakAt(s[1..])
  }

  /** `source.split('\n')`. */
  function Lines(source: string): (lines: seq<string>)
    ensures lines != []
    decreases |source|
  {
    var n := BreakAt(source);
    if n == |source| then [source] else [source[..n]] + Lines(source[n + 1..])
  }

  function Offset(lines: seq<string>, i: nat): nat
    requires i <= |lines|
  {
    if i == 0 then 0 else Offset(lines, i - 1) + |lines[i - 1]| + 1
  }

  lemma {:induction false} OffsetBehind(first: string, lines: seq<string>, i: nat)
    requires i <= |lines|
    ensures Offset([first] + lines, i + 1) == |first| + 1 + Offset(lines, i)
  {
    if i > 0 {
      OffsetBehind(first, lines, i - 1);
    } else {
      assert Offset([first] + lines, 0) == 0;
    }
  }

  lemma LinesUnfold(source: string)
    ensures var n := BreakAt(source);
      Lines(source) == if n == |source| then [source] else [source[..n]] + Lines(source[n + 1..])
  {
    hide BreakAt;
  }

  lemma SliceBehind(source: string, n: nat, i: nat, j: nat)
    requires n <= |source| && i <= j <= |source| - n
    ensures source[n..][i..j] == source[n + i..n + j]
  {
  }

  /** Line `i` stands in the source at its offset. */
  lemma {:induction false} LineStands(source: string, i: nat)
    requires i < |Lines(source)|
    ensures StandsAt(Lines(source)[i], source, Offset(Lines(source), i))
    decreases |source|
  {
    hide Lines, Offset;
    LinesUnfold(source);
    var n := BreakAt(source);
    if i == 0 {
      NoOffset(Lines(source));
    } else {
      var lines := Lines(source[n + 1..]);
      LineStands(source[n + 1..], i - 1);
      OffsetBehind(source[..n], lines, i - 1);
      SliceBehind(source, n + 1, Offset(lines, i - 1), Offset(lines, i - 1) + |lines[i - 1]|);
    }
  }

  lemma NoOffset(lines: seq<string>)
    ensures Offset(lines, 0) == 0
  {
  }

  /** A comment has a part of a line, or an empty line lies in it. */
  predicate Touches(c: Range, offset: nat, raw: string) {
    Max(c.start, offset) < Min(c.end, offset + |raw|) || (raw == [] && c.start <= offset < c.end)
  }

  ghost predicate Touched(comments: seq<Range>, offset: nat, raw: string) {
    exists i :: 0 <= i < |comments| && Touches(comments[i], offset, raw)
  }

  /** The columns `rs` are what the comments cover of the line. */
  ghost predicate Columns(comments: seq<Range>, offset: nat, raw: string, rs: seq<Range>) {
    Within(raw, rs) && forall k: nat :: k < |raw| ==> (InSome(rs, k) <==> Covers(comments, offset + k))
  }

  ghost predicate Covers(comments: seq<Range>, at: nat) {
    InSome(comments, at)
  }

  function Max(a: nat, b: nat): nat {
    if a > b then a else b
  }

  function Min(a: nat, b: nat): nat {
    if a < b then a else b
  }

  /** The column ranges of one line; none when no comment touches it. */
  method LineRanges(comments: seq<Range>, offset: nat, raw: string) returns (ranges: Option<seq<Range>>)
    ensures ranges.Some? <==> Touched(comments, offset, raw)
    ensures ranges.Some? ==> Columns(comments, offset, raw, ranges.value)
  {
    var rs: seq<Range> := [];
    for i := 0 to |comments|
      invariant rs == [] <==> !Touched(comments[..i], offset, raw)
      invariant Columns(comments[..i], offset, raw, rs)
    {
      var c := comments[i];
      var from, upTo := Max(c.start, offset), Min(c.end, offset + |raw|);
      assert comments[..i + 1] == comments[..i] + [c];
      AlsoTouched(comments[..i], c, offset, raw);
      AlsoCovers(comments[..i], c, offset, raw, rs);
      if from < upTo || (raw == [] && c.start <= offset && c.end > offset) {
        rs := rs + [Range(from - offset, upTo - offset)];
      }
    }
    assert comments[..|comments|] == comments;
    ranges := if rs == [] then None else Some(rs);
  }

  lemma AlsoTouched(comments: seq<Range>, c: Range, offset: nat, raw: string)
    ensures Touched(comments + [c], offset, raw) <==> Touched(comments, offset, raw) || Touches(c, offset, raw)
  {
    var more := comments + [c];
    if i :| 0 <= i < |comments| && Touches(comments[i], offset, raw) {
      assert more[i] == comments[i];
    }
    assert more[|comments|] == c;
  }

  lemma AlsoCovers(comments: seq<Range>, c: Range, offset: nat, raw: string, rs: seq<Range>)
    requires Columns(comments, offset, raw, rs)
    ensures !Touches(c, offset, raw) ==> Columns(comments + [c], offset, raw, rs)
    ensures Touches(c, offset, raw) ==>
      var from, upTo := Max(c.start, offset), Min(c.end, offset + |raw|);
      offset <= upTo && Columns(comments + [c], offset, raw, rs + [Range(from - offset, upTo - offset)])
  {
    InSomeGrows(comments, c);
    if Touches(c, offset, raw) {
      InSomeGrows(rs, Range(Max(c.start, offset) - offset, Min(c.end, offset + |raw|) - offset));
    }
    hide InSome;
  }

  /** The line at `offset` shows text: no comment touches it, or some character of it is neither whitespace nor in a comment. */
  ghost predicate Stays(source: string, comments: seq<Range>, offset: nat, raw: string) {
    !Touched(comments, offset, raw) || ShowsTextAt(source, comments, offset, raw)
  }

  /** Of the first `n` lines those outside of code that stay, with their numbers from 1. */
  ghost function Prose(source: string, comments: seq<Range>, fenced: set<nat>, n: nat): seq<(nat, string)>
    requires n <= |Lines(source)|
  {
    if n == 0 then []
    else
      var raw := Lines(source)[n - 1];
      Prose(source, comments, fenced, n - 1)
      + if n !in fenced && Stays(source, comments, Offset(Lines(source), n - 1), raw) then [(n, raw)] else []
  }

  // ---------- the HTML nodes of a document ----------

  /** Where an HTML node begins in the source, and its text, which lacks the container prefixes of later lines. */
  datatype HtmlNode = HtmlNode(offset: nat, value: string)

  /** A range of a text whose character `k` stands at `at[k]`. */
  function MoveRange(r: Range, at: seq<nat>): Range {
    if r.start < r.end <= |at| then Range(at[r.start], at[r.end - 1] + 1) else r
  }

  function Moved(rs: seq<Range>, at: seq<nat>): (r: seq<Range>)
    ensures |r| == |rs| && forall i :: 0 <= i < |rs| ==> r[i] == MoveRange(rs[i], at)
  {
    seq(|rs|, i requires 0 <= i < |rs| => MoveRange(rs[i], at))
  }

  function Joined(rss: seq<seq<Range>>, ats: seq<seq<nat>>): seq<Range>
    requires |rss| == |ats|
  {
    if rss == [] then []
    else Joined(rss[..|rss| - 1], ats[..|rss| - 1]) + Moved(rss[|rss| - 1], ats[|rss| - 1])
  }

  /** One character after another from the offset of the node on. */
  function Straight(node: HtmlNode): (at: seq<nat>)
    ensures |at| == |node.value| && forall k :: 0 <= k < |at| ==> at[k] == node.offset + k
  {
    seq(|node.value|, k requires k >= 0 => node.offset + k)
  }

  function Straights(nodes: seq<HtmlNode>): (ats: seq<seq<nat>>)
    ensures |ats| == |nodes| && forall i :: 0 <= i < |nodes| ==> ats[i] == Straight(nodes[i])
  {
    seq(|nodes|, i requires 0 <= i < |nodes| => Straight(nodes[i]))
  }

  /** `comments` are the comments of all nodes, in order, when the characters of the nodes stand at `ats`. */
  ghost predicate CommentsAt(nodes: seq<HtmlNode>, ats: seq<seq<nat>>, comments: seq<Range>) {
    |ats| == |nodes| && exists rss: seq<seq<Range>> {:trigger Joined(rss, ats)} ::
      |rss| == |nodes| && (forall i :: 0 <= i < |nodes| ==> Comments(nodes[i].value, rss[i])) && comments == Joined(rss, ats)
  }

  method CollectComments(nodes: seq<HtmlNode>) returns (comments: seq<Range>)
    ensures CommentsAt(nodes, Straights(nodes), comments)
  {
    hide Comments, Joined, MoveRange;
    comments := [];
    ghost var rss: seq<seq<Range>> := [];
    NothingJoined(Straights(nodes)[..0]);
    for i := 0 to |nodes|
      invariant |rss| == i && forall k :: 0 <= k < i ==> Comments(nodes[k].value, rss[k])
      invariant comments == Joined(rss, Straights(nodes)[..i])
    {
      var node := nodes[i];
      var rs := CommentRanges(node.value);
      var found := seq(|rs|, k requires 0 <= k < |rs| => Range(node.offset + rs[k].start, node.offset + rs[k].end));
      ShiftedIsMoved(node, rs, found);
      JoinedNext(rss, Straights(nodes), rs);
      rss := rss + [rs];
      comments := comments + found;
    }
    assert Straights(nodes)[..|nodes|] == Straights(nodes);
  }

  lemma NothingJoined(ats: seq<seq<nat>>)
    requires ats == []
    ensures Joined([], ats) == []
  {
  }

  lemma JoinedNext(rss: seq<seq<Range>>, ats: seq<seq<nat>>, rs: seq<Range>)
    requires |rss| < |ats|
    ensures Joined(rss + [rs], ats[..|rss| + 1]) == Joined(rss, ats[..|rss|]) + Moved(rs, ats[|rss|])
  {
    var n := |rss|;
    assert (rss + [rs])[..n] == rss && ats[..n + 1][..n] == ats[..n];
  }

  lemma ShiftedIsMoved(node: HtmlNode, rs: seq<Range>, found: seq<Range>)
    requires Comments(node.value, rs) && |found| == |rs|
    requires forall k :: 0 <= k < |rs| ==> found[k] == Range(node.offset + rs[k].start, node.offset + rs[k].end)
    ensures found == Moved(rs, Straight(node))
  {
    CommentsOrdered(node.value, rs);
  }

  /** The map of column ranges by line number, for the comments of the HTML nodes. */
  method HtmlCommentRanges(source: string, nodes: seq<HtmlNode>) returns (ranges: map<nat, seq<Range>>, ghost comments: seq<Range>)
    ensures CommentsAt(nodes, Straights(nodes), comments)
    ensures forall i :: 0 <= i < |Lines(source)| ==> LineDone(source, comments, ranges, i)
  {
    hide CommentsAt;
    var found := CollectComments(nodes);
    comments := found;
    var rawLines := Lines(source);
    ranges := map[];
    var lineOffset := 0;
    for i := 0 to |rawLines|
      invariant lineOffset == Offset(rawLines, i)
      invariant forall k :: k in ranges ==> k <= i
      invariant forall k :: 0 <= k < i ==> LineDone(source, comments, ranges, k)
    {
      var line := LineRanges(found, lineOffset, rawLines[i]);
      ghost var before := ranges;
      if line.Some? {
        ranges := ranges[i + 1 := line.value];
      }
      assert LineDone(source, comments, ranges, i);
      forall k | 0 <= k < i ensures LineDone(source, comments, ranges, k) {
        assert LineDone(source, comments, before, k);
      }
      lineOffset := lineOffset + |rawLines[i]| + 1;
    }
  }

  ghost predicate LineDone(source: string, comments: seq<Range>, ranges: map<nat, seq<Range>>, i: nat)
    requires i < |Lines(source)|
  {
    var raw, offset := Lines(source)[i], Offset(Lines(source), i);
    && (i + 1 in ranges <==> Touched(comments, offset, raw))
    && (i + 1 in ranges ==> Columns(comments, offset, raw, ranges[i + 1]))
  }

  ghost predicate ShowsText(raw: string, rs: seq<Range>) {
    exists k: nat :: k < |raw| && !IsSpace(raw[k]) && !InSome(rs, k)
  }

  ghost predicate ShowsTextAt(source: string, comments: seq<Range>, offset: nat, raw: string) {
    exists at: nat :: offset <= at < offset + |raw| && at < |source| && !IsSpace(source[at]) && !InSome(comments, at)
  }

  lemma ShowsByColumns(source: string, comments: seq<Range>, offset: nat, raw: string, rs: seq<Range>)
    requires StandsAt(raw, source, offset) && Columns(comments, offset, raw, rs)
    ensures ShowsText(raw, rs) <==> ShowsTextAt(source, comments, offset, raw)
  {
    hide IsSpace, InSome;
    assert forall k: nat :: k < |raw| ==> raw[k] == source[offset + k];
    if k: nat :| k < |raw| && !IsSpace(raw[k]) && !InSome(rs, k) {
      assert !Covers(comments, offset + k);
    }
    if at: nat :| offset <= at < offset + |raw| && at < |source| && !IsSpace(source[at]) && !InSome(comments, at) {
      assert raw[at - offset] == source[at] && !Covers(comments, offset + (at - offset));
    }
  }

  lemma StaysByColumns(source: string, comments: seq<Range>, ranges: map<nat, seq<Range>>, i: nat)
    requires i < |Lines(source)| && LineDone(source, comments, ranges, i)
    ensures var raw := Lines(source)[i];
      Stays(source, comments, Offset(Lines(source), i), raw) <==> i + 1 !in ranges || ShowsText(raw, ranges[i + 1])
  {
    hide Lines, Offset, ShowsText, ShowsTextAt, Touched, Columns;
    LineStands(source, i);
    if i + 1 in ranges {
      ShowsByColumns(source, comments, Offset(Lines(source), i), Lines(source)[i], ranges[i + 1]);
    }
  }

  /** The lines outside of code and of the comments of the HTML nodes, judged by the characters of the source alone. */
  method MarkdownProseLines(source: string, nodes: seq<HtmlNode>, fenced: set<nat>) returns (kept: seq<(nat, string)>)
    ensures exists comments ::
      CommentsAt(nodes, Straights(nodes), comments) && kept == Prose(source, comments, fenced, |Lines(source)|)
  {
    hide CommentsAt;
    var rawLines := Lines(source);
    var ranges, comments := HtmlCommentRanges(source, nodes);
    hide Lines, Offset, Stays, Columns, Touched;
    kept := [];
    for i := 0 to |rawLines|
      invariant kept == Prose(source, comments, fenced, i)
    {
      if i + 1 !in fenced {
        StaysByColumns(source, comments, ranges, i);
        WithinLine(source, comments, ranges, i);
        var stays := HasRenderedTextOutsideComments(rawLines[i], if i + 1 in ranges then Some(ranges[i + 1]) else None);
        if stays {
          kept := kept + [(i + 1, rawLines[i])];
        }
      }
    }
  }

  lemma WithinLine(source: string, comments: seq<Range>, ranges: map<nat, seq<Range>>, i: nat)
    requires i < |Lines(source)| && LineDone(source, comments, ranges, i)
    ensures i + 1 in ranges ==> Within(Lines(source)[i], ranges[i + 1])
  {
  }
}
