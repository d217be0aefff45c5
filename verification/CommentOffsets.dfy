/**
 * Where the comments of a document really stand, and when scripts/markdown.ts computes that. It adds
 * positions in the value of an HTML node to the offset of the node, but the value lacks the quote
 * marks and the indentation that the containers take from later lines.
 */
module CommentOffsets {
  import opened CommentVisibility
  import opened JavaScript
  import opened Whitespace
  import opened Wrappers

  predicate FromContainer(c: char) {
    c == ' ' || c == '\t' || c == '>'
  }

  predicate IsLineEnding(c: char) {
    c == '\n' || c == '\r'
  }

  /** Position `j` lies between characters `k` and `k + 1`. */
  ghost predicate Skipped(at: seq<nat>, k: nat, j: nat) {
    k + 1 < |at| && at[k] < j < at[k + 1]
  }

  /**
   * Character `k` of the value stands at `at[k]`. What is skipped follows a line ending and is made
   * of quote marks and blanks.
   */
  ghost predicate Drawn(source: string, node: HtmlNode, at: seq<nat>) {
    && |at| == |node.value| && node.offset <= |source|
    && (at != [] ==> at[0] == node.offset)
    && (forall k :: 0 <= k < |at| ==> at[k] < |source| && source[at[k]] == node.value[k])
    && (forall j, k :: 0 <= j < k < |at| ==> at[j] < at[k])
    && (forall k: nat, j: nat :: Skipped(at, k, j) ==> IsLineEnding(node.value[k]) && FromContainer(source[j]))
  }

  /** Nothing is skipped among the first `n` characters. */
  ghost predicate Whole(node: HtmlNode, at: seq<nat>, n: nat) {
    n <= |at| && forall k :: 0 <= k < n ==> at[k] == node.offset + k
  }

  lemma StandsThere(source: string, node: HtmlNode, at: seq<nat>, k: nat)
    requires Drawn(source, node, at) && k < |at|
    ensures |at| == |node.value| && at[0] == node.offset && at[k] < |source| && source[at[k]] == node.value[k]
  {
  }

  lemma IsSkipped(source: string, node: HtmlNode, at: seq<nat>, k: nat, j: nat)
    requires Drawn(source, node, at) && Skipped(at, k, j)
    ensures j < |source| && |at| == |node.value| && IsLineEnding(node.value[k]) && FromContainer(source[j])
  {
  }

  lemma StandsChar(t: string, s: string, i: nat, k: nat)
    requires StandsAt(t, s, i) && k < |t|
    ensures i + k < |s| && s[i + k] == t[k]
  {
    assert s[i..i + |t|][k] == t[k];
  }

  lemma {:induction false} FurtherBehind(source: string, node: HtmlNode, at: seq<nat>, j: nat, k: nat)
    requires Drawn(source, node, at) && j <= k < |at|
    ensures at[k] >= at[j] + (k - j)
  {
    if j < k {
      FurtherBehind(source, node, at, j, k - 1);
    }
  }

  /** A computed range is where the comment stands exactly when nothing is skipped up to its end. */
  lemma RangeExact(source: string, node: HtmlNode, at: seq<nat>, r: Range)
    requires Drawn(source, node, at) && r.start < r.end <= |node.value|
    ensures MoveRange(r, Straight(node)) == MoveRange(r, at) <==> Whole(node, at, r.end)
  {
    if MoveRange(r, Straight(node)) == MoveRange(r, at) {
      forall k | 0 <= k < r.end ensures at[k] == node.offset + k {
        FurtherBehind(source, node, at, 0, k);
        FurtherBehind(source, node, at, k, r.end - 1);
      }
    }
  }

  // ---------- a closed comment: a test on the source ----------

  /** The first skip, if there is one. */
  lemma {:induction false} FirstSkip(node: HtmlNode, at: seq<nat>, n: nat) returns (d: nat)
    requires n <= |at| && !Whole(node, at, n)
    ensures d < n && at[d] != node.offset + d && Whole(node, at, d)
  {
    if Whole(node, at, n - 1) {
      d := n - 1;
    } else {
      d := FirstSkip(node, at, n - 1);
    }
  }

  lemma {:induction false} SkipStays(source: string, node: HtmlNode, at: seq<nat>, d: nat, k: nat)
    requires Drawn(source, node, at) && d <= k < |at| && at[d] > node.offset + d
    ensures at[k] > node.offset + k
  {
    FurtherBehind(source, node, at, d, k);
  }

  /** The character of the value that stands at `p`, or `p` is skipped. */
  lemma {:induction false} Origin(source: string, node: HtmlNode, at: seq<nat>, p: nat, k: nat) returns (j: nat)
    requires Drawn(source, node, at) && k < |at| && at[0] <= p < at[k]
    ensures j < k && at[j] <= p < at[j + 1]
  {
    if at[k - 1] <= p {
      j := k - 1;
    } else {
      j := Origin(source, node, at, p, k - 1);
    }
  }

  lemma SkipBehind(node: HtmlNode, at: seq<nat>, d: nat, j: nat)
    requires Whole(node, at, d) && j < |at| && at[j] != node.offset + j
    ensures d <= j
  {
  }

  /** Behind a skip, a text that stands in the source as it is has no character but those that containers take. */
  lemma {:induction false} NoneBehindSkip(source: string, node: HtmlNode, at: seq<nat>, n: nat, d: nat, k: nat)
    requires Drawn(source, node, at) && d <= k < n <= |at| && at[d] > node.offset + d && Whole(node, at, d)
    requires StandsAt(node.value[..n], source, node.offset)
    ensures FromContainer(node.value[k])
    decreases k
  {
    StandsThere(source, node, at, k);
    hide Drawn, StandsAt, FromContainer, Whole;
    var p := node.offset + k;
    SkipStays(source, node, at, d, k);
    StandsChar(node.value[..n], source, node.offset, k);
    assert node.value[..n][k] == node.value[k];
    var j := Origin(source, node, at, p, k);
    if at[j] == p {
      SkipBehind(node, at, d, j);
      StandsThere(source, node, at, j);
      NoneBehindSkip(source, node, at, n, d, j);
    } else {
      IsSkipped(source, node, at, j, p);
    }
  }

  /** A text without skips stands in the source as it is. */
  lemma WholeStands(source: string, node: HtmlNode, at: seq<nat>, n: nat)
    requires Drawn(source, node, at) && Whole(node, at, n)
    ensures StandsAt(node.value[..n], source, node.offset)
  {
    if n > 0 {
      assert at[n - 1] == node.offset + n - 1;
      forall k | 0 <= k < n ensures source[node.offset..node.offset + n][k] == node.value[..n][k] {
        assert at[k] == node.offset + k;
      }
    }
  }

  predicate Closed(value: string, r: Range) {
    r.end >= |CLOSER| && StandsAt(CLOSER, value, r.end - |CLOSER|)
  }

  lemma SameLength(source: string, node: HtmlNode, at: seq<nat>)
    requires Drawn(source, node, at)
    ensures |at| == |node.value|
  {
  }

  lemma DashBeforeEnd(value: string, r: Range)
    requires Closed(value, r)
    ensures 3 <= r.end <= |value| && value[r.end - 2] == '-'
  {
    assert value[r.end - 3..r.end][1] == '-';
  }

  /** No skip stands in a closer, and behind an earlier skip the closer would not stand in the source. */
  lemma SkipShows(source: string, node: HtmlNode, at: seq<nat>, r: Range)
    requires Drawn(source, node, at) && Closed(node.value, r) && !Whole(node, at, r.end)
    ensures !StandsAt(node.value[..r.end], source, node.offset)
  {
    var n := r.end;
    DashBeforeEnd(node.value, r);
    SameLength(source, node, at);
    hide Drawn, StandsAt, Closed;
    var d := FirstSkip(node, at, n);
    StandsThere(source, node, at, d);
    FurtherBehind(source, node, at, 0, d);
    if d == n - 1 {
      assert at[d - 1] == node.offset + (d - 1);
      IsSkipped(source, node, at, d - 1, node.offset + d);
    } else if StandsAt(node.value[..n], source, node.offset) {
      NoneBehindSkip(source, node, at, n, d, n - 2);
    }
  }

  /** Up to the end of a closed comment nothing is skipped exactly when the value up to there stands in the source. */
  lemma StandsExact(source: string, node: HtmlNode, at: seq<nat>, r: Range)
    requires Drawn(source, node, at) && Closed(node.value, r)
    ensures Whole(node, at, r.end) <==> StandsAt(node.value[..r.end], source, node.offset)
  {
    if Whole(node, at, r.end) {
      WholeStands(source, node, at, r.end);
    } else {
      SkipShows(source, node, at, r);
    }
  }

  // ---------- all comments of a document ----------

  /** `r` is one of the comments of the text. */
  ghost predicate HasComment(value: string, r: Range) {
    exists rs :: Comments(value, rs) && r in rs
  }

  ghost predicate AllDrawn(source: string, nodes: seq<HtmlNode>, ats: seq<seq<nat>>) {
    |ats| == |nodes| && forall i :: 0 <= i < |nodes| ==> Drawn(source, nodes[i], ats[i])
  }

  ghost predicate NothingSkippedIn(node: HtmlNode, at: seq<nat>) {
    forall r :: HasComment(node.value, r) ==> Whole(node, at, r.end)
  }

  /** No node has a skip before the end of a comment. */
  ghost predicate NothingSkipped(nodes: seq<HtmlNode>, ats: seq<seq<nat>>)
    requires |ats| == |nodes|
  {
    forall i :: 0 <= i < |nodes| ==> NothingSkippedIn(nodes[i], ats[i])
  }

  /** The comments of a text are one list. */
  lemma OneList(value: string, rs: seq<Range>, qs: seq<Range>)
    requires Comments(value, rs) && Comments(value, qs)
    ensures rs == qs
  {
    hide *;
    CommentsUnique(value, rs, qs, |rs|);
    CommentsUnique(value, qs, rs, |qs|);
  }

  lemma MovedExact(source: string, node: HtmlNode, at: seq<nat>, rs: seq<Range>)
    requires Drawn(source, node, at) && Comments(node.value, rs)
    ensures Moved(rs, Straight(node)) == Moved(rs, at) <==> NothingSkippedIn(node, at)
  {
    CommentsOrdered(node.value, rs);
    hide Drawn, Whole, Comments, MoveRange;
    forall r ensures HasComment(node.value, r) <==> r in rs {
      if qs :| Comments(node.value, qs) && r in qs {
        OneList(node.value, rs, qs);
      }
    }
    var straight, moved := Moved(rs, Straight(node)), Moved(rs, at);
    forall i | 0 <= i < |rs| ensures straight[i] == moved[i] <==> Whole(node, at, rs[i].end) {
      RangeExact(source, node, at, rs[i]);
    }
    assert straight == moved <==> forall i :: 0 <= i < |rs| ==> straight[i] == moved[i];
  }

  lemma {:induction false} JoinedExact(rss: seq<seq<Range>>, ats: seq<seq<nat>>, bts: seq<seq<nat>>)
    requires |rss| == |ats| == |bts|
    ensures |Joined(rss, ats)| == |Joined(rss, bts)|
    ensures Joined(rss, ats) == Joined(rss, bts) <==> forall i :: 0 <= i < |rss| ==> Moved(rss[i], ats[i]) == Moved(rss[i], bts[i])
  {
    hide Joined, Moved;
    JoinedLast(rss, ats);
    JoinedLast(rss, bts);
    if rss != [] {
      var n := |rss| - 1;
      JoinedExact(rss[..n], ats[..n], bts[..n]);
      SameEnds(Joined(rss[..n], ats[..n]), Moved(rss[n], ats[n]), Joined(rss[..n], bts[..n]), Moved(rss[n], bts[n]));
    }
  }

  lemma JoinedLast(rss: seq<seq<Range>>, ats: seq<seq<nat>>)
    requires |rss| == |ats|
    ensures rss == [] ==> Joined(rss, ats) == []
    ensures var n := |rss| - 1; rss != [] ==> Joined(rss, ats) == Joined(rss[..n], ats[..n]) + Moved(rss[n], ats[n])
  {
  }

  lemma SameEnds(a: seq<Range>, b: seq<Range>, c: seq<Range>, d: seq<Range>)
    requires |a| == |c|
    ensures a + b == c + d <==> a == c && b == d
  {
    assert (a + b)[..|a|] == a && (a + b)[|a|..] == b;
    assert (c + d)[..|c|] == c && (c + d)[|c|..] == d;
  }

  /** The computed ranges are the comments as they stand in the source if and only if no node has a skip before the end of one. */
  lemma OffsetsExact(source: string, nodes: seq<HtmlNode>, ats: seq<seq<nat>>, computed: seq<Range>, authored: seq<Range>)
    requires AllDrawn(source, nodes, ats)
    requires CommentsAt(nodes, Straights(nodes), computed) && CommentsAt(nodes, ats, authored)
    ensures computed == authored <==> NothingSkipped(nodes, ats)
  {
    hide *;
    var rss := ListsOf(nodes, Straights(nodes), computed);
    var qss := ListsOf(nodes, ats, authored);
    forall i | 0 <= i < |nodes| ensures rss[i] == qss[i] {
      OneList(nodes[i].value, rss[i], qss[i]);
    }
    assert rss == qss;
    JoinedExact(rss, Straights(nodes), ats);
    forall i | 0 <= i < |nodes|
      ensures Moved(rss[i], Straights(nodes)[i]) == Moved(rss[i], ats[i]) <==> NothingSkippedIn(nodes[i], ats[i])
    {
      DrawnAt(source, nodes, ats, i);
      MovedExact(source, nodes[i], ats[i], rss[i]);
    }
    SkippedByNode(nodes, ats);
  }

  lemma ListsOf(nodes: seq<HtmlNode>, ats: seq<seq<nat>>, comments: seq<Range>) returns (rss: seq<seq<Range>>)
    requires CommentsAt(nodes, ats, comments)
    ensures |rss| == |nodes| == |ats| && comments == Joined(rss, ats)
    ensures forall i :: 0 <= i < |nodes| ==> Comments(nodes[i].value, rss[i])
  {
    rss :| |rss| == |nodes| && (forall i :: 0 <= i < |nodes| ==> Comments(nodes[i].value, rss[i])) && comments == Joined(rss, ats);
  }

  lemma DrawnAt(source: string, nodes: seq<HtmlNode>, ats: seq<seq<nat>>, i: nat)
    requires AllDrawn(source, nodes, ats) && i < |nodes|
    ensures i < |ats| && Drawn(source, nodes[i], ats[i])
  {
  }

  lemma SkippedByNode(nodes: seq<HtmlNode>, ats: seq<seq<nat>>)
    requires |ats| == |nodes|
    ensures NothingSkipped(nodes, ats) <==> forall i :: 0 <= i < |nodes| ==> NothingSkippedIn(nodes[i], ats[i])
  {
    hide HasComment, Whole;
  }

  // ---------- comments that end at once ----------

  /** `<!-->` or `<!--->`, a whole comment by section 6.6 of CommonMark 0.31.2, and its length. */
  function EmptyComment(value: string, start: nat): Option<nat> {
    if StandsAt("<!-->", value, start) then Some(5)
    else if StandsAt("<!--->", value, start) then Some(6)
    else None
  }

  /** Where CommonMark ends a comment: there, or behind the first closer. */
  ghost predicate EndsByCommonMark(value: string, r: Range) {
    match EmptyComment(value, r.start)
    case Some(n) => r.end == r.start + n
    case None => IsComment(value, r)
  }

  /** The scan ends a comment where CommonMark does, exactly unless it is an empty one with text behind it. */
  lemma EmptyCommentsExact(value: string, r: Range)
    requires IsComment(value, r)
    ensures EndsByCommonMark(value, r)
      <==> (EmptyComment(value, r.start).Some? ==> r.start + EmptyComment(value, r.start).value == |value|)
  {
    var s := r.start;
    if StandsAt("<!-->", value, s) || StandsAt("<!--->", value, s) {
      hide NoMark;
      assert r.end != |value| ==> r.end >= s + 7;
      if StandsAt("<!-->", value, s) && |value| == s + 5 {
        assert r.end == |value|;
      }
    }
  }

  /** `<!--> x`: the comment is over before the text, the scan takes it all. */
  lemma TextBehindEmptyComment()
    ensures IsComment("<!--> x", Range(0, 7)) && EmptyComment("<!--> x", 0) == Some(5)
  {
    var value := "<!--> x";
    assert value[0..4] == OPENER && value[0..5] == "<!-->";
    assert NoMark(value, CLOSER, 4, 7) by {
      forall k: nat | 4 <= k < 7 ensures !StandsAt(CLOSER, value, k) {
        assert k == 4 ==> value[4..7][0] == '>';
      }
    }
  }

  // ---------- a comment in a list item ----------

  /** `- <!-- a` and `  b -->` on the next line. */
  const LISTED := "- <!-- a\n  b -->"
  const LISTED_NODE := HtmlNode(2, "<!-- a\nb -->")

  ghost function ListedAt(): (at: seq<nat>)
    ensures |at| == 12 && forall k :: 0 <= k < 12 ==> at[k] == if k < 7 then k + 2 else k + 4
  {
    seq(12, k requires k >= 0 => if k < 7 then k + 2 else k + 4)
  }

  lemma ListedDrawn()
    ensures Drawn(LISTED, LISTED_NODE, ListedAt())
  {
    var at, value := ListedAt(), LISTED_NODE.value;
    forall k: nat, j: nat | Skipped(at, k, j)
      ensures IsLineEnding(value[k]) && FromContainer(LISTED[j])
    {
      assert k == 6 && (j == 9 || j == 10);
    }
  }

  lemma ListedComment()
    ensures Comments(LISTED_NODE.value, [Range(0, 12)])
  {
    var value := LISTED_NODE.value;
    assert value[0..4] == OPENER && value[9..12] == CLOSER;
    forall k: nat | 4 <= k < 9 ensures !StandsAt(CLOSER, value, k) {
      assert value[k..k + 3][2] == value[k + 2] != '>';
    }
    assert IsComment(value, Range(0, 12));
    assert [Range(0, 12)][0] == Range(0, 12);
  }

  /**
   * The computed range ends two characters early: the second line is kept, although the comment as
   * it stands in the source covers all of it but indentation.
   */
  lemma ListedEndsEarly()
    ensures Drawn(LISTED, LISTED_NODE, ListedAt())
    ensures CommentsAt([LISTED_NODE], Straights([LISTED_NODE]), [Range(2, 14)])
    ensures CommentsAt([LISTED_NODE], [ListedAt()], [Range(2, 16)])
    ensures StandsAt("  b -->", LISTED, 9)
    ensures Stays(LISTED, [Range(2, 14)], 9, "  b -->") && !Stays(LISTED, [Range(2, 16)], 9, "  b -->")
  {
    ListedDrawn();
    ListedComment();
    ListedPlaces();
    hide Drawn;
    assert LISTED[9..16] == "  b -->";
    assert Touches([Range(2, 16)][0], 9, "  b -->");
    assert !IsSpace(LISTED[14]) && !InSome([Range(2, 14)], 14);
    forall at: nat | 9 <= at < 16 ensures InSome([Range(2, 16)], at) {
      assert [Range(2, 16)][0].start <= at < [Range(2, 16)][0].end;
    }
  }

  lemma ListedPlaces()
    requires Comments(LISTED_NODE.value, [Range(0, 12)])
    ensures CommentsAt([LISTED_NODE], Straights([LISTED_NODE]), [Range(2, 14)])
    ensures CommentsAt([LISTED_NODE], [ListedAt()], [Range(2, 16)])
  {
    hide Comments;
    var rss, at := [[Range(0, 12)]], Straight(LISTED_NODE);
    assert rss[..0] == [] && Straights([LISTED_NODE]) == [at];
    assert Joined([], [at][..0]) == [] && Joined([], [ListedAt()][..0]) == [];
    assert Moved([Range(0, 12)], at) == [Range(2, 14)];
    assert Moved([Range(0, 12)], ListedAt()) == [Range(2, 16)];
    assert Joined(rss, [at]) == [] + [Range(2, 14)];
    assert Joined(rss, [ListedAt()]) == [] + [Range(2, 16)];
  }
}
