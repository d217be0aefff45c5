/** Text edits by offset: scripts/project-doc-site.ts, the splice at the end of rewriteMarkdown. */
module Splice {
  import opened Sorting

  datatype Replacement = Replacement(start: nat, end: nat, value: string)

  function ByDescendingStart(a: Replacement, b: Replacement): int {
    b.start - a.start
  }

  /** Ranges of distinct parsed destinations: inside the text, disjoint, no two at one start. */
  ghost predicate Separate(length: nat, rs: set<Replacement>) {
    && (forall r :: r in rs ==> r.start <= r.end <= length)
    && (forall r, q :: r in rs && q in rs && r != q ==> r.start != q.start && (r.end <= q.start || q.end <= r.start))
  }

  // ---------- one simultaneous substitution ----------

  ghost predicate Covered(rs: set<Replacement>, at: nat) {
    exists r :: r in rs && r.start <= at < r.end
  }

  /** What is written in front of position `at`. */
  ghost function Written(rs: set<Replacement>, at: nat): string {
    if exists r :: r in rs && r.start == at then (var r :| r in rs && r.start == at; r.value) else []
  }

  /** The text from `at` on: each position gives its new text, then itself unless it is covered. */
  ghost function Substituted(source: string, rs: set<Replacement>, at: nat): string
    requires at <= |source|
    decreases |source| - at
  {
    if at == |source| then Written(rs, at)
    else Written(rs, at) + (if Covered(rs, at) then [] else [source[at]]) + Substituted(source, rs, at + 1)
  }

  lemma KeptAt(source: string, rs: set<Replacement>, at: nat)
    requires at < |source| && !Covered(rs, at)
    ensures Substituted(source, rs, at) == Written(rs, at) + ([source[at]] + Substituted(source, rs, at + 1))
  {
    hide Written, Covered;
  }

  lemma DroppedAt(source: string, rs: set<Replacement>, at: nat)
    requires at < |source| && Covered(rs, at)
    ensures Substituted(source, rs, at) == Written(rs, at) + Substituted(source, rs, at + 1)
  {
    hide Written, Covered;
    assert Written(rs, at) + [] == Written(rs, at);
  }

  lemma AtEnd(source: string, rs: set<Replacement>)
    ensures Substituted(source, rs, |source|) == Written(rs, |source|)
  {
  }

  lemma Nothing(s: string)
    ensures [] + s == s && s + [] == s
  {
  }

  lemma NothingAt(rs: set<Replacement>, from: nat, at: nat)
    requires at < from && forall r :: r in rs ==> from <= r.start
    ensures Written(rs, at) == [] && !Covered(rs, at)
  {
  }

  /** Before the first replacement the text stays. */
  lemma {:induction false} Untouched(source: string, rs: set<Replacement>, from: nat, end: nat)
    requires from <= end <= |source|
    requires forall r :: r in rs ==> end <= r.start
    ensures Substituted(source, rs, from) == source[from..end] + Substituted(source, rs, end)
    decreases |source| - from
  {
    if from < end {
      NothingAt(rs, end, from);
      KeptAt(source, rs, from);
      hide Written, Covered, Substituted;
      Nothing([source[from]] + Substituted(source, rs, from + 1));
      Untouched(source, rs, from + 1, end);
    }
  }

  lemma InRange(length: nat, rs: set<Replacement>, r: Replacement, at: nat)
    requires Separate(length, rs) && r in rs && r.start < at < r.end
    ensures Written(rs, at) == [] && Covered(rs, at) && r.end <= length
  {
  }

  /** Inside a replaced range nothing is written and nothing stays. */
  lemma {:induction false} SkipCovered(source: string, rs: set<Replacement>, r: Replacement, at: nat)
    requires Separate(|source|, rs) && r in rs && r.start < at <= r.end
    ensures Substituted(source, rs, at) == Substituted(source, rs, r.end)
    decreases |source| - at
  {
    hide *;
    if at < r.end {
      InRange(|source|, rs, r, at);
      DroppedAt(source, rs, at);
      Nothing(Substituted(source, rs, at + 1));
      SkipCovered(source, rs, r, at + 1);
    }
  }

  lemma SameWritten(length: nat, rs: set<Replacement>, r: Replacement, at: nat)
    requires Separate(length, rs + {r}) && r.start < at
    ensures Written(rs + {r}, at) == Written(rs, at)
  {
  }

  lemma SameCovered(rs: set<Replacement>, r: Replacement, at: nat)
    requires r.end <= at
    ensures Covered(rs + {r}, at) <==> Covered(rs, at)
  {
  }

  /** A replacement does not show behind its end. */
  lemma {:induction false} SameAhead(source: string, rs: set<Replacement>, r: Replacement, at: nat)
    requires Separate(|source|, rs + {r}) && r.start < at && r.end <= at <= |source|
    ensures Substituted(source, rs + {r}, at) == Substituted(source, rs, at)
    decreases |source| - at
  {
    hide *;
    SameWritten(|source|, rs, r, at);
    SameCovered(rs, r, at);
    if at == |source| {
      AtEnd(source, rs);
      AtEnd(source, rs + {r});
    } else {
      SameAhead(source, rs, r, at + 1);
      if Covered(rs, at) {
        DroppedAt(source, rs, at);
        DroppedAt(source, rs + {r}, at);
      } else {
        KeptAt(source, rs, at);
        KeptAt(source, rs + {r}, at);
      }
    }
  }

  lemma AtRange(source: string, rs: set<Replacement>, r: Replacement)
    requires Separate(|source|, rs) && r in rs && r.start < r.end
    ensures Substituted(source, rs, r.start) == r.value + Substituted(source, rs, r.end)
  {
    assert Covered(rs, r.start);
    DroppedAt(source, rs, r.start);
    hide Substituted;
    SkipCovered(source, rs, r, r.start + 1);
  }

  lemma NoneElse(length: nat, rs: set<Replacement>, r: Replacement)
    requires Separate(length, rs + {r}) && r !in rs && r.start == r.end
    ensures Written(rs, r.start) == [] && !Covered(rs, r.start) && !Covered(rs + {r}, r.start)
  {
  }

  lemma AtPoint(source: string, rs: set<Replacement>, r: Replacement)
    requires Separate(|source|, rs + {r}) && r !in rs && r.start == r.end
    ensures Substituted(source, rs + {r}, r.start) == r.value + Substituted(source, rs, r.end)
  {
    NoneElse(|source|, rs, r);
    hide Written, Covered, Separate;
    if r.start < |source| {
      KeptAt(source, rs, r.start);
      KeptAt(source, rs + {r}, r.start);
      SameAhead(source, rs, r, r.start + 1);
      hide Substituted;
      Nothing([source[r.start]] + Substituted(source, rs, r.start + 1));
    } else {
      AtEnd(source, rs);
      AtEnd(source, rs + {r});
      hide Substituted;
      Nothing(r.value);
    }
  }

  /** The value of `r` and what follows its range, when every other replacement lies behind it. */
  lemma AtStart(source: string, rs: set<Replacement>, r: Replacement)
    requires Separate(|source|, rs + {r}) && r !in rs
    ensures Substituted(source, rs + {r}, r.start) == r.value + Substituted(source, rs, r.end)
  {
    if r.start < r.end {
      AtRange(source, rs + {r}, r);
      SameAhead(source, rs, r, r.end);
    } else {
      AtPoint(source, rs, r);
    }
  }

  /** One splice on a text whose other replacements, all behind `r`, are done. */
  lemma OneMore(source: string, rs: set<Replacement>, r: Replacement)
    requires Separate(|source|, rs + {r}) && r !in rs
    requires forall q :: q in rs ==> r.start < q.start
    ensures var done := Substituted(source, rs, 0);
      r.end <= |done| && done[..r.start] + r.value + done[r.end..] == Substituted(source, rs + {r}, 0)
  {
    Untouched(source, rs, 0, r.end);
    Untouched(source, rs + {r}, 0, r.start);
    AtStart(source, rs, r);
    var done := Substituted(source, rs, 0);
    hide Substituted, Separate;
    Spliced(source, Substituted(source, rs, r.end), r);
  }

  lemma Spliced(source: string, rest: string, r: Replacement)
    requires r.start <= r.end <= |source|
    ensures var done := source[0..r.end] + rest;
      r.end <= |done| && done[..r.start] + r.value + done[r.end..] == source[0..r.start] + (r.value + rest)
  {
    var done := source[0..r.end] + rest;
    assert done[..r.start] == source[0..r.start] && done[r.end..] == rest;
  }

  /** Splicing from the last start to the first is one substitution on the original, whatever the input order. */
  method ApplyReplacements(source: string, replacements: seq<Replacement>) returns (projected: string)
    requires NoRepeats(replacements) && Separate(|source|, Members(replacements))
    ensures projected == Substituted(source, Members(replacements), 0)
  {
    var sorted := StableSort(replacements, ByDescendingStart);
    SortedStarts(|source|, replacements);
    NothingReplaced(source);
    hide Substituted, Separate, StableSort;
    projected := source;
    for i := 0 to |sorted|
      invariant projected == Substituted(source, Members(sorted[..i]), 0)
    {
      var r := sorted[i];
      NextMember(|source|, sorted, i);
      OneMore(source, Members(sorted[..i]), r);
      projected := projected[..r.start] + r.value + projected[r.end..];
    }
    assert sorted[..|sorted|] == sorted;
  }

  lemma NothingReplaced(source: string)
    ensures Substituted(source, Members([]), 0) == source
  {
    Untouched(source, {}, 0, |source|);
    AtEnd(source, {});
    assert Members<Replacement>([]) == {};
    assert source[0..|source|] + [] == source;
  }

  ghost predicate Descending(s: seq<Replacement>) {
    forall i, j :: 0 <= i < j < |s| ==> s[i].start > s[j].start
  }

  lemma SortedStarts(length: nat, s: seq<Replacement>)
    requires NoRepeats(s) && Separate(length, Members(s))
    ensures var sorted := StableSort(s, ByDescendingStart);
      Members(sorted) == Members(s) && Descending(sorted) && Separate(length, Members(sorted))
  {
    var sorted := StableSort(s, ByDescendingStart);
    SortKeeps(s, ByDescendingStart);
    SortNoRepeats(s, ByDescendingStart);
    SortSorts(s, ByDescendingStart);
    hide StableSort;
    assert Members(sorted) == Members(s);
    forall i, j | 0 <= i < j < |sorted| ensures sorted[i].start > sorted[j].start {
      assert ByDescendingStart(sorted[i], sorted[j]) <= 0;
      assert sorted[i] in Members(s) && sorted[j] in Members(s);
    }
  }

  lemma NextMember(length: nat, s: seq<Replacement>, i: nat)
    requires i < |s| && Descending(s) && Separate(length, Members(s))
    ensures Members(s[..i + 1]) == Members(s[..i]) + {s[i]} && s[i] !in Members(s[..i])
    ensures Separate(length, Members(s[..i]) + {s[i]})
    ensures forall q :: q in Members(s[..i]) ==> s[i].start < q.start
    ensures s[i].start <= s[i].end
  {
    assert s[..i + 1] == s[..i] + [s[i]];
    assert Members(s[..i + 1]) <= Members(s);
    assert s[i] in Members(s);
  }

  // ---------- what the substitution means ----------

  ghost predicate Straddled(rs: set<Replacement>, at: nat) {
    exists r :: r in rs && r.start < at < r.end
  }

  lemma StartingAt(length: nat, rs: set<Replacement>, at: nat) returns (r: Replacement)
    requires Separate(length, rs) && !Straddled(rs, at) && Covered(rs, at)
    ensures r in rs && r.start == at < r.end <= length && !Straddled(rs, r.end)
  {
    r :| r in rs && r.start <= at < r.end;
    assert r.start == at;
  }

  lemma OwnValue(source: string, rs: set<Replacement>, r: Replacement)
    requires Separate(|source|, rs) && r in rs && forall q :: q in rs ==> q.value == source[q.start..q.end]
    ensures r.start <= r.end <= |source| && r.value == source[r.start..r.end]
    ensures source[r.start..] == r.value + source[r.end..]
  {
  }

  ghost predicate OwnValues(source: string, rs: set<Replacement>) {
    Separate(|source|, rs) && forall r :: r in rs ==> r.value == source[r.start..r.end]
  }

  /** Replacing every range by its own text changes nothing. */
  lemma {:induction false} OwnText(source: string, rs: set<Replacement>, at: nat)
    requires OwnValues(source, rs) && at <= |source| && !Straddled(rs, at)
    ensures Substituted(source, rs, at) == source[at..]
    decreases |source| - at
  {
    assert Separate(|source|, rs);
    hide Separate, Covered, Straddled, Written, Substituted;
    if Covered(rs, at) {
      var r := StartingAt(|source|, rs, at);
      OwnValue(source, rs, r);
      AtRange(source, rs, r);
      OwnText(source, rs, r.end);
    } else {
      if at < |source| {
        KeptAt(source, rs, at);
        OwnText(source, rs, at + 1);
      } else {
        AtEnd(source, rs);
      }
    }
  }
}
