/** What the scheduled partitions promise, and the plan the coordinator makes of them. */
module PartitionPlan {
  import opened Wrappers
  import opened Sorting
  import opened PackageOrder
  import opened LptBound
  import opened PartitionHeap
  import opened CoveragePartitions

  function Flatten(lists: seq<seq<string>>): seq<string> {
    if lists == [] then [] else Flatten(lists[..|lists| - 1]) + lists[|lists| - 1]
  }

  function FilesLists(files: seq<string>, c: seq<nat>, n: nat, m: nat): (r: seq<seq<string>>)
    requires n <= |files| && n <= |c|
    ensures |r| == m && forall b :: 0 <= b < m ==> r[b] == FilesIn(files, c, n, b)
  {
    seq(m, b requires b >= 0 => FilesIn(files, c, n, b))
  }

  /** Replacing one list replaces its files in the whole. */
  lemma {:induction false} FlattenUpdate(lists: seq<seq<string>>, b: nat, list: seq<string>)
    requires b < |lists|
    ensures multiset(Flatten(lists[b := list])) == multiset(Flatten(lists)) - multiset(lists[b]) + multiset(list)
    ensures multiset(lists[b]) <= multiset(Flatten(lists))
    decreases |lists|
  {
    var n := |lists| - 1;
    hide *;
    FlattenLast(lists);
    FlattenLast(lists[b := list]);
    if b == n {
      assert lists[b := list][..n] == lists[..n];
    } else {
      assert lists[b := list][..n] == lists[..n][b := list];
      assert lists[b := list][n] == lists[n] && lists[..n][b] == lists[b];
      FlattenUpdate(lists[..n], b, list);
    }
  }

  lemma FlattenLast(lists: seq<seq<string>>)
    requires lists != []
    ensures multiset(Flatten(lists)) == multiset(Flatten(lists[..|lists| - 1])) + multiset(lists[|lists| - 1])
  {
  }

  // ---------- every file exactly once ----------

  lemma {:induction false} NoFilesYet(files: seq<string>, c: seq<nat>, m: nat)
    ensures Flatten(FilesLists(files, c, 0, m)) == []
  {
    if m > 0 {
      NoFilesYet(files, c, m - 1);
      assert FilesLists(files, c, 0, m)[..m - 1] == FilesLists(files, c, 0, m - 1);
    }
  }

  lemma {:induction false} FilesKept(files: seq<string>, c: seq<nat>, n: nat, m: nat)
    requires n <= |files| && n <= |c| && forall i :: 0 <= i < n ==> c[i] < m
    ensures multiset(Flatten(FilesLists(files, c, n, m))) == multiset(files[..n])
  {
    hide *;
    if n == 0 {
      NoFilesYet(files, c, m);
    } else {
      FilesKept(files, c, n - 1, m);
      KeptStep(files, c, n, m);
      PrefixGrows(files, n);
    }
  }

  lemma PrefixGrows(files: seq<string>, n: nat)
    requires 0 < n <= |files|
    ensures multiset(files[..n]) == multiset(files[..n - 1]) + multiset{files[n - 1]}
  {
    assert files[..n] == files[..n - 1] + [files[n - 1]];
  }

  lemma KeptStep(files: seq<string>, c: seq<nat>, n: nat, m: nat)
    requires 0 < n <= |files| && n <= |c| && c[n - 1] < m
    ensures multiset(Flatten(FilesLists(files, c, n, m)))
         == multiset(Flatten(FilesLists(files, c, n - 1, m))) + multiset{files[n - 1]}
  {
    hide *;
    var before, b := FilesLists(files, c, n - 1, m), c[n - 1];
    ListsStep(files, c, n, m);
    FlattenUpdate(before, b, before[b] + [files[n - 1]]);
  }

  lemma ListsStep(files: seq<string>, c: seq<nat>, n: nat, m: nat)
    requires 0 < n <= |files| && n <= |c| && c[n - 1] < m
    ensures var before := FilesLists(files, c, n - 1, m);
            FilesLists(files, c, n, m) == before[c[n - 1] := before[c[n - 1]] + [files[n - 1]]]
  {
    var before, b := FilesLists(files, c, n - 1, m), c[n - 1];
    var after := before[b := before[b] + [files[n - 1]]];
    forall k | 0 <= k < m ensures FilesLists(files, c, n, m)[k] == after[k] {
      assert FilesIn(files, c, n, k) == FilesIn(files, c, n - 1, k) + if k == b then [files[n - 1]] else [];
    }
  }

  /** Conservation: the partitions together hold each scheduled file exactly as often as the inventory. */
  lemma ScheduledKeepsFiles(sorted: seq<string>, w: seq<real>, c: seq<nat>, m: nat, lists: seq<seq<string>>)
    requires Scheduled(sorted, w, c, m, lists)
    ensures multiset(Flatten(lists)) == multiset(sorted)
  {
    FilesKept(sorted, c, |c|, m);
    assert lists == FilesLists(sorted, c, |c|, m);
    assert sorted[..|c|] == sorted;
  }

  // ---------- the bucket sums ----------

  /** The running sum of a bucket is the partition weight of its files. */
  lemma {:induction false} SumIsWeight(files: seq<string>, weights: map<string, real>, c: seq<nat>, n: nat, b: nat)
    requires n <= |files| && n <= |c|
    ensures Load(Weights(files, weights), c, n, b) == PartitionWeight(FilesIn(files, c, n, b), weights)
  {
    if n > 0 {
      SumIsWeight(files, weights, c, n - 1, b);
      if c[n - 1] == b {
        assert FilesIn(files, c, n, b) == FilesIn(files, c, n - 1, b) + [files[n - 1]];
      } else {
        assert FilesIn(files, c, n, b) == FilesIn(files, c, n - 1, b);
      }
    }
  }

  // ---------- against any other partitioning ----------

  lemma {:induction false} WeightWithout(s: seq<string>, k: nat, weights: map<string, real>)
    requires k < |s|
    ensures PartitionWeight(s[..k] + s[k + 1..], weights) == PartitionWeight(s, weights) - WeightOf(s[k], weights)
    decreases |s|
  {
    var n := |s| - 1;
    if k == n {
      assert s[..k] + s[k + 1..] == s[..n];
    } else {
      var rest := s[..n][..k] + s[..n][k + 1..];
      assert s[..k] + s[k + 1..] == rest + [s[n]];
      WeightWithout(s[..n], k, weights);
    }
  }

  lemma FilesWithout(s: seq<string>, k: nat)
    requires k < |s|
    ensures multiset(s[..k] + s[k + 1..]) == multiset(s) - multiset{s[k]}
  {
    assert s == s[..k] + [s[k]] + s[k + 1..];
  }

  lemma {:induction false} InSomeList(lists: seq<seq<string>>, x: string) returns (b: nat, k: nat)
    requires x in Flatten(lists)
    ensures b < |lists| && k < |lists[b]| && lists[b][k] == x
  {
    var n := |lists| - 1;
    if x in lists[n] {
      b := n;
      k :| 0 <= k < |lists[n]| && lists[n][k] == x;
    } else {
      b, k := InSomeList(lists[..n], x);
    }
  }

  lemma {:induction false} AllEmpty(lists: seq<seq<string>>, b: nat)
    requires Flatten(lists) == [] && b < |lists|
    ensures lists[b] == []
  {
    if b < |lists| - 1 {
      AllEmpty(lists[..|lists| - 1], b);
    }
  }

  /** Any partitioning of the files is the outcome of some assignment of the sorted items. */
  lemma {:induction false} PartitioningAsAssignment(files: seq<string>, other: seq<seq<string>>, weights: map<string, real>)
    returns (a: seq<nat>)
    requires multiset(Flatten(other)) == multiset(files)
    ensures Assignment(a, |files|, |other|)
    ensures forall b :: 0 <= b < |other| ==> Load(Weights(files, weights), a, |files|, b) == PartitionWeight(other[b], weights)
    decreases |files|
  {
    if files == [] {
      a := [];
      assert |Flatten(other)| == |multiset(Flatten(other))| == 0;
      forall b | 0 <= b < |other| ensures PartitionWeight(other[b], weights) == 0.0 {
        AllEmpty(other, b);
      }
    } else {
      hide Flatten, Load, PartitionWeight, Weights;
      var n := |files| - 1;
      var x, k, less := TakeLast(files, other, weights);
      var a' := PartitioningAsAssignment(files[..n], other[x := less], weights);
      a := a' + [x];
      forall b | 0 <= b < |other| ensures Load(Weights(files, weights), a, |files|, b) == PartitionWeight(other[b], weights) {
        LoadExtended(files, a', x, weights, b);
      }
    }
  }

  /** Takes one occurrence of the last file out of the list it stands in. */
  lemma TakeLast(files: seq<string>, other: seq<seq<string>>, weights: map<string, real>)
    returns (x: nat, k: nat, less: seq<string>)
    requires files != [] && multiset(Flatten(other)) == multiset(files)
    ensures x < |other|
    ensures multiset(Flatten(other[x := less])) == multiset(files[..|files| - 1])
    ensures PartitionWeight(less, weights) == PartitionWeight(other[x], weights) - WeightOf(files[|files| - 1], weights)
  {
    hide Flatten, PartitionWeight;
    var last := files[|files| - 1];
    assert files == files[..|files| - 1] + [last];
    assert last in multiset(Flatten(other));
    x, k := InSomeList(other, last);
    less := other[x][..k] + other[x][k + 1..];
    WeightWithout(other[x], k, weights);
    FilesWithout(other[x], k);
    FlattenUpdate(other, x, less);
  }

  lemma LoadExtended(files: seq<string>, a: seq<nat>, x: nat, weights: map<string, real>, b: nat)
    requires files != [] && |a| == |files| - 1
    ensures Load(Weights(files, weights), a + [x], |files|, b)
         == Load(Weights(files[..|a|], weights), a, |a|, b) + if b == x then WeightOf(files[|a|], weights) else 0.0
  {
    LoadOfPrefix(Weights(files[..|a|], weights), Weights(files, weights), a, a + [x], |a|, b);
  }

  lemma {:induction false} LoadOfPrefix(v: seq<real>, w: seq<real>, a: seq<nat>, c: seq<nat>, n: nat, b: nat)
    requires n <= |v| && n <= |w| && n <= |a| && n <= |c|
    requires forall i :: 0 <= i < n ==> v[i] == w[i] && a[i] == c[i]
    ensures Load(v, a, n, b) == Load(w, c, n, b)
  {
    if n > 0 {
      LoadOfPrefix(v, w, a, c, n - 1, b);
    }
  }

  lemma WeightsNonNegative(files: seq<string>, weights: map<string, real>)
    requires NoNegativeWeight(weights)
    ensures NonNegative(Weights(files, weights))
  {
  }

  /**
   * The scheduled partitions are near-optimal: whatever other partitioning of the same files into
   * as many lists one takes, if `opt` bounds its partition weights, no scheduled partition
   * weighs more than `(4m - 1) / 3m` times `opt`.
   */
  lemma ScheduledWithinFourThirds(
    sorted: seq<string>, weights: map<string, real>, c: seq<nat>, m: nat, lists: seq<seq<string>>,
    other: seq<seq<string>>, opt: real, b: nat)
    requires NoNegativeWeight(weights) && Descending(Weights(sorted, weights))
    requires Scheduled(sorted, Weights(sorted, weights), c, m, lists)
    requires |other| == m && multiset(Flatten(other)) == multiset(sorted)
    requires forall k :: 0 <= k < m ==> PartitionWeight(other[k], weights) <= opt
    requires b < m
    ensures 3.0 * m as real * PartitionWeight(lists[b], weights) <= (4.0 * m as real - 1.0) * opt
  {
    var w := Weights(sorted, weights);
    hide *;
    WeightsNonNegative(sorted, weights);
    ScheduledIsGreedy(sorted, weights, c, m, lists, b);
    var a := OtherWithin(sorted, weights, m, other, opt);
    LptWithinFourThirds(w, c, a, m, opt, b);
  }

  lemma ScheduledIsGreedy(sorted: seq<string>, weights: map<string, real>, c: seq<nat>, m: nat, lists: seq<seq<string>>, b: nat)
    requires Scheduled(sorted, Weights(sorted, weights), c, m, lists) && b < m
    ensures |c| == |sorted| && |lists| == m && Greedy(Weights(sorted, weights), c, m)
    ensures PartitionWeight(lists[b], weights) == Load(Weights(sorted, weights), c, |c|, b)
  {
    LeastIsGreedy(sorted, Weights(sorted, weights), c, m);
    SumIsWeight(sorted, weights, c, |c|, b);
  }

  lemma OtherWithin(sorted: seq<string>, weights: map<string, real>, m: nat, other: seq<seq<string>>, opt: real)
    returns (a: seq<nat>)
    requires |other| == m && multiset(Flatten(other)) == multiset(sorted)
    requires forall k :: 0 <= k < m ==> PartitionWeight(other[k], weights) <= opt
    ensures Within(Weights(sorted, weights), a, m, opt)
  {
    a := PartitioningAsAssignment(sorted, other, weights);
  }

  // ---------- empty partitions ----------

  lemma {:induction false} UntouchedIsEmpty(files: seq<string>, c: seq<nat>, n: nat, b: nat)
    requires n <= |files| && n <= |c|
    ensures FilesIn(files, c, n, b) == [] <==> b !in c[..n]
  {
    if n > 0 {
      UntouchedIsEmpty(files, c, n - 1, b);
      assert c[..n] == c[..n - 1] + [c[n - 1]];
    }
  }

  /** While a bucket is empty, files go to empty buckets only. */
  lemma ChosenWasEmpty(files: seq<string>, w: seq<real>, c: seq<nat>, m: nat, i: nat, b: nat)
    requires |c| == |w| == |files| && LeastChoices(files, w, c, m, |c|) && NonNegative(w)
    requires i < |c| && b < m && b !in c[..i]
    ensures c[i] !in c[..i]
  {
    UntouchedIsEmpty(files, c, i, b);
    UntouchedIsEmpty(files, c, i, c[i]);
    LoadOfUnused(w, c, i, b);
    LoadNonNegative(w, c, i, c[i]);
    assert !BucketLess(Some(BucketAfter(files, w, c, i, b)), Some(BucketAfter(files, w, c, i, c[i])));
  }

  lemma AllAlone(files: seq<string>, w: seq<real>, c: seq<nat>, m: nat, b: nat)
    requires |c| == |w| == |files| && LeastChoices(files, w, c, m, |c|) && NonNegative(w)
    requires b < m && b !in c
    ensures forall i, j :: 0 <= i < j < |c| ==> c[i] != c[j]
  {
    forall i, j | 0 <= i < j < |c| ensures c[i] != c[j] {
      ChosenWasEmpty(files, w, c, m, j, b);
      assert c[..j][i] == c[i];
    }
  }

  lemma UnusedMeansFew(files: seq<string>, w: seq<real>, c: seq<nat>, m: nat, b: nat)
    requires |c| == |w| == |files| && LeastChoices(files, w, c, m, |c|) && NonNegative(w)
    requires b < m && b !in c
    ensures |c| < m
  {
    AllAlone(files, w, c, m, b);
    UsedSizeInjective(c);
    RangeSize(m);
    RangeHolds(m);
    assert Used(c) <= Range(m) - {b};
    SubsetSize(Used(c), Range(m) - {b});
  }

  /** A partition stays empty exactly when there are fewer files than partitions. */
  lemma EmptyIffScarce(sorted: seq<string>, w: seq<real>, c: seq<nat>, m: nat, lists: seq<seq<string>>)
    requires NonNegative(w) && Scheduled(sorted, w, c, m, lists)
    ensures (exists b :: 0 <= b < m && lists[b] == []) <==> |sorted| < m
  {
    if |sorted| < m {
      var b := UnusedBucket(c, m);
      UntouchedIsEmpty(sorted, c, |c|, b);
      assert c[..|c|] == c && lists[b] == [];
    }
    if b :| 0 <= b < m && lists[b] == [] {
      UntouchedIsEmpty(sorted, c, |c|, b);
      assert c[..|c|] == c;
      UnusedMeansFew(sorted, w, c, m, b);
    }
  }

  lemma {:induction false} AloneIsSingle(files: seq<string>, c: seq<nat>, n: nat, b: nat)
    requires n <= |files| && n <= |c| && forall i, j :: 0 <= i < j < |c| ==> c[i] != c[j]
    ensures |FilesIn(files, c, n, b)| <= 1
    ensures FilesIn(files, c, n, b) != [] ==> b in c[..n]
  {
    if n > 0 {
      AloneIsSingle(files, c, n - 1, b);
      assert c[..n] == c[..n - 1] + [c[n - 1]];
      assert c[n - 1] !in c[..n - 1];
    }
  }

  /** With fewer files than partitions no two files share one. */
  lemma ScarceAreSingle(sorted: seq<string>, w: seq<real>, c: seq<nat>, m: nat, lists: seq<seq<string>>)
    requires NonNegative(w) && Scheduled(sorted, w, c, m, lists) && |sorted| < m
    ensures forall list :: list in lists ==> |list| <= 1
  {
    var b := UnusedBucket(c, m);
    AllAlone(sorted, w, c, m, b);
    forall list | list in lists ensures |list| <= 1 {
      var x :| 0 <= x < |lists| && lists[x] == list;
      AloneIsSingle(sorted, c, |c|, x);
    }
  }

  lemma {:induction false} FlattenCounts(lists: seq<seq<string>>, k: nat)
    requires k <= |lists|
    requires forall i :: 0 <= i < |lists| ==> |lists[i]| == if i < k then 1 else 0
    ensures |Flatten(lists)| == k
  {
    if lists != [] {
      var n := |lists| - 1;
      FlattenCounts(lists[..n], if k <= n then k else n);
    }
  }

  // ---------- the plan ----------

  function CompareLists(left: seq<string>, right: seq<string>, weights: map<string, real>): int {
    if PartitionWeight(right, weights) < PartitionWeight(left, weights) then -1
    else if PartitionWeight(left, weights) < PartitionWeight(right, weights) then 1
    else 0
  }

  function HeaviestListFirst(weights: map<string, real>): (seq<string>, seq<string>) -> int {
    (left, right) => CompareLists(left, right, weights)
  }

  lemma HeaviestListFirstIsTotal(weights: map<string, real>)
    ensures TotalPreorder(HeaviestListFirst(weights))
  {
    hide PartitionWeight;
  }

  /** The lists of weight `w`, in their order. */
  function OfWeight(lists: seq<seq<string>>, weights: map<string, real>, w: real): seq<seq<string>> {
    if lists == [] then []
    else (if PartitionWeight(lists[0], weights) == w then [lists[0]] else []) + OfWeight(lists[1..], weights, w)
  }

  lemma {:induction false} OfWeightTies(lists: seq<seq<string>>, weights: map<string, real>, x: seq<string>)
    ensures TiesOf(lists, x, HeaviestListFirst(weights)) == OfWeight(lists, weights, PartitionWeight(x, weights))
  {
    if lists != [] {
      OfWeightTies(lists[1..], weights, x);
      hide PartitionWeight;
    }
  }

  lemma {:induction false} NoneOfWeight(lists: seq<seq<string>>, weights: map<string, real>, w: real)
    requires forall list :: list in lists ==> PartitionWeight(list, weights) != w
    ensures OfWeight(lists, weights, w) == []
  {
    if lists != [] {
      NoneOfWeight(lists[1..], weights, w);
      assert lists[0] in lists;
    }
  }

  /** Heavier partitions come first, and partitions of one weight keep their order. */
  lemma HeaviestListsLead(lists: seq<seq<string>>, weights: map<string, real>, w: real)
    ensures var s := StableSort(lists, HeaviestListFirst(weights));
            && OfWeight(s, weights, w) == OfWeight(lists, weights, w)
            && forall i, j :: 0 <= i < j < |s| ==> PartitionWeight(s[j], weights) <= PartitionWeight(s[i], weights)
  {
    hide PartitionWeight, TotalPreorder, StableSort, OfWeight;
    var cmp := HeaviestListFirst(weights);
    var s := StableSort(lists, cmp);
    HeaviestListFirstIsTotal(weights);
    SortSorts(lists, cmp);
    SortKeeps(lists, cmp);
    forall i, j | 0 <= i < j < |s| ensures PartitionWeight(s[j], weights) <= PartitionWeight(s[i], weights) {
      assert cmp(s[i], s[j]) <= 0;
    }
    if x :| x in lists && PartitionWeight(x, weights) == w {
      SortIsStable(lists, x, cmp);
      OfWeightTies(lists, weights, x);
      OfWeightTies(s, weights, x);
    } else {
      NoneOfWeight(lists, weights, w);
      NoneOfWeight(s, weights, w);
    }
  }

  lemma {:induction false} FlattenPrepend(list: seq<string>, lists: seq<seq<string>>)
    ensures Flatten([list] + lists) == list + Flatten(lists)
  {
    var all := [list] + lists;
    if lists == [] {
      assert all[..|all| - 1] == [];
      assert Flatten(all) == Flatten([]) + list;
    } else {
      assert all[..|all| - 1] == [list] + lists[..|lists| - 1];
      FlattenPrepend(list, lists[..|lists| - 1]);
    }
  }

  lemma {:induction false} FlattenInsert(list: seq<string>, lists: seq<seq<string>>, cmp: (seq<string>, seq<string>) -> int)
    ensures multiset(Flatten(Insert(list, lists, cmp))) == multiset(list) + multiset(Flatten(lists))
  {
    if lists == [] || cmp(list, lists[0]) <= 0 {
      FlattenPrepend(list, lists);
      if lists == [] {
        assert [list] + lists == [list];
      }
    } else {
      FlattenInsert(list, lists[1..], cmp);
      FlattenPrepend(lists[0], Insert(list, lists[1..], cmp));
      FlattenPrepend(lists[0], lists[1..]);
      assert [lists[0]] + lists[1..] == lists;
    }
  }

  /** Reordering the partitions loses no file. */
  lemma {:induction false} FlattenSort(lists: seq<seq<string>>, cmp: (seq<string>, seq<string>) -> int)
    ensures multiset(Flatten(StableSort(lists, cmp))) == multiset(Flatten(lists))
  {
    if lists != [] {
      FlattenSort(lists[1..], cmp);
      FlattenInsert(lists[0], StableSort(lists[1..], cmp), cmp);
      FlattenPrepend(lists[0], lists[1..]);
      assert [lists[0]] + lists[1..] == lists;
    }
  }

  /** The include lists of one partition, per project. */
  datatype Include = Include(threadSafe: seq<string>, processBound: seq<string>)

  predicate ProcessBound(file: string, projectOf: map<string, string>) {
    file in projectOf && projectOf[file] == "process-bound"
  }

  function Keep(files: seq<string>, projectOf: map<string, string>, bound: bool): seq<string> {
    if files == [] then []
    else Keep(files[..|files| - 1], projectOf, bound)
         + (if ProcessBound(files[|files| - 1], projectOf) == bound then [files[|files| - 1]] else [])
  }

  function Includes(files: seq<string>, projectOf: map<string, string>): Include {
    Include(Keep(files, projectOf, false), Keep(files, projectOf, true))
  }

  /** Each file of a partition goes to exactly one project, the one it belongs to. */
  lemma {:induction false} IncludesSplit(files: seq<string>, projectOf: map<string, string>)
    ensures multiset(Keep(files, projectOf, false)) + multiset(Keep(files, projectOf, true)) == multiset(files)
  {
    if files != [] {
      var n := |files| - 1;
      IncludesSplit(files[..n], projectOf);
      assert files == files[..n] + [files[n]];
      hide ProcessBound;
      var keep, drop := ProcessBound(files[n], projectOf), !ProcessBound(files[n], projectOf);
      assert Keep(files, projectOf, keep) == Keep(files[..n], projectOf, keep) + [files[n]];
      assert Keep(files, projectOf, drop) == Keep(files[..n], projectOf, drop);
    }
  }

  lemma {:induction false} IncludesBelong(files: seq<string>, projectOf: map<string, string>, bound: bool, f: string)
    requires f in Keep(files, projectOf, bound)
    ensures ProcessBound(f, projectOf) == bound && f in files
  {
    var n := |files| - 1;
    if f in Keep(files[..n], projectOf, bound) {
      IncludesBelong(files[..n], projectOf, bound, f);
    }
  }

  function AllIncluded(plan: seq<Include>): multiset<string> {
    if plan == [] then multiset{}
    else AllIncluded(plan[..|plan| - 1]) + multiset(plan[|plan| - 1].threadSafe) + multiset(plan[|plan| - 1].processBound)
  }

  function PlanOf(lists: seq<seq<string>>, projectOf: map<string, string>): (plan: seq<Include>)
    ensures |plan| == |lists| && forall i :: 0 <= i < |plan| ==> plan[i] == Includes(lists[i], projectOf)
  {
    seq(|lists|, i requires 0 <= i < |lists| => Includes(lists[i], projectOf))
  }

  lemma {:induction false} PlanKeepsFiles(lists: seq<seq<string>>, projectOf: map<string, string>)
    ensures AllIncluded(PlanOf(lists, projectOf)) == multiset(Flatten(lists))
  {
    if lists != [] {
      var n := |lists| - 1;
      PlanKeepsFiles(lists[..n], projectOf);
      IncludesSplit(lists[n], projectOf);
      assert PlanOf(lists, projectOf)[..n] == PlanOf(lists[..n], projectOf);
      FlattenLast(lists);
      hide Flatten, Keep;
    }
  }

  /** The first empty partition, if any. */
  method FindEmpty(lists: seq<seq<string>>) returns (r: Option<nat>)
    ensures r.None? ==> [] !in lists
    ensures r.Some? ==> r.value < |lists| && lists[r.value] == [] && [] !in lists[..r.value]
  {
    for i := 0 to |lists|
      invariant [] !in lists[..i]
    {
      if lists[i] == [] {
        return Some(i);
      }
      assert lists[..i + 1] == lists[..i] + [lists[i]];
    }
    assert lists[..|lists|] == lists;
    return None;
  }

  /** `other` distributes the same files over `m` lists of weight at most `opt`. */
  ghost predicate Distributes(files: seq<string>, weights: map<string, real>, other: seq<seq<string>>, m: nat, opt: real) {
    && |other| == m && multiset(Flatten(other)) == multiset(files)
    && forall k :: 0 <= k < m ==> PartitionWeight(other[k], weights) <= opt
  }

  /** `list` weighs at most `(4m - 1) / 3m` times `opt`. */
  ghost predicate FourThirds(list: seq<string>, weights: map<string, real>, m: nat, opt: real) {
    3.0 * m as real * PartitionWeight(list, weights) <= (4.0 * m as real - 1.0) * opt
  }

  /** No list is heavier than `(4m - 1) / 3m` times what any other distribution needs. */
  ghost predicate NearOptimal(files: seq<string>, weights: map<string, real>, lists: seq<seq<string>>) {
    forall other, opt, list ::
      Distributes(files, weights, other, |lists|, opt) && list in lists ==> FourThirds(list, weights, |lists|, opt)
  }

  /** The partitions of the heap, which are those of a least-bucket schedule, heaviest first. */
  ghost predicate Assigned(files: seq<string>, weights: map<string, real>, m: nat, collate: (string, string) -> int, lists: seq<seq<string>>) {
    var sorted := Weighted(files, weights, collate);
    var buckets := Partitions(files, weights, m, collate);
    (exists c :: Scheduled(sorted, Weights(sorted, weights), c, m, buckets)) && lists == StableSort(buckets, HeaviestListFirst(weights))
  }

  /** `k` is the first of the assigned partitions without a file. */
  ghost predicate FirstEmpty(files: seq<string>, weights: map<string, real>, m: nat, collate: (string, string) -> int, k: nat) {
    exists lists :: Assigned(files, weights, m, collate, lists) && k < |lists| && lists[k] == [] && [] !in lists[..k]
  }

  ghost predicate AllPositive(weights: map<string, real>) {
    forall f :: f in weights ==> weights[f] > 0.0
  }

  lemma PositiveIsNotNegative(weights: map<string, real>)
    ensures AllPositive(weights) ==> NoNegativeWeight(weights)
  {
  }

  /**
   * The partitions of the coordinator: heaviest first, every file exactly once, near-optimal, and
   * refused for emptiness exactly when there are fewer files than partitions. The refusal names the
   * first empty partition, which without zero weights is the number of files.
   */
  method AssignFiles(files: seq<string>, weights: map<string, real>, partitions: int, collate: (string, string) -> int)
    returns (r: Result<seq<seq<string>>, PartitionError>)
    requires Collation(collate)
    ensures partitions < 2 <==> r == Failure(InvalidPartitionCount)
    ensures r.Success? ==> |r.value| == partitions && [] !in r.value && multiset(Flatten(r.value)) == multiset(files)
    ensures r.Success? ==> Assigned(files, weights, partitions, collate, r.value)
    ensures r.Success? ==> SortedBy(r.value, HeaviestListFirst(weights))
    ensures partitions >= 2 && r.Failure? ==>
      r.error.EmptyPartition? && FirstEmpty(files, weights, partitions, collate, r.error.index)
    ensures NoNegativeWeight(weights) && partitions >= 2 ==> (r.Failure? <==> |files| < partitions)
    ensures AllPositive(weights) && partitions >= 2 && |files| < partitions ==> r == Failure(EmptyPartition(|files|))
    ensures r.Success? && NoNegativeWeight(weights) ==> NearOptimal(files, weights, r.value)
  {
    hide *;
    if partitions < 2 {
      return Failure(InvalidPartitionCount);
    }
    var outcome := AssignWeightedPartitions(files, weights, partitions, collate);
    var buckets := outcome.value;
    var lists := StableSort(buckets, HeaviestListFirst(weights));
    AssignedPromises(files, weights, partitions, collate, buckets);
    PositiveIsNotNegative(weights);
    SortedPromises(files, weights, partitions, collate, buckets);
    var empty := FindEmpty(lists);
    if empty.Some? {
      FirstEmptyIs(files, weights, partitions, collate, lists, empty.value);
      return Failure(EmptyPartition(empty.value));
    }
    if NoNegativeWeight(weights) {
      NearOptimalKept(files, weights, buckets, lists);
    }
    r := Success(lists);
  }

  /** Sorting the scheduled partitions keeps what they hold. */
  lemma SortedPromises(files: seq<string>, weights: map<string, real>, m: nat, collate: (string, string) -> int, buckets: seq<seq<string>>)
    requires var sorted := Weighted(files, weights, collate);
             buckets == Partitions(files, weights, m, collate) && exists c :: Scheduled(sorted, Weights(sorted, weights), c, m, buckets)
    ensures var lists := StableSort(buckets, HeaviestListFirst(weights));
            && Assigned(files, weights, m, collate, lists) && SortedBy(lists, HeaviestListFirst(weights))
            && |lists| == |buckets| && multiset(Flatten(lists)) == multiset(Flatten(buckets))
            && forall list :: list in lists <==> list in buckets
  {
    hide Scheduled, Weighted, Weights, StableSort, Flatten, SortedBy, HeaviestListFirst, TotalPreorder;
    var cmp := HeaviestListFirst(weights);
    HeaviestListFirstIsTotal(weights);
    SortKeeps(buckets, cmp);
    SortSorts(buckets, cmp);
    FlattenSort(buckets, cmp);
  }

  lemma PositiveWeight(list: seq<string>, weights: map<string, real>)
    requires AllPositive(weights) && |list| == 1
    ensures PartitionWeight(list, weights) > 0.0
  {
    assert list[..0] == [];
  }

  /** Behind the first empty partition all are empty. */
  lemma EmptyLast(lists: seq<seq<string>>, weights: map<string, real>, k: nat)
    requires AllPositive(weights) && SortedBy(lists, HeaviestListFirst(weights))
    requires (forall list :: list in lists ==> |list| <= 1) && k < |lists| && lists[k] == [] && [] !in lists[..k]
    ensures |Flatten(lists)| == k
  {
    hide Flatten;
    forall i | 0 <= i < |lists| ensures |lists[i]| == if i < k then 1 else 0 {
      assert lists[i] in lists;
      if i < k {
        assert lists[i] in lists[..k];
      } else if |lists[i]| == 1 {
        assert i > k && HeaviestListFirst(weights)(lists[k], lists[i]) <= 0;
        PositiveWeight(lists[i], weights);
      }
    }
    FlattenCounts(lists, k);
  }

  lemma ScarceIndex(files: seq<string>, weights: map<string, real>, m: nat, collate: (string, string) -> int, lists: seq<seq<string>>, k: nat)
    requires Collation(collate) && AllPositive(weights) && |files| < m
    requires Assigned(files, weights, m, collate, lists) && k < |lists| && lists[k] == [] && [] !in lists[..k]
    ensures k == |files|
  {
    hide Scheduled, Weighted, Weights, StableSort, Flatten, SortedBy, HeaviestListFirst, PartitionWeight;
    var sorted := Weighted(files, weights, collate);
    var w := Weights(sorted, weights);
    var buckets := Partitions(files, weights, m, collate);
    var c :| Scheduled(sorted, w, c, m, buckets);
    WeightedDescends(files, weights, collate);
    WeightsNonNegative(sorted, weights);
    ScarceAreSingle(sorted, w, c, m, buckets);
    SortedPromises(files, weights, m, collate, buckets);
    AssignedPromises(files, weights, m, collate, buckets);
    EmptyLast(lists, weights, k);
    assert |multiset(Flatten(lists))| == |multiset(files)|;
  }

  lemma FirstEmptyIs(files: seq<string>, weights: map<string, real>, m: nat, collate: (string, string) -> int, lists: seq<seq<string>>, k: nat)
    requires Collation(collate) && Assigned(files, weights, m, collate, lists)
    requires k < |lists| && lists[k] == [] && [] !in lists[..k]
    ensures FirstEmpty(files, weights, m, collate, k)
    ensures [] in lists
    ensures AllPositive(weights) && |files| < m ==> k == |files|
  {
    hide Scheduled, Weighted, Weights, StableSort, HeaviestListFirst, Assigned, AllPositive;
    assert lists[k] in lists;
    if AllPositive(weights) && |files| < m {
      ScarceIndex(files, weights, m, collate, lists, k);
    }
  }

  /** What any scheduled partitions satisfy, without the run that made them. */
  lemma AssignedPromises(files: seq<string>, weights: map<string, real>, m: nat, collate: (string, string) -> int, lists: seq<seq<string>>)
    requires Collation(collate)
    requires var sorted := Weighted(files, weights, collate);
             exists c :: Scheduled(sorted, Weights(sorted, weights), c, m, lists)
    ensures |lists| == m && multiset(Flatten(lists)) == multiset(files)
    ensures NoNegativeWeight(weights) ==> ([] in lists <==> |files| < m)
    ensures NoNegativeWeight(weights) ==> NearOptimal(files, weights, lists)
  {
    var sorted := Weighted(files, weights, collate);
    var w := Weights(sorted, weights);
    var c :| Scheduled(sorted, w, c, m, lists);
    WeightedDescends(files, weights, collate);
    ScheduledKeepsFiles(sorted, w, c, m, lists);
    assert |lists| == m;
    if NoNegativeWeight(weights) {
      WeightsNonNegative(sorted, weights);
      hide Scheduled, Weighted, Weights, PartitionWeight, Flatten;
      EmptyIffScarce(sorted, w, c, m, lists);
      ScheduledNearOptimal(files, sorted, weights, c, lists);
    }
  }

  lemma ScheduledNearOptimal(files: seq<string>, sorted: seq<string>, weights: map<string, real>, c: seq<nat>, lists: seq<seq<string>>)
    requires multiset(files) == multiset(sorted)
    requires NoNegativeWeight(weights) && Descending(Weights(sorted, weights))
    requires Scheduled(sorted, Weights(sorted, weights), c, |lists|, lists)
    ensures NearOptimal(files, weights, lists)
  {
    hide Scheduled, PartitionWeight, Flatten, Weights, Descending, NoNegativeWeight;
    forall other, opt, list | Distributes(files, weights, other, |lists|, opt) && list in lists
      ensures FourThirds(list, weights, |lists|, opt)
    {
      var b :| 0 <= b < |lists| && lists[b] == list;
      ScheduledWithinFourThirds(sorted, weights, c, |lists|, lists, other, opt, b);
    }
  }

  lemma NearOptimalKept(files: seq<string>, weights: map<string, real>, buckets: seq<seq<string>>, lists: seq<seq<string>>)
    requires NearOptimal(files, weights, buckets) && |lists| == |buckets|
    requires forall list :: list in lists ==> list in buckets
    ensures NearOptimal(files, weights, lists)
  {
    hide Distributes, FourThirds;
  }

  /** The include lists written for the partitions: over all partitions and projects, every file exactly once. */
  method PlanPartitions(
    files: seq<string>, weights: map<string, real>, partitions: int, projectOf: map<string, string>,
    collate: (string, string) -> int)
    returns (r: Result<seq<Include>, PartitionError>)
    requires Collation(collate)
    ensures r.Success? ==> |r.value| == partitions && AllIncluded(r.value) == multiset(files)
    ensures r.Success? ==> forall p, f :: p in r.value && f in p.processBound ==> f in projectOf && projectOf[f] == "process-bound"
    ensures r.Success? ==> forall p, f :: p in r.value && f in p.threadSafe && f in projectOf ==> projectOf[f] != "process-bound"
    ensures NoNegativeWeight(weights) ==> (r.Success? <==> 2 <= partitions <= |files|)
    ensures r.Failure? ==> r.error == InvalidPartitionCount || r.error.EmptyPartition?
    ensures AllPositive(weights) && 2 <= partitions && |files| < partitions ==> r == Failure(EmptyPartition(|files|))
  {
    hide NearOptimal, SortedBy, Flatten, AllIncluded, PlanOf, Assigned, FirstEmpty, AllPositive;
    var lists := AssignFiles(files, weights, partitions, collate);
    if lists.Failure? {
      return Failure(lists.error);
    }
    var plan := PlanOf(lists.value, projectOf);
    PlanKeepsFiles(lists.value, projectOf);
    PlanBelongs(lists.value, projectOf);
    forall p, f | p in plan && f in p.processBound ensures f in projectOf && projectOf[f] == "process-bound" {
      assert ProcessBound(f, projectOf);
    }
    forall p, f | p in plan && f in p.threadSafe && f in projectOf ensures projectOf[f] != "process-bound" {
      assert !ProcessBound(f, projectOf);
    }
    hide ProcessBound;
    r := Success(plan);
  }

  /** Each file stands in the include list of the project it belongs to. */
  lemma PlanBelongs(lists: seq<seq<string>>, projectOf: map<string, string>)
    ensures forall p, f :: p in PlanOf(lists, projectOf) && f in p.processBound ==> ProcessBound(f, projectOf)
    ensures forall p, f :: p in PlanOf(lists, projectOf) && f in p.threadSafe ==> !ProcessBound(f, projectOf)
  {
    var plan := PlanOf(lists, projectOf);
    hide Keep, ProcessBound;
    forall p, f | p in plan && f in p.processBound ensures ProcessBound(f, projectOf) {
      var i :| 0 <= i < |plan| && plan[i] == p;
      IncludesBelong(lists[i], projectOf, true, f);
    }
    forall p, f | p in plan && f in p.threadSafe ensures !ProcessBound(f, projectOf) {
      var i :| 0 <= i < |plan| && plan[i] == p;
      IncludesBelong(lists[i], projectOf, false, f);
    }
  }
}
