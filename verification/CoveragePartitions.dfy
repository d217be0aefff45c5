/** Weighted distribution of test files over partitions: scripts/coverage-partitions.ts. */
module CoveragePartitions {
  import opened Wrappers
  import opened Sorting
  import opened PackageOrder
  import opened LptBound
  import opened PartitionHeap

  const UNKNOWN_FILE_WEIGHT := 1.0

  function WeightOf(file: string, weights: map<string, real>): real {
    if file in weights then weights[file] else UNKNOWN_FILE_WEIGHT
  }

  function PartitionWeight(files: seq<string>, weights: map<string, real>): real {
    if files == [] then 0.0
    else PartitionWeight(files[..|files| - 1], weights) + WeightOf(files[|files| - 1], weights)
  }

  ghost predicate NoNegativeWeight(weights: map<string, real>) {
    forall f :: f in weights ==> weights[f] >= 0.0
  }

  function CompareByWeight(a: string, b: string, weights: map<string, real>, collate: (string, string) -> int): int {
    if WeightOf(b, weights) < WeightOf(a, weights) then -1
    else if WeightOf(a, weights) < WeightOf(b, weights) then 1
    else collate(a, b)
  }

  function HeaviestFirst(weights: map<string, real>, collate: (string, string) -> int): (string, string) -> int {
    (a, b) => CompareByWeight(a, b, weights, collate)
  }

  /** The files, heaviest first, equal weights in string order. */
  function Weighted(files: seq<string>, weights: map<string, real>, collate: (string, string) -> int): seq<string> {
    StableSort(files, HeaviestFirst(weights, collate))
  }

  function Weights(files: seq<string>, weights: map<string, real>): (w: seq<real>)
    ensures |w| == |files| && forall i :: 0 <= i < |w| ==> w[i] == WeightOf(files[i], weights)
  {
    seq(|files|, i requires 0 <= i < |files| => WeightOf(files[i], weights))
  }

  lemma HeaviestFirstIsTotal(weights: map<string, real>, collate: (string, string) -> int)
    requires Collation(collate)
    ensures TotalPreorder(HeaviestFirst(weights, collate))
  {
    var cmp := HeaviestFirst(weights, collate);
    forall a, b, c | cmp(a, b) <= 0 && cmp(b, c) <= 0 ensures cmp(a, c) <= 0 {
      assert collate(a, b) <= 0 && collate(b, c) <= 0 ==> collate(a, c) <= 0;
    }
    forall a, b ensures cmp(a, b) <= 0 || cmp(b, a) <= 0 {
      assert collate(a, b) <= 0 || collate(b, a) <= 0;
    }
  }

  lemma WeightedDescends(files: seq<string>, weights: map<string, real>, collate: (string, string) -> int)
    requires Collation(collate)
    ensures multiset(Weighted(files, weights, collate)) == multiset(files)
    ensures |Weighted(files, weights, collate)| == |files|
    ensures Descending(Weights(Weighted(files, weights, collate), weights))
  {
    var cmp := HeaviestFirst(weights, collate);
    HeaviestFirstIsTotal(weights, collate);
    SortKeeps(files, cmp);
    SortSorts(files, cmp);
    var s := Weighted(files, weights, collate);
    var w := Weights(s, weights);
    forall i, j | 0 <= i <= j < |w| ensures w[i] >= w[j] {
      if i < j {
        assert cmp(s[i], s[j]) <= 0;
      }
    }
  }

  /** The recorded weight of a file, or one for a file without a record. */
  ghost predicate Weighs(file: string, weights: map<string, real>, x: real) {
    if file in weights then x == weights[file] else x == 1.0
  }

  /** The files stand heaviest first, equal weights by name. */
  lemma WeightedOrder(files: seq<string>, weights: map<string, real>, collate: (string, string) -> int, i: nat, j: nat, x: real, y: real)
    requires Collation(collate) && i < j < |Weighted(files, weights, collate)|
    requires Weighs(Weighted(files, weights, collate)[i], weights, x) && Weighs(Weighted(files, weights, collate)[j], weights, y)
    ensures x > y || (x == y && collate(Weighted(files, weights, collate)[i], Weighted(files, weights, collate)[j]) <= 0)
    ensures Weights(Weighted(files, weights, collate), weights)[i] == x
  {
    var cmp := HeaviestFirst(weights, collate);
    HeaviestFirstIsTotal(weights, collate);
    SortKeeps(files, cmp);
    SortSorts(files, cmp);
    var s := Weighted(files, weights, collate);
    assert cmp(s[i], s[j]) <= 0;
  }

  // ---------- the run of the scheduler ----------

  /** The files among the first `n` that went to bucket `b`, in placement order. */
  function FilesIn(files: seq<string>, c: seq<nat>, n: nat, b: nat): seq<string>
    requires n <= |files| && n <= |c|
  {
    if n == 0 then [] else FilesIn(files, c, n - 1, b) + (if c[n - 1] == b then [files[n - 1]] else [])
  }

  function BucketAfter(files: seq<string>, w: seq<real>, c: seq<nat>, n: nat, b: nat): Bucket
    requires n <= |files| && n <= |c| && n <= |w|
  {
    Bucket(Load(w, c, n, b), FilesIn(files, c, n, b))
  }

  /** Each of the first `n` files went to a bucket that a scan of all buckets finds least. */
  ghost predicate LeastChoices(files: seq<string>, w: seq<real>, c: seq<nat>, m: nat, n: nat) {
    && n <= |files| && n <= |c| && n <= |w|
    && (forall i :: 0 <= i < n ==> c[i] < m)
    && forall i, b {:trigger BucketAfter(files, w, c, i, b)} :: 0 <= i < n && 0 <= b < m ==>
        !BucketLess(Some(BucketAfter(files, w, c, i, b)), Some(BucketAfter(files, w, c, i, c[i])))
  }

  lemma {:induction false} AfterPrefix(files: seq<string>, w: seq<real>, c: seq<nat>, d: seq<nat>, n: nat, b: nat)
    requires n <= |files| && n <= |c| && n <= |w| && n <= |d|
    requires forall i :: 0 <= i < n ==> c[i] == d[i]
    ensures BucketAfter(files, w, c, n, b) == BucketAfter(files, w, d, n, b)
  {
    if n > 0 {
      AfterPrefix(files, w, c, d, n - 1, b);
    }
  }

  lemma ChoiceAppended(files: seq<string>, w: seq<real>, c: seq<nat>, m: nat, x: nat)
    requires |c| < |files| && |c| < |w|
    requires LeastChoices(files, w, c, m, |c|) && x < m
    requires forall b :: 0 <= b < m ==>
      !BucketLess(Some(BucketAfter(files, w, c, |c|, b)), Some(BucketAfter(files, w, c, |c|, x)))
    ensures LeastChoices(files, w, c + [x], m, |c| + 1)
  {
    var d := c + [x];
    forall i, b | 0 <= i < |d| && 0 <= b < m
      ensures !BucketLess(Some(BucketAfter(files, w, d, i, b)), Some(BucketAfter(files, w, d, i, d[i])))
    {
      AfterPrefix(files, w, c, d, i, b);
      AfterPrefix(files, w, c, d, i, d[i]);
    }
  }

  lemma {:induction false} CountOfFiles(files: seq<string>, c: seq<nat>, n: nat, b: nat)
    requires n <= |files| && n <= |c|
    ensures |FilesIn(files, c, n, b)| == Count(c, n, b)
  {
    if n > 0 {
      CountOfFiles(files, c, n - 1, b);
    }
  }

  /** The bucket of file `i` had a smaller sum than bucket `b` at that moment, or the same and no more files. */
  ghost predicate LeanerThan(w: seq<real>, c: seq<nat>, i: nat, b: nat)
    requires i < |c| && i <= |w|
  {
    || Load(w, c, i, c[i]) < Load(w, c, i, b)
    || (Load(w, c, i, c[i]) == Load(w, c, i, b) && Count(c, i, c[i]) <= Count(c, i, b))
  }

  /** A file went to a bucket of the least sum at that moment, and among those to one with the fewest files. */
  ghost predicate Leanest(w: seq<real>, c: seq<nat>, m: nat, i: nat)
    requires i < |c| && i <= |w|
  {
    c[i] < m && forall b :: 0 <= b < m ==> LeanerThan(w, c, i, b)
  }

  /** The schedules are those that always choose the leanest bucket. */
  lemma ChoicesAreLeanest(files: seq<string>, w: seq<real>, c: seq<nat>, m: nat)
    requires |c| == |w| == |files|
    ensures LeastChoices(files, w, c, m, |c|) <==> forall i :: 0 <= i < |c| ==> Leanest(w, c, m, i)
  {
    hide Load, Count, BucketLess, BucketAfter;
    if LeastChoices(files, w, c, m, |c|) {
      forall i, b | 0 <= i < |c| && 0 <= b < m ensures LeanerThan(w, c, i, b) {
        LessMeans(files, w, c, i, b);
      }
    }
    if forall i :: 0 <= i < |c| ==> Leanest(w, c, m, i) {
      forall i | 0 <= i < |c| ensures c[i] < m {
        assert Leanest(w, c, m, i);
      }
      forall i, b {:trigger BucketAfter(files, w, c, i, b)} | 0 <= i < |c| && 0 <= b < m
        ensures !BucketLess(Some(BucketAfter(files, w, c, i, b)), Some(BucketAfter(files, w, c, i, c[i])))
      {
        LessMeans(files, w, c, i, b);
        assert Leanest(w, c, m, i) && LeanerThan(w, c, i, b);
      }
    }
  }

  lemma LessMeans(files: seq<string>, w: seq<real>, c: seq<nat>, i: nat, b: nat)
    requires |c| == |w| == |files| && i < |c|
    ensures !BucketLess(Some(BucketAfter(files, w, c, i, b)), Some(BucketAfter(files, w, c, i, c[i]))) <==> LeanerThan(w, c, i, b)
  {
    CountOfFiles(files, c, i, b);
    CountOfFiles(files, c, i, c[i]);
  }

  /** Least by weight and count is in particular least by weight. */
  lemma LeastIsGreedy(files: seq<string>, w: seq<real>, c: seq<nat>, m: nat)
    requires |c| == |w| == |files| && LeastChoices(files, w, c, m, |c|)
    ensures Greedy(w, c, m)
  {
    forall i, b {:trigger Load(w, c, i, b)} | 0 <= i < |w| && 0 <= b < m ensures Load(w, c, i, c[i]) <= Load(w, c, i, b) {
      assert !BucketLess(Some(BucketAfter(files, w, c, i, b)), Some(BucketAfter(files, w, c, i, c[i])));
    }
  }

  datatype PartitionError =
    | InvalidPartitionCount
    | HeapIndexOutOfBounds
    | EmptyPartition(index: nat)

  /** The partitions as the scheduler leaves them after the choices `c`. */
  ghost predicate Scheduled(files: seq<string>, w: seq<real>, c: seq<nat>, m: nat, lists: seq<seq<string>>) {
    && |c| == |files| == |w| && LeastChoices(files, w, c, m, |c|)
    && |lists| == m
    && forall b :: 0 <= b < m ==> lists[b] == FilesIn(files, c, |c|, b)
  }

  /** After the choices `c`: every bucket holds what was given to it, and the heap is in order. */
  ghost predicate Placed(files: seq<string>, w: seq<real>, c: seq<nat>, buckets: seq<Bucket>, heap: seq<nat>) {
    && LeastChoices(files, w, c, |buckets|, |c|)
    && HeapOrdered(buckets, heap)
    && forall b :: 0 <= b < |buckets| ==> buckets[b] == BucketAfter(files, w, c, |c|, b)
  }

  /** The bucket at the root takes the next file. */
  function Grown(bucket: Bucket, file: string, weight: real): Bucket {
    Bucket(bucket.sum + weight, bucket.files + [file])
  }

  lemma PlacedNext(files: seq<string>, w: seq<real>, c: seq<nat>, buckets: seq<Bucket>, heap: seq<nat>)
    requires Placed(files, w, c, buckets, heap) && |c| < |files| && |c| < |w| && heap != []
    ensures heap[0] < |buckets|
    ensures var after := buckets[heap[0] := Grown(buckets[heap[0]], files[|c|], w[|c|])];
            && LeastChoices(files, w, c + [heap[0]], |buckets|, |c| + 1)
            && HeapExcept(after, heap, 0)
            && forall b :: 0 <= b < |buckets| ==> after[b] == BucketAfter(files, w, c + [heap[0]], |c| + 1, b)
  {
    hide LeastChoices, HeapOrdered, HeapExcept, BucketAfter, BucketLess, NotLess;
    HeapRoot(buckets, heap);
    var after := buckets[heap[0] := Grown(buckets[heap[0]], files[|c|], w[|c|])];
    RootIsBest(buckets, heap, files, w, c);
    ChoiceAppended(files, w, c, |buckets|, heap[0]);
    RootGrew(buckets, after, heap);
    PlacedOne(buckets, after, files, w, c, heap[0]);
  }

  lemma HeapRoot(buckets: seq<Bucket>, heap: seq<nat>)
    requires HeapOrdered(buckets, heap) && heap != []
    ensures heap[0] < |buckets|
  {
  }

  lemma RootIsBest(buckets: seq<Bucket>, heap: seq<nat>, files: seq<string>, w: seq<real>, c: seq<nat>)
    requires HeapOrdered(buckets, heap) && heap != [] && heap[0] < |buckets|
    requires |c| <= |files| && |c| <= |w|
    requires forall b :: 0 <= b < |buckets| ==> buckets[b] == BucketAfter(files, w, c, |c|, b)
    ensures forall b :: 0 <= b < |buckets| ==>
      !BucketLess(Some(BucketAfter(files, w, c, |c|, b)), Some(BucketAfter(files, w, c, |c|, heap[0])))
  {
    forall b | 0 <= b < |buckets|
      ensures !BucketLess(Some(BucketAfter(files, w, c, |c|, b)), Some(BucketAfter(files, w, c, |c|, heap[0])))
    {
      RootIsLeast(buckets, heap, b);
    }
  }

  lemma PlacedOne(before: seq<Bucket>, after: seq<Bucket>, files: seq<string>, w: seq<real>, c: seq<nat>, top: nat)
    requires |c| < |files| && |c| < |w| && top < |before|
    requires forall b :: 0 <= b < |before| ==> before[b] == BucketAfter(files, w, c, |c|, b)
    requires after == before[top := Grown(before[top], files[|c|], w[|c|])]
    ensures forall b :: 0 <= b < |before| ==> after[b] == BucketAfter(files, w, c + [top], |c| + 1, b)
  {
    forall b | 0 <= b < |before| ensures after[b] == BucketAfter(files, w, c + [top], |c| + 1, b) {
      AfterPrefix(files, w, c, c + [top], |c|, b);
    }
  }

  function FilesOf(buckets: seq<Bucket>): (lists: seq<seq<string>>)
    ensures |lists| == |buckets| && forall b :: 0 <= b < |buckets| ==> lists[b] == buckets[b].files
  {
    seq(|buckets|, b requires 0 <= b < |buckets| => buckets[b].files)
  }

  lemma NothingPlaced(files: seq<string>, w: seq<real>, buckets: seq<Bucket>, heap: seq<nat>)
    requires |heap| == |buckets| && forall b :: 0 <= b < |buckets| ==> buckets[b] == Bucket(0.0, []) && heap[b] == b
    ensures Placed(files, w, [], buckets, heap)
  {
  }

  datatype Scheduler = Scheduler(buckets: seq<Bucket>, heap: seq<nat>)

  /** The buckets and the heap of `m` partitions after the first `n` files. */
  ghost function SchedulerAfter(files: seq<string>, w: seq<real>, m: nat, n: nat): Scheduler
    requires n <= |files| && n <= |w|
  {
    if n == 0 then Scheduler(seq(m, _ => Bucket(0.0, [])), seq(m, i => i))
    else
      var before := SchedulerAfter(files, w, m, n - 1);
      if before.heap == [] || before.heap[0] >= |before.buckets| then before
      else
        var top := before.heap[0];
        var buckets := before.buckets[top := Grown(before.buckets[top], files[n - 1], w[n - 1])];
        Scheduler(buckets, Sifted(buckets, before.heap, 0))
  }

  /** Hands the sorted files out one by one, each to the bucket at the root of the heap. */
  method Distribute(weighted: seq<string>, weights: map<string, real>, buckets: array<Bucket>, heap: array<nat>)
    returns (ghost c: seq<nat>)
    requires heap.Length > 0 && Placed(weighted, Weights(weighted, weights), [], buckets[..], heap[..])
    requires Scheduler(buckets[..], heap[..]) == SchedulerAfter(weighted, Weights(weighted, weights), heap.Length, 0)
    modifies buckets, heap
    ensures |c| == |weighted| && Placed(weighted, Weights(weighted, weights), c, buckets[..], heap[..])
    ensures Scheduler(buckets[..], heap[..]) == SchedulerAfter(weighted, Weights(weighted, weights), heap.Length, |weighted|)
  {
    hide LeastChoices, HeapOrdered, HeapExcept, BucketAfter;
    ghost var w := Weights(weighted, weights);
    c := [];
    for k := 0 to |weighted|
      invariant |c| == k && Placed(weighted, w, c, buckets[..], heap[..])
      invariant Scheduler(buckets[..], heap[..]) == SchedulerAfter(weighted, w, heap.Length, k)
    {
      var file := weighted[k];
      PlacedNext(weighted, w, c, buckets[..], heap[..]);
      ghost var before := buckets[..];
      var top := heap[0];
      buckets[top] := Grown(buckets[top], file, WeightOf(file, weights));
      assert buckets[..] == before[top := Grown(before[top], file, w[k])];
      c := c + [top];
      SiftDown(buckets, heap, 0);
    }
  }

  /** The partitions the heap comes to. */
  ghost function Partitions(files: seq<string>, weights: map<string, real>, m: nat, collate: (string, string) -> int): seq<seq<string>> {
    var sorted := Weighted(files, weights, collate);
    FilesOf(SchedulerAfter(sorted, Weights(sorted, weights), m, |sorted|).buckets)
  }

  /** The published interface: one file list per partition. */
  method AssignWeightedPartitions(
    files: seq<string>, weights: map<string, real>, partitions: nat, collate: (string, string) -> int)
    returns (r: Result<seq<seq<string>>, PartitionError>)
    requires Collation(collate)
    ensures r.Failure? <==> files != [] && partitions == 0
    ensures r.Failure? ==> r.error == HeapIndexOutOfBounds
    ensures r.Success? ==>
      var sorted := Weighted(files, weights, collate);
      exists c :: Scheduled(sorted, Weights(sorted, weights), c, partitions, r.value)
    ensures r.Success? ==>
      r.value == Partitions(files, weights, partitions, collate)
  {
    var weighted := Weighted(files, weights, collate);
    ghost var w := Weights(weighted, weights);
    SortKeeps(files, HeaviestFirst(weights, collate));
    if files == [] {
      var empty := seq(partitions, _ => []);
      assert Scheduled(weighted, w, [], partitions, empty);
      return Success(empty);
    }
    if partitions == 0 {
      return Failure(HeapIndexOutOfBounds);
    }
    var buckets := new Bucket[partitions](_ => Bucket(0.0, []));
    var heap := new nat[partitions](i => i);
    NothingPlaced(weighted, w, buckets[..], heap[..]);
    ghost var c := Distribute(weighted, weights, buckets, heap);
    hide SchedulerAfter, LeastChoices, HeapOrdered, BucketAfter, Weighted, Weights, HeaviestFirst;
    var lists := seq(partitions, i requires 0 <= i < buckets.Length reads buckets => buckets[i].files);
    assert lists == FilesOf(buckets[..]);
    assert forall b :: 0 <= b < partitions ==> lists[b] == buckets[..][b].files;
    assert Scheduled(weighted, w, c, partitions, lists);
    r := Success(lists);
  }
}
