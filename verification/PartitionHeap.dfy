/** The index heap over partition buckets: scripts/coverage-partitions.ts, siftDown and bucketLess. */
module PartitionHeap {
  import opened Wrappers
  import opened LptBound

  datatype Bucket = Bucket(sum: real, files: seq<string>)

  function BucketAt(buckets: seq<Bucket>, heap: seq<nat>, index: nat): Option<Bucket> {
    if index < |heap| && heap[index] < |buckets| then Some(buckets[heap[index]]) else None
  }

  /** By total weight, then by file count; a present bucket comes before an absent one. */
  predicate BucketLess(left: Option<Bucket>, right: Option<Bucket>) {
    if left.None? || right.None? then left.Some?
    else if left.value.sum != right.value.sum then left.value.sum < right.value.sum
    else |left.value.files| < |right.value.files|
  }

  /** `heap` lists every bucket index below `n` once. */
  ghost predicate Permutation(heap: seq<nat>, n: nat) {
    && |heap| == n
    && (forall i :: 0 <= i < n ==> heap[i] < n)
    && forall i, j :: 0 <= i < j < n ==> heap[i] != heap[j]
  }

  ghost predicate NotLess(buckets: seq<Bucket>, a: nat, b: nat)
    requires a < |buckets| && b < |buckets|
  {
    !BucketLess(Some(buckets[a]), Some(buckets[b]))
  }

  function Parent(i: nat): nat
    requires i > 0
  {
    (i - 1) / 2
  }

  /** No heap entry is less than its parent. */
  ghost predicate HeapOrdered(buckets: seq<Bucket>, heap: seq<nat>) {
    && Permutation(heap, |buckets|)
    && forall i {:trigger heap[i]} :: 0 < i < |heap| ==> NotLess(buckets, heap[i], heap[Parent(i)])
  }

  /** The same, except that the entry at `hole` may exceed its children. */
  ghost predicate HeapExcept(buckets: seq<Bucket>, heap: seq<nat>, hole: nat) {
    && Permutation(heap, |buckets|)
    && (forall i {:trigger heap[i]} :: 0 < i < |heap| && Parent(i) != hole ==> NotLess(buckets, heap[i], heap[Parent(i)]))
    && (forall i {:trigger heap[i]} :: 0 < i < |heap| && Parent(i) == hole && hole > 0 ==> NotLess(buckets, heap[i], heap[Parent(hole)]))
  }

  function Swap(heap: seq<nat>, i: nat, j: nat): seq<nat>
    requires i < |heap| && j < |heap|
  {
    heap[i := heap[j]][j := heap[i]]
  }

  lemma SwapPermutes(heap: seq<nat>, n: nat, i: nat, j: nat)
    requires Permutation(heap, n) && i < n && j < n
    ensures Permutation(Swap(heap, i, j), n)
  {
  }

  /** Swapping the hole with its least child moves the hole down. */
  lemma HoleMoves(buckets: seq<Bucket>, heap: seq<nat>, hole: nat, child: nat, other: nat)
    requires HeapExcept(buckets, heap, hole)
    requires 0 < child < |heap| && Parent(child) == hole
    requires other != child && other > 0 && Parent(other) == hole
    requires BucketLess(Some(buckets[heap[child]]), Some(buckets[heap[hole]]))
    requires other < |heap| ==> NotLess(buckets, heap[other], heap[child])
    ensures HeapExcept(buckets, Swap(heap, hole, child), child)
  {
    SwapPermutes(heap, |buckets|, hole, child);
    var h := Swap(heap, hole, child);
    forall i | 0 < i < |h| && Parent(i) != child ensures NotLess(buckets, h[i], h[Parent(i)]) {
      if Parent(i) == hole {
        assert i == child || i == other;
      } else if i == hole {
        assert NotLess(buckets, heap[child], heap[Parent(hole)]);
      } else {
        assert h[i] == heap[i] && h[Parent(i)] == heap[Parent(i)];
      }
    }
    forall i | 0 < i < |h| && Parent(i) == child ensures NotLess(buckets, h[i], h[Parent(child)]) {
      assert h[i] == heap[i] && h[hole] == heap[child];
      assert NotLess(buckets, heap[i], heap[Parent(i)]);
    }
  }

  /** A hole not less than either child is no hole. */
  lemma HoleFits(buckets: seq<Bucket>, heap: seq<nat>, hole: nat)
    requires HeapExcept(buckets, heap, hole) && hole < |heap|
    requires 2 * hole + 1 < |heap| ==> NotLess(buckets, heap[2 * hole + 1], heap[hole])
    requires 2 * hole + 2 < |heap| ==> NotLess(buckets, heap[2 * hole + 2], heap[hole])
    ensures HeapOrdered(buckets, heap)
  {
    forall i | 0 < i < |heap| ensures NotLess(buckets, heap[i], heap[Parent(i)]) {
      if Parent(i) == hole {
        assert i == 2 * hole + 1 || i == 2 * hole + 2;
      }
    }
  }

  predicate LessAt(buckets: seq<Bucket>, heap: seq<nat>, i: nat, j: nat) {
    i < |heap| && j < |heap| && BucketLess(BucketAt(buckets, heap, i), BucketAt(buckets, heap, j))
  }

  /** The left child when it is less than the entry at `i` and the right child is not less than it, the right child when it is less than both. */
  function Smallest(buckets: seq<Bucket>, heap: seq<nat>, i: nat): (k: nat)
    ensures k == i || k == 2 * i + 1 || k == 2 * i + 2
  {
    var left, right := 2 * i + 1, 2 * i + 2;
    if LessAt(buckets, heap, right, i) && (LessAt(buckets, heap, left, i) ==> LessAt(buckets, heap, right, left)) then right
    else if LessAt(buckets, heap, left, i) then left
    else i
  }

  /** The heap after the entry at `i` sank. */
  function Sifted(buckets: seq<Bucket>, heap: seq<nat>, i: nat): seq<nat>
    decreases |heap| - i
  {
    var k := Smallest(buckets, heap, i);
    if k == i || k >= |heap| then heap else Sifted(buckets, Swap(heap, i, k), k)
  }

  lemma SmallestIs(buckets: seq<Bucket>, heap: seq<nat>, i: nat, k: nat)
    requires Permutation(heap, |buckets|) && i < |heap|
    requires var left, right := 2 * i + 1, 2 * i + 2;
      var least := if left < |heap| && BucketLess(BucketAt(buckets, heap, left), BucketAt(buckets, heap, i)) then left else i;
      k == if right < |heap| && BucketLess(BucketAt(buckets, heap, right), BucketAt(buckets, heap, least)) then right else least
    ensures k == Smallest(buckets, heap, i) && k < |heap|
  {
  }

  lemma SiftedStep(buckets: seq<Bucket>, heap: seq<nat>, i: nat)
    ensures var k := Smallest(buckets, heap, i);
      Sifted(buckets, heap, i) == if k == i || k >= |heap| || i >= |heap| then heap else Sifted(buckets, Swap(heap, i, k), k)
  {
  }

  /** Restores the heap below `start`, where alone it may be out of order. */
  method SiftDown(buckets: array<Bucket>, heap: array<nat>, start: nat)
    requires start < heap.Length
    requires HeapExcept(buckets[..], heap[..], start)
    modifies heap
    ensures HeapOrdered(buckets[..], heap[..])
    ensures heap[..] == Sifted(buckets[..], old(heap[..]), start)
  {
    ghost var bs := buckets[..];
    var size := heap.Length;
    var index := start;
    while true
      invariant index < heap.Length
      invariant buckets[..] == bs && HeapExcept(bs, heap[..], index)
      invariant Sifted(bs, heap[..], index) == Sifted(bs, old(heap[..]), start)
      decreases size - index
    {
      var left, right := 2 * index + 1, 2 * index + 2;
      var smallest := index;
      var smallestBucket := BucketAt(buckets[..], heap[..], index);
      var leftBucket := if left < size then BucketAt(buckets[..], heap[..], left) else None;
      var rightBucket := if right < size then BucketAt(buckets[..], heap[..], right) else None;
      if leftBucket.Some? && smallestBucket.Some? && BucketLess(leftBucket, smallestBucket) {
        smallest := left;
        smallestBucket := leftBucket;
      }
      if rightBucket.Some? && smallestBucket.Some? && BucketLess(rightBucket, smallestBucket) {
        smallest := right;
      }
      ghost var before := heap[..];
      SmallestIs(bs, before, index, smallest);
      hide Sifted, Smallest, LessAt;
      SiftedStep(bs, before, index);
      if smallest == index {
        HoleFits(bs, heap[..], index);
        return;
      }
      HoleMoves(bs, before, index, smallest, if smallest == left then right else left);
      var moved, replacement := heap[index], heap[smallest];
      heap[index] := replacement;
      heap[smallest] := moved;
      assert heap[..] == Swap(before, index, smallest);
      index := smallest;
    }
  }

  /** Every bucket index stands somewhere in the heap. */
  lemma HeapHoldsAll(heap: seq<nat>, n: nat, b: nat)
    requires Permutation(heap, n) && b < n
    ensures b in heap
  {
    UsedSizeInjective(heap);
    RangeSize(n);
    RangeHolds(n);
    if b !in Used(heap) {
      assert Used(heap) <= Range(n) - {b};
      SubsetSize(Used(heap), Range(n) - {b});
    }
  }

  lemma {:induction false} RootBelow(buckets: seq<Bucket>, heap: seq<nat>, i: nat)
    requires HeapOrdered(buckets, heap) && i < |heap|
    ensures NotLess(buckets, heap[i], heap[0])
  {
    if i > 0 {
      RootBelow(buckets, heap, Parent(i));
      assert NotLess(buckets, heap[i], heap[Parent(i)]);
    }
  }

  /** The root is a bucket that a scan over all buckets would also find least. */
  lemma RootIsLeast(buckets: seq<Bucket>, heap: seq<nat>, b: nat)
    requires HeapOrdered(buckets, heap) && b < |buckets|
    ensures NotLess(buckets, b, heap[0])
  {
    HeapHoldsAll(heap, |buckets|, b);
    var i :| 0 <= i < |heap| && heap[i] == b;
    RootBelow(buckets, heap, i);
  }

  /** When only the root bucket changed, the heap is in order but for the root. */
  lemma RootGrew(before: seq<Bucket>, after: seq<Bucket>, heap: seq<nat>)
    requires HeapOrdered(before, heap) && |after| == |before| && heap != []
    requires forall b :: 0 <= b < |before| && b != heap[0] ==> after[b] == before[b]
    ensures HeapExcept(after, heap, 0)
  {
    forall i | 0 < i < |heap| && Parent(i) != 0 ensures NotLess(after, heap[i], heap[Parent(i)]) {
      assert heap[i] != heap[0] && heap[Parent(i)] != heap[0];
      assert NotLess(before, heap[i], heap[Parent(i)]);
    }
  }
}
