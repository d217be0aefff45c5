/**
 * Longest-processing-time scheduling: how far the heaviest bucket can be from the best
 * possible one. An assignment gives item `i` of weight `w[i]` to bucket `a[i]` of `m` buckets.
 */
module LptBound {

  ghost predicate Assignment(a: seq<nat>, n: nat, m: nat) {
    |a| == n && forall i :: 0 <= i < n ==> a[i] < m
  }

  ghost predicate NonNegative(w: seq<real>) {
    forall i :: 0 <= i < |w| ==> w[i] >= 0.0
  }

  ghost predicate Descending(w: seq<real>) {
    forall i, j :: 0 <= i <= j < |w| ==> w[i] >= w[j]
  }

  /** The weight bucket `b` holds after the first `n` items. */
  function Load(w: seq<real>, a: seq<nat>, n: nat, b: nat): real
    requires n <= |w| && n <= |a|
  {
    if n == 0 then 0.0 else Load(w, a, n - 1, b) + (if a[n - 1] == b then w[n - 1] else 0.0)
  }

  function Count(a: seq<nat>, n: nat, b: nat): nat
    requires n <= |a|
  {
    if n == 0 then 0 else Count(a, n - 1, b) + (if a[n - 1] == b then 1 else 0)
  }

  function Total(w: seq<real>, n: nat): real
    requires n <= |w|
  {
    if n == 0 then 0.0 else Total(w, n - 1) + w[n - 1]
  }

  /** Each item went to a bucket no heavier than any other at that moment. */
  ghost predicate Greedy(w: seq<real>, c: seq<nat>, m: nat) {
    && Assignment(c, |w|, m)
    && forall i, b {:trigger Load(w, c, i, b)} :: 0 <= i < |w| && 0 <= b < m ==> Load(w, c, i, c[i]) <= Load(w, c, i, b)
  }

  /** `opt` bounds every bucket of the assignment `a`. */
  ghost predicate Within(w: seq<real>, a: seq<nat>, m: nat, opt: real) {
    && Assignment(a, |w|, m)
    && forall b :: 0 <= b < m ==> Load(w, a, |w|, b) <= opt
  }

  // ---------- sums over buckets ----------

  function LoadsBelow(w: seq<real>, a: seq<nat>, n: nat, k: nat): real
    requires n <= |w| && n <= |a|
  {
    if k == 0 then 0.0 else LoadsBelow(w, a, n, k - 1) + Load(w, a, n, k - 1)
  }

  function CountsBelow(a: seq<nat>, n: nat, k: nat): nat
    requires n <= |a|
  {
    if k == 0 then 0 else CountsBelow(a, n, k - 1) + Count(a, n, k - 1)
  }

  lemma {:induction false} LoadsBelowStep(w: seq<real>, a: seq<nat>, n: nat, k: nat)
    requires 0 < n <= |w| && n <= |a|
    ensures LoadsBelow(w, a, n, k) == LoadsBelow(w, a, n - 1, k) + (if a[n - 1] < k then w[n - 1] else 0.0)
  {
    if k > 0 {
      LoadsBelowStep(w, a, n, k - 1);
    }
  }

  /** Conservation: the buckets together hold all the weight. */
  lemma {:induction false} LoadsAreTotal(w: seq<real>, a: seq<nat>, n: nat, m: nat)
    requires n <= |w| && Assignment(a, |w|, m)
    ensures LoadsBelow(w, a, n, m) == Total(w, n)
  {
    if n == 0 {
      NoLoads(w, a, m);
    } else {
      LoadsAreTotal(w, a, n - 1, m);
      LoadsBelowStep(w, a, n, m);
    }
  }

  lemma {:induction false} NoLoads(w: seq<real>, a: seq<nat>, k: nat)
    ensures LoadsBelow(w, a, 0, k) == 0.0
  {
    if k > 0 {
      NoLoads(w, a, k - 1);
    }
  }

  lemma {:induction false} CountsBelowStep(a: seq<nat>, n: nat, k: nat)
    requires 0 < n <= |a|
    ensures CountsBelow(a, n, k) == CountsBelow(a, n - 1, k) + (if a[n - 1] < k then 1 else 0)
  {
    if k > 0 {
      CountsBelowStep(a, n, k - 1);
    }
  }

  lemma {:induction false} CountsAreAll(a: seq<nat>, n: nat, m: nat)
    requires n <= |a| && Assignment(a, |a|, m)
    ensures CountsBelow(a, n, m) == n
  {
    if n == 0 {
      NoCounts(a, m);
    } else {
      CountsAreAll(a, n - 1, m);
      CountsBelowStep(a, n, m);
    }
  }

  lemma {:induction false} NoCounts(a: seq<nat>, k: nat)
    ensures CountsBelow(a, 0, k) == 0
  {
    if k > 0 {
      NoCounts(a, k - 1);
    }
  }

  lemma OneMoreTimes(k: nat, x: real)
    requires k > 0
    ensures k as real * x == (k - 1) as real * x + x
  {
    assert k as real == (k - 1) as real + 1.0;
  }

  /** `k` buckets of at least `x` hold at least `k * x`. */
  lemma {:induction false} LoadsAtLeast(w: seq<real>, a: seq<nat>, n: nat, k: nat, x: real)
    requires n <= |w| && n <= |a|
    requires forall b :: 0 <= b < k ==> x <= Load(w, a, n, b)
    ensures k as real * x <= LoadsBelow(w, a, n, k)
  {
    if k > 0 {
      LoadsAtLeast(w, a, n, k - 1, x);
      OneMoreTimes(k, x);
    }
  }

  lemma {:induction false} LoadsAtMost(w: seq<real>, a: seq<nat>, n: nat, k: nat, x: real)
    requires n <= |w| && n <= |a|
    requires forall b :: 0 <= b < k ==> Load(w, a, n, b) <= x
    ensures LoadsBelow(w, a, n, k) <= k as real * x
  {
    if k > 0 {
      LoadsAtMost(w, a, n, k - 1, x);
      OneMoreTimes(k, x);
    }
  }

  // ---------- single buckets ----------

  lemma {:induction false} LoadGrows(w: seq<real>, a: seq<nat>, n: nat, n': nat, b: nat)
    requires n <= n' <= |w| && n' <= |a| && NonNegative(w)
    ensures Load(w, a, n, b) <= Load(w, a, n', b)
    decreases n'
  {
    if n < n' {
      LoadGrows(w, a, n, n' - 1, b);
    }
  }

  lemma LoadNonNegative(w: seq<real>, a: seq<nat>, n: nat, b: nat)
    requires n <= |w| && n <= |a| && NonNegative(w)
    ensures Load(w, a, n, b) >= 0.0
  {
    LoadGrows(w, a, 0, n, b);
  }

  /** Items of weight at least `v` weigh at least `v` each. */
  lemma {:induction false} LoadByCount(w: seq<real>, a: seq<nat>, n: nat, b: nat, v: real)
    requires n <= |w| && n <= |a|
    requires forall i :: 0 <= i < n ==> v <= w[i]
    ensures Count(a, n, b) as real * v <= Load(w, a, n, b)
  {
    if n > 0 {
      LoadByCount(w, a, n - 1, b, v);
      if a[n - 1] == b {
        OneMoreTimes(Count(a, n, b), v);
      }
    }
  }

  lemma {:induction false} LoadOfUnused(w: seq<real>, a: seq<nat>, n: nat, b: nat)
    requires n <= |w| && n <= |a| && b !in a[..n]
    ensures Load(w, a, n, b) == 0.0
  {
    if n > 0 {
      assert a[..n] == a[..n - 1] + [a[n - 1]];
      LoadOfUnused(w, a, n - 1, b);
    }
  }

  /** A bucket holds at least any one item given to it, and at least any two. */
  lemma {:induction false} LoadHoldsOne(w: seq<real>, a: seq<nat>, n: nat, i: nat)
    requires i < n <= |w| && n <= |a| && NonNegative(w)
    ensures w[i] <= Load(w, a, n, a[i])
  {
    LoadNonNegative(w, a, i, a[i]);
    LoadGrows(w, a, i + 1, n, a[i]);
  }

  lemma {:induction false} LoadHoldsTwo(w: seq<real>, a: seq<nat>, n: nat, i: nat, j: nat)
    requires i < j < n <= |w| && n <= |a| && NonNegative(w) && a[i] == a[j]
    ensures w[i] + w[j] <= Load(w, a, n, a[i])
  {
    LoadHoldsOne(w, a, j, i);
    LoadGrows(w, a, j + 1, n, a[i]);
  }

  /** If only item `i` went to its bucket, the bucket weighs `w[i]`. */
  lemma {:induction false} LoadOfSingle(w: seq<real>, a: seq<nat>, n: nat, i: nat)
    requires i < n <= |w| && n <= |a|
    requires forall k :: 0 <= k < n && k != i ==> a[k] != a[i]
    ensures Load(w, a, n, a[i]) == w[i]
    decreases n
  {
    if n == i + 1 {
      assert a[i] !in a[..i];
      LoadOfUnused(w, a, i, a[i]);
    } else {
      LoadOfSingle(w, a, n - 1, i);
    }
  }

  // ---------- pigeonholes ----------

  function Range(k: nat): set<nat> {
    if k == 0 then {} else Range(k - 1) + {k - 1}
  }

  lemma {:induction false} InRange(k: nat, b: nat)
    ensures b in Range(k) <==> b < k
  {
    if k > 0 {
      InRange(k - 1, b);
    }
  }

  lemma RangeHolds(k: nat)
    ensures forall b: nat {:trigger b in Range(k)} :: b in Range(k) <==> b < k
  {
    forall b: nat ensures b in Range(k) <==> b < k {
      InRange(k, b);
    }
  }

  lemma {:induction false} RangeSize(k: nat)
    ensures |Range(k)| == k
  {
    if k > 0 {
      RangeSize(k - 1);
      InRange(k - 1, k - 1);
    }
  }

  function Used(a: seq<nat>): set<nat> {
    set x | x in a
  }

  lemma {:induction false} UsedSize(a: seq<nat>)
    ensures |Used(a)| <= |a|
  {
    if a != [] {
      var rest := a[..|a| - 1];
      UsedSize(rest);
      assert a == rest + [a[|a| - 1]];
      assert Used(a) == Used(rest) + {a[|a| - 1]};
    }
  }

  lemma {:induction false} UsedSizeInjective(a: seq<nat>)
    requires forall i, j :: 0 <= i < j < |a| ==> a[i] != a[j]
    ensures |Used(a)| == |a|
  {
    if a != [] {
      var rest := a[..|a| - 1];
      UsedSizeInjective(rest);
      assert a == rest + [a[|a| - 1]];
      assert Used(a) == Used(rest) + {a[|a| - 1]};
    }
  }

  /** Fewer items than buckets leave a bucket unused. */
  lemma UnusedBucket(a: seq<nat>, m: nat) returns (b: nat)
    requires |a| < m
    ensures b < m && b !in a
  {
    UsedSize(a);
    RangeSize(m);
    RangeHolds(m);
    if Range(m) <= Used(a) {
      SubsetSize(Range(m), Used(a));
    }
    b :| b in Range(m) && b !in Used(a);
  }

  lemma SubsetSize(s: set<nat>, t: set<nat>)
    requires s <= t
    ensures |s| <= |t|
  {
    assert t == s + (t - s);
  }

  /** A longer injective list has an entry the shorter list lacks. */
  lemma FreshEntry(long: seq<nat>, short: seq<nat>) returns (i: nat)
    requires |short| < |long|
    requires forall i, j :: 0 <= i < j < |long| ==> long[i] != long[j]
    ensures i < |long| && long[i] !in short
  {
    UsedSizeInjective(long);
    UsedSize(short);
    if Used(long) <= Used(short) {
      SubsetSize(Used(long), Used(short));
    }
    var b :| b in Used(long) && b !in Used(short);
    i :| 0 <= i < |long| && long[i] == b;
  }

  // ---------- the bound ----------

  /** Bucket `b` received item `j` last; without an item it is empty. */
  lemma {:induction false} LastItem(w: seq<real>, c: seq<nat>, n: nat, b: nat) returns (j: nat)
    requires n <= |w| && n <= |c|
    ensures j <= n
    ensures j == n ==> Load(w, c, n, b) == 0.0
    ensures j < n ==> c[j] == b && Load(w, c, n, b) == Load(w, c, j, b) + w[j]
  {
    if n == 0 {
      j := 0;
    } else if c[n - 1] == b {
      j := n - 1;
    } else {
      j := LastItem(w, c, n - 1, b);
      if j == n - 1 {
        j := n;
      }
    }
  }

  lemma GreedyAt(w: seq<real>, c: seq<nat>, m: nat, j: nat)
    requires Greedy(w, c, m) && j < |w|
    ensures Assignment(c, |w|, m) && |c| == |w| && c[j] < m
    ensures forall b :: 0 <= b < m ==> Load(w, c, j, c[j]) <= Load(w, c, j, b)
  {
    hide Load;
  }

  /** The lightest bucket weighs at most the average. */
  lemma GreedyBelowAverage(w: seq<real>, c: seq<nat>, m: nat, j: nat)
    requires Greedy(w, c, m) && j < |w|
    ensures m as real * Load(w, c, j, c[j]) <= Total(w, j)
  {
    hide *;
    GreedyAt(w, c, m, j);
    LoadsAtLeast(w, c, j, m, Load(w, c, j, c[j]));
    LoadsAreTotal(w, c, j, m);
  }

  /** `m` buckets within `opt` hold at most `m * opt` of any first items. */
  lemma TotalWithin(w: seq<real>, a: seq<nat>, m: nat, opt: real, n: nat)
    requires NonNegative(w) && Within(w, a, m, opt) && n <= |w|
    ensures Total(w, n) <= m as real * opt
  {
    forall b | 0 <= b < m ensures Load(w, a, n, b) <= opt {
      LoadGrows(w, a, n, |w|, b);
    }
    LoadsAtMost(w, a, n, m, opt);
    LoadsAreTotal(w, a, n, m);
  }

  lemma OneItemWithin(w: seq<real>, a: seq<nat>, m: nat, opt: real, i: nat)
    requires NonNegative(w) && Within(w, a, m, opt) && i < |w|
    ensures w[i] <= opt
  {
    LoadHoldsOne(w, a, |w|, i);
  }

  /**
   * Small last item: with `w[j]` at most a third of the optimum, averaging gives the bound.
   * `load` is the bucket's weight before item `j`.
   */
  lemma SmallItemBound(m: real, opt: real, load: real, total: real, x: real)
    requires m >= 1.0
    requires m * load <= total && total + x <= m * opt && 3.0 * x <= opt
    ensures 3.0 * m * (load + x) <= (4.0 * m - 1.0) * opt
  {
    assert m * (load + x) == m * load + m * x;
    assert m * (load + x) <= m * opt + (m - 1.0) * x;
    assert 3.0 * ((m - 1.0) * x) == (m - 1.0) * (3.0 * x);
    assert (m - 1.0) * (3.0 * x) <= (m - 1.0) * opt;
    assert (4.0 * m - 1.0) * opt == 3.0 * (m * opt) + (m - 1.0) * opt;
    assert 3.0 * m * (load + x) == 3.0 * (m * (load + x));
  }

  lemma OptimalBound(m: real, opt: real, s: real)
    requires m >= 1.0 && s <= opt && opt >= 0.0
    ensures 3.0 * m * s <= (4.0 * m - 1.0) * opt
  {
    assert 3.0 * m * s <= 3.0 * m * opt;
    assert (4.0 * m - 1.0) * opt == 3.0 * m * opt + (m - 1.0) * opt;
    assert (m - 1.0) * opt >= 0.0;
  }

  ghost predicate AtMostTwice(a: seq<nat>, n: nat, m: nat)
    requires n <= |a|
  {
    forall b :: 0 <= b < m ==> Count(a, n, b) <= 2
  }

  /** Three items above a third of `opt` do not fit one bucket. */
  lemma AtMostTwo(w: seq<real>, a: seq<nat>, m: nat, opt: real, j: nat)
    requires NonNegative(w) && Descending(w) && Within(w, a, m, opt) && j < |w|
    requires 3.0 * w[j] > opt
    ensures AtMostTwice(a, j + 1, m)
  {
    var n := j + 1;
    forall b | 0 <= b < m ensures Count(a, n, b) <= 2 {
      LoadByCount(w, a, n, b, w[j]);
      LoadGrows(w, a, n, |w|, b);
      FewerThanThree(Count(a, n, b), w[j], opt);
    }
  }

  lemma FewerThanThree(count: nat, x: real, opt: real)
    requires x >= 0.0 && count as real * x <= opt < 3.0 * x
    ensures count <= 2
  {
    if count >= 3 {
      ThriceAtLeast(count, x);
    }
  }

  lemma ThriceAtLeast(count: nat, x: real)
    requires count >= 3 && x >= 0.0
    ensures 3.0 * x <= count as real * x
  {
  }

  function Cap(alone: set<nat>, b: nat): nat {
    if b in alone then 1 else 2
  }

  function CapsBelow(alone: set<nat>, k: nat): nat {
    if k == 0 then 0 else CapsBelow(alone, k - 1) + Cap(alone, k - 1)
  }

  lemma {:induction false} CountsBounded(a: seq<nat>, n: nat, k: nat, alone: set<nat>)
    requires n <= |a|
    requires forall b :: 0 <= b < k ==> Count(a, n, b) <= Cap(alone, b)
    ensures CountsBelow(a, n, k) <= CapsBelow(alone, k)
  {
    if k > 0 {
      CountsBounded(a, n, k - 1, alone);
    }
  }

  lemma {:induction false} CapsAreTwice(alone: set<nat>, k: nat)
    ensures CapsBelow(alone, k) + |alone * Range(k)| == 2 * k
  {
    if k == 0 {
      assert alone * {} == {};
    } else {
      CapsAreTwice(alone, k - 1);
      InRange(k - 1, k - 1);
      AddMember(alone, Range(k - 1), k - 1);
    }
  }

  lemma AddMember(s: set<nat>, t: set<nat>, x: nat)
    requires x !in t
    ensures |s * (t + {x})| == |s * t| + if x in s then 1 else 0
  {
    if x in s {
      assert s * (t + {x}) == s * t + {x};
    } else {
      assert s * (t + {x}) == s * t;
    }
  }

  lemma {:induction false} CountOfLonely(a: seq<nat>, n: nat, i: nat)
    requires i < n <= |a|
    requires forall k :: 0 <= k < n && k != i ==> a[k] != a[i]
    ensures Count(a, n, a[i]) == 1
    decreases n
  {
    if n == i + 1 {
      CountOfAbsent(a, i, a[i]);
    } else {
      CountOfLonely(a, n - 1, i);
    }
  }

  lemma {:induction false} CountOfAbsent(a: seq<nat>, n: nat, b: nat)
    requires n <= |a| && forall k :: 0 <= k < n ==> a[k] != b
    ensures Count(a, n, b) == 0
  {
    if n > 0 {
      CountOfAbsent(a, n - 1, b);
    }
  }

  /**
   * With at most two of the first `j + 1` items in each of `m <= j` buckets, one of the
   * first `2m - j` items shares its bucket.
   */
  lemma SharedBucket(a: seq<nat>, m: nat, j: nat) returns (p: nat, q: nat)
    requires Assignment(a, |a|, m) && m <= j < |a| && j < 2 * m
    requires AtMostTwice(a, j + 1, m)
    ensures p < 2 * m - j && q <= j && p != q && a[p] == a[q]
  {
    CountsAreAll(a, j + 1, m);
    if forall p, q :: 0 <= p < 2 * m - j && 0 <= q <= j && p != q ==> a[p] != a[q] {
      NoSharedBucket(a, m, j);
    }
    p, q :| 0 <= p < 2 * m - j && 0 <= q <= j && p != q && a[p] == a[q];
  }

  lemma NoSharedBucket(a: seq<nat>, m: nat, j: nat)
    requires Assignment(a, |a|, m) && m <= j < |a| && j < 2 * m
    requires AtMostTwice(a, j + 1, m)
    requires forall p, q :: 0 <= p < 2 * m - j && 0 <= q <= j && p != q ==> a[p] != a[q]
    ensures CountsBelow(a, j + 1, m) <= j
  {
    var first := a[..2 * m - j];
    var alone := Used(first);
    UsedSizeInjective(first);
    forall b | 0 <= b < m ensures Count(a, j + 1, b) <= Cap(alone, b) {
      if b in alone {
        var p :| 0 <= p < |first| && first[p] == b;
        CountOfLonely(a, j + 1, p);
      }
    }
    CountsBounded(a, j + 1, m, alone);
    CapsAreTwice(alone, m);
    assert alone * Range(m) == alone by {
      forall b | b in alone ensures b in Range(m) {
        var p :| 0 <= p < |first| && first[p] == b;
        InRange(m, a[p]);
      }
    }
  }

  /** Of positive items, the first `m` go to different buckets. */
  lemma FirstItemsSpread(w: seq<real>, c: seq<nat>, m: nat, i: nat, k: nat)
    requires NonNegative(w) && Greedy(w, c, m) && k < i < m && i < |w| && w[k] > 0.0
    ensures c[k] != c[i]
  {
    var b := UnusedBucket(c[..i], m);
    LoadOfUnused(w, c, i, b);
    LoadHoldsOne(w, c, i, k);
  }

  /**
   * Large last item: above a third of the optimum, the greedy bucket of item `j` stays
   * within the optimum.
   */
  lemma LargeItemWithin(w: seq<real>, c: seq<nat>, a: seq<nat>, m: nat, opt: real, j: nat)
    requires NonNegative(w) && Descending(w) && Greedy(w, c, m) && Within(w, a, m, opt)
    requires j < |w| && 3.0 * w[j] > opt
    ensures Load(w, c, j, c[j]) + w[j] <= opt
  {
    OneItemWithin(w, a, m, opt, j);
    if j < m {
      var b := UnusedBucket(c[..j], m);
      LoadOfUnused(w, c, j, b);
      assert Load(w, c, j, c[j]) <= Load(w, c, j, b);
    } else {
      AtMostTwo(w, a, m, opt, j);
      TwicePerBucket(a, m, j);
      var i := LightBucket(w, c, m, j);
      var p, q := SharedBucket(a, m, j);
      PairWithin(w, a, m, opt, p, q);
      assert w[p] >= w[2 * m - 1 - j] >= w[i] && w[q] >= w[j];
    }
  }

  lemma TwicePerBucket(a: seq<nat>, m: nat, j: nat)
    requires Assignment(a, |a|, m) && j < |a|
    requires AtMostTwice(a, j + 1, m)
    ensures j < 2 * m
  {
    CountsBounded(a, j + 1, m, {});
    CapsAreTwice({}, m);
    CountsAreAll(a, j + 1, m);
  }

  lemma PairWithin(w: seq<real>, a: seq<nat>, m: nat, opt: real, p: nat, q: nat)
    requires NonNegative(w) && Within(w, a, m, opt)
    requires p < |w| && q < |w| && p != q && a[p] == a[q]
    ensures w[p] + w[q] <= opt
  {
    if p < q {
      LoadHoldsTwo(w, a, |w|, p, q);
    } else {
      LoadHoldsTwo(w, a, |w|, q, p);
    }
  }

  /** Before item `j`, some bucket holds just one item, from the last `j - m + 1` of the first `m`. */
  lemma LightBucket(w: seq<real>, c: seq<nat>, m: nat, j: nat) returns (i: nat)
    requires NonNegative(w) && Descending(w) && Greedy(w, c, m)
    requires m <= j < |w| && j < 2 * m && w[j] > 0.0
    ensures 2 * m - 1 - j <= i < m && Load(w, c, j, c[j]) <= w[i]
  {
    var from := 2 * m - 1 - j;
    forall k, l | 0 <= k < l < m ensures c[k] != c[l] {
      assert w[k] >= w[j];
      FirstItemsSpread(w, c, m, l, k);
    }
    var late, early := c[m..j], c[from..m];
    forall k, l | 0 <= k < l < |early| ensures early[k] != early[l] {
      assert early[k] == c[from + k] && early[l] == c[from + l];
    }
    var e := FreshEntry(early, late);
    i := from + e;
    forall k | 0 <= k < j && k != i ensures c[k] != c[i] {
      if k >= m {
        assert c[k] == late[k - m];
      }
    }
    LoadOfSingle(w, c, j, i);
    assert Load(w, c, j, c[j]) <= Load(w, c, j, c[i]);
  }

  lemma Bounds(w: seq<real>, c: seq<nat>, a: seq<nat>, m: nat, opt: real, b: nat)
    requires NonNegative(w) && Greedy(w, c, m) && Within(w, a, m, opt) && b < m
    ensures |c| == |w| && m as real >= 1.0 && opt >= 0.0
    ensures forall j :: 0 <= j < |w| ==> Total(w, j + 1) == Total(w, j) + w[j]
  {
    hide Greedy;
    GreedyLength(w, c, m);
    LoadNonNegative(w, a, |w|, b);
  }

  lemma GreedyLength(w: seq<real>, c: seq<nat>, m: nat)
    requires Greedy(w, c, m)
    ensures |c| == |w|
  {
    hide Load;
  }

  /**
   * Graham's bound: items placed heaviest first, each into a lightest bucket, load no bucket
   * beyond `(4m - 1) / 3m` of what any assignment at all needs.
   */
  lemma LptWithinFourThirds(w: seq<real>, c: seq<nat>, a: seq<nat>, m: nat, opt: real, b: nat)
    requires NonNegative(w) && Descending(w) && Greedy(w, c, m)
    requires Within(w, a, m, opt) && b < m
    ensures 3.0 * m as real * Load(w, c, |w|, b) <= (4.0 * m as real - 1.0) * opt
  {
    hide *;
    Bounds(w, c, a, m, opt, b);
    var j := LastItem(w, c, |w|, b);
    if j == |w| {
      OptimalBound(m as real, opt, 0.0);
    } else if 3.0 * w[j] > opt {
      LargeItemWithin(w, c, a, m, opt, j);
      OptimalBound(m as real, opt, Load(w, c, |w|, b));
    } else {
      GreedyBelowAverage(w, c, m, j);
      TotalWithin(w, a, m, opt, j + 1);
      SmallItemBound(m as real, opt, Load(w, c, j, b), Total(w, j), w[j]);
    }
  }
}
