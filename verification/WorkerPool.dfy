/**
 * Worker pools sharing one counter across awaits: scripts/benchmark-next-package-dependency.ts,
 * mapConcurrent, and scripts/publint-all.ts, runAll. Code between two awaits runs undisturbed; at
 * an await any worker may go on next. A step below is one such stretch, of one worker. A value may
 * be `undefined` (`None`): the worker that takes it returns.
 */
module WorkerPool {
  import opened Wrappers

  /** About to look at the counter, awaiting an operation, returned behind the last value or at an `undefined` one, or thrown out of. */
  datatype Worker = Ready | Busy(index: nat) | Finished | Stopped | Rejected

  /** `Guarded` tests the counter before taking it; `Unguarded` takes it first and then finds no value. */
  datatype Kind = Guarded | Unguarded

  /** The shared variables, the workers, the first failure, and the indices claimed so far, in order. */
  datatype Pool<R, E> = Pool(
    next: nat, workers: seq<Worker>, results: map<nat, R>, failure: Option<E>, claims: seq<nat>)

  function Start<R, E>(size: nat): Pool<R, E> {
    Pool(0, seq(size, _ => Ready), map[], None, [])
  }

  /** One stretch of worker `k`. */
  function Resume<T, R, E>(kind: Kind, values: seq<Option<T>>, op: T -> Result<R, E>, s: Pool<R, E>, k: nat): Pool<R, E>
    requires k < |s.workers|
    requires s.workers[k].Busy? ==> s.workers[k].index < |values| && values[s.workers[k].index].Some?
  {
    match s.workers[k]
    case Ready =>
      if s.next < |values| then
        var taken := if values[s.next].Some? then Busy(s.next) else Stopped;
        s.(next := s.next + 1, workers := s.workers[k := taken], claims := s.claims + [s.next])
      else
        s.(next := if kind.Unguarded? then s.next + 1 else s.next, workers := s.workers[k := Finished])
    case Busy(i) =>
      (match op(values[i].value)
       case Success(r) => s.(results := s.results[i := r], workers := s.workers[k := Ready])
       case Failure(e) => s.(failure := if s.failure.None? then Some(e) else s.failure, workers := s.workers[k := Rejected]))
    case Finished => s
    case Stopped => s
    case Rejected => s
  }

  predicate CanResume<R, E>(s: Pool<R, E>, k: nat) {
    k < |s.workers| && (s.workers[k].Ready? || s.workers[k].Busy?)
  }

  predicate Settled<R, E>(s: Pool<R, E>) {
    forall k :: 0 <= k < |s.workers| ==> !CanResume(s, k)
  }

  // ---------- what every step keeps ----------

  function Claimed<T, R, E>(values: seq<Option<T>>, s: Pool<R, E>): nat {
    if s.next < |values| then s.next else |values|
  }

  /** How many of the first `n` values are `undefined`. */
  function Blanks<T>(values: seq<Option<T>>, n: nat): nat
    requires n <= |values|
  {
    if n == 0 then 0 else Blanks(values, n - 1) + if values[n - 1].None? then 1 else 0
  }

  function Halted(workers: seq<Worker>): nat {
    if workers == [] then 0 else Halted(workers[..|workers| - 1]) + if workers[|workers| - 1].Stopped? then 1 else 0
  }

  lemma {:induction false} HaltedUpdate(workers: seq<Worker>, k: nat, w: Worker)
    requires k < |workers|
    ensures Halted(workers[k := w])
         == Halted(workers) - (if workers[k].Stopped? then 1 else 0) + if w.Stopped? then 1 else 0
    decreases |workers|
  {
    var n := |workers| - 1;
    if k == n {
      assert workers[k := w][..n] == workers[..n];
    } else {
      assert workers[k := w][..n] == workers[..n][k := w];
      HaltedUpdate(workers[..n], k, w);
    }
  }

  lemma {:induction false} HaltedBound(workers: seq<Worker>)
    ensures Halted(workers) <= |workers|
    ensures Halted(workers) == |workers| <==> forall k :: 0 <= k < |workers| ==> workers[k].Stopped?
  {
    if workers != [] {
      HaltedBound(workers[..|workers| - 1]);
    }
  }

  lemma {:induction false} HaltedStart(size: nat)
    ensures Halted(seq(size, _ => Ready)) == 0
  {
    if size > 0 {
      assert seq<Worker>(size, _ => Ready)[..size - 1] == seq(size - 1, _ => Ready);
      HaltedStart(size - 1);
    }
  }

  lemma {:induction false} BlanksGrow<T>(values: seq<Option<T>>, m: nat, n: nat)
    requires m <= n <= |values|
    ensures Blanks(values, m) <= Blanks(values, n)
  {
    if m < n {
      BlanksGrow(values, m, n - 1);
    }
  }

  /** Value `i` is there, and fewer `undefined` values stand before it than there are workers. */
  ghost predicate Reached<T>(values: seq<Option<T>>, size: nat, i: nat) {
    i < |values| && values[i].Some? && Blanks(values, i) < size
  }

  /** Index `i` has its result, or one worker is on it, or its operation threw, or no value stands there. */
  ghost predicate Attended<T, R, E>(values: seq<Option<T>>, op: T -> Result<R, E>, s: Pool<R, E>, i: nat)
    requires i < |values|
  {
    || (i !in s.results && values[i].None?)
    || (i in s.results && values[i].Some? && op(values[i].value) == Success(s.results[i]))
    || (i !in s.results && exists k :: 0 <= k < |s.workers| && s.workers[k] == Busy(i))
    || (i !in s.results && values[i].Some? && op(values[i].value).Failure? && s.failure.Some?)
  }

  /** The workers that met an `undefined` value are as many as such values were claimed. */
  ghost predicate Accounted<T, R, E>(values: seq<Option<T>>, size: nat, s: Pool<R, E>) {
    && Halted(s.workers) == Blanks(values, Claimed(values, s))
    && forall i :: 0 <= i < Claimed(values, s) ==> Blanks(values, i) < size
  }

  ghost predicate BusyWith<T, R, E>(values: seq<Option<T>>, s: Pool<R, E>, i: nat) {
    i < Claimed(values, s) && values[i].Some? && i !in s.results
  }

  ghost predicate Inv<T, R, E>(values: seq<Option<T>>, op: T -> Result<R, E>, size: nat, s: Pool<R, E>) {
    && |s.workers| == size
    && Accounted(values, size, s)
    && (size == 0 ==> s.next == 0)
    && s.claims == seq(Claimed(values, s), i => i)
    && (forall i :: 0 <= i < Claimed(values, s) ==> Attended(values, op, s, i))
    && (forall i :: i in s.results ==> i < Claimed(values, s))
    && (forall k :: 0 <= k < size && s.workers[k].Busy? ==> BusyWith(values, s, s.workers[k].index))
    && (forall k, l :: 0 <= k < l < size && s.workers[k].Busy? && s.workers[l].Busy? ==> s.workers[k].index != s.workers[l].index)
    && (forall k :: 0 <= k < size && s.workers[k].Finished? ==> s.next >= |values|)
    && (forall k :: 0 <= k < size && s.workers[k].Rejected? ==> s.failure.Some?)
    && (s.failure.Some? ==> exists i :: 0 <= i < Claimed(values, s) && values[i].Some? && op(values[i].value) == Failure(s.failure.value))
  }

  lemma ResumeReady<T, R, E>(kind: Kind, values: seq<Option<T>>, op: T -> Result<R, E>, size: nat, s: Pool<R, E>, k: nat)
    requires Inv(values, op, size, s) && k < size && s.workers[k].Ready?
    ensures Inv(values, op, size, Resume(kind, values, op, s, k))
  {
    var t := Resume(kind, values, op, s, k);
    HaltedUpdate(s.workers, k, t.workers[k]);
    HaltedBound(s.workers);
    hide Halted;
    forall i | 0 <= i < Claimed(values, t) ensures Attended(values, op, t, i) {
      if i < Claimed(values, s) {
        assert Attended(values, op, s, i);
        if l :| 0 <= l < |s.workers| && s.workers[l] == Busy(i) {
          assert t.workers[l] == Busy(i);
        }
      } else {
        assert values[i].Some? ==> t.workers[k] == Busy(i);
      }
    }
  }

  lemma ResumeBusy<T, R, E>(kind: Kind, values: seq<Option<T>>, op: T -> Result<R, E>, size: nat, s: Pool<R, E>, k: nat)
    requires Inv(values, op, size, s) && k < size && s.workers[k].Busy?
    ensures Inv(values, op, size, Resume(kind, values, op, s, k))
  {
    var t := Resume(kind, values, op, s, k);
    HaltedUpdate(s.workers, k, t.workers[k]);
    hide Halted, Blanks;
    forall i | 0 <= i < Claimed(values, t) ensures Attended(values, op, t, i) {
      assert Attended(values, op, s, i);
      if i != s.workers[k].index {
        if l :| 0 <= l < |s.workers| && s.workers[l] == Busy(i) {
          assert t.workers[l] == Busy(i);
        }
      }
    }
  }

  /** Every step of every worker keeps the invariant. */
  lemma ResumeInv<T, R, E>(kind: Kind, values: seq<Option<T>>, op: T -> Result<R, E>, size: nat, s: Pool<R, E>, k: nat)
    requires Inv(values, op, size, s) && k < size
    ensures Inv(values, op, size, Resume(kind, values, op, s, k))
  {
    if s.workers[k].Ready? {
      ResumeReady(kind, values, op, size, s, k);
    } else if s.workers[k].Busy? {
      ResumeBusy(kind, values, op, size, s, k);
    }
  }

  // ---------- runs ----------

  ghost predicate Schedule(size: nat, schedule: seq<nat>) {
    forall j :: 0 <= j < |schedule| ==> schedule[j] < size
  }

  /** The pool after the workers named by `schedule` went on, one after another. */
  ghost function After<T, R, E>(kind: Kind, values: seq<Option<T>>, op: T -> Result<R, E>, size: nat, schedule: seq<nat>): (s: Pool<R, E>)
    requires Schedule(size, schedule)
    ensures Inv(values, op, size, s)
  {
    if schedule == [] then
      HaltedStart(size);
      Start(size)
    else
      var n := |schedule| - 1;
      var before := After(kind, values, op, size, schedule[..n]);
      ResumeInv(kind, values, op, size, before, schedule[n]);
      Resume(kind, values, op, before, schedule[n])
  }

  function Rank(w: Worker): nat {
    match w
    case Ready => 1
    case Busy(_) => 2
    case Finished => 0
    case Stopped => 0
    case Rejected => 0
  }

  function Ranks(workers: seq<Worker>): nat {
    if workers == [] then 0 else Ranks(workers[..|workers| - 1]) + Rank(workers[|workers| - 1])
  }

  lemma {:induction false} RanksUpdate(workers: seq<Worker>, k: nat, w: Worker)
    requires k < |workers|
    ensures Ranks(workers[k := w]) == Ranks(workers) - Rank(workers[k]) + Rank(w)
    decreases |workers|
  {
    var n := |workers| - 1;
    if k == n {
      assert workers[k := w][..n] == workers[..n];
    } else {
      assert workers[k := w][..n] == workers[..n][k := w];
      RanksUpdate(workers[..n], k, w);
    }
  }

  /** Steps left at most. */
  function Left<T, R, E>(values: seq<Option<T>>, s: Pool<R, E>): nat {
    3 * (|values| - Claimed(values, s)) + Ranks(s.workers)
  }

  /** Every step a worker can take brings the end nearer. */
  lemma ResumeEnds<T, R, E>(kind: Kind, values: seq<Option<T>>, op: T -> Result<R, E>, size: nat, s: Pool<R, E>, k: nat)
    requires Inv(values, op, size, s) && k < size && CanResume(s, k)
    ensures Left(values, Resume(kind, values, op, s, k)) < Left(values, s)
  {
    RanksUpdate(s.workers, k, Resume(kind, values, op, s, k).workers[k]);
  }

  /** A schedule that names only workers able to go on. */
  ghost predicate Productive<T, R, E>(kind: Kind, values: seq<Option<T>>, op: T -> Result<R, E>, size: nat, schedule: seq<nat>) {
    && Schedule(size, schedule)
    && forall j {:trigger schedule[j]} :: 0 <= j < |schedule| ==>
         CanResume(After(kind, values, op, size, schedule[..j]), schedule[j])
  }

  /** No run is longer than three steps a value and one a worker. */
  lemma {:induction false} RunsEnd<T, R, E>(kind: Kind, values: seq<Option<T>>, op: T -> Result<R, E>, size: nat, schedule: seq<nat>)
    requires Productive(kind, values, op, size, schedule)
    ensures |schedule| + Left(values, After(kind, values, op, size, schedule)) <= 3 * |values| + size
    decreases |schedule|
  {
    if schedule == [] {
      RanksStart(size);
    } else {
      var n := |schedule| - 1;
      var initial := schedule[..n];
      forall j | 0 <= j < n ensures CanResume(After(kind, values, op, size, initial[..j]), initial[j]) {
        assert initial[..j] == schedule[..j] && initial[j] == schedule[j];
      }
      RunsEnd(kind, values, op, size, initial);
      ResumeEnds(kind, values, op, size, After(kind, values, op, size, initial), schedule[n]);
    }
  }

  lemma {:induction false} RanksStart(size: nat)
    ensures Ranks(seq(size, _ => Ready)) == size
  {
    if size > 0 {
      assert seq<Worker>(size, _ => Ready)[..size - 1] == seq(size - 1, _ => Ready);
      RanksStart(size - 1);
    }
  }

  /** The indices of the operations awaited right now. */
  function InFlight(workers: seq<Worker>): set<nat> {
    set k | 0 <= k < |workers| && workers[k].Busy? :: workers[k].index
  }

  lemma {:induction false} InFlightBounded(workers: seq<Worker>)
    ensures |InFlight(workers)| <= |workers|
  {
    if workers != [] {
      var n := |workers| - 1;
      InFlightBounded(workers[..n]);
      var last := if workers[n].Busy? then {workers[n].index} else {};
      forall i | i in InFlight(workers) ensures i in InFlight(workers[..n]) + last {
        var k :| 0 <= k <= n && workers[k] == Busy(i);
        assert k < n ==> workers[..n][k] == Busy(i);
      }
      forall i | i in InFlight(workers[..n]) ensures i in InFlight(workers) {
        var k :| 0 <= k < n && workers[..n][k] == Busy(i);
        assert workers[k] == Busy(i);
      }
      assert InFlight(workers) == InFlight(workers[..n]) + last;
    }
  }

  /** At every moment of every interleaving: at most `size` operations are awaited, and the indices were claimed in order, once each. */
  lemma EveryMoment<T, R, E>(kind: Kind, values: seq<Option<T>>, op: T -> Result<R, E>, size: nat, schedule: seq<nat>)
    requires Schedule(size, schedule)
    ensures var s := After(kind, values, op, size, schedule);
      |InFlight(s.workers)| <= size && |s.claims| <= |values| && forall i :: 0 <= i < |s.claims| ==> s.claims[i] == i
  {
    var s := After(kind, values, op, size, schedule);
    InFlightBounded(s.workers);
    assert s.claims == seq(Claimed(values, s), i => i);
  }

  // ---------- the outcome ----------

  ghost predicate AllSucceed<T, R, E>(values: seq<Option<T>>, size: nat, op: T -> Result<R, E>) {
    forall i: nat :: Reached(values, size, i) ==> op(values[i].value).Success?
  }

  /** Exactly the reached values have a result, each its own. */
  ghost predicate Complete<T, R, E>(values: seq<Option<T>>, size: nat, op: T -> Result<R, E>, results: map<nat, R>) {
    && (forall i :: i in results <==> Reached(values, size, i))
    && forall i :: i in results ==> Reached(values, size, i) && op(values[i].value) == Success(results[i])
  }

  ghost predicate Somewhere<T, R, E>(values: seq<Option<T>>, size: nat, op: T -> Result<R, E>, e: E) {
    exists i: nat :: Reached(values, size, i) && op(values[i].value) == Failure(e)
  }

  /**
   * Whatever the interleaving, once no worker can go on: nothing was thrown exactly when the
   * operation succeeds on every reached value, and then exactly those have a result, each its own.
   */
  lemma SettledOutcome<T, R, E>(values: seq<Option<T>>, op: T -> Result<R, E>, size: nat, s: Pool<R, E>)
    requires Inv(values, op, size, s) && Settled(s)
    ensures s.failure.Some? ==> Somewhere(values, size, op, s.failure.value)
    ensures s.failure.None? <==> AllSucceed(values, size, op)
    ensures s.failure.None? ==> Complete(values, size, op, s.results)
  {
    hide Halted, Blanks;
    if s.failure.None? {
      forall i | 0 <= i < |values| ensures i < Claimed(values, s) <==> Blanks(values, i) < size {
        ClaimedExactly(values, op, size, s, i);
      }
      forall k | 0 <= k < |s.workers| ensures !s.workers[k].Busy? {
        assert !CanResume(s, k);
      }
      forall i: nat | Reached(values, size, i) ensures i in s.results && op(values[i].value) == Success(s.results[i]) {
        assert Attended(values, op, s, i);
      }
      forall i | i in s.results ensures Reached(values, size, i) && op(values[i].value) == Success(s.results[i]) {
        assert Attended(values, op, s, i);
      }
    } else {
      var i :| 0 <= i < Claimed(values, s) && values[i].Some? && op(values[i].value) == Failure(s.failure.value);
      assert Reached(values, size, i);
    }
  }

  /** A pool that settles without a failure has claimed up to the value that took its last worker. */
  lemma ClaimedExactly<T, R, E>(values: seq<Option<T>>, op: T -> Result<R, E>, size: nat, s: Pool<R, E>, i: nat)
    requires Inv(values, op, size, s) && Settled(s) && s.failure.None? && i < |values|
    ensures i < Claimed(values, s) <==> Blanks(values, i) < size
  {
    hide Halted, Blanks;
    if i >= Claimed(values, s) {
      forall k | 0 <= k < size ensures s.workers[k].Stopped? {
        assert !CanResume(s, k);
      }
      HaltedBound(s.workers);
      BlanksGrow(values, Claimed(values, s), i);
    }
  }

  lemma {:induction false} NoBlanks<T>(values: seq<Option<T>>, n: nat)
    requires n <= |values| && forall i :: 0 <= i < n ==> values[i].Some?
    ensures Blanks(values, n) == 0
  {
    if n > 0 {
      NoBlanks(values, n - 1);
    }
  }

  /** Every value that is there is reached exactly when fewer `undefined` values stand before the last one than there are workers. */
  lemma AllReachedExactly<T>(values: seq<Option<T>>, size: nat, last: nat)
    requires last < |values| && values[last].Some? && forall i :: last < i < |values| ==> values[i].None?
    ensures (forall i :: 0 <= i < |values| && values[i].Some? ==> Reached(values, size, i)) <==> Blanks(values, last) < size
  {
    hide Blanks;
    forall i | 0 <= i <= last ensures Blanks(values, i) <= Blanks(values, last) {
      BlanksGrow(values, i, last);
    }
    assert Reached(values, size, last) <==> Blanks(values, last) < size;
  }

  // ---------- the pools ----------

  /** The variables the workers of one pool share. */
  class Shared<T, R, E> {
    const kind: Kind
    const values: seq<Option<T>>
    const op: T -> Result<R, E>
    var next: nat
    var results: map<nat, R>
    var failure: Option<E>
    var workers: seq<Worker>
    ghost var claims: seq<nat>

    ghost function View(): Pool<R, E>
      reads this
    {
      Pool(next, workers, results, failure, claims)
    }

    constructor (kind: Kind, values: seq<Option<T>>, op: T -> Result<R, E>, size: nat)
      ensures this.kind == kind && this.values == values && this.op == op
      ensures View() == Start(size)
    {
      this.kind, this.values, this.op := kind, values, op;
      next, results, failure, workers, claims := 0, map[], None, seq(size, _ => Ready), [];
    }

    /** The code of one worker from one await to the next. */
    method Continue(k: nat)
      requires k < |workers|
      requires workers[k].Busy? ==> workers[k].index < |values| && values[workers[k].index].Some?
      modifies this
      ensures View() == Resume(kind, values, op, old(View()), k)
    {
      match workers[k] {
        case Ready =>
          if kind.Guarded? && next >= |values| {
            workers := workers[k := Finished];
            return;
          }
          var index := next;
          next := next + 1;
          if index >= |values| {
            workers := workers[k := Finished];
            return;
          }
          claims := claims + [index];
          if values[index].None? {
            workers := workers[k := Stopped];
            return;
          }
          workers := workers[k := Busy(index)];
        case Busy(index) =>
          match op(values[index].value) {
            case Success(r) =>
              results := results[index := r];
              workers := workers[k := Ready];
            case Failure(e) =>
              if failure.None? {
                failure := Some(e);
              }
              workers := workers[k := Rejected];
          }
        case _ =>
      }
    }
  }

  /** Lets the workers go on in an arbitrary order until none can. */
  method Drive<T, R, E>(pool: Shared<T, R, E>, size: nat)
    requires pool.View() == Start(size)
    modifies pool
    ensures Inv(pool.values, pool.op, size, pool.View()) && Settled(pool.View())
  {
    HaltedStart(size);
    while exists k :: 0 <= k < |pool.workers| && (pool.workers[k].Ready? || pool.workers[k].Busy?)
      invariant Inv(pool.values, pool.op, size, pool.View())
      decreases Left(pool.values, pool.View())
    {
      var k :| 0 <= k < |pool.workers| && (pool.workers[k].Ready? || pool.workers[k].Busy?);
      ResumeInv(pool.kind, pool.values, pool.op, size, pool.View(), k);
      ResumeEnds(pool.kind, pool.values, pool.op, size, pool.View(), k);
      pool.Continue(k);
    }
  }

  /** The workers of `mapConcurrent`. */
  function Jobs(jobs: nat, values: nat): nat {
    if jobs < values then jobs else values
  }

  lemma {:induction false} BlanksWithin<T>(values: seq<Option<T>>, n: nat)
    requires n <= |values|
    ensures Blanks(values, n) <= n
  {
    if n > 0 {
      BlanksWithin(values, n - 1);
    }
  }

  /** The workers reach what `jobs` workers would reach, although there may be fewer. */
  lemma ReachedByJobs<T>(values: seq<Option<T>>, jobs: nat, i: nat)
    ensures Reached(values, Jobs(jobs, |values|), i) <==> Reached(values, jobs, i)
  {
    if i < |values| {
      BlanksWithin(values, i);
    }
  }

  /** At every moment of every interleaving at most `jobs` operations are awaited, and never more than there are values. */
  lemma JobsEveryMoment<T, R, E>(values: seq<Option<T>>, jobs: nat, op: T -> Result<R, E>, schedule: seq<nat>)
    requires Schedule(Jobs(jobs, |values|), schedule)
    ensures var s := After(Guarded, values, op, Jobs(jobs, |values|), schedule);
      |InFlight(s.workers)| <= jobs && |InFlight(s.workers)| <= |values|
  {
    EveryMoment(Guarded, values, op, Jobs(jobs, |values|), schedule);
  }

  /** `mapConcurrent`: with no job it answers an empty list whatever the values. */
  method MapConcurrent<T, R, E>(values: seq<Option<T>>, jobs: nat, op: T -> Result<R, E>) returns (r: Result<map<nat, R>, E>)
    ensures r.Success? <==> AllSucceed(values, jobs, op)
    ensures r.Success? ==> Complete(values, jobs, op, r.value)
    ensures r.Failure? ==> Somewhere(values, jobs, op, r.error)
  {
    var size := Jobs(jobs, |values|);
    var pool := new Shared<T, R, E>(Guarded, values, op, size);
    Drive(pool, size);
    SettledOutcome(values, op, size, pool.View());
    forall i: nat ensures Reached(values, size, i) <==> Reached(values, jobs, i) {
      ReachedByJobs(values, jobs, i);
    }
    hide Reached;
    r := match pool.failure case None => Success(pool.results) case Some(e) => Failure(e);
  }

  /** A value that is there has its result whenever there is a job, if none is `undefined`. */
  lemma EveryValueReached<T>(values: seq<Option<T>>, jobs: nat)
    requires forall i :: 0 <= i < |values| ==> values[i].Some?
    ensures forall i :: 0 <= i < |values| ==> (Reached(values, jobs, i) <==> jobs > 0)
  {
    forall i | 0 <= i < |values| ensures Reached(values, jobs, i) <==> jobs > 0 {
      NoBlanks(values, i);
    }
  }

  /** A single job stops at an `undefined` value: the value behind it never gets a result. */
  lemma OneJobStops<T>(x: T)
    ensures var values := [None, Some(x)]; values[1].Some? && !Reached(values, 1, 1)
  {
    var values := [None, Some(x)];
    assert Blanks(values, 1) == Blanks(values, 0) + 1;
  }

  /** `NoTarget`: the message about a missing result fails to read the path of an `undefined` target. */
  datatype RunError<E> = Thrown(error: E) | MissingResult(index: nat) | NoTarget(index: nat)

  ghost predicate FirstBlank<T>(values: seq<Option<T>>, i: nat) {
    i < |values| && values[i].None? && forall j :: 0 <= j < i ==> values[j].Some?
  }

  /** Behind targets that are all there, the next has a result exactly when it is there and there is a worker. */
  lemma NextTarget<T, R, E>(targets: seq<Option<T>>, size: nat, op: T -> Result<R, E>, results: map<nat, R>, i: nat)
    requires Complete(targets, size, op, results) && i < |targets| && forall j :: 0 <= j < i ==> targets[j].Some?
    ensures i in results <==> targets[i].Some? && size > 0
    ensures i in results ==> op(targets[i].value) == Success(results[i])
  {
    NoBlanks(targets, i);
  }

  /** Without workers or targets nothing can throw. */
  lemma NoneReached<T, R, E>(targets: seq<Option<T>>, size: nat, op: T -> Result<R, E>)
    ensures AllSucceed(targets, 0, op) && (targets == [] ==> AllSucceed(targets, size, op))
  {
  }

  /** `runAll`: the missing-result error is thrown exactly when there are targets and no worker. */
  method RunAll<T, R, E>(targets: seq<Option<T>>, concurrency: nat, op: T -> Result<R, E>) returns (r: Result<seq<R>, RunError<E>>)
    ensures r.Success? ==> |r.value| == |targets|
    ensures r.Success? ==> forall i :: 0 <= i < |targets| ==> targets[i].Some? && op(targets[i].value) == Success(r.value[i])
    ensures r.Success? <==> targets == [] || (concurrency > 0 && None !in targets && AllSucceed(targets, concurrency, op))
    ensures (exists e :: r == Failure(Thrown(e))) <==> !AllSucceed(targets, concurrency, op)
    ensures r.Failure? && r.error.Thrown? ==> Somewhere(targets, concurrency, op, r.error.error)
    ensures r.Failure? && r.error.MissingResult? ==> r.error.index == 0
    ensures r.Failure? && r.error.MissingResult? <==> concurrency == 0 && targets != [] && targets[0].Some?
    ensures r.Failure? && r.error.NoTarget? ==> FirstBlank(targets, r.error.index)
  {
    hide AllSucceed, Complete, Somewhere, Inv, Reached, Settled;
    NoneReached(targets, concurrency, op);
    var pool := new Shared<T, R, E>(Unguarded, targets, op, concurrency);
    Drive(pool, concurrency);
    SettledOutcome(targets, op, concurrency, pool.View());
    if pool.failure.Some? {
      return Failure(Thrown(pool.failure.value));
    }
    var results := pool.results;
    var listed: seq<R> := [];
    for i := 0 to |targets|
      invariant |listed| == i
      invariant concurrency == 0 ==> i == 0
      invariant forall j :: 0 <= j < i ==> targets[j].Some? && op(targets[j].value) == Success(listed[j])
    {
      NextTarget(targets, concurrency, op, results, i);
      if i !in results {
        return Failure(if targets[i].Some? then MissingResult(i) else NoTarget(i));
      }
      listed := listed + [results[i]];
    }
    r := Success(listed);
  }
}
