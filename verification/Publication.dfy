/**
 * Publication of a release bundle: scripts/publish-npm-baseline.ts, RegistryPublication. The
 * process may die between any two registry commands and be started again, any number of times.
 * Nobody else writes to the registry, and npm records the integrity of the tarball it is given.
 */
module Publication {
  import opened Wrappers

  const ENTRY := "@deepseek-ai/dsh"
  const LATEST := "latest"
  const SHA512 := "sha512-"

  datatype Packed = Packed(name: string, integrity: string)
  datatype Bundle = Bundle(version: string, distTag: string, packages: seq<Packed>)

  /** What loading a manifest and checking its tarballs leaves to be said. */
  ghost predicate Loaded(b: Bundle) {
    && b.packages != []
    && (forall i, j :: 0 <= i < j < |b.packages| ==> b.packages[i].name != b.packages[j].name)
    && (forall i :: 0 <= i < |b.packages| ==> SHA512 <= b.packages[i].integrity)
  }

  // ---------- the registry ----------

  /** Integrity by (name, version); version by (name, tag). */
  datatype Remote = Remote(published: map<(string, string), string>, tags: map<(string, string), string>)

  datatype Fault =
    | Conflict(name: string)
    | UnknownPackage(name: string)
    | UnknownVersion(name: string)
    | NoIntegrity(name: string)
    | Mismatch(name: string)
    | Missing(name: string)
    | WrongTag(name: string)

  predicate Known(r: Remote, name: string) {
    exists key :: key in r.published && key.0 == name
  }

  /** A tag points to a version that exists. */
  ghost predicate WellFormed(r: Remote) {
    forall key :: key in r.tags ==> (key.0, r.tags[key]) in r.published
  }

  function NpmPublish(r: Remote, p: Packed, version: string, tag: string): Result<Remote, Fault> {
    if (p.name, version) in r.published then Failure(Conflict(p.name))
    else Success(Remote(r.published[(p.name, version) := p.integrity], r.tags[(p.name, tag) := version]))
  }

  function NpmTag(r: Remote, name: string, version: string, tag: string): Result<Remote, Fault> {
    if (name, version) !in r.published then Failure(UnknownVersion(name))
    else Success(r.(tags := r.tags[(name, tag) := version]))
  }

  function RemoteIntegrity(r: Remote, name: string, version: string): Result<Option<string>, Fault> {
    if (name, version) !in r.published then Success(None)
    else if !(SHA512 <= r.published[(name, version)]) then Failure(NoIntegrity(name))
    else Success(Some(r.published[(name, version)]))
  }

  function RemoteTag(r: Remote, name: string, tag: string): Result<Option<string>, Fault> {
    if !Known(r, name) then Failure(UnknownPackage(name))
    else if (name, tag) in r.tags then Success(Some(r.tags[(name, tag)]))
    else Success(None)
  }

  function EnsureTag(r: Remote, name: string, version: string, tag: string): Result<Remote, Fault> {
    match RemoteTag(r, name, tag)
    case Failure(f) => Failure(f)
    case Success(at) => if at == Some(version) then Success(r) else NpmTag(r, name, version, tag)
  }

  // ---------- one process, step by step ----------

  datatype Phase =
    | Publishing(index: nat)
    | Tagging(index: nat)
    | Latest
    | Checking(index: nat)
    | CheckingLatest
    | Done
    | Stopped(fault: Fault)

  ghost predicate InRange(b: Bundle, p: Phase) {
    (p.Publishing? || p.Tagging? || p.Checking?) ==> p.index < |b.packages|
  }

  function ToPublish(b: Bundle, i: nat): Phase {
    if i < |b.packages| then Publishing(i) else Latest
  }

  function ToCheck(b: Bundle, i: nat): Phase {
    if i < |b.packages| then Checking(i) else CheckingLatest
  }

  function Settle(next: Phase, r: Remote, outcome: Result<Remote, Fault>): (Phase, Remote) {
    match outcome
    case Success(changed) => (next, changed)
    case Failure(f) => (Stopped(f), r)
  }

  function Check(next: Phase, r: Remote, name: string, tag: string, version: string): (Phase, Remote) {
    match RemoteTag(r, name, tag)
    case Failure(f) => (Stopped(f), r)
    case Success(at) => if at == Some(version) then (next, r) else (Stopped(WrongTag(name)), r)
  }

  /** The work up to the next point where a crash can make a difference. */
  function Step(b: Bundle, p: Phase, r: Remote): (Phase, Remote)
    requires InRange(b, p)
  {
    match p
    case Publishing(i) =>
      var pkg := b.packages[i];
      (match RemoteIntegrity(r, pkg.name, b.version)
       case Failure(f) => (Stopped(f), r)
       case Success(None) => Settle(Tagging(i), r, NpmPublish(r, pkg, b.version, b.distTag))
       case Success(Some(at)) => (if at == pkg.integrity then Tagging(i) else Stopped(Mismatch(pkg.name)), r))
    case Tagging(i) =>
      Settle(ToPublish(b, i + 1), r, EnsureTag(r, b.packages[i].name, b.version, b.distTag))
    case Latest =>
      Settle(ToCheck(b, 0), r, EnsureTag(r, ENTRY, b.version, LATEST))
    case Checking(i) =>
      var pkg := b.packages[i];
      (match RemoteIntegrity(r, pkg.name, b.version)
       case Failure(f) => (Stopped(f), r)
       case Success(None) => (Stopped(Missing(pkg.name)), r)
       case Success(Some(at)) =>
         if at != pkg.integrity then (Stopped(Mismatch(pkg.name)), r)
         else Check(ToCheck(b, i + 1), r, pkg.name, b.distTag, b.version))
    case CheckingLatest => Check(Done, r, ENTRY, LATEST, b.version)
    case Done => (p, r)
    case Stopped(_) => (p, r)
  }

  function Steps(b: Bundle, p: Phase, r: Remote, n: nat): (s: (Phase, Remote))
    requires InRange(b, p)
    ensures InRange(b, s.0)
    decreases n
  {
    if n == 0 then (p, r) else var s := Step(b, p, r); Steps(b, s.0, s.1, n - 1)
  }

  /** The registry after one process for each number, dead after that many steps. */
  function Lives(b: Bundle, r: Remote, budgets: seq<nat>): Remote {
    if budgets == [] then r
    else Steps(b, ToPublish(b, 0), Lives(b, r, budgets[..|budgets| - 1]), budgets[|budgets| - 1]).1
  }

  // ---------- what every step keeps ----------

  /** Package `i` is in the registry as recorded, under the release's tag. */
  predicate Up(b: Bundle, r: Remote, i: nat)
    requires i < |b.packages|
  {
    && Recorded(b, r, i)
    && (b.packages[i].name, b.distTag) in r.tags
    && r.tags[(b.packages[i].name, b.distTag)] == b.version
  }

  predicate Recorded(b: Bundle, r: Remote, i: nat)
    requires i < |b.packages|
  {
    && (b.packages[i].name, b.version) in r.published
    && r.published[(b.packages[i].name, b.version)] == b.packages[i].integrity
  }

  ghost predicate UpTo(b: Bundle, r: Remote, n: nat)
    requires n <= |b.packages|
  {
    forall i :: 0 <= i < n ==> Up(b, r, i)
  }

  ghost predicate AllUp(b: Bundle, r: Remote) {
    UpTo(b, r, |b.packages|)
  }

  predicate EntryLatest(b: Bundle, r: Remote) {
    (ENTRY, LATEST) in r.tags && r.tags[(ENTRY, LATEST)] == b.version
  }

  /** What reaching a phase says of the registry. */
  ghost predicate PhaseHolds(b: Bundle, p: Phase, r: Remote) {
    InRange(b, p) &&
    match p
    case Publishing(i) => UpTo(b, r, i)
    case Tagging(i) => UpTo(b, r, i) && Recorded(b, r, i)
    case Latest => AllUp(b, r)
    case Checking(_) => AllUp(b, r) && EntryLatest(b, r)
    case CheckingLatest => AllUp(b, r) && EntryLatest(b, r)
    case Done => AllUp(b, r) && EntryLatest(b, r)
    case Stopped(f) => f.NoIntegrity? || f.Mismatch? || (f in {UnknownPackage(ENTRY), UnknownVersion(ENTRY)} && AllUp(b, r))
  }

  /** No version is lost or replaced; what is new is a package of the bundle as recorded. */
  ghost predicate VersionsKept(b: Bundle, r0: Remote, r: Remote) {
    && (forall key :: key in r0.published ==> key in r.published && r.published[key] == r0.published[key])
    && (forall key :: key in r.published && key !in r0.published ==> Releases(b, key, r.published[key]))
  }

  ghost predicate Releases(b: Bundle, key: (string, string), integrity: string) {
    exists i :: 0 <= i < |b.packages| && key == (b.packages[i].name, b.version) && integrity == b.packages[i].integrity
  }

  ghost predicate SameTag(r0: Remote, r: Remote, key: (string, string)) {
    if key in r0.tags then key in r.tags && r.tags[key] == r0.tags[key] else key !in r.tags
  }

  ghost predicate OwnTag(b: Bundle, key: (string, string)) {
    key == (ENTRY, LATEST) || exists i :: 0 <= i < |b.packages| && key == (b.packages[i].name, b.distTag)
  }

  /** A tag that differs is one of the release's and points to the release. */
  ghost predicate TagKept(b: Bundle, r0: Remote, r: Remote, key: (string, string)) {
    SameTag(r0, r, key) || (OwnTag(b, key) && key in r.tags && r.tags[key] == b.version)
  }

  ghost predicate TagsKept(b: Bundle, r0: Remote, r: Remote) {
    forall key :: TagKept(b, r0, r, key)
  }

  /** The tag `latest` of the entry package is where it was, or everything is up. */
  ghost predicate LatestHeld(b: Bundle, r0: Remote, r: Remote) {
    SameTag(r0, r, (ENTRY, LATEST)) || AllUp(b, r)
  }

  /** The release's own tag is not `latest`, or the entry package comes last or not at all. */
  ghost predicate LatestComesLast(b: Bundle) {
    b.distTag != LATEST || forall i :: 0 <= i < |b.packages| - 1 ==> b.packages[i].name != ENTRY
  }

  ghost predicate Moves(b: Bundle, r0: Remote, r: Remote) {
    VersionsKept(b, r0, r) && TagsKept(b, r0, r)
  }

  lemma MovesKeepUp(b: Bundle, r0: Remote, r: Remote, n: nat)
    requires n <= |b.packages| && Moves(b, r0, r) && UpTo(b, r0, n)
    ensures UpTo(b, r, n)
  {
    forall i | 0 <= i < n ensures Up(b, r, i) {
      assert Up(b, r0, i);
      assert TagKept(b, r0, r, (b.packages[i].name, b.distTag));
    }
  }

  lemma MovesCompose(b: Bundle, r0: Remote, r1: Remote, r2: Remote)
    requires Moves(b, r0, r1) && Moves(b, r1, r2)
    ensures Moves(b, r0, r2)
    ensures LatestHeld(b, r0, r1) && LatestHeld(b, r1, r2) ==> LatestHeld(b, r0, r2)
  {
    forall key ensures TagKept(b, r0, r2, key) {
      assert TagKept(b, r0, r1, key) && TagKept(b, r1, r2, key);
    }
    if AllUp(b, r1) {
      MovesKeepUp(b, r1, r2, |b.packages|);
    }
  }

  lemma PublishMoves(b: Bundle, r: Remote, i: nat)
    requires i < |b.packages| && WellFormed(r) && (b.packages[i].name, b.version) !in r.published
    ensures var s := NpmPublish(r, b.packages[i], b.version, b.distTag);
      s.Success? && WellFormed(s.value) && Moves(b, r, s.value) && Up(b, s.value, i)
  {
    var s := NpmPublish(r, b.packages[i], b.version, b.distTag).value;
    assert OwnTag(b, (b.packages[i].name, b.distTag));
    assert Releases(b, (b.packages[i].name, b.version), b.packages[i].integrity);
  }

  lemma TagMoves(b: Bundle, r: Remote, name: string, tag: string)
    requires WellFormed(r) && OwnTag(b, (name, tag)) && (name, b.version) in r.published
    ensures var s := r.(tags := r.tags[(name, tag) := b.version]); WellFormed(s) && Moves(b, r, s)
  {
  }

  lemma EnsureMoves(b: Bundle, r: Remote, name: string, tag: string)
    requires WellFormed(r) && OwnTag(b, (name, tag))
    ensures var s := EnsureTag(r, name, b.version, tag);
      && (s.Success? <==> (name, b.version) in r.published)
      && (s.Failure? ==> s.error in {UnknownPackage(name), UnknownVersion(name)})
      && (s.Success? ==> && WellFormed(s.value) && Moves(b, r, s.value) && s.value.published == r.published
                         && (name, tag) in s.value.tags && s.value.tags[(name, tag)] == b.version)
  {
    StandingStill(b, r);
    if (name, b.version) in r.published {
      TagMoves(b, r, name, tag);
    }
    assert (name, b.version) in r.published ==> Known(r, name);
    assert (name, tag) in r.tags ==> (name, r.tags[(name, tag)]) in r.published;
    hide Moves, WellFormed, OwnTag;
  }

  ghost predicate Keeps(b: Bundle, r: Remote, after: (Phase, Remote)) {
    WellFormed(after.1) && Moves(b, r, after.1) && PhaseHolds(b, after.0, after.1)
  }

  lemma StandingStill(b: Bundle, r: Remote)
    ensures Moves(b, r, r) && LatestHeld(b, r, r)
  {
  }

  lemma StepPublishing(b: Bundle, i: nat, r: Remote)
    requires Loaded(b) && WellFormed(r) && PhaseHolds(b, Publishing(i), r)
    ensures Keeps(b, r, Step(b, Publishing(i), r))
  {
    hide Moves, WellFormed;
    StandingStill(b, r);
    var (q, s) := Step(b, Publishing(i), r);
    if (b.packages[i].name, b.version) !in r.published {
      PublishMoves(b, r, i);
    }
    MovesKeepUp(b, r, s, i);
  }

  lemma UpToNext(b: Bundle, r: Remote, i: nat)
    requires i < |b.packages|
    ensures UpTo(b, r, i) && Up(b, r, i) ==> UpTo(b, r, i + 1)
  {
  }

  lemma StepTagging(b: Bundle, i: nat, r: Remote)
    requires Loaded(b) && WellFormed(r) && PhaseHolds(b, Tagging(i), r)
    ensures Keeps(b, r, Step(b, Tagging(i), r))
    ensures Step(b, Tagging(i), r).0 == ToPublish(b, i + 1)
  {
    hide Moves, WellFormed, EnsureTag, UpTo;
    EnsureMoves(b, r, b.packages[i].name, b.distTag);
    var (q, s) := Step(b, Tagging(i), r);
    MovesKeepUp(b, r, s, i);
    UpToNext(b, s, i);
  }

  lemma StepLatest(b: Bundle, r: Remote)
    requires Loaded(b) && WellFormed(r) && PhaseHolds(b, Latest, r)
    ensures Keeps(b, r, Step(b, Latest, r))
    ensures Step(b, Latest, r).0 == ToCheck(b, 0) <==> (ENTRY, b.version) in r.published
  {
    StandingStill(b, r);
    hide Moves, WellFormed, EnsureTag, UpTo;
    EnsureMoves(b, r, ENTRY, LATEST);
    MovesKeepUp(b, r, Step(b, Latest, r).1, |b.packages|);
  }

  /** The checks after publication find what they look for. */
  lemma StepChecks(b: Bundle, p: Phase, r: Remote)
    requires Loaded(b) && WellFormed(r) && PhaseHolds(b, p, r) && (p.Checking? || p.CheckingLatest?)
    ensures Step(b, p, r) == (if p.Checking? then ToCheck(b, p.index + 1) else Done, r)
  {
    if p.Checking? {
      assert Up(b, r, p.index);
      assert Known(r, b.packages[p.index].name);
    } else {
      assert (ENTRY, r.tags[(ENTRY, LATEST)]) in r.published;
      assert Known(r, ENTRY);
    }
  }

  /** One step, seen from the registry it starts in. */
  lemma StepKeeps(b: Bundle, p: Phase, r: Remote)
    requires Loaded(b) && WellFormed(r) && PhaseHolds(b, p, r)
    ensures Keeps(b, r, Step(b, p, r))
  {
    StandingStill(b, r);
    hide Moves, WellFormed, AllUp, EntryLatest;
    match p {
      case Publishing(i) => StepPublishing(b, i, r);
      case Tagging(i) => StepTagging(b, i, r);
      case Latest => StepLatest(b, r);
      case Checking(_) => StepChecks(b, p, r);
      case CheckingLatest => StepChecks(b, p, r);
      case _ =>
    }
  }

  /** Past the last package, every package is up; before that, its step changes nothing but adds it. */
  lemma LastIsUp(b: Bundle, p: Phase, r: Remote)
    requires Loaded(b) && WellFormed(r) && PhaseHolds(b, p, r)
    requires (p.Publishing? || p.Tagging?) && p.index == |b.packages| - 1
    ensures Step(b, p, r).1 == r || AllUp(b, Step(b, p, r).1)
  {
    var i := p.index;
    StepKeeps(b, p, r);
    if p.Tagging? {
      StepTagging(b, i, r);
    } else if (b.packages[i].name, b.version) !in r.published {
      PublishMoves(b, r, i);
      UpToNext(b, Step(b, p, r).1, i);
    }
  }

  lemma StepHoldsLatest(b: Bundle, p: Phase, r: Remote)
    requires Loaded(b) && WellFormed(r) && PhaseHolds(b, p, r) && LatestComesLast(b)
    ensures LatestHeld(b, r, Step(b, p, r).1)
  {
    if p.Publishing? || p.Tagging? {
      hide Step;
      if b.packages[p.index].name == ENTRY && b.distTag == LATEST {
        hide PhaseHolds;
        LastIsUp(b, p, r);
      } else {
        hide AllUp, PhaseHolds;
      }
    } else if p.Latest? {
      StepKeeps(b, p, r);
      hide AllUp, Step;
      KeepsMeans(b, r, Step(b, p, r).0, Step(b, p, r).1);
      MovesKeepAllUp(b, r, Step(b, p, r).1);
    } else {
      assert Step(b, p, r).1 == r;
    }
  }

  lemma MovesKeepAllUp(b: Bundle, r: Remote, s: Remote)
    requires Moves(b, r, s) && AllUp(b, r)
    ensures AllUp(b, s)
  {
    MovesKeepUp(b, r, s, |b.packages|);
  }

  lemma KeepsMeans(b: Bundle, r: Remote, p: Phase, s: Remote)
    requires Keeps(b, r, (p, s))
    ensures WellFormed(s) && Moves(b, r, s) && PhaseHolds(b, p, s)
  {
  }

  // ---------- whole runs, with crashes ----------

  lemma {:induction false} StepsKeep(b: Bundle, p: Phase, r: Remote, n: nat)
    requires Loaded(b) && WellFormed(r) && PhaseHolds(b, p, r)
    ensures Keeps(b, r, Steps(b, p, r, n))
    ensures LatestComesLast(b) ==> LatestHeld(b, r, Steps(b, p, r, n).1)
    decreases n
  {
    hide Moves, Step, WellFormed, Loaded, AllUp, LatestComesLast, EntryLatest, UpTo, SameTag;
    StandingStill(b, r);
    if n > 0 {
      var (p1, r1) := Step(b, p, r);
      StepKeeps(b, p, r);
      StepsKeep(b, p1, r1, n - 1);
      if LatestComesLast(b) {
        StepHoldsLatest(b, p, r);
      }
      hide LatestHeld, PhaseHolds;
      MovesCompose(b, r, r1, Steps(b, p1, r1, n - 1).1);
    }
  }

  lemma {:induction false} LivesKeep(b: Bundle, r0: Remote, budgets: seq<nat>)
    requires Loaded(b) && WellFormed(r0)
    ensures var r := Lives(b, r0, budgets);
      WellFormed(r) && Moves(b, r0, r) && (LatestComesLast(b) ==> LatestHeld(b, r0, r))
    decreases |budgets|
  {
    StandingStill(b, r0);
    if budgets != [] {
      var n := |budgets| - 1;
      LivesKeep(b, r0, budgets[..n]);
      var r := Lives(b, r0, budgets[..n]);
      StepsKeep(b, ToPublish(b, 0), r, budgets[n]);
      MovesCompose(b, r0, r, Lives(b, r0, budgets));
    }
  }

  /** What holds of a process in phase `p` on registry `r`, when everything began at `r0`. */
  ghost predicate Safe(b: Bundle, r0: Remote, p: Phase, r: Remote) {
    && VersionsKept(b, r0, r) && TagsKept(b, r0, r)
    && (LatestComesLast(b) ==> LatestHeld(b, r0, r))
    && (p.Done? ==> AllUp(b, r) && EntryLatest(b, r))
    && (p.Stopped? ==> p.fault.NoIntegrity? || p.fault.Mismatch? || p.fault in {UnknownPackage(ENTRY), UnknownVersion(ENTRY)})
  }

  lemma SafeByPhase(b: Bundle, r0: Remote, p: Phase, r: Remote)
    requires Moves(b, r0, r) && PhaseHolds(b, p, r) && (LatestComesLast(b) ==> LatestHeld(b, r0, r))
    ensures Safe(b, r0, p, r)
  {
  }

  /**
   * At every moment of every run with crashes: no version was lost, replaced or invented, no
   * foreign tag moved, no command was refused, the entry's `latest` waits for everything to be up,
   * a process that returned left everything up, and one that threw had a mismatch or no entry.
   */
  lemma EveryMoment(b: Bundle, r0: Remote, crashes: seq<nat>, n: nat)
    requires Loaded(b) && WellFormed(r0)
    ensures var (p, r) := Steps(b, ToPublish(b, 0), Lives(b, r0, crashes), n); Safe(b, r0, p, r)
  {
    hide *;
    LivesKeep(b, r0, crashes);
    var before := Lives(b, r0, crashes);
    Beginning(b, before);
    StepsKeep(b, ToPublish(b, 0), before, n);
    var (p, r) := Steps(b, ToPublish(b, 0), before, n);
    KeepsMeans(b, before, p, r);
    MovesCompose(b, r0, before, r);
    SafeByPhase(b, r0, p, r);
  }

  lemma Beginning(b: Bundle, r: Remote)
    requires Loaded(b)
    ensures PhaseHolds(b, ToPublish(b, 0), r) && InRange(b, ToPublish(b, 0))
  {
  }

  lemma ReleasesAreThere(b: Bundle, r: Remote, key: (string, string), integrity: string)
    requires AllUp(b, r) && Releases(b, key, integrity)
    ensures key in r.published
  {
    var i :| 0 <= i < |b.packages| && key == (b.packages[i].name, b.version);
    assert Up(b, r, i);
  }

  lemma OwnTagsPoint(b: Bundle, r: Remote, key: (string, string))
    requires AllUp(b, r) && EntryLatest(b, r) && OwnTag(b, key)
    ensures key in r.tags && r.tags[key] == b.version
  {
    if i :| 0 <= i < |b.packages| && key == (b.packages[i].name, b.distTag) {
      assert Up(b, r, i);
    }
  }

  /** Once everything is up, whatever keeps versions and tags changes nothing: publishing again is idle. */
  lemma NothingLeft(b: Bundle, r: Remote, s: Remote)
    requires Moves(b, r, s) && AllUp(b, r) && EntryLatest(b, r)
    ensures s == r
  {
    forall key ensures key in s.published ==> key in r.published {
      if key in s.published {
        if Releases(b, key, s.published[key]) {
          ReleasesAreThere(b, r, key, s.published[key]);
        }
      }
    }
    forall key ensures SameTag(r, s, key) {
      assert TagKept(b, r, s, key);
      if OwnTag(b, key) {
        OwnTagsPoint(b, r, key);
      }
    }
    assert s.published == r.published;
    SameTags(r, s);
  }

  lemma SameTags(r: Remote, s: Remote)
    requires forall key :: SameTag(r, s, key)
    ensures r.tags == s.tags
  {
    forall key ensures (key in r.tags <==> key in s.tags) && (key in r.tags ==> r.tags[key] == s.tags[key]) {
      assert SameTag(r, s, key);
    }
  }

  lemma PublishAgain(b: Bundle, r: Remote, n: nat)
    requires Loaded(b) && WellFormed(r) && AllUp(b, r) && EntryLatest(b, r)
    ensures Steps(b, ToPublish(b, 0), r, n).1 == r
  {
    StepsKeep(b, ToPublish(b, 0), r, n);
    NothingLeft(b, r, Steps(b, ToPublish(b, 0), r, n).1);
  }

  // ---------- when a process returns ----------

  /** Nothing in the registry contradicts the bundle, and the entry package is there or in the bundle. */
  ghost predicate Compatible(b: Bundle, r: Remote) {
    && (forall i :: 0 <= i < |b.packages| && (b.packages[i].name, b.version) in r.published ==> Recorded(b, r, i))
    && ((ENTRY, b.version) in r.published || exists i :: 0 <= i < |b.packages| && b.packages[i].name == ENTRY)
  }

  /** Neither a crash nor a run makes a release possible or impossible. */
  lemma CompatibleLasts(b: Bundle, r: Remote, s: Remote)
    requires Loaded(b) && Moves(b, r, s)
    ensures Compatible(b, r) <==> Compatible(b, s)
  {
    forall i | 0 <= i < |b.packages| && (b.packages[i].name, b.version) in s.published && (b.packages[i].name, b.version) !in r.published
      ensures Recorded(b, s, i)
    {
      assert Releases(b, (b.packages[i].name, b.version), s.published[(b.packages[i].name, b.version)]);
    }
    if Compatible(b, r) {
      forall i | 0 <= i < |b.packages| && (b.packages[i].name, b.version) in s.published ensures Recorded(b, s, i) {
        assert (b.packages[i].name, b.version) in r.published ==> Recorded(b, r, i);
      }
    }
    if Compatible(b, s) {
      forall i | 0 <= i < |b.packages| && (b.packages[i].name, b.version) in r.published ensures Recorded(b, r, i) {
        assert Recorded(b, s, i);
      }
    }
  }

  function Rank(b: Bundle, p: Phase): int {
    match p
    case Publishing(i) => 2 * (|b.packages| - i) + |b.packages| + 2
    case Tagging(i) => 2 * (|b.packages| - i) + |b.packages| + 1
    case Latest => |b.packages| + 2
    case Checking(i) => |b.packages| - i + 1
    case CheckingLatest => 1
    case Done => 0
    case Stopped(_) => 0
  }

  lemma EntryIsThere(b: Bundle, r: Remote)
    requires AllUp(b, r) && Compatible(b, r)
    ensures (ENTRY, b.version) in r.published
  {
    if i :| 0 <= i < |b.packages| && b.packages[i].name == ENTRY {
      assert Up(b, r, i);
    }
  }

  lemma StepGoesOn(b: Bundle, p: Phase, r: Remote)
    requires Loaded(b) && WellFormed(r) && PhaseHolds(b, p, r) && Compatible(b, r) && !p.Stopped?
    ensures var q := Step(b, p, r).0; !q.Stopped? && (!p.Done? ==> Rank(b, q) == Rank(b, p) - 1)
  {
    match p {
      case Publishing(i) =>
        assert (b.packages[i].name, b.version) in r.published ==> Recorded(b, r, i);
      case Tagging(i) => StepTagging(b, i, r);
      case Latest =>
        StepLatest(b, r);
        EntryIsThere(b, r);
      case Checking(_) => StepChecks(b, p, r);
      case CheckingLatest => StepChecks(b, p, r);
      case _ =>
    }
  }

  lemma {:induction false} StepsReturn(b: Bundle, p: Phase, r: Remote, n: nat)
    requires Loaded(b) && WellFormed(r) && PhaseHolds(b, p, r) && Compatible(b, r) && !p.Stopped? && n >= Rank(b, p)
    ensures Steps(b, p, r, n).0 == Done
    decreases n
  {
    if n > 0 {
      hide Step, Moves, WellFormed, Loaded, Compatible, AllUp, EntryLatest, UpTo;
      StepKeeps(b, p, r);
      StepGoesOn(b, p, r);
      var (q, s) := Step(b, p, r);
      CompatibleLasts(b, r, s);
      StepsReturn(b, q, s, n - 1);
    }
  }

  /**
   * After any crashes, a process left alone returns exactly when the release was possible in the
   * first place, and every returning process leaves everything up.
   */
  lemma ReturnsExactly(b: Bundle, r0: Remote, crashes: seq<nat>, n: nat)
    requires Loaded(b) && WellFormed(r0) && n >= 3 * |b.packages| + 2
    ensures var (p, r) := Steps(b, ToPublish(b, 0), Lives(b, r0, crashes), n);
      && (p == Done <==> Compatible(b, r0))
      && (p == Done ==> AllUp(b, r) && EntryLatest(b, r))
  {
    LivesKeep(b, r0, crashes);
    var before := Lives(b, r0, crashes);
    CompatibleLasts(b, r0, before);
    StepsKeep(b, ToPublish(b, 0), before, n);
    var (p, r) := Steps(b, ToPublish(b, 0), before, n);
    if Compatible(b, before) {
      StepsReturn(b, ToPublish(b, 0), before, n);
    }
    if p == Done {
      assert (ENTRY, r.tags[(ENTRY, LATEST)]) in r.published;
      forall i | 0 <= i < |b.packages| ensures Recorded(b, r, i) {
        assert Up(b, r, i);
      }
      assert Compatible(b, r);
      CompatibleLasts(b, before, r);
    }
  }

  lemma EndsForGood(b: Bundle, p: Phase, r: Remote, n: nat)
    requires p.Stopped? || p.Done?
    ensures Steps(b, p, r, n) == (p, r)
  {
    if n > 0 {
      EndsForGood(b, p, r, n - 1);
    }
  }

  // ---------- a mismatch ----------

  /** Package `j` exists at this version with another integrity. */
  ghost predicate Clashes(b: Bundle, r: Remote, j: nat)
    requires j < |b.packages|
  {
    (b.packages[j].name, b.version) in r.published && !Recorded(b, r, j)
  }

  ghost predicate SameFor(r: Remote, s: Remote, name: string) {
    && (forall key: (string, string) :: key.0 == name ==> (key in r.published <==> key in s.published))
    && (forall key: (string, string) :: key.0 == name && key in r.published ==> r.published[key] == s.published[key])
    && (forall key: (string, string) :: key.0 == name ==> SameTag(r, s, key))
  }

  ghost predicate Named(b: Bundle, j: nat, name: string)
    requires j <= |b.packages|
  {
    exists i :: 0 <= i < j && b.packages[i].name == name
  }

  /** Not past package `j`, or given up. */
  ghost predicate NotPast(p: Phase, j: nat) {
    p.Stopped? || (p.Publishing? && p.index <= j) || (p.Tagging? && p.index < j)
  }

  ghost predicate OthersSame(b: Bundle, j: nat, r: Remote, s: Remote)
    requires j <= |b.packages|
  {
    forall name :: Named(b, j, name) || SameFor(r, s, name)
  }

  lemma StepBeforeClash(b: Bundle, p: Phase, r: Remote, j: nat)
    requires Loaded(b) && j < |b.packages| && InRange(b, p) && NotPast(p, j) && Clashes(b, r, j)
    ensures var (q, s) := Step(b, p, r);
      InRange(b, q) && NotPast(q, j) && Clashes(b, s, j) && OthersSame(b, j, r, s)
  {
  }

  lemma SameThrough(b: Bundle, j: nat, r: Remote, s: Remote, t: Remote)
    requires j <= |b.packages| && OthersSame(b, j, r, s) && OthersSame(b, j, s, t)
    ensures OthersSame(b, j, r, t)
  {
    forall name ensures Named(b, j, name) || SameFor(r, t, name) {
      if !Named(b, j, name) {
        assert SameFor(r, s, name) && SameFor(s, t, name);
      }
    }
  }

  lemma {:induction false} StepsBeforeClash(b: Bundle, p: Phase, r: Remote, j: nat, n: nat)
    requires Loaded(b) && j < |b.packages| && InRange(b, p) && NotPast(p, j) && Clashes(b, r, j)
    ensures var (q, s) := Steps(b, p, r, n);
      NotPast(q, j) && Clashes(b, s, j) && OthersSame(b, j, r, s)
    decreases n
  {
    if n > 0 {
      var (p1, r1) := Step(b, p, r);
      StepBeforeClash(b, p, r, j);
      StepsBeforeClash(b, p1, r1, j, n - 1);
      hide Step, Loaded, InRange, NotPast, Clashes, OthersSame;
      SameThrough(b, j, r, r1, Steps(b, p1, r1, n - 1).1);
    }
  }

  /**
   * Once package `j` is there with another integrity, no process, however often restarted, returns
   * or changes any version or any tag of a package that is not listed before `j`.
   */
  lemma {:induction false} MismatchStops(b: Bundle, r0: Remote, crashes: seq<nat>, j: nat, n: nat)
    requires Loaded(b) && j < |b.packages| && Clashes(b, r0, j)
    ensures var (p, r) := Steps(b, ToPublish(b, 0), Lives(b, r0, crashes), n);
      NotPast(p, j) && Clashes(b, r, j) && OthersSame(b, j, r0, r)
    decreases |crashes|
  {
    var before := Lives(b, r0, crashes);
    if crashes != [] {
      var k := |crashes| - 1;
      MismatchStops(b, r0, crashes[..k], j, crashes[k]);
    }
    assert Clashes(b, before, j) && OthersSame(b, j, r0, before);
    StepsBeforeClash(b, ToPublish(b, 0), before, j, n);
  }

  lemma {:induction false} StepsPlus(b: Bundle, p: Phase, r: Remote, m: nat, n: nat)
    requires InRange(b, p)
    ensures var s := Steps(b, p, r, m); Steps(b, p, r, m + n) == Steps(b, s.0, s.1, n)
    decreases m
  {
    if m > 0 {
      var s := Step(b, p, r);
      StepsPlus(b, s.0, s.1, m - 1, n);
    }
  }

  // ---------- the fault that stops a process ----------

  /** None of the first `k` packages clashes. */
  ghost predicate NoClash(b: Bundle, r: Remote, k: nat)
    requires k <= |b.packages|
  {
    forall i :: 0 <= i < k ==> !Clashes(b, r, i)
  }

  /** A clash is neither made nor mended. */
  lemma ClashLasts(b: Bundle, r: Remote, s: Remote, j: nat)
    requires Loaded(b) && Moves(b, r, s) && j < |b.packages|
    ensures Clashes(b, r, j) <==> Clashes(b, s, j)
    ensures Clashes(b, r, j) ==> s.published[(b.packages[j].name, b.version)] == r.published[(b.packages[j].name, b.version)]
  {
    var key := (b.packages[j].name, b.version);
    if key in s.published && key !in r.published {
      assert Releases(b, key, s.published[key]);
    }
  }

  lemma TwoSteps(b: Bundle, i: nat, r: Remote)
    requires Loaded(b) && WellFormed(r) && i < |b.packages| && PhaseHolds(b, Publishing(i), r) && !Clashes(b, r, i)
    ensures var (q, s) := Steps(b, Publishing(i), r, 2); q == ToPublish(b, i + 1) && Keeps(b, r, (q, s))
  {
    var (q1, r1) := Step(b, Publishing(i), r);
    assert (b.packages[i].name, b.version) in r.published ==> Recorded(b, r, i);
    assert q1 == Tagging(i);
    hide Step, Moves, WellFormed, UpTo;
    StepPublishing(b, i, r);
    KeepsMeans(b, r, q1, r1);
    StepTagging(b, i, r1);
    var (q2, r2) := Step(b, Tagging(i), r1);
    KeepsMeans(b, r1, q2, r2);
    MovesCompose(b, r, r1, r2);
    assert Steps(b, q1, r1, 1) == Steps(b, q2, r2, 0) == (q2, r2);
  }

  /** Without a clash the first `k` packages take two steps each. */
  lemma {:induction false} FirstPackagesUp(b: Bundle, r: Remote, k: nat)
    requires Loaded(b) && WellFormed(r) && k <= |b.packages| && NoClash(b, r, k)
    ensures var (q, s) := Steps(b, ToPublish(b, 0), r, 2 * k); q == ToPublish(b, k) && Keeps(b, r, (q, s))
  {
    hide Step, Moves, WellFormed, Loaded, UpTo, PhaseHolds, Clashes;
    if k == 0 {
      StandingStill(b, r);
      Beginning(b, r);
      MakesKeeps(b, r, ToPublish(b, 0), r);
    } else {
      FirstPackagesUp(b, r, k - 1);
      var (q, s) := Steps(b, ToPublish(b, 0), r, 2 * (k - 1));
      KeepsMeans(b, r, q, s);
      ClashLasts(b, r, s, k - 1);
      Beginning(b, r);
      StepsPlus(b, ToPublish(b, 0), r, 2 * (k - 1), 2);
      TwoSteps(b, k - 1, s);
      var (q2, s2) := Steps(b, q, s, 2);
      KeepsMeans(b, s, q2, s2);
      MovesCompose(b, r, s, s2);
      MakesKeeps(b, r, q2, s2);
    }
  }

  lemma MakesKeeps(b: Bundle, r: Remote, p: Phase, s: Remote)
    requires WellFormed(s) && Moves(b, r, s) && PhaseHolds(b, p, s)
    ensures Keeps(b, r, (p, s))
  {
  }

  /** What is wrong with package `j`: another integrity, or none at all. */
  ghost function ClashFault(b: Bundle, r: Remote, j: nat): Fault
    requires j < |b.packages| && Clashes(b, r, j)
  {
    if SHA512 <= r.published[(b.packages[j].name, b.version)] then Mismatch(b.packages[j].name)
    else NoIntegrity(b.packages[j].name)
  }

  lemma ClashStops(b: Bundle, r: Remote, j: nat)
    requires j < |b.packages| && Clashes(b, r, j)
    ensures Step(b, Publishing(j), r) == (Stopped(ClashFault(b, r, j)), r)
  {
  }

  /** After any crashes, a process left alone stops at the first package that clashes, and names it. */
  lemma FirstClashStops(b: Bundle, r0: Remote, crashes: seq<nat>, j: nat, n: nat)
    requires Loaded(b) && WellFormed(r0) && j < |b.packages| && Clashes(b, r0, j) && NoClash(b, r0, j) && n >= 2 * j + 1
    ensures Steps(b, ToPublish(b, 0), Lives(b, r0, crashes), n).0 == Stopped(ClashFault(b, r0, j))
  {
    hide Step, Moves, WellFormed, Loaded, UpTo, PhaseHolds, Clashes;
    LivesKeep(b, r0, crashes);
    var r := Lives(b, r0, crashes);
    forall i | 0 <= i < |b.packages| ensures Clashes(b, r0, i) <==> Clashes(b, r, i) {
      ClashLasts(b, r0, r, i);
    }
    FirstPackagesUp(b, r, j);
    var (q, s) := Steps(b, ToPublish(b, 0), r, 2 * j);
    KeepsMeans(b, r, q, s);
    ClashLasts(b, r0, r, j);
    ClashLasts(b, r, s, j);
    Beginning(b, r);
    StepsPlus(b, ToPublish(b, 0), r, 2 * j, n - 2 * j);
    ClashStops(b, s, j);
    EndsForGood(b, Stopped(ClashFault(b, s, j)), s, n - 2 * j - 1);
  }

  /** Without a clash, one that cannot find the entry package stops when everything is up, and names that. */
  lemma NoEntryStops(b: Bundle, r0: Remote, crashes: seq<nat>, n: nat)
    requires Loaded(b) && WellFormed(r0) && NoClash(b, r0, |b.packages|) && !Compatible(b, r0) && n >= 2 * |b.packages| + 1
    ensures var (p, r) := Steps(b, ToPublish(b, 0), Lives(b, r0, crashes), n);
      AllUp(b, r) && p == Stopped(if exists v :: (ENTRY, v) in r.published then UnknownVersion(ENTRY) else UnknownPackage(ENTRY))
  {
    hide *;
    LivesKeep(b, r0, crashes);
    var r := Lives(b, r0, crashes);
    NoClashLasts(b, r0, r);
    CompatibleLasts(b, r0, r);
    Beginning(b, r);
    EntryStopsAt(b, r, n);
    KnownMeans(Steps(b, ToPublish(b, 0), r, n).1, ENTRY);
  }

  lemma KnownMeans(r: Remote, name: string)
    ensures Known(r, name) <==> exists v :: (name, v) in r.published
  {
    if key :| key in r.published && key.0 == name {
      assert (name, key.1) in r.published;
    }
    if v :| (name, v) in r.published {
      assert (name, v).0 == name;
    }
  }

  lemma NoClashLasts(b: Bundle, r: Remote, s: Remote)
    requires Loaded(b) && Moves(b, r, s) && NoClash(b, r, |b.packages|)
    ensures NoClash(b, s, |b.packages|)
  {
    hide Moves, Loaded, Clashes;
    forall i | 0 <= i < |b.packages| ensures !Clashes(b, s, i) {
      ClashLasts(b, r, s, i);
    }
  }

  lemma EntryStopsAt(b: Bundle, r: Remote, n: nat)
    requires Loaded(b) && WellFormed(r) && NoClash(b, r, |b.packages|) && !Compatible(b, r) && n >= 2 * |b.packages| + 1
    requires InRange(b, ToPublish(b, 0))
    ensures var (p, s) := Steps(b, ToPublish(b, 0), r, n);
      AllUp(b, s) && p == Stopped(if Known(s, ENTRY) then UnknownVersion(ENTRY) else UnknownPackage(ENTRY))
  {
    var k := |b.packages|;
    hide Step, Moves, WellFormed, Loaded, UpTo, PhaseHolds, NoClash, Compatible, Known, AllUp;
    FirstPackagesUp(b, r, k);
    var (q, s) := Steps(b, ToPublish(b, 0), r, 2 * k);
    KeepsMeans(b, r, q, s);
    CompatibleLasts(b, r, s);
    StepsPlus(b, ToPublish(b, 0), r, 2 * k, n - 2 * k);
    EntryStops(b, s);
    EndsForGood(b, Step(b, Latest, s).0, s, n - 2 * k - 1);
  }

  lemma EntryStops(b: Bundle, r: Remote)
    requires WellFormed(r) && PhaseHolds(b, Latest, r) && !Compatible(b, r)
    ensures AllUp(b, r)
    ensures Step(b, Latest, r) == (Stopped(if Known(r, ENTRY) then UnknownVersion(ENTRY) else UnknownPackage(ENTRY)), r)
  {
    forall i | 0 <= i < |b.packages| ensures Recorded(b, r, i) {
      assert Up(b, r, i);
    }
    assert (ENTRY, LATEST) in r.tags ==> (ENTRY, r.tags[(ENTRY, LATEST)]) in r.published;
  }

  // ---------- a release tagged `latest` ----------

  const NOTHING := Remote(map[], map[])

  /** The registry holds the first `k` packages and nothing else. */
  ghost predicate OnlyFirst(b: Bundle, k: nat, r: Remote)
    requires k <= |b.packages|
  {
    UpTo(b, r, k) && forall key :: key in r.published ==> exists i :: 0 <= i < k && key == (b.packages[i].name, b.version)
  }

  ghost predicate FirstUp(b: Bundle, k: nat, s: (Phase, Remote))
    requires k <= |b.packages|
  {
    s.0 == ToPublish(b, k) && OnlyFirst(b, k, s.1) && WellFormed(s.1)
  }

  lemma PublishNext(b: Bundle, k: nat, r: Remote)
    requires Loaded(b) && k < |b.packages| && WellFormed(r) && OnlyFirst(b, k, r)
    ensures FirstUp(b, k + 1, Steps(b, Publishing(k), r, 2))
  {
    assert (b.packages[k].name, b.version) !in r.published;
    PublishMoves(b, r, k);
    var s := NpmPublish(r, b.packages[k], b.version, b.distTag).value;
    assert Step(b, Publishing(k), r) == (Tagging(k), s);
    MovesKeepUp(b, r, s, k);
    assert Known(s, b.packages[k].name) by { assert (b.packages[k].name, b.version) in s.published; }
    assert Step(b, Tagging(k), s) == (ToPublish(b, k + 1), s);
    assert Steps(b, Publishing(k), r, 2) == Steps(b, Tagging(k), s, 1) == Steps(b, ToPublish(b, k + 1), s, 0);
    assert forall key :: key in s.published ==> key in r.published || key == (b.packages[k].name, b.version);
  }

  lemma PublishMore(b: Bundle, k: nat, r0: Remote, n: nat)
    requires Loaded(b) && k < |b.packages| && FirstUp(b, k, Steps(b, ToPublish(b, 0), r0, n))
    ensures FirstUp(b, k + 1, Steps(b, ToPublish(b, 0), r0, n + 2))
  {
    hide Loaded, Step, Steps, OnlyFirst, WellFormed;
    StepsPlus(b, ToPublish(b, 0), r0, n, 2);
    PublishNext(b, k, Steps(b, ToPublish(b, 0), r0, n).1);
  }

  lemma {:induction false} PublishFirst(b: Bundle, k: nat)
    requires Loaded(b) && k <= |b.packages|
    ensures FirstUp(b, k, Steps(b, ToPublish(b, 0), NOTHING, 2 * k))
  {
    hide Loaded, Step;
    if k == 0 {
      assert Steps(b, ToPublish(b, 0), NOTHING, 0) == (ToPublish(b, 0), NOTHING);
    } else {
      hide FirstUp, Steps;
      PublishFirst(b, k - 1);
      PublishMore(b, k - 1, NOTHING, 2 * (k - 1));
    }
  }

  /** With packages after the entry, a process dying just after it leaves `latest` on a partial release. */
  lemma LatestTooEarly(b: Bundle, i: nat)
    requires Loaded(b) && b.distTag == LATEST && i < |b.packages| - 1 && b.packages[i].name == ENTRY
    ensures !LatestHeld(b, NOTHING, Lives(b, NOTHING, [2 * (i + 1)]))
  {
    PublishFirst(b, i + 1);
    OneLife(b, NOTHING, 2 * (i + 1));
    hide Lives, Steps, WellFormed;
    var r := Lives(b, NOTHING, [2 * (i + 1)]);
    var last := |b.packages| - 1;
    assert Up(b, r, i);
    assert (b.packages[last].name, b.version) !in r.published;
    assert !Up(b, r, last);
  }

  /**
   * The entry's `latest` waits for everything to be up, on every registry and under every crash,
   * exactly when the release's own tag is not `latest` or nothing follows the entry package.
   */
  lemma LatestWaitsExactly(b: Bundle)
    requires Loaded(b)
    ensures LatestComesLast(b) <==> forall r0, crashes :: WellFormed(r0) ==> LatestHeld(b, r0, Lives(b, r0, crashes))
  {
    hide Lives, LatestHeld, Moves;
    if LatestComesLast(b) {
      forall r0, crashes | WellFormed(r0) ensures LatestHeld(b, r0, Lives(b, r0, crashes)) {
        LivesKeep(b, r0, crashes);
      }
    } else {
      var i :| 0 <= i < |b.packages| - 1 && b.packages[i].name == ENTRY;
      LatestTooEarly(b, i);
      assert WellFormed(NOTHING);
    }
  }

  lemma OneLife(b: Bundle, r: Remote, n: nat)
    ensures Lives(b, r, [n]) == Steps(b, ToPublish(b, 0), r, n).1
  {
    assert [n][..0] == [];
    assert Lives(b, r, []) == r;
  }

  // ---------- the `verify` command ----------

  ghost predicate UpFrom(b: Bundle, r: Remote, i: nat) {
    forall k :: i <= k < |b.packages| ==> Up(b, r, k)
  }

  lemma CheckOne(b: Bundle, r: Remote, i: nat)
    requires Loaded(b) && WellFormed(r) && i < |b.packages|
    ensures var (q, s) := Step(b, Checking(i), r);
      s == r && if Up(b, r, i) then q == ToCheck(b, i + 1) else q.Stopped?
  {
    assert (b.packages[i].name, b.version) in r.published ==> Known(r, b.packages[i].name);
  }

  lemma CheckEntry(b: Bundle, r: Remote)
    requires WellFormed(r)
    ensures Step(b, CheckingLatest, r).0 == Done <==> EntryLatest(b, r)
  {
    assert (ENTRY, LATEST) in r.tags ==> (ENTRY, r.tags[(ENTRY, LATEST)]) in r.published;
    assert EntryLatest(b, r) ==> Known(r, ENTRY);
  }

  lemma {:induction false} ChecksFind(b: Bundle, r: Remote, i: nat)
    requires Loaded(b) && WellFormed(r) && i <= |b.packages|
    ensures Steps(b, ToCheck(b, i), r, |b.packages| - i + 1).0 == Done <==> UpFrom(b, r, i) && EntryLatest(b, r)
    decreases |b.packages| - i
  {
    hide Up, EntryLatest, WellFormed, Loaded, Step;
    if i == |b.packages| {
      CheckEntry(b, r);
      assert Steps(b, CheckingLatest, r, 1) == Step(b, CheckingLatest, r);
    } else {
      CheckOne(b, r, i);
      ChecksFind(b, r, i + 1);
      var q := Step(b, Checking(i), r).0;
      if q.Stopped? {
        EndsForGood(b, q, r, |b.packages| - i);
      }
      assert UpFrom(b, r, i) <==> Up(b, r, i) && UpFrom(b, r, i + 1);
    }
  }

  /** `verify` succeeds on exactly the registries that publication is to reach. */
  lemma VerifyExact(b: Bundle, r: Remote)
    requires Loaded(b) && WellFormed(r)
    ensures Steps(b, ToCheck(b, 0), r, |b.packages| + 1).0 == Done <==> AllUp(b, r) && EntryLatest(b, r)
  {
    ChecksFind(b, r, 0);
    assert UpFrom(b, r, 0) <==> AllUp(b, r);
  }

  // ---------- the process itself ----------

  /** The registry behind the npm commands. */
  class Registry {
    var published: map<(string, string), string>
    var tags: map<(string, string), string>

    function View(): Remote
      reads this
    {
      Remote(published, tags)
    }

    method Publish(p: Packed, version: string, tag: string) returns (fault: Option<Fault>)
      modifies this
      ensures NpmPublish(old(View()), p, version, tag) == if fault.None? then Success(View()) else Failure(fault.value)
      ensures fault.Some? ==> View() == old(View())
    {
      if (p.name, version) in published {
        return Some(Conflict(p.name));
      }
      published := published[(p.name, version) := p.integrity];
      tags := tags[(p.name, tag) := version];
      fault := None;
    }

    method EnsureDistTag(name: string, version: string, tag: string) returns (fault: Option<Fault>)
      modifies this
      ensures EnsureTag(old(View()), name, version, tag) == if fault.None? then Success(View()) else Failure(fault.value)
      ensures fault.Some? ==> View() == old(View())
    {
      var at := RemoteTag(View(), name, tag);
      if at.Failure? {
        return Some(at.error);
      }
      if at.value == Some(version) {
        return None;
      }
      if (name, version) !in published {
        return Some(UnknownVersion(name));
      }
      tags := tags[(name, tag) := version];
      fault := None;
    }
  }

  /** `publish`, killed after `budget` steps; the answer is how far it came. */
  method PublishRelease(b: Bundle, registry: Registry, budget: nat) returns (phase: Phase)
    requires b.packages != []
    modifies registry
    ensures (phase, registry.View()) == Steps(b, ToPublish(b, 0), old(registry.View()), budget)
  {
    var left := budget;
    for i := 0 to |b.packages|
      invariant Steps(b, ToPublish(b, i), registry.View(), left) == Steps(b, ToPublish(b, 0), old(registry.View()), budget)
    {
      var pkg := b.packages[i];
      if left == 0 { return Publishing(i); }
      left := left - 1;
      var existing := RemoteIntegrity(registry.View(), pkg.name, b.version);
      if existing.Failure? {
        EndsForGood(b, Stopped(existing.error), registry.View(), left);
        return Stopped(existing.error);
      }
      if existing.value.None? {
        var fault := registry.Publish(pkg, b.version, b.distTag);
        if fault.Some? {
          EndsForGood(b, Stopped(fault.value), registry.View(), left);
          return Stopped(fault.value);
        }
      } else if existing.value.value != pkg.integrity {
        EndsForGood(b, Stopped(Mismatch(pkg.name)), registry.View(), left);
        return Stopped(Mismatch(pkg.name));
      }
      if left == 0 { return Tagging(i); }
      left := left - 1;
      var fault := registry.EnsureDistTag(pkg.name, b.version, b.distTag);
      if fault.Some? {
        EndsForGood(b, Stopped(fault.value), registry.View(), left);
        return Stopped(fault.value);
      }
    }
    if left == 0 { return Latest; }
    left := left - 1;
    var fault := registry.EnsureDistTag(ENTRY, b.version, LATEST);
    if fault.Some? {
      EndsForGood(b, Stopped(fault.value), registry.View(), left);
      return Stopped(fault.value);
    }
    phase := Verify(b, registry, left);
  }

  /** `verifyRemote`, then `verifyReleaseEntryDistTag`. */
  method Verify(b: Bundle, registry: Registry, budget: nat) returns (phase: Phase)
    ensures (phase, registry.View()) == Steps(b, ToCheck(b, 0), registry.View(), budget)
  {
    var left := budget;
    for i := 0 to |b.packages|
      invariant Steps(b, ToCheck(b, i), registry.View(), left) == Steps(b, ToCheck(b, 0), registry.View(), budget)
    {
      if left == 0 { return Checking(i); }
      left := left - 1;
      var pkg := b.packages[i];
      var integrity := RemoteIntegrity(registry.View(), pkg.name, b.version);
      var at := RemoteTag(registry.View(), pkg.name, b.distTag);
      var fault :=
        if integrity.Failure? then Some(integrity.error)
        else if integrity.value.None? then Some(Missing(pkg.name))
        else if integrity.value.value != pkg.integrity then Some(Mismatch(pkg.name))
        else if at.Failure? then Some(at.error)
        else if at.value != Some(b.version) then Some(WrongTag(pkg.name))
        else None;
      if fault.Some? {
        EndsForGood(b, Stopped(fault.value), registry.View(), left);
        return Stopped(fault.value);
      }
    }
    if left == 0 { return CheckingLatest; }
    left := left - 1;
    var at := RemoteTag(registry.View(), ENTRY, LATEST);
    phase :=
      if at.Failure? then Stopped(at.error)
      else if at.value != Some(b.version) then Stopped(WrongTag(ENTRY))
      else Done;
    EndsForGood(b, phase, registry.View(), left);
  }
}
