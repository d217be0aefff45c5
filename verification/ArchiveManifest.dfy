/** The append-only manifest of archived notes: scripts/archived-agent-notes.ts. Hashing is any function. */
module ArchiveManifest {

  datatype Sealing = ArtifactMissing(path: string) | ContentChanged(path: string)
  datatype Sealed = EntryMissing(path: string) | HashChanged(path: string)

  /** Every sealed entry still has its content. */
  ghost predicate Intact<C, H>(files: map<string, H>, artifacts: map<string, C>, hash: C -> H) {
    forall p :: p in files ==> p in artifacts && hash(artifacts[p]) == files[p]
  }

  function Hashes<C, H>(artifacts: map<string, C>, hash: C -> H): map<string, H> {
    map p | p in artifacts :: hash(artifacts[p])
  }

  /** Sealed entries as they are, and a hash for every other artifact. */
  function Extended<C, H>(existing: map<string, H>, artifacts: map<string, C>, hash: C -> H): map<string, H> {
    Hashes(artifacts, hash) + existing
  }

  /** The first loop of `extendArchiveManifest`, entries taken in any order. */
  method CheckSealed<C, H(==)>(existing: map<string, H>, artifacts: map<string, C>, hash: C -> H) returns (errors: set<Sealing>)
    ensures forall p :: ArtifactMissing(p) in errors <==> p in existing && p !in artifacts
    ensures forall p :: ContentChanged(p) in errors <==> p in existing && p in artifacts && hash(artifacts[p]) != existing[p]
    ensures errors == {} <==> Intact(existing, artifacts, hash)
  {
    errors := {};
    var sealed := existing.Keys;
    while sealed != {}
      invariant sealed <= existing.Keys
      invariant forall p :: ArtifactMissing(p) in errors <==> p in existing.Keys - sealed && p !in artifacts
      invariant forall p :: ContentChanged(p) in errors <==>
        p in existing.Keys - sealed && p in artifacts && hash(artifacts[p]) != existing[p]
    {
      var path :| path in sealed;
      sealed := sealed - {path};
      if path !in artifacts {
        errors := errors + {ArtifactMissing(path)};
      } else if hash(artifacts[path]) != existing[path] {
        errors := errors + {ContentChanged(path)};
      }
    }
    if errors != {} {
      var e :| e in errors;
      match e {
        case ArtifactMissing(p) => assert p in existing && p !in artifacts;
        case ContentChanged(p) => assert p in existing && p in artifacts && hash(artifacts[p]) != existing[p];
      }
    }
    forall p | p in existing ensures errors == {} ==> p in artifacts && hash(artifacts[p]) == existing[p] {
      assert errors == {} ==> ArtifactMissing(p) !in errors && ContentChanged(p) !in errors;
    }
  }

  /** `extendArchiveManifest`. */
  method Extend<C, H(==)>(existing: map<string, H>, artifacts: map<string, C>, hash: C -> H)
    returns (files: map<string, H>, added: set<string>, errors: set<Sealing>)
    ensures files == Extended(existing, artifacts, hash)
    ensures added == artifacts.Keys - existing.Keys
    ensures forall p :: ArtifactMissing(p) in errors <==> p in existing && p !in artifacts
    ensures forall p :: ContentChanged(p) in errors <==> p in existing && p in artifacts && hash(artifacts[p]) != existing[p]
    ensures errors == {} <==> Intact(existing, artifacts, hash)
  {
    errors := CheckSealed(existing, artifacts, hash);
    files := existing;
    added := {};
    var rest := artifacts.Keys;
    while rest != {}
      invariant rest <= artifacts.Keys
      invariant added == (artifacts.Keys - rest) - existing.Keys
      invariant files.Keys == existing.Keys + added
      invariant forall p :: p in existing ==> files[p] == existing[p]
      invariant forall p :: p in added ==> files[p] == hash(artifacts[p])
    {
      var path :| path in rest;
      rest := rest - {path};
      if path !in files {
        files := files[path := hash(artifacts[path])];
        added := added + {path};
      }
    }
  }

  /** `validateArchiveManifestExtension`. */
  method Validate<H(==)>(baseline: map<string, H>, current: map<string, H>) returns (errors: set<Sealed>)
    ensures forall p :: EntryMissing(p) in errors <==> p in baseline && p !in current
    ensures forall p :: HashChanged(p) in errors <==> p in baseline && p in current && current[p] != baseline[p]
    ensures errors == {} <==> Extends(baseline, current)
  {
    errors := {};
    var sealed := baseline.Keys;
    while sealed != {}
      invariant sealed <= baseline.Keys
      invariant forall p :: EntryMissing(p) in errors <==> p in baseline.Keys - sealed && p !in current
      invariant forall p :: HashChanged(p) in errors <==>
        p in baseline.Keys - sealed && p in current && current[p] != baseline[p]
    {
      var path :| path in sealed;
      sealed := sealed - {path};
      if path !in current {
        errors := errors + {EntryMissing(path)};
      } else if current[path] != baseline[path] {
        errors := errors + {HashChanged(path)};
      }
    }
    if errors != {} {
      var e :| e in errors;
      match e {
        case EntryMissing(p) => assert p in baseline && p !in current;
        case HashChanged(p) => assert p in baseline && p in current && current[p] != baseline[p];
      }
    }
    forall p | p in baseline ensures errors == {} ==> p in current && current[p] == baseline[p] {
      assert errors == {} ==> EntryMissing(p) !in errors && HashChanged(p) !in errors;
    }
  }

  ghost predicate Extends<H>(baseline: map<string, H>, current: map<string, H>) {
    forall p :: p in baseline ==> p in current && current[p] == baseline[p]
  }

  /** Without errors the manifest is exactly path to hash over the artifacts, and only then. */
  lemma ErrorFreeIsExact<C, H>(existing: map<string, H>, artifacts: map<string, C>, hash: C -> H)
    ensures Intact(existing, artifacts, hash) <==> Extended(existing, artifacts, hash) == Hashes(artifacts, hash)
  {
    var files := Extended(existing, artifacts, hash);
    if files == Hashes(artifacts, hash) {
      forall p | p in existing ensures p in artifacts && hash(artifacts[p]) == existing[p] {
        assert p in files && files[p] == existing[p];
      }
    }
  }

  /** A second call on the same artifacts adds nothing, and reports what the first reported. */
  lemma Again<C, H>(existing: map<string, H>, artifacts: map<string, C>, hash: C -> H)
    ensures var files := Extended(existing, artifacts, hash);
      && Extended(files, artifacts, hash) == files && artifacts.Keys <= files.Keys
      && (Intact(files, artifacts, hash) <==> Intact(existing, artifacts, hash))
  {
    var files := Extended(existing, artifacts, hash);
    assert files.Keys == artifacts.Keys + existing.Keys;
    if Intact(files, artifacts, hash) {
      forall p | p in existing ensures p in artifacts && hash(artifacts[p]) == existing[p] {
        assert p in files && files[p] == existing[p];
      }
    }
  }

  /** The manifest after extending by one set of artifacts after another. */
  function Chain<C, H>(existing: map<string, H>, history: seq<map<string, C>>, hash: C -> H): map<string, H> {
    if history == [] then existing
    else Extended(Chain(existing, history[..|history| - 1], hash), history[|history| - 1], hash)
  }

  /** No sealed entry ever changes: any later manifest extends any earlier one. */
  lemma {:induction false} AppendOnly<C, H>(existing: map<string, H>, history: seq<map<string, C>>, i: nat, hash: C -> H)
    requires i <= |history|
    ensures Extends(Chain(existing, history[..i], hash), Chain(existing, history, hash))
    decreases |history|
  {
    if i == |history| {
      assert history[..i] == history;
    } else {
      var n := |history| - 1;
      AppendOnly(existing, history[..n], i, hash);
      assert history[..n][..i] == history[..i];
    }
  }

  /** No set of artifacts in `history` has the path. */
  ghost predicate Unseen<C>(history: seq<map<string, C>>, p: string) {
    forall i :: 0 <= i < |history| ==> p !in history[i]
  }

  /** An entry is sealed for good with the content of the first artifacts that have its path. */
  lemma {:induction false} FirstSealingLasts<C, H>(existing: map<string, H>, history: seq<map<string, C>>, hash: C -> H, p: string)
    ensures p in Chain(existing, history, hash) <==> p in existing || !Unseen(history, p)
    ensures p in existing ==> Chain(existing, history, hash)[p] == existing[p]
    ensures forall i :: 0 <= i < |history| && p !in existing && p in history[i] && Unseen(history[..i], p) ==>
      Chain(existing, history, hash)[p] == hash(history[i][p])
    decreases |history|
  {
    if history != [] {
      var n := |history| - 1;
      FirstSealingLasts(existing, history[..n], hash, p);
      assert Unseen(history, p) <==> Unseen(history[..n], p) && p !in history[n];
      forall i | 0 <= i < n ensures history[..n][..i] == history[..i] && history[..n][i] == history[i] {
      }
    }
  }
}
