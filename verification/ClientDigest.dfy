/** The byte stream hashed over client artifacts: scripts/client-build-environment.ts. */
module ClientDigest {
  import opened Wrappers
  import opened Decimal

  /** A file of the build: the UTF-8 bytes of its path, and its content. */
  datatype Artifact = Artifact(path: Bytes, content: Bytes)

  const COLON: Byte := 58

  /** A byte string behind its length in decimal and a colon. */
  function Block(b: Bytes): Bytes {
    Print(|b|) + [COLON] + b
  }

  /** The stream fed to the hash, artifact by artifact. */
  function Stream(artifacts: seq<Artifact>): Bytes {
    if artifacts == [] then []
    else Block(artifacts[0].path) + Block(artifacts[0].content) + Stream(artifacts[1..])
  }

  lemma {:induction false} StreamAppend(artifacts: seq<Artifact>, a: Artifact)
    ensures Stream(artifacts + [a]) == Stream(artifacts) + (Block(a.path) + Block(a.content))
  {
    if artifacts == [] {
      assert Stream([a]) == Block(a.path) + Block(a.content) + Stream([a][1..]);
    } else {
      StreamAppend(artifacts[1..], a);
      assert (artifacts + [a])[1..] == artifacts[1..] + [a];
      Assoc(Block(artifacts[0].path) + Block(artifacts[0].content), Stream(artifacts[1..]), Block(a.path) + Block(a.content));
    }
  }

  lemma Assoc(a: Bytes, b: Bytes, c: Bytes)
    ensures a + (b + c) == a + b + c
  {
  }

  /** Feeds the hash: length, path, length, content for each artifact in turn. */
  method FeedDigest(artifacts: seq<Artifact>) returns (hashed: Bytes)
    ensures hashed == Stream(artifacts)
  {
    hashed := [];
    for i := 0 to |artifacts|
      invariant hashed == Stream(artifacts[..i])
    {
      var a := artifacts[i];
      ghost var before := hashed;
      hashed := hashed + (Print(|a.path|) + [COLON]);
      hashed := hashed + a.path;
      hashed := hashed + (Print(|a.content|) + [COLON]);
      hashed := hashed + a.content;
      assert hashed == before + (Block(a.path) + Block(a.content));
      assert artifacts[..i + 1] == artifacts[..i] + [a];
      StreamAppend(artifacts[..i], a);
    }
    assert artifacts[..|artifacts|] == artifacts;
  }

  // ---------- reading the stream back ----------

  /** The first length-prefixed block of `s` and what follows it. */
  function TakeBlock(s: Bytes): (r: Option<(Bytes, Bytes)>)
    ensures r.Some? ==> |r.value.1| < |s|
  {
    var n := DigitRun(s);
    if n == 0 || n == |s| || s[n] != COLON then None
    else
      var length := Value(s[..n]);
      if n + 1 + length > |s| then None
      else Some((s[n + 1..n + 1 + length], s[n + 1 + length..]))
  }

  function Decode(s: Bytes): Option<seq<Artifact>>
    decreases |s|
  {
    if s == [] then Some([])
    else
      var path := TakeBlock(s);
      if path.None? then None
      else
        var content := TakeBlock(path.value.1);
        if content.None? then None
        else
          var rest := Decode(content.value.1);
          if rest.None? then None
          else Some([Artifact(path.value.0, content.value.0)] + rest.value)
  }

  lemma BlockThenTake(b: Bytes, rest: Bytes)
    ensures TakeBlock(Block(b) + rest) == Some((b, rest))
  {
    var s, digits := Block(b) + rest, Print(|b|);
    var tail := [COLON] + b + rest;
    assert s == digits + tail;
    RunOf(digits, tail);
    assert s[..|digits|] == digits;
    PrintThenValue(|b|);
    assert s[|digits|] == COLON;
    assert s[|digits| + 1..|digits| + 1 + |b|] == b;
    assert s[|digits| + 1 + |b|..] == rest;
  }

  /** The stream can be read back, whatever bytes the paths and contents hold. */
  lemma {:induction false} StreamThenDecode(artifacts: seq<Artifact>)
    ensures Decode(Stream(artifacts)) == Some(artifacts)
  {
    if artifacts != [] {
      var a, rest := artifacts[0], Stream(artifacts[1..]);
      StreamThenDecode(artifacts[1..]);
      Assoc(Block(a.path), Block(a.content), rest);
      BlockThenTake(a.path, Block(a.content) + rest);
      BlockThenTake(a.content, rest);
      assert [a] + artifacts[1..] == artifacts;
    }
  }

  /** No two different artifact lists feed the hash the same bytes. */
  lemma StreamInjective(a: seq<Artifact>, b: seq<Artifact>)
    requires Stream(a) == Stream(b)
    ensures a == b
  {
    StreamThenDecode(a);
    StreamThenDecode(b);
  }
}
