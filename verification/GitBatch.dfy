/** The answer of `git cat-file --batch`: scripts/benchmark-npm-resolution.ts, readGitFiles. */
module GitBatch {
  import opened Decimal
  import opened JavaScript
  import opened Wrappers

  const LF: Byte := 10
  const SPACE: Byte := 32
  const PLUS: Byte := 43
  const MINUS: Byte := 45
  /** ` missing` */
  const MISSING: Bytes := [32, 109, 105, 115, 115, 105, 110, 103]

  datatype BatchError =
    | NoHeader(path: string)
    | MissingPath(path: string)
    | InvalidSize(path: string)
    | Truncated(path: string)

  // ---------- library calls ----------

  /** `indexOf(b, from)`, or the length when the byte does not occur. */
  function IndexOf(s: Bytes, b: Byte, from: nat): (r: nat)
    requires from <= |s|
    ensures from <= r <= |s|
    ensures forall i :: from <= i < r ==> s[i] != b
    ensures r < |s| ==> s[r] == b
    decreases |s| - from
  {
    if from == |s| || s[from] == b then from else IndexOf(s, b, from + 1)
  }

  /** `split(' ')[k] ?? ''`. */
  function Field(s: Bytes, k: nat): Bytes
    decreases k
  {
    var end := IndexOf(s, SPACE, 0);
    if k == 0 then s[..end]
    else if end == |s| then []
    else Field(s[end + 1..], k - 1)
  }

  predicate EndsWith(s: Bytes, suffix: Bytes) {
    |s| >= |suffix| && s[|s| - |suffix|..] == suffix
  }

  predicate IsSpace(b: Byte) {
    b == 32 || 9 <= b <= 13
  }

  function TrimStart(s: Bytes): Bytes {
    if s != [] && IsSpace(s[0]) then TrimStart(s[1..]) else s
  }

  /** `Number.parseInt(s, 10)`: white space, a sign, the digits that follow, or not a number. */
  function ParseInt(s: Bytes): Option<int> {
    var t := TrimStart(s);
    var signed := t != [] && (t[0] == PLUS || t[0] == MINUS);
    var u := if signed then t[1..] else t;
    var n := DigitRun(u);
    if n == 0 then None
    else if signed && t[0] == MINUS then Some(-(Value(u[..n]) as int)) else Some(Value(u[..n]))
  }

  // ---------- the reader ----------

  /** One answer read at `offset`: the content and the offset behind it. */
  function ReadOne(output: Bytes, offset: nat, path: string): (r: Result<(Bytes, nat), BatchError>)
    requires offset <= |output|
    ensures r.Success? ==> offset < r.value.1 <= |output|
  {
    var headerEnd := IndexOf(output, LF, offset);
    if headerEnd == |output| then Failure(NoHeader(path))
    else
      var header := output[offset..headerEnd];
      if EndsWith(header, MISSING) then Failure(MissingPath(path))
      else
        var size := ParseInt(Field(header, 2));
        if size.None? || size.value < 0 || size.value > MAX_SAFE_INTEGER then Failure(InvalidSize(path))
        else
          var contentEnd := headerEnd + 1 + size.value;
          if contentEnd >= |output| || output[contentEnd] != LF then Failure(Truncated(path))
          else Success((output[headerEnd + 1..contentEnd], contentEnd + 1))
  }

  /** The contents of `paths`, read one after another from `offset`, and the offset behind the last. */
  function ReadFrom(output: Bytes, offset: nat, paths: seq<string>): (r: Result<(seq<Bytes>, nat), BatchError>)
    requires offset <= |output|
    ensures r.Success? ==> |r.value.0| == |paths| && offset <= r.value.1 <= |output|
    decreases |paths|
  {
    if paths == [] then Success(([], offset))
    else
      var one := ReadOne(output, offset, paths[0]);
      if one.Failure? then Failure(one.error)
      else
        var rest := ReadFrom(output, one.value.1, paths[1..]);
        if rest.Failure? then Failure(rest.error)
        else Success(([one.value.0] + rest.value.0, rest.value.1))
  }

  /** A map holding each path's last content. */
  function Contents(paths: seq<string>, contents: seq<Bytes>): map<string, Bytes>
    requires |paths| == |contents|
  {
    if paths == [] then map[]
    else Contents(paths[..|paths| - 1], contents[..|paths| - 1])[paths[|paths| - 1] := contents[|paths| - 1]]
  }

  lemma {:induction false} ReadFromAppend(output: Bytes, offset: nat, paths: seq<string>, path: string)
    requires offset <= |output|
    ensures var front := ReadFrom(output, offset, paths);
            ReadFrom(output, offset, paths + [path]) ==
              if front.Failure? then front
              else
                var one := ReadOne(output, front.value.1, path);
                if one.Failure? then Failure(one.error) else Success((front.value.0 + [one.value.0], one.value.1))
    decreases |paths|
  {
    hide ReadOne;
    if paths == [] {
      assert [] + [path] == [path] && [path][1..] == [];
      var one := ReadOne(output, offset, path);
      if one.Success? {
        assert [one.value.0] + [] == [] + [one.value.0];
        assert ReadFrom(output, one.value.1, []) == Success(([], one.value.1));
      }
    } else {
      assert (paths + [path])[1..] == paths[1..] + [path];
      var one := ReadOne(output, offset, paths[0]);
      if one.Success? {
        ReadFromAppend(output, one.value.1, paths[1..], path);
        var rest := ReadFrom(output, one.value.1, paths[1..]);
        if rest.Success? {
          var last := ReadOne(output, rest.value.1, path);
          if last.Success? {
            assert [one.value.0] + (rest.value.0 + [last.value.0]) == ([one.value.0] + rest.value.0) + [last.value.0];
          }
        }
      }
    }
  }

  /** A failure decides the whole: later paths are not looked at. */
  lemma {:induction false} FailureStays(output: Bytes, offset: nat, front: seq<string>, back: seq<string>)
    requires offset <= |output| && ReadFrom(output, offset, front).Failure?
    ensures ReadFrom(output, offset, front + back) == ReadFrom(output, offset, front)
    decreases |front|
  {
    hide ReadOne;
    assert (front + back)[1..] == front[1..] + back;
    var one := ReadOne(output, offset, front[0]);
    if one.Success? {
      FailureStays(output, one.value.1, front[1..], back);
    }
  }

  /** Walks the output answer by answer, filling a map. */
  method ReadGitFiles(output: Bytes, paths: seq<string>) returns (r: Result<map<string, Bytes>, BatchError>)
    ensures r == match ReadFrom(output, 0, paths)
                 case Success((contents, _)) => Success(Contents(paths, contents))
                 case Failure(e) => Failure(e)
  {
    hide ReadOne;
    var contents: map<string, Bytes> := map[];
    var offset := 0;
    ghost var read: seq<Bytes> := [];
    for i := 0 to |paths|
      invariant offset <= |output|
      invariant ReadFrom(output, 0, paths[..i]) == Success((read, offset)) && |read| == i
      invariant contents == Contents(paths[..i], read)
    {
      var path := paths[i];
      assert paths[..i + 1] == paths[..i] + [path];
      ReadFromAppend(output, 0, paths[..i], path);
      var one := ReadOne(output, offset, path);
      if one.Failure? {
        FailureStays(output, 0, paths[..i + 1], paths[i + 1..]);
        assert paths[..i + 1] + paths[i + 1..] == paths;
        return Failure(one.error);
      }
      contents := contents[path := one.value.0];
      read := read + [one.value.0];
      offset := one.value.1;
    }
    assert paths[..|paths|] == paths;
    r := Success(contents);
  }

  // ---------- what git answers ----------

  /** A blob with its object id and type, or a name that git does not know. */
  datatype Answer = Blob(oid: Bytes, kind: Bytes, content: Bytes) | Absent(name: Bytes)

  /** The mark of a missing path, and the characters of a header. */
  lemma Spelled()
    ensures |MISSING| == 8 && forall i :: 0 <= i < 8 ==> MISSING[i] as int == " missing"[i] as int
    ensures LF as int == '\n' as int && SPACE as int == ' ' as int && PLUS as int == '+' as int && MINUS as int == '-' as int
    ensures ZERO as int == '0' as int && NINE as int == '9' as int
  {
  }

  predicate Word(s: Bytes) {
    SPACE !in s && LF !in s
  }

  predicate WellFormed(a: Answer) {
    match a
    case Blob(oid, kind, content) => Word(oid) && Word(kind) && |content| <= MAX_SAFE_INTEGER
    case Absent(name) => LF !in name
  }

  function BlobHeader(a: Answer): Bytes
    requires a.Blob?
  {
    a.oid + [SPACE] + a.kind + [SPACE] + Print(|a.content|)
  }

  /** The bytes of one answer. */
  function Emit(a: Answer): Bytes {
    match a
    case Blob(_, _, content) => BlobHeader(a) + [LF] + content + [LF]
    case Absent(name) => name + MISSING + [LF]
  }

  function EmitAll(answers: seq<Answer>): Bytes {
    if answers == [] then [] else Emit(answers[0]) + EmitAll(answers[1..])
  }

  lemma NextLF(output: Bytes, offset: nat, header: Bytes, rest: Bytes)
    requires offset <= |output| && LF !in header && output[offset..] == header + [LF] + rest
    ensures IndexOf(output, LF, offset) == offset + |header| < |output|
    ensures output[offset..offset + |header|] == header
    ensures output[offset + |header| + 1..] == rest
  {
    var s := header + [LF] + rest;
    assert forall i :: 0 <= i < |s| ==> output[offset + i] == s[i];
    assert s[|header|] == LF;
    assert forall i :: 0 <= i < |header| ==> s[i] == header[i];
    var r := IndexOf(output, LF, offset);
    assert output[offset..][..|header|] == header;
    assert output[offset..][|header| + 1..] == rest;
  }

  lemma FirstWord(word: Bytes, rest: Bytes)
    requires SPACE !in word
    ensures IndexOf(word + [SPACE] + rest, SPACE, 0) == |word|
  {
    var s := word + [SPACE] + rest;
    assert s[|word|] == SPACE;
    assert forall i :: 0 <= i < |word| ==> s[i] == word[i];
  }

  lemma ThirdField(a: Answer)
    requires a.Blob? && WellFormed(a)
    ensures Field(BlobHeader(a), 2) == Print(|a.content|)
  {
    var size := Print(|a.content|);
    var tail := a.kind + [SPACE] + size;
    assert BlobHeader(a) == a.oid + [SPACE] + tail;
    FirstWord(a.oid, tail);
    assert BlobHeader(a)[|a.oid| + 1..] == tail;
    FirstWord(a.kind, size);
    assert tail[|a.kind| + 1..] == size;
    assert Field(tail, 1) == Field(size, 0);
    assert size[..|size|] == size;
  }

  lemma SizeRead(n: nat)
    ensures ParseInt(Print(n)) == Some(n)
  {
    var s := Print(n);
    assert IsDigit(s[0]);
    assert TrimStart(s) == s;
    RunOf(s, []);
    assert s + [] == s && s[..|s|] == s;
    PrintThenValue(n);
  }

  lemma HeaderOf(a: Answer)
    requires a.Blob? && WellFormed(a)
    ensures LF !in BlobHeader(a) && !EndsWith(BlobHeader(a), MISSING)
  {
    var size := Print(|a.content|);
    var h := BlobHeader(a);
    assert h[|h| - 1] == size[|size| - 1];
    assert IsDigit(size[|size| - 1]);
  }

  /** A blob is read back whole, to its very end. */
  lemma ReadBlob(output: Bytes, offset: nat, a: Answer, rest: Bytes, path: string)
    requires offset <= |output| && a.Blob? && WellFormed(a) && output[offset..] == Emit(a) + rest
    ensures ReadOne(output, offset, path) == Success((a.content, offset + |Emit(a)|))
  {
    hide Emit, BlobHeader, Field, ParseInt, EndsWith, IndexOf, WellFormed;
    var header := BlobHeader(a);
    EmitShape(a, rest);
    HeaderOf(a);
    ThirdField(a);
    SizeRead(|a.content|);
    SizeSafe(a);
    NextLF(output, offset, header, a.content + [LF] + rest);
    BodyAt(output, offset + |header| + 1, a.content, rest);
  }

  lemma SizeSafe(a: Answer)
    requires a.Blob? && WellFormed(a)
    ensures |a.content| <= MAX_SAFE_INTEGER
  {
  }

  lemma EmitShape(a: Answer, rest: Bytes)
    requires a.Blob?
    ensures Emit(a) + rest == BlobHeader(a) + [LF] + (a.content + [LF] + rest)
    ensures |Emit(a)| == |BlobHeader(a)| + |a.content| + 2
  {
    hide BlobHeader;
    var header := BlobHeader(a);
    assert Emit(a) == header + [LF] + a.content + [LF];
  }

  lemma BodyAt(output: Bytes, start: nat, content: Bytes, rest: Bytes)
    requires start <= |output| && output[start..] == content + [LF] + rest
    ensures start + |content| < |output|
    ensures output[start..start + |content|] == content && output[start + |content|] == LF
  {
    assert output[start..][..|content|] == content;
    assert output[start..][|content|] == LF;
  }

  lemma SkipPart(output: Bytes, offset: nat, part: Bytes, rest: Bytes)
    requires offset <= |output| && output[offset..] == part + rest
    ensures offset + |part| <= |output| && output[offset + |part|..] == rest
  {
    assert output[offset..][|part|..] == rest;
  }

  /** An unknown name is reported. */
  lemma ReadAbsent(output: Bytes, offset: nat, a: Answer, rest: Bytes, path: string)
    requires offset <= |output| && a.Absent? && WellFormed(a) && output[offset..] == Emit(a) + rest
    ensures ReadOne(output, offset, path) == Failure(MissingPath(path))
  {
    var header := a.name + MISSING;
    assert Emit(a) + rest == header + [LF] + rest;
    NextLF(output, offset, header, rest);
    assert header[|header| - 8..] == MISSING;
  }

  /** The first name git does not know, if any. */
  function FirstAbsent(answers: seq<Answer>): (r: nat)
    ensures r <= |answers|
  {
    if answers == [] || answers[0].Absent? then 0 else 1 + FirstAbsent(answers[1..])
  }

  function ContentsOf(answers: seq<Answer>): (r: seq<Bytes>)
    requires FirstAbsent(answers) == |answers|
    ensures |r| == |answers|
  {
    if answers == [] then [] else [answers[0].content] + ContentsOf(answers[1..])
  }

  /**
   * Over any sequence of answers to the paths, whatever bytes the blobs hold: when git knows every
   * path, each content is recovered and the whole output consumed; otherwise the first unknown path
   * is reported.
   */
  lemma {:induction false} BatchRoundTrip(output: Bytes, offset: nat, answers: seq<Answer>, paths: seq<string>)
    requires offset <= |output| && output[offset..] == EmitAll(answers)
    requires |answers| == |paths| && forall a :: a in answers ==> WellFormed(a)
    ensures ReadFrom(output, offset, paths) ==
      if FirstAbsent(answers) < |answers| then Failure(MissingPath(paths[FirstAbsent(answers)]))
      else Success((ContentsOf(answers), |output|))
    decreases |answers|
  {
    if answers == [] {
      assert output[offset..] == [];
    } else {
      var a, rest := answers[0], EmitAll(answers[1..]);
      assert WellFormed(a);
      hide Emit, ReadOne, WellFormed;
      SkipPart(output, offset, Emit(a), rest);
      if a.Blob? {
        ReadBlob(output, offset, a, rest, paths[0]);
        BatchRoundTrip(output, offset + |Emit(a)|, answers[1..], paths[1..]);
      } else {
        ReadAbsent(output, offset, a, rest, paths[0]);
      }
    }
  }

  /** The map holds for each path the content of its last occurrence. */
  lemma {:induction false} ContentsHold(paths: seq<string>, contents: seq<Bytes>, i: nat)
    requires |paths| == |contents| && i < |paths| && paths[i] !in paths[i + 1..]
    ensures paths[i] in Contents(paths, contents) && Contents(paths, contents)[paths[i]] == contents[i]
    decreases |paths|
  {
    var n := |paths| - 1;
    if i < n {
      assert paths[n] in paths[i + 1..] by { assert paths[i + 1..][n - i - 1] == paths[n]; }
      assert paths[..n][i + 1..] == paths[i + 1..][..n - i - 1];
      ContentsHold(paths[..n], contents[..n], i);
    }
  }

  /** Reading what git answers for known paths gives back every path's exact content. */
  lemma GitFilesRecovered(answers: seq<Answer>, paths: seq<string>, i: nat)
    requires |answers| == |paths| && i < |paths| && paths[i] !in paths[i + 1..]
    requires forall a :: a in answers ==> WellFormed(a) && a.Blob?
    ensures var r := ReadFrom(EmitAll(answers), 0, paths);
            && r.Success? && r.value.1 == |EmitAll(answers)|
            && paths[i] in Contents(paths, r.value.0) && Contents(paths, r.value.0)[paths[i]] == answers[i].content
  {
    AllKnown(answers);
    BatchRoundTrip(EmitAll(answers), 0, answers, paths);
    ContentsHold(paths, ContentsOf(answers), i);
    ContentAt(answers, i);
  }

  lemma {:induction false} AllKnown(answers: seq<Answer>)
    requires forall a :: a in answers ==> a.Blob?
    ensures FirstAbsent(answers) == |answers|
  {
    if answers != [] {
      assert answers[0] in answers;
      AllKnown(answers[1..]);
    }
  }

  lemma {:induction false} ContentAt(answers: seq<Answer>, i: nat)
    requires FirstAbsent(answers) == |answers| && i < |answers|
    ensures answers[i].Blob? && ContentsOf(answers)[i] == answers[i].content
  {
    if i > 0 {
      ContentAt(answers[1..], i - 1);
    }
  }

  // ---------- output that git does not write ----------

  /** What an answer comes to when its first line is `header` and `rest` follows. */
  lemma ReadLine(output: Bytes, offset: nat, header: Bytes, rest: Bytes, path: string)
    requires offset <= |output| && LF !in header && output[offset..] == header + [LF] + rest && !EndsWith(header, MISSING)
    ensures var size := ParseInt(Field(header, 2));
      ReadOne(output, offset, path) ==
        if size.None? || size.value < 0 || size.value > MAX_SAFE_INTEGER then Failure(InvalidSize(path))
        else if size.value >= |rest| || rest[size.value] != LF then Failure(Truncated(path))
        else Success((rest[..size.value], offset + |header| + 1 + size.value + 1))
  {
    hide *;
    NextLF(output, offset, header, rest);
    ReadAt(output, offset, header, rest, path);
  }

  lemma ReadAt(output: Bytes, offset: nat, header: Bytes, rest: Bytes, path: string)
    requires var e := offset + |header|;
      e < |output| && IndexOf(output, LF, offset) == e && output[offset..e] == header && output[e + 1..] == rest
    requires !EndsWith(header, MISSING)
    ensures var size := ParseInt(Field(header, 2));
      ReadOne(output, offset, path) ==
        if size.None? || size.value < 0 || size.value > MAX_SAFE_INTEGER then Failure(InvalidSize(path))
        else if size.value >= |rest| || rest[size.value] != LF then Failure(Truncated(path))
        else Success((rest[..size.value], offset + |header| + 1 + size.value + 1))
  {
    hide Field, ParseInt, EndsWith, IndexOf;
    var size := ParseInt(Field(header, 2));
    if size.None? {
    } else if 0 <= size.value <= MAX_SAFE_INTEGER {
      RestAt(output, offset + |header| + 1, rest, size.value);
    }
  }

  lemma RestAt(output: Bytes, start: nat, rest: Bytes, n: nat)
    requires start <= |output| && output[start..] == rest
    ensures |rest| == |output| - start
    ensures n < |rest| ==> output[start + n] == rest[n] && output[start..start + n] == rest[..n]
  {
  }

  /** Without a line ending there is no header. */
  lemma NoLine(output: Bytes, offset: nat, path: string)
    requires offset <= |output|
    ensures ReadOne(output, offset, path) == Failure(NoHeader(path)) <==> LF !in output[offset..]
  {
    var e := IndexOf(output, LF, offset);
    if e < |output| {
      assert output[offset..][e - offset] == LF;
    } else {
      assert forall k :: offset <= k < |output| ==> output[k] != LF;
    }
  }

  lemma BlobLine(a: Answer)
    requires a.Blob? && WellFormed(a)
    ensures LF !in BlobHeader(a) && !EndsWith(BlobHeader(a), MISSING)
    ensures ParseInt(Field(BlobHeader(a), 2)) == Some(|a.content|) && |a.content| <= MAX_SAFE_INTEGER
    ensures Emit(a) == BlobHeader(a) + [LF] + (a.content + [LF])
  {
    HeaderOf(a);
    ThirdField(a);
    SizeRead(|a.content|);
  }

  lemma CutAt(header: Bytes, body: Bytes, k: nat)
    requires k <= |header| + 1 + |body|
    ensures k <= |header| ==> (header + [LF] + body)[..k] == header[..k]
    ensures k > |header| ==> (header + [LF] + body)[..k] == header + [LF] + body[..k - |header| - 1]
  {
  }

  /** A blob that is cut anywhere is refused: within its header for the header, else for its end. */
  lemma CutBlob(output: Bytes, offset: nat, a: Answer, k: nat, path: string)
    requires offset <= |output| && a.Blob? && WellFormed(a) && k < |Emit(a)| && output[offset..] == Emit(a)[..k]
    ensures ReadOne(output, offset, path) == Failure(if k <= |BlobHeader(a)| then NoHeader(path) else Truncated(path))
  {
    BlobLine(a);
    hide BlobHeader, Field, ParseInt, EndsWith, WellFormed, Emit, ReadOne;
    var header, body := BlobHeader(a), a.content + [LF];
    CutAt(header, body, k);
    if k <= |header| {
      assert forall b :: b in header[..k] ==> b in header;
      NoLine(output, offset, path);
    } else {
      ReadLine(output, offset, header, body[..k - |header| - 1], path);
    }
  }

  /** A content without a line ending behind it is refused. */
  lemma WrongEnd(output: Bytes, offset: nat, a: Answer, b: Byte, rest: Bytes, path: string)
    requires offset <= |output| && a.Blob? && WellFormed(a) && b != LF
    requires output[offset..] == BlobHeader(a) + [LF] + (a.content + [b] + rest)
    ensures ReadOne(output, offset, path) == Failure(Truncated(path))
  {
    BlobLine(a);
    hide BlobHeader, Field, ParseInt, EndsWith, WellFormed, Emit, ReadOne;
    ReadLine(output, offset, BlobHeader(a), a.content + [b] + rest, path);
  }

  // ---------- the size field ----------

  ghost predicate Blank(b: Byte) {
    b in {9, 10, 11, 12, 13, 32}
  }

  lemma {:induction false} BlanksTrimmed(blanks: Bytes, rest: Bytes)
    requires (forall b :: b in blanks ==> Blank(b)) && (rest != [] ==> !Blank(rest[0]))
    ensures TrimStart(blanks + rest) == rest
  {
    if blanks == [] {
      assert blanks + rest == rest;
    } else {
      assert (blanks + rest)[1..] == blanks[1..] + rest;
      assert Blank(blanks[0]);
      BlanksTrimmed(blanks[1..], rest);
    }
  }

  /** Blanks, a sign and digits, whatever follows them, are a number. */
  lemma NumberRead(blanks: Bytes, sign: Bytes, digits: Bytes, rest: Bytes)
    requires (forall b :: b in blanks ==> Blank(b)) && sign in [[], [PLUS], [MINUS]]
    requires digits != [] && AllDigits(digits) && (rest != [] ==> !IsDigit(rest[0]))
    ensures ParseInt(blanks + (sign + (digits + rest))) == Some(if sign == [MINUS] then -(Value(digits) as int) else Value(digits))
  {
    var u := digits + rest;
    var t := sign + u;
    assert IsDigit(digits[0]) && u[0] == digits[0];
    BlanksTrimmed(blanks, t);
    RunOf(digits, rest);
    assert u[..|digits|] == digits;
    hide Value, DigitRun, AllDigits, TrimStart;
    if sign == [] {
      assert t == u;
    } else {
      assert t[0] == sign[0] && t[1..] == u;
    }
  }

  /** Anything else is none. */
  lemma NoNumberRead(blanks: Bytes, sign: Bytes, rest: Bytes)
    requires (forall b :: b in blanks ==> Blank(b)) && sign in [[], [PLUS], [MINUS]]
    requires rest != [] ==> !IsDigit(rest[0])
    requires sign == [] && rest != [] ==> !Blank(rest[0]) && rest[0] != PLUS && rest[0] != MINUS
    ensures ParseInt(blanks + (sign + rest)) == None
  {
    var t := sign + rest;
    BlanksTrimmed(blanks, t);
    assert sign == [] ==> t == rest;
    assert sign != [] ==> t[0] == sign[0] && t[1..] == rest;
  }

  /** A header line whose third word is no size is refused, unless it reports a missing path. */
  lemma InvalidSizeExactly(output: Bytes, offset: nat, first: Bytes, second: Bytes, third: Bytes, rest: Bytes, path: string)
    requires offset <= |output| && Word(first) && Word(second) && Word(third)
    requires var header := first + [SPACE] + (second + [SPACE] + third);
      !EndsWith(header, MISSING) && output[offset..] == header + [LF] + rest
    ensures ReadOne(output, offset, path) == Failure(InvalidSize(path)) <==>
      (match ParseInt(third) case None => true case Some(n) => n < 0 || n > 9007199254740991)
  {
    var header := first + [SPACE] + (second + [SPACE] + third);
    ThirdWord(first, second, third);
    hide Field, ParseInt, EndsWith, IndexOf, ReadOne;
    assert LF !in header;
    hide Word;
    ReadLine(output, offset, header, rest, path);
  }

  lemma ThirdWord(first: Bytes, second: Bytes, third: Bytes)
    requires Word(first) && Word(second) && Word(third)
    ensures Field(first + [SPACE] + (second + [SPACE] + third), 2) == third
  {
    var tail := second + [SPACE] + third;
    var header := first + [SPACE] + tail;
    FirstWord(first, tail);
    FirstWord(second, third);
    assert header[|first| + 1..] == tail && tail[|second| + 1..] == third;
    assert Field(header, 2) == Field(tail, 1) == Field(third, 0);
    NoSpace(third);
    assert third[..|third|] == third;
  }

  lemma NoSpace(word: Bytes)
    requires SPACE !in word
    ensures IndexOf(word, SPACE, 0) == |word|
  {
  }
}
