/** What JavaScript takes for whitespace, in `\\s` and in `trim`. */
module Whitespace {
  predicate IsSpace(c: char) {
    || '\t' <= c <= '\r' || c == ' ' || c == '\U{00A0}' || c == '\U{1680}' || '\U{2000}' <= c <= '\U{200A}'
    || c in {'\U{2028}', '\U{2029}', '\U{202F}', '\U{205F}', '\U{3000}', '\U{FEFF}'}
  }

  /** By code points: the white space and line terminators of sections 12.2 and 12.3 of ECMA-262. */
  lemma SpaceCodes(c: char)
    ensures IsSpace(c) <==>
      var n := c as int;
      9 <= n <= 13 || n in {32, 160, 5760, 8232, 8233, 8239, 8287, 12288, 65279} || 8192 <= n <= 8202
  {
  }

  function TrimStart(s: string): string {
    if s != [] && IsSpace(s[0]) then TrimStart(s[1..]) else s
  }

  function TrimEnd(s: string): string {
    if s != [] && IsSpace(s[|s| - 1]) then TrimEnd(s[..|s| - 1]) else s
  }

  function Trim(s: string): string {
    TrimEnd(TrimStart(s))
  }

  predicate HasText(s: string) {
    exists k :: 0 <= k < |s| && !IsSpace(s[k])
  }

  lemma {:induction false} TrimStartKeeps(s: string)
    ensures HasText(TrimStart(s)) <==> HasText(s)
    ensures TrimStart(s) != [] <==> HasText(s)
  {
    hide IsSpace;
    if s != [] && IsSpace(s[0]) {
      TrimStartKeeps(s[1..]);
      if k :| 0 <= k < |s| && !IsSpace(s[k]) {
        assert !IsSpace(s[1..][k - 1]);
      }
    }
  }

  lemma {:induction false} TrimEndKeeps(s: string)
    ensures TrimEnd(s) != [] <==> HasText(s)
  {
    hide IsSpace;
    if s != [] && IsSpace(s[|s| - 1]) {
      var n := |s| - 1;
      TrimEndKeeps(s[..n]);
      if k :| 0 <= k < |s| && !IsSpace(s[k]) {
        assert !IsSpace(s[..n][k]);
      }
    } else if s != [] {
      assert !IsSpace(s[|s| - 1]);
    }
  }

  /** Trimming leaves something exactly when something is no whitespace. */
  lemma TrimLeaves(s: string)
    ensures |Trim(s)| > 0 <==> HasText(s)
  {
    TrimStartKeeps(s);
    TrimEndKeeps(TrimStart(s));
  }
}
