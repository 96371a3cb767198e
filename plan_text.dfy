/**
 * Turning the level plan into rows of glyphs: `plan.trim().split("\n")`,
 * each row then taken apart into its code points.
 */
module PlanText {

  /** The characters `String.prototype.trim` removes: ECMAScript white space and line terminators. */
  predicate IsTrimmable(c: char)
  {
    || c == '\t' || c == '\n' || c == '\U{B}' || c == '\U{C}' || c == '\r' || c == ' '
    || c == '\U{A0}' || c == '\U{1680}' || ('\U{2000}' <= c <= '\U{200A}')
    || c == '\U{2028}' || c == '\U{2029}' || c == '\U{202F}' || c == '\U{205F}'
    || c == '\U{3000}' || c == '\U{FEFF}'
  }

  predicate AllTrimmable(s: string)
  {
    forall k :: 0 <= k < |s| ==> IsTrimmable(s[k])
  }

  /** Drops the leading white space. */
  function TrimStart(s: string): (r: string)
    ensures |r| <= |s| && r == s[|s| - |r|..]
    ensures forall k :: 0 <= k < |s| - |r| ==> IsTrimmable(s[k])
    ensures r == [] || !IsTrimmable(r[0])
    decreases |s|
  {
    if s != [] && IsTrimmable(s[0]) then
      var r := TrimStart(s[1..]);
      assert s[|s| - |r|..] == s[1..][|s| - 1 - |r|..];
      r
    else
      s
  }

  /** Drops the trailing white space. */
  function TrimEnd(s: string): (r: string)
    ensures |r| <= |s| && r == s[..|r|]
    ensures forall k :: |r| <= k < |s| ==> IsTrimmable(s[k])
    ensures r == [] || !IsTrimmable(r[|r| - 1])
    decreases |s|
  {
    if s != [] && IsTrimmable(s[|s| - 1]) then
      var r := TrimEnd(s[..|s| - 1]);
      assert s[..|r|] == s[..|s| - 1][..|r|];
      r
    else
      s
  }

  /** `String.prototype.trim`: neither end of the result is white space. */
  function Trim(s: string): (r: string)
    ensures r == [] || (!IsTrimmable(r[0]) && !IsTrimmable(r[|r| - 1]))
  {
    TrimEnd(TrimStart(s))
  }

  /** `r` sits in `s` at `i` with nothing but white space on either side. */
  predicate PaddedAt(s: string, i: nat, r: string)
  {
    && i + |r| <= |s| && s[i..i + |r|] == r
    && AllTrimmable(s[..i]) && AllTrimmable(s[i + |r|..])
  }

  /** Trimming only cuts white space: the result is a slice of `s` with nothing but white space around it. */
  lemma TrimCutsWhiteSpace(s: string)
    ensures exists i :: PaddedAt(s, i, Trim(s))
  {
    var t := TrimStart(s);
    var r := TrimEnd(t);
    TrimmedPadded(s, t, r);
    assert PaddedAt(s, |s| - |t|, Trim(s));
  }

  /** What `TrimStart` and then `TrimEnd` leave sits in `s` with white space on either side. */
  lemma TrimmedPadded(s: string, t: string, r: string)
    requires |t| <= |s| && t == s[|s| - |t|..] && forall k :: 0 <= k < |s| - |t| ==> IsTrimmable(s[k])
    requires |r| <= |t| && r == t[..|r|] && forall k :: |r| <= k < |t| ==> IsTrimmable(t[k])
    ensures PaddedAt(s, |s| - |t|, r)
  {
    HeadTrimmable(s, |s| - |t|);
    TailTrimmable(s, t, r);
  }

  lemma HeadTrimmable(s: string, i: nat)
    requires i <= |s| && forall k :: 0 <= k < i ==> IsTrimmable(s[k])
    ensures AllTrimmable(s[..i])
  {
    var head := s[..i];
    forall k | 0 <= k < |head|
      ensures IsTrimmable(head[k])
    {
      assert head[k] == s[k];
    }
  }

  lemma TailTrimmable(s: string, t: string, r: string)
    requires |t| <= |s| && t == s[|s| - |t|..]
    requires |r| <= |t| && r == t[..|r|]
    requires forall k :: |r| <= k < |t| ==> IsTrimmable(t[k])
    ensures s[|s| - |t|..|s| - |t| + |r|] == r
    ensures AllTrimmable(s[|s| - |t| + |r|..])
  {
    var tail := s[|s| - |t| + |r|..];
    assert tail == t[|r|..];
    forall k | 0 <= k < |tail|
      ensures IsTrimmable(tail[k])
    {
      assert tail[k] == t[|r| + k];
    }
  }

  /** The index of the first `c` in `s`. */
  function FirstIndex(s: string, c: char): (i: nat)
    requires c in s
    ensures i < |s| && s[i] == c && c !in s[..i]
  {
    if s[0] == c then 0 else 1 + FirstIndex(s[1..], c)
  }

  /** Glues lines back together with a newline between each two. */
  function JoinLines(lines: seq<string>): string
    requires |lines| >= 1
  {
    if |lines| == 1 then lines[0] else lines[0] + "\n" + JoinLines(lines[1..])
  }

  /**
   * `String.prototype.split("\n")`: never empty, no piece holds a newline,
   * and joining the pieces gives back the text.
   */
  function SplitLines(s: string): (lines: seq<string>)
    ensures |lines| >= 1
    ensures forall k :: 0 <= k < |lines| ==> '\n' !in lines[k]
    ensures JoinLines(lines) == s
    decreases |s|
  {
    if '\n' in s then
      var i := FirstIndex(s, '\n');
      var rest := SplitLines(s[i + 1..]);
      assert s == s[..i] + "\n" + s[i + 1..];
      [s[..i]] + rest
    else
      [s]
  }

  /** The other half of the round trip: splitting newline-free lines after joining them gives them back. */
  lemma {:induction false} SplitJoin(lines: seq<string>)
    requires |lines| >= 1
    requires forall k :: 0 <= k < |lines| ==> '\n' !in lines[k]
    ensures SplitLines(JoinLines(lines)) == lines
  {
    if |lines| > 1 {
      var s := JoinLines(lines);
      var rest := JoinLines(lines[1..]);
      assert s == lines[0] + "\n" + rest;
      assert s[|lines[0]|] == '\n';
      assert s[..|lines[0]|] == lines[0];
      assert FirstIndex(s, '\n') == |lines[0]|;
      assert s[|lines[0]| + 1..] == rest;
      SplitJoin(lines[1..]);
    }
  }

  /** The rows of a plan, each a sequence of glyphs. */
  function Lines(plan: string): (rows: seq<string>)
    ensures |rows| >= 1
    ensures forall k :: 0 <= k < |rows| ==> '\n' !in rows[k]
  {
    SplitLines(Trim(plan))
  }
}
