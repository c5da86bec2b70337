/** The Python string operations the models need.

    White space and line breaks are those of `str.strip` and `str.splitlines`, beyond ASCII
    too. A text is a sequence of characters; the lemmas say how stripping, searching and
    splitting act on concatenations. */
module Text {
  import Bytes

  /** The characters `str.strip` removes and `str.splitlines` may break at. */
  predicate IsSpace(c: char) {
    var n := c as int;
    || 0x09 <= n <= 0x0D || 0x1C <= n <= 0x20 || n == 0x85 || n == 0xA0 || n == 0x1680
    || 0x2000 <= n <= 0x200A || n == 0x2028 || n == 0x2029 || n == 0x202F || n == 0x205F || n == 0x3000
  }

  predicate IsBlank(s: string) {
    forall i :: 0 <= i < |s| ==> IsSpace(s[i])
  }

  function LStrip(s: string): (r: string)
    ensures |r| <= |s|
    ensures r != "" ==> !IsSpace(r[0])
    ensures r == "" <==> IsBlank(s)
  {
    if s == "" then ""
    else if IsSpace(s[0]) then
      assert IsBlank(s) <==> IsBlank(s[1..]) by {
        assert s == [s[0]] + s[1..];
      }
      LStrip(s[1..])
    else s
  }

  function RStrip(s: string): (r: string)
    ensures |r| <= |s|
    ensures r != "" ==> !IsSpace(r[|r| - 1])
    ensures s != "" && !IsSpace(s[0]) ==> r != "" && r[0] == s[0]
  {
    if s == "" then ""
    else if IsSpace(s[|s| - 1]) then RStrip(s[..|s| - 1])
    else s
  }

  function Strip(s: string): (r: string)
    ensures |r| <= |s|
    ensures r == "" <==> IsBlank(s)
  {
    RStrip(LStrip(s))
  }

  /** Stripping takes a contiguous part. */
  lemma {:induction false} LStripIsSlice(s: string)
    ensures LStrip(s) == s[|s| - |LStrip(s)|..]
  {
    if s != "" && IsSpace(s[0]) {
      LStripIsSlice(s[1..]);
    }
  }

  lemma {:induction false} RStripIsSlice(s: string)
    ensures RStrip(s) == s[..|RStrip(s)|]
  {
    if s != "" && IsSpace(s[|s| - 1]) {
      RStripIsSlice(s[..|s| - 1]);
    }
  }

  lemma StripIsSlice(s: string) returns (from: nat)
    ensures from + |Strip(s)| <= |s| && Strip(s) == s[from..from + |Strip(s)|]
  {
    from := |s| - |LStrip(s)|;
    LStripIsSlice(s);
    RStripIsSlice(LStrip(s));
  }

  predicate StartsWith(s: string, prefix: string) {
    prefix <= s
  }

  predicate EndsWith(s: string, suffix: string) {
    |suffix| <= |s| && s[|s| - |suffix|..] == suffix
  }

  predicate MatchAt(text: string, pat: string, i: int) {
    0 <= i && i + |pat| <= |text| && text[i..i + |pat|] == pat
  }

  /** `str.find(pat, from)`: the first match at or after `from`, or -1. */
  function Find(text: string, pat: string, from: nat): (r: int)
    requires from <= |text|
    ensures r == -1 || (from <= r && MatchAt(text, pat, r))
    ensures forall i :: from <= i && (r == -1 || i < r) ==> !MatchAt(text, pat, i)
    decreases |text| - from
  {
    if MatchAt(text, pat, from) then from
    else if from == |text| then -1
    else Find(text, pat, from + 1)
  }

  lemma FindIs(text: string, pat: string, from: nat, r: nat)
    requires from <= r && MatchAt(text, pat, r)
    requires forall i :: from <= i < r ==> !MatchAt(text, pat, i)
    ensures from <= |text| && Find(text, pat, from) == r
  {
  }

  /** `"\n".join(lines)` */
  function JoinLines(lines: seq<string>): string {
    if lines == [] then ""
    else if |lines| == 1 then lines[0]
    else lines[0] + "\n" + JoinLines(lines[1..])
  }

  /** The characters `str.splitlines` breaks at. */
  predicate IsBreak(c: char) {
    var n := c as int;
    0x0A <= n <= 0x0D || 0x1C <= n <= 0x1E || n == 0x85 || n == 0x2028 || n == 0x2029
  }

  predicate IsLine(s: string) {
    forall i :: 0 <= i < |s| ==> !IsBreak(s[i])
  }

  /** The length of the first line. */
  function LineLength(s: string): (n: nat)
    ensures n <= |s| && IsLine(s[..n]) && (n < |s| ==> IsBreak(s[n]))
  {
    if s == "" || IsBreak(s[0]) then 0 else
      assert s[..1 + LineLength(s[1..])] == [s[0]] + s[1..][..LineLength(s[1..])];
      1 + LineLength(s[1..])
  }

  /** The length of the break at `n`: a carriage return takes a following line feed with it. */
  function BreakLength(s: string, n: nat): (k: nat)
    requires n < |s|
    ensures 0 < k <= |s| - n
  {
    if s[n] == '\r' && n + 1 < |s| && s[n + 1] == '\n' then 2 else 1
  }

  /** `str.splitlines` */
  function SplitLines(s: string): seq<string> {
    if s == "" then []
    else
      var n := LineLength(s);
      if n == |s| then [s] else [s[..n]] + SplitLines(s[n + BreakLength(s, n)..])
  }

  lemma {:induction false} LineLengthOf(line: string, rest: string)
    requires IsLine(line) && rest != "" && IsBreak(rest[0])
    ensures LineLength(line + rest) == |line|
  {
    assert (line + rest)[|line|] == rest[0];
  }

  lemma SplitLinesStep(line: string, c: char, rest: string)
    requires IsLine(line) && IsBreak(c) && c != '\r'
    ensures SplitLines(line + [c] + rest) == [line] + SplitLines(rest)
  {
    var s := line + ([c] + rest);
    LineLengthOf(line, [c] + rest);
    assert s == line + [c] + rest && s[..|line|] == line && s[|line| + 1..] == rest;
  }

  /** A text that is empty or ends with a line feed. */
  predicate IsWhole(s: string) {
    s == "" || s[|s| - 1] == '\n'
  }

  lemma LastIsInNoLine(s: string)
    requires IsWhole(s) && s != ""
    ensures LineLength(s) < |s|
  {
    assert s[..|s|] == s;
    assert LineLength(s) == |s| ==> IsLine(s);
  }

  lemma FirstLine(s: string, rest: string)
    requires IsWhole(s) && s != ""
    ensures var n := LineLength(s);
            && n < |s|
            && SplitLines(s + rest) == [s[..n]] + SplitLines(s[n + BreakLength(s, n)..] + rest)
            && IsWhole(s[n + BreakLength(s, n)..])
  {
    LineLengthConcat(s, rest);
    var n := LineLength(s);
    BreakInside(s, rest, n);
    CutOfConcat(s, rest, n);
    CutOfConcat(s, rest, n + BreakLength(s, n));
    hide LineLength, BreakLength, IsLine, IsBreak;
  }

  lemma LineLengthConcat(s: string, rest: string)
    requires IsWhole(s) && s != ""
    ensures LineLength(s + rest) == LineLength(s) < |s|
  {
    LastIsInNoLine(s);
    var n := LineLength(s);
    LineLengthOf(s[..n], s[n..] + rest);
    assert s[..n] + (s[n..] + rest) == s + rest;
  }

  lemma CutOfConcat(s: string, rest: string, n: nat)
    requires n <= |s|
    ensures (s + rest)[..n] == s[..n] && (s + rest)[n..] == s[n..] + rest && s[..n] + s[n..] == s
  {
  }

  lemma BreakInside(s: string, rest: string, n: nat)
    requires IsWhole(s) && n < |s|
    ensures BreakLength(s + rest, n) == BreakLength(s, n)
  {
    assert (s + rest)[n] == s[n];
  }

  /** What follows a line feed is split on its own. */
  lemma {:induction false} SplitLinesConcat(s: string, rest: string)
    requires IsWhole(s)
    ensures SplitLines(s + rest) == SplitLines(s) + SplitLines(rest)
    decreases |s|
  {
    if s == "" {
      assert s + rest == rest;
    } else {
      FirstLine(s, rest);
      FirstLine(s, "");
      var n := LineLength(s);
      var tail := s[n + BreakLength(s, n)..];
      assert s + "" == s && tail + "" == tail;
      SplitLinesConcat(tail, rest);
      Bytes.ConcatAssociative([s[..n]], SplitLines(tail), SplitLines(rest));
    }
  }

  lemma {:induction false} SplitLinesAreLines(s: string)
    ensures forall i :: 0 <= i < |SplitLines(s)| ==> IsLine(SplitLines(s)[i])
    decreases |s|
  {
    var n := LineLength(s);
    if n < |s| {
      SplitLinesAreLines(s[n + BreakLength(s, n)..]);
    } else {
      assert s[..n] == s;
    }
  }

  /** Lines that are joined and closed by a line feed are split back, whatever follows. */
  lemma {:induction false} SplitLinesOfJoined(lines: seq<string>, rest: string)
    requires lines != [] && forall i :: 0 <= i < |lines| ==> IsLine(lines[i])
    ensures SplitLines(JoinLines(lines) + "\n" + rest) == lines + SplitLines(rest)
  {
    hide SplitLines, IsLine;
    if |lines| == 1 {
      SplitLinesStep(lines[0], '\n', rest);
      assert lines == [lines[0]];
    } else {
      var tail := JoinLines(lines[1..]);
      var more := tail + "\n" + rest;
      SplitLinesOfJoined(lines[1..], rest);
      SplitLinesStep(lines[0], '\n', more);
      assert JoinLines(lines) + "\n" + rest == lines[0] + ['\n'] + more;
      assert [lines[0]] + (lines[1..] + SplitLines(rest)) == lines + SplitLines(rest);
    }
  }

  /** Only the letters a to z have R, E, A, D or Y as their upper case. */
  function Upper(s: string): (r: string)
    ensures |r| == |s|
  {
    if s == "" then "" else
      (if 'a' <= s[0] <= 'z' then [(s[0] as int - 32) as char] else [s[0]]) + Upper(s[1..])
  }
}
