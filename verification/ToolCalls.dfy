/** The tool-call text format: native calls are printed as tagged JSON blocks, and the parser
    reads blocks back by tag search and brace counting. */
module ToolCalls {
  import opened Bytes
  import opened Text

  datatype Call<A> = Call(name: string, args: A)

  /** The JSON library, for argument values of type A. `decodeCall` is `json.loads` of a block
      followed by reading its `name` and `arguments`; None is JSONDecodeError. */
  datatype Json<!A> = Json(dumps: A -> string, loads: string -> Option<A>,
                           decodeCall: string -> Option<Call<A>>, emptyArgs: A)

  const START := "<tool_call>"
  const CLOSE := "</tool_call>"
  const CLOSES := "</tool_calls>"

  // ---------------------------------------------------------------- brace counting

  function Delta(c: char): int {
    if c == '{' then 1 else if c == '}' then -1 else 0
  }

  /** Opening minus closing braces. */
  function Depth(s: string): int {
    if s == "" then 0 else Depth(s[..|s| - 1]) + Delta(s[|s| - 1])
  }

  lemma {:induction false} DepthConcat(a: string, b: string)
    ensures Depth(a + b) == Depth(a) + Depth(b)
  {
    if b == "" {
      assert a + b == a;
    } else {
      assert (a + b)[..|a + b| - 1] == a + b[..|b| - 1];
      DepthConcat(a, b[..|b| - 1]);
    }
  }

  /** The text closes for the first time exactly at its end. */
  ghost predicate SelfBalanced(s: string) {
    Depth(s) == 0 && forall j :: 0 < j < |s| ==> Depth(s[..j]) > 0
  }

  /** The brace loop from index i at the given depth: the index after the brace that brings
      the depth back to zero, or -1. */
  function BraceEnd(raw: string, i: nat, depth: int): int
    requires i <= |raw|
    decreases |raw| - i
  {
    if i == |raw| then -1
    else if raw[i] == '{' then BraceEnd(raw, i + 1, depth + 1)
    else if raw[i] == '}' then (if depth - 1 == 0 then i + 1 else BraceEnd(raw, i + 1, depth - 1))
    else BraceEnd(raw, i + 1, depth)
  }

  lemma {:induction false} BraceEndFrom(raw: string, start: nat, i: nat)
    requires start < i <= |raw|
    requires forall j :: start < j <= i ==> Depth(raw[start..j]) > 0
    ensures var e := BraceEnd(raw, i, Depth(raw[start..i]));
            if e == -1 then forall j :: start < j <= |raw| ==> Depth(raw[start..j]) > 0
            else i < e <= |raw| && Depth(raw[start..e]) == 0
                 && forall j :: start < j < e ==> Depth(raw[start..j]) > 0
    decreases |raw| - i
  {
    if i < |raw| {
      assert raw[start..i + 1][..i - start] == raw[start..i];
      assert Depth(raw[start..i + 1]) == Depth(raw[start..i]) + Delta(raw[i]);
      if Depth(raw[start..i + 1]) > 0 {
        BraceEndFrom(raw, start, i + 1);
      }
    }
  }

  /** From an opening brace, the loop finds the shortest balanced prefix, or there is none. */
  lemma BraceEndIsShortestBalanced(raw: string, start: nat)
    requires start < |raw| && raw[start] == '{'
    ensures var e := BraceEnd(raw, start, 0);
            if e == -1 then forall j :: start < j <= |raw| ==> Depth(raw[start..j]) > 0
            else start < e <= |raw| && SelfBalanced(raw[start..e])
  {
    assert raw[start..start + 1] == "{";
    assert Depth("{") == Depth("{"[..0]) + 1;
    BraceEndFrom(raw, start, start + 1);
    var e := BraceEnd(raw, start, 0);
    if e != -1 {
      forall j | 0 < j < e - start ensures Depth(raw[start..e][..j]) > 0 {
        assert raw[start..e][..j] == raw[start..start + j];
        assert Depth(raw[start..start + j]) > 0;
      }
    }
  }

  method ScanBraces(raw: string, start: nat) returns (jsonEnd: int)
    requires start < |raw|
    ensures jsonEnd == BraceEnd(raw, start, 0)
  {
    var depth := 0;
    jsonEnd := -1;
    var i := start;
    while i < |raw|
      invariant start <= i <= |raw|
      invariant BraceEnd(raw, i, depth) == BraceEnd(raw, start, 0)
    {
      var ch := raw[i];
      if ch == '{' {
        depth := depth + 1;
      } else if ch == '}' {
        depth := depth - 1;
        if depth == 0 {
          return i + 1;
        }
      }
      i := i + 1;
    }
  }

  // ---------------------------------------------------------------- spans and blocks

  /** One tagged region: where its start tag is, its content, and where the scan resumes. */
  datatype Span = Span(start: nat, contentStart: nat, end: nat, next: nat)

  function NextSpan(text: string, pos: nat): Option<Span>
    requires pos <= |text|
  {
    var start := Find(text, START, pos);
    if start == -1 then None else
      var contentStart := start + |START|;
      var endS, endP := Find(text, CLOSE, contentStart), Find(text, CLOSES, contentStart);
      if endS == -1 && endP == -1 then None
      else if endS == -1 || (endP != -1 && endP <= endS) then Some(Span(start, contentStart, endP, endP + |CLOSES|))
      else Some(Span(start, contentStart, endS, endS + |CLOSE|))
  }

  /** The regions the scan considers from `pos` on. */
  function Spans(text: string, pos: nat): seq<Span>
    requires pos <= |text|
    decreases |text| - pos
  {
    match NextSpan(text, pos)
    case None => []
    case Some(s) => [s] + Spans(text, s.next)
  }

  /** The JSON text cut out of a region's content. */
  function BlockOf(content: string): Option<string> {
    var raw := Strip(content);
    var start := Find(raw, "{", 0);
    if start == -1 then None else
      var e := BraceEnd(raw, start, 0);
      if start <= e <= |raw| then Some(raw[start..e]) else None
  }

  function CallOf<A>(json: Json<A>, content: string): seq<Call<A>> {
    match BlockOf(content)
    case None => []
    case Some(block) =>
      match json.decodeCall(block)
      case None => []
      case Some(call) => if call.name == "" then [] else [call]
  }

  /** What the parser returns from `pos` on. */
  function ParseFrom<A>(json: Json<A>, text: string, pos: nat): seq<Call<A>>
    requires pos <= |text|
    decreases |text| - pos
  {
    match NextSpan(text, pos)
    case None => []
    case Some(s) => CallOf(json, text[s.contentStart..s.end]) + ParseFrom(json, text, s.next)
  }

  /** The tag search at the head of the parser's loop: whichever closing tag comes first. */
  method FindSpan(text: string, pos: nat) returns (span: Option<Span>)
    requires pos <= |text|
    ensures span == NextSpan(text, pos)
  {
    hide Find;
    var start := Find(text, START, pos);
    if start == -1 { return None; }
    var contentStart := start + |START|;
    var endS := Find(text, CLOSE, contentStart);
    var endP := Find(text, CLOSES, contentStart);
    if endS == -1 && endP == -1 { return None; }
    var end, endTag;
    if endS == -1 {
      end, endTag := endP, CLOSES;
    } else if endP == -1 {
      end, endTag := endS, CLOSE;
    } else if endS < endP {
      end, endTag := endS, CLOSE;
    } else {
      end, endTag := endP, CLOSES;
    }
    span := Some(Span(start, contentStart, end, end + |endTag|));
  }

  /** The rest of the loop body: cut the block out of the content and decode it. */
  method ReadCall<A>(json: Json<A>, content: string) returns (calls: seq<Call<A>>)
    ensures calls == CallOf(json, content)
  {
    var raw := Strip(content);
    if raw == "" { return []; }
    var braceStart := Find(raw, "{", 0);
    if braceStart == -1 { return []; }
    var jsonEnd := ScanBraces(raw, braceStart);
    BraceEndIsShortestBalanced(raw, braceStart);
    if jsonEnd == -1 { return []; }
    var parsed := json.decodeCall(raw[braceStart..jsonEnd]);
    if parsed.None? || parsed.value.name == "" { return []; }
    calls := [parsed.value];
  }

  /** `_parse_tool_calls` */
  method ParseToolCalls<A>(json: Json<A>, text: string) returns (calls: seq<Call<A>>)
    ensures calls == ParseFrom(json, text, 0)
  {
    calls := [];
    var pos := 0;
    while true
      invariant pos <= |text|
      invariant calls + ParseFrom(json, text, pos) == ParseFrom(json, text, 0)
      decreases |text| - pos
    {
      var span := FindSpan(text, pos);
      if span.None? {
        assert ParseFrom(json, text, pos) == [];
        break;
      }
      var read := ReadCall(json, text[span.value.contentStart..span.value.end]);
      assert ParseFrom(json, text, pos) == read + ParseFrom(json, text, span.value.next);
      ConcatAssociative(calls, read, ParseFrom(json, text, span.value.next));
      calls := calls + read;
      pos := span.value.next;
    }
  }

  // ---------------------------------------------------------------- arbitrary text

  predicate CloseTagAt(text: string, i: int) {
    MatchAt(text, CLOSE, i) || MatchAt(text, CLOSES, i)
  }

  /** A region the scan may consider when it resumes at `pos`: the first start tag, then the
      first closing tag of either spelling, then the position after that tag. */
  ghost predicate IsNextSpan(text: string, pos: nat, s: Span) {
    && pos <= s.start && MatchAt(text, START, s.start)
    && (forall i :: pos <= i < s.start ==> !MatchAt(text, START, i))
    && s.contentStart == s.start + |START| <= s.end
    && (forall i :: s.contentStart <= i < s.end ==> !CloseTagAt(text, i))
    && ((MatchAt(text, CLOSE, s.end) && s.next == s.end + |CLOSE|)
        || (MatchAt(text, CLOSES, s.end) && s.next == s.end + |CLOSES|))
    && s.next <= |text|
  }

  /** The tag search returns exactly that region, and none only when there is no start tag or
      no closing tag after the first one. */
  lemma NextSpanIsFirst(text: string, pos: nat)
    requires pos <= |text|
    ensures var n := NextSpan(text, pos);
            if n.Some? then IsNextSpan(text, pos, n.value) else NoSpanAfter(text, pos)
  {
    var start := Find(text, START, pos);
    if start != -1 {
      var contentStart := start + |START|;
      var endS, endP := Find(text, CLOSE, contentStart), Find(text, CLOSES, contentStart);
      if endS == -1 && endP == -1 {
        forall i, j | pos <= i && i + |START| <= j && MatchAt(text, START, i) ensures !CloseTagAt(text, j) {
          assert start <= i;
        }
      }
    }
  }

  /** No start tag at or after `pos` is followed by a closing tag. */
  ghost predicate NoSpanAfter(text: string, pos: nat) {
    forall i, j :: pos <= i && i + |START| <= j && MatchAt(text, START, i) ==> !CloseTagAt(text, j)
  }

  /** Each region is the next one after its predecessor's closing tag, and none is left over. */
  ghost predicate SpanChain(text: string, pos: nat, spans: seq<Span>)
    decreases |spans|
  {
    if spans == [] then NoSpanAfter(text, pos)
    else IsNextSpan(text, pos, spans[0]) && SpanChain(text, spans[0].next, spans[1..])
  }

  /** On any text the scan considers every region, left to right; the regions are disjoint and
      in order, so `pos` only ever grows. */
  lemma {:induction false} SpansAreComplete(text: string, pos: nat)
    requires pos <= |text|
    ensures SpanChain(text, pos, Spans(text, pos))
    ensures forall i :: 0 <= i < |Spans(text, pos)| ==> pos <= Spans(text, pos)[i].start
    ensures forall i, j :: 0 <= i < j < |Spans(text, pos)| ==> Spans(text, pos)[i].next <= Spans(text, pos)[j].start
    decreases |text| - pos
  {
    NextSpanIsFirst(text, pos);
    if NextSpan(text, pos).Some? {
      var first := NextSpan(text, pos).value;
      SpansAreComplete(text, first.next);
      PrependSpan(pos, first, Spans(text, first.next), Spans(text, pos));
    }
  }

  lemma PrependSpan(pos: nat, first: Span, rest: seq<Span>, all: seq<Span>)
    requires all == [first] + rest && pos <= first.start <= first.next
    requires forall i :: 0 <= i < |rest| ==> first.next <= rest[i].start
    requires forall i, j :: 0 <= i < j < |rest| ==> rest[i].next <= rest[j].start
    ensures all[1..] == rest
    ensures forall i :: 0 <= i < |all| ==> pos <= all[i].start
    ensures forall i, j :: 0 <= i < j < |all| ==> all[i].next <= all[j].start
  {
  }

  /** The block decoded from a region's content is the shortest brace-balanced text starting at
      the first brace of the stripped content; None only when no brace is ever closed. */
  lemma BlockIsShortestBalanced(content: string)
    ensures var raw, b := Strip(content), BlockOf(content);
            var start := Find(raw, "{", 0);
            if b.Some? then
              && 0 <= start && start + |b.value| <= |raw|
              && b.value == raw[start..start + |b.value|] && SelfBalanced(b.value) && "{" <= b.value
            else start == -1 || forall j :: start < j <= |raw| ==> Depth(raw[start..j]) > 0
  {
    var raw := Strip(content);
    var start := Find(raw, "{", 0);
    if start != -1 {
      assert raw[start..start + 1] == "{" && raw[start] == raw[start..start + 1][0];
      BraceEndIsShortestBalanced(raw, start);
    }
  }

  /** The parser's result is what the regions yield, one after the other. */
  function CallsOf<A>(json: Json<A>, text: string, spans: seq<Span>): seq<Call<A>>
    requires forall i :: 0 <= i < |spans| ==> spans[i].contentStart <= spans[i].end <= |text|
  {
    if spans == [] then []
    else CallOf(json, text[spans[0].contentStart..spans[0].end]) + CallsOf(json, text, spans[1..])
  }

  lemma {:induction false} ParseReadsTheSpans<A>(json: Json<A>, text: string, pos: nat)
    requires pos <= |text|
    ensures forall i :: 0 <= i < |Spans(text, pos)| ==>
              Spans(text, pos)[i].contentStart <= Spans(text, pos)[i].end <= |text|
    ensures ParseFrom(json, text, pos) == CallsOf(json, text, Spans(text, pos))
    decreases |text| - pos
  {
    NextSpanIsFirst(text, pos);
    var n := NextSpan(text, pos);
    if n.Some? {
      ParseReadsTheSpans(json, text, n.value.next);
      assert Spans(text, pos)[1..] == Spans(text, n.value.next);
    }
  }

  // ---------------------------------------------------------------- the printer

  /** `function.arguments` as the model API sends it: JSON text or an already decoded value. */
  datatype RawArgs<A> = Encoded(text: string) | Decoded(value: A)

  datatype NativeCall<A> = NativeCall(name: string, arguments: RawArgs<A>)

  /** Arguments that do not decode become the empty object. */
  function ReadNative<A>(json: Json<A>, native: NativeCall<A>): Call<A> {
    match native.arguments
    case Decoded(v) => Call(native.name, v)
    case Encoded(text) =>
      match json.loads(text)
      case None => Call(native.name, json.emptyArgs)
      case Some(v) => Call(native.name, v)
  }

  /** The JSON line of a printed block. The name is inserted as it is, without escaping. */
  function CallText(name: string, args: string): (t: string)
    ensures |t| >= 2 && t[0] == '{' && t[|t| - 1] == '}'
  {
    "{\"name\": \"" + name + "\", \"arguments\": " + args + "}"
  }

  function PrintedCall<A>(json: Json<A>, call: Call<A>): string {
    CallText(call.name, json.dumps(call.args))
  }

  function Block(line: string): string {
    START + "\n" + line + "\n" + CLOSE
  }

  function Blocks<A>(json: Json<A>, calls: seq<Call<A>>): seq<string> {
    seq(|calls|, i requires 0 <= i < |calls| => Block(PrintedCall(json, calls[i])))
  }

  function ReadNatives<A>(json: Json<A>, natives: seq<NativeCall<A>>): seq<Call<A>> {
    seq(|natives|, i requires 0 <= i < |natives| => ReadNative(json, natives[i]))
  }

  /** What reaches the parser: content is replaced only when it is blank and native calls came
      with it. */
  function PrintedContent<A>(json: Json<A>, natives: seq<NativeCall<A>>, content: string): string {
    if natives == [] || !IsBlank(content) then content else JoinLines(Blocks(json, ReadNatives(json, natives)))
  }

  /** The printer inside `_call_llm`. */
  method PrintNativeCalls<A>(json: Json<A>, natives: seq<NativeCall<A>>, content: string) returns (text: string)
    ensures text == PrintedContent(json, natives, content)
  {
    if natives == [] || Strip(content) != "" { return content; }
    var blocks: seq<string> := [];
    for i := 0 to |natives|
      invariant |blocks| == i
      invariant forall j :: 0 <= j < i ==> blocks[j] == Block(PrintedCall(json, ReadNative(json, natives[j])))
    {
      var call := ReadNative(json, natives[i]);
      blocks := blocks + [START + "\n" + CallText(call.name, json.dumps(call.args)) + "\n" + CLOSE];
    }
    assert blocks == Blocks(json, ReadNatives(json, natives));
    text := JoinLines(blocks);
  }

  // ---------------------------------------------------------------- round trip

  /** What a caller can check about a printed line: its braces close only at its end, and it
      contains no closing tag. */
  ghost predicate Clean(line: string) {
    SelfBalanced(line) && HoldsNoTag(line)
  }

  lemma MatchedCharacter(text: string, tag: string, i: int, k: nat)
    requires MatchAt(text, tag, i) && k < |tag|
    ensures text[i + k] == tag[k] && tag[k] in tag
  {
    assert text[i..i + |tag|][k] == tag[k];
  }

  lemma OneTagAtATime(text: string, i: int)
    requires MatchAt(text, CLOSE, i)
    ensures !MatchAt(text, CLOSES, i)
  {
    MatchedCharacter(text, CLOSE, i, 11);
    assert i + 13 <= |text| ==> text[i..i + 13][11] == text[i + 11];
  }

  lemma NoTagWithoutAngle(text: string, tag: string, i: int)
    requires tag != "" && tag[0] == '<' && (0 <= i < |text| ==> text[i] != '<')
    ensures !MatchAt(text, tag, i)
  {
    assert 0 <= i && i + |tag| <= |text| ==> text[i..i + |tag|][0] == text[i];
  }

  /** A tag without line breaks that begins inside "\n" + line + "\n" lies inside the line. */
  lemma TagInsideLine(text: string, tag: string, at: nat, line: string, i: int)
    requires at + 2 + |line| <= |text| && text[at] == '\n' && text[at + 1 + |line|] == '\n'
    requires text[at + 1..at + 1 + |line|] == line
    requires tag != "" && '\n' !in tag
    requires at <= i < at + 2 + |line| && MatchAt(text, tag, i)
    ensures at + 1 <= i && i + |tag| <= at + 1 + |line| && MatchAt(line, tag, i - at - 1)
  {
    var last := at + 1 + |line|;
    MatchedCharacter(text, tag, i, 0);
    MatchedCharacter(text, tag, i, if i + |tag| > last then last - i else 0);
    SliceOfSlice(text, at + 1, |line|, i - at - 1, |tag|);
  }

  /** In a text that holds a block at `at`, the scan from a position just before it finds the
      region that starts after the block's start tag. The region ends at the block's own
      closing tag exactly when the line holds none. */
  lemma BlockSpan(text: string, pos: nat, at: nat, line: string)
    requires pos <= at && HoldsBlock(text, at, line) && NoStart(text, pos, at)
    ensures var n := NextSpan(text, pos); var content := at + |START|;
            && n.Some? && n.value.start == at && n.value.contentStart == content
            && (HoldsNoTag(line) ==> n.value.end == content + |line| + 2 && n.value.next == at + |Block(line)|)
            && (!HoldsNoTag(line) ==> content <= n.value.end < content + |line| + 1)
  {
    hide Block, MatchAt;
    BlockParts(text, at, line);
    BlockStart(text, pos, at);
    var content := at + |START|;
    var close := content + |line| + 2;
    assert CloseTagAt(text, close);
    NextSpanIsFirst(text, pos);
    assert NextSpan(text, pos).Some?;
    var n := NextSpan(text, pos).value;
    assert n.start == at && n.end <= close;
    if HoldsNoTag(line) {
      if n.end < close {
        TagBeforeClose(text, content, line, n.end);
        assert false;
      }
      OneTagAtATime(text, close);
    } else {
      var i :| 0 <= i < |line| && CloseTagAt(line, i);
      TagInText(text, content + 1, line, i);
      assert n.end <= content + 1 + i;
    }
  }

  ghost predicate HoldsNoTag(line: string) {
    forall i :: 0 <= i < |line| ==> !CloseTagAt(line, i)
  }

  predicate HoldsBlock(text: string, at: nat, line: string) {
    at + |Block(line)| <= |text| && text[at..at + |Block(line)|] == Block(line)
  }

  ghost predicate NoStart(text: string, from: nat, to: nat) {
    forall i :: from <= i < to ==> !MatchAt(text, START, i)
  }

  lemma BlockStart(text: string, pos: nat, at: nat)
    requires pos <= at && MatchAt(text, START, at) && NoStart(text, pos, at)
    ensures pos <= |text| && Find(text, START, pos) == at
  {
    FindIs(text, START, pos, at);
  }

  lemma TagBeforeClose(text: string, at: nat, line: string, i: int)
    requires at + 2 + |line| <= |text| && text[at] == '\n' && text[at + 1 + |line|] == '\n'
    requires text[at + 1..at + 1 + |line|] == line
    requires at <= i < at + 2 + |line| && CloseTagAt(text, i)
    ensures !HoldsNoTag(line)
  {
    if MatchAt(text, CLOSE, i) {
      TagInsideLine(text, CLOSE, at, line, i);
    } else {
      TagInsideLine(text, CLOSES, at, line, i);
    }
    assert CloseTagAt(line, i - at - 1);
  }

  lemma TagInText(text: string, at: nat, line: string, i: nat)
    requires at + |line| <= |text| && text[at..at + |line|] == line && CloseTagAt(line, i)
    ensures CloseTagAt(text, at + i)
  {
    if MatchAt(line, CLOSE, i) {
      SliceOfSlice(text, at, |line|, i, |CLOSE|);
    } else {
      SliceOfSlice(text, at, |line|, i, |CLOSES|);
    }
  }

  lemma BlockParts(text: string, at: nat, line: string)
    requires HoldsBlock(text, at, line)
    ensures var content := at + |START|;
            && |Block(line)| == |START| + |line| + 2 + |CLOSE|
            && MatchAt(text, START, at)
            && text[content] == '\n' && text[content + 1..content + 1 + |line|] == line
            && text[content + 1 + |line|] == '\n'
            && MatchAt(text, CLOSE, content + |line| + 2)
            && text[content..content + |line| + 2] == "\n" + line + "\n"
  {
    hide MatchAt;
    PartsOf(text, at, line, START, CLOSE);
    MatchFromSlice(text, START, at);
    MatchFromSlice(text, CLOSE, at + |START| + |line| + 2);
  }

  lemma MatchFromSlice(text: string, pat: string, i: nat)
    requires i + |pat| <= |text| && text[i..i + |pat|] == pat
    ensures MatchAt(text, pat, i)
  {
  }

  lemma PartsOf(text: string, at: nat, line: string, open: string, close: string)
    requires var block := open + "\n" + line + "\n" + close; at + |block| <= |text| && text[at..at + |block|] == block
    ensures var content := at + |open|;
            && text[at..content] == open
            && text[content] == '\n' && text[content + 1..content + 1 + |line|] == line
            && text[content + 1 + |line|] == '\n'
            && text[content + |line| + 2..content + |line| + 2 + |close|] == close
            && text[content..content + |line| + 2] == "\n" + line + "\n"
  {
    var block, k := open + "\n" + line + "\n" + close, |open|;
    BlockSlices(line, open, close);
    PlaceParts(text, at, block, k, |line|);
  }

  lemma PlaceParts(text: string, at: nat, block: string, k: nat, n: nat)
    requires at + |block| <= |text| && text[at..at + |block|] == block && k + 2 + n <= |block|
    ensures text[at..at + k] == block[0..k]
    ensures [text[at + k]] == block[k..k + 1] && text[at + k + 1..at + k + 1 + n] == block[k + 1..k + 1 + n]
    ensures [text[at + k + 1 + n]] == block[k + 1 + n..k + 2 + n]
    ensures text[at + k + 2 + n..at + |block|] == block[k + 2 + n..|block|]
    ensures text[at + k..at + k + n + 2] == block[k..k + n + 2]
  {
    SliceOfSlice(text, at, |block|, 0, k);
    SliceOfSlice(text, at, |block|, k + 1, n);
    SliceOfSlice(text, at, |block|, k, n + 2);
    SliceOfSlice(text, at, |block|, k + 2 + n, |block| - k - 2 - n);
    CharacterOfSlice(text, at, block, k);
    CharacterOfSlice(text, at, block, k + 1 + n);
  }

  lemma CharacterOfSlice(text: string, at: nat, block: string, j: nat)
    requires at + |block| <= |text| && text[at..at + |block|] == block && j < |block|
    ensures [text[at + j]] == block[j..j + 1]
  {
    assert text[at + j] == text[at..at + |block|][j];
  }

  lemma BlockSlices(line: string, open: string, close: string)
    ensures var block, k := open + "\n" + line + "\n" + close, |open|;
            && |block| == k + 2 + |line| + |close|
            && block[0..k] == open && block[k..k + 1] == "\n" && block[k + 1..k + 1 + |line|] == line
            && block[k + 1 + |line|..k + 2 + |line|] == "\n"
            && block[k + 2 + |line|..k + 2 + |line| + |close|] == close
            && block[k..k + |line| + 2] == "\n" + line + "\n"
  {
  }

  lemma StripContent(line: string)
    requires line != "" && !IsSpace(line[0]) && !IsSpace(line[|line| - 1])
    ensures Strip("\n" + line + "\n") == line
  {
    var s := "\n" + line + "\n";
    assert s[1..] == line + "\n";
    assert IsSpace('\n');
    assert LStrip(s) == LStrip(s[1..]) == line + "\n";
    assert (line + "\n")[..|line|] == line;
    assert RStrip(line + "\n") == RStrip(line) == line;
  }

  /** The text a block's region decodes is its printed line exactly when the line is clean.
      So the balance and closing-tag conditions are not only sufficient but necessary. */
  lemma FirstBlockIsLineExactlyWhenClean(line: string)
    requires line != "" && line[0] == '{' && line[|line| - 1] == '}'
    ensures var n := NextSpan(Block(line), 0);
            && n.Some?
            && (BlockOf(Block(line)[n.value.contentStart..n.value.end]) == Some(line) <==> Clean(line))
  {
    hide Block, NextSpan, BlockOf, SelfBalanced, HoldsNoTag, MatchAt;
    var text := Block(line);
    assert text[0..|text|] == text;
    BlockSpan(text, 0, 0, line);
    BlockParts(text, 0, line);
    var n := NextSpan(text, 0).value;
    RegionIsLineExactlyWhenClean(line, text[n.contentStart..n.end]);
  }

  lemma RegionIsLineExactlyWhenClean(line: string, content: string)
    requires line != "" && line[0] == '{' && line[|line| - 1] == '}'
    requires content != "" ==> content[0] == '\n'
    requires if HoldsNoTag(line) then content == "\n" + line + "\n" else |content| < |line| + 1
    ensures BlockOf(content) == Some(line) <==> Clean(line)
  {
    hide BlockOf, SelfBalanced, HoldsNoTag;
    if HoldsNoTag(line) {
      BlockOfLine(line);
    } else {
      ShortContentGivesShortBlock(content, line);
    }
  }

  lemma ShortContentGivesShortBlock(content: string, line: string)
    requires line != "" && |content| < |line| + 1 && (content != "" ==> content[0] == '\n')
    ensures BlockOf(content) != Some(line)
  {
    StripShorter(content, line);
    BlockIsShortestBalanced(content);
  }

  /** A region cut short inside the line cannot strip to the whole line: its first character
      is the line break. */
  lemma StripShorter(content: string, line: string)
    requires line != "" && |content| < |line| + 1 && (content != "" ==> content[0] == '\n')
    ensures |Strip(content)| < |line|
  {
    if content != "" {
      assert |LStrip(content)| <= |content[1..]|;
    }
  }

  /** On the content of an uncut region the block is the line exactly when it is balanced. */
  lemma BlockOfLine(line: string)
    requires line != "" && line[0] == '{' && line[|line| - 1] == '}'
    ensures BlockOf("\n" + line + "\n") == Some(line) <==> SelfBalanced(line)
  {
    StripContent(line);
    FindIs(line, "{", 0, 0);
    BraceEndIsShortestBalanced(line, 0);
    var e := BraceEnd(line, 0, 0);
    assert line[0..|line|] == line;
    assert e != -1 ==> line[0..e] == line[..e];
  }

  ghost predicate Printable<A>(json: Json<A>, call: Call<A>) {
    && call.name != ""
    && Clean(PrintedCall(json, call))
    && json.decodeCall(PrintedCall(json, call)) == Some(call)
  }

  /** Round trip: parsing the printed form of any list of calls with non-empty names and clean
      printed lines returns exactly that list, in order. Of the JSON library only one fact is
      used: decoding a printed call gives the call back. */
  lemma RoundTrip<A>(json: Json<A>, calls: seq<Call<A>>)
    requires forall i :: 0 <= i < |calls| ==> Printable(json, calls[i])
    ensures ParseFrom(json, JoinLines(Blocks(json, calls)), 0) == calls
  {
    var text := JoinLines(Blocks(json, calls));
    assert text[0..] == text;
    if calls == [] {
      assert NextSpan("", 0).None?;
    } else {
      RoundTripFrom(json, text, 0, 0, calls);
    }
  }

  /** The call a native one stands for: its name, and the decoded value, or the empty object only
      when its text does not decode. */
  ghost predicate StandsFor<A>(json: Json<A>, native: NativeCall<A>, call: Call<A>) {
    && call.name == native.name
    && match native.arguments
       case Decoded(v) => call.args == v
       case Encoded(text) => if json.loads(text).Some? then Some(call.args) == json.loads(text) else call.args == json.emptyArgs
  }

  /** The printed block of a native call, letter by letter. */
  lemma PrintedBlock<A>(json: Json<A>, native: NativeCall<A>, call: Call<A>)
    requires StandsFor(json, native, call)
    ensures Block(PrintedCall(json, ReadNative(json, native)))
            == "<tool_call>" + "\n" + ("{\"name\": \"" + native.name + "\", \"arguments\": " + json.dumps(call.args) + "}") + "\n"
               + "</tool_call>"
  {
  }

  /** From the model's native calls to the calls the daemon makes: with blank content, the parser
      returns for every native call, in order, its name with its decoded arguments, exactly when
      every printed line is clean; lines decode to their calls, and no proper part of one to any
      call of the list. With other content the native calls are dropped. */
  lemma NativeRoundTrip<A>(json: Json<A>, natives: seq<NativeCall<A>>, content: string, calls: seq<Call<A>>)
    requires |calls| == |natives| && forall i :: 0 <= i < |natives| ==> StandsFor(json, natives[i], calls[i])
    ensures natives != [] && IsBlank(content) && (forall i :: 0 <= i < |calls| ==> Printable(json, calls[i]))
            ==> ParseFrom(json, PrintedContent(json, natives, content), 0) == calls
    ensures natives != [] && IsBlank(content) && Decodable(json, calls, calls)
            ==> (ParseFrom(json, PrintedContent(json, natives, content), 0) == calls <==> AllClean(json, calls))
    ensures !IsBlank(content) ==> PrintedContent(json, natives, content) == content
  {
    hide ParseFrom, Printable, Decodable, AllClean, Blocks, JoinLines;
    assert ReadNatives(json, natives) == calls;
    if forall i :: 0 <= i < |calls| ==> Printable(json, calls[i]) {
      RoundTrip(json, calls);
    }
    if Decodable(json, calls, calls) {
      ListParsedExactlyWhenClean(json, calls);
    }
  }

  lemma {:induction false} RoundTripFrom<A>(json: Json<A>, text: string, pos: nat, at: nat, calls: seq<Call<A>>)
    requires calls != [] && forall i :: 0 <= i < |calls| ==> Printable(json, calls[i])
    requires pos <= at <= |text| && text[at..] == JoinLines(Blocks(json, calls)) && NoStart(text, pos, at)
    ensures ParseFrom(json, text, pos) == calls
    decreases |calls|
  {
    hide ParseFrom, Printable, PrintedCall, Block, Blocks, JoinLines;
    var block, rest := Block(PrintedCall(json, calls[0])), calls[1..];
    var next := at + |block|;
    JoinedBlocks(json, calls);
    if rest == [] {
      TextParts(text, at, block, "");
      NothingAtEnd(json, text);
      PrependCall(json, text, pos, at, calls);
    } else {
      var joined := JoinLines(Blocks(json, rest));
      BlockThenMore(text, at, block, joined);
      NoTagWithoutAngle(text, START, next);
      RoundTripFrom(json, text, next, next + 1, rest);
      PrependCall(json, text, pos, at, calls);
    }
  }

  lemma PrependCall<A>(json: Json<A>, text: string, pos: nat, at: nat, calls: seq<Call<A>>)
    requires calls != [] && Printable(json, calls[0])
    requires var block := Block(PrintedCall(json, calls[0]));
             at + |block| <= |text| && text[at..at + |block|] == block && ParseFrom(json, text, at + |block|) == calls[1..]
    requires pos <= at && NoStart(text, pos, at)
    ensures ParseFrom(json, text, pos) == calls
  {
    hide ParseFrom, Printable, PrintedCall, Block;
    FirstCallIsRead(json, text, pos, at, calls[0]);
    assert calls == [calls[0]] + calls[1..];
  }

  lemma NothingAtEnd<A>(json: Json<A>, text: string)
    ensures ParseFrom(json, text, |text|) == []
  {
  }

  lemma TextParts(text: string, at: nat, head: string, tail: string)
    requires at <= |text| && text[at..] == head + tail
    ensures |text| == at + |head| + |tail|
    ensures text[at..at + |head|] == head && text[at + |head|..] == tail
  {
    assert text[at..][..|head|] == head && text[at..][|head|..] == tail;
  }

  lemma BlockThenMore(text: string, at: nat, block: string, joined: string)
    requires at <= |text| && text[at..] == block + ("\n" + joined)
    ensures var next := at + |block|;
            next < |text| && text[at..next] == block && text[next] == '\n' && text[next + 1..] == joined
  {
    TextParts(text, at, block, "\n" + joined);
    TextParts(text, at + |block|, "\n", joined);
    assert text[at + |block|] == text[at + |block|..at + |block| + 1][0];
  }

  lemma JoinedBlocks<A>(json: Json<A>, calls: seq<Call<A>>)
    requires calls != []
    ensures var block := Block(PrintedCall(json, calls[0]));
            JoinLines(Blocks(json, calls)) ==
              if |calls| == 1 then block + "" else block + ("\n" + JoinLines(Blocks(json, calls[1..])))
  {
    assert Blocks(json, calls)[0] == Block(PrintedCall(json, calls[0]));
    assert Blocks(json, calls)[1..] == Blocks(json, calls[1..]);
    assert Block(PrintedCall(json, calls[0])) + "" == Block(PrintedCall(json, calls[0]));
    if |calls| > 1 {
      ConcatAssociative(Block(PrintedCall(json, calls[0])), "\n", JoinLines(Blocks(json, calls[1..])));
    }
  }

  /** One block of a longer text yields its call, and the scan resumes right after it. */
  lemma FirstCallIsRead<A>(json: Json<A>, text: string, pos: nat, at: nat, call: Call<A>)
    requires Printable(json, call)
    requires HoldsBlock(text, at, PrintedCall(json, call)) && pos <= at && NoStart(text, pos, at)
    ensures ParseFrom(json, text, pos) == [call] + ParseFrom(json, text, at + |Block(PrintedCall(json, call))|)
  {
    hide NextSpan, CallOf, BlockOf, SelfBalanced, HoldsNoTag, CallText, Block, MatchAt;
    var line := PrintedCall(json, call);
    PrintedIsBraced(json, call);
    BlockSpan(text, pos, at, line);
    BlockParts(text, at, line);
    BlockOfLine(line);
    CallOfBlock(json, "\n" + line + "\n", line, call);
  }

  lemma PrintedIsBraced<A>(json: Json<A>, call: Call<A>)
    ensures var line := PrintedCall(json, call); line != "" && line[0] == '{' && line[|line| - 1] == '}'
  {
  }

  lemma CallOfBlock<A>(json: Json<A>, content: string, block: string, call: Call<A>)
    requires BlockOf(content) == Some(block) && json.decodeCall(block) == Some(call) && call.name != ""
    ensures CallOf(json, content) == [call]
  {
    hide BlockOf;
  }

  // ---------------------------------------------------------------- when a line is clean

  /** Braces that never close below where they started, and end where they started. */
  ghost predicate Balanced(s: string) {
    Depth(s) == 0 && forall j :: 0 <= j <= |s| ==> Depth(s[..j]) >= 0
  }

  lemma BalancedConcat(a: string, b: string)
    requires Balanced(a) && Balanced(b)
    ensures Balanced(a + b)
  {
    DepthConcat(a, b);
    forall j | 0 <= j <= |a + b| ensures Depth((a + b)[..j]) >= 0 {
      if j <= |a| {
        assert (a + b)[..j] == a[..j];
      } else {
        assert (a + b)[..j] == a + b[..j - |a|];
        DepthConcat(a, b[..j - |a|]);
      }
    }
  }

  lemma {:induction false} BracelessIsBalanced(s: string)
    requires '{' !in s && '}' !in s
    ensures Balanced(s)
  {
    if s != "" {
      var k := |s| - 1;
      assert forall c :: c in s[..k] ==> c in s;
      BracelessIsBalanced(s[..k]);
      forall j | 0 <= j <= |s| ensures Depth(s[..j]) >= 0 {
        if j < |s| {
          assert s[..j] == s[..k][..j];
        } else {
          assert s[..j] == s;
        }
      }
    }
  }

  /** A call whose name and argument text are balanced and hold no '<' prints cleanly; in
      particular when no string inside it contains a brace or a '<'. */
  lemma BalancedPartsAreClean(name: string, args: string)
    requires Balanced(name) && Balanced(args) && '<' !in name && '<' !in args
    ensures Clean(CallText(name, args))
  {
    hide Balanced, SelfBalanced, HoldsNoTag;
    var line := CallText(name, args);
    var head, mid := "\"name\": \"", "\", \"arguments\": ";
    var inner := head + name + mid + args;
    BracelessIsBalanced(head);
    BracelessIsBalanced(mid);
    BalancedConcat(head, name);
    BalancedConcat(head + name, mid);
    BalancedConcat(head + name + mid, args);
    assert line == "{" + inner + "}";
    WrappedIsSelfBalanced(inner);
    assert '<' !in head && '<' !in mid;
    NoAngleNoTag(inner);
  }

  lemma NoAngleNoTag(inner: string)
    requires '<' !in inner
    ensures HoldsNoTag("{" + inner + "}")
  {
    var line := "{" + inner + "}";
    forall i | 0 <= i < |line| ensures !CloseTagAt(line, i) {
      NoTagWithoutAngle(line, CLOSE, i);
      NoTagWithoutAngle(line, CLOSES, i);
    }
  }

  lemma WrappedIsSelfBalanced(inner: string)
    requires Balanced(inner)
    ensures SelfBalanced("{" + inner + "}")
  {
    var line := "{" + inner + "}";
    assert Depth("{") == Depth("{"[..0]) + 1 == 1;
    DepthConcat("{", inner);
    assert line[..|line| - 1] == "{" + inner;
    forall j | 0 < j < |line| ensures Depth(line[..j]) > 0 {
      assert line[..j] == "{" + inner[..j - 1];
      DepthConcat("{", inner[..j - 1]);
    }
  }

  // ---------------------------------------------------------------- and only then

  /** A decoded block is a part of its region's content, from one brace to another. */
  lemma BlockPosition(content: string) returns (k: nat)
    requires BlockOf(content).Some?
    ensures var b := BlockOf(content).value;
            && |b| > 1 && k + |b| <= |content| && content[k..k + |b|] == b && b[0] == '{' && b[|b| - 1] == '}'
  {
    var raw, b := Strip(content), BlockOf(content).value;
    BlockIsShortestBalanced(content);
    var start := Find(raw, "{", 0);
    var from := StripIsSlice(content);
    SliceOfSlice(content, from, |raw|, start, |b|);
    EndsWithBrace(b);
    k := from + start;
  }

  lemma EndsWithBrace(b: string)
    requires SelfBalanced(b) && "{" <= b
    ensures |b| > 1 && b[|b| - 1] == '}'
  {
    var n := |b| - 1;
    assert Depth("{") == Depth("{"[..0]) + 1 == 1;
    assert |b| == 1 ==> b == "{";
    assert |b| > 1 ==> Depth(b[..n]) > 0;
  }

  /** Every call the parser returns was decoded from a part of the text between two braces, past
      a start tag. */
  lemma {:induction false} CallHasBlock<A>(json: Json<A>, text: string, pos: nat, call: Call<A>) returns (i: nat, j: nat)
    requires pos <= |text| && call in ParseFrom(json, text, pos)
    ensures pos + |START| <= i && i + 1 < j <= |text|
    ensures text[i] == '{' && text[j - 1] == '}' && json.decodeCall(text[i..j]) == Some(call)
    decreases |text| - pos
  {
    hide BlockOf, NextSpan;
    var s := NextSpan(text, pos).value;
    SpanBounds(text, pos);
    var content := text[s.contentStart..s.end];
    if call in CallOf(json, content) {
      i, j := CallPosition(json, text, s.contentStart, s.end, call);
    } else {
      i, j := CallHasBlock(json, text, s.next, call);
    }
  }

  lemma SpanBounds(text: string, pos: nat)
    requires pos <= |text|
    ensures var n := NextSpan(text, pos);
            n.Some? ==> pos + |START| <= n.value.contentStart <= n.value.end < n.value.next <= |text|
  {
    NextSpanIsFirst(text, pos);
  }

  lemma CallPosition<A>(json: Json<A>, text: string, from: nat, to: nat, call: Call<A>) returns (i: nat, j: nat)
    requires from <= to <= |text| && call in CallOf(json, text[from..to])
    ensures from <= i && i + 1 < j <= to
    ensures BlockOf(text[from..to]) == Some(text[i..j])
    ensures text[i] == '{' && text[j - 1] == '}' && json.decodeCall(text[i..j]) == Some(call)
  {
    hide BlockOf;
    var content := text[from..to];
    var k := BlockPosition(content);
    var b := BlockOf(content).value;
    i, j := from + k, from + k + |b|;
    SliceOfSlice(text, from, to - from, k, |b|);
    assert text[i] == text[i..j][0] && text[j - 1] == text[i..j][|b| - 1];
  }

  /** Between two braces of a block's content there is only the line. */
  lemma BracesAreInLine(text: string, at: nat, line: string, i: nat, j: nat)
    requires HoldsBlock(text, at, line) && at + |START| <= i < j <= at + |START| + |line| + 2 <= |text|
    requires text[i] == '{' && text[j - 1] == '}'
    ensures var first := at + |START| + 1; first <= i && j <= first + |line| && text[i..j] == line[i - first..j - first]
  {
    hide Block;
    BlockParts(text, at, line);
    SliceOfSlice(text, at + |START| + 1, |line|, i - at - |START| - 1, j - i);
  }

  /** No proper part of the line decodes to the call. */
  ghost predicate OnlyWhole<A>(json: Json<A>, line: string, call: Call<A>) {
    forall i, j :: 0 <= i <= j <= |line| && j - i < |line| ==> json.decodeCall(line[i..j]) != Some(call)
  }

  /** No proper part of the line decodes to any call of the list. */
  ghost predicate NoPartIsOf<A>(json: Json<A>, line: string, all: seq<Call<A>>) {
    forall k :: 0 <= k < |all| ==> OnlyWhole(json, line, all[k])
  }

  ghost predicate NoneOf<A>(own: seq<Call<A>>, all: seq<Call<A>>) {
    forall c :: c in own ==> c !in all
  }

  /** A region inside a block yields a listed call only by cutting out the whole line. */
  lemma CallNeedsTheLine<A>(json: Json<A>, text: string, at: nat, line: string, from: nat, to: nat, all: seq<Call<A>>)
    requires HoldsBlock(text, at, line) && NoPartIsOf(json, line, all)
    requires at + |START| <= from <= to <= at + |START| + |line| + 2 <= |text|
    ensures BlockOf(text[from..to]) != Some(line) || at + |START| + 1 < from ==> NoneOf(CallOf(json, text[from..to]), all)
  {
    hide Block, BlockOf, CallOf, NoPartIsOf, HoldsBlock;
    var first := at + |START| + 1;
    forall c | c in CallOf(json, text[from..to]) && c in all ensures BlockOf(text[from..to]) == Some(line) && from <= first {
      var i, j := CallPosition(json, text, from, to, c);
      BracesAreInLine(text, at, line, i, j);
      WholeOnly(json, line, all, c, i - first, j - first);
      assert line[0..|line|] == line;
    }
  }

  lemma WholeOnly<A>(json: Json<A>, line: string, all: seq<Call<A>>, call: Call<A>, p: nat, q: nat)
    requires NoPartIsOf(json, line, all) && call in all && p <= q <= |line|
    ensures json.decodeCall(line[p..q]) == Some(call) ==> p == 0 && q == |line|
  {
    var k :| 0 <= k < |all| && all[k] == call;
    assert OnlyWhole(json, line, all[k]);
  }

  /** A closing tag inside a block is the block's own or lies in the line. */
  lemma ClosingTagInBlock(text: string, at: nat, line: string, i: nat, next: nat)
    requires HoldsBlock(text, at, line) && at + |START| <= i <= at + |START| + |line| + 2
    requires (MatchAt(text, CLOSE, i) && next == i + |CLOSE|) || (MatchAt(text, CLOSES, i) && next == i + |CLOSES|)
    ensures at + |START| + 1 < next <= at + |Block(line)|
  {
    hide MatchAt, Block;
    BlockParts(text, at, line);
    var content := at + |START|;
    if i == content + |line| + 2 {
      OneTagAtATime(text, i);
    } else if MatchAt(text, CLOSE, i) {
      TagInsideLine(text, CLOSE, content, line, i);
    } else {
      TagInsideLine(text, CLOSES, content, line, i);
    }
  }

  /** A start tag inside a block, past its own one, lies in the line. */
  lemma StartTagInBlock(text: string, at: nat, line: string, i: nat)
    requires HoldsBlock(text, at, line) && at + |START| <= i < at + |Block(line)| && MatchAt(text, START, i)
    ensures at + |START| + 1 <= i && i + |START| <= at + |START| + 1 + |line|
  {
    hide MatchAt, Block;
    BlockParts(text, at, line);
    var content := at + |START|;
    var close := content + |line| + 2;
    if i < close {
      TagInsideLine(text, START, content, line, i);
    } else {
      MatchedCharacter(text, CLOSE, close, i - close);
      MatchedCharacter(text, START, i, 0);
      CloseHasOneAngle(i - close);
      MatchedCharacter(text, START, i, 1);
      MatchedCharacter(text, CLOSE, close, 1);
    }
  }

  lemma CloseHasOneAngle(k: nat)
    ensures 0 < k < |CLOSE| ==> CLOSE[k] != START[0]
    ensures CLOSE[1] != START[1]
  {
  }

  /** When the scan resumes inside a block it finds nothing of the list there, and leaves the
      block before the next one starts. */
  lemma {:induction false} InsideBlock<A>(json: Json<A>, text: string, at: nat, line: string, pos: nat, all: seq<Call<A>>)
    returns (own: seq<Call<A>>, after: nat)
    requires HoldsBlock(text, at, line) && NoPartIsOf(json, line, all)
    requires at + |START| + 1 < pos <= at + |Block(line)| <= |text|
    ensures pos <= after <= at + |Block(line)| && NoStart(text, after, at + |Block(line)|)
    ensures ParseFrom(json, text, pos) == own + ParseFrom(json, text, after) && NoneOf(own, all)
    decreases |text| - pos
  {
    hide Block, BlockOf, CallOf, NextSpan, HoldsBlock, NoPartIsOf, MatchAt;
    var end := at + |Block(line)|;
    own, after := [], pos;
    if !NoStart(text, pos, end) {
      var i :| pos <= i < end && MatchAt(text, START, i);
      StartTagInBlock(text, at, line, i);
      BlockParts(text, at, line);
      NextSpanIsFirst(text, pos);
      RegionStaysInBlock(text, at, line, pos, i);
      var s := NextSpan(text, pos).value;
      CallNeedsTheLine(json, text, at, line, s.contentStart, s.end, all);
      var more;
      more, after := InsideBlock(json, text, at, line, s.next, all);
      own := CallOf(json, text[s.contentStart..s.end]) + more;
      ConcatAssociative(CallOf(json, text[s.contentStart..s.end]), more, ParseFrom(json, text, after));
    }
  }

  lemma RegionStaysInBlock(text: string, at: nat, line: string, pos: nat, i: nat)
    requires HoldsBlock(text, at, line) && at + |START| + 1 < pos <= i < at + |Block(line)| <= |text| && MatchAt(text, START, i)
    ensures var n := NextSpan(text, pos);
            && n.Some? && pos < n.value.contentStart <= n.value.end <= at + |START| + |line| + 2
            && pos < n.value.next <= at + |Block(line)|
  {
    hide Block, NextSpan, HoldsBlock, MatchAt;
    StartTagInBlock(text, at, line, i);
    BlockParts(text, at, line);
    var close := at + |START| + |line| + 2;
    assert CloseTagAt(text, close);
    NextSpanIsFirst(text, pos);
    assert NextSpan(text, pos).Some?;
    var s := NextSpan(text, pos).value;
    assert s.start <= i && s.contentStart <= close;
    assert s.end <= close;
    ClosingTagInBlock(text, at, line, s.end, s.next);
  }

  /** What one block of a longer text gives: its call when its line is clean, and nothing of the
      list otherwise; the scan leaves the block before the next one starts. */
  lemma OneBlock<A>(json: Json<A>, text: string, pos: nat, at: nat, call: Call<A>, all: seq<Call<A>>)
    returns (own: seq<Call<A>>, after: nat)
    requires var line := PrintedCall(json, call);
             && HoldsBlock(text, at, line) && NoPartIsOf(json, line, all)
             && call.name != "" && json.decodeCall(line) == Some(call)
    requires pos <= at && NoStart(text, pos, at)
    ensures var line := PrintedCall(json, call);
            && after <= at + |Block(line)| <= |text| && NoStart(text, after, at + |Block(line)|)
            && ParseFrom(json, text, pos) == own + ParseFrom(json, text, after)
            && (if Clean(line) then own == [call] else NoneOf(own, all))
  {
    hide Block, BlockOf, CallOf, NextSpan, NoPartIsOf, MatchAt, SelfBalanced, HoldsNoTag, PrintedCall;
    var line := PrintedCall(json, call);
    var content := at + |START|;
    PrintedIsBraced(json, call);
    BlockParts(text, at, line);
    BlockSpan(text, pos, at, line);
    var s := NextSpan(text, pos).value;
    RegionIsLineExactlyWhenClean(line, text[s.contentStart..s.end]);
    CallNeedsTheLine(json, text, at, line, s.contentStart, s.end, all);
    own, after := CallOf(json, text[s.contentStart..s.end]), s.next;
    if Clean(line) {
      CallOfBlock(json, text[s.contentStart..s.end], line, call);
    } else if !HoldsNoTag(line) {
      NextSpanIsFirst(text, pos);
      ClosingTagInBlock(text, at, line, s.end, s.next);
      var more;
      more, after := InsideBlock(json, text, at, line, s.next, all);
      ConcatAssociative(own, more, ParseFrom(json, text, after));
      own := own + more;
    }
  }

  /** What is required of a list: names are not empty, each line decodes to its call, and no
      proper part of any line decodes to any call of `all`. */
  ghost predicate Decodable<A>(json: Json<A>, calls: seq<Call<A>>, all: seq<Call<A>>) {
    forall i :: 0 <= i < |calls| ==>
      var line := PrintedCall(json, calls[i]);
      calls[i].name != "" && json.decodeCall(line) == Some(calls[i]) && NoPartIsOf(json, line, all)
  }

  ghost predicate AllClean<A>(json: Json<A>, calls: seq<Call<A>>) {
    forall i :: 0 <= i < |calls| ==> Clean(PrintedCall(json, calls[i]))
  }

  /** As many listed calls as blocks come back only when all lines are clean. */
  lemma {:induction false} CleanIsNeeded<A>(json: Json<A>, text: string, pos: nat, at: nat, calls: seq<Call<A>>, all: seq<Call<A>>)
    requires Decodable(json, calls, all)
    requires pos <= at <= |text| && text[at..] == JoinLines(Blocks(json, calls)) && NoStart(text, pos, at)
    ensures var p := ParseFrom(json, text, pos);
            (exists c :: c in p && c !in all) || (|p| <= |calls| && (|p| == |calls| ==> AllClean(json, calls)))
    decreases |calls|
  {
    hide ParseFrom, PrintedCall, Block, Blocks, JoinLines, Clean, NoPartIsOf;
    if calls == [] {
      NoBlocks(json, text, pos, at);
    } else {
      var line, rest := PrintedCall(json, calls[0]), calls[1..];
      var next := at + |Block(line)|;
      JoinedBlocks(json, calls);
      BlocksOfRest(json, text, at, calls);
      var own, after := OneBlock(json, text, pos, at, calls[0], all);
      assert Decodable(json, rest, all) by {
        assert forall i :: 0 <= i < |rest| ==> rest[i] == calls[i + 1];
      }
      CleanIsNeeded(json, text, after, if rest == [] then next else next + 1, rest, all);
      var p, q := ParseFrom(json, text, pos), ParseFrom(json, text, after);
      OneMore(json, calls, own, q, p, all);
    }
  }

  lemma NoBlocks<A>(json: Json<A>, text: string, pos: nat, at: nat)
    requires pos <= at <= |text| && text[at..] == JoinLines(Blocks(json, [])) && NoStart(text, pos, at)
    ensures ParseFrom(json, text, pos) == []
  {
    NoBlocksJoined(json);
    NothingMore(json, text, pos);
  }

  /** Where the text after the first block continues, and that no start tag lies between. */
  lemma BlocksOfRest<A>(json: Json<A>, text: string, at: nat, calls: seq<Call<A>>)
    requires calls != [] && at <= |text| && text[at..] == JoinLines(Blocks(json, calls))
    ensures var line := PrintedCall(json, calls[0]); var next := at + |Block(line)|;
            && HoldsBlock(text, at, line)
            && (if |calls| == 1 then next == |text| && text[next..] == JoinLines(Blocks(json, []))
                else next + 1 <= |text| && text[next + 1..] == JoinLines(Blocks(json, calls[1..])) && NoStart(text, next, next + 1))
  {
    hide PrintedCall, Block, Blocks;
    var line := PrintedCall(json, calls[0]);
    JoinedBlocks(json, calls);
    if |calls| == 1 {
      TextParts(text, at, Block(line), "");
      NoBlocksJoined(json);
    } else {
      BlockThenMore(text, at, Block(line), JoinLines(Blocks(json, calls[1..])));
      NoTagWithoutAngle(text, START, at + |Block(line)|);
    }
  }

  lemma NoBlocksJoined<A>(json: Json<A>)
    ensures JoinLines(Blocks(json, [])) == ""
  {
  }

  lemma OneMore<A>(json: Json<A>, calls: seq<Call<A>>, own: seq<Call<A>>, q: seq<Call<A>>, p: seq<Call<A>>, all: seq<Call<A>>)
    requires calls != [] && p == own + q
    requires if Clean(PrintedCall(json, calls[0])) then own == [calls[0]] else NoneOf(own, all)
    requires (exists c :: c in q && c !in all) || (|q| <= |calls| - 1 && (|q| == |calls| - 1 ==> AllClean(json, calls[1..])))
    ensures (exists c :: c in p && c !in all) || (|p| <= |calls| && (|p| == |calls| ==> AllClean(json, calls)))
  {
    hide Clean, PrintedCall;
    if c :| c in q && c !in all {
      assert c in p;
    } else if own != [] && NoneOf(own, all) {
      assert own[0] in p;
    } else if |p| == |calls| {
      forall i | 0 <= i < |calls| ensures Clean(PrintedCall(json, calls[i])) {
        assert i > 0 ==> calls[i] == calls[1..][i - 1];
      }
    }
  }

  /** A list of calls comes back from its printed blocks exactly when every line is clean, provided
      only that the JSON library decodes each line to its call, and no proper part of a line to
      any call of the list. */
  lemma ListParsedExactlyWhenClean<A>(json: Json<A>, calls: seq<Call<A>>)
    requires Decodable(json, calls, calls)
    ensures ParseFrom(json, JoinLines(Blocks(json, calls)), 0) == calls <==> AllClean(json, calls)
  {
    hide PrintedCall, Blocks, JoinLines, ParseFrom, Clean;
    var text := JoinLines(Blocks(json, calls));
    if AllClean(json, calls) {
      RoundTrip(json, calls);
    }
    assert text[0..] == text;
    CleanIsNeeded(json, text, 0, 0, calls, calls);
  }

  /** A call comes back from its printed block exactly when its line is clean, provided only that
      the JSON library decodes the line to the call, and no proper part of it. */
  lemma ParsedExactlyWhenClean<A>(json: Json<A>, call: Call<A>)
    requires call.name != "" && json.decodeCall(PrintedCall(json, call)) == Some(call)
    requires OnlyWhole(json, PrintedCall(json, call), call)
    ensures ParseFrom(json, Block(PrintedCall(json, call)), 0) == [call] <==> Clean(PrintedCall(json, call))
    ensures call in ParseFrom(json, Block(PrintedCall(json, call)), 0) <==> Clean(PrintedCall(json, call))
  {
    hide ParseFrom, Clean, PrintedCall, Block;
    var text := Block(PrintedCall(json, call));
    assert text[0..|text|] == text;
    assert NoPartIsOf(json, PrintedCall(json, call), [call]);
    var own, after := OneBlock(json, text, 0, 0, call, [call]);
    NothingMore(json, text, after);
    assert own + [] == own && call in [call];
  }

  lemma NothingMore<A>(json: Json<A>, text: string, pos: nat)
    requires pos <= |text| && NoStart(text, pos, |text|)
    ensures ParseFrom(json, text, pos) == []
  {
    NextSpanIsFirst(text, pos);
  }

  /** Section 7 of RFC 8259 allows a brace inside a string. A line whose argument text closes a
      brace it has not opened is cut early. */
  lemma UnopenedBraceCutsTheLine(name: string, before: string, after: string)
    requires '{' !in name && '}' !in name && '{' !in before && '}' !in before
    ensures var line := CallText(name, before + "}" + after);
            var n := NextSpan(Block(line), 0);
            n.Some? && BlockOf(Block(line)[n.value.contentStart..n.value.end]) != Some(line)
  {
    var head, mid := "\"name\": \"", "\", \"arguments\": ";
    var inner, rest := head + name + mid + before, after + "}";
    var line := CallText(name, before + "}" + after);
    assert line == "{" + inner + "}" + rest;
    ClosesEarly(inner, rest);
    FirstBlockIsLineExactlyWhenClean(line);
  }

  lemma ClosesEarly(inner: string, rest: string)
    requires '{' !in inner && '}' !in inner && rest != ""
    ensures !SelfBalanced("{" + inner + "}" + rest)
  {
    var line := "{" + inner + "}" + rest;
    var k := |inner| + 2;
    BracelessIsBalanced(inner);
    WrappedIsSelfBalanced(inner);
    assert line[..k] == "{" + inner + "}";
  }

  /** So the parser never returns a call whose arguments close a brace they have not opened. */
  lemma UnopenedBraceIsLost<A>(json: Json<A>, call: Call<A>, before: string, after: string)
    requires call.name != "" && json.decodeCall(PrintedCall(json, call)) == Some(call)
    requires OnlyWhole(json, PrintedCall(json, call), call)
    requires json.dumps(call.args) == before + "}" + after
    requires '{' !in call.name && '}' !in call.name && '{' !in before && '}' !in before
    ensures call !in ParseFrom(json, Block(PrintedCall(json, call)), 0)
  {
    UnopenedBraceCutsTheLine(call.name, before, after);
    ParsedExactlyWhenClean(json, call);
    hide ParseFrom, CallText, Block, NextSpan, BlockOf, Clean, OnlyWhole;
    PrintedIsBraced(json, call);
    FirstBlockIsLineExactlyWhenClean(PrintedCall(json, call));
  }

  /** The smallest instance: a call whose argument is the JSON string "}". */
  lemma BraceInStringIsLost<A>(json: Json<A>, call: Call<A>)
    requires call.name == "a" && json.dumps(call.args) == "\"" + "}" + "\""
    requires json.decodeCall(PrintedCall(json, call)) == Some(call) && OnlyWhole(json, PrintedCall(json, call), call)
    ensures call !in ParseFrom(json, Block(PrintedCall(json, call)), 0)
  {
    hide ParseFrom, PrintedCall, Block, OnlyWhole;
    UnopenedBraceIsLost(json, call, "\"", "\"");
  }
}
