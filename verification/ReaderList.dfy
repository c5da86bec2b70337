/** The list of readers a bus message carries: stored as JSON text, tested with SQL LIKE. */
module ReaderList {
  import opened Bytes

  // ---------------------------------------------------------------- SQL LIKE

  /** LIKE ignores the case of ASCII letters. */
  function Fold(c: char): char {
    if 'A' <= c <= 'Z' then (c as int + 32) as char else c
  }

  /** Two characters are alike when they are equal, or the two cases of one ASCII letter. */
  lemma FoldedAlikeExactly(x: char, y: char)
    ensures Fold(x) == Fold(y) <==>
              || x == y
              || ('A' <= x <= 'Z' && y as int == x as int + 32)
              || ('A' <= y <= 'Z' && x as int == y as int + 32)
  {
  }

  /** `text LIKE pattern`: % matches any run, _ any one character. */
  predicate Like(pattern: string, text: string)
    decreases |pattern| + |text|
  {
    if pattern == "" then text == ""
    else if pattern[0] == '%' then Like(pattern[1..], text) || (text != "" && Like(pattern, text[1..]))
    else text != "" && (pattern[0] == '_' || Fold(pattern[0]) == Fold(text[0])) && Like(pattern[1..], text[1..])
  }

  // ---------------------------------------------------------------- the stored list

  /** Printable ASCII: all that `json.dumps` leaves as it is, but for quote and backslash. */
  predicate Printable(c: char) {
    ' ' <= c <= '~'
  }

  function HexFour(n: nat): (s: string)
    requires n < 0x1_0000
    ensures |s| == 4
  {
    [HexDigit(n / 0x1000), HexDigit(n / 0x100 % 16), HexDigit(n / 16 % 16), HexDigit(n % 16)]
  }

  /** One character in a JSON string; beyond U+FFFF as two surrogates. */
  function EscapeChar(c: char): string {
    var n := c as nat;
    if c == '"' then "\\\""
    else if c == '\\' then "\\\\"
    else if Printable(c) then [c]
    else if n == 0x0A then "\\n"
    else if n == 0x0D then "\\r"
    else if n == 0x09 then "\\t"
    else if n == 0x08 then "\\b"
    else if n == 0x0C then "\\f"
    else if n < 0x1_0000 then "\\u" + HexFour(n)
    else "\\u" + HexFour(0xD800 + (n - 0x1_0000) / 0x400 % 0x400) + "\\u" + HexFour(0xDC00 + (n - 0x1_0000) % 0x400)
  }

  function Escape(s: string): string {
    if s == "" then "" else EscapeChar(s[0]) + Escape(s[1..])
  }

  predicate AllPrintable(s: string) {
    forall c :: c in s ==> Printable(c)
  }

  /** Stored exactly as it is. */
  predicate Unescaped(s: string) {
    AllPrintable(s) && '"' !in s && '\\' !in s
  }

  lemma {:induction false} EscapeOfUnescaped(s: string)
    requires Unescaped(s)
    ensures Escape(s) == s
  {
    hide EscapeChar, Printable;
    if s != "" {
      assert s[0] in s && forall c :: c in s[1..] ==> c in s;
      EscapeOfUnescaped(s[1..]);
      EscapeCharKeeps(s[0]);
    }
  }

  lemma EscapeCharKeeps(c: char)
    requires Printable(c) && c != '"' && c != '\\'
    ensures EscapeChar(c) == [c]
  {
  }

  lemma HexDigitIsPrintable(d: int)
    requires 0 <= d < 16
    ensures Printable(HexDigit(d))
  {
  }

  lemma HexFourIsPrintable(n: nat)
    requires n < 0x1_0000
    ensures AllPrintable(HexFour(n))
  {
    hide HexDigit, Printable;
    HexDigitIsPrintable(n / 0x1000);
    HexDigitIsPrintable(n / 0x100 % 16);
    HexDigitIsPrintable(n / 16 % 16);
    HexDigitIsPrintable(n % 16);
  }

  lemma EscapeCharIsPrintable(c: char)
    ensures AllPrintable(EscapeChar(c))
  {
    hide HexFour;
    var n := c as nat;
    if n < 0x1_0000 {
      HexFourIsPrintable(n);
    } else {
      HexFourIsPrintable(0xD800 + (n - 0x1_0000) / 0x400 % 0x400);
      HexFourIsPrintable(0xDC00 + (n - 0x1_0000) % 0x400);
    }
  }

  lemma {:induction false} EscapeIsPrintable(s: string)
    ensures AllPrintable(Escape(s))
  {
    hide EscapeChar;
    if s != "" {
      EscapeCharIsPrintable(s[0]);
      EscapeIsPrintable(s[1..]);
    }
  }

  /** The stored list as JSON text: `["a","b"]`. */
  function ListText(ids: seq<string>): string {
    "[" + Items(ids) + "]"
  }

  function Items(ids: seq<string>): string {
    if ids == [] then ""
    else if |ids| == 1 then "\"" + Escape(ids[0]) + "\""
    else "\"" + Escape(ids[0]) + "\"" + "," + Items(ids[1..])
  }

  /** The query's test that an agent already read a row. */
  predicate Hides(readBy: seq<string>, agent: string) {
    Like("%" + agent + "%", ListText(readBy))
  }

  lemma {:induction false} PercentMatchesAll(text: string)
    ensures Like("%", text)
  {
    if text != "" { PercentMatchesAll(text[1..]); }
  }

  lemma {:induction false} PercentSkips(pattern: string, skipped: string, text: string)
    requires Like("%" + pattern, text)
    ensures Like("%" + pattern, skipped + text)
  {
    if skipped == "" {
      assert skipped + text == text;
    } else {
      PercentSkips(pattern, skipped[1..], text);
      assert (skipped + text)[1..] == skipped[1..] + text;
    }
  }

  /** The text holds the id at `i`, up to the case of ASCII letters. */
  predicate FoldMatchAt(text: string, id: string, i: int) {
    0 <= i && i + |id| <= |text| && forall j :: 0 <= j < |id| ==> Fold(text[i + j]) == Fold(id[j])
  }

  predicate FoldContains(text: string, id: string) {
    exists i :: 0 <= i <= |text| && FoldMatchAt(text, id, i)
  }

  lemma {:induction false} FoldPrefixIsLike(id: string, text: string)
    requires FoldMatchAt(text, id, 0)
    ensures Like(id + "%", text)
  {
    if id == "" {
      assert id + "%" == "%";
      PercentMatchesAll(text);
    } else {
      assert forall j :: 0 <= j < |id| ==> Fold(text[0 + j]) == Fold(id[j]);
      forall j | 0 <= j < |id[1..]| ensures Fold(text[1..][0 + j]) == Fold(id[1..][j]) {
        assert Fold(text[0 + (j + 1)]) == Fold(id[j + 1]);
      }
      assert Fold(text[0 + 0]) == Fold(id[0]);
      FoldPrefixIsLike(id[1..], text[1..]);
      var p := id + "%";
      assert p[0] == id[0] && p[1..] == id[1..] + "%";
      if id[0] == '%' {
        assert Like(p, text[1..]);
      }
    }
  }

  /** Whatever occurs in a text is found there by LIKE, wildcards in it or not. */
  lemma ContainedIsLike(text: string, id: string)
    requires FoldContains(text, id)
    ensures Like("%" + id + "%", text)
  {
    var i :| 0 <= i <= |text| && FoldMatchAt(text, id, i);
    forall j | 0 <= j < |id| ensures Fold(text[i..][0 + j]) == Fold(id[j]) {
      assert text[i..][j] == text[i + j];
    }
    FoldPrefixIsLike(id, text[i..]);
    var p := "%" + (id + "%");
    assert p[1..] == id + "%";
    assert Like(p, text[i..]);
    PercentSkips(id + "%", text[..i], text[i..]);
    assert "%" + id + "%" == p && text[..i] + text[i..] == text;
  }

  lemma ContainsMore(before: string, text: string, after: string, id: string)
    requires FoldContains(text, id)
    ensures FoldContains(before + text + after, id)
  {
    var i :| 0 <= i <= |text| && FoldMatchAt(text, id, i);
    var all := before + text + after;
    forall j | 0 <= j < |id| ensures Fold(all[|before| + i + j]) == Fold(id[j]) {
      assert all[|before| + i + j] == text[i + j];
    }
    assert FoldMatchAt(all, id, |before| + i);
  }

  lemma {:induction false} ItemsContain(ids: seq<string>, k: nat) returns (before: string, after: string)
    requires k < |ids|
    ensures Items(ids) == before + Escape(ids[k]) + after
  {
    hide Escape;
    if k == 0 {
      before := "\"";
      after := if |ids| == 1 then "\"" else "\"" + "," + Items(ids[1..]);
      assert Items(ids) == before + Escape(ids[k]) + after;
    } else {
      before, after := ItemsContain(ids[1..], k - 1);
      before := "\"" + Escape(ids[0]) + "\"" + "," + before;
      assert Items(ids) == before + Escape(ids[k]) + after;
    }
  }

  /** An id that occurs in the stored text of any entry counts as a reader. */
  lemma ContainedIsHidden(ids: seq<string>, k: nat, agent: string)
    requires k < |ids| && FoldContains(Escape(ids[k]), agent)
    ensures Hides(ids, agent)
  {
    hide Escape, FoldContains, Like, Items;
    var before, after := ItemsContain(ids, k);
    ContainsMore("[" + before, Escape(ids[k]), after + "]", agent);
    assert ListText(ids) == "[" + before + Escape(ids[k]) + (after + "]");
    ContainedIsLike(ListText(ids), agent);
  }

  /** An id that occurs in a listed id, ignoring case, counts as a reader itself. */
  lemma SubstringIsHidden(ids: seq<string>, longer: string, agent: string)
    requires longer in ids && FoldContains(longer, agent) && Unescaped(agent)
    ensures Hides(ids, agent)
  {
    hide Escape, Hides, Unescaped;
    var k :| 0 <= k < |ids| && ids[k] == longer;
    var i :| 0 <= i <= |longer| && FoldMatchAt(longer, agent, i);
    var before, middle, after := longer[..i], longer[i..i + |agent|], longer[i + |agent|..];
    assert forall j :: 0 <= j < |agent| ==> Fold(longer[i + j]) == Fold(agent[j]);
    FoldedIsUnescaped(middle, agent);
    EscapeOfUnescaped(middle);
    EscapeConcat(before + middle, after);
    EscapeConcat(before, middle);
    assert before + middle + after == longer;
    assert FoldMatchAt(middle, agent, 0);
    ContainsMore(Escape(before), middle, Escape(after), agent);
    ContainedIsHidden(ids, k, agent);
  }

  lemma FoldedIsUnescaped(text: string, id: string)
    requires Unescaped(id) && |text| == |id| && forall j :: 0 <= j < |id| ==> Fold(text[j]) == Fold(id[j])
    ensures Unescaped(text)
  {
    forall c | c in text ensures Printable(c) && c != '"' && c != '\\' {
      var j :| 0 <= j < |text| && text[j] == c;
      assert Fold(text[j]) == Fold(id[j]) && id[j] in id;
    }
  }

  lemma {:induction false} EscapeConcat(a: string, b: string)
    ensures Escape(a + b) == Escape(a) + Escape(b)
  {
    hide EscapeChar;
    if a == "" {
      assert a + b == b;
    } else {
      assert (a + b)[1..] == a[1..] + b;
      EscapeConcat(a[1..], b);
    }
  }

  /** A listed reader whose id is stored as it is, is recognised, wildcards in it or not. */
  lemma ListedIsHidden(ids: seq<string>, agent: string)
    requires agent in ids && Unescaped(agent)
    ensures Hides(ids, agent)
  {
    hide Hides, Unescaped;
    assert FoldMatchAt(agent, agent, 0);
    SubstringIsHidden(ids, agent, agent);
  }

  // ---------------------------------------------------------------- ids that are never recognised

  /** A pattern needs each of its own characters in the text. */
  lemma {:induction false} LikeNeedsCharacter(pattern: string, text: string, c: char) returns (k: nat)
    requires Like(pattern, text) && c in pattern && c != '%' && c != '_'
    ensures k < |text| && Fold(text[k]) == Fold(c)
    decreases |pattern| + |text|
  {
    if pattern[0] == '%' {
      if Like(pattern[1..], text) {
        assert c in pattern[1..];
        k := LikeNeedsCharacter(pattern[1..], text, c);
      } else {
        k := LikeNeedsCharacter(pattern, text[1..], c);
        k := k + 1;
      }
    } else if pattern[0] == c {
      k := 0;
    } else {
      assert c in pattern[1..];
      k := LikeNeedsCharacter(pattern[1..], text[1..], c);
      k := k + 1;
    }
  }

  lemma {:induction false} ItemsArePrintable(ids: seq<string>)
    ensures AllPrintable(Items(ids))
  {
    hide Escape;
    if ids != [] {
      EscapeIsPrintable(ids[0]);
      ItemsArePrintable(ids[1..]);
    }
  }

  /** The stored list is printable ASCII throughout, so an id that holds anything else is never
      recognised, listed or not. */
  lemma UnprintableIsNeverHidden(ids: seq<string>, agent: string)
    requires !AllPrintable(agent) && '\0' !in agent
    ensures !Hides(ids, agent)
  {
    HiddenIsPrintable(ids, agent);
  }

  lemma HiddenIsPrintable(ids: seq<string>, agent: string)
    ensures Hides(ids, agent) ==> AllPrintable(agent)
  {
    var pattern, text := "%" + agent + "%", ListText(ids);
    ItemsArePrintable(ids);
    hide Items, Like;
    assert AllPrintable(text);
    if Like(pattern, text) {
      forall c | c in agent ensures Printable(c) {
        if c != '%' && c != '_' {
          assert c in pattern;
          var k := LikeNeedsCharacter(pattern, text, c);
          assert text[k] in text;
        }
      }
    }
  }

  /** Exactly: among ids without quotes and backslashes (and NUL, which ends an SQL text), a listed
      reader is recognised if and only if every character of its id is printable ASCII. */
  lemma ListedIsHiddenExactly(ids: seq<string>, agent: string)
    requires agent in ids && '"' !in agent && '\\' !in agent && '\0' !in agent
    ensures Hides(ids, agent) <==> AllPrintable(agent)
  {
    if AllPrintable(agent) {
      ListedIsHidden(ids, agent);
    } else {
      UnprintableIsNeverHidden(ids, agent);
    }
  }

  /** The smallest instance. */
  lemma AccentIsNeverHidden()
    ensures !Hides(["\U{00E9}"], "\U{00E9}")
  {
    var id := "\U{00E9}";
    assert id[0] in id && !Printable(id[0]);
    UnprintableIsNeverHidden([id], id);
  }

  /** A quote inside an id is stored with a backslash before it, where the raw id finds none. */
  lemma InnerQuoteIsNeverHidden()
    ensures !Hides(["a\"b"], "a\"b")
  {
    var id := "a\"b";
    var text := "[\"a\\\"b\"]";
    assert id[0] == 'a' && id[1] == '"' && id[2] == 'b';
    assert Escape(id[2..]) == "b" && Escape(id[1..]) == "\\\"b" && Escape(id) == "a\\\"b" by {
      assert id[2..] == "b" && id[1..][1..] == "b" && id[1..][0] == '"' && "b"[1..] == "";
      assert Escape("b") == "b";
    }
    assert ListText([id]) == text;
    forall i ensures !FoldMatchAt(text, id, i) {
      FirstTwoMatch(text, id, i);
    }
    if Hides([id], id) {
      LikeMeansContains(id, text);
    }
  }

  lemma FirstTwoMatch(text: string, id: string, i: int)
    requires |id| >= 2
    ensures FoldMatchAt(text, id, i) ==>
              0 <= i < |text| - 1 && Fold(text[i]) == Fold(id[0]) && Fold(text[i + 1]) == Fold(id[1])
  {
    if FoldMatchAt(text, id, i) {
      assert Fold(text[i + 0]) == Fold(id[0]) && Fold(text[i + 1]) == Fold(id[1]);
    }
  }

  // ---------------------------------------------------------------- when LIKE means membership

  /** Printable ids without wildcards and without the characters JSON uses around them. */
  predicate Plain(id: string) {
    id != "" && forall c :: c in id ==> Printable(c) && c !in {'%', '_', '"', ',', '[', ']', '\\'}
  }

  /** No reader's id occurs inside another reader's id, ignoring case. */
  ghost predicate SubstringFree(ids: set<string>) {
    (forall a :: a in ids ==> Plain(a)) && forall a, b :: a in ids && b in ids && FoldContains(b, a) ==> a == b
  }

  lemma {:induction false} LikePrefix(id: string, text: string)
    requires Like(id + "%", text)
    requires forall c :: c in id ==> c != '%' && c != '_'
    ensures FoldMatchAt(text, id, 0)
  {
    if id != "" {
      var p := id + "%";
      assert p[0] == id[0] && p[1..] == id[1..] + "%";
      assert id[0] in id && forall c :: c in id[1..] ==> c in id;
      LikePrefix(id[1..], text[1..]);
      forall j | 0 <= j < |id| ensures Fold(text[0 + j]) == Fold(id[j]) {
        if j > 0 {
          assert FoldMatchAt(text[1..], id[1..], 0);
          assert Fold(text[1..][0 + (j - 1)]) == Fold(id[1..][j - 1]);
        }
      }
    }
  }

  lemma {:induction false} LikeMeansContains(id: string, text: string)
    requires Like("%" + id + "%", text)
    requires forall c :: c in id ==> c != '%' && c != '_'
    ensures FoldContains(text, id)
    decreases |text|
  {
    var p := "%" + id + "%";
    assert p[1..] == id + "%";
    if Like(p[1..], text) {
      LikePrefix(id, text);
      assert FoldMatchAt(text, id, 0);
    } else {
      LikeMeansContains(id, text[1..]);
      var i :| 0 <= i <= |text[1..]| && FoldMatchAt(text[1..], id, i);
      forall j | 0 <= j < |id| ensures Fold(text[i + 1 + j]) == Fold(id[j]) {
        assert Fold(text[1..][i + j]) == Fold(id[j]);
      }
      assert FoldMatchAt(text, id, i + 1);
    }
  }

  /** A plain id that occurs in a + c + b, where c is one of JSON's own characters, occurs
      in a or in b. */
  lemma ContainsAcross(a: string, c: char, b: string, id: string)
    requires Plain(id) && c in {'"', ',', '[', ']'}
    requires FoldContains(a + [c] + b, id)
    ensures FoldContains(a, id) || FoldContains(b, id)
  {
    var text := a + [c] + b;
    var i :| 0 <= i <= |text| && FoldMatchAt(text, id, i);
    var across := if i <= |a| < i + |id| then |a| - i else 0;
    assert id != "" ==> Fold(text[i + across]) == Fold(id[across]) && id[across] in id;
    if i + |id| <= |a| {
      forall j | 0 <= j < |id| ensures Fold(a[i + j]) == Fold(id[j]) {
        assert text[i + j] == a[i + j];
      }
      assert FoldMatchAt(a, id, i);
    } else if i > |a| {
      var k := i - |a| - 1;
      forall j | 0 <= j < |id| ensures Fold(b[k + j]) == Fold(id[j]) {
        assert text[i + j] == b[k + j];
      }
      assert FoldMatchAt(b, id, k);
    }
  }

  lemma {:induction false} ContainedInItems(ids: seq<string>, id: string)
    requires Plain(id) && FoldContains(Items(ids), id)
    ensures exists k :: 0 <= k < |ids| && FoldContains(Escape(ids[k]), id)
  {
    hide Escape;
    if ids != [] {
      var first := Escape(ids[0]);
      var tail := if |ids| == 1 then "" else "," + Items(ids[1..]);
      assert Items(ids) == "" + ['"'] + (first + "\"" + tail);
      ContainsAcross("", '"', first + "\"" + tail, id);
      assert first + "\"" + tail == first + ['"'] + tail;
      ContainsAcross(first, '"', tail, id);
      if !FoldContains(first, id) {
        assert |ids| > 1;
        assert tail == "" + [','] + Items(ids[1..]);
        ContainsAcross("", ',', Items(ids[1..]), id);
        ContainedInItems(ids[1..], id);
        var k :| 0 <= k < |ids[1..]| && FoldContains(Escape(ids[1..][k]), id);
        assert ids[k + 1] == ids[1..][k];
      }
    }
  }

  lemma PlainIsUnescaped(id: string)
    requires Plain(id)
    ensures Unescaped(id)
  {
    hide Printable;
  }

  /** Among substring-free ids the LIKE test is exactly membership. */
  lemma HidesIsMembership(all: set<string>, readBy: seq<string>, agent: string)
    requires SubstringFree(all) && agent in all && forall id :: id in readBy ==> id in all
    ensures Hides(readBy, agent) <==> agent in readBy
  {
    hide Hides, Plain, FoldContains, Escape, Unescaped;
    PlainIsUnescaped(agent);
    if agent in readBy {
      ListedIsHidden(readBy, agent);
    }
    if Hides(readBy, agent) {
      HiddenIsContained(readBy, agent);
      var k :| 0 <= k < |readBy| && FoldContains(Escape(readBy[k]), agent);
      assert readBy[k] in all;
      PlainIsUnescaped(readBy[k]);
      EscapeOfUnescaped(readBy[k]);
    }
  }

  lemma HiddenIsContained(readBy: seq<string>, agent: string)
    requires Plain(agent) && Hides(readBy, agent)
    ensures exists k :: 0 <= k < |readBy| && FoldContains(Escape(readBy[k]), agent)
  {
    LikeMeansContains(agent, ListText(readBy));
    assert ListText(readBy) == "" + ['['] + (Items(readBy) + "]");
    ContainsAcross("", '[', Items(readBy) + "]", agent);
    assert Items(readBy) + "]" == Items(readBy) + [']'] + "";
    ContainsAcross(Items(readBy), ']', "", agent);
    ContainedInItems(readBy, agent);
  }

  /** Exactly: a plain id counts as a reader if and only if it occurs, ignoring case, in the
      stored text of some entry. */
  lemma HiddenExactly(ids: seq<string>, agent: string)
    requires Plain(agent)
    ensures Hides(ids, agent) <==> exists k :: 0 <= k < |ids| && FoldContains(Escape(ids[k]), agent)
  {
    hide Hides, Plain, FoldContains, Escape;
    if Hides(ids, agent) {
      HiddenIsContained(ids, agent);
    }
    if k :| 0 <= k < |ids| && FoldContains(Escape(ids[k]), agent) {
      ContainedIsHidden(ids, k, agent);
    }
  }
}
