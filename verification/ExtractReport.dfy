/** The report of `extract_with_diff`, and whether the automatic check after the tool finds the
    artifact it names.

    The search reads a report part by part, since neither tag nor path holds white space. */
module ExtractReport {
  import opened Bytes
  import opened Text
  import opened DiffOracle
  import opened Artifacts

  const TAG := "artifact:"
  const EXT := ".proposed"

  // ---------------------------------------------------------------- the report

  function Decimal(n: nat): string {
    if n < 10 then [(n + '0' as int) as char] else Decimal(n / 10) + [(n % 10 + '0' as int) as char]
  }

  function JoinCommas(names: seq<string>): string {
    if names == [] then ""
    else if |names| == 1 then names[0]
    else names[0] + "," + (" " + JoinCommas(names[1..]))
  }

  function Intro(): string {
    "EXTRACTED" + " " + "(diff-oracle, deterministic):\n  class"
  }

  function Counts(methods: nat, removed: nat): string {
    "with" + " " + (Decimal(methods) + " methods\n  reconstructed " + Decimal(removed) + " lines from")
  }

  /** The text after the artifact's line. */
  function Ending(path: string, target: string, methods: seq<string>): string {
    "  create with: cp" + " " + (path + " " + (target + "\n" + ("Methods:" + " " + JoinCommas(methods))))
  }

  function Report(className: string, methods: seq<string>, diff: string, removed: nat, path: string, target: string): string {
    Intro() + " "
    + (className + " "
       + (Counts(|methods|, removed) + " "
          + (diff + "\n"
             + ("  AST-valid: yes\n " + " " + (TAG + " " + path + "\n" + Ending(path, target, methods))))))
  }

  /** What the tool returns with what it emits. */
  function ReportOf(h: Host, files: Files, args: Args, path: string, text: string): string {
    var className, diff := Arg(args, "class_name"), Arg(args, "diff_path");
    Report(className, h.methods(text, className), diff, |Reconstructed(TextAt(files, h.resolve(diff)))|, path, Arg(args, "target_path"))
  }

  // ---------------------------------------------------------------- where the tag does not occur

  ghost predicate Lacks(s: string, tag: string) {
    forall i :: !MatchAt(s, tag, i)
  }

  lemma MatchedAt(s: string, tag: string, i: int, j: nat)
    requires MatchAt(s, tag, i) && j < |tag|
    ensures s[i + j] == tag[j] && tag[j] in tag
  {
    assert s[i..i + |tag|][j] == tag[j];
  }

  /** A character that is not in the tag separates its occurrences. */
  lemma LacksAcross(a: string, c: char, b: string, tag: string)
    requires c !in tag && tag != "" && Lacks(a, tag) && Lacks(b, tag)
    ensures Lacks(a + [c] + b, tag)
  {
    var s := a + [c] + b;
    forall i ensures !MatchAt(s, tag, i) {
      MatchInParts(a, c, b, tag, i);
    }
  }

  lemma MatchInParts(a: string, c: char, b: string, tag: string, i: int)
    requires c !in tag && tag != ""
    ensures MatchAt(a + [c] + b, tag, i) ==> if i <= |a| then MatchAt(a, tag, i) else MatchAt(b, tag, i - |a| - 1)
  {
    var s := a + [c] + b;
    if MatchAt(s, tag, i) {
      MatchedAt(s, tag, i, if i <= |a| < i + |tag| then |a| - i else 0);
      if i > |a| {
        assert s[i..i + |tag|] == b[i - |a| - 1..i - |a| - 1 + |tag|];
      } else {
        assert s[i..i + |tag|] == a[i..i + |tag|];
      }
    }
  }

  /** The tag ends in "t:". */
  lemma TagEndsInColon(s: string, i: int)
    ensures MatchAt(s, TAG, i) ==> 0 <= i && i + 8 < |s| && s[i + 8] == ':' && s[i + 8 - 1] == 't'
  {
    if MatchAt(s, TAG, i) {
      MatchedAt(s, TAG, i, 8);
      MatchedAt(s, TAG, i, 7);
    }
  }

  lemma LacksByColon(s: string)
    requires forall i :: 0 < i < |s| && s[i] == ':' ==> s[i - 1] != 't'
    ensures Lacks(s, TAG)
  {
    forall i ensures !MatchAt(s, TAG, i) {
      TagEndsInColon(s, i);
    }
  }

  lemma {:induction false} DecimalHasNoColon(n: nat)
    ensures ':' !in Decimal(n)
  {
    if n >= 10 { DecimalHasNoColon(n / 10); }
  }

  /** Underscores only ever hide an occurrence. */
  lemma {:induction false} UnderscoredAt(s: string)
    ensures |Underscored(s)| == |s|
    ensures forall i :: 0 <= i < |s| ==> Underscored(s)[i] == if s[i] == '/' || s[i] == '\\' || s[i] == '.' then '_' else s[i]
  {
    if s != "" { UnderscoredAt(s[1..]); }
  }

  /** The time stamp of a proposal: digits and an underscore. */
  predicate IsStamp(stamp: string) {
    forall i :: 0 <= i < |stamp| ==> '0' <= stamp[i] <= '9' || stamp[i] == '_'
  }

  lemma LiteralsLack(methods: nat, removed: nat)
    ensures Lacks(Intro(), TAG) && Lacks(Counts(methods, removed), TAG)
    ensures Lacks("  AST-valid: yes\n ", TAG) && Lacks("  create with: cp", TAG) && Lacks("Methods:", TAG)
  {
    hide Lacks;
    CountsLack(methods, removed);
    LacksByColon("EXTRACTED");
    LacksByColon("(diff-oracle, deterministic):\n  class");
    LacksAcross("EXTRACTED", ' ', "(diff-oracle, deterministic):\n  class", TAG);
    LacksByColon("  AST-valid: yes\n ");
    LacksByColon("  create with: cp");
    LacksByColon("Methods:");
  }

  lemma CountsLack(methods: nat, removed: nat)
    ensures Lacks(Counts(methods, removed), TAG)
  {
    hide Lacks, Decimal;
    DecimalHasNoColon(methods);
    DecimalHasNoColon(removed);
    assert ':' !in Counts(methods, removed);
    LacksByColon(Counts(methods, removed));
  }

  // ---------------------------------------------------------------- what the check finds

  /** What the search finds in a text. */
  function Found(text: string): Option<string> {
    Search(text, TAG, EXT, 0)
  }

  function First(a: Option<string>, b: Option<string>): Option<string> {
    if a.Some? then a else b
  }

  /** What it finds in the first of several texts that holds anything for it. */
  function FirstFound(texts: seq<string>): Option<string> {
    if texts == [] then None else First(Found(texts[0]), FirstFound(texts[1..]))
  }

  /** The search, one position at a time. */
  lemma SearchStep(text: string, from: nat)
    requires from <= |text|
    ensures Search(text, TAG, EXT, from) ==
            if MatchAt(text, TAG, from) && Captured(text[from + |TAG|..], EXT).Some? then Captured(text[from + |TAG|..], EXT)
            else if from == |text| then None
            else Search(text, TAG, EXT, from + 1)
  {
    hide MatchAt, Captured;
  }

  lemma {:induction false} SearchShift(a: string, b: string, j: nat)
    requires j <= |b|
    ensures Search(a + b, TAG, EXT, |a| + j) == Search(b, TAG, EXT, j)
    decreases |b| - j
  {
    hide Search, Captured, MatchAt;
    SearchStep(a + b, |a| + j);
    SearchStep(b, j);
    MatchInSuffix(a, b, TAG, |a| + j);
    if MatchAt(b, TAG, j) {
      SuffixOfConcat(a, b, j);
    }
    if j < |b| {
      SearchShift(a, b, j + 1);
    }
  }

  lemma SuffixOfConcat(a: string, b: string, j: nat)
    requires MatchAt(b, TAG, j)
    ensures (a + b)[|a| + j + |TAG|..] == b[j + |TAG|..]
  {
  }

  lemma MatchInSuffix(a: string, b: string, tag: string, i: int)
    requires i >= |a|
    ensures MatchAt(a + b, tag, i) <==> MatchAt(b, tag, i - |a|)
  {
    if i + |tag| <= |a + b| {
      assert (a + b)[i..i + |tag|] == b[i - |a|..i - |a| + |tag|];
    }
  }

  lemma MatchInPrefix(a: string, c: char, b: string, i: nat)
    requires IsSpace(c) && i <= |a|
    ensures MatchAt(a + [c] + b, TAG, i) <==> MatchAt(a, TAG, i)
    ensures MatchAt(a, TAG, i) ==> (a + [c] + b)[i + |TAG|..] == a[i + |TAG|..] + [c] + b
  {
    MatchInParts(a, c, b, TAG, i);
    if MatchAt(a, TAG, i) {
      assert (a + [c] + b)[i..i + |TAG|] == a[i..i + |TAG|];
    }
  }

  lemma {:induction false} LStripOfConcat(a: string, b: string)
    ensures LStrip(a + b) == if IsBlank(a) then LStrip(b) else LStrip(a) + b
  {
    if a == "" {
      assert a + b == b;
    } else {
      assert (a + b)[1..] == a[1..] + b && (a + b)[0] == a[0];
      assert a == [a[0]] + a[1..];
      LStripOfConcat(a[1..], b);
    }
  }

  /** A word ends at white space. */
  lemma {:induction false} WordEndsAtSpace(a: string, c: char, b: string)
    requires IsSpace(c)
    ensures WordOf(a + ([c] + b)) == WordOf(a)
  {
    if a == "" {
      assert a + ([c] + b) == [c] + b;
    } else {
      assert (a + ([c] + b))[1..] == a[1..] + ([c] + b);
      WordEndsAtSpace(a[1..], c, b);
    }
  }

  /** What is captured at the start of a text does not depend on what follows after white space,
      unless the text is blank. */
  lemma CapturedOfConcat(a: string, c: char, b: string)
    requires IsSpace(c) && (!IsBlank(a) || Captured(b, EXT) == None)
    ensures Captured(a + [c] + b, EXT) == Captured(a, EXT)
  {
    assert a + [c] + b == a + ([c] + b) == (a + [c]) + b;
    hide WordOf, LStrip;
    if IsBlank(a) {
      assert IsBlank(a + [c]);
      LStripOfConcat(a + [c], b);
    } else {
      LStripOfConcat(a, [c] + b);
      WordEndsAtSpace(LStrip(a), c, b);
    }
  }

  /** The text does not end right after a tag. */
  ghost predicate Closed(a: string) {
    forall i :: MatchAt(a, TAG, i) ==> !IsBlank(a[i + |TAG|..])
  }

  lemma TagFits(a: string, i: int)
    ensures MatchAt(a, TAG, i) ==> 0 <= i && i + |TAG| <= |a|
  {
  }

  lemma {:induction false} SearchInPartsFrom(a: string, c: char, b: string, from: nat)
    requires IsSpace(c) && from <= |a| && (Closed(a) || Captured(b, EXT) == None)
    ensures Search(a + [c] + b, TAG, EXT, from) == First(Search(a, TAG, EXT, from), Found(b))
    decreases |a| - from
  {
    hide Search, Captured, MatchAt;
    var text := a + [c] + b;
    SearchStep(text, from);
    SearchStep(a, from);
    MatchInPrefix(a, c, b, from);
    if MatchAt(a, TAG, from) {
      TagFits(a, from);
      CapturedOfConcat(a[from + |TAG|..], c, b);
    }
    hide Closed;
    if from < |a| {
      SearchInPartsFrom(a, c, b, from + 1);
    } else {
      SearchShift(a + [c], b, 0);
    }
  }

  /** White space separates what the search sees: a text joined from two parts is read part by
      part, if the first one does not end in a tag or the second starts with a harmless word. */
  lemma SearchInParts(a: string, c: char, b: string)
    requires IsSpace(c) && (Closed(a) || Captured(b, EXT) == None)
    ensures Found(a + [c] + b) == First(Found(a), Found(b))
  {
    hide Search;
    SearchInPartsFrom(a, c, b, 0);
  }

  lemma SkipsLiteral(a: string, c: char, b: string)
    requires IsSpace(c) && Lacks(a, TAG)
    ensures Found(a + [c] + b) == Found(b)
  {
    SearchLacks(a, EXT, 0);
    hide Search, MatchAt;
    SearchInParts(a, c, b);
  }

  /** A first word without a dot is harmless. */
  lemma HarmlessWord(blank: string, word: string, c: char, rest: string)
    requires IsBlank(blank) && word != "" && NoSpace(word) && '.' !in word && IsSpace(c)
    ensures Captured(blank + (word + [c] + rest), EXT) == None
  {
    hide LStrip, WordOf, LastMatch, IsSpace;
    LStripOfConcat(blank, word + [c] + rest);
    LStripOfConcat(word, [c] + rest);
    ConcatAssociative(word, [c], rest);
    StripOfWord(word);
    WordEndsAtSpace(word, c, rest);
    WordOfWord(word);
    NoDotNoMatch(word, |word|);
  }

  lemma StripOfWord(word: string)
    requires NoSpace(word) && word != ""
    ensures LStrip(word) == word && !IsBlank(word)
  {
  }

  lemma WordOfWord(word: string)
    requires NoSpace(word)
    ensures WordOf(word) == word
  {
    RunStopsAtSpace(word, "");
    assert word + "" == word;
  }

  lemma HarmlessWords(methods: nat, removed: nat, rest: string)
    ensures Captured(Counts(methods, removed) + " " + rest, EXT) == None
    ensures Captured("  AST-valid: yes\n " + " " + rest, EXT) == None
    ensures Captured("  create with: cp" + " " + rest, EXT) == None
    ensures Captured("Methods:" + " " + rest, EXT) == None
  {
    hide Captured, Counts;
    HarmlessCounts(methods, removed, rest);
    HarmlessAst(rest);
    HarmlessCreate(rest);
    HarmlessMethods(rest);
  }

  lemma HarmlessAst(rest: string)
    ensures Captured("  AST-valid: yes\n " + " " + rest, EXT) == None
  {
    hide Captured;
    HarmlessLiteral("  ", "AST-valid:", "yes\n ", rest);
    assert "  " + "AST-valid:" + " " + "yes\n " == "  AST-valid: yes\n ";
  }

  lemma HarmlessCreate(rest: string)
    ensures Captured("  create with: cp" + " " + rest, EXT) == None
  {
    hide Captured;
    HarmlessLiteral("  ", "create", "with: cp", rest);
    assert "  " + "create" + " " + "with: cp" == "  create with: cp";
  }

  lemma HarmlessMethods(rest: string)
    ensures Captured("Methods:" + " " + rest, EXT) == None
  {
    hide Captured;
    HarmlessWord("", "Methods:", ' ', rest);
    assert "" + ("Methods:" + [' '] + rest) == "Methods:" + " " + rest;
  }

  lemma HarmlessCounts(methods: nat, removed: nat, rest: string)
    ensures Captured(Counts(methods, removed) + " " + rest, EXT) == None
  {
    hide Captured, Decimal;
    HarmlessLiteral("", "with", Decimal(methods) + " methods\n  reconstructed " + Decimal(removed) + " lines from", rest);
    assert "" + "with" == "with";
  }

  lemma HarmlessLiteral(blank: string, word: string, more: string, rest: string)
    requires IsBlank(blank) && word != "" && NoSpace(word) && '.' !in word
    ensures Captured(blank + word + " " + more + " " + rest, EXT) == None
  {
    hide Captured, IsBlank, NoSpace;
    HarmlessWord(blank, word, ' ', more + " " + rest);
    ConcatAssociative(blank, word, " ");
    ConcatAssociative(blank + word + " ", more + " ", rest);
    ConcatAssociative(blank + word + " ", more, " ");
    ConcatAssociative(blank, word + " ", more + " " + rest);
  }

  lemma PathIsClosed(path: string)
    requires EndsWith(path, EXT)
    ensures Closed(path)
  {
    var n := |path| - |EXT|;
    assert path[n..] == EXT && path[|path| - 1] == path[n..][|EXT| - 1] == 'd';
    forall i | MatchAt(path, TAG, i) ensures !IsBlank(path[i + |TAG|..]) {
      var rest := path[i + |TAG|..];
      if i + |TAG| == |path| {
        MatchedAt(path, TAG, i, 8);
      } else {
        assert rest[|rest| - 1] == 'd';
      }
    }
  }

  /** The parts of a report that the search reads, in order. */
  function Parts(className: string, methods: seq<string>, diff: string, path: string, target: string): seq<string> {
    [className, diff, TAG + " " + path, path, target, JoinCommas(methods)]
  }

  lemma FirstOfMore(a: string, rest: seq<string>)
    ensures FirstFound([a] + rest) == First(Found(a), FirstFound(rest))
  {
    hide Found;
    assert ([a] + rest)[1..] == rest;
  }

  lemma FirstOfTwo(a: string, b: string)
    ensures FirstFound([a, b]) == First(Found(a), Found(b))
  {
    hide Found;
    FirstOfMore(a, [b]);
    FirstOfMore(b, []);
    assert [a] + [b] == [a, b] && [b] + [] == [b];
  }

  lemma FirstOfSix(a: string, b: string, c: string, d: string, e: string, f: string)
    ensures FirstFound([a, b, c, d, e, f])
            == First(Found(a), First(Found(b), First(Found(c), First(Found(d), First(Found(e), Found(f))))))
  {
    hide Found, FirstFound, First;
    FirstOfTwo(e, f);
    FirstOfMore(d, [e, f]);
    FirstOfMore(c, [d, e, f]);
    FirstOfMore(b, [c, d, e, f]);
    FirstOfMore(a, [b, c, d, e, f]);
    assert [d] + [e, f] == [d, e, f] && [c] + [d, e, f] == [c, d, e, f];
    assert [b] + [c, d, e, f] == [b, c, d, e, f] && [a] + [b, c, d, e, f] == [a, b, c, d, e, f];
  }

  lemma EndingIsReadExactly(path: string, target: string, methods: seq<string>)
    requires EndsWith(path, EXT)
    ensures Found(Ending(path, target, methods)) == First(Found(path), First(Found(target), Found(JoinCommas(methods))))
  {
    hide Found, Lacks, Captured, JoinCommas, Closed, EndsWith;
    var names := JoinCommas(methods);
    LiteralsLack(0, 0);
    HarmlessWords(0, 0, names);
    PathIsClosed(path);
    SkipsLiteral("Methods:", ' ', names);
    SearchInParts(target, '\n', "Methods:" + [' '] + names);
    SearchInParts(path, ' ', target + ['\n'] + ("Methods:" + [' '] + names));
    SkipsLiteral("  create with: cp", ' ', path + [' '] + (target + ['\n'] + ("Methods:" + [' '] + names)));
  }

  /** Any report, whatever its class name, paths and method names hold, is read part by part. */
  lemma ReportIsReadExactly(className: string, methods: seq<string>, diff: string, removed: nat, path: string, target: string)
    requires EndsWith(path, EXT)
    ensures Found(Report(className, methods, diff, removed, path, target))
            == FirstFound(Parts(className, methods, diff, path, target))
  {
    hide Found, Lacks, Captured, JoinCommas, Ending, Intro, Counts, EndsWith;
    var count := |methods|;
    LiteralsLack(count, removed);
    EndingIsReadExactly(path, target, methods);
    var ending := Ending(path, target, methods);
    EndingIsHarmless(path, target, methods);
    SearchInParts(TAG + " " + path, '\n', ending);
    var rest := TAG + " " + path + ['\n'] + ending;
    HarmlessWords(count, removed, rest);
    SkipsLiteral("  AST-valid: yes\n ", ' ', rest);
    rest := "  AST-valid: yes\n " + [' '] + rest;
    SearchInParts(diff, '\n', rest);
    rest := diff + ['\n'] + rest;
    HarmlessWords(count, removed, rest);
    SkipsLiteral(Counts(count, removed), ' ', rest);
    rest := Counts(count, removed) + [' '] + rest;
    SearchInParts(className, ' ', rest);
    SkipsLiteral(Intro(), ' ', className + [' '] + rest);
    FirstOfSix(className, diff, TAG + " " + path, path, target, JoinCommas(methods));
  }

  lemma EndingIsHarmless(path: string, target: string, methods: seq<string>)
    ensures Captured(Ending(path, target, methods), EXT) == None
  {
    hide Captured, JoinCommas;
    HarmlessWords(0, 0, path + " " + (target + "\n" + ("Methods:" + " " + JoinCommas(methods))));
  }

  lemma PathSpaces(target: string, stamp: string)
    requires IsStamp(stamp)
    ensures NoSpace(ProposalPath(target, stamp)) <==> NoSpace(target)
    ensures EndsWith(ProposalPath(target, stamp), ".proposed")
    ensures |ProposalPath(target, stamp)| > |target| + |".proposed"|
  {
    var front := "docs/_daemon_proposals/newfile_" + stamp + "_";
    FrontHasNoSpace(stamp);
    UnderscoredSpaces(target);
    hide NoSpace, IsStamp, Underscored;
    SpacesOfConcat(front, Underscored(target));
    SpacesOfConcat(front + Underscored(target), ".proposed");
    assert ProposalPath(target, stamp) == front + Underscored(target) + ".proposed";
  }

  lemma SpacesOfConcat(a: string, b: string)
    ensures NoSpace(a + b) <==> NoSpace(a) && NoSpace(b)
  {
    hide IsSpace;
    if NoSpace(a + b) {
      assert forall i :: 0 <= i < |a| ==> a[i] == (a + b)[i];
      assert forall i :: 0 <= i < |b| ==> b[i] == (a + b)[|a| + i];
    }
  }

  lemma FrontHasNoSpace(stamp: string)
    requires IsStamp(stamp)
    ensures NoSpace("docs/_daemon_proposals/newfile_" + stamp + "_") && NoSpace(".proposed")
  {
    hide NoSpace;
    SpacesOfConcat("docs/_daemon_proposals/newfile_", stamp);
    SpacesOfConcat("docs/_daemon_proposals/newfile_" + stamp, "_");
    LiteralsHaveNoSpace();
    StampHasNoSpace(stamp);
  }

  lemma LiteralsHaveNoSpace()
    ensures NoSpace("docs/_daemon_proposals/newfile_") && NoSpace("_") && NoSpace(".proposed")
  {
  }

  lemma StampHasNoSpace(stamp: string)
    requires IsStamp(stamp)
    ensures NoSpace(stamp)
  {
  }

  lemma UnderscoredSpaces(s: string)
    ensures |Underscored(s)| == |s| && (NoSpace(Underscored(s)) <==> NoSpace(s))
  {
    UnderscoredAt(s);
    hide Underscored;
    if NoSpace(Underscored(s)) {
      assert forall i :: 0 <= i < |s| ==> IsSpace(s[i]) == IsSpace(Underscored(s)[i]);
    }
  }

  /** A word without the extension's dot captures nothing. */
  lemma {:induction false} NoDotNoMatch(word: string, upTo: nat)
    requires '.' !in word
    ensures LastMatch(word, ".proposed", upTo) == None
  {
    if upTo > 0 {
      NoDotNoMatch(word, upTo - 1);
      if MatchAt(word, ".proposed", upTo) {
        MatchedAt(word, ".proposed", upTo, 0);
      }
    }
  }

  /** Where nothing matches, nothing is found. */
  lemma {:induction false} SearchLacks(text: string, ext: string, from: nat)
    requires from <= |text| && forall i :: from <= i ==> !MatchAt(text, TAG, i)
    ensures Search(text, TAG, ext, from) == None
  {
  }

  // ---------------------------------------------------------------- the path it names

  lemma {:induction false} WordHasNoSpace(s: string)
    ensures NoSpace(WordOf(s))
  {
    if s != "" && !IsSpace(s[0]) {
      WordHasNoSpace(s[1..]);
    }
  }

  /** Whatever is found is some text without white space. */
  lemma {:induction false} FoundHasNoSpace(text: string, from: nat)
    requires from <= |text|
    ensures var found := Search(text, TAG, EXT, from); found.Some? ==> NoSpace(found.value) && found.value != ""
    decreases |text| - from
  {
    SearchStep(text, from);
    hide Search, WordOf, LStrip;
    if MatchAt(text, TAG, from) {
      WordHasNoSpace(LStrip(text[from + |TAG|..]));
    }
    if from < |text| {
      FoundHasNoSpace(text, from + 1);
    }
  }

  lemma {:induction false} FirstFoundHasNoSpace(texts: seq<string>)
    ensures FirstFound(texts).Some? ==> NoSpace(FirstFound(texts).value) && FirstFound(texts).value != ""
  {
    hide NoSpace, Search;
    if texts != [] {
      FoundHasNoSpace(texts[0], 0);
      FirstFoundHasNoSpace(texts[1..]);
    }
  }

  /** The artifact's own line names it when its path holds no white space. */
  lemma OwnLineNamesThePath(path: string)
    requires NoSpace(path) && EndsWith(path, EXT) && |path| > |EXT|
    ensures Found(TAG + " " + path) == Some(path)
  {
    hide Search, NoSpace, WordOf, LastMatch, Captured;
    var text := TAG + " " + path;
    SearchStep(text, 0);
    assert text[..|TAG|] == TAG && text[0..0 + |TAG|] == text[..|TAG|];
    assert text[0 + |TAG|..] == " " + path;
    PathIsCaptured(path);
  }

  lemma PathIsCaptured(path: string)
    requires NoSpace(path) && EndsWith(path, EXT) && |path| > |EXT|
    ensures Captured(" " + path, EXT) == Some(path)
  {
    hide NoSpace, WordOf, LastMatch, LStrip;
    StartsUnspaced(path, "");
    assert path + "" == path;
    WordOfWord(path);
    LastMatchIs(path, EXT);
    assert path[..|path|] == path;
  }

  lemma StartsUnspaced(a: string, b: string)
    requires NoSpace(a) && a != ""
    ensures LStrip(" " + (a + b)) == a + b
  {
    assert (" " + (a + b))[1..] == a + b && (a + b)[0] == a[0];
  }

  /** What the automatic check takes for the artifact of an extraction. */
  function Named(h: Host, args: Args, path: string, text: string): string {
    var className, target := Arg(args, "class_name"), Arg(args, "target_path");
    var found := FirstFound(Parts(className, h.methods(text, className), Arg(args, "diff_path"), path, target));
    if found.Some? then found.value else target
  }

  /** Exactly: that is the emitted artifact if and only if the target holds no white space and
      neither the class name nor the diff's path names something else first. */
  lemma NamesTheArtifactExactly(h: Host, args: Args, stamp: string, text: string)
    requires IsStamp(stamp)
    ensures var path := ProposalPath(Arg(args, "target_path"), stamp);
            var before := FirstFound([Arg(args, "class_name"), Arg(args, "diff_path")]);
            Named(h, args, path, text) == path <==> NoSpace(Arg(args, "target_path")) && (before.None? || before == Some(path))
  {
    hide NoSpace, ProposalPath, Found, IsStamp;
    var className, target, diff := Arg(args, "class_name"), Arg(args, "target_path"), Arg(args, "diff_path");
    var path := ProposalPath(target, stamp);
    PathSpaces(target, stamp);
    var names := JoinCommas(h.methods(text, className));
    FirstOfSix(className, diff, TAG + " " + path, path, target, names);
    FirstOfTwo(className, diff);
    if NoSpace(target) {
      OwnLineNamesThePath(path);
    }
    FirstFoundHasNoSpace(Parts(className, h.methods(text, className), diff, path, target));
  }

  lemma ReportIsNoFailure(h: Host, files: Files, args: Args, path: string, text: string)
    ensures var report := ReportOf(h, files, args, path, text);
            report != "" && !IsFailure(report) && |report| > 1 && report[0] == 'E' && report[1] == 'X'
  {
    var className, diff := Arg(args, "class_name"), Arg(args, "diff_path");
    var methods, removed := h.methods(text, className), |Reconstructed(TextAt(files, h.resolve(diff)))|;
    IntroStarts();
    hide Intro, Counts, Ending, Reconstructed, IsFailure;
    var report := ReportOf(h, files, args, path, text);
    assert report[0] == Intro()[0] && report[1] == Intro()[1];
    StartsLikeNoFailure(report);
  }

  lemma StartsLikeNoFailure(report: string)
    requires |report| > 1 && report[0] == 'E' && report[1] == 'X'
    ensures !IsFailure(report)
  {
  }

  lemma IntroStarts()
    ensures |Intro()| > 1 && Intro()[0] == 'E' && Intro()[1] == 'X'
  {
    var word := "EXTRACTED";
    assert word[0] == 'E' && word[1] == 'X';
    assert Intro()[0] == word[0] && Intro()[1] == word[1];
  }

  // ---------------------------------------------------------------- the automatic check

  /** After an honest extraction the check looks at what the report is read to name, and it
      passes the emitted artifact exactly when that is what it looks at. */
  lemma PostCheckPassesExactly(h: Host, files: Files, args: Args, stamp: string, path: string, text: string, later: Files)
    requires ExtractWithDiff(h, files, args, stamp) == Emitted(path, text) && IsStamp(stamp)
    requires h.parse(text).Module? && Arg(args, "class_name") in h.parse(text).classes
    requires h.resolve(path) in later && later[h.resolve(path)] == text && HasRootPrefix(h, path)
    ensures var diff, named := OptionalArg(args, "diff_path"), Named(h, args, path, text);
            var check := RunPostOutputVerification(h, later, "extract_with_diff", args, ReportOf(h, files, args, path, text));
            && (check == Ran(path, diff, true) <==> named == path)
            && check == CheckOf(h, later, args, named)
  {
    hide ExtractWithDiff, VerifyArtifact, IsFailure, Search, HasRootPrefix, ExpectedShape, ProposalPath, IsStamp, NoSpace, Report;
    EmittedPath(h, files, args, stamp, path, text);
    var className, diff, target := Arg(args, "class_name"), Arg(args, "diff_path"), Arg(args, "target_path");
    PathSpaces(target, stamp);
    ReportIsReadExactly(className, h.methods(text, className), diff, |Reconstructed(TextAt(files, h.resolve(diff)))|, path, target);
    ReportIsNoFailure(h, files, args, path, text);
    EmittedIsVerified(h, files, args, stamp, path, text, later);
    FirstFoundHasNoSpace(Parts(className, h.methods(text, className), diff, path, target));
  }

  lemma NamedIsSomething(h: Host, files: Files, args: Args, stamp: string, path: string, text: string)
    requires ExtractWithDiff(h, files, args, stamp) == Emitted(path, text)
    ensures Named(h, args, path, text) != ""
  {
    hide ExtractWithDiff, FirstFound;
    EmittedPath(h, files, args, stamp, path, text);
    FirstFoundHasNoSpace(Parts(Arg(args, "class_name"), h.methods(text, Arg(args, "class_name")), Arg(args, "diff_path"), path, Arg(args, "target_path")));
  }

  /** The check of a named artifact. */
  function CheckOf(h: Host, files: Files, args: Args, named: string): (check: PostCheck)
    ensures !check.NotRun?
  {
    var diff := OptionalArg(args, "diff_path");
    if !HasRootPrefix(h, named) then Ran(named, diff, false)
    else match VerifyArtifact(h, files, h.resolve(named), ExpectedShape(ToolExtract, args, named))
      case Verified => Ran(named, diff, true)
      case Fabricated => Ran(named, diff, false)
      case VerifierRaised => CheckFault
  }

  lemma EmittedPath(h: Host, files: Files, args: Args, stamp: string, path: string, text: string)
    requires ExtractWithDiff(h, files, args, stamp) == Emitted(path, text)
    ensures path == ProposalPath(Arg(args, "target_path"), stamp) && path != "" && Arg(args, "target_path") != ""
  {
    hide BuildMixinModule;
  }

  /** A target with white space, in a report that reads like any other one. */
  lemma SpacedTarget()
    ensures !NoSpace("a b.py") && Found("a b.py") == None
  {
    assert IsSpace("a b.py"[1]);
  }

  /** A diff whose path imitates the tag names a file of its own. */
  lemma ImitatingDiff()
    ensures Found(TAG + " " + "x.proposed") == Some("x.proposed")
  {
    var path := "x.proposed";
    assert path[1..] == EXT && NoSpace(path);
    OwnLineNamesThePath(path);
  }
}
