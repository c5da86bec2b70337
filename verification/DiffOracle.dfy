/** The diff oracle: the lines a removal diff takes out, and what it makes of a unified diff. */
module DiffOracle {
  import opened Text
  import Bytes

  // ---------------------------------------------------------------- reconstruction

  predicate IsHeading(line: string) {
    StartsWith(line, "---") || StartsWith(line, "+++") || StartsWith(line, "@@")
  }

  /** What one line of a diff contributes. */
  function Kept(line: string): seq<string> {
    if !IsHeading(line) && StartsWith(line, "-") then [line[1..]] else []
  }

  function KeptOf(lines: seq<string>): seq<string> {
    if lines == [] then [] else KeptOf(lines[..|lines| - 1]) + Kept(lines[|lines| - 1])
  }

  function TrimFront(lines: seq<string>): (r: seq<string>)
    ensures |r| <= |lines| && (r != [] ==> !IsBlank(r[0]))
  {
    if lines != [] && IsBlank(lines[0]) then TrimFront(lines[1..]) else lines
  }

  function TrimBack(lines: seq<string>): (r: seq<string>)
    ensures |r| <= |lines| && (r != [] ==> !IsBlank(r[|r| - 1]))
  {
    if lines != [] && IsBlank(lines[|lines| - 1]) then TrimBack(lines[..|lines| - 1]) else lines
  }

  function Trim(lines: seq<string>): seq<string> {
    TrimBack(TrimFront(lines))
  }

  function Reconstructed(diff: string): seq<string> {
    Trim(KeptOf(SplitLines(diff)))
  }

  method ReconstructFromRemovalDiff(diff: string) returns (removed: seq<string>)
    ensures removed == Reconstructed(diff)
  {
    removed := [];
    var lines := SplitLines(diff);
    for i := 0 to |lines|
      invariant removed == KeptOf(lines[..i])
    {
      assert lines[..i + 1][..i] == lines[..i];
      var line := lines[i];
      if StartsWith(line, "---") || StartsWith(line, "+++") || StartsWith(line, "@@") {
        continue;
      }
      if StartsWith(line, "-") {
        removed := removed + [line[1..]];
      }
    }
    assert lines[..|lines|] == lines;
    while removed != [] && Strip(removed[0]) == ""
      invariant TrimFront(removed) == TrimFront(KeptOf(lines))
      decreases |removed|
    {
      removed := removed[1..];
    }
    while removed != [] && Strip(removed[|removed| - 1]) == ""
      invariant TrimBack(removed) == Trim(KeptOf(lines))
      decreases |removed|
    {
      removed := removed[..|removed| - 1];
    }
  }

  // ---------------------------------------------------------------- what it reconstructs

  predicate AllBlank(lines: seq<string>) {
    forall i :: 0 <= i < |lines| ==> IsBlank(lines[i])
  }

  /** Trimming takes off the blank lines of both ends and nothing else. */
  lemma {:induction false} TrimIsTheMiddle(front: seq<string>, middle: seq<string>, back: seq<string>)
    requires AllBlank(front) && AllBlank(back)
    requires middle != [] ==> !IsBlank(middle[0]) && !IsBlank(middle[|middle| - 1])
    ensures Trim(front + middle + back) == middle
    decreases |front| + |back|
  {
    var all := front + middle + back;
    if front != [] {
      assert all[1..] == front[1..] + middle + back;
      TrimIsTheMiddle(front[1..], middle, back);
    } else if middle == [] {
      assert all == back;
      if back != [] {
        assert [] + [] + back[1..] == back[1..] == all[1..];
        TrimIsTheMiddle([], [], back[1..]);
      }
    } else {
      assert all == middle + back && all[0] == middle[0];
      TrimBackIsTheFront(middle, back);
    }
  }

  lemma {:induction false} TrimBackIsTheFront(middle: seq<string>, back: seq<string>)
    requires AllBlank(back) && middle != [] && !IsBlank(middle[|middle| - 1])
    ensures TrimBack(middle + back) == middle
    decreases |back|
  {
    var all := middle + back;
    if back == [] {
      assert all == middle;
    } else {
      assert all[..|all| - 1] == middle + back[..|back| - 1];
      TrimBackIsTheFront(middle, back[..|back| - 1]);
    }
  }

  function NonBlank(lines: seq<string>): nat {
    if lines == [] then 0
    else NonBlank(lines[..|lines| - 1]) + (if IsBlank(lines[|lines| - 1]) then 0 else 1)
  }

  lemma {:induction false} NonBlankOfConcat(a: seq<string>, b: seq<string>)
    ensures NonBlank(a + b) == NonBlank(a) + NonBlank(b)
  {
    if b == [] {
      assert a + b == a;
    } else {
      assert (a + b)[..|a + b| - 1] == a + b[..|b| - 1];
      NonBlankOfConcat(a, b[..|b| - 1]);
    }
  }

  lemma {:induction false} TrimKeepsNonBlank(lines: seq<string>)
    ensures NonBlank(Trim(lines)) == NonBlank(lines)
  {
    if lines != [] && IsBlank(lines[0]) {
      TrimKeepsNonBlank(lines[1..]);
      NonBlankOfConcat([lines[0]], lines[1..]);
      assert [lines[0]] + lines[1..] == lines;
      assert NonBlank([lines[0]]) == 0;
    } else {
      TrimBackKeepsNonBlank(lines);
    }
  }

  lemma {:induction false} TrimBackKeepsNonBlank(lines: seq<string>)
    ensures NonBlank(TrimBack(lines)) == NonBlank(lines)
  {
    if lines != [] && IsBlank(lines[|lines| - 1]) {
      TrimBackKeepsNonBlank(lines[..|lines| - 1]);
    }
  }

  /** The lines a unified diff is made of. `Note` is any other line: `diff --git`, `index`,
      `\ No newline at end of file`. */
  datatype DiffLine =
    | OldFile(text: string)
    | NewFile(text: string)
    | Hunk(text: string)
    | Context(text: string)
    | Removed(text: string)
    | Added(text: string)
    | Note(text: string)

  function Rendered(d: DiffLine): string {
    match d
    case OldFile(text) => "---" + text
    case NewFile(text) => "+++" + text
    case Hunk(text) => "@@" + text
    case Context(text) => " " + text
    case Removed(text) => "-" + text
    case Added(text) => "+" + text
    case Note(text) => text
  }

  function Render(ds: seq<DiffLine>): string {
    if ds == [] then "" else Render(ds[..|ds| - 1]) + Rendered(ds[|ds| - 1]) + "\n"
  }

  function RemovedLines(ds: seq<DiffLine>): seq<string> {
    if ds == [] then []
    else RemovedLines(ds[..|ds| - 1]) + (if ds[|ds| - 1].Removed? then [ds[|ds| - 1].text] else [])
  }

  predicate AreLines(lines: seq<string>) {
    forall i :: 0 <= i < |lines| ==> IsLine(lines[i])
  }

  lemma {:induction false} KeptAreLines(lines: seq<string>)
    requires AreLines(lines)
    ensures AreLines(KeptOf(lines))
  {
    if lines != [] {
      KeptAreLines(lines[..|lines| - 1]);
    }
  }

  lemma {:induction false} TrimFrontIsSlice(lines: seq<string>)
    ensures TrimFront(lines) == lines[|lines| - |TrimFront(lines)|..]
  {
    if lines != [] && IsBlank(lines[0]) {
      TrimFrontIsSlice(lines[1..]);
    }
  }

  lemma {:induction false} TrimBackIsSlice(lines: seq<string>)
    ensures TrimBack(lines) == lines[..|TrimBack(lines)|]
  {
    if lines != [] && IsBlank(lines[|lines| - 1]) {
      TrimBackIsSlice(lines[..|lines| - 1]);
    }
  }

  lemma {:induction false} TrimmedFrontIsBlank(lines: seq<string>)
    ensures AllBlank(lines[..|lines| - |TrimFront(lines)|])
  {
    if lines != [] && IsBlank(lines[0]) {
      var rest := lines[1..];
      TrimmedFrontIsBlank(rest);
      var k := |rest| - |TrimFront(rest)|;
      forall i | 0 <= i < k + 1 ensures IsBlank(lines[i]) {
        assert i > 0 ==> lines[i] == rest[..k][i - 1];
      }
    }
  }

  lemma {:induction false} TrimmedBackIsBlank(lines: seq<string>)
    ensures AllBlank(lines[|TrimBack(lines)|..])
  {
    if lines != [] && IsBlank(lines[|lines| - 1]) {
      var init := lines[..|lines| - 1];
      TrimmedBackIsBlank(init);
      var k := |TrimBack(init)|;
      forall i | 0 <= i < |lines| - k ensures IsBlank(lines[k..][i]) {
        assert i < |init| - k ==> lines[k + i] == init[k..][i];
      }
    }
  }

  lemma ReconstructedAreLines(diff: string)
    ensures AreLines(Reconstructed(diff))
  {
    SplitLinesAreLines(diff);
    var kept := KeptOf(SplitLines(diff));
    KeptAreLines(SplitLines(diff));
    TrimFrontIsSlice(kept);
    TrimBackIsSlice(TrimFront(kept));
  }

  predicate LooksLikeHeading(d: DiffLine) {
    d.Removed? && StartsWith(d.text, "--")
  }

  /** What one line of the diff contributes, however `splitlines` cuts it. */
  function Contribution(d: DiffLine): seq<string> {
    KeptOf(SplitLines(Rendered(d) + "\n"))
  }

  function Contributed(ds: seq<DiffLine>): seq<string> {
    if ds == [] then [] else Contributed(ds[..|ds| - 1]) + Contribution(ds[|ds| - 1])
  }

  lemma {:induction false} KeptOfConcat(a: seq<string>, b: seq<string>)
    ensures KeptOf(a + b) == KeptOf(a) + KeptOf(b)
  {
    if b == [] {
      assert a + b == a;
    } else {
      assert (a + b)[..|a + b| - 1] == a + b[..|b| - 1];
      KeptOfConcat(a, b[..|b| - 1]);
    }
  }

  lemma KeptOfAppend(lines: seq<string>, line: string)
    ensures KeptOf(lines + [line]) == KeptOf(lines) + Kept(line)
  {
    assert (lines + [line])[..|lines|] == lines;
  }

  lemma SplitLastLine(before: string, line: string)
    requires IsWhole(before) && IsLine(line)
    ensures SplitLines(before + line + "\n") == SplitLines(before) + [line]
  {
    SplitLinesConcat(before, line + "\n");
    SplitLinesStep(line, '\n', "");
    assert before + (line + "\n") == before + line + "\n" && line + ['\n'] + "" == line + "\n";
  }

  lemma NothingKept()
    ensures SplitLines("") == [] && KeptOf([]) == []
  {
  }

  lemma KeptOfMore(before: string, line: string)
    requires IsWhole(before)
    ensures KeptOf(SplitLines(before + line)) == KeptOf(SplitLines(before)) + KeptOf(SplitLines(line))
  {
    hide KeptOf, SplitLines;
    SplitLinesConcat(before, line);
    KeptOfConcat(SplitLines(before), SplitLines(line));
  }

  /** Each line of a diff contributes on its own, whatever stands around it. */
  lemma {:induction false} KeptOfRender(ds: seq<DiffLine>)
    ensures KeptOf(SplitLines(Render(ds))) == Contributed(ds)
  {
    hide KeptOf, SplitLines, Rendered;
    NothingKept();
    if ds != [] {
      var n := |ds| - 1;
      var before, line := Render(ds[..n]), Rendered(ds[n]) + "\n";
      KeptOfRender(ds[..n]);
      KeptOfMore(before, line);
      Bytes.ConcatAssociative(Render(ds[..n]), Rendered(ds[n]), "\n");
    }
  }

  lemma {:induction false} ContributedConcat(a: seq<DiffLine>, b: seq<DiffLine>)
    ensures Contributed(a + b) == Contributed(a) + Contributed(b)
    ensures RemovedLines(a + b) == RemovedLines(a) + RemovedLines(b)
  {
    hide Contribution;
    if b == [] {
      assert a + b == a;
    } else {
      assert (a + b)[..|a + b| - 1] == a + b[..|b| - 1];
      ContributedConcat(a, b[..|b| - 1]);
    }
  }

  /** A line without further breaks is looked at whole. */
  lemma ContributionOfLine(d: DiffLine)
    requires IsLine(Rendered(d))
    ensures Contribution(d) == Kept(Rendered(d))
  {
    hide SplitLines, Kept;
    var line := Rendered(d);
    NothingKept();
    SplitLastLine("", line);
    KeptOfAppend([], line);
    assert "" + line + "\n" == line + "\n" && [] + [line] == [line] && [] + Kept(line) == Kept(line);
  }

  /** A removed line without breaks is kept as it is, unless it reads as a heading. */
  lemma RemovedLineContributes(text: string)
    requires IsLine(text)
    ensures Contribution(Removed(text)) == if StartsWith(text, "--") then [] else [text]
  {
    ContributionOfLine(Removed(text));
    KeptOfDash(text);
  }

  /** Headings, hunk marks, context and added lines without further breaks contribute nothing,
      and neither does any other line that does not start with `-`. */
  lemma PlainLinesContributeNothing(d: DiffLine)
    requires !d.Removed? && IsLine(d.text) && (d.Note? ==> !StartsWith(d.text, "-"))
    ensures Contribution(d) == []
  {
    PlainLine(d);
    ContributionOfLine(d);
  }

  lemma PlainLine(d: DiffLine)
    requires !d.Removed? && (d.Note? ==> !StartsWith(d.text, "-"))
    ensures Kept(Rendered(d)) == [] && (IsLine(d.text) ==> IsLine(Rendered(d)))
  {
    var line := Rendered(d);
    match d
    case OldFile(text) => assert line[..3] == "---";
    case NewFile(text) => assert line[0] == '+';
    case Hunk(text) => assert line[0] == '@';
    case Context(text) => assert line[0] == ' ';
    case Added(text) => assert line[0] == '+';
    case Note(text) =>
  }

  lemma KeptOfDash(text: string)
    ensures Kept("-" + text) == if StartsWith(text, "--") then [] else [text]
  {
    var line := "-" + text;
    assert line[1..] == text && line[0] == '-';
    assert |text| >= 2 ==> line[1] == text[0] && line[2] == text[1];
  }

  lemma BlankIsNotKept(line: string)
    requires IsBlank(line)
    ensures Kept(line) == []
  {
    FirstCharacter(line, "-");
  }

  lemma FirstCharacter(line: string, prefix: string)
    requires prefix != ""
    ensures StartsWith(line, prefix) ==> line != "" && line[0] == prefix[0]
  {
  }

  lemma BlankSlices(text: string, n: nat, m: nat)
    requires IsBlank(text) && n <= |text| && m <= |text|
    ensures IsBlank(text[..n]) && IsBlank(text[m..])
  {
    hide IsSpace;
  }

  lemma {:induction false} BlankTextKeepsNothing(text: string)
    requires IsBlank(text)
    ensures KeptOf(SplitLines(text)) == []
    decreases |text|
  {
    hide Kept, KeptOf, LineLength, BreakLength, IsBlank;
    NothingKept();
    if text != "" {
      var n := LineLength(text);
      if n == |text| {
        OneBlankLine(text);
      } else {
        var m := n + BreakLength(text, n);
        BlankSlices(text, n, m);
        BlankTextKeepsNothing(text[m..]);
        OneBlankLine(text[..n]);
        KeptOfConcat([text[..n]], SplitLines(text[m..]));
      }
    }
  }

  lemma OneBlankLine(line: string)
    requires IsBlank(line)
    ensures KeptOf([line]) == []
  {
    hide Kept, IsBlank;
    BlankIsNotKept(line);
    KeptOfAppend([], line);
    assert [] + [line] == [line];
  }

  /** A blank removed line contributes one blank line, however it is cut. */
  lemma BlankLineContributes(text: string)
    requires IsBlank(text)
    ensures |Contribution(Removed(text))| == 1 && IsBlank(Contribution(Removed(text))[0])
  {
    hide SplitLines, IsBlank;
    var first, rest := DashSplits(text);
    BlankTextKeepsNothing(rest);
    KeptFirstPiece(first, rest);
  }

  lemma DashSplits(text: string) returns (first: string, rest: string)
    requires IsBlank(text)
    ensures SplitLines("-" + text + "\n") == [first] + SplitLines(rest)
    ensures first != "" && first[0] == '-' && IsBlank(first[1..]) && IsBlank(rest)
  {
    hide LineLength, SplitLines, BreakLength, IsBlank;
    var body := text + "\n";
    var s := "-" + body;
    assert s == "-" + text + "\n" && s + "" == s && IsWhole(s);
    FirstLine(s, "");
    BlankWithFeed(text);
    var n := LineLength(s);
    var m := n + BreakLength(s, n);
    first, rest := s[..n], s[m..];
    DashedParts(body, n, m);
    assert rest + "" == rest;
  }

  lemma BlankWithFeed(text: string)
    ensures IsBlank(text) ==> IsBlank(text + "\n")
  {
  }

  lemma DashedParts(body: string, n: nat, m: nat)
    requires 1 <= n <= m <= |"-" + body| && IsBlank(body)
    ensures var s := "-" + body; s[..n][0] == '-' && IsBlank(s[..n][1..]) && IsBlank(s[m..])
  {
    var s := "-" + body;
    assert s[..n][1..] == body[..n - 1] && s[m..] == body[m - 1..];
    hide IsSpace;
  }

  lemma KeptFirstPiece(first: string, rest: string)
    requires first != "" && first[0] == '-' && IsBlank(first[1..]) && KeptOf(SplitLines(rest)) == []
    ensures KeptOf([first] + SplitLines(rest)) == [first[1..]]
  {
    hide SplitLines, Kept, KeptOf, IsBlank;
    NothingKept();
    KeptOfConcat([first], SplitLines(rest));
    KeptOfAppend([], first);
    assert [] + [first] == [first];
    KeptDash(first);
  }

  lemma KeptDash(first: string)
    requires first != "" && first[0] == '-' && IsBlank(first[1..])
    ensures Kept(first) == [first[1..]]
  {
    var text := first[1..];
    assert first == "-" + text;
    FirstCharacter(text, "--");
    KeptOfDash(text);
    hide Kept;
  }

  /** Trimming cuts a list into blank lines, what is left, and blank lines. */
  lemma TrimParts(lines: seq<string>) returns (from: nat, to: nat)
    ensures from <= to <= |lines| && Trim(lines) == lines[from..to]
    ensures AllBlank(lines[..from]) && AllBlank(lines[to..])
    ensures from < to ==> !IsBlank(lines[from]) && !IsBlank(lines[to - 1])
  {
    hide IsBlank, AllBlank, TrimFront, TrimBack;
    var front := TrimFront(lines);
    from := |lines| - |front|;
    to := from + |TrimBack(front)|;
    TrimFrontIsSlice(lines);
    TrimBackIsSlice(front);
    TrimmedFrontIsBlank(lines);
    TrimmedBackIsBlank(front);
    var middle := TrimBack(front);
    if from < to {
      assert lines[from] == middle[0] && lines[to - 1] == middle[|middle| - 1];
    }
  }

  lemma NonBlankSurvivesTrim(lines: seq<string>, i: nat)
    requires i < |lines| && !IsBlank(lines[i])
    ensures lines[i] in Trim(lines)
  {
    hide IsBlank, Trim;
    var from, to := TrimParts(lines);
    assert lines[0..from] == lines[..from] && lines[to..|lines|] == lines[to..];
    assert lines[from..to][i - from] == lines[i];
  }

  lemma {:induction false} RemovedIsListed(ds: seq<DiffLine>, i: nat)
    requires i < |ds| && ds[i].Removed?
    ensures ds[i].text in RemovedLines(ds)
  {
    if i < |ds| - 1 {
      RemovedIsListed(ds[..|ds| - 1], i);
    }
  }

  /** A line that starts with `--` is never kept, so no such line is ever reconstructed. */
  lemma {:induction false} KeptNeverStartWithDashes(lines: seq<string>)
    ensures forall i :: 0 <= i < |KeptOf(lines)| ==> !StartsWith(KeptOf(lines)[i], "--")
  {
    if lines != [] {
      KeptNeverStartWithDashes(lines[..|lines| - 1]);
      var line := lines[|lines| - 1];
      assert StartsWith(line, "-") && StartsWith(line[1..], "--") ==> StartsWith(line, "---") by {
        if StartsWith(line, "-") && StartsWith(line[1..], "--") {
          assert line[1] == line[1..][0] && line[2] == line[1..][1];
        }
      }
    }
  }

  lemma ReconstructedNeverStartWithDashes(diff: string, line: string)
    requires line in Reconstructed(diff)
    ensures !StartsWith(line, "--")
  {
    var kept := KeptOf(SplitLines(diff));
    hide KeptOf, StartsWith;
    KeptNeverStartWithDashes(SplitLines(diff));
    TrimFrontIsSlice(kept);
    TrimBackIsSlice(TrimFront(kept));
  }

  // The condition under which nothing is lost, cut or added.

  predicate NoneLooksLikeHeading(ds: seq<DiffLine>) {
    forall i :: 0 <= i < |ds| ==> !LooksLikeHeading(ds[i])
  }

  /** Lines that are not removed ones contribute blank lines at most. */
  predicate OthersAreBlank(ds: seq<DiffLine>) {
    forall i :: 0 <= i < |ds| && !ds[i].Removed? ==> AllBlank(Contribution(ds[i]))
  }

  predicate IsText(d: DiffLine) {
    d.Removed? && !IsBlank(d.text)
  }

  /** Between two removed lines that are not blank, only removed lines contribute. */
  predicate NoneBetween(ds: seq<DiffLine>) {
    forall i, j, k :: 0 <= i < j < k < |ds| && IsText(ds[i]) && IsText(ds[k]) && !ds[j].Removed?
      ==> Contribution(ds[j]) == []
  }

  /** Every removed line is a line without breaks, or blank. */
  predicate RemovedLinesOrBlank(ds: seq<DiffLine>) {
    forall i :: 0 <= i < |ds| && ds[i].Removed? ==> IsLine(ds[i].text) || IsBlank(ds[i].text)
  }

  lemma TrimmedLinesDecide(ds: seq<DiffLine>)
    requires AreLines(Trim(RemovedLines(ds)))
    ensures RemovedLinesOrBlank(ds)
  {
    hide IsBlank, IsLine, Trim;
    var removed := RemovedLines(ds);
    forall i | 0 <= i < |ds| && ds[i].Removed? && !IsBlank(ds[i].text) ensures IsLine(ds[i].text) {
      RemovedIsListed(ds, i);
      var j :| 0 <= j < |removed| && removed[j] == ds[i].text;
      NonBlankSurvivesTrim(removed, j);
    }
  }

  lemma {:induction false} NoNonBlank(lines: seq<string>)
    requires NonBlank(lines) == 0
    ensures AllBlank(lines)
  {
    hide IsBlank;
    if lines != [] {
      NoNonBlank(lines[..|lines| - 1]);
      assert forall i :: 0 <= i < |lines| - 1 ==> lines[i] == lines[..|lines| - 1][i];
    }
  }

  /** What one removed line adds to the number of non-blank lines. */
  lemma OneRemovedLine(text: string)
    requires IsLine(text) || IsBlank(text)
    requires !StartsWith(text, "--")
    ensures |Contribution(Removed(text))| == 1
    ensures NonBlank(Contribution(Removed(text))) == if IsBlank(text) then 0 else 1
    ensures IsLine(text) ==> Contribution(Removed(text)) == [text]
  {
    hide Contribution, IsBlank, IsLine, StartsWith;
    if IsLine(text) {
      RemovedLineContributes(text);
    } else {
      BlankLineContributes(text);
    }
    var one := Contribution(Removed(text));
    assert one == [one[0]] && one[..0] == [];
  }

  lemma NonBlankOfOne(line: string)
    ensures NonBlank([line]) == if IsBlank(line) then 0 else 1
  {
    assert [line][..0] == [];
  }

  /** Equally many non-blank lines are kept and removed only if no other line adds one. */
  lemma {:induction false} CountDecides(ds: seq<DiffLine>)
    requires RemovedLinesOrBlank(ds) && NoneLooksLikeHeading(ds)
    ensures NonBlank(Contributed(ds)) >= NonBlank(RemovedLines(ds))
    ensures NonBlank(Contributed(ds)) == NonBlank(RemovedLines(ds)) ==> OthersAreBlank(ds)
  {
    hide Contribution, IsBlank, IsLine, StartsWith, AllBlank, NonBlank;
    if ds != [] {
      var init, d := ds[..|ds| - 1], ds[|ds| - 1];
      assert forall i :: 0 <= i < |init| ==> init[i] == ds[i];
      CountDecides(init);
      NonBlankOfConcat(Contributed(init), Contribution(d));
      if d.Removed? {
        OneRemovedLine(d.text);
        NonBlankOfConcat(RemovedLines(init), [d.text]);
        NonBlankOfOne(d.text);
      } else {
        assert RemovedLines(init) + [] == RemovedLines(init);
        if NonBlank(Contribution(d)) == 0 {
          NoNonBlank(Contribution(d));
        }
      }
    }
  }

  /** In a stretch of removed lines without breaks, the kept lines are the removed ones exactly
      when no other line contributes. */
  lemma {:induction false} StretchIsKept(ds: seq<DiffLine>)
    requires NoneLooksLikeHeading(ds)
    requires forall i :: 0 <= i < |ds| && ds[i].Removed? ==> IsLine(ds[i].text)
    ensures |Contributed(ds)| >= |RemovedLines(ds)|
    ensures |Contributed(ds)| == |RemovedLines(ds)|
        <==> forall i :: 0 <= i < |ds| && !ds[i].Removed? ==> Contribution(ds[i]) == []
    ensures |Contributed(ds)| == |RemovedLines(ds)| ==> Contributed(ds) == RemovedLines(ds)
  {
    hide Contribution, IsBlank, IsLine, StartsWith;
    if ds != [] {
      var init, d := ds[..|ds| - 1], ds[|ds| - 1];
      assert forall i :: 0 <= i < |init| ==> init[i] == ds[i];
      StretchIsKept(init);
      if d.Removed? {
        OneRemovedLine(d.text);
      }
    }
  }

  lemma {:induction false} BlankContributions(ds: seq<DiffLine>)
    requires OthersAreBlank(ds) && forall i :: 0 <= i < |ds| ==> !IsText(ds[i])
    ensures AllBlank(Contributed(ds)) && AllBlank(RemovedLines(ds))
  {
    hide Contribution, IsBlank;
    if ds != [] {
      var init, d := ds[..|ds| - 1], ds[|ds| - 1];
      assert forall i :: 0 <= i < |init| ==> init[i] == ds[i];
      BlankContributions(init);
      if d.Removed? {
        BlankLineContributes(d.text);
      }
    }
  }

  /** The removed lines that are not blank, first and last. */
  lemma TextEnds(ds: seq<DiffLine>) returns (from: nat, to: nat)
    ensures from <= to <= |ds|
    ensures from < to ==> IsText(ds[from]) && IsText(ds[to - 1])
    ensures forall i :: 0 <= i < |ds| && (i < from || to <= i) ==> !IsText(ds[i])
  {
    hide IsText;
    from, to := 0, |ds|;
    while from < to && !IsText(ds[from])
      invariant from <= to <= |ds|
      invariant forall i :: 0 <= i < from ==> !IsText(ds[i])
    {
      from := from + 1;
    }
    while from < to && !IsText(ds[to - 1])
      invariant from <= to <= |ds|
      invariant from < to ==> IsText(ds[from])
      invariant forall i :: to <= i < |ds| ==> !IsText(ds[i])
    {
      to := to - 1;
    }
  }

  /** A stretch that starts and ends with non-blank removed lines is what trimming leaves. */
  lemma StretchIsTheMiddle(front: seq<DiffLine>, ds: seq<DiffLine>, back: seq<DiffLine>)
    requires OthersAreBlank(front) && forall i :: 0 <= i < |front| ==> !IsText(front[i])
    requires OthersAreBlank(back) && forall i :: 0 <= i < |back| ==> !IsText(back[i])
    requires ds != [] ==> IsText(ds[0]) && IsText(ds[|ds| - 1])
    ensures Trim(RemovedLines(front + ds + back)) == RemovedLines(ds)
    ensures AreLines(RemovedLines(ds)) && NoneLooksLikeHeading(ds)
        ==> Trim(Contributed(front + ds + back)) == Contributed(ds)
  {
    hide IsText, Contributed, RemovedLines, AllBlank, OthersAreBlank, AreLines, Trim, NoneLooksLikeHeading;
    BlankContributions(front);
    BlankContributions(back);
    ContributedConcat(front + ds, back);
    ContributedConcat(front, ds);
    StretchEnds(ds);
    TrimIsTheMiddle(RemovedLines(front), RemovedLines(ds), RemovedLines(back));
    if AreLines(RemovedLines(ds)) && NoneLooksLikeHeading(ds) {
      TrimIsTheMiddle(Contributed(front), Contributed(ds), Contributed(back));
    }
  }

  lemma StretchEnds(ds: seq<DiffLine>)
    requires ds != [] ==> IsText(ds[0]) && IsText(ds[|ds| - 1])
    ensures var r := RemovedLines(ds); r != [] ==> !IsBlank(r[0]) && !IsBlank(r[|r| - 1])
    ensures var c := Contributed(ds);
            AreLines(RemovedLines(ds)) && NoneLooksLikeHeading(ds) && c != [] ==> !IsBlank(c[0]) && !IsBlank(c[|c| - 1])
  {
    hide IsBlank, IsLine, StartsWith, AreLines, NoneLooksLikeHeading;
    if ds != [] {
      var n := |ds| - 1;
      FirstAndLast(ds);
      if AreLines(RemovedLines(ds)) && NoneLooksLikeHeading(ds) {
        TextContributes(ds, 0);
        TextContributes(ds, n);
      }
    }
  }

  lemma FirstAndLast(ds: seq<DiffLine>)
    requires ds != [] && ds[0].Removed? && ds[|ds| - 1].Removed?
    ensures RemovedLines(ds) != [] && RemovedLines(ds)[0] == ds[0].text
    ensures RemovedLines(ds)[|RemovedLines(ds)| - 1] == ds[|ds| - 1].text
    ensures |Contribution(ds[0])| == 1 ==> Contributed(ds) != [] && Contributed(ds)[0] == Contribution(ds[0])[0]
    ensures |Contribution(ds[|ds| - 1])| == 1 ==>
              Contributed(ds) != [] && Contributed(ds)[|Contributed(ds)| - 1] == Contribution(ds[|ds| - 1])[0]
  {
    hide Contribution;
    ContributedConcat([ds[0]], ds[1..]);
    assert [ds[0]] + ds[1..] == ds;
  }

  lemma TextContributes(ds: seq<DiffLine>, i: nat)
    requires i < |ds| && ds[i].Removed? && AreLines(RemovedLines(ds)) && NoneLooksLikeHeading(ds)
    ensures IsLine(ds[i].text) && Contribution(ds[i]) == [ds[i].text]
  {
    hide Contribution, IsLine, StartsWith;
    RemovedIsListed(ds, i);
    OneRemovedLine(ds[i].text);
  }

  lemma StretchDecides(ds: seq<DiffLine>)
    requires AreLines(RemovedLines(ds)) && NoneLooksLikeHeading(ds)
    ensures Contributed(ds) == RemovedLines(ds)
        <==> forall i :: 0 <= i < |ds| && !ds[i].Removed? ==> Contribution(ds[i]) == []
  {
    hide Contribution, IsLine, NoneLooksLikeHeading;
    forall i | 0 <= i < |ds| && ds[i].Removed? ensures IsLine(ds[i].text) {
      RemovedIsListed(ds, i);
    }
    StretchIsKept(ds);
  }

  /** The stretch between the outer texts decides `NoneBetween`. */
  lemma NoneBetweenIsInside(ds: seq<DiffLine>, from: nat, to: nat)
    requires from <= to <= |ds|
    requires from < to ==> IsText(ds[from]) && IsText(ds[to - 1])
    requires forall i :: 0 <= i < |ds| && (i < from || to <= i) ==> !IsText(ds[i])
    ensures NoneBetween(ds)
        <==> forall i :: 0 <= i < |ds[from..to]| && !ds[from..to][i].Removed? ==> Contribution(ds[from..to][i]) == []
  {
    hide Contribution, IsText;
    var middle := ds[from..to];
    if forall i :: 0 <= i < |middle| && !middle[i].Removed? ==> Contribution(middle[i]) == [] {
      forall i, j, k | 0 <= i < j < k < |ds| && IsText(ds[i]) && IsText(ds[k]) && !ds[j].Removed?
        ensures Contribution(ds[j]) == []
      {
        assert from <= i && k < to && middle[j - from] == ds[j];
      }
    } else {
      var i :| 0 <= i < |middle| && !middle[i].Removed? && Contribution(middle[i]) != [];
      assert middle[i] == ds[from + i];
      NotRemovedIsNoText(ds[from + i]);
    }
  }

  lemma OutsideTheStretch(ds: seq<DiffLine>, from: nat, to: nat)
    requires from <= to <= |ds| && OthersAreBlank(ds) && NoneLooksLikeHeading(ds)
    requires from < to ==> IsText(ds[from]) && IsText(ds[to - 1])
    requires forall i :: 0 <= i < |ds| && (i < from || to <= i) ==> !IsText(ds[i])
    ensures OthersAreBlank(ds[..from]) && forall i :: 0 <= i < |ds[..from]| ==> !IsText(ds[..from][i])
    ensures OthersAreBlank(ds[to..]) && forall i :: 0 <= i < |ds[to..]| ==> !IsText(ds[to..][i])
    ensures NoneLooksLikeHeading(ds[from..to])
    ensures from < to ==> ds[from..to] != [] && IsText(ds[from..to][0]) && IsText(ds[from..to][to - from - 1])
  {
    hide IsText, AllBlank, Contribution, LooksLikeHeading;
    assert forall i :: 0 <= i < |ds[to..]| ==> ds[to..][i] == ds[to + i];
    assert forall i :: 0 <= i < |ds[from..to]| ==> ds[from..to][i] == ds[from + i];
  }

  /** With blank contributions only, it is the middle that decides. */
  lemma MiddleDecides(ds: seq<DiffLine>)
    requires NoneLooksLikeHeading(ds) && AreLines(Trim(RemovedLines(ds))) && OthersAreBlank(ds)
    ensures Trim(Contributed(ds)) == Trim(RemovedLines(ds)) <==> NoneBetween(ds)
  {
    hide IsText, Contributed, Contribution, RemovedLines, AllBlank, AreLines, Trim, NoneLooksLikeHeading, OthersAreBlank, NoneBetween;
    var from, to := TextEnds(ds);
    var front, middle, back := ds[..from], ds[from..to], ds[to..];
    OutsideTheStretch(ds, from, to);
    Bytes.ConcatAssociative(front, middle, back);
    assert front + middle + back == ds;
    StretchIsTheMiddle(front, middle, back);
    StretchDecides(middle);
    NoneBetweenIsInside(ds, from, to);
  }

  lemma NotRemovedIsNoText(d: DiffLine)
    ensures IsText(d) ==> d.Removed?
  {
  }

  lemma EqualityNeeds(ds: seq<DiffLine>)
    requires Reconstructed(Render(ds)) == Trim(RemovedLines(ds))
    ensures NoneLooksLikeHeading(ds) && AreLines(Trim(RemovedLines(ds))) && OthersAreBlank(ds)
  {
    hide Contributed, RemovedLines, AreLines, Trim, NonBlank, IsBlank, Render, OthersAreBlank, StartsWith;
    var removed := RemovedLines(ds);
    KeptOfRender(ds);
    ReconstructedAreLines(Render(ds));
    forall i | 0 <= i < |ds| ensures !LooksLikeHeading(ds[i]) {
      if LooksLikeHeading(ds[i]) {
        RemovedIsListed(ds, i);
        var j :| 0 <= j < |removed| && removed[j] == ds[i].text;
        DashesAreNotBlank(removed[j]);
        NonBlankSurvivesTrim(removed, j);
        ReconstructedNeverStartWithDashes(Render(ds), removed[j]);
      }
    }
    TrimmedLinesDecide(ds);
    TrimKeepsNonBlank(removed);
    TrimKeepsNonBlank(Contributed(ds));
    CountDecides(ds);
  }

  lemma DashesAreNotBlank(text: string)
    requires StartsWith(text, "--")
    ensures !IsBlank(text)
  {
    assert text[0] == '-';
  }

  /** For every diff, whatever its lines hold, reconstruction gives the removed lines in order
      without their blank ends exactly when
      - no removed line starts with `--`, since such a line is taken for a heading and lost;
      - none that is left after trimming holds a break, since there it is cut;
      - the other lines contribute blank lines at most, and none of those stands between two
        removed lines that are not blank. */
  lemma ReconstructsExactly(ds: seq<DiffLine>)
    ensures Reconstructed(Render(ds)) == Trim(RemovedLines(ds))
        <==> && NoneLooksLikeHeading(ds)
             && AreLines(Trim(RemovedLines(ds)))
             && OthersAreBlank(ds)
             && NoneBetween(ds)
  {
    hide NoneLooksLikeHeading, AreLines, OthersAreBlank, NoneBetween, Trim, RemovedLines, Contributed, Render, SplitLines;
    KeptOfRender(ds);
    if Reconstructed(Render(ds)) == Trim(RemovedLines(ds)) {
      EqualityNeeds(ds);
    }
    if NoneLooksLikeHeading(ds) && AreLines(Trim(RemovedLines(ds))) && OthersAreBlank(ds) {
      MiddleDecides(ds);
    }
  }

  /** The signature line `git format-patch` puts at the end of a patch starts with `-`: any
      patch that holds one gains the line `- `. */
  lemma SignatureIsKept(ds: seq<DiffLine>, i: nat)
    requires i < |ds| && ds[i] == Note("-- ")
    ensures Contribution(ds[i]) == ["- "]
    ensures Reconstructed(Render(ds)) != Trim(RemovedLines(ds))
  {
    hide Trim, RemovedLines, Render, Reconstructed, Contribution, NoneLooksLikeHeading, NoneBetween, AreLines;
    SignatureContributes();
    ReconstructsExactly(ds);
    var line := Contribution(ds[i])[0];
    assert line[0] == '-' && !IsBlank(line);
  }

  lemma SignatureContributes()
    ensures Contribution(Note("-- ")) == ["- "]
  {
    hide Contribution;
    var line := "-- ";
    ContributionOfLine(Note(line));
    assert line[0] == '-' && line[2] == ' ' && line[1..] == "- ";
    assert !StartsWith(line, "---") && !StartsWith(line, "+++") && !StartsWith(line, "@@");
  }

  /** A removed line that holds a form feed, or another break `splitlines` knows besides the
      line feed, is cut there: what follows counts only if it starts with `-` itself. */
  lemma InnerBreakCutsTheLine(x: string, c: char, y: string)
    requires IsLine(x) && IsLine(y) && IsBreak(c) && c != '\r'
    ensures KeptOf(SplitLines(Render([Removed(x + [c] + y)]))) == Kept("-" + x) + Kept(y)
  {
    var d := Removed(x + [c] + y);
    assert Render([d]) == ("-" + x) + [c] + (y + ['\n'] + "") by {
      assert [d][..0] == [];
    }
    SplitLinesStep("-" + x, c, y + ['\n'] + "");
    SplitLinesStep(y, '\n', "");
    KeptOfTwo("-" + x, y);
  }

  lemma KeptOfTwo(a: string, b: string)
    ensures KeptOf([a] + ([b] + [])) == Kept(a) + Kept(b)
  {
    KeptOfAppend([], a);
    KeptOfAppend([a], b);
    assert [] + [a] == [a] && [a] + ([b] + []) == [a] + [b];
  }
}
