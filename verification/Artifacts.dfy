/** Artifacts of the output-producing tools: the mixin module built from removed lines, the tool
    that emits it, the shape check made right after a tool, and the independent check that
    rebuilds a mixin from its diff. */
module Artifacts {
  import opened Bytes
  import opened Text
  import opened DiffOracle

  /** File contents by path, as decoded text. */
  type Files = map<string, string>

  datatype Parsed =
    | Module(classes: seq<string>) // the names of the classes at top level, in order
    | BadSyntax
    | Raised

  /** What the checks take from their host: the digest of a text, the Python parser, the methods
      of a named class in a module, the import lines a moved block needs of its source module,
      the repository root and the normalised path of a relative one. */
  datatype Host = Host(
    sha: string -> Digest,
    parse: string -> Parsed,
    methods: (string, string) -> seq<string>,
    imports: (string, string) -> seq<string>,
    root: string,
    resolve: string -> string)

  function CorePath(root: string): string {
    root + "/bridge/vapi_bridge/store/_core.py"
  }

  function TextAt(files: Files, path: string): string {
    if path in files then files[path] else ""
  }

  /** The test the code makes of a path before it uses it: the text of the resolved path starts
      with the text of the root. */
  predicate HasRootPrefix(h: Host, path: string) {
    StartsWith(h.resolve(path), h.root)
  }

  /** The resolved path is the root, or lies in the directory tree below it. */
  predicate IsInside(h: Host, path: string) {
    || h.resolve(path) == h.root
    || StartsWith(h.resolve(path), if EndsWith(h.root, "/") then h.root else h.root + "/")
  }

  /** Exactly: a path that passes the test is inside the repository if and only if it resolves to
      the root itself or a slash follows the root's text. */
  lemma PrefixMeansInsideExactly(h: Host, path: string)
    requires !EndsWith(h.root, "/")
    ensures IsInside(h, path)
        <==> && HasRootPrefix(h, path)
             && (|h.resolve(path)| == |h.root| || (|h.root| < |h.resolve(path)| && h.resolve(path)[|h.root|] == '/'))
  {
    var p, root := h.resolve(path), h.root;
    if HasRootPrefix(h, path) {
      if |p| == |root| {
        assert p == root;
      } else if p[|root|] == '/' {
        assert p[..|root| + 1] == root + "/";
      }
    }
    if StartsWith(p, root + "/") {
      assert p[..|root| + 1] == root + "/";
      assert p[..|root|] == p[..|root| + 1][..|root|] == root && p[|root|] == p[..|root| + 1][|root|];
    }
  }

  /** A directory beside the repository whose name starts with the repository's passes too. */
  lemma SiblingPassesTheTest(h: Host, path: string, rest: string)
    requires !EndsWith(h.root, "/") && h.resolve(path) == h.root + "-" + rest
    ensures HasRootPrefix(h, path) && !IsInside(h, path)
  {
    PrefixMeansInsideExactly(h, path);
    assert h.resolve(path)[..|h.root|] == h.root && h.resolve(path)[|h.root|] == '-';
  }

  // ---------------------------------------------------------------- the mixin module

  function ImportBlock(imports: seq<string>): string {
    if imports == [] then "" else "\n" + JoinLines(imports) + "\n"
  }

  function ImportsOf(h: Host, removed: seq<string>, source: string): seq<string> {
    if source != "" then h.imports(JoinLines(removed), source) else []
  }

  function Docstring(className: string): string {
    className + " \U{2014} D-DECON-2 domain extraction (diff-oracle reconstructed)."
  }

  function PreambleRows(doc: string): seq<string> {
    ["\"\"\"" + doc,
     "",
     "Extracted verbatim from store/_core.py via the diff-oracle pattern",
     "(removal diff is the canonical source). CREATE TABLE statements stay",
     "centralized in _core.py._init_schema per D-DECON-2.",
     "\"\"\"",
     "from __future__ import annotations",
     ""]
  }

  function Preamble(doc: string): string {
    JoinLines(PreambleRows(doc))
  }

  function ClassLine(className: string): string {
    JoinLines([
      "class " + className + ":",
      "    \"\"\"Domain methods extracted " + "from Store; resolved " + "via MRO.\"\"\"",
      ""])
  }

  function BuildMixinModule(h: Host, className: string, removed: seq<string>, doc: string, source: string): string {
    Preamble(if doc != "" then doc else Docstring(className))
    + ImportBlock(ImportsOf(h, removed, source)) + "\n\n" + ClassLine(className) + JoinLines(removed) + "\n"
  }

  // ---------------------------------------------------------------- adversarial check

  datatype How = MissingArtifact | ByDiffOracle | ByDiffAttest | ByExistence

  datatype Failure = ArtifactMissing | NoRemovedLines | HashMismatch | NotAUnifiedDiff | ArtifactEmpty | CheckRaised

  datatype Attestation = Attestation(
    ok: bool, artifactHash: Option<Digest>, rebuiltHash: Option<Digest>, how: How, failures: seq<Failure>)

  predicate IsFile(files: Files, path: Option<string>) {
    path.Some? && path.value != "" && path.value in files
  }

  function SourceText(files: Files, sourceModule: Option<string>, repoRoot: string): string {
    if IsFile(files, sourceModule) then files[sourceModule.value]
    else if repoRoot != "" then TextAt(files, CorePath(repoRoot))
    else ""
  }

  /** The first class of the parsed artifact, whatever class was asked for. */
  function FirstClass(classes: seq<string>, asked: Option<string>): string {
    if classes != [] then classes[0]
    else if asked.Some? && asked.value != "" then asked.value
    else "ExtractedMixin"
  }

  /** The text an artifact is compared with. */
  function Rebuilt(h: Host, classes: seq<string>, diff: string, asked: Option<string>, source: string): string {
    BuildMixinModule(h, FirstClass(classes, asked), Reconstructed(diff), "", source)
  }

  function CheckMixin(h: Host, content: string, diff: string, asked: Option<string>, source: string): Attestation {
    var hash := h.sha(content);
    if Reconstructed(diff) == [] then
      Attestation(false, Some(hash), None, ByDiffOracle, [NoRemovedLines])
    else match h.parse(content)
      case Module(classes) =>
        var rebuilt := h.sha(Rebuilt(h, classes, diff, asked, source));
        Attestation(rebuilt == hash, Some(hash), Some(rebuilt), ByDiffOracle,
                    if rebuilt == hash then [] else [HashMismatch])
      case _ => Attestation(false, Some(hash), None, ByDiffOracle, [CheckRaised])
  }

  function AdversarialVerify(h: Host, files: Files, artifact: string, diff: Option<string>, asked: Option<string>,
                             sourceModule: Option<string>, repoRoot: string): Attestation
  {
    if artifact !in files then
      Attestation(false, None, None, MissingArtifact, [ArtifactMissing])
    else
      var content := files[artifact];
      var hash := h.sha(content);
      if EndsWith(artifact, ".proposed") && IsFile(files, diff) then
        CheckMixin(h, content, files[diff.value], asked, SourceText(files, sourceModule, repoRoot))
      else if EndsWith(artifact, ".diff") then
        if StartsWith(Strip(content), "---")
        then Attestation(true, Some(hash), None, ByDiffAttest, [])
        else Attestation(false, Some(hash), None, ByDiffAttest, [NotAUnifiedDiff])
      else if |Strip(content)| < 1
      then Attestation(false, Some(hash), None, ByExistence, [ArtifactEmpty])
      else Attestation(true, Some(hash), None, ByExistence, [])
  }

  predicate TextsCollide(h: Host, a: string, b: string) {
    a != b && h.sha(a) == h.sha(b)
  }

  /** A mixin is accepted exactly when the diff removes something, the artifact parses, and its
      text is the rebuild for its own first class, or else those two texts have one digest. */
  lemma AcceptsExactlyTheRebuild(h: Host, content: string, diff: string, asked: Option<string>, source: string)
    ensures CheckMixin(h, content, diff, asked, source).ok <==>
              && Reconstructed(diff) != []
              && h.parse(content).Module?
              && var rebuilt := Rebuilt(h, h.parse(content).classes, diff, asked, source);
                 (content == rebuilt || TextsCollide(h, content, rebuilt))
  {
    hide BuildMixinModule;
  }

  // ---------------------------------------------------------------- an artifact fixes its lines

  predicate ImportLines(imports: seq<string>) {
    forall i :: 0 <= i < |imports| ==> imports[i] != "" && IsLine(imports[i])
  }

  function ImportRows(imports: seq<string>): seq<string> {
    if imports == [] then [] else [""] + imports
  }

  lemma TwoFeedRows(rest: string)
    ensures SplitLines("\n\n" + rest) == ["", ""] + SplitLines(rest)
  {
    hide SplitLines, IsLine;
    SplitLinesStep("", '\n', rest);
    SplitLinesStep("", '\n', "\n" + rest);
    assert "" + ['\n'] + ("\n" + rest) == "\n\n" + rest && "" + ['\n'] + rest == "\n" + rest;
  }

  lemma ImportBlockRows(imports: seq<string>, rest: string)
    requires ImportLines(imports)
    ensures SplitLines(ImportBlock(imports) + ("\n\n" + rest)) == ImportRows(imports) + (["", ""] + SplitLines(rest))
  {
    hide SplitLines, IsLine, JoinLines;
    TwoFeedRows(rest);
    var after := "\n\n" + rest;
    if imports == [] {
      assert "" + after == after;
    } else {
      var more := JoinLines(imports) + "\n" + after;
      SplitLinesOfJoined(imports, after);
      SplitLinesStep("", '\n', more);
      assert "\n" + JoinLines(imports) + "\n" + after == "" + ['\n'] + more;
    }
  }

  lemma RowsAgree(i1: seq<string>, i2: seq<string>, u: seq<string>, v: seq<string>)
    requires ImportLines(i1) && ImportLines(i2) && |i1| <= |i2|
    requires ImportRows(i1) + (["", ""] + u) == ImportRows(i2) + (["", ""] + v)
    ensures i1 == i2
  {
    var a, b := ImportRows(i1) + (["", ""] + u), ImportRows(i2) + (["", ""] + v);
    if i1 == [] {
      assert a[1] == "";
    } else {
      assert a[|i1| + 1] == "";
      assert a[1..|i1| + 1] == i1 && b[1..|i1| + 1] == i2[..|i1|];
    }
  }

  lemma ImportsAgree(i1: seq<string>, i2: seq<string>, t1: string, t2: string)
    requires ImportLines(i1) && ImportLines(i2)
    requires ImportBlock(i1) + "\n\n" + t1 == ImportBlock(i2) + "\n\n" + t2
    ensures i1 == i2 && t1 == t2
  {
    hide SplitLines, ImportBlock;
    ImportBlockRows(i1, t1);
    ImportBlockRows(i2, t2);
    ConcatAssociative(ImportBlock(i1), "\n\n", t1);
    ConcatAssociative(ImportBlock(i2), "\n\n", t2);
    if |i1| <= |i2| {
      RowsAgree(i1, i2, SplitLines(t1), SplitLines(t2));
    } else {
      RowsAgree(i2, i1, SplitLines(t2), SplitLines(t1));
    }
    ConcatInjective(ImportBlock(i1) + "\n\n", t1, ImportBlock(i2) + "\n\n", t2);
  }

  /** Two rebuilds for one class and source module have one text only for one list of lines. */
  lemma BuildFixesTheLines(h: Host, className: string, r1: seq<string>, r2: seq<string>, source: string)
    requires AreLines(r1) && AreLines(r2) && r1 != [] && r2 != []
    requires ImportLines(ImportsOf(h, r1, source)) && ImportLines(ImportsOf(h, r2, source))
    requires BuildMixinModule(h, className, r1, "", source) == BuildMixinModule(h, className, r2, "", source)
    ensures r1 == r2
  {
    hide Preamble, ClassLine, ImportBlock, SplitLines, JoinLines, IsLine, Docstring;
    var p, c := Preamble(Docstring(className)), ClassLine(className);
    var i1, i2 := ImportsOf(h, r1, source), ImportsOf(h, r2, source);
    var b1, b2 := JoinLines(r1) + "\n", JoinLines(r2) + "\n";
    assert p + (ImportBlock(i1) + "\n\n" + (c + b1)) == BuildMixinModule(h, className, r1, "", source);
    assert p + (ImportBlock(i2) + "\n\n" + (c + b2)) == BuildMixinModule(h, className, r2, "", source);
    ConcatInjective(p, ImportBlock(i1) + "\n\n" + (c + b1), p, ImportBlock(i2) + "\n\n" + (c + b2));
    ImportsAgree(i1, i2, c + b1, c + b2);
    ConcatInjective(c, b1, c, b2);
    SplitLinesOfJoined(r1, "");
    SplitLinesOfJoined(r2, "");
    assert b1 + "" == b1 && b2 + "" == b2;
    ConcatInjective(r1, SplitLines(""), r2, SplitLines(""));
  }

  /** One artifact cannot be accepted against diffs that remove different lines, unless a
      rebuild collides with it. */
  lemma AcceptanceFixesTheLines(h: Host, content: string, classes: seq<string>, diff1: string, diff2: string,
                                asked: Option<string>, source: string)
    requires h.parse(content) == Module(classes)
    requires CheckMixin(h, content, diff1, asked, source).ok && CheckMixin(h, content, diff2, asked, source).ok
    requires ImportLines(ImportsOf(h, Reconstructed(diff1), source)) && ImportLines(ImportsOf(h, Reconstructed(diff2), source))
    ensures || Reconstructed(diff1) == Reconstructed(diff2)
            || TextsCollide(h, content, Rebuilt(h, classes, diff1, asked, source))
            || TextsCollide(h, content, Rebuilt(h, classes, diff2, asked, source))
  {
    hide BuildMixinModule, Reconstructed, AreLines, ImportLines;
    AcceptsExactlyTheRebuild(h, content, diff1, asked, source);
    AcceptsExactlyTheRebuild(h, content, diff2, asked, source);
    ReconstructedAreLines(diff1);
    ReconstructedAreLines(diff2);
    if Rebuilt(h, classes, diff1, asked, source) == Rebuilt(h, classes, diff2, asked, source) {
      BuildFixesTheLines(h, FirstClass(classes, asked), Reconstructed(diff1), Reconstructed(diff2), source);
    }
  }

  // ---------------------------------------------------------------- the extraction tool

  type Args = map<string, string>

  function Arg(args: Args, key: string): string {
    if key in args then args[key] else ""
  }

  function OptionalArg(args: Args, key: string): Option<string> {
    if key in args && args[key] != "" then Some(args[key]) else None
  }

  function Underscored(s: string): string {
    if s == "" then "" else
      (if s[0] == '/' || s[0] == '\\' || s[0] == '.' then "_" else [s[0]]) + Underscored(s[1..])
  }

  /** Where a proposal for `target` goes, relative to the repository. */
  function ProposalPath(target: string, stamp: string): string {
    "docs/_daemon_proposals/newfile_" + stamp + "_" + Underscored(target) + ".proposed"
  }

  datatype Refusal = MissingArgument | DiffNotFound | NothingRemoved | InvalidPython | ExtractionRaised

  datatype Extraction =
    | Refused(why: Refusal)
    | Emitted(path: string, text: string)

  function ExtractWithDiff(h: Host, files: Files, args: Args, stamp: string): Extraction {
    var diff, className, target := Arg(args, "diff_path"), Arg(args, "class_name"), Arg(args, "target_path");
    if diff == "" || className == "" || target == "" then Refused(MissingArgument)
    else if !HasRootPrefix(h, diff) || h.resolve(diff) !in files then Refused(DiffNotFound)
    else
      var removed := Reconstructed(files[h.resolve(diff)]);
      if removed == [] then Refused(NothingRemoved)
      else
        var text := BuildMixinModule(h, className, removed, "", TextAt(files, CorePath(h.root)));
        match h.parse(text)
        case BadSyntax => Refused(InvalidPython)
        case Raised => Refused(ExtractionRaised)
        case Module(_) => Emitted(ProposalPath(target, stamp), text)
  }

  /** The text of an emitted artifact passes the check against its own diff, as long as the
      parser's first class is the one asked for. */
  lemma ExtractedIsAccepted(h: Host, files: Files, args: Args, stamp: string, diff: string, path: string, text: string)
    requires diff == h.resolve(Arg(args, "diff_path")) && diff in files
    requires ExtractWithDiff(h, files, args, stamp) == Emitted(path, text)
    requires h.parse(text).Module? && |h.parse(text).classes| > 0 && h.parse(text).classes[0] == Arg(args, "class_name")
    ensures CheckMixin(h, text, files[diff], OptionalArg(args, "class_name"), TextAt(files, CorePath(h.root)))
            == Attestation(true, Some(h.sha(text)), Some(h.sha(text)), ByDiffOracle, [])
  {
    hide BuildMixinModule;
  }

  // ---------------------------------------------------------------- the shape check

  function CountFeeds(s: string): nat {
    if s == "" then 0 else (if s[0] == '\n' then 1 else 0) + CountFeeds(s[1..])
  }

  /** The length of the text in UTF-8. */
  function Utf8Length(s: string): nat {
    if s == "" then 0 else
      var n := s[0] as int;
      (if n < 0x80 then 1 else if n < 0x800 then 2 else if n < 0x1_0000 then 3 else 4) + Utf8Length(s[1..])
  }

  /** The keys of an expected shape that the daemon uses; 0 and None stand for an absent key. */
  datatype Shape = Shape(minLines: nat, minBytes: nat, python: bool, className: Option<string>)

  datatype Verdict = Verified | Fabricated | VerifierRaised

  function VerifyArtifact(h: Host, files: Files, path: string, shape: Shape): Verdict {
    if path !in files then Fabricated
    else
      var content := files[path];
      var short := CountFeeds(content) + 1 < shape.minLines || Utf8Length(content) < shape.minBytes;
      if !shape.python then (if short then Fabricated else Verified)
      else match h.parse(content)
        case Raised => VerifierRaised
        case BadSyntax => Fabricated
        case Module(classes) =>
          if short || (shape.className.Some? && shape.className.value !in classes) then Fabricated else Verified
  }

  // ---------------------------------------------------------------- finding the artifact

  function WordOf(s: string): (r: string)
    ensures r <= s
  {
    if s == "" || IsSpace(s[0]) then "" else [s[0]] + WordOf(s[1..])
  }

  function LastMatch(s: string, pat: string, upTo: nat): (k: Option<nat>)
    ensures k.Some? ==> k.value > 0 && MatchAt(s, pat, k.value)
  {
    if upTo == 0 then None
    else if MatchAt(s, pat, upTo) then Some(upTo)
    else LastMatch(s, pat, upTo - 1)
  }

  /** What `\s*(\S+` + ext + `)` captures at the start of a text. */
  function Captured(rest: string, ext: string): Option<string> {
    var word := WordOf(LStrip(rest));
    var k := LastMatch(word, ext, |word|);
    if k.Some? then Some(word[..k.value + |ext|]) else None
  }

  /** `re.search(tag + r"\s*(\S+" + ext + ")", text)`, the group. */
  function Search(text: string, tag: string, ext: string, from: nat): Option<string>
    requires from <= |text|
    decreases |text| - from
  {
    var i := Find(text, tag, from);
    if i == -1 then None
    else
      var found := Captured(text[i + |tag|..], ext);
      if found.Some? then found
      else if i == |text| then None
      else Search(text, tag, ext, i + 1)
  }

  datatype OutputTool = ToolExtract | ToolPropose | ToolWrite

  function OutputToolOf(name: string): Option<OutputTool> {
    if name == "extract_with_diff" then Some(ToolExtract)
    else if name == "propose_edit" then Some(ToolPropose)
    else if name == "write_file" then Some(ToolWrite)
    else None
  }

  predicate IsFailure(result: string) {
    || result == "" || StartsWith(result, "Error:") || StartsWith(result, "BLOCKED:")
    || StartsWith(result, "OPERATOR_HOLD") || StartsWith(result, "RATE_LIMITED") || StartsWith(result, "Error during")
  }

  function ForwardSlashes(s: string): string {
    if s == "" then "" else (if s[0] == '\\' then "/" else [s[0]]) + ForwardSlashes(s[1..])
  }

  function OrEmpty(o: Option<string>): string {
    if o.Some? then o.value else ""
  }

  /** `resolve_output_artifact_path`: the artifact, empty when there is none, and its diff. */
  function ResolveArtifact(tool: OutputTool, args: Args, result: string): (string, Option<string>) {
    match tool
    case ToolExtract =>
      var found := Search(result, "artifact:", ".proposed", 0);
      if found.Some? then (found.value, OptionalArg(args, "diff_path"))
      else if Arg(args, "target_path") != "" then (Arg(args, "target_path"), OptionalArg(args, "diff_path"))
      else ("", None)
    case ToolPropose =>
      var found := Search(result, "diff:", ".diff", 0);
      (OrEmpty(found), found)
    case ToolWrite =>
      if StartsWith(result, "OK: wrote") then (ForwardSlashes(Arg(args, "path")), None)
      else (OrEmpty(Search(result, "content:", ".proposed", 0)), None)
  }

  function ExpectedShape(tool: OutputTool, args: Args, artifact: string): Shape {
    match tool
    case ToolExtract => Shape(5, 0, true, OptionalArg(args, "class_name"))
    case ToolPropose => Shape(0, 10, false, None)
    case ToolWrite =>
      if EndsWith(if "path" in args then args["path"] else artifact, ".py")
      then Shape(1, 0, true, None) else Shape(0, 1, false, None)
  }

  datatype PostCheck =
    | NotRun
    | Ran(artifact: string, diff: Option<string>, ok: bool)
    | CheckFault

  function RunPostOutputVerification(h: Host, files: Files, name: string, args: Args, result: string): PostCheck {
    var tool := OutputToolOf(name);
    if tool.None? || IsFailure(result) then NotRun
    else
      var (artifact, diff) := ResolveArtifact(tool.value, args, result);
      if artifact == "" then NotRun
      else if !HasRootPrefix(h, artifact) then Ran(artifact, diff, false)
      else
        match VerifyArtifact(h, files, h.resolve(artifact), ExpectedShape(tool.value, args, artifact))
        case Verified => Ran(artifact, diff, true)
        case Fabricated => Ran(artifact, diff, false)
        case VerifierRaised => CheckFault
  }

  /** What an automatic check that passed has established about the artifact it names. */
  lemma PassedCheckMeans(h: Host, files: Files, name: string, args: Args, result: string, artifact: string, diff: Option<string>)
    requires RunPostOutputVerification(h, files, name, args, result) == Ran(artifact, diff, true)
    ensures artifact != "" && HasRootPrefix(h, artifact) && h.resolve(artifact) in files
    ensures name == "extract_with_diff" ==>
              && h.parse(files[h.resolve(artifact)]).Module? && CountFeeds(files[h.resolve(artifact)]) >= 4
              && (Arg(args, "class_name") != "" ==> Arg(args, "class_name") in h.parse(files[h.resolve(artifact)]).classes)
    ensures name == "propose_edit" ==> Utf8Length(files[h.resolve(artifact)]) >= 10 && diff == Some(artifact)
    ensures name == "write_file" && EndsWith(Arg(args, "path"), ".py") ==> h.parse(files[h.resolve(artifact)]).Module?
    ensures name == "write_file" && !EndsWith(Arg(args, "path"), ".py") && "path" in args ==>
              Utf8Length(files[h.resolve(artifact)]) >= 1
  {
    hide IsFailure, Search, CountFeeds, Utf8Length, ForwardSlashes;
  }

  /** Whatever is accepted exists and has a non-blank text, or it collides with its rebuild. */
  lemma AcceptedIsNotBlank(h: Host, files: Files, artifact: string, diff: Option<string>, asked: Option<string>,
                           sourceModule: Option<string>, repoRoot: string)
    requires AdversarialVerify(h, files, artifact, diff, asked, sourceModule, repoRoot).ok
    ensures artifact in files
    ensures || !IsBlank(files[artifact])
            || (IsFile(files, diff) && h.parse(files[artifact]).Module?
                && TextsCollide(h, files[artifact], Rebuilt(h, h.parse(files[artifact]).classes, files[diff.value], asked,
                                                            SourceText(files, sourceModule, repoRoot))))
  {
    hide BuildMixinModule, CheckMixin, CorePath;
    if IsFile(files, diff) {
      var content, source := files[artifact], SourceText(files, sourceModule, repoRoot);
      AcceptsExactlyTheRebuild(h, content, files[diff.value], asked, source);
      if h.parse(content).Module? {
        BuiltIsNotBlank(h, FirstClass(h.parse(content).classes, asked), Reconstructed(files[diff.value]), source);
      }
    }
    DashesAreNotBlank(files[artifact]);
  }

  lemma DashesAreNotBlank(s: string)
    ensures StartsWith(Strip(s), "---") ==> !IsBlank(s)
  {
  }

  lemma BuiltIsNotBlank(h: Host, className: string, removed: seq<string>, source: string)
    ensures !IsBlank(BuildMixinModule(h, className, removed, "", source))
  {
    hide ClassLine, ImportBlock, ImportsOf, Docstring;
    var text := BuildMixinModule(h, className, removed, "", source);
    assert text[0] == '"';
  }

  // ---------------------------------------------------------------- what a mixin holds

  function HeaderRows(className: string): seq<string> {
    ["\"\"\"" + (className + " \U{2014} D-DECON-2 domain extraction (diff-oracle reconstructed)."),
     "",
     "Extracted verbatim from store/_core.py via the diff-oracle pattern",
     "(removal diff is the canonical source). CREATE TABLE statements stay",
     "centralized in _core.py._init_schema per D-DECON-2.",
     "\"\"\"",
     "from __future__ import annotations"]
  }

  function ClassRows(className: string): seq<string> {
    ["class " + className + ":",
     "    \"\"\"Domain methods extracted " + "from Store; resolved " + "via MRO.\"\"\""]
  }

  lemma IsLineConcat(a: string, b: string)
    ensures IsLine(a + b) <==> IsLine(a) && IsLine(b)
  {
    hide IsBreak;
    if IsLine(a + b) {
      assert forall i :: 0 <= i < |a| ==> a[i] == (a + b)[i];
      assert forall i :: 0 <= i < |b| ==> b[i] == (a + b)[|a| + i];
    }
  }

  lemma ClassRowsAreLines(className: string)
    requires IsLine(className)
    ensures AreLines(ClassRows(className))
  {
    ClassRowIsLine(className);
    StoreRowIsLine();
    hide IsLine;
  }

  lemma ClassRowIsLine(className: string)
    requires IsLine(className)
    ensures IsLine("class " + className + ":")
  {
    assert IsLine("class ") && IsLine(":");
    hide IsLine;
    IsLineConcat("class ", className);
    IsLineConcat("class " + className, ":");
  }

  lemma StoreRowIsLine()
    ensures IsLine("    \"\"\"Domain methods extracted " + "from Store; resolved " + "via MRO.\"\"\"")
  {
    assert IsLine("    \"\"\"Domain methods extracted ") && IsLine("from Store; resolved ") && IsLine("via MRO.\"\"\"");
    hide IsLine;
    IsLineConcat("    \"\"\"Domain methods extracted ", "from Store; resolved ");
    IsLineConcat("    \"\"\"Domain methods extracted " + "from Store; resolved ", "via MRO.\"\"\"");
  }

  lemma {:induction false} JoinWithFeed(rows: seq<string>)
    requires rows != []
    ensures JoinLines(rows + [""]) == JoinLines(rows) + "\n"
  {
    assert (rows + [""])[0] == rows[0] && (rows + [""])[1..] == rows[1..] + [""];
    if |rows| > 1 {
      JoinWithFeed(rows[1..]);
      ConcatAssociative(rows[0] + "\n", JoinLines(rows[1..]), "\n");
    } else {
      assert JoinLines([""]) == "";
      assert rows[0] + "\n" + "" == rows[0] + "\n";
    }
  }

  /** What follows the header of a mixin, line by line: the import lines its methods need, the line
      of that very class with its docstring, and then the removed lines, all of them and nothing
      else. */
  ghost predicate IsMixinOf(text: string, className: string, imports: seq<string>, removed: seq<string>) {
    exists rest ::
      && text == JoinLines(HeaderRows(className)) + "\n" + rest
      && SplitLines(rest) == (if imports == [] then [] else [""] + imports) + (["", ""] + (ClassRows(className) + removed))
  }

  lemma MixinLineByLine(h: Host, className: string, removed: seq<string>, source: string)
    requires IsLine(className) && AreLines(removed) && removed != [] && ImportLines(ImportsOf(h, removed, source))
    ensures var imports := if source != "" then h.imports(JoinLines(removed), source) else [];
            IsMixinOf(BuildMixinModule(h, className, removed, "", source), className, imports, removed)
  {
    hide SplitLines, IsLine, JoinLines, ImportBlock, HeaderRows, ClassRows, ImportLines, BuildMixinModule;
    MixinParts(h, className, removed, source);
    RestLineByLine(className, ImportsOf(h, removed, source), removed);
  }

  lemma RestLineByLine(className: string, imports: seq<string>, removed: seq<string>)
    requires IsLine(className) && AreLines(removed) && removed != [] && ImportLines(imports)
    ensures SplitLines(ImportBlock(imports) + ("\n\n" + (JoinLines(ClassRows(className)) + "\n" + (JoinLines(removed) + "\n" + ""))))
            == (if imports == [] then [] else [""] + imports) + (["", ""] + (ClassRows(className) + removed))
  {
    hide SplitLines, IsLine, JoinLines, ImportBlock;
    ClassRowsAreLines(className);
    SplitLinesOfJoined(removed, "");
    NothingLeft();
    var body := JoinLines(removed) + "\n" + "";
    assert removed + [] == removed && ClassRows(className) != [];
    hide ClassRows, ImportLines;
    SplitLinesOfJoined(ClassRows(className), body);
    ImportBlockRows(imports, JoinLines(ClassRows(className)) + "\n" + body);
  }

  /** So does what an extraction emits, for the class asked for and the lines of its diff. */
  lemma EmittedLineByLine(h: Host, files: Files, args: Args, stamp: string, path: string, text: string)
    requires ExtractWithDiff(h, files, args, stamp) == Emitted(path, text)
    requires var removed := Reconstructed(files[h.resolve(Arg(args, "diff_path"))]);
             IsLine(Arg(args, "class_name")) && ImportLines(ImportsOf(h, removed, TextAt(files, CorePath(h.root))))
    ensures var removed := Reconstructed(files[h.resolve(Arg(args, "diff_path"))]);
            var source := TextAt(files, CorePath(h.root));
            IsMixinOf(text, Arg(args, "class_name"), if source != "" then h.imports(JoinLines(removed), source) else [], removed)
  {
    hide IsMixinOf, IsLine, JoinLines, BuildMixinModule, CorePath, ImportLines, HasRootPrefix;
    ReconstructedAreLines(files[h.resolve(Arg(args, "diff_path"))]);
    MixinLineByLine(h, Arg(args, "class_name"), Reconstructed(files[h.resolve(Arg(args, "diff_path"))]), TextAt(files, CorePath(h.root)));
  }

  lemma NothingLeft()
    ensures SplitLines("") == []
  {
  }

  lemma ClassLineRows(className: string)
    ensures ClassLine(className) == JoinLines(ClassRows(className) + [""])
  {
    hide JoinLines;
    var rows := ClassRows(className);
    assert rows + [""] == [rows[0], rows[1], ""];
  }

  lemma MixinParts(h: Host, className: string, removed: seq<string>, source: string)
    ensures HeaderRows(className) != [] && ClassRows(className) != []
    ensures BuildMixinModule(h, className, removed, "", source)
            == JoinLines(HeaderRows(className)) + "\n" + (ImportBlock(ImportsOf(h, removed, source))
               + ("\n\n" + (JoinLines(ClassRows(className)) + "\n" + (JoinLines(removed) + "\n" + ""))))
  {
    hide JoinLines, ImportBlock;
    JoinWithFeed(HeaderRows(className));
    JoinWithFeed(ClassRows(className));
    assert PreambleRows(Docstring(className)) == HeaderRows(className) + [""];
    ClassLineRows(className);
    hide HeaderRows, ClassRows, Preamble, ClassLine;
    var p, i, c, b := Preamble(Docstring(className)), ImportBlock(ImportsOf(h, removed, source)), ClassLine(className), JoinLines(removed);
    assert p + i + "\n\n" + c + b + "\n" == p + (i + ("\n\n" + (c + (b + "\n" + ""))));
  }

  // ---------------------------------------------------------------- an extraction and its checks

  predicate NoSpace(s: string) {
    forall i :: 0 <= i < |s| ==> !IsSpace(s[i])
  }

  lemma {:induction false} RunStopsAtSpace(word: string, rest: string)
    requires NoSpace(word) && (rest == "" || IsSpace(rest[0]))
    ensures WordOf(word + rest) == word
  {
    if word != "" {
      assert (word + rest)[1..] == word[1..] + rest;
      RunStopsAtSpace(word[1..], rest);
    } else {
      assert word + rest == rest;
    }
  }

  lemma RunAfterBlank(path: string, rest: string)
    requires NoSpace(path) && path != "" && (rest != "" ==> IsSpace(rest[0]))
    ensures WordOf(LStrip(" " + (path + rest))) == path
  {
    var after := " " + (path + rest);
    assert after[1..] == path + rest;
    assert !IsSpace(after[1..][0]);
    RunStopsAtSpace(path, rest);
  }

  /** A tool's report names its artifact to the check that reads it. */
  lemma ReportNamesTheArtifact(head: string, tag: string, path: string, ext: string, rest: string, report: string)
    requires report == head + (tag + (" " + (path + rest))) && (rest != "" ==> IsSpace(rest[0]))
    requires forall i :: 0 <= i < |head| ==> !MatchAt(report, tag, i)
    requires NoSpace(path) && |path| > |ext| > 0 && EndsWith(path, ext)
    ensures Search(report, tag, ext, 0) == Some(path)
  {
    hide WordOf, LStrip, IsSpace, NoSpace;
    var after := " " + (path + rest);
    assert report[|head|..|head| + |tag|] == tag;
    FindIs(report, tag, 0, |head|);
    assert report[|head| + |tag|..] == after;
    RunAfterBlank(path, rest);
    LastMatchIs(path, ext);
    assert path[..|path|] == path;
  }

  lemma LastMatchIs(path: string, ext: string)
    requires |path| > |ext| > 0 && EndsWith(path, ext)
    ensures LastMatch(path, ext, |path|) == Some(|path| - |ext|)
  {
    LastMatchFrom(path, ext, |path|);
  }

  lemma {:induction false} LastMatchFrom(path: string, ext: string, upTo: nat)
    requires |path| > |ext| > 0 && EndsWith(path, ext) && |path| - |ext| <= upTo
    ensures LastMatch(path, ext, upTo) == Some(|path| - |ext|)
  {
    if upTo > |path| - |ext| { LastMatchFrom(path, ext, upTo - 1); }
  }

  lemma {:induction false} CountFeedsOfConcat(a: string, b: string)
    ensures CountFeeds(a + b) == CountFeeds(a) + CountFeeds(b)
  {
    if a == "" {
      assert a + b == b;
    } else {
      assert (a + b)[1..] == a[1..] + b;
      CountFeedsOfConcat(a[1..], b);
    }
  }

  lemma {:induction false} CountFeedsOfJoin(lines: seq<string>)
    ensures CountFeeds(JoinLines(lines)) + 1 >= |lines|
  {
    if |lines| > 1 {
      CountFeedsOfConcat(lines[0] + "\n", JoinLines(lines[1..]));
      CountFeedsOfConcat(lines[0], "\n");
      assert "\n"[1..] == "" && CountFeeds("\n") == 1;
      CountFeedsOfJoin(lines[1..]);
    }
  }

  lemma PreambleIsLong(doc: string)
    ensures CountFeeds(Preamble(doc)) >= 7
  {
    hide JoinLines, CountFeeds;
    CountFeedsOfJoin(PreambleRows(doc));
  }

  /** An emitted artifact also passes the shape check right after the tool. */
  lemma EmittedIsVerified(h: Host, files: Files, args: Args, stamp: string, path: string, text: string, later: Files)
    requires ExtractWithDiff(h, files, args, stamp) == Emitted(path, text)
    requires h.parse(text).Module? && Arg(args, "class_name") in h.parse(text).classes
    requires h.resolve(path) in later && later[h.resolve(path)] == text
    ensures VerifyArtifact(h, later, h.resolve(path), ExpectedShape(ToolExtract, args, path)) == Verified
  {
    EmittedText(h, files, args, stamp, path, text);
  }

  lemma EmittedText(h: Host, files: Files, args: Args, stamp: string, path: string, text: string)
    requires ExtractWithDiff(h, files, args, stamp) == Emitted(path, text)
    ensures CountFeeds(text) >= 4
  {
    hide CountFeeds, BuildMixinModule, CorePath;
    var removed := Reconstructed(files[h.resolve(Arg(args, "diff_path"))]);
    BuiltIsLong(h, Arg(args, "class_name"), removed, TextAt(files, CorePath(h.root)));
  }

  lemma BuiltIsLong(h: Host, className: string, removed: seq<string>, source: string)
    ensures CountFeeds(BuildMixinModule(h, className, removed, "", source)) >= 7
  {
    hide CountFeeds, Preamble, ClassLine, ImportBlock, ImportsOf, JoinLines, Docstring;
    var text := BuildMixinModule(h, className, removed, "", source);
    var head := Preamble(Docstring(className));
    PreambleIsLong(Docstring(className));
    CountFeedsOfConcat(head, text[|head|..]);
    assert head + text[|head|..] == text;
  }

  /** The same files pass the adversarial check later on, while nobody rewrites them. */
  lemma ExtractionPassesAdversarialCheck(h: Host, files: Files, args: Args, stamp: string, path: string, text: string,
                                         later: Files, artifact: string, diff: string)
    requires ExtractWithDiff(h, files, args, stamp) == Emitted(path, text)
    requires h.parse(text).Module? && |h.parse(text).classes| > 0 && h.parse(text).classes[0] == Arg(args, "class_name")
    requires artifact in later && later[artifact] == text && EndsWith(artifact, ".proposed")
    requires diff == h.resolve(Arg(args, "diff_path")) && diff != ""
    requires diff in files && diff in later && later[diff] == files[diff]
    requires h.root != "" && TextAt(later, CorePath(h.root)) == TextAt(files, CorePath(h.root))
    ensures AdversarialVerify(h, later, artifact, Some(diff), OptionalArg(args, "class_name"), None, h.root)
            == Attestation(true, Some(h.sha(text)), Some(h.sha(text)), ByDiffOracle, [])
  {
    hide ExtractWithDiff, CheckMixin, CorePath, Strip, StartsWith;
    ExtractedIsAccepted(h, files, args, stamp, diff, path, text);
  }
}
