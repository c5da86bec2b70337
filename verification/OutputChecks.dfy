/** The automatic check after an output tool and the adversarial check, told from what the tools
    return and from the files: which calls are checked, which file the check looks at, what it
    asks of that file, and which artifacts the adversarial check accepts. */
module OutputChecks {
  import opened Bytes
  import opened Text
  import opened DiffOracle
  import opened Artifacts
  import opened ExtractReport

  // ---------------------------------------------------------------- the adversarial check

  /** Exactly, for every artifact and every kind of it: a mixin proposal with its diff is accepted
      when the diff removes something and the text parses and is the rebuild for its own first
      class, or collides with it; any other diff when it starts like one; and anything else when
      it is not blank. What is missing is never accepted. */
  lemma AcceptedExactly(h: Host, files: Files, artifact: string, diff: Option<string>, asked: Option<string>,
                        sourceModule: Option<string>, repoRoot: string)
    ensures AdversarialVerify(h, files, artifact, diff, asked, sourceModule, repoRoot).ok <==>
              && artifact in files
              && var content := files[artifact];
                 if EndsWith(artifact, ".proposed") && diff.Some? && diff.value != "" && diff.value in files then
                   && Reconstructed(files[diff.value]) != [] && h.parse(content).Module?
                   && (|| content == Rebuilt(h, h.parse(content).classes, files[diff.value], asked, SourceText(files, sourceModule, repoRoot))
                       || TextsCollide(h, content, Rebuilt(h, h.parse(content).classes, files[diff.value], asked,
                                                           SourceText(files, sourceModule, repoRoot))))
                 else if EndsWith(artifact, ".diff") then "---" <= Strip(content)
                 else exists i :: 0 <= i < |content| && !IsSpace(content[i])
  {
    hide BuildMixinModule, SourceText, Reconstructed, Strip, IsSpace;
    if artifact in files {
      if IsFile(files, diff) {
        AcceptsExactlyTheRebuild(h, files[artifact], files[diff.value], asked, SourceText(files, sourceModule, repoRoot));
      }
      StripOfNonBlank(files[artifact]);
    }
  }

  lemma StripOfNonBlank(s: string)
    ensures |Strip(s)| < 1 <==> IsBlank(s)
  {
    hide IsBlank;
  }

  /** The class the rebuild is made for, and the source module its imports come from. */
  lemma RebuiltFor(h: Host, files: Files, classes: seq<string>, diff: string, asked: Option<string>, repoRoot: string)
    ensures var core := repoRoot + "/bridge/vapi_bridge/store/_core.py";
            var source := if repoRoot != "" && core in files then files[core] else "";
            var className := if classes != [] then classes[0] else if asked.Some? && asked.value != "" then asked.value
                             else "ExtractedMixin";
            Rebuilt(h, classes, diff, asked, SourceText(files, None, repoRoot))
            == BuildMixinModule(h, className, Reconstructed(diff), "", source)
  {
    hide BuildMixinModule, Reconstructed;
  }

  // ---------------------------------------------------------------- extractions

  /** Exactly when an extraction emits something: all three arguments are there, the diff exists
      under the root's prefix and removes something, and the mixin parses. What it emits goes to
      the proposals directory, under the target's name with slashes and dots underscored. */
  lemma EmitsExactly(h: Host, files: Files, args: Args, stamp: string)
    ensures var diff, className, target := Arg(args, "diff_path"), Arg(args, "class_name"), Arg(args, "target_path");
            var source := TextAt(files, h.root + "/bridge/vapi_bridge/store/_core.py");
            var text := BuildMixinModule(h, className, Reconstructed(TextAt(files, h.resolve(diff))), "", source);
            var e := ExtractWithDiff(h, files, args, stamp);
            && (e.Emitted? <==>
                  && diff != "" && className != "" && target != ""
                  && HasRootPrefix(h, diff) && h.resolve(diff) in files
                  && Reconstructed(files[h.resolve(diff)]) != [] && h.parse(text).Module?)
            && (e.Emitted? ==>
                  && e.text == text && |Underscored(target)| == |target|
                  && e.path == "docs/_daemon_proposals/newfile_" + stamp + "_" + Underscored(target) + ".proposed"
                  && forall i :: 0 <= i < |target| ==>
                       Underscored(target)[i] == if target[i] in ['/', '\\', '.'] then '_' else target[i])
  {
    hide BuildMixinModule, Reconstructed, HasRootPrefix, Underscored;
    UnderscoredAt(Arg(args, "target_path"));
  }

  // ---------------------------------------------------------------- calls that are not checked

  /** The check runs for the three output tools only, and not on the texts that say they failed. */
  lemma NotChecked(h: Host, files: Files, name: string, args: Args, result: string)
    requires || name !in ["extract_with_diff", "propose_edit", "write_file"]
             || result == "" || "Error:" <= result || "Error during" <= result || "BLOCKED:" <= result
             || "OPERATOR_HOLD" <= result || "RATE_LIMITED" <= result
    ensures RunPostOutputVerification(h, files, name, args, result) == NotRun
  {
    hide ResolveArtifact;
  }

  // ---------------------------------------------------------------- write_file

  lemma {:induction false} SlashesAt(s: string)
    ensures |ForwardSlashes(s)| == |s|
    ensures forall i :: 0 <= i < |s| ==> ForwardSlashes(s)[i] == if s[i] == '\\' then '/' else s[i]
  {
    if s != "" { SlashesAt(s[1..]); }
  }

  /** A file that was written is checked under its path with forward slashes: a Python file must
      parse, any other one must not be empty. */
  lemma WrittenFileIsChecked(h: Host, files: Files, args: Args, rest: string, path: string)
    requires "path" in args && args["path"] != "" && |path| == |args["path"]|
    requires forall i :: 0 <= i < |path| ==> path[i] == if args["path"][i] == '\\' then '/' else args["path"][i]
    ensures var check := RunPostOutputVerification(h, files, "write_file", args, "OK: wrote" + rest);
            if !HasRootPrefix(h, path) || h.resolve(path) !in files then check == Ran(path, None, false)
            else
              var content := files[h.resolve(path)];
              if !EndsWith(args["path"], ".py") then check == Ran(path, None, content != "")
              else if h.parse(content).Raised? then check == CheckFault
              else check == Ran(path, None, h.parse(content).Module?)
  {
    hide HasRootPrefix, ForwardSlashes, Utf8Length, Search, CountFeeds;
    SlashesAt(args["path"]);
    assert ForwardSlashes(args["path"]) == path;
    WroteIsNoFailure(rest);
    if h.resolve(path) in files {
      EmptyHasNoOctets(files[h.resolve(path)]);
    }
  }

  lemma WroteIsNoFailure(rest: string)
    ensures !IsFailure("OK: wrote" + rest) && "OK: wrote" <= "OK: wrote" + rest
  {
    var result := "OK: wrote" + rest;
    assert result[0] == 'O' && result[1] == 'K';
  }

  lemma EmptyHasNoOctets(s: string)
    ensures Utf8Length(s) >= 1 <==> s != ""
  {
  }

  // ---------------------------------------------------------------- propose_edit, and write_file proposals

  /** No tag that ends in a colon occurs where no colon follows the tag's last letter. */
  lemma NoTagByColon(s: string, tag: string, i: int)
    requires |tag| >= 2 && tag[|tag| - 1] == ':'
    requires forall j :: 0 < j < |s| && s[j] == ':' ==> s[j - 1] != tag[|tag| - 2]
    ensures !MatchAt(s, tag, i)
  {
    if MatchAt(s, tag, i) {
      MatchedAt(s, tag, i, |tag| - 1);
      MatchedAt(s, tag, i, |tag| - 2);
    }
  }

  /** A tagged line names its path when nothing before it matches the tag. */
  lemma TaggedPathIsFound(head: string, tag: string, path: string, ext: string, rest: string)
    requires |tag| >= 2 && tag[|tag| - 1] == ':' && ' ' !in tag
    requires forall j :: 0 < j < |head| && head[j] == ':' ==> head[j - 1] != tag[|tag| - 2]
    requires NoSpace(path) && |path| > |ext| > 0 && EndsWith(path, ext) && (rest != "" ==> IsSpace(rest[0]))
    ensures Search(head + " " + (tag + (" " + (path + rest))), tag, ext, 0) == Some(path)
  {
    hide NoSpace, EndsWith, Search, MatchAt, IsSpace;
    var more := tag + (" " + (path + rest));
    var report := head + " " + more;
    forall i | 0 <= i < |head + " "| ensures !MatchAt(report, tag, i) {
      MatchInParts(head, ' ', more, tag, i);
      NoTagByColon(head, tag, i);
    }
    ReportNamesTheArtifact(head + " ", tag, path, ext, rest, report);
  }

  /** The tool's report of an edit is read for its diff, which must exist and hold ten octets. */
  lemma ProposedEditIsChecked(h: Host, files: Files, args: Args, path: string, rest: string)
    requires NoSpace(path) && |path| > 5 && EndsWith(path, ".diff") && (rest != "" ==> IsSpace(rest[0]))
    ensures var report := "PROPOSAL GENERATED " + "(source file NOT modified):\n " + " " + ("diff:" + (" " + (path + rest)));
            RunPostOutputVerification(h, files, "propose_edit", args, report)
            == Ran(path, Some(path), HasRootPrefix(h, path) && h.resolve(path) in files && Utf8Length(files[h.resolve(path)]) >= 10)
  {
    hide HasRootPrefix, Search, Utf8Length, NoSpace, EndsWith, CountFeeds;
    var head := "PROPOSAL GENERATED " + "(source file NOT modified):\n ";
    EditHead();
    TaggedPathIsFound(head, "diff:", path, ".diff", rest);
    ProposalIsNoFailure(head + " " + ("diff:" + (" " + (path + rest))));
  }

  /** So is the report of a file that is only proposed, for the text it holds. */
  lemma ProposedFileIsChecked(h: Host, files: Files, args: Args, path: string, rest: string)
    requires NoSpace(path) && |path| > 9 && EndsWith(path, ".proposed") && (rest != "" ==> IsSpace(rest[0])) && "path" in args
    ensures var report := "NEW-FILE PROPOSAL WRITTEN " + "(source tree NOT modified):\n " + " " + ("content:" + (" " + (path + rest)));
            var check := RunPostOutputVerification(h, files, "write_file", args, report);
            if !HasRootPrefix(h, path) || h.resolve(path) !in files then check == Ran(path, None, false)
            else
              var content := files[h.resolve(path)];
              if !EndsWith(args["path"], ".py") then check == Ran(path, None, content != "")
              else if h.parse(content).Raised? then check == CheckFault
              else check == Ran(path, None, h.parse(content).Module?)
  {
    hide HasRootPrefix, Search, Utf8Length, NoSpace, EndsWith, CountFeeds;
    var head := "NEW-FILE PROPOSAL WRITTEN " + "(source tree NOT modified):\n ";
    FileHead();
    TaggedPathIsFound(head, "content:", path, ".proposed", rest);
    ProposalIsNoFailure(head + " " + ("content:" + (" " + (path + rest))));
    if h.resolve(path) in files {
      EmptyHasNoOctets(files[h.resolve(path)]);
    }
  }

  lemma FileHead()
    ensures var head := "NEW-FILE PROPOSAL WRITTEN " + "(source tree NOT modified):\n ";
            && head != "" && head[0] == 'N' && head[1] == 'E'
            && forall j :: 0 < j < |head| && head[j] == ':' ==> head[j - 1] == ')'
  {
    var a, b := "NEW-FILE PROPOSAL WRITTEN ", "(source tree NOT modified):\n ";
    var head := a + b;
    assert a[0] == 'N' && a[1] == 'E' && head[0] == a[0] && head[1] == a[1];
    assert ':' !in a && forall j :: 0 < j < |b| && b[j] == ':' ==> b[j - 1] == ')';
    assert b[0] == '(';
    ColonsOfConcat(a, b);
  }

  lemma ColonsOfConcat(a: string, b: string)
    requires ':' !in a && b != "" && b[0] != ':' && forall j :: 0 < j < |b| && b[j] == ':' ==> b[j - 1] == ')'
    ensures var head := a + b; forall j :: 0 < j < |head| && head[j] == ':' ==> head[j - 1] == ')'
  {
    var head := a + b;
    assert forall j :: 0 <= j < |a| ==> head[j] == a[j] && a[j] in a;
    assert forall j :: |a| <= j < |head| ==> head[j] == b[j - |a|];
  }

  lemma EditHead()
    ensures var head := "PROPOSAL GENERATED " + "(source file NOT modified):\n ";
            && head != "" && head[0] == 'P' && head[1] == 'R'
            && forall j :: 0 < j < |head| && head[j] == ':' ==> head[j - 1] == ')'
  {
    var a, b := "PROPOSAL GENERATED ", "(source file NOT modified):\n ";
    var head := a + b;
    assert a[0] == 'P' && a[1] == 'R' && head[0] == a[0] && head[1] == a[1];
    assert ':' !in a && forall j :: 0 < j < |b| && b[j] == ':' ==> b[j - 1] == ')';
    assert b[0] == '(';
    ColonsOfConcat(a, b);
  }

  lemma ProposalIsNoFailure(report: string)
    requires |report| > 1 && report[0] in ['P', 'N'] && report[1] in ['R', 'E']
    ensures !IsFailure(report) && !("OK: wrote" <= report)
  {
  }
}
