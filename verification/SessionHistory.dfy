/** A session told as its history: which of its calls were checked, what each review's verdict
    became and why, and what the conversation holds. */
module SessionHistory {
  import opened Bytes
  import opened Text
  import opened Artifacts
  import opened ReadyGate
  import RateLimit

  // ---------------------------------------------------------------- one call

  /** What the tool itself returns; None is the hard stop of `finalize_plan`. */
  function ToolText(a: Attempt): Option<string> {
    if a.name != "finalize_plan" then Some(a.result)
    else if a.fault == NoFault then None
    else Some("Error executing 'finalize_plan': " + a.result)
  }

  /** The call was let through and used the tool: its output is up for the automatic check. */
  predicate IsUsed(a: Attempt) {
    && a.allowed && ToolText(a).Some? && !a.recordRaises
    && var text := ToolText(a).value;
       !("BLOCKED:" <= text) && !("OPERATOR_HOLD" <= text) && !("RATE_LIMITED" <= text)
  }

  /** The automatic check after the call. */
  function CheckAfter(h: Host, a: Attempt): PostCheck {
    if IsUsed(a) then RunPostOutputVerification(h, a.files, a.name, a.args, ToolText(a).value) else NotRun
  }

  predicate FailedCheck(h: Host, a: Attempt) {
    CheckAfter(h, a).Ran? && !CheckAfter(h, a).ok
  }

  /** The call wrote a review. */
  predicate WritesReview(a: Attempt) {
    a.allowed && a.name == "finalize_plan" && a.fault != BeforeReview
  }

  /** The artifacts that were checked, in the order of the calls. */
  function Checked(h: Host, made: seq<Attempt>): seq<Recorded> {
    if made == [] then [] else
      var a := made[|made| - 1];
      var check := CheckAfter(h, a);
      Checked(h, made[..|made| - 1])
      + (if check.Ran? then [Recorded(check.artifact, check.diff, OptionalArg(a.args, "class_name"))] else [])
  }

  function ReviewCount(made: seq<Attempt>): nat {
    if made == [] then 0 else ReviewCount(made[..|made| - 1]) + (if WritesReview(made[|made| - 1]) then 1 else 0)
  }

  /** What one call does to the gate. */
  lemma ExecInHistory(h: Host, g: Gate, a: Attempt)
    ensures var t := Exec(h, g, a).0;
            var check := CheckAfter(h, a);
            && t.fabrication == (g.fabrication || FailedCheck(h, a))
            && t.artifacts == g.artifacts
                 + (if check.Ran? then [Recorded(check.artifact, check.diff, OptionalArg(a.args, "class_name"))] else [])
            && t.reviews == g.reviews + (if WritesReview(a) then [NewReview(h, g, a)] else [])
  {
    hide RunPostOutputVerification, NewReview, Annotated, RateLimit.IsUncounted, Inner;
    InnerInHistory(h, g, a);
    UncountedTexts();
    assert g.reviews + [] == g.reviews && g.artifacts + [] == g.artifacts;
  }

  lemma InnerInHistory(h: Host, g: Gate, a: Attempt)
    ensures var (t, out) := Inner(h, g, a);
            && t == g.(reviews := if a.name == "finalize_plan" && a.fault != BeforeReview then g.reviews + [NewReview(h, g, a)] else g.reviews)
            && out == (if ToolText(a).None? then HardStop else Returned(ToolText(a).value))
  {
    hide NewReview;
  }

  lemma UncountedTexts()
    ensures forall text :: RateLimit.IsUncounted(text) <==>
              "BLOCKED:" <= text || "OPERATOR_HOLD" <= text || "RATE_LIMITED" <= text
  {
  }

  /** The gate of a session, from its calls alone: the flag is up when an automatic check failed,
      the artifacts are those that were checked, and every review is one of a call. */
  lemma {:induction false} GateIsItsHistory(h: Host, made: seq<Attempt>)
    ensures var g := RunAll(h, Fresh(), made);
            && (g.fabrication <==> exists m :: 0 <= m < |made| && FailedCheck(h, made[m]))
            && g.artifacts == Checked(h, made)
            && |g.reviews| == ReviewCount(made)
  {
    hide Exec, NewReview, FailedCheck, CheckAfter, WritesReview;
    if made != [] {
      var k := |made| - 1;
      GateIsItsHistory(h, made[..k]);
      ExecInHistory(h, RunAll(h, Fresh(), made[..k]), made[k]);
      assert forall m :: 0 <= m < k ==> made[..k][m] == made[m];
    }
  }

  // ---------------------------------------------------------------- every verdict

  /** The verdict of the review that call n writes, for any verdict asked for. What does not read
      READY is written as it was asked. READY becomes BLOCKED_FABRICATION exactly when the check
      after an earlier call failed, BLOCKED_ADVERSARIAL exactly when none failed and an artifact
      checked earlier, which the gate does not skip, fails the adversarial check on the files of
      this moment, and stands as it was asked otherwise. */
  lemma VerdictExactly(h: Host, made: seq<Attempt>, n: nat)
    requires n < |made| && WritesReview(made[n])
    ensures var reviews, i := RunAll(h, Fresh(), made).reviews, ReviewCount(made[..n]);
            i < |reviews| &&
            var verdict, asked := reviews[i].verdict, Arg(made[n].args, "verdict");
            var failed := exists m :: 0 <= m < n && FailedCheck(h, made[m]);
            var exposed := exists r :: r in Checked(h, made[..n]) && r.artifact != "" && HasRootPrefix(h, r.artifact)
                                       && !Passes(h, made[n].files, r);
            && (Upper(Strip(asked)) != "READY" ==> verdict == asked)
            && (Upper(Strip(asked)) == "READY" ==>
                  && (verdict == "BLOCKED_FABRICATION" <==> failed)
                  && (verdict == "BLOCKED_ADVERSARIAL" <==> !failed && exposed)
                  && (!failed && !exposed ==> verdict == asked))
  {
    hide Exec, Passes, HasRootPrefix, FailedCheck, CheckAfter, WritesReview, Upper, Strip, GatedVerdict;
    var g := RunAll(h, Fresh(), made[..n]);
    GateIsItsHistory(h, made[..n]);
    ReviewOfCall(h, made, n);
    GatedExactly(h, g, Arg(made[n].args, "verdict"), made[n].files);
    assert forall m :: 0 <= m < n ==> made[..n][m] == made[m];
  }

  lemma GatedExactly(h: Host, g: Gate, asked: string, files: Files)
    ensures var verdict := GatedVerdict(h, g, asked, files);
            var exposed := exists r :: r in g.artifacts && r.artifact != "" && HasRootPrefix(h, r.artifact) && !Passes(h, files, r);
            && (Upper(Strip(asked)) != "READY" ==> verdict == asked)
            && (Upper(Strip(asked)) == "READY" ==>
                  && (verdict == "BLOCKED_FABRICATION" <==> g.fabrication)
                  && (verdict == "BLOCKED_ADVERSARIAL" <==> !g.fabrication && exposed)
                  && (!g.fabrication && !exposed ==> verdict == asked))
  {
    FailingIsEmpty(h, files, g.artifacts);
    BlockedIsNotReady();
    hide Passes, HasRootPrefix, Upper, Strip, Failing;
    DifferentWords();
    var exposed := exists r :: r in g.artifacts && r.artifact != "" && HasRootPrefix(h, r.artifact) && !Passes(h, files, r);
    assert exposed <==> !(forall i :: 0 <= i < |g.artifacts| ==> Skipped(h, g.artifacts[i]) || Passes(h, files, g.artifacts[i]));
  }

  lemma DifferentWords()
    ensures "BLOCKED_FABRICATION" != "BLOCKED_ADVERSARIAL"
  {
    assert |"BLOCKED_FABRICATION"| == 19 && |"BLOCKED_ADVERSARIAL"| == 19;
    assert "BLOCKED_FABRICATION"[8] == 'F' && "BLOCKED_ADVERSARIAL"[8] == 'A';
  }

  /** The review a call writes stays in its place. */
  lemma {:induction false} ReviewOfCall(h: Host, made: seq<Attempt>, n: nat)
    requires n < |made| && WritesReview(made[n])
    ensures var g := RunAll(h, Fresh(), made[..n]);
            var reviews, i := RunAll(h, Fresh(), made).reviews, ReviewCount(made[..n]);
            i < |reviews| && reviews[i] == NewReview(h, g, made[n])
  {
    hide Exec, NewReview, FailedCheck, CheckAfter, WritesReview;
    var k := |made| - 1;
    ExecInHistory(h, RunAll(h, Fresh(), made[..k]), made[k]);
    if n < k {
      assert made[..k][..n] == made[..n];
      ReviewOfCall(h, made[..k], n);
    } else {
      GateIsItsHistory(h, made[..n]);
    }
  }

  // ---------------------------------------------------------------- the conversation

  /** The calls of the first n replies, and for each call the reply it stands in. */
  function CallsOf(llm: nat -> Turn, n: nat): seq<Attempt> {
    if n == 0 then [] else CallsOf(llm, n - 1) + (if llm(n - 1).Turn? then llm(n - 1).calls else [])
  }

  function RepliesOf(llm: nat -> Turn, n: nat): (replies: seq<string>)
    ensures |replies| == |CallsOf(llm, n)|
  {
    if n == 0 then [] else
      RepliesOf(llm, n - 1) + (if llm(n - 1).Turn? then Repeat(llm(n - 1).response, |llm(n - 1).calls|) else [])
  }

  /** The entries show the first k calls, in order: the reply, then the tool's name, arguments and
      result. */
  ghost predicate Shows(h: Host, g: Gate, made: seq<Attempt>, replies: seq<string>, k: nat, entries: seq<Entry>) {
    && |entries| == 2 * k && k <= |made| && k <= |replies|
    && forall i :: 0 <= i < k ==>
         && OutcomeAt(h, g, made, i).Returned?
         && entries[2 * i] == Answered(replies[i])
         && entries[2 * i + 1] == ToolResult(made[i].name, made[i].args, OutcomeAt(h, g, made, i).text)
  }

  /** How many of a message's calls came back with a result: all, or all but the last. */
  function Answers(h: Host, g: Gate, made: seq<Attempt>): nat {
    if made != [] && !OutcomeAt(h, g, made, |made| - 1).Returned? then |made| - 1 else |made|
  }

  lemma ShowsMore(h: Host, g: Gate, a: seq<Attempt>, ra: seq<string>, ea: seq<Entry>,
                  b: seq<Attempt>, rb: seq<string>, k: nat, eb: seq<Entry>)
    requires |ra| == |a| && Shows(h, g, a, ra, |a|, ea) && Shows(h, RunAll(h, g, a), b, rb, k, eb)
    ensures Shows(h, g, a + b, ra + rb, |a| + k, ea + eb)
  {
    hide Exec, RunAll, OutcomeAt;
    var entries := ea + eb;
    forall i | 0 <= i < |a| + k
      ensures && OutcomeAt(h, g, a + b, i).Returned?
              && entries[2 * i] == Answered((ra + rb)[i])
              && entries[2 * i + 1] == ToolResult((a + b)[i].name, (a + b)[i].args, OutcomeAt(h, g, a + b, i).text)
    {
      OutcomeOfConcat(h, g, a, b, i);
      if i >= |a| {
        var j := i - |a|;
        assert entries[2 * i] == eb[2 * j] && entries[2 * i + 1] == eb[2 * j + 1];
      }
    }
  }

  /** One reply's calls. */
  lemma {:induction false} ReplyIsShown(h: Host, s: Session, response: string, calls: seq<Attempt>) returns (entries: seq<Entry>)
    ensures var (t, n, ending) := RunCalls(h, s, response, calls);
            var made := calls[..n];
            && t.conversation == s.conversation + entries
            && Shows(h, s.gate, made, Repeat(response, n), Answers(h, s.gate, made), entries)
            && (ending.None? ==> Answers(h, s.gate, made) == n)
  {
    hide Exec, RunAll;
    entries := [];
    if calls != [] {
      var k := |calls| - 1;
      entries := ReplyIsShown(h, s, response, calls[..k]);
      var before := RunCalls(h, s, response, calls[..k]);
      CallsAreARun(h, s, response, calls[..k]);
      if before.2.None? {
        assert calls[..k][..k] == calls[..k] && calls[..|calls|] == calls;
        entries := OneCallIsShown(h, s, response, calls, before.0, entries);
      } else {
        assert calls[..k][..before.1] == calls[..before.1];
      }
    }
  }

  lemma OneCallIsShown(h: Host, s: Session, response: string, calls: seq<Attempt>, before: Session, shown: seq<Entry>)
    returns (entries: seq<Entry>)
    requires calls != []
    requires var k := |calls| - 1;
             && before.gate == RunAll(h, s.gate, calls[..k]) && before.conversation == s.conversation + shown
             && RunCalls(h, s, response, calls[..k]) == (before, k, None)
             && Shows(h, s.gate, calls[..k], Repeat(response, k), k, shown)
    ensures var (t, n, ending) := RunCalls(h, s, response, calls);
            && n == |calls|
            && t.conversation == s.conversation + entries
            && Shows(h, s.gate, calls, Repeat(response, |calls|), Answers(h, s.gate, calls), entries)
            && (ending.None? ==> Answers(h, s.gate, calls) == |calls|)
  {
    hide Exec, RunAll;
    var k := |calls| - 1;
    var out := OutcomeAt(h, s.gate, calls, k);
    entries := shown + (if out.Returned? then [Answered(response), ToolResult(calls[k].name, calls[k].args, out.text)] else []);
    forall i | 0 <= i < k ensures OutcomeAt(h, s.gate, calls, i) == OutcomeAt(h, s.gate, calls[..k], i) && calls[..k][i] == calls[i] {
      assert calls[..k][..i] == calls[..i];
    }
    assert out.Returned? ==> before.conversation + [Answered(response), ToolResult(calls[k].name, calls[k].args, out.text)]
                             == s.conversation + entries;
  }

  /** The first k replies are neither empty nor final: each holds calls. */
  ghost predicate Continues(llm: nat -> Turn, k: nat) {
    forall t: nat :: t < k ==> llm(t).Turn? && llm(t).response != "" && llm(t).calls != []
  }

  /** Turn m ended the message as its reply says. */
  ghost predicate EndedBy(ending: Ending, t: Turn) {
    match ending
    case Final => t.Turn? && t.response != "" && t.calls == []
    case EmptyResponse => t.Turn? && t.response == ""
    case Halted => t.Turn? && t.response != "" && t.calls != []
    case Errored => t.Turn? ==> t.response != "" && t.calls != []
    case Exhausted => false
  }

  /** What stands after the calls' entries. */
  function Closing(p: Progress, llm: nat -> Turn, m: nat): seq<Entry> {
    if p.ending == Some(Final) && m > 0 && llm(m - 1).Turn? then [Answered(llm(m - 1).response)] else []
  }

  /** After any number of turns the conversation holds every call that came back, with its reply,
      name, arguments and result, in order, before the next reply is asked for; and then the final
      answer, if the turn m was the last one. */
  lemma {:induction false} TurnsAreShown(h: Host, s: Session, llm: nat -> Turn, n: nat) returns (entries: seq<Entry>, m: nat)
    ensures var p := Turns(h, s, llm, n);
            && m <= n && (p.ending.None? ==> m == n && Continues(llm, m))
            && (p.ending.Some? ==> m > 0 && Continues(llm, m - 1) && EndedBy(p.ending.value, llm(m - 1)))
            && p.made <= CallsOf(llm, m) && (p.ending.None? ==> p.made == CallsOf(llm, m))
            && Shows(h, s.gate, p.made, RepliesOf(llm, m), Answers(h, s.gate, p.made), entries)
            && (p.ending.None? ==> Answers(h, s.gate, p.made) == |p.made|)
            && p.session.conversation == s.conversation + entries + Closing(p, llm, m)
  {
    hide Exec, RunCalls, RunAll, OutcomeAt, TurnOf, Shows, Answers, RepliesOf, EndedBy;
    entries, m := [], n;
    if n == 0 {
      NothingIsShown(h, s.gate, llm);
      assert s.conversation + [] + [] == s.conversation;
    } else {
      var q := Turns(h, s, llm, n - 1);
      entries, m := TurnsAreShown(h, s, llm, n - 1);
      if q.ending.None? {
        TurnsAreARun(h, s, llm, n - 1);
        entries := TurnIsShown(h, s, llm, n, q, entries);
        m := n;
      }
    }
  }

  lemma NothingIsShown(h: Host, g: Gate, llm: nat -> Turn)
    ensures Shows(h, g, [], RepliesOf(llm, 0), Answers(h, g, []), []) && Answers(h, g, []) == 0
  {
  }

  lemma TurnIsShown(h: Host, s: Session, llm: nat -> Turn, n: nat, q: Progress, shown: seq<Entry>) returns (entries: seq<Entry>)
    requires n > 0 && q.ending.None? && q.made == CallsOf(llm, n - 1) && q.session.gate == RunAll(h, s.gate, q.made)
    requires Shows(h, s.gate, q.made, RepliesOf(llm, n - 1), |q.made|, shown)
    requires Answers(h, s.gate, q.made) == |q.made|
    requires q.session.conversation == s.conversation + shown
    ensures var p := TurnOf(h, q, llm(n - 1));
            && (if p.ending.None? then llm(n - 1).Turn? && llm(n - 1).response != "" && llm(n - 1).calls != []
                else EndedBy(p.ending.value, llm(n - 1)))
            && p.made <= CallsOf(llm, n) && (p.ending.None? ==> p.made == CallsOf(llm, n))
            && Shows(h, s.gate, p.made, RepliesOf(llm, n), Answers(h, s.gate, p.made), entries)
            && (p.ending.None? ==> Answers(h, s.gate, p.made) == |p.made|)
            && p.session.conversation == s.conversation + entries + Closing(p, llm, n)
  {
    hide Exec, RunCalls, RunAll, OutcomeAt, Shows, Answers;
    NothingMoreIsShown(h, s.gate, q.made, RepliesOf(llm, n - 1), shown, llm, n);
    entries := shown;
    var t := llm(n - 1);
    if t.Turn? && t.response != "" && t.calls != [] {
      var r := RunCalls(h, q.session, t.response, t.calls);
      var more := ReplyIsShown(h, q.session, t.response, t.calls);
      CallsAreARun(h, q.session, t.response, t.calls);
      entries := shown + more;
      RepliesJoin(h, s.gate, q.made, RepliesOf(llm, n - 1), shown, t, r.1, more);
    }
  }

  /** A longer list of replies shows the same calls. */
  lemma NothingMoreIsShown(h: Host, g: Gate, made: seq<Attempt>, replies: seq<string>, shown: seq<Entry>, llm: nat -> Turn, n: nat)
    requires n > 0 && replies == RepliesOf(llm, n - 1) && Shows(h, g, made, replies, |made|, shown)
    ensures Shows(h, g, made, RepliesOf(llm, n), |made|, shown)
  {
    hide Exec, RunAll, OutcomeAt;
  }

  lemma RepliesJoin(h: Host, g: Gate, made: seq<Attempt>, replies: seq<string>, shown: seq<Entry>, t: Turn, n: nat, more: seq<Entry>)
    requires t.Turn? && n <= |t.calls| && |replies| == |made| && Shows(h, g, made, replies, |made|, shown)
    requires var calls := t.calls[..n]; var g1 := RunAll(h, g, made);
             Shows(h, g1, calls, Repeat(t.response, n), Answers(h, g1, calls), more)
    ensures var all := made + t.calls[..n];
            && Answers(h, g, all) == |made| + Answers(h, RunAll(h, g, made), t.calls[..n])
            && Shows(h, g, all, replies + Repeat(t.response, |t.calls|), Answers(h, g, all), shown + more)
  {
    hide Exec, RunAll, OutcomeAt;
    var calls := t.calls[..n];
    if calls != [] {
      OutcomeOfConcat(h, g, made, calls, |made + calls| - 1);
    } else {
      assert made + calls == made;
    }
    ShowsMore(h, g, made, replies, shown, calls, Repeat(t.response, n), Answers(h, RunAll(h, g, made), calls), more);
  }

  lemma LastReply(h: Host, s: Session, llm: nat -> Turn, n: nat)
    requires n > 0 && Turns(h, s, llm, n).ending.None?
    ensures llm(n - 1).Turn? && Turns(h, s, llm, n).last == llm(n - 1).response
  {
    hide RunCalls;
  }

  /** The whole conversation of a message: what was asked; every call that came back, with the
      reply it stands in, its name, arguments and result, in order; and the answer at the end, which
      is the last reply when it holds no call, or the notice that 80 turns were not enough. */
  lemma MessageIsShown(h: Host, s: Session, text: string, llm: nat -> Turn) returns (entries: seq<Entry>, m: nat)
    ensures var p := Message(h, s, text, llm);
            && m <= 80 && p.made <= CallsOf(llm, m)
            && Shows(h, s.gate, p.made, RepliesOf(llm, m), Answers(h, s.gate, p.made), entries)
            && p.ending.Some?
            && (if p.ending == Some(Exhausted) then m == 80 && Continues(llm, 80)
                else m > 0 && Continues(llm, m - 1) && EndedBy(p.ending.value, llm(m - 1)))
            && p.session.conversation == s.conversation + [Asked(text)] + entries
                 + (if p.ending == Some(Final) then [Answered(llm(m - 1).response)]
                    else if p.ending == Some(Exhausted) then [Answered("I reached the maximum number of tool iterations (80). Here's what I have so far:\n\n"
                                                                         + llm(79).response)]
                    else [])
  {
    hide Exec, RunCalls, RunAll, OutcomeAt, Turns, Shows, Answers, RepliesOf, CallsOf, Continues;
    var start := Session(s.gate, s.conversation + [Asked(text)]);
    entries, m := TurnsAreShown(h, start, llm, 80);
    var q := Turns(h, start, llm, 80);
    if q.ending.None? {
      LastReply(h, start, llm, 80);
    }
  }
}
