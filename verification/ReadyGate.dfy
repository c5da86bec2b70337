/** A session of the daemon's brain: tools run with an automatic check of what they produce,
    the review gate that decides whether READY stands, and the message loop around them. */
module ReadyGate {
  import opened Bytes
  import opened Text
  import opened Artifacts
  import opened ExtractReport
  import RateLimit

  const MAX_TOOL_ITERATIONS: nat := 80

  // ---------------------------------------------------------------- state

  datatype Recorded = Recorded(artifact: string, diff: Option<string>, className: Option<string>)

  /** A review package: its verdict, and what was recorded and on disk when it was gated. */
  datatype Review = Review(verdict: string, artifacts: seq<Recorded>, files: Files)

  /** What outlives a message: the fabrication flag, the artifacts, the reviews written. */
  datatype Gate = Gate(fabrication: bool, artifacts: seq<Recorded>, reviews: seq<Review>)

  function Fresh(): Gate {
    Gate(false, [], [])
  }

  datatype Fault = NoFault | BeforeReview | AfterReview

  /** One tool call and what its surroundings do: the limiter's answer, the text the tool returns,
      the files as they are when its output is checked, whether recording the call raises, and
      where `finalize_plan` raises if it does. */
  datatype Attempt = Attempt(
    name: string, args: Args, allowed: bool, result: string, files: Files, recordRaises: bool, fault: Fault)

  datatype Outcome = Returned(text: string) | HardStop | Raises

  // ---------------------------------------------------------------- the gate

  predicate IsReady(verdict: string) {
    Upper(Strip(verdict)) == "READY"
  }

  predicate Skipped(h: Host, r: Recorded) {
    r.artifact == "" || !HasRootPrefix(h, r.artifact)
  }

  function DiffPath(h: Host, diff: Option<string>): Option<string> {
    if diff.None? || diff.value == "" || !HasRootPrefix(h, diff.value) then None else Some(h.resolve(diff.value))
  }

  predicate Passes(h: Host, files: Files, r: Recorded) {
    AdversarialVerify(h, files, h.resolve(r.artifact), DiffPath(h, r.diff), r.className, None, h.root).ok
  }

  /** The artifacts that fail the adversarial check, in order. */
  function Failing(h: Host, files: Files, artifacts: seq<Recorded>): seq<Recorded> {
    if artifacts == [] then [] else
      var r := artifacts[|artifacts| - 1];
      Failing(h, files, artifacts[..|artifacts| - 1]) + (if Skipped(h, r) || Passes(h, files, r) then [] else [r])
  }

  function GatedVerdict(h: Host, g: Gate, verdict: string, files: Files): string {
    if !IsReady(verdict) then verdict
    else if g.fabrication then "BLOCKED_FABRICATION"
    else if Failing(h, files, g.artifacts) != [] then "BLOCKED_ADVERSARIAL"
    else verdict
  }

  function NewReview(h: Host, g: Gate, a: Attempt): Review {
    Review(GatedVerdict(h, g, Arg(a.args, "verdict"), a.files), g.artifacts, a.files)
  }

  function Reviewed(h: Host, g: Gate, a: Attempt): Gate {
    g.(reviews := g.reviews + [NewReview(h, g, a)])
  }

  // ---------------------------------------------------------------- one tool call

  predicate Finalizes(a: Attempt) {
    a.name == "finalize_plan"
  }

  /** `_execute_tool_inner`: every fault but the hard stop becomes a text. */
  function Inner(h: Host, g: Gate, a: Attempt): (Gate, Outcome) {
    if !Finalizes(a) then (g, Returned(a.result))
    else match a.fault
      case BeforeReview => (g, Returned("Error executing 'finalize_plan': " + a.result))
      case AfterReview => (Reviewed(h, g, a), Returned("Error executing 'finalize_plan': " + a.result))
      case NoFault => (Reviewed(h, g, a), HardStop)
  }

  function Annotated(text: string, artifact: string, ok: bool): string {
    text + "\n\n--- AUTO verify_artifact (Tier 1.1) ---\n"
    + (if ok then "VERIFIED: " + artifact + "\n"
       else "FABRICATION_DETECTED: " + artifact + "\n" + "\nDo NOT claim this artifact is complete.")
  }

  /** What the check after a tool's output does to the session. */
  function AfterOutput(g: Gate, check: PostCheck, className: Option<string>, text: string): (Gate, Outcome) {
    match check
    case NotRun => (g, Returned(text))
    case CheckFault => (g, Raises)
    case Ran(artifact, diff, ok) =>
      (Gate(g.fabrication || !ok, g.artifacts + [Recorded(artifact, diff, className)], g.reviews),
       Returned(Annotated(text, artifact, ok)))
  }

  /** `_execute_tool` */
  function Exec(h: Host, g: Gate, a: Attempt): (Gate, Outcome) {
    if !a.allowed then (g, Returned("RATE_LIMITED: " + a.result))
    else
      var (g1, out) := Inner(h, g, a);
      if !out.Returned? || RateLimit.IsUncounted(out.text) then (g1, out)
      else if a.recordRaises then (g1, Raises)
      else AfterOutput(g1, RunPostOutputVerification(h, a.files, a.name, a.args, out.text), OptionalArg(a.args, "class_name"), out.text)
  }

  // ---------------------------------------------------------------- a message

  datatype Entry = Asked(text: string) | Answered(text: string) | ToolResult(name: string, args: Args, text: string)

  datatype Ending = Final | EmptyResponse | Exhausted | Halted | Errored

  /** What asking the model gives: its reply and the tool calls parsed from it, or an error after
      the last retry. */
  datatype Turn = Turn(response: string, calls: seq<Attempt>) | ModelRaised

  datatype Session = Session(gate: Gate, conversation: seq<Entry>)

  function AppendResult(s: Session, response: string, a: Attempt, g: Gate, text: string): Session {
    Session(g, s.conversation + [Answered(response), ToolResult(a.name, a.args, text)])
  }

  /** The calls of one reply in order, up to the first that does not return: the session, the
      number of calls made, and how it ended if it did. */
  function RunCalls(h: Host, s: Session, response: string, calls: seq<Attempt>): (r: (Session, nat, Option<Ending>))
    ensures r.1 <= |calls| && (r.2.None? ==> r.1 == |calls|)
  {
    if calls == [] then (s, 0, None)
    else
      var before := RunCalls(h, s, response, calls[..|calls| - 1]);
      if before.2.Some? then before
      else
        var a := calls[|calls| - 1];
        var (g, out) := Exec(h, before.0.gate, a);
        match out
        case Returned(text) => (AppendResult(before.0, response, a, g, text), |calls|, None)
        case HardStop => (before.0.(gate := g), |calls|, Some(Halted))
        case Raises => (before.0.(gate := g), |calls|, Some(Errored))
  }

  function Fallback(last: string): string {
    "I reached the maximum number of tool iterations (80). Here's what I have so far:\n\n" + last
  }

  /** Part of a message's loop: the session, the attempts made, how it ended if it did, and the
      last reply. */
  datatype Progress = Progress(session: Session, made: seq<Attempt>, ending: Option<Ending>, last: string)

  function TurnOf(h: Host, p: Progress, t: Turn): Progress
    requires p.ending.None?
  {
    if t.ModelRaised? then p.(ending := Some(Errored))
    else if t.response == "" then p.(ending := Some(EmptyResponse))
    else if t.calls == [] then
      p.(session := p.session.(conversation := p.session.conversation + [Answered(t.response)]), ending := Some(Final))
    else
      var r := RunCalls(h, p.session, t.response, t.calls);
      Progress(r.0, p.made + t.calls[..r.1], r.2, if r.2.None? then t.response else p.last)
  }

  /** The first n turns of the loop of `process_message`; the model may answer anything at any
      turn. */
  function Turns(h: Host, s: Session, llm: nat -> Turn, n: nat): Progress {
    if n == 0 then Progress(s, [], None, "")
    else
      var p := Turns(h, s, llm, n - 1);
      if p.ending.Some? then p else TurnOf(h, p, llm(n - 1))
  }

  function Message(h: Host, s: Session, text: string, llm: nat -> Turn): Progress {
    var p := Turns(h, Session(s.gate, s.conversation + [Asked(text)]), llm, MAX_TOOL_ITERATIONS);
    if p.ending.Some? then p
    else p.(session := p.session.(conversation := p.session.conversation + [Answered(Fallback(p.last))]), ending := Some(Exhausted))
  }

  // ---------------------------------------------------------------- the brain

  class Brain {
    const host: Host
    var conversation: seq<Entry>
    var fabricationDetected: bool
    var sessionArtifacts: seq<Recorded>
    var reviews: seq<Review>

    function TheGate(): Gate
      reads this
    {
      Gate(fabricationDetected, sessionArtifacts, reviews)
    }

    constructor (h: Host)
      ensures host == h && TheGate() == Fresh() && conversation == []
    {
      host := h;
      conversation, fabricationDetected, sessionArtifacts, reviews := [], false, [], [];
    }

    /** The gate at the top of `finalize_plan`. */
    method GateVerdict(verdict: string, files: Files) returns (gated: string)
      ensures gated == GatedVerdict(host, TheGate(), verdict, files)
    {
      gated := verdict;
      if Upper(Strip(verdict)) == "READY" {
        if fabricationDetected {
          gated := "BLOCKED_FABRICATION";
        } else {
          var failures := [];
          for i := 0 to |sessionArtifacts|
            invariant failures == Failing(host, files, sessionArtifacts[..i])
          {
            assert sessionArtifacts[..i + 1][..i] == sessionArtifacts[..i];
            var r := sessionArtifacts[i];
            if r.artifact == "" || !HasRootPrefix(host, r.artifact) {
              continue;
            }
            var attestation := AdversarialVerify(host, files, host.resolve(r.artifact), DiffPath(host, r.diff), r.className, None, host.root);
            if !attestation.ok {
              failures := failures + [r];
            }
          }
          assert sessionArtifacts[..|sessionArtifacts|] == sessionArtifacts;
          if failures != [] {
            gated := "BLOCKED_ADVERSARIAL";
          }
        }
      }
    }

    method ExecuteToolInner(a: Attempt) returns (out: Outcome)
      modifies this
      ensures (TheGate(), out) == Inner(host, old(TheGate()), a)
      ensures conversation == old(conversation)
    {
      if a.name == "finalize_plan" {
        if a.fault == BeforeReview {
          return Returned("Error executing 'finalize_plan': " + a.result);
        }
        var verdict := GateVerdict(Arg(a.args, "verdict"), a.files);
        reviews := reviews + [Review(verdict, sessionArtifacts, a.files)];
        if a.fault == AfterReview {
          return Returned("Error executing 'finalize_plan': " + a.result);
        }
        return HardStop;
      }
      return Returned(a.result);
    }

    method ExecuteTool(a: Attempt) returns (out: Outcome)
      modifies this
      ensures (TheGate(), out) == Exec(host, old(TheGate()), a)
      ensures conversation == old(conversation)
    {
      if !a.allowed {
        return Returned("RATE_LIMITED: " + a.result);
      }
      out := ExecuteToolInner(a);
      if out.Returned? && !RateLimit.IsUncounted(out.text) {
        if a.recordRaises {
          return Raises;
        }
        match RunPostOutputVerification(host, a.files, a.name, a.args, out.text) {
          case NotRun =>
          case CheckFault =>
            return Raises;
          case Ran(artifact, diff, ok) =>
            sessionArtifacts := sessionArtifacts + [Recorded(artifact, diff, OptionalArg(a.args, "class_name"))];
            if !ok {
              fabricationDetected := true;
            }
            out := Returned(Annotated(out.text, artifact, ok));
        }
      }
    }

    /** One reply's tool calls. */
    method MakeCalls(response: string, calls: seq<Attempt>) returns (made: nat, ending: Option<Ending>)
      modifies this
      ensures (Session(TheGate(), conversation), made, ending)
           == RunCalls(host, Session(old(TheGate()), old(conversation)), response, calls)
    {
      for i := 0 to |calls|
        invariant RunCalls(host, Session(old(TheGate()), old(conversation)), response, calls[..i])
               == (Session(TheGate(), conversation), i, None)
      {
        assert calls[..i + 1][..i] == calls[..i];
        var out := ExecuteTool(calls[i]);
        match out {
          case Returned(text) =>
            conversation := conversation + [Answered(response), ToolResult(calls[i].name, calls[i].args, text)];
          case HardStop =>
            StoppedEarly(host, Session(old(TheGate()), old(conversation)), response, calls, i + 1);
            return i + 1, Some(Halted);
          case Raises =>
            StoppedEarly(host, Session(old(TheGate()), old(conversation)), response, calls, i + 1);
            return i + 1, Some(Errored);
        }
      }
      assert calls[..|calls|] == calls;
      return |calls|, None;
    }

    method ProcessMessage(text: string, llm: nat -> Turn) returns (ending: Ending, ghost made: seq<Attempt>)
      modifies this
      ensures var p := Message(host, Session(old(TheGate()), old(conversation)), text, llm);
              p == Progress(Session(TheGate(), conversation), made, Some(ending), p.last)
    {
      hide RunCalls, Fallback;
      conversation := conversation + [Asked(text)];
      ghost var s := Session(TheGate(), conversation);
      made := [];
      var last := "";
      for i: nat := 0 to MAX_TOOL_ITERATIONS
        invariant Turns(host, s, llm, i) == Progress(Session(TheGate(), conversation), made, None, last)
      {
        var t := llm(i);
        if t.ModelRaised? {
          EndedEarly(host, s, llm, i + 1, MAX_TOOL_ITERATIONS);
          return Errored, made;
        }
        if t.response == "" {
          EndedEarly(host, s, llm, i + 1, MAX_TOOL_ITERATIONS);
          return EmptyResponse, made;
        }
        if t.calls == [] {
          conversation := conversation + [Answered(t.response)];
          EndedEarly(host, s, llm, i + 1, MAX_TOOL_ITERATIONS);
          return Final, made;
        }
        var count, stop := MakeCalls(t.response, t.calls);
        made := made + t.calls[..count];
        if stop.Some? {
          EndedEarly(host, s, llm, i + 1, MAX_TOOL_ITERATIONS);
          return stop.value, made;
        }
        last := t.response;
      }
      conversation := conversation + [Answered(Fallback(last))];
      return Exhausted, made;
    }
  }

  lemma {:induction false} StoppedEarly(h: Host, s: Session, response: string, calls: seq<Attempt>, n: nat)
    requires n <= |calls| && RunCalls(h, s, response, calls[..n]).2.Some?
    ensures RunCalls(h, s, response, calls) == RunCalls(h, s, response, calls[..n])
  {
    hide Exec;
    if n == |calls| {
      assert calls[..n] == calls;
    } else {
      assert calls[..|calls| - 1][..n] == calls[..n];
      StoppedEarly(h, s, response, calls[..|calls| - 1], n);
    }
  }

  lemma {:induction false} EndedEarly(h: Host, s: Session, llm: nat -> Turn, n: nat, m: nat)
    requires n <= m && Turns(h, s, llm, n).ending.Some?
    ensures Turns(h, s, llm, m) == Turns(h, s, llm, n)
  {
    hide TurnOf;
    if n < m { EndedEarly(h, s, llm, n, m - 1); }
  }

  // ---------------------------------------------------------------- whole sessions as attempts

  /** Any number of attempts, one after the other. */
  function RunAll(h: Host, g: Gate, made: seq<Attempt>): Gate {
    if made == [] then g else Exec(h, RunAll(h, g, made[..|made| - 1]), made[|made| - 1]).0
  }

  lemma {:induction false} RunAllConcat(h: Host, g: Gate, a: seq<Attempt>, b: seq<Attempt>)
    ensures RunAll(h, g, a + b) == RunAll(h, RunAll(h, g, a), b)
  {
    hide Exec;
    if b == [] {
      assert a + b == a;
    } else {
      assert (a + b)[..|a + b| - 1] == a + b[..|b| - 1];
      RunAllConcat(h, g, a, b[..|b| - 1]);
    }
  }

  /** A message's calls are a run of attempts; only the last can be a hard stop or a fault. A
      message can also end in an error because the model raised. */
  ghost predicate IsCalls(h: Host, g: Gate, made: seq<Attempt>, ending: Option<Ending>) {
    && (forall i :: 0 <= i < |made| - 1 ==> OutcomeAt(h, g, made, i).Returned?)
    && (ending == Some(Halted) <==> made != [] && OutcomeAt(h, g, made, |made| - 1).HardStop?)
    && (made != [] && OutcomeAt(h, g, made, |made| - 1).Raises? ==> ending == Some(Errored))
  }

  function OutcomeAt(h: Host, g: Gate, made: seq<Attempt>, i: nat): Outcome
    requires i < |made|
  {
    Exec(h, RunAll(h, g, made[..i]), made[i]).1
  }

  lemma {:induction false} CallsAreARun(h: Host, s: Session, response: string, calls: seq<Attempt>)
    ensures var (t, n, ending) := RunCalls(h, s, response, calls);
            t.gate == RunAll(h, s.gate, calls[..n]) && IsCalls(h, s.gate, calls[..n], ending)
    ensures RunCalls(h, s, response, calls).2 in {None, Some(Halted), Some(Errored)}
  {
    hide Exec;
    if calls != [] {
      var k := |calls| - 1;
      CallsAreARun(h, s, response, calls[..k]);
      var before := RunCalls(h, s, response, calls[..k]);
      assert calls[..k][..before.1] == calls[..before.1];
      if before.2.None? {
        assert calls[..|calls|] == calls;
        OneMoreCall(h, s.gate, calls);
      }
    }
  }

  lemma OneMoreCall(h: Host, g: Gate, made: seq<Attempt>)
    requires made != [] && IsCalls(h, g, made[..|made| - 1], None)
    ensures RunAll(h, g, made) == Exec(h, RunAll(h, g, made[..|made| - 1]), made[|made| - 1]).0
    ensures forall i :: 0 <= i < |made| - 1 ==> OutcomeAt(h, g, made, i).Returned?
    ensures OutcomeAt(h, g, made, |made| - 1) == Exec(h, RunAll(h, g, made[..|made| - 1]), made[|made| - 1]).1
  {
    hide Exec, RunAll;
    var k := |made| - 1;
    assert RunAll(h, g, made) == Exec(h, RunAll(h, g, made[..k]), made[k]).0 by { RunAllLast(h, g, made); }
    forall i | 0 <= i < k ensures OutcomeAt(h, g, made, i).Returned? {
      assert made[..k][..i] == made[..i];
      assert OutcomeAt(h, g, made[..k], i) == OutcomeAt(h, g, made, i);
    }
  }

  lemma RunAllLast(h: Host, g: Gate, made: seq<Attempt>)
    requires made != []
    ensures RunAll(h, g, made) == Exec(h, RunAll(h, g, made[..|made| - 1]), made[|made| - 1]).0
  {
  }

  /** Joining one reply's calls to those of the replies before it. */
  lemma CallsJoin(h: Host, g: Gate, a: seq<Attempt>, b: seq<Attempt>, ending: Option<Ending>)
    requires IsCalls(h, g, a, None) && IsCalls(h, RunAll(h, g, a), b, ending)
    ensures IsCalls(h, g, a + b, ending)
  {
    hide Exec, RunAll, OutcomeAt;
    if b == [] {
      assert a + b == a;
    } else {
      forall i | 0 <= i < |a + b| - 1 ensures OutcomeAt(h, g, a + b, i).Returned? {
        OutcomeOfConcat(h, g, a, b, i);
      }
      OutcomeOfConcat(h, g, a, b, |a + b| - 1);
    }
  }

  lemma OutcomeOfConcat(h: Host, g: Gate, a: seq<Attempt>, b: seq<Attempt>, i: nat)
    requires i < |a + b|
    ensures OutcomeAt(h, g, a + b, i) == if i < |a| then OutcomeAt(h, g, a, i) else OutcomeAt(h, RunAll(h, g, a), b, i - |a|)
  {
    hide Exec, RunAll;
    if i < |a| {
      assert (a + b)[..i] == a[..i];
    } else {
      assert (a + b)[..i] == a + b[..i - |a|];
      RunAllConcat(h, g, a, b[..i - |a|]);
    }
  }

  lemma {:induction false} TurnsAreARun(h: Host, s: Session, llm: nat -> Turn, n: nat)
    ensures var p := Turns(h, s, llm, n);
            && p.session.gate == RunAll(h, s.gate, p.made)
            && IsCalls(h, s.gate, p.made, p.ending)
  {
    hide Exec, RunCalls, IsCalls, RunAll;
    if n == 0 {
      NoCalls(h, s.gate);
    } else {
      TurnsAreARun(h, s, llm, n - 1);
      var p := Turns(h, s, llm, n - 1);
      var t := llm(n - 1);
      if p.ending.None? {
        OneTurn(h, s, p, t);
      }
    }
  }

  lemma NoCalls(h: Host, g: Gate)
    ensures IsCalls(h, g, [], None) && RunAll(h, g, []) == g
  {
  }

  lemma OneTurn(h: Host, s: Session, p: Progress, t: Turn)
    requires p.ending.None? && p.session.gate == RunAll(h, s.gate, p.made) && IsCalls(h, s.gate, p.made, None)
    ensures var q := TurnOf(h, p, t);
            && q.session.gate == RunAll(h, s.gate, q.made)
            && IsCalls(h, s.gate, q.made, q.ending)
  {
    hide Exec, RunCalls, RunAll;
    if t.Turn? && t.response != "" && t.calls != [] {
      var r := RunCalls(h, p.session, t.response, t.calls);
      CallsAreARun(h, p.session, t.response, t.calls);
      RunAllConcat(h, s.gate, p.made, t.calls[..r.1]);
      CallsJoin(h, s.gate, p.made, t.calls[..r.1], r.2);
    }
  }

  /** Within one message no tool runs after the hard stop: every call but the last returned, and
      the message halts exactly when its last call is the hard stop of `finalize_plan`. */
  lemma NoToolAfterHardStop(h: Host, s: Session, text: string, llm: nat -> Turn)
    ensures var p := Message(h, s, text, llm);
            && p.ending.Some?
            && p.session.gate == RunAll(h, s.gate, p.made)
            && (forall i :: 0 <= i < |p.made| - 1 ==> OutcomeAt(h, s.gate, p.made, i).Returned?)
            && (p.ending == Some(Halted) <==> p.made != [] && OutcomeAt(h, s.gate, p.made, |p.made| - 1).HardStop?)
            && (p.made != [] && OutcomeAt(h, s.gate, p.made, |p.made| - 1).Raises? ==> p.ending == Some(Errored))
  {
    TurnsAreARun(h, Session(s.gate, s.conversation + [Asked(text)]), llm, MAX_TOOL_ITERATIONS);
    hide Exec, RunAll, Turns, OutcomeAt;
  }

  lemma HardStopOnlyFromFinalize(h: Host, g: Gate, a: Attempt)
    ensures Exec(h, g, a).1.HardStop? <==> a.allowed && Finalizes(a) && a.fault == NoFault
    ensures Exec(h, g, a).1.HardStop? ==> Exec(h, g, a).0 == Reviewed(h, g, a)
  {
    hide RunPostOutputVerification, GatedVerdict, RateLimit.IsUncounted, Annotated;
  }

  datatype Prompt = Prompt(text: string, llm: nat -> Turn)

  /** Messages one after the other; the gate's state lives on between them. */
  function Chat(h: Host, s: Session, prompts: seq<Prompt>): (Session, seq<Attempt>) {
    if prompts == [] then (s, []) else
      var (before, made) := Chat(h, s, prompts[..|prompts| - 1]);
      var last := prompts[|prompts| - 1];
      var p := Message(h, before, last.text, last.llm);
      (p.session, made + p.made)
  }

  lemma {:induction false} ChatIsARun(h: Host, s: Session, prompts: seq<Prompt>)
    ensures Chat(h, s, prompts).0.gate == RunAll(h, s.gate, Chat(h, s, prompts).1)
  {
    hide Exec, RunAll, Message, OutcomeAt;
    if prompts == [] {
      NoCalls(h, s.gate);
    } else {
      var k := |prompts| - 1;
      ChatIsARun(h, s, prompts[..k]);
      var (before, made) := Chat(h, s, prompts[..k]);
      NoToolAfterHardStop(h, before, prompts[k].text, prompts[k].llm);
      RunAllConcat(h, s.gate, made, Message(h, before, prompts[k].text, prompts[k].llm).made);
    }
  }

  // ---------------------------------------------------------------- READY

  lemma BlockedIsNotReady()
    ensures !IsReady("BLOCKED_FABRICATION") && !IsReady("BLOCKED_ADVERSARIAL")
  {
    NothingToStrip("BLOCKED_FABRICATION");
    NothingToStrip("BLOCKED_ADVERSARIAL");
    hide Strip, Upper;
  }

  lemma NothingToStrip(s: string)
    requires s != "" && !IsSpace(s[0]) && !IsSpace(s[|s| - 1])
    ensures Strip(s) == s
  {
  }

  lemma {:induction false} FailingIsEmpty(h: Host, files: Files, artifacts: seq<Recorded>)
    ensures Failing(h, files, artifacts) == [] <==>
            forall i :: 0 <= i < |artifacts| ==> Skipped(h, artifacts[i]) || Passes(h, files, artifacts[i])
  {
    hide Passes, Skipped;
    if artifacts != [] {
      var k := |artifacts| - 1;
      FailingIsEmpty(h, files, artifacts[..k]);
      assert forall i :: 0 <= i < k ==> artifacts[..k][i] == artifacts[i];
    }
  }

  /** One gating: the verdict that stands reads READY exactly when READY was asked for, no check
      has failed in the session, and every recorded artifact passes now. */
  lemma ReadyStandsExactly(h: Host, g: Gate, verdict: string, files: Files)
    ensures IsReady(GatedVerdict(h, g, verdict, files)) <==>
              && IsReady(verdict)
              && !g.fabrication
              && forall i :: 0 <= i < |g.artifacts| ==> Skipped(h, g.artifacts[i]) || Passes(h, files, g.artifacts[i])
    ensures IsReady(GatedVerdict(h, g, verdict, files)) ==> GatedVerdict(h, g, verdict, files) == verdict
  {
    hide Passes, Skipped, IsReady;
    BlockedIsNotReady();
    FailingIsEmpty(h, files, g.artifacts);
  }

  /** While no check has failed, everything recorded passed the test on the root's text, so the
      gate skips nothing. The test lets the tree of a sibling directory through as well
      (`Artifacts.PrefixMeansInsideExactly`, `Artifacts.SiblingPassesTheTest`). */
  ghost predicate Accounted(h: Host, g: Gate) {
    !g.fabrication ==> forall i :: 0 <= i < |g.artifacts| ==> !Skipped(h, g.artifacts[i])
  }

  /** A review is sound: if it reads READY then everything recorded when it was written passed
      the adversarial check on the files of that moment. */
  ghost predicate Sound(h: Host, r: Review) {
    IsReady(r.verdict) ==>
      forall i :: 0 <= i < |r.artifacts| ==> !Skipped(h, r.artifacts[i]) && Passes(h, r.files, r.artifacts[i])
  }

  /** What one attempt does: the flag and the lists only grow, at most one review is written,
      and it is sound and not READY after a failed check. */
  lemma ExecGrows(h: Host, g: Gate, a: Attempt)
    ensures var t := Exec(h, g, a).0;
            && (g.fabrication ==> t.fabrication)
            && g.artifacts <= t.artifacts
            && (t.reviews == g.reviews || t.reviews == g.reviews + [NewReview(h, g, a)])
            && (t.fabrication <==> g.fabrication || CheckFails(h, g, a))
            && (Accounted(h, g) ==> Accounted(h, t))
  {
    hide RunPostOutputVerification, Inner, AfterOutput, NewReview, RateLimit.IsUncounted, Accounted;
    var (g1, out) := Inner(h, g, a);
    InnerGrows(h, g, a);
    if out.Returned? {
      OutputGrows(h, g1, a, out.text);
    }
  }

  lemma InnerGrows(h: Host, g: Gate, a: Attempt)
    ensures var t := Inner(h, g, a).0;
            && t.fabrication == g.fabrication && t.artifacts == g.artifacts
            && (t.reviews == g.reviews || t.reviews == g.reviews + [NewReview(h, g, a)])
            && (Accounted(h, g) ==> Accounted(h, t))
  {
    hide NewReview, Skipped;
  }

  lemma OutputGrows(h: Host, g: Gate, a: Attempt, text: string)
    ensures var check := RunPostOutputVerification(h, a.files, a.name, a.args, text);
            var t := AfterOutput(g, check, OptionalArg(a.args, "class_name"), text).0;
            && (t.fabrication <==> g.fabrication || (check.Ran? && !check.ok))
            && g.artifacts <= t.artifacts && t.reviews == g.reviews
            && (Accounted(h, g) ==> Accounted(h, t))
  {
    hide RunPostOutputVerification, Skipped, Annotated;
    CheckIsAccounted(h, a, Returned(text));
  }

  /** The automatic check after this attempt runs and fails. */
  predicate CheckFails(h: Host, g: Gate, a: Attempt) {
    var out := Inner(h, g, a).1;
    && a.allowed && out.Returned? && !RateLimit.IsUncounted(out.text) && !a.recordRaises
    && var check := RunPostOutputVerification(h, a.files, a.name, a.args, out.text);
       check.Ran? && !check.ok
  }

  lemma CheckIsAccounted(h: Host, a: Attempt, out: Outcome)
    ensures out.Returned? ==>
              var check := RunPostOutputVerification(h, a.files, a.name, a.args, out.text);
              check.Ran? && check.ok ==> !Skipped(h, Recorded(check.artifact, check.diff, OptionalArg(a.args, "class_name")))
  {
    hide VerifyArtifact, ResolveArtifact, ExpectedShape, IsFailure;
  }

  /** Over any attempts from a fresh session: every review is sound. */
  lemma {:induction false} EveryReviewIsSound(h: Host, made: seq<Attempt>)
    ensures var g := RunAll(h, Fresh(), made);
            Accounted(h, g) && forall i :: 0 <= i < |g.reviews| ==> Sound(h, g.reviews[i])
  {
    hide Exec, Sound, Accounted;
    if made == [] {
      FreshIsAccounted(h);
    } else {
      var g := RunAll(h, Fresh(), made[..|made| - 1]);
      EveryReviewIsSound(h, made[..|made| - 1]);
      ExecGrows(h, g, made[|made| - 1]);
      NewReviewIsSound(h, g, made[|made| - 1]);
    }
  }

  lemma FreshIsAccounted(h: Host)
    ensures Accounted(h, Fresh())
  {
  }

  lemma NewReviewIsSound(h: Host, g: Gate, a: Attempt)
    requires Accounted(h, g)
    ensures Sound(h, NewReview(h, g, a))
    ensures g.fabrication ==> !IsReady(NewReview(h, g, a).verdict)
  {
    hide IsReady, GatedVerdict, Passes, Skipped;
    ReadyStandsExactly(h, g, Arg(a.args, "verdict"), a.files);
  }

  predicate FailsAt(h: Host, made: seq<Attempt>, i: nat)
    requires i < |made|
  {
    CheckFails(h, RunAll(h, Fresh(), made[..i]), made[i])
  }

  lemma FailsAtIs(h: Host, made: seq<Attempt>, i: nat)
    requires i < |made|
    ensures FailsAt(h, made, i) == CheckFails(h, RunAll(h, Fresh(), made[..i]), made[i])
  {
  }

  /** The flag is up exactly when some attempt's automatic check failed. */
  lemma {:induction false} FlagMeansFailedCheck(h: Host, made: seq<Attempt>)
    ensures RunAll(h, Fresh(), made).fabrication <==>
            exists i :: 0 <= i < |made| && FailsAt(h, made, i)
  {
    hide Exec, CheckFails, Accounted, FailsAt;
    if made != [] {
      var k := |made| - 1;
      var g := RunAll(h, Fresh(), made[..k]);
      FlagMeansFailedCheck(h, made[..k]);
      ExecGrows(h, g, made[k]);
      assert FailsAt(h, made, k) == CheckFails(h, g, made[k]) by { FailsAtIs(h, made, k); }
      forall i | 0 <= i < k ensures FailsAt(h, made[..k], i) == FailsAt(h, made, i) {
        assert made[..k][..i] == made[..i] && made[..k][i] == made[i];
        FailsAtIs(h, made, i);
        FailsAtIs(h, made[..k], i);
      }
    }
  }

  /** After a failed check no review of the session ever reads READY. */
  lemma {:induction false} NoReadyAfterFabrication(h: Host, before: seq<Attempt>, later: seq<Attempt>)
    requires RunAll(h, Fresh(), before).fabrication
    ensures var g, t := RunAll(h, Fresh(), before), RunAll(h, Fresh(), before + later);
            && t.fabrication && g.reviews <= t.reviews
            && forall i :: |g.reviews| <= i < |t.reviews| ==> !IsReady(t.reviews[i].verdict)
  {
    hide Exec, IsReady, Accounted, Sound, NewReview, CheckFails;
    if later == [] {
      assert before + later == before;
    } else {
      var k := |later| - 1;
      assert (before + later)[..|before + later| - 1] == before + later[..k];
      NoReadyAfterFabrication(h, before, later[..k]);
      var g := RunAll(h, Fresh(), before + later[..k]);
      EveryReviewIsSound(h, before + later[..k]);
      ExecGrows(h, g, later[k]);
      NewReviewIsSound(h, g, later[k]);
    }
  }

  /** The two together over whole chats, message loop and all: every READY review is backed by
      passing artifacts, and none is written after a failed check, in this message or a later
      one. */
  lemma ChatsAreSafe(h: Host, prompts: seq<Prompt>, n: nat)
    ensures var (s, made) := Chat(h, Session(Fresh(), []), prompts);
            && (forall i :: 0 <= i < |s.gate.reviews| ==> Sound(h, s.gate.reviews[i]))
            && (n <= |made| && RunAll(h, Fresh(), made[..n]).fabrication ==>
                  forall i :: |RunAll(h, Fresh(), made[..n]).reviews| <= i < |s.gate.reviews| ==>
                    !IsReady(s.gate.reviews[i].verdict))
  {
    hide Chat, RunAll, Sound, IsReady;
    var (s, made) := Chat(h, Session(Fresh(), []), prompts);
    ChatIsARun(h, Session(Fresh(), []), prompts);
    EveryReviewIsSound(h, made);
    if n <= |made| && RunAll(h, Fresh(), made[..n]).fabrication {
      NoReadyAfterFabrication(h, made[..n], made[n..]);
      assert made[..n] + made[n..] == made;
    }
  }

  // ---------------------------------------------------------------- an honest session

  /** `a` extracts a class, and its output is on disk. */
  ghost predicate HonestExtraction(h: Host, files: Files, stamp: string, path: string, text: string, a: Attempt) {
    && a.name == "extract_with_diff" && a.allowed && !a.recordRaises
    && ExtractWithDiff(h, files, a.args, stamp) == Emitted(path, text)
    && a.result == ReportOf(h, files, a.args, path, text) && IsStamp(stamp)
    && h.parse(text).Module? && |h.parse(text).classes| > 0 && h.parse(text).classes[0] == Arg(a.args, "class_name")
    && HasRootPrefix(h, path) && h.resolve(path) in a.files && a.files[h.resolve(path)] == text
  }

  /** The artifact, its diff and the source module are in `later` what they were. */
  ghost predicate Untouched(h: Host, files: Files, path: string, text: string, args: Args, later: Files) {
    var diff := h.resolve(Arg(args, "diff_path"));
    && diff != "" && diff in files && diff in later && later[diff] == files[diff]
    && EndsWith(h.resolve(path), ".proposed") && h.resolve(path) in later && later[h.resolve(path)] == text
    && h.root != "" && TextAt(later, CorePath(h.root)) == TextAt(files, CorePath(h.root))
  }

  ghost predicate AsksForReady(b: Attempt) {
    b.name == "finalize_plan" && b.allowed && b.fault == NoFault && IsReady(Arg(b.args, "verdict"))
  }

  /** What the session records of the extraction. */
  function RecordOf(h: Host, path: string, text: string, a: Attempt): Recorded {
    Recorded(Named(h, a.args, path, text), OptionalArg(a.args, "diff_path"), OptionalArg(a.args, "class_name"))
  }

  /** A session that extracts a class and finalizes with READY while nobody touches its files
      stops with a review. That review reads READY exactly when the automatic check raised, or it
      passed what the report is read to name and so does the adversarial check. When the report
      names the emitted artifact, it is READY; when it names another file that is not there, the
      session is flagged. */
  lemma ExtractionReachesReadyExactly(h: Host, files: Files, stamp: string, path: string, text: string, a: Attempt, b: Attempt)
    requires HonestExtraction(h, files, stamp, path, text, a) && AsksForReady(b)
    requires Untouched(h, files, path, text, a.args, b.files)
    ensures var g := RunAll(h, Fresh(), [a, b]);
            var r := RecordOf(h, path, text, a);
            var check := CheckOf(h, a.files, a.args, r.artifact);
            && |g.reviews| == 1 && OutcomeAt(h, Fresh(), [a, b], 1).HardStop?
            && (IsReady(g.reviews[0].verdict) <==> check.CheckFault? || (check.Ran? && check.ok && Passes(h, b.files, r)))
            && (IsReady(g.reviews[0].verdict) ==> g.reviews[0].verdict == Arg(b.args, "verdict"))
            && (g.fabrication <==> check.Ran? && !check.ok)
            && (r.artifact == path ==> IsReady(g.reviews[0].verdict) && !g.fabrication)
            && ((!HasRootPrefix(h, r.artifact) || h.resolve(r.artifact) !in a.files)
                ==> !IsReady(g.reviews[0].verdict) && g.fabrication)
  {
    var r := RecordOf(h, path, text, a);
    var check := CheckOf(h, a.files, a.args, r.artifact);
    MissingIsFabricated(h, a.files, a.args, r.artifact);
    hide ExtractWithDiff, IsReady, Exec, RunAll, HasRootPrefix, OutcomeAt, ReportOf, CheckOf, Named, Passes, Skipped, NewReview;
    TwoAttempts(h, a, b);
    ExtractionIsRecorded(h, files, stamp, path, text, a);
    var g := Exec(h, Fresh(), a).0;
    HardStopOnlyFromFinalize(h, g, b);
    CheckedIsNotSkipped(h, a.files, a.args, r);
    OneReview(h, g, r, b);
    if r.artifact == path {
      ArtifactPasses(h, files, stamp, path, text, a, b.files);
    }
  }

  lemma MissingIsFabricated(h: Host, files: Files, args: Args, named: string)
    ensures !HasRootPrefix(h, named) || h.resolve(named) !in files ==> CheckOf(h, files, args, named) == Ran(named, OptionalArg(args, "diff_path"), false)
  {
    hide HasRootPrefix, ExpectedShape;
  }

  lemma CheckedIsNotSkipped(h: Host, files: Files, args: Args, r: Recorded)
    ensures var check := CheckOf(h, files, args, r.artifact);
            check.Ran? && check.ok && r.artifact != "" ==> !Skipped(h, r)
  {
    hide HasRootPrefix, ExpectedShape, VerifyArtifact;
  }

  /** The review of a session that recorded one artifact or none. */
  lemma OneReview(h: Host, g: Gate, r: Recorded, b: Attempt)
    requires AsksForReady(b) && g.reviews == [] && (g.artifacts == [] || g.artifacts == [r])
    ensures var t := Exec(h, g, b).0;
            && t.fabrication == g.fabrication && |t.reviews| == 1
            && (IsReady(t.reviews[0].verdict) <==>
                  !g.fabrication && (g.artifacts == [] || Skipped(h, r) || Passes(h, b.files, r)))
            && (IsReady(t.reviews[0].verdict) ==> t.reviews[0].verdict == Arg(b.args, "verdict"))
  {
    hide IsReady, Passes, Skipped, Exec, GatedVerdict;
    HardStopOnlyFromFinalize(h, g, b);
    assert [] + [NewReview(h, g, b)] == [NewReview(h, g, b)];
    assert g.artifacts == [r] ==> g.artifacts[0] == r;
    ReadyStandsExactly(h, g, Arg(b.args, "verdict"), b.files);
  }

  lemma TwoAttempts(h: Host, a: Attempt, b: Attempt)
    ensures RunAll(h, Fresh(), [a, b]) == Exec(h, Exec(h, Fresh(), a).0, b).0
    ensures OutcomeAt(h, Fresh(), [a, b], 1) == Exec(h, Exec(h, Fresh(), a).0, b).1
  {
    hide Exec, RunAll;
    var two, one := [a, b], [a];
    assert two[..1] == one && one[..0] == [];
    RunAllLast(h, Fresh(), two);
    RunAllLast(h, Fresh(), one);
    NoCalls(h, Fresh());
  }

  lemma ArtifactPasses(h: Host, files: Files, stamp: string, path: string, text: string, a: Attempt, later: Files)
    requires ExtractWithDiff(h, files, a.args, stamp) == Emitted(path, text)
    requires h.parse(text).Module? && |h.parse(text).classes| > 0 && h.parse(text).classes[0] == Arg(a.args, "class_name")
    requires EndsWith(h.resolve(path), ".proposed")
    requires var diff := h.resolve(Arg(a.args, "diff_path"));
             diff != "" && diff in files && diff in later && later[diff] == files[diff]
    requires h.resolve(path) in later && later[h.resolve(path)] == text
    requires h.root != "" && TextAt(later, CorePath(h.root)) == TextAt(files, CorePath(h.root))
    ensures Passes(h, later, Recorded(path, OptionalArg(a.args, "diff_path"), OptionalArg(a.args, "class_name")))
  {
    hide ExtractWithDiff, AdversarialVerify, CorePath, EndsWith;
    DiffHasRootPrefix(h, files, a.args, stamp, path, text);
    ExtractionPassesAdversarialCheck(h, files, a.args, stamp, path, text, later, h.resolve(path), h.resolve(Arg(a.args, "diff_path")));
  }

  /** What the session holds after an extraction: the outcome of the check of what the report is
      read to name. */
  lemma ExtractionIsRecorded(h: Host, files: Files, stamp: string, path: string, text: string, a: Attempt)
    requires HonestExtraction(h, files, stamp, path, text, a)
    ensures var g, r := Exec(h, Fresh(), a).0, RecordOf(h, path, text, a);
            var check := CheckOf(h, a.files, a.args, r.artifact);
            && g == (if check.CheckFault? then Fresh() else Gate(check.Ran? && !check.ok, [r], []))
            && (r.artifact == path ==> check.Ran? && check.ok) && r.artifact != ""
  {
    hide ExtractWithDiff, ReportOf, HasRootPrefix, RunPostOutputVerification, VerifyArtifact, Named, IsStamp, RateLimit.IsUncounted, CheckOf, Exec;
    ReportIsNoFailure(h, files, a.args, path, text);
    ReportIsCounted(a.result);
    NamedIsSomething(h, files, a.args, stamp, path, text);
    PostCheckPassesExactly(h, files, a.args, stamp, path, text, a.files);
    ExecOfOutput(h, a);
    ChecksTheNamed(h, a.files, a.args, RecordOf(h, path, text, a));
  }

  lemma ChecksTheNamed(h: Host, files: Files, args: Args, r: Recorded)
    requires r.diff == OptionalArg(args, "diff_path")
    ensures var check := CheckOf(h, files, args, r.artifact);
            check.CheckFault? || check == Ran(r.artifact, r.diff, check.ok)
  {
    hide HasRootPrefix, ExpectedShape, VerifyArtifact;
  }

  /** A tool call that returns is checked and recorded. */
  lemma ExecOfOutput(h: Host, a: Attempt)
    requires !Finalizes(a) && a.allowed && !a.recordRaises && !RateLimit.IsUncounted(a.result)
    ensures var check := RunPostOutputVerification(h, a.files, a.name, a.args, a.result);
            Exec(h, Fresh(), a).0 ==
            if check.Ran? then Gate(!check.ok, [Recorded(check.artifact, check.diff, OptionalArg(a.args, "class_name"))], [])
            else Fresh()
  {
    hide RunPostOutputVerification, Annotated, RateLimit.IsUncounted;
  }

  lemma ReportIsCounted(report: string)
    ensures |report| > 1 && report[0] == 'E' && report[1] == 'X' ==> !RateLimit.IsUncounted(report)
  {
  }

  lemma DiffHasRootPrefix(h: Host, files: Files, args: Args, stamp: string, path: string, text: string)
    requires ExtractWithDiff(h, files, args, stamp) == Emitted(path, text)
    ensures DiffPath(h, OptionalArg(args, "diff_path")) == Some(h.resolve(Arg(args, "diff_path")))
  {
    hide BuildMixinModule;
  }
}
