/** A limiter that keeps no tables: it remembers everything that ever happened and answers from
    that. The daemon's limiter gives the same answers over every run. */
module RateReference {
  import opened RateLimit

  // ---------------------------------------------------------------- the reference

  /** A call of a tool that counted, or an error it raised. */
  datatype Happened = Called(tool: string, at: real) | Failed(tool: string, at: real)

  /** How many calls there were after `since`: of one tool, or of any. */
  function CallsAfter(past: seq<Happened>, key: Key, since: real): nat {
    if past == [] then 0 else
      var e := past[|past| - 1];
      CallsAfter(past[..|past| - 1], key, since) + (if e.Called? && (key.All? || e.tool == key.tool) && e.at > since then 1 else 0)
  }

  /** How many errors the tool has raised since it was last called with success. */
  function Streak(past: seq<Happened>, tool: string): nat {
    if past == [] then 0 else
      var e, before := past[|past| - 1], Streak(past[..|past| - 1], tool);
      if e.tool != tool then before else if e.Called? then 0 else before + 1
  }

  function LastFailure(past: seq<Happened>, tool: string): real {
    if past == [] then 0.0 else
      var e := past[|past| - 1];
      if e.tool == tool && e.Failed? then e.at else LastFailure(past[..|past| - 1], tool)
  }

  /** The n-th error in a row costs a minute, ten minutes, an hour, and then a day each time. */
  function Wait(n: nat): real {
    if n <= 1 then 60.0 else if n == 2 then 600.0 else if n == 3 then 3600.0 else 86400.0
  }

  /** The answer from the past alone. */
  function AnswerFrom(past: seq<Happened>, tool: string, now: real): Answer {
    if Streak(past, tool) > 0 && now < LastFailure(past, tool) + Wait(Streak(past, tool)) then OnBackoff
    else if CallsAfter(past, Of(tool), now - 60.0) >= 10 then ToolExceeded(Minute)
    else if CallsAfter(past, Of(tool), now - 3600.0) >= 100 then ToolExceeded(Hour)
    else if CallsAfter(past, Of(tool), now - 86400.0) >= 1000 then ToolExceeded(Day)
    else if CallsAfter(past, All, now - 60.0) >= 30 then GlobalExceeded(Minute)
    else if CallsAfter(past, All, now - 3600.0) >= 500 then GlobalExceeded(Hour)
    else if CallsAfter(past, All, now - 86400.0) >= 5000 then GlobalExceeded(Day)
    else Allowed
  }

  predicate Counts(text: string) {
    !("BLOCKED:" <= text) && !("OPERATOR_HOLD" <= text) && !("RATE_LIMITED" <= text)
  }

  /** What a tool call that is let through adds to the past. */
  function HappeningsOf(tool: string, outcome: RateLimit.Outcome): seq<Happened> {
    match outcome
    case HardStop => []
    case Returned(text, at) => if Counts(text) then [Called(tool, at)] else []
    case ReturnedThenRaised(text, at, errorAt) => if Counts(text) then [Called(tool, at), Failed(tool, errorAt)] else []
    case Raised(errorAt) => [Failed(tool, errorAt)]
  }

  /** Everything that happens in a run, as the reference lets it happen; pruning is nothing. */
  function Past(ops: seq<Op>): seq<Happened> {
    if ops == [] then [] else
      var past, op := Past(ops[..|ops| - 1]), ops[|ops| - 1];
      past + (if op.Execute? && AnswerFrom(past, op.tool, op.checkAt) == Allowed then HappeningsOf(op.tool, op.outcome) else [])
  }

  // ---------------------------------------------------------------- the tables stand for the past

  /** Whether the tool occurs in the past. */
  predicate Occurs(past: seq<Happened>, tool: string) {
    exists i :: 0 <= i < |past| && past[i].tool == tool
  }

  ghost predicate CountsAlike(s: State, past: seq<Happened>, now: real) {
    forall key, since :: since >= now - 86400.0 && key != Of(GLOBAL_KEY) ==>
      CountSince(s.calls, TableKey(key), since) == CallsAfter(past, key, since)
  }

  ghost predicate BacksOffAlike(s: State, past: seq<Happened>) {
    forall tool :: (tool in s.errors <==> Occurs(past, tool)) && (tool in s.errors ==> IsBackoffOf(s.errors[tool], past, tool))
  }

  predicate IsBackoffOf(b: Backoff, past: seq<Happened>, tool: string) {
    && b.count == Streak(past, tool)
    && b.until == if Streak(past, tool) == 0 then 0.0 else LastFailure(past, tool) + Wait(Streak(past, tool))
  }

  lemma StreakNeedsTool(past: seq<Happened>, tool: string)
    ensures Streak(past, tool) > 0 ==> Occurs(past, tool)
  {
    if past != [] {
      var init := past[..|past| - 1];
      StreakNeedsTool(init, tool);
      if i :| 0 <= i < |init| && init[i].tool == tool {
        assert past[i].tool == tool;
      }
    }
  }

  lemma SameAnswerFrom(s: State, past: seq<Happened>, tool: string, now: real, later: real)
    requires CountsAlike(s, past, now) && BacksOffAlike(s, past) && 0.0 <= now <= later && tool != GLOBAL_KEY
    ensures CanCall(s, tool, later) == AnswerFrom(past, tool, later)
  {
    StreakNeedsTool(past, tool);
    forall w ensures CountSince(s.calls, Of(tool), later - Seconds(w)) == CallsAfter(past, Of(tool), later - Seconds(w))
    {
      assert CountSince(s.calls, TableKey(Of(tool)), later - Seconds(w)) == CallsAfter(past, Of(tool), later - Seconds(w));
    }
    forall w ensures CountSince(s.calls, Of(GLOBAL_KEY), later - Seconds(w)) == CallsAfter(past, All, later - Seconds(w))
    {
      assert CountSince(s.calls, TableKey(All), later - Seconds(w)) == CallsAfter(past, All, later - Seconds(w));
    }
    assert Seconds(Minute) == 60.0 && Seconds(Hour) == 3600.0 && Seconds(Day) == 86400.0;
    hide CountSince, CallsAfter, Streak, LastFailure, Occurs, Seconds;
  }

  lemma PastAppend(past: seq<Happened>, e: Happened)
    ensures forall key, since :: CallsAfter(past + [e], key, since) ==
              CallsAfter(past, key, since) + (if e.Called? && (key.All? || e.tool == key.tool) && e.at > since then 1 else 0)
    ensures forall tool :: Streak(past + [e], tool) ==
              if e.tool != tool then Streak(past, tool) else if e.Called? then 0 else Streak(past, tool) + 1
    ensures forall tool :: LastFailure(past + [e], tool) == if e.tool == tool && e.Failed? then e.at else LastFailure(past, tool)
    ensures forall tool :: Occurs(past + [e], tool) <==> Occurs(past, tool) || e.tool == tool
  {
    assert (past + [e])[..|past|] == past;
    forall tool ensures Occurs(past + [e], tool) <==> Occurs(past, tool) || e.tool == tool {
      if i :| 0 <= i < |past| && past[i].tool == tool {
        assert (past + [e])[i].tool == tool;
      }
      assert (past + [e])[|past|] == e;
    }
  }

  lemma CallIsAlike(s: State, past: seq<Happened>, now: real, tool: string, at: real)
    requires CountsAlike(s, past, now) && BacksOffAlike(s, past) && tool != GLOBAL_KEY
    ensures CountsAlike(RecordCall(s, tool, at), past + [Called(tool, at)], now)
    ensures BacksOffAlike(RecordCall(s, tool, at), past + [Called(tool, at)])
  {
    hide CallsAfter, Streak, LastFailure, Occurs, CountSince;
    PastAppend(past, Called(tool, at));
    forall key, since | since >= now - 86400.0 && key != Of(GLOBAL_KEY)
      ensures CountSince(RecordCall(s, tool, at).calls, TableKey(key), since) == CallsAfter(past + [Called(tool, at)], key, since)
    {
      AppendRecord(s.calls, tool, at, TableKey(key), since);
    }
  }

  lemma FailureIsAlike(s: State, past: seq<Happened>, now: real, tool: string, at: real)
    requires CountsAlike(s, past, now) && BacksOffAlike(s, past)
    ensures CountsAlike(RecordError(s, tool, at), past + [Failed(tool, at)], now)
    ensures BacksOffAlike(RecordError(s, tool, at), past + [Failed(tool, at)])
  {
    hide CallsAfter, Streak, LastFailure, Occurs, CountSince;
    PastAppend(past, Failed(tool, at));
    StreakNeedsTool(past, tool);
  }

  lemma PruneIsAlike(s: State, past: seq<Happened>, now: real, later: real, days: int)
    requires CountsAlike(s, past, now) && now <= later && days >= 1
    ensures CountsAlike(Prune(s, later, days), past, later)
  {
    hide CallsAfter, CountSince;
    var from := later - days as real * DAY_SECONDS;
    assert from <= later - 86400.0;
    forall key, since | since >= later - 86400.0 && key != Of(GLOBAL_KEY)
      ensures CountSince(KeepFrom(s.calls, from), TableKey(key), since) == CallsAfter(past, key, since)
    {
      KeptCount(s.calls, from, TableKey(key), since);
    }
  }

  lemma StepIsAlike(s: State, past: seq<Happened>, now: real, op: Op)
    requires CountsAlike(s, past, now) && BacksOffAlike(s, past) && 0.0 <= now <= FirstTime(op) && OrderedInside(op)
    requires op.PruneOld? ==> op.days >= 1
    requires op.Execute? ==> op.tool != GLOBAL_KEY
    ensures var t := Step(s, op);
            var more := past + (if op.Execute? && AnswerFrom(past, op.tool, op.checkAt) == Allowed
                                then HappeningsOf(op.tool, op.outcome) else []);
            CountsAlike(t, more, LastTime(op)) && BacksOffAlike(t, more)
  {
    hide CountSince, CallsAfter, CanCall, AnswerFrom, BacksOffAlike, RecordCall, RecordError;
    assert past + [] == past;
    match op
    case PruneOld(later, days) => PruneIsAlike(s, past, now, later, days); PruneKeepsBackoff(s, past, later, days);
    case Execute(tool, check, outcome) =>
      SameAnswerFrom(s, past, tool, now, check);
      match outcome
      case HardStop =>
      case Returned(_, at) => CallIsAlike(s, past, now, tool, at);
      case Raised(errorAt) => FailureIsAlike(s, past, now, tool, errorAt);
      case ReturnedThenRaised(_, at, errorAt) =>
        CallIsAlike(s, past, now, tool, at);
        FailureIsAlike(RecordCall(s, tool, at), past + [Called(tool, at)], now, tool, errorAt);
        assert past + [Called(tool, at)] + [Failed(tool, errorAt)] == past + [Called(tool, at), Failed(tool, errorAt)];
  }

  lemma PruneKeepsBackoff(s: State, past: seq<Happened>, now: real, days: int)
    requires BacksOffAlike(s, past)
    ensures BacksOffAlike(Prune(s, now, days), past)
  {
  }

  lemma {:induction false} RunIsAlike(ops: seq<Op>, start: real)
    requires Clocked(ops, start) && 0.0 <= start
    requires forall i :: 0 <= i < |ops| && ops[i].Execute? ==> ops[i].tool != GLOBAL_KEY
    ensures 0.0 <= ClockAfter(ops, start)
    ensures CountsAlike(Run(FRESH, ops).state, Past(ops), ClockAfter(ops, start))
    ensures BacksOffAlike(Run(FRESH, ops).state, Past(ops))
  {
    hide CountsAlike, BacksOffAlike, Step, AnswerFrom, HappeningsOf;
    if ops == [] {
      NothingYet(start);
    } else {
      var n := |ops| - 1;
      RunIsAlike(ops[..n], start);
      StepIsAlike(Run(FRESH, ops[..n]).state, Past(ops[..n]), ClockAfter(ops[..n], start), ops[n]);
    }
  }

  lemma NothingYet(start: real)
    ensures CountsAlike(FRESH, [], start) && BacksOffAlike(FRESH, [])
  {
  }

  /** The calls of the past, as the run's history lists them. */
  function CallsOf(past: seq<Happened>): seq<Entry> {
    if past == [] then [] else
      var e := past[|past| - 1];
      CallsOf(past[..|past| - 1]) + (if e.Called? then [Entry(e.tool, e.at)] else [])
  }

  lemma CallsOfMore(past: seq<Happened>, tool: string, outcome: RateLimit.Outcome)
    ensures CallsOf(past + HappeningsOf(tool, outcome)) == CallsOf(past) + (if IsCounted(outcome) then [Entry(tool, outcome.at)] else [])
  {
    var more := HappeningsOf(tool, outcome);
    assert past + [] == past && CallsOf(past) + [] == CallsOf(past);
    if |more| == 1 {
      assert (past + more)[..|past|] == past;
    } else if |more| == 2 {
      assert (past + more)[..|past| + 1] == past + [more[0]] && (past + [more[0]])[..|past|] == past;
    }
  }

  /** The calls the run records are those of the reference. */
  lemma {:induction false} SameCallsAreRecorded(ops: seq<Op>, start: real)
    requires Clocked(ops, start) && 0.0 <= start
    requires forall i :: 0 <= i < |ops| && ops[i].Execute? ==> ops[i].tool != GLOBAL_KEY
    ensures Run(FRESH, ops).log == CallsOf(Past(ops))
  {
    hide CountsAlike, BacksOffAlike, Step, AnswerFrom, HappeningsOf, CanCall, IsCounted, CallsOf;
    if ops == [] {
      assert CallsOf([]) == [] by { NoCallsYet(); }
    } else {
      var n := |ops| - 1;
      SameCallsAreRecorded(ops[..n], start);
      assert Run(FRESH, ops[..n]).log + [] == Run(FRESH, ops[..n]).log && Past(ops[..n]) + [] == Past(ops[..n]);
      if ops[n].Execute? {
        LimiterAnswersFromThePast(ops[..n], start, ops[n].tool, ops[n].checkAt);
        CallsOfMore(Past(ops[..n]), ops[n].tool, ops[n].outcome);
      }
    }
  }

  lemma NoCallsYet()
    ensures CallsOf([]) == []
  {
  }

  /** The refinement: over every run of a clock that does not go back, with any prunings of a day
      or more, the limiter answers every question as the reference does from the past alone. */
  lemma LimiterAnswersFromThePast(ops: seq<Op>, start: real, tool: string, now: real)
    requires Clocked(ops, start) && 0.0 <= start && ClockAfter(ops, start) <= now && tool != GLOBAL_KEY
    requires forall i :: 0 <= i < |ops| && ops[i].Execute? ==> ops[i].tool != GLOBAL_KEY
    ensures CanCall(Run(FRESH, ops).state, tool, now) == AnswerFrom(Past(ops), tool, now)
  {
    hide CountsAlike, BacksOffAlike, AnswerFrom, CanCall, Past, Run;
    RunIsAlike(ops, start);
    SameAnswerFrom(Run(FRESH, ops).state, Past(ops), tool, ClockAfter(ops, start), now);
  }
}
