/** The rate limiter: sliding windows per tool and over all tools, exponential backoff, and
    pruning, driven by `_execute_tool`. Times are seconds as reals. */
module RateLimit {
  import opened Text

  const GLOBAL_KEY := "__global__"

  /** A row of `rate_calls`; also one recorded call in the history of a run. */
  datatype Entry = Entry(tool: string, at: real)

  /** A row of `rate_errors`. */
  datatype Backoff = Backoff(count: nat, until: real)

  datatype State = State(calls: seq<Entry>, errors: map<string, Backoff>)

  const FRESH := State([], map[])

  datatype Window = Minute | Hour | Day

  const DAY_SECONDS: real := 86400.0

  function Seconds(w: Window): real {
    match w
    case Minute => 60.0
    case Hour => 3600.0
    case Day => DAY_SECONDS
  }

  /** Which entries are counted: those of one name, or all of them. */
  datatype Key = Of(tool: string) | All

  function Limit(key: Key, w: Window): nat {
    match w
    case Minute => if key.All? then 30 else 10
    case Hour => if key.All? then 500 else 100
    case Day => if key.All? then 5000 else 1000
  }

  predicate Matches(key: Key, e: Entry) {
    key.All? || e.tool == key.tool
  }

  /** `SELECT COUNT(*) ... WHERE tool_name = ? AND called_at > ?` */
  function CountSince(es: seq<Entry>, key: Key, cutoff: real): nat {
    if es == [] then 0 else
      var e := es[|es| - 1];
      CountSince(es[..|es| - 1], key, cutoff) + if Matches(key, e) && e.at > cutoff then 1 else 0
  }

  // ---------------------------------------------------------------- operations

  datatype Answer = Allowed | OnBackoff | ToolExceeded(window: Window) | GlobalExceeded(window: Window)

  predicate Exceeds(s: State, name: string, w: Window, limit: nat, now: real) {
    CountSince(s.calls, Of(name), now - Seconds(w)) >= limit
  }

  /** `can_call` */
  function CanCall(s: State, tool: string, now: real): Answer {
    if tool in s.errors && s.errors[tool].until > now then OnBackoff
    else if Exceeds(s, tool, Minute, 10, now) then ToolExceeded(Minute)
    else if Exceeds(s, tool, Hour, 100, now) then ToolExceeded(Hour)
    else if Exceeds(s, tool, Day, 1000, now) then ToolExceeded(Day)
    else if Exceeds(s, GLOBAL_KEY, Minute, 30, now) then GlobalExceeded(Minute)
    else if Exceeds(s, GLOBAL_KEY, Hour, 500, now) then GlobalExceeded(Hour)
    else if Exceeds(s, GLOBAL_KEY, Day, 5000, now) then GlobalExceeded(Day)
    else Allowed
  }

  /** `record_call`: one row for the tool, one for the global key, and the backoff is reset. */
  function RecordCall(s: State, tool: string, now: real): State {
    State(s.calls + [Entry(tool, now), Entry(GLOBAL_KEY, now)], s.errors[tool := Backoff(0, 0.0)])
  }

  /** The backoff after the n-th error in a row: 1 min, 10 min, 1 h, then 24 h each time. */
  function BackoffSeconds(n: nat): real
    requires n >= 1
  {
    var sequence := [60.0, 600.0, 3600.0, 86400.0];
    sequence[if n - 1 < 3 then n - 1 else 3]
  }

  /** `record_error` */
  function RecordError(s: State, tool: string, now: real): State {
    var count := if tool in s.errors then s.errors[tool].count + 1 else 1;
    s.(errors := s.errors[tool := Backoff(count, now + BackoffSeconds(count))])
  }

  function KeepFrom(es: seq<Entry>, cutoff: real): seq<Entry> {
    if es == [] then [] else
      var e := es[|es| - 1];
      KeepFrom(es[..|es| - 1], cutoff) + if e.at < cutoff then [] else [e]
  }

  /** `prune_old_records` */
  function Prune(s: State, now: real, days: int): State {
    s.(calls := KeepFrom(s.calls, now - days as real * DAY_SECONDS))
  }

  /** Texts that did not use the tool and are not counted. */
  predicate IsUncounted(text: string) {
    StartsWith(text, "BLOCKED:") || StartsWith(text, "OPERATOR_HOLD") || StartsWith(text, "RATE_LIMITED")
  }

  /** How a tool call that passed the check ends: a text, at the time it is recorded; a text
      whose verification raises if it is counted; the hard stop; or an error. */
  datatype Outcome =
    | Returned(text: string, at: real)
    | ReturnedThenRaised(text: string, at: real, errorAt: real)
    | HardStop
    | Raised(errorAt: real)

  predicate IsCounted(outcome: Outcome) {
    (outcome.Returned? || outcome.ReturnedThenRaised?) && !IsUncounted(outcome.text)
  }

  datatype Op = Execute(tool: string, checkAt: real, outcome: Outcome) | PruneOld(now: real, days: int)

  /** One `_execute_tool` (or one pruning). */
  function Step(s: State, op: Op): State {
    match op
    case PruneOld(now, days) => Prune(s, now, days)
    case Execute(tool, checkAt, outcome) =>
      if CanCall(s, tool, checkAt) != Allowed then s else
        match outcome
        case HardStop => s
        case Returned(text, at) => if IsUncounted(text) then s else RecordCall(s, tool, at)
        case ReturnedThenRaised(text, at, errorAt) =>
          if IsUncounted(text) then s else RecordError(RecordCall(s, tool, at), tool, errorAt)
        case Raised(errorAt) => RecordError(s, tool, errorAt)
  }

  /** The call a step records in the run's history. */
  function Recorded(s: State, op: Op): seq<Entry> {
    if op.Execute? && CanCall(s, op.tool, op.checkAt) == Allowed && IsCounted(op.outcome)
    then [Entry(op.tool, op.outcome.at)] else []
  }

  datatype Trace = Trace(state: State, log: seq<Entry>)

  /** The state and the history after a run of steps. */
  function Run(s: State, ops: seq<Op>): Trace {
    if ops == [] then Trace(s, []) else
      var t := Run(s, ops[..|ops| - 1]);
      var op := ops[|ops| - 1];
      Trace(Step(t.state, op), t.log + Recorded(t.state, op))
  }

  class RateLimiter {
    var rateCalls: seq<Entry>
    var rateErrors: map<string, Backoff>

    function Now(): State
      reads this
    {
      State(rateCalls, rateErrors)
    }

    constructor ()
      ensures Now() == FRESH
    {
      rateCalls, rateErrors := [], map[];
    }

    method Check(tool: string, now: real) returns (a: Answer)
      ensures a == CanCall(Now(), tool, now)
    {
      if tool in rateErrors {
        if rateErrors[tool].until > now { return OnBackoff; }
      }
      var minuteAgo, hourAgo, dayAgo := now - 60.0, now - 3600.0, now - 86400.0;
      if CountSince(rateCalls, Of(tool), minuteAgo) >= 10 { return ToolExceeded(Minute); }
      if CountSince(rateCalls, Of(tool), hourAgo) >= 100 { return ToolExceeded(Hour); }
      if CountSince(rateCalls, Of(tool), dayAgo) >= 1000 { return ToolExceeded(Day); }
      var g := Of(GLOBAL_KEY);
      if CountSince(rateCalls, g, minuteAgo) >= 30 { return GlobalExceeded(Minute); }
      if CountSince(rateCalls, g, hourAgo) >= 500 { return GlobalExceeded(Hour); }
      if CountSince(rateCalls, g, dayAgo) >= 5000 { return GlobalExceeded(Day); }
      a := Allowed;
    }

    method Record(tool: string, now: real)
      modifies this
      ensures Now() == RecordCall(old(Now()), tool, now)
    {
      rateCalls := rateCalls + [Entry(tool, now)];
      rateCalls := rateCalls + [Entry(GLOBAL_KEY, now)];
      rateErrors := rateErrors[tool := Backoff(0, 0.0)];
      assert rateCalls == old(rateCalls) + [Entry(tool, now), Entry(GLOBAL_KEY, now)];
    }

    method RecordFailure(tool: string, now: real)
      modifies this
      ensures Now() == RecordError(old(Now()), tool, now)
    {
      var errorCount := if tool in rateErrors then rateErrors[tool].count + 1 else 1;
      var sequence := [60.0, 600.0, 3600.0, 86400.0];
      var idx := if errorCount - 1 < |sequence| - 1 then errorCount - 1 else |sequence| - 1;
      rateErrors := rateErrors[tool := Backoff(errorCount, now + sequence[idx])];
    }

    method PruneOldRecords(now: real, days: int)
      modifies this
      ensures Now() == Prune(old(Now()), now, days)
    {
      var cutoff := now - days as real * DAY_SECONDS;
      var kept: seq<Entry> := [];
      for i := 0 to |rateCalls|
        invariant kept == KeepFrom(rateCalls[..i], cutoff)
      {
        assert rateCalls[..i + 1][..i] == rateCalls[..i];
        if !(rateCalls[i].at < cutoff) {
          kept := kept + [rateCalls[i]];
        }
      }
      assert rateCalls[..|rateCalls|] == rateCalls;
      rateCalls := kept;
    }

    /** `_execute_tool`, reduced to what it tells the limiter. */
    method ExecuteTool(tool: string, checkAt: real, outcome: Outcome) returns (ran: bool)
      modifies this
      ensures Now() == Step(old(Now()), Execute(tool, checkAt, outcome))
      ensures ran <==> CanCall(old(Now()), tool, checkAt) == Allowed
    {
      var allowed := Check(tool, checkAt);
      if allowed != Allowed { return false; }
      ran := true;
      match outcome
      case HardStop =>
      case Returned(text, at) =>
        if !(StartsWith(text, "BLOCKED:") || StartsWith(text, "OPERATOR_HOLD") || StartsWith(text, "RATE_LIMITED")) {
          Record(tool, at);
        }
      case ReturnedThenRaised(text, at, errorAt) =>
        if !(StartsWith(text, "BLOCKED:") || StartsWith(text, "OPERATOR_HOLD") || StartsWith(text, "RATE_LIMITED")) {
          Record(tool, at);
          RecordFailure(tool, errorAt);
        }
      case Raised(errorAt) => RecordFailure(tool, errorAt);
    }
  }

  // ---------------------------------------------------------------- the clock

  /** The times inside one step, first and last, and that they are in order. */
  function FirstTime(op: Op): real {
    match op
    case PruneOld(now, _) => now
    case Execute(_, checkAt, _) => checkAt
  }

  function LastTime(op: Op): real {
    match op
    case PruneOld(now, _) => now
    case Execute(_, checkAt, outcome) =>
      match outcome
      case HardStop => checkAt
      case Returned(_, at) => at
      case ReturnedThenRaised(_, _, errorAt) => errorAt
      case Raised(errorAt) => errorAt
  }

  predicate OrderedInside(op: Op) {
    && FirstTime(op) <= LastTime(op)
    && (op.Execute? && op.outcome.ReturnedThenRaised? ==> op.checkAt <= op.outcome.at <= op.outcome.errorAt)
  }

  function ClockAfter(ops: seq<Op>, start: real): real {
    if ops == [] then start else LastTime(ops[|ops| - 1])
  }

  /** The clock never goes back, and prunings keep at least one day. Each recorded call follows
      its own check within the step, so no other record comes in between. */
  predicate Clocked(ops: seq<Op>, start: real) {
    ops == [] ||
    (var before, op := ops[..|ops| - 1], ops[|ops| - 1];
     Clocked(before, start) && ClockAfter(before, start) <= FirstTime(op) && OrderedInside(op)
     && (op.PruneOld? ==> op.days >= 1))
  }

  // ---------------------------------------------------------------- the rate bound

  /** The half-open windows (x, x + w] and [x, x + w). */
  predicate InWindow(at: real, x: real, w: real, leftOpen: bool) {
    if leftOpen then x < at <= x + w else x <= at < x + w
  }

  function CountInWindow(es: seq<Entry>, key: Key, x: real, w: real, leftOpen: bool): nat {
    if es == [] then 0 else
      var e := es[|es| - 1];
      CountInWindow(es[..|es| - 1], key, x, w, leftOpen) + if Matches(key, e) && InWindow(e.at, x, w, leftOpen) then 1 else 0
  }

  /** Nowhere in time does a window hold more recorded calls than its limit, for any one tool
      or over all tools. */
  ghost predicate WithinLimits(log: seq<Entry>) {
    forall key, w, x, leftOpen :: CountInWindow(log, key, x, Seconds(w), leftOpen) <= Limit(key, w)
  }

  /** The name under which the table counts a key. */
  function TableKey(key: Key): Key {
    if key.All? then Of(GLOBAL_KEY) else key
  }

  /** The table still knows every recorded call of the last day. */
  ghost predicate Tracks(s: State, log: seq<Entry>, now: real) {
    forall key, cutoff :: cutoff >= now - DAY_SECONDS ==>
      CountSince(log, key, cutoff) <= CountSince(s.calls, TableKey(key), cutoff)
  }

  lemma AppendCount(es: seq<Entry>, e: Entry, key: Key, cutoff: real)
    ensures CountSince(es + [e], key, cutoff) ==
            CountSince(es, key, cutoff) + if Matches(key, e) && e.at > cutoff then 1 else 0
  {
    assert (es + [e])[..|es|] == es;
  }

  lemma AppendRecord(es: seq<Entry>, tool: string, at: real, key: Key, cutoff: real)
    ensures CountSince(es + [Entry(tool, at), Entry(GLOBAL_KEY, at)], key, cutoff) ==
            CountSince(es, key, cutoff)
            + (if Matches(key, Entry(tool, at)) && at > cutoff then 1 else 0)
            + (if Matches(key, Entry(GLOBAL_KEY, at)) && at > cutoff then 1 else 0)
  {
    AppendCount(es, Entry(tool, at), key, cutoff);
    AppendCount(es + [Entry(tool, at)], Entry(GLOBAL_KEY, at), key, cutoff);
    assert es + [Entry(tool, at)] + [Entry(GLOBAL_KEY, at)] == es + [Entry(tool, at), Entry(GLOBAL_KEY, at)];
  }

  lemma {:induction false} KeptCount(es: seq<Entry>, from: real, key: Key, cutoff: real)
    requires from <= cutoff
    ensures CountSince(KeepFrom(es, from), key, cutoff) == CountSince(es, key, cutoff)
  {
    if es != [] {
      var n := |es| - 1;
      KeptCount(es[..n], from, key, cutoff);
      var kept := KeepFrom(es[..n], from);
      if es[n].at < from {
        assert kept + [] == kept;
      } else {
        AppendCount(kept, es[n], key, cutoff);
      }
    }
  }

  /** A window that still contains a time not before `check` lies within the last w seconds. */
  lemma {:induction false} WindowWithinSince(es: seq<Entry>, key: Key, x: real, w: real, leftOpen: bool, check: real, at: real)
    requires InWindow(at, x, w, leftOpen) && check <= at
    ensures CountInWindow(es, key, x, w, leftOpen) <= CountSince(es, key, check - w)
  {
    if es != [] {
      WindowWithinSince(es[..|es| - 1], key, x, w, leftOpen, check, at);
    }
  }

  /** The heart of the bound: an allowed call may be recorded at any later time. */
  lemma RecordKeepsLimits(s: State, log: seq<Entry>, now: real, tool: string, check: real, at: real)
    requires Tracks(s, log, now) && WithinLimits(log)
    requires now <= check <= at && CanCall(s, tool, check) == Allowed
    ensures WithinLimits(log + [Entry(tool, at)])
  {
    var e := Entry(tool, at);
    forall key, w, x, leftOpen
      ensures CountInWindow(log + [e], key, x, Seconds(w), leftOpen) <= Limit(key, w)
    {
      assert (log + [e])[..|log|] == log;
      assert CountInWindow(log, key, x, Seconds(w), leftOpen) <= Limit(key, w);
      if Matches(key, e) && InWindow(at, x, Seconds(w), leftOpen) {
        WindowWithinSince(log, key, x, Seconds(w), leftOpen, check, at);
        assert check - Seconds(w) >= now - DAY_SECONDS;
      }
    }
  }

  lemma RecordKeepsTracking(s: State, log: seq<Entry>, now: real, tool: string, at: real)
    requires Tracks(s, log, now) && now <= at
    ensures Tracks(RecordCall(s, tool, at), log + [Entry(tool, at)], at)
  {
    forall key, cutoff | cutoff >= at - DAY_SECONDS
      ensures CountSince(log + [Entry(tool, at)], key, cutoff)
           <= CountSince(RecordCall(s, tool, at).calls, TableKey(key), cutoff)
    {
      AppendCount(log, Entry(tool, at), key, cutoff);
      AppendRecord(s.calls, tool, at, TableKey(key), cutoff);
      assert CountSince(log, key, cutoff) <= CountSince(s.calls, TableKey(key), cutoff);
    }
  }

  lemma TrackingLasts(s: State, t: State, log: seq<Entry>, now: real, later: real)
    requires Tracks(s, log, now) && now <= later && t.calls == s.calls
    ensures Tracks(t, log, later)
  {
  }

  lemma PruneKeepsTracking(s: State, log: seq<Entry>, now: real, later: real, days: int)
    requires Tracks(s, log, now) && now <= later && days >= 1
    ensures Tracks(Prune(s, later, days), log, later)
  {
    var from := later - days as real * DAY_SECONDS;
    assert from <= later - DAY_SECONDS;
    forall key, cutoff | cutoff >= later - DAY_SECONDS
      ensures CountSince(log, key, cutoff) <= CountSince(KeepFrom(s.calls, from), TableKey(key), cutoff)
    {
      KeptCount(s.calls, from, TableKey(key), cutoff);
      assert CountSince(log, key, cutoff) <= CountSince(s.calls, TableKey(key), cutoff);
    }
  }

  lemma StepKeepsLimits(s: State, log: seq<Entry>, now: real, op: Op)
    requires Tracks(s, log, now) && WithinLimits(log)
    requires now <= FirstTime(op) && OrderedInside(op) && (op.PruneOld? ==> op.days >= 1)
    ensures Tracks(Step(s, op), log + Recorded(s, op), LastTime(op)) && WithinLimits(log + Recorded(s, op))
  {
    assert log + [] == log;
    match op
    case PruneOld(later, days) => PruneKeepsTracking(s, log, now, later, days);
    case Execute(tool, check, outcome) =>
      if CanCall(s, tool, check) != Allowed || !IsCounted(outcome) {
        TrackingLasts(s, Step(s, op), log, now, LastTime(op));
      } else {
        RecordKeepsLimits(s, log, now, tool, check, outcome.at);
        RecordKeepsTracking(s, log, now, tool, outcome.at);
        TrackingLasts(RecordCall(s, tool, outcome.at), Step(s, op), log + Recorded(s, op), outcome.at, LastTime(op));
      }
  }

  /** The rate bound over every run from a fresh table, whatever tools are called, however
      long each runs between check and record, and wherever prunings happen. */
  lemma {:induction false} RateBound(ops: seq<Op>, start: real)
    requires Clocked(ops, start)
    ensures WithinLimits(Run(FRESH, ops).log)
    ensures Tracks(Run(FRESH, ops).state, Run(FRESH, ops).log, ClockAfter(ops, start))
  {
    if ops != [] {
      var n := |ops| - 1;
      RateBound(ops[..n], start);
      var t := Run(FRESH, ops[..n]);
      StepKeepsLimits(t.state, t.log, ClockAfter(ops[..n], start), ops[n]);
    }
  }

  // ---------------------------------------------------------------- pruning is invisible

  /** Two tables that no question asked from `now` on can tell apart. */
  ghost predicate Indistinguishable(s: State, t: State, now: real) {
    && s.errors == t.errors
    && forall key, cutoff :: cutoff >= now - DAY_SECONDS ==> CountSince(s.calls, key, cutoff) == CountSince(t.calls, key, cutoff)
  }

  lemma SameAnswer(s: State, t: State, now: real, tool: string, later: real)
    requires Indistinguishable(s, t, now) && now <= later
    ensures CanCall(s, tool, later) == CanCall(t, tool, later)
  {
    forall name, w, limit ensures Exceeds(s, name, w, limit, later) == Exceeds(t, name, w, limit, later) {
      assert CountSince(s.calls, Of(name), later - Seconds(w)) == CountSince(t.calls, Of(name), later - Seconds(w));
    }
  }

  lemma RecordStaysAlike(s: State, t: State, now: real, tool: string, at: real)
    requires Indistinguishable(s, t, now)
    ensures Indistinguishable(RecordCall(s, tool, at), RecordCall(t, tool, at), now)
  {
    forall key, cutoff | cutoff >= now - DAY_SECONDS
      ensures CountSince(RecordCall(s, tool, at).calls, key, cutoff) == CountSince(RecordCall(t, tool, at).calls, key, cutoff)
    {
      AppendRecord(s.calls, tool, at, key, cutoff);
      AppendRecord(t.calls, tool, at, key, cutoff);
    }
  }

  lemma PruneStaysAlike(s: State, t: State, now: real, later: real, days: int)
    requires Indistinguishable(s, t, now) && now <= later && days >= 1
    ensures Indistinguishable(Prune(s, later, days), Prune(t, later, days), later)
    ensures Indistinguishable(Prune(s, later, days), t, later)
  {
    var from := later - days as real * DAY_SECONDS;
    assert from <= later - DAY_SECONDS;
    forall key, cutoff | cutoff >= later - DAY_SECONDS
      ensures CountSince(KeepFrom(s.calls, from), key, cutoff) == CountSince(t.calls, key, cutoff)
      ensures CountSince(KeepFrom(t.calls, from), key, cutoff) == CountSince(t.calls, key, cutoff)
    {
      KeptCount(s.calls, from, key, cutoff);
      KeptCount(t.calls, from, key, cutoff);
    }
  }

  lemma StepStaysAlike(s: State, t: State, now: real, op: Op)
    requires Indistinguishable(s, t, now)
    requires now <= FirstTime(op) && OrderedInside(op) && (op.PruneOld? ==> op.days >= 1)
    ensures Indistinguishable(Step(s, op), Step(t, op), LastTime(op)) && Recorded(s, op) == Recorded(t, op)
  {
    match op
    case PruneOld(later, days) => PruneStaysAlike(s, t, now, later, days);
    case Execute(tool, check, outcome) =>
      SameAnswer(s, t, now, tool, check);
      if IsCounted(outcome) {
        RecordStaysAlike(s, t, now, tool, outcome.at);
      }
  }

  /** Pruning at any point, keeping at least one day, changes no later answer: whatever run
      follows, the same calls are recorded and every further question gets the same reply. */
  lemma {:induction false} PruningIsInvisible(s: State, now: real, days: int, ops: seq<Op>, tool: string, later: real)
    requires days >= 1 && Clocked(ops, now) && ClockAfter(ops, now) <= later
    ensures Run(Prune(s, now, days), ops).log == Run(s, ops).log
    ensures CanCall(Run(Prune(s, now, days), ops).state, tool, later) == CanCall(Run(s, ops).state, tool, later)
  {
    RunStaysAlike(s, now, days, ops);
    SameAnswer(Run(Prune(s, now, days), ops).state, Run(s, ops).state, ClockAfter(ops, now), tool, later);
  }

  lemma {:induction false} RunStaysAlike(s: State, now: real, days: int, ops: seq<Op>)
    requires days >= 1 && Clocked(ops, now)
    ensures Run(Prune(s, now, days), ops).log == Run(s, ops).log
    ensures Indistinguishable(Run(Prune(s, now, days), ops).state, Run(s, ops).state, ClockAfter(ops, now))
  {
    if ops == [] {
      PruneStaysAlike(s, s, now, now, days);
    } else {
      var n := |ops| - 1;
      RunStaysAlike(s, now, days, ops[..n]);
      StepStaysAlike(Run(Prune(s, now, days), ops[..n]).state, Run(s, ops[..n]).state, ClockAfter(ops[..n], now), ops[n]);
    }
  }

  /** One day is the exact threshold: with any smaller argument a limiter that has used up a
      minute's budget forgets it. The table is that of a run: ten calls at time 0. */
  lemma ShorterPruningIsVisible(days: int)
    requires days <= 0
    ensures Clocked(TenCalls(10), 0.0)
    ensures var s := Run(FRESH, TenCalls(10)).state;
            && CanCall(s, "t", 1.0) == ToolExceeded(Minute)
            && CanCall(Prune(s, 1.0, days), "t", 1.0) == Allowed
  {
    var s := Run(FRESH, TenCalls(10)).state;
    TenCallsRun(10);
    CopiesCount(10, -59.0);
    var from := 1.0 - days as real * DAY_SECONDS;
    assert from >= 1.0;
    CopiesPruned(10, from);
    hide Run;
    assert Prune(s, 1.0, days).calls == [];
  }

  function TenCalls(n: nat): seq<Op> {
    if n == 0 then [] else TenCalls(n - 1) + [Execute("t", 0.0, Returned("ok", 0.0))]
  }

  function Copies(n: nat): seq<Entry> {
    if n == 0 then [] else Copies(n - 1) + [Entry("t", 0.0), Entry(GLOBAL_KEY, 0.0)]
  }

  lemma {:induction false} TenCallsRun(n: nat)
    requires n <= 10
    ensures Clocked(TenCalls(n), 0.0) && ClockAfter(TenCalls(n), 0.0) == 0.0
    ensures Run(FRESH, TenCalls(n)).state == State(Copies(n), if n == 0 then map[] else map["t" := Backoff(0, 0.0)])
  {
    hide Step, Recorded, Copies;
    if n == 0 {
      assert Copies(0) == [] by { NoCopies(); }
    } else {
      TenCallsRun(n - 1);
      var ops := TenCalls(n);
      assert ops[..|ops| - 1] == TenCalls(n - 1);
      OneMoreCall(n, Run(FRESH, TenCalls(n - 1)).state);
    }
  }

  lemma NoCopies()
    ensures Copies(0) == []
  {
  }

  lemma OneMoreCall(n: nat, s: State)
    requires 0 < n <= 10 && s.calls == Copies(n - 1)
    requires s.errors == if n == 1 then map[] else map["t" := Backoff(0, 0.0)]
    ensures Step(s, Execute("t", 0.0, Returned("ok", 0.0))) == State(Copies(n), map["t" := Backoff(0, 0.0)])
  {
    CopiesCount(n - 1, -60.0);
    CopiesCount(n - 1, -3600.0);
    CopiesCount(n - 1, -86400.0);
    assert CanCall(s, "t", 0.0) == Allowed;
    assert s.errors["t" := Backoff(0, 0.0)] == map["t" := Backoff(0, 0.0)];
  }

  lemma {:induction false} CopiesCount(n: nat, cutoff: real)
    requires cutoff < 0.0
    ensures CountSince(Copies(n), Of("t"), cutoff) == n
    ensures CountSince(Copies(n), Of(GLOBAL_KEY), cutoff) == n
  {
    if n > 0 {
      CopiesCount(n - 1, cutoff);
      AppendRecord(Copies(n - 1), "t", 0.0, Of("t"), cutoff);
      AppendRecord(Copies(n - 1), "t", 0.0, Of(GLOBAL_KEY), cutoff);
    }
  }

  lemma {:induction false} CopiesPruned(n: nat, from: real)
    requires from > 0.0
    ensures KeepFrom(Copies(n), from) == []
  {
    if n > 0 {
      var before := Copies(n - 1);
      CopiesPruned(n - 1, from);
      assert Copies(n) == before + [Entry("t", 0.0)] + [Entry(GLOBAL_KEY, 0.0)];
    }
  }

  // ---------------------------------------------------------------- conservation

  /** How often the timestamp v occurs under the global key, or under all other names. */
  function TimesAt(es: seq<Entry>, global: bool, v: real): nat {
    if es == [] then 0 else
      var e := es[|es| - 1];
      TimesAt(es[..|es| - 1], global, v) + if (e.tool == GLOBAL_KEY) == global && e.at == v then 1 else 0
  }

  lemma AppendTimes(es: seq<Entry>, e: Entry, global: bool, v: real)
    ensures TimesAt(es + [e], global, v) ==
            TimesAt(es, global, v) + if (e.tool == GLOBAL_KEY) == global && e.at == v then 1 else 0
  {
    assert (es + [e])[..|es|] == es;
  }

  lemma {:induction false} KeptTimes(es: seq<Entry>, from: real, global: bool, v: real)
    ensures TimesAt(KeepFrom(es, from), global, v) == if v < from then 0 else TimesAt(es, global, v)
  {
    if es != [] {
      var n := |es| - 1;
      KeptTimes(es[..n], from, global, v);
      var kept := KeepFrom(es[..n], from);
      if es[n].at < from {
        assert kept + [] == kept;
      } else {
        AppendTimes(kept, es[n], global, v);
      }
    }
  }

  lemma RecordedTimes(es: seq<Entry>, tool: string, at: real, v: real)
    requires tool != GLOBAL_KEY && TimesAt(es, true, v) == TimesAt(es, false, v)
    ensures var es' := es + [Entry(tool, at), Entry(GLOBAL_KEY, at)]; TimesAt(es', true, v) == TimesAt(es', false, v)
  {
    forall global ensures
      TimesAt(es + [Entry(tool, at), Entry(GLOBAL_KEY, at)], global, v) == TimesAt(es, global, v) + if at == v then 1 else 0
    {
      AppendTimes(es, Entry(tool, at), global, v);
      AppendTimes(es + [Entry(tool, at)], Entry(GLOBAL_KEY, at), global, v);
      assert es + [Entry(tool, at)] + [Entry(GLOBAL_KEY, at)] == es + [Entry(tool, at), Entry(GLOBAL_KEY, at)];
    }
  }

  /** The global ledger conserves: after any run over tools not named like the global key,
      prunings of any length included, every timestamp is stored under the global key exactly
      as often as under the tools. */
  lemma {:induction false} GlobalLedgerConserves(ops: seq<Op>, v: real)
    requires forall i :: 0 <= i < |ops| && ops[i].Execute? ==> ops[i].tool != GLOBAL_KEY
    ensures TimesAt(Run(FRESH, ops).state.calls, true, v) == TimesAt(Run(FRESH, ops).state.calls, false, v)
  {
    if ops != [] {
      var n := |ops| - 1;
      GlobalLedgerConserves(ops[..n], v);
      StepConserves(Run(FRESH, ops[..n]).state, ops[n], v);
    }
  }

  lemma StepConserves(s: State, op: Op, v: real)
    requires op.Execute? ==> op.tool != GLOBAL_KEY
    requires TimesAt(s.calls, true, v) == TimesAt(s.calls, false, v)
    ensures TimesAt(Step(s, op).calls, true, v) == TimesAt(Step(s, op).calls, false, v)
  {
    if op.PruneOld? {
      KeptTimes(s.calls, op.now - op.days as real * DAY_SECONDS, true, v);
      KeptTimes(s.calls, op.now - op.days as real * DAY_SECONDS, false, v);
    } else if IsCounted(op.outcome) {
      RecordedTimes(s.calls, op.tool, op.outcome.at, v);
    }
  }

  // ---------------------------------------------------------------- backoff

  /** While a tool is on backoff nothing about it changes: whatever else runs, every attempt
      checked before `until` is refused and none is recorded. */
  lemma {:induction false} BackoffHolds(s: State, tool: string, ops: seq<Op>)
    requires tool in s.errors
    requires forall i :: 0 <= i < |ops| && ops[i].Execute? && ops[i].tool == tool ==> ops[i].checkAt < s.errors[tool].until
    ensures tool in Run(s, ops).state.errors && Run(s, ops).state.errors[tool] == s.errors[tool]
    ensures forall e :: e in Run(s, ops).log ==> e.tool != tool
  {
    if ops != [] {
      BackoffHolds(s, tool, ops[..|ops| - 1]);
    }
  }

  function FailAt(s: State, tool: string, times: seq<real>): State {
    if times == [] then s else RecordError(FailAt(s, tool, times[..|times| - 1]), tool, times[|times| - 1])
  }

  /** Errors in a row escalate the backoff 1 min, 10 min, 1 h, 24 h, 24 h, ... */
  lemma {:induction false} ErrorsEscalate(s: State, tool: string, times: seq<real>)
    requires times != [] && (tool !in s.errors || s.errors[tool].count == 0)
    ensures var f, n := FailAt(s, tool, times), |times|;
            var wait := if n == 1 then 60.0 else if n == 2 then 600.0 else if n == 3 then 3600.0 else 86400.0;
            tool in f.errors && f.errors[tool] == Backoff(n, times[n - 1] + wait) && f.calls == s.calls
  {
    var n := |times| - 1;
    if n > 0 {
      ErrorsEscalate(s, tool, times[..n]);
    } else {
      assert FailAt(s, tool, times[..n]) == s;
    }
  }
}
