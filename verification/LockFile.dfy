/** `_locked_append` as a protocol of any number of processes that share one lock file and one
    text file, interleaved at their file-system steps. */
module LockFile {
  // The exclusive create is one atomic step; a write may reach the file in any number of pieces.

  const RETRIES := 8

  /** Where a process stands. `locked` says whether it holds the lock file or went on without
      it after exhausting its retries. */
  datatype Pc =
    | Trying(failed: nat)
    | Writing(locked: bool, written: nat)
    | Releasing(locked: bool)
    | Finished(locked: bool)

  /** The shared state; `order` records the processes in the order they started writing. */
  datatype State = State(lockFile: bool, file: string, pcs: seq<Pc>, order: seq<nat>)

  datatype Action = TryCreate(p: nat) | WriteSome(p: nat, count: nat) | EndWrite(p: nat) | Unlink(p: nat)

  function Init(n: nat): State {
    State(false, "", seq(n, _ => Trying(0)), [])
  }

  /** One attempt: O_CREAT | O_EXCL succeeds exactly when the file is absent; the last failing
      attempt falls into the loop's `else` and goes on without the lock. */
  function AfterAttempt(pc: Pc, busy: bool): Pc
    requires pc.Trying?
  {
    if !busy then Writing(true, 0)
    else if pc.failed + 1 < RETRIES then Trying(pc.failed + 1)
    else Writing(false, 0)
  }

  predicate Enabled(entries: seq<string>, s: State, a: Action)
    requires |s.pcs| == |entries|
  {
    a.p < |entries| &&
    match a
    case TryCreate(p) => s.pcs[p].Trying?
    case WriteSome(p, count) => s.pcs[p].Writing? && 0 < count && s.pcs[p].written + count <= |entries[p]|
    case EndWrite(p) => s.pcs[p].Writing? && s.pcs[p].written == |entries[p]|
    case Unlink(p) => s.pcs[p].Releasing?
  }

  function Step(entries: seq<string>, s: State, a: Action): (t: State)
    requires |s.pcs| == |entries| && Enabled(entries, s, a)
    ensures |t.pcs| == |entries|
  {
    var pc := s.pcs[a.p];
    match a
    case TryCreate(p) =>
      var next := AfterAttempt(pc, s.lockFile);
      State(true, s.file, s.pcs[p := next], if next.Writing? then s.order + [p] else s.order)
    case WriteSome(p, count) =>
      s.(file := s.file + entries[p][pc.written..pc.written + count],
         pcs := s.pcs[p := Writing(pc.locked, pc.written + count)])
    case EndWrite(p) => s.(pcs := s.pcs[p := Releasing(pc.locked)])
    // a missing lock file is ignored
    case Unlink(p) => s.(lockFile := false, pcs := s.pcs[p := Finished(pc.locked)])
  }

  ghost predicate ValidRun(entries: seq<string>, s: State, actions: seq<Action>)
    requires |s.pcs| == |entries|
    decreases |actions|
  {
    actions == [] || (Enabled(entries, s, actions[0]) && ValidRun(entries, Step(entries, s, actions[0]), actions[1..]))
  }

  ghost function Run(entries: seq<string>, s: State, actions: seq<Action>): (t: State)
    requires |s.pcs| == |entries| && ValidRun(entries, s, actions)
    ensures |t.pcs| == |entries|
    decreases |actions|
  {
    if actions == [] then s else Run(entries, Step(entries, s, actions[0]), actions[1..])
  }

  /** The retry loop of one process, given what each attempt meets. */
  method Acquire(busy: nat -> bool) returns (pc: Pc, attempts: nat)
    ensures pc.Writing? && pc.written == 0 && 1 <= attempts <= RETRIES
    ensures pc.locked <==> exists i :: 0 <= i < RETRIES && !busy(i)
    ensures pc.locked ==> !busy(attempts - 1) && forall i :: 0 <= i < attempts - 1 ==> busy(i)
  {
    pc, attempts := Trying(0), 0;
    while pc.Trying?
      invariant pc.Trying? ==> pc.failed == attempts < RETRIES && forall i :: 0 <= i < attempts ==> busy(i)
      invariant !pc.Trying? ==> pc.Writing? && pc.written == 0 && 1 <= attempts <= RETRIES
      invariant pc == Writing(true, 0) ==> !busy(attempts - 1) && forall i :: 0 <= i < attempts - 1 ==> busy(i)
      invariant pc == Writing(false, 0) ==> forall i :: 0 <= i < RETRIES ==> busy(i)
      decreases if pc.Trying? then RETRIES - pc.failed else 0
    {
      pc := AfterAttempt(pc, busy(attempts));
      attempts := attempts + 1;
    }
  }

  // ---------------------------------------------------------------- the invariant

  /** Between create and unlink. */
  predicate Inside(pc: Pc) {
    (pc.Writing? || pc.Releasing?) && pc.locked
  }

  ghost predicate AtMostOneInside(s: State) {
    forall p, q :: 0 <= p < |s.pcs| && 0 <= q < |s.pcs| && Inside(s.pcs[p]) && Inside(s.pcs[q]) ==> p == q
  }

  predicate GaveUp(pc: Pc) {
    !pc.Trying? && !pc.locked
  }

  ghost predicate NoGiveUps(s: State) {
    forall p :: 0 <= p < |s.pcs| ==> !GaveUp(s.pcs[p])
  }

  function Concat(entries: seq<string>, order: seq<nat>): string
    requires forall i :: 0 <= i < |order| ==> order[i] < |entries|
  {
    if order == [] then "" else Concat(entries, order[..|order| - 1]) + entries[order[|order| - 1]]
  }

  /** How much of its entry a process that started has put into the file. */
  function Put(entries: seq<string>, pcs: seq<Pc>, p: nat): string
    requires p < |entries| == |pcs|
    requires pcs[p].Writing? ==> pcs[p].written <= |entries[p]|
  {
    if pcs[p].Writing? then entries[p][..pcs[p].written] else entries[p]
  }

  ghost predicate OrderOk(entries: seq<string>, s: State) {
    && |s.pcs| == |entries|
    && (forall i :: 0 <= i < |s.order| ==> s.order[i] < |entries|)
    && (forall i, j :: 0 <= i < j < |s.order| ==> s.order[i] != s.order[j])
    && (forall p :: 0 <= p < |entries| ==> (p in s.order <==> !s.pcs[p].Trying?))
    && (forall p :: 0 <= p < |entries| && s.pcs[p].Writing? ==> s.pcs[p].written <= |entries[p]|)
  }

  /** Only the last process in the order can be inside, the lock file exists exactly when it
      is, and the file is the earlier entries, whole and in order, then what it has put. */
  ghost predicate Inv(entries: seq<string>, s: State) {
    && OrderOk(entries, s)
    && (forall p :: 0 <= p < |entries| && Inside(s.pcs[p]) ==> s.order != [] && p == s.order[|s.order| - 1])
    && (s.lockFile <==> exists p :: 0 <= p < |entries| && Inside(s.pcs[p]))
    && (if s.order == [] then s.file == ""
        else var last := |s.order| - 1;
             s.file == Concat(entries, s.order[..last]) + Put(entries, s.pcs, s.order[last]))
  }

  lemma StepKeepsInv(entries: seq<string>, s: State, a: Action)
    requires Inv(entries, s) && Enabled(entries, s, a) && NoGiveUps(Step(entries, s, a))
    ensures Inv(entries, Step(entries, s, a))
  {
    match a
    case TryCreate(p) => if s.lockFile { AttemptFails(entries, s, p); } else { StartsWriting(entries, s, p); }
    case WriteSome(p, count) => WriteKeepsInv(entries, s, p, count);
    case EndWrite(p) => EndWriteKeepsInv(entries, s, p);
    case Unlink(p) => UnlinkKeepsInv(entries, s, p);
  }

  lemma AttemptFails(entries: seq<string>, s: State, p: nat)
    requires Inv(entries, s) && s.lockFile && p < |entries| && s.pcs[p].Trying?
    requires NoGiveUps(Step(entries, s, TryCreate(p)))
    ensures Inv(entries, Step(entries, s, TryCreate(p)))
  {
    hide Concat;
    var t := Step(entries, s, TryCreate(p));
    assert !GaveUp(t.pcs[p]);
    var q :| 0 <= q < |entries| && Inside(s.pcs[q]);
    assert Inside(t.pcs[q]);
  }

  lemma WriteKeepsInv(entries: seq<string>, s: State, p: nat, count: nat)
    requires Inv(entries, s) && Enabled(entries, s, WriteSome(p, count)) && NoGiveUps(Step(entries, s, WriteSome(p, count)))
    ensures Inv(entries, Step(entries, s, WriteSome(p, count)))
  {
    hide Concat;
    var t := Step(entries, s, WriteSome(p, count));
    assert !GaveUp(t.pcs[p]);
    assert Inside(s.pcs[p]) && Inside(t.pcs[p]);
    var w := s.pcs[p].written;
  }

  lemma EndWriteKeepsInv(entries: seq<string>, s: State, p: nat)
    requires Inv(entries, s) && Enabled(entries, s, EndWrite(p)) && NoGiveUps(Step(entries, s, EndWrite(p)))
    ensures Inv(entries, Step(entries, s, EndWrite(p)))
  {
    var t := Step(entries, s, EndWrite(p));
    assert !GaveUp(t.pcs[p]);
    assert Inside(s.pcs[p]) && Inside(t.pcs[p]);
    assert entries[p][..|entries[p]|] == entries[p];
  }

  lemma UnlinkKeepsInv(entries: seq<string>, s: State, p: nat)
    requires Inv(entries, s) && Enabled(entries, s, Unlink(p)) && NoGiveUps(Step(entries, s, Unlink(p)))
    ensures Inv(entries, Step(entries, s, Unlink(p)))
  {
    var t := Step(entries, s, Unlink(p));
    assert !GaveUp(t.pcs[p]);
    assert Inside(s.pcs[p]);
  }

  /** While nobody is inside, the file is the entries of those that started, whole. */
  lemma FileIsWhole(entries: seq<string>, s: State)
    requires Inv(entries, s) && !s.lockFile && NoGiveUps(s)
    ensures s.file == Concat(entries, s.order)
  {
    if s.order != [] {
      var q := s.order[|s.order| - 1];
      assert q in s.order && !GaveUp(s.pcs[q]) && !Inside(s.pcs[q]);
    }
  }

  lemma StartsWriting(entries: seq<string>, s: State, p: nat)
    requires Inv(entries, s) && !s.lockFile && p < |entries| && s.pcs[p].Trying?
    requires NoGiveUps(Step(entries, s, TryCreate(p)))
    ensures Inv(entries, Step(entries, s, TryCreate(p)))
  {
    GiveUpIsForever(entries, s, TryCreate(p));
    FileIsWhole(entries, s);
    hide Concat, NoGiveUps;
    var t := Step(entries, s, TryCreate(p));
    assert Inside(t.pcs[p]);
    assert t.order[..|s.order|] == s.order;
    forall q | 0 <= q < |entries| && q != p ensures !Inside(t.pcs[q]) {
      assert !Inside(s.pcs[q]);
    }
    assert Put(entries, t.pcs, p) == "";
  }

  lemma GiveUpIsForever(entries: seq<string>, s: State, a: Action)
    requires |s.pcs| == |entries| && Enabled(entries, s, a) && NoGiveUps(Step(entries, s, a))
    ensures NoGiveUps(s)
  {
    forall p | 0 <= p < |s.pcs| ensures !GaveUp(s.pcs[p]) {
      assert !GaveUp(Step(entries, s, a).pcs[p]);
    }
  }

  lemma {:induction false} NoGiveUpsBefore(entries: seq<string>, s: State, actions: seq<Action>)
    requires |s.pcs| == |entries| && ValidRun(entries, s, actions) && NoGiveUps(Run(entries, s, actions))
    ensures NoGiveUps(s)
    decreases |actions|
  {
    if actions != [] {
      NoGiveUpsBefore(entries, Step(entries, s, actions[0]), actions[1..]);
      GiveUpIsForever(entries, s, actions[0]);
    }
  }

  lemma {:induction false} RunKeepsInv(entries: seq<string>, s: State, actions: seq<Action>)
    requires Inv(entries, s) && ValidRun(entries, s, actions) && NoGiveUps(Run(entries, s, actions))
    ensures Inv(entries, Run(entries, s, actions))
    decreases |actions|
  {
    if actions != [] {
      var t := Step(entries, s, actions[0]);
      NoGiveUpsBefore(entries, t, actions[1..]);
      StepKeepsInv(entries, s, actions[0]);
      RunKeepsInv(entries, t, actions[1..]);
    }
  }

  // ---------------------------------------------------------------- main results

  /** Mutual exclusion: after any interleaving of any number of processes none of which has
      exhausted its retries, at most one is between create and unlink, and the lock file exists
      exactly when one is. */
  lemma MutualExclusion(entries: seq<string>, actions: seq<Action>)
    requires ValidRun(entries, Init(|entries|), actions)
    requires NoGiveUps(Run(entries, Init(|entries|), actions))
    ensures var s := Run(entries, Init(|entries|), actions);
            && AtMostOneInside(s)
            && (s.lockFile <==> exists p :: 0 <= p < |s.pcs| && Inside(s.pcs[p]))
  {
    RunKeepsInv(entries, Init(|entries|), actions);
  }

  /** Appends are whole: at every moment the file is a concatenation of complete entries of
      distinct processes, followed by a prefix of the entry of the one that is writing. */
  lemma EntriesAreContiguous(entries: seq<string>, actions: seq<Action>)
    requires ValidRun(entries, Init(|entries|), actions)
    requires NoGiveUps(Run(entries, Init(|entries|), actions))
    ensures var s := Run(entries, Init(|entries|), actions);
            && OrderOk(entries, s)
            && (s.order == [] ==> s.file == "")
            && (s.order != [] ==>
                  var last := |s.order| - 1;
                  s.file == Concat(entries, s.order[..last]) + Put(entries, s.pcs, s.order[last])
                  && forall i :: 0 <= i < last ==> s.pcs[s.order[i]].Finished?)
  {
    hide Run, ValidRun, Concat, Put;
    RunKeepsInv(entries, Init(|entries|), actions);
    var s := Run(entries, Init(|entries|), actions);
    if s.order != [] {
      var last := |s.order| - 1;
      forall i | 0 <= i < last ensures s.pcs[s.order[i]].Finished? {
        assert s.order[i] in s.order && !GaveUp(s.pcs[s.order[i]]) && s.order[i] != s.order[last];
        assert !Inside(s.pcs[s.order[i]]);
      }
    }
  }

  ghost predicate AllFinished(s: State) {
    forall p :: 0 <= p < |s.pcs| ==> s.pcs[p] == Finished(true)
  }

  /** When all have finished, the file holds every entry exactly once, in some order. */
  lemma AllEntriesExactlyOnce(entries: seq<string>, actions: seq<Action>)
    requires ValidRun(entries, Init(|entries|), actions)
    requires AllFinished(Run(entries, Init(|entries|), actions))
    ensures var s := Run(entries, Init(|entries|), actions);
            && !s.lockFile
            && OrderOk(entries, s)
            && (forall p :: 0 <= p < |entries| ==> p in s.order)
            && |s.order| == |entries|
            && s.file == Concat(entries, s.order)
  {
    assert NoGiveUps(Run(entries, Init(|entries|), actions));
    RunKeepsInv(entries, Init(|entries|), actions);
    FinishedMeansWhole(entries, Run(entries, Init(|entries|), actions));
  }

  lemma FinishedMeansWhole(entries: seq<string>, s: State)
    requires Inv(entries, s) && AllFinished(s)
    ensures !s.lockFile && |s.order| == |entries| && s.file == Concat(entries, s.order)
    ensures forall p :: 0 <= p < |entries| ==> p in s.order
  {
    FileIsWhole(entries, s);
    hide Concat, Put;
    DistinctCount(s.order, |entries|);
  }

  lemma DistinctCount(s: seq<nat>, n: nat)
    requires forall i :: 0 <= i < |s| ==> s[i] < n
    requires forall i, j :: 0 <= i < j < |s| ==> s[i] != s[j]
    requires forall p :: 0 <= p < n ==> p in s
    ensures |s| == n
  {
    SizeOfElems(s);
    SizeUpTo(n);
    forall p ensures p in Elems(s) <==> p in UpTo(n) {
    }
    assert Elems(s) == UpTo(n);
  }

  function Elems(s: seq<nat>): (r: set<nat>)
    ensures forall p :: p in r <==> p in s
  {
    if s == [] then {} else Elems(s[..|s| - 1]) + {s[|s| - 1]}
  }

  function UpTo(n: nat): (r: set<nat>)
    ensures forall p :: p in r <==> 0 <= p < n
  {
    if n == 0 then {} else UpTo(n - 1) + {n - 1}
  }

  lemma {:induction false} SizeOfElems(s: seq<nat>)
    requires forall i, j :: 0 <= i < j < |s| ==> s[i] != s[j]
    ensures |Elems(s)| == |s|
  {
    if s != [] {
      SizeOfElems(s[..|s| - 1]);
      assert s[|s| - 1] !in s[..|s| - 1];
    }
  }

  lemma {:induction false} SizeUpTo(n: nat)
    ensures |UpTo(n)| == n
  {
    if n > 0 { SizeUpTo(n - 1); }
  }

  // ---------------------------------------------------------------- with give-ups

  /** Whenever one process is inside while another has gone on without the lock, the second
      one's unlink frees the lock file, and any third process that is still trying can then be
      inside together with the first. */
  lemma GiveUpBreaksExclusion(entries: seq<string>, s: State, p: nat, q: nat, r: nat) returns (actions: seq<Action>)
    requires |s.pcs| == |entries| && p < |entries| && q < |entries| && r < |entries| && p != r
    requires Inside(s.pcs[p]) && s.pcs[q] == Releasing(false) && s.pcs[r].Trying?
    ensures ValidRun(entries, s, actions)
    ensures var t := Run(entries, s, actions); Inside(t.pcs[p]) && Inside(t.pcs[r])
  {
    actions := [Unlink(q), TryCreate(r)];
    RunConcat(entries, s, [Unlink(q)], [TryCreate(r)]);
    assert [Unlink(q)] + [TryCreate(r)] == actions;
  }

  lemma {:induction false} RunConcat(entries: seq<string>, s: State, a: seq<Action>, b: seq<Action>)
    requires |s.pcs| == |entries| && ValidRun(entries, s, a) && ValidRun(entries, Run(entries, s, a), b)
    ensures ValidRun(entries, s, a + b) && Run(entries, s, a + b) == Run(entries, Run(entries, s, a), b)
    decreases |a|
  {
    hide Step, Enabled;
    if a == [] {
      assert a + b == b;
    } else {
      assert (a + b)[1..] == a[1..] + b && (a + b)[0] == a[0];
      RunConcat(entries, Step(entries, s, a[0]), a[1..], b);
    }
  }

  /** One process holds the lock while another one fails eight times and writes anyway. */
  lemma {:induction false} EightFailuresGiveUp(entries: seq<string>, s: State, q: nat, k: nat) returns (actions: seq<Action>)
    requires |s.pcs| == |entries| && q < |entries| && s.lockFile && s.pcs[q] == Trying(k) && k < RETRIES
    ensures ValidRun(entries, s, actions)
    ensures Run(entries, s, actions) == s.(pcs := s.pcs[q := Writing(false, 0)], order := s.order + [q])
    decreases RETRIES - k
  {
    var t := Step(entries, s, TryCreate(q));
    var rest: seq<Action> := [];
    if k + 1 < RETRIES {
      rest := EightFailuresGiveUp(entries, t, q, k + 1);
      assert t.pcs[q := Writing(false, 0)] == s.pcs[q := Writing(false, 0)];
    } else {
      assert ValidRun(entries, t, []);
    }
    actions := [TryCreate(q)] + rest;
    assert actions[1..] == rest;
  }

  /** A process that writes, finishes its entry. */
  lemma WritesItAll(entries: seq<string>, s: State, q: nat) returns (actions: seq<Action>)
    requires |s.pcs| == |entries| && q < |entries| && s.pcs[q] == Writing(false, 0)
    ensures ValidRun(entries, s, actions)
    ensures var t := Run(entries, s, actions); t.lockFile == s.lockFile && t.pcs == s.pcs[q := Releasing(false)]
  {
    var t := s;
    actions := [];
    assert ValidRun(entries, s, []);
    if entries[q] != "" {
      var write := WriteSome(q, |entries[q]|);
      t := Step(entries, s, write);
      actions := [write];
    }
    RunConcat(entries, s, actions, [EndWrite(q)]);
    actions := actions + [EndWrite(q)];
    assert t.pcs[q := Releasing(false)] == s.pcs[q := Releasing(false)];
  }

  /** With three processes or more, some run brings two of them inside together. */
  lemma ThreeCanMeet(entries: seq<string>) returns (actions: seq<Action>)
    requires |entries| >= 3
    ensures ValidRun(entries, Init(|entries|), actions)
    ensures !AtMostOneInside(Run(entries, Init(|entries|), actions))
  {
    var s := Init(|entries|);
    var s1 := Step(entries, s, TryCreate(0));
    var fail := EightFailuresGiveUp(entries, s1, 1, 0);
    var s2 := Run(entries, s1, fail);
    var write := WritesItAll(entries, s2, 1);
    var s3 := Run(entries, s2, write);
    var meet := GiveUpBreaksExclusion(entries, s3, 0, 1, 2);
    RunConcat(entries, s, [TryCreate(0)], fail);
    RunConcat(entries, s, [TryCreate(0)] + fail, write);
    RunConcat(entries, s, [TryCreate(0)] + fail + write, meet);
    actions := [TryCreate(0)] + fail + write + meet;
  }

  /** While a process is inside although the lock file is gone, nobody else is trying. */
  ghost predicate PairInv(s: State) {
    && AtMostOneInside(s)
    && forall p, q :: 0 <= p < |s.pcs| && 0 <= q < |s.pcs| && p != q && Inside(s.pcs[p]) && !s.lockFile ==> !s.pcs[q].Trying?
  }

  lemma StepKeepsPairInv(entries: seq<string>, s: State, a: Action)
    requires |s.pcs| == |entries| <= 2 && Enabled(entries, s, a) && PairInv(s)
    ensures PairInv(Step(entries, s, a))
  {
  }

  lemma {:induction false} PairRunIsSafe(entries: seq<string>, s: State, actions: seq<Action>)
    requires |s.pcs| == |entries| <= 2 && ValidRun(entries, s, actions) && PairInv(s)
    ensures PairInv(Run(entries, s, actions))
    decreases |actions|
  {
    hide Step, Enabled, PairInv;
    if actions != [] {
      StepKeepsPairInv(entries, s, actions[0]);
      PairRunIsSafe(entries, Step(entries, s, actions[0]), actions[1..]);
    }
  }

  /** Over all runs, give-ups included: at most one process holds the lock in every run exactly
      for at most two processes. This counts holders of the lock only: a process that gave up may
      write beside the holder even when there are two (`EntriesStayWholeExactly`). */
  lemma ExclusionExactlyForTwo(entries: seq<string>)
    ensures |entries| <= 2 <==>
            forall actions :: ValidRun(entries, Init(|entries|), actions) ==> AtMostOneInside(Run(entries, Init(|entries|), actions))
  {
    hide ValidRun, Run, AtMostOneInside;
    if |entries| <= 2 {
      forall actions | ValidRun(entries, Init(|entries|), actions)
        ensures AtMostOneInside(Run(entries, Init(|entries|), actions))
      {
        InitIsPairInv(|entries|);
        PairRunIsSafe(entries, Init(|entries|), actions);
      }
    } else {
      var actions := ThreeCanMeet(entries);
    }
  }

  lemma InitIsPairInv(n: nat)
    ensures PairInv(Init(n))
  {
  }

  // ---------------------------------------------------------------- entries that are cut

  /** A process has put some of its entry into the file, and not all. */
  predicate Midway(entries: seq<string>, s: State, p: nat) {
    p < |entries| == |s.pcs| && s.pcs[p].Writing? && 0 < s.pcs[p].written < |entries[p]|
  }

  /** The action writes into the middle of another process's entry. */
  ghost predicate Cuts(entries: seq<string>, s: State, a: Action) {
    a.WriteSome? && exists q :: 0 <= q < |s.pcs| && q != a.p && Midway(entries, s, q)
  }

  ghost predicate NeverCuts(entries: seq<string>, s: State, actions: seq<Action>)
    requires |s.pcs| == |entries| && ValidRun(entries, s, actions)
    decreases |actions|
  {
    actions == [] || (!Cuts(entries, s, actions[0]) && NeverCuts(entries, Step(entries, s, actions[0]), actions[1..]))
  }

  /** One process has an entry that can be cut, and another one something to write. */
  ghost predicate CanBeCut(entries: seq<string>) {
    exists p, q :: 0 <= p < |entries| && 0 <= q < |entries| && p != q && |entries[p]| >= 2 && |entries[q]| >= 1
  }

  lemma CutNeedsTwo(entries: seq<string>, s: State, a: Action)
    requires |s.pcs| == |entries| && Enabled(entries, s, a) && Cuts(entries, s, a)
    ensures CanBeCut(entries)
  {
    var q :| 0 <= q < |s.pcs| && q != a.p && Midway(entries, s, q);
    assert |entries[q]| >= 2 && |entries[a.p]| >= 1;
  }

  lemma {:induction false} NothingToCut(entries: seq<string>, s: State, actions: seq<Action>)
    requires |s.pcs| == |entries| && ValidRun(entries, s, actions) && !CanBeCut(entries)
    ensures NeverCuts(entries, s, actions)
    decreases |actions|
  {
    hide CanBeCut, Cuts, Step, Enabled;
    if actions != [] {
      if Cuts(entries, s, actions[0]) {
        CutNeedsTwo(entries, s, actions[0]);
      }
      NothingToCut(entries, Step(entries, s, actions[0]), actions[1..]);
    }
  }

  lemma {:induction false} NeverCutsAfter(entries: seq<string>, s: State, a: seq<Action>, b: seq<Action>)
    requires |s.pcs| == |entries| && ValidRun(entries, s, a) && ValidRun(entries, Run(entries, s, a), b)
    requires ValidRun(entries, s, a + b) && NeverCuts(entries, s, a + b)
    ensures NeverCuts(entries, Run(entries, s, a), b)
    decreases |a|
  {
    hide Step, Enabled, Cuts;
    if a == [] {
      assert a + b == b;
    } else {
      assert (a + b)[1..] == a[1..] + b && (a + b)[0] == a[0];
      NeverCutsAfter(entries, Step(entries, s, a[0]), a[1..], b);
    }
  }

  /** `p` takes the lock, `q` gives up; `p` writes one character, then `q` does. */
  lemma CuttingRun(entries: seq<string>, p: nat, q: nat) returns (actions: seq<Action>)
    requires p < |entries| && q < |entries| && p != q && |entries[p]| >= 2 && |entries[q]| >= 1
    ensures ValidRun(entries, Init(|entries|), actions) && !NeverCuts(entries, Init(|entries|), actions)
  {
    var s := Init(|entries|);
    var s1 := Step(entries, s, TryCreate(p));
    var fail := EightFailuresGiveUp(entries, s1, q, 0);
    var s2 := Run(entries, s1, fail);
    var s3 := Step(entries, s2, WriteSome(p, 1));
    RunConcat(entries, s, [TryCreate(p)], fail);
    RunConcat(entries, s, [TryCreate(p)] + fail, [WriteSome(p, 1)]);
    var before := [TryCreate(p)] + fail + [WriteSome(p, 1)];
    RunConcat(entries, s, before, [WriteSome(q, 1)]);
    actions := before + [WriteSome(q, 1)];
    assert Midway(entries, s3, p) && Cuts(entries, s3, WriteSome(q, 1));
    if NeverCuts(entries, s, actions) {
      NeverCutsAfter(entries, s, before, [WriteSome(q, 1)]);
    }
  }

  /** Exactly, over all runs, give-ups included: no run ever writes into the middle of an entry
      if and only if no process with an entry of two characters or more runs beside one that has
      anything to write. */
  lemma EntriesStayWholeExactly(entries: seq<string>)
    ensures !CanBeCut(entries) <==>
            forall actions :: ValidRun(entries, Init(|entries|), actions) ==> NeverCuts(entries, Init(|entries|), actions)
  {
    hide ValidRun, NeverCuts;
    if CanBeCut(entries) {
      var p, q :| 0 <= p < |entries| && 0 <= q < |entries| && p != q && |entries[p]| >= 2 && |entries[q]| >= 1;
      var actions := CuttingRun(entries, p, q);
    } else {
      forall actions | ValidRun(entries, Init(|entries|), actions) ensures NeverCuts(entries, Init(|entries|), actions) {
        NothingToCut(entries, Init(|entries|), actions);
      }
    }
  }

  /** How much of its entry a process has put into the file. */
  function Amount(entries: seq<string>, s: State, p: nat): nat
    requires p < |entries| == |s.pcs|
  {
    match s.pcs[p]
    case Trying(_) => 0
    case Writing(_, written) => written
    case _ => |entries[p]|
  }

  /** The file is the entries of the processes in `order`, whole but for the last one's. */
  ghost predicate InPieces(entries: seq<string>, s: State, order: seq<nat>) {
    && |s.pcs| == |entries|
    && (forall i :: 0 <= i < |order| ==> order[i] < |entries|)
    && (forall i, j :: 0 <= i < j < |order| ==> order[i] != order[j])
    && (forall p :: 0 <= p < |entries| ==> Amount(entries, s, p) <= |entries[p]|)
    && (forall p :: 0 <= p < |entries| ==> (p in order <==> Amount(entries, s, p) > 0))
    && (forall i :: 0 <= i < |order| - 1 ==> Amount(entries, s, order[i]) == |entries[order[i]]|)
    && s.file == Pieces(entries, s, order)
  }

  function Pieces(entries: seq<string>, s: State, order: seq<nat>): string
    requires |s.pcs| == |entries| && forall i :: 0 <= i < |order| ==> order[i] < |entries|
    requires forall p :: 0 <= p < |entries| ==> Amount(entries, s, p) <= |entries[p]|
  {
    if order == [] then "" else
      var last := order[|order| - 1];
      Concat(entries, order[..|order| - 1]) + entries[last][..Amount(entries, s, last)]
  }

  /** One step that cuts nothing. */
  lemma StepInPieces(entries: seq<string>, s: State, a: Action, order: seq<nat>) returns (more: seq<nat>)
    requires InPieces(entries, s, order) && Enabled(entries, s, a) && !Cuts(entries, s, a)
    ensures InPieces(entries, Step(entries, s, a), more)
  {
    more := order;
    var t := Step(entries, s, a);
    if a.WriteSome? {
      more := WriteInPieces(entries, s, a.p, a.count, order);
    } else {
      forall p | 0 <= p < |entries| ensures Amount(entries, t, p) == Amount(entries, s, p) {
      }
      hide Concat, Step;
      assert Pieces(entries, t, order) == Pieces(entries, s, order);
    }
  }

  lemma WriteInPieces(entries: seq<string>, s: State, p: nat, count: nat, order: seq<nat>) returns (more: seq<nat>)
    requires InPieces(entries, s, order) && Enabled(entries, s, WriteSome(p, count)) && !Cuts(entries, s, WriteSome(p, count))
    ensures InPieces(entries, Step(entries, s, WriteSome(p, count)), more)
  {
    hide Concat, Cuts;
    var t := Step(entries, s, WriteSome(p, count));
    var w := s.pcs[p].written;
    forall q | 0 <= q < |entries| ensures Amount(entries, t, q) == Amount(entries, s, q) + (if q == p then count else 0) {
    }
    if w > 0 {
      more := order;
      assert p in order && Amount(entries, s, p) < |entries[p]|;
      assert order[|order| - 1] == p;
    } else {
      more := order + [p];
      assert Amount(entries, s, p) == 0;
      WholeSoFar(entries, s, p, count, order);
      assert more[..|order|] == order;
      assert entries[p][0..0 + count] == entries[p][..count];
    }
  }

  /** When nobody else is midway, the file is whole entries. */
  lemma WholeSoFar(entries: seq<string>, s: State, p: nat, count: nat, order: seq<nat>)
    requires InPieces(entries, s, order) && p < |entries| && p !in order && !Cuts(entries, s, WriteSome(p, count))
    ensures s.file == Concat(entries, order)
    ensures forall i :: 0 <= i < |order| ==> Amount(entries, s, order[i]) == |entries[order[i]]|
  {
    if order != [] {
      var last := order[|order| - 1];
      assert last in order && !Midway(entries, s, last);
      assert entries[last][..|entries[last]|] == entries[last];
    }
  }

  lemma {:induction false} RunInPieces(entries: seq<string>, s: State, actions: seq<Action>, order: seq<nat>) returns (more: seq<nat>)
    requires InPieces(entries, s, order) && ValidRun(entries, s, actions) && NeverCuts(entries, s, actions)
    ensures InPieces(entries, Run(entries, s, actions), more)
    decreases |actions|
  {
    hide InPieces, Step, Enabled, Cuts;
    more := order;
    if actions != [] {
      SameLength(entries, s, order);
      more := StepInPieces(entries, s, actions[0], order);
      more := RunInPieces(entries, Step(entries, s, actions[0]), actions[1..], more);
    }
  }

  lemma SameLength(entries: seq<string>, s: State, order: seq<nat>)
    requires InPieces(entries, s, order)
    ensures |s.pcs| == |entries|
  {
  }

  /** What that guarantees of the file: in a run that never cuts, whoever gave up, the file is
      whole entries of distinct processes and a first part of one more. */
  lemma UncutRunIsContiguous(entries: seq<string>, actions: seq<Action>) returns (order: seq<nat>)
    requires ValidRun(entries, Init(|entries|), actions) && NeverCuts(entries, Init(|entries|), actions)
    ensures InPieces(entries, Run(entries, Init(|entries|), actions), order)
  {
    order := RunInPieces(entries, Init(|entries|), actions, []);
  }
}
