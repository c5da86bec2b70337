/** The bridge's side of the grind-integrity chain, and what the replay tool makes of it. */
module GicWriter {
  import opened Bytes
  import opened GicReplay

  // ---------------------------------------------------------------- the frozen formula

  function WriterVerdictCode(verdict: string): Byte {
    if verdict == "CLEAR" then 0x00
    else if verdict == "CERTIFY" then 0x01
    else if verdict == "FLAG" then 0x10
    else if verdict == "HOLD" then 0x11
    else if verdict == "BLOCK" then 0x20
    else 0x10
  }

  /** An unknown host state is DISCONNECTED here. */
  function WriterHostCode(host: string): Byte {
    if host == "EXCLUSIVE_USB" then 0x01
    else if host == "UNKNOWN" then 0x02
    else if host == "EXCLUSIVE_BT" then 0x10
    else if host == "CONTESTED" then 0x20
    else if host == "DEGRADED" then 0x30
    else if host == "DISCONNECTED" then 0xFF
    else 0xFF
  }

  /** `struct.pack(">Q", ts)` takes unsigned 64-bit integers only. */
  predicate Fits(ts: int) {
    0 <= ts <= 0xFFFF_FFFF_FFFF_FFFF
  }

  function GenesisGic(h: HashFn, sid: seq<Byte>, ts: int): Option<Digest> {
    if Fits(ts) then Some(h(Ascii("VAPI-GIC-GENESIS-v1") + sid + Uint64(ts))) else None
  }

  /** The 74 octets, for a commitment of 32. */
  function GicText(prev: seq<Byte>, commit: seq<Byte>, host: string, verdict: string, ts: int): seq<Byte>
    requires Fits(ts)
  {
    prev + commit + [WriterVerdictCode(verdict)] + [WriterHostCode(host)] + Uint64(ts)
  }

  /** `compute_gic`; None when it raises. */
  function ComputeGic(h: HashFn, prev: seq<Byte>, commitmentHex: string, host: string, verdict: string, ts: int): Option<Digest> {
    match FromHex(commitmentHex)
    case None => None
    case Some(commit) => if Fits(ts) then Some(h(GicText(prev, commit, host, verdict, ts))) else None
  }

  // ---------------------------------------------------------------- stamping

  /** A row of the validation log with its session; NULL is the empty session. */
  datatype LogRow = LogRow(sid: seq<Byte>, row: Row)

  /** An adjudicated session: the configured grind session, what it is stamped with, the clock,
      and whether it is to be stamped at all. */
  datatype Ruling = Ruling(sid: seq<Byte>, commitmentHash: string, hostState: string, verdict: string, now: int, eligible: bool)

  /** The stamped row of the session with the latest timestamp; of any session, when none is named. */
  function Latest(log: seq<LogRow>, sid: seq<Byte>): Option<LogRow> {
    if log == [] then None else
      var last := log[|log| - 1];
      var before := Latest(log[..|log| - 1], sid);
      if last.row.storedHash != "" && (sid == [] || last.sid == sid) && (before.None? || last.row.tsNs >= before.value.row.tsNs)
      then Some(last) else before
  }

  /** The largest timestamp of all sessions, 0 for none. */
  function MaxTs(log: seq<LogRow>): int {
    if log == [] then 0 else
      var last, before := log[|log| - 1], MaxTs(log[..|log| - 1]);
      if last.row.storedHash != "" && last.row.tsNs > before then last.row.tsNs else before
  }

  /** The timestamp of a stamp is the clock's, pushed beyond every earlier one. */
  function StampTime(log: seq<LogRow>, now: int): int {
    if now <= MaxTs(log) then MaxTs(log) + 1 else now
  }

  function CommitmentText(text: string): string {
    if text == "" then Repeat('0', 64) else text
  }

  /** The digest a ruling is stamped with; None when it is not eligible or stamping raises. */
  function StampOf(h: HashFn, log: seq<LogRow>, r: Ruling): Option<Digest> {
    if !r.eligible then None else
      var ts, latest := StampTime(log, r.now), Latest(log, r.sid);
      var prev: Option<seq<Byte>> :=
        if latest.Some? then FromHex(latest.value.row.storedHash)
        else if GenesisGic(h, r.sid, ts).Some? then Some(GenesisGic(h, r.sid, ts).value)
        else None;
      if prev.None? then None
      else ComputeGic(h, prev.value, CommitmentText(r.commitmentHash), r.hostState, r.verdict, ts)
  }

  function LogRowOf(h: HashFn, log: seq<LogRow>, r: Ruling): LogRow {
    var id, stamp := |log| + 1, StampOf(h, log, r);
    if stamp.None? then LogRow([], Row(id, "", 0, r.commitmentHash, r.hostState, r.verdict))
    else LogRow(r.sid, Row(id, Hex(stamp.value), StampTime(log, r.now), r.commitmentHash, r.hostState, r.verdict))
  }

  function Run(h: HashFn, rulings: seq<Ruling>): seq<LogRow> {
    if rulings == [] then [] else
      var before := Run(h, rulings[..|rulings| - 1]);
      before + [LogRowOf(h, before, rulings[|rulings| - 1])]
  }

  class ValidationLog {
    var log: seq<LogRow>

    constructor ()
      ensures log == []
    {
      log := [];
    }

    /** Insert the validation row, then stamp it; whatever stamping raises is caught. */
    method Adjudicate(h: HashFn, r: Ruling)
      modifies this
      ensures log == old(log) + [LogRowOf(h, old(log), r)]
    {
      hide Latest, MaxTs, FromHex, Hex, ComputeGic, GenesisGic;
      var before := log;
      var unstamped := LogRow([], Row(|log| + 1, "", 0, r.commitmentHash, r.hostState, r.verdict));
      log := log + [unstamped];
      if !r.eligible { return; }
      var latest := Latest(before, r.sid);
      var ts := r.now;
      var prevTs := MaxTs(before);
      if ts <= prevTs { ts := prevTs + 1; }
      var prev: seq<Byte>;
      if latest.None? {
        var genesis := GenesisGic(h, r.sid, ts);
        if genesis.None? { return; }
        prev := genesis.value;
      } else {
        var stored := FromHex(latest.value.row.storedHash);
        if stored.None? { return; }
        prev := stored.value;
      }
      var gic := ComputeGic(h, prev, CommitmentText(r.commitmentHash), r.hostState, r.verdict, ts);
      if gic.None? { return; }
      log := log[|before| := LogRow(r.sid, unstamped.row.(storedHash := Hex(gic.value), tsNs := ts))];
    }
  }

  // ---------------------------------------------------------------- what is stamped is a chain

  function SessionRows(log: seq<LogRow>, sid: seq<Byte>): seq<Row> {
    if log == [] then [] else
      SessionRows(log[..|log| - 1], sid) + (if log[|log| - 1].sid == sid then [log[|log| - 1].row] else [])
  }

  /** The fields the writer hashes for a row; None when it could not have stamped it. */
  function WriterFields(row: Row): Option<Fields> {
    var commit := FromHex(CommitmentText(row.commitmentHash));
    if commit.Some? && Fits(row.tsNs)
    then Some(Fields(commit.value, WriterVerdictCode(row.verdict), WriterHostCode(row.hostState), row.tsNs)) else None
  }

  ghost predicate Writable(rows: seq<Row>) {
    forall i :: 0 <= i < |rows| ==> WriterFields(rows[i]).Some?
  }

  function WriterFieldsOf(rows: seq<Row>): (fs: seq<Fields>)
    requires Writable(rows)
    ensures |fs| == |rows| && forall i :: 0 <= i < |rows| ==> Some(fs[i]) == WriterFields(rows[i])
  {
    seq(|rows|, i requires 0 <= i < |rows| => WriterFields(rows[i]).value)
  }

  /** Every stored hash is the digest of the chain of the writer's fields. */
  ghost predicate Stamped(h: HashFn, sid: seq<Byte>, rows: seq<Row>) {
    && Writable(rows)
    && forall i :: 0 <= i < |rows| ==> rows[i].storedHash == Hex(DigestAt(h, sid, WriterFieldsOf(rows), i + 1))
  }

  /** Rows are numbered in order, and each stamp is later than all before it. */
  ghost predicate Orderly(log: seq<LogRow>) {
    && (forall i :: 0 <= i < |log| ==> log[i].row.id == i + 1)
    && (forall i :: 0 <= i < |log| && log[i].row.storedHash == "" ==> log[i].sid == [])
    && (forall i :: 0 <= i < |log| && log[i].row.storedHash != "" ==> log[i].row.tsNs >= 1 && FromHex(log[i].row.storedHash).Some?)
    && (forall i, j :: 0 <= i < j < |log| && log[i].row.storedHash != "" && log[j].row.storedHash != "" ==> log[i].row.tsNs < log[j].row.tsNs)
  }

  lemma {:induction false} MaxTsIsLargest(log: seq<LogRow>)
    ensures forall i :: 0 <= i < |log| && log[i].row.storedHash != "" ==> log[i].row.tsNs <= MaxTs(log)
    ensures MaxTs(log) == 0 || exists i :: 0 <= i < |log| && log[i].row.storedHash != "" && log[i].row.tsNs == MaxTs(log)
    ensures MaxTs(log) >= 0
  {
    if log != [] {
      MaxTsIsLargest(log[..|log| - 1]);
      var init := log[..|log| - 1];
      assert forall i :: 0 <= i < |init| ==> init[i] == log[i];
      if i :| 0 <= i < |init| && init[i].row.storedHash != "" && init[i].row.tsNs == MaxTs(init) {
        assert log[i].row.tsNs == MaxTs(init);
      }
    }
  }

  /** A stamp's time is the clock's when that is positive and later than every earlier stamp;
      otherwise it is one nanosecond after the latest stamp of any session, or 1 for the first. */
  lemma StampTimeExactly(log: seq<LogRow>, now: int)
    requires Orderly(log)
    ensures var t := StampTime(log, now);
            var later := now > 0 && forall i :: 0 <= i < |log| && log[i].row.storedHash != "" ==> log[i].row.tsNs < now;
            && (later ==> t == now)
            && (!later && (forall i :: 0 <= i < |log| ==> log[i].row.storedHash == "") ==> t == 1)
            && (!later && (exists i :: 0 <= i < |log| && log[i].row.storedHash != "") ==>
                  exists i :: 0 <= i < |log| && log[i].row.storedHash != "" && t == log[i].row.tsNs + 1
                              && forall j :: 0 <= j < |log| && log[j].row.storedHash != "" ==> log[j].row.tsNs <= log[i].row.tsNs)
  {
    hide FromHex;
    MaxTsIsLargest(log);
  }

  /** Exactly: a ruling is stamped if and only if it is eligible, its commitment, if it has one, is
      hexadecimal, and the time of the stamp fits 8 octets. */
  lemma StampsExactly(h: HashFn, rulings: seq<Ruling>, r: Ruling)
    ensures var log := Run(h, rulings);
            StampOf(h, log, r).Some? <==>
              && r.eligible
              && (r.commitmentHash == "" || FromHex(r.commitmentHash).Some?)
              && 0 <= StampTime(log, r.now) <= 0xFFFF_FFFF_FFFF_FFFF
  {
    hide FromHex, Orderly, StampTime, Latest, Run, GicText;
    var log := Run(h, rulings);
    RunIsOrderly(h, rulings);
    LatestIsStamped(log, r.sid);
    ZerosAreHex();
  }

  lemma ZerosAreHex()
    ensures FromHex(CommitmentText("")) == Some(ZeroDigest())
  {
    hide FromHex, Hex;
    HexOfZeros(ZeroDigest());
    FromHexOfHex(ZeroDigest());
  }

  lemma {:induction false} LatestIsStamped(log: seq<LogRow>, sid: seq<Byte>)
    requires Orderly(log)
    ensures Latest(log, sid).Some? ==> FromHex(Latest(log, sid).value.row.storedHash).Some?
  {
    hide FromHex;
    if log != [] {
      PrefixIsOrderly(log);
      LatestIsStamped(log[..|log| - 1], sid);
      assert log[|log| - 1].row.storedHash != "" ==> FromHex(log[|log| - 1].row.storedHash).Some?;
    }
  }

  lemma {:induction false} RunIsOrderly(h: HashFn, rulings: seq<Ruling>)
    ensures Orderly(Run(h, rulings))
  {
    hide LogRowOf, Orderly;
    if rulings == [] {
      NothingIsOrderly();
    } else {
      RunIsOrderly(h, rulings[..|rulings| - 1]);
      NextIsOrderly(h, Run(h, rulings[..|rulings| - 1]), rulings[|rulings| - 1]);
    }
  }

  lemma NothingIsOrderly()
    ensures Orderly([])
  {
  }

  lemma NextIsOrderly(h: HashFn, log: seq<LogRow>, r: Ruling)
    requires Orderly(log)
    ensures Orderly(log + [LogRowOf(h, log, r)])
  {
    hide StampOf, Hex, FromHex, MaxTs;
    MaxTsIsLargest(log);
    NotEmptyHex(h, log, r);
    var row := LogRowOf(h, log, r);
    assert row.row.id == |log| + 1 && (row.row.storedHash == "" ==> row.sid == []);
    assert row.row.storedHash != "" ==> row.row.tsNs > MaxTs(log);
    hide LogRowOf, StampTime;
  }

  /** Row i is that of ruling i: numbered in order, with its commitment, host and verdict, and under
      its session when it is stamped. */
  lemma {:induction false} RowsCarryTheRulings(h: HashFn, rulings: seq<Ruling>)
    ensures var log := Run(h, rulings);
            |log| == |rulings| && forall i :: 0 <= i < |log| ==> Carries(log[i], rulings[i], i + 1)
  {
    hide LogRowOf, Carries;
    if rulings != [] {
      var before := Run(h, rulings[..|rulings| - 1]);
      RowsCarryTheRulings(h, rulings[..|rulings| - 1]);
      NewRowCarries(h, before, rulings[|rulings| - 1]);
      assert forall i :: 0 <= i < |before| ==> Carries(before[i], rulings[i], i + 1);
    }
  }

  predicate Carries(l: LogRow, r: Ruling, id: int) {
    && l.row.id == id && l.row.commitmentHash == r.commitmentHash
    && l.row.hostState == r.hostState && l.row.verdict == r.verdict
    && l.sid == (if l.row.storedHash != "" then r.sid else [])
    && (l.row.storedHash == "" ==> l.row.tsNs == 0)
  }

  lemma NewRowCarries(h: HashFn, log: seq<LogRow>, r: Ruling)
    ensures Carries(LogRowOf(h, log, r), r, |log| + 1)
  {
    hide StampOf, StampTime;
  }

  lemma NotEmptyHex(h: HashFn, log: seq<LogRow>, r: Ruling)
    ensures var row := LogRowOf(h, log, r);
            && (row.row.storedHash == "" <==> StampOf(h, log, r).None?)
            && (row.row.storedHash != "" ==> row.row.tsNs == StampTime(log, r.now) && FromHex(row.row.storedHash).Some?)
  {
    hide StampOf, FromHex;
    if StampOf(h, log, r).Some? {
      FromHexOfHex(StampOf(h, log, r).value);
    }
  }

  /** In order, the latest stamped row of a session is its last one. */
  lemma {:induction false} LatestIsLast(log: seq<LogRow>, sid: seq<Byte>)
    requires Orderly(log) && sid != []
    ensures var rows := SessionRows(log, sid);
            if rows == [] then Latest(log, sid).None?
            else Latest(log, sid).Some? && Latest(log, sid).value.row == rows[|rows| - 1]
    ensures Latest(log, sid).Some? ==> Latest(log, sid).value in log && Latest(log, sid).value.row.storedHash != ""
  {
    hide FromHex;
    if log != [] {
      var init := log[..|log| - 1];
      assert forall i :: 0 <= i < |init| ==> init[i] == log[i];
      LatestIsLast(init, sid);
      var before := Latest(init, sid);
      if before.Some? {
        var i :| 0 <= i < |init| && init[i] == before.value;
        assert log[i].row.storedHash != "";
      }
    }
  }

  lemma {:induction false} SessionIsStamped(h: HashFn, rulings: seq<Ruling>, sid: seq<Byte>)
    requires sid != []
    ensures Stamped(h, sid, SessionRows(Run(h, rulings), sid))
  {
    hide StampOf, Stamped, Latest, Hex;
    if rulings == [] {
      NothingStamped(h, sid);
    } else {
      var k := |rulings| - 1;
      var log, r := Run(h, rulings[..k]), rulings[k];
      SessionIsStamped(h, rulings[..k], sid);
      RunIsOrderly(h, rulings[..k]);
      var row := LogRowOf(h, log, r);
      assert (log + [row])[..|log|] == log;
      if row.sid == sid {
        NextIsStamped(h, log, r);
      } else {
        assert SessionRows(log, sid) + [] == SessionRows(log, sid);
      }
    }
  }

  lemma NothingStamped(h: HashFn, sid: seq<Byte>)
    ensures Stamped(h, sid, [])
  {
  }

  lemma NextIsStamped(h: HashFn, log: seq<LogRow>, r: Ruling)
    requires Orderly(log) && r.sid != [] && StampOf(h, log, r).Some? && Stamped(h, r.sid, SessionRows(log, r.sid))
    ensures Stamped(h, r.sid, SessionRows(log, r.sid) + [LogRowOf(h, log, r).row])
  {
    hide Latest, Hex, FromHex, Stamped, CommitmentText, GicText, SessionRows;
    var rows, row := SessionRows(log, r.sid), LogRowOf(h, log, r).row;
    LatestIsLast(log, r.sid);
    var f := WriterFields(row).value;
    LinkIsPayload(h, log, r);
    if rows != [] {
      LastIsDigest(h, r.sid, rows);
    }
    StampedMore(h, r.sid, rows, row, f);
  }

  /** The stamp is the hash of the previous digest with the row's fields, in the order both sides
      agree on. */
  lemma LinkIsPayload(h: HashFn, log: seq<LogRow>, r: Ruling)
    requires Orderly(log) && r.sid != [] && StampOf(h, log, r).Some?
    ensures var rows, row := SessionRows(log, r.sid), LogRowOf(h, log, r).row;
            var f := WriterFields(row);
            && f.Some? && f.value.ts == row.tsNs
            && (rows == [] ==> row.storedHash == Hex(h(Payload(h(GenesisText(r.sid, f.value.ts)), f.value))))
            && (rows != [] ==> match FromHex(rows[|rows| - 1].storedHash)
                               case None => false
                               case Some(prev) => |prev| == 32 ==> row.storedHash == Hex(h(Payload(prev, f.value))))
  {
    hide Latest, Hex, FromHex, CommitmentText, SessionRows, WriterVerdictCode, WriterHostCode, MaxTs;
    LatestIsLast(log, r.sid);
    var row := LogRowOf(h, log, r).row;
    var f := WriterFields(row).value;
    assert [f.verdict] + [f.host] == [f.verdict, f.host];
    forall prev: Digest ensures GicText(prev, f.commit, row.hostState, row.verdict, row.tsNs) == Payload(prev, f) {
      assert prev + f.commit + [f.verdict] + [f.host] == prev + f.commit + [f.verdict, f.host];
    }
  }

  lemma LastIsDigest(h: HashFn, sid: seq<Byte>, rows: seq<Row>)
    requires rows != [] && Stamped(h, sid, rows)
    ensures FromHex(rows[|rows| - 1].storedHash) == Some(DigestAt(h, sid, WriterFieldsOf(rows), |rows|))
  {
    hide Hex, FromHex;
    FromHexOfHex(DigestAt(h, sid, WriterFieldsOf(rows), |rows|));
  }

  lemma StampedMore(h: HashFn, sid: seq<Byte>, rows: seq<Row>, row: Row, f: Fields)
    requires Stamped(h, sid, rows) && WriterFields(row) == Some(f)
    requires rows == [] ==> row.storedHash == Hex(h(Payload(h(GenesisText(sid, f.ts)), f)))
    requires rows != [] ==> row.storedHash == Hex(h(Payload(DigestAt(h, sid, WriterFieldsOf(rows), |rows|), f)))
    ensures Stamped(h, sid, rows + [row])
  {
    hide WriterFields, Hex, DigestAt;
    var more := rows + [row];
    assert Writable(more);
    var a, b := WriterFieldsOf(rows), WriterFieldsOf(more);
    assert b == a + [f];
    DigestsOfMore(h, sid, a, f);
    forall i | 0 <= i < |more| ensures more[i].storedHash == Hex(DigestAt(h, sid, b, i + 1)) {
      assert i < |rows| ==> more[i] == rows[i];
    }
  }

  lemma DigestsOfMore(h: HashFn, sid: seq<Byte>, a: seq<Fields>, f: Fields)
    ensures forall i :: 0 < i <= |a| ==> DigestAt(h, sid, a + [f], i) == DigestAt(h, sid, a, i)
    ensures DigestAt(h, sid, a + [f], |a| + 1)
            == h(Payload(if a == [] then h(GenesisText(sid, f.ts)) else DigestAt(h, sid, a, |a|), f))
  {
    hide GenesisText, Payload;
    var b := a + [f];
    if a != [] {
      forall i | 0 <= i <= |a| ensures Preimage(h, sid, b, i) == Preimage(h, sid, a, i) {
        PreimagePrefix(h, sid, a, b, i);
      }
    } else {
      assert b == [f] && Preimage(h, sid, b, 0) == GenesisText(sid, f.ts);
    }
  }

  // ---------------------------------------------------------------- what the replay makes of it

  predicate IsKnownHost(host: string) {
    host in ["", "EXCLUSIVE_USB", "UNKNOWN", "EXCLUSIVE_BT", "CONTESTED", "DEGRADED", "DISCONNECTED"]
  }

  /** A row the two sides read differently: a host text that neither knows, which the writer takes
      for DISCONNECTED and the replay for UNKNOWN; or a commitment shorter than 64 characters, to
      which the replay adds zeros. */
  predicate Misread(row: Row) {
    !IsKnownHost(row.hostState) || 0 < |row.commitmentHash| < 64
  }

  /** Exactly: the replay encodes what the writer stamped, unless the row is misread. */
  lemma EncodedAlikeExactly(row: Row)
    requires WriterFields(row).Some?
    ensures Encode(row) == WriterFields(row) <==> !Misread(row)
  {
    CodesAgree(row.verdict, row.hostState);
    CommitmentsAgree(row.commitmentHash);
    hide VerdictCode, HostCode, WriterVerdictCode, WriterHostCode, CommitBytes, FromHex, CommitmentText, IsKnownHost;
  }

  lemma CodesAgree(verdict: string, host: string)
    ensures VerdictCode(verdict) == WriterVerdictCode(verdict)
    ensures HostCode(host) == WriterHostCode(host) <==> IsKnownHost(host)
    ensures !IsKnownHost(host) ==> HostCode(host) == HostCode("UNKNOWN") && WriterHostCode(host) == WriterHostCode("DISCONNECTED")
  {
  }

  lemma CommitmentsAgree(text: string)
    requires FromHex(CommitmentText(text)).Some?
    ensures CommitBytes(text) == FromHex(CommitmentText(text)) <==> !(0 < |text| < 64)
  {
    if text == "" {
      HexOfZeros(ZeroDigest());
      FromHexOfHex(ZeroDigest());
    } else if |text| < 64 {
      SignIsNoHex(text);
      PaddedIsLonger(64 - |text|, text);
    }
  }

  lemma SignIsNoHex(text: string)
    requires text != "" && FromHex(text).Some?
    ensures text[0] != '+' && text[0] != '-'
  {
  }

  lemma {:induction false} HexOfZeros(zeros: seq<Byte>)
    requires forall i :: 0 <= i < |zeros| ==> zeros[i] == 0
    ensures Hex(zeros) == Repeat('0', 2 * |zeros|)
  {
    if zeros != [] {
      HexOfZeros(zeros[1..]);
      assert HexDigit(0) == '0';
      assert ['0', '0'] + Repeat('0', 2 * |zeros[1..]|) == Repeat('0', 2 * |zeros|);
    }
  }

  function Digits(s: string): nat {
    if s == "" then 0 else (if IsAsciiSpace(s[0]) then 0 else 1) + Digits(s[1..])
  }

  lemma {:induction false} OctetsAreHalfTheDigits(s: string)
    ensures FromHex(s).Some? ==> 2 * |FromHex(s).value| == Digits(s)
  {
    if s != "" {
      if IsAsciiSpace(s[0]) {
        OctetsAreHalfTheDigits(s[1..]);
      } else if |s| > 1 {
        OctetsAreHalfTheDigits(s[2..]);
        assert s[1..][1..] == s[2..];
      }
    }
  }

  lemma {:induction false} DigitsOfPadded(k: nat, s: string)
    ensures Digits(Repeat('0', k) + s) == k + Digits(s)
  {
    if k == 0 {
      assert Repeat('0', 0) + s == s;
    } else {
      DigitsOfPadded(k - 1, s);
      assert (Repeat('0', k) + s)[1..] == Repeat('0', k - 1) + s;
    }
  }

  /** Zeros in front of hexadecimal text give more octets, or none at all. */
  lemma PaddedIsLonger(k: nat, s: string)
    requires k > 0 && FromHex(s).Some?
    ensures FromHex(Repeat('0', k) + s) != FromHex(s)
  {
    OctetsAreHalfTheDigits(s);
    OctetsAreHalfTheDigits(Repeat('0', k) + s);
    DigitsOfPadded(k, s);
  }

  ghost predicate AllReadAlike(rows: seq<Row>) {
    forall i :: 0 <= i < |rows| ==> !Misread(rows[i])
  }

  /** Stamped rows that are all read alike replay as an intact chain whose head is the last stamp. */
  lemma ReadAlikeIsIntact(h: HashFn, sid: seq<Byte>, rows: seq<Row>)
    requires Stamped(h, sid, rows) && AllReadAlike(rows)
    ensures Encodable(rows) && Intact(h, sid, rows)
    ensures rows != [] ==> forall n, headHash, r :: IsReport(h, sid, rows, n, headHash, r) ==>
              r.intact && r.brokenAt == None && r.head == rows[|rows| - 1].storedHash
  {
    hide Encode, WriterFields, Hex, DigestAt, Compute, GenesisDigest, Window, Misread;
    forall i | 0 <= i < |rows| ensures Encode(rows[i]) == WriterFields(rows[i]) {
      EncodedAlikeExactly(rows[i]);
    }
    assert FieldsOf(rows) == WriterFieldsOf(rows);
    forall i | 0 <= i < |rows| ensures !Flagged(h, sid, rows, i) {
      FlaggedExactly(h, sid, rows, i);
    }
    if rows != [] {
      NothingBroken(h, sid, rows);
    }
  }

  /** From the first misread row on every row is flagged, and none before, or the texts the two
      sides hash at one place collide. */
  lemma MisreadIsFlagged(h: HashFn, sid: seq<Byte>, rows: seq<Row>, k: nat)
    requires Stamped(h, sid, rows) && Encodable(rows) && k < |rows| && Misread(rows[k]) && AllReadAlike(rows[..k])
    ensures forall i :: 0 <= i < k ==> !Flagged(h, sid, rows, i)
    ensures || TamperCollides(h, sid, WriterFieldsOf(rows), FieldsOf(rows), k)
            || ((forall i :: k <= i < |rows| ==> Flagged(h, sid, rows, i))
                && forall n, headHash, r :: IsReport(h, sid, rows, n, headHash, r) ==>
                     !r.intact && r.brokenAt == Some(k + 1) && r.head != rows[|rows| - 1].storedHash)
  {
    hide Encode, WriterFields, Hex, DigestAt, Compute, GenesisDigest, Window, Misread, Flagged, TamperCollides;
    var a, b := WriterFieldsOf(rows), FieldsOf(rows);
    forall i | 0 <= i <= k ensures a[i] == b[i] <==> i < k {
      EncodedAlikeExactly(rows[i]);
      assert i < k ==> rows[i] == rows[..k][i];
    }
    forall i | 0 <= i < k ensures !Flagged(h, sid, rows, i) {
      assert a[..i + 1] == b[..i + 1];
      SameDigest(h, sid, a, b, i + 1);
      FlaggedExactly(h, sid, rows, i);
    }
    if !TamperCollides(h, sid, a, b, k) {
      forall i | k <= i < |rows| ensures Flagged(h, sid, rows, i) {
        DigestsDiffer(h, sid, a, b, k, i);
        FlaggedExactly(h, sid, rows, i);
        if !Flagged(h, sid, rows, i) {
          HexInjective(DigestAt(h, sid, a, i + 1), DigestAt(h, sid, b, i + 1));
        }
      }
      FlaggedIsFirst(h, sid, rows, k);
      FlaggedExactly(h, sid, rows, |rows| - 1);
    }
  }

  lemma SameDigest(h: HashFn, sid: seq<Byte>, a: seq<Fields>, b: seq<Fields>, i: nat)
    requires 0 < i <= |a| && i <= |b| && a[..i] == b[..i]
    ensures DigestAt(h, sid, a, i) == DigestAt(h, sid, b, i)
  {
    hide Preimage;
    assert a[0] == a[..i][0] && b[0] == b[..i][0];
    PreimagePrefix(h, sid, a, b, i);
  }

  lemma {:induction false} FirstMisread(rows: seq<Row>) returns (k: nat)
    requires !AllReadAlike(rows)
    ensures k < |rows| && Misread(rows[k]) && AllReadAlike(rows[..k])
  {
    hide Misread;
    k := |rows| - 1;
    if !AllReadAlike(rows[..k]) {
      k := FirstMisread(rows[..k]);
      assert rows[..|rows| - 1][..k] == rows[..k];
    }
  }

  predicate AscendingTimes(rows: seq<Row>) {
    forall i, j :: 0 <= i < j < |rows| ==> rows[i].tsNs < rows[j].tsNs
  }

  /** The session's rows stand in one order by id and by time. */
  lemma {:induction false} SessionRowsAreOrderly(log: seq<LogRow>, sid: seq<Byte>)
    requires Orderly(log) && sid != []
    ensures var rows := SessionRows(log, sid);
            && AscendingIds(rows) && AscendingTimes(rows)
            && (forall i :: 0 <= i < |rows| ==> rows[i].id <= |log| && rows[i].storedHash != "")
  {
    if log != [] {
      var init, last := log[..|log| - 1], log[|log| - 1];
      PrefixIsOrderly(log);
      SessionRowsAreOrderly(init, sid);
      if last.sid == sid {
        LastIsLater(log, sid);
        OneMoreRow(SessionRows(init, sid), last.row);
      }
      hide Orderly, AscendingIds, AscendingTimes;
    }
  }

  lemma LastIsLater(log: seq<LogRow>, sid: seq<Byte>)
    requires log != [] && Orderly(log) && sid != [] && log[|log| - 1].sid == sid
    ensures var rows, last := SessionRows(log[..|log| - 1], sid), log[|log| - 1].row;
            && last.id == |log| && last.storedHash != ""
            && forall i :: 0 <= i < |rows| ==> rows[i].tsNs < last.tsNs
  {
    hide FromHex, SessionRows;
    var init := log[..|log| - 1];
    assert forall j :: 0 <= j < |init| ==> init[j] == log[j];
    TimesBefore(init, sid, log[|log| - 1].row.tsNs);
  }

  lemma OneMoreRow(rows: seq<Row>, row: Row)
    requires AscendingIds(rows) && AscendingTimes(rows)
    requires forall i :: 0 <= i < |rows| ==> rows[i].id < row.id && rows[i].tsNs < row.tsNs
    ensures AscendingIds(rows + [row]) && AscendingTimes(rows + [row])
  {
  }

  lemma {:induction false} TimesBefore(log: seq<LogRow>, sid: seq<Byte>, t: int)
    requires forall j :: 0 <= j < |log| && log[j].sid == sid ==> log[j].row.tsNs < t
    ensures forall i :: 0 <= i < |SessionRows(log, sid)| ==> SessionRows(log, sid)[i].tsNs < t
  {
    if log != [] {
      TimesBefore(log[..|log| - 1], sid, t);
    }
  }

  lemma PrefixIsOrderly(log: seq<LogRow>)
    requires log != [] && Orderly(log)
    ensures Orderly(log[..|log| - 1])
  {
  }

  /** Between the bridge that stamps and the tool that replays, for every history of rulings over
      any sessions: each report on a session says intact, with the last stamped hash as head, if
      no row of it is misread. Otherwise no report can be made, or the rows from the first misread
      one on are flagged and no other, or two texts hashed at one place collide. */
  lemma ReplayAgreesExactly(h: HashFn, rulings: seq<Ruling>, sid: seq<Byte>)
    requires sid != []
    ensures var rows := SessionRows(Run(h, rulings), sid);
            && AscendingIds(rows) && AscendingTimes(rows) && Selected(rows) == rows && Stamped(h, sid, rows)
            && (AllReadAlike(rows) ==>
                  && Encodable(rows)
                  && (rows != [] ==> forall n, headHash, r :: IsReport(h, sid, rows, n, headHash, r) ==>
                        r.intact && r.brokenAt == None && r.head == rows[|rows| - 1].storedHash))
            && (!AllReadAlike(rows) ==>
                  || !Encodable(rows)
                  || exists k: nat :: k < |rows| && Misread(rows[k]) && AllReadAlike(rows[..k]) && FlaggedFrom(h, sid, rows, k))
  {
    hide Encode, WriterFields, Hex, DigestAt, Run, SessionRows, Selected, IsReport, Misread, Stamped, FlaggedFrom, AscendingTimes;
    var rows := SessionRows(Run(h, rulings), sid);
    RunIsOrderly(h, rulings);
    SessionRowsAreOrderly(Run(h, rulings), sid);
    AllSelected(rows);
    SessionIsStamped(h, rulings, sid);
    if AllReadAlike(rows) {
      ReadAlikeIsIntact(h, sid, rows);
    } else if Encodable(rows) {
      var k := FirstMisread(rows);
      MisreadIsFlaggedFrom(h, sid, rows, k);
    }
  }

  /** Rows from k on are flagged and none before, so every report says broken at k + 1 and shows
      another head than the last stamp; or the two sides' texts at one place collide. */
  ghost predicate FlaggedFrom(h: HashFn, sid: seq<Byte>, rows: seq<Row>, k: nat)
    requires Encodable(rows) && Writable(rows) && k < |rows|
  {
    && (forall i :: 0 <= i < k ==> !Flagged(h, sid, rows, i))
    && (|| TamperCollides(h, sid, WriterFieldsOf(rows), FieldsOf(rows), k)
        || ((forall i :: k <= i < |rows| ==> Flagged(h, sid, rows, i))
            && forall n, headHash, r :: IsReport(h, sid, rows, n, headHash, r) ==>
                 !r.intact && r.brokenAt == Some(k + 1) && r.head != rows[|rows| - 1].storedHash))
  }

  lemma MisreadIsFlaggedFrom(h: HashFn, sid: seq<Byte>, rows: seq<Row>, k: nat)
    requires Stamped(h, sid, rows) && Encodable(rows) && k < |rows| && Misread(rows[k]) && AllReadAlike(rows[..k])
    ensures FlaggedFrom(h, sid, rows, k)
  {
    hide Misread, Flagged, IsReport, TamperCollides, Encode, WriterFields;
    MisreadIsFlagged(h, sid, rows, k);
  }

  // ---------------------------------------------------------------- the bridge's own verifier

  /** `get_grind_chain_status`, row by row: it chains the stored hashes and stops at the first one
      that is not its own. None is an exception. */
  function ChainStatus(h: HashFn, sid: seq<Byte>, rows: seq<Row>, i: nat): Option<bool>
    requires i <= |rows|
  {
    if i == 0 then Some(true)
    else if ChainStatus(h, sid, rows, i - 1) != Some(true) then ChainStatus(h, sid, rows, i - 1)
    else
      match ExpectedGic(h, sid, rows, i - 1)
      case None => None
      case Some(d) => Some(Hex(d) == rows[i - 1].storedHash)
  }

  function ExpectedGic(h: HashFn, sid: seq<Byte>, rows: seq<Row>, i: nat): Option<Digest>
    requires i < |rows|
  {
    var row := rows[i];
    var host := if row.hostState == "" then "DISCONNECTED" else row.hostState;
    var verdict := if row.verdict == "" then "FLAG" else row.verdict;
    if i == 0 then
      match GenesisGic(h, sid, row.tsNs)
      case None => None
      case Some(genesis) => ComputeGic(h, genesis, row.commitmentHash, host, verdict, row.tsNs)
    else
      match FromHex(rows[i - 1].storedHash)
      case None => None
      case Some(prev) => ComputeGic(h, prev, row.commitmentHash, host, verdict, row.tsNs)
  }

  method GetGrindChainStatus(h: HashFn, sid: seq<Byte>, rows: seq<Row>) returns (intact: Option<bool>)
    ensures intact == ChainStatus(h, sid, rows, |rows|)
  {
    hide ExpectedGic, Hex;
    intact := Some(true);
    for i := 0 to |rows|
      invariant intact == Some(true) == ChainStatus(h, sid, rows, i)
    {
      var expected := ExpectedGic(h, sid, rows, i);
      if expected.None? {
        StatusStays(h, sid, rows, i + 1, |rows|);
        return None;
      }
      if Hex(expected.value) != rows[i].storedHash {
        StatusStays(h, sid, rows, i + 1, |rows|);
        return Some(false);
      }
    }
  }

  lemma {:induction false} StatusStays(h: HashFn, sid: seq<Byte>, rows: seq<Row>, i: nat, n: nat)
    requires i <= n <= |rows| && ChainStatus(h, sid, rows, i) != Some(true)
    ensures ChainStatus(h, sid, rows, n) == ChainStatus(h, sid, rows, i)
  {
    hide ExpectedGic;
    if i < n { StatusStays(h, sid, rows, i, n - 1); }
  }

  /** Exactly: the bridge calls what it stamped intact if every row has a commitment. From the first
      row without one on, for which it hashes no octets where it had stamped 32 zeros, it says
      broken, or the two texts collide. */
  lemma BridgeVerifiesExactly(h: HashFn, rulings: seq<Ruling>, sid: seq<Byte>)
    requires sid != []
    ensures var rows := SessionRows(Run(h, rulings), sid);
            && ((forall i :: 0 <= i < |rows| ==> rows[i].commitmentHash != "") ==> ChainStatus(h, sid, rows, |rows|) == Some(true))
            && (forall k :: 0 <= k < |rows| && rows[k].commitmentHash == "" ==>
                  || ChainStatus(h, sid, rows, |rows|) == Some(false)
                  || MissingCollides(h, sid, rows))
  {
    hide Run, SessionRows, Stamped, ChainStatus, MissingCollides;
    var rows := SessionRows(Run(h, rulings), sid);
    SessionIsStamped(h, rulings, sid);
    if k :| 0 <= k < |rows| && rows[k].commitmentHash == "" {
      MissingIsBroken(h, sid, rows, k + 1);
      if !MissingCollides(h, sid, rows) {
        StatusStays(h, sid, rows, k + 1, |rows|);
      }
    } else {
      PresentIsIntact(h, sid, rows, |rows|);
    }
  }

  /** Somewhere the text that was stamped with 32 zeros collides with the one without them. */
  ghost predicate MissingCollides(h: HashFn, sid: seq<Byte>, rows: seq<Row>) {
    Writable(rows) && exists i :: 0 <= i < |rows| && MissingCollidesAt(h, sid, rows, i)
  }

  ghost predicate MissingCollidesAt(h: HashFn, sid: seq<Byte>, rows: seq<Row>, i: nat)
    requires i < |rows| && Writable(rows)
  {
    var prev, f := DigestAt(h, sid, WriterFieldsOf(rows), i), WriterFieldsOf(rows)[i];
    Collides(h, Payload(prev, f), Payload(prev, f.(commit := [])))
  }

  /** What the bridge expects at row i is what it stamped there, but for a missing commitment. */
  lemma ExpectedIsStamped(h: HashFn, sid: seq<Byte>, rows: seq<Row>, i: nat)
    requires Stamped(h, sid, rows) && i < |rows|
    ensures var prev, f := DigestAt(h, sid, WriterFieldsOf(rows), i), WriterFieldsOf(rows)[i];
            && DigestAt(h, sid, WriterFieldsOf(rows), i + 1) == h(Payload(prev, f))
            && ExpectedGic(h, sid, rows, i)
               == Some(h(Payload(prev, if rows[i].commitmentHash == "" then f.(commit := []) else f)))
  {
    hide Hex, FromHex, WriterVerdictCode, WriterHostCode;
    var fs := WriterFieldsOf(rows);
    var prev, f, row := DigestAt(h, sid, fs, i), fs[i], rows[i];
    UnsetCodes();
    if i > 0 {
      FromHexOfHex(prev);
      assert rows[i - 1].storedHash == Hex(DigestAt(h, sid, fs, i - 1 + 1));
    }
    forall commit: seq<Byte> ensures GicText(prev, commit, row.hostState, row.verdict, row.tsNs) == Payload(prev, f.(commit := commit)) {
      assert prev + commit + [f.verdict] + [f.host] == prev + commit + [f.verdict, f.host];
    }
    EmptyHex();
  }

  lemma UnsetCodes()
    ensures WriterHostCode("") == WriterHostCode("DISCONNECTED") && WriterVerdictCode("") == WriterVerdictCode("FLAG")
  {
  }

  lemma EmptyHex()
    ensures FromHex("") == Some([])
  {
  }

  lemma {:induction false} PresentIsIntact(h: HashFn, sid: seq<Byte>, rows: seq<Row>, i: nat)
    requires Stamped(h, sid, rows) && i <= |rows| && forall j :: 0 <= j < i ==> rows[j].commitmentHash != ""
    ensures ChainStatus(h, sid, rows, i) == Some(true)
  {
    hide Hex, ExpectedGic, DigestAt, Payload, WriterFields;
    if i > 0 {
      PresentIsIntact(h, sid, rows, i - 1);
      ExpectedIsStamped(h, sid, rows, i - 1);
      assert rows[i - 1].storedHash == Hex(DigestAt(h, sid, WriterFieldsOf(rows), i - 1 + 1));
    }
  }

  lemma {:induction false} MissingIsBroken(h: HashFn, sid: seq<Byte>, rows: seq<Row>, i: nat)
    requires Stamped(h, sid, rows) && i <= |rows| && exists j :: 0 <= j < i && rows[j].commitmentHash == ""
    ensures ChainStatus(h, sid, rows, i) == Some(false) || MissingCollides(h, sid, rows)
  {
    hide Hex, ExpectedGic, DigestAt, WriterFields, MissingCollides;
    if forall j :: 0 <= j < i - 1 ==> rows[j].commitmentHash != "" {
      PresentIsIntact(h, sid, rows, i - 1);
      MissingDiffers(h, sid, rows, i - 1);
    } else {
      MissingIsBroken(h, sid, rows, i - 1);
    }
  }

  lemma MissingDiffers(h: HashFn, sid: seq<Byte>, rows: seq<Row>, i: nat)
    requires Stamped(h, sid, rows) && i < |rows| && rows[i].commitmentHash == ""
    ensures var expected := ExpectedGic(h, sid, rows, i);
            && expected.Some?
            && (Hex(expected.value) != rows[i].storedHash || MissingCollides(h, sid, rows))
  {
    hide Hex, ExpectedGic, DigestAt, FromHex;
    var fs := WriterFieldsOf(rows);
    var prev, f := DigestAt(h, sid, fs, i), fs[i];
    ExpectedIsStamped(h, sid, rows, i);
    HexOfZeros(ZeroDigest());
    FromHexOfHex(ZeroDigest());
    assert |f.commit| == 32;
    PayloadsDiffer(prev, f, prev, f.(commit := []));
    if Hex(ExpectedGic(h, sid, rows, i).value) == rows[i].storedHash {
      HexInjective(ExpectedGic(h, sid, rows, i).value, DigestAt(h, sid, fs, i + 1));
      assert MissingCollidesAt(h, sid, rows, i);
    }
  }
}
