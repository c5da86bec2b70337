/** The grind-integrity chain: its frozen link formula and the replay tool that audits it. */
module GicReplay {
  import opened Bytes

  // A row keeps the hex digest stored when its link was made. The replay recomputes every
  // link from the genesis digest and compares. `Preimage(.., i)` names the exact octets the
  // replay hashes: 0 is the genesis text, i + 1 the payload of row i. A result that would
  // need a collision-free hash says instead at which index two of these preimages collide.

  /** A row of one session. The source treats NULL and the empty value alike (`x or default`):
      a NULL text is the empty string here, and a NULL timestamp is 0. */
  datatype Row = Row(id: int, storedHash: string, tsNs: int, commitmentHash: string,
                     hostState: string, verdict: string)

  /** What a row contributes to the link hash. */
  datatype Fields = Fields(commit: seq<Byte>, verdict: Byte, host: Byte, ts: U64)

  function GenesisTag(): (t: seq<Byte>)
    ensures |t| == 19
  {
    Ascii("VAPI-GIC-GENESIS-v1")
  }

  /** An unset verdict is replayed as FLAG, and so is an unknown text. */
  function VerdictCode(verdict: string): Byte {
    var text := if verdict == "" then "FLAG" else verdict;
    if text == "CLEAR" then 0x00
    else if text == "CERTIFY" then 0x01
    else if text == "FLAG" then 0x10
    else if text == "HOLD" then 0x11
    else if text == "BLOCK" then 0x20
    else 0x10
  }

  /** An unset host is replayed as DISCONNECTED, but an unknown text as UNKNOWN. */
  function HostCode(host: string): Byte {
    var text := if host == "" then "DISCONNECTED" else host;
    if text == "EXCLUSIVE_USB" then 0x01
    else if text == "UNKNOWN" then 0x02
    else if text == "EXCLUSIVE_BT" then 0x10
    else if text == "CONTESTED" then 0x20
    else if text == "DEGRADED" then 0x30
    else if text == "DISCONNECTED" then 0xFF
    else 0x02
  }

  /** The commitment column; None when `bytes.fromhex` raises. A text longer than 64 digits
      gives more than 32 octets, and white space inside it fewer. */
  function CommitBytes(text: string): Option<seq<Byte>> {
    if text == "" then Some(ZeroDigest()) else FromHex(ZFill(text, 64))
  }

  /** None when the source raises: bad hex, or a timestamp that does not fit 8 octets. */
  function Encode(row: Row): Option<Fields> {
    match CommitBytes(row.commitmentHash)
    case None => None
    case Some(commit) =>
      if 0 <= row.tsNs < 0x1_0000_0000_0000_0000 then
        Some(Fields(commit, VerdictCode(row.verdict), HostCode(row.hostState), row.tsNs))
      else None
  }

  predicate Encodable(rows: seq<Row>) {
    forall i :: 0 <= i < |rows| ==> Encode(rows[i]).Some?
  }

  function FieldsOf(rows: seq<Row>): (fs: seq<Fields>)
    requires Encodable(rows)
    ensures |fs| == |rows| && forall i :: 0 <= i < |rows| ==> Some(fs[i]) == Encode(rows[i])
  {
    seq(|rows|, i requires 0 <= i < |rows| => Encode(rows[i]).value)
  }

  // ---------------------------------------------------------------- the chain

  function GenesisText(sid: seq<Byte>, ts: U64): seq<Byte> {
    GenesisTag() + sid + Uint64(ts)
  }

  function Payload(prev: Digest, f: Fields): seq<Byte> {
    prev + f.commit + [f.verdict, f.host] + Uint64(f.ts)
  }

  function Preimage(h: HashFn, sid: seq<Byte>, fs: seq<Fields>, i: nat): seq<Byte>
    requires 0 < |fs| && i <= |fs|
  {
    if i == 0 then GenesisText(sid, fs[0].ts) else Payload(h(Preimage(h, sid, fs, i - 1)), fs[i - 1])
  }

  /** The running digest before row i; at |fs| it is the head. */
  function DigestAt(h: HashFn, sid: seq<Byte>, fs: seq<Fields>, i: nat): Digest
    requires 0 < |fs| && i <= |fs|
  {
    h(Preimage(h, sid, fs, i))
  }

  /** Both encodings can be read back: the fixed-width ends leave only one place for the
      variable middle (session id, over-long commitment). */
  lemma GenesisInjective(sidA: seq<Byte>, tsA: U64, sidB: seq<Byte>, tsB: U64)
    requires GenesisText(sidA, tsA) == GenesisText(sidB, tsB)
    ensures sidA == sidB && tsA == tsB
  {
    ConcatInjective(GenesisTag() + sidA, Uint64(tsA), GenesisTag() + sidB, Uint64(tsB));
    ConcatInjective(GenesisTag(), sidA, GenesisTag(), sidB);
    assert FromBigEndian(Uint64(tsA)) == FromBigEndian(Uint64(tsB));
  }

  lemma PayloadInjective(prevA: Digest, a: Fields, prevB: Digest, b: Fields)
    requires Payload(prevA, a) == Payload(prevB, b)
    ensures prevA == prevB && a == b
  {
    ConcatInjective(prevA + a.commit + [a.verdict, a.host], Uint64(a.ts),
                    prevB + b.commit + [b.verdict, b.host], Uint64(b.ts));
    assert FromBigEndian(Uint64(a.ts)) == FromBigEndian(Uint64(b.ts));
    ConcatInjective(prevA + a.commit, [a.verdict, a.host], prevB + b.commit, [b.verdict, b.host]);
    assert [a.verdict, a.host][0] == [b.verdict, b.host][0] && [a.verdict, a.host][1] == [b.verdict, b.host][1];
    ConcatInjective(prevA, a.commit, prevB, b.commit);
  }

  lemma PayloadsDiffer(prevA: Digest, a: Fields, prevB: Digest, b: Fields)
    requires prevA != prevB || a != b
    ensures Payload(prevA, a) != Payload(prevB, b)
  {
    if Payload(prevA, a) == Payload(prevB, b) {
      PayloadInjective(prevA, a, prevB, b);
    }
  }

  /** Some index at which the two histories, aligned at their heads, hash different octets
      to one digest. */
  ghost predicate HistoriesCollide(h: HashFn, sidA: seq<Byte>, a: seq<Fields>, sidB: seq<Byte>, b: seq<Fields>)
    requires 0 < |a| <= |b|
  {
    exists i :: 0 <= i <= |a| && Collides(h, Preimage(h, sidA, a, i), Preimage(h, sidB, b, i + |b| - |a|))
  }

  /** A head commits to the whole history, lengths included. Two chains of any lengths with
      one head have the same session and the same fields in every row; or two of the preimages
      hashed along the way collide; or a running digest of the longer one begins with the
      19-octet genesis tag, the only way a link payload can be read as a genesis text. */
  lemma {:induction false} HeadCommitsToHistory(h: HashFn, sidA: seq<Byte>, a: seq<Fields>, sidB: seq<Byte>, b: seq<Fields>)
    requires 0 < |a| <= |b|
    requires DigestAt(h, sidA, a, |a|) == DigestAt(h, sidB, b, |b|)
    ensures (sidA == sidB && a == b)
         || HistoriesCollide(h, sidA, a, sidB, b)
         || (|a| < |b| && GenesisTag() <= DigestAt(h, sidB, b, |b| - |a| - 1))
  {
    if !HistoriesCollide(h, sidA, a, sidB, b) {
      PreimagesAgreeBackwards(h, sidA, a, sidB, b, 0);
      var d := |b| - |a|;
      assert Preimage(h, sidA, a, 0) == GenesisText(sidA, a[0].ts);
      if d == 0 {
        GenesisInjective(sidA, a[0].ts, sidB, b[0].ts);
      } else {
        var prev := DigestAt(h, sidB, b, d - 1);
        var text := GenesisText(sidA, a[0].ts);
        assert text == Payload(prev, b[d - 1]);
        assert text[..19] == GenesisTag();
        assert text[..19] == prev[..19];
      }
    }
  }

  /** Equal heads and no collision: from index i on, equal preimages and equal fields. */
  lemma {:induction false} PreimagesAgreeBackwards(
      h: HashFn, sidA: seq<Byte>, a: seq<Fields>, sidB: seq<Byte>, b: seq<Fields>, i: nat)
    requires 0 < |a| <= |b| && i <= |a|
    requires DigestAt(h, sidA, a, |a|) == DigestAt(h, sidB, b, |b|)
    requires !HistoriesCollide(h, sidA, a, sidB, b)
    ensures Preimage(h, sidA, a, i) == Preimage(h, sidB, b, i + |b| - |a|)
    ensures a[i..] == b[i + |b| - |a|..]
    decreases |a| - i
  {
    hide GenesisText, Payload;
    var d := |b| - |a|;
    if i < |a| {
      PreimagesAgreeBackwards(h, sidA, a, sidB, b, i + 1);
      PayloadInjective(DigestAt(h, sidA, a, i), a[i], DigestAt(h, sidB, b, i + d), b[i + d]);
      assert a[i..] == [a[i]] + a[i + 1..];
      assert b[i + d..] == [b[i + d]] + b[i + d + 1..];
    }
    assert DigestAt(h, sidA, a, i) == DigestAt(h, sidB, b, i + d);
  }

  /** The familiar case: equally many rows. */
  lemma HeadCommitsToEqualLengthHistory(h: HashFn, sidA: seq<Byte>, a: seq<Fields>, sidB: seq<Byte>, b: seq<Fields>)
    requires 0 < |a| == |b|
    requires DigestAt(h, sidA, a, |a|) == DigestAt(h, sidB, b, |b|)
    ensures (sidA == sidB && a == b) || HistoriesCollide(h, sidA, a, sidB, b)
  {
    HeadCommitsToHistory(h, sidA, a, sidB, b);
  }

  // ---------------------------------------------------------------- the replay tool

  /** The tool's nested function `_compute`; None when it raises. */
  type LinkFn = (Digest, Row) -> Option<Digest>

  function Compute(h: HashFn): LinkFn {
    (prev: Digest, row: Row) =>
      match Encode(row)
      case None => None
      case Some(f) => Some(h(Payload(prev, f)))
  }

  /** The running digest after i rows, None once a row has raised. */
  function Running(link: LinkFn, genesis: Digest, rows: seq<Row>, i: nat): Option<Digest>
    requires i <= |rows|
  {
    if i == 0 then Some(genesis) else
      match Running(link, genesis, rows, i - 1)
      case None => None
      case Some(prev) => link(prev, rows[i - 1])
  }

  /** Row i's stored hash is not the recomputed one. */
  predicate Mismatch(link: LinkFn, genesis: Digest, rows: seq<Row>, i: nat)
    requires i < |rows|
  {
    match Running(link, genesis, rows, i + 1)
    case None => true
    case Some(d) => Hex(d) != rows[i].storedHash
  }

  /** The least 1-based index of a mismatch among the first i rows. */
  function FirstBroken(link: LinkFn, genesis: Digest, rows: seq<Row>, i: nat): (b: Option<int>)
    requires i <= |rows|
    ensures b.None? ==> forall j :: 0 <= j < i ==> !Mismatch(link, genesis, rows, j)
    ensures b.Some? ==> 1 <= b.value <= i && Mismatch(link, genesis, rows, b.value - 1)
    ensures b.Some? ==> forall j :: 0 <= j < b.value - 1 ==> !Mismatch(link, genesis, rows, j)
  {
    if i == 0 then None else
      var b := FirstBroken(link, genesis, rows, i - 1);
      if b.None? && Mismatch(link, genesis, rows, i - 1) then Some(i) else b
  }

  lemma FirstBrokenIs(link: LinkFn, genesis: Digest, rows: seq<Row>, k: nat)
    requires k < |rows| && Mismatch(link, genesis, rows, k)
    requires forall i :: 0 <= i < k ==> !Mismatch(link, genesis, rows, i)
    ensures FirstBroken(link, genesis, rows, |rows|) == Some(k + 1)
  {
  }

  datatype Line = Line(index: int, ok: bool)

  function Window(link: LinkFn, genesis: Digest, rows: seq<Row>, from: nat, to: nat): (w: seq<Line>)
    requires from <= to <= |rows|
    ensures |w| == to - from
  {
    if from == to then []
    else Window(link, genesis, rows, from, to - 1) + [Line(to, !Mismatch(link, genesis, rows, to - 1))]
  }

  /** The window numbers rows from..to and marks each OK exactly when the full pass does. */
  lemma {:induction false} WindowAt(link: LinkFn, genesis: Digest, rows: seq<Row>, from: nat, to: nat, j: nat)
    requires from + j < to <= |rows|
    ensures Window(link, genesis, rows, from, to)[j] == Line(from + j + 1, !Mismatch(link, genesis, rows, from + j))
  {
    if from + j < to - 1 { WindowAt(link, genesis, rows, from, to - 1, j); }
  }

  lemma {:induction false} RaisingStopsTheReplay(link: LinkFn, genesis: Digest, rows: seq<Row>, i: nat, n: nat)
    requires i <= n <= |rows| && Running(link, genesis, rows, i).None?
    ensures Running(link, genesis, rows, n).None?
  {
    if i < n { RaisingStopsTheReplay(link, genesis, rows, i, n - 1); }
  }

  /** The query: of a session's rows in id order, those that carry a chain hash. */
  function Selected(table: seq<Row>): seq<Row> {
    if table == [] then [] else
      var last := table[|table| - 1];
      Selected(table[..|table| - 1]) + (if last.storedHash != "" then [last] else [])
  }

  lemma {:induction false} SelectedKeepsOrder(table: seq<Row>)
    requires AscendingIds(table)
    ensures AscendingIds(Selected(table)) && forall row :: row in Selected(table) <==> row in table && row.storedHash != ""
  {
    if table != [] {
      var n := |table| - 1;
      SelectedKeepsOrder(table[..n]);
      assert table == table[..n] + [table[n]];
      forall i | 0 <= i < |Selected(table[..n])| ensures Selected(table[..n])[i].id < table[n].id {
        assert Selected(table[..n])[i] in table[..n];
      }
    }
  }

  lemma {:induction false} SelectedConcat(a: seq<Row>, b: seq<Row>)
    ensures Selected(a + b) == Selected(a) + Selected(b)
  {
    if b == [] {
      assert a + b == a;
    } else {
      assert (a + b)[..|a + b| - 1] == a + b[..|b| - 1];
      SelectedConcat(a, b[..|b| - 1]);
    }
  }

  /** Rows that all carry a hash are all selected. */
  lemma {:induction false} AllSelected(table: seq<Row>)
    requires forall i :: 0 <= i < |table| ==> table[i].storedHash != ""
    ensures Selected(table) == table
  {
    if table != [] {
      AllSelected(table[..|table| - 1]);
    }
  }

  predicate AscendingIds(rows: seq<Row>) {
    forall i, j :: 0 <= i < j < |rows| ==> rows[i].id < rows[j].id
  }

  /** `list.index` on the selected rows. */
  method IndexOf(rows: seq<Row>, row: Row) returns (k: nat)
    requires row in rows
    ensures k < |rows| && rows[k] == row && row !in rows[..k]
  {
    k := 0;
    while rows[k] != row
      invariant k < |rows| && row !in rows[..k]
      decreases |rows| - k
    {
      k := k + 1;
    }
  }

  /** The first loop: recompute every link from the genesis digest. */
  method FullPass(link: LinkFn, rows: seq<Row>, genesis: Digest)
      returns (ok: bool, intact: bool, brokenAt: Option<int>, head: Digest)
    requires AscendingIds(rows)
    ensures !ok ==> Running(link, genesis, rows, |rows|).None?
    ensures ok ==> Running(link, genesis, rows, |rows|) == Some(head)
    ensures ok ==> brokenAt == FirstBroken(link, genesis, rows, |rows|) && intact == brokenAt.None?
  {
    hide Hex;
    ok, intact, brokenAt, head := true, true, None, genesis;
    for i := 0 to |rows|
      invariant Running(link, genesis, rows, i) == Some(head)
      invariant brokenAt == FirstBroken(link, genesis, rows, i) && intact == brokenAt.None?
    {
      var expected := link(head, rows[i]);
      assert Running(link, genesis, rows, i + 1) == expected;
      if expected.None? {
        RaisingStopsTheReplay(link, genesis, rows, i + 1, |rows|);
        ok := false;
        return;
      }
      if Hex(expected.value) != rows[i].storedHash {
        intact := false;
        if brokenAt.None? {
          var k := IndexOf(rows, rows[i]);
          assert k == i;
          brokenAt := Some(k + 1);
        }
      }
      head := expected.value;
    }
  }

  /** The second loop: forward silently to the first displayed row. */
  method ForwardTo(link: LinkFn, rows: seq<Row>, cut: nat, genesis: Digest) returns (prev: Digest)
    requires cut <= |rows| && Running(link, genesis, rows, |rows|).Some?
    ensures Running(link, genesis, rows, cut) == Some(prev)
  {
    prev := genesis;
    for i := 0 to cut
      invariant Running(link, genesis, rows, i) == Some(prev)
    {
      if Running(link, genesis, rows, i + 1).None? {
        RaisingStopsTheReplay(link, genesis, rows, i + 1, |rows|);
      }
      prev := link(prev, rows[i]).value;
    }
  }

  /** The third loop: compare the displayed rows again, from the digest the full pass had
      there. It never finds a break the full pass had missed. */
  method WindowPass(link: LinkFn, rows: seq<Row>, cut: nat, prev: Digest, ghost genesis: Digest,
                    intactIn: bool, brokenIn: Option<int>)
      returns (intact: bool, brokenAt: Option<int>, window: seq<Line>)
    requires cut <= |rows| && Running(link, genesis, rows, |rows|).Some?
    requires Running(link, genesis, rows, cut) == Some(prev)
    requires brokenIn == FirstBroken(link, genesis, rows, |rows|) && intactIn == brokenIn.None?
    ensures intact == intactIn && brokenAt == brokenIn
    ensures window == Window(link, genesis, rows, cut, |rows|)
  {
    hide FirstBroken, Hex;
    intact, brokenAt, window := intactIn, brokenIn, [];
    var displayPrev, display := prev, rows[cut..];
    for i := 0 to |display|
      invariant Running(link, genesis, rows, cut + i) == Some(displayPrev)
      invariant window == Window(link, genesis, rows, cut, cut + i)
      invariant intact == intactIn && brokenAt == brokenIn
    {
      if Running(link, genesis, rows, cut + i + 1).None? {
        RaisingStopsTheReplay(link, genesis, rows, cut + i + 1, |rows|);
      }
      assert display[i] == rows[cut + i];
      var expected := link(displayPrev, display[i]).value;
      assert Running(link, genesis, rows, cut + i + 1) == Some(expected);
      var status := Hex(expected) == display[i].storedHash;
      assert status == !Mismatch(link, genesis, rows, cut + i);
      if !status {
        intact := false;
        if brokenAt.None? {
          brokenAt := Some(|rows| - |display| + i + 1);
        }
      }
      window := window + [Line(|rows| - |display| + i + 1, status)];
      displayPrev := expected;
    }
  }

  datatype Outcome =
    | NoRows
    | Failed
    | Report(intact: bool, brokenAt: Option<int>, head: string, window: seq<Line>, headMatch: Option<bool>)

  /** A Python slice bound: negative counts from the end, and everything is clamped. */
  function SliceBound(k: int, len: nat): (r: nat)
    ensures r <= len
  {
    if k < 0 then (if len + k < 0 then 0 else len + k) else if k > len then len else k
  }

  function GenesisDigest(h: HashFn, sid: seq<Byte>, rows: seq<Row>): Digest
    requires rows != [] && Encodable(rows)
  {
    h(GenesisText(sid, rows[0].tsNs))
  }

  /** Row i is reported BROKEN. */
  predicate Flagged(h: HashFn, sid: seq<Byte>, rows: seq<Row>, i: nat)
    requires Encodable(rows) && i < |rows|
  {
    Mismatch(Compute(h), GenesisDigest(h, sid, rows), rows, i)
  }

  ghost predicate Intact(h: HashFn, sid: seq<Byte>, rows: seq<Row>)
    requires Encodable(rows)
  {
    forall i :: 0 <= i < |rows| ==> !Flagged(h, sid, rows, i)
  }

  /** What a report says about the rows: the first broken row (`FirstBroken`), the head of the
      chain, and each displayed row's mark (`WindowAt`). */
  ghost predicate IsReport(h: HashFn, sid: seq<Byte>, rows: seq<Row>, n: int, headHash: string, r: Outcome)
    requires rows != [] && Encodable(rows)
  {
    && r.Report?
    && r.brokenAt == FirstBroken(Compute(h), GenesisDigest(h, sid, rows), rows, |rows|)
    && r.intact == r.brokenAt.None?
    && r.head == Hex(DigestAt(h, sid, FieldsOf(rows), |rows|))
    && r.headMatch == (if headHash == "" then None else Some(r.head == headHash))
    && r.window == Window(Compute(h), GenesisDigest(h, sid, rows), rows, SliceBound(-n, |rows|), |rows|)
  }

  /** The running digests are the digests of the chain, and they exist when no row raises. */
  lemma {:induction false} RunningIsDigestAt(h: HashFn, sid: seq<Byte>, rows: seq<Row>, i: nat)
    requires rows != [] && Encodable(rows) && i <= |rows|
    ensures Running(Compute(h), GenesisDigest(h, sid, rows), rows, i) == Some(DigestAt(h, sid, FieldsOf(rows), i))
  {
    hide GenesisText, Payload, CommitBytes;
    if i > 0 {
      RunningIsDigestAt(h, sid, rows, i - 1);
      assert Encode(rows[i - 1]) == Some(FieldsOf(rows)[i - 1]);
    }
  }

  /** A row is flagged exactly when its stored text is not the hex of the chain's digest. */
  lemma FlaggedExactly(h: HashFn, sid: seq<Byte>, rows: seq<Row>, i: nat)
    requires Encodable(rows) && i < |rows|
    ensures Flagged(h, sid, rows, i) <==> Hex(DigestAt(h, sid, FieldsOf(rows), i + 1)) != rows[i].storedHash
  {
    hide Encode, DigestAt, Hex, Compute, GenesisDigest;
    RunningIsDigestAt(h, sid, rows, i + 1);
  }

  lemma UnencodableRaises(h: HashFn, genesis: Digest, rows: seq<Row>)
    requires !Encodable(rows)
    ensures Running(Compute(h), genesis, rows, |rows|).None?
  {
    var i :| 0 <= i < |rows| && Encode(rows[i]).None?;
    RaisingStopsTheReplay(Compute(h), genesis, rows, i + 1, |rows|);
  }

  /** The `gic_replay` tool on the rows of one session in id order. */
  method Replay(h: HashFn, sid: seq<Byte>, table: seq<Row>, n: int, headHash: string) returns (r: Outcome)
    requires AscendingIds(table)
    ensures Selected(table) == [] ==> r == NoRows
    ensures Selected(table) != [] && !Encodable(Selected(table)) ==> r == Failed
    ensures Selected(table) != [] && Encodable(Selected(table)) ==> IsReport(h, sid, Selected(table), n, headHash, r)
  {
    SelectedKeepsOrder(table);
    var rows := Selected(table);
    if rows == [] { return NoRows; }
    var ts0 := rows[0].tsNs;
    if !(0 <= ts0 < 0x1_0000_0000_0000_0000) {
      assert Encode(rows[0]).None?;
      return Failed;
    }
    var genesis: Digest := h(GenesisText(sid, ts0));
    var link := Compute(h);
    if !Encodable(rows) { UnencodableRaises(h, genesis, rows); } else { RunningIsDigestAt(h, sid, rows, |rows|); }
    var ok, intact, brokenAt, head := FullPass(link, rows, genesis);
    if !ok { return Failed; }
    var cut := SliceBound(-n, |rows|);
    var prev := ForwardTo(link, rows, cut, genesis);
    var window;
    intact, brokenAt, window := WindowPass(link, rows, cut, prev, genesis, intact, brokenAt);
    var hex := Hex(head);
    r := Report(intact, brokenAt, hex, window, if headHash == "" then None else Some(hex == headHash));
  }

  /** The window of a report for any n: the last n rows, all of them when there are no more or n is
      0, and for a negative n all but the first -n, as `rows[-n:]` has it; each with its number and
      marked OK exactly when it is not flagged. */
  lemma ReportWindowExactly(h: HashFn, sid: seq<Byte>, rows: seq<Row>, n: int, headHash: string, r: Outcome)
    requires rows != [] && Encodable(rows) && IsReport(h, sid, rows, n, headHash, r)
    ensures var len := |rows|;
            && |r.window| == (if n > 0 then (if n < len then n else len) else if len + n > 0 then len + n else 0)
            && forall j :: 0 <= j < |r.window| ==>
                 var i := len - |r.window| + j; r.window[j] == Line(i + 1, !Flagged(h, sid, rows, i))
    ensures r.headMatch == if headHash == "" then None else Some(r.head == headHash)
  {
    hide Mismatch, Encode, DigestAt;
    var cut := SliceBound(-n, |rows|);
    forall j | 0 <= j < |r.window|
      ensures r.window[j] == Line(|rows| - |r.window| + j + 1, !Flagged(h, sid, rows, |rows| - |r.window| + j))
    {
      WindowAt(Compute(h), GenesisDigest(h, sid, rows), rows, cut, |rows|, j);
    }
  }

  // ---------------------------------------------------------------- tamper localisation

  lemma PreimagePrefix(h: HashFn, sid: seq<Byte>, a: seq<Fields>, b: seq<Fields>, i: nat)
    requires 0 < |a| && 0 < |b| && i <= |a| && i <= |b|
    requires a[..i] == b[..i] && a[0].ts == b[0].ts
    ensures Preimage(h, sid, a, i) == Preimage(h, sid, b, i)
  {
    hide GenesisText, Payload;
    if i > 0 {
      assert a[..i - 1] == a[..i][..i - 1] && b[..i - 1] == b[..i][..i - 1];
      PreimagePrefix(h, sid, a, b, i - 1);
      assert a[i - 1] == a[..i][i - 1] && b[i - 1] == b[..i][i - 1];
    }
  }

  /** The rows of an intact chain all carry a hash. */
  lemma IntactIsSelected(h: HashFn, sid: seq<Byte>, rows: seq<Row>)
    requires Encodable(rows) && Intact(h, sid, rows)
    ensures Selected(rows) == rows
    ensures forall i :: 0 <= i < |rows| ==> rows[i].storedHash != ""
  {
    hide Flagged, DigestAt, Encode;
    forall i | 0 <= i < |rows| ensures rows[i].storedHash != "" {
      FlaggedExactly(h, sid, rows, i);
      assert !Flagged(h, sid, rows, i);
    }
    AllSelected(rows);
  }

  /** Changing only a stored hash of an intact chain, to any other hash, is localised to exactly
      that row, and leaves the head alone. Erasing it is `ErasedHashFlagsSuffix`. */
  lemma StoredHashTamperIsLocal(h: HashFn, sid: seq<Byte>, rows: seq<Row>, k: nat, hash: string, bad: seq<Row>)
    requires k < |rows| && Encodable(rows) && Intact(h, sid, rows)
    requires hash != rows[k].storedHash && hash != ""
    requires bad == rows[k := rows[k].(storedHash := hash)]
    ensures Selected(bad) == bad && Encodable(bad) && FieldsOf(bad) == FieldsOf(rows)
    ensures forall i :: 0 <= i < |rows| ==> (Flagged(h, sid, bad, i) <==> i == k)
    // so every replay of it says:
    ensures forall n, headHash, r :: IsReport(h, sid, bad, n, headHash, r) ==>
              !r.intact && r.brokenAt == Some(k + 1) && r.head == rows[|rows| - 1].storedHash
  {
    hide Compute, GenesisDigest, Encode, Hex, DigestAt, Window, Selected;
    IntactIsSelected(h, sid, rows);
    AllSelected(bad);
    HashTamperFlags(h, sid, rows, k, hash, bad);
    FlaggedExactly(h, sid, rows, |rows| - 1);
    assert !Flagged(h, sid, rows, |rows| - 1);
    forall i | 0 <= i < k ensures !Mismatch(Compute(h), GenesisDigest(h, sid, bad), bad, i) {
      assert !Flagged(h, sid, bad, i);
    }
    assert Flagged(h, sid, bad, k);
    FirstBrokenIs(Compute(h), GenesisDigest(h, sid, bad), bad, k);
  }

  lemma HashTamperFlags(h: HashFn, sid: seq<Byte>, rows: seq<Row>, k: nat, hash: string, bad: seq<Row>)
    requires k < |rows| && Encodable(rows) && Intact(h, sid, rows)
    requires hash != rows[k].storedHash
    requires bad == rows[k := rows[k].(storedHash := hash)]
    ensures Encodable(bad) && FieldsOf(bad) == FieldsOf(rows)
    ensures forall i :: 0 <= i < |rows| ==> (Flagged(h, sid, bad, i) <==> i == k)
  {
    assert FieldsOf(bad) == FieldsOf(rows);
    forall i | 0 <= i < |rows| ensures Flagged(h, sid, bad, i) <==> i == k {
      assert !Flagged(h, sid, rows, i);
      FlaggedExactly(h, sid, rows, i);
      FlaggedExactly(h, sid, bad, i);
    }
  }

  /** An index from k on where the original and the tampered chain hash different payloads
      to one digest. */
  ghost predicate TamperCollides(h: HashFn, sid: seq<Byte>, a: seq<Fields>, b: seq<Fields>, k: nat)
    requires 0 < |a| == |b|
  {
    exists i :: k < i <= |a| && Collides(h, Preimage(h, sid, a, i), Preimage(h, sid, b, i))
  }

  /** Changing the encoded fields of row k while every stored hash stays flags every row from
      k on and none before, or the tampered payload collides with the original one. */
  lemma {:induction false} FieldTamperFlagsSuffix(h: HashFn, sid: seq<Byte>, rows: seq<Row>, k: nat, row: Row, bad: seq<Row>)
    requires k < |rows| && Encodable(rows) && Intact(h, sid, rows)
    requires Encode(row).Some? && Encode(row) != Encode(rows[k]) && row.storedHash == rows[k].storedHash
    requires bad == rows[k := row]
    ensures Encodable(bad)
    ensures forall i :: 0 <= i < k ==> !Flagged(h, sid, bad, i)
    ensures (forall i :: k <= i < |rows| ==> Flagged(h, sid, bad, i))
         || TamperCollides(h, sid, FieldsOf(rows), FieldsOf(bad), k)
  {
    RowsBeforeUnflagged(h, sid, rows, k, bad);
    var a, b := FieldsOf(rows), FieldsOf(bad);
    if !TamperCollides(h, sid, a, b, k) {
      forall i | k <= i < |rows| ensures Flagged(h, sid, bad, i) {
        DigestsDiffer(h, sid, a, b, k, i);
        FlaggedExactly(h, sid, rows, i);
        FlaggedExactly(h, sid, bad, i);
        assert !Flagged(h, sid, rows, i);
        if !Flagged(h, sid, bad, i) {
          HexInjective(DigestAt(h, sid, a, i + 1), DigestAt(h, sid, b, i + 1));
        }
      }
    }
  }

  /** What every replay then reports: row k + 1 as the first broken one and another head. */
  lemma FieldTamperIsReported(h: HashFn, sid: seq<Byte>, rows: seq<Row>, k: nat, row: Row, bad: seq<Row>,
                              n: int, headHash: string, r: Outcome)
    requires k < |rows| && Encodable(rows) && Intact(h, sid, rows)
    requires Encode(row).Some? && Encode(row) != Encode(rows[k]) && row.storedHash == rows[k].storedHash
    requires bad == rows[k := row] && Encodable(bad)
    requires IsReport(h, sid, bad, n, headHash, r)
    ensures Selected(bad) == bad
    ensures || TamperCollides(h, sid, FieldsOf(rows), FieldsOf(bad), k)
            || (!r.intact && r.brokenAt == Some(k + 1) && r.head != rows[|rows| - 1].storedHash)
  {
    hide Compute, GenesisDigest, Encode, Hex, DigestAt, Window, TamperCollides, Selected;
    IntactIsSelected(h, sid, rows);
    AllSelected(bad);
    FieldTamperFlagsSuffix(h, sid, rows, k, row, bad);
    if !TamperCollides(h, sid, FieldsOf(rows), FieldsOf(bad), k) {
      forall i | 0 <= i < k ensures !Mismatch(Compute(h), GenesisDigest(h, sid, bad), bad, i) {
        assert !Flagged(h, sid, bad, i);
      }
      assert Flagged(h, sid, bad, k) && Flagged(h, sid, bad, |rows| - 1);
      FirstBrokenIs(Compute(h), GenesisDigest(h, sid, bad), bad, k);
      FlaggedExactly(h, sid, bad, |rows| - 1);
    }
  }

  lemma RowsBeforeUnflagged(h: HashFn, sid: seq<Byte>, rows: seq<Row>, k: nat, bad: seq<Row>)
    requires k <= |rows| && k <= |bad| && Encodable(rows) && Encodable(bad) && Intact(h, sid, rows)
    requires rows[..k] == bad[..k]
    ensures forall i :: 0 <= i < k ==> !Flagged(h, sid, bad, i)
  {
    hide Flagged, Encode, Hex, GenesisText, Payload;
    var a, b := FieldsOf(rows), FieldsOf(bad);
    forall i | 0 <= i < k ensures !Flagged(h, sid, bad, i) {
      assert forall j :: 0 <= j <= i ==> rows[j] == rows[..k][j] && bad[j] == bad[..k][j];
      assert a[..i + 1] == b[..i + 1];
      assert a[0] == a[..i + 1][0] && b[0] == b[..i + 1][0];
      PreimagePrefix(h, sid, a, b, i + 1);
      FlaggedExactly(h, sid, rows, i);
      FlaggedExactly(h, sid, bad, i);
      assert !Flagged(h, sid, rows, i);
    }
  }

  lemma {:induction false} DigestsDiffer(h: HashFn, sid: seq<Byte>, a: seq<Fields>, b: seq<Fields>, k: nat, i: nat)
    requires k <= i < |a| == |b| && a[k] != b[k]
    requires !TamperCollides(h, sid, a, b, k)
    ensures DigestAt(h, sid, a, i + 1) != DigestAt(h, sid, b, i + 1)
  {
    if k < i {
      DigestsDiffer(h, sid, a, b, k, i - 1);
    }
    PayloadsDiffer(DigestAt(h, sid, a, i), a[i], DigestAt(h, sid, b, i), b[i]);
    assert !Collides(h, Preimage(h, sid, a, i + 1), Preimage(h, sid, b, i + 1));
  }

  // ---------------------------------------------------------------- erased hashes

  /** A row whose hash is erased (NULL or empty) is not replayed at all. */
  lemma ErasedRowIsDropped(h: HashFn, sid: seq<Byte>, rows: seq<Row>, k: nat, bad: seq<Row>)
    requires k < |rows| && Encodable(rows) && Intact(h, sid, rows)
    requires bad == rows[k := rows[k].(storedHash := "")]
    ensures Selected(bad) == rows[..k] + rows[k + 1..] && Encodable(Selected(bad))
  {
    hide Encode, Intact, Selected;
    IntactIsSelected(h, sid, rows);
    SelectedWithout(rows, k, bad);
    var kept := rows[..k] + rows[k + 1..];
    assert forall i :: 0 <= i < |kept| ==> kept[i] == rows[if i < k then i else i + 1];
  }

  lemma SelectedWithout(rows: seq<Row>, k: nat, bad: seq<Row>)
    requires k < |rows| && forall i :: 0 <= i < |rows| ==> rows[i].storedHash != ""
    requires bad == rows[k := rows[k].(storedHash := "")]
    ensures Selected(bad) == rows[..k] + rows[k + 1..]
  {
    hide Selected;
    var before, after := rows[..k], rows[k + 1..];
    SelectedParts(before, bad[k], after);
    assert bad == before + [bad[k]] + after;
  }

  lemma SelectedParts(before: seq<Row>, row: Row, after: seq<Row>)
    requires forall i :: 0 <= i < |before| ==> before[i].storedHash != ""
    requires forall i :: 0 <= i < |after| ==> after[i].storedHash != ""
    requires row.storedHash == ""
    ensures Selected(before + [row] + after) == before + after
  {
    SelectedOne(row);
    hide Selected;
    SelectedConcat(before + [row], after);
    SelectedConcat(before, [row]);
    AllSelected(before);
    AllSelected(after);
    assert before + [] == before;
  }

  lemma SelectedOne(row: Row)
    requires row.storedHash == ""
    ensures Selected([row]) == []
  {
    assert [row][..0] == [];
  }

  /** Erasing the last hash goes unnoticed: the report is that of the intact chain without its
      last row, and of an empty session when there is no other. */
  lemma ErasedLastHashIsUnnoticed(h: HashFn, sid: seq<Byte>, rows: seq<Row>, bad: seq<Row>)
    requires rows != [] && Encodable(rows) && Intact(h, sid, rows)
    requires bad == rows[|rows| - 1 := rows[|rows| - 1].(storedHash := "")]
    ensures Selected(bad) == rows[..|rows| - 1] && Encodable(Selected(bad)) && Intact(h, sid, Selected(bad))
    ensures |rows| > 1 ==> forall n, headHash, r :: IsReport(h, sid, Selected(bad), n, headHash, r) ==>
              r.intact && r.brokenAt == None && r.head == rows[|rows| - 2].storedHash
  {
    hide Compute, GenesisDigest, Encode, Hex, DigestAt, Window, Selected;
    var k := |rows| - 1;
    ErasedRowIsDropped(h, sid, rows, k, bad);
    var kept := Selected(bad);
    assert rows[..k] + rows[k + 1..] == rows[..k];
    assert kept[..k] == kept;
    RowsBeforeUnflagged(h, sid, rows, k, kept);
    if k > 0 {
      FlaggedExactly(h, sid, kept, k - 1);
      assert !Flagged(h, sid, kept, k - 1);
      NothingBroken(h, sid, kept);
    }
  }

  lemma NothingBroken(h: HashFn, sid: seq<Byte>, rows: seq<Row>)
    requires rows != [] && Encodable(rows) && Intact(h, sid, rows)
    ensures FirstBroken(Compute(h), GenesisDigest(h, sid, rows), rows, |rows|) == None
  {
    hide Compute, GenesisDigest, Encode;
    forall i | 0 <= i < |rows| ensures !Mismatch(Compute(h), GenesisDigest(h, sid, rows), rows, i) {
      assert !Flagged(h, sid, rows, i);
    }
  }

  /** Erasing an earlier hash takes its row out of the chain: every replayed row from that place
      on is flagged and none before, so the report names the place; or two preimages at the
      aligned places of the two chains collide; or the first digest begins with the genesis tag. */
  lemma ErasedHashFlagsSuffix(h: HashFn, sid: seq<Byte>, rows: seq<Row>, k: nat, bad: seq<Row>)
    requires k < |rows| - 1 && Encodable(rows) && Intact(h, sid, rows)
    requires bad == rows[k := rows[k].(storedHash := "")]
    ensures Selected(bad) == rows[..k] + rows[k + 1..] && Encodable(Selected(bad))
    ensures forall i :: 0 <= i < k ==> !Flagged(h, sid, Selected(bad), i)
    ensures || HistoriesCollide(h, sid, FieldsOf(Selected(bad)), sid, FieldsOf(rows))
            || GenesisTag() <= DigestAt(h, sid, FieldsOf(rows), 0)
            || ((forall i :: k <= i < |rows| - 1 ==> Flagged(h, sid, Selected(bad), i))
                && forall n, headHash, r :: IsReport(h, sid, Selected(bad), n, headHash, r) ==> !r.intact && r.brokenAt == Some(k + 1))
  {
    hide Compute, GenesisDigest, Encode, Hex, DigestAt, Window, Selected, Flagged, HistoriesCollide, GenesisTag;
    ErasedRowIsDropped(h, sid, rows, k, bad);
    var kept := Selected(bad);
    assert kept[..k] == rows[..k];
    RowsBeforeUnflagged(h, sid, rows, k, kept);
    if !HistoriesCollide(h, sid, FieldsOf(kept), sid, FieldsOf(rows)) && !(GenesisTag() <= DigestAt(h, sid, FieldsOf(rows), 0)) {
      forall i | k <= i < |kept| ensures Flagged(h, sid, kept, i) {
        ShiftedRowIsFlagged(h, sid, rows, k, kept, i);
      }
      FlaggedIsFirst(h, sid, kept, k);
    }
  }

  lemma FlaggedIsFirst(h: HashFn, sid: seq<Byte>, rows: seq<Row>, k: nat)
    requires Encodable(rows) && k < |rows| && Flagged(h, sid, rows, k)
    requires forall i :: 0 <= i < k ==> !Flagged(h, sid, rows, i)
    ensures FirstBroken(Compute(h), GenesisDigest(h, sid, rows), rows, |rows|) == Some(k + 1)
  {
    hide Compute, GenesisDigest, Encode;
    forall i | 0 <= i < k ensures !Mismatch(Compute(h), GenesisDigest(h, sid, rows), rows, i) {
      assert !Flagged(h, sid, rows, i);
    }
    FirstBrokenIs(Compute(h), GenesisDigest(h, sid, rows), rows, k);
  }

  /** A row that moved up by one is flagged: were its digest the stored one, two chains of
      different lengths would have one head. */
  lemma ShiftedRowIsFlagged(h: HashFn, sid: seq<Byte>, rows: seq<Row>, k: nat, kept: seq<Row>, i: nat)
    requires k <= i < |kept| == |rows| - 1 && Encodable(rows) && Intact(h, sid, rows) && Encodable(kept)
    requires kept == rows[..k] + rows[k + 1..]
    ensures || Flagged(h, sid, kept, i)
            || HistoriesCollide(h, sid, FieldsOf(kept), sid, FieldsOf(rows))
            || GenesisTag() <= DigestAt(h, sid, FieldsOf(rows), 0)
  {
    hide Encode, Flagged, GenesisTag, Hex, DigestAt, HistoriesCollide;
    FlaggedExactly(h, sid, kept, i);
    FlaggedExactly(h, sid, rows, i + 1);
    assert !Flagged(h, sid, rows, i + 1) && kept[i] == rows[i + 1];
    var a, b := FieldsOf(kept), FieldsOf(rows);
    if !Flagged(h, sid, kept, i) {
      HexInjective(DigestAt(h, sid, a, i + 1), DigestAt(h, sid, b, i + 2));
      EqualHeadsOfPrefixes(h, sid, a, b, i + 1);
    }
  }

  lemma EqualHeadsOfPrefixes(h: HashFn, sid: seq<Byte>, a: seq<Fields>, b: seq<Fields>, m: nat)
    requires 0 < m <= |a| && |b| == |a| + 1
    requires DigestAt(h, sid, a, m) == DigestAt(h, sid, b, m + 1)
    ensures HistoriesCollide(h, sid, a, sid, b) || GenesisTag() <= DigestAt(h, sid, b, 0)
  {
    hide GenesisText, Payload, GenesisTag, Preimage;
    var x, y := a[..m], b[..m + 1];
    forall i | 0 <= i <= m ensures Preimage(h, sid, x, i) == Preimage(h, sid, a, i) {
      PreimagePrefix(h, sid, x, a, i);
    }
    forall i | 0 <= i <= m + 1 ensures Preimage(h, sid, y, i) == Preimage(h, sid, b, i) {
      PreimagePrefix(h, sid, y, b, i);
    }
    HeadCommitsToHistory(h, sid, x, sid, y);
    if HistoriesCollide(h, sid, x, sid, y) {
      var i :| 0 <= i <= m && Collides(h, Preimage(h, sid, x, i), Preimage(h, sid, y, i + 1));
      assert Collides(h, Preimage(h, sid, a, i), Preimage(h, sid, b, i + |b| - |a|));
    }
  }
}
