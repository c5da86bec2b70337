/** The companion app's PoAC records: wire format, chain linkage, the on-line monitor and the
    batch verifier, the binary export, and the firmware chunk loop. */
module PoacChain {
  import opened Bytes

  const BODY_SIZE := 164
  const RECORD_SIZE := 228
  const CHEAT_REACTION := 0x22
  const CHUNK_SIZE := 240

  type I64 = n: int | -0x8000_0000_0000_0000 <= n < 0x8000_0000_0000_0000
  type U32 = n: int | 0 <= n < 0x1_0000_0000

  /** A parsed record. The two doubles stay opaque 8-octet fields. */
  datatype Record = Record(
    prevHash: seq<Byte>, sensorCommitment: seq<Byte>, modelHash: seq<Byte>, worldModelHash: seq<Byte>,
    inference: Byte, action: Byte, confidence: Byte, battery: Byte,
    counter: U32, timestampMs: I64, latitude: seq<Byte>, longitude: seq<Byte>, bountyId: U32,
    signature: seq<Byte>, rawBody: seq<Byte>, recordHash: Digest)

  // ---------------------------------------------------------------- wire format

  /** `struct.unpack(">I")` and its inverse. */
  function DecodeU32(b: seq<Byte>): U32
    requires |b| == 4
  {
    Pow256Values();
    FromBigEndian(b)
  }

  function EncodeU32(n: U32): (b: seq<Byte>)
    ensures |b| == 4
  {
    Pow256Values();
    BigEndian(n, 4)
  }

  /** `struct.unpack(">q")`, two's complement, and its inverse. */
  function DecodeI64(b: seq<Byte>): I64
    requires |b| == 8
  {
    Pow256Values();
    var n := FromBigEndian(b);
    if n < 0x8000_0000_0000_0000 then n else n - 0x1_0000_0000_0000_0000
  }

  function EncodeI64(n: I64): (b: seq<Byte>)
    ensures |b| == 8
  {
    Uint64(if n < 0 then n + 0x1_0000_0000_0000_0000 else n)
  }

  lemma U32Codec(b: seq<Byte>, n: U32)
    requires |b| == 4
    ensures EncodeU32(DecodeU32(b)) == b && DecodeU32(EncodeU32(n)) == n
  {
    Pow256Values();
    BigEndianOfDecoded(b);
  }

  lemma I64Decoded(b: seq<Byte>)
    requires |b| == 8
    ensures EncodeI64(DecodeI64(b)) == b
  {
    Pow256Values();
    BigEndianOfDecoded(b);
    assert Uint64(FromBigEndian(b)) == b;
  }

  lemma I64Encoded(n: I64)
    ensures DecodeI64(EncodeI64(n)) == n
  {
    Pow256Values();
  }

  /** Parse a notification; None is the ValueError for a wrong length. */
  method FromBytes(h: HashFn, data: seq<Byte>) returns (r: Option<Record>)
    ensures r == Parse(h, data)
  {
    if |data| != RECORD_SIZE { return None; }
    var body, sig := data[..BODY_SIZE], data[BODY_SIZE..];
    var offset := 0;
    var prevHash := body[offset..offset + 32]; offset := offset + 32;
    var sensor := body[offset..offset + 32]; offset := offset + 32;
    var model := body[offset..offset + 32]; offset := offset + 32;
    var world := body[offset..offset + 32]; offset := offset + 32;
    var inference := body[offset]; offset := offset + 1;
    var action := body[offset]; offset := offset + 1;
    var confidence := body[offset]; offset := offset + 1;
    var battery := body[offset]; offset := offset + 1;
    var counter := DecodeU32(body[offset..offset + 4]); offset := offset + 4;
    var timestampMs := DecodeI64(body[offset..offset + 8]); offset := offset + 8;
    var latitude := body[offset..offset + 8]; offset := offset + 8;
    var longitude := body[offset..offset + 8]; offset := offset + 8;
    var bountyId := DecodeU32(body[offset..offset + 4]);
    BodySlices(data);
    r := Some(Record(prevHash, sensor, model, world, inference, action, confidence, battery,
                     counter, timestampMs, latitude, longitude, bountyId, sig, body, h(data)));
  }

  /** The wire layout, each field at its offset. */
  function Parse(h: HashFn, data: seq<Byte>): Option<Record> {
    if |data| != RECORD_SIZE then None else
      Some(Record(data[0..32], data[32..64], data[64..96], data[96..128],
                  data[128], data[129], data[130], data[131],
                  DecodeU32(data[132..136]), DecodeI64(data[136..144]),
                  data[144..152], data[152..160], DecodeU32(data[160..164]),
                  data[164..], data[..164], h(data)))
  }

  lemma BodySlices(data: seq<Byte>)
    requires |data| == RECORD_SIZE
    ensures var body := data[..BODY_SIZE];
            && body[0..32] == data[0..32] && body[32..64] == data[32..64]
            && body[64..96] == data[64..96] && body[96..128] == data[96..128]
            && body[132..136] == data[132..136] && body[136..144] == data[136..144]
            && body[144..152] == data[144..152] && body[152..160] == data[152..160]
            && body[160..164] == data[160..164]
  {
  }

  /** The firmware's serialization of the named fields, in wire order. */
  function EncodeBody(r: Record): seq<Byte> {
    r.prevHash + r.sensorCommitment + r.modelHash + r.worldModelHash
    + [r.inference, r.action, r.confidence, r.battery]
    + EncodeU32(r.counter) + EncodeI64(r.timestampMs) + r.latitude + r.longitude + EncodeU32(r.bountyId)
  }

  function Raw(r: Record): seq<Byte> {
    r.rawBody + r.signature
  }

  /** Field widths of the firmware's struct. */
  predicate HasWireWidths(r: Record) {
    && |r.prevHash| == |r.sensorCommitment| == |r.modelHash| == |r.worldModelHash| == 32
    && |r.latitude| == |r.longitude| == 8 && |r.signature| == 64
  }

  /** A record as the parser leaves it: the derived members agree with the named fields. */
  predicate IsParsed(h: HashFn, r: Record) {
    HasWireWidths(r) && r.rawBody == EncodeBody(r) && r.recordHash == h(Raw(r))
  }

  lemma SliceOfSlices(data: seq<Byte>)
    requires |data| == RECORD_SIZE
    ensures data[..164] == data[0..32] + data[32..64] + data[64..96] + data[96..128]
                           + [data[128], data[129], data[130], data[131]]
                           + data[132..136] + data[136..144] + data[144..152] + data[152..160] + data[160..164]
  {
  }

  /** Every 228-octet string is a record, and printing the parsed fields gives the octets back. */
  lemma ParseThenEncode(h: HashFn, data: seq<Byte>)
    requires |data| == RECORD_SIZE
    ensures Parse(h, data).Some?
    ensures var r := Parse(h, data).value;
            IsParsed(h, r) && EncodeBody(r) == data[..164] && Raw(r) == data && r.recordHash == h(data)
  {
    U32Codec(data[132..136], 0);
    I64Decoded(data[136..144]);
    U32Codec(data[160..164], 0);
    SliceOfSlices(data);
    assert data[..164] + data[164..] == data;
  }

  /** Conversely, printing the fields of any record and parsing returns that record. */
  lemma EncodeThenParse(h: HashFn, r: Record)
    requires IsParsed(h, r)
    ensures |Raw(r)| == RECORD_SIZE && Parse(h, Raw(r)) == Some(r)
  {
    U32Codec(EncodeU32(0), r.counter);
    U32Codec(EncodeU32(0), r.bountyId);
    I64Encoded(r.timestampMs);
    FieldSlices(r, Raw(r));
  }

  lemma PeelLast(data: seq<Byte>, x: seq<Byte>, part: seq<Byte>)
    requires |x| + |part| <= |data| && data[..|x| + |part|] == x + part
    ensures data[..|x|] == x && data[|x|..|x| + |part|] == part
  {
    assert data[..|x| + |part|][..|x|] == data[..|x|];
    assert data[..|x| + |part|][|x|..] == data[|x|..|x| + |part|];
  }

  lemma FieldSlices(r: Record, data: seq<Byte>)
    requires HasWireWidths(r) && r.rawBody == EncodeBody(r) && data == Raw(r)
    ensures |data| == RECORD_SIZE && data[..164] == r.rawBody && data[164..] == r.signature
    ensures data[0..32] == r.prevHash && data[32..64] == r.sensorCommitment
    ensures data[64..96] == r.modelHash && data[96..128] == r.worldModelHash
    ensures [data[128], data[129], data[130], data[131]] == [r.inference, r.action, r.confidence, r.battery]
    ensures data[132..136] == EncodeU32(r.counter) && data[136..144] == EncodeI64(r.timestampMs)
    ensures data[144..152] == r.latitude && data[152..160] == r.longitude && data[160..164] == EncodeU32(r.bountyId)
  {
    hide EncodeU32, EncodeI64;
    var x1 := r.prevHash;
    var x2 := x1 + r.sensorCommitment;
    var x3 := x2 + r.modelHash;
    var x4 := x3 + r.worldModelHash;
    var x5 := x4 + [r.inference, r.action, r.confidence, r.battery];
    var x6 := x5 + EncodeU32(r.counter);
    var x7 := x6 + EncodeI64(r.timestampMs);
    var x8 := x7 + r.latitude;
    var x9 := x8 + r.longitude;
    var x10 := x9 + EncodeU32(r.bountyId);
    assert data == x10 + r.signature && data[..|data|] == data;
    PeelLast(data, x10, r.signature);
    PeelLast(data, x9, EncodeU32(r.bountyId));
    PeelLast(data, x8, r.longitude);
    PeelLast(data, x7, r.latitude);
    PeelLast(data, x6, EncodeI64(r.timestampMs));
    PeelLast(data, x5, EncodeU32(r.counter));
    PeelLast(data, x4, [r.inference, r.action, r.confidence, r.battery]);
    PeelLast(data, x3, r.worldModelHash);
    PeelLast(data, x2, r.modelHash);
    PeelLast(data, x1, r.sensorCommitment);
    assert [data[128], data[129], data[130], data[131]] == data[128..132];
  }

  // ---------------------------------------------------------------- export

  /** `b"".join(r.raw_body + r.signature for r in chain)` */
  function Export(chain: seq<Record>): seq<Byte> {
    if chain == [] then [] else Raw(chain[0]) + Export(chain[1..])
  }

  /** An external verifier: cut every 228 octets and parse; None for a truncated file. */
  function Import(h: HashFn, data: seq<Byte>): Option<seq<Record>> {
    if data == [] then Some([])
    else if |data| < RECORD_SIZE then None
    else
      match Import(h, data[RECORD_SIZE..])
      case None => None
      case Some(rest) => Some([Parse(h, data[..RECORD_SIZE]).value] + rest)
  }

  lemma {:induction false} ExportThenImport(h: HashFn, chain: seq<Record>)
    requires forall i :: 0 <= i < |chain| ==> IsParsed(h, chain[i])
    ensures Import(h, Export(chain)) == Some(chain)
  {
    hide Parse, EncodeBody;
    if chain != [] {
      EncodeThenParse(h, chain[0]);
      SplitConcat(Raw(chain[0]), Export(chain[1..]));
      ExportThenImport(h, chain[1..]);
      assert chain == [chain[0]] + chain[1..];
    }
  }

  /** Conversely every file the verifier accepts is the export of what it read. */
  lemma {:induction false} ImportThenExport(h: HashFn, data: seq<Byte>)
    ensures Import(h, data).Some? <==> |data| % RECORD_SIZE == 0
    ensures Import(h, data).Some? ==> Export(Import(h, data).value) == data
    decreases |data|
  {
    hide EncodeBody, Parse;
    if |data| >= RECORD_SIZE {
      var head, tail := data[..RECORD_SIZE], data[RECORD_SIZE..];
      ImportThenExport(h, tail);
      ParseThenEncode(h, head);
      assert data == head + tail;
      if Import(h, tail).Some? {
        var chain := Import(h, data).value;
        assert chain[0] == Parse(h, head).value && chain[1..] == Import(h, tail).value;
      }
    }
  }

  // ---------------------------------------------------------------- linkage

  /** `verify_chain_link`: the predecessor's full 228 octets are hashed. */
  predicate Linked(h: HashFn, r: Record, previous: Record) {
    r.prevHash == h(previous.rawBody + previous.signature)
  }

  predicate BrokenAt(h: HashFn, chain: seq<Record>, k: int) {
    0 < k < |chain| && !Linked(h, chain[k], chain[k - 1])
  }

  /** The broken indices among the first n records, in order. */
  function Breaks(h: HashFn, chain: seq<Record>, n: nat): seq<int>
    requires n <= |chain|
  {
    if n == 0 then []
    else Breaks(h, chain, n - 1) + if BrokenAt(h, chain, n - 1) then [n - 1] else []
  }

  lemma {:induction false} BreaksExactly(h: HashFn, chain: seq<Record>, n: nat)
    requires n <= |chain|
    ensures forall k :: k in Breaks(h, chain, n) <==> k < n && BrokenAt(h, chain, k)
    ensures forall i, j :: 0 <= i < j < |Breaks(h, chain, n)| ==> Breaks(h, chain, n)[i] < Breaks(h, chain, n)[j]
  {
    if n > 0 {
      BreaksExactly(h, chain, n - 1);
      var b := Breaks(h, chain, n - 1);
      forall j | 0 <= j < |b| ensures b[j] < n - 1 {
        assert b[j] in b;
      }
    }
  }

  lemma {:induction false} BreaksOfPrefix(h: HashFn, chain: seq<Record>, r: Record, n: nat)
    requires n <= |chain|
    ensures Breaks(h, chain + [r], n) == Breaks(h, chain, n)
  {
    if n > 0 {
      BreaksOfPrefix(h, chain, r, n - 1);
    }
  }

  datatype Break = Break(index: nat, counter: U32, expectedPrev: string, actualPrev: string)

  function BreakAt(h: HashFn, chain: seq<Record>, i: nat): Break
    requires 0 < i < |chain|
  {
    Break(i, chain[i].counter, Hex(h(Raw(chain[i - 1]))), Hex(chain[i].prevHash))
  }

  /** The batch verifier's list: one entry per broken index, in order (`BreakListIndices`). */
  function BreakList(h: HashFn, chain: seq<Record>, n: nat): seq<Break>
    requires n <= |chain|
  {
    if n == 0 then []
    else BreakList(h, chain, n - 1) + if BrokenAt(h, chain, n - 1) then [BreakAt(h, chain, n - 1)] else []
  }

  lemma {:induction false} BreakListIndices(h: HashFn, chain: seq<Record>, n: nat)
    requires n <= |chain|
    ensures |BreakList(h, chain, n)| == |Breaks(h, chain, n)|
    ensures forall j :: 0 <= j < |Breaks(h, chain, n)| ==>
              BrokenAt(h, chain, Breaks(h, chain, n)[j])
              && BreakList(h, chain, n)[j] == BreakAt(h, chain, Breaks(h, chain, n)[j])
  {
    if n > 0 {
      BreakListIndices(h, chain, n - 1);
    }
  }

  /** What the monitor has seen: the chain, its counters, and where it warned. */
  datatype Monitor = Monitor(chain: seq<Record>, total: nat, clean: nat, cheats: nat, battery: Byte, warned: seq<int>)

  const IDLE := Monitor([], 0, 0, 0, 0, [])

  /** One notification. A malformed one is logged and changes nothing. */
  function Notify(h: HashFn, m: Monitor, data: seq<Byte>): Monitor {
    match Parse(h, data)
    case None => m
    case Some(r) =>
      var broken := m.chain != [] && !Linked(h, r, m.chain[|m.chain| - 1]);
      Monitor(m.chain + [r], m.total + 1,
              if r.inference >= CHEAT_REACTION then m.clean else m.clean + 1,
              if r.inference >= CHEAT_REACTION then m.cheats + 1 else m.cheats,
              r.battery, if broken then m.warned + [|m.chain|] else m.warned)
  }

  function NotifyAll(h: HashFn, datas: seq<seq<Byte>>): Monitor {
    if datas == [] then IDLE else Notify(h, NotifyAll(h, datas[..|datas| - 1]), datas[|datas| - 1])
  }

  /** The well-formed notifications, in order. */
  function Accepted(datas: seq<seq<Byte>>): seq<seq<Byte>> {
    if datas == [] then [] else
      var n := |datas| - 1;
      Accepted(datas[..n]) + if |datas[n]| == RECORD_SIZE then [datas[n]] else []
  }

  function CountCheats(chain: seq<Record>): nat {
    if chain == [] then 0 else
      CountCheats(chain[..|chain| - 1]) + if chain[|chain| - 1].inference >= CHEAT_REACTION then 1 else 0
  }

  lemma BreaksAppend(h: HashFn, chain: seq<Record>, r: Record)
    ensures Breaks(h, chain + [r], |chain| + 1) ==
            Breaks(h, chain, |chain|) + if chain != [] && !Linked(h, r, chain[|chain| - 1]) then [|chain|] else []
  {
    BreaksOfPrefix(h, chain, r, |chain|);
  }

  ghost predicate ChainHolds(h: HashFn, chain: seq<Record>, raws: seq<seq<Byte>>) {
    && |chain| == |raws|
    && forall i :: 0 <= i < |chain| ==> IsParsed(h, chain[i]) && Raw(chain[i]) == raws[i]
  }

  /** On-line and batch agree over every notification sequence: the monitor warned at exactly
      the indices the batch verifier reports, the counters add up to the chain's length, and
      the chain holds exactly the well-formed notifications in order. */
  lemma {:induction false} OnlineAgreesWithBatch(h: HashFn, datas: seq<seq<Byte>>)
    ensures var m := NotifyAll(h, datas);
            && m.warned == Breaks(h, m.chain, |m.chain|)
            && m.total == |m.chain| == m.clean + m.cheats
            && m.cheats == CountCheats(m.chain)
            && ChainHolds(h, m.chain, Accepted(datas))
  {
    hide ChainHolds, Breaks, CountCheats;
    if datas == [] {
      NothingYet(h);
    } else {
      var n := |datas| - 1;
      OnlineAgreesWithBatch(h, datas[..n]);
      assert Accepted(datas[..n]) + [] == Accepted(datas[..n]);
      if |datas[n]| == RECORD_SIZE {
        AppendedRecord(h, NotifyAll(h, datas[..n]), datas[n], Accepted(datas[..n]));
      }
    }
  }

  lemma NothingYet(h: HashFn)
    ensures Breaks(h, [], 0) == [] && CountCheats([]) == 0 && ChainHolds(h, [], [])
  {
  }

  lemma AppendedRecord(h: HashFn, m: Monitor, data: seq<Byte>, raws: seq<seq<Byte>>)
    requires |data| == RECORD_SIZE && ChainHolds(h, m.chain, raws)
    requires m.warned == Breaks(h, m.chain, |m.chain|) && m.cheats == CountCheats(m.chain)
    ensures var next := Notify(h, m, data);
            && next.warned == Breaks(h, next.chain, |next.chain|)
            && next.cheats == CountCheats(next.chain)
            && ChainHolds(h, next.chain, raws + [data])
  {
    hide EncodeBody, Breaks, CountCheats;
    ParseThenEncode(h, data);
    var r := Parse(h, data).value;
    ChainGrows(h, m.chain, raws, r);
    BreaksAppend(h, m.chain, r);
    CheatsAppend(m.chain, r);
  }

  lemma CheatsAppend(chain: seq<Record>, r: Record)
    ensures CountCheats(chain + [r]) == CountCheats(chain) + if r.inference >= CHEAT_REACTION then 1 else 0
  {
    assert (chain + [r])[..|chain|] == chain;
  }

  lemma ChainGrows(h: HashFn, chain: seq<Record>, raws: seq<seq<Byte>>, r: Record)
    requires ChainHolds(h, chain, raws) && IsParsed(h, r)
    ensures ChainHolds(h, chain + [r], raws + [Raw(r)])
  {
  }

  /** The controller manager's chain state. `warned` stands for the log lines. */
  class ControllerManager {
    const h: HashFn
    var poacChain: seq<Record>
    var totalRecords: nat
    var cleanRecords: nat
    var cheatDetections: nat
    var currentBattery: Byte
    var warned: seq<int>

    function State(): Monitor
      reads this
    {
      Monitor(poacChain, totalRecords, cleanRecords, cheatDetections, currentBattery, warned)
    }

    constructor (h: HashFn)
      ensures this.h == h && State() == IDLE
    {
      this.h := h;
      poacChain, totalRecords, cleanRecords, cheatDetections, currentBattery, warned := [], 0, 0, 0, 0, [];
    }

    /** `_on_poac_notify` */
    method OnPoacNotify(data: seq<Byte>)
      modifies this
      ensures State() == Notify(h, old(State()), data)
    {
      var parsed := FromBytes(h, data);
      if parsed.None? { return; }
      var record := parsed.value;
      if poacChain != [] {
        if !Linked(h, record, poacChain[|poacChain| - 1]) {
          warned := warned + [|poacChain|];
        }
      }
      poacChain := poacChain + [record];
      totalRecords := totalRecords + 1;
      currentBattery := record.battery;
      if record.inference >= CHEAT_REACTION {
        cheatDetections := cheatDetections + 1;
      } else {
        cleanRecords := cleanRecords + 1;
      }
    }

    /** `GET /api/chain/verify` */
    method VerifyChain() returns (valid: bool, length: nat, breaks: seq<Break>)
      ensures length == |poacChain|
      ensures breaks == BreakList(h, poacChain, |poacChain|)
      ensures valid <==> forall i :: !BrokenAt(h, poacChain, i)
    {
      var chain := poacChain;
      breaks := [];
      if |chain| < 2 {
        assert |chain| == 1 ==> BreakList(h, chain, 0) == [];
        return true, |chain|, breaks;
      }
      assert BreakList(h, chain, 0) == [];
      for i := 1 to |chain|
        invariant breaks == BreakList(h, chain, i)
      {
        if !Linked(h, chain[i], chain[i - 1]) {
          breaks := breaks + [Break(i, chain[i].counter, Hex(h(chain[i - 1].rawBody + chain[i - 1].signature)),
                                    Hex(chain[i].prevHash))];
        }
      }
      valid, length := |breaks| == 0, |chain|;
      ValidExactly(h, chain);
    }
  }

  lemma ValidExactly(h: HashFn, chain: seq<Record>)
    ensures BreakList(h, chain, |chain|) == [] <==> forall i :: !BrokenAt(h, chain, i)
  {
    BreakListIndices(h, chain, |chain|);
    BreaksExactly(h, chain, |chain|);
    if i :| BrokenAt(h, chain, i) {
      assert i in Breaks(h, chain, |chain|);
    }
    if Breaks(h, chain, |chain|) != [] {
      assert Breaks(h, chain, |chain|)[0] in Breaks(h, chain, |chain|);
    }
  }

  // ---------------------------------------------------------------- in terms of the octets received

  /** A received record does not name the hash of the record received before it. */
  predicate UnlinkedAt(h: HashFn, raws: seq<seq<Byte>>, i: int)
    requires forall j :: 0 <= j < |raws| ==> |raws[j]| == RECORD_SIZE
  {
    0 < i < |raws| && raws[i][..32] != h(raws[i - 1])
  }

  function CheatsIn(raws: seq<seq<Byte>>): nat
    requires forall j :: 0 <= j < |raws| ==> |raws[j]| == RECORD_SIZE
  {
    if raws == [] then 0 else CheatsIn(raws[..|raws| - 1]) + (if raws[|raws| - 1][128] >= 0x22 then 1 else 0)
  }

  /** What one verifier entry says, octet by octet: its place, the counter in octets 132 to 135,
      the hash of the predecessor as expected, and the first 32 octets as actual. */
  predicate IsEntryOf(h: HashFn, raws: seq<seq<Byte>>, b: Break)
    requires forall j :: 0 <= j < |raws| ==> |raws[j]| == RECORD_SIZE
  {
    && 0 < b.index < |raws|
    && var raw := raws[b.index];
    && b.counter == raw[132] as int * 0x100_0000 + raw[133] as int * 0x1_0000 + raw[134] as int * 0x100 + raw[135]
    && b.expectedPrev == Hex(h(raws[b.index - 1]))
    && b.actualPrev == Hex(raw[..32])
  }

  lemma {:induction false} AcceptedAreRecords(datas: seq<seq<Byte>>)
    ensures forall j :: 0 <= j < |Accepted(datas)| ==> |Accepted(datas)[j]| == RECORD_SIZE
  {
    if datas != [] {
      AcceptedAreRecords(datas[..|datas| - 1]);
    }
  }

  lemma FieldsOfRaw(h: HashFn, r: Record, raw: seq<Byte>)
    requires IsParsed(h, r) && Raw(r) == raw
    ensures |raw| == RECORD_SIZE && raw[..32] == r.prevHash && raw[128] == r.inference && raw[131] == r.battery
    ensures r.counter == raw[132] as int * 0x100_0000 + raw[133] as int * 0x1_0000 + raw[134] as int * 0x100 + raw[135]
  {
    hide EncodeBody;
    FieldSlices(r, raw);
    hide EncodeU32, DecodeU32;
    U32Codec(raw[132..136], r.counter);
    CounterValue(raw);
    assert raw[..32] == raw[0..32];
    assert [raw[128], raw[129], raw[130], raw[131]][0] == r.inference && [raw[128], raw[129], raw[130], raw[131]][3] == r.battery;
  }

  lemma CounterValue(raw: seq<Byte>)
    requires |raw| == RECORD_SIZE
    ensures DecodeU32(raw[132..136]) == raw[132] as int * 0x100_0000 + raw[133] as int * 0x1_0000 + raw[134] as int * 0x100 + raw[135]
  {
    FourOctets(raw[132..136]);
  }

  /** The entries for the first n records: one for each that does not name its predecessor's hash,
      in order, and nothing else. */
  ghost predicate AreEntries(h: HashFn, raws: seq<seq<Byte>>, list: seq<Break>, n: nat)
    requires forall j :: 0 <= j < |raws| ==> |raws[j]| == RECORD_SIZE
  {
    && (forall b :: b in list ==> IsEntryOf(h, raws, b) && UnlinkedAt(h, raws, b.index) && b.index < n)
    && (forall i :: UnlinkedAt(h, raws, i) && i < n ==> exists b :: b in list && b.index == i)
    && (forall j, k :: 0 <= j < k < |list| ==> list[j].index < list[k].index)
  }

  lemma NoMoreEntries(h: HashFn, raws: seq<seq<Byte>>, list: seq<Break>, n: nat)
    requires forall j :: 0 <= j < |raws| ==> |raws[j]| == RECORD_SIZE
    requires AreEntries(h, raws, list, n) && !UnlinkedAt(h, raws, n)
    ensures AreEntries(h, raws, list, n + 1)
  {
    hide IsEntryOf, UnlinkedAt;
  }

  lemma OneMoreEntry(h: HashFn, raws: seq<seq<Byte>>, list: seq<Break>, n: nat, b: Break)
    requires forall j :: 0 <= j < |raws| ==> |raws[j]| == RECORD_SIZE
    requires AreEntries(h, raws, list, n) && UnlinkedAt(h, raws, n) && IsEntryOf(h, raws, b) && b.index == n
    ensures AreEntries(h, raws, list + [b], n + 1)
  {
    hide IsEntryOf, UnlinkedAt;
    var more := list + [b];
    assert more[|list|] in more;
    assert forall x :: x in list ==> x in more;
    assert forall x :: x in more ==> x in list || x == b;
    assert forall j :: 0 <= j < |list| ==> list[j] in list;
  }

  /** The verifier's answer from the octets received. */
  lemma {:induction false} EntriesFromOctets(h: HashFn, chain: seq<Record>, raws: seq<seq<Byte>>, n: nat)
    requires ChainHolds(h, chain, raws) && n <= |chain| && forall j :: 0 <= j < |raws| ==> |raws[j]| == RECORD_SIZE
    ensures AreEntries(h, raws, BreakList(h, chain, n), n)
  {
    hide Hex, ChainHolds, IsEntryOf, BreakAt, Linked, AreEntries;
    if n == 0 {
      NoEntries(h, raws);
    } else {
      EntriesFromOctets(h, chain, raws, n - 1);
      if n > 1 {
        OneEntry(h, chain, raws, n - 1);
      }
      if BrokenAt(h, chain, n - 1) {
        OneMoreEntry(h, raws, BreakList(h, chain, n - 1), n - 1, BreakAt(h, chain, n - 1));
      } else {
        NoMoreEntries(h, raws, BreakList(h, chain, n - 1), n - 1);
        assert BreakList(h, chain, n - 1) + [] == BreakList(h, chain, n - 1);
      }
    }
  }

  lemma NoEntries(h: HashFn, raws: seq<seq<Byte>>)
    requires forall j :: 0 <= j < |raws| ==> |raws[j]| == RECORD_SIZE
    ensures AreEntries(h, raws, [], 0)
  {
  }

  lemma OneEntry(h: HashFn, chain: seq<Record>, raws: seq<seq<Byte>>, i: nat)
    requires ChainHolds(h, chain, raws) && 0 < i < |chain| && forall j :: 0 <= j < |raws| ==> |raws[j]| == RECORD_SIZE
    ensures BrokenAt(h, chain, i) <==> UnlinkedAt(h, raws, i)
    ensures IsEntryOf(h, raws, BreakAt(h, chain, i)) && BreakAt(h, chain, i).index == i
  {
    hide Hex, EncodeBody, IsParsed;
    FieldsOfRaw(h, chain[i], raws[i]);
  }

  /** Over every notification sequence: the monitor's battery is that of the last well-formed
      notification, its cheats are the notifications whose inference octet is 0x22 or more, and
      the verifier's entries are those of the octets received. */
  lemma MonitorFromOctets(h: HashFn, datas: seq<seq<Byte>>)
    ensures var m, raws := NotifyAll(h, datas), Accepted(datas);
            && (forall j :: 0 <= j < |raws| ==> |raws[j]| == RECORD_SIZE)
            && |m.chain| == |raws|
            && m.battery == (if raws == [] then 0 else raws[|raws| - 1][131])
            && m.cheats == CheatsIn(raws) && m.clean == |raws| - CheatsIn(raws)
            && AreEntries(h, raws, BreakList(h, m.chain, |m.chain|), |raws|)
  {
    hide BreakList, ChainHolds, CheatsIn, CountCheats, AreEntries;
    var m, raws := NotifyAll(h, datas), Accepted(datas);
    AcceptedAreRecords(datas);
    OnlineAgreesWithBatch(h, datas);
    LastBattery(h, datas);
    CheatsFromOctets(h, m.chain, raws);
    SameLength(h, m.chain, raws);
    EntriesFromOctets(h, m.chain, raws, |m.chain|);
  }

  lemma SameLength(h: HashFn, chain: seq<Record>, raws: seq<seq<Byte>>)
    requires ChainHolds(h, chain, raws)
    ensures |chain| == |raws|
  {
  }

  lemma {:induction false} CheatsFromOctets(h: HashFn, chain: seq<Record>, raws: seq<seq<Byte>>)
    requires ChainHolds(h, chain, raws) && forall j :: 0 <= j < |raws| ==> |raws[j]| == RECORD_SIZE
    ensures CountCheats(chain) == CheatsIn(raws)
  {
    hide IsParsed;
    if chain != [] {
      var n := |chain| - 1;
      CheatsFromOctets(h, chain[..n], raws[..n]);
      FieldsOfRaw(h, chain[n], raws[n]);
    }
  }

  lemma {:induction false} LastBattery(h: HashFn, datas: seq<seq<Byte>>)
    ensures var m, raws := NotifyAll(h, datas), Accepted(datas);
            m.battery == if raws == [] then 0 else if |raws[|raws| - 1]| == RECORD_SIZE then raws[|raws| - 1][131] else 0
  {
    if datas != [] {
      LastBattery(h, datas[..|datas| - 1]);
    }
  }

  // ---------------------------------------------------------------- commitment

  type RawRecord = b: seq<Byte> | |b| == RECORD_SIZE witness Repeat(0, RECORD_SIZE)

  /** What a link hash of width `size` covers of the k-th record counted from the end. */
  function Covered(raws: seq<RawRecord>, k: nat, size: nat): seq<Byte>
    requires k < |raws| && size <= RECORD_SIZE
  {
    raws[|raws| - 1 - k][..size]
  }

  /** Every record's previous-hash field is the hash of its predecessor's first `size` octets.
      The companion hashes all 228; the protocol's written rule hashes the 164-octet body. */
  ghost predicate FullyLinked(h: HashFn, raws: seq<RawRecord>, size: nat)
    requires size <= RECORD_SIZE
  {
    forall i :: 0 < i < |raws| ==> raws[i][..32] == h(raws[i - 1][..size])
  }

  ghost predicate LinkPreimagesCollide(h: HashFn, a: seq<RawRecord>, b: seq<RawRecord>, size: nat)
    requires size <= RECORD_SIZE
  {
    exists k: nat :: k < |a| && k < |b| && Collides(h, Covered(a, k, size), Covered(b, k, size))
  }

  /** The last record fixes everything before it that the link hash covers. Two fully linked
      chains, of any lengths, that end alike agree on every covered prefix counted from the
      end, or a pair of link preimages at one position collides. */
  lemma {:induction false} LastRecordCommitsToChain(h: HashFn, a: seq<RawRecord>, b: seq<RawRecord>, size: nat, k: nat)
    requires 32 <= size <= RECORD_SIZE
    requires FullyLinked(h, a, size) && FullyLinked(h, b, size)
    requires k < |a| && k < |b| && a[|a| - 1] == b[|b| - 1]
    ensures Covered(a, k, size) == Covered(b, k, size) || LinkPreimagesCollide(h, a, b, size)
  {
    if k > 0 {
      LastRecordCommitsToChain(h, a, b, size, k - 1);
      var i, j := |a| - k, |b| - k;
      if Covered(a, k - 1, size) == Covered(b, k - 1, size) {
        assert a[i][..32] == a[i][..size][..32] && b[j][..32] == b[j][..size][..32];
        assert h(Covered(a, k, size)) == h(Covered(b, k, size));
        if Covered(a, k, size) != Covered(b, k, size) {
          assert Collides(h, Covered(a, k, size), Covered(b, k, size));
        }
      }
    }
  }

  /** With the companion's 228-octet link hash, chains of one length ending alike are identical. */
  lemma CompanionChainsAreIdentical(h: HashFn, a: seq<RawRecord>, b: seq<RawRecord>)
    requires |a| == |b| > 0 && a[|a| - 1] == b[|b| - 1]
    requires FullyLinked(h, a, RECORD_SIZE) && FullyLinked(h, b, RECORD_SIZE)
    ensures a == b || LinkPreimagesCollide(h, a, b, RECORD_SIZE)
  {
    if !LinkPreimagesCollide(h, a, b, RECORD_SIZE) {
      forall i | 0 <= i < |a| ensures a[i] == b[i] {
        LastRecordCommitsToChain(h, a, b, RECORD_SIZE, |a| - 1 - i);
        assert a[i][..RECORD_SIZE] == a[i] && b[i][..RECORD_SIZE] == b[i];
      }
    }
  }

  /** With the 164-octet link hash of the protocol's written rule, the bodies of all earlier
      records are fixed, but not their signatures (`UncoveredOctetsAreFree`). */
  lemma WrittenRuleFixesBodies(h: HashFn, a: seq<RawRecord>, b: seq<RawRecord>)
    requires |a| == |b| > 0 && a[|a| - 1] == b[|b| - 1]
    requires FullyLinked(h, a, BODY_SIZE) && FullyLinked(h, b, BODY_SIZE)
    ensures (forall i :: 0 <= i < |a| ==> a[i][..BODY_SIZE] == b[i][..BODY_SIZE]) || LinkPreimagesCollide(h, a, b, BODY_SIZE)
  {
    if !LinkPreimagesCollide(h, a, b, BODY_SIZE) {
      forall i | 0 <= i < |a| ensures a[i][..BODY_SIZE] == b[i][..BODY_SIZE] {
        LastRecordCommitsToChain(h, a, b, BODY_SIZE, |a| - 1 - i);
      }
    }
  }

  /** What the link hash does not cover may be anything: a chain that agrees with a fully linked
      one on the covered octets is fully linked itself. Under the 164-octet rule these are all
      the signatures. */
  lemma UncoveredOctetsAreFree(h: HashFn, a: seq<RawRecord>, b: seq<RawRecord>, size: nat)
    requires 32 <= size <= RECORD_SIZE && |a| == |b| && FullyLinked(h, a, size)
    requires forall i :: 0 <= i < |a| ==> a[i][..size] == b[i][..size]
    ensures FullyLinked(h, b, size)
  {
    forall i | 0 < i < |b| ensures b[i][..32] == h(b[i - 1][..size]) {
      assert b[i][..32] == b[i][..size][..32] == a[i][..size][..32] == a[i][..32];
    }
  }

  /** So the 164-octet rule accepts a chain whose first signature was replaced. */
  lemma ForgedSignatureStaysLinked(h: HashFn, a: seq<RawRecord>, signature: seq<Byte>) returns (b: seq<RawRecord>)
    requires |a| > 1 && FullyLinked(h, a, BODY_SIZE) && |signature| == RECORD_SIZE - BODY_SIZE
    ensures |b| == |a| && b[1..] == a[1..] && b[0] == a[0][..BODY_SIZE] + signature && FullyLinked(h, b, BODY_SIZE)
  {
    b := a[0 := a[0][..BODY_SIZE] + signature];
    UncoveredOctetsAreFree(h, a, b, BODY_SIZE);
  }

  lemma LinkInOctets(h: HashFn, chain: seq<Record>, raws: seq<RawRecord>, i: nat)
    requires ChainHolds(h, chain, raws) && 0 < i < |chain|
    ensures BrokenAt(h, chain, i) <==> raws[i][..32] != h(raws[i - 1][..RECORD_SIZE])
  {
    hide EncodeBody;
    assert raws[i - 1][..RECORD_SIZE] == raws[i - 1] == Raw(chain[i - 1]);
    FieldSlices(chain[i], raws[i]);
    assert raws[i][..32] == raws[i][0..32];
  }

  /** The verifier reports no break exactly when the raw records are fully linked. */
  lemma NoBreaksIsFullyLinked(h: HashFn, chain: seq<Record>, raws: seq<RawRecord>)
    requires ChainHolds(h, chain, raws)
    ensures (forall k :: !BrokenAt(h, chain, k)) <==> FullyLinked(h, raws, RECORD_SIZE)
  {
    forall i | 0 < i < |chain|
      ensures BrokenAt(h, chain, i) <==> raws[i][..32] != h(raws[i - 1][..RECORD_SIZE])
    {
      LinkInOctets(h, chain, raws, i);
    }
    hide ChainHolds;
    if FullyLinked(h, raws, RECORD_SIZE) {
      forall k ensures !BrokenAt(h, chain, k) {
      }
    } else {
      var i :| 0 < i < |raws| && raws[i][..32] != h(raws[i - 1][..RECORD_SIZE]);
      assert BrokenAt(h, chain, i);
    }
  }

  // ---------------------------------------------------------------- firmware chunks

  /** How an over-the-air update ends: all chunks written, a write refused, or `struct.pack`
      raising because an offset needs more than four octets. */
  datatype Flash = Complete | WriteFailed | PackError

  function ChunkCount(len: nat): nat {
    (len + CHUNK_SIZE - 1) / CHUNK_SIZE
  }

  function Min(a: nat, b: nat): nat {
    if a < b then a else b
  }

  /** The i-th frame: offset and length (`>IH`), then the chunk. */
  function Frame(data: seq<Byte>, i: nat): (f: seq<Byte>)
    requires i * CHUNK_SIZE < |data| && i * CHUNK_SIZE < 0x1_0000_0000
  {
    Pow256Values();
    var offset := i * CHUNK_SIZE;
    var chunk := data[offset..Min(offset + CHUNK_SIZE, |data|)];
    BigEndian(offset, 4) + BigEndian(|chunk|, 2) + chunk
  }

  /** The chunk loop of `flash_firmware`; `writeOk(i)` says whether the i-th write succeeds. */
  method FlashFirmware(data: seq<Byte>, writeOk: nat -> bool) returns (r: Flash, frames: seq<seq<Byte>>)
    ensures |frames| <= ChunkCount(|data|)
    ensures forall i :: 0 <= i < |frames| ==>
              i * CHUNK_SIZE < |data| && i * CHUNK_SIZE < 0x1_0000_0000 && writeOk(i) && frames[i] == Frame(data, i)
    ensures r == Complete <==> |frames| == ChunkCount(|data|)
    ensures r == WriteFailed ==> !writeOk(|frames|)
    ensures r == PackError ==> |frames| * CHUNK_SIZE >= 0x1_0000_0000
  {
    hide BigEndian;
    Pow256Values();
    var totalChunks := (|data| + CHUNK_SIZE - 1) / CHUNK_SIZE;
    frames := [];
    for i := 0 to totalChunks
      invariant |frames| == i
      invariant forall j :: 0 <= j < i ==>
                  j * CHUNK_SIZE < |data| && j * CHUNK_SIZE < 0x1_0000_0000 && writeOk(j) && frames[j] == Frame(data, j)
    {
      var offset := i * CHUNK_SIZE;
      var chunk := data[offset..Min(offset + CHUNK_SIZE, |data|)];
      if offset >= 0x1_0000_0000 { return PackError, frames; }
      var header := BigEndian(offset, 4) + BigEndian(|chunk|, 2);
      if !writeOk(i) { return WriteFailed, frames; }
      frames := frames + [header + chunk];
    }
    r := Complete;
  }

  /** A strict receiver: each frame must start where the last one ended and carry the length
      it announces, between 1 and 240 octets. */
  function Receive(frames: seq<seq<Byte>>): Option<seq<Byte>> {
    if frames == [] then Some([]) else
      var f := frames[|frames| - 1];
      match Receive(frames[..|frames| - 1])
      case None => None
      case Some(got) =>
        if |f| <= 6 || |f| > 6 + CHUNK_SIZE then None
        else if FromBigEndian(f[..4]) != |got| || FromBigEndian(f[4..6]) != |f| - 6 then None
        else Some(got + f[6..])
  }

  lemma FrameParts(data: seq<Byte>, i: nat)
    requires i * CHUNK_SIZE < |data| && i * CHUNK_SIZE < 0x1_0000_0000
    ensures var f, end := Frame(data, i), Min(i * CHUNK_SIZE + CHUNK_SIZE, |data|);
            && 6 < |f| <= 6 + CHUNK_SIZE
            && FromBigEndian(f[..4]) == i * CHUNK_SIZE
            && FromBigEndian(f[4..6]) == |f| - 6
            && f[6..] == data[i * CHUNK_SIZE..end]
  {
    Pow256Values();
    var offset := i * CHUNK_SIZE;
    var chunk := data[offset..Min(offset + CHUNK_SIZE, |data|)];
    var f := Frame(data, i);
    assert f[..4] == BigEndian(offset, 4);
    assert f[4..6] == BigEndian(|chunk|, 2);
    assert f[6..] == chunk;
  }

  /** The chunks tile the firmware: for data of any length whose offsets fit, the strict
      receiver reassembles every sent prefix, and all ceil(len / 240) frames give the data. */
  lemma {:induction false} FramesTile(data: seq<Byte>, frames: seq<seq<Byte>>)
    requires |frames| <= ChunkCount(|data|)
    requires forall i :: 0 <= i < |frames| ==>
               i * CHUNK_SIZE < |data| && i * CHUNK_SIZE < 0x1_0000_0000 && frames[i] == Frame(data, i)
    ensures Receive(frames) == Some(data[..Min(|frames| * CHUNK_SIZE, |data|)])
    ensures |frames| == ChunkCount(|data|) ==> Receive(frames) == Some(data)
    decreases |frames|
  {
    hide Frame;
    if frames != [] {
      var k := |frames| - 1;
      FramesTile(data, frames[..k]);
      FrameParts(data, k);
      var end := Min(k * CHUNK_SIZE + CHUNK_SIZE, |data|);
      assert data[..k * CHUNK_SIZE] + data[k * CHUNK_SIZE..end] == data[..end];
    }
    assert data[..|data|] == data;
  }
}
