/** The daemon's AGENT-COMMIT chain: the frozen commitment formula, the persisted table, and
    the commit step that every `finalize_plan` performs. */
module CommitChain {
  import opened Bytes

  // ---------------------------------------------------------------- the formula

  datatype CommitArgs = CommitArgs(agentId: seq<Byte>, commitSha: seq<Byte>, prev: seq<Byte>,
                                   repoUriSha: seq<Byte>, tsNs: int)

  function CommitTag(): (t: seq<Byte>)
    ensures |t| == 20
  {
    Ascii("VAPI-AGENT-COMMIT-v1")
  }

  predicate WellFormed(a: CommitArgs) {
    && |a.agentId| == 32 && |a.commitSha| == 20 && |a.prev| == 32 && |a.repoUriSha| == 32
    && 0 <= a.tsNs < 0x1_0000_0000_0000_0000
  }

  /** The 144 octets that are hashed. */
  function CommitText(a: CommitArgs): (t: seq<Byte>)
    requires WellFormed(a)
    ensures |t| == 144
  {
    CommitTag() + a.agentId + a.commitSha + a.prev + a.repoUriSha + Uint64(a.tsNs)
  }

  /** `compute_agent_commit_hash`; None is its ValueError. */
  function CommitHash(h: HashFn, a: CommitArgs): Option<Digest> {
    if WellFormed(a) then Some(h(CommitText(a))) else None
  }

  lemma CommitTextInjective(a: CommitArgs, b: CommitArgs)
    requires WellFormed(a) && WellFormed(b) && CommitText(a) == CommitText(b)
    ensures a == b
  {
    var a1, b1 := CommitTag() + a.agentId, CommitTag() + b.agentId;
    var a2, b2 := a1 + a.commitSha, b1 + b.commitSha;
    var a3, b3 := a2 + a.prev, b2 + b.prev;
    ConcatInjective(a3 + a.repoUriSha, Uint64(a.tsNs), b3 + b.repoUriSha, Uint64(b.tsNs));
    ConcatInjective(a3, a.repoUriSha, b3, b.repoUriSha);
    ConcatInjective(a2, a.prev, b2, b.prev);
    ConcatInjective(a1, a.commitSha, b1, b.commitSha);
    ConcatInjective(CommitTag(), a.agentId, CommitTag(), b.agentId);
    assert FromBigEndian(Uint64(a.tsNs)) == FromBigEndian(Uint64(b.tsNs));
  }

  // ---------------------------------------------------------------- the table

  datatype Entry = Entry(id: int, commitmentHex: string, tsNs: int, planName: string, reviewPath: string)

  datatype Table = Table(rows: seq<Entry>, nextId: int)

  const EMPTY := Table([], 1)

  predicate Contains(rows: seq<Entry>, hex: string) {
    exists i :: 0 <= i < |rows| && rows[i].commitmentHex == hex
  }

  /** `get_last_commitment`: 32 zero octets for an empty table. */
  function LastCommitment(rows: seq<Entry>): Option<seq<Byte>> {
    if rows == [] then Some(ZeroDigest()) else FromHex(rows[|rows| - 1].commitmentHex)
  }

  /** `record_commitment`; the UNIQUE column makes a repeated commitment an error. */
  function Insert(t: Table, hex: string, tsNs: int, plan: string, path: string): Option<Table> {
    if Contains(t.rows, hex) then None
    else Some(Table(t.rows + [Entry(t.nextId, hex, tsNs, plan, path)], t.nextId + 1))
  }

  class DaemonCommitChain {
    var rows: seq<Entry>
    var nextId: int

    function State(): Table
      reads this
    {
      Table(rows, nextId)
    }

    constructor ()
      ensures State() == EMPTY
    {
      rows, nextId := [], 1;
    }

    method GetLastCommitment() returns (r: Option<seq<Byte>>)
      ensures r == LastCommitment(rows)
    {
      if |rows| == 0 { return Some(ZeroDigest()); }
      r := FromHex(rows[|rows| - 1].commitmentHex);
    }

    method RecordCommitment(hex: string, tsNs: int, plan: string, path: string) returns (ok: bool)
      modifies this
      ensures ok == Insert(old(State()), hex, tsNs, plan, path).Some?
      ensures State() == if ok then Insert(old(State()), hex, tsNs, plan, path).value else old(State())
    {
      var i := 0;
      while i < |rows|
        invariant 0 <= i <= |rows|
        invariant forall j :: 0 <= j < i ==> rows[j].commitmentHex != hex
      {
        if rows[i].commitmentHex == hex { return false; }
        i := i + 1;
      }
      rows := rows + [Entry(nextId, hex, tsNs, plan, path)];
      nextId := nextId + 1;
      ok := true;
    }

    method ChainLength() returns (n: nat)
      ensures n == |rows|
    {
      n := |rows|;
    }

    /** The commit block of `finalize_plan`. A failure anywhere is caught: the review package
        stays valid, only its commitment is missing. `position` is the "Chain link" number the
        review shows. */
    method FinalizeCommit(h: HashFn, f: Finalize) returns (link: Option<Link>, position: nat)
      modifies this
      ensures State() == Commit(h, old(State()), f).0
      ensures link == Commit(h, old(State()), f).1
      ensures link.Some? ==> position == |rows|
    {
      link, position := None, 0;
      if FromHex(f.pubkeyHex).None? { return; }
      var id := LoadAgentId(h, f.config, f.pubkeyHex);
      if id.None? || |id.value.0| != 32 || f.fault == BeforeRecord { return; }
      var prev := GetLastCommitment();
      if prev.None? { return; }
      var args := CommitArgs(id.value.0, h(f.review)[..20], prev.value, h(RepoUri()), f.tsNs);
      var commitment := CommitHash(h, args);
      if commitment.None? { return; }
      var ok := RecordCommitment(Hex(commitment.value), f.tsNs, f.planName, f.reviewPath);
      if !ok { return; }
      position := ChainLength();
      link := Some(Link(args, id.value.1, commitment.value));
    }
  }

  // ---------------------------------------------------------------- the commit step

  datatype Mode = Provisional | Canonical

  /** The identity file: missing or unreadable, or what it says. */
  datatype IdentityConfig = NoConfig | Config(mode: string, agentIdHex: string)

  /** Where the commit block raises, if it does, apart from the failures modelled explicitly:
      before the row is stored, or after (genesis file, review append, log). */
  datatype Fault = NoFault | BeforeRecord | AfterRecord

  datatype Finalize = Finalize(config: IdentityConfig, pubkeyHex: string, review: seq<Byte>, tsNs: int,
                               planName: string, reviewPath: string, fault: Fault)

  /** One stored link and the inputs its commitment was computed from. */
  datatype Link = Link(args: CommitArgs, mode: Mode, commitment: Digest)

  function RepoUri(): seq<Byte> {
    Ascii("https://github.com/" + "ConWan30/qortroller")
  }

  /** `load_daemon_agent_id`. A canonical id that is not hex falls back to the provisional
      one; white space inside its 64 characters makes it shorter than 32 octets instead. */
  function LoadAgentId(h: HashFn, config: IdentityConfig, pubkeyHex: string): Option<(seq<Byte>, Mode)> {
    if config.Config? && config.mode == "canonical" && |config.agentIdHex| == 64 && FromHex(config.agentIdHex).Some? then
      Some((FromHex(config.agentIdHex).value, Canonical))
    else
      match FromHex(pubkeyHex)
      case None => None
      case Some(pub) => Some((h(pub), Provisional))
  }

  function Commit(h: HashFn, t: Table, f: Finalize): (Table, Option<Link>) {
    var id := LoadAgentId(h, f.config, f.pubkeyHex);
    var prev := LastCommitment(t.rows);
    // the block decodes its public key first, whatever identity is configured
    if FromHex(f.pubkeyHex).None? || id.None? || |id.value.0| != 32 || f.fault == BeforeRecord || prev.None? then (t, None) else
      var args := CommitArgs(id.value.0, h(f.review)[..20], prev.value, h(RepoUri()), f.tsNs);
      match CommitHash(h, args)
      case None => (t, None)
      case Some(c) =>
        match Insert(t, Hex(c), f.tsNs, f.planName, f.reviewPath)
        case None => (t, None)
        case Some(t') => (t', Some(Link(args, id.value.1, c)))
  }

  /** The table and the links after a whole history of `finalize_plan` calls. */
  datatype Chain = Chain(table: Table, links: seq<Link>)

  function Run(h: HashFn, fs: seq<Finalize>): Chain {
    if fs == [] then Chain(EMPTY, []) else
      var before := Run(h, fs[..|fs| - 1]);
      var (t, link) := Commit(h, before.table, fs[|fs| - 1]);
      Chain(t, if link.Some? then before.links + [link.value] else before.links)
  }

  // ---------------------------------------------------------------- continuity

  function PrevOf(links: seq<Link>, i: nat): Digest
    requires i <= |links|
  {
    if i == 0 then ZeroDigest() else links[i - 1].commitment
  }

  /** Link i is computed from its predecessor, the first one from zeros. */
  predicate Follows(h: HashFn, links: seq<Link>, i: nat)
    requires i < |links|
  {
    && WellFormed(links[i].args)
    && links[i].args.prev == PrevOf(links, i)
    && links[i].commitment == h(CommitText(links[i].args))
  }

  ghost predicate Continuous(h: HashFn, links: seq<Link>) {
    forall i :: 0 <= i < |links| ==> Follows(h, links, i)
  }

  /** The stored rows are the links' commitments in order. */
  ghost predicate Stores(rows: seq<Entry>, links: seq<Link>) {
    |rows| == |links| && forall i :: 0 <= i < |rows| ==> rows[i].commitmentHex == Hex(links[i].commitment)
  }

  ghost predicate Distinct(links: seq<Link>) {
    forall i, j :: 0 <= i < j < |links| ==> links[i].commitment != links[j].commitment
  }

  lemma {:induction false} ChainContinuity(h: HashFn, fs: seq<Finalize>)
    ensures Stores(Run(h, fs).table.rows, Run(h, fs).links)
    ensures Continuous(h, Run(h, fs).links) && Distinct(Run(h, fs).links)
  {
    if fs != [] {
      ChainContinuity(h, fs[..|fs| - 1]);
      CommitExtends(h, Run(h, fs[..|fs| - 1]), fs[|fs| - 1]);
    }
  }

  /** What one commit step adds to a continuous chain: nothing, or one link on its head. */
  lemma CommitExtends(h: HashFn, c: Chain, f: Finalize)
    requires Stores(c.table.rows, c.links) && Continuous(h, c.links) && Distinct(c.links)
    ensures var (t, link) := Commit(h, c.table, f);
            var links := if link.Some? then c.links + [link.value] else c.links;
            && Stores(t.rows, links) && Continuous(h, links) && Distinct(links)
            && c.table.rows <= t.rows
  {
    hide Hex, CommitHash;
    LastIsHead(c);
    var (t, link) := Commit(h, c.table, f);
    if link.Some? {
      LinkFitsOn(h, c, f);
      AppendLink(h, c.links, link.value);
      forall i | 0 <= i < |c.links| ensures c.links[i].commitment != link.value.commitment {
        assert c.table.rows[i].commitmentHex == Hex(c.links[i].commitment);
      }
    }
  }

  lemma AppendLink(h: HashFn, links: seq<Link>, link: Link)
    requires Continuous(h, links) && Follows(h, links + [link], |links|)
    ensures Continuous(h, links + [link])
  {
    forall i | 0 <= i < |links| + 1 ensures Follows(h, links + [link], i) {
      if i < |links| {
        assert Follows(h, links, i);
        assert PrevOf(links + [link], i) == PrevOf(links, i);
      }
    }
  }

  lemma LastIsHead(c: Chain)
    requires Stores(c.table.rows, c.links)
    ensures LastCommitment(c.table.rows) == Some(PrevOf(c.links, |c.links|))
  {
    if c.links != [] {
      FromHexOfHex(c.links[|c.links| - 1].commitment);
    }
  }

  lemma LinkFitsOn(h: HashFn, c: Chain, f: Finalize)
    requires LastCommitment(c.table.rows) == Some(PrevOf(c.links, |c.links|))
    requires Commit(h, c.table, f).1.Some?
    ensures var (t, some) := Commit(h, c.table, f); var link := some.value;
            && Follows(h, c.links + [link], |c.links|)
            && !Contains(c.table.rows, Hex(link.commitment))
            && t.rows == c.table.rows + [Entry(c.table.nextId, Hex(link.commitment), f.tsNs, f.planName, f.reviewPath)]
  {
  }

  /** A step that fails keeps the table, and one that fails only after storing has stored. */
  lemma FailedStepKeepsTable(h: HashFn, t: Table, f: Finalize)
    ensures Commit(h, t, f).1.None? ==> Commit(h, t, f).0 == t
    ensures f.fault == BeforeRecord ==> Commit(h, t, f) == (t, None)
    ensures f.fault == AfterRecord ==> Commit(h, t, f) == Commit(h, t, f.(fault := NoFault))
    ensures Commit(h, t, f).1.Some? <==> |Commit(h, t, f).0.rows| == |t.rows| + 1
  {
  }

  /** The chain only grows: what is stored after n calls is a prefix of what is stored later. */
  lemma {:induction false} ChainOnlyGrows(h: HashFn, fs: seq<Finalize>, n: nat)
    requires n <= |fs|
    ensures Run(h, fs[..n]).table.rows <= Run(h, fs).table.rows
    ensures Run(h, fs[..n]).links <= Run(h, fs).links
  {
    hide Commit, Hex;
    if n == |fs| {
      assert fs[..n] == fs;
    } else {
      var k := |fs| - 1;
      ChainOnlyGrows(h, fs[..k], n);
      assert fs[..k][..n] == fs[..n];
      ChainContinuity(h, fs[..k]);
      CommitExtends(h, Run(h, fs[..k]), fs[k]);
    }
  }

  /** The number shown in a review is the place of its link: whatever calls came before, the call
      that stores a link leaves as many rows as make it the last one, and each row number keeps
      naming that commitment ever after. */
  lemma PositionNamesTheLink(h: HashFn, fs: seq<Finalize>, n: nat)
    requires n < |fs| && Commit(h, Run(h, fs[..n]).table, fs[n]).1.Some?
    ensures var position := |Run(h, fs[..n + 1]).table.rows|;
            var link := Commit(h, Run(h, fs[..n]).table, fs[n]).1.value;
            && 0 < position <= |Run(h, fs).links| == |Run(h, fs).table.rows| && Run(h, fs).links[position - 1] == link
            && Run(h, fs).table.rows[position - 1].commitmentHex == Hex(link.commitment)
  {
    hide Commit, Hex;
    assert fs[..n + 1][..n] == fs[..n];
    ChainContinuity(h, fs[..n]);
    ChainContinuity(h, fs[..n + 1]);
    ChainContinuity(h, fs);
    ChainOnlyGrows(h, fs, n + 1);
  }

  /** The identity switch is a junction, not a new genesis: whatever modes are configured
      before and after the n-th call, the links and rows stored so far stay as they are, and the
      first link stored afterwards is computed from their head. */
  lemma JunctionContinuesChain(h: HashFn, fs: seq<Finalize>, n: nat)
    requires n <= |fs|
    requires |Run(h, fs[..n]).links| < |Run(h, fs).links|
    ensures var before, after := Run(h, fs[..n]), Run(h, fs);
            var k := |before.links|;
            && before.links <= after.links && before.table.rows <= after.table.rows && |before.table.rows| == k
            && after.links[k].args.prev == PrevOf(before.links, k)
            && (k > 0 ==> Hex(after.links[k].args.prev) == before.table.rows[k - 1].commitmentHex)
  {
    ChainContinuity(h, fs[..n]);
    ChainContinuity(h, fs);
    ChainOnlyGrows(h, fs, n);
    assert Follows(h, Run(h, fs).links, |Run(h, fs[..n]).links|);
  }

  /** A provisional link carries the hash of a public key, a canonical one the configured id. */
  lemma LinkIdentity(h: HashFn, t: Table, f: Finalize)
    requires Commit(h, t, f).1.Some?
    ensures var link := Commit(h, t, f).1.value;
            && FromHex(f.pubkeyHex).Some?
            && (link.mode == Provisional ==> link.args.agentId == h(FromHex(f.pubkeyHex).value))
            && (link.mode == Canonical <==>
                  f.config.Config? && f.config.mode == "canonical" && |f.config.agentIdHex| == 64
                  && FromHex(f.config.agentIdHex).Some?)
            && (link.mode == Canonical ==> FromHex(f.config.agentIdHex) == Some(link.args.agentId))
            && link.args.commitSha == h(f.review)[..20] && link.args.tsNs == f.tsNs
  {
  }

  // ---------------------------------------------------------------- what is stored

  /** The agent id of a call: the configured one when the identity file says canonical and holds
      64 hexadecimal characters, otherwise the hash of the public key. */
  function AgentIdOf(h: HashFn, f: Finalize): seq<Byte>
    requires FromHex(f.pubkeyHex).Some?
  {
    if f.config.Config? && f.config.mode == "canonical" && |f.config.agentIdHex| == 64 && FromHex(f.config.agentIdHex).Some?
    then FromHex(f.config.agentIdHex).value
    else h(FromHex(f.pubkeyHex).value)
  }

  /** What a call must bring, whatever was stored before: a public key in hex, an agent id of 32
      octets, a time that fits 8 octets, and no failure before the row. */
  predicate Storable(h: HashFn, f: Finalize) {
    && FromHex(f.pubkeyHex).Some? && |AgentIdOf(h, f)| == 32
    && 0 <= f.tsNs <= 0xFFFF_FFFF_FFFF_FFFF && f.fault != BeforeRecord
  }

  /** The octets such a call hashes behind the given head. */
  function NewText(h: HashFn, head: Digest, f: Finalize): seq<Byte>
    requires Storable(h, f)
  {
    Ascii("VAPI-AGENT-COMMIT-v1") + AgentIdOf(h, f) + h(f.review)[..20] + head
    + h(Ascii("https://github.com/" + "ConWan30/qortroller")) + Uint64(f.tsNs)
  }

  /** Exactly: behind any continuous chain a call stores a link if and only if its public key is
      hex, its agent id has 32 octets, its time fits 8 octets, nothing fails before the row, and
      its commitment is not stored yet. The link and the row are then those of the call. */
  lemma StoresExactly(h: HashFn, c: Chain, f: Finalize)
    requires Stores(c.table.rows, c.links)
    ensures var (t, link) := Commit(h, c.table, f);
            var head := PrevOf(c.links, |c.links|);
            && (link.Some? <==>
                  && FromHex(f.pubkeyHex).Some? && |AgentIdOf(h, f)| == 32
                  && 0 <= f.tsNs <= 0xFFFF_FFFF_FFFF_FFFF && f.fault != BeforeRecord
                  && IsNew(c.links, h(NewText(h, head, f))))
            && (link.Some? ==>
                  && link.value.commitment == h(NewText(h, head, f))
                  && link.value.args.prev == head
                  && (exists row :: t.rows == c.table.rows + [row] && IsLinkOf(h, link.value, row, f)))
            && (link.None? ==> t == c.table)
  {
    hide Hex, FromHex, NewText, PrevOf;
    LastIsHead(c);
    if Storable(h, f) {
      var head := PrevOf(c.links, |c.links|);
      NewTextIsHashed(h, head, f);
      NotStoredYet(c, h(NewText(h, head, f)));
      var row := Entry(c.table.nextId, Hex(h(NewText(h, head, f))), f.tsNs, f.planName, f.reviewPath);
      var (t, link) := Commit(h, c.table, f);
      assert link.Some? ==> t.rows == c.table.rows + [row] && IsLinkOf(h, link.value, row, f);
    }
  }

  lemma NewTextIsHashed(h: HashFn, head: Digest, f: Finalize)
    requires Storable(h, f)
    ensures var args := CommitArgs(AgentIdOf(h, f), h(f.review)[..20], head, h(RepoUri()), f.tsNs);
            WellFormed(args) && CommitText(args) == NewText(h, head, f)
  {
  }

  predicate IsNew(links: seq<Link>, d: Digest) {
    forall i :: 0 <= i < |links| ==> links[i].commitment != d
  }

  lemma NotStoredYet(c: Chain, d: Digest)
    requires Stores(c.table.rows, c.links)
    ensures Contains(c.table.rows, Hex(d)) <==> !IsNew(c.links, d)
  {
    hide Hex;
    if Contains(c.table.rows, Hex(d)) {
      var i :| 0 <= i < |c.table.rows| && c.table.rows[i].commitmentHex == Hex(d);
      HexInjective(c.links[i].commitment, d);
    }
    if i :| 0 <= i < |c.links| && c.links[i].commitment == d {
      assert c.table.rows[i].commitmentHex == Hex(d);
    }
  }

  /** The calls of a history that bring what it takes. */
  function StorableOf(h: HashFn, fs: seq<Finalize>): seq<Finalize> {
    if fs == [] then [] else
      StorableOf(h, fs[..|fs| - 1]) + (if Storable(h, fs[|fs| - 1]) then [fs[|fs| - 1]] else [])
  }

  /** Before the n-th call something that should not happen to a hash function has happened: the
      call's text collides with that of a stored link, or the head is all zeros. */
  ghost predicate Mishap(h: HashFn, fs: seq<Finalize>, n: nat)
    requires n < |fs|
  {
    var links := Run(h, fs[..n]).links;
    && Storable(h, fs[n]) && links != [] && Continuous(h, links)
    && (|| PrevOf(links, |links|) == ZeroDigest()
        || exists i :: 0 <= i < |links| && Collides(h, TextAt(h, links, i), NewText(h, PrevOf(links, |links|), fs[n])))
  }

  /** Link i and row i are those of the call. */
  predicate IsLinkOf(h: HashFn, link: Link, row: Entry, f: Finalize) {
    && FromHex(f.pubkeyHex).Some? && link.args.agentId == AgentIdOf(h, f) && link.args.commitSha == h(f.review)[..20]
    && link.args.tsNs == f.tsNs && row.commitmentHex == Hex(link.commitment)
    && row.tsNs == f.tsNs && row.planName == f.planName && row.reviewPath == f.reviewPath
  }

  ghost predicate AreLinksOf(h: HashFn, c: Chain, fs: seq<Finalize>) {
    |c.links| == |c.table.rows| == |fs| && forall i :: 0 <= i < |fs| ==> IsLinkOf(h, c.links[i], c.table.rows[i], fs[i])
  }

  /** Over every history: the links are those of the storable calls, one each and in order, unless
      a mishap with the hash function occurs at a named call. */
  lemma {:induction false} EveryStorableCallIsStored(h: HashFn, fs: seq<Finalize>)
    ensures AreLinksOf(h, Run(h, fs), StorableOf(h, fs)) || exists n: nat :: n < |fs| && Mishap(h, fs, n)
  {
    hide Commit, Hex, Mishap, Storable, IsLinkOf, Continuous;
    if fs != [] {
      var k := |fs| - 1;
      EveryStorableCallIsStored(h, fs[..k]);
      if n: nat :| n < k && Mishap(h, fs[..k], n) {
        MishapStays(h, fs, k, n);
      } else {
        OneMoreIsStored(h, fs);
      }
    }
  }

  lemma MishapStays(h: HashFn, fs: seq<Finalize>, k: nat, n: nat)
    requires n < k <= |fs| && Mishap(h, fs[..k], n)
    ensures Mishap(h, fs, n)
  {
    assert fs[..k][..n] == fs[..n];
  }

  lemma OneMoreIsStored(h: HashFn, fs: seq<Finalize>)
    requires fs != [] && AreLinksOf(h, Run(h, fs[..|fs| - 1]), StorableOf(h, fs[..|fs| - 1]))
    ensures AreLinksOf(h, Run(h, fs), StorableOf(h, fs)) || Mishap(h, fs, |fs| - 1)
  {
    var k := |fs| - 1;
    var c, f := Run(h, fs[..k]), fs[k];
    ChainContinuity(h, fs[..k]);
    if !Storable(h, f) || IsNew(c.links, h(NewText(h, PrevOf(c.links, |c.links|), f))) {
      NextIsLinkOf(h, c, f, StorableOf(h, fs[..k]), Run(h, fs), StorableOf(h, fs));
    } else {
      RefusalIsAMishap(h, c, f);
    }
    hide Commit, Hex, FromHex, NewText, Continuous, Distinct, PrevOf, AgentIdOf, IsLinkOf, Stores, AreLinksOf, TextAt;
  }

  lemma NextIsLinkOf(h: HashFn, c: Chain, f: Finalize, stored: seq<Finalize>, next: Chain, more: seq<Finalize>)
    requires AreLinksOf(h, c, stored) && Stores(c.table.rows, c.links)
    requires Storable(h, f) ==> IsNew(c.links, h(NewText(h, PrevOf(c.links, |c.links|), f)))
    requires var (t, link) := Commit(h, c.table, f);
             next == Chain(t, if link.Some? then c.links + [link.value] else c.links)
    requires more == stored + (if Storable(h, f) then [f] else [])
    ensures AreLinksOf(h, next, more)
  {
    hide Commit, Hex, FromHex, NewText, PrevOf, AgentIdOf, IsLinkOf, Stores;
    StoresExactly(h, c, f);
    if Storable(h, f) {
      var (t, link) := Commit(h, c.table, f);
      var row :| t.rows == c.table.rows + [row] && IsLinkOf(h, link.value, row, f);
      var n := |stored|;
      assert next.links[n] == link.value && next.table.rows[n] == row && more[n] == f;
    } else {
      assert more == stored;
      assert Commit(h, c.table, f).1.None?;
      assert next == c;
    }
  }

  lemma RefusalIsAMishap(h: HashFn, c: Chain, f: Finalize)
    requires Stores(c.table.rows, c.links) && Continuous(h, c.links) && Distinct(c.links) && Storable(h, f)
    requires !IsNew(c.links, h(NewText(h, PrevOf(c.links, |c.links|), f)))
    ensures || PrevOf(c.links, |c.links|) == ZeroDigest()
            || exists i :: 0 <= i < |c.links| && Collides(h, TextAt(h, c.links, i), NewText(h, PrevOf(c.links, |c.links|), f))
  {
    hide Hex, FromHex, AgentIdOf, NewText, CommitText;
    var head := PrevOf(c.links, |c.links|);
    var args := CommitArgs(AgentIdOf(h, f), h(f.review)[..20], head, h(RepoUri()), f.tsNs);
    NewTextIsHashed(h, head, f);
    NotStoredYet(c, h(CommitText(args)));
    UniqueRefusesOnlyCollisions(h, c, args);
  }

  /** In particular, when every call is storable there are as many links as calls. */
  lemma AllStorableAllStored(h: HashFn, fs: seq<Finalize>)
    requires forall i :: 0 <= i < |fs| ==> Storable(h, fs[i])
    ensures |Run(h, fs).links| == |fs| || exists n: nat :: n < |fs| && Mishap(h, fs, n)
  {
    hide Storable, Mishap, Run;
    EveryStorableCallIsStored(h, fs);
    StorableOfAll(h, fs);
  }

  lemma {:induction false} StorableOfAll(h: HashFn, fs: seq<Finalize>)
    requires forall i :: 0 <= i < |fs| ==> Storable(h, fs[i])
    ensures StorableOf(h, fs) == fs
  {
    hide Storable;
    if fs != [] {
      StorableOfAll(h, fs[..|fs| - 1]);
    }
  }

  // ---------------------------------------------------------------- commitment

  /** The octets hashed for link i. */
  function TextAt(h: HashFn, links: seq<Link>, i: nat): seq<Byte>
    requires i < |links| && Follows(h, links, i)
  {
    CommitText(links[i].args)
  }

  /** Aligned at their heads, two links at one place hash different texts to one digest. */
  ghost predicate LinkTextsCollide(h: HashFn, a: seq<Link>, b: seq<Link>)
    requires Continuous(h, a) && Continuous(h, b) && |a| <= |b|
  {
    exists i :: 0 <= i < |a| && CollideAt(h, a, b, i)
  }

  ghost predicate CollideAt(h: HashFn, a: seq<Link>, b: seq<Link>, i: nat)
    requires Continuous(h, a) && Continuous(h, b) && i < |a| <= |b|
  {
    Collides(h, TextAt(h, a, i), TextAt(h, b, i + |b| - |a|))
  }

  /** The head fixes the whole chain: two continuous chains with equal heads carry the same
      inputs in every link and have one length, or two hashed texts collide, or the longer
      one holds an all-zero commitment (which reads as "no predecessor"). */
  lemma HeadCommitsToLinks(h: HashFn, a: seq<Link>, b: seq<Link>)
    requires Continuous(h, a) && Continuous(h, b)
    requires 0 < |a| <= |b| && a[|a| - 1].commitment == b[|b| - 1].commitment
    ensures (|a| == |b| && forall i :: 0 <= i < |a| ==> a[i].args == b[i].args)
         || LinkTextsCollide(h, a, b)
         || (|a| < |b| && b[|b| - |a| - 1].commitment == ZeroDigest())
  {
    if !LinkTextsCollide(h, a, b) {
      var d := |b| - |a|;
      ArgsAgreeBackwards(h, a, b, 0);
      if d == 0 {
        forall i | 0 <= i < |a| ensures a[i].args == b[i].args {
          ArgsAgreeBackwards(h, a, b, i);
        }
      } else {
        assert Follows(h, a, 0) && Follows(h, b, d);
      }
    }
  }

  lemma {:induction false} ArgsAgreeBackwards(h: HashFn, a: seq<Link>, b: seq<Link>, i: nat)
    requires Continuous(h, a) && Continuous(h, b)
    requires i < |a| <= |b| && a[|a| - 1].commitment == b[|b| - 1].commitment
    requires !LinkTextsCollide(h, a, b)
    ensures a[i].args == b[i + |b| - |a|].args
    decreases |a| - i
  {
    var j := i + |b| - |a|;
    if i < |a| - 1 {
      ArgsAgreeBackwards(h, a, b, i + 1);
      assert Follows(h, a, i + 1) && Follows(h, b, j + 1);
    }
    assert a[i].commitment == b[j].commitment;
    assert Follows(h, a, i) && Follows(h, b, j);
    assert !CollideAt(h, a, b, i);
    CommitTextInjective(a[i].args, b[j].args);
  }

  /** The UNIQUE column never stands in the way: a well-formed new link on a continuous chain
      is refused only when its text collides with a stored one or the head is all zeros. */
  lemma UniqueRefusesOnlyCollisions(h: HashFn, c: Chain, args: CommitArgs)
    requires Stores(c.table.rows, c.links) && Continuous(h, c.links) && Distinct(c.links)
    requires WellFormed(args) && args.prev == PrevOf(c.links, |c.links|)
    requires Contains(c.table.rows, Hex(h(CommitText(args))))
    ensures PrevOf(c.links, |c.links|) == ZeroDigest()
         || exists i :: 0 <= i < |c.links| && Collides(h, TextAt(h, c.links, i), CommitText(args))
  {
    var i :| 0 <= i < |c.table.rows| && c.table.rows[i].commitmentHex == Hex(h(CommitText(args)));
    HexInjective(c.links[i].commitment, h(CommitText(args)));
    assert Follows(h, c.links, i);
    if !Collides(h, TextAt(h, c.links, i), CommitText(args)) {
      CommitTextInjective(c.links[i].args, args);
      assert PrevOf(c.links, i) == PrevOf(c.links, |c.links|);
    }
  }
}
