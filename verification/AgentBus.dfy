/** The managed agents' message bus: publishing with a 24-hour expiry, and reading with
    per-reader marks that are tested with SQL LIKE on the stored JSON list. */
module AgentBus {
  import opened Bytes
  import opened ReaderList

  // ---------------------------------------------------------------- the table

  const CHANNELS := {"enrollment", "separation", "defensibility", "operator", "sweep", "wiki", "alert",
                     "maturity", "curator", "corpus_quality"}

  const RAW_FIELDS := {"raw_hid", "sensor_commitment", "feature_vector", "mahalanobis_raw", "touchpad_raw",
                       "gyro_raw", "accel_raw"}

  const TTL := 86400

  datatype Msg = Msg(ts: int, expiresAt: int, fromAgent: string, toAgent: Option<string>, channel: string,
                     payload: string, readBy: Option<seq<string>>)

  /** The table by primary key, and the next key. */
  datatype Bus = Bus(rows: map<int, Msg>, nextId: int)

  const EMPTY := Bus(map[], 1)

  datatype Post = Post(fromAgent: string, toAgent: Option<string>, channel: string, keys: set<string>, payload: string)

  /** `bus_publish`; None is a ValueError: unknown channel, or a raw biometric field. */
  function Publish(bus: Bus, p: Post, now: int): Option<Bus> {
    if p.channel !in CHANNELS || p.keys * RAW_FIELDS != {} then None
    else Some(Bus(bus.rows[bus.nextId := Msg(now, now + TTL, p.fromAgent, p.toAgent, p.channel, p.payload, None)],
                  bus.nextId + 1))
  }

  /** The WHERE clause of `bus_read`. */
  predicate Visible(m: Msg, agent: string, channel: string, now: int) {
    && m.channel == channel
    && (m.toAgent.None? || m.toAgent.value == agent)
    && m.expiresAt > now
    && (m.readBy.None? || !Hides(m.readBy.value, agent))
  }

  function VisibleIds(rows: map<int, Msg>, agent: string, channel: string, now: int): set<int> {
    set id | id in rows && Visible(rows[id], agent, channel, now)
  }

  /** LIMIT: a negative one means no limit. */
  function Limited(limit: int, n: nat): nat {
    if 0 <= limit < n then limit else n
  }

  /** An answer the database may give: ORDER BY ts DESC LIMIT, ties in any order. */
  ghost predicate IsAnswer(rows: map<int, Msg>, agent: string, channel: string, limit: int, now: int, picked: seq<int>) {
    var v := VisibleIds(rows, agent, channel, now);
    && |picked| == Limited(limit, |v|)
    && (forall i :: 0 <= i < |picked| ==> picked[i] in v)
    && (forall i, j :: 0 <= i < j < |picked| ==> picked[i] != picked[j])
    && (forall i, j :: 0 <= i < j < |picked| ==> rows[picked[i]].ts >= rows[picked[j]].ts)
    && (forall id, i :: id in v && id !in picked && 0 <= i < |picked| ==> rows[id].ts <= rows[picked[i]].ts)
  }

  function MarkRow(m: Msg, agent: string): Msg {
    var existing := if m.readBy.None? then [] else m.readBy.value;
    m.(readBy := Some(if agent in existing then existing else existing + [agent]))
  }

  function MarkAll(rows: map<int, Msg>, picked: seq<int>, agent: string): map<int, Msg> {
    map id | id in rows :: if id in picked then MarkRow(rows[id], agent) else rows[id]
  }

  /** One `bus_read`: which rows the purge removed, and what the query answered. */
  datatype Read = Read(agent: string, channel: string, limit: int, now: int, purged: set<int>, picked: seq<int>)

  ghost predicate ValidRead(bus: Bus, r: Read) {
    IsAnswer(bus.rows - r.purged, r.agent, r.channel, r.limit, r.now, r.picked)
  }

  function AfterRead(bus: Bus, r: Read): Bus {
    Bus(MarkAll(bus.rows - r.purged, r.picked, r.agent), bus.nextId)
  }

  class AgentBusTable {
    var rows: map<int, Msg>
    var nextId: int

    function State(): Bus
      reads this
    {
      Bus(rows, nextId)
    }

    constructor ()
      ensures State() == EMPTY
    {
      rows, nextId := map[], 1;
    }

    method BusPublish(p: Post, now: int) returns (id: Option<int>)
      modifies this
      ensures id.None? <==> Publish(old(State()), p, now).None?
      ensures id.None? ==> State() == old(State())
      ensures id.Some? ==> id.value == old(nextId) && Some(State()) == Publish(old(State()), p, now)
    {
      if p.channel !in CHANNELS { return None; }
      if p.keys * RAW_FIELDS != {} { return None; }
      id := Some(nextId);
      rows := rows[nextId := Msg(now, now + TTL, p.fromAgent, p.toAgent, p.channel, p.payload, None)];
      nextId := nextId + 1;
    }

    /** `bus_read`, given what the database purged and answered: purge, then mark row by row. */
    method BusRead(r: Read) returns (messages: seq<Msg>)
      requires ValidRead(State(), r)
      modifies this
      ensures State() == AfterRead(old(State()), r)
      ensures |messages| == |r.picked|
      ensures forall i :: 0 <= i < |messages| ==> r.picked[i] in old(rows) && messages[i] == old(rows)[r.picked[i]]
    {
      rows := rows - r.purged;
      ghost var before := rows;
      messages := [];
      for i := 0 to |r.picked|
        invariant rows == before && nextId == old(nextId)
        invariant |messages| == i && forall j :: 0 <= j < i ==> messages[j] == before[r.picked[j]]
      {
        messages := messages + [rows[r.picked[i]]];
      }
      MarkAsRead(r.agent, r.picked, messages);
    }

    /** The update loop of `bus_read`. */
    method MarkAsRead(agent: string, picked: seq<int>, messages: seq<Msg>)
      requires |messages| == |picked|
      requires forall i :: 0 <= i < |picked| ==> picked[i] in rows && rows[picked[i]] == messages[i]
      requires forall i, j :: 0 <= i < j < |picked| ==> picked[i] != picked[j]
      modifies this
      ensures rows == MarkAll(old(rows), picked, agent) && nextId == old(nextId)
    {
      ghost var before := rows;
      for i := 0 to |picked|
        invariant rows == MarkAll(before, picked[..i], agent) && nextId == old(nextId)
      {
        var id := picked[i];
        assert id !in picked[..i];
        var existing := if messages[i].readBy.None? then [] else messages[i].readBy.value;
        if agent !in existing {
          existing := existing + [agent];
        }
        rows := rows[id := rows[id].(readBy := Some(existing))];
        assert picked[..i + 1] == picked[..i] + [id];
      }
      assert picked[..|picked|] == picked;
    }
  }

  // ---------------------------------------------------------------- whole runs

  datatype Event = Published(post: Post, now: int) | WasRead(read: Read)

  /** A message handed to an agent. */
  datatype Delivery = Delivery(agent: string, id: int, msg: Msg, at: int)

  datatype History = History(bus: Bus, log: seq<Delivery>)

  function Deliveries(bus: Bus, r: Read): seq<Delivery> {
    if forall i :: 0 <= i < |r.picked| ==> r.picked[i] in bus.rows then
      seq(|r.picked|, i requires 0 <= i < |r.picked| => Delivery(r.agent, r.picked[i], bus.rows[r.picked[i]], r.now))
    else []
  }

  function Step(h: History, e: Event): History {
    match e
    case Published(post, now) =>
      History(if Publish(h.bus, post, now).Some? then Publish(h.bus, post, now).value else h.bus, h.log)
    case WasRead(r) => History(AfterRead(h.bus, r), h.log + Deliveries(h.bus, r))
  }

  function Run(es: seq<Event>): History {
    if es == [] then History(EMPTY, []) else Step(Run(es[..|es| - 1]), es[|es| - 1])
  }

  ghost predicate ValidRun(es: seq<Event>) {
    es == [] ||
    (var n := |es| - 1; ValidRun(es[..n]) && (es[n].WasRead? ==> ValidRead(Run(es[..n]).bus, es[n].read)))
  }

  ghost predicate MarksAreKept(bus: Bus, log: seq<Delivery>) {
    && (forall id :: id in bus.rows ==> id < bus.nextId)
    && (forall d :: d in log ==> d.id < bus.nextId)
    && (forall d :: d in log && d.id in bus.rows ==> MarkedFor(bus.rows[d.id], d.agent))
  }

  predicate MarkedFor(m: Msg, agent: string) {
    m.readBy.Some? && agent in m.readBy.value
  }

  /** Never twice to one agent whose id is stored as it is, never after expiry, never to a
      non-addressee. */
  ghost predicate GoodDeliveries(log: seq<Delivery>) {
    && (forall i, j :: 0 <= i < j < |log| && Unescaped(log[j].agent) ==> log[i].agent != log[j].agent || log[i].id != log[j].id)
    && (forall d :: d in log ==> d.at < d.msg.expiresAt && (d.msg.toAgent.None? || d.msg.toAgent.value == d.agent))
  }

  /** Delivery safety over every run of publishes and reads, whatever rows the purges remove and
      however the database breaks ties. Agents whose ids hold only printable ASCII, without
      quotes and backslashes, are handed a message at most once; `AtMostOnceExactly` shows that
      the condition is needed. */
  lemma {:induction false} DeliverySafety(es: seq<Event>)
    requires ValidRun(es)
    ensures MarksAreKept(Run(es).bus, Run(es).log) && GoodDeliveries(Run(es).log)
  {
    hide MarksAreKept, GoodDeliveries, ValidRead, AfterRead, Publish;
    if es == [] {
      NoDeliveries();
    } else {
      var n := |es| - 1;
      DeliverySafety(es[..n]);
      if es[n].WasRead? {
        ReadIsSafe(Run(es[..n]), es[n].read);
      } else {
        PublishIsSafe(Run(es[..n]), es[n].post, es[n].now);
      }
    }
  }

  lemma NoDeliveries()
    ensures MarksAreKept(EMPTY, []) && GoodDeliveries([])
  {
  }

  lemma PublishIsSafe(h: History, p: Post, now: int)
    requires MarksAreKept(h.bus, h.log)
    ensures var next := Step(h, Published(p, now)); MarksAreKept(next.bus, next.log)
  {
  }

  lemma ReadIsSafe(h: History, r: Read)
    requires MarksAreKept(h.bus, h.log) && GoodDeliveries(h.log) && ValidRead(h.bus, r)
    ensures var next := Step(h, WasRead(r)); MarksAreKept(next.bus, next.log) && GoodDeliveries(next.log)
  {
    hide Hides, Unescaped;
    var handed := Deliveries(h.bus, r);
    forall i, j | 0 <= i < j < |h.log + handed| && Unescaped((h.log + handed)[j].agent)
      ensures (h.log + handed)[i].agent != (h.log + handed)[j].agent || (h.log + handed)[i].id != (h.log + handed)[j].id
    {
      if i < |h.log| <= j {
        var d := h.log[i];
        assert d in h.log && handed[j - |h.log|].id in r.picked;
        if d.agent == r.agent {
          NotHandedAgain(h, r, d);
        }
      }
    }
  }

  lemma NotHandedAgain(h: History, r: Read, d: Delivery)
    requires MarksAreKept(h.bus, h.log) && ValidRead(h.bus, r) && d in h.log && d.agent == r.agent
    ensures Unescaped(r.agent) ==> d.id !in r.picked
  {
    if d.id in h.bus.rows && d.id !in r.purged && Unescaped(r.agent) {
      ListedIsHidden(h.bus.rows[d.id].readBy.value, r.agent);
    }
    hide Hides, Unescaped;
  }

  // ---------------------------------------------------------------- ids that are handed a message again

  /** For an id that holds anything but printable ASCII the marks do nothing: no read, its own
      included, changes what it can see among the rows the purge left. */
  lemma MarksDoNothing(bus: Bus, r: Read, agent: string, channel: string, now: int)
    requires !AllPrintable(agent) && '\0' !in agent
    ensures VisibleIds(AfterRead(bus, r).rows, agent, channel, now) == VisibleIds(bus.rows, agent, channel, now) - r.purged
  {
    var rows, after := bus.rows - r.purged, AfterRead(bus, r).rows;
    forall id | id in rows ensures Visible(after[id], agent, channel, now) <==> Visible(rows[id], agent, channel, now) {
      if id in r.picked {
        UnprintableIsNeverHidden(after[id].readBy.value, agent);
        if rows[id].readBy.Some? {
          UnprintableIsNeverHidden(rows[id].readBy.value, agent);
        }
      }
    }
    hide Hides, AllPrintable;
  }

  ghost predicate AtMostOnce(log: seq<Delivery>, agent: string) {
    forall i, j :: 0 <= i < j < |log| && log[i].agent == agent && log[j].agent == agent ==> log[i].id != log[j].id
  }

  /** Exactly: an agent whose id holds no quote, backslash or NUL is handed each message at most
      once in every run, if and only if its id is printable ASCII. */
  lemma AtMostOnceExactly(agent: string)
    requires '"' !in agent && '\\' !in agent && '\0' !in agent
    ensures AllPrintable(agent) <==> forall es :: ValidRun(es) ==> AtMostOnce(Run(es).log, agent)
  {
    hide ValidRun, Run, MarksAreKept, AllPrintable;
    if AllPrintable(agent) {
      forall es | ValidRun(es) ensures AtMostOnce(Run(es).log, agent) {
        DeliverySafety(es);
      }
    } else {
      UnprintableIsNeverHidden([agent], agent);
      var es := HandedTwice(agent);
    }
  }

  /** Exactly, for any id but for NUL: an agent that reads the bus alone is handed each message at
      most once in every run, if and only if its id is recognised in the list that holds nothing
      else. Ids with quotes and backslashes fail this or not, as `json.dumps` cuts them. */
  lemma AtMostOnceAloneExactly(agent: string)
    requires '\0' !in agent
    ensures Hides([agent], agent)
        <==> forall es :: ValidRun(es) && RunBy(es, {agent}) ==> AtMostOnce(Run(es).log, agent)
  {
    hide ValidRun, Run, RunBy, Hides;
    if Hides([agent], agent) {
      forall es | ValidRun(es) && RunBy(es, {agent}) ensures AtMostOnce(Run(es).log, agent) {
        AloneIsSafe(es, agent);
      }
    } else {
      var es := HandedTwice(agent);
    }
  }

  /** The only reader leaves only its own mark, once. */
  ghost predicate OnlyOwnMarks(rows: map<int, Msg>, agent: string) {
    forall id :: id in rows && rows[id].readBy.Some? ==> rows[id].readBy.value == [agent]
  }

  lemma {:induction false} AloneIsSafe(es: seq<Event>, agent: string)
    requires ValidRun(es) && RunBy(es, {agent}) && Hides([agent], agent)
    ensures OnlyOwnMarks(Run(es).bus.rows, agent) && AtMostOnce(Run(es).log, agent)
  {
    hide Hides, MarksAreKept, ValidRead, OnlyOwnMarks, AtMostOnce;
    if es == [] {
      NothingAlone(agent);
    } else {
      var n := |es| - 1;
      var h := Run(es[..n]);
      AloneIsSafe(es[..n], agent);
      DeliverySafety(es[..n]);
      if es[n].WasRead? {
        ReadAloneIsSafe(h, es[n].read);
      } else {
        PublishKeepsOwnMarks(h, es[n].post, es[n].now, agent);
      }
    }
  }

  lemma NothingAlone(agent: string)
    ensures OnlyOwnMarks(EMPTY.rows, agent) && AtMostOnce([], agent)
  {
  }

  lemma PublishKeepsOwnMarks(h: History, p: Post, now: int, agent: string)
    requires OnlyOwnMarks(h.bus.rows, agent)
    ensures OnlyOwnMarks(Step(h, Published(p, now)).bus.rows, agent)
  {
  }

  lemma ReadAloneIsSafe(h: History, r: Read)
    requires OnlyOwnMarks(h.bus.rows, r.agent) && AtMostOnce(h.log, r.agent) && MarksAreKept(h.bus, h.log)
    requires ValidRead(h.bus, r) && Hides([r.agent], r.agent)
    ensures var next := Step(h, WasRead(r)); OnlyOwnMarks(next.bus.rows, r.agent) && AtMostOnce(next.log, r.agent)
  {
    hide Hides;
    var handed := Deliveries(h.bus, r);
    forall d | d in h.log && d.agent == r.agent ensures d.id !in r.picked {
      assert d.id in h.bus.rows ==> MarkedFor(h.bus.rows[d.id], d.agent);
    }
    var log := h.log + handed;
    forall i, j | 0 <= i < j < |log| && log[i].agent == r.agent && log[j].agent == r.agent ensures log[i].id != log[j].id {
      if i < |h.log| <= j {
        assert h.log[i] in h.log && handed[j - |h.log|].id in r.picked;
      }
    }
    assert [] + [r.agent] == [r.agent];
  }

  function OneMessage(): Msg {
    Msg(0, TTL, "MA-001", None, "alert", "{}", None)
  }

  function OneRead(agent: string): Read {
    Read(agent, "alert", 10, 0, {}, [1])
  }

  function PublishedAndRead(agent: string): seq<Event> {
    [Published(Post("MA-001", None, "alert", {}, "{}"), 0), WasRead(OneRead(agent))]
  }

  /** One message for everybody, and one read of it. */
  lemma ReadOnce(agent: string)
    ensures var es := PublishedAndRead(agent);
            && ValidRun(es)
            && Run(es) == History(Bus(map[1 := MarkRow(OneMessage(), agent)], 2), [Delivery(agent, 1, OneMessage(), 0)])
  {
    var r, m, es := OneRead(agent), OneMessage(), PublishedAndRead(agent);
    var one := [es[0]];
    assert one[..0] == [] && es[..1] == one;
    var bus := Bus(map[1 := m], 2);
    assert Run([]) == History(EMPTY, []) && Run(one) == History(bus, []) && ValidRun(one);
    ReadsTheOne(bus, r, m);
    assert AfterRead(bus, r).rows == map[1 := MarkRow(m, agent)];
  }

  /** The same message, read twice. */
  lemma HandedTwice(agent: string) returns (es: seq<Event>)
    requires !Hides([agent], agent)
    ensures ValidRun(es) && RunBy(es, {agent}) && !AtMostOnce(Run(es).log, agent)
  {
    hide Hides, AfterRead;
    var r, two, m := OneRead(agent), PublishedAndRead(agent), OneMessage();
    es := two + [WasRead(r)];
    assert es[..2] == two;
    ReadOnce(agent);
    assert [] + [agent] == [agent] && MarkRow(m, agent).readBy == Some([agent]);
    ReadsTheOne(Run(two).bus, r, MarkRow(m, agent));
    var log := Run(es).log;
    assert log == [Delivery(agent, 1, m, 0)] + [Delivery(agent, 1, MarkRow(m, agent), 0)];
    assert log[0].id == log[1].id;
  }

  /** A bus with one visible row answers with it. */
  lemma ReadsTheOne(bus: Bus, r: Read, m: Msg)
    requires bus.rows == map[1 := m] && r.purged == {} && r.picked == [1] && r.limit == 10
    requires Visible(m, r.agent, r.channel, r.now)
    ensures ValidRead(bus, r) && Deliveries(bus, r) == [Delivery(r.agent, 1, m, r.now)]
  {
    hide Hides;
    assert bus.rows - r.purged == bus.rows;
    assert VisibleIds(bus.rows, r.agent, r.channel, r.now) == {1};
  }

  // ---------------------------------------------------------------- no interference

  ghost predicate ReadersAmong(rows: map<int, Msg>, all: set<string>) {
    forall id :: id in rows && rows[id].readBy.Some? ==> forall a :: a in rows[id].readBy.value ==> a in all
  }

  ghost predicate RunBy(es: seq<Event>, all: set<string>) {
    forall i :: 0 <= i < |es| && es[i].WasRead? ==> es[i].read.agent in all
  }

  ghost predicate Delivered(log: seq<Delivery>, agent: string, id: int) {
    exists i :: 0 <= i < |log| && log[i].agent == agent && log[i].id == id
  }

  /** A stored row is marked for exactly the agents it was handed to. */
  ghost predicate MarkedExactly(bus: Bus, log: seq<Delivery>) {
    forall id, agent :: id in bus.rows ==> (MarkedFor(bus.rows[id], agent) <==> Delivered(log, agent, id))
  }

  lemma {:induction false} RunMarksExactly(all: set<string>, es: seq<Event>)
    requires ValidRun(es) && RunBy(es, all)
    ensures MarkedExactly(Run(es).bus, Run(es).log) && ReadersAmong(Run(es).bus.rows, all)
  {
    hide MarkedExactly, ReadersAmong, MarksAreKept, ValidRead;
    if es == [] {
      NothingMarked(all);
    } else {
      var n := |es| - 1;
      RunMarksExactly(all, es[..n]);
      DeliverySafety(es[..n]);
      var h := Run(es[..n]);
      if es[n].WasRead? {
        ReadMarksExactly(all, h, es[n].read);
      } else {
        PublishMarksExactly(all, h, es[n].post, es[n].now);
      }
    }
  }

  lemma NothingMarked(all: set<string>)
    ensures MarkedExactly(EMPTY, []) && ReadersAmong(EMPTY.rows, all)
  {
  }

  lemma PublishMarksExactly(all: set<string>, h: History, p: Post, now: int)
    requires MarkedExactly(h.bus, h.log) && ReadersAmong(h.bus.rows, all) && MarksAreKept(h.bus, h.log)
    ensures var next := Step(h, Published(p, now)); MarkedExactly(next.bus, next.log) && ReadersAmong(next.bus.rows, all)
  {
    var next := Step(h, Published(p, now));
    forall i | 0 <= i < |h.log| ensures h.log[i].id != h.bus.nextId {
      assert h.log[i] in h.log;
    }
    assert forall agent :: !Delivered(h.log, agent, h.bus.nextId);
  }

  lemma ReadMarksExactly(all: set<string>, h: History, r: Read)
    requires MarkedExactly(h.bus, h.log) && ReadersAmong(h.bus.rows, all) && ValidRead(h.bus, r) && r.agent in all
    ensures var next := Step(h, WasRead(r)); MarkedExactly(next.bus, next.log) && ReadersAmong(next.bus.rows, all)
  {
    hide Hides;
    var next := Step(h, WasRead(r));
    forall id, agent | id in next.bus.rows ensures MarkedFor(next.bus.rows[id], agent) <==> Delivered(next.log, agent, id) {
      DeliveredAfter(h, r, agent, id);
      assert MarkedFor(h.bus.rows[id], agent) <==> Delivered(h.log, agent, id);
    }
  }

  lemma DeliveredAfter(h: History, r: Read, agent: string, id: int)
    requires ValidRead(h.bus, r)
    ensures Delivered(Step(h, WasRead(r)).log, agent, id) <==> Delivered(h.log, agent, id) || (agent == r.agent && id in r.picked)
  {
    hide Hides;
    var handed := Deliveries(h.bus, r);
    var log := h.log + handed;
    if Delivered(h.log, agent, id) {
      var i :| 0 <= i < |h.log| && h.log[i].agent == agent && h.log[i].id == id;
      assert log[i] == h.log[i];
    }
    if agent == r.agent && id in r.picked {
      var i :| 0 <= i < |r.picked| && r.picked[i] == id;
      assert log[|h.log| + i] == handed[i];
    }
    if Delivered(log, agent, id) {
      var i :| 0 <= i < |log| && log[i].agent == agent && log[i].id == id;
      assert i >= |h.log| ==> log[i] == handed[i - |h.log|];
    }
  }

  /** Row `id` is visible exactly when channel, addressee and expiry match and the agent was not
      handed it before. */
  ghost predicate ViewIsExact(h: History, agent: string, channel: string, now: int, id: int)
    requires id in h.bus.rows
  {
    var m := h.bus.rows[id];
    Visible(m, agent, channel, now) <==>
      && m.channel == channel && (m.toAgent.None? || m.toAgent.value == agent) && m.expiresAt > now
      && !Delivered(h.log, agent, id)
  }

  /** What an agent can see, over every run of publishes and reads by agents with substring-free
      ids: a stored row is visible exactly when channel, addressee and expiry match and no read
      of this agent's own has been handed it. Reads by others never matter. */
  lemma VisibleExactly(all: set<string>, es: seq<Event>, agent: string, channel: string, now: int, id: int)
    requires ValidRun(es) && RunBy(es, all) && SubstringFree(all) && agent in all && id in Run(es).bus.rows
    ensures ViewIsExact(Run(es), agent, channel, now, id)
  {
    hide Run, ValidRun, RunBy, SubstringFree, Hides, Delivered;
    RunMarksExactly(all, es);
    var m := Run(es).bus.rows[id];
    if m.readBy.Some? {
      HidesIsMembership(all, m.readBy.value, agent);
    }
  }

  /** Every agent sees exactly what it should, in every run by readers of `all`. */
  ghost predicate AllViewsAreExact(all: set<string>) {
    forall es, agent, channel, now, id ::
      ValidRun(es) && RunBy(es, all) && agent in all && id in Run(es).bus.rows ==> ViewIsExact(Run(es), agent, channel, now, id)
  }

  /** Exactly: for any set of plain ids, every agent sees what it should in every run if and only
      if no id of the set occurs inside another one, ignoring case. */
  lemma ViewsAreExactExactly(all: set<string>)
    requires forall a :: a in all ==> Plain(a)
    ensures AllViewsAreExact(all) <==> SubstringFree(all)
  {
    hide Run, ValidRun, RunBy, ViewIsExact, Plain, FoldContains;
    if SubstringFree(all) {
      forall es, agent, channel, now, id | ValidRun(es) && RunBy(es, all) && agent in all && id in Run(es).bus.rows
        ensures ViewIsExact(Run(es), agent, channel, now, id)
      {
        VisibleExactly(all, es, agent, channel, now, id);
      }
    } else {
      var a, b :| a in all && b in all && FoldContains(b, a) && a != b;
      var es := HiddenByAnother(a, b);
      assert RunBy(es, all) by {
        OnlyReader(es, all, b);
      }
      assert !ViewIsExact(Run(es), a, "alert", 0, 1);
    }
  }

  lemma OnlyReader(es: seq<Event>, all: set<string>, b: string)
    requires RunBy(es, {b}) && b in all
    ensures RunBy(es, all)
  {
  }

  /** One message, read by `b`, is lost to `a` whose id occurs in that of `b`. */
  lemma HiddenByAnother(a: string, b: string) returns (es: seq<Event>)
    requires Plain(a) && Plain(b) && FoldContains(b, a) && a != b
    ensures ValidRun(es) && RunBy(es, {b}) && 1 in Run(es).bus.rows
    ensures !ViewIsExact(Run(es), a, "alert", 0, 1)
  {
    hide Plain, FoldContains, Hides, Run, ValidRun;
    es := PublishedAndRead(b);
    ReadOnce(b);
    PlainIsUnescaped(a);
    SubstringIsHidden([b], b, a);
    var m := MarkRow(OneMessage(), b);
    assert [] + [b] == [b];
    assert m.readBy == Some([b]) && !Visible(m, a, "alert", 0);
    assert !Delivered([Delivery(b, 1, OneMessage(), 0)], a, 1);
  }

  /** One agent's read never hides a message from another agent, and never shows one: for
      substring-free ids, what another agent can see afterwards is exactly what it could see
      before among the rows the purge left. */
  lemma ReadIsInvisibleToOthers(all: set<string>, bus: Bus, r: Read, other: string, channel: string, now: int)
    requires SubstringFree(all) && ReadersAmong(bus.rows, all) && r.agent in all && other in all && other != r.agent
    ensures VisibleIds(AfterRead(bus, r).rows, other, channel, now) == VisibleIds(bus.rows, other, channel, now) - r.purged
    ensures ReadersAmong(AfterRead(bus, r).rows, all)
  {
    hide Hides, SubstringFree;
    var rows, after := bus.rows - r.purged, AfterRead(bus, r).rows;
    forall id | id in rows ensures Visible(after[id], other, channel, now) <==> Visible(rows[id], other, channel, now) {
      if id in r.picked {
        MarkIsInvisible(all, rows[id], r.agent, other);
      }
    }
  }

  lemma MarkIsInvisible(all: set<string>, m: Msg, agent: string, other: string)
    requires SubstringFree(all) && agent in all && other in all && other != agent
    requires m.readBy.Some? ==> forall a :: a in m.readBy.value ==> a in all
    ensures m.readBy.Some? ==> (Hides(MarkRow(m, agent).readBy.value, other) <==> Hides(m.readBy.value, other))
    ensures m.readBy.None? ==> !Hides(MarkRow(m, agent).readBy.value, other)
  {
    HidesIsMembership(all, MarkRow(m, agent).readBy.value, other);
    if m.readBy.Some? {
      HidesIsMembership(all, m.readBy.value, other);
    }
  }

  // ---------------------------------------------------------------- draining

  /** A read shows its agent exactly what it picked: afterwards those messages, and no other
      unpurged ones, have left its view. */
  lemma ReadRemovesPicked(all: set<string>, bus: Bus, r: Read, channel: string, now: int)
    requires SubstringFree(all) && ReadersAmong(bus.rows, all) && r.agent in all
    ensures VisibleIds(AfterRead(bus, r).rows, r.agent, channel, now) ==
            VisibleIds(bus.rows, r.agent, channel, now) - r.purged - (set id | id in r.picked)
    ensures ReadersAmong(AfterRead(bus, r).rows, all)
  {
    var rows, after := bus.rows - r.purged, AfterRead(bus, r).rows;
    forall id | id in rows && id in r.picked ensures !Visible(after[id], r.agent, channel, now) {
      ListedIsHidden(after[id].readBy.value, r.agent);
    }
  }

  /** A read by this agent of this channel. */
  predicate IsOwn(r: Read, agent: string, channel: string) {
    r.agent == agent && r.channel == channel
  }

  function OwnReads(queries: seq<Read>, agent: string, channel: string): nat
    decreases |queries|
  {
    if queries == [] then 0
    else (if IsOwn(queries[0], agent, channel) then 1 else 0) + OwnReads(queries[1..], agent, channel)
  }

  /** Reads of any channels by any agents of `all`, at times that never go back, whose purges
      remove only expired rows; this agent's reads of this channel all have one limit. */
  ghost predicate DrainRun(all: set<string>, bus: Bus, agent: string, channel: string, limit: int, now: int, queries: seq<Read>)
    decreases |queries|
  {
    queries == [] ||
    (var r := queries[0];
     && r.agent in all && (IsOwn(r, agent, channel) ==> r.limit == limit) && r.now >= now
     && (forall id :: id in r.purged && id in bus.rows ==> bus.rows[id].expiresAt <= r.now)
     && ValidRead(bus, r)
     && DrainRun(all, AfterRead(bus, r), agent, channel, limit, r.now, queries[1..]))
  }

  function AfterReads(bus: Bus, queries: seq<Read>): Bus
    decreases |queries|
  {
    if queries == [] then bus else AfterReads(AfterRead(bus, queries[0]), queries[1..])
  }

  /** What the agent was handed on the channel. */
  function OwnPicked(queries: seq<Read>, agent: string, channel: string): set<int>
    decreases |queries|
  {
    if queries == [] then {}
    else (if IsOwn(queries[0], agent, channel) then set id | id in queries[0].picked else {}) + OwnPicked(queries[1..], agent, channel)
  }

  function LastTime(queries: seq<Read>, now: int): int {
    if queries == [] then now else queries[|queries| - 1].now
  }

  function Less(n: nat, k: nat): nat {
    if n <= k then 0 else n - k
  }

  /** Draining: with no new publishes, each of the agent's reads of a channel lowers the number of
      its unread unexpired messages there by the limit, whatever other agents read in between and
      whatever it reads elsewhere. */
  lemma {:induction false} ReadsDrain(all: set<string>, bus: Bus, agent: string, channel: string, limit: int, now: int, queries: seq<Read>)
    requires SubstringFree(all) && ReadersAmong(bus.rows, all) && agent in all
    requires limit >= 1 && DrainRun(all, bus, agent, channel, limit, now, queries)
    ensures |VisibleIds(AfterReads(bus, queries).rows, agent, channel, LastTime(queries, now))|
         <= Less(|VisibleIds(bus.rows, agent, channel, now)|, OwnReads(queries, agent, channel) * limit)
    decreases |queries|
  {
    hide AfterRead, VisibleIds, SubstringFree, ReadersAmong, ValidRead;
    if queries != [] {
      var r, rest := queries[0], queries[1..];
      var next := AfterRead(bus, r);
      var before, after := |VisibleIds(bus.rows, agent, channel, now)|, |VisibleIds(next.rows, agent, channel, r.now)|;
      var k := OwnReads(rest, agent, channel);
      ReadKeepsReaders(all, bus, r);
      ReadsDrain(all, next, agent, channel, limit, r.now, rest);
      assert LastTime(queries, now) == LastTime(rest, r.now);
      if IsOwn(r, agent, channel) {
        OneReadTakesLimit(all, bus, agent, channel, limit, now, r);
      } else {
        OtherReadsTakeNothing(all, bus, agent, channel, now, r);
      }
    }
  }

  lemma ReadKeepsReaders(all: set<string>, bus: Bus, r: Read)
    requires ReadersAmong(bus.rows, all) && r.agent in all
    ensures ReadersAmong(AfterRead(bus, r).rows, all)
  {
    hide Hides;
  }

  /** Other agents' reads, and reads of other channels, show this agent nothing new. */
  lemma OtherReadsTakeNothing(all: set<string>, bus: Bus, agent: string, channel: string, now: int, r: Read)
    requires SubstringFree(all) && ReadersAmong(bus.rows, all) && agent in all && r.agent in all && r.now >= now
    ensures |VisibleIds(AfterRead(bus, r).rows, agent, channel, r.now)| <= |VisibleIds(bus.rows, agent, channel, now)|
  {
    hide AfterRead, VisibleIds, SubstringFree, ReadersAmong;
    VisibleLater(bus.rows, r.purged, agent, channel, now, r.now);
    if r.agent == agent {
      ReadRemovesPicked(all, bus, r, channel, r.now);
    } else {
      ReadIsInvisibleToOthers(all, bus, r, agent, channel, r.now);
    }
    SubsetSize(VisibleIds(AfterRead(bus, r).rows, agent, channel, r.now), VisibleIds(bus.rows, agent, channel, now));
  }

  /** In other words: k unread messages are gone after ceil(k / limit) own reads. */
  lemma CeilReadsDrainAll(all: set<string>, bus: Bus, agent: string, channel: string, limit: int, now: int, queries: seq<Read>)
    requires SubstringFree(all) && ReadersAmong(bus.rows, all) && agent in all
    requires limit >= 1 && DrainRun(all, bus, agent, channel, limit, now, queries)
    requires OwnReads(queries, agent, channel) >= (|VisibleIds(bus.rows, agent, channel, now)| + limit - 1) / limit
    ensures VisibleIds(AfterReads(bus, queries).rows, agent, channel, LastTime(queries, now)) == {}
  {
    hide VisibleIds, SubstringFree, ReadersAmong, DrainRun, OwnReads;
    ReadsDrain(all, bus, agent, channel, limit, now, queries);
    var k, n := |VisibleIds(bus.rows, agent, channel, now)|, OwnReads(queries, agent, channel);
    Times((k + limit - 1) / limit, n, limit);
  }

  /** So, after any run whatever, an agent that goes on reading a channel has seen the end of what
      is waiting for it there after that many reads. */
  lemma EveryRunDrains(all: set<string>, es: seq<Event>, agent: string, channel: string, limit: int, now: int, queries: seq<Read>)
    requires ValidRun(es) && RunBy(es, all) && SubstringFree(all) && agent in all
    requires limit >= 1 && DrainRun(all, Run(es).bus, agent, channel, limit, now, queries)
    requires OwnReads(queries, agent, channel) >= (|VisibleIds(Run(es).bus.rows, agent, channel, now)| + limit - 1) / limit
    ensures VisibleIds(AfterReads(Run(es).bus, queries).rows, agent, channel, LastTime(queries, now)) == {}
  {
    hide Run, ValidRun, RunBy, SubstringFree, DrainRun, OwnReads, VisibleIds, MarkedExactly;
    RunMarksExactly(all, es);
    CeilReadsDrainAll(all, Run(es).bus, agent, channel, limit, now, queries);
  }

  lemma Times(m: int, n: int, limit: int)
    requires m <= n && limit >= 0
    ensures m * limit <= n * limit
  {
  }

  /** And nothing is lost on the way: each message the agent could see at the start is handed to
      it by one of its own reads, or is still visible, or has expired. */
  lemma {:induction false} DrainLosesNothing(all: set<string>, bus: Bus, agent: string, channel: string, limit: int, now: int,
                                             queries: seq<Read>, id: int)
    requires SubstringFree(all) && ReadersAmong(bus.rows, all) && agent in all
    requires DrainRun(all, bus, agent, channel, limit, now, queries)
    requires id in VisibleIds(bus.rows, agent, channel, now)
    ensures id in OwnPicked(queries, agent, channel)
         || id in VisibleIds(AfterReads(bus, queries).rows, agent, channel, LastTime(queries, now))
         || bus.rows[id].expiresAt <= LastTime(queries, now)
    decreases |queries|
  {
    hide AfterRead, SubstringFree, ReadersAmong, Hides;
    if queries != [] {
      var r, rest := queries[0], queries[1..];
      var next := AfterRead(bus, r);
      ReadKeepsReaders(all, bus, r);
      TimesGrow(all, next, agent, channel, limit, r.now, rest);
      assert LastTime(queries, now) == LastTime(rest, r.now);
      if !(IsOwn(r, agent, channel) && id in r.picked) && bus.rows[id].expiresAt > r.now {
        StaysVisible(all, bus, r, agent, channel, now, id);
        DrainLosesNothing(all, next, agent, channel, limit, r.now, rest, id);
      }
    }
  }

  /** A message that a read did not hand to this agent on this channel stays visible to it. */
  lemma StaysVisible(all: set<string>, bus: Bus, r: Read, agent: string, channel: string, now: int, id: int)
    requires SubstringFree(all) && ReadersAmong(bus.rows, all) && agent in all && r.agent in all && ValidRead(bus, r)
    requires id in VisibleIds(bus.rows, agent, channel, now) && id !in r.purged && bus.rows[id].expiresAt > r.now
    requires !(IsOwn(r, agent, channel) && id in r.picked)
    ensures id in VisibleIds(AfterRead(bus, r).rows, agent, channel, r.now)
    ensures AfterRead(bus, r).rows[id].expiresAt == bus.rows[id].expiresAt
  {
    hide Hides, SubstringFree;
    if r.agent == agent {
      ReadRemovesPicked(all, bus, r, channel, r.now);
    } else {
      ReadIsInvisibleToOthers(all, bus, r, agent, channel, r.now);
    }
  }

  lemma {:induction false} TimesGrow(all: set<string>, bus: Bus, agent: string, channel: string, limit: int, now: int, queries: seq<Read>)
    requires DrainRun(all, bus, agent, channel, limit, now, queries)
    ensures now <= LastTime(queries, now)
    decreases |queries|
  {
    if queries != [] {
      TimesGrow(all, AfterRead(bus, queries[0]), agent, channel, limit, queries[0].now, queries[1..]);
      assert LastTime(queries, now) == LastTime(queries[1..], queries[0].now);
    }
  }

  lemma OneReadTakesLimit(all: set<string>, bus: Bus, agent: string, channel: string, limit: int, now: int, r: Read)
    requires SubstringFree(all) && ReadersAmong(bus.rows, all) && agent in all
    requires limit >= 1 && r.agent == agent && r.channel == channel && r.limit == limit && r.now >= now && ValidRead(bus, r)
    ensures |VisibleIds(AfterRead(bus, r).rows, agent, channel, r.now)| <= Less(|VisibleIds(bus.rows, agent, channel, now)|, limit)
  {
    hide AfterRead, VisibleIds, SubstringFree, ReadersAmong, Less;
    ReadRemovesPicked(all, bus, r, channel, r.now);
    VisibleLater(bus.rows, r.purged, agent, channel, now, r.now);
    TakePicked(VisibleIds(bus.rows - r.purged, agent, channel, r.now), r.picked, limit, VisibleIds(bus.rows, agent, channel, now));
  }

  lemma VisibleLater(rows: map<int, Msg>, purged: set<int>, agent: string, channel: string, now: int, later: int)
    requires now <= later
    ensures VisibleIds(rows - purged, agent, channel, later) == VisibleIds(rows, agent, channel, later) - purged
    ensures VisibleIds(rows - purged, agent, channel, later) <= VisibleIds(rows, agent, channel, now)
  {
    hide Hides;
    var after, before := VisibleIds(rows - purged, agent, channel, later), VisibleIds(rows, agent, channel, later);
    forall id ensures id in after <==> id in before - purged {
      assert id in rows - purged <==> id in rows && id !in purged;
    }
    forall id | id in before ensures id in VisibleIds(rows, agent, channel, now) {
      assert Visible(rows[id], agent, channel, later);
    }
  }

  lemma TakePicked(u: set<int>, picked: seq<int>, limit: nat, before: set<int>)
    requires forall i :: 0 <= i < |picked| ==> picked[i] in u
    requires forall i, j :: 0 <= i < j < |picked| ==> picked[i] != picked[j]
    requires |picked| == Limited(limit, |u|) && u <= before
    ensures |u - (set id | id in picked)| <= Less(|before|, limit)
  {
    var taken := set id | id in picked;
    PickedSize(picked);
    assert taken <= u;
    SubsetSize(u, before);
  }

  lemma SubsetSize(a: set<int>, b: set<int>)
    requires a <= b
    ensures |a| <= |b|
  {
    assert b == a + (b - a);
  }

  lemma {:induction false} PickedSize(s: seq<int>)
    requires forall i, j :: 0 <= i < j < |s| ==> s[i] != s[j]
    ensures |(set id | id in s)| == |s|
  {
    if s != [] {
      var n := |s| - 1;
      PickedSize(s[..n]);
      assert (set id | id in s) == (set id | id in s[..n]) + {s[n]};
    }
  }

  /** The deployed agents satisfy the id condition. */
  lemma ManagedAgentsAreSubstringFree()
    ensures SubstringFree({"MA-001", "MA-002", "MA-003"})
  {
    forall a, b | a in {"MA-001", "MA-002", "MA-003"} && b in {"MA-001", "MA-002", "MA-003"} && FoldContains(b, a)
      ensures a == b
    {
      var i :| 0 <= i <= |b| && FoldMatchAt(b, a, i);
      assert Fold(b[i + 5]) == Fold(a[5]);
    }
  }
}
