/** The daemon's message store and the CLI client that shows it: a cursor of seen ids, a poll
    that pages through later messages, and a blocking send. */
module History {
  import opened Bytes

  datatype Role = User | Assistant | System

  datatype Msg = Msg(id: int, role: Role, content: string)

  // ---------------------------------------------------------------- the store

  const PAGE := 200
  const MAX_PAGE := 500

  /** Ids are assigned by AUTOINCREMENT, starting at 1; nothing is ever deleted. */
  predicate Numbered(store: seq<Msg>) {
    forall i :: 0 <= i < |store| ==> store[i].id == i + 1
  }

  function Add(store: seq<Msg>, role: Role, content: string): seq<Msg> {
    store + [Msg(|store| + 1, role, content)]
  }

  function Min(a: int, b: int): int {
    if a < b then a else b
  }

  function Max(a: int, b: int): int {
    if a < b then b else a
  }

  /** `get_messages`: ids above `since` in ascending order, at most `limit`. */
  function Since(store: seq<Msg>, since: nat, limit: nat): seq<Msg> {
    if since >= |store| then [] else store[since..Min(since + limit, |store|)]
  }

  /** `get_all_messages`: the latest `limit`, in ascending order. */
  function Latest(store: seq<Msg>, limit: nat): seq<Msg> {
    store[Max(0, |store| - limit)..]
  }

  /** `GET /history`: a positive cursor asks for what is later, any other for the latest. */
  function HistoryPage(store: seq<Msg>, since: int, limit: nat): seq<Msg> {
    if since > 0 then Since(store, since, limit) else Latest(store, limit)
  }

  class MemoryStore {
    var messages: seq<Msg>

    constructor ()
      ensures messages == []
    {
      messages := [];
    }

    method AddMessage(role: Role, content: string) returns (id: int)
      modifies this
      ensures messages == Add(old(messages), role, content) && id == |messages|
    {
      id := |messages| + 1;
      messages := messages + [Msg(id, role, content)];
    }

    /** The query of `get_messages` as a scan in id order. */
    method GetMessages(since: nat, limit: nat) returns (page: seq<Msg>)
      requires Numbered(messages)
      ensures page == Since(messages, since, limit)
    {
      page := [];
      for i := 0 to |messages|
        invariant page == Since(messages[..i], since, limit)
      {
        assert messages[..i + 1] == messages[..i] + [messages[i]];
        if messages[i].id > since && |page| < limit {
          page := page + [messages[i]];
        }
      }
      assert messages[..|messages|] == messages;
    }
  }

  // ---------------------------------------------------------------- the client

  /** The client's cursor and everything it has shown of the assistant, by message id; id 0
      stands for a reply that is not stored (an error text). */
  datatype Client = Client(lastSeen: int, shown: seq<int>)

  function MaxId(page: seq<Msg>): int {
    if page == [] then 0 else Max(MaxId(page[..|page| - 1]), page[|page| - 1].id)
  }

  predicate Showable(m: Msg) {
    m.role == Assistant && m.content != ""
  }

  /** The assistant messages with content, by id. */
  function ShownIds(page: seq<Msg>): seq<int> {
    if page == [] then [] else
      var m := page[|page| - 1];
      ShownIds(page[..|page| - 1]) + (if Showable(m) then [m.id] else [])
  }

  /** One turn of the history poll. */
  function Poll(c: Client, store: seq<Msg>): Client {
    var page := HistoryPage(store, c.lastSeen, PAGE);
    if page == [] then c else Client(Max(c.lastSeen, MaxId(page)), c.shown + ShownIds(page))
  }

  /** What a send gets back: nothing (timeout or refused), an empty reply, an error text with
      message id 0, or the reply that was stored under an id. */
  datatype Reply = NoReply | EmptyReply | Unstored | Stored(id: int)

  /** The end of `send_to_daemon`. */
  function Receive(c: Client, r: Reply): Client {
    match r
    case NoReply => c
    case EmptyReply => c
    case Unstored => Client(c.lastSeen, c.shown + [0])
    case Stored(id) => Client(Max(c.lastSeen, id), c.shown + [id])
  }

  class CliAgent {
    var lastSeenId: int
    var shown: seq<int>
    var responseInProgress: bool

    function State(): Client
      reads this
    {
      Client(lastSeenId, shown)
    }

    /** The start-up cursor: the largest of the latest 500 ids. The few messages printed from
        the loaded history are not counted as shown. */
    constructor (store: seq<Msg>)
      ensures State() == Client(MaxId(Latest(store, MAX_PAGE)), []) && !responseInProgress
    {
      lastSeenId, shown, responseInProgress := 0, [], false;
      var history := Latest(store, MAX_PAGE);
      new;
      if history != [] {
        lastSeenId := MaxId(history);
      }
    }

    /** The history part of `_background_poller`. */
    method PollHistory(page: seq<Msg>, ghost store: seq<Msg>)
      requires page == HistoryPage(store, lastSeenId, PAGE)
      modifies this
      ensures State() == Poll(old(State()), store) && responseInProgress == old(responseInProgress)
    {
      if page == [] { return; }
      lastSeenId := Max(lastSeenId, MaxId(page));
      for i := 0 to |page|
        invariant shown == old(shown) + ShownIds(page[..i])
        invariant lastSeenId == Max(old(lastSeenId), MaxId(page)) && responseInProgress == old(responseInProgress)
      {
        assert page[..i + 1][..i] == page[..i];
        if page[i].content != "" && page[i].role == Assistant {
          shown := shown + [page[i].id];
        }
      }
      assert page[..|page|] == page;
    }

    /** `send_to_daemon`, given the daemon's reply; a second send meanwhile is refused. */
    method Send(reply: Reply)
      modifies this
      ensures State() == if old(responseInProgress) then old(State()) else Receive(old(State()), reply)
      ensures responseInProgress == old(responseInProgress)
    {
      if responseInProgress { return; }
      responseInProgress := true;
      match reply {
        case NoReply =>
        case EmptyReply =>
        case Unstored =>
          shown := shown + [0];
        case Stored(id) =>
          shown := shown + [id];
          if id > lastSeenId {
            lastSeenId := id;
          }
      }
      responseInProgress := false;
    }
  }

  // ---------------------------------------------------------------- runs

  datatype Incoming = Incoming(role: Role, content: string)

  /** What happens to store and client: another party adds a message, the client polls, or the
      client sends. A send blocks the client: meanwhile messages are added (its own question
      and reply among them), and a stored reply is one of the assistant messages added. */
  datatype Event =
    | Added(role: Role, content: string)
    | Polled
    | Sent(meanwhile: seq<Incoming>, reply: Reply)

  datatype World = World(store: seq<Msg>, client: Client)

  function AddAll(store: seq<Msg>, more: seq<Incoming>): seq<Msg> {
    if more == [] then store
    else Add(AddAll(store, more[..|more| - 1]), more[|more| - 1].role, more[|more| - 1].content)
  }

  predicate ValidEvent(w: World, e: Event) {
    e.Sent? && e.reply.Stored? ==>
      var after := AddAll(w.store, e.meanwhile);
      var id := e.reply.id;
      |w.store| < id <= |after| && Showable(after[id - 1])
  }

  function Step(w: World, e: Event): World {
    match e
    case Added(role, content) => World(Add(w.store, role, content), w.client)
    case Polled => World(w.store, Poll(w.client, w.store))
    case Sent(meanwhile, reply) => World(AddAll(w.store, meanwhile), Receive(w.client, reply))
  }

  function Run(w: World, es: seq<Event>): World {
    if es == [] then w else Step(Run(w, es[..|es| - 1]), es[|es| - 1])
  }

  ghost predicate ValidRun(w: World, es: seq<Event>) {
    es == [] || (ValidRun(w, es[..|es| - 1]) && ValidEvent(Run(w, es[..|es| - 1]), es[|es| - 1]))
  }

  /** A client that has just connected (`StartIsConnected`). */
  ghost predicate Connected(w: World) {
    Numbered(w.store) && 0 <= w.client.lastSeen <= |w.store| && w.client.shown == []
  }

  // ---------------------------------------------------------------- pages

  lemma {:induction false} AddAllKeeps(store: seq<Msg>, more: seq<Incoming>)
    requires Numbered(store)
    ensures Numbered(AddAll(store, more)) && store <= AddAll(store, more)
  {
    if more != [] { AddAllKeeps(store, more[..|more| - 1]); }
  }

  /** The start-up cursor of the constructor makes a connected client. */
  lemma StartIsConnected(store: seq<Msg>)
    requires Numbered(store)
    ensures Connected(World(store, Client(MaxId(Latest(store, MAX_PAGE)), [])))
    ensures MaxId(Latest(store, MAX_PAGE)) == |store|
  {
    var from := Max(0, |store| - MAX_PAGE);
    assert Latest(store, MAX_PAGE) == store[from..|store|];
    SliceFacts(store, from, |store|);
  }

  /** A page of consecutive ids: its largest id is its last, and what it shows lies inside. */
  lemma {:induction false} SliceFacts(store: seq<Msg>, from: nat, to: nat)
    requires Numbered(store) && from <= to <= |store|
    ensures MaxId(store[from..to]) == if from == to then 0 else to
    ensures ShownIds(store[from..to]) == AssistantIds(store, from, to)
  {
    if from < to {
      assert store[from..to][..to - 1 - from] == store[from..to - 1];
      SliceFacts(store, from, to - 1);
    }
  }

  /** The ids in (from, to] of assistant messages with content, in ascending order. */
  function AssistantIds(store: seq<Msg>, from: nat, to: nat): seq<int>
    requires from <= to <= |store|
  {
    if to == from then [] else
      var m := store[to - 1];
      AssistantIds(store, from, to - 1) + (if Showable(m) then [m.id] else [])
  }

  predicate Ascending(s: seq<int>) {
    forall i, j :: 0 <= i < j < |s| ==> s[i] < s[j]
  }

  lemma {:induction false} AssistantIdsExactly(store: seq<Msg>, from: nat, to: nat)
    requires Numbered(store) && from <= to <= |store|
    ensures forall id :: id in AssistantIds(store, from, to) <==>
              from < id <= to && Showable(store[id - 1])
    ensures Ascending(AssistantIds(store, from, to))
  {
    if from < to {
      AssistantIdsExactly(store, from, to - 1);
      var before := AssistantIds(store, from, to - 1);
      forall i | 0 <= i < |before| ensures before[i] < to {
        assert before[i] in before;
      }
    }
  }

  lemma {:induction false} AssistantIdsSplit(store: seq<Msg>, from: nat, mid: nat, to: nat)
    requires from <= mid <= to <= |store|
    ensures AssistantIds(store, from, to) == AssistantIds(store, from, mid) + AssistantIds(store, mid, to)
  {
    if mid < to { AssistantIdsSplit(store, from, mid, to - 1); }
  }

  lemma {:induction false} AssistantIdsOfPrefix(store: seq<Msg>, longer: seq<Msg>, from: nat, to: nat)
    requires store <= longer && from <= to <= |store|
    ensures AssistantIds(longer, from, to) == AssistantIds(store, from, to)
  {
    if from < to { AssistantIdsOfPrefix(store, longer, from, to - 1); }
  }

  lemma PageIsSlice(store: seq<Msg>, lastSeen: int)
    requires 0 <= lastSeen <= |store|
    ensures var from := if lastSeen > 0 then lastSeen else Max(0, |store| - PAGE);
            HistoryPage(store, lastSeen, PAGE) == store[from..Min(from + PAGE, |store|)]
  {
  }

  /** What one poll does, in terms of ids: it shows an interval that starts at or after the
      cursor and moves the cursor to the interval's end. From a positive cursor the interval
      starts right at the cursor. */
  lemma PollShowsInterval(c: Client, store: seq<Msg>)
    requires Numbered(store) && 0 <= c.lastSeen <= |store|
    ensures var from := if c.lastSeen > 0 then c.lastSeen else Max(0, |store| - PAGE);
            var to := Min(from + PAGE, |store|);
            Poll(c, store) == Client(Max(c.lastSeen, to), c.shown + AssistantIds(store, from, to))
  {
    var from := if c.lastSeen > 0 then c.lastSeen else Max(0, |store| - PAGE);
    var to := Min(from + PAGE, |store|);
    PageIsSlice(store, c.lastSeen);
    SliceFacts(store, from, to);
    assert c.shown + [] == c.shown;
    hide HistoryPage, MaxId, ShownIds, AssistantIds, Numbered;
  }

  /** One more poll of a client that has shown everything from `from` up to its cursor. */
  lemma PollContinues(c: Client, store: seq<Msg>, before: seq<int>, from: nat)
    requires Numbered(store) && 0 < from <= c.lastSeen <= |store|
    requires c.shown == before + AssistantIds(store, from, c.lastSeen)
    ensures var to := Min(c.lastSeen + PAGE, |store|);
            Poll(c, store) == Client(to, before + AssistantIds(store, from, to))
  {
    var to := Min(c.lastSeen + PAGE, |store|);
    PollShowsInterval(c, store);
    AssistantIdsSplit(store, from, c.lastSeen, to);
    ConcatAssociative(before, AssistantIds(store, from, c.lastSeen), AssistantIds(store, c.lastSeen, to));
  }

  // ---------------------------------------------------------------- no duplicates

  /** Shown ids are of stored assistant messages up to the cursor, and none occurs twice. */
  ghost predicate ShownOnce(w: World) {
    && Numbered(w.store) && 0 <= w.client.lastSeen <= |w.store|
    && (forall i :: 0 <= i < |w.client.shown| ==> IsShowable(w.store, w.client.lastSeen, w.client.shown[i]))
    && (forall i, j :: 0 <= i < j < |w.client.shown| ==> w.client.shown[i] != w.client.shown[j] || w.client.shown[i] == 0)
  }

  predicate IsShowable(store: seq<Msg>, lastSeen: int, id: int) {
    id == 0 || (0 < id <= lastSeen && id <= |store| && Showable(store[id - 1]))
  }

  /** No stored assistant message is ever shown twice, by polls and sends together, and the
      cursor never goes back, in any run from any start-up cursor. */
  lemma {:induction false} NoDuplicates(w: World, es: seq<Event>)
    requires Connected(w) && ValidRun(w, es)
    ensures ShownOnce(Run(w, es)) && w.client.lastSeen <= Run(w, es).client.lastSeen
  {
    if es != [] {
      var n := |es| - 1;
      NoDuplicates(w, es[..n]);
      StepShowsOnce(Run(w, es[..n]), es[n]);
    }
  }

  lemma StepShowsOnce(w: World, e: Event)
    requires ShownOnce(w) && ValidEvent(w, e)
    ensures ShownOnce(Step(w, e)) && w.client.lastSeen <= Step(w, e).client.lastSeen
  {
    match e
    case Added(role, content) =>
    case Polled =>
      PollShowsOnce(w);
    case Sent(meanwhile, reply) =>
      AddAllKeeps(w.store, meanwhile);
  }

  lemma PollShowsOnce(w: World)
    requires ShownOnce(w)
    ensures ShownOnce(World(w.store, Poll(w.client, w.store))) && w.client.lastSeen <= Poll(w.client, w.store).lastSeen
  {
    hide ShownOnce;
    var from := if w.client.lastSeen > 0 then w.client.lastSeen else Max(0, |w.store| - PAGE);
    var to := Min(from + PAGE, |w.store|);
    assert Numbered(w.store) && 0 <= w.client.lastSeen <= |w.store| by { ShownOnceBounds(w); }
    PollShowsInterval(w.client, w.store);
    AssistantIdsExactly(w.store, from, to);
    ShowMore(w, AssistantIds(w.store, from, to), Max(w.client.lastSeen, to));
  }

  lemma ShownOnceBounds(w: World)
    requires ShownOnce(w)
    ensures Numbered(w.store) && 0 <= w.client.lastSeen <= |w.store|
  {
  }

  /** An error text may be shown again and again; it has no id. */
  lemma ShowError(w: World)
    requires ShownOnce(w)
    ensures ShownOnce(World(w.store, Client(w.client.lastSeen, w.client.shown + [0])))
  {
    var shown := w.client.shown + [0];
    forall i | 0 <= i < |shown| ensures IsShowable(w.store, w.client.lastSeen, shown[i]) {
      if i < |w.client.shown| {
        assert IsShowable(w.store, w.client.lastSeen, w.client.shown[i]);
      }
    }
  }

  lemma ShowMore(w: World, more: seq<int>, lastSeen: int)
    requires ShownOnce(w) && w.client.lastSeen <= lastSeen <= |w.store|
    requires forall id :: id in more ==> w.client.lastSeen < id && IsShowable(w.store, lastSeen, id)
    requires Ascending(more)
    ensures ShownOnce(World(w.store, Client(lastSeen, w.client.shown + more)))
  {
    var shown := w.client.shown + more;
    forall i | 0 <= i < |shown| ensures IsShowable(w.store, lastSeen, shown[i]) {
      if i < |w.client.shown| {
        assert IsShowable(w.store, w.client.lastSeen, w.client.shown[i]);
      } else {
        assert more[i - |w.client.shown|] in more;
      }
    }
    forall i, j | 0 <= i < j < |shown| ensures shown[i] != shown[j] || shown[i] == 0 {
      if i < |w.client.shown| <= j {
        assert IsShowable(w.store, w.client.lastSeen, w.client.shown[i]);
        assert more[j - |w.client.shown|] in more;
      }
    }
  }

  // ---------------------------------------------------------------- complete delivery

  /** Without sends and from a positive cursor, what has been shown is at every moment exactly
      the assistant messages between the start-up cursor and the current one, in id order. */
  lemma {:induction false} PollsDeliverInOrder(w: World, es: seq<Event>)
    requires Connected(w) && w.client.lastSeen > 0
    requires forall i :: 0 <= i < |es| ==> !es[i].Sent?
    ensures var v := Run(w, es);
            && Numbered(v.store) && w.store <= v.store && w.client.lastSeen <= v.client.lastSeen <= |v.store|
            && v.client.shown == AssistantIds(v.store, w.client.lastSeen, v.client.lastSeen)
  {
    if es != [] {
      var n := |es| - 1;
      PollsDeliverInOrder(w, es[..n]);
      var v := Run(w, es[..n]);
      if es[n].Polled? {
        PollContinues(v.client, v.store, [], w.client.lastSeen);
      } else {
        AssistantIdsOfPrefix(v.store, Run(w, es).store, w.client.lastSeen, v.client.lastSeen);
      }
    }
  }

  function Polls(c: Client, store: seq<Msg>, k: nat): Client {
    if k == 0 then c else Poll(Polls(c, store, k - 1), store)
  }

  /** The page limit loses nothing: from a positive cursor, ceil(n / 200) polls reach the end
      of n later messages and have shown each later assistant message once, in id order. */
  lemma {:induction false} PollsReachTheEnd(c: Client, store: seq<Msg>, k: nat)
    requires Numbered(store) && 0 < c.lastSeen <= |store|
    ensures var to := Min(c.lastSeen + k * PAGE, |store|);
            Polls(c, store, k) == Client(to, c.shown + AssistantIds(store, c.lastSeen, to))
  {
    hide Poll, Numbered;
    if k == 0 {
      assert c.shown + [] == c.shown;
    } else {
      PollsReachTheEnd(c, store, k - 1);
      PollContinues(Polls(c, store, k - 1), store, c.shown, c.lastSeen);
    }
  }

  /** Some step of the run went past `id` while the cursor was still below it: a send whose reply
      is stored beyond it, or a poll from cursor 0 of a store with a page of later messages. */
  predicate PassedOver(w: World, es: seq<Event>, id: int) {
    es != [] &&
    (var n := |es| - 1; PassedOver(w, es[..n], id) || Passes(Run(w, es[..n]), es[n], id))
  }

  predicate Passes(v: World, e: Event, id: int) {
    || (e.Sent? && e.reply.Stored? && v.client.lastSeen < id < e.reply.id)
    || (e.Polled? && v.client.lastSeen == 0 && 0 < id <= |v.store| - PAGE)
  }

  /** Which messages a client shows, over every run of polls, sends and other parties' messages:
      an assistant message after the start-up cursor and not beyond the current one has been
      shown exactly when no step has passed over it. */
  lemma {:induction false} ShownExactlyUnlessPassedOver(w: World, es: seq<Event>, id: int)
    requires Connected(w) && ValidRun(w, es)
    ensures var v := Run(w, es);
            && ShownOnce(v) && w.client.lastSeen <= v.client.lastSeen <= |v.store|
            && (PassedOver(w, es, id) ==> id < v.client.lastSeen)
            && (w.client.lastSeen < id <= v.client.lastSeen && Showable(v.store[id - 1]) ==>
                  (id in v.client.shown <==> !PassedOver(w, es, id)))
  {
    NoDuplicates(w, es);
    hide Step, ShownOnce, Showable;
    ShownOnceBounds(Run(w, es));
    if es != [] {
      var n := |es| - 1;
      ShownExactlyUnlessPassedOver(w, es[..n], id);
      StepShowsExactly(Run(w, es[..n]), es[n], id);
    }
  }

  /** What one step shows: a poll everything up to its new cursor, a send its reply only. */
  ghost predicate ShowsExactly(v: World, t: World, passes: bool, id: int) {
    && 0 <= v.client.lastSeen <= t.client.lastSeen <= |t.store| && v.store <= t.store
    && (passes ==> id < t.client.lastSeen)
    && (id in v.client.shown && id != 0 ==> id <= v.client.lastSeen)
    && (0 < id <= v.client.lastSeen ==> (id in t.client.shown <==> id in v.client.shown))
    && (v.client.lastSeen < id <= t.client.lastSeen && Showable(t.store[id - 1]) ==> (id in t.client.shown <==> !passes))
  }

  lemma StepShowsExactly(v: World, e: Event, id: int)
    requires ShownOnce(v) && ValidEvent(v, e)
    ensures ShowsExactly(v, Step(v, e), Passes(v, e, id), id)
  {
    if id in v.client.shown {
      var i :| 0 <= i < |v.client.shown| && v.client.shown[i] == id;
      assert IsShowable(v.store, v.client.lastSeen, v.client.shown[i]);
    }
    ShownOnceBounds(v);
    hide ShownOnce, Numbered;
    match e
    case Added(role, content) =>
    case Polled => PollShowsExactly(v, id);
    case Sent(meanwhile, reply) => AddAllKeeps(v.store, meanwhile);
  }

  lemma PollShowsExactly(v: World, id: int)
    requires Numbered(v.store) && 0 <= v.client.lastSeen <= |v.store|
    requires id in v.client.shown && id != 0 ==> id <= v.client.lastSeen
    ensures ShowsExactly(v, World(v.store, Poll(v.client, v.store)), Passes(v, Polled, id), id)
  {
    hide Poll, Numbered, AssistantIds;
    var from := if v.client.lastSeen > 0 then v.client.lastSeen else Max(0, |v.store| - PAGE);
    PollShowsInterval(v.client, v.store);
    AssistantIdsExactly(v.store, from, Min(from + PAGE, |v.store|));
  }

  /** From the zero cursor, and with sends, messages can be skipped. A send moves the cursor
      past every earlier message it has not seen, and those are never shown afterwards. */
  lemma {:induction false} SendSkips(w: World, e: Event, es: seq<Event>, id: int)
    requires ShownOnce(w) && ValidEvent(w, e) && e.Sent? && e.reply.Stored?
    requires 0 < id < e.reply.id && id !in w.client.shown
    requires ValidRun(Step(w, e), es)
    ensures id !in Run(Step(w, e), es).client.shown && e.reply.id <= Run(Step(w, e), es).client.lastSeen
    ensures ShownOnce(Run(Step(w, e), es))
  {
    StepShowsOnce(w, e);
    if es == [] {
      assert Step(w, e).client.lastSeen >= e.reply.id;
    } else {
      hide Step, ShownOnce;
      var n := |es| - 1;
      SendSkips(w, e, es[..n], id);
      var v := Run(Step(w, e), es[..n]);
      StepShowsOnce(v, es[n]);
      StepShowsNothingOld(v, es[n], id);
    }
  }

  lemma StepShowsNothingOld(w: World, e: Event, id: int)
    requires ShownOnce(w) && ValidEvent(w, e)
    requires 0 < id <= w.client.lastSeen && id !in w.client.shown
    ensures id !in Step(w, e).client.shown
  {
    if e.Polled? {
      PollShowsInterval(w.client, w.store);
      AssistantIdsExactly(w.store, w.client.lastSeen, Min(w.client.lastSeen + PAGE, |w.store|));
    }
  }

  /** A positive cursor is needed: on a longer store a poll from cursor 0 shows the latest page
      only, and moves past everything before it. */
  lemma ZeroCursorSkips(store: seq<Msg>, shown: seq<int>)
    requires Numbered(store) && |store| > PAGE
    ensures Poll(Client(0, shown), store) == Client(|store|, shown + AssistantIds(store, |store| - PAGE, |store|))
  {
    PollShowsInterval(Client(0, shown), store);
  }

  // ---------------------------------------------------------------- what was added is what is shown

  /** Everything added in a run, by whoever, in order. */
  function Arrivals(es: seq<Event>): seq<Incoming> {
    if es == [] then [] else
      var e := es[|es| - 1];
      Arrivals(es[..|es| - 1])
      + (match e
         case Added(role, content) => [Incoming(role, content)]
         case Polled => []
         case Sent(meanwhile, _) => meanwhile)
  }

  /** The messages that stand for arrivals, numbered from `from + 1`. */
  function Numbering(from: nat, arrivals: seq<Incoming>): (store: seq<Msg>)
    ensures |store| == |arrivals|
    ensures forall i :: 0 <= i < |arrivals| ==>
              store[i].id == from + i + 1 && store[i].role == arrivals[i].role && store[i].content == arrivals[i].content
  {
    seq(|arrivals|, i requires 0 <= i < |arrivals| => Msg(from + i + 1, arrivals[i].role, arrivals[i].content))
  }

  lemma {:induction false} AddAllIsNumbering(store: seq<Msg>, more: seq<Incoming>)
    ensures AddAll(store, more) == store + Numbering(|store|, more)
  {
    if more == [] {
      assert store + Numbering(|store|, []) == store;
    } else {
      AddAllIsNumbering(store, more[..|more| - 1]);
      assert Numbering(|store|, more)
             == Numbering(|store|, more[..|more| - 1])
                + [Msg(|store| + |more|, more[|more| - 1].role, more[|more| - 1].content)];
    }
  }

  /** The store holds what was added, in order, each message with its role and content. */
  lemma {:induction false} StoreIsItsArrivals(w: World, es: seq<Event>)
    ensures Run(w, es).store == w.store + Numbering(|w.store|, Arrivals(es))
  {
    hide Poll, Receive;
    if es == [] {
      assert w.store + Numbering(|w.store|, []) == w.store;
    } else {
      var n := |es| - 1;
      StoreIsItsArrivals(w, es[..n]);
      var before := Arrivals(es[..n]);
      match es[n]
      case Added(role, content) => MoreNumbering(w.store, before, [Incoming(role, content)]); OneIsAdded(Run(w, es[..n]).store, role, content);
      case Polled => assert before + [] == before;
      case Sent(meanwhile, _) => MoreNumbering(w.store, before, meanwhile); AddAllIsNumbering(Run(w, es[..n]).store, meanwhile);
    }
  }

  lemma OneIsAdded(store: seq<Msg>, role: Role, content: string)
    ensures Add(store, role, content) == store + Numbering(|store|, [Incoming(role, content)])
  {
  }

  lemma MoreNumbering(store: seq<Msg>, a: seq<Incoming>, b: seq<Incoming>)
    ensures store + Numbering(|store|, a) + Numbering(|store + Numbering(|store|, a)|, b) == store + Numbering(|store|, a + b)
  {
  }

  /** Arrival i is a text of the assistant. */
  predicate IsAssistantText(arrivals: seq<Incoming>, i: int) {
    0 <= i < |arrivals| && arrivals[i].role == Assistant && arrivals[i].content != ""
  }

  /** Whatever the client has shown of the messages that arrived in the run was added as a text of
      the assistant, in polls and sends alike. */
  lemma ShownWasAdded(w: World, es: seq<Event>, id: int)
    requires Connected(w) && ValidRun(w, es) && id in Run(w, es).client.shown && id > |w.store|
    ensures IsAssistantText(Arrivals(es), id - 1 - |w.store|)
  {
    hide Run, ValidRun;
    NoDuplicates(w, es);
    StoreIsItsArrivals(w, es);
    var v := Run(w, es);
    var i :| 0 <= i < |v.client.shown| && v.client.shown[i] == id;
    assert IsShowable(v.store, v.client.lastSeen, v.client.shown[i]);
  }

  /** And a poll shows every such text of its interval, in order, with the id it arrived under. */
  lemma PollShowsTheArrivals(w: World, es: seq<Event>)
    requires Connected(w) && ValidRun(w, es)
    ensures var v := Run(w, es);
            var from := if v.client.lastSeen > 0 then v.client.lastSeen else Max(0, |v.store| - 200);
            var to := Min(from + 200, |v.store|);
            var next := Poll(v.client, v.store).shown;
            exists more ::
              && next == v.client.shown + more && Ascending(more)
              && forall id :: id in more && id > |w.store| <==>
                   from < id <= to && id > |w.store| && IsAssistantText(Arrivals(es), id - 1 - |w.store|)
  {
    hide Run, ValidRun, Poll, Arrivals, AssistantIds, Ascending, Numbering, IsAssistantText, Showable;
    NoDuplicates(w, es);
    StoreIsItsArrivals(w, es);
    var v := Run(w, es);
    PollShowsInterval(v.client, v.store);
    var from := if v.client.lastSeen > 0 then v.client.lastSeen else Max(0, |v.store| - PAGE);
    var to := Min(from + PAGE, |v.store|);
    AssistantIdsExactly(v.store, from, to);
    var more := AssistantIds(v.store, from, to);
    forall id ensures id in more && id > |w.store| <==>
                        from < id <= to && id > |w.store| && IsAssistantText(Arrivals(es), id - 1 - |w.store|) {
      ArrivalAt(w.store, Arrivals(es), id);
    }
  }

  lemma ArrivalAt(store: seq<Msg>, arrivals: seq<Incoming>, id: int)
    ensures var all := store + Numbering(|store|, arrivals);
            |store| < id <= |all| ==> (Showable(all[id - 1]) <==> IsAssistantText(arrivals, id - 1 - |store|))
  {
    var all := store + Numbering(|store|, arrivals);
    if |store| < id <= |all| {
      assert all[id - 1] == Numbering(|store|, arrivals)[id - 1 - |store|];
    }
  }
}
