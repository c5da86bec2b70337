/** What becomes of each message that is published on the agents' bus, told from the publishing
    call to the reads that hand it out. */
module BusPosts {
  import opened Bytes
  import opened ReaderList
  import opened AgentBus

  // ---------------------------------------------------------------- posts and their rows

  /** The bus takes messages on its ten channels that carry none of the raw biometric fields. */
  predicate IsAccepted(p: Post) {
    && p.channel in ["enrollment", "separation", "defensibility", "operator", "sweep", "wiki", "alert",
                     "maturity", "curator", "corpus_quality"]
    && forall key :: key in p.keys ==>
         key !in ["raw_hid", "sensor_commitment", "feature_vector", "mahalanobis_raw", "touchpad_raw", "gyro_raw", "accel_raw"]
  }

  lemma PublishedExactly(bus: Bus, p: Post, now: int)
    ensures Publish(bus, p, now).Some? <==> IsAccepted(p)
  {
    if p.keys * RAW_FIELDS != {} {
      var key :| key in p.keys * RAW_FIELDS;
      assert key in p.keys;
    }
    if key :| key in p.keys && key in RAW_FIELDS {
      assert key in p.keys * RAW_FIELDS;
    }
  }

  /** Event k stores a message. */
  predicate IsPost(es: seq<Event>, k: int) {
    0 <= k < |es| && es[k].Published? && IsAccepted(es[k].post)
  }

  function Posts(es: seq<Event>): nat {
    if es == [] then 0 else Posts(es[..|es| - 1]) + (if IsPost(es, |es| - 1) then 1 else 0)
  }

  /** Messages are numbered from 1 in the order of their publishing. */
  function IdOf(es: seq<Event>, k: nat): int
    requires k < |es|
  {
    Posts(es[..k]) + 1
  }

  /** The row says what was posted, and expires 24 hours later. */
  predicate IsRowOf(m: Msg, p: Post, at: int) {
    && m.fromAgent == p.fromAgent && m.toAgent == p.toAgent && m.channel == p.channel && m.payload == p.payload
    && m.ts == at && m.expiresAt == at + 86400
  }

  /** No read after event k has purged message `id`. */
  ghost predicate Unpurged(es: seq<Event>, k: nat, id: int) {
    forall j :: k < j < |es| && es[j].WasRead? ==> id !in es[j].read.purged
  }

  lemma {:induction false} NextIdCountsPosts(es: seq<Event>)
    ensures Run(es).bus.nextId == Posts(es) + 1
  {
    hide IsAccepted, Publish;
    if es != [] {
      var n := |es| - 1;
      NextIdCountsPosts(es[..n]);
      if es[n].Published? {
        StepOfPublish(Run(es[..n]), es[n].post, es[n].now);
      }
    }
  }

  lemma StepOfPublish(h: History, p: Post, now: int)
    ensures var next := Step(h, Published(p, now));
            && next.log == h.log
            && (!IsAccepted(p) ==> next == h)
            && (IsAccepted(p) ==>
                  && next.bus.nextId == h.bus.nextId + 1
                  && next.bus.rows.Keys == h.bus.rows.Keys + {h.bus.nextId}
                  && IsRowOf(next.bus.rows[h.bus.nextId], p, now) && next.bus.rows[h.bus.nextId].readBy.None?
                  && forall id :: id in h.bus.rows && id != h.bus.nextId ==> next.bus.rows[id] == h.bus.rows[id])
  {
    hide IsAccepted;
    PublishedExactly(h.bus, p, now);
  }

  lemma {:induction false} PostsGrow(es: seq<Event>, k: nat, n: nat)
    requires k < n <= |es|
    ensures Posts(es[..k]) + (if IsPost(es, k) then 1 else 0) <= Posts(es[..n])
  {
    hide IsAccepted;
    assert es[..n][..n - 1] == es[..n - 1];
    if k < n - 1 {
      PostsGrow(es, k, n - 1);
    }
  }

  /** Everything known of message `id`, published as `p` at time `at`, in a state of the bus. */
  ghost predicate IsKept(h: History, id: int, p: Post, at: int) {
    && (id in h.bus.rows ==> IsRowOf(h.bus.rows[id], p, at))
    && forall d :: d in h.log && d.id == id ==> IsRowOf(d.msg, p, at)
  }

  lemma StepKeepsPost(h: History, e: Event, id: int, p: Post, at: int)
    requires IsKept(h, id, p, at) && id < h.bus.nextId && (e.WasRead? ==> ValidRead(h.bus, e.read))
    ensures IsKept(Step(h, e), id, p, at)
    ensures id in Step(h, e).bus.rows <==> id in h.bus.rows && (e.WasRead? ==> id !in e.read.purged)
  {
    hide Hides, IsAccepted;
    if e.Published? {
      StepOfPublish(h, e.post, e.now);
    }
  }

  /** A stored message stays what was posted until a read purges it, and is handed out as that. */
  lemma {:induction false} PostIsKept(es: seq<Event>, k: nat)
    requires ValidRun(es) && IsPost(es, k)
    ensures var id := IdOf(es, k);
            && IsKept(Run(es), id, es[k].post, es[k].now)
            && (id in Run(es).bus.rows <==> Unpurged(es, k, id))
  {
    hide IsAccepted, ValidRead, IsKept, Step;
    var n, id := |es| - 1, IdOf(es, k);
    var h := Run(es[..n]);
    NextIdCountsPosts(es[..n]);
    if k == n {
      DeliverySafety(es[..n]);
      FreshPostIsKept(h, es[n].post, es[n].now);
    } else {
      assert es[..n][..k] == es[..k];
      PostIsKept(es[..n], k);
      PostsGrow(es, k, n);
      StepKeepsPost(h, es[n], id, es[k].post, es[k].now);
      assert Unpurged(es, k, id) <==> Unpurged(es[..n], k, id) && (es[n].WasRead? ==> id !in es[n].read.purged);
    }
  }

  lemma FreshPostIsKept(h: History, p: Post, now: int)
    requires IsAccepted(p) && MarksAreKept(h.bus, h.log)
    ensures var next := Step(h, Published(p, now)); IsKept(next, h.bus.nextId, p, now) && h.bus.nextId in next.bus.rows
  {
    hide IsAccepted;
    StepOfPublish(h, p, now);
  }

  // ---------------------------------------------------------------- main results

  /** For agents with substring-free ids, from the publishing call on: a message that was taken at
      time `at` and not purged is visible to an agent on a channel if and only if it was posted
      to that channel, to nobody in particular or to that agent, less than 86400 seconds ago, and
      no read of this agent's own was handed it. */
  lemma PostVisibleExactly(all: set<string>, es: seq<Event>, k: nat, agent: string, channel: string, now: int)
    requires ValidRun(es) && RunBy(es, all) && SubstringFree(all) && agent in all && IsPost(es, k)
    ensures var id, p, at := IdOf(es, k), es[k].post, es[k].now;
            (id in Run(es).bus.rows && Visible(Run(es).bus.rows[id], agent, channel, now)) <==>
              && Unpurged(es, k, id)
              && channel == p.channel && (p.toAgent.None? || p.toAgent.value == agent)
              && now < at + 86400
              && !Delivered(Run(es).log, agent, id)
  {
    hide ValidRun, Run, RunBy, SubstringFree, Visible, Delivered, IsAccepted, Unpurged;
    var id := IdOf(es, k);
    PostIsKept(es, k);
    if id in Run(es).bus.rows {
      VisibleExactly(all, es, agent, channel, now, id);
    }
  }

  /** Whoever is handed a message is handed what was posted, in time and addressed to it. */
  lemma DeliveredAsPosted(es: seq<Event>, k: nat, d: Delivery)
    requires ValidRun(es) && IsPost(es, k) && d in Run(es).log && d.id == IdOf(es, k)
    ensures var p, at := es[k].post, es[k].now;
            && d.msg.fromAgent == p.fromAgent && d.msg.toAgent == p.toAgent
            && d.msg.channel == p.channel && d.msg.payload == p.payload
            && d.at < at + 86400 && (p.toAgent.None? || p.toAgent.value == d.agent)
  {
    hide ValidRun, Run, IsAccepted, Unpurged;
    PostIsKept(es, k);
    DeliverySafety(es);
  }

  /** Nothing else is ever stored or handed out: every row and every delivery has its post. */
  lemma {:induction false} EveryRowWasPosted(es: seq<Event>, id: int) returns (k: nat)
    requires ValidRun(es)
    requires id in Run(es).bus.rows || exists d :: d in Run(es).log && d.id == id
    ensures IsPost(es, k) && IdOf(es, k) == id
  {
    hide IsAccepted, ValidRead, Step;
    var n := |es| - 1;
    var h := Run(es[..n]);
    NextIdCountsPosts(es[..n]);
    if es[n].Published? && IsPost(es, n) && id == h.bus.nextId {
      k := n;
    } else {
      OldIdsStay(h, es[n], id);
      k := EveryRowWasPosted(es[..n], id);
      assert es[..n][..k] == es[..k];
    }
  }

  lemma OldIdsStay(h: History, e: Event, id: int)
    requires e.WasRead? ==> ValidRead(h.bus, e.read)
    requires id in Step(h, e).bus.rows || exists d :: d in Step(h, e).log && d.id == id
    requires !(e.Published? && IsAccepted(e.post) && id == h.bus.nextId)
    ensures id in h.bus.rows || exists d :: d in h.log && d.id == id
  {
    hide Hides, IsAccepted;
    if e.Published? {
      StepOfPublish(h, e.post, e.now);
    }
  }

  // ---------------------------------------------------------------- which messages a read hands out

  /** When the last event, a read, is about to answer: message k is there, its agent is meant and
      has not been handed it. */
  ghost predicate Waiting(es: seq<Event>, k: nat)
    requires es != [] && es[|es| - 1].WasRead? && k < |es|
  {
    var n := |es| - 1;
    var r, id := es[n].read, IdOf(es, k);
    && IsPost(es, k) && Unpurged(es, k, id)
    && r.channel == es[k].post.channel && (es[k].post.toAgent.None? || es[k].post.toAgent.value == r.agent)
    && r.now < es[k].now + 86400
    && !Delivered(Run(es[..n]).log, r.agent, id)
  }

  /** For agents with substring-free ids: a read hands out waiting messages only, the later ones
      first; when one stays behind, the limit is used up and nothing handed out is older. */
  lemma ReadHandsTheNewest(all: set<string>, es: seq<Event>)
    requires ValidRun(es) && RunBy(es, all) && SubstringFree(all) && es != [] && es[|es| - 1].WasRead?
    ensures var r := es[|es| - 1].read;
            && (r.limit >= 0 ==> |r.picked| <= r.limit)
            && (forall k :: IsPost(es, k) && IdOf(es, k) in r.picked ==> Waiting(es, k))
            && (forall k :: IsPost(es, k) && Waiting(es, k) && IdOf(es, k) !in r.picked ==> |r.picked| == r.limit)
            && (forall j, k :: IsPost(es, j) && IsPost(es, k) ==>
                  IdOf(es, j) in r.picked && Waiting(es, k) && IdOf(es, k) !in r.picked ==> es[k].now <= es[j].now)
            && (forall j, k, a, b :: IsPost(es, j) && IsPost(es, k) && 0 <= a < b < |r.picked| ==>
                  IdOf(es, j) == r.picked[a] && IdOf(es, k) == r.picked[b] ==> es[j].now >= es[k].now)
  {
    var n := |es| - 1;
    var r, before := es[n].read, Run(es[..n]).bus;
    var left := before.rows - r.purged;
    forall k | IsPost(es, k)
      ensures Waiting(es, k) <==> IdOf(es, k) in VisibleIds(left, r.agent, r.channel, r.now)
      ensures IdOf(es, k) in left ==> left[IdOf(es, k)].ts == es[k].now
    {
      WaitingIsVisible(all, es, k);
    }
    hide ValidRun, Run, RunBy, SubstringFree, Visible, Delivered, IsAccepted, Unpurged, IsPost, Waiting, IdOf;
    var v := VisibleIds(left, r.agent, r.channel, r.now);
    forall k | IsPost(es, k) && Waiting(es, k) && IdOf(es, k) !in r.picked ensures |r.picked| == r.limit {
      AllOrLimit(left, r, IdOf(es, k));
    }
  }

  lemma WaitingIsVisible(all: set<string>, es: seq<Event>, k: nat)
    requires ValidRun(es) && RunBy(es, all) && SubstringFree(all) && es != [] && es[|es| - 1].WasRead? && IsPost(es, k)
    ensures var n := |es| - 1;
            var r := es[n].read;
            var left := Run(es[..n]).bus.rows - r.purged;
            && (Waiting(es, k) <==> IdOf(es, k) in VisibleIds(left, r.agent, r.channel, r.now))
            && (IdOf(es, k) in left ==> left[IdOf(es, k)].ts == es[k].now)
  {
    hide Run, SubstringFree, Visible, Delivered, IsAccepted, ValidRead;
    var n := |es| - 1;
    var r, id := es[n].read, IdOf(es, k);
    assert es[..n][..k] == es[..k] && es[n].read.agent in all;
    PostVisibleExactly(all, es[..n], k, r.agent, r.channel, r.now);
    PostIsKept(es[..n], k);
    assert Unpurged(es, k, id) <==> Unpurged(es[..n], k, id) && id !in r.purged;
  }

  /** When a visible row is not picked, the limit is used up. */
  lemma AllOrLimit(left: map<int, Msg>, r: Read, id: int)
    requires IsAnswer(left, r.agent, r.channel, r.limit, r.now, r.picked)
    requires id in VisibleIds(left, r.agent, r.channel, r.now) && id !in r.picked
    ensures |r.picked| == r.limit
  {
    hide Visible;
    var v := VisibleIds(left, r.agent, r.channel, r.now);
    if |r.picked| == |v| {
      PickedIsAll(v, r.picked, id);
    }
  }

  /** Distinct members of a set that are as many as it has leave none out. */
  lemma {:induction false} PickedIsAll(v: set<int>, picked: seq<int>, id: int)
    requires forall i :: 0 <= i < |picked| ==> picked[i] in v
    requires forall i, j :: 0 <= i < j < |picked| ==> picked[i] != picked[j]
    requires id in v && id !in picked
    ensures |picked| < |v|
  {
    if picked != [] {
      var last := picked[|picked| - 1];
      PickedIsAll(v - {last}, picked[..|picked| - 1], id);
    }
  }
}
