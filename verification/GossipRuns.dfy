/** What holds over every run of the gossip loop. */
module GossipRuns {
  import opened Binary
  import opened Sequences
  import opened Nodes
  import opened Gossip

  ghost function Run(cfg: Config, evs: seq<Event>): Member {
    if evs == [] then Start(cfg) else Step(cfg, Run(cfg, evs[..|evs| - 1]), Last(evs))
  }

  /** The operations a run performs on the maps, one after the other. */
  function Trace(cfg: Config, evs: seq<Event>): seq<Timed> {
    if evs == [] then [] else Trace(cfg, evs[..|evs| - 1]) + EventOps(cfg, Last(evs))
  }

  lemma {:induction false} ApplyAllConcat(cfg: Config, v: View, a: seq<Timed>, b: seq<Timed>)
    ensures ApplyAll(cfg, v, a + b).view == ApplyAll(cfg, ApplyAll(cfg, v, a).view, b).view
  {
    if b == [] {
      assert a + b == a;
    } else {
      var init := b[..|b| - 1];
      SnocSplit(a, b);
      ApplyAllConcat(cfg, v, a, init);
      ApplyAllSnoc(cfg, v, a + init, Last(b));
      ApplyAllSnoc(cfg, ApplyAll(cfg, v, a).view, init, Last(b));
    }
  }

  lemma {:induction false} RunFollowsTrace(cfg: Config, evs: seq<Event>)
    ensures Run(cfg, evs).view == ApplyAll(cfg, EMPTY, Trace(cfg, evs)).view
  {
    if evs != [] {
      RunFollowsTrace(cfg, evs[..|evs| - 1]);
      ApplyAllConcat(cfg, EMPTY, Trace(cfg, evs[..|evs| - 1]), EventOps(cfg, Last(evs)));
    }
  }

  /** In every reachable state the local id is in neither map and nobody is both alive and suppressed. */
  lemma RunsStayTidy(cfg: Config, evs: seq<Event>)
    ensures Tidy(cfg, Run(cfg, evs).view)
  {
    RunFollowsTrace(cfg, evs);
    ApplyAllStaysTidy(cfg, EMPTY, Trace(cfg, evs));
  }

  // ----- the topology

  /** No two neighbours are equal: every delivery was news. */
  ghost predicate AllNews(delivered: seq<seq<ClusterNode>>) {
    forall i :: 0 < i < |delivered| ==> delivered[i] != delivered[i - 1]
  }

  lemma SubsetOfSameSize(a: set<Id>, b: set<Id>)
    requires a <= b && |a| == |b|
    ensures a == b
  {
    assert b == a + (b - a);
  }

  /** An operation that reports no change leaves the roster as it was. */
  lemma UnchangedRoster(cfg: Config, v: View, t: Timed)
    requires Tidy(cfg, v) && !Apply(cfg, v, t).changed
    ensures Roster(cfg, Apply(cfg, v, t).view.peers) == Roster(cfg, v.peers)
  {
    var after := Apply(cfg, v, t).view.peers;
    assert after.Keys == v.peers.Keys by {
      if t.op.Reap? {
        SubsetOfSameSize(after.Keys, v.peers.Keys);
      }
    }
    assert forall id :: id in after ==> NodeOf(after[id]) == NodeOf(v.peers[id]);
    SameRoster(cfg, v.peers, after);
  }

  lemma SameRoster(cfg: Config, a: map<Id, Peer>, b: map<Id, Peer>)
    requires a.Keys == b.Keys && forall id :: id in a ==> id in b && NodeOf(a[id]) == NodeOf(b[id])
    ensures Roster(cfg, a) == Roster(cfg, b)
  {
    forall n
      ensures n in Roster(cfg, a) <==> n in Roster(cfg, b)
    {
      if n != Self(cfg) {
        if id :| id in a && n == NodeOf(a[id]) {
          assert n == NodeOf(b[id]);
        }
        if id :| id in b && n == NodeOf(b[id]) {
          assert id in a && n == NodeOf(a[id]);
        }
      }
    }
  }

  lemma {:induction false} UnchangedRosterAll(cfg: Config, v: View, ops: seq<Timed>)
    requires Tidy(cfg, v) && !ApplyAll(cfg, v, ops).changed
    ensures Roster(cfg, ApplyAll(cfg, v, ops).view.peers) == Roster(cfg, v.peers)
  {
    if ops != [] {
      var init := ops[..|ops| - 1];
      UnchangedRosterAll(cfg, v, init);
      ApplyAllStaysTidy(cfg, v, init);
      UnchangedRoster(cfg, ApplyAll(cfg, v, init).view, Last(ops));
    }
  }

  /** The published list is current, contains self once, and is the last one delivered. */
  ghost predicate Current(cfg: Config, m: Member) {
    && Tidy(cfg, m.view)
    && IsTopology(cfg, m.view.peers, m.topology) && |m.topology| == |m.view.peers| + 1
    && m.delivered != [] && Last(m.delivered) == m.topology
    && AllNews(m.delivered)
  }

  lemma PublishedIsCurrent(cfg: Config, m: Member)
    requires Tidy(cfg, m.view) && AllNews(m.delivered)
    requires if m.delivered == [] then m.topology == [] else Last(m.delivered) == m.topology
    ensures Current(cfg, Published(cfg, m))
  {
    var nodes := TopologyOf(cfg, m.view.peers);
    TopologyOfIs(cfg, m.view.peers);
    assert nodes != [];
    if nodes != m.topology {
      NewsSnoc(m.delivered, nodes);
    }
  }

  lemma NewsSnoc(delivered: seq<seq<ClusterNode>>, nodes: seq<ClusterNode>)
    requires AllNews(delivered) && (delivered != [] ==> Last(delivered) != nodes)
    ensures AllNews(delivered + [nodes]) && Last(delivered + [nodes]) == nodes
  {
  }

  lemma StepStaysCurrent(cfg: Config, m: Member, ev: Event)
    requires Current(cfg, m)
    ensures Current(cfg, Step(cfg, m, ev))
    ensures var after := Step(cfg, m, ev);
      after.delivered == if after.topology == m.topology then m.delivered else m.delivered + [after.topology]
  {
    var ops := EventOps(cfg, ev);
    var o := ApplyAll(cfg, m.view, ops);
    ApplyAllStaysTidy(cfg, m.view, ops);
    if o.changed {
      PublishedIsCurrent(cfg, m.(view := o.view));
    } else {
      UnchangedRosterAll(cfg, m.view, ops);
      TopologyOfIs(cfg, o.view.peers);
      TopologyUnique(cfg, o.view.peers, m.topology, TopologyOf(cfg, o.view.peers));
    }
  }

  /** After every event the published list is self and the peers, sorted, and was delivered exactly when it changed. */
  lemma {:induction false} TopologyAlwaysCurrent(cfg: Config, evs: seq<Event>)
    ensures Current(cfg, Run(cfg, evs))
  {
    if evs == [] {
      PublishedIsCurrent(cfg, Member(EMPTY, [], []));
    } else {
      TopologyAlwaysCurrent(cfg, evs[..|evs| - 1]);
      StepStaysCurrent(cfg, Run(cfg, evs[..|evs| - 1]), Last(evs));
    }
  }

  // ----- sequence numbers

  /** The live sequence numbers heard about a peer since it was last inserted. */
  function HeardSince(cfg: Config, ops: seq<Timed>, id: Id): seq<nat> {
    if ops == [] || id !in ApplyAll(cfg, EMPTY, ops).view.peers then [] else
      var earlier := HeardSince(cfg, ops[..|ops| - 1], id);
      var op := Last(ops).op;
      if op.Observe? && op.entry.id == id then earlier + [op.entry.seqNo] else earlier
  }

  ghost predicate IsMax(m: nat, s: seq<nat>) {
    m in s && forall x :: x in s ==> x <= m
  }

  lemma IsMaxSnoc(m: nat, s: seq<nat>, x: nat)
    ensures IsMax(m, s) ==> IsMax(Max(m, x), s + [x])
    ensures IsMax(x, [x])
  {
  }

  /** A peer's stored sequence number is the highest one heard since it was inserted. */
  lemma {:induction false} StoredSeqIsMax(cfg: Config, ops: seq<Timed>, id: Id)
    ensures var peers := ApplyAll(cfg, EMPTY, ops).view.peers;
      id in peers ==> IsMax(peers[id].seqNo, HeardSince(cfg, ops, id))
  {
    if ops != [] && id in ApplyAll(cfg, EMPTY, ops).view.peers {
      var init, t := ops[..|ops| - 1], Last(ops);
      var before := ApplyAll(cfg, EMPTY, init).view;
      ApplyAllStaysTidy(cfg, EMPTY, init);
      StoredSeqIsMax(cfg, init, id);
      if t.op.Observe? && t.op.entry.id == id {
        IsMaxSnoc(if id in before.peers then before.peers[id].seqNo else 0, HeardSince(cfg, init, id),
                  t.op.entry.seqNo);
        assert id !in before.peers ==> HeardSince(cfg, init, id) == [];
      }
    }
  }

  /** A leaving frame evicts exactly when it is above every sequence number heard since the peer was inserted. */
  lemma LeavingEvictsIff(cfg: Config, ops: seq<Timed>, id: Id, seqNo: nat, now: nat)
    requires id in ApplyAll(cfg, EMPTY, ops).view.peers
    ensures id !in ApplyAll(cfg, EMPTY, ops + [At(now, Leave(id, seqNo))]).view.peers
      <==> forall s :: s in HeardSince(cfg, ops, id) ==> s < seqNo
    ensures (exists s :: s in HeardSince(cfg, ops, id) && seqNo <= s)
      ==> ApplyAll(cfg, EMPTY, ops + [At(now, Leave(id, seqNo))]).view == ApplyAll(cfg, EMPTY, ops).view
  {
    ApplyAllStaysTidy(cfg, EMPTY, ops);
    StoredSeqIsMax(cfg, ops, id);
    ApplyAllSnoc(cfg, EMPTY, ops, At(now, Leave(id, seqNo)));
    var stored := ApplyAll(cfg, EMPTY, ops).view.peers[id].seqNo;
    assert stored in HeardSince(cfg, ops, id);
  }

  // ----- drain suppression

  /** The tombstone of `id` after one operation: a strictly newer leaving frame renews it. */
  function RenewedBy(cfg: Config, tomb: Tomb, t: Timed, id: Id): Tomb {
    if t.op.Leave? && t.op.id == id && t.op.seqNo > tomb.seqNo then Tomb(t.op.seqNo, t.now + Grace(cfg)) else tomb
  }

  function Renewed(cfg: Config, tomb: Tomb, ops: seq<Timed>, id: Id): Tomb {
    if ops == [] then tomb else RenewedBy(cfg, Renewed(cfg, tomb, ops[..|ops| - 1], id), Last(ops), id)
  }

  /** Nothing direct from `id`, and no reaping once its latest leaving frame is a grace period old. */
  predicate Quiet(cfg: Config, tomb: Tomb, ops: seq<Timed>, id: Id) {
    ops == [] || (
      && Quiet(cfg, tomb, ops[..|ops| - 1], id)
      && Holds(Renewed(cfg, tomb, ops[..|ops| - 1], id), Last(ops), id))
  }

  predicate Holds(tomb: Tomb, t: Timed, id: Id) {
    match t.op
    case Observe(e, direct) => !(direct && e.id == id)
    case Leave(_, _) => true
    case Reap => t.now < tomb.until
  }

  /** One operation ends the suppression of a tombstoned id exactly when it does not hold it. */
  lemma SuppressionEndsIff(cfg: Config, v: View, t: Timed, id: Id)
    requires Tidy(cfg, v) && id in v.tombs
    ensures var after := Apply(cfg, v, t).view;
      && (id in after.tombs <==> Holds(v.tombs[id], t, id))
      && (id in after.tombs ==> id !in after.peers && after.tombs[id] == RenewedBy(cfg, v.tombs[id], t, id))
  {
    ApplyStaysTidy(cfg, v, t);
    match t.op
    case Observe(e, direct) =>
    case Leave(_, _) =>
    case Reap =>
  }

  lemma {:induction false} QuietStaysSuppressed(cfg: Config, v: View, ops: seq<Timed>, id: Id)
    requires Tidy(cfg, v) && id in v.tombs && Quiet(cfg, v.tombs[id], ops, id)
    ensures var after := ApplyAll(cfg, v, ops).view;
      id !in after.peers && id in after.tombs && after.tombs[id] == Renewed(cfg, v.tombs[id], ops, id)
  {
    if ops != [] {
      var init := ops[..|ops| - 1];
      QuietStaysSuppressed(cfg, v, init, id);
      ApplyAllStaysTidy(cfg, v, init);
      SuppressionEndsIff(cfg, ApplyAll(cfg, v, init).view, Last(ops), id);
    }
  }

  /** A leaving frame that came in at `t` still counts: three gossip intervals, and never less than five seconds. */
  predicate Counts(cfg: Config, t: nat, now: nat) {
    now < t + 5_000 || now < t + 3 * (if cfg.interval == 0 then 2_000 else cfg.interval)
  }

  /** The number and time of the leaving frame that counts, after more of them: a strictly newer one replaces it. */
  function LatestLeave(seqNo: nat, t: nat, ops: seq<Timed>, id: Id): (nat, nat) {
    if ops == [] then (seqNo, t) else
      var (s, u) := LatestLeave(seqNo, t, ops[..|ops| - 1], id);
      var last := Last(ops);
      if last.op.Leave? && last.op.id == id && last.op.seqNo > s then (last.op.seqNo, last.now) else (s, u)
  }

  /** Nothing direct from `id`, and every reaping falls while its latest leaving frame counts. */
  predicate KeepsQuiet(cfg: Config, seqNo: nat, t: nat, ops: seq<Timed>, id: Id) {
    ops == [] || (
      var init, last := ops[..|ops| - 1], Last(ops);
      && KeepsQuiet(cfg, seqNo, t, init, id)
      && (last.op.Observe? && last.op.direct ==> last.op.entry.id != id)
      && (last.op.Reap? ==> Counts(cfg, LatestLeave(seqNo, t, init, id).1, last.now)))
  }

  lemma CountsIff(cfg: Config, t: nat, now: nat)
    ensures Counts(cfg, t, now) <==> now < t + Grace(cfg)
  {
  }

  lemma {:induction false} KeepsQuietIff(cfg: Config, seqNo: nat, t: nat, ops: seq<Timed>, id: Id)
    ensures var (s, u) := LatestLeave(seqNo, t, ops, id);
      Renewed(cfg, Tomb(seqNo, t + Grace(cfg)), ops, id) == Tomb(s, u + Grace(cfg))
    ensures KeepsQuiet(cfg, seqNo, t, ops, id) <==> Quiet(cfg, Tomb(seqNo, t + Grace(cfg)), ops, id)
  {
    if ops != [] {
      var init := ops[..|ops| - 1];
      KeepsQuietIff(cfg, seqNo, t, init, id);
      CountsIff(cfg, LatestLeave(seqNo, t, init, id).1, Last(ops).now);
    }
  }

  /** The leaving frame is accepted: the node is a peer and the frame is strictly newer. */
  predicate Evicts(v: View, left: Timed) {
    left.op.Leave? && left.op.id in v.peers && left.op.seqNo > v.peers[left.op.id].seqNo
  }

  lemma EvictedStaysOut(cfg: Config, pre: seq<Timed>, left: Timed, post: seq<Timed>)
    requires Evicts(ApplyAll(cfg, EMPTY, pre).view, left)
    requires KeepsQuiet(cfg, left.op.seqNo, left.now, post, left.op.id)
    ensures var v := ApplyAll(cfg, EMPTY, pre + [left] + post).view;
      && left.op.id != cfg.self && left.op.id !in v.peers && left.op.id in v.tombs
      && v.tombs[left.op.id].seqNo == LatestLeave(left.op.seqNo, left.now, post, left.op.id).0
      && v.tombs[left.op.id].until == LatestLeave(left.op.seqNo, left.now, post, left.op.id).1 + Grace(cfg)
  {
    KeepsQuietIff(cfg, left.op.seqNo, left.now, post, left.op.id);
    ApplyAllStaysTidy(cfg, EMPTY, pre);
    ApplyAllSnoc(cfg, EMPTY, pre, left);
    ApplyAllStaysTidy(cfg, EMPTY, pre + [left]);
    QuietStaysSuppressed(cfg, ApplyAll(cfg, EMPTY, pre + [left]).view, post, left.op.id);
    ApplyAllConcat(cfg, EMPTY, pre + [left], post);
  }

  /**
   * Drain suppression: a node evicted by a leaving frame stays out of the peers, and out of the published
   * list, for as long as it keeps quiet, whatever indirect gossip arrives.
   */
  lemma DrainSuppression(cfg: Config, evs: seq<Event>, pre: seq<Timed>, left: Timed, post: seq<Timed>)
    requires Trace(cfg, evs) == pre + [left] + post
    requires Evicts(ApplyAll(cfg, EMPTY, pre).view, left)
    requires KeepsQuiet(cfg, left.op.seqNo, left.now, post, left.op.id)
    ensures left.op.id !in Run(cfg, evs).view.peers
    ensures forall n :: n in Run(cfg, evs).topology ==> n.id != left.op.id
  {
    EvictedStaysOut(cfg, pre, left, post);
    RunFollowsTrace(cfg, evs);
    AbsentFromTopology(cfg, evs, left.op.id);
  }

  /**
   * And no longer than that: of the operations that may follow, exactly a reaping at which the latest leaving frame
   * no longer counts, or word from the node itself, lets gossip about the node in again.
   */
  lemma SuppressionLiftedIff(cfg: Config, pre: seq<Timed>, left: Timed, post: seq<Timed>, t: Timed)
    requires Evicts(ApplyAll(cfg, EMPTY, pre).view, left)
    requires KeepsQuiet(cfg, left.op.seqNo, left.now, post, left.op.id)
    ensures var id := left.op.id;
      id !in ApplyAll(cfg, EMPTY, pre + [left] + post + [t]).view.tombs <==>
        || (t.op.Reap? && !Counts(cfg, LatestLeave(left.op.seqNo, left.now, post, id).1, t.now))
        || (t.op.Observe? && t.op.direct && t.op.entry.id == id)
  {
    var all := pre + [left] + post;
    EvictedStaysOut(cfg, pre, left, post);
    ApplyAllStaysTidy(cfg, EMPTY, all);
    SuppressionEndsIff(cfg, ApplyAll(cfg, EMPTY, all).view, t, left.op.id);
    ApplyAllSnoc(cfg, EMPTY, all, t);
    CountsIff(cfg, LatestLeave(left.op.seqNo, left.now, post, left.op.id).1, t.now);
  }

  // ----- the same, event by event

  /** A frame of this cluster in which `id` speaks for itself and says it stays. */
  predicate SaysItStays(cfg: Config, ev: Event, id: Id) {
    ev.Heard? && ev.frame.cluster == cfg.cluster && ev.frame.sender == id && !ev.frame.leaving
  }

  /** A frame of this cluster in which `id` says it is leaving. */
  predicate SaysItLeaves(cfg: Config, ev: Event, id: Id) {
    ev.Heard? && ev.frame.cluster == cfg.cluster && ev.frame.sender == id && ev.frame.leaving
  }

  /** The number and time of the leaving frame that counts, after more events. */
  function LatestWord(cfg: Config, seqNo: nat, t: nat, evs: seq<Event>, id: Id): (nat, nat) {
    if evs == [] then (seqNo, t) else
      var (s, u) := LatestWord(cfg, seqNo, t, evs[..|evs| - 1], id);
      var last := Last(evs);
      if SaysItLeaves(cfg, last, id) && last.frame.seqNo > s then (last.frame.seqNo, last.now) else (s, u)
  }

  /** The node never says it stays, and every tick falls while its latest leaving frame counts. */
  predicate StaysAway(cfg: Config, seqNo: nat, t: nat, evs: seq<Event>, id: Id) {
    evs == [] || (
      var init, last := evs[..|evs| - 1], Last(evs);
      && StaysAway(cfg, seqNo, t, init, id) && !SaysItStays(cfg, last, id)
      && (last.Tick? ==> Counts(cfg, LatestWord(cfg, seqNo, t, init, id).1, last.now)))
  }

  /** What one event does to the maps: a tick reaps, a frame of this cluster is heard, anything else does nothing. */
  lemma EventOpsAre(cfg: Config, ev: Event)
    ensures ev.Tick? ==> EventOps(cfg, ev) == [At(ev.now, Reap)]
    ensures ev.Rejected? || (ev.Heard? && ev.frame.cluster != cfg.cluster) ==> EventOps(cfg, ev) == []
    ensures ev.Heard? && ev.frame.cluster == cfg.cluster ==>
      && EventOps(cfg, ev) == [EventOps(cfg, ev)[0]] + EntryOps(ev.frame.peers, ev.now, ev.ticks)
      && EventOps(cfg, ev)[0].now == ev.now
      && (if ev.frame.leaving then EventOps(cfg, ev)[0].op == Leave(ev.frame.sender, ev.frame.seqNo)
          else EventOps(cfg, ev)[0].op.Observe? && EventOps(cfg, ev)[0].op.direct
               && EventOps(cfg, ev)[0].op.entry.id == ev.frame.sender)
  {
  }

  /** Frames of another cluster, and frames that fail authentication, change nothing. */
  lemma ForeignFramesAreIgnored(cfg: Config, evs: seq<Event>, ev: Event)
    requires ev.Rejected? || (ev.Heard? && ev.frame.cluster != cfg.cluster)
    ensures Run(cfg, evs + [ev]) == Run(cfg, evs)
  {
    assert (evs + [ev])[..|evs|] == evs;
    EventOpsAre(cfg, ev);
  }

  lemma {:induction false} HearsayIsQuiet(cfg: Config, seqNo: nat, t: nat, ops: seq<Timed>, es: seq<Entry>, now: nat,
                                          ticks: seq<nat>, id: Id)
    requires KeepsQuiet(cfg, seqNo, t, ops, id)
    ensures KeepsQuiet(cfg, seqNo, t, ops + EntryOps(es, now, ticks), id)
    ensures LatestLeave(seqNo, t, ops + EntryOps(es, now, ticks), id) == LatestLeave(seqNo, t, ops, id)
  {
    if es == [] {
      assert ops + EntryOps(es, now, ticks) == ops;
    } else {
      var init := es[..|es| - 1];
      HearsayIsQuiet(cfg, seqNo, t, ops, init, now, ticks, id);
      var before := ops + EntryOps(init, now, ticks);
      var all := ops + EntryOps(es, now, ticks);
      SnocSplit(ops, EntryOps(es, now, ticks));
      assert EntryOps(es, now, ticks)[..|EntryOps(es, now, ticks)| - 1] == EntryOps(init, now, ticks);
      assert all[..|all| - 1] == before && Last(all) == Last(EntryOps(es, now, ticks));
    }
  }

  lemma OneOpMore(cfg: Config, seqNo: nat, t: nat, ops: seq<Timed>, op: Timed, id: Id)
    ensures KeepsQuiet(cfg, seqNo, t, ops + [op], id) <==>
      && KeepsQuiet(cfg, seqNo, t, ops, id)
      && (op.op.Observe? && op.op.direct ==> op.op.entry.id != id)
      && (op.op.Reap? ==> Counts(cfg, LatestLeave(seqNo, t, ops, id).1, op.now))
    ensures LatestLeave(seqNo, t, ops + [op], id) ==
      if op.op.Leave? && op.op.id == id && op.op.seqNo > LatestLeave(seqNo, t, ops, id).0 then (op.op.seqNo, op.now)
      else LatestLeave(seqNo, t, ops, id)
  {
    assert (ops + [op])[..|ops|] == ops;
  }

  lemma OneEventMore(cfg: Config, seqNo: nat, t: nat, ops: seq<Timed>, ev: Event, id: Id, s: nat, u: nat)
    requires KeepsQuiet(cfg, seqNo, t, ops, id) && LatestLeave(seqNo, t, ops, id) == (s, u)
    requires !SaysItStays(cfg, ev, id) && (ev.Tick? ==> Counts(cfg, u, ev.now))
    ensures KeepsQuiet(cfg, seqNo, t, ops + EventOps(cfg, ev), id)
    ensures LatestLeave(seqNo, t, ops + EventOps(cfg, ev), id) ==
      if SaysItLeaves(cfg, ev, id) && ev.frame.seqNo > s then (ev.frame.seqNo, ev.now) else (s, u)
  {
    EventOpsAre(cfg, ev);
    var done := EventOps(cfg, ev);
    if done == [] {
      assert ops + done == ops;
    } else {
      OneOpMore(cfg, seqNo, t, ops, done[0], id);
      if ev.Heard? {
        HearsayIsQuiet(cfg, seqNo, t, ops + [done[0]], ev.frame.peers, ev.now, ev.ticks, id);
        ConcatAssoc(ops, [done[0]], EntryOps(ev.frame.peers, ev.now, ev.ticks));
      } else {
        assert done == [done[0]];
      }
    }
  }

  lemma {:induction false} AwayIsQuiet(cfg: Config, seqNo: nat, t: nat, ops: seq<Timed>, evs: seq<Event>, id: Id)
    requires KeepsQuiet(cfg, seqNo, t, ops, id) && LatestLeave(seqNo, t, ops, id) == (seqNo, t)
    requires StaysAway(cfg, seqNo, t, evs, id)
    ensures KeepsQuiet(cfg, seqNo, t, ops + Trace(cfg, evs), id)
    ensures LatestLeave(seqNo, t, ops + Trace(cfg, evs), id) == LatestWord(cfg, seqNo, t, evs, id)
  {
    if evs == [] {
      assert ops + Trace(cfg, evs) == ops;
    } else {
      var init := evs[..|evs| - 1];
      AwayIsQuiet(cfg, seqNo, t, ops, init, id);
      var (s, u) := LatestWord(cfg, seqNo, t, init, id);
      OneEventMore(cfg, seqNo, t, ops + Trace(cfg, init), Last(evs), id, s, u);
      ConcatAssoc(ops, Trace(cfg, init), EventOps(cfg, Last(evs)));
    }
  }

  lemma {:induction false} TraceConcat(cfg: Config, a: seq<Event>, b: seq<Event>)
    ensures Trace(cfg, a + b) == Trace(cfg, a) + Trace(cfg, b)
  {
    if b == [] {
      assert a + b == a && Trace(cfg, a) + [] == Trace(cfg, a);
    } else {
      SnocSplit(a, b);
      TraceConcat(cfg, a, b[..|b| - 1]);
      assert (a + b)[..|a + b| - 1] == a + b[..|b| - 1];
      ConcatAssoc(Trace(cfg, a), Trace(cfg, b[..|b| - 1]), EventOps(cfg, Last(b)));
    }
  }

  lemma TraceOfOne(cfg: Config, ev: Event)
    ensures Trace(cfg, [ev]) == EventOps(cfg, ev)
  {
    assert [ev][..0] == [] && [] + EventOps(cfg, ev) == EventOps(cfg, ev);
  }

  /**
   * A member that hears a peer say, with a newer number, that it is leaving has it neither among its peers nor in
   * the published list from then on: until the node says it stays, or a tick falls after its latest leaving frame
   * has ceased to count, whatever other members say about it.
   */
  lemma LeavingNodeStaysOut(cfg: Config, pre: seq<Event>, left: Event, post: seq<Event>, id: Id)
    requires SaysItLeaves(cfg, left, id)
    requires id in Run(cfg, pre).view.peers && left.frame.seqNo > Run(cfg, pre).view.peers[id].seqNo
    requires StaysAway(cfg, left.frame.seqNo, left.now, post, id)
    ensures var m := Run(cfg, pre + [left] + post);
      id !in m.view.peers && forall n :: n in m.topology ==> n.id != id
  {
    var seqNo, t := left.frame.seqNo, left.now;
    var first := At(t, Leave(id, seqNo));
    var rest := EntryOps(left.frame.peers, t, left.ticks);
    EventOpsAre(cfg, left);
    RunFollowsTrace(cfg, pre);
    HearsayIsQuiet(cfg, seqNo, t, [], left.frame.peers, t, left.ticks, id);
    assert [] + rest == rest;
    AwayIsQuiet(cfg, seqNo, t, rest, post, id);
    LeavingTrace(cfg, pre, left, post, first, rest);
    DrainSuppression(cfg, pre + [left] + post, Trace(cfg, pre), first, rest + Trace(cfg, post));
  }

  lemma LeavingTrace(cfg: Config, pre: seq<Event>, left: Event, post: seq<Event>, first: Timed, rest: seq<Timed>)
    requires EventOps(cfg, left) == [first] + rest
    ensures Trace(cfg, pre + [left] + post) == Trace(cfg, pre) + [first] + (rest + Trace(cfg, post))
  {
    TraceConcat(cfg, pre + [left], post);
    TraceConcat(cfg, pre, [left]);
    TraceOfOne(cfg, left);
    ConcatAssoc(Trace(cfg, pre), [first], rest);
    ConcatAssoc(Trace(cfg, pre) + [first], rest, Trace(cfg, post));
  }

  lemma AbsentFromTopology(cfg: Config, evs: seq<Event>, id: Id)
    requires id != cfg.self && id !in Run(cfg, evs).view.peers
    ensures forall n :: n in Run(cfg, evs).topology ==> n.id != id
  {
    TopologyAlwaysCurrent(cfg, evs);
    forall n | n in Run(cfg, evs).topology
      ensures n.id != id
    {
      assert n in Elements(Run(cfg, evs).topology);
    }
  }

  // ----- silent nodes

  /** The operation is news of `c`, from itself or from another member. */
  predicate Naming(t: Timed, c: Id) {
    t.op.Observe? && t.op.entry.id == c
  }

  predicate NoneNames(ops: seq<Timed>, c: Id) {
    forall i :: 0 <= i < |ops| ==> !Naming(ops[i], c)
  }

  lemma ApplyKeepsAbsent(cfg: Config, v: View, t: Timed, c: Id)
    requires c !in v.peers && c !in v.tombs && !Naming(t, c)
    ensures c !in Apply(cfg, v, t).view.peers && c !in Apply(cfg, v, t).view.tombs
  {
  }

  /** A node in neither map stays in neither until something names it; its leaving frames are ignored. */
  lemma {:induction false} AbsentUntilNamed(cfg: Config, v: View, ops: seq<Timed>, c: Id)
    requires c !in v.peers && c !in v.tombs && NoneNames(ops, c)
    ensures c !in ApplyAll(cfg, v, ops).view.peers && c !in ApplyAll(cfg, v, ops).view.tombs
  {
    if ops != [] {
      var init := ops[..|ops| - 1];
      AbsentUntilNamed(cfg, v, init, c);
      ApplyKeepsAbsent(cfg, ApplyAll(cfg, v, init).view, ops[|ops| - 1], c);
    }
  }

  /** A node that is in neither map becomes a peer exactly when something names it. */
  lemma ReturnsIff(cfg: Config, v: View, ops: seq<Timed>, c: Id)
    requires c != cfg.self && c !in v.peers && c !in v.tombs
    ensures (exists j :: 0 <= j <= |ops| && c in ApplyAll(cfg, v, ops[..j]).view.peers) <==> !NoneNames(ops, c)
  {
    if NoneNames(ops, c) {
      forall j | 0 <= j <= |ops|
        ensures c !in ApplyAll(cfg, v, ops[..j]).view.peers
      {
        AbsentUntilNamed(cfg, v, ops[..j], c);
      }
    } else {
      var i := FirstNaming(ops, c);
      AbsentUntilNamed(cfg, v, ops[..i], c);
      assert ops[..i + 1] == ops[..i] + [ops[i]];
      ApplyAllSnoc(cfg, v, ops[..i], ops[i]);
      assert c in ApplyAll(cfg, v, ops[..i + 1]).view.peers;
    }
  }

  lemma {:induction false} FirstNaming(ops: seq<Timed>, c: Id) returns (i: nat)
    requires !NoneNames(ops, c)
    ensures i < |ops| && Naming(ops[i], c) && NoneNames(ops[..i], c)
  {
    i := 0;
    while !Naming(ops[i], c)
      invariant i < |ops| && NoneNames(ops[..i], c) && exists j :: i <= j < |ops| && Naming(ops[j], c)
      decreases |ops| - i
    {
      i := i + 1;
    }
  }

  /** More than the timeout, 30 seconds if none is set, has passed since `t`. */
  predicate Stale(cfg: Config, t: nat, now: nat) {
    now > t + (if cfg.timeout == 0 then 30_000 else cfg.timeout)
  }

  /** Nothing that would refresh or evict a peer stored with number `s` and last seen at `t`. */
  predicate Unrefreshed(cfg: Config, op: Timed, c: Id, s: nat, t: nat) {
    match op.op
    case Observe(e, direct) => e.id != c || (!direct && e.seqNo <= s)
    case Leave(id, seqNo) => id != c || seqNo <= s
    case Reap => !Stale(cfg, t, op.now)
  }

  lemma {:induction false} StaysAsStored(cfg: Config, v: View, ops: seq<Timed>, c: Id)
    requires Tidy(cfg, v) && c in v.peers
    requires forall i :: 0 <= i < |ops| ==> Unrefreshed(cfg, ops[i], c, v.peers[c].seqNo, v.peers[c].lastSeen)
    ensures c in ApplyAll(cfg, v, ops).view.peers && ApplyAll(cfg, v, ops).view.peers[c] == v.peers[c]
  {
    if ops != [] {
      StaysAsStored(cfg, v, ops[..|ops| - 1], c);
      assert Unrefreshed(cfg, ops[|ops| - 1], c, v.peers[c].seqNo, v.peers[c].lastSeen);
    }
  }

  /** A peer goes at a reaping exactly when that is later than its last refresh plus the timeout. */
  lemma ReapingDropsIff(cfg: Config, v: View, reap: Timed, c: Id)
    requires Tidy(cfg, v) && c in v.peers && reap.op.Reap?
    ensures c !in Apply(cfg, v, reap).view.peers <==> Stale(cfg, v.peers[c].lastSeen, reap.now)
    ensures c !in Apply(cfg, v, reap).view.tombs
  {
  }

  /** A run in which `c` was last refreshed before `quiet` and expires at `reap`. */
  ghost predicate Expires(cfg: Config, pre: seq<Timed>, quiet: seq<Timed>, reap: Timed, c: Id) {
    var v := ApplyAll(cfg, EMPTY, pre).view;
    && c in v.peers && reap.op.Reap? && Stale(cfg, v.peers[c].lastSeen, reap.now)
    && forall i :: 0 <= i < |quiet| ==> Unrefreshed(cfg, quiet[i], c, v.peers[c].seqNo, v.peers[c].lastSeen)
  }

  lemma ExpiredIsGone(cfg: Config, pre: seq<Timed>, quiet: seq<Timed>, reap: Timed, c: Id)
    requires Expires(cfg, pre, quiet, reap, c)
    ensures c != cfg.self && c in ApplyAll(cfg, EMPTY, pre + quiet).view.peers
    ensures var v := ApplyAll(cfg, EMPTY, pre + quiet + [reap]).view;
      c !in v.peers && c !in v.tombs
  {
    var v := ApplyAll(cfg, EMPTY, pre).view;
    ApplyAllStaysTidy(cfg, EMPTY, pre);
    StaysAsStored(cfg, v, quiet, c);
    ApplyAllConcat(cfg, EMPTY, pre, quiet);
    ApplyAllStaysTidy(cfg, EMPTY, pre + quiet);
    ReapingDropsIff(cfg, ApplyAll(cfg, EMPTY, pre + quiet).view, reap, c);
    ApplyAllSnoc(cfg, EMPTY, pre + quiet, reap);
  }

  /**
   * Crashed nodes: once the timeout after its last refresh has passed, the next reaping drops a node, and it stays
   * out, through every state of the rest of the run, exactly when nothing in the rest names it.
   */
  lemma CrashedNodeStaysGoneIff(cfg: Config, pre: seq<Timed>, quiet: seq<Timed>, reap: Timed, post: seq<Timed>, c: Id)
    requires Expires(cfg, pre, quiet, reap, c)
    ensures (forall j :: 0 <= j <= |post| ==> c !in ApplyAll(cfg, EMPTY, pre + quiet + [reap] + post[..j]).view.peers)
      <==> NoneNames(post, c)
  {
    var before := pre + quiet + [reap];
    var v := ApplyAll(cfg, EMPTY, before).view;
    ExpiredIsGone(cfg, pre, quiet, reap, c);
    ReturnsIff(cfg, v, post, c);
    forall j | 0 <= j <= |post|
      ensures ApplyAll(cfg, EMPTY, before + post[..j]).view == ApplyAll(cfg, v, post[..j]).view
    {
      ApplyAllConcat(cfg, EMPTY, before, post[..j]);
    }
    if !NoneNames(post, c) {
      var j :| 0 <= j <= |post| && c in ApplyAll(cfg, v, post[..j]).view.peers;
      assert c in ApplyAll(cfg, EMPTY, before + post[..j]).view.peers;
    }
  }

  /** Over runs: a crashed node that nobody names any more is in neither the peers nor the published list. */
  lemma CrashedNodeGoes(cfg: Config, evs: seq<Event>, pre: seq<Timed>, quiet: seq<Timed>, reap: Timed,
                        post: seq<Timed>, c: Id)
    requires Trace(cfg, evs) == pre + quiet + [reap] + post
    requires Expires(cfg, pre, quiet, reap, c) && NoneNames(post, c)
    ensures c !in Run(cfg, evs).view.peers && forall n :: n in Run(cfg, evs).topology ==> n.id != c
  {
    ExpiredIsGone(cfg, pre, quiet, reap, c);
    CrashedNodeStaysGoneIff(cfg, pre, quiet, reap, post, c);
    assert post[..|post|] == post;
    assert c !in ApplyAll(cfg, EMPTY, pre + quiet + [reap] + post[..|post|]).view.peers;
    RunFollowsTrace(cfg, evs);
    AbsentFromTopology(cfg, evs, c);
  }
}
