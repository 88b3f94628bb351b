/** Gossip membership: who is believed alive, who is suppressed after leaving, and the node list published. */
module Gossip {
  import opened Binary
  import opened Sequences
  import opened Nodes

  /** Times are milliseconds on the member's own clock. */
  datatype Peer = Peer(id: Id, turn: Addr, gossip: Addr, seqNo: nat, lastSeen: nat)
  datatype Tomb = Tomb(seqNo: nat, until: nat)
  datatype View = View(peers: map<Id, Peer>, tombs: map<Id, Tomb>)

  datatype Entry = Entry(id: Id, turn: Addr, gossip: Addr, seqNo: nat)
  datatype Frame = Frame(cluster: string, sender: Id, turn: Addr, seqNo: nat, advertise: Addr,
                         peers: seq<Entry>, leaving: bool)

  datatype Config = Config(cluster: string, self: Id, turn: Addr, interval: nat, timeout: nat)

  const EMPTY := View(map[], map[])

  function Interval(cfg: Config): nat { if cfg.interval == 0 then 2_000 else cfg.interval }

  function Timeout(cfg: Config): nat { if cfg.timeout == 0 then 30_000 else cfg.timeout }

  function Grace(cfg: Config): nat { Max(3 * Interval(cfg), 5_000) }

  /** The advertised endpoint when it is usable, else where the packet came from. */
  function EffectiveAddr(advertised: Addr, src: Addr): Addr {
    if advertised.ip == 0 || advertised.port == 0 then src else advertised
  }

  // ----- single operations on the two maps

  datatype Outcome = Outcome(view: View, changed: bool)

  /** Record news of a peer: a newer sequence number, or word from the peer itself, replaces what is stored. */
  function Upsert(peers: map<Id, Peer>, e: Entry, direct: bool, now: nat): (map<Id, Peer>, bool) {
    if e.id !in peers then
      (peers[e.id := Peer(e.id, e.turn, e.gossip, e.seqNo, now)], true)
    else
      var node := peers[e.id];
      if e.seqNo > node.seqNo || direct then
        (peers[e.id := Peer(node.id, e.turn, e.gossip, Max(e.seqNo, node.seqNo), now)], node.turn != e.turn)
      else
        (peers, false)
  }

  function Observed(self: Id, v: View, e: Entry, direct: bool, now: nat): Outcome {
    if e.id == self || (!direct && e.id in v.tombs) then Outcome(v, false)
    else
      var (peers, changed) := Upsert(v.peers, e, direct, now);
      Outcome(View(peers, v.tombs - {e.id}), changed)
  }

  /** A leaving frame evicts a live peer, or extends its tombstone, only with a strictly newer sequence number. */
  function Departed(self: Id, v: View, id: Id, seqNo: nat, now: nat, grace: nat): Outcome {
    if id == self then Outcome(v, false)
    else if id in v.peers then
      if seqNo > v.peers[id].seqNo
      then Outcome(View(v.peers - {id}, v.tombs[id := Tomb(seqNo, now + grace)]), true)
      else Outcome(v, false)
    else if id in v.tombs && seqNo > v.tombs[id].seqNo
    then Outcome(v.(tombs := v.tombs[id := Tomb(seqNo, now + grace)]), false)
    else Outcome(v, false)
  }

  function Reaped(v: View, now: nat, timeout: nat): Outcome {
    var peers := map id | id in v.peers && now <= v.peers[id].lastSeen + timeout :: v.peers[id];
    var tombs := map id | id in v.tombs && v.tombs[id].until > now :: v.tombs[id];
    Outcome(View(peers, tombs), |peers| != |v.peers|)
  }

  datatype Op = Observe(entry: Entry, direct: bool) | Leave(id: Id, seqNo: nat) | Reap
  datatype Timed = At(now: nat, op: Op)

  function Apply(cfg: Config, v: View, t: Timed): Outcome {
    match t.op
    case Observe(e, direct) => Observed(cfg.self, v, e, direct, t.now)
    case Leave(id, seqNo) => Departed(cfg.self, v, id, seqNo, t.now, Grace(cfg))
    case Reap => Reaped(v, t.now, Timeout(cfg))
  }

  function ApplyAll(cfg: Config, v: View, ops: seq<Timed>): Outcome {
    if ops == [] then Outcome(v, false) else
      var before := ApplyAll(cfg, v, ops[..|ops| - 1]);
      var last := Apply(cfg, before.view, Last(ops));
      Outcome(last.view, before.changed || last.changed)
  }

  // ----- events of the gossip loop

  datatype Event =
    | Tick(now: nat)
    | Heard(frame: Frame, src: Addr, now: nat, ticks: seq<nat>)
    | Rejected

  /** The clock as read for entry `i` of a frame: `ticks` lists the readings after the first one. */
  function ClockAt(now: nat, ticks: seq<nat>, i: nat): nat {
    if i < |ticks| then ticks[i] else now
  }

  function EntryOps(es: seq<Entry>, now: nat, ticks: seq<nat>): seq<Timed> {
    if es == [] then []
    else EntryOps(es[..|es| - 1], now, ticks) + [At(ClockAt(now, ticks, |es| - 1), Observe(Last(es), false))]
  }

  function SenderOp(f: Frame, src: Addr, now: nat): Timed {
    At(now, if f.leaving then Leave(f.sender, f.seqNo)
            else Observe(Entry(f.sender, f.turn, EffectiveAddr(f.advertise, src), f.seqNo), true))
  }

  /** What an event does to the maps; frames that fail authentication or name another cluster do nothing. */
  function EventOps(cfg: Config, ev: Event): seq<Timed> {
    match ev
    case Tick(now) => [At(now, Reap)]
    case Heard(f, src, now, ticks) =>
      if f.cluster != cfg.cluster then [] else [SenderOp(f, src, now)] + EntryOps(f.peers, now, ticks)
    case Rejected => []
  }

  // ----- the published node list

  datatype Member = Member(view: View, topology: seq<ClusterNode>, delivered: seq<seq<ClusterNode>>)

  function Self(cfg: Config): ClusterNode { ClusterNode(cfg.self, cfg.turn) }

  function NodeOf(p: Peer): ClusterNode { ClusterNode(p.id, p.turn) }

  /** The nodes a list of the peers names, in that order. */
  function NodesOf(peers: map<Id, Peer>, order: seq<Id>): seq<ClusterNode>
    requires forall i :: 0 <= i < |order| ==> order[i] in peers
  {
    seq(|order|, i requires 0 <= i < |order| => NodeOf(peers[order[i]]))
  }

  /** One way of walking through a map: every key once. */
  ghost predicate Walks(order: seq<Id>, peers: map<Id, Peer>) {
    && Distinct(order)
    && forall id :: id in order <==> id in peers
  }

  /** The same list for every walk through the map. */
  ghost predicate IsTopology(cfg: Config, peers: map<Id, Peer>, nodes: seq<ClusterNode>) {
    Sorted(nodes) && Elements(nodes) == Roster(cfg, peers)
  }

  ghost function Roster(cfg: Config, peers: map<Id, Peer>): set<ClusterNode> {
    {Self(cfg)} + set id | id in peers :: NodeOf(peers[id])
  }

  ghost predicate Keyed(peers: map<Id, Peer>) {
    forall id :: id in peers ==> peers[id].id == id
  }

  lemma WalkIsWithin(peers: map<Id, Peer>, order: seq<Id>)
    requires Walks(order, peers)
    ensures forall i :: 0 <= i < |order| ==> order[i] in peers
  {
    assert forall i :: 0 <= i < |order| ==> order[i] in order;
  }

  /** Sorting and deduplicating self and the peers yields the topology, whatever the walk; the dedup drops nothing. */
  lemma AnyWalkGivesTopology(cfg: Config, peers: map<Id, Peer>, order: seq<Id>, nodes: seq<ClusterNode>)
    requires Keyed(peers) && cfg.self !in peers && Walks(order, peers)
    requires forall i :: 0 <= i < |order| ==> order[i] in peers
    requires nodes == [Self(cfg)] + NodesOf(peers, order)
    ensures IsTopology(cfg, peers, Normalize(nodes))
    ensures Normalize(nodes) == Sort(nodes) && |Normalize(nodes)| == |order| + 1
  {
    CollectedInOrder(cfg, peers, order, nodes);
    WalkedNodes(cfg, peers, order, nodes);
    NormalizeDistinct(nodes);
  }

  ghost predicate InOrder(cfg: Config, peers: map<Id, Peer>, order: seq<Id>, nodes: seq<ClusterNode>) {
    && |nodes| == |order| + 1 && nodes[0] == Self(cfg)
    && forall i :: 0 <= i < |order| ==> order[i] in peers && nodes[i + 1] == NodeOf(peers[order[i]])
  }

  lemma CollectedInOrder(cfg: Config, peers: map<Id, Peer>, order: seq<Id>, nodes: seq<ClusterNode>)
    requires forall i :: 0 <= i < |order| ==> order[i] in peers
    requires nodes == [Self(cfg)] + NodesOf(peers, order)
    ensures InOrder(cfg, peers, order, nodes)
  {
    forall i | 0 <= i < |order|
      ensures nodes[i + 1] == NodeOf(peers[order[i]])
    {
      assert nodes[i + 1] == NodesOf(peers, order)[i];
    }
  }

  lemma WalkedNodes(cfg: Config, peers: map<Id, Peer>, order: seq<Id>, nodes: seq<ClusterNode>)
    requires Keyed(peers) && cfg.self !in peers && Walks(order, peers) && InOrder(cfg, peers, order, nodes)
    ensures DistinctIds(nodes) && Elements(nodes) == Roster(cfg, peers)
  {
    forall i, j | 0 <= i < j < |nodes|
      ensures nodes[i].id != nodes[j].id
    {
      assert nodes[j] == NodeOf(peers[order[j - 1]]);
      if i > 0 {
        assert nodes[i] == NodeOf(peers[order[i - 1]]);
      }
    }
    forall n
      ensures n in Elements(nodes) <==> n in Roster(cfg, peers)
    {
      if n in Elements(nodes) {
        var i :| 0 <= i < |nodes| && nodes[i] == n;
        assert i > 0 ==> nodes[i] == NodeOf(peers[order[i - 1]]);
      }
      if n in Roster(cfg, peers) && n != Self(cfg) {
        var id :| id in peers && n == NodeOf(peers[id]);
        var i :| 0 <= i < |order| && order[i] == id;
        assert nodes[i + 1] == n;
      }
    }
  }

  /** There is only one topology. */
  lemma TopologyUnique(cfg: Config, peers: map<Id, Peer>, a: seq<ClusterNode>, b: seq<ClusterNode>)
    requires IsTopology(cfg, peers, a) && IsTopology(cfg, peers, b)
    ensures a == b
  {
    SortedUnique(a, b);
  }

  /** A walk through the map, so that a topology can be named. */
  ghost function SomeWalk(keys: set<Id>): (order: seq<Id>)
    ensures Distinct(order) && forall id :: id in order <==> id in keys
  {
    if keys == {} then [] else
      var id :| id in keys;
      SomeWalk(keys - {id}) + [id]
  }

  ghost function TopologyOf(cfg: Config, peers: map<Id, Peer>): seq<ClusterNode> {
    Normalize([Self(cfg)] + NodesOf(peers, SomeWalk(peers.Keys)))
  }

  lemma TopologyOfIs(cfg: Config, peers: map<Id, Peer>)
    requires Keyed(peers) && cfg.self !in peers
    ensures IsTopology(cfg, peers, TopologyOf(cfg, peers)) && |TopologyOf(cfg, peers)| == |peers| + 1
  {
    var order := SomeWalk(peers.Keys);
    WalkIsWithin(peers, order);
    AnyWalkGivesTopology(cfg, peers, order, [Self(cfg)] + NodesOf(peers, order));
    WalkLength(peers, order);
  }

  lemma WalkLength(peers: map<Id, Peer>, order: seq<Id>)
    requires Walks(order, peers)
    ensures |order| == |peers|
  {
    DistinctSize(order);
    assert Elements(order) == peers.Keys;
  }

  lemma {:induction false} DistinctSize(s: seq<Id>)
    requires Distinct(s)
    ensures |Elements(s)| == |s|
  {
    if s != [] {
      var t := s[..|s| - 1];
      DistinctSize(t);
      assert Elements(s) == Elements(t) + {Last(s)};
      assert Last(s) !in Elements(t);
    }
  }

  // ----- whole steps

  /** Publish: remember and deliver the topology if it differs from the one published last. */
  ghost function Published(cfg: Config, m: Member): Member {
    var nodes := TopologyOf(cfg, m.view.peers);
    if nodes == m.topology then m else Member(m.view, nodes, m.delivered + [nodes])
  }

  ghost function Start(cfg: Config): Member {
    Published(cfg, Member(EMPTY, [], []))
  }

  ghost function Step(cfg: Config, m: Member, ev: Event): Member {
    var o := ApplyAll(cfg, m.view, EventOps(cfg, ev));
    if o.changed then Published(cfg, m.(view := o.view)) else m.(view := o.view)
  }

  /** The local id is in neither map, nobody is both alive and suppressed, and peers are filed under their own id. */
  ghost predicate Tidy(cfg: Config, v: View) {
    && cfg.self !in v.peers && cfg.self !in v.tombs
    && v.peers.Keys !! v.tombs.Keys
    && Keyed(v.peers)
  }

  lemma ApplyStaysTidy(cfg: Config, v: View, t: Timed)
    requires Tidy(cfg, v)
    ensures Tidy(cfg, Apply(cfg, v, t).view)
  {
    match t.op
    case Observe(e, direct) => ObservedStaysTidy(cfg, v, e, direct, t.now);
    case Leave(id, seqNo) =>
    case Reap =>
  }

  lemma ObservedStaysTidy(cfg: Config, v: View, e: Entry, direct: bool, now: nat)
    requires Tidy(cfg, v)
    ensures Tidy(cfg, Observed(cfg.self, v, e, direct, now).view)
  {
  }

  lemma {:induction false} ApplyAllStaysTidy(cfg: Config, v: View, ops: seq<Timed>)
    requires Tidy(cfg, v)
    ensures Tidy(cfg, ApplyAll(cfg, v, ops).view)
  {
    if ops != [] {
      ApplyAllStaysTidy(cfg, v, ops[..|ops| - 1]);
      ApplyStaysTidy(cfg, ApplyAll(cfg, v, ops[..|ops| - 1]).view, Last(ops));
    }
  }

  lemma ApplyAllSnoc(cfg: Config, v: View, ops: seq<Timed>, t: Timed)
    ensures ApplyAll(cfg, v, ops + [t]) ==
      var before := ApplyAll(cfg, v, ops);
      var last := Apply(cfg, before.view, t);
      Outcome(last.view, before.changed || last.changed)
  {
    assert (ops + [t])[..|ops|] == ops;
  }

  lemma {:induction false} ApplyAllFirst(cfg: Config, v: View, t: Timed, ops: seq<Timed>)
    ensures ApplyAll(cfg, v, [t] + ops) ==
      var first := Apply(cfg, v, t);
      var rest := ApplyAll(cfg, first.view, ops);
      Outcome(rest.view, first.changed || rest.changed)
  {
    if ops == [] {
      assert [t] + ops == [] + [t];
      ApplyAllSnoc(cfg, v, [], t);
    } else {
      var init := ops[..|ops| - 1];
      ApplyAllFirst(cfg, v, t, init);
      assert [t] + ops == ([t] + init) + [Last(ops)];
      ApplyAllSnoc(cfg, v, [t] + init, Last(ops));
    }
  }

  lemma EntryOpsNext(cfg: Config, v: View, es: seq<Entry>, i: nat, now: nat, ticks: seq<nat>)
    requires i < |es|
    ensures ApplyAll(cfg, v, EntryOps(es[..i + 1], now, ticks)) ==
      var before := ApplyAll(cfg, v, EntryOps(es[..i], now, ticks));
      var last := Observed(cfg.self, before.view, es[i], false, ClockAt(now, ticks, i));
      Outcome(last.view, before.changed || last.changed)
  {
    assert es[..i + 1][..i] == es[..i];
    ApplyAllSnoc(cfg, v, EntryOps(es[..i], now, ticks), At(ClockAt(now, ticks, i), Observe(es[i], false)));
  }

  /** The state the gossip loop owns, changed in place by each event. */
  class GossipMember {
    const cfg: Config
    var peers: map<Id, Peer>
    var tombs: map<Id, Tomb>
    var topology: seq<ClusterNode>
    var delivered: seq<seq<ClusterNode>>

    ghost function Maps(): View
      reads this
    {
      View(peers, tombs)
    }

    ghost function State(): Member
      reads this
    {
      Member(Maps(), topology, delivered)
    }

    ghost predicate Valid()
      reads this
    {
      Tidy(cfg, Maps())
    }

    constructor (config: Config)
      ensures cfg == config && Valid() && State() == Start(config)
    {
      cfg := config;
      peers, tombs, topology, delivered := map[], map[], [], [];
      new;
      PublishTopology();
    }

    method ObservePeer(e: Entry, direct: bool, now: nat) returns (changed: bool)
      requires Valid()
      modifies this`peers, this`tombs
      ensures Valid() && Outcome(Maps(), changed) == old(Observed(cfg.self, Maps(), e, direct, now))
    {
      if e.id == cfg.self {
        return false;
      }
      if direct {
        tombs := tombs - {e.id};
      } else if e.id in tombs {
        return false;
      }
      assert tombs == old(tombs) - {e.id};
      changed := false;
      if e.id in peers {
        var node := peers[e.id];
        if e.seqNo > node.seqNo || direct {
          if node.turn != e.turn {
            node := node.(turn := e.turn);
            changed := true;
          }
          node := node.(gossip := e.gossip);
          if e.seqNo > node.seqNo {
            node := node.(seqNo := e.seqNo, lastSeen := now);
          } else if direct {
            node := node.(lastSeen := now);
          }
          peers := peers[e.id := node];
        }
      } else {
        peers := peers[e.id := Peer(e.id, e.turn, e.gossip, e.seqNo, now)];
        changed := true;
      }
    }

    method ApplyLeaving(id: Id, seqNo: nat, now: nat) returns (changed: bool)
      requires Valid()
      modifies this`peers, this`tombs
      ensures Valid() && Outcome(Maps(), changed) == old(Departed(cfg.self, Maps(), id, seqNo, now, Grace(cfg)))
    {
      if id == cfg.self {
        return false;
      }
      if id in peers {
        if seqNo > peers[id].seqNo {
          peers := peers - {id};
          tombs := tombs[id := Tomb(seqNo, now + Grace(cfg))];
          return true;
        }
        return false;
      }
      if id in tombs && seqNo > tombs[id].seqNo {
        tombs := tombs[id := Tomb(seqNo, now + Grace(cfg))];
      }
      return false;
    }

    /** Collects self and the peers in whatever order the map yields them. */
    method CollectNodes() returns (nodes: seq<ClusterNode>)
      requires Valid()
      ensures IsTopology(cfg, peers, Normalize(nodes))
    {
      nodes := [Self(cfg)];
      var left := peers.Keys;
      ghost var order: seq<Id> := [];
      while left != {}
        invariant left <= peers.Keys && Distinct(order)
        invariant forall id :: id in order <==> id in peers && id !in left
        invariant forall i :: 0 <= i < |order| ==> order[i] in peers
        invariant nodes == [Self(cfg)] + NodesOf(peers, order)
      {
        var id :| id in left;
        assert NodesOf(peers, order + [id]) == NodesOf(peers, order) + [NodeOf(peers[id])];
        nodes, left := nodes + [NodeOf(peers[id])], left - {id};
        order := order + [id];
      }
      AnyWalkGivesTopology(cfg, peers, order, nodes);
    }

    method PublishTopology()
      requires Valid()
      modifies this`topology, this`delivered
      ensures State() == old(Published(cfg, State()))
      ensures IsTopology(cfg, peers, topology)
    {
      var nodes := CollectNodes();
      nodes := Normalize(nodes);
      TopologyOfIs(cfg, peers);
      TopologyUnique(cfg, peers, nodes, TopologyOf(cfg, peers));
      if nodes != topology {
        topology := nodes;
        delivered := delivered + [nodes];
      }
    }

    method HandleTick(now: nat)
      requires Valid()
      modifies this
      ensures Valid() && State() == old(Step(cfg, State(), Tick(now)))
    {
      var before := |peers|;
      peers := map id | id in peers && now <= peers[id].lastSeen + Timeout(cfg) :: peers[id];
      tombs := map id | id in tombs && tombs[id].until > now :: tombs[id];
      assert Outcome(Maps(), |peers| != before) == Apply(cfg, old(Maps()), At(now, Reap));
      ApplyStaysTidy(cfg, old(Maps()), At(now, Reap));
      ApplyAllSnoc(cfg, old(Maps()), [], At(now, Reap));
      if |peers| != before {
        PublishTopology();
      }
    }

    /** Each entry is observed at the clock reading of its own. */
    method ObserveAll(es: seq<Entry>, now: nat, ticks: seq<nat>) returns (changed: bool)
      requires Valid()
      modifies this`peers, this`tombs
      ensures Valid() && Outcome(Maps(), changed) == old(ApplyAll(cfg, Maps(), EntryOps(es, now, ticks)))
    {
      changed := false;
      for i := 0 to |es|
        invariant Valid()
        invariant Outcome(Maps(), changed) == ApplyAll(cfg, old(Maps()), EntryOps(es[..i], now, ticks))
      {
        var more := ObservePeer(es[i], false, ClockAt(now, ticks, i));
        changed := changed || more;
        EntryOpsNext(cfg, old(Maps()), es, i, now, ticks);
      }
      assert es[..|es|] == es;
    }

    method HandleFrame(f: Frame, src: Addr, now: nat, ticks: seq<nat>)
      requires Valid()
      modifies this
      ensures Valid() && State() == old(Step(cfg, State(), Heard(f, src, now, ticks)))
    {
      if f.cluster != cfg.cluster {
        return;
      }
      var changed;
      if f.leaving {
        changed := ApplyLeaving(f.sender, f.seqNo, now);
      } else {
        changed := ObservePeer(Entry(f.sender, f.turn, EffectiveAddr(f.advertise, src), f.seqNo), true, now);
      }
      assert Outcome(Maps(), changed) == Apply(cfg, old(Maps()), SenderOp(f, src, now));
      var more := ObserveAll(f.peers, now, ticks);
      ApplyAllFirst(cfg, old(Maps()), SenderOp(f, src, now), EntryOps(f.peers, now, ticks));
      if changed || more {
        PublishTopology();
      }
    }
  }
}
