/** When two members that hear one frame from each other come to agree on every other node, and so on every owner. */
module Convergence {
  import opened Wrappers
  import opened Sequences
  import opened Nodes
  import opened Gossip
  import opened AntiEntropy
  import R = GossipRuns
  import C = ClusterRouting
  import H = HashRing

  function Hears(cfg: Config, v: View, f: Frame, src: Addr, now: nat, ticks: seq<nat>): View {
    ApplyAll(cfg, v, EventOps(cfg, Heard(f, src, now, ticks))).view
  }

  /** An address that can be sent to: neither its host nor its port is left open. */
  predicate Usable(a: Addr) {
    a.ip > 0 && a.port > 0
  }

  /** The sender's entry for `id` is taken over: not suppressed, and newer than what is stored if anything is. */
  predicate Newer(v: View, theirs: View, id: Id) {
    && id in theirs.peers && id !in v.tombs
    && (id in v.peers ==> theirs.peers[id].seqNo > v.peers[id].seqNo)
  }

  /**
   * What hearing a member's periodic frame does: news of third nodes, and the sender itself at its own address and
   * at the gossip address it advertises, or the one the frame came from if that is unusable.
   */
  lemma HearGives(cfg: Config, v: View, other: Config, theirs: View, f: Frame, src: Addr, now: nat, ticks: seq<nat>,
                  id: Id)
    requires Tidy(cfg, v) && Tidy(other, theirs) && cfg.cluster == other.cluster && cfg.self != other.self
    requires FrameFrom(other, theirs, f) && id != cfg.self
    ensures var after := Hears(cfg, v, f, src, now, ticks);
      && Tidy(cfg, after) && after.tombs == v.tombs - {other.self}
      && (if id == other.self then
            && Known(after, id).Some? && Known(after, id).value.turn == other.turn
            && Known(after, id).value.gossip == (if Usable(f.advertise) then f.advertise else src)
          else Known(after, id) == Known(if Newer(v, theirs, id) then theirs else v, id))
  {
    var first := SenderOp(f, src, now);
    var mid := Apply(cfg, v, first).view;
    ApplyStaysTidy(cfg, v, first);
    ApplyAllFirst(cfg, v, first, EntryOps(f.peers, now, ticks));
    ApplyAllStaysTidy(cfg, mid, EntryOps(f.peers, now, ticks));
    MergeGivesExpected(cfg, mid, f.peers, now, ticks, id);
    WinnerIs(f.peers, id);
    if id in theirs.peers {
      assert EntryOf(theirs.peers[id]) in f.peers;
    }
  }

  /** Neither member has a tombstone for a node the other counts as a peer, and equal numbers mean equal facts. */
  predicate Reconcilable(va: View, vb: View, id: Id) {
    && (id in va.tombs ==> id !in vb.peers) && (id in vb.tombs ==> id !in va.peers)
    && (id in va.peers && id in vb.peers && va.peers[id].seqNo == vb.peers[id].seqNo ==> Known(va, id) == Known(vb, id))
  }

  /** One frame each way leaves both members knowing the same of a third node exactly when that is reconcilable. */
  lemma ExchangeConvergesIff(a: Config, b: Config, va: View, vb: View, toA: Frame, toB: Frame,
                             srcA: Addr, srcB: Addr, ta: nat, tb: nat, ticksA: seq<nat>, ticksB: seq<nat>, id: Id)
    requires Tidy(a, va) && Tidy(b, vb) && a.cluster == b.cluster && a.self != b.self
    requires id != a.self && id != b.self
    requires FrameFrom(b, vb, toA) && FrameFrom(a, Hears(a, va, toA, srcA, ta, ticksA), toB)
    ensures Known(Hears(a, va, toA, srcA, ta, ticksA), id) == Known(Hears(b, vb, toB, srcB, tb, ticksB), id)
      <==> Reconcilable(va, vb, id)
  {
    var va' := Hears(a, va, toA, srcA, ta, ticksA);
    HearGives(a, va, b, vb, toA, srcA, ta, ticksA, id);
    HearGives(b, vb, a, va', toB, srcB, tb, ticksB, id);
  }

  // ----- and so on the roster

  /** Members that list each other at their own addresses and agree on every third node have one roster. */
  lemma AgreeingRosters(a: Config, b: Config, va: View, vb: View)
    requires Tidy(a, va) && Tidy(b, vb) && a.self != b.self
    requires Known(va, b.self).Some? && Known(va, b.self).value.turn == b.turn
    requires Known(vb, a.self).Some? && Known(vb, a.self).value.turn == a.turn
    requires forall id :: id != a.self && id != b.self ==> Known(va, id) == Known(vb, id)
    ensures Roster(a, va.peers) == Roster(b, vb.peers)
  {
    RosterWithin(a, b, va, vb);
    RosterWithin(b, a, vb, va);
  }

  lemma RosterWithin(a: Config, b: Config, va: View, vb: View)
    requires Tidy(a, va) && Tidy(b, vb)
    requires Known(va, b.self).Some? && Known(va, b.self).value.turn == b.turn
    requires Known(vb, a.self).Some? && Known(vb, a.self).value.turn == a.turn
    requires forall id :: id != a.self && id != b.self ==> Known(va, id) == Known(vb, id)
    ensures Roster(a, va.peers) <= Roster(b, vb.peers)
  {
    forall n | n in Roster(a, va.peers)
      ensures n in Roster(b, vb.peers)
    {
      if n == Self(a) {
        assert n == NodeOf(vb.peers[a.self]);
      } else {
        var id :| id in va.peers && n == NodeOf(va.peers[id]);
        if id == b.self {
          assert n == Self(b);
        } else {
          assert Known(va, id) == Known(vb, id);
          assert n == NodeOf(vb.peers[id]);
        }
      }
    }
  }

  lemma RunHears(cfg: Config, evs: seq<Event>, f: Frame, src: Addr, now: nat, ticks: seq<nat>)
    ensures R.Run(cfg, evs + [Heard(f, src, now, ticks)]).view == Hears(cfg, R.Run(cfg, evs).view, f, src, now, ticks)
  {
    var all := evs + [Heard(f, src, now, ticks)];
    assert all[..|evs|] == evs;
  }

  /**
   * Whatever two members went through: once each has heard one frame of the other, and if what they believed before
   * can be reconciled, they count the same nodes as alive and give every key the same owner.
   */
  lemma ExchangeAgreesOnOwners(score: H.Score, key: H.Key, a: Config, evsA: seq<Event>, b: Config, evsB: seq<Event>,
                               toA: Event, toB: Event)
    requires a.cluster == b.cluster && a.self != b.self && toA.Heard? && toB.Heard?
    requires FrameFrom(b, R.Run(b, evsB).view, toA.frame) && FrameFrom(a, R.Run(a, evsA + [toA]).view, toB.frame)
    requires forall id :: id != a.self && id != b.self ==>
               Reconcilable(R.Run(a, evsA).view, R.Run(b, evsB).view, id)
    ensures C.Alive(a, evsA + [toA]) == C.Alive(b, evsB + [toB])
    ensures H.Owner(score, key, C.RingOf(a, evsA + [toA])) == H.Owner(score, key, C.RingOf(b, evsB + [toB]))
  {
    var va, vb := R.Run(a, evsA).view, R.Run(b, evsB).view;
    R.RunsStayTidy(a, evsA);
    R.RunsStayTidy(b, evsB);
    RunHears(a, evsA, toA.frame, toA.src, toA.now, toA.ticks);
    RunHears(b, evsB, toB.frame, toB.src, toB.now, toB.ticks);
    ExchangeAgrees(a, b, va, vb, toA, toB);
    C.SameLivingSameOwners(score, key, a, evsA + [toA], b, evsB + [toB]);
  }

  lemma ExchangeAgrees(a: Config, b: Config, va: View, vb: View, toA: Event, toB: Event)
    requires Tidy(a, va) && Tidy(b, vb) && a.cluster == b.cluster && a.self != b.self && toA.Heard? && toB.Heard?
    requires FrameFrom(b, vb, toA.frame)
    requires FrameFrom(a, Hears(a, va, toA.frame, toA.src, toA.now, toA.ticks), toB.frame)
    requires forall id :: id != a.self && id != b.self ==> Reconcilable(va, vb, id)
    ensures Roster(a, Hears(a, va, toA.frame, toA.src, toA.now, toA.ticks).peers)
         == Roster(b, Hears(b, vb, toB.frame, toB.src, toB.now, toB.ticks).peers)
  {
    var va' := Hears(a, va, toA.frame, toA.src, toA.now, toA.ticks);
    var vb' := Hears(b, vb, toB.frame, toB.src, toB.now, toB.ticks);
    HearGives(a, va, b, vb, toA.frame, toA.src, toA.now, toA.ticks, b.self);
    HearGives(b, vb, a, va', toB.frame, toB.src, toB.now, toB.ticks, a.self);
    forall id | id != a.self && id != b.self
      ensures Known(va', id) == Known(vb', id)
    {
      ExchangeConvergesIff(a, b, va, vb, toA.frame, toB.frame, toA.src, toB.src, toA.now, toB.now,
                           toA.ticks, toB.ticks, id);
    }
    AgreeingRosters(a, b, va', vb');
  }
}
