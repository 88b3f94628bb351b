/** From gossip to placement: members that agree on who is alive agree on where every client belongs. */
module ClusterRouting {
  import opened Wrappers
  import opened Sequences
  import opened Nodes
  import opened HashRing
  import G = Gossip
  import R = GossipRuns

  /** The ring a member routes with: built from the topology delivered last. */
  ghost function RingOf(cfg: G.Config, evs: seq<G.Event>): seq<ClusterNode> {
    Normalize(Delivered(cfg, evs))
  }

  ghost function Delivered(cfg: G.Config, evs: seq<G.Event>): seq<ClusterNode> {
    var sent := R.Run(cfg, evs).delivered;
    if sent == [] then [] else Last(sent)
  }

  ghost function Alive(cfg: G.Config, evs: seq<G.Event>): set<ClusterNode> {
    G.Roster(cfg, R.Run(cfg, evs).view.peers)
  }

  /** Rebuilding the ring from a delivered topology changes nothing: it is the sorted list of the living. */
  lemma RingIsTheLiving(cfg: G.Config, evs: seq<G.Event>)
    ensures Sorted(Delivered(cfg, evs)) && RingOf(cfg, evs) == Delivered(cfg, evs)
    ensures Elements(RingOf(cfg, evs)) == Alive(cfg, evs)
  {
    R.TopologyAlwaysCurrent(cfg, evs);
    SortedIsNormal(Delivered(cfg, evs));
  }

  lemma SortedIsNormal(s: seq<ClusterNode>)
    requires Sorted(s)
    ensures Normalize(s) == s
  {
    SortedIsDistinct(s);
    NormalizeDistinct(s);
    SortedUnique(Normalize(s), s);
  }

  lemma {:induction false} SortedIsDistinct(s: seq<ClusterNode>)
    requires Sorted(s)
    ensures DistinctIds(s)
  {
    if s != [] {
      var t := s[..|s| - 1];
      SortedIsDistinct(t);
      LessIrreflexive(Last(s).id);
      assert forall i :: 0 <= i < |t| ==> t[i] == s[i] && Less(t[i].id, Last(s).id);
      assert forall i, j :: 0 <= i < j < |t| ==> s[i].id != s[j].id;
    }
  }

  /** Two members with the same living nodes give every key the same owner, whatever each of them went through. */
  lemma SameLivingSameOwners(score: Score, key: Key, a: G.Config, evsA: seq<G.Event>, b: G.Config, evsB: seq<G.Event>)
    requires Alive(a, evsA) == Alive(b, evsB)
    ensures Owner(score, key, RingOf(a, evsA)) == Owner(score, key, RingOf(b, evsB))
  {
    RingIsTheLiving(a, evsA);
    RingIsTheLiving(b, evsB);
    SortedUnique(RingOf(a, evsA), RingOf(b, evsB));
  }

  /** Every member has an owner for every key: at worst itself. */
  lemma AlwaysAnOwner(score: Score, key: Key, cfg: G.Config, evs: seq<G.Event>)
    ensures var owner := Owner(score, key, RingOf(cfg, evs));
      owner.Some? && owner.value in Alive(cfg, evs)
  {
    RingIsTheLiving(cfg, evs);
    assert G.Self(cfg) in Elements(RingOf(cfg, evs));
    OwnerIsHeaviest(score, key, RingOf(cfg, evs));
  }

  /**
   * A draining member hands each new client to another member; if that one sees the same nodes alive, save the
   * draining one, it serves the client.
   */
  lemma DrainHandsOver(score: Score, key: Key, d: G.Config, evsD: seq<G.Event>, t: G.Config, evsT: seq<G.Event>)
    requires Alive(t, evsT) == Alive(d, evsD) - {G.Self(d)}
    ensures var target := Redirect(score, key, RingOf(d, evsD), d.self, true, false);
      && target.Some? && target.value.id != d.self
      && Redirect(score, key, RingOf(t, evsT), target.value.id, false, false).None?
  {
    var nodes := Delivered(d, evsD);
    RingIsTheLiving(d, evsD);
    RingIsTheLiving(t, evsT);
    WithoutSelf(d, evsD);
    WithoutKeeps(nodes, d.self);
    SortedUnique(RingOf(t, evsT), Without(nodes, d.self));
    SortedIsNormal(Without(nodes, d.self));
    OneRedirectSettles(score, key, nodes, d.self, true);
    assert G.Self(t) in Alive(t, evsT);
    assert G.Self(t) in Elements(Without(nodes, d.self));
    OwnerIsHeaviest(score, key, Without(nodes, d.self));
  }

  lemma OnlySelfHasItsId(cfg: G.Config, peers: map<Id, G.Peer>, n: ClusterNode)
    requires G.Keyed(peers) && cfg.self !in peers && n in G.Roster(cfg, peers)
    ensures n.id == cfg.self <==> n == G.Self(cfg)
  {
    if n != G.Self(cfg) {
      var id :| id in peers && n == G.NodeOf(peers[id]);
    }
  }

  lemma WithoutSelf(cfg: G.Config, evs: seq<G.Event>)
    ensures Elements(Without(Delivered(cfg, evs), cfg.self)) == Alive(cfg, evs) - {G.Self(cfg)}
  {
    var nodes, alive := Delivered(cfg, evs), Alive(cfg, evs);
    assert Elements(nodes) == alive by {
      RingIsTheLiving(cfg, evs);
    }
    assert forall n :: n in alive ==> (n.id == cfg.self <==> n == G.Self(cfg)) by {
      R.RunsStayTidy(cfg, evs);
      forall n | n in alive
        ensures n.id == cfg.self <==> n == G.Self(cfg)
      {
        OnlySelfHasItsId(cfg, R.Run(cfg, evs).view.peers, n);
      }
    }
    DropOne(nodes, alive, cfg.self, G.Self(cfg));
  }

  lemma DropOne(nodes: seq<ClusterNode>, all: set<ClusterNode>, id: Id, one: ClusterNode)
    requires Elements(nodes) == all && forall n :: n in all ==> (n.id == id <==> n == one)
    ensures Elements(Without(nodes, id)) == all - {one}
  {
    WithoutKeeps(nodes, id);
  }
}
