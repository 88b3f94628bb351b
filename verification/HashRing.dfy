/** Rendezvous placement: which node of a ring owns a client key, and where a node sends a new client. */
module HashRing {
  import opened Wrappers
  import opened Sequences
  import opened Nodes

  type Key = string

  /** The keyed weight of a node, an arbitrary function of its id and the key. */
  type Score = (Id, Key) -> nat

  // ----- picking the heaviest node

  /** Higher score first, the higher id on a tie. */
  predicate Beats(score: Score, key: Key, a: ClusterNode, b: ClusterNode) {
    score(a.id, key) > score(b.id, key) || (score(a.id, key) == score(b.id, key) && Less(b.id, a.id))
  }

  /** `max_by`: scan left to right, a later node replaces the best so far unless it is beaten. */
  function Owner(score: Score, key: Key, nodes: seq<ClusterNode>): Option<ClusterNode> {
    if nodes == [] then None else
      match Owner(score, key, nodes[..|nodes| - 1])
      case None => Some(Last(nodes))
      case Some(best) => Some(if Beats(score, key, best, Last(nodes)) then best else Last(nodes))
  }

  function Without(nodes: seq<ClusterNode>, id: Id): seq<ClusterNode> {
    if nodes == [] then [] else
      Without(nodes[..|nodes| - 1], id) + if Last(nodes).id == id then [] else [Last(nodes)]
  }

  function OwnerExcluding(score: Score, key: Key, nodes: seq<ClusterNode>, id: Id): Option<ClusterNode> {
    Owner(score, key, Without(nodes, id))
  }

  /** `n` is in the set; every other node of it scores less, or the same and has a smaller id. */
  ghost predicate Heaviest(score: Score, key: Key, nodes: set<ClusterNode>, n: ClusterNode) {
    && n in nodes
    && forall m :: m in nodes && m != n ==>
         score(m.id, key) < score(n.id, key) || (score(m.id, key) == score(n.id, key) && Less(m.id, n.id))
  }

  lemma BeatsIsAnOrder(score: Score, key: Key, a: ClusterNode, b: ClusterNode, c: ClusterNode)
    ensures Beats(score, key, a, b) ==> !Beats(score, key, b, a)
    ensures a.id != b.id ==> Beats(score, key, a, b) || Beats(score, key, b, a)
    ensures Beats(score, key, a, b) && Beats(score, key, b, c) ==> Beats(score, key, a, c)
  {
    LessTotal(a.id, b.id);
    if Less(a.id, b.id) {
      LessAsymmetric(a.id, b.id);
    }
    if Less(b.id, a.id) {
      LessAsymmetric(b.id, a.id);
    }
    if Less(c.id, b.id) && Less(b.id, a.id) {
      LessTransitive(c.id, b.id, a.id);
    }
  }

  /** The scan finds the one node that beats all others. */
  lemma {:induction false} OwnerIsHeaviest(score: Score, key: Key, nodes: seq<ClusterNode>)
    requires Sorted(nodes)
    ensures Owner(score, key, nodes).None? <==> nodes == []
    ensures nodes != [] ==> Heaviest(score, key, Elements(nodes), Owner(score, key, nodes).value)
  {
    if nodes != [] {
      var t, l := nodes[..|nodes| - 1], Last(nodes);
      OwnerIsHeaviest(score, key, t);
      ElementsSnoc(nodes);
      LessIrreflexive(l.id);
      if t != [] {
        var best := Owner(score, key, t).value;
        assert Less(best.id, l.id);
        BeatsIsAnOrder(score, key, best, l, l);
        forall m | m in Elements(t) && m != best
          ensures !Beats(score, key, best, l) ==> Beats(score, key, l, m)
        {
          BeatsIsAnOrder(score, key, l, best, m);
        }
      }
    }
  }

  lemma HeaviestUnique(score: Score, key: Key, nodes: set<ClusterNode>, a: ClusterNode, b: ClusterNode)
    requires Heaviest(score, key, nodes, a) && Heaviest(score, key, nodes, b)
    ensures a == b
  {
    if a != b {
      BeatsIsAnOrder(score, key, a, b, b);
    }
  }

  /** A sorted list is owned by `n` exactly when `n` is heaviest in it. */
  lemma OwnerIff(score: Score, key: Key, nodes: seq<ClusterNode>, n: ClusterNode)
    requires Sorted(nodes)
    ensures Owner(score, key, nodes) == Some(n) <==> Heaviest(score, key, Elements(nodes), n)
  {
    OwnerIsHeaviest(score, key, nodes);
    if Heaviest(score, key, Elements(nodes), n) {
      assert nodes != [];
      HeaviestUnique(score, key, Elements(nodes), n, Owner(score, key, nodes).value);
    }
  }

  // ----- removing a node

  lemma {:induction false} WithoutKeeps(nodes: seq<ClusterNode>, id: Id)
    ensures Sorted(nodes) ==> Sorted(Without(nodes, id))
    ensures forall n :: n in Elements(Without(nodes, id)) <==> n in Elements(nodes) && n.id != id
    ensures forall other :: AllBelow(nodes, other) ==> AllBelow(Without(nodes, id), other)
  {
    if nodes != [] {
      var t, l := nodes[..|nodes| - 1], Last(nodes);
      WithoutKeeps(t, id);
      ElementsSnoc(nodes);
      var r := Without(nodes, id);
      if l.id != id {
        ElementsSnoc(r);
        assert r[..|r| - 1] == Without(t, id);
      } else {
        assert r == Without(t, id);
      }
      forall other | AllBelow(nodes, other)
        ensures AllBelow(r, other)
      {
        assert AllBelow(t, other) && Less(nodes[|nodes| - 1].id, other);
      }
    }
  }

  lemma {:induction false} WithoutUsed(nodes: seq<ClusterNode>, id: Id, other: Id)
    ensures Used(Without(nodes, id), other) <==> Used(nodes, other) && other != id
  {
    if nodes != [] {
      WithoutUsed(nodes[..|nodes| - 1], id, other);
      var r := Without(nodes, id);
      if Last(nodes).id != id {
        assert r[..|r| - 1] == Without(nodes[..|nodes| - 1], id);
      } else {
        assert r == Without(nodes[..|nodes| - 1], id);
      }
    }
  }

  lemma {:induction false} WithoutFirst(nodes: seq<ClusterNode>, id: Id, n: ClusterNode)
    ensures FirstOf(Without(nodes, id), n) <==> FirstOf(nodes, n) && n.id != id
  {
    if nodes != [] {
      var t := nodes[..|nodes| - 1];
      WithoutFirst(t, id, n);
      WithoutUsed(t, id, n.id);
      var r := Without(nodes, id);
      if Last(nodes).id != id {
        assert r[..|r| - 1] == Without(t, id);
      } else {
        assert r == Without(t, id);
      }
    }
  }

  /** Dropping an id commutes with building the ring, whatever list the ring is built from. */
  lemma RebuildWithout(nodes: seq<ClusterNode>, id: Id)
    ensures Normalize(Without(nodes, id)) == Without(Normalize(nodes), id)
  {
    NormalizeAny(nodes);
    NormalizeAny(Without(nodes, id));
    WithoutKeeps(Normalize(nodes), id);
    forall n
      ensures n in Elements(Normalize(Without(nodes, id))) <==> n in Elements(Without(Normalize(nodes), id))
    {
      WithoutFirst(nodes, id, n);
    }
    SortedUnique(Normalize(Without(nodes, id)), Without(Normalize(nodes), id));
  }

  // ----- placement

  /** For distinct ids the ring, and with it every owner, depends only on the set of nodes. */
  lemma PlacementDependsOnSet(a: seq<ClusterNode>, b: seq<ClusterNode>)
    requires DistinctIds(a) && DistinctIds(b) && Elements(a) == Elements(b)
    ensures Normalize(a) == Normalize(b)
  {
    NormalizeDistinct(a);
    NormalizeDistinct(b);
    SortedUnique(Normalize(a), Normalize(b));
  }

  /** Adding a node moves keys only to it: exactly those for which it beats the owner. */
  lemma JoinMovesOnlyToNewcomer(score: Score, key: Key, nodes: seq<ClusterNode>, x: ClusterNode)
    ensures var before := Owner(score, key, Normalize(nodes));
      Owner(score, key, Normalize(nodes + [x])) ==
      if Used(nodes, x.id) then before
      else if before.Some? && Beats(score, key, before.value, x) then before
      else Some(x)
  {
    var ring, grown := Normalize(nodes), Normalize(nodes + [x]);
    NormalizeAny(nodes);
    NormalizeSnoc(nodes, x);
    if !Used(nodes, x.id) {
      NormalizedUnused(nodes, x.id);
      InsertIntoSorted(ring, x);
      OwnerIsHeaviest(score, key, ring);
      JoinedOwner(score, key, ring, grown, x);
    }
  }

  lemma JoinedOwner(score: Score, key: Key, ring: seq<ClusterNode>, grown: seq<ClusterNode>, x: ClusterNode)
    requires Sorted(ring) && Sorted(grown) && Unused(ring, x.id) && Elements(grown) == Elements(ring) + {x}
    ensures var before := Owner(score, key, ring);
      Owner(score, key, grown) == if before.Some? && Beats(score, key, before.value, x) then before else Some(x)
  {
    OwnerIsHeaviest(score, key, ring);
    if ring == [] {
      OwnerIff(score, key, grown, x);
    } else {
      var best := Owner(score, key, ring).value;
      assert best.id != x.id;
      BeatsIsAnOrder(score, key, best, x, x);
      if Beats(score, key, best, x) {
        OwnerIff(score, key, grown, best);
      } else {
        forall m | m in Elements(ring)
          ensures Beats(score, key, x, m)
        {
          BeatsIsAnOrder(score, key, x, best, m);
        }
        OwnerIff(score, key, grown, x);
      }
    }
  }

  /** Removing a node moves only its own keys. */
  lemma LeaveMovesOnlyItsKeys(score: Score, key: Key, nodes: seq<ClusterNode>, id: Id)
    ensures var before := Owner(score, key, Normalize(nodes));
      (before.Some? && before.value.id == id) || Owner(score, key, Normalize(Without(nodes, id))) == before
  {
    var ring := Normalize(nodes);
    RebuildWithout(nodes, id);
    NormalizeAny(nodes);
    WithoutKeeps(ring, id);
    OwnerIsHeaviest(score, key, ring);
    if ring != [] {
      var best := Owner(score, key, ring).value;
      if best.id != id {
        OwnerIff(score, key, Without(ring, id), best);
      }
    }
  }

  /** Excluding a node gives the owner in the ring rebuilt without it. */
  lemma ExcludingIsRebuilding(score: Score, key: Key, nodes: seq<ClusterNode>, id: Id)
    ensures OwnerExcluding(score, key, Normalize(nodes), id) == Owner(score, key, Normalize(Without(nodes, id)))
  {
    RebuildWithout(nodes, id);
  }

  // ----- redirecting new clients

  /** Where a node sends a new client, or nothing when it serves the client itself. */
  function Redirect(score: Score, key: Key, ring: seq<ClusterNode>, local: Id, draining: bool, hasSession: bool)
    : Option<ClusterNode>
  {
    if hasSession then None
    else if draining then OwnerExcluding(score, key, ring, local)
    else
      var owner := Owner(score, key, ring);
      if owner.Some? && owner.value.id == local then None else owner
  }

  /** Who may take a new client: a draining node may not. */
  ghost function Servers(ring: seq<ClusterNode>, local: Id, draining: bool): set<ClusterNode> {
    set m | m in ring && !(draining && m.id == local)
  }

  /**
   * A client is sent away exactly if it is new and the node is draining or not the owner: to the heaviest node, or
   * while draining to the heaviest of the others.
   */
  lemma RedirectIff(score: Score, key: Key, ring: seq<ClusterNode>, local: Id, draining: bool, hasSession: bool,
                    n: ClusterNode)
    requires Sorted(ring)
    ensures Redirect(score, key, ring, local, draining, hasSession) == Some(n) <==>
      && !hasSession && n.id != local
      && Heaviest(score, key, Servers(ring, local, draining), n)
  {
    WithoutKeeps(ring, local);
    OwnerIff(score, key, ring, n);
    OwnerIff(score, key, Without(ring, local), n);
    assert Servers(ring, local, draining) == Elements(if draining then Without(ring, local) else ring);
  }

  /**
   * A redirected client is served where it lands. Without draining both nodes use one ring; a draining node
   * uses the full one, and the node it names has already dropped the draining node from its own.
   */
  lemma OneRedirectSettles(score: Score, key: Key, nodes: seq<ClusterNode>, local: Id, draining: bool)
    ensures var target := Redirect(score, key, Normalize(nodes), local, draining, false);
      var later := Normalize(if draining then Without(nodes, local) else nodes);
      target.None? || (target.value.id != local && Redirect(score, key, later, target.value.id, false, false).None?)
  {
    if draining {
      var ring := Normalize(nodes);
      NormalizeAny(nodes);
      RebuildWithout(nodes, local);
      WithoutKeeps(ring, local);
      OwnerIsHeaviest(score, key, Without(ring, local));
    }
  }

  /** A target that still has the draining node in its ring sends the client back exactly when that owns the key. */
  lemma StaleRingReturnsIff(score: Score, key: Key, nodes: seq<ClusterNode>, local: Id)
    ensures var ring := Normalize(nodes);
      var target := Redirect(score, key, ring, local, true, false);
      var owner := Owner(score, key, ring);
      target.Some? ==>
        var back := Redirect(score, key, ring, target.value.id, false, false);
        && owner.Some?
        && (back == owner <==> owner.value.id == local)
        && (back == None <==> owner.value.id != local)
  {
    var ring := Normalize(nodes);
    NormalizeAny(nodes);
    WithoutKeeps(ring, local);
    OwnerIsHeaviest(score, key, ring);
    OwnerIsHeaviest(score, key, Without(ring, local));
    ExcludingIsRebuilding(score, key, nodes, local);
    LeaveMovesOnlyItsKeys(score, key, nodes, local);
    assert ring == [] ==> Without(ring, local) == [];
  }

  /** The ring a node keeps: sorted, one node per id. */
  class Ring {
    var nodes: seq<ClusterNode>

    ghost predicate Valid()
      reads this
    {
      Sorted(nodes)
    }

    constructor (list: seq<ClusterNode>)
      ensures Valid() && nodes == Normalize(list)
      ensures forall n :: n in Elements(nodes) <==> FirstOf(list, n)
    {
      nodes := Normalize(list);
      NormalizeAny(list);
    }

    method UpdateNodes(list: seq<ClusterNode>)
      modifies this
      ensures Valid() && nodes == Normalize(list)
      ensures forall n :: n in Elements(nodes) <==> FirstOf(list, n)
    {
      nodes := Normalize(list);
      NormalizeAny(list);
    }

    method GetNode(score: Score, key: Key) returns (r: Option<ClusterNode>)
      requires Valid()
      ensures r.None? <==> nodes == []
      ensures r.Some? ==> Heaviest(score, key, Elements(nodes), r.value)
    {
      r := Owner(score, key, nodes);
      OwnerIsHeaviest(score, key, nodes);
    }

    method GetNodeExcluding(score: Score, key: Key, id: Id) returns (r: Option<ClusterNode>)
      requires Valid()
      ensures r.None? <==> forall n :: n in Elements(nodes) ==> n.id == id
      ensures r.Some? ==>
        Heaviest(score, key, (set n | n in Elements(nodes) && n.id != id), r.value)
    {
      r := OwnerExcluding(score, key, nodes, id);
      WithoutKeeps(nodes, id);
      OwnerIsHeaviest(score, key, Without(nodes, id));
      assert Elements(Without(nodes, id)) == (set n | n in Elements(nodes) && n.id != id);
      assert Without(nodes, id) != [] ==> Without(nodes, id)[0] in Elements(Without(nodes, id));
    }
  }
}
