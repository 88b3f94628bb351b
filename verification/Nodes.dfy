/** Cluster nodes, the order of their ids, and the sorted, deduplicated lists built from them. */
module Nodes {
  import opened Sequences

  type Id = string

  datatype Addr = Addr(ip: nat, port: nat)

  datatype ClusterNode = ClusterNode(id: Id, addr: Addr)

  // ----- the order of ids

  predicate Less(a: Id, b: Id) {
    b != [] && (a == [] || a[0] < b[0] || (a[0] == b[0] && Less(a[1..], b[1..])))
  }

  /** `a` ends, or has the smaller character, where the two first differ: at `i`. */
  predicate BelowAt(a: Id, b: Id, i: nat) {
    i <= |a| && i < |b| && a[..i] == b[..i] && (i == |a| || a[i] < b[i])
  }

  /** The order of ids is that of a dictionary. */
  lemma {:induction false} LessIff(a: Id, b: Id)
    ensures Less(a, b) <==> exists i: nat :: BelowAt(a, b, i)
  {
    if b == [] {
    } else if a == [] || a[0] < b[0] {
      assert BelowAt(a, b, 0);
    } else {
      LessIff(a[1..], b[1..]);
      if Less(a, b) {
        var i: nat :| BelowAt(a[1..], b[1..], i);
        BelowFurther(a, b, i);
      }
      if i: nat :| BelowAt(a, b, i) {
        BelowFurther(a, b, i - 1);
      }
    }
  }

  lemma BelowFurther(a: Id, b: Id, i: nat)
    requires a != [] && b != []
    ensures BelowAt(a, b, i + 1) <==> a[0] == b[0] && BelowAt(a[1..], b[1..], i)
  {
    if i + 1 <= |a| && i + 1 <= |b| {
      assert a[..i + 1] == [a[0]] + a[1..][..i] && b[..i + 1] == [b[0]] + b[1..][..i];
      assert a[..i + 1][0] == a[0] && a[..i + 1][1..] == a[1..][..i];
      assert b[..i + 1][0] == b[0] && b[..i + 1][1..] == b[1..][..i];
    }
  }

  lemma {:induction false} LessIrreflexive(a: Id)
    ensures !Less(a, a)
  {
    if a != [] {
      LessIrreflexive(a[1..]);
    }
  }

  lemma {:induction false} LessTransitive(a: Id, b: Id, c: Id)
    requires Less(a, b) && Less(b, c)
    ensures Less(a, c)
  {
    if a != [] && a[0] == b[0] && b[0] == c[0] {
      LessTransitive(a[1..], b[1..], c[1..]);
    }
  }

  lemma {:induction false} LessTotal(a: Id, b: Id)
    ensures a == b || Less(a, b) || Less(b, a)
  {
    if a != [] && b != [] && a[0] == b[0] {
      LessTotal(a[1..], b[1..]);
      assert a == [a[0]] + a[1..] && b == [b[0]] + b[1..];
    }
  }

  lemma LessAsymmetric(a: Id, b: Id)
    requires Less(a, b)
    ensures !Less(b, a)
  {
    if Less(b, a) {
      LessTransitive(a, b, a);
      LessIrreflexive(a);
    }
  }

  // ----- strictly sorted lists

  ghost predicate AllBelow(s: seq<ClusterNode>, id: Id) {
    forall i :: 0 <= i < |s| ==> Less(s[i].id, id)
  }

  /** Strictly ascending ids. */
  ghost predicate Sorted(s: seq<ClusterNode>) {
    s == [] || (Sorted(s[..|s| - 1]) && AllBelow(s[..|s| - 1], Last(s).id))
  }

  lemma ElementsSnoc(s: seq<ClusterNode>)
    requires s != []
    ensures Elements(s) == Elements(s[..|s| - 1]) + {Last(s)}
  {
    assert s == s[..|s| - 1] + [Last(s)];
  }

  lemma SortedLastFresh(s: seq<ClusterNode>)
    requires s != [] && Sorted(s)
    ensures Last(s) !in Elements(s[..|s| - 1])
    ensures forall n :: n in Elements(s) ==> n == Last(s) || Less(n.id, Last(s).id)
  {
    LessIrreflexive(Last(s).id);
    ElementsSnoc(s);
  }

  /** A strictly sorted list is determined by its elements. */
  lemma {:induction false} SortedUnique(a: seq<ClusterNode>, b: seq<ClusterNode>)
    requires Sorted(a) && Sorted(b) && Elements(a) == Elements(b)
    ensures a == b
  {
    assert a != [] ==> a[0] in Elements(a);
    assert b != [] ==> b[0] in Elements(b);
    if a != [] {
      SameLast(a, b);
      ElementsSnoc(a);
      ElementsSnoc(b);
      SortedLastFresh(a);
      SortedLastFresh(b);
      assert Elements(a[..|a| - 1]) == Elements(a) - {Last(a)} == Elements(b[..|b| - 1]);
      SortedUnique(a[..|a| - 1], b[..|b| - 1]);
      assert a == a[..|a| - 1] + [Last(a)] && b == b[..|b| - 1] + [Last(b)];
    }
  }

  lemma SameLast(a: seq<ClusterNode>, b: seq<ClusterNode>)
    requires Sorted(a) && Sorted(b) && Elements(a) == Elements(b) && a != [] && b != []
    ensures Last(a) == Last(b)
  {
    SortedLastFresh(a);
    SortedLastFresh(b);
    assert Last(a) in Elements(b) && Last(b) in Elements(a);
    if Last(a) != Last(b) {
      LessAsymmetric(Last(a).id, Last(b).id);
    }
  }

  // ----- sorting and deduplicating

  /** Stable insertion: `x` goes after every node whose id is not above its own. */
  function Insert(s: seq<ClusterNode>, x: ClusterNode): seq<ClusterNode> {
    if s != [] && Less(x.id, Last(s).id) then Insert(s[..|s| - 1], x) + [Last(s)] else s + [x]
  }

  /** `sort_by` on the id: stable, ascending. */
  function Sort(s: seq<ClusterNode>): seq<ClusterNode> {
    if s == [] then [] else Insert(Sort(s[..|s| - 1]), Last(s))
  }

  /** `dedup_by` on the id: of equal neighbours the first stays. */
  function Dedup(s: seq<ClusterNode>): seq<ClusterNode> {
    if |s| <= 1 then s else
      var d := Dedup(s[..|s| - 1]);
      if s[|s| - 2].id == Last(s).id then d else d + [Last(s)]
  }

  ghost predicate DistinctIds(s: seq<ClusterNode>) {
    forall i, j :: 0 <= i < j < |s| ==> s[i].id != s[j].id
  }

  ghost predicate Unused(s: seq<ClusterNode>, id: Id) {
    forall i :: 0 <= i < |s| ==> s[i].id != id
  }

  lemma {:induction false} InsertBelowAll(s: seq<ClusterNode>, x: ClusterNode, id: Id)
    requires AllBelow(s, id) && Less(x.id, id)
    ensures AllBelow(Insert(s, x), id)
  {
    if s != [] && Less(x.id, Last(s).id) {
      InsertBelowAll(s[..|s| - 1], x, id);
    }
  }

  lemma SortedSnoc(s: seq<ClusterNode>, x: ClusterNode)
    requires Sorted(s) && AllBelow(s, x.id)
    ensures Sorted(s + [x]) && Elements(s + [x]) == Elements(s) + {x}
  {
    var r := s + [x];
    assert r[..|r| - 1] == s;
    ElementsSnoc(r);
  }

  lemma {:induction false} InsertIntoSorted(s: seq<ClusterNode>, x: ClusterNode)
    requires Sorted(s) && Unused(s, x.id)
    ensures Sorted(Insert(s, x)) && Elements(Insert(s, x)) == Elements(s) + {x}
    ensures |Insert(s, x)| == |s| + 1
  {
    if s != [] && Less(x.id, Last(s).id) {
      var t := s[..|s| - 1];
      InsertIntoSorted(t, x);
      InsertBelowAll(t, x, Last(s).id);
      SortedSnoc(Insert(t, x), Last(s));
      ElementsSnoc(s);
    } else {
      if s != [] {
        assert s[|s| - 1].id != x.id;
        LessTotal(Last(s).id, x.id);
        BelowLast(s, x.id);
      }
      SortedSnoc(s, x);
    }
  }

  lemma BelowLast(s: seq<ClusterNode>, id: Id)
    requires s != [] && Sorted(s) && Less(Last(s).id, id)
    ensures AllBelow(s, id)
  {
    forall i | 0 <= i < |s|
      ensures Less(s[i].id, id)
    {
      if i < |s| - 1 {
        assert s[..|s| - 1][i] == s[i];
        LessTransitive(s[i].id, Last(s).id, id);
      }
    }
  }

  /** Sorting nodes with distinct ids orders them strictly and keeps them all. */
  lemma {:induction false} SortSorts(s: seq<ClusterNode>)
    requires DistinctIds(s)
    ensures Sorted(Sort(s)) && Elements(Sort(s)) == Elements(s) && |Sort(s)| == |s|
  {
    if s != [] {
      var t := s[..|s| - 1];
      SortSorts(t);
      ElementsSnoc(s);
      assert Unused(Sort(t), Last(s).id) by {
        forall i | 0 <= i < |Sort(t)|
          ensures Sort(t)[i].id != Last(s).id
        {
          assert Sort(t)[i] in Elements(t);
        }
      }
      InsertIntoSorted(Sort(t), Last(s));
    }
  }

  lemma {:induction false} DedupOfSorted(s: seq<ClusterNode>)
    requires Sorted(s)
    ensures Dedup(s) == s
  {
    if |s| > 1 {
      var t := s[..|s| - 1];
      DedupOfSorted(t);
      assert Less(t[|t| - 1].id, Last(s).id);
      LessIrreflexive(Last(s).id);
      assert s == t + [Last(s)];
    }
  }

  /** The node list of a ring or a topology: sorted by id, one node per id. */
  function Normalize(s: seq<ClusterNode>): seq<ClusterNode> {
    Dedup(Sort(s))
  }

  lemma NormalizeDistinct(s: seq<ClusterNode>)
    requires DistinctIds(s)
    ensures Sorted(Normalize(s)) && Elements(Normalize(s)) == Elements(s) && |Normalize(s)| == |s|
    ensures Normalize(s) == Sort(s)
  {
    SortSorts(s);
    DedupOfSorted(Sort(s));
  }

  // ----- lists that repeat an id

  /** Ascending ids, repeats allowed: nothing is below its left neighbour. */
  ghost predicate WeaklySorted(s: seq<ClusterNode>) {
    |s| <= 1 || (WeaklySorted(s[..|s| - 1]) && !Less(Last(s).id, s[|s| - 2].id))
  }

  predicate Used(s: seq<ClusterNode>, id: Id) {
    s != [] && (Last(s).id == id || Used(s[..|s| - 1], id))
  }

  /** In a sorted list an id below the last one but not below the one before is not used earlier. */
  lemma {:induction false} AboveAll(s: seq<ClusterNode>, id: Id)
    requires WeaklySorted(s) && s != [] && Less(Last(s).id, id)
    ensures !Used(s, id)
  {
    LessIrreflexive(id);
    if |s| > 1 {
      var t := s[..|s| - 1];
      assert Last(t) == s[|s| - 2];
      LessTotal(Last(t).id, Last(s).id);
      if Less(Last(t).id, Last(s).id) {
        LessTransitive(Last(t).id, Last(s).id, id);
      }
      AboveAll(t, id);
    }
  }

  lemma InsertLast(s: seq<ClusterNode>, x: ClusterNode)
    ensures Insert(s, x) != []
    ensures Last(Insert(s, x)) == if s != [] && Less(x.id, Last(s).id) then Last(s) else x
  {
  }

  lemma WeakSnoc(s: seq<ClusterNode>, x: ClusterNode)
    requires WeaklySorted(s) && (s != [] ==> !Less(x.id, Last(s).id))
    ensures WeaklySorted(s + [x])
  {
    assert (s + [x])[..|s|] == s;
  }

  lemma {:induction false} InsertKeepsWeak(s: seq<ClusterNode>, x: ClusterNode)
    requires WeaklySorted(s)
    ensures WeaklySorted(Insert(s, x))
  {
    if s != [] && Less(x.id, Last(s).id) {
      var t := s[..|s| - 1];
      InsertKeepsWeak(t, x);
      InsertLast(t, x);
      LessAsymmetric(x.id, Last(s).id);
      assert t != [] ==> Last(t) == s[|s| - 2];
      WeakSnoc(Insert(t, x), Last(s));
    } else {
      WeakSnoc(s, x);
    }
  }

  lemma DedupSnoc(s: seq<ClusterNode>, x: ClusterNode)
    ensures Dedup(s + [x]) == if s != [] && Last(s).id == x.id then Dedup(s) else Dedup(s) + [x]
  {
    assert (s + [x])[..|s|] == s;
  }

  lemma {:induction false} DedupLast(s: seq<ClusterNode>)
    requires s != []
    ensures Dedup(s) != [] && Last(Dedup(s)).id == Last(s).id
  {
    if |s| > 1 {
      DedupLast(s[..|s| - 1]);
    }
  }

  lemma InsertBelow(s: seq<ClusterNode>, l: ClusterNode, x: ClusterNode)
    requires Less(x.id, l.id)
    ensures Insert(s + [l], x) == Insert(s, x) + [l]
  {
    assert (s + [l])[..|s|] == s;
  }

  /** The step of `DedupInsert` where the new node goes below the last one. */
  lemma DedupInsertBelow(s: seq<ClusterNode>, l: ClusterNode, x: ClusterNode, used: bool)
    requires WeaklySorted(s) && Less(x.id, l.id) && (s != [] ==> !Less(l.id, Last(s).id))
    requires Dedup(Insert(s, x)) == if used then Dedup(s) else Insert(Dedup(s), x)
    requires used ==> s != []
    ensures Dedup(Insert(s + [l], x)) == if used then Dedup(s + [l]) else Insert(Dedup(s + [l]), x)
  {
    LessIrreflexive(l.id);
    InsertLast(s, x);
    InsertBelow(s, l, x);
    DedupSnoc(s, l);
    DedupSnoc(Insert(s, x), l);
    InsertBelow(Dedup(s), l, x);
    if s != [] && Last(s).id != l.id && !Less(x.id, Last(s).id) {
      assert Last(Insert(s, x)) == x;
    }
  }

  /** Sorting in one more node either repeats a known id, and dedup drops it, or adds a new one. */
  lemma {:induction false} DedupInsert(s: seq<ClusterNode>, x: ClusterNode)
    requires WeaklySorted(s)
    ensures Dedup(Insert(s, x)) == if Used(s, x.id) then Dedup(s) else Insert(Dedup(s), x)
  {
    if s != [] {
      var t, l := s[..|s| - 1], Last(s);
      assert s == t + [l];
      LessIrreflexive(l.id);
      if Less(x.id, l.id) {
        DedupInsert(t, x);
        DedupInsertBelow(t, l, x, Used(t, x.id));
      } else {
        DedupSnoc(s, x);
        DedupLast(s);
        if l.id != x.id {
          LessTotal(l.id, x.id);
          AboveAll(s, x.id);
        }
      }
    }
  }

  lemma {:induction false} SortIsWeak(s: seq<ClusterNode>)
    ensures WeaklySorted(Sort(s))
    ensures forall id :: Used(Sort(s), id) <==> Used(s, id)
  {
    if s != [] {
      SortIsWeak(s[..|s| - 1]);
      InsertKeepsWeak(Sort(s[..|s| - 1]), Last(s));
      forall id
        ensures Used(Sort(s), id) <==> Used(s, id)
      {
        UsedInsert(Sort(s[..|s| - 1]), Last(s), id);
      }
    }
  }

  lemma {:induction false} UsedInsert(s: seq<ClusterNode>, x: ClusterNode, id: Id)
    ensures Used(Insert(s, x), id) <==> Used(s, id) || x.id == id
  {
    if s != [] && Less(x.id, Last(s).id) {
      var t := s[..|s| - 1];
      UsedInsert(t, x, id);
      assert (Insert(t, x) + [Last(s)])[..|Insert(t, x)|] == Insert(t, x);
    } else {
      assert (s + [x])[..|s|] == s;
    }
  }

  /** Adding a node to the input changes the list only if its id is new: the first occurrence of an id wins. */
  lemma NormalizeSnoc(s: seq<ClusterNode>, x: ClusterNode)
    ensures Normalize(s + [x]) == if Used(s, x.id) then Normalize(s) else Insert(Normalize(s), x)
  {
    assert (s + [x])[..|s|] == s;
    SortIsWeak(s);
    DedupInsert(Sort(s), x);
  }

  ghost predicate UnusedIn(s: seq<ClusterNode>, id: Id) {
    forall n :: n in Elements(s) ==> n.id != id
  }

  lemma {:induction false} UsedIff(s: seq<ClusterNode>, id: Id)
    ensures Used(s, id) <==> !UnusedIn(s, id)
  {
    if s != [] {
      UsedIff(s[..|s| - 1], id);
      ElementsSnoc(s);
    }
  }

  /** For every input list: strictly sorted, and exactly the first node of each id. */
  lemma {:induction false} NormalizeAny(s: seq<ClusterNode>)
    ensures Sorted(Normalize(s))
    ensures forall n :: n in Elements(Normalize(s)) <==> FirstOf(s, n)
  {
    if s != [] {
      var t, x := s[..|s| - 1], Last(s);
      assert s == t + [x];
      NormalizeAny(t);
      NormalizeSnoc(t, x);
      UsedIff(t, x.id);
      forall n
        ensures n in Elements(Normalize(s)) <==> FirstOf(s, n)
      {
        UsedIff(t, n.id);
        if !Used(t, x.id) {
          NormalizedUnused(t, x.id);
          InsertIntoSorted(Normalize(t), x);
        }
      }
      if !Used(t, x.id) {
        NormalizedUnused(t, x.id);
        InsertIntoSorted(Normalize(t), x);
      }
    }
  }

  /** `n` is in the list and no earlier node has its id. */
  predicate FirstOf(s: seq<ClusterNode>, n: ClusterNode) {
    s != [] && (FirstOf(s[..|s| - 1], n) || (Last(s) == n && !Used(s[..|s| - 1], n.id)))
  }

  lemma {:induction false} FirstOfIsUsed(s: seq<ClusterNode>, n: ClusterNode)
    requires FirstOf(s, n)
    ensures Used(s, n.id)
  {
    if FirstOf(s[..|s| - 1], n) {
      FirstOfIsUsed(s[..|s| - 1], n);
    }
  }

  lemma NormalizedUnused(s: seq<ClusterNode>, id: Id)
    requires forall n :: n in Elements(Normalize(s)) <==> FirstOf(s, n)
    requires !Used(s, id)
    ensures Unused(Normalize(s), id)
  {
    forall i | 0 <= i < |Normalize(s)|
      ensures Normalize(s)[i].id != id
    {
      assert Normalize(s)[i] in Elements(Normalize(s));
      FirstOfIsUsed(s, Normalize(s)[i]);
    }
  }
}
