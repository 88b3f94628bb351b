/**
 What an accepted chain proves about its contents. The digest is assumed collision-free only
 between the records that were written and the records being checked, and only on their
 pre-images: a digest with 32-byte values cannot be injective on all inputs.
 */
module TamperEvidence {
  import opened Binary
  import opened Wrappers
  import opened Sequences
  import opened AuditChain
  import opened AuditRuns

  /** No two pre-images in play collide, and none hashes to the genesis value. */
  ghost predicate CollisionFree(mac: Bytes -> Hash, hist: seq<Entry>, es: seq<Entry>) {
    && (forall i, j :: 0 <= i < |hist| && 0 <= j < |es| && mac(Preimage(hist[i])) == mac(Preimage(es[j])) ==>
          Preimage(hist[i]) == Preimage(es[j]))
    && (forall i :: 0 <= i < |hist| ==> mac(Preimage(hist[i])) != GENESIS)
    && (forall j :: 0 <= j < |es| ==> mac(Preimage(es[j])) != GENESIS)
  }

  /** Equal pre-images mean equal records, for every pair in play. */
  ghost predicate Determined(hist: seq<Entry>, es: seq<Entry>) {
    forall i, j :: 0 <= i < |hist| && 0 <= j < |es| && Preimage(hist[i]) == Preimage(es[j]) ==>
      hist[i].(hash := es[j].hash) == es[j]
  }

  lemma LastAgrees(mac: Bytes -> Hash, hist: seq<Entry>, es: seq<Entry>)
    requires Chained(mac, hist) && Chained(mac, es) && es != []
    requires CollisionFree(mac, hist, es) && Determined(hist, es)
    requires Last(es).hash == HeadHash(hist)
    ensures hist != [] && Last(hist) == Last(es)
  {
    assert Sealed(mac, es[|es| - 1]);
    assert hist != [];
    assert Sealed(mac, hist[|hist| - 1]);
  }

  lemma PrefixesInPlay(mac: Bytes -> Hash, hist: seq<Entry>, es: seq<Entry>, m: nat, n: nat)
    requires m <= |hist| && n <= |es|
    requires CollisionFree(mac, hist, es) && Determined(hist, es)
    ensures CollisionFree(mac, hist[..m], es[..n]) && Determined(hist[..m], es[..n])
  {
  }

  /** A verified chain that meets the history at its last hash. */
  ghost predicate Meets(mac: Bytes -> Hash, hist: seq<Entry>, es: seq<Entry>) {
    && Chained(mac, hist) && (hist != [] ==> hist[0].prev == GENESIS)
    && Chained(mac, es)
    && CollisionFree(mac, hist, es) && Determined(hist, es)
    && (es != [] ==> Last(es).hash == HeadHash(hist))
  }

  lemma PrevIsHead(mac: Bytes -> Hash, es: seq<Entry>)
    requires Chained(mac, es) && |es| > 1
    ensures Last(es).prev == Last(es[..|es| - 1]).hash
  {
    assert Follows(es[|es| - 2], es[|es| - 1]);
  }

  lemma StepBack(mac: Bytes -> Hash, hist: seq<Entry>, es: seq<Entry>)
    requires Meets(mac, hist, es) && es != []
    ensures hist != [] && Last(hist) == Last(es)
    ensures Meets(mac, hist[..|hist| - 1], es[..|es| - 1])
  {
    LastAgrees(mac, hist, es);
    ChainedPrefix(mac, es, |es| - 1);
    ChainedPrefix(mac, hist, |hist| - 1);
    PrefixesInPlay(mac, hist, es, |hist| - 1, |es| - 1);
    if |es| > 1 {
      PrevIsHead(mac, es);
      if |hist| > 1 {
        PrevIsHead(mac, hist);
      }
    }
  }

  lemma SuffixExtends<T>(s: seq<T>, t: seq<T>)
    requires s != [] && t != [] && Last(s) == Last(t)
    requires IsSuffix(s[..|s| - 1], t[..|t| - 1])
    ensures IsSuffix(s, t)
  {
  }

  lemma {:induction false} WalkBack(mac: Bytes -> Hash, hist: seq<Entry>, es: seq<Entry>)
    requires Meets(mac, hist, es)
    ensures IsSuffix(es, hist)
  {
    if es != [] {
      StepBack(mac, hist, es);
      WalkBack(mac, hist[..|hist| - 1], es[..|es| - 1]);
      SuffixExtends(es, hist);
    }
  }

  /**
   Any file contents that replay accepts and whose last hash is the true chain head are
   exactly the newest part of what was recorded, when no recorded string holds a separator.
   */
  lemma TamperEvident(mac: Bytes -> Hash, hist: seq<Entry>, lines: File)
    requires History(mac, hist) && (forall i :: 0 <= i < |hist| ==> Unsplittable(hist[i]))
    requires Accepts(mac, lines) && HeadHash(Entries(lines)) == HeadHash(hist)
    requires CollisionFree(mac, hist, Entries(lines))
    ensures IsSuffix(Entries(lines), hist)
    ensures hist != [] ==> Entries(lines) != []
  {
    var es := Entries(lines);
    forall i, j | 0 <= i < |hist| && 0 <= j < |es| && Preimage(hist[i]) == Preimage(es[j])
      ensures hist[i].(hash := es[j].hash) == es[j]
    {
      UnsplittableIsUnique(hist[i], es[j]);
    }
    WalkBack(mac, hist, es);
    if hist != [] {
      assert Sealed(mac, hist[|hist| - 1]);
    }
  }

  /** The same for any detail text, when actors and actions on both sides hold no separator. */
  lemma TamperEvidentAnyDetail(mac: Bytes -> Hash, hist: seq<Entry>, lines: File)
    requires History(mac, hist)
    requires forall i :: 0 <= i < |hist| ==> SepFree(hist[i].actor) && SepFree(hist[i].action)
    requires forall j :: 0 <= j < |Entries(lines)| ==>
               SepFree(Entries(lines)[j].actor) && SepFree(Entries(lines)[j].action)
    requires Accepts(mac, lines) && HeadHash(Entries(lines)) == HeadHash(hist)
    requires CollisionFree(mac, hist, Entries(lines))
    ensures IsSuffix(Entries(lines), hist)
  {
    var es := Entries(lines);
    forall i, j | 0 <= i < |hist| && 0 <= j < |es| && Preimage(hist[i]) == Preimage(es[j])
      ensures hist[i].(hash := es[j].hash) == es[j]
    {
      PreimageInjective(hist[i], es[j]);
    }
    WalkBack(mac, hist, es);
  }

  /**
   The condition cannot be dropped: a chain with one splittable record has a different chain
   of the same length that verifies to the same head.
   */
  lemma SplittableGoesUnseen(mac: Bytes -> Hash, es: seq<Entry>, i: nat) returns (fs: seq<Entry>)
    requires Chained(mac, es) && i < |es| && !Unsplittable(es[i])
    ensures fs != es && |fs| == |es| && Chained(mac, fs) && HeadHash(fs) == HeadHash(es)
  {
    var twin := ShiftedTwin(es[i]);
    var f := twin.(hash := es[i].hash);
    assert Preimage(f) == Preimage(twin);
    SamePreimageIff(f, es[i]);
    fs := es[i := f];
    assert fs[i] != es[i];
    assert forall k :: 0 <= k < |fs| ==>
        fs[k].hash == es[k].hash && fs[k].prev == es[k].prev && fs[k].seqNo == es[k].seqNo;
    forall k | 0 <= k < |fs|
      ensures Sealed(mac, fs[k])
    {
      assert Sealed(mac, es[k]);
    }
    forall k | 0 < k < |fs|
      ensures Follows(fs[k - 1], fs[k])
    {
      assert Follows(es[k - 1], es[k]);
    }
  }
}
