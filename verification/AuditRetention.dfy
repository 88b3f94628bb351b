/**
 Exactly when pruning keeps the chain readable. Removal of an old segment is best effort;
 if an older file stays while a newer one goes, the next open finds a gap and refuses.
 */
module AuditRetention {
  import opened Binary
  import opened Wrappers
  import opened Sequences
  import opened AuditChain
  import opened AuditLog
  import opened AuditRuns

  // ----- counting lines

  lemma {:induction false} NoMoreLines(segs: map<nat, File>, gone: set<nat>)
    ensures |Flatten(SegFiles(segs - gone))| <= |Flatten(SegFiles(segs))|
    decreases |segs|
  {
    if |segs| == 0 {
      assert segs - gone == segs;
    } else {
      var m := MaxOf(segs.Keys);
      var below := segs - {m};
      NoMoreLines(below, gone);
      RemovalAtNewest(segs, gone);
      FlattenAppend(SegFiles(below), segs[m]);
      if m !in gone {
        FlattenAppend(SegFiles(below - gone), segs[m]);
      }
    }
  }

  /** Removing a segment that holds something leaves fewer lines. */
  lemma {:induction false} FewerLines(segs: map<nat, File>, gone: set<nat>, k: nat)
    requires k in segs && k in gone && segs[k] != []
    ensures |Flatten(SegFiles(segs - gone))| < |Flatten(SegFiles(segs))|
    decreases |segs|
  {
    var m := MaxOf(segs.Keys);
    var below := segs - {m};
    RemovalAtNewest(segs, gone);
    FlattenAppend(SegFiles(below), segs[m]);
    if k == m {
      NoMoreLines(below, gone);
    } else {
      assert k in below && below[k] == segs[k];
      FewerLines(below, gone, k);
      if m !in gone {
        FlattenAppend(SegFiles(below - gone), segs[m]);
      }
    }
  }

  lemma {:induction false} EntriesOfRecords(lines: File)
    requires forall i :: 0 <= i < |lines| ==> lines[i].Rec?
    ensures |Entries(lines)| == |lines|
    ensures forall i :: 0 <= i < |lines| ==> Entries(lines)[i] == lines[i].e
  {
    if lines != [] {
      EntriesOfRecords(lines[..|lines| - 1]);
    }
  }

  /** The number of lines of an accepted stretch of records is fixed by its two ends. */
  lemma AcceptedLength(mac: Bytes -> Hash, lines: File)
    requires lines != [] && Accepts(mac, lines)
    requires forall i :: 0 <= i < |lines| ==> lines[i].Rec? && lines[i].e.seqNo >= 1
    ensures Last(lines).e.seqNo == lines[0].e.seqNo + |lines| - 1
  {
    EntriesOfRecords(lines);
    ChainedCounts(mac, Entries(lines), |lines| - 1);
  }

  // ----- where the lines come from

  ghost predicate FromHistory(lines: File, hist: seq<Entry>) {
    forall l :: l in lines ==> l.Rec? && l.e in hist
  }

  lemma {:induction false} HoldNewestFromHistory(lines: File, hist: seq<Entry>)
    requires HoldNewest(lines, hist)
    ensures FromHistory(lines, hist)
  {
    if lines != [] {
      HoldNewestFromHistory(lines[..|lines| - 1], hist[..|hist| - 1]);
      assert lines == lines[..|lines| - 1] + [Last(lines)];
    }
  }

  lemma {:induction false} RemovalKeepsOrigin(segs: map<nat, File>, gone: set<nat>, hist: seq<Entry>)
    requires FromHistory(Flatten(SegFiles(segs)), hist)
    ensures FromHistory(Flatten(SegFiles(segs - gone)), hist)
    decreases |segs|
  {
    if |segs| == 0 {
      assert segs - gone == segs;
    } else {
      var m := MaxOf(segs.Keys);
      var below := segs - {m};
      FlattenAppend(SegFiles(below), segs[m]);
      assert Flatten(SegFiles(segs)) == Flatten(SegFiles(below)) + segs[m];
      RemovalKeepsOrigin(below, gone, hist);
      RemovalAtNewest(segs, gone);
      if m !in gone {
        FlattenAppend(SegFiles(below - gone), segs[m]);
      }
    }
  }

  // ----- the ends of what is left

  /** The first file listed is the one with the lowest key. */
  lemma FirstFile(segs: map<nat, File>, k: nat)
    requires k in segs && forall x :: x in segs ==> k <= x
    ensures SegFiles(segs) != [] && SegFiles(segs)[0] == segs[k]
  {
    SegFilesInKeyOrder(segs);
    SortedKeysAscend(segs.Keys);
    var ks := SortedKeys(segs.Keys);
    SortedKeysMembers(segs.Keys, k);
    var i :| 0 <= i < |ks| && ks[i] == k;
    assert ks[0] in segs && ks[0] <= ks[i];
  }

  lemma FlattenFirst(fs: seq<File>)
    requires fs != [] && fs[0] != []
    ensures Flatten(fs) != [] && Flatten(fs)[0] == fs[0][0]
  {
    FlattenSplit(fs, 1);
    FlattenAppend([], fs[0]);
    assert fs[..1] == [] + [fs[0]];
  }

  lemma FirstLine(segs: map<nat, File>, live: File, k: nat)
    requires k in segs && segs[k] != [] && forall x :: x in segs ==> k <= x
    ensures Flatten(SegFiles(segs)) + live != [] && (Flatten(SegFiles(segs)) + live)[0] == segs[k][0]
  {
    FirstFile(segs, k);
    FlattenFirst(SegFiles(segs));
  }

  lemma LastLine(segs: map<nat, File>, live: File, m: nat)
    requires m in segs && segs[m] != [] && forall x :: x in segs ==> x <= m
    ensures Flatten(SegFiles(segs)) + live != []
    ensures Last(Flatten(SegFiles(segs)) + live) == if live == [] then Last(segs[m]) else Last(live)
  {
    assert MaxOf(segs.Keys) == m;
    FlattenAppend(SegFiles(segs - {m}), segs[m]);
  }

  // ----- the exact condition

  lemma SameEndsSameLength(mac: Bytes -> Hash, all: File, left: File, hist: seq<Entry>)
    requires History(mac, hist) && HoldNewest(all, hist)
    requires FromHistory(left, hist) && Accepts(mac, left)
    requires all != [] && left != [] && all[0] == left[0] && Last(all) == Last(left)
    ensures |all| == |left|
  {
    HoldNewestFromHistory(all, hist);
    NewestAccepted(mac, hist, all);
    AcceptedLength(mac, all);
    AcceptedLength(mac, left);
  }

  lemma FromHistoryParts(a: File, b: File, hist: seq<Entry>)
    ensures FromHistory(a + b, hist) <==> FromHistory(a, hist) && FromHistory(b, hist)
  {
    assert forall l :: l in a + b <==> l in a || l in b;
  }

  /** If what is left still chains and keeps both ends, nothing in between was removed. */
  lemma NoGap(mac: Bytes -> Hash, segs: map<nat, File>, gone: set<nat>, live: File, hist: seq<Entry>, lo: nat, hi: nat)
    requires History(mac, hist)
    requires HoldNewest(Flatten(SegFiles(segs)) + live, hist)
    requires forall k :: k in segs ==> segs[k] != [] && lo <= k <= hi
    requires lo in segs && hi in segs && lo !in gone && hi !in gone
    requires Accepts(mac, Flatten(SegFiles(segs - gone)) + live)
    ensures forall k :: k in segs ==> k !in gone
  {
    var all, left := Flatten(SegFiles(segs)), Flatten(SegFiles(segs - gone));
    FirstLine(segs, live, lo);
    FirstLine(segs - gone, live, lo);
    LastLine(segs, live, hi);
    LastLine(segs - gone, live, hi);
    HoldNewestFromHistory(all + live, hist);
    FromHistoryParts(all, live, hist);
    RemovalKeepsOrigin(segs, gone, hist);
    FromHistoryParts(left, live, hist);
    SameEndsSameLength(mac, all + live, left + live, hist);
    forall k | k in segs
      ensures k !in gone
    {
      if k in gone {
        FewerLines(segs, gone, k);
      }
    }
  }

  lemma VictimsAreOldest(q: Persist)
    requires Victims(q) != []
    ensures |Victims(q)| < |SortedKeys(q.segs.Keys)| && Victims(q) == SortedKeys(q.segs.Keys)[..|Victims(q)|]
    ensures forall j :: |Victims(q)| <= j < |SortedKeys(q.segs.Keys)| ==> SortedKeys(q.segs.Keys)[j] !in Victims(q)
  {
    var ks := SortedKeys(q.segs.Keys);
    SortedKeysSize(q.segs.Keys);
    SortedKeysAscend(q.segs.Keys);
    forall j | |Victims(q)| <= j < |ks|
      ensures ks[j] !in Victims(q)
    {
      assert forall i :: 0 <= i < |Victims(q)| ==> Victims(q)[i] == ks[i] < ks[j];
    }
  }

  /** Without its `i` smallest elements a set lies between its `i`-th smallest and its largest. */
  lemma KeptRange(s: set<nat>, i: nat)
    requires i < |SortedKeys(s)|
    ensures forall k :: k in s - Elements(SortedKeys(s)[..i]) ==> SortedKeys(s)[i] <= k <= Last(SortedKeys(s))
    ensures SortedKeys(s)[i] in s - Elements(SortedKeys(s)[..i])
    ensures Last(SortedKeys(s)) in s - Elements(SortedKeys(s)[..i])
  {
    var ks := SortedKeys(s);
    SortedKeysAscend(s);
    SortedKeysMembers(s, ks[i]);
    SortedKeysMembers(s, Last(ks));
    assert forall j :: 0 <= j < i ==> ks[..i][j] == ks[j] < ks[i] <= Last(ks);
    assert forall j :: 0 <= j < i ==> ks[j] in ks[..i];
    forall k | k in s - Elements(ks[..i])
      ensures ks[i] <= k <= Last(ks)
    {
      SortedKeysMembers(s, k);
      var j :| 0 <= j < |ks| && ks[j] == k;
    }
  }

  lemma FirstKept(ks: seq<nat>, gone: set<nat>) returns (i: nat)
    requires exists k :: k in ks && k !in gone
    ensures i < |ks| && ks[i] !in gone && forall j :: 0 <= j < i ==> ks[j] in gone
  {
    i := 0;
    while ks[i] in gone
      invariant i < |ks|
      invariant forall j :: 0 <= j < i ==> ks[j] in gone
      invariant exists j :: i <= j < |ks| && ks[j] !in gone
      decreases |ks| - i
    {
      i := i + 1;
    }
  }

  lemma NothingToPrune(q: Persist, stuck: set<nat>)
    ensures Victims(q) == [] ==> OldestFirst(q, stuck)
  {
    assert Removed([], stuck) == Elements([][..0]);
  }

  lemma GapFreeMeansOldestFirst(codec: Codec, q: Persist, hist: seq<Entry>, stuck: set<nat>)
    requires History(codec.mac, hist) && DiskOk(codec, q, hist)
    requires Victims(q) != []
    requires Accepts(codec.mac, DiskLines(PruneSegments(q, stuck)))
    ensures OldestFirst(q, stuck)
  {
    var vs, ks := Victims(q), SortedKeys(q.segs.Keys);
    var gone := Removed(vs, stuck);
    VictimsAreOldest(q);
    var i := FirstKeptIsEarly(ks, vs, stuck);
    forall k | k in gone
      ensures k in q.segs
    {
      SortedKeysMembers(q.segs.Keys, k);
    }
    DiskLinesSplit(q);
    DiskLinesSplit(PruneSegments(q, stuck));
    KeptBetween(codec.mac, q.segs, q.live.value, hist, gone, i);
    SamePrefix(ks, vs, gone, i);
  }

  lemma SamePrefix(ks: seq<nat>, vs: seq<nat>, gone: set<nat>, i: nat)
    requires |vs| < |ks| && vs == ks[..|vs|] && i <= |vs|
    requires Elements(ks[..i]) <= gone && forall k :: k in gone ==> k in ks[..i]
    ensures gone == Elements(vs[..i])
  {
    assert vs[..i] == ks[..i];
  }

  lemma FirstKeptIsEarly(ks: seq<nat>, vs: seq<nat>, stuck: set<nat>) returns (i: nat)
    requires |vs| < |ks| && vs == ks[..|vs|]
    requires forall j :: |vs| <= j < |ks| ==> ks[j] !in vs
    ensures i <= |vs| && ks[i] !in Removed(vs, stuck)
    ensures Last(ks) !in Removed(vs, stuck)
    ensures Elements(ks[..i]) <= Removed(vs, stuck)
  {
    var gone := Removed(vs, stuck);
    assert ks[|vs|] !in gone && Last(ks) !in gone;
    i := FirstKept(ks, gone);
    assert forall j :: 0 <= j < i ==> ks[j] in gone;
  }

  lemma KeptBetween(mac: Bytes -> Hash, all: map<nat, File>, live: File, hist: seq<Entry>, gone: set<nat>, i: nat)
    requires History(mac, hist) && HoldNewest(Flatten(SegFiles(all)) + live, hist)
    requires forall k :: k in all ==> all[k] != []
    requires i < |SortedKeys(all.Keys)|
    requires SortedKeys(all.Keys)[i] !in gone && Last(SortedKeys(all.Keys)) !in gone
    requires Elements(SortedKeys(all.Keys)[..i]) <= gone
    requires Accepts(mac, Flatten(SegFiles(all - gone)) + live)
    ensures forall k :: k in all && k in gone ==> k in SortedKeys(all.Keys)[..i]
  {
    var ks := SortedKeys(all.Keys);
    var early := Elements(ks[..i]);
    var segs := all - early;
    assert HoldNewest(Flatten(SegFiles(segs)) + live, hist) by {
      SegFilesDropOldest(all, i);
      DroppedFiles(SegFiles(all), i, live);
      HoldNewestDrop(Flatten(SegFiles(all)[..i]), Flatten(SegFiles(segs)) + live, hist);
    }
    KeptRange(all.Keys, i);
    assert segs.Keys == all.Keys - early;
    RemoveTwice(all, early, gone);
    NoGap(mac, segs, gone, live, hist, ks[i], Last(ks));
  }

  /**
   After a prune, the files are accepted by the next open if and only if what was removed is
   an initial stretch of the victims: no older segment outlives a removed newer one.
   */
  lemma PruneReadableIff(codec: Codec, q: Persist, hist: seq<Entry>, stuck: set<nat>)
    requires History(codec.mac, hist) && DiskOk(codec, q, hist)
    ensures Accepts(codec.mac, DiskLines(PruneSegments(q, stuck))) <==> OldestFirst(q, stuck)
  {
    NothingToPrune(q, stuck);
    if OldestFirst(q, stuck) {
      PrunedOldestFirstKeepsDisk(codec, q, hist, stuck);
      NewestAccepted(codec.mac, hist, DiskLines(PruneSegments(q, stuck)));
    } else if Accepts(codec.mac, DiskLines(PruneSegments(q, stuck))) {
      if Victims(q) != [] {
        GapFreeMeansOldestFirst(codec, q, hist, stuck);
      }
    }
  }

  /** A write that leaves a healthy log undegraded leaves it readable exactly when it prunes oldest first. */
  lemma WriteKeepsHealthyIff(codec: Codec, l: Log, hist: seq<Entry>, r: Request, ts: U64, d: Disk)
    requires Healthy(codec, l, hist) && l.seqNo < U64_MAX && Undegraded(codec, l, Write(r, ts, d))
    ensures var e := NextEntry(codec, l, r, ts);
            && Record(codec, l, r, ts, d).1
            && (Healthy(codec, Record(codec, l, r, ts, d).0, hist + [e])
                <==> PrunesInOrder(codec, l.persist.value, e, d))
  {
    var e, p := NextEntry(codec, l, r, ts), l.persist.value;
    RecordKeepsMemory(codec, l, hist, r, ts, d);
    assert Append(codec, p, e, d).1;
    if PrunesInOrder(codec, p, e, d) {
      AppendKeepsDisk(codec, p, hist, e, d);
    } else {
      WrittenRotatesHealthy(codec, p, hist, e, d);
      var q := Rotated(Written(codec, p, e), e.seqNo);
      PruneReadableIff(codec, q, hist + [e], d.stuck);
      if Healthy(codec, Record(codec, l, r, ts, d).0, hist + [e]) {
        NewestAccepted(codec.mac, hist + [e], DiskLines(PruneSegments(q, d.stuck)));
      }
    }
  }

  lemma WrittenRotatesHealthy(codec: Codec, p: Persist, hist: seq<Entry>, e: Entry, d: Disk)
    requires DiskOk(codec, p, hist) && History(codec.mac, hist + [e]) && Rotates(Written(codec, p, e), d)
    ensures e.seqNo == |hist| + 1 && DiskOk(codec, Rotated(Written(codec, p, e), e.seqNo), hist + [e])
  {
    var w := Written(codec, p, e);
    WrittenKeepsDisk(codec, p, hist, e);
    WrittenLines(codec, p, e);
    assert e == (hist + [e])[|hist|];
    assert forall k :: k in w.segs ==> k < |hist + [e]|;
    RotatedKeepsDisk(codec, w, hist + [e]);
  }

  // ----- runs that are merely undegraded

  ghost predicate Submap(a: map<nat, File>, b: map<nat, File>) {
    forall k :: k in a ==> k in b && b[k] == a[k]
  }

  /** No key is missing above one that is there. */
  ghost predicate UpwardClosed(kept: set<nat>, all: set<nat>) {
    forall j, k :: j in kept && k in all && j <= k ==> k in kept
  }

  /**
   Memory agrees with the history; every segment ever closed, plus the live file, is the newest
   part of it; the segments still on disk are among those, the last one closed included.
   */
  ghost predicate Archived(codec: Codec, l: Log, hist: seq<Entry>, closed: map<nat, File>) {
    && History(codec.mac, hist) && MemoryOk(l, hist) && !l.degraded && l.persist.Some?
    && FilesKept(codec, l.persist.value, hist, closed)
  }

  ghost predicate FilesKept(codec: Codec, p: Persist, hist: seq<Entry>, closed: map<nat, File>) {
    && DiskOk(codec, p.(segs := closed), hist)
    && Submap(p.segs, closed)
    && (closed.Keys != {} ==> MaxOf(closed.Keys) in p.segs)
  }

  ghost function ClosedBy(closed: map<nat, File>, l: Log): map<nat, File> {
    if l.persist.Some? then closed + l.persist.value.segs else closed
  }

  /** Every segment ever closed, the ones pruned since included. */
  ghost function RunClosed(codec: Codec, l: Log, closed: map<nat, File>, evs: seq<Event>): map<nat, File>
    requires l.cap > 0
    decreases evs
  {
    if evs == [] then closed
    else
      var next := Step(codec, l, evs[0]);
      RunClosed(codec, next, ClosedBy(closed, next), evs[1..])
  }

  lemma SubmapIsDifference(a: map<nat, File>, b: map<nat, File>)
    requires Submap(a, b)
    ensures a == b - (b.Keys - a.Keys) && b + a == b
  {
  }

  /** Keys closed upwards are those from the first one kept on. */
  lemma ClosedFromFirst(kept: set<nat>, all: set<nat>) returns (i: nat)
    requires kept <= all && all != {} && MaxOf(all) in kept
    ensures i < |SortedKeys(all)| && SortedKeys(all)[i] in kept && Last(SortedKeys(all)) in kept
    ensures Elements(SortedKeys(all)[..i]) <= all - kept
    ensures UpwardClosed(kept, all) <==> forall k :: k in all - kept ==> k in SortedKeys(all)[..i]
  {
    var ks := SortedKeys(all);
    var gone := all - kept;
    assert Last(ks) == MaxOf(all);
    i := FirstKept(ks, gone);
    SortedKeysMembers(all, ks[i]);
    forall k | k in ks[..i]
      ensures k in gone
    {
      var j :| 0 <= j < i && ks[j] == k;
    }
    forall k | k in all
      ensures k in ks[..i] <==> k < ks[i]
    {
      BelowIsEarlier(all, i, k);
    }
    assert UpwardClosed(kept, all) ==> forall k :: k in gone ==> k < ks[i];
    assert (forall k :: k in gone ==> k in ks[..i]) ==> forall j, k :: j in kept && k in gone ==> k < ks[i] <= j;
  }

  lemma BelowIsEarlier(all: set<nat>, i: nat, k: nat)
    requires i < |SortedKeys(all)| && k in all
    ensures k in SortedKeys(all)[..i] <==> k < SortedKeys(all)[i]
  {
    var ks := SortedKeys(all);
    SortedKeysAscend(all);
    SortedKeysMembers(all, k);
    var j :| 0 <= j < |ks| && ks[j] == k;
    assert j < i ==> ks[..i][j] == k;
  }

  lemma SameKeysGone(ks: seq<nat>, i: nat, gone: set<nat>)
    requires i <= |ks| && Elements(ks[..i]) <= gone && forall k :: k in gone ==> k in ks[..i]
    ensures gone == Elements(ks[..i])
  {
  }

  /** Upward closed, the files on disk are themselves the newest part of the history. */
  lemma UpwardClosedIsDisk(codec: Codec, p: Persist, hist: seq<Entry>, closed: map<nat, File>)
    requires FilesKept(codec, p, hist, closed) && UpwardClosed(p.segs.Keys, closed.Keys)
    ensures DiskOk(codec, p, hist)
  {
    SubmapIsDifference(p.segs, closed);
    var full := p.(segs := closed);
    DiskLinesSplit(full);
    DiskLinesSplit(p);
    if closed.Keys == {} {
      assert p.segs == closed;
    } else {
      var gone := closed.Keys - p.segs.Keys;
      var i := ClosedFromFirst(p.segs.Keys, closed.Keys);
      SameKeysGone(SortedKeys(closed.Keys), i, gone);
      SegFilesDropOldest(closed, i);
      DroppedFiles(SegFiles(closed), i, p.live.value);
      HoldNewestDrop(Flatten(SegFiles(closed)[..i]), DiskLines(p), hist);
      assert MaxOf(p.segs.Keys) == MaxOf(closed.Keys);
      LastLine(p.segs, p.live.value, MaxOf(closed.Keys));
    }
  }

  lemma ReadableIsUpwardClosed(codec: Codec, p: Persist, hist: seq<Entry>, closed: map<nat, File>)
    requires History(codec.mac, hist) && FilesKept(codec, p, hist, closed) && Accepts(codec.mac, DiskLines(p))
    ensures UpwardClosed(p.segs.Keys, closed.Keys)
  {
    if closed.Keys != {} {
      SubmapIsDifference(p.segs, closed);
      var full := p.(segs := closed);
      DiskLinesSplit(full);
      DiskLinesSplit(p);
      var gone := closed.Keys - p.segs.Keys;
      var i := ClosedFromFirst(p.segs.Keys, closed.Keys);
      KeptBetween(codec.mac, closed, p.live.value, hist, gone, i);
    }
  }

  /**
   The files of an undegraded log are accepted by the next open, and are then the newest part of
   the history, exactly when no segment is missing above one that is still there.
   */
  lemma ReadableIff(codec: Codec, l: Log, hist: seq<Entry>, closed: map<nat, File>)
    requires Archived(codec, l, hist, closed)
    ensures Accepts(codec.mac, DiskLines(l.persist.value)) <==> UpwardClosed(l.persist.value.segs.Keys, closed.Keys)
    ensures Healthy(codec, l, hist) <==> UpwardClosed(l.persist.value.segs.Keys, closed.Keys)
  {
    var p := l.persist.value;
    if UpwardClosed(p.segs.Keys, closed.Keys) {
      UpwardClosedIsDisk(codec, p, hist, closed);
      NewestAccepted(codec.mac, hist, DiskLines(p));
    } else {
      if Healthy(codec, l, hist) {
        NewestAccepted(codec.mac, hist, DiskLines(p));
      }
      if Accepts(codec.mac, DiskLines(p)) {
        ReadableIsUpwardClosed(codec, p, hist, closed);
      }
    }
  }

  lemma HealthyIsArchived(codec: Codec, l: Log, hist: seq<Entry>)
    requires Healthy(codec, l, hist)
    ensures Archived(codec, l, hist, l.persist.value.segs)
  {
    assert l.persist.value.(segs := l.persist.value.segs) == l.persist.value;
  }

  lemma AppendKeepsFiles(codec: Codec, p: Persist, hist: seq<Entry>, closed: map<nat, File>, e: Entry, d: Disk)
    requires FilesKept(codec, p, hist, closed) && History(codec.mac, hist + [e]) && Append(codec, p, e, d).1
    ensures FilesKept(codec, Append(codec, p, e, d).0, hist + [e], closed + Append(codec, p, e, d).0.segs)
  {
    var full, w := p.(segs := closed), Written(codec, p, e);
    assert Written(codec, full, e) == w.(segs := closed) && w.segs == p.segs;
    SubmapIsDifference(p.segs, closed);
    if Rotates(w, d) {
      assert && DiskOk(codec, Rotated(w.(segs := closed), e.seqNo), hist + [e])
             && forall x :: x in closed ==> x < e.seqNo by {
        WrittenRotatesHealthy(codec, full, hist, e, d);
      }
      RotatedKeepsFiles(codec, w, hist + [e], closed, e.seqNo, d.stuck);
    } else {
      WrittenKeepsDisk(codec, full, hist, e);
    }
  }

  lemma RotatedKeepsFiles(codec: Codec, w: Persist, hist: seq<Entry>, closed: map<nat, File>, k: U64, stuck: set<nat>)
    requires w.live.Some? && Submap(w.segs, closed) && forall x :: x in closed ==> x < k
    requires DiskOk(codec, Rotated(w.(segs := closed), k), hist)
    ensures var after := PruneSegments(Rotated(w, k), stuck);
            FilesKept(codec, after, hist, closed + after.segs)
  {
    var after := PruneSegments(Rotated(w, k), stuck);
    RotatedAndPruned(w, closed, k, stuck);
    assert after.(segs := closed + after.segs) == Rotated(w.(segs := closed), k);
  }

  /** The segment just closed survives the prune that follows. */
  lemma RotatedAndPruned(w: Persist, closed: map<nat, File>, k: U64, stuck: set<nat>)
    requires w.live.Some? && Submap(w.segs, closed) && forall x :: x in closed ==> x < k
    ensures var after := PruneSegments(Rotated(w, k), stuck).segs;
            && closed + after == closed[k := w.live.value]
            && Submap(after, closed + after)
            && (closed + after).Keys != {} && MaxOf((closed + after).Keys) == k && k in after
  {
    var q := Rotated(w, k);
    var after := PruneSegments(q, stuck).segs;
    assert k in q.segs && forall x :: x in q.segs ==> x <= k;
    PruneSparesNewest(q, k, stuck);
    assert closed + after == closed[k := w.live.value];
  }

  lemma StepKeepsArchived(codec: Codec, l: Log, hist: seq<Entry>, closed: map<nat, File>, ev: Event)
    requires Archived(codec, l, hist, closed) && Undegraded(codec, l, ev) && l.seqNo < U64_MAX
    ensures var next := Step(codec, l, ev);
            Archived(codec, next, Recorded(codec, l, hist, ev), ClosedBy(closed, next))
  {
    match ev {
      case Write(r, ts, d) =>
        RecordKeepsMemory(codec, l, hist, r, ts, d);
        AppendKeepsFiles(codec, l.persist.value, hist, closed, NextEntry(codec, l, r, ts), d);
      case Restart(cap, maxBytes, maxSegments) =>
        RestartKeepsArchived(codec, l, hist, closed, cap, maxBytes, maxSegments);
    }
  }

  lemma SettingsKeepFiles(codec: Codec, p: Persist, hist: seq<Entry>, closed: map<nat, File>, maxBytes: nat,
                          maxSegments: nat)
    requires FilesKept(codec, p, hist, closed) && maxBytes > 0
    ensures FilesKept(codec, p.(maxBytes := maxBytes, maxSegments := maxSegments), hist, closed)
  {
    SettingsKeepDisk(codec, p.(segs := closed), hist, maxBytes, maxSegments);
    assert p.(segs := closed).(maxBytes := maxBytes, maxSegments := maxSegments)
      == p.(maxBytes := maxBytes, maxSegments := maxSegments).(segs := closed);
  }

  lemma RestartKeepsArchived(codec: Codec, l: Log, hist: seq<Entry>, closed: map<nat, File>,
                             cap: nat, maxBytes: nat, maxSegments: nat)
    requires Archived(codec, l, hist, closed)
    ensures var next := Step(codec, l, Restart(cap, maxBytes, maxSegments));
            Archived(codec, next, hist, ClosedBy(closed, next))
  {
    var p := l.persist.value;
    SubmapIsDifference(p.segs, closed);
    if Accepts(codec.mac, DiskLines(p)) {
      assert Healthy(codec, l, hist) by {
        ReadableIff(codec, l, hist, closed);
      }
      var next := Step(codec, l, Restart(cap, maxBytes, maxSegments));
      assert && next.persist == Some(p.(maxBytes := Max(maxBytes, 1), maxSegments := maxSegments))
             && Healthy(codec, next, hist) by {
        RestartResumes(codec, l, hist, cap, maxBytes, maxSegments);
      }
      SettingsKeepFiles(codec, p, hist, closed, Max(maxBytes, 1), maxSegments);
    }
  }

  lemma {:induction false} ArchivedRuns(codec: Codec, l: Log, hist: seq<Entry>, closed: map<nat, File>, evs: seq<Event>)
    requires Archived(codec, l, hist, closed) && UndegradedRun(codec, l, evs) && |hist| + |evs| <= U64_MAX
    ensures Archived(codec, Run(codec, l, evs), RunHistory(codec, l, hist, evs), RunClosed(codec, l, closed, evs))
    ensures hist <= RunHistory(codec, l, hist, evs)
    decreases evs
  {
    if evs != [] {
      var next := Step(codec, l, evs[0]);
      StepKeepsArchived(codec, l, hist, closed, evs[0]);
      ArchivedRuns(codec, next, Recorded(codec, l, hist, evs[0]), ClosedBy(closed, next), evs[1..]);
    }
  }

  /**
   Over every run of records, rotations, failed renames, prunes with whatever unlinks fail, and
   restarts, during which the log calls itself healthy: memory agrees with the history, and so do
   the segments ever closed plus the live file. The files on disk are the newest part of it, and
   the next open accepts them, exactly when no segment is missing above one still there.
   */
  lemma HealthyRuns(codec: Codec, l: Log, hist: seq<Entry>, evs: seq<Event>)
    requires Healthy(codec, l, hist) && UndegradedRun(codec, l, evs) && |hist| + |evs| <= U64_MAX
    ensures var after := Run(codec, l, evs);
            var all := RunHistory(codec, l, hist, evs);
            var closed := RunClosed(codec, l, l.persist.value.segs, evs);
            && hist <= all && Archived(codec, after, all, closed)
            && (Accepts(codec.mac, DiskLines(after.persist.value))
                <==> UpwardClosed(after.persist.value.segs.Keys, closed.Keys))
            && (Healthy(codec, after, all) <==> UpwardClosed(after.persist.value.segs.Keys, closed.Keys))
  {
    HealthyIsArchived(codec, l, hist);
    ArchivedRuns(codec, l, hist, l.persist.value.segs, evs);
    ReadableIff(codec, Run(codec, l, evs), RunHistory(codec, l, hist, evs),
                RunClosed(codec, l, l.persist.value.segs, evs));
  }

  // ----- a run the next open refuses

  /** Every file operation succeeds except unlinking the `stuck` segments. */
  function OnlyStuck(stuck: set<nat>): Disk {
    Disk(true, true, Nothing, true, true, stuck)
  }

  lemma NewestOfMore(s: set<nat>, m: nat)
    requires forall x :: x in s ==> x < m
    ensures SortedKeys(s + {m}) == SortedKeys(s) + [m]
  {
    assert MaxOf(s + {m}) == m;
    assert s + {m} - {m} == s;
  }

  /** Keeping one segment: what stays is the one just closed and whatever could not be unlinked. */
  lemma KeepOne(q: Persist, before: set<nat>, k: nat, stuck: set<nat>)
    requires q.maxSegments == 1 && q.segs.Keys == before + {k} && forall x :: x in before ==> x < k
    ensures PruneSegments(q, stuck).segs.Keys == {k} + (before * stuck)
  {
    NewestOfMore(before, k);
    SortedKeysSize(before);
    SortedKeysSize(q.segs.Keys);
    var ks := SortedKeys(before);
    assert Victims(q) == ks by {
      assert (ks + [k])[..|ks|] == ks;
    }
    forall x
      ensures x in ks <==> x in before
    {
      SortedKeysMembers(before, x);
    }
  }

  lemma AppendClosesSegment(codec: Codec, p: Persist, e: Entry, stuck: set<nat>)
    requires p.live.Some? && p.handle.None? && p.maxBytes == 1 && p.maxSegments == 1 && codec.size(Rec(e)) > 0
    requires forall k :: k in p.segs ==> k < e.seqNo
    ensures var (after, ok) := Append(codec, p, e, OnlyStuck(stuck));
            && ok && after.maxBytes == 1 && after.maxSegments == 1
            && after.segs.Keys == {e.seqNo as nat} + (p.segs.Keys * stuck)
  {
    var w := Written(codec, p, e);
    var q := Rotated(w, e.seqNo);
    assert q.segs == p.segs[e.seqNo := w.live.value];
    assert q.segs.Keys == p.segs.Keys + {e.seqNo as nat};
    KeepOne(q, p.segs.Keys, e.seqNo, stuck);
  }

  function Firsts(n: nat): set<nat> {
    if n == 0 then {} else Firsts(n - 1) + {n}
  }

  function KeptWith(n: nat, kept: set<nat>, stuck: set<nat>): set<nat> {
    {n} + (kept * stuck)
  }

  /** After `n` records, each of which closed its segment, with the segments `kept` left. */
  ghost predicate Stage(l: Log, n: nat, kept: set<nat>) {
    && l.cap > 0 && l.seqNo == n && !l.degraded && l.persist.Some?
    && l.persist.value.live.Some? && l.persist.value.handle.None?
    && l.persist.value.maxBytes == 1 && l.persist.value.maxSegments == 1
    && l.persist.value.segs.Keys == kept && forall k :: k in kept ==> k <= n
  }

  lemma NextStage(codec: Codec, l: Log, n: nat, kept: set<nat>, r: Request, stuck: set<nat>)
    requires Stage(l, n, kept) && n < U64_MAX && codec.size(Rec(NextEntry(codec, l, r, 0))) > 0
    ensures Stage(Record(codec, l, r, 0, OnlyStuck(stuck)).0, n + 1, KeptWith(n + 1, kept, stuck))
  {
    AppendClosesSegment(codec, l.persist.value, NextEntry(codec, l, r, 0), stuck);
  }

  lemma {:induction false} RunSnoc(codec: Codec, l: Log, closed: map<nat, File>, evs: seq<Event>, ev: Event)
    requires l.cap > 0
    ensures Run(codec, l, evs + [ev]) == Step(codec, Run(codec, l, evs), ev)
    ensures UndegradedRun(codec, l, evs + [ev]) <==>
            UndegradedRun(codec, l, evs) && Undegraded(codec, Run(codec, l, evs), ev)
    ensures RunClosed(codec, l, closed, evs + [ev])
            == ClosedBy(RunClosed(codec, l, closed, evs), Run(codec, l, evs + [ev]))
    decreases evs
  {
    if evs == [] {
      assert (evs + [ev])[1..] == [];
    } else {
      assert (evs + [ev])[1..] == evs[1..] + [ev];
      var next := Step(codec, l, evs[0]);
      RunSnoc(codec, next, ClosedBy(closed, next), evs[1..], ev);
    }
  }

  /** A run whose `n` records each closed a segment, with `kept` left. */
  ghost predicate Reaches(codec: Codec, l: Log, evs: seq<Event>, n: nat, kept: set<nat>)
    requires l.cap > 0
  {
    && UndegradedRun(codec, l, evs) && Stage(Run(codec, l, evs), n, kept)
    && RunClosed(codec, l, map[], evs).Keys == Firsts(n) && kept <= Firsts(n)
  }

  lemma OneMoreClosed(closed: map<nat, File>, segs: map<nat, File>, n: nat, kept: set<nat>)
    requires closed.Keys == Firsts(n) && segs.Keys == kept && n + 1 in kept && kept <= Firsts(n + 1)
    ensures (closed + segs).Keys == Firsts(n + 1)
  {
    assert (closed + segs).Keys == closed.Keys + segs.Keys;
  }

  lemma OneRecordMore(codec: Codec, l: Log, evs: seq<Event>, n: nat, kept: set<nat>, r: Request, stuck: set<nat>)
    requires l.cap > 0 && Reaches(codec, l, evs, n, kept) && n < U64_MAX && forall e :: codec.size(Rec(e)) > 0
    ensures Reaches(codec, l, evs + [Write(r, 0, OnlyStuck(stuck))], n + 1, KeptWith(n + 1, kept, stuck))
  {
    var ev, before := Write(r, 0, OnlyStuck(stuck)), Run(codec, l, evs);
    NextStage(codec, before, n, kept, r, stuck);
    RunSnoc(codec, l, map[], evs, ev);
    OneMoreClosed(RunClosed(codec, l, map[], evs), Step(codec, before, ev).persist.value.segs, n,
                  KeptWith(n + 1, kept, stuck));
  }

  /** Whether the next open accepts the files the run leaves. */
  ghost predicate Readable(codec: Codec, l: Log, evs: seq<Event>)
    requires l.cap > 0
  {
    var p := Run(codec, l, evs).persist;
    p.Some? && Accepts(codec.mac, DiskLines(p.value))
  }

  function Fresh(codec: Codec, cap: nat): Log {
    Opened(codec, map[], None, false, cap, 1, 1)
  }

  lemma ReadableStage(codec: Codec, cap: nat, evs: seq<Event>, n: nat, kept: set<nat>)
    requires Reaches(codec, Fresh(codec, cap), evs, n, kept) && |evs| <= U64_MAX
    ensures Readable(codec, Fresh(codec, cap), evs) <==> UpwardClosed(kept, Firsts(n))
  {
    FirstOpenHealthy(codec, cap, 1, 1);
    HealthyRuns(codec, Fresh(codec, cap), [], evs);
  }

  /** Segment 1 cannot be unlinked. */
  function FirstStuck(): set<nat> { {1} }

  /** Segments 1 and 3 are left. */
  function FirstAndThird(): set<nat> { {1, 3} }

  function Fourth(): set<nat> { {4} }

  lemma KeptThird()
    ensures KeptWith(3, KeptWith(2, KeptWith(1, {}, {}), FirstStuck()), FirstStuck()) == FirstAndThird()
  {
  }

  lemma KeptFourth()
    ensures KeptWith(4, FirstAndThird(), {}) == Fourth()
  {
  }

  lemma SecondIsMissing()
    ensures !UpwardClosed(FirstAndThird(), Firsts(3))
  {
    assert 2 in Firsts(3) by {
      assert Firsts(3) == Firsts(2) + {3} && Firsts(2) == Firsts(1) + {2};
    }
    assert 1 in FirstAndThird() && 2 !in FirstAndThird();
  }

  lemma {:induction false} FirstsAreSmall(n: nat, k: nat)
    ensures k in Firsts(n) ==> k <= n
  {
    if n > 0 {
      FirstsAreSmall(n - 1, k);
    }
  }

  lemma NothingIsMissing()
    ensures UpwardClosed(Fourth(), Firsts(4))
  {
    forall k | k in Firsts(4)
      ensures k <= 4
    {
      FirstsAreSmall(4, k);
    }
  }

  /** Three more records, keeping one segment, where segment 1 cannot be unlinked. */
  function StuckRun(evs: seq<Event>, r: Request): seq<Event> {
    evs + [Write(r, 0, OnlyStuck({}))] + [Write(r, 0, OnlyStuck(FirstStuck()))] + [Write(r, 0, OnlyStuck(FirstStuck()))]
  }

  lemma NothingReached(codec: Codec, cap: nat)
    ensures Reaches(codec, Fresh(codec, cap), [], 0, {})
  {
  }

  lemma StuckRunReaches(codec: Codec, l: Log, evs: seq<Event>, r: Request)
    requires l.cap > 0 && Reaches(codec, l, evs, 0, {}) && forall e :: codec.size(Rec(e)) > 0
    ensures Reaches(codec, l, StuckRun(evs, r), 3, FirstAndThird())
  {
    var one := evs + [Write(r, 0, OnlyStuck({}))];
    var two := one + [Write(r, 0, OnlyStuck(FirstStuck()))];
    OneRecordMore(codec, l, evs, 0, {}, r, {});
    OneRecordMore(codec, l, one, 1, KeptWith(1, {}, {}), r, FirstStuck());
    OneRecordMore(codec, l, two, 2, KeptWith(2, KeptWith(1, {}, {}), FirstStuck()), r, FirstStuck());
    KeptThird();
  }

  /** One more record, whose prune succeeds. */
  function Repaired(evs: seq<Event>, r: Request): seq<Event> {
    evs + [Write(r, 0, OnlyStuck({}))]
  }

  lemma RepairedReaches(codec: Codec, l: Log, evs: seq<Event>, r: Request)
    requires l.cap > 0 && Reaches(codec, l, evs, 3, FirstAndThird()) && forall e :: codec.size(Rec(e)) > 0
    ensures Reaches(codec, l, Repaired(evs, r), 4, Fourth())
  {
    OneRecordMore(codec, l, evs, 3, FirstAndThird(), r, {});
    KeptFourth();
  }

  lemma GapIsRefused(codec: Codec, cap: nat, evs: seq<Event>)
    requires Reaches(codec, Fresh(codec, cap), evs, 3, FirstAndThird()) && |evs| <= U64_MAX
    ensures UndegradedRun(codec, Fresh(codec, cap), evs) && !Readable(codec, Fresh(codec, cap), evs)
  {
    SecondIsMissing();
    ReadableStage(codec, cap, evs, 3, FirstAndThird());
  }

  lemma FourthIsRead(codec: Codec, cap: nat, evs: seq<Event>)
    requires Reaches(codec, Fresh(codec, cap), evs, 4, Fourth()) && |evs| <= U64_MAX
    ensures UndegradedRun(codec, Fresh(codec, cap), evs) && Readable(codec, Fresh(codec, cap), evs)
  {
    NothingIsMissing();
    ReadableStage(codec, cap, evs, 4, Fourth());
  }

  lemma GapThenRepair(codec: Codec, cap: nat, evs: seq<Event>, r: Request)
    requires Reaches(codec, Fresh(codec, cap), evs, 3, FirstAndThird()) && |evs| < U64_MAX
    requires forall e :: codec.size(Rec(e)) > 0
    ensures var l := Fresh(codec, cap);
            && UndegradedRun(codec, l, evs) && !Readable(codec, l, evs)
            && UndegradedRun(codec, l, Repaired(evs, r)) && Readable(codec, l, Repaired(evs, r))
  {
    GapIsRefused(codec, cap, evs);
    RepairedReaches(codec, Fresh(codec, cap), evs, r);
    FourthIsRead(codec, cap, Repaired(evs, r));
  }

  /**
   From an empty directory: three records close segments 1, 2 and 3, keeping one, and segment 1
   cannot be unlinked. The log calls itself healthy throughout, yet the next open refuses the files.
   One more record whose prune succeeds makes them readable again.
   */
  lemma StuckSegmentRefused(codec: Codec, cap: nat, r: Request)
    requires forall e :: codec.size(Rec(e)) > 0
    ensures var l, evs := Fresh(codec, cap), StuckRun([], r);
            && UndegradedRun(codec, l, evs) && !Readable(codec, l, evs)
            && UndegradedRun(codec, l, Repaired(evs, r)) && Readable(codec, l, Repaired(evs, r))
  {
    NothingReached(codec, cap);
    StuckRunReaches(codec, Fresh(codec, cap), [], r);
    GapThenRepair(codec, cap, StuckRun([], r), r);
  }
}
