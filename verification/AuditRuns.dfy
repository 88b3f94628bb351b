/**
 What the audit log keeps over whole runs of records, rotations, prunes and restarts.
 The history is every entry ever recorded, in order; it exists only in the statements.
 */
module AuditRuns {
  import opened Binary
  import opened Wrappers
  import opened Sequences
  import opened AuditChain
  import opened AuditLog

  ghost predicate History(mac: Bytes -> Hash, hist: seq<Entry>) {
    && |hist| <= U64_MAX
    && Chained(mac, hist)
    && (forall i :: 0 <= i < |hist| ==> hist[i].seqNo == i + 1)
    && (hist != [] ==> hist[0].prev == GENESIS)
  }

  /** The lines are the records of the newest part of the history, ending at its last entry. */
  ghost predicate HoldNewest(lines: File, hist: seq<Entry>) {
    lines == [] ||
    (hist != [] && Last(lines) == Rec(Last(hist)) && HoldNewest(lines[..|lines| - 1], hist[..|hist| - 1]))
  }

  /** The chain head and the bounded tail agree with the history. */
  ghost predicate MemoryOk(l: Log, hist: seq<Entry>) {
    && l.seqNo == |hist|
    && l.lastHash == HeadHash(hist)
    && l.cap > 0 && |l.ring| <= l.cap
    && IsSuffix(l.ring, hist)
  }

  /** Segment `k` ends with entry `k`. */
  ghost predicate SegmentsNamed(segs: map<nat, File>, hist: seq<Entry>) {
    forall k :: k in segs ==> 1 <= k <= |hist| && segs[k] != [] && Last(segs[k]) == Rec(hist[k - 1])
  }

  /** Segments in key order plus the live file are exactly the newest part of the history. */
  ghost predicate DiskOk(codec: Codec, p: Persist, hist: seq<Entry>) {
    && p.live.Some? && p.handle.None? && !p.ragged && p.maxBytes > 0
    && p.bytes == FileSize(codec, p.live.value)
    && HoldNewest(DiskLines(p), hist)
    && (hist != [] ==> DiskLines(p) != [])
    && SegmentsNamed(p.segs, hist)
  }

  ghost predicate Healthy(codec: Codec, l: Log, hist: seq<Entry>) {
    && History(codec.mac, hist)
    && MemoryOk(l, hist)
    && !l.degraded
    && l.persist.Some? && DiskOk(codec, l.persist.value, hist)
  }

  // ----- runs

  datatype Event =
    | Write(r: Request, ts: U64, d: Disk)
    | Restart(cap: nat, maxBytes: nat, maxSegments: nat)

  /** Opening the files a sink left; a new live file is created if there is none. */
  function Reopened(codec: Codec, p: Persist, cap: nat, maxBytes: nat, maxSegments: nat): Log {
    Opened(codec, p.segs, p.live, p.ragged && p.live.Some?, cap, maxBytes, maxSegments)
  }

  /** A restart that finds an unacceptable chain does not come up; the files stay as they are. */
  ghost function Step(codec: Codec, l: Log, ev: Event): Log
    requires l.cap > 0
  {
    match ev
    case Write(r, ts, d) => Record(codec, l, r, ts, d).0
    case Restart(cap, maxBytes, maxSegments) =>
      if l.persist.Some? && Accepts(codec.mac, DiskLines(l.persist.value)) then
        Reopened(codec, l.persist.value, cap, maxBytes, maxSegments)
      else l
  }

  ghost function Recorded(codec: Codec, l: Log, hist: seq<Entry>, ev: Event): seq<Entry> {
    match ev
    case Write(r, ts, d) => hist + [NextEntry(codec, l, r, ts)]
    case Restart(_, _, _) => hist
  }

  ghost function Run(codec: Codec, l: Log, evs: seq<Event>): (l': Log)
    requires l.cap > 0
    ensures l'.cap > 0
    decreases evs
  {
    if evs == [] then l else Run(codec, Step(codec, l, evs[0]), evs[1..])
  }

  ghost function RunHistory(codec: Codec, l: Log, hist: seq<Entry>, evs: seq<Event>): seq<Entry>
    requires l.cap > 0
    decreases evs
  {
    if evs == [] then hist
    else RunHistory(codec, Step(codec, l, evs[0]), Recorded(codec, l, hist, evs[0]), evs[1..])
  }

  /** What removal actually took is an initial stretch of the victims. */
  ghost predicate OldestFirst(p: Persist, stuck: set<nat>) {
    exists j :: 0 <= j <= |Victims(p)| && Removed(Victims(p), stuck) == Elements(Victims(p)[..j])
  }

  /** If this append prunes, it prunes oldest first. */
  ghost predicate PrunesInOrder(codec: Codec, p: Persist, e: Entry, d: Disk) {
    var w := Written(codec, p, e);
    d.reopen && Rotates(w, d) ==> OldestFirst(Rotated(w, e.seqNo), d.stuck)
  }

  /** The log reports itself healthy after the event. */
  ghost predicate Undegraded(codec: Codec, l: Log, ev: Event)
    requires l.cap > 0
  {
    !Step(codec, l, ev).degraded
  }

  ghost predicate UndegradedRun(codec: Codec, l: Log, evs: seq<Event>)
    requires l.cap > 0
    decreases evs
  {
    evs == [] || (Undegraded(codec, l, evs[0]) && UndegradedRun(codec, Step(codec, l, evs[0]), evs[1..]))
  }

  // ----- reading back what was written

  lemma HoldNewestAppend(lines: File, hist: seq<Entry>, e: Entry)
    requires HoldNewest(lines, hist)
    ensures HoldNewest(lines + [Rec(e)], hist + [e])
  {
    assert (lines + [Rec(e)])[..|lines|] == lines;
    assert (hist + [e])[..|hist|] == hist;
  }

  lemma {:induction false} HoldNewestDrop(a: File, b: File, hist: seq<Entry>)
    requires HoldNewest(a + b, hist)
    ensures HoldNewest(b, hist)
  {
    if b != [] {
      assert (a + b)[..|a + b| - 1] == a + b[..|b| - 1];
      HoldNewestDrop(a, b[..|b| - 1], hist[..|hist| - 1]);
    }
  }

  lemma {:induction false} HoldNewestEntries(lines: File, hist: seq<Entry>)
    requires HoldNewest(lines, hist)
    ensures |lines| <= |hist| && Entries(lines) == hist[|hist| - |lines|..] && Clean(lines)
  {
    if lines != [] {
      var l, h := lines[..|lines| - 1], hist[..|hist| - 1];
      HoldNewestEntries(l, h);
      assert lines == l + [Last(lines)] && hist == h + [Last(hist)];
    }
  }

  lemma NewestAccepted(mac: Bytes -> Hash, hist: seq<Entry>, lines: File)
    requires Chained(mac, hist) && HoldNewest(lines, hist)
    ensures Accepts(mac, lines)
  {
    HoldNewestEntries(lines, hist);
    ChainedSuffix(mac, hist, |hist| - |lines|);
  }

  lemma {:induction false} ChainedCounts(mac: Bytes -> Hash, es: seq<Entry>, n: nat)
    requires Chained(mac, es) && n < |es|
    requires forall i :: 0 <= i < |es| ==> es[i].seqNo >= 1
    ensures es[n].seqNo == es[0].seqNo + n
  {
    if n > 0 {
      ChainedCounts(mac, es, n - 1);
      assert Follows(es[n - 1], es[n]);
    }
  }

  // ----- directory algebra

  /** The listing pairs each key, in ascending order, with its file. */
  lemma {:induction false} SegFilesInKeyOrder(segs: map<nat, File>)
    ensures |SegFiles(segs)| == |SortedKeys(segs.Keys)| == |segs|
    ensures forall i :: 0 <= i < |SegFiles(segs)| ==>
              SortedKeys(segs.Keys)[i] in segs && SegFiles(segs)[i] == segs[SortedKeys(segs.Keys)[i]]
    decreases |segs|
  {
    if |segs| != 0 {
      var m := MaxOf(segs.Keys);
      assert (segs - {m}).Keys == segs.Keys - {m};
      SegFilesInKeyOrder(segs - {m});
    }
  }

  /** Closing the live file under a key above all others adds it after the existing segments. */
  lemma SegFilesAddNewest(segs: map<nat, File>, k: nat, f: File)
    requires forall x :: x in segs ==> x < k
    ensures SegFiles(segs[k := f]) == SegFiles(segs) + [f]
  {
    var more := segs[k := f];
    assert more - {k} == segs;
    assert k in more.Keys && forall x :: x in more.Keys ==> x <= k;
    assert MaxOf(more.Keys) == k;
  }

  lemma AllKeysGone(segs: map<nat, File>)
    ensures segs - Elements(SortedKeys(segs.Keys)[..|SortedKeys(segs.Keys)|]) == map[]
  {
    var ks := SortedKeys(segs.Keys);
    assert ks[..|ks|] == ks;
    forall k
      ensures k in segs ==> k in ks
    {
      SortedKeysMembers(segs.Keys, k);
    }
  }

  /** Removal seen from the newest segment. */
  lemma RemovalAtNewest(segs: map<nat, File>, gone: set<nat>)
    requires |segs| != 0
    ensures MaxOf(segs.Keys) in gone ==> segs - gone == (segs - {MaxOf(segs.Keys)}) - gone
    ensures MaxOf(segs.Keys) !in gone ==>
              SegFiles(segs - gone) == SegFiles((segs - {MaxOf(segs.Keys)}) - gone) + [segs[MaxOf(segs.Keys)]]
  {
    var m := MaxOf(segs.Keys);
    if m !in gone {
      var rest := segs - gone;
      assert m in rest && MaxOf(rest.Keys) == m;
      assert rest - {m} == (segs - {m}) - gone;
    }
  }

  /** The lowest `j` of several keys do not include the highest. */
  lemma LowestBelowNewest(segs: map<nat, File>, j: nat)
    requires j < |SortedKeys(segs.Keys)|
    ensures |segs| != 0 && j <= |SortedKeys((segs - {MaxOf(segs.Keys)}).Keys)|
    ensures SortedKeys(segs.Keys)[..j] == SortedKeys((segs - {MaxOf(segs.Keys)}).Keys)[..j]
    ensures MaxOf(segs.Keys) !in Elements(SortedKeys(segs.Keys)[..j])
  {
    var m := MaxOf(segs.Keys);
    var below := segs.Keys - {m};
    assert (segs - {m}).Keys == below;
    var ls := SortedKeys(below);
    assert SortedKeys(segs.Keys) == ls + [m];
    SortedKeysMembers(below, m);
    assert forall x :: x in ls[..j] ==> x in ls;
  }

  /** Dropping the `j` lowest keys drops the first `j` files. */
  lemma {:induction false} SegFilesDropOldest(segs: map<nat, File>, j: nat)
    requires j <= |SortedKeys(segs.Keys)|
    ensures j <= |SegFiles(segs)|
    ensures SegFiles(segs - Elements(SortedKeys(segs.Keys)[..j])) == SegFiles(segs)[j..]
    decreases |segs|
  {
    SegFilesInKeyOrder(segs);
    if j == |SortedKeys(segs.Keys)| {
      AllKeysGone(segs);
    } else {
      LowestBelowNewest(segs, j);
      var low, below := Elements(SortedKeys(segs.Keys)[..j]), segs - {MaxOf(segs.Keys)};
      SegFilesDropOldest(below, j);
      RemovalAtNewest(segs, low);
      DropThenAppend(SegFiles(below), segs[MaxOf(segs.Keys)], j);
    }
  }

  lemma DropThenAppend(fs: seq<File>, f: File, j: nat)
    requires j <= |fs|
    ensures (fs + [f])[j..] == fs[j..] + [f]
  {
  }

  lemma DiskLinesSplit(p: Persist)
    ensures DiskLines(p) == Flatten(SegFiles(p.segs)) + if p.live.Some? then p.live.value else []
  {
    if p.live.Some? {
      FlattenAppend(SegFiles(p.segs), p.live.value);
    } else {
      assert SegFiles(p.segs) + [] == SegFiles(p.segs);
    }
  }

  // ----- one append, stage by stage

  lemma FileSizeAppend(codec: Codec, f: File, l: Line)
    ensures FileSize(codec, f + [l]) == FileSize(codec, f) + codec.size(l)
  {
    assert (f + [l])[..|f|] == f;
  }

  lemma WrittenLines(codec: Codec, p: Persist, e: Entry)
    requires p.live.Some? && p.handle.None? && !p.ragged
    ensures Written(codec, p, e) == p.(live := Some(p.live.value + [Rec(e)]), bytes := p.bytes + codec.size(Rec(e)))
    ensures DiskLines(Written(codec, p, e)) == DiskLines(p) + [Rec(e)]
  {
    DiskLinesSplit(p);
    DiskLinesSplit(Written(codec, p, e));
    ConcatAssoc(Flatten(SegFiles(p.segs)), p.live.value, [Rec(e)]);
  }

  lemma SegmentsStayNamed(segs: map<nat, File>, hist: seq<Entry>, e: Entry)
    requires SegmentsNamed(segs, hist)
    ensures SegmentsNamed(segs, hist + [e])
  {
  }

  lemma WrittenKeepsDisk(codec: Codec, p: Persist, hist: seq<Entry>, e: Entry)
    requires DiskOk(codec, p, hist)
    ensures DiskOk(codec, Written(codec, p, e), hist + [e])
  {
    WrittenLines(codec, p, e);
    FileSizeAppend(codec, p.live.value, Rec(e));
    HoldNewestAppend(DiskLines(p), hist, e);
    SegmentsStayNamed(p.segs, hist, e);
  }

  /** Rotation moves lines between files without changing what replay reads. */
  lemma RotatedLines(w: Persist, k: U64)
    requires w.live.Some? && forall x :: x in w.segs ==> x < k
    ensures DiskLines(Rotated(w, k)) == DiskLines(w)
  {
    var q := Rotated(w, k);
    assert DiskLines(w) == Flatten(SegFiles(w.segs)) + w.live.value by { DiskLinesSplit(w); }
    assert DiskLines(q) == Flatten(SegFiles(q.segs)) + [] by { DiskLinesSplit(q); }
    SegFilesAddNewest(w.segs, k, w.live.value);
    FlattenAppend(SegFiles(w.segs), w.live.value);
  }

  lemma RotatedKeepsDisk(codec: Codec, w: Persist, hist: seq<Entry>)
    requires DiskOk(codec, w, hist) && hist != [] && |hist| <= U64_MAX
    requires w.live.value != [] && Last(w.live.value) == Rec(Last(hist))
    requires forall k :: k in w.segs ==> k < |hist|
    ensures DiskOk(codec, Rotated(w, |hist|), hist)
  {
    RotatedLines(w, |hist|);
  }

  lemma PrunedFiles(q: Persist, stuck: set<nat>, j: nat)
    requires j <= |Victims(q)| && Removed(Victims(q), stuck) == Elements(Victims(q)[..j])
    ensures j <= |SegFiles(q.segs)| && SegFiles(PruneSegments(q, stuck).segs) == SegFiles(q.segs)[j..]
    ensures Victims(q) != [] ==> j < |SegFiles(q.segs)|
  {
    if Victims(q) == [] {
      assert PruneSegments(q, stuck).segs == q.segs;
    } else {
      SortedKeysSize(q.segs.Keys);
      assert Victims(q)[..j] == SortedKeys(q.segs.Keys)[..j];
      SegFilesDropOldest(q.segs, j);
      SegFilesInKeyOrder(q.segs);
    }
  }

  lemma DroppedFiles(fs: seq<File>, j: nat, live: File)
    requires j <= |fs|
    ensures Flatten(fs) + live == Flatten(fs[..j]) + (Flatten(fs[j..]) + live)
    ensures j < |fs| && Last(fs) != [] ==> Flatten(fs[j..]) != []
  {
    FlattenSplit(fs, j);
    ConcatAssoc(Flatten(fs[..j]), Flatten(fs[j..]), live);
    if j < |fs| && Last(fs) != [] {
      FlattenNonempty(fs[j..]);
    }
  }

  /** The lines left after an oldest-first prune are the newest ones, and some are left. */
  lemma PrunedLines(q: Persist, stuck: set<nat>, j: nat)
    requires q.live.Some? && j <= |Victims(q)| && Removed(Victims(q), stuck) == Elements(Victims(q)[..j])
    requires forall k :: k in q.segs ==> q.segs[k] != []
    ensures j <= |SegFiles(q.segs)|
    ensures DiskLines(q) == Flatten(SegFiles(q.segs)[..j]) + DiskLines(PruneSegments(q, stuck))
    ensures DiskLines(q) != [] ==> DiskLines(PruneSegments(q, stuck)) != []
  {
    var fs := SegFiles(q.segs);
    PrunedFiles(q, stuck, j);
    DiskLinesSplit(q);
    DiskLinesSplit(PruneSegments(q, stuck));
    DroppedFiles(fs, j, q.live.value);
    if Victims(q) == [] {
      assert fs[j..] == fs;
    } else {
      SegFilesInKeyOrder(q.segs);
    }
  }

  lemma PrunedOldestFirstKeepsDisk(codec: Codec, q: Persist, hist: seq<Entry>, stuck: set<nat>)
    requires DiskOk(codec, q, hist) && OldestFirst(q, stuck)
    ensures DiskOk(codec, PruneSegments(q, stuck), hist)
  {
    var j :| 0 <= j <= |Victims(q)| && Removed(Victims(q), stuck) == Elements(Victims(q)[..j]);
    PrunedLines(q, stuck, j);
    HoldNewestDrop(Flatten(SegFiles(q.segs)[..j]), DiskLines(PruneSegments(q, stuck)), hist);
  }

  lemma NextEntryExtends(codec: Codec, l: Log, hist: seq<Entry>, r: Request, ts: U64)
    requires History(codec.mac, hist) && MemoryOk(l, hist) && l.seqNo < U64_MAX
    ensures History(codec.mac, hist + [NextEntry(codec, l, r, ts)])
    ensures NextEntry(codec, l, r, ts).seqNo == |hist| + 1
  {
    ChainedStep(codec.mac, hist, NextEntry(codec, l, r, ts));
  }

  lemma PushKeepsSuffix(ring: seq<Entry>, cap: nat, hist: seq<Entry>, e: Entry)
    requires IsSuffix(ring, hist) && cap > 0 && |ring| <= cap
    ensures IsSuffix(Push(ring, cap, e), hist + [e])
    ensures |Push(ring, cap, e)| <= cap
  {
  }

  lemma AppendKeepsDisk(codec: Codec, p: Persist, hist: seq<Entry>, e: Entry, d: Disk)
    requires DiskOk(codec, p, hist) && History(codec.mac, hist + [e])
    requires Append(codec, p, e, d).1 && PrunesInOrder(codec, p, e, d)
    ensures DiskOk(codec, Append(codec, p, e, d).0, hist + [e])
  {
    var w := Written(codec, p, e);
    WrittenKeepsDisk(codec, p, hist, e);
    WrittenLines(codec, p, e);
    assert e == (hist + [e])[|hist|];
    if Rotates(w, d) {
      assert forall k :: k in w.segs ==> k < |hist + [e]|;
      RotatedKeepsDisk(codec, w, hist + [e]);
      PrunedOldestFirstKeepsDisk(codec, Rotated(w, e.seqNo), hist + [e], d.stuck);
    }
  }

  /** The replayed tail of a healthy directory is the newest part of the history. */
  lemma ReplayedTail(p: Persist, hist: seq<Entry>, cap: nat)
    requires HoldNewest(DiskLines(p), hist)
    ensures Tail(Entries(DiskLines(p)), Max(cap, 1)) == Tail(hist, Min(Max(cap, 1), |DiskLines(p)|))
  {
    HoldNewestEntries(DiskLines(p), hist);
    TailOfSuffix(hist, |hist| - |DiskLines(p)|, Max(cap, 1));
  }

  lemma ReplayedHead(mac: Bytes -> Hash, p: Persist, hist: seq<Entry>)
    requires History(mac, hist) && HoldNewest(DiskLines(p), hist) && (hist != [] ==> DiskLines(p) != [])
    ensures var es := Entries(DiskLines(p));
            HeadSeq(es) == |hist| && HeadHash(es) == HeadHash(hist)
  {
    HoldNewestEntries(DiskLines(p), hist);
  }

  lemma ReopenedPersist(codec: Codec, p: Persist, hist: seq<Entry>, cap: nat, maxBytes: nat, maxSegments: nat)
    requires DiskOk(codec, p, hist)
    ensures Reopened(codec, p, cap, maxBytes, maxSegments).persist
            == Some(p.(maxBytes := Max(maxBytes, 1), maxSegments := maxSegments))
  {
  }

  lemma OpenedFromDisk(codec: Codec, p: Persist, hist: seq<Entry>, cap: nat, maxBytes: nat, maxSegments: nat)
    requires History(codec.mac, hist) && DiskOk(codec, p, hist)
    ensures Reopened(codec, p, cap, maxBytes, maxSegments) ==
            Log(|hist|, HeadHash(hist), Tail(hist, Min(Max(cap, 1), |DiskLines(p)|)), Max(cap, 1),
                Some(p.(maxBytes := Max(maxBytes, 1), maxSegments := maxSegments)), false)
  {
    ReplayedHead(codec.mac, p, hist);
    ReplayedTail(p, hist, cap);
    ReopenedPersist(codec, p, hist, cap, maxBytes, maxSegments);
  }

  lemma TailOfSuffix<T>(s: seq<T>, d: nat, n: nat)
    requires d <= |s|
    ensures Tail(s[d..], n) == Tail(s, Min(n, |s| - d))
  {
  }

  /** The files of a healthy log are accepted, and opening them resumes exactly where the log stood. */
  lemma RestartResumes(codec: Codec, l: Log, hist: seq<Entry>, cap: nat, maxBytes: nat, maxSegments: nat)
    requires Healthy(codec, l, hist)
    ensures Accepts(codec.mac, DiskLines(l.persist.value))
    ensures Reopened(codec, l.persist.value, cap, maxBytes, maxSegments) ==
            Log(l.seqNo, l.lastHash, Tail(hist, Min(Max(cap, 1), |DiskLines(l.persist.value)|)), Max(cap, 1),
                Some(l.persist.value.(maxBytes := Max(maxBytes, 1), maxSegments := maxSegments)), false)
    ensures Healthy(codec, Step(codec, l, Restart(cap, maxBytes, maxSegments)), hist)
  {
    NewestAccepted(codec.mac, hist, DiskLines(l.persist.value));
    OpenedFromDisk(codec, l.persist.value, hist, cap, maxBytes, maxSegments);
    SettingsKeepDisk(codec, l.persist.value, hist, Max(maxBytes, 1), maxSegments);
  }

  lemma SettingsKeepDisk(codec: Codec, p: Persist, hist: seq<Entry>, maxBytes: nat, maxSegments: nat)
    requires DiskOk(codec, p, hist) && maxBytes > 0
    ensures DiskOk(codec, p.(maxBytes := maxBytes, maxSegments := maxSegments), hist)
  {
    assert DiskLines(p.(maxBytes := maxBytes, maxSegments := maxSegments)) == DiskLines(p);
  }

  /** The history, and memory in step with it. */
  ghost predicate InStep(codec: Codec, l: Log, hist: seq<Entry>) {
    History(codec.mac, hist) && MemoryOk(l, hist)
  }

  lemma AdvanceKeepsMemory(codec: Codec, l: Log, hist: seq<Entry>, e: Entry, next: Log)
    requires MemoryOk(l, hist) && e.seqNo == l.seqNo + 1
    requires next.seqNo == e.seqNo && next.lastHash == e.hash
    requires next.cap == l.cap && next.ring == Push(l.ring, l.cap, e)
    ensures MemoryOk(next, hist + [e])
  {
    PushKeepsSuffix(l.ring, l.cap, hist, e);
  }

  /** Recording advances the chain head and the tail in step with the history, whatever the disk does. */
  lemma RecordKeepsMemory(codec: Codec, l: Log, hist: seq<Entry>, r: Request, ts: U64, d: Disk)
    requires InStep(codec, l, hist) && l.seqNo < U64_MAX
    ensures InStep(codec, Record(codec, l, r, ts, d).0, hist + [NextEntry(codec, l, r, ts)])
  {
    var e := NextEntry(codec, l, r, ts);
    assert History(codec.mac, hist + [e]) by {
      NextEntryExtends(codec, l, hist, r, ts);
    }
    AdvanceKeepsMemory(codec, l, hist, e, Record(codec, l, r, ts, d).0);
  }

  /** Over any run of records, failed ones included, memory stays in step with everything ever recorded. */
  lemma {:induction false} MemoryFollowsHistory(codec: Codec, l: Log, hist: seq<Entry>, evs: seq<Event>)
    requires InStep(codec, l, hist) && |hist| + |evs| <= U64_MAX
    requires forall i :: 0 <= i < |evs| ==> evs[i].Write?
    ensures InStep(codec, Run(codec, l, evs), RunHistory(codec, l, hist, evs))
    decreases evs
  {
    if evs != [] {
      var next, all := Step(codec, l, evs[0]), Recorded(codec, l, hist, evs[0]);
      RecordKeepsMemory(codec, l, hist, evs[0].r, evs[0].ts, evs[0].d);
      assert RunHistory(codec, l, hist, evs) == RunHistory(codec, next, all, evs[1..]);
      MemoryFollowsHistory(codec, next, all, evs[1..]);
    }
  }

  /** Opening an empty directory starts such a run. */
  lemma FirstOpenHealthy(codec: Codec, cap: nat, maxBytes: nat, maxSegments: nat)
    ensures Healthy(codec, Opened(codec, map[], None, false, cap, maxBytes, maxSegments), [])
    ensures Accepts(codec.mac, Flatten(CollectSegments(map[], None)))
  {
    var none: map<nat, File> := map[];
    var empty: File := [];
    assert CollectSegments(none, None) == [];
    FlattenAppend([], empty);
    assert CollectSegments(none, Some(empty)) == [] + [empty];
  }

  // ----- the in-memory tail, in every run

  ghost predicate TailLinked(mac: Bytes -> Hash, l: Log) {
    && l.cap > 0 && |l.ring| <= l.cap
    && Chained(mac, l.ring)
    && l.seqNo == HeadSeq(l.ring) && l.lastHash == HeadHash(l.ring)
  }

  lemma RecordKeepsTail(codec: Codec, l: Log, r: Request, ts: U64, d: Disk)
    requires TailLinked(codec.mac, l)
    ensures TailLinked(codec.mac, Record(codec, l, r, ts, d).0)
  {
    var e := NextEntry(codec, l, r, ts);
    ChainedStep(codec.mac, l.ring, e);
    if |l.ring| == l.cap {
      ChainedSuffix(codec.mac, l.ring + [e], 1);
      assert (l.ring + [e])[1..] == Push(l.ring, l.cap, e);
    }
  }

  lemma OpenedTailLinked(codec: Codec, p: Persist, cap: nat, maxBytes: nat, maxSegments: nat)
    requires Accepts(codec.mac, DiskLines(p))
    ensures TailLinked(codec.mac, Reopened(codec, p, cap, maxBytes, maxSegments))
  {
    var es := Entries(DiskLines(p));
    ChainedSuffix(codec.mac, es, |es| - |Tail(es, Max(cap, 1))|);
  }

  /** Whatever the file system does, the retained tail always chains and ends at the head. */
  lemma {:induction false} TailAlwaysVerifies(codec: Codec, l: Log, evs: seq<Event>)
    requires TailLinked(codec.mac, l)
    ensures TailLinked(codec.mac, Run(codec, l, evs))
    ensures HashLinked(codec.mac, Run(codec, l, evs).ring)
    decreases evs
  {
    if evs != [] {
      match evs[0] {
        case Write(r, ts, d) => RecordKeepsTail(codec, l, r, ts, d);
        case Restart(cap, maxBytes, maxSegments) =>
          if l.persist.Some? && Accepts(codec.mac, DiskLines(l.persist.value)) {
            OpenedTailLinked(codec, l.persist.value, cap, maxBytes, maxSegments);
          }
      }
      TailAlwaysVerifies(codec, Step(codec, l, evs[0]), evs[1..]);
    }
  }
}
