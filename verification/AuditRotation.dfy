/** When a record closes a segment, what a prune leaves, and how large the files get. */
module AuditRotation {
  import opened Binary
  import opened Wrappers
  import opened Sequences
  import opened AuditChain
  import opened AuditLog
  import opened AuditRuns
  import opened AuditRetention

  // ----- one record

  /** The write and the sync succeed, there is a live file, and with this line it has reached its limit. */
  predicate Fills(codec: Codec, p: Persist, e: Entry, d: Disk) {
    d.write && d.sync && p.live.Some? && p.bytes + codec.size(Rec(e)) >= p.maxBytes
  }

  /**
   An append closes a segment exactly when the line fills the live file and the rename succeeds. The
   new segment is the live file with the line at its end, and an empty live file takes its place if it
   can be created. Otherwise the segments stay, save the one the descriptor is on.
   */
  lemma AppendClosesIff(codec: Codec, p: Persist, e: Entry, d: Disk)
    requires SinkOk(p) && forall k :: k in p.segs ==> k < e.seqNo
    ensures var q := Append(codec, p, e, d).0;
            && (e.seqNo in q.segs <==> Fills(codec, p, e, d) && d.rename)
            && (if e.seqNo in q.segs then
                  && q.segs[e.seqNo] == Extended(p.live.value, p.ragged, Rec(e))
                  && (forall k :: k in q.segs ==> k == e.seqNo || (k in p.segs && q.segs[k] == p.segs[k]))
                  && q.live == (if d.reopen then Some([]) else None)
                  && q.handle == (if d.reopen then None else Some(e.seqNo))
                else
                  && q.segs.Keys == p.segs.Keys && q.handle == p.handle
                  && (forall k :: k in p.segs && p.handle != Some(k) ==> q.segs[k] == p.segs[k]))
  {
    if Fills(codec, p, e, d) && d.rename {
      var w := Written(codec, p, e);
      assert w.segs == p.segs;
      PruneSparesNewest(Rotated(w, e.seqNo), e.seqNo, d.stuck);
    }
  }

  /** An append is durable exactly when it is written, synced, and followed by no rename without a new live file. */
  lemma AppendDurableIff(codec: Codec, p: Persist, e: Entry, d: Disk)
    requires SinkOk(p)
    ensures Append(codec, p, e, d).1 <==>
            d.write && d.sync && (Fills(codec, p, e, d) && d.rename ==> d.reopen)
  {
  }

  /**
   The count of bytes moves with written and synced lines only, and starts over with the live file. The last
   line is unfinished after a failed write, unless that left nothing and it was not so before.
   */
  lemma AppendCounts(codec: Codec, p: Persist, e: Entry, d: Disk)
    requires SinkOk(p)
    ensures var q := Append(codec, p, e, d).0;
            && q.maxBytes == p.maxBytes && q.maxSegments == p.maxSegments
            && (q.ragged <==> !d.write && (d.torn.Nothing? ==> p.ragged))
            && q.bytes == (if !d.write || !d.sync then p.bytes
                           else if Fills(codec, p, e, d) && d.rename && d.reopen then 0
                           else p.bytes + codec.size(Rec(e)))
  {
  }

  /** A log opened on files counts the live one's bytes: all of them, save a newline that its last line lacks. */
  lemma OpenCounts(codec: Codec, segs: map<nat, File>, live: File, ragged: bool, cap: nat, maxBytes: nat,
                   maxSegments: nat)
    requires FileSize(codec, live) > 0
    ensures var p := Opened(codec, segs, Some(live), ragged, cap, maxBytes, maxSegments).persist.value;
            && p.bytes + (if ragged then 1 else 0) == FileSize(codec, live)
            && p.live == Some(live) && p.segs == segs && p.handle.None? && p.ragged == ragged
            && p.maxBytes >= 1 && (maxBytes > 0 ==> p.maxBytes == maxBytes) && p.maxSegments == maxSegments
  {
  }

  // ----- one prune

  function NewerThan(segs: map<nat, File>, k: nat): set<nat> {
    set j | j in segs && j > k
  }

  lemma {:induction false} AscendingCount(ks: seq<nat>, i: nat, newer: set<nat>)
    requires Ascending(ks) && i < |ks| && newer == set j | j in ks && j > ks[i]
    ensures |newer| == |ks| - 1 - i
    decreases |ks|
  {
    var init := ks[..|ks| - 1];
    assert ks == init + [Last(ks)];
    if i == |ks| - 1 {
      assert forall j :: j in ks ==> j <= ks[i] by {
        assert forall n :: 0 <= n < |ks| ==> ks[n] <= ks[i];
      }
      assert newer == {};
    } else {
      var rest := set j | j in init && j > init[i];
      AscendingCount(init, i, rest);
      assert Last(ks) !in rest by {
        assert forall n :: 0 <= n < |init| ==> init[n] < Last(ks);
      }
      assert newer == rest + {Last(ks)};
    }
  }

  lemma NewerAt(segs: map<nat, File>, i: nat)
    requires i < |SortedKeys(segs.Keys)|
    ensures |NewerThan(segs, SortedKeys(segs.Keys)[i])| == |SortedKeys(segs.Keys)| - 1 - i
  {
    var ks := SortedKeys(segs.Keys);
    SortedKeysAscend(segs.Keys);
    forall j: nat
      ensures j in ks <==> j in segs
    {
      SortedKeysMembers(segs.Keys, j);
    }
    assert NewerThan(segs, ks[i]) == set j | j in ks && j > ks[i];
    AscendingCount(ks, i, NewerThan(segs, ks[i]));
  }

  /** A prune takes exactly the segments with at least `maxSegments` newer ones that can be unlinked. */
  lemma PruneKeepsIff(p: Persist, stuck: set<nat>, k: nat)
    ensures var q := PruneSegments(p, stuck);
            && (k in q.segs <==>
                  k in p.segs && (k in stuck || p.maxSegments == 0 || |NewerThan(p.segs, k)| < p.maxSegments))
            && (k in q.segs ==> q.segs[k] == p.segs[k])
            && q == p.(segs := q.segs)
  {
    if k in p.segs {
      var ks := SortedKeys(p.segs.Keys);
      SortedKeysSize(p.segs.Keys);
      SortedKeysMembers(p.segs.Keys, k);
      SortedKeysAscend(p.segs.Keys);
      var i :| 0 <= i < |ks| && ks[i] == k;
      NewerAt(p.segs, i);
      if Victims(p) != [] {
        InPrefixIff(ks, |p.segs| - p.maxSegments, i);
      }
    }
  }

  lemma InPrefixIff(ks: seq<nat>, n: nat, i: nat)
    requires Ascending(ks) && n <= |ks| && i < |ks|
    ensures ks[i] in ks[..n] <==> i < n
  {
    if i < n {
      assert ks[..n][i] == ks[i];
    }
  }

  // ----- how large the files get

  /** With a limit of `limit` bytes: closed segments have reached it, and if `renamed` the live file has not. */
  ghost predicate Sized(codec: Codec, l: Log, closed: map<nat, File>, limit: nat, renamed: bool) {
    && l.persist.Some? && l.persist.value.maxBytes == limit && l.persist.value.live.Some?
    && (forall k :: k in closed ==> FileSize(codec, closed[k]) >= limit)
    && (renamed ==> FileSize(codec, l.persist.value.live.value) < limit)
  }

  /** Restarts keep the size limit, and if `renamed` no rename fails. */
  predicate Steady(evs: seq<Event>, limit: nat, renamed: bool) {
    && (forall i :: 0 <= i < |evs| && evs[i].Restart? ==> Max(evs[i].maxBytes, 1) == limit)
    && (renamed ==> forall i :: 0 <= i < |evs| && evs[i].Write? ==> evs[i].d.rename)
  }

  /** What the sizes depend on: the live file is open and counted, and the segments are among those closed before. */
  ghost predicate Counted(codec: Codec, p: Persist, closed: map<nat, File>, top: nat) {
    && p.live.Some? && p.handle.None? && !p.ragged && p.maxBytes > 0
    && p.bytes == FileSize(codec, p.live.value)
    && Submap(p.segs, closed) && forall k :: k in closed ==> k <= top
  }

  lemma FilesAreCounted(codec: Codec, p: Persist, hist: seq<Entry>, closed: map<nat, File>)
    requires FilesKept(codec, p, hist, closed)
    ensures Counted(codec, p, closed, |hist|)
  {
    assert SegmentsNamed(p.(segs := closed).segs, hist);
  }

  lemma EmptyFile(codec: Codec)
    ensures FileSize(codec, []) == 0
  {
  }

  lemma WriteKeepsSized(codec: Codec, p: Persist, closed: map<nat, File>, top: nat, e: Entry, d: Disk)
    requires Counted(codec, p, closed, top) && e.seqNo == top + 1 && d.write && d.sync && (d.rename ==> d.reopen)
    ensures var q := Append(codec, p, e, d).0;
            && q.live.Some? && q.maxBytes == p.maxBytes
            && (forall k :: k in closed + q.segs ==> k in closed || FileSize(codec, q.segs[k]) >= p.maxBytes)
            && (forall k :: k in closed ==> (closed + q.segs)[k] == closed[k])
            && (d.rename ==> FileSize(codec, q.live.value) < p.maxBytes)
  {
    AppendClosesIff(codec, p, e, d);
    AppendCounts(codec, p, e, d);
    EmptyFile(codec);
    LiveGrows(codec, p, e, d);
  }

  /** What is in the live file, or in the segment it became. */
  lemma LiveGrows(codec: Codec, p: Persist, e: Entry, d: Disk)
    requires p.live.Some? && p.handle.None? && !p.ragged && p.bytes == FileSize(codec, p.live.value)
    requires d.write && d.sync
    ensures FileSize(codec, Extended(p.live.value, p.ragged, Rec(e))) == p.bytes + codec.size(Rec(e))
    ensures !(Fills(codec, p, e, d) && d.rename) ==>
              Append(codec, p, e, d).0.live == Some(Extended(p.live.value, p.ragged, Rec(e)))
  {
    FileSizeAppend(codec, p.live.value, Rec(e));
  }

  lemma ReopenedFiles(codec: Codec, p: Persist, cap: nat, maxBytes: nat, maxSegments: nat)
    requires p.live.Some?
    ensures var q := Reopened(codec, p, cap, maxBytes, maxSegments).persist;
            q.Some? && q.value.live == p.live && q.value.segs == p.segs && q.value.maxBytes == Max(maxBytes, 1)
  {
  }

  lemma AlreadyClosed(closed: map<nat, File>, segs: map<nat, File>)
    requires Submap(segs, closed)
    ensures closed + segs == closed
  {
  }

  lemma RestartKeepsSized(codec: Codec, l: Log, closed: map<nat, File>, ev: Event, limit: nat, renamed: bool)
    requires ev.Restart? && Max(ev.maxBytes, 1) == limit && Sized(codec, l, closed, limit, renamed)
    requires l.cap > 0 && Submap(l.persist.value.segs, closed)
    ensures var next := Step(codec, l, ev);
            Sized(codec, next, ClosedBy(closed, next), limit, renamed)
  {
    ReopenedFiles(codec, l.persist.value, ev.cap, ev.maxBytes, ev.maxSegments);
    AlreadyClosed(closed, l.persist.value.segs);
  }

  lemma StepKeepsSized(codec: Codec, l: Log, hist: seq<Entry>, closed: map<nat, File>, ev: Event, limit: nat,
                       renamed: bool)
    requires Archived(codec, l, hist, closed) && Undegraded(codec, l, ev) && l.seqNo < U64_MAX
    requires Sized(codec, l, closed, limit, renamed) && Steady([ev], limit, renamed)
    ensures var next := Step(codec, l, ev);
            Sized(codec, next, ClosedBy(closed, next), limit, renamed)
  {
    assert [ev][0] == ev;
    var p := l.persist.value;
    FilesAreCounted(codec, p, hist, closed);
    if ev.Restart? {
      RestartKeepsSized(codec, l, closed, ev, limit, renamed);
    } else {
      RecordKeepsSized(codec, l, closed, |hist|, ev.r, ev.ts, ev.d, renamed);
    }
  }

  lemma RecordKeepsSized(codec: Codec, l: Log, closed: map<nat, File>, top: nat, r: Request, ts: U64, d: Disk,
                         renamed: bool)
    requires l.persist.Some? && Counted(codec, l.persist.value, closed, top) && l.seqNo == top < U64_MAX && l.cap > 0
    requires Sized(codec, l, closed, l.persist.value.maxBytes, renamed) && (renamed ==> d.rename)
    requires !Record(codec, l, r, ts, d).0.degraded
    ensures var next := Record(codec, l, r, ts, d).0;
            Sized(codec, next, ClosedBy(closed, next), l.persist.value.maxBytes, renamed)
  {
    var p, e := l.persist.value, NextEntry(codec, l, r, ts);
    AppendDurableIff(codec, p, e, d);
    if d.rename && !d.reopen {
      AlreadyClosed(closed, p.segs);
      NotFilled(codec, p, closed, e, d);
    } else {
      WriteKeepsSized(codec, p, closed, top, e, d);
    }
  }

  /** A line that does not fill the live file only makes it longer. */
  lemma NotFilled(codec: Codec, p: Persist, closed: map<nat, File>, e: Entry, d: Disk)
    requires p.live.Some? && p.handle.None? && !p.ragged && p.bytes == FileSize(codec, p.live.value)
    requires d.write && d.sync && !Fills(codec, p, e, d)
    ensures var q := Append(codec, p, e, d).0;
            q.segs == p.segs && q.live.Some? && q.maxBytes == p.maxBytes && FileSize(codec, q.live.value) < p.maxBytes
  {
    LiveGrows(codec, p, e, d);
  }

  /**
   Over every run that stays undegraded, with one size limit: every segment ever closed has reached the
   limit, and unless a rename failed the live file is below it.
   */
  lemma {:induction false} SegmentsAreFull(codec: Codec, l: Log, hist: seq<Entry>, closed: map<nat, File>,
                                           evs: seq<Event>, limit: nat, renamed: bool)
    requires Archived(codec, l, hist, closed) && UndegradedRun(codec, l, evs) && |hist| + |evs| <= U64_MAX
    requires Sized(codec, l, closed, limit, renamed) && Steady(evs, limit, renamed)
    ensures Sized(codec, Run(codec, l, evs), RunClosed(codec, l, closed, evs), limit, renamed)
    decreases evs
  {
    if evs != [] {
      var next := Step(codec, l, evs[0]);
      assert Steady([evs[0]], limit, renamed) && Steady(evs[1..], limit, renamed);
      StepKeepsArchived(codec, l, hist, closed, evs[0]);
      StepKeepsSized(codec, l, hist, closed, evs[0], limit, renamed);
      SegmentsAreFull(codec, next, Recorded(codec, l, hist, evs[0]), ClosedBy(closed, next), evs[1..], limit, renamed);
    }
  }

  /** In particular every such run from an empty directory. */
  lemma FreshSegmentsAreFull(codec: Codec, cap: nat, maxBytes: nat, maxSegments: nat, evs: seq<Event>, renamed: bool)
    requires var l := Opened(codec, map[], None, false, cap, maxBytes, maxSegments);
             UndegradedRun(codec, l, evs) && |evs| <= U64_MAX && Steady(evs, Max(maxBytes, 1), renamed)
    ensures var l := Opened(codec, map[], None, false, cap, maxBytes, maxSegments);
            Sized(codec, Run(codec, l, evs), RunClosed(codec, l, map[], evs), Max(maxBytes, 1), renamed)
  {
    var l := Opened(codec, map[], None, false, cap, maxBytes, maxSegments);
    FirstOpenHealthy(codec, cap, maxBytes, maxSegments);
    HealthyIsArchived(codec, l, []);
    SegmentsAreFull(codec, l, [], map[], evs, Max(maxBytes, 1), renamed);
  }

  // ----- what a record changes in memory

  /** The entry carries the request as it stands, the clock and the next number, and continues the chain. */
  lemma EntryShows(codec: Codec, l: Log, r: Request, ts: U64)
    ensures var e := NextEntry(codec, l, r, ts);
            && e.actor == r.actor && e.action == r.action && e.detail == r.detail && e.outcome == r.ok
            && e.ts == ts && e.prev == l.lastHash && e.seqNo == (if l.seqNo == U64_MAX then 0 else l.seqNo + 1)
            && Sealed(codec.mac, e)
  {
  }

  lemma {:induction false} ZeroBytes(width: nat, i: nat)
    requires i < width
    ensures BigEndian(0, width)[i] == 0
  {
    if i < width - 1 {
      ZeroBytes(width - 1, i);
    }
  }

  /** The first entry ever is number 1 and links to 32 zero bytes. */
  lemma FirstEntryLinksToZero(codec: Codec, cap: nat, maxBytes: nat, maxSegments: nat, r: Request, ts: U64, i: nat)
    requires i < 32
    ensures var e := NextEntry(codec, Opened(codec, map[], None, false, cap, maxBytes, maxSegments), r, ts);
            e.seqNo == 1 && e.prev[i] == 0
  {
    FirstOpenHealthy(codec, cap, maxBytes, maxSegments);
    ZeroBytes(32, i);
  }

  lemma PushKeepsNewest<T>(ring: seq<T>, cap: nat, x: T)
    requires 0 < cap && |ring| <= cap
    ensures IsSuffix(Push(ring, cap, x), ring + [x]) && |Push(ring, cap, x)| == Min(cap, |ring| + 1)
  {
  }

  /**
   A record advances number and head to its entry; the tail is the newest `cap` of the old tail and it; the
   log is degraded from the first record on that was not durable.
   */
  lemma RecordShows(codec: Codec, l: Log, r: Request, ts: U64, d: Disk)
    requires l.cap > 0 && |l.ring| <= l.cap
    ensures var (l', durable) := Record(codec, l, r, ts, d);
            var e := NextEntry(codec, l, r, ts);
            && l'.seqNo == e.seqNo && l'.lastHash == e.hash && l'.cap == l.cap
            && IsSuffix(l'.ring, l.ring + [e]) && |l'.ring| == Min(l.cap, |l.ring| + 1)
            && (l'.degraded <==> l.degraded || !durable)
            && (l.persist.None? ==> durable && l'.persist.None?)
            && (l.persist.Some? ==> l'.persist == Some(Append(codec, l.persist.value, e, d).0)
                                    && durable == Append(codec, l.persist.value, e, d).1)
  {
    PushKeepsNewest(l.ring, l.cap, NextEntry(codec, l, r, ts));
  }
}
