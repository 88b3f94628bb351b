/**
 What the file sink keeps whatever fails: where the descriptor points, which names are free, and
 where a record that was reported durable is to be found.
 */
module AuditSink {
  import opened Binary
  import opened Wrappers
  import opened Sequences
  import opened AuditChain
  import opened AuditLog
  import opened AuditRuns

  // ----- the invariant

  /** The descriptor's file, which is not empty if its last line is unfinished. */
  predicate RaggedHasLine(p: Persist) {
    p.ragged ==>
      if p.handle.Some? && p.handle.value in p.segs then p.segs[p.handle.value] != []
      else p.live.Some? && p.live.value != []
  }

  /** Every record is numbered from 1 up to `top`. */
  ghost predicate Numbered(f: File, top: nat) {
    forall i :: 0 <= i < |f| && f[i].Rec? ==> 1 <= f[i].e.seqNo <= top
  }

  /** The file holds the record it is named after, or a line that does not parse. */
  ghost predicate Marked(f: File, k: nat) {
    exists i :: 0 <= i < |f| && (f[i].Malformed? || (f[i].Rec? && f[i].e.seqNo == k))
  }

  ghost predicate SegmentsSound(segs: map<nat, File>, top: nat) {
    forall k :: k in segs ==> k <= top && Marked(segs[k], k) && Numbered(segs[k], top)
  }

  ghost predicate SinkSound(p: Persist, top: nat) {
    SinkOk(p) && RaggedHasLine(p) && SegmentsSound(p.segs, top) && (p.live.Some? ==> Numbered(p.live.value, top))
  }

  ghost predicate Sound(l: Log) {
    l.cap > 0 && (l.persist.Some? ==> SinkSound(l.persist.value, l.seqNo))
  }

  // ----- one append

  lemma ExtendedIsSound(f: File, ragged: bool, l: Line, top: nat, k: nat)
    requires Numbered(f, top) && (l.Rec? ==> l.e.seqNo == top + 1)
    ensures Numbered(Extended(f, ragged, l), top + 1)
    ensures Marked(f, k) ==> Marked(Extended(f, ragged, l), k)
    ensures l.Rec? || l.Malformed? ==> Marked(Extended(f, ragged, l), top + 1)
  {
    var g := Extended(f, ragged, l);
    if l.Rec? || l.Malformed? {
      assert g[|g| - 1].Malformed? || (g[|g| - 1].Rec? && g[|g| - 1].e.seqNo == top + 1);
    }
    if Marked(f, k) {
      var i :| 0 <= i < |f| && (f[i].Malformed? || (f[i].Rec? && f[i].e.seqNo == k));
      var j := if i < |f| - 1 || !ragged then i else |g| - 1;
      assert g[j].Malformed? || (g[j].Rec? && g[j].e.seqNo == k);
    }
  }

  lemma SegmentsGrow(segs: map<nat, File>, top: nat)
    requires SegmentsSound(segs, top)
    ensures SegmentsSound(segs, top + 1)
  {
  }

  lemma PutKeepsSound(p: Persist, l: Line, ended: bool, top: nat)
    requires SinkSound(p, top) && (l.Rec? ==> l.e.seqNo == top + 1)
    ensures SinkSound(Put(p, l, ended), top + 1)
    ensures p.live.Some? && (l.Rec? || l.Malformed?) ==>
              Put(p, l, ended).live.Some? && Marked(Put(p, l, ended).live.value, top + 1)
  {
    SegmentsGrow(p.segs, top);
    if p.handle.Some? {
      ExtendedIsSound(p.segs[p.handle.value], p.ragged, l, top, p.handle.value);
    } else {
      ExtendedIsSound(p.live.value, p.ragged, l, top, 0);
    }
  }

  lemma FailedKeepsSound(p: Persist, e: Entry, torn: Torn, top: nat)
    requires SinkSound(p, top) && e.seqNo == top + 1
    ensures SinkSound(Failed(p, e, torn), top + 1)
  {
    match torn
    case Nothing => SegmentsGrow(p.segs, top);
    case Cut => PutKeepsSound(p, Malformed, false, top);
    case Unended => PutKeepsSound(p, Rec(e), false, top);
  }

  lemma RotateKeepsSound(w: Persist, k: U64, d: Disk)
    requires SinkSound(w, k) && (w.live.Some? ==> Marked(w.live.value, k))
    ensures SinkSound(MaybeRotate(w, k, d).0, k)
  {
    if Rotates(w, d) {
      assert SegmentsSound(w.segs[k := w.live.value], k);
      if d.reopen {
        var q := Rotated(w, k);
        assert forall x :: x in PruneSegments(q, d.stuck).segs ==> x in q.segs;
      }
    }
  }

  lemma AppendKeepsSound(codec: Codec, p: Persist, e: Entry, d: Disk, top: nat)
    requires SinkSound(p, top) && e.seqNo == top + 1
    ensures SinkSound(Append(codec, p, e, d).0, top + 1)
  {
    if !d.write {
      FailedKeepsSound(p, e, d.torn, top);
    } else {
      PutKeepsSound(p, Rec(e), true, top);
      if d.sync {
        RotateKeepsSound(Written(codec, p, e), e.seqNo, d);
      }
    }
  }

  lemma RecordKeepsSound(codec: Codec, l: Log, r: Request, ts: U64, d: Disk)
    requires Sound(l) && l.seqNo < U64_MAX
    ensures Sound(Record(codec, l, r, ts, d).0)
  {
    if l.persist.Some? {
      AppendKeepsSound(codec, l.persist.value, NextEntry(codec, l, r, ts), d, l.seqNo);
    }
  }

  // ----- opening

  lemma {:induction false} EntriesHave(lines: File, i: nat)
    requires i < |lines| && lines[i].Rec?
    ensures lines[i].e in Entries(lines)
  {
    if i < |lines| - 1 {
      EntriesHave(lines[..|lines| - 1], i);
    }
  }

  lemma {:induction false} EntriesFrom(lines: File, top: nat)
    requires Numbered(lines, top)
    ensures forall j :: 0 <= j < |Entries(lines)| ==> 1 <= Entries(lines)[j].seqNo <= top
  {
    if lines != [] {
      assert lines[|lines| - 1] == Last(lines);
      EntriesFrom(lines[..|lines| - 1], top);
    }
  }

  /** In an accepted chain no record is numbered above the head, and the head not above `top`. */
  lemma HeadIsTop(mac: Bytes -> Hash, lines: File, top: nat)
    requires Accepts(mac, lines) && Numbered(lines, top)
    ensures HeadSeq(Entries(lines)) <= top && Numbered(lines, HeadSeq(Entries(lines)))
  {
    var es := Entries(lines);
    EntriesFrom(lines, top);
    forall i | 0 <= i < |lines| && lines[i].Rec?
      ensures lines[i].e.seqNo <= HeadSeq(es)
    {
      EntriesHave(lines, i);
      var n :| 0 <= n < |es| && es[n] == lines[i].e;
      NotAboveHead(mac, es, n);
    }
  }

  lemma NotAboveHead(mac: Bytes -> Hash, es: seq<Entry>, n: nat)
    requires Chained(mac, es) && n < |es| && forall i :: 0 <= i < |es| ==> es[i].seqNo >= 1
    ensures es[n].seqNo <= HeadSeq(es)
  {
    ChainedCounts(mac, es, n);
    ChainedCounts(mac, es, |es| - 1);
  }

  lemma {:induction false} SegmentsNumbered(segs: map<nat, File>, top: nat)
    requires forall k :: k in segs ==> Numbered(segs[k], top)
    ensures Numbered(Flatten(SegFiles(segs)), top)
    decreases |segs|
  {
    if |segs| != 0 {
      var m := MaxOf(segs.Keys);
      SegmentsNumbered(segs - {m}, top);
      FlattenAppend(SegFiles(segs - {m}), segs[m]);
      NumberedConcat(Flatten(SegFiles(segs - {m})), segs[m], top);
    }
  }

  lemma NumberedConcat(a: File, b: File, top: nat)
    ensures Numbered(a + b, top) <==> Numbered(a, top) && Numbered(b, top)
  {
    assert forall i :: 0 <= i < |a| ==> (a + b)[i] == a[i];
    assert forall i :: 0 <= i < |b| ==> (a + b)[|a| + i] == b[i];
  }

  lemma {:induction false} SegmentLines(segs: map<nat, File>, k: nat, top: nat)
    requires k in segs && Numbered(Flatten(SegFiles(segs)), top)
    ensures Numbered(segs[k], top)
    ensures Malformed in segs[k] ==> Malformed in Flatten(SegFiles(segs))
    decreases |segs|
  {
    var m := MaxOf(segs.Keys);
    var below := segs - {m};
    FlattenAppend(SegFiles(below), segs[m]);
    NumberedConcat(Flatten(SegFiles(below)), segs[m], top);
    if k != m {
      SegmentLines(below, k, top);
    }
  }

  lemma DiskNumbered(p: Persist, top: nat)
    requires SegmentsSound(p.segs, top) && (p.live.Some? ==> Numbered(p.live.value, top))
    ensures Numbered(DiskLines(p), top)
  {
    DiskLinesSplit(p);
    SegmentsNumbered(p.segs, top);
    NumberedConcat(Flatten(SegFiles(p.segs)), if p.live.Some? then p.live.value else [], top);
  }

  lemma CleanHasNoMalformed(lines: File)
    requires Clean(lines)
    ensures Malformed !in lines
  {
  }

  lemma MarkedBelow(f: File, k: nat, top: nat)
    requires Marked(f, k) && Numbered(f, top) && Malformed !in f
    ensures k <= top
  {
  }

  lemma ReopenKeepsSound(codec: Codec, l: Log, cap: nat, maxBytes: nat, maxSegments: nat)
    requires Sound(l) && l.persist.Some? && Accepts(codec.mac, DiskLines(l.persist.value))
    ensures var next := Reopened(codec, l.persist.value, cap, maxBytes, maxSegments);
            Sound(next) && next.seqNo <= l.seqNo
  {
    var p := l.persist.value;
    var segs, live := Flatten(SegFiles(p.segs)), if p.live.Some? then p.live.value else [];
    var top := HeadSeq(Entries(DiskLines(p)));
    DiskNumbered(p, l.seqNo);
    HeadIsTop(codec.mac, DiskLines(p), l.seqNo);
    DiskLinesSplit(p);
    NumberedConcat(segs, live, top);
    CleanHasNoMalformed(DiskLines(p));
    forall k | k in p.segs
      ensures k <= top && Numbered(p.segs[k], top)
    {
      SegmentLines(p.segs, k, top);
      MarkedBelow(p.segs[k], k, top);
    }
  }

  /** Over every run, whatever fails and however often the process restarts. */
  lemma {:induction false} SoundRuns(codec: Codec, l: Log, evs: seq<Event>)
    requires Sound(l) && l.seqNo + |evs| <= U64_MAX
    ensures Sound(Run(codec, l, evs))
    decreases evs
  {
    if evs != [] {
      match evs[0] {
        case Write(r, ts, d) => RecordKeepsSound(codec, l, r, ts, d);
        case Restart(cap, maxBytes, maxSegments) =>
          if l.persist.Some? && Accepts(codec.mac, DiskLines(l.persist.value)) {
            ReopenKeepsSound(codec, l, cap, maxBytes, maxSegments);
          }
      }
      SoundRuns(codec, Step(codec, l, evs[0]), evs[1..]);
    }
  }

  lemma FirstOpenSound(codec: Codec, cap: nat, maxBytes: nat, maxSegments: nat)
    ensures Sound(Opened(codec, map[], None, false, cap, maxBytes, maxSegments))
  {
  }

  // ----- names are never reused

  /** `g` is `f` with more written to it; only an unfinished last line of `f` may differ. */
  predicate Grown(f: File, ragged: bool, g: File) {
    if ragged && f != [] then f[..|f| - 1] <= g else f <= g
  }

  /**
   In every run: a rotation never lands on an existing segment, and no segment still there
   changes, except that the one the descriptor was left on grows.
   */
  lemma NeverOverwrites(codec: Codec, l: Log, r: Request, ts: U64, d: Disk)
    requires Sound(l) && l.seqNo < U64_MAX && l.persist.Some?
    ensures var e, p := NextEntry(codec, l, r, ts), l.persist.value;
            var after := Record(codec, l, r, ts, d).0.persist.value.segs;
            && e.seqNo !in p.segs
            && after.Keys <= p.segs.Keys + {e.seqNo as nat}
            && forall k :: k in p.segs && k in after ==>
                 if p.handle == Some(k) then Grown(p.segs[k], p.ragged, after[k]) else after[k] == p.segs[k]
  {
    AppendKeepsNames(codec, l.persist.value, NextEntry(codec, l, r, ts), d);
  }

  lemma PutGrows(p: Persist, l: Line, ended: bool)
    requires SinkOk(p)
    ensures var q := Put(p, l, ended);
            && q.segs.Keys == p.segs.Keys && SinkOk(q) && q.handle == p.handle
            && forall k :: k in p.segs ==>
                 if p.handle == Some(k) then Grown(p.segs[k], p.ragged, q.segs[k]) else q.segs[k] == p.segs[k]
  {
  }

  lemma AppendKeepsNames(codec: Codec, p: Persist, e: Entry, d: Disk)
    requires SinkOk(p) && e.seqNo !in p.segs
    ensures var after := Append(codec, p, e, d).0.segs;
            && after.Keys <= p.segs.Keys + {e.seqNo as nat}
            && forall k :: k in p.segs && k in after ==>
                 if p.handle == Some(k) then Grown(p.segs[k], p.ragged, after[k]) else after[k] == p.segs[k]
  {
    PutGrows(p, Rec(e), d.write);
    PutGrows(p, Malformed, false);
    var w := Written(codec, p, e);
    if d.write && d.sync && Rotates(w, d) && d.reopen {
      var gone := Removed(Victims(Rotated(w, e.seqNo)), d.stuck);
      assert Append(codec, p, e, d).0.segs == w.segs[e.seqNo := w.live.value] - gone;
    }
  }

  // ----- where a durable record is

  lemma ExtendedHolds(f: File, ragged: bool, e: Entry, top: nat)
    requires Numbered(f, top) && e.seqNo > top && (ragged ==> f != [])
    ensures Rec(e) in Extended(f, ragged, Rec(e)) <==> !ragged
  {
    var g := Extended(f, ragged, Rec(e));
    assert forall i :: 0 <= i < |f| ==> f[i] != Rec(e);
    assert !ragged ==> g[|f|] == Rec(e);
  }

  lemma NotBefore(p: Persist, e: Entry, top: nat)
    requires SinkSound(p, top) && e.seqNo > top
    ensures !OnDisk(p, Rec(e))
  {
    forall k | k in p.segs
      ensures Rec(e) !in p.segs[k]
    {
      assert Numbered(p.segs[k], top);
    }
  }

  lemma PutHolds(p: Persist, e: Entry, top: nat)
    requires SinkSound(p, top) && e.seqNo > top
    ensures OnDisk(Put(p, Rec(e), true), Rec(e)) <==> !p.ragged
    ensures p.live.Some? ==> (Rec(e) in Put(p, Rec(e), true).live.value <==> !p.ragged)
  {
    NotBefore(p, e, top);
    var q := Put(p, Rec(e), true);
    if p.handle.Some? {
      var k := p.handle.value;
      ExtendedHolds(p.segs[k], p.ragged, e, top);
      assert forall x :: x in q.segs && x != k ==> q.segs[x] == p.segs[x] && Rec(e) !in q.segs[x];
      assert q.segs[k] == Extended(p.segs[k], p.ragged, Rec(e));
    } else {
      ExtendedHolds(p.live.value, p.ragged, e, top);
      assert q.segs == p.segs;
    }
  }

  lemma RotateHolds(w: Persist, e: Entry, d: Disk, top: nat)
    requires SinkSound(w, top + 1) && e.seqNo == top + 1 && w.handle.None? && forall k :: k in w.segs ==> k <= top
    requires forall k :: k in w.segs ==> Rec(e) !in w.segs[k]
    ensures OnDisk(MaybeRotate(w, e.seqNo, d).0, Rec(e)) <==> Rec(e) in w.live.value
  {
    if Rotates(w, d) {
      var segs := w.segs[e.seqNo := w.live.value];
      assert segs[e.seqNo] == w.live.value;
      if d.reopen {
        var q := Rotated(w, e.seqNo);
        PruneSparesNewest(q, e.seqNo, d.stuck);
        var after := PruneSegments(q, d.stuck);
        assert after.segs[e.seqNo] == w.live.value;
        assert forall k :: k in after.segs && k != e.seqNo ==> k in w.segs && after.segs[k] == w.segs[k];
      } else {
        assert forall k :: k in segs && k != e.seqNo ==> segs[k] == w.segs[k];
      }
    }
  }

  /**
   A record reported durable, by a log healthy or not, is a line on disk exactly when the file it
   was written to did not end in an unfinished line. Otherwise it only completes that line.
   */
  lemma DurableIsReadableIff(codec: Codec, l: Log, r: Request, ts: U64, d: Disk)
    requires Sound(l) && l.seqNo < U64_MAX && l.persist.Some?
    requires Record(codec, l, r, ts, d).1
    ensures var after := Record(codec, l, r, ts, d).0.persist.value;
            (OnDisk(after, Rec(NextEntry(codec, l, r, ts))) <==> !l.persist.value.ragged) && !after.ragged
  {
    var p, e := l.persist.value, NextEntry(codec, l, r, ts);
    var w := Written(codec, p, e);
    PutHolds(p, e, l.seqNo);
    PutKeepsSound(p, Rec(e), true, l.seqNo);
    if p.handle.None? {
      NotBefore(p, e, l.seqNo);
      assert w.segs == p.segs;
      RotateHolds(w, e, d, l.seqNo);
    }
  }

  /** Any run from an empty directory is sound, so all of this holds of it. */
  lemma RunsAreSound(codec: Codec, cap: nat, maxBytes: nat, maxSegments: nat, evs: seq<Event>)
    requires |evs| <= U64_MAX
    ensures Sound(Run(codec, Opened(codec, map[], None, false, cap, maxBytes, maxSegments), evs))
  {
    FirstOpenSound(codec, cap, maxBytes, maxSegments);
    SoundRuns(codec, Opened(codec, map[], None, false, cap, maxBytes, maxSegments), evs);
  }

  // ----- the archive: every file there has been

  /** The line is in the file and later text cannot run into it. */
  predicate Settled(f: File, ragged: bool, x: Line) {
    x in if ragged && f != [] then f[..|f| - 1] else f
  }

  /** The line is in a segment, still there or pruned since, or in the live file. */
  ghost predicate Filed(x: Line, closed: map<nat, File>, p: Persist) {
    || (exists k :: k in closed && Settled(closed[k], p.ragged && p.handle == Some(k), x))
    || (p.live.Some? && Settled(p.live.value, p.ragged && p.handle.None?, x))
  }

  /** `closed` holds the segments on disk and the pruned ones, nothing in them numbered above the head. */
  ghost predicate Archive(closed: map<nat, File>, p: Persist, top: nat) {
    && (forall k :: k in p.segs ==> k in closed && closed[k] == p.segs[k])
    && forall k :: k in closed ==> k <= top && Numbered(closed[k], top)
  }

  /** The line is in no file there has been. */
  ghost predicate Absent(x: Line, closed: map<nat, File>, p: Persist) {
    (forall k :: k in closed ==> x !in closed[k]) && (p.live.Some? ==> x !in p.live.value)
  }

  lemma InSnoc(s: File, y: Line, x: Line)
    ensures (s + [y])[..|s|] == s && (x in s + [y] <==> x in s || x == y)
  {
  }

  lemma ExtendedSettles(f: File, ragged: bool, l: Line, ended: bool, x: Line)
    ensures Settled(f, ragged, x) ==> Settled(Extended(f, ragged, l), !ended, x)
    ensures ended && !ragged ==> Settled(Extended(f, ragged, l), !ended, l)
  {
    if ragged && f != [] {
      InSnoc(f[..|f| - 1], Malformed, x);
    } else {
      InSnoc(f, l, x);
      InSnoc(f, l, l);
    }
  }

  lemma FiledElsewhere(x: Line, closed: map<nat, File>, p: Persist, more: map<nat, File>, q: Persist)
    requires exists k :: k in closed && Settled(closed[k], p.ragged && p.handle == Some(k), x)
    requires forall k :: k in closed && Settled(closed[k], p.ragged && p.handle == Some(k), x) ==>
               k in more && Settled(more[k], q.ragged && q.handle == Some(k), x)
    ensures Filed(x, more, q)
  {
  }

  lemma PutArchives(p: Persist, l: Line, ended: bool, closed: map<nat, File>, top: nat)
    requires SinkSound(p, top) && Archive(closed, p, top) && (l.Rec? ==> l.e.seqNo == top + 1)
    ensures var q := Put(p, l, ended);
            && (forall k :: k in q.segs ==> k in closed + q.segs && (closed + q.segs)[k] == q.segs[k])
            && forall k :: k in closed + q.segs ==> k <= top && Numbered((closed + q.segs)[k], top + 1)
  {
    if p.handle.Some? {
      ExtendedIsSound(p.segs[p.handle.value], p.ragged, l, top, 0);
    }
  }

  lemma PutKeepsFiled(p: Persist, l: Line, ended: bool, closed: map<nat, File>, top: nat, x: Line)
    requires SinkSound(p, top) && Archive(closed, p, top)
    ensures var q := Put(p, l, ended);
            && (p.handle.None? ==> closed + q.segs == closed)
            && (Filed(x, closed, p) ==> Filed(x, closed + q.segs, q))
            && (ended && !p.ragged ==> Filed(l, closed + q.segs, q))
  {
    var q := Put(p, l, ended);
    var more := closed + q.segs;
    if p.handle.Some? {
      var h := p.handle.value;
      ExtendedSettles(p.segs[h], p.ragged, l, ended, x);
      assert more == closed[h := Extended(closed[h], p.ragged, l)];
      if Filed(x, closed, p) {
        FiledElsewhere(x, closed, p, more, q);
      }
      if ended && !p.ragged {
        assert h in more && Settled(more[h], q.ragged && q.handle == Some(h), l);
      }
    } else {
      assert more == closed;
      ExtendedSettles(p.live.value, p.ragged, l, ended, x);
      if Filed(x, closed, p) && !Settled(p.live.value, p.ragged, x) {
        FiledElsewhere(x, closed, p, more, q);
      }
    }
  }

  lemma FailedKeepsFiled(p: Persist, e: Entry, torn: Torn, closed: map<nat, File>, top: nat, x: Line)
    requires SinkSound(p, top) && Archive(closed, p, top) && e.seqNo == top + 1
    ensures var q := Failed(p, e, torn);
            Archive(closed + q.segs, q, top + 1) && (Filed(x, closed, p) ==> Filed(x, closed + q.segs, q))
  {
    match torn
    case Nothing => assert closed + p.segs == closed;
    case Cut =>
      PutKeepsFiled(p, Malformed, false, closed, top, x);
      PutArchives(p, Malformed, false, closed, top);
    case Unended =>
      PutKeepsFiled(p, Rec(e), false, closed, top, x);
      PutArchives(p, Rec(e), false, closed, top);
  }

  /** After a rotation there is the segment just closed, and of the others only unchanged ones. */
  ghost predicate ClosedOne(before: map<nat, File>, after: map<nat, File>, k: nat, f: File) {
    && k in after && after[k] == f
    && forall j :: j in after && j != k ==> j in before && after[j] == before[j]
  }

  lemma RotateClosesOne(w: Persist, k: U64, d: Disk)
    requires Rotates(w, d) && forall j :: j in w.segs ==> j < k
    ensures ClosedOne(w.segs, MaybeRotate(w, k, d).0.segs, k, w.live.value)
  {
    if d.reopen {
      PruneSparesNewest(Rotated(w, k), k, d.stuck);
    }
  }

  lemma MergeClosedOne(closed: map<nat, File>, before: map<nat, File>, after: map<nat, File>, k: nat, f: File)
    requires ClosedOne(before, after, k, f) && forall j :: j in before ==> j in closed && closed[j] == before[j]
    ensures closed + after == closed[k := f]
  {
  }

  lemma RotateArchives(w: Persist, k: U64, d: Disk, closed: map<nat, File>)
    requires SinkOk(w) && k > 0 && Archive(closed, w, k - 1) && (w.live.Some? ==> Numbered(w.live.value, k))
    ensures var q := MaybeRotate(w, k, d).0;
            && closed + q.segs == (if Rotates(w, d) then closed[k := w.live.value] else closed)
            && Archive(closed + q.segs, q, k)
  {
    var q := MaybeRotate(w, k, d).0;
    if Rotates(w, d) {
      RotateClosesOne(w, k, d);
      MergeClosedOne(closed, w.segs, q.segs, k, w.live.value);
      ArchiveClosedOne(closed, w, q, k, w.live.value);
    } else {
      ArchiveGrows(closed, w, k);
    }
  }

  lemma NumberedGrows(f: File, top: nat)
    requires Numbered(f, top)
    ensures Numbered(f, top + 1)
  {
  }

  lemma ArchiveGrows(closed: map<nat, File>, p: Persist, k: nat)
    requires k > 0 && Archive(closed, p, k - 1)
    ensures closed + p.segs == closed && Archive(closed, p, k)
  {
    forall j | j in closed
      ensures Numbered(closed[j], k)
    {
      NumberedGrows(closed[j], k - 1);
    }
  }

  lemma ArchiveClosedOne(closed: map<nat, File>, w: Persist, q: Persist, k: nat, f: File)
    requires k > 0 && Archive(closed, w, k - 1) && ClosedOne(w.segs, q.segs, k, f) && Numbered(f, k)
    ensures Archive(closed[k := f], q, k)
  {
    ArchiveGrows(closed, w, k);
    var more := closed[k := f];
    forall j | j in more
      ensures j <= k && Numbered(more[j], k)
    {
      assert j == k || (j in closed && more[j] == closed[j]);
    }
  }

  lemma RotateKeepsFiled(w: Persist, k: U64, d: Disk, closed: map<nat, File>, x: Line)
    requires SinkOk(w) && !w.ragged && Filed(x, closed, w) && k !in closed
    ensures Filed(x, if Rotates(w, d) then closed[k := w.live.value] else closed, MaybeRotate(w, k, d).0)
  {
    var q := MaybeRotate(w, k, d).0;
    if Rotates(w, d) {
      var more := closed[k := w.live.value];
      assert !q.ragged;
      if Settled(w.live.value, false, x) {
        var key: nat := k;
        assert key in more && Settled(more[key], q.ragged && q.handle == Some(key), x);
      } else {
        FiledElsewhere(x, closed, w, more, q);
      }
    }
  }

  lemma SyncedOnSegment(codec: Codec, p: Persist, e: Entry, d: Disk, closed: map<nat, File>, top: nat, x: Line)
    requires SinkSound(p, top) && Archive(closed, p, top) && e.seqNo == top + 1 && d.write && d.sync && p.handle.Some?
    ensures var q := Append(codec, p, e, d).0;
            && Archive(closed + q.segs, q, top + 1)
            && (Filed(x, closed, p) || (x == Rec(e) && !p.ragged) ==> Filed(x, closed + q.segs, q))
  {
    var w := Written(codec, p, e);
    PutKeepsFiled(p, Rec(e), true, closed, top, x);
    PutArchives(p, Rec(e), true, closed, top);
    SameFiled(x, closed + w.segs, Put(p, Rec(e), true), w);
  }

  lemma WrittenOnLive(codec: Codec, p: Persist, e: Entry, closed: map<nat, File>, top: nat)
    requires SinkSound(p, top) && Archive(closed, p, top) && e.seqNo == top + 1 && p.handle.None?
    ensures var w := Written(codec, p, e);
            && SinkOk(w) && !w.ragged && w.segs == p.segs && w.handle.None?
            && Archive(closed, w, top) && w.live.Some? && Numbered(w.live.value, top + 1)
  {
    ExtendedIsSound(p.live.value, p.ragged, Rec(e), top, 0);
  }

  lemma WrittenKeepsFiled(codec: Codec, p: Persist, e: Entry, closed: map<nat, File>, top: nat, x: Line)
    requires SinkSound(p, top) && Archive(closed, p, top) && p.handle.None?
    ensures Filed(x, closed, p) || (x == Rec(e) && !p.ragged) ==> Filed(x, closed, Written(codec, p, e))
  {
    PutKeepsFiled(p, Rec(e), true, closed, top, x);
    SameFiled(x, closed, Put(p, Rec(e), true), Written(codec, p, e));
  }

  lemma SyncedOnLive(codec: Codec, p: Persist, e: Entry, d: Disk, closed: map<nat, File>, top: nat, x: Line)
    requires SinkSound(p, top) && Archive(closed, p, top) && e.seqNo == top + 1 && d.write && d.sync && p.handle.None?
    ensures var q := Append(codec, p, e, d).0;
            && Archive(closed + q.segs, q, top + 1)
            && (Filed(x, closed, p) || (x == Rec(e) && !p.ragged) ==> Filed(x, closed + q.segs, q))
  {
    WrittenOnLive(codec, p, e, closed, top);
    WrittenKeepsFiled(codec, p, e, closed, top, x);
    RotateFiles(Written(codec, p, e), e.seqNo, d, closed, x);
  }

  lemma SyncedKeepsFiled(codec: Codec, p: Persist, e: Entry, d: Disk, closed: map<nat, File>, top: nat, x: Line)
    requires SinkSound(p, top) && Archive(closed, p, top) && e.seqNo == top + 1 && d.write && d.sync
    ensures var q := Append(codec, p, e, d).0;
            && Archive(closed + q.segs, q, top + 1)
            && (Filed(x, closed, p) || (x == Rec(e) && !p.ragged) ==> Filed(x, closed + q.segs, q))
  {
    if p.handle.Some? {
      SyncedOnSegment(codec, p, e, d, closed, top, x);
    } else {
      SyncedOnLive(codec, p, e, d, closed, top, x);
    }
  }

  /** What is filed stays filed, and a durable record that continues no unfinished line is filed. */
  lemma AppendKeepsFiled(codec: Codec, p: Persist, e: Entry, d: Disk, closed: map<nat, File>, top: nat, x: Line)
    requires SinkSound(p, top) && Archive(closed, p, top) && e.seqNo == top + 1
    ensures var (q, ok) := Append(codec, p, e, d);
            && Archive(closed + q.segs, q, top + 1)
            && (Filed(x, closed, p) ==> Filed(x, closed + q.segs, q))
            && (ok && !p.ragged ==> Filed(Rec(e), closed + q.segs, q))
  {
    if !d.write {
      FailedKeepsFiled(p, e, d.torn, closed, top, x);
    } else if !d.sync {
      PutKeepsFiled(p, Rec(e), true, closed, top, x);
      PutArchives(p, Rec(e), true, closed, top);
    } else {
      SyncedKeepsFiled(codec, p, e, d, closed, top, x);
      SyncedKeepsFiled(codec, p, e, d, closed, top, Rec(e));
    }
  }

  lemma RotateFiles(w: Persist, k: U64, d: Disk, closed: map<nat, File>, x: Line)
    requires SinkOk(w) && !w.ragged && k > 0 && Archive(closed, w, k - 1)
    requires w.live.Some? ==> Numbered(w.live.value, k)
    ensures var q := MaybeRotate(w, k, d).0;
            Archive(closed + q.segs, q, k) && (Filed(x, closed, w) ==> Filed(x, closed + q.segs, q))
  {
    RotateArchives(w, k, d, closed);
    if Filed(x, closed, w) {
      RotateKeepsFiled(w, k, d, closed, x);
    }
  }

  lemma SameFiled(x: Line, closed: map<nat, File>, p: Persist, q: Persist)
    requires p.segs == q.segs && p.live == q.live && p.handle == q.handle && p.ragged == q.ragged
    ensures Filed(x, closed, p) <==> Filed(x, closed, q)
  {
  }

  // ----- what is in no file

  lemma ExtendedAbsent(f: File, ragged: bool, l: Line, x: Line)
    requires x !in f && x != Malformed && (x != l || (ragged && f != []))
    ensures x !in Extended(f, ragged, l)
  {
  }

  lemma PutKeepsAbsent(p: Persist, l: Line, ended: bool, closed: map<nat, File>, top: nat, x: Line)
    requires SinkSound(p, top) && Archive(closed, p, top)
    requires Absent(x, closed, p) && x != Malformed && (x != l || p.ragged)
    ensures Absent(x, closed + Put(p, l, ended).segs, Put(p, l, ended))
  {
    if p.handle.Some? {
      ExtendedAbsent(p.segs[p.handle.value], p.ragged, l, x);
    } else {
      ExtendedAbsent(p.live.value, p.ragged, l, x);
    }
  }

  lemma RotateKeepsAbsent(w: Persist, k: U64, d: Disk, closed: map<nat, File>, x: Line)
    requires Absent(x, closed, w) && forall j :: j in w.segs ==> x !in w.segs[j]
    ensures Absent(x, closed + MaybeRotate(w, k, d).0.segs, MaybeRotate(w, k, d).0)
  {
  }

  /** A line that is in no file appears only as the record being written, and not if that one is swallowed. */
  lemma AppendKeepsAbsent(codec: Codec, p: Persist, e: Entry, d: Disk, closed: map<nat, File>, top: nat, x: Line)
    requires SinkSound(p, top) && Archive(closed, p, top) && e.seqNo == top + 1
    requires Absent(x, closed, p) && x != Malformed && (x != Rec(e) || p.ragged)
    ensures Absent(x, closed + Append(codec, p, e, d).0.segs, Append(codec, p, e, d).0)
  {
    PutKeepsAbsent(p, Rec(e), d.write, closed, top, x);
    PutKeepsAbsent(p, Malformed, false, closed, top, x);
    if d.write && d.sync && p.handle.None? {
      var w := Written(codec, p, e);
      assert w.segs == p.segs && closed + w.segs == closed;
      RotateKeepsAbsent(w, e.seqNo, d, closed, x);
    } else if !d.write && d.torn.Nothing? {
      assert closed + p.segs == closed;
    }
  }

  lemma NewIsAbsent(p: Persist, closed: map<nat, File>, top: nat, e: Entry)
    requires SinkSound(p, top) && Archive(closed, p, top) && e.seqNo > top
    ensures Absent(Rec(e), closed, p)
  {
  }

  lemma AbsentIsNotFiled(x: Line, closed: map<nat, File>, p: Persist)
    requires Absent(x, closed, p)
    ensures !Filed(x, closed, p)
  {
  }

  // ----- a healthy log that loses a durable record

  const STOPPED := Disk(false, false, Unended, false, false, {})

  /** Everything succeeds, and the file is not renamed. */
  const WHOLE := Disk(true, true, Nothing, false, true, {})

  lemma AppendStops(codec: Codec, p: Persist, e: Entry)
    requires p.live == Some([]) && p.handle.None? && !p.ragged
    ensures Append(codec, p, e, STOPPED) == (p.(live := Some([Rec(e)]), ragged := true), false)
  {
    assert [] + [Rec(e)] == [Rec(e)];
  }

  lemma AppendSwallowed(codec: Codec, p: Persist, e: Entry, l: Line)
    requires p.live == Some([l]) && p.handle.None? && p.ragged
    ensures var (q, ok) := Append(codec, p, e, WHOLE);
            ok && q.live == Some([Malformed]) && q.segs == p.segs
  {
    assert Extended([l], true, Rec(e)) == [Malformed] by {
      assert [l][..0] + [Malformed] == [Malformed];
    }
  }

  lemma SingleEntry(e: Entry)
    ensures Entries([Rec(e)]) == [e]
  {
    var none: File := [];
    assert [Rec(e)][..0] == none && Entries(none) == [];
  }

  lemma OneLineIsAccepted(codec: Codec, p: Persist, e: Entry)
    requires Sealed(codec.mac, e) && p.segs == map[] && p.live == Some([Rec(e)])
    ensures Accepts(codec.mac, DiskLines(p)) && Entries(DiskLines(p)) == [e]
  {
    assert DiskLines(p) == [Rec(e)] by {
      DiskLinesSplit(p);
    }
    SingleEntry(e);
  }

  /** What the stopped write and the restart leave of a log opened on an empty directory. */
  lemma StoppedThenReopened(codec: Codec, r: Request, cap: nat, maxBytes: nat, maxSegments: nat)
    ensures var l := Opened(codec, map[], None, false, cap, maxBytes, maxSegments);
            var e := NextEntry(codec, l, r, 0);
            var l1 := Step(codec, l, Write(r, 0, STOPPED));
            var l2 := Step(codec, l1, Restart(cap, maxBytes, maxSegments));
            && l2.cap > 0 && l1.degraded && !l2.degraded && l2.persist.Some?
            && l2.persist.value.ragged && l2.persist.value.handle.None?
            && l2.persist.value.segs == map[] && l2.persist.value.live == Some([Rec(e)])
  {
    var l := Opened(codec, map[], None, false, cap, maxBytes, maxSegments);
    var e := NextEntry(codec, l, r, 0);
    AppendStops(codec, l.persist.value, e);
    var l1 := Step(codec, l, Write(r, 0, STOPPED));
    OneLineIsAccepted(codec, l1.persist.value, e);
  }

  /**
   After a write that stopped before its newline, a restart accepts the file and the log is healthy
   again; the next record is reported durable, is no line on disk, and the next open refuses the file.
   */
  lemma UnfinishedLineSwallowsNext(codec: Codec, r: Request, cap: nat, maxBytes: nat, maxSegments: nat)
    ensures var l := Opened(codec, map[], None, false, cap, maxBytes, maxSegments);
            var l2 := Step(codec, Step(codec, l, Write(r, 0, STOPPED)), Restart(cap, maxBytes, maxSegments));
            var (after, durable) := Record(codec, l2, r, 0, WHOLE);
            && !l2.degraded && durable && !after.degraded && after.persist.Some?
            && !OnDisk(after.persist.value, Rec(NextEntry(codec, l2, r, 0)))
            && !Accepts(codec.mac, DiskLines(after.persist.value))
  {
    var l := Opened(codec, map[], None, false, cap, maxBytes, maxSegments);
    var l2 := Step(codec, Step(codec, l, Write(r, 0, STOPPED)), Restart(cap, maxBytes, maxSegments));
    StoppedThenReopened(codec, r, cap, maxBytes, maxSegments);
    SwallowedIsRefused(codec, l2, r, Rec(NextEntry(codec, l, r, 0)));
  }

  lemma SwallowedIsRefused(codec: Codec, l: Log, r: Request, line: Line)
    requires l.cap > 0 && l.persist.Some? && !l.degraded
    requires l.persist.value.ragged && l.persist.value.handle.None?
    requires l.persist.value.segs == map[] && l.persist.value.live == Some([line])
    ensures var (after, durable) := Record(codec, l, r, 0, WHOLE);
            && durable && !after.degraded && after.persist.Some?
            && !OnDisk(after.persist.value, Rec(NextEntry(codec, l, r, 0)))
            && !Accepts(codec.mac, DiskLines(after.persist.value))
  {
    AppendSwallowed(codec, l.persist.value, NextEntry(codec, l, r, 0), line);
    var q := Record(codec, l, r, 0, WHOLE).0.persist.value;
    DiskLinesSplit(q);
    assert DiskLines(q) == [Malformed];
    assert DiskLines(q)[0].Malformed?;
  }
}
