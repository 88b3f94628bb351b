/**
 What remains readable of a log on which writes have failed. Whatever fails and however often the
 process restarts, memory and files belong to one chained history; a restart forgets the records
 after the last line it reads.
 */
module AuditDegraded {
  import opened Binary
  import opened Wrappers
  import opened Sequences
  import opened AuditChain
  import opened AuditLog
  import opened AuditRuns
  import opened AuditSink

  // ----- lines and the history

  /** A record of the history, or a line that does not parse. */
  predicate Genuine(x: Line, hist: seq<Entry>) {
    x.Malformed? || (x.Rec? && x.e in hist)
  }

  ghost predicate AllGenuine(p: Persist, hist: seq<Entry>) {
    forall x :: OnDisk(p, x) ==> Genuine(x, hist)
  }

  /** While the descriptor is on a segment, that segment is the newest. */
  predicate HandleNewest(p: Persist) {
    p.handle.Some? ==> forall k :: k in p.segs ==> k <= p.handle.value
  }

  /** Memory is in step with the history, and the files hold nothing else. */
  ghost predicate Faithful(codec: Codec, l: Log, hist: seq<Entry>) {
    && InStep(codec, l, hist) && Sound(l)
    && (l.persist.Some? ==> AllGenuine(l.persist.value, hist) && HandleNewest(l.persist.value))
  }

  /** Each number is one more than the last. */
  predicate Consecutive(es: seq<Entry>) {
    forall i :: 0 < i < |es| ==> es[i].seqNo == es[i - 1].seqNo + 1
  }

  lemma {:induction false} SegLineOnDisk(segs: map<nat, File>, x: Line)
    requires x in Flatten(SegFiles(segs))
    ensures exists k :: k in segs && x in segs[k]
    decreases |segs|
  {
    if |segs| > 0 {
      var m := MaxOf(segs.Keys);
      var below := segs - {m};
      FlattenAppend(SegFiles(below), segs[m]);
      if x !in segs[m] {
        SegLineOnDisk(below, x);
        var k :| k in below && x in below[k];
        assert k in segs && segs[k] == below[k];
      }
    }
  }

  lemma LinesAreGenuine(p: Persist, hist: seq<Entry>)
    requires AllGenuine(p, hist)
    ensures forall x :: x in DiskLines(p) ==> Genuine(x, hist)
  {
    DiskLinesSplit(p);
    forall x | x in DiskLines(p)
      ensures OnDisk(p, x)
    {
      if x in Flatten(SegFiles(p.segs)) {
        SegLineOnDisk(p.segs, x);
      }
    }
  }

  lemma {:induction false} EntriesAreLines(lines: File)
    ensures forall e :: e in Entries(lines) ==> Rec(e) in lines
  {
    if lines != [] {
      EntriesAreLines(lines[..|lines| - 1]);
      assert lines == lines[..|lines| - 1] + [Last(lines)];
    }
  }

  lemma PlaceInHistory(mac: Bytes -> Hash, hist: seq<Entry>, e: Entry)
    requires History(mac, hist) && e in hist
    ensures 1 <= e.seqNo <= |hist| && hist[e.seqNo - 1] == e
  {
    var i :| 0 <= i < |hist| && hist[i] == e;
  }

  lemma {:induction false} Counted(es: seq<Entry>, n: nat)
    requires Consecutive(es) && n < |es|
    ensures es[n].seqNo == es[0].seqNo + n
  {
    if n > 0 {
      Counted(es, n - 1);
    }
  }

  /** Records of the history with consecutive numbers are a stretch of it. */
  lemma StretchOfHistory(mac: Bytes -> Hash, hist: seq<Entry>, es: seq<Entry>)
    requires History(mac, hist) && es != [] && Consecutive(es) && forall e :: e in es ==> e in hist
    ensures 1 <= es[0].seqNo && HeadSeq(es) == es[0].seqNo + |es| - 1 <= |hist|
    ensures es == hist[es[0].seqNo - 1..HeadSeq(es)]
  {
    forall n: nat | n < |es|
      ensures es[n].seqNo == es[0].seqNo + n && 1 <= es[n].seqNo <= |hist| && hist[es[n].seqNo - 1] == es[n]
    {
      Counted(es, n);
      PlaceInHistory(mac, hist, es[n]);
    }
    assert es[|es| - 1] == Last(es);
  }

  lemma SliceIsChained(mac: Bytes -> Hash, hist: seq<Entry>, i: nat, j: nat)
    requires Chained(mac, hist) && i <= j <= |hist|
    ensures Chained(mac, hist[i..j])
  {
    assert forall k :: i < k < j ==> Follows(hist[k - 1], hist[k]);
  }

  // ----- when the files are accepted

  lemma CleanIff(lines: File, hist: seq<Entry>)
    requires forall x :: x in lines ==> Genuine(x, hist)
    ensures Clean(lines) <==> Malformed !in lines
  {
    assert forall i :: 0 <= i < |lines| ==> lines[i] in lines;
  }

  lemma ChainedIsConsecutive(mac: Bytes -> Hash, hist: seq<Entry>, es: seq<Entry>)
    requires History(mac, hist) && Chained(mac, es) && forall e :: e in es ==> e in hist
    ensures Consecutive(es)
  {
    forall i | 0 < i < |es|
      ensures es[i].seqNo == es[i - 1].seqNo + 1
    {
      assert Follows(es[i - 1], es[i]) && es[i] in es;
      PlaceInHistory(mac, hist, es[i]);
    }
  }

  lemma ConsecutiveIsChained(mac: Bytes -> Hash, hist: seq<Entry>, es: seq<Entry>)
    requires History(mac, hist) && Consecutive(es) && forall e :: e in es ==> e in hist
    ensures Chained(mac, es)
  {
    if es != [] {
      StretchOfHistory(mac, hist, es);
      SliceIsChained(mac, hist, es[0].seqNo - 1, HeadSeq(es));
    }
  }

  lemma EntriesFromHistory(lines: File, hist: seq<Entry>)
    requires forall x :: x in lines ==> Genuine(x, hist)
    ensures forall e :: e in Entries(lines) ==> e in hist
  {
    EntriesAreLines(lines);
  }

  lemma GenuineAcceptedIff(mac: Bytes -> Hash, hist: seq<Entry>, lines: File)
    requires History(mac, hist) && forall x :: x in lines ==> Genuine(x, hist)
    ensures Accepts(mac, lines) <==> Malformed !in lines && Consecutive(Entries(lines))
  {
    EntriesFromHistory(lines, hist);
    CleanIff(lines, hist);
    if Consecutive(Entries(lines)) {
      ConsecutiveIsChained(mac, hist, Entries(lines));
    }
    if Chained(mac, Entries(lines)) {
      ChainedIsConsecutive(mac, hist, Entries(lines));
    }
  }

  /** The files, of a degraded log as well, are accepted exactly when every line parses and no number is skipped. */
  lemma AcceptedIff(codec: Codec, l: Log, hist: seq<Entry>)
    requires Faithful(codec, l, hist) && l.persist.Some?
    ensures var lines := DiskLines(l.persist.value);
            Accepts(codec.mac, lines) <==> Malformed !in lines && Consecutive(Entries(lines))
  {
    LinesAreGenuine(l.persist.value, hist);
    GenuineAcceptedIff(codec.mac, hist, DiskLines(l.persist.value));
  }

  // ----- runs

  /** What is left of the history: an accepted restart resumes after the last line, whatever came later. */
  ghost function Remembered(codec: Codec, l: Log, hist: seq<Entry>, ev: Event): seq<Entry> {
    match ev
    case Write(r, ts, d) => hist + [NextEntry(codec, l, r, ts)]
    case Restart(_, _, _) =>
      if l.persist.Some? && Accepts(codec.mac, DiskLines(l.persist.value)) then
        hist[..Min(HeadSeq(Entries(DiskLines(l.persist.value))), |hist|)]
      else hist
  }

  ghost function RunRemembered(codec: Codec, l: Log, hist: seq<Entry>, evs: seq<Event>): seq<Entry>
    requires l.cap > 0
    decreases evs
  {
    if evs == [] then hist
    else RunRemembered(codec, Step(codec, l, evs[0]), Remembered(codec, l, hist, evs[0]), evs[1..])
  }

  lemma ExtendedOrigin(f: File, ragged: bool, l: Line, x: Line)
    requires x in Extended(f, ragged, l)
    ensures x in f || x == l || x.Malformed?
  {
  }

  lemma PutOrigin(p: Persist, l: Line, ended: bool, x: Line)
    requires OnDisk(Put(p, l, ended), x)
    ensures OnDisk(p, x) || x == l || x.Malformed?
  {
    var q := Put(p, l, ended);
    if k :| k in q.segs && x in q.segs[k] {
      if q.segs[k] != p.segs[k] {
        ExtendedOrigin(p.segs[k], p.ragged, l, x);
      }
    } else if q.live != p.live {
      ExtendedOrigin(p.live.value, p.ragged, l, x);
    }
  }

  lemma RotateOrigin(p: Persist, k: U64, d: Disk, x: Line)
    requires OnDisk(MaybeRotate(p, k, d).0, x)
    ensures OnDisk(p, x)
  {
    var q := MaybeRotate(p, k, d).0;
    if j :| j in q.segs && x in q.segs[j] {
      assert q.segs[j] == if Rotates(p, d) && j == k then p.live.value else p.segs[j];
    }
  }

  /** An append adds the record or a line that does not parse, and nothing else. */
  lemma AppendOrigin(codec: Codec, p: Persist, e: Entry, d: Disk, x: Line)
    requires OnDisk(Append(codec, p, e, d).0, x)
    ensures OnDisk(p, x) || x == Rec(e) || x.Malformed?
  {
    if !d.write {
      if d.torn.Cut? {
        PutOrigin(p, Malformed, false, x);
      } else if d.torn.Unended? {
        PutOrigin(p, Rec(e), false, x);
      }
    } else {
      if d.sync {
        RotateOrigin(Written(codec, p, e), e.seqNo, d, x);
        assert OnDisk(Put(p, Rec(e), true), x);
      }
      PutOrigin(p, Rec(e), true, x);
    }
  }

  lemma AppendKeepsNewest(codec: Codec, p: Persist, e: Entry, d: Disk)
    requires HandleNewest(p) && forall k :: k in p.segs ==> k < e.seqNo
    ensures HandleNewest(Append(codec, p, e, d).0)
  {
  }

  lemma WriteKeepsFaithful(codec: Codec, l: Log, hist: seq<Entry>, r: Request, ts: U64, d: Disk)
    requires Faithful(codec, l, hist) && l.seqNo < U64_MAX
    ensures Faithful(codec, Record(codec, l, r, ts, d).0, hist + [NextEntry(codec, l, r, ts)])
  {
    var e := NextEntry(codec, l, r, ts);
    RecordKeepsMemory(codec, l, hist, r, ts, d);
    RecordKeepsSound(codec, l, r, ts, d);
    if l.persist.Some? {
      var p := l.persist.value;
      var q := Append(codec, p, e, d).0;
      AppendKeepsNewest(codec, p, e, d);
      forall x | OnDisk(q, x)
        ensures Genuine(x, hist + [e])
      {
        AppendOrigin(codec, p, e, d, x);
      }
    }
  }

  lemma PrefixIsHistory(mac: Bytes -> Hash, hist: seq<Entry>, n: nat)
    requires History(mac, hist) && n <= |hist|
    ensures History(mac, hist[..n])
  {
    assert hist[0..n] == hist[..n];
    SliceIsChained(mac, hist, 0, n);
  }

  /** Accepted lines of the history are the end of a part of it. */
  lemma AcceptedIsSuffix(mac: Bytes -> Hash, hist: seq<Entry>, lines: File)
    requires History(mac, hist) && Accepts(mac, lines) && forall x :: x in lines ==> Genuine(x, hist)
    ensures HeadSeq(Entries(lines)) <= |hist| && IsSuffix(Entries(lines), hist[..HeadSeq(Entries(lines))])
    ensures Entries(lines) == [] ==> HeadSeq(Entries(lines)) == 0
  {
    var es := Entries(lines);
    GenuineAcceptedIff(mac, hist, lines);
    EntriesFromHistory(lines, hist);
    if es != [] {
      StretchOfHistory(mac, hist, es);
    }
  }

  lemma SuffixHead(es: seq<Entry>, hist: seq<Entry>)
    requires IsSuffix(es, hist) && (es == [] ==> hist == [])
    ensures HeadHash(es) == HeadHash(hist)
    ensures forall e :: e in es ==> e in hist
  {
    if es != [] {
      assert es[|es| - 1] == hist[|hist| - 1];
    }
  }

  /** Opening an accepted directory of genuine lines puts memory in step with the history up to its last line. */
  lemma ReopenInStep(codec: Codec, p: Persist, hist: seq<Entry>, cap: nat, maxBytes: nat, maxSegments: nat)
    requires History(codec.mac, hist) && AllGenuine(p, hist) && Accepts(codec.mac, DiskLines(p))
    ensures var n := HeadSeq(Entries(DiskLines(p)));
            && n <= |hist| && InStep(codec, Reopened(codec, p, cap, maxBytes, maxSegments), hist[..n])
            && forall e :: e in Entries(DiskLines(p)) ==> e in hist[..n]
  {
    LinesAreGenuine(p, hist);
    AcceptedIsSuffix(codec.mac, hist, DiskLines(p));
    var es := Entries(DiskLines(p));
    var kept := hist[..HeadSeq(es)];
    PrefixIsHistory(codec.mac, hist, HeadSeq(es));
    SuffixHead(es, kept);
    ResumedInStep(codec, Reopened(codec, p, cap, maxBytes, maxSegments), es, kept);
  }

  lemma ResumedInStep(codec: Codec, l: Log, es: seq<Entry>, kept: seq<Entry>)
    requires History(codec.mac, kept) && IsSuffix(es, kept) && HeadHash(es) == HeadHash(kept)
    requires l.seqNo == |kept| && l.lastHash == HeadHash(es) && l.cap > 0 && l.ring == Tail(es, l.cap)
    ensures InStep(codec, l, kept)
  {
    TailIsSuffix(es, kept, l.cap);
  }

  lemma TailIsSuffix<T>(s: seq<T>, t: seq<T>, n: nat)
    requires IsSuffix(s, t)
    ensures IsSuffix(Tail(s, n), t) && |Tail(s, n)| <= n
  {
  }

  lemma {:induction false} RecordIsEntry(lines: File, e: Entry)
    requires Rec(e) in lines
    ensures e in Entries(lines)
  {
    assert lines == lines[..|lines| - 1] + [Last(lines)];
    if Last(lines) != Rec(e) {
      RecordIsEntry(lines[..|lines| - 1], e);
    }
  }

  lemma {:induction false} SegLineInListing(segs: map<nat, File>, k: nat, x: Line)
    requires k in segs && x in segs[k]
    ensures x in Flatten(SegFiles(segs))
    decreases |segs|
  {
    var m := MaxOf(segs.Keys);
    var below := segs - {m};
    FlattenAppend(SegFiles(below), segs[m]);
    if k != m {
      SegLineInListing(below, k, x);
    }
  }

  lemma OnDiskIsListed(p: Persist, x: Line)
    requires OnDisk(p, x)
    ensures x in DiskLines(p)
  {
    DiskLinesSplit(p);
    if k :| k in p.segs && x in p.segs[k] {
      SegLineInListing(p.segs, k, x);
    }
  }

  lemma RestartKeepsFaithful(codec: Codec, l: Log, hist: seq<Entry>, cap: nat, maxBytes: nat, maxSegments: nat)
    requires Faithful(codec, l, hist) && l.persist.Some? && Accepts(codec.mac, DiskLines(l.persist.value))
    ensures var n := HeadSeq(Entries(DiskLines(l.persist.value)));
            n <= |hist| && Faithful(codec, Reopened(codec, l.persist.value, cap, maxBytes, maxSegments), hist[..n])
  {
    var p := l.persist.value;
    var next := Reopened(codec, p, cap, maxBytes, maxSegments);
    ReopenInStep(codec, p, hist, cap, maxBytes, maxSegments);
    ReopenKeepsSound(codec, l, cap, maxBytes, maxSegments);
    forall x | OnDisk(next.persist.value, x)
      ensures Genuine(x, hist[..HeadSeq(Entries(DiskLines(p)))])
    {
      assert OnDisk(p, x);
      if x.Rec? {
        OnDiskIsListed(p, x);
        RecordIsEntry(DiskLines(p), x.e);
      }
    }
  }

  /**
   Over every run, whatever fails and however often the process restarts: memory is in step with one
   chained history, and every line on disk is a record of it or does not parse.
   */
  lemma {:induction false} FaithfulRuns(codec: Codec, l: Log, hist: seq<Entry>, evs: seq<Event>)
    requires Faithful(codec, l, hist) && |hist| + |evs| <= U64_MAX
    ensures Faithful(codec, Run(codec, l, evs), RunRemembered(codec, l, hist, evs))
    decreases evs
  {
    if evs != [] {
      match evs[0] {
        case Write(r, ts, d) => WriteKeepsFaithful(codec, l, hist, r, ts, d);
        case Restart(cap, maxBytes, maxSegments) =>
          if l.persist.Some? && Accepts(codec.mac, DiskLines(l.persist.value)) {
            RestartKeepsFaithful(codec, l, hist, cap, maxBytes, maxSegments);
          }
      }
      FaithfulRuns(codec, Step(codec, l, evs[0]), Remembered(codec, l, hist, evs[0]), evs[1..]);
    }
  }

  /** After any run from an empty directory, the next open accepts exactly the files AcceptedIff describes. */
  lemma RunAcceptedIff(codec: Codec, cap: nat, maxBytes: nat, maxSegments: nat, evs: seq<Event>)
    requires |evs| <= U64_MAX
    ensures var l := Run(codec, Opened(codec, map[], None, false, cap, maxBytes, maxSegments), evs);
            l.persist.Some? ==>
              var lines := DiskLines(l.persist.value);
              Accepts(codec.mac, lines) <==> Malformed !in lines && Consecutive(Entries(lines))
  {
    var first := Opened(codec, map[], None, false, cap, maxBytes, maxSegments);
    FirstOpenHealthy(codec, cap, maxBytes, maxSegments);
    FirstOpenSound(codec, cap, maxBytes, maxSegments);
    FaithfulRuns(codec, first, [], evs);
    var l := Run(codec, first, evs);
    if l.persist.Some? {
      AcceptedIff(codec, l, RunRemembered(codec, first, [], evs));
    }
  }

  // ----- one more write

  /** The lines after an append that prunes nothing. */
  function AfterWrite(lines: File, ragged: bool, e: Entry, d: Disk): File {
    if !d.write && d.torn.Nothing? then lines
    else Extended(lines, ragged, if !d.write && d.torn.Cut? then Malformed else Rec(e))
  }

  predicate PrunesNothing(codec: Codec, p: Persist, e: Entry, d: Disk) {
    var w := Written(codec, p, e);
    d.write && d.sync && d.reopen && Rotates(w, d) ==> Removed(Victims(Rotated(w, e.seqNo)), d.stuck) == {}
  }

  lemma ExtendedEnd(a: File, f: File, ragged: bool, l: Line)
    requires ragged ==> f != []
    ensures Extended(a + f, ragged, l) == a + Extended(f, ragged, l)
  {
    if ragged {
      assert (a + f)[..|a + f| - 1] == a + f[..|f| - 1];
    }
  }

  lemma NewestIsLast(segs: map<nat, File>, h: nat)
    requires h in segs && forall k :: k in segs ==> k <= h
    ensures Flatten(SegFiles(segs)) == Flatten(SegFiles(segs - {h})) + segs[h]
  {
    assert MaxOf(segs.Keys) == h;
    FlattenAppend(SegFiles(segs - {h}), segs[h]);
  }

  lemma NewestReplaced(segs: map<nat, File>, h: nat, f: File)
    requires h in segs && forall k :: k in segs ==> k <= h
    ensures Flatten(SegFiles(segs[h := f])) == Flatten(SegFiles(segs - {h})) + f
  {
    NewestIsLast(segs[h := f], h);
    assert segs[h := f] - {h} == segs - {h};
  }

  lemma PutOnSegment(p: Persist, h: nat, l: Line, ended: bool)
    requires p.handle == Some(h) && h in p.segs && p.live.None? && HandleNewest(p) && (p.ragged ==> p.segs[h] != [])
    ensures DiskLines(Put(p, l, ended)) == Extended(DiskLines(p), p.ragged, l)
  {
    var rest, f := Flatten(SegFiles(p.segs - {h})), p.segs[h];
    assert DiskLines(p) == rest + f by {
      DiskLinesSplit(p);
      NewestIsLast(p.segs, h);
    }
    assert DiskLines(Put(p, l, ended)) == rest + Extended(f, p.ragged, l) by {
      DiskLinesSplit(Put(p, l, ended));
      NewestReplaced(p.segs, h, Extended(f, p.ragged, l));
    }
    ExtendedEnd(rest, f, p.ragged, l);
  }

  lemma PutOnLive(p: Persist, l: Line, ended: bool)
    requires p.handle.None? && p.live.Some? && (p.ragged ==> p.live.value != [])
    ensures DiskLines(Put(p, l, ended)) == Extended(DiskLines(p), p.ragged, l)
  {
    var rest, f := Flatten(SegFiles(p.segs)), p.live.value;
    assert DiskLines(p) == rest + f by {
      DiskLinesSplit(p);
    }
    assert DiskLines(Put(p, l, ended)) == rest + Extended(f, p.ragged, l) by {
      DiskLinesSplit(Put(p, l, ended));
    }
    ExtendedEnd(rest, f, p.ragged, l);
  }

  /** Text goes to the end of everything on disk. */
  lemma PutLines(p: Persist, l: Line, ended: bool)
    requires SinkOk(p) && RaggedHasLine(p) && HandleNewest(p)
    ensures DiskLines(Put(p, l, ended)) == Extended(DiskLines(p), p.ragged, l)
  {
    if p.handle.Some? {
      PutOnSegment(p, p.handle.value, l, ended);
    } else {
      PutOnLive(p, l, ended);
    }
  }

  /** Renaming the live file moves no line. */
  lemma RenamedLines(w: Persist, k: U64, q: Persist)
    requires w.live.Some? && forall x :: x in w.segs ==> x < k
    requires q.segs == w.segs[k := w.live.value] && q.live.None?
    ensures DiskLines(q) == DiskLines(w)
  {
    DiskLinesSplit(w);
    DiskLinesSplit(q);
    SegFilesAddNewest(w.segs, k, w.live.value);
    FlattenAppend(SegFiles(w.segs), w.live.value);
  }

  lemma NothingRemoved(q: Persist, stuck: set<nat>)
    requires Removed(Victims(q), stuck) == {}
    ensures PruneSegments(q, stuck) == q
  {
    assert q.segs - {} == q.segs;
  }

  lemma RotateLines(w: Persist, k: U64, d: Disk)
    requires forall x :: x in w.segs ==> x < k
    requires d.reopen && Rotates(w, d) ==> Removed(Victims(Rotated(w, k)), d.stuck) == {}
    ensures DiskLines(MaybeRotate(w, k, d).0) == DiskLines(w)
  {
    if Rotates(w, d) {
      if d.reopen {
        NothingRemoved(Rotated(w, k), d.stuck);
        RotatedLines(w, k);
      } else {
        RenamedLines(w, k, MaybeRotate(w, k, d).0);
      }
    }
  }

  lemma SamePlace(p: Persist, n: nat)
    ensures DiskLines(p.(bytes := n)) == DiskLines(p)
  {
  }

  lemma AppendLines(codec: Codec, p: Persist, e: Entry, d: Disk)
    requires SinkOk(p) && RaggedHasLine(p) && HandleNewest(p) && forall k :: k in p.segs ==> k < e.seqNo
    requires PrunesNothing(codec, p, e, d)
    ensures DiskLines(Append(codec, p, e, d).0) == AfterWrite(DiskLines(p), p.ragged, e, d)
  {
    if !d.write {
      PutLines(p, Malformed, false);
      PutLines(p, Rec(e), false);
    } else {
      var w := Written(codec, p, e);
      PutLines(p, Rec(e), true);
      SamePlace(Put(p, Rec(e), true), w.bytes);
      if d.sync {
        RotateLines(w, e.seqNo, d);
      }
    }
  }

  lemma ExtendedSpoils(mac: Bytes -> Hash, lines: File, ragged: bool, l: Line)
    requires l.Malformed? || (ragged && lines != [])
    ensures !Accepts(mac, Extended(lines, ragged, l))
  {
    var after := Extended(lines, ragged, l);
    assert after[|after| - 1].Malformed?;
  }

  lemma OneLineMore(mac: Bytes -> Hash, lines: File, e: Entry)
    ensures Accepts(mac, lines + [Rec(e)]) <==> Accepts(mac, lines) && Links(mac, Entries(lines), e)
  {
    var after := lines + [Rec(e)];
    assert after[..|lines|] == lines;
    ChainedStep(mac, Entries(lines), e);
    assert forall i :: 0 <= i < |lines| ==> after[i] == lines[i];
  }

  /** No record after the last line is missing. */
  predicate UpToDate(l: Log, lines: File) {
    Entries(lines) == [] || HeadSeq(Entries(lines)) == l.seqNo
  }

  lemma NextLinksIff(codec: Codec, l: Log, hist: seq<Entry>, lines: File, r: Request, ts: U64)
    requires InStep(codec, l, hist) && l.seqNo < U64_MAX && forall x :: x in lines ==> Genuine(x, hist)
    ensures Links(codec.mac, Entries(lines), NextEntry(codec, l, r, ts)) <==> UpToDate(l, lines)
  {
    var es := Entries(lines);
    EntriesFromHistory(lines, hist);
    if es != [] {
      assert Last(es) in es;
      PlaceInHistory(codec.mac, hist, Last(es));
    }
  }

  /** What a write leaves is a whole record on a line of its own. */
  predicate AddsRecord(p: Persist, d: Disk) {
    !p.ragged && (d.write || d.torn.Unended?)
  }

  /**
   A write that prunes nothing leaves files the next open accepts exactly when they were acceptable and
   it wrote no text at all, or a whole record while no earlier one is missing; so once a record has left
   nothing behind, the next text spoils the files.
   */
  lemma WriteAcceptedIff(codec: Codec, l: Log, hist: seq<Entry>, r: Request, ts: U64, d: Disk)
    requires Faithful(codec, l, hist) && l.persist.Some? && l.seqNo < U64_MAX
    requires PrunesNothing(codec, l.persist.value, NextEntry(codec, l, r, ts), d)
    ensures var p, after := l.persist.value, Record(codec, l, r, ts, d).0.persist.value;
            Accepts(codec.mac, DiskLines(after)) <==>
              && Accepts(codec.mac, DiskLines(p))
              && ((!d.write && d.torn.Nothing?) || (AddsRecord(p, d) && UpToDate(l, DiskLines(p))))
  {
    var p, e := l.persist.value, NextEntry(codec, l, r, ts);
    AppendLines(codec, p, e, d);
    LinesAreGenuine(p, hist);
    AfterWriteAcceptedIff(codec, l, hist, DiskLines(p), p.ragged, r, ts, d);
    RaggedHasLines(p);
  }

  lemma RaggedHasLines(p: Persist)
    requires SinkOk(p) && RaggedHasLine(p)
    ensures p.ragged ==> DiskLines(p) != []
  {
    if p.ragged {
      var x := if p.handle.Some? then p.segs[p.handle.value][0] else p.live.value[0];
      OnDiskIsListed(p, x);
    }
  }

  lemma AfterWriteAcceptedIff(codec: Codec, l: Log, hist: seq<Entry>, lines: File, ragged: bool, r: Request, ts: U64,
                              d: Disk)
    requires InStep(codec, l, hist) && l.seqNo < U64_MAX && forall x :: x in lines ==> Genuine(x, hist)
    ensures (ragged ==> lines != []) ==>
      (Accepts(codec.mac, AfterWrite(lines, ragged, NextEntry(codec, l, r, ts), d)) <==>
         && Accepts(codec.mac, lines)
         && ((!d.write && d.torn.Nothing?) || (!ragged && (d.write || d.torn.Unended?) && UpToDate(l, lines))))
  {
    var e := NextEntry(codec, l, r, ts);
    if d.write || !d.torn.Nothing? {
      if ragged && lines != [] {
        ExtendedSpoils(codec.mac, lines, ragged, Rec(e));
        ExtendedSpoils(codec.mac, lines, ragged, Malformed);
      } else if !d.write && d.torn.Cut? {
        ExtendedSpoils(codec.mac, lines, ragged, Malformed);
      } else {
        OneLineMore(codec.mac, lines, e);
        NextLinksIff(codec, l, hist, lines, r, ts);
      }
    }
  }

  /** A record that left nothing, and then one that leaves text: the files are refused, if they held a record. */
  lemma SkippedNumberIsRefused(codec: Codec, l: Log, hist: seq<Entry>, r: Request, ts: U64, d: Disk,
                               lost: Request, at: U64, missed: Disk)
    requires Faithful(codec, l, hist) && l.persist.Some? && l.seqNo < U64_MAX - 1
    requires !missed.write && missed.torn.Nothing? && (d.write || !d.torn.Nothing?)
    requires Entries(DiskLines(l.persist.value)) != []
    requires var mid := Record(codec, l, lost, at, missed).0;
             PrunesNothing(codec, mid.persist.value, NextEntry(codec, mid, r, ts), d)
    ensures var mid := Record(codec, l, lost, at, missed).0;
            !Accepts(codec.mac, DiskLines(Record(codec, mid, r, ts, d).0.persist.value))
  {
    var mid := Record(codec, l, lost, at, missed).0;
    WriteKeepsFaithful(codec, l, hist, lost, at, missed);
    WriteAcceptedIff(codec, mid, hist + [NextEntry(codec, l, lost, at)], r, ts, d);
    LastIsNotNewer(codec, l, hist);
  }

  lemma LastIsNotNewer(codec: Codec, l: Log, hist: seq<Entry>)
    requires Faithful(codec, l, hist) && l.persist.Some?
    ensures HeadSeq(Entries(DiskLines(l.persist.value))) <= l.seqNo
  {
    var es := Entries(DiskLines(l.persist.value));
    LinesAreGenuine(l.persist.value, hist);
    EntriesFromHistory(DiskLines(l.persist.value), hist);
    if es != [] {
      assert Last(es) in es;
      PlaceInHistory(codec.mac, hist, Last(es));
    }
  }
}
