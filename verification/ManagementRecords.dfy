/**
 What the handlers leave behind: where their records are, when a durable one cannot be read back,
 and how many each handler writes.
 */
module ManagementRecords {
  import opened Binary
  import opened Wrappers
  import opened Sequences
  import opened AuditChain
  import opened AuditLog
  import opened Management
  import A = AuditRetention
  import R = AuditRuns
  import K = AuditSink

  // ----- where the records are

  /** Reported durable, and starting on a line of its own. */
  predicate Trusted(o: Obs) {
    o.Recorded? && o.durable && !o.glued
  }

  ghost predicate AllFiled(trace: seq<Obs>, closed: map<nat, File>, p: Persist) {
    forall i :: 0 <= i < |trace| && Trusted(trace[i]) ==> K.Filed(Rec(trace[i].entry), closed, p)
  }

  ghost predicate NoneFiled(trace: seq<Obs>, closed: map<nat, File>, p: Persist, top: nat) {
    forall i :: 0 <= i < |trace| && trace[i].Recorded? && trace[i].glued ==>
      trace[i].entry.seqNo <= top && K.Absent(Rec(trace[i].entry), closed, p)
  }

  ghost predicate LinesInv(log: Log, trace: seq<Obs>, closed: map<nat, File>) {
    && K.Sound(log)
    && (log.persist.Some? ==>
          && K.Archive(closed, log.persist.value, log.seqNo) && AllFiled(trace, closed, log.persist.value)
          && NoneFiled(trace, closed, log.persist.value, log.seqNo))
  }

  /** Every segment there has been, with what it held when last seen. */
  ghost function ArchiveAfter(codec: Codec, requireKey: bool, s: Sys, closed: map<nat, File>, acts: seq<Action>)
    : map<nat, File>
    requires s.log.cap > 0
    decreases acts
  {
    if acts == [] then closed
    else
      var t := Act(codec, requireKey, s, acts[0]);
      ArchiveAfter(codec, requireKey, t, A.ClosedBy(closed, t.log), acts[1..])
  }

  lemma RecordKeepsLines(codec: Codec, log: Log, trace: seq<Obs>, closed: map<nat, File>, o: Obs, req: Request, io: Io)
    requires LinesInv(log, trace, closed) && log.seqNo < U64_MAX
    requires o.Recorded? && o.entry == NextEntry(codec, log, req, io.ts)
    requires o.durable == Record(codec, log, req, io.ts, io.d).1 && o.glued == Glues(log)
    ensures var next := Record(codec, log, req, io.ts, io.d).0;
            LinesInv(next, trace + [o], A.ClosedBy(closed, next))
  {
    K.RecordKeepsSound(codec, log, req, io.ts, io.d);
    if log.persist.Some? {
      var p := log.persist.value;
      var q := Append(codec, p, o.entry, io.d).0;
      K.AppendKeepsFiled(codec, p, o.entry, io.d, closed, log.seqNo, Rec(o.entry));
      FiledSoFar(codec, log, trace, closed, o.entry, io.d);
      AbsentSoFar(codec, log, trace, closed, o.entry, io.d);
      if o.glued {
        K.NewIsAbsent(p, closed, log.seqNo, o.entry);
        K.AppendKeepsAbsent(codec, p, o.entry, io.d, closed, log.seqNo, Rec(o.entry));
      }
    }
  }

  lemma FiledSoFar(codec: Codec, log: Log, trace: seq<Obs>, closed: map<nat, File>, e: Entry, d: Disk)
    requires LinesInv(log, trace, closed) && log.persist.Some? && e.seqNo == log.seqNo + 1
    ensures var q := Append(codec, log.persist.value, e, d).0;
            AllFiled(trace, closed + q.segs, q)
  {
    var p := log.persist.value;
    var q := Append(codec, p, e, d).0;
    forall i | 0 <= i < |trace| && Trusted(trace[i])
      ensures K.Filed(Rec(trace[i].entry), closed + q.segs, q)
    {
      K.AppendKeepsFiled(codec, p, e, d, closed, log.seqNo, Rec(trace[i].entry));
    }
  }

  lemma AbsentSoFar(codec: Codec, log: Log, trace: seq<Obs>, closed: map<nat, File>, e: Entry, d: Disk)
    requires LinesInv(log, trace, closed) && log.persist.Some? && e.seqNo == log.seqNo + 1
    ensures var q := Append(codec, log.persist.value, e, d).0;
            NoneFiled(trace, closed + q.segs, q, e.seqNo)
  {
    var p := log.persist.value;
    var q := Append(codec, p, e, d).0;
    forall i | 0 <= i < |trace| && trace[i].Recorded? && trace[i].glued
      ensures trace[i].entry.seqNo <= e.seqNo && K.Absent(Rec(trace[i].entry), closed + q.segs, q)
    {
      assert Rec(trace[i].entry) != Rec(e);
      K.AppendKeepsAbsent(codec, p, e, d, closed, log.seqNo, Rec(trace[i].entry));
    }
  }

  lemma QuietKeepsLines(log: Log, trace: seq<Obs>, closed: map<nat, File>, seen: seq<Obs>)
    requires LinesInv(log, trace, closed) && forall i :: 0 <= i < |seen| ==> !seen[i].Recorded?
    ensures LinesInv(log, trace + seen, A.ClosedBy(closed, log))
  {
    if log.persist.Some? {
      assert closed + log.persist.value.segs == closed;
    }
  }

  lemma ActKeepsLines(codec: Codec, requireKey: bool, s: Sys, closed: map<nat, File>, a: Action)
    requires LinesInv(s.log, s.trace, closed) && s.log.seqNo < U64_MAX
    ensures var t := Act(codec, requireKey, s, a);
            && LinesInv(t.log, t.trace, A.ClosedBy(closed, t.log))
            && t.log.seqNo <= s.log.seqNo + 1
  {
    if a.Arrive? && a.id !in s.pcs {
      QuietKeepsLines(s.log, s.trace, closed, [Began(a.id, s.log.degraded)]);
    } else if a.Advance? && a.id in s.pcs && a.id in s.rpcs {
      var r, pc := s.rpcs[a.id], s.pcs[a.id];
      var o := Stage(codec, requireKey, s.log, a.id, r, pc, a.io);
      StageWrites(codec, requireKey, s.log, a.id, r, pc, a.io);
      if StageRequest(r, pc).Some? {
        RecordKeepsLines(codec, s.log, s.trace, closed, o.seen[0], StageRequest(r, pc).value, a.io);
        assert o.seen == [o.seen[0]];
      } else {
        QuietKeepsLines(s.log, s.trace, closed, o.seen);
      }
    } else {
      QuietKeepsLines(s.log, s.trace, closed, []);
      assert s.trace + [] == s.trace;
    }
  }

  lemma {:induction false} RunsKeepLines(codec: Codec, requireKey: bool, s: Sys, closed: map<nat, File>,
                                         acts: seq<Action>)
    requires LinesInv(s.log, s.trace, closed) && s.log.seqNo + |acts| <= U64_MAX
    ensures var t := RunAll(codec, requireKey, s, acts);
            LinesInv(t.log, t.trace, ArchiveAfter(codec, requireKey, s, closed, acts))
    decreases acts
  {
    if acts != [] {
      var t := Act(codec, requireKey, s, acts[0]);
      ActKeepsLines(codec, requireKey, s, closed, acts[0]);
      RunsKeepLines(codec, requireKey, t, A.ClosedBy(closed, t.log), acts[1..]);
    }
  }

  // ----- when a durable record may be unreadable

  /** The latest record failed, or there is none and the file was `ragged` at the start. */
  predicate MayGlue(ragged: bool, trace: seq<Obs>) {
    if trace == [] then ragged
    else if Last(trace).Recorded? then !Last(trace).durable
    else MayGlue(ragged, trace[..|trace| - 1])
  }

  predicate GluedAfterFailure(ragged: bool, trace: seq<Obs>) {
    trace == [] || (
      && GluedAfterFailure(ragged, trace[..|trace| - 1])
      && (Last(trace).Recorded? && Last(trace).glued ==> MayGlue(ragged, trace[..|trace| - 1])))
  }

  ghost predicate GlueInv(ragged: bool, log: Log, trace: seq<Obs>) {
    log.cap > 0 && (Glues(log) ==> MayGlue(ragged, trace)) && GluedAfterFailure(ragged, trace)
  }

  lemma GlueStep(ragged: bool, trace: seq<Obs>, o: Obs)
    ensures MayGlue(ragged, trace + [o]) <==> if o.Recorded? then !o.durable else MayGlue(ragged, trace)
    ensures GluedAfterFailure(ragged, trace + [o]) <==>
            GluedAfterFailure(ragged, trace) && (o.Recorded? && o.glued ==> MayGlue(ragged, trace))
  {
    assert (trace + [o])[..|trace|] == trace;
  }

  /** A durable record ends its line. */
  lemma DurableEndsLine(codec: Codec, log: Log, req: Request, io: Io)
    requires log.cap > 0 && Record(codec, log, req, io.ts, io.d).1 && K.Sound(log)
    ensures !Glues(Record(codec, log, req, io.ts, io.d).0)
  {
  }

  lemma ActKeepsGlue(codec: Codec, requireKey: bool, ragged: bool, s: Sys, a: Action)
    requires GlueInv(ragged, s.log, s.trace) && K.Sound(s.log)
    ensures var t := Act(codec, requireKey, s, a);
            GlueInv(ragged, t.log, t.trace)
  {
    if a.Arrive? && a.id !in s.pcs {
      GlueStep(ragged, s.trace, Began(a.id, s.log.degraded));
    } else if a.Advance? && a.id in s.pcs && a.id in s.rpcs {
      var r, pc := s.rpcs[a.id], s.pcs[a.id];
      var o := Stage(codec, requireKey, s.log, a.id, r, pc, a.io);
      StageWrites(codec, requireKey, s.log, a.id, r, pc, a.io);
      if o.seen == [] {
        assert s.trace + o.seen == s.trace;
      } else {
        assert o.seen == [o.seen[0]];
        GlueStep(ragged, s.trace, o.seen[0]);
        if StageRequest(r, pc).Some? && o.seen[0].durable {
          DurableEndsLine(codec, s.log, StageRequest(r, pc).value, a.io);
        }
      }
    }
  }

  lemma {:induction false} RunsKeepGlue(codec: Codec, requireKey: bool, ragged: bool, s: Sys, closed: map<nat, File>,
                                        acts: seq<Action>)
    requires LinesInv(s.log, s.trace, closed) && GlueInv(ragged, s.log, s.trace) && s.log.seqNo + |acts| <= U64_MAX
    ensures var t := RunAll(codec, requireKey, s, acts);
            GlueInv(ragged, t.log, t.trace)
    decreases acts
  {
    if acts != [] {
      var t := Act(codec, requireKey, s, acts[0]);
      ActKeepsGlue(codec, requireKey, ragged, s, acts[0]);
      ActKeepsLines(codec, requireKey, s, closed, acts[0]);
      RunsKeepGlue(codec, requireKey, ragged, t, A.ClosedBy(closed, t.log), acts[1..]);
    }
  }

  lemma {:induction false} GluedAt(ragged: bool, trace: seq<Obs>, j: nat)
    requires GluedAfterFailure(ragged, trace) && j < |trace| && trace[j].Recorded? && trace[j].glued
    ensures MayGlue(ragged, trace[..j])
  {
    var init := trace[..|trace| - 1];
    if j == |init| {
      assert trace[..j] == init;
    } else {
      GluedAt(ragged, init, j);
      assert trace[..j] == init[..j];
    }
  }

  /** The latest record before `j` is at `k`, and it failed. */
  predicate FailedLast(trace: seq<Obs>, j: nat, k: nat)
    requires j <= |trace|
  {
    && k < j && trace[k].Recorded? && !trace[k].durable
    && forall i :: k < i < j ==> !trace[i].Recorded?
  }

  lemma {:induction false} FailedAt(ragged: bool, trace: seq<Obs>, j: nat)
    requires j <= |trace| && MayGlue(ragged, trace[..j])
    ensures (exists k: nat :: FailedLast(trace, j, k)) || (ragged && forall i :: 0 <= i < j ==> !trace[i].Recorded?)
  {
    if j > 0 {
      assert trace[..j][..j - 1] == trace[..j - 1];
      if trace[j - 1].Recorded? {
        assert FailedLast(trace, j, j - 1);
      } else {
        var m: nat := j - 1;
        FailedAt(ragged, trace, m);
        if k: nat :| FailedLast(trace, m, k) {
          assert FailedLast(trace, j, k);
        }
      }
    }
  }

  /**
   Under arbitrary failures: when an effect has happened, its handler's durable intent is a line of a
   file still there, or of a segment pruned since, exactly when it was not glued. It is glued only if
   the record before it failed, in mid-line, or it is the first one and the file began with its last
   line unfinished.
   */
  lemma EffectIntentIsOnDisk(codec: Codec, requireKey: bool, log: Log, acts: seq<Action>, i: nat)
    requires K.Sound(log) && log.persist.Some? && log.seqNo + |acts| <= U64_MAX
    requires i < |RunAll(codec, requireKey, Idle(log), acts).trace|
    requires RunAll(codec, requireKey, Idle(log), acts).trace[i].Effect?
    ensures var s := RunAll(codec, requireKey, Idle(log), acts);
            var closed := ArchiveAfter(codec, requireKey, Idle(log), log.persist.value.segs, acts);
            && s.log.persist.Some? && s.trace[i].who in s.rpcs
            && exists j :: 0 <= j < i && IsIntent(s.trace[j], s.trace[i].who, s.rpcs[s.trace[i].who])
                 && (K.Filed(Rec(s.trace[j].entry), closed, s.log.persist.value) <==> !s.trace[j].glued)
                 && (s.trace[j].glued ==>
                       || (exists k: nat :: FailedLast(s.trace, j, k))
                       || (Glues(log) && forall k :: 0 <= k < j ==> !s.trace[k].Recorded?))
  {
    var s := RunAll(codec, requireKey, Idle(log), acts);
    EffectNeedsDurableIntent(codec, requireKey, log, acts, i);
    RunsKeepLines(codec, requireKey, Idle(log), log.persist.value.segs, acts);
    RunsKeepPersist(codec, requireKey, Idle(log), acts);
    var j :| 0 <= j < i && IsIntent(s.trace[j], s.trace[i].who, s.rpcs[s.trace[i].who]);
    if s.trace[j].glued {
      RunsKeepGlue(codec, requireKey, Glues(log), Idle(log), log.persist.value.segs, acts);
      GluedAt(Glues(log), s.trace, j);
      FailedAt(Glues(log), s.trace, j);
      K.AbsentIsNotFiled(Rec(s.trace[j].entry),
                         ArchiveAfter(codec, requireKey, Idle(log), log.persist.value.segs, acts),
                         s.log.persist.value);
    } else {
      assert Trusted(s.trace[j]);
    }
  }

  lemma ActKeepsPersist(codec: Codec, requireKey: bool, s: Sys, a: Action)
    requires s.log.cap > 0
    ensures Act(codec, requireKey, s, a).log.persist.Some? == s.log.persist.Some?
  {
  }

  lemma {:induction false} RunsKeepPersist(codec: Codec, requireKey: bool, s: Sys, acts: seq<Action>)
    requires s.log.cap > 0
    ensures RunAll(codec, requireKey, s, acts).log.persist.Some? == s.log.persist.Some?
    decreases acts
  {
    if acts != [] {
      ActKeepsPersist(codec, requireKey, s, acts[0]);
      RunsKeepPersist(codec, requireKey, Act(codec, requireKey, s, acts[0]), acts[1..]);
    }
  }

  // ----- how many records a handler leaves

  datatype Tally = Tally(records: nat, failedIntents: nat, effects: nat)

  function TallyOf(trace: seq<Obs>, id: nat): Tally {
    if trace == [] then Tally(0, 0, 0) else Counted(TallyOf(trace[..|trace| - 1], id), Last(trace), id)
  }

  function Counted(t: Tally, o: Obs, id: nat): Tally {
    if o.who != id || o.Began? then t
    else if o.Effect? then t.(effects := t.effects + 1)
    else Tally(t.records + 1, t.failedIntents + if o.intent && !o.durable then 1 else 0, t.effects)
  }

  /** What a handler has left behind by the time it is at `pc`. */
  predicate TallyFits(pc: Pc, r: Rpc, t: Tally) {
    match pc
    case Start | Authorized | Healthy | Valid =>
      t == Tally(0, 0, 0) && (pc != Start ==> !Forbidden(r))
    case Intended => t == Tally(1, 0, 0) && !Forbidden(r)
    case Acted => t == Tally(1, 0, 1) && !Forbidden(r)
    case Finished =>
      if Forbidden(r) then t == Tally(1, 0, 0)
      else t in {Tally(2, 0, 1), Tally(1, 1, 0), Tally(0, 0, 0)}
  }

  ghost predicate TallyInv(s: Sys, id: nat) {
    && s.log.cap > 0 && (id in s.pcs <==> id in s.rpcs)
    && if id in s.pcs then TallyFits(s.pcs[id], s.rpcs[id], TallyOf(s.trace, id))
       else TallyOf(s.trace, id) == Tally(0, 0, 0)
  }

  lemma TallyStep(trace: seq<Obs>, o: Obs, id: nat)
    ensures TallyOf(trace + [o], id) == Counted(TallyOf(trace, id), o, id)
  {
    assert (trace + [o])[..|trace|] == trace;
  }

  lemma StageTally(codec: Codec, requireKey: bool, log: Log, id: nat, r: Rpc, pc: Pc, io: Io, t: Tally)
    requires log.cap > 0 && TallyFits(pc, r, t)
    ensures var o := Stage(codec, requireKey, log, id, r, pc, io);
            && o.log.cap > 0 && |o.seen| <= 1 && (o.seen != [] ==> o.seen[0].who == id)
            && TallyFits(o.pc, r, if o.seen == [] then t else Counted(t, o.seen[0], id))
  {
  }

  lemma ActKeepsTally(codec: Codec, requireKey: bool, s: Sys, a: Action, id: nat)
    requires TallyInv(s, id)
    ensures TallyInv(Act(codec, requireKey, s, a), id)
  {
    if a.Arrive? && a.id !in s.pcs {
      TallyStep(s.trace, Began(a.id, s.log.degraded), id);
    } else if a.Advance? && a.id in s.pcs && a.id in s.rpcs {
      var o := Stage(codec, requireKey, s.log, a.id, s.rpcs[a.id], s.pcs[a.id], a.io);
      StageFacts(codec, requireKey, s.log, a.id, s.rpcs[a.id], s.pcs[a.id], a.io);
      if a.id == id {
        StageTally(codec, requireKey, s.log, id, s.rpcs[id], s.pcs[id], a.io, TallyOf(s.trace, id));
      }
      if o.seen == [] {
        assert s.trace + o.seen == s.trace;
      } else {
        assert o.seen == [o.seen[0]];
        TallyStep(s.trace, o.seen[0], id);
      }
    }
  }

  lemma {:induction false} RunsKeepTally(codec: Codec, requireKey: bool, s: Sys, acts: seq<Action>, id: nat)
    requires TallyInv(s, id)
    ensures TallyInv(RunAll(codec, requireKey, s, acts), id)
    decreases acts
  {
    if acts != [] {
      ActKeepsTally(codec, requireKey, s, acts[0], id);
      RunsKeepTally(codec, requireKey, Act(codec, requireKey, s, acts[0]), acts[1..], id);
    }
  }

  /**
   Under any interleaving, a finished handler has left two records if it acted, exactly one if it was
   refused permission or its intent was not durable, and none otherwise.
   */
  lemma FinishedRecords(codec: Codec, requireKey: bool, log: Log, acts: seq<Action>, id: nat)
    requires log.cap > 0
    requires var s := RunAll(codec, requireKey, Idle(log), acts);
             id in s.pcs && s.pcs[id] == Finished
    ensures var s := RunAll(codec, requireKey, Idle(log), acts);
            var t := TallyOf(s.trace, id);
            && id in s.rpcs
            && (t.records == 2 <==> t.effects == 1)
            && (t.records == 1 <==> Forbidden(s.rpcs[id]) || t.failedIntents == 1)
            && (t.records == 0 <==> !Forbidden(s.rpcs[id]) && t.failedIntents == 0 && t.effects == 0)
            && t.records <= 2 && t.effects <= 1 && t.failedIntents <= 1
  {
    RunsKeepTally(codec, requireKey, Idle(log), acts, id);
  }

  // ----- an effect whose intent cannot be read back

  /** The write stops in mid-line. */
  const CUT := Disk(false, false, Cut, false, false, {})

  lemma RunOfOne(codec: Codec, requireKey: bool, s: Sys, a: Action)
    requires s.log.cap > 0
    ensures Act(codec, requireKey, s, a).log.cap > 0
    ensures RunAll(codec, requireKey, s, [a]) == Act(codec, requireKey, s, a)
  {
    assert [a][1..] == [];
  }

  lemma RunOfTwo(codec: Codec, requireKey: bool, s: Sys, a: Action, b: Action)
    requires s.log.cap > 0
    ensures Act(codec, requireKey, s, a).log.cap > 0
    ensures RunAll(codec, requireKey, s, [a, b]) == Act(codec, requireKey, Act(codec, requireKey, s, a), b)
  {
    assert [a, b][1..] == [b];
    RunOfOne(codec, requireKey, s, a);
    RunOfOne(codec, requireKey, Act(codec, requireKey, s, a), b);
  }

  lemma RunOfThree(codec: Codec, requireKey: bool, s: Sys, a: Action, b: Action, c: Action)
    requires s.log.cap > 0
    ensures Act(codec, requireKey, s, a).log.cap > 0
    ensures Act(codec, requireKey, Act(codec, requireKey, s, a), b).log.cap > 0
    ensures RunAll(codec, requireKey, s, [a, b, c])
            == Act(codec, requireKey, Act(codec, requireKey, Act(codec, requireKey, s, a), b), c)
  {
    assert [a, b, c][1..] == [b, c];
    RunOfTwo(codec, requireKey, Act(codec, requireKey, s, a), b, c);
  }

  lemma ThreeChecks(codec: Codec, requireKey: bool, s: Sys, id: nat, io: Io)
    requires s.log.cap > 0 && !s.log.degraded && id in s.pcs && id in s.rpcs && s.pcs[id] == Start
    requires !Forbidden(s.rpcs[id]) && ValidRequest(requireKey, s.rpcs[id])
    ensures RunAll(codec, requireKey, s, [Advance(id, io), Advance(id, io), Advance(id, io)])
            == s.(pcs := s.pcs[id := Valid])
  {
    var a := Advance(id, io);
    RunOfThree(codec, requireKey, s, a, a, a);
    assert s.trace + [] == s.trace;
    var s1 := Act(codec, requireKey, s, a);
    assert s1 == s.(pcs := s.pcs[id := Authorized]);
    var s2 := Act(codec, requireKey, s1, a);
    assert s2 == s.(pcs := s.pcs[id := Healthy]);
    assert Act(codec, requireKey, s2, a) == s.(pcs := s.pcs[id := Valid]);
  }

  /** No handlers yet, and a log opened on an empty directory. */
  function Fresh(codec: Codec, cap: nat): (s: Sys)
    ensures s.log.cap > 0
  {
    Idle(Opened(codec, map[], None, false, cap, 1, 0))
  }

  /** Both handlers have passed their checks on a healthy log. */
  ghost predicate BothValid(s: Sys, r: Rpc) {
    && s.log.cap > 0 && !s.log.degraded && s.pcs == map[1 := Valid, 2 := Valid] && s.rpcs == map[1 := r, 2 := r]
    && s.log.persist.Some? && s.log.persist.value.segs == map[] && s.log.persist.value.live == Some([])
    && s.log.persist.value.handle.None? && !s.log.persist.value.ragged && s.log.seqNo == 0
  }

  lemma {:induction false} RunAllConcat(codec: Codec, requireKey: bool, s: Sys, a: seq<Action>, b: seq<Action>)
    requires s.log.cap > 0
    ensures RunAll(codec, requireKey, s, a + b) == RunAll(codec, requireKey, RunAll(codec, requireKey, s, a), b)
    decreases a
  {
    if a == [] {
      assert a + b == b;
    } else {
      assert (a + b)[0] == a[0] && (a + b)[1..] == a[1..] + b;
      RunAllConcat(codec, requireKey, Act(codec, requireKey, s, a[0]), a[1..], b);
    }
  }

  lemma RunOfParts(codec: Codec, requireKey: bool, s: Sys, a: seq<Action>, b: seq<Action>, c: seq<Action>)
    requires s.log.cap > 0
    ensures RunAll(codec, requireKey, s, a + b + c)
            == RunAll(codec, requireKey, RunAll(codec, requireKey, RunAll(codec, requireKey, s, a), b), c)
  {
    RunAllConcat(codec, requireKey, s, a, b);
    RunAllConcat(codec, requireKey, s, a + b, c);
  }

  lemma ReachBothValid(codec: Codec, requireKey: bool, r: Rpc, cap: nat, io: Io) returns (acts: seq<Action>)
    requires !Forbidden(r) && ValidRequest(requireKey, r)
    ensures BothValid(RunAll(codec, requireKey, Fresh(codec, cap), acts), r)
  {
    var s0 := Fresh(codec, cap);
    var arrive := [Arrive(1, r), Arrive(2, r)];
    var s1 := RunAll(codec, requireKey, s0, arrive);
    RunOfTwo(codec, requireKey, s0, Arrive(1, r), Arrive(2, r));
    var one, two := [Advance(1, io), Advance(1, io), Advance(1, io)], [Advance(2, io), Advance(2, io), Advance(2, io)];
    ThreeChecks(codec, requireKey, s1, 1, io);
    var s2 := s1.(pcs := s1.pcs[1 := Valid]);
    ThreeChecks(codec, requireKey, s2, 2, io);
    RunOfParts(codec, requireKey, s0, arrive, one, two);
    acts := arrive + one + two;
  }

  /** The last thing seen is an effect of `id`, just after its durable intent, which is no line of any file. */
  ghost predicate ActedUnrecorded(s: Sys, id: nat, r: Rpc) {
    var n := |s.trace|;
    && n >= 2 && s.trace[n - 1] == Effect(id, r.kind) && IsIntent(s.trace[n - 2], id, r)
    && s.log.persist.Some? && !OnDisk(s.log.persist.value, Rec(s.trace[n - 2].entry))
  }

  /** One text fills the only file, and its newline is missing. */
  predicate LacksNewline(l: Log, line: Line) {
    && l.cap > 0 && l.persist.Some? && l.persist.value.ragged && l.persist.value.handle.None?
    && l.persist.value.segs == map[] && l.persist.value.live == Some([line])
  }

  /** Two more steps of a handler, every operation succeeding. */
  function TwoSteps(id: nat): seq<Action> {
    [Advance(id, Io.Io(0, K.WHOLE)), Advance(id, Io.Io(0, K.WHOLE))]
  }

  lemma RecordSwallowed(codec: Codec, l: Log, line: Line, req: Request)
    requires LacksNewline(l, line)
    ensures var (after, durable) := Record(codec, l, req, 0, K.WHOLE);
            && durable && after.cap > 0 && after.degraded == l.degraded && after.persist.Some?
            && !OnDisk(after.persist.value, Rec(NextEntry(codec, l, req, 0)))
  {
    K.AppendSwallowed(codec, l.persist.value, NextEntry(codec, l, req, 0), line);
  }

  /** A handler past its checks records its intent there and acts; the record completes the line before it. */
  lemma ValidSwallowed(codec: Codec, requireKey: bool, s: Sys, id: nat, line: Line, r: Rpc)
    requires LacksNewline(s.log, line) && id in s.pcs && s.pcs[id] == Valid && id in s.rpcs && s.rpcs[id] == r
    ensures var t := RunAll(codec, requireKey, s, TwoSteps(id));
            && ActedUnrecorded(t, id, r) && t.log.degraded == s.log.degraded
            && t.trace == s.trace + [Recorded(id, true, NextEntry(codec, s.log, IntentOf(r), 0), true, true),
                                     Effect(id, r.kind)]
  {
    var a := Advance(id, Io.Io(0, K.WHOLE));
    RunOfTwo(codec, requireKey, s, a, a);
    var e := NextEntry(codec, s.log, IntentOf(r), 0);
    RecordSwallowed(codec, s.log, line, IntentOf(r));
    var s1 := Act(codec, requireKey, s, a);
    assert s1.pcs[id] == Intended && s1.trace == s.trace + [Recorded(id, true, e, true, true)];
    var s2 := Act(codec, requireKey, s1, a);
    assert s2.trace == s1.trace + [Effect(id, r.kind)] && s2.log == s1.log;
  }

  function CutThenActs(): seq<Action> {
    [Advance(1, Io.Io(0, CUT))] + TwoSteps(2)
  }

  /**
   Two handlers pass their checks. The first one's intent stops in mid-line and degrades the log; the
   second one's is then reported durable and it acts, but its record is no line of any file.
   */
  lemma IntentCanBeSwallowed(codec: Codec, requireKey: bool, r: Rpc, cap: nat) returns (acts: seq<Action>)
    requires !Forbidden(r) && ValidRequest(requireKey, r)
    ensures ActedUnrecorded(RunAll(codec, requireKey, Fresh(codec, cap), acts), 2, r)
  {
    var first := ReachBothValid(codec, requireKey, r, cap, Io.Io(0, CUT));
    SwallowedFrom(codec, requireKey, RunAll(codec, requireKey, Fresh(codec, cap), first), r);
    RunAllConcat(codec, requireKey, Fresh(codec, cap), first, CutThenActs());
    acts := first + CutThenActs();
  }

  lemma CutLacksNewline(codec: Codec, l: Log, req: Request)
    requires l.cap > 0 && l.persist.Some? && l.persist.value.segs == map[] && l.persist.value.live == Some([])
    requires l.persist.value.handle.None? && !l.persist.value.ragged
    ensures LacksNewline(Record(codec, l, req, 0, CUT).0, Malformed)
  {
    var none: File := [];
    assert Extended(none, false, Malformed) == [Malformed];
  }

  lemma SwallowedFrom(codec: Codec, requireKey: bool, s: Sys, r: Rpc)
    requires BothValid(s, r)
    ensures ActedUnrecorded(RunAll(codec, requireKey, s, CutThenActs()), 2, r)
  {
    var a := Advance(1, Io.Io(0, CUT));
    var s1 := Act(codec, requireKey, s, a);
    RunOfOne(codec, requireKey, s, a);
    RunAllConcat(codec, requireKey, s, [a], TwoSteps(2));
    CutLacksNewline(codec, s.log, IntentOf(r));
    assert s1.log == Record(codec, s.log, IntentOf(r), 0, CUT).0 && s1.pcs[2] == Valid && s1.rpcs == s.rpcs;
    ValidSwallowed(codec, requireKey, s1, 2, Malformed, r);
  }

  /** The log a service has after a write that stopped before its newline, and a restart. */
  ghost function Restarted(codec: Codec, q: Request, cap: nat, maxBytes: nat, maxSegments: nat): (l: Log)
    ensures l.cap > 0
  {
    var first := Opened(codec, map[], None, false, cap, maxBytes, maxSegments);
    R.Step(codec, R.Step(codec, first, R.Write(q, 0, K.STOPPED)), R.Restart(cap, maxBytes, maxSegments))
  }

  /** One handler from arrival to its effect, every operation succeeding. */
  function ActOnce(r: Rpc): seq<Action> {
    var a := Advance(1, Io.Io(0, K.WHOLE));
    [Arrive(1, r)] + [a, a, a] + TwoSteps(1)
  }

  /** `id` has acted on a durable intent that is no line of any file, and no record of the run failed. */
  ghost predicate ActedQuietly(s: Sys, id: nat, r: Rpc) {
    && !s.log.degraded && ActedUnrecorded(s, id, r)
    && forall k :: 0 <= k < |s.trace| && s.trace[k].Recorded? ==> s.trace[k].durable
  }

  /**
   A restarted service is healthy on a file whose last line lacks its newline. Its first handler's
   intent is reported durable and it acts; nothing fails, and the intent is no line of any file.
   */
  lemma RestartSwallowsIntent(codec: Codec, requireKey: bool, r: Rpc, q: Request, cap: nat, maxBytes: nat,
                              maxSegments: nat)
    requires !Forbidden(r) && ValidRequest(requireKey, r)
    ensures var l := Restarted(codec, q, cap, maxBytes, maxSegments);
            !l.degraded && ActedQuietly(RunAll(codec, requireKey, Idle(l), ActOnce(r)), 1, r)
  {
    K.StoppedThenReopened(codec, q, cap, maxBytes, maxSegments);
    var e := NextEntry(codec, Opened(codec, map[], None, false, cap, maxBytes, maxSegments), q, 0);
    NewlineSwallows(codec, requireKey, Restarted(codec, q, cap, maxBytes, maxSegments), Rec(e), r);
  }

  lemma NewlineSwallows(codec: Codec, requireKey: bool, l: Log, line: Line, r: Rpc)
    requires LacksNewline(l, line) && !l.degraded && !Forbidden(r) && ValidRequest(requireKey, r)
    ensures ActedQuietly(RunAll(codec, requireKey, Idle(l), ActOnce(r)), 1, r)
  {
    ReachValid(codec, requireKey, l, r);
    ValidSwallowed(codec, requireKey, OneValid(l, r), 1, line, r);
  }

  /** One handler, past its checks. */
  function OneValid(l: Log, r: Rpc): Sys {
    Sys(l, map[1 := r], map[1 := Valid], [Began(1, false)])
  }

  lemma ArriveAndCheck(codec: Codec, requireKey: bool, l: Log, r: Rpc, io: Io)
    requires l.cap > 0 && !l.degraded && !Forbidden(r) && ValidRequest(requireKey, r)
    ensures var a := Advance(1, io);
            RunAll(codec, requireKey, RunAll(codec, requireKey, Idle(l), [Arrive(1, r)]), [a, a, a]) == OneValid(l, r)
  {
    var s := Act(codec, requireKey, Idle(l), Arrive(1, r));
    RunOfOne(codec, requireKey, Idle(l), Arrive(1, r));
    assert s == Sys(l, map[1 := r], map[1 := Start], [Began(1, false)]);
    ThreeChecks(codec, requireKey, s, 1, io);
    assert s.pcs[1 := Valid] == map[1 := Valid];
  }

  lemma ReachValid(codec: Codec, requireKey: bool, l: Log, r: Rpc)
    requires l.cap > 0 && !l.degraded && !Forbidden(r) && ValidRequest(requireKey, r)
    ensures RunAll(codec, requireKey, Idle(l), ActOnce(r)) == RunAll(codec, requireKey, OneValid(l, r), TwoSteps(1))
  {
    var a := Advance(1, Io.Io(0, K.WHOLE));
    RunOfParts(codec, requireKey, Idle(l), [Arrive(1, r)], [a, a, a], TwoSteps(1));
    ArriveAndCheck(codec, requireKey, l, r, a.io);
  }
}
