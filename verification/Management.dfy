/**
 The privileged management RPCs as a system of interleaved handlers over one audit log:
 authorize, refuse when the log is degraded, validate, record a durable intent, act on the
 core, record the outcome. Handlers run concurrently; each numbered stage is one atomic step.
 */
module Management {
  import opened Binary
  import opened Wrappers
  import opened Sequences
  import opened AuditChain
  import opened AuditLog
  import R = AuditRuns
  import A = AuditRetention

  datatype Kind = DeleteAllocation | UpdateConfig | AddUser | RemoveUser | SetUserLimits | SetDraining | Shutdown

  datatype CoreResult = CoreErr | CoreOk(applied: bool)

  /** A request, with the facts the handler's early checks depend on. */
  datatype Rpc = Rpc(kind: Kind, actor: Bytes, revoked: bool, permitted: bool,
                     nodeBlank: bool, keyBlank: bool, patchEmpty: bool, wellTyped: bool, reasonOk: bool,
                     detail: Bytes, denial: Bytes, outcomeDetail: Bytes, core: CoreResult)

  datatype Pc = Start | Authorized | Healthy | Valid | Intended | Acted | Finished

  /** What is seen of the handlers. A record is glued if its text continues an unfinished line of the file. */
  datatype Obs =
    | Began(who: nat, degraded: bool)
    | Recorded(who: nat, intent: bool, entry: Entry, durable: bool, glued: bool)
    | Effect(who: nat, kind: Kind)

  datatype Sys = Sys(log: Log, rpcs: map<nat, Rpc>, pcs: map<nat, Pc>, trace: seq<Obs>)

  datatype Io = Io(ts: U64, d: Disk)

  datatype Action = Arrive(id: nat, rpc: Rpc) | Advance(id: nat, io: Io)

  function Name(k: Kind): string {
    match k
    case DeleteAllocation => "delete_allocation"
    case UpdateConfig => "update_config"
    case AddUser => "add_user"
    case RemoveUser => "remove_user"
    case SetUserLimits => "set_user_limits"
    case SetDraining => "set_draining"
    case Shutdown => "shutdown"
  }

  function Ascii(s: string): (b: Bytes)
    ensures |b| == |s|
    ensures forall i :: 0 <= i < |s| ==> b[i] == (s[i] as int) % 0x100
  {
    seq(|s|, i requires 0 <= i < |s| => (s[i] as int) % 0x100)
  }

  function IntentOf(r: Rpc): Request {
    Request(r.actor, Ascii(Name(r.kind) + ".intent"), r.detail, true)
  }

  function DenialOf(r: Rpc): Request {
    Request(r.actor, Ascii(if r.revoked then "cert_revoked" else "rbac_denied"), r.denial, false)
  }

  /** Config and limit updates report whether the node applied them; the others whether the core call succeeded. */
  function OutcomeOf(r: Rpc): Request {
    var ok := r.core.CoreOk? && (r.kind in {UpdateConfig, SetUserLimits} ==> r.core.applied);
    Request(r.actor, Ascii(Name(r.kind)), r.outcomeDetail, ok)
  }

  predicate Forbidden(r: Rpc) {
    r.revoked || !r.permitted
  }

  predicate ValidRequest(requireKey: bool, r: Rpc) {
    match r.kind
    case AddUser | RemoveUser => true
    case DeleteAllocation | SetDraining | Shutdown => requireKey ==> !r.keyBlank
    case UpdateConfig => !r.nodeBlank && !r.keyBlank && !r.patchEmpty && r.reasonOk
    case SetUserLimits => !r.nodeBlank && !r.keyBlank && r.wellTyped && !r.patchEmpty && r.reasonOk
  }

  /** Recording `req` on behalf of handler `id`: the log after it and what was observed. */
  function Note(codec: Codec, log: Log, id: nat, intent: bool, req: Request, io: Io): (Log, Obs)
    requires log.cap > 0
  {
    var (log', durable) := Record(codec, log, req, io.ts, io.d);
    (log', Recorded(id, intent, NextEntry(codec, log, req, io.ts), durable, Glues(log)))
  }

  predicate Glues(log: Log) {
    log.persist.Some? && log.persist.value.ragged
  }

  datatype Outcome = Outcome(log: Log, pc: Pc, seen: seq<Obs>)

  /** One stage of handler `id`, which is at `pc` serving `r`. */
  function Stage(codec: Codec, requireKey: bool, log: Log, id: nat, r: Rpc, pc: Pc, io: Io): Outcome
    requires log.cap > 0
  {
    match pc
    case Start =>
      if Forbidden(r) then
        var (log', o) := Note(codec, log, id, false, DenialOf(r), io);
        Outcome(log', Finished, [o])
      else Outcome(log, Authorized, [])
    case Authorized => Outcome(log, if log.degraded then Finished else Healthy, [])
    case Healthy => Outcome(log, if ValidRequest(requireKey, r) then Valid else Finished, [])
    case Valid =>
      var (log', o) := Note(codec, log, id, true, IntentOf(r), io);
      Outcome(log', if o.durable then Intended else Finished, [o])
    case Intended => Outcome(log, Acted, [Effect(id, r.kind)])
    case Acted =>
      var (log', o) := Note(codec, log, id, false, OutcomeOf(r), io);
      Outcome(log', Finished, [o])
    case Finished => Outcome(log, Finished, [])
  }

  function Act(codec: Codec, requireKey: bool, s: Sys, a: Action): Sys
    requires s.log.cap > 0
  {
    match a
    case Arrive(id, rpc) =>
      if id in s.pcs then s
      else Sys(s.log, s.rpcs[id := rpc], s.pcs[id := Start], s.trace + [Began(id, s.log.degraded)])
    case Advance(id, io) =>
      if id in s.pcs && id in s.rpcs then
        var o := Stage(codec, requireKey, s.log, id, s.rpcs[id], s.pcs[id], io);
        Sys(o.log, s.rpcs, s.pcs[id := o.pc], s.trace + o.seen)
      else s
  }

  /** What a stage can do: the log keeps its capacity and never recovers, and at most one thing is seen. */
  ghost predicate StageShape(log: Log, id: nat, r: Rpc, pc: Pc, o: Outcome) {
    && o.log.cap > 0 && (log.degraded ==> o.log.degraded)
    && (o.seen == [] || (|o.seen| == 1 && o.seen[0].who == id && !o.seen[0].Began?))
    && (o.seen != [] && o.seen[0].Effect? <==> pc == Intended)
    && (pc == Intended ==> o.seen[0] == Effect(id, r.kind) && o.pc == Acted)
    && (o.pc == Intended ==> o.seen != [] && IsIntent(o.seen[0], id, r))
    && (pc in {Acted, Finished} ==> o.pc == Finished)
    && (log.degraded && pc in {Start, Authorized, Finished} ==> o.pc in {Start, Authorized, Finished})
  }

  lemma StageFacts(codec: Codec, requireKey: bool, log: Log, id: nat, r: Rpc, pc: Pc, io: Io)
    requires log.cap > 0
    ensures StageShape(log, id, r, pc, Stage(codec, requireKey, log, id, r, pc, io))
  {
  }

  function RunAll(codec: Codec, requireKey: bool, s: Sys, acts: seq<Action>): (s': Sys)
    requires s.log.cap > 0
    ensures s'.log.cap > 0
    decreases acts
  {
    if acts == [] then s else RunAll(codec, requireKey, Act(codec, requireKey, s, acts[0]), acts[1..])
  }

  // ----- what the trace says about one handler

  /** The record is the handler's own intent, and it was reported durable. */
  predicate IsIntent(o: Obs, id: nat, r: Rpc) {
    && o.Recorded? && o.who == id && o.intent && o.durable
    && o.entry.actor == r.actor && o.entry.action == Ascii(Name(r.kind) + ".intent") && o.entry.detail == r.detail
  }

  /** The name an operation has on record, and no other operation has. */
  predicate Spells(k: Kind, name: string) {
    && (name == "delete_allocation" <==> k.DeleteAllocation?) && (name == "update_config" <==> k.UpdateConfig?)
    && (name == "add_user" <==> k.AddUser?) && (name == "remove_user" <==> k.RemoveUser?)
    && (name == "set_user_limits" <==> k.SetUserLimits?) && (name == "set_draining" <==> k.SetDraining?)
    && (name == "shutdown" <==> k.Shutdown?)
  }

  lemma NamesSpell(k: Kind)
    ensures Spells(k, Name(k))
  {
  }

  /** Nothing about the request keeps it from being acted on: the caller, the key, and what is to be changed. */
  predicate Acceptable(requireKey: bool, r: Rpc) {
    && r.permitted && !r.revoked
    && (requireKey && r.kind in {DeleteAllocation, SetDraining, Shutdown} ==> !r.keyBlank)
    && (r.kind in {UpdateConfig, SetUserLimits} ==> !r.nodeBlank && !r.keyBlank && !r.patchEmpty && r.reasonOk)
    && (r.kind == SetUserLimits ==> r.wellTyped)
  }

  lemma AcceptableIff(requireKey: bool, r: Rpc)
    ensures Acceptable(requireKey, r) <==> !Forbidden(r) && ValidRequest(requireKey, r)
  {
  }

  /** What the record of an intent says: who, what, on what, and that nothing has failed yet. */
  ghost predicate ShowsIntent(o: Obs, id: nat, r: Rpc) {
    && o.Recorded? && o.who == id && o.intent
    && o.entry.actor == r.actor && o.entry.detail == r.detail && o.entry.outcome
    && exists name :: Spells(r.kind, name) && o.entry.action == Ascii(name + ".intent")
  }

  /** The record of a refusal names the caller and says whether a revoked certificate or the role was at fault. */
  predicate ShowsDenial(o: Obs, id: nat, r: Rpc) {
    && o.Recorded? && o.who == id && !o.intent
    && o.entry.actor == r.actor && o.entry.detail == r.denial && !o.entry.outcome
    && o.entry.action == (if r.revoked then Ascii("cert_revoked") else Ascii("rbac_denied"))
  }

  /** The record of an outcome says success exactly when the core call succeeded and, for settings, applied. */
  ghost predicate ShowsOutcome(o: Obs, id: nat, r: Rpc) {
    && o.Recorded? && o.who == id && !o.intent
    && o.entry.actor == r.actor && o.entry.detail == r.outcomeDetail
    && (o.entry.outcome <==> r.core.CoreOk? && (r.kind in {UpdateConfig, SetUserLimits} ==> r.core.applied))
    && exists name :: Spells(r.kind, name) && o.entry.action == Ascii(name)
  }

  lemma NotesShow(codec: Codec, log: Log, id: nat, r: Rpc, io: Io)
    requires log.cap > 0
    ensures ShowsIntent(Note(codec, log, id, true, IntentOf(r), io).1, id, r)
    ensures Forbidden(r) ==> ShowsDenial(Note(codec, log, id, false, DenialOf(r), io).1, id, r)
    ensures ShowsOutcome(Note(codec, log, id, false, OutcomeOf(r), io).1, id, r)
  {
    NamesSpell(r.kind);
  }

  predicate HasIntent(trace: seq<Obs>, id: nat, r: Rpc) {
    trace != [] && (IsIntent(Last(trace), id, r) || HasIntent(trace[..|trace| - 1], id, r))
  }

  /** Every effect of `id` comes after its intent and is of the requested kind. */
  predicate Guarded(trace: seq<Obs>, id: nat, r: Rpc) {
    trace == [] ||
    var before := trace[..|trace| - 1];
    && Guarded(before, id, r)
    && (Last(trace).Effect? && Last(trace).who == id ==> HasIntent(before, id, r) && Last(trace).kind == r.kind)
  }

  function Effects(trace: seq<Obs>, id: nat): nat {
    if trace == [] then 0
    else Effects(trace[..|trace| - 1], id) + if Last(trace).Effect? && Last(trace).who == id then 1 else 0
  }

  predicate BeganDegraded(trace: seq<Obs>, id: nat) {
    trace != [] && (Last(trace) == Began(id, true) || BeganDegraded(trace[..|trace| - 1], id))
  }

  lemma TraceStep(trace: seq<Obs>, o: Obs, id: nat, r: Rpc)
    ensures HasIntent(trace + [o], id, r) <==> IsIntent(o, id, r) || HasIntent(trace, id, r)
    ensures Guarded(trace + [o], id, r) <==>
            Guarded(trace, id, r) && (o.Effect? && o.who == id ==> HasIntent(trace, id, r) && o.kind == r.kind)
    ensures Effects(trace + [o], id) == Effects(trace, id) + if o.Effect? && o.who == id then 1 else 0
    ensures BeganDegraded(trace + [o], id) <==> o == Began(id, true) || BeganDegraded(trace, id)
  {
    assert (trace + [o])[..|trace|] == trace;
  }

  // ----- the invariant of every interleaving, handler by handler

  ghost predicate LocalInv(s: Sys, id: nat) {
    && s.log.cap > 0
    && (id in s.pcs <==> id in s.rpcs)
    && (id !in s.pcs ==> Effects(s.trace, id) == 0 && !BeganDegraded(s.trace, id)
                         && forall r :: Guarded(s.trace, id, r))
    && (id in s.pcs ==>
          && Guarded(s.trace, id, s.rpcs[id])
          && Effects(s.trace, id) <= (if s.pcs[id] in {Acted, Finished} then 1 else 0)
          && (s.pcs[id] == Intended ==> HasIntent(s.trace, id, s.rpcs[id]))
          && (BeganDegraded(s.trace, id) ==>
                s.log.degraded && s.pcs[id] in {Start, Authorized, Finished} && Effects(s.trace, id) == 0))
  }

  /** Steps of other handlers: whatever they see is not about `id`. */
  lemma OthersKeepLocal(s: Sys, t: Sys, seen: seq<Obs>, id: nat)
    requires LocalInv(s, id)
    requires t.log.cap > 0 && (s.log.degraded ==> t.log.degraded)
    requires t.trace == s.trace + seen && |seen| <= 1 && (seen != [] ==> seen[0].who != id)
    requires (id in t.pcs <==> id in s.pcs) && (id in t.rpcs <==> id in s.rpcs)
    requires id in s.pcs ==> t.pcs[id] == s.pcs[id] && t.rpcs[id] == s.rpcs[id]
    ensures LocalInv(t, id)
  {
    if seen == [] {
      assert t.trace == s.trace;
    } else {
      assert seen == [seen[0]];
      forall r {
        TraceStep(s.trace, seen[0], id, r);
      }
    }
  }

  lemma ArrivalKeepsLocal(s: Sys, id: nat, rpc: Rpc)
    requires LocalInv(s, id) && id !in s.pcs
    ensures LocalInv(Sys(s.log, s.rpcs[id := rpc], s.pcs[id := Start], s.trace + [Began(id, s.log.degraded)]), id)
  {
    TraceStep(s.trace, Began(id, s.log.degraded), id, rpc);
  }

  lemma OwnStepKeepsLocal(s: Sys, o: Outcome, id: nat)
    requires LocalInv(s, id) && id in s.pcs && StageShape(s.log, id, s.rpcs[id], s.pcs[id], o)
    ensures LocalInv(Sys(o.log, s.rpcs, s.pcs[id := o.pc], s.trace + o.seen), id)
  {
    if o.seen == [] {
      assert s.trace + o.seen == s.trace;
    } else {
      assert o.seen == [o.seen[0]];
      TraceStep(s.trace, o.seen[0], id, s.rpcs[id]);
    }
  }

  lemma ActKeepsLocal(codec: Codec, requireKey: bool, s: Sys, a: Action, id: nat)
    requires LocalInv(s, id)
    ensures LocalInv(Act(codec, requireKey, s, a), id)
  {
    var t := Act(codec, requireKey, s, a);
    match a {
      case Arrive(k, rpc) =>
        if k !in s.pcs {
          if k == id {
            ArrivalKeepsLocal(s, id, rpc);
          } else {
            OthersKeepLocal(s, t, [Began(k, s.log.degraded)], id);
          }
        }
      case Advance(k, io) =>
        if k in s.pcs && k in s.rpcs {
          var o := Stage(codec, requireKey, s.log, k, s.rpcs[k], s.pcs[k], io);
          StageFacts(codec, requireKey, s.log, k, s.rpcs[k], s.pcs[k], io);
          if k == id {
            OwnStepKeepsLocal(s, o, id);
          } else {
            OthersKeepLocal(s, t, o.seen, id);
          }
        }
    }
  }

  lemma {:induction false} RunsKeepLocal(codec: Codec, requireKey: bool, s: Sys, acts: seq<Action>, id: nat)
    requires LocalInv(s, id)
    ensures LocalInv(RunAll(codec, requireKey, s, acts), id)
    decreases acts
  {
    if acts != [] {
      ActKeepsLocal(codec, requireKey, s, acts[0], id);
      RunsKeepLocal(codec, requireKey, Act(codec, requireKey, s, acts[0]), acts[1..], id);
    }
  }

  // ----- reading the invariant back

  lemma {:induction false} IntentAt(trace: seq<Obs>, id: nat, r: Rpc)
    requires HasIntent(trace, id, r)
    ensures exists j :: 0 <= j < |trace| && IsIntent(trace[j], id, r)
  {
    if !IsIntent(Last(trace), id, r) {
      var before := trace[..|trace| - 1];
      IntentAt(before, id, r);
      var j :| 0 <= j < |before| && IsIntent(before[j], id, r);
      assert IsIntent(trace[j], id, r);
    }
  }

  lemma {:induction false} GuardedAt(trace: seq<Obs>, id: nat, r: Rpc, i: nat)
    requires Guarded(trace, id, r) && i < |trace| && trace[i].Effect? && trace[i].who == id
    ensures trace[i].kind == r.kind && exists j :: 0 <= j < i && IsIntent(trace[j], id, r)
  {
    var before := trace[..|trace| - 1];
    if i == |trace| - 1 {
      IntentAt(before, id, r);
      var j :| 0 <= j < |before| && IsIntent(before[j], id, r);
      assert IsIntent(trace[j], id, r);
    } else {
      GuardedAt(before, id, r, i);
      var j :| 0 <= j < i && IsIntent(before[j], id, r);
      assert IsIntent(trace[j], id, r);
    }
  }

  lemma {:induction false} EffectsCount(trace: seq<Obs>, id: nat, i: nat, k: nat)
    requires i < k < |trace|
    requires trace[i].Effect? && trace[i].who == id && trace[k].Effect? && trace[k].who == id
    ensures Effects(trace, id) >= 2
  {
    var before := trace[..|trace| - 1];
    if k == |trace| - 1 {
      EffectCounts(before, id, i);
    } else {
      EffectsCount(before, id, i, k);
    }
  }

  lemma {:induction false} EffectCounts(trace: seq<Obs>, id: nat, i: nat)
    requires i < |trace| && trace[i].Effect? && trace[i].who == id
    ensures Effects(trace, id) >= 1
  {
    if i < |trace| - 1 {
      EffectCounts(trace[..|trace| - 1], id, i);
    }
  }

  lemma {:induction false} BeganDegradedAt(trace: seq<Obs>, id: nat, i: nat)
    requires i < |trace| && trace[i] == Began(id, true)
    ensures BeganDegraded(trace, id)
  {
    if i < |trace| - 1 {
      BeganDegradedAt(trace[..|trace| - 1], id, i);
    }
  }

  function Idle(log: Log): Sys {
    Sys(log, map[], map[], [])
  }

  /**
   In every interleaving, with arbitrary persistence failures: every effect is preceded by its
   own handler's durable intent record, and no handler acts twice.
   */
  lemma EffectNeedsDurableIntent(codec: Codec, requireKey: bool, log: Log, acts: seq<Action>, i: nat)
    requires log.cap > 0
    requires i < |RunAll(codec, requireKey, Idle(log), acts).trace|
    requires RunAll(codec, requireKey, Idle(log), acts).trace[i].Effect?
    ensures var s := RunAll(codec, requireKey, Idle(log), acts);
            var id := s.trace[i].who;
            && id in s.rpcs && s.trace[i].kind == s.rpcs[id].kind
            && (exists j :: 0 <= j < i && IsIntent(s.trace[j], id, s.rpcs[id]))
            && (forall k :: 0 <= k < |s.trace| && k != i && s.trace[k].Effect? ==> s.trace[k].who != id)
  {
    var s := RunAll(codec, requireKey, Idle(log), acts);
    var id := s.trace[i].who;
    RunsKeepLocal(codec, requireKey, Idle(log), acts, id);
    EffectCounts(s.trace, id, i);
    GuardedAt(s.trace, id, s.rpcs[id], i);
    forall k | 0 <= k < |s.trace| && k != i && s.trace[k].Effect?
      ensures s.trace[k].who != id
    {
      if s.trace[k].who == id {
        EffectsCount(s.trace, id, Min(i, k), Max(i, k));
      }
    }
  }

  /** A handler that began while the log was degraded has no effect, ever. */
  lemma DegradedMeansNoEffect(codec: Codec, requireKey: bool, log: Log, acts: seq<Action>, i: nat, k: nat)
    requires log.cap > 0
    requires i < |RunAll(codec, requireKey, Idle(log), acts).trace|
    requires k < |RunAll(codec, requireKey, Idle(log), acts).trace|
    requires RunAll(codec, requireKey, Idle(log), acts).trace[i].Began?
    requires RunAll(codec, requireKey, Idle(log), acts).trace[i].degraded
    requires RunAll(codec, requireKey, Idle(log), acts).trace[k].Effect?
    ensures RunAll(codec, requireKey, Idle(log), acts).trace[k].who
            != RunAll(codec, requireKey, Idle(log), acts).trace[i].who
  {
    var s := RunAll(codec, requireKey, Idle(log), acts);
    var id := s.trace[i].who;
    RunsKeepLocal(codec, requireKey, Idle(log), acts, id);
    BeganDegradedAt(s.trace, id, i);
    if s.trace[k].who == id {
      EffectCounts(s.trace, id, k);
    }
  }

  // ----- the audit log under the handlers

  /** What a stage writes to the log, if anything. */
  function StageRequest(r: Rpc, pc: Pc): Option<Request> {
    match pc
    case Start => if Forbidden(r) then Some(DenialOf(r)) else None
    case Valid => Some(IntentOf(r))
    case Acted => Some(OutcomeOf(r))
    case _ => None
  }

  function WritesOf(s: Sys, a: Action): seq<R.Event> {
    if a.Advance? && a.id in s.pcs && a.id in s.rpcs && StageRequest(s.rpcs[a.id], s.pcs[a.id]).Some? then
      [R.Write(StageRequest(s.rpcs[a.id], s.pcs[a.id]).value, a.io.ts, a.io.d)]
    else []
  }

  function Writes(codec: Codec, requireKey: bool, s: Sys, acts: seq<Action>): seq<R.Event>
    requires s.log.cap > 0
    decreases acts
  {
    if acts == [] then []
    else WritesOf(s, acts[0]) + Writes(codec, requireKey, Act(codec, requireKey, s, acts[0]), acts[1..])
  }

  function Noted(trace: seq<Obs>): seq<Entry> {
    if trace == [] then []
    else Noted(trace[..|trace| - 1]) + if Last(trace).Recorded? then [Last(trace).entry] else []
  }

  lemma NotedStep(trace: seq<Obs>, o: Obs)
    ensures Noted(trace + [o]) == Noted(trace) + if o.Recorded? then [o.entry] else []
  {
    assert (trace + [o])[..|trace|] == trace;
  }

  lemma {:induction false} NotedAt(trace: seq<Obs>, i: nat)
    requires i < |trace| && trace[i].Recorded?
    ensures trace[i].entry in Noted(trace)
  {
    if i < |trace| - 1 {
      NotedAt(trace[..|trace| - 1], i);
    }
  }

  lemma StageWrites(codec: Codec, requireKey: bool, log: Log, id: nat, r: Rpc, pc: Pc, io: Io)
    requires log.cap > 0
    ensures var o := Stage(codec, requireKey, log, id, r, pc, io);
            match StageRequest(r, pc)
            case None => o.log == log && (o.seen == [] || (|o.seen| == 1 && !o.seen[0].Recorded?))
            case Some(req) =>
              && o.log == Record(codec, log, req, io.ts, io.d).0
              && |o.seen| == 1 && o.seen[0].Recorded? && o.seen[0].entry == NextEntry(codec, log, req, io.ts)
              && o.seen[0].durable == Record(codec, log, req, io.ts, io.d).1 && o.seen[0].glued == Glues(log)
  {
  }

  lemma ActWrites(codec: Codec, requireKey: bool, s: Sys, a: Action, h: seq<Entry>)
    requires s.log.cap > 0
    ensures R.Run(codec, s.log, WritesOf(s, a)) == Act(codec, requireKey, s, a).log
    ensures R.RunHistory(codec, s.log, h + Noted(s.trace), WritesOf(s, a))
            == h + Noted(Act(codec, requireKey, s, a).trace)
  {
    if a.Arrive? {
      NotedStep(s.trace, Began(a.id, s.log.degraded));
    } else if a.id in s.pcs && a.id in s.rpcs {
      var r, pc := s.rpcs[a.id], s.pcs[a.id];
      StageWrites(codec, requireKey, s.log, a.id, r, pc, a.io);
      var o := Stage(codec, requireKey, s.log, a.id, r, pc, a.io);
      if o.seen == [] {
        assert s.trace + o.seen == s.trace;
      } else {
        assert o.seen == [o.seen[0]];
        NotedStep(s.trace, o.seen[0]);
        if o.seen[0].Recorded? {
          OneWrite(codec, s.log, h + Noted(s.trace), StageRequest(r, pc).value, a.io);
          ConcatAssoc(h, Noted(s.trace), [o.seen[0].entry]);
        }
      }
    }
  }

  lemma OneWrite(codec: Codec, log: Log, hist: seq<Entry>, req: Request, io: Io)
    requires log.cap > 0
    ensures R.Run(codec, log, [R.Write(req, io.ts, io.d)]) == Record(codec, log, req, io.ts, io.d).0
    ensures R.RunHistory(codec, log, hist, [R.Write(req, io.ts, io.d)]) == hist + [NextEntry(codec, log, req, io.ts)]
  {
    var evs := [R.Write(req, io.ts, io.d)];
    assert evs[1..] == [];
  }

  lemma {:induction false} RunConcat(codec: Codec, log: Log, hist: seq<Entry>, a: seq<R.Event>, b: seq<R.Event>)
    requires log.cap > 0
    ensures R.Run(codec, log, a + b) == R.Run(codec, R.Run(codec, log, a), b)
    ensures R.RunHistory(codec, log, hist, a + b) ==
            R.RunHistory(codec, R.Run(codec, log, a), R.RunHistory(codec, log, hist, a), b)
    decreases a
  {
    if a == [] {
      assert a + b == b;
    } else {
      assert (a + b)[0] == a[0] && (a + b)[1..] == a[1..] + b;
      RunConcat(codec, R.Step(codec, log, a[0]), R.Recorded(codec, log, hist, a[0]), a[1..], b);
    }
  }

  /** Under any interleaving the log goes through an ordinary run of writes, and the trace names its entries. */
  lemma {:induction false} HandlersDriveTheLog(codec: Codec, requireKey: bool, s: Sys, acts: seq<Action>, h: seq<Entry>)
    requires s.log.cap > 0
    ensures RunAll(codec, requireKey, s, acts).log == R.Run(codec, s.log, Writes(codec, requireKey, s, acts))
    ensures R.RunHistory(codec, s.log, h + Noted(s.trace), Writes(codec, requireKey, s, acts)) ==
            h + Noted(RunAll(codec, requireKey, s, acts).trace)
    decreases acts
  {
    if acts != [] {
      var t := Act(codec, requireKey, s, acts[0]);
      ActWrites(codec, requireKey, s, acts[0], h);
      HandlersDriveTheLog(codec, requireKey, t, acts[1..], h);
      RunConcat(codec, s.log, h + Noted(s.trace), WritesOf(s, acts[0]), Writes(codec, requireKey, t, acts[1..]));
    }
  }

  /**
   While the log calls itself healthy, the durable intent behind every effect is an entry of the
   history, and every segment ever closed plus the live file is the newest part of that history.
   */
  lemma EffectsAreOnRecord(codec: Codec, requireKey: bool, log: Log, hist: seq<Entry>, acts: seq<Action>, i: nat)
    requires R.Healthy(codec, log, hist) && R.UndegradedRun(codec, log, Writes(codec, requireKey, Idle(log), acts))
    requires |hist| + |acts| <= U64_MAX
    requires i < |RunAll(codec, requireKey, Idle(log), acts).trace|
    requires RunAll(codec, requireKey, Idle(log), acts).trace[i].Effect?
    ensures var s := RunAll(codec, requireKey, Idle(log), acts);
            var all := hist + Noted(s.trace);
            var closed := A.RunClosed(codec, log, log.persist.value.segs, Writes(codec, requireKey, Idle(log), acts));
            && A.Archived(codec, s.log, all, closed)
            && s.trace[i].who in s.rpcs
            && exists j :: 0 <= j < i && IsIntent(s.trace[j], s.trace[i].who, s.rpcs[s.trace[i].who])
                           && s.trace[j].entry in all
  {
    var s := RunAll(codec, requireKey, Idle(log), acts);
    EffectNeedsDurableIntent(codec, requireKey, log, acts, i);
    HandlersDriveTheLog(codec, requireKey, Idle(log), acts, hist);
    assert hist + Noted([]) == hist;
    WritesAreFew(codec, requireKey, Idle(log), acts);
    A.HealthyRuns(codec, log, hist, Writes(codec, requireKey, Idle(log), acts));
    var j :| 0 <= j < i && IsIntent(s.trace[j], s.trace[i].who, s.rpcs[s.trace[i].who]);
    NotedAt(s.trace, j);
  }

  lemma {:induction false} WritesAreFew(codec: Codec, requireKey: bool, s: Sys, acts: seq<Action>)
    requires s.log.cap > 0
    ensures |Writes(codec, requireKey, s, acts)| <= |acts|
    decreases acts
  {
    if acts != [] {
      WritesAreFew(codec, requireKey, Act(codec, requireKey, s, acts[0]), acts[1..]);
    }
  }

  // ----- one request, start to finish

  datatype Status = Denied | Degraded | Invalid | NotDurable | Failed | Done

  class Service {
    const requireKey: bool
    const audit: Recorder
    var trace: seq<Obs>

    constructor (audit: Recorder, requireKey: bool)
      ensures this.audit == audit && this.requireKey == requireKey && trace == []
    {
      this.audit, this.requireKey, trace := audit, requireKey, [];
    }

    /** Writes one audit record and remembers it in the trace. */
    method Audit(id: nat, intent: bool, req: Request, io: Io) returns (o: Obs)
      requires audit.cap > 0
      modifies this`trace, audit
      ensures (audit.View(), o) == Note(audit.codec, old(audit.View()), id, intent, req, io)
      ensures trace == old(trace) + [o]
    {
      var e := NextEntry(audit.codec, audit.View(), req, io.ts);
      var glued := audit.persist.Some? && audit.persist.value.ragged;
      var durable := audit.RecordChecked(req, io.ts, io.d);
      o := Recorded(id, intent, e, durable, glued);
      trace := trace + [o];
    }

    /** Who may not is refused, and that is recorded. */
    method Authorize(id: nat, r: Rpc, io: Io) returns (ok: bool)
      requires audit.cap > 0
      modifies this`trace, audit
      ensures ok <==> r.permitted && !r.revoked
      ensures ok ==> trace == old(trace) && audit.View() == old(audit.View())
      ensures !ok ==> |trace| == |old(trace)| + 1 && old(trace) <= trace && ShowsDenial(trace[|old(trace)|], id, r)
    {
      if Forbidden(r) {
        NotesShow(audit.codec, audit.View(), id, r, io);
        var _ := Audit(id, false, DenialOf(r), io);
        return false;
      }
      return true;
    }

    method RecordIntent(id: nat, r: Rpc, io: Io) returns (o: Obs)
      requires audit.cap > 0
      modifies this`trace, audit
      ensures trace == old(trace) + [o] && ShowsIntent(o, id, r)
      ensures audit.lastHash == o.entry.hash && (!o.durable ==> audit.degraded)
    {
      NotesShow(audit.codec, audit.View(), id, r, io);
      o := Audit(id, true, IntentOf(r), io);
    }

    method RecordOutcome(id: nat, r: Rpc, io: Io) returns (o: Obs)
      requires audit.cap > 0
      modifies this`trace, audit
      ensures trace == old(trace) + [o] && ShowsOutcome(o, id, r) && o.entry.prev == old(audit.lastHash)
    {
      NotesShow(audit.codec, audit.View(), id, r, io);
      o := Audit(id, false, OutcomeOf(r), io);
    }

    /** Intent, effect, outcome; and no effect if the intent is not durable. */
    method Perform(id: nat, r: Rpc, intent: Io, outcome: Io) returns (status: Status)
      requires audit.cap > 0
      modifies this`trace, audit
      ensures status in {NotDurable, Failed, Done}
      ensures old(trace) <= trace && |trace| == |old(trace)| + if status == NotDurable then 1 else 3
      ensures ShowsIntent(trace[|old(trace)|], id, r)
      ensures trace[|old(trace)|].durable <==> status != NotDurable
      ensures status == NotDurable ==> audit.degraded
      ensures status in {Failed, Done} ==>
                && trace[|old(trace)| + 1] == Effect(id, r.kind)
                && ShowsOutcome(trace[|old(trace)| + 2], id, r)
                && trace[|old(trace)| + 2].entry.prev == trace[|old(trace)|].entry.hash
      ensures status == Done ==> r.core.CoreOk?
      ensures status == Failed ==> !r.core.CoreOk?
    {
      var o := RecordIntent(id, r, intent);
      if !o.durable {
        return NotDurable;
      }
      trace := trace + [Effect(id, r.kind)];
      var _ := RecordOutcome(id, r, outcome);
      return if r.core.CoreOk? then Done else Failed;
    }

    /** A privileged handler: it acts only between a healthy check plus durable intent and its outcome record. */
    method Handle(id: nat, r: Rpc, deny: Io, intent: Io, outcome: Io) returns (status: Status)
      requires audit.cap > 0
      modifies this`trace, audit
      ensures old(trace) <= trace
      ensures status in {Failed, Done} ==>
                && !old(audit.degraded) && Acceptable(requireKey, r)
                && |trace| == |old(trace)| + 3
                && ShowsIntent(trace[|old(trace)|], id, r) && trace[|old(trace)|].durable
                && trace[|old(trace)| + 1] == Effect(id, r.kind)
                && ShowsOutcome(trace[|old(trace)| + 2], id, r)
                && trace[|old(trace)| + 2].entry.prev == trace[|old(trace)|].entry.hash
      ensures status == Denied <==> r.revoked || !r.permitted
      ensures status == Degraded <==> r.permitted && !r.revoked && old(audit.degraded)
      ensures status == Invalid <==>
                r.permitted && !r.revoked && !old(audit.degraded) && !Acceptable(requireKey, r)
      ensures status in {Degraded, Invalid} ==> trace == old(trace) && audit.View() == old(audit.View())
      ensures status in {Denied, NotDurable} ==> |trace| == |old(trace)| + 1
      ensures status == Denied ==> ShowsDenial(trace[|old(trace)|], id, r)
      ensures status == NotDurable ==>
                ShowsIntent(trace[|old(trace)|], id, r) && !trace[|old(trace)|].durable && audit.degraded
      ensures status == Done ==> r.core.CoreOk?
      ensures status == Failed ==> !r.core.CoreOk?
    {
      AcceptableIff(requireKey, r);
      var ok := Authorize(id, r, deny);
      if !ok {
        return Denied;
      }
      if !audit.IsHealthy() {
        return Degraded;
      }
      if !ValidRequest(requireKey, r) {
        return Invalid;
      }
      status := Perform(id, r, intent, outcome);
    }
  }
}
