/** The whole story of one handler, whatever the other handlers do meanwhile. */
module ManagementStory {
  import opened Binary
  import opened Wrappers
  import opened Sequences
  import opened AuditChain
  import opened AuditLog
  import opened Management

  /** What is seen of handler `id` after its arrival, in order. */
  function Own(trace: seq<Obs>, id: nat): seq<Obs> {
    if trace == [] then [] else
      Own(trace[..|trace| - 1], id) + if Last(trace).who == id && !Last(trace).Began? then [Last(trace)] else []
  }

  /**
   A handler that was refused permission leaves the one record of that. Otherwise it leaves a record of
   its intent first; only if that is durable it acts, once and as requested, and then records how that
   went. Nothing at all is seen of it if the request was unacceptable or the log degraded.
   */
  ghost predicate Story(requireKey: bool, id: nat, r: Rpc, pc: Pc, degraded: bool, own: seq<Obs>) {
    match pc
    case Start => own == []
    case Authorized => own == [] && r.permitted && !r.revoked
    case Healthy => own == [] && r.permitted && !r.revoked
    case Valid => own == [] && Acceptable(requireKey, r)
    case Intended => Acceptable(requireKey, r) && |own| == 1 && ShowsIntent(own[0], id, r) && own[0].durable
    case Acted =>
      && Acceptable(requireKey, r) && |own| == 2
      && ShowsIntent(own[0], id, r) && own[0].durable && own[1] == Effect(id, r.kind)
    case Finished =>
      if r.revoked || !r.permitted then |own| == 1 && ShowsDenial(own[0], id, r)
      else if own == [] then !Acceptable(requireKey, r) || degraded
      else
        && Acceptable(requireKey, r) && ShowsIntent(own[0], id, r)
        && (if own[0].durable then |own| == 3 && own[1] == Effect(id, r.kind) && ShowsOutcome(own[2], id, r)
            else |own| == 1 && degraded)
  }

  ghost predicate StoryInv(requireKey: bool, s: Sys, id: nat) {
    && s.log.cap > 0 && (id in s.pcs <==> id in s.rpcs)
    && if id in s.pcs then Story(requireKey, id, s.rpcs[id], s.pcs[id], s.log.degraded, Own(s.trace, id))
       else Own(s.trace, id) == []
  }

  lemma OwnStep(trace: seq<Obs>, o: Obs, id: nat)
    ensures Own(trace + [o], id) == Own(trace, id) + if o.who == id && !o.Began? then [o] else []
  {
    assert (trace + [o])[..|trace|] == trace;
  }

  lemma NothingSeen(trace: seq<Obs>, seen: seq<Obs>)
    requires seen == []
    ensures trace + seen == trace
  {
  }

  /** One stage carries the story on. */
  lemma StageTells(codec: Codec, requireKey: bool, log: Log, id: nat, r: Rpc, pc: Pc, io: Io, own: seq<Obs>)
    requires log.cap > 0 && Story(requireKey, id, r, pc, log.degraded, own)
    ensures var o := Stage(codec, requireKey, log, id, r, pc, io);
            Story(requireKey, id, r, o.pc, o.log.degraded, own + o.seen)
  {
    AcceptableIff(requireKey, r);
    NotesShow(codec, log, id, r, io);
    StageFacts(codec, requireKey, log, id, r, pc, io);
    var o := Stage(codec, requireKey, log, id, r, pc, io);
    if o.seen == [] {
      NothingSeen(own, o.seen);
    }
  }

  /** The story of a handler that has not moved only depends on whether the log is degraded by now. */
  lemma StoryKeeps(requireKey: bool, id: nat, r: Rpc, pc: Pc, before: bool, after: bool, own: seq<Obs>)
    requires Story(requireKey, id, r, pc, before, own) && (before ==> after)
    ensures Story(requireKey, id, r, pc, after, own)
  {
  }

  lemma ActTells(codec: Codec, requireKey: bool, s: Sys, a: Action, id: nat)
    requires StoryInv(requireKey, s, id)
    ensures StoryInv(requireKey, Act(codec, requireKey, s, a), id)
  {
    match a {
      case Arrive(k, rpc) =>
        if k !in s.pcs {
          OwnStep(s.trace, Began(k, s.log.degraded), id);
        }
      case Advance(k, io) =>
        if k in s.pcs && k in s.rpcs {
          AdvanceTells(codec, requireKey, s, k, io, id);
        }
    }
  }

  lemma AdvanceTells(codec: Codec, requireKey: bool, s: Sys, k: nat, io: Io, id: nat)
    requires StoryInv(requireKey, s, id) && k in s.pcs && k in s.rpcs
    ensures StoryInv(requireKey, Act(codec, requireKey, s, Advance(k, io)), id)
  {
    var o := Stage(codec, requireKey, s.log, k, s.rpcs[k], s.pcs[k], io);
    StageFacts(codec, requireKey, s.log, k, s.rpcs[k], s.pcs[k], io);
    SeenOfOne(s.trace, o.seen, k, id);
    if k == id {
      StageTells(codec, requireKey, s.log, k, s.rpcs[k], s.pcs[k], io, Own(s.trace, id));
    } else if id in s.pcs {
      StoryKeeps(requireKey, id, s.rpcs[id], s.pcs[id], s.log.degraded, o.log.degraded, Own(s.trace, id));
    }
  }

  lemma SeenOfOne(trace: seq<Obs>, seen: seq<Obs>, k: nat, id: nat)
    requires seen == [] || (|seen| == 1 && seen[0].who == k && !seen[0].Began?)
    ensures Own(trace + seen, id) == Own(trace, id) + if k == id then seen else []
  {
    if seen == [] {
      assert trace + seen == trace;
    } else {
      assert seen == [seen[0]];
      OwnStep(trace, seen[0], id);
    }
  }

  /** Under every interleaving and any failures, what is seen of each handler is such a story. */
  lemma {:induction false} HandlersTellTheirStory(codec: Codec, requireKey: bool, s: Sys, acts: seq<Action>, id: nat)
    requires StoryInv(requireKey, s, id)
    ensures StoryInv(requireKey, RunAll(codec, requireKey, s, acts), id)
    decreases acts
  {
    if acts != [] {
      ActTells(codec, requireKey, s, acts[0], id);
      HandlersTellTheirStory(codec, requireKey, Act(codec, requireKey, s, acts[0]), acts[1..], id);
    }
  }

  /** From no handlers at all: a finished handler acted exactly once if its intent is on record as durable. */
  lemma FinishedStory(codec: Codec, requireKey: bool, log: Log, acts: seq<Action>, id: nat)
    requires log.cap > 0
    requires var s := RunAll(codec, requireKey, Idle(log), acts);
             id in s.pcs && s.pcs[id] == Finished
    ensures var s := RunAll(codec, requireKey, Idle(log), acts);
            id in s.rpcs && Story(requireKey, id, s.rpcs[id], Finished, s.log.degraded, Own(s.trace, id))
  {
    HandlersTellTheirStory(codec, requireKey, Idle(log), acts, id);
  }
}
