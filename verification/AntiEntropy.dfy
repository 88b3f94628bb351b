/** Merging the peer entries of a gossip frame: order, repetition, and a silent node that never goes away. */
module AntiEntropy {
  import opened Wrappers
  import opened Binary
  import opened Sequences
  import opened Nodes
  import opened Gossip
  import R = GossipRuns

  /** The view after merging the entries one after the other, each at its own clock reading. */
  function Merged(cfg: Config, v: View, es: seq<Entry>, now: nat, ticks: seq<nat>): View {
    ApplyAll(cfg, v, EntryOps(es, now, ticks)).view
  }

  /** Each entry of a frame is merged in its turn, as hearsay, at the clock reading taken for it. */
  lemma {:induction false} EntryOpsAt(es: seq<Entry>, now: nat, ticks: seq<nat>, i: nat)
    requires i < |es|
    ensures |EntryOps(es, now, ticks)| == |es|
    ensures EntryOps(es, now, ticks)[i] == At(if i < |ticks| then ticks[i] else now, Observe(es[i], false))
  {
    if |es| > 1 {
      EntryOpsAt(es[..|es| - 1], now, ticks, if i < |es| - 1 then i else 0);
    }
  }

  /** The first of the entries for `id` with the highest sequence number. */
  function Winner(es: seq<Entry>, id: Id): Option<Entry> {
    if es == [] then None else
      var w := Winner(es[..|es| - 1], id);
      if Last(es).id == id && (w.None? || Last(es).seqNo > w.value.seqNo) then Some(Last(es)) else w
  }

  /** What is known about a node, apart from when it was last seen. */
  datatype Facts = Facts(turn: Addr, gossip: Addr, seqNo: nat)

  function Known(v: View, id: Id): Option<Facts> {
    if id in v.peers then Some(Facts(v.peers[id].turn, v.peers[id].gossip, v.peers[id].seqNo)) else None
  }

  ghost predicate SameFacts(a: View, b: View) {
    a.tombs == b.tombs && forall id :: Known(a, id) == Known(b, id)
  }

  predicate Suppressed(cfg: Config, v: View, id: Id) {
    id == cfg.self || id in v.tombs
  }

  /** An entry that would change what is stored about its node. */
  predicate Effective(cfg: Config, v: View, e: Entry) {
    !Suppressed(cfg, v, e.id) && (e.id in v.peers ==> e.seqNo > v.peers[e.id].seqNo)
  }

  function FactsOf(e: Entry): Facts { Facts(e.turn, e.gossip, e.seqNo) }

  predicate Wins(cfg: Config, v: View, w: Option<Entry>) {
    w.Some? && Effective(cfg, v, w.value)
  }

  /** What is known about `id` after the merge, without running it. */
  function Expected(cfg: Config, v: View, w: Option<Entry>, id: Id): Option<Facts> {
    if Wins(cfg, v, w) then Some(FactsOf(w.value)) else Known(v, id)
  }

  lemma {:induction false} WinnerIs(es: seq<Entry>, id: Id)
    ensures Winner(es, id).None? <==> forall e :: e in es ==> e.id != id
    ensures Winner(es, id).Some? ==> Winner(es, id).value in es && Winner(es, id).value.id == id
    ensures Winner(es, id).Some? ==> forall e :: e in es && e.id == id ==> e.seqNo <= Winner(es, id).value.seqNo
  {
    if es != [] {
      WinnerIs(es[..|es| - 1], id);
      assert es == es[..|es| - 1] + [Last(es)];
    }
  }

  lemma {:induction false} WinnerInFront(e: Entry, es: seq<Entry>)
    requires forall x :: x in es && x.id == e.id ==> x.seqNo <= e.seqNo
    ensures Winner([e] + es, e.id) == Some(e)
  {
    if es == [] {
      assert [e] + es == [e];
    } else {
      var init := es[..|es| - 1];
      WinnerInFront(e, init);
      assert ([e] + es)[..|es|] == [e] + init;
      assert Last(es) in es;
    }
  }

  /** Merging entry by entry tells every node's facts as its winning entry does; at one clock reading, seen then. */
  lemma {:induction false} MergeGivesExpected(cfg: Config, v: View, es: seq<Entry>, now: nat, ticks: seq<nat>, id: Id)
    requires Tidy(cfg, v)
    ensures Merged(cfg, v, es, now, ticks).tombs == v.tombs
    ensures Known(Merged(cfg, v, es, now, ticks), id) == Expected(cfg, v, Winner(es, id), id)
    ensures ticks == [] && Wins(cfg, v, Winner(es, id)) ==>
      id in Merged(cfg, v, es, now, ticks).peers && Merged(cfg, v, es, now, ticks).peers[id].lastSeen == now
  {
    if es != [] {
      var init, e, t := es[..|es| - 1], Last(es), ClockAt(now, ticks, |es| - 1);
      MergeGivesExpected(cfg, v, init, now, ticks, id);
      WinnerIs(init, id);
      ApplyAllStaysTidy(cfg, v, EntryOps(init, now, ticks));
      ApplyAllSnoc(cfg, v, EntryOps(init, now, ticks), At(t, Observe(e, false)));
      MergeOneMore(cfg, v, Merged(cfg, v, init, now, ticks), Winner(init, id), e, t, id);
    }
  }

  lemma MergeOneMore(cfg: Config, v: View, mid: View, w: Option<Entry>, e: Entry, t: nat, id: Id)
    requires Tidy(cfg, v) && Tidy(cfg, mid) && mid.tombs == v.tombs
    requires w.Some? ==> w.value.id == id
    requires Known(mid, id) == Expected(cfg, v, w, id)
    ensures var after := Observed(cfg.self, mid, e, false, t).view;
      var next := if e.id == id && (w.None? || e.seqNo > w.value.seqNo) then Some(e) else w;
      && after.tombs == v.tombs
      && Known(after, id) == Expected(cfg, v, next, id)
      && (Wins(cfg, v, next) ==> id in after.peers)
      && (Wins(cfg, v, next) && after.peers[id].lastSeen != t ==>
            Wins(cfg, v, w) && id in mid.peers && after.peers[id] == mid.peers[id])
  {
    assert mid.tombs - {e.id} == mid.tombs || e.id in mid.tombs;
    assert id in mid.peers <==> Known(mid, id).Some?;
  }

  // ----- when order does not matter

  /** `e` would change the view and no entry for its node is newer. */
  ghost predicate Leads(cfg: Config, v: View, es: set<Entry>, e: Entry) {
    e in es && Effective(cfg, v, e) && forall x :: x in es && x.id == e.id ==> x.seqNo <= e.seqNo
  }

  /** The leading entries for a node all say the same. */
  ghost predicate Agree(cfg: Config, v: View, es: set<Entry>) {
    forall e, f :: Leads(cfg, v, es, e) && Leads(cfg, v, es, f) && e.id == f.id ==> e == f
  }

  lemma SetDecides(cfg: Config, v: View, a: seq<Entry>, b: seq<Entry>, now: nat, ta: seq<nat>, tb: seq<nat>)
    requires Tidy(cfg, v) && Elements(a) == Elements(b) && Agree(cfg, v, Elements(a))
    ensures SameFacts(Merged(cfg, v, a, now, ta), Merged(cfg, v, b, now, tb))
  {
    forall id
      ensures Known(Merged(cfg, v, a, now, ta), id) == Known(Merged(cfg, v, b, now, tb), id)
    {
      MergeGivesExpected(cfg, v, a, now, ta, id);
      MergeGivesExpected(cfg, v, b, now, tb, id);
      SameWinner(cfg, v, a, b, id);
    }
    MergeGivesExpected(cfg, v, a, now, ta, cfg.self);
    MergeGivesExpected(cfg, v, b, now, tb, cfg.self);
  }

  lemma SameWinner(cfg: Config, v: View, a: seq<Entry>, b: seq<Entry>, id: Id)
    requires Elements(a) == Elements(b) && Agree(cfg, v, Elements(a))
    ensures Wins(cfg, v, Winner(a, id)) <==> Wins(cfg, v, Winner(b, id))
    ensures Wins(cfg, v, Winner(a, id)) ==> Winner(a, id) == Winner(b, id)
  {
    WinnerIs(a, id);
    WinnerIs(b, id);
    assert forall e :: e in a <==> e in Elements(a);
    assert forall e :: e in b <==> e in Elements(a);
    if Winner(a, id).Some? && Winner(b, id).Some? {
      var e, f := Winner(a, id).value, Winner(b, id).value;
      assert e.seqNo == f.seqNo;
      if Effective(cfg, v, e) {
        assert Leads(cfg, v, Elements(a), e) && Leads(cfg, v, Elements(a), f);
      }
    }
  }

  /** A leading entry put first wins, so two different leading entries give two different views. */
  lemma LeaderInFrontWins(cfg: Config, v: View, es: seq<Entry>, now: nat, ticks: seq<nat>, e: Entry)
    requires Tidy(cfg, v) && Leads(cfg, v, Elements(es), e)
    ensures Elements([e] + es) == Elements(es)
    ensures Known(Merged(cfg, v, [e] + es, now, ticks), e.id) == Some(FactsOf(e))
  {
    assert forall x :: x in es ==> x in Elements(es);
    WinnerInFront(e, es);
    MergeGivesExpected(cfg, v, [e] + es, now, ticks, e.id);
  }

  /** Order, repetition and clock readings are irrelevant to what is known exactly when the leading entries agree. */
  lemma OrderIrrelevantIff(cfg: Config, v: View, es: seq<Entry>, now: nat, ticks: seq<nat>)
    requires Tidy(cfg, v)
    ensures (forall fs, ts :: Elements(fs) == Elements(es) ==>
               SameFacts(Merged(cfg, v, fs, now, ts), Merged(cfg, v, es, now, ticks)))
      <==> Agree(cfg, v, Elements(es))
  {
    if Agree(cfg, v, Elements(es)) {
      forall fs, ts | Elements(fs) == Elements(es)
        ensures SameFacts(Merged(cfg, v, fs, now, ts), Merged(cfg, v, es, now, ticks))
      {
        SetDecides(cfg, v, fs, es, now, ts, ticks);
      }
    } else {
      var e, f :| Leads(cfg, v, Elements(es), e) && Leads(cfg, v, Elements(es), f) && e.id == f.id && e != f;
      LeaderInFrontWins(cfg, v, es, now, ticks, e);
      LeaderInFrontWins(cfg, v, es, now, ticks, f);
      assert e.seqNo == f.seqNo;
      var x, y := Merged(cfg, v, [e] + es, now, ticks), Merged(cfg, v, [f] + es, now, ticks);
      assert Known(x, e.id) != Known(y, e.id);
      assert !SameFacts(x, Merged(cfg, v, es, now, ticks)) || !SameFacts(y, Merged(cfg, v, es, now, ticks));
    }
  }

  /** If each id and sequence number names one address pair, order and repetition never matter. */
  lemma ConsistentEntriesMergeAnyhow(cfg: Config, v: View, a: seq<Entry>, b: seq<Entry>, now: nat, ta: seq<nat>,
                                     tb: seq<nat>)
    requires Tidy(cfg, v) && Elements(a) == Elements(b)
    requires forall e, f :: e in a && f in a && e.id == f.id && e.seqNo == f.seqNo ==> e == f
    ensures SameFacts(Merged(cfg, v, a, now, ta), Merged(cfg, v, b, now, tb))
  {
    assert forall e :: e in Elements(a) ==> e in a;
    SetDecides(cfg, v, a, b, now, ta, tb);
  }

  // ----- a silent node that two survivors keep teaching each other

  /** `c` is a peer with sequence number `s`, last heard of at `t`. */
  predicate Knows(v: View, c: Id, s: nat, t: nat) {
    c in v.peers && v.peers[c].seqNo == s && v.peers[c].lastSeen == t
  }

  /** The periodic frame of a member that is not draining: itself as sender, and its peers in any order. */
  ghost predicate FrameFrom(cfg: Config, v: View, f: Frame) {
    && f.cluster == cfg.cluster && f.sender == cfg.self && f.turn == cfg.turn && !f.leaving
    && forall e :: e in f.peers <==> e.id in v.peers && e == EntryOf(v.peers[e.id])
  }

  function EntryOf(p: Peer): Entry { Entry(p.id, p.turn, p.gossip, p.seqNo) }

  /** A member ticks and then hears a frame. */
  function TickAndHear(f: Frame, src: Addr, now: nat): seq<Event> {
    [Tick(now), Heard(f, src, now, [])]
  }

  function TickThenHear(cfg: Config, v: View, f: Frame, src: Addr, now: nat): View {
    ApplyAll(cfg, v, [At(now, Reap)] + EventOps(cfg, Heard(f, src, now, []))).view
  }

  /** When its own timeout drops the silent node, the other member's next frame brings it back as if just seen. */
  lemma Retaught(cfg: Config, v: View, other: Config, theirs: View, f: Frame, src: Addr, c: Id, s: nat, t: nat)
    requires Tidy(cfg, v) && Tidy(other, theirs) && cfg.cluster == other.cluster && FrameFrom(other, theirs, f)
    requires c != cfg.self && c != other.self && Knows(v, c, s, t) && c in theirs.peers && theirs.peers[c].seqNo == s
    ensures var now := t + Timeout(cfg) + 1;
      var after := TickThenHear(cfg, v, f, src, now);
      Tidy(cfg, after) && Knows(after, c, s, now)
  {
    var now := t + Timeout(cfg) + 1;
    var reaped := Apply(cfg, v, At(now, Reap)).view;
    ApplyStaysTidy(cfg, v, At(now, Reap));
    R.ReapingDropsIff(cfg, v, At(now, Reap), c);
    assert EntryOf(theirs.peers[c]) in f.peers;
    ApplyAllFirst(cfg, v, At(now, Reap), EventOps(cfg, Heard(f, src, now, [])));
    Relearned(cfg, reaped, f, src, now, c, s);
  }

  /** A member that lost track of `c` learns it again, as if just seen, from any frame that lists it. */
  lemma Relearned(cfg: Config, v: View, f: Frame, src: Addr, now: nat, c: Id, s: nat)
    requires Tidy(cfg, v) && c != cfg.self && c !in v.peers && c !in v.tombs
    requires f.cluster == cfg.cluster && !f.leaving && f.sender != c
    requires forall e :: e in f.peers && e.id == c ==> e.seqNo == s
    requires exists e :: e in f.peers && e.id == c
    ensures var after := ApplyAll(cfg, v, EventOps(cfg, Heard(f, src, now, []))).view;
      Tidy(cfg, after) && Knows(after, c, s, now)
  {
    var first := SenderOp(f, src, now);
    var mid := Apply(cfg, v, first).view;
    ApplyStaysTidy(cfg, v, first);
    assert c !in mid.peers && c !in mid.tombs;
    ApplyAllFirst(cfg, v, first, EntryOps(f.peers, now, []));
    ApplyAllStaysTidy(cfg, mid, EntryOps(f.peers, now, []));
    MergeGivesExpected(cfg, mid, f.peers, now, [], c);
    WinnerIs(f.peers, c);
  }

  /** Two survivors, what they believe, and when each last heard of the silent node. */
  datatype Survivors = Survivors(va: View, vb: View, ta: nat, tb: nat)

  datatype Exchange = Exchange(toA: Frame, toB: Frame, src: Addr)

  /** Each survivor in turn times the silent node out and then hears the other's periodic frame number `n`. */
  ghost predicate Round(a: Config, b: Config, w: Survivors, x: Exchange, next: Survivors, n: nat) {
    && x.toA.seqNo == n && x.toB.seqNo == n
    && next.ta == w.ta + Timeout(a) + 1 && next.tb == w.tb + Timeout(b) + 1
    && FrameFrom(b, w.vb, x.toA) && next.va == TickThenHear(a, w.va, x.toA, x.src, next.ta)
    && FrameFrom(a, next.va, x.toB) && next.vb == TickThenHear(b, w.vb, x.toB, x.src, next.tb)
  }

  ghost predicate BothKnow(a: Config, b: Config, w: Survivors, c: Id, s: nat) {
    && Tidy(a, w.va) && Tidy(b, w.vb)
    && Knows(w.va, c, s, w.ta) && Knows(w.vb, c, s, w.tb)
  }

  lemma RoundKeepsKnowing(a: Config, b: Config, w: Survivors, x: Exchange, next: Survivors, n: nat,
                          c: Id, s: nat)
    requires BothKnow(a, b, w, c, s) && a.cluster == b.cluster && c != a.self && c != b.self
    requires Round(a, b, w, x, next, n)
    ensures BothKnow(a, b, next, c, s)
  {
    Retaught(a, w.va, b, w.vb, x.toA, x.src, c, s, w.ta);
    Retaught(b, w.vb, a, next.va, x.toB, x.src, c, s, w.tb);
  }

  lemma FrameExists(cfg: Config, v: View, n: nat) returns (f: Frame)
    requires Keyed(v.peers)
    ensures FrameFrom(cfg, v, f) && f.seqNo == n
  {
    var order := SomeWalk(v.peers.Keys);
    assert forall i :: 0 <= i < |order| ==> order[i] in order;
    var es := seq(|order|, i requires 0 <= i < |order| => EntryOf(v.peers[order[i]]));
    f := Frame(cfg.cluster, cfg.self, cfg.turn, n, Addr(0, 0), es, false);
    forall e: Entry | e.id in v.peers && e == EntryOf(v.peers[e.id])
      ensures e in es
    {
      var i :| 0 <= i < |order| && order[i] == e.id;
      assert es[i] == e;
    }
  }

  lemma TickThenHearTidy(cfg: Config, v: View, f: Frame, src: Addr, now: nat)
    requires Tidy(cfg, v)
    ensures Tidy(cfg, TickThenHear(cfg, v, f, src, now))
  {
    ApplyAllStaysTidy(cfg, v, [At(now, Reap)] + EventOps(cfg, Heard(f, src, now, [])));
  }

  lemma NextRound(a: Config, b: Config, w: Survivors, n: nat) returns (x: Exchange, next: Survivors)
    requires Tidy(a, w.va) && Tidy(b, w.vb)
    ensures Round(a, b, w, x, next, n)
  {
    var src, ta, tb := Addr(1, 1), w.ta + Timeout(a) + 1, w.tb + Timeout(b) + 1;
    var toA := FrameExists(b, w.vb, n);
    TickThenHearTidy(a, w.va, toA, src, ta);
    var toB := FrameExists(a, TickThenHear(a, w.va, toA, src, ta), n);
    x := Exchange(toA, toB, src);
    next := Survivors(TickThenHear(a, w.va, toA, src, ta), TickThenHear(b, w.vb, toB, src, tb), ta, tb);
  }

  // ----- from the start

  /** The one frame the silent node ever sends. */
  function Hello(cluster: string, c: Id, s: nat): Frame {
    Frame(cluster, c, Addr(2, 2), s, Addr(2, 2), [], false)
  }

  /** Hearing it from the start is knowing the node. */
  lemma HelloIsKnown(cfg: Config, c: Id, s: nat, t: nat)
    requires c != cfg.self
    ensures var v := R.Run(cfg, [Heard(Hello(cfg.cluster, c, s), Addr(2, 2), t, [])]).view;
      Tidy(cfg, v) && Knows(v, c, s, t)
  {
    var ev := Heard(Hello(cfg.cluster, c, s), Addr(2, 2), t, []);
    R.RunsStayTidy(cfg, [ev]);
    assert [ev][..0] == [];
    var op := SenderOp(ev.frame, ev.src, t);
    assert EventOps(cfg, ev) == [op];
    ApplyAllFirst(cfg, EMPTY, op, []);
    assert [op] + [] == [op];
  }

  lemma RunMore(cfg: Config, evs: seq<Event>, f: Frame, src: Addr, now: nat)
    ensures R.Run(cfg, evs + TickAndHear(f, src, now)).view == TickThenHear(cfg, R.Run(cfg, evs).view, f, src, now)
  {
    var tick, heard := Tick(now), Heard(f, src, now, []);
    var all := evs + TickAndHear(f, src, now);
    assert all[..|all| - 1] == evs + [tick] && (evs + [tick])[..|evs|] == evs;
    R.ApplyAllConcat(cfg, R.Run(cfg, evs).view, [At(now, Reap)], EventOps(cfg, heard));
  }

  /** After the first event the member only ticks, or hears frames of `other`. */
  ghost predicate SilentAfterFirst(evs: seq<Event>, other: Id) {
    evs != [] && forall i :: 0 < i < |evs| ==> evs[i].Tick? || (evs[i].Heard? && evs[i].frame.sender == other)
  }

  /** The survivors' states are those of two runs from the start in which the silent node spoke once. */
  ghost predicate ReachedBy(a: Config, b: Config, w: Survivors, evsA: seq<Event>, evsB: seq<Event>) {
    && R.Run(a, evsA).view == w.va && R.Run(b, evsB).view == w.vb
    && SilentAfterFirst(evsA, b.self) && SilentAfterFirst(evsB, a.self)
  }

  lemma RoundIsReached(a: Config, b: Config, w: Survivors, x: Exchange, next: Survivors, n: nat,
                       evsA: seq<Event>, evsB: seq<Event>)
    requires ReachedBy(a, b, w, evsA, evsB) && Round(a, b, w, x, next, n)
    ensures ReachedBy(a, b, next, evsA + TickAndHear(x.toA, x.src, next.ta), evsB + TickAndHear(x.toB, x.src, next.tb))
  {
    RunMore(a, evsA, x.toA, x.src, next.ta);
    RunMore(b, evsB, x.toB, x.src, next.tb);
    StillSilent(evsA, b.self, x.toA, x.src, next.ta);
    StillSilent(evsB, a.self, x.toB, x.src, next.tb);
  }

  lemma StillSilent(evs: seq<Event>, other: Id, f: Frame, src: Addr, now: nat)
    requires SilentAfterFirst(evs, other) && f.sender == other
    ensures SilentAfterFirst(evs + TickAndHear(f, src, now), other)
  {
    var all := evs + TickAndHear(f, src, now);
    forall i | 0 < i < |all|
      ensures all[i].Tick? || (all[i].Heard? && all[i].frame.sender == other)
    {
      if i >= |evs| {
        assert all[i] == TickAndHear(f, src, now)[i - |evs|];
      }
    }
  }

  /**
   * Round `k` of a run: a tick one timeout after the last, and right then the frame number `k + 1` that `sender`
   * builds from what it believes after the first `2 * k + lead` events of its own run.
   */
  ghost predicate HearsInRound(cfg: Config, evs: seq<Event>, t: nat, sender: Config, theirs: seq<Event>, lead: nat,
                               k: nat) {
    var at := t + (k + 1) * (Timeout(cfg) + 1);
    && 2 * k + 2 < |evs| && 2 * k + lead <= |theirs|
    && evs[2 * k + 1] == Tick(at) && evs[2 * k + 2].Heard? && evs[2 * k + 2].now == at
    && evs[2 * k + 2].frame.seqNo == k + 1
    && FrameFrom(sender, R.Run(sender, theirs[..2 * k + lead]).view, evs[2 * k + 2].frame)
  }

  ghost predicate HearsEachRound(cfg: Config, evs: seq<Event>, t: nat, sender: Config, theirs: seq<Event>, lead: nat,
                                 n: nat) {
    forall k: nat :: k < n ==> HearsInRound(cfg, evs, t, sender, theirs, lead, k)
  }

  lemma StillHears(cfg: Config, evs: seq<Event>, t: nat, sender: Config, theirs: seq<Event>, lead: nat, k: nat,
                   more: seq<Event>, theirMore: seq<Event>)
    requires HearsInRound(cfg, evs, t, sender, theirs, lead, k)
    ensures HearsInRound(cfg, evs + more, t, sender, theirs + theirMore, lead, k)
  {
    assert (theirs + theirMore)[..2 * k + lead] == theirs[..2 * k + lead];
  }

  lemma HearsNow(cfg: Config, evs: seq<Event>, t: nat, sender: Config, theirs: seq<Event>, lead: nat, n: nat,
                 f: Frame, src: Addr, at: nat)
    requires |evs| == 2 * n + 1 && at == t + (n + 1) * (Timeout(cfg) + 1) && f.seqNo == n + 1
    requires 2 * n + lead <= |theirs| && FrameFrom(sender, R.Run(sender, theirs[..2 * n + lead]).view, f)
    ensures HearsInRound(cfg, evs + TickAndHear(f, src, at), t, sender, theirs, lead, n)
  {
    var all := evs + TickAndHear(f, src, at);
    assert all[2 * n + 1] == Tick(at) && all[2 * n + 2] == Heard(f, src, at, []);
  }

  lemma HearsOneMore(cfg: Config, evs: seq<Event>, t: nat, sender: Config, theirs: seq<Event>, lead: nat, n: nat,
                     f: Frame, src: Addr, at: nat, theirMore: seq<Event>)
    requires HearsEachRound(cfg, evs, t, sender, theirs, lead, n) && |evs| == 2 * n + 1
    requires at == t + (n + 1) * (Timeout(cfg) + 1) && f.seqNo == n + 1
    requires 2 * n + lead <= |theirs + theirMore|
    requires FrameFrom(sender, R.Run(sender, (theirs + theirMore)[..2 * n + lead]).view, f)
    ensures HearsEachRound(cfg, evs + TickAndHear(f, src, at), t, sender, theirs + theirMore, lead, n + 1)
  {
    forall k: nat | k < n + 1
      ensures HearsInRound(cfg, evs + TickAndHear(f, src, at), t, sender, theirs + theirMore, lead, k)
    {
      if k < n {
        StillHears(cfg, evs, t, sender, theirs, lead, k, TickAndHear(f, src, at), theirMore);
      } else {
        HearsNow(cfg, evs, t, sender, theirs + theirMore, lead, n, f, src, at);
      }
    }
  }

  /**
   * Runs of `n` rounds in which each survivor hears what the other believes, and after which both know the silent
   * node, as of `n` timeouts after it spoke.
   */
  ghost predicate Survived(a: Config, b: Config, c: Id, s: nat, ta: nat, tb: nat, n: nat,
                           evsA: seq<Event>, evsB: seq<Event>, last: Survivors) {
    && ReachedBy(a, b, last, evsA, evsB) && |evsA| == |evsB| == 2 * n + 1
    && evsA[0] == Heard(Hello(a.cluster, c, s), Addr(2, 2), ta, [])
    && evsB[0] == Heard(Hello(b.cluster, c, s), Addr(2, 2), tb, [])
    && HearsEachRound(a, evsA, ta, b, evsB, 1, n) && HearsEachRound(b, evsB, tb, a, evsA, 3, n)
    && BothKnow(a, b, last, c, s)
    && last.ta == ta + n * (Timeout(a) + 1) && last.tb == tb + n * (Timeout(b) + 1)
  }

  lemma SurvivedAtFirst(a: Config, b: Config, c: Id, s: nat, ta: nat, tb: nat)
    returns (evsA: seq<Event>, evsB: seq<Event>, last: Survivors)
    requires c != a.self && c != b.self
    ensures Survived(a, b, c, s, ta, tb, 0, evsA, evsB, last)
  {
    evsA := [Heard(Hello(a.cluster, c, s), Addr(2, 2), ta, [])];
    evsB := [Heard(Hello(b.cluster, c, s), Addr(2, 2), tb, [])];
    HelloIsKnown(a, c, s, ta);
    HelloIsKnown(b, c, s, tb);
    last := Survivors(R.Run(a, evsA).view, R.Run(b, evsB).view, ta, tb);
  }

  lemma OneMore(n: nat, t: nat)
    ensures (n + 1) * t == n * t + t
  {
  }

  /** A hears the frame b builds before its own part of the round. */
  lemma FirstHearsOneMore(a: Config, b: Config, t: nat, n: nat, xs: seq<Event>, ys: seq<Event>, f: Frame, src: Addr,
                          at: nat, moreB: seq<Event>)
    requires HearsEachRound(a, xs, t, b, ys, 1, n) && |xs| == |ys| == 2 * n + 1
    requires at == t + (n + 1) * (Timeout(a) + 1) && f.seqNo == n + 1 && FrameFrom(b, R.Run(b, ys).view, f)
    ensures HearsEachRound(a, xs + TickAndHear(f, src, at), t, b, ys + moreB, 1, n + 1)
  {
    assert (ys + moreB)[..2 * n + 1] == ys;
    HearsOneMore(a, xs, t, b, ys, 1, n, f, src, at, moreB);
  }

  /** And b the one a builds after it. */
  lemma SecondHearsOneMore(a: Config, b: Config, t: nat, n: nat, xs: seq<Event>, ys: seq<Event>, f: Frame, src: Addr,
                           at: nat, moreA: seq<Event>)
    requires HearsEachRound(b, ys, t, a, xs, 3, n) && |xs| == |ys| == 2 * n + 1 && |moreA| == 2
    requires at == t + (n + 1) * (Timeout(b) + 1) && f.seqNo == n + 1 && FrameFrom(a, R.Run(a, xs + moreA).view, f)
    ensures HearsEachRound(b, ys + TickAndHear(f, src, at), t, a, xs + moreA, 3, n + 1)
  {
    assert (xs + moreA)[..2 * n + 3] == xs + moreA;
    HearsOneMore(b, ys, t, a, xs, 3, n, f, src, at, moreA);
  }

  lemma SurvivesOneMore(a: Config, b: Config, c: Id, s: nat, ta: nat, tb: nat, n: nat,
                        xs: seq<Event>, ys: seq<Event>, mid: Survivors, x: Exchange, next: Survivors)
    requires Survived(a, b, c, s, ta, tb, n, xs, ys, mid)
    requires Round(a, b, mid, x, next, n + 1) && BothKnow(a, b, next, c, s)
    ensures Survived(a, b, c, s, ta, tb, n + 1,
                     xs + TickAndHear(x.toA, x.src, next.ta), ys + TickAndHear(x.toB, x.src, next.tb), next)
  {
    var moreA, moreB := TickAndHear(x.toA, x.src, next.ta), TickAndHear(x.toB, x.src, next.tb);
    RoundIsReached(a, b, mid, x, next, n + 1, xs, ys);
    OneMore(n, Timeout(a) + 1);
    OneMore(n, Timeout(b) + 1);
    FirstHearsOneMore(a, b, ta, n, xs, ys, x.toA, x.src, next.ta, moreB);
    SecondHearsOneMore(a, b, tb, n, xs, ys, x.toB, x.src, next.tb, moreA);
  }

  /**
   * For any number of timeouts there are runs of two survivors, both from the start, in which a node that spoke once
   * to each and then fell silent is still a peer of both: every frame they hear after that is the other's, and lists
   * what the other believes by then.
   */
  lemma {:induction false} SilentNodeSurvives(a: Config, b: Config, c: Id, s: nat, ta: nat, tb: nat, n: nat)
    returns (evsA: seq<Event>, evsB: seq<Event>, last: Survivors)
    requires a.cluster == b.cluster && c != a.self && c != b.self
    ensures Survived(a, b, c, s, ta, tb, n, evsA, evsB, last)
    decreases n
  {
    if n == 0 {
      evsA, evsB, last := SurvivedAtFirst(a, b, c, s, ta, tb);
    } else {
      var xs, ys, mid := SilentNodeSurvives(a, b, c, s, ta, tb, n - 1);
      var x, next := NextRound(a, b, mid, n);
      RoundKeepsKnowing(a, b, mid, x, next, n, c, s);
      SurvivesOneMore(a, b, c, s, ta, tb, n - 1, xs, ys, mid, x, next);
      evsA, evsB, last := xs + TickAndHear(x.toA, x.src, next.ta), ys + TickAndHear(x.toB, x.src, next.tb), next;
    }
  }
}
