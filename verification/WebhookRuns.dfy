/**
 Runs of the credential cache together with its fetcher. The fetcher takes jobs from the
 queue and completes each taken job once; lookups, completions and sweeps interleave freely.
 */
module WebhookRuns {
  import opened Binary
  import opened Wrappers
  import opened Sequences
  import opened WebhookCache

  datatype Completion = Completion(at: U64, outcome: FetchOutcome)

  /**
   The cache and what surrounds it: jobs the fetcher holds, jobs lost when it went away, the waiters
   handed out, the last completion of every user, and counts of lookups refused by the queue, lookups
   that found no room in the table, and queued, started and completed jobs.
   */
  datatype World = World(cache: Cache, clock: U64, taken: seq<User>, lost: seq<User>, waiters: set<Waiter>,
                         last: map<User, Completion>, refusals: nat, crowded: nat, enqueued: nat, started: nat,
                         completed: nat)

  datatype Event =
    | Ask(user: User, policy: Policy, now: U64, order: seq<User>)
    | Take
    | Done(i: nat, outcome: FetchOutcome, now: U64)
    | Tidy(now: U64)
    | FetcherGone

  function Time(w: World, ev: Event): U64 {
    match ev
    case Ask(_, _, now, _) => now
    case Done(_, _, now) => now
    case Tidy(now) => now
    case _ => w.clock
  }

  /** Time does not run backwards, scans enumerate the table, and only held jobs complete. */
  ghost predicate Enabled(w: World, ev: Event) {
    && w.clock <= Time(w, ev)
    && (ev.Ask? ==> Enumerates(ev.order, w.cache.entries))
    && (ev.Done? ==> ev.i < |w.taken|)
  }

  /** Jobs that can still complete: held by the fetcher or queued for it. */
  function Jobs(w: World): seq<User> {
    w.taken + w.cache.queue
  }

  /** Every job not completed, the lost ones included. */
  function Unfinished(w: World): seq<User> {
    (w.taken + w.lost) + w.cache.queue
  }

  /** Lookups that start nothing. */
  predicate Quiet(c: Cache, user: User, policy: Policy, now: U64) {
    || policy.Never? || policy == Admit(false) || |user| == 0 || |user| > 512
    || (user in c.entries && (c.entries[user].state.InFlight? || now < c.entries[user].expires))
  }

  /** The user has an entry, the table is not full, or one of the first 16 entries is not in flight. */
  predicate HasRoom(s: Settings, c: Cache, user: User, order: seq<User>)
    requires forall u :: u in order ==> u in c.entries
  {
    || user in c.entries || |c.entries| < s.maxEntries
    || exists i :: 0 <= i < |order| && i < 16 && order[i] in c.entries && !c.entries[order[i]].state.InFlight?
  }

  /** A lookup that must fetch and finds room, with the queue full or closed. */
  predicate Refused(s: Settings, c: Cache, user: User, policy: Policy, now: U64, order: seq<User>)
    requires forall u :: u in order ==> u in c.entries
  {
    && !Quiet(c, user, policy, now) && HasRoom(s, c, user, order)
    && (!c.open || (c.queue != [] && |c.queue| >= s.queueDepth))
  }

  /** A lookup that must fetch and finds no room. */
  predicate Crowded(s: Settings, c: Cache, user: User, policy: Policy, now: U64, order: seq<User>)
    requires forall u :: u in order ==> u in c.entries
  {
    !Quiet(c, user, policy, now) && !HasRoom(s, c, user, order)
  }

  /** Accounts for one lookup whose result was `r`. */
  function Asked(w: World, now: U64, r: Lookup, c: Cache, refused: bool, crowded: bool): World
    requires |w.cache.queue| <= |c.queue|
  {
    w.(cache := c, clock := now,
       waiters := if r.Pending? then w.waiters + {r.waiter} else w.waiters,
       refusals := w.refusals + if refused then 1 else 0,
       crowded := w.crowded + if crowded then 1 else 0,
       enqueued := w.enqueued + |c.queue| - |w.cache.queue|,
       started := w.started + if r.Pending? && r.waiter.started then 1 else 0)
  }

  function Without<T>(s: seq<T>, i: nat): seq<T>
    requires i < |s|
  {
    s[..i] + s[i + 1..]
  }

  function Step(s: Settings, w: World, ev: Event): World
    requires Enabled(w, ev)
  {
    match ev
    case Ask(user, policy, now, order) =>
      var (r, c) := LookupWith(s, w.cache, user, policy, now, order);
      LookupGrowsQueue(s, w.cache, user, policy, now, order);
      Asked(w, now, r, c, Refused(s, w.cache, user, policy, now, order), Crowded(s, w.cache, user, policy, now, order))
    case Take =>
      if w.cache.queue == [] then w
      else w.(cache := w.cache.(queue := w.cache.queue[1..]), taken := w.taken + [w.cache.queue[0]])
    case Done(i, outcome, now) =>
      var user := w.taken[i];
      w.(cache := Complete(s, w.cache, user, outcome, now), clock := now, taken := Without(w.taken, i),
         last := w.last[user := Completion(now, outcome)], completed := w.completed + 1)
    case Tidy(now) => w.(cache := Sweep(w.cache, now), clock := now)
    case FetcherGone =>
      w.(cache := w.cache.(open := false, queue := []), lost := w.lost + w.cache.queue)
  }

  lemma LookupGrowsQueue(s: Settings, c: Cache, user: User, policy: Policy, now: U64, order: seq<User>)
    requires forall u :: u in order ==> u in c.entries
    ensures |c.queue| <= |LookupWith(s, c, user, policy, now, order).1.queue|
  {
  }

  // ----- the invariant

  /** The in-flight users are exactly the users with an outstanding job, one each. */
  ghost predicate JobsMatch(entries: map<User, Slot>, jobs: seq<User>) {
    && Distinct(jobs)
    && forall u :: u in jobs <==> u in entries && entries[u].state.InFlight?
  }

  /** Every waiter is released or waits on the live channel of its user's fetch. */
  ghost predicate WaitersServed(c: Cache, waiters: set<Waiter>) {
    && (forall u :: u in c.entries && c.entries[u].state.InFlight? ==>
          c.entries[u].state.chan < c.nextChan && c.entries[u].state.chan !in c.released)
    && (forall u, v :: u in c.entries && v in c.entries && c.entries[u].state.InFlight? ==>
          c.entries[u].state == c.entries[v].state ==> u == v)
    && (forall n :: n in c.released ==> n < c.nextChan)
    && (forall w :: w in waiters ==>
          w.chan in c.released || (w.user in c.entries && c.entries[w.user].state == InFlight(w.chan)))
  }

  /** Every settled entry is the user's latest completion with its expiry. */
  ghost predicate HoldsLatest(s: Settings, entries: map<User, Slot>, last: map<User, Completion>) {
    forall u :: u in entries && !entries[u].state.InFlight? ==>
      u in last && entries[u] == SlotFor(s, last[u].outcome, last[u].at)
  }

  /** Misses are jobs started or refused, rejections refusals or a full table; every job is somewhere. */
  ghost predicate Tallies(w: World) {
    && w.enqueued == w.started == w.cache.stats.misses - w.refusals
    && w.cache.stats.rejected == w.refusals + w.crowded
    && w.enqueued == |Unfinished(w)| + w.completed
  }

  /** Nothing is lost while the fetcher is there, and nothing is queued once it is gone. */
  predicate GoneOrNot(w: World) {
    if w.cache.open then w.lost == [] else w.cache.queue == []
  }

  ghost predicate Inv(s: Settings, w: World) {
    && |w.cache.entries| <= s.maxEntries
    && JobsMatch(w.cache.entries, Unfinished(w))
    && WaitersServed(w.cache, w.waiters)
    && HoldsLatest(s, w.cache.entries, w.last)
    && Tallies(w) && GoneOrNot(w) && |w.cache.queue| <= Max(s.queueDepth, 1)
  }

  function Fresh(): World {
    World(Cache(map[], [], true, 0, {}, Stats(0, 0, 0, 0, 0, 0, 0, 0)), 0, [], [], {}, map[], 0, 0, 0, 0, 0)
  }

  lemma FreshInv(s: Settings)
    ensures Inv(s, Fresh())
  {
  }

  // ----- lookups, stage by stage

  ghost predicate CacheInv(s: Settings, c: Cache, jobs: seq<User>, waiters: set<Waiter>, last: map<User, Completion>) {
    && |c.entries| <= s.maxEntries
    && JobsMatch(c.entries, jobs)
    && WaitersServed(c, waiters)
    && HoldsLatest(s, c.entries, last)
  }

  /** Removing a settled entry disturbs nothing else. */
  lemma DropSettled(s: Settings, c: Cache, jobs: seq<User>, waiters: set<Waiter>, last: map<User, Completion>,
                    v: User, st: Stats)
    requires CacheInv(s, c, jobs, waiters, last) && Evictable(c.entries, v)
    ensures CacheInv(s, c.(entries := c.entries - {v}, stats := st), jobs, waiters, last)
    ensures |c.entries - {v}| == |c.entries| - 1
  {
    assert (c.entries - {v}).Keys == c.entries.Keys - {v};
  }

  lemma FetchKeeps(s: Settings, c: Cache, user: User, taken: seq<User>, waiters: set<Waiter>,
                   last: map<User, Completion>)
    requires CacheInv(s, c, taken + c.queue, waiters, last)
    requires user !in c.entries || !c.entries[user].state.InFlight?
    requires user in c.entries || |c.entries| < s.maxEntries
    ensures var (r, c') := StartFetch(s, c, user);
            CacheInv(s, c', taken + c'.queue, if r.Pending? then waiters + {r.waiter} else waiters, last)
  {
    if CanSend(s, c) {
      MarkKeeps(s, c, user, taken, waiters, last);
    } else {
      RefusalKeeps(s, c, user, taken + c.queue, waiters, last);
    }
  }

  lemma MarkJobs(entries: map<User, Slot>, jobs: seq<User>, user: User, slot: Slot)
    requires JobsMatch(entries, jobs) && user !in jobs && slot.state.InFlight?
    ensures JobsMatch(entries[user := slot], jobs + [user])
  {
    assert forall u :: u in jobs + [user] <==> u in jobs || u == user;
  }

  lemma MarkWaiters(c: Cache, c': Cache, user: User, stale: U64, started: bool, waiters: set<Waiter>)
    requires WaitersServed(c, waiters) && (user !in c.entries || !c.entries[user].state.InFlight?)
    requires c'.entries == c.entries[user := Slot(InFlight(c.nextChan), stale)]
    requires c'.nextChan == c.nextChan + 1 && c'.released == c.released
    ensures WaitersServed(c', waiters + {Waiter(user, c.nextChan, started)})
  {
  }

  lemma MarkKeeps(s: Settings, c: Cache, user: User, taken: seq<User>, waiters: set<Waiter>,
                  last: map<User, Completion>)
    requires CacheInv(s, c, taken + c.queue, waiters, last)
    requires user !in c.entries || !c.entries[user].state.InFlight?
    requires user in c.entries || |c.entries| < s.maxEntries
    requires CanSend(s, c)
    ensures var (r, c') := StartFetch(s, c, user);
            CacheInv(s, c', taken + c'.queue, waiters + {r.waiter}, last)
  {
    var c' := StartFetch(s, c, user).1;
    assert c'.entries.Keys == c.entries.Keys + {user};
    ConcatAssoc(taken, c.queue, [user]);
    MarkJobs(c.entries, taken + c.queue, user, c'.entries[user]);
    MarkWaiters(c, c', user, c'.entries[user].expires, true, waiters);
  }

  lemma RefusalKeeps(s: Settings, c: Cache, user: User, jobs: seq<User>, waiters: set<Waiter>,
                     last: map<User, Completion>)
    requires CacheInv(s, c, jobs, waiters, last)
    requires user !in c.entries || !c.entries[user].state.InFlight?
    requires !CanSend(s, c)
    ensures CacheInv(s, StartFetch(s, c, user).1, jobs, waiters, last)
  {
    var c' := StartFetch(s, c, user).1;
    if user in c.entries {
      DropSettled(s, c, jobs, waiters, last, user, c'.stats);
      RefusedWaiters(c.(entries := c'.entries, stats := c'.stats), c', waiters);
    } else {
      assert c.entries - {user} == c.entries;
      RefusedWaiters(c.(stats := c'.stats), c', waiters);
    }
  }

  lemma RefusedWaiters(c: Cache, c': Cache, waiters: set<Waiter>)
    requires WaitersServed(c, waiters)
    requires c'.entries == c.entries && c'.nextChan == c.nextChan + 1 && c'.released == c.released + {c.nextChan}
    ensures WaitersServed(c', waiters)
  {
  }

  lemma LookupKeeps(s: Settings, c: Cache, user: User, policy: Policy, now: U64, order: seq<User>,
                    taken: seq<User>, waiters: set<Waiter>, last: map<User, Completion>)
    requires CacheInv(s, c, taken + c.queue, waiters, last) && Enumerates(order, c.entries)
    ensures var (r, c') := LookupWith(s, c, user, policy, now, order);
            CacheInv(s, c', taken + c'.queue, if r.Pending? then waiters + {r.waiter} else waiters, last)
  {
    if Quiet(c, user, policy, now) {
      QuietLookup(s, c, user, policy, now, order);
      var (r, c') := LookupWith(s, c, user, policy, now, order);
      QuietKeeps(s, c, c'.stats, r, taken + c.queue, waiters, last);
    } else if user !in c.entries && |c.entries| >= s.maxEntries {
      VictimIs(c.entries, Sampled(order), now);
      var v := ChooseVictim(c.entries, Sampled(order), now, None);
      if v.Some? {
        var c' := EvictOne(c, now, order).0;
        DropSettled(s, c, taken + c.queue, waiters, last, v.value, c'.stats);
        FetchKeeps(s, c', user, taken, waiters, last);
      } else {
        QuietKeeps(s, c, Miss(s, c, user, policy, now, order).1.stats, Unavailable, taken + c.queue, waiters, last);
      }
    } else {
      FetchKeeps(s, c, user, taken, waiters, last);
    }
  }

  lemma QuietLookup(s: Settings, c: Cache, user: User, policy: Policy, now: U64, order: seq<User>)
    requires Quiet(c, user, policy, now)
    requires forall u :: u in order ==> u in c.entries
    ensures var (r, c') := LookupWith(s, c, user, policy, now, order);
            && c' == c.(stats := c'.stats)
            && (r.Pending? ==> r.waiter.user in c.entries && c.entries[r.waiter.user].state == InFlight(r.waiter.chan))
  {
  }

  lemma QuietKeeps(s: Settings, c: Cache, st: Stats, r: Lookup, jobs: seq<User>, waiters: set<Waiter>,
                   last: map<User, Completion>)
    requires CacheInv(s, c, jobs, waiters, last)
    requires r.Pending? ==> r.waiter.user in c.entries && c.entries[r.waiter.user].state == InFlight(r.waiter.chan)
    ensures CacheInv(s, c.(stats := st), jobs, if r.Pending? then waiters + {r.waiter} else waiters, last)
  {
  }

  lemma RoomIsMade(s: Settings, c: Cache, user: User, now: U64, order: seq<User>)
    requires forall u :: u in order ==> u in c.entries
    ensures HasRoom(s, c, user, order) <==>
            user in c.entries || |c.entries| < s.maxEntries || EvictOne(c, now, order).1
  {
    VictimIs(c.entries, Sampled(order), now);
    assert forall i :: 0 <= i < |order| && i < 16 ==> Sampled(order)[i] == order[i] && order[i] in Sampled(order);
    assert forall u :: u in Sampled(order) ==> exists i :: 0 <= i < |order| && i < 16 && order[i] == u;
  }

  /** A miss is a job queued or a job refused; a rejection is a refusal or a full table. */
  lemma LookupCounts(s: Settings, c: Cache, user: User, policy: Policy, now: U64, order: seq<User>)
    requires forall u :: u in order ==> u in c.entries
    ensures var (r, c') := LookupWith(s, c, user, policy, now, order);
            var queued := if r.Pending? && r.waiter.started then 1 else 0;
            var refused := if Refused(s, c, user, policy, now, order) then 1 else 0;
            var crowded := if Crowded(s, c, user, policy, now, order) then 1 else 0;
            && |c'.queue| == |c.queue| + queued
            && c'.stats.misses == c.stats.misses + queued + refused
            && c'.stats.rejected == c.stats.rejected + refused + crowded
            && c'.open == c.open && (!c.open ==> c'.queue == c.queue)
            && (queued == 1 ==> |c'.queue| <= Max(s.queueDepth, 1))
  {
    RoomIsMade(s, c, user, now, order);
  }

  lemma AskKeeps(s: Settings, w: World, user: User, policy: Policy, now: U64, order: seq<User>)
    requires Inv(s, w) && Enabled(w, Ask(user, policy, now, order))
    ensures Inv(s, Step(s, w, Ask(user, policy, now, order)))
  {
    LookupKeeps(s, w.cache, user, policy, now, order, w.taken + w.lost, w.waiters, w.last);
    LookupCounts(s, w.cache, user, policy, now, order);
  }

  // ----- completions

  lemma JobsWithout(jobs: seq<User>, i: nat)
    requires Distinct(jobs) && i < |jobs|
    ensures Distinct(Without(jobs, i))
    ensures forall u :: u in Without(jobs, i) <==> u in jobs && u != jobs[i]
  {
    var rest := Without(jobs, i);
    forall u
      ensures u in rest <==> u in jobs && u != jobs[i]
    {
      if u in jobs && u != jobs[i] {
        var k :| 0 <= k < |jobs| && jobs[k] == u;
        assert rest[if k < i then k else k - 1] == u;
      }
      if u in rest {
        var k :| 0 <= k < |rest| && rest[k] == u;
        assert u == jobs[if k < i then k else k + 1];
      }
    }
  }

  /** A completion always finds its slot, and the slot is in flight. */
  lemma CompletionFindsItsSlot(s: Settings, w: World, i: nat)
    requires Inv(s, w) && i < |w.taken|
    ensures w.taken[i] in w.cache.entries && w.cache.entries[w.taken[i]].state.InFlight?
  {
    assert w.taken[i] == Unfinished(w)[i];
    assert w.taken[i] in Unfinished(w);
  }

  lemma CompleteWaiters(s: Settings, c: Cache, user: User, o: FetchOutcome, now: U64, waiters: set<Waiter>)
    requires WaitersServed(c, waiters) && user in c.entries && c.entries[user].state.InFlight?
    ensures WaitersServed(Complete(s, c, user, o, now), waiters)
  {
  }

  lemma CompleteKeeps(s: Settings, c: Cache, jobs: seq<User>, i: nat, waiters: set<Waiter>, last: map<User, Completion>,
                      o: FetchOutcome, now: U64)
    requires CacheInv(s, c, jobs, waiters, last) && i < |jobs|
    ensures jobs[i] in c.entries && c.entries[jobs[i]].state.InFlight?
    ensures CacheInv(s, Complete(s, c, jobs[i], o, now), Without(jobs, i), waiters, last[jobs[i] := Completion(now, o)])
  {
    var user := jobs[i];
    assert user in jobs;
    CompleteWaiters(s, c, user, o, now, waiters);
    CompleteJobs(c.entries, jobs, i, SlotFor(s, o, now));
    CompleteLatest(s, c.entries, last, user, o, now);
    assert c.entries[user := SlotFor(s, o, now)].Keys == c.entries.Keys;
  }

  lemma CompleteLatest(s: Settings, entries: map<User, Slot>, last: map<User, Completion>, user: User,
                       o: FetchOutcome, now: U64)
    requires HoldsLatest(s, entries, last)
    ensures HoldsLatest(s, entries[user := SlotFor(s, o, now)], last[user := Completion(now, o)])
  {
  }

  lemma CompleteJobs(entries: map<User, Slot>, jobs: seq<User>, i: nat, slot: Slot)
    requires JobsMatch(entries, jobs) && i < |jobs| && !slot.state.InFlight?
    ensures JobsMatch(entries[jobs[i] := slot], Without(jobs, i))
  {
    JobsWithout(jobs, i);
  }

  lemma DoneKeeps(s: Settings, w: World, i: nat, o: FetchOutcome, now: U64)
    requires Inv(s, w) && Enabled(w, Done(i, o, now))
    ensures Inv(s, Step(s, w, Done(i, o, now)))
  {
    WithoutTaken(w.taken, w.lost, i);
    WithoutTaken(w.taken + w.lost, w.cache.queue, i);
    CompleteKeeps(s, w.cache, Unfinished(w), i, w.waiters, w.last, o, now);
    assert Unfinished(Step(s, w, Done(i, o, now))) == Without(Unfinished(w), i);
  }

  lemma WithoutTaken(taken: seq<User>, queue: seq<User>, i: nat)
    requires i < |taken|
    ensures (taken + queue)[i] == taken[i]
    ensures Without(taken + queue, i) == Without(taken, i) + queue
  {
  }

  lemma SweepKeeps(s: Settings, c: Cache, jobs: seq<User>, waiters: set<Waiter>, last: map<User, Completion>, now: U64)
    requires CacheInv(s, c, jobs, waiters, last)
    ensures CacheInv(s, Sweep(c, now), jobs, waiters, last)
  {
    var c' := Sweep(c, now);
    assert c'.entries.Keys <= c.entries.Keys;
    SubsetSize(c'.entries.Keys, c.entries.Keys);
  }

  lemma SubsetSize<T>(a: set<T>, b: set<T>)
    requires a <= b
    ensures |a| <= |b|
  {
    assert b == a + (b - a);
  }

  lemma StepKeeps(s: Settings, w: World, ev: Event)
    requires Inv(s, w) && Enabled(w, ev)
    ensures Inv(s, Step(s, w, ev))
  {
    match ev {
      case Ask(user, policy, now, order) => AskKeeps(s, w, user, policy, now, order);
      case Take =>
        if w.cache.queue != [] {
          assert Unfinished(Step(s, w, ev)) == Unfinished(w);
        }
      case Done(i, o, now) => DoneKeeps(s, w, i, o, now);
      case Tidy(now) => SweepKeeps(s, w.cache, Unfinished(w), w.waiters, w.last, now);
      case FetcherGone =>
        assert Unfinished(Step(s, w, ev)) == Unfinished(w);
    }
  }

  // ----- whole runs

  ghost predicate EnabledRun(s: Settings, w: World, evs: seq<Event>)
    decreases evs
  {
    evs == [] || (Enabled(w, evs[0]) && EnabledRun(s, Step(s, w, evs[0]), evs[1..]))
  }

  ghost function Run(s: Settings, w: World, evs: seq<Event>): World
    requires EnabledRun(s, w, evs)
    decreases evs
  {
    if evs == [] then w else Run(s, Step(s, w, evs[0]), evs[1..])
  }

  /** In every reachable state: one job per in-flight user, the size bound, served waiters, latest answers, tallies. */
  lemma {:induction false} RunsKeepInv(s: Settings, w: World, evs: seq<Event>)
    requires Inv(s, w) && EnabledRun(s, w, evs)
    ensures Inv(s, Run(s, w, evs))
    decreases evs
  {
    if evs != [] {
      StepKeeps(s, w, evs[0]);
      RunsKeepInv(s, Step(s, w, evs[0]), evs[1..]);
    }
  }

  /**
   From an empty cache, whatever is asked, completed, swept, refused or lost: the table is bounded; a
   job is in flight exactly once, and the in-flight users are those with an outstanding job exactly
   when none was lost; every waiter's fetch is unfinished or its channel has been released; and the
   counters tally.
   */
  lemma ReachableStates(s: Settings, evs: seq<Event>)
    requires EnabledRun(s, Fresh(), evs)
    ensures InOrder(s, Run(s, Fresh(), evs))
  {
    FreshInv(s);
    RunsKeepInv(s, Fresh(), evs);
    InvMeansInOrder(s, Run(s, Fresh(), evs));
  }

  predicate Flying(w: World, u: User) {
    u in w.cache.entries && w.cache.entries[u].state.InFlight?
  }

  ghost predicate InOrder(s: Settings, w: World) {
    && |w.cache.entries| <= s.maxEntries && |w.cache.queue| <= Max(s.queueDepth, 1)
    && Distinct(Jobs(w))
    && (forall u :: u in Jobs(w) ==> Flying(w, u))
    && ((forall u :: Flying(w, u) ==> u in Jobs(w)) <==> w.lost == [])
    && (forall u :: Flying(w, u) ==> u in Jobs(w) || u in w.lost)
    && (forall x :: x in w.waiters ==> x.chan in w.cache.released || Flying(w, x.user))
    && w.started == w.enqueued == w.cache.stats.misses - w.refusals
    && w.cache.stats.rejected == w.refusals + w.crowded
    && w.enqueued == |w.cache.queue| + |w.taken| + |w.lost| + w.completed
  }

  lemma UnfinishedParts(w: World, u: User)
    ensures u in Unfinished(w) <==> u in Jobs(w) || u in w.lost
  {
  }

  lemma JobsAreDistinct(w: World)
    requires Distinct(Unfinished(w)) && GoneOrNot(w)
    ensures Distinct(Jobs(w)) && forall u :: u in w.lost ==> u !in Jobs(w)
  {
    var all := Unfinished(w);
    if w.lost == [] {
      assert all == Jobs(w);
    } else {
      assert Jobs(w) == w.taken;
      assert forall i :: 0 <= i < |w.taken| ==> all[i] == w.taken[i];
      assert forall i :: 0 <= i < |w.lost| ==> all[|w.taken| + i] == w.lost[i];
    }
  }

  lemma InvMeansInOrder(s: Settings, w: World)
    requires Inv(s, w)
    ensures InOrder(s, w)
  {
    JobsAreDistinct(w);
    forall u
      ensures Flying(w, u) <==> u in Jobs(w) || u in w.lost
    {
      UnfinishedParts(w, u);
    }
    if w.lost != [] {
      assert w.lost[0] in w.lost;
    }
  }

  // ----- lost jobs

  /** A user whose job was lost with the fetcher stays in flight, on the same channel, which is never released. */
  ghost predicate Stranded(w: World, u: User, chan: nat) {
    u in w.lost && u in w.cache.entries && w.cache.entries[u].state == InFlight(chan) && chan !in w.cache.released
  }

  lemma LostIsStranded(s: Settings, w: World, u: User)
    requires Inv(s, w) && u in w.lost
    ensures Flying(w, u) && Stranded(w, u, w.cache.entries[u].state.chan)
  {
    UnfinishedParts(w, u);
  }

  lemma AskKeepsChannel(s: Settings, w: World, user: User, policy: Policy, now: U64, order: seq<User>, u: User,
                        chan: nat)
    requires Stranded(w, u, chan) && forall x :: x in order ==> x in w.cache.entries
    ensures var c := LookupWith(s, w.cache, user, policy, now, order).1;
            u in c.entries ==> c.entries[u].state == InFlight(chan)
  {
    if user == u {
      StrandedIsPending(s, w, u, chan, policy, now, order);
    } else {
      LookupKeepsOthers(s, w.cache, user, policy, now, order, u);
    }
  }

  lemma StepKeepsStranded(s: Settings, w: World, ev: Event, u: User, chan: nat)
    requires Inv(s, w) && Enabled(w, ev) && Stranded(w, u, chan)
    ensures Stranded(Step(s, w, ev), u, chan)
  {
    var next := Step(s, w, ev);
    StepKeeps(s, w, ev);
    assert u in next.lost;
    LostIsStranded(s, next, u);
    match ev {
      case Ask(user, policy, now, order) => AskKeepsChannel(s, w, user, policy, now, order, u, chan);
      case Done(i, o, now) =>
        JobsAreDistinct(w);
        assert w.taken[i] in Jobs(w);
      case _ =>
    }
  }

  /** Any lookup that may fetch joins the lost one; no new job is queued. */
  lemma StrandedIsPending(s: Settings, w: World, u: User, chan: nat, policy: Policy, now: U64, order: seq<User>)
    requires Stranded(w, u, chan) && forall x :: x in order ==> x in w.cache.entries
    ensures var (r, c) := LookupWith(s, w.cache, u, policy, now, order);
            && c == w.cache.(stats := c.stats)
            && (!policy.Never? && ValidName(u) ==> r == Pending(Waiter(u, chan, false)))
  {
  }

  /** In every continuation a user whose job was lost is told to wait, on a channel nobody will release. */
  lemma {:induction false} StrandedForEver(s: Settings, w: World, evs: seq<Event>, u: User, chan: nat)
    requires Inv(s, w) && EnabledRun(s, w, evs) && Stranded(w, u, chan)
    ensures Stranded(Run(s, w, evs), u, chan)
    decreases evs
  {
    if evs != [] {
      StepKeeps(s, w, evs[0]);
      StepKeepsStranded(s, w, evs[0], u, chan);
      StrandedForEver(s, Step(s, w, evs[0]), evs[1..], u, chan);
    }
  }

  /** What an event adds to the record of a run: who was told to wait, which jobs moved, what completed, the time. */
  lemma StepIsNoted(s: Settings, w: World, ev: Event)
    requires Enabled(w, ev)
    ensures var n := Step(s, w, ev);
            && n.clock == Time(w, ev) && w.waiters <= n.waiters
            && (ev.Ask? ==>
                  var r := LookupWith(s, w.cache, ev.user, ev.policy, ev.now, ev.order).0;
                  n.taken == w.taken && n.last == w.last && (r.Pending? ==> r.waiter in n.waiters))
            && (ev.Take? ==> n.taken + n.cache.queue == w.taken + w.cache.queue
                             && (w.cache.queue != [] ==> |n.taken| == |w.taken| + 1))
            && (ev.Done? ==> w.taken[ev.i] in n.last && n.last[w.taken[ev.i]] == Completion(ev.now, ev.outcome)
                             && |n.taken| == |w.taken| - 1)
            && (ev.Tidy? ==> forall u :: u in n.cache.entries ==>
                  n.cache.entries[u].state.InFlight? || ev.now < n.cache.entries[u].expires)
  {
    if ev.Take? && w.cache.queue != [] {
      assert w.cache.queue == [w.cache.queue[0]] + w.cache.queue[1..];
    }
  }

  lemma {:induction false} WaitersAreRemembered(s: Settings, w: World, evs: seq<Event>)
    requires EnabledRun(s, w, evs)
    ensures w.waiters <= Run(s, w, evs).waiters
    decreases evs
  {
    if evs != [] {
      StepIsNoted(s, w, evs[0]);
      WaitersAreRemembered(s, Step(s, w, evs[0]), evs[1..]);
    }
  }

  /** The waiter has been woken, or its user's job is unfinished or lost and the table still has its channel. */
  predicate Served(w: World, x: Waiter) {
    || x.chan in w.cache.released
    || (&& x.user in w.cache.entries && w.cache.entries[x.user].state == InFlight(x.chan)
        && (x.user in Jobs(w) || x.user in w.lost))
  }

  lemma RememberedIsServed(s: Settings, w: World, x: Waiter)
    requires Inv(s, w) && x in w.waiters
    ensures Served(w, x)
  {
    UnfinishedParts(w, x.user);
  }

  lemma WaitsForItsUser(s: Settings, c: Cache, user: User, policy: Policy, now: U64, order: seq<User>)
    requires forall u :: u in order ==> u in c.entries
    ensures var r := LookupWith(s, c, user, policy, now, order).0;
            r.Pending? ==> r.waiter.user == user
  {
  }

  /** Whoever is told to wait is served, as that user, in every later state. */
  lemma WhoWaitsIsServed(s: Settings, w: World, ask: Event, evs: seq<Event>)
    requires Inv(s, w) && ask.Ask? && Enabled(w, ask) && EnabledRun(s, Step(s, w, ask), evs)
    ensures var r := LookupWith(s, w.cache, ask.user, ask.policy, ask.now, ask.order).0;
            r.Pending? ==> r.waiter.user == ask.user && Served(Run(s, Step(s, w, ask), evs), r.waiter)
  {
    var r := LookupWith(s, w.cache, ask.user, ask.policy, ask.now, ask.order).0;
    var next := Step(s, w, ask);
    WaitsForItsUser(s, w.cache, ask.user, ask.policy, ask.now, ask.order);
    StepIsNoted(s, w, ask);
    StepKeeps(s, w, ask);
    if r.Pending? {
      ServedLater(s, next, evs, r.waiter);
    }
  }

  lemma ServedLater(s: Settings, w: World, evs: seq<Event>, x: Waiter)
    requires Inv(s, w) && EnabledRun(s, w, evs) && x in w.waiters
    ensures Served(Run(s, w, evs), x)
  {
    WaitersAreRemembered(s, w, evs);
    RunsKeepInv(s, w, evs);
    RememberedIsServed(s, Run(s, w, evs), x);
  }

  /** One lookup and a fetcher that goes away before taking the job are enough. */
  lemma QueuedJobIsLost(s: Settings, u: User, now: U64)
    requires ValidName(u) && s.maxEntries > 0
    ensures var ask := Ask(u, Always, now, []);
            && Enabled(Fresh(), ask) && Enabled(Step(s, Fresh(), ask), FetcherGone)
            && Step(s, Step(s, Fresh(), ask), FetcherGone).lost == [u]
  {
    var none: seq<User> := [];
    assert none + [u] == [u];
  }

  // ----- the cache as "last answer with an expiry"

  predicate ValidName(user: User) {
    1 <= |user| <= 512
  }

  /**
   A positive answer is the user's latest completion, verbatim, and is given only while that holds: for the
   first second, or until the endpoint's hint or the positive lifetime is over.
   */
  lemma HitIsLatestCompletion(s: Settings, w: World, user: User, policy: Policy, now: U64, order: seq<User>)
    requires Inv(s, w) && Enabled(w, Ask(user, policy, now, order))
    requires LookupWith(s, w.cache, user, policy, now, order).0.Hit?
    ensures user in w.last && w.last[user].outcome.Found?
    ensures var done := w.last[user];
            && LookupWith(s, w.cache, user, policy, now, order).0.keys == done.outcome.keys
            && Within(s, done.outcome, done.at, now)
  {
    var slot := w.cache.entries[user];
    assert slot == SlotFor(s, w.last[user].outcome, w.last[user].at);
    ModBelow(Ttl(s, w.last[user].outcome));
    WithinIff(s, w.last[user].outcome, w.last[user].at, now);
  }

  /** A lookup that may fetch says "no such user" for a usable name only on a latest, unexpired 404. */
  lemma NoUserIsLatestCompletion(s: Settings, w: World, user: User, policy: Policy, now: U64, order: seq<User>)
    requires Inv(s, w) && Enabled(w, Ask(user, policy, now, order))
    requires !policy.Never? && ValidName(user)
    requires LookupWith(s, w.cache, user, policy, now, order).0.NoUser?
    ensures user in w.last && w.last[user].outcome.NotFound?
    ensures Within(s, w.last[user].outcome, w.last[user].at, now)
  {
    var slot := w.cache.entries[user];
    assert slot == SlotFor(s, w.last[user].outcome, w.last[user].at);
    ModBelow(Ttl(s, w.last[user].outcome));
    WithinIff(s, w.last[user].outcome, w.last[user].at, now);
  }

  lemma ModBelow(ttl: nat)
    ensures ttl % (U64_MAX + 1) <= ttl
  {
  }

  /** A lookup says "unavailable" without being refused only on a latest, unexpired failure. */
  lemma UnavailableIsLatestCompletion(s: Settings, w: World, user: User, policy: Policy, now: U64, order: seq<User>)
    requires Inv(s, w) && Enabled(w, Ask(user, policy, now, order))
    requires var (r, c) := LookupWith(s, w.cache, user, policy, now, order);
             r.Unavailable? && c.stats.rejected == w.cache.stats.rejected
    ensures user in w.last && w.last[user].outcome.Failed?
    ensures Within(s, w.last[user].outcome, w.last[user].at, now)
  {
    var slot := w.cache.entries[user];
    assert slot == SlotFor(s, w.last[user].outcome, w.last[user].at);
    ModBelow(Ttl(s, w.last[user].outcome));
    WithinIff(s, w.last[user].outcome, w.last[user].at, now);
  }

  /** The stored expiry is the promised one exactly when the TTL fits in 64 bits or the clock saturates anyway. */
  lemma ExpiryExactIff(now: U64, ttl: nat)
    ensures Expiry(now, ttl) == Min(now + ttl, U64_MAX) <==> ttl <= U64_MAX || now + ttl % (U64_MAX + 1) >= U64_MAX
  {
    if ttl > U64_MAX {
      assert ttl % (U64_MAX + 1) < ttl;
    }
  }

  predicate Settled(c: Cache, u: User, slot: Slot) {
    u in c.entries && c.entries[u] == slot && !slot.state.InFlight?
  }

  /** While an answer is unexpired, lookups get it and start nothing. */
  lemma FreshAnswers(s: Settings, w: World, u: User, slot: Slot, policy: Policy, now: U64, order: seq<User>)
    requires Settled(w.cache, u, slot) && now < slot.expires && ValidName(u)
    requires forall x :: x in order ==> x in w.cache.entries
    ensures LookupWith(s, w.cache, u, policy, now, order).0 == Reply(u, slot.state)
    ensures LookupWith(s, w.cache, u, policy, now, order).1 == w.cache.(stats := Count(w.cache.stats, slot.state))
  {
  }

  lemma LookupKeepsOthers(s: Settings, c: Cache, user: User, policy: Policy, now: U64, order: seq<User>, u: User)
    requires forall x :: x in order ==> x in c.entries
    requires u != user && u in c.entries
    ensures var c' := LookupWith(s, c, user, policy, now, order).1;
            u in c'.entries ==> c'.entries[u] == c.entries[u]
  {
  }

  /** Nothing but eviction takes an unexpired answer out of the table or changes it. */
  lemma FreshStays(s: Settings, w: World, ev: Event, u: User, slot: Slot)
    requires Inv(s, w) && Enabled(w, ev)
    requires Settled(w.cache, u, slot) && Time(w, ev) < slot.expires && ValidName(u)
    ensures var c' := Step(s, w, ev).cache;
            Settled(c', u, slot) || (ev.Ask? && ev.user != u && u !in c'.entries)
  {
    match ev {
      case Ask(user, policy, now, order) =>
        if user == u {
          FreshAnswers(s, w, u, slot, policy, now, order);
        } else {
          LookupKeepsOthers(s, w.cache, user, policy, now, order, u);
        }
      case Done(i, o, now) =>
        CompletionFindsItsSlot(s, w, i);
      case _ =>
    }
  }

  /** At every state of the run the entry is in the table, and every event falls before `until`. */
  ghost predicate KeptUntil(s: Settings, w: World, evs: seq<Event>, u: User, until: U64)
    decreases evs
  {
    u in w.cache.entries &&
    (evs == [] || (
       && Enabled(w, evs[0]) && Time(w, evs[0]) < until
       && KeptUntil(s, Step(s, w, evs[0]), evs[1..], u, until)))
  }

  lemma {:induction false} FreshOverRuns(s: Settings, w: World, evs: seq<Event>, u: User, slot: Slot)
    requires Inv(s, w) && EnabledRun(s, w, evs)
    requires Settled(w.cache, u, slot) && ValidName(u) && KeptUntil(s, w, evs, u, slot.expires)
    ensures Settled(Run(s, w, evs).cache, u, slot) && u !in Unfinished(Run(s, w, evs))
    decreases evs
  {
    if evs != [] {
      FreshStays(s, w, evs[0], u, slot);
      StepKeeps(s, w, evs[0]);
      FreshOverRuns(s, Step(s, w, evs[0]), evs[1..], u, slot);
    }
  }

  /**
   Until the expiry stored with a completion, unless it is evicted: the user is answered with it, no
   new job for the user is queued, and nothing else changes. That expiry is the promised one, at least
   a second away, whenever the lifetime fits in 64 bits.
   */
  lemma AnsweredUntilExpiry(s: Settings, w: World, i: nat, o: FetchOutcome, at: U64, evs: seq<Event>,
                            policy: Policy, now: U64, order: seq<User>)
    requires Inv(s, w) && Enabled(w, Done(i, o, at)) && ValidName(w.taken[i])
    requires var w1 := Step(s, w, Done(i, o, at));
             && EnabledRun(s, w1, evs)
             && KeptUntil(s, w1, evs, w.taken[i], Expiry(at, Ttl(s, o)))
             && Enumerates(order, Run(s, w1, evs).cache.entries)
    requires now < Expiry(at, Ttl(s, o))
    ensures Ttl(s, o) <= U64_MAX ==> Expiry(at, Ttl(s, o)) == Min(at + Ttl(s, o), U64_MAX) && Ttl(s, o) >= MIN_TTL
    ensures var w2 := Run(s, Step(s, w, Done(i, o, at)), evs);
            && w.taken[i] !in Unfinished(w2)
            && LookupWith(s, w2.cache, w.taken[i], policy, now, order).0 == Reply(w.taken[i], Stored(o))
            && LookupWith(s, w2.cache, w.taken[i], policy, now, order).1.queue == w2.cache.queue
  {
    var u := w.taken[i];
    var slot := SlotFor(s, o, at);
    ExpiryExactIff(at, Ttl(s, o));
    CompletionFindsItsSlot(s, w, i);
    StepKeeps(s, w, Done(i, o, at));
    var w1 := Step(s, w, Done(i, o, at));
    FreshOverRuns(s, w1, evs, u, slot);
    FreshAnswers(s, Run(s, w1, evs), u, slot, policy, now, order);
  }

  /** At every state of the run the entry is in the table, and every event falls while the answer holds. */
  ghost predicate KeptWithin(s: Settings, w: World, evs: seq<Event>, u: User, o: FetchOutcome, at: U64)
    decreases evs
  {
    u in w.cache.entries &&
    (evs == [] || (
       && Enabled(w, evs[0]) && Within(s, o, at, Time(w, evs[0]))
       && KeptWithin(s, Step(s, w, evs[0]), evs[1..], u, o, at)))
  }

  lemma {:induction false} KeptWithinIsKept(s: Settings, w: World, evs: seq<Event>, u: User, o: FetchOutcome, at: U64)
    requires KeptWithin(s, w, evs, u, o, at) && !Within(s, o, at, U64_MAX)
    ensures EnabledRun(s, w, evs) && KeptUntil(s, w, evs, u, Expiry(at, Ttl(s, o)))
    decreases evs
  {
    if evs != [] {
      StoredWhileWithin(s, o, at, Time(w, evs[0]));
      KeptWithinIsKept(s, Step(s, w, evs[0]), evs[1..], u, o, at);
    }
  }

  lemma CompletedIsSettled(s: Settings, w: World, i: nat, o: FetchOutcome, at: U64, evs: seq<Event>)
    requires Inv(s, w) && Enabled(w, Done(i, o, at)) && ValidName(w.taken[i])
    requires !Within(s, o, at, U64_MAX)
    requires KeptWithin(s, Step(s, w, Done(i, o, at)), evs, w.taken[i], o, at)
    ensures var w1 := Step(s, w, Done(i, o, at));
            && EnabledRun(s, w1, evs)
            && Settled(Run(s, w1, evs).cache, w.taken[i], SlotFor(s, o, at))
            && w.taken[i] !in Unfinished(Run(s, w1, evs))
  {
    var w1 := Step(s, w, Done(i, o, at));
    CompletionFindsItsSlot(s, w, i);
    StepKeeps(s, w, Done(i, o, at));
    KeptWithinIsKept(s, w1, evs, w.taken[i], o, at);
    FreshOverRuns(s, w1, evs, w.taken[i], SlotFor(s, o, at));
  }

  /**
   After a completion, and as long as it is neither evicted nor outlived: a lookup, whatever its policy, is
   answered with it exactly while it holds, and then touches nothing but a counter. From then on a lookup
   starts a new fetch if the queue takes it, and one that may not fetch is told there is no such user.
   */
  lemma AnsweredExactlyWithin(s: Settings, w: World, i: nat, o: FetchOutcome, at: U64, evs: seq<Event>,
                              policy: Policy, now: U64, order: seq<User>)
    requires Inv(s, w) && Enabled(w, Done(i, o, at)) && ValidName(w.taken[i])
    requires !Within(s, o, at, U64_MAX)
    requires KeptWithin(s, Step(s, w, Done(i, o, at)), evs, w.taken[i], o, at)
    ensures EnabledRun(s, Step(s, w, Done(i, o, at)), evs)
    ensures var u, c := w.taken[i], Run(s, Step(s, w, Done(i, o, at)), evs).cache;
            (forall x :: x in order ==> x in c.entries) ==>
              var (r, c') := LookupWith(s, c, u, policy, now, order);
              if Within(s, o, at, now) then Tells(o, r) && c' == c.(stats := c'.stats)
              else if policy.Never? then r == NoUser && c' == c
              else if policy == Admit(false) then r == Throttled && c'.queue == c.queue
              else if c.open && (c.queue == [] || |c.queue| < s.queueDepth) then
                r.Pending? && r.waiter.started && c'.queue == c.queue + [u]
              else r == Unavailable && c'.queue == c.queue && u !in c'.entries
  {
    CompletedIsSettled(s, w, i, o, at, evs);
    StoredWhileWithin(s, o, at, now);
  }

  /** A sweep takes exactly the settled answers that are over, and no lookup from then on can tell. */
  lemma SweepIsInvisible(s: Settings, c: Cache, at: U64, u: User, policy: Policy, now: U64, order: seq<User>)
    requires at <= now && ValidName(u) && forall x :: x in order ==> x in Sweep(c, at).entries
    ensures var swept := Sweep(c, at);
            && swept == c.(entries := swept.entries)
            && (u in swept.entries <==> u in c.entries && (c.entries[u].state.InFlight? || at < c.entries[u].expires))
            && (u in swept.entries ==> swept.entries[u] == c.entries[u])
            && (Answers(swept, u, now) <==> Answers(c, u, now))
            && (Answers(c, u, now) ==>
                  LookupWith(s, swept, u, policy, now, order).0 == LookupWith(s, c, u, policy, now, []).0)
  {
  }

  // ----- every lookup is counted once

  function Counted(st: Stats): nat {
    st.hits + st.negativeHits + st.errorHits + st.coalesced + st.rejected + st.throttled
  }

  function Moved(b: bool): nat {
    if b then 1 else 0
  }

  /** The table holds an answer for the user at `now`, and `state` is it. */
  predicate Holds(c: Cache, user: User, now: U64, state: State) {
    user in c.entries && c.entries[user].state == state && now < c.entries[user].expires
  }

  /**
   Which counter a lookup moves: hits count keys handed out, coalesced those told to wait for someone else's
   fetch, the negative and error hits denials and failures out of the table, throttled those without budget.
   */
  lemma CountersTell(s: Settings, c: Cache, user: User, policy: Policy, now: U64, order: seq<User>)
    requires forall u :: u in order ==> u in c.entries
    ensures var (r, c') := LookupWith(s, c, user, policy, now, order);
            var usable := policy.Never? || 1 <= |user| <= 512;
            && c'.stats.hits == c.stats.hits + Moved(r.Hit?)
            && c'.stats.coalesced == c.stats.coalesced + Moved(r.Pending? && !r.waiter.started)
            && c'.stats.throttled == c.stats.throttled + Moved(r.Throttled?)
            && c'.stats.negativeHits == c.stats.negativeHits + Moved(usable && Holds(c, user, now, Unknown))
            && c'.stats.errorHits == c.stats.errorHits + Moved(usable && Holds(c, user, now, Broken))
  {
  }

  /** `c'` has lost `v`, who was not in flight, and no other user but perhaps `user`. */
  predicate LostOne(c: Cache, c': Cache, user: User, v: User) {
    && v in c.entries && v != user && v !in c'.entries && !c.entries[v].state.InFlight?
    && forall u :: u in c.entries && u != user && u != v ==> u in c'.entries
  }

  /** Nobody but perhaps `user` has left, or one eviction is counted and it took exactly one other. */
  ghost predicate EvictsAtMostOne(c: Cache, c': Cache, user: User) {
    if c'.stats.evictions == c.stats.evictions then
      forall u :: u in c.entries && u != user ==> u in c'.entries
    else c'.stats.evictions == c.stats.evictions + 1 && exists v :: LostOne(c, c', user, v)
  }

  lemma FetchKeepsOthers(s: Settings, c: Cache, user: User)
    ensures var c' := StartFetch(s, c, user).1;
            && c'.stats.evictions == c.stats.evictions
            && forall u :: u != user ==> (u in c'.entries <==> u in c.entries)
  {
  }

  lemma RoomForOne(s: Settings, c: Cache, user: User, now: U64, order: seq<User>)
    requires (forall u :: u in order ==> u in c.entries) && user !in c.entries && EvictOne(c, now, order).1
    ensures EvictsAtMostOne(c, StartFetch(s, EvictOne(c, now, order).0, user).1, user)
  {
    VictimIs(c.entries, Sampled(order), now);
    var v := ChooseVictim(c.entries, Sampled(order), now, None).value;
    var c1 := EvictOne(c, now, order).0;
    FetchKeepsOthers(s, c1, user);
    assert LostOne(c, StartFetch(s, c1, user).1, user, v);
  }

  /** An eviction is counted exactly when some other user left the table, one at a time and never one in flight. */
  lemma EvictionsTell(s: Settings, c: Cache, user: User, policy: Policy, now: U64, order: seq<User>)
    requires forall u :: u in order ==> u in c.entries
    ensures EvictsAtMostOne(c, LookupWith(s, c, user, policy, now, order).1, user)
  {
    if !Quiet(c, user, policy, now) {
      if user !in c.entries && |c.entries| >= s.maxEntries {
        if EvictOne(c, now, order).1 {
          RoomForOne(s, c, user, now, order);
        }
      } else {
        FetchKeepsOthers(s, c, user);
      }
    }
  }

  /** A lookup that must not fetch tells what the table holds, and otherwise that there is no such user. */
  lemma PeekTells(s: Settings, c: Cache, user: User, now: U64, order: seq<User>)
    requires forall u :: u in order ==> u in c.entries
    ensures var (r, c') := LookupWith(s, c, user, Never, now, order);
            && c' == c.(stats := c'.stats) && !r.Pending? && !r.Throttled?
            && (r.Hit? <==> user in c.entries && c.entries[user].state.Known? && now < c.entries[user].expires)
            && (r.Hit? ==> Holds(c, user, now, Known(r.keys)))
            && (r.Unavailable? <==> Holds(c, user, now, Broken))
  {
  }

  /** A name that is empty or too long is told there is no such user, and nothing is fetched or counted. */
  lemma UnusableNames(s: Settings, c: Cache, user: User, policy: Policy, now: U64, order: seq<User>)
    requires forall u :: u in order ==> u in c.entries
    requires !policy.Never? && (|user| == 0 || |user| > 512)
    ensures LookupWith(s, c, user, policy, now, order) == (NoUser, c)
  {
  }

  /** Without budget nothing is fetched, and the lookup says so exactly when it would have had to. */
  lemma ThrottledIff(s: Settings, c: Cache, user: User, policy: Policy, now: U64, order: seq<User>)
    requires (forall u :: u in order ==> u in c.entries) && ValidName(user)
    ensures LookupWith(s, c, user, policy, now, order).0.Throttled? <==>
            && policy == Admit(false)
            && !(user in c.entries && (c.entries[user].state.InFlight? || now < c.entries[user].expires))
  {
  }

  /** A lookup of a usable name that may fetch moves exactly one counter, or queues one job. */
  lemma LookupCountedOnce(s: Settings, c: Cache, user: User, policy: Policy, now: U64, order: seq<User>)
    requires forall u :: u in order ==> u in c.entries
    requires !policy.Never? && ValidName(user)
    ensures var (r, c') := LookupWith(s, c, user, policy, now, order);
            Counted(c'.stats) + (if r.Pending? && r.waiter.started then 1 else 0) == Counted(c.stats) + 1
  {
  }
}
