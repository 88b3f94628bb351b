/**
 The credential cache in front of the operator's signalling service: a bounded table of
 answers with expiries, one in-flight fetch per user, and a bounded job queue. Each call is
 one atomic step; the iteration order of the table is an input. Times are milliseconds.
 */
module WebhookCache {
  import opened Binary
  import opened Wrappers
  import opened Sequences

  const MAX_USERNAME_BYTES: nat := 513
  const MIN_TTL: nat := 1000
  const SAMPLE: nat := 16

  type User = Bytes

  datatype UserKeys = UserKeys(md5: Bytes, sha256: Bytes)

  datatype FetchOutcome = Found(keys: UserKeys, ttl: Option<nat>) | NotFound | Failed

  datatype State = Known(keys: UserKeys) | Unknown | Broken | InFlight(chan: nat)

  datatype Slot = Slot(state: State, expires: U64)

  datatype Settings = Settings(positiveTtl: nat, negativeTtl: nat, errorTtl: nat, maxEntries: nat, queueDepth: nat)

  /** `chan` names the completion channel; `started` marks the request that began the fetch. */
  datatype Waiter = Waiter(user: User, chan: nat, started: bool)

  datatype Lookup = Hit(keys: UserKeys) | NoUser | Unavailable | Pending(waiter: Waiter) | Throttled

  /** Whether a miss may start a fetch; `Admit` carries the caller's verdict. */
  datatype Policy = Never | Always | Admit(allowed: bool)

  datatype Stats = Stats(hits: nat, negativeHits: nat, errorHits: nat, misses: nat, coalesced: nat,
                         rejected: nat, evictions: nat, throttled: nat)

  /** `released` holds the channels whose waiters have been woken. */
  datatype Cache = Cache(entries: map<User, Slot>, queue: seq<User>, open: bool,
                         nextChan: nat, released: set<nat>, stats: Stats)

  // ----- consulting

  function Count(s: Stats, st: State): Stats {
    match st
    case InFlight(_) => s.(coalesced := s.coalesced + 1)
    case Known(_) => s.(hits := s.hits + 1)
    case Unknown => s.(negativeHits := s.negativeHits + 1)
    case Broken => s.(errorHits := s.errorHits + 1)
  }

  function Reply(user: User, st: State): Lookup {
    match st
    case InFlight(chan) => Pending(Waiter(user, chan, false))
    case Known(keys) => Hit(keys)
    case Unknown => NoUser
    case Broken => Unavailable
  }

  /** An in-flight or unexpired entry can answer. */
  predicate Answers(c: Cache, user: User, now: U64) {
    user in c.entries && (c.entries[user].state.InFlight? || now < c.entries[user].expires)
  }

  function Answer(c: Cache, user: User, now: U64): (Lookup, Cache)
    requires Answers(c, user, now)
  {
    var st := c.entries[user].state;
    (Reply(user, st), c.(stats := Count(c.stats, st)))
  }

  /** Reads the cache only: a miss or an in-flight entry reads as "no such user". */
  function Peek(c: Cache, user: User, now: U64): (Lookup, Cache) {
    if Answers(c, user, now) && !c.entries[user].state.InFlight? then Answer(c, user, now) else (NoUser, c)
  }

  // ----- making room

  /** The entry the scan settles on: it stops at the first expired one, else keeps the soonest to expire. */
  function ChooseVictim(entries: map<User, Slot>, sample: seq<User>, now: U64, best: Option<User>): Option<User>
    requires forall u :: u in sample ==> u in entries
    requires best.Some? ==> best.value in entries
  {
    if sample == [] then best else
      var u := sample[0];
      if entries[u].state.InFlight? then ChooseVictim(entries, sample[1..], now, best)
      else
        var best' := if best.None? || entries[u].expires < entries[best.value].expires then Some(u) else best;
        if entries[u].expires <= now then best' else ChooseVictim(entries, sample[1..], now, best')
  }

  function Sampled(order: seq<User>): seq<User> {
    order[..Min(SAMPLE, |order|)]
  }

  /** `order` enumerates the table. */
  ghost predicate Enumerates(order: seq<User>, entries: map<User, Slot>) {
    Distinct(order) && forall u :: u in order <==> u in entries
  }

  function EvictOne(c: Cache, now: U64, order: seq<User>): (Cache, bool)
    requires forall u :: u in order ==> u in c.entries
  {
    match ChooseVictim(c.entries, Sampled(order), now, None)
    case None => (c, false)
    case Some(v) => (c.(entries := c.entries - {v}, stats := c.stats.(evictions := c.stats.evictions + 1)), true)
  }

  // ----- looking up

  predicate CanSend(s: Settings, c: Cache) {
    c.open && |c.queue| < Max(s.queueDepth, 1)
  }

  /** Marks the user in flight and queues the job; a refused job takes the mark back and wakes its waiters. */
  function StartFetch(s: Settings, c: Cache, user: User): (Lookup, Cache) {
    var chan := c.nextChan;
    var stale := if user in c.entries then c.entries[user].expires else 0;
    var c' := c.(nextChan := chan + 1, stats := c.stats.(misses := c.stats.misses + 1));
    if CanSend(s, c) then
      (Pending(Waiter(user, chan, true)),
       c'.(entries := c.entries[user := Slot(InFlight(chan), stale)], queue := c.queue + [user]))
    else
      (Unavailable,
       c'.(entries := c.entries - {user}, released := c.released + {chan},
           stats := c'.stats.(rejected := c.stats.rejected + 1)))
  }

  function Miss(s: Settings, c: Cache, user: User, policy: Policy, now: U64, order: seq<User>): (Lookup, Cache)
    requires forall u :: u in order ==> u in c.entries
  {
    if policy == Admit(false) then (Throttled, c.(stats := c.stats.(throttled := c.stats.throttled + 1)))
    else if user !in c.entries && |c.entries| >= s.maxEntries then
      var (c', evicted) := EvictOne(c, now, order);
      if evicted then StartFetch(s, c', user)
      else (Unavailable, c.(stats := c.stats.(rejected := c.stats.rejected + 1)))
    else StartFetch(s, c, user)
  }

  function LookupWith(s: Settings, c: Cache, user: User, policy: Policy, now: U64, order: seq<User>): (Lookup, Cache)
    requires forall u :: u in order ==> u in c.entries
  {
    if policy.Never? then Peek(c, user, now)
    else if |user| == 0 || |user| >= MAX_USERNAME_BYTES then (NoUser, c)
    else if Answers(c, user, now) then Answer(c, user, now)
    else Miss(s, c, user, policy, now, order)
  }

  // ----- completing and sweeping

  function Stored(o: FetchOutcome): State {
    match o
    case Found(keys, _) => Known(keys)
    case NotFound => Unknown
    case Failed => Broken
  }

  /** The lifetime of an answer: the endpoint may shorten it, and it is never below a second. */
  function Ttl(s: Settings, o: FetchOutcome): nat {
    Max(MIN_TTL,
        match o
        case Found(_, hint) => if hint.Some? then Min(hint.value, s.positiveTtl) else s.positiveTtl
        case NotFound => s.negativeTtl
        case Failed => s.errorTtl)
  }

  /** Milliseconds are truncated to 64 bits before the saturating addition. */
  function Expiry(now: U64, ttl: nat): U64 {
    Min(now + ttl % (U64_MAX + 1), U64_MAX)
  }

  function SlotFor(s: Settings, o: FetchOutcome, now: U64): Slot {
    Slot(Stored(o), Expiry(now, Ttl(s, o)))
  }

  function Complete(s: Settings, c: Cache, user: User, o: FetchOutcome, now: U64): Cache {
    if user !in c.entries then c
    else
      var c' := c.(entries := c.entries[user := SlotFor(s, o, now)]);
      match c.entries[user].state
      case InFlight(chan) => c'.(released := c.released + {chan})
      case _ => c'
  }

  function Sweep(c: Cache, now: U64): Cache {
    c.(entries := map u | u in c.entries && (c.entries[u].state.InFlight? || now < c.entries[u].expires)
                    :: c.entries[u])
  }

  // ----- what the scan picks

  predicate Evictable(entries: map<User, Slot>, u: User) {
    u in entries && !entries[u].state.InFlight?
  }

  lemma {:induction false} VictimBounds(entries: map<User, Slot>, sample: seq<User>, now: U64, best: Option<User>)
    requires forall u :: u in sample ==> u in entries
    requires best.Some? ==> Evictable(entries, best.value) && now < entries[best.value].expires
    ensures var v := ChooseVictim(entries, sample, now, best);
            && (v.Some? ==> Evictable(entries, v.value) && (v.value in sample || v == best))
            && (v.None? ==> best.None? && forall u :: u in sample ==> entries[u].state.InFlight?)
            && (v.Some? && entries[v.value].expires > now ==>
                  && (best.Some? ==> entries[v.value].expires <= entries[best.value].expires)
                  && (forall u :: u in sample && Evictable(entries, u) ==>
                        now < entries[u].expires && entries[v.value].expires <= entries[u].expires))
  {
    if sample != [] {
      var u := sample[0];
      assert forall x :: x in sample <==> x == u || x in sample[1..];
      if entries[u].state.InFlight? {
        VictimBounds(entries, sample[1..], now, best);
      } else if entries[u].expires > now {
        var best' := if best.None? || entries[u].expires < entries[best.value].expires then Some(u) else best;
        VictimBounds(entries, sample[1..], now, best');
      }
    }
  }

  /**
   The victim is never in flight, is expired whenever the sample holds an expired entry, and
   otherwise expires soonest in the sample; there is none exactly when the whole sample is in flight.
   */
  lemma VictimIs(entries: map<User, Slot>, sample: seq<User>, now: U64)
    requires forall u :: u in sample ==> u in entries
    ensures var v := ChooseVictim(entries, sample, now, None);
            && (v.None? <==> forall u :: u in sample ==> entries[u].state.InFlight?)
            && (v.Some? ==> Evictable(entries, v.value) && v.value in sample)
            && (v.Some? && (exists u :: u in sample && Evictable(entries, u) && entries[u].expires <= now) ==>
                  entries[v.value].expires <= now)
            && (v.Some? && !(exists u :: u in sample && Evictable(entries, u) && entries[u].expires <= now) ==>
                  forall u :: u in sample && Evictable(entries, u) ==> entries[v.value].expires <= entries[u].expires)
  {
    VictimBounds(entries, sample, now, None);
  }

  // ----- how long an answer holds

  /**
   An answer that came in at `t0` is still good at `now`: within the first second, or within the time its kind
   of answer is kept; the endpoint can shorten that for a user it knows.
   */
  predicate Within(s: Settings, o: FetchOutcome, t0: nat, now: nat) {
    || now < t0 + 1000
    || match o
       case Found(_, None) => now < t0 + s.positiveTtl
       case Found(_, Some(hint)) => now < t0 + hint && now < t0 + s.positiveTtl
       case NotFound => now < t0 + s.negativeTtl
       case Failed => now < t0 + s.errorTtl
  }

  /** What the user is told while an answer holds. */
  predicate Tells(o: FetchOutcome, r: Lookup) {
    match o
    case Found(keys, _) => r == Hit(keys)
    case NotFound => r == NoUser
    case Failed => r == Unavailable
  }

  lemma WithinIff(s: Settings, o: FetchOutcome, t0: nat, now: nat)
    ensures Within(s, o, t0, now) <==> now < t0 + Ttl(s, o)
  {
  }

  /** An answer that does not outlast the clock is stored until exactly the time it holds. */
  lemma StoredWhileWithin(s: Settings, o: FetchOutcome, t0: U64, now: U64)
    requires !Within(s, o, t0, U64_MAX)
    ensures now < Expiry(t0, Ttl(s, o)) <==> Within(s, o, t0, now)
    ensures Expiry(t0, Ttl(s, o)) == t0 + Ttl(s, o)
  {
    WithinIff(s, o, t0, now);
    WithinIff(s, o, t0, U64_MAX);
  }

  predicate SameSlot(a: map<User, Slot>, b: map<User, Slot>, u: User) {
    (u in a <==> u in b) && (u in a ==> a[u] == b[u])
  }

  // ----- the cache as an object

  class CredentialCache {
    const settings: Settings
    var entries: map<User, Slot>
    var queue: seq<User>
    var open: bool
    var nextChan: nat
    var released: set<nat>
    var stats: Stats

    function View(): Cache
      reads this
    {
      Cache(entries, queue, open, nextChan, released, stats)
    }

    constructor (settings: Settings)
      ensures View() == Cache(map[], [], true, 0, {}, Stats(0, 0, 0, 0, 0, 0, 0, 0))
      ensures this.settings == settings
    {
      this.settings := settings;
      entries, queue, open, nextChan, released := map[], [], true, 0, {};
      stats := Stats(0, 0, 0, 0, 0, 0, 0, 0);
    }

    /** Scans at most `SAMPLE` entries and removes the one it settles on. */
    method Evict(now: U64, order: seq<User>) returns (evicted: bool)
      requires forall u :: u in order ==> u in entries
      modifies this`entries, this`stats
      ensures (View(), evicted) == EvictOne(old(View()), now, order)
    {
      var victim: Option<User> := None;
      var sample := Sampled(order);
      var i := 0;
      while i < |sample|
        invariant 0 <= i <= |sample|
        invariant victim.Some? ==> victim.value in entries
        invariant ChooseVictim(entries, sample, now, None) == ChooseVictim(entries, sample[i..], now, victim)
      {
        var u := sample[i];
        assert sample[i..][0] == u && sample[i..][1..] == sample[i + 1..];
        i := i + 1;
        if !entries[u].state.InFlight? {
          if victim.None? || entries[u].expires < entries[victim.value].expires {
            victim := Some(u);
          }
          if entries[u].expires <= now {
            break;
          }
        }
      }
      VictimIs(entries, sample, now);
      match victim {
        case Some(v) =>
          entries := entries - {v};
          stats := stats.(evictions := stats.evictions + 1);
          evicted := true;
        case None =>
          evicted := false;
      }
    }

    method Lookup(user: User, policy: Policy, now: U64, order: seq<User>) returns (r: Lookup)
      requires forall u :: u in order ==> u in entries
      modifies this
      ensures (r, View()) == LookupWith(settings, old(View()), user, policy, now, order)
    {
      if policy.Never? {
        if user in entries && !entries[user].state.InFlight? && now < entries[user].expires {
          stats := Count(stats, entries[user].state);
          return Reply(user, entries[user].state);
        }
        return NoUser;
      }
      if |user| == 0 || |user| >= MAX_USERNAME_BYTES {
        return NoUser;
      }
      if user in entries && (entries[user].state.InFlight? || now < entries[user].expires) {
        stats := Count(stats, entries[user].state);
        return Reply(user, entries[user].state);
      }
      if policy == Admit(false) {
        stats := stats.(throttled := stats.throttled + 1);
        return Throttled;
      }
      if user !in entries && |entries| >= settings.maxEntries {
        var evicted := Evict(now, order);
        if !evicted {
          stats := stats.(rejected := stats.rejected + 1);
          return Unavailable;
        }
      }
      r := Fetch(user);
    }

    method Fetch(user: User) returns (r: Lookup)
      modifies this
      ensures (r, View()) == StartFetch(settings, old(View()), user)
      ensures r.Pending? <==> old(open && (queue == [] || |queue| < settings.queueDepth))
      ensures r.Pending? ==> queue == old(queue) + [user] && user in entries
                             && entries[user].state == InFlight(r.waiter.chan) && r.waiter.started
      ensures !r.Pending? ==> r == Unavailable && user !in entries && queue == old(queue) && old(nextChan) in released
      ensures forall u :: u != user ==> SameSlot(old(entries), entries, u)
    {
      var chan := nextChan;
      nextChan := nextChan + 1;
      var expires := if user in entries then entries[user].expires else 0;
      stats := stats.(misses := stats.misses + 1);
      if !(open && |queue| < Max(settings.queueDepth, 1)) {
        entries := entries - {user};
        released := released + {chan};
        stats := stats.(rejected := stats.rejected + 1);
        return Unavailable;
      }
      entries := entries[user := Slot(InFlight(chan), expires)];
      queue := queue + [user];
      return Pending(Waiter(user, chan, true));
    }

    /** Records a fetch result and wakes its waiters. */
    method Finish(user: User, o: FetchOutcome, now: U64)
      modifies this`entries, this`released
      ensures View() == Complete(settings, old(View()), user, o, now)
      ensures forall u :: u != user ==> SameSlot(old(entries), entries, u)
      ensures user !in old(entries) ==> View() == old(View())
      ensures user in old(entries) ==>
                && user in entries && !entries[user].state.InFlight? && Tells(o, Reply(user, entries[user].state))
                && (forall t: U64 :: Answers(View(), user, t) <==> t < Expiry(now, Ttl(settings, o)))
                && (!Within(settings, o, now, U64_MAX) ==>
                      forall t: U64 :: Answers(View(), user, t) <==> Within(settings, o, now, t))
      ensures user in old(entries) && old(entries[user].state.InFlight?) ==> old(entries[user].state.chan) in released
    {
      if user !in entries {
        return;
      }
      if !Within(settings, o, now, U64_MAX) {
        forall t: U64
          ensures t < Expiry(now, Ttl(settings, o)) <==> Within(settings, o, now, t)
        {
          StoredWhileWithin(settings, o, now, t);
        }
      }
      var previous := entries[user].state;
      entries := entries[user := SlotFor(settings, o, now)];
      if previous.InFlight? {
        released := released + {previous.chan};
      }
    }

    method DropExpired(now: U64)
      modifies this`entries
      ensures View() == Sweep(old(View()), now)
      ensures forall u :: u in old(entries) && old(entries[u].state.InFlight?) ==> SameSlot(old(entries), entries, u)
      ensures forall u, t: U64 :: now <= t ==> (Answers(View(), u, t) <==> old(Answers(View(), u, t)))
      ensures forall u :: u in entries ==> SameSlot(old(entries), entries, u) && Answers(View(), u, now)
    {
      entries := map u | u in entries && (entries[u].state.InFlight? || now < entries[u].expires) :: entries[u];
    }
  }
}
