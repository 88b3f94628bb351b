/** Runtime-changeable limits: a versioned snapshot updated under optimistic concurrency. */
module RuntimeConfig {
  import opened Wrappers
  import opened Binary

  datatype Limits = Limits(bytesPerSec: nat, perUser: nat, allocations: nat)

  /** Settings fixed for the life of the process. */
  datatype Context = Context(minPort: nat, maxPort: nat, production: bool, allowUnlimited: bool)

  datatype Patch = Patch(bytesPerSec: Option<nat>, perUser: Option<nat>, allocations: Option<nat>)

  datatype Snapshot = Snapshot(version: U64, limits: Limits)

  datatype Fault = PortRangeEmpty | TooManyAllocations | UnlimitedInProduction

  datatype UpdateError =
    | VersionMismatch(expected: U64, actual: U64)
    | ValidationFailed(faults: seq<Fault>)
    | VersionOverflow

  datatype Applied = Applied(snapshot: Snapshot, changed: bool)

  // ----- rules

  function UsablePorts(ctx: Context): nat {
    if ctx.minPort < ctx.maxPort then ctx.maxPort - ctx.minPort + 1 else 0
  }

  /** The rules a change is checked against. */
  method Validate(l: Limits, ctx: Context) returns (faults: seq<Fault>)
    ensures faults == Faults(l, ctx)
    ensures faults == [] <==>
            && (ctx.minPort < ctx.maxPort ==> l.allocations <= ctx.maxPort - ctx.minPort + 1)
            && (ctx.production && !ctx.allowUnlimited ==> l.bytesPerSec > 0)
    ensures TooManyAllocations in faults <==>
            ctx.minPort < ctx.maxPort && l.allocations > ctx.maxPort - ctx.minPort + 1
    ensures UnlimitedInProduction in faults <==> ctx.production && !ctx.allowUnlimited && l.bytesPerSec == 0
  {
    faults := [];
    if ctx.minPort < ctx.maxPort {
      var usable := ctx.maxPort - ctx.minPort + 1;
      if l.allocations > usable {
        faults := faults + [TooManyAllocations];
      }
    }
    if ctx.production && l.bytesPerSec == 0 && !ctx.allowUnlimited {
      faults := faults + [UnlimitedInProduction];
    }
  }

  function Faults(l: Limits, ctx: Context): seq<Fault> {
    (if ctx.minPort < ctx.maxPort && l.allocations > UsablePorts(ctx) then [TooManyAllocations] else [])
    + if ctx.production && l.bytesPerSec == 0 && !ctx.allowUnlimited then [UnlimitedInProduction] else []
  }

  /** The matching rules at startup, which also refuse an empty port range. */
  function StartupFaults(l: Limits, ctx: Context): seq<Fault> {
    (if ctx.minPort >= ctx.maxPort then [PortRangeEmpty] else [])
    + (if ctx.minPort < ctx.maxPort && l.allocations > UsablePorts(ctx) then [TooManyAllocations] else [])
    + if ctx.production && l.bytesPerSec == 0 && !ctx.allowUnlimited then [UnlimitedInProduction] else []
  }

  // ----- updating

  function Or<T>(change: Option<T>, current: T): T {
    match change
    case None => current
    case Some(v) => v
  }

  function Patched(l: Limits, p: Patch): Limits {
    Limits(Or(p.bytesPerSec, l.bytesPerSec), Or(p.perUser, l.perUser), Or(p.allocations, l.allocations))
  }

  function Apply(s: Snapshot, p: Patch, expected: U64, ctx: Context): Result<Applied, UpdateError> {
    if expected != s.version then Err(VersionMismatch(expected, s.version))
    else
      var candidate := Patched(s.limits, p);
      if candidate == s.limits then Ok(Applied(s, false))
      else if Faults(candidate, ctx) != [] then Err(ValidationFailed(Faults(candidate, ctx)))
      else if s.version == U64_MAX then Err(VersionOverflow)
      else Ok(Applied(Snapshot(s.version + 1, candidate), true))
  }

  datatype Update = Update(patch: Patch, expected: U64)

  function Boot(l: Limits): Snapshot { Snapshot(0, l) }

  function After(s: Snapshot, u: Update, ctx: Context): Snapshot {
    match Apply(s, u.patch, u.expected, ctx)
    case Err(_) => s
    case Ok(a) => a.snapshot
  }

  predicate TakesEffect(s: Snapshot, u: Update, ctx: Context) {
    var r := Apply(s, u.patch, u.expected, ctx);
    r.Ok? && r.value.changed
  }

  function Run(l: Limits, us: seq<Update>, ctx: Context): Snapshot {
    if us == [] then Boot(l) else After(Run(l, us[..|us| - 1], ctx), us[|us| - 1], ctx)
  }

  /** The updates of a run that took effect, in order. */
  function Effective(l: Limits, us: seq<Update>, ctx: Context): seq<Update> {
    if us == [] then [] else
      var init, u := us[..|us| - 1], us[|us| - 1];
      Effective(l, init, ctx) + if TakesEffect(Run(l, init, ctx), u, ctx) then [u] else []
  }

  function PatchedAll(l: Limits, us: seq<Update>): Limits {
    if us == [] then l else Patched(PatchedAll(l, us[..|us| - 1]), us[|us| - 1].patch)
  }

  // ----- what every run keeps

  /** No reachable limits would have been refused at startup. */
  lemma {:induction false} ReachableLimitsAreValid(l: Limits, us: seq<Update>, ctx: Context)
    requires StartupFaults(l, ctx) == []
    ensures Faults(Run(l, us, ctx).limits, ctx) == [] && StartupFaults(Run(l, us, ctx).limits, ctx) == []
    ensures Run(l, us, ctx).limits.allocations <= UsablePorts(ctx)
  {
    if us != [] {
      ReachableLimitsAreValid(l, us[..|us| - 1], ctx);
    }
  }

  /**
   * The state is the boot limits patched by exactly the updates that took effect, in order; the version counts
   * them, and the one that took effect as number k was made against version k.
   */
  lemma {:induction false} VersionCountsEffects(l: Limits, us: seq<Update>, ctx: Context)
    ensures var done := Effective(l, us, ctx);
      && Run(l, us, ctx).version == |done| && Run(l, us, ctx).limits == PatchedAll(l, done)
      && forall k :: 0 <= k < |done| ==> done[k].expected == k
  {
    if us != [] {
      var init, u := us[..|us| - 1], us[|us| - 1];
      VersionCountsEffects(l, init, ctx);
      if TakesEffect(Run(l, init, ctx), u, ctx) {
        var done := Effective(l, init, ctx);
        assert (done + [u])[..|done|] == done;
      } else {
        assert Effective(l, us, ctx) == Effective(l, init, ctx);
      }
    }
  }

  lemma {:induction false} VersionNeverFalls(l: Limits, us: seq<Update>, more: seq<Update>, ctx: Context)
    ensures Run(l, us, ctx).version <= Run(l, us + more, ctx).version
  {
    if more == [] {
      assert us + more == us;
    } else {
      VersionNeverFalls(l, us, more[..|more| - 1], ctx);
      assert (us + more)[..|us + more| - 1] == us + more[..|more| - 1];
    }
  }

  /** Of two updates made against the same version at most one takes effect. */
  lemma OneWinnerPerVersion(l: Limits, us: seq<Update>, i: nat, j: nat, ctx: Context)
    requires i < j < |us| && us[i].expected == us[j].expected
    ensures !(TakesEffect(Run(l, us[..i], ctx), us[i], ctx) && TakesEffect(Run(l, us[..j], ctx), us[j], ctx))
  {
    assert us[..i + 1][..i] == us[..i];
    VersionNeverFalls(l, us[..i + 1], us[i + 1..j], ctx);
    assert us[..i + 1] + us[i + 1..j] == us[..j];
  }

  /** Some field the patch gives differs from what is set. */
  predicate Alters(l: Limits, p: Patch) {
    || (p.bytesPerSec.Some? && p.bytesPerSec.value != l.bytesPerSec)
    || (p.perUser.Some? && p.perUser.value != l.perUser)
    || (p.allocations.Some? && p.allocations.value != l.allocations)
  }

  /** `m` has what the patch gives, and what `l` has where it gives nothing. */
  predicate Takes(l: Limits, p: Patch, m: Limits) {
    && m.bytesPerSec == (if p.bytesPerSec.Some? then p.bytesPerSec.value else l.bytesPerSec)
    && m.perUser == (if p.perUser.Some? then p.perUser.value else l.perUser)
    && m.allocations == (if p.allocations.Some? then p.allocations.value else l.allocations)
  }

  /** The allocations fit the ports, one more than the range is wide, and in production bandwidth is capped. */
  predicate Fits(l: Limits, ctx: Context) {
    && (ctx.minPort < ctx.maxPort ==> l.allocations <= ctx.maxPort - ctx.minPort + 1)
    && (ctx.production && !ctx.allowUnlimited ==> l.bytesPerSec > 0)
  }

  /**
   * What an update does: a stale one is told the current version, one that alters nothing succeeds idly whether or
   * not it would be valid, one that does not fit is refused, and any other sets the fields it gives and moves the
   * version on by one, unless that is at its end.
   */
  lemma UpdateIs(s: Snapshot, u: Update, ctx: Context)
    ensures var r := Apply(s, u.patch, u.expected, ctx);
      && (r == Err(VersionMismatch(u.expected, s.version)) <==> u.expected != s.version)
      && (u.expected == s.version && !Alters(s.limits, u.patch) ==> r == Ok(Applied(s, false)))
      && (u.expected == s.version && Alters(s.limits, u.patch) ==>
            exists m :: Takes(s.limits, u.patch, m)
              && (if !Fits(m, ctx) then r.Err? && r.error.ValidationFailed? && r.error.faults != []
                  else if s.version == U64_MAX then r == Err(VersionOverflow)
                  else r == Ok(Applied(Snapshot(s.version + 1, m), true))))
  {
    assert Takes(s.limits, u.patch, Patched(s.limits, u.patch));
  }

  /** Startup refuses an empty port range, and what updates refuse. */
  lemma StartupFaultsIff(l: Limits, ctx: Context)
    ensures StartupFaults(l, ctx) == [] <==> ctx.minPort < ctx.maxPort && Fits(l, ctx)
    ensures PortRangeEmpty in StartupFaults(l, ctx) <==> ctx.minPort >= ctx.maxPort
    ensures TooManyAllocations in StartupFaults(l, ctx) <==>
            ctx.minPort < ctx.maxPort && l.allocations > ctx.maxPort - ctx.minPort + 1
    ensures UnlimitedInProduction in StartupFaults(l, ctx) <==>
            ctx.production && !ctx.allowUnlimited && l.bytesPerSec == 0
  {
  }

  /** An update changes something exactly when it takes effect; a refused or idle one leaves the snapshot as it was. */
  lemma ChangesIffEffective(s: Snapshot, u: Update, ctx: Context)
    ensures After(s, u, ctx) != s <==> TakesEffect(s, u, ctx)
    ensures var candidate := Patched(s.limits, u.patch);
      TakesEffect(s, u, ctx) <==>
        u.expected == s.version < U64_MAX && candidate != s.limits && Faults(candidate, ctx) == []
  {
  }
}
