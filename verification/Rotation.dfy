/** Dropping a previous shared secret from a running registry: when nobody can tell. */
module Rotation {
  import opened Wrappers
  import opened Credentials
  import opened UserIndex
  import opened Registry
  import V = Validation

  // ----- the registry without previous secrets

  function DropSecret(b: Backend): Backend {
    if b.SharedSecret? then b.(previous := None) else b
  }

  function DropAll(reg: Registry): Registry {
    Registry(map r | r in reg.tenants :: reg.tenants[r].(auth := DropSecret(reg.tenants[r].auth)),
             DropSecret(reg.base), reg.baseRealm)
  }

  function DropRecipe(r: Recipe): Recipe {
    if r.Rest? then r.(previous := None) else r
  }

  /** Reloads that bring a previous secret are stripped of it too. */
  function DropEvent(ev: Event): Event {
    match ev
    case ReplaceBase(recipe) => ReplaceBase(DropRecipe(recipe))
    case ReplaceTenant(realm, recipe) => ReplaceTenant(realm, DropRecipe(recipe))
    case _ => ev
  }

  function DropEvents(evs: seq<Event>): seq<Event> {
    if evs == [] then [] else DropEvents(evs[..|evs| - 1]) + [DropEvent(evs[|evs| - 1])]
  }

  // ----- what a run shows

  function Responses(c: Crypto, reg: Registry, evs: seq<Event>): seq<Response> {
    if evs == [] then [] else
      var init := evs[..|evs| - 1];
      Responses(c, reg, init) + [Step(c, Run(c, reg, init), evs[|evs| - 1]).response]
  }

  /** The previous-secret counter after a run that started at zero. */
  function Uses(c: Crypto, reg: Registry, evs: seq<Event>): nat {
    if evs == [] then 0 else
      var init := evs[..|evs| - 1];
      Uses(c, reg, init) + if Step(c, Run(c, reg, init), evs[|evs| - 1]).usedPrevious then 1 else 0
  }

  /** The request would be accepted under the previous secret and is not signed under the current one. */
  predicate NeedsPrevious(c: Crypto, env: Env, b: Backend, msg: Msg) {
    && b.SharedSecret? && b.previous.Some?
    && msg.realm == Some(b.realm) && msg.username.Some? && (env.requireSha256 ==> msg.hasSha256)
    && V.CheckExpiry(env, msg.username.value).None? && V.AlgorithmFits(msg)
    && !c.intact(msg, V.RestKey(c, b.secret, b.realm, msg.username.value, msg))
    && c.intact(msg, V.RestKey(c, b.previous.value, b.realm, msg.username.value, msg))
  }

  predicate Relies(c: Crypto, reg: Registry, ev: Event) {
    && ev.Request? && ev.msg.realm.Some? && Validating(reg, ev.msg.realm.value).Some?
    && NeedsPrevious(c, ev.env, Validating(reg, ev.msg.realm.value).value, ev.msg)
  }

  /** The counter counts these, and besides them only requests refused for their password algorithm. */
  lemma CountedIff(c: Crypto, env: Env, b: Backend, msg: Msg)
    ensures NeedsPrevious(c, env, b, msg) <==> V.Validate(c, env, b, msg).usedPrevious && V.AlgorithmFits(msg)
  {
  }

  predicate NobodyRelies(c: Crypto, reg: Registry, evs: seq<Event>) {
    evs == [] || (
      var init := evs[..|evs| - 1];
      NobodyRelies(c, reg, init) && !Relies(c, Run(c, reg, init), evs[|evs| - 1]))
  }

  // ----- one step with and without

  lemma BuildDropped(c: Crypto, r: Recipe)
    ensures Build(c, DropRecipe(r)) == DropSecret(Build(c, r))
  {
    BuiltIsIndexed(c, r, RecipeNames(r));
  }

  lemma ResolveDropped(c: Crypto, env: Env, tenant: Option<string>, realm: Realm, b: Backend, msg: Msg)
    ensures var with := ResolveWith(c, env, tenant, realm, b, msg);
      var without := ResolveWith(c, env, tenant, realm, DropSecret(b), msg);
      && (with.0 == without.0 <==> !NeedsPrevious(c, env, b, msg))
      && !without.1
  {
    CountedIff(c, env, b, msg);
    if b.SharedSecret? && b.previous.Some? {
      V.RotationIsExact(c, env, b.realm, b.secret, b.previous.value, msg);
      assert DropSecret(b) == SharedSecret(b.realm, b.secret, None);
      assert b == SharedSecret(b.realm, b.secret, Some(b.previous.value));
    } else {
      assert DropSecret(b) == b;
    }
  }

  lemma AuthenticateDropped(c: Crypto, env: Env, reg: Registry, msg: Msg)
    ensures var with := Authenticate(c, env, reg, msg);
      var without := Authenticate(c, env, DropAll(reg), msg);
      && (with.0 == without.0 <==> !Relies(c, reg, Request(env, msg)))
      && (Relies(c, reg, Request(env, msg)) ==> with.1)
  {
    if msg.realm.Some? && Validating(reg, msg.realm.value).Some? {
      CountedIff(c, env, Validating(reg, msg.realm.value).value, msg);
      var realm := msg.realm.value;
      if realm in reg.tenants {
        ResolveDropped(c, env, Some(reg.tenants[realm].id), realm, reg.tenants[realm].auth, msg);
      } else {
        ResolveDropped(c, env, None, realm, reg.base, msg);
      }
    }
  }

  lemma ManageDropped(c: Crypto, reg: Registry, realm: Realm, b: Backend)
    ensures Managed(DropAll(reg), realm) ==
      match Managed(reg, realm) { case None => None case Some(x) => Some(DropSecret(x)) }
    ensures DropAll(WithManaged(reg, realm, b)) == WithManaged(DropAll(reg), realm, DropSecret(b))
  {
  }

  lemma ChangeDropped(c: Crypto, b: Backend, ev: Event)
    requires IsUserOp(ev)
    ensures Change(c, DropSecret(b), ev) == (DropSecret(Change(c, b, ev).0), Change(c, b, ev).1)
  {
  }

  lemma SwapDropped(c: Crypto, reg: Registry, realm: Realm, recipe: Recipe)
    ensures var with := Step(c, reg, ReplaceTenant(realm, recipe));
      Step(c, DropAll(reg), ReplaceTenant(realm, DropRecipe(recipe))) == Next(DropAll(with.reg), with.response, false)
  {
    BuildDropped(c, recipe);
    if realm in reg.tenants {
      var b := Build(c, recipe);
      assert DropAll(reg).tenants[realm].auth == DropSecret(reg.tenants[realm].auth);
      assert DropAll(reg.(tenants := reg.tenants[realm := reg.tenants[realm].(auth := b)]))
        == DropAll(reg).(tenants := DropAll(reg).tenants[realm := reg.tenants[realm].(auth := DropSecret(b))]);
    }
  }

  lemma StepDropped(c: Crypto, reg: Registry, ev: Event)
    ensures var with := Step(c, reg, ev);
      var without := Step(c, DropAll(reg), DropEvent(ev));
      && without.reg == DropAll(with.reg)
      && (with.response == without.response <==> !Relies(c, reg, ev))
  {
    match ev
    case Request(env, msg) =>
      AuthenticateDropped(c, env, reg, msg);
    case ReplaceBase(recipe) =>
      BuildDropped(c, recipe);
    case ReplaceTenant(realm, recipe) =>
      SwapDropped(c, reg, realm, recipe);
    case _ =>
      ManageUsersDropped(c, reg, ev);
  }

  lemma ManageUsersDropped(c: Crypto, reg: Registry, ev: Event)
    requires IsUserOp(ev)
    ensures var with := ManageUsers(c, reg, ev);
      ManageUsers(c, DropAll(reg), ev) == Next(DropAll(with.reg), with.response, false) && !with.usedPrevious
  {
    ManageDropped(c, reg, ev.realm, reg.base);
    if Managed(reg, ev.realm).Some? {
      var b := Managed(reg, ev.realm).value;
      ChangeDropped(c, b, ev);
      ManageDropped(c, reg, ev.realm, Change(c, b, ev).0);
    }
  }

  // ----- whole runs

  lemma {:induction false} RunDropped(c: Crypto, reg: Registry, evs: seq<Event>)
    ensures |DropEvents(evs)| == |evs|
    ensures Run(c, DropAll(reg), DropEvents(evs)) == DropAll(Run(c, reg, evs))
  {
    if evs != [] {
      var init := evs[..|evs| - 1];
      RunDropped(c, reg, init);
      StepDropped(c, Run(c, reg, init), evs[|evs| - 1]);
      assert DropEvents(evs)[..|evs| - 1] == DropEvents(init);
    }
  }

  /** Every answer of a run is the same without the previous secrets exactly when no request relied on one. */
  lemma {:induction false} DroppingUnnoticedIff(c: Crypto, reg: Registry, evs: seq<Event>)
    ensures Responses(c, DropAll(reg), DropEvents(evs)) == Responses(c, reg, evs) <==> NobodyRelies(c, reg, evs)
  {
    if evs != [] {
      var init, ev := evs[..|evs| - 1], evs[|evs| - 1];
      DroppingUnnoticedIff(c, reg, init);
      RunDropped(c, reg, init);
      StepDropped(c, Run(c, reg, init), ev);
      assert DropEvents(evs)[..|evs| - 1] == DropEvents(init);
      ResponsesLength(c, DropAll(reg), DropEvents(init));
      ResponsesLength(c, reg, init);
      SnocEqual(Responses(c, DropAll(reg), DropEvents(init)), Responses(c, reg, init),
                Step(c, DropAll(Run(c, reg, init)), DropEvent(ev)).response, Step(c, Run(c, reg, init), ev).response);
    }
  }

  lemma SnocEqual(a: seq<Response>, b: seq<Response>, x: Response, y: Response)
    requires |a| == |b|
    ensures a + [x] == b + [y] <==> a == b && x == y
  {
    assert (a + [x])[..|a|] == a && (b + [y])[..|b|] == b;
    assert (a + [x])[|a|] == x && (b + [y])[|b|] == y;
  }

  lemma {:induction false} ResponsesLength(c: Crypto, reg: Registry, evs: seq<Event>)
    ensures |Responses(c, reg, evs)| == |evs|
  {
    if evs != [] {
      ResponsesLength(c, reg, evs[..|evs| - 1]);
    }
  }

  lemma {:induction false} UnmovedCounterMeansNobody(c: Crypto, reg: Registry, evs: seq<Event>)
    requires Uses(c, reg, evs) == 0
    ensures NobodyRelies(c, reg, evs)
  {
    if evs != [] {
      var init, ev := evs[..|evs| - 1], evs[|evs| - 1];
      UnmovedCounterMeansNobody(c, reg, init);
      if ev.Request? {
        AuthenticateDropped(c, ev.env, Run(c, reg, init), ev.msg);
      }
    }
  }

  /** While the counter does not move, dropping the previous secrets changes no answer. */
  lemma UnmovedCounterMakesDroppingSafe(c: Crypto, reg: Registry, evs: seq<Event>)
    requires Uses(c, reg, evs) == 0
    ensures Responses(c, DropAll(reg), DropEvents(evs)) == Responses(c, reg, evs)
  {
    UnmovedCounterMeansNobody(c, reg, evs);
    DroppingUnnoticedIff(c, reg, evs);
  }

  /** The keys on file for a user of a realm whose users can be managed. */
  function KeysOnFile(reg: Registry, realm: Realm, name: Name): Option<Webhook.UserKeys> {
    match Managed(reg, realm)
    case None => None
    case Some(b) => if b.LongTerm? && name in b.users then Some(b.users[name]) else None
  }

  predicate HasUser(reg: Registry, realm: Realm, name: Name) {
    var b := Managed(reg, realm);
    b.Some? && b.value.LongTerm? && name in b.value.users
  }

  /** The registry and the process-wide counter, changed in place. */
  class AuthRegistry {
    const baseRealm: Realm
    var tenants: map<Realm, Tenant>
    var base: Backend
    var previousUses: nat

    ghost function View(): Registry
      reads this
    {
      Registry(tenants, base, baseRealm)
    }

    constructor (c: Crypto, recipe: Recipe)
      ensures View() == New(c, recipe) && previousUses == 0
    {
      baseRealm, tenants, base, previousUses := Build(c, recipe).realm, map[], Build(c, recipe), 0;
    }

    method Validate(c: Crypto, env: Env, msg: Msg) returns (r: Result<Resolution, AuthError>)
      modifies this`previousUses
      ensures var next := Step(c, old(View()), Request(env, msg));
        && Resolved(r) == next.response
        && previousUses == old(previousUses) + if next.usedPrevious then 1 else 0
    {
      if msg.realm.None? {
        return Err(MissingCredentials);
      }
      var realm := msg.realm.value;
      var used := false;
      if realm in tenants {
        var outcome := ResolveWith(c, env, Some(tenants[realm].id), realm, tenants[realm].auth, msg);
        r, used := outcome.0, outcome.1;
      } else if realm == baseRealm {
        var outcome := ResolveWith(c, env, None, realm, base, msg);
        r, used := outcome.0, outcome.1;
      } else {
        r := Err(InvalidCredentials);
      }
      if used {
        previousUses := previousUses + 1;
      }
    }

    method AddUserForRealm(c: Crypto, realm: Realm, name: Name, password: string) returns (ok: bool)
      modifies this`base, this`tenants
      ensures var next := Step(c, old(View()), AddUserFor(realm, name, password));
        View() == next.reg && Applied(ok) == next.response
      ensures ok <==> old(Managed(View(), realm).Some? && Managed(View(), realm).value.LongTerm?)
      ensures !ok ==> View() == old(View())
      ensures ok ==> var b := Managed(View(), realm);
        b.Some? && b.value.LongTerm? && name in b.value.users && HasEntry(c, b.value, name)
        && b.value.users[name].md5 == c.md5Key(name, b.value.realm, password)
        && b.value.users[name].sha256 == c.sha256Key(name, b.value.realm, password)
      ensures forall n :: n != name ==> KeysOnFile(View(), realm, n) == old(KeysOnFile(View(), realm, n))
      ensures SameShape(old(View()), View())
      ensures forall names :: old(Sane(c, View(), names)) && name in names ==> Sane(c, View(), names)
    {
      StepKeepsSaneAnyNames(c, View(), AddUserFor(realm, name, password));
      StepKeepsShape(c, View(), AddUserFor(realm, name, password));
      if realm == baseRealm {
        var done := AddUser(c, base, name, password);
        base, ok := done.0, done.1;
      } else if realm in tenants {
        var done := AddUser(c, tenants[realm].auth, name, password);
        tenants, ok := tenants[realm := tenants[realm].(auth := done.0)], done.1;
      } else {
        ok := false;
      }
    }

    method RemoveUserForRealm(c: Crypto, realm: Realm, name: Name) returns (ok: bool)
      modifies this`base, this`tenants
      ensures var next := Step(c, old(View()), RemoveUserFor(realm, name));
        View() == next.reg && Applied(ok) == next.response
      ensures ok <==> old(HasUser(View(), realm, name))
      ensures !HasUser(View(), realm, name) && SameShape(old(View()), View())
      ensures forall n :: n != name ==> KeysOnFile(View(), realm, n) == old(KeysOnFile(View(), realm, n))
      ensures forall names :: old(Sane(c, View(), names)) ==> Sane(c, View(), names)
    {
      StepKeepsSaneAnyNames(c, View(), RemoveUserFor(realm, name));
      StepKeepsShape(c, View(), RemoveUserFor(realm, name));
      if realm == baseRealm {
        var done := RemoveUser(c, base, name);
        base, ok := done.0, done.1;
      } else if realm in tenants {
        var done := RemoveUser(c, tenants[realm].auth, name);
        tenants, ok := tenants[realm := tenants[realm].(auth := done.0)], done.1;
      } else {
        ok := false;
      }
    }

    method SwapBase(c: Crypto, recipe: Recipe) returns (ok: bool)
      modifies this`base
      ensures var next := Step(c, old(View()), ReplaceBase(recipe));
        View() == next.reg && Applied(ok) == next.response
      ensures ok <==> recipe.realm == baseRealm && recipe.StaticUsers? == old(base.LongTerm?)
      ensures ok ==> Follows(c, recipe, base)
      ensures !ok ==> View() == old(View())
      ensures SameShape(old(View()), View()) && AllSupportUserhash(View()) == old(AllSupportUserhash(View()))
      ensures forall names :: old(Sane(c, View(), names)) && RecipeNames(recipe) <= names ==> Sane(c, View(), names)
    {
      BuiltIsIndexed(c, recipe, RecipeNames(recipe));
      BuiltFollows(c, recipe);
      StepKeepsSaneAnyNames(c, View(), ReplaceBase(recipe));
      StepKeepsShape(c, View(), ReplaceBase(recipe));
      var b := Build(c, recipe);
      if b.realm != baseRealm || b.LongTerm? != base.LongTerm? {
        return false;
      }
      base := b;
      return true;
    }

    method SwapTenant(c: Crypto, realm: Realm, recipe: Recipe) returns (ok: bool)
      modifies this`tenants
      ensures var next := Step(c, old(View()), ReplaceTenant(realm, recipe));
        View() == next.reg && Applied(ok) == next.response
      ensures ok <==>
              old(realm in tenants && recipe.StaticUsers? == tenants[realm].auth.LongTerm?) && recipe.realm == realm
      ensures ok ==> realm in tenants && Follows(c, recipe, tenants[realm].auth)
      ensures ok ==> tenants == old(tenants)[realm := old(tenants)[realm].(auth := tenants[realm].auth)]
      ensures !ok ==> View() == old(View())
      ensures SameShape(old(View()), View()) && AllSupportUserhash(View()) == old(AllSupportUserhash(View()))
      ensures forall names :: old(Sane(c, View(), names)) && RecipeNames(recipe) <= names ==> Sane(c, View(), names)
    {
      BuiltIsIndexed(c, recipe, RecipeNames(recipe));
      BuiltFollows(c, recipe);
      StepKeepsSaneAnyNames(c, View(), ReplaceTenant(realm, recipe));
      StepKeepsShape(c, View(), ReplaceTenant(realm, recipe));
      var b := Build(c, recipe);
      if b.realm != realm || realm !in tenants || b.LongTerm? != tenants[realm].auth.LongTerm? {
        return false;
      }
      tenants := tenants[realm := tenants[realm].(auth := b)];
      return true;
    }
  }
}
