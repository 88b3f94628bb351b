/** The multi-realm registry: which backend answers for a realm, and swapping backends at run time. */
module Registry {
  import opened Wrappers
  import opened Binary
  import opened Credentials
  import opened UserIndex
  import V = Validation
  import Webhook = WebhookCache

  datatype Tenant = Tenant(id: string, auth: Backend)

  datatype Registry = Registry(tenants: map<Realm, Tenant>, base: Backend, baseRealm: Realm)

  datatype Resolution = Resolution(tenant: Option<string>, realm: Realm, key: Bytes, subject: Name,
                                   maxLifetime: Option<nat>)

  datatype Event =
    | Request(env: Env, msg: Msg)
    | AddUserFor(realm: Realm, name: Name, password: string)
    | LoadUserFor(realm: Realm, name: Name, keys: Webhook.UserKeys)
    | RemoveUserFor(realm: Realm, name: Name)
    | ReplaceBase(recipe: Recipe)
    | ReplaceTenant(realm: Realm, recipe: Recipe)

  datatype Response = Applied(ok: bool) | Resolved(result: Result<Resolution, AuthError>)

  /** The next state, the answer, and whether the previous secret was used. */
  datatype Next = Next(reg: Registry, response: Response, usedPrevious: bool)

  // ----- operations

  /** The user behind a name: a time-limited name carries an expiry before the first colon. */
  function SubjectOf(b: Backend, name: Name): Name {
    if !b.SharedSecret? then name else
      match V.SplitAtColon(name)
      case None => name
      case Some((_, user)) => user
  }

  function ResolveWith(c: Crypto, env: Env, tenant: Option<string>, realm: Realm, b: Backend, msg: Msg)
    : (Result<Resolution, AuthError>, bool)
  {
    var o := V.Validate(c, env, b, msg);
    match o.result
    case Err(e) => (Err(e), o.usedPrevious)
    case Ok(v) => (Ok(Resolution(tenant, realm, v.key, SubjectOf(b, v.username), v.maxLifetime)), o.usedPrevious)
  }

  /** Tenants first, then the base realm; an unknown realm has no backend. */
  function Authenticate(c: Crypto, env: Env, reg: Registry, msg: Msg): (Result<Resolution, AuthError>, bool) {
    if msg.realm.None? then (Err(MissingCredentials), false)
    else
      var realm := msg.realm.value;
      if realm in reg.tenants then
        ResolveWith(c, env, Some(reg.tenants[realm].id), realm, reg.tenants[realm].auth, msg)
      else if realm == reg.baseRealm then ResolveWith(c, env, None, realm, reg.base, msg)
      else (Err(InvalidCredentials), false)
  }

  /** User management goes to the base realm first, then to tenants. */
  function Managed(reg: Registry, realm: Realm): Option<Backend> {
    if realm == reg.baseRealm then Some(reg.base)
    else if realm in reg.tenants then Some(reg.tenants[realm].auth)
    else None
  }

  function WithManaged(reg: Registry, realm: Realm, b: Backend): Registry {
    if realm == reg.baseRealm then reg.(base := b)
    else if realm in reg.tenants then reg.(tenants := reg.tenants[realm := reg.tenants[realm].(auth := b)])
    else reg
  }

  predicate IsUserOp(ev: Event) {
    ev.AddUserFor? || ev.LoadUserFor? || ev.RemoveUserFor?
  }

  function Change(c: Crypto, b: Backend, ev: Event): (Backend, bool)
    requires IsUserOp(ev)
  {
    if ev.AddUserFor? then AddUser(c, b, ev.name, ev.password)
    else if ev.LoadUserFor? then AddUserKeys(c, b, ev.name, ev.keys)
    else RemoveUser(c, b, ev.name)
  }

  function ManageUsers(c: Crypto, reg: Registry, ev: Event): Next
    requires IsUserOp(ev)
  {
    match Managed(reg, ev.realm)
    case None => Next(reg, Applied(false), false)
    case Some(b) => Next(WithManaged(reg, ev.realm, Change(c, b, ev).0), Applied(Change(c, b, ev).1), false)
  }

  /** A replacement keeps the realm and whether the realm can resolve a USERHASH. */
  predicate Replaceable(current: Backend, next: Backend, realm: Realm) {
    next.realm == realm && next.LongTerm? == current.LongTerm?
  }

  function Step(c: Crypto, reg: Registry, ev: Event): Next {
    match ev
    case Request(env, msg) =>
      var (result, used) := Authenticate(c, env, reg, msg);
      Next(reg, Resolved(result), used)
    case ReplaceBase(recipe) =>
      var b := Build(c, recipe);
      if Replaceable(reg.base, b, reg.baseRealm) then Next(reg.(base := b), Applied(true), false)
      else Next(reg, Applied(false), false)
    case ReplaceTenant(realm, recipe) =>
      var b := Build(c, recipe);
      if realm in reg.tenants && Replaceable(reg.tenants[realm].auth, b, realm)
      then Next(reg.(tenants := reg.tenants[realm := reg.tenants[realm].(auth := b)]), Applied(true), false)
      else Next(reg, Applied(false), false)
    case _ => ManageUsers(c, reg, ev)
  }

  function New(c: Crypto, base: Recipe): Registry {
    Registry(map[], Build(c, base), Build(c, base).realm)
  }

  /** A tenant is filed under its backend's realm. */
  function WithTenant(c: Crypto, reg: Registry, id: string, recipe: Recipe): Registry {
    var b := Build(c, recipe);
    reg.(tenants := reg.tenants[b.realm := Tenant(id, b)])
  }

  function Configured(c: Crypto, base: Recipe, tenants: seq<(string, Recipe)>): Registry {
    if tenants == [] then New(c, base) else
      var last := tenants[|tenants| - 1];
      WithTenant(c, Configured(c, base, tenants[..|tenants| - 1]), last.0, last.1)
  }

  predicate AllSupportUserhash(reg: Registry) {
    reg.base.LongTerm? && forall r :: r in reg.tenants ==> reg.tenants[r].auth.LongTerm?
  }

  /** A USERHASH can always be offered exactly when no backend, of the base realm or of a tenant, lacks a user table. */
  lemma AllSupportIff(reg: Registry)
    ensures AllSupportUserhash(reg) <==>
      !exists b: Backend ::
        !b.LongTerm? && (b == reg.base || exists r :: r in reg.tenants && reg.tenants[r].auth == b)
  {
    if !reg.base.LongTerm? {
      assert !reg.base.LongTerm? && reg.base == reg.base;
    }
    if r :| r in reg.tenants && !reg.tenants[r].auth.LongTerm? {
      var b := reg.tenants[r].auth;
      assert !b.LongTerm? && exists k :: k in reg.tenants && reg.tenants[k].auth == b;
    }
  }

  // ----- invariants over runs

  ghost function EventNames(ev: Event): set<Name> {
    match ev
    case Request(_, _) => {}
    case AddUserFor(_, name, _) => {name}
    case LoadUserFor(_, name, _) => {name}
    case RemoveUserFor(_, _) => {}
    case ReplaceBase(recipe) => RecipeNames(recipe)
    case ReplaceTenant(_, recipe) => RecipeNames(recipe)
  }

  /** Each backend is in the realm it is filed under, and its index is in order. */
  ghost predicate Sane(c: Crypto, reg: Registry, names: set<Name>) {
    && reg.base.realm == reg.baseRealm && Indexed(c, reg.base, names)
    && forall r :: r in reg.tenants ==> reg.tenants[r].auth.realm == r && Indexed(c, reg.tenants[r].auth, names)
  }

  /** The same realms, tenants and credential mechanisms. */
  ghost predicate SameShape(a: Registry, b: Registry) {
    && a.baseRealm == b.baseRealm && a.base.LongTerm? == b.base.LongTerm?
    && a.tenants.Keys == b.tenants.Keys
    && forall r :: r in a.tenants ==>
      a.tenants[r].id == b.tenants[r].id && a.tenants[r].auth.LongTerm? == b.tenants[r].auth.LongTerm?
  }

  lemma ManagedKeepsSane(c: Crypto, reg: Registry, realm: Realm, b: Backend, names: set<Name>)
    requires Sane(c, reg, names) && Indexed(c, b, names)
    requires Managed(reg, realm).Some? && b.realm == Managed(reg, realm).value.realm
      && b.LongTerm? == Managed(reg, realm).value.LongTerm?
    ensures Sane(c, WithManaged(reg, realm, b), names) && SameShape(reg, WithManaged(reg, realm, b))
  {
  }

  lemma ChangeKeepsIndexed(c: Crypto, b: Backend, ev: Event, names: set<Name>)
    requires Indexed(c, b, names) && IsUserOp(ev) && EventNames(ev) <= names
    ensures var after := Change(c, b, ev).0;
      Indexed(c, after, names) && after.realm == b.realm && after.LongTerm? == b.LongTerm?
  {
    if ev.AddUserFor? {
      AddKeepsIndexed(c, b, ev.name, Derive(c, b.realm, ev.name, ev.password), names);
    } else if ev.LoadUserFor? {
      AddKeepsIndexed(c, b, ev.name, ev.keys, names);
    } else {
      RemoveKeepsIndexed(c, b, ev.name, names);
    }
  }

  lemma StepKeepsSane(c: Crypto, reg: Registry, ev: Event, names: set<Name>)
    requires Sane(c, reg, names) && EventNames(ev) <= names
    ensures Sane(c, Step(c, reg, ev).reg, names) && SameShape(reg, Step(c, reg, ev).reg)
  {
    match ev
    case Request(_, _) =>
    case ReplaceBase(recipe) =>
      BuiltIsIndexed(c, recipe, names);
    case ReplaceTenant(realm, recipe) =>
      BuiltIsIndexed(c, recipe, names);
    case _ =>
      ManageKeepsSane(c, reg, ev, names);
  }

  lemma ManageKeepsSane(c: Crypto, reg: Registry, ev: Event, names: set<Name>)
    requires Sane(c, reg, names) && IsUserOp(ev) && EventNames(ev) <= names
    ensures Sane(c, ManageUsers(c, reg, ev).reg, names) && SameShape(reg, ManageUsers(c, reg, ev).reg)
  {
    if Managed(reg, ev.realm).Some? {
      var b := Managed(reg, ev.realm).value;
      ChangeKeepsIndexed(c, b, ev, names);
      ManagedKeepsSane(c, reg, ev.realm, Change(c, b, ev).0, names);
    }
  }

  lemma StepKeepsSaneAnyNames(c: Crypto, reg: Registry, ev: Event)
    ensures forall names :: Sane(c, reg, names) && EventNames(ev) <= names ==> Sane(c, Step(c, reg, ev).reg, names)
  {
    forall names | Sane(c, reg, names) && EventNames(ev) <= names
      ensures Sane(c, Step(c, reg, ev).reg, names)
    {
      StepKeepsSane(c, reg, ev, names);
    }
  }

  lemma StepKeepsShape(c: Crypto, reg: Registry, ev: Event)
    ensures SameShape(reg, Step(c, reg, ev).reg) && AllSupportUserhash(Step(c, reg, ev).reg) == AllSupportUserhash(reg)
  {
    SameShapeSameSupport(reg, Step(c, reg, ev).reg);
  }

  function Run(c: Crypto, reg: Registry, evs: seq<Event>): Registry {
    if evs == [] then reg else Step(c, Run(c, reg, evs[..|evs| - 1]), evs[|evs| - 1]).reg
  }

  ghost predicate NamesWithin(evs: seq<Event>, names: set<Name>) {
    forall i :: 0 <= i < |evs| ==> EventNames(evs[i]) <= names
  }

  /**
   * Over every run: each backend stays in its realm with its index in order, no realm appears, disappears or
   * changes mechanism, and so the answer to "can every realm resolve a USERHASH" never changes.
   */
  lemma {:induction false} RunsKeepSane(c: Crypto, reg: Registry, evs: seq<Event>, names: set<Name>)
    requires Sane(c, reg, names) && NamesWithin(evs, names)
    ensures Sane(c, Run(c, reg, evs), names) && SameShape(reg, Run(c, reg, evs))
    ensures AllSupportUserhash(Run(c, reg, evs)) == AllSupportUserhash(reg)
  {
    if evs != [] {
      var init := evs[..|evs| - 1];
      RunsKeepSane(c, reg, init, names);
      StepKeepsSane(c, Run(c, reg, init), evs[|evs| - 1], names);
    }
    SameShapeSameSupport(reg, Run(c, reg, evs));
  }

  lemma SameShapeSameSupport(a: Registry, b: Registry)
    requires SameShape(a, b)
    ensures AllSupportUserhash(a) == AllSupportUserhash(b)
  {
  }

  /** A registry built from configuration starts out that way. */
  lemma {:induction false} ConfiguredIsSane(c: Crypto, base: Recipe, tenants: seq<(string, Recipe)>, names: set<Name>)
    requires RecipeNames(base) <= names
    requires forall i :: 0 <= i < |tenants| ==> RecipeNames(tenants[i].1) <= names
    ensures Sane(c, Configured(c, base, tenants), names)
  {
    BuiltIsIndexed(c, base, names);
    if tenants != [] {
      ConfiguredIsSane(c, base, tenants[..|tenants| - 1], names);
      BuiltIsIndexed(c, tenants[|tenants| - 1].1, names);
    }
  }

  // ----- realms do not affect one another

  /** A step that concerns one realm leaves every answer for another realm as it was. */
  lemma RealmsAreIsolated(c: Crypto, reg: Registry, ev: Event, env: Env, msg: Msg, names: set<Name>)
    requires Sane(c, reg, names) && !ev.Request? && msg.realm.Some?
    requires msg.realm.value != if ev.ReplaceBase? then reg.baseRealm else ev.realm
    ensures Authenticate(c, env, Step(c, reg, ev).reg, msg) == Authenticate(c, env, reg, msg)
  {
  }

  /** The request is under another name than `name`, and not under its hash either. */
  predicate NamesAnother(c: Crypto, msg: Msg, name: Name) {
    && msg.username != Some(name)
    && (msg.username.None? && msg.userhash.Some? && msg.realm.Some? ==>
          msg.userhash.value != c.userhash(name, msg.realm.value))
  }

  /** Both tables find the same user, if any, behind the request, with the same keys. */
  predicate SameFor(b: Backend, after: Backend, msg: Msg)
    requires b.LongTerm? && after.LongTerm?
  {
    && after == b.(users := after.users, hashes := after.hashes)
    && V.ResolveUsername(after, msg) == V.ResolveUsername(b, msg)
    && var found := V.ResolveUsername(b, msg);
    && (found.Ok? ==>
          && (found.value in after.users <==> found.value in b.users)
          && (found.value in b.users ==> after.users[found.value] == b.users[found.value]))
  }

  lemma SameForSameAnswer(c: Crypto, env: Env, b: Backend, after: Backend, msg: Msg)
    requires b.LongTerm? && after.LongTerm? && SameFor(b, after, msg)
    ensures V.Validate(c, env, after, msg) == V.Validate(c, env, b, msg)
  {
  }

  lemma OthersAreFoundAlike(c: Crypto, b: Backend, ev: Event, msg: Msg)
    requires IsUserOp(ev) && b.LongTerm? && Sound(c, b) && NamesAnother(c, msg, ev.name) && msg.realm == Some(b.realm)
    ensures Change(c, b, ev).0.LongTerm? && SameFor(b, Change(c, b, ev).0, msg)
  {
    if ev.AddUserFor? {
      AddKeepsOthers(c, b, ev.name, Derive(c, b.realm, ev.name, ev.password));
    } else if ev.LoadUserFor? {
      AddKeepsOthers(c, b, ev.name, ev.keys);
    } else {
      RemoveKeepsOthers(c, b, ev.name);
    }
  }

  lemma ElsewhereIsRefused(c: Crypto, env: Env, b: Backend, msg: Msg)
    requires b.LongTerm? && msg.realm != Some(b.realm)
    ensures V.Validate(c, env, b, msg).result ==
      Err(if (msg.username.None? && msg.userhash.None?) || msg.realm.None? then MissingCredentials
          else InvalidCredentials)
    ensures !V.Validate(c, env, b, msg).usedPrevious
  {
  }

  lemma ChangeKeepsOthers(c: Crypto, env: Env, b: Backend, ev: Event, msg: Msg)
    requires IsUserOp(ev) && Sound(c, b) && NamesAnother(c, msg, ev.name)
    ensures V.Validate(c, env, Change(c, b, ev).0, msg) == V.Validate(c, env, b, msg)
    ensures Change(c, b, ev).0.SharedSecret? == b.SharedSecret?
  {
    if b.LongTerm? {
      var after := Change(c, b, ev).0;
      if msg.realm == Some(b.realm) {
        OthersAreFoundAlike(c, b, ev, msg);
        SameForSameAnswer(c, env, b, after, msg);
      } else {
        ElsewhereIsRefused(c, env, b, msg);
        ElsewhereIsRefused(c, env, after, msg);
      }
    }
  }

  lemma SameAnswerResolves(c: Crypto, env: Env, tenant: Option<string>, realm: Realm, a: Backend, b: Backend, msg: Msg)
    requires V.Validate(c, env, a, msg) == V.Validate(c, env, b, msg) && a.SharedSecret? == b.SharedSecret?
    ensures ResolveWith(c, env, tenant, realm, a, msg) == ResolveWith(c, env, tenant, realm, b, msg)
  {
  }

  lemma ManagedKeepsAnswers(c: Crypto, env: Env, reg: Registry, realm: Realm, b: Backend, msg: Msg)
    requires Managed(reg, realm).Some? && b.SharedSecret? == Managed(reg, realm).value.SharedSecret?
    requires V.Validate(c, env, b, msg) == V.Validate(c, env, Managed(reg, realm).value, msg)
    ensures Authenticate(c, env, WithManaged(reg, realm, b), msg) == Authenticate(c, env, reg, msg)
  {
    var before := Managed(reg, realm).value;
    SameAnswerResolves(c, env, None, realm, b, before, msg);
    if realm in reg.tenants {
      SameAnswerResolves(c, env, Some(reg.tenants[realm].id), realm, b, before, msg);
    }
  }

  /** Adding, loading or removing a user changes no answer to a request that names someone else, by name or by hash. */
  lemma UsersAreIsolated(c: Crypto, reg: Registry, ev: Event, env: Env, msg: Msg, names: set<Name>)
    requires Sane(c, reg, names) && IsUserOp(ev) && NamesAnother(c, msg, ev.name)
    ensures Authenticate(c, env, Step(c, reg, ev).reg, msg) == Authenticate(c, env, reg, msg)
  {
    if Managed(reg, ev.realm).Some? {
      var b := Managed(reg, ev.realm).value;
      ChangeKeepsOthers(c, env, b, ev, msg);
      ManagedKeepsAnswers(c, env, reg, ev.realm, Change(c, b, ev).0, msg);
    }
  }

  /** The backend that validates a realm's requests. */
  function Validating(reg: Registry, realm: Realm): Option<Backend> {
    if realm in reg.tenants then Some(reg.tenants[realm].auth)
    else if realm == reg.baseRealm then Some(reg.base)
    else None
  }

  /** An accepted request is signed, for the realm it names, with a key of the backend filed under that realm. */
  lemma AcceptedInItsRealm(c: Crypto, env: Env, reg: Registry, msg: Msg, names: set<Name>)
    requires Sane(c, reg, names) && Authenticate(c, env, reg, msg).0.Ok?
    ensures var r := Authenticate(c, env, reg, msg).0.value;
      && msg.realm == Some(r.realm) && c.intact(msg, r.key)
      && Validating(reg, r.realm).Some? && Validating(reg, r.realm).value.realm == r.realm
      && V.Validate(c, env, Validating(reg, r.realm).value, msg).result.Ok?
      && var v := V.Validate(c, env, Validating(reg, r.realm).value, msg).result.value;
      && r.key == v.key && r.maxLifetime == v.maxLifetime
      && (!Validating(reg, r.realm).value.SharedSecret? ==> r.subject == v.username)
      && r.tenant == if r.realm in reg.tenants then Some(reg.tenants[r.realm].id) else None
  {
  }

  /** An answer is what the realm's own backend says; a realm nobody has filed has no valid credentials. */
  lemma RefusedByItsRealm(c: Crypto, env: Env, reg: Registry, msg: Msg)
    requires Authenticate(c, env, reg, msg).0.Err?
    ensures var e := Authenticate(c, env, reg, msg).0.error;
      if msg.realm.None? then e == MissingCredentials
      else if Validating(reg, msg.realm.value).None? then e == InvalidCredentials
      else V.Validate(c, env, Validating(reg, msg.realm.value).value, msg).result == Err(e)
  {
  }

  /** The previous secret counts as used exactly when the realm's own backend used it, and by requests only. */
  lemma UsedByItsRealm(c: Crypto, env: Env, reg: Registry, msg: Msg, ev: Event)
    ensures Authenticate(c, env, reg, msg).1 <==>
      && msg.realm.Some? && Validating(reg, msg.realm.value).Some?
      && V.Validate(c, env, Validating(reg, msg.realm.value).value, msg).usedPrevious
    ensures !ev.Request? ==> !Step(c, reg, ev).usedPrevious && Step(c, reg, ev).response.Applied?
    ensures ev.Request? ==> Step(c, reg, ev).reg == reg
  {
  }

  /** The backend whose users are managed under a realm: the base realm's, or else the tenant's. */
  predicate ManagedAs(reg: Registry, realm: Realm, b: Backend) {
    || (realm == reg.baseRealm && b == reg.base)
    || (realm != reg.baseRealm && realm in reg.tenants && b == reg.tenants[realm].auth)
  }

  /** What a user operation leaves in the backend. */
  predicate Carried(c: Crypto, ev: Event, b: Backend)
    requires IsUserOp(ev) && b.LongTerm?
  {
    match ev
    case RemoveUserFor(_, name) => name !in b.users
    case AddUserFor(_, name, password) =>
      && name in b.users && b.users[name].md5 == c.md5Key(name, b.realm, password)
      && b.users[name].sha256 == c.sha256Key(name, b.realm, password)
    case LoadUserFor(_, name, keys) => name in b.users && b.users[name] == keys
    case _ => false
  }

  /** A user operation reaches the backend managed under its realm if that keeps users, and otherwise does nothing. */
  lemma ManageTakesEffect(c: Crypto, reg: Registry, ev: Event, b: Backend)
    requires IsUserOp(ev)
    ensures var next := Step(c, reg, ev);
      && next.response.Applied?
      && (ManagedAs(reg, ev.realm, b) && b.LongTerm? ==>
            && (next.response.ok <==> (ev.RemoveUserFor? ==> ev.name in b.users))
            && exists after :: ManagedAs(next.reg, ev.realm, after) && after.LongTerm? && Carried(c, ev, after))
      && (ManagedAs(reg, ev.realm, b) && !b.LongTerm? ==> !next.response.ok && next.reg == reg)
      && (ev.realm != reg.baseRealm && ev.realm !in reg.tenants ==> !next.response.ok && next.reg == reg)
  {
    if ManagedAs(reg, ev.realm, b) {
      assert ManagedAs(WithManaged(reg, ev.realm, Change(c, b, ev).0), ev.realm, Change(c, b, ev).0);
      if !b.LongTerm? && ev.realm in reg.tenants {
        assert reg.tenants[ev.realm := reg.tenants[ev.realm]] == reg.tenants;
      }
    }
  }

  /** A swap that succeeds puts the backend the recipe describes in the realm's place, and nothing else changes. */
  lemma SwapTakesEffect(c: Crypto, reg: Registry, ev: Event)
    requires ev.ReplaceBase? || ev.ReplaceTenant?
    ensures var next := Step(c, reg, ev);
      && next.response.Applied? && (!next.response.ok ==> next.reg == reg)
      && (ev.ReplaceBase? ==>
            (next.response.ok <==> ev.recipe.realm == reg.baseRealm && ev.recipe.StaticUsers? == reg.base.LongTerm?))
      && (ev.ReplaceTenant? ==>
            (next.response.ok <==> ev.realm in reg.tenants && ev.recipe.realm == ev.realm
                                   && ev.recipe.StaticUsers? == reg.tenants[ev.realm].auth.LongTerm?))
      && (next.response.ok && ev.ReplaceBase? ==>
            && Follows(c, ev.recipe, next.reg.base) && next.reg == reg.(base := next.reg.base))
      && (next.response.ok && ev.ReplaceTenant? ==>
            && ev.realm in reg.tenants && ev.realm in next.reg.tenants
            && Follows(c, ev.recipe, next.reg.tenants[ev.realm].auth)
            && next.reg == reg.(tenants := reg.tenants[ev.realm := next.reg.tenants[ev.realm]])
            && next.reg.tenants[ev.realm].id == reg.tenants[ev.realm].id)
  {
    BuiltFollows(c, ev.recipe);
  }

  lemma {:induction false} ConfiguredBase(c: Crypto, base: Recipe, tenants: seq<(string, Recipe)>)
    ensures var reg := Configured(c, base, tenants);
      Follows(c, base, reg.base) && reg.baseRealm == base.realm
  {
    if tenants == [] {
      BuiltFollows(c, base);
    } else {
      ConfiguredBase(c, base, tenants[..|tenants| - 1]);
    }
  }

  /** No later tenant of the list has the realm of the `i`-th. */
  predicate LastOfItsRealm(tenants: seq<(string, Recipe)>, i: nat) {
    i < |tenants| && forall j :: i < j < |tenants| ==> tenants[j].1.realm != tenants[i].1.realm
  }

  /** Each tenant is filed under its own realm with its own backend, the last one given for it. */
  lemma {:induction false} ConfiguredFollows(c: Crypto, base: Recipe, tenants: seq<(string, Recipe)>, i: nat)
    requires LastOfItsRealm(tenants, i)
    ensures var reg, realm := Configured(c, base, tenants), tenants[i].1.realm;
      realm in reg.tenants && reg.tenants[realm].id == tenants[i].0 && Follows(c, tenants[i].1, reg.tenants[realm].auth)
  {
    var init, last := tenants[..|tenants| - 1], tenants[|tenants| - 1];
    BuiltFollows(c, last.1);
    if i < |init| {
      assert LastOfItsRealm(init, i) && init[i] == tenants[i];
      ConfiguredFollows(c, base, init, i);
    }
  }

  /** And no other realm is. */
  lemma {:induction false} OnlyConfigured(c: Crypto, base: Recipe, tenants: seq<(string, Recipe)>, realm: Realm)
    requires realm in Configured(c, base, tenants).tenants
    ensures exists j :: 0 <= j < |tenants| && tenants[j].1.realm == realm
  {
    if tenants != [] {
      var init, last := tenants[..|tenants| - 1], tenants[|tenants| - 1];
      BuiltFollows(c, last.1);
      if realm == last.1.realm {
        assert tenants[|tenants| - 1].1.realm == realm;
      } else {
        OnlyConfigured(c, base, init, realm);
        var j :| 0 <= j < |init| && init[j].1.realm == realm;
        assert tenants[j].1.realm == realm;
      }
    }
  }

  /** Managing a realm's users reaches the backend that validates it exactly when the base realm is no tenant too. */
  lemma ManagementReachesIff(reg: Registry, realm: Realm)
    ensures (forall b: Backend :: Validating(WithManaged(reg, realm, b), realm)
                                  == if Validating(reg, realm).Some? then Some(b) else None)
      <==> !(realm == reg.baseRealm && realm in reg.tenants)
  {
    if realm == reg.baseRealm && realm in reg.tenants {
      var current := reg.tenants[realm].auth;
      var other := SharedSecret("", if current == SharedSecret("", [], None) then [0] else [], None);
      assert Validating(WithManaged(reg, realm, other), realm) == Some(current);
    }
  }

  /** Otherwise managing users of that realm changes no answer to any request. */
  lemma ShadowedBaseIsInert(c: Crypto, reg: Registry, ev: Event, env: Env, msg: Msg)
    requires IsUserOp(ev) && ev.realm == reg.baseRealm && reg.baseRealm in reg.tenants
    ensures Authenticate(c, env, Step(c, reg, ev).reg, msg) == Authenticate(c, env, reg, msg)
  {
  }
}
