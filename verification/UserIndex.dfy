/** The user table of a long-term realm and the USERHASH index kept beside it (section 14.4 of RFC 8489). */
module UserIndex {
  import opened Wrappers
  import opened Binary
  import opened Credentials
  import V = Validation
  import Webhook = WebhookCache

  // ----- operations

  function Derive(c: Crypto, realm: Realm, name: Name, password: string): Webhook.UserKeys {
    Webhook.UserKeys(c.md5Key(name, realm, password), c.sha256Key(name, realm, password))
  }

  /** Store a user's keys and index the name; backends without a table refuse. */
  function AddUserKeys(c: Crypto, b: Backend, name: Name, keys: Webhook.UserKeys): (Backend, bool) {
    if !b.LongTerm? then (b, false)
    else (b.(users := b.users[name := keys], hashes := b.hashes[c.userhash(name, b.realm) := name]), true)
  }

  function AddUser(c: Crypto, b: Backend, name: Name, password: string): (Backend, bool) {
    AddUserKeys(c, b, name, Derive(c, b.realm, name, password))
  }

  /** Drop a user; the index entry goes only if it names that user. */
  function RemoveUser(c: Crypto, b: Backend, name: Name): (Backend, bool) {
    if !b.LongTerm? then (b, false)
    else
      var hash := c.userhash(name, b.realm);
      var hashes := if hash in b.hashes && b.hashes[hash] == name then b.hashes - {hash} else b.hashes;
      (b.(users := b.users - {name}, hashes := hashes), name in b.users)
  }

  datatype Recipe =
    | StaticUsers(realm: Realm, list: seq<(Name, string)>, webhook: bool)
    | Rest(realm: Realm, secret: Secret, previous: Option<Secret>)
    | Tokens(realm: Realm, keys: seq<Bytes>, kidKeys: seq<(Name, Bytes)>, strictKid: bool, serverName: string)

  function Enrolled(c: Crypto, b: Backend, list: seq<(Name, string)>): Backend {
    if list == [] then b
    else AddUser(c, Enrolled(c, b, list[..|list| - 1]), list[|list| - 1].0, list[|list| - 1].1).0
  }

  /** The backend a configuration describes. */
  function Build(c: Crypto, r: Recipe): Backend {
    match r
    case StaticUsers(realm, list, webhook) => Enrolled(c, LongTerm(realm, map[], map[], webhook), list)
    case Rest(realm, secret, previous) => SharedSecret(realm, secret, previous)
    case Tokens(realm, keys, kidKeys, strictKid, serverName) => OAuth(realm, keys, kidKeys, strictKid, serverName)
  }

  // ----- what the index means

  /** Every index entry names an existing user with that hash. */
  ghost predicate Sound(c: Crypto, b: Backend) {
    b.LongTerm? ==> forall h :: h in b.hashes ==> b.hashes[h] in b.users && c.userhash(b.hashes[h], b.realm) == h
  }

  /** Every user is indexed under its own hash. */
  ghost predicate Complete(c: Crypto, b: Backend) {
    b.LongTerm? ==> forall n :: n in b.users ==> HasEntry(c, b, n)
  }

  predicate HasEntry(c: Crypto, b: Backend, n: Name)
    requires b.LongTerm?
  {
    c.userhash(n, b.realm) in b.hashes && b.hashes[c.userhash(n, b.realm)] == n
  }

  ghost predicate CollisionFree(c: Crypto, realm: Realm, names: set<Name>) {
    forall a, b :: a in names && b in names && c.userhash(a, realm) == c.userhash(b, realm) ==> a == b
  }

  ghost predicate Within(b: Backend, names: set<Name>) {
    b.LongTerm? ==> b.users.Keys <= names
  }

  /** Sound always, and complete as long as the names in use have different hashes. */
  ghost predicate Indexed(c: Crypto, b: Backend, names: set<Name>) {
    Sound(c, b) && Within(b, names) && (CollisionFree(c, b.realm, names) ==> Complete(c, b))
  }

  lemma AddKeepsIndexed(c: Crypto, b: Backend, name: Name, keys: Webhook.UserKeys, names: set<Name>)
    requires Indexed(c, b, names) && name in names
    ensures Indexed(c, AddUserKeys(c, b, name, keys).0, names)
    ensures AddUserKeys(c, b, name, keys).0.realm == b.realm && AddUserKeys(c, b, name, keys).0.LongTerm? == b.LongTerm?
  {
    var after := AddUserKeys(c, b, name, keys).0;
    if b.LongTerm? && CollisionFree(c, b.realm, names) {
      forall n | n in after.users
        ensures HasEntry(c, after, n)
      {
        assert n == name || HasEntry(c, b, n);
      }
    }
  }

  lemma RemoveKeepsIndexed(c: Crypto, b: Backend, name: Name, names: set<Name>)
    requires Indexed(c, b, names)
    ensures Indexed(c, RemoveUser(c, b, name).0, names)
    ensures RemoveUser(c, b, name).0.realm == b.realm && RemoveUser(c, b, name).0.LongTerm? == b.LongTerm?
  {
    var after := RemoveUser(c, b, name).0;
    if b.LongTerm? && CollisionFree(c, b.realm, names) {
      forall n | n in after.users
        ensures HasEntry(c, after, n)
      {
        assert HasEntry(c, b, n);
      }
    }
  }

  // ----- what an operation leaves alone

  /** Adding or loading a user sets that user's keys and index entry and nothing else. */
  lemma AddKeepsOthers(c: Crypto, b: Backend, name: Name, keys: Webhook.UserKeys)
    ensures var (after, ok) := AddUserKeys(c, b, name, keys);
      && (ok <==> b.LongTerm?) && (!ok ==> after == b)
      && (ok ==>
            && after == b.(users := after.users, hashes := after.hashes)
            && name in after.users && after.users[name] == keys && HasEntry(c, after, name)
            && (forall n :: n != name ==> (n in after.users <==> n in b.users))
            && (forall n :: n != name && n in b.users ==> after.users[n] == b.users[n])
            && (forall h :: h != c.userhash(name, b.realm) ==> (h in after.hashes <==> h in b.hashes))
            && (forall h :: h != c.userhash(name, b.realm) && h in b.hashes ==> after.hashes[h] == b.hashes[h]))
  {
  }

  /** Removing a user takes that user and an index entry naming them, and nothing else. */
  lemma RemoveKeepsOthers(c: Crypto, b: Backend, name: Name)
    ensures var (after, ok) := RemoveUser(c, b, name);
      && (ok <==> b.LongTerm? && name in b.users) && (!b.LongTerm? ==> after == b)
      && (b.LongTerm? ==>
            && after == b.(users := after.users, hashes := after.hashes)
            && name !in after.users
            && (forall n :: n != name ==> (n in after.users <==> n in b.users))
            && (forall n :: n != name && n in b.users ==> after.users[n] == b.users[n])
            && (forall h :: h in after.hashes ==> h in b.hashes && after.hashes[h] == b.hashes[h])
            && (forall h :: h in b.hashes && h !in after.hashes <==>
                  h in b.hashes && b.hashes[h] == name && h == c.userhash(name, b.realm)))
  {
  }

  ghost function NamesIn(list: seq<(Name, string)>): set<Name> {
    set i | 0 <= i < |list| :: list[i].0
  }

  ghost function RecipeNames(r: Recipe): set<Name> {
    if r.StaticUsers? then NamesIn(r.list) else {}
  }

  lemma {:induction false} EnrolledIsIndexed(c: Crypto, b: Backend, list: seq<(Name, string)>, names: set<Name>)
    requires Indexed(c, b, names) && NamesIn(list) <= names
    ensures Indexed(c, Enrolled(c, b, list), names)
    ensures Enrolled(c, b, list).realm == b.realm && Enrolled(c, b, list).LongTerm? == b.LongTerm?
  {
    if list != [] {
      var init, last := list[..|list| - 1], list[|list| - 1];
      forall n | n in NamesIn(init)
        ensures n in names
      {
        var i :| 0 <= i < |init| && n == init[i].0;
        assert n == list[i].0 && n in NamesIn(list);
      }
      EnrolledIsIndexed(c, b, init, names);
      assert last.0 in NamesIn(list);
      var mid := Enrolled(c, b, init);
      AddKeepsIndexed(c, mid, last.0, Derive(c, mid.realm, last.0, last.1), names);
    }
  }

  /** Every configured backend starts out indexed, in the realm it was configured for. */
  lemma BuiltIsIndexed(c: Crypto, r: Recipe, names: set<Name>)
    requires RecipeNames(r) <= names
    ensures Indexed(c, Build(c, r), names) && Build(c, r).realm == r.realm
    ensures Build(c, r).LongTerm? == r.StaticUsers?
  {
    if r.StaticUsers? {
      EnrolledIsIndexed(c, LongTerm(r.realm, map[], map[], r.webhook), r.list, names);
    }
  }

  /** A name's password in a list of users: the last one given for it. */
  ghost predicate PasswordIn(list: seq<(Name, string)>, name: Name, password: string) {
    exists i :: 0 <= i < |list| && list[i] == (name, password) && forall j :: i < j < |list| ==> list[j].0 != name
  }

  lemma {:induction false} EnrolledUsers(c: Crypto, b: Backend, list: seq<(Name, string)>, name: Name)
    requires b.LongTerm? && b.users == map[]
    ensures var e := Enrolled(c, b, list);
      && e.LongTerm? && e.realm == b.realm && e.webhook == b.webhook
      && (name in e.users <==> exists password :: PasswordIn(list, name, password))
      && forall password :: PasswordIn(list, name, password) ==>
           && name in e.users
           && e.users[name].md5 == c.md5Key(name, b.realm, password)
           && e.users[name].sha256 == c.sha256Key(name, b.realm, password)
  {
    if list == [] {
    } else {
      var init, last := list[..|list| - 1], list[|list| - 1];
      EnrolledUsers(c, b, init, name);
      if last.0 == name {
        assert PasswordIn(list, name, last.1);
      } else {
        forall password
          ensures PasswordIn(list, name, password) <==> PasswordIn(init, name, password)
        {
          SameBefore(list, name, password);
        }
      }
    }
  }

  lemma SameBefore(list: seq<(Name, string)>, name: Name, password: string)
    requires list != [] && list[|list| - 1].0 != name
    ensures PasswordIn(list, name, password) <==> PasswordIn(list[..|list| - 1], name, password)
  {
    var init := list[..|list| - 1];
    if PasswordIn(init, name, password) {
      var i :| 0 <= i < |init| && init[i] == (name, password) && forall j :: i < j < |init| ==> init[j].0 != name;
      assert list[i] == (name, password);
      assert forall j :: i < j < |list| ==> list[j].0 != name;
    }
    if PasswordIn(list, name, password) {
      var i :| 0 <= i < |list| && list[i] == (name, password) && forall j :: i < j < |list| ==> list[j].0 != name;
      assert init[i] == (name, password);
    }
  }

  /** The backend is what the configuration says: its users under their last passwords, its secrets, or its keys. */
  ghost predicate Follows(c: Crypto, r: Recipe, b: Backend) {
    match r
    case StaticUsers(realm, list, webhook) =>
      && b.LongTerm? && b.realm == realm && b.webhook == webhook
      && (forall n :: n in b.users <==> exists password :: PasswordIn(list, n, password))
      && (forall n, password :: PasswordIn(list, n, password) ==>
            && n in b.users && b.users[n].md5 == c.md5Key(n, realm, password)
            && b.users[n].sha256 == c.sha256Key(n, realm, password))
    case Rest(realm, secret, previous) =>
      b.SharedSecret? && b.realm == realm && b.secret == secret && b.previous == previous
    case Tokens(realm, keys, kidKeys, strictKid, serverName) =>
      && b.OAuth? && b.realm == realm && b.keys == keys && b.kidKeys == kidKeys
      && b.strictKid == strictKid && b.serverName == serverName
  }

  lemma BuiltFollows(c: Crypto, r: Recipe)
    ensures Follows(c, r, Build(c, r))
  {
    if r.StaticUsers? {
      var empty, b := LongTerm(r.realm, map[], map[], r.webhook), Build(c, r);
      EnrolledUsers(c, empty, r.list, "");
      forall n
        ensures n in b.users <==> exists password :: PasswordIn(r.list, n, password)
        ensures forall password :: PasswordIn(r.list, n, password) ==>
                  && n in b.users && b.users[n].md5 == c.md5Key(n, r.realm, password)
                  && b.users[n].sha256 == c.sha256Key(n, r.realm, password)
      {
        EnrolledUsers(c, empty, r.list, n);
      }
    }
  }

  // ----- what the index is for

  /** With different hashes, a USERHASH resolves to a name exactly when that is the user with the hash. */
  lemma HashResolvesIff(c: Crypto, b: Backend, msg: Msg, hash: Bytes, name: Name, names: set<Name>)
    requires b.LongTerm? && Indexed(c, b, names) && CollisionFree(c, b.realm, names)
    requires msg.username == None && msg.userhash == Some(hash)
    ensures V.ResolveUsername(b, msg) == Ok(name) <==> name in b.users && c.userhash(name, b.realm) == hash
  {
    if name in b.users {
      assert HasEntry(c, b, name);
    }
  }

  /** A known user gets the same answer by USERHASH as by USERNAME, key included. */
  lemma HashAndNameAgree(c: Crypto, env: Env, b: Backend, byName: Msg, byHash: Msg, name: Name, names: set<Name>)
    requires b.LongTerm? && Indexed(c, b, names) && CollisionFree(c, b.realm, names) && name in b.users
    requires byName.username == Some(name)
    requires byHash.username == None && byHash.userhash == Some(c.userhash(name, b.realm))
    requires byHash.realm == byName.realm && byHash.hasSha256 == byName.hasSha256
    requires byHash.algorithm == byName.algorithm
    requires forall key :: c.intact(byHash, key) == c.intact(byName, key)
    ensures V.Validate(c, env, b, byHash) == V.Validate(c, env, b, byName)
  {
    HashResolvesIff(c, b, byHash, c.userhash(name, b.realm), name, names);
  }

  /** The message names the user, by name or by hash. */
  predicate Names(c: Crypto, msg: Msg, realm: Realm, name: Name) {
    msg.realm == Some(realm)
    && (msg.username == Some(name) || (msg.username == None && msg.userhash == Some(c.userhash(name, realm))))
  }

  /**
   * Once added, a user is accepted, by name or by hash, exactly when the request is signed with their password's
   * key, uses an allowed digest and names a fitting algorithm; otherwise the first of these to fail says why.
   */
  lemma AddedUserAcceptedIff(c: Crypto, env: Env, b: Backend, name: Name, password: string, msg: Msg)
    requires b.LongTerm? && Names(c, msg, b.realm, name)
    ensures var key := if msg.hasSha256 then c.sha256Key(name, b.realm, password)
                       else c.md5Key(name, b.realm, password);
      var r := V.Validate(c, env, AddUser(c, b, name, password).0, msg).result;
      r == if env.requireSha256 && !msg.hasSha256 then Err(InvalidCredentials)
           else if !NamesItsDigest(msg) then Err(BadRequest)
           else if c.intact(msg, key) then Ok(Validated(key, None, name)) else Err(IntegrityFailed)
  {
  }

  /** The webhook has keys for the name, and the request carries it and is signed with the one it calls for. */
  predicate Vouched(c: Crypto, env: Env, name: Name, msg: Msg) {
    && msg.username == Some(name) && env.remote(name).Hit?
    && var key := if msg.hasSha256 then env.remote(name).keys.sha256 else env.remote(name).keys.md5;
    && key != [] && c.intact(msg, key) && NamesItsDigest(msg)
    && (env.requireSha256 ==> msg.hasSha256)
  }

  /**
   * Once removed, a request under that name or its hash is accepted exactly when a configured webhook vouches for
   * it, so never by hash; and where the webhook has no say or knows no such user, the credentials are invalid.
   */
  lemma RemovedUserIsRefused(c: Crypto, env: Env, b: Backend, name: Name, msg: Msg, names: set<Name>)
    requires b.LongTerm? && Names(c, msg, b.realm, name)
    requires Indexed(c, b, names) && CollisionFree(c, b.realm, names + {name})
    ensures var r := V.Validate(c, env, RemoveUser(c, b, name).0, msg).result;
      && (r.Ok? <==> b.webhook && Vouched(c, env, name, msg))
      && (!b.webhook || msg.username.None? || env.remote(name).NoUser? ==> r == Err(InvalidCredentials))
  {
    var hash := c.userhash(name, b.realm);
    if hash in b.hashes {
      assert b.hashes[hash] in b.users;
    }
  }

  /** When two users share a hash, the one added last holds the entry and the other cannot be found by hash. */
  lemma SharedHashHidesTheEarlier(c: Crypto, b: Backend, x: Name, y: Name, p: string, q: string)
    requires b.LongTerm? && x != y && c.userhash(x, b.realm) == c.userhash(y, b.realm)
    ensures var after := AddUser(c, AddUser(c, b, x, p).0, y, q).0;
      x in after.users && !HasEntry(c, after, x) && HasEntry(c, after, y)
      && !HasEntry(c, RemoveUser(c, after, y).0, x)
  {
  }

  /** The two maps of a long-term backend, written in place. */
  class UserTable {
    const realm: Realm
    var users: map<Name, Webhook.UserKeys>
    var hashes: map<Bytes, Name>

    ghost function View(): Backend
      reads this
    {
      LongTerm(realm, users, hashes, false)
    }

    constructor (name: Realm)
      ensures View() == LongTerm(name, map[], map[], false)
    {
      realm, users, hashes := name, map[], map[];
    }

    method Load(c: Crypto, name: Name, keys: Webhook.UserKeys)
      modifies this
      ensures View() == AddUserKeys(c, old(View()), name, keys).0
      ensures users == old(users)[name := keys] && hashes == old(hashes)[c.userhash(name, realm) := name]
      ensures forall names :: old(Indexed(c, View(), names)) && name in names ==> Indexed(c, View(), names)
    {
      forall names | Indexed(c, View(), names) && name in names
        ensures Indexed(c, AddUserKeys(c, View(), name, keys).0, names)
      {
        AddKeepsIndexed(c, View(), name, keys, names);
      }
      users := users[name := keys];
      hashes := hashes[c.userhash(name, realm) := name];
    }

    method Remove(c: Crypto, name: Name) returns (present: bool)
      modifies this
      ensures (View(), present) == RemoveUser(c, old(View()), name)
      ensures users == old(users) - {name} && (present <==> name in old(users))
      ensures forall h :: h in old(hashes) && (h != c.userhash(name, realm) || old(hashes)[h] != name) ==>
                h in hashes && hashes[h] == old(hashes)[h]
      ensures forall h :: h in hashes ==> h in old(hashes) && hashes[h] == old(hashes)[h]
      ensures c.userhash(name, realm) in hashes ==> hashes[c.userhash(name, realm)] != name
      ensures forall names :: old(Indexed(c, View(), names)) ==> Indexed(c, View(), names)
    {
      forall names | Indexed(c, View(), names)
        ensures Indexed(c, RemoveUser(c, View(), name).0, names)
      {
        RemoveKeepsIndexed(c, View(), name, names);
      }
      var hash := c.userhash(name, realm);
      if hash in hashes && hashes[hash] == name {
        hashes := hashes - {hash};
      }
      present := name in users;
      users := users - {name};
    }
  }
}
