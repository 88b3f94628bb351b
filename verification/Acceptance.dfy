/**
 Who is let in, said without the validator: which names, keys, secrets and tokens a request may rest on.
 The validator accepts exactly these requests.
 */
module Acceptance {
  import opened Wrappers
  import opened Binary
  import opened Credentials
  import V = Validation
  import O = OAuthToken
  import Webhook = WebhookCache

  // ----- what every realm but a token realm asks

  /** The request names the realm, its algorithm fits its digest, and it uses SHA-256 where that is demanded. */
  predicate Proper(env: Env, b: Backend, msg: Msg) {
    msg.realm == Some(b.realm) && NamesItsDigest(msg) && (env.requireSha256 ==> msg.hasSha256)
  }

  /** `key` is the one of the two that goes with the digest, and the request is signed with it. */
  predicate SignedBy(c: Crypto, msg: Msg, md5: Bytes, sha256: Bytes, key: Bytes) {
    c.intact(msg, key) && key == (if msg.hasSha256 then sha256 else md5)
  }

  // ----- users with passwords

  /** The request is about `name`: it says so, or carries no name but a hash the index has for it. */
  predicate About(b: Backend, msg: Msg, name: Name)
    requires b.LongTerm?
  {
    match msg.username
    case Some(n) => n == name
    case None => msg.userhash.Some? && msg.userhash.value in b.hashes && b.hashes[msg.userhash.value] == name
  }

  /** A known user's key, or else a key the webhook has for the name. */
  predicate PasswordOpens(c: Crypto, env: Env, b: Backend, msg: Msg, name: Name, key: Bytes)
    requires b.LongTerm?
  {
    && Proper(env, b, msg) && About(b, msg, name)
    && if name in b.users then SignedBy(c, msg, b.users[name].md5, b.users[name].sha256, key)
       else
         && b.webhook && env.remote(name).Hit? && key != []
         && SignedBy(c, msg, env.remote(name).keys.md5, env.remote(name).keys.sha256, key)
  }

  lemma LongTermAcceptsIff(c: Crypto, env: Env, b: Backend, msg: Msg, key: Bytes, life: Option<nat>, name: Name)
    requires b.LongTerm?
    ensures V.Validate(c, env, b, msg).result == Ok(Validated(key, life, name)) <==>
            life == None && PasswordOpens(c, env, b, msg, name, key)
    ensures !V.Validate(c, env, b, msg).usedPrevious
  {
  }

  /** A refusal for want of a usable webhook answer passes that answer on. */
  lemma LongTermWaits(c: Crypto, env: Env, b: Backend, msg: Msg, name: Name)
    requires b.LongTerm? && b.webhook && About(b, msg, name) && name !in b.users
    requires msg.realm == Some(b.realm) && (env.requireSha256 ==> msg.hasSha256)
    ensures var r := V.Validate(c, env, b, msg).result;
      && (env.remote(name).Unavailable? ==> r == Err(Unavailable))
      && (env.remote(name).Throttled? ==> r == Err(Throttled))
      && (env.remote(name).Pending? ==> r == Err(Pending(env.remote(name).waiter)))
      && (env.remote(name).NoUser? ==> r == Err(InvalidCredentials))
  {
  }

  /** What is missing, unknown or for another realm is refused before any key is looked at. */
  lemma RefusedUnseen(c: Crypto, env: Env, b: Backend, msg: Msg)
    requires !b.OAuth?
    ensures var r := V.Validate(c, env, b, msg).result;
      && ((msg.username.None? && msg.userhash.None?) || msg.realm.None? ==> r == Err(MissingCredentials))
      && ((msg.username.Some? || msg.userhash.Some?) && msg.realm.Some? && msg.realm.value != b.realm ==>
            r == Err(InvalidCredentials))
      && (msg.realm == Some(b.realm) && msg.username.None? && msg.userhash.Some? ==>
            b.SharedSecret? || msg.userhash.value !in b.hashes ==> r == Err(InvalidCredentials))
  {
  }

  // ----- time-limited names under a shared secret

  /** The value of a text of digits, read from the right. */
  function Value(s: string): nat {
    if s == [] then 0 else
      var d := s[|s| - 1];
      10 * Value(s[..|s| - 1]) + if '0' <= d <= '9' then (d - '0') as nat else 0
  }

  predicate Digits(s: string) {
    s != [] && forall i :: 0 <= i < |s| ==> '0' <= s[i] <= '9'
  }

  /** `n` in decimal, perhaps after a plus sign, and small enough for 64 bits. */
  predicate Spells(s: string, n: nat) {
    var digits := if s != [] && s[0] == '+' then s[1..] else s;
    Digits(digits) && n == Value(digits) && n <= U64_MAX
  }

  lemma {:induction false} ValueFront(d: char, s: string)
    requires '0' <= d <= '9'
    ensures Value([d] + s) == Value(s) + ((d - '0') as nat) * Tens(|s|)
  {
    if s == [] {
      assert [d] + s == [d] && [d][..0] == [];
    } else {
      var init, l := s[..|s| - 1], s[|s| - 1];
      ValueFront(d, init);
      assert ([d] + s)[..|s|] == [d] + init && ([d] + s)[|s|] == l;
      TenTimes((d - '0') as nat, |init|);
    }
  }

  function Tens(n: nat): nat {
    if n == 0 then 1 else 10 * Tens(n - 1)
  }

  lemma TenTimes(x: nat, n: nat)
    ensures 10 * (x * Tens(n)) == x * Tens(n + 1)
  {
  }

  lemma TensGrow(n: nat)
    ensures Tens(n) >= 1
  {
    if n > 0 {
      TensGrow(n - 1);
    }
  }

  lemma Distribute(acc: nat, d: nat, t: nat)
    ensures (acc * 10 + d) * t == acc * (10 * t) + d * t
  {
  }

  lemma Grows(acc: nat, t: nat, v: nat)
    requires t >= 1
    ensures acc * t + v >= acc
  {
    assert acc * t >= acc * 1;
  }

  /** Reading digits onto a number already read. */
  lemma {:induction false} ParseDigitsIff(s: string, acc: nat)
    requires acc <= U64_MAX
    ensures var all := acc * Tens(|s|) + Value(s);
      V.ParseDigits(s, acc) ==
        if (forall i :: 0 <= i < |s| ==> '0' <= s[i] <= '9') && all <= U64_MAX then Some(all) else None
  {
    if s == [] {
    } else if '0' <= s[0] <= '9' {
      var d, rest := (s[0] - '0') as nat, s[1..];
      assert s == [s[0]] + rest;
      ValueFront(s[0], rest);
      Distribute(acc, d, Tens(|rest|));
      TensGrow(|rest|);
      Grows(acc * 10 + d, Tens(|rest|), Value(rest));
      if acc * 10 + d <= U64_MAX {
        ParseDigitsIff(rest, acc * 10 + d);
      }
      assert forall i :: 0 < i < |s| ==> s[i] == rest[i - 1];
    }
  }

  lemma ParseU64Iff(s: string, n: nat)
    ensures V.ParseU64(s) == Some(n) <==> Spells(s, n)
  {
    var digits := if s != [] && s[0] == '+' then s[1..] else s;
    if digits != [] {
      ParseDigitsIff(digits, 0);
    }
  }

  /** The text up to its first colon, and the rest. */
  predicate Split(s: string, before: string, after: string) {
    s == before + ":" + after && ':' !in before
  }

  lemma {:induction false} SplitAtColonIff(s: string, before: string, after: string)
    ensures V.SplitAtColon(s) == Some((before, after)) <==> Split(s, before, after)
    ensures V.SplitAtColon(s) == None <==> ':' !in s
  {
    if s == [] {
      assert !Split(s, before, after);
    } else if s[0] == ':' {
      assert s == [] + ":" + s[1..];
      SplitStartsWithColon(s, before, after);
    } else {
      SplitAtColonIff(s[1..], if before == [] then [] else before[1..], after);
      assert ':' in s <==> ':' in s[1..];
      SplitOneMore(s, before, after);
      assert before != [] ==> before == [before[0]] + before[1..];
      if V.SplitAtColon(s[1..]).Some? {
        var b := V.SplitAtColon(s[1..]).value.0;
        assert ([s[0]] + b)[1..] == b;
      }
    }
  }

  lemma SplitStartsWithColon(s: string, before: string, after: string)
    requires s != [] && s[0] == ':'
    ensures Split(s, before, after) <==> before == [] && after == s[1..]
  {
    assert before == [] ==> before + ":" + after == [':'] + after;
    assert before != [] ==> before[0] in before && (before + ":" + after)[0] == before[0];
    assert s == [s[0]] + s[1..] && ([':'] + after)[1..] == after;
  }

  lemma SplitOneMore(s: string, before: string, after: string)
    requires s != [] && s[0] != ':'
    ensures Split(s, before, after) <==> before != [] && before[0] == s[0] && Split(s[1..], before[1..], after)
  {
    if before == [] {
      assert before + ":" + after == [':'] + after;
    } else {
      assert before + ":" + after == [before[0]] + (before[1..] + ":" + after);
      assert s == [s[0]] + s[1..];
      assert ':' in before <==> before[0] == ':' || ':' in before[1..];
      assert ([before[0]] + (before[1..] + ":" + after))[1..] == before[1..] + ":" + after;
    }
  }

  /** The name begins with an expiry that is not over yet, the skew included. */
  ghost predicate Unexpired(env: Env, name: Name) {
    exists stamp, user, expiry: nat ::
      Split(name, stamp, user) && Spells(stamp, expiry) && (env.now <= expiry + env.skew && env.now <= U64_MAX)
  }

  lemma UnexpiredIff(env: Env, name: Name)
    ensures V.CheckExpiry(env, name) == None <==> Unexpired(env, name)
  {
    match V.SplitAtColon(name)
    case None =>
      forall stamp, user
        ensures !Split(name, stamp, user)
      {
        SplitAtColonIff(name, stamp, user);
      }
    case Some((stamp, user)) =>
      SplitAtColonIff(name, stamp, user);
      forall s, u | Split(name, s, u)
        ensures s == stamp
      {
        SplitAtColonIff(name, s, u);
      }
      forall n: nat
        ensures V.ParseU64(stamp) == Some(n) <==> Spells(stamp, n)
      {
        ParseU64Iff(stamp, n);
      }
      if V.ParseU64(stamp).Some? {
        assert Spells(stamp, V.ParseU64(stamp).value);
      }
  }

  /** The key a holder of `secret` gives the user of this name. */
  function SecretKey(c: Crypto, realm: Realm, secret: Secret, name: Name, sha256: bool): Bytes {
    if sha256 then c.sha256Key(name, realm, c.restPassword(secret, name))
    else c.md5Key(name, realm, c.restPassword(secret, name))
  }

  /** The key under the current secret, or the previous one's if only that one has signed the request. */
  ghost predicate SecretOpens(c: Crypto, env: Env, b: Backend, msg: Msg, name: Name, key: Bytes, previous: bool)
    requires b.SharedSecret?
  {
    && Proper(env, b, msg) && msg.username == Some(name) && Unexpired(env, name) && c.intact(msg, key)
    && var current := SecretKey(c, b.realm, b.secret, name, msg.hasSha256);
    && (previous <==> !c.intact(msg, current))
    && if previous then b.previous.Some? && key == SecretKey(c, b.realm, b.previous.value, name, msg.hasSha256)
       else key == current
  }

  lemma SharedAcceptsIff(c: Crypto, env: Env, b: Backend, msg: Msg, key: Bytes, life: Option<nat>, name: Name,
                         previous: bool)
    requires b.SharedSecret?
    ensures (V.Validate(c, env, b, msg).result == Ok(Validated(key, life, name))
             && V.Validate(c, env, b, msg).usedPrevious == previous) <==>
            life == None && SecretOpens(c, env, b, msg, name, key, previous)
  {
    UnexpiredIff(env, name);
  }

  // ----- tokens

  /** Some key the request may be opened with: the first of its kid, or any, unless selection is strict. */
  ghost predicate MayOpen(b: Backend, username: Option<Name>, key: Bytes)
    requires b.OAuth?
  {
    if username.Some? && exists i :: 0 <= i < |b.kidKeys| && b.kidKeys[i].0 == username.value then
      exists i :: 0 <= i < |b.kidKeys| && b.kidKeys[i] == (username.value, key)
                  && forall j :: 0 <= j < i ==> b.kidKeys[j].0 != username.value
    else !b.strictKid && (key in b.keys || exists i :: 0 <= i < |b.kidKeys| && b.kidKeys[i].1 == key)
  }

  lemma {:induction false} KidKeyIff(kidKeys: seq<(Name, Bytes)>, kid: Name, key: Bytes)
    ensures O.KidKey(kidKeys, kid) == Some(key) <==>
      exists i :: 0 <= i < |kidKeys| && kidKeys[i] == (kid, key) && forall j :: 0 <= j < i ==> kidKeys[j].0 != kid
    ensures O.KidKey(kidKeys, kid) == None <==> forall i :: 0 <= i < |kidKeys| ==> kidKeys[i].0 != kid
  {
    if kidKeys != [] {
      var rest := kidKeys[1..];
      assert forall i :: 0 <= i < |rest| ==> rest[i] == kidKeys[i + 1];
      KidKeyIff(rest, kid, key);
      if kidKeys[0].0 == kid {
        if kidKeys[0].1 == key {
          assert kidKeys[0] == (kid, key);
        }
      } else {
        KidKeyLater(kidKeys, kid, key);
      }
    }
  }

  lemma KidKeyLater(kidKeys: seq<(Name, Bytes)>, kid: Name, key: Bytes)
    requires kidKeys != [] && kidKeys[0].0 != kid
    ensures var rest := kidKeys[1..];
      (exists i :: 0 <= i < |kidKeys| && kidKeys[i] == (kid, key) && forall j :: 0 <= j < i ==> kidKeys[j].0 != kid)
      <==> exists i :: 0 <= i < |rest| && rest[i] == (kid, key) && forall j :: 0 <= j < i ==> rest[j].0 != kid
  {
    var rest := kidKeys[1..];
    if i :| 0 <= i < |kidKeys| && kidKeys[i] == (kid, key) && forall j :: 0 <= j < i ==> kidKeys[j].0 != kid {
      assert rest[i - 1] == (kid, key) && forall j :: 0 <= j < i - 1 ==> rest[j] == kidKeys[j + 1];
    }
    if i :| 0 <= i < |rest| && rest[i] == (kid, key) && forall j :: 0 <= j < i ==> rest[j].0 != kid {
      assert kidKeys[i + 1] == (kid, key);
      assert forall j :: 0 < j < i + 1 ==> kidKeys[j] == rest[j - 1];
    }
  }

  lemma {:induction false} KeysOfIff(kidKeys: seq<(Name, Bytes)>, key: Bytes)
    ensures key in O.KeysOf(kidKeys) <==> exists i :: 0 <= i < |kidKeys| && kidKeys[i].1 == key
  {
    if kidKeys != [] {
      var rest := kidKeys[1..];
      KeysOfIff(rest, key);
      if i :| 0 <= i < |kidKeys| && kidKeys[i].1 == key {
        assert i > 0 ==> rest[i - 1].1 == key;
      }
      if i :| 0 <= i < |rest| && rest[i].1 == key {
        assert kidKeys[i + 1].1 == key;
      }
    }
  }

  /** Trial decryption goes through exactly these keys; a strict realm says why it has none. */
  lemma CandidatesIff(b: Backend, username: Option<Name>, key: Bytes)
    requires b.OAuth?
    ensures var ring := O.CandidateKeys(b, username);
      && (ring.Ok? && key in ring.value <==> MayOpen(b, username, key))
      && (ring.Err? ==> b.strictKid && ring.error == if username.None? then MissingCredentials else InvalidCredentials)
  {
    KeysOfIff(b.kidKeys, key);
    if username.Some? {
      KidKeyIff(b.kidKeys, username.value, key);
      match O.KidKey(b.kidKeys, username.value)
      case None =>
      case Some(k) => KidKeyIff(b.kidKeys, username.value, k);
    }
  }

  /** The token is a 2-byte nonce length, the 12-byte nonce and a block `key` opens to `plain`. */
  ghost predicate OpensTo(c: Crypto, key: Bytes, serverName: string, token: Bytes, plain: Bytes) {
    && |token| >= 14 && FromBigEndian(token[..2]) == 12 && (|key| == 16 || |key| == 32)
    && c.open(key, token[2..14], serverName, token[14..]) == Some(plain)
  }

  lemma {:induction false} SomeKeyOpened(c: Crypto, ring: seq<Bytes>, nonce: Bytes, serverName: string, sealed: Bytes)
    returns (key: Bytes)
    requires O.DecryptAny(c, ring, nonce, serverName, sealed).Some?
    ensures key in ring && |nonce| == 12 && (|key| == 16 || |key| == 32)
    ensures c.open(key, nonce, serverName, sealed) == O.DecryptAny(c, ring, nonce, serverName, sealed)
  {
    if O.Decrypt(c, ring[0], nonce, serverName, sealed).Some? {
      key := ring[0];
    } else {
      key := SomeKeyOpened(c, ring[1..], nonce, serverName, sealed);
    }
  }

  /** The session key, issue time and lifetime a block of plain text begins with. */
  ghost predicate Holds(plain: Bytes, macKey: Bytes, stamp: nat, lifetime: nat) {
    && |plain| >= |macKey| + 14 && FromBigEndian(plain[..2]) == |macKey| && plain[2..2 + |macKey|] == macKey
    && FromBigEndian(plain[2 + |macKey|..10 + |macKey|]) == stamp
    && FromBigEndian(plain[10 + |macKey|..14 + |macKey|]) == lifetime
  }

  /**
   An accepted token was opened by a key the request may use, under the server's name; the request is signed
   with the session key in it; it is neither older nor newer than its lifetime and five seconds allow, and may
   be used until its own end.
   */
  lemma AcceptedToken(c: Crypto, env: Env, b: Backend, msg: Msg)
    returns (key: Bytes, plain: Bytes, stamp: nat, lifetime: nat)
    requires b.OAuth? && V.Validate(c, env, b, msg).result.Ok?
    ensures var v := V.Validate(c, env, b, msg).result.value;
      && msg.token.Some? && MayOpen(b, msg.username, key) && OpensTo(c, key, b.serverName, msg.token.value, plain)
      && Holds(plain, v.key, stamp, lifetime) && v.key != [] && c.intact(msg, v.key)
      && stamp / 0x1_0000 < env.now + lifetime + 5 && env.now < stamp / 0x1_0000 + lifetime + 5
      && v.maxLifetime == Some(Min(Max(Min(stamp / 0x1_0000 + lifetime, U64_MAX) - env.now, 0), U32_MAX))
      && v.username == if msg.username.Some? then msg.username.value else ""
  {
    var ring := O.CandidateKeys(b, msg.username).value;
    var token := msg.token.value;
    var n := FromBigEndian(token[..2]);
    key := SomeKeyOpened(c, ring, token[2..2 + n], b.serverName, token[2 + n..]);
    CandidatesIff(b, msg.username, key);
    plain := O.DecryptAny(c, ring, token[2..2 + n], b.serverName, token[2 + n..]).value;
    var o := O.ParseBlock(plain).value;
    stamp, lifetime := o.timestamp, o.lifetime;
  }

  lemma {:induction false} RingDecrypts(c: Crypto, ring: seq<Bytes>, nonce: Bytes, serverName: string, sealed: Bytes,
                                        key: Bytes, plain: Bytes)
    requires key in ring && |nonce| == 12 && (|key| == 16 || |key| == 32)
    requires c.open(key, nonce, serverName, sealed) == Some(plain)
    requires forall k :: k in ring && (|k| == 16 || |k| == 32) ==>
               c.open(k, nonce, serverName, sealed) in {None, Some(plain)}
    ensures O.DecryptAny(c, ring, nonce, serverName, sealed) == Some(plain)
  {
    assert ring[0] in ring;
    if O.Decrypt(c, ring[0], nonce, serverName, sealed).None? {
      assert ring == [ring[0]] + ring[1..] && key in ring[1..];
      RingDecrypts(c, ring[1..], nonce, serverName, sealed, key, plain);
    }
  }

  lemma HeldIsParsed(plain: Bytes, macKey: Bytes, stamp: nat, lifetime: nat)
    requires Holds(plain, macKey, stamp, lifetime)
    ensures O.ParseBlock(plain) == Some(O.Opened(macKey, stamp, lifetime)) && lifetime <= U32_MAX
  {
    FitsItsBytes(plain[10 + |macKey|..14 + |macKey|]);
    Pow256Values();
  }

  lemma {:induction false} FitsItsBytes(b: Bytes)
    ensures FromBigEndian(b) < Pow256(|b|)
  {
    if b != [] {
      FitsItsBytes(b[..|b| - 1]);
    }
  }

  /**
   A token that a key the request may use opens, and that no other such key opens to something else, is
   accepted exactly when it holds a session key, the request is signed with that, and it is fresh.
   */
  lemma TokenAcceptsIff(c: Crypto, env: Env, b: Backend, msg: Msg, key: Bytes, plain: Bytes, macKey: Bytes, stamp: nat,
                        lifetime: nat)
    requires b.OAuth? && msg.token.Some? && MayOpen(b, msg.username, key)
    requires OpensTo(c, key, b.serverName, msg.token.value, plain) && Holds(plain, macKey, stamp, lifetime)
    requires forall k, other :: MayOpen(b, msg.username, k) && OpensTo(c, k, b.serverName, msg.token.value, other) ==>
               other == plain
    ensures V.Validate(c, env, b, msg).result.Ok? <==>
            && macKey != [] && c.intact(msg, macKey)
            && stamp / 0x1_0000 < env.now + lifetime + 5 && env.now < stamp / 0x1_0000 + lifetime + 5
  {
    CandidatesIff(b, msg.username, key);
    var ring, token := O.CandidateKeys(b, msg.username).value, msg.token.value;
    forall k | k in ring && (|k| == 16 || |k| == 32)
      ensures c.open(k, token[2..14], b.serverName, token[14..]) in {None, Some(plain)}
    {
      CandidatesIff(b, msg.username, k);
      var o := c.open(k, token[2..14], b.serverName, token[14..]);
      if o.Some? {
        assert OpensTo(c, k, b.serverName, token, o.value);
      }
    }
    RingDecrypts(c, ring, token[2..14], b.serverName, token[14..], key, plain);
    HeldIsParsed(plain, macKey, stamp, lifetime);
    assert O.OpenAccessToken(c, token, ring, b.serverName) == Ok(O.Opened(macKey, stamp, lifetime));
  }

  /** And why one is refused: no token, no key to try, nothing opens it, it is stale, or the signature is not its. */
  lemma RefusedToken(c: Crypto, env: Env, b: Backend, msg: Msg)
    requires b.OAuth? && V.Validate(c, env, b, msg).result.Err?
    ensures var e := V.Validate(c, env, b, msg).result.error;
      && e in {MissingCredentials, InvalidCredentials, Expired, IntegrityFailed}
      && (msg.token.None? ==> e == MissingCredentials)
      && (msg.token.Some? && b.strictKid && msg.username.None? ==> e == MissingCredentials)
      && (e == MissingCredentials ==> msg.token.None? || (b.strictKid && msg.username.None?))
  {
    CandidatesIff(b, msg.username, []);
  }
}
