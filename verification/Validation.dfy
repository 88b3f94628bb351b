/** Validating one request against one realm's backend, and what rotating a shared secret changes. */
module Validation {
  import opened Wrappers
  import opened Binary
  import opened Credentials
  import OAuthToken
  import Webhook = WebhookCache

  const ALGORITHM_MD5: nat := 1
  const ALGORITHM_SHA256: nat := 2

  // ----- reading a time-limited username

  function SplitAtColon(s: string): Option<(string, string)> {
    if s == [] then None
    else if s[0] == ':' then Some(([], s[1..]))
    else match SplitAtColon(s[1..])
         case None => None
         case Some((before, after)) => Some(([s[0]] + before, after))
  }

  function ParseDigits(s: string, acc: nat): Option<nat> {
    if s == [] then Some(acc)
    else if '0' <= s[0] <= '9' then
      var n := acc * 10 + (s[0] - '0') as nat;
      if n > U64_MAX then None else ParseDigits(s[1..], n)
    else None
  }

  /** A u64 in decimal, an optional plus sign first; empty, non-digit and overflowing texts are refused. */
  function ParseU64(s: string): Option<nat> {
    var digits := if s != [] && s[0] == '+' then s[1..] else s;
    if digits == [] then None else ParseDigits(digits, 0)
  }

  // ----- validation

  datatype Outcome = Outcome(result: Result<Validated, AuthError>, usedPrevious: bool)

  /** The name a request authenticates as: USERNAME if present, else the user its USERHASH is indexed under. */
  function ResolveUsername(b: Backend, msg: Msg): Result<Name, AuthError> {
    match msg.username
    case Some(name) => Ok(name)
    case None =>
      match msg.userhash
      case None => Err(MissingCredentials)
      case Some(hash) => if b.LongTerm? && hash in b.hashes then Ok(b.hashes[hash]) else Err(InvalidCredentials)
  }

  function Pick(keys: Webhook.UserKeys, msg: Msg): Bytes {
    if msg.hasSha256 then keys.sha256 else keys.md5
  }

  /** Local table first; the webhook only for names it lacks. */
  function LongTermKey(env: Env, b: Backend, name: Name, msg: Msg): Result<Bytes, AuthError>
    requires b.LongTerm?
  {
    if name in b.users then Ok(Pick(b.users[name], msg))
    else if !b.webhook then Err(InvalidCredentials)
    else match env.remote(name)
         case Hit(keys) => if Pick(keys, msg) == [] then Err(InvalidCredentials) else Ok(Pick(keys, msg))
         case NoUser => Err(InvalidCredentials)
         case Unavailable => Err(Unavailable)
         case Pending(w) => Err(Pending(w))
         case Throttled => Err(Throttled)
  }

  /** The key a client would use that was given a password for `name` under `secret`. */
  function RestKey(c: Crypto, secret: Secret, realm: Realm, name: Name, msg: Msg): Bytes {
    var password := c.restPassword(secret, name);
    if msg.hasSha256 then c.sha256Key(name, realm, password) else c.md5Key(name, realm, password)
  }

  function CheckExpiry(env: Env, name: Name): Option<AuthError> {
    match SplitAtColon(name)
    case None => Some(InvalidCredentials)
    case Some((ts, _)) =>
      match ParseU64(ts)
      case None => Some(InvalidCredentials)
      case Some(expiry) => if Min(expiry + env.skew, U64_MAX) < env.now then Some(Expired) else None
  }

  /** The primary secret's key, or the previous one's if only that verifies the request; true if it was the previous. */
  function SharedKey(c: Crypto, b: Backend, name: Name, msg: Msg): (Bytes, bool)
    requires b.SharedSecret?
  {
    var primary := RestKey(c, b.secret, b.realm, name, msg);
    if b.previous.Some? && !c.intact(msg, primary) then
      var before := RestKey(c, b.previous.value, b.realm, name, msg);
      if c.intact(msg, before) then (before, true) else (primary, false)
    else (primary, false)
  }

  predicate AlgorithmFits(msg: Msg) {
    msg.algorithm.None? || msg.algorithm.value == (if msg.hasSha256 then ALGORITHM_SHA256 else ALGORITHM_MD5)
  }

  /** The checks every non-OAuth request ends with. */
  function Finish(c: Crypto, name: Name, key: Bytes, msg: Msg): Result<Validated, AuthError> {
    if !AlgorithmFits(msg) then Err(BadRequest)
    else if !c.intact(msg, key) then Err(IntegrityFailed)
    else Ok(Validated(key, None, name))
  }

  function Validate(c: Crypto, env: Env, b: Backend, msg: Msg): Outcome {
    if b.OAuth? then
      match OAuthToken.ValidateOAuth(c, b, msg, env.now)
      case Err(e) => Outcome(Err(e), false)
      case Ok((key, remaining)) =>
        var name := if msg.username.Some? then msg.username.value else "";
        Outcome(Ok(Validated(key, Some(remaining), name)), false)
    else if (msg.username.None? && msg.userhash.None?) || msg.realm.None? then Outcome(Err(MissingCredentials), false)
    else if msg.realm.value != b.realm then Outcome(Err(InvalidCredentials), false)
    else match ResolveUsername(b, msg)
         case Err(e) => Outcome(Err(e), false)
         case Ok(name) =>
           if !msg.hasSha256 && env.requireSha256 then Outcome(Err(InvalidCredentials), false)
           else if b.LongTerm? then
             match LongTermKey(env, b, name, msg)
             case Err(e) => Outcome(Err(e), false)
             case Ok(key) => Outcome(Finish(c, name, key, msg), false)
           else
             match CheckExpiry(env, name)
             case Some(e) => Outcome(Err(e), false)
             case None =>
               var (key, usedPrevious) := SharedKey(c, b, name, msg);
               Outcome(Finish(c, name, key, msg), usedPrevious)
  }

  // ----- rotating a shared secret

  /**
   * During a rotation a request gets what the new secret alone would give it, or failing that what the old one
   * alone would. It differs from the new secret alone exactly when it is counted and its algorithm fits.
   */
  lemma RotationIsExact(c: Crypto, env: Env, realm: Realm, current: Secret, before: Secret, msg: Msg)
    ensures var both := Validate(c, env, SharedSecret(realm, current, Some(before)), msg);
      var underCurrent := Validate(c, env, SharedSecret(realm, current, None), msg);
      var underBefore := Validate(c, env, SharedSecret(realm, before, None), msg);
      && (both.result.Ok? <==> underCurrent.result.Ok? || underBefore.result.Ok?)
      && both.result == (if underCurrent.result.Err? && underBefore.result.Ok? then underBefore.result
                         else underCurrent.result)
      && (underCurrent.result.Err? && underBefore.result.Err? ==> underCurrent.result == underBefore.result)
      && !underCurrent.usedPrevious
      && (both.result != underCurrent.result <==> both.usedPrevious && AlgorithmFits(msg))
      && (both.usedPrevious ==> both.result == if AlgorithmFits(msg) then underBefore.result else Err(BadRequest))
  {
  }
}
