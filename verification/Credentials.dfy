/** What a request presents, what a realm checks it against, and the primitives both rest on. */
module Credentials {
  import opened Wrappers
  import opened Binary
  import Webhook = WebhookCache

  type Name = string
  type Realm = string
  type Secret = Bytes

  datatype AuthError =
    | MissingCredentials | InvalidCredentials | Expired | IntegrityFailed | BadRequest
    | Pending(waiter: Webhook.Waiter) | Unavailable | Throttled

  /** A decoded request: the attributes validation reads, and the bytes its integrity covers. */
  datatype Msg = Msg(username: Option<Name>, userhash: Option<Bytes>, realm: Option<Realm>, token: Option<Bytes>,
                     hasSha256: bool, algorithm: Option<nat>, raw: Bytes)

  /** The foreign primitives, as arbitrary functions. `intact` checks the integrity attribute the message carries. */
  datatype Crypto = Crypto(md5Key: (Name, Realm, string) -> Bytes, sha256Key: (Name, Realm, string) -> Bytes,
                           restPassword: (Secret, Name) -> string, userhash: (Name, Realm) -> Bytes,
                           intact: (Msg, Bytes) -> bool,
                           seal: (Bytes, Bytes, string, Bytes) -> Bytes,
                           open: (Bytes, Bytes, string, Bytes) -> Option<Bytes>)

  /** The process-wide settings and the clock at the time of a request, and what the webhook cache answers. */
  datatype Env = Env(now: nat, skew: nat, requireSha256: bool, remote: Name -> Webhook.Lookup)

  datatype Backend =
    | LongTerm(realm: Realm, users: map<Name, Webhook.UserKeys>, hashes: map<Bytes, Name>, webhook: bool)
    | SharedSecret(realm: Realm, secret: Secret, previous: Option<Secret>)
    | OAuth(realm: Realm, keys: seq<Bytes>, kidKeys: seq<(Name, Bytes)>, strictKid: bool, serverName: string)

  /** A password algorithm, where the message names one, is that of its digest: 1 is MD5 and 2 is SHA-256. */
  predicate NamesItsDigest(msg: Msg) {
    match msg.algorithm
    case None => true
    case Some(a) => (a == 1 && !msg.hasSha256) || (a == 2 && msg.hasSha256)
  }

  datatype Validated = Validated(key: Bytes, maxLifetime: Option<nat>, username: Name)
}
