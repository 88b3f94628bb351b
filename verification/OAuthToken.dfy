/** Self-contained access tokens: minting, opening, and how long an accepted one may be used. */
module OAuthToken {
  import opened Wrappers
  import opened Binary
  import opened Credentials

  datatype Contents = Contents(macKey: Bytes, timestamp: U64, lifetime: U32)

  const SKEW: nat := 5
  const NONCE_LEN: nat := 12

  // ----- minting

  /** Seconds to 48.16 fixed point; `<< 16` on a u64 drops the top 16 bits. */
  function FixedPoint(secs: U64): U64 {
    (secs % 0x1_0000_0000_0000) * 0x1_0000
  }

  function Block(t: Contents): Bytes {
    BigEndian(|t.macKey|, 2) + t.macKey + BigEndian(FixedPoint(t.timestamp), 8) + BigEndian(t.lifetime, 4)
  }

  predicate KeySized(key: Bytes) { |key| == 16 || |key| == 32 }

  /** Builds the token buffer by buffer. */
  method EncodeAccessToken(c: Crypto, key: Bytes, serverName: string, nonce: Bytes, t: Contents)
    returns (r: Result<Bytes, AuthError>)
    requires |nonce| == 12
    ensures r.Ok? <==> 0 < |t.macKey| <= 0xFFFF && |key| in {16, 32}
    ensures r.Ok? ==> r.value == BigEndian(12, 2) + nonce + c.seal(key, nonce, serverName, Block(t))
    ensures r.Err? ==> r.error == BadRequest
  {
    if t.macKey == [] || |t.macKey| > 0xFFFF {
      return Err(BadRequest);
    }
    var block := BigEndian(|t.macKey|, 2);
    block := block + t.macKey;
    block := block + BigEndian(FixedPoint(t.timestamp), 8);
    block := block + BigEndian(t.lifetime, 4);
    if !KeySized(key) {
      return Err(BadRequest);
    }
    var sealed := c.seal(key, nonce, serverName, block);
    var token := BigEndian(|nonce|, 2);
    token := token + nonce;
    token := token + sealed;
    return Ok(token);
  }

  // ----- opening

  datatype Opened = Opened(macKey: Bytes, timestamp: nat, lifetime: nat)

  function Decrypt(c: Crypto, key: Bytes, nonce: Bytes, serverName: string, sealed: Bytes): Option<Bytes> {
    if |nonce| != NONCE_LEN || !KeySized(key) then None else c.open(key, nonce, serverName, sealed)
  }

  /** Trial decryption: the first key of the ring that opens the block. */
  function DecryptAny(c: Crypto, ring: seq<Bytes>, nonce: Bytes, serverName: string, sealed: Bytes): Option<Bytes> {
    if ring == [] then None else
      var first := Decrypt(c, ring[0], nonce, serverName, sealed);
      if first.Some? then first else DecryptAny(c, ring[1..], nonce, serverName, sealed)
  }

  function ParseBlock(plain: Bytes): Option<Opened> {
    if |plain| < 2 then None else
      var n := FromBigEndian(plain[..2]);
      if |plain| < 2 + n + 12 then None else
        Some(Opened(plain[2..2 + n], FromBigEndian(plain[2 + n..10 + n]), FromBigEndian(plain[10 + n..14 + n])))
  }

  function OpenAccessToken(c: Crypto, token: Bytes, ring: seq<Bytes>, serverName: string): Result<Opened, AuthError> {
    if |token| < 2 then Err(InvalidCredentials) else
      var n := FromBigEndian(token[..2]);
      if |token| < 2 + n then Err(InvalidCredentials) else
        match DecryptAny(c, ring, token[2..2 + n], serverName, token[2 + n..])
        case None => Err(InvalidCredentials)
        case Some(plain) =>
          match ParseBlock(plain)
          case None => Err(InvalidCredentials)
          case Some(o) => Ok(o)
  }

  /** What the inspector shows: whole seconds, no freshness check. */
  function InspectAccessToken(c: Crypto, token: Bytes, ring: seq<Bytes>, serverName: string)
    : Result<Opened, AuthError>
  {
    match OpenAccessToken(c, token, ring, serverName)
    case Err(e) => Err(e)
    case Ok(o) => Ok(o.(timestamp := o.timestamp / 0x1_0000))
  }

  // ----- the round trip

  lemma FourPartSlices(a: Bytes, m: Bytes, b: Bytes, d: Bytes, s: Bytes)
    requires s == a + m + b + d && |a| == 2 && |b| == 8 && |d| == 4
    ensures s[..2] == a && s[2..2 + |m|] == m && s[2 + |m|..10 + |m|] == b && s[10 + |m|..14 + |m|] == d
  {
  }

  lemma BlockParses(t: Contents)
    requires |t.macKey| <= 0xFFFF
    ensures ParseBlock(Block(t)) == Some(Opened(t.macKey, FixedPoint(t.timestamp), t.lifetime))
  {
    Pow256Values();
    BigEndianRoundTrip(|t.macKey|, 2);
    BigEndianRoundTrip(FixedPoint(t.timestamp), 8);
    BigEndianRoundTrip(t.lifetime, 4);
    FourPartSlices(BigEndian(|t.macKey|, 2), t.macKey, BigEndian(FixedPoint(t.timestamp), 8), BigEndian(t.lifetime, 4),
                   Block(t));
  }

  /** The sealing key opens what it sealed, and no other key of the ring opens it to something else. */
  predicate Authentic(c: Crypto, key: Bytes, ring: seq<Bytes>, nonce: Bytes, serverName: string, plain: Bytes) {
    var sealed := c.seal(key, nonce, serverName, plain);
    && c.open(key, nonce, serverName, sealed) == Some(plain)
    && forall i :: 0 <= i < |ring| ==> c.open(ring[i], nonce, serverName, sealed) in {None, Some(plain)}
  }

  lemma {:induction false} RingOpens(c: Crypto, key: Bytes, ring: seq<Bytes>, nonce: Bytes, serverName: string,
                                     plain: Bytes)
    requires key in ring && |key| in {16, 32} && |nonce| == 12
    requires Authentic(c, key, ring, nonce, serverName, plain)
    ensures DecryptAny(c, ring, nonce, serverName, c.seal(key, nonce, serverName, plain)) == Some(plain)
  {
    var sealed := c.seal(key, nonce, serverName, plain);
    assert c.open(ring[0], nonce, serverName, sealed) in {None, Some(plain)};
    if Decrypt(c, ring[0], nonce, serverName, sealed).None? {
      assert key in ring[1..];
      assert forall i :: 0 <= i < |ring| - 1 ==> ring[1..][i] == ring[i + 1];
      RingOpens(c, key, ring[1..], nonce, serverName, plain);
    }
  }

  /** The token a successful mint returns. */
  function Minted(c: Crypto, key: Bytes, serverName: string, nonce: Bytes, t: Contents): Bytes {
    BigEndian(NONCE_LEN, 2) + nonce + c.seal(key, nonce, serverName, Block(t))
  }

  lemma MintedOpens(c: Crypto, key: Bytes, ring: seq<Bytes>, serverName: string, nonce: Bytes, t: Contents)
    requires |nonce| == 12 && |t.macKey| <= 0xFFFF && |key| in {16, 32} && key in ring
    requires Authentic(c, key, ring, nonce, serverName, Block(t))
    ensures OpenAccessToken(c, Minted(c, key, serverName, nonce, t), ring, serverName)
      == Ok(Opened(t.macKey, FixedPoint(t.timestamp), t.lifetime))
  {
    var token := Minted(c, key, serverName, nonce, t);
    Pow256Values();
    BigEndianRoundTrip(NONCE_LEN, 2);
    assert token[..2] == BigEndian(NONCE_LEN, 2);
    assert token[2..14] == nonce;
    assert token[14..] == c.seal(key, nonce, serverName, Block(t));
    RingOpens(c, key, ring, nonce, serverName, Block(t));
    BlockParses(t);
  }

  /**
   * A minted token opens to its contents under any ring that holds the sealing key, exactly when the issue time
   * fits the 48 bits the format gives it.
   */
  lemma RoundTripIff(c: Crypto, key: Bytes, ring: seq<Bytes>, serverName: string, nonce: Bytes, t: Contents)
    requires |nonce| == 12 && |t.macKey| <= 0xFFFF && |key| in {16, 32} && key in ring
    requires Authentic(c, key, ring, nonce, serverName, Block(t))
    ensures t.timestamp < 0x1_0000_0000_0000 <==>
      InspectAccessToken(c, Minted(c, key, serverName, nonce, t), ring, serverName)
      == Ok(Opened(t.macKey, t.timestamp, t.lifetime))
  {
    MintedOpens(c, key, ring, serverName, nonce, t);
    assert FixedPoint(t.timestamp) / 0x1_0000 == t.timestamp % 0x1_0000_0000_0000;
  }

  // ----- freshness and lifetime

  predicate TokenTimeValid(timestamp: nat, lifetime: nat, now: nat, skew: nat) {
    var secs := timestamp / 0x1_0000;
    (if secs >= now then secs - now else now - secs) < Min(lifetime + skew, U64_MAX)
  }

  /** Seconds the token may still be used for. */
  function Remaining(timestamp: nat, lifetime: nat, now: nat): (r: nat)
    requires TokenTimeValid(timestamp, lifetime, now, SKEW)
    ensures now + r <= Max(now, timestamp / 0x1_0000 + lifetime)
    ensures r <= 2 * lifetime + 4
  {
    var end := Min(timestamp / 0x1_0000 + lifetime, U64_MAX);
    Min(Max(end - now, 0), U32_MAX)
  }

  function DecryptAccessToken(c: Crypto, token: Bytes, ring: seq<Bytes>, serverName: string, now: nat)
    : Result<(Bytes, nat), AuthError>
  {
    match OpenAccessToken(c, token, ring, serverName)
    case Err(e) => Err(e)
    case Ok(o) =>
      if !TokenTimeValid(o.timestamp, o.lifetime, now, SKEW) then Err(Expired)
      else Ok((o.macKey, Remaining(o.timestamp, o.lifetime, now)))
  }

  function KidKey(kidKeys: seq<(Name, Bytes)>, kid: Name): Option<Bytes> {
    if kidKeys == [] then None else
    if kidKeys[0].0 == kid then Some(kidKeys[0].1) else KidKey(kidKeys[1..], kid)
  }

  function KeysOf(kidKeys: seq<(Name, Bytes)>): seq<Bytes> {
    if kidKeys == [] then [] else [kidKeys[0].1] + KeysOf(kidKeys[1..])
  }

  /** The keys a request may be opened with: the one its USERNAME names, else all unless selection is strict. */
  function CandidateKeys(b: Backend, username: Option<Name>): Result<seq<Bytes>, AuthError>
    requires b.OAuth?
  {
    match username
    case Some(kid) =>
      (match KidKey(b.kidKeys, kid)
       case Some(key) => Ok([key])
       case None => if b.strictKid then Err(InvalidCredentials) else Ok(KeysOf(b.kidKeys) + b.keys))
    case None =>
      if b.strictKid then Err(MissingCredentials) else Ok(KeysOf(b.kidKeys) + b.keys)
  }

  function ValidateOAuth(c: Crypto, b: Backend, msg: Msg, now: nat): Result<(Bytes, nat), AuthError>
    requires b.OAuth?
  {
    if msg.token.None? then Err(MissingCredentials) else
      match CandidateKeys(b, msg.username)
      case Err(e) => Err(e)
      case Ok(ring) =>
        match DecryptAccessToken(c, msg.token.value, ring, b.serverName, now)
        case Err(e) => Err(e)
        case Ok((macKey, remaining)) =>
          if macKey == [] then Err(InvalidCredentials)
          else if !c.intact(msg, macKey) then Err(IntegrityFailed)
          else Ok((macKey, remaining))
  }

  /** No accepted token is usable past its own end, whatever the clocks say. */
  lemma AcceptedNeverOutlives(c: Crypto, b: Backend, msg: Msg, now: nat)
    requires b.OAuth? && ValidateOAuth(c, b, msg, now).Ok?
    ensures CandidateKeys(b, msg.username).Ok? && msg.token.Some?
    ensures OpenAccessToken(c, msg.token.value, CandidateKeys(b, msg.username).value, b.serverName).Ok?
    ensures var o := OpenAccessToken(c, msg.token.value, CandidateKeys(b, msg.username).value, b.serverName).value;
      var remaining := ValidateOAuth(c, b, msg, now).value.1;
      && now + remaining <= Max(now, o.timestamp / 0x1_0000 + o.lifetime)
      && remaining <= 2 * o.lifetime + 4
      && now < o.timestamp / 0x1_0000 + o.lifetime + 5
  {
  }

  /** The keyring a freshly minted token must be found in: the key its kid names, or every key. */
  predicate Reachable(b: Backend, username: Option<Name>, key: Bytes)
    requires b.OAuth?
  {
    CandidateKeys(b, username).Ok? && key in CandidateKeys(b, username).value
  }

  /** The issue time as the format carries it: seconds modulo 2^48. */
  function Carried(secs: U64): nat { secs % 0x1_0000_0000_0000 }

  /** Freshness and remaining time of a token are those of the issue time the format carries. */
  lemma FreshIff(t: Contents, now: nat)
    ensures var valid := TokenTimeValid(FixedPoint(t.timestamp), t.lifetime, now, SKEW);
      && (valid <==> Carried(t.timestamp) < now + t.lifetime + 5 && now < Carried(t.timestamp) + t.lifetime + 5)
      && (valid ==> Remaining(FixedPoint(t.timestamp), t.lifetime, now)
                    == Min(Max(Carried(t.timestamp) + t.lifetime - now, 0), U32_MAX))
      && (Carried(t.timestamp) == t.timestamp <==> t.timestamp < 0x1_0000_0000_0000)
  {
    assert FixedPoint(t.timestamp) / 0x1_0000 == Carried(t.timestamp);
  }

  /** A minted token is accepted exactly when it is fresh and the request is signed with its session key. */
  lemma MintedAcceptedIff(c: Crypto, b: Backend, msg: Msg, now: nat, key: Bytes, nonce: Bytes, t: Contents)
    requires b.OAuth? && Reachable(b, msg.username, key) && |key| in {16, 32} && |nonce| == 12
    requires 0 < |t.macKey| <= 0xFFFF
    requires Authentic(c, key, CandidateKeys(b, msg.username).value, nonce, b.serverName, Block(t))
    requires msg.token == Some(Minted(c, key, b.serverName, nonce, t))
    ensures var r := ValidateOAuth(c, b, msg, now);
      var issued := Carried(t.timestamp);
      && (r.Ok? <==> issued < now + t.lifetime + 5 && now < issued + t.lifetime + 5 && c.intact(msg, t.macKey))
      && (r.Ok? ==> r.value == (t.macKey, Min(Max(issued + t.lifetime - now, 0), U32_MAX)))
  {
    var ring := CandidateKeys(b, msg.username).value;
    MintedOpens(c, key, ring, b.serverName, nonce, t);
    FreshIff(t, now);
    var plain := DecryptAccessToken(c, msg.token.value, ring, b.serverName, now);
    assert plain.Ok? <==> TokenTimeValid(FixedPoint(t.timestamp), t.lifetime, now, SKEW);
  }
}
