/** Time-limited credentials: what the signalling service mints, the server reads back. */
module RestCredential {
  import opened Wrappers
  import opened Binary
  import opened Credentials
  import opened Validation
  import Registry

  function Digit(d: nat): char
    requires d < 10
  {
    '0' + d as char
  }

  function Decimal(n: nat): (s: string)
    ensures s != []
  {
    (if n < 10 then [] else Decimal(n / 10)) + [Digit(n % 10)]
  }

  /** The username of a credential: its expiry in seconds, a colon, and the user. */
  function MintedName(expiry: nat, user: Name): Name {
    Decimal(expiry) + ":" + user
  }

  predicate IsDigit(c: char) { '0' <= c <= '9' }

  lemma {:induction false} DecimalIsDigits(n: nat)
    ensures forall i :: 0 <= i < |Decimal(n)| ==> IsDigit(Decimal(n)[i])
  {
    if n >= 10 {
      DecimalIsDigits(n / 10);
    }
  }

  lemma {:induction false} ParseSnoc(s: string, acc: nat, d: nat)
    requires d < 10
    ensures ParseDigits(s + [Digit(d)], acc) ==
      match ParseDigits(s, acc) {
        case None => None
        case Some(n) => if n * 10 + d > U64_MAX then None else Some(n * 10 + d)
      }
  {
    if s == [] {
      assert s + [Digit(d)] == [Digit(d)] && [Digit(d)][1..] == [];
    } else {
      assert (s + [Digit(d)])[1..] == s[1..] + [Digit(d)];
      if IsDigit(s[0]) {
        ParseSnoc(s[1..], acc * 10 + (s[0] - '0') as nat, d);
      }
    }
  }

  /** Reading a printed number gives it back, up to 64 bits. */
  lemma {:induction false} ParsePrinted(n: nat)
    ensures ParseDigits(Decimal(n), 0) == if n <= U64_MAX then Some(n) else None
  {
    var s := if n < 10 then [] else Decimal(n / 10);
    if n >= 10 {
      ParsePrinted(n / 10);
    }
    ParseSnoc(s, 0, n % 10);
  }

  lemma ParseU64Printed(n: nat)
    ensures ParseU64(Decimal(n)) == if n <= U64_MAX then Some(n) else None
  {
    DecimalIsDigits(n);
    assert IsDigit(Decimal(n)[0]);
    ParsePrinted(n);
  }

  lemma {:induction false} SplitAtFirst(before: string, after: string)
    requires forall i :: 0 <= i < |before| ==> before[i] != ':'
    ensures SplitAtColon(before + ":" + after) == Some((before, after))
  {
    var s := before + ":" + after;
    if before == [] {
      assert s[1..] == after;
    } else {
      SplitAtFirst(before[1..], after);
      assert s[1..] == before[1..] + ":" + after;
      assert before == [before[0]] + before[1..];
    }
  }

  lemma SplitMinted(expiry: nat, user: Name)
    ensures SplitAtColon(MintedName(expiry, user)) == Some((Decimal(expiry), user))
  {
    DecimalIsDigits(expiry);
    assert forall i :: 0 <= i < |Decimal(expiry)| ==> IsDigit(Decimal(expiry)[i]);
    SplitAtFirst(Decimal(expiry), user);
  }

  /** Every credential minted for a user counts against that user, whatever its expiry and however it is spelled. */
  lemma SubjectIsTheUser(b: Backend, expiry: nat, user: Name)
    requires b.SharedSecret?
    ensures Registry.SubjectOf(b, MintedName(expiry, user)) == user
  {
    SplitMinted(expiry, user);
  }

  lemma MintedExpiry(env: Env, expiry: U64, user: Name)
    ensures CheckExpiry(env, MintedName(expiry, user)) ==
      if Min(expiry + env.skew, U64_MAX) < env.now then Some(Expired) else None
  {
    SplitMinted(expiry, user);
    ParseU64Printed(expiry);
  }

  /** What a client sends that was given a credential under `secret`. */
  predicate Presents(c: Crypto, msg: Msg, realm: Realm, secret: Secret, name: Name) {
    && msg.username == Some(name) && msg.realm == Some(realm) && AlgorithmFits(msg)
    && c.intact(msg, RestKey(c, secret, realm, name, msg))
  }

  /** A minted credential is accepted under its secret, current or previous, exactly until it expires. */
  lemma MintedAcceptedIff(c: Crypto, env: Env, b: Backend, secret: Secret, expiry: U64, user: Name, msg: Msg)
    requires b.SharedSecret? && (b.secret == secret || b.previous == Some(secret))
    requires Presents(c, msg, b.realm, secret, MintedName(expiry, user))
    ensures var r := Validate(c, env, b, msg).result;
      && (r.Ok? <==> (env.requireSha256 ==> msg.hasSha256) && env.now <= Min(expiry + env.skew, U64_MAX))
      && (r.Ok? ==> r.value.username == MintedName(expiry, user) && c.intact(msg, r.value.key))
      && (r.Err? ==> r.error == if env.requireSha256 && !msg.hasSha256 then InvalidCredentials else Expired)
  {
    MintedExpiry(env, expiry, user);
  }

  /** Nothing is accepted that is not signed under a current secret and unexpired. */
  lemma AcceptedIsSigned(c: Crypto, env: Env, b: Backend, msg: Msg)
    requires b.SharedSecret? && Validate(c, env, b, msg).result.Ok?
    ensures msg.username.Some? && msg.realm == Some(b.realm) && CheckExpiry(env, msg.username.value).None?
    ensures Presents(c, msg, b.realm, b.secret, msg.username.value)
      || (b.previous.Some? && Presents(c, msg, b.realm, b.previous.value, msg.username.value))
  {
  }
}
