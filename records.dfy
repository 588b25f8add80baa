/** The Session and Account records that src/registry.js reads and writes:
    the claims-based session that the storage backend persists
    (`Session(id, hash, token, createdAt, expire, renew, lastAuth, claims)`)
    and the account keyed by `(type, id)`. The claim operations `addClaim`
    and `proveClaim` are called by the registry but are not part of the
    shown src/session.js; they are specified here from their call sites. */
module SessionRecords {
  import opened Common
  import Base64
  import Session
  import Strings

  const EMAIL := "email"

  /** Lifespan of a proof session, in milliseconds (30 minutes). */
  const PROOF_LIFESPAN := 1800000

  /** A claim `{type, id, provedAt}`; `provedAt == 0` means unproved. */
  datatype Claim = Claim(kind: string, id: string, provedAt: int)

  /** A persisted session. `expire` and `renew` are None where the code never
      assigns them (JavaScript `undefined`). */
  datatype SessionRecord = SessionRecord(
    id: string,
    hash: string,
    token: string,
    createdAt: int,
    expire: Option<int>,
    renew: Option<int>,
    lastAuth: int,
    claims: seq<Claim>)

  datatype AccountKey = AccountKey(kind: string, id: string)

  datatype AccountRecord = AccountRecord(kind: string, id: string, sessionIds: seq<string>, data: Option<string>)

  function KeyOf(a: AccountRecord): AccountKey
  {
    AccountKey(a.kind, a.id)
  }

  function EmailKey(email: string): AccountKey
  {
    AccountKey(EMAIL, email)
  }

  /** No `(type, id)` pair occurs twice among the claims. */
  ghost predicate UniqueClaims(claims: seq<Claim>)
  {
    forall i, j :: 0 <= i < j < |claims| ==> claims[i].kind != claims[j].kind || claims[i].id != claims[j].id
  }

  /** `findClaim(type, id)`: the position of the claim on `(type, id)`. */
  function FindClaim(claims: seq<Claim>, kind: string, id: string): (r: Option<nat>)
    ensures r.Some? ==> r.value < |claims| && claims[r.value].kind == kind && claims[r.value].id == id
    ensures r.None? ==> forall j :: 0 <= j < |claims| ==> claims[j].kind != kind || claims[j].id != id
    decreases |claims|
  {
    if |claims| == 0 then None
    else if claims[0].kind == kind && claims[0].id == id then Some(0)
    else match FindClaim(claims[1..], kind, id)
      case None => None
      case Some(k) => Some(k + 1)
  }

  /** `findClaimOfType(type)`: the first claim of a namespace, or the first
      proved one when `provedOnly` holds. */
  function FindClaimOfType(claims: seq<Claim>, kind: string, provedOnly: bool): (r: Option<nat>)
    ensures r.Some? ==> r.value < |claims| && claims[r.value].kind == kind
    ensures r.Some? && provedOnly ==> claims[r.value].provedAt > 0
    ensures r.Some? ==> forall j :: 0 <= j < r.value ==>
                          claims[j].kind != kind || (provedOnly && claims[j].provedAt <= 0)
    ensures r.None? ==> forall j :: 0 <= j < |claims| ==>
                          claims[j].kind != kind || (provedOnly && claims[j].provedAt <= 0)
    decreases |claims|
  {
    if |claims| == 0 then None
    else if claims[0].kind == kind && (!provedOnly || claims[0].provedAt > 0) then Some(0)
    else match FindClaimOfType(claims[1..], kind, provedOnly)
      case None => None
      case Some(k) => Some(k + 1)
  }

  /** `addClaim(type, id)`: the existing claim on `(type, id)` if there is
      one, else a new unproved claim appended at the end. Returns the claims
      and the position of the claim. */
  function AddClaim(claims: seq<Claim>, kind: string, id: string): (r: (seq<Claim>, nat))
    ensures r.1 < |r.0| && r.0[r.1].kind == kind && r.0[r.1].id == id
    ensures |claims| <= |r.0| <= |claims| + 1 && r.0[..|claims|] == claims
    ensures |r.0| == |claims| + 1 ==> r.1 == |claims| && r.0[r.1].provedAt == 0
    ensures UniqueClaims(claims) ==> UniqueClaims(r.0)
  {
    match FindClaim(claims, kind, id)
    case Some(i) => (claims, i)
    case None => (claims + [Claim(kind, id, 0)], |claims|)
  }

  /** `proveClaim(claim)`: the claim at `i` is proved at `now`; every claim
      keeps its `(type, id)` and the others are untouched. */
  function ProveClaim(claims: seq<Claim>, i: nat, now: Timestamp): (r: seq<Claim>)
    requires i < |claims|
    ensures |r| == |claims| && r[i].provedAt > 0
    ensures forall j :: 0 <= j < |r| ==> r[j].kind == claims[j].kind && r[j].id == claims[j].id
    ensures forall j :: 0 <= j < |r| && j != i ==> r[j] == claims[j]
    ensures forall j :: 0 <= j < |r| && claims[j].provedAt > 0 ==> r[j].provedAt > 0
  {
    claims[i := claims[i].(provedAt := now)]
  }

  /** `emailVerified()`: some email claim has been proved. */
  predicate EmailVerified(s: SessionRecord)
  {
    FindClaimOfType(s.claims, EMAIL, true).Some?
  }

  /** `email`: the address of the first proved email claim, or of the first
      email claim when none is proved, or empty. */
  function Email(s: SessionRecord): string
  {
    match FindClaimOfType(s.claims, EMAIL, true)
    case Some(i) => s.claims[i].id
    case None =>
      match FindClaimOfType(s.claims, EMAIL, false)
      case Some(i) => s.claims[i].id
      case None => ""
  }

  /** `addClaim('email', email)` then `proveClaim` of that claim. */
  function ProveEmail(s: SessionRecord, email: string, now: Timestamp): SessionRecord
  {
    var (claims, i) := AddClaim(s.claims, EMAIL, email);
    s.(claims := ProveClaim(claims, i, now))
  }

  /** After proving, the session holds a proved claim on the email; the
      email becomes the session's email unless another one was already
      proved (then the session's email is one of the two); nothing but the
      claims changes. */
  lemma ProveEmailVerifies(s: SessionRecord, email: string, now: Timestamp)
    ensures var r := ProveEmail(s, email, now);
      && EmailVerified(r)
      && (exists j :: 0 <= j < |r.claims| && r.claims[j] == Claim(EMAIL, email, r.claims[j].provedAt) && r.claims[j].provedAt > 0)
      && (!EmailVerified(s) ==> Email(r) == email)
      && (Email(r) == email || Email(r) == Email(s))
      && r == s.(claims := r.claims)
      && (UniqueClaims(s.claims) ==> UniqueClaims(r.claims))
  {
    var (claims, i) := AddClaim(s.claims, EMAIL, email);
    var r := ProveEmail(s, email, now);
    assert r.claims[i] == Claim(EMAIL, email, r.claims[i].provedAt);
    if !EmailVerified(s) {
      var k := FindClaimOfType(r.claims, EMAIL, true);
      assert k.Some?;
      if k.value != i {
        assert false;
      }
    } else {
      var k0 := FindClaimOfType(s.claims, EMAIL, true).value;
      var k := FindClaimOfType(r.claims, EMAIL, true);
      assert r.claims[k0].provedAt > 0;
      assert k.Some?;
      assert claims[..|s.claims|][k0] == s.claims[k0];
      if k.value < k0 {
        assert claims[..|s.claims|][k.value] == s.claims[k.value];
        if k.value != i {
          assert false;
        }
      } else if k.value > k0 {
        assert false;
      } else if k0 != i {
        assert r.claims[k0] == s.claims[k0];
      }
    }
  }

  /** The session has expired: `session.expire <= now` (false when unset). */
  predicate Expired(s: SessionRecord, now: int)
  {
    s.expire.Some? && s.expire.value <= now
  }

  /** Renewal is due: `renewalPeriod !== 0 && session.renew <= now`. */
  predicate RenewalDue(s: SessionRecord, renewalPeriod: int, now: int)
  {
    renewalPeriod != 0 && s.renew.Some? && s.renew.value <= now
  }

  /** The hash of the presented base64 token equals the stored digest read
      back with `bufferFromBase64url`. */
  predicate Accepts(s: SessionRecord, token: string, h: Hash)
  {
    h(Base64.Decode(token)) == Base64.BufferFromBase64url(s.token)
  }

  /** `setToken` on a session record. */
  function WithToken(s: SessionRecord, h: Hash, secret: Bytes): SessionRecord
  {
    s.(hash := Session.SHA256, token := Session.TokenDigest(h, secret))
  }

  /** A session whose token was set from `secret` accepts exactly the tokens
      that decode to bytes hashing like `secret`: the secret itself in base64,
      padded or not, and no secret whose hash differs. */
  lemma WithTokenAccepts(s: SessionRecord, h: Hash, secret: Bytes, token: string)
    ensures Accepts(WithToken(s, h, secret), token, h) <==> h(Base64.Decode(token)) == h(secret)
    ensures Accepts(WithToken(s, h, secret), Base64.Encode(secret), h)
    ensures Accepts(WithToken(s, h, secret), Strings.ReplaceAll(Base64.Encode(secret), '=', ""), h)
  {
    Session.TokenDigestDecodes(h, secret);
    Base64.DecodeEncode(secret);
  }

  /** The session `newSession()` builds for the registry: a random id, the
      creation time, and nothing else. */
  function NewSessionRecord(h: Hash, seed: Bytes, now: Timestamp): SessionRecord
  {
    SessionRecord(Session.SessionId(h, seed), "", "", now, None, None, 0, [])
  }

  /** A fresh record has no claims, so no verified email. */
  lemma NewSessionRecordUnverified(h: Hash, seed: Bytes, now: Timestamp)
    ensures !EmailVerified(NewSessionRecord(h, seed, now)) && Email(NewSessionRecord(h, seed, now)) == ""
  {
  }

  /** The session `auth` writes back on renewal (src/registry.js:247-250). */
  function Renewed(s: SessionRecord, h: Hash, secret: Bytes, renewalPeriod: int, now: Timestamp): SessionRecord
  {
    WithToken(s.(lastAuth := now, renew := Some(now + renewalPeriod)), h, secret)
  }
}
