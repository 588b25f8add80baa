/** src/session.js as written: the Session object, its token and proof
    setters, the verified-email test and `newSession`. */
module Session {
  import opened Common
  import Base64

  const SHA256 := "sha256"

  /** The digest `setToken` stores for a secret: `hash.digest('base64')`. */
  function TokenDigest(h: Hash, secret: Bytes): string
  {
    Base64.Encode(h(secret))
  }

  /** The registry finds the hashed secret again when it reads the stored
      digest back with `bufferFromBase64url`. */
  lemma TokenDigestDecodes(h: Hash, secret: Bytes)
    ensures Base64.BufferFromBase64url(TokenDigest(h, secret)) == h(secret)
  {
    Base64.BufferFromBase64urlIsDecode(TokenDigest(h, secret));
    Base64.DecodeEncode(h(secret));
  }

  /** The id `newSession` derives from 32 random bytes: base64url of the bytes
      of the base64 text of their hash. */
  function SessionId(h: Hash, seed: Bytes): (id: string)
    ensures forall i :: 0 <= i < |id| ==> Base64.IsUrlChar(id[i])
  {
    Base64.EncodeIsAscii(h(seed));
    var text := Base64.AsciiBytes(Base64.Encode(h(seed)));
    Base64.Base64UrlAlphabet(text);
    Base64.Base64Url(text)
  }

  /** `+x || d` on a numeric constructor argument: a missing (None) or zero
      value is falsy and gives the default. */
  function OrDefault(x: Option<int>, d: int): (r: int)
    ensures x.None? || x.value == 0 ==> r == d
    ensures x.Some? && x.value != 0 ==> r == x.value
  {
    if x.None? || x.value == 0 then d else x.value
  }

  class Session {
    var id: string
    var hash: string
    var token: string
    var createdAt: int
    var lastAuth: int
    var email: string
    var proofCreatedAt: int
    var proofHash: string
    var proofToken: string

    /** `new Session(...)`; `now` is what `currentTime()` returns. */
    constructor (id: string, hash: string, token: string, createdAt: Option<int>,
                 lastAuth: Option<int>, email: string, proofCreatedAt: int,
                 proofHash: string, proofToken: string, now: Timestamp)
      ensures this.id == id && this.hash == hash && this.token == token
      ensures this.createdAt == OrDefault(createdAt, now) && this.createdAt != 0
      ensures this.lastAuth == OrDefault(lastAuth, 0)
      ensures this.email == email && this.proofCreatedAt == proofCreatedAt
      ensures this.proofHash == proofHash && this.proofToken == proofToken
    {
      this.id := id;
      this.hash := hash;
      this.token := token;
      this.createdAt := OrDefault(createdAt, now);
      this.lastAuth := OrDefault(lastAuth, 0);
      this.email := email;
      this.proofCreatedAt := proofCreatedAt;
      this.proofHash := proofHash;
      this.proofToken := proofToken;
    }

    /** An email with no pending proof has been verified. */
    predicate EmailVerified()
      reads this
    {
      email != "" && proofCreatedAt == 0
    }

    /** `setToken`: draws a 32-byte secret (`rand256`), stores the algorithm
        name and the base64 digest of the secret, and returns the secret. */
    method SetToken(h: Hash, rand256: Bytes) returns (secret: Bytes)
      requires |rand256| == 32
      modifies this`hash, this`token
      ensures secret == rand256
      ensures hash == SHA256 && token == TokenDigest(h, secret)
      ensures Base64.BufferFromBase64url(token) == h(secret)
    {
      hash := SHA256;
      token := TokenDigest(h, rand256);
      secret := rand256;
      TokenDigestDecodes(h, secret);
    }

    /** `setProof(email)`: a pending proof for `email`, whose 32-byte secret
        is returned; the email is not verified while the proof is pending. */
    method SetProof(email: string, now: Timestamp, h: Hash, rand256: Bytes) returns (secret: Bytes)
      requires |rand256| == 32
      modifies this`proofHash, this`proofToken, this`proofCreatedAt, this`email
      ensures secret == rand256
      ensures proofHash == SHA256 && proofToken == TokenDigest(h, secret)
      ensures proofCreatedAt == now && this.email == email
      ensures !EmailVerified()
    {
      proofHash := SHA256;
      proofToken := TokenDigest(h, rand256);
      proofCreatedAt := now;
      this.email := email;
      secret := rand256;
    }
  }

  /** `newSession()`: a session with a random id and every other field empty;
      it has no verified email. */
  method NewSession(h: Hash, rand256: Bytes, now: Timestamp) returns (s: Session)
    requires |rand256| == 32
    ensures fresh(s)
    ensures s.id == SessionId(h, rand256)
    ensures s.hash == "" && s.token == "" && s.email == ""
    ensures s.createdAt == now && s.lastAuth == 0
    ensures s.proofCreatedAt == 0 && s.proofHash == "" && s.proofToken == ""
    ensures !s.EmailVerified()
  {
    s := new Session(SessionId(h, rand256), "", "", None, None, "", 0, "", "", now);
  }
}
