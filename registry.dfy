/** src/registry.js: the Registry object over a storage backend, each of
    its operations as the sequence of reads and writes its code issues.
    Each operation is proved to have the effect its specification function
    in RegistrySpec describes. */
module Registry {
  import opened Common
  import opened SessionRecords
  import opened Storage
  import opened RegistrySpec
  import Account
  import Base64
  import Session
  import ConstantTime

  class Registry {
    const db: Store
    /** Milliseconds between a token's creation and its renewal; 0 means no
        renewal. */
    const renewalPeriod: int
    /** SHA-256, the only hash algorithm modelled. */
    const sha256: Hash

    /** `new Registry(db, {renewalPeriod})`: a missing period is 0. */
    constructor (db: Store, renewalPeriod: Option<int>, sha256: Hash)
      ensures this.db == db && this.sha256 == sha256
      ensures this.renewalPeriod == if renewalPeriod.Some? then renewalPeriod.value else 0
    {
      this.db := db;
      this.renewalPeriod := if renewalPeriod.Some? then renewalPeriod.value else 0;
      this.sha256 := sha256;
    }

    /** `load(id)`. */
    method Load(id: string) returns (r: Result<Loaded, Error>)
      ensures r == LoadSpec(db.Contents(), db.faults, id)
    {
      var read := db.ReadSession(id);
      if read.Err? {
        return Err(read.error);
      }
      var session := read.value;
      if EmailVerified(session) {
        var account := db.ReadAccount(EmailKey(Email(session)));
        r := Ok(Loaded(session, if account.Ok? then Some(account.value) else None));
      } else {
        r := Ok(Loaded(session, None));
      }
    }

    /** `loadAccount(email)`. */
    method LoadAccount(email: string) returns (r: Result<AccountRecord, Error>)
      ensures r == AccountRead(db.Contents(), db.faults, EmailKey(email))
    {
      r := db.ReadAccount(EmailKey(email));
    }

    /** `logout(id)`. */
    method Logout(id: string) returns (r: Outcome<Error>)
      modifies db
      ensures (db.Contents(), r) == LogoutSpec(old(db.Contents()), db.faults, id)
    {
      var loaded := Load(id);
      if loaded.Err? {
        return Fail(loaded.error);
      }
      var account := loaded.value.account;
      var saveAccount := false;
      if account.Some? {
        account := Some(account.value.(sessionIds := Account.RemoveFirst(account.value.sessionIds, id)));
        saveAccount := true;
      }
      r := db.DeleteSession(id);
      if r.Fail? {
        return;
      }
      if saveAccount {
        r := db.UpdateAccount(account.value);
      }
    }

    /** `rmAccount(email)`: one deletion per session id, every one issued;
      the account is deleted only when none failed. */
    method RmAccount(email: string) returns (r: Outcome<Error>)
      modifies db
      ensures (db.Contents(), r) == RmAccountSpec(old(db.Contents()), db.faults, email)
    {
      var read := LoadAccount(email);
      if read.Err? {
        return Fail(read.error);
      }
      var ids := read.value.sessionIds;
      var failure: Outcome<Error> := Pass;
      var i := 0;
      while i < |ids|
        invariant 0 <= i <= |ids|
        invariant (db.Contents(), failure) == DeleteAll(old(db.Contents()), db.faults, ids[..i])
      {
        var deleted := db.DeleteSession(ids[i]);
        if failure.Pass? {
          failure := deleted;
        }
        assert ids[..i + 1][..i] == ids[..i];
        i := i + 1;
      }
      assert ids[..|ids|] == ids;
      if failure.Fail? {
        return failure;
      }
      r := db.DeleteAccount(EmailKey(email));
    }

    /** `save(session)`. */
    method Save(loaded: Loaded) returns (r: Outcome<Error>)
      modifies db
      ensures (db.Contents(), r) == SaveSpec(old(db.Contents()), db.faults, loaded)
    {
      r := db.UpdateSession(loaded.session);
      if r.Fail? {
        return;
      }
      if loaded.account.Some? {
        r := db.UpdateAccount(loaded.account.value);
      }
    }

    /** `addSessionToAccount(email, session)`. */
    method AddSessionToAccount(email: string, session: SessionRecord) returns (r: Outcome<Error>)
      modifies db
      ensures (db.Contents(), r) == AddSessionToAccountSpec(old(db.Contents()), db.faults, email, session)
    {
      var read := LoadAccount(email);
      if read.Err? {
        if read.error == NotFound {
          var account := AccountRecord(EMAIL, email, [], None);
          account := account.(sessionIds := account.sessionIds + [session.id]);
          assert account == AccountRecord(EMAIL, email, [session.id], None);
          r := db.UpdateAccount(account);
          if r.Fail? {
            return;
          }
          r := db.UpdateSession(session);
          return;
        } else {
          return Fail(read.error);
        }
      }
      var account := read.value.(sessionIds := read.value.sessionIds + [session.id]);
      r := Save(Loaded(session, Some(account)));
    }

    /** `login()`: `idSeed` and `rand256` are the random bytes drawn for the
        session id and for the secret. */
    method Login(idSeed: Bytes, rand256: Bytes, now: Timestamp) returns (r: Outcome<Error>, secret: Bytes, session: SessionRecord)
      requires |idSeed| == 32 && |rand256| == 32
      modifies db
      ensures secret == rand256 && session == LoginSession(sha256, idSeed, secret, renewalPeriod, now)
      ensures (db.Contents(), r) == LoginSpec(old(db.Contents()), db.faults, sha256, idSeed, secret, renewalPeriod, now)
    {
      var created := NewSessionRecord(sha256, idSeed, now);
      session := created.(renew := Some(now + renewalPeriod));
      secret := rand256;
      session := WithToken(session, sha256, secret);
      assert session == LoginSession(sha256, idSeed, secret, renewalPeriod, now);
      r := db.UpdateSession(session);
    }

    /** `claim(id, email)`. */
    method Claim(id: string, email: string) returns (r: Outcome<Error>, session: Option<Loaded>)
      modifies db
      ensures (db.Contents(), r, session) == ClaimSpec(old(db.Contents()), db.faults, id, email)
    {
      var loaded := Load(id);
      if loaded.Err? {
        return Fail(loaded.error), None;
      }
      var l := loaded.value;
      l := l.(session := l.session.(claims := AddClaim(l.session.claims, EMAIL, email).0));
      r := Save(l);
      session := Some(l);
    }

    /** `proof(email)`. */
    method Proof(email: string, idSeed: Bytes, rand256: Bytes, now: Timestamp) returns (r: Outcome<Error>, secret: Bytes, session: SessionRecord)
      requires |idSeed| == 32 && |rand256| == 32
      modifies db
      ensures secret == rand256 && session == ProofSession(sha256, idSeed, secret, email, now)
      ensures (db.Contents(), r) == ProofSpec(old(db.Contents()), db.faults, sha256, idSeed, secret, email, now)
    {
      session := NewSessionRecord(sha256, idSeed, now);
      secret := rand256;
      session := WithToken(session, sha256, secret);
      var (claims, i) := AddClaim(session.claims, EMAIL, email);
      session := session.(claims := ProveClaim(claims, i, now));
      session := session.(expire := Some(now + PROOF_LIFESPAN));
      r := db.UpdateSession(session);
    }

    /** `confirmEmailProved(id, email)`. */
    method ConfirmEmailProved(id: string, email: string, now: Timestamp) returns (r: Result<Loaded, Error>)
      modifies db
      ensures (db.Contents(), r) == ConfirmEmailProvedSpec(old(db.Contents()), db.faults, id, email, now)
    {
      var loaded := Load(id);
      if loaded.Err? {
        return Err(loaded.error);
      }
      var session := loaded.value.session;
      var (claims, i) := AddClaim(session.claims, EMAIL, email);
      session := session.(claims := ProveClaim(claims, i, now));
      session := session.(lastAuth := now);
      var added := AddSessionToAccount(email, session);
      if added.Fail? {
        return Err(added.error);
      }
      r := Load(session.id);
    }

    /** `setAccountData(email, data)`. */
    method SetAccountData(email: string, data: string) returns (r: Outcome<Error>)
      modifies db
      ensures (db.Contents(), r) == SetAccountDataSpec(old(db.Contents()), db.faults, email, data)
    {
      var read := LoadAccount(email);
      if read.Err? {
        return Fail(read.error);
      }
      r := db.UpdateAccount(read.value.(data := Some(data)));
    }

    /** `auth(id, token)`: `rand256` is the random secret drawn if the token
        is renewed. */
    method Auth(id: string, token: string, rand256: Bytes, now: Timestamp) returns (r: Result<AuthReply, Error>)
      requires |rand256| == 32
      modifies db
      ensures (db.Contents(), r) == AuthSpec(old(db.Contents()), db.faults, sha256, renewalPeriod, id, token, rand256, now)
    {
      var loaded := Load(id);
      if loaded.Err? {
        if loaded.error == NotFound {
          return Ok(AuthReply(false, None, None));
        }
        return Err(loaded.error);
      }
      var session := loaded.value.session;
      var tokenBuf := Base64.Decode(token);
      if session.hash != Session.SHA256 {
        return Err(UnknownHashAlgorithm);
      }
      var hashedToken := sha256(tokenBuf);
      if Expired(session, now) {
        var _ := Logout(session.id);
        return Ok(AuthReply(false, Some(session), None));
      }
      var sessionToken := Base64.BufferFromBase64url(session.token);
      var authenticated;
      ghost var steps;
      authenticated, steps := ConstantTime.ConstEq(hashedToken, sessionToken);
      if authenticated {
        var shouldRenew := renewalPeriod != 0 && session.renew.Some? && session.renew.value <= now;
        if shouldRenew {
          session := session.(lastAuth := now, renew := Some(now + renewalPeriod));
          var secret := rand256;
          session := WithToken(session, sha256, secret);
          var written := db.UpdateSession(session);
          if written.Fail? {
            return Err(written.error);
          }
          return Ok(AuthReply(true, Some(session), Some(secret)));
        }
        r := Ok(AuthReply(true, Some(session), None));
      } else {
        r := Ok(AuthReply(false, Some(session), None));
      }
    }
  }
}
