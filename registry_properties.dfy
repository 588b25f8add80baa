/** What the registry promises across calls, proved on the specification
    functions: what `login` and `proof` store and when their secrets are
    accepted, the three outcomes of `auth` and secret rotation, the
    cascading deletions of `logout` and `rmAccount`, and how
    `confirmEmailProved` links a session into its account. */
module RegistryProperties {
  import opened Common
  import opened SessionRecords
  import opened Storage
  import opened RegistrySpec
  import Account
  import Base64
  import Session

  /** Every stored record sits under its own key and every stored session
      carries a SHA-256 digest. */
  ghost predicate Valid(db: Db)
  {
    && WellKeyed(db)
    && forall id :: id in db.sessions ==> db.sessions[id].hash == Session.SHA256
  }

  /** Renewal keeps the session's identity, creation time, expiry and claims,
      records the authentication, schedules the next renewal, and from then
      on accepts exactly the tokens hashing like the new secret. */
  lemma RenewedRotates(s: SessionRecord, h: Hash, secret: Bytes, period: int, now: Timestamp, token: string)
    ensures var s1 := Renewed(s, h, secret, period, now);
      && s1.id == s.id && s1.createdAt == s.createdAt && s1.expire == s.expire && s1.claims == s.claims
      && s1.lastAuth == now && s1.renew == Some(now + period) && s1.hash == Session.SHA256
      && (Accepts(s1, token, h) <==> h(Base64.Decode(token)) == h(secret))
      && Accepts(s1, Base64.Encode(secret), h)
  {
    WithTokenAccepts(s.(lastAuth := now, renew := Some(now + period)), h, secret, token);
  }

  /** Storing a session with a SHA-256 digest keeps the store valid. */
  lemma SessionWriteValid(db: Db, f: Faults, s: SessionRecord)
    requires Valid(db) && s.hash == Session.SHA256
    ensures Valid(SessionWrite(db, f, s).0)
  {
    var db1 := SessionWrite(db, f, s).0;
    forall id | id in db1.sessions ensures db1.sessions[id].hash == Session.SHA256 {
      if id != s.id {
        assert id in db.sessions;
      }
    }
  }

  /** A live session presented with an accepted token and no renewal due
      authenticates and changes nothing. */
  lemma AuthAccepted(db: Db, f: Faults, h: Hash, period: int, id: string, token: string, secret: Bytes, now: Timestamp)
    requires Valid(db) && id in db.sessions && id !in f.unreadableSessions
    requires !Expired(db.sessions[id], now) && Accepts(db.sessions[id], token, h)
    requires !RenewalDue(db.sessions[id], period, now)
    ensures AuthSpec(db, f, h, period, id, token, secret, now) == (db, Ok(AuthReply(true, Some(db.sessions[id]), None)))
  {
    assert LoadSpec(db, f, id).Ok? && LoadSpec(db, f, id).value.session == db.sessions[id];
  }

  /** The session `login` creates: its random id, no verified email, no
      expiry, renewal one period ahead, and its secret in base64 accepted. */
  lemma LoginSessionFacts(h: Hash, idSeed: Bytes, secret: Bytes, period: int, now: Timestamp)
    ensures var s := LoginSession(h, idSeed, secret, period, now);
      && s.id == Session.SessionId(h, idSeed) && s.hash == Session.SHA256
      && s.renew == Some(now + period) && s.expire.None? && s.createdAt == now && s.lastAuth == 0
      && !EmailVerified(s) && s.claims == []
      && Accepts(s, Base64.Encode(secret), h)
  {
    NewSessionRecordUnverified(h, idSeed, now);
    WithTokenAccepts(NewSessionRecord(h, idSeed, now).(renew := Some(now + period)), h, secret, Base64.Encode(secret));
  }

  /** `login` stores a fresh session under its random id, with no verified
      email, no expiry and renewal one period ahead; its secret in base64
      authenticates at any time, and at the moment of login (for a
      non-negative period) without changing the store. */
  lemma LoginThenAuth(db: Db, f: Faults, h: Hash, idSeed: Bytes, secret: Bytes, period: int, now: Timestamp,
                      secret2: Bytes, now2: Timestamp)
    requires LoginSpec(db, f, h, idSeed, secret, period, now).1.Pass?
    ensures var s := LoginSession(h, idSeed, secret, period, now);
      var db1 := LoginSpec(db, f, h, idSeed, secret, period, now).0;
      && s.id == Session.SessionId(h, idSeed) && s.id in db1.sessions && db1.sessions[s.id] == s
      && s.renew == Some(now + period) && s.expire.None? && s.createdAt == now && s.lastAuth == 0
      && !EmailVerified(s) && s.claims == []
      && (Valid(db) ==> Valid(db1))
      && (Valid(db) && s.id !in f.unreadableSessions ==>
            var r := AuthSpec(db1, f, h, period, s.id, Base64.Encode(secret), secret2, now2);
            r.1.Ok? && r.1.value.authenticated)
      && (Valid(db) && s.id !in f.unreadableSessions && period >= 0 ==>
            AuthSpec(db1, f, h, period, s.id, Base64.Encode(secret), secret2, now) == (db1, Ok(AuthReply(true, Some(s), None))))
  {
    var s := LoginSession(h, idSeed, secret, period, now);
    var db1 := LoginSpec(db, f, h, idSeed, secret, period, now).0;
    LoginSessionFacts(h, idSeed, secret, period, now);
    if Valid(db) {
      SessionWriteValid(db, f, s);
      if s.id !in f.unreadableSessions {
        AuthLive(db1, f, h, period, s.id, Base64.Encode(secret), secret2, now2);
        if period >= 0 {
          AuthAccepted(db1, f, h, period, s.id, Base64.Encode(secret), secret2, now);
        }
      }
    }
  }

  /** The session `proof(email)` creates: its random id, a proved claim on
      the email, expiry one proof lifespan ahead, no renewal, and its secret
      in base64 accepted. */
  lemma ProofSessionFacts(h: Hash, idSeed: Bytes, secret: Bytes, email: string, now: Timestamp)
    ensures var s := ProofSession(h, idSeed, secret, email, now);
      && s.id == Session.SessionId(h, idSeed) && s.hash == Session.SHA256
      && EmailVerified(s) && Email(s) == email
      && s.expire == Some(now + PROOF_LIFESPAN) && s.renew.None?
      && Accepts(s, Base64.Encode(secret), h)
  {
    var s0 := WithToken(NewSessionRecord(h, idSeed, now), h, secret);
    var s := ProofSession(h, idSeed, secret, email, now);
    NewSessionRecordUnverified(h, idSeed, now);
    ProveEmailVerifies(s0, email, now);
    WithTokenAccepts(NewSessionRecord(h, idSeed, now), h, secret, Base64.Encode(secret));
    assert s.token == s0.token && s.hash == s0.hash;
  }

  /** `proof(email)` stores a session holding a proved claim on the email,
      expiring one proof lifespan later and never renewed; its secret is
      accepted strictly before the expiry, and from the expiry on it is
      refused and the session deleted. */
  lemma ProofThenAuth(db: Db, f: Faults, h: Hash, idSeed: Bytes, secret: Bytes, email: string, now: Timestamp,
                      period: int, secret2: Bytes, now2: Timestamp)
    requires ProofSpec(db, f, h, idSeed, secret, email, now).1.Pass?
    ensures var s := ProofSession(h, idSeed, secret, email, now);
      var db1 := ProofSpec(db, f, h, idSeed, secret, email, now).0;
      && s.id == Session.SessionId(h, idSeed) && s.id in db1.sessions && db1.sessions[s.id] == s
      && EmailVerified(s) && Email(s) == email
      && s.expire == Some(now + PROOF_LIFESPAN) && s.renew.None?
      && (Valid(db) ==> Valid(db1))
      && (Valid(db) && s.id !in f.unreadableSessions && now2 < now + PROOF_LIFESPAN ==>
            AuthSpec(db1, f, h, period, s.id, Base64.Encode(secret), secret2, now2).1 == Ok(AuthReply(true, Some(s), None)))
      && (Valid(db) && s.id !in f.unreadableSessions && now2 >= now + PROOF_LIFESPAN ==>
            var r := AuthSpec(db1, f, h, period, s.id, Base64.Encode(secret), secret2, now2);
            r.1 == Ok(AuthReply(false, Some(s), None)) && s.id !in r.0.sessions)
  {
    var s := ProofSession(h, idSeed, secret, email, now);
    var db1 := ProofSpec(db, f, h, idSeed, secret, email, now).0;
    ProofSessionFacts(h, idSeed, secret, email, now);
    if Valid(db) {
      SessionWriteValid(db, f, s);
    }
    if Valid(db) && s.id !in f.unreadableSessions {
      if now2 < now + PROOF_LIFESPAN {
        AuthAccepted(db1, f, h, period, s.id, Base64.Encode(secret), secret2, now2);
      } else {
        AuthExpired(db1, f, h, period, s.id, Base64.Encode(secret), secret2, now2);
      }
    }
  }

  /** An id that is not stored is unauthenticated, with no error and no
      change; a session that cannot be read is an error. */
  lemma AuthUnknown(db: Db, f: Faults, h: Hash, period: int, id: string, token: string, secret: Bytes, now: Timestamp)
    ensures id !in db.sessions && id !in f.unreadableSessions ==>
              AuthSpec(db, f, h, period, id, token, secret, now) == (db, Ok(AuthReply(false, None, None)))
    ensures id in f.unreadableSessions ==> AuthSpec(db, f, h, period, id, token, secret, now) == (db, Err(IoFailure))
  {
  }

  /** An expired session is refused whatever token is presented, and it is
      deleted unless the backend fails to; an account that does not list
      the session keeps its list. */
  lemma AuthExpired(db: Db, f: Faults, h: Hash, period: int, id: string, token: string, secret: Bytes, now: Timestamp)
    requires Valid(db) && id in db.sessions && id !in f.unreadableSessions
    requires Expired(db.sessions[id], now)
    ensures var r := AuthSpec(db, f, h, period, id, token, secret, now);
      && r.1 == Ok(AuthReply(false, Some(db.sessions[id]), None))
      && Valid(r.0)
      && (id !in f.unwritableSessions ==> id !in r.0.sessions)
      && (id in f.unwritableSessions ==> r.0 == db)
      && (forall k :: k in db.accounts && id !in db.accounts[k].sessionIds ==>
            k in r.0.accounts && r.0.accounts[k].sessionIds == db.accounts[k].sessionIds)
  {
    var s := db.sessions[id];
    var r := AuthSpec(db, f, h, period, id, token, secret, now);
    assert r.0 == LogoutSpec(db, f, id).0;
    LogoutEffect(db, f, id);
  }

  /** A live session authenticates exactly the tokens whose hash equals the
      stored digest. A refused token, or an accepted one with no renewal
      due, changes nothing; an accepted one with renewal due stores the
      renewed session and returns the new secret, or reports the write
      failure. */
  lemma AuthLive(db: Db, f: Faults, h: Hash, period: int, id: string, token: string, secret: Bytes, now: Timestamp)
    requires Valid(db) && id in db.sessions && id !in f.unreadableSessions
    requires !Expired(db.sessions[id], now)
    ensures var s := db.sessions[id];
      var r := AuthSpec(db, f, h, period, id, token, secret, now);
      var accepted := h(Base64.Decode(token)) == Base64.BufferFromBase64url(s.token);
      var s1 := Renewed(s, h, secret, period, now);
      && (r.1.Ok? ==> r.1.value.authenticated == accepted)
      && (!accepted || !RenewalDue(s, period, now) ==> r == (db, Ok(AuthReply(accepted, Some(s), None))))
      && (accepted && RenewalDue(s, period, now) && id !in f.unwritableSessions ==>
            && r.1 == Ok(AuthReply(true, Some(s1), Some(secret)))
            && r.0.sessions == db.sessions[id := s1] && r.0.accounts == db.accounts
            && Valid(r.0))
      && (accepted && RenewalDue(s, period, now) && id in f.unwritableSessions ==> r == (db, Err(IoFailure)))
  {
  }

  /** After a renewal the old store is replaced: the next `auth` of the same
      session (before its expiry) accepts exactly the tokens that hash like
      the returned secret. */
  lemma RenewalRotatesSecret(db: Db, f: Faults, h: Hash, period: int, id: string, token: string, secret: Bytes,
                             now: Timestamp, token2: string, secret2: Bytes, now2: Timestamp)
    requires Valid(db) && id in db.sessions && id !in f.unreadableSessions
    requires AuthSpec(db, f, h, period, id, token, secret, now).1.Ok?
    requires AuthSpec(db, f, h, period, id, token, secret, now).1.value.secret.Some?
    requires !Expired(db.sessions[id], now2)
    ensures var db1 := AuthSpec(db, f, h, period, id, token, secret, now).0;
      var r2 := AuthSpec(db1, f, h, period, id, token2, secret2, now2);
      && Valid(db1)
      && r2.1.Ok?
      && (r2.1.value.authenticated <==> h(Base64.Decode(token2)) == h(secret))
      && var r3 := AuthSpec(db1, f, h, period, id, Base64.Encode(secret), secret2, now2);
        r3.1.Ok? && r3.1.value.authenticated
  {
    var s := db.sessions[id];
    AuthLive(db, f, h, period, id, token, secret, now);
    var s1 := Renewed(s, h, secret, period, now);
    RenewedRotates(s, h, secret, period, now, token2);
    RenewedRotates(s, h, secret, period, now, Base64.Encode(secret));
    var db1 := AuthSpec(db, f, h, period, id, token, secret, now).0;
    assert db1.sessions[id] == s1;
    AuthLive(db1, f, h, period, id, token2, secret2, now2);
    AuthLive(db1, f, h, period, id, Base64.Encode(secret), secret2, now2);
  }

  /** `logout` of an unknown id reports NotFound and changes nothing. When
      it succeeds the session is gone, so loading it reports NotFound and
      authenticating it fails; the account it was linked to loses the id
      (its first occurrence) and every other account is unchanged. */
  lemma LogoutEffect(db: Db, f: Faults, id: string)
    requires Valid(db)
    ensures var r := LogoutSpec(db, f, id);
      && Valid(r.0)
      && (SessionRead(db, f, id).Err? ==> r == (db, Fail(SessionRead(db, f, id).error)))
      && (r.1.Pass? ==> id in db.sessions && r.0.sessions == db.sessions - {id})
      && (r.1.Fail? && id in db.sessions && id !in f.unreadableSessions && id !in f.unwritableSessions ==>
            r.0.sessions == db.sessions - {id})
      && (id in db.sessions && id in f.unwritableSessions ==> r.0 == db)
      && (forall k :: k in db.accounts && id !in db.accounts[k].sessionIds ==>
            k in r.0.accounts && r.0.accounts[k].sessionIds == db.accounts[k].sessionIds)
      && (r.1.Pass? ==>
            var s := db.sessions[id];
            var k := EmailKey(Email(s));
            if LinkedAccount(db, f, s).Some? then
              && k in r.0.accounts
              && r.0.accounts[k].sessionIds == Account.RemoveFirst(db.accounts[k].sessionIds, id)
              && (forall k2 :: k2 in db.accounts && k2 != k ==> k2 in r.0.accounts && r.0.accounts[k2] == db.accounts[k2])
            else r.0.accounts == db.accounts)
  {
    match LoadSpec(db, f, id)
    case Err(e) =>
    case Ok(l) =>
      var (db1, o1) := SessionDelete(db, f, id);
      if o1.Pass? {
        match l.account
        case None =>
        case Some(a) =>
          var s := db.sessions[id];
          assert KeyOf(a) == EmailKey(Email(s));
          var a1 := a.(sessionIds := Account.RemoveFirst(a.sessionIds, id));
          assert KeyOf(a1) == KeyOf(a);
          forall k | k in db.accounts && id !in db.accounts[k].sessionIds
            ensures k in LogoutSpec(db, f, id).0.accounts
            ensures LogoutSpec(db, f, id).0.accounts[k].sessionIds == db.accounts[k].sessionIds
          {
          }
      }
  }

  /** After a successful `logout` the session cannot be loaded and does not
      authenticate. */
  lemma LogoutThenAuth(db: Db, f: Faults, id: string, h: Hash, period: int, token: string, secret: Bytes, now: Timestamp)
    requires Valid(db) && id !in f.unreadableSessions
    requires LogoutSpec(db, f, id).1.Pass?
    ensures var db1 := LogoutSpec(db, f, id).0;
      && LoadSpec(db1, f, id) == Err(NotFound)
      && AuthSpec(db1, f, h, period, id, token, secret, now) == (db1, Ok(AuthReply(false, None, None)))
  {
    LogoutEffect(db, f, id);
  }

  /** Logging out a verified session that its email's account does not list
      (a proof session, say, which is never linked): as written, the
      account loses its last session id, the most recently linked device;
      with the corrected removal it keeps its list. */
  lemma LogoutAsWrittenDropsLastDevice(db: Db, f: Faults, id: string)
    requires Valid(db) && id in db.sessions && id !in f.unreadableSessions && id !in f.unwritableSessions
    requires EmailVerified(db.sessions[id])
    requires var k := EmailKey(Email(db.sessions[id]));
      k in db.accounts && k !in f.unreadableAccounts && k !in f.unwritableAccounts
      && id !in db.accounts[k].sessionIds && |db.accounts[k].sessionIds| > 0
    ensures var k := EmailKey(Email(db.sessions[id]));
      var ids := db.accounts[k].sessionIds;
      var r := LogoutAsWrittenSpec(db, f, id);
      && r.1.Pass? && k in r.0.accounts
      && r.0.accounts[k].sessionIds == ids[..|ids| - 1]
      && r.0.accounts[k].sessionIds != ids
      && k in LogoutSpec(db, f, id).0.accounts
      && LogoutSpec(db, f, id).0.accounts[k].sessionIds == ids
  {
    var k := EmailKey(Email(db.sessions[id]));
    var a := db.accounts[k];
    assert KeyOf(a) == k;
    Account.AsWrittenDropsLast(a.sessionIds, id);
  }

  /** `rmAccount(email)` succeeds exactly when the account can be read, every
      one of its sessions deleted and then the account deleted. A read error
      changes nothing; any later failure leaves every account in place (the
      deletions that did succeed stay done); success removes the account and
      all of its sessions and nothing else. */
  lemma RmAccountEffect(db: Db, f: Faults, email: string)
    requires Valid(db)
    ensures var r := RmAccountSpec(db, f, email);
      var k := EmailKey(email);
      && Valid(r.0)
      && (AccountRead(db, f, k).Err? ==> r == (db, Fail(AccountRead(db, f, k).error)))
      && (r.1.Pass? <==>
            && k !in f.unreadableAccounts && k in db.accounts
            && (forall id :: id in db.accounts[k].sessionIds ==> id !in f.unwritableSessions)
            && k !in f.unwritableAccounts)
      && (r.1.Fail? ==> r.0.accounts == db.accounts)
      && (r.1.Pass? ==>
            && r.0.accounts == db.accounts - {k}
            && r.0.sessions == db.sessions - set id | id in db.accounts[k].sessionIds
            && forall id :: id in db.accounts[k].sessionIds ==> id !in r.0.sessions)
  {
    var k := EmailKey(email);
    if k !in f.unreadableAccounts && k in db.accounts {
      var ids := db.accounts[k].sessionIds;
      var (db1, o1) := DeleteAll(db, f, ids);
      if o1.Pass? {
        assert Deletable(f, ids) == set id | id in ids;
      }
    }
  }

  /** `addSessionToAccount(email, session)` succeeds exactly when the
      account can be read and the session and account written; it then
      stores the session and the account of the email with the session id
      appended (a new account holds just that id). An unreadable account is
      reported with no write. */
  lemma AddSessionToAccountEffect(db: Db, f: Faults, email: string, s: SessionRecord)
    requires Valid(db) && s.hash == Session.SHA256
    ensures var r := AddSessionToAccountSpec(db, f, email, s);
      var k := EmailKey(email);
      && Valid(r.0)
      && (k in f.unreadableAccounts ==> r == (db, Fail(IoFailure)))
      && (r.1.Pass? <==> k !in f.unreadableAccounts && k !in f.unwritableAccounts && s.id !in f.unwritableSessions)
      && (r.1.Pass? ==>
            && r.0.sessions == db.sessions[s.id := s]
            && r.0.accounts == db.accounts[k := AccountRecord(EMAIL, email,
                                 (if k in db.accounts then db.accounts[k].sessionIds else []) + [s.id],
                                 if k in db.accounts then db.accounts[k].data else None)])
  {
    var k := EmailKey(email);
    if k !in f.unreadableAccounts && k in db.accounts {
      var a := db.accounts[k];
      assert KeyOf(a) == k;
      var a1 := a.(sessionIds := a.sessionIds + [s.id]);
      assert KeyOf(a1) == k && a1 == AccountRecord(EMAIL, email, a.sessionIds + [s.id], a.data);
    } else if k !in f.unreadableAccounts {
      assert [] + [s.id] == [s.id];
    }
  }

  /** Confirming proves the email on the session: it becomes verified, holds
      a proved claim on the email, takes the email as its own unless another
      one was verified already, and records the authentication time;
      nothing else in it changes. */
  lemma ConfirmedSessionProves(s: SessionRecord, email: string, now: Timestamp)
    ensures var c := ConfirmedSession(s, email, now);
      && EmailVerified(c) && c.lastAuth == now
      && (!EmailVerified(s) ==> Email(c) == email)
      && (exists j :: 0 <= j < |c.claims| && c.claims[j].kind == EMAIL && c.claims[j].id == email && c.claims[j].provedAt > 0)
      && c == s.(claims := c.claims, lastAuth := now)
      && (UniqueClaims(s.claims) ==> UniqueClaims(c.claims))
  {
    var p := ProveEmail(s, email, now);
    ProveEmailVerifies(s, email, now);
    assert ConfirmedSession(s, email, now).claims == p.claims;
    var j :| 0 <= j < |p.claims| && p.claims[j] == Claim(EMAIL, email, p.claims[j].provedAt) && p.claims[j].provedAt > 0;
    assert p.claims[j].kind == EMAIL && p.claims[j].id == email;
  }

  /** `confirmEmailProved(id, email)` succeeds exactly when the session can
      be read and written and the email's account read and written. Errors
      reading the session or the account are returned with no write. On
      success the session is stored confirmed and reported, and the
      account of the email ends with the id: it is exactly `[id]` when the
      account did not exist, and the old list with `id` appended otherwise. */
  lemma ConfirmEmailProvedLinks(db: Db, f: Faults, id: string, email: string, now: Timestamp)
    requires Valid(db)
    ensures var r := ConfirmEmailProvedSpec(db, f, id, email, now);
      var k := EmailKey(email);
      && Valid(r.0)
      && (SessionRead(db, f, id).Err? ==> r == (db, Err(SessionRead(db, f, id).error)))
      && (id in db.sessions && id !in f.unreadableSessions && k in f.unreadableAccounts ==> r == (db, Err(IoFailure)))
      && (r.1.Ok? <==>
            && id in db.sessions && id !in f.unreadableSessions && id !in f.unwritableSessions
            && k !in f.unreadableAccounts && k !in f.unwritableAccounts)
      && (r.1.Ok? ==>
            && id in db.sessions
            && r.0.sessions == db.sessions[id := ConfirmedSession(db.sessions[id], email, now)]
            && r.1.value.session == r.0.sessions[id]
            && k in r.0.accounts
            && r.0.accounts[k].sessionIds == (if k in db.accounts then db.accounts[k].sessionIds else []) + [id])
  {
    if id in db.sessions && id !in f.unreadableSessions {
      var s := ConfirmedSession(db.sessions[id], email, now);
      assert s.id == id && s.hash == Session.SHA256 by {
        ConfirmedSessionProves(db.sessions[id], email, now);
      }
      AddSessionToAccountEffect(db, f, email, s);
      var (db1, o1) := AddSessionToAccountSpec(db, f, email, s);
      if o1.Pass? {
        assert db1.sessions[id] == s;
        assert LoadSpec(db1, f, id).Ok?;
      }
    }
  }

  /** Linking has no membership check: confirming the same email twice on
      the same session lists the session twice in the account. */
  lemma ConfirmTwiceDuplicates(db: Db, f: Faults, id: string, email: string, now1: Timestamp, now2: Timestamp)
    requires Valid(db)
    requires ConfirmEmailProvedSpec(db, f, id, email, now1).1.Ok?
    requires ConfirmEmailProvedSpec(ConfirmEmailProvedSpec(db, f, id, email, now1).0, f, id, email, now2).1.Ok?
    ensures var db2 := ConfirmEmailProvedSpec(ConfirmEmailProvedSpec(db, f, id, email, now1).0, f, id, email, now2).0;
      var k := EmailKey(email);
      && k in db2.accounts
      && var ids := db2.accounts[k].sessionIds;
        |ids| >= 2 && ids[|ids| - 2] == id && ids[|ids| - 1] == id
  {
    var k := EmailKey(email);
    var db1 := ConfirmEmailProvedSpec(db, f, id, email, now1).0;
    ConfirmEmailProvedLinks(db, f, id, email, now1);
    var ids1 := db1.accounts[k].sessionIds;
    assert |ids1| >= 1 && ids1[|ids1| - 1] == id;
    var db2 := ConfirmEmailProvedSpec(db1, f, id, email, now2).0;
    ConfirmEmailProvedLinks(db1, f, id, email, now2);
    assert db2.accounts[k].sessionIds == ids1 + [id];
  }

  /** `save` of a loaded session whose account is the stored one: it
      stores the session and leaves the accounts as they were; it fails
      exactly when the session or that account cannot be written. */
  lemma SaveStoredAccount(db: Db, f: Faults, l: Loaded)
    requires Valid(db) && l.session.hash == Session.SHA256
    requires l.account.Some? ==> KeyOf(l.account.value) in db.accounts && db.accounts[KeyOf(l.account.value)] == l.account.value
    ensures var r := SaveSpec(db, f, l);
      && Valid(r.0)
      && (r.1.Pass? ==> r.0.sessions == db.sessions[l.session.id := l.session] && r.0.accounts == db.accounts)
  {
    var (db1, o1) := SessionWrite(db, f, l.session);
    SessionWriteValid(db, f, l.session);
    if o1.Pass? && l.account.Some? {
      var a := l.account.value;
      var r := AccountWrite(db1, f, a);
      if r.1.Pass? {
        assert r.0.accounts == db1.accounts;
      }
    }
  }

  /** `claim` adds a claim on the email to the session without changing
      whether its email is verified; it stores the session (and rewrites
      its account unchanged). */
  lemma ClaimEffect(db: Db, f: Faults, id: string, email: string)
    requires Valid(db)
    ensures var r := ClaimSpec(db, f, id, email);
      && Valid(r.0)
      && (SessionRead(db, f, id).Err? ==> r == (db, Fail(SessionRead(db, f, id).error), None))
      && (r.2.Some? ==>
            var s := r.2.value.session;
            && id in db.sessions
            && s == db.sessions[id].(claims := s.claims)
            && EmailVerified(s) == EmailVerified(db.sessions[id])
            && (exists j :: 0 <= j < |s.claims| && s.claims[j].kind == EMAIL && s.claims[j].id == email))
      && (r.1.Pass? ==> r.2.Some? && id in r.0.sessions && r.0.sessions[id] == r.2.value.session
                        && r.0.accounts == db.accounts)
  {
    match LoadSpec(db, f, id)
    case Err(e) =>
    case Ok(l) =>
      var s0 := l.session;
      var (claims, i) := AddClaim(s0.claims, EMAIL, email);
      AddClaimKeepsVerified(s0.claims, email);
      var l1 := l.(session := s0.(claims := claims));
      assert l1.session.id == id;
      SaveStoredAccount(db, f, l1);
  }

  /** Adding an email claim neither proves nor unproves the session's email. */
  lemma AddClaimKeepsVerified(claims: seq<Claim>, email: string)
    ensures FindClaimOfType(AddClaim(claims, EMAIL, email).0, EMAIL, true).Some?
              == FindClaimOfType(claims, EMAIL, true).Some?
  {
    var c1 := AddClaim(claims, EMAIL, email).0;
    var before := FindClaimOfType(claims, EMAIL, true);
    var after := FindClaimOfType(c1, EMAIL, true);
    if before.Some? {
      assert c1[before.value] == claims[before.value];
    }
    if after.Some? && after.value < |claims| {
      assert c1[after.value] == claims[after.value];
    }
  }

  /** `setAccountData` replaces the account's data and nothing else. */
  lemma SetAccountDataEffect(db: Db, f: Faults, email: string, data: string)
    requires Valid(db)
    ensures var r := SetAccountDataSpec(db, f, email, data);
      var k := EmailKey(email);
      && Valid(r.0)
      && r.0.sessions == db.sessions
      && (r.1.Pass? <==> k !in f.unreadableAccounts && k in db.accounts && k !in f.unwritableAccounts)
      && (r.1.Fail? ==> r.0 == db)
      && (r.1.Pass? ==> r.0.accounts == db.accounts[k := db.accounts[k].(data := Some(data))])
  {
  }
}
