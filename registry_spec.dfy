/** The effect of each operation of src/registry.js on the two stores, as a
    function of the stores before the call, the backend's failing keys and
    the call's inputs. Callbacks run one after the other here; what a call
    does is the sequence of reads and writes its code issues, and what it
    reports is the error or value it passes to its callback. */
module RegistrySpec {
  import opened Common
  import opened SessionRecords
  import opened Storage
  import Account

  /** A session as `load` hands it over: the record and, when its email is
      verified and that account could be read, the account. */
  datatype Loaded = Loaded(session: SessionRecord, account: Option<AccountRecord>)

  /** What `auth` passes to its callback when it reports no error. */
  datatype AuthReply = AuthReply(authenticated: bool, session: Option<SessionRecord>, secret: Option<Bytes>)

  /** The account `load` attaches: an error reading it is ignored. */
  function LinkedAccount(db: Db, f: Faults, s: SessionRecord): (r: Option<AccountRecord>)
    ensures r.Some? <==> EmailVerified(s) && AccountRead(db, f, EmailKey(Email(s))).Ok?
    ensures r.Some? ==> EmailKey(Email(s)) in db.accounts && r.value == db.accounts[EmailKey(Email(s))]
  {
    if EmailVerified(s) then
      match AccountRead(db, f, EmailKey(Email(s)))
      case Ok(a) => Some(a)
      case Err(_) => None
    else None
  }

  /** `load(id)`. */
  function LoadSpec(db: Db, f: Faults, id: string): (r: Result<Loaded, Error>)
    ensures r.Ok? <==> SessionRead(db, f, id).Ok?
    ensures r.Ok? ==> id in db.sessions && r.value.session == db.sessions[id]
    ensures r.Err? ==> r.error == SessionRead(db, f, id).error
  {
    match SessionRead(db, f, id)
    case Err(e) => Err(e)
    case Ok(s) => Ok(Loaded(s, LinkedAccount(db, f, s)))
  }

  /** `logout(id)`: the session is deleted; only then is the account it was
      linked to saved without the id. */
  function LogoutSpec(db: Db, f: Faults, id: string): (r: (Db, Outcome<Error>))
  {
    match LoadSpec(db, f, id)
    case Err(e) => (db, Fail(e))
    case Ok(l) =>
      var (db1, o1) := SessionDelete(db, f, id);
      if o1.Fail? then (db1, o1)
      else match l.account
        case None => (db1, Pass)
        case Some(a) => AccountWrite(db1, f, a.(sessionIds := Account.RemoveFirst(a.sessionIds, id)))
  }

  /** `logout(id)` with `rmSession` as src/account.js writes it, where an id
      missing from the account makes `splice(-1, 1)` drop the last id. */
  function LogoutAsWrittenSpec(db: Db, f: Faults, id: string): (r: (Db, Outcome<Error>))
  {
    match LoadSpec(db, f, id)
    case Err(e) => (db, Fail(e))
    case Ok(l) =>
      var (db1, o1) := SessionDelete(db, f, id);
      if o1.Fail? then (db1, o1)
      else match l.account
        case None => (db1, Pass)
        case Some(a) => AccountWrite(db1, f, a.(sessionIds := Account.RmSessionAsWritten(a.sessionIds, id)))
  }

  /** The session ids among `ids` whose deletion succeeds. */
  function Deletable(f: Faults, ids: seq<string>): set<string>
  {
    set id | id in ids && id !in f.unwritableSessions
  }

  /** The deletions `rmAccount` starts, one per id: every one is issued, and
      the call fails when any of them fails. */
  function DeleteAll(db: Db, f: Faults, ids: seq<string>): (r: (Db, Outcome<Error>))
    ensures r.0.sessions == db.sessions - Deletable(f, ids)
    ensures r.0.accounts == db.accounts
    ensures r.1.Pass? <==> forall id :: id in ids ==> id !in f.unwritableSessions
    ensures r.1.Fail? ==> r.1.error == IoFailure
    ensures WellKeyed(db) ==> WellKeyed(r.0)
    decreases |ids|
  {
    if |ids| == 0 then (db, Pass)
    else
      var (db1, o1) := DeleteAll(db, f, ids[..|ids| - 1]);
      var (db2, o2) := SessionDelete(db1, f, ids[|ids| - 1]);
      assert ids == ids[..|ids| - 1] + [ids[|ids| - 1]];
      (db2, if o1.Fail? then o1 else o2)
  }

  /** `rmAccount(email)`: every session of the account is deleted, and the
      account only when all of those deletions succeeded. */
  function RmAccountSpec(db: Db, f: Faults, email: string): (r: (Db, Outcome<Error>))
  {
    match AccountRead(db, f, EmailKey(email))
    case Err(e) => (db, Fail(e))
    case Ok(a) =>
      var (db1, o1) := DeleteAll(db, f, a.sessionIds);
      if o1.Fail? then (db1, o1) else AccountDelete(db1, f, EmailKey(email))
  }

  /** `save(session)`: the session, then its account if it has one. */
  function SaveSpec(db: Db, f: Faults, l: Loaded): (r: (Db, Outcome<Error>))
  {
    var (db1, o1) := SessionWrite(db, f, l.session);
    if o1.Fail? then (db1, o1)
    else match l.account
      case None => (db1, Pass)
      case Some(a) => AccountWrite(db1, f, a)
  }

  /** `addSessionToAccount(email, session)`: a missing account is created
      holding just this session; an existing one gets the id appended (with
      no membership check) and is saved with the session. */
  function AddSessionToAccountSpec(db: Db, f: Faults, email: string, s: SessionRecord): (r: (Db, Outcome<Error>))
  {
    match AccountRead(db, f, EmailKey(email))
    case Err(NotFound) =>
      var (db1, o1) := AccountWrite(db, f, AccountRecord(EMAIL, email, [s.id], None));
      if o1.Fail? then (db1, o1) else SessionWrite(db1, f, s)
    case Err(e) => (db, Fail(e))
    case Ok(a) => SaveSpec(db, f, Loaded(s, Some(a.(sessionIds := a.sessionIds + [s.id]))))
  }

  /** The session `login` creates: renewal scheduled one period ahead, the
      digest of `secret` stored. */
  function LoginSession(h: Hash, idSeed: Bytes, secret: Bytes, renewalPeriod: int, now: Timestamp): SessionRecord
  {
    WithToken(NewSessionRecord(h, idSeed, now).(renew := Some(now + renewalPeriod)), h, secret)
  }

  /** `login()`: stores the new session; returns the outcome of the write,
      the secret and the session. */
  function LoginSpec(db: Db, f: Faults, h: Hash, idSeed: Bytes, secret: Bytes, renewalPeriod: int, now: Timestamp): (r: (Db, Outcome<Error>))
  {
    SessionWrite(db, f, LoginSession(h, idSeed, secret, renewalPeriod, now))
  }

  /** The session `proof(email)` creates: the digest of `secret`, a claim on
      the email proved now, and an expiry one proof lifespan ahead. */
  function ProofSession(h: Hash, idSeed: Bytes, secret: Bytes, email: string, now: Timestamp): SessionRecord
  {
    ProveEmail(WithToken(NewSessionRecord(h, idSeed, now), h, secret), email, now).(expire := Some(now + PROOF_LIFESPAN))
  }

  /** `proof(email)`: stores the proof session. */
  function ProofSpec(db: Db, f: Faults, h: Hash, idSeed: Bytes, secret: Bytes, email: string, now: Timestamp): (r: (Db, Outcome<Error>))
  {
    SessionWrite(db, f, ProofSession(h, idSeed, secret, email, now))
  }

  /** `claim(id, email)`: adds an (unproved) email claim to the session and
      saves it; the session is reported unless loading it failed. */
  function ClaimSpec(db: Db, f: Faults, id: string, email: string): (r: (Db, Outcome<Error>, Option<Loaded>))
  {
    match LoadSpec(db, f, id)
    case Err(e) => (db, Fail(e), None)
    case Ok(l) =>
      var l1 := l.(session := l.session.(claims := AddClaim(l.session.claims, EMAIL, email).0));
      var (db1, o1) := SaveSpec(db, f, l1);
      (db1, o1, Some(l1))
  }

  /** The session `confirmEmailProved` saves: the claim on the email added
      and proved, and the authentication time recorded. */
  function ConfirmedSession(s: SessionRecord, email: string, now: Timestamp): SessionRecord
  {
    ProveEmail(s, email, now).(lastAuth := now)
  }

  /** `confirmEmailProved(id, email)`: proves the email on the session,
      records the authentication time, links the session into the email's
      account and reloads it. */
  function ConfirmEmailProvedSpec(db: Db, f: Faults, id: string, email: string, now: Timestamp): (r: (Db, Result<Loaded, Error>))
  {
    match LoadSpec(db, f, id)
    case Err(e) => (db, Err(e))
    case Ok(l) =>
      var s := ConfirmedSession(l.session, email, now);
      var (db1, o1) := AddSessionToAccountSpec(db, f, email, s);
      if o1.Fail? then (db1, Err(o1.error)) else (db1, LoadSpec(db1, f, s.id))
  }

  /** `setAccountData(email, data)`. */
  function SetAccountDataSpec(db: Db, f: Faults, email: string, data: string): (r: (Db, Outcome<Error>))
  {
    match AccountRead(db, f, EmailKey(email))
    case Err(e) => (db, Fail(e))
    case Ok(a) => AccountWrite(db, f, a.(data := Some(data)))
  }

  /** `auth(id, token)`: an unknown id is unauthenticated; a hash algorithm
      other than SHA-256 is an error; an expired session is logged out and
      refused; otherwise the token is accepted when its hash matches the
      stored digest, and a due renewal stores the digest of `secret` and
      returns it. */
  function AuthSpec(db: Db, f: Faults, h: Hash, renewalPeriod: int, id: string, token: string,
                    secret: Bytes, now: Timestamp): (r: (Db, Result<AuthReply, Error>))
  {
    match LoadSpec(db, f, id)
    case Err(NotFound) => (db, Ok(AuthReply(false, None, None)))
    case Err(e) => (db, Err(e))
    case Ok(l) =>
      var s := l.session;
      if s.hash != Session.SHA256 then (db, Err(UnknownHashAlgorithm))
      else if Expired(s, now) then (LogoutSpec(db, f, s.id).0, Ok(AuthReply(false, Some(s), None)))
      else if !Accepts(s, token, h) then (db, Ok(AuthReply(false, Some(s), None)))
      else if RenewalDue(s, renewalPeriod, now) then
        var s1 := Renewed(s, h, secret, renewalPeriod, now);
        var (db1, o1) := SessionWrite(db, f, s1);
        if o1.Fail? then (db1, Err(o1.error)) else (db1, Ok(AuthReply(true, Some(s1), Some(secret))))
      else (db, Ok(AuthReply(true, Some(s), None)))
  }
}
