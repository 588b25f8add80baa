/** The storage port the registry persists through, with the contract the
    file-system backend documents (src/db/fs.js): reading a missing record is
    a NotFound error, an update creates or replaces the record, and deleting
    a missing record is not an error. Sessions are keyed by id, accounts by
    `(type, id)`. Disk failures other than a missing file are modelled by a
    fixed set of keys whose reads, and a set whose writes, fail. */
module Storage {
  import opened Common
  import opened SessionRecords

  /** The stored records. */
  datatype Db = Db(sessions: map<string, SessionRecord>, accounts: map<AccountKey, AccountRecord>)

  /** Keys on which the backend fails with an error other than NotFound. */
  datatype Faults = Faults(
    unreadableSessions: set<string>,
    unwritableSessions: set<string>,
    unreadableAccounts: set<AccountKey>,
    unwritableAccounts: set<AccountKey>)

  /** Every record is stored under its own key. */
  ghost predicate WellKeyed(db: Db)
  {
    && (forall id :: id in db.sessions ==> db.sessions[id].id == id)
    && (forall k :: k in db.accounts ==> KeyOf(db.accounts[k]) == k)
  }

  /** `readSession(id)`. */
  function SessionRead(db: Db, f: Faults, id: string): (r: Result<SessionRecord, Error>)
    ensures r == Err(NotFound) <==> id !in f.unreadableSessions && id !in db.sessions
    ensures r.Err? ==> r.error in {NotFound, IoFailure}
    ensures r.Ok? ==> id in db.sessions && r.value == db.sessions[id]
    ensures id !in f.unreadableSessions && id in db.sessions ==> r == Ok(db.sessions[id])
    ensures id in f.unreadableSessions ==> r == Err(IoFailure)
  {
    if id in f.unreadableSessions then Err(IoFailure)
    else if id in db.sessions then Ok(db.sessions[id])
    else Err(NotFound)
  }

  /** `updateSession(s)` (and `createSession`): an upsert under `s.id`. */
  function SessionWrite(db: Db, f: Faults, s: SessionRecord): (r: (Db, Outcome<Error>))
    ensures r.1.Pass? <==> s.id !in f.unwritableSessions
    ensures r.1.Fail? ==> r.0 == db && r.1.error == IoFailure
    ensures r.1.Pass? ==> r.0.sessions.Keys == db.sessions.Keys + {s.id} && r.0.sessions[s.id] == s
    ensures forall id :: id in db.sessions && id != s.id ==> id in r.0.sessions && r.0.sessions[id] == db.sessions[id]
    ensures r.0.accounts == db.accounts
    ensures WellKeyed(db) ==> WellKeyed(r.0)
  {
    if s.id in f.unwritableSessions then (db, Fail(IoFailure))
    else (db.(sessions := db.sessions[s.id := s]), Pass)
  }

  /** `deleteSession(id)`: deleting a missing session succeeds. */
  function SessionDelete(db: Db, f: Faults, id: string): (r: (Db, Outcome<Error>))
    ensures r.1.Pass? <==> id !in f.unwritableSessions
    ensures r.1.Fail? ==> r.0 == db && r.1.error == IoFailure
    ensures r.1.Pass? ==> r.0.sessions == db.sessions - {id}
    ensures r.0.accounts == db.accounts
    ensures WellKeyed(db) ==> WellKeyed(r.0)
  {
    if id in f.unwritableSessions then (db, Fail(IoFailure))
    else (db.(sessions := db.sessions - {id}), Pass)
  }

  /** `readAccount(type, id)`. */
  function AccountRead(db: Db, f: Faults, key: AccountKey): (r: Result<AccountRecord, Error>)
    ensures r == Err(NotFound) <==> key !in f.unreadableAccounts && key !in db.accounts
    ensures r.Err? ==> r.error in {NotFound, IoFailure}
    ensures r.Ok? ==> key in db.accounts && r.value == db.accounts[key]
    ensures key !in f.unreadableAccounts && key in db.accounts ==> r == Ok(db.accounts[key])
    ensures key in f.unreadableAccounts ==> r == Err(IoFailure)
  {
    if key in f.unreadableAccounts then Err(IoFailure)
    else if key in db.accounts then Ok(db.accounts[key])
    else Err(NotFound)
  }

  /** `updateAccount(a)` (and `createAccount`): an upsert under `(a.type, a.id)`. */
  function AccountWrite(db: Db, f: Faults, a: AccountRecord): (r: (Db, Outcome<Error>))
    ensures r.1.Pass? <==> KeyOf(a) !in f.unwritableAccounts
    ensures r.1.Fail? ==> r.0 == db && r.1.error == IoFailure
    ensures r.1.Pass? ==> r.0.accounts.Keys == db.accounts.Keys + {KeyOf(a)} && r.0.accounts[KeyOf(a)] == a
    ensures forall k :: k in db.accounts && k != KeyOf(a) ==> k in r.0.accounts && r.0.accounts[k] == db.accounts[k]
    ensures r.0.sessions == db.sessions
    ensures WellKeyed(db) ==> WellKeyed(r.0)
  {
    if KeyOf(a) in f.unwritableAccounts then (db, Fail(IoFailure))
    else (db.(accounts := db.accounts[KeyOf(a) := a]), Pass)
  }

  /** `deleteAccount(type, id)`: deleting a missing account succeeds. */
  function AccountDelete(db: Db, f: Faults, key: AccountKey): (r: (Db, Outcome<Error>))
    ensures r.1.Pass? <==> key !in f.unwritableAccounts
    ensures r.1.Fail? ==> r.0 == db && r.1.error == IoFailure
    ensures r.1.Pass? ==> r.0.accounts == db.accounts - {key}
    ensures r.0.sessions == db.sessions
    ensures WellKeyed(db) ==> WellKeyed(r.0)
  {
    if key in f.unwritableAccounts then (db, Fail(IoFailure))
    else (db.(accounts := db.accounts - {key}), Pass)
  }

  /** The backend object: two keyed stores updated in place. */
  class Store {
    var sessions: map<string, SessionRecord>
    var accounts: map<AccountKey, AccountRecord>
    const faults: Faults

    function Contents(): Db
      reads this
    {
      Db(sessions, accounts)
    }

    constructor (faults: Faults)
      ensures Contents() == Db(map[], map[]) && this.faults == faults
    {
      sessions := map[];
      accounts := map[];
      this.faults := faults;
    }

    method ReadSession(id: string) returns (r: Result<SessionRecord, Error>)
      ensures r == SessionRead(Contents(), faults, id)
    {
      if id in faults.unreadableSessions {
        r := Err(IoFailure);
      } else if id in sessions {
        r := Ok(sessions[id]);
      } else {
        r := Err(NotFound);
      }
    }

    method UpdateSession(s: SessionRecord) returns (r: Outcome<Error>)
      modifies this
      ensures (Contents(), r) == SessionWrite(old(Contents()), faults, s)
    {
      if s.id in faults.unwritableSessions {
        r := Fail(IoFailure);
      } else {
        sessions := sessions[s.id := s];
        r := Pass;
      }
    }

    method DeleteSession(id: string) returns (r: Outcome<Error>)
      modifies this
      ensures (Contents(), r) == SessionDelete(old(Contents()), faults, id)
    {
      if id in faults.unwritableSessions {
        r := Fail(IoFailure);
      } else {
        sessions := sessions - {id};
        r := Pass;
      }
    }

    method ReadAccount(key: AccountKey) returns (r: Result<AccountRecord, Error>)
      ensures r == AccountRead(Contents(), faults, key)
    {
      if key in faults.unreadableAccounts {
        r := Err(IoFailure);
      } else if key in accounts {
        r := Ok(accounts[key]);
      } else {
        r := Err(NotFound);
      }
    }

    method UpdateAccount(a: AccountRecord) returns (r: Outcome<Error>)
      modifies this
      ensures (Contents(), r) == AccountWrite(old(Contents()), faults, a)
    {
      if KeyOf(a) in faults.unwritableAccounts {
        r := Fail(IoFailure);
      } else {
        accounts := accounts[KeyOf(a) := a];
        r := Pass;
      }
    }

    method DeleteAccount(key: AccountKey) returns (r: Outcome<Error>)
      modifies this
      ensures (Contents(), r) == AccountDelete(old(Contents()), faults, key)
    {
      if key in faults.unwritableAccounts {
        r := Fail(IoFailure);
      } else {
        accounts := accounts - {key};
        r := Pass;
      }
    }
  }
}
