# email-login session registry, in Dafny

A model of the passwordless session registry of email-login, with proofs
about it. The registry keeps two keyed stores:

- sessions by id;
- accounts by `(type, id)`.

Each registry operation is a read-modify-write over those two stores.

The model covers these parts:

- **Session primitives** (`src/session.js`):
  - the Session object, with its `setToken` and `setProof` setters;
  - the verified-email test and `newSession`;
  - `base64url` and `bufferFromBase64url` over Node's base64 codec.
- **Account** (`src/account.js`): the ordered list of session ids, with append
  and remove.
- **Registry** (`src/registry.js`):
  - `load`, `loadAccount`, `logout`, `rmAccount`, `save`, `addSessionToAccount`;
  - `login`, `claim`, `proof`, `confirmEmailProved`, `setAccountData`, `auth`;
  - the constant-time comparison `constEq`.
- **Api** (`src/api.js`):
  - the bearer-token codec `version.id.base64url(secret)`;
  - `escapeHtml`;
  - `login`, `confirmEmail` (its three device cases) and `authenticate`;
  - the two helpers that test/api.js asserts: `emailDomain` and the `emailDelay`
    throttle, which spaces proof emails to one address 1000 ms apart.

How it is laid out:

- **Storage.** `Storage.Store` is a class holding the two stores as maps. Its
  methods follow the contract of the file backend: reading a missing key is
  NotFound, an update inserts or replaces, and deleting a missing key
  succeeds.
- **Backend failures.** A store also has fixed sets of keys that it fails to
  read or to write. This makes every error branch of the registry reachable.
- **Registry.** `Registry.Registry` and `Api.Api` are classes over such a
  store. Each method is proved equal to a specification function. These
  functions live in `RegistrySpec` (and in `Api` for the Api) and map the
  stores before the call to the stores after it and the value passed to the
  callback. The properties are lemmas about those functions, in
  `RegistryProperties` and `Api`.
- **Cryptography and time.** SHA-256 is an arbitrary function `Hash` from
  bytes to bytes. The random bytes an operation draws are inputs of its
  method. The current time is a parameter.
- **Session and account records.** The `src/session.js` and `src/account.js`
  modelled here are older than the registry that uses them:
  - They are modelled as written, in `Session` and `Account`.
  - The registry instead works on the records that `src/db/fs.js` reads and
    writes, in `SessionRecords`:
    - `SessionRecord(id, hash, token, createdAt, expire, renew, lastAuth, claims)`;
    - `AccountRecord(type, id, sessionIds, data)`.
  - `addClaim`, `proveClaim` and the claim-based `emailVerified` and `email`
    are specified from their call sites:
    - a session's email is verified when some email claim is proved;
    - its email is that of the first proved email claim, else the first
      email claim.
- **Api calls outside the model.** `src/api.js` calls `registry.confirm`, which is not
  part of this model. `Api.ConfirmEmail` takes what `confirm` reported as an
  input. `manualConfirmEmail` is modelled as `confirmEmailProved`.
- **`emailDomain` and `emailDelay`.** They have no implementation among the
  modelled files and are modelled from test/api.js:
  - `emailDomain` returns the suffix from the last `@`. It returns nothing
    when there is no `@`, or when the last one is the first or the last
    character.
  - `emailDelay`:
    - On an address with nothing recorded, it records now and returns 0.
    - Otherwise it records the later of now and the recorded time plus
      1000 ms, and returns the wait until then.
- **Linking duplicates ids.** `addSessionToAccount` appends the session id
  with no membership check (src/registry.js:137, src/account.js:10). So
  confirming the same email twice on one session lists the session twice.
  The model follows the code, and `RegistryProperties.ConfirmTwiceDuplicates`
  proves the duplication.
- **`rmSession` is corrected.** As written, `rmSession` drops the last id
  when asked to remove an absent one (see Findings). The model uses the
  corrected removal everywhere, including in `logout`.
- **Test-only constructor form.** test/account.js builds accounts as
  `new Account('email', 'a@a')`, the newer `(type, id)` form. The
  constructor in src/account.js takes `(email, sessionIds)`. `Account.Account.constructor`
  follows that code.

## Model

| member | source | states |
|---|---|---|
| Account.IndexOf | src/account.js:13 | `indexOf`: -1 exactly when the id is absent, otherwise the position of its first occurrence |
| Account.SpliceOne | src/account.js:13 | `splice(start, 1)`: a negative start counts back from the end; its effect at -1 is stated by `AsWrittenDropsLast` |
| Account.RmSessionAsWritten | src/account.js:12-15 | `rmSession` as written, with no check of the -1; `AsWrittenDropsLast`, `AsWrittenFailsAccountTest` and `AsWrittenAgreesWhenPresent` state what it does |
| Account.AsWrittenDropsLast | src/account.js:12-15 | as written, removing an absent id from a non-empty list drops the list's last id |
| Account.AsWrittenFailsAccountTest | test/account.js:25-31 | as written, the test's removal of an absent id empties the list instead of leaving it alone |
| Account.RemoveFirst | test/account.js:12-31 | the intended `rmSession`: an absent id leaves the list unchanged; a present one loses exactly its first occurrence, and the rest keep their order |
| Account.AsWrittenAgreesWhenPresent | src/account.js:12-15 | for a present id the code as written already removes its first occurrence |
| Account.RemoveFirstMultiset | src/account.js:12-15 | removal takes exactly one copy of the id out of the list |
| Account.AddThenRemove | src/account.js:9-15 | adding a fresh id and then removing it restores the original list |
| Account.Account.constructor | src/account.js:3-6 | a missing session list becomes the empty list |
| Account.Account.AddSession | src/account.js:9-11 | the session's id is appended at the end and earlier ids stay as they were |
| Account.Account.RmSession | src/account.js:12-15 | the list becomes `RemoveFirst` of the old list, with the guard against -1 that the tests require |
| Session.TokenDigestDecodes | src/session.js:31 | reading the stored base64 digest back with `bufferFromBase64url` gives the hash of the secret |
| Session.TokenDigest | src/session.js:26-31 | the base64 digest `setToken` stores; `TokenDigestDecodes` proves it reads back as the hash of the secret |
| Session.SessionId | src/session.js:52-58 | a new session id is base64url text: only letters, digits, `-` and `_` |
| Session.OrDefault | src/session.js:12-13 | `+x \|\| d`: the default for a missing or zero argument, otherwise the argument |
| Session.Session.constructor | src/session.js:7-20 | fields as given, `createdAt` defaulting to now (never 0) and `lastAuth` to 0 |
| Session.Session.SetToken | src/session.js:25-33 | returns the 32 random bytes; stores `sha256` and the base64 digest of their hash, which reads back as that hash; no other field changes |
| Session.Session.SetProof | src/session.js:36-46 | returns the random bytes; stores the proof digest, the proof time and the email; the email is then not verified; no other field changes |
| Session.Session.EmailVerified | src/session.js:47-49 | a non-empty email with no pending proof; `SetProof` proves it false right after a proof is set |
| Session.NewSession | src/session.js:52-70 | a fresh session with a random base64url id, creation time now, every other field empty, and no verified email |
| Base64.Encode | src/session.js:74 | Node's base64 text always has a length that is a multiple of four |
| Base64.Sextets | src/session.js:74 | four 6-bit groups per 3-byte block and two or three for a final partial block |
| Base64.UnpackSextets | src/session.js:80 | packing the 6-bit groups of a byte string gives the byte string back |
| Base64.DecodeEncode | src/session.js:80 | decoding Node's base64 of a byte string gives it back, with or without the `=` padding |
| Base64.Decode | src/session.js:80 | `Buffer(s, 'base64')`, reading values up to the first `=` and skipping other characters; `DecodeEncode` proves it inverts `Encode` |
| Base64.StrippedEncode | src/session.js:75 | removing `=` from base64 text leaves exactly the standard-alphabet characters of the groups |
| Base64.EncodeIsAscii | src/session.js:73 | base64 text is ASCII, so `new Buffer(text)` has one byte per character |
| Base64.AsciiBytes | src/session.js:73 | `new Buffer(s)` of an ASCII string has one byte per character |
| Base64.Base64Url | src/session.js:72-76 | `base64url(buf)`; `Base64UrlText`, `Base64UrlAlphabet` and `Base64UrlRoundTrip` state its text, its alphabet and its inverse |
| Base64.BufferFromBase64url | src/session.js:78-81 | `bufferFromBase64url(s)`; `BufferFromBase64urlIsDecode` proves it equals plain decoding and `Base64UrlRoundTrip` that it inverts `base64url` |
| Base64.Base64UrlText | src/session.js:72-76 | `base64url` is the URL-safe text of the groups and contains no `+`, `/` or `=` (section 5 of RFC 4648, without padding) |
| Base64.Base64UrlAlphabet | src/session.js:72-76 | every character of `base64url` output is a letter, a digit, `-` or `_` |
| Base64.ValuesIgnoreAlphabet | src/session.js:79-80 | rewriting `-` and `_` to `+` and `/` does not change the values Node's decoder reads |
| Base64.BufferFromBase64urlIsDecode | src/session.js:78-81 | `bufferFromBase64url` is plain base64 decoding on every string, so also on the standard digest `setToken` stores |
| Base64.Base64UrlRoundTrip | src/session.js:72-81 | `bufferFromBase64url(base64url(b)) == b` for every byte string |
| Base64.RewriteStdText | src/session.js:74 | the `+`/`/` rewrite turns the standard text of the groups into their URL-safe text |
| Base64.RewriteUrlText | src/api.js:124 | the `-`/`_` rewrite turns the URL-safe text of the groups back into their standard text |
| Base64.Base64UrlToStd | src/api.js:124 | rewriting `base64url(b)` to the standard alphabet gives the base64 of `b` without its padding |
| Strings.ReplaceAll | src/session.js:74 | a global one-character `replace`: no effect without the character; the character is gone when the replacement lacks it |
| Strings.ReplaceAllConcat | src/session.js:74-75 | a one-character global replace distributes over concatenation |
| Strings.Split | src/api.js:118 | `split('.')` yields at least one piece and no piece holds the separator |
| Strings.SplitThree | src/api.js:118-121 | three separator-free pieces joined by the separator split back into exactly those pieces |
| Strings.SplitTwo | src/api.js:118-121 | two separator-free pieces joined by the separator split back into exactly those pieces |
| Strings.IntToString | src/api.js:134 | the decimal text of an integer holds no `.` |
| Strings.ToNumber | src/api.js:119 | `+s` on digit strings: a value for digits with an optional leading `-`, 0 for the empty string, NaN otherwise |
| Strings.ToNumberOfIntToString | src/api.js:119 | converting the printed version number back gives the number |
| SessionRecords.FindClaim | src/registry.js:176 | the position of the claim on `(type, id)`, or a proof that there is none |
| SessionRecords.FindClaimOfType | src/registry.js:42 | the first claim of a namespace (the first proved one if asked), with no earlier such claim |
| SessionRecords.AddClaim | src/registry.js:176 | reuses an existing claim on `(type, id)` or appends an unproved one; earlier claims are untouched and claims stay unique |
| SessionRecords.ProveClaim | src/registry.js:177 | the chosen claim becomes proved; every claim keeps its `(type, id)` and the others are unchanged |
| SessionRecords.ProveEmailVerifies | test/registry.js:39-42 | after proving, the session holds a proved claim on the email and is verified; its email becomes that one unless another was already verified; only the claims change |
| SessionRecords.EmailVerified | src/registry.js:42 | the claim-based `emailVerified()`: some email claim is proved; `ProveEmailVerifies` and `NewSessionRecordUnverified` state when it holds |
| SessionRecords.Email | src/registry.js:43 | the address `load` looks the account up by; `ProveEmailVerifies` proves it is the proved address when none was verified before |
| SessionRecords.WithTokenAccepts | src/registry.js:226-242 | a session whose token was set from a secret accepts exactly the tokens whose decoding hashes like that secret, including the secret's base64 with or without padding |
| SessionRecords.NewSessionRecordUnverified | src/session.js:59-69 | a fresh session has no verified email and an empty email |
| SessionRecords.NewSessionRecord | src/session.js:52-70 | the record `newSession()` gives the registry; `NewSessionRecordUnverified` proves it unverified |
| SessionRecords.WithToken | src/registry.js:152-154 | `setToken` on a record; `WithTokenAccepts` proves which tokens it then accepts |
| SessionRecords.Expired | src/registry.js:234-235 | `session.expire <= now`, false when no expiry is set; `AuthExpired` and `ProofThenAuth` state its effect |
| SessionRecords.RenewalDue | src/registry.js:244-245 | `renewalPeriod !== 0 && session.renew <= now`; `AuthLive` states both of its branches |
| SessionRecords.Accepts | src/registry.js:226-242 | the hash of the decoded token equals the stored digest read back; `WithTokenAccepts` and `AuthLive` state when it holds |
| SessionRecords.Renewed | src/registry.js:247-250 | the session `auth` writes back on renewal; `RenewedRotates` states its fields and the tokens it accepts |
| Storage.SessionRead | src/db/fs.js:39-55 | a stored session is returned, a missing one is NotFound, and a backend failure is an I/O error |
| Storage.SessionWrite | src/db/fs.js:61-67 | an update inserts or replaces the session under its id and touches nothing else; a failed one changes nothing |
| Storage.SessionDelete | src/db/fs.js:73-76 | deleting removes the id (a missing id is not an error); a failed delete changes nothing |
| Storage.AccountRead | src/db/fs.js:88-106 | a stored account is returned, a missing one is NotFound, and a backend failure is an I/O error |
| Storage.AccountWrite | src/db/fs.js:112-121 | an update inserts or replaces the account under its `(type, id)` and touches nothing else |
| Storage.AccountDelete | src/db/fs.js:128-133 | deleting removes the account (a missing one is not an error); a failed delete changes nothing |
| Storage.Store.constructor | src/db/fs.js:20-28 | a new store is empty and has the given failing keys |
| Storage.Store.ReadSession | src/db/fs.js:39-55 | reads as `SessionRead` specifies |
| Storage.Store.UpdateSession | src/db/fs.js:61-67 | the new contents and outcome are those `SessionWrite` specifies |
| Storage.Store.DeleteSession | src/db/fs.js:73-76 | the new contents and outcome are those `SessionDelete` specifies |
| Storage.Store.ReadAccount | src/db/fs.js:88-106 | reads as `AccountRead` specifies |
| Storage.Store.UpdateAccount | src/db/fs.js:112-121 | the new contents and outcome are those `AccountWrite` specifies |
| Storage.Store.DeleteAccount | src/db/fs.js:128-133 | the new contents and outcome are those `AccountDelete` specifies |
| RegistrySpec.LinkedAccount | src/registry.js:42-46 | an account is attached exactly when the email is verified and its account can be read; a read error is ignored |
| RegistrySpec.LoadSpec | src/registry.js:37-51 | `load` succeeds exactly when the session can be read, returns the stored session, and passes on the read error otherwise |
| RegistrySpec.DeleteAll | src/registry.js:86-94 | every deletion is issued: exactly the writable ids are removed, accounts are untouched, and the result fails exactly when some id cannot be deleted |
| RegistrySpec.LogoutSpec | src/registry.js:60-77 | `logout` with the corrected `rmSession`; `LogoutEffect` and `LogoutThenAuth` state its effect |
| RegistrySpec.LogoutAsWrittenSpec | src/registry.js:60-77 | `logout` with `rmSession` as written; `LogoutAsWrittenDropsLastDevice` shows the device it drops |
| RegistrySpec.RmAccountSpec | src/registry.js:81-103 | `rmAccount`; `RmAccountEffect` states its effect |
| RegistrySpec.SaveSpec | src/registry.js:107-116 | `save`; `SaveStoredAccount` states its effect with the stored account |
| RegistrySpec.AddSessionToAccountSpec | src/registry.js:119-142 | `addSessionToAccount`; `AddSessionToAccountEffect` states its effect |
| RegistrySpec.LoginSpec | src/registry.js:150-157 | `login`; `LoginSessionFacts` and `LoginThenAuth` state its session and effect |
| RegistrySpec.ProofSpec | src/registry.js:171-180 | `proof`; `ProofSessionFacts` and `ProofThenAuth` state its session and effect |
| RegistrySpec.ClaimSpec | src/registry.js:161-168 | `claim`; `ClaimEffect` states its effect |
| RegistrySpec.ConfirmEmailProvedSpec | src/registry.js:184-197 | `confirmEmailProved`; `ConfirmEmailProvedLinks` and `ConfirmTwiceDuplicates` state its effect |
| RegistrySpec.SetAccountDataSpec | src/registry.js:202-209 | `setAccountData`; `SetAccountDataEffect` states its effect |
| RegistrySpec.AuthSpec | src/registry.js:214-264 | `auth`; `AuthUnknown`, `AuthExpired`, `AuthLive` and `RenewalRotatesSecret` state every branch |
| RegistryProperties.RenewedRotates | src/registry.js:247-250 | renewal keeps id, creation, expiry and claims, records the authentication, schedules the next renewal, and then accepts exactly the tokens hashing like the new secret |
| RegistryProperties.SessionWriteValid | src/registry.js:110 | storing a session with a SHA-256 digest keeps every record under its own key |
| RegistryProperties.AuthAccepted | src/registry.js:243-258 | a live session presented with an accepted token and no renewal due authenticates and changes nothing |
| RegistryProperties.LoginSessionFacts | src/registry.js:150-155 | the login session has the random id, no verified email, no expiry, renewal one period ahead, and accepts its secret |
| RegistryProperties.LoginThenAuth | src/registry.js:150-157 | after `login` the session is stored; its secret authenticates at any later time, and at login time without changing the store |
| RegistryProperties.ProofSessionFacts | src/registry.js:171-178 | the proof session has the random id, a proved claim on the email, expiry 1800000 ms ahead, no renewal, and accepts its secret |
| RegistryProperties.ProofThenAuth | src/registry.js:171-180 | after `proof` the secret authenticates strictly before the expiry; from the expiry on it is refused and the session deleted |
| RegistryProperties.AuthUnknown | src/registry.js:216-223 | an id not in the store is unauthenticated with no error and no change; an unreadable one is an error |
| RegistryProperties.AuthExpired | src/registry.js:234-238 | an expired session is refused whatever the token and deleted unless the backend fails; accounts not listing it keep their lists |
| RegistryProperties.AuthLive | src/registry.js:240-262 | a live session authenticates exactly the tokens whose hash equals the stored digest; with no renewal due nothing changes; with renewal due only the renewed session is written and the new secret returned, or the write failure reported with no change |
| RegistryProperties.RenewalRotatesSecret | src/registry.js:244-256 | after a renewal the next `auth` accepts exactly the tokens hashing like the returned secret, and that secret's base64 authenticates |
| RegistryProperties.LogoutEffect | src/registry.js:60-77 | an unreadable or unknown id is reported with no change; on success the session is gone and its linked account loses the id while every other account is unchanged |
| RegistryProperties.LogoutThenAuth | test/registry.js:61-66 | after a logout, loading the session is NotFound and authenticating it fails |
| RegistryProperties.LogoutAsWrittenDropsLastDevice | src/registry.js:64-66 | as written, logging out a verified session its account does not list (an expired proof session reaching `logout` from `auth`, src/registry.js:235-237) drops the account's last session id; with the corrected removal the list is kept |
| RegistryProperties.RmAccountEffect | src/registry.js:81-103 | `rmAccount` succeeds exactly when the account is read, all its sessions deleted and then the account deleted; a failure keeps every account; success removes the account and its sessions only |
| RegistryProperties.AddSessionToAccountEffect | src/registry.js:119-142 | an unreadable account is reported with no write; success stores the session and the account with the id appended, a missing account being created as exactly `[id]` |
| RegistryProperties.ConfirmedSessionProves | src/registry.js:188-190 | the confirmed session is verified, holds a proved claim on the email, takes it as its email unless one was verified, and records the authentication time |
| RegistryProperties.ConfirmEmailProvedLinks | src/registry.js:184-197 | success exactly when session and account can be read and written; read errors are returned with no write; on success the session is stored confirmed and the account ends with the id |
| RegistryProperties.ConfirmTwiceDuplicates | src/registry.js:137 | confirming the same email twice on a session lists the session twice at the end of the account |
| RegistryProperties.SaveStoredAccount | src/registry.js:107-116 | saving a session with its stored account stores the session and leaves the accounts as they were |
| RegistryProperties.ClaimEffect | src/registry.js:161-168 | `claim` adds a claim on the email without changing whether the email is verified, and stores the session; read errors are returned with no change |
| RegistryProperties.AddClaimKeepsVerified | src/registry.js:165 | adding an unproved email claim neither proves nor unproves the session's email |
| RegistryProperties.SetAccountDataEffect | src/registry.js:202-209 | the account's data is replaced and nothing else changes; a missing or unwritable account is reported with no change |
| Registry.Registry.constructor | src/registry.js:21-30 | the renewal period defaults to 0 when absent |
| Registry.Registry.Load | src/registry.js:37-51 | returns what `LoadSpec` specifies |
| Registry.Registry.LoadAccount | src/registry.js:53-56 | returns the email's account as the store reads it |
| Registry.Registry.Logout | src/registry.js:60-77 | new stores and outcome are those of `LogoutSpec` |
| Registry.Registry.RmAccount | src/registry.js:81-103 | a loop issuing one deletion per id; new stores and outcome are those of `RmAccountSpec` |
| Registry.Registry.Save | src/registry.js:107-116 | new stores and outcome are those of `SaveSpec` |
| Registry.Registry.AddSessionToAccount | src/registry.js:119-142 | new stores and outcome are those of `AddSessionToAccountSpec` |
| Registry.Registry.Login | src/registry.js:150-157 | returns the drawn secret and the login session; new stores and outcome are those of `LoginSpec` |
| Registry.Registry.Claim | src/registry.js:161-168 | new stores, outcome and session are those of `ClaimSpec` |
| Registry.Registry.Proof | src/registry.js:171-180 | returns the drawn secret and the proof session; new stores and outcome are those of `ProofSpec` |
| Registry.Registry.ConfirmEmailProved | src/registry.js:184-197 | new stores and result are those of `ConfirmEmailProvedSpec` |
| Registry.Registry.SetAccountData | src/registry.js:202-209 | new stores and outcome are those of `SetAccountDataSpec` |
| Registry.Registry.Auth | src/registry.js:214-264 | new stores and reply are those of `AuthSpec`, the digest compared with `ConstEq` |
| ConstantTime.XorZero | src/registry.js:272 | `x ^ y` is zero exactly when `x == y` |
| ConstantTime.OrZero | src/registry.js:272 | `x \| y` is zero exactly when both are zero |
| ConstantTime.ConstEq | src/registry.js:268-275 | true exactly when the buffers have the same length and agree at every index; with equal lengths every index is visited |
| Api.TokenVersion | src/api.js:133 | `version \|\| 1`: a missing or zero version is 1, any other is kept |
| Api.EncodeToken | src/api.js:132-135 | `encodeToken(id, secret, version)`; `DecodeEncodeToken` and `SessionTokenRoundTrip` prove `decodeToken` inverts it |
| Api.DecodeToken | src/api.js:117-127 | a token with at least three dot-separated parts yields its second part as id, `+` of the first as version, and the third part rewritten to the standard alphabet, which decodes to the same bytes; with fewer parts it is malformed |
| Api.DecodeEncodeToken | src/api.js:117-135 | decoding an encoded token gives back the id, the version (1 for a missing or zero one) and the secret in standard base64 without padding |
| Api.SessionTokenRoundTrip | src/api.js:132-135 | tokens built on session ids always decode, since ids hold no dot |
| Api.EscapeHtml | src/api.js:161-163 | escaped text contains no `<` or `>` |
| Api.EscapeHtmlChar | src/api.js:162 | on one character the three passes give its entity |
| Api.EscapeHtmlConcat | src/api.js:162 | the three passes distribute over concatenation |
| Api.EscapeHtmlIsEscaped | src/api.js:162 | the three global passes equal one left-to-right pass that replaces each character by its entity |
| Api.UnescapeEntity | src/api.js:162 | each entity reads back as its character whatever follows it |
| Api.UnescapeEscaped | src/api.js:162 | reading the entities back undoes the one-pass escape |
| Api.EscapeHtmlRoundTrip | src/api.js:161-163 | mapping `&lt;`, `&gt;` and `&amp;` back recovers the input, because `&` is escaped first |
| Api.LastIndexOf | test/api.js:290-292 | the last position of the character, with none after it, or -1 when it is absent |
| Api.EmailDomain | test/api.js:287-292 | present exactly when some `@` other than the first or last character is followed by no `@`; it is then the suffix from that `@` |
| Api.EmailDomainCases | test/api.js:287-292 | the six asserted cases |
| Api.NextProofRequest | test/api.js:296-312 | never before now; at least 1000 ms after the previous request; and either now or exactly 1000 ms after the previous |
| Api.EmailDelayScenario | test/api.js:305-312 | the asserted scenario: a first request at 222 waits 0 and records 222; one at 223 waits 999 and records 1222 |
| Api.Schedule | test/api.js:296-312 | one recorded time per request to an address |
| Api.ScheduleSpaced | test/api.js:296-312 | however requests are timed, none is sent before it was asked for, successive ones are at least 1000 ms apart, and the first goes out at once |
| Api.ProofRequests.constructor | test/api.js:302 | the table starts empty |
| Api.ProofRequests.EmailDelay | test/api.js:296-312 | records `NextProofRequest` for the address, changes no other address, and returns the non-negative wait |
| Api.LoginThenAuthenticate | src/api.js:22-28 | a token from the Api's `login` authenticates its session at any later time |
| Api.AuthenticateLoginToken | src/api.js:105-111 | a stored, never-expiring session holding a login digest is authenticated by the token built on that secret |
| Api.ConfirmUnconfirmed | src/api.js:73 | an unconfirmed email token yields the null token and changes nothing |
| Api.ConfirmFromUnknownDevice | src/api.js:75-85 | with no cookie a new login session is minted, verified for the email and listed last in its account, and its token returned; the token authenticates it |
| Api.ConfirmFromOtherDevice | src/api.js:87-95 | with another device's cookie that session is proved for the email and linked, and the cookie token returned |
| Api.ConfirmedSessionProvesAt | src/api.js:91 | the confirmed cookie session is verified and keeps its digest, expiry and renewal |
| Api.ApiLoginSpec | src/api.js:22-28 | the Api's `login`; `LoginThenAuthenticate` states that its token authenticates |
| Api.AuthenticateSpec | src/api.js:105-111 | `authenticate`: decode the cookie token, then `auth`; `AuthenticateLoginToken` states it on login tokens |
| Api.ConfirmEmailSpec | src/api.js:64-101 | `confirmEmail`; `ConfirmUnconfirmed`, `ConfirmFromUnknownDevice`, `ConfirmFromOtherDevice` and `ConfirmFromSameDevice` state its four cases |
| Api.ConfirmFromSameDevice | src/api.js:96-98 | with the same device's cookie the cookie token is returned and nothing changes |
| Api.Api.constructor | src/api.js:14-18 | the Api wraps the given registry |
| Api.Api.Login | src/api.js:22-28 | new stores and result are those of `ApiLoginSpec` |
| Api.Api.ConfirmEmail | src/api.js:64-101 | new stores and reply are those of `ConfirmEmailSpec` |
| Api.Api.Authenticate | src/api.js:105-111 | new stores and reply are those of `AuthenticateSpec` |

## Left out

- Storage I/O is not modelled: the file and PostgreSQL backends (src/db/fs.js, src/db/pg.js, src/db.js) and JSON encoding are replaced by two in-memory maps that obey the backend's contract. Backend failures are modelled as fixed sets of keys that cannot be read or written. Not modelled: that the pg backend drops `renew` when decoding, and the pg account schema.
- `setup`, `mkdir` and the Api constructor's directory and mailer options are not modelled.
- src/mailer.js, `proveEmail` and the email subject, text and HTML templates are not modelled. `proveEmail` calls `proof(id, email)`, a signature src/registry.js does not have, and then the mailer.
- `registry.confirm` is not part of this model. Its result is an input of `Api.ConfirmEmail`, and its own effect on the stores is not modelled.
- src/token-registry.js, an earlier store that no core file requires, is not modelled.
- script/rm-expired-sessions.js is not modelled. It treats a session as expired when `expire < now`, while `auth` uses `expire <= now`.
- Callbacks, the `Promise.all` in `rmAccount`, and concurrent requests are not modelled. Each call runs to completion before the next, and `rmAccount`'s deletions run in list order.
- The global clock and `changeCurrentTime` are not modelled: the time is a parameter.
- SHA-256 and `randomBytes` are not modelled. Hashing is an arbitrary function, and random bytes are method inputs of 32 bytes.
- Hash algorithms other than sha256 are not modelled. `auth` reports `UnknownHashAlgorithm` for any other stored algorithm.
- Exceptions are mostly not modelled: nothing here throws, including the `setToken` calls guarded by try/catch. The one exception that is modelled is the TypeError `decodeToken` throws on a token with fewer than three dot-separated parts, as `Err(MalformedToken)`.
- JavaScript's number syntax is modelled only for digits with an optional leading `-`. Every other string converts to NaN, modelled as None.
- `Buffer(s, 'base64')` is modelled as Node's lenient decoder: it stops at the first `=` and skips characters outside both alphabets. Node's handling of other malformed input is not modelled.
- ConstantTime.ConstEq: timing is not modelled. The contract states only the result and that every index is visited when the lengths agree.
- RegistryProperties.RenewalRotatesSecret: the old secret is refused only when its hash differs from the new secret's. The model does not assume SHA-256 is collision-free.
- Api.NextProofRequest: the tests fix only a first request and one request 1 ms later. For later requests the model records the later of now and the previous recorded time plus 1000 ms.
- The lifespan of ordinary sessions is not modelled. The registry's header says a session "will still die after SESSION_LIFESPAN" (src/registry.js:19-20), but no modelled file defines that lifespan or sets `expire` on a login session. So login sessions here have `expire == None` and never expire. `RegistryProperties.LoginSessionFacts` ("no expiry"), `RegistryProperties.LoginThenAuth` and `Api.LoginThenAuthenticate` ("at any later time") hold of that code only.

## Findings

| source | as written | input that shows it | evidently intended | confidence | as-written member | corrected member |
|---|---|---|---|---|---|---|
| src/account.js:12-15 | `splice(indexOf(id), 1)` runs even when `indexOf` returns -1, and `splice(-1, 1)` removes the last element | the list `['aWh2ak9hQU9KamE4N0VpSlRsMVVwdz09']` and removal of `'Z1JWQTVJSEN6RjIyWjY5cDN0Mnl0dz09'` (test/account.js:25-31) end with an empty list | removing an absent id leaves the list unchanged, as test/account.js asserts | not executed | Account.AsWrittenFailsAccountTest | Account.Account.RmSession |
| src/registry.js:60-77 | `logout` calls `rmSession` as written on the session's account even when the account does not list the session | an expired proof session for an email whose account lists `['d']`: `auth` (src/registry.js:235-237) calls `logout`, the session is verified but not listed, and the account is saved as `[]` | the account keeps its list, and only the logged-out session is removed | not executed | RegistryProperties.LogoutAsWrittenDropsLastDevice | RegistryProperties.LogoutEffect |
