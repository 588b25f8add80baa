/** src/api.js: the bearer-token codec `version.id.base64url(secret)`, the
    HTML escaper, the Api object's `login`, `confirmEmail` and
    `authenticate`, and the two helpers whose behaviour test/api.js asserts:
    `emailDomain` and the per-address `emailDelay` throttle. */
module Api {
  import opened Common
  import opened Strings
  import opened SessionRecords
  import opened Storage
  import opened RegistrySpec
  import Base64
  import Session
  import RegistryProperties
  import Registry

  /** What `decodeToken` returns: the session id, the secret rewritten to
      the standard base64 alphabet, and `+version` (None when it is not a
      number). */
  datatype TokenParts = TokenParts(id: string, token: string, version: Option<int>)

  /** `version || 1`: a missing or zero version is 1. */
  function TokenVersion(version: Option<int>): (v: int)
    ensures v != 0
    ensures version.Some? && version.value != 0 ==> v == version.value
    ensures version.None? || version.value == 0 ==> v == 1
  {
    if version.None? || version.value == 0 then 1 else version.value
  }

  /** `encodeToken(id, secret, version)`. */
  function EncodeToken(id: string, secret: Bytes, version: Option<int>): string
  {
    IntToString(TokenVersion(version)) + "." + id + "." + Base64.Base64Url(secret)
  }

  /** `decodeToken(text)`: a text with fewer than three dot-separated parts
      has no third part to rewrite, which throws in the source. */
  function DecodeToken(text: string): (r: Result<TokenParts, Error>)
    ensures r.Ok? <==> |Split(text, '.')| >= 3
    ensures r.Err? ==> r.error == MalformedToken
    ensures r.Ok? ==> r.value.id == Split(text, '.')[1] && r.value.version == ToNumber(Split(text, '.')[0])
    ensures r.Ok? ==> '.' !in r.value.id && '.' !in r.value.token && '-' !in r.value.token && '_' !in r.value.token
    ensures r.Ok? ==> Base64.Decode(r.value.token) == Base64.Decode(Split(text, '.')[2])
  {
    var elements := Split(text, '.');
    if |elements| < 3 then Err(MalformedToken)
    else
      Base64.ValuesIgnoreAlphabet(elements[2]);
      Ok(TokenParts(elements[1], ReplaceAll(ReplaceAll(elements[2], '-', "+"), '_', "/"), ToNumber(elements[0])))
  }

  /** Decoding an encoded token gives back the id, the version (1 for a
      missing or zero one) and the secret in standard base64 without its
      '=' padding, provided the id has no dot. */
  lemma DecodeEncodeToken(id: string, secret: Bytes, version: Option<int>)
    requires '.' !in id
    ensures DecodeToken(EncodeToken(id, secret, version))
              == Ok(TokenParts(id, ReplaceAll(Base64.Encode(secret), '=', ""), Some(TokenVersion(version))))
  {
    var v := IntToString(TokenVersion(version));
    var u := Base64.Base64Url(secret);
    Base64.Base64UrlAlphabet(secret);
    UrlTextHasNoDot(u);
    SplitThree(v, id, u, '.');
    ToNumberOfIntToString(TokenVersion(version));
    Base64.Base64UrlToStd(secret);
  }

  /** Text in the base64url alphabet has no dot. */
  lemma UrlTextHasNoDot(u: string)
    requires forall i :: 0 <= i < |u| ==> Base64.IsUrlChar(u[i])
    ensures '.' !in u
  {
    forall i | 0 <= i < |u| ensures u[i] != '.' { assert Base64.IsUrlChar(u[i]); }
  }

  /** Session ids are base64url text, so tokens built on them always decode. */
  lemma SessionTokenRoundTrip(h: Hash, seed: Bytes, secret: Bytes, version: Option<int>)
    ensures DecodeToken(EncodeToken(Session.SessionId(h, seed), secret, version))
              == Ok(TokenParts(Session.SessionId(h, seed), ReplaceAll(Base64.Encode(secret), '=', ""), Some(TokenVersion(version))))
  {
    var id := Session.SessionId(h, seed);
    UrlTextHasNoDot(id);
    DecodeEncodeToken(id, secret, version);
  }

  /** `escapeHtml(text)`: '&', then '<', then '>' replaced by entities. */
  function EscapeHtml(text: string): (r: string)
    ensures '<' !in r && '>' !in r
  {
    ReplaceAll(ReplaceAll(ReplaceAll(text, '&', "&amp;"), '<', "&lt;"), '>', "&gt;")
  }

  /** The entity one character becomes. */
  function EscapeChar(c: char): string
  {
    if c == '&' then "&amp;" else if c == '<' then "&lt;" else if c == '>' then "&gt;" else [c]
  }

  /** Escaping in a single left-to-right pass. */
  function Escaped(text: string): string
    decreases |text|
  {
    if |text| == 0 then "" else EscapeChar(text[0]) + Escaped(text[1..])
  }

  /** Reading the three entities back, left to right. */
  function Unescape(s: string): string
    decreases |s|
  {
    if |s| == 0 then ""
    else if |s| >= 4 && s[..4] == "&lt;" then "<" + Unescape(s[4..])
    else if |s| >= 4 && s[..4] == "&gt;" then ">" + Unescape(s[4..])
    else if |s| >= 5 && s[..5] == "&amp;" then "&" + Unescape(s[5..])
    else [s[0]] + Unescape(s[1..])
  }

  /** On one character the three passes give its entity. */
  lemma EscapeHtmlChar(c: char)
    ensures EscapeHtml([c]) == EscapeChar(c)
  {
    var e1 := ReplaceAll([c], '&', "&amp;");
    assert e1 == if c == '&' then "&amp;" else [c] by { assert [c][1..] == ""; }
    var e2 := ReplaceAll(e1, '<', "&lt;");
    if c == '<' {
      assert e2 == "&lt;" by { assert e1[1..] == ""; }
    } else {
      assert '<' !in e1;
    }
    if c == '>' {
      assert e2 == [c];
      assert ReplaceAll(e2, '>', "&gt;") == "&gt;" by { assert e2[1..] == ""; }
    } else {
      assert '>' !in e2;
    }
  }

  /** The three passes distribute over concatenation. */
  lemma EscapeHtmlConcat(a: string, b: string)
    ensures EscapeHtml(a + b) == EscapeHtml(a) + EscapeHtml(b)
  {
    ReplaceAllConcat(a, b, '&', "&amp;");
    var a1, b1 := ReplaceAll(a, '&', "&amp;"), ReplaceAll(b, '&', "&amp;");
    ReplaceAllConcat(a1, b1, '<', "&lt;");
    ReplaceAllConcat(ReplaceAll(a1, '<', "&lt;"), ReplaceAll(b1, '<', "&lt;"), '>', "&gt;");
  }

  /** Because '&' is replaced first, the three passes escape every character
      exactly once: they equal the single-pass escape. */
  lemma {:induction false} EscapeHtmlIsEscaped(text: string)
    ensures EscapeHtml(text) == Escaped(text)
    decreases |text|
  {
    if |text| > 0 {
      assert text == [text[0]] + text[1..];
      EscapeHtmlConcat([text[0]], text[1..]);
      EscapeHtmlChar(text[0]);
      EscapeHtmlIsEscaped(text[1..]);
    } else {
      assert EscapeHtml(text) == "";
    }
  }

  /** The entity of one character reads back as that character, whatever
      follows it. */
  lemma {:induction false} UnescapeEntity(c: char, tail: string)
    ensures Unescape(EscapeChar(c) + tail) == [c] + Unescape(tail)
  {
    var s := EscapeChar(c) + tail;
    if c == '&' {
      assert s[..4] == "&amp" && s[..5] == "&amp;" && s[5..] == tail;
    } else if c == '<' {
      assert s[..4] == "&lt;" && s[4..] == tail;
    } else if c == '>' {
      assert s[..4] == "&gt;" && s[4..] == tail;
    } else {
      assert s[0] == c && s[1..] == tail;
      if |s| >= 4 {
        assert s[..4] != "&lt;" && s[..4] != "&gt;";
      }
      if |s| >= 5 {
        assert s[..5] != "&amp;";
      }
    }
  }

  /** Reading the entities back undoes the single-pass escape. */
  lemma {:induction false} UnescapeEscaped(text: string)
    ensures Unescape(Escaped(text)) == text
    decreases |text|
  {
    if |text| > 0 {
      UnescapeEntity(text[0], Escaped(text[1..]));
      UnescapeEscaped(text[1..]);
      assert [text[0]] + text[1..] == text;
    }
  }

  /** Mapping `&lt;`, `&gt;` and `&amp;` back recovers the escaped text. */
  lemma EscapeHtmlRoundTrip(text: string)
    ensures Unescape(EscapeHtml(text)) == text
  {
    EscapeHtmlIsEscaped(text);
    UnescapeEscaped(text);
  }

  /** The position of the last `c` in `s`, or -1. */
  function LastIndexOf(s: string, c: char): (i: int)
    ensures -1 <= i < |s|
    ensures i >= 0 ==> s[i] == c && c !in s[i + 1..]
    ensures i == -1 ==> c !in s
    decreases |s|
  {
    if |s| == 0 then -1
    else if s[|s| - 1] == c then |s| - 1
    else
      var i := LastIndexOf(s[..|s| - 1], c);
      LastIndexOfStep(s[..|s| - 1], s[|s| - 1], c, i);
      assert s == s[..|s| - 1] + [s[|s| - 1]];
      i
  }

  /** A character other than `c` appended at the end leaves the last
      position of `c` where it was. */
  lemma LastIndexOfStep(t: string, x: char, c: char, i: int)
    requires x != c && -1 <= i < |t|
    requires i >= 0 ==> t[i] == c && c !in t[i + 1..]
    requires i == -1 ==> c !in t
    ensures i >= 0 ==> (t + [x])[i] == c && c !in (t + [x])[i + 1..]
    ensures i == -1 ==> c !in t + [x]
  {
    if i >= 0 {
      assert (t + [x])[i + 1..] == t[i + 1..] + [x];
    }
  }

  /** `emailDomain(address)`: the suffix from the last '@', absent when there
      is no '@' or the last one is the first or the last character. */
  function EmailDomain(address: string): (r: Option<string>)
    ensures r.Some? <==> exists i :: 0 < i < |address| - 1 && address[i] == '@' && '@' !in address[i + 1..]
    ensures r.Some? ==> |r.value| >= 2 && r.value[0] == '@' && '@' !in r.value[1..]
    ensures r.Some? ==> |r.value| < |address| && address[|address| - |r.value|..] == r.value
  {
    var i := LastIndexOf(address, '@');
    if i <= 0 || i == |address| - 1 then None
    else
      assert address[i..][1..] == address[i + 1..];
      Some(address[i..])
  }

  /** The cases test/api.js asserts. */
  lemma EmailDomainCases()
    ensures EmailDomain("a") == None && EmailDomain("@a") == None && EmailDomain("a@") == None
    ensures EmailDomain("a@a") == Some("@a") && EmailDomain("@a@a") == Some("@a") && EmailDomain("a@a@a") == Some("@a")
  {
    assert LastIndexOf("a", '@') == -1;
    assert LastIndexOf("@a", '@') == 0 by { assert "@a"[..1] == "@"; }
    assert LastIndexOf("a@", '@') == 1;
    assert LastIndexOf("a@a", '@') == 1 by { assert "a@a"[..2] == "a@"; }
    assert LastIndexOf("@a@a", '@') == 2 by { assert "@a@a"[..3] == "@a@"; }
    assert LastIndexOf("a@a@a", '@') == 3 by { assert "a@a@a"[..4] == "a@a@"; }
    assert "a@a"[1..] == "@a" && "@a@a"[2..] == "@a" && "a@a@a"[3..] == "@a";
  }

  /** Minimum spacing between two proof emails to the same address, in ms. */
  const PROOF_SPACING := 1000

  /** When the next proof email may go out: now if none is scheduled or the
      last one is at least a spacing in the past, otherwise one spacing after
      the last one. */
  function NextProofRequest(previous: Option<int>, now: int): (next: int)
    ensures next >= now
    ensures previous.Some? ==> next >= previous.value + PROOF_SPACING
    ensures next == now || (previous.Some? && next == previous.value + PROOF_SPACING)
  {
    if previous.None? || previous.value + PROOF_SPACING <= now then now else previous.value + PROOF_SPACING
  }

  /** The scenario of test/api.js: a first request at 222 goes out at once
      and is recorded at 222; one a millisecond later waits 999 ms and is
      recorded at 1222. */
  lemma EmailDelayScenario()
    ensures NextProofRequest(None, 222) == 222
    ensures NextProofRequest(Some(222), 223) == 1222 && NextProofRequest(Some(222), 223) - 223 == 999
  {
  }

  /** The times recorded for successive proof requests to one address made
      at `times`, starting with nothing recorded. */
  function Schedule(times: seq<int>): (r: seq<int>)
    ensures |r| == |times|
    decreases |times|
  {
    if |times| == 0 then []
    else
      var earlier := Schedule(times[..|times| - 1]);
      var previous := if |earlier| == 0 then None else Some(earlier[|earlier| - 1]);
      earlier + [NextProofRequest(previous, times[|times| - 1])]
  }

  /** However the requests to one address are timed, no email goes out
      before it was asked for and successive emails are at least one spacing
      apart; the first goes out at once. */
  lemma {:induction false} ScheduleSpaced(times: seq<int>)
    ensures var r := Schedule(times);
      && (forall i :: 0 <= i < |r| ==> r[i] >= times[i])
      && (forall i :: 0 < i < |r| ==> r[i] >= r[i - 1] + PROOF_SPACING)
      && (|times| > 0 ==> r[0] == times[0])
    decreases |times|
  {
    if |times| > 0 {
      var init := times[..|times| - 1];
      ScheduleSpaced(init);
      var earlier := Schedule(init);
      var r := Schedule(times);
      assert r[..|earlier|] == earlier;
      forall i | 0 <= i < |earlier| ensures r[i] == earlier[i] && times[i] == init[i] {
        assert r[..|earlier|][i] == r[i];
      }
      if |init| == 0 {
        assert r == [NextProofRequest(None, times[0])];
      }
    }
  }

  /** The `nextProofRequest` table `emailDelay` updates in place. */
  class ProofRequests {
    var next: map<string, int>

    constructor ()
      ensures next == map[]
    {
      next := map[];
    }

    /** `emailDelay(email, nextProofRequest)`: schedules the next proof
        email to the address and returns how long to wait for it. */
    method EmailDelay(email: string, now: int) returns (delay: int)
      modifies this
      ensures next == old(next)[email := NextProofRequest(if email in old(next) then Some(old(next)[email]) else None, now)]
      ensures delay == next[email] - now && delay >= 0
      ensures email in old(next) ==> next[email] >= old(next)[email] + PROOF_SPACING
    {
      if email !in next {
        next := next[email := now];
        return 0;
      }
      var scheduled := next[email] + PROOF_SPACING;
      if scheduled <= now {
        scheduled := now;
      }
      next := next[email := scheduled];
      delay := scheduled - now;
    }
  }

  /** A token handed to a client with the session it names. */
  datatype Minted = Minted(token: string, session: SessionRecord)

  /** What `registry.confirm` reported about the email token; its store
      effects are not part of this model. */
  datatype Confirmation = Unconfirmed(session: Option<SessionRecord>) | Confirmed(confirmed: SessionRecord)

  /** What `confirmEmail` passes to its callback: the token to keep (None is
      the null token of a failed confirmation) and the session. */
  datatype ConfirmReply = ConfirmReply(token: Option<string>, session: Option<SessionRecord>)

  /** `login()` of the Api: a registry login and the token for it. */
  function ApiLoginSpec(db: Db, f: Faults, h: Hash, period: int, idSeed: Bytes, secret: Bytes, now: Timestamp): (r: (Db, Result<Minted, Error>))
  {
    var (db1, o) := LoginSpec(db, f, h, idSeed, secret, period, now);
    var s := LoginSession(h, idSeed, secret, period, now);
    if o.Fail? then (db1, Err(o.error)) else (db1, Ok(Minted(EncodeToken(s.id, secret, None), s)))
  }

  /** `authenticate(cookieToken)`: the token's id and secret handed to `auth`. */
  function AuthenticateSpec(db: Db, f: Faults, h: Hash, period: int, cookieToken: string, secret: Bytes, now: Timestamp): (r: (Db, Result<AuthReply, Error>))
  {
    match DecodeToken(cookieToken)
    case Err(e) => (db, Err(e))
    case Ok(parts) => AuthSpec(db, f, h, period, parts.id, parts.token, secret, now)
  }

  /** `confirmEmail(cookie, emailToken)` once `registry.confirm` has
      reported `confirmation`: no token when unconfirmed; from a device with
      no cookie, a new login session that gets the email; from another
      device's cookie, that session gets the email; from the same device,
      nothing more to do. `manualConfirmEmail` is `confirmEmailProved`. */
  function ConfirmEmailSpec(db: Db, f: Faults, h: Hash, period: int, cookie: Option<string>,
                            confirmation: Result<Confirmation, Error>, idSeed: Bytes, secret: Bytes,
                            now: Timestamp): (r: (Db, Result<ConfirmReply, Error>))
  {
    match confirmation
    case Err(e) => (db, Err(e))
    case Ok(Unconfirmed(s)) => (db, Ok(ConfirmReply(None, s)))
    case Ok(Confirmed(s)) =>
      match cookie
      case None =>
        var (db1, login) := ApiLoginSpec(db, f, h, period, idSeed, secret, now);
        if login.Err? then (db1, Err(login.error))
        else
          var (db2, c) := ConfirmEmailProvedSpec(db1, f, login.value.session.id, Email(s), now);
          if c.Err? then (db2, Err(c.error))
          else (db2, Ok(ConfirmReply(Some(login.value.token), Some(login.value.session))))
      case Some(token) =>
        match DecodeToken(token)
        case Err(e) => (db, Err(e))
        case Ok(parts) =>
          if s.id != parts.id then
            var (db1, c) := ConfirmEmailProvedSpec(db, f, parts.id, Email(s), now);
            if c.Err? then (db1, Err(c.error)) else (db1, Ok(ConfirmReply(Some(token), Some(s))))
          else (db, Ok(ConfirmReply(Some(token), Some(s))))
  }

  /** A token from the Api's `login` authenticates its session at any later
      time. */
  lemma LoginThenAuthenticate(db: Db, f: Faults, h: Hash, period: int, idSeed: Bytes, secret: Bytes, now: Timestamp,
                              secret2: Bytes, now2: Timestamp)
    requires RegistryProperties.Valid(db)
    requires ApiLoginSpec(db, f, h, period, idSeed, secret, now).1.Ok?
    requires Session.SessionId(h, idSeed) !in f.unreadableSessions
    ensures var (db1, m) := ApiLoginSpec(db, f, h, period, idSeed, secret, now);
      var r := AuthenticateSpec(db1, f, h, period, m.value.token, secret2, now2);
      r.1.Ok? && r.1.value.authenticated
  {
    var s := LoginSession(h, idSeed, secret, period, now);
    RegistryProperties.LoginThenAuth(db, f, h, idSeed, secret, period, now, secret2, now2);
    AuthenticateLoginToken(LoginSpec(db, f, h, idSeed, secret, period, now).0, f, h, period, idSeed, secret, now, secret2, now2);
  }

  /** A stored session that never expires and holds the digest a login
      secret gave it is authenticated by the Api token built on that
      secret, whenever it is presented. */
  lemma AuthenticateLoginToken(db: Db, f: Faults, h: Hash, period: int, idSeed: Bytes, secret: Bytes, now: Timestamp,
                               secret2: Bytes, now2: Timestamp)
    requires RegistryProperties.Valid(db)
    requires var id := Session.SessionId(h, idSeed);
      id in db.sessions && id !in f.unreadableSessions && id !in f.unwritableSessions
      && db.sessions[id].token == LoginSession(h, idSeed, secret, period, now).token && db.sessions[id].expire.None?
    ensures var a := AuthenticateSpec(db, f, h, period, EncodeToken(Session.SessionId(h, idSeed), secret, None), secret2, now2);
      a.1.Ok? && a.1.value.authenticated
  {
    var id := Session.SessionId(h, idSeed);
    SessionTokenRoundTrip(h, idSeed, secret, None);
    var token := ReplaceAll(Base64.Encode(secret), '=', "");
    WithTokenAccepts(NewSessionRecord(h, idSeed, now).(renew := Some(now + period)), h, secret, token);
    assert Accepts(db.sessions[id], token, h);
    RegistryProperties.AuthLive(db, f, h, period, id, token, secret2, now2);
  }

  /** An unconfirmed email token yields the null token and changes nothing. */
  lemma ConfirmUnconfirmed(db: Db, f: Faults, h: Hash, period: int, cookie: Option<string>, s: Option<SessionRecord>,
                           idSeed: Bytes, secret: Bytes, now: Timestamp)
    ensures ConfirmEmailSpec(db, f, h, period, cookie, Ok(Unconfirmed(s)), idSeed, secret, now) == (db, Ok(ConfirmReply(None, s)))
  {
  }

  /** Confirming from a device with no cookie mints a new login session,
      returns its token, and leaves that session verified for the email
      and listed last in the email's account; the token authenticates it. */
  lemma ConfirmFromUnknownDevice(db: Db, f: Faults, h: Hash, period: int, s: SessionRecord, idSeed: Bytes, secret: Bytes,
                                 now: Timestamp, secret2: Bytes, now2: Timestamp)
    requires RegistryProperties.Valid(db)
    requires ConfirmEmailSpec(db, f, h, period, None, Ok(Confirmed(s)), idSeed, secret, now).1.Ok?
    ensures var r := ConfirmEmailSpec(db, f, h, period, None, Ok(Confirmed(s)), idSeed, secret, now);
      var id := Session.SessionId(h, idSeed);
      var k := EmailKey(Email(s));
      && RegistryProperties.Valid(r.0)
      && r.1.value.token == Some(EncodeToken(id, secret, None))
      && id in r.0.sessions && EmailVerified(r.0.sessions[id]) && Email(r.0.sessions[id]) == Email(s)
      && k in r.0.accounts && |r.0.accounts[k].sessionIds| > 0
      && r.0.accounts[k].sessionIds[|r.0.accounts[k].sessionIds| - 1] == id
      && (id !in f.unreadableSessions ==>
            var a := AuthenticateSpec(r.0, f, h, period, EncodeToken(id, secret, None), secret2, now2);
            a.1.Ok? && a.1.value.authenticated)
  {
    var s1 := LoginSession(h, idSeed, secret, period, now);
    var db1 := LoginSpec(db, f, h, idSeed, secret, period, now).0;
    RegistryProperties.LoginThenAuth(db, f, h, idSeed, secret, period, now, secret2, now2);
    RegistryProperties.ConfirmEmailProvedLinks(db1, f, s1.id, Email(s), now);
    var db2 := ConfirmEmailProvedSpec(db1, f, s1.id, Email(s), now).0;
    ConfirmedSessionProvesAt(db1, s1.id, Email(s), now);
    assert db2.sessions[s1.id] == ConfirmedSession(s1, Email(s), now);
    if s1.id !in f.unreadableSessions {
      AuthenticateLoginToken(db2, f, h, period, idSeed, secret, now, secret2, now2);
    }
  }

  /** Confirming with another device's cookie proves the email on the
      cookie's session and returns the cookie token unchanged. */
  lemma ConfirmFromOtherDevice(db: Db, f: Faults, h: Hash, period: int, s: SessionRecord, cookie: string,
                               idSeed: Bytes, secret: Bytes, now: Timestamp)
    requires RegistryProperties.Valid(db)
    requires DecodeToken(cookie).Ok? && DecodeToken(cookie).value.id != s.id
    requires ConfirmEmailSpec(db, f, h, period, Some(cookie), Ok(Confirmed(s)), idSeed, secret, now).1.Ok?
    ensures var r := ConfirmEmailSpec(db, f, h, period, Some(cookie), Ok(Confirmed(s)), idSeed, secret, now);
      var id := DecodeToken(cookie).value.id;
      && RegistryProperties.Valid(r.0)
      && r.1.value == ConfirmReply(Some(cookie), Some(s))
      && id in db.sessions && id in r.0.sessions && EmailVerified(r.0.sessions[id])
      && (!EmailVerified(db.sessions[id]) ==> Email(r.0.sessions[id]) == Email(s))
      && EmailKey(Email(s)) in r.0.accounts
  {
    var id := DecodeToken(cookie).value.id;
    RegistryProperties.ConfirmEmailProvedLinks(db, f, id, Email(s), now);
    ConfirmedSessionProvesAt(db, id, Email(s), now);
  }

  lemma ConfirmedSessionProvesAt(db: Db, id: string, email: string, now: Timestamp)
    requires id in db.sessions
    ensures var c := ConfirmedSession(db.sessions[id], email, now);
      EmailVerified(c) && (!EmailVerified(db.sessions[id]) ==> Email(c) == email)
      && c.token == db.sessions[id].token && c.hash == db.sessions[id].hash && c.expire == db.sessions[id].expire
      && c.renew == db.sessions[id].renew && c.id == db.sessions[id].id
  {
    var s := db.sessions[id];
    var c := ConfirmedSession(s, email, now);
    RegistryProperties.ConfirmedSessionProves(s, email, now);
    assert c == s.(claims := c.claims, lastAuth := now);
    assert c.token == s.token && c.hash == s.hash && c.id == s.id;
  }

  /** Confirming from the device that asked for the proof returns its cookie
      token and changes nothing. */
  lemma ConfirmFromSameDevice(db: Db, f: Faults, h: Hash, period: int, s: SessionRecord, cookie: string,
                              idSeed: Bytes, secret: Bytes, now: Timestamp)
    requires DecodeToken(cookie).Ok? && DecodeToken(cookie).value.id == s.id
    ensures ConfirmEmailSpec(db, f, h, period, Some(cookie), Ok(Confirmed(s)), idSeed, secret, now)
              == (db, Ok(ConfirmReply(Some(cookie), Some(s))))
  {
  }

  /** The Api object over a registry. */
  class Api {
    const registry: Registry.Registry

    constructor (registry: Registry.Registry)
      ensures this.registry == registry
    {
      this.registry := registry;
    }

    /** `login()`. */
    method Login(idSeed: Bytes, rand256: Bytes, now: Timestamp) returns (r: Result<Minted, Error>)
      requires |idSeed| == 32 && |rand256| == 32
      modifies registry.db
      ensures (registry.db.Contents(), r)
                == ApiLoginSpec(old(registry.db.Contents()), registry.db.faults, registry.sha256, registry.renewalPeriod, idSeed, rand256, now)
    {
      var err, secret, session := registry.Login(idSeed, rand256, now);
      if err.Fail? {
        return Err(err.error);
      }
      r := Ok(Minted(EncodeToken(session.id, secret, None), session));
    }

    /** `confirmEmail(cookie, emailToken)`, given what `registry.confirm`
        reported for the email token. */
    method ConfirmEmail(cookie: Option<string>, confirmation: Result<Confirmation, Error>,
                        idSeed: Bytes, rand256: Bytes, now: Timestamp) returns (r: Result<ConfirmReply, Error>)
      requires |idSeed| == 32 && |rand256| == 32
      modifies registry.db
      ensures (registry.db.Contents(), r)
                == ConfirmEmailSpec(old(registry.db.Contents()), registry.db.faults, registry.sha256, registry.renewalPeriod,
                                    cookie, confirmation, idSeed, rand256, now)
    {
      if confirmation.Err? {
        return Err(confirmation.error);
      }
      if confirmation.value.Unconfirmed? {
        return Ok(ConfirmReply(None, confirmation.value.session));
      }
      var session := confirmation.value.confirmed;
      if cookie.None? {
        var login := Login(idSeed, rand256, now);
        if login.Err? {
          return Err(login.error);
        }
        var confirmed := registry.ConfirmEmailProved(login.value.session.id, Email(session), now);
        if confirmed.Err? {
          return Err(confirmed.error);
        }
        return Ok(ConfirmReply(Some(login.value.token), Some(login.value.session)));
      }
      var elements := DecodeToken(cookie.value);
      if elements.Err? {
        return Err(elements.error);
      }
      if session.id != elements.value.id {
        var confirmed := registry.ConfirmEmailProved(elements.value.id, Email(session), now);
        if confirmed.Err? {
          return Err(confirmed.error);
        }
      }
      r := Ok(ConfirmReply(cookie, Some(session)));
    }

    /** `authenticate(cookieToken)`. */
    method Authenticate(cookieToken: string, rand256: Bytes, now: Timestamp) returns (r: Result<AuthReply, Error>)
      requires |rand256| == 32
      modifies registry.db
      ensures (registry.db.Contents(), r)
                == AuthenticateSpec(old(registry.db.Contents()), registry.db.faults, registry.sha256, registry.renewalPeriod,
                                    cookieToken, rand256, now)
    {
      var elements := DecodeToken(cookieToken);
      if elements.Err? {
        return Err(elements.error);
      }
      r := registry.Auth(elements.value.id, elements.value.token, rand256, now);
    }
  }
}
