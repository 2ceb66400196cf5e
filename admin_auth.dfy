/** The admin panel's authentication state: a table of login attempts per
    client address with a temporary lockout, and a table of session tokens
    that stay valid for an hour. The clock is a number of seconds passed in
    by the caller, and a new session's token is supplied by the caller. */
module AdminAuth {
  import opened Wrappers
  import opened Strings

  const MaxLoginAttempts: nat := 5
  const LockoutSecs: nat := 300
  const SessionSecs: nat := 3600

  /** The password used when `ADMIN_PASSWORD` is not set. */
  function AdminPassword(env: Option<string>): (r: string)
    ensures env.None? ==> r == "admin123"
    ensures env.Some? ==> r == env.value
  {
    env.GetOr("admin123")
  }

  datatype Session = Session(createdAt: nat, lastActivity: nat)

  datatype Attempts = Attempts(attempts: nat, firstAttempt: nat, lockedUntil: Option<nat>)

  /** What a login submission answers: the lockout page with the seconds
      left, a new session, or the failure page. */
  datatype LoginOutcome = Locked(remaining: nat) | LoggedIn(token: string) | Rejected

  /** `Instant::duration_since`, which is zero for a later instant. */
  function Elapsed(now: nat, since: nat): (r: nat)
    ensures now >= since ==> r + since == now
    ensures now < since ==> r == 0
  {
    if now >= since then now - since else 0
  }

  // ---------------------------------------------------------------------
  // Client address
  // ---------------------------------------------------------------------

  /** `get_client_ip`: the text before the first ',' of `X-Forwarded-For`,
      or "unknown". `forwardedFor` is None when the header is missing or is
      not visible ASCII. */
  function ClientIp(forwardedFor: Option<string>): (r: string)
    ensures forwardedFor.None? ==> r == "unknown"
    ensures forwardedFor.Some? ==> ',' !in r && StartsWith(forwardedFor.value, r)
    ensures forwardedFor.Some? && |r| < |forwardedFor.value| ==> forwardedFor.value[|r|] == ','
  {
    match forwardedFor
    case None => "unknown"
    case Some(h) =>
      FieldsShape(h, Exactly(','));
      var first := Split(h, ',')[0];
      assert forall j :: 0 <= j < |first| ==> first[j] != ',';
      first
  }

  /** A header listing several addresses is keyed by the first. */
  lemma ClientIpFirst(a: string, b: string)
    requires ',' !in a
    ensures ClientIp(Some(a + "," + b)) == a
  {
    var k := Exactly(',');
    assert Clean(a, k);
    FieldsAfterSeparator(a, ',', b, k);
    assert a + "," + b == a + [','] + b;
  }

  // ---------------------------------------------------------------------
  // Login attempts
  // ---------------------------------------------------------------------

  /** The record locks out its address at `now`. */
  predicate IsLocked(a: Attempts, now: nat) {
    a.lockedUntil.Some? && now < a.lockedUntil.value
  }

  /** The record once the submission is let through: an expired lock resets
      the count, and so does a first attempt more than five minutes old. */
  function Refreshed(a: Attempts, now: nat): (r: Attempts)
    requires !IsLocked(a, now)
    ensures r.lockedUntil.None?
    ensures a.lockedUntil.Some? ==> r.attempts == 0
    ensures Elapsed(now, a.firstAttempt) > LockoutSecs ==> r == Attempts(0, now, None)
    ensures a.lockedUntil.None? && Elapsed(now, a.firstAttempt) <= LockoutSecs ==> r == a
    ensures Elapsed(now, a.firstAttempt) <= LockoutSecs ==> r.firstAttempt == a.firstAttempt
  {
    var b := if a.lockedUntil.Some? then a.(attempts := 0, lockedUntil := None) else a;
    if Elapsed(now, b.firstAttempt) > LockoutSecs then b.(attempts := 0, firstAttempt := now) else b
  }

  /** A failed attempt: counted, and the address locked for five minutes
      from the fifth one on. */
  function Failed(a: Option<Attempts>, now: nat): (r: Attempts)
    ensures a.None? ==> r == Attempts(1, now, None)
    ensures a.Some? ==> r.attempts == a.value.attempts + 1 && r.firstAttempt == a.value.firstAttempt
    ensures r.attempts >= MaxLoginAttempts ==> r.lockedUntil == Some(now + LockoutSecs)
    ensures a.Some? && r.attempts < MaxLoginAttempts ==> r.lockedUntil == a.value.lockedUntil
  {
    var d := a.GetOr(Attempts(0, now, None));
    var n := d.attempts + 1;
    d.(attempts := n, lockedUntil := if n >= MaxLoginAttempts then Some(now + LockoutSecs) else d.lockedUntil)
  }

  /** What a login submission does to both tables. */
  datatype LoginResult = LoginResult(outcome: LoginOutcome, attempts: map<string, Attempts>, sessions: map<string, Session>)

  /** `admin_login_submit` for a submission from `ip` at `now`, with
      `passwordOk` telling whether the password matched. */
  function Login(attempts: map<string, Attempts>, sessions: map<string, Session>, ip: string,
                 passwordOk: bool, token: string, now: nat): LoginResult
  {
    if ip in attempts && IsLocked(attempts[ip], now) then
      LoginResult(Locked(attempts[ip].lockedUntil.value - now), attempts, sessions)
    else
      var checked := if ip in attempts then attempts[ip := Refreshed(attempts[ip], now)] else attempts;
      if passwordOk then
        LoginResult(LoggedIn(token), checked - {ip}, sessions[token := Session(now, now)])
      else
        LoginResult(Rejected, checked[ip := Failed(if ip in checked then Some(checked[ip]) else None, now)], sessions)
  }

  /** While locked, every submission is answered with the lockout page,
      whatever the password, and nothing changes. */
  lemma LockedRejects(attempts: map<string, Attempts>, sessions: map<string, Session>, ip: string,
                      passwordOk: bool, token: string, now: nat)
    requires ip in attempts && IsLocked(attempts[ip], now)
    ensures var r := Login(attempts, sessions, ip, passwordOk, token, now);
      r.outcome.Locked? && r.outcome.remaining > 0 && now + r.outcome.remaining == attempts[ip].lockedUntil.value
      && r.attempts == attempts && r.sessions == sessions
  {
  }

  /** The right password, when not locked out, clears the address's record
      and opens a session created now. */
  lemma CorrectPasswordLogsIn(attempts: map<string, Attempts>, sessions: map<string, Session>, ip: string,
                              token: string, now: nat)
    requires !(ip in attempts && IsLocked(attempts[ip], now))
    ensures var r := Login(attempts, sessions, ip, true, token, now);
      r.outcome == LoggedIn(token) && ip !in r.attempts
      && r.sessions == sessions[token := Session(now, now)]
      && forall other :: other != ip ==> (other in r.attempts <==> other in attempts)
  {
  }

  /** A wrong password, when not locked out, counts one more attempt after
      the resets, and locks the address once five have been counted. */
  lemma WrongPasswordCounted(attempts: map<string, Attempts>, sessions: map<string, Session>, ip: string,
                             token: string, now: nat)
    requires !(ip in attempts && IsLocked(attempts[ip], now))
    ensures var r := Login(attempts, sessions, ip, false, token, now);
      var before := if ip in attempts then Refreshed(attempts[ip], now).attempts else 0;
      r.outcome == Rejected && r.sessions == sessions && ip in r.attempts
      && r.attempts[ip].attempts == before + 1
      && (r.attempts[ip].lockedUntil.Some? <==> before + 1 >= MaxLoginAttempts)
      && (before + 1 >= MaxLoginAttempts ==> r.attempts[ip].lockedUntil == Some(now + LockoutSecs))
  {
  }

  /** A submission only touches its own address's record. */
  lemma OtherAddressesUntouched(attempts: map<string, Attempts>, sessions: map<string, Session>, ip: string,
                                passwordOk: bool, token: string, now: nat, other: string)
    requires other != ip
    ensures var r := Login(attempts, sessions, ip, passwordOk, token, now);
      (other in r.attempts <==> other in attempts) && (other in attempts ==> r.attempts[other] == attempts[other])
  {
  }

  /** Every record has at most five attempts, and exactly five while it
      carries a lock; so the `u32` counter never overflows. */
  predicate AttemptsBounded(attempts: map<string, Attempts>) {
    forall ip :: ip in attempts ==>
      attempts[ip].attempts <= MaxLoginAttempts
      && (attempts[ip].lockedUntil.Some? <==> attempts[ip].attempts == MaxLoginAttempts)
  }

  lemma LoginKeepsBounded(attempts: map<string, Attempts>, sessions: map<string, Session>, ip: string,
                          passwordOk: bool, token: string, now: nat)
    requires AttemptsBounded(attempts)
    ensures AttemptsBounded(Login(attempts, sessions, ip, passwordOk, token, now).attempts)
  {
    var r := Login(attempts, sessions, ip, passwordOk, token, now);
    if !(ip in attempts && IsLocked(attempts[ip], now)) && !passwordOk && ip in attempts {
      var a := attempts[ip];
      var b := Refreshed(a, now);
      assert b.attempts < MaxLoginAttempts;
      assert r.attempts[ip] == Failed(Some(b), now);
    }
  }

  /** `n` wrong passwords in a row from `ip` at `now`. */
  function Failures(attempts: map<string, Attempts>, sessions: map<string, Session>, ip: string,
                    token: string, now: nat, n: nat): map<string, Attempts>
  {
    if n == 0 then attempts
    else Login(Failures(attempts, sessions, ip, token, now, n - 1), sessions, ip, false, token, now).attempts
  }

  /** Five wrong passwords from a new address lock it for five minutes: even
      the right password is then refused until the lock runs out. */
  lemma FiveFailuresLock(attempts: map<string, Attempts>, sessions: map<string, Session>, ip: string,
                         token: string, now: nat, later: nat)
    requires ip !in attempts && later < now + LockoutSecs
    ensures var locked := Failures(attempts, sessions, ip, token, now, 5);
      ip in locked && locked[ip] == Attempts(5, now, Some(now + LockoutSecs))
      && Login(locked, sessions, ip, true, token, later).outcome.Locked?
  {
    var f0 := Failures(attempts, sessions, ip, token, now, 0);
    FailAgain(f0, sessions, ip, token, now, 0);
    var f1 := Failures(attempts, sessions, ip, token, now, 1);
    FailAgain(f1, sessions, ip, token, now, 1);
    var f2 := Failures(attempts, sessions, ip, token, now, 2);
    FailAgain(f2, sessions, ip, token, now, 2);
    var f3 := Failures(attempts, sessions, ip, token, now, 3);
    FailAgain(f3, sessions, ip, token, now, 3);
    var f4 := Failures(attempts, sessions, ip, token, now, 4);
    FailAgain(f4, sessions, ip, token, now, 4);
    var f5 := Failures(attempts, sessions, ip, token, now, 5);
    assert f5 == Login(f4, sessions, ip, false, token, now).attempts;
  }

  /** One more wrong password within the window counts one more attempt,
      and the fifth sets the lock. */
  lemma FailAgain(attempts: map<string, Attempts>, sessions: map<string, Session>, ip: string,
                  token: string, now: nat, k: nat)
    requires k < MaxLoginAttempts
    requires if k == 0 then ip !in attempts else ip in attempts && attempts[ip] == Attempts(k, now, None)
    ensures var r := Login(attempts, sessions, ip, false, token, now).attempts;
      ip in r && r[ip] == Attempts(k + 1, now, if k + 1 >= MaxLoginAttempts then Some(now + LockoutSecs) else None)
  {
  }

  // ---------------------------------------------------------------------
  // Sessions
  // ---------------------------------------------------------------------

  /** The `Cookie` header's `;`-separated parts, trimmed. */
  function CookieParts(cookie: string): seq<string> {
    var parts := Split(cookie, ';');
    seq(|parts|, i requires 0 <= i < |parts| => Trim(parts[i], Whitespace))
  }

  /** The token a part names, if it starts with `session=`. */
  function SessionToken(part: string): (r: Option<string>)
    ensures r.Some? <==> StartsWith(part, "session=")
    ensures r.Some? ==> part == "session=" + r.value
  {
    if StartsWith(part, "session=") then Some(part[8..]) else None
  }

  /** The token a part names, as a set of at most one. */
  function TokenOf(part: string): set<string> {
    match SessionToken(part)
    case None => {}
    case Some(t) => {t}
  }

  /** The tokens named by some of `parts`. */
  function TokensIn(parts: seq<string>): set<string>
    decreases |parts|
  {
    if parts == [] then {} else TokensIn(parts[..|parts| - 1]) + TokenOf(parts[|parts| - 1])
  }

  /** A token is named exactly when some part names it. */
  lemma {:induction false} TokensInMembers(parts: seq<string>, t: string)
    ensures t in TokensIn(parts) <==> exists i :: 0 <= i < |parts| && SessionToken(parts[i]) == Some(t)
    decreases |parts|
  {
    if parts != [] {
      var n := |parts| - 1;
      var init := parts[..n];
      TokensInMembers(init, t);
      assert forall i :: 0 <= i < n ==> init[i] == parts[i];
    }
  }

  /** One more part adds the token it names. */
  lemma TokensStep(parts: seq<string>, i: int)
    requires 0 <= i < |parts|
    ensures TokensIn(parts[..i + 1]) == TokensIn(parts[..i]) + TokenOf(parts[i])
  {
    assert parts[..i + 1][..i] == parts[..i];
  }

  /** Removing two sets of keys one after the other removes their union. */
  lemma RemoveBoth(m: map<string, Session>, a: set<string>, b: set<string>)
    ensures (m - a) - b == m - (a + b)
  {
  }

  /** The tokens a request's cookies name; None is a missing header or one
      that is not visible ASCII. */
  function CookieTokens(cookie: Option<string>): set<string> {
    match cookie
    case None => {}
    case Some(c) => TokensIn(CookieParts(c))
  }

  /** A token that names a session less than an hour old. */
  predicate Live(sessions: map<string, Session>, t: string, now: nat) {
    t in sessions && Elapsed(now, sessions[t].createdAt) < SessionSecs
  }

  /** `is_authenticated`: some cookie names a live session. */
  predicate Authenticated(sessions: map<string, Session>, cookie: Option<string>, now: nat) {
    exists t :: t in CookieTokens(cookie) && Live(sessions, t, now)
  }

  /** Logging out ends every session the request names. */
  lemma LogoutEndsSessions(sessions: map<string, Session>, cookie: Option<string>, now: nat)
    ensures !Authenticated(sessions - CookieTokens(cookie), cookie, now)
  {
  }

  /** A token without ';' or surrounding whitespace, as a UUID is. */
  predicate PlainToken(t: string) {
    ';' !in t && Bare(t, Whitespace)
  }

  lemma SingleCookie(token: string)
    requires PlainToken(token)
    ensures CookieTokens(Some("session=" + token)) == {token}
  {
    var c := "session=" + token;
    SingleCookiePart(token);
    assert c[..8] == "session=";
    assert SessionToken(c) == Some(token);
    var one: seq<string> := [c];
    assert one[..0] == [];
    assert TokensIn(one) == TokenOf(c);
  }

  lemma SingleCookiePart(token: string)
    requires PlainToken(token)
    ensures CookieParts("session=" + token) == ["session=" + token]
  {
    var c := "session=" + token;
    CookieClean(token);
    FieldsOfClean(c, Exactly(';'));
    assert Split(c, ';') == [c];
    CookieBare(token);
    TrimBare(c, Whitespace);
  }

  lemma CookieClean(token: string)
    requires ';' !in token
    ensures Clean("session=" + token, Exactly(';'))
  {
    var c := "session=" + token;
    forall j | 0 <= j < |c| ensures c[j] != ';' {
      if j >= 8 {
        assert c[j] == token[j - 8];
      }
    }
  }

  lemma CookieBare(token: string)
    requires Bare(token, Whitespace)
    ensures Bare("session=" + token, Whitespace)
  {
    var c := "session=" + token;
    assert c[|c| - 1] == (if token == [] then '=' else token[|token| - 1]);
  }

  /** The cookie set after a login authenticates for exactly an hour. */
  lemma SessionLastsAnHour(attempts: map<string, Attempts>, sessions: map<string, Session>, ip: string,
                           token: string, now: nat, later: nat)
    requires !(ip in attempts && IsLocked(attempts[ip], now)) && PlainToken(token) && later >= now
    ensures var r := Login(attempts, sessions, ip, true, token, now);
      Authenticated(r.sessions, Some("session=" + token), later) <==> later < now + SessionSecs
  {
    SingleCookie(token);
  }

  // ---------------------------------------------------------------------
  // The shared state
  // ---------------------------------------------------------------------

  /** The admin panel's tables, updated in place by each request. */
  class AdminState {
    var sessions: map<string, Session>
    var loginAttempts: map<string, Attempts>

    predicate Valid()
      reads this
    {
      AttemptsBounded(loginAttempts)
    }

    /** `AdminState::new`: no sessions and no recorded attempts. */
    constructor ()
      ensures sessions == map[] && loginAttempts == map[]
      ensures Valid()
    {
      sessions := map[];
      loginAttempts := map[];
    }

    /** `is_authenticated`: a pass over the cookie's parts that stops at the
        first live session. */
    method IsAuthenticated(cookie: Option<string>, now: nat) returns (ok: bool)
      ensures ok == Authenticated(sessions, cookie, now)
    {
      if cookie.None? {
        return false;
      }
      ok := AnyLive(CookieParts(cookie.value), now);
    }

    /** The loop of `is_authenticated` over already split parts. */
    method AnyLive(parts: seq<string>, now: nat) returns (ok: bool)
      ensures ok <==> exists t :: t in TokensIn(parts) && Live(sessions, t, now)
    {
      for i := 0 to |parts|
        invariant forall j :: 0 <= j < i && SessionToken(parts[j]).Some? ==> !Live(sessions, SessionToken(parts[j]).value, now)
      {
        var part := parts[i];
        if StartsWith(part, "session=") {
          var token := part[8..];
          if token in sessions && Elapsed(now, sessions[token].createdAt) < SessionSecs {
            assert SessionToken(parts[i]) == Some(token);
            TokensInMembers(parts, token);
            return true;
          }
        }
      }
      forall t | t in TokensIn(parts)
        ensures !Live(sessions, t, now)
      {
        TokensInMembers(parts, t);
      }
      return false;
    }

    /** `admin_login_submit` after the address is read from the request. */
    method LoginSubmit(forwardedFor: Option<string>, password: string, adminPassword: string,
                       token: string, now: nat) returns (outcome: LoginOutcome)
      requires Valid()
      modifies this
      ensures Valid()
      ensures var r := Login(old(loginAttempts), old(sessions), ClientIp(forwardedFor),
                             password == adminPassword, token, now);
        outcome == r.outcome && loginAttempts == r.attempts && sessions == r.sessions
    {
      LoginKeepsBounded(loginAttempts, sessions, ClientIp(forwardedFor), password == adminPassword, token, now);
      var ip := ClientIp(forwardedFor);
      if ip in loginAttempts {
        var data := loginAttempts[ip];
        if data.lockedUntil.Some? {
          if now < data.lockedUntil.value {
            return Locked(data.lockedUntil.value - now);
          }
          data := data.(attempts := 0, lockedUntil := None);
        }
        if Elapsed(now, data.firstAttempt) > LockoutSecs {
          data := data.(attempts := 0, firstAttempt := now);
        }
        loginAttempts := loginAttempts[ip := data];
      }
      if password == adminPassword {
        loginAttempts := loginAttempts - {ip};
        sessions := sessions[token := Session(now, now)];
        outcome := LoggedIn(token);
      } else {
        var data := if ip in loginAttempts then loginAttempts[ip] else Attempts(0, now, None);
        data := data.(attempts := data.attempts + 1);
        if data.attempts >= MaxLoginAttempts {
          data := data.(lockedUntil := Some(now + LockoutSecs));
        }
        loginAttempts := loginAttempts[ip := data];
        outcome := Rejected;
      }
    }

    /** `admin_logout`: every token the cookies name is removed, and nothing
        else. */
    method Logout(cookie: Option<string>)
      modifies this
      ensures sessions == old(sessions) - CookieTokens(cookie)
      ensures loginAttempts == old(loginAttempts)
    {
      if cookie.None? {
        return;
      }
      var parts := CookieParts(cookie.value);
      for i := 0 to |parts|
        invariant sessions == old(sessions) - TokensIn(parts[..i])
        invariant loginAttempts == old(loginAttempts)
      {
        var part := parts[i];
        TokensStep(parts, i);
        RemoveBoth(old(sessions), TokensIn(parts[..i]), TokenOf(part));
        if StartsWith(part, "session=") {
          var token := part[8..];
          sessions := sessions - {token};
        }
      }
      assert parts[..|parts|] == parts;
    }
  }
}
