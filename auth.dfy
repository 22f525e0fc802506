/** The login state of a browser session (services/auth.py:64-104) and the
    allowed-domain test applied to a verified Google identity
    (services/auth.py:17, 43-62).

    `st.session_state.auth_state` is a dictionary with three entries that
    `check_auth` and `login` overwrite in place and `logout` replaces by a
    new one; it is modelled by a class `AuthState` held in the slot of an
    `AuthStore`. `datetime.now()` is an injected clock reading in
    microseconds, the resolution of `datetime`. */
module Auth {
  import opened Common

  /** The dictionary `verify_oauth_token` returns. */
  datatype UserInfo = UserInfo(email: string, name: string, picture: Option<string>)

  /** `timedelta(minutes=60)`, in microseconds. */
  const TimeoutMicros: int := 60 * 60 * 1000000

  /** The value of `auth_state`. */
  datatype AuthRecord = AuthRecord(isAuthenticated: bool, user: Option<UserInfo>, lastActivity: Option<int>)

  /** `{'is_authenticated': False, 'user': None, 'last_activity': None}`. */
  const InitialRecord: AuthRecord := AuthRecord(false, None, None)

  /** An authenticated state knows its user and its last activity. */
  predicate Consistent(s: AuthRecord) {
    s.isAuthenticated ==> s.user.Some? && s.lastActivity.Some?
  }

  // ---------------------------------------------------------------------
  // The state machine on values
  // ---------------------------------------------------------------------

  /** More than 60 minutes have passed since `last`; exactly 60 have not. */
  predicate Expired(last: int, now: int) {
    now - last > TimeoutMicros
  }

  datatype Check = Check(ok: bool, after: AuthRecord)

  /** `check_auth` on the state `s` at time `now`. The timeout is only tested
      when a last activity is recorded. */
  function CheckAuthSpec(s: AuthRecord, now: int): (c: Check)
    ensures c.ok <==> s.isAuthenticated && !(s.lastActivity.Some? && Expired(s.lastActivity.value, now))
    ensures !s.isAuthenticated ==> c.after == s
    ensures s.isAuthenticated && !c.ok ==> c.after == InitialRecord
    ensures c.ok ==> c.after == AuthRecord(true, s.user, Some(now))
  {
    if !s.isAuthenticated then Check(false, s)
    else if s.lastActivity.Some? && Expired(s.lastActivity.value, now) then Check(false, InitialRecord)
    else Check(true, s.(lastActivity := Some(now)))
  }

  /** `login(user_info)` at time `now`. */
  function LoginSpec(s: AuthRecord, user: UserInfo, now: int): (r: AuthRecord)
    ensures r.isAuthenticated && r.user == Some(user) && r.lastActivity == Some(now)
  {
    s.(isAuthenticated := true, user := Some(user), lastActivity := Some(now))
  }

  /** Every operation keeps an authenticated state consistent. */
  lemma OperationsKeepConsistent(s: AuthRecord, user: UserInfo, now: int)
    requires Consistent(s)
    ensures Consistent(CheckAuthSpec(s, now).after)
    ensures Consistent(LoginSpec(s, user, now))
    ensures Consistent(InitialRecord)
  {
  }

  /** Exactly 60 minutes after the last activity the session is still valid,
      and the check moves the last activity to now. */
  lemma SixtyMinutesStillValid(user: UserInfo, t: int)
    ensures CheckAuthSpec(AuthRecord(true, Some(user), Some(t)), t + TimeoutMicros)
         == Check(true, AuthRecord(true, Some(user), Some(t + TimeoutMicros)))
  {
  }

  /** One microsecond later it has expired and the state is reset. */
  lemma JustOverSixtyMinutesExpires(user: UserInfo, t: int)
    ensures CheckAuthSpec(AuthRecord(true, Some(user), Some(t)), t + TimeoutMicros + 1) == Check(false, InitialRecord)
  {
  }

  /** The timeout is an idle timeout: a session whose every check comes
      within 60 minutes of the previous one stays valid however long it lasts. */
  lemma {:induction false} ActiveSessionStaysValid(s: AuthRecord, times: seq<int>)
    requires s.isAuthenticated && s.lastActivity.Some?
    requires |times| > 0 ==> times[0] - s.lastActivity.value <= TimeoutMicros
    requires forall k :: 0 < k < |times| ==> times[k] - times[k - 1] <= TimeoutMicros
    ensures CheckAll(s, times).ok
    ensures |times| > 0 ==> CheckAll(s, times).after == s.(lastActivity := Some(times[|times| - 1]))
    decreases |times|
  {
    if |times| > 0 {
      var c := CheckAuthSpec(s, times[0]);
      assert c.ok;
      ActiveSessionStaysValid(c.after, times[1..]);
      if |times| > 1 {
        assert times[1..][|times[1..]| - 1] == times[|times| - 1];
      }
    }
  }

  /** `check_auth` called at each of `times` in turn; `ok` is whether every
      call returned true. */
  function CheckAll(s: AuthRecord, times: seq<int>): Check
    decreases |times|
  {
    if |times| == 0 then Check(true, s)
    else
      var c := CheckAuthSpec(s, times[0]);
      var rest := CheckAll(c.after, times[1..]);
      Check(c.ok && rest.ok, rest.after)
  }

  /** Once the state is reset, every later check fails until a new login. */
  lemma {:induction false} ResetStaysOut(times: seq<int>)
    ensures !CheckAll(InitialRecord, times).ok || |times| == 0
    ensures CheckAll(InitialRecord, times).after == InitialRecord
    decreases |times|
  {
    if |times| > 0 {
      ResetStaysOut(times[1..]);
    }
  }

  /** Logging in again only refreshes the user and the time. */
  lemma LoginAgain(s: AuthRecord, u1: UserInfo, t1: int, u2: UserInfo, t2: int)
    ensures LoginSpec(LoginSpec(s, u1, t1), u2, t2) == LoginSpec(s, u2, t2)
  {
  }

  // ---------------------------------------------------------------------
  // The stored state
  // ---------------------------------------------------------------------

  /** The dictionary `st.session_state.auth_state`. */
  class AuthState {
    var isAuthenticated: bool
    var user: Option<UserInfo>
    var lastActivity: Option<int>

    function Record(): AuthRecord
      reads this
    {
      AuthRecord(isAuthenticated, user, lastActivity)
    }

    /** A new dictionary holding the initial state. */
    constructor ()
      ensures Record() == InitialRecord
    {
      isAuthenticated, user, lastActivity := false, None, None;
    }
  }

  /** The `auth_state` key of `st.session_state`; `null` while it is missing. */
  class AuthStore {
    var authState: AuthState?

    constructor ()
      ensures authState == null
    {
      authState := null;
    }

    ghost predicate Valid()
      reads this, authState
    {
      authState != null ==> Consistent(authState.Record())
    }

    /** `init_auth_state`: a new initial state only when none exists. */
    method InitAuthState()
      modifies this
      ensures authState != null
      ensures old(authState) != null ==> authState == old(authState)
      ensures old(authState) == null ==> fresh(authState) && authState.Record() == InitialRecord
      ensures old(Valid()) ==> Valid()
    {
      if authState == null {
        authState := new AuthState();
      }
    }

    /** `logout`: the state is replaced by a new initial one, whatever it was. */
    method Logout()
      modifies this
      ensures authState != null && fresh(authState) && authState.Record() == InitialRecord
      ensures Valid()
    {
      authState := new AuthState();
    }

    /** `login(user_info)`: the existing dictionary is overwritten in place. */
    method Login(user: UserInfo, now: int)
      requires authState != null
      modifies authState
      ensures authState.Record() == LoginSpec(old(authState.Record()), user, now)
      ensures Valid()
    {
      authState.isAuthenticated := true;
      authState.user := Some(user);
      authState.lastActivity := Some(now);
    }

    /** `check_auth` at time `now`: the state is created if missing, then
        checked; an expired session is logged out. */
    method CheckAuth(now: int) returns (ok: bool)
      modifies this, authState
      ensures authState != null
      ensures var before := if old(authState) == null then InitialRecord else old(authState.Record());
        ok == CheckAuthSpec(before, now).ok && authState.Record() == CheckAuthSpec(before, now).after
      ensures old(Valid()) ==> Valid()
    {
      InitAuthState();
      if !authState.isAuthenticated {
        return false;
      }
      if authState.lastActivity.Some? {
        var timeout := now - authState.lastActivity.value;
        if timeout > TimeoutMicros {
          Logout();
          return false;
        }
      }
      authState.lastActivity := Some(now);
      ok := true;
    }
  }

  // ---------------------------------------------------------------------
  // The allowed-domain test (services/auth.py:17, 50-58)
  // ---------------------------------------------------------------------

  /** `os.getenv('ALLOWED_DOMAINS', '').split(',')`. */
  function AllowedDomains(config: string): (ds: seq<string>)
    ensures |ds| >= 1
    ensures Join(ds, ',') == config
    ensures forall k :: 0 <= k < |ds| ==> ',' !in ds[k]
  {
    SplitJoin(config, ',');
    SplitPartsFree(config, ',');
    Split(config, ',')
  }

  /** `self.allowed_domains and self.allowed_domains[0]`. */
  predicate Restricted(allowed: seq<string>) {
    |allowed| > 0 && allowed[0] != ""
  }

  /** The claims of a verified ID token. */
  type IdInfo = map<string, string>

  /** `verify_oauth_token` after the token check: `None` when the check
      raised, the domain is not allowed, or a lookup raised (a missing
      `email`, an address without `@`); otherwise the user's identity, the
      name defaulting to "User". */
  function VerifyIdentity(idinfo: Option<IdInfo>, allowed: seq<string>): (r: Option<UserInfo>)
    ensures r.Some? <==>
      && idinfo.Some? && "email" in idinfo.value
      && (Restricted(allowed) ==>
            var parts := Split(idinfo.value["email"], '@');
            |parts| >= 2 && parts[1] in allowed)
    ensures r.Some? ==>
      && r.value.email == idinfo.value["email"]
      && r.value.name == (if "name" in idinfo.value then idinfo.value["name"] else "User")
      && r.value.picture == (if "picture" in idinfo.value then Some(idinfo.value["picture"]) else None)
  {
    if idinfo.None? || "email" !in idinfo.value then None
    else
      var info := idinfo.value;
      var email := info["email"];
      if Restricted(allowed) && (|Split(email, '@')| < 2 || Split(email, '@')[1] !in allowed) then None
      else
        Some(UserInfo(email,
                      if "name" in info then info["name"] else "User",
                      if "picture" in info then Some(info["picture"]) else None))
  }

  /** The domain that `email.split('@')[1]` reads from an address
      `local@domain`, whatever follows a further `@`. */
  lemma DomainOfAddress(local: string, domain: string, tail: string)
    requires '@' !in local && '@' !in domain
    requires tail == "" || tail[0] == '@'
    ensures var parts := Split(local + "@" + domain + tail, '@');
      |parts| >= 2 && parts[1] == domain
  {
    var rest := domain + tail;
    assert "@" == ['@'];
    AppendAssoc(local + "@", domain, tail);
    SplitAtFirst(local, rest, '@');
    if tail == "" {
      AppendEmpty(domain, tail);
      SplitNoSeparator(domain, '@');
    } else {
      assert tail == ['@'] + tail[1..];
      AppendAssoc(domain, ['@'], tail[1..]);
      SplitAtFirst(domain, tail[1..], '@');
    }
  }

  /** With an allowlist, `local@domain` is accepted exactly when `domain`
      is one of the listed entries, compared as written. */
  lemma AllowlistDecides(info: IdInfo, allowed: seq<string>, local: string, domain: string)
    requires Restricted(allowed)
    requires '@' !in local && '@' !in domain
    requires "email" in info && info["email"] == local + "@" + domain
    ensures VerifyIdentity(Some(info), allowed).Some? <==> domain in allowed
  {
    DomainOfAddress(local, domain, "");
    assert local + "@" + domain + "" == local + "@" + domain;
  }

  /** With an allowlist, an address without `@` is refused. */
  lemma AllowlistNeedsAt(info: IdInfo, allowed: seq<string>)
    requires Restricted(allowed)
    requires "email" in info && '@' !in info["email"]
    ensures VerifyIdentity(Some(info), allowed).None?
  {
    SplitNoSeparator(info["email"], '@');
  }

  /** An unset or empty `ALLOWED_DOMAINS` gives `['']`, which restricts
      nothing: every verified identity with an email is accepted. */
  lemma EmptyConfigAcceptsAll(info: IdInfo)
    requires "email" in info
    ensures AllowedDomains("") == [""]
    ensures VerifyIdentity(Some(info), AllowedDomains("")).Some?
  {
  }

  /** A configured list restricts when its first entry is not empty. */
  lemma ConfiguredListRestricts(first: string, rest: string)
    requires first != "" && ',' !in first
    ensures Restricted(AllowedDomains(first + "," + rest))
    ensures AllowedDomains(first + "," + rest)[0] == first
  {
    assert first + "," + rest == first + [','] + rest;
    SplitAtFirst(first, rest, ',');
  }
}
