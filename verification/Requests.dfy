/**
  What one request does to the tables and to the session it carries
  (backend/middleware, backend/handlers, backend/api/session.go). A request is one
  atomic step at one instant. `Out` collects the tables, the session's values and
  every cookie written to the response. Each function follows one handler; what the
  program draws at random, asks the rate limiter or leaves to the order of a map or
  of a query is an argument.
 */
module Requests {
  import opened Common
  import opened Text
  import opened Accounts
  import opened Passwords
  import opened Sessions

  datatype Config = Config(
    localLogin: bool, oidc: bool,
    groupAdmin: string, groupManager: string, groupViewer: string, defaultRole: string, syncRole: bool)

  datatype Env = Env(crypto: Crypto, cfg: Config)

  datatype Out = Out(db: Db, values: Values, saved: seq<Values>)

  /** The tables keep their invariant, and every cookie in play has its origin in the log. */
  ghost predicate Fine(o: Out, now: int) {
    Inv(o.db) && CookieOk(o.values, o.db, now) && forall i | 0 <= i < |o.saved| :: CookieOk(o.saved[i], o.db, now)
  }

  /** One stage of a request: everything stays fine and the tables only grow. */
  ghost predicate Advances(o: Out, r: Out, now: int) {
    Fine(r, now) && Grows(o.db, r.db)
  }

  lemma AdvancesThrough(a: Out, b: Out, c: Out, now: int)
    requires Fine(a, now) && Advances(a, b, now) && Advances(b, c, now)
    ensures Advances(a, c, now)
  {
    GrowsThrough(a.db, b.db, c.db);
  }

  // ---------- the steps handlers are made of ----------

  function Save(o: Out): Out {
    o.(saved := o.saved + [o.values])
  }

  function WithValues(o: Out, v: Values): Out {
    o.(values := v)
  }

  function Write(o: Out, db: Db): Out {
    o.(db := db)
  }

  /** The tables move on; the cookies in play keep their standing. */
  lemma WriteFine(o: Out, db: Db, now: int)
    requires Fine(o, now) && Sound(o.db, db)
    ensures Advances(o, Write(o, db), now) && Advances(o, Save(Write(o, db)), now)
  {
    CookieKept(o.values, o.db, db, now, now);
    forall i | 0 <= i < |o.saved|
      ensures CookieOk(o.saved[i], db, now)
    {
      CookieKept(o.saved[i], o.db, db, now, now);
    }
  }

  lemma SaveFine(o: Out, v: Values, now: int)
    requires Fine(o, now) && CookieOk(v, o.db, now)
    ensures Advances(o, Save(WithValues(o, v)), now) && Advances(o, Save(o), now) && Advances(o, o, now)
  {
  }

  predicate CsrfOk(v: Values, token: string) {
    token != "" && token == v.csrf
  }

  /** Rendering a page: the flashes are popped and saved, and a session without a CSRF token gets one. */
  function Base(o: Out, nonce: string): Out {
    if o.values.csrf == "" then Save(WithValues(Save(o), o.values.(csrf := nonce))) else Save(o)
  }

  lemma BaseFine(o: Out, nonce: string, now: int)
    requires Fine(o, now)
    ensures Advances(o, Base(o, nonce), now)
  {
    SaveFine(o, o.values, now);
    if o.values.csrf == "" {
      SaveFine(Save(o), o.values.(csrf := nonce), now);
    }
  }

  /** A page is rendered and the tables are written. */
  lemma BaseWriteFine(o: Out, nonce: string, db: Db, now: int)
    requires Fine(o, now) && Sound(o.db, db)
    ensures Advances(o, Write(Base(o, nonce), db), now) && Advances(o, Save(Write(Base(o, nonce), db)), now)
  {
    var page := Base(o, nonce);
    BaseFine(o, nonce, now);
    WriteFine(page, db, now);
    AdvancesThrough(o, page, Write(page, db), now);
    AdvancesThrough(o, page, Save(Write(page, db)), now);
  }

  datatype Gated = Gated(out: Out, admitted: bool)

  /** RequireLogin, and the session gate of an API operation that declares a role. */
  function Gate(o: Out, decoded: bool, now: int): (r: Gated)
    ensures r.admitted ==> Accepts(r.out.db, r.out.values, now)
  {
    var verdict := ValidateSession(o.db, decoded, o.values, now, true);
    if verdict.reason != Accepted then Gated(if verdict.clear then Save(WithValues(o, Empty)) else o, false)
    else
      var noted := Write(o, Note(o.db, Slide(o.values.user.value, now, o.values.csrf)));
      Gated(Save(WithValues(noted, verdict.values)), true)
  }

  lemma GateFine(o: Out, decoded: bool, now: int)
    requires Fine(o, now)
    ensures Advances(o, Gate(o, decoded, now).out, now)
  {
    var verdict := ValidateSession(o.db, decoded, o.values, now, true);
    if verdict.reason == Accepted {
      var e := Slide(o.values.user.value, now, o.values.csrf);
      NoteSound(o.db, e);
      WriteFine(o, Note(o.db, e), now);
      SlidIsOk(o.values, Note(o.db, e), verdict.values, now);
      SaveFine(Write(o, Note(o.db, e)), verdict.values, now);
    } else {
      SaveFine(o, Empty, now);
    }
  }

  lemma SlidIsOk(v: Values, db: Db, slid: Values, now: int)
    requires CookieOk(v, db, now) && v.user.Some? && slid == v.(last := Some(Unix(now)))
    requires |db.log| > 0 && db.log[|db.log| - 1] == Slide(v.user.value, now, v.csrf)
    ensures CookieOk(slid, db, now)
  {
    assert Touched(db.log, v.user.value, v.csrf, now);
    assert LastAtTouch(slid, db.log, now);
    var at :| LoggedIn(db.log, v.user.value, v.csrf, at) && at <= now && v.created == Some(Unix(at));
    assert CreatedAtLogin(slid, db.log, now);
  }

  /** The session is wiped and stamped for the user as the row stands. */
  function CompleteLogin(o: Out, now: int, user: int, nonce: string, path: LoginPath): Out
    requires user in o.db.users
  {
    var row := o.db.users[user];
    var noted := Write(o, Note(o.db, Login(user, now, nonce, path, row.totpEnabled)));
    Save(WithValues(noted, Values(Some(user), row.epoch, Some(Unix(now)), Some(Unix(now)), nonce, 0, 0)))
  }

  lemma CompleteLoginFine(o: Out, now: int, user: int, nonce: string, path: LoginPath)
    requires Fine(o, now) && user in o.db.users && nonce != ""
    requires LoginEarned(o.db.log + [Login(user, now, nonce, path, o.db.users[user].totpEnabled)], |o.db.log|)
    ensures Advances(o, CompleteLogin(o, now, user, nonce, path), now)
  {
    var row := o.db.users[user];
    var db := Note(o.db, Login(user, now, nonce, path, row.totpEnabled));
    NoteSound(o.db, Login(user, now, nonce, path, row.totpEnabled));
    WriteFine(o, db, now);
    var v := Values(Some(user), row.epoch, Some(Unix(now)), Some(Unix(now)), nonce, 0, 0);
    NewCookieIsOk(db, v, user, now, path, row.totpEnabled);
    SaveFine(Write(o, db), v, now);
  }

  lemma NewCookieIsOk(db: Db, v: Values, user: int, now: int, path: LoginPath, totp: bool)
    requires Inv(db) && user in db.users && v.csrf != ""
    requires |db.log| > 0 && db.log[|db.log| - 1] == Login(user, now, v.csrf, path, totp)
    requires v == Values(Some(user), db.users[user].epoch, Some(Unix(now)), Some(Unix(now)), v.csrf, 0, 0)
    ensures CookieOk(v, db, now)
  {
    assert LoggedIn(db.log, user, v.csrf, now);
    assert Touched(db.log, user, v.csrf, now);
  }

  // ---------- POST /login ----------

  /** `blocked`, `attemptsLeft`: what the login limiter answers for the caller's address. */
  datatype LoginForm = LoginForm(
    csrf: string, name: string, password: string, code: string, recovery: string,
    blocked: bool, attemptsLeft: bool, newHash: string, pick: Option<int>)

  /** pending2FAUserID; 0 for none. */
  function PendingUser(v: Values, now: int): int {
    if v.pendingUser <= 0 then 0
    else if v.pendingExpires > 0 && Unix(now) > v.pendingExpires then 0
    else v.pendingUser
  }

  ghost function LoginPost(env: Env, o: Out, now: int, f: LoginForm, nonce: string): Out {
    if !env.cfg.localLogin then (if env.cfg.oidc then o else Base(o, nonce))
    else if f.blocked || !CsrfOk(o.values, f.csrf) then Base(o, nonce)
    else if PendingUser(o.values, now) > 0 then SecondFactorPost(env, o, now, f, nonce)
    else PasswordPost(env, o, now, f, nonce)
  }

  /** A rehash that panics is answered by the recoverer alone: nothing is written and no cookie saved. */
  ghost function PasswordPost(env: Env, o: Out, now: int, f: LoginForm, nonce: string): Out {
    match GetUserByUsername(o.db, TrimSpace(f.name))
    case None => Failed(o, f)
    case Some(u) =>
      var row := o.db.users[u];
      if !VerifyPassword(env.crypto, f.password, row.hash) then Failed(o, f)
      else if !row.active then Save(o)
      else if NeedsPasswordRehash(env.crypto, row.hash) && !Hashable(f.password) then o
      else
        var rehashed := if NeedsPasswordRehash(env.crypto, row.hash)
                        then Write(o, UpdateUserPassword(o.db, u, f.newHash)) else o;
        if row.totpEnabled then AwaitSecondFactor(rehashed, now, u)
        else CompleteLogin(rehashed, now, u, nonce, ByPassword)
  }

  /** A flash says how many attempts are left; at none the login page itself says so. */
  function Failed(o: Out, f: LoginForm): Out {
    if f.attemptsLeft then Save(o) else o
  }

  function AwaitSecondFactor(o: Out, now: int, user: int): Out {
    var noted := Write(o, Note(o.db, PasswordOk(user, now)));
    Save(WithValues(noted, o.values.(pendingUser := user, pendingExpires := Unix(now + PENDING_TTL))))
  }

  lemma AwaitFine(o: Out, now: int, user: int)
    requires Fine(o, now) && user in o.db.users && 0 <= now
    ensures Advances(o, AwaitSecondFactor(o, now, user), now)
  {
    var db := Note(o.db, PasswordOk(user, now));
    NoteSound(o.db, PasswordOk(user, now));
    WriteFine(o, db, now);
    var v := o.values.(pendingUser := user, pendingExpires := Unix(now + PENDING_TTL));
    assert CookieOk(v, db, now) by {
      assert db.log[|o.db.log|] == PasswordOk(user, now);
      if v.user.Some? {
        SameOrigin(o.values, v, db.log, now);
      }
    }
    SaveFine(Write(o, db), v, now);
  }

  lemma PasswordPostFine(env: Env, o: Out, now: int, f: LoginForm, nonce: string)
    requires Fine(o, now) && nonce != "" && 0 <= now
    ensures Advances(o, PasswordPost(env, o, now, f, nonce), now)
  {
    SaveFine(o, o.values, now);
    var found := GetUserByUsername(o.db, TrimSpace(f.name));
    if found.Some? && VerifyPassword(env.crypto, f.password, o.db.users[found.value].hash)
       && o.db.users[found.value].active
       && (NeedsPasswordRehash(env.crypto, o.db.users[found.value].hash) ==> Hashable(f.password)) {
      var u, row := found.value, o.db.users[found.value];
      var rehashed := if NeedsPasswordRehash(env.crypto, row.hash)
                      then Write(o, UpdateUserPassword(o.db, u, f.newHash)) else o;
      PasswordSound(o.db, u, f.newHash);
      WriteFine(o, UpdateUserPassword(o.db, u, f.newHash), now);
      if row.totpEnabled {
        AwaitFine(rehashed, now, u);
      } else {
        CompleteLoginFine(rehashed, now, u, nonce, ByPassword);
      }
      AdvancesThrough(o, rehashed, PasswordPost(env, o, now, f, nonce), now);
    }
  }

  lemma SameOrigin(v: Values, w: Values, log: seq<Event>, now: int)
    requires v.user.Some? && w == v.(pendingUser := w.pendingUser, pendingExpires := w.pendingExpires, epoch := w.epoch)
    requires CreatedAtLogin(v, log, now) && LastAtTouch(v, log, now)
    ensures CreatedAtLogin(w, log, now) && LastAtTouch(w, log, now)
  {
  }

  /** The unused recovery codes of `user` that the text verifies against. */
  function MatchingCodes(env: Env, db: Db, user: int, text: string): set<int> {
    var unused := GetUnusedRecoveryCodes(db, user);
    set c | c in unused && VerifyPassword(env.crypto, text, unused[c])
  }

  /** What a recovery code is compared as. */
  function NormalCode(text: string): string {
    ToUpper(TrimSpace(text))
  }

  /** The map is walked in any order, so any matching code may be the one consumed; none only if none matches. */
  predicate RecoveryPick(env: Env, db: Db, user: int, text: string, pick: Option<int>) {
    match pick
    case None => NormalCode(text) == "" || MatchingCodes(env, db, user, NormalCode(text)) == {}
    case Some(c) => CodeMatches(env, db, user, text, c)
  }

  predicate CodeMatches(env: Env, db: Db, user: int, text: string, code: int) {
    text != "" && NormalCode(text) != "" && code in MatchingCodes(env, db, user, NormalCode(text))
  }

  predicate TotpAccepted(env: Env, row: User, secret: string, code: string, now: int) {
    env.crypto.totp(code, secret, now) && Unix(now) / 30 > row.totpLastStep
  }

  predicate TriesTotp(env: Env, row: User, code: string, now: int) {
    code != "" && TotpAccepted(env, row, row.totpSecret, code, now)
  }

  /** The session waits for the second factor of user PendingUser. */
  function SecondFactorPost(env: Env, o: Out, now: int, f: LoginForm, nonce: string): Out {
    var user := PendingUser(o.values, now);
    if user !in o.db.users || !o.db.users[user].active || !o.db.users[user].totpEnabled then
      Save(WithValues(o, o.values.(pendingUser := 0, pendingExpires := 0)))
    else if TriesTotp(env, o.db.users[user], f.code, now) then
      CompleteLogin(Write(o, SetTOTPLastStep(o.db, user, Unix(now) / 30)), now, user, nonce, BySecondFactor)
    else if f.pick.Some? && CodeMatches(env, o.db, user, f.recovery, f.pick.value) then
      CompleteLogin(Write(o, UseRecoveryCode(o.db, f.pick.value)), now, user, nonce, BySecondFactor)
    else Save(o)
  }

  lemma SecondFactorPostFine(env: Env, o: Out, now: int, f: LoginForm, nonce: string)
    requires Fine(o, now) && nonce != "" && PendingUser(o.values, now) > 0
    ensures Advances(o, SecondFactorPost(env, o, now, f, nonce), now)
  {
    var user := PendingUser(o.values, now);
    if user !in o.db.users || !o.db.users[user].active || !o.db.users[user].totpEnabled {
      var cleared := o.values.(pendingUser := 0, pendingExpires := 0);
      if cleared.user.Some? {
        SameOrigin(o.values, cleared, o.db.log, now);
      }
      SaveFine(o, cleared, now);
    } else if TriesTotp(env, o.db.users[user], f.code, now) {
      StepSound(o.db, user, Unix(now) / 30);
      FactorFine(o, now, SetTOTPLastStep(o.db, user, Unix(now) / 30), TotpOk(user, Unix(now) / 30), nonce);
    } else if f.pick.Some? && CodeMatches(env, o.db, user, f.recovery, f.pick.value) {
      UseCodeSound(o.db, f.pick.value);
      FactorFine(o, now, UseRecoveryCode(o.db, f.pick.value), RecoveryOk(user, f.pick.value), nonce);
    } else {
      SaveFine(o, o.values, now);
    }
  }

  lemma FactorFine(o: Out, now: int, db: Db, factor: Event, nonce: string)
    requires Fine(o, now) && nonce != "" && PendingUser(o.values, now) > 0
    requires Sound(o.db, db) && db.log == o.db.log + [factor]
    requires factor == TotpOk(o.values.pendingUser, Unix(now) / 30)
             || (factor.RecoveryOk? && factor.user == o.values.pendingUser)
    requires o.values.pendingUser in db.users && db.users[o.values.pendingUser].totpEnabled
    ensures Advances(o, CompleteLogin(Write(o, db), now, o.values.pendingUser, nonce, BySecondFactor), now)
  {
    var user := o.values.pendingUser;
    PendingIsEarned(o, now);
    WriteFine(o, db, now);
    SecondFactorEarned(o.db.log, factor, Login(user, now, nonce, BySecondFactor, true));
    CompleteLoginFine(Write(o, db), now, user, nonce, BySecondFactor);
    AdvancesThrough(o, Write(o, db), CompleteLogin(Write(o, db), now, user, nonce, BySecondFactor), now);
  }

  lemma LoginPostFine(env: Env, o: Out, now: int, f: LoginForm, nonce: string)
    requires Fine(o, now) && nonce != "" && 0 <= now
    ensures Advances(o, LoginPost(env, o, now, f, nonce), now)
  {
    if !env.cfg.localLogin || f.blocked || !CsrfOk(o.values, f.csrf) {
      SaveFine(o, o.values, now);
      BaseFine(o, nonce, now);
    } else if PendingUser(o.values, now) > 0 {
      SecondFactorPostFine(env, o, now, f, nonce);
    } else {
      PasswordPostFine(env, o, now, f, nonce);
    }
  }

  lemma PendingIsEarned(o: Out, now: int)
    requires CookieOk(o.values, o.db, now) && PendingUser(o.values, now) > 0
    ensures PasswordBefore(o.db.log, |o.db.log|, o.values.pendingUser, now)
  {
    var v := o.values;
    var at :| PasswordOk(v.pendingUser, at) in o.db.log && 0 <= at <= now && v.pendingExpires == Unix(at + PENDING_TTL);
    var j :| 0 <= j < |o.db.log| && o.db.log[j] == PasswordOk(v.pendingUser, at);
  }

  lemma SecondFactorEarned(log: seq<Event>, factor: Event, login: Event)
    requires login.Login? && login.path == BySecondFactor && login.totp
    requires factor == TotpOk(login.user, Unix(login.at) / 30) || (factor.RecoveryOk? && factor.user == login.user)
    requires PasswordBefore(log, |log|, login.user, login.at)
    ensures LoginEarned(log + [factor] + [login], |log| + 1)
  {
    var all := log + [factor] + [login];
    var j, t :| 0 <= j < |log| && j < |log| && log[j] == PasswordOk(login.user, t)
                && t <= login.at && Unix(login.at) <= Unix(t + PENDING_TTL);
    assert all[j] == PasswordOk(login.user, t) && all[|log|] == factor;
  }
}
