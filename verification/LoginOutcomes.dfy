/**
  What a request is answered with: who is logged in, exactly when, and that the
  cookie written then opens a session. The conditions are read off the request, the
  presented cookie and the tables.
 */
module LoginOutcomes {
  import opened Common
  import opened Text
  import opened Accounts
  import opened Passwords
  import opened Sessions
  import opened Requests
  import opened Handlers
  import opened Lineage

  // ---------- the conditions ----------

  /** The log-in form gets past the switches in front of it. */
  predicate FormReady(env: Env, o: Out, f: LoginForm) {
    env.cfg.localLogin && !f.blocked && f.csrf != "" && f.csrf == o.values.csrf
  }

  /** A second factor is due, and still in time. */
  predicate FactorDue(v: Values, now: int) {
    v.pendingUser > 0 && (v.pendingExpires <= 0 || now / NANOS <= v.pendingExpires)
  }

  predicate CodeGood(env: Env, row: User, code: string, now: int) {
    code != "" && env.crypto.totp(code, row.totpSecret, now) && now / NANOS / 30 > row.totpLastStep
  }

  predicate IsUnusedMatch(env: Env, db: Db, user: int, text: string, c: int) {
    && c in db.codes && db.codes[c].owner == user && !db.codes[c].used
    && VerifyPassword(env.crypto, ToUpper(TrimSpace(text)), db.codes[c].hash)
  }

  ghost predicate RecoveryGood(env: Env, db: Db, user: int, text: string) {
    ToUpper(TrimSpace(text)) != "" && exists c :: IsUnusedMatch(env, db, user, text, c)
  }

  ghost predicate SecondFactorGood(env: Env, db: Db, user: int, f: LoginForm, now: int) {
    && user in db.users && db.users[user].active && db.users[user].totpEnabled
    && (CodeGood(env, db.users[user], f.code, now) || RecoveryGood(env, db, user, f.recovery))
  }

  /** The right password of an active user, not stuck on a rehash bcrypt refuses. */
  predicate PasswordGood(env: Env, db: Db, user: int, f: LoginForm) {
    && user in db.users && db.users[user].active && db.users[user].name == TrimSpace(f.name)
    && VerifyPassword(env.crypto, f.password, db.users[user].hash)
    && (NeedsPasswordRehash(env.crypto, db.users[user].hash) ==> |f.password| <= 72)
  }

  /** Single sign-on vouches for this user: an active row of its own under that name, or the row it adds. */
  ghost predicate SignedOn(env: Env, db: Db, claims: Claims, user: int) {
    && env.cfg.oidc && OidcRole(env.cfg, claims.groups) in {"viewer", "manager", "admin"}
    && if user in db.users
       then db.users[user].name == claims.name && db.users[user].source == "oidc" && db.users[user].active
       else user == db.nextUser && forall u | u in db.users :: db.users[u].name != claims.name
  }

  /** The request logs this user in. */
  ghost predicate LogsIn(env: Env, o: Out, now: int, q: Request, user: int) {
    match q
    case PostLogin(f) =>
      && FormReady(env, o, f)
      && if FactorDue(o.values, now)
         then user == o.values.pendingUser && SecondFactorGood(env, o.db, user, f, now)
         else PasswordGood(env, o.db, user, f) && !o.db.users[user].totpEnabled
    case OidcReturn(claims) => claims.Some? && SignedOn(env, o.db, claims.value, user)
    case _ => false
  }

  /** A log-in of this user is the last thing the request wrote to the history. */
  predicate LoggedNow(o: Out, r: Out, user: int) {
    |r.db.log| > |o.db.log| && r.db.log[|r.db.log| - 1].Login? && r.db.log[|r.db.log| - 1].user == user
  }

  // ---------- exactly who is logged in ----------

  lemma NameIsUnique(db: Db, name: string, user: int)
    requires UsersInv(db) && user in db.users && db.users[user].name == name
    ensures GetUserByUsername(db, name) == Some(user)
  {
  }

  lemma PasswordLoginExact(env: Env, o: Out, now: int, f: LoginForm, nonce: string, user: int)
    requires UsersInv(o.db)
    ensures LoggedNow(o, PasswordPost(env, o, now, f, nonce), user) <==>
              PasswordGood(env, o.db, user, f) && !o.db.users[user].totpEnabled
    ensures LoggedNow(o, PasswordPost(env, o, now, f, nonce), user) ==>
              PasswordPost(env, o, now, f, nonce).db.log == o.db.log + [Login(user, now, nonce, ByPassword, false)]
  {
    if user in o.db.users && o.db.users[user].name == TrimSpace(f.name) {
      NameIsUnique(o.db, TrimSpace(f.name), user);
    }
  }

  /** The walk finds a code exactly when there is one. */
  lemma PickExact(env: Env, db: Db, user: int, text: string, pick: Option<int>)
    requires RecoveryPick(env, db, user, text, pick)
    ensures pick.Some? <==> RecoveryGood(env, db, user, text)
    ensures pick.Some? ==> CodeMatches(env, db, user, text, pick.value) && IsUnusedMatch(env, db, user, text, pick.value)
  {
    assert forall c :: c in MatchingCodes(env, db, user, NormalCode(text)) <==> IsUnusedMatch(env, db, user, text, c);
  }

  lemma FactorLoginExact(env: Env, o: Out, now: int, f: LoginForm, nonce: string, user: int)
    requires PendingUser(o.values, now) > 0
    requires RecoveryPick(env, o.db, PendingUser(o.values, now), f.recovery, f.pick)
    ensures LoggedNow(o, SecondFactorPost(env, o, now, f, nonce), user) <==>
              user == o.values.pendingUser && SecondFactorGood(env, o.db, user, f, now)
    ensures LoggedNow(o, SecondFactorPost(env, o, now, f, nonce), user) ==>
              var log := SecondFactorPost(env, o, now, f, nonce).db.log;
              log[|log| - 1] == Login(user, now, nonce, BySecondFactor, true)
  {
    PickExact(env, o.db, PendingUser(o.values, now), f.recovery, f.pick);
  }

  lemma FactorDueIsPending(v: Values, now: int)
    ensures FactorDue(v, now) <==> PendingUser(v, now) > 0
    ensures FactorDue(v, now) ==> PendingUser(v, now) == v.pendingUser
  {
  }

  lemma OidcLoginExact(env: Env, o: Out, now: int, claims: Option<Claims>, nonce: string, user: int)
    requires UsersInv(o.db)
    ensures LoggedNow(o, OidcCallback(env, o, now, claims, nonce), user) <==>
              claims.Some? && SignedOn(env, o.db, claims.value, user)
  {
    if claims.Some? {
      var name, role := claims.value.name, OidcRole(env.cfg, claims.value.groups);
      var upserted := UpsertOIDCUser(o.db, name, role, env.cfg.syncRole);
      UpsertExact(o.db, name, role, env.cfg.syncRole, user);
      if upserted.Ok? {
        OidcEndExact(Write(o, upserted.value), now, name, nonce, user);
      }
    }
  }

  /** The upsert succeeds exactly on a free name or on a row of its own, and then the name is this user's. */
  lemma UpsertExact(db: Db, name: string, role: string, sync: bool, user: int)
    requires UsersInv(db)
    ensures var r := UpsertOIDCUser(db, name, role, sync);
            && (r.Ok? <==> role in {"viewer", "manager", "admin"}
                           && forall u | u in db.users && db.users[u].name == name :: db.users[u].source == "oidc")
            && (r.Ok? ==>
                  && r.value.log == db.log && UniqueNames(r.value)
                  && (user in r.value.users && r.value.users[user].name == name <==>
                        if user in db.users then db.users[user].name == name else user == db.nextUser && !NameTaken(db, name))
                  && (user in r.value.users && r.value.users[user].name == name ==>
                        r.value.users[user].active == (if user in db.users then db.users[user].active else true)))
  {
    var found := GetUserByUsername(db, name);
    if found.Some? {
      assert db.users[found.value].name == name;
    }
  }

  ghost predicate UniqueNames(db: Db) {
    forall u, v | u in db.users && v in db.users && db.users[u].name == db.users[v].name :: u == v
  }

  lemma OidcEndExact(o: Out, now: int, name: string, nonce: string, user: int)
    requires UniqueNames(o.db)
    ensures LoggedNow(o, OidcLogin(o, now, name, nonce), user) <==>
              user in o.db.users && o.db.users[user].name == name && o.db.users[user].active
  {
  }

  /** For every request: it logs a user in exactly when that user's path was gone to its end. */
  lemma LoginExact(env: Env, o: Out, decoded: bool, now: int, q: Request, nonce: string, user: int)
    requires UsersInv(o.db) && Stamped(o.values) && o.saved == []
    requires q.PostLogin? && FactorDue(o.values, now) ==>
               RecoveryPick(env, o.db, o.values.pendingUser, q.form.recovery, q.form.pick)
    ensures LoggedNow(o, Serve(env, o, decoded, now, q, nonce), user) <==> LogsIn(env, o, now, q, user)
  {
    if q.PostLogin? {
      FactorDueIsPending(o.values, now);
      FormLoginExact(env, o, now, q.form, nonce, user);
    } else if q.OidcReturn? {
      OidcLoginExact(env, o, now, q.claims, nonce, user);
    } else {
      ServeTraced(env, o, decoded, now, q, nonce);
    }
  }

  lemma FormLoginExact(env: Env, o: Out, now: int, f: LoginForm, nonce: string, user: int)
    requires UsersInv(o.db)
    requires FactorDue(o.values, now) ==> RecoveryPick(env, o.db, o.values.pendingUser, f.recovery, f.pick)
    ensures LoggedNow(o, LoginPost(env, o, now, f, nonce), user) <==> LogsIn(env, o, now, PostLogin(f), user)
  {
    FactorDueIsPending(o.values, now);
    if FormReady(env, o, f) {
      if FactorDue(o.values, now) {
        FactorLoginExact(env, o, now, f, nonce, user);
      } else {
        PasswordLoginExact(env, o, now, f, nonce, user);
      }
    }
  }

  // ---------- a log-in opens a session ----------

  predicate LastSaved(r: Out, c: Values) {
    |r.saved| > 0 && r.saved[|r.saved| - 1] == c
  }

  /** From `now` on the cookie is accepted exactly while its row is current and eight hours have not passed. */
  ghost predicate OpensUntilIdle(c: Values, now: int) {
    forall db: Db, t: int | t >= now ::
      Accepts(db, c, t) <==> RowCurrent(db, c) && t <= now / NANOS * NANOS + EIGHT_HOURS
  }

  /** The cookie of a log-in: this user, the row's epoch, born this second, under the fresh token, nothing pending. */
  predicate LoginCookie(c: Values, db: Db, user: int, now: int, nonce: string) {
    && user in db.users
    && c == Values(Some(user), db.users[user].epoch, Some(now / NANOS), Some(now / NANOS), nonce, 0, 0)
  }

  lemma LoginCookieOpens(c: Values, db: Db, user: int, now: int, nonce: string)
    requires LoginCookie(c, db, user, now, nonce) && db.users[user].active
    ensures Accepts(db, c, now) && OpensUntilIdle(c, now)
  {
    forall db': Db, t: int | t >= now
      ensures Accepts(db', c, t) <==> RowCurrent(db', c) && t <= now / NANOS * NANOS + EIGHT_HOURS
    {
      AcceptsExactly(db', c, t);
    }
  }

  lemma CompleteLoginSaves(m: Out, now: int, user: int, nonce: string, path: LoginPath)
    requires user in m.db.users
    ensures var r := CompleteLogin(m, now, user, nonce, path);
            && |r.saved| == |m.saved| + 1 && LoginCookie(r.saved[|r.saved| - 1], r.db, user, now, nonce)
            && r.db.users == m.db.users
            && r.db.log == m.db.log + [Login(user, now, nonce, path, m.db.users[user].totpEnabled)]
  {
  }

  /** The response to a log-in: its last cookie is the session's, and the row is there and active. */
  predicate SessionOpened(r: Out, user: int, now: int, nonce: string) {
    && |r.saved| > 0 && LoginCookie(r.saved[|r.saved| - 1], r.db, user, now, nonce) && r.db.users[user].active
  }

  lemma PasswordOpens(env: Env, o: Out, now: int, f: LoginForm, nonce: string, user: int)
    requires LoggedNow(o, PasswordPost(env, o, now, f, nonce), user)
    ensures SessionOpened(PasswordPost(env, o, now, f, nonce), user, now, nonce)
  {
  }

  lemma FactorOpens(env: Env, o: Out, now: int, f: LoginForm, nonce: string, user: int)
    requires PendingUser(o.values, now) > 0 && LoggedNow(o, SecondFactorPost(env, o, now, f, nonce), user)
    ensures SessionOpened(SecondFactorPost(env, o, now, f, nonce), user, now, nonce)
  {
  }

  lemma OidcOpens(env: Env, o: Out, now: int, claims: Option<Claims>, nonce: string, user: int)
    requires LoggedNow(o, OidcCallback(env, o, now, claims, nonce), user)
    ensures SessionOpened(OidcCallback(env, o, now, claims, nonce), user, now, nonce)
  {
  }

  /**
    Whoever is logged in, by whichever of the three paths, has a session: the last
    cookie of the response is accepted at once, and stays accepted for eight hours for
    exactly as long as the row stays active with that epoch.
   */
  lemma LoginOpensSession(env: Env, o: Out, decoded: bool, now: int, q: Request, nonce: string, user: int)
    requires Stamped(o.values) && o.saved == []
    requires LoggedNow(o, Serve(env, o, decoded, now, q, nonce), user)
    ensures var r := Serve(env, o, decoded, now, q, nonce);
            && SessionOpened(r, user, now, nonce)
            && Accepts(r.db, r.saved[|r.saved| - 1], now) && OpensUntilIdle(r.saved[|r.saved| - 1], now)
  {
    var r := Serve(env, o, decoded, now, q, nonce);
    ServeTraced(env, o, decoded, now, q, nonce);
    if q.OidcReturn? {
      OidcOpens(env, o, now, q.claims, nonce, user);
    } else if PendingUser(o.values, now) > 0 {
      FactorOpens(env, o, now, q.form, nonce, user);
    } else {
      PasswordOpens(env, o, now, q.form, nonce, user);
    }
    LoginCookieOpens(r.saved[|r.saved| - 1], r.db, user, now, nonce);
  }

  // ---------- what a second factor costs, and how it comes to be due ----------

  /** A code costs its time step; failing that, exactly one matching recovery code is used up; nothing else changes. */
  lemma FactorConsumes(env: Env, o: Out, now: int, f: LoginForm, nonce: string)
    requires FactorDue(o.values, now) && RecoveryPick(env, o.db, o.values.pendingUser, f.recovery, f.pick)
    ensures var user, after := o.values.pendingUser, SecondFactorPost(env, o, now, f, nonce).db;
            if !SecondFactorGood(env, o.db, user, f, now) then after == o.db
            else if CodeGood(env, o.db.users[user], f.code, now) then
              && after.users == o.db.users[user := o.db.users[user].(totpLastStep := now / NANOS / 30)]
              && after.codes == o.db.codes && after.tokens == o.db.tokens
            else
              && after.users == o.db.users && after.tokens == o.db.tokens
              && exists c :: IsUnusedMatch(env, o.db, user, f.recovery, c)
                             && after.codes == o.db.codes[c := o.db.codes[c].(used := true)]
  {
    FactorDueIsPending(o.values, now);
    PickExact(env, o.db, o.values.pendingUser, f.recovery, f.pick);
  }

  /** The right password of an enrolled user leaves a cookie for which the second factor is due for five minutes. */
  lemma PasswordMakesFactorDue(env: Env, o: Out, now: int, f: LoginForm, nonce: string, user: int)
    requires UsersInv(o.db) && 0 <= now && FormReady(env, o, f) && !FactorDue(o.values, now)
    requires PasswordGood(env, o.db, user, f) && o.db.users[user].totpEnabled
    ensures var r := LoginPost(env, o, now, f, nonce);
            && r.db.log == o.db.log + [PasswordOk(user, now)] && |r.saved| == |o.saved| + 1
            && r.saved[|r.saved| - 1] == o.values.(pendingUser := user, pendingExpires := (now + 300 * NANOS) / NANOS)
            && forall t :: FactorDue(r.saved[|r.saved| - 1], t) <==> t / NANOS <= (now + 300 * NANOS) / NANOS
  {
    FactorDueIsPending(o.values, now);
    NameIsUnique(o.db, TrimSpace(f.name), user);
    assert 1 <= user;
    assert (now + 300 * NANOS) / NANOS == now / NANOS + 300;
  }

  /** The cookie of a right password, presented with a good second factor while it is due, logs in; with a bad one it does not. */
  lemma TwoStepLogin(env: Env, o: Out, now: int, f: LoginForm, nonce: string, user: int,
                     p: Out, later: int, g: LoginForm, nonce': string)
    requires UsersInv(o.db) && 0 <= now && FormReady(env, o, f) && !FactorDue(o.values, now)
    requires PasswordGood(env, o.db, user, f) && o.db.users[user].totpEnabled
    requires LastSaved(LoginPost(env, o, now, f, nonce), p.values) && FormReady(env, p, g) && UsersInv(p.db)
    requires later / NANOS <= (now + 300 * NANOS) / NANOS && RecoveryPick(env, p.db, user, g.recovery, g.pick)
    ensures LoggedNow(p, LoginPost(env, p, later, g, nonce'), user) <==> SecondFactorGood(env, p.db, user, g, later)
  {
    PasswordMakesFactorDue(env, o, now, f, nonce, user);
    assert FactorDue(p.values, later);
    FormLoginExact(env, p, later, g, nonce', user);
  }

  // ---------- the sessions of the other requests ----------

  predicate PasswordChangeMade(env: Env, o: Out, decoded: bool, now: int, q: Request) {
    && q.PostProfile? && decoded && Accepts(o.db, o.values, now) && q.csrf != "" && q.csrf == o.values.csrf
    && PasswordChangeAccepted(env, o.db.users[o.values.user.value], q.change)
  }

  /** The cookie an admitted request leaves: the presented one, slid, and after a password change of the row's new epoch. */
  function SlidCookie(env: Env, o: Out, now: int, q: Request): Values
    requires Accepts(o.db, o.values, now)
  {
    var slid := o.values.(last := Some(now / NANOS));
    if PasswordChangeMade(env, o, true, now, q) then slid.(epoch := o.db.users[o.values.user.value].epoch + 1) else slid
  }

  /** The epoch of the acting user's own row moves only by a password change or an administrator's reset of it. */
  lemma GatedCookie(env: Env, o: Out, decoded: bool, now: int, q: Request, nonce: string)
    requires BehindGate(q) && Stamped(o.values) && o.saved == []
    ensures var r := ServeGated(env, o, decoded, now, q, nonce);
            if decoded && Accepts(o.db, o.values, now) then LastSaved(r, SlidCookie(env, o, now, q))
            else r.db == o.db && r.saved == if decoded && o.values.user.None? then [] else [Empty]
  {
    GateSaves(o, decoded, now);
    if decoded && Accepts(o.db, o.values, now) {
      GateTraced(o, decoded, now, q, nonce);
      AdmittedCookie(env, Gate(o, decoded, now).out, now, q, nonce);
    }
  }

  /** What the gate itself saves. */
  lemma GateSaves(o: Out, decoded: bool, now: int)
    requires o.saved == [] && Stamped(o.values)
    ensures var g := Gate(o, decoded, now).out;
            if decoded && Accepts(o.db, o.values, now)
            then g.values == o.values.(last := Some(now / NANOS)) && g.saved == [g.values] && g.db.users == o.db.users
            else g.db == o.db && g.saved == if decoded && o.values.user.None? then [] else [Empty]
  {
    ValidatedExactly(o.db, o.values, now, true);
  }

  lemma AdmittedCookie(env: Env, g: Out, now: int, q: Request, nonce: string)
    requires BehindGate(q) && Accepts(g.db, g.values, now) && Stamped(g.values)
    requires g.saved == [g.values] && g.values.last == Some(now / NANOS)
    ensures LastSaved(ServeAdmitted(env, g, now, q, nonce), SlidCookie(env, g, now, q))
  {
    match q
    case PostProfile(csrf, change) => ProfileCookie(env, g, now, q, nonce);
    case PostUsers(_, _) => AdminCookie(env, g, now, q, nonce);
    case PostTempUser(_, _) => AdminCookie(env, g, now, q, nonce);
    case _ => TwoFactorCookie(env, g, now, q, nonce);
  }

  lemma ProfileCookie(env: Env, g: Out, now: int, q: Request, nonce: string)
    requires q.PostProfile? && Accepts(g.db, g.values, now) && g.saved == [g.values] && g.values.last == Some(now / NANOS)
    ensures LastSaved(ServeAdmitted(env, g, now, q, nonce), SlidCookie(env, g, now, q))
  {
  }

  lemma AdminCookie(env: Env, g: Out, now: int, q: Request, nonce: string)
    requires q.PostUsers? || q.PostTempUser?
    requires Accepts(g.db, g.values, now) && g.saved == [g.values] && g.values.last == Some(now / NANOS)
    ensures LastSaved(ServeAdmitted(env, g, now, q, nonce), g.values)
  {
  }

  lemma TwoFactorCookie(env: Env, g: Out, now: int, q: Request, nonce: string)
    requires q.Page? || q.Start2FA? || q.Confirm2FA? || q.Disable2FA?
    requires Accepts(g.db, g.values, now) && Stamped(g.values)
    requires g.saved == [g.values] && g.values.last == Some(now / NANOS)
    ensures LastSaved(ServeAdmitted(env, g, now, q, nonce), g.values)
  {
  }

  /**
    Sliding keeps a session alive: after an admitted request its cookie is accepted for
    eight hours more, within the day after its birth, for exactly as long as the row is
    active with the cookie's epoch.
   */
  lemma SlidingKeepsAlive(env: Env, o: Out, decoded: bool, now: int, q: Request, nonce: string, db: Db, t: int)
    requires BehindGate(q) && Stamped(o.values) && o.saved == [] && decoded && Accepts(o.db, o.values, now) && now <= t
    ensures var r := ServeGated(env, o, decoded, now, q, nonce);
            && LastSaved(r, SlidCookie(env, o, now, q))
            && (Accepts(db, SlidCookie(env, o, now, q), t) <==>
                  && RowCurrent(db, SlidCookie(env, o, now, q))
                  && t <= o.values.created.value * NANOS + ONE_DAY && t <= now / NANOS * NANOS + EIGHT_HOURS)
  {
    GatedCookie(env, o, decoded, now, q, nonce);
    AcceptsExactly(db, SlidCookie(env, o, now, q), t);
  }

  /** Whoever changes the own password stays logged in: the re-stamped cookie is accepted at once. */
  lemma PasswordChangeKeepsSession(env: Env, o: Out, decoded: bool, now: int, q: Request, nonce: string)
    requires Stamped(o.values) && o.saved == [] && PasswordChangeMade(env, o, decoded, now, q)
    ensures var r := Serve(env, o, decoded, now, q, nonce);
            && LastSaved(r, SlidCookie(env, o, now, q)) && Accepts(r.db, SlidCookie(env, o, now, q), now)
  {
    var user := o.values.user.value;
    SlidingKeepsAlive(env, o, decoded, now, q, nonce, Serve(env, o, decoded, now, q, nonce).db, now);
    AcceptsExactly(o.db, o.values, now);
    ChangedRow(env, o, now, q, nonce);
  }

  lemma ChangedRow(env: Env, o: Out, now: int, q: Request, nonce: string)
    requires PasswordChangeMade(env, o, true, now, q)
    ensures var user, after := o.values.user.value, Serve(env, o, true, now, q, nonce).db;
            && user in after.users
            && after.users[user] == o.db.users[user].(hash := q.change.newHash, epoch := o.db.users[user].epoch + 1)
  {
    var g := Gate(o, true, now).out;
    assert Serve(env, o, true, now, q, nonce) == ProfilePost(env, g, now, q.csrf, q.change);
    assert g.db.users == o.db.users;
  }

  /** A page that needs no log-in, and GET of the API session, hand the presented session back, with a token if it had none. */
  lemma PresentedCookieKept(env: Env, o: Out, decoded: bool, now: int, q: Request, nonce: string)
    requires Stamped(o.values) && o.saved == [] && (q.PublicPage? || q.ApiGetSession?)
    ensures var r := Serve(env, o, decoded, now, q, nonce);
            r.db == o.db && LastSaved(r, if o.values.csrf == "" then o.values.(csrf := nonce) else o.values)
  {
    ValidatedExactly(o.db, o.values, now, false);
  }

  /** Logging out, by form or API, wipes the session when the token is right, or when there is none and none is asked for. */
  lemma LoggedOutCookie(env: Env, o: Out, decoded: bool, now: int, q: Request, nonce: string)
    requires o.saved == []
    ensures q.PostLogout? ==>
              Serve(env, o, decoded, now, q, nonce).saved
              == [if q.csrf != "" && q.csrf == o.values.csrf then Empty else o.values]
    ensures q.ApiDeleteSession? ==>
              Serve(env, o, decoded, now, q, nonce).saved
              == if decoded && (o.values.csrf == "" || q.sent == o.values.csrf) then [Empty] else []
  {
  }

  // ---------- requests that log nobody in ----------

  /** The presented session, at most with a token it had none of. */
  predicate AsPresented(o: Out, nonce: string, s: Values) {
    s == o.values || (o.values.csrf == "" && s == o.values.(csrf := nonce))
  }

  /** A log-in that is refused hands the session back; only a second factor that can no longer be is forgotten. */
  lemma RefusedLoginCookies(env: Env, o: Out, now: int, f: LoginForm, nonce: string, i: int)
    requires UsersInv(o.db) && o.saved == []
    requires FactorDue(o.values, now) ==> RecoveryPick(env, o.db, o.values.pendingUser, f.recovery, f.pick)
    requires forall user :: !LogsIn(env, o, now, PostLogin(f), user)
    requires forall user :: FormReady(env, o, f) && !FactorDue(o.values, now) ==> !PasswordGood(env, o.db, user, f)
    ensures var r, u := LoginPost(env, o, now, f, nonce), o.values.pendingUser;
            && r.db.users == o.db.users && r.db.log == o.db.log && r.db.codes == o.db.codes
            && (0 <= i < |r.saved| ==>
                  if FormReady(env, o, f) && FactorDue(o.values, now)
                     && !(u in o.db.users && o.db.users[u].active && o.db.users[u].totpEnabled)
                  then r.saved[i] == o.values.(pendingUser := 0, pendingExpires := 0)
                  else AsPresented(o, nonce, r.saved[i]))
  {
    FactorDueIsPending(o.values, now);
    if FormReady(env, o, f) {
      if FactorDue(o.values, now) {
        assert !LogsIn(env, o, now, PostLogin(f), o.values.pendingUser);
        PickExact(env, o.db, o.values.pendingUser, f.recovery, f.pick);
      } else {
        RefusedPasswordCookies(env, o, now, f, nonce);
      }
    }
  }

  lemma RefusedPasswordCookies(env: Env, o: Out, now: int, f: LoginForm, nonce: string)
    requires forall user :: !PasswordGood(env, o.db, user, f)
    ensures PasswordPost(env, o, now, f, nonce) == o || PasswordPost(env, o, now, f, nonce) == Save(o)
  {
    var found := GetUserByUsername(o.db, TrimSpace(f.name));
    if found.Some? {
      assert !PasswordGood(env, o.db, found.value, f);
    }
  }

  /** Neither asking for a link nor following one touches the session. */
  lemma ResetCookies(env: Env, o: Out, decoded: bool, now: int, q: Request, nonce: string, i: int)
    requires o.saved == [] && (q.PostForgot? || q.PostReset?)
    ensures var r := Serve(env, o, decoded, now, q, nonce);
            |r.saved| > 0 && (0 <= i < |r.saved| ==> AsPresented(o, nonce, r.saved[i]))
  {
  }

  /** A sign-on that is refused hands the session back. */
  lemma RefusedSignOnCookies(env: Env, o: Out, now: int, claims: Option<Claims>, nonce: string)
    requires UsersInv(o.db) && (forall user :: !(claims.Some? && SignedOn(env, o.db, claims.value, user)))
    ensures var r := OidcCallback(env, o, now, claims, nonce);
            r.values == o.values && r.db.log == o.db.log && (r.saved == o.saved || r.saved == o.saved + [o.values])
  {
    if claims.Some? {
      var name := claims.value.name;
      var upserted := UpsertOIDCUser(o.db, name, OidcRole(env.cfg, claims.value.groups), env.cfg.syncRole);
      if upserted.Ok? {
        var found := GetUserByUsername(upserted.value, name);
        if found.Some? {
          assert !SignedOn(env, o.db, claims.value, found.value);
          UpsertExact(o.db, name, OidcRole(env.cfg, claims.value.groups), env.cfg.syncRole, found.value);
          OidcEndExact(Write(o, upserted.value), now, name, nonce, found.value);
        }
      }
    }
  }
}
