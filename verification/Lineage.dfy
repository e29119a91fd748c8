/**
  Where the cookies of a response come from, and which requests raise an epoch:
  the case analysis over requests behind the properties of runs.
 */
module Lineage {
  import opened Common
  import opened Text
  import opened Accounts
  import opened Passwords
  import opened Sessions
  import opened Requests
  import opened Handlers

  /** The request that may stamp a presented session anew. */
  predicate Restamps(q: Request) {
    q.PostProfile? && q.change.ChangePassword?
  }

  /** `s` continues the presented session: same user, token and birth; a new epoch only from an accepted restamp. */
  predicate Continues(o: Out, now: int, q: Request, s: Values) {
    && s.user == o.values.user && s.csrf == o.values.csrf && s.created == o.values.created
    && (s.epoch == o.values.epoch || (Restamps(q) && Accepts(o.db, o.values, now)))
  }

  /** `s` was opened by this very request, under its fresh token. */
  predicate Opened(r: Out, now: int, nonce: string, s: Values) {
    && s.user.Some? && s.csrf == nonce && s.created == Some(Unix(now))
    && |r.db.log| > 0 && r.db.log[|r.db.log| - 1].Login?
    && r.db.log[|r.db.log| - 1].user == s.user.value && r.db.log[|r.db.log| - 1].csrf == nonce
  }

  predicate DerivedCookie(o: Out, now: int, q: Request, nonce: string, r: Out, s: Values) {
    && (s.csrf == "" || s.csrf == o.values.csrf || s.csrf == nonce)
    && (s.user.Some? ==> Continues(o, now, q, s) || Opened(r, now, nonce, s))
  }

  predicate Derived(o: Out, now: int, q: Request, nonce: string, r: Out) {
    forall i | 0 <= i < |r.saved| :: DerivedCookie(o, now, q, nonce, r, r.saved[i])
  }

  /** What a request may add to the log about sessions: it slides its own, and opens at most one, last. */
  predicate LogDerived(o: Out, now: int, q: Request, nonce: string, r: Out) {
    && |o.db.log| <= |r.db.log|
    && (forall i | |o.db.log| <= i < |r.db.log| && r.db.log[i].Login? ::
          (q.PostLogin? || q.OidcReturn?) && i == |r.db.log| - 1
          && r.db.log[i].csrf == nonce && r.db.log[i].at == now)
    && (forall i | |o.db.log| <= i < |r.db.log| && r.db.log[i].Slide? ::
          BehindGate(q) && o.values.user == Some(r.db.log[i].user) && o.values.csrf == r.db.log[i].csrf
          && r.db.log[i].at == now)
    && (forall i | |o.db.log| <= i < |r.db.log| && r.db.log[i].PasswordOk? :: r.db.log[i].at == now)
  }

  ghost predicate Traced(o: Out, now: int, q: Request, nonce: string, r: Out) {
    Derived(o, now, q, nonce, r) && LogDerived(o, now, q, nonce, r)
  }

  /** What every cookie of a user carries. */
  predicate Stamped(v: Values) {
    v.user.Some? ==> v.csrf != "" && v.created.Some?
  }

  predicate NoSessionEvent(e: Event) {
    !e.Login? && !e.Slide? && !e.PasswordOk?
  }

  /** The tables have moved on within the request, and nothing was said about sessions yet. */
  predicate Midway(o: Out, m: Out) {
    && m.values == o.values && m.saved == [] && o.db.log <= m.db.log
    && forall i | |o.db.log| <= i < |m.db.log| :: NoSessionEvent(m.db.log[i])
  }

  lemma OpenedTraced(o: Out, m: Out, now: int, q: Request, nonce: string, user: int, path: LoginPath)
    requires Midway(o, m) && user in m.db.users && (q.PostLogin? || q.OidcReturn?)
    ensures Traced(o, now, q, nonce, CompleteLogin(m, now, user, nonce, path))
  {
  }

  lemma AwaitTraced(o: Out, m: Out, now: int, q: Request, nonce: string, user: int)
    requires Midway(o, m)
    ensures Traced(o, now, q, nonce, AwaitSecondFactor(m, now, user))
  {
  }

  /** Nothing saved, or the session as it came. */
  lemma UnchangedTraced(o: Out, m: Out, now: int, q: Request, nonce: string)
    requires Midway(o, m)
    ensures Traced(o, now, q, nonce, m) && Traced(o, now, q, nonce, Save(m))
  {
  }

  lemma BaseTraced(o: Out, now: int, q: Request, nonce: string)
    requires Stamped(o.values) && o.saved == []
    ensures Traced(o, now, q, nonce, Base(o, nonce))
  {
  }

  lemma LoginTraced(env: Env, o: Out, now: int, q: Request, nonce: string)
    requires Stamped(o.values) && o.saved == [] && q.PostLogin?
    ensures Traced(o, now, q, nonce, LoginPost(env, o, now, q.form, nonce))
  {
    if !env.cfg.localLogin || q.form.blocked || !CsrfOk(o.values, q.form.csrf) {
      UnchangedTraced(o, o, now, q, nonce);
      BaseTraced(o, now, q, nonce);
    } else if PendingUser(o.values, now) > 0 {
      SecondFactorTraced(env, o, now, q, nonce);
    } else {
      PasswordTraced(env, o, now, q, nonce);
    }
  }

  lemma SecondFactorTraced(env: Env, o: Out, now: int, q: Request, nonce: string)
    requires o.saved == [] && q.PostLogin? && PendingUser(o.values, now) > 0
    ensures Traced(o, now, q, nonce, SecondFactorPost(env, o, now, q.form, nonce))
  {
    var f, user := q.form, PendingUser(o.values, now);
    if user !in o.db.users || !o.db.users[user].active || !o.db.users[user].totpEnabled {
    } else if TriesTotp(env, o.db.users[user], f.code, now) {
      OpenedTraced(o, Write(o, SetTOTPLastStep(o.db, user, Unix(now) / 30)), now, q, nonce, user, BySecondFactor);
    } else if f.pick.Some? && CodeMatches(env, o.db, user, f.recovery, f.pick.value) {
      OpenedTraced(o, Write(o, UseRecoveryCode(o.db, f.pick.value)), now, q, nonce, user, BySecondFactor);
    } else {
      UnchangedTraced(o, o, now, q, nonce);
    }
  }

  lemma PasswordTraced(env: Env, o: Out, now: int, q: Request, nonce: string)
    requires o.saved == [] && q.PostLogin?
    ensures Traced(o, now, q, nonce, PasswordPost(env, o, now, q.form, nonce))
  {
    UnchangedTraced(o, o, now, q, nonce);
    var found := GetUserByUsername(o.db, TrimSpace(q.form.name));
    if found.Some? {
      var user, row := found.value, o.db.users[found.value];
      var rehashed := if NeedsPasswordRehash(env.crypto, row.hash)
                      then Write(o, UpdateUserPassword(o.db, user, q.form.newHash)) else o;
      OpenedTraced(o, rehashed, now, q, nonce, user, ByPassword);
      AwaitTraced(o, rehashed, now, q, nonce, user);
    }
  }

  lemma OidcTraced(env: Env, o: Out, now: int, q: Request, nonce: string)
    requires o.saved == [] && q.OidcReturn?
    ensures Traced(o, now, q, nonce, OidcCallback(env, o, now, q.claims, nonce))
  {
    UnchangedTraced(o, o, now, q, nonce);
    if q.claims.Some? {
      var name := q.claims.value.name;
      var upserted := UpsertOIDCUser(o.db, name, OidcRole(env.cfg, q.claims.value.groups), env.cfg.syncRole);
      if upserted.Ok? {
        var m := Write(o, upserted.value);
        assert upserted.value.log == o.db.log;
        UnchangedTraced(o, m, now, q, nonce);
        var found := GetUserByUsername(m.db, name);
        if found.Some? {
          OpenedTraced(o, m, now, q, nonce, found.value, ByOidc);
        }
      }
    }
  }

  lemma PublicTraced(env: Env, o: Out, decoded: bool, now: int, q: Request, nonce: string)
    requires Stamped(o.values) && o.saved == []
    requires q.PublicPage? || q.PostLogout? || q.ApiGetSession? || q.ApiDeleteSession? || q.PostForgot?
    ensures Traced(o, now, q, nonce, Serve(env, o, decoded, now, q, nonce))
  {
  }

  lemma ResetTraced(env: Env, o: Out, now: int, q: Request, nonce: string)
    requires Stamped(o.values) && o.saved == [] && q.PostReset?
    ensures Traced(o, now, q, nonce, ResetPasswordPost(env, o, now, q.reset, nonce))
  {
  }

  lemma GateTraced(o: Out, decoded: bool, now: int, q: Request, nonce: string)
    requires Stamped(o.values) && o.saved == [] && BehindGate(q)
    ensures Traced(o, now, q, nonce, Gate(o, decoded, now).out)
    ensures Gate(o, decoded, now).admitted ==>
      var g := Gate(o, decoded, now).out;
      g.db == Note(o.db, Slide(o.values.user.value, now, o.values.csrf)) && g.saved == [g.values]
      && g.values == o.values.(last := Some(Unix(now))) && Accepts(o.db, o.values, now) && o.values.user.Some?
  {
  }

  /** Behind the gate: cookies continue the session, and the log says nothing about sessions. */
  predicate KeepsSession(o: Out, now: int, q: Request, nonce: string, r: Out) {
    && Derived(o, now, q, nonce, r) && o.db.log <= r.db.log
    && forall i | |o.db.log| <= i < |r.db.log| :: NoSessionEvent(r.db.log[i])
  }

  lemma AdmittedTraced(env: Env, o: Out, now: int, q: Request, nonce: string)
    requires BehindGate(q) && Accepts(o.db, o.values, now) && Stamped(o.values) && o.saved == [o.values]
    ensures KeepsSession(o, now, q, nonce, ServeAdmitted(env, o, now, q, nonce))
  {
    match q
    case PostUsers(_, _) => AdminTraced(env, o, now, q, nonce);
    case PostTempUser(_, _) => AdminTraced(env, o, now, q, nonce);
    case PostProfile(_, _) => ProfileTraced(env, o, now, q, nonce);
    case _ => TwoFactorTraced(env, o, now, q, nonce);
  }

  lemma AdminTraced(env: Env, o: Out, now: int, q: Request, nonce: string)
    requires (q.PostUsers? || q.PostTempUser?) && Accepts(o.db, o.values, now) && o.saved == [o.values]
    ensures KeepsSession(o, now, q, nonce, ServeAdmitted(env, o, now, q, nonce))
  {
  }

  lemma ProfileTraced(env: Env, o: Out, now: int, q: Request, nonce: string)
    requires q.PostProfile? && Accepts(o.db, o.values, now) && o.saved == [o.values]
    ensures KeepsSession(o, now, q, nonce, ServeAdmitted(env, o, now, q, nonce))
  {
  }

  lemma TwoFactorTraced(env: Env, o: Out, now: int, q: Request, nonce: string)
    requires q.Page? || q.Start2FA? || q.Confirm2FA? || q.Disable2FA?
    requires Accepts(o.db, o.values, now) && Stamped(o.values) && o.saved == [o.values]
    ensures KeepsSession(o, now, q, nonce, ServeAdmitted(env, o, now, q, nonce))
  {
    if q.Confirm2FA? {
      var self := o.values.user.value;
      AddCodesFrame(EnableUserTOTP(o.db, self, o.db.users[self].totpPending)
                    .(codes := CodesNotOf(o.db.codes, self)), self, q.hashes);
    }
  }

  /** Every cookie of a response is wiped, continues the presented session, or was opened by this login. */
  lemma ServeTraced(env: Env, o: Out, decoded: bool, now: int, q: Request, nonce: string)
    requires Stamped(o.values) && o.saved == []
    ensures Traced(o, now, q, nonce, Serve(env, o, decoded, now, q, nonce))
  {
    match q
    case PostLogin(form) => LoginTraced(env, o, now, q, nonce);
    case OidcReturn(claims) => OidcTraced(env, o, now, q, nonce);
    case PostReset(reset) => ResetTraced(env, o, now, q, nonce);
    case PublicPage => PublicTraced(env, o, decoded, now, q, nonce);
    case PostLogout(_) => PublicTraced(env, o, decoded, now, q, nonce);
    case PostForgot(_) => PublicTraced(env, o, decoded, now, q, nonce);
    case ApiGetSession => PublicTraced(env, o, decoded, now, q, nonce);
    case ApiDeleteSession(_) => PublicTraced(env, o, decoded, now, q, nonce);
    case _ =>
      GateTraced(o, decoded, now, q, nonce);
      var gated := Gate(o, decoded, now);
      if gated.admitted {
        AdmittedTraced(env, gated.out, now, q, nonce);
        ThroughGate(o, gated.out, now, q, nonce, ServeAdmitted(env, gated.out, now, q, nonce));
      }
  }

  lemma ThroughGate(o: Out, g: Out, now: int, q: Request, nonce: string, r: Out)
    requires BehindGate(q) && Stamped(o.values) && Accepts(o.db, o.values, now) && Accepts(g.db, g.values, now)
    requires g.db == Note(o.db, Slide(o.values.user.value, now, o.values.csrf))
    requires g.values == o.values.(last := Some(Unix(now)))
    requires KeepsSession(g, now, q, nonce, r)
    ensures Traced(o, now, q, nonce, r)
  {
    forall i | 0 <= i < |r.saved|
      ensures DerivedCookie(o, now, q, nonce, r, r.saved[i])
    {
      assert DerivedCookie(g, now, q, nonce, r, r.saved[i]);
    }
    assert r.db.log[|o.db.log|] == g.db.log[|o.db.log|];
  }

  // ---------- exactly which requests revoke ----------

  predicate Admitted(o: Out, decoded: bool, now: int, csrf: string) {
    decoded && Accepts(o.db, o.values, now) && CsrfOk(o.values, csrf)
  }

  predicate AdmittedAdmin(o: Out, decoded: bool, now: int, csrf: string) {
    Admitted(o, decoded, now, csrf) && RoleAllows(o.db.users[o.values.user.value].role, "admin")
  }

  ghost predicate ResetCompletes(env: Env, o: Out, now: int, f: ResetForm, nonce: string, user: int) {
    var found := GetValidPasswordResetToken(o.db, env.crypto.sha256(TrimSpace(f.token)), now);
    && CsrfOk(Base(o, nonce).values, f.csrf)
    && found.Some? && o.db.tokens[found.value].owner == user
    && NewPasswordOk(f.newPassword, f.confirm)
    && user in o.db.users && o.db.users[user].active
  }

  predicate ActionRevokes(db: Db, self: int, act: UsersAction, user: int) {
    match act
    case ChangeRole(uid, role) => uid == user && uid != self && ValidRole(role)
    case ToggleActive(uid) => uid == user && uid != self && uid in db.users && db.users[uid].active
    case ResetPassword(uid, newPassword, _) => uid == user && PasswordAllowed(TrimSpace(newPassword))
    case _ => false
  }

  /** The requests that end every session `user` has: read off the request, the presented session and the row. */
  ghost predicate Revokes(env: Env, o: Out, decoded: bool, now: int, q: Request, nonce: string, user: int) {
    match q
    case PostLogout(csrf) => CsrfOk(o.values, csrf) && o.values.user == Some(user)
    case PostReset(f) => ResetCompletes(env, o, now, f, nonce, user)
    case PostUsers(csrf, act) =>
      AdmittedAdmin(o, decoded, now, csrf) && ActionRevokes(o.db, o.values.user.value, act, user)
    case PostProfile(csrf, change) =>
      Admitted(o, decoded, now, csrf) && o.values.user == Some(user) && user in o.db.users
      && PasswordChangeAccepted(env, o.db.users[user], change)
    case _ => false
  }

  predicate Deletes(o: Out, decoded: bool, now: int, q: Request, user: int) {
    q.PostUsers? && AdmittedAdmin(o, decoded, now, q.csrf) && q.act == Delete(user) && o.values.user != Some(user)
  }

  ghost predicate EpochMoved(before: Db, after: Db, user: int, revoked: bool, deleted: bool) {
    && user in before.users
    && (user in after.users <==> !deleted)
    && (user in after.users ==> after.users[user].epoch == before.users[user].epoch + if revoked then 1 else 0)
  }

  lemma LoginEpoch(env: Env, o: Out, now: int, f: LoginForm, nonce: string, user: int)
    requires user in o.db.users
    ensures EpochMoved(o.db, LoginPost(env, o, now, f, nonce).db, user, false, false)
  {
    if PendingUser(o.values, now) > 0 {
      FactorEpoch(env, o, now, f, nonce, user);
    }
  }

  lemma FactorEpoch(env: Env, o: Out, now: int, f: LoginForm, nonce: string, user: int)
    requires user in o.db.users && PendingUser(o.values, now) > 0
    ensures EpochMoved(o.db, SecondFactorPost(env, o, now, f, nonce).db, user, false, false)
  {
  }

  lemma OidcEpoch(env: Env, o: Out, now: int, claims: Option<Claims>, nonce: string, user: int)
    requires user in o.db.users && user < o.db.nextUser
    ensures EpochMoved(o.db, OidcCallback(env, o, now, claims, nonce).db, user, false, false)
  {
    if claims.Some? {
      var name, role := claims.value.name, OidcRole(env.cfg, claims.value.groups);
      UpsertEpoch(o.db, name, role, env.cfg.syncRole, user);
      var upserted := UpsertOIDCUser(o.db, name, role, env.cfg.syncRole);
      if upserted.Ok? {
        OidcLoginEpoch(Write(o, upserted.value), now, name, nonce);
      }
    }
  }

  lemma UpsertEpoch(db: Db, name: string, role: string, sync: bool, user: int)
    requires user in db.users && user < db.nextUser
    ensures var r := UpsertOIDCUser(db, name, role, sync); r.Ok? ==> EpochMoved(db, r.value, user, false, false)
  {
  }

  lemma OidcLoginEpoch(o: Out, now: int, name: string, nonce: string)
    ensures OidcLogin(o, now, name, nonce).db.users == o.db.users
  {
  }

  lemma ResetEpoch(env: Env, o: Out, now: int, f: ResetForm, nonce: string, user: int)
    requires user in o.db.users
    ensures EpochMoved(o.db, ResetPasswordPost(env, o, now, f, nonce).db, user,
                       ResetCompletes(env, o, now, f, nonce, user), false)
  {
  }

  lemma UsersActionEpoch(db: Db, self: int, act: UsersAction, user: int)
    requires user in db.users && user < db.nextUser
    ensures EpochMoved(db, UsersActionOn(db, self, act), user,
                       ActionRevokes(db, self, act, user), act == Delete(user) && user != self)
  {
  }

  lemma AdmittedEpoch(env: Env, o: Out, now: int, q: Request, nonce: string, user: int)
    requires BehindGate(q) && Accepts(o.db, o.values, now) && user in o.db.users && user < o.db.nextUser
    ensures EpochMoved(o.db, ServeAdmitted(env, o, now, q, nonce).db, user,
                       Revokes(env, o, true, now, q, nonce, user), Deletes(o, true, now, q, user))
  {
    match q
    case PostUsers(_, act) => UsersActionEpoch(o.db, o.values.user.value, act, user);
    case PostProfile(csrf, change) => ProfileEpoch(env, o, now, csrf, change, user);
    case PostTempUser(csrf, temp) => TempEpoch(o, now, csrf, temp, user);
    case _ => TwoFactorEpoch(env, o, now, q, nonce, user);
  }

  lemma ProfileEpoch(env: Env, o: Out, now: int, csrf: string, change: ProfileAction, user: int)
    requires Accepts(o.db, o.values, now) && user in o.db.users
    ensures EpochMoved(o.db, ProfilePost(env, o, now, csrf, change).db, user,
                       CsrfOk(o.values, csrf) && o.values.user == Some(user)
                       && PasswordChangeAccepted(env, o.db.users[user], change), false)
  {
  }

  lemma TempEpoch(o: Out, now: int, csrf: string, temp: TempForm, user: int)
    requires Accepts(o.db, o.values, now) && user in o.db.users && user < o.db.nextUser
    ensures EpochMoved(o.db, AdminUsersTempPost(o, now, csrf, temp).db, user, false, false)
  {
  }

  lemma TwoFactorEpoch(env: Env, o: Out, now: int, q: Request, nonce: string, user: int)
    requires Accepts(o.db, o.values, now) && user in o.db.users
    requires q.Page? || q.Start2FA? || q.Confirm2FA? || q.Disable2FA?
    ensures EpochMoved(o.db, ServeAdmitted(env, o, now, q, nonce).db, user, false, false)
  {
    if q.Confirm2FA? {
      var self := o.values.user.value;
      AddCodesFrame(EnableUserTOTP(o.db, self, o.db.users[self].totpPending)
                    .(codes := CodesNotOf(o.db.codes, self)), self, q.hashes);
    }
  }

  lemma PublicEpoch(env: Env, o: Out, decoded: bool, now: int, q: Request, nonce: string, user: int)
    requires 1 <= user && user in o.db.users
    requires q.PublicPage? || q.PostLogout? || q.PostForgot? || q.ApiGetSession? || q.ApiDeleteSession?
    ensures EpochMoved(o.db, Serve(env, o, decoded, now, q, nonce).db, user,
                       Revokes(env, o, decoded, now, q, nonce, user), false)
  {
  }

  lemma GatedEpoch(env: Env, o: Out, decoded: bool, now: int, q: Request, nonce: string, user: int)
    requires BehindGate(q) && user in o.db.users && user < o.db.nextUser
    ensures EpochMoved(o.db, ServeGated(env, o, decoded, now, q, nonce).db, user,
                       Revokes(env, o, decoded, now, q, nonce, user), Deletes(o, decoded, now, q, user))
  {
    var gated := Gate(o, decoded, now);
    if gated.admitted {
      AdmittedEpoch(env, gated.out, now, q, nonce, user);
    }
  }

  /**
    A request moves the epoch of a row by one exactly when it revokes, takes the row
    away exactly when it deletes it, and otherwise leaves the epoch as it is. In
    particular no login, role sync or DELETE of the API session revokes anything.
   */
  lemma EpochExact(env: Env, o: Out, decoded: bool, now: int, q: Request, nonce: string, user: int)
    requires 1 <= user < o.db.nextUser && user in o.db.users
    ensures EpochMoved(o.db, Serve(env, o, decoded, now, q, nonce).db, user,
                       Revokes(env, o, decoded, now, q, nonce, user), Deletes(o, decoded, now, q, user))
  {
    match q
    case PostLogin(form) => LoginEpoch(env, o, now, form, nonce, user);
    case OidcReturn(claims) => OidcEpoch(env, o, now, claims, nonce, user);
    case PostReset(reset) => ResetEpoch(env, o, now, reset, nonce, user);
    case _ =>
      if BehindGate(q) {
        GatedEpoch(env, o, decoded, now, q, nonce, user);
      } else {
        PublicEpoch(env, o, decoded, now, q, nonce, user);
      }
  }

  /** The expiry sweep deactivates and revokes exactly the overdue temporary users, and touches nothing else. */
  lemma SweepExact(db: Db, now: int, user: int)
    requires user in db.users
    ensures var row, after := db.users[user], ExpireOverdueTempUsers(db, now);
            && after == db.(users := after.users) && after.users.Keys == db.users.Keys
            && after.users[user] == if row.temporary && row.active && row.expires.Some? && row.expires.value < now
                                    then row.(active := false, epoch := row.epoch + 1) else row
  {
  }
}
