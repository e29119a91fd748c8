/**
  Roles over whole runs: who may hold which, what single sign-on may touch, and when
  an active administrator remains.
 */
module Administration {
  import opened Common
  import opened Text
  import opened Accounts
  import opened Passwords
  import opened Sessions
  import opened Requests
  import opened Handlers
  import opened Lineage
  import opened Runs

  // ---------- single sign-on ----------

  /**
    Single sign-on leaves every local row as it is, adds at most a row of its own,
    and of an OIDC row it may change the role, when roles are synchronised.
   */
  lemma OidcTouchesOwnRows(env: Env, o: Out, now: int, claims: Option<Claims>, nonce: string, user: int)
    requires user in o.db.users && user < o.db.nextUser
    ensures var after := OidcCallback(env, o, now, claims, nonce).db;
            && user in after.users
            && (o.db.users[user].source == LOCAL ==> after.users[user] == o.db.users[user])
            && after.users[user].(role := o.db.users[user].role) == o.db.users[user]
            && (after.users[user].role != o.db.users[user].role ==>
                  env.cfg.syncRole && claims.Some? && o.db.users[user].name == claims.value.name
                  && after.users[user].role == OidcRole(env.cfg, claims.value.groups))
  {
    if claims.Some? {
      var name, role := claims.value.name, OidcRole(env.cfg, claims.value.groups);
      var upserted := UpsertOIDCUser(o.db, name, role, env.cfg.syncRole);
      if upserted.Ok? {
        UpsertTouchesOwnRows(o.db, name, role, env.cfg.syncRole, user);
        OidcLoginKeepsRows(Write(o, upserted.value), now, name, nonce);
      }
    }
  }

  lemma OidcLoginKeepsRows(o: Out, now: int, name: string, nonce: string)
    ensures OidcLogin(o, now, name, nonce).db.users == o.db.users
  {
  }

  lemma UpsertTouchesOwnRows(db: Db, name: string, role: string, sync: bool, user: int)
    requires user in db.users && user < db.nextUser && UpsertOIDCUser(db, name, role, sync).Ok?
    ensures var after := UpsertOIDCUser(db, name, role, sync).value;
            && user in after.users
            && (after.users[user] == db.users[user]
                || (after.users[user] == db.users[user].(role := role) && sync
                    && db.users[user].name == name && db.users[user].source == OIDC))
  {
  }

  /** The mapped role is the best of those the groups confer; groups are compared whole, and "" confers nothing. */
  lemma MappedRoleIsBest(cfg: Config, groups: set<string>)
    ensures var r := MapGroupsToRole(cfg, groups);
            && (r == "" <==> !((cfg.groupAdmin != "" && cfg.groupAdmin in groups)
                               || (cfg.groupManager != "" && cfg.groupManager in groups)
                               || (cfg.groupViewer != "" && cfg.groupViewer in groups)))
            && (cfg.groupAdmin != "" && cfg.groupAdmin in groups ==> RoleAllows(r, "admin"))
            && (cfg.groupManager != "" && cfg.groupManager in groups ==> RoleAllows(r, "manager"))
            && (RoleAllows(r, "admin") ==> cfg.groupAdmin in groups)
            && (RoleAllows(r, "manager") ==> cfg.groupAdmin in groups || cfg.groupManager in groups)
  {
  }

  // ---------- the sentinel hash of OIDC rows ----------

  /** The requests that give a row with the sentinel a password: an admin's reset, and a mailed one. */
  ghost predicate GivesPassword(env: Env, o: Out, decoded: bool, now: int, q: Request, nonce: string, user: int) {
    || (q.PostReset? && ResetCompletes(env, o, now, q.reset, nonce, user))
    || (q.PostUsers? && AdmittedAdmin(o, decoded, now, q.csrf) && q.act.ResetPassword? && q.act.uid == user
        && PasswordAllowed(TrimSpace(q.act.newPassword)))
  }

  predicate Sentinel(db: Db, user: int) {
    user in db.users && db.users[user].hash == OIDC_SENTINEL
  }

  /** The hash a request would store is not the sentinel. */
  predicate RealHash(q: Request) {
    && (q.PostReset? ==> q.reset.newHash != OIDC_SENTINEL)
    && (q.PostUsers? && q.act.ResetPassword? ==> q.act.newHash != OIDC_SENTINEL)
  }

  ghost predicate HashMoved(after: Db, user: int, given: bool) {
    user in after.users ==> (after.users[user].hash != OIDC_SENTINEL <==> given)
  }

  lemma LoginHash(env: Env, o: Out, now: int, f: LoginForm, nonce: string, user: int)
    requires Sentinel(o.db, user)
    ensures HashMoved(LoginPost(env, o, now, f, nonce).db, user, false)
  {
    SentinelNeverVerifies(env.crypto, f.password);
    if PendingUser(o.values, now) > 0 {
      SecondFactorKeepsHash(env, o, now, f, nonce, user);
    }
  }

  lemma SecondFactorKeepsHash(env: Env, o: Out, now: int, f: LoginForm, nonce: string, user: int)
    requires user in o.db.users && PendingUser(o.values, now) > 0
    ensures var after := SecondFactorPost(env, o, now, f, nonce).db;
            user in after.users && after.users[user].hash == o.db.users[user].hash
  {
  }

  lemma OidcHash(env: Env, o: Out, now: int, claims: Option<Claims>, nonce: string, user: int)
    requires Sentinel(o.db, user) && user < o.db.nextUser
    ensures HashMoved(OidcCallback(env, o, now, claims, nonce).db, user, false)
  {
    OidcTouchesOwnRows(env, o, now, claims, nonce, user);
  }

  lemma ResetHash(env: Env, o: Out, now: int, f: ResetForm, nonce: string, user: int)
    requires Sentinel(o.db, user) && f.newHash != OIDC_SENTINEL
    ensures HashMoved(ResetPasswordPost(env, o, now, f, nonce).db, user, ResetCompletes(env, o, now, f, nonce, user))
  {
  }

  lemma ActionHash(db: Db, self: int, act: UsersAction, user: int)
    requires Sentinel(db, user) && user < db.nextUser && (act.ResetPassword? ==> act.newHash != OIDC_SENTINEL)
    ensures HashMoved(UsersActionOn(db, self, act), user,
                      act.ResetPassword? && act.uid == user && PasswordAllowed(TrimSpace(act.newPassword)))
  {
  }

  lemma AdmittedHash(env: Env, o: Out, now: int, q: Request, nonce: string, user: int)
    requires BehindGate(q) && Accepts(o.db, o.values, now) && RealHash(q)
    requires Sentinel(o.db, user) && user < o.db.nextUser
    ensures HashMoved(ServeAdmitted(env, o, now, q, nonce).db, user, GivesPassword(env, o, true, now, q, nonce, user))
  {
    if q.PostUsers? {
      ActionHash(o.db, o.values.user.value, q.act, user);
    }
    if q.PostProfile? && q.change.ChangePassword? {
      SentinelNeverVerifies(env.crypto, q.change.current);
    }
    if q.Confirm2FA? {
      var self := o.values.user.value;
      AddCodesFrame(EnableUserTOTP(o.db, self, o.db.users[self].totpPending)
                    .(codes := CodesNotOf(o.db.codes, self)), self, q.hashes);
    }
  }

  lemma PublicHash(env: Env, o: Out, decoded: bool, now: int, q: Request, nonce: string, user: int)
    requires Sentinel(o.db, user)
    requires q.PublicPage? || q.PostLogout? || q.PostForgot? || q.ApiGetSession? || q.ApiDeleteSession?
    ensures HashMoved(Serve(env, o, decoded, now, q, nonce).db, user, false)
  {
  }

  lemma GatedHash(env: Env, o: Out, decoded: bool, now: int, q: Request, nonce: string, user: int)
    requires BehindGate(q) && RealHash(q) && Sentinel(o.db, user) && user < o.db.nextUser
    ensures HashMoved(ServeGated(env, o, decoded, now, q, nonce).db, user,
                      GivesPassword(env, o, decoded, now, q, nonce, user))
  {
    var gated := Gate(o, decoded, now);
    if gated.admitted {
      AdmittedHash(env, gated.out, now, q, nonce, user);
    }
  }

  /**
    A row with the sentinel keeps it, so that no password verifies, except through
    exactly two requests: an administrator sets a password, or a mailed reset of the
    row completes. No login, rehash or password change of its own does.
   */
  lemma SentinelExact(env: Env, o: Out, decoded: bool, now: int, q: Request, nonce: string, user: int)
    requires RealHash(q) && Sentinel(o.db, user) && user < o.db.nextUser
    ensures HashMoved(Serve(env, o, decoded, now, q, nonce).db, user,
                      GivesPassword(env, o, decoded, now, q, nonce, user))
  {
    match q
    case PostLogin(form) => LoginHash(env, o, now, form, nonce, user);
    case OidcReturn(claims) => OidcHash(env, o, now, claims, nonce, user);
    case PostReset(reset) => ResetHash(env, o, now, reset, nonce, user);
    case _ =>
      if BehindGate(q) {
        GatedHash(env, o, decoded, now, q, nonce, user);
      } else {
        PublicHash(env, o, decoded, now, q, nonce, user);
      }
  }

  // ---------- roles ----------

  /** In every run every row's role is one of the three. */
  lemma RolesStayValid(env: Env, start: World, acts: seq<Action>, user: int)
    requires Init(start) && Possible(env, start, acts) && user in Run(env, start, acts).db.users
    ensures ValidRole(Run(env, start, acts).db.users[user].role)
  {
    InitInv(start);
    RunInv(env, start, acts);
  }

  // ---------- an administrator remains ----------

  predicate IsActiveAdmin(db: Db, user: int) {
    user in db.users && db.users[user].active && db.users[user].role == "admin"
  }

  ghost predicate HasActiveAdmin(db: Db) {
    exists user :: IsActiveAdmin(db, user)
  }

  lemma LoginKeepsAdmin(env: Env, o: Out, now: int, f: LoginForm, nonce: string, user: int)
    requires IsActiveAdmin(o.db, user)
    ensures IsActiveAdmin(LoginPost(env, o, now, f, nonce).db, user)
  {
  }

  lemma OidcKeepsAdmin(env: Env, o: Out, now: int, claims: Option<Claims>, nonce: string, user: int)
    requires IsActiveAdmin(o.db, user) && user < o.db.nextUser && !env.cfg.syncRole
    ensures IsActiveAdmin(OidcCallback(env, o, now, claims, nonce).db, user)
  {
  }

  lemma ResetKeepsAdmin(env: Env, o: Out, now: int, f: ResetForm, nonce: string, user: int)
    requires IsActiveAdmin(o.db, user)
    ensures IsActiveAdmin(ResetPasswordPost(env, o, now, f, nonce).db, user)
  {
  }

  /** No action an admin may take on the user list touches the admin's own standing. */
  lemma ActorStaysAdmin(db: Db, self: int, act: UsersAction)
    requires IsActiveAdmin(db, self) && self < db.nextUser
    ensures IsActiveAdmin(UsersActionOn(db, self, act), self)
  {
  }

  lemma AdmittedKeepsAdmin(env: Env, o: Out, now: int, q: Request, nonce: string, user: int)
    requires BehindGate(q) && !q.PostUsers? && Accepts(o.db, o.values, now)
    requires IsActiveAdmin(o.db, user) && user < o.db.nextUser
    ensures IsActiveAdmin(ServeAdmitted(env, o, now, q, nonce).db, user)
  {
    if q.Confirm2FA? {
      var self := o.values.user.value;
      AddCodesFrame(EnableUserTOTP(o.db, self, o.db.users[self].totpPending)
                    .(codes := CodesNotOf(o.db.codes, self)), self, q.hashes);
    }
  }

  lemma UsersPostKeepsAdmin(o: Out, now: int, csrf: string, act: UsersAction, user: int)
    requires UsersInv(o.db) && Accepts(o.db, o.values, now) && IsActiveAdmin(o.db, user)
    ensures HasActiveAdmin(UsersPost(o, now, csrf, act).db)
  {
    var self := o.values.user.value;
    assert IsActiveAdmin(o.db, user);
    if RoleAllows(o.db.users[self].role, "admin") {
      ActorStaysAdmin(o.db, self, act);
      assert IsActiveAdmin(UsersActionOn(o.db, self, act), self);
    }
  }

  lemma ServeKeepsAdmin(env: Env, o: Out, decoded: bool, now: int, q: Request, nonce: string, user: int)
    requires UsersInv(o.db) && IsActiveAdmin(o.db, user) && !(q.OidcReturn? && env.cfg.syncRole)
    ensures HasActiveAdmin(Serve(env, o, decoded, now, q, nonce).db)
  {
    match q
    case PostLogin(form) => LoginKeepsAdmin(env, o, now, form, nonce, user);
    case OidcReturn(claims) => OidcKeepsAdmin(env, o, now, claims, nonce, user);
    case PostReset(reset) => ResetKeepsAdmin(env, o, now, reset, nonce, user);
    case _ =>
      if BehindGate(q) {
        GatedKeepsAdmin(env, o, decoded, now, q, nonce, user);
      } else {
        PublicKeepsAdmin(env, o, decoded, now, q, nonce, user);
      }
  }

  lemma PublicKeepsAdmin(env: Env, o: Out, decoded: bool, now: int, q: Request, nonce: string, user: int)
    requires IsActiveAdmin(o.db, user)
    requires q.PublicPage? || q.PostLogout? || q.PostForgot? || q.ApiGetSession? || q.ApiDeleteSession?
    ensures IsActiveAdmin(Serve(env, o, decoded, now, q, nonce).db, user)
  {
  }

  lemma GatedKeepsAdmin(env: Env, o: Out, decoded: bool, now: int, q: Request, nonce: string, user: int)
    requires UsersInv(o.db) && BehindGate(q) && IsActiveAdmin(o.db, user)
    ensures HasActiveAdmin(ServeGated(env, o, decoded, now, q, nonce).db)
  {
    var g := Gate(o, decoded, now);
    assert IsActiveAdmin(g.out.db, user);
    if g.admitted {
      if q.PostUsers? {
        UsersPostKeepsAdmin(g.out, now, q.csrf, q.act, user);
      } else {
        AdmittedKeepsAdmin(env, g.out, now, q, nonce, user);
      }
    }
  }

  /** The two steps that may take the last administrator away. */
  predicate MayDemote(env: Env, a: Action) {
    a.SweepTempUsers? || (a.Answer? && a.q.OidcReturn? && env.cfg.syncRole)
  }

  predicate NoneMayDemote(env: Env, acts: seq<Action>) {
    forall k | 0 <= k < |acts| :: !MayDemote(env, acts[k])
  }

  lemma HeadMayNotDemote(env: Env, acts: seq<Action>)
    requires acts != [] && NoneMayDemote(env, acts)
    ensures !MayDemote(env, acts[0]) && NoneMayDemote(env, acts[1..])
  {
  }

  /** In runs without expiry and without role synchronisation an active administrator always remains. */
  lemma {:induction false} AdminRemains(env: Env, w: World, acts: seq<Action>)
    requires WorldInv(w) && Possible(env, w, acts) && HasActiveAdmin(w.db)
    requires NoneMayDemote(env, acts)
    ensures HasActiveAdmin(Run(env, w, acts).db)
    decreases |acts|
  {
    if acts != [] {
      HeadMayNotDemote(env, acts);
      StepKeepsAdmin(env, w, acts[0]);
      AdminRemains(env, Step(env, w, acts[0]), acts[1..]);
    }
  }

  lemma StepKeepsAdmin(env: Env, w: World, a: Action)
    requires WorldInv(w) && Enabled(env, w, a) && HasActiveAdmin(w.db) && !MayDemote(env, a)
    ensures WorldInv(Step(env, w, a)) && HasActiveAdmin(Step(env, w, a).db)
  {
    StepInv(env, w, a);
    var user :| IsActiveAdmin(w.db, user);
    if a.Answer? {
      ServeKeepsAdmin(env, Arrival(w, a.p), !a.p.Undecodable?, w.now, a.q, a.nonce, user);
    }
  }

  /** After a sweep an active administrator remains exactly when one was not overdue. */
  lemma AdminAfterSweep(db: Db, now: int)
    ensures HasActiveAdmin(ExpireOverdueTempUsers(db, now)) <==>
              exists user :: IsActiveAdmin(db, user) && !Overdue(db.users[user], now)
  {
    var after := ExpireOverdueTempUsers(db, now);
    if HasActiveAdmin(after) {
      var user :| IsActiveAdmin(after, user);
      assert IsActiveAdmin(db, user) && !Overdue(db.users[user], now);
    }
    if user :| IsActiveAdmin(db, user) && !Overdue(db.users[user], now) {
      assert IsActiveAdmin(after, user);
    }
  }

  /** The OIDC row `name` is given another role than admin, and no other row is an active administrator. */
  ghost predicate SyncsAwayLastAdmin(cfg: Config, db: Db, name: string, role: string) {
    && cfg.oidc && cfg.syncRole && ValidRole(role) && role != "admin"
    && exists user :: && IsActiveAdmin(db, user) && db.users[user].name == name && db.users[user].source == OIDC
                      && forall other | IsActiveAdmin(db, other) :: other == user
  }

  /** Role synchronisation takes the last active administrator away in exactly one case. */
  lemma AdminAfterSync(env: Env, o: Out, now: int, claims: Claims, nonce: string)
    requires Inv(o.db) && HasActiveAdmin(o.db)
    ensures !HasActiveAdmin(OidcCallback(env, o, now, Some(claims), nonce).db) <==>
              SyncsAwayLastAdmin(env.cfg, o.db, claims.name, OidcRole(env.cfg, claims.groups))
  {
    var after := OidcCallback(env, o, now, Some(claims), nonce).db;
    var role := OidcRole(env.cfg, claims.groups);
    forall other | IsActiveAdmin(o.db, other)
      ensures IsActiveAdmin(after, other)
              || (env.cfg.oidc && env.cfg.syncRole && ValidRole(role) && role != "admin"
                  && o.db.users[other].name == claims.name && o.db.users[other].source == OIDC)
    {
      OidcTouchesOwnRows(env, o, now, Some(claims), nonce, other);
    }
    if SyncsAwayLastAdmin(env.cfg, o.db, claims.name, role) {
      SyncedAway(env, o, now, claims, nonce);
    }
  }

  lemma SyncedAway(env: Env, o: Out, now: int, claims: Claims, nonce: string)
    requires Inv(o.db) && SyncsAwayLastAdmin(env.cfg, o.db, claims.name, OidcRole(env.cfg, claims.groups))
    ensures !HasActiveAdmin(OidcCallback(env, o, now, Some(claims), nonce).db)
  {
    var after := OidcCallback(env, o, now, Some(claims), nonce).db;
    var role := OidcRole(env.cfg, claims.groups);
    assert GetUserByUsername(o.db, claims.name).Some?;
    var u := GetUserByUsername(o.db, claims.name).value;
    assert after.users == o.db.users[u := o.db.users[u].(role := role)];
    forall other
      ensures !IsActiveAdmin(after, other)
    {
      assert IsActiveAdmin(after, other) ==> IsActiveAdmin(o.db, other);
    }
  }

  // ---------- one table each for what may go wrong ----------

  function OneRow(row: User): Db {
    Db(map[1 := row], 2, map[], 1, map[], 1, [])
  }

  /** The only administrator is a temporary user past its time. */
  lemma SweepMayLeaveNone(now: int)
    ensures var db := OneRow(NewRow("guest", "", "admin", LOCAL, true, Some(now - 1)));
            Inv(db) && HasActiveAdmin(db) && !HasActiveAdmin(ExpireOverdueTempUsers(db, now))
  {
    var db := OneRow(NewRow("guest", "", "admin", LOCAL, true, Some(now - 1)));
    assert IsActiveAdmin(db, 1);
  }

  /** The only administrator signs on with groups that now confer viewer. */
  lemma SyncMayLeaveNone(c: Crypto, now: int, nonce: string)
    ensures var env := Env(c, Config(true, true, "admins", "", "staff", "", true));
            var o := Out(OneRow(NewRow("ann", OIDC_SENTINEL, "admin", OIDC, false, None)), Empty, []);
            && Inv(o.db) && HasActiveAdmin(o.db)
            && !HasActiveAdmin(OidcCallback(env, o, now, Some(Claims("ann", {"staff"})), nonce).db)
  {
    var env := Env(c, Config(true, true, "admins", "", "staff", "", true));
    var o := Out(OneRow(NewRow("ann", OIDC_SENTINEL, "admin", OIDC, false, None)), Empty, []);
    assert IsActiveAdmin(o.db, 1);
    assert "admins" != "staff" by { assert "admins"[0] == 'a'; }
    assert OidcRole(env.cfg, {"staff"}) == "viewer";
    assert "viewer" != "admin" by { assert |"viewer"| == 6; }
    AdminAfterSync(env, o, now, Claims("ann", {"staff"}), nonce);
  }

  function AdminAndOidcUser(): Db {
    Db(map[1 := NewRow("root", "", "admin", LOCAL, false, None),
           2 := NewRow("ann", OIDC_SENTINEL, "viewer", OIDC, false, None)], 3, map[], 1, map[], 1, [])
  }

  lemma AdminResetTakesEffect(env: Env, o: Out, now: int, csrf: string, user: int, password: string, hash: string, nonce: string)
    requires AdmittedAdmin(o, true, now, csrf) && user in o.db.users && PasswordAllowed(TrimSpace(password))
    ensures var after := Serve(env, o, true, now, PostUsers(csrf, ResetPassword(user, password, hash)), nonce).db;
            user in after.users && after.users[user].source == o.db.users[user].source && after.users[user].hash == hash
  {
  }

  lemma AdminAndOidcInv()
    ensures Inv(AdminAndOidcUser()) && Sentinel(AdminAndOidcUser(), 2)
  {
    var db := AdminAndOidcUser();
    assert db.users[1].name != db.users[2].name by { assert |db.users[1].name| == 4 && |db.users[2].name| == 3; }
  }

  /** An administrator sets a password on an OIDC row, and the row verifies it from then on. */
  lemma OidcRowMayGetPassword(env: Env, password: string, hash: string, nonce: string)
    requires PasswordAllowed(TrimSpace(password)) && IsHashOf(env.crypto, hash, TrimSpace(password))
    ensures var o := Out(AdminAndOidcUser(), Values(Some(1), 0, Some(0), Some(0), "token", 0, 0), []);
            var r := Serve(env, o, true, 0, PostUsers("token", ResetPassword(2, password, hash)), nonce);
            && Inv(o.db) && Sentinel(o.db, 2)
            && 2 in r.db.users && r.db.users[2].source == OIDC
            && VerifyPassword(env.crypto, TrimSpace(password), r.db.users[2].hash)
  {
    var o := Out(AdminAndOidcUser(), Values(Some(1), 0, Some(0), Some(0), "token", 0, 0), []);
    AdminAndOidcInv();
    assert AdmittedAdmin(o, true, 0, "token");
    AdminResetTakesEffect(env, o, 0, "token", 2, password, hash, nonce);
    FreshHash(env.crypto, hash, TrimSpace(password));
  }

  // ---------- the API session operations ----------

  /** DELETE /api/v1/session revokes nothing: every cookie minted is accepted after it as before. */
  lemma ApiLogoutRevokesNothing(env: Env, w: World, p: Presented, sent: string, nonce: string, v: Values, later: int)
    requires v in w.minted
    ensures var w' := Step(env, w, Answer(p, ApiDeleteSession(sent), nonce));
            v in w'.minted && (Accepts(w'.db, v, later) <==> Accepts(w.db, v, later))
  {
  }

  /** pending_2fa_expires as a cookie may hold it: missing, a number, or text with the number ParseInt reads from it. */
  datatype Expiry = Missing | Number(n: int) | Written(parsed: int)

  /** pending2FAUserID: text is parsed when there is no number. */
  predicate LoginPagePending(user: int, expiry: Expiry, now: int) {
    var exp := match expiry case Missing => 0 case Number(n) => n case Written(parsed) => parsed;
    user > 0 && !(exp > 0 && Unix(now) > exp)
  }

  /** isPending2FA: text counts as no expiry at all. */
  predicate ApiPending(user: int, expiry: Expiry, now: int) {
    var exp := if expiry.Number? then expiry.n else 0;
    user > 0 && (exp == 0 || Unix(now) <= exp)
  }

  /** A cookie's whole-second expiry, 0 standing for none. */
  lemma ExpiryOfValues(v: Values, now: int)
    ensures PendingUser(v, now) > 0 <==> LoginPagePending(v.pendingUser, Number(v.pendingExpires), now)
    ensures IsPending2FA(v, now) <==> ApiPending(v.pendingUser, Number(v.pendingExpires), now)
    ensures LoginPagePending(v.pendingUser, Number(0), now) <==> LoginPagePending(v.pendingUser, Missing, now)
    ensures ApiPending(v.pendingUser, Number(0), now) <==> ApiPending(v.pendingUser, Missing, now)
  {
  }

  /**
    The two tests differ for exactly two kinds of expiry, both past: a negative number,
    which only the API takes for expired, and a positive number written as text, which
    only the log-in page does.
   */
  lemma PendingDiffersExactly(user: int, expiry: Expiry, now: int)
    ensures LoginPagePending(user, expiry, now) != ApiPending(user, expiry, now) <==>
              user > 0 && ((expiry.Number? && expiry.n < 0 && Unix(now) > expiry.n)
                           || (expiry.Written? && expiry.parsed > 0 && Unix(now) > expiry.parsed))
  {
  }

  /** One expiry of each kind, ten seconds after 1 January 1970. */
  lemma PendingDiffersHere()
    ensures LoginPagePending(1, Number(-1), 10 * SECOND) && !ApiPending(1, Number(-1), 10 * SECOND)
    ensures !LoginPagePending(1, Written(5), 10 * SECOND) && ApiPending(1, Written(5), 10 * SECOND)
  {
  }

  /** Of a minted cookie the API and the log-in page tell the same: it holds a number, and none below zero. */
  lemma PendingAgrees(w: World, v: Values, now: int)
    requires WorldInv(w) && v in w.minted
    ensures v.pendingUser > 0 ==> v.pendingExpires > 0
    ensures IsPending2FA(v, now) <==> PendingUser(v, now) > 0
  {
    assert CookieOk(v, w.db, w.now);
    if v.pendingUser > 0 {
      var at :| PasswordOk(v.pendingUser, at) in w.db.log && 0 <= at <= w.now && v.pendingExpires == Unix(at + PENDING_TTL);
    }
  }

  /** What GET /api/v1/session reports: authenticated exactly for an accepted cookie with no second factor pending. */
  lemma ReportExact(o: Out, decoded: bool, now: int)
    ensures ReportedState(o, decoded, now).SessionAuthenticated? <==>
              decoded && Accepts(o.db, o.values, now) && !IsPending2FA(o.values, now)
    ensures ReportedState(o, decoded, now).SessionAuthenticated? ==>
              o.values.user == Some(ReportedState(o, decoded, now).user)
  {
  }
}
