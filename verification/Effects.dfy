/**
  What every request does to the tables, told row by row from the request, the
  presented session and the row itself, apart from the statements that do it.
 */
module Effects {
  import opened Common
  import opened Text
  import opened Accounts
  import opened Passwords
  import opened Sessions
  import opened Requests
  import opened Handlers
  import opened Lineage
  import opened LoginOutcomes

  // ---------- who is asking ----------

  /** A request behind the gate with an accepted session and its token. */
  predicate Asks(o: Out, decoded: bool, now: int, csrf: string) {
    decoded && Accepts(o.db, o.values, now) && csrf != "" && csrf == o.values.csrf
  }

  predicate AsksFor(o: Out, decoded: bool, now: int, csrf: string, user: int) {
    Asks(o, decoded, now, csrf) && o.values.user == Some(user)
  }

  predicate AdminAsks(o: Out, decoded: bool, now: int, csrf: string) {
    Asks(o, decoded, now, csrf) && o.db.users[o.values.user.value].role == "admin"
  }

  /** The mailed link completes: an unused, unexpired token of this user, and an acceptable password typed twice. */
  ghost predicate ResetGoesThrough(env: Env, o: Out, now: int, f: ResetForm, nonce: string, user: int) {
    && f.csrf != "" && f.csrf == (if o.values.csrf == "" then nonce else o.values.csrf)
    && (exists t :: && t in o.db.tokens && o.db.tokens[t].hash == env.crypto.sha256(TrimSpace(f.token))
                    && !o.db.tokens[t].used && now < o.db.tokens[t].expires && o.db.tokens[t].owner == user)
    && TrimSpace(f.newPassword) == TrimSpace(f.confirm) && PasswordAllowed(TrimSpace(f.newPassword))
    && user in o.db.users && o.db.users[user].active
  }

  // ---------- one row ----------

  /** The row of an existing user after an action on the user list. */
  function RowAfterAction(row: User, user: int, self: int, act: UsersAction): User {
    match act
    case ChangeRole(uid, role) =>
      if uid == user != self && role in {"viewer", "manager", "admin"} then row.(role := role, epoch := row.epoch + 1) else row
    case ToggleActive(uid) =>
      if uid == user != self
      then row.(active := !row.active, epoch := if row.active then row.epoch + 1 else row.epoch) else row
    case ResetPassword(uid, password, newHash) =>
      if uid == user && PasswordAllowed(TrimSpace(password)) then row.(hash := newHash, epoch := row.epoch + 1) else row
    case _ => row
  }

  function RowAfterProfile(env: Env, row: User, change: ProfileAction): User {
    match change
    case UpdateInfo(email, parses) => if email == "" || parses then row.(email := email) else row
    case ChangePassword(current, password, confirm, newHash) =>
      if VerifyPassword(env.crypto, current, row.hash) && TrimSpace(password) == TrimSpace(confirm)
         && PasswordAllowed(TrimSpace(password))
      then row.(hash := newHash, epoch := row.epoch + 1) else row
    case _ => row
  }

  /** The row of an existing user after a request: every field of it. */
  ghost function RowAfter(env: Env, o: Out, decoded: bool, now: int, q: Request, nonce: string, user: int): User
    requires user in o.db.users
  {
    var row := o.db.users[user];
    match q
    case PostLogin(f) =>
      if !FormReady(env, o, f) then row
      else if FactorDue(o.values, now) then
        if user == o.values.pendingUser && row.active && row.totpEnabled && CodeGood(env, row, f.code, now)
        then row.(totpLastStep := now / NANOS / 30) else row
      else if PasswordGood(env, o.db, user, f) && NeedsPasswordRehash(env.crypto, row.hash)
      then row.(hash := f.newHash) else row
    case OidcReturn(claims) =>
      if claims.Some? && env.cfg.oidc && env.cfg.syncRole && row.name == claims.value.name && row.source == "oidc"
         && OidcRole(env.cfg, claims.value.groups) in {"viewer", "manager", "admin"}
      then row.(role := OidcRole(env.cfg, claims.value.groups)) else row
    case PostLogout(csrf) =>
      if csrf != "" && csrf == o.values.csrf && o.values.user == Some(user) then row.(epoch := row.epoch + 1) else row
    case PostReset(f) =>
      if ResetGoesThrough(env, o, now, f, nonce, user) then row.(hash := f.newHash, epoch := row.epoch + 1) else row
    case PostUsers(csrf, act) =>
      if AdminAsks(o, decoded, now, csrf) then RowAfterAction(row, user, o.values.user.value, act) else row
    case PostProfile(csrf, change) =>
      if AsksFor(o, decoded, now, csrf, user) then RowAfterProfile(env, row, change) else row
    case Start2FA(csrf, secret) =>
      if AsksFor(o, decoded, now, csrf, user) && !row.totpEnabled then row.(totpPending := secret) else row
    case Confirm2FA(csrf, code, _) =>
      if AsksFor(o, decoded, now, csrf, user) && !row.totpEnabled && row.totpPending != ""
         && env.crypto.totp(TrimSpace(code), row.totpPending, now)
      then row.(totpEnabled := true, totpSecret := row.totpPending, totpPending := "") else row
    case Disable2FA(csrf, password, code) =>
      if AsksFor(o, decoded, now, csrf, user) && DisableGood(env, row, password, code, now)
      then row.(totpEnabled := false, totpSecret := "", totpPending := "", totpLastStep := 0) else row
    case _ => row
  }

  predicate DisableGood(env: Env, row: User, password: string, code: string, now: int) {
    && row.totpEnabled && VerifyPassword(env.crypto, password, row.hash)
    && env.crypto.totp(TrimSpace(code), row.totpSecret, now) && now / NANOS / 30 > row.totpLastStep
  }

  /** Exactly one request takes a row away: an administrator deletes somebody else. */
  predicate TakesAway(o: Out, decoded: bool, now: int, q: Request, user: int) {
    q.PostUsers? && AdminAsks(o, decoded, now, q.csrf) && q.act == Delete(user) && o.values.user != Some(user)
  }

  ghost predicate RowIs(after: Db, user: int, gone: bool, row: User) {
    && (user in after.users <==> !gone)
    && (user in after.users ==> after.users[user] == row)
  }

  lemma LoginRow(env: Env, o: Out, now: int, f: LoginForm, nonce: string, user: int)
    requires UsersInv(o.db) && user in o.db.users
    ensures RowIs(LoginPost(env, o, now, f, nonce).db, user, false, RowAfter(env, o, true, now, PostLogin(f), nonce, user))
  {
    FactorDueIsPending(o.values, now);
    if FormReady(env, o, f) {
      if FactorDue(o.values, now) {
        FactorRow(env, o, now, f, nonce, user);
      } else {
        PasswordRow(env, o, now, f, nonce, user);
      }
    }
  }

  lemma FactorRow(env: Env, o: Out, now: int, f: LoginForm, nonce: string, user: int)
    requires user in o.db.users && FactorDue(o.values, now) && FormReady(env, o, f)
    ensures RowIs(SecondFactorPost(env, o, now, f, nonce).db, user, false,
                  RowAfter(env, o, true, now, PostLogin(f), nonce, user))
  {
    FactorDueIsPending(o.values, now);
  }

  lemma PasswordRow(env: Env, o: Out, now: int, f: LoginForm, nonce: string, user: int)
    requires UsersInv(o.db) && user in o.db.users && !FactorDue(o.values, now) && FormReady(env, o, f)
    ensures RowIs(PasswordPost(env, o, now, f, nonce).db, user, false,
                  RowAfter(env, o, true, now, PostLogin(f), nonce, user))
  {
    if o.db.users[user].name == TrimSpace(f.name) {
      NameIsUnique(o.db, TrimSpace(f.name), user);
    }
  }

  lemma OidcRow(env: Env, o: Out, now: int, claims: Option<Claims>, nonce: string, user: int)
    requires UsersInv(o.db) && user in o.db.users
    ensures RowIs(OidcCallback(env, o, now, claims, nonce).db, user, false,
                  RowAfter(env, o, true, now, OidcReturn(claims), nonce, user))
  {
    if claims.Some? {
      var name, role := claims.value.name, OidcRole(env.cfg, claims.value.groups);
      if o.db.users[user].name == name {
        NameIsUnique(o.db, name, user);
      }
      var upserted := UpsertOIDCUser(o.db, name, role, env.cfg.syncRole);
      if upserted.Ok? {
        OidcEndKeepsUsers(Write(o, upserted.value), now, name, nonce);
      }
    }
  }

  lemma OidcEndKeepsUsers(o: Out, now: int, name: string, nonce: string)
    ensures OidcLogin(o, now, name, nonce).db.users == o.db.users
  {
  }

  lemma ResetIsThrough(env: Env, o: Out, now: int, f: ResetForm, nonce: string, user: int)
    requires TokensInv(o.db)
    ensures ResetCompletes(env, o, now, f, nonce, user) <==> ResetGoesThrough(env, o, now, f, nonce, user)
  {
    var hash := env.crypto.sha256(TrimSpace(f.token));
    var found := GetValidPasswordResetToken(o.db, hash, now);
    if t :| t in o.db.tokens && o.db.tokens[t].hash == hash && !o.db.tokens[t].used && now < o.db.tokens[t].expires
            && o.db.tokens[t].owner == user {
      assert UsableToken(o.db, t, hash, now);
    }
  }

  lemma ResetRow(env: Env, o: Out, now: int, f: ResetForm, nonce: string, user: int)
    requires TokensInv(o.db) && user in o.db.users
    ensures RowIs(ResetPasswordPost(env, o, now, f, nonce).db, user, false,
                  RowAfter(env, o, true, now, PostReset(f), nonce, user))
  {
    ResetIsThrough(env, o, now, f, nonce, user);
  }

  lemma PublicRow(env: Env, o: Out, decoded: bool, now: int, q: Request, nonce: string, user: int)
    requires 1 <= user && user in o.db.users
    requires q.PublicPage? || q.PostLogout? || q.PostForgot? || q.ApiGetSession? || q.ApiDeleteSession?
    ensures RowIs(Serve(env, o, decoded, now, q, nonce).db, user, false, RowAfter(env, o, decoded, now, q, nonce, user))
  {
  }

  lemma ActionRow(db: Db, self: int, act: UsersAction, user: int)
    requires user in db.users && user < db.nextUser
    ensures RowIs(UsersActionOn(db, self, act), user, act == Delete(user) && user != self,
                  RowAfterAction(db.users[user], user, self, act))
  {
  }

  lemma UsersRow(env: Env, o: Out, now: int, q: Request, nonce: string, user: int)
    requires q.PostUsers? && Accepts(o.db, o.values, now) && user in o.db.users && user < o.db.nextUser
    ensures RowIs(ServeAdmitted(env, o, now, q, nonce).db, user, TakesAway(o, true, now, q, user),
                  RowAfter(env, o, true, now, q, nonce, user))
  {
    ActionRow(o.db, o.values.user.value, q.act, user);
    RoleTable(o.db.users[o.values.user.value].role, "admin");
  }

  lemma ProfileRow(env: Env, o: Out, now: int, q: Request, nonce: string, user: int)
    requires q.PostProfile? && Accepts(o.db, o.values, now) && user in o.db.users
    ensures RowIs(ServeAdmitted(env, o, now, q, nonce).db, user, false, RowAfter(env, o, true, now, q, nonce, user))
  {
    if AsksFor(o, true, now, q.csrf, user) {
      OwnProfileRow(env, o, now, q.csrf, q.change, user);
    } else {
      OtherProfileRow(env, o, now, q.csrf, q.change, user);
    }
  }

  lemma OwnProfileRow(env: Env, o: Out, now: int, csrf: string, change: ProfileAction, user: int)
    requires AsksFor(o, true, now, csrf, user)
    ensures RowIs(ProfilePost(env, o, now, csrf, change).db, user, false, RowAfterProfile(env, o.db.users[user], change))
  {
  }

  lemma OtherProfileRow(env: Env, o: Out, now: int, csrf: string, change: ProfileAction, user: int)
    requires Accepts(o.db, o.values, now) && !AsksFor(o, true, now, csrf, user) && user in o.db.users
    ensures RowIs(ProfilePost(env, o, now, csrf, change).db, user, false, o.db.users[user])
  {
  }

  lemma TempRow(env: Env, o: Out, now: int, q: Request, nonce: string, user: int)
    requires (q.PostTempUser? || q.Page?) && Accepts(o.db, o.values, now) && user in o.db.users && user < o.db.nextUser
    ensures RowIs(ServeAdmitted(env, o, now, q, nonce).db, user, false, o.db.users[user])
  {
  }

  lemma StartRow(env: Env, o: Out, now: int, q: Request, nonce: string, user: int)
    requires q.Start2FA? && Accepts(o.db, o.values, now) && user in o.db.users
    ensures RowIs(ServeAdmitted(env, o, now, q, nonce).db, user, false, RowAfter(env, o, true, now, q, nonce, user))
  {
  }

  lemma DisableRow(env: Env, o: Out, now: int, q: Request, nonce: string, user: int)
    requires q.Disable2FA? && Accepts(o.db, o.values, now) && user in o.db.users
    ensures RowIs(ServeAdmitted(env, o, now, q, nonce).db, user, false, RowAfter(env, o, true, now, q, nonce, user))
  {
  }

  lemma ConfirmRow(env: Env, o: Out, now: int, q: Request, nonce: string, user: int)
    requires q.Confirm2FA? && Accepts(o.db, o.values, now) && user in o.db.users
    ensures RowIs(ServeAdmitted(env, o, now, q, nonce).db, user, false, RowAfter(env, o, true, now, q, nonce, user))
  {
    var self := o.values.user.value;
    AddCodesFrame(EnableUserTOTP(o.db, self, o.db.users[self].totpPending)
                  .(codes := CodesNotOf(o.db.codes, self)), self, q.hashes);
  }

  lemma GatedRow(env: Env, o: Out, decoded: bool, now: int, q: Request, nonce: string, user: int)
    requires BehindGate(q) && user in o.db.users && user < o.db.nextUser
    ensures RowIs(ServeGated(env, o, decoded, now, q, nonce).db, user, TakesAway(o, decoded, now, q, user),
                  RowAfter(env, o, decoded, now, q, nonce, user))
  {
    var gated := Gate(o, decoded, now);
    if gated.admitted {
      AcceptsExactly(o.db, o.values, now);
      AdmittedRow(env, gated.out, now, q, nonce, user);
    }
  }

  lemma AdmittedRow(env: Env, o: Out, now: int, q: Request, nonce: string, user: int)
    requires BehindGate(q) && Accepts(o.db, o.values, now) && user in o.db.users && user < o.db.nextUser
    ensures RowIs(ServeAdmitted(env, o, now, q, nonce).db, user, TakesAway(o, true, now, q, user),
                  RowAfter(env, o, true, now, q, nonce, user))
  {
    match q
    case PostUsers(_, _) => UsersRow(env, o, now, q, nonce, user);
    case PostProfile(_, _) => ProfileRow(env, o, now, q, nonce, user);
    case Start2FA(_, _) => StartRow(env, o, now, q, nonce, user);
    case Confirm2FA(_, _, _) => ConfirmRow(env, o, now, q, nonce, user);
    case Disable2FA(_, _, _) => DisableRow(env, o, now, q, nonce, user);
    case _ => TempRow(env, o, now, q, nonce, user);
  }

  /**
    For every request and every existing row: the row is taken away exactly by an
    administrator's deletion of somebody else, and otherwise ends, in every field, as the
    request, the session and the row itself say. What is not named there does not change.
   */
  lemma RowExact(env: Env, o: Out, decoded: bool, now: int, q: Request, nonce: string, user: int)
    requires UsersInv(o.db) && TokensInv(o.db) && user in o.db.users
    ensures RowIs(Serve(env, o, decoded, now, q, nonce).db, user, TakesAway(o, decoded, now, q, user),
                  RowAfter(env, o, decoded, now, q, nonce, user))
  {
    ServedBy(env, o, decoded, now, q, nonce);
    if BehindGate(q) {
      GatedRow(env, o, decoded, now, q, nonce, user);
    } else if q.PostLogin? {
      LoginRow(env, o, now, q.form, nonce, user);
    } else if q.OidcReturn? {
      OidcRow(env, o, now, q.claims, nonce, user);
    } else if q.PostReset? {
      ResetRow(env, o, now, q.reset, nonce, user);
    } else {
      PublicRow(env, o, decoded, now, q, nonce, user);
    }
  }

  // ---------- rows that are added ----------

  predicate NameFree(db: Db, name: string) {
    forall u | u in db.users :: db.users[u].name != name
  }

  predicate KnownRole(role: string) {
    role in {"viewer", "manager", "admin"}
  }

  const MINUTES := 60 * NANOS

  /** When a temporary user is to expire: the time given, or a preset from now on, a day unless it is known. */
  function AskedExpiry(f: TempForm, now: int): int {
    match f.custom
    case At(t) => t
    case _ =>
      now + if f.preset == "30m" then 30 * MINUTES
            else if f.preset == "1h" then 60 * MINUTES
            else if f.preset == "4h" then 4 * 60 * MINUTES
            else if f.preset == "7d" then 7 * ONE_DAY
            else if f.preset == "30d" then 30 * ONE_DAY
            else ONE_DAY
  }

  /** The row a request adds, if it adds one: active, at epoch 0, without a second factor. */
  ghost function AddedRow(env: Env, o: Out, decoded: bool, now: int, q: Request): Option<User> {
    match q
    case PostUsers(csrf, Create(name, password, role, newHash)) =>
      if AdminAsks(o, decoded, now, csrf) && TrimSpace(name) != "" && PasswordAllowed(TrimSpace(password))
         && KnownRole(role) && NameFree(o.db, TrimSpace(name))
      then Some(User(TrimSpace(name), newHash, role, true, "", false, "", "", 0, 0, "local", false, None)) else None
    case PostTempUser(csrf, f) =>
      if AdminAsks(o, decoded, now, csrf) && !f.custom.Malformed? && AskedExpiry(f, now) > now + MINUTES && NameFree(o.db, f.name)
      then Some(User(f.name, f.newHash, if KnownRole(f.role) then f.role else "viewer", true, "", false, "", "", 0, 0,
                     "local", true, Some(AskedExpiry(f, now)))) else None
    case OidcReturn(claims) =>
      if env.cfg.oidc && claims.Some? && KnownRole(OidcRole(env.cfg, claims.value.groups)) && NameFree(o.db, claims.value.name)
      then Some(User(claims.value.name, "oidc:jumpcloud", OidcRole(env.cfg, claims.value.groups), true,
                     "", false, "", "", 0, 0, "oidc", false, None)) else None
    case _ => None
  }

  /** Nobody new but the row added, under the next id. */
  ghost predicate Adds(before: Db, after: Db, added: Option<User>) {
    && (forall u | u in after.users && u !in before.users :: added.Some? && u == before.nextUser)
    && (added.Some? ==> before.nextUser in after.users && after.users[before.nextUser] == added.value
                        && after.nextUser == before.nextUser + 1)
    && (added.None? ==> after.nextUser == before.nextUser)
  }

  lemma LoginAdds(env: Env, o: Out, now: int, f: LoginForm, nonce: string)
    ensures Adds(o.db, LoginPost(env, o, now, f, nonce).db, None)
  {
  }

  lemma OidcAdds(env: Env, o: Out, now: int, claims: Option<Claims>, nonce: string)
    requires UsersInv(o.db)
    ensures Adds(o.db, OidcCallback(env, o, now, claims, nonce).db, AddedRow(env, o, true, now, OidcReturn(claims)))
  {
    if claims.Some? {
      var name := claims.value.name;
      var upserted := UpsertOIDCUser(o.db, name, OidcRole(env.cfg, claims.value.groups), env.cfg.syncRole);
      if upserted.Ok? {
        OidcEndKeepsUsers(Write(o, upserted.value), now, name, nonce);
        assert OidcLogin(Write(o, upserted.value), now, name, nonce).db.nextUser == upserted.value.nextUser;
      }
    }
  }

  lemma ResetAdds(env: Env, o: Out, now: int, f: ResetForm, nonce: string)
    ensures Adds(o.db, ResetPasswordPost(env, o, now, f, nonce).db, None)
  {
  }

  lemma PublicAdds(env: Env, o: Out, decoded: bool, now: int, q: Request, nonce: string)
    requires q.PublicPage? || q.PostLogout? || q.PostForgot? || q.ApiGetSession? || q.ApiDeleteSession?
    ensures Adds(o.db, Serve(env, o, decoded, now, q, nonce).db, None)
  {
  }

  lemma UsersAdds(env: Env, o: Out, now: int, q: Request, nonce: string)
    requires q.PostUsers? && Accepts(o.db, o.values, now) && o.db.nextUser !in o.db.users
    ensures Adds(o.db, ServeAdmitted(env, o, now, q, nonce).db, AddedRow(env, o, true, now, q))
  {
    RoleTable(o.db.users[o.values.user.value].role, "admin");
    if q.act.Create? {
      CreateAdds(o, now, q.act);
    }
  }

  lemma CreateAdds(o: Out, now: int, act: UsersAction)
    requires act.Create? && o.db.nextUser !in o.db.users
    ensures var name, password := TrimSpace(act.name), TrimSpace(act.password);
            var good := name != "" && PasswordAllowed(password) && KnownRole(act.role) && NameFree(o.db, name);
            Adds(o.db, UserCreated(o.db, name, password, act.role, act.newHash),
                 if good then Some(User(name, act.newHash, act.role, true, "", false, "", "", 0, 0, "local", false, None)) else None)
  {
  }

  lemma TempAdds(env: Env, o: Out, now: int, q: Request, nonce: string)
    requires q.PostTempUser? && Accepts(o.db, o.values, now) && o.db.nextUser !in o.db.users
    ensures Adds(o.db, ServeAdmitted(env, o, now, q, nonce).db, AddedRow(env, o, true, now, q))
  {
    RoleTable(o.db.users[o.values.user.value].role, "admin");
    ExpiryAsked(q.temp, now);
  }

  lemma ExpiryAsked(f: TempForm, now: int)
    ensures TempExpiry(f, now) == AskedExpiry(f, now)
  {
  }

  lemma OwnAdds(env: Env, o: Out, now: int, q: Request, nonce: string)
    requires q.Page? || q.PostProfile? || q.Start2FA? || q.Confirm2FA? || q.Disable2FA?
    requires Accepts(o.db, o.values, now)
    ensures Adds(o.db, ServeAdmitted(env, o, now, q, nonce).db, None)
  {
    if q.Confirm2FA? {
      var self := o.values.user.value;
      AddCodesFrame(EnableUserTOTP(o.db, self, o.db.users[self].totpPending)
                    .(codes := CodesNotOf(o.db.codes, self)), self, q.hashes);
    }
  }

  lemma GatedAdds(env: Env, o: Out, decoded: bool, now: int, q: Request, nonce: string)
    requires BehindGate(q) && o.db.nextUser !in o.db.users
    ensures Adds(o.db, ServeGated(env, o, decoded, now, q, nonce).db, AddedRow(env, o, decoded, now, q))
  {
    var gated := Gate(o, decoded, now);
    if gated.admitted {
      AcceptsExactly(o.db, o.values, now);
      match q
      case PostUsers(_, _) => UsersAdds(env, gated.out, now, q, nonce);
      case PostTempUser(_, _) => TempAdds(env, gated.out, now, q, nonce);
      case _ => OwnAdds(env, gated.out, now, q, nonce);
    }
  }

  /** For every request: the one row it may add, and every field of it. */
  lemma AddedExact(env: Env, o: Out, decoded: bool, now: int, q: Request, nonce: string)
    requires UsersInv(o.db)
    ensures Adds(o.db, Serve(env, o, decoded, now, q, nonce).db, AddedRow(env, o, decoded, now, q))
  {
    if BehindGate(q) {
      GatedAdds(env, o, decoded, now, q, nonce);
    } else if q.PostLogin? {
      LoginAdds(env, o, now, q.form, nonce);
    } else if q.OidcReturn? {
      OidcAdds(env, o, now, q.claims, nonce);
    } else if q.PostReset? {
      ResetAdds(env, o, now, q.reset, nonce);
    } else {
      PublicAdds(env, o, decoded, now, q, nonce);
    }
  }

  // ---------- single columns ----------

  /** The administrator's button: somebody else's flag turns to its negation, and no field but flag and epoch moves. */
  lemma ToggleExact(env: Env, o: Out, decoded: bool, now: int, csrf: string, user: int, nonce: string)
    requires UsersInv(o.db) && TokensInv(o.db) && user in o.db.users
    requires AdminAsks(o, decoded, now, csrf) && o.values.user != Some(user)
    ensures var row, after := o.db.users[user], Serve(env, o, decoded, now, PostUsers(csrf, ToggleActive(user)), nonce).db;
            && user in after.users && after.users[user].active == !row.active
            && after.users[user].(active := row.active, epoch := row.epoch) == row
            && (row.active ==> after.users[user].epoch == row.epoch + 1)
  {
    RowExact(env, o, decoded, now, PostUsers(csrf, ToggleActive(user)), nonce, user);
  }

  predicate Toggles(o: Out, decoded: bool, now: int, q: Request, user: int) {
    q.PostUsers? && AdminAsks(o, decoded, now, q.csrf) && q.act == ToggleActive(user) && o.values.user != Some(user)
  }

  /** No other request turns the flag of an existing row. */
  lemma FlagTurnsExactly(env: Env, o: Out, decoded: bool, now: int, q: Request, nonce: string, user: int)
    requires UsersInv(o.db) && TokensInv(o.db) && user in o.db.users
    ensures var after := Serve(env, o, decoded, now, q, nonce).db;
            user in after.users ==>
              (after.users[user].active != o.db.users[user].active <==> Toggles(o, decoded, now, q, user))
  {
    RowExact(env, o, decoded, now, q, nonce, user);
  }

  predicate GivesRole(o: Out, decoded: bool, now: int, q: Request, user: int) {
    && q.PostUsers? && AdminAsks(o, decoded, now, q.csrf)
    && q.act.ChangeRole? && q.act.uid == user && o.values.user != Some(user) && KnownRole(q.act.role)
  }

  /** The role asked for is the role given; otherwise only single sign-on moves a role, and only to the mapped one. */
  lemma RoleExact(env: Env, o: Out, decoded: bool, now: int, q: Request, nonce: string, user: int)
    requires UsersInv(o.db) && TokensInv(o.db) && user in o.db.users
    ensures var after := Serve(env, o, decoded, now, q, nonce).db;
            user in after.users ==>
              && (GivesRole(o, decoded, now, q, user) ==> after.users[user].role == q.act.role)
              && (after.users[user].role != o.db.users[user].role ==>
                    (q.PostUsers? && q.act.ChangeRole? && q.act.uid == user && o.values.user != Some(user))
                    || (q.OidcReturn? && env.cfg.syncRole && o.db.users[user].source == "oidc"))
  {
    RowExact(env, o, decoded, now, q, nonce, user);
  }

  /** Without its token no form behind the gate, and no log-out, changes a row. */
  lemma NoTokenNoChange(env: Env, o: Out, decoded: bool, now: int, q: Request, nonce: string, user: int)
    requires UsersInv(o.db) && TokensInv(o.db) && user in o.db.users
    requires q.PostLogout? || q.PostUsers? || q.PostTempUser? || q.PostProfile? || q.Start2FA? || q.Confirm2FA? || q.Disable2FA?
    requires q.csrf == "" || q.csrf != o.values.csrf
    ensures var after := Serve(env, o, decoded, now, q, nonce).db;
            user in after.users && after.users[user] == o.db.users[user] && after.nextUser == o.db.nextUser
  {
    RowExact(env, o, decoded, now, q, nonce, user);
    AddedExact(env, o, decoded, now, q, nonce);
  }

  // ---------- reset tokens ----------

  /** The post may mail a link: past token, limiter and form, to an active account with a mail address. */
  predicate MailsLink(o: Out, f: ForgotForm, nonce: string) {
    && f.csrf != "" && f.csrf == (if o.values.csrf == "" then nonce else o.values.csrf)
    && f.allowed && TrimSpace(f.identifier) != "" && f.smtp
    && f.row.Some? && f.row.value in o.db.users && o.db.users[f.row.value].active
    && TrimSpace(o.db.users[f.row.value].email) != ""
  }

  /** What becomes of the tokens when a link is mailed: the user's old ones are used, the new one is open for thirty minutes. */
  lemma MailedTokenExact(o: Out, now: int, f: ForgotForm, nonce: string)
    requires UsersInv(o.db) && TokensInv(o.db)
    ensures var after := ForgotPasswordPost(o, now, f, nonce).db;
            if !MailsLink(o, f, nonce) then after == o.db
            else
              && after == o.db.(tokens := after.tokens, nextToken := after.nextToken)
              && (forall t | t in o.db.tokens ::
                    t in after.tokens && after.tokens[t] == (if o.db.tokens[t].owner == f.row.value
                                                            then o.db.tokens[t].(used := true) else o.db.tokens[t]))
              && (forall t | t in after.tokens && t !in o.db.tokens :: t == o.db.nextToken)
              && (!TokenHashTaken(o.db, f.tokenHash) ==>
                    && o.db.nextToken in after.tokens
                    && after.tokens[o.db.nextToken] == ResetToken(f.row.value, f.tokenHash, now + 30 * MINUTES, false))
  {
    if MailsLink(o, f, nonce) {
      IssuedTokenExact(o.db, f.row.value, f.tokenHash, now + 30 * MINUTES);
    }
  }

  lemma IssuedTokenExact(db: Db, user: int, hash: string, expires: int)
    requires UsersInv(db) && TokensInv(db) && user in db.users
    ensures var after := IssueResetToken(db, user, hash, expires);
            && after == db.(tokens := after.tokens, nextToken := after.nextToken)
            && (forall t | t in db.tokens ::
                  t in after.tokens
                  && after.tokens[t] == (if db.tokens[t].owner == user then db.tokens[t].(used := true) else db.tokens[t]))
            && (forall t | t in after.tokens && t !in db.tokens :: t == db.nextToken)
            && (!TokenHashTaken(db, hash) ==>
                  db.nextToken in after.tokens && after.tokens[db.nextToken] == ResetToken(user, hash, expires, false))
  {
    var invalidated := InvalidatePasswordResetTokens(db, user);
    if TokenHashTaken(invalidated, hash) {
      var t :| t in invalidated.tokens && invalidated.tokens[t].hash == hash;
      assert db.tokens[t].hash == hash;
    }
  }

  /** The mailed link works: presented within thirty minutes on the tables it left, with an acceptable password, it completes. */
  lemma MailedLinkWorks(env: Env, o: Out, now: int, f: ForgotForm, nonce: string, p: Out, later: int, g: ResetForm, nonce': string)
    requires UsersInv(o.db) && TokensInv(o.db) && MailsLink(o, f, nonce) && !TokenHashTaken(o.db, f.tokenHash)
    requires p.db == ForgotPasswordPost(o, now, f, nonce).db && later < now + 30 * MINUTES
    requires env.crypto.sha256(TrimSpace(g.token)) == f.tokenHash
    requires g.csrf != "" && g.csrf == (if p.values.csrf == "" then nonce' else p.values.csrf)
    requires TrimSpace(g.newPassword) == TrimSpace(g.confirm) && PasswordAllowed(TrimSpace(g.newPassword))
    ensures ResetGoesThrough(env, p, later, g, nonce', f.row.value)
  {
    MailedTokenExact(o, now, f, nonce);
    assert p.db.tokens[o.db.nextToken].hash == f.tokenHash;
  }

  // ---------- recovery codes ----------

  predicate EnrolsNow(env: Env, o: Out, decoded: bool, now: int, q: Request, user: int) {
    && q.Confirm2FA? && AsksFor(o, decoded, now, q.csrf, user)
    && !o.db.users[user].totpEnabled && o.db.users[user].totpPending != ""
    && env.crypto.totp(TrimSpace(q.code), o.db.users[user].totpPending, now)
  }

  lemma {:induction false} BatchExact(db: Db, user: int, hashes: seq<string>, c: int)
    requires forall k | k in db.codes :: k < db.nextCode
    ensures var after := AddRecoveryCodes(db, user, hashes);
            && after.nextCode == db.nextCode + |hashes|
            && (c in after.codes <==> c in db.codes || db.nextCode <= c < db.nextCode + |hashes|)
            && (c in db.codes ==> after.codes[c] == db.codes[c])
            && (db.nextCode <= c < db.nextCode + |hashes| ==>
                  after.codes[c] == RecoveryCode(user, hashes[c - db.nextCode], false))
  {
    if hashes != [] {
      BatchExact(db, user, hashes[..|hashes| - 1], c);
    }
  }

  /**
    Enrolment promotes the secret just confirmed, and the user's recovery codes are then
    exactly the new batch, each unused and found by the query the log-in makes.
   */
  lemma EnrolmentExact(env: Env, o: Out, decoded: bool, now: int, q: Request, nonce: string, user: int, c: int)
    requires UsersInv(o.db) && TokensInv(o.db) && CodesInv(o.db) && user in o.db.users
    requires EnrolsNow(env, o, decoded, now, q, user)
    ensures var after := Serve(env, o, decoded, now, q, nonce).db;
            && user in after.users && after.users[user].totpEnabled
            && after.users[user].totpSecret == o.db.users[user].totpPending && after.users[user].totpPending == ""
            && (c in GetUnusedRecoveryCodes(after, user) <==> o.db.nextCode <= c < o.db.nextCode + |q.hashes|)
            && (o.db.nextCode <= c < o.db.nextCode + |q.hashes| ==>
                  GetUnusedRecoveryCodes(after, user)[c] == q.hashes[c - o.db.nextCode])
            && (c in o.db.codes && o.db.codes[c].owner != user ==> c in after.codes && after.codes[c] == o.db.codes[c])
  {
    RowExact(env, o, decoded, now, q, nonce, user);
    var emptied := EnableUserTOTP(o.db, user, o.db.users[user].totpPending).(codes := CodesNotOf(o.db.codes, user));
    BatchExact(emptied, user, q.hashes, c);
    EnrolledCodes(env, o, decoded, now, q, nonce, user);
  }

  lemma EnrolledCodes(env: Env, o: Out, decoded: bool, now: int, q: Request, nonce: string, user: int)
    requires user in o.db.users && EnrolsNow(env, o, decoded, now, q, user)
    ensures Serve(env, o, decoded, now, q, nonce).db.codes
            == AddRecoveryCodes(EnableUserTOTP(o.db, user, o.db.users[user].totpPending)
                                .(codes := CodesNotOf(o.db.codes, user)), user, q.hashes).codes
  {
    var g := Gate(o, decoded, now).out;
    var base := EnableUserTOTP(o.db, user, o.db.users[user].totpPending).(codes := CodesNotOf(o.db.codes, user));
    var noted := EnableUserTOTP(g.db, user, g.db.users[user].totpPending).(codes := CodesNotOf(g.db.codes, user));
    BatchAlike(base, noted, user, q.hashes);
  }

  lemma {:induction false} BatchAlike(a: Db, b: Db, user: int, hashes: seq<string>)
    requires a.codes == b.codes && a.nextCode == b.nextCode
    ensures AddRecoveryCodes(a, user, hashes).codes == AddRecoveryCodes(b, user, hashes).codes
    ensures AddRecoveryCodes(a, user, hashes).nextCode == AddRecoveryCodes(b, user, hashes).nextCode
  {
    if hashes != [] {
      BatchAlike(a, b, user, hashes[..|hashes| - 1]);
    }
  }

  // ---------- every recovery code, every reset token ----------

  predicate DisablesNow(env: Env, o: Out, decoded: bool, now: int, q: Request, user: int) {
    && q.Disable2FA? && AsksFor(o, decoded, now, q.csrf, user)
    && user in o.db.users && DisableGood(env, o.db.users[user], q.password, q.code, now)
  }

  /** The code the log-in uses up, if it comes to that: the one picked, when no time-based code was good. */
  ghost predicate UsesCode(env: Env, o: Out, now: int, q: Request, c: int) {
    && q.PostLogin? && FormReady(env, o, q.form) && FactorDue(o.values, now)
    && SecondFactorGood(env, o.db, o.values.pendingUser, q.form, now)
    && !CodeGood(env, o.db.users[o.values.pendingUser], q.form.code, now) && q.form.pick == Some(c)
  }

  /** Deletion, disabling and a new batch take a user's codes away. */
  predicate LosesCodes(env: Env, o: Out, decoded: bool, now: int, q: Request, user: int) {
    || TakesAway(o, decoded, now, q, user) || DisablesNow(env, o, decoded, now, q, user)
    || (user in o.db.users && EnrolsNow(env, o, decoded, now, q, user))
  }

  ghost predicate CodeIs(env: Env, o: Out, decoded: bool, now: int, q: Request, after: Db, c: int)
    requires c in o.db.codes
  {
    var code := o.db.codes[c];
    && (c in after.codes <==> !LosesCodes(env, o, decoded, now, q, code.owner))
    && (c in after.codes ==> after.codes[c] == if UsesCode(env, o, now, q, c) then code.(used := true) else code)
  }

  lemma LoginCode(env: Env, o: Out, now: int, q: Request, nonce: string, c: int)
    requires q.PostLogin? && c in o.db.codes
    requires FactorDue(o.values, now) ==> RecoveryPick(env, o.db, o.values.pendingUser, q.form.recovery, q.form.pick)
    ensures CodeIs(env, o, true, now, q, LoginPost(env, o, now, q.form, nonce).db, c)
  {
    FactorDueIsPending(o.values, now);
    if FormReady(env, o, q.form) && FactorDue(o.values, now) {
      PickExact(env, o.db, o.values.pendingUser, q.form.recovery, q.form.pick);
    }
  }

  lemma PublicCode(env: Env, o: Out, decoded: bool, now: int, q: Request, nonce: string, c: int)
    requires !BehindGate(q) && !q.PostLogin? && c in o.db.codes
    ensures CodeIs(env, o, decoded, now, q, Serve(env, o, decoded, now, q, nonce).db, c)
  {
    PublicKeepsCodes(env, o, decoded, now, q, nonce);
  }

  lemma PublicKeepsCodes(env: Env, o: Out, decoded: bool, now: int, q: Request, nonce: string)
    requires !BehindGate(q) && !q.PostLogin?
    ensures Serve(env, o, decoded, now, q, nonce).db.codes == o.db.codes
  {
    if q.OidcReturn? {
      OidcKeepsSecrets(env, o, now, q.claims, nonce);
    } else if q.PostReset? {
      ResetKeepsCodes(env, o, now, q.reset, nonce);
    } else {
      QuietKeepsCodes(env, o, decoded, now, q, nonce);
    }
  }

  lemma QuietKeepsCodes(env: Env, o: Out, decoded: bool, now: int, q: Request, nonce: string)
    requires q.PublicPage? || q.PostLogout? || q.PostForgot? || q.ApiGetSession? || q.ApiDeleteSession?
    ensures Serve(env, o, decoded, now, q, nonce).db.codes == o.db.codes
    ensures !q.PostForgot? ==> Serve(env, o, decoded, now, q, nonce).db.tokens == o.db.tokens
  {
  }

  lemma OidcKeepsSecrets(env: Env, o: Out, now: int, claims: Option<Claims>, nonce: string)
    ensures var after := OidcCallback(env, o, now, claims, nonce).db; after.codes == o.db.codes && after.tokens == o.db.tokens
  {
    if claims.Some? {
      var name, role := claims.value.name, OidcRole(env.cfg, claims.value.groups);
      var upserted := UpsertOIDCUser(o.db, name, role, env.cfg.syncRole);
      if upserted.Ok? {
        assert upserted.value.codes == o.db.codes && upserted.value.tokens == o.db.tokens;
        OidcEndKeepsSecrets(Write(o, upserted.value), now, name, nonce);
      }
    }
  }

  lemma OidcEndKeepsSecrets(o: Out, now: int, name: string, nonce: string)
    ensures OidcLogin(o, now, name, nonce).db.codes == o.db.codes
    ensures OidcLogin(o, now, name, nonce).db.tokens == o.db.tokens
  {
  }

  lemma ResetKeepsCodes(env: Env, o: Out, now: int, f: ResetForm, nonce: string)
    ensures ResetPasswordPost(env, o, now, f, nonce).db.codes == o.db.codes
  {
  }

  lemma AdminCode(env: Env, o: Out, now: int, q: Request, nonce: string, c: int)
    requires (q.PostUsers? || q.PostTempUser? || q.Page?) && Accepts(o.db, o.values, now) && c in o.db.codes
    ensures CodeIs(env, o, true, now, q, ServeAdmitted(env, o, now, q, nonce).db, c)
  {
    RoleTable(o.db.users[o.values.user.value].role, "admin");
  }

  lemma OwnCode(env: Env, o: Out, now: int, q: Request, nonce: string, c: int)
    requires (q.PostProfile? || q.Start2FA? || q.Disable2FA?) && Accepts(o.db, o.values, now) && c in o.db.codes
    ensures CodeIs(env, o, true, now, q, ServeAdmitted(env, o, now, q, nonce).db, c)
  {
  }

  lemma ConfirmCode(env: Env, o: Out, now: int, q: Request, nonce: string, c: int)
    requires q.Confirm2FA? && Accepts(o.db, o.values, now) && c in o.db.codes && CodesInv(o.db)
    ensures CodeIs(env, o, true, now, q, ServeAdmitted(env, o, now, q, nonce).db, c)
  {
    var self := o.values.user.value;
    BatchExact(EnableUserTOTP(o.db, self, o.db.users[self].totpPending)
               .(codes := CodesNotOf(o.db.codes, self)), self, q.hashes, c);
  }

  lemma GatedCode(env: Env, o: Out, decoded: bool, now: int, q: Request, nonce: string, c: int)
    requires BehindGate(q) && c in o.db.codes && CodesInv(o.db)
    ensures CodeIs(env, o, decoded, now, q, ServeGated(env, o, decoded, now, q, nonce).db, c)
  {
    var gated := Gate(o, decoded, now);
    if gated.admitted {
      AcceptsExactly(o.db, o.values, now);
      AdmittedCode(env, gated.out, now, q, nonce, c);
    }
  }

  lemma AdmittedCode(env: Env, o: Out, now: int, q: Request, nonce: string, c: int)
    requires BehindGate(q) && Accepts(o.db, o.values, now) && c in o.db.codes && CodesInv(o.db)
    ensures CodeIs(env, o, true, now, q, ServeAdmitted(env, o, now, q, nonce).db, c)
  {
    match q
    case Confirm2FA(_, _, _) => ConfirmCode(env, o, now, q, nonce, c);
    case PostUsers(_, _) => AdminCode(env, o, now, q, nonce, c);
    case PostTempUser(_, _) => AdminCode(env, o, now, q, nonce, c);
    case Page => AdminCode(env, o, now, q, nonce, c);
    case _ => OwnCode(env, o, now, q, nonce, c);
  }

  /** For every request and every recovery code: whether it goes, whether it is used up, and nothing else. */
  lemma CodeExact(env: Env, o: Out, decoded: bool, now: int, q: Request, nonce: string, c: int)
    requires c in o.db.codes && CodesInv(o.db)
    requires q.PostLogin? && FactorDue(o.values, now) ==>
               RecoveryPick(env, o.db, o.values.pendingUser, q.form.recovery, q.form.pick)
    ensures CodeIs(env, o, decoded, now, q, Serve(env, o, decoded, now, q, nonce).db, c)
  {
    if q.PostLogin? {
      LoginCode(env, o, now, q, nonce, c);
    } else if BehindGate(q) {
      GatedCode(env, o, decoded, now, q, nonce, c);
    } else {
      PublicCode(env, o, decoded, now, q, nonce, c);
    }
  }

  /** A reset token of a user is used up by a reset that goes through and by a link mailed anew. */
  ghost predicate UsesTokens(env: Env, o: Out, now: int, q: Request, nonce: string, user: int) {
    || (q.PostReset? && ResetGoesThrough(env, o, now, q.reset, nonce, user))
    || (q.PostForgot? && MailsLink(o, q.forgot, nonce) && q.forgot.row == Some(user))
  }

  ghost predicate TokenIs(env: Env, o: Out, decoded: bool, now: int, q: Request, nonce: string, after: Db, t: int)
    requires t in o.db.tokens
  {
    var token := o.db.tokens[t];
    && (t in after.tokens <==> !TakesAway(o, decoded, now, q, token.owner))
    && (t in after.tokens ==>
          after.tokens[t] == if UsesTokens(env, o, now, q, nonce, token.owner) then token.(used := true) else token)
  }

  lemma ResetTokenIs(env: Env, o: Out, now: int, q: Request, nonce: string, t: int)
    requires q.PostReset? && TokensInv(o.db) && t in o.db.tokens
    ensures TokenIs(env, o, true, now, q, nonce, ResetPasswordPost(env, o, now, q.reset, nonce).db, t)
  {
    var found := GetValidPasswordResetToken(o.db, env.crypto.sha256(TrimSpace(q.reset.token)), now);
    ResetIsThrough(env, o, now, q.reset, nonce, o.db.tokens[t].owner);
    if found.Some? {
      assert UsableToken(o.db, found.value, env.crypto.sha256(TrimSpace(q.reset.token)), now);
    }
  }

  lemma OtherToken(env: Env, o: Out, decoded: bool, now: int, q: Request, nonce: string, t: int)
    requires !BehindGate(q) && !q.PostReset? && !q.PostForgot? && t in o.db.tokens
    ensures TokenIs(env, o, decoded, now, q, nonce, Serve(env, o, decoded, now, q, nonce).db, t)
  {
    OthersKeepTokens(env, o, decoded, now, q, nonce);
  }

  lemma OthersKeepTokens(env: Env, o: Out, decoded: bool, now: int, q: Request, nonce: string)
    requires !BehindGate(q) && !q.PostReset? && !q.PostForgot?
    ensures Serve(env, o, decoded, now, q, nonce).db.tokens == o.db.tokens
  {
    if q.OidcReturn? {
      OidcKeepsSecrets(env, o, now, q.claims, nonce);
    } else if q.PostLogin? {
      LoginKeepsTokens(env, o, now, q.form, nonce);
    } else {
      QuietKeepsCodes(env, o, decoded, now, q, nonce);
    }
  }

  lemma LoginKeepsTokens(env: Env, o: Out, now: int, f: LoginForm, nonce: string)
    ensures LoginPost(env, o, now, f, nonce).db.tokens == o.db.tokens
  {
  }

  lemma ForgotToken(env: Env, o: Out, decoded: bool, now: int, q: Request, nonce: string, t: int)
    requires q.PostForgot? && UsersInv(o.db) && TokensInv(o.db) && t in o.db.tokens
    ensures TokenIs(env, o, decoded, now, q, nonce, ForgotPasswordPost(o, now, q.forgot, nonce).db, t)
  {
    MailedTokenExact(o, now, q.forgot, nonce);
  }

  lemma GatedToken(env: Env, o: Out, decoded: bool, now: int, q: Request, nonce: string, t: int)
    requires BehindGate(q) && t in o.db.tokens
    ensures TokenIs(env, o, decoded, now, q, nonce, ServeGated(env, o, decoded, now, q, nonce).db, t)
  {
    var gated := Gate(o, decoded, now);
    if gated.admitted {
      AcceptsExactly(o.db, o.values, now);
      AdmittedToken(env, gated.out, now, q, nonce, t);
    }
  }

  lemma AdmittedToken(env: Env, o: Out, now: int, q: Request, nonce: string, t: int)
    requires BehindGate(q) && Accepts(o.db, o.values, now) && t in o.db.tokens
    ensures TokenIs(env, o, true, now, q, nonce, ServeAdmitted(env, o, now, q, nonce).db, t)
  {
    RoleTable(o.db.users[o.values.user.value].role, "admin");
    if q.Confirm2FA? {
      var self := o.values.user.value;
      AddCodesFrame(EnableUserTOTP(o.db, self, o.db.users[self].totpPending)
                    .(codes := CodesNotOf(o.db.codes, self)), self, q.hashes);
    }
  }

  /** For every request and every reset token: whether it goes, whether it is used up, and nothing else. */
  lemma TokenExact(env: Env, o: Out, decoded: bool, now: int, q: Request, nonce: string, t: int)
    requires UsersInv(o.db) && TokensInv(o.db) && t in o.db.tokens
    ensures TokenIs(env, o, decoded, now, q, nonce, Serve(env, o, decoded, now, q, nonce).db, t)
  {
    ServedBy(env, o, decoded, now, q, nonce);
    if BehindGate(q) {
      GatedToken(env, o, decoded, now, q, nonce, t);
    } else if q.PostReset? {
      ResetTokenIs(env, o, now, q, nonce, t);
    } else if q.PostForgot? {
      ForgotToken(env, o, decoded, now, q, nonce, t);
    } else {
      OtherToken(env, o, decoded, now, q, nonce, t);
    }
  }
}
