/**
  The remaining requests of the account machine: single sign-on, log-out, password
  reset, the two session operations of the JSON API, and everything behind the
  log-in gate (backend/handlers, backend/api/session.go).
 */
module Handlers {
  import opened Common
  import opened Text
  import opened Accounts
  import opened Passwords
  import opened Sessions
  import opened Requests

  // ---------- GET /auth/oidc/callback ----------

  datatype Claims = Claims(name: string, groups: set<string>)

  /** The highest role a group confers; "" for none. */
  function MapGroupsToRole(cfg: Config, groups: set<string>): string {
    if cfg.groupAdmin != "" && cfg.groupAdmin in groups then "admin"
    else if cfg.groupManager != "" && cfg.groupManager in groups then "manager"
    else if cfg.groupViewer != "" && cfg.groupViewer in groups then "viewer"
    else ""
  }

  function OidcRole(cfg: Config, groups: set<string>): string {
    if MapGroupsToRole(cfg, groups) == "" then cfg.defaultRole else MapGroupsToRole(cfg, groups)
  }

  /** `claims` is None when state, exchange, signature or nonce fails. No second factor is asked for. */
  ghost function OidcCallback(env: Env, o: Out, now: int, claims: Option<Claims>, nonce: string): Out {
    if !env.cfg.oidc then o
    else if claims.None? then Save(o)
    else
      var role := OidcRole(env.cfg, claims.value.groups);
      if role == "" then Save(o)
      else
        match UpsertOIDCUser(o.db, claims.value.name, role, env.cfg.syncRole)
        case Err => Save(o)
        case Ok(db) => OidcLogin(Write(o, db), now, claims.value.name, nonce)
  }

  ghost function OidcLogin(o: Out, now: int, name: string, nonce: string): Out {
    match GetUserByUsername(o.db, name)
    case None => Save(o)
    case Some(user) =>
      if !o.db.users[user].active then Save(o) else CompleteLogin(o, now, user, nonce, ByOidc)
  }

  lemma OidcCallbackFine(env: Env, o: Out, now: int, claims: Option<Claims>, nonce: string)
    requires Fine(o, now) && nonce != ""
    ensures Advances(o, OidcCallback(env, o, now, claims, nonce), now)
  {
    SaveFine(o, o.values, now);
    if env.cfg.oidc && claims.Some? {
      var name, role := claims.value.name, OidcRole(env.cfg, claims.value.groups);
      var upserted := UpsertOIDCUser(o.db, name, role, env.cfg.syncRole);
      if role != "" && upserted.Ok? {
        UpsertSound(o.db, name, role, env.cfg.syncRole);
        WriteFine(o, upserted.value, now);
        OidcLoginFine(Write(o, upserted.value), now, name, nonce);
        AdvancesThrough(o, Write(o, upserted.value), OidcCallback(env, o, now, claims, nonce), now);
      }
    }
  }

  lemma OidcLoginFine(o: Out, now: int, name: string, nonce: string)
    requires Fine(o, now) && nonce != ""
    ensures Advances(o, OidcLogin(o, now, name, nonce), now)
  {
    SaveFine(o, o.values, now);
    var found := GetUserByUsername(o.db, name);
    if found.Some? && o.db.users[found.value].active {
      CompleteLoginFine(o, now, found.value, nonce, ByOidc);
    }
  }

  // ---------- POST /logout ----------

  /** Not behind the log-in gate: the values of any cookie will do. */
  function Logout(o: Out, csrf: string): Out {
    if !CsrfOk(o.values, csrf) then Save(o)
    else
      var user := if o.values.user.Some? then o.values.user.value else 0;
      Save(WithValues(if user != 0 then Write(o, BumpSessionEpoch(o.db, user)) else o, Empty))
  }

  lemma LogoutFine(o: Out, now: int, csrf: string)
    requires Fine(o, now)
    ensures Advances(o, Logout(o, csrf), now)
  {
    SaveFine(o, o.values, now);
    SaveFine(o, Empty, now);
    if CsrfOk(o.values, csrf) && o.values.user.Some? && o.values.user.value != 0 {
      var bumped := Write(o, BumpSessionEpoch(o.db, o.values.user.value));
      BumpSound(o.db, o.values.user.value);
      WriteFine(o, bumped.db, now);
      SaveFine(bumped, Empty, now);
      AdvancesThrough(o, bumped, Logout(o, csrf), now);
    }
  }

  // ---------- POST /forgot-password, POST /reset-password ----------

  const RESET_TTL := 30 * 60 * SECOND

  /** `allowed`: what the reset limiter answers; `row`: which matching row the query returns. */
  datatype ForgotForm = ForgotForm(
    csrf: string, allowed: bool, identifier: string, row: Option<int>, smtp: bool, tokenHash: string)

  predicate MatchesLogin(row: User, identifier: string) {
    row.name == identifier || ToLower(row.email) == ToLower(identifier)
  }

  predicate RowPick(db: Db, identifier: string, row: Option<int>) {
    match row
    case None => forall u | u in db.users :: !MatchesLogin(db.users[u], identifier)
    case Some(u) => u in db.users && MatchesLogin(db.users[u], identifier)
  }

  function ForgotPasswordPost(o: Out, now: int, f: ForgotForm, nonce: string): Out {
    var page := Base(o, nonce);
    if !CsrfOk(page.values, f.csrf) || !f.allowed || TrimSpace(f.identifier) == "" then page
    else if f.row.None? || f.row.value !in o.db.users || !o.db.users[f.row.value].active then page
    else if TrimSpace(o.db.users[f.row.value].email) == "" || !f.smtp then page
    else Write(page, IssueResetToken(o.db, f.row.value, f.tokenHash, now + RESET_TTL))
  }

  /** Whatever the user had is invalidated first, also when the insertion then fails. */
  function IssueResetToken(db: Db, user: int, hash: string, expires: int): Db {
    var invalidated := InvalidatePasswordResetTokens(db, user);
    match CreatePasswordResetToken(invalidated, user, hash, expires)
    case Err => invalidated
    case Ok(created) => created
  }

  lemma IssueTokenSound(db: Db, user: int, hash: string, expires: int)
    requires Inv(db)
    ensures Sound(db, IssueResetToken(db, user, hash, expires))
  {
    var invalidated := InvalidatePasswordResetTokens(db, user);
    InvalidateSound(db, user);
    if CreatePasswordResetToken(invalidated, user, hash, expires).Ok? {
      CreateTokenSound(invalidated, user, hash, expires);
      SoundThrough(db, invalidated, IssueResetToken(db, user, hash, expires));
    }
  }

  lemma ForgotFine(o: Out, now: int, f: ForgotForm, nonce: string)
    requires Fine(o, now)
    ensures Advances(o, ForgotPasswordPost(o, now, f, nonce), now)
  {
    BaseFine(o, nonce, now);
    if f.row.Some? {
      IssueTokenSound(o.db, f.row.value, f.tokenHash, now + RESET_TTL);
      BaseWriteFine(o, nonce, IssueResetToken(o.db, f.row.value, f.tokenHash, now + RESET_TTL), now);
    }
  }

  /** Both fields are trimmed before they are compared and judged. */
  predicate NewPasswordOk(newPassword: string, confirm: string) {
    TrimSpace(newPassword) == TrimSpace(confirm) && PasswordAllowed(TrimSpace(newPassword))
  }

  datatype ResetForm = ResetForm(csrf: string, token: string, newPassword: string, confirm: string, newHash: string)

  ghost function ResetPasswordPost(env: Env, o: Out, now: int, f: ResetForm, nonce: string): Out {
    var page := Base(o, nonce);
    if !CsrfOk(page.values, f.csrf) then page
    else
      match GetValidPasswordResetToken(o.db, env.crypto.sha256(TrimSpace(f.token)), now)
      case None => page
      case Some(t) =>
        var user := o.db.tokens[t].owner;
        if !NewPasswordOk(f.newPassword, f.confirm) then page
        else if user !in o.db.users || !o.db.users[user].active then page
        else Save(Write(page, CompleteReset(o.db, t, user, f.newHash)))
  }

  /** New password and new epoch. */
  function SetPassword(db: Db, user: int, newHash: string): Db {
    BumpSessionEpoch(UpdateUserPassword(db, user, newHash), user)
  }

  /** ... and this token used, with every other token of the user. */
  function CompleteReset(db: Db, t: int, user: int, newHash: string): Db {
    InvalidatePasswordResetTokens(MarkPasswordResetTokenUsed(SetPassword(db, user, newHash), t), user)
  }

  lemma SetPasswordSound(db: Db, user: int, newHash: string)
    requires Inv(db)
    ensures Sound(db, SetPassword(db, user, newHash))
  {
    PasswordSound(db, user, newHash);
    BumpSound(UpdateUserPassword(db, user, newHash), user);
    SoundThrough(db, UpdateUserPassword(db, user, newHash), SetPassword(db, user, newHash));
  }

  lemma CompleteResetSound(db: Db, t: int, user: int, newHash: string)
    requires Inv(db)
    ensures Sound(db, CompleteReset(db, t, user, newHash))
    ensures !HasUnusedToken(CompleteReset(db, t, user, newHash), user)
  {
    var changed := SetPassword(db, user, newHash);
    var marked := MarkPasswordResetTokenUsed(changed, t);
    SetPasswordSound(db, user, newHash);
    MarkUsedSound(changed, t);
    InvalidateSound(marked, user);
    SoundThrough(db, changed, marked);
    SoundThrough(db, marked, CompleteReset(db, t, user, newHash));
  }

  lemma ResetFine(env: Env, o: Out, now: int, f: ResetForm, nonce: string)
    requires Fine(o, now)
    ensures Advances(o, ResetPasswordPost(env, o, now, f, nonce), now)
  {
    BaseFine(o, nonce, now);
    var found := GetValidPasswordResetToken(o.db, env.crypto.sha256(TrimSpace(f.token)), now);
    if found.Some? {
      var user := o.db.tokens[found.value].owner;
      CompleteResetSound(o.db, found.value, user, f.newHash);
      BaseWriteFine(o, nonce, CompleteReset(o.db, found.value, user, f.newHash), now);
    }
  }

  // ---------- /api/v1/session ----------

  /** GET: validates without sliding, answers in every case, and saves the session whatever the verdict. */
  function GetSession(o: Out, decoded: bool, now: int, nonce: string): Out {
    var seen := WithValues(o, ValidateSession(o.db, decoded, o.values, now, false).values);
    Save(if seen.values.csrf == "" then WithValues(seen, seen.values.(csrf := nonce)) else seen)
  }

  lemma GetSessionFine(o: Out, decoded: bool, now: int, nonce: string)
    requires Fine(o, now)
    ensures Advances(o, GetSession(o, decoded, now, nonce), now)
    ensures ValidateSession(o.db, decoded, o.values, now, false).values == o.values
  {
    var v := o.values;
    assert v.user.Some? ==> CreatedAtLogin(v, o.db.log, now);
    assert ValidateSession(o.db, decoded, v, now, false).values == v;
    SaveFine(o, if v.csrf == "" then v.(csrf := nonce) else v, now);
  }

  datatype SessionState = SessionAnonymous | SessionPendingMfa | SessionAuthenticated(user: int)

  /** isPending2FA */
  predicate IsPending2FA(v: Values, now: int) {
    v.pendingUser > 0 && (v.pendingExpires == 0 || Unix(now) <= v.pendingExpires)
  }

  /** What GET /api/v1/session reports. */
  function ReportedState(o: Out, decoded: bool, now: int): SessionState {
    var verdict := ValidateSession(o.db, decoded, o.values, now, false);
    if decoded && IsPending2FA(verdict.values, now) then SessionPendingMfa
    else if verdict.reason == Accepted then SessionAuthenticated(o.values.user.value)
    else SessionAnonymous
  }

  /** DELETE: expires the caller's own cookies and touches no row. */
  function DeleteSession(o: Out, decoded: bool, sent: string): Out {
    var want := if decoded then o.values.csrf else "";
    if want != "" && sent != want then o
    else if decoded then Save(WithValues(o, Empty))
    else o
  }

  // ---------- POST /admin/users ----------

  datatype UsersAction =
    | Create(name: string, password: string, role: string, newHash: string)
    | Delete(uid: int)
    | ChangeRole(uid: int, role: string)
    | ToggleActive(uid: int)
    | UnblockIp(ip: string)
    | ResetPassword(uid: int, newPassword: string, newHash: string)
    | OtherAction

  /** Behind RequireRole("admin"), judged by the row just loaded. */
  function UsersPost(o: Out, now: int, csrf: string, act: UsersAction): Out
    requires Accepts(o.db, o.values, now)
  {
    var self := o.values.user.value;
    if !RoleAllows(o.db.users[self].role, "admin") then o
    else if !CsrfOk(o.values, csrf) then Save(o)
    else if act.OtherAction? || (act.UnblockIp? && act.ip == "") || (act.ToggleActive? && act.uid !in o.db.users) then o
    else Save(Write(o, UsersActionOn(o.db, self, act)))
  }

  /** What the action does to the tables; every refusal leaves them alone. */
  function UsersActionOn(db: Db, self: int, act: UsersAction): Db {
    match act
    case Create(name, password, role, newHash) => UserCreated(db, TrimSpace(name), TrimSpace(password), role, newHash)
    case Delete(uid) => if uid == self then db else DeleteUser(db, uid)
    case ChangeRole(uid, role) =>
      if uid == self || !ValidRole(role) then db else UpdateUserRole(db, uid, role).value
    case ToggleActive(uid) =>
      if uid == self || uid !in db.users then db else UpdateUserActive(db, uid, !db.users[uid].active)
    case ResetPassword(uid, newPassword, newHash) =>
      PasswordReset(db, uid, TrimSpace(newPassword), newHash)
    case _ => db
  }

  /** A blank field, an invalid role, a refused password or a taken name changes nothing. */
  function UserCreated(db: Db, name: string, password: string, role: string, newHash: string): Db {
    var r := CreateUser(db, name, newHash, role);
    if name == "" || password == "" || !PasswordAllowed(password) || r.Err? then db else r.value
  }

  function PasswordReset(db: Db, user: int, newPassword: string, newHash: string): Db {
    if PasswordAllowed(newPassword) then SetPassword(db, user, newHash) else db
  }

  lemma PasswordResetSound(db: Db, user: int, newPassword: string, newHash: string)
    requires Inv(db)
    ensures Sound(db, PasswordReset(db, user, newPassword, newHash))
  {
    NoChangeSound(db);
    SetPasswordSound(db, user, newHash);
  }

  lemma UserCreatedSound(db: Db, name: string, password: string, role: string, newHash: string)
    requires Inv(db)
    ensures Sound(db, UserCreated(db, name, password, role, newHash))
  {
    NoChangeSound(db);
    if CreateUser(db, name, newHash, role).Ok? {
      InsertSound(db, NewRow(name, newHash, role, LOCAL, false, None));
    }
  }

  lemma NoChangeSound(db: Db)
    requires Inv(db)
    ensures Sound(db, db)
  {
  }

  lemma UsersActionSound(db: Db, self: int, act: UsersAction)
    requires Inv(db)
    ensures Sound(db, UsersActionOn(db, self, act))
  {
    NoChangeSound(db);
    match act
    case Create(_, _, _, _) => PasswordActionSound(db, self, act);
    case Delete(uid) => DeleteSound(db, uid);
    case ChangeRole(_, _) => StandingActionSound(db, self, act);
    case ToggleActive(_) => StandingActionSound(db, self, act);
    case ResetPassword(_, _, _) => PasswordActionSound(db, self, act);
    case _ =>
  }

  lemma PasswordActionSound(db: Db, self: int, act: UsersAction)
    requires Inv(db) && (act.Create? || act.ResetPassword?)
    ensures Sound(db, UsersActionOn(db, self, act))
  {
    if act.Create? {
      UserCreatedSound(db, TrimSpace(act.name), TrimSpace(act.password), act.role, act.newHash);
    } else {
      PasswordResetSound(db, act.uid, TrimSpace(act.newPassword), act.newHash);
    }
  }

  lemma StandingActionSound(db: Db, self: int, act: UsersAction)
    requires Inv(db) && (act.ChangeRole? || act.ToggleActive?)
    ensures Sound(db, UsersActionOn(db, self, act))
  {
    if act.ChangeRole? && act.uid != self && ValidRole(act.role) {
      RoleUpdateSound(db, act.uid, act.role);
    } else if act.ToggleActive? && act.uid != self && act.uid in db.users {
      ActiveUpdateSound(db, act.uid, !db.users[act.uid].active);
    } else {
      NoChangeSound(db);
    }
  }

  lemma UsersPostFine(o: Out, now: int, csrf: string, act: UsersAction)
    requires Fine(o, now) && Accepts(o.db, o.values, now)
    ensures Advances(o, UsersPost(o, now, csrf, act), now)
  {
    SaveFine(o, o.values, now);
    UsersWriteFine(o, now, act);
  }

  lemma UsersWriteFine(o: Out, now: int, act: UsersAction)
    requires Fine(o, now) && Accepts(o.db, o.values, now)
    ensures Advances(o, Save(Write(o, UsersActionOn(o.db, o.values.user.value, act))), now)
  {
    UsersActionSound(o.db, o.values.user.value, act);
    WriteFine(o, UsersActionOn(o.db, o.values.user.value, act), now);
  }

  // ---------- POST /admin/users-temp ----------

  const MINUTE := 60 * SECOND
  const HOUR := 60 * MINUTE

  datatype CustomTime = Blank | Malformed | At(instant: int)

  datatype TempForm = TempForm(role: string, custom: CustomTime, preset: string, name: string, newHash: string)

  function PresetToDuration(preset: string): int {
    if preset == "30m" then 30 * MINUTE
    else if preset == "1h" then HOUR
    else if preset == "4h" then 4 * HOUR
    else if preset == "24h" then 24 * HOUR
    else if preset == "7d" then 7 * 24 * HOUR
    else if preset == "30d" then 30 * 24 * HOUR
    else 0
  }

  function TempExpiry(f: TempForm, now: int): int {
    if f.custom.At? then f.custom.instant
    else
      var dur := PresetToDuration(f.preset);
      now + if dur <= 0 then 24 * HOUR else dur
  }

  function AdminUsersTempPost(o: Out, now: int, csrf: string, f: TempForm): Out
    requires Accepts(o.db, o.values, now)
  {
    if !RoleAllows(o.db.users[o.values.user.value].role, "admin") then o
    else if !CsrfOk(o.values, csrf) || f.custom.Malformed? then Save(o)
    else if TempExpiry(f, now) <= now + MINUTE then Save(o)
    else
      var r := CreateTempUser(o.db, f.name, f.newHash, TempRole(f), TempExpiry(f, now));
      Save(if r.Ok? then Write(o, r.value) else o)
  }

  /** An unknown role becomes viewer. */
  function TempRole(f: TempForm): string {
    if ValidRole(f.role) then f.role else "viewer"
  }

  lemma TempPostFine(o: Out, now: int, csrf: string, f: TempForm)
    requires Fine(o, now) && Accepts(o.db, o.values, now)
    ensures Advances(o, AdminUsersTempPost(o, now, csrf, f), now)
  {
    SaveFine(o, o.values, now);
    if CreateTempUser(o.db, f.name, f.newHash, TempRole(f), TempExpiry(f, now)).Ok? {
      TempWriteFine(o, now, f);
    }
  }

  lemma TempWriteFine(o: Out, now: int, f: TempForm)
    requires Fine(o, now) && CreateTempUser(o.db, f.name, f.newHash, TempRole(f), TempExpiry(f, now)).Ok?
    ensures Advances(o, Save(Write(o, CreateTempUser(o.db, f.name, f.newHash, TempRole(f), TempExpiry(f, now)).value)), now)
  {
    InsertSound(o.db, NewRow(f.name, f.newHash, TempRole(f), LOCAL, true, Some(TempExpiry(f, now))));
    WriteFine(o, CreateTempUser(o.db, f.name, f.newHash, TempRole(f), TempExpiry(f, now)).value, now);
  }

  // ---------- POST /profile ----------

  datatype ProfileAction =
    | Theme
    | UpdateInfo(email: string, parses: bool)
    | ChangePassword(current: string, newPassword: string, confirm: string, newHash: string)
    | OtherProfileAction

  predicate PasswordChangeAccepted(env: Env, row: User, act: ProfileAction) {
    && act.ChangePassword? && VerifyPassword(env.crypto, act.current, row.hash)
    && NewPasswordOk(act.newPassword, act.confirm)
  }

  /** A password change kills every session of the user but the acting one, which is stamped anew. */
  function ProfilePost(env: Env, o: Out, now: int, csrf: string, act: ProfileAction): Out
    requires Accepts(o.db, o.values, now)
  {
    var self := o.values.user.value;
    if !CsrfOk(o.values, csrf) then Save(o)
    else
      match act
      case Theme => Save(o)
      case UpdateInfo(email, parses) =>
        if email != "" && !parses then Save(o) else Save(Write(o, UpdateUserInfo(o.db, self, email)))
      case ChangePassword(_, _, _, newHash) =>
        if !PasswordChangeAccepted(env, o.db.users[self], act) then Save(o)
        else Restamp(Write(o, SetPassword(o.db, self, newHash)), self)
      case OtherProfileAction => o
  }

  /** The acting session takes the epoch of its row. */
  function Restamp(o: Out, user: int): Out
    requires user in o.db.users
  {
    Save(WithValues(o, o.values.(epoch := o.db.users[user].epoch)))
  }

  lemma ProfilePostFine(env: Env, o: Out, now: int, csrf: string, act: ProfileAction)
    requires Fine(o, now) && Accepts(o.db, o.values, now)
    ensures Advances(o, ProfilePost(env, o, now, csrf, act), now)
  {
    SaveFine(o, o.values, now);
    var r := ProfilePost(env, o, now, csrf, act);
    if r != o && r != Save(o) {
      ProfileWrites(env, o, now, csrf, act);
      if act.UpdateInfo? {
        UpdateInfoFine(o, now, act.email);
      } else {
        ChangePasswordFine(o, now, act.newHash);
      }
    }
  }

  lemma ProfileWrites(env: Env, o: Out, now: int, csrf: string, act: ProfileAction)
    requires Accepts(o.db, o.values, now)
    ensures var r, self := ProfilePost(env, o, now, csrf, act), o.values.user.value;
            || r == o || r == Save(o)
            || (act.UpdateInfo? && r == Save(Write(o, UpdateUserInfo(o.db, self, act.email))))
            || (act.ChangePassword? && r == Restamp(Write(o, SetPassword(o.db, self, act.newHash)), self))
  {
  }

  lemma UpdateInfoFine(o: Out, now: int, email: string)
    requires Fine(o, now) && Accepts(o.db, o.values, now)
    ensures Advances(o, Save(Write(o, UpdateUserInfo(o.db, o.values.user.value, email))), now)
  {
    InfoSound(o.db, o.values.user.value, email);
    WriteFine(o, UpdateUserInfo(o.db, o.values.user.value, email), now);
  }

  lemma ChangePasswordFine(o: Out, now: int, newHash: string)
    requires Fine(o, now) && o.values.user.Some? && o.values.user.value in o.db.users
    ensures Advances(o, Restamp(Write(o, SetPassword(o.db, o.values.user.value, newHash)), o.values.user.value), now)
  {
    var self := o.values.user.value;
    var changed := Write(o, SetPassword(o.db, self, newHash));
    SetPasswordFine(o, now, self, newHash);
    RestampFine(changed, self, now);
    AdvancesThrough(o, changed, Restamp(changed, self), now);
  }

  lemma SetPasswordFine(o: Out, now: int, user: int, newHash: string)
    requires Fine(o, now)
    ensures Advances(o, Write(o, SetPassword(o.db, user, newHash)), now)
  {
    SetPasswordSound(o.db, user, newHash);
    WriteFine(o, SetPassword(o.db, user, newHash), now);
  }

  lemma RestampFine(o: Out, user: int, now: int)
    requires Fine(o, now) && o.values.user == Some(user) && user in o.db.users
    ensures Advances(o, Restamp(o, user), now)
  {
    var stamped := o.values.(epoch := o.db.users[user].epoch);
    SameOrigin(o.values, stamped, o.db.log, now);
    SaveFine(o, stamped, now);
  }

  // ---------- /profile/2fa ----------

  function Profile2FAStart(o: Out, now: int, csrf: string, secret: string): Out
    requires Accepts(o.db, o.values, now)
  {
    var self := o.values.user.value;
    if !CsrfOk(o.values, csrf) || o.db.users[self].totpEnabled then Save(o)
    else Save(Write(o, UpdateUserTOTPPending(o.db, self, secret)))
  }

  /** The first code is checked against the pending secret, without replay protection. */
  function Profile2FAConfirm(env: Env, o: Out, now: int, csrf: string, code: string, hashes: seq<string>): Out
    requires Accepts(o.db, o.values, now)
  {
    var self := o.values.user.value;
    var row := o.db.users[self];
    if !CsrfOk(o.values, csrf) || row.totpPending == "" || row.totpEnabled then Save(o)
    else if !env.crypto.totp(TrimSpace(code), row.totpPending, now) then Save(o)
    else Save(Write(o, ReplaceRecoveryCodes(EnableUserTOTP(o.db, self, row.totpPending), self, hashes)))
  }

  function Profile2FADisable(env: Env, o: Out, now: int, csrf: string, password: string, code: string): Out
    requires Accepts(o.db, o.values, now)
  {
    var self := o.values.user.value;
    var row := o.db.users[self];
    if !CsrfOk(o.values, csrf) then Save(o)
    else if !row.totpEnabled then o
    else if !VerifyPassword(env.crypto, password, row.hash) || !TotpAccepted(env, row, row.totpSecret, TrimSpace(code), now)
    then Save(o)
    else Save(Write(o, DisableUserTOTP(SetTOTPLastStep(o.db, self, Unix(now) / 30), self)))
  }

  lemma EnrolFine(o: Out, now: int, csrf: string, secret: string)
    requires Fine(o, now) && Accepts(o.db, o.values, now)
    ensures Advances(o, Profile2FAStart(o, now, csrf, secret), now)
  {
    SaveFine(o, o.values, now);
    EnrolmentSound(o.db, o.values.user.value, secret);
    WriteFine(o, UpdateUserTOTPPending(o.db, o.values.user.value, secret), now);
  }

  lemma ConfirmFine(env: Env, o: Out, now: int, csrf: string, code: string, hashes: seq<string>)
    requires Fine(o, now) && Accepts(o.db, o.values, now)
    ensures Advances(o, Profile2FAConfirm(env, o, now, csrf, code, hashes), now)
  {
    SaveFine(o, o.values, now);
    var self := o.values.user.value;
    var enabled := EnableUserTOTP(o.db, self, o.db.users[self].totpPending);
    EnrolmentSound(o.db, self, o.db.users[self].totpPending);
    ReplaceCodesSound(enabled, self, hashes);
    SoundThrough(o.db, enabled, ReplaceRecoveryCodes(enabled, self, hashes));
    WriteFine(o, ReplaceRecoveryCodes(enabled, self, hashes), now);
  }

  lemma DisableFine(env: Env, o: Out, now: int, csrf: string, password: string, code: string)
    requires Fine(o, now) && Accepts(o.db, o.values, now)
    ensures Advances(o, Profile2FADisable(env, o, now, csrf, password, code), now)
  {
    SaveFine(o, o.values, now);
    var self, step := o.values.user.value, Unix(now) / 30;
    if o.db.users[self].totpLastStep < step {
      var stepped := SetTOTPLastStep(o.db, self, step);
      StepSound(o.db, self, step);
      DisableSound(stepped, self);
      SoundThrough(o.db, stepped, DisableUserTOTP(stepped, self));
      WriteFine(o, DisableUserTOTP(stepped, self), now);
    }
  }

  // ---------- every request ----------

  datatype Request =
    | PublicPage
    | Page                                  // behind the gate, with no effect on an account
    | PostLogin(form: LoginForm)
    | OidcReturn(claims: Option<Claims>)
    | PostLogout(csrf: string)
    | PostForgot(forgot: ForgotForm)
    | PostReset(reset: ResetForm)
    | ApiGetSession
    | ApiDeleteSession(sent: string)
    | PostUsers(csrf: string, act: UsersAction)
    | PostTempUser(csrf: string, temp: TempForm)
    | PostProfile(csrf: string, change: ProfileAction)
    | Start2FA(csrf: string, secret: string)
    | Confirm2FA(csrf: string, code: string, hashes: seq<string>)
    | Disable2FA(csrf: string, password: string, code: string)

  predicate BehindGate(q: Request) {
    q.Page? || q.PostUsers? || q.PostTempUser? || q.PostProfile? || q.Start2FA? || q.Confirm2FA? || q.Disable2FA?
  }

  function ServeAdmitted(env: Env, o: Out, now: int, q: Request, nonce: string): Out
    requires BehindGate(q) && Accepts(o.db, o.values, now)
  {
    match q
    case Page => Base(o, nonce)
    case PostUsers(csrf, act) => UsersPost(o, now, csrf, act)
    case PostTempUser(csrf, temp) => AdminUsersTempPost(o, now, csrf, temp)
    case PostProfile(csrf, change) => ProfilePost(env, o, now, csrf, change)
    case Start2FA(csrf, secret) => Profile2FAStart(o, now, csrf, secret)
    case Confirm2FA(csrf, code, hashes) => Profile2FAConfirm(env, o, now, csrf, code, hashes)
    case Disable2FA(csrf, password, code) => Profile2FADisable(env, o, now, csrf, password, code)
  }

  function ServeGated(env: Env, o: Out, decoded: bool, now: int, q: Request, nonce: string): Out
    requires BehindGate(q)
  {
    var gated := Gate(o, decoded, now);
    if gated.admitted then ServeAdmitted(env, gated.out, now, q, nonce) else gated.out
  }

  ghost function Serve(env: Env, o: Out, decoded: bool, now: int, q: Request, nonce: string): Out {
    match q
    case PublicPage => Base(o, nonce)
    case PostLogin(form) => LoginPost(env, o, now, form, nonce)
    case OidcReturn(claims) => OidcCallback(env, o, now, claims, nonce)
    case PostLogout(csrf) => Logout(o, csrf)
    case PostForgot(forgot) => ForgotPasswordPost(o, now, forgot, nonce)
    case PostReset(reset) => ResetPasswordPost(env, o, now, reset, nonce)
    case ApiGetSession => GetSession(o, decoded, now, nonce)
    case ApiDeleteSession(sent) => DeleteSession(o, decoded, sent)
    case _ => ServeGated(env, o, decoded, now, q, nonce)
  }

  lemma AdmittedFine(env: Env, o: Out, now: int, q: Request, nonce: string)
    requires Fine(o, now) && BehindGate(q) && Accepts(o.db, o.values, now)
    ensures Advances(o, ServeAdmitted(env, o, now, q, nonce), now)
  {
    match q
    case Page => BaseFine(o, nonce, now);
    case PostUsers(csrf, act) => UsersPostFine(o, now, csrf, act);
    case PostTempUser(csrf, temp) => TempPostFine(o, now, csrf, temp);
    case PostProfile(csrf, change) => ProfilePostFine(env, o, now, csrf, change);
    case Start2FA(csrf, secret) => EnrolFine(o, now, csrf, secret);
    case Confirm2FA(csrf, code, hashes) => ConfirmFine(env, o, now, csrf, code, hashes);
    case Disable2FA(csrf, password, code) => DisableFine(env, o, now, csrf, password, code);
  }

  /** Every request keeps the tables' invariant, lets them only grow, and mints no cookie without an origin. */
  lemma ServeFine(env: Env, o: Out, decoded: bool, now: int, q: Request, nonce: string)
    requires Fine(o, now) && nonce != "" && 0 <= now
    ensures Advances(o, Serve(env, o, decoded, now, q, nonce), now)
  {
    if BehindGate(q) {
      GatedFine(env, o, decoded, now, q, nonce);
      assert Serve(env, o, decoded, now, q, nonce) == ServeGated(env, o, decoded, now, q, nonce);
    } else if q.PostLogin? {
      LoginPostFine(env, o, now, q.form, nonce);
    } else if q.OidcReturn? {
      OidcCallbackFine(env, o, now, q.claims, nonce);
    } else if q.PostReset? {
      ResetFine(env, o, now, q.reset, nonce);
    } else {
      PublicFine(env, o, decoded, now, q, nonce);
    }
  }

  lemma PublicFine(env: Env, o: Out, decoded: bool, now: int, q: Request, nonce: string)
    requires Fine(o, now)
    requires q.PublicPage? || q.PostLogout? || q.PostForgot? || q.ApiGetSession? || q.ApiDeleteSession?
    ensures Advances(o, Serve(env, o, decoded, now, q, nonce), now)
  {
    ServedBy(env, o, decoded, now, q, nonce);
    if q.PublicPage? {
      BaseFine(o, nonce, now);
    } else if q.PostLogout? {
      LogoutFine(o, now, q.csrf);
    } else if q.PostForgot? {
      ForgotFine(o, now, q.forgot, nonce);
    } else if q.ApiGetSession? {
      GetSessionFine(o, decoded, now, nonce);
    } else {
      DeleteSessionFine(o, decoded, now, q.sent);
    }
  }

  /** Which handler answers. */
  lemma ServedBy(env: Env, o: Out, decoded: bool, now: int, q: Request, nonce: string)
    ensures var r := Serve(env, o, decoded, now, q, nonce);
            && (q.PublicPage? ==> r == Base(o, nonce))
            && (q.PostLogout? ==> r == Logout(o, q.csrf))
            && (q.PostForgot? ==> r == ForgotPasswordPost(o, now, q.forgot, nonce))
            && (q.ApiGetSession? ==> r == GetSession(o, decoded, now, nonce))
            && (q.ApiDeleteSession? ==> r == DeleteSession(o, decoded, q.sent))
            && (q.PostLogin? ==> r == LoginPost(env, o, now, q.form, nonce))
            && (q.OidcReturn? ==> r == OidcCallback(env, o, now, q.claims, nonce))
            && (q.PostReset? ==> r == ResetPasswordPost(env, o, now, q.reset, nonce))
            && (BehindGate(q) ==> r == ServeGated(env, o, decoded, now, q, nonce))
  {
  }

  lemma DeleteSessionFine(o: Out, decoded: bool, now: int, sent: string)
    requires Fine(o, now)
    ensures Advances(o, DeleteSession(o, decoded, sent), now)
  {
    SaveFine(o, Empty, now);
  }

  lemma GatedFine(env: Env, o: Out, decoded: bool, now: int, q: Request, nonce: string)
    requires Fine(o, now) && BehindGate(q)
    ensures Advances(o, ServeGated(env, o, decoded, now, q, nonce), now)
  {
    var gated := Gate(o, decoded, now);
    GateFine(o, decoded, now);
    if gated.admitted {
      AdmittedFine(env, gated.out, now, q, nonce);
      AdvancesThrough(o, gated.out, ServeAdmitted(env, gated.out, now, q, nonce), now);
    }
  }
}
