/**
  The handlers as the program runs them: they change the session of the request and
  the tables in place and return early. Each is proved to do what its request
  function says, so that what is proved of runs holds of these bodies.
  The note on a method names what is proved of that function.
 */
module Server {
  import opened Common
  import opened Text
  import opened Accounts
  import opened Passwords
  import opened Sessions
  import opened Requests
  import opened Handlers
  import opened Tables

  /** The session of one request: decoded cookie values, changed in place, and every Set-Cookie written. */
  class Session {
    const decoded: bool
    var values: Values
    var saved: seq<Values>

    /** An undecodable cookie gives an empty session. */
    constructor (decoded: bool, v: Values)
      ensures this.decoded == decoded && values == (if decoded then v else Empty) && saved == []
    {
      this.decoded := decoded;
      values, saved := if decoded then v else Empty, [];
    }

    method Save()
      modifies this`saved
      ensures saved == old(saved) + [values]
    {
      saved := saved + [values];
    }

    /** ValidateSession: writes the session's values as it goes, also on its way to a refusal. */
    // See Sessions.AcceptsExactly, Sessions.ValidatedExactly, Standing.AcceptedWithinBounds.
    method Validate(db: Database, now: int, slide: bool) returns (reason: Reason, clear: bool)
      modifies this`values
      ensures Verdict(values, reason, clear) == ValidateSession(db.Rows(), decoded, old(values), now, slide)
    {
      if !decoded {
        return RejectDecode, true;
      }
      if values.user.None? {
        return RejectAnonymous, false;
      }
      if values.created.Some? {
        if now - values.created.value * SECOND > LIFETIME {
          return RejectExpired, true;
        }
      } else {
        values := values.(created := Some(Unix(now)));
      }
      if values.last.Some? {
        if now - values.last.value * SECOND > IDLE {
          return RejectExpired, true;
        }
      }
      if slide {
        values := values.(last := Some(Unix(now)));
      }
      var id := values.user.value;
      if id !in db.users || !db.users[id].active {
        return RejectUser, true;
      }
      if values.epoch != db.users[id].epoch {
        return RejectUser, true;
      }
      return Accepted, false;
    }
  }

  class Handler {
    const env: Env
    const db: Database
    const s: Session

    ghost function State(): Out
      reads db, s
    {
      Out(db.Rows(), s.values, s.saved)
    }

    constructor (env: Env, db: Database, s: Session)
      ensures this.env == env && this.db == db && this.s == s
    {
      this.env, this.db, this.s := env, db, s;
    }

    /** Template data: session, flashes, CSRF token. */
    // See Requests.BaseFine, Lineage.BaseTraced.
    method Base(nonce: string)
      modifies s
      ensures State() == Requests.Base(old(State()), nonce)
    {
      s.Save();
      if s.values.csrf == "" {
        s.values := s.values.(csrf := nonce);
        s.Save();
      }
    }

    /** RequireLogin; the handler behind it runs only when admitted. */
    // See Requests.GateFine, Lineage.GateTraced, LoginOutcomes.SlidingKeepsAlive.
    method RequireLogin(now: int) returns (admitted: bool)
      modifies s, db`log
      ensures Gated(State(), admitted) == Gate(old(State()), s.decoded, now)
    {
      var reason, clear := s.Validate(db, now, true);
      if reason != Accepted {
        if clear {
          s.values := Empty;
          s.Save();
        } else {
          assert s.values == old(s.values);
        }
        return false;
      }
      db.Record(Slide(s.values.user.value, now, s.values.csrf));
      s.Save();
      return true;
    }

    // See LoginOutcomes.CompleteLoginSaves, LoginOutcomes.LoginOpensSession.
    method CompleteLogin(now: int, user: int, nonce: string, ghost path: LoginPath)
      requires user in db.users
      modifies s, db`log
      ensures State() == Requests.CompleteLogin(old(State()), now, user, nonce, path)
    {
      s.values := Empty;
      s.values := s.values.(user := Some(user), epoch := db.users[user].epoch);
      s.values := s.values.(created := Some(Unix(now)), last := Some(Unix(now)));
      s.values := s.values.(csrf := nonce);
      s.Save();
      db.Record(Login(user, now, nonce, path, db.users[user].totpEnabled));
    }

    // ---------- second factor ----------

    /** validateTOTPWithReplayCtx */
    // See Credentials.HistoryIsTrue, Credentials.NothingServesTwice.
    method ValidateTOTP(user: int, secret: string, code: string, now: int) returns (ok: bool)
      requires user in db.users
      modifies db`users, db`log
      ensures ok == TotpAccepted(env, old(db.users)[user], secret, code, now)
      ensures db.Rows() == if ok then Accounts.SetTOTPLastStep(old(db.Rows()), user, Unix(now) / 30) else old(db.Rows())
    {
      if !env.crypto.totp(code, secret, now) {
        return false;
      }
      var currentStep := Unix(now) / 30;
      var lastStep := db.users[user].totpLastStep;
      if currentStep <= lastStep {
        return false;
      }
      db.SetTOTPLastStep(user, currentStep);
      return true;
    }

    /** The unused codes in any order of the map; the first that verifies is consumed. */
    // See Credentials.HistoryIsTrue, Credentials.NothingServesTwice.
    method VerifyRecoveryCode(user: int, text: string) returns (ok: bool, ghost pick: Option<int>)
      modifies db`codes, db`log
      ensures RecoveryPick(env, old(db.Rows()), user, text, pick) && ok == pick.Some?
      ensures db.Rows() == if ok then Accounts.UseRecoveryCode(old(db.Rows()), pick.value) else old(db.Rows())
    {
      var code := NormalCode(text);
      if code == "" {
        return false, None;
      }
      var hashes := db.GetUnusedRecoveryCodes(user);
      var todo := hashes.Keys;
      while todo != {}
        invariant todo <= hashes.Keys && db.Rows() == old(db.Rows())
        invariant forall c | c in hashes && c !in todo :: !VerifyPassword(env.crypto, code, hashes[c])
      {
        var id := AnyOf(todo);
        if VerifyPassword(env.crypto, code, hashes[id]) {
          db.UseRecoveryCode(id);
          return true, Some(id);
        }
        todo := todo - {id};
      }
      assert forall c :: c !in MatchingCodes(env, db.Rows(), user, code);
      return false, None;
    }

    // See LoginOutcomes.FactorLoginExact, LoginOutcomes.FactorConsumes, Credentials.SecondFactorAlways.
    method SecondFactorPost(now: int, uid: int, f: LoginForm, nonce: string) returns (ghost pick: Option<int>)
      requires uid == PendingUser(s.values, now)
      modifies s, db
      ensures RecoveryPick(env, old(db.Rows()), uid, f.recovery, pick)
      ensures State() == Requests.SecondFactorPost(env, old(State()), now, f.(pick := pick), nonce)
    {
      pick := AnyPick(uid, f.recovery);
      if uid !in db.users || !db.users[uid].active || !db.users[uid].totpEnabled {
        s.values := s.values.(pendingUser := 0, pendingExpires := 0);
        s.Save();
        return;
      }
      var ok := false;
      if f.code != "" {
        ok := ValidateTOTP(uid, db.users[uid].totpSecret, f.code, now);
      }
      if !ok && f.recovery != "" {
        ok, pick := VerifyRecoveryCode(uid, f.recovery);
      }
      if !ok {
        s.Save();
        return;
      }
      CompleteLogin(now, uid, nonce, BySecondFactor);
    }

    /** A choice the walk could have made, for the branches that never walk. */
    ghost method AnyPick(user: int, text: string) returns (pick: Option<int>)
      ensures RecoveryPick(env, db.Rows(), user, text, pick)
    {
      var matching := MatchingCodes(env, db.Rows(), user, NormalCode(text));
      if NormalCode(text) == "" {
        return None;
      }
      if c :| c in matching {
        return Some(c);
      }
      assert forall c :: c !in MatchingCodes(env, db.Rows(), user, NormalCode(text));
      return None;
    }

    // ---------- POST /login ----------

    // See LoginOutcomes.FormLoginExact, LoginOutcomes.RefusedLoginCookies.
    method LoginPost(now: int, f: LoginForm, nonce: string) returns (ghost pick: Option<int>)
      requires Inv(db.Rows())
      modifies s, db
      ensures RecoveryPick(env, old(db.Rows()), PendingUser(old(s.values), now), f.recovery, pick)
      ensures State() == Requests.LoginPost(env, old(State()), now, f.(pick := pick), nonce)
    {
      pick := AnyPick(PendingUser(s.values, now), f.recovery);
      if !env.cfg.localLogin {
        if !env.cfg.oidc {
          Base(nonce);
        }
        return;
      }
      if f.blocked {
        Base(nonce);
        return;
      }
      if !CsrfOk(s.values, f.csrf) {
        Base(nonce);
        return;
      }
      var uid := PendingUser(s.values, now);
      if uid > 0 {
        pick := SecondFactorPost(now, uid, f, nonce);
        return;
      }
      PasswordPost(now, f, nonce);
    }

    // See LoginOutcomes.PasswordLoginExact, LoginOutcomes.PasswordMakesFactorDue.
    method PasswordPost(now: int, f: LoginForm, nonce: string)
      requires Inv(db.Rows())
      modifies s, db
      ensures forall pick :: State() == Requests.PasswordPost(env, old(State()), now, f.(pick := pick), nonce)
    {
      var found := db.GetUserByUsername(TrimSpace(f.name));
      if found.None? || !VerifyPassword(env.crypto, f.password, db.users[found.value].hash) {
        if f.attemptsLeft {
          s.Save();
        }
        return;
      }
      var user := found.value;
      if !db.users[user].active {
        s.Save();
        return;
      }
      if NeedsPasswordRehash(env.crypto, db.users[user].hash) {
        if !Hashable(f.password) {
          return;
        }
        db.UpdateUserPassword(user, f.newHash);
      }
      if db.users[user].totpEnabled {
        s.values := s.values.(pendingUser := user);
        s.values := s.values.(pendingExpires := Unix(now + PENDING_TTL));
        s.Save();
        db.Record(PasswordOk(user, now));
        return;
      }
      CompleteLogin(now, user, nonce, ByPassword);
    }

    // ---------- single sign-on, log-out ----------

    // See LoginOutcomes.OidcLoginExact, Administration.OidcTouchesOwnRows.
    method OidcCallback(now: int, claims: Option<Claims>, nonce: string)
      requires Inv(db.Rows())
      modifies s, db
      ensures State() == Handlers.OidcCallback(env, old(State()), now, claims, nonce)
    {
      if !env.cfg.oidc {
        return;
      }
      if claims.None? {
        s.Save();
        return;
      }
      var role := MapGroupsToRole(env.cfg, claims.value.groups);
      if role == "" {
        role := env.cfg.defaultRole;
      }
      if role == "" {
        s.Save();
        return;
      }
      ghost var before := db.Rows();
      var ok := db.UpsertOIDCUser(claims.value.name, role, env.cfg.syncRole);
      if !ok {
        s.Save();
        return;
      }
      UpsertSound(before, claims.value.name, role, env.cfg.syncRole);
      OidcLogin(now, claims.value.name, nonce);
    }

    /** The end of the callback, from the row the upsert returned. */
    // See LoginOutcomes.OidcEndExact.
    method OidcLogin(now: int, name: string, nonce: string)
      requires Inv(db.Rows())
      modifies s, db`log
      ensures State() == Handlers.OidcLogin(old(State()), now, name, nonce)
    {
      var found := db.GetUserByUsername(name);
      if found.None? || !db.users[found.value].active {
        s.Save();
        return;
      }
      CompleteLogin(now, found.value, nonce, ByOidc);
    }

    // See Lineage.EpochExact, LoginOutcomes.LoggedOutCookie.
    method Logout(csrf: string)
      modifies s, db`users
      ensures State() == Handlers.Logout(old(State()), csrf)
    {
      if !CsrfOk(s.values, csrf) {
        s.Save();
        return;
      }
      var id := if s.values.user.Some? then s.values.user.value else 0;
      if id != 0 {
        db.BumpSessionEpoch(id);
      }
      s.values := Empty;
      s.Save();
    }

    // ---------- password reset ----------

    // See Effects.MailedTokenExact, Effects.MailedLinkWorks.
    method ForgotPasswordPost(now: int, f: ForgotForm, nonce: string)
      modifies s, db`tokens, db`nextToken
      ensures State() == Handlers.ForgotPasswordPost(old(State()), now, f, nonce)
    {
      Base(nonce);
      if !CsrfOk(s.values, f.csrf) {
        return;
      }
      if !f.allowed {
        return;
      }
      if TrimSpace(f.identifier) == "" {
        return;
      }
      if f.row.None? || f.row.value !in db.users {
        return;
      }
      var user := f.row.value;
      if !db.users[user].active || TrimSpace(db.users[user].email) == "" || !f.smtp {
        return;
      }
      db.InvalidatePasswordResetTokens(user);
      var created := db.CreatePasswordResetToken(user, f.tokenHash, now + RESET_TTL);
    }

    // See Effects.ResetIsThrough, Credentials.ResetIsFinal.
    method ResetPasswordPost(now: int, f: ResetForm, nonce: string)
      requires Inv(db.Rows())
      modifies s, db
      ensures State() == Handlers.ResetPasswordPost(env, old(State()), now, f, nonce)
    {
      Base(nonce);
      if !CsrfOk(s.values, f.csrf) {
        return;
      }
      var found := db.GetValidPasswordResetToken(env.crypto.sha256(TrimSpace(f.token)), now);
      if found.None? {
        return;
      }
      var newPassword, confirm := TrimSpace(f.newPassword), TrimSpace(f.confirm);
      if newPassword != confirm {
        return;
      }
      var ok := ValidatePassword(newPassword);
      if !ok {
        return;
      }
      var user := db.tokens[found.value].owner;
      if user !in db.users || !db.users[user].active {
        return;
      }
      db.UpdateUserPassword(user, f.newHash);
      db.BumpSessionEpoch(user);
      db.MarkPasswordResetTokenUsed(found.value);
      db.InvalidatePasswordResetTokens(user);
      s.Save();
    }

    // ---------- /api/v1/session ----------

    // See AccountSafety.PollingKeepsNothingAlive, Administration.ReportExact.
    method GetSession(now: int, nonce: string) returns (state: SessionState)
      modifies s
      ensures State() == Handlers.GetSession(old(State()), s.decoded, now, nonce)
      ensures state == ReportedState(old(State()), s.decoded, now)
    {
      var reason, clear := s.Validate(db, now, false);
      if s.decoded && IsPending2FA(s.values, now) {
        state := SessionPendingMfa;
      } else if reason == Accepted {
        state := SessionAuthenticated(s.values.user.value);
      } else {
        state := SessionAnonymous;
      }
      if s.values.csrf == "" {
        s.values := s.values.(csrf := nonce);
      }
      s.Save();
    }

    /** The optional CSRF gate, then the operation. */
    // See Administration.ApiLogoutRevokesNothing.
    method DeleteSession(sent: string)
      modifies s
      ensures State() == Handlers.DeleteSession(old(State()), s.decoded, sent)
    {
      var want := "";
      if s.decoded {
        want := s.values.csrf;
      }
      if want != "" && (sent == "" || sent != want) {
        return;
      }
      if s.decoded {
        s.values := Empty;
        s.Save();
      }
    }

    // ---------- behind the gate ----------

    // See Effects.RowExact, Effects.AddedExact, Effects.RoleExact, Effects.FlagTurnsExactly.
    method UsersPost(now: int, csrf: string, act: UsersAction)
      requires Accepts(db.Rows(), s.values, now)
      modifies s, db
      ensures State() == Handlers.UsersPost(old(State()), now, csrf, act)
    {
      var self := s.values.user.value;
      if !RoleAllows(db.users[self].role, "admin") {
        return;
      }
      if !CsrfOk(s.values, csrf) {
        s.Save();
        return;
      }
      match act {
        case Create(name, password, role, newHash) =>
          var userName, newPassword := TrimSpace(name), TrimSpace(password);
          if userName != "" && newPassword != "" && ValidRole(role) {
            var ok := ValidatePassword(newPassword);
            if ok {
              var created := db.CreateUser(userName, newHash, role);
            }
          }
        case Delete(uid) =>
          if uid != self {
            db.DeleteUser(uid);
          }
        case ChangeRole(uid, role) =>
          if uid != self && ValidRole(role) {
            var updated := db.UpdateUserRole(uid, role);
          }
        case ToggleActive(uid) =>
          if uid != self {
            if uid !in db.users {
              return;
            }
            db.UpdateUserActive(uid, !db.users[uid].active);
          }
        case UnblockIp(ip) =>
          if ip == "" {
            return;
          }
        case ResetPassword(uid, newPassword, newHash) =>
          var ok := ValidatePassword(TrimSpace(newPassword));
          if ok {
            db.UpdateUserPassword(uid, newHash);
            db.BumpSessionEpoch(uid);
          }
        case OtherAction =>
          return;
      }
      s.Save();
    }

    // See Effects.AddedExact, Administration.RolesStayValid.
    method AdminUsersTempPost(now: int, csrf: string, f: TempForm)
      requires Accepts(db.Rows(), s.values, now)
      modifies s, db
      ensures State() == Handlers.AdminUsersTempPost(old(State()), now, csrf, f)
    {
      if !RoleAllows(db.users[s.values.user.value].role, "admin") {
        return;
      }
      if !CsrfOk(s.values, csrf) {
        s.Save();
        return;
      }
      var role := f.role;
      if !ValidRole(role) {
        role := "viewer";
      }
      var expires: int;
      match f.custom {
        case Malformed =>
          s.Save();
          return;
        case At(t) =>
          expires := t;
        case Blank =>
          var dur := PresetToDuration(f.preset);
          if dur <= 0 {
            dur := 24 * HOUR;
          }
          expires := now + dur;
      }
      if expires <= now + MINUTE {
        s.Save();
        return;
      }
      var ok := db.CreateTempUser(f.name, f.newHash, role, expires);
      s.Save();
    }

    // See LoginOutcomes.PasswordChangeKeepsSession, Effects.RowExact.
    method ProfilePost(now: int, csrf: string, act: ProfileAction)
      requires Accepts(db.Rows(), s.values, now)
      modifies s, db`users
      ensures State() == Handlers.ProfilePost(env, old(State()), now, csrf, act)
    {
      var self := s.values.user.value;
      if !CsrfOk(s.values, csrf) {
        s.Save();
        return;
      }
      match act {
        case Theme =>
          s.Save();
        case UpdateInfo(email, parses) =>
          if email == "" || parses {
            db.UpdateUserInfo(self, email);
          }
          s.Save();
        case ChangePassword(current, newPassword, confirm, newHash) =>
          if !VerifyPassword(env.crypto, current, db.users[self].hash) || TrimSpace(newPassword) != TrimSpace(confirm) {
            s.Save();
            return;
          }
          var ok := ValidatePassword(TrimSpace(newPassword));
          if ok {
            db.UpdateUserPassword(self, newHash);
            db.BumpSessionEpoch(self);
            s.values := s.values.(epoch := db.users[self].epoch);
          }
          s.Save();
        case OtherProfileAction =>
      }
    }

    // See Handlers.EnrolFine.
    method Profile2FAStart(now: int, csrf: string, secret: string)
      requires Accepts(db.Rows(), s.values, now)
      modifies s, db`users
      ensures State() == Handlers.Profile2FAStart(old(State()), now, csrf, secret)
    {
      if !CsrfOk(s.values, csrf) {
        s.Save();
        return;
      }
      if !db.users[s.values.user.value].totpEnabled {
        db.UpdateUserTOTPPending(s.values.user.value, secret);
      }
      s.Save();
    }

    // See Effects.EnrolmentExact.
    method Profile2FAConfirm(now: int, csrf: string, code: string, hashes: seq<string>)
      requires Accepts(db.Rows(), s.values, now)
      modifies s, db
      ensures State() == Handlers.Profile2FAConfirm(env, old(State()), now, csrf, code, hashes)
    {
      var self := s.values.user.value;
      if !CsrfOk(s.values, csrf) || db.users[self].totpPending == "" || db.users[self].totpEnabled {
        s.Save();
        return;
      }
      if !env.crypto.totp(TrimSpace(code), db.users[self].totpPending, now) {
        s.Save();
        return;
      }
      db.EnableUserTOTP(self, db.users[self].totpPending);
      db.ReplaceRecoveryCodes(self, hashes);
      s.Save();
    }

    // See Effects.RowExact, Credentials.HistoryIsTrue.
    method Profile2FADisable(now: int, csrf: string, password: string, code: string)
      requires Accepts(db.Rows(), s.values, now)
      modifies s, db
      ensures State() == Handlers.Profile2FADisable(env, old(State()), now, csrf, password, code)
    {
      var self := s.values.user.value;
      if !CsrfOk(s.values, csrf) {
        s.Save();
        return;
      }
      if !db.users[self].totpEnabled {
        return;
      }
      if !VerifyPassword(env.crypto, password, db.users[self].hash) {
        s.Save();
        return;
      }
      var ok := ValidateTOTP(self, db.users[self].totpSecret, TrimSpace(code), now);
      if ok {
        db.DisableUserTOTP(self);
      }
      s.Save();
    }
  }
}
