/**
  The account tables and the row effect of every statement the program issues on
  them (backend/db/users.go, backend/db/password_reset.go). Each statement keeps
  the invariant `Inv` and only lets the tables grow in the sense of `Grows`:
  epochs never fall, serial ids are never reused, what was used stays used.
  The log is a history of successful steps; it is what the run properties speak
  about, and no statement reads it.
 */
module Accounts {
  import opened Common

  datatype User = User(
    name: string, hash: string, role: string, active: bool, email: string,
    totpEnabled: bool, totpSecret: string, totpPending: string, totpLastStep: int,
    epoch: int, source: string, temporary: bool, expires: Option<int>)

  datatype RecoveryCode = RecoveryCode(owner: int, hash: string, used: bool)

  datatype ResetToken = ResetToken(owner: int, hash: string, expires: int, used: bool)

  datatype LoginPath = ByPassword | BySecondFactor | ByOidc

  datatype Event =
    | PasswordOk(user: int, at: int)          // password accepted, second factor still due
    | TotpOk(user: int, step: int)            // a time-based code accepted at this time step
    | TotpOff(user: int)                      // second factor disabled
    | RecoveryOk(user: int, code: int)        // a recovery code consumed
    | ResetDone(user: int, token: int)        // a reset token completed a reset
    | Login(user: int, at: int, csrf: string, path: LoginPath, totp: bool)  // totp: the row's flag then
    | Slide(user: int, at: int, csrf: string) // an accepted request that renewed the idle window

  datatype Db = Db(
    users: map<int, User>, nextUser: int,
    codes: map<int, RecoveryCode>, nextCode: int,
    tokens: map<int, ResetToken>, nextToken: int,
    log: seq<Event>)

  const LOCAL := "local"
  const OIDC := "oidc"
  const OIDC_SENTINEL := "oidc:jumpcloud"
  const SECOND := 1_000_000_000
  const PENDING_TTL := 5 * 60 * SECOND

  /** time.Time.Unix of an instant given in nanoseconds. */
  function Unix(at: int): int {
    at / SECOND
  }

  predicate ValidRole(role: string) {
    role == "viewer" || role == "manager" || role == "admin"
  }

  // ---------- the invariant ----------

  ghost predicate UsersInv(db: Db) {
    && 1 <= db.nextUser
    && (forall u | u in db.users :: 1 <= u < db.nextUser && ValidRole(db.users[u].role))
    && (forall u, v | u in db.users && v in db.users && db.users[u].name == db.users[v].name :: u == v)
  }

  ghost predicate CodesInv(db: Db) {
    forall c | c in db.codes :: c < db.nextCode && db.codes[c].owner in db.users
  }

  /** Hashes are unique, and each user has at most one unused token. */
  ghost predicate TokensInv(db: Db) {
    && (forall t | t in db.tokens :: t < db.nextToken && db.tokens[t].owner in db.users)
    && (forall s, t | s in db.tokens && t in db.tokens && db.tokens[s].hash == db.tokens[t].hash :: s == t)
    && (forall s, t | s in db.tokens && t in db.tokens && !db.tokens[s].used && !db.tokens[t].used
                      && db.tokens[s].owner == db.tokens[t].owner :: s == t)
  }

  /** The second factor of `user` was not disabled strictly between two positions of the log. */
  ghost predicate Unbroken(log: seq<Event>, i: int, j: int, user: int) {
    forall k | 0 <= k < |log| && i < k < j :: log[k] != TotpOff(user)
  }

  /** Accepted time steps rise between disables, and the row remembers the last. */
  ghost predicate StepsInv(db: Db) {
    && (forall i | 0 <= i < |db.log| && db.log[i].TotpOk? :: db.log[i].user < db.nextUser)
    && (forall i | 0 <= i < |db.log| && db.log[i].TotpOk? && db.log[i].user in db.users
                   && Unbroken(db.log, i, |db.log|, db.log[i].user) ::
          db.log[i].step <= db.users[db.log[i].user].totpLastStep)
    && (forall i, j | 0 <= i < j < |db.log| && db.log[i].TotpOk? && db.log[j].TotpOk?
                      && db.log[i].user == db.log[j].user && Unbroken(db.log, i, j, db.log[i].user) ::
          db.log[i].step < db.log[j].step)
  }

  /** A consumed recovery code stays consumed, and none is consumed twice. */
  ghost predicate RecoveryInv(db: Db) {
    && (forall i | 0 <= i < |db.log| && db.log[i].RecoveryOk? ::
          db.log[i].code < db.nextCode && (db.log[i].code in db.codes ==> db.codes[db.log[i].code].used))
    && (forall i, j | 0 <= i < j < |db.log| && db.log[i].RecoveryOk? && db.log[j].RecoveryOk? ::
          db.log[i].code != db.log[j].code)
  }

  /** A reset token that completed a reset stays used, and none completes two. */
  ghost predicate ResetInv(db: Db) {
    && (forall i | 0 <= i < |db.log| && db.log[i].ResetDone? ::
          db.log[i].token < db.nextToken && (db.log[i].token in db.tokens ==> db.tokens[db.log[i].token].used))
    && (forall i, j | 0 <= i < j < |db.log| && db.log[i].ResetDone? && db.log[j].ResetDone? ::
          db.log[i].token != db.log[j].token)
  }

  /** The password was accepted before position n, at most one pending TTL before `at` in whole seconds. */
  ghost predicate PasswordBefore(log: seq<Event>, n: int, user: int, at: int) {
    exists j, t :: 0 <= j < |log| && j < n && log[j] == PasswordOk(user, t) && t <= at && Unix(at) <= Unix(t + PENDING_TTL)
  }

  /** What stands behind a login at position i of the log. */
  ghost predicate LoginEarned(log: seq<Event>, i: int)
    requires 0 <= i < |log| && log[i].Login?
  {
    var e := log[i];
    && (e.path == ByPassword ==> !e.totp)
    && (e.path == BySecondFactor ==>
          && e.totp && i >= 1
          && (log[i - 1] == TotpOk(e.user, Unix(e.at) / 30) || (log[i - 1].RecoveryOk? && log[i - 1].user == e.user))
          && PasswordBefore(log, i, e.user, e.at))
  }

  ghost predicate LoginsInv(db: Db) {
    forall i | 0 <= i < |db.log| && db.log[i].Login? :: LoginEarned(db.log, i)
  }

  ghost predicate Inv(db: Db) {
    UsersInv(db) && CodesInv(db) && TokensInv(db) && StepsInv(db) && RecoveryInv(db) && ResetInv(db) && LoginsInv(db)
  }

  // ---------- growth ----------

  /** What no statement ever undoes. */
  ghost predicate Grows(a: Db, b: Db) {
    && a.nextUser <= b.nextUser && a.nextCode <= b.nextCode && a.nextToken <= b.nextToken
    && a.log <= b.log
    && (forall u | u in b.users :: if u in a.users then a.users[u].epoch <= b.users[u].epoch else u >= a.nextUser)
    && (forall c | c in b.codes :: if c in a.codes then a.codes[c].used ==> b.codes[c].used else c >= a.nextCode)
    && (forall t | t in b.tokens ::
          if t in a.tokens then b.tokens[t].hash == a.tokens[t].hash && (a.tokens[t].used ==> b.tokens[t].used)
          else t >= a.nextToken)
  }

  lemma GrowsThrough(a: Db, b: Db, c: Db)
    requires Inv(a) && Inv(b) && Grows(a, b) && Grows(b, c)
    ensures Grows(a, c)
  {
    forall u | u in c.users
      ensures if u in a.users then a.users[u].epoch <= c.users[u].epoch else u >= a.nextUser
    {
      assert u in a.users ==> u < a.nextUser;
    }
    forall k | k in c.codes
      ensures if k in a.codes then a.codes[k].used ==> c.codes[k].used else k >= a.nextCode
    {
      assert k in a.codes ==> k < a.nextCode;
    }
    forall t | t in c.tokens
      ensures if t in a.tokens then c.tokens[t].hash == a.tokens[t].hash && (a.tokens[t].used ==> c.tokens[t].used)
              else t >= a.nextToken
    {
      assert t in a.tokens ==> t < a.nextToken;
    }
  }

  /** Growth that leaves the log alone and lets no remembered time step fall. */
  ghost predicate Quiet(a: Db, b: Db) {
    && Grows(a, b) && a.log == b.log
    && forall u | u in a.users && u in b.users :: a.users[u].totpLastStep <= b.users[u].totpLastStep
  }

  lemma QuietKeepsLog(a: Db, b: Db)
    requires Inv(a) && Quiet(a, b)
    ensures StepsInv(b) && RecoveryInv(b) && ResetInv(b) && LoginsInv(b)
  {
    forall i | 0 <= i < |b.log| && b.log[i].TotpOk? && b.log[i].user in b.users
               && Unbroken(b.log, i, |b.log|, b.log[i].user)
      ensures b.log[i].step <= b.users[b.log[i].user].totpLastStep
    {
      assert b.log[i].user < a.nextUser;
    }
  }

  /** One row changes but keeps its name, a valid role, its epoch or a later one, its time step or a later one. */
  lemma RowChange(db: Db, id: int, row: User)
    requires Inv(db) && id in db.users && ValidRole(row.role)
    requires row.name == db.users[id].name && row.epoch >= db.users[id].epoch
    requires row.totpLastStep >= db.users[id].totpLastStep
    ensures Inv(db.(users := db.users[id := row])) && Grows(db, db.(users := db.users[id := row]))
  {
    var after := db.(users := db.users[id := row]);
    assert Quiet(db, after);
    QuietKeepsLog(db, after);
  }

  // ---------- users ----------

  function UpdateUserRole(db: Db, id: int, role: string): Result<Db> {
    if !ValidRole(role) then Err
    else if id !in db.users then Ok(db)
    else Ok(db.(users := db.users[id := db.users[id].(role := role, epoch := db.users[id].epoch + 1)]))
  }

  function UpdateUserActive(db: Db, id: int, active: bool): Db {
    if id !in db.users then db
    else if active then db.(users := db.users[id := db.users[id].(active := true)])
    else db.(users := db.users[id := db.users[id].(active := false, epoch := db.users[id].epoch + 1)])
  }

  function BumpSessionEpoch(db: Db, id: int): Db {
    if id !in db.users then db
    else db.(users := db.users[id := db.users[id].(epoch := db.users[id].epoch + 1)])
  }

  function UpdateUserPassword(db: Db, id: int, hash: string): Db {
    if id !in db.users then db else db.(users := db.users[id := db.users[id].(hash := hash)])
  }

  function UpdateUserInfo(db: Db, id: int, email: string): Db {
    if id !in db.users then db else db.(users := db.users[id := db.users[id].(email := email)])
  }

  function UpdateUserTOTPPending(db: Db, id: int, secret: string): Db {
    if id !in db.users then db else db.(users := db.users[id := db.users[id].(totpPending := secret)])
  }

  function EnableUserTOTP(db: Db, id: int, secret: string): Db {
    if id !in db.users then db
    else db.(users := db.users[id := db.users[id].(totpEnabled := true, totpSecret := secret, totpPending := "")])
  }

  function CodesNotOf(codes: map<int, RecoveryCode>, owner: int): map<int, RecoveryCode> {
    map c | c in codes && codes[c].owner != owner :: codes[c]
  }

  /** The row's second factor goes, its remembered step with it, and so do its recovery codes. */
  function DisableUserTOTP(db: Db, id: int): Db {
    if id !in db.users then db
    else
      db.(users := db.users[id := db.users[id].(totpEnabled := false, totpSecret := "", totpPending := "", totpLastStep := 0)],
          codes := CodesNotOf(db.codes, id), log := db.log + [TotpOff(id)])
  }

  function SetTOTPLastStep(db: Db, id: int, step: int): Db {
    if id !in db.users then db
    else db.(users := db.users[id := db.users[id].(totpLastStep := step)], log := db.log + [TotpOk(id, step)])
  }

  // ---------- recovery codes ----------

  /** A new batch replaces whatever the user had. */
  function ReplaceRecoveryCodes(db: Db, id: int, hashes: seq<string>): Db {
    AddRecoveryCodes(db.(codes := CodesNotOf(db.codes, id)), id, hashes)
  }

  function AddRecoveryCodes(db: Db, id: int, hashes: seq<string>): Db {
    if hashes == [] then db
    else
      var before := AddRecoveryCodes(db, id, hashes[..|hashes| - 1]);
      before.(codes := before.codes[before.nextCode := RecoveryCode(id, hashes[|hashes| - 1], false)],
              nextCode := before.nextCode + 1)
  }

  /** A batch of codes touches nothing but the codes. */
  lemma {:induction false} AddCodesFrame(db: Db, id: int, hashes: seq<string>)
    ensures var r := AddRecoveryCodes(db, id, hashes);
            r.log == db.log && r.users == db.users && r.tokens == db.tokens && r.nextUser == db.nextUser
  {
    if hashes != [] {
      AddCodesFrame(db, id, hashes[..|hashes| - 1]);
    }
  }

  function GetUnusedRecoveryCodes(db: Db, id: int): map<int, string> {
    map c | c in db.codes && db.codes[c].owner == id && !db.codes[c].used :: db.codes[c].hash
  }

  function UseRecoveryCode(db: Db, code: int): Db {
    if code !in db.codes || db.codes[code].used then db
    else db.(codes := db.codes[code := db.codes[code].(used := true)],
             log := db.log + [RecoveryOk(db.codes[code].owner, code)])
  }

  /** An entry of the history that comes with no statement. */
  function Note(db: Db, e: Event): Db {
    db.(log := db.log + [e])
  }

  // ---------- rows come and go ----------

  predicate NameTaken(db: Db, name: string) {
    exists u :: u in db.users && db.users[u].name == name
  }

  ghost function GetUserByUsername(db: Db, name: string): (r: Option<int>)
    ensures r.Some? ==> r.value in db.users && db.users[r.value].name == name
    ensures r.None? ==> !NameTaken(db, name)
  {
    if NameTaken(db, name) then
      var u :| u in db.users && db.users[u].name == name;
      Some(u)
    else None
  }

  /** The UNIQUE constraint on names may refuse it. */
  function InsertUser(db: Db, row: User): Result<Db> {
    if NameTaken(db, row.name) then Err
    else Ok(db.(users := db.users[db.nextUser := row], nextUser := db.nextUser + 1))
  }

  function NewRow(name: string, hash: string, role: string, source: string, temporary: bool, expires: Option<int>): User {
    User(name, hash, role, true, "", false, "", "", 0, 0, source, temporary, expires)
  }

  function CreateUser(db: Db, name: string, hash: string, role: string): Result<Db> {
    if !ValidRole(role) then Err else InsertUser(db, NewRow(name, hash, role, LOCAL, false, None))
  }

  /** The role is not checked here. */
  function CreateTempUser(db: Db, name: string, hash: string, role: string, expires: int): Result<Db> {
    InsertUser(db, NewRow(name, hash, role, LOCAL, true, Some(expires)))
  }

  /** Insert, or update the row of that name when it is an OIDC row; a local row is an error. */
  ghost function UpsertOIDCUser(db: Db, name: string, role: string, syncRole: bool): Result<Db> {
    if !ValidRole(role) then Err
    else
      match GetUserByUsername(db, name)
      case None => InsertUser(db, NewRow(name, OIDC_SENTINEL, role, OIDC, false, None))
      case Some(u) =>
        if db.users[u].source != OIDC then Err
        else if syncRole then Ok(db.(users := db.users[u := db.users[u].(role := role)]))
        else Ok(db)
  }

  /** The row's recovery codes and reset tokens go with it. */
  function DeleteUser(db: Db, id: int): Db {
    db.(users := db.users - {id}, codes := CodesNotOf(db.codes, id),
        tokens := map t | t in db.tokens && db.tokens[t].owner != id :: db.tokens[t])
  }

  predicate Overdue(row: User, now: int) {
    row.temporary && row.active && row.expires.Some? && row.expires.value < now
  }

  function ExpireOverdueTempUsers(db: Db, now: int): Db {
    db.(users := map u | u in db.users ::
          if Overdue(db.users[u], now)
          then db.users[u].(active := false, epoch := db.users[u].epoch + 1) else db.users[u])
  }

  // ---------- reset tokens ----------

  predicate HasUnusedToken(db: Db, id: int) {
    exists t :: t in db.tokens && db.tokens[t].owner == id && !db.tokens[t].used
  }

  predicate TokenHashTaken(db: Db, hash: string) {
    exists t :: t in db.tokens && db.tokens[t].hash == hash
  }

  function InvalidatePasswordResetTokens(db: Db, id: int): Db {
    db.(tokens := map t | t in db.tokens ::
          if db.tokens[t].owner == id then db.tokens[t].(used := true) else db.tokens[t])
  }

  function CreatePasswordResetToken(db: Db, id: int, hash: string, expires: int): Result<Db> {
    if TokenHashTaken(db, hash) || id !in db.users then Err
    else Ok(db.(tokens := db.tokens[db.nextToken := ResetToken(id, hash, expires, false)],
                nextToken := db.nextToken + 1))
  }

  predicate UsableToken(db: Db, t: int, hash: string, now: int) {
    t in db.tokens && db.tokens[t].hash == hash && !db.tokens[t].used && db.tokens[t].expires > now
  }

  ghost function GetValidPasswordResetToken(db: Db, hash: string, now: int): (r: Option<int>)
    ensures r.Some? ==> UsableToken(db, r.value, hash, now)
    ensures r.None? ==> forall t :: !UsableToken(db, t, hash, now)
  {
    if exists t :: UsableToken(db, t, hash, now) then
      var t :| UsableToken(db, t, hash, now);
      Some(t)
    else None
  }

  /** The token completes the reset of its owner. */
  function MarkPasswordResetTokenUsed(db: Db, t: int): Db {
    if t !in db.tokens || db.tokens[t].used then db
    else db.(tokens := db.tokens[t := db.tokens[t].(used := true)],
             log := db.log + [ResetDone(db.tokens[t].owner, t)])
  }

  // ---------- every statement keeps the invariant and grows ----------

  ghost predicate Sound(db: Db, after: Db) {
    Inv(after) && Grows(db, after)
  }

  lemma RoleUpdateSound(db: Db, id: int, role: string)
    requires Inv(db) && ValidRole(role)
    ensures Sound(db, UpdateUserRole(db, id, role).value)
  {
    if id in db.users {
      RowChange(db, id, db.users[id].(role := role, epoch := db.users[id].epoch + 1));
    }
  }

  lemma BumpSound(db: Db, id: int)
    requires Inv(db)
    ensures Sound(db, BumpSessionEpoch(db, id))
  {
    if id in db.users {
      var row := db.users[id].(epoch := db.users[id].epoch + 1);
      RowChange(db, id, row);
      assert BumpSessionEpoch(db, id) == db.(users := db.users[id := row]);
    }
  }

  lemma PasswordSound(db: Db, id: int, hash: string)
    requires Inv(db)
    ensures Sound(db, UpdateUserPassword(db, id, hash))
  {
    if id in db.users {
      RowChange(db, id, db.users[id].(hash := hash));
    }
  }

  lemma InfoSound(db: Db, id: int, email: string)
    requires Inv(db)
    ensures Sound(db, UpdateUserInfo(db, id, email))
  {
    if id in db.users {
      RowChange(db, id, db.users[id].(email := email));
    }
  }

  lemma ActiveUpdateSound(db: Db, id: int, active: bool)
    requires Inv(db)
    ensures Sound(db, UpdateUserActive(db, id, active))
  {
    if id in db.users {
      var row := if active then db.users[id].(active := true)
                 else db.users[id].(active := false, epoch := db.users[id].epoch + 1);
      RowChange(db, id, row);
      assert UpdateUserActive(db, id, active) == db.(users := db.users[id := row]);
    }
  }

  lemma EnrolmentSound(db: Db, id: int, secret: string)
    requires Inv(db)
    ensures Sound(db, UpdateUserTOTPPending(db, id, secret)) && Sound(db, EnableUserTOTP(db, id, secret))
  {
    if id in db.users {
      var row := db.users[id];
      RowChange(db, id, row.(totpPending := secret));
      RowChange(db, id, row.(totpEnabled := true, totpSecret := secret, totpPending := ""));
    }
  }

  lemma DisableSound(db: Db, id: int)
    requires Inv(db)
    ensures Sound(db, DisableUserTOTP(db, id))
  {
    if id in db.users {
      DisableKeepsSteps(db, id, DisableUserTOTP(db, id));
      OneEventKeepsRest(db, DisableUserTOTP(db, id));
    }
  }

  lemma DisableKeepsSteps(db: Db, id: int, after: Db)
    requires StepsInv(db) && after.log == db.log + [TotpOff(id)] && after.nextUser == db.nextUser
    requires after.users.Keys == db.users.Keys
    requires forall u | u in db.users && u != id :: after.users[u].totpLastStep == db.users[u].totpLastStep
    ensures StepsInv(after)
  {
    var n := |db.log|;
    forall i | 0 <= i < |after.log| && after.log[i].TotpOk? && after.log[i].user in after.users
               && Unbroken(after.log, i, |after.log|, after.log[i].user)
      ensures after.log[i].step <= after.users[after.log[i].user].totpLastStep
    {
      assert after.log[n] == TotpOff(id);
      assert after.log[i] == db.log[i] && Unbroken(db.log, i, n, db.log[i].user) by {
        assert forall k | 0 <= k < n :: after.log[k] == db.log[k];
      }
    }
    UnbrokenBelow(db.log, after.log);
  }

  /** Intervals within a prefix of the log look the same in the longer log. */
  lemma UnbrokenBelow(log: seq<Event>, more: seq<Event>)
    requires log <= more
    ensures forall i, j, u | 0 <= i < j < |log| :: Unbroken(more, i, j, u) ==> Unbroken(log, i, j, u)
  {
    assert forall k | 0 <= k < |log| :: more[k] == log[k];
  }

  lemma EarnedBelow(log: seq<Event>, more: seq<Event>)
    requires log <= more
    ensures forall i | 0 <= i < |log| && log[i].Login? && LoginEarned(log, i) :: LoginEarned(more, i)
  {
    forall i | 0 <= i < |log| && log[i].Login? && LoginEarned(log, i)
      ensures LoginEarned(more, i)
    {
      assert more[i] == log[i] && (i >= 1 ==> more[i - 1] == log[i - 1]);
      if log[i].path == BySecondFactor {
        var j, t :| 0 <= j < |log| && j < i && log[j] == PasswordOk(log[i].user, t)
                    && t <= log[i].at && Unix(log[i].at) <= Unix(t + PENDING_TTL);
        assert more[j] == PasswordOk(log[i].user, t);
      }
    }
  }

  /** An event of the second factor alone says nothing of codes, tokens or logins. */
  lemma OneEventKeepsRest(db: Db, after: Db)
    requires RecoveryInv(db) && ResetInv(db) && LoginsInv(db)
    requires |after.log| == |db.log| + 1 && db.log <= after.log
    requires after.log[|db.log|].TotpOk? || after.log[|db.log|].TotpOff?
    requires after.tokens == db.tokens && after.nextToken == db.nextToken && after.nextCode == db.nextCode
    requires forall c | c in after.codes :: c in db.codes && after.codes[c] == db.codes[c]
    ensures RecoveryInv(after) && ResetInv(after) && LoginsInv(after)
  {
    EarnedBelow(db.log, after.log);
  }

  /** A step is recorded only when it is later than the last. */
  lemma StepSound(db: Db, id: int, step: int)
    requires Inv(db) && id in db.users && db.users[id].totpLastStep < step
    ensures Sound(db, SetTOTPLastStep(db, id, step))
  {
    StepAccepted(db, id, step);
    OneEventKeepsRest(db, SetTOTPLastStep(db, id, step));
  }

  lemma StepAccepted(db: Db, id: int, step: int)
    requires UsersInv(db) && StepsInv(db) && id in db.users && db.users[id].totpLastStep < step
    ensures StepsInv(db.(users := db.users[id := db.users[id].(totpLastStep := step)], log := db.log + [TotpOk(id, step)]))
  {
    var after := db.(users := db.users[id := db.users[id].(totpLastStep := step)], log := db.log + [TotpOk(id, step)]);
    var n := |db.log|;
    UnbrokenBelow(db.log, after.log);
    forall i | 0 <= i < n && db.log[i].TotpOk? && db.log[i].user in db.users && Unbroken(after.log, i, n, db.log[i].user)
      ensures db.log[i].step <= db.users[db.log[i].user].totpLastStep
    {
      assert forall k | 0 <= k < n :: after.log[k] == db.log[k];
      assert Unbroken(db.log, i, n, db.log[i].user);
    }
    forall i | 0 <= i < n && after.log[i].TotpOk? && after.log[i].user in after.users
               && Unbroken(after.log, i, n + 1, after.log[i].user)
      ensures after.log[i].step <= after.users[after.log[i].user].totpLastStep
    {
      assert Unbroken(after.log, i, n, after.log[i].user);
    }
  }

  lemma ReplaceCodesSound(db: Db, id: int, hashes: seq<string>)
    requires Inv(db) && id in db.users
    ensures Sound(db, ReplaceRecoveryCodes(db, id, hashes))
  {
    var emptied := db.(codes := CodesNotOf(db.codes, id));
    assert Quiet(db, emptied);
    QuietKeepsLog(db, emptied);
    AddCodesSound(emptied, id, hashes);
    GrowsThrough(db, emptied, ReplaceRecoveryCodes(db, id, hashes));
  }

  lemma {:induction false} AddCodesSound(db: Db, id: int, hashes: seq<string>)
    requires Inv(db) && id in db.users
    ensures Sound(db, AddRecoveryCodes(db, id, hashes)) && AddRecoveryCodes(db, id, hashes).users == db.users
  {
    if hashes != [] {
      var before, after := AddRecoveryCodes(db, id, hashes[..|hashes| - 1]), AddRecoveryCodes(db, id, hashes);
      AddCodesSound(db, id, hashes[..|hashes| - 1]);
      assert Quiet(before, after);
      QuietKeepsLog(before, after);
      GrowsThrough(db, before, after);
    }
  }

  lemma UseCodeSound(db: Db, code: int)
    requires Inv(db)
    ensures Sound(db, UseRecoveryCode(db, code))
  {
    if code in db.codes && !db.codes[code].used {
      AppendKeepsSteps(db, UseRecoveryCode(db, code));
      EarnedBelow(db.log, UseRecoveryCode(db, code).log);
      CodeUsedOnce(db, code);
    }
  }

  lemma AppendKeepsSteps(db: Db, after: Db)
    requires StepsInv(db) && |after.log| == |db.log| + 1 && db.log <= after.log && !after.log[|db.log|].TotpOk?
    requires after.users == db.users && after.nextUser == db.nextUser
    ensures StepsInv(after)
  {
    var n := |db.log|;
    UnbrokenBelow(db.log, after.log);
    forall i | 0 <= i < n && after.log[i].TotpOk? && after.log[i].user in after.users
               && Unbroken(after.log, i, n + 1, after.log[i].user)
      ensures after.log[i].step <= after.users[after.log[i].user].totpLastStep
    {
      assert forall k | 0 <= k < n :: after.log[k] == db.log[k];
      assert Unbroken(db.log, i, n, db.log[i].user);
    }
  }

  lemma NoteSound(db: Db, e: Event)
    requires Inv(db) && (e.PasswordOk? || e.Slide? || e.Login?)
    requires e.Login? ==> LoginEarned(db.log + [e], |db.log|)
    ensures Sound(db, Note(db, e))
  {
    AppendKeepsSteps(db, Note(db, e));
    NoteKeepsUses(db, e);
    NoteKeepsLogins(db, e);
  }

  lemma NoteKeepsUses(db: Db, e: Event)
    requires RecoveryInv(db) && ResetInv(db) && (e.PasswordOk? || e.Slide? || e.Login?)
    ensures RecoveryInv(db.(log := db.log + [e])) && ResetInv(db.(log := db.log + [e]))
  {
  }

  lemma NoteKeepsLogins(db: Db, e: Event)
    requires LoginsInv(db) && (e.Login? ==> LoginEarned(db.log + [e], |db.log|))
    ensures LoginsInv(db.(log := db.log + [e]))
  {
    EarnedBelow(db.log, db.log + [e]);
  }

  lemma InsertSound(db: Db, row: User)
    requires Inv(db) && ValidRole(row.role) && InsertUser(db, row).Ok?
    ensures Sound(db, InsertUser(db, row).value) && NameTaken(InsertUser(db, row).value, row.name)
  {
    var after := InsertUser(db, row).value;
    assert Quiet(db, after);
    QuietKeepsLog(db, after);
    assert after.users[db.nextUser].name == row.name;
  }

  lemma UpsertSound(db: Db, name: string, role: string, syncRole: bool)
    requires Inv(db) && UpsertOIDCUser(db, name, role, syncRole).Ok?
    ensures Sound(db, UpsertOIDCUser(db, name, role, syncRole).value)
    ensures NameTaken(UpsertOIDCUser(db, name, role, syncRole).value, name)
  {
    match GetUserByUsername(db, name)
    case None => InsertSound(db, NewRow(name, OIDC_SENTINEL, role, OIDC, false, None));
    case Some(u) =>
      RowChange(db, u, db.users[u].(role := role));
      assert UpsertOIDCUser(db, name, role, syncRole).value.users[u].name == name;
  }

  lemma DeleteSound(db: Db, id: int)
    requires Inv(db)
    ensures Sound(db, DeleteUser(db, id))
  {
    assert Quiet(db, DeleteUser(db, id));
    QuietKeepsLog(db, DeleteUser(db, id));
  }

  lemma ExpirySound(db: Db, now: int)
    requires Inv(db)
    ensures Sound(db, ExpireOverdueTempUsers(db, now))
  {
    assert Quiet(db, ExpireOverdueTempUsers(db, now));
    QuietKeepsLog(db, ExpireOverdueTempUsers(db, now));
  }

  lemma InvalidateSound(db: Db, id: int)
    requires Inv(db)
    ensures Sound(db, InvalidatePasswordResetTokens(db, id))
    ensures !HasUnusedToken(InvalidatePasswordResetTokens(db, id), id)
  {
    InvalidateKeepsTokens(db, id);
    InvalidateQuiet(db, id);
    QuietKeepsLog(db, InvalidatePasswordResetTokens(db, id));
  }

  lemma InvalidateKeepsTokens(db: Db, id: int)
    requires TokensInv(db)
    ensures TokensInv(InvalidatePasswordResetTokens(db, id))
    ensures !HasUnusedToken(InvalidatePasswordResetTokens(db, id), id)
  {
  }

  lemma InvalidateQuiet(db: Db, id: int)
    ensures Quiet(db, InvalidatePasswordResetTokens(db, id))
  {
  }

  /** A token is created only when the user has no unused one left. */
  lemma CreateTokenSound(db: Db, id: int, hash: string, expires: int)
    requires Inv(db) && !HasUnusedToken(db, id) && CreatePasswordResetToken(db, id, hash, expires).Ok?
    ensures Sound(db, CreatePasswordResetToken(db, id, hash, expires).value)
  {
    assert Quiet(db, CreatePasswordResetToken(db, id, hash, expires).value);
    QuietKeepsLog(db, CreatePasswordResetToken(db, id, hash, expires).value);
  }

  lemma MarkUsedSound(db: Db, t: int)
    requires Inv(db)
    ensures Sound(db, MarkPasswordResetTokenUsed(db, t))
  {
    if t in db.tokens && !db.tokens[t].used {
      AppendKeepsSteps(db, MarkPasswordResetTokenUsed(db, t));
      EarnedBelow(db.log, MarkPasswordResetTokenUsed(db, t).log);
      TokenUsedOnce(db, t);
    }
  }

  lemma CodeUsedOnce(db: Db, code: int)
    requires CodesInv(db) && RecoveryInv(db) && ResetInv(db) && code in db.codes && !db.codes[code].used
    ensures CodesInv(UseRecoveryCode(db, code)) && RecoveryInv(UseRecoveryCode(db, code))
    ensures ResetInv(UseRecoveryCode(db, code))
  {
  }

  lemma TokenUsedOnce(db: Db, t: int)
    requires ResetInv(db) && RecoveryInv(db) && TokensInv(db) && t in db.tokens && !db.tokens[t].used
    ensures ResetInv(MarkPasswordResetTokenUsed(db, t)) && RecoveryInv(MarkPasswordResetTokenUsed(db, t))
    ensures TokensInv(MarkPasswordResetTokenUsed(db, t))
  {
  }

  lemma SoundThrough(a: Db, b: Db, c: Db)
    requires Inv(a) && Sound(a, b) && Sound(b, c)
    ensures Sound(a, c)
  {
    GrowsThrough(a, b, c);
  }
}
