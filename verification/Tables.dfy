/**
  The account tables as the program changes them (backend/db/users.go,
  backend/db/password_reset.go): one method a statement, in place. `Rows` is the
  value the statements' row effects are stated on; the history is ghost.
  The note on a method names what is proved of that function.
 */
module Tables {
  import opened Common
  import opened Accounts

  class Database {
    var users: map<int, User>
    var nextUser: int
    var codes: map<int, RecoveryCode>
    var nextCode: int
    var tokens: map<int, ResetToken>
    var nextToken: int
    ghost var log: seq<Event>

    ghost function Rows(): Db
      reads this
    {
      Db(users, nextUser, codes, nextCode, tokens, nextToken, log)
    }

    /** Empty tables, serial ids from 1. */
    constructor ()
      ensures Inv(Rows()) && users == map[] && tokens == map[] && codes == map[] && log == []
    {
      users, nextUser, codes, nextCode, tokens, nextToken := map[], 1, map[], 1, map[], 1;
      log := [];
    }

    // ---------- users ----------

    // See Accounts.InsertSound.
    method CreateUser(name: string, hash: string, role: string) returns (ok: bool)
      modifies this
      ensures var r := Accounts.CreateUser(old(Rows()), name, hash, role);
              ok == r.Ok? && Rows() == if ok then r.value else old(Rows())
    {
      if !ValidRole(role) {
        return false;
      }
      ok := Insert(NewRow(name, hash, role, LOCAL, false, None));
    }

    // See Accounts.InsertSound.
    method Insert(row: User) returns (ok: bool)
      modifies this
      ensures var r := InsertUser(old(Rows()), row); ok == r.Ok? && Rows() == if ok then r.value else old(Rows())
    {
      if exists u :: u in users && users[u].name == row.name {
        return false;
      }
      users := users[nextUser := row];
      nextUser := nextUser + 1;
      return true;
    }

    // See Accounts.InsertSound.
    method CreateTempUser(name: string, hash: string, role: string, expires: int) returns (ok: bool)
      modifies this
      ensures var r := Accounts.CreateTempUser(old(Rows()), name, hash, role, expires);
              ok == r.Ok? && Rows() == if ok then r.value else old(Rows())
    {
      ok := Insert(NewRow(name, hash, role, LOCAL, true, Some(expires)));
    }

    // See Accounts.GetUserByUsername, which names the one row.
    method GetUserByUsername(name: string) returns (r: Option<int>)
      requires Inv(Rows())
      ensures r == Accounts.GetUserByUsername(Rows(), name)
    {
      if exists u :: u in users && users[u].name == name {
        var u :| u in users && users[u].name == name;
        return Some(u);
      }
      return None;
    }

    // See Effects.RoleExact, Accounts.RoleUpdateSound.
    method UpdateUserRole(id: int, role: string) returns (ok: bool)
      modifies this`users
      ensures var r := Accounts.UpdateUserRole(old(Rows()), id, role);
              ok == r.Ok? && Rows() == if ok then r.value else old(Rows())
    {
      if !ValidRole(role) {
        return false;
      }
      if id in users {
        users := users[id := users[id].(role := role, epoch := users[id].epoch + 1)];
      }
      return true;
    }

    // See Effects.ToggleExact, Effects.FlagTurnsExactly, Standing.InactiveStaysOut.
    method UpdateUserActive(id: int, active: bool)
      modifies this`users
      ensures Rows() == Accounts.UpdateUserActive(old(Rows()), id, active)
    {
      if id !in users {
        return;
      }
      if !active {
        users := users[id := users[id].(active := false, epoch := users[id].epoch + 1)];
        return;
      }
      users := users[id := users[id].(active := true)];
    }

    // See Accounts.BumpSound, AccountSafety.RevocationIsForGood.
    method BumpSessionEpoch(id: int)
      modifies this`users
      ensures Rows() == Accounts.BumpSessionEpoch(old(Rows()), id)
    {
      if id in users {
        users := users[id := users[id].(epoch := users[id].epoch + 1)];
      }
    }

    // See Accounts.PasswordSound.
    method UpdateUserPassword(id: int, hash: string)
      modifies this`users
      ensures Rows() == Accounts.UpdateUserPassword(old(Rows()), id, hash)
    {
      if id in users {
        users := users[id := users[id].(hash := hash)];
      }
    }

    // See Accounts.InfoSound.
    method UpdateUserInfo(id: int, email: string)
      modifies this`users
      ensures Rows() == Accounts.UpdateUserInfo(old(Rows()), id, email)
    {
      if id in users {
        users := users[id := users[id].(email := email)];
      }
    }

    // See Accounts.EnrolmentSound.
    method UpdateUserTOTPPending(id: int, secret: string)
      modifies this`users
      ensures Rows() == Accounts.UpdateUserTOTPPending(old(Rows()), id, secret)
    {
      if id in users {
        users := users[id := users[id].(totpPending := secret)];
      }
    }

    // See Accounts.EnrolmentSound.
    method EnableUserTOTP(id: int, secret: string)
      modifies this`users
      ensures Rows() == Accounts.EnableUserTOTP(old(Rows()), id, secret)
    {
      if id in users {
        users := users[id := users[id].(totpEnabled := true, totpSecret := secret, totpPending := "")];
      }
    }

    /** Two statements: the row, then its recovery codes. */
    // See Accounts.DisableSound.
    method DisableUserTOTP(id: int)
      requires id in users
      modifies this
      ensures Rows() == Accounts.DisableUserTOTP(old(Rows()), id)
    {
      users := users[id := users[id].(totpEnabled := false, totpSecret := "", totpPending := "", totpLastStep := 0)];
      codes := map c | c in codes && codes[c].owner != id :: codes[c];
      log := log + [TotpOff(id)];
    }

    // See Accounts.StepSound, Credentials.NothingServesTwice.
    method SetTOTPLastStep(id: int, step: int)
      requires id in users
      modifies this`users, this`log
      ensures Rows() == Accounts.SetTOTPLastStep(old(Rows()), id, step)
    {
      users := users[id := users[id].(totpLastStep := step)];
      log := log + [TotpOk(id, step)];
    }

    // ---------- recovery codes ----------

    /** One transaction: the old batch goes, the new one is inserted hash by hash. */
    // See Effects.BatchExact, Effects.EnrolmentExact.
    method ReplaceRecoveryCodes(id: int, hashes: seq<string>)
      modifies this`codes, this`nextCode
      ensures Rows() == Accounts.ReplaceRecoveryCodes(old(Rows()), id, hashes)
    {
      codes := map c | c in codes && codes[c].owner != id :: codes[c];
      ghost var emptied := Rows();
      for k := 0 to |hashes|
        invariant Rows() == AddRecoveryCodes(emptied, id, hashes[..k])
      {
        assert hashes[..k + 1][..k] == hashes[..k];
        codes := codes[nextCode := RecoveryCode(id, hashes[k], false)];
        nextCode := nextCode + 1;
      }
      assert hashes[..|hashes|] == hashes;
    }

    /** The rows of the query gathered into a map, one by one. */
    // See Credentials.HistoryIsTrue.
    method GetUnusedRecoveryCodes(id: int) returns (out: map<int, string>)
      ensures out == Accounts.GetUnusedRecoveryCodes(Rows(), id)
    {
      var rows := map c | c in codes && codes[c].owner == id && !codes[c].used :: codes[c].hash;
      out := map[];
      var todo := rows.Keys;
      while todo != {}
        invariant todo <= rows.Keys
        invariant forall c :: c in out <==> c in rows && c !in todo
        invariant forall c | c in out :: out[c] == rows[c]
      {
        var c := AnyOf(todo);
        out := out[c := rows[c]];
        todo := todo - {c};
      }
      assert forall c :: c in out.Keys <==> c in rows.Keys;
      assert forall c | c in rows :: c in out && out[c] == rows[c];
      assert out == rows;
    }

    // See Accounts.UseCodeSound, Credentials.NothingServesTwice.
    method UseRecoveryCode(code: int)
      modifies this`codes, this`log
      ensures Rows() == Accounts.UseRecoveryCode(old(Rows()), code)
    {
      if code in codes && !codes[code].used {
        codes := codes[code := codes[code].(used := true)];
        log := log + [RecoveryOk(codes[code].owner, code)];
      }
    }

    // ---------- rows come and go ----------

    // See Accounts.UpsertSound, Administration.OidcTouchesOwnRows.
    method UpsertOIDCUser(name: string, role: string, syncRole: bool) returns (ok: bool)
      requires Inv(Rows())
      modifies this
      ensures var r := Accounts.UpsertOIDCUser(old(Rows()), name, role, syncRole);
              ok == r.Ok? && Rows() == if ok then r.value else old(Rows())
    {
      if !ValidRole(role) {
        return false;
      }
      var found := GetUserByUsername(name);
      if found.None? {
        ok := Insert(NewRow(name, OIDC_SENTINEL, role, OIDC, false, None));
        return;
      }
      if users[found.value].source != OIDC {
        return false;
      }
      if syncRole {
        users := users[found.value := users[found.value].(role := role)];
      }
      return true;
    }

    // See Accounts.DeleteSound, AccountSafety.RevocationIsForGood.
    method DeleteUser(id: int)
      modifies this
      ensures Rows() == Accounts.DeleteUser(old(Rows()), id)
    {
      users := users - {id};
      codes := map c | c in codes && codes[c].owner != id :: codes[c];
      tokens := map t | t in tokens && tokens[t].owner != id :: tokens[t];
    }

    /** One UPDATE over all rows; the number of rows it touched is returned. */
    // See Accounts.ExpirySound, Lineage.SweepExact.
    method ExpireOverdueTempUsers(now: int) returns (n: nat)
      modifies this`users
      ensures Rows() == Accounts.ExpireOverdueTempUsers(old(Rows()), now)
      ensures n == |set u | u in old(users) && Overdue(old(users)[u], now)|
    {
      var overdue := set u | u in users && Overdue(users[u], now);
      users := map u | u in users ::
        if u in overdue then users[u].(active := false, epoch := users[u].epoch + 1) else users[u];
      return |overdue|;
    }

    // ---------- reset tokens ----------

    // See Accounts.InvalidateSound.
    method InvalidatePasswordResetTokens(id: int)
      modifies this`tokens
      ensures Rows() == Accounts.InvalidatePasswordResetTokens(old(Rows()), id)
    {
      tokens := map t | t in tokens :: if tokens[t].owner == id then tokens[t].(used := true) else tokens[t];
    }

    // See Effects.IssuedTokenExact, Accounts.CreateTokenSound.
    method CreatePasswordResetToken(id: int, hash: string, expires: int) returns (ok: bool)
      modifies this`tokens, this`nextToken
      ensures var r := Accounts.CreatePasswordResetToken(old(Rows()), id, hash, expires);
              ok == r.Ok? && Rows() == if ok then r.value else old(Rows())
    {
      if id !in users || exists t :: t in tokens && tokens[t].hash == hash {
        return false;
      }
      tokens := tokens[nextToken := ResetToken(id, hash, expires, false)];
      nextToken := nextToken + 1;
      return true;
    }

    // See Accounts.GetValidPasswordResetToken, which bounds it both ways.
    method GetValidPasswordResetToken(hash: string, now: int) returns (r: Option<int>)
      requires Inv(Rows())
      ensures r == Accounts.GetValidPasswordResetToken(Rows(), hash, now)
    {
      if exists t :: t in tokens && tokens[t].hash == hash && !tokens[t].used && tokens[t].expires > now {
        var t :| t in tokens && tokens[t].hash == hash && !tokens[t].used && tokens[t].expires > now;
        assert UsableToken(Rows(), t, hash, now);
        return Some(t);
      }
      return None;
    }

    // See Accounts.MarkUsedSound, Credentials.NothingServesTwice.
    method MarkPasswordResetTokenUsed(t: int)
      modifies this`tokens, this`log
      ensures Rows() == Accounts.MarkPasswordResetTokenUsed(old(Rows()), t)
    {
      if t in tokens && !tokens[t].used {
        tokens := tokens[t := tokens[t].(used := true)];
        log := log + [ResetDone(tokens[t].owner, t)];
      }
    }

    /** History only. */
    ghost method Record(e: Event)
      modifies this`log
      ensures Rows() == Note(old(Rows()), e)
    {
      log := log + [e];
    }
  }
}
