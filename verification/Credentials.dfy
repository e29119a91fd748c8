/**
  Second factors, recovery codes and reset tokens over whole runs: what each entry
  of the history stands for, and what no run repeats.
 */
module Credentials {
  import opened Common
  import opened Text
  import opened Accounts
  import opened Passwords
  import opened Sessions
  import opened Requests
  import opened Handlers
  import opened Lineage
  import opened Runs
  import opened AccountSafety

  // ---------- what an entry means when it is written ----------

  /** The circumstances in which request `q`, presenting `v` at `now`, may log `e`. */
  ghost predicate Warranted(env: Env, o: Out, now: int, q: Request, nonce: string, after: Db, e: Event) {
    match e
    case PasswordOk(user, at) =>
      && q.PostLogin? && at == now && user in o.db.users && o.db.users[user].name == TrimSpace(q.form.name)
      && o.db.users[user].active && o.db.users[user].totpEnabled
      && VerifyPassword(env.crypto, q.form.password, o.db.users[user].hash)
    case Login(user, at, csrf, path, totp) =>
      && at == now && csrf == nonce && user in after.users && after.users[user].active
      && totp == after.users[user].totpEnabled
      && (path == ByOidc <==> q.OidcReturn?)
      && (path == ByPassword ==>
            && q.PostLogin? && user in o.db.users && o.db.users[user].name == TrimSpace(q.form.name)
            && VerifyPassword(env.crypto, q.form.password, o.db.users[user].hash))
      && (path == BySecondFactor ==> q.PostLogin? && user == PendingUser(o.values, now))
    case TotpOk(user, step) =>
      && step == Unix(now) / 30 && user in o.db.users && o.db.users[user].totpEnabled
      && o.db.users[user].totpLastStep < step
      && ((q.PostLogin? && env.crypto.totp(q.form.code, o.db.users[user].totpSecret, now))
          || (q.Disable2FA? && env.crypto.totp(TrimSpace(q.code), o.db.users[user].totpSecret, now)))
    case RecoveryOk(user, code) =>
      && q.PostLogin? && code in o.db.codes && !o.db.codes[code].used && o.db.codes[code].owner == user
      && VerifyPassword(env.crypto, NormalCode(q.form.recovery), o.db.codes[code].hash)
    case TotpOff(user) => q.Disable2FA? && o.values.user == Some(user) && user in after.users && !after.users[user].totpEnabled
    case ResetDone(user, token) =>
      && q.PostReset? && ResetCompletes(env, o, now, q.reset, nonce, user)
      && UsableToken(o.db, token, env.crypto.sha256(TrimSpace(q.reset.token)), now) && o.db.tokens[token].owner == user
    case Slide(user, at, csrf) =>
      && at == now && BehindGate(q) && o.values.user == Some(user) && o.values.csrf == csrf
      && Accepts(o.db, o.values, now)
  }

  ghost predicate AllWarranted(env: Env, o: Out, now: int, q: Request, nonce: string, after: Db) {
    && o.db.log <= after.log
    && forall i | |o.db.log| <= i < |after.log| :: Warranted(env, o, now, q, nonce, after, after.log[i])
  }

  lemma SecondFactorWarranted(env: Env, o: Out, now: int, q: Request, nonce: string)
    requires q.PostLogin? && PendingUser(o.values, now) > 0
    ensures AllWarranted(env, o, now, q, nonce, SecondFactorPost(env, o, now, q.form, nonce).db)
  {
  }

  lemma PasswordWarranted(env: Env, o: Out, now: int, q: Request, nonce: string)
    requires q.PostLogin?
    ensures AllWarranted(env, o, now, q, nonce, PasswordPost(env, o, now, q.form, nonce).db)
  {
    var found := GetUserByUsername(o.db, TrimSpace(q.form.name));
    var r := PasswordPost(env, o, now, q.form, nonce);
    if found.Some? && r.db.log != o.db.log {
      var user := found.value;
      assert r.db.log == o.db.log + [if o.db.users[user].totpEnabled then PasswordOk(user, now)
                                     else Login(user, now, nonce, ByPassword, false)];
      assert r.db.users.Keys == o.db.users.Keys && r.db.users[user].active && VerifyPassword(env.crypto, q.form.password, o.db.users[user].hash);
    }
  }

  lemma OidcWarranted(env: Env, o: Out, now: int, q: Request, nonce: string)
    requires q.OidcReturn?
    ensures AllWarranted(env, o, now, q, nonce, OidcCallback(env, o, now, q.claims, nonce).db)
  {
  }

  lemma ResetWarranted(env: Env, o: Out, now: int, q: Request, nonce: string)
    requires q.PostReset?
    ensures AllWarranted(env, o, now, q, nonce, ResetPasswordPost(env, o, now, q.reset, nonce).db)
  {
  }

  /** Behind the gate only disabling the second factor writes history. */
  lemma AdmittedQuiet(env: Env, o: Out, now: int, q: Request, nonce: string)
    requires BehindGate(q) && !q.Disable2FA? && Accepts(o.db, o.values, now)
    ensures ServeAdmitted(env, o, now, q, nonce).db.log == o.db.log
  {
    if q.Confirm2FA? {
      var self := o.values.user.value;
      AddCodesFrame(EnableUserTOTP(o.db, self, o.db.users[self].totpPending)
                    .(codes := CodesNotOf(o.db.codes, self)), self, q.hashes);
    }
  }

  lemma GatedWarranted(env: Env, o: Out, decoded: bool, now: int, q: Request, nonce: string)
    requires BehindGate(q) && !q.Disable2FA?
    ensures AllWarranted(env, o, now, q, nonce, ServeGated(env, o, decoded, now, q, nonce).db)
  {
    var g := Gate(o, decoded, now);
    if g.admitted {
      AdmittedQuiet(env, g.out, now, q, nonce);
      assert g.out.db.log == o.db.log + [Slide(o.values.user.value, now, o.values.csrf)];
    }
  }

  lemma DisableWarranted(env: Env, o: Out, decoded: bool, now: int, q: Request, nonce: string)
    requires q.Disable2FA?
    ensures AllWarranted(env, o, now, q, nonce, ServeGated(env, o, decoded, now, q, nonce).db)
  {
    var g := Gate(o, decoded, now);
    if g.admitted {
      var slide := Slide(o.values.user.value, now, o.values.csrf);
      assert g.out.db == Note(o.db, slide) && g.out.db.log[|o.db.log|] == slide;
    }
  }

  /** Whatever a request adds to the history it had the warrant for. */
  lemma HistoryIsTrue(env: Env, o: Out, decoded: bool, now: int, q: Request, nonce: string)
    ensures AllWarranted(env, o, now, q, nonce, Serve(env, o, decoded, now, q, nonce).db)
  {
    if q.PostLogin? {
      LoginWarranted(env, o, now, q, nonce);
    } else if q.OidcReturn? {
      OidcWarranted(env, o, now, q, nonce);
    } else if q.PostReset? {
      ResetWarranted(env, o, now, q, nonce);
    } else if q.Disable2FA? {
      DisableWarranted(env, o, decoded, now, q, nonce);
    } else if BehindGate(q) {
      GatedWarranted(env, o, decoded, now, q, nonce);
    } else {
      PublicQuiet(env, o, decoded, now, q, nonce);
    }
  }

  lemma LoginWarranted(env: Env, o: Out, now: int, q: Request, nonce: string)
    requires q.PostLogin?
    ensures AllWarranted(env, o, now, q, nonce, LoginPost(env, o, now, q.form, nonce).db)
  {
    if PendingUser(o.values, now) > 0 {
      SecondFactorWarranted(env, o, now, q, nonce);
    } else {
      PasswordWarranted(env, o, now, q, nonce);
    }
  }

  lemma PublicQuiet(env: Env, o: Out, decoded: bool, now: int, q: Request, nonce: string)
    requires q.PublicPage? || q.PostLogout? || q.PostForgot? || q.ApiGetSession? || q.ApiDeleteSession?
    ensures Serve(env, o, decoded, now, q, nonce).db.log == o.db.log
  {
  }

  // ---------- runs ----------

  /**
    Every cookie of a user, in every run, goes back to one login that was earned: by
    password only for a row without a second factor, and otherwise, save for single
    sign-on, by a code or recovery code accepted just before, with the password
    accepted earlier and within the pending time.
   */
  lemma SecondFactorAlways(env: Env, start: World, acts: seq<Action>, v: Values)
    requires Init(start) && Possible(env, start, acts) && v in Run(env, start, acts).minted && v.user.Some?
    ensures var log := Run(env, start, acts).db.log;
            exists i :: && OpenedAt(log, i, v)
                        && (log[i].totp && log[i].path != ByOidc ==>
                              && i >= 1 && (log[i - 1] == TotpOk(v.user.value, Unix(log[i].at) / 30)
                                            || (log[i - 1].RecoveryOk? && log[i - 1].user == v.user.value))
                              && PasswordBefore(log, i, v.user.value, log[i].at))
  {
    InitInv(start);
    RunInv(env, start, acts);
    var i := LoginBehind(Run(env, start, acts), v);
  }

  /**
    In every run: time steps accepted for a user rise between disables, no recovery
    code is consumed twice, no reset token completes two resets, and a user has at
    most one unused reset token.
   */
  lemma NothingServesTwice(env: Env, start: World, acts: seq<Action>)
    requires Init(start) && Possible(env, start, acts)
    ensures var db := Run(env, start, acts).db;
            && (forall i, j | 0 <= i < j < |db.log| && db.log[i].TotpOk? && db.log[j].TotpOk?
                              && db.log[i].user == db.log[j].user && Unbroken(db.log, i, j, db.log[i].user) ::
                  db.log[i].step < db.log[j].step)
            && (forall i, j | 0 <= i < j < |db.log| && db.log[i].RecoveryOk? && db.log[j].RecoveryOk? ::
                  db.log[i].code != db.log[j].code)
            && (forall i, j | 0 <= i < j < |db.log| && db.log[i].ResetDone? && db.log[j].ResetDone? ::
                  db.log[i].token != db.log[j].token)
            && (forall s, t | s in db.tokens && t in db.tokens && db.tokens[s].owner == db.tokens[t].owner
                              && !db.tokens[s].used && !db.tokens[t].used :: s == t)
  {
    InitInv(start);
    RunInv(env, start, acts);
  }

  lemma CompleteResetEffect(db: Db, t: int, user: int, newHash: string)
    requires user in db.users
    ensures var after := CompleteReset(db, t, user, newHash);
            && user in after.users && after.users[user].hash == newHash
            && after.users[user].epoch == db.users[user].epoch + 1
            && !HasUnusedToken(after, user)
            && forall k | k in db.tokens :: k in after.tokens && after.tokens[k].owner == db.tokens[k].owner
  {
  }

  lemma ResetEffect(env: Env, w: World, a: Action, user: int)
    requires Enabled(env, w, a) && a.Answer? && a.q.PostReset?
    requires ResetCompletes(env, Arrival(w, a.p), w.now, a.q.reset, a.nonce, user)
    ensures var db := Step(env, w, a).db;
            && Revoked(w.db, db, user) && !HasUnusedToken(db, user)
            && user in db.users && VerifyPassword(env.crypto, TrimSpace(a.q.reset.newPassword), db.users[user].hash)
  {
    var found := GetValidPasswordResetToken(w.db, env.crypto.sha256(TrimSpace(a.q.reset.token)), w.now);
    CompleteResetEffect(w.db, found.value, user, a.q.reset.newHash);
    FreshHash(env.crypto, a.q.reset.newHash, TrimSpace(a.q.reset.newPassword));
    assert Step(env, w, a).db == CompleteReset(w.db, found.value, user, a.q.reset.newHash);
  }

  /**
    A completed reset is final: the new password verifies, no token the user had is
    usable in any continuation, and no cookie minted before it is accepted again.
   */
  lemma ResetIsFinal(env: Env, w: World, a: Action, acts: seq<Action>, user: int)
    requires WorldInv(w) && Enabled(env, w, a) && a.Answer? && a.q.PostReset?
    requires ResetCompletes(env, Arrival(w, a.p), w.now, a.q.reset, a.nonce, user)
    requires Possible(env, Step(env, w, a), acts)
    ensures var w1 := Step(env, w, a);
            user in w1.db.users && VerifyPassword(env.crypto, TrimSpace(a.q.reset.newPassword), w1.db.users[user].hash)
    ensures var w1, w2 := Step(env, w, a), Run(env, Step(env, w, a), acts);
            forall t, hash | t in w1.db.tokens && w1.db.tokens[t].owner == user :: !UsableToken(w2.db, t, hash, w2.now)
    ensures var w2 := Run(env, Step(env, w, a), acts);
            forall v | v in w.minted && v.user == Some(user) :: !Accepts(w2.db, v, w2.now)
  {
    var w1 := Step(env, w, a);
    var w2 := Run(env, w1, acts);
    StepInv(env, w, a);
    RunInv(env, w1, acts);
    ResetEffect(env, w, a, user);
    forall v | v in w.minted && v.user == Some(user)
      ensures !Accepts(w2.db, v, w2.now)
    {
      if Accepts(w2.db, v, w2.now) {
        OldEpochDead(w, w1, w2, user, v);
      }
    }
  }

  // ---------- the history of a whole run ----------

  /** Entry i of the run's log was written by its k-th step, a request that had the warrant for it. */
  ghost predicate WrittenWithWarrant(env: Env, start: World, acts: seq<Action>, i: nat, k: nat)
    requires k < |acts|
  {
    var w, a := Run(env, start, acts[..k]), acts[k];
    && a.Answer? && |w.db.log| <= i < |Step(env, w, a).db.log|
    && Warranted(env, Arrival(w, a.p), w.now, a.q, a.nonce, Step(env, w, a).db, Step(env, w, a).db.log[i])
    && |Run(env, start, acts).db.log| > i && Run(env, start, acts).db.log[i] == Step(env, w, a).db.log[i]
  }

  /** In every run each entry of the history was written by a step at which its warrant held. */
  lemma {:induction false} HistoryHasWarrant(env: Env, start: World, acts: seq<Action>, i: nat) returns (k: nat)
    requires WorldInv(start) && Possible(env, start, acts)
    requires |start.db.log| <= i < |Run(env, start, acts).db.log|
    ensures k < |acts| && WrittenWithWarrant(env, start, acts, i, k)
    decreases |acts|
  {
    var w' := Step(env, start, acts[0]);
    StepInv(env, start, acts[0]);
    if i < |w'.db.log| {
      k := 0;
      RunInv(env, w', acts[1..]);
      FirstStepWarranted(env, start, acts, i);
    } else {
      var j := HistoryHasWarrant(env, w', acts[1..], i);
      k := j + 1;
      LaterStepWarranted(env, start, acts, i, j);
    }
  }

  lemma LaterStepWarranted(env: Env, start: World, acts: seq<Action>, i: nat, j: nat)
    requires acts != [] && j < |acts| - 1 && WrittenWithWarrant(env, Step(env, start, acts[0]), acts[1..], i, j)
    ensures WrittenWithWarrant(env, start, acts, i, j + 1)
  {
    PrefixShift(env, start, acts, j);
  }

  lemma FirstStepWarranted(env: Env, start: World, acts: seq<Action>, i: nat)
    requires acts != [] && |start.db.log| <= i < |Step(env, start, acts[0]).db.log|
    requires Step(env, start, acts[0]).db.log <= Run(env, start, acts).db.log
    ensures WrittenWithWarrant(env, start, acts, i, 0)
  {
    assert acts[..0] == [];
    var a := acts[0];
    if a.Answer? {
      HistoryIsTrue(env, Arrival(start, a.p), !a.p.Undecodable?, start.now, a.q, a.nonce);
    }
  }

  lemma PrefixShift(env: Env, start: World, acts: seq<Action>, j: nat)
    requires j + 1 < |acts|
    ensures Run(env, start, acts[..j + 1]) == Run(env, Step(env, start, acts[0]), acts[1..][..j])
    ensures acts[j + 1] == acts[1..][j]
  {
    assert acts[..j + 1][1..] == acts[1..][..j];
  }

  // ---------- a second factor still due when sessions are revoked ----------

  /**
    A pending second factor carries no epoch, so revocation does not end it; time
    does. A log-in of `user` by the second-factor path, at any point after a step,
    rests on a password accepted since that step, or comes within the pending time of
    the step.
   */
  lemma PendingEndsByTime(env: Env, w: World, acts: seq<Action>, user: int, i: nat)
    requires WorldInv(w) && Possible(env, w, acts)
    requires |w.db.log| <= i < |Run(env, w, acts).db.log|
    requires var e := Run(env, w, acts).db.log[i]; e.Login? && e.user == user && e.path == BySecondFactor
    ensures var log := Run(env, w, acts).db.log;
            || (exists j, t :: |w.db.log| <= j < i && log[j] == PasswordOk(user, t))
            || Unix(log[i].at) <= Unix(w.now + PENDING_TTL)
  {
    RunInv(env, w, acts);
    var log := Run(env, w, acts).db.log;
    assert LoginEarned(log, i);
    var j, t :| 0 <= j < |log| && j < i && log[j] == PasswordOk(user, t)
                && t <= log[i].at && Unix(log[i].at) <= Unix(t + PENDING_TTL);
    if j < |w.db.log| {
      assert w.db.log[j] == log[j];
      PendingFrom(w, j, t, log[i].at);
    }
  }

  lemma PendingFrom(w: World, j: nat, t: int, at: int)
    requires WorldInv(w) && j < |w.db.log| && w.db.log[j].PasswordOk? && w.db.log[j].at == t
    requires Unix(at) <= Unix(t + PENDING_TTL)
    ensures Unix(at) <= Unix(w.now + PENDING_TTL)
  {
    UnixMonotone(t + PENDING_TTL, w.now + PENDING_TTL);
  }

  lemma UnixMonotone(a: int, b: int)
    requires a <= b
    ensures Unix(a) <= Unix(b)
  {
  }

  // ---------- passwords too long to hash ----------

  /**
    The right password of an active user leads on, to a log-in or to the second
    factor, if and only if no rehash is due or the password is at most 72 bytes long:
    bcrypt refuses longer ones, and the request ends in a panic that changes nothing.
   */
  lemma RightPasswordLeadsOn(env: Env, o: Out, now: int, f: LoginForm, nonce: string)
    requires var found := GetUserByUsername(o.db, TrimSpace(f.name));
             found.Some? && o.db.users[found.value].active
             && VerifyPassword(env.crypto, f.password, o.db.users[found.value].hash)
    ensures var user := GetUserByUsername(o.db, TrimSpace(f.name)).value;
            var r := PasswordPost(env, o, now, f, nonce);
            var stuck := NeedsPasswordRehash(env.crypto, o.db.users[user].hash) && |f.password| > 72;
            && (stuck <==> |r.db.log| == |o.db.log|)
            && (stuck ==> r == o)
            && (!stuck ==> r.db.log[|o.db.log|].user == user
                           && (r.db.log[|o.db.log|].PasswordOk? || r.db.log[|o.db.log|].Login?))
  {
  }

  /** Such a password: 73 bytes, verified against a hash of the old scheme. */
  lemma OverlongPassword(password: string)
    requires |password| == 73
    ensures exists c: Crypto, hash: string ::
              VerifyPassword(c, password, hash) && NeedsPasswordRehash(c, hash) && !Hashable(password)
  {
    var hash := seq(64, i => 'a');
    var c := Crypto((h, p) => false, h => None, p => hash, (code, secret, at) => false);
    assert IsLegacySHA256Hash(hash) && !IsBcryptHash(hash) by {
      assert hash[0] == 'a';
    }
    assert VerifyPassword(c, password, hash);
  }
}
