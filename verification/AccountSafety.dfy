/**
  What holds in every run of the account machine: revocation is for good, sessions
  end in time, the second factor is asked for, codes and tokens serve once, and an
  administrator remains.
 */
module AccountSafety {
  import opened Common
  import opened Accounts
  import opened Passwords
  import opened Sessions
  import opened Requests
  import opened Handlers
  import opened Lineage
  import opened Runs

  // ---------- revocation ----------

  /** A login of `user` under this token stands at or after position n of the log. */
  ghost predicate OpenedSince(log: seq<Event>, n: nat, user: int, csrf: string) {
    exists i :: n <= i < |log| && log[i].Login? && log[i].user == user && log[i].csrf == csrf
  }

  /** The sessions of `user` that may still count: those of kept tokens and those opened since. */
  ghost predicate OnlyLater(w: World, user: int, epoch: int, n: nat, kept: set<string>) {
    && user < w.db.nextUser && n <= |w.db.log|
    && (user in w.db.users ==> epoch <= w.db.users[user].epoch)
    && forall v | v in w.minted && v.user == Some(user) ::
         v.epoch < epoch || v.csrf in kept || OpenedSince(w.db.log, n, user, v.csrf)
  }

  lemma OpenedBelow(log: seq<Event>, more: seq<Event>, n: nat, user: int, csrf: string)
    requires log <= more && OpenedSince(log, n, user, csrf)
    ensures OpenedSince(more, n, user, csrf)
  {
    var i :| n <= i < |log| && log[i].Login? && log[i].user == user && log[i].csrf == csrf;
    assert more[i] == log[i];
  }

  /** A cookie of the response that this request opened is logged at its end. */
  lemma OpenedNow(env: Env, w: World, a: Action, s: Values, n: nat)
    requires WorldInv(w) && Enabled(env, w, a) && a.Answer? && n <= |w.db.log|
    requires w.db.log <= Response(env, w, a).db.log && Opened(Response(env, w, a), w.now, a.nonce, s)
    ensures OpenedSince(Response(env, w, a).db.log, n, s.user.value, s.csrf)
  {
    var log := Response(env, w, a).db.log;
    assert forall i | 0 <= i < |w.db.log| :: log[i] == w.db.log[i];
    assert log[|log| - 1].csrf !in w.issued;
  }

  lemma StepOnlyLater(env: Env, w: World, a: Action, user: int, epoch: int, n: nat, kept: set<string>)
    requires WorldInv(w) && Enabled(env, w, a) && OnlyLater(w, user, epoch, n, kept)
    ensures OnlyLater(Step(env, w, a), user, epoch, n, kept)
  {
    var w' := Step(env, w, a);
    StepInv(env, w, a);
    forall v | v in w'.minted && v.user == Some(user)
      ensures v.epoch < epoch || v.csrf in kept || OpenedSince(w'.db.log, n, user, v.csrf)
    {
      if v in w.minted {
        if OpenedSince(w.db.log, n, user, v.csrf) {
          OpenedBelow(w.db.log, w'.db.log, n, user, v.csrf);
        }
      } else {
        NewCookieOnlyLater(env, w, a, v, user, epoch, n, kept);
      }
    }
  }

  lemma NewCookieOnlyLater(env: Env, w: World, a: Action, v: Values, user: int, epoch: int, n: nat, kept: set<string>)
    requires WorldInv(w) && Enabled(env, w, a) && OnlyLater(w, user, epoch, n, kept)
    requires a.Answer? && v in Response(env, w, a).saved && v.user == Some(user)
    requires w.db.log <= Response(env, w, a).db.log
    ensures v.epoch < epoch || v.csrf in kept || OpenedSince(Response(env, w, a).db.log, n, user, v.csrf)
  {
    var r, c := Response(env, w, a), Carried(a.p);
    ArrivalFine(w, a.p);
    ServeTraced(env, Arrival(w, a.p), !a.p.Undecodable?, w.now, a.q, a.nonce);
    var i :| 0 <= i < |r.saved| && r.saved[i] == v;
    assert DerivedCookie(Arrival(w, a.p), w.now, a.q, a.nonce, r, r.saved[i]);
    if Opened(r, w.now, a.nonce, v) {
      OpenedNow(env, w, a, v, n);
    } else {
      assert c in w.minted;
      assert v.epoch == c.epoch || c.epoch == w.db.users[user].epoch;
      if OpenedSince(w.db.log, n, user, c.csrf) {
        OpenedBelow(w.db.log, r.db.log, n, user, c.csrf);
      }
    }
  }

  lemma {:induction false} RunOnlyLater(env: Env, w: World, acts: seq<Action>, user: int, epoch: int, n: nat, kept: set<string>)
    requires WorldInv(w) && Possible(env, w, acts) && OnlyLater(w, user, epoch, n, kept)
    ensures OnlyLater(Run(env, w, acts), user, epoch, n, kept)
    decreases |acts|
  {
    if acts != [] {
      StepInv(env, w, acts[0]);
      StepOnlyLater(env, w, acts[0], user, epoch, n, kept);
      RunOnlyLater(env, Step(env, w, acts[0]), acts[1..], user, epoch, n, kept);
    }
  }

  /** The row is gone or its epoch has risen. */
  ghost predicate Revoked(before: Db, after: Db, user: int) {
    user in before.users && (user !in after.users || before.users[user].epoch < after.users[user].epoch)
  }

  /** The token of the session that a password change of its own user stamps anew. */
  function Survivor(a: Action, user: int): set<string> {
    if a.Answer? && Restamps(a.q) && Carried(a.p).user == Some(user) then {Carried(a.p).csrf} else {}
  }

  lemma RevocationStep(env: Env, w: World, a: Action, user: int)
    requires WorldInv(w) && Enabled(env, w, a) && Revoked(w.db, Step(env, w, a).db, user)
    ensures OnlyLater(Step(env, w, a), user, w.db.users[user].epoch + 1, |w.db.log|, Survivor(a, user))
  {
    var w', n := Step(env, w, a), |w.db.log|;
    StepInv(env, w, a);
    forall v | v in w'.minted && v.user == Some(user)
      ensures v.epoch <= w.db.users[user].epoch || v.csrf in Survivor(a, user) || OpenedSince(w'.db.log, n, user, v.csrf)
    {
      if v in w.minted {
        assert CookieOk(v, w.db, w.now);
      } else {
        RevocationNewCookie(env, w, a, v, user);
      }
    }
  }

  lemma RevocationNewCookie(env: Env, w: World, a: Action, v: Values, user: int)
    requires WorldInv(w) && Enabled(env, w, a) && user in w.db.users
    requires a.Answer? && v in Response(env, w, a).saved && v.user == Some(user)
    requires w.db.log <= Response(env, w, a).db.log
    ensures v.epoch <= w.db.users[user].epoch || v.csrf in Survivor(a, user)
            || OpenedSince(Response(env, w, a).db.log, |w.db.log|, user, v.csrf)
  {
    var r, c := Response(env, w, a), Carried(a.p);
    ArrivalFine(w, a.p);
    ServeTraced(env, Arrival(w, a.p), !a.p.Undecodable?, w.now, a.q, a.nonce);
    var i :| 0 <= i < |r.saved| && r.saved[i] == v;
    assert DerivedCookie(Arrival(w, a.p), w.now, a.q, a.nonce, r, r.saved[i]);
    if Opened(r, w.now, a.nonce, v) {
      OpenedNow(env, w, a, v, |w.db.log|);
    } else {
      assert CookieOk(c, w.db, w.now);
    }
  }

  /**
    Revocation is for good. Once a step raises the epoch of a row or deletes it, no
    cookie minted before that step is accepted in any continuation, and a later
    cookie of the user is accepted only if a login since opened its session, or the
    step was the user's own password change and the cookie is of the acting session.
   */
  lemma RevocationIsForGood(env: Env, w: World, a: Action, acts: seq<Action>, user: int, v: Values)
    requires WorldInv(w) && Enabled(env, w, a) && Revoked(w.db, Step(env, w, a).db, user)
    requires Possible(env, Step(env, w, a), acts)
    requires var w' := Run(env, Step(env, w, a), acts); v in w'.minted && v.user == Some(user) && Accepts(w'.db, v, w'.now)
    ensures v !in w.minted
    ensures v.csrf in Survivor(a, user) || OpenedSince(Run(env, Step(env, w, a), acts).db.log, |w.db.log|, user, v.csrf)
  {
    var w1 := Step(env, w, a);
    var w2 := Run(env, w1, acts);
    StepInv(env, w, a);
    RunInv(env, w1, acts);
    RevocationStep(env, w, a, user);
    RunOnlyLater(env, w1, acts, user, w.db.users[user].epoch + 1, |w.db.log|, Survivor(a, user));
    OldEpochDead(w, w1, w2, user, v);
  }

  lemma OldEpochDead(w: World, w1: World, w2: World, user: int, v: Values)
    requires WorldInv(w) && Revoked(w.db, w1.db, user) && Grows(w.db, w1.db) && Grows(w1.db, w2.db)
    requires v.user == Some(user) && Accepts(w2.db, v, w2.now)
    ensures v.epoch > w.db.users[user].epoch && v !in w.minted
  {
    assert v in w.minted ==> CookieOk(v, w.db, w.now);
  }

  // ---------- sessions end in time ----------

  /** The one login behind a session. */
  ghost predicate OpenedAt(log: seq<Event>, i: int, v: Values) {
    0 <= i < |log| && log[i].Login? && v.user == Some(log[i].user) && v.csrf == log[i].csrf
  }

  lemma LoginBehind(w: World, v: Values) returns (i: int)
    requires WorldInv(w) && v in w.minted && v.user.Some?
    ensures OpenedAt(w.db.log, i, v) && v.created == Some(Unix(w.db.log[i].at)) && LoginEarned(w.db.log, i)
  {
    assert CookieOk(v, w.db, w.now) && CreatedAtLogin(v, w.db.log, w.now);
    var at :| LoggedIn(w.db.log, v.user.value, v.csrf, at) && at <= w.now && v.created == Some(Unix(at));
    var path, totp :| Login(v.user.value, at, v.csrf, path, totp) in w.db.log;
    i :| 0 <= i < |w.db.log| && w.db.log[i] == Login(v.user.value, at, v.csrf, path, totp);
  }

  /**
    In every run, an accepted cookie's session was opened by exactly one login, at
    most 24 hours ago, and that login or a sliding request of the same session lies
    at most 8 hours back: no chain of requests outlives either bound.
   */
  lemma SessionsEndInTime(env: Env, start: World, acts: seq<Action>, v: Values)
    requires Init(start) && Possible(env, start, acts)
    requires var w := Run(env, start, acts); v in w.minted && Accepts(w.db, v, w.now)
    ensures var w := Run(env, start, acts);
            && (exists i :: OpenedAt(w.db.log, i, v) && w.now <= w.db.log[i].at + LIFETIME)
            && (forall i, j :: OpenedAt(w.db.log, i, v) && OpenedAt(w.db.log, j, v) ==> i == j)
            && (exists at :: Touched(w.db.log, v.user.value, v.csrf, at) && w.now <= at + IDLE)
  {
    var w := Run(env, start, acts);
    InitInv(start);
    RunInv(env, start, acts);
    AcceptedInTime(v, w.db, w.now, w.now);
    var i := LoginBehind(w, v);
    assert Unix(w.db.log[i].at) * SECOND <= w.db.log[i].at;
    assert OpenedAt(w.db.log, i, v) && w.now <= w.db.log[i].at + LIFETIME;
  }

  /** A request that neither passes the log-in gate nor logs in, such as GET /api/v1/session. */
  predicate Idle(a: Action) {
    a.Answer? ==> !BehindGate(a.q) && !a.q.PostLogin? && !a.q.OidcReturn?
  }

  predicate Opens(e: Event) {
    e.Login? || e.Slide?
  }

  /** No session was opened or renewed at or after position n. */
  predicate NothingOpens(log: seq<Event>, n: nat) {
    n <= |log| && forall i | n <= i < |log| :: !Opens(log[i])
  }

  lemma IdleStep(env: Env, w: World, a: Action, n: nat)
    requires WorldInv(w) && Enabled(env, w, a) && Idle(a) && NothingOpens(w.db.log, n)
    ensures NothingOpens(Step(env, w, a).db.log, n) && WorldInv(Step(env, w, a))
  {
    StepInv(env, w, a);
    if a.Answer? {
      ArrivalFine(w, a.p);
      ServeTraced(env, Arrival(w, a.p), !a.p.Undecodable?, w.now, a.q, a.nonce);
    }
    var log := Step(env, w, a).db.log;
    forall i | n <= i < |log|
      ensures !Opens(log[i])
    {
      assert i < |w.db.log| ==> log[i] == w.db.log[i];
    }
  }

  predicate AllIdle(acts: seq<Action>) {
    forall k | 0 <= k < |acts| :: Idle(acts[k])
  }

  lemma IdleHead(acts: seq<Action>)
    requires acts != [] && AllIdle(acts)
    ensures Idle(acts[0]) && AllIdle(acts[1..])
  {
  }

  lemma {:induction false} IdleRun(env: Env, w: World, acts: seq<Action>, n: nat)
    requires WorldInv(w) && Possible(env, w, acts) && AllIdle(acts) && NothingOpens(w.db.log, n)
    ensures NothingOpens(Run(env, w, acts).db.log, n)
    decreases |acts|
  {
    if acts != [] {
      IdleHead(acts);
      IdleStep(env, w, acts[0], n);
      IdleRun(env, Step(env, w, acts[0]), acts[1..], n);
    }
  }

  /** Polling keeps nothing alive: 8 hours after the last other request no cookie at all is accepted. */
  lemma PollingKeepsNothingAlive(env: Env, w: World, acts: seq<Action>, v: Values)
    requires WorldInv(w) && Possible(env, w, acts) && AllIdle(acts)
    requires Run(env, w, acts).now > w.now + IDLE && v in Run(env, w, acts).minted
    ensures !Accepts(Run(env, w, acts).db, v, Run(env, w, acts).now)
  {
    var w' := Run(env, w, acts);
    RunInv(env, w, acts);
    IdleRun(env, w, acts, |w.db.log|);
    if Accepts(w'.db, v, w'.now) {
      AcceptedInTime(v, w'.db, w'.now, w'.now);
      var at :| Touched(w'.db.log, v.user.value, v.csrf, at) && at <= w'.now && w'.now <= at + IDLE;
      TouchBefore(w, w', v.user.value, v.csrf, at);
    }
  }

  lemma TouchBefore(w: World, w': World, user: int, csrf: string, at: int)
    requires WorldInv(w) && w.db.log <= w'.db.log && Touched(w'.db.log, user, csrf, at)
    requires NothingOpens(w'.db.log, |w.db.log|)
    ensures at <= w.now
  {
    var i: int;
    if Slide(user, at, csrf) in w'.db.log {
      i :| 0 <= i < |w'.db.log| && w'.db.log[i] == Slide(user, at, csrf);
    } else {
      var path, totp :| Login(user, at, csrf, path, totp) in w'.db.log;
      i :| 0 <= i < |w'.db.log| && w'.db.log[i] == Login(user, at, csrf, path, totp);
    }
    assert Opens(w'.db.log[i]) && w'.db.log[i] == w.db.log[i];
  }
}
