/**
  How long an account and a session stand, over whole runs: a deactivated user stays
  out until activated again, and a session within its bounds is let in.
 */
module Standing {
  import opened Common
  import opened Accounts
  import opened Sessions
  import opened Requests
  import opened Handlers
  import opened Lineage
  import opened Runs
  import opened LoginOutcomes
  import opened Effects
  import opened AccountSafety

  // ---------- a deactivated user ----------

  /** The step by which an administrator activates somebody. */
  predicate Activates(w: World, a: Action, user: int) {
    && a.Answer? && Toggles(Arrival(w, a.p), !a.p.Undecodable?, w.now, a.q, user)
    && user in w.db.users && !w.db.users[user].active
  }

  /** No step of the run activates the user. */
  ghost predicate NeverActivated(env: Env, w: World, acts: seq<Action>, user: int)
    decreases |acts|
  {
    acts == [] || (!Activates(w, acts[0], user) && NeverActivated(env, Step(env, w, acts[0]), acts[1..], user))
  }

  /** The id was given, and its row is gone or inactive. */
  predicate KeptOut(db: Db, user: int) {
    user < db.nextUser && (user in db.users ==> !db.users[user].active)
  }

  ghost predicate NoLoginSince(log: seq<Event>, n: nat, user: int) {
    n <= |log| && forall i | n <= i < |log| && log[i].Login? :: log[i].user != user
  }

  lemma StaysOutStep(env: Env, w: World, a: Action, user: int, n: nat)
    requires WorldInv(w) && Enabled(env, w, a) && KeptOut(w.db, user) && NoLoginSince(w.db.log, n, user)
    requires !Activates(w, a, user)
    ensures KeptOut(Step(env, w, a).db, user) && NoLoginSince(Step(env, w, a).db.log, n, user)
  {
    if a.Answer? {
      StaysOutAnswer(env, w, a, user);
      NoLoginAnswer(env, w, a, user, n);
    }
    StepInv(env, w, a);
  }

  lemma StaysOutAnswer(env: Env, w: World, a: Action, user: int)
    requires WorldInv(w) && Enabled(env, w, a) && a.Answer? && KeptOut(w.db, user) && !Activates(w, a, user)
    ensures KeptOut(Response(env, w, a).db, user)
  {
    var o, decoded := Arrival(w, a.p), !a.p.Undecodable?;
    StepInv(env, w, a);
    if user in w.db.users {
      FlagTurnsExactly(env, o, decoded, w.now, a.q, a.nonce, user);
    } else {
      AddedExact(env, o, decoded, w.now, a.q, a.nonce);
    }
  }

  lemma NoPathForInactive(env: Env, o: Out, now: int, q: Request, user: int)
    requires KeptOut(o.db, user)
    ensures !LogsIn(env, o, now, q, user)
  {
  }

  lemma NotLoggedNow(env: Env, w: World, a: Action, user: int)
    requires WorldInv(w) && Enabled(env, w, a) && a.Answer? && KeptOut(w.db, user)
    ensures !LoggedNow(Arrival(w, a.p), Response(env, w, a), user)
  {
    var o := Arrival(w, a.p);
    ArrivalFine(w, a.p);
    FactorDueIsPending(o.values, w.now);
    NoPathForInactive(env, o, w.now, a.q, user);
    LoginExact(env, o, !a.p.Undecodable?, w.now, a.q, a.nonce, user);
  }

  lemma NoLoginAnswer(env: Env, w: World, a: Action, user: int, n: nat)
    requires WorldInv(w) && Enabled(env, w, a) && a.Answer? && KeptOut(w.db, user) && NoLoginSince(w.db.log, n, user)
    ensures NoLoginSince(Response(env, w, a).db.log, n, user)
  {
    NotLoggedNow(env, w, a, user);
    StepInv(env, w, a);
    ArrivalFine(w, a.p);
    ServeTraced(env, Arrival(w, a.p), !a.p.Undecodable?, w.now, a.q, a.nonce);
    NoLoginInLog(Arrival(w, a.p), w.now, a.q, a.nonce, Response(env, w, a), user, n);
  }

  lemma NoLoginInLog(o: Out, now: int, q: Request, nonce: string, r: Out, user: int, n: nat)
    requires NoLoginSince(o.db.log, n, user) && o.db.log <= r.db.log
    requires LogDerived(o, now, q, nonce, r) && !LoggedNow(o, r, user)
    ensures NoLoginSince(r.db.log, n, user)
  {
    forall i | n <= i < |r.db.log| && r.db.log[i].Login?
      ensures r.db.log[i].user != user
    {
      assert i < |o.db.log| ==> r.db.log[i] == o.db.log[i];
    }
  }

  /**
    From a deactivation, or a deletion, until an administrator activates the row again:
    the user is never logged in, by no path, and no cookie of the user is accepted.
   */
  lemma {:induction false} InactiveStaysOut(env: Env, w: World, acts: seq<Action>, user: int, n: nat)
    requires WorldInv(w) && Possible(env, w, acts) && KeptOut(w.db, user) && NoLoginSince(w.db.log, n, user)
    requires NeverActivated(env, w, acts, user)
    ensures var w' := Run(env, w, acts);
            && KeptOut(w'.db, user) && NoLoginSince(w'.db.log, n, user)
            && forall v: Values, t: int | v.user == Some(user) :: !Accepts(w'.db, v, t)
    decreases |acts|
  {
    if acts == [] {
      forall v: Values, t: int | v.user == Some(user)
        ensures !Accepts(w.db, v, t)
      {
        AcceptsExactly(w.db, v, t);
      }
    } else {
      StaysOutStep(env, w, acts[0], user, n);
      StepInv(env, w, acts[0]);
      InactiveStaysOut(env, Step(env, w, acts[0]), acts[1..], user, n);
    }
  }

  // ---------- a session within its bounds ----------

  /**
    In every run a cookie of a current row is accepted exactly while the day after the
    second of its one login, and eight hours after its own last activity, have not passed.
   */
  lemma AcceptedWithinBounds(env: Env, start: World, acts: seq<Action>, v: Values, i: int)
    requires Init(start) && Possible(env, start, acts) && v in Run(env, start, acts).minted && v.user.Some?
    requires OpenedAt(Run(env, start, acts).db.log, i, v)
    ensures var w := Run(env, start, acts);
            && v.last.Some?
            && (Accepts(w.db, v, w.now) <==>
                  && RowCurrent(w.db, v)
                  && w.now <= w.db.log[i].at / NANOS * NANOS + ONE_DAY && w.now <= v.last.value * NANOS + EIGHT_HOURS)
  {
    var w := Run(env, start, acts);
    InitInv(start);
    RunInv(env, start, acts);
    var j := LoginBehind(w, v);
    SameLogin(w, v, i, j);
    assert LastAtTouch(v, w.db.log, w.now);
    AcceptsExactly(w.db, v, w.now);
  }

  lemma SameLogin(w: World, v: Values, i: int, j: int)
    requires TokensKnown(w) && OpenedAt(w.db.log, i, v) && OpenedAt(w.db.log, j, v)
    ensures i == j
  {
  }
}
