/**
  Runs of the account machine. Requests, the expiry sweep and the passing of time
  follow each other in any order; a request presents no cookie, an undecodable one,
  or any cookie ever minted. Tokens the server draws are new; hashes it makes verify.
 */
module Runs {
  import opened Common
  import opened Text
  import opened Accounts
  import opened Passwords
  import opened Sessions
  import opened Requests
  import opened Handlers
  import opened Lineage

  datatype World = World(now: int, db: Db, minted: set<Values>, issued: set<string>)

  datatype Presented = NoCookie | Undecodable | Cookie(v: Values)

  datatype Action =
    | Pass(nanos: nat)
    | SweepTempUsers
    | Answer(p: Presented, q: Request, nonce: string)

  function Carried(p: Presented): Values {
    if p.Cookie? then p.v else Empty
  }

  function Arrival(w: World, p: Presented): Out {
    Out(w.db, Carried(p), [])
  }

  ghost function Response(env: Env, w: World, a: Action): Out
    requires a.Answer?
  {
    Serve(env, Arrival(w, a.p), !a.p.Undecodable?, w.now, a.q, a.nonce)
  }

  /** HashPassword returns a hash of what bcrypt does not refuse. */
  predicate Hashed(env: Env, hash: string, password: string) {
    Hashable(password) ==> IsHashOf(env.crypto, hash, password)
  }

  /** What a query, a map walk and HashPassword may have chosen for this request. */
  ghost predicate ChoicesOk(env: Env, w: World, p: Presented, q: Request) {
    match q
    case PostLogin(f) =>
      && Hashed(env, f.newHash, f.password)
      && (PendingUser(Carried(p), w.now) > 0 ==>
            RecoveryPick(env, w.db, PendingUser(Carried(p), w.now), f.recovery, f.pick))
    case PostForgot(f) => RowPick(w.db, TrimSpace(f.identifier), f.row)
    case PostReset(f) => Hashed(env, f.newHash, TrimSpace(f.newPassword))
    case PostUsers(_, act) =>
      && (act.Create? ==> Hashed(env, act.newHash, TrimSpace(act.password)))
      && (act.ResetPassword? ==> Hashed(env, act.newHash, TrimSpace(act.newPassword)))
    case PostProfile(_, change) => change.ChangePassword? ==> Hashed(env, change.newHash, TrimSpace(change.newPassword))
    case _ => true
  }

  ghost predicate Enabled(env: Env, w: World, a: Action) {
    a.Answer? ==>
      && (a.p.Cookie? ==> a.p.v in w.minted)
      && a.nonce != "" && a.nonce !in w.issued
      && ChoicesOk(env, w, a.p, a.q)
  }

  ghost function Step(env: Env, w: World, a: Action): World {
    match a
    case Pass(nanos) => w.(now := w.now + nanos)
    case SweepTempUsers => w.(db := ExpireOverdueTempUsers(w.db, w.now))
    case Answer(_, _, nonce) =>
      var r := Response(env, w, a);
      w.(db := r.db, minted := w.minted + (set v | v in r.saved), issued := w.issued + {nonce})
  }

  ghost function Run(env: Env, w: World, acts: seq<Action>): World
    decreases |acts|
  {
    if acts == [] then w else Run(env, Step(env, w, acts[0]), acts[1..])
  }

  ghost predicate Possible(env: Env, w: World, acts: seq<Action>)
    decreases |acts|
  {
    acts == [] || (Enabled(env, w, acts[0]) && Possible(env, Step(env, w, acts[0]), acts[1..]))
  }

  /** Any existing tables, no cookie minted, nothing logged. */
  ghost predicate Init(w: World) {
    0 <= w.now && Inv(w.db) && w.db.log == [] && w.minted == {} && w.issued == {}
  }

  // ---------- the invariant of runs ----------

  ghost predicate TokensKnown(w: World) {
    && "" !in w.issued
    && (forall v | v in w.minted :: v.csrf == "" || v.csrf in w.issued)
    && (forall i | 0 <= i < |w.db.log| && w.db.log[i].Login? :: w.db.log[i].csrf in w.issued)
    && (forall i, j | 0 <= i < j < |w.db.log| && w.db.log[i].Login? && w.db.log[j].Login? ::
          w.db.log[i].csrf != w.db.log[j].csrf)
    && (forall i | 0 <= i < |w.db.log| && w.db.log[i].Login? :: w.db.log[i].at <= w.now)
    && (forall i | 0 <= i < |w.db.log| && w.db.log[i].Slide? :: w.db.log[i].at <= w.now)
    && (forall i | 0 <= i < |w.db.log| && w.db.log[i].PasswordOk? :: w.db.log[i].at <= w.now)
  }

  ghost predicate WorldInv(w: World) {
    0 <= w.now && Inv(w.db) && (forall v | v in w.minted :: CookieOk(v, w.db, w.now)) && TokensKnown(w)
  }

  lemma InitInv(w: World)
    requires Init(w)
    ensures WorldInv(w)
  {
  }

  lemma ArrivalFine(w: World, p: Presented)
    requires WorldInv(w) && (p.Cookie? ==> p.v in w.minted)
    ensures Fine(Arrival(w, p), w.now) && Stamped(Carried(p))
  {
    var v := Carried(p);
    if v.user.Some? {
      assert CreatedAtLogin(v, w.db.log, w.now);
    }
  }

  /** Any step: the tables grow, the clock does not go back, and no cookie is unminted. */
  lemma StepInv(env: Env, w: World, a: Action)
    requires WorldInv(w) && Enabled(env, w, a)
    ensures WorldInv(Step(env, w, a)) && Grows(w.db, Step(env, w, a).db)
    ensures w.now <= Step(env, w, a).now && w.minted <= Step(env, w, a).minted && w.issued <= Step(env, w, a).issued
  {
    var w' := Step(env, w, a);
    match a
    case Pass(_) => CookiesKept(w, w');
    case SweepTempUsers =>
      ExpirySound(w.db, w.now);
      CookiesKept(w, w');
    case Answer(p, q, nonce) =>
      ArrivalFine(w, p);
      ServeFine(env, Arrival(w, p), !p.Undecodable?, w.now, q, nonce);
      ServeTraced(env, Arrival(w, p), !p.Undecodable?, w.now, q, nonce);
      CookiesKept(w, w');
      TokensStayKnown(env, w, a);
  }

  lemma CookiesKept(w: World, w': World)
    requires (forall v | v in w.minted :: CookieOk(v, w.db, w.now)) && Grows(w.db, w'.db) && w.now <= w'.now
    ensures forall v | v in w.minted :: CookieOk(v, w'.db, w'.now)
  {
    forall v | v in w.minted
      ensures CookieOk(v, w'.db, w'.now)
    {
      CookieKept(v, w.db, w'.db, w.now, w'.now);
    }
  }

  lemma TokensStayKnown(env: Env, w: World, a: Action)
    requires TokensKnown(w) && Enabled(env, w, a) && a.Answer?
    requires Traced(Arrival(w, a.p), w.now, a.q, a.nonce, Response(env, w, a)) && w.db.log <= Response(env, w, a).db.log
    ensures TokensKnown(Step(env, w, a))
  {
    var r, w' := Response(env, w, a), Step(env, w, a);
    forall v | v in w'.minted
      ensures v.csrf == "" || v.csrf in w'.issued
    {
      if v !in w.minted {
        var i :| 0 <= i < |r.saved| && r.saved[i] == v;
        assert DerivedCookie(Arrival(w, a.p), w.now, a.q, a.nonce, r, r.saved[i]);
      }
    }
    forall i | 0 <= i < |r.db.log|
      ensures r.db.log[i].Login? ==> r.db.log[i].csrf in w'.issued
      ensures r.db.log[i].Login? || r.db.log[i].Slide? || r.db.log[i].PasswordOk? ==> r.db.log[i].at <= w'.now
    {
      assert i < |w.db.log| ==> r.db.log[i] == w.db.log[i];
    }
    forall i, j | 0 <= i < j < |r.db.log| && r.db.log[i].Login? && r.db.log[j].Login?
      ensures r.db.log[i].csrf != r.db.log[j].csrf
    {
      assert r.db.log[i] == w.db.log[i];
      assert j < |w.db.log| ==> r.db.log[j] == w.db.log[j];
    }
  }

  /** The invariant holds throughout every run, and runs only ever grow. */
  lemma {:induction false} RunInv(env: Env, w: World, acts: seq<Action>)
    requires WorldInv(w) && Possible(env, w, acts)
    ensures WorldInv(Run(env, w, acts)) && Grows(w.db, Run(env, w, acts).db)
    ensures w.now <= Run(env, w, acts).now && w.minted <= Run(env, w, acts).minted && w.issued <= Run(env, w, acts).issued
    decreases |acts|
  {
    if acts != [] {
      var w' := Step(env, w, acts[0]);
      StepInv(env, w, acts[0]);
      RunInv(env, w', acts[1..]);
      GrowsThrough(w.db, w'.db, Run(env, w, acts).db);
    }
  }
}
