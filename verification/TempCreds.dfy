/**
  The one-shot store that hands a generated credential from the POST that made it
  to the page that shows it (backend/handlers/temp_creds.go). Every put and take
  is recorded in a ghost history; the class invariant says what the map holds in
  terms of that history. Instants are nanoseconds on the monotonic clock.
 */
module TempCreds {
  import opened Common

  const TTL := 2 * 60 * 1_000_000_000

  datatype Cred = Cred(username: string, password: string, expires: int)

  datatype Access =
    | Put(token: string, cred: Cred, at: int)
    | Take(token: string, got: Option<Cred>, at: int)

  // ---------- histories ----------

  ghost predicate WasPut(history: seq<Access>, token: string) {
    exists i | 0 <= i < |history| :: history[i].Put? && history[i].token == token
  }

  ghost predicate WasTaken(history: seq<Access>, token: string) {
    exists i | 0 <= i < |history| :: history[i].Take? && history[i].token == token
  }

  /** Instants never go back, every put uses a token of its own, and its entry lives for one TTL. */
  ghost predicate WellTimed(history: seq<Access>, clock: int) {
    && (forall i | 0 <= i < |history| :: history[i].at <= clock)
    && (forall i, j | 0 <= i < j < |history| :: history[i].at <= history[j].at)
    && (forall i, j | 0 <= i < j < |history| && history[i].Put? && history[j].Put? ::
          history[i].token != history[j].token)
    && (forall i | 0 <= i < |history| && history[i].Put? :: history[i].cred.expires == history[i].at + TTL)
  }

  /** Access `i` put this credential and nobody has asked for its token since. */
  ghost predicate PutUnasked(history: seq<Access>, i: int, token: string, cred: Cred) {
    && 0 <= i < |history| && history[i].Put? && history[i].token == token && history[i].cred == cred
    && forall j | i < j < |history| :: !(history[j].Take? && history[j].token == token)
  }

  /** The entry of `token` still due: put, never asked for since, not yet expired. */
  ghost predicate Pending(history: seq<Access>, token: string, cred: Cred, now: int) {
    now <= cred.expires && exists i :: PutUnasked(history, i, token, cred)
  }

  /** Every successful take answers an earlier put of its token, not asked for in between and in time. */
  ghost predicate TakesHonest(history: seq<Access>) {
    forall k | 0 <= k < |history| && history[k].Take? && history[k].got.Some? ::
      Pending(history[..k], history[k].token, history[k].got.value, history[k].at)
  }

  /** ... and every refused take had nothing due. */
  ghost predicate RefusalsHonest(history: seq<Access>) {
    forall k, cred | 0 <= k < |history| && history[k].Take? && history[k].got.None? && history[k].token != "" ::
      !Pending(history[..k], history[k].token, cred, history[k].at)
  }

  /** Tokens put within one TTL before `now`. */
  ghost function RecentTokens(history: seq<Access>, now: int): set<string> {
    set i | 0 <= i < |history| && history[i].Put? && now <= history[i].at + TTL :: history[i].token
  }

  class Store {
    var creds: map<string, Cred>
    ghost var history: seq<Access>
    ghost var clock: int
    ghost var swept: int  // the instant of the last eviction

    ghost predicate Valid()
      reads this
    {
      && swept <= clock
      && WellTimed(history, clock)
      && TakesHonest(history) && RefusalsHonest(history)
      && "" !in creds
      && (forall token, cred :: token in creds && creds[token] == cred ==> Pending(history, token, cred, swept))
      && (forall token, cred :: Pending(history, token, cred, swept) ==> token in creds && creds[token] == cred)
    }

    constructor (now: int)
      ensures Valid() && history == [] && clock == now
    {
      creds, history, clock, swept := map[], [], now, now;
    }

    /** Drops timed-out entries, visiting the map in any order. */
    method EvictExpired(now: int)
      requires Valid() && clock <= now
      modifies this`creds, this`clock, this`swept
      ensures Valid() && clock == swept == now
      ensures forall token | token in creds :: now <= creds[token].expires
      ensures creds.Keys <= old(creds.Keys)
    {
      var todo := creds.Keys;
      ghost var was := creds;
      while todo != {}
        modifies this`creds
        invariant creds.Keys <= was.Keys && todo <= creds.Keys
        invariant forall token | token in creds :: creds[token] == was[token]
        invariant forall token | token in was && was[token].expires >= now :: token in creds
        invariant forall token | token in creds && creds[token].expires < now :: token in todo
        decreases todo
      {
        var token := AnyOf(todo);
        todo := todo - {token};
        if now > creds[token].expires {
          creds := creds - {token};
        }
      }
      forall token, cred
        ensures (token in creds && creds[token] == cred) <==> Pending(history, token, cred, now)
      {
        assert Pending(history, token, cred, swept) <==> (token in was && was[token] == cred);
      }
      clock, swept := now, now;
    }

    /** put: `token` is the freshly generated one. */
    method Deposit(username: string, password: string, token: string, now: int, later: int)
      requires Valid() && clock <= now <= later
      requires token != "" && !WasPut(history, token) && !WasTaken(history, token)
      modifies this
      ensures Valid() && clock == later
      ensures history == old(history) + [Put(token, Cred(username, password, later + TTL), later)]
      ensures forall t | t in creds :: now <= creds[t].expires
      ensures swept == now
    {
      EvictExpired(now);
      var cred := Cred(username, password, later + TTL);
      ghost var was := history;
      creds := creds[token := cred];
      history := history + [Put(token, cred, later)];
      clock := later;
      forall t, c ensures Pending(history, t, c, swept) <==> Pending(was, t, c, swept) || (t == token && c == cred) {
        PendingAfterPut(was, token, cred, later, t, c, swept);
      }
      assert history[..|was|] == was;
      assert forall k | 0 <= k < |was| :: history[..k] == was[..k];
    }

    method Withdraw(token: string, now: int) returns (got: Option<Cred>)
      requires Valid() && clock <= now
      modifies this
      ensures Valid() && old(clock) <= clock <= now
      ensures history == old(history) + [Take(token, got, clock)]
      ensures token != "" ==> clock == now && forall t | t in creds :: now <= creds[t].expires
      ensures token != "" ==> swept == now
      ensures token == "" ==> got.None?
    {
      if token == "" {
        ghost var was := history;
        history := history + [Take(token, None, clock)];
        TakeRecorded(was, token, None, clock, swept);
        return None;
      }
      EvictExpired(now);
      got := if token in creds then Some(creds[token]) else None;
      creds := creds - {token};
      if got.Some? && now > got.value.expires {
        got := None;
      }
      ghost var was := history;
      history := history + [Take(token, got, now)];
      TakeRecorded(was, token, got, now, swept);
    }

    /** After an access the map is no larger than the puts of one TTL. */
    lemma SizeWithinOneTtl()
      requires Valid()
      ensures |creds.Keys| <= |RecentTokens(history, swept)|
    {
      assert forall t | t in creds :: Pending(history, t, creds[t], swept);
      SizeBounded(history, clock, creds.Keys, swept);
    }
  }

  // ---------- how one access moves what is pending ----------

  lemma PendingAfterPut(was: seq<Access>, token: string, cred: Cred, at: int, t: string, c: Cred, now: int)
    requires now <= cred.expires
    ensures Pending(was + [Put(token, cred, at)], t, c, now) <==> Pending(was, t, c, now) || (t == token && c == cred)
  {
    var history := was + [Put(token, cred, at)];
    if Pending(was, t, c, now) {
      var i :| PutUnasked(was, i, t, c);
      assert PutUnasked(history, i, t, c);
    }
    if t == token && c == cred {
      assert PutUnasked(history, |was|, t, c);
    }
    if Pending(history, t, c, now) && !(t == token && c == cred) {
      var i :| PutUnasked(history, i, t, c);
      assert forall j | 0 <= j < |was| :: history[j] == was[j];
      assert PutUnasked(was, i, t, c);
    }
  }

  lemma PendingAfterTake(was: seq<Access>, token: string, got: Option<Cred>, at: int, t: string, c: Cred, now: int)
    ensures Pending(was + [Take(token, got, at)], t, c, now) <==> Pending(was, t, c, now) && t != token
  {
    var history := was + [Take(token, got, at)];
    assert history[|was|] == Take(token, got, at);
    if Pending(was, t, c, now) && t != token {
      var i :| PutUnasked(was, i, t, c);
      assert PutUnasked(history, i, t, c);
    }
    if Pending(history, t, c, now) {
      var i :| PutUnasked(history, i, t, c);
      assert forall j | 0 <= j < |was| :: history[j] == was[j];
      assert PutUnasked(was, i, t, c);
    }
  }

  lemma TakeRecorded(was: seq<Access>, token: string, got: Option<Cred>, at: int, now: int)
    ensures var history := was + [Take(token, got, at)];
            && history[..|was|] == was
            && (forall k | 0 <= k < |was| :: history[..k] == was[..k])
            && forall t, c :: Pending(history, t, c, now) <==> Pending(was, t, c, now) && t != token
  {
    forall t, c
      ensures Pending(was + [Take(token, got, at)], t, c, now) <==> Pending(was, t, c, now) && t != token
    {
      PendingAfterTake(was, token, got, at, t, c, now);
    }
  }

  // ---------- main results, for every history the store can have ----------

  /** Each credential is handed out by at most one take. */
  lemma TakenAtMostOnce(history: seq<Access>, clock: int, a: nat, b: nat)
    requires WellTimed(history, clock) && TakesHonest(history)
    requires a < b < |history| && history[a].Take? && history[b].Take?
    requires history[a].token == history[b].token && history[a].got.Some?
    ensures history[b].got.None?
  {
    var token := history[a].token;
    var i := TakenInTime(history, clock, a);
    if history[b].got.Some? {
      var j := TakenInTime(history, clock, b);
    }
  }

  /** A take returns what was put under its token, at most one TTL after it was put, and first asks for it. */
  lemma TakenInTime(history: seq<Access>, clock: int, k: nat) returns (i: nat)
    requires WellTimed(history, clock) && TakesHonest(history)
    requires k < |history| && history[k].Take? && history[k].got.Some?
    ensures i < k && history[i].Put? && history[i].token == history[k].token
    ensures history[i].cred == history[k].got.value
    ensures history[i].at <= history[k].at <= history[i].at + 120_000_000_000
    ensures forall j | i < j < k :: !(history[j].Take? && history[j].token == history[k].token)
  {
    var token, cred := history[k].token, history[k].got.value;
    assert Pending(history[..k], token, cred, history[k].at);
    i :| PutUnasked(history[..k], i, token, cred);
    assert forall j | 0 <= j < k :: history[..k][j] == history[j];
  }

  /** The first take of a token within its TTL gets the credential: none is lost early. */
  lemma FirstTakeServed(history: seq<Access>, clock: int, i: nat, k: nat)
    requires WellTimed(history, clock) && TakesHonest(history) && RefusalsHonest(history)
    requires i < k < |history| && history[i].Put? && history[i].token != ""
    requires history[k].Take? && history[k].token == history[i].token && history[k].at <= history[i].at + 120_000_000_000
    requires forall j | i < j < k :: !(history[j].Take? && history[j].token == history[i].token)
    ensures history[k].got == Some(history[i].cred)
  {
    assert forall j | 0 <= j < k :: history[..k][j] == history[j];
    assert PutUnasked(history[..k], i, history[i].token, history[i].cred);
    assert Pending(history[..k], history[i].token, history[i].cred, history[k].at);
    if history[k].got.Some? {
      var n := TakenInTime(history, clock, k);
    }
  }

  /** What the map holds at an access fits among the tokens put within one TTL. */
  lemma SizeBounded(history: seq<Access>, clock: int, held: set<string>, now: int)
    requires WellTimed(history, clock)
    requires forall token | token in held :: exists cred :: Pending(history, token, cred, now)
    ensures |held| <= |RecentTokens(history, now)|
  {
    forall token | token in held ensures token in RecentTokens(history, now) {
      var cred :| Pending(history, token, cred, now);
      var i :| PutUnasked(history, i, token, cred);
    }
    SubsetSmaller(held, RecentTokens(history, now));
  }

  lemma {:induction false} SubsetSmaller<T>(a: set<T>, b: set<T>)
    requires a <= b
    ensures |a| <= |b|
  {
    if a != {} {
      var x :| x in a;
      SubsetSmaller(a - {x}, b - {x});
    }
  }
}
