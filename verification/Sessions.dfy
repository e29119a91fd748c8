/**
  The session cookie and its validation (backend/middleware/session.go). The
  cookie is the whole session: clients hold it, cannot forge it, and may present
  any cookie ever minted, so every rule below speaks about a cookie's values and
  the account row they point at. Instants are nanoseconds; the cookie keeps whole
  seconds.
 */
module Sessions {
  import opened Common
  import opened Accounts

  datatype Values = Values(
    user: Option<int>, epoch: int, created: Option<int>, last: Option<int>, csrf: string,
    pendingUser: int, pendingExpires: int)

  const Empty := Values(None, 0, None, None, "", 0, 0)
  const IDLE := 8 * 3600 * SECOND
  const LIFETIME := 24 * 3600 * SECOND

  datatype Reason = Accepted | RejectDecode | RejectAnonymous | RejectExpired | RejectUser

  /** `clear`: the caller must wipe the session and save it before answering. */
  datatype Verdict = Verdict(values: Values, reason: Reason, clear: bool)

  /** The values are those left in the session, also on a refusal. */
  function ValidateSession(db: Db, decoded: bool, v: Values, now: int, slide: bool): Verdict {
    if !decoded then Verdict(v, RejectDecode, true)
    else if v.user.None? then Verdict(v, RejectAnonymous, false)
    else if v.created.Some? && now - v.created.value * SECOND > LIFETIME then Verdict(v, RejectExpired, true)
    else
      var stamped := if v.created.Some? then v else v.(created := Some(Unix(now)));
      if v.last.Some? && now - v.last.value * SECOND > IDLE then Verdict(stamped, RejectExpired, true)
      else
        var slid := if slide then stamped.(last := Some(Unix(now))) else stamped;
        if v.user.value !in db.users || !db.users[v.user.value].active then Verdict(slid, RejectUser, true)
        else if v.epoch != db.users[v.user.value].epoch then Verdict(slid, RejectUser, true)
        else Verdict(slid, Accepted, false)
  }

  /** The cookie opens a session of its user now. */
  predicate Accepts(db: Db, v: Values, now: int) {
    ValidateSession(db, true, v, now, true).reason == Accepted
  }

  // ---------- where a cookie comes from ----------

  ghost predicate LoggedIn(log: seq<Event>, user: int, csrf: string, at: int) {
    exists path, totp :: Login(user, at, csrf, path, totp) in log
  }

  /** At this instant the session was opened or its idle window renewed. */
  ghost predicate Touched(log: seq<Event>, user: int, csrf: string, at: int) {
    Slide(user, at, csrf) in log || LoggedIn(log, user, csrf, at)
  }

  /** created_at is the second of a login of the session. */
  ghost predicate CreatedAtLogin(v: Values, log: seq<Event>, now: int)
    requires v.user.Some?
  {
    exists at :: LoggedIn(log, v.user.value, v.csrf, at) && at <= now && v.created == Some(Unix(at))
  }

  /** last_activity is the second of a login or sliding request of the session. */
  ghost predicate LastAtTouch(v: Values, log: seq<Event>, now: int)
    requires v.user.Some?
  {
    exists at :: Touched(log, v.user.value, v.csrf, at) && at <= now && v.last == Some(Unix(at))
  }

  ghost predicate PendingEarned(v: Values, log: seq<Event>, now: int) {
    v.pendingUser > 0 ==>
      exists at :: PasswordOk(v.pendingUser, at) in log && 0 <= at <= now && v.pendingExpires == Unix(at + PENDING_TTL)
  }

  /** What holds of every cookie the server ever minted. */
  ghost predicate CookieOk(v: Values, db: Db, now: int) {
    && (v.user.Some? ==>
          && v.user.value < db.nextUser && v.csrf != ""
          && (v.user.value in db.users ==> v.epoch <= db.users[v.user.value].epoch)
          && CreatedAtLogin(v, db.log, now) && LastAtTouch(v, db.log, now))
    && PendingEarned(v, db.log, now)
  }

  lemma LogGrows(log: seq<Event>, more: seq<Event>)
    requires log <= more
    ensures forall e | e in log :: e in more
  {
    forall e | e in log
      ensures e in more
    {
      var i :| 0 <= i < |log| && log[i] == e;
      assert more[i] == e;
    }
  }

  /** A cookie's standing survives everything the tables and the clock may do. */
  lemma CookieKept(v: Values, a: Db, b: Db, now: int, later: int)
    requires CookieOk(v, a, now) && Grows(a, b) && now <= later
    ensures CookieOk(v, b, later)
  {
    LogGrows(a.log, b.log);
    if v.user.Some? {
      OriginKept(v, a.log, b.log, now, later);
    }
  }

  lemma OriginKept(v: Values, log: seq<Event>, more: seq<Event>, now: int, later: int)
    requires v.user.Some? && CreatedAtLogin(v, log, now) && LastAtTouch(v, log, now) && now <= later
    requires forall e | e in log :: e in more
    ensures CreatedAtLogin(v, more, later) && LastAtTouch(v, more, later)
  {
    var created :| LoggedIn(log, v.user.value, v.csrf, created) && created <= now && v.created == Some(Unix(created));
    assert LoggedIn(more, v.user.value, v.csrf, created);
    var last :| Touched(log, v.user.value, v.csrf, last) && last <= now && v.last == Some(Unix(last));
    assert Touched(more, v.user.value, v.csrf, last) by {
      if LoggedIn(log, v.user.value, v.csrf, last) {
        assert LoggedIn(more, v.user.value, v.csrf, last);
      }
    }
  }

  /**
    A cookie is accepted only within 24 hours of a login of its session and within
    8 hours of that login or of a sliding request of the same session.
   */
  lemma AcceptedInTime(v: Values, db: Db, minted: int, now: int)
    requires CookieOk(v, db, minted) && Accepts(db, v, now)
    ensures exists at :: LoggedIn(db.log, v.user.value, v.csrf, at) && at <= minted && now <= at + LIFETIME
    ensures exists at :: Touched(db.log, v.user.value, v.csrf, at) && at <= minted && now <= at + IDLE
  {
    var created :| LoggedIn(db.log, v.user.value, v.csrf, created) && created <= minted && v.created == Some(Unix(created));
    var last :| Touched(db.log, v.user.value, v.csrf, last) && last <= minted && v.last == Some(Unix(last));
    assert Unix(created) * SECOND <= created && Unix(last) * SECOND <= last;
  }

  const NANOS := 1_000_000_000
  const EIGHT_HOURS := 8 * 60 * 60 * NANOS
  const ONE_DAY := 24 * 60 * 60 * NANOS

  /** The row a cookie points at is there, active, and of the cookie's epoch. */
  predicate RowCurrent(db: Db, v: Values) {
    && v.user.Some? && v.user.value in db.users
    && db.users[v.user.value].active && db.users[v.user.value].epoch == v.epoch
  }

  /** A cookie is accepted exactly when its row is current and both stamps it has are recent enough. */
  lemma AcceptsExactly(db: Db, v: Values, now: int)
    ensures Accepts(db, v, now) <==>
              && RowCurrent(db, v)
              && (v.created.Some? ==> now <= v.created.value * NANOS + ONE_DAY)
              && (v.last.Some? ==> now <= v.last.value * NANOS + EIGHT_HOURS)
  {
  }

  /** What a request leaves in a session: its second as the last activity if it slides, and a birth if there was none. */
  predicate LeftBehind(v: Values, after: Values, now: int, slide: bool) {
    && (after.user, after.epoch, after.csrf) == (v.user, v.epoch, v.csrf)
    && (after.pendingUser, after.pendingExpires) == (v.pendingUser, v.pendingExpires)
    && after.last == (if slide then Some(now / NANOS) else v.last)
    && after.created == (if v.created.Some? then v.created else Some(now / NANOS))
  }

  /** Sliding decides nothing; the verdict is that of `Accepts`, and only an anonymous session is refused without a wipe. */
  lemma ValidatedExactly(db: Db, v: Values, now: int, slide: bool)
    ensures var verdict := ValidateSession(db, true, v, now, slide);
            && (verdict.reason == Accepted <==> Accepts(db, v, now))
            && (verdict.reason == Accepted ==> LeftBehind(v, verdict.values, now, slide))
            && (verdict.clear <==> v.user.Some? && !Accepts(db, v, now))
            && (v.user.None? ==> verdict.values == v)
    ensures var verdict := ValidateSession(db, false, v, now, slide);
            verdict.reason == RejectDecode && verdict.clear && verdict.values == v
  {
  }

  /** The role ranking; an unknown wanted role is never satisfied. */
  function RoleLevel(role: string): int {
    if role == "viewer" then 1 else if role == "manager" then 2 else if role == "admin" then 3 else 0
  }

  predicate RoleAllows(have: string, want: string) {
    RoleLevel(want) != 0 && RoleLevel(have) >= RoleLevel(want)
  }

  /** Who may do what, case by case. */
  lemma RoleTable(have: string, want: string)
    ensures RoleAllows(have, want) <==>
              || (want == "viewer" && have in {"viewer", "manager", "admin"})
              || (want == "manager" && have in {"manager", "admin"})
              || (want == "admin" && have == "admin")
  {
  }

  /** Allowed roles form a ladder: whoever may do more may do less, and an unknown role may do nothing. */
  lemma RoleLadder(a: string, b: string, c: string)
    ensures RoleAllows(a, b) && RoleAllows(b, c) ==> RoleAllows(a, c)
    ensures !ValidRole(a) ==> !RoleAllows(a, b) && !RoleAllows(b, a)
    ensures ValidRole(a) && ValidRole(b) ==> RoleAllows(a, b) || RoleAllows(b, a)
  {
  }
}
