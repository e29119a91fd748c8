/**
  The two sliding-window limiters (backend/security/security.go and
  backend/handlers/password_reset.go). Each keeps a lazily pruned list per IP;
  the contracts state what it answers in terms of the full history of what was
  recorded. Instants and durations are nanoseconds on the monotonic clock.
 */
module RateLimits {

  const SECOND := 1_000_000_000
  const LIMIT_COUNT := 5
  const LIMIT_WINDOW := 5 * 60 * SECOND
  const RESET_COUNT := 3
  const RESET_WINDOW := 15 * 60 * SECOND

  // ---------- windows over a history ----------

  predicate Fresh(t: int, now: int, window: int) {
    now - t < window
  }

  /** The entries still inside the window. */
  function Live(times: seq<int>, now: int, window: int): seq<int> {
    if times == [] then []
    else
      var n := |times| - 1;
      Live(times[..n], now, window) + if Fresh(times[n], now, window) then [times[n]] else []
  }

  predicate Ordered(times: seq<int>) {
    forall i, j | 0 <= i < j < |times| :: times[i] <= times[j]
  }

  predicate UpTo(times: seq<int>, clock: int) {
    forall i | 0 <= i < |times| :: times[i] <= clock
  }

  /** From `clock` on no query can tell the pruned list from the full one. */
  ghost predicate Agree(list: seq<int>, full: seq<int>, clock: int, window: int) {
    forall now | now >= clock :: Live(list, now, window) == Live(full, now, window)
  }

  lemma {:induction false} LiveConcat(a: seq<int>, b: seq<int>, now: int, window: int)
    ensures Live(a + b, now, window) == Live(a, now, window) + Live(b, now, window)
  {
    if b == [] {
      assert a + b == a;
    } else {
      var n := |b| - 1;
      assert (a + b)[..|a + b| - 1] == a + b[..n];
      LiveConcat(a, b[..n], now, window);
    }
  }

  lemma {:induction false} LiveNone(times: seq<int>, now: int, window: int)
    requires forall i | 0 <= i < |times| :: !Fresh(times[i], now, window)
    ensures Live(times, now, window) == []
  {
    if times != [] {
      LiveNone(times[..|times| - 1], now, window);
    }
  }

  lemma {:induction false} LiveAll(times: seq<int>, now: int, window: int)
    requires forall i | 0 <= i < |times| :: Fresh(times[i], now, window)
    ensures Live(times, now, window) == times
  {
    if times != [] {
      var n := |times| - 1;
      LiveAll(times[..n], now, window);
      assert times == times[..n] + [times[n]];
    }
  }

  lemma {:induction false} LiveAreFresh(times: seq<int>, now: int, window: int)
    ensures forall i | 0 <= i < |Live(times, now, window)| :: Fresh(Live(times, now, window)[i], now, window)
    ensures Ordered(times) ==> Ordered(Live(times, now, window))
    ensures forall i | 0 <= i < |Live(times, now, window)| :: Live(times, now, window)[i] in times
    ensures |Live(times, now, window)| <= |times|
  {
    if times != [] {
      var init, last := times[..|times| - 1], times[|times| - 1];
      LiveAreFresh(init, now, window);
      assert Ordered(times) ==> forall t | t in init :: t <= last;
    }
  }

  /** Pruning loses nothing a later query could still count. */
  lemma {:induction false} PruneAgrees(times: seq<int>, now: int, later: int, window: int)
    requires now <= later
    ensures Live(Live(times, now, window), later, window) == Live(times, later, window)
  {
    if times != [] {
      var n := |times| - 1;
      PruneAgrees(times[..n], now, later, window);
      var kept := Live(times[..n], now, window);
      LiveSnoc(kept, times[n], later, window);
      assert Live(times, now, window) == if Fresh(times[n], now, window) then kept + [times[n]] else kept;
    }
  }

  lemma LiveSnoc(times: seq<int>, t: int, now: int, window: int)
    ensures Live(times + [t], now, window) == Live(times, now, window) + if Fresh(t, now, window) then [t] else []
  {
    assert (times + [t])[..|times|] == times;
  }

  /** On an ordered history everything after a fresh entry is fresh. */
  lemma {:induction false} LiveAtLeast(times: seq<int>, j: nat, now: int, window: int)
    requires Ordered(times) && j < |times| && Fresh(times[j], now, window)
    ensures |Live(times, now, window)| >= |times| - j
  {
    var n := |times| - 1;
    if j < n {
      LiveAtLeast(times[..n], j, now, window);
    }
  }

  lemma {:induction false} LiveFewer(times: seq<int>, now: int, later: int, window: int)
    requires now <= later
    ensures |Live(times, later, window)| <= |Live(times, now, window)|
  {
    if times != [] {
      LiveFewer(times[..|times| - 1], now, later, window);
    }
  }

  // ---------- the log of everything recorded ----------

  datatype Event = Registered(ip: string, at: int) | Cleared(ip: string)

  /** The attempts of one IP since it was last cleared. */
  function History(log: seq<Event>, ip: string): seq<int> {
    if log == [] then []
    else
      var before := History(log[..|log| - 1], ip);
      match log[|log| - 1]
      case Registered(i, at) => if i == ip then before + [at] else before
      case Cleared(i) => if i == ip then [] else before
  }

  function OnlyIp(log: seq<Event>, ip: string): seq<Event> {
    if log == [] then []
    else OnlyIp(log[..|log| - 1], ip) + if log[|log| - 1].ip == ip then [log[|log| - 1]] else []
  }

  /** IPs never affect each other: the history of one is that of its own events alone. */
  lemma {:induction false} IpsIndependent(log: seq<Event>, ip: string)
    ensures History(log, ip) == History(OnlyIp(log, ip), ip)
  {
    if log != [] {
      IpsIndependent(log[..|log| - 1], ip);
      var only := OnlyIp(log, ip);
      if log[|log| - 1].ip == ip {
        assert only[..|only| - 1] == OnlyIp(log[..|log| - 1], ip);
      } else {
        assert only == OnlyIp(log[..|log| - 1], ip);
      }
    }
  }

  ghost predicate Blocked(log: seq<Event>, ip: string, now: int) {
    |Live(History(log, ip), now, LIMIT_WINDOW)| >= LIMIT_COUNT
  }

  /** On an ordered history nothing up to an entry that is gone is live. */
  lemma LiveAtMost(times: seq<int>, j: nat, now: int, window: int)
    requires Ordered(times) && j < |times| && !Fresh(times[j], now, window)
    ensures |Live(times, now, window)| < |times| - j
  {
    var gone, rest := times[..j + 1], times[j + 1..];
    assert times == gone + rest;
    LiveConcat(gone, rest, now, window);
    assert forall i | 0 <= i < |gone| :: gone[i] <= times[j];
    LiveNone(gone, now, window);
    LiveAreFresh(rest, now, window);
  }

  /** There are `k` live entries exactly when the k-th newest entry is live. */
  lemma LiveCountExact(times: seq<int>, k: nat, now: int, window: int)
    requires Ordered(times) && k >= 1
    ensures |Live(times, now, window)| >= k <==> |times| >= k && now - times[|times| - k] < window
  {
    LiveAreFresh(times, now, window);
    if |times| >= k {
      var j := |times| - k;
      if Fresh(times[j], now, window) {
        LiveAtLeast(times, j, now, window);
      } else {
        LiveAtMost(times, j, now, window);
      }
    }
  }

  /** An address is blocked exactly when its fifth newest attempt since it was cleared is less than five minutes old. */
  lemma BlockedExactly(log: seq<Event>, ip: string, now: int)
    requires Ordered(History(log, ip))
    ensures var h := History(log, ip);
            Blocked(log, ip, now) <==> |h| >= 5 && now - h[|h| - 5] < 300 * SECOND
  {
    LiveCountExact(History(log, ip), 5, now, LIMIT_WINDOW);
  }

  /** The loop both limiters run over one list. */
  method Prune(list: seq<int>, now: int, window: int) returns (v: seq<int>)
    ensures v == Live(list, now, window)
  {
    v := [];
    for i := 0 to |list|
      invariant v == Live(list[..i], now, window)
    {
      assert list[..i + 1][..i] == list[..i];
      if now - list[i] < window {
        v := v + [list[i]];
      }
    }
    assert list[..|list|] == list;
  }

  // ---------- RateLimiter ----------

  class RateLimiter {
    var attempts: map<string, seq<int>>
    ghost var log: seq<Event>
    ghost var clock: int

    ghost predicate Valid()
      reads this
    {
      forall ip :: InStep(Of(ip), History(log, ip), clock)
    }

    function Of(ip: string): seq<int>
      reads this
    {
      if ip in attempts then attempts[ip] else []
    }

    constructor (now: int)
      ensures Valid() && log == [] && clock == now
    {
      attempts, log, clock := map[], [], now;
    }

    /** Drops what has left the window; the code's `now` is the reading of the clock. */
    method Clean(ip: string, now: int)
      requires Valid() && clock <= now
      modifies this`attempts, this`clock
      ensures Valid() && clock == now
      ensures Of(ip) == Live(History(log, ip), now, LIMIT_WINDOW)
    {
      var v := Prune(Of(ip), now, LIMIT_WINDOW);
      InStepQuery(Of(ip), History(log, ip), clock, now);
      attempts := attempts[ip := v];
      forall other ensures InStep(Of(other), History(log, other), now) {
        if other != ip {
          InStepLater(old(Of(other)), History(log, other), clock, now);
        }
      }
      clock := now;
    }

    method IsBlocked(ip: string, now: int) returns (blocked: bool)
      requires Valid() && clock <= now
      modifies this`attempts, this`clock
      ensures Valid() && old(clock) <= clock <= now
      ensures blocked <==> ip != "" && Blocked(log, ip, now)
    {
      if ip == "" {
        return false;
      }
      Clean(ip, now);
      return |Of(ip)| >= LIMIT_COUNT;
    }

    method Register(ip: string, now: int, later: int)
      requires Valid() && clock <= now <= later
      modifies this
      ensures Valid() && clock == later
      ensures log == old(log) + [Registered(ip, later)]
    {
      Clean(ip, now);
      attempts := attempts[ip := Of(ip) + [later]];
      ghost var was := log;
      log := log + [Registered(ip, later)];
      assert log[..|log| - 1] == was;
      forall other ensures InStep(Of(other), History(log, other), later) {
        if other == ip {
          InStepAppend(Live(History(was, ip), now, LIMIT_WINDOW), History(was, ip), now, later);
        }
      }
      clock := later;
    }

    method Clear(ip: string)
      requires Valid()
      modifies this
      ensures Valid() && clock == old(clock)
      ensures log == old(log) + [Cleared(ip)]
    {
      var was := log;
      attempts := attempts - {ip};
      log := log + [Cleared(ip)];
      forall other ensures InStep(Of(other), History(log, other), clock) {
        assert log[..|log| - 1] == was;
        assert InStep(old(Of(other)), History(was, other), clock);
      }
    }

    method Left(ip: string, now: int) returns (left: int)
      requires Valid() && clock <= now
      modifies this`attempts, this`clock
      ensures Valid() && clock == now
      ensures left == Remaining(|Live(History(log, ip), now, LIMIT_WINDOW)|)
    {
      Clean(ip, now);
      var n := LIMIT_COUNT - |Of(ip)|;
      if n < 0 {
        return 0;
      }
      return n;
    }

    method RetryAfter(ip: string, now: int, later: int) returns (wait: int)
      requires Valid() && clock <= now <= later
      modifies this`attempts, this`clock
      ensures Valid() && clock == now
      ensures wait == RetryDelay(Live(History(log, ip), now, LIMIT_WINDOW), later)
    {
      Clean(ip, now);
      if |Of(ip)| < LIMIT_COUNT {
        return 0;
      }
      var remaining := LIMIT_WINDOW - (later - Of(ip)[0]);
      if remaining < 0 {
        return 0;
      }
      return remaining;
    }
  }

  /** The list agrees with the history it was pruned from, and the history is time-ordered. */
  ghost predicate InStep(list: seq<int>, full: seq<int>, clock: int) {
    Agree(list, full, clock, LIMIT_WINDOW) && Ordered(full) && UpTo(full, clock)
  }

  lemma InStepLater(list: seq<int>, full: seq<int>, clock: int, now: int)
    requires InStep(list, full, clock) && clock <= now
    ensures InStep(list, full, now)
  {
  }

  lemma InStepQuery(list: seq<int>, full: seq<int>, clock: int, now: int)
    requires InStep(list, full, clock) && clock <= now
    ensures Live(list, now, LIMIT_WINDOW) == Live(full, now, LIMIT_WINDOW)
    ensures InStep(Live(full, now, LIMIT_WINDOW), full, now)
  {
    forall later | later >= now
      ensures Live(Live(full, now, LIMIT_WINDOW), later, LIMIT_WINDOW) == Live(full, later, LIMIT_WINDOW)
    {
      PruneAgrees(full, now, later, LIMIT_WINDOW);
    }
  }

  lemma InStepAppend(list: seq<int>, full: seq<int>, clock: int, later: int)
    requires InStep(list, full, clock) && clock <= later
    ensures InStep(list + [later], full + [later], later)
  {
    forall now | now >= later
      ensures Live(list + [later], now, LIMIT_WINDOW) == Live(full + [later], now, LIMIT_WINDOW)
    {
      LiveSnoc(list, later, now, LIMIT_WINDOW);
      LiveSnoc(full, later, now, LIMIT_WINDOW);
    }
  }

  function Remaining(live: nat): nat {
    if live >= LIMIT_COUNT then 0 else LIMIT_COUNT - live
  }

  function RetryDelay(live: seq<int>, now: int): int {
    if |live| < LIMIT_COUNT then 0
    else if LIMIT_WINDOW - (now - live[0]) < 0 then 0
    else LIMIT_WINDOW - (now - live[0])
  }

  // ---------- RetryAfter against the instant the block lifts ----------

  /** Until the reported delay has passed the block stands. */
  lemma BlockStandsUntilRetry(times: seq<int>, now: int, later: int)
    requires Ordered(times) && now <= later
    requires |Live(times, now, LIMIT_WINDOW)| >= LIMIT_COUNT
    requires later < now + RetryDelay(Live(times, now, LIMIT_WINDOW), now)
    ensures Live(times, later, LIMIT_WINDOW) == Live(times, now, LIMIT_WINDOW)
  {
    var live := Live(times, now, LIMIT_WINDOW);
    LiveAreFresh(times, now, LIMIT_WINDOW);
    PruneAgrees(times, now, later, LIMIT_WINDOW);
    LiveAll(live, later, LIMIT_WINDOW);
  }

  /**
    The reported delay is exact if and only if the oldest live entry is as old
    as the fifth newest: then the block lifts at that very instant, otherwise
    it still stands.
   */
  lemma RetryExactIff(times: seq<int>, now: int)
    requires Ordered(times) && UpTo(times, now)
    requires |Live(times, now, LIMIT_WINDOW)| >= LIMIT_COUNT
    ensures var live := Live(times, now, LIMIT_WINDOW);
            |Live(times, now + RetryDelay(live, now), LIMIT_WINDOW)| < LIMIT_COUNT
            <==> live[0] == live[|live| - LIMIT_COUNT]
  {
    var live := Live(times, now, LIMIT_WINDOW);
    LiveAreFresh(times, now, LIMIT_WINDOW);
    assert live[0] in times;
    var later := now + RetryDelay(live, now);
    assert later == live[0] + LIMIT_WINDOW >= now;
    PruneAgrees(times, now, later, LIMIT_WINDOW);
    var k := |live| - LIMIT_COUNT;
    if live[0] == live[k] {
      assert live == live[..k + 1] + live[k + 1..];
      LiveConcat(live[..k + 1], live[k + 1..], later, LIMIT_WINDOW);
      LiveNone(live[..k + 1], later, LIMIT_WINDOW);
      LiveAreFresh(live[k + 1..], later, LIMIT_WINDOW);
    } else {
      LiveAtLeast(live, k, later, LIMIT_WINDOW);
    }
  }

  /** The Retry-After header: the delay rounded up to whole seconds. */
  function RetrySeconds(delay: int): int
    requires delay >= 0
  {
    (delay + SECOND - 1) / SECOND
  }

  /**
    The list is pruned at `now` and the delay read off a moment later, at `read`.
    With five entries live at `now`, waiting the advertised seconds from `read` on
    always unblocks, at any later instant too, and waiting one second less never does.
   */
  lemma RetryAfterHeaderExact(times: seq<int>, now: int, read: int, later: int)
    requires Ordered(times) && UpTo(times, now)
    requires |Live(times, now, LIMIT_WINDOW)| == LIMIT_COUNT
    requires now <= read <= later
    ensures var seconds := RetrySeconds(RetryDelay(Live(times, now, LIMIT_WINDOW), read));
            && (read + seconds * SECOND <= later ==> |Live(times, later, LIMIT_WINDOW)| < LIMIT_COUNT)
            && (later <= read + (seconds - 1) * SECOND ==> |Live(times, later, LIMIT_WINDOW)| == LIMIT_COUNT)
  {
    var live := Live(times, now, LIMIT_WINDOW);
    LiveAreFresh(times, now, LIMIT_WINDOW);
    assert Fresh(live[0], now, LIMIT_WINDOW);
    var lifts := live[0] + LIMIT_WINDOW;
    assert lifts == now + RetryDelay(live, now);
    RetryExactIff(times, now);
    if lifts <= later {
      LiveFewer(times, lifts, later, LIMIT_WINDOW);
    } else {
      BlockStandsUntilRetry(times, now, later);
    }
  }

  // ---------- guarded use: LoginPost's gate ----------

  /**
    One IP under LoginPost. `inside` counts requests that passed IsBlocked and
    have not yet registered, cleared or left; at most `k` are inside at once.
   */
  datatype Guarded = Guarded(times: seq<int>, clock: int, inside: nat)

  datatype GuardStep =
    | Enter(now: int)   // IsBlocked answered false
    | Fail(now: int)    // wrong password or code: Register
    | Succeed           // completeLogin: Clear
    | Leave             // bad CSRF token, disabled account, pending 2FA
    | ClearedElsewhere  // an administrator's unblock_ip, or an OIDC login from the IP

  function GuardNext(k: nat, g: Guarded, step: GuardStep): Guarded {
    match step
    case Enter(now) =>
      if now >= g.clock && g.inside < k && |Live(g.times, now, LIMIT_WINDOW)| < LIMIT_COUNT
      then g.(clock := now, inside := g.inside + 1) else g
    case Fail(now) =>
      if now >= g.clock && g.inside > 0
      then Guarded(g.times + [now], now, g.inside - 1) else g
    case Succeed => if g.inside > 0 then g.(times := [], inside := g.inside - 1) else g
    case Leave => if g.inside > 0 then g.(inside := g.inside - 1) else g
    case ClearedElsewhere => g.(times := [])
  }

  function GuardRun(k: nat, g: Guarded, steps: seq<GuardStep>): Guarded
    decreases |steps|
  {
    if steps == [] then g else GuardRun(k, GuardNext(k, g, steps[0]), steps[1..])
  }

  /** Live entries and the requests that may still add one never exceed LimitCount - 1 + k. */
  ghost predicate GuardInv(k: nat, g: Guarded) {
    && Ordered(g.times) && UpTo(g.times, g.clock)
    && g.inside <= k
    && |Live(g.times, g.clock, LIMIT_WINDOW)| + g.inside <= LIMIT_COUNT - 1 + k
  }

  lemma GuardNextInv(k: nat, g: Guarded, step: GuardStep)
    requires GuardInv(k, g)
    ensures GuardInv(k, GuardNext(k, g, step))
  {
    match step
    case Enter(now) =>
    case Fail(now) =>
      if now >= g.clock {
        LiveFewer(g.times, g.clock, now, LIMIT_WINDOW);
        LiveConcat(g.times, [now], now, LIMIT_WINDOW);
        LiveAreFresh([now], now, LIMIT_WINDOW);
      }
    case Succeed =>
    case Leave =>
    case ClearedElsewhere =>
  }

  /** In every run the live entries of an IP never exceed LimitCount - 1 + k. */
  lemma {:induction false} GuardedUseBound(k: nat, g: Guarded, steps: seq<GuardStep>, now: int)
    requires GuardInv(k, g)
    ensures var g' := GuardRun(k, g, steps);
            GuardInv(k, g') && (g'.clock <= now ==> |Live(g'.times, now, LIMIT_WINDOW)| <= LIMIT_COUNT - 1 + k)
    decreases |steps|
  {
    if steps == [] {
      if g.clock <= now {
        LiveFewer(g.times, g.clock, now, LIMIT_WINDOW);
      }
    } else {
      GuardNextInv(k, g, steps[0]);
      GuardedUseBound(k, GuardNext(k, g, steps[0]), steps[1..], now);
    }
  }

  lemma {:induction false} GuardRunConcat(k: nat, g: Guarded, a: seq<GuardStep>, b: seq<GuardStep>)
    ensures GuardRun(k, g, a + b) == GuardRun(k, GuardRun(k, g, a), b)
    decreases |a|
  {
    if a == [] {
      assert a + b == b;
    } else {
      assert (a + b)[1..] == a[1..] + b;
      GuardRunConcat(k, GuardNext(k, g, a[0]), a[1..], b);
    }
  }

  lemma OneFailure(k: nat, g: Guarded, t: int)
    requires k >= 1 && g.inside == 0 && |g.times| < LIMIT_COUNT && g.clock <= t
    ensures GuardRun(k, g, [Enter(t), Fail(t)]) == Guarded(g.times + [t], t, 0)
  {
    LiveAreFresh(g.times, t, LIMIT_WINDOW);
    var entered := g.(clock := t, inside := 1);
    assert GuardNext(k, g, Enter(t)) == entered;
    assert [Enter(t), Fail(t)][1..] == [Fail(t)] && [Fail(t)][1..] == [];
    assert GuardRun(k, entered, [Fail(t)]) == GuardRun(k, GuardNext(k, entered, Fail(t)), []);
  }

  lemma TwoInsideFail(g: Guarded, t: int, u: int)
    requires g.inside == 0 && |g.times| < LIMIT_COUNT && g.clock <= t <= u
    ensures GuardRun(2, g, [Enter(t), Enter(t), Fail(t), Fail(u)]) == Guarded(g.times + [t, u], u, 0)
  {
    LiveAreFresh(g.times, t, LIMIT_WINDOW);
    var one, two := g.(clock := t, inside := 1), g.(clock := t, inside := 2);
    var three := Guarded(g.times + [t], t, 1);
    var steps := [Enter(t), Enter(t), Fail(t), Fail(u)];
    assert steps[1..][1..] == steps[2..] && steps[2..][1..] == steps[3..] && steps[3..][1..] == [];
    assert GuardRun(2, g, steps) == GuardRun(2, one, steps[1..]) == GuardRun(2, two, steps[2..])
        == GuardRun(2, three, steps[3..]) == GuardRun(2, GuardNext(2, three, Fail(u)), []);
    assert g.times + [t] + [u] == g.times + [t, u];
  }

  lemma ThenFails(k: nat, g: Guarded, steps: seq<GuardStep>, t: int, h: Guarded)
    requires h == GuardRun(k, g, steps) && k >= 1 && h.inside == 0 && |h.times| < LIMIT_COUNT && h.clock <= t
    ensures GuardRun(k, g, steps + [Enter(t), Fail(t)]) == Guarded(h.times + [t], t, 0)
  {
    GuardRunConcat(k, g, steps, [Enter(t), Fail(t)]);
    OneFailure(k, h, t);
  }

  /** Failures at 0, 1, .., n - 1, one after the other. */
  function Failures(n: nat): seq<GuardStep> {
    if n == 0 then [] else Failures(n - 1) + [Enter(n - 1), Fail(n - 1)]
  }

  function Counting(n: nat): seq<int> {
    if n == 0 then [] else Counting(n - 1) + [n - 1]
  }

  lemma {:induction false} FailuresRun(n: nat)
    requires n <= LIMIT_COUNT
    ensures |Counting(n)| == n && forall i | 0 <= i < n :: Counting(n)[i] == i
    ensures GuardRun(2, Guarded([], 0, 0), Failures(n)) == Guarded(Counting(n), if n == 0 then 0 else n - 1, 0)
  {
    if n > 0 {
      FailuresRun(n - 1);
      var before := Guarded(Counting(n - 1), if n == 1 then 0 else n - 2, 0);
      ThenFails(2, Guarded([], 0, 0), Failures(n - 1), n - 1, before);
    }
  }

  /** n failures one after the other, then two requests inside at once. */
  function Crowded(n: nat): seq<GuardStep> {
    Failures(n) + [Enter(n), Enter(n), Fail(n), Fail(n + 1)]
  }

  /** A run in which the reported delay is too short: after four failures two requests inside at once leave six live entries. */
  lemma CrowdedRetryTooShort(n: nat)
    requires n == LIMIT_COUNT - 1
    ensures var times := GuardRun(2, Guarded([], 0, 0), Crowded(n)).times;
            var live := Live(times, n + 1, LIMIT_WINDOW);
            && |live| == LIMIT_COUNT + 1
            && |Live(times, n + 1 + RetryDelay(live, n + 1), LIMIT_WINDOW)| >= LIMIT_COUNT
  {
    FailuresRun(n);
    GuardRunConcat(2, Guarded([], 0, 0), Failures(n), [Enter(n), Enter(n), Fail(n), Fail(n + 1)]);
    TwoInsideFail(Guarded(Counting(n), n - 1, 0), n, n + 1);
    StillBlocked(Counting(n) + [n, n + 1], n + 1);
  }

  lemma StillBlocked(times: seq<int>, now: int)
    requires Ordered(times) && UpTo(times, now) && forall i | 0 <= i < |times| :: Fresh(times[i], now, LIMIT_WINDOW)
    requires |times| > LIMIT_COUNT && times[0] != times[|times| - LIMIT_COUNT]
    ensures Live(times, now, LIMIT_WINDOW) == times
    ensures |Live(times, now + RetryDelay(times, now), LIMIT_WINDOW)| >= LIMIT_COUNT
  {
    LiveAll(times, now, LIMIT_WINDOW);
    RetryExactIff(times, now);
  }

  /** With one request at a time the delay RetryAfter reports is always exact. */
  lemma SequentialRetryExact(now: int, steps: seq<GuardStep>, later: int)
    ensures var g := GuardRun(1, Guarded([], now, 0), steps);
            var live := Live(g.times, later, LIMIT_WINDOW);
            g.clock <= later && |live| >= LIMIT_COUNT ==>
              && RetryDelay(live, later) > 0
              && |Live(g.times, later + RetryDelay(live, later), LIMIT_WINDOW)| < LIMIT_COUNT
              && forall t | later <= t < later + RetryDelay(live, later) ::
                   |Live(g.times, t, LIMIT_WINDOW)| >= LIMIT_COUNT
  {
    var g := GuardRun(1, Guarded([], now, 0), steps);
    GuardedUseBound(1, Guarded([], now, 0), steps, later);
    var live := Live(g.times, later, LIMIT_WINDOW);
    if g.clock <= later && |live| >= LIMIT_COUNT {
      LiveAreFresh(g.times, later, LIMIT_WINDOW);
      assert Fresh(live[0], later, LIMIT_WINDOW);
      RetryExactIff(g.times, later);
      forall t | later <= t < later + RetryDelay(live, later)
        ensures |Live(g.times, t, LIMIT_WINDOW)| >= LIMIT_COUNT
      {
        BlockStandsUntilRetry(g.times, later, t);
      }
    }
  }

  // ---------- the password-reset limiter ----------

  function Admit(allowed: seq<int>, now: int): seq<int> {
    if |Live(allowed, now, RESET_WINDOW)| < RESET_COUNT then allowed + [now] else allowed
  }

  /** The requests of one IP that are let through, out of all it makes. */
  function AllowedTimes(requests: seq<int>): seq<int> {
    if requests == [] then []
    else Admit(AllowedTimes(requests[..|requests| - 1]), requests[|requests| - 1])
  }

  lemma AllowedSnoc(requests: seq<int>, now: int)
    ensures AllowedTimes(requests + [now]) == Admit(AllowedTimes(requests), now)
  {
    assert (requests + [now])[..|requests|] == requests;
  }

  /** All requests of one IP, in the order of a log of (ip, instant) pairs. */
  function RequestsOf(log: seq<(string, int)>, ip: string): seq<int> {
    if log == [] then []
    else
      var n := |log| - 1;
      RequestsOf(log[..n], ip) + if log[n].0 == ip then [log[n].1] else []
  }

  class ResetLimiter {
    var attempts: map<string, seq<int>>
    ghost var log: seq<(string, int)>
    ghost var clock: int

    ghost predicate Valid()
      reads this
    {
      AllInStep(attempts, log, clock)
    }

    constructor (now: int)
      ensures Valid() && log == []
    {
      attempts, log, clock := map[], [], now;
    }

    /** passwordResetAllowed: records the attempt only when it is let through. */
    method Allowed(ip: string, now: int) returns (ok: bool)
      requires Valid() && clock <= now
      modifies this
      ensures Valid() && clock == now && log == old(log) + [(ip, now)]
      ensures ok <==> |Live(AllowedTimes(RequestsOf(old(log), ip)), now, RESET_WINDOW)| < RESET_COUNT
      ensures AllowedTimes(RequestsOf(log, ip)) ==
                var before := AllowedTimes(RequestsOf(old(log), ip)); if ok then before + [now] else before
    {
      var kept := Prune(ListOf(attempts, ip), now, RESET_WINDOW);
      ghost var requests := RequestsOf(log, ip);
      assert ResetInStep(ListOf(attempts, ip), requests, clock);
      ResetInStepQuery(ListOf(attempts, ip), requests, clock, now);
      ok := |kept| < RESET_COUNT;
      if ok {
        kept := kept + [now];
      }
      OneListMoves(attempts, log, clock, ip, now, kept);
      attempts := attempts[ip := kept];
      log := log + [(ip, now)];
      clock := now;
    }
  }

  function ListOf(attempts: map<string, seq<int>>, ip: string): seq<int> {
    if ip in attempts then attempts[ip] else []
  }

  ghost predicate AllInStep(attempts: map<string, seq<int>>, log: seq<(string, int)>, clock: int) {
    forall ip :: ResetInStep(ListOf(attempts, ip), RequestsOf(log, ip), clock)
  }

  /** One IP's list moves with its requests; the others only wait. */
  lemma OneListMoves(attempts: map<string, seq<int>>, log: seq<(string, int)>, clock: int, ip: string, now: int, list: seq<int>)
    requires AllInStep(attempts, log, clock) && clock <= now
    requires ResetInStep(list, RequestsOf(log, ip) + [now], now)
    ensures AllInStep(attempts[ip := list], log + [(ip, now)], now)
    ensures RequestsOf(log + [(ip, now)], ip) == RequestsOf(log, ip) + [now]
  {
    RequestsSnoc(log, ip, now);
    forall other
      ensures ResetInStep(ListOf(attempts[ip := list], other), RequestsOf(log + [(ip, now)], other), now)
    {
      if other != ip {
        ResetInStepLater(ListOf(attempts, other), RequestsOf(log, other), clock, now);
      }
    }
  }

  lemma RequestsSnoc(log: seq<(string, int)>, ip: string, now: int)
    ensures forall other :: RequestsOf(log + [(ip, now)], other) ==
              if other == ip then RequestsOf(log, ip) + [now] else RequestsOf(log, other)
  {
    assert (log + [(ip, now)])[..|log|] == log;
  }

  ghost predicate ResetInStep(list: seq<int>, requests: seq<int>, clock: int) {
    Agree(list, AllowedTimes(requests), clock, RESET_WINDOW)
  }

  lemma ResetInStepLater(list: seq<int>, requests: seq<int>, clock: int, now: int)
    requires ResetInStep(list, requests, clock) && clock <= now
    ensures ResetInStep(list, requests, now)
  {
  }

  lemma ResetInStepQuery(list: seq<int>, requests: seq<int>, clock: int, now: int)
    requires ResetInStep(list, requests, clock) && clock <= now
    ensures var live := Live(AllowedTimes(requests), now, RESET_WINDOW);
            && Live(list, now, RESET_WINDOW) == live
            && ResetInStep(if |live| < RESET_COUNT then live + [now] else live, requests + [now], now)
            && AllowedTimes(requests + [now])
               == if |live| < RESET_COUNT then AllowedTimes(requests) + [now] else AllowedTimes(requests)
  {
    var allowed := AllowedTimes(requests);
    var live := Live(allowed, now, RESET_WINDOW);
    AllowedSnoc(requests, now);
    forall later | later >= now
      ensures Live(live, later, RESET_WINDOW) == Live(allowed, later, RESET_WINDOW)
      ensures Live(live + [now], later, RESET_WINDOW) == Live(allowed + [now], later, RESET_WINDOW)
    {
      PruneAgrees(allowed, now, later, RESET_WINDOW);
      LiveSnoc(live, now, later, RESET_WINDOW);
      LiveSnoc(allowed, now, later, RESET_WINDOW);
    }
  }

  lemma {:induction false} AllowedOrdered(requests: seq<int>)
    requires Ordered(requests)
    ensures Ordered(AllowedTimes(requests))
    ensures requests != [] ==> UpTo(AllowedTimes(requests), requests[|requests| - 1])
    ensures |AllowedTimes(requests)| <= |requests|
  {
    if requests != [] {
      var before, t := requests[..|requests| - 1], requests[|requests| - 1];
      AllowedOrdered(before);
      if before != [] {
        assert before[|before| - 1] <= t;
        UpToLater(AllowedTimes(before), before[|before| - 1], t);
      }
      OrderedSnoc(AllowedTimes(before), t);
      assert AllowedTimes(requests) == AllowedTimes(before) || AllowedTimes(requests) == AllowedTimes(before) + [t];
    }
  }

  lemma UpToLater(times: seq<int>, clock: int, later: int)
    requires UpTo(times, clock) && clock <= later
    ensures UpTo(times, later)
  {
  }

  lemma OrderedSnoc(times: seq<int>, t: int)
    requires Ordered(times) && UpTo(times, t)
    ensures Ordered(times + [t]) && UpTo(times + [t], t)
  {
  }

  /** Of any four requests let through, the first and the last are a full window apart. */
  lemma {:induction false} FourthWaits(requests: seq<int>, i: nat)
    requires Ordered(requests) && i + RESET_COUNT < |AllowedTimes(requests)|
    ensures AllowedTimes(requests)[i + RESET_COUNT] - AllowedTimes(requests)[i] >= RESET_WINDOW
  {
    var n := |requests| - 1;
    var before, now := AllowedTimes(requests[..n]), requests[n];
    AllowedOrdered(requests[..n]);
    if i + RESET_COUNT < |before| {
      FourthWaits(requests[..n], i);
    } else if Fresh(before[i], now, RESET_WINDOW) {
      LiveAtLeast(before, i, now, RESET_WINDOW);
    }
  }

  function InWindow(times: seq<int>, from: int): seq<int> {
    if times == [] then []
    else
      var n := |times| - 1;
      InWindow(times[..n], from) + if from <= times[n] < from + RESET_WINDOW then [times[n]] else []
  }

  predicate Inside(t: int, from: int) {
    from <= t < from + RESET_WINDOW
  }

  /** On an ordered list the entries of a window stand side by side, from lo up to hi. */
  lemma {:induction false} InWindowSpan(times: seq<int>, from: int) returns (lo: nat, hi: nat)
    requires Ordered(times)
    ensures lo <= hi <= |times| && |InWindow(times, from)| == hi - lo
    ensures forall i | lo <= i < hi :: Inside(times[i], from)
    ensures lo == hi || hi == |times| || times[|times| - 1] >= from + RESET_WINDOW
  {
    lo, hi := 0, 0;
    if times != [] {
      var n := |times| - 1;
      var before := times[..n];
      lo, hi := InWindowSpan(before, from);
      if Inside(times[n], from) {
        assert n > 0 ==> before[n - 1] <= times[n];
        if lo == hi {
          lo := n;
        }
        hi := n + 1;
      } else if lo < hi {
        assert before[n - 1] <= times[n] && before[hi - 1] <= times[n];
      }
    }
  }

  /** A further request is allowed exactly when the third newest allowed one is fifteen minutes old or there is none. */
  lemma AllowedExactly(requests: seq<int>, now: int)
    requires Ordered(requests)
    ensures AllowedTimes(requests + [now])
            == if ThirdIsRecent(AllowedTimes(requests), now) then AllowedTimes(requests) else AllowedTimes(requests) + [now]
  {
    AllowedOrdered(requests);
    AllowedSnoc(requests, now);
    AdmitExactly(AllowedTimes(requests), now);
  }

  predicate ThirdIsRecent(allowed: seq<int>, now: int) {
    |allowed| >= 3 && now - allowed[|allowed| - 3] < 900 * SECOND
  }

  lemma AdmitExactly(allowed: seq<int>, now: int)
    requires Ordered(allowed)
    ensures Admit(allowed, now) == if ThirdIsRecent(allowed, now) then allowed else allowed + [now]
  {
    LiveCountExact(allowed, 3, now, RESET_WINDOW);
  }

  /** Any fifteen-minute window holds at most three allowed requests. */
  lemma AtMostThreePerWindow(requests: seq<int>, from: int)
    requires Ordered(requests)
    ensures |InWindow(AllowedTimes(requests), from)| <= RESET_COUNT
  {
    AllowedOrdered(requests);
    var allowed := AllowedTimes(requests);
    var lo, hi := InWindowSpan(allowed, from);
    if hi - lo > RESET_COUNT {
      assert Inside(allowed[lo], from) && Inside(allowed[lo + RESET_COUNT], from);
      FourthWaits(requests, lo);
    }
  }

  /** A refused request changes nothing: without it every other request fares the same. */
  lemma RefusedNeverProlongs(before: seq<int>, refused: int, after: seq<int>)
    requires AllowedTimes(before + [refused]) == AllowedTimes(before)
    ensures AllowedTimes(before + [refused] + after) == AllowedTimes(before + after)
  {
    AllowedConcat(before + [refused], after);
    AllowedConcat(before, after);
  }

  /** Letting further requests in, given those already let through. */
  function AdmitAll(allowed: seq<int>, requests: seq<int>): seq<int> {
    if requests == [] then allowed
    else Admit(AdmitAll(allowed, requests[..|requests| - 1]), requests[|requests| - 1])
  }

  lemma {:induction false} AllowedConcat(before: seq<int>, after: seq<int>)
    ensures AllowedTimes(before + after) == AdmitAll(AllowedTimes(before), after)
  {
    if after == [] {
      assert before + after == before;
    } else {
      var n := |after| - 1;
      AllowedConcat(before, after[..n]);
      AllowedSnoc(before + after[..n], after[n]);
      assert before + after == before + after[..n] + [after[n]];
    }
  }
}
