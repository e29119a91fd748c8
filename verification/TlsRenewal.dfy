/**
  The renewal loop of the UI's own certificate (backend/tlsbootstrap.go): the
  int64 arithmetic of the sleep, and the loop as an infinite run of attempts.
  Instants and durations are nanoseconds. A run starts from a leaf that was
  issued, never from the self-signed fallback.
 */
module TlsRenewal {

  const SECOND := 1_000_000_000
  const MIN_SLEEP := 60 * SECOND
  const BACKOFF := 5 * 60 * SECOND
  const TWO62 := 0x4000_0000_0000_0000
  const TWO63 := 0x8000_0000_0000_0000
  const TWO64 := 0x1_0000_0000_0000_0000

  predicate IsInt64(x: int) {
    -TWO63 <= x < TWO63
  }

  // ---------- int64 arithmetic ----------

  /** Two's-complement wrap-around of an int64 operation. */
  function Wrap(x: int): (r: int)
    ensures IsInt64(r)
  {
    (x + TWO63) % TWO64 - TWO63
  }

  /** Go's integer division truncates toward zero. */
  function Quo(a: int, b: int): int
    requires b > 0
  {
    if a >= 0 then a / b else -((-a) / b)
  }

  /** time.Time.Sub saturates at the int64 bounds. */
  function Sub(a: int, b: int): int {
    if a - b < -TWO63 then -TWO63 else if a - b >= TWO63 then TWO63 - 1 else a - b
  }

  function NextSleep(validity: int): int {
    var twoThirds := Quo(Wrap(validity * 2), 3);
    if twoThirds <= 0 then BACKOFF else if twoThirds < MIN_SLEEP then MIN_SLEEP else twoThirds
  }

  /** nextRenewalSleep once the certificate has been read and parsed. */
  method NextRenewalSleep(notBefore: int, notAfter: int) returns (sleep: int)
    ensures sleep == NextSleep(Sub(notAfter, notBefore))
    ensures sleep >= MIN_SLEEP
  {
    var validity := Sub(notAfter, notBefore);
    sleep := Quo(Wrap(validity * 2), 3);
    if sleep <= 0 {
      sleep := BACKOFF;
    }
    if sleep < MIN_SLEEP {
      sleep := MIN_SLEEP;
    }
  }

  /**
    The sleep for every int64 validity. Two thirds of the validity exactly from
    90 seconds up to the bound where doubling wraps; beyond it, five minutes;
    never under a minute, whatever wraps.
   */
  lemma SleepExact(validity: int)
    requires IsInt64(validity)
    ensures NextSleep(validity) >= MIN_SLEEP
    ensures 90 * SECOND <= validity < TWO62 ==> NextSleep(validity) == validity * 2 / 3
    ensures 2 <= validity < 90 * SECOND ==> NextSleep(validity) == MIN_SLEEP
    ensures -TWO62 <= validity <= 1 || TWO62 <= validity ==> NextSleep(validity) == BACKOFF
    ensures validity < -TWO62 ==>
              var wrapped := (validity * 2 + TWO64) / 3;
              NextSleep(validity) == if wrapped == 0 then BACKOFF else if wrapped < MIN_SLEEP then MIN_SLEEP else wrapped
  {
    var d := validity * 2;
    if validity < -TWO62 {
      assert (d + TWO63) % TWO64 == d + TWO63 + TWO64;
    } else if TWO62 <= validity {
      assert (d + TWO63) % TWO64 == d + TWO63 - TWO64;
    } else {
      assert (d + TWO63) % TWO64 == d + TWO63;
    }
  }

  // ---------- the loop ----------

  datatype Leaf = Leaf(notBefore: int, notAfter: int)

  function Validity(leaf: Leaf): int {
    leaf.notAfter - leaf.notBefore
  }

  /** A leaf the CA issues: long enough for the two-thirds rule, short enough not to wrap. */
  predicate Reasonable(leaf: Leaf) {
    90 * SECOND <= Validity(leaf) < TWO62
  }

  /** What one renewUICertOnce comes to; `HalfDone` wrote the certificate file and then failed. */
  datatype Outcome = Renewed(leaf: Leaf) | HalfDone(leaf: Leaf) | Failed

  /**
    The sleep before the attempt may overrun by `late`; the attempt takes `took` and,
    unless it fails before, has written the certificate file after `wrote` of it.
   */
  datatype Attempt = Attempt(late: nat, wrote: nat, took: nat, outcome: Outcome)

  /**
    The instant a sleep begins: the leaf last written, how long the sleep is, and
    two figures for the account of time: `base` is the share of the validity the
    loop sleeps on purpose, `lag` everything else since the leaf's notBefore.
   */
  datatype Point = Point(now: int, leaf: Leaf, sleep: int, base: int, lag: int)

  function StartPoint(now: int, leaf: Leaf): Point {
    var sleep := NextSleep(Sub(leaf.notAfter, leaf.notBefore));
    Point(now, leaf, sleep, sleep, now - leaf.notBefore)
  }

  /** The instant the attempt after this sleep is over. */
  function AttemptEnd(p: Point, a: Attempt): int {
    p.now + p.sleep + a.late + a.took
  }

  /** The instant the attempt has written its certificate. */
  function WriteInstant(p: Point, a: Attempt): int {
    p.now + p.sleep + a.late + a.wrote
  }

  /** The certificate last written, at an instant up to the end of the attempt. */
  function InPlace(p: Point, a: Attempt, t: int): Leaf {
    if !a.outcome.Failed? && WriteInstant(p, a) <= t then a.outcome.leaf else p.leaf
  }

  function NextPoint(p: Point, a: Attempt): Point {
    var end := AttemptEnd(p, a);
    match a.outcome
    case Renewed(leaf) => StartPoint(end, leaf)
    case HalfDone(leaf) => Point(end, leaf, BACKOFF, 0, end - leaf.notBefore + BACKOFF)
    case Failed => Point(end, p.leaf, BACKOFF, p.base, p.lag + a.late + a.took + BACKOFF)
  }

  class Renewer {
    var now: int
    var leaf: Leaf
    var sleep: int
    ghost var base: int
    ghost var lag: int

    ghost function View(): Point
      reads this
    {
      Point(now, leaf, sleep, base, lag)
    }

    /** The sleep computed before the loop is entered. */
    constructor (now: int, leaf: Leaf)
      ensures View() == StartPoint(now, leaf)
    {
      var first := NextRenewalSleep(leaf.notBefore, leaf.notAfter);
      this.now, this.leaf, this.sleep := now, leaf, first;
      base, lag := first, now - leaf.notBefore;
    }

    /** One turn of the loop: sleep, attempt, decide the next sleep. */
    method Turn(a: Attempt)
      modifies this
      ensures View() == NextPoint(old(View()), a)
    {
      now := now + sleep + a.late;
      now := now + a.took;
      match a.outcome {
        case Renewed(issued) =>
          leaf := issued;
          sleep := NextRenewalSleep(leaf.notBefore, leaf.notAfter);
          base, lag := sleep, now - leaf.notBefore;
        case HalfDone(issued) =>
          leaf := issued;
          sleep := BACKOFF;
          base, lag := 0, now - leaf.notBefore + BACKOFF;
        case Failed =>
          sleep := BACKOFF;
          lag := lag + a.late + a.took + BACKOFF;
      }
    }
  }

  /**
    One turn: the attempt comes after the sleep and what it overran, a renewal sleeps two
    thirds of the new validity, anything else five minutes, and only a written
    certificate changes the leaf.
   */
  lemma TurnExact(p: Point, a: Attempt)
    ensures var next := NextPoint(p, a);
            && next.now == p.now + p.sleep + a.late + a.took
            && (a.outcome.Renewed? && Reasonable(a.outcome.leaf) ==>
                  next.sleep == (a.outcome.leaf.notAfter - a.outcome.leaf.notBefore) * 2 / 3)
            && (!a.outcome.Renewed? ==> next.sleep == 300 * SECOND)
            && next.leaf == if a.outcome.Failed? then p.leaf else a.outcome.leaf
  {
    if a.outcome.Renewed? && Reasonable(a.outcome.leaf) {
      SleepExact(Validity(a.outcome.leaf));
    }
  }

  // ---------- infinite runs ----------

  function At(start: Point, attempts: nat -> Attempt, i: nat): Point {
    if i == 0 then start else NextPoint(At(start, attempts, i - 1), attempts(i - 1))
  }

  ghost predicate LeafOk(p: Point) {
    Reasonable(p.leaf) && p.leaf.notBefore <= p.now
  }

  predicate IssuedWell(p: Point, a: Attempt) {
    a.wrote <= a.took
    && (!a.outcome.Failed? ==> Reasonable(a.outcome.leaf) && a.outcome.leaf.notBefore <= WriteInstant(p, a))
  }

  predicate IssuedAt(start: Point, attempts: nat -> Attempt, i: nat) {
    IssuedWell(At(start, attempts, i), attempts(i))
  }

  /** The CA only ever issues reasonable leaves that are already valid when written. */
  ghost predicate IssuesWell(start: Point, attempts: nat -> Attempt) {
    LeafOk(start) && forall i: nat :: IssuedAt(start, attempts, i)
  }

  /** Lag, overrun and attempt all fit in a third of the validity of the leaf in place. */
  predicate Fits(p: Point, a: Attempt) {
    p.lag + a.late + a.took <= Validity(p.leaf) / 3
  }

  /** The account balances: the next attempt starts at notBefore + base + lag, plus its overrun. */
  ghost predicate Balanced(p: Point) {
    && p.now + p.sleep == p.leaf.notBefore + p.base + p.lag
    && MIN_SLEEP <= p.sleep && 0 <= p.base <= Validity(p.leaf) * 2 / 3
  }

  lemma StartBalanced(now: int, leaf: Leaf)
    requires Reasonable(leaf)
    ensures Balanced(StartPoint(now, leaf))
  {
    SleepExact(Validity(leaf));
  }

  lemma TurnKeeps(p: Point, a: Attempt)
    requires Balanced(p) && LeafOk(p) && IssuedWell(p, a)
    ensures var p' := NextPoint(p, a); Balanced(p') && LeafOk(p') && p'.now >= p.now + MIN_SLEEP
  {
    if a.outcome.Renewed? {
      StartBalanced(AttemptEnd(p, a), a.outcome.leaf);
    }
  }

  lemma {:induction false} AlwaysBalanced(start: Point, attempts: nat -> Attempt, i: nat)
    requires Balanced(start) && IssuesWell(start, attempts)
    ensures Balanced(At(start, attempts, i)) && LeafOk(At(start, attempts, i))
  {
    if i > 0 {
      AlwaysBalanced(start, attempts, i - 1);
      assert IssuedAt(start, attempts, i - 1);
      TurnKeeps(At(start, attempts, i - 1), attempts(i - 1));
    }
  }

  /** The leaf in place outlives an attempt if and only if lag, overrun and attempt fit in what is not slept. */
  lemma OutlivesAttemptIff(start: Point, attempts: nat -> Attempt, i: nat)
    requires Balanced(start) && IssuesWell(start, attempts)
    ensures var p, a := At(start, attempts, i), attempts(i);
            && (AttemptEnd(p, a) <= p.leaf.notAfter <==> p.lag + a.late + a.took <= Validity(p.leaf) - p.base)
            && (Fits(p, a) ==> AttemptEnd(p, a) <= p.leaf.notAfter)
  {
    AlwaysBalanced(start, attempts, i);
  }

  lemma {:induction false} TimePasses(start: Point, attempts: nat -> Attempt, i: nat)
    requires Balanced(start) && IssuesWell(start, attempts)
    ensures At(start, attempts, i + 1).now >= At(start, attempts, i).now + MIN_SLEEP
  {
    AlwaysBalanced(start, attempts, i);
    assert IssuedAt(start, attempts, i);
    TurnKeeps(At(start, attempts, i), attempts(i));
  }

  /** Every instant lies between the beginnings of two consecutive sleeps. */
  lemma InstantCovered(start: Point, attempts: nat -> Attempt, t: int) returns (i: nat)
    requires Balanced(start) && IssuesWell(start, attempts) && start.now <= t
    ensures At(start, attempts, i).now <= t < At(start, attempts, i + 1).now
  {
    i := 0;
    TimePasses(start, attempts, 0);
    while t >= At(start, attempts, i + 1).now
      invariant At(start, attempts, i).now <= t
      decreases t - At(start, attempts, i).now
    {
      TimePasses(start, attempts, i + 1);
      i := i + 1;
    }
  }

  /** A sleep begins when the attempt before it is over, with the leaf in place then. */
  lemma NextPointInstant(start: Point, attempts: nat -> Attempt, i: nat)
    requires Balanced(start) && IssuesWell(start, attempts)
    ensures var p, a, p' := At(start, attempts, i), attempts(i), At(start, attempts, i + 1);
            p'.now == AttemptEnd(p, a) <= AttemptEnd(p', attempts(i + 1)) && p'.leaf == InPlace(p, a, p'.now)
  {
    AlwaysBalanced(start, attempts, i + 1);
    assert IssuedAt(start, attempts, i);
  }

  /**
    In every infinite run from an issued leaf: if skew, backoffs of consecutive
    failures, overruns and attempts always fit in a third of the validity, then
    at every instant the certificate last written is within its validity, from the
    instant it is written.
   */
  lemma NeverExpired(now: int, leaf: Leaf, attempts: nat -> Attempt, t: int) returns (i: nat)
    requires IssuesWell(StartPoint(now, leaf), attempts) && now <= t
    requires forall k: nat :: Fits(At(StartPoint(now, leaf), attempts, k), attempts(k))
    ensures var p := At(StartPoint(now, leaf), attempts, i);
            && p.now <= t < AttemptEnd(p, attempts(i))
            && InPlace(p, attempts(i), t).notBefore <= t <= InPlace(p, attempts(i), t).notAfter
  {
    var start := StartPoint(now, leaf);
    StartBalanced(now, leaf);
    i := InstantCovered(start, attempts, t);
    AlwaysBalanced(start, attempts, i);
    assert IssuedAt(start, attempts, i);
    NextPointInstant(start, attempts, i);
    OutlivesAttemptIff(start, attempts, i);
    assert Fits(At(start, attempts, i), attempts(i));
    OutlivesAttemptIff(start, attempts, i + 1);
    assert Fits(At(start, attempts, i + 1), attempts(i + 1));
    TimePasses(start, attempts, i + 1);
  }
}
