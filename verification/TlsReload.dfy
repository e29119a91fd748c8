/**
  The hot-reloading TLS certificate cache (backend/tlsreload.go) as a machine of
  small steps: any number of handshakes run `GetCertificate` at once while the
  certificate and key files are rewritten under them, one content change at a
  time. Each file has a timeline, the versions it has had; a version is named by
  its position there. Positions are bookkeeping: the code branches only on mtimes.

  Assumption, stated in `DistinctTimes`: every content change gives the file an
  mtime it never had before. `MtimesMustDiffer` shows that it is needed.
 */
module TlsReload {
  import opened Common

  // ---------- files ----------

  /** A file between two content changes; `bytes` may be empty or cut short. */
  datatype Version = Absent | Present(mtime: int, bytes: string)

  predicate DistinctTimes(timeline: seq<Version>) {
    && (forall i | 0 <= i < |timeline| && timeline[i].Present? :: timeline[i].mtime > 0)
    && (forall i, j | 0 <= i < j < |timeline| && timeline[i].Present? && timeline[j].Present? ::
          timeline[i].mtime != timeline[j].mtime)
  }

  /** Whether tls.X509KeyPair accepts the two contents as a matching pair. */
  type PairTest = (string, string) -> bool

  /** A certificate version and a key version. */
  datatype Pair = Pair(cert: int, key: int)

  predicate NotNewer(a: Pair, b: Pair) {
    a.cert <= b.cert && a.key <= b.key
  }

  // ---------- one call, without interference ----------

  /** statFiles: both mtimes, or an error when either file is missing. */
  datatype Stat = StatFailed | Times(certMod: int, keyMod: int)

  datatype Cache<T> = Cache(cached: Option<T>, certMod: int, keyMod: int)

  predicate Unchanged<T>(c: Cache<T>, stat: Stat) {
    stat.Times? && c.cached.Some? && stat.certMod == c.certMod && stat.keyMod == c.keyMod
  }

  /** The cache and the answer after one call; `None` is the error. */
  function GetCertificateSpec<T>(c: Cache<T>, stat: Stat, load: Option<T>): (Cache<T>, Option<T>) {
    if Unchanged(c, stat) || load.None? then (c, c.cached)
    else if stat.Times? then (Cache(load, stat.certMod, stat.keyMod), load)
    else (c.(cached := load), load)
  }

  /** A loaded certificate with the contents it came from. */
  datatype KeyPair = KeyPair(cert: string, key: string)

  class CertReloader {
    var cached: Option<KeyPair>
    var certMod: int
    var keyMod: int

    ghost function View(): Cache<KeyPair>
      reads this
    {
      Cache(cached, certMod, keyMod)
    }

    constructor ()
      ensures View() == Cache(None, 0, 0)
    {
      cached, certMod, keyMod := None, 0, 0;
    }

    /** The part under the read lock. */
    method FastPath(stat: Stat) returns (matched: bool, held: Option<KeyPair>)
      ensures matched == Unchanged(View(), stat) && held == cached
    {
      held := cached;
      matched := stat.Times? && held.Some? && stat.certMod == certMod && stat.keyMod == keyMod;
    }

    /** One call. `load` is what reading the two files would give, None for an error. */
    method GetCertificate(stat: Stat, load: Option<KeyPair>) returns (out: Option<KeyPair>)
      modifies this
      ensures (View(), out) == GetCertificateSpec(old(View()), stat, load)
    {
      var matched, held := FastPath(stat);
      if matched {
        return held;
      }
      if stat.Times? && cached.Some? && stat.certMod == certMod && stat.keyMod == keyMod {
        return cached;
      }
      if load.None? {
        if cached.Some? {
          return cached;
        }
        return None;
      }
      cached := load;
      if stat.Times? {
        certMod := stat.certMod;
        keyMod := stat.keyMod;
      }
      return cached;
    }
  }

  // ---------- the machine ----------

  datatype Pc =
    | StatCert | StatKey
    | TakeRead | ReadCached | CompareTimes | ReleaseRead
    | TakeWrite | Recheck | LoadCert | LoadKey | StoreCached | StoreCertMod | StoreKeyMod | Leave

  datatype Path = Fast | Rechecked | Reloaded | FellBack

  /** One handshake inside GetCertificate. `from` and `saw` name the versions current at its start and at its stat. */
  datatype Thread = Thread(
    pc: Pc, from: Pair, saw: Pair, stat: Stat,
    held: Option<Pair>, matched: bool,  // the locals of the fast path
    got: Pair,                             // the versions read by the loader
    path: Path, result: Option<Pair>)

  /** A finished call; `until` names the versions current when it returned. */
  datatype Return = Return(from: Pair, saw: Pair, until: Pair, path: Path, result: Option<Pair>)

  datatype State = State(
    cert: seq<Version>, key: seq<Version>,
    cached: Option<Pair>, certMod: int, keyMod: int,
    writer: Option<int>, readers: set<int>,
    threads: map<int, Thread>, done: seq<Return>)

  datatype Action =
    | Begin(tid: int)
    | Advance(tid: int)
    | WriteCert(v: Version)
    | WriteKey(v: Version)

  function Current(s: State): Pair {
    Pair(|s.cert| - 1, |s.key| - 1)
  }

  predicate InRange(s: State, p: Pair) {
    0 <= p.cert < |s.cert| && 0 <= p.key < |s.key|
  }

  /** The two versions load as a matching pair. */
  predicate Loads(ok: PairTest, s: State, p: Pair) {
    && InRange(s, p) && s.cert[p.cert].Present? && s.key[p.key].Present?
    && ok(s.cert[p.cert].bytes, s.key[p.key].bytes)
  }

  function CacheOf(s: State): Cache<Pair> {
    Cache(s.cached, s.certMod, s.keyMod)
  }

  function Init(cert: Version, key: Version): State {
    State([cert], [key], None, 0, 0, None, {}, map[], [])
  }

  function NewThread(s: State): Thread {
    Thread(StatCert, Current(s), Current(s), StatFailed, None, false, Current(s), Fast, None)
  }

  function Move(s: State, tid: int, th: Thread): State {
    s.(threads := s.threads[tid := th])
  }

  function Finish(s: State, tid: int, th: Thread): State {
    s.(threads := s.threads - {tid}, done := s.done + [Return(th.from, th.saw, Current(s), th.path, th.result)])
  }

  function StepThread(ok: PairTest, s: State, tid: int, th: Thread): State
    requires |s.cert| >= 1 && |s.key| >= 1
  {
    var now := Current(s);
    match th.pc
    case StatCert =>
      (match s.cert[now.cert]
       case Absent => Move(s, tid, th.(pc := TakeRead, stat := StatFailed, saw := th.saw.(cert := now.cert)))
       case Present(m, _) => Move(s, tid, th.(pc := StatKey, stat := Times(m, 0), saw := th.saw.(cert := now.cert))))
    case StatKey =>
      (match s.key[now.key]
       case Absent => Move(s, tid, th.(pc := TakeRead, stat := StatFailed, saw := th.saw.(key := now.key)))
       case Present(m, _) =>
         var certMod := if th.stat.Times? then th.stat.certMod else 0;
         Move(s, tid, th.(pc := TakeRead, stat := Times(certMod, m), saw := th.saw.(key := now.key))))
    case TakeRead =>
      if s.writer.None? then Move(s.(readers := s.readers + {tid}), tid, th.(pc := ReadCached)) else s
    case ReadCached => Move(s, tid, th.(pc := CompareTimes, held := s.cached))
    case CompareTimes =>
      Move(s, tid, th.(pc := ReleaseRead, matched := Unchanged(Cache(th.held, s.certMod, s.keyMod), th.stat)))
    case ReleaseRead =>
      var s1 := s.(readers := s.readers - {tid});
      if th.matched then Finish(s1, tid, th.(path := Fast, result := th.held))
      else Move(s1, tid, th.(pc := TakeWrite))
    case TakeWrite =>
      if s.writer.None? && s.readers == {} then Move(s.(writer := Some(tid)), tid, th.(pc := Recheck)) else s
    case Recheck =>
      if Unchanged(CacheOf(s), th.stat) then Move(s, tid, th.(pc := Leave, path := Rechecked, result := s.cached))
      else Move(s, tid, th.(pc := LoadCert))
    case LoadCert =>
      if s.cert[now.cert].Absent?
      then Move(s, tid, th.(pc := Leave, got := now, path := FellBack, result := s.cached))
      else Move(s, tid, th.(pc := LoadKey, got := now))
    case LoadKey =>
      var got := th.got.(key := now.key);
      if !Loads(ok, s, got)
      then Move(s, tid, th.(pc := Leave, got := got, path := FellBack, result := s.cached))
      else Move(s, tid, th.(pc := StoreCached, got := got))
    case StoreCached =>
      var s1 := s.(cached := Some(th.got));
      if th.stat.Times? then Move(s1, tid, th.(pc := StoreCertMod))
      else Move(s1, tid, th.(pc := Leave, path := Reloaded, result := s1.cached))
    case StoreCertMod =>
      Move(s.(certMod := if th.stat.Times? then th.stat.certMod else s.certMod), tid, th.(pc := StoreKeyMod))
    case StoreKeyMod =>
      Move(s.(keyMod := if th.stat.Times? then th.stat.keyMod else s.keyMod), tid,
           th.(pc := Leave, path := Reloaded, result := s.cached))
    case Leave => Finish(s.(writer := None), tid, th)
  }

  /** A step that is not enabled changes nothing. */
  function Next(ok: PairTest, s: State, a: Action): State
    requires |s.cert| >= 1 && |s.key| >= 1
  {
    match a
    case Begin(tid) => if tid in s.threads then s else Move(s, tid, NewThread(s))
    case Advance(tid) => if tid in s.threads then StepThread(ok, s, tid, s.threads[tid]) else s
    case WriteCert(v) => if DistinctTimes(s.cert + [v]) then s.(cert := s.cert + [v]) else s
    case WriteKey(v) => if DistinctTimes(s.key + [v]) then s.(key := s.key + [v]) else s
  }

  function Run(ok: PairTest, s: State, actions: seq<Action>): (r: State)
    requires |s.cert| >= 1 && |s.key| >= 1
    ensures |r.cert| >= |s.cert| && |r.key| >= |s.key|
    decreases |actions|
  {
    if actions == [] then s else Run(ok, Next(ok, s, actions[0]), actions[1..])
  }

  /** issueUICert's writes: os.WriteFile truncates and then writes, certificate first, then key. */
  function RewriteActions(cert: string, key: string, m: seq<int>): seq<Action>
    requires |m| == 4
  {
    [WriteCert(Present(m[0], "")), WriteCert(Present(m[1], cert)), WriteKey(Present(m[2], "")), WriteKey(Present(m[3], key))]
  }

  // ---------- the invariant ----------

  /** A recorded mtime is that of a version no newer than the one loaded. */
  ghost predicate RecordedBy(timeline: seq<Version>, mod: int, loaded: int) {
    mod == 0 || exists i :: 0 <= i <= loaded && i < |timeline| && timeline[i].Present? && timeline[i].mtime == mod
  }

  ghost predicate SharedOk(ok: PairTest, s: State) {
    && |s.cert| >= 1 && |s.key| >= 1
    && DistinctTimes(s.cert) && DistinctTimes(s.key)
    && (s.cached.None? ==> s.certMod == 0 && s.keyMod == 0)
    && (s.cached.Some? ==>
          && Loads(ok, s, s.cached.value)
          && RecordedBy(s.cert, s.certMod, s.cached.value.cert)
          && RecordedBy(s.key, s.keyMod, s.cached.value.key))
    && (s.writer.Some? ==> s.writer.value in s.threads && s.readers == {})
    && s.readers <= s.threads.Keys
  }

  ghost predicate StatSound(s: State, th: Thread)
    requires InRange(s, th.saw)
  {
    match th.stat
    case StatFailed => s.cert[th.saw.cert].Absent? || s.key[th.saw.key].Absent?
    case Times(c, k) =>
      && s.cert[th.saw.cert].Present? && s.cert[th.saw.cert].mtime == c
      && s.key[th.saw.key].Present? && s.key[th.saw.key].mtime == k
  }

  predicate HoldsRead(pc: Pc) {
    pc.ReadCached? || pc.CompareTimes? || pc.ReleaseRead?
  }

  predicate HoldsWrite(pc: Pc) {
    pc.Recheck? || pc.LoadCert? || pc.LoadKey? || pc.StoreCached? || pc.StoreCertMod? || pc.StoreKeyMod? || pc.Leave?
  }

  ghost predicate ThreadOk(ok: PairTest, s: State, tid: int, th: Thread) {
    && NotNewer(Pair(0, 0), th.from) && NotNewer(th.from, th.saw) && InRange(s, th.saw)
    && (tid in s.readers <==> HoldsRead(th.pc))
    && (s.writer == Some(tid) <==> HoldsWrite(th.pc))
    && (th.pc.StatKey? ==>
          th.stat.Times? && s.cert[th.saw.cert].Present? && s.cert[th.saw.cert].mtime == th.stat.certMod)
    && (!th.pc.StatCert? && !th.pc.StatKey? ==> StatSound(s, th))
    && (th.pc.CompareTimes? ==> th.held == s.cached)
    && (th.pc.ReleaseRead? && th.matched ==>
          s.cached.Some? && th.held == s.cached && NotNewer(th.saw, s.cached.value))
    && (th.pc.LoadKey? ==>
          InRange(s, th.got) && s.cert[th.got.cert].Present? && NotNewer(th.saw, th.got)
          && (s.cached.Some? ==> NotNewer(s.cached.value, th.got)))
    && (th.pc.StoreCached? ==>
          Loads(ok, s, th.got) && NotNewer(th.saw, th.got)
          && (s.cached.Some? ==> NotNewer(s.cached.value, th.got)))
    && (th.pc.StoreCertMod? || th.pc.StoreKeyMod? ==>
          th.stat.Times? && s.cached == Some(th.got) && NotNewer(th.saw, th.got))
    && (th.pc.Leave? ==>
          && th.result == s.cached
          && (th.path.FellBack? ==> NotNewer(th.from, th.got) && InRange(s, th.got) && !Loads(ok, s, th.got))
          && (!th.path.FellBack? ==> s.cached.Some? && NotNewer(th.saw, s.cached.value)))
  }

  /** What every finished call satisfies. */
  ghost predicate ReturnOk(ok: PairTest, s: State, r: Return) {
    && NotNewer(r.from, r.saw) && NotNewer(r.saw, r.until) && InRange(s, r.until)
    && (r.result.Some? ==> Loads(ok, s, r.result.value) && NotNewer(r.result.value, r.until))
    && (r.result.Some? && !r.path.FellBack? ==> NotNewer(r.saw, r.result.value))
    && (r.result.None? ==> r.path.FellBack?)
    && (r.from == r.until && Loads(ok, s, r.from) ==> r.result == Some(r.from))
  }

  ghost predicate LogOk(ok: PairTest, s: State) {
    && (forall i | 0 <= i < |s.done| :: ReturnOk(ok, s, s.done[i]))
    && (forall i | 0 <= i < |s.done| :: s.done[i].result.Some? ==> s.cached.Some?)
    && (forall i, j | 0 <= i < j < |s.done| :: s.done[i].result.Some? ==> s.done[j].result.Some?)
  }

  ghost predicate Inv(ok: PairTest, s: State) {
    && SharedOk(ok, s)
    && (forall t | t in s.threads :: ThreadOk(ok, s, t, s.threads[t]))
    && LogOk(ok, s)
  }

  // ---------- preservation ----------

  /** A thread not stepping keeps its invariant as long as nobody touches the cache while it holds a lock. */
  lemma OtherThreadKeeps(ok: PairTest, s: State, s': State, t: int, th: Thread)
    requires ThreadOk(ok, s, t, th)
    requires s.cert <= s'.cert && s.key <= s'.key
    requires t in s.readers <==> t in s'.readers
    requires s.writer == Some(t) <==> s'.writer == Some(t)
    requires s'.cached == s.cached || (t !in s.readers && s.writer != Some(t))
    ensures ThreadOk(ok, s', t, th)
  {
  }

  lemma LogKeeps(ok: PairTest, s: State, s': State)
    requires LogOk(ok, s)
    requires s.cert <= s'.cert && s.key <= s'.key && s'.done == s.done
    requires s.cached.Some? ==> s'.cached.Some?
    ensures LogOk(ok, s')
  {
    forall i | 0 <= i < |s.done| ensures ReturnOk(ok, s', s.done[i]) {
      assert ReturnOk(ok, s, s.done[i]);
    }
  }

  lemma RecordedStays(timeline: seq<Version>, longer: seq<Version>, mod: int, loaded: int)
    requires timeline <= longer && RecordedBy(timeline, mod, loaded)
    ensures RecordedBy(longer, mod, loaded)
  {
    if mod != 0 {
      var i :| 0 <= i <= loaded && i < |timeline| && timeline[i].Present? && timeline[i].mtime == mod;
      assert longer[i] == timeline[i];
    }
  }

  /** A content change of either file. */
  lemma WriteInv(ok: PairTest, s: State, s': State)
    requires Inv(ok, s)
    requires s' == s.(cert := s'.cert, key := s'.key)
    requires s.cert <= s'.cert && s.key <= s'.key && DistinctTimes(s'.cert) && DistinctTimes(s'.key)
    ensures Inv(ok, s')
  {
    if s.cached.Some? {
      RecordedStays(s.cert, s'.cert, s.certMod, s.cached.value.cert);
      RecordedStays(s.key, s'.key, s.keyMod, s.cached.value.key);
    }
    forall t | t in s'.threads ensures ThreadOk(ok, s', t, s'.threads[t]) {
      OtherThreadKeeps(ok, s, s', t, s.threads[t]);
    }
    LogKeeps(ok, s, s');
  }

  /** Equal recorded and observed mtimes mean the cache is at least as new as what was observed. */
  lemma SameTimeNotNewer(timeline: seq<Version>, mod: int, loaded: int, seen: int)
    requires DistinctTimes(timeline) && RecordedBy(timeline, mod, loaded)
    requires 0 <= seen < |timeline| && timeline[seen].Present? && timeline[seen].mtime == mod
    ensures seen <= loaded
  {
    var i :| 0 <= i <= loaded && i < |timeline| && timeline[i].Present? && timeline[i].mtime == mod;
    assert i == seen;
  }

  lemma UnchangedIsFresh(ok: PairTest, s: State, th: Thread)
    requires SharedOk(ok, s) && InRange(s, th.saw) && StatSound(s, th)
    requires Unchanged(CacheOf(s), th.stat)
    ensures s.cached.Some? && NotNewer(th.saw, s.cached.value)
  {
    SameTimeNotNewer(s.cert, s.certMod, s.cached.value.cert, th.saw.cert);
    SameTimeNotNewer(s.key, s.keyMod, s.cached.value.key, th.saw.key);
  }

  /** Steps that only move the stepping thread and its locks. */
  lemma LocalStepInv(ok: PairTest, s: State, s': State, tid: int)
    requires Inv(ok, s) && tid in s'.threads
    requires s' == s.(threads := s.threads[tid := s'.threads[tid]], readers := s'.readers, writer := s'.writer)
    requires s'.writer.Some? ==> s'.writer.value in s'.threads && s'.readers == {}
    requires s'.readers <= s'.threads.Keys
    requires forall t | t in s.threads && t != tid ::
               (t in s.readers <==> t in s'.readers) && (s.writer == Some(t) <==> s'.writer == Some(t))
    requires ThreadOk(ok, s', tid, s'.threads[tid])
    ensures Inv(ok, s')
  {
    forall t | t in s'.threads ensures ThreadOk(ok, s', t, s'.threads[t]) {
      if t != tid {
        OtherThreadKeeps(ok, s, s', t, s.threads[t]);
      }
    }
    LogKeeps(ok, s, s');
  }

  lemma BeginInv(ok: PairTest, s: State, tid: int)
    requires Inv(ok, s) && tid !in s.threads
    ensures Inv(ok, Move(s, tid, NewThread(s)))
  {
    LocalStepInv(ok, s, Move(s, tid, NewThread(s)), tid);
  }

  lemma StatThreadOk(ok: PairTest, s: State, tid: int)
    requires Inv(ok, s) && tid in s.threads
    requires var pc := s.threads[tid].pc; pc.StatCert? || pc.StatKey?
    ensures var s' := StepThread(ok, s, tid, s.threads[tid]);
            && s' == Move(s, tid, s'.threads[tid])
            && ThreadOk(ok, s', tid, s'.threads[tid])
  {
    assert ThreadOk(ok, s, tid, s.threads[tid]);
  }

  lemma StatInv(ok: PairTest, s: State, tid: int)
    requires Inv(ok, s) && tid in s.threads
    requires var pc := s.threads[tid].pc; pc.StatCert? || pc.StatKey?
    ensures Inv(ok, StepThread(ok, s, tid, s.threads[tid]))
  {
    StatThreadOk(ok, s, tid);
    LocalStepInv(ok, s, StepThread(ok, s, tid, s.threads[tid]), tid);
  }

  lemma ReadInv(ok: PairTest, s: State, tid: int)
    requires Inv(ok, s) && tid in s.threads
    requires var pc := s.threads[tid].pc; pc.TakeRead? || pc.ReadCached?
    ensures Inv(ok, StepThread(ok, s, tid, s.threads[tid]))
  {
    var th := s.threads[tid];
    var s' := StepThread(ok, s, tid, th);
    assert ThreadOk(ok, s, tid, th);
    if s' != s {
      LocalStepInv(ok, s, s', tid);
    }
  }

  lemma CompareInv(ok: PairTest, s: State, tid: int)
    requires Inv(ok, s) && tid in s.threads
    requires var pc := s.threads[tid].pc; pc.CompareTimes? || pc.Recheck?
    ensures Inv(ok, StepThread(ok, s, tid, s.threads[tid]))
  {
    var th := s.threads[tid];
    var s' := StepThread(ok, s, tid, th);
    assert ThreadOk(ok, s, tid, th);
    if s' != s {
      if Unchanged(CacheOf(s), th.stat) {
        UnchangedIsFresh(ok, s, th);
      }
      LocalStepInv(ok, s, s', tid);
    }
  }

  /** The step changes nothing, or leaves the thread alone inside the write lock. */
  ghost predicate Locked(ok: PairTest, s: State, tid: int, s': State) {
    s' == s || (tid in s'.threads && s' == Move(s.(writer := s'.writer), tid, s'.threads[tid])
                && s'.writer == Some(tid) && s'.readers == {} && (s.writer.None? || s.writer == Some(tid))
                && ThreadOk(ok, s', tid, s'.threads[tid]))
  }

  lemma TakeWriteOk(ok: PairTest, s: State, tid: int)
    requires Inv(ok, s) && tid in s.threads && s.threads[tid].pc.TakeWrite?
    ensures Locked(ok, s, tid, StepThread(ok, s, tid, s.threads[tid]))
  {
    assert ThreadOk(ok, s, tid, s.threads[tid]);
  }

  lemma LoadCertOk(ok: PairTest, s: State, tid: int)
    requires Inv(ok, s) && tid in s.threads && s.threads[tid].pc.LoadCert?
    ensures Locked(ok, s, tid, StepThread(ok, s, tid, s.threads[tid]))
  {
    assert ThreadOk(ok, s, tid, s.threads[tid]);
  }

  lemma LockInv(ok: PairTest, s: State, tid: int)
    requires Inv(ok, s) && tid in s.threads
    requires var pc := s.threads[tid].pc; pc.TakeWrite? || pc.LoadCert?
    ensures Inv(ok, StepThread(ok, s, tid, s.threads[tid]))
  {
    if s.threads[tid].pc.TakeWrite? {
      TakeWriteOk(ok, s, tid);
    } else {
      LoadCertOk(ok, s, tid);
    }
    var s' := StepThread(ok, s, tid, s.threads[tid]);
    if s' != s {
      LocalStepInv(ok, s, s', tid);
    }
  }

  lemma LoadKeyThreadOk(ok: PairTest, s: State, tid: int)
    requires Inv(ok, s) && tid in s.threads && s.threads[tid].pc.LoadKey?
    ensures var s' := StepThread(ok, s, tid, s.threads[tid]);
            s' == Move(s, tid, s'.threads[tid]) && ThreadOk(ok, s', tid, s'.threads[tid])
  {
    assert ThreadOk(ok, s, tid, s.threads[tid]);
  }

  lemma LoadKeyInv(ok: PairTest, s: State, tid: int)
    requires Inv(ok, s) && tid in s.threads && s.threads[tid].pc.LoadKey?
    ensures Inv(ok, StepThread(ok, s, tid, s.threads[tid]))
  {
    LoadKeyThreadOk(ok, s, tid);
    LocalStepInv(ok, s, StepThread(ok, s, tid, s.threads[tid]), tid);
  }

  lemma StoreShared(ok: PairTest, s: State, tid: int)
    requires Inv(ok, s) && tid in s.threads
    requires var pc := s.threads[tid].pc; pc.StoreCached? || pc.StoreCertMod? || pc.StoreKeyMod?
    ensures SharedOk(ok, StepThread(ok, s, tid, s.threads[tid]))
  {
    var th := s.threads[tid];
    assert ThreadOk(ok, s, tid, th);
    if th.pc.StoreCached? && s.cached.Some? {
      RecordedLater(s.cert, s.certMod, s.cached.value.cert, th.got.cert);
      RecordedLater(s.key, s.keyMod, s.cached.value.key, th.got.key);
    }
  }

  lemma StoreThreadOk(ok: PairTest, s: State, tid: int)
    requires Inv(ok, s) && tid in s.threads
    requires var pc := s.threads[tid].pc; pc.StoreCached? || pc.StoreCertMod? || pc.StoreKeyMod?
    ensures var s' := StepThread(ok, s, tid, s.threads[tid]);
            && s' == s.(cached := s'.cached, certMod := s'.certMod, keyMod := s'.keyMod,
                        threads := s.threads[tid := s'.threads[tid]])
            && ThreadOk(ok, s', tid, s'.threads[tid])
            && (s.cached.Some? ==> s'.cached.Some?)
            && s.writer == Some(tid)
  {
    assert ThreadOk(ok, s, tid, s.threads[tid]);
  }

  lemma StoreInv(ok: PairTest, s: State, tid: int)
    requires Inv(ok, s) && tid in s.threads
    requires var pc := s.threads[tid].pc; pc.StoreCached? || pc.StoreCertMod? || pc.StoreKeyMod?
    ensures Inv(ok, StepThread(ok, s, tid, s.threads[tid]))
  {
    var s' := StepThread(ok, s, tid, s.threads[tid]);
    StoreShared(ok, s, tid);
    StoreThreadOk(ok, s, tid);
    forall t | t in s'.threads ensures ThreadOk(ok, s', t, s'.threads[t]) {
      if t != tid {
        OtherThreadKeeps(ok, s, s', t, s.threads[t]);
      }
    }
    LogKeeps(ok, s, s');
  }

  lemma RecordedLater(timeline: seq<Version>, mod: int, loaded: int, later: int)
    requires RecordedBy(timeline, mod, loaded) && loaded <= later
    ensures RecordedBy(timeline, mod, later)
  {
  }

  /** A call returns: from the fast path, or from under the write lock. */
  lemma ReturnInv(ok: PairTest, s: State, tid: int)
    requires Inv(ok, s) && tid in s.threads
    requires var th := s.threads[tid]; th.pc.ReleaseRead? || th.pc.Leave?
    ensures Inv(ok, StepThread(ok, s, tid, s.threads[tid]))
  {
    var th := s.threads[tid];
    if th.pc.ReleaseRead? && !th.matched {
      assert ThreadOk(ok, s, tid, th);
      LocalStepInv(ok, s, StepThread(ok, s, tid, th), tid);
    } else {
      FinishInv(ok, s, tid);
    }
  }

  lemma FinishReturnOk(ok: PairTest, s: State, tid: int)
    requires Inv(ok, s) && tid in s.threads
    requires var th := s.threads[tid]; (th.pc.ReleaseRead? && th.matched) || th.pc.Leave?
    ensures var s' := StepThread(ok, s, tid, s.threads[tid]);
            |s'.done| == |s.done| + 1 && ReturnOk(ok, s', s'.done[|s.done|])
  {
    assert ThreadOk(ok, s, tid, s.threads[tid]);
  }

  lemma FinishThreads(ok: PairTest, s: State, tid: int)
    requires Inv(ok, s) && tid in s.threads
    requires var th := s.threads[tid]; (th.pc.ReleaseRead? && th.matched) || th.pc.Leave?
    ensures var s' := StepThread(ok, s, tid, s.threads[tid]);
            SharedOk(ok, s') && forall t | t in s'.threads :: ThreadOk(ok, s', t, s'.threads[t])
  {
    var s' := StepThread(ok, s, tid, s.threads[tid]);
    assert ThreadOk(ok, s, tid, s.threads[tid]);
    forall t | t in s'.threads ensures ThreadOk(ok, s', t, s'.threads[t]) {
      OtherThreadKeeps(ok, s, s', t, s.threads[t]);
    }
  }

  lemma FinishInv(ok: PairTest, s: State, tid: int)
    requires Inv(ok, s) && tid in s.threads
    requires var th := s.threads[tid]; (th.pc.ReleaseRead? && th.matched) || th.pc.Leave?
    ensures Inv(ok, StepThread(ok, s, tid, s.threads[tid]))
  {
    var s' := StepThread(ok, s, tid, s.threads[tid]);
    FinishThreads(ok, s, tid);
    FinishReturnOk(ok, s, tid);
    LogKeeps(ok, s, s'.(done := s.done));
    forall i | 0 <= i < |s'.done| ensures ReturnOk(ok, s', s'.done[i]) {
      if i < |s.done| {
        assert ReturnOk(ok, s, s.done[i]);
      }
    }
  }

  lemma NextInv(ok: PairTest, s: State, a: Action)
    requires Inv(ok, s)
    ensures Inv(ok, Next(ok, s, a))
  {
    match a
    case Begin(tid) => if tid !in s.threads { BeginInv(ok, s, tid); }
    case Advance(tid) =>
      if tid in s.threads {
        var pc := s.threads[tid].pc;
        if pc.StatCert? || pc.StatKey? {
          StatInv(ok, s, tid);
        } else if pc.TakeRead? || pc.ReadCached? {
          ReadInv(ok, s, tid);
        } else if pc.CompareTimes? || pc.Recheck? {
          CompareInv(ok, s, tid);
        } else if pc.TakeWrite? || pc.LoadCert? {
          LockInv(ok, s, tid);
        } else if pc.LoadKey? {
          LoadKeyInv(ok, s, tid);
        } else if pc.StoreCached? || pc.StoreCertMod? || pc.StoreKeyMod? {
          StoreInv(ok, s, tid);
        } else {
          ReturnInv(ok, s, tid);
        }
      }
    case WriteCert(v) => if DistinctTimes(s.cert + [v]) { WriteInv(ok, s, s.(cert := s.cert + [v])); }
    case WriteKey(v) => if DistinctTimes(s.key + [v]) { WriteInv(ok, s, s.(key := s.key + [v])); }
  }

  // ---------- main results, over every run ----------

  lemma InitInv(ok: PairTest, cert: Version, key: Version)
    requires DistinctTimes([cert]) && DistinctTimes([key])
    ensures Inv(ok, Init(cert, key))
  {
  }

  lemma {:induction false} RunInv(ok: PairTest, s: State, actions: seq<Action>)
    requires Inv(ok, s)
    ensures Inv(ok, Run(ok, s, actions))
    decreases |actions|
  {
    if actions != [] {
      NextInv(ok, s, actions[0]);
      RunInv(ok, Next(ok, s, actions[0]), actions[1..]);
    }
  }

  /** The versions served never go backwards: every step keeps them or moves both forward. */
  lemma StepNeverBack(ok: PairTest, s: State, a: Action)
    requires Inv(ok, s) && s.cached.Some?
    ensures Next(ok, s, a).cached.Some? && NotNewer(s.cached.value, Next(ok, s, a).cached.value)
  {
    if a.Advance? && a.tid in s.threads {
      assert ThreadOk(ok, s, a.tid, s.threads[a.tid]);
    }
  }

  lemma {:induction false} CacheNeverBack(ok: PairTest, s: State, actions: seq<Action>)
    requires Inv(ok, s) && s.cached.Some?
    ensures Run(ok, s, actions).cached.Some? && NotNewer(s.cached.value, Run(ok, s, actions).cached.value)
    decreases |actions|
  {
    if actions != [] {
      NextInv(ok, s, actions[0]);
      StepNeverBack(ok, s, actions[0]);
      CacheNeverBack(ok, Next(ok, s, actions[0]), actions[1..]);
    }
  }

  /** The recorded mtimes are never newer than the loaded contents, in every reachable state. */
  lemma RecordedNeverNewer(ok: PairTest, cert: Version, key: Version, actions: seq<Action>)
    requires DistinctTimes([cert]) && DistinctTimes([key])
    ensures var s := Run(ok, Init(cert, key), actions);
            s.cached.Some? ==>
              && Loads(ok, s, s.cached.value)
              && RecordedBy(s.cert, s.certMod, s.cached.value.cert)
              && RecordedBy(s.key, s.keyMod, s.cached.value.key)
  {
    InitInv(ok, cert, key);
    RunInv(ok, Init(cert, key), actions);
  }

  /**
    Every finished call of every run: a served pair matched when it was loaded;
    unless it fell back, it is at least as new as the call's own stat; an error
    means nothing had ever been loaded; and when the files did not change during
    the call and load as a pair, exactly that pair was returned.
   */
  lemma EveryReturn(ok: PairTest, cert: Version, key: Version, actions: seq<Action>, i: int)
    requires DistinctTimes([cert]) && DistinctTimes([key])
    requires 0 <= i < |Run(ok, Init(cert, key), actions).done|
    ensures var s := Run(ok, Init(cert, key), actions);
            var r := s.done[i];
            && (r.result.Some? ==> Loads(ok, s, r.result.value))
            && (r.result.Some? && !r.path.FellBack? ==> NotNewer(r.saw, r.result.value))
            && (r.from == r.until && Loads(ok, s, r.from) ==> r.result == Some(r.from))
            && (r.result.None? ==> forall j | 0 <= j < i :: s.done[j].result.None?)
  {
    InitInv(ok, cert, key);
    RunInv(ok, Init(cert, key), actions);
    assert ReturnOk(ok, Run(ok, Init(cert, key), actions), Run(ok, Init(cert, key), actions).done[i]);
  }

  /** After one success no call errs. */
  lemma NoErrorAfterSuccess(ok: PairTest, cert: Version, key: Version, actions: seq<Action>, i: int, j: int)
    requires DistinctTimes([cert]) && DistinctTimes([key])
    requires 0 <= i < j < |Run(ok, Init(cert, key), actions).done|
    requires Run(ok, Init(cert, key), actions).done[i].result.Some?
    ensures Run(ok, Init(cert, key), actions).done[j].result.Some?
  {
    EveryReturn(ok, cert, key, actions, j);
  }

  // ---------- a renewal is picked up ----------

  predicate NoWrites(actions: seq<Action>) {
    forall i | 0 <= i < |actions| :: actions[i].Begin? || actions[i].Advance?
  }

  lemma {:induction false} FilesUntouched(ok: PairTest, s: State, actions: seq<Action>)
    requires |s.cert| >= 1 && |s.key| >= 1 && NoWrites(actions)
    ensures Run(ok, s, actions).cert == s.cert && Run(ok, s, actions).key == s.key
    decreases |actions|
  {
    if actions != [] {
      FilesUntouched(ok, Next(ok, s, actions[0]), actions[1..]);
    }
  }

  /** Calls that begin after the last write of a loadable pair are served exactly that pair. */
  lemma SettledPairServed(ok: PairTest, s: State, calls: seq<Action>, i: int)
    requires Inv(ok, s) && NoWrites(calls) && Loads(ok, s, Current(s))
    requires 0 <= i < |Run(ok, s, calls).done| && Run(ok, s, calls).done[i].from == Current(s)
    ensures Run(ok, s, calls).done[i].result == Some(Current(s))
  {
    RunInv(ok, s, calls);
    FilesUntouched(ok, s, calls);
    var after := Run(ok, s, calls);
    assert ReturnOk(ok, after, after.done[i]);
  }

  function WritesOf(actions: seq<Action>): seq<Action> {
    if actions == [] then []
    else (if actions[0].WriteCert? || actions[0].WriteKey? then [actions[0]] else []) + WritesOf(actions[1..])
  }

  lemma StepFiles(ok: PairTest, s: State, t: State, a: Action)
    requires |s.cert| >= 1 && |s.key| >= 1 && s.cert == t.cert && s.key == t.key
    ensures var s', t' := Next(ok, s, a), if a.WriteCert? || a.WriteKey? then Next(ok, t, a) else t;
            s'.cert == t'.cert && s'.key == t'.key && |s'.cert| >= 1 && |s'.key| >= 1
  {
  }

  /** What becomes of the files depends on the writes alone. */
  lemma {:induction false} FilesFollowWrites(ok: PairTest, s: State, t: State, actions: seq<Action>)
    requires |s.cert| >= 1 && |s.key| >= 1 && s.cert == t.cert && s.key == t.key
    ensures Run(ok, s, actions).cert == Run(ok, t, WritesOf(actions)).cert
    ensures Run(ok, s, actions).key == Run(ok, t, WritesOf(actions)).key
    decreases |actions|
  {
    if actions != [] {
      var a, rest := actions[0], WritesOf(actions[1..]);
      var s' := Next(ok, s, a);
      StepFiles(ok, s, t, a);
      if a.WriteCert? || a.WriteKey? {
        assert ([a] + rest)[1..] == rest;
        FilesFollowWrites(ok, s', Next(ok, t, a), actions[1..]);
      } else {
        assert [] + rest == rest;
        FilesFollowWrites(ok, s', t, actions[1..]);
      }
    }
  }

  /**
    A renewal as issueUICert writes it, each write with an mtime of its own, and
    any steps of any calls in between and after: every call that begins after
    the last write is served exactly the new pair, whatever was cached.
   */
  lemma RenewalPickedUp(ok: PairTest, s: State, cert: string, key: string, m: seq<int>,
                        actions: seq<Action>, calls: seq<Action>, i: int)
    requires Inv(ok, s) && |m| == 4 && ok(cert, key)
    requires WritesOf(actions) == RewriteActions(cert, key, m) && NoWrites(calls)
    requires DistinctTimes(s.cert + [Present(m[0], ""), Present(m[1], cert)])
    requires DistinctTimes(s.key + [Present(m[2], ""), Present(m[3], key)])
    requires var after := Run(ok, Run(ok, s, actions), calls);
             0 <= i < |after.done| && after.done[i].from == Pair(|s.cert| + 1, |s.key| + 1)
    ensures var after := Run(ok, Run(ok, s, actions), calls);
            && after.done[i].result == Some(Pair(|s.cert| + 1, |s.key| + 1))
            && after.cert == s.cert + [Present(m[0], ""), Present(m[1], cert)]
            && after.key == s.key + [Present(m[2], ""), Present(m[3], key)]
  {
    var s1 := Run(ok, s, actions);
    var s2 := Rewritten(ok, s, cert, key, m);
    FilesFollowWrites(ok, s, s, actions);
    RunInv(ok, s, actions);
    FilesUntouched(ok, s1, calls);
    SettledPairServed(ok, s1, calls, i);
  }

  lemma Rewritten(ok: PairTest, s: State, cert: string, key: string, m: seq<int>) returns (s1: State)
    requires |s.cert| >= 1 && |s.key| >= 1 && |m| == 4
    requires DistinctTimes(s.cert + [Present(m[0], ""), Present(m[1], cert)])
    requires DistinctTimes(s.key + [Present(m[2], ""), Present(m[3], key)])
    ensures s1 == Run(ok, s, RewriteActions(cert, key, m))
    ensures s1.cert == s.cert + [Present(m[0], ""), Present(m[1], cert)]
    ensures s1.key == s.key + [Present(m[2], ""), Present(m[3], key)]
  {
    var a := RewriteActions(cert, key, m);
    var t1 := s.(cert := s.cert + [Present(m[0], "")]);
    var t2 := t1.(cert := t1.cert + [Present(m[1], cert)]);
    var t3 := t2.(key := t2.key + [Present(m[2], "")]);
    s1 := t3.(key := t3.key + [Present(m[3], key)]);
    assert t2.cert == s.cert + [Present(m[0], ""), Present(m[1], cert)];
    assert s1.key == s.key + [Present(m[2], ""), Present(m[3], key)];
    DistinctPrefix(t1.cert, t2.cert);
    DistinctPrefix(t3.key, s1.key);
    assert Next(ok, s, a[0]) == t1 && Next(ok, t1, a[1]) == t2 && Next(ok, t2, a[2]) == t3 && Next(ok, t3, a[3]) == s1;
    assert a[1..][1..] == a[2..] && a[2..][1..] == a[3..] && a[3..][1..] == [];
    assert Run(ok, s, a) == Run(ok, t1, a[1..]) == Run(ok, t2, a[2..]) == Run(ok, t3, a[3..]) == Run(ok, s1, []);
  }

  lemma DistinctPrefix(shorter: seq<Version>, longer: seq<Version>)
    requires shorter <= longer && DistinctTimes(longer)
    ensures DistinctTimes(shorter)
  {
    assert forall i | 0 <= i < |shorter| :: shorter[i] == longer[i];
  }

  // ---------- one call alone is the sequential method ----------

  function StatOf(s: State): Stat
    requires |s.cert| >= 1 && |s.key| >= 1
  {
    var now := Current(s);
    if s.cert[now.cert].Present? && s.key[now.key].Present?
    then Times(s.cert[now.cert].mtime, s.key[now.key].mtime) else StatFailed
  }

  function LoadOf(ok: PairTest, s: State): Option<Pair> {
    if Loads(ok, s, Current(s)) then Some(Current(s)) else None
  }

  function Advances(ok: PairTest, s: State, tid: int, n: nat): (r: State)
    requires |s.cert| >= 1 && |s.key| >= 1
    ensures |r.cert| >= 1 && |r.key| >= 1
    decreases n
  {
    if n == 0 then s else Advances(ok, Next(ok, s, Advance(tid)), tid, n - 1)
  }

  ghost predicate Idle(s: State, tid: int) {
    |s.cert| >= 1 && |s.key| >= 1 && s.writer.None? && s.readers == {} && tid !in s.threads
  }

  lemma {:induction false} FinishedStays(ok: PairTest, s: State, tid: int, n: nat)
    requires |s.cert| >= 1 && |s.key| >= 1 && tid !in s.threads
    ensures Advances(ok, s, tid, n) == s
  {
    if n > 0 {
      FinishedStays(ok, s, tid, n - 1);
    }
  }

  /** The stat, ending before the read lock. */
  lemma SoloStat(ok: PairTest, s: State, tid: int, n: nat) returns (th: Thread, k: nat)
    requires Idle(s, tid) && n >= 2
    ensures 1 <= k <= 2 && th.pc == TakeRead && th.stat == StatOf(s) && th.from == th.saw == Current(s)
    ensures Advances(ok, Move(s, tid, NewThread(s)), tid, n) == Advances(ok, Move(s, tid, th), tid, n - k)
  {
    var s1 := Next(ok, Move(s, tid, NewThread(s)), Advance(tid));
    th, k := s1.threads[tid], 1;
    assert s1 == Move(s, tid, th);
    if th.pc == StatKey {
      var s2 := Next(ok, s1, Advance(tid));
      th, k := s2.threads[tid], 2;
      assert s2 == Move(s, tid, th);
    }
  }

  /** The read-locked part: done on a hit, otherwise before the write lock. */
  lemma SoloRead(ok: PairTest, s: State, tid: int, th: Thread, n: nat) returns (th': Thread)
    requires Idle(s, tid) && th.pc == TakeRead && n >= 4
    ensures th' == th.(pc := TakeWrite, held := s.cached, matched := false)
    ensures Advances(ok, Move(s, tid, th), tid, n)
            == if Unchanged(CacheOf(s), th.stat)
               then s.(done := s.done + [Return(th.from, th.saw, Current(s), Fast, s.cached)])
               else Advances(ok, Move(s, tid, th'), tid, n - 4)
  {
    th' := th.(pc := TakeWrite, held := s.cached, matched := false);
    var s1 := Next(ok, Move(s, tid, th), Advance(tid));
    var s2 := Next(ok, s1, Advance(tid));
    var s3 := Next(ok, s2, Advance(tid));
    var s4 := Next(ok, s3, Advance(tid));
    assert s3.readers - {tid} == s.readers;
    assert Advances(ok, s1, tid, n - 1) == Advances(ok, s2, tid, n - 2) == Advances(ok, s3, tid, n - 3) == Advances(ok, s4, tid, n - 4);
    if Unchanged(CacheOf(s), th.stat) {
      assert s4.threads == s.threads;
      FinishedStays(ok, s4, tid, n - 4);
    } else {
      assert s4 == Move(s, tid, th');
    }
  }

  lemma ThreeAdvances(ok: PairTest, s: State, tid: int, n: nat)
    requires |s.cert| >= 1 && |s.key| >= 1 && n >= 3
    ensures var t1 := Next(ok, s, Advance(tid));
            var t2 := Next(ok, t1, Advance(tid));
            Advances(ok, s, tid, n) == Advances(ok, Next(ok, t2, Advance(tid)), tid, n - 3)
  {
    var t1 := Next(ok, s, Advance(tid));
    var t2 := Next(ok, t1, Advance(tid));
    assert Advances(ok, s, tid, n) == Advances(ok, t1, tid, n - 1);
    assert Advances(ok, t1, tid, n - 1) == Advances(ok, t2, tid, n - 2);
  }

  lemma SoloReadCert(ok: PairTest, s: State, tid: int, th: Thread, n: nat) returns (t: State)
    requires Idle(s, tid) && th.pc == TakeWrite && n >= 3 && !Unchanged(CacheOf(s), th.stat)
    ensures t == Move(s.(writer := Some(tid)), tid,
                      if s.cert[|s.cert| - 1].Absent?
                      then th.(pc := Leave, got := Current(s), path := FellBack, result := s.cached)
                      else th.(pc := LoadKey, got := Current(s)))
    ensures Advances(ok, Move(s, tid, th), tid, n) == Advances(ok, t, tid, n - 3)
  {
    var t1 := Next(ok, Move(s, tid, th), Advance(tid));
    var t2 := Next(ok, t1, Advance(tid));
    t := Next(ok, t2, Advance(tid));
    ThreeAdvances(ok, Move(s, tid, th), tid, n);
  }

  /** The write-locked part: the cache and the answer are those of the sequential method. */
  ghost predicate WritesAsSpecified(ok: PairTest, s: State, tid: int, th: Thread, after: State)
    requires |s.cert| >= 1 && |s.key| >= 1
  {
    var answer := GetCertificateSpec(CacheOf(s), th.stat, LoadOf(ok, s));
    && CacheOf(after) == answer.0
    && |after.done| == |s.done| + 1 && after.done[|s.done|].result == answer.1
    && Idle(after, tid)
  }

  lemma SoloWriteNoCert(ok: PairTest, s: State, tid: int, th: Thread, n: nat)
    requires Idle(s, tid) && th.pc == TakeWrite && n >= 8 && !Unchanged(CacheOf(s), th.stat)
    requires s.cert[|s.cert| - 1].Absent?
    ensures WritesAsSpecified(ok, s, tid, th, Advances(ok, Move(s, tid, th), tid, n))
  {
    var t3 := SoloReadCert(ok, s, tid, th, n);
    SoloFinish(ok, t3, tid, n - 3);
  }

  lemma SoloWrite(ok: PairTest, s: State, tid: int, th: Thread, n: nat)
    requires Idle(s, tid) && th.pc == TakeWrite && n >= 8 && !Unchanged(CacheOf(s), th.stat)
    ensures WritesAsSpecified(ok, s, tid, th, Advances(ok, Move(s, tid, th), tid, n))
  {
    if s.cert[|s.cert| - 1].Absent? {
      SoloWriteNoCert(ok, s, tid, th, n);
    } else {
      var t3 := SoloReadCert(ok, s, tid, th, n);
      SoloWriteKey(ok, s, tid, th, t3, n - 3);
    }
  }

  /** From reading the key on. */
  lemma SoloWriteKey(ok: PairTest, s: State, tid: int, th: Thread, t3: State, n: nat)
    requires Idle(s, tid) && n >= 5 && !Unchanged(CacheOf(s), th.stat) && !s.cert[|s.cert| - 1].Absent?
    requires t3 == Move(s.(writer := Some(tid)), tid, th.(pc := LoadKey, got := Current(s)))
    ensures WritesAsSpecified(ok, s, tid, th, Advances(ok, t3, tid, n))
  {
    var t4 := Next(ok, t3, Advance(tid));
    assert t4.cert == s.cert && t4.key == s.key && CacheOf(t4) == CacheOf(s);
    SoloFinish(ok, t4, tid, n - 1);
  }

  /** From after the loader ran to the unlock. */
  lemma SoloFinish(ok: PairTest, s: State, tid: int, n: nat)
    requires |s.cert| >= 1 && |s.key| >= 1 && tid in s.threads && n >= 4
    requires var th := s.threads[tid]; th.pc == StoreCached || th.pc == Leave
    ensures var th := s.threads[tid];
            var after := Advances(ok, s, tid, n);
            && after.writer.None? && after.readers == s.readers && after.cert == s.cert && after.key == s.key
            && tid !in after.threads && |after.done| == |s.done| + 1
            && if th.pc == Leave then CacheOf(after) == CacheOf(s) && after.done[|s.done|].result == th.result
               else CacheOf(after) == (if th.stat.Times? then Cache(Some(th.got), th.stat.certMod, th.stat.keyMod)
                                       else CacheOf(s).(cached := Some(th.got)))
                    && after.done[|s.done|].result == Some(th.got)
  {
    var t1 := Next(ok, s, Advance(tid));
    if tid !in t1.threads {
      FinishedStays(ok, t1, tid, n - 1);
    } else {
      var t2 := Next(ok, t1, Advance(tid));
      assert Advances(ok, t1, tid, n - 1) == Advances(ok, t2, tid, n - 2);
      if tid !in t2.threads {
        FinishedStays(ok, t2, tid, n - 2);
      } else {
        var t3 := Next(ok, t2, Advance(tid));
        var t4 := Next(ok, t3, Advance(tid));
        assert Advances(ok, t2, tid, n - 2) == Advances(ok, t3, tid, n - 3) == Advances(ok, t4, tid, n - 4);
        FinishedStays(ok, t4, tid, n - 4);
      }
    }
  }

  /** A call that nobody interrupts does what the sequential method does. */
  lemma SoloCall(ok: PairTest, s: State, tid: int, n: nat)
    requires Idle(s, tid) && n >= 14
    ensures var after := Advances(ok, Move(s, tid, NewThread(s)), tid, n);
            var answer := GetCertificateSpec(CacheOf(s), StatOf(s), LoadOf(ok, s));
            && CacheOf(after) == answer.0
            && |after.done| == |s.done| + 1 && after.done[|s.done|].result == answer.1
            && Idle(after, tid)
  {
    var th, k := SoloStat(ok, s, tid, n);
    var th' := SoloRead(ok, s, tid, th, n - k);
    if !Unchanged(CacheOf(s), th.stat) {
      SoloWrite(ok, s, tid, th', n - 4 - k);
    }
  }

  lemma SoloHit(ok: PairTest, s: State, tid: int, n: nat)
    requires Idle(s, tid) && Unchanged(CacheOf(s), StatOf(s)) && n >= 14
    ensures Advances(ok, Move(s, tid, NewThread(s)), tid, n).done
            == s.done + [Return(Current(s), Current(s), Current(s), Fast, s.cached)]
  {
    var th, k := SoloStat(ok, s, tid, n);
    var th' := SoloRead(ok, s, tid, th, n - k);
  }

  /**
    When an undisturbed call on a loadable pair misses it: exactly when the mtimes
    are those recorded and yet another pair is cached. Mtimes that never repeat
    rule that out.
   */
  lemma StaleExactly(ok: PairTest, s: State, tid: int, n: nat)
    requires n >= 14 && Idle(s, tid) && Loads(ok, s, Current(s))
    ensures var after := Advances(ok, Move(s, tid, NewThread(s)), tid, n);
            && |after.done| == |s.done| + 1
            && (after.done[|s.done|].result != Some(Current(s)) <==>
                  Unchanged(CacheOf(s), StatOf(s)) && s.cached != Some(Current(s)))
  {
    SoloCall(ok, s, tid, n);
  }

  // ---------- the same machine on a file system that repeats mtimes ----------

  /** Next without the assumption on the mtimes of writes. */
  function NextAnyTimes(ok: PairTest, s: State, a: Action): State
    requires |s.cert| >= 1 && |s.key| >= 1
  {
    match a
    case WriteCert(v) => s.(cert := s.cert + [v])
    case WriteKey(v) => s.(key := s.key + [v])
    case _ => Next(ok, s, a)
  }

  function RunAnyTimes(ok: PairTest, s: State, actions: seq<Action>): (r: State)
    requires |s.cert| >= 1 && |s.key| >= 1
    ensures |r.cert| >= |s.cert| && |r.key| >= |s.key|
    decreases |actions|
  {
    if actions == [] then s else RunAnyTimes(ok, NextAnyTimes(ok, s, actions[0]), actions[1..])
  }

  /** One call, started and then advanced to its end. */
  function CallActions(tid: int, n: nat): seq<Action> {
    [Begin(tid)] + AdvanceActions(tid, n)
  }

  function AdvanceActions(tid: int, n: nat): seq<Action> {
    if n == 0 then [] else [Advance(tid)] + AdvanceActions(tid, n - 1)
  }

  lemma {:induction false} RunConcat(ok: PairTest, s: State, a: seq<Action>, b: seq<Action>)
    requires |s.cert| >= 1 && |s.key| >= 1
    ensures RunAnyTimes(ok, s, a + b) == RunAnyTimes(ok, RunAnyTimes(ok, s, a), b)
    decreases |a|
  {
    if a == [] {
      assert a + b == b;
    } else {
      assert (a + b)[1..] == a[1..] + b;
      RunConcat(ok, NextAnyTimes(ok, s, a[0]), a[1..], b);
    }
  }

  lemma {:induction false} AdvancesAreRun(ok: PairTest, s: State, tid: int, n: nat)
    requires |s.cert| >= 1 && |s.key| >= 1
    ensures RunAnyTimes(ok, s, AdvanceActions(tid, n)) == Advances(ok, s, tid, n)
    decreases n
  {
    if n > 0 {
      var actions := AdvanceActions(tid, n);
      assert actions[0] == Advance(tid) && actions[1..] == AdvanceActions(tid, n - 1);
      AdvancesAreRun(ok, Next(ok, s, Advance(tid)), tid, n - 1);
    }
  }

  lemma CallIsRun(ok: PairTest, s: State, tid: int, n: nat)
    requires Idle(s, tid)
    ensures RunAnyTimes(ok, s, CallActions(tid, n)) == Advances(ok, Move(s, tid, NewThread(s)), tid, n)
  {
    var actions := CallActions(tid, n);
    assert actions[0] == Begin(tid) && actions[1..] == AdvanceActions(tid, n);
    AdvancesAreRun(ok, Move(s, tid, NewThread(s)), tid, n);
  }

  lemma {:induction false} AdvancesKeepFiles(ok: PairTest, s: State, tid: int, n: nat)
    requires |s.cert| >= 1 && |s.key| >= 1
    ensures Advances(ok, s, tid, n).cert == s.cert && Advances(ok, s, tid, n).key == s.key
    decreases n
  {
    if n > 0 {
      AdvancesKeepFiles(ok, Next(ok, s, Advance(tid)), tid, n - 1);
    }
  }

  lemma RewriteAnyTimes(ok: PairTest, s: State, cert: string, key: string, m: seq<int>)
    requires |s.cert| >= 1 && |s.key| >= 1 && |m| == 4
    ensures RunAnyTimes(ok, s, RewriteActions(cert, key, m))
            == s.(cert := s.cert + [Present(m[0], ""), Present(m[1], cert)],
                  key := s.key + [Present(m[2], ""), Present(m[3], key)])
  {
    var a := RewriteActions(cert, key, m);
    var t1 := s.(cert := s.cert + [Present(m[0], "")]);
    var t2 := t1.(cert := t1.cert + [Present(m[1], cert)]);
    var t3 := t2.(key := t2.key + [Present(m[2], "")]);
    var t4 := t3.(key := t3.key + [Present(m[3], key)]);
    assert t2.cert == s.cert + [Present(m[0], ""), Present(m[1], cert)];
    assert t4.key == s.key + [Present(m[2], ""), Present(m[3], key)];
    assert a[1..][1..] == a[2..] && a[2..][1..] == a[3..] && a[3..][1..] == [];
    assert RunAnyTimes(ok, s, a) == RunAnyTimes(ok, t1, a[1..]) == RunAnyTimes(ok, t2, a[2..])
        == RunAnyTimes(ok, t3, a[3..]) == RunAnyTimes(ok, t4, []);
  }

  /** The first call of a run loads the pair it finds. */
  lemma FirstCallLoads(ok: PairTest, cert: Version, key: Version, tid: int, n: nat) returns (s: State)
    requires n >= 14 && cert.Present? && key.Present? && ok(cert.bytes, key.bytes)
    ensures s == RunAnyTimes(ok, Init(cert, key), CallActions(tid, n))
    ensures Idle(s, tid) && s.cert == [cert] && s.key == [key]
    ensures CacheOf(s) == Cache(Some(Pair(0, 0)), cert.mtime, key.mtime)
  {
    var init := Init(cert, key);
    SoloCall(ok, init, tid, n);
    CallIsRun(ok, init, tid, n);
    AdvancesKeepFiles(ok, Move(init, tid, NewThread(init)), tid, n);
    s := RunAnyTimes(ok, init, CallActions(tid, n));
  }

  /**
    Why the assumption on mtimes is needed: a run in which a first call loads a
    pair, a renewal then rewrites both files within one tick of the file system's
    clock, and the next call, undisturbed, is answered with the old pair although
    the new one is in place and loads.
   */
  lemma MtimesMustDiffer(ok: PairTest, tid: int, m: int, n: nat)
    requires n >= 14 && ok("cert0", "key0") && ok("cert1", "key1")
    ensures var actions := CallActions(tid, n) + RewriteActions("cert1", "key1", [m, m, m, m]) + CallActions(tid, n);
            var s := RunAnyTimes(ok, Init(Present(m, "cert0"), Present(m, "key0")), actions);
            && Current(s) == Pair(2, 2) && Loads(ok, s, Current(s))
            && |s.done| >= 1
            && s.done[|s.done| - 1] == Return(Current(s), Current(s), Current(s), Fast, Some(Pair(0, 0)))
  {
    var init := Init(Present(m, "cert0"), Present(m, "key0"));
    var first, writes := CallActions(tid, n), RewriteActions("cert1", "key1", [m, m, m, m]);
    var s := FirstCallLoads(ok, Present(m, "cert0"), Present(m, "key0"), tid, n);
    RewriteAnyTimes(ok, s, "cert1", "key1", [m, m, m, m]);
    var s' := RunAnyTimes(ok, s, writes);
    RunConcat(ok, init, first, writes);
    RunConcat(ok, init, first + writes, first);
    assert Idle(s', tid) && Current(s') == Pair(2, 2);
    SoloHit(ok, s', tid, n);
    CallIsRun(ok, s', tid, n);
    AdvancesKeepFiles(ok, Move(s', tid, NewThread(s')), tid, n);
  }
}
