/**
  Every road from a name to a certificate authority: the step-ca issue and renew
  handlers (through issueCert), the Let's Encrypt issue and renew handlers with
  the background work they start, and the auto-renewer. The Let's Encrypt table
  is a map; what an authority answers is an input.
 */
module Issuance {
  import opened Common
  import opened Text
  import opened DomainPolicy
  import opened Hostnames
  import Paths

  // ---------- state ----------

  datatype LeCert = LeCert(
    domain: string, certPath: string, issuedAt: int, expiresAt: Option<int>,
    autoRenew: bool, status: string, lastError: string)

  /** One pending or past call of le.IssueCert for a table row. */
  datatype Job = Job(id: int, domain: string)

  /** What happens once le.IssueCert goes out: it may fail before the order is placed. */
  datatype Answer = Unreached(why: string) | Refused(why: string) | Signed(issuedAt: int, expiresAt: int)

  datatype State = State(
    rows: map<int, LeCert>, nextId: int,
    jobs: seq<Job>,     // background goroutines not yet run
    calls: seq<Job>,    // calls of le.IssueCert so far
    sent: seq<string>)  // names submitted for signing so far

  datatype Config = Config(suffixes: seq<string>, cwd: string, certsDir: string)

  const THIRTY_DAYS := 30 * 24 * 3600

  // ---------- le_db.go ----------

  function UpdateStatus(rows: map<int, LeCert>, id: int, status: string, why: string): map<int, LeCert> {
    if id in rows then rows[id := rows[id].(status := status, lastError := why)] else rows
  }

  function UpdatePaths(rows: map<int, LeCert>, id: int, path: string, from: int, to: int): map<int, LeCert> {
    if id in rows
    then rows[id := rows[id].(certPath := path, issuedAt := from, expiresAt := Some(to), status := "active", lastError := "")]
    else rows
  }

  predicate Due(c: LeCert, now: int) {
    c.autoRenew && c.status == "active" && c.expiresAt.Some? && c.expiresAt.value < now + THIRTY_DAYS
  }

  // ---------- le.IssueCert ----------

  datatype LeResult = Issued(certPath: string, from: int, to: int) | Failed(why: string)

  function IssueResult(domain: string, answer: Answer): LeResult {
    match CertDirFor(domain)
    case Err => Failed("invalid domain")
    case Ok(dir) =>
      match answer
      case Unreached(why) => Failed(why)
      case Refused(why) => Failed(why)
      case Signed(from, to) => Issued(Paths.JoinPath(dir, "certificate.crt"), from, to)
  }

  predicate Submitted(domain: string, answer: Answer) {
    CertDirFor(domain).Ok? && !answer.Unreached?
  }

  /** One call of le.IssueCert and the row update that follows it. */
  function CallIssuer(s: State, job: Job, answer: Answer): State {
    var s1 := s.(calls := s.calls + [job],
                 sent := if Submitted(job.domain, answer) then s.sent + [job.domain] else s.sent);
    match IssueResult(job.domain, answer)
    case Failed(why) => s1.(rows := UpdateStatus(s.rows, job.id, "error", why))
    case Issued(path, from, to) => s1.(rows := UpdatePaths(s.rows, job.id, path, from, to))
  }

  // ---------- the requests ----------

  ghost predicate DomainTaken(rows: map<int, LeCert>, domain: string) {
    exists id | id in rows :: rows[id].domain == domain
  }

  ghost function LeIssuePost(cfg: Config, s: State, rawDomain: string, rawEmail: string, autoRenew: bool): State {
    var domain := TrimSpace(rawDomain);
    if domain == "" || TrimSpace(rawEmail) == "" then s
    else if !CheckDomainPolicy(domain, cfg.suffixes) then s
    else if DomainTaken(s.rows, domain) then s
    else s.(rows := s.rows[s.nextId := LeCert(domain, "", 0, None, autoRenew, "pending", "")],
            nextId := s.nextId + 1,
            jobs := s.jobs + [Job(s.nextId, domain)])
  }

  function LeRenewPost(cfg: Config, s: State, id: int): State {
    if id !in s.rows then s
    else if !CheckDomainPolicy(s.rows[id].domain, cfg.suffixes) then s
    else s.(rows := UpdateStatus(s.rows, id, "pending", ""), jobs := s.jobs + [Job(id, s.rows[id].domain)])
  }

  function RunJob(s: State, k: nat, answer: Answer): State {
    if k < |s.jobs|
    then CallIssuer(s.(jobs := s.jobs[..k] + s.jobs[k + 1..]), s.jobs[k], answer)
    else s
  }

  /** issueCert: every guard before the CA client is called. */
  predicate IssueCertAllowed(cfg: Config, domain: string, certPath: string, keyPath: string, durationParses: bool)
    requires Paths.IsAbs(cfg.cwd)
  {
    && ValidateIdentifier(domain)
    && CheckDomainPolicy(domain, cfg.suffixes)
    && durationParses
    && Paths.ContainedAbsPath(cfg.cwd, cfg.certsDir, certPath).Ok?
    && Paths.ContainedAbsPath(cfg.cwd, cfg.certsDir, keyPath).Ok?
  }

  function StepCaIssue(cfg: Config, s: State, domain: string, certPath: string, keyPath: string, durationParses: bool): State
    requires Paths.IsAbs(cfg.cwd)
  {
    if IssueCertAllowed(cfg, domain, certPath, keyPath, durationParses) then s.(sent := s.sent + [domain]) else s
  }

  // ---------- the auto-renewer ----------

  /** The rows selected for renewal, each exactly once, in some order. */
  ghost predicate IsSelection(rows: map<int, LeCert>, now: int, list: seq<Job>) {
    && Listed(rows, list)
    && DistinctIds(list)
    && (forall i | 0 <= i < |list| :: Due(rows[list[i].id], now))
    && (forall id | id in rows && Due(rows[id], now) :: Job(id, rows[id].domain) in list)
  }

  ghost predicate Listed(rows: map<int, LeCert>, list: seq<Job>) {
    forall i | 0 <= i < |list| :: list[i].id in rows && list[i].domain == rows[list[i].id].domain
  }

  ghost predicate DistinctIds(list: seq<Job>) {
    forall i, j | 0 <= i < j < |list| :: list[i].id != list[j].id
  }

  function RenewOne(cfg: Config, s: State, job: Job, answer: Answer): State {
    if CheckDomainPolicy(job.domain, cfg.suffixes) then CallIssuer(s, job, answer) else s
  }

  function RenewAll(cfg: Config, s: State, list: seq<Job>, answers: int -> Answer): State
    decreases |list|
  {
    if list == [] then s
    else RenewAll(cfg, RenewOne(cfg, s, list[0], answers(list[0].id)), list[1..], answers)
  }

  // ---------- runs ----------

  datatype Action =
    | LeIssueAction(rawDomain: string, rawEmail: string, autoRenew: bool)
    | LeRenewAction(id: int)
    | JobAction(k: nat, answer: Answer)
    | StepCaAction(domain: string, certPath: string, keyPath: string, durationParses: bool)
    | AutoRenewAction(list: seq<Job>, answers: int -> Answer)
    | DeleteAction(id: int)
    | ToggleAction(id: int)

  ghost function Next(cfg: Config, s: State, a: Action): State
    requires Paths.IsAbs(cfg.cwd)
  {
    match a
    case LeIssueAction(d, e, r) => LeIssuePost(cfg, s, d, e, r)
    case LeRenewAction(id) => LeRenewPost(cfg, s, id)
    case JobAction(k, answer) => RunJob(s, k, answer)
    case StepCaAction(d, c, k, p) => StepCaIssue(cfg, s, d, c, k, p)
    case AutoRenewAction(list, answers) => RenewAll(cfg, s, list, answers)
    case DeleteAction(id) => s.(rows := s.rows - {id})
    case ToggleAction(id) =>
      if id in s.rows then s.(rows := s.rows[id := s.rows[id].(autoRenew := !s.rows[id].autoRenew)]) else s
  }

  ghost function Run(cfg: Config, s: State, actions: seq<Action>): State
    requires Paths.IsAbs(cfg.cwd)
    decreases |actions|
  {
    if actions == [] then s else Run(cfg, Next(cfg, s, actions[0]), actions[1..])
  }

  ghost predicate OnlyAuthorised(cfg: Config, s: State) {
    && (forall i | 0 <= i < |s.jobs| :: InPolicy(s.jobs[i].domain, cfg.suffixes))
    && (forall i | 0 <= i < |s.sent| :: InPolicy(s.sent[i], cfg.suffixes) && IsHostname(s.sent[i]))
  }

  lemma {:induction false} RenewAllAuthorised(cfg: Config, s: State, list: seq<Job>, answers: int -> Answer)
    requires OnlyAuthorised(cfg, s)
    ensures OnlyAuthorised(cfg, RenewAll(cfg, s, list, answers))
    decreases |list|
  {
    if list != [] {
      var job := list[0];
      var s1 := RenewOne(cfg, s, job, answers(job.id));
      assert OnlyAuthorised(cfg, s1) by {
        PolicyExact(job.domain, cfg.suffixes);
        if InPolicy(job.domain, cfg.suffixes) {
          CallAuthorised(cfg, s, job, answers(job.id));
        }
      }
      RenewAllAuthorised(cfg, s1, list[1..], answers);
    }
  }

  lemma StepCaAuthorised(cfg: Config, s: State, domain: string, certPath: string, keyPath: string, parses: bool)
    requires Paths.IsAbs(cfg.cwd) && OnlyAuthorised(cfg, s)
    ensures OnlyAuthorised(cfg, StepCaIssue(cfg, s, domain, certPath, keyPath, parses))
  {
    PolicyExact(domain, cfg.suffixes);
  }

  lemma LePostsAuthorised(cfg: Config, s: State, domain: string, email: string, autoRenew: bool, id: int)
    requires OnlyAuthorised(cfg, s)
    ensures OnlyAuthorised(cfg, LeIssuePost(cfg, s, domain, email, autoRenew))
    ensures OnlyAuthorised(cfg, LeRenewPost(cfg, s, id))
  {
    PolicyExact(TrimSpace(domain), cfg.suffixes);
    if id in s.rows {
      PolicyExact(s.rows[id].domain, cfg.suffixes);
    }
  }

  lemma CallAuthorised(cfg: Config, s: State, job: Job, answer: Answer)
    requires OnlyAuthorised(cfg, s) && InPolicy(job.domain, cfg.suffixes)
    ensures OnlyAuthorised(cfg, CallIssuer(s, job, answer))
  {
    var after := CallIssuer(s, job, answer);
    SubmittedIsHostname(job.domain, answer);
    assert after.jobs == s.jobs && (after.sent == s.sent || after.sent == s.sent + [job.domain]);
  }

  lemma SubmittedIsHostname(domain: string, answer: Answer)
    ensures Submitted(domain, answer) ==> IsHostname(domain)
  {
  }

  lemma JobTaken(cfg: Config, s: State, k: nat)
    requires OnlyAuthorised(cfg, s) && k < |s.jobs|
    ensures OnlyAuthorised(cfg, s.(jobs := s.jobs[..k] + s.jobs[k + 1..]))
  {
    var others := s.jobs[..k] + s.jobs[k + 1..];
    forall i | 0 <= i < |others|
      ensures InPolicy(others[i].domain, cfg.suffixes)
    {
      assert others[i] == s.jobs[if i < k then i else i + 1];
    }
  }

  lemma NextAuthorised(cfg: Config, s: State, a: Action)
    requires Paths.IsAbs(cfg.cwd) && OnlyAuthorised(cfg, s)
    ensures OnlyAuthorised(cfg, Next(cfg, s, a))
  {
    match a
    case LeIssueAction(d, e, r) => LePostsAuthorised(cfg, s, d, e, r, 0);
    case LeRenewAction(id) => LePostsAuthorised(cfg, s, "", "", false, id);
    case JobAction(k, answer) =>
      if k < |s.jobs| {
        var others := s.jobs[..k] + s.jobs[k + 1..];
        JobTaken(cfg, s, k);
        CallAuthorised(cfg, s.(jobs := others), s.jobs[k], answer);
      }
    case StepCaAction(d, c, k, p) => StepCaAuthorised(cfg, s, d, c, k, p);
    case AutoRenewAction(list, answers) => RenewAllAuthorised(cfg, s, list, answers);
    case DeleteAction(id) =>
    case ToggleAction(id) =>
  }

  /**
    In every run, over whatever rows earlier configurations left in the table, no
    name outside the policy and no malformed name is ever sent for signing.
   */
  lemma {:induction false} NothingOutsidePolicyIsSent(cfg: Config, s: State, actions: seq<Action>)
    requires Paths.IsAbs(cfg.cwd) && OnlyAuthorised(cfg, s)
    ensures OnlyAuthorised(cfg, Run(cfg, s, actions))
    decreases |actions|
  {
    if actions != [] {
      NextAuthorised(cfg, s, actions[0]);
      NothingOutsidePolicyIsSent(cfg, Next(cfg, s, actions[0]), actions[1..]);
    }
  }

  // ---------- what one renewal pass does ----------

  function InPolicyJobs(cfg: Config, list: seq<Job>): seq<Job> {
    if list == [] then []
    else (if CheckDomainPolicy(list[0].domain, cfg.suffixes) then [list[0]] else []) + InPolicyJobs(cfg, list[1..])
  }

  function Settled(c: LeCert, answer: Answer): LeCert {
    match IssueResult(c.domain, answer)
    case Failed(why) => c.(status := "error", lastError := why)
    case Issued(path, from, to) =>
      c.(certPath := path, issuedAt := from, expiresAt := Some(to), status := "active", lastError := "")
  }

  /** What a pass leaves in row `id`. */
  function AfterPass(cfg: Config, c: LeCert, attempted: bool, answer: Answer): LeCert {
    if attempted && CheckDomainPolicy(c.domain, cfg.suffixes) then Settled(c, answer) else c
  }

  lemma RenewOneRow(cfg: Config, s: State, job: Job, answer: Answer, id: int)
    requires job.id in s.rows && job.domain == s.rows[job.id].domain && id in s.rows
    ensures var after := RenewOne(cfg, s, job, answer);
            && after.rows.Keys == s.rows.Keys
            && after.rows[id] == AfterPass(cfg, s.rows[id], id == job.id, answer)
            && after.rows[id].domain == s.rows[id].domain
            && after.calls == s.calls + InPolicyJobs(cfg, [job])
  {
    assert InPolicyJobs(cfg, [job]) == if CheckDomainPolicy(job.domain, cfg.suffixes) then [job] else [];
  }

  lemma RenewOneListed(cfg: Config, s: State, list: seq<Job>, answer: Answer)
    requires list != [] && Listed(s.rows, list) && DistinctIds(list)
    ensures Listed(RenewOne(cfg, s, list[0], answer).rows, list[1..]) && DistinctIds(list[1..])
    ensures forall i | 0 <= i < |list[1..]| :: list[1..][i].id != list[0].id
  {
    var s1 := RenewOne(cfg, s, list[0], answer);
    forall i | 0 <= i < |list[1..]|
      ensures list[1..][i].id in s1.rows && list[1..][i].domain == s1.rows[list[1..][i].id].domain
    {
      RenewOneRow(cfg, s, list[0], answer, list[i + 1].id);
    }
  }

  lemma RenewOneCalls(cfg: Config, s: State, job: Job, answer: Answer)
    ensures RenewOne(cfg, s, job, answer).calls == s.calls + InPolicyJobs(cfg, [job])
  {
    assert [job][1..] == [];
  }

  lemma {:induction false} RenewAllCalls(cfg: Config, s: State, list: seq<Job>, answers: int -> Answer)
    ensures RenewAll(cfg, s, list, answers).calls == s.calls + InPolicyJobs(cfg, list)
    decreases |list|
  {
    if list != [] {
      var one := RenewOne(cfg, s, list[0], answers(list[0].id));
      RenewAllCalls(cfg, one, list[1..], answers);
      RenewOneCalls(cfg, s, list[0], answers(list[0].id));
      var head, tail := InPolicyJobs(cfg, [list[0]]), InPolicyJobs(cfg, list[1..]);
      InPolicyJobsHead(cfg, list);
      Regroup(s.calls, head, tail);
    }
  }

  lemma {:induction false} RenewAllRows(cfg: Config, s: State, list: seq<Job>, answers: int -> Answer, id: int)
    requires Listed(s.rows, list) && DistinctIds(list) && id in s.rows
    ensures RenewAll(cfg, s, list, answers).rows.Keys == s.rows.Keys
    ensures RenewAll(cfg, s, list, answers).rows[id]
            == AfterPass(cfg, s.rows[id], Job(id, s.rows[id].domain) in list, answers(id))
    decreases |list|
  {
    if list != [] {
      var s1 := RenewOne(cfg, s, list[0], answers(list[0].id));
      RenewOneRow(cfg, s, list[0], answers(list[0].id), id);
      RenewOneListed(cfg, s, list, answers(list[0].id));
      RenewAllRows(cfg, s1, list[1..], answers, id);
      HeadOrTail(s.rows, list, id);
    }
  }

  lemma HeadOrTail(rows: map<int, LeCert>, list: seq<Job>, id: int)
    requires list != [] && Listed(rows, list) && DistinctIds(list) && id in rows
    ensures Job(id, rows[id].domain) in list <==> id == list[0].id || Job(id, rows[id].domain) in list[1..]
    ensures id == list[0].id ==> Job(id, rows[id].domain) !in list[1..]
  {
    assert list == [list[0]] + list[1..];
  }

  lemma Regroup(a: seq<Job>, b: seq<Job>, c: seq<Job>)
    ensures (a + b) + c == a + (b + c)
  {
  }

  lemma InPolicyJobsHead(cfg: Config, list: seq<Job>)
    requires list != []
    ensures InPolicyJobs(cfg, list) == InPolicyJobs(cfg, [list[0]]) + InPolicyJobs(cfg, list[1..])
  {
    assert list == [list[0]] + list[1..];
    InPolicyJobsCons(cfg, list[0], list[1..]);
  }

  lemma InPolicyJobsCons(cfg: Config, job: Job, rest: seq<Job>)
    ensures InPolicyJobs(cfg, [job] + rest) == InPolicyJobs(cfg, [job]) + InPolicyJobs(cfg, rest)
  {
    assert ([job] + rest)[1..] == rest && [job][1..] == [];
  }

  /**
    One pass of the auto-renewer: every due row whose name is in policy gets
    exactly one attempt and the row that attempt earns it; every other row,
    skipped or not due, is left as it was.
   */
  lemma RenewalPassExact(cfg: Config, s: State, now: int, list: seq<Job>, answers: int -> Answer, id: int)
    requires IsSelection(s.rows, now, list) && id in s.rows
    ensures var after := RenewAll(cfg, s, list, answers);
            var renewed := Due(s.rows[id], now) && InPolicy(s.rows[id].domain, cfg.suffixes);
            && after.rows.Keys == s.rows.Keys
            && after.rows[id] == (if renewed then Settled(s.rows[id], answers(id)) else s.rows[id])
            && after.calls == s.calls + InPolicyJobs(cfg, list)
            && multiset(InPolicyJobs(cfg, list))[Job(id, s.rows[id].domain)] == if renewed then 1 else 0
  {
    RenewAllCalls(cfg, s, list, answers);
    RenewAllRows(cfg, s, list, answers, id);
    PolicyExact(s.rows[id].domain, cfg.suffixes);
    InPolicyJobsCount(cfg, list, Job(id, s.rows[id].domain));
  }

  lemma {:induction false} InPolicyJobsCount(cfg: Config, list: seq<Job>, job: Job)
    requires DistinctIds(list)
    ensures multiset(InPolicyJobs(cfg, list))[job]
            == if job in list && CheckDomainPolicy(job.domain, cfg.suffixes) then 1 else 0
  {
    if list != [] {
      assert list == [list[0]] + list[1..];
      InPolicyJobsCount(cfg, list[1..], job);
      assert list[0] == job ==> job !in list[1..];
    }
  }

  // ---------- what a call leaves behind, column by column ----------

  ghost predicate IsLeHost(domain: string) {
    Matches(HOSTNAME, domain) && |domain| <= 253
  }

  /** A signed host name makes its row active, with the certificate's own path and dates; anything else an error. */
  ghost predicate AnsweredRow(before: LeCert, answer: Answer, after: LeCert) {
    && after.domain == before.domain && after.autoRenew == before.autoRenew
    && if IsLeHost(before.domain) && answer.Signed? then
         && after.issuedAt == answer.issuedAt && after.expiresAt == Some(answer.expiresAt)
         && after.status == "active" && after.lastError == ""
         && after.certPath == Paths.AbsString(["opt", "step-ui", "le-certs", before.domain, "certificate.crt"])
       else
         && after.status == "error"
         && after.lastError == (if IsLeHost(before.domain) then answer.why else "invalid domain")
         && after.certPath == before.certPath && after.issuedAt == before.issuedAt && after.expiresAt == before.expiresAt
  }

  lemma CertificatePath(domain: string)
    requires IsLeHost(domain)
    ensures CertDirFor(domain).Ok?
    ensures Paths.JoinPath(CertDirFor(domain).value, "certificate.crt")
            == Paths.AbsString(["opt", "step-ui", "le-certs", domain, "certificate.crt"])
  {
    CertDirOneComponent(domain);
    IdentifierIsOneComponent(domain);
    LeDirectoryComponents();
    Paths.LeafNormal("certificate.crt");
    Paths.JoinOneComponent(LE_ROOT + [domain], "certificate.crt");
    assert LE_ROOT + [domain] + ["certificate.crt"] == ["opt", "step-ui", "le-certs", domain, "certificate.crt"];
  }

  lemma SettledIsAnswered(c: LeCert, answer: Answer)
    ensures AnsweredRow(c, answer, Settled(c, answer))
  {
    CertDirOneComponent(c.domain);
    if IsLeHost(c.domain) {
      CertificatePath(c.domain);
    }
  }

  /** A background job answers for its own row and no other, calls once, and submits exactly a host name that is reached. */
  lemma CallExact(s: State, job: Job, answer: Answer, id: int)
    requires id in s.rows && (id == job.id ==> s.rows[id].domain == job.domain)
    ensures var after := CallIssuer(s, job, answer);
            && after.rows.Keys == s.rows.Keys && after.calls == s.calls + [job] && after.jobs == s.jobs
            && (if id == job.id then AnsweredRow(s.rows[id], answer, after.rows[id]) else after.rows[id] == s.rows[id])
            && after.sent == s.sent + if IsLeHost(job.domain) && !answer.Unreached? then [job.domain] else []
  {
    CertDirOneComponent(job.domain);
    if id == job.id {
      SettledIsAnswered(s.rows[id], answer);
    }
  }

  /** The rows of one pass: due means auto-renewed, active and within thirty days of expiry. */
  predicate DueWithin30Days(c: LeCert, now: int) {
    c.autoRenew && c.status == "active" && c.expiresAt.Some? && c.expiresAt.value < now + 30 * 24 * 60 * 60
  }

  /** One pass answers for every due in-policy row and leaves every other row as it was. */
  lemma RenewedRowExact(cfg: Config, s: State, now: int, list: seq<Job>, answers: int -> Answer, id: int)
    requires IsSelection(s.rows, now, list) && id in s.rows
    ensures var c, after := s.rows[id], RenewAll(cfg, s, list, answers).rows;
            && id in after
            && (if DueWithin30Days(c, now) && InPolicy(c.domain, cfg.suffixes)
                then AnsweredRow(c, answers(id), after[id]) else after[id] == c)
  {
    RenewalPassExact(cfg, s, now, list, answers, id);
    SettledIsAnswered(s.rows[id], answers(id));
  }

  /** A row renewed for thirty days or more is not selected again at that instant; a row is, exactly when it is due. */
  lemma RenewedNotDueAgain(cfg: Config, s: State, now: int, list: seq<Job>, answers: int -> Answer, id: int, again: seq<Job>)
    requires IsSelection(s.rows, now, list) && id in s.rows
    requires IsSelection(RenewAll(cfg, s, list, answers).rows, now, again)
    ensures var c, after := s.rows[id], RenewAll(cfg, s, list, answers).rows;
            && id in after
            && (DueWithin30Days(after[id], now) <==> exists i :: 0 <= i < |again| && again[i].id == id)
            && (DueWithin30Days(c, now) && InPolicy(c.domain, cfg.suffixes) && IsLeHost(c.domain)
                && answers(id).Signed? && answers(id).expiresAt >= now + 30 * 24 * 60 * 60 ==>
                  forall i | 0 <= i < |again| :: again[i].id != id)
  {
    RenewedRowExact(cfg, s, now, list, answers, id);
    SelectionExact(RenewAll(cfg, s, list, answers).rows, now, again, id);
  }

  lemma SelectionExact(rows: map<int, LeCert>, now: int, list: seq<Job>, id: int)
    requires IsSelection(rows, now, list) && id in rows
    ensures DueWithin30Days(rows[id], now) <==> exists i :: 0 <= i < |list| && list[i].id == id
  {
    if Due(rows[id], now) {
      var i :| 0 <= i < |list| && list[i] == Job(id, rows[id].domain);
      assert list[i].id == id;
    }
  }

  /** A post with a domain and an address, inside the policy and of no row yet, adds one pending row and its job. */
  lemma LeIssueExact(cfg: Config, s: State, rawDomain: string, rawEmail: string, autoRenew: bool)
    ensures var domain, after := TrimSpace(rawDomain), LeIssuePost(cfg, s, rawDomain, rawEmail, autoRenew);
            if domain != "" && TrimSpace(rawEmail) != "" && InPolicy(domain, cfg.suffixes)
               && (forall id | id in s.rows :: s.rows[id].domain != domain)
            then
              && after.rows == s.rows[s.nextId := LeCert(domain, "", 0, None, autoRenew, "pending", "")]
              && after.jobs == s.jobs + [Job(s.nextId, domain)] && after.sent == s.sent && after.nextId == s.nextId + 1
            else after == s
  {
    PolicyExact(TrimSpace(rawDomain), cfg.suffixes);
  }

  /** A renewal of a row inside the policy makes it pending and queues its job. */
  lemma LeRenewExact(cfg: Config, s: State, id: int)
    ensures var after := LeRenewPost(cfg, s, id);
            if id in s.rows && InPolicy(s.rows[id].domain, cfg.suffixes) then
              && after.rows == s.rows[id := s.rows[id].(status := "pending", lastError := "")]
              && after.jobs == s.jobs + [Job(id, s.rows[id].domain)] && after.sent == s.sent
            else after == s
  {
    if id in s.rows {
      PolicyExact(s.rows[id].domain, cfg.suffixes);
    }
  }

  /**
    issueCert goes to the CA exactly for a host name inside the policy, a readable
    duration and two paths below the directory, and never while that is the slash.
   */
  lemma StepCaExact(cfg: Config, s: State, domain: string, certPath: string, keyPath: string, parses: bool)
    requires Paths.IsAbs(cfg.cwd)
    ensures var root := Paths.AbsComponents(cfg.cwd, cfg.certsDir);
            StepCaIssue(cfg, s, domain, certPath, keyPath, parses) ==
            if Matches(HOSTNAME, domain) && InPolicy(domain, cfg.suffixes) && parses && Paths.Abs(cfg.cwd, cfg.certsDir) != "/"
               && root < Paths.AbsComponents(cfg.cwd, certPath) && root < Paths.AbsComponents(cfg.cwd, keyPath)
            then s.(sent := s.sent + [domain]) else s
  {
    IdentifierIsOneComponent(domain);
    PolicyExact(domain, cfg.suffixes);
    if Paths.Abs(cfg.cwd, cfg.certsDir) == "/" {
      Paths.SlashRootRefusesEverything(cfg.cwd, cfg.certsDir, certPath);
    } else {
      Paths.ContainedAbsPathExact(cfg.cwd, cfg.certsDir, certPath);
      Paths.ContainedAbsPathExact(cfg.cwd, cfg.certsDir, keyPath);
    }
  }

  // ---------- the same in the form of the source ----------

  class LeStore {
    const cfg: Config
    var rows: map<int, LeCert>
    var nextId: int
    var jobs: seq<Job>
    var calls: seq<Job>
    var sent: seq<string>

    constructor (cfg: Config, rows: map<int, LeCert>, nextId: int)
      ensures this.cfg == cfg && Abs() == State(rows, nextId, [], [], [])
    {
      this.cfg := cfg;
      this.rows, this.nextId, jobs, calls, sent := rows, nextId, [], [], [];
    }

    ghost function Abs(): State
      reads this
    {
      State(rows, nextId, jobs, calls, sent)
    }

    method UpdateLECertStatus(id: int, status: string, why: string)
      modifies this`rows
      ensures rows == UpdateStatus(old(rows), id, status, why)
    {
      if id in rows {
        rows := rows[id := rows[id].(status := status, lastError := why)];
      }
    }

    method UpdateLECertPaths(id: int, path: string, from: int, to: int)
      modifies this`rows
      ensures rows == UpdatePaths(old(rows), id, path, from, to)
    {
      if id in rows {
        var c := rows[id];
        c := c.(certPath := path, issuedAt := from, expiresAt := Some(to));
        c := c.(status := "active", lastError := "");
        rows := rows[id := c];
      }
    }

    // See SettledIsAnswered, CallExact.
    method CallAndRecord(job: Job, answer: Answer)
      modifies this`rows, this`calls, this`sent
      ensures Abs() == CallIssuer(old(Abs()), job, answer)
    {
      calls := calls + [job];
      if Submitted(job.domain, answer) {
        sent := sent + [job.domain];
      }
      match IssueResult(job.domain, answer) {
        case Failed(why) => UpdateLECertStatus(job.id, "error", why);
        case Issued(path, from, to) => UpdateLECertPaths(job.id, path, from, to);
      }
    }

    method LECertExists(domain: string) returns (found: bool)
      ensures found <==> DomainTaken(rows, domain)
    {
      var ids: set<int> := rows.Keys;
      while ids != {}
        invariant ids <= rows.Keys
        invariant forall id | id in rows && rows[id].domain == domain :: id in ids
        decreases ids
      {
        var id := AnyOf(ids);
        if rows[id].domain == domain {
          return true;
        }
        ids := ids - {id};
      }
      return false;
    }

    method PostLeIssue(rawDomain: string, rawEmail: string, autoRenew: bool)
      modifies this`rows, this`nextId, this`jobs
      ensures Abs() == LeIssuePost(cfg, old(Abs()), rawDomain, rawEmail, autoRenew)
    {
      var domain, email := TrimSpace(rawDomain), TrimSpace(rawEmail);
      if domain == "" || email == "" {
        return;
      }
      if !CheckDomainPolicy(domain, cfg.suffixes) {
        return;
      }
      var exists_ := LECertExists(domain);
      if exists_ {
        return;
      }
      var id := nextId;
      nextId := nextId + 1;
      rows := rows[id := LeCert(domain, "", 0, None, autoRenew, "pending", "")];
      jobs := jobs + [Job(id, domain)];
    }

    method PostLeRenew(id: int)
      modifies this`rows, this`jobs
      ensures Abs() == LeRenewPost(cfg, old(Abs()), id)
    {
      if id !in rows {
        return;
      }
      var domain := rows[id].domain;
      if !CheckDomainPolicy(domain, cfg.suffixes) {
        return;
      }
      UpdateLECertStatus(id, "pending", "");
      jobs := jobs + [Job(id, domain)];
    }

    method BackgroundJob(k: nat, answer: Answer)
      requires k < |jobs|
      modifies this`rows, this`jobs, this`calls, this`sent
      ensures Abs() == RunJob(old(Abs()), k, answer)
    {
      var job := jobs[k];
      jobs := jobs[..k] + jobs[k + 1..];
      CallAndRecord(job, answer);
    }

    method GetLECertsForRenewal(now: int) returns (list: seq<Job>)
      ensures IsSelection(rows, now, list)
    {
      list := [];
      var ids: set<int> := rows.Keys;
      while ids != {}
        invariant ids <= rows.Keys
        invariant Listed(rows, list) && DistinctIds(list)
        invariant forall i | 0 <= i < |list| :: list[i].id !in ids && Due(rows[list[i].id], now)
        invariant forall id | id in rows && id !in ids && Due(rows[id], now) :: Job(id, rows[id].domain) in list
        decreases ids
      {
        var id := AnyOf(ids);
        ids := ids - {id};
        if Due(rows[id], now) {
          list := list + [Job(id, rows[id].domain)];
        }
      }
    }

    // See RenewedRowExact, RenewedNotDueAgain.
    method RunRenewal(now: int, answers: int -> Answer) returns (list: seq<Job>)
      modifies this`rows, this`calls, this`sent
      ensures IsSelection(old(rows), now, list)
      ensures Abs() == RenewAll(cfg, old(Abs()), list, answers)
    {
      list := GetLECertsForRenewal(now);
      for i := 0 to |list|
        invariant RenewAll(cfg, Abs(), list[i..], answers) == RenewAll(cfg, old(Abs()), list, answers)
      {
        assert list[i..][0] == list[i] && list[i..][1..] == list[i + 1..];
        if !CheckDomainPolicy(list[i].domain, cfg.suffixes) {
          continue;
        }
        CallAndRecord(list[i], answers(list[i].id));
      }
    }
  }
}
