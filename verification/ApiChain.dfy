/**
  The gates in front of every JSON API operation, in their order
  (backend/api/api.go, backend/api/middleware.go), and the metadata they read
  (backend/api/roleop.go). Each gate answers with one problem document or calls the
  next; here every gate is a method that calls the next one in its body.
 */
module ApiChain {
  import opened Common
  import opened Accounts
  import opened Sessions
  import opened Requests
  import Server
  import Tables

  // ---------- operations and their metadata ----------

  const META_ROLE := "role"
  const META_AUTH := "auth"
  const META_RATE_LIMIT := "ratelimit"
  const META_CSRF := "csrf"
  const AUTH_PUBLIC := "public"
  const AUTH_OPTIONAL := "optional"
  const CSRF_OPTIONAL := "optional"
  const RATE_LIMIT_AUTH := "auth"

  type Metadata = map<string, string>

  function Meta(m: Metadata, key: string): string {
    if key in m then m[key] else ""
  }

  /** opRole: an empty role counts as none. */
  function OpRole(m: Metadata): Option<string> {
    if Meta(m, META_ROLE) == "" then None else Some(m[META_ROLE])
  }

  function OpAuth(m: Metadata): string {
    Meta(m, META_AUTH)
  }

  predicate NeedsSession(m: Metadata) {
    OpAuth(m) != AUTH_PUBLIC && OpAuth(m) != AUTH_OPTIONAL
  }

  /** The decorators change the operation in place. */
  class Operation {
    var metadata: Metadata
    var requiredRole: Option<string>   // x-required-role
    var security: seq<string>          // role names of the session requirement

    constructor ()
      ensures metadata == map[] && requiredRole == None && security == []
    {
      metadata, requiredRole, security := map[], None, [];
    }

    method WithMeta(key: string, value: string)
      modifies this`metadata
      ensures metadata == old(metadata)[key := value]
    {
      metadata := metadata[key := value];
    }

    /** roleOp: an unknown role panics, which `ok == false` stands for; the three representations agree. */
    method RoleOp(role: string) returns (ok: bool)
      modifies this
      ensures ok == (RoleLevel(role) != 0)
      ensures !ok ==> metadata == old(metadata) && requiredRole == old(requiredRole) && security == old(security)
      ensures ok ==> metadata == old(metadata)[META_ROLE := role]
      ensures ok ==> OpRole(metadata) == requiredRole == Some(role) && security == [role]
      ensures ok ==> exists have :: RoleAllows(have, role)
    {
      if RoleLevel(role) == 0 {
        return false;
      }
      WithMeta(META_ROLE, role);
      requiredRole := Some(role);
      security := [role];
      assert RoleAllows(role, role);
      return true;
    }

    method PublicOp()
      modifies this`metadata, this`security
      ensures metadata == old(metadata)[META_AUTH := AUTH_PUBLIC] && security == []
    {
      WithMeta(META_AUTH, AUTH_PUBLIC);
      security := [];
    }

    method OptionalAuthOp()
      modifies this`metadata, this`security
      ensures metadata == old(metadata)[META_AUTH := AUTH_OPTIONAL] && security == []
    {
      WithMeta(META_AUTH, AUTH_OPTIONAL);
      security := [];
    }

    method CsrfWhenSession()
      modifies this`metadata
      ensures metadata == old(metadata)[META_CSRF := CSRF_OPTIONAL]
    {
      WithMeta(META_CSRF, CSRF_OPTIONAL);
    }

    method RateLimited()
      modifies this`metadata
      ensures metadata == old(metadata)[META_RATE_LIMIT := RATE_LIMIT_AUTH]
    {
      WithMeta(META_RATE_LIMIT, RATE_LIMIT_AUTH);
    }
  }

  // ---------- which requests reach the handler ----------

  const MAX_BODY := 5 * 1024 * 1024

  /** `blocked`: the limiter's answer for the caller's address; `panics`: what the handler would do. */
  datatype Call = Call(contentLength: int, verb: string, sent: string, blocked: bool, panics: bool)

  datatype Problem = TooLarge | AuthRequired | NoRequirement | WrongRole | CsrfMismatch | TooManyAttempts | Crashed

  predicate SafeMethod(verb: string) {
    verb == "GET" || verb == "HEAD" || verb == "OPTIONS"
  }

  /** The CSRF token the session holds, none when the cookie does not decode. */
  function Wanted(decoded: bool, v: Values): string {
    if decoded then v.csrf else ""
  }

  predicate SessionHolds(m: Metadata, db: Db, decoded: bool, v: Values, now: int) {
    NeedsSession(m) ==> decoded && Accepts(db, v, now)
  }

  predicate RoleHolds(m: Metadata, db: Db, v: Values)
    requires NeedsSession(m) ==> v.user.Some? && v.user.value in db.users
  {
    NeedsSession(m) ==> OpRole(m).Some? && RoleAllows(db.users[v.user.value].role, OpRole(m).value)
  }

  predicate CsrfHolds(m: Metadata, c: Call, decoded: bool, v: Values) {
    || SafeMethod(c.verb)
    || (Wanted(decoded, v) == "" && Meta(m, META_CSRF) == CSRF_OPTIONAL)
    || (Wanted(decoded, v) != "" && c.sent == Wanted(decoded, v))
  }

  predicate RateHolds(m: Metadata, c: Call) {
    Meta(m, META_RATE_LIMIT) == RATE_LIMIT_AUTH ==> !c.blocked
  }

  /** Everything the chain asks for. */
  predicate Passes(m: Metadata, c: Call, db: Db, decoded: bool, v: Values, now: int) {
    && c.contentLength <= MAX_BODY
    && SessionHolds(m, db, decoded, v, now)
    && RoleHolds(m, db, v)
    && CsrfHolds(m, c, decoded, v)
    && RateHolds(m, c)
  }

  /** An operation that declares neither a role nor an auth mode runs for nobody. */
  lemma UndeclaredNeverRuns(m: Metadata, c: Call, db: Db, decoded: bool, v: Values, now: int)
    requires OpRole(m).None? && OpAuth(m) == ""
    ensures !Passes(m, c, db, decoded, v, now)
  {
    assert NeedsSession(m);
  }

  /** The CSRF rule for a request whose session holds `token`. */
  predicate TokenFits(c: Call, token: string, relaxed: bool) {
    c.verb in {"GET", "HEAD", "OPTIONS"} || (if token == "" then relaxed else c.sent == token)
  }

  /** What the decorators leave in the metadata of an operation. */
  function Decorated(m: Metadata, relaxed: bool, limited: bool): Metadata {
    var r := if relaxed then m["csrf" := "optional"] else m;
    if limited then r["ratelimit" := "auth"] else r
  }

  /** Declared for a role, an operation runs for an accepted session whose user's role reaches it, and nobody else. */
  lemma RoleOpExact(role: string, relaxed: bool, limited: bool, c: Call, db: Db, decoded: bool, v: Values, now: int)
    requires role in {"viewer", "manager", "admin"}
    ensures Passes(Decorated(map["role" := role], relaxed, limited), c, db, decoded, v, now) <==>
              && c.contentLength <= 5_242_880 && decoded && Accepts(db, v, now)
              && (db.users[v.user.value].role == "admin" || db.users[v.user.value].role == role
                  || (role == "viewer" && db.users[v.user.value].role == "manager"))
              && TokenFits(c, v.csrf, relaxed) && (limited ==> !c.blocked)
  {
    KeysDiffer();
    var m := Decorated(map["role" := role], relaxed, limited);
    assert Meta(m, META_AUTH) == "" && Meta(m, META_ROLE) == role;
    assert Meta(m, META_CSRF) == CSRF_OPTIONAL <==> relaxed;
    assert Meta(m, META_RATE_LIMIT) == RATE_LIMIT_AUTH <==> limited;
    if Accepts(db, v, now) {
      RoleTable(db.users[v.user.value].role, role);
    }
  }

  /** Declared public or optional, it runs for everybody whose token fits, with a session or without. */
  lemma OpenOpExact(mode: string, relaxed: bool, limited: bool, c: Call, db: Db, decoded: bool, v: Values, now: int)
    requires mode in {"public", "optional"}
    ensures Passes(Decorated(map["auth" := mode], relaxed, limited), c, db, decoded, v, now) <==>
              && c.contentLength <= 5_242_880
              && TokenFits(c, if decoded then v.csrf else "", relaxed) && (limited ==> !c.blocked)
  {
    KeysDiffer();
    var m := Decorated(map["auth" := mode], relaxed, limited);
    assert Meta(m, META_AUTH) == mode;
    assert Meta(m, META_CSRF) == CSRF_OPTIONAL <==> relaxed;
    assert Meta(m, META_RATE_LIMIT) == RATE_LIMIT_AUTH <==> limited;
  }

  /** Whoever passes at a role passes at every lower one; an unknown role passes nobody without an auth mode. */
  lemma RolesAreLadder(m: Metadata, c: Call, db: Db, decoded: bool, v: Values, now: int, lower: string)
    requires Passes(m, c, db, decoded, v, now) && lower != ""
    requires NeedsSession(m) ==> RoleAllows(OpRole(m).value, lower)
    ensures Passes(m[META_ROLE := lower], c, db, decoded, v, now)
    ensures NeedsSession(m) ==> RoleLevel(OpRole(m).value) != 0
  {
    var m' := m[META_ROLE := lower];
    KeysDiffer();
    assert Meta(m', META_AUTH) == Meta(m, META_AUTH) && Meta(m', META_CSRF) == Meta(m, META_CSRF);
    assert Meta(m', META_RATE_LIMIT) == Meta(m, META_RATE_LIMIT);
  }

  lemma KeysDiffer()
    ensures META_ROLE != META_AUTH && META_ROLE != META_RATE_LIMIT && META_ROLE != META_CSRF
    ensures META_AUTH != META_RATE_LIMIT && META_AUTH != META_CSRF && META_RATE_LIMIT != META_CSRF
  {
    assert |META_ROLE| == 4 && |META_AUTH| == 4 && |META_RATE_LIMIT| == 9 && |META_CSRF| == 4;
    assert META_ROLE[0] == 'r' && META_AUTH[0] == 'a' && META_CSRF[0] == 'c';
  }

  /** What the decorators ask for does not depend on the order they are applied in. */
  lemma DecoratorsCommute(m: Metadata, role: string)
    ensures m[META_ROLE := role][META_RATE_LIMIT := RATE_LIMIT_AUTH] == m[META_RATE_LIMIT := RATE_LIMIT_AUTH][META_ROLE := role]
    ensures m[META_AUTH := AUTH_PUBLIC][META_RATE_LIMIT := RATE_LIMIT_AUTH]
            == m[META_RATE_LIMIT := RATE_LIMIT_AUTH][META_AUTH := AUTH_PUBLIC]
    ensures m[META_AUTH := AUTH_PUBLIC][META_CSRF := CSRF_OPTIONAL] == m[META_CSRF := CSRF_OPTIONAL][META_AUTH := AUTH_PUBLIC]
  {
    KeysDiffer();
  }

  // ---------- the chain ----------

  /** One request on its way through the chain. */
  class Exchange {
    const meta: Metadata
    const call: Call
    const now: int
    const db: Tables.Database
    const s: Server.Session
    var problems: seq<Problem>    // problem documents written
    var runs: nat                 // times the handler was entered
    var user: Option<int>         // the user on the context

    constructor (meta: Metadata, call: Call, now: int, db: Tables.Database, s: Server.Session)
      ensures this.meta == meta && this.call == call && this.now == now && this.db == db && this.s == s
      ensures problems == [] && runs == 0 && user == None
    {
      this.meta, this.call, this.now, this.db, this.s := meta, call, now, db, s;
      problems, runs, user := [], 0, None;
    }

    ghost predicate Passed()
      reads db, s
    {
      Passes(meta, call, db.Rows(), s.decoded, s.values, now)
    }

    /** Writes one problem document and stops. */
    method Refuse(p: Problem)
      modifies this`problems
      ensures problems == old(problems) + [p]
    {
      problems := problems + [p];
    }

    /** The operation's own handler; whatever it does besides is its own affair. */
    method Handle() returns (panicked: bool)
      modifies this`runs
      ensures runs == old(runs) + 1 && panicked == call.panics
    {
      runs := runs + 1;
      return call.panics;
    }

    method RateLimitGate() returns (panicked: bool)
      modifies this`problems, this`runs
      ensures RateHolds(meta, call) ==> runs == old(runs) + 1 && problems == old(problems) && panicked == call.panics
      ensures !RateHolds(meta, call) ==> runs == old(runs) && problems == old(problems) + [TooManyAttempts] && !panicked
    {
      if Meta(meta, META_RATE_LIMIT) != RATE_LIMIT_AUTH {
        panicked := Handle();
        return;
      }
      if call.blocked {
        Refuse(TooManyAttempts);
        return false;
      }
      panicked := Handle();
    }

    method CsrfGate() returns (panicked: bool)
      modifies this`problems, this`runs
      ensures var ok := CsrfHolds(meta, call, s.decoded, s.values); var all := ok && RateHolds(meta, call);
              && runs == old(runs) + (if all then 1 else 0)
              && problems == old(problems) + (if all then [] else if ok then [TooManyAttempts] else [CsrfMismatch])
              && panicked == (all && call.panics)
    {
      if SafeMethod(call.verb) {
        panicked := RateLimitGate();
        return;
      }
      var want := "";
      if s.decoded {
        want := s.values.csrf;
      }
      if want == "" {
        if Meta(meta, META_CSRF) == CSRF_OPTIONAL {
          panicked := RateLimitGate();
          return;
        }
      }
      if call.sent == "" || want == "" || call.sent != want {
        Refuse(CsrfMismatch);
        return false;
      }
      panicked := RateLimitGate();
    }

    /** The refusal of the first inner gate that does not hold. */
    ghost function InnerProblem(): Option<Problem>
      reads s
    {
      if !CsrfHolds(meta, call, s.decoded, s.values) then Some(CsrfMismatch)
      else if !RateHolds(meta, call) then Some(TooManyAttempts)
      else None
    }

    method RoleGate() returns (panicked: bool)
      requires NeedsSession(meta) ==> user == s.values.user && user.Some? && user.value in db.users
      modifies this`problems, this`runs
      ensures var first := if !NeedsSession(meta) || RoleHolds(meta, db.Rows(), s.values) then InnerProblem()
                           else if OpRole(meta).None? then Some(NoRequirement) else Some(WrongRole);
              && runs == old(runs) + (if first.None? then 1 else 0)
              && problems == old(problems) + (if first.None? then [] else [first.value])
              && panicked == (first.None? && call.panics)
    {
      if OpAuth(meta) == AUTH_PUBLIC || OpAuth(meta) == AUTH_OPTIONAL {
        panicked := CsrfGate();
        return;
      }
      var role := OpRole(meta);
      if role.None? {
        Refuse(NoRequirement);
        return false;
      }
      if !RoleAllows(db.users[user.value].role, role.value) {
        Refuse(WrongRole);
        return false;
      }
      panicked := CsrfGate();
    }

    /**
      Fail-closed: without an auth mode the session must be accepted. The cookies
      written are those of the log-in gate of the rendered pages; a public or
      optional operation writes none here, and an optional one never refuses.
     */
    method SessionGate() returns (panicked: bool)
      requires user == None
      modifies this`problems, this`runs, this`user, s, db`log
      ensures NeedsSession(meta) ==>
                Out(db.Rows(), s.values, s.saved)
                == Gate(old(Out(db.Rows(), s.values, s.saved)), s.decoded, now).out
      ensures !NeedsSession(meta) ==> db.Rows() == old(db.Rows()) && s.saved == old(s.saved)
      ensures OpAuth(meta) == AUTH_PUBLIC ==> user == None && s.values == old(s.values)
      ensures OpAuth(meta) == AUTH_OPTIONAL ==>
                (user.Some? <==> s.decoded && Accepts(db.Rows(), old(s.values), now))
      ensures old(InnerPasses()) ==> runs == old(runs) + 1 && problems == old(problems) && panicked == call.panics
      ensures !old(InnerPasses()) ==> runs == old(runs) && |problems| == |old(problems)| + 1 && !panicked
      ensures !SessionHolds(meta, old(db.Rows()), s.decoded, old(s.values), now) ==> problems == old(problems) + [AuthRequired]
    {
      var mode := OpAuth(meta);
      if mode == AUTH_PUBLIC {
        panicked := RoleGate();
        return;
      }
      if mode == AUTH_OPTIONAL {
        panicked := OptionalSession();
        return;
      }
      panicked := RequiredSession();
    }

    /** Validated without sliding; refused or not, the request goes on. */
    method OptionalSession() returns (panicked: bool)
      requires user == None && OpAuth(meta) == AUTH_OPTIONAL
      modifies this`problems, this`runs, this`user, s`values
      ensures user.Some? <==> s.decoded && Accepts(db.Rows(), old(s.values), now)
      ensures old(InnerPasses()) ==> runs == old(runs) + 1 && problems == old(problems) && panicked == call.panics
      ensures !old(InnerPasses()) ==> runs == old(runs) && |problems| == |old(problems)| + 1 && !panicked
    {
      var reason, clear := s.Validate(db, now, false);
      if reason == Accepted {
        user := s.values.user;
      }
      panicked := RoleGate();
    }

    method RequiredSession() returns (panicked: bool)
      requires user == None && NeedsSession(meta)
      modifies this`problems, this`runs, this`user, s, db`log
      ensures Out(db.Rows(), s.values, s.saved) == Gate(old(Out(db.Rows(), s.values, s.saved)), s.decoded, now).out
      ensures old(InnerPasses()) ==> runs == old(runs) + 1 && problems == old(problems) && panicked == call.panics
      ensures !old(InnerPasses()) ==> runs == old(runs) && |problems| == |old(problems)| + 1 && !panicked
      ensures !(s.decoded && Accepts(old(db.Rows()), old(s.values), now)) ==> problems == old(problems) + [AuthRequired]
    {
      var reason, clear := s.Validate(db, now, true);
      if reason != Accepted {
        if clear {
          s.values := Empty;
          s.Save();
        }
        Refuse(AuthRequired);
        return false;
      }
      db.Record(Slide(s.values.user.value, now, s.values.csrf));
      s.Save();
      user := s.values.user;
      panicked := RoleGate();
    }

    /** All gates from the session gate on. */
    ghost predicate InnerPasses()
      reads db, s
    {
      && SessionHolds(meta, db.Rows(), s.decoded, s.values, now)
      && RoleHolds(meta, db.Rows(), s.values)
      && CsrfHolds(meta, call, s.decoded, s.values)
      && RateHolds(meta, call)
    }

    /** A panic below becomes one problem document. */
    method RecoverGate()
      requires user == None
      modifies this`problems, this`runs, this`user, s, db`log
      ensures old(InnerPasses()) ==>
                runs == old(runs) + 1 && problems == old(problems) + if call.panics then [Crashed] else []
      ensures !old(InnerPasses()) ==> runs == old(runs) && |problems| == |old(problems)| + 1
    {
      var panicked := SessionGate();
      if panicked {
        Refuse(Crashed);
      }
    }

    /**
      The whole chain: the handler is entered, once, exactly when every gate holds;
      otherwise exactly one refusal is written and it is not entered at all.
     */
    method Serve()
      requires user == None && problems == [] && runs == 0
      modifies this`problems, this`runs, this`user, s, db`log
      ensures runs == 1 <==> old(Passed())
      ensures runs == 0 <==> !old(Passed())
      ensures old(Passed()) ==> problems == if call.panics then [Crashed] else []
      ensures !old(Passed()) ==> |problems| == 1
      ensures call.contentLength > MAX_BODY ==> problems == [TooLarge] && s.saved == old(s.saved)
    {
      if call.contentLength > MAX_BODY {
        Refuse(TooLarge);
        return;
      }
      RecoverGate();
    }
  }
}
