/**
  Lexical path containment (backend/handlers/pathsafe.go). `Clean`, `Join` and
  `Abs` are Go's path/filepath functions on a Unix system: split at '/', run a
  component stack, join. The guards themselves compare plain strings; the
  theorems say what those comparisons mean for component lists.
 */
module Paths {
  import opened Common
  import opened Text

  const SEP := '/'

  /** A component that survives cleaning anywhere: not empty, not "." and not "..". */
  predicate Normal(c: string) {
    c != "" && c != "." && c != ".." && SepFree(c, SEP)
  }

  predicate AllNormal(cs: seq<string>) {
    forall i | 0 <= i < |cs| :: Normal(cs[i])
  }

  // ---------- path/filepath ----------

  function Push(stack: seq<string>, c: string, rooted: bool): seq<string> {
    if c == "" || c == "." then stack
    else if c == ".." then
      if |stack| > 0 && stack[|stack| - 1] != ".." then stack[..|stack| - 1]
      else if rooted then stack
      else stack + [c]
    else stack + [c]
  }

  function Fold(stack: seq<string>, cs: seq<string>, rooted: bool): seq<string>
    decreases |cs|
  {
    if cs == [] then stack else Fold(Push(stack, cs[0], rooted), cs[1..], rooted)
  }

  predicate IsAbs(path: string) {
    HasPrefix(path, "/")
  }

  /** The components of the cleaned path. */
  function Components(path: string): seq<string> {
    Fold([], Split(path, SEP), IsAbs(path))
  }

  /** The absolute path with the given components. */
  function AbsString(cs: seq<string>): string {
    "/" + Join(cs, SEP)
  }

  function Clean(path: string): string {
    var cs := Components(path);
    if IsAbs(path) then AbsString(cs)
    else if cs == [] then "."
    else Join(cs, SEP)
  }

  /** filepath.Join of two elements: empty ones are ignored. */
  function JoinPath(a: string, b: string): string {
    if a == "" && b == "" then ""
    else if a == "" then Clean(b)
    else if b == "" then Clean(a)
    else Clean(a + "/" + b)
  }

  /** filepath.Abs in a process whose working directory is `cwd`. */
  function Abs(cwd: string, path: string): string
    requires IsAbs(cwd)
  {
    if IsAbs(path) then Clean(path) else JoinPath(cwd, path)
  }

  // ---------- pathsafe.go ----------

  function ContainedPath(cwd: string, root: string, candidate: string): Result<string>
    requires IsAbs(cwd)
  {
    var absRoot := Abs(cwd, root);
    var rootPrefix := absRoot + "/";
    var rel := Clean(candidate);
    if rel == ".." || HasPrefix(rel, "../") then Err
    else if IsAbs(rel) then Err
    else
      var joined := JoinPath(absRoot, rel);
      var absCandidate := Abs(cwd, joined);
      if HasPrefix(absCandidate, rootPrefix) then Ok(absCandidate) else Err
  }

  function ContainedAbsPath(cwd: string, root: string, candidate: string): Result<string>
    requires IsAbs(cwd)
  {
    var absRoot := Abs(cwd, root);
    var absCandidate := Abs(cwd, candidate);
    if HasPrefix(absCandidate, absRoot + "/") then Ok(absCandidate) else Err
  }

  // ---------- the component stack ----------

  /** Shape of every cleaned component list: some leading "..", then normal components. */
  predicate Cleaned(cs: seq<string>, rooted: bool) {
    && AllSepFree(cs, SEP)
    && (forall i | 0 <= i < |cs| :: cs[i] == ".." || Normal(cs[i]))
    && (forall i | 0 <= i < |cs| && cs[i] == ".." :: !rooted && forall j | 0 <= j < i :: cs[j] == "..")
  }

  lemma {:induction false} FoldCleaned(stack: seq<string>, cs: seq<string>, rooted: bool)
    requires Cleaned(stack, rooted) && AllSepFree(cs, SEP)
    ensures Cleaned(Fold(stack, cs, rooted), rooted)
    decreases |cs|
  {
    if cs != [] {
      FoldCleaned(Push(stack, cs[0], rooted), cs[1..], rooted);
    }
  }

  lemma ComponentsCleaned(path: string)
    ensures Cleaned(Components(path), IsAbs(path))
    ensures IsAbs(path) ==> AllNormal(Components(path))
  {
    FoldCleaned([], Split(path, SEP), IsAbs(path));
  }

  lemma {:induction false} FoldConcat(stack: seq<string>, a: seq<string>, b: seq<string>, rooted: bool)
    ensures Fold(stack, a + b, rooted) == Fold(Fold(stack, a, rooted), b, rooted)
    decreases |a|
  {
    if a == [] {
      assert a + b == b;
    } else {
      assert (a + b)[1..] == a[1..] + b;
      FoldConcat(Push(stack, a[0], rooted), a[1..], b, rooted);
    }
  }

  /** Normal components are kept as they are. */
  lemma {:induction false} FoldNormal(stack: seq<string>, cs: seq<string>, rooted: bool)
    requires AllNormal(cs)
    ensures Fold(stack, cs, rooted) == stack + cs
    decreases |cs|
  {
    if cs != [] {
      FoldNormal(stack + [cs[0]], cs[1..], rooted);
    }
  }

  /** A cleaned relative list that starts with no ".." has only normal components. */
  lemma CleanedNormal(cs: seq<string>, rooted: bool)
    requires Cleaned(cs, rooted) && (|cs| == 0 || cs[0] != "..")
    ensures AllNormal(cs)
  {
    forall i | 0 <= i < |cs| ensures Normal(cs[i]) {
      assert |cs| > 0 && cs[0] != "..";
    }
  }

  // ---------- absolute strings and component lists ----------

  lemma AbsStringSplit(cs: seq<string>)
    requires AllSepFree(cs, SEP) && |cs| >= 1
    ensures Split(AbsString(cs), SEP) == [""] + cs
  {
    SplitConcat("", Join(cs, SEP), SEP);
    SplitJoin(cs, SEP);
    assert "" + [SEP] + Join(cs, SEP) == AbsString(cs);
  }

  lemma AbsStringComponents(cs: seq<string>)
    requires AllNormal(cs)
    ensures Components(AbsString(cs)) == cs
    ensures Clean(AbsString(cs)) == AbsString(cs)
  {
    var path := AbsString(cs);
    if cs == [] {
      assert path == "/";
      assert Split("/", SEP) == ["", ""] by { SplitConcat("", "", SEP); assert "" + [SEP] + "" == "/"; }
      assert Fold([], ["", ""], true) == Fold([], [""], true) == [];
    } else {
      AbsStringSplit(cs);
      assert ([""] + cs)[1..] == cs;
      FoldNormal([], cs, true);
    }
  }

  lemma PrefixGivesComponents(root: seq<string>, cs: seq<string>, rest: string)
    requires AllNormal(root) && AllNormal(cs) && root != [] && cs != []
    requires AbsString(cs) == AbsString(root) + [SEP] + rest
    ensures root < cs
  {
    PrefixSplits(AbsString(root), rest, root, cs);
    DropFirst(cs, root, Split(rest, SEP));
  }

  lemma PrefixSplits(r: string, rest: string, root: seq<string>, cs: seq<string>)
    requires AllNormal(root) && AllNormal(cs) && root != [] && cs != []
    requires r == AbsString(root) && AbsString(cs) == r + [SEP] + rest
    ensures [""] + cs == [""] + root + Split(rest, SEP)
  {
    SplitConcat(r, rest, SEP);
    AbsStringSplit(root);
    AbsStringSplit(cs);
  }

  lemma DropFirst(cs: seq<string>, root: seq<string>, more: seq<string>)
    requires [""] + cs == [""] + root + more && |more| >= 1
    ensures root < cs
  {
    assert cs == ([""] + cs)[1..] == ([""] + root + more)[1..] == root + more;
  }

  /** String prefixes at a separator boundary are exactly strict component prefixes. */
  lemma PrefixIsComponentPrefix(root: seq<string>, cs: seq<string>)
    requires AllNormal(root) && AllNormal(cs) && root != []
    ensures HasPrefix(AbsString(cs), AbsString(root) + "/") <==> root < cs
  {
    var r, c := AbsString(root), AbsString(cs);
    if HasPrefix(c, r + "/") {
      assert |c| > 1;
      assert c == r + [SEP] + c[|r| + 1..];
      PrefixGivesComponents(root, cs, c[|r| + 1..]);
    }
    if root < cs {
      var d := cs[|root|..];
      assert cs == root + d;
      JoinConcat(root, d, SEP);
      assert c == r + "/" + Join(d, SEP);
    }
  }

  lemma CleanNotEmpty(path: string)
    ensures Clean(path) != ""
  {
    var cs := Components(path);
    ComponentsCleaned(path);
    if !IsAbs(path) && cs != [] {
      assert cs[0] != "";
    }
  }

  lemma AbsIsAbsString(cwd: string, path: string)
    requires IsAbs(cwd)
    ensures exists cs :: AllNormal(cs) && Abs(cwd, path) == AbsString(cs)
  {
    var p := if IsAbs(path) then path else if path == "" then cwd else cwd + "/" + path;
    assert IsAbs(p);
    ComponentsCleaned(p);
    assert Abs(cwd, path) == AbsString(Components(p));
  }

  /** The components of an absolute path, wherever the process was started. */
  ghost function AbsComponents(cwd: string, path: string): (cs: seq<string>)
    requires IsAbs(cwd)
    ensures AllNormal(cs) && Abs(cwd, path) == AbsString(cs)
  {
    AbsIsAbsString(cwd, path);
    var cs :| AllNormal(cs) && Abs(cwd, path) == AbsString(cs);
    cs
  }

  lemma AbsStringInjective(a: seq<string>, b: seq<string>)
    requires AllNormal(a) && AllNormal(b) && AbsString(a) == AbsString(b)
    ensures a == b
  {
    AbsStringComponents(a);
    AbsStringComponents(b);
  }

  /** Cleaning twice is cleaning once. */
  lemma CleanIdempotent(path: string)
    ensures Clean(Clean(path)) == Clean(path)
  {
    var cs := Components(path);
    ComponentsCleaned(path);
    if IsAbs(path) {
      AbsStringComponents(cs);
    } else if cs == [] {
      assert Split(".", SEP) == ["."] by { SplitSepFree(".", SEP); }
      assert Fold([], ["."], false) == Fold([], [], false);
    } else {
      SplitJoin(cs, SEP);
      RelativeStaysRelative(cs);
      assert [] + cs == cs;
      FoldCleanedAgain([], cs);
    }
  }

  lemma RelativeStaysRelative(cs: seq<string>)
    requires Cleaned(cs, false) && cs != []
    ensures !IsAbs(Join(cs, SEP)) && Join(cs, SEP) != "" && Join(cs, SEP)[0] == cs[0][0]
  {
    assert cs[0] != "" && cs[0][0] != SEP;
    assert Join(cs, SEP)[0] == cs[0][0];
  }

  lemma {:induction false} FoldCleanedAgain(stack: seq<string>, cs: seq<string>)
    requires Cleaned(stack + cs, false)
    ensures Fold(stack, cs, false) == stack + cs
    decreases |cs|
  {
    if cs != [] {
      var c := cs[0];
      assert (stack + cs)[|stack|] == c;
      if c == ".." && |stack| > 0 {
        assert (stack + cs)[|stack| - 1] == "..";
      }
      assert Push(stack, c, false) == stack + [c];
      assert stack + [c] + cs[1..] == stack + cs;
      FoldCleanedAgain(stack + [c], cs[1..]);
    }
  }

  // ---------- main results ----------

  /** What `rel == ".." || HasPrefix(rel, "../")` tests: the first component. */
  lemma EscapesIffFirstDotDot(candidate: string)
    ensures Clean(candidate) == ".." || HasPrefix(Clean(candidate), "../")
       <==> !IsAbs(candidate) && Components(candidate) != [] && Components(candidate)[0] == ".."
    ensures IsAbs(Clean(candidate)) <==> IsAbs(candidate)
    ensures Clean(candidate) == "." <==> !IsAbs(candidate) && Components(candidate) == []
  {
    var cs := Components(candidate);
    var rel := Clean(candidate);
    ComponentsCleaned(candidate);
    if IsAbs(candidate) {
      assert rel[0] == SEP;
    } else if cs != [] {
      SplitJoin(cs, SEP);
      RelativeStaysRelative(cs);
      SplitSepFree(".", SEP);
      if rel == ".." {
        SplitSepFree("..", SEP);
      }
      if HasPrefix(rel, "../") {
        assert rel == ".." + [SEP] + rel[3..];
        SplitConcat("..", rel[3..], SEP);
        SplitSepFree("..", SEP);
      }
    } else {
      assert rel[0] == '.';
    }
  }

  lemma JoinUnderRoot(root: seq<string>, rel: string)
    requires AllNormal(root) && rel != "" && !IsAbs(rel)
    ensures JoinPath(AbsString(root), rel) == AbsString(Fold(root, Split(rel, SEP), true))
  {
    var r := AbsString(root);
    var whole := r + "/" + rel;
    assert whole == r + [SEP] + rel;
    SplitConcat(r, rel, SEP);
    AbsStringComponents(root);
    FoldConcat([], Split(r, SEP), Split(rel, SEP), true);
    assert Fold([], Split(r, SEP), true) == root;
  }

  /**
    containedPath accepts exactly the candidates whose cleaned form is relative,
    is not "." and does not begin with a ".." component; it then returns the
    root's components followed by the candidate's.
   */
  lemma ContainedPathExact(cwd: string, root: string, candidate: string)
    requires IsAbs(cwd) && Abs(cwd, root) != "/"
    ensures var cs := Components(candidate);
            var accepted := !IsAbs(candidate) && cs != [] && cs[0] != "..";
            ContainedPath(cwd, root, candidate)
            == if accepted then Ok(AbsString(AbsComponents(cwd, root) + cs)) else Err
  {
    var cs := Components(candidate);
    var r := AbsComponents(cwd, root);
    var rel := Clean(candidate);
    EscapesIffFirstDotDot(candidate);
    CleanNotEmpty(candidate);
    ComponentsCleaned(candidate);
    if !IsAbs(candidate) && (cs == [] || cs[0] != "..") {
      CleanedNormal(cs, false);
      JoinUnderRoot(r, rel);
      if cs == [] {
        SplitSepFree(".", SEP);
        assert Fold(r, ["."], true) == Fold(r, [], true) == r;
        assert r + [] == r;
      } else {
        SplitJoin(cs, SEP);
        FoldNormal(r, cs, true);
      }
      assert JoinPath(AbsString(r), rel) == AbsString(r + cs);
      assert AllNormal(r + cs);
      AbsStringComponents(r + cs);
      assert r != [];
      PrefixIsComponentPrefix(r, r + cs);
    }
  }

  /** containedAbsPath accepts exactly the strict component-wise descendants of its root. */
  lemma ContainedAbsPathExact(cwd: string, root: string, candidate: string)
    requires IsAbs(cwd) && Abs(cwd, root) != "/"
    ensures ContainedAbsPath(cwd, root, candidate)
            == if AbsComponents(cwd, root) < AbsComponents(cwd, candidate)
               then Ok(AbsString(AbsComponents(cwd, candidate))) else Err
  {
    PrefixIsComponentPrefix(AbsComponents(cwd, root), AbsComponents(cwd, candidate));
  }

  /** A sibling whose name merely continues the root's last component is never accepted. */
  lemma SiblingRefused(cwd: string, root: seq<string>, last: string, more: string, below: seq<string>)
    requires IsAbs(cwd) && AllNormal(root + [last]) && AllNormal([last + more] + below) && more != ""
    ensures ContainedAbsPath(cwd, AbsString(root + [last]), AbsString(root + [last + more] + below)).Err?
  {
    var r, c := root + [last], root + [last + more] + below;
    assert AllNormal(r);
    assert forall i | 0 <= i < |c| :: if i < |root| then c[i] == r[i] else c[i] == ([last + more] + below)[i - |root|];
    AbsStringComponents(r);
    AbsStringComponents(c);
    PrefixIsComponentPrefix(r, c);
    assert c[|root|] == last + more != last == r[|root|];
  }

  /** The one root the guards cannot be used with: nothing is ever inside "/". */
  lemma SlashRootRefusesEverything(cwd: string, root: string, candidate: string)
    requires IsAbs(cwd) && Abs(cwd, root) == "/"
    ensures ContainedPath(cwd, root, candidate).Err?
    ensures ContainedAbsPath(cwd, root, candidate).Err?
  {
    forall path: string ensures !HasPrefix(Abs(cwd, path), "//") {
      var cs := AbsComponents(cwd, path);
      var p := AbsString(cs);
      if cs != [] {
        assert p[1] == Join(cs, SEP)[0] == cs[0][0] != SEP;
      }
    }
    assert Abs(cwd, root) + "/" == "//";
  }

  /** What containedPath is for: the root and the cleaned components of a relative, non-escaping candidate. */
  ghost function Inside(cwd: string, root: string, candidate: string): Result<string>
    requires IsAbs(cwd)
  {
    var cs := Components(candidate);
    if !IsAbs(candidate) && cs != [] && cs[0] != ".." then Ok(AbsString(AbsComponents(cwd, root) + cs)) else Err
  }

  /** ... and containedAbsPath: the strict descendants. */
  ghost function Below(cwd: string, root: string, candidate: string): Result<string>
    requires IsAbs(cwd)
  {
    if AbsComponents(cwd, root) < AbsComponents(cwd, candidate) then Ok(AbsString(AbsComponents(cwd, candidate))) else Err
  }

  /** Both guards do what they are for exactly when the root is not "/" or there is nothing to let in. */
  lemma ContainmentExactWhen(cwd: string, root: string, candidate: string)
    requires IsAbs(cwd)
    ensures ContainedPath(cwd, root, candidate) == Inside(cwd, root, candidate)
       <==> Abs(cwd, root) != "/" || Inside(cwd, root, candidate).Err?
    ensures ContainedAbsPath(cwd, root, candidate) == Below(cwd, root, candidate)
       <==> Abs(cwd, root) != "/" || Below(cwd, root, candidate).Err?
  {
    if Abs(cwd, root) == "/" {
      SlashRootRefusesEverything(cwd, root, candidate);
    } else {
      ContainedPathExact(cwd, root, candidate);
      ContainedAbsPathExact(cwd, root, candidate);
    }
  }

  /** The file "a" is inside "/" and refused. */
  lemma SlashRootHere()
    ensures Inside("/", "/", "a") == Ok(AbsString(["a"])) && ContainedPath("/", "/", "a") == Err
  {
    AbsStringComponents([]);
    assert AbsString([]) == "/";
    AbsStringInjective(AbsComponents("/", "/"), []);
    OneNormalComponent("a");
    SlashRootRefusesEverything("/", "/", "a");
    assert [] + ["a"] == ["a"];
  }

  lemma OneNormalComponent(name: string)
    requires Normal(name)
    ensures !IsAbs(name) && Components(name) == [name]
  {
    SplitSepFree(name, SEP);
    assert name[0] in name;
    assert [name][1..] == [];
    assert Fold([], [name], false) == Fold(Push([], name, false), [], false);
  }

  // ---------- safeName and the paths IssuePost builds ----------

  predicate SafeChar(c: char) {
    'A' <= c <= 'Z' || 'a' <= c <= 'z' || '0' <= c <= '9' || c == '.' || c == '_' || c == '-'
  }

  /** `^[A-Za-z0-9._-]+$` */
  predicate SafeNamePattern(name: string) {
    name != "" && forall i | 0 <= i < |name| :: SafeChar(name[i])
  }

  /** filepath.Base: trailing separators dropped, then the last component. */
  function Base(path: string): string
    decreases |path|
  {
    if path == "" then "."
    else if path == "/" then "/"
    else if path[|path| - 1] == SEP then Base(path[..|path| - 1])
    else var parts := Split(path, SEP); parts[|parts| - 1]
  }

  function SafeName(name: string): Result<string> {
    if name == "" then Err
    else if name == "." || name == ".." then Err
    else if !SafeNamePattern(name) then Err
    else if Base(name) != name then Err
    else Ok(name)
  }

  /** safeName accepts exactly the allowlisted non-dot names; the Base test never adds a refusal. */
  lemma SafeNameExact(name: string)
    ensures SafeName(name) == if SafeNamePattern(name) && name != "." && name != ".." then Ok(name) else Err
    ensures SafeName(name).Ok? ==> Normal(name)
  {
    if SafeNamePattern(name) {
      assert SepFree(name, SEP);
      assert name[|name| - 1] != SEP;
      SplitSepFree(name, SEP);
    }
  }

  /** One normal component joined below any directory adds exactly that component. */
  lemma AbsJoin(cwd: string, dir: string, name: string)
    requires IsAbs(cwd) && Normal(name)
    ensures AbsComponents(cwd, JoinPath(dir, name)) == AbsComponents(cwd, dir) + [name]
  {
    var path := JoinPath(dir, name);
    AbsComponentsFold(cwd, dir);
    AbsComponentsFold(cwd, path);
    NormalIsRelative(name);
    SplitSepFree(name, SEP);
    if dir == "" {
      FoldNormal([], [name], false);
      FoldNormal(Components(cwd), [name], true);
    } else {
      var whole := dir + "/" + name;
      assert whole == dir + [SEP] + name;
      SplitConcat(dir, name, SEP);
      var rooted := IsAbs(dir);
      assert IsAbs(whole) == rooted;
      FoldConcat([], Split(dir, SEP), [name], rooted);
      assert Components(whole) == Components(dir) + [name];
      ComponentsCleaned(whole);
      if rooted {
        AbsStringComponents(Components(whole));
      } else {
        SplitJoin(Components(whole), SEP);
        RelativeStaysRelative(Components(whole));
        ComponentsCleaned(cwd);
        FoldThrough(Components(cwd), Split(whole, SEP));
        FoldConcat(Components(cwd), Split(dir, SEP), [name], true);
      }
    }
  }

  lemma NormalIsRelative(name: string)
    requires Normal(name)
    ensures !IsAbs(name) && Split(name, SEP) == [name]
  {
    assert name[0] != SEP;
    SplitSepFree(name, SEP);
  }

  lemma JoinOneComponent(root: seq<string>, name: string)
    requires AllNormal(root) && Normal(name)
    ensures JoinPath(AbsString(root), name) == AbsString(root + [name])
  {
    NormalIsRelative(name);
    JoinUnderRoot(root, name);
    FoldNormal(root, [name], true);
  }

  /** Where a path lands, in components. */
  lemma AbsComponentsFold(cwd: string, path: string)
    requires IsAbs(cwd)
    ensures AbsComponents(cwd, path)
            == if IsAbs(path) then Components(path) else Fold(Components(cwd), Split(path, SEP), true)
  {
    var cs := if IsAbs(path) then Components(path) else Fold(Components(cwd), Split(path, SEP), true);
    ComponentsCleaned(path);
    ComponentsCleaned(cwd);
    FoldCleaned(Components(cwd), Split(path, SEP), true);
    assert AllNormal(cs);
    if path == "" {
      assert cwd != "" && Fold(Components(cwd), [""], true) == Fold(Components(cwd), [], true);
    } else if !IsAbs(path) {
      var whole := cwd + "/" + path;
      assert whole == cwd + [SEP] + path;
      SplitConcat(cwd, path, SEP);
      FoldConcat([], Split(cwd, SEP), Split(path, SEP), true);
    }
    assert Abs(cwd, path) == AbsString(cs);
    AbsStringInjective(AbsComponents(cwd, path), cs);
  }

  /** Cleaning a relative path first does not change where it leads from a directory. */
  lemma {:induction false} FoldThroughStack(root: seq<string>, stack: seq<string>, cs: seq<string>)
    requires AllNormal(root) && Cleaned(stack, false) && AllSepFree(cs, SEP)
    ensures Fold(root, Fold(stack, cs, false), true) == Fold(Fold(root, stack, true), cs, true)
    decreases |cs|
  {
    if cs != [] {
      var c := cs[0];
      var next := Push(stack, c, false);
      FoldThroughStack(root, next, cs[1..]);
      if next == stack + [c] {
        FoldConcat(root, stack, [c], true);
        assert [c][1..] == [];
      } else if next != stack {
        assert stack == next + [stack[|stack| - 1]];
        FoldConcat(root, next, [stack[|stack| - 1]], true);
        FoldCleaned(root, next, true);
        FoldNormal(Fold(root, next, true), [stack[|stack| - 1]], true);
      }
      assert Fold(root, next, true) == Push(Fold(root, stack, true), c, true);
    }
  }

  lemma FoldThrough(root: seq<string>, cs: seq<string>)
    requires AllNormal(root) && AllSepFree(cs, SEP)
    ensures Fold(root, Fold([], cs, false), true) == Fold(root, cs, true)
  {
    FoldThroughStack(root, [], cs);
  }

  /**
    Every path IssuePost builds from an accepted name lies two components under
    the certificate directory and passes issueCert's containment check, whatever
    directory is configured other than "/".
   */
  lemma IssuePathsContained(cwd: string, certsDir: string, name: string, leaf: string)
    requires IsAbs(cwd) && Abs(cwd, certsDir) != "/"
    requires SafeName(name).Ok? && leaf in {"certificate.crt", "private.key"}
    ensures ContainedAbsPath(cwd, certsDir, JoinPath(JoinPath(certsDir, name), leaf))
            == Ok(AbsString(AbsComponents(cwd, certsDir) + [name, leaf]))
  {
    SafeNameExact(name);
    LeafNormal(leaf);
    TwoBelowContained(cwd, certsDir, name, leaf);
  }

  lemma LeafNormal(leaf: string)
    requires leaf in {"certificate.crt", "private.key"}
    ensures Normal(leaf)
  {
    assert |leaf| > 2 && SEP !in leaf;
  }

  lemma TwoBelowContained(cwd: string, dir: string, name: string, leaf: string)
    requires IsAbs(cwd) && Abs(cwd, dir) != "/" && Normal(name) && Normal(leaf)
    ensures ContainedAbsPath(cwd, dir, JoinPath(JoinPath(dir, name), leaf))
            == Ok(AbsString(AbsComponents(cwd, dir) + [name, leaf]))
  {
    AbsJoin(cwd, dir, name);
    AbsJoin(cwd, JoinPath(dir, name), leaf);
    var root := AbsComponents(cwd, dir);
    assert root + [name] + [leaf] == root + [name, leaf];
    ContainedAbsPathExact(cwd, dir, JoinPath(JoinPath(dir, name), leaf));
  }

  // ---------- userReturnTarget ----------

  const USERS_LIST := "/admin/users"

  function Digit(c: char): nat
    requires '0' <= c <= '9'
  {
    (c as int) - ('0' as int)
  }

  predicate Digits(s: string) {
    forall i | 0 <= i < |s| :: '0' <= s[i] <= '9'
  }

  /** strconv.Atoi on a digit string short enough not to overflow. */
  function Atoi(s: string): nat
    requires Digits(s)
  {
    if s == "" then 0 else 10 * Atoi(s[..|s| - 1]) + Digit(s[|s| - 1])
  }

  /** strconv.Itoa on a non-negative number. */
  function Itoa(n: nat): string {
    if n < 10 then [('0' as int + n) as char] else Itoa(n / 10) + [('0' as int + n % 10) as char]
  }

  function Pow10(k: nat): nat {
    if k == 0 then 1 else 10 * Pow10(k - 1)
  }

  /** The id captured by `^/admin/users(?:/([0-9]{1,18}))?$`, when there is one. */
  function CapturedId(candidate: string): Option<string> {
    if HasPrefix(candidate, USERS_LIST + "/") then
      var id := candidate[|USERS_LIST| + 1..];
      if 1 <= |id| <= 18 && Digits(id) then Some(id) else None
    else None
  }

  function UserReturnTarget(candidate: string): string {
    match CapturedId(candidate)
    case None => USERS_LIST
    case Some(digits) =>
      var id := Atoi(digits);
      if id <= 0 then USERS_LIST else USERS_LIST + "/" + Itoa(id)
  }

  lemma {:induction false} ItoaAtoi(n: nat, k: nat)
    requires k >= 1 && n < Pow10(k)
    ensures Digits(Itoa(n)) && 1 <= |Itoa(n)| <= k && Atoi(Itoa(n)) == n
  {
    if n < 10 {
      assert Itoa(n)[..0] == "";
    } else {
      ItoaAtoi(n / 10, k - 1);
      var s := Itoa(n);
      assert s[..|s| - 1] == Itoa(n / 10);
    }
  }

  lemma {:induction false} AtoiBound(s: string)
    requires Digits(s)
    ensures Atoi(s) < Pow10(|s|)
  {
    if s != "" {
      AtoiBound(s[..|s| - 1]);
    }
  }

  lemma {:induction false} Pow10Monotone(a: nat, b: nat)
    requires a <= b
    ensures Pow10(a) <= Pow10(b)
  {
    if a < b {
      Pow10Monotone(a, b - 1);
    }
  }

  /** The redirect target is the list or the list plus a positive integer rebuilt from its value. */
  lemma ReturnTargetImage(candidate: string)
    ensures var target := UserReturnTarget(candidate);
            target == USERS_LIST
            || exists id: nat :: 0 < id < Pow10(18) && target == USERS_LIST + "/" + Itoa(id)
  {
    match CapturedId(candidate)
    case None =>
    case Some(digits) =>
      AtoiBound(digits);
      Pow10Monotone(|digits|, 18);
      var id := Atoi(digits);
      if id > 0 {
        TargetOfId(candidate, id);
      }
  }

  lemma TargetOfId(candidate: string, id: nat)
    requires CapturedId(candidate).Some? && id == Atoi(CapturedId(candidate).value) && 0 < id < Pow10(18)
    ensures exists i: nat :: 0 < i < Pow10(18) && UserReturnTarget(candidate) == USERS_LIST + "/" + Itoa(i)
  {
    assert UserReturnTarget(candidate) == USERS_LIST + "/" + Itoa(id);
  }

  /** Every member of that image is a fixed point, so the mapping is idempotent. */
  lemma ReturnTargetFixed(id: nat)
    requires 0 < id < Pow10(18)
    ensures UserReturnTarget(USERS_LIST + "/" + Itoa(id)) == USERS_LIST + "/" + Itoa(id)
  {
    ItoaAtoi(id, 18);
    var target := USERS_LIST + "/" + Itoa(id);
    assert target[|USERS_LIST| + 1..] == Itoa(id);
  }

  /** "0" so many times. */
  function Zeros(n: nat): string {
    if n == 0 then "" else Zeros(n - 1) + ['0']
  }

  lemma {:induction false} ZerosAre(n: nat)
    ensures |Zeros(n)| == n && Digits(Zeros(n)) && Atoi(Zeros(n)) == 0
  {
    if n > 0 {
      ZerosAre(n - 1);
      assert Zeros(n)[..n - 1] == Zeros(n - 1);
    }
  }

  lemma {:induction false} ZerosCountNothing(zeros: string, digits: string)
    requires Digits(zeros) && Digits(digits) && Atoi(zeros) == 0
    ensures Digits(zeros + digits) && Atoi(zeros + digits) == Atoi(digits)
    decreases |digits|
  {
    if digits == "" {
      assert zeros + digits == zeros;
    } else {
      var k := |digits| - 1;
      ZerosCountNothing(zeros, digits[..k]);
      assert (zeros + digits)[..|zeros| + k] == zeros + digits[..k];
    }
  }

  lemma CapturedNumber(digits: string)
    requires Digits(digits) && 1 <= |digits| <= 18
    ensures CapturedId(USERS_LIST + "/" + digits) == Some(digits)
  {
    var candidate := USERS_LIST + "/" + digits;
    assert candidate[|USERS_LIST| + 1..] == digits;
  }

  /** A user's address, with or without leading zeros, goes to that user's page; the number 0 goes to the list. */
  lemma ReturnTargetOfNumber(zeros: nat, id: nat)
    requires id < Pow10(18) && zeros + |Itoa(id)| <= 18
    ensures UserReturnTarget(USERS_LIST + "/" + (Zeros(zeros) + Itoa(id)))
            == if id == 0 then USERS_LIST else USERS_LIST + "/" + Itoa(id)
  {
    ItoaAtoi(id, 18);
    ZerosAre(zeros);
    ZerosCountNothing(Zeros(zeros), Itoa(id));
    CapturedNumber(Zeros(zeros) + Itoa(id));
  }

  lemma ReturnTargetIdempotent(candidate: string)
    ensures UserReturnTarget(UserReturnTarget(candidate)) == UserReturnTarget(candidate)
  {
    ReturnTargetImage(candidate);
    var target := UserReturnTarget(candidate);
    if target != USERS_LIST {
      var id: nat :| 0 < id < Pow10(18) && target == USERS_LIST + "/" + Itoa(id);
      ReturnTargetFixed(id);
    }
  }
}
