/**
  The host-name pattern that guards every name on its way to a CA
  (backend/handlers/identifiers.go, and its copy in backend/le/lego.go). The
  pattern is modelled as a regular expression with its language given by
  existential splits; the theorem says which label lists that language is.
 */
module Hostnames {
  import opened Common
  import opened Text
  import Paths

  // ---------- regular expressions ----------

  datatype Class = Exactly(c: char) | Alnum | AlnumOrDash

  predicate InClass(c: char, k: Class) {
    match k
    case Exactly(d) => c == d
    case Alnum => IsAlnum(c)
    case AlnumOrDash => IsAlnum(c) || c == '-'
  }

  predicate IsAlnum(c: char) {
    'A' <= c <= 'Z' || 'a' <= c <= 'z' || '0' <= c <= '9'
  }

  datatype Regex =
    | One(k: Class)
    | Cat(a: Regex, b: Regex)
    | Opt(r: Regex)
    | Star(r: Regex)

  ghost predicate Matches(re: Regex, s: string)
    decreases |s|, re
  {
    match re
    case One(k) => |s| == 1 && InClass(s[0], k)
    case Cat(a, b) => exists i | 0 <= i <= |s| :: Matches(a, s[..i]) && Matches(b, s[i..])
    case Opt(r) => s == "" || Matches(r, s)
    case Star(r) => s == "" || exists i | 0 < i <= |s| :: Matches(r, s[..i]) && Matches(re, s[i..])
  }

  /** `[A-Za-z0-9]([A-Za-z0-9\-]*[A-Za-z0-9])?` */
  const LABEL := Cat(One(Alnum), Opt(Cat(Star(One(AlnumOrDash)), One(Alnum))))

  const DOT_LABEL := Cat(One(Exactly('.')), LABEL)

  /** `(\.LABEL)*` */
  const MORE_LABELS := Star(DOT_LABEL)

  /** `^(\*\.)?LABEL(\.LABEL)*$` */
  const HOSTNAME := Cat(Opt(Cat(One(Exactly('*')), One(Exactly('.')))), Cat(LABEL, MORE_LABELS))

  // ---------- the reference reading: labels ----------

  predicate ValidLabel(s: string) {
    && s != ""
    && IsAlnum(s[0]) && IsAlnum(s[|s| - 1])
    && forall i | 0 <= i < |s| :: IsAlnum(s[i]) || s[i] == '-'
  }

  predicate ValidLabels(labels: seq<string>) {
    forall i | 0 <= i < |labels| :: ValidLabel(labels[i])
  }

  /** An optional "*." and then dot-joined labels that start and end alphanumeric. */
  predicate IsHostname(s: string) {
    ValidLabels(Split(s, '.')) || (HasPrefix(s, "*.") && ValidLabels(Split(s[2..], '.')))
  }

  // ---------- the pattern accepts exactly those ----------

  lemma CatMatches(a: Regex, b: Regex, x: string, y: string)
    requires Matches(a, x) && Matches(b, y)
    ensures Matches(Cat(a, b), x + y)
  {
    assert (x + y)[..|x|] == x && (x + y)[|x|..] == y;
  }

  lemma CatSplits(a: Regex, b: Regex, s: string) returns (x: string, y: string)
    requires Matches(Cat(a, b), s)
    ensures s == x + y && Matches(a, x) && Matches(b, y)
  {
    var i :| 0 <= i <= |s| && Matches(a, s[..i]) && Matches(b, s[i..]);
    x, y := s[..i], s[i..];
  }

  lemma StarMatches(r: Regex, x: string, y: string)
    requires x != "" && Matches(r, x) && Matches(Star(r), y)
    ensures Matches(Star(r), x + y)
  {
    assert (x + y)[..|x|] == x && (x + y)[|x|..] == y;
  }

  lemma StarSplits(r: Regex, s: string) returns (x: string, y: string)
    requires s != "" && Matches(Star(r), s)
    ensures x != "" && s == x + y && Matches(r, x) && Matches(Star(r), y)
  {
    var i :| 0 < i <= |s| && Matches(r, s[..i]) && Matches(Star(r), s[i..]);
    x, y := s[..i], s[i..];
  }

  predicate AllInClass(s: string, k: Class) {
    forall i | 0 <= i < |s| :: InClass(s[i], k)
  }

  lemma {:induction false} StarOfClass(k: Class, s: string)
    ensures Matches(Star(One(k)), s) <==> AllInClass(s, k)
    decreases |s|
  {
    if s != "" {
      if Matches(Star(One(k)), s) {
        var x, y := StarSplits(One(k), s);
        StarOfClass(k, y);
      }
      if AllInClass(s, k) {
        StarOfClass(k, s[1..]);
        StarMatches(One(k), [s[0]], s[1..]);
        assert s == [s[0]] + s[1..];
      }
    }
  }

  lemma LabelTail(s: string)
    ensures Matches(Cat(Star(One(AlnumOrDash)), One(Alnum)), s)
       <==> s != "" && IsAlnum(s[|s| - 1]) && AllInClass(s, AlnumOrDash)
  {
    if Matches(Cat(Star(One(AlnumOrDash)), One(Alnum)), s) {
      var x, y := CatSplits(Star(One(AlnumOrDash)), One(Alnum), s);
      StarOfClass(AlnumOrDash, x);
    }
    if s != "" && IsAlnum(s[|s| - 1]) && AllInClass(s, AlnumOrDash) {
      LabelTailMade(s[..|s| - 1], s[|s| - 1]);
      assert s == s[..|s| - 1] + [s[|s| - 1]];
    }
  }

  lemma LabelTailMade(init: string, last: char)
    requires AllInClass(init, AlnumOrDash) && IsAlnum(last)
    ensures Matches(Cat(Star(One(AlnumOrDash)), One(Alnum)), init + [last])
  {
    StarOfClass(AlnumOrDash, init);
    CatMatches(Star(One(AlnumOrDash)), One(Alnum), init, [last]);
  }

  lemma LabelPattern(s: string)
    ensures Matches(LABEL, s) <==> ValidLabel(s)
  {
    var tail := Opt(Cat(Star(One(AlnumOrDash)), One(Alnum)));
    if Matches(LABEL, s) {
      var x, y := CatSplits(One(Alnum), tail, s);
      LabelTail(y);
    }
    if ValidLabel(s) {
      LabelTail(s[1..]);
      CatMatches(One(Alnum), tail, [s[0]], s[1..]);
      assert s == [s[0]] + s[1..];
    }
  }

  lemma ValidLabelHasNoDot(s: string)
    requires ValidLabel(s)
    ensures SepFree(s, '.') && Split(s, '.') == [s]
  {
    SplitSepFree(s, '.');
  }

  /** `(\.LABEL)*` reads a dot and then dot-joined labels, or nothing. */
  predicate DottedLabels(s: string) {
    s == "" || (s[0] == '.' && ValidLabels(Split(s[1..], '.')))
  }

  lemma {:induction false} MoreLabelsPattern(s: string)
    ensures Matches(MORE_LABELS, s) <==> DottedLabels(s)
    decreases |s|
  {
    if s != "" {
      if Matches(MORE_LABELS, s) {
        var x, rest := StarSplits(DOT_LABEL, s);
        var dot, part := CatSplits(One(Exactly('.')), LABEL, x);
        LabelPattern(part);
        MoreLabelsPattern(rest);
        DotThenLabel(part, rest);
        assert dot == ['.'] && s == ['.'] + part + rest;
      }
      if DottedLabels(s) {
        JoinSplit(s[1..], '.');
        LabelsMakeMore(Split(s[1..], '.'));
        assert s == ['.'] + s[1..];
      }
    }
  }

  lemma LabelThenDotted(part: string, rest: string)
    requires ValidLabel(part) && DottedLabels(rest)
    ensures ValidLabels(Split(part + rest, '.'))
  {
    ValidLabelHasNoDot(part);
    if rest == "" {
      assert part + rest == part;
    } else {
      assert part + rest == part + ['.'] + rest[1..];
      SplitConcat(part, rest[1..], '.');
    }
  }

  lemma DotThenLabel(part: string, rest: string)
    requires ValidLabel(part) && DottedLabels(rest)
    ensures DottedLabels(['.'] + part + rest)
  {
    LabelThenDotted(part, rest);
    assert (['.'] + part + rest)[1..] == part + rest;
  }

  lemma {:induction false} LabelsMakeMore(labels: seq<string>)
    requires |labels| >= 1 && ValidLabels(labels)
    ensures Matches(MORE_LABELS, ['.'] + Join(labels, '.'))
    decreases |labels|
  {
    var first, rest := labels[0], labels[1..];
    LabelPattern(first);
    CatMatches(One(Exactly('.')), LABEL, ['.'], first);
    if |labels| == 1 {
      StarMatches(DOT_LABEL, ['.'] + first, "");
      assert ['.'] + first + "" == ['.'] + Join(labels, '.');
    } else {
      LabelsMakeMore(rest);
      StarMatches(DOT_LABEL, ['.'] + first, ['.'] + Join(rest, '.'));
      assert ['.'] + first + (['.'] + Join(rest, '.')) == ['.'] + Join(labels, '.');
    }
  }

  lemma LabelListPattern(s: string)
    ensures Matches(Cat(LABEL, MORE_LABELS), s) <==> ValidLabels(Split(s, '.'))
  {
    if Matches(Cat(LABEL, MORE_LABELS), s) {
      var part, rest := CatSplits(LABEL, MORE_LABELS, s);
      LabelPattern(part);
      MoreLabelsPattern(rest);
      LabelThenDotted(part, rest);
    }
    if ValidLabels(Split(s, '.')) {
      LabelsMatchList(Split(s, '.'));
      JoinSplit(s, '.');
    }
  }

  lemma LabelsMatchList(labels: seq<string>)
    requires |labels| >= 1 && ValidLabels(labels)
    ensures Matches(Cat(LABEL, MORE_LABELS), Join(labels, '.'))
  {
    LabelPattern(labels[0]);
    if |labels| == 1 {
      CatMatches(LABEL, MORE_LABELS, labels[0], "");
      assert labels[0] + "" == labels[0];
    } else {
      LabelsMakeMore(labels[1..]);
      CatMatches(LABEL, MORE_LABELS, labels[0], ['.'] + Join(labels[1..], '.'));
      assert labels[0] + (['.'] + Join(labels[1..], '.')) == Join(labels, '.');
    }
  }

  lemma StarDotPattern(s: string)
    ensures Matches(Opt(Cat(One(Exactly('*')), One(Exactly('.')))), s) <==> s == "" || s == ['*', '.']
  {
    if Matches(Cat(One(Exactly('*')), One(Exactly('.'))), s) {
      var x, y := CatSplits(One(Exactly('*')), One(Exactly('.')), s);
    }
    if s == ['*', '.'] {
      CatMatches(One(Exactly('*')), One(Exactly('.')), ['*'], ['.']);
      assert ['*'] + ['.'] == s;
    }
  }

  /** The pattern accepts exactly an optional "*." and dot-joined valid labels. */
  lemma HostnamePattern(s: string)
    ensures Matches(HOSTNAME, s) <==> IsHostname(s)
  {
    var wild := Opt(Cat(One(Exactly('*')), One(Exactly('.'))));
    var names := Cat(LABEL, MORE_LABELS);
    if Matches(HOSTNAME, s) {
      var x, y := CatSplits(wild, names, s);
      StarDotPattern(x);
      LabelListPattern(y);
      assert x == "" ==> y == s;
    }
    if ValidLabels(Split(s, '.')) {
      StarDotPattern("");
      LabelListPattern(s);
      CatMatches(wild, names, "", s);
      assert "" + s == s;
    }
    if HasPrefix(s, "*.") && ValidLabels(Split(s[2..], '.')) {
      StarDotPattern(['*', '.']);
      LabelListPattern(s[2..]);
      CatMatches(wild, names, ['*', '.'], s[2..]);
      assert ['*', '.'] + s[2..] == s;
    }
  }

  // ---------- the guards built on the pattern ----------

  /** The pattern test is written as the label test that HostnamePattern proves it to be. */
  predicate ValidateIdentifier(id: string) {
    id != "" && !HasPrefix(id, "-") && IsHostname(id)
  }

  const LE_DIRECTORY := "/opt/step-ui/le-certs"

  function CertDirFor(domain: string): Result<string> {
    if domain == "" then Err
    else if |domain| > 253 then Err
    else if !IsHostname(domain) then Err
    else Ok(Paths.JoinPath(LE_DIRECTORY, domain))
  }

  lemma HostnameChars(s: string)
    requires IsHostname(s)
    ensures s != "" && SepFree(s, '/') && (IsAlnum(s[0]) || HasPrefix(s, "*."))
  {
    var tail := if ValidLabels(Split(s, '.')) then s else s[2..];
    var labels := Split(tail, '.');
    JoinSplit(tail, '.');
    JoinChars(labels);
    assert tail[0] == labels[0][0];
    assert s == tail || s == "*." + tail;
  }

  lemma {:induction false} JoinChars(labels: seq<string>)
    requires |labels| >= 1 && ValidLabels(labels)
    ensures Join(labels, '.') != "" && SepFree(Join(labels, '.'), '/')
  {
    if |labels| > 1 {
      JoinChars(labels[1..]);
    }
  }

  /** An accepted identifier is one path component, and the tests before the pattern are implied by it. */
  lemma IdentifierIsOneComponent(id: string)
    ensures ValidateIdentifier(id) <==> Matches(HOSTNAME, id)
    ensures ValidateIdentifier(id) ==> Paths.Normal(id)
  {
    HostnamePattern(id);
    if IsHostname(id) {
      HostnameChars(id);
    }
  }

  const LE_ROOT := ["opt", "step-ui", "le-certs"]

  lemma LeDirectoryComponents()
    ensures LE_DIRECTORY == Paths.AbsString(LE_ROOT) && Paths.AllNormal(LE_ROOT)
  {
    assert Join(LE_ROOT[1..], '/') == "step-ui/le-certs";
  }

  /** certDirFor adds exactly one component below its root, for accepted names up to 253 bytes. */
  lemma CertDirOneComponent(domain: string)
    ensures CertDirFor(domain)
            == if Matches(HOSTNAME, domain) && |domain| <= 253
               then Ok(Paths.AbsString(LE_ROOT + [domain])) else Err
  {
    LeDirectoryComponents();
    HostnamePattern(domain);
    if IsHostname(domain) {
      IdentifierIsOneComponent(domain);
      Paths.JoinOneComponent(LE_ROOT, domain);
    }
  }
}
