/**
  ALLOWED_DOMAIN_SUFFIXES: how the list is read (backend/config/config.go) and how
  a name is judged by it (backend/handlers/cert_ops.go). The code compares bytes;
  the theorem says the comparison is one of label lists. Case and white space are
  those of ASCII.
 */
module DomainPolicy {
  import opened Text

  // ---------- checkDomainPolicy ----------

  function NormalizedName(domain: string): string {
    ToLower(TrimSuffix(TrimPrefix(TrimSpace(domain), "*."), "."))
  }

  /** The byte-level test the loop makes for one suffix. */
  predicate Covers(suffix: string, name: string) {
    name == suffix || HasSuffix(name, "." + suffix)
  }

  /** True when the name is let through; the loop stops at the first suffix that covers it. */
  predicate CheckDomainPolicy(domain: string, suffixes: seq<string>) {
    |suffixes| == 0 || CoveredByAny(NormalizedName(domain), suffixes)
  }

  predicate CoveredByAny(name: string, suffixes: seq<string>) {
    if |suffixes| == 0 then false
    else if Covers(suffixes[0], name) then true
    else CoveredByAny(name, suffixes[1..])
  }

  // ---------- the reference reading: labels ----------

  function Labels(name: string): seq<string> {
    Split(name, '.')
  }

  predicate EndsWithLabels(labels: seq<string>, tail: seq<string>) {
    |tail| <= |labels| && labels[|labels| - |tail|..] == tail
  }

  /** The operator has authority over the name: some configured suffix is a tail of its labels. */
  predicate InPolicy(domain: string, suffixes: seq<string>) {
    |suffixes| == 0
    || exists i | 0 <= i < |suffixes| :: EndsWithLabels(Labels(NormalizedName(domain)), Labels(suffixes[i]))
  }

  lemma CoveredEndsWithLabels(front: string, suffix: string)
    ensures EndsWithLabels(Labels(front + "." + suffix), Labels(suffix))
  {
    assert front + "." + suffix == front + ['.'] + suffix;
    SplitConcat(front, suffix, '.');
  }

  lemma SuffixOfSum(head: string, dot: string, tail: string)
    ensures HasSuffix(head + dot + tail, dot + tail)
  {
    assert head + dot + tail == head + (dot + tail);
  }

  lemma EndsWithLabelsCovered(name: string, suffix: string)
    requires EndsWithLabels(Labels(name), Labels(suffix)) && Labels(name) != Labels(suffix)
    ensures HasSuffix(name, "." + suffix)
  {
    var l, t := Labels(name), Labels(suffix);
    var front := l[..|l| - |t|];
    assert l == front + t && |front| >= 1;
    JoinSplit(name, '.');
    JoinSplit(suffix, '.');
    JoinConcat(front, t, '.');
    SuffixOfSum(Join(front, '.'), ['.'], suffix);
  }

  /** For all strings, the byte test is the label test. */
  lemma CoversIsLabelTail(suffix: string, name: string)
    ensures Covers(suffix, name) <==> EndsWithLabels(Labels(name), Labels(suffix))
  {
    if HasSuffix(name, "." + suffix) {
      var front := name[..|name| - |suffix| - 1];
      assert name == front + "." + suffix by { assert name == front + name[|front|..]; }
      CoveredEndsWithLabels(front, suffix);
    }
    if Labels(name) == Labels(suffix) {
      JoinSplit(name, '.');
      JoinSplit(suffix, '.');
    } else if EndsWithLabels(Labels(name), Labels(suffix)) {
      EndsWithLabelsCovered(name, suffix);
    }
  }

  lemma {:induction false} CoveredByAnyExact(name: string, suffixes: seq<string>)
    ensures CoveredByAny(name, suffixes)
       <==> exists i | 0 <= i < |suffixes| :: EndsWithLabels(Labels(name), Labels(suffixes[i]))
  {
    if |suffixes| > 0 {
      CoversIsLabelTail(suffixes[0], name);
      CoveredByAnyExact(name, suffixes[1..]);
      assert forall i | 1 <= i < |suffixes| :: suffixes[i] == suffixes[1..][i - 1];
    }
  }

  lemma PolicyExact(domain: string, suffixes: seq<string>)
    ensures CheckDomainPolicy(domain, suffixes) <==> InPolicy(domain, suffixes)
  {
    CoveredByAnyExact(NormalizedName(domain), suffixes);
  }

  /** A label that merely ends with the suffix's text is not authority over it. */
  lemma LookalikeRefused(more: string, suffix: string)
    requires more != "" && SepFree(more, '.')
    ensures !Covers(suffix, more + suffix)
  {
    var name := more + suffix;
    assert name[|more| - 1..][0] == more[|more| - 1] != '.';
  }

  // ---------- getEnvList ----------

  function Entry(part: string): string {
    TrimPrefix(ToLower(TrimSpace(part)), ".")
  }

  function Entries(parts: seq<string>): (out: seq<string>)
    ensures forall i | 0 <= i < |out| :: out[i] != ""
  {
    if |parts| == 0 then []
    else
      var init := Entries(parts[..|parts| - 1]);
      var entry := Entry(parts[|parts| - 1]);
      if entry != "" then init + [entry] else init
  }

  method GetEnvList(raw: string) returns (out: seq<string>)
    ensures out == Entries(Split(raw, ','))
  {
    if TrimSpace(raw) == "" {
      BlankHasNoEntries(raw);
      return [];
    }
    out := [];
    var parts := Split(raw, ',');
    for i := 0 to |parts|
      invariant out == Entries(parts[..i])
    {
      var entry := Entry(parts[i]);
      assert parts[..i + 1][..i] == parts[..i];
      if entry != "" {
        out := out + [entry];
      }
    }
    assert parts[..|parts|] == parts;
  }

  predicate AllSpace(s: string) {
    forall i | 0 <= i < |s| :: IsSpace(s[i])
  }

  lemma {:induction false} TrimLeftSplits(s: string)
    ensures |TrimLeft(s)| <= |s| && s[|s| - |TrimLeft(s)|..] == TrimLeft(s)
    ensures AllSpace(s[..|s| - |TrimLeft(s)|])
    ensures TrimLeft(s) != "" ==> !IsSpace(TrimLeft(s)[0])
  {
    if s != "" && IsSpace(s[0]) {
      TrimLeftSplits(s[1..]);
      var n := |s| - |TrimLeft(s)|;
      assert s[n..] == s[1..][n - 1..];
      assert forall i | 1 <= i < n :: s[..n][i] == s[1..][..n - 1][i - 1];
    }
  }

  lemma {:induction false} TrimRightEmpty(s: string)
    ensures TrimRight(s) == "" <==> AllSpace(s)
  {
    if s != "" {
      TrimRightEmpty(s[..|s| - 1]);
    }
  }

  lemma TrimSpaceEmpty(s: string)
    ensures TrimSpace(s) == "" <==> AllSpace(s)
  {
    TrimLeftSplits(s);
    TrimRightEmpty(TrimLeft(s));
    var n := |s| - |TrimLeft(s)|;
    assert s == s[..n] + TrimLeft(s);
  }

  lemma BlankHasNoEntries(raw: string)
    requires TrimSpace(raw) == ""
    ensures Entries(Split(raw, ',')) == []
  {
    TrimSpaceEmpty(raw);
    SplitSepFree(raw, ',');
    assert [raw][..0] == [];
  }

  lemma {:induction false} NoEntriesIff(parts: seq<string>)
    ensures Entries(parts) == [] <==> forall i | 0 <= i < |parts| :: Entry(parts[i]) == ""
  {
    if |parts| > 0 {
      NoEntriesIff(parts[..|parts| - 1]);
    }
  }

  /**
    When a setting restricts nothing: every comma-separated part is blank or a
    single dot. A setting of "," therefore leaves issuance unrestricted.
   */
  lemma UnrestrictedIff(raw: string, domain: string)
    ensures Entries(Split(raw, ',')) == []
       <==> forall i | 0 <= i < |Split(raw, ',')| :: TrimSpace(Split(raw, ',')[i]) in {"", "."}
    ensures Entries(Split(raw, ',')) == [] ==> CheckDomainPolicy(domain, Entries(Split(raw, ',')))
  {
    var parts := Split(raw, ',');
    NoEntriesIff(parts);
    forall i | 0 <= i < |parts| ensures Entry(parts[i]) == "" <==> TrimSpace(parts[i]) in {"", "."} {
      var t := TrimSpace(parts[i]);
      if Entry(parts[i]) == "" && t != "" {
        assert ToLower(t)[0] == LowerChar(t[0]) == '.' && |t| == 1;
        assert t == [t[0]];
      }
      if t == "." {
        assert ToLower(t) == ".";
      }
    }
  }

  // ---------- which spellings are one name ----------

  /** Nothing to trim at either end. */
  predicate Tight(s: string) {
    s != "" && !IsSpace(s[0]) && !IsSpace(s[|s| - 1])
  }

  lemma {:induction false} TrimLeftPadding(pad: string, core: string)
    requires AllSpace(pad) && core != "" && !IsSpace(core[0])
    ensures TrimLeft(pad + core) == core
  {
    if pad == "" {
      assert pad + core == core;
    } else {
      assert (pad + core)[1..] == pad[1..] + core;
      TrimLeftPadding(pad[1..], core);
    }
  }

  lemma {:induction false} TrimRightPadding(core: string, pad: string)
    requires AllSpace(pad) && core != "" && !IsSpace(core[|core| - 1])
    ensures TrimRight(core + pad) == core
  {
    if pad == "" {
      assert core + pad == core;
    } else {
      var n := |pad| - 1;
      assert (core + pad)[..|core + pad| - 1] == core + pad[..n];
      TrimRightPadding(core, pad[..n]);
    }
  }

  lemma TrimSpacePadding(left: string, core: string, right: string)
    requires AllSpace(left) && AllSpace(right) && Tight(core)
    ensures TrimSpace(left + core + right) == core
  {
    assert left + core + right == left + (core + right);
    TrimLeftPadding(left, core + right);
    TrimRightPadding(core, right);
  }

  /** A host name, its wildcard and its absolute spelling, padded or not, are judged as one lower-case name. */
  lemma OneName(left: string, name: string, right: string, wildcard: bool, absolute: bool)
    requires AllSpace(left) && AllSpace(right) && Tight(name)
    requires name[0] != '*' && name[|name| - 1] != '.'
    ensures NormalizedName(left + (if wildcard then "*." else "") + name + (if absolute then "." else "") + right)
            == ToLower(name)
  {
    var before, after := if wildcard then "*." else "", if absolute then "." else "";
    var core := before + name + after;
    assert core[0] == if wildcard then '*' else name[0];
    assert core[|core| - 1] == if absolute then '.' else name[|name| - 1];
    TrimSpacePadding(left, core, right);
    assert left + before + name + after + right == left + core + right;
    WildcardGoes(before, name, after);
    DotGoes(name, after);
  }

  lemma WildcardGoes(before: string, name: string, after: string)
    requires before in {"", "*."} && name != "" && name[0] != '*'
    ensures TrimPrefix(before + name + after, "*.") == name + after
  {
    var core := before + name + after;
    if before == "" {
      assert core == name + after && core[0] == name[0];
    } else {
      assert core[..2] == "*." && core[2..] == name + after;
    }
  }

  lemma DotGoes(name: string, after: string)
    requires after in {"", "."} && name != "" && name[|name| - 1] != '.'
    ensures TrimSuffix(name + after, ".") == name
  {
    if after == "" {
      assert name + after == name && name[|name| - 1..] == [name[|name| - 1]];
    } else {
      assert (name + after)[|name|..] == "." && (name + after)[..|name|] == name;
    }
  }

  /** An entry of the list, padded or with a leading dot, is its lower-case name. */
  lemma OneEntry(left: string, name: string, right: string, dotted: bool)
    requires AllSpace(left) && AllSpace(right) && Tight(name) && name[0] != '.'
    ensures Entry(left + (if dotted then "." else "") + name + right) == ToLower(name)
  {
    var core := (if dotted then "." else "") + name;
    assert core[0] == if dotted then '.' else name[0];
    assert core[|core| - 1] == name[|name| - 1];
    TrimSpacePadding(left, core, right);
    assert left + (if dotted then "." else "") + name + right == left + core + right;
    assert ToLower(core) == (if dotted then "." else "") + ToLower(name);
    if dotted {
      assert ToLower(core)[..1] == "." && ToLower(core)[1..] == ToLower(name);
    } else {
      assert ToLower(core)[0] == LowerChar(name[0]) != '.';
    }
  }
}
