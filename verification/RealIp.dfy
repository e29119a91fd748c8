/**
  Which client address the forwarding headers may claim
  (backend/middleware/realip.go). Addresses are byte strings of length 4 or 16, a
  mapped IPv4 address being its four bytes; parsing one from text is not modelled.
  Block membership is the byte-wise masked comparison, proved to be the range of
  section 3.1 of RFC 4632.
 */
module RealIp {
  import opened Common
  import opened Text

  type Byte = b: int | 0 <= b < 256

  type Address = s: seq<Byte> | |s| == 4 || |s| == 16 witness [0, 0, 0, 0]

  datatype RawBlock = Block(net: Address, prefix: nat)

  type Block = b: RawBlock | b.prefix <= 8 * |b.net| witness Block([0, 0, 0, 0], 0)

  datatype Parser = Parser(
    ip: string -> Option<Address>,       // net.ParseIP
    host: string -> Option<string>,      // the host of net.SplitHostPort
    cidr: string -> Option<Block>)       // the network of net.ParseCIDR

  // ---------- membership ----------

  function Pow2(n: nat): (p: nat)
    ensures p >= 1
  {
    if n == 0 then 1 else 2 * Pow2(n - 1)
  }

  /** Bitwise and. */
  function And(x: nat, y: nat): nat {
    if x == 0 || y == 0 then 0 else 2 * And(x / 2, y / 2) + (x % 2) * (y % 2)
  }

  /** Byte i of the mask with `prefix` leading ones: the complement of 255 shifted right. */
  function MaskByte(prefix: nat, i: nat): nat {
    if prefix >= 8 * i + 8 then 255
    else if prefix <= 8 * i then 0
    else 255 - 255 / Pow2(prefix - 8 * i)
  }

  /** The masked bytes agree, from byte i on. */
  predicate MaskedFrom(ip: seq<Byte>, net: seq<Byte>, prefix: nat, i: nat)
    requires |ip| == |net|
  {
    forall k | i <= k < |ip| :: And(ip[k], MaskByte(prefix, k)) == And(net[k], MaskByte(prefix, k))
  }

  predicate Contains(b: Block, ip: Address) {
    |ip| == |b.net| && MaskedFrom(ip, b.net, b.prefix, 0)
  }

  /** An address as a number, first byte most significant. */
  function Num(s: seq<Byte>): nat {
    if s == [] then 0 else s[0] * Pow2(8 * (|s| - 1)) + Num(s[1..])
  }

  // ---------- masks cut at powers of two ----------

  lemma {:induction false} Pow2Sum(a: nat, b: nat)
    ensures Pow2(a + b) == Pow2(a) * Pow2(b)
  {
    if a > 0 {
      Pow2Sum(a - 1, b);
    }
  }

  lemma MulMono(a: int, b: int, p: nat)
    requires a <= b
    ensures a * p <= b * p
  {
  }

  lemma QuotientIs(x: int, p: int, q: int, r: int)
    requires p > 0 && 0 <= r < p && x == q * p + r
    ensures x / p == q && x % p == r
  {
    var d := x / p;
    assert d * p <= x < d * p + p;
    assert d + 1 <= q ==> (d + 1) * p <= q * p;
    assert q + 1 <= d ==> (q + 1) * p <= d * p;
  }

  lemma ModTwice(x: nat, p: nat)
    requires p >= 1
    ensures x % (2 * p) == 2 * (x / 2 % p) + x % 2
  {
    var q, r := x / 2 / p, x / 2 % p;
    assert x / 2 == q * p + r;
    assert q * (2 * p) == 2 * (q * p);
    QuotientIs(x, 2 * p, q, 2 * r + x % 2);
  }

  lemma AndEven(x: nat, m: nat)
    ensures And(x, 2 * m) == 2 * And(x / 2, m)
  {
    if x != 0 && m != 0 {
      assert 2 * m / 2 == m && 2 * m % 2 == 0;
    }
  }

  lemma {:induction false} AndOnes(x: nat, w: nat)
    requires x < Pow2(w)
    ensures And(x, Pow2(w) - 1) == x
  {
    if w > 0 && x > 0 {
      AndOnes(x / 2, w - 1);
      assert (Pow2(w) - 1) / 2 == Pow2(w - 1) - 1 && (Pow2(w) - 1) % 2 == 1;
    }
  }

  /** Masking off the low k of w bits takes away the remainder by Pow2(k). */
  lemma {:induction false} AndHigh(x: nat, w: nat, k: nat)
    requires x < Pow2(w) && k <= w
    ensures Pow2(k) <= Pow2(w) && And(x, Pow2(w) - Pow2(k)) == x - x % Pow2(k)
  {
    if k == 0 {
      AndOnes(x, w);
    } else {
      AndHigh(x / 2, w - 1, k - 1);
      AndEven(x, Pow2(w - 1) - Pow2(k - 1));
      ModTwice(x, Pow2(k - 1));
    }
  }

  lemma MaskIsHigh(n: nat)
    requires 1 <= n <= 7
    ensures 255 - 255 / Pow2(n) == Pow2(8) - Pow2(8 - n)
  {
    assert Pow2(1) == 2 && Pow2(2) == 4 && Pow2(3) == 8 && Pow2(4) == 16;
    assert Pow2(5) == 32 && Pow2(6) == 64 && Pow2(7) == 128 && Pow2(8) == 256;
  }

  lemma SameQuotient(x: nat, y: nat, p: nat)
    requires p >= 1
    ensures x - x % p == y - y % p <==> x / p == y / p
  {
    assert x - x % p == x / p * p && y - y % p == y / p * p;
    if x / p < y / p {
      MulMono(x / p + 1, y / p, p);
    } else if y / p < x / p {
      MulMono(y / p + 1, x / p, p);
    }
  }

  /** Two bytes agree under mask byte i exactly when they agree above the bits it clears. */
  lemma MaskedByte(x: Byte, y: Byte, prefix: nat, i: nat)
    requires 8 * i < prefix < 8 * i + 8
    ensures And(x, MaskByte(prefix, i)) == And(y, MaskByte(prefix, i))
       <==> x / Pow2(8 * i + 8 - prefix) == y / Pow2(8 * i + 8 - prefix)
  {
    ByteAbove(x, prefix, i);
    ByteAbove(y, prefix, i);
    SameQuotient(x, y, Pow2(8 * i + 8 - prefix));
  }

  lemma ByteAbove(x: Byte, prefix: nat, i: nat)
    requires 8 * i < prefix < 8 * i + 8
    ensures And(x, MaskByte(prefix, i)) == x - x % Pow2(8 * i + 8 - prefix)
  {
    var n := prefix - 8 * i;
    Pow2Eight();
    MaskIsHigh(n);
    AndHigh(x, 8, 8 - n);
  }

  // ---------- membership is a range ----------

  lemma {:induction false} NumBound(s: seq<Byte>)
    ensures Num(s) < Pow2(8 * |s|)
  {
    if s != [] {
      var m := Pow2(8 * (|s| - 1));
      NumBound(s[1..]);
      Pow2Sum(8, 8 * (|s| - 1));
      Pow2Eight();
      LeadingByte(s[0], Num(s[1..]), m);
    }
  }

  lemma LeadingByte(h: nat, t: nat, m: nat)
    requires h < 256 && t < m
    ensures h * m + t < 256 * m
  {
    MulMono(h + 1, 256, m);
  }

  lemma Pow2Eight()
    ensures Pow2(8) == 256
  {
    assert Pow2(4) == 16;
    Pow2Sum(4, 4);
  }

  /** A leading byte and a rest, cut within the rest. */
  lemma CutInTail(h: nat, t: nat, m: nat, low: nat, high: nat)
    requires low >= 1 && high >= 1 && m == high * low && t < m
    ensures (h * m + t) / low == h * high + t / low && t / low < high
  {
    var q, r := t / low, t % low;
    assert h * m + t == (h * high + q) * low + r by {
      assert h * m == h * high * low;
      assert t == q * low + r;
    }
    QuotientIs(h * m + t, low, h * high + q, r);
    if q >= high {
      MulMono(high, q, low);
    }
  }

  /** ... and cut within the leading byte. */
  lemma CutInHead(h: nat, t: nat, m: nat, high: nat)
    requires m >= 1 && high >= 1 && t < m
    ensures (h * m + t) / (high * m) == h / high
  {
    var q, r := h / high, h % high;
    assert h == q * high + r;
    assert h * m == q * (high * m) + r * m;
    MulMono(r + 1, high, m);
    QuotientIs(h * m + t, high * m, q, r * m + t);
  }

  lemma TwoDigits(h: nat, g: nat, u: nat, v: nat, k: nat)
    requires u < k && v < k
    ensures h * k + u == g * k + v <==> h == g && u == v
  {
    if h < g {
      MulMono(h + 1, g, k);
    } else if g < h {
      MulMono(g + 1, h, k);
    }
  }

  lemma AndFull(x: Byte)
    ensures And(x, 255) == x && And(x, 0) == 0
  {
    Pow2Eight();
    AndOnes(x, 8);
  }

  /** The comparison of the whole is that of the first byte and that of the rest, eight bits on. */
  lemma MaskedHeadTail(ip: seq<Byte>, net: seq<Byte>, prefix: nat)
    requires |ip| == |net| >= 1
    ensures var rest := if prefix < 8 then 0 else prefix - 8;
            MaskedFrom(ip, net, prefix, 0) <==>
              And(ip[0], MaskByte(prefix, 0)) == And(net[0], MaskByte(prefix, 0))
              && MaskedFrom(ip[1..], net[1..], rest, 0)
  {
    var rest := if prefix < 8 then 0 else prefix - 8;
    assert forall k: nat :: MaskByte(prefix, k + 1) == MaskByte(rest, k);
    if MaskedFrom(ip[1..], net[1..], rest, 0) {
      forall k | 1 <= k < |ip|
        ensures And(ip[k], MaskByte(prefix, k)) == And(net[k], MaskByte(prefix, k))
      {
        assert ip[k] == ip[1..][k - 1] && net[k] == net[1..][k - 1] && MaskByte(prefix, k) == MaskByte(rest, k - 1);
      }
    }
    if MaskedFrom(ip, net, prefix, 0) {
      forall k | 0 <= k < |ip| - 1
        ensures And(ip[1..][k], MaskByte(rest, k)) == And(net[1..][k], MaskByte(rest, k))
      {
        assert MaskByte(rest, k) == MaskByte(prefix, k + 1);
      }
    }
  }

  lemma MaskedByNothing(ip: seq<Byte>, net: seq<Byte>)
    requires |ip| == |net|
    ensures MaskedFrom(ip, net, 0, 0)
  {
    forall k | 0 <= k < |ip|
      ensures And(ip[k], MaskByte(0, k)) == And(net[k], MaskByte(0, k))
    {
      AndFull(ip[k]);
      AndFull(net[k]);
    }
  }

  /** The byte-wise masked comparison asks whether the addresses agree above the host bits. */
  lemma {:induction false} MaskedIsQuotient(ip: seq<Byte>, net: seq<Byte>, prefix: nat)
    requires |ip| == |net| && prefix <= 8 * |ip|
    ensures MaskedFrom(ip, net, prefix, 0) <==>
              Num(ip) / Pow2(8 * |ip| - prefix) == Num(net) / Pow2(8 * |ip| - prefix)
    decreases |ip|
  {
    if prefix == 0 {
      MaskedByNothing(ip, net);
      NothingIsQuotient(ip, net);
    } else {
      MaskedHeadTail(ip, net, prefix);
      if prefix >= 8 {
        MaskedIsQuotient(ip[1..], net[1..], prefix - 8);
        WholeByteLeads(ip, net, prefix);
      } else {
        PartOfByteLeads(ip, net, prefix);
      }
    }
  }

  lemma NothingIsQuotient(ip: seq<Byte>, net: seq<Byte>)
    requires |ip| == |net|
    ensures Num(ip) / Pow2(8 * |ip|) == Num(net) / Pow2(8 * |ip|)
  {
    NumBound(ip);
    NumBound(net);
    QuotientIs(Num(ip), Pow2(8 * |ip|), 0, Num(ip));
    QuotientIs(Num(net), Pow2(8 * |ip|), 0, Num(net));
  }

  lemma WholeByteSplit(h: nat, t: nat, g: nat, v: nat, m: nat, low: nat, high: nat)
    requires low >= 1 && high >= 1 && m == high * low && t < m && v < m
    ensures (h * m + t) / low == (g * m + v) / low <==> h == g && t / low == v / low
  {
    CutInTail(h, t, m, low, high);
    CutInTail(g, v, m, low, high);
    TwoDigits(h, g, t / low, v / low, high);
  }

  lemma PartOfByteSplit(h: nat, t: nat, g: nat, v: nat, m: nat, high: nat)
    requires m >= 1 && high >= 1 && t < m && v < m
    ensures (h * m + t) / (high * m) == (g * m + v) / (high * m) <==> h / high == g / high
  {
    CutInHead(h, t, m, high);
    CutInHead(g, v, m, high);
  }

  lemma WholeByteLeads(ip: seq<Byte>, net: seq<Byte>, prefix: nat)
    requires |ip| == |net| >= 1 && 8 <= prefix <= 8 * |ip|
    ensures var low := Pow2(8 * |ip| - prefix);
            Num(ip) / low == Num(net) / low <==>
              And(ip[0], MaskByte(prefix, 0)) == And(net[0], MaskByte(prefix, 0))
              && Num(ip[1..]) / low == Num(net[1..]) / low
  {
    var low, high := Pow2(8 * |ip| - prefix), Pow2(prefix - 8);
    Pow2Sum(prefix - 8, 8 * |ip| - prefix);
    NumBound(ip[1..]);
    NumBound(net[1..]);
    WholeByteSplit(ip[0], Num(ip[1..]), net[0], Num(net[1..]), Pow2(8 * (|ip| - 1)), low, high);
    AndFull(ip[0]);
    AndFull(net[0]);
  }

  lemma PartOfByteLeads(ip: seq<Byte>, net: seq<Byte>, prefix: nat)
    requires |ip| == |net| >= 1 && 1 <= prefix < 8
    ensures var low := Pow2(8 * |ip| - prefix);
            Num(ip) / low == Num(net) / low <==>
              And(ip[0], MaskByte(prefix, 0)) == And(net[0], MaskByte(prefix, 0))
              && MaskedFrom(ip[1..], net[1..], 0, 0)
  {
    FirstByteLeads(ip, net, prefix);
    MaskedByte(ip[0], net[0], prefix, 0);
    MaskedByNothing(ip[1..], net[1..]);
  }

  lemma FirstByteLeads(ip: seq<Byte>, net: seq<Byte>, prefix: nat)
    requires |ip| == |net| >= 1 && 1 <= prefix < 8
    ensures var low := Pow2(8 * |ip| - prefix);
            Num(ip) / low == Num(net) / low <==> ip[0] / Pow2(8 - prefix) == net[0] / Pow2(8 - prefix)
  {
    var m, high := Pow2(8 * (|ip| - 1)), Pow2(8 - prefix);
    Pow2Sum(8 - prefix, 8 * (|ip| - 1));
    assert Pow2(8 * |ip| - prefix) == high * m;
    NumBound(ip[1..]);
    NumBound(net[1..]);
    PartOfByteSplit(ip[0], Num(ip[1..]), net[0], Num(net[1..]), m, high);
  }

  /** How many addresses the block has, and the first of them. */
  function BlockSize(b: Block): (n: nat)
    ensures n >= 1
  {
    Pow2(8 * |b.net| - b.prefix)
  }

  function FirstOf(b: Block): int {
    Num(b.net) / BlockSize(b) * BlockSize(b)
  }

  /** A block holds exactly the addresses of its family from its first one on, as many as its size. */
  lemma ContainsIsRange(b: Block, ip: Address)
    ensures Contains(b, ip) <==> |ip| == |b.net| && FirstOf(b) <= Num(ip) < FirstOf(b) + BlockSize(b)
  {
    if |ip| == |b.net| {
      MaskedIsQuotient(ip, b.net, b.prefix);
      QuotientIsRange(Num(ip), Num(b.net), BlockSize(b));
    }
  }

  lemma QuotientIsRange(x: nat, y: nat, p: nat)
    requires p >= 1
    ensures x / p == y / p <==> y / p * p <= x < y / p * p + p
  {
    var q := y / p;
    assert x == x / p * p + x % p;
    if q * p <= x < q * p + p {
      QuotientIs(x, p, q, x - q * p);
    }
  }

  // ---------- the scan ----------

  /** A bare address or a host:port pair. */
  function ParseAddr(p: Parser, text: string): Option<Address> {
    if text == "" then None
    else if p.ip(text).Some? then p.ip(text)
    else
      match p.host(text)
      case None => None
      case Some(host) => p.ip(host)
  }

  predicate InAny(ip: Address, trusted: seq<Block>) {
    exists i | 0 <= i < |trusted| :: Contains(trusted[i], ip)
  }

  /** The address one entry stands for, when it may be the client's. */
  function Claim(p: Parser, trusted: seq<Block>, entry: string): Option<Address> {
    var ip := ParseAddr(p, TrimSpace(entry));
    if ip.Some? && !InAny(ip.value, trusted) then ip else None
  }

  /** The claim of the rightmost entry that has one. */
  function Rightmost(p: Parser, trusted: seq<Block>, entries: seq<string>): Option<Address> {
    if entries == [] then None
    else
      var n := |entries| - 1;
      if Claim(p, trusted, entries[n]).Some? then Claim(p, trusted, entries[n])
      else Rightmost(p, trusted, entries[..n])
  }

  function Leftmost(p: Parser, trusted: seq<Block>, entries: seq<string>): Option<Address> {
    if entries == [] then None
    else if Claim(p, trusted, entries[0]).Some? then Claim(p, trusted, entries[0])
    else Leftmost(p, trusted, entries[1..])
  }

  datatype Headers = Headers(forwardedFor: string, realIp: string, trueClientIp: string)

  predicate PeerTrusted(p: Parser, trusted: seq<Block>, remoteAddr: string) {
    ParseAddr(p, remoteAddr).Some? && InAny(ParseAddr(p, remoteAddr).value, trusted)
  }

  /** The address the headers claim; None when they are not to be believed. */
  function ClientFromHeaders(p: Parser, trusted: seq<Block>, remoteAddr: string, h: Headers): Option<Address> {
    if !PeerTrusted(p, trusted, remoteAddr) then None
    else if Rightmost(p, trusted, Split(h.forwardedFor, ',')).Some?
    then Rightmost(p, trusted, Split(h.forwardedFor, ','))
    else Leftmost(p, trusted, [h.realIp, h.trueClientIp])
  }

  /** Entry i claims an address and no entry to its right does. */
  predicate LastClaim(p: Parser, trusted: seq<Block>, entries: seq<string>, i: nat) {
    && i < |entries| && Claim(p, trusted, entries[i]).Some?
    && forall j | i < j < |entries| :: Claim(p, trusted, entries[j]).None?
  }

  lemma {:induction false} LastClaimWins(p: Parser, trusted: seq<Block>, entries: seq<string>, i: nat)
    requires LastClaim(p, trusted, entries, i)
    ensures Rightmost(p, trusted, entries) == Claim(p, trusted, entries[i])
    decreases |entries|
  {
    if i < |entries| - 1 {
      LastClaimWins(p, trusted, entries[..|entries| - 1], i);
    }
  }

  lemma {:induction false} SomeClaimWins(p: Parser, trusted: seq<Block>, entries: seq<string>) returns (i: nat)
    requires Rightmost(p, trusted, entries).Some?
    ensures LastClaim(p, trusted, entries, i)
    decreases |entries|
  {
    i := |entries| - 1;
    if Claim(p, trusted, entries[i]).None? {
      var init := entries[..i];
      i := SomeClaimWins(p, trusted, init);
      forall j | i < j < |entries|
        ensures Claim(p, trusted, entries[j]).None?
      {
        assert j < |init| ==> entries[j] == init[j];
      }
    }
  }

  /** The scan answers with the claim of one entry, and no entry to its right has one. */
  lemma RightmostExact(p: Parser, trusted: seq<Block>, entries: seq<string>, ip: Address)
    ensures Rightmost(p, trusted, entries) == Some(ip) <==>
              exists i: nat :: LastClaim(p, trusted, entries, i) && Claim(p, trusted, entries[i]) == Some(ip)
  {
    if Rightmost(p, trusted, entries) == Some(ip) {
      var i := SomeClaimWins(p, trusted, entries);
      LastClaimWins(p, trusted, entries, i);
    }
    if i: nat :| LastClaim(p, trusted, entries, i) && Claim(p, trusted, entries[i]) == Some(ip) {
      LastClaimWins(p, trusted, entries, i);
    }
  }

  lemma {:induction false} RightmostNone(p: Parser, trusted: seq<Block>, entries: seq<string>)
    ensures Rightmost(p, trusted, entries).None? <==>
              forall i | 0 <= i < |entries| :: Claim(p, trusted, entries[i]).None?
  {
    if entries != [] {
      RightmostNone(p, trusted, entries[..|entries| - 1]);
    }
  }

  lemma {:induction false} RightmostConcat(p: Parser, trusted: seq<Block>, a: seq<string>, b: seq<string>)
    ensures Rightmost(p, trusted, a + b)
            == if Rightmost(p, trusted, b).Some? then Rightmost(p, trusted, b) else Rightmost(p, trusted, a)
  {
    if b == [] {
      assert a + b == a;
    } else {
      var n := |b| - 1;
      assert (a + b)[..|a + b| - 1] == a + b[..n];
      RightmostConcat(p, trusted, a, b[..n]);
    }
  }

  lemma {:induction false} LeftmostUntrusted(p: Parser, trusted: seq<Block>, entries: seq<string>)
    ensures var r := Leftmost(p, trusted, entries); r.Some? ==> !InAny(r.value, trusted)
  {
    if entries != [] {
      LeftmostUntrusted(p, trusted, entries[1..]);
    }
  }

  /** A trusted address is never the answer, and an untrusted peer never gets one. */
  lemma AnswerIsUntrusted(p: Parser, trusted: seq<Block>, remoteAddr: string, h: Headers)
    ensures var r := ClientFromHeaders(p, trusted, remoteAddr, h);
            r.Some? ==> !InAny(r.value, trusted) && PeerTrusted(p, trusted, remoteAddr)
  {
    var entries := Split(h.forwardedFor, ',');
    if Rightmost(p, trusted, entries).Some? {
      var i := SomeClaimWins(p, trusted, entries);
      LastClaimWins(p, trusted, entries, i);
    }
    LeftmostUntrusted(p, trusted, [h.realIp, h.trueClientIp]);
  }

  /** Bare addresses are read as they are, and otherwise the host of a host:port pair; nothing else is an address. */
  lemma AddressExact(p: Parser, text: string)
    ensures ParseAddr(p, text).Some? <==>
              text != "" && (p.ip(text).Some? || (p.host(text).Some? && p.ip(p.host(text).value).Some?))
    ensures text != "" && p.ip(text).Some? ==> ParseAddr(p, text) == p.ip(text)
    ensures text != "" && p.ip(text).None? && p.host(text).Some? ==> ParseAddr(p, text) == p.ip(p.host(text).value)
  {
  }

  /** An entry claims its own address, trimmed, exactly when it is one and lies in no trusted block. */
  lemma ClaimExact(p: Parser, trusted: seq<Block>, entry: string, ip: Address)
    ensures Claim(p, trusted, entry) == Some(ip) <==>
              ParseAddr(p, TrimSpace(entry)) == Some(ip) && forall i | 0 <= i < |trusted| :: !Contains(trusted[i], ip)
  {
  }

  /**
    What a trusted peer's headers claim: the rightmost claim of X-Forwarded-For, if
    none X-Real-IP's, if none True-Client-IP's, if none nothing. An untrusted peer's
    claim nothing.
   */
  lemma AnswerExact(p: Parser, trusted: seq<Block>, remoteAddr: string, h: Headers)
    ensures var claimed, r := Rightmost(p, trusted, Split(h.forwardedFor, ',')), ClientFromHeaders(p, trusted, remoteAddr, h);
            && (!PeerTrusted(p, trusted, remoteAddr) ==> r == None)
            && (PeerTrusted(p, trusted, remoteAddr) ==>
                  r == if claimed.Some? then claimed
                       else if Claim(p, trusted, h.realIp).Some? then Claim(p, trusted, h.realIp)
                       else Claim(p, trusted, h.trueClientIp))
  {
    LeftmostOfTwo(p, trusted, h.realIp, h.trueClientIp);
  }

  lemma LeftmostOfTwo(p: Parser, trusted: seq<Block>, a: string, b: string)
    ensures Leftmost(p, trusted, [a, b])
            == if Claim(p, trusted, a).Some? then Claim(p, trusted, a) else Claim(p, trusted, b)
  {
    assert [a, b][1..] == [b] && [b][1..] == [];
    assert Leftmost(p, trusted, [b]) == if Claim(p, trusted, b).Some? then Claim(p, trusted, b) else Leftmost(p, trusted, []);
  }

  /**
    Text written in front of X-Forwarded-For, with a comma, changes the answer of a
    trusted peer exactly when the original list claims nothing and the text claims
    something else than the answer was. Once the original list yields an address,
    nothing in front of it matters.
   */
  lemma PrependedText(p: Parser, trusted: seq<Block>, remoteAddr: string, h: Headers, text: string)
    requires PeerTrusted(p, trusted, remoteAddr)
    ensures var before := ClientFromHeaders(p, trusted, remoteAddr, h);
            var after := ClientFromHeaders(p, trusted, remoteAddr, h.(forwardedFor := text + "," + h.forwardedFor));
            var claimed := Rightmost(p, trusted, Split(text, ','));
            after != before <==>
              Rightmost(p, trusted, Split(h.forwardedFor, ',')).None? && claimed.Some? && claimed != before
  {
    assert text + "," + h.forwardedFor == text + [','] + h.forwardedFor;
    SplitConcat(text, h.forwardedFor, ',');
    RightmostConcat(p, trusted, Split(text, ','), Split(h.forwardedFor, ','));
  }

  /** The loop over X-Forwarded-For from its end, then the single-value headers. */
  method ClientFromHeadersLoop(p: Parser, trusted: seq<Block>, remoteAddr: string, h: Headers) returns (r: Option<Address>)
    ensures r == ClientFromHeaders(p, trusted, remoteAddr, h)
  {
    var peer := ParseAddr(p, remoteAddr);
    if peer.None? {
      return None;
    }
    var known := IpInAny(peer.value, trusted);
    if !known {
      return None;
    }
    var forwarded := Split(h.forwardedFor, ',');
    var i := |forwarded| - 1;
    assert forwarded[..i + 1] == forwarded;
    while i >= 0
      invariant -1 <= i < |forwarded|
      invariant Rightmost(p, trusted, forwarded) == Rightmost(p, trusted, forwarded[..i + 1])
    {
      assert forwarded[..i + 1][..i] == forwarded[..i];
      var ip := ParseAddr(p, TrimSpace(forwarded[i]));
      if ip.Some? {
        var proxy := IpInAny(ip.value, trusted);
        if !proxy {
          return ip;
        }
      }
      i := i - 1;
    }
    var single := [h.realIp, h.trueClientIp];
    for k := 0 to |single|
      invariant Leftmost(p, trusted, single) == Leftmost(p, trusted, single[k..])
    {
      assert single[k..][1..] == single[k + 1..];
      var ip := ParseAddr(p, TrimSpace(single[k]));
      if ip.Some? {
        var proxy := IpInAny(ip.value, trusted);
        if !proxy {
          return ip;
        }
      }
    }
    return None;
  }

  method IpInAny(ip: Address, nets: seq<Block>) returns (found: bool)
    ensures found == InAny(ip, nets)
  {
    for i := 0 to |nets|
      invariant forall k | 0 <= k < i :: !Contains(nets[k], ip)
    {
      if Contains(nets[i], ip) {
        return true;
      }
    }
    return false;
  }

  /** The request as far as the middleware touches it; an address stands for its text. */
  class Request {
    var rewritten: Option<Address>  // the address written over RemoteAddr, if any
    const remoteAddr: string
    const headers: Headers

    constructor (remoteAddr: string, headers: Headers)
      ensures this.remoteAddr == remoteAddr && this.headers == headers && rewritten == None
    {
      this.remoteAddr, this.headers := remoteAddr, headers;
      rewritten := None;
    }

    /** RealIP: an untrusted peer keeps the address it came with. */
    method Rewrite(p: Parser, trusted: seq<Block>)
      requires rewritten == None
      modifies this
      ensures rewritten == ClientFromHeaders(p, trusted, remoteAddr, headers)
      ensures rewritten.Some? ==> PeerTrusted(p, trusted, remoteAddr) && !InAny(rewritten.value, trusted)
    {
      AnswerIsUntrusted(p, trusted, remoteAddr, headers);
      var ip := ClientFromHeadersLoop(p, trusted, remoteAddr, headers);
      if ip.Some? {
        rewritten := ip;
      }
    }
  }

  // ---------- ParseTrustedProxies ----------

  /** The entries that are not blank. */
  function NonBlank(parts: seq<string>): seq<string> {
    if parts == [] then []
    else
      var entry := TrimSpace(parts[|parts| - 1]);
      NonBlank(parts[..|parts| - 1]) + if entry == "" then [] else [entry]
  }

  /** All entries parse, each to its block in order, and there is one; otherwise the list is refused as a whole. */
  method ParseTrustedProxies(p: Parser, raw: string) returns (r: Result<seq<Block>>)
    ensures var entries := NonBlank(Split(raw, ','));
            && (r.Ok? <==> entries != [] && forall i | 0 <= i < |entries| :: p.cidr(entries[i]).Some?)
            && (r.Ok? ==> |r.value| == |entries| && forall i | 0 <= i < |entries| :: p.cidr(entries[i]) == Some(r.value[i]))
  {
    var parts := Split(raw, ',');
    var nets: seq<Block> := [];
    for k := 0 to |parts|
      invariant |nets| == |NonBlank(parts[..k])|
      invariant forall i | 0 <= i < |nets| :: p.cidr(NonBlank(parts[..k])[i]) == Some(nets[i])
    {
      assert parts[..k + 1][..k] == parts[..k];
      var entry := TrimSpace(parts[k]);
      if entry != "" {
        var block := p.cidr(entry);
        if block.None? {
          NonBlankGrows(parts, k);
          return Err;
        }
        nets := nets + [block.value];
      }
    }
    assert parts[..|parts|] == parts;
    if |nets| == 0 {
      return Err;
    }
    return Ok(nets);
  }

  lemma {:induction false} NonBlankGrows(parts: seq<string>, k: nat)
    requires k < |parts| && TrimSpace(parts[k]) != ""
    ensures TrimSpace(parts[k]) in NonBlank(parts)
    decreases |parts|
  {
    if k < |parts| - 1 {
      NonBlankGrows(parts[..|parts| - 1], k);
    }
  }
}
