/**
  Password hashes and the password policy (backend/security/security.go).
  bcrypt, SHA-256 and the time-based code are functions the model knows nothing
  about; which of them decides, and when, is the program's.
 */
module Passwords {
  import opened Common
  import opened Text

  datatype Crypto = Crypto(
    bcrypt: (string, string) -> bool,        // hash, password
    cost: string -> Option<int>,             // the work factor in a bcrypt hash
    sha256: string -> string,                // hex
    totp: (string, string, int) -> bool)     // code, secret, instant

  const DEFAULT_COST := 10

  predicate IsHexDigit(c: char) {
    '0' <= c <= '9' || 'a' <= c <= 'f' || 'A' <= c <= 'F'
  }

  predicate IsLegacySHA256Hash(hash: string) {
    |hash| == 64 && forall i | 0 <= i < 64 :: IsHexDigit(hash[i])
  }

  predicate IsBcryptHash(hash: string) {
    HasPrefix(hash, "$2a$") || HasPrefix(hash, "$2b$") || HasPrefix(hash, "$2y$")
  }

  predicate VerifyPassword(c: Crypto, password: string, hash: string) {
    if IsBcryptHash(hash) then c.bcrypt(hash, password)
    else if IsLegacySHA256Hash(hash) then c.sha256(password) == hash
    else false
  }

  predicate NeedsPasswordRehash(c: Crypto, hash: string) {
    IsLegacySHA256Hash(hash) || c.cost(hash).None? || c.cost(hash).value < DEFAULT_COST
  }

  /** bcrypt refuses longer passwords, and HashPassword then panics. */
  predicate Hashable(password: string) {
    |password| <= 72
  }

  /** One of the salted hashes HashPassword may return. */
  predicate IsHashOf(c: Crypto, hash: string, password: string) {
    HasPrefix(hash, "$2a$") && c.bcrypt(hash, password) && c.cost(hash) == Some(DEFAULT_COST)
  }

  /** Which primitive judges a password, by the shape of the hash; any other shape verifies nothing. */
  lemma VerifyExact(c: Crypto, password: string, hash: string)
    ensures VerifyPassword(c, password, hash) <==>
              || (|hash| >= 4 && hash[..4] in {"$2a$", "$2b$", "$2y$"} && c.bcrypt(hash, password))
              || (|hash| == 64 && AllHex(hash) && c.sha256(password) == hash)
  {
    assert HasPrefix(hash, "$2a$") <==> |hash| >= 4 && hash[..4] == "$2a$";
    assert HasPrefix(hash, "$2b$") <==> |hash| >= 4 && hash[..4] == "$2b$";
    assert HasPrefix(hash, "$2y$") <==> |hash| >= 4 && hash[..4] == "$2y$";
    if |hash| >= 4 && hash[..4] in {"$2a$", "$2b$", "$2y$"} {
      assert hash[0] == hash[..4][0] == '$';
    }
  }

  predicate AllHex(hash: string) {
    forall i | 0 <= i < |hash| :: '0' <= hash[i] <= '9' || 'a' <= hash[i] <= 'f' || 'A' <= hash[i] <= 'F'
  }

  /** Due for a rehash: the old scheme, an unreadable work factor, or one below ten. */
  lemma RehashExact(c: Crypto, hash: string)
    ensures NeedsPasswordRehash(c, hash) <==>
              (|hash| == 64 && AllHex(hash)) || c.cost(hash).None? || c.cost(hash).value < 10
  {
  }

  /** A hash just made verifies its password and is not due for another. */
  lemma FreshHash(c: Crypto, hash: string, password: string)
    requires IsHashOf(c, hash, password)
    ensures VerifyPassword(c, password, hash) && !NeedsPasswordRehash(c, hash)
  {
    assert hash[0] == '$';
  }

  /** A hash of neither shape, such as the OIDC sentinel, verifies no password whatever the primitives say. */
  lemma SentinelNeverVerifies(c: Crypto, password: string)
    ensures !VerifyPassword(c, password, "oidc:jumpcloud")
  {
    var sentinel := "oidc:jumpcloud";
    assert sentinel[0] == 'o' && |sentinel| == 14;
  }

  // ---------- the policy ----------

  const SPECIAL := "+!@#$%^&*()_-=[]{}|;:,.<>?"

  predicate IsDigit(c: char) {
    '0' <= c <= '9'
  }

  predicate IsLetter(c: char) {
    'a' <= c <= 'z' || 'A' <= c <= 'Z'
  }

  predicate IsSpecial(c: char) {
    c in SPECIAL
  }

  datatype Kind = Digit | Letter | Special | Other

  /** The case of the switch a character falls into. */
  function KindOf(c: char): Kind {
    if IsDigit(c) then Digit else if IsLetter(c) then Letter else if IsSpecial(c) then Special else Other
  }

  function Kinds(s: string): seq<Kind> {
    seq(|s|, i requires 0 <= i < |s| => KindOf(s[i]))
  }

  /** Long enough, short enough, and with a digit, a letter and a special character. */
  predicate PasswordAllowed(password: string) {
    && 8 <= |password| <= 72
    && (exists c | c in password :: IsDigit(c))
    && (exists c | c in password :: IsLetter(c))
    && (exists c | c in password :: IsSpecial(c))
  }

  /** No special character is a digit or a letter, so the order of the cases hides none. */
  lemma KindIsClass(c: char)
    ensures IsDigit(c) <==> KindOf(c) == Digit
    ensures IsLetter(c) <==> KindOf(c) == Letter
    ensures IsSpecial(c) <==> KindOf(c) == Special
  {
  }

  lemma KindsSeen(s: string)
    ensures PasswordAllowed(s) <==> 8 <= |s| <= 72 && Digit in Kinds(s) && Letter in Kinds(s) && Special in Kinds(s)
  {
    forall i | 0 <= i < |s|
      ensures Kinds(s)[i] == KindOf(s[i]) && s[i] in s
      ensures IsDigit(s[i]) <==> KindOf(s[i]) == Digit
      ensures IsLetter(s[i]) <==> KindOf(s[i]) == Letter
      ensures IsSpecial(s[i]) <==> KindOf(s[i]) == Special
    {
      KindIsClass(s[i]);
    }
  }

  method ValidatePassword(password: string) returns (ok: bool)
    ensures ok == PasswordAllowed(password)
  {
    KindsSeen(password);
    if |password| < 8 {
      return false;
    }
    if |password| > 72 {
      return false;
    }
    var hasDigit, hasLetter, hasSpecial := Flags(password);
    return hasDigit && hasLetter && hasSpecial;
  }

  /** The flags of the switch. */
  method Flags(password: string) returns (hasDigit: bool, hasLetter: bool, hasSpecial: bool)
    ensures hasDigit == (Digit in Kinds(password))
    ensures hasLetter == (Letter in Kinds(password))
    ensures hasSpecial == (Special in Kinds(password))
  {
    hasDigit, hasLetter, hasSpecial := false, false, false;
    for k := 0 to |password|
      invariant hasDigit == (Digit in Kinds(password)[..k])
      invariant hasLetter == (Letter in Kinds(password)[..k])
      invariant hasSpecial == (Special in Kinds(password)[..k])
    {
      assert Kinds(password)[..k + 1] == Kinds(password)[..k] + [KindOf(password[k])];
      match KindOf(password[k])
      case Digit => hasDigit := true;
      case Letter => hasLetter := true;
      case Special => hasSpecial := true;
      case Other =>
    }
    assert Kinds(password)[..|password|] == Kinds(password);
  }
}
