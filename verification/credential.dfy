/**
 * The stored password credential: a random salt and the hex digest that the
 * key-derivation function computes from the password and that salt, joined by
 * a single `$`.
 *
 * The key-derivation function is PBKDF2 (section 5.2 of RFC 8018) with
 * HMAC-SHA-256 as the pseudorandom function, 100000 iterations and the default
 * derived-key length of 32 bytes. Its internals are not modelled: it enters as
 * a parameter whose only known property is that it always yields 64 lowercase
 * hexadecimal characters.
 */
module Credential {

  const Separator: char := '$'

  /** `secrets.token_hex(16)`: sixteen random bytes, two hex characters each. */
  const SaltBytes: nat := 16

  /** The SHA-256 output size, which is PBKDF2-HMAC-SHA-256's default key length. */
  const DigestBytes: nat := 32

  /** Length of a well-formed credential: salt, separator, digest. */
  const CredentialLength: nat := 2 * SaltBytes + 1 + 2 * DigestBytes

  predicate IsLowerHexChar(c: char) {
    '0' <= c <= '9' || 'a' <= c <= 'f'
  }

  predicate IsLowerHex(s: string) {
    forall i :: 0 <= i < |s| ==> IsLowerHexChar(s[i])
  }

  /** A salt as `token_hex(16)` produces it. */
  type Salt = s: string | |s| == 2 * SaltBytes && IsLowerHex(s)
    witness ZeroSalt

  const ZeroSalt: string := "00000000000000000000000000000000"

  /** A derived key as `.hex()` renders it. */
  type Digest = s: string | |s| == 2 * DigestBytes && IsLowerHex(s)
    witness ZeroSalt + ZeroSalt

  /** The key-derivation function, applied to (password, salt); deterministic and total. */
  type Kdf = (string, string) -> Digest

  /** Number of occurrences of `c` in `s`. */
  function Count(s: string, c: char): (n: nat)
    ensures n <= |s|
    ensures n == 0 <==> c !in s
  {
    if s == [] then 0
    else (if s[0] == c then 1 else 0) + Count(s[1..], c)
  }

  /** Glues `parts` back together with `sep` between neighbours. */
  function Join(parts: seq<string>, sep: char): string
    requires |parts| >= 1
  {
    if |parts| == 1 then parts[0]
    else parts[0] + [sep] + Join(parts[1..], sep)
  }

  /**
   * Python's `str.split(sep)` with an explicit separator: every occurrence of
   * `sep` cuts, neighbouring separators give empty parts, and the empty string
   * splits into one empty part.
   */
  function Split(s: string, sep: char): (parts: seq<string>)
    ensures |parts| == Count(s, sep) + 1
    ensures forall i :: 0 <= i < |parts| ==> sep !in parts[i]
    ensures Join(parts, sep) == s
  {
    if s == [] then [[]]
    else
      var rest := Split(s[1..], sep);
      if s[0] == sep then
        [[]] + rest
      else
        var parts := [[s[0]] + rest[0]] + rest[1..];
        assert parts[1..] == rest[1..];
        assert s == [s[0]] + s[1..];
        parts
  }

  /** A credential in the shape the hasher writes it. */
  predicate IsStoredCredential(stored: string) {
    && |stored| == CredentialLength
    && IsLowerHex(stored[..2 * SaltBytes])
    && stored[2 * SaltBytes] == Separator
    && IsLowerHex(stored[2 * SaltBytes + 1..])
  }

  lemma {:induction false} CountAppend(a: string, b: string, c: char)
    ensures Count(a + b, c) == Count(a, c) + Count(b, c)
  {
    if a == [] {
      assert a + b == b;
    } else {
      assert (a + b)[1..] == a[1..] + b;
      CountAppend(a[1..], b, c);
    }
  }

  lemma HexHasNoSeparator(s: string)
    requires IsLowerHex(s)
    ensures Separator !in s
  {
  }

  /** A credential of the stored shape contains exactly one separator. */
  lemma StoredCredentialHasOneSeparator(stored: string)
    requires IsStoredCredential(stored)
    ensures Count(stored, Separator) == 1
  {
    var salt := stored[..2 * SaltBytes];
    var digest := stored[2 * SaltBytes + 1..];
    assert stored == salt + [Separator] + digest;
    HexHasNoSeparator(salt);
    HexHasNoSeparator(digest);
    CountAppend(salt + [Separator], digest, Separator);
    CountAppend(salt, [Separator], Separator);
  }

  /** A part free of the separator splits into itself. */
  lemma {:induction false} SplitWithoutSeparator(p: string, sep: char)
    requires sep !in p
    ensures Split(p, sep) == [p]
  {
  }

  /** A separator-free prefix followed by the separator is cut off as one part. */
  lemma {:induction false} SplitAfterPrefix(p: string, sep: char, t: string)
    requires sep !in p
    ensures Split(p + [sep] + t, sep) == [p] + Split(t, sep)
  {
    if p == [] {
      assert p + [sep] + t == [sep] + t;
      assert ([sep] + t)[1..] == t;
    } else {
      var s := p + [sep] + t;
      assert s[0] == p[0] && p[0] != sep;
      assert s[1..] == p[1..] + [sep] + t;
      SplitAfterPrefix(p[1..], sep, t);
      var rest := Split(s[1..], sep);
      assert rest == [p[1..]] + Split(t, sep);
      assert Split(s, sep) == [[p[0]] + rest[0]] + rest[1..];
      assert [p[0]] + p[1..] == p;
    }
  }

  /** Splitting undoes joining when no part contains the separator. */
  lemma {:induction false} SplitJoin(parts: seq<string>, sep: char)
    requires |parts| >= 1
    requires forall i :: 0 <= i < |parts| ==> sep !in parts[i]
    ensures Split(Join(parts, sep), sep) == parts
  {
    if |parts| == 1 {
      SplitWithoutSeparator(parts[0], sep);
    } else {
      SplitJoin(parts[1..], sep);
      SplitAfterPrefix(parts[0], sep, Join(parts[1..], sep));
      assert [parts[0]] + parts[1..] == parts;
    }
  }

  /**
   * `hash_password` with the salt supplied by the caller: the salt, one `$`,
   * then the digest of the password under that salt. The result has the
   * credential shape, contains exactly one separator, and parses back into
   * exactly the salt and the digest.
   */
  function HashPassword(kdf: Kdf, password: string, salt: Salt): (stored: string)
    ensures IsStoredCredential(stored)
    ensures Count(stored, Separator) == 1
    ensures Split(stored, Separator) == [salt, kdf(password, salt)]
  {
    var digest := kdf(password, salt);
    var stored := salt + [Separator] + digest;
    assert stored[..2 * SaltBytes] == salt;
    assert stored[2 * SaltBytes + 1..] == digest;
    StoredCredentialHasOneSeparator(stored);
    HexHasNoSeparator(salt);
    HexHasNoSeparator(digest);
    SplitJoin([salt, digest], Separator);
    assert Join([digest], Separator) == digest;
    stored
  }

  /**
   * `verify_password`: split the stored string on `$`; anything other than
   * exactly two parts is rejected (the failed unpacking is caught and
   * answered with false); otherwise accept exactly when recomputing the digest
   * from the password and the first part reproduces the second part.
   */
  function VerifyPassword(kdf: Kdf, password: string, stored: string): (ok: bool)
    ensures Count(stored, Separator) != 1 ==> !ok
    ensures ok ==> var parts := Split(stored, Separator);
                   |parts| == 2 && |parts[1]| == 2 * DigestBytes && IsLowerHex(parts[1])
  {
    var parts := Split(stored, Separator);
    if |parts| != 2 then false
    else kdf(password, parts[0]) == parts[1]
  }

  /** A credential written for a password verifies against that password. */
  lemma VerifyAcceptsOwnHash(kdf: Kdf, password: string, salt: Salt)
    ensures VerifyPassword(kdf, password, HashPassword(kdf, password, salt))
  {
  }

  /**
   * On a string with one separator, verification compares the recomputed
   * digest of the part before it with the part after it, and nothing else.
   */
  lemma VerifyExactly(kdf: Kdf, password: string, salt: string, digest: string)
    requires Separator !in salt && Separator !in digest
    ensures VerifyPassword(kdf, password, salt + [Separator] + digest) <==> kdf(password, salt) == digest
  {
    SplitJoin([salt, digest], Separator);
    assert Join([digest], Separator) == digest;
  }

  /**
   * A different password is accepted against a credential only when the
   * key-derivation function collides on the two passwords under that salt.
   */
  lemma VerifyOtherPassword(kdf: Kdf, password: string, other: string, salt: Salt)
    ensures VerifyPassword(kdf, other, HashPassword(kdf, password, salt))
            <==> kdf(other, salt) == kdf(password, salt)
  {
  }

  /** Any string with exactly one separator is a salt part, `$`, and a digest part. */
  lemma OneSeparatorDecomposes(stored: string)
    requires Count(stored, Separator) == 1
    ensures var parts := Split(stored, Separator);
            |parts| == 2 && stored == parts[0] + [Separator] + parts[1]
  {
    var parts := Split(stored, Separator);
    assert Join(parts[1..], Separator) == parts[1];
  }
}
