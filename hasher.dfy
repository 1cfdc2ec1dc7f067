/** Password hashing as `hash_password` and `verify_password` do it with bcrypt: a fresh
    salt per hash (`bcrypt.gensalt()`, version 2b, cost 12), the salt kept in the hash
    string, and verification that re-hashes with the salt read back out of the stored hash.
    The salt is a parameter: it is the random part. The digest itself is a stand-in (see
    `Digest`). */
module Hasher {

  /** What `bcrypt.gensalt()` puts in front of every hash: version 2b, cost factor 12. */
  const Prefix: string := "$2b$12$"
  /** bcrypt salts are 22 characters of its base-64 alphabet `./A-Za-z0-9`. */
  const SaltLength: nat := 22

  predicate IsSaltChar(c: char) {
    c == '.' || c == '/' || 'A' <= c <= 'Z' || 'a' <= c <= 'z' || '0' <= c <= '9'
  }

  predicate IsSalt(s: string) {
    |s| == SaltLength && forall i :: 0 <= i < |s| ==> IsSaltChar(s[i])
  }

  type Salt = s: string | IsSalt(s) witness "......................"

  /** The bytes `str.encode("utf-8")` writes for one character. Each byte is kept as the
      character with that code, so a byte string is a string whose characters are below 256. */
  function Utf8Char(c: char): (r: string)
    ensures 1 <= |r| <= 4
    ensures forall i :: 0 <= i < |r| ==> r[i] as int < 0x100
    ensures c as int < 0x80 <==> r == [c]
  {
    var n := c as int;
    if n < 0x80 then [c]
    else if n < 0x800 then [(0xC0 + n / 0x40) as char, (0x80 + n % 0x40) as char]
    else if n < 0x10000 then
      [(0xE0 + n / 0x1000) as char, (0x80 + n / 0x40 % 0x40) as char, (0x80 + n % 0x40) as char]
    else
      [(0xF0 + n / 0x40000) as char, (0x80 + n / 0x1000 % 0x40) as char,
       (0x80 + n / 0x40 % 0x40) as char, (0x80 + n % 0x40) as char]
  }

  /** `password.encode("utf-8")`: at least one byte per character, and an ASCII string is
      its own encoding. */
  function Utf8(s: string): (r: string)
    ensures |r| >= |s|
    ensures (forall i :: 0 <= i < |s| ==> s[i] as int < 0x80) ==> r == s
  {
    if s == [] then [] else Utf8Char(s[0]) + Utf8(s[1..])
  }

  /** bcrypt reads at most this many bytes of the password. */
  const MaxKeyBytes: nat := 72

  /** The part of the password bcrypt 4 hashes: the first 72 bytes of its UTF-8 encoding. */
  function BcryptKey(password: string): (r: string)
    ensures |r| <= MaxKeyBytes && |r| <= |Utf8(password)|
    ensures r == Utf8(password)[..|r|]
    ensures |r| == MaxKeyBytes || r == Utf8(password)
  {
    var b := Utf8(password);
    if |b| <= MaxKeyBytes then b else b[..MaxKeyBytes]
  }

  /** Stand-in for bcrypt's EksBlowfish digest. The model needs only that the digest is a
      function of salt and the bytes bcrypt reads, and that two different byte strings give
      two different digests under the same salt; it does not capture that the digest cannot
      be inverted. */
  function Digest(salt: Salt, password: string): string {
    BcryptKey(password)
  }

  /** `hash_password(password)` with `gensalt()` having returned `salt`. */
  function HashPassword(password: string, salt: Salt): (h: string)
    ensures |h| == |Prefix| + SaltLength + |BcryptKey(password)|
    ensures h[..|Prefix|] == Prefix && h[|Prefix|..|Prefix| + SaltLength] == salt
  {
    Prefix + salt + Digest(salt, password)
  }

  /** `verify_password(password, hashed)`: `bcrypt.checkpw` reads version, cost and salt from
      the stored hash and compares the hash of `password` under that salt with it. A stored
      string that is not a bcrypt hash answers false here where `checkpw` raises
      `ValueError`; every stored hash comes from `hash_password`, so that case never arises. */
  predicate VerifyPassword(password: string, hashed: string) {
    && |hashed| >= |Prefix| + SaltLength
    && hashed[..|Prefix|] == Prefix
    && IsSalt(hashed[|Prefix|..|Prefix| + SaltLength])
    && hashed == HashPassword(password, hashed[|Prefix|..|Prefix| + SaltLength])
  }

  /** `verify_password(p, hash_password(p))` holds whatever salt was drawn. */
  lemma VerifyHashed(password: string, salt: Salt)
    ensures VerifyPassword(password, HashPassword(password, salt))
  {
  }

  /** A password that differs from the hashed one within the bytes bcrypt reads does not
      verify against the hash (no collisions in the model). */
  lemma VerifyRejectsOther(password: string, other: string, salt: Salt)
    requires BcryptKey(other) != BcryptKey(password)
    ensures !VerifyPassword(other, HashPassword(password, salt))
  {
  }

  /** Two ASCII passwords of at most 72 characters are read whole, so two different ones
      never verify against each other. */
  lemma ShortAsciiKeyIsPassword(password: string)
    requires |password| <= MaxKeyBytes
    requires forall i :: 0 <= i < |password| ==> password[i] as int < 0x80
    ensures BcryptKey(password) == password
  {
  }

  /** Encoding distributes over concatenation. */
  lemma {:induction false} Utf8Append(a: string, b: string)
    ensures Utf8(a + b) == Utf8(a) + Utf8(b)
  {
    if a != [] {
      assert (a + b)[0] == a[0] && (a + b)[1..] == a[1..] + b;
      Utf8Append(a[1..], b);
      calc {
        Utf8(a + b);
        Utf8Char(a[0]) + Utf8(a[1..] + b);
        Utf8Char(a[0]) + (Utf8(a[1..]) + Utf8(b));
        (Utf8Char(a[0]) + Utf8(a[1..])) + Utf8(b);
      }
    } else {
      assert a + b == b;
    }
  }

  /** Bytes past the 72nd are not read: two passwords sharing a start of 72 or more bytes
      verify against each other's hash, whatever follows. */
  lemma LongPasswordsCollide(start: string, rest: string, rest': string, salt: Salt)
    requires |Utf8(start)| >= MaxKeyBytes
    ensures VerifyPassword(start + rest', HashPassword(start + rest, salt))
  {
    Utf8Append(start, rest);
    Utf8Append(start, rest');
    assert Utf8(start + rest)[..MaxKeyBytes] == Utf8(start)[..MaxKeyBytes];
    assert Utf8(start + rest')[..MaxKeyBytes] == Utf8(start)[..MaxKeyBytes];
  }

  /** A hash is never the plain password when bcrypt reads the whole password, and two
      salts give two hashes of the same password. */
  lemma HashHidesPassword(password: string, salt: Salt, salt': Salt)
    ensures |Utf8(password)| <= MaxKeyBytes ==> HashPassword(password, salt) != password
    ensures salt != salt' ==> HashPassword(password, salt) != HashPassword(password, salt')
  {
    if salt != salt' {
      var h, h' := HashPassword(password, salt), HashPassword(password, salt');
      assert h[|Prefix|..|Prefix| + SaltLength] != h'[|Prefix|..|Prefix| + SaltLength];
    }
  }
}
