/**
 * Password hashing as the auth controller uses it: bcryptjs's
 * `bcrypt.hash(password, 10)` to store a password and
 * `bcrypt.compare(password, hash)` to check one.
 *
 * bcrypt's Blowfish key schedule reads exactly 72 key bytes (18 words of
 * four bytes). bcryptjs takes the password's UTF-8 bytes followed by one zero
 * byte and cycles through that stream until 72 bytes have been read. A hash
 * is modelled by its cost factor and those 72 key bytes, so two passwords
 * match the same hash exactly when their key bytes agree: everything past
 * the 72nd byte is ignored. The salt and the hash's one-wayness are not
 * modelled.
 */
module Credentials {

  /** The cost factor the controller passes to bcrypt. */
  const SaltRounds: nat := 10

  /** The number of key bytes bcrypt's key schedule reads. */
  const KeyBytes: nat := 72

  newtype Byte = b: int | 0 <= b < 256

  /** The length of a UTF-8 sequence, as its first byte announces it. */
  function LeadLength(lead: Byte): nat
  {
    if lead < 0x80 then 1 else if lead < 0xE0 then 2 else if lead < 0xF0 then 3 else 4
  }

  /** The code point a UTF-8 sequence of one to four bytes stands for. */
  function DecodeChar(r: seq<Byte>): int
    requires 1 <= |r| <= 4
  {
    if |r| == 1 then r[0] as int
    else if |r| == 2 then (r[0] as int - 0xC0) * 64 + (r[1] as int - 0x80)
    else if |r| == 3 then ((r[0] as int - 0xE0) * 64 + (r[1] as int - 0x80)) * 64 + (r[2] as int - 0x80)
    else (((r[0] as int - 0xF0) * 64 + (r[1] as int - 0x80)) * 64 + (r[2] as int - 0x80)) * 64 + (r[3] as int - 0x80)
  }

  /** The UTF-8 encoding of one character. */
  function EncodeChar(c: char): (r: seq<Byte>)
    ensures 1 <= |r| <= 4 && |r| == LeadLength(r[0])
    ensures DecodeChar(r) == c as int
    ensures 0 in r <==> c == '\0'
  {
    var n := c as int;
    var q1 := n / 64;
    var q2 := q1 / 64;
    var q3 := q2 / 64;
    if n < 0x80 then [n as Byte]
    else if n < 0x800 then [(0xC0 + q1) as Byte, (0x80 + n % 64) as Byte]
    else if n < 0x10000 then [(0xE0 + q2) as Byte, (0x80 + q1 % 64) as Byte, (0x80 + n % 64) as Byte]
    else [(0xF0 + q3) as Byte, (0x80 + q2 % 64) as Byte, (0x80 + q1 % 64) as Byte, (0x80 + n % 64) as Byte]
  }

  /** The UTF-8 encoding of a string. */
  function Utf8(s: string): (r: seq<Byte>)
    ensures |r| >= |s|
    ensures (forall i :: 0 <= i < |s| ==> s[i] as int < 0x80) ==> |r| == |s|
    ensures 0 in r <==> '\0' in s
  {
    if |s| == 0 then []
    else
      assert '\0' in s <==> s[0] == '\0' || '\0' in s[1..];
      EncodeChar(s[0]) + Utf8(s[1..])
  }

  /** The first `n` bytes of `stream` repeated over and over. */
  function Cycle(stream: seq<Byte>, n: nat): (r: seq<Byte>)
    requires |stream| > 0
    ensures |r| == n
    ensures n <= |stream| ==> r == stream[..n]
    ensures n >= |stream| ==> r[..|stream|] == stream
    decreases n
  {
    if n <= |stream| then stream[..n]
    else stream + Cycle(stream, n - |stream|)
  }

  /** The 72 bytes bcrypt's key schedule reads for a password. */
  function Key(password: string): (k: seq<Byte>)
    ensures |k| == KeyBytes
    ensures |Utf8(password)| < KeyBytes ==> k[..|Utf8(password)| + 1] == Utf8(password) + [0]
    ensures |Utf8(password)| >= KeyBytes ==> k == Utf8(password)[..KeyBytes]
  {
    var stream := Utf8(password) + [0];
    assert |Utf8(password)| >= KeyBytes ==> stream[..KeyBytes] == Utf8(password)[..KeyBytes];
    Cycle(stream, KeyBytes)
  }

  /**
   * A bcrypt hash, symbolically: the cost factor and the key bytes it was
   * computed from. The model never reads `key` except through Matches.
   */
  datatype PasswordHash = Bcrypt(rounds: nat, key: seq<Byte>)

  /** `bcrypt.compare(password, hash)`. */
  predicate Matches(password: string, hash: PasswordHash)
  {
    Key(password) == hash.key
  }

  /** `bcrypt.hash(password, 10)`: a hash that the password matches, as does every password with the same key bytes. */
  function Hash(password: string): (h: PasswordHash)
    ensures h.rounds == SaltRounds
    ensures Matches(password, h)
    ensures forall other: string :: Matches(other, h) <==> Key(other) == Key(password)
  {
    Bcrypt(SaltRounds, Key(password))
  }

  /** Encoding a concatenation encodes the parts one after the other. */
  lemma {:induction false} Utf8Append(a: string, b: string)
    ensures Utf8(a + b) == Utf8(a) + Utf8(b)
    decreases |a|
  {
    if |a| > 0 {
      assert (a + b)[1..] == a[1..] + b;
      Utf8Append(a[1..], b);
    } else {
      assert a + b == b;
    }
  }

  /** Distinct strings have distinct encodings. */
  lemma {:induction false} Utf8Injective(a: string, b: string)
    requires Utf8(a) == Utf8(b)
    ensures a == b
    decreases |a|
  {
    if |a| > 0 && |b| > 0 {
      var ea, eb := EncodeChar(a[0]), EncodeChar(b[0]);
      assert Utf8(a)[0] == ea[0] && Utf8(b)[0] == eb[0];
      assert |ea| == |eb|;
      assert ea == Utf8(a)[..|ea|] && eb == Utf8(b)[..|eb|];
      assert a[0] as int == b[0] as int;
      assert Utf8(a[1..]) == Utf8(a)[|ea|..] == Utf8(b)[|eb|..] == Utf8(b[1..]);
      Utf8Injective(a[1..], b[1..]);
      assert a == [a[0]] + a[1..] && b == [b[0]] + b[1..];
    }
  }

  /** Once a password fills the 72 key bytes, whatever follows it does not change the match. */
  lemma OnlyKeyBytesCount(prefix: string, tail: string, otherTail: string)
    requires |Utf8(prefix)| >= KeyBytes
    ensures Matches(prefix + tail, Hash(prefix + otherTail))
  {
    Utf8Append(prefix, tail);
    Utf8Append(prefix, otherTail);
    assert (Utf8(prefix) + Utf8(tail))[..KeyBytes] == Utf8(prefix)[..KeyBytes];
    assert (Utf8(prefix) + Utf8(otherTail))[..KeyBytes] == Utf8(prefix)[..KeyBytes];
  }

  /**
   * Within the 72-byte limit bcrypt tells passwords apart: two different
   * passwords without a zero character, each at most 72 UTF-8 bytes long,
   * never match each other's hash.
   */
  lemma DistinctPasswordsDiffer(a: string, b: string)
    requires a != b && '\0' !in a && '\0' !in b
    requires |Utf8(a)| <= KeyBytes && |Utf8(b)| <= KeyBytes
    ensures !Matches(a, Hash(b))
  {
    if Key(a) == Key(b) {
      if |Utf8(a)| < |Utf8(b)| {
        TerminatorSeparates(a, b);
      } else if |Utf8(b)| < |Utf8(a)| {
        TerminatorSeparates(b, a);
      } else {
        assert Utf8(a) == Key(a)[..|Utf8(a)|];
        assert Utf8(b) == Key(b)[..|Utf8(b)|];
        Utf8Injective(a, b);
      }
    }
  }

  /** A shorter password's key has its zero terminator where a longer one still has a byte of its own. */
  lemma TerminatorSeparates(a: string, b: string)
    requires '\0' !in b
    requires |Utf8(a)| < |Utf8(b)| <= KeyBytes
    ensures Key(a) != Key(b)
  {
    var n := |Utf8(a)|;
    assert Key(a)[..n + 1][n] == 0;
    assert Key(b)[n] == Utf8(b)[n];
    assert Utf8(b)[n] in Utf8(b);
  }
}
