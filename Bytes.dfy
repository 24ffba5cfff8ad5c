/** Bytes as the shell's C code sees them: `char` values, the delimiter set
    given to `strtok`, NUL-terminated strings and the literals it compares
    tokens against. */
module Bytes {

  /** One byte of input, as `getchar` and `fgets` deliver it. */
  type byte = x: int | 0 <= x < 256

  const NUL: byte := 0
  /** '\n' */
  const NL: byte := 10
  /** The value `getchar` returns at end of input. */
  const EOF: int := -1

  /** Membership in the delimiter string " \t\n\v\f\r". */
  predicate IsDelim(b: byte)
  {
    b == 32 || b == 9 || b == 10 || b == 11 || b == 12 || b == 13
  }

  predicate AllDelim(s: seq<byte>)
  {
    forall i :: 0 <= i < |s| ==> IsDelim(s[i])
  }

  predicate NoDelim(s: seq<byte>)
  {
    forall i :: 0 <= i < |s| ==> !IsDelim(s[i])
  }

  /** "cd" */
  const CD: seq<byte> := [99, 100]
  /** ">" */
  const GT: seq<byte> := [62]
  /** "<" */
  const LT: seq<byte> := [60]

  /** The C string held by a buffer: the bytes before its first NUL. */
  function CStr(buf: seq<byte>): (s: seq<byte>)
    ensures |s| <= |buf| && s == buf[..|s|]
    ensures NUL !in s
    ensures |s| < |buf| ==> buf[|s|] == NUL
  {
    if buf == [] || buf[0] == NUL then [] else [buf[0]] + CStr(buf[1..])
  }

  /** A NUL inside a buffer ends its C string there at the latest. */
  lemma {:induction false} CStrUpTo(buf: seq<byte>, k: nat)
    requires k < |buf| && buf[k] == NUL
    ensures CStr(buf) == CStr(buf[..k])
  {
    if k > 0 && buf[0] != NUL {
      assert buf[1..][k - 1] == NUL;
      CStrUpTo(buf[1..], k - 1);
      assert buf[1..][..k - 1] == buf[..k][1..];
    }
  }

  /** A byte string with no NUL is its own C string. */
  lemma {:induction false} CStrNoNul(s: seq<byte>)
    requires NUL !in s
    ensures CStr(s) == s
  {
    if s != [] {
      CStrNoNul(s[1..]);
      assert s == [s[0]] + s[1..];
    }
  }

  /** The value of `char c = (int)x` on a platform whose `char` is signed
      (x86-64 Linux): bytes 128..255 become negative, EOF stays -1. */
  function AsSignedChar(x: int): (c: int)
    requires EOF <= x < 256
    ensures -128 <= c < 128
    ensures c == EOF <==> x == EOF || x == 255
    ensures 0 <= x < 128 ==> c == x
  {
    if x >= 128 then x - 256 else x
  }
}
