/** Standard input as the shell reads it: a sequence of bytes consumed by
    `getchar` and `fgets`. */
module Stdio {
  import opened Bytes

  /** How many bytes `fgets` takes from `s` when its buffer has room for
      `room` bytes (its size argument minus one for the NUL): it stops just
      after a newline, at the end of input, or when the room is used up. */
  function FgetsCount(s: seq<byte>, room: nat): (k: nat)
    ensures k <= room && k <= |s|
    ensures forall i :: 0 <= i < k - 1 ==> s[i] != NL
    ensures 0 < room && 0 < |s| ==> 0 < k
    ensures k < room && k < |s| ==> 0 < k && s[k - 1] == NL
  {
    if room == 0 || s == [] then 0
    else if s[0] == NL then 1
    else 1 + FgetsCount(s[1..], room - 1)
  }

  class Stdin {
    /** The bytes not read yet. */
    var rest: seq<byte>

    constructor (input: seq<byte>)
      ensures rest == input
    {
      rest := input;
    }

    /** `getchar()`: the next byte as an int, or EOF once nothing is left. */
    method Getchar() returns (c: int)
      modifies this
      ensures old(rest) == [] ==> c == EOF && rest == []
      ensures old(rest) != [] ==> c == old(rest)[0] && rest == old(rest)[1..]
    {
      if rest == [] {
        c := EOF;
      } else {
        c := rest[0];
        rest := rest[1..];
      }
    }

    /** `fgets(buf, size, stdin)`: copies the bytes `FgetsCount` names into
        `buf` and NUL-terminates them; at end of input with nothing read it
        fails and leaves `buf` alone. */
    method Fgets(buf: array<byte>, size: nat) returns (ok: bool)
      requires 2 <= size <= buf.Length
      modifies this, buf
      ensures var k := FgetsCount(old(rest), size - 1);
        && ok == (0 < k)
        && rest == old(rest)[k..]
        && (ok ==> buf[..k] == old(rest)[..k] && buf[k] == NUL && buf[k + 1..] == old(buf[k + 1..]))
        && (!ok ==> buf[..] == old(buf[..]))
    {
      var k := FgetsCount(rest, size - 1);
      var i := 0;
      while i < k
        invariant 0 <= i <= k
        invariant rest == old(rest)
        invariant buf[..i] == rest[..i]
        invariant buf[i..] == old(buf[i..])
      {
        buf[i] := rest[i];
        i := i + 1;
      }
      if 0 < k {
        buf[k] := NUL;
      }
      rest := rest[k..];
      ok := 0 < k;
    }
  }
}
