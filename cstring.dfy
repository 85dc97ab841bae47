/** Bytes and NUL-terminated character buffers, as the C++ `char*` API sees them.
    A C-string operand is modelled as the readable memory behind the pointer:
    a sequence of bytes that contains a NUL somewhere. Its text is everything
    before the first NUL. */
module CStrings {

  /** One `char` of the buffer. */
  newtype byte = x: int | 0 <= x < 256

  /** The terminator byte. */
  const NUL: byte := 0

  /** `size` zero bytes: what a freshly allocated, zero-filled buffer holds. */
  function Zeros(size: nat): (z: seq<byte>)
    ensures |z| == size && forall i :: 0 <= i < size ==> z[i] == NUL
  {
    seq(size, _ => NUL)
  }

  /** `CTL::length`: counts the bytes before the first NUL, recursively. */
  function CLength(s: seq<byte>): (n: nat)
    requires NUL in s
    ensures n < |s| && s[n] == NUL
    ensures NUL !in s[..n]
  {
    if s[0] != NUL then
      assert NUL in s[1..];
      var m := CLength(s[1..]);
      assert s[..1 + m] == [s[0]] + s[1..][..m];
      1 + m
    else 0
  }

  /** The text a NUL-terminated buffer denotes. */
  function Text(s: seq<byte>): (t: seq<byte>)
    requires NUL in s
    ensures |t| < |s| && s[|t|] == NUL
    ensures NUL !in t && t == s[..|t|]
  {
    s[..CLength(s)]
  }

  /** A NUL-free text followed by a terminator (and any further memory) is a
      C-string whose length is that of the text, and whose text is the text. */
  lemma {:induction false} TerminatedText(c: seq<byte>, rest: seq<byte>)
    requires NUL !in c
    ensures NUL in c + [NUL] + rest
    ensures CLength(c + [NUL] + rest) == |c|
    ensures Text(c + [NUL] + rest) == c
  {
    var s := c + [NUL] + rest;
    assert s[|c|] == NUL;
    if c != [] {
      assert s[1..] == c[1..] + [NUL] + rest;
      TerminatedText(c[1..], rest);
    }
  }
}
