/** Client code: short sessions with `CTL::String`, whose outcomes follow from
    the contracts of the class alone. */
module Scenarios {
  import opened CStrings
  import opened StringSemantics
  import opened CTL

  // ASCII texts used below, as bytes.
  const Hello: seq<byte> := [104, 101, 108, 108, 111]   // "hello"
  const World: seq<byte> := [32, 119, 111, 114, 108, 100]   // " world"
  const Ab: seq<byte> := [97, 98]   // "ab"
  const Abc: seq<byte> := [97, 98, 99]   // "abc"
  const Aab: seq<byte> := [97, 97, 98]   // "aab"
  const Cat: seq<byte> := [99, 97, 116]   // "cat"
  const Car: seq<byte> := [99, 97, 114]   // "car"

  /** The C-string literal with text `t`: its bytes and the terminator. */
  function Literal(t: seq<byte>): (b: seq<byte>)
    requires NUL !in t
    ensures NUL in b && CLength(b) == |t| && Text(b) == t
  {
    TerminatedText(t, []);
    t + [NUL] + []
  }

  /** Appending "hello" and then " world" to a default string gives the
      11 bytes "hello world"; both fit, so the size stays 15. */
  method AppendTwice() returns (s: String)
    ensures fresh(s) && s.Valid()
    ensures s.len == 11 && s.Contents() == Hello + World && s.buf.Length == 15
  {
    s := new String();
    s.Append(Literal(Hello));
    s.Append(Literal(World));
  }

  /** "ab" * 3 is "ababab"; the last of the three appends doubles the
      7-byte buffer to 13 bytes. */
  method RepeatAb() returns (r: String)
    ensures fresh(r) && r.Valid()
    ensures r.len == 6 && r.Contents() == Ab + Ab + Ab && r.buf.Length == 13
  {
    var ab := new String.FromCString(Literal(Ab));
    r := ab.Times(3);
    assert Repeat(Ab, 1) == Ab;
  }

  /** "cat" == "cat" holds and "cat" == "car" does not. */
  method CompareCat() returns (same: bool, other: bool)
    ensures same && !other
  {
    var cat := new String.FromCString(Literal(Cat));
    same := cat.Equals(Literal(Cat));
    other := cat.Equals(Literal(Car));
    assert Cat[2] != Car[2];
  }

  /** "" has no 'x'; "abc" has a 'b'. */
  method HasByteOfLiteral() returns (inEmpty: bool, inAbc: bool)
    ensures !inEmpty && inAbc
  {
    var empty := new String.FromCString(Literal([]));
    inEmpty := empty.HasByte(120);
    var abc := new String.FromCString(Literal(Abc));
    inAbc := abc.HasByte(98);
    assert abc.Contents()[1] == 98;
  }

  /** `Has("ab")` on "aab" is false, though "ab" occurs at index 1. */
  method HasMissesOverlap() returns (found: bool)
    ensures !found
  {
    var aab := new String.FromCString(Literal(Aab));
    found := aab.HasText(Literal(Ab));
    ScanMissesOverlap();
  }

  /** `reserve` below the size answers false and leaves length, size and
      content as they were (`lengthMid`, `sizeMid`, `contentMid` are read just
      after it); at or above it, it moves to exactly that size. */
  method ReserveBelowAndAbove() returns (s: String, below: bool, above: bool,
      lengthMid: nat, sizeMid: nat, ghost contentMid: seq<byte>)
    ensures fresh(s) && s.Valid()
    ensures !below && lengthMid == 3 && sizeMid == 4 && contentMid == Abc
    ensures above && s.Contents() == Abc && s.buf.Length == 10
  {
    s := new String.FromCString(Literal(Abc));
    below := s.Reserve(2);
    lengthMid := s.Length();
    sizeMid := s.Size();
    contentMid := s.Contents();
    above := s.Reserve(10);
  }

  /** A copy is independent: appending to it leaves the original as it was. */
  method CopyIsIndependent() returns (x: String, y: String)
    ensures fresh(x) && fresh(y) && x.Valid() && y.Valid() && x.buf != y.buf
    ensures x.Contents() == Ab && y.Contents() == Ab + Ab
  {
    x := new String.FromCString(Literal(Ab));
    y := new String.Copy(x);
    x.BufferIsCString();
    y.Append(x.buf[..]);
  }

  /** `x == x` holds, and `x == y` answers as `y == x` does: exactly when
      the contents agree. */
  method EqualityLaws(x: String, y: String) returns (xx: bool, xy: bool, yx: bool)
    requires x.Valid() && y.Valid()
    ensures xx && xy == yx
    ensures xy <==> x.Contents() == y.Contents()
  {
    x.BufferIsCString();
    y.BufferIsCString();
    xx := x.Equals(x.buf[..]);
    xy := x.Equals(y.buf[..]);
    yx := y.Equals(x.buf[..]);
  }

  /** Compared with itself, a string is `>` and `>=`, but neither `<` nor
      `<=`: the order built from `>` is not reflexive where `<=` is meant. */
  method SelfOrdering(x: String) returns (gt: bool, ge: bool, lt: bool, le: bool)
    requires x.Valid()
    ensures gt && ge && !lt && !le
  {
    x.BufferIsCString();
    GreaterWhenEqual(x.Contents(), x.buf[..]);
    gt := x.Greater(x.buf[..]);
    ge := x.GreaterOrEqual(x.buf[..]);
    lt := x.Less(x.buf[..]);
    le := x.LessOrEqual(x.buf[..]);
  }

  /** Indexing at the length is out of range for every valid string. */
  method IndexAtLength(s: String) returns (r: Access)
    requires s.Valid()
    ensures r == OutOfRange
  {
    r := s.At(s.len);
  }
}
