/** `CTL::String`: a growable, NUL-terminated character buffer that owns its
    memory. The buffer's allocated size plays `m_Size`, `len` plays `m_Length`. */
module CTL {
  import opened CStrings
  import opened StringSemantics

  /** What `operator[]` yields: the byte, or the out-of-range exception. */
  datatype Access = Ok(value: byte) | OutOfRange

  /** `AllocStr` followed by `strcpy_s`: a fresh buffer of `size` bytes whose
      first bytes are `prefix`. `AllocStr` zero-fills; the bytes that `strcpy_s`
      leaves unspecified past the terminator are taken to keep that NUL, which
      no contract of the class relies on. */
  method Alloc(size: nat, prefix: seq<byte>) returns (a: array<byte>)
    requires |prefix| <= size
    ensures fresh(a) && a[..] == prefix + Zeros(size - |prefix|)
  {
    a := new byte[size](i => if 0 <= i < |prefix| then prefix[i] else NUL);
    assert a[..] == prefix + Zeros(size - |prefix|) by {
      assert forall i :: 0 <= i < size ==> a[..][i] == (prefix + Zeros(size - |prefix|))[i];
    }
  }

  /** `strcat_s` into a buffer with room: writes `s` at index `at`. The bytes
      past the written terminator, which `strcat_s` leaves unspecified, are
      taken to keep their old values; no contract of the class relies on it. */
  method WriteAt(a: array<byte>, at: nat, s: seq<byte>)
    requires at + |s| <= a.Length
    modifies a
    ensures a[..] == old(a[..at]) + s + old(a[at + |s|..])
  {
    forall i | at <= i < at + |s| {
      a[i] := s[i - at];
    }
    assert a[..] == old(a[..at]) + s + old(a[at + |s|..]) by {
      assert forall i :: 0 <= i < a.Length ==>
        a[..][i] == (old(a[..at]) + s + old(a[at + |s|..]))[i];
    }
  }

  class String {
    var buf: array<byte>
    var len: nat

    /** The representation invariant: the content occupies `buf[..len]`, holds
        no NUL, and is followed by a NUL inside the buffer (`len < Size`). */
    ghost predicate Valid()
      reads this, buf
    {
      len < buf.Length && buf[len] == NUL && NUL !in buf[..len]
    }

    /** The content bytes. */
    ghost function Contents(): (c: seq<byte>)
      reads this, buf
      requires Valid()
      ensures |c| == len && NUL !in c
    {
      buf[..len]
    }

    /** The buffer itself, read as a C-string (what the `String` overloads
        pass on), denotes exactly the content. */
    lemma BufferIsCString()
      requires Valid()
      ensures NUL in buf[..] && len <= |buf[..]|
      ensures CLength(buf[..]) == len && Text(buf[..]) == Contents()
    {
      assert buf[..] == buf[..len] + [NUL] + buf[len + 1..];
      TerminatedText(buf[..len], buf[len + 1..]);
    }

    /** `String()`: empty, with room for 15 bytes. */
    constructor ()
      ensures Valid() && fresh(buf)
      ensures Contents() == [] && buf.Length == 15
    {
      var b := Alloc(15, []);
      len, buf := 0, b;
    }

    /** `String(const String&)`: a deep copy with the same length, size and
        content, in a buffer of its own. */
    constructor Copy(other: String)
      requires other.Valid()
      ensures Valid() && fresh(buf)
      ensures len == other.len && buf.Length == other.buf.Length
      ensures Contents() == other.Contents()
    {
      var b := Alloc(other.buf.Length, other.buf[..other.len + 1]);
      assert b[..other.len] == other.buf[..other.len];
      len, buf := other.len, b;
    }

    /** `String(size_t requiredLength)`: empty, with room for `n` bytes of
        content and the terminator. */
    constructor WithCapacity(n: nat)
      ensures Valid() && fresh(buf)
      ensures Contents() == [] && buf.Length == n + 1
    {
      var b := Alloc(n + 1, []);
      len, buf := 0, b;
    }

    /** `String(const char*)`: the text of `s`, in a buffer of exactly
        `length(s) + 1` bytes. */
    constructor FromCString(s: seq<byte>)
      requires NUL in s
      ensures Valid() && fresh(buf)
      ensures len == CLength(s) && buf.Length == len + 1
      ensures Contents() == Text(s)
    {
      var n := CLength(s);
      var b := Alloc(n + 1, s[..n + 1]);
      assert b[..n] == Text(s);
      len, buf := n, b;
    }

    /** `String(const std::string&)`: `m_Length` is the string's size and the
        buffer holds `size + 1` bytes. */
    constructor FromStdString(s: seq<byte>)
      requires NUL !in s
      ensures Valid() && fresh(buf)
      ensures len == |s| && buf.Length == |s| + 1
      ensures Contents() == s
    {
      var b := Alloc(|s| + 1, s);
      assert b[..|s|] == s;
      len, buf := |s|, b;
    }

    /** `reserve(size)`: refuses to shrink; otherwise moves the content into a
        fresh buffer of exactly `size` bytes. An empty string gets a buffer that
        is zero-filled throughout, since nothing is copied into it. */
    method Reserve(size: nat) returns (grown: bool)
      requires Valid()
      modifies this
      ensures Valid()
      ensures grown <==> size >= old(buf.Length)
      ensures len == old(len) && Contents() == old(Contents())
      ensures !grown ==> buf == old(buf)
      ensures grown ==> fresh(buf) && buf.Length == size
      ensures grown && old(len) == 0 ==> buf[..] == Zeros(size)
    {
      if size < buf.Length {
        return false;
      }
      if len == 0 {
        buf := Alloc(size, []);
      } else {
        buf := Alloc(size, buf[..len]);
      }
      assert buf[..len] == old(Contents());
      return true;
    }

    /** `append(string, requiredSize)`: appends the text of `t`. When the
        buffer holds at most the `needed` bytes (note: `<=`), it moves to a
        fresh buffer of `hint` bytes, or of `2 * needed - 1` when `hint` is 0;
        otherwise it writes in place and the size stays. */
    method Append(t: seq<byte>, hint: nat := 0)
      requires Valid() && NUL in t
      requires buf.Length <= len + CLength(t) + 1 ==> hint == 0 || hint >= len + CLength(t) + 1
      modifies this, buf
      ensures Valid()
      ensures len == old(len) + CLength(t)
      ensures Contents() == old(Contents()) + Text(t)
      ensures buf.Length == GrownSize(old(buf.Length), old(len) + CLength(t) + 1, hint)
      ensures old(buf.Length) <= old(len) + CLength(t) + 1 ==> fresh(buf)
      ensures old(buf.Length) > old(len) + CLength(t) + 1 ==> buf == old(buf)
    {
      var n := CLength(t);
      var needed := len + n + 1;
      if buf.Length <= needed {
        var size := if hint != 0 then hint else 2 * needed - 1;
        buf := Alloc(size, buf[..len] + Text(t));
      } else {
        WriteAt(buf, len, Text(t) + [NUL]);
      }
      len := len + n;
      assert buf[..len] == old(Contents()) + Text(t);
    }

    /** `Has(char)`: whether the byte occurs in the content. */
    method HasByte(c: byte) returns (found: bool)
      requires Valid()
      ensures found <==> c in Contents()
    {
      var i := 0;
      while i < len
        invariant i <= len
        invariant c !in buf[..i]
      {
        if buf[i] == c {
          assert buf[..len][i] == c;
          return true;
        }
        assert buf[..i + 1] == buf[..i] + [buf[i]];
        i := i + 1;
      }
      assert buf[..i] == Contents();
      return false;
    }

    /** `Has(const char*)`: the two loops `Scan` describes, the inner one
        advancing the outer index. */
    method HasText(t: seq<byte>) returns (found: bool)
      requires Valid() && NUL in t
      ensures found == ScanFinds(Contents(), Text(t))
    {
      ghost var c, p := Contents(), Text(t);
      var count := CLength(t);
      assert |p| == count && forall k :: 0 <= k < count ==> p[k] == t[k] != NUL;
      assert forall k :: 0 <= k < len ==> c[k] == buf[k];
      var i := 0;
      while i < len
        invariant i <= len + 1
        invariant i < len ==> Scan(c, p, i, 0) == ScanFinds(c, p)
        invariant i >= len ==> !ScanFinds(c, p)
        decreases len + 1 - i
      {
        ghost var start := i;
        var j := 0;
        while j < count && buf[i] == t[j]
          invariant start <= i <= len && j <= count
          invariant Scan(c, p, i, j) == ScanFinds(c, p)
        {
          i, j := i + 1, j + 1;
        }
        if j == count {
          return true;
        }
        i := i + 1;
      }
      return false;
    }

    /** `operator[](index)`: the byte at `i` when `i < Length`, otherwise the
        out-of-range error. The object is left unchanged either way. */
    method At(i: nat) returns (r: Access)
      requires Valid()
      ensures r.Ok? <==> i < len
      ensures r.Ok? ==> r.value == Contents()[i] && r.value != NUL
    {
      if len > i {
        return Ok(buf[i]);
      }
      return OutOfRange;
    }

    /** `Length()`: the number of content bytes. */
    method Length() returns (n: nat)
      requires Valid()
      ensures n == |Contents()| && n < buf.Length
    {
      return len;
    }

    /** `Size()`: the allocated size, always more than the content length. */
    method Size() returns (n: nat)
      requires Valid()
      ensures n == buf.Length && n > |Contents()|
    {
      return buf.Length;
    }

    /** `operator+(const char*)`: a new string holding this content followed by
        the text of `t`. It starts with room for exactly both texts, so the
        second append always reallocates (or the first does, when `t` is empty),
        leaving the size at `2 * length + 1`. */
    method Concat(t: seq<byte>) returns (r: String)
      requires Valid() && NUL in t
      ensures fresh(r) && fresh(r.buf) && r.Valid()
      ensures r.Contents() == Contents() + Text(t)
      ensures r.len == len + CLength(t) && r.buf.Length == 2 * r.len + 1
    {
      BufferIsCString();
      r := new String.WithCapacity(len + CLength(t));
      r.Append(buf[..]);
      r.Append(t);
    }

    /** `operator*(count)`: an empty string with room for one byte when this
        one is empty; otherwise the content repeated `count` times. With
        `count > 0` the last append always reallocates, so the size ends at
        `2 * length + 1`; with `count == 0` no append runs and the size stays
        1, which is that same value. */
    method Times(count: nat) returns (r: String)
      requires Valid()
      ensures fresh(r) && fresh(r.buf) && r.Valid()
      ensures r.Contents() == if len == 0 then [] else Repeat(Contents(), count)
      ensures count == 0 ==> r.Contents() == []
      ensures count == 1 ==> r.Contents() == Contents()
      ensures len == 0 ==> r.buf.Length == 2
      ensures len > 0 ==> r.len == count * len && r.buf.Length == 2 * r.len + 1
    {
      if len == 0 {
        r := new String.WithCapacity(1);
        return;
      }
      BufferIsCString();
      var total := count * len;
      r := new String.WithCapacity(total);
      var left := count;
      ghost var done := 0;
      while left > 0
        invariant done + left == count
        invariant fresh(r) && fresh(r.buf) && r.Valid()
        invariant r.Contents() == Repeat(Contents(), done)
        invariant r.buf.Length == if left == 0 then 2 * total + 1 else total + 1
      {
        LastCopyGrows(total, count, done, left, len);
        r.Append(buf[..]);
        left, done := left - 1, done + 1;
      }
    }

    /** `operator==(const char*)`: same length and the same byte at every index. */
    method Equals(t: seq<byte>) returns (r: bool)
      requires Valid() && NUL in t
      ensures r <==> Contents() == Text(t)
    {
      if len != CLength(t) {
        return false;
      }
      var i := 0;
      while i < len
        invariant i <= len
        invariant buf[..i] == t[..i]
      {
        if buf[i] != t[i] {
          assert Contents()[i] != Text(t)[i];
          return false;
        }
        assert buf[..i + 1] == buf[..i] + [buf[i]];
        assert t[..i + 1] == t[..i] + [t[i]];
        i := i + 1;
      }
      return true;
    }

    /** `operator!=(const char*)`: the negation of `==`. */
    method NotEquals(t: seq<byte>) returns (r: bool)
      requires Valid() && NUL in t
      ensures r <==> Contents() != Text(t)
    {
      var eq := Equals(t);
      return !eq;
    }

    /** `operator>(const char*)`: false as soon as a content byte is smaller
        (as a signed `char`) than the operand's byte at the same index. It
        reads the operand up to this string's length, so that memory must
        exist. */
    method Greater(t: seq<byte>) returns (r: bool)
      requires Valid() && len <= |t|
      ensures r <==> NoByteBelow(Contents(), t)
      ensures !r <==> exists i :: 0 <= i < len && ByteLess(buf[i], t[i])
    {
      var i := 0;
      while i < len
        invariant i <= len
        invariant forall k :: 0 <= k < i ==> !ByteLess(buf[k], t[k])
      {
        if Signed(buf[i]) < Signed(t[i]) {
          return false;
        }
        i := i + 1;
      }
      return true;
    }

    /** `operator>=(const char*)`: `> || ==`; since equality implies `>`, it
        holds exactly when `>` does. */
    method GreaterOrEqual(t: seq<byte>) returns (r: bool)
      requires Valid() && NUL in t && len <= |t|
      ensures r <==> NoByteBelow(Contents(), t)
    {
      var gt := Greater(t);
      var eq := false;
      if !gt {
        eq := Equals(t);
        if eq {
          GreaterWhenEqual(Contents(), t);
        }
      }
      return gt || eq;
    }

    /** `operator<(const char*)`: `!(>=)`, so some content byte is smaller
        than the operand's byte at the same index. */
    method Less(t: seq<byte>) returns (r: bool)
      requires Valid() && NUL in t && len <= |t|
      ensures r <==> exists i :: 0 <= i < len && ByteLess(buf[i], t[i])
    {
      var ge := GreaterOrEqual(t);
      return !ge;
    }

    /** `operator<=(const char*)`: `!(>)`, the same relation as `<`. */
    method LessOrEqual(t: seq<byte>) returns (r: bool)
      requires Valid() && len <= |t|
      ensures r <==> exists i :: 0 <= i < len && ByteLess(buf[i], t[i])
    {
      var gt := Greater(t);
      return !gt;
    }
  }

  /** The size `append` leaves: unchanged when more than the `needed` bytes
      are there, otherwise `hint`, or `2 * needed - 1` when `hint` is 0. Either
      way there is room for the content and its terminator. */
  function GrownSize(size: nat, needed: nat, hint: nat): (s: nat)
    requires needed >= 1 && (size <= needed ==> hint == 0 || hint >= needed)
    ensures s >= needed
    ensures size > needed ==> s == size
    ensures size <= needed && hint == 0 ==> s == 2 * needed - 1
    ensures size <= needed && hint != 0 ==> s == hint
  {
    if size <= needed then (if hint != 0 then hint else 2 * needed - 1) else size
  }

  /** In `operator*` the target starts with `total + 1` bytes, `total` being
      `count * len`. After `done` copies, the next append needs
      `done * len + len + 1` bytes, which reaches the size exactly on the last
      copy; that append doubles it to `2 * total + 1`. */
  lemma LastCopyGrows(total: nat, count: nat, done: nat, left: nat, len: nat)
    requires total == count * len && done + left == count && 0 < left && 0 < len
    ensures done * len + len == (done + 1) * len
    ensures total + 1 <= done * len + len + 1 <==> left == 1
    ensures left == 1 ==> 2 * (done * len + len + 1) - 1 == 2 * total + 1
  {
    assert total == done * len + left * len;
    if left > 1 {
      assert left * len == len + (left - 1) * len;
    }
  }
}
