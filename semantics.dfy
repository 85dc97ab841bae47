/** The meaning of the searching, repeating and comparing operations of
    `CTL::String`, as functions of the content bytes. The class methods are
    proved against these; the lemmas here say what the functions promise. */
module StringSemantics {
  import opened CStrings

  // ---------------------------------------------------------------------
  // Repetition (operator*)

  /** `s` written `n` times in a row. */
  function Repeat(s: seq<byte>, n: nat): (r: seq<byte>)
    ensures |r| == n * |s|
  {
    if n == 0 then [] else Repeat(s, n - 1) + s
  }

  /** Repeating `m` times and then `n` times is repeating `m + n` times. */
  lemma {:induction false} RepeatAdd(s: seq<byte>, m: nat, n: nat)
    ensures Repeat(s, m) + Repeat(s, n) == Repeat(s, m + n)
  {
    if n > 0 {
      RepeatAdd(s, m, n - 1);
      assert Repeat(s, m) + Repeat(s, n) == (Repeat(s, m) + Repeat(s, n - 1)) + s;
    }
  }

  /** Copy `q` of the repeated text starts at index `q * |s|`: byte `k` of
      that copy is byte `k` of `s`. */
  lemma {:induction false} RepeatAt(s: seq<byte>, n: nat, q: nat, k: nat)
    requires q < n && k < |s|
    ensures q * |s| + k < |Repeat(s, n)| && Repeat(s, n)[q * |s| + k] == s[k]
  {
    if q < n - 1 {
      RepeatAt(s, n - 1, q, k);
    } else {
      assert q * |s| == (n - 1) * |s|;
    }
  }

  // ---------------------------------------------------------------------
  // Substring search (Has(text))

  /** The state of the two loops of `Has(text)` over content `c` and needle
      `p`: the outer index `i` and the number `j` of needle bytes the inner
      loop has matched. The inner loop advances `i` and `j` together while the
      bytes agree (the terminator at index `|c|` agrees with no needle byte);
      when it stops, the scan succeeds if the whole needle matched and
      otherwise resumes one past where the inner loop stopped. */
  function Scan(c: seq<byte>, p: seq<byte>, i: nat, j: nat): bool
    requires i <= |c|
    decreases |c| - i
  {
    if j < |p| && i < |c| && c[i] == p[j] then Scan(c, p, i + 1, j + 1)
    else if j == |p| then true
    else if i + 1 < |c| then Scan(c, p, i + 1, 0)
    else false
  }

  /** What `Has(text)` returns: the outer loop runs only on a non-empty content. */
  predicate ScanFinds(c: seq<byte>, p: seq<byte>)
  {
    |c| > 0 && Scan(c, p, 0, 0)
  }

  /** The reference notion: `p` occurs contiguously in `c` at or after `from`. */
  ghost predicate OccursFrom(p: seq<byte>, c: seq<byte>, from: nat)
  {
    exists k :: from <= k <= |c| && p <= c[k..]
  }

  /** Soundness of the scan from any state whose `j` matched bytes are right:
      when it reports the needle, the needle occurs at or after the current
      match's start. */
  lemma {:induction false} ScanSound(c: seq<byte>, p: seq<byte>, i: nat, j: nat)
    requires j <= i <= |c| && j <= |p|
    requires forall k :: 0 <= k < j ==> c[i - j + k] == p[k]
    requires Scan(c, p, i, j)
    ensures OccursFrom(p, c, i - j)
    decreases |c| - i
  {
    if j < |p| && i < |c| && c[i] == p[j] {
      ScanSound(c, p, i + 1, j + 1);
    } else if j == |p| {
      assert p <= c[i - j..] by {
        assert forall k :: 0 <= k < |p| ==> c[i - j..][k] == p[k];
      }
    } else {
      ScanSound(c, p, i + 1, 0);
    }
  }

  /** `Has(text)` is sound: what it finds occurs in the content. */
  lemma ScanFindsSound(c: seq<byte>, p: seq<byte>)
    requires ScanFinds(c, p)
    ensures OccursFrom(p, c, 0)
  {
    ScanSound(c, p, 0, 0);
  }

  /** An empty needle is found exactly when the content is non-empty. */
  lemma ScanEmptyNeedle(c: seq<byte>)
    ensures ScanFinds(c, []) <==> |c| > 0
  {
  }

  /** For a one-byte needle no position is skipped, so the scan finds the byte
      exactly when it occurs: `Has("x")` agrees with `Has('x')`. */
  lemma {:induction false} ScanSingleByte(c: seq<byte>, x: byte, i: nat)
    requires i < |c|
    ensures Scan(c, [x], i, 0) <==> exists k :: i <= k < |c| && c[k] == x
    decreases |c| - i
  {
    if c[i] != x && i + 1 < |c| {
      ScanSingleByte(c, x, i + 1);
    }
  }

  /** The single-byte case from the start of the content. */
  lemma ScanFindsSingleByte(c: seq<byte>, x: byte)
    ensures ScanFinds(c, [x]) <==> x in c
  {
    if |c| > 0 {
      ScanSingleByte(c, x, 0);
    }
  }

  /** The scan is not complete: in "aab" the needle "ab" occurs at index 1,
      but the scan matches "a" at 0, fails at 1, and resumes at 2. */
  lemma ScanMissesOverlap()
    ensures var a, b := 97 as byte, 98 as byte;
      OccursFrom([a, b], [a, a, b], 0) && !ScanFinds([a, a, b], [a, b])
  {
    var a, b := 97 as byte, 98 as byte;
    var c, p := [a, a, b], [a, b];
    assert p <= c[1..];
    assert !Scan(c, p, 2, 0);
    assert !Scan(c, p, 1, 1);
  }

  // ---------------------------------------------------------------------
  // Ordering (operator>, and the operators built from it)

  /** A `char` as MSVC compares it: signed, so bytes 0x80..0xFF are negative. */
  function Signed(b: byte): (v: int)
    ensures -128 <= v < 128
    ensures b < 128 ==> v == b as int
  {
    if b < 128 then b as int else b as int - 256
  }

  /** `a < b` on two `char`s. */
  predicate ByteLess(a: byte, b: byte)
  {
    Signed(a) < Signed(b)
  }

  /** What `operator>` computes: over this string's own length, no byte of
      the content `c` is smaller than the byte at the same index of the
      right operand's memory `s`. */
  predicate NoByteBelow(c: seq<byte>, s: seq<byte>)
    requires |c| <= |s|
  {
    forall i :: 0 <= i < |c| ==> !ByteLess(c[i], s[i])
  }

  /** When the content equals the right operand's text, `>` holds too; hence
      `>=` (that is `> || ==`) coincides with `>`, and `<` with `<=`. In
      particular `x > x`, `x >= x` hold and `x < x`, `x <= x` fail. */
  lemma GreaterWhenEqual(c: seq<byte>, s: seq<byte>)
    requires NUL in s && c == Text(s)
    ensures |c| <= |s| && NoByteBelow(c, s)
  {
    assert forall i :: 0 <= i < |c| ==> c[i] == s[i];
  }

  /** An empty string is `>` every right operand, and so never `<=` one. */
  lemma EmptyIsGreater(s: seq<byte>)
    ensures NoByteBelow([], s)
  {
  }

  /** `>` is not lexicographic order: the proper prefix "ab" is `>` "abc",
      while "ba" is not `>` "ab", because its second byte is the smaller. */
  lemma GreaterNotLexicographic()
    ensures var a, b, c := 97 as byte, 98 as byte, 99 as byte;
      NoByteBelow([a, b], [a, b, c, NUL]) && !NoByteBelow([b, a], [a, b, NUL])
  {
    var a, b := 97 as byte, 98 as byte;
    assert ByteLess([b, a][1], [a, b, NUL][1]);
  }
}
