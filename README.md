# CTL::String in Dafny

A model of `CTL::String` from the CustomSTL library. It is a growable character
buffer that owns its memory and is always NUL-terminated. The model is a Dafny
class `CTL.String` with two fields: `buf: array<byte>`, whose `Length` plays
`m_Size`, and `len`, which plays `m_Length`. The ghost predicate `Valid()` is the
representation invariant: `len < Size`, a NUL at index `len`, and no NUL in the
content `buf[..len]`. The ghost function `Contents()` gives the content.

Files:

- `cstring.dfy` (module `CStrings`): the byte type and NUL-terminated buffers.
  It holds `CLength`, the recursive `CTL::length`. A `const char*` operand is
  modelled as the readable memory behind the pointer: a `seq<byte>` that contains
  a NUL. Its text is the part before the first NUL.
- `semantics.dfy` (module `StringSemantics`): repetition, the two-loop scan of
  `Has(text)`, and the signed byte order used by `operator>`. It also holds the
  lemmas about them.
- `string.dfy` (module `CTL`): the class. It has the five constructors, `reserve`,
  `append`, both `Has`, `operator[]`, `Length`, `Size`, `+`, `*` and the six
  comparisons.
- `scenarios.dfy` (module `Scenarios`): client code whose outcomes follow from the
  class contracts alone.

Behaviour kept exactly as the code has it:

- The default constructor allocates 15 bytes (String.h:33).
- `reserve(size)` refuses only when `size < Size` (String.h:91). A request equal
  to the current size still reallocates and returns true.
- `append` reallocates when `Size <= needed`, where `needed = Length + length(t) + 1`.
  So it grows even when the text would fit exactly. The new size is the hint if
  the hint is nonzero, and `2 * needed - 1` otherwise.
- As consequences, `a + b` always ends with `Size == 2 * (|a| + |b|) + 1`. Its
  second append reallocates when `b` is non-empty. When `b` is empty and `a` is
  not, the first append reallocates and the second writes in place. For a
  non-empty `x`, `x * n` always ends with `Size == 2 * n * |x| + 1`. With
  `n > 0` its last append reallocates; `x * 0` makes no append at all, and its
  size stays 1.
- `Has(text)` advances the outer index inside the inner loop. The scan is sound
  but not complete: "aab" does not "have" "ab".
- `>` means "no byte of this string is below the operand's byte at the same
  index". It is checked over this string's length only, comparing `char`s as
  signed (MSVC). Since `==` implies `>`, the operator `>=` coincides with `>`,
  and `<` coincides with `<=`. A string is `>` itself and is not `<=` itself. An
  empty string is `>` everything.

## Model

| member | source | states |
|---|---|---|
| `CStrings.CLength` | CustomSTL/include/String/String.h:23-26 | the count stops at the first NUL: the result indexes a NUL and no NUL comes before it |
| `CStrings.TerminatedText` | CustomSTL/include/String/String.h:23-26 | a NUL-free text followed by a terminator and any further memory has exactly that text's length, and denotes that text |
| `CTL.String.Valid` | CustomSTL/include/String/String.h:467-469 | the invariant over `m_Length`, `m_Size` and `m_Buffer`: Length < Size, a NUL at index Length, no NUL in the content; every constructor establishes it and every method keeps it |
| `CTL.Alloc` | CustomSTL/include/String/String.h:42-44 | `AllocStr` then `strcpy_s`: a fresh buffer of the requested size that starts with the copied bytes (also at String.h:67-70, 107-111, 143-146) |
| `CTL.WriteAt` | CustomSTL/include/String/String.h:160-164 | the in-place `strcat_s`: the text and its terminator are written at the old Length, the bytes before it are kept |
| `CTL.String.constructor` | CustomSTL/include/String/String.h:33-38 | default: empty content, Size 15, invariant established, a fresh buffer |
| `CTL.String.Copy` | CustomSTL/include/String/String.h:40-47 | copy: same Length, Size and content as the source, in a fresh buffer of its own (deep copy) |
| `CTL.String.WithCapacity` | CustomSTL/include/String/String.h:56-61 | capacity hint n: empty content, Size n + 1 |
| `CTL.String.FromCString` | CustomSTL/include/String/String.h:63-73 | C-string s: Length == length(s), Size == Length + 1, content == the text of s |
| `CTL.String.FromStdString` | CustomSTL/include/String/String.h:75-82 | std::string s: Length == size(s), Size == Length + 1, content == s |
| `CTL.String.BufferIsCString` | CustomSTL/include/String/String.h:172-175 | under the invariant, the buffer read as a C-string (what the String overloads pass) has length Length and denotes exactly the content |
| `CTL.String.Reserve` | CustomSTL/include/String/String.h:89-124 | returns true iff size >= old Size; if false, nothing changes; if true, Size == size in a fresh buffer, zero-filled throughout when the string is empty; Length and content are unchanged on both the empty and the non-empty branch |
| `CTL.GrownSize` | CustomSTL/include/String/String.h:134-139 | the size after append: unchanged when Size > needed, else hint or 2*needed-1; always at least needed, so Length + 1 <= Size survives |
| `CTL.String.Append` | CustomSTL/include/String/String.h:131-165 | Length grows by length(t) and content == old content ++ text(t), NUL-terminated; reallocates to a fresh buffer of GrownSize iff old Size <= needed; otherwise writes into the same buffer, whose size stays |
| `CTL.String.HasByte` | CustomSTL/include/String/String.h:177-184 | true iff the byte occurs in the content |
| `CTL.String.HasText` | CustomSTL/include/String/String.h:186-199 | the result is the two-loop scan with the outer index advanced by the inner match |
| `StringSemantics.Scan` | CustomSTL/include/String/String.h:190-197 | the state of the two loops of Has(text): outer index i, j needle bytes matched; advances both on a match, succeeds when the needle is used up, otherwise resumes one past where the inner loop stopped |
| `StringSemantics.ScanFinds` | CustomSTL/include/String/String.h:186-199 | what Has(text) returns: Scan from the start, and false on an empty content because the outer loop never runs |
| `StringSemantics.ScanSound` | CustomSTL/include/String/String.h:190-196 | from any scan state whose matched bytes are right, a reported match occurs at or after the current match's start |
| `StringSemantics.ScanFindsSound` | CustomSTL/include/String/String.h:186-199 | Has(text) true implies the text occurs contiguously in the content |
| `StringSemantics.ScanEmptyNeedle` | CustomSTL/include/String/String.h:188-196 | with an empty needle, Has(text) is true iff Length > 0 |
| `StringSemantics.ScanSingleByte` | CustomSTL/include/String/String.h:190-197 | with a one-byte needle, the scan from index i finds it iff the byte occurs at or after i |
| `StringSemantics.ScanFindsSingleByte` | CustomSTL/include/String/String.h:177-199 | Has of a one-byte text agrees with Has of that byte |
| `StringSemantics.ScanMissesOverlap` | CustomSTL/include/String/String.h:193 | incompleteness: "ab" occurs in "aab" but Has("ab") is false |
| `CTL.String.At` | CustomSTL/include/String/String.h:256-275 | returns the byte at i iff i < Length (that byte is content, never NUL); otherwise out-of-range; the object is not modified |
| `CTL.String.Length` | CustomSTL/include/String/String.h:241-244 | the number of content bytes, always below Size |
| `CTL.String.Size` | CustomSTL/include/String/String.h:246-249 | the allocated size, always above the content length |
| `CTL.String.Concat` | CustomSTL/include/String/String.h:282-290 | a fresh string whose content is this ++ text(t) and whose Length is the sum; Size ends at 2 * Length + 1; the operands are not modified |
| `CTL.String.Times` | CustomSTL/include/String/String.h:308-320 | empty source: empty result of Size 2; otherwise the content repeated count times, Length == count * Length, Size 2 * count * Length + 1; count 0 gives empty, count 1 gives the content |
| `CTL.LastCopyGrows` | CustomSTL/include/String/String.h:313-317 | in operator*, only the last of the count appends reaches the size, and it doubles it to 2 * count * Length + 1 |
| `StringSemantics.Repeat` | CustomSTL/include/String/String.h:316-317 | repeating n times gives n times the length |
| `StringSemantics.RepeatAdd` | CustomSTL/include/String/String.h:316-317 | m repetitions followed by n repetitions are m + n repetitions |
| `StringSemantics.RepeatAt` | CustomSTL/include/String/String.h:316-317 | copy q of the repetition starts at q times the length of s and holds s byte for byte |
| `CTL.String.Equals` | CustomSTL/include/String/String.h:328-338 | true iff the lengths are equal and all bytes match, i.e. the content equals the operand's text |
| `CTL.String.NotEquals` | CustomSTL/include/String/String.h:356-359 | exactly the negation of == |
| `StringSemantics.Signed` | CustomSTL/include/String/String.h:380 | a char compared as signed: bytes 0x80..0xFF are negative, ASCII keeps its value |
| `StringSemantics.NoByteBelow` | CustomSTL/include/String/String.h:379-383 | the loop of operator>: over this string's length, no byte is (signed) below the operand's byte at the same index |
| `CTL.String.Greater` | CustomSTL/include/String/String.h:377-384 | false iff some index below Length has this byte below the operand's byte (signed) |
| `CTL.String.GreaterOrEqual` | CustomSTL/include/String/String.h:423-428 | "> or ==", proved to hold exactly when > holds |
| `CTL.String.Less` | CustomSTL/include/String/String.h:402-405 | !(>=): some byte of this is below the operand's byte at the same index |
| `CTL.String.LessOrEqual` | CustomSTL/include/String/String.h:446-449 | !(>): the same relation as < |
| `StringSemantics.GreaterWhenEqual` | CustomSTL/include/String/String.h:423-428 | a content equal to the operand's text is also > it, so >= reduces to > |
| `StringSemantics.EmptyIsGreater` | CustomSTL/include/String/String.h:379-383 | an empty string is > every operand |
| `StringSemantics.GreaterNotLexicographic` | CustomSTL/include/String/String.h:377-384 | "ab" > "abc" holds and "ba" > "ab" fails: > is not lexicographic order |
| `Scenarios.AppendTwice` | CustomSTL/include/String/String.h:131-165 | default string, append "hello", append " world": Length 11, content "hello world", Size still 15 |
| `Scenarios.RepeatAb` | CustomSTL/include/String/String.h:308-320 | "ab" * 3 has content "ababab", Length 6 and Size 13 |
| `Scenarios.CompareCat` | CustomSTL/include/String/String.h:328-338 | "cat" == "cat" holds and "cat" == "car" does not |
| `Scenarios.HasByteOfLiteral` | CustomSTL/include/String/String.h:177-184 | "" has no 'x'; "abc" has 'b' |
| `Scenarios.HasMissesOverlap` | CustomSTL/include/String/String.h:186-199 | Has("ab") on "aab" returns false |
| `Scenarios.ReserveBelowAndAbove` | CustomSTL/include/String/String.h:89-124 | reserve(2) on "abc" (Size 4) returns false, and Length 3, Size 4 and content "abc" read afterwards are as before; reserve(10) returns true, sets Size 10 and keeps "abc" |
| `Scenarios.CopyIsIndependent` | CustomSTL/include/String/String.h:40-47 | appending to a copy leaves the original's content as it was |
| `Scenarios.EqualityLaws` | CustomSTL/include/String/String.h:345-348 | x == x; x == y iff y == x iff the contents agree |
| `Scenarios.SelfOrdering` | CustomSTL/include/String/String.h:377-459 | compared with itself a string is > and >=, and neither < nor <= |
| `Scenarios.IndexAtLength` | CustomSTL/include/String/String.h:256-262 | indexing at Length is out of range for every valid string |

## Left out

- Allocation failure: the `bad_alloc` paths (String.h:36-37, 45-46, 71-72, 80-81, 101-102, 116-120, 154-158) are not modelled, and allocation always succeeds. The `_malloca`/`_freea` branch of the allocation macros (String.h:7-11) is a platform variant, not logic.
- The debug print of the new size inside `append` (String.h:141) and `operator<<` (String.h:477-481) are output only.
- The destructor and the raw pointer accessors `begin`, `end` and `Data` (String.h:211-239, 461-464) concern memory lifetime and aliasing. The content is exposed as the ghost `Contents()` instead.
- Writes through the reference that the non-const `operator[]` returns (String.h:256-262) are not modelled, because the model returns the byte by value. Such a write could put a NUL inside the content and break the invariant.
- The `std::string` and `String` overloads of `append`, `Has`, `+`, `==`, `!=`, `>`, `<`, `>=` and `<=` only forward to the `const char*` versions. Each operation is modelled once. A `String` operand is passed as its buffer, which `CTL.String.BufferIsCString` relates to its content.
- `size_t` wrap-around is not modelled (integers are unbounded). This affects `count * m_Length` in `operator*`, `2 * strSize - 1` in `append`, and `requiredLength + 1` in the capacity constructor.
- Self-append in place is not modelled. On that branch, `s.append(s)` would make `strcat_s` copy between overlapping memory. The model passes the operand's bytes as a value.
- CTL.String.Reserve: promises nothing about the bytes past the terminator after a copy, because `strcpy_s` leaves them with unspecified values (section K.3.7.1.3 of ISO/IEC 9899:2011, Annex K). Only the empty-string branch, which copies nothing, promises a buffer zero-filled by `AllocStr` (String.h:94-100). Inside the model `CTL.Alloc` keeps those bytes NUL.
- CTL.String.Append: promises nothing about the bytes past the new terminator, because `strcpy_s` and `strcat_s` leave them with unspecified values (sections K.3.7.1.3 and K.3.7.2.1 of ISO/IEC 9899:2011, Annex K). Inside the model `CTL.Alloc` keeps them NUL and `CTL.WriteAt` keeps their old values.
- CTL.String.Append: requires a nonzero hint to be at least `needed` whenever the append reallocates, because a smaller buffer makes `strcpy_s`/`strcat_s` fail their runtime constraints (String.h:139, 146-147).
- CTL.String.Greater: requires the operand's memory to extend over this string's length (`len <= |t|`), because the loop reads `string[i]` for every `i < m_Length`, even past the operand's terminator (String.h:379-380). Reading beyond that memory is undefined. The same precondition carries over to `CTL.String.GreaterOrEqual`, `CTL.String.Less` and `CTL.String.LessOrEqual`.
- CTL.String.FromStdString: requires a NUL-free string. With an embedded NUL, `strcpy_s` stops early while `m_Length` keeps `size()`, which leaves the object outside its invariant (String.h:75-79).
