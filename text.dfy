/**
 * Character-level facts the parser relies on: Rust's `char::is_whitespace`
 * and `str::trim`, and the UTF-8 byte offsets that `str` indices are
 * measured in. Strings are sequences of Unicode scalar values.
 */
module Text {
  import opened Wrappers

  /** `char::is_whitespace`: the code points with the Unicode White_Space property. */
  predicate IsWhitespace(c: char)
    ensures (c as int) < 0x80 ==> (IsWhitespace(c) <==> c == ' ' || '\t' <= c <= '\r')
    ensures IsWhitespace(c) ==> c != '@' && c != '+'
  {
    var n := c as int;
    (0x09 <= n <= 0x0D) || n == 0x20 || n == 0x85 || n == 0xA0 || n == 0x1680
    || (0x2000 <= n <= 0x200A) || n == 0x2028 || n == 0x2029 || n == 0x202F
    || n == 0x205F || n == 0x3000
  }

  /** Number of bytes UTF-8 uses for `c` (`char::len_utf8`). */
  function Utf8Len(c: char): (n: nat)
    ensures 1 <= n <= 4
    ensures n == 1 <==> (c as int) < 0x80
  {
    var v := c as int;
    if v < 0x80 then 1 else if v < 0x800 then 2 else if v < 0x10000 then 3 else 4
  }

  /** Byte index in the UTF-8 encoding of `s` at which the character `s[k]` starts. */
  function ByteOffset(s: string, k: nat): (b: nat)
    requires k <= |s|
    ensures k <= b <= 4 * k
    decreases k
  {
    if k == 0 then 0 else ByteOffset(s, k - 1) + Utf8Len(s[k - 1])
  }

  /** `str::len`: the length of `s` in bytes. */
  function ByteLen(s: string): nat {
    ByteOffset(s, |s|)
  }

  lemma {:induction false} ByteOffsetMonotone(s: string, i: nat, j: nat)
    requires i < j <= |s|
    ensures ByteOffset(s, i) < ByteOffset(s, j)
    decreases j - i
  {
    if i + 1 < j {
      ByteOffsetMonotone(s, i, j - 1);
    }
  }

  lemma ByteOffsetNondecreasing(s: string, i: nat, j: nat)
    requires i <= j <= |s|
    ensures ByteOffset(s, i) <= ByteOffset(s, j)
  {
    if i < j { ByteOffsetMonotone(s, i, j); }
  }

  lemma OffsetOrder(s: string, i: nat, j: nat)
    requires i <= |s| && j <= |s| && ByteOffset(s, i) <= ByteOffset(s, j)
    ensures i <= j
  {
    if j < i { ByteOffsetMonotone(s, j, i); }
  }

  /** Byte offsets of a slice are those of the whole shifted by where the slice starts. */
  lemma {:induction false} ByteOffsetOfSlice(s: string, i: nat, j: nat, k: nat)
    requires i <= j <= |s| && k <= j - i
    ensures ByteOffset(s[i..j], k) == ByteOffset(s, i + k) - ByteOffset(s, i)
    decreases k
  {
    if k > 0 {
      ByteOffsetOfSlice(s, i, j, k - 1);
      assert s[i..j][k - 1] == s[i + k - 1];
    }
  }

  /** The bytes of `s[i..j]` are exactly the bytes between the two offsets. */
  lemma {:induction false} ByteLenOfSlice(s: string, i: nat, j: nat)
    requires i <= j <= |s|
    ensures ByteLen(s[i..j]) == ByteOffset(s, j) - ByteOffset(s, i)
  {
    ByteOffsetOfSlice(s, i, j, j - i);
  }

  /** On text made only of ASCII characters, byte offsets are character offsets. */
  lemma {:induction false} AsciiByteOffset(s: string, k: nat)
    requires k <= |s|
    requires forall c | c in s :: (c as int) < 0x80
    ensures ByteOffset(s, k) == k
  {
    if k > 0 {
      AsciiByteOffset(s, k - 1);
      assert s[k - 1] in s;
    }
  }

  /** The first character index at or after `k` whose byte offset is `b`, if any. */
  function FindBoundary(s: string, b: nat, k: nat): (r: Option<nat>)
    requires k <= |s|
    ensures r.Some? ==> k <= r.value <= |s| && ByteOffset(s, r.value) == b
    ensures r.None? ==> forall i :: k <= i <= |s| ==> ByteOffset(s, i) != b
    decreases |s| - k
  {
    if ByteOffset(s, k) == b then Some(k)
    else if k == |s| then None
    else FindBoundary(s, b, k + 1)
  }

  /**
   * `str::is_char_boundary` together with the index it names: the character
   * index at which byte `b` falls on a boundary, or None when it is inside a
   * character or past the end.
   */
  function CharIndexOf(s: string, b: nat): Option<nat> {
    FindBoundary(s, b, 0)
  }

  lemma CharIndexOfOffset(s: string, k: nat)
    requires k <= |s|
    ensures CharIndexOf(s, ByteOffset(s, k)) == Some(k)
  {
    var r := CharIndexOf(s, ByteOffset(s, k));
    if r.Some? && r.value < k {
      ByteOffsetMonotone(s, r.value, k);
    } else if r.Some? && r.value > k {
      ByteOffsetMonotone(s, k, r.value);
    }
  }

  /** A byte index strictly inside the encoding of one character is not a boundary. */
  lemma InsideCharIsNoBoundary(s: string, k: nat, b: nat)
    requires k < |s| && ByteOffset(s, k) < b < ByteOffset(s, k + 1)
    ensures CharIndexOf(s, b) == None
  {
    var r := CharIndexOf(s, b);
    if r.Some? {
      if r.value <= k {
        if r.value < k { ByteOffsetMonotone(s, r.value, k); }
      } else if r.value > k + 1 {
        ByteOffsetMonotone(s, k + 1, r.value);
      }
    }
  }

  /**
   * `&s[a..b]` on a `str`: the characters between byte offsets `a` and `b`,
   * or None where Rust panics (an offset off a character boundary or past
   * the end, or `a > b`).
   */
  function Slice(s: string, a: nat, b: nat): (r: Option<string>)
    ensures r.Some? <==> CharIndexOf(s, a).Some? && CharIndexOf(s, b).Some? && a <= b
    ensures r.Some? ==> ByteLen(r.value) == b - a
    ensures r.Some? ==> CharIndexOf(s, a).value <= CharIndexOf(s, b).value
    ensures r.Some? ==> r.value == s[CharIndexOf(s, a).value..CharIndexOf(s, b).value]
  {
    var i := CharIndexOf(s, a);
    var j := CharIndexOf(s, b);
    if i.Some? && j.Some? && a <= b then
      OffsetOrder(s, i.value, j.value);
      ByteLenOfSlice(s, i.value, j.value);
      Some(s[i.value..j.value])
    else None
  }

  /** Number of whitespace characters at the start of `s`. */
  function LeadingWs(s: string): (n: nat)
    ensures n <= |s|
    ensures forall i :: 0 <= i < n ==> IsWhitespace(s[i])
    ensures n < |s| ==> !IsWhitespace(s[n])
  {
    if s == [] || !IsWhitespace(s[0]) then 0 else 1 + LeadingWs(s[1..])
  }

  /** Number of whitespace characters at the end of `s`. */
  function TrailingWs(s: string): (n: nat)
    ensures n <= |s|
    ensures forall i :: |s| - n <= i < |s| ==> IsWhitespace(s[i])
    ensures n < |s| ==> !IsWhitespace(s[|s| - 1 - n])
  {
    if s == [] || !IsWhitespace(s[|s| - 1]) then 0 else 1 + TrailingWs(s[..|s| - 1])
  }

  /** A line is blank when it holds nothing but whitespace. */
  predicate IsBlank(s: string) {
    forall i :: 0 <= i < |s| ==> IsWhitespace(s[i])
  }

  /**
   * `str::trim`: `s` without its leading and trailing whitespace. The result
   * is the piece of `s` starting after the leading whitespace; everything cut
   * away is whitespace; it is empty exactly for a blank `s`, and otherwise
   * starts and ends with a non-whitespace character.
   */
  function Trim(s: string): (r: string)
    ensures LeadingWs(s) + |r| <= |s| && r == s[LeadingWs(s)..LeadingWs(s) + |r|]
    ensures forall i :: LeadingWs(s) + |r| <= i < |s| ==> IsWhitespace(s[i])
    ensures r == [] <==> IsBlank(s)
    ensures r != [] ==> !IsWhitespace(r[0]) && !IsWhitespace(r[|r| - 1])
  {
    var a := LeadingWs(s);
    var t := s[a..];
    var n := TrailingWs(t);
    assert forall i :: a + |t| - n <= i < |s| ==> s[i] == t[i - a];
    t[..|t| - n]
  }
}
