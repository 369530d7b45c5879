/**
 * The tags of a task description: words starting with `@` (contexts) or `+`
 * (projects), and words holding a `:` (special `key:value` tags). Tags are
 * found lazily, one word at a time, by an iterator over the characters of
 * the description; a tag records the byte offsets of its word.
 */
module TagScan {
  import opened Wrappers
  import opened Text

  /** A tag and the byte range of its word within the description. */
  datatype Tag =
    | Context(start: nat, end: nat)
    | Project(start: nat, end: nat)
    | Special(start: nat, end: nat)
  {
    function Start(): nat {
      match this
      case Context(start, _) => start
      case Project(start, _) => start
      case Special(start, _) => start
    }

    function End(): nat {
      match this
      case Context(_, end) => end
      case Project(_, end) => end
      case Special(_, end) => end
    }
  }

  /**
   * `Index<Tag> for str`: the text of the tag, `&s[start..end]`; None where
   * that slice panics.
   */
  function Index(s: string, t: Tag): (r: Option<string>)
    ensures r.Some? <==> CharIndexOf(s, t.Start()).Some? && CharIndexOf(s, t.End()).Some? && t.Start() <= t.End()
    ensures r.Some? ==>
      && CharIndexOf(s, t.Start()).value <= CharIndexOf(s, t.End()).value
      && r.value == s[CharIndexOf(s, t.Start()).value..CharIndexOf(s, t.End()).value]
  {
    Slice(s, t.Start(), t.End())
  }

  /** The outcome of one call to `next`: a tag, the end of the tags, or a panic. */
  datatype Step = Yielded(tag: Tag) | Finished | Panicked

  /** Index of the first non-whitespace character at or after `k` (`skip_while`). */
  function SkipWs(s: string, k: nat): (i: nat)
    requires k <= |s|
    ensures k <= i <= |s|
    ensures forall m :: k <= m < i ==> IsWhitespace(s[m])
    ensures i < |s| ==> !IsWhitespace(s[i])
    decreases |s| - k
  {
    if k == |s| || !IsWhitespace(s[k]) then k else SkipWs(s, k + 1)
  }

  /** Index of the first whitespace character at or after `i` (where `take_while` stops). */
  function WordEnd(s: string, i: nat): (j: nat)
    requires i <= |s|
    ensures i <= j <= |s|
    ensures forall m :: i <= m < j ==> !IsWhitespace(s[m])
    ensures j < |s| ==> IsWhitespace(s[j])
    decreases |s| - i
  {
    if i == |s| || IsWhitespace(s[i]) then i else WordEnd(s, i + 1)
  }

  /** The character before position `i` is whitespace. */
  predicate AfterSpace(s: string, i: nat)
    requires 0 < i <= |s|
  {
    IsWhitespace(s[i - 1])
  }

  /**
   * The next word at or after character `k`, as character indices: a
   * maximal run `s[i..j]` of non-whitespace characters with only whitespace
   * between `k` and `i`. None when only whitespace is left.
   */
  function NextWord(s: string, k: nat): (w: Option<(nat, nat)>)
    requires k <= |s|
    ensures w.None? <==> forall m :: k <= m < |s| ==> IsWhitespace(s[m])
    ensures w.Some? ==> k <= w.value.0 < w.value.1 <= |s|
    ensures w.Some? ==> forall m :: k <= m < w.value.0 ==> IsWhitespace(s[m])
    ensures w.Some? ==> forall m :: w.value.0 <= m < w.value.1 ==> !IsWhitespace(s[m])
    ensures w.Some? && w.value.1 < |s| ==> IsWhitespace(s[w.value.1])
    ensures w.Some? && k < w.value.0 ==> AfterSpace(s, w.value.0)
  {
    var i := SkipWs(s, k);
    if i == |s| then None else Some((i, WordEnd(s, i + 1)))
  }

  /**
   * `next_word_boundary`: the byte offsets `(start, end)` it reports for the
   * next word and the character the iterator stops at. `end` is one past the
   * first byte of the word's last character, and equals `start` for a word of
   * one character. The whitespace character that ends the word is consumed.
   */
  function WordBoundary(s: string, k: nat): (r: (Option<(nat, nat)>, nat))
    requires k <= |s|
    ensures r.1 <= |s|
    ensures r.0.None? <==> NextWord(s, k).None?
    ensures r.0.None? ==> r.1 == |s|
    ensures r.0.Some? ==> k < r.1 && NextWord(s, k).value.1 <= r.1
    ensures r.0.Some? ==> r.0.value.0 == ByteOffset(s, NextWord(s, k).value.0)
    ensures r.0.Some? ==> r.0.value.0 <= r.0.value.1 <= ByteOffset(s, NextWord(s, k).value.1)
    ensures r.0.Some? ==> r.1 == if NextWord(s, k).value.1 < |s| then NextWord(s, k).value.1 + 1 else |s|
    ensures r.0.Some? && NextWord(s, k).value.1 < |s| ==> AfterSpace(s, r.1)
  {
    match NextWord(s, k)
    case None => (None, |s|)
    case Some((i, j)) =>
      var start := ByteOffset(s, i);
      var end := if j == i + 1 then start else ByteOffset(s, j - 1) + 1;
      LastCharOffsets(s, i, j);
      (Some((start, end)), if j < |s| then j + 1 else j)
  }

  /** With only whitespace left there is no word, and the iterator runs to the end. */
  lemma BoundaryAtEnd(s: string, k: nat)
    requires k <= |s| && SkipWs(s, k) == |s|
    ensures WordBoundary(s, k) == (None, |s|)
  {
  }

  /**
   * `WordBoundary` spelled out through the word's first character `i`: its
   * byte offset `start`, the byte offset `last` of the word's last character
   * when the word has more than one, and the position `next` after the word.
   */
  lemma BoundaryOfWord(s: string, k: nat, i: nat, start: nat, last: Option<nat>, next: nat)
    requires k <= |s| && i == SkipWs(s, k) && i < |s| && start == ByteOffset(s, i)
    requires var j := WordEnd(s, i + 1);
      && last == (if j == i + 1 then None else Some(ByteOffset(s, j - 1)))
      && next == (if j < |s| then j + 1 else j)
    ensures WordBoundary(s, k) == (Some((start, if last.Some? then last.value + 1 else start)), next)
  {
  }

  /** A word of two or more characters ends its range one byte into its last character. */
  lemma BoundaryOfLongWord(s: string, k: nat, i: nat, j: nat)
    requires k <= |s| && NextWord(s, k) == Some((i, j)) && j > i + 1
    ensures WordBoundary(s, k).0 == Some((ByteOffset(s, i), ByteOffset(s, j - 1) + 1))
  {
  }

  /** The last character of `s[i..j]` starts at or after `i` and takes at least one byte. */
  lemma LastCharOffsets(s: string, i: nat, j: nat)
    requires i < j <= |s|
    ensures ByteOffset(s, i) <= ByteOffset(s, j - 1) < ByteOffset(s, j)
  {
    ByteOffsetNondecreasing(s, i, j - 1);
    assert ByteOffset(s, j) == ByteOffset(s, j - 1) + Utf8Len(s[j - 1]);
  }

  /** The tag a word makes, if any: `@` first, then `+` first, then a `:` anywhere. */
  function Classify(word: string, start: nat, end: nat): (t: Option<Tag>)
    ensures t.Some? ==> t.value.Start() == start && t.value.End() == end
    ensures t.Some? && t.value.Context? <==> word != [] && word[0] == '@'
    ensures t.Some? && t.value.Project? <==> word != [] && word[0] == '+'
    ensures t.Some? && t.value.Special? <==> (word == [] || (word[0] != '@' && word[0] != '+')) && ':' in word
    ensures t.None? <==> (word == [] || (word[0] != '@' && word[0] != '+')) && ':' !in word
  {
    if word != [] && word[0] == '@' then Some(Context(start, end))
    else if word != [] && word[0] == '+' then Some(Project(start, end))
    else if ':' in word then Some(Special(start, end))
    else None
  }

  /**
   * `Tags::next` from character `k`: words that are not tags are passed
   * over; the result is the first tag, the end of the description, or a
   * panic on a word whose byte range is not a valid slice. The second
   * component is where the iterator is left.
   */
  function Scan(s: string, k: nat): (r: (Step, nat))
    requires k <= |s|
    ensures k <= r.1 <= |s|
    ensures r.0.Finished? ==> r.1 == |s|
    decreases |s| - k
  {
    var (bounds, next) := WordBoundary(s, k);
    if bounds.None? then (Finished, next)
    else
      var (start, end) := bounds.value;
      var word := Slice(s, start, end);
      if word.None? then (Panicked, next)
      else
        var tag := Classify(word.value, start, end);
        if tag.Some? then (Yielded(tag.value), next) else Scan(s, next)
  }

  /**
   * The state of a `Tags` iterator: the description and the `CharIndices`
   * cursor over it, as a character position and the byte offset it is at.
   */
  class Tags {
    const data: string
    var pos: nat
    var offset: nat

    ghost predicate Valid()
      reads this
    {
      pos <= |data| && offset == ByteOffset(data, pos)
    }

    /** A fresh iterator over all of `data` (`data.char_indices()`). */
    constructor(data: string)
      ensures this.data == data && pos == 0 && Valid()
    {
      this.data := data;
      pos := 0;
      offset := 0;
    }

    /** `CharIndices::next` on a non-exhausted iterator: the byte index and the character. */
    method Advance() returns (index: nat, c: char)
      requires Valid() && pos < |data|
      modifies this
      ensures Valid() && pos == old(pos) + 1
      ensures index == ByteOffset(data, old(pos)) && c == data[old(pos)]
    {
      index, c := offset, data[pos];
      offset := offset + Utf8Len(c);
      pos := pos + 1;
    }

    /** `skip_while(is_whitespace)` up to the first character it would yield. */
    method SkipWhitespace()
      requires Valid()
      modifies this
      ensures Valid() && pos == SkipWs(data, old(pos))
    {
      while pos < |data| && IsWhitespace(data[pos])
        invariant Valid() && old(pos) <= pos <= |data|
        invariant SkipWs(data, old(pos)) == SkipWs(data, pos)
        decreases |data| - pos
      {
        var _, _ := Advance();
      }
    }

    /**
     * `take_while(is_not_whitespace).last()` after the word's first
     * character: the byte index of the word's last character when it has
     * more than one. The whitespace that stops it is consumed too.
     */
    method TakeRest() returns (last: Option<nat>)
      requires Valid()
      modifies this
      ensures Valid()
      ensures var j := WordEnd(data, old(pos));
        && pos == (if j < |data| then j + 1 else j)
        && last == if j == old(pos) then None else Some(ByteOffset(data, j - 1))
    {
      last := None;
      while pos < |data| && !IsWhitespace(data[pos])
        invariant Valid() && old(pos) <= pos <= |data|
        invariant WordEnd(data, old(pos)) == WordEnd(data, pos)
        invariant last == if pos == old(pos) then None else Some(ByteOffset(data, pos - 1))
        decreases |data| - pos
      {
        var index, _ := Advance();
        last := Some(index);
      }
      if pos < |data| {
        var _, _ := Advance();
      }
    }

    /**
     * `next_word_boundary`: skip whitespace, take the first character of a
     * word and then the rest of it, reporting where the word starts and one
     * byte past where its last character starts.
     */
    method NextWordBoundary() returns (r: Option<(nat, nat)>)
      requires Valid()
      modifies this
      ensures Valid()
      ensures (r, pos) == WordBoundary(data, old(pos))
    {
      ghost var k := pos;
      SkipWhitespace();
      if pos == |data| {
        BoundaryAtEnd(data, k);
        return None;
      }
      ghost var i := pos;
      var start, _ := Advance();
      var last := TakeRest();
      var end := if last.Some? then last.value + 1 else start;
      r := Some((start, end));
      BoundaryOfWord(data, k, i, start, last, pos);
    }

    /** `Iterator::next`: the next tag of the description. */
    method Next() returns (r: Step)
      requires Valid()
      modifies this
      ensures Valid()
      ensures (r, pos) == Scan(data, old(pos))
      decreases |data| - pos
    {
      var bounds := NextWordBoundary();
      if bounds.None? {
        return Finished;
      }
      var (start, end) := bounds.value;
      var word := Slice(data, start, end);
      if word.None? {
        return Panicked;
      }
      var w := word.value;
      if w != [] && w[0] == '@' {
        r := Yielded(Context(start, end));
      } else if w != [] && w[0] == '+' {
        r := Yielded(Project(start, end));
      } else if ':' in w {
        r := Yielded(Special(start, end));
      } else {
        r := Next();
      }
    }
  }
}
