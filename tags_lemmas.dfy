/**
 * What the tag iterator yields: every tag covers a whole word of the
 * description, tags come in order and never overlap, the iterator stays
 * finished once it is, and the byte arithmetic of `next_word_boundary`
 * panics exactly on words ending in a multi-byte character.
 */
module TagLemmas {
  import opened Wrappers
  import opened Text
  import opened TagScan

  /** All characters of `s` are ASCII. */
  predicate Ascii(s: string) {
    forall c | c in s :: (c as int) < 0x80
  }

  /** A one-character word gives an empty slice. */
  lemma SingleCharacterSlice(s: string, k: nat, i: nat, j: nat)
    requires k <= |s| && NextWord(s, k) == Some((i, j)) && j == i + 1
    ensures WordBoundary(s, k).0 == Some((ByteOffset(s, i), ByteOffset(s, i)))
    ensures Slice(s, ByteOffset(s, i), ByteOffset(s, i)) == Some([])
  {
    CharIndexOfOffset(s, i);
  }

  /** A longer word ending in an ASCII character gives the whole word. */
  lemma AsciiEndSlice(s: string, k: nat, i: nat, j: nat)
    requires k <= |s| && NextWord(s, k) == Some((i, j)) && j > i + 1 && (s[j - 1] as int) < 0x80
    ensures WordBoundary(s, k).0 == Some((ByteOffset(s, i), ByteOffset(s, j)))
    ensures Slice(s, ByteOffset(s, i), ByteOffset(s, j)) == Some(s[i..j])
  {
    BoundaryOfLongWord(s, k, i, j);
    assert ByteOffset(s, j) == ByteOffset(s, j - 1) + Utf8Len(s[j - 1]);
    CharIndexOfOffset(s, i);
    CharIndexOfOffset(s, j);
    ByteOffsetMonotone(s, i, j);
  }

  /** A longer word ending in a multi-byte character gives an end offset inside it: a panic. */
  lemma MultibyteEndSlice(s: string, k: nat, i: nat, j: nat)
    requires k <= |s| && NextWord(s, k) == Some((i, j)) && j > i + 1 && (s[j - 1] as int) >= 0x80
    ensures WordBoundary(s, k).0 == Some((ByteOffset(s, i), ByteOffset(s, j - 1) + 1))
    ensures Slice(s, ByteOffset(s, i), ByteOffset(s, j - 1) + 1) == None
  {
    BoundaryOfLongWord(s, k, i, j);
    InsideLastChar(s, i, j);
  }

  /** One byte into a multi-byte last character is not a character boundary. */
  lemma InsideLastChar(s: string, i: nat, j: nat)
    requires i < j <= |s| && (s[j - 1] as int) >= 0x80
    ensures Slice(s, ByteOffset(s, i), ByteOffset(s, j - 1) + 1) == None
  {
    assert ByteOffset(s, j) == ByteOffset(s, j - 1) + Utf8Len(s[j - 1]);
    InsideCharIsNoBoundary(s, j - 1, ByteOffset(s, j - 1) + 1);
  }

  /**
   * `t` is the tag of the word `s[i..j]`: its offsets are the word's byte
   * range, the word has at least two characters and no whitespace, the
   * next character (if any) is whitespace, indexing the description with
   * the tag gives the word, and the kind matches its first character.
   */
  predicate TagWord(s: string, t: Tag, i: nat, j: nat) {
    && i + 2 <= j <= |s|
    && t.Start() == ByteOffset(s, i) && t.End() == ByteOffset(s, j)
    && (forall m :: i <= m < j ==> !IsWhitespace(s[m]))
    && (j == |s| || IsWhitespace(s[j]))
    && Index(s, t) == Some(s[i..j])
    && (t.Context? <==> s[i] == '@')
    && (t.Project? <==> s[i] == '+')
    && (t.Special? ==> ':' in s[i..j])
  }

  /** The tag made by the word `s[i..j]` is that word's tag. */
  lemma WordMakesTag(s: string, i: nat, j: nat)
    requires i + 2 <= j <= |s| && (s[j - 1] as int) < 0x80
    requires forall m :: i <= m < j ==> !IsWhitespace(s[m])
    requires j == |s| || IsWhitespace(s[j])
    requires Classify(s[i..j], ByteOffset(s, i), ByteOffset(s, j)).Some?
    ensures var t := Classify(s[i..j], ByteOffset(s, i), ByteOffset(s, j)).value;
      && CharIndexOf(s, t.Start()) == Some(i) && CharIndexOf(s, t.End()) == Some(j)
      && TagWord(s, t, i, j)
  {
    CharIndexOfOffset(s, i);
    CharIndexOfOffset(s, j);
    ByteOffsetMonotone(s, i, j);
    assert s[i..j][0] == s[i];
  }

  /** The word `s[i..j]` is yielded as a tag when it is reached. */
  predicate MakesTag(s: string, i: nat, j: nat)
    requires i < j <= |s|
  {
    j > i + 1 && (s[j - 1] as int) < 0x80 && Classify(s[i..j], ByteOffset(s, i), ByteOffset(s, j)).Some?
  }

  /**
   * The next word, if it is at least two characters long, ends in an ASCII
   * character and makes a tag, is what `next` yields, with the word's byte
   * range as offsets.
   */
  lemma NextTagIsNextWord(s: string, k: nat, i: nat, j: nat)
    requires k <= |s| && NextWord(s, k) == Some((i, j)) && MakesTag(s, i, j)
    ensures Scan(s, k) == (Yielded(Classify(s[i..j], ByteOffset(s, i), ByteOffset(s, j)).value), WordBoundary(s, k).1)
  {
    AsciiEndSlice(s, k, i, j);
  }

  /** A word of one character, even `@` or `+` on its own, is never a tag. */
  lemma OneCharacterWordSkipped(s: string, k: nat, i: nat, j: nat)
    requires k <= |s| && NextWord(s, k) == Some((i, j)) && j == i + 1
    ensures Scan(s, k) == Scan(s, WordBoundary(s, k).1)
  {
    SingleCharacterSlice(s, k, i, j);
  }

  /**
   * A word of two or more characters whose last character takes more than
   * one byte makes `next` panic: the end offset falls inside that character.
   */
  lemma MultibyteEndPanics(s: string, k: nat, i: nat, j: nat)
    requires k <= |s| && NextWord(s, k) == Some((i, j)) && j > i + 1 && (s[j - 1] as int) >= 0x80
    ensures Scan(s, k) == (Panicked, WordBoundary(s, k).1)
  {
    MultibyteEndSlice(s, k, i, j);
    SliceFailurePanics(s, k, ByteOffset(s, i), ByteOffset(s, j - 1) + 1);
  }

  /** A word whose byte range is not a valid slice makes `next` panic. */
  lemma SliceFailurePanics(s: string, k: nat, start: nat, end: nat)
    requires k <= |s| && WordBoundary(s, k).0 == Some((start, end)) && Slice(s, start, end).None?
    ensures Scan(s, k) == (Panicked, WordBoundary(s, k).1)
  {
  }

  /**
   * Once `next` is known to yield, a next word that makes no tag must have
   * been passed over, with the whitespace after it.
   */
  lemma ScanPast(s: string, k: nat, i: nat, j: nat)
    requires k <= |s| && NextWord(s, k) == Some((i, j)) && Scan(s, k).0.Yielded? && !MakesTag(s, i, j)
    ensures j < |s| && WordBoundary(s, k).1 == j + 1 && AfterSpace(s, WordBoundary(s, k).1)
    ensures Scan(s, WordBoundary(s, k).1).0.Yielded?
    ensures Scan(s, k) == Scan(s, WordBoundary(s, k).1)
  {
    if j == i + 1 {
      OneCharacterWordSkipped(s, k, i, j);
    } else if (s[j - 1] as int) >= 0x80 {
      MultibyteEndPanics(s, k, i, j);
    } else {
      AsciiEndSlice(s, k, i, j);
    }
  }

  /** A word of two or more characters ending in ASCII that makes no tag is passed over. */
  lemma NonTagWordSkipped(s: string, k: nat, i: nat, j: nat)
    requires k <= |s| && NextWord(s, k) == Some((i, j)) && j > i + 1 && (s[j - 1] as int) < 0x80
    requires Classify(s[i..j], ByteOffset(s, i), ByteOffset(s, j)).None?
    ensures Scan(s, k) == Scan(s, WordBoundary(s, k).1)
  {
    AsciiEndSlice(s, k, i, j);
  }

  /** Position `m` starts a word when scanning from `k`: it is `k` or follows whitespace. */
  predicate WordStart(s: string, k: nat, m: nat) {
    k <= m < |s| && !IsWhitespace(s[m]) && (m == k || IsWhitespace(s[m - 1]))
  }

  /**
   * `next` passes over the word starting at `m`: it has one character, or
   * it ends in an ASCII character and makes no tag.
   */
  predicate PassedOver(s: string, m: nat)
    requires m < |s|
  {
    var j := WordEnd(s, m);
    j <= m + 1 || ((s[j - 1] as int) < 0x80 && Classify(s[m..j], ByteOffset(s, m), ByteOffset(s, j)).None?)
  }

  /** Every word that starts from `k` on, before position `b`, is passed over. */
  predicate AllPassedOver(s: string, k: nat, b: nat) {
    forall m :: k <= m < b && WordStart(s, k, m) ==> PassedOver(s, m)
  }

  /**
   * What `next` does with the next word: a word it passes over leaves the
   * result to the words after it; any other word ends the call there, with
   * its tag when it makes one and with a panic otherwise.
   */
  lemma FirstWord(s: string, k: nat, i: nat, j: nat)
    requires k <= |s| && NextWord(s, k) == Some((i, j))
    ensures WordStart(s, k, i) && WordEnd(s, i) == j
    ensures PassedOver(s, i) ==> Scan(s, k) == Scan(s, WordBoundary(s, k).1)
    ensures !PassedOver(s, i) ==> Scan(s, k).1 == WordBoundary(s, k).1
    ensures !PassedOver(s, i) ==> (Scan(s, k).0.Yielded? <==> MakesTag(s, i, j))
    ensures !PassedOver(s, i) ==> (Scan(s, k).0.Panicked? <==> !MakesTag(s, i, j))
  {
    assert WordEnd(s, i) == j;
    if j == i + 1 {
      assert PassedOver(s, i);
      OneCharacterWordSkipped(s, k, i, j);
    } else if (s[j - 1] as int) >= 0x80 {
      assert !PassedOver(s, i) && !MakesTag(s, i, j);
      MultibyteEndPanics(s, k, i, j);
    } else if MakesTag(s, i, j) {
      assert !PassedOver(s, i);
      NextTagIsNextWord(s, k, i, j);
    } else {
      assert PassedOver(s, i);
      NonTagWordSkipped(s, k, i, j);
    }
  }

  /** The words from `k` on are the next word and the words from where `next` leaves the cursor. */
  lemma WordStartsFrom(s: string, k: nat, i: nat, j: nat)
    requires k <= |s| && NextWord(s, k) == Some((i, j))
    ensures forall m :: WordStart(s, k, m) <==> m == i || WordStart(s, WordBoundary(s, k).1, m)
  {
  }

  lemma AllPassedOverSplit(s: string, k: nat, i: nat, j: nat, b: nat)
    requires k <= |s| && NextWord(s, k) == Some((i, j)) && WordBoundary(s, k).1 <= b
    ensures AllPassedOver(s, k, b) <==> PassedOver(s, i) && AllPassedOver(s, WordBoundary(s, k).1, b)
  {
    WordStartsFrom(s, k, i, j);
    FirstWord(s, k, i, j);
  }

  /**
   * `next` returns None exactly when every word left is passed over: a word
   * that makes a tag, or one that would panic, is never skipped silently.
   */
  lemma {:induction false} FinishedIffAllPassedOver(s: string, k: nat)
    requires k <= |s|
    ensures Scan(s, k).0.Finished? <==> AllPassedOver(s, k, |s|)
    decreases |s| - k
  {
    if NextWord(s, k).None? {
      assert forall m :: !WordStart(s, k, m);
    } else {
      var (i, j) := NextWord(s, k).value;
      FirstWord(s, k, i, j);
      AllPassedOverSplit(s, k, i, j, |s|);
      if PassedOver(s, i) {
        FinishedIffAllPassedOver(s, WordBoundary(s, k).1);
      }
    }
  }

  /** When the next word makes a tag, the yielded tag is that word's tag. */
  lemma YieldHere(s: string, k: nat, i: nat, j: nat)
    requires k <= |s| && NextWord(s, k) == Some((i, j)) && MakesTag(s, i, j)
    ensures Scan(s, k).0.Yielded?
    ensures TagWord(s, Scan(s, k).0.tag, i, j)
    ensures Scan(s, k).1 == (if j < |s| then j + 1 else j)
  {
    NextTagIsNextWord(s, k, i, j);
    WordMakesTag(s, i, j);
  }

  /**
   * A yielded tag is the tag of the first word `s[i..j]` from the cursor on
   * that is not passed over: every word before it is passed over, and the
   * cursor is left just past the whitespace after it.
   */
  lemma {:induction false} ScanYieldsWord(s: string, k: nat) returns (i: nat, j: nat)
    requires k <= |s| && Scan(s, k).0.Yielded?
    ensures WordStart(s, k, i) && AllPassedOver(s, k, i)
    ensures TagWord(s, Scan(s, k).0.tag, i, j)
    ensures Scan(s, k).1 == (if j < |s| then j + 1 else j)
    decreases |s| - k
  {
    var (i0, j0) := NextWord(s, k).value;
    FirstWord(s, k, i0, j0);
    WordStartsFrom(s, k, i0, j0);
    if MakesTag(s, i0, j0) {
      YieldHere(s, k, i0, j0);
      i, j := i0, j0;
    } else {
      ScanPast(s, k, i0, j0);
      i, j := ScanYieldsWord(s, WordBoundary(s, k).1);
      AllPassedOverSplit(s, k, i0, j0, i);
    }
  }

  /** Two tags in a row do not overlap, and the second lies after the first. */
  lemma TagsInOrder(s: string, k: nat)
    requires k <= |s| && Scan(s, k).0.Yielded?
    requires Scan(s, Scan(s, k).1).0.Yielded?
    ensures Scan(s, k).0.tag.End() < Scan(s, Scan(s, k).1).0.tag.Start()
  {
    var c := Scan(s, k).1;
    var _, j := ScanYieldsWord(s, k);
    var i2, _ := ScanYieldsWord(s, c);
    assert c < |s|;
    ByteOffsetMonotone(s, j, i2);
  }

  /** Once the iterator has returned None it keeps returning None (`FusedIterator`). */
  lemma Fused(s: string, k: nat)
    requires k <= |s| && Scan(s, k).0.Finished?
    ensures Scan(s, Scan(s, k).1) == (Finished, |s|)
  {
    assert NextWord(s, |s|).None?;
  }

  /** On an ASCII description the iterator never panics. */
  lemma {:induction false} AsciiNeverPanics(s: string, k: nat)
    requires k <= |s| && Ascii(s)
    ensures !Scan(s, k).0.Panicked?
    decreases |s| - k
  {
    if NextWord(s, k).Some? {
      var w := NextWord(s, k).value;
      assert s[w.1 - 1] in s;
      if w.1 == w.0 + 1 {
        SingleCharacterSlice(s, k, w.0, w.1);
      } else {
        AsciiEndSlice(s, k, w.0, w.1);
      }
      AsciiNeverPanics(s, WordBoundary(s, k).1);
    }
  }

  /** On an ASCII description a tag's byte offsets are character indices. */
  lemma AsciiTagOffsets(s: string, k: nat)
    requires k <= |s| && Ascii(s) && Scan(s, k).0.Yielded?
    ensures var t := Scan(s, k).0.tag;
      t.Start() < t.End() <= |s| && Index(s, t) == Some(s[t.Start()..t.End()])
  {
    var t := Scan(s, k).0.tag;
    var i, j := ScanYieldsWord(s, k);
    AsciiByteOffset(s, i);
    AsciiByteOffset(s, j);
  }

  /** A context tag may hold a colon: the `@` decides first. */
  lemma ContextBeforeSpecial(word: string, start: nat, end: nat)
    requires word != [] && word[0] == '@' && ':' in word
    ensures Classify(word, start, end) == Some(Context(start, end))
  {
  }
}
