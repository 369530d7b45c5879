/**
 * Reading a whole todo.txt file: the text is cut into lines, each line is
 * trimmed, blank lines are skipped, and every other line is parsed into a
 * task. The iterator is double-ended: it takes lines from the front with
 * `next` and from the back with `next_back`.
 */
module TaskLines {
  import opened Wrappers
  import opened Text
  import opened Nom
  import opened Tasks
  import TaskLemmas

  /** Index of the first `\n` in `s`, or `|s|` when there is none. */
  function LineEnd(s: string): (n: nat)
    ensures n <= |s|
    ensures forall i :: 0 <= i < n ==> s[i] != '\n'
    ensures n < |s| ==> s[n] == '\n'
  {
    if s == [] || s[0] == '\n' then 0 else 1 + LineEnd(s[1..])
  }

  predicate EndsWithCr(l: string) {
    l != [] && l[|l| - 1] == '\r'
  }

  /**
   * A line with a final `\r` removed. That is the `\r` of a `\r\n` ending,
   * and also a `\r` that ends the text with no `\n` after it, as the
   * `str::lines` of the Rust releases this crate was written against does;
   * either way the `\r` is whitespace, so the trimmed line is the same.
   */
  function StripCr(l: string): (r: string)
    ensures !EndsWithCr(l) ==> r == l
    ensures EndsWithCr(l) ==> r == l[..|l| - 1]
  {
    if EndsWithCr(l) then l[..|l| - 1] else l
  }

  /**
   * `str::lines`: the pieces between `\n` characters, without a final empty
   * piece when the text ends with `\n` (so the empty text has no lines), and
   * each without the `\r` of a `\r\n` ending.
   */
  function Lines(s: string): (ls: seq<string>)
    ensures forall i :: 0 <= i < |ls| ==> '\n' !in ls[i]
    ensures s == [] <==> ls == []
    decreases |s|
  {
    if s == [] then []
    else
      var n := LineEnd(s);
      assert forall c | c in s[..n] :: c != '\n';
      [StripCr(s[..n])] + (if n == |s| then [] else Lines(s[n + 1..]))
  }

  /** Every line followed by `\n`: the text that `Lines` cuts back into those lines. */
  function Unlines(ls: seq<string>): string {
    if ls == [] then [] else ls[0] + "\n" + Unlines(ls[1..])
  }

  lemma {:induction false} LineEndOf(l: string, t: string)
    requires '\n' !in l
    ensures LineEnd(l + "\n" + t) == |l|
    decreases |l|
  {
    if l != [] {
      assert (l + "\n" + t)[1..] == l[1..] + "\n" + t;
      LineEndOf(l[1..], t);
    }
  }

  /** Lines without `\n` and without a trailing `\r` are cut back out of their `Unlines`. */
  lemma {:induction false} LinesOfUnlines(ls: seq<string>)
    requires forall i :: 0 <= i < |ls| ==> '\n' !in ls[i] && !EndsWithCr(ls[i])
    ensures Lines(Unlines(ls)) == ls
    decreases |ls|
  {
    if ls != [] {
      var s := Unlines(ls);
      var l := ls[0];
      assert s == l + "\n" + Unlines(ls[1..]);
      LineEndOf(l, Unlines(ls[1..]));
      assert s[..|l|] == l;
      assert s[|l| + 1..] == Unlines(ls[1..]);
      LinesOfUnlines(ls[1..]);
    }
  }

  /** A piece followed by `\n` is the first line, without a final `\r`; the rest is cut as before. */
  lemma LinesCons(l: string, t: string)
    requires '\n' !in l
    ensures Lines(l + "\n" + t) == [StripCr(l)] + Lines(t)
  {
    var s := l + "\n" + t;
    LineEndOf(l, t);
    assert s[..|l|] == l;
    assert s[|l| + 1..] == t;
  }

  /** A `\r\n` ending is cut off whole. */
  lemma CrLfLine(l: string, t: string)
    requires '\n' !in l
    ensures Lines(l + "\r\n" + t) == [l] + Lines(t)
  {
    assert l + "\r\n" + t == (l + "\r") + "\n" + t;
    LinesCons(l + "\r", t);
    assert (l + "\r")[..|l|] == l;
  }

  /** Text without `\n` is one line (a final `\r` dropped). */
  lemma LastLine(l: string)
    requires l != [] && '\n' !in l
    ensures Lines(l) == [StripCr(l)]
  {
    assert l[..|l|] == l;
  }

  /**
   * Lines each followed by `\n`, then a last line with no `\n` after it:
   * all of them are cut back out, the last one included.
   */
  lemma {:induction false} LinesOfUnlinesThen(ls: seq<string>, l: string)
    requires forall i :: 0 <= i < |ls| ==> '\n' !in ls[i] && !EndsWithCr(ls[i])
    requires l != [] && '\n' !in l
    ensures Lines(Unlines(ls) + l) == ls + [StripCr(l)]
    decreases |ls|
  {
    if ls == [] {
      assert Unlines(ls) + l == l;
      LastLine(l);
    } else {
      var first, others := ls[0], ls[1..];
      assert ls + [StripCr(l)] == [first] + (others + [StripCr(l)]);
      assert !EndsWithCr(first) && '\n' !in first;
      UnlinesFirst(ls, l);
      LinesCons(first, Unlines(others) + l);
      LinesOfUnlinesThen(others, l);
    }
  }

  /** The first line of a non-empty `Unlines`, with text after it. */
  lemma UnlinesFirst(ls: seq<string>, l: string)
    requires ls != []
    ensures Unlines(ls) + l == ls[0] + "\n" + (Unlines(ls[1..]) + l)
  {
  }

  /**
   * `parse<T>`: the output of a successful parse, the leftover input
   * discarded; None when the parser fails or asks for more input.
   */
  function Finish<T>(r: Res<T>): (o: Option<T>)
    ensures o.Some? <==> r.Done?
    ensures o.Some? ==> o.value == r.value
  {
    match r
    case Done(v, _) => Some(v)
    case _ => None
  }

  /** A trimmed line parsed into a task. */
  function ParseLine(line: string): (t: Option<Task>)
    ensures t.Some? <==> ParseTask(line).Done?
    ensures t.Some? ==> IsSuffix(t.value.text, line) && t.value.text != []
  {
    Finish(ParseTask(line))
  }

  /**
   * `Iter::next` on the unread lines `lines[lo..hi]`, with `parse` reading a
   * trimmed line: the result and the new front cursor. Blank lines are
   * skipped; the first other line is consumed and its trimmed text parsed,
   * whether that succeeds or not.
   */
  function Front<T>(parse: string -> Option<T>, lines: seq<string>, lo: nat, hi: nat): (r: (Option<T>, nat))
    requires lo <= hi <= |lines|
    ensures lo <= r.1 <= hi
    ensures r.0.Some? ==> lo < r.1
    decreases hi - lo
  {
    if lo == hi then (None, lo)
    else if IsBlank(lines[lo]) then Front(parse, lines, lo + 1, hi)
    else (parse(Trim(lines[lo])), lo + 1)
  }

  /**
   * `Iter::next_back` on the unread lines `lines[lo..hi]`: the result and the
   * new back cursor; the consumed line, if any, is `lines[r.1]`.
   */
  function Back<T>(parse: string -> Option<T>, lines: seq<string>, lo: nat, hi: nat): (r: (Option<T>, nat))
    requires lo <= hi <= |lines|
    ensures lo <= r.1 <= hi
    ensures r.0.Some? ==> r.1 < hi
    decreases hi - lo
  {
    if lo == hi then (None, hi)
    else if IsBlank(lines[hi - 1]) then Back(parse, lines, lo, hi - 1)
    else (parse(Trim(lines[hi - 1])), hi - 1)
  }

  /** With only blank lines left, `next` returns None and consumes them all. */
  lemma {:induction false} FrontAllBlank<T>(parse: string -> Option<T>, lines: seq<string>, lo: nat, hi: nat)
    requires lo <= hi <= |lines|
    requires forall k :: lo <= k < hi ==> IsBlank(lines[k])
    ensures Front(parse, lines, lo, hi) == (None, hi)
    decreases hi - lo
  {
    if lo < hi {
      FrontAllBlank(parse, lines, lo + 1, hi);
    }
  }

  /**
   * `next` consumes the blank lines in front and the first other line
   * `lines[m]`, and answers the parse of its trimmed text.
   */
  lemma {:induction false} FrontTakesFirstEntry<T>(parse: string -> Option<T>, lines: seq<string>, lo: nat, hi: nat, m: nat)
    requires lo <= m < hi <= |lines|
    requires forall k :: lo <= k < m ==> IsBlank(lines[k])
    requires !IsBlank(lines[m])
    ensures Front(parse, lines, lo, hi) == (parse(Trim(lines[m])), m + 1)
    decreases m - lo
  {
    if lo < m {
      FrontTakesFirstEntry(parse, lines, lo + 1, hi, m);
    }
  }

  /** With only blank lines left, `next_back` returns None and consumes them all. */
  lemma {:induction false} BackAllBlank<T>(parse: string -> Option<T>, lines: seq<string>, lo: nat, hi: nat)
    requires lo <= hi <= |lines|
    requires forall k :: lo <= k < hi ==> IsBlank(lines[k])
    ensures Back(parse, lines, lo, hi) == (None, lo)
    decreases hi - lo
  {
    if lo < hi {
      BackAllBlank(parse, lines, lo, hi - 1);
    }
  }

  /**
   * `next_back` consumes the blank lines at the back and the last other
   * line `lines[m]`, and answers the parse of its trimmed text.
   */
  lemma {:induction false} BackTakesLastEntry<T>(parse: string -> Option<T>, lines: seq<string>, lo: nat, hi: nat, m: nat)
    requires lo <= m < hi <= |lines|
    requires forall k :: m < k < hi ==> IsBlank(lines[k])
    requires !IsBlank(lines[m])
    ensures Back(parse, lines, lo, hi) == (parse(Trim(lines[m])), m)
    decreases hi - m
  {
    if m + 1 < hi {
      BackTakesLastEntry(parse, lines, lo, hi - 1, m);
    }
  }

  /**
   * `Iter`: the lines of the input, of which `lines[lo..hi]` are still
   * unread, and `parse`, the parser `parse::<Task>` applied to each line.
   */
  class Iter {
    const lines: seq<string>
    const parse: string -> Option<Task>
    var lo: nat
    var hi: nat

    ghost predicate Valid()
      reads this
    {
      lo <= hi <= |lines|
    }

    /** `Input::tasks`: an iterator over all lines of `text`. */
    constructor(text: string)
      ensures lines == Lines(text) && parse == ParseLine
      ensures lo == 0 && hi == |lines| && Valid()
    {
      lines := Lines(text);
      parse := ParseLine;
      lo := 0;
      hi := |Lines(text)|;
    }

    /** `Iterator::next`. */
    method Next() returns (t: Option<Task>)
      requires Valid()
      modifies this
      ensures Valid() && hi == old(hi)
      ensures (t, lo) == Front(parse, lines, old(lo), old(hi))
      decreases hi - lo
    {
      if lo == hi {
        return None;
      }
      var line := Trim(lines[lo]);
      lo := lo + 1;
      if line == [] {
        t := Next();
      } else {
        t := parse(line);
      }
    }

    /** `DoubleEndedIterator::next_back`. */
    method NextBack() returns (t: Option<Task>)
      requires Valid()
      modifies this
      ensures Valid() && lo == old(lo)
      ensures (t, hi) == Back(parse, lines, old(lo), old(hi))
      decreases hi - lo
    {
      if lo == hi {
        return None;
      }
      var line := Trim(lines[hi - 1]);
      hi := hi - 1;
      if line == [] {
        t := NextBack();
      } else {
        t := parse(line);
      }
    }
  }

  /** The results `next` yields, one call after another, until the first None. */
  function Forward<T>(parse: string -> Option<T>, lines: seq<string>, lo: nat, hi: nat): seq<T>
    requires lo <= hi <= |lines|
    decreases hi - lo
  {
    var r := Front(parse, lines, lo, hi);
    if r.0.None? then [] else [r.0.value] + Forward(parse, lines, r.1, hi)
  }

  /** The results `next_back` yields, one call after another, until the first None. */
  function Backward<T>(parse: string -> Option<T>, lines: seq<string>, lo: nat, hi: nat): seq<T>
    requires lo <= hi <= |lines|
    decreases hi - lo
  {
    var r := Back(parse, lines, lo, hi);
    if r.0.None? then [] else [r.0.value] + Backward(parse, lines, lo, r.1)
  }

  /** The pieces `f` makes of the lines `lines[lo..hi]`, one after another. */
  function Gather<U>(f: string -> seq<U>, lines: seq<string>, lo: nat, hi: nat): seq<U>
    requires lo <= hi <= |lines|
    decreases hi - lo
  {
    if lo == hi then [] else Gather(f, lines, lo, hi - 1) + f(lines[hi - 1])
  }

  /** `Gather` read from the front: the first line's piece, then those of the lines after it. */
  lemma {:induction false} FirstGathered<U>(f: string -> seq<U>, lines: seq<string>, lo: nat, hi: nat)
    requires lo < hi <= |lines|
    ensures Gather(f, lines, lo, hi) == f(lines[lo]) + Gather(f, lines, lo + 1, hi)
    decreases hi - lo
  {
    if lo + 1 == hi {
      assert Gather(f, lines, lo, hi) == [] + f(lines[lo]);
    } else {
      FirstGathered(f, lines, lo, hi - 1);
      var a, b, c := f(lines[lo]), Gather(f, lines, lo + 1, hi - 1), f(lines[hi - 1]);
      assert Gather(f, lines, lo, hi) == (a + b) + c;
      assert Gather(f, lines, lo + 1, hi) == b + c;
      assert (a + b) + c == a + (b + c);
    }
  }

  /** The trimmed text of a line, unless it is blank. */
  function Entry(l: string): seq<string> {
    if IsBlank(l) then [] else [Trim(l)]
  }

  /** The trimmed text of the lines `lines[lo..hi]` that are not blank, in order. */
  function Entries(lines: seq<string>, lo: nat, hi: nat): seq<string>
    requires lo <= hi <= |lines|
  {
    Gather(Entry, lines, lo, hi)
  }

  /** The parses of the entries up to the first one that fails. */
  function Parsed<T>(parse: string -> Option<T>, es: seq<string>): (ts: seq<T>)
    ensures |ts| <= |es|
    decreases |es|
  {
    if es == [] || parse(es[0]).None? then []
    else [parse(es[0]).value] + Parsed(parse, es[1..])
  }

  /** `Parsed` holds the successful parses of a prefix of the entries, and stops at a failure. */
  lemma {:induction false} ParsedPrefix<T>(parse: string -> Option<T>, es: seq<string>)
    ensures forall i :: 0 <= i < |Parsed(parse, es)| ==> Some(Parsed(parse, es)[i]) == parse(es[i])
    ensures |Parsed(parse, es)| < |es| ==> parse(es[|Parsed(parse, es)|]).None?
    decreases |es|
  {
    if es != [] && parse(es[0]).Some? {
      ParsedPrefix(parse, es[1..]);
    }
  }

  function Reverse<T>(s: seq<T>): (r: seq<T>)
    ensures |r| == |s|
  {
    if s == [] then [] else Reverse(s[1..]) + [s[0]]
  }

  lemma {:induction false} ReverseIndex<T>(s: seq<T>)
    ensures forall i :: 0 <= i < |s| ==> Reverse(s)[i] == s[|s| - 1 - i]
    decreases |s|
  {
    if s != [] {
      ReverseIndex(s[1..]);
    }
  }

  /** Every entry parses. */
  predicate AllParse<T>(parse: string -> Option<T>, es: seq<string>) {
    forall i :: 0 <= i < |es| ==> parse(es[i]).Some?
  }

  /** Parsing an entry in front of others. */
  lemma ParsedCons<T>(parse: string -> Option<T>, e: string, es: seq<string>)
    ensures Parsed(parse, [e] + es) == if parse(e).None? then [] else [parse(e).value] + Parsed(parse, es)
  {
    assert ([e] + es)[0] == e;
    assert ([e] + es)[1..] == es;
  }

  /** Forward iteration yields the parses of the entries, up to the first one that fails. */
  lemma {:induction false} ForwardReadsEntries<T>(parse: string -> Option<T>, lines: seq<string>, lo: nat, hi: nat)
    requires lo <= hi <= |lines|
    ensures Forward(parse, lines, lo, hi) == Parsed(parse, Entries(lines, lo, hi))
    decreases hi - lo
  {
    if lo < hi {
      var rest := Entries(lines, lo + 1, hi);
      FirstGathered(Entry, lines, lo, hi);
      ForwardReadsEntries(parse, lines, lo + 1, hi);
      if IsBlank(lines[lo]) {
        assert Front(parse, lines, lo, hi) == Front(parse, lines, lo + 1, hi);
        assert Entries(lines, lo, hi) == rest;
      } else {
        assert Front(parse, lines, lo, hi) == (parse(Trim(lines[lo])), lo + 1);
        ParsedCons(parse, Trim(lines[lo]), rest);
      }
    }
  }

  /** Backward iteration yields the parses of the entries read from the last, up to the first one that fails. */
  lemma {:induction false} BackwardReadsEntries<T>(parse: string -> Option<T>, lines: seq<string>, lo: nat, hi: nat)
    requires lo <= hi <= |lines|
    ensures Backward(parse, lines, lo, hi) == Parsed(parse, Reverse(Entries(lines, lo, hi)))
    decreases hi - lo
  {
    if lo < hi {
      BackwardReadsEntries(parse, lines, lo, hi - 1);
      if IsBlank(lines[hi - 1]) {
        BackwardBlankLine(parse, lines, lo, hi);
      } else {
        BackwardEntryLine(parse, lines, lo, hi);
      }
    }
  }

  /** The step of `BackwardReadsEntries` over a blank last line. */
  lemma BackwardBlankLine<T>(parse: string -> Option<T>, lines: seq<string>, lo: nat, hi: nat)
    requires lo < hi <= |lines| && IsBlank(lines[hi - 1])
    requires Backward(parse, lines, lo, hi - 1) == Parsed(parse, Reverse(Entries(lines, lo, hi - 1)))
    ensures Backward(parse, lines, lo, hi) == Parsed(parse, Reverse(Entries(lines, lo, hi)))
  {
    var prev := Entries(lines, lo, hi - 1);
    BackwardStep(parse, lines, lo, hi);
    assert Entries(lines, lo, hi) == prev + [];
    assert prev + [] == prev;
  }

  /** The step of `BackwardReadsEntries` over a last line that is not blank. */
  lemma BackwardEntryLine<T>(parse: string -> Option<T>, lines: seq<string>, lo: nat, hi: nat)
    requires lo < hi <= |lines| && !IsBlank(lines[hi - 1])
    requires Backward(parse, lines, lo, hi - 1) == Parsed(parse, Reverse(Entries(lines, lo, hi - 1)))
    ensures Backward(parse, lines, lo, hi) == Parsed(parse, Reverse(Entries(lines, lo, hi)))
  {
    var prev := Entries(lines, lo, hi - 1);
    var e := Trim(lines[hi - 1]);
    BackwardStep(parse, lines, lo, hi);
    assert Entries(lines, lo, hi) == prev + [e];
    ReverseAppend(prev, [e]);
    ParsedCons(parse, e, Reverse(prev));
  }

  /** One call of `next_back` within `Backward`: a blank last line is dropped, any other is parsed. */
  lemma BackwardStep<T>(parse: string -> Option<T>, lines: seq<string>, lo: nat, hi: nat)
    requires lo < hi <= |lines|
    ensures IsBlank(lines[hi - 1]) ==> Backward(parse, lines, lo, hi) == Backward(parse, lines, lo, hi - 1)
    ensures !IsBlank(lines[hi - 1]) ==>
      Backward(parse, lines, lo, hi) ==
        if parse(Trim(lines[hi - 1])).None? then []
        else [parse(Trim(lines[hi - 1])).value] + Backward(parse, lines, lo, hi - 1)
  {
    if IsBlank(lines[hi - 1]) {
      assert Back(parse, lines, lo, hi) == Back(parse, lines, lo, hi - 1);
    }
  }

  lemma ReverseAppend<T>(a: seq<T>, b: seq<T>)
    requires |b| <= 1
    ensures Reverse(a + b) == b + Reverse(a)
  {
    ReverseIndex(a + b);
    ReverseIndex(a);
    assert |Reverse(a + b)| == |b + Reverse(a)|;
    forall i | 0 <= i < |a + b|
      ensures Reverse(a + b)[i] == (b + Reverse(a))[i]
    {
      if b != [] && i == 0 {
        assert Reverse(a + b)[0] == (a + b)[|a|];
      }
    }
  }

  /** When every entry parses, reading the entries from the back gives the parses in reverse. */
  lemma ParsedReverse<T>(parse: string -> Option<T>, es: seq<string>)
    requires AllParse(parse, es)
    ensures Parsed(parse, Reverse(es)) == Reverse(Parsed(parse, es))
  {
    var ts, rs := Parsed(parse, es), Parsed(parse, Reverse(es));
    ParsedPrefix(parse, es);
    ParsedPrefix(parse, Reverse(es));
    ReverseIndex(es);
    ReverseIndex(ts);
    assert |ts| == |es|;
    assert |rs| == |es|;
    forall i | 0 <= i < |es| ensures rs[i] == Reverse(ts)[i] {
      assert Reverse(es)[i] == es[|es| - 1 - i];
      assert Some(rs[i]) == parse(es[|es| - 1 - i]) == Some(ts[|es| - 1 - i]);
    }
  }

  /**
   * When every non-blank line parses, `next_back` yields the same tasks as
   * `next`, in reverse order.
   */
  lemma BackwardIsReversedForward<T>(parse: string -> Option<T>, lines: seq<string>, lo: nat, hi: nat)
    requires lo <= hi <= |lines| && AllParse(parse, Entries(lines, lo, hi))
    ensures Backward(parse, lines, lo, hi) == Reverse(Forward(parse, lines, lo, hi))
  {
    ForwardReadsEntries(parse, lines, lo, hi);
    BackwardReadsEntries(parse, lines, lo, hi);
    ParsedReverse(parse, Entries(lines, lo, hi));
  }

  /**
   * A line that fails to parse makes `next` return None, and the line after
   * it is still there: a later call can yield a task again.
   */
  lemma ResumesAfterFailure<T>(parse: string -> Option<T>, lines: seq<string>, lo: nat, hi: nat)
    requires lo + 2 <= hi <= |lines|
    requires !IsBlank(lines[lo]) && parse(Trim(lines[lo])).None?
    requires !IsBlank(lines[lo + 1]) && parse(Trim(lines[lo + 1])).Some?
    ensures Front(parse, lines, lo, hi) == (None, lo + 1)
    ensures Front(parse, lines, lo + 1, hi).0.Some?
  {
  }

  /** A lone `x` asks the task parser for more input, so it is no task. */
  lemma MarkerLineFails()
    ensures ParseLine("x").None?
  {
    TaskLemmas.MarkerAtEndOfInput([]);
    assert "x" + [] == "x";
  }

  /**
   * A line that trims to `x` stops task iteration although lines remain;
   * the next call yields the task of the line after it.
   */
  lemma MarkerLineEndsIteration(lines: seq<string>, lo: nat, hi: nat)
    requires lo + 2 <= hi <= |lines|
    requires Trim(lines[lo]) == "x"
    requires !IsBlank(lines[lo + 1]) && ParseLine(Trim(lines[lo + 1])).Some?
    ensures Front(ParseLine, lines, lo, hi) == (None, lo + 1)
    ensures Front(ParseLine, lines, lo + 1, hi) == (ParseLine(Trim(lines[lo + 1])), lo + 2)
  {
    MarkerLineFails();
    ResumesAfterFailure(ParseLine, lines, lo, hi);
  }
}
