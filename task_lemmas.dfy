/**
 * What the task grammar does with the lines it is given: the ordered
 * alternatives of the state parser, how a description is cut off, and how
 * `Display` output reads back in.
 */
module TaskLemmas {
  import opened Wrappers
  import opened Nom
  import opened Dates
  import opened Tasks
  import Priorities
  import Text

  lemma SpaceBefore(d: string)
    requires d != [] && !IsSpaceOrTab(d[0])
    ensures Space(" " + d) == Done((), d)
  {
    assert SpaceRun(" " + d) == 1 by { assert (" " + d)[1..] == d; }
    assert (" " + d)[1..] == d;
  }

  /** A date token starts with a digit or a sign, so it is neither an `x` marker nor a priority. */
  lemma TokenStart(a: string, d: Date)
    requires DateToken(a, d)
    ensures a[0] != 'x' && a[0] != '(' && !IsSep(a[0])
  {
    assert ParseInt(a[..4], true).Some?;
    assert a[..4][0] == a[0];
  }

  lemma TokenThenRest(a: string, d: Date, rest: string)
    requires DateToken(a, d)
    ensures ParseDate(a + rest) == Done(d, rest)
  {
    ParseDateAppend(a, rest);
  }

  /** `a`, a space, then `rest`: a date followed by its separating space. */
  lemma TokenThenSpace(a: string, d: Date, rest: string)
    requires DateToken(a, d) && rest != [] && !IsSpaceOrTab(rest[0])
    ensures ThenSpace(ParseDate(a + " " + rest)) == Done(d, rest)
    ensures OptDate(a + " " + rest) == Done(Some(d), rest)
  {
    assert a + " " + rest == a + (" " + rest);
    TokenThenRest(a, d, " " + rest);
    SpaceBefore(rest);
  }

  /**
   * A description that starts no grammar element: no separator in front, and
   * no `x` marker, priority or date followed by a space.
   */
  predicate Plain(d: string) {
    && d != []
    && !IsSep(d[0])
    && ThenSpace(Char('x', d)).NoMatch?
    && ThenSpace(Priorities.ParsePriority(d)).NoMatch?
    && ThenSpace(ParseDate(d)).NoMatch?
  }

  /** When the state leaves text that starts with a non-separator, that text is the description. */
  lemma {:induction false} TaskOfState(line: string, st: State, rest: string)
    requires line != [] && !IsSep(line[0])
    requires ParseState(line) == Done(st, rest) && rest != [] && !IsSep(rest[0])
    ensures ParseTask(line) == Done(Task(st, rest), [])
  {
    assert SepRun(line) == 0;
    assert line[0..] == line;
    assert SepRun(rest) == 0;
    assert rest[0..] == rest;
  }

  /**
   * The general case: the separators that `ws!` runs after the state (a
   * `\r` included) are skipped, and the description is what follows them.
   */
  lemma {:induction false} TaskOfStateSeparated(line: string, st: State, rest: string)
    requires line != [] && !IsSep(line[0])
    requires ParseState(line) == Done(st, rest) && Sp(rest).Done?
    ensures ParseTask(line) == Done(Task(st, Sp(rest).rest), [])
  {
    assert SepRun(line) == 0;
    assert line[0..] == line;
  }

  /**
   * On a trimmed line whose state parses, the trailing separators always
   * leave something, so the task is the state and what follows the state
   * once its separators are skipped.
   */
  lemma TaskOfTrimmedLine(line: string)
    requires line != [] && !Text.IsWhitespace(line[0]) && !Text.IsWhitespace(line[|line| - 1])
    requires ParseState(line).Done?
    ensures Sp(ParseState(line).rest).Done?
    ensures ParseTask(line) == Done(Task(ParseState(line).value, Sp(ParseState(line).rest).rest), [])
  {
    var r := ParseState(line);
    SpOfSuffix(line, r.rest);
    NotSepOfNotWhitespace(line[0]);
    TaskOfStateSeparated(line, r.value, r.rest);
  }

  /** A non-empty suffix of text that ends in non-whitespace is not all separators. */
  lemma SpOfSuffix(line: string, rest: string)
    requires line != [] && !Text.IsWhitespace(line[|line| - 1])
    requires rest != [] && IsSuffix(rest, line)
    ensures Sp(rest).Done?
  {
    assert rest[|rest| - 1] == line[|line| - 1];
    NotSepOfNotWhitespace(rest[|rest| - 1]);
  }

  /** Every separator of `ws!` is whitespace. */
  lemma NotSepOfNotWhitespace(c: char)
    requires !Text.IsWhitespace(c)
    ensures !IsSep(c)
  {
  }

  /** A line with no marker, priority or dates is an incomplete task whose description is the whole line. */
  lemma {:induction false} PlainLine(d: string)
    requires Plain(d)
    ensures ParseState(d) == Done(State.Incomplete(None, None), d)
    ensures ParseTask(d) == Done(Task(State.Incomplete(None, None), d), [])
  {
    assert Unknown(d) == Done((None, None, None), d);
    TaskOfState(d, State.Incomplete(None, None), d);
  }

  /**
   * An `x` followed by spaces always makes the task complete (when the line
   * does not run out first). It carries the dates of the pair parser when
   * that parser succeeds on the text after the spaces; when it does not
   * match, that text is left whole for the description, dates included; and
   * when it asks for more input, so does the state parser.
   */
  lemma {:induction false} MarkerMakesComplete(s: string)
    requires s != [] && s[0] == 'x' && Space(s[1..]).Done?
    ensures ParseState(s).Done? ==> ParseState(s).value.Complete?
    ensures var r := Space(s[1..]).rest;
      DatePair(r).Done? ==> ParseState(s) == Done(Complete(Some(DatePair(r).value)), DatePair(r).rest)
    ensures var r := Space(s[1..]).rest;
      DatePair(r).NoMatch? ==> ParseState(s) == Done(Complete(None), r)
    ensures var r := Space(s[1..]).rest;
      DatePair(r).NeedMore? ==> ParseState(s) == NeedMore
  {
    assert Char('x', s) == Done('x', s[1..]);
  }

  /** `x` not followed by a space or tab is no marker: the line is read from its first character again. */
  lemma {:induction false} XWithoutSpace(s: string)
    requires |s| >= 2 && s[0] == 'x' && !IsSpaceOrTab(s[1])
    ensures ParseState(s) == UnknownBranch(s)
  {
    assert Char('x', s) == Done('x', s[1..]);
    assert Space(s[1..]) == NoMatch;
  }

  lemma Xylophone()
    ensures ParseTask("xylophone") == Done(Task(State.Incomplete(None, None), "xylophone"), [])
  {
    XylophonePlain();
    PlainLine("xylophone");
  }

  /** "xylophone" has no marker (its `x` is not followed by a space), priority or date. */
  lemma XylophonePlain()
    ensures Plain("xylophone")
  {
    var s := "xylophone";
    assert |s| == 9 && s[0] == 'x' && s[1] == 'y';
    assert Space(s[1..]) == NoMatch;
    assert ThenSpace(Char('x', s)).NoMatch?;
    assert ParseDate(s) == NoMatch;
  }

  /** An `x` and a space: what follows is read by the complete branch. */
  lemma MarkerState(tail: string)
    requires tail != [] && !IsSpaceOrTab(tail[0])
    ensures ThenSpace(Char('x', "x " + tail)) == Done('x', tail)
    ensures ParseState("x " + tail) == CompleteBranch(tail)
  {
    var s := "x " + tail;
    assert s[1..] == " " + tail;
    SpaceBefore(tail);
  }

  /** A date token and a space at the front: the pair parser goes on with its second date. */
  lemma DatePairFirst(a: string, c: Date, rest: string)
    requires DateToken(a, c) && rest != [] && !IsSpaceOrTab(rest[0])
    ensures var second := ThenSpace(ParseDate(rest));
      DatePair(a + " " + rest) ==
        if second.NoMatch? then NoMatch
        else if second.NeedMore? then NeedMore
        else Done((c, second.value), second.rest)
  {
    assert a + " " + rest == a + (" " + rest);
    TokenThenRest(a, c, " " + rest);
    SpaceBefore(rest);
  }

  /** Nothing but spaces and tabs (possibly nothing at all). */
  predicate Blanks(w: string) {
    forall i :: 0 <= i < |w| ==> IsSpaceOrTab(w[i])
  }

  /** A non-empty run of spaces and tabs. */
  predicate Gap(g: string) {
    g != [] && Blanks(g)
  }

  /** `space` consumes a whole run of spaces and tabs, and nothing after it. */
  lemma SpaceGap(g: string, d: string)
    requires Gap(g) && d != [] && !IsSpaceOrTab(d[0])
    ensures Space(g + d) == Done((), d)
  {
    var s := g + d;
    assert s[0] == g[0] && s[|g|] == d[0];
    assert s[|g|..] == d;
    assert Space(s).Done?;
    assert s[|s| - |Space(s).rest|] == Space(s).rest[0];
  }

  /**
   * Two date tokens, each followed by a run of spaces and tabs: the pair
   * parser reads both dates, in order, and leaves what follows the runs.
   */
  lemma DatePairOfTokens(a: string, c: Date, g1: string, b: string, e: Date, g2: string, desc: string)
    requires DateToken(a, c) && DateToken(b, e) && Gap(g1) && Gap(g2)
    requires desc != [] && !IsSpaceOrTab(desc[0])
    ensures DatePair(a + g1 + b + g2 + desc) == Done((c, e), desc)
  {
    var tail2 := g2 + desc;
    var tail1 := g1 + (b + tail2);
    assert a + g1 + b + g2 + desc == a + tail1;
    TokenThenRest(a, c, tail1);
    TokenStart(b, e);
    assert (b + tail2)[0] == b[0];
    SpaceGap(g1, b + tail2);
    TokenThenRest(b, e, tail2);
    SpaceGap(g2, desc);
  }

  /** A run that `space` consumes, and what it leaves. */
  lemma SpaceSplit(t: string) returns (g: string)
    requires Space(t).Done?
    ensures Gap(g) && t == g + Space(t).rest
  {
    g := t[..|t| - |Space(t).rest|];
  }

  /**
   * The converse of DatePairOfTokens: the pair parser reads dates only from
   * two date tokens, each followed by a run of spaces and tabs, and it
   * leaves the text after the second run, which starts with neither.
   */
  lemma DatePairDone(s: string) returns (a: string, c: Date, g1: string, b: string, e: Date, g2: string)
    requires DatePair(s).Done?
    ensures DateToken(a, c) && Gap(g1) && DateToken(b, e) && Gap(g2)
    ensures DatePair(s).value == (c, e)
    ensures s == a + g1 + b + g2 + DatePair(s).rest
    ensures DatePair(s).rest != [] && !IsSpaceOrTab(DatePair(s).rest[0])
  {
    var t1, t2, t3 := DatePairSteps(s);
    TokenPrefix(s);
    a, c := s[..10], ParseDate(s).value;
    g1 := SpaceSplit(t1);
    TokenPrefix(t2);
    b, e := t2[..10], ParseDate(t2).value;
    g2 := SpaceSplit(t3);
    Joined5(s, a, t1, g1, t2, b, t3, g2, DatePair(s).rest);
  }

  /** The intermediate inputs of a pair parse that succeeds: each step succeeds on the previous step's rest. */
  lemma DatePairSteps(s: string) returns (t1: string, t2: string, t3: string)
    requires DatePair(s).Done?
    ensures ParseDate(s).Done? && t1 == ParseDate(s).rest
    ensures Space(t1).Done? && t2 == Space(t1).rest
    ensures ParseDate(t2).Done? && t3 == ParseDate(t2).rest
    ensures Space(t3).Done?
    ensures DatePair(s) == Done((ParseDate(s).value, ParseDate(t2).value), Space(t3).rest)
  {
    t1 := ParseDate(s).rest;
    t2 := Space(t1).rest;
    t3 := ParseDate(t2).rest;
  }

  /** Five pieces, each step splitting off the next one. */
  lemma Joined5(s: string, a: string, t1: string, g1: string, t2: string, b: string, t3: string, g2: string, rest: string)
    requires s == a + t1 && t1 == g1 + t2 && t2 == b + t3 && t3 == g2 + rest
    ensures s == a + g1 + b + g2 + rest
  {
  }

  /**
   * After `x` and its spaces the state carries dates exactly when two date
   * tokens, each followed by spaces or tabs, come next (the other direction
   * is MarkerThenDatePair and DatePairOfTokens); the description is what
   * follows them.
   */
  lemma MarkerDatesFromTokens(s: string) returns (a: string, c: Date, g1: string, b: string, e: Date, g2: string)
    requires s != [] && s[0] == 'x' && Space(s[1..]).Done?
    requires ParseState(s).Done? && ParseState(s).value.Complete? && ParseState(s).value.dates.Some?
    ensures DateToken(a, c) && Gap(g1) && DateToken(b, e) && Gap(g2)
    ensures ParseState(s).value.dates == Some((c, e))
    ensures Space(s[1..]).rest == a + g1 + b + g2 + ParseState(s).rest
  {
    MarkerMakesComplete(s);
    a, c, g1, b, e, g2 := DatePairDone(Space(s[1..]).rest);
  }

  /** `x`, then two dates, each followed by a space: a complete task with both dates. */
  lemma {:induction false} MarkerThenDatePair(a: string, c: Date, b: string, e: Date, desc: string)
    requires DateToken(a, c) && DateToken(b, e)
    requires desc != [] && !IsSpaceOrTab(desc[0])
    ensures ParseState("x " + a + " " + b + " " + desc) == Done(Complete(Some((c, e))), desc)
  {
    var tail := a + " " + (b + " " + desc);
    assert "x " + a + " " + b + " " + desc == "x " + tail;
    TokenStart(a, c);
    MarkerState(tail);
    TokenStart(b, e);
    DatePairFirst(a, c, b + " " + desc);
    TokenThenSpace(b, e, desc);
  }

  /**
   * `x` and a single date: the date is not consumed. The task is complete
   * without dates and the date stays at the front of the description.
   */
  lemma {:induction false} MarkerSingleDateStays(a: string, c: Date, desc: string)
    requires DateToken(a, c)
    requires desc != [] && !IsSpaceOrTab(desc[0]) && ThenSpace(ParseDate(desc)).NoMatch?
    ensures ParseState("x " + a + " " + desc) == Done(Complete(None), a + " " + desc)
  {
    var tail := a + " " + desc;
    assert "x " + a + " " + desc == "x " + tail;
    TokenStart(a, c);
    MarkerState(tail);
    DatePairFirst(a, c, desc);
    assert DatePair(tail) == NoMatch;
  }

  /** No marker and no priority, but two dates: the task is read as complete. */
  lemma {:induction false} DatePairPromoted(a: string, c: Date, b: string, e: Date, desc: string)
    requires DateToken(a, c) && DateToken(b, e)
    requires desc != [] && !IsSpaceOrTab(desc[0])
    ensures ParseState(a + " " + b + " " + desc) == Done(Complete(Some((c, e))), desc)
  {
    var mid := b + " " + desc;
    var s := a + " " + mid;
    assert s == a + " " + b + " " + desc;
    TokenStart(a, c);
    assert s[0] == a[0];
    NoPriority(s);
    TokenStart(b, e);
    assert mid[0] == b[0];
    TokenThenSpace(a, c, mid);
    TokenThenSpace(b, e, desc);
    UnknownParts(s, None, s, Some(c), mid, Some(e), desc);
  }

  /** Text that does not start with `(` has no priority: the optional priority is absent. */
  lemma NoPriority(s: string)
    requires s != [] && s[0] != '('
    ensures OptPriority(s) == Done(None, s)
  {
    assert Priorities.ParsePriority(s) == NoMatch;
  }

  lemma RenderThenSpace(p: Priorities.Priority, tail: string)
    requires tail != [] && !IsSpaceOrTab(tail[0])
    ensures OptPriority(Priorities.Render(p) + " " + tail) == Done(Some(p), tail)
  {
    var s := Priorities.Render(p) + " " + tail;
    assert s == Priorities.Render(p) + (" " + tail);
    Priorities.RenderRoundTrip(p, " " + tail);
    SpaceBefore(tail);
  }

  /** The state read by the branch without a marker, from what its three optional parts found. */
  lemma {:induction false} UnknownParts(s: string, p: Option<Priorities.Priority>, r0: string,
                                        d1: Option<Date>, r1: string, d2: Option<Date>, r2: string)
    requires s != [] && s[0] != 'x'
    requires OptPriority(s) == Done(p, r0) && OptDate(r0) == Done(d1, r1) && OptDate(r1) == Done(d2, r2)
    ensures ParseState(s) == Done(if p.None? && d1.Some? && d2.Some? then Complete(Some((d1.value, d2.value)))
                                  else State.Incomplete(p, d1), r2)
  {
    NoMarker(s);
    UnknownSteps(s, p, r0, d1, r1, d2, r2);
  }

  lemma NoMarker(s: string)
    requires s != [] && s[0] != 'x'
    ensures ThenSpace(Char('x', s)) == NoMatch
  {
  }

  /** `unknown` from what its three optional parts found. */
  lemma UnknownSteps(s: string, p: Option<Priorities.Priority>, r0: string,
                     d1: Option<Date>, r1: string, d2: Option<Date>, r2: string)
    requires OptPriority(s) == Done(p, r0) && OptDate(r0) == Done(d1, r1) && OptDate(r1) == Done(d2, r2)
    ensures Unknown(s) == Done((p, d1, d2), r2)
  {
  }

  /** With a priority, a second date is consumed and dropped; the task stays incomplete. */
  lemma {:induction false} PriorityDropsSecondDate(p: Priorities.Priority, a: string, c: Date, b: string, e: Date, desc: string)
    requires DateToken(a, c) && DateToken(b, e)
    requires desc != [] && !IsSpaceOrTab(desc[0])
    ensures ParseState(Priorities.Render(p) + " " + a + " " + b + " " + desc) == Done(State.Incomplete(Some(p), Some(c)), desc)
  {
    var mid := b + " " + desc;
    var tail := a + " " + mid;
    var s := Priorities.Render(p) + " " + tail;
    assert tail == a + " " + b + " " + desc;
    assert s == Priorities.Render(p) + " " + a + " " + b + " " + desc;
    TokenStart(a, c);
    RenderThenSpace(p, tail);
    TokenStart(b, e);
    TokenThenSpace(a, c, mid);
    TokenThenSpace(b, e, desc);
    assert s[0] == '(';
    UnknownParts(s, Some(p), tail, Some(c), mid, Some(e), desc);
  }

  /** One date and no second: an incomplete task created on that date. */
  lemma {:induction false} SingleDate(a: string, c: Date, desc: string)
    requires DateToken(a, c) && Plain(desc)
    ensures ParseState(a + " " + desc) == Done(State.Incomplete(None, Some(c)), desc)
  {
    var s := a + " " + desc;
    TokenStart(a, c);
    assert s[0] == a[0];
    NoPriority(s);
    TokenThenSpace(a, c, desc);
    UnknownParts(s, None, s, Some(c), desc, None, desc);
  }

  /** A priority then one date: an incomplete task with both. */
  lemma {:induction false} PriorityAndDate(p: Priorities.Priority, a: string, c: Date, desc: string)
    requires DateToken(a, c) && Plain(desc)
    ensures ParseState(Priorities.Render(p) + " " + a + " " + desc) == Done(State.Incomplete(Some(p), Some(c)), desc)
  {
    var tail := a + " " + desc;
    var s := Priorities.Render(p) + " " + tail;
    assert s == Priorities.Render(p) + " " + a + " " + desc;
    TokenStart(a, c);
    RenderThenSpace(p, tail);
    TokenThenSpace(a, c, desc);
    assert s[0] == '(';
    UnknownParts(s, Some(p), tail, Some(c), desc, None, desc);
  }

  /** A priority and no date. */
  lemma {:induction false} PriorityOnly(p: Priorities.Priority, desc: string)
    requires Plain(desc)
    ensures ParseState(Priorities.Render(p) + " " + desc) == Done(State.Incomplete(Some(p), None), desc)
  {
    var s := Priorities.Render(p) + " " + desc;
    RenderThenSpace(p, desc);
    assert s[0] == '(';
    UnknownParts(s, Some(p), desc, None, desc, None, desc);
  }

  /** `x` and no dates. */
  lemma {:induction false} MarkerOnly(desc: string)
    requires Plain(desc)
    ensures ParseState("x " + desc) == Done(Complete(None), desc)
  {
    var s := "x " + desc;
    assert s[1..] == " " + desc;
    SpaceBefore(desc);
    assert Char('x', s) == Done('x', s[1..]);
    assert DatePair(desc) == NoMatch;
  }

  /** The rendering of a complete task from the rendering of its two dates. */
  lemma CompleteLine(t: Task, f: string, g: string)
    requires t.IsComplete() && DatePart(t.CompletionDate()) == f && DatePart(t.CreationDate()) == g
    ensures t.Display() == "x " + f + g + t.text
  {
    DropEmptyPriority("x ", PriorityPart(t.Priority()), f, g, t.text);
  }

  /** The rendering of an incomplete task from the rendering of its priority and date. */
  lemma IncompleteLine(t: Task, f: string, g: string)
    requires !t.IsComplete() && PriorityPart(t.Priority()) == f && DatePart(t.CreationDate()) == g
    ensures t.Display() == f + g + t.text
  {
    DropEmptyMarkerAndCompletion("", f, DatePart(t.CompletionDate()), g, t.text);
  }

  /** Rearranging a rendering whose priority part is empty. */
  lemma DropEmptyPriority(m: string, e: string, f: string, g: string, text: string)
    requires e == []
    ensures m + e + f + g == m + (f + g)
    ensures m + e + f + g + text == m + f + g + text
  {
  }

  /** Rearranging a rendering whose marker and completion date parts are empty. */
  lemma DropEmptyMarkerAndCompletion(m: string, f: string, e: string, g: string, text: string)
    requires m == [] && e == []
    ensures m + f + e + g + text == f + g + text
  {
  }

  lemma EmptyFront(a: string, d: string)
    ensures [] + (a + " ") + d == a + " " + d
  {
  }

  lemma Joined(a: string, b: string, d: string)
    ensures (a + " ") + (b + " ") + d == a + " " + b + " " + d
  {
  }

  lemma Spaced(a: string, b: string, d: string)
    ensures "x " + (a + " ") + (b + " ") + d == "x " + a + " " + b + " " + d
  {
  }

  /** The dates a state carries all have four-digit years, the years `Display` writes as `YYYY`. */
  predicate FourDigitYears(st: State) {
    match st
    case Complete(dates) => dates.Some? ==> 0 <= dates.value.0.year <= 9999 && 0 <= dates.value.1.year <= 9999
    case Incomplete(_, created) => created.Some? ==> 0 <= created.value.year <= 9999
  }

  lemma DisplayRoundTripMarker(d: string)
    requires Plain(d)
    ensures ParseTask(Task(Complete(None), d).Display()) == Done(Task(Complete(None), d), [])
  {
    var t := Task(Complete(None), d);
    CompleteLine(t, [], []);
    assert "x " + [] + [] + d == "x " + d;
    MarkerOnly(d);
    TaskOfState("x " + d, Complete(None), d);
  }

  lemma DisplayRoundTripPriority(p: Priorities.Priority, d: string)
    requires Plain(d)
    ensures ParseTask(Task(State.Incomplete(Some(p), None), d).Display()) == Done(Task(State.Incomplete(Some(p), None), d), [])
  {
    var t := Task(State.Incomplete(Some(p), None), d);
    var line := Priorities.Render(p) + " " + d;
    IncompleteLine(t, Priorities.Render(p) + " ", []);
    assert Priorities.Render(p) + " " + [] + d == line;
    PriorityOnly(p, d);
    TaskOfState(line, State.Incomplete(Some(p), None), d);
  }

  lemma DisplayRoundTripDate(c: Date, d: string)
    requires Plain(d) && 0 <= c.year <= 9999
    ensures ParseTask(Task(State.Incomplete(None, Some(c)), d).Display()) == Done(Task(State.Incomplete(None, Some(c)), d), [])
  {
    var t := Task(State.Incomplete(None, Some(c)), d);
    var a := Format(c);
    IncompleteLine(t, [], a + " ");
    EmptyFront(a, d);
    FormatIsToken(c);
    TokenStart(a, c);
    assert (a + " " + d)[0] == a[0];
    SingleDate(a, c, d);
    TaskOfState(a + " " + d, State.Incomplete(None, Some(c)), d);
  }

  lemma DisplayRoundTripPriorityDate(p: Priorities.Priority, c: Date, d: string)
    requires Plain(d) && 0 <= c.year <= 9999
    ensures ParseTask(Task(State.Incomplete(Some(p), Some(c)), d).Display()) == Done(Task(State.Incomplete(Some(p), Some(c)), d), [])
  {
    var t := Task(State.Incomplete(Some(p), Some(c)), d);
    var line := t.Display();
    IncompleteLine(t, Priorities.Render(p) + " ", Format(c) + " ");
    Joined(Priorities.Render(p), Format(c), d);
    FormatIsToken(c);
    PriorityAndDate(p, Format(c), c, d);
    TaskOfState(line, State.Incomplete(Some(p), Some(c)), d);
  }

  /**
   * `Display` output reads back as the same task, for every state except a
   * complete task with dates, when the description starts no grammar element
   * and the years have four digits.
   */
  lemma {:induction false} DisplayRoundTrip(t: Task)
    requires Plain(t.text) && FourDigitYears(t.state)
    requires !(t.state.Complete? && t.state.dates.Some?)
    ensures ParseTask(t.Display()) == Done(t, [])
  {
    match t.state
    case Complete(_) => DisplayRoundTripMarker(t.text);
    case Incomplete(None, None) =>
      assert t.Display() == t.text;
      PlainLine(t.text);
    case Incomplete(Some(p), None) => DisplayRoundTripPriority(p, t.text);
    case Incomplete(None, Some(c)) => DisplayRoundTripDate(c, t.text);
    case Incomplete(Some(p), Some(c)) => DisplayRoundTripPriorityDate(p, c, t.text);
  }

  /**
   * A complete task with dates (c, r) is displayed with c twice, so it reads
   * back as (c, c): its creation date is lost whenever it differs from c.
   */
  lemma {:induction false} DisplayRepeatsCompletionDate(c: Date, r: Date, d: string)
    requires Plain(d) && 0 <= c.year <= 9999
    ensures Task(Complete(Some((c, r))), d).Display() == "x " + Format(c) + " " + Format(c) + " " + d
    ensures ParseTask(Task(Complete(Some((c, r))), d).Display()) == Done(Task(Complete(Some((c, c))), d), [])
  {
    var t := Task(Complete(Some((c, r))), d);
    var line := t.Display();
    CompleteLine(t, Format(c) + " ", Format(c) + " ");
    Spaced(Format(c), Format(c), d);
    FormatIsToken(c);
    MarkerThenDatePair(Format(c), c, Format(c), c, d);
    TaskOfState(line, Complete(Some((c, c))), d);
  }

  /** On a complete task with dates (c, r), `creation_date()` answers c, not r. */
  lemma CreationDateOfComplete(c: Date, r: Date, d: string)
    ensures Task(Complete(Some((c, r))), d).CreationDate() == Some(c)
    ensures Task(Complete(Some((c, r))), d).CompletionDate() == Some(c)
    ensures c != r ==> Task(Complete(Some((c, r))), d).CreationDate() != Some(r)
  {
  }

  /**
   * nom's streaming parsers ask for more input when a line ends where a
   * space is still expected: a line that is only `x` (and blanks) is not
   * parsed at all.
   */
  lemma {:induction false} MarkerAtEndOfInput(w: string)
    requires Blanks(w)
    ensures ParseTask("x" + w).NeedMore?
  {
    var s := "x" + w;
    assert Sp(s) == Done((), s);
    assert s[1..] == w;
    assert Char('x', s) == Done('x', w);
    assert ParseState(s).NeedMore?;
  }

  /** A line that is only a priority (and blanks) is not parsed. */
  lemma {:induction false} PriorityAtEndOfInput(p: Priorities.Priority, w: string)
    requires Blanks(w)
    ensures ParseTask(Priorities.Render(p) + w).NeedMore?
  {
    var s := Priorities.Render(p) + w;
    Priorities.RenderRoundTrip(p, w);
    assert Sp(s) == Done((), s);
    assert Char('x', s) == NoMatch;
    assert OptPriority(s).NeedMore?;
    assert ParseState(s).NeedMore?;
  }

  /** A line that is only a date (and blanks) is not parsed. */
  lemma {:induction false} DateAtEndOfInput(a: string, c: Date, w: string)
    requires DateToken(a, c) && Blanks(w)
    ensures ParseTask(a + w).NeedMore?
  {
    var s := a + w;
    TokenStart(a, c);
    TokenThenRest(a, c, w);
    assert s[0] == a[0];
    assert Sp(s) == Done((), s);
    assert Char('x', s) == NoMatch;
    assert Priorities.ParsePriority(s) == NoMatch;
    assert OptPriority(s) == Done(None, s);
    assert OptDate(s).NeedMore?;
    assert ParseState(s).NeedMore?;
  }

  /** A line whose state asks for more input is not parsed. */
  lemma StateNeedsMore(s: string)
    requires s != [] && !IsSep(s[0]) && ParseState(s).NeedMore?
    ensures ParseTask(s).NeedMore?
  {
    assert Sp(s) == Done((), s);
  }

  /** A completed line whose two dates are the last thing on it is not parsed. */
  lemma {:induction false} DatePairAtEndOfInput(a: string, c: Date, b: string, e: Date, w: string)
    requires DateToken(a, c) && DateToken(b, e) && Blanks(w)
    ensures ParseTask("x " + a + " " + b + w).NeedMore?
  {
    var tail := a + " " + (b + w);
    assert "x " + a + " " + b + w == "x " + tail;
    DatePairAtEnd(a, c, b, e, w);
    MarkedTailNeedsMore(tail);
  }

  /** Two dates with only blanks after the second: the pair parser asks for more input. */
  lemma DatePairAtEnd(a: string, c: Date, b: string, e: Date, w: string)
    requires DateToken(a, c) && DateToken(b, e) && Blanks(w)
    ensures var tail := a + " " + (b + w); tail != [] && !IsSpaceOrTab(tail[0]) && DatePair(tail).NeedMore?
  {
    TokenStart(a, c);
    assert (a + " " + (b + w))[0] == a[0];
    TokenStart(b, e);
    assert (b + w)[0] == b[0];
    DatePairFirst(a, c, b + w);
    DateAtEnd(b, e, w);
  }

  /** `x`, a space, then text on which the pair parser asks for more input: so does the task parser. */
  lemma MarkedTailNeedsMore(tail: string)
    requires tail != [] && !IsSpaceOrTab(tail[0]) && DatePair(tail).NeedMore?
    ensures ParseTask("x " + tail).NeedMore?
  {
    MarkerState(tail);
    CompleteBranchNeedsMore(tail);
    StateNeedsMore("x " + tail);
  }

  /** A date with only blanks after it: the space that should follow is still to come. */
  lemma DateAtEnd(b: string, e: Date, w: string)
    requires DateToken(b, e) && Blanks(w)
    ensures ThenSpace(ParseDate(b + w)).NeedMore?
  {
    TokenThenRest(b, e, w);
  }

  lemma CompleteBranchNeedsMore(s: string)
    requires DatePair(s).NeedMore?
    ensures CompleteBranch(s).NeedMore?
  {
  }

  lemma MarkerInFront(p: string, tail: string, text: string)
    requires p == "x " + tail
    ensures |p + text| - |text| >= 2 && (p + text)[..2] == "x "
  {
    assert (p + text)[..2] == p[..2];
  }

  lemma CompletePrefix(t: Task)
    requires t.IsComplete()
    ensures t.Prefix() == "x " + (DatePart(t.CompletionDate()) + DatePart(t.CreationDate()))
  {
    DropEmptyPriority("x ", PriorityPart(t.Priority()), DatePart(t.CompletionDate()), DatePart(t.CreationDate()), t.text);
  }

  /** A complete task is rendered with `x ` in front. */
  lemma CompleteDisplayMarked(t: Task)
    requires t.IsComplete()
    ensures |t.Display()| - |t.text| >= 2 && t.Display()[..2] == "x "
  {
    CompletePrefix(t);
    MarkerInFront(t.Prefix(), DatePart(t.CompletionDate()) + DatePart(t.CreationDate()), t.text);
  }

  /** An incomplete task's rendering does not start with `x`. */
  lemma IncompleteDisplayUnmarked(t: Task)
    requires !t.IsComplete()
    ensures t.Display() != [] && |t.Display()| > |t.text| ==> t.Display()[0] != 'x'
  {
    var f, g := PriorityPart(t.Priority()), DatePart(t.CreationDate());
    IncompleteLine(t, f, g);
    if f != [] {
      assert t.Display()[0] == f[0];
    } else if g != [] {
      assert t.Display()[0] == g[0];
    }
  }

  /** The rendering of a task starts with `x ` exactly when the task is complete. */
  lemma DisplayMarksCompletion(t: Task)
    ensures t.IsComplete() <==> |t.Display()| - |t.text| >= 2 && t.Display()[..2] == "x "
  {
    if t.IsComplete() {
      CompleteDisplayMarked(t);
    } else {
      IncompleteDisplayUnmarked(t);
    }
  }
}
