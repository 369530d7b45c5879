/**
 * A task line: its state (the completion marker, priority and dates at the
 * front of the line) and the verbatim rest of the line as its description.
 */
module Tasks {
  import opened Wrappers
  import opened Nom
  import opened Dates
  import Priorities
  import TagScan

  /** Complete tasks carry both dates or neither; incomplete ones a priority and a creation date. */
  datatype State =
    | Complete(dates: Option<(Date, Date)>)
    | Incomplete(priority: Option<Priorities.Priority>, created: Option<Date>)

  /** The parser named `complete`: two dates separated and followed by spaces. */
  function DatePair(s: string): (r: Res<(Date, Date)>)
    ensures r.Done? ==> IsSuffix(r.rest, s)
  {
    var first := ParseDate(s);
    if !first.Done? then NoMatch
    else
      var gap := Space(first.rest);
      if gap.NoMatch? then NoMatch
      else if gap.NeedMore? then NeedMore
      else
        var second := ThenSpace(ParseDate(gap.rest));
        if second.NoMatch? then NoMatch
        else if second.NeedMore? then NeedMore
        else
          SuffixTransitive(gap.rest, first.rest, s);
          SuffixTransitive(second.rest, gap.rest, s);
          Done((first.value, second.value), second.rest)
  }

  /** `opt!(terminated!(p, space))` with p the priority parser. */
  function OptPriority(s: string): (r: Res<Option<Priorities.Priority>>)
    ensures !r.NoMatch?
    ensures r.Done? && s != [] ==> r.rest != []
    ensures r.Done? ==> IsSuffix(r.rest, s)
    ensures r.Done? && r.value.None? ==> r.rest == s
    ensures r.Done? && r.value.Some? ==>
      var p := Priorities.ParsePriority(s);
      p.Done? && r.value.value == p.value && Space(p.rest) == Done((), r.rest)
  {
    var p := Priorities.ParsePriority(s);
    var t := ThenSpace(p);
    if t.Done? then SuffixTransitive(t.rest, p.rest, s); Opt(t, s) else Opt(t, s)
  }

  /** `opt!(terminated!(p, space))` with p the date parser. */
  function OptDate(s: string): (r: Res<Option<Date>>)
    ensures !r.NoMatch?
    ensures r.Done? && s != [] ==> r.rest != []
    ensures r.Done? ==> IsSuffix(r.rest, s)
    ensures r.Done? && r.value.None? ==> r.rest == s
    ensures r.Done? && r.value.Some? ==>
      var d := ParseDate(s);
      d.Done? && r.value.value == d.value && Space(d.rest) == Done((), r.rest)
  {
    var d := ParseDate(s);
    var t := ThenSpace(d);
    if t.Done? then SuffixTransitive(t.rest, d.rest, s); Opt(t, s) else Opt(t, s)
  }

  /** The parser named `unknown`: an optional priority, then up to two dates. */
  function Unknown(s: string): (r: Res<(Option<Priorities.Priority>, Option<Date>, Option<Date>)>)
    ensures !r.NoMatch?
    ensures r.Done? && s != [] ==> r.rest != []
    ensures r.Done? ==> IsSuffix(r.rest, s)
  {
    var p := OptPriority(s);
    if p.NeedMore? then NeedMore
    else
      var d1 := OptDate(p.rest);
      if d1.NeedMore? then NeedMore
      else
        var d2 := OptDate(d1.rest);
        if d2.NeedMore? then NeedMore
        else
          SuffixTransitive(d1.rest, p.rest, s);
          SuffixTransitive(d2.rest, d1.rest, s);
          Done((p.value, d1.value, d2.value), d2.rest)
  }

  /** What follows an `x` and its spaces: `map!(opt!(complete), State::Complete)`. */
  function CompleteBranch(s: string): (r: Res<State>)
    ensures !r.NoMatch?
    ensures r.Done? && s != [] ==> r.rest != []
    ensures r.Done? ==> r.value.Complete? && IsSuffix(r.rest, s)
  {
    var c := Opt(DatePair(s), s);
    if c.NeedMore? then NeedMore else Done(Complete(c.value), c.rest)
  }

  /**
   * The line without an `x` marker. No priority and two dates is read as a
   * complete task; otherwise the task is incomplete with the priority and
   * the first date, and a second date is dropped.
   */
  function UnknownBranch(s: string): (r: Res<State>)
    ensures !r.NoMatch?
    ensures r.Done? && s != [] ==> r.rest != []
    ensures r.Done? ==> IsSuffix(r.rest, s)
    ensures r.Done? <==> Unknown(s).Done?
    ensures r.Done? ==>
      var (priority, first, second) := Unknown(s).value;
      r.rest == Unknown(s).rest
      && (r.value.Complete? <==> priority.None? && first.Some? && second.Some?)
      && (r.value.Complete? ==> r.value.dates == Some((first.value, second.value)))
      && (r.value.Incomplete? ==> r.value.priority == priority && r.value.created == first)
  {
    var u := Unknown(s);
    if u.NeedMore? then NeedMore
    else
      match u.value
      case (None, Some(completion), Some(creation)) => Done(Complete(Some((completion, creation))), u.rest)
      case (priority, creation, _) => Done(Incomplete(priority, creation), u.rest)
  }

  /** `State::parse`: `switch!` on an optional `x` followed by spaces. It never fails to match. */
  function ParseState(s: string): (r: Res<State>)
    ensures !r.NoMatch?
    ensures r.Done? && s != [] ==> r.rest != []
    ensures r.Done? ==> IsSuffix(r.rest, s)
  {
    var x := ThenSpace(Char('x', s));
    if x.NeedMore? then NeedMore
    else if x.Done? then
      var r := CompleteBranch(x.rest);
      if r.Done? then SuffixTransitive(r.rest, x.rest, s); r else r
    else UnknownBranch(s)
  }

  /** A task: its state and its description. */
  datatype Task = Task(state: State, text: string) {

    /** `completion_date()`: the first date of a complete task's pair. */
    function CompletionDate(): (r: Option<Date>)
      ensures !IsComplete() ==> r.None?
      ensures r.Some? <==> state.Complete? && state.dates.Some?
    {
      match state
      case Complete(dates) => if dates.Some? then Some(dates.value.0) else None
      case Incomplete(_, _) => None
    }

    /**
     * `creation_date()`. On a complete task it returns the FIRST date of
     * the pair, the same as `completion_date()`, not the second.
     */
    function CreationDate(): (r: Option<Date>)
      ensures IsComplete() ==> r == CompletionDate()
      ensures !IsComplete() ==> r == state.created
    {
      match state
      case Complete(dates) => if dates.Some? then Some(dates.value.0) else None
      case Incomplete(_, date) => date
    }

    function Description(): string {
      text
    }

    predicate IsComplete() {
      state.Complete?
    }

    /** `priority()`: never present on a complete task. */
    function Priority(): (r: Option<Priorities.Priority>)
      ensures IsComplete() ==> r.None?
      ensures !IsComplete() ==> r == state.priority
    {
      match state
      case Complete(_) => None
      case Incomplete(priority, _) => priority
    }

    /** `Clone::clone`: an owned copy with the same state and description. */
    function Clone(): (t: Task)
      ensures t.state == state && t.Description() == Description()
    {
      Task(state, text[..])
    }

    /** `tags()`: a new iterator over the tags of the description, at its start. */
    method Tags() returns (it: TagScan.Tags)
      ensures fresh(it) && it.Valid() && it.data == text && it.pos == 0
    {
      it := new TagScan.Tags(text);
    }

    /**
     * `Display::fmt`: `x ` for a complete task, the priority, the completion
     * and creation dates, each followed by a space, then the description.
     */
    function Display(): (r: string)
      ensures IsSuffix(text, r)
    {
      var prefix := Prefix();
      assert (prefix + text)[|prefix + text| - |text|..] == text;
      prefix + text
    }

    /** What `Display::fmt` writes before the description. */
    function Prefix(): string {
      (if IsComplete() then "x " else "")
        + PriorityPart(Priority())
        + DatePart(CompletionDate())
        + DatePart(CreationDate())
    }
  }

  /** A priority as `Display::fmt` writes it, with its trailing space. */
  function PriorityPart(p: Option<Priorities.Priority>): (r: string)
    ensures p.None? ==> r == []
    ensures p.Some? ==> r == Priorities.Render(p.value) + " " && r[0] == '('
  {
    if p.Some? then Priorities.Render(p.value) + " " else ""
  }

  /** A date as `Display::fmt` writes it, with its trailing space. */
  function DatePart(d: Option<Date>): (r: string)
    ensures d.None? ==> r == []
    ensures d.Some? ==> r == Format(d.value) + " " && r[0] != 'x'
  {
    if d.Some? then Format(d.value) + " " else ""
  }

  /**
   * `Task::parse`: `ws!(State::parse)` followed by the rest of the input.
   * `ws!` skips separators (spaces, tabs, CR, LF) before and after the state.
   */
  function ParseTask(line: string): (r: Res<Task>)
    ensures !r.NoMatch?
    ensures r.Done? ==> r.rest == [] && IsSuffix(r.value.text, line)
    ensures r.Done? ==> r.value.text != [] && !IsSep(r.value.text[0])
  {
    var lead := Sp(line);
    if lead.NeedMore? then NeedMore
    else
      var st := ParseState(lead.rest);
      if st.NeedMore? then NeedMore
      else
        var trail := Sp(st.rest);
        if trail.NeedMore? then NeedMore
        else
          SuffixTransitive(st.rest, lead.rest, line);
          SuffixTransitive(trail.rest, st.rest, line);
          Done(Task(st.value, trail.rest), [])
  }
}
