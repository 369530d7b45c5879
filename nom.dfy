/**
 * The few parser combinators of nom 4 the grammar is built from, applied to
 * `&str` input. nom 4 parsers on `&str` are streaming: a parser that runs
 * out of input before it can decide reports `NeedMore` instead of failing.
 * `opt!` and `alt!` treat a plain non-match (`Error`) as "absent" or "try the
 * next alternative", but pass `NeedMore` on unchanged.
 */
module Nom {
  import opened Wrappers

  /** `IResult`: a value and the unconsumed input, a non-match, or a request for more input. */
  datatype Res<+T> = Done(value: T, rest: string) | NoMatch | NeedMore

  /** `t` is what is left of `s` after consuming some prefix of it. */
  predicate IsSuffix(t: string, s: string) {
    |t| <= |s| && t == s[|s| - |t|..]
  }

  lemma SuffixTransitive(a: string, b: string, c: string)
    requires IsSuffix(a, b) && IsSuffix(b, c)
    ensures IsSuffix(a, c)
  {
    assert c[|c| - |b|..][|b| - |a|..] == c[|c| - |a|..];
  }

  /** `char!(c)`. */
  function Char(c: char, s: string): (r: Res<char>)
    ensures r.NeedMore? <==> s == []
    ensures r.Done? <==> s != [] && s[0] == c
    ensures r.Done? ==> r.value == c && r.rest == s[1..]
  {
    if s == [] then NeedMore else if s[0] == c then Done(c, s[1..]) else NoMatch
  }

  /** The characters nom's `space` accepts. */
  predicate IsSpaceOrTab(c: char) {
    c == ' ' || c == '\t'
  }

  /** The separator characters of `ws!` (nom's `sp`). */
  predicate IsSep(c: char) {
    c == ' ' || c == '\t' || c == '\r' || c == '\n'
  }

  /** Length of the run of spaces and tabs at the start of `s`. */
  function SpaceRun(s: string): (n: nat)
    ensures n <= |s|
    ensures forall i :: 0 <= i < n ==> IsSpaceOrTab(s[i])
    ensures n < |s| ==> !IsSpaceOrTab(s[n])
  {
    if s == [] || !IsSpaceOrTab(s[0]) then 0 else 1 + SpaceRun(s[1..])
  }

  /**
   * nom's `space`: one or more spaces or tabs. With nothing but spaces and
   * tabs left (or nothing at all) it cannot tell whether more would follow,
   * and reports NeedMore.
   */
  function Space(s: string): (r: Res<()>)
    ensures r.NeedMore? <==> forall i :: 0 <= i < |s| ==> IsSpaceOrTab(s[i])
    ensures r.NoMatch? <==> s != [] && !IsSpaceOrTab(s[0])
    ensures r.Done? ==> 0 < |s| - |r.rest| && r.rest == s[|s| - |r.rest|..]
    ensures r.Done? ==> r.rest != [] && !IsSpaceOrTab(r.rest[0])
    ensures r.Done? ==> forall i :: 0 <= i < |s| - |r.rest| ==> IsSpaceOrTab(s[i])
  {
    var n := SpaceRun(s);
    if n == |s| then NeedMore
    else if n == 0 then NoMatch
    else Done((), s[n..])
  }

  /** Length of the run of `ws!` separators at the start of `s`. */
  function SepRun(s: string): (n: nat)
    ensures n <= |s|
    ensures forall i :: 0 <= i < n ==> IsSep(s[i])
    ensures n < |s| ==> !IsSep(s[n])
  {
    if s == [] || !IsSep(s[0]) then 0 else 1 + SepRun(s[1..])
  }

  /**
   * nom's `sp`, which `ws!` runs around its parser: zero or more separators,
   * NeedMore when only separators (or nothing) remain. It never fails to match.
   */
  function Sp(s: string): (r: Res<()>)
    ensures !r.NoMatch?
    ensures r.NeedMore? <==> forall i :: 0 <= i < |s| ==> IsSep(s[i])
    ensures r.Done? ==> r.rest != [] && !IsSep(r.rest[0]) && |r.rest| <= |s| && r.rest == s[|s| - |r.rest|..]
    ensures r.Done? ==> forall i :: 0 <= i < |s| - |r.rest| ==> IsSep(s[i])
  {
    var n := SepRun(s);
    if n == |s| then NeedMore else Done((), s[n..])
  }

  /** `terminated!(p, space)`, given the outcome of `p`. */
  function ThenSpace<T>(r: Res<T>): (t: Res<T>)
    ensures t.Done? <==> r.Done? && Space(r.rest).Done?
    ensures t.Done? ==> t.value == r.value && t.rest == Space(r.rest).rest
    ensures t.NeedMore? <==> r.NeedMore? || (r.Done? && Space(r.rest).NeedMore?)
  {
    match r
    case Done(v, rest) =>
      (match Space(rest)
       case Done(_, rest') => Done(v, rest')
       case NoMatch => NoMatch
       case NeedMore => NeedMore)
    case NoMatch => NoMatch
    case NeedMore => NeedMore
  }

  /**
   * `opt!(p)` on `input`, given the outcome of `p` there: a non-match becomes
   * an absent value that consumes nothing; NeedMore is passed on.
   */
  function Opt<T>(r: Res<T>, input: string): (o: Res<Option<T>>)
    ensures !o.NoMatch?
    ensures o.NeedMore? <==> r.NeedMore?
    ensures r.NoMatch? ==> o == Done(None, input)
    ensures r.Done? ==> o == Done(Some(r.value), r.rest)
  {
    match r
    case Done(v, rest) => Done(Some(v), rest)
    case NoMatch => Done(None, input)
    case NeedMore => NeedMore
  }
}
