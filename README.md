# todotxt-rs task parser, modelled in Dafny

todotxt-rs reads files in the todo.txt format, one task per line. A line
may start with a completion marker `x`, a priority `(A)`–`(Z)` and up to
two `YYYY-MM-DD` dates. The rest of the line is the task's description.
Inside the description, words starting with `@` are contexts, words
starting with `+` are projects, and words holding a `:` are special
`key:value` tags.

The model covers the parts of the library that do that work:

| module | file | the library's part |
|---|---|---|
| `Priorities` | `priority.dfy` | `Priority`: parsing, `Display` and both orderings |
| `Dates` | `date.dfy` | the date parser that `NaiveDate` is read with, and chrono's date rendering |
| `Nom` | `nom.dfy` | the nom 4 combinators the grammar uses (`char!`, `space`, `ws!`, `opt!`, `terminated!`), with nom's streaming "needs more input" outcome |
| `Tasks`, `TaskLemmas` | `task.dfy`, `task_lemmas.dfy` | `State::parse`, `Task::parse`, the accessors, `Clone` and `Display` |
| `TagScan`, `TagLemmas` | `tags.dfy`, `tags_lemmas.dfy` | the `Tags` iterator over a description, `Tag`, and indexing a `str` by a tag |
| `TaskLines` | `lines.dfy` | `parse`, `Input::tasks` and the double-ended `Iter` over the lines of a file |
| `Text` | `text.dfy` | `char::is_whitespace`, `str::trim`, UTF-8 byte offsets and `str` slicing |

Parsers are functions from the input to a result. The result is
`Done(value, rest)`, `NoMatch` or `NeedMore`, which mirrors nom 4's
`Ok`, `Err(Error)` and `Err(Incomplete)`.

The two iterators are classes whose methods update a cursor:
- `TagScan.Tags` works over the `CharIndices` of the description.
- `TaskLines.Iter` has a front and a back cursor into the lines of the file.

Each method is proved against a function that says what one call returns
and where the cursor ends up. The lemmas about those functions state
what the whole iteration yields.

What the code does where a reader might expect something else:
- `creation_date()` on a complete task with two dates returns the first
  date, the same one as `completion_date()`. The second date is
  unreachable through the accessors. So `Display` writes the completion
  date twice, and reparsing the output gives a task whose two dates are
  both the completion date.
- A line with no `x` but two leading dates is read as a complete task.
- A line with a priority and two dates is read as an incomplete task
  with the first date only. The second date is consumed and lost.
- nom is streaming. A line that is only `x`, only a priority or only a
  date (plus whitespace) asks for more input, so it is not a task.
- `Iter` is declared a `FusedIterator`. Even so, a line that fails to
  parse makes `next` return `None`, and the following call goes on to
  the next line. Collecting the iterator stops at the first failing line.
- The tag iterator reports a word's end as one byte past the start of its
  last character:
  - A word of one character, such as a lone `@`, becomes the empty slice,
    so it is never a tag.
  - A word whose last character takes several bytes in UTF-8 makes the
    slice fall inside that character, and Rust panics there.
- A word starting with `@` is a context even when it holds a `:`.
- `Priority` derives `Ord`, so its `cmp` orders A below Z. Its
  hand-written `partial_cmp` orders A above Z.

## Model

| member | source | states |
|---|---|---|
| Priorities.FromLetter | todotxt/src/priority.rs:47-76 | An upper-case letter, and nothing else, selects a variant, and that variant prints as the letter. |
| Priorities.LetterRoundTrip | todotxt/src/priority.rs:32-35 | Every variant is selected by its own letter. |
| Priorities.OrdinalInjective | todotxt/src/priority.rs:32-35 | Distinct variants have distinct positions in the enum. |
| Priorities.ParsePriority | todotxt/src/priority.rs:43-80 | A recognised priority consumes exactly three characters, and only input shorter than three characters asks for more. |
| Priorities.ParsePriorityDone | todotxt/src/priority.rs:43-80 | A priority is recognised exactly on `(`, a letter A–Z and `)`. The result is that letter's variant, and the input after `)` is left. |
| Priorities.ParsePriorityNoMatch | todotxt/src/priority.rs:43-80 | Input that cannot become `(X)` is a non-match. |
| Priorities.ParsePriorityNeedMore | todotxt/src/priority.rs:43-80 | Only a proper prefix of `(X)` asks for more input. |
| Priorities.Render | todotxt/src/priority.rs:37-41 | A priority prints as three characters: `(`, an upper-case letter and `)`. |
| Priorities.RenderRoundTrip | todotxt/src/priority.rs:37-80 | Parsing the printed priority gives it back and leaves what followed untouched. |
| Priorities.PartialCmp | todotxt/src/priority.rs:82-95 | `partial_cmp` always answers (it is never None). |
| Priorities.Cmp | todotxt/src/priority.rs:31-35 | The derived `cmp` is alphabetical: p < q exactly when p's letter comes earlier. |
| Priorities.PartialCmpEqual | todotxt/src/priority.rs:82-95 | `partial_cmp` says Equal exactly on the same letter. |
| Priorities.PartialCmpGreater | todotxt/src/priority.rs:82-95 | `p > q` exactly when p's letter comes earlier in the alphabet. |
| Priorities.PartialCmpAntisymmetric | todotxt/src/priority.rs:82-95 | `partial_cmp` always answers, and swapping the operands flips the answer. |
| Priorities.PartialCmpTransitive | todotxt/src/priority.rs:82-95 | "Greater" is transitive. |
| Priorities.DerivedCmpIsReversed | todotxt/src/priority.rs:31-35 | The derived `cmp` is the exact reverse of `partial_cmp`, so the two disagree on every pair of distinct priorities. |
| Priorities.AGreatestButCmpLeast | todotxt/src/priority.rs:31-95 | `partial_cmp` puts A above Z, while `cmp` puts A below Z. |
| Dates.IsLeapYear | todotxt/src/task.rs:62-64 | A leap year is divisible by 4, and every year divisible by 4 but not by 100 is one. |
| Dates.LeapYearCycle | todotxt/src/task.rs:62-64 | Leap years repeat with a period of 400 years. |
| Dates.ValidDate | todotxt/src/task.rs:62-64 | A valid date has a month 1–12 and a day 1–31, February 29 only in leap years, and every day 1–28 of every month is valid. |
| Dates.DaysInMonth | todotxt/src/task.rs:62-64 | Months have 28 to 31 days, and February has 29 exactly in Gregorian leap years. |
| Dates.ParseInt | todotxt/src/task.rs:56-58 | `parse_to!` accepts exactly a non-empty run of digits, or one with a leading `+`, or (for the signed year) a leading `-`. The value is the decimal value of the digits, negated after `-`; an unsigned field is never negative. |
| Dates.FieldValueIsParseInt | todotxt/src/task.rs:57-58 | A two-character month or day field reads as its two digits, or as `+` and one digit, and nothing else. |
| Dates.YearValueIsParseInt | todotxt/src/task.rs:56 | A four-character year field reads as its four digits, or as a sign and three digits, and nothing else. |
| Dates.ParseDate | todotxt/src/task.rs:53-65 | Under `complete!`, the date parser never asks for more input. |
| Dates.ParseDateFields | todotxt/src/task.rs:53-65 | Input shorter than ten characters or without `-` at positions 4 and 7 is a non-match. Otherwise the date is recognised exactly when the year, month and day fields read as numbers that make a valid date; it is that date and the input after the ten characters is left. |
| Dates.Format | todotxt/src/task.rs:217-223 | A printed date starts with a digit or a sign. |
| Dates.FormatRoundTrip | todotxt/src/task.rs:53-65 | A date with a year from 0 to 9999 prints as ten characters and parses back to itself, leaving what followed. |
| Dates.TokenPrefix | todotxt/src/task.rs:53-65 | A recognised date is spelled by the first ten characters of the input, and the rest is what follows them. |
| Dates.ParseDateAppend | todotxt/src/task.rs:53-65 | Only the first ten characters decide whether a date is recognised. |
| Dates.SignedPiecesAccepted | todotxt/src/task.rs:56-58 | Signs inside the pieces are accepted: `+999-+1-+1` is 999-01-01. |
| Dates.NoThirtiethOfFebruary | todotxt/src/task.rs:62-64 | 2023-02-30 is not a date. |
| Dates.NoLeapDayInCommonYear | todotxt/src/task.rs:62-64 | 2023-02-29 is not a date. |
| Dates.NoLeapDayInCenturyYear | todotxt/src/task.rs:62-64 | 1900-02-29 is not a date. |
| Dates.LeapDayInFourHundredthYear | todotxt/src/task.rs:62-64 | 2000-02-29 is a date. |
| Dates.LeapDayInLeapYear | todotxt/src/task.rs:62-64 | 2024-02-29 is a date. |
| Nom.Char | todotxt/src/task.rs:87 | `char!(c)` asks for more input only on empty input, matches exactly when the input starts with c, and then consumes that one character. |
| Nom.Space | todotxt/src/task.rs:74-75 | `space` consumes a non-empty run of spaces and tabs, and what follows it is neither. It asks for more input when nothing else is left, and fails on any other first character. |
| Nom.Sp | todotxt/src/task.rs:235 | The separator skipper of `ws!` never fails. It consumes only spaces, tabs, CR and LF, and asks for more input when nothing else is left. |
| Nom.ThenSpace | todotxt/src/task.rs:81-83 | `terminated!(p, space)` succeeds exactly when p and then `space` succeed. It asks for more input when either of them does. |
| Nom.Opt | todotxt/src/task.rs:81-88 | `opt!` turns a non-match into an absent value that consumes nothing, and passes a request for more input on. |
| Tasks.DatePair | todotxt/src/task.rs:72-77 | The `complete` parser consumes a prefix of its input; DatePairOfTokens and DatePairDone state in both directions which input it reads and what it gives. |
| Tasks.OptPriority | todotxt/src/task.rs:81 | The optional priority never fails to match. When absent it consumes nothing; when present it is the priority parser's value, and exactly the spaces after it are consumed too. |
| Tasks.OptDate | todotxt/src/task.rs:82-83 | The same for an optional date. |
| Tasks.Unknown | todotxt/src/task.rs:79-85 | The `unknown` parser never fails to match and consumes a prefix. |
| Tasks.CompleteBranch | todotxt/src/task.rs:88 | After `x`, the state is always Complete. |
| Tasks.UnknownBranch | todotxt/src/task.rs:89-96 | Without a marker, the state is complete exactly when there is no priority and two dates, with those dates in that order; otherwise it is incomplete with the priority and the first date. It consumes what `unknown` consumes. |
| Tasks.ParseState | todotxt/src/task.rs:68-99 | `State::parse` never fails to match, consumes a prefix, and on non-empty input leaves a non-empty rest. |
| Tasks.ParseTask | todotxt/src/task.rs:229-239 | `Task::parse` never fails to match and consumes all input. A parsed description is a non-empty suffix of the line that starts with no separator. |
| Tasks.Task.CompletionDate | todotxt/src/task.rs:104-109 | Only a complete task with dates has a completion date. |
| Tasks.Task.CreationDate | todotxt/src/task.rs:112-117 | On a complete task this is the completion date; on an incomplete one it is the stored date. |
| Tasks.Task.IsComplete | todotxt/src/task.rs:124-130 | True exactly for a complete state (a plain definition, without a contract). |
| Tasks.Task.Priority | todotxt/src/task.rs:134-139 | A complete task never has a priority; an incomplete one has its stored priority. |
| Tasks.Task.Clone | todotxt/src/task.rs:198-205 | The clone has the same state and description. |
| Tasks.Task.Tags | todotxt/src/task.rs:190-195 | `tags()` gives a new iterator over the description, at its start. |
| Tasks.Task.Display | todotxt/src/task.rs:207-227 | The printed task ends with its description. |
| Tasks.PriorityPart | todotxt/src/task.rs:213-215 | A priority prints as itself followed by a space, starting with `(`. |
| Tasks.DatePart | todotxt/src/task.rs:217-223 | A date prints as itself followed by a space, never starting with `x`. |
| TaskLemmas.PlainLine | todotxt/src/task.rs:87-97 | A line with no marker, priority or date is an incomplete task without either, and the whole line is its description. |
| TaskLemmas.TaskOfState | todotxt/src/task.rs:229-239 | When the state leaves text that starts with a non-separator, the task has that state and that text as its description. |
| TaskLemmas.TaskOfStateSeparated | todotxt/src/task.rs:229-239 | When the state leaves text that is not all separators, the separators `ws!` skips after the state (`\r` included) are dropped, and the description is what follows them. |
| TaskLemmas.TaskOfTrimmedLine | todotxt/src/task.rs:229-239 | On a line with no leading or trailing whitespace whose state parses, the task always completes: it has that state, and its description is the state's leftover text with its leading separators dropped. |
| TaskLemmas.SpOfSuffix | todotxt/src/task.rs:235 | A non-empty tail of a line that ends in non-whitespace is never all separators, so the `ws!` after the state succeeds. |
| TaskLemmas.MarkerMakesComplete | todotxt/src/task.rs:87-88 | After `x` and its spaces the state is always complete. When the pair parser reads two dates the state holds them and it leaves what the pair parser leaves; when it does not match, the state has no dates and nothing more is consumed; when it asks for more input, so does the state parser. |
| TaskLemmas.XWithoutSpace | todotxt/src/task.rs:87-89 | An `x` not followed by a space is not a marker. |
| TaskLemmas.Xylophone | todotxt/src/task.rs:87-89 | "xylophone" is an incomplete task with that description. |
| TaskLemmas.SpaceGap | todotxt/src/task.rs:74-75 | `space` consumes a whole run of spaces and tabs and stops at the first other character. |
| TaskLemmas.DatePairOfTokens | todotxt/src/task.rs:72-77 | Two dates, each followed by spaces or tabs, are read by the pair parser in order, and what follows is left. |
| TaskLemmas.SpaceSplit | todotxt/src/task.rs:74-75 | What `space` consumes is a non-empty run of spaces and tabs, and the input is that run followed by what `space` leaves. |
| TaskLemmas.DatePairDone | todotxt/src/task.rs:72-77 | Conversely, the pair parser succeeds only on two date tokens, each followed by a run of spaces and tabs. Its value is those two dates in order, and it leaves the text after the second run, which starts with neither. |
| TaskLemmas.MarkerDatesFromTokens | todotxt/src/task.rs:87-88 | After `x` and its spaces, a complete state carries dates only when two date tokens, each followed by spaces or tabs, come next; the description is what follows them. |
| TaskLemmas.MarkerThenDatePair | todotxt/src/task.rs:72-77 | `x`, then two dates, gives a complete task with those dates in that order. |
| TaskLemmas.MarkerSingleDateStays | todotxt/src/task.rs:88 | `x` and a single date gives a complete task without dates, and the date stays in the description. |
| TaskLemmas.DatePairPromoted | todotxt/src/task.rs:90-92 | Two dates without a marker or priority give a complete task. |
| TaskLemmas.UnknownParts | todotxt/src/task.rs:89-96 | Without a marker, the state is built from the three optional parts exactly as the `match` of the source says. |
| TaskLemmas.PriorityDropsSecondDate | todotxt/src/task.rs:93-95 | A priority and two dates give an incomplete task with the first date only. The second date is consumed and lost. |
| TaskLemmas.SingleDate | todotxt/src/task.rs:93-95 | A single date gives an incomplete task created on that date. |
| TaskLemmas.PriorityAndDate | todotxt/src/task.rs:93-95 | A priority and a date give an incomplete task with both. |
| TaskLemmas.PriorityOnly | todotxt/src/task.rs:93-95 | A priority alone gives an incomplete task with that priority. |
| TaskLemmas.MarkerOnly | todotxt/src/task.rs:88 | `x` alone gives a complete task without dates. |
| TaskLemmas.CompleteLine | todotxt/src/task.rs:207-227 | A complete task prints as `x `, its dates and its description. |
| TaskLemmas.IncompleteLine | todotxt/src/task.rs:207-227 | An incomplete task prints as its priority, its date and its description. |
| TaskLemmas.DisplayRoundTrip | todotxt/src/task.rs:207-239 | Parsing a printed task gives the task back. This holds for every state except a complete task with two dates, given four-digit years and a plain description. |
| TaskLemmas.DisplayRepeatsCompletionDate | todotxt/src/task.rs:112-117 | A complete task with two dates prints its completion date twice and reparses with both dates equal to it. |
| TaskLemmas.CreationDateOfComplete | todotxt/src/task.rs:112-117 | On a complete task, `creation_date()` is the first date of the pair, never a different second one. |
| TaskLemmas.MarkerAtEndOfInput | todotxt/src/task.rs:87 | A line that is only `x` asks for more input. |
| TaskLemmas.PriorityAtEndOfInput | todotxt/src/task.rs:81 | A line that is only a priority asks for more input. |
| TaskLemmas.DateAtEndOfInput | todotxt/src/task.rs:82 | A line that is only a date asks for more input. |
| TaskLemmas.DatePairAtEndOfInput | todotxt/src/task.rs:72-77 | A line that is only `x` and two dates asks for more input. |
| TaskLemmas.StateNeedsMore | todotxt/src/task.rs:235 | When the state parser asks for more input, so does `Task::parse`. |
| TaskLemmas.DisplayMarksCompletion | todotxt/src/task.rs:209-211 | A task is complete exactly when its printed form starts with `x ` ahead of the description. |
| TagScan.Tag.End | todotxt/src/tags.rs:107-111 | The end offset, whatever the kind of tag (a plain accessor, without a contract). |
| TagScan.Tag.Start | todotxt/src/tags.rs:129-135 | The start offset, whatever the kind of tag (a plain accessor, without a contract). |
| TagScan.Index | todotxt/src/tags.rs:138-144 | Indexing a description by a tag succeeds exactly when both offsets are character boundaries in order. It then gives the characters between them. |
| TagScan.NextWord | todotxt/src/tags.rs:175-181 | The next word is a maximal run of non-whitespace after only whitespace. There is none exactly when only whitespace is left. |
| TagScan.WordBoundary | todotxt/src/tags.rs:175-181 | The start is the word's first byte. The end lies between the start and the byte just after the word, and the cursor ends past the whitespace that ends the word. Its exact value is given by SingleCharacterSlice (a one-character word) and BoundaryOfLongWord (a longer word: one past the first byte of its last character). |
| TagScan.BoundaryOfLongWord | todotxt/src/tags.rs:177-178 | For a word of two or more characters, the end is one byte past the start of its last character. |
| TagScan.Classify | todotxt/src/tags.rs:155-161 | A word is a context exactly when it starts with `@`, a project exactly when it starts with `+`, and otherwise special exactly when it holds `:`. |
| TagScan.Scan | todotxt/src/tags.rs:148-165 | The cursor only moves forward, and the end of the tags leaves it at the end. |
| TagScan.Tags.constructor | todotxt/src/task.rs:190-195 | A new iterator holds the description and stands at its start. |
| TagScan.Tags.Advance | todotxt/src/tags.rs:176-178 | One step of `CharIndices`: gives the byte index and the character at the cursor, and moves the cursor past it. |
| TagScan.Tags.SkipWhitespace | todotxt/src/tags.rs:176 | The cursor moves to the first non-whitespace character. |
| TagScan.Tags.TakeRest | todotxt/src/tags.rs:177-180 | The cursor moves past the word and the whitespace after it. The result is the byte index of the word's last character, if there is more than one character. |
| TagScan.Tags.NextWordBoundary | todotxt/src/tags.rs:175-181 | Gives the offsets and cursor that `WordBoundary` describes. |
| TagScan.Tags.Next | todotxt/src/tags.rs:148-165 | Gives the step and cursor that `Scan` describes. |
| TagLemmas.SingleCharacterSlice | todotxt/src/tags.rs:177-180 | A word of one character gets the empty range. |
| TagLemmas.AsciiEndSlice | todotxt/src/tags.rs:175-181 | A longer word ending in an ASCII character gets exactly its own byte range and slice. |
| TagLemmas.MultibyteEndSlice | todotxt/src/tags.rs:175-181 | A longer word ending in a multi-byte character gets an end offset that is not a valid slice. |
| TagLemmas.WordMakesTag | todotxt/src/tags.rs:152-161 | The tag made from a word covers exactly that word, and its kind matches the word's first character. |
| TagLemmas.NextTagIsNextWord | todotxt/src/tags.rs:148-165 | When the next word makes a tag, `next` yields it. |
| TagLemmas.OneCharacterWordSkipped | todotxt/src/tags.rs:148-165 | A word of one character is passed over, even a lone `@` or `+`. |
| TagLemmas.MultibyteEndPanics | todotxt/src/tags.rs:152-153 | A word ending in a multi-byte character makes `next` panic, with the cursor past the word. |
| TagLemmas.SliceFailurePanics | todotxt/src/tags.rs:153 | A word range that is not a valid slice makes `next` panic, with the cursor past the word. |
| TagLemmas.ScanPast | todotxt/src/tags.rs:161-163 | When `next` is known to yield, a next word that makes no tag was passed over together with the whitespace after it, and the rest of the text still yields. |
| TagLemmas.NonTagWordSkipped | todotxt/src/tags.rs:159-163 | A word of two or more characters ending in ASCII that makes no tag is passed over: `next` returns what it returns on the text after the word. |
| TagLemmas.FirstWord | todotxt/src/tags.rs:148-165 | A word that is passed over leaves the result to the words after it. Any other next word ends the call past it: with its tag when it makes one, with a panic otherwise. |
| TagLemmas.FinishedIffAllPassedOver | todotxt/src/tags.rs:148-165 | `next` returns None exactly when every word left is passed over (one character long, or ending in ASCII and making no tag). |
| TagLemmas.YieldHere | todotxt/src/tags.rs:148-165 | A word that makes a tag is yielded as that word's tag. |
| TagLemmas.ScanYieldsWord | todotxt/src/tags.rs:148-165 | A yielded tag is the tag of the first word from the cursor that is not passed over: every word before it is passed over. Its offsets are the word's byte range, indexing the description by it gives the word, and the cursor ends past the whitespace after it. |
| TagLemmas.TagsInOrder | todotxt/src/tags.rs:148-165 | Consecutive tags do not overlap and come in order. |
| TagLemmas.Fused | todotxt/src/tags.rs:146 | Once the iterator has finished, it stays finished. |
| TagLemmas.AsciiNeverPanics | todotxt/src/tags.rs:148-181 | On an ASCII description the iterator never panics. |
| TagLemmas.AsciiTagOffsets | todotxt/src/tags.rs:107-135 | On an ASCII description a tag's offsets are character positions within the description. |
| TagLemmas.ContextBeforeSpecial | todotxt/src/tags.rs:155-160 | A word starting with `@` is a context even when it holds a `:`. |
| TaskLines.Lines | todotxt/src/parser.rs:54 | No line holds a newline, and the empty text has no lines; the lemmas below give the lines of each shape of text. |
| TaskLines.LinesOfUnlines | todotxt/src/parser.rs:54 | Lines joined with newlines are cut back into the same lines. |
| TaskLines.LinesOfUnlinesThen | todotxt/src/parser.rs:54 | Lines each followed by a newline, then a last line with no newline after it, are all cut back out, the last one included. |
| TaskLines.LinesCons | todotxt/src/parser.rs:54 | The text up to the first newline is the first line, without a final `\r`, and the rest is cut as before. |
| TaskLines.CrLfLine | todotxt/src/parser.rs:54 | A line ending in `\r\n` loses the whole ending. |
| TaskLines.LastLine | todotxt/src/parser.rs:54 | Non-empty text without a newline is a single line. |
| TaskLines.Finish | todotxt/src/parser.rs:41-49 | `parse` gives a value exactly when the parser finishes, and that value is the parser's output. |
| TaskLines.ParseLine | todotxt/src/parser.rs:41-49 | A line gives a task exactly when `Task::parse` finishes on it. The description is a non-empty suffix of the line. |
| TaskLines.Front | todotxt/src/parser.rs:76-84 | `next` only moves the front cursor forward, and past a line whenever it gives a task. |
| TaskLines.Back | todotxt/src/parser.rs:59-68 | `next_back` only moves the back cursor backward, and before a line whenever it gives a task. |
| TaskLines.FrontAllBlank | todotxt/src/parser.rs:76-84 | When only blank lines remain, `next` gives None and uses them all up. |
| TaskLines.FrontTakesFirstEntry | todotxt/src/parser.rs:76-84 | `next` skips the blank lines and gives the parse of the first other line, trimmed, consuming it. |
| TaskLines.BackAllBlank | todotxt/src/parser.rs:59-68 | When only blank lines remain, `next_back` gives None and uses them all up. |
| TaskLines.BackTakesLastEntry | todotxt/src/parser.rs:59-68 | `next_back` skips blank lines from the back and gives the parse of the last other line, trimmed. |
| TaskLines.Iter.constructor | todotxt/src/parser.rs:51-57 | `tasks()` iterates over all lines of the text and parses each as a task. |
| TaskLines.Iter.Next | todotxt/src/parser.rs:76-84 | Gives the task and front cursor that `Front` describes, and leaves the back cursor alone. |
| TaskLines.Iter.NextBack | todotxt/src/parser.rs:59-68 | Gives the task and back cursor that `Back` describes, and leaves the front cursor alone. |
| TaskLines.Parsed | todotxt/src/parser.rs:76-84 | Collecting gives no more tasks than there are non-blank lines. |
| TaskLines.ParsedPrefix | todotxt/src/parser.rs:76-84 | Collected tasks are the parses of the non-blank lines, in order, up to the first line that fails. |
| TaskLines.ForwardReadsEntries | todotxt/src/parser.rs:76-84 | Calling `next` until None gives the parses of the trimmed non-blank lines, in order, stopping at the first failure. |
| TaskLines.BackwardReadsEntries | todotxt/src/parser.rs:59-68 | Calling `next_back` until None does the same from the last line backwards. |
| TaskLines.BackwardIsReversedForward | todotxt/src/parser.rs:59-84 | When every non-blank line parses, iterating from the back gives the tasks of iterating from the front, reversed. |
| TaskLines.ResumesAfterFailure | todotxt/src/parser.rs:71-84 | A failing line makes `next` give None, but the next call gives the following task: the iterator is not fused. |
| TaskLines.MarkerLineFails | todotxt/src/parser.rs:41-49 | A line that is only `x` gives no task. |
| TaskLines.MarkerLineEndsIteration | todotxt/src/parser.rs:71-84 | A lone `x` line ends a `collect` early, although the lines after it hold tasks. |
| Text.IsWhitespace | todotxt/src/tags.rs:167-173 | On ASCII, the whitespace characters are exactly space, tab, LF, vertical tab, form feed and CR; `@` and `+` are never whitespace. |
| Text.Trim | todotxt/src/parser.rs:61 | Trimming removes whitespace from both ends only. The result is empty exactly on blank text, and otherwise starts and ends with non-whitespace. |
| Text.Slice | todotxt/src/tags.rs:141-143 | Slicing a `str` succeeds exactly on ordered character boundaries, and gives the characters between them with the requested byte length. |

## Left out

- The `rayon` parallel iterator (`ParallelInput`, `ParallelIter`) is not modelled. It is an optional feature, and it differs only by skipping failing lines instead of stopping at them.
- The `serde` serialisation and the `Debug` impls produce output only and are not modelled.
- `Task::state()`, `Task::description()`, `Task::is_complete()`, `Tag::start()` and `Tag::end()` are plain reads. `Description`, `IsComplete`, `Start` and `End` are modelled without a contract.
- Borrowed and owned descriptions (`Cow`) and lifetimes do not exist in the model. `Clone` is a value copy.
- The `cfg!(debug)` branch of `parse` is not modelled. It panics on a parse error only when a `debug` configuration flag is set, which ordinary builds do not set; the model follows the release behaviour, which turns the error into None.
- Dates.Format: the round trip is proved only for years 0 to 9999. chrono prints other years with a sign, which the four-character year field of the parser cannot read back.
- TaskLemmas.DisplayRoundTrip: stated for plain descriptions, which do not start with a marker, a priority or a date. It excludes complete tasks with two dates, whose round trip fails as DisplayRepeatsCompletionDate shows.
- Panics are modelled as the `Panicked` outcome of a tag step, not as unwinding.
- TaskLines.Iter: the iterator holds the line parser as a field that its constructor sets to `ParseLine`. The proofs about iteration hold for any line parser.
- The literal descriptions in the library's documentation (`Thank Mom for the meatballs @phone`, `write a +todo.txt parser in @rust`) are not restated as lemmas of their own. What `next` does on them follows from NonTagWordSkipped, OneCharacterWordSkipped, ScanYieldsWord and FinishedIffAllPassedOver, but the model does not spell out their tag offsets.
- nom's internal types and error kinds are collapsed into `NoMatch`. Only the distinction between a non-match and a request for more input is kept.
- chrono's year range (about ±262000) is not bounded in the model. Every year the four-character field can hold lies inside it.
