/**
 * Calendar dates as the task grammar reads and writes them: `YYYY-MM-DD`,
 * accepted only when it names a day of the proleptic Gregorian calendar
 * (the calendar-date form of ISO 8601, extended format).
 */
module Dates {
  import opened Wrappers
  import opened Nom

  datatype Ymd = Ymd(year: int, month: int, day: int)

  /** chrono's proleptic Gregorian rule: every fourth year, except centuries not divisible by 400. */
  predicate IsLeapYear(y: int)
    ensures IsLeapYear(y) ==> y % 4 == 0
    ensures y % 4 == 0 && y % 100 != 0 ==> IsLeapYear(y)
  {
    (y % 4 == 0 && y % 100 != 0) || y % 400 == 0
  }

  /** The calendar repeats every 400 years, in both directions. */
  lemma LeapYearCycle(y: int)
    ensures IsLeapYear(y) <==> IsLeapYear(y + 400)
  {
    assert (y + 400) % 4 == y % 4;
    assert (y + 400) % 100 == y % 100;
    assert (y + 400) % 400 == y % 400;
  }

  function DaysInMonth(y: int, m: int): (n: int)
    requires 1 <= m <= 12
    ensures 28 <= n <= 31
    ensures m == 2 ==> (n == 29 <==> IsLeapYear(y))
  {
    if m == 2 then (if IsLeapYear(y) then 29 else 28)
    else if m == 4 || m == 6 || m == 9 || m == 11 then 30
    else 31
  }

  /** The day exists: the check `NaiveDate::from_ymd_opt` makes. */
  predicate ValidDate(d: Ymd)
    ensures ValidDate(d) ==> 1 <= d.month <= 12 && 1 <= d.day <= 31
    ensures ValidDate(d) && d.month == 2 ==> d.day <= 28 || (d.day == 29 && IsLeapYear(d.year))
    ensures 1 <= d.month <= 12 && 1 <= d.day <= 28 ==> ValidDate(d)
  {
    1 <= d.month <= 12 && 1 <= d.day <= DaysInMonth(d.year, d.month)
  }

  /** A calendar date (chrono's `NaiveDate`). */
  type Date = d: Ymd | ValidDate(d) witness Ymd(1970, 1, 1)

  predicate IsDigit(c: char) {
    '0' <= c <= '9'
  }

  /** The value of a run of decimal digits, None when some character is not a digit. */
  function DigitsValue(s: string): (r: Option<nat>)
    ensures r.Some? <==> forall i :: 0 <= i < |s| ==> IsDigit(s[i])
  {
    if s == [] then Some(0)
    else
      var init := DigitsValue(s[..|s| - 1]);
      var c := s[|s| - 1];
      if init.None? || !IsDigit(c) then None
      else Some(init.value * 10 + (c as int - '0' as int))
  }

  /** A non-empty run of decimal digits. */
  predicate Numeral(s: string) {
    s != [] && forall i :: 0 <= i < |s| ==> IsDigit(s[i])
  }

  /**
   * `str::parse` for a Rust integer type: an optional `+` (or `-`, for a
   * signed type) and at least one digit, nothing else. The pieces this
   * grammar hands it are at most four characters, so the value always fits
   * in `i32` or `u32`.
   */
  function ParseInt(s: string, signed: bool): (r: Option<int>)
    ensures r.Some? <==> Numeral(s) || (|s| >= 2 && (s[0] == '+' || (signed && s[0] == '-')) && Numeral(s[1..]))
    ensures Numeral(s) ==> r == DigitsValue(s)
    ensures r.Some? && s[0] == '+' ==> r == DigitsValue(s[1..])
    ensures r.Some? && s[0] == '-' ==> signed && r.value == -(DigitsValue(s[1..]).value as int)
    ensures r.Some? && !signed ==> r.value >= 0
  {
    if s == [] then None
    else if (s[0] == '+' || s[0] == '-') && |s| == 1 then None
    else if s[0] == '+' then DigitsValue(s[1..])
    else if s[0] == '-' && signed then
      var v := DigitsValue(s[1..]);
      var negated: Option<int> := if v.Some? then Some(-(v.value as int)) else None;
      negated
    else DigitsValue(s)
  }

  /**
   * `NaiveDate::parse`: four characters read as an `i32`, `-`, two read as
   * a `u32`, `-`, two read as a `u32`, and then the date must exist. The
   * parser runs under `complete!`, so short input is a plain non-match.
   */
  function ParseDate(s: string): (r: Res<Date>)
    ensures !r.NeedMore?
  {
    if |s| < 10 || s[4] != '-' || s[7] != '-' then NoMatch
    else
      var y := ParseInt(s[..4], true);
      var m := ParseInt(s[5..7], false);
      var d := ParseInt(s[8..10], false);
      if y.None? || m.None? || d.None? then NoMatch
      else if !ValidDate(Ymd(y.value, m.value, d.value)) then NoMatch
      else Done(Ymd(y.value, m.value, d.value), s[10..])
  }

  function Digit(n: nat): (c: char)
    requires n < 10
    ensures IsDigit(c)
  {
    ('0' as int + n) as char
  }

  /** The decimal numeral of `n`, without leading zeros. */
  function Decimal(n: nat): (r: string)
    ensures r != [] && forall i :: 0 <= i < |r| ==> IsDigit(r[i])
    ensures DigitsValue(r) == Some(n)
  {
    if n < 10 then
      assert [Digit(n)][..0] == [];
      [Digit(n)]
    else
      var r := Decimal(n / 10) + [Digit(n % 10)];
      assert r[..|r| - 1] == Decimal(n / 10);
      r
  }

  /** Leading zeros do not change the value of a numeral. */
  lemma {:induction false} LeadingZero(s: string)
    ensures DigitsValue(['0'] + s) == DigitsValue(s)
    decreases |s|
  {
    if s != [] {
      var t := ['0'] + s;
      assert t[..|t| - 1] == ['0'] + s[..|s| - 1];
      LeadingZero(s[..|s| - 1]);
    } else {
      assert (['0'] + s)[..0] == [];
    }
  }

  /** `{:0w}`: the numeral of `n` padded with zeros to at least `w` digits. */
  function Pad(n: nat, w: nat): (r: string)
    ensures |r| >= w
    ensures |Decimal(n)| >= w ==> |r| == |Decimal(n)|
    ensures r != [] && forall i :: 0 <= i < |r| ==> IsDigit(r[i])
    ensures DigitsValue(r) == Some(n)
    decreases w
  {
    if |Decimal(n)| >= w then Decimal(n)
    else
      var r := ['0'] + Pad(n, w - 1);
      LeadingZero(Pad(n, w - 1));
      r
  }

  lemma PadSmall(n: nat, w: nat)
    requires w >= 1 && n < 10
    ensures |Pad(n, w)| == w
  {
    if w > 1 { PadSmall(n, w - 1); }
  }

  lemma PadBelow(n: nat, w: nat)
    requires w >= 2 && n < 100
    ensures |Pad(n, w)| == w
    decreases w
  {
    if n < 10 { PadSmall(n, w); }
    else {
      assert |Decimal(n)| == 2 by { assert Decimal(n) == Decimal(n / 10) + [Digit(n % 10)]; }
      if w > 2 { PadBelow(n, w - 1); }
    }
  }

  lemma PadYear(n: nat)
    requires n <= 9999
    ensures |Pad(n, 4)| == 4
  {
    if n < 100 { PadBelow(n, 4); }
    else {
      assert |Decimal(n / 10)| <= 3 by {
        if n / 10 < 100 { assert |Decimal(n / 10)| <= 2 by { DecimalLen(n / 10); } }
        else { assert Decimal(n / 10) == Decimal(n / 100) + [Digit(n / 10 % 10)]; DecimalLen(n / 100); }
      }
      if |Decimal(n)| < 4 { PadSmallerWidth(n); }
    }
  }

  lemma DecimalLen(n: nat)
    requires n < 100
    ensures |Decimal(n)| <= 2
  {
  }

  lemma PadSmallerWidth(n: nat)
    requires |Decimal(n)| == 3
    ensures |Pad(n, 4)| == 4
  {
  }

  /**
   * chrono's `Display` for a date: `YYYY-MM-DD` for years 0 to 9999, and
   * otherwise the year with its sign and at least four digits.
   */
  function Format(d: Date): (r: string)
    ensures r != [] && (IsDigit(r[0]) || r[0] == '-' || r[0] == '+')
  {
    var year := if 0 <= d.year <= 9999 then Pad(d.year, 4)
                else (if d.year < 0 then "-" else "+") + Pad(if d.year < 0 then -d.year else d.year, 4);
    year + "-" + Pad(d.month, 2) + "-" + Pad(d.day, 2)
  }

  /** Every date with a four-digit year renders as ten characters and parses back to itself. */
  lemma FormatRoundTrip(d: Date, rest: string)
    requires 0 <= d.year <= 9999
    ensures |Format(d)| == 10
    ensures ParseDate(Format(d) + rest) == Done(d, rest)
  {
    PadYear(d.year);
    PadBelow(d.month, 2);
    PadBelow(d.day, 2);
    var y, m, dd := Pad(d.year, 4), Pad(d.month, 2), Pad(d.day, 2);
    assert Format(d) == y + "-" + m + "-" + dd;
    DateLayout(y, m, dd, rest);
  }

  /** Where the pieces of a `YYYY-MM-DD` rendering sit in it. */
  lemma DateLayout(y: string, m: string, dd: string, rest: string)
    requires |y| == 4 && |m| == 2 && |dd| == 2
    ensures var s := y + "-" + m + "-" + dd + rest;
      && |y + "-" + m + "-" + dd| == 10 && |s| >= 10
      && s[..4] == y && s[4] == '-' && s[5..7] == m && s[7] == '-' && s[8..10] == dd && s[10..] == rest
  {
    var s := y + "-" + m + "-" + dd + rest;
    assert s[..4] == y && s[5..7] == m && s[8..10] == dd && s[10..] == rest;
  }

  function DigitVal(c: char): int {
    c as int - '0' as int
  }

  /** The value of a numeral of up to four digits, place by place. */
  lemma DigitsValueShort(s: string)
    requires 1 <= |s| <= 4 && forall i :: 0 <= i < |s| ==> IsDigit(s[i])
    ensures |s| == 1 ==> DigitsValue(s) == Some(DigitVal(s[0]))
    ensures |s| == 3 ==> DigitsValue(s) == Some(DigitVal(s[0]) * 100 + DigitVal(s[1]) * 10 + DigitVal(s[2]))
    ensures |s| == 2 ==> DigitsValue(s) == Some(DigitVal(s[0]) * 10 + DigitVal(s[1]))
    ensures |s| == 4 ==> DigitsValue(s) == Some(DigitVal(s[0]) * 1000 + DigitVal(s[1]) * 100 + DigitVal(s[2]) * 10 + DigitVal(s[3]))
  {
    assert s[..0] == [];
    DigitsValueStep(s, 0);
    var d0, d1, d2 := DigitVal(s[0]), 0, 0;
    if |s| == 1 {
      assert s[..1] == s;
    } else {
      d1 := DigitVal(s[1]);
      DigitsValueStep(s, 1);
      assert DigitsValue(s[..2]) == Some(d0 * 10 + d1);
      if |s| == 2 {
        assert s[..2] == s;
      } else {
        d2 := DigitVal(s[2]);
        DigitsValueStep(s, 2);
        assert DigitsValue(s[..3]) == Some(d0 * 100 + d1 * 10 + d2);
        if |s| == 3 {
          assert s[..3] == s;
        } else {
          DigitsValueStep(s, 3);
          assert s[..4] == s;
        }
      }
    }
  }

  /** One more digit: the value so far times ten, plus that digit. */
  lemma DigitsValueStep(s: string, n: nat)
    requires n < |s| && forall i :: 0 <= i < |s| ==> IsDigit(s[i])
    ensures DigitsValue(s[..n + 1]) == Some(DigitsValue(s[..n]).value * 10 + DigitVal(s[n]))
  {
    assert s[..n + 1][..n] == s[..n];
  }

  /** How a ten-character date token made of digits is read. */
  lemma ReadDateToken(s: string)
    requires |s| == 10 && s[4] == '-' && s[7] == '-'
    requires forall i :: 0 <= i < 10 && i != 4 && i != 7 ==> IsDigit(s[i])
    ensures var y := DigitVal(s[0]) * 1000 + DigitVal(s[1]) * 100 + DigitVal(s[2]) * 10 + DigitVal(s[3]);
      var m := DigitVal(s[5]) * 10 + DigitVal(s[6]);
      var d := DigitVal(s[8]) * 10 + DigitVal(s[9]);
      ParseDate(s) == if ValidDate(Ymd(y, m, d)) then Done(Ymd(y, m, d), "") else NoMatch
  {
    DigitsValueShort(s[..4]);
    DigitsValueShort(s[5..7]);
    DigitsValueShort(s[8..10]);
  }

  /**
   * The value of a two-character month or day field, place by place: two
   * digits, or `+` and one digit. A `-` is refused, the field being unsigned.
   */
  function FieldValue(p: string): (r: Option<int>)
    requires |p| == 2
    ensures r.Some? ==> 0 <= r.value <= 99
  {
    if IsDigit(p[0]) && IsDigit(p[1]) then Some(DigitVal(p[0]) * 10 + DigitVal(p[1]))
    else if p[0] == '+' && IsDigit(p[1]) then Some(DigitVal(p[1]))
    else None
  }

  /**
   * The value of the four-character year field, place by place: four
   * digits, or a sign and three digits, the sign `-` negating the value.
   */
  function YearValue(p: string): (r: Option<int>)
    requires |p| == 4
    ensures r.Some? ==> -999 <= r.value <= 9999
  {
    if IsDigit(p[0]) && IsDigit(p[1]) && IsDigit(p[2]) && IsDigit(p[3]) then
      Some(DigitVal(p[0]) * 1000 + DigitVal(p[1]) * 100 + DigitVal(p[2]) * 10 + DigitVal(p[3]))
    else if (p[0] == '+' || p[0] == '-') && IsDigit(p[1]) && IsDigit(p[2]) && IsDigit(p[3]) then
      var v := DigitVal(p[1]) * 100 + DigitVal(p[2]) * 10 + DigitVal(p[3]);
      Some(if p[0] == '-' then -v else v)
    else None
  }

  /** An unsigned two-character field reads as `FieldValue` says. */
  lemma FieldValueIsParseInt(p: string)
    requires |p| == 2
    ensures ParseInt(p, false) == FieldValue(p)
  {
    if IsDigit(p[0]) && IsDigit(p[1]) {
      DigitsValueShort(p);
    } else if p[0] == '+' && IsDigit(p[1]) {
      DigitsValueShort(p[1..]);
    }
  }

  /** A signed four-character year reads as `YearValue` says. */
  lemma YearValueIsParseInt(p: string)
    requires |p| == 4
    ensures ParseInt(p, true) == YearValue(p)
  {
    if IsDigit(p[0]) && IsDigit(p[1]) && IsDigit(p[2]) && IsDigit(p[3]) {
      DigitsValueShort(p);
    } else if (p[0] == '+' || p[0] == '-') && IsDigit(p[1]) && IsDigit(p[2]) && IsDigit(p[3]) {
      DigitsValueShort(p[1..]);
    }
  }

  /**
   * A date is recognised exactly when the first ten characters are a year
   * field, `-`, a month field, `-` and a day field that name an existing
   * day; the rest after those ten characters is left.
   */
  lemma ParseDateFields(s: string)
    ensures ParseDate(s) ==
      if |s| < 10 || s[4] != '-' || s[7] != '-' then NoMatch
      else
        var y, m, d := YearValue(s[..4]), FieldValue(s[5..7]), FieldValue(s[8..10]);
        if y.Some? && m.Some? && d.Some? && ValidDate(Ymd(y.value, m.value, d.value))
        then Done(Ymd(y.value, m.value, d.value), s[10..])
        else NoMatch
  {
    if |s| >= 10 {
      YearValueIsParseInt(s[..4]);
      FieldValueIsParseInt(s[5..7]);
      FieldValueIsParseInt(s[8..10]);
    }
  }

  /** Only the first ten characters decide whether a date is recognised. */
  lemma ParseDateAppend(a: string, rest: string)
    requires |a| == 10
    ensures ParseDate(a + rest) == if ParseDate(a).Done? then Done(ParseDate(a).value, rest) else NoMatch
  {
    var s := a + rest;
    assert s[..4] == a[..4] && s[5..7] == a[5..7] && s[8..10] == a[8..10] && s[10..] == rest;
    assert s[4] == a[4] && s[7] == a[7];
  }

  /** `a` is the ten-character spelling of date `d`. */
  predicate DateToken(a: string, d: Date) {
    |a| == 10 && ParseDate(a) == Done(d, [])
  }

  /** A recognised date is the spelling of its first ten characters, and the rest is what follows them. */
  lemma TokenPrefix(t: string)
    requires ParseDate(t).Done?
    ensures DateToken(t[..10], ParseDate(t).value)
    ensures t == t[..10] + ParseDate(t).rest
  {
    assert t[..10] + t[10..] == t;
    ParseDateAppend(t[..10], t[10..]);
  }

  /** Every date with a four-digit year is spelled by its rendering. */
  lemma FormatIsToken(d: Date)
    requires 0 <= d.year <= 9999
    ensures DateToken(Format(d), d)
  {
    FormatRoundTrip(d, []);
    assert Format(d) + [] == Format(d);
  }

  /** Rust's integer parsing lets signs through: `+999-+1-+1` is read as 999-01-01. */
  lemma SignedPiecesAccepted()
    ensures ParseDate("+999-+1-+1") == Done(Ymd(999, 1, 1), "")
  {
    var s := "+999-+1-+1";
    assert s[..4] == "+999" && s[5..7] == "+1" && s[8..10] == "+1";
    assert "+999"[1..] == "999" && "+1"[1..] == "1";
    assert "999"[..2][..1] == "9" && "999"[..2] == "99";
    assert "9"[..0] == [] && "1"[..0] == [];
  }

  /** Days that do not exist are non-matches, leap days included only in leap years. */
  lemma NoThirtiethOfFebruary()
    ensures ParseDate("2023-02-30") == NoMatch
  {
    ReadDateToken("2023-02-30");
  }

  lemma NoLeapDayInCommonYear()
    ensures ParseDate("2023-02-29") == NoMatch
  {
    ReadDateToken("2023-02-29");
  }

  lemma NoLeapDayInCenturyYear()
    ensures ParseDate("1900-02-29") == NoMatch
  {
    ReadDateToken("1900-02-29");
  }

  lemma LeapDayInFourHundredthYear()
    ensures ParseDate("2000-02-29") == Done(Ymd(2000, 2, 29), "")
  {
    ReadDateToken("2000-02-29");
  }

  lemma LeapDayInLeapYear()
    ensures ParseDate("2024-02-29") == Done(Ymd(2024, 2, 29), "")
  {
    ReadDateToken("2024-02-29");
  }
}
