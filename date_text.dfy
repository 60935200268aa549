/**
 * The widget's textual dates: `ymd` (`YYYY-MM-DD`, app.js:30-35), `ym`
 * (`YYYY-MM`, app.js:36) and the two readers that turn them back into dates,
 * `parseYMD` (app.js:37-42) and the month reader of `loadState`
 * (app.js:121-122). Both readers split on `-`, convert each field with
 * `Number` and hand the numbers to `new Date(y, m - 1, d)`.
 */
module DateText {
  import opened CivilDate

  predicate IsDigit(c: char) {
    '0' <= c <= '9'
  }

  predicate AllDigits(s: string) {
    forall i :: 0 <= i < |s| ==> IsDigit(s[i])
  }

  function DigitChar(n: int): (c: char)
    requires 0 <= n < 10
    ensures IsDigit(c) && c as int - '0' as int == n
  {
    ('0' as int + n) as char
  }

  /** `String(n)` for a non-negative integer: decimal, no padding. */
  function NatToString(n: nat): (s: string)
    ensures |s| >= 1 && AllDigits(s)
  {
    if n < 10 then [DigitChar(n)] else NatToString(n / 10) + [DigitChar(n % 10)]
  }

  /** `Number(s)` for a string of decimal digits; `Number("")` is 0. */
  function DigitsValue(s: string): nat
    requires AllDigits(s)
  {
    if s == [] then 0 else DigitsValue(s[..|s| - 1]) * 10 + (s[|s| - 1] as int - '0' as int)
  }

  /** `padStart(2, '0')`. */
  function PadTwo(s: string): (r: string)
    ensures |r| >= 2
    ensures |s| >= 2 ==> r == s
    ensures |s| < 2 ==> r == seq(2 - |s|, _ => '0') + s
  {
    if |s| == 0 then "00" else if |s| == 1 then "0" + s else s
  }

  /** `${y}`: a minus sign for a negative year, no padding otherwise. */
  function YearToString(y: int): string {
    if y < 0 then "-" + NatToString(-y) else NatToString(y)
  }

  /** `ymd(d)` (app.js:30-35): month and day padded to two digits, the year not padded. */
  function Ymd(d: Date): string
    requires IsValid(d)
  {
    YearToString(d.year) + "-" + PadTwo(NatToString(d.month)) + "-" + PadTwo(NatToString(d.day))
  }

  /** `ym(d)` (app.js:36). */
  function Ym(d: Date): string
    requires IsValid(d)
  {
    YearToString(d.year) + "-" + PadTwo(NatToString(d.month))
  }

  /** `s.split('-')`: the pieces between the dashes, empty ones included. */
  function Split(s: string): (parts: seq<string>)
    ensures |parts| >= 1
  {
    if s == [] then [[]]
    else
      var rest := Split(s[1..]);
      if s[0] == '-' then [[]] + rest else [[s[0]] + rest[0]] + rest[1..]
  }

  /** Text `parseYMD` reads as three numbers: at least three dash-separated fields, the first three digits only. */
  predicate IsDateKey(s: string) {
    var parts := Split(s);
    |parts| >= 3 && AllDigits(parts[0]) && AllDigits(parts[1]) && AllDigits(parts[2])
  }

  /** Text the month reader of `loadState` reads as two numbers. */
  predicate IsMonthKey(s: string) {
    var parts := Split(s);
    |parts| >= 2 && AllDigits(parts[0]) && AllDigits(parts[1])
  }

  /** `parseYMD(s)` (app.js:37-42): `new Date(y, m - 1, d)` at midnight. */
  function ParseYmd(s: string): (d: Date)
    requires IsDateKey(s)
    ensures IsValid(d)
  {
    var parts := Split(s);
    MakeDate(DigitsValue(parts[0]), DigitsValue(parts[1]) - 1, DigitsValue(parts[2]))
  }

  /** The stored month (app.js:122): `new Date(Number(y), Number(m) - 1, 1)`. */
  function ParseYm(s: string): (d: Date)
    requires IsMonthKey(s)
    ensures IsValid(d) && d.day == 1
  {
    var parts := Split(s);
    MakeDateFirst(DigitsValue(parts[0]), DigitsValue(parts[1]) - 1);
    MakeDate(DigitsValue(parts[0]), DigitsValue(parts[1]) - 1, 1)
  }

  // ---- Lemmas ----

  lemma DigitsValueSnoc(s: string, c: char)
    requires AllDigits(s) && IsDigit(c)
    ensures AllDigits(s + [c])
    ensures DigitsValue(s + [c]) == DigitsValue(s) * 10 + (c as int - '0' as int)
  {
    assert (s + [c])[..|s|] == s;
  }

  /** `Number(String(n)) == n`. */
  lemma {:induction false} NatToStringValue(n: nat)
    ensures DigitsValue(NatToString(n)) == n
  {
    if n >= 10 {
      NatToStringValue(n / 10);
      DigitsValueSnoc(NatToString(n / 10), DigitChar(n % 10));
    }
  }

  /** Distinct numbers print differently. */
  lemma NatToStringInjective(a: nat, b: nat)
    ensures NatToString(a) == NatToString(b) <==> a == b
  {
    NatToStringValue(a);
    NatToStringValue(b);
  }

  /** A leading zero does not change the number. */
  lemma {:induction false} LeadingZeroValue(s: string)
    requires AllDigits(s)
    ensures AllDigits("0" + s) && DigitsValue("0" + s) == DigitsValue(s)
    decreases |s|
  {
    if s != [] {
      var init, last := s[..|s| - 1], s[|s| - 1];
      assert s == init + [last];
      LeadingZeroValue(init);
      assert "0" + s == ("0" + init) + [last];
      DigitsValueSnoc("0" + init, last);
    }
  }

  /** Padding to two digits keeps the number. */
  lemma PadTwoValue(s: string)
    requires AllDigits(s)
    ensures AllDigits(PadTwo(s)) && DigitsValue(PadTwo(s)) == DigitsValue(s)
  {
    if |s| == 0 {
      assert DigitsValue("00") == DigitsValue("0" + "0");
      LeadingZeroValue("0");
      LeadingZeroValue("");
    } else if |s| == 1 {
      LeadingZeroValue(s);
    }
  }

  /** Splitting at the first dash. */
  lemma {:induction false} SplitAtDash(a: string, b: string)
    requires '-' !in a
    ensures Split(a + "-" + b) == [a] + Split(b)
    decreases |a|
  {
    if a == [] {
      assert a + "-" + b == "-" + b;
      assert ("-" + b)[1..] == b;
    } else {
      SplitAtDash(a[1..], b);
      assert (a + "-" + b)[1..] == a[1..] + "-" + b;
      assert [a[0]] + a[1..] == a;
    }
  }

  /** A string without a dash is a single field. */
  lemma {:induction false} SplitNoDash(a: string)
    requires '-' !in a
    ensures Split(a) == [a]
    decreases |a|
  {
    if a != [] {
      SplitNoDash(a[1..]);
      assert [a[0]] + a[1..] == a;
    }
  }

  lemma DigitsHaveNoDash(s: string)
    requires AllDigits(s)
    ensures '-' !in s
  {
  }

  /** The three fields of `ymd(d)` for a year that is not negative. */
  lemma YmdFields(d: Date)
    requires IsValid(d) && d.year >= 0
    ensures Split(Ymd(d)) == [NatToString(d.year), PadTwo(NatToString(d.month)), PadTwo(NatToString(d.day))]
  {
    var y, m, dd := NatToString(d.year), PadTwo(NatToString(d.month)), PadTwo(NatToString(d.day));
    DigitsHaveNoDash(y);
    PadTwoValue(NatToString(d.month));
    PadTwoValue(NatToString(d.day));
    DigitsHaveNoDash(m);
    DigitsHaveNoDash(dd);
    SplitThree(y, m, dd);
  }

  /** Three dash-free fields joined with dashes split back into those fields. */
  lemma SplitThree(a: string, b: string, c: string)
    requires '-' !in a && '-' !in b && '-' !in c
    ensures Split(a + "-" + b + "-" + c) == [a, b, c]
  {
    assert a + "-" + b + "-" + c == a + "-" + (b + "-" + c);
    SplitAtDash(a, b + "-" + c);
    SplitAtDash(b, c);
    SplitNoDash(c);
  }

  /** The two fields of `ym(d)` for a year that is not negative. */
  lemma YmFields(d: Date)
    requires IsValid(d) && d.year >= 0
    ensures Split(Ym(d)) == [NatToString(d.year), PadTwo(NatToString(d.month))]
  {
    var y, m := NatToString(d.year), PadTwo(NatToString(d.month));
    DigitsHaveNoDash(y);
    PadTwoValue(NatToString(d.month));
    DigitsHaveNoDash(m);
    SplitAtDash(y, m);
    SplitNoDash(m);
  }

  /**
   * For a year that is not negative, `parseYMD(ymd(d))` is `new Date(y, m - 1, d)`
   * with the numbers `ymd` wrote; the two-digit-year remap still applies.
   */
  lemma YmdReadBack(d: Date)
    requires IsValid(d) && d.year >= 0
    ensures IsDateKey(Ymd(d))
    ensures ParseYmd(Ymd(d)) == MakeDate(d.year, d.month - 1, d.day)
  {
    YmdFields(d);
    NatToStringValue(d.year);
    NatToStringValue(d.month);
    NatToStringValue(d.day);
    PadTwoValue(NatToString(d.month));
    PadTwoValue(NatToString(d.day));
  }

  /** Round trip: from year 100 on, `parseYMD(ymd(d))` is `d` itself. */
  lemma YmdRoundTrip(d: Date)
    requires IsValid(d) && d.year >= 100
    ensures IsDateKey(Ymd(d)) && ParseYmd(Ymd(d)) == d
  {
    YmdReadBack(d);
    MakeDateOfFields(d.year, d.month, d.day);
  }

  /** Round trip of the stored month: `ym(d)` reads back as the first of `d`'s month. */
  lemma YmRoundTrip(d: Date)
    requires IsValid(d) && d.year >= 100
    ensures IsMonthKey(Ym(d)) && ParseYm(Ym(d)) == Date(d.year, d.month, 1)
  {
    YmFields(d);
    NatToStringValue(d.year);
    NatToStringValue(d.month);
    PadTwoValue(NatToString(d.month));
    MakeDateFirst(d.year, d.month - 1);
  }

  /** A year below 100 comes back 1900 years later. */
  lemma TwoDigitYearRemapped(d: Date)
    requires IsValid(d) && 0 <= d.year < 100 && d.day <= DaysInMonth(1900 + d.year, d.month)
    ensures IsDateKey(Ymd(d)) && ParseYmd(Ymd(d)) == Date(1900 + d.year, d.month, d.day)
  {
    var y, m, day := d.year, d.month, d.day;
    TwoDigitMakeDate(y, m, day);
    assert d == Date(y, m, day);
    YmdReadBack(d);
  }

  lemma TwoDigitMakeDate(y: int, m: int, day: int)
    requires 0 <= y < 100 && 1 <= m <= 12 && 1 <= day <= DaysInMonth(1900 + y, m)
    ensures MakeDate(y, m - 1, day) == Date(1900 + y, m, day)
  {
    assert FullYear(y) == 1900 + y;
    MakeDateOfFields(y, m, day);
  }

  /**
   * A leap day whose remapped year is not a leap year rolls over to 1 March:
   * 29 February of year 0 comes back as 1 March 1900.
   */
  lemma TwoDigitLeapDayRollsOver(d: Date)
    requires IsValid(d) && 0 <= d.year < 100 && d.month == 2 && d.day == 29 && !IsLeapYear(1900 + d.year)
    ensures IsDateKey(Ymd(d)) && ParseYmd(Ymd(d)) == Date(1900 + d.year, 3, 1)
  {
    var y := d.year;
    assert FullYear(y) == 1900 + y;
    FebruaryTwentyNinthOverflows(y);
    assert d == Date(y, 2, 29);
    YmdReadBack(d);
  }

  lemma FebruaryTwentyNinthOverflows(y: int)
    requires !IsLeapYear(FullYear(y))
    ensures MakeDate(y, 1, 29) == Date(FullYear(y), 3, 1)
  {
    MakeDatePastEnd(y, 1);
    assert 1 / 12 == 0 && 1 % 12 + 1 == 2;
  }

  /** A number below 100 prints in at most two digits. */
  lemma SmallNatLength(n: nat)
    requires n < 100
    ensures |NatToString(n)| <= 2
  {
    if n >= 10 {
      assert NatToString(n) == NatToString(n / 10) + [DigitChar(n % 10)];
    }
  }

  /** A month or a day number pads to exactly two digits that read back as the number. */
  lemma TwoDigitField(n: nat)
    requires n < 100
    ensures |PadTwo(NatToString(n))| == 2
    ensures AllDigits(PadTwo(NatToString(n))) && DigitsValue(PadTwo(NatToString(n))) == n
  {
    SmallNatLength(n);
    PadTwoValue(NatToString(n));
    NatToStringValue(n);
  }

  /** A year string starts with a minus sign exactly when the year is negative. */
  lemma YearSign(y: int)
    ensures |YearToString(y)| > 0 && (YearToString(y)[0] == '-' <==> y < 0)
  {
    if y >= 0 {
      assert IsDigit(NatToString(y)[0]);
    }
  }

  /** Distinct years print differently, negative ones included. */
  lemma YearToStringInjective(a: int, b: int)
    ensures YearToString(a) == YearToString(b) <==> a == b
  {
    YearSign(a);
    YearSign(b);
    if YearToString(a) == YearToString(b) {
      var sa, sb := YearToString(a), YearToString(b);
      if a < 0 && b < 0 {
        assert sa[1..] == NatToString(-a) && sb[1..] == NatToString(-b);
        NatToStringInjective(-a, -b);
      } else if a >= 0 && b >= 0 {
        NatToStringInjective(a, b);
      }
    }
  }

  /** `ymd(d)` ends in `-MM-DD`; what precedes that tail is the year. */
  lemma YmdTail(d: Date)
    requires IsValid(d)
    ensures var s := Ymd(d);
            |s| >= 6
            && s[..|s| - 6] == YearToString(d.year)
            && s[|s| - 5..|s| - 3] == PadTwo(NatToString(d.month))
            && s[|s| - 2..] == PadTwo(NatToString(d.day))
  {
    TwoDigitField(d.month);
    TwoDigitField(d.day);
  }

  /** `ymd` tells dates apart in every year: comparing keys compares dates. */
  lemma YmdInjective(a: Date, b: Date)
    requires IsValid(a) && IsValid(b)
    ensures Ymd(a) == Ymd(b) <==> a == b
  {
    if Ymd(a) == Ymd(b) {
      YmdTail(a);
      YmdTail(b);
      YearToStringInjective(a.year, b.year);
      TwoDigitField(a.month);
      TwoDigitField(b.month);
      TwoDigitField(a.day);
      TwoDigitField(b.day);
    }
  }
}
