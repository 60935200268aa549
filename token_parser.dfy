/**
 * The trailing date token of a task entry (app.js:64-100): "buy milk tomorrow",
 * "call mom @fri". The regular expression `(?:^|\s)@?([a-zA-Z]{2,})\s*$` is
 * replaced by a backwards scan; `MatchesAt` states what the expression accepts
 * and `MatchTokenIff` proves the scan finds exactly that.
 */
module TokenParser {
  import opened Optional
  import opened CivilDate

  /** JavaScript's `\s`, which is also the set of characters `trim()` removes. */
  predicate IsSpace(c: char) {
    var n := c as int;
    (0x09 <= n <= 0x0D) || n == 0x20 || n == 0xA0 || n == 0x1680 || (0x2000 <= n <= 0x200A)
    || n == 0x2028 || n == 0x2029 || n == 0x202F || n == 0x205F || n == 0x3000 || n == 0xFEFF
  }

  /** `[a-zA-Z]`. */
  predicate IsAsciiLetter(c: char) {
    ('a' <= c <= 'z') || ('A' <= c <= 'Z')
  }

  function ToLowerAscii(c: char): char {
    if 'A' <= c <= 'Z' then (c as int - 'A' as int + 'a' as int) as char else c
  }

  /** `toLowerCase()` on ASCII text. */
  function Lower(s: string): string {
    seq(|s|, i requires 0 <= i < |s| => ToLowerAscii(s[i]))
  }

  predicate AllSpace(s: string) {
    forall i :: 0 <= i < |s| ==> IsSpace(s[i])
  }

  datatype CharClass = Space | Letter

  predicate InClass(c: char, k: CharClass) {
    match k
    case Space => IsSpace(c)
    case Letter => IsAsciiLetter(c)
  }

  /** Scanning backwards from `e`: the start of the longest run of class-`k` characters that ends at `e`. */
  function RunStart(s: string, e: nat, k: CharClass): (b: nat)
    requires e <= |s|
    ensures b <= e
    ensures forall i :: b <= i < e ==> InClass(s[i], k)
    ensures b == 0 || !InClass(s[b - 1], k)
    decreases e
  {
    if e == 0 || !InClass(s[e - 1], k) then e else RunStart(s, e - 1, k)
  }

  /** Scanning forwards from `i`: the first position before `e` that is not a space, or `e`. */
  function SkipSpaces(s: string, i: nat, e: nat): (j: nat)
    requires i <= e <= |s|
    ensures i <= j <= e
    ensures forall k :: i <= k < j ==> IsSpace(s[k])
    ensures j == e || !IsSpace(s[j])
    decreases e - i
  {
    if i == e || !IsSpace(s[i]) then i else SkipSpaces(s, i + 1, e)
  }

  /** `s.trim()`: the text without the spaces at either end. */
  function Trim(s: string): (r: string)
    ensures |r| == 0 <==> AllSpace(s)
    ensures |r| > 0 ==> !IsSpace(r[0]) && !IsSpace(r[|r| - 1])
    ensures exists b :: 0 <= b <= |s| - |r| && AllSpace(s[..b]) && s[b..b + |r|] == r && AllSpace(s[b + |r|..])
  {
    var e := RunStart(s, |s|, Space);
    var b := SkipSpaces(s, 0, e);
    assert AllSpace(s[..b]) && AllSpace(s[e..]);
    assert |s[b..e]| == 0 ==> forall i :: 0 <= i < |s| ==> (i < b || e <= i) && IsSpace(s[i]);
    s[b..e]
  }

  /** Trimming twice is trimming once. */
  lemma TrimIdempotent(s: string)
    ensures Trim(Trim(s)) == Trim(s)
  {
    var r := Trim(s);
    if |r| > 0 {
      TrimUnchanged(r);
    }
  }

  /** Text that neither starts nor ends with a space is its own trim. */
  lemma TrimUnchanged(s: string)
    requires |s| > 0 && !IsSpace(s[0]) && !IsSpace(s[|s| - 1])
    ensures Trim(s) == s
  {
    assert RunStart(s, |s|, Space) == |s|;
    assert SkipSpaces(s, 0, |s|) == 0;
    assert s[0..|s|] == s;
  }

  // ---- The regular expression ----

  /**
   * `(?:^|\s)@?([a-zA-Z]{2,})\s*$` matches from position `p` to the end of `s`
   * with its group at `s[b..e]`. Such a match is unique when it exists
   * (`MatchTokenIff`), so it is also the leftmost one `match` and `replace` use.
   */
  predicate MatchesAt(s: string, p: nat, b: nat, e: nat) {
    && p <= b && b + 2 <= e <= |s|
    && (forall i :: b <= i < e ==> IsAsciiLetter(s[i]))
    && (forall i :: e <= i < |s| ==> IsSpace(s[i]))
    && ((p == 0 && b == 0)
        || (p == 0 && b == 1 && s[0] == '@')
        || (IsSpace(s[p]) && b == p + 1)
        || (IsSpace(s[p]) && b == p + 2 && s[p + 1] == '@'))
  }

  /** Where the match starts (`start`, the text `replace` removes from there on) and where its word lies. */
  datatype TokenMatch = TokenMatch(start: nat, wordStart: nat, wordEnd: nat)

  /**
   * The backwards scan: skip the trailing spaces, take the maximal run of
   * letters before them, and look at what precedes the run.
   */
  function MatchToken(s: string): Option<TokenMatch> {
    var e := RunStart(s, |s|, Space);
    var b := RunStart(s, e, Letter);
    if e - b < 2 then None
    else if b == 0 then Some(TokenMatch(0, 0, e))
    else if IsSpace(s[b - 1]) then Some(TokenMatch(b - 1, b, e))
    else if s[b - 1] != '@' then None
    else if b == 1 then Some(TokenMatch(0, 1, e))
    else if IsSpace(s[b - 2]) then Some(TokenMatch(b - 2, b, e))
    else None
  }

  /** A match can only end where the trailing spaces begin and start its word where the letters begin. */
  lemma MatchPinned(s: string, p: nat, b: nat, e: nat)
    requires MatchesAt(s, p, b, e)
    ensures e == RunStart(s, |s|, Space)
    ensures b == RunStart(s, e, Letter)
  {
    assert IsAsciiLetter(s[e - 1]);
  }

  /** The scan returns exactly the match of the regular expression, and nothing when there is none. */
  lemma MatchTokenIff(s: string, p: nat, b: nat, e: nat)
    ensures MatchToken(s) == Some(TokenMatch(p, b, e)) <==> MatchesAt(s, p, b, e)
  {
    var e' := RunStart(s, |s|, Space);
    var b' := RunStart(s, e', Letter);
    if MatchesAt(s, p, b, e) {
      MatchPinned(s, p, b, e);
    }
    if MatchToken(s) == Some(TokenMatch(p, b, e)) {
      assert e == e' && b == b';
    }
  }

  /** No token: no position of the text satisfies the regular expression. */
  lemma MatchTokenNone(s: string)
    ensures MatchToken(s).None? <==> forall p: nat, b: nat, e: nat :: !MatchesAt(s, p, b, e)
  {
    if MatchToken(s).Some? {
      var m := MatchToken(s).value;
      MatchTokenIff(s, m.start, m.wordStart, m.wordEnd);
    } else {
      forall p: nat, b: nat, e: nat ensures !MatchesAt(s, p, b, e) {
        MatchTokenIff(s, p, b, e);
      }
    }
  }

  // ---- The token table ----

  type WeekdayNumber = wd: int | 0 <= wd < 7

  /** An entry of `tokenMap`: a day offset from the base date, or a weekday (0 = Sunday). */
  datatype Token = Relative(days: int) | Weekday(wd: WeekdayNumber)

  /** `tokenMap` (app.js:64-77), keyed by the lower-cased word. */
  const TokenTable: map<string, Token> := map[
    "today" := Relative(0), "tomorrow" := Relative(1), "tmrw" := Relative(1),
    "sun" := Weekday(0), "sunday" := Weekday(0),
    "mon" := Weekday(1), "monday" := Weekday(1),
    "tue" := Weekday(2), "tuesday" := Weekday(2),
    "wed" := Weekday(3), "wednesday" := Weekday(3),
    "thu" := Weekday(4), "thursday" := Weekday(4),
    "fri" := Weekday(5), "friday" := Weekday(5),
    "sat" := Weekday(6), "saturday" := Weekday(6)
  ]

  /** The date a token stands for, relative to the base date (app.js:89-96). */
  function Resolve(t: Token, base: Date): (r: Date)
    requires IsValid(base)
    ensures IsValid(r)
  {
    match t
    case Relative(n) => AddDays(base, n)
    case Weekday(wd) => WeekdayInWeekOf(base, wd)
  }

  /**
   * A relative token moves the base date by its offset; a weekday token lands
   * on that weekday of the base date's Monday-based week, before or after the base.
   */
  lemma ResolveSpec(t: Token, base: Date)
    requires IsValid(base)
    ensures t.Relative? ==> ToDays(Resolve(t, base)) == ToDays(base) + t.days
    ensures t.Weekday? ==> DayOfWeek(Resolve(t, base)) == t.wd
                           && StartOfWeek(Resolve(t, base)) == StartOfWeek(base)
                           && ToDays(base) - 6 <= ToDays(Resolve(t, base)) <= ToDays(base) + 6
  {
    match t
    case Relative(n) => AddDaysNumber(base, n);
    case Weekday(wd) =>
      WeekdayInWeekOfSpec(base, wd);
      StartOfWeekIsMonday(base);
  }

  // ---- parseTokenDate ----

  /** What `parseTokenDate` returns: the cleaned text and the token's date, if any. */
  datatype Parsed = Parsed(text: string, date: Option<Date>)

  /**
   * `parseTokenDate(rawText, baseDate)` (app.js:80-100). The source reads the
   * weekday's week from the closure variable `selectedDate` (app.js:93); its
   * only caller passes `selectedDate` as `baseDate` (app.js:298), so `base` is used here.
   */
  function ParseTokenDate(raw: string, base: Date): (r: Parsed)
    requires IsValid(base)
    ensures r.date.Some? ==> IsValid(r.date.value)
  {
    match MatchToken(raw)
    case None => Parsed(Trim(raw), None)
    case Some(m) =>
      var word := Lower(raw[m.wordStart..m.wordEnd]);
      if word in TokenTable then Parsed(Trim(raw[..m.start]), Some(Resolve(TokenTable[word], base)))
      else Parsed(Trim(raw), None)
  }

  /** No date exactly when no match's word is in the table; then the text is only trimmed. */
  lemma ParseTokenDateNoDate(raw: string, base: Date)
    requires IsValid(base)
    ensures ParseTokenDate(raw, base).date.None?
            <==> forall p: nat, b: nat, e: nat :: MatchesAt(raw, p, b, e) ==> Lower(raw[b..e]) !in TokenTable
    ensures ParseTokenDate(raw, base).date.None? ==> ParseTokenDate(raw, base).text == Trim(raw)
  {
    MatchTokenNone(raw);
    match MatchToken(raw)
    case None =>
    case Some(m) =>
      MatchTokenIff(raw, m.start, m.wordStart, m.wordEnd);
      forall p: nat, b: nat, e: nat | MatchesAt(raw, p, b, e) ensures p == m.start && b == m.wordStart && e == m.wordEnd {
        MatchTokenIff(raw, p, b, e);
      }
  }

  /** A known token is cut off together with what the match consumed before it, and resolved against the base. */
  lemma ParseTokenDateMatched(raw: string, base: Date, p: nat, b: nat, e: nat)
    requires IsValid(base) && MatchesAt(raw, p, b, e) && Lower(raw[b..e]) in TokenTable
    ensures ParseTokenDate(raw, base) == Parsed(Trim(raw[..p]), Some(Resolve(TokenTable[Lower(raw[b..e])], base)))
  {
    MatchTokenIff(raw, p, b, e);
  }

  /** Text made of a known token alone leaves no task text. */
  lemma TokenOnly(w: string, base: Date)
    requires IsValid(base) && |w| >= 2 && (forall i :: 0 <= i < |w| ==> IsAsciiLetter(w[i]))
    requires Lower(w) in TokenTable
    ensures ParseTokenDate(w, base).text == [] && ParseTokenDate(w, base).date.Some?
  {
    assert w[0..|w|] == w;
    ParseTokenDateMatched(w, base, 0, 0, |w|);
  }

  /** The same with a leading `@`. */
  lemma AtTokenOnly(w: string, base: Date)
    requires IsValid(base) && |w| >= 2 && (forall i :: 0 <= i < |w| ==> IsAsciiLetter(w[i]))
    requires Lower(w) in TokenTable
    ensures ParseTokenDate("@" + w, base).text == [] && ParseTokenDate("@" + w, base).date.Some?
  {
    var aw := "@" + w;
    assert aw[1..|aw|] == w;
    ParseTokenDateMatched(aw, base, 0, 1, |aw|);
  }

  /**
   * Trimmed text that leaves no task text is a known word, optionally after
   * one `@`: the converse of `TokenOnly` and `AtTokenOnly`.
   */
  lemma OnlyTokenLeft(raw: string, base: Date)
    requires IsValid(base) && |raw| > 0 && !IsSpace(raw[0]) && !IsSpace(raw[|raw| - 1])
    requires ParseTokenDate(raw, base).text == []
    ensures exists b :: 0 <= b <= 1 && b + 2 <= |raw| && (b == 1 ==> raw[0] == '@')
                        && (forall i :: b <= i < |raw| ==> IsAsciiLetter(raw[i]))
                        && Lower(raw[b..]) in TokenTable
  {
    EmptyTextNeedsToken(raw, base);
    var m := MatchToken(raw).value;
    MatchSpansText(raw, m.start, m.wordStart, m.wordEnd);
    assert raw[m.wordStart..] == raw[m.wordStart..m.wordEnd];
  }

  /** Empty task text from non-blank trimmed text needs a known word whose match has only spaces before it. */
  lemma EmptyTextNeedsToken(raw: string, base: Date)
    requires IsValid(base) && |raw| > 0 && !IsSpace(raw[0]) && !IsSpace(raw[|raw| - 1])
    requires ParseTokenDate(raw, base).text == []
    ensures MatchToken(raw).Some?
    ensures var m := MatchToken(raw).value;
            MatchesAt(raw, m.start, m.wordStart, m.wordEnd)
            && Lower(raw[m.wordStart..m.wordEnd]) in TokenTable && AllSpace(raw[..m.start])
  {
    TrimUnchanged(raw);
    var m := MatchToken(raw).value;
    MatchTokenIff(raw, m.start, m.wordStart, m.wordEnd);
  }

  /** In text that starts and ends with a non-space, a match with only spaces before it covers the whole text. */
  lemma MatchSpansText(raw: string, p: nat, b: nat, e: nat)
    requires |raw| > 0 && !IsSpace(raw[0]) && !IsSpace(raw[|raw| - 1])
    requires MatchesAt(raw, p, b, e) && AllSpace(raw[..p])
    ensures p == 0 && e == |raw| && (b == 0 || (b == 1 && raw[0] == '@'))
  {
  }

  /** `"<text> <token>"`: the text before the token is kept (trimmed) and the date resolved. */
  lemma TrailingToken(text: string, w: string, base: Date)
    requires IsValid(base) && |w| >= 2 && (forall i :: 0 <= i < |w| ==> IsAsciiLetter(w[i]))
    requires Lower(w) in TokenTable
    ensures ParseTokenDate(text + " " + w, base) == Parsed(Trim(text), Some(Resolve(TokenTable[Lower(w)], base)))
  {
    var s := text + " " + w;
    assert s[|text| + 1..|s|] == w;
    assert s[..|text|] == text;
    ParseTokenDateMatched(s, base, |text|, |text| + 1, |s|);
  }

  /** `"<text> @<token>"`: the same with the optional `@`. */
  lemma TrailingAtToken(text: string, w: string, base: Date)
    requires IsValid(base) && |w| >= 2 && (forall i :: 0 <= i < |w| ==> IsAsciiLetter(w[i]))
    requires Lower(w) in TokenTable
    ensures ParseTokenDate(text + " @" + w, base) == Parsed(Trim(text), Some(Resolve(TokenTable[Lower(w)], base)))
  {
    var t := text + " @" + w;
    assert t[|text| + 2..|t|] == w;
    assert t[..|text|] == text;
    ParseTokenDateMatched(t, base, |text|, |text| + 2, |t|);
  }
}
