/**
 * The two regular expressions the receipt heuristics search with: an amount
 * `\d+[.,]\d{2}` and a date `day[-/]month[-/]year\s+hour[:.]minute([:.]second)?`,
 * each as the leftmost match that `re.search` finds, and the fields a date
 * match is read as.
 */
module Matching {
  import opened Optional
  import opened Text

  /** The first index in `[from, n)` at which `hit` holds, or `n` when there is none. */
  function FirstIndex(from: nat, n: nat, hit: nat -> bool): (k: nat)
    requires from <= n
    ensures from <= k <= n
    ensures forall j :: from <= j < k ==> !hit(j)
    ensures k < n ==> hit(k)
    decreases n - from
  {
    if from == n || hit(from) then from else FirstIndex(from + 1, n, hit)
  }

  /** A digit run that starts at `i` and stops before a non-digit at `j` ends at `j`. */
  lemma {:induction false} DigitRunEndAt(s: string, i: nat, j: nat)
    requires i <= j <= |s|
    requires forall k :: i <= k < j ==> IsDigit(s[k])
    requires j < |s| ==> !IsDigit(s[j])
    ensures DigitRunEnd(s, i) == j
    decreases j - i
  {
    if i < j {
      DigitRunEndAt(s, i + 1, j);
    }
  }

  /** The digits of `n` written at index `i` of `s`, followed by a non-digit, read back as `n`. */
  lemma DigitsReadBack(s: string, i: nat, n: nat)
    requires i + |NatToDigits(n)| <= |s|
    requires s[i..i + |NatToDigits(n)|] == NatToDigits(n)
    requires i + |NatToDigits(n)| < |s| ==> !IsDigit(s[i + |NatToDigits(n)|])
    ensures DigitRunEnd(s, i) == i + |NatToDigits(n)|
    ensures DigitsValue(s[i..DigitRunEnd(s, i)]) == n
  {
    var w := NatToDigits(n);
    forall k | i <= k < i + |w| ensures IsDigit(s[k]) {
      assert s[k] == w[k - i];
    }
    DigitRunEndAt(s, i, i + |w|);
    DigitsRoundTrip(n);
  }

  // ---------------------------------------------------------------- amounts

  predicate IsDecimalSeparator(c: char) {
    c == '.' || c == ','
  }

  /** `\d+[.,]\d{2}` matches at index `i` of `s`. */
  predicate AmountAt(s: string, i: nat) {
    && i < |s|
    && IsDigit(s[i])
    && var j := DigitRunEnd(s, i);
    && j + 2 < |s|
    && IsDecimalSeparator(s[j])
    && IsDigit(s[j + 1])
    && IsDigit(s[j + 2])
  }

  /**
   * The value of the amount matched at `i`, in hundredths: `float()` of the
   * match with its comma turned into a point.
   */
  function AmountValue(s: string, i: nat): (v: nat)
    requires AmountAt(s, i)
    ensures v / 100 == DigitsValue(s[i..DigitRunEnd(s, i)])
    ensures v % 100 == DigitsValue(s[DigitRunEnd(s, i) + 1..DigitRunEnd(s, i) + 3])
  {
    var j := DigitRunEnd(s, i);
    TwoDigitsBelow(s[j + 1..j + 3]);
    DigitsValue(s[i..j]) * 100 + DigitsValue(s[j + 1..j + 3])
  }

  /** Two digits read as a number below 100. */
  lemma TwoDigitsBelow(t: string)
    requires |t| == 2 && IsDigit(t[0]) && IsDigit(t[1])
    ensures DigitsValue(t) < 100
  {
    assert t[..1][..0] == [];
    assert DigitsValue(t[..1]) == DigitValue(t[0]) <= 9;
    assert DigitValue(t[1]) <= 9;
  }

  /** `re.search(r'(\d+[\.,]\d{2,2})', s)`, read as an amount in hundredths. */
  function FindAmount(s: string): (r: Option<nat>)
    ensures r.None? <==> forall i :: 0 <= i < |s| ==> !AmountAt(s, i)
    ensures r.Some? ==>
      exists i :: 0 <= i < |s| && AmountAt(s, i) && r.value == AmountValue(s, i)
        && forall j :: 0 <= j < i ==> !AmountAt(s, j)
  {
    var hit := (i: nat) => AmountAt(s, i);
    var k := FirstIndex(0, |s|, hit);
    assert forall i: nat :: hit(i) == AmountAt(s, i);
    if k < |s| then Some(AmountValue(s, k)) else None
  }

  /** An amount in hundredths written with two decimals and the separator `sep`. */
  function FormatAmount(v: nat, sep: char): (r: string)
    requires IsDecimalSeparator(sep)
  {
    NatToDigits(v / 100) + [sep, DigitChar(v % 100 / 10), DigitChar(v % 10)]
  }

  lemma TwoDigitsValue(n: nat, two: string)
    requires n < 100 && two == [DigitChar(n / 10), DigitChar(n % 10)]
    ensures AllDigits(two) && DigitsValue(two) == n
  {
    assert two[..1] == [DigitChar(n / 10)];
    assert [DigitChar(n / 10)][..0] == [];
    assert DigitsValue(two[..1]) == n / 10;
    assert two[1] as int - '0' as int == n % 10;
  }

  predicate NoDigits(s: string) {
    forall i :: 0 <= i < |s| ==> !IsDigit(s[i])
  }

  /** The leftmost match decides what `FindAmount` reads. */
  lemma FindAmountLeftmost(s: string, i: nat)
    requires AmountAt(s, i)
    requires forall k :: 0 <= k < i ==> !AmountAt(s, k)
    ensures FindAmount(s) == Some(AmountValue(s, i))
  {
    var r := FindAmount(s);
    var m :| 0 <= m < |s| && AmountAt(s, m) && r.value == AmountValue(s, m)
      && forall j :: 0 <= j < m ==> !AmountAt(s, j);
    assert m == i;
  }

  /** A slice that equals `a + b` splits into a slice equal to `a` followed by one equal to `b`. */
  lemma SliceOfConcat<T>(s: seq<T>, i: nat, a: seq<T>, b: seq<T>)
    requires i + |a| + |b| <= |s| && s[i..i + |a| + |b|] == a + b
    ensures s[i..i + |a|] == a && s[i + |a|..i + |a| + |b|] == b
  {
    assert s[i..i + |a|] == (a + b)[..|a|];
    assert s[i + |a|..i + |a| + |b|] == (a + b)[|a|..];
  }

  lemma FormattedAmountLayout(s: string, i: nat, v: nat, sep: char)
    requires IsDecimalSeparator(sep)
    requires i + |FormatAmount(v, sep)| <= |s| && s[i..i + |FormatAmount(v, sep)|] == FormatAmount(v, sep)
    ensures var j := i + |NatToDigits(v / 100)|;
      && j + 2 < |s| && s[i..j] == NatToDigits(v / 100) && s[j] == sep
      && s[j + 1..j + 3] == [DigitChar(v % 100 / 10), DigitChar(v % 10)]
  {
    var d := NatToDigits(v / 100);
    var tail := [sep, DigitChar(v % 100 / 10), DigitChar(v % 10)];
    SliceOfConcat(s, i, d, tail);
    var j := i + |d|;
    assert s[j] == s[j..j + 3][0];
    assert s[j + 1..j + 3] == s[j..j + 3][1..];
  }

  lemma FormattedAmountAt(s: string, i: nat, v: nat, sep: char)
    requires IsDecimalSeparator(sep)
    requires i + |FormatAmount(v, sep)| <= |s| && s[i..i + |FormatAmount(v, sep)|] == FormatAmount(v, sep)
    ensures AmountAt(s, i) && AmountValue(s, i) == v
  {
    FormattedAmountLayout(s, i, v, sep);
    var whole, cents := v / 100, v % 100;
    var j := i + |NatToDigits(whole)|;
    assert !IsDigit(s[j]);
    DigitsReadBack(s, i, whole);
    TwoDigitsValue(cents, s[j + 1..j + 3]);
    AmountValueOf(s, i, j, whole, cents);
  }

  /** The value of a match whose integer part reads `whole` and whose decimals read `cents`. */
  lemma AmountValueOf(s: string, i: nat, j: nat, whole: nat, cents: nat)
    requires AmountAt(s, i) && DigitRunEnd(s, i) == j
    requires DigitsValue(s[i..j]) == whole && DigitsValue(s[j + 1..j + 3]) == cents
    ensures AmountValue(s, i) == whole * 100 + cents
  {
  }

  /** Written after text without digits, an amount is found again with its value. */
  lemma FindAmountRoundTrip(prefix: string, v: nat, sep: char, suffix: string)
    requires IsDecimalSeparator(sep) && NoDigits(prefix)
    ensures FindAmount(prefix + FormatAmount(v, sep) + suffix) == Some(v)
  {
    var s := prefix + FormatAmount(v, sep) + suffix;
    var i := |prefix|;
    assert s[i..i + |FormatAmount(v, sep)|] == FormatAmount(v, sep);
    FormattedAmountAt(s, i, v, sep);
    forall k | 0 <= k < i ensures !AmountAt(s, k) {
      assert s[k] == prefix[k];
    }
    FindAmountLeftmost(s, i);
  }

  /** An amount written alone is found with its value. */
  lemma FindFormattedAmount(v: nat, sep: char)
    requires IsDecimalSeparator(sep)
    ensures FindAmount(FormatAmount(v, sep)) == Some(v)
  {
    FindAmountRoundTrip([], v, sep, []);
    assert [] + FormatAmount(v, sep) + [] == FormatAmount(v, sep);
  }

  // ---------------------------------------------------------------- dates

  /** The fields `datetime(...)` is built from. */
  datatype DateTime = DateTime(year: nat, month: nat, day: nat, hour: nat, minute: nat, second: nat)

  predicate IsDateSeparator(c: char) {
    c == '-' || c == '/'
  }

  predicate IsTimeSeparator(c: char) {
    c == ':' || c == '.'
  }

  /** A separator accepted by `sep` at index `j`, followed by a digit. */
  predicate SeparatorThenDigit(s: string, j: nat, sep: char -> bool) {
    j + 1 < |s| && sep(s[j]) && IsDigit(s[j + 1])
  }

  /**
   * Where the groups of a date match end: `day` is `s[i..dayEnd]`, `month`
   * `s[dayEnd + 1..monthEnd]`, `year` `s[monthEnd + 1..yearEnd]`, `hour`
   * `s[hourStart..hourEnd]`, `minute` `s[hourEnd + 1..minuteEnd]`, and the
   * optional `second` `s[minuteEnd + 1..secondEnd.value]`.
   */
  datatype DateSpan = DateSpan(dayEnd: nat, monthEnd: nat, yearEnd: nat, hourStart: nat,
                               hourEnd: nat, minuteEnd: nat, secondEnd: Option<nat>)

  /**
   * The date pattern matched at index `i`. Every `\d+` of the pattern is
   * followed by something that is not a digit, so each takes the whole digit
   * run (and `\s+` the whole run of whitespace): the match at `i` is unique.
   */
  function MatchDate(s: string, i: nat): Option<DateSpan> {
    if !(i < |s| && IsDigit(s[i])) then None
    else
      var dayEnd := DigitRunEnd(s, i);
      if !SeparatorThenDigit(s, dayEnd, IsDateSeparator) then None
      else
        var monthEnd := DigitRunEnd(s, dayEnd + 1);
        if !SeparatorThenDigit(s, monthEnd, IsDateSeparator) then None
        else MatchTime(s, dayEnd, monthEnd, DigitRunEnd(s, monthEnd + 1))
  }

  /** The rest of the date pattern, `\s+hour[:.]minute([:.]second)?`, after a year ending at `yearEnd`. */
  function MatchTime(s: string, dayEnd: nat, monthEnd: nat, yearEnd: nat): Option<DateSpan>
    requires yearEnd <= |s|
  {
    if !(yearEnd < |s| && IsSpace(s[yearEnd])) then None
    else
      var hourStart := SpaceRunEnd(s, yearEnd);
      if !(hourStart < |s| && IsDigit(s[hourStart])) then None
      else
        var hourEnd := DigitRunEnd(s, hourStart);
        if !SeparatorThenDigit(s, hourEnd, IsTimeSeparator) then None
        else
          var minuteEnd := DigitRunEnd(s, hourEnd + 1);
          var secondEnd :=
            if SeparatorThenDigit(s, minuteEnd, IsTimeSeparator)
            then Some(DigitRunEnd(s, minuteEnd + 1))
            else None;
          Some(DateSpan(dayEnd, monthEnd, yearEnd, hourStart, hourEnd, minuteEnd, secondEnd))
  }

  /** The digits of `s[a..b]`, every one of them a digit. */
  predicate DigitsBetween(s: string, a: nat, b: nat) {
    a <= b <= |s| && forall k :: a <= k < b ==> IsDigit(s[k])
  }

  /**
   * `int()` of the group `s[a..b]`, read digit by digit from the left
   * (`FieldValueIsInt` relates it to `DigitsValue`).
   */
  function FieldValue(s: string, a: nat, b: nat): nat
    requires a <= b <= |s|
    decreases b - a
  {
    if a == b then 0 else FieldValue(s, a, b - 1) * 10 + DigitValue(s[b - 1])
  }

  lemma {:induction false} FieldValueIsInt(s: string, a: nat, b: nat)
    requires a <= b <= |s|
    ensures FieldValue(s, a, b) == DigitsValue(s[a..b])
    decreases b - a
  {
    if a < b {
      FieldValueIsInt(s, a, b - 1);
      assert s[a..b][..b - a - 1] == s[a..b - 1];
    }
  }

  /** The spans `MatchDate` finds delimit runs of digits. */
  predicate WellFormedSpan(s: string, i: nat, sp: DateSpan) {
    && DigitsBetween(s, i, sp.dayEnd)
    && DigitsBetween(s, sp.dayEnd + 1, sp.monthEnd)
    && DigitsBetween(s, sp.monthEnd + 1, sp.yearEnd)
    && DigitsBetween(s, sp.hourStart, sp.hourEnd)
    && DigitsBetween(s, sp.hourEnd + 1, sp.minuteEnd)
    && (sp.secondEnd.Some? ==> DigitsBetween(s, sp.minuteEnd + 1, sp.secondEnd.value))
  }

  lemma MatchDateWellFormed(s: string, i: nat)
    requires MatchDate(s, i).Some?
    ensures WellFormedSpan(s, i, MatchDate(s, i).value)
    ensures SpanInside(s, i, MatchDate(s, i).value)
  {
  }

  /** The spans lie inside `s`, in order. */
  predicate SpanInside(s: string, i: nat, sp: DateSpan) {
    && i <= sp.dayEnd && sp.dayEnd + 1 <= sp.monthEnd && sp.monthEnd + 1 <= sp.yearEnd <= |s|
    && sp.hourStart <= sp.hourEnd && sp.hourEnd + 1 <= sp.minuteEnd <= |s|
    && (sp.secondEnd.Some? ==> sp.minuteEnd + 1 <= sp.secondEnd.value <= |s|)
  }

  /** `int()` of each group, with the seconds read as 0 when they are absent (`or "00"`). */
  function ReadDate(s: string, i: nat, sp: DateSpan): DateTime
    requires SpanInside(s, i, sp)
  {
    DateTime(
      FieldValue(s, sp.monthEnd + 1, sp.yearEnd),
      FieldValue(s, sp.dayEnd + 1, sp.monthEnd),
      FieldValue(s, i, sp.dayEnd),
      FieldValue(s, sp.hourStart, sp.hourEnd),
      FieldValue(s, sp.hourEnd + 1, sp.minuteEnd),
      if sp.secondEnd.Some? then FieldValue(s, sp.minuteEnd + 1, sp.secondEnd.value) else 0)
  }

  /** Each field `ReadDate` reads is `int()` of its group's text; absent seconds are 0. */
  lemma ReadDateGroups(s: string, i: nat, sp: DateSpan)
    requires SpanInside(s, i, sp)
    ensures ReadDate(s, i, sp).day == DigitsValue(s[i..sp.dayEnd])
    ensures ReadDate(s, i, sp).month == DigitsValue(s[sp.dayEnd + 1..sp.monthEnd])
    ensures ReadDate(s, i, sp).year == DigitsValue(s[sp.monthEnd + 1..sp.yearEnd])
    ensures ReadDate(s, i, sp).hour == DigitsValue(s[sp.hourStart..sp.hourEnd])
    ensures ReadDate(s, i, sp).minute == DigitsValue(s[sp.hourEnd + 1..sp.minuteEnd])
    ensures ReadDate(s, i, sp).second ==
      if sp.secondEnd.Some? then DigitsValue(s[sp.minuteEnd + 1..sp.secondEnd.value]) else 0
  {
    FieldValueIsInt(s, i, sp.dayEnd);
    FieldValueIsInt(s, sp.dayEnd + 1, sp.monthEnd);
    FieldValueIsInt(s, sp.monthEnd + 1, sp.yearEnd);
    FieldValueIsInt(s, sp.hourStart, sp.hourEnd);
    FieldValueIsInt(s, sp.hourEnd + 1, sp.minuteEnd);
    if sp.secondEnd.Some? {
      FieldValueIsInt(s, sp.minuteEnd + 1, sp.secondEnd.value);
    }
  }

  /** The fields of the date matched at index `i`, if the pattern matches there. */
  function DateAt(s: string, i: nat): Option<DateTime> {
    match MatchDate(s, i)
    case None => None
    case Some(sp) =>
      MatchDateWellFormed(s, i);
      Some(ReadDate(s, i, sp))
  }

  /** `date_pattern.search(s)`: the fields of the leftmost match. */
  function SearchDate(s: string): (r: Option<DateTime>)
    ensures r.None? <==> forall i :: 0 <= i < |s| ==> DateAt(s, i).None?
    ensures r.Some? ==>
      exists i :: 0 <= i < |s| && DateAt(s, i) == r
        && forall j :: 0 <= j < i ==> DateAt(s, j).None?
  {
    var hit := (i: nat) => DateAt(s, i).Some?;
    var k := FirstIndex(0, |s|, hit);
    assert forall i: nat :: hit(i) == DateAt(s, i).Some?;
    if k < |s| then DateAt(s, k) else None
  }

  /** The leftmost match decides what `SearchDate` reads. */
  lemma SearchDateLeftmost(s: string, i: nat)
    requires DateAt(s, i).Some?
    requires forall k :: 0 <= k < i ==> DateAt(s, k).None?
    ensures SearchDate(s) == DateAt(s, i)
  {
    var r := SearchDate(s);
    var m :| 0 <= m < |s| && DateAt(s, m) == r && forall j :: 0 <= j < m ==> DateAt(s, j).None?;
    assert m == i;
  }

  /**
   * A date match is read as `int()` of each of its groups, and as 0 seconds
   * when the optional seconds group did not take part in the match.
   */
  lemma DateAtGroups(s: string, i: nat, sp: DateSpan)
    requires MatchDate(s, i) == Some(sp)
    ensures SpanInside(s, i, sp) && DateAt(s, i) == Some(ReadDate(s, i, sp))
    ensures DateAt(s, i).value.day == DigitsValue(s[i..sp.dayEnd])
    ensures DateAt(s, i).value.month == DigitsValue(s[sp.dayEnd + 1..sp.monthEnd])
    ensures DateAt(s, i).value.year == DigitsValue(s[sp.monthEnd + 1..sp.yearEnd])
    ensures DateAt(s, i).value.hour == DigitsValue(s[sp.hourStart..sp.hourEnd])
    ensures DateAt(s, i).value.minute == DigitsValue(s[sp.hourEnd + 1..sp.minuteEnd])
    ensures DateAt(s, i).value.second ==
      if sp.secondEnd.Some? then DigitsValue(s[sp.minuteEnd + 1..sp.secondEnd.value]) else 0
  {
    MatchDateWellFormed(s, i);
    ReadDateGroups(s, i, sp);
  }

  // ------------------------------------------------- writing a date and reading it back

  /**
   * How a date is written: the separator between day, month and year, the
   * whitespace before the time, the separator between the time's fields, and
   * whether the seconds are written at all.
   */
  datatype DateStyle = DateStyle(dateSep: char, gap: string, timeSep: char, withSeconds: bool)

  /** A style the date pattern accepts. */
  predicate ValidStyle(st: DateStyle) {
    && IsDateSeparator(st.dateSep) && IsTimeSeparator(st.timeSep)
    && st.gap != [] && forall k :: 0 <= k < |st.gap| ==> IsSpace(st.gap[k])
  }

  /** `day/month/year`, with the style's separator. */
  function DatePart(d: DateTime, st: DateStyle): string {
    NatToDigits(d.day) + [st.dateSep] + NatToDigits(d.month) + [st.dateSep] + NatToDigits(d.year)
  }

  /** `:second` when the style writes the seconds, nothing otherwise. */
  function SecondsPart(d: DateTime, st: DateStyle): string {
    if st.withSeconds then [st.timeSep] + NatToDigits(d.second) else []
  }

  /** `hour:minute`, then the seconds part. */
  function TimePart(d: DateTime, st: DateStyle): string {
    NatToDigits(d.hour) + [st.timeSep] + NatToDigits(d.minute) + SecondsPart(d, st)
  }

  /** The date written in style `st`. */
  function FormatDate(d: DateTime, st: DateStyle): string {
    DatePart(d, st) + st.gap + TimePart(d, st)
  }

  /** The fields a date written in style `st` is read back as: without seconds, 0 seconds. */
  function ReadBack(d: DateTime, st: DateStyle): DateTime {
    if st.withSeconds then d else d.(second := 0)
  }

  /** `g` is written in `s` from index `a` on. */
  predicate Written(s: string, a: nat, g: string) {
    a + |g| <= |s| && forall k :: 0 <= k < |g| ==> s[a + k] == g[k]
  }

  /** Text `a + b` found at index `i` of `s` is `a` at `i` followed by `b`. */
  lemma Peel(s: string, i: nat, a: string, b: string)
    requires Written(s, i, a + b)
    ensures Written(s, i, a) && Written(s, i + |a|, b)
  {
    forall k | 0 <= k < |a| ensures s[i + k] == a[k] {
      assert (a + b)[k] == a[k];
    }
    forall k | 0 <= k < |b| ensures s[i + |a| + k] == b[k] {
      assert s[i + (|a| + k)] == (a + b)[|a| + k];
    }
  }

  /** Text `front`, a separator `c` and `g`, found at index `a` of `s`, one by one. */
  lemma PeelSeparator(s: string, a: nat, front: string, c: char, g: string)
    requires Written(s, a, front + [c] + g)
    ensures Written(s, a, front) && s[a + |front|] == c && Written(s, a + |front| + 1, g)
  {
    Peel(s, a, front + [c], g);
    Peel(s, a, front, [c]);
    assert s[a + |front| + 0] == [c][0];
  }

  /** The lengths of the parts of a written date. */
  lemma PartLengths(d: DateTime, st: DateStyle)
    ensures |DatePart(d, st)| == |NatToDigits(d.day)| + 1 + |NatToDigits(d.month)| + 1 + |NatToDigits(d.year)|
    ensures |TimePart(d, st)| == |NatToDigits(d.hour)| + 1 + |NatToDigits(d.minute)| + |SecondsPart(d, st)|
  {
  }

  /** The date part, the gap and the time part of a date written at index `i`. */
  lemma PeelFormat(s: string, i: nat, e3: nat, h: nat, d: DateTime, st: DateStyle)
    requires Written(s, i, FormatDate(d, st))
    requires st.gap != []
    requires e3 == i + |DatePart(d, st)| && h == e3 + |st.gap|
    ensures Written(s, i, DatePart(d, st)) && Written(s, e3, st.gap) && Written(s, h, TimePart(d, st))
    ensures s[e3] == st.gap[0]
  {
    Peel(s, i, DatePart(d, st) + st.gap, TimePart(d, st));
    Peel(s, i, DatePart(d, st), st.gap);
    assert s[e3 + 0] == st.gap[0];
  }

  /** A run of digits `g` at `s[a..]`, not followed by a digit, is matched whole. */
  lemma GroupRun(s: string, a: nat, g: string)
    requires g != [] && AllDigits(g)
    requires Written(s, a, g)
    requires a + |g| < |s| ==> !IsDigit(s[a + |g|])
    ensures IsDigit(s[a])
    ensures DigitRunEnd(s, a) == a + |g|
  {
    assert s[a + 0] == g[0];
    forall k | a <= k < a + |g| ensures IsDigit(s[k]) {
      assert s[a + (k - a)] == g[k - a];
    }
    DigitRunEndAt(s, a, a + |g|);
  }

  /** A group of digits `g` written at `s[a..]` is read as `int(g)`. */
  lemma {:induction false} GroupValue(s: string, a: nat, g: string)
    requires AllDigits(g)
    requires Written(s, a, g)
    ensures DigitsBetween(s, a, a + |g|) && FieldValue(s, a, a + |g|) == DigitsValue(g)
    decreases |g|
  {
    forall k | a <= k < a + |g| ensures IsDigit(s[k]) {
      assert s[a + (k - a)] == g[k - a];
    }
    if g != [] {
      var n := |g| - 1;
      forall k | 0 <= k < n ensures s[a + k] == g[..n][k] {
      }
      GroupValue(s, a, g[..n]);
      assert s[a + n] == g[n];
    }
  }

  /** A whitespace run that starts at `i` and stops before a non-space at `j` ends at `j`. */
  lemma {:induction false} SpaceRunEndAt(s: string, i: nat, j: nat)
    requires i <= j <= |s|
    requires forall k :: i <= k < j ==> IsSpace(s[k])
    requires j < |s| ==> !IsSpace(s[j])
    ensures SpaceRunEnd(s, i) == j
    decreases j - i
  {
    if i < j {
      SpaceRunEndAt(s, i + 1, j);
    }
  }

  /** Whitespace `gap` at `s[a..]`, not followed by whitespace, is matched whole by `\s+`. */
  lemma GapRun(s: string, a: nat, gap: string)
    requires gap != [] && forall k :: 0 <= k < |gap| ==> IsSpace(gap[k])
    requires Written(s, a, gap)
    requires a + |gap| < |s| ==> !IsSpace(s[a + |gap|])
    ensures a < |s| && IsSpace(s[a]) && SpaceRunEnd(s, a) == a + |gap|
  {
    assert s[a + 0] == gap[0];
    forall k | a <= k < a + |gap| ensures IsSpace(s[k]) {
      assert s[a + (k - a)] == gap[k - a];
    }
    SpaceRunEndAt(s, a, a + |gap|);
  }

  /**
   * Three groups at `s[a..]`, each followed by one character that is not a
   * digit (the last one possibly by the end of `s`), are matched whole.
   */
  lemma ThreeRuns(s: string, a: nat, e1: nat, e2: nat, e3: nat, g1: string, g2: string, g3: string)
    requires g1 != [] && g2 != [] && g3 != [] && AllDigits(g1) && AllDigits(g2) && AllDigits(g3)
    requires e1 == a + |g1| && e2 == e1 + 1 + |g2| && e3 == e2 + 1 + |g3| && e3 <= |s|
    requires Written(s, a, g1) && !IsDigit(s[e1])
    requires Written(s, e1 + 1, g2) && !IsDigit(s[e2])
    requires Written(s, e2 + 1, g3) && (e3 < |s| ==> !IsDigit(s[e3]))
    ensures IsDigit(s[a]) && DigitRunEnd(s, a) == e1
    ensures IsDigit(s[e1 + 1]) && DigitRunEnd(s, e1 + 1) == e2
    ensures IsDigit(s[e2 + 1]) && DigitRunEnd(s, e2 + 1) == e3
  {
    GroupRun(s, a, g1);
    GroupRun(s, e1 + 1, g2);
    GroupRun(s, e2 + 1, g3);
  }

  /** Three groups at `s[a..]`, split by single separators, are read as their values. */
  lemma ThreeValues(s: string, a: nat, e1: nat, e2: nat, e3: nat, g1: string, g2: string, g3: string)
    requires AllDigits(g1) && AllDigits(g2) && AllDigits(g3)
    requires e1 == a + |g1| && e2 == e1 + 1 + |g2| && e3 == e2 + 1 + |g3| && e3 <= |s|
    requires Written(s, a, g1) && Written(s, e1 + 1, g2) && Written(s, e2 + 1, g3)
    ensures DigitsBetween(s, a, e1) && FieldValue(s, a, e1) == DigitsValue(g1)
    ensures DigitsBetween(s, e1 + 1, e2) && FieldValue(s, e1 + 1, e2) == DigitsValue(g2)
    ensures DigitsBetween(s, e2 + 1, e3) && FieldValue(s, e2 + 1, e3) == DigitsValue(g3)
  {
    GroupValue(s, a, g1);
    GroupValue(s, e1 + 1, g2);
    GroupValue(s, e2 + 1, g3);
  }

  /** The date half of the pattern matches at `i`, its groups ending at `e1`, `e2`, `e3`. */
  predicate DateGroupsAt(s: string, i: nat, e1: nat, e2: nat, e3: nat) {
    && i < |s| && IsDigit(s[i]) && DigitRunEnd(s, i) == e1
    && SeparatorThenDigit(s, e1, IsDateSeparator) && DigitRunEnd(s, e1 + 1) == e2
    && SeparatorThenDigit(s, e2, IsDateSeparator) && DigitRunEnd(s, e2 + 1) == e3
  }

  /** Whitespace from `e3` up to `h`, then the hour and minute groups ending at `e4`, `e5`. */
  predicate TimeGroupsAt(s: string, e3: nat, h: nat, e4: nat, e5: nat) {
    && e3 < |s| && IsSpace(s[e3]) && SpaceRunEnd(s, e3) == h
    && h < |s| && IsDigit(s[h]) && DigitRunEnd(s, h) == e4
    && SeparatorThenDigit(s, e4, IsTimeSeparator) && DigitRunEnd(s, e4 + 1) == e5
  }

  /** The optional seconds after index `e5`: a group ending at `secondEnd`, or none. */
  predicate SecondsAt(s: string, e5: nat, secondEnd: Option<nat>) {
    match secondEnd
    case Some(e6) => SeparatorThenDigit(s, e5, IsTimeSeparator) && DigitRunEnd(s, e5 + 1) == e6
    case None => !SeparatorThenDigit(s, e5, IsTimeSeparator)
  }

  /** `MatchTime` when the groups of the time lie at the given positions. */
  lemma MatchTimeAt(s: string, e1: nat, e2: nat, e3: nat, h: nat, e4: nat, e5: nat, secondEnd: Option<nat>)
    requires TimeGroupsAt(s, e3, h, e4, e5) && SecondsAt(s, e5, secondEnd)
    ensures MatchTime(s, e1, e2, e3) == Some(DateSpan(e1, e2, e3, h, e4, e5, secondEnd))
  {
    assert SeparatorThenDigit(s, e5, IsTimeSeparator) <==> secondEnd.Some?;
  }

  /** `MatchDate` when the groups of the pattern lie at the given positions. */
  lemma MatchDateAt(s: string, i: nat, e1: nat, e2: nat, e3: nat, h: nat, e4: nat, e5: nat, secondEnd: Option<nat>)
    requires DateGroupsAt(s, i, e1, e2, e3) && TimeGroupsAt(s, e3, h, e4, e5) && SecondsAt(s, e5, secondEnd)
    ensures MatchDate(s, i) == Some(DateSpan(e1, e2, e3, h, e4, e5, secondEnd))
  {
    MatchTimeAt(s, e1, e2, e3, h, e4, e5, secondEnd);
  }

  /**
   * The date part of `d` written at index `i`, its groups ending at `e1`, `e2`,
   * `e3` and not followed by a digit, matches and holds the date's fields.
   */
  lemma DatePartRead(s: string, i: nat, e1: nat, e2: nat, e3: nat, d: DateTime, st: DateStyle)
    requires IsDateSeparator(st.dateSep)
    requires Written(s, i, DatePart(d, st))
    requires e1 == i + |NatToDigits(d.day)| && e2 == e1 + 1 + |NatToDigits(d.month)|
    requires e3 == e2 + 1 + |NatToDigits(d.year)|
    requires e3 < |s| ==> !IsDigit(s[e3])
    ensures DateGroupsAt(s, i, e1, e2, e3)
    ensures FieldValue(s, i, e1) == d.day && FieldValue(s, e1 + 1, e2) == d.month
    ensures FieldValue(s, e2 + 1, e3) == d.year
  {
    var day, month, year := NatToDigits(d.day), NatToDigits(d.month), NatToDigits(d.year);
    PeelSeparator(s, i, day + [st.dateSep] + month, st.dateSep, year);
    PeelSeparator(s, i, day, st.dateSep, month);
    ThreeRuns(s, i, e1, e2, e3, day, month, year);
    ThreeValues(s, i, e1, e2, e3, day, month, year);
    DigitsRoundTrip(d.day);
    DigitsRoundTrip(d.month);
    DigitsRoundTrip(d.year);
  }

  /** The hour and the minute, written at index `h` and split by `sep`, not followed by a digit. */
  lemma HourMinuteRead(s: string, h: nat, e4: nat, e5: nat, hour: string, sep: char, minute: string)
    requires IsTimeSeparator(sep)
    requires hour != [] && minute != [] && AllDigits(hour) && AllDigits(minute)
    requires Written(s, h, hour + [sep] + minute)
    requires e4 == h + |hour| && e5 == e4 + 1 + |minute|
    requires e5 < |s| ==> !IsDigit(s[e5])
    ensures h < |s| && IsDigit(s[h]) && DigitRunEnd(s, h) == e4
    ensures SeparatorThenDigit(s, e4, IsTimeSeparator) && DigitRunEnd(s, e4 + 1) == e5
    ensures DigitsBetween(s, h, e4) && FieldValue(s, h, e4) == DigitsValue(hour)
    ensures DigitsBetween(s, e4 + 1, e5) && FieldValue(s, e4 + 1, e5) == DigitsValue(minute)
  {
    PeelSeparator(s, h, hour, sep, minute);
    GroupRun(s, h, hour);
    GroupRun(s, e4 + 1, minute);
    GroupValue(s, h, hour);
    GroupValue(s, e4 + 1, minute);
  }

  /** The seconds, written at index `e5` after a time separator, not followed by a digit. */
  lemma SecondRead(s: string, e5: nat, e6: nat, sep: char, second: string)
    requires IsTimeSeparator(sep)
    requires second != [] && AllDigits(second)
    requires Written(s, e5, [sep] + second)
    requires e6 == e5 + 1 + |second|
    requires e6 < |s| ==> !IsDigit(s[e6])
    ensures SeparatorThenDigit(s, e5, IsTimeSeparator) && DigitRunEnd(s, e5 + 1) == e6
    ensures DigitsBetween(s, e5 + 1, e6) && FieldValue(s, e5 + 1, e6) == DigitsValue(second)
  {
    Peel(s, e5, [sep], second);
    assert s[e5 + 0] == [sep][0];
    GroupRun(s, e5 + 1, second);
    GroupValue(s, e5 + 1, second);
  }

  /**
   * The time part of `d` written at index `h`, not followed by a digit nor,
   * when the seconds are not written, by a separator and a digit, matches
   * and holds the time's fields.
   */
  lemma TimePartRead(s: string, h: nat, e4: nat, e5: nat, e6: nat, d: DateTime, st: DateStyle)
    requires IsTimeSeparator(st.timeSep)
    requires Written(s, h, TimePart(d, st))
    requires e4 == h + |NatToDigits(d.hour)| && e5 == e4 + 1 + |NatToDigits(d.minute)|
    requires e6 == e5 + |SecondsPart(d, st)|
    requires e6 < |s| ==> !IsDigit(s[e6])
    requires !st.withSeconds ==> !SeparatorThenDigit(s, e5, IsTimeSeparator)
    ensures h < |s| && IsDigit(s[h]) && DigitRunEnd(s, h) == e4
    ensures SeparatorThenDigit(s, e4, IsTimeSeparator) && DigitRunEnd(s, e4 + 1) == e5
    ensures SecondsAt(s, e5, if st.withSeconds then Some(e6) else None)
    ensures FieldValue(s, h, e4) == d.hour && FieldValue(s, e4 + 1, e5) == d.minute
    ensures st.withSeconds ==> e5 + 1 <= e6 <= |s| && FieldValue(s, e5 + 1, e6) == d.second
  {
    var hour, minute, second := NatToDigits(d.hour), NatToDigits(d.minute), NatToDigits(d.second);
    Peel(s, h, hour + [st.timeSep] + minute, SecondsPart(d, st));
    if st.withSeconds {
      assert SecondsPart(d, st) == [st.timeSep] + second;
      SecondRead(s, e5, e6, st.timeSep, second);
      DigitsRoundTrip(d.second);
    }
    HourMinuteRead(s, h, e4, e5, hour, st.timeSep, minute);
    DigitsRoundTrip(d.hour);
    DigitsRoundTrip(d.minute);
  }

  /** Where the groups of `FormatDate(d, st)` written at index `i` end, and where its time starts. */
  predicate FormatPositions(i: nat, e1: nat, e2: nat, e3: nat, h: nat, e4: nat, e5: nat, e6: nat,
                            d: DateTime, st: DateStyle) {
    && e1 == i + |NatToDigits(d.day)| && e2 == e1 + 1 + |NatToDigits(d.month)|
    && e3 == e2 + 1 + |NatToDigits(d.year)| && h == e3 + |st.gap|
    && e4 == h + |NatToDigits(d.hour)| && e5 == e4 + 1 + |NatToDigits(d.minute)|
    && e6 == e5 + |SecondsPart(d, st)|
  }

  /**
   * A match whose groups hold the fields of `d` is read as `d`, with 0 seconds
   * when it has none.
   */
  lemma DateAtSpan(s: string, i: nat, e1: nat, e2: nat, e3: nat, h: nat, e4: nat, e5: nat, e6: nat,
                   d: DateTime, withSeconds: bool)
    requires MatchDate(s, i) == Some(DateSpan(e1, e2, e3, h, e4, e5, if withSeconds then Some(e6) else None))
    requires i <= e1 && e1 + 1 <= e2 && e2 + 1 <= e3 <= |s| && h <= e4 && e4 + 1 <= e5 <= e6 <= |s|
    requires FieldValue(s, i, e1) == d.day && FieldValue(s, e1 + 1, e2) == d.month
    requires FieldValue(s, e2 + 1, e3) == d.year && FieldValue(s, h, e4) == d.hour
    requires FieldValue(s, e4 + 1, e5) == d.minute
    requires withSeconds ==> e5 + 1 <= e6 && FieldValue(s, e5 + 1, e6) == d.second
    ensures DateAt(s, i) == Some(if withSeconds then d else d.(second := 0))
  {
    var sp := DateSpan(e1, e2, e3, h, e4, e5, if withSeconds then Some(e6) else None);
    assert SpanInside(s, i, sp);
    assert ReadDate(s, i, sp) == if withSeconds then d else d.(second := 0);
  }

  /** The date half of a date written at index `i` matches and holds the date's fields. */
  lemma FormattedDateHalf(s: string, i: nat, e1: nat, e2: nat, e3: nat, h: nat, d: DateTime, st: DateStyle)
    requires ValidStyle(st)
    requires e1 == i + |NatToDigits(d.day)| && e2 == e1 + 1 + |NatToDigits(d.month)|
    requires e3 == e2 + 1 + |NatToDigits(d.year)| && h == e3 + |st.gap|
    requires Written(s, i, FormatDate(d, st))
    ensures DateGroupsAt(s, i, e1, e2, e3)
    ensures FieldValue(s, i, e1) == d.day && FieldValue(s, e1 + 1, e2) == d.month
    ensures FieldValue(s, e2 + 1, e3) == d.year
  {
    PartLengths(d, st);
    PeelFormat(s, i, e3, h, d, st);
    DatePartRead(s, i, e1, e2, e3, d, st);
  }

  /**
   * The time half of a date written at index `i`, followed by what
   * `FormattedDateAt` allows, matches and holds the time's fields.
   */
  lemma FormattedTimeHalf(s: string, i: nat, e3: nat, h: nat, e4: nat, e5: nat, e6: nat, d: DateTime, st: DateStyle)
    requires ValidStyle(st)
    requires e3 == i + |DatePart(d, st)| && h == e3 + |st.gap|
    requires e4 == h + |NatToDigits(d.hour)| && e5 == e4 + 1 + |NatToDigits(d.minute)|
    requires e6 == e5 + |SecondsPart(d, st)|
    requires Written(s, i, FormatDate(d, st))
    requires e6 < |s| ==> !IsDigit(s[e6])
    requires !st.withSeconds ==> !SeparatorThenDigit(s, e6, IsTimeSeparator)
    ensures TimeGroupsAt(s, e3, h, e4, e5) && SecondsAt(s, e5, if st.withSeconds then Some(e6) else None)
    ensures h <= e4 && e4 + 1 <= e5 <= e6 <= |s|
    ensures FieldValue(s, h, e4) == d.hour && FieldValue(s, e4 + 1, e5) == d.minute
    ensures st.withSeconds ==> e5 + 1 <= e6 && FieldValue(s, e5 + 1, e6) == d.second
  {
    PeelFormat(s, i, e3, h, d, st);
    TimePartRead(s, h, e4, e5, e6, d, st);
    GapRun(s, e3, st.gap);
  }

  /**
   * The span of a date written in a valid style at index `i`, not followed by
   * a digit nor, when the seconds are not written, by a time separator and a
   * digit; its groups hold the fields the date is read back as.
   */
  lemma FormattedDateSpan(s: string, i: nat, e1: nat, e2: nat, e3: nat, h: nat, e4: nat, e5: nat, e6: nat,
                          d: DateTime, st: DateStyle)
    requires ValidStyle(st)
    requires FormatPositions(i, e1, e2, e3, h, e4, e5, e6, d, st)
    requires Written(s, i, FormatDate(d, st))
    requires e6 < |s| ==> !IsDigit(s[e6])
    requires !st.withSeconds ==> !SeparatorThenDigit(s, e6, IsTimeSeparator)
    ensures MatchDate(s, i) == Some(DateSpan(e1, e2, e3, h, e4, e5, if st.withSeconds then Some(e6) else None))
    ensures i <= e1 && e1 + 1 <= e2 && e2 + 1 <= e3 <= |s| && h <= e4 && e4 + 1 <= e5 <= e6 <= |s|
    ensures FieldValue(s, i, e1) == d.day && FieldValue(s, e1 + 1, e2) == d.month
    ensures FieldValue(s, e2 + 1, e3) == d.year && FieldValue(s, h, e4) == d.hour
    ensures FieldValue(s, e4 + 1, e5) == d.minute
    ensures st.withSeconds ==> e5 + 1 <= e6 && FieldValue(s, e5 + 1, e6) == d.second
  {
    FormattedDateHalf(s, i, e1, e2, e3, h, d, st);
    FormattedTimeHalf(s, i, e3, h, e4, e5, e6, d, st);
    MatchDateAt(s, i, e1, e2, e3, h, e4, e5, if st.withSeconds then Some(e6) else None);
  }

  /**
   * A date written in a valid style at index `i`, not followed by a digit nor,
   * when the seconds are not written, by a time separator and a digit, is
   * matched there and read back with its fields (0 seconds when they are not
   * written).
   */
  lemma FormattedDateAt(s: string, i: nat, e1: nat, e2: nat, e3: nat, h: nat, e4: nat, e5: nat, e6: nat,
                        d: DateTime, st: DateStyle)
    requires ValidStyle(st)
    requires FormatPositions(i, e1, e2, e3, h, e4, e5, e6, d, st)
    requires Written(s, i, FormatDate(d, st))
    requires e6 < |s| ==> !IsDigit(s[e6])
    requires !st.withSeconds ==> !SeparatorThenDigit(s, e6, IsTimeSeparator)
    ensures DateAt(s, i) == Some(ReadBack(d, st))
  {
    FormattedDateSpan(s, i, e1, e2, e3, h, e4, e5, e6, d, st);
    DateAtSpan(s, i, e1, e2, e3, h, e4, e5, e6, d, st.withSeconds);
  }

  /** Text `f` between `prefix` and `suffix` is written right after `prefix`. */
  lemma WrittenBetween(prefix: string, f: string, suffix: string)
    ensures Written(prefix + f + suffix, |prefix|, f)
  {
    var s := prefix + f + suffix;
    forall k | 0 <= k < |f| ensures s[|prefix| + k] == f[k] {
    }
  }

  /** No date starts inside text without digits. */
  lemma NoDateInPrefix(prefix: string, f: string, suffix: string)
    requires NoDigits(prefix)
    ensures forall k :: 0 <= k < |prefix| ==> DateAt(prefix + f + suffix, k).None?
  {
    forall k | 0 <= k < |prefix| ensures DateAt(prefix + f + suffix, k).None? {
      assert (prefix + f + suffix)[k] == prefix[k];
    }
  }

  /** A date written between `prefix` and a suffix the round trip allows is read back where it starts. */
  lemma DateAtBetween(prefix: string, d: DateTime, st: DateStyle, suffix: string)
    requires ValidStyle(st)
    requires suffix != [] ==> !IsDigit(suffix[0])
    requires !st.withSeconds ==> !(|suffix| > 1 && IsTimeSeparator(suffix[0]) && IsDigit(suffix[1]))
    ensures DateAt(prefix + FormatDate(d, st) + suffix, |prefix|) == Some(ReadBack(d, st))
  {
    var f := FormatDate(d, st);
    var s := prefix + f + suffix;
    var i := |prefix|;
    var e1 := i + |NatToDigits(d.day)|;
    var e2 := e1 + 1 + |NatToDigits(d.month)|;
    var e3 := e2 + 1 + |NatToDigits(d.year)|;
    var h := e3 + |st.gap|;
    var e4 := h + |NatToDigits(d.hour)|;
    var e5 := e4 + 1 + |NatToDigits(d.minute)|;
    var e6 := e5 + |SecondsPart(d, st)|;
    PartLengths(d, st);
    assert e6 == i + |f|;
    WrittenBetween(prefix, f, suffix);
    assert e6 < |s| ==> s[e6] == suffix[0];
    assert e6 + 1 < |s| ==> s[e6 + 1] == suffix[1];
    FormattedDateAt(s, i, e1, e2, e3, h, e4, e5, e6, d, st);
  }

  /**
   * Written in a valid style after text without digits, and followed by text
   * that starts neither with a digit nor, when the seconds are not written,
   * with a time separator and a digit, a date is found again with its fields;
   * seconds that are not written are read as 0.
   */
  lemma SearchDateRoundTrip(prefix: string, d: DateTime, st: DateStyle, suffix: string)
    requires ValidStyle(st)
    requires NoDigits(prefix)
    requires suffix != [] ==> !IsDigit(suffix[0])
    requires !st.withSeconds ==> !(|suffix| > 1 && IsTimeSeparator(suffix[0]) && IsDigit(suffix[1]))
    ensures SearchDate(prefix + FormatDate(d, st) + suffix) == Some(ReadBack(d, st))
  {
    DateAtBetween(prefix, d, st, suffix);
    NoDateInPrefix(prefix, FormatDate(d, st), suffix);
    SearchDateLeftmost(prefix + FormatDate(d, st) + suffix, |prefix|);
  }

  /** Written without seconds, a date is found again with 0 seconds. */
  lemma SearchDateSecondsDefault(prefix: string, d: DateTime, st: DateStyle, suffix: string)
    requires ValidStyle(st) && !st.withSeconds
    requires NoDigits(prefix)
    requires suffix != [] ==> !IsDigit(suffix[0])
    requires !(|suffix| > 1 && IsTimeSeparator(suffix[0]) && IsDigit(suffix[1]))
    ensures SearchDate(prefix + FormatDate(d, st) + suffix) == Some(d.(second := 0))
  {
    SearchDateRoundTrip(prefix, d, st, suffix);
  }

  /**
   * `5-3-2024  10.30`, with dashes, two spaces and a dot and no seconds, in a
   * line between other words: read back with 0 seconds.
   */
  lemma SearchDateExample()
    ensures SearchDate("Data " + FormatDate(DateTime(2024, 3, 5, 10, 30, 59), DateStyle('-', "  ", '.', false))
                       + " Cassa") == Some(DateTime(2024, 3, 5, 10, 30, 0))
  {
    SearchDateSecondsDefault("Data ", DateTime(2024, 3, 5, 10, 30, 59), DateStyle('-', "  ", '.', false), " Cassa");
  }
}
