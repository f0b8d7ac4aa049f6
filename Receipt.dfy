/**
 * The receipt summary: guesses of the vendor, the date and the total read from
 * the text of the first page of an OCR result, and the quick total of the
 * command-line tool.
 */
module Receipt {
  import opened Optional
  import opened Text
  import opened Matching
  import opened Table

  // ---------------------------------------------------------------- first match

  /** The first `f(x)` that is present, scanning `xs` from the front. */
  function FirstSome<T, U>(xs: seq<T>, f: T -> Option<U>): (r: Option<U>)
    ensures r.None? <==> forall i :: 0 <= i < |xs| ==> f(xs[i]).None?
    ensures r.Some? ==>
      exists i :: 0 <= i < |xs| && f(xs[i]) == r
        && forall j :: 0 <= j < i ==> f(xs[j]).None?
  {
    if xs == [] then None
    else if f(xs[0]).Some? then f(xs[0])
    else
      var r := FirstSome(xs[1..], f);
      assert forall i :: 1 <= i < |xs| ==> xs[i] == xs[1..][i - 1];
      r
  }

  /** The first present `f(x)` decides what `FirstSome` returns. */
  lemma FirstSomeAt<T, U>(xs: seq<T>, f: T -> Option<U>, i: nat)
    requires i < |xs| && f(xs[i]).Some?
    requires forall j :: 0 <= j < i ==> f(xs[j]).None?
    ensures FirstSome(xs, f) == f(xs[i])
  {
    var r := FirstSome(xs, f);
    var m :| 0 <= m < |xs| && f(xs[m]) == r && forall j :: 0 <= j < m ==> f(xs[j]).None?;
    assert m == i;
  }

  lemma FirstSomeSingle<T, U>(x: T, f: T -> Option<U>)
    ensures FirstSome([x], f) == f(x)
  {
    assert [x][1..] == [];
  }

  /** `FirstSomeAt` for a sequence cut around its first hit. */
  lemma FirstSomeAfter<T, U>(before: seq<T>, x: T, after: seq<T>, f: T -> Option<U>)
    requires forall j :: 0 <= j < |before| ==> f(before[j]).None?
    requires f(x).Some?
    ensures FirstSome(before + [x] + after, f) == f(x)
  {
    var xs := before + [x] + after;
    assert xs[|before|] == x;
    assert forall j :: 0 <= j < |before| ==> xs[j] == before[j];
    FirstSomeAt(xs, f, |before|);
  }

  // ---------------------------------------------------------------- total guess

  /** What `total_guess` returns: an amount in hundredths, or the string "n.a.". */
  datatype Total = Amount(hundredths: nat) | NotAvailable

  const NotAvailableText: string := "n.a."

  /** A compiled total pattern: a phrase searched anywhere, or anchored at the start (`^`). */
  datatype TotalPattern = Anywhere(phrase: string) | AtStart(phrase: string)

  /** `total_guess_patterns`, in the order they are tried; all are case-insensitive. */
  const TotalPatterns: seq<TotalPattern> := [
    Anywhere("TOTALE COMPLESSIVO"),
    AtStart("TOTALE"),
    Anywhere("IMPORTO PAGATO"),
    Anywhere("SUBTOTALE")
  ]

  /** `pattern.search(s)` is truthy. */
  predicate PatternMatches(p: TotalPattern, s: string) {
    match p
    case Anywhere(phrase) => ContainsCI(s, phrase)
    case AtStart(phrase) => MatchesAtCI(s, phrase, 0)
  }

  /**
   * The amount one line yields for one pattern: the stripped line must match,
   * split on tabs into more than one column, and hold an amount in its last column.
   */
  function LineAmount(p: TotalPattern, line: string): (r: Option<nat>)
    ensures r.Some? ==> PatternMatches(p, Strip(line)) && |Split(Strip(line), '\t')| > 1
    ensures r.Some? ==> var columns := Split(Strip(line), '\t');
      FindAmount(columns[|columns| - 1]) == r
  {
    var t := Strip(line);
    if !PatternMatches(p, t) then None
    else
      var columns := Split(t, '\t');
      if |columns| > 1 then FindAmount(columns[|columns| - 1]) else None
  }

  /** A pattern that matches a text matches it with more text after it. */
  lemma PatternMatchesExtended(p: TotalPattern, caption: string, rest: string)
    requires PatternMatches(p, caption)
    ensures PatternMatches(p, caption + rest)
  {
    var t := caption + rest;
    assert forall k :: 0 <= k < |caption| ==> t[k] == caption[k];
    match p {
      case Anywhere(phrase) =>
        var i :| 0 <= i <= |caption| && MatchesAtCI(caption, phrase, i);
        assert MatchesAtCI(t, phrase, i);
      case AtStart(phrase) =>
        assert MatchesAtCI(t, phrase, 0);
    }
  }

  /** A caption without tabs, a tab and an amount split into those two columns. */
  lemma SplitCaptionAmount(caption: string, v: nat, sep: char)
    requires IsDecimalSeparator(sep) && '\t' !in caption
    ensures Split(caption + "\t" + FormatAmount(v, sep), '\t') == [caption, FormatAmount(v, sep)]
  {
    var amount := FormatAmount(v, sep);
    var w := NatToDigits(v / 100);
    assert '\t' !in amount by {
      assert forall k :: 0 <= k < |w| ==> IsDigit(w[k]);
      assert amount == w + [sep, DigitChar(v % 100 / 10), DigitChar(v % 10)];
    }
    SplitAfterPart(caption, amount, '\t');
    SplitNoSeparator(amount, '\t');
  }

  /** A matching caption, a tab and an amount: the line yields that amount. */
  lemma TabbedLineAmount(p: TotalPattern, caption: string, v: nat, sep: char)
    requires IsDecimalSeparator(sep)
    requires caption != [] && !IsSpace(caption[0]) && '\t' !in caption
    requires PatternMatches(p, caption)
    ensures LineAmount(p, caption + "\t" + FormatAmount(v, sep)) == Some(v)
  {
    var amount := FormatAmount(v, sep);
    var line := caption + "\t" + amount;
    assert line[0] == caption[0] && line[|line| - 1] == DigitChar(v % 10);
    StripClean(line);
    PatternMatchesExtended(p, caption, "\t" + amount);
    assert caption + ("\t" + amount) == line;
    SplitCaptionAmount(caption, v, sep);
    FindFormattedAmount(v, sep);
  }

  /** `LineAmount` for one pattern, as a function of the line. */
  function LineAmountOf(p: TotalPattern): string -> Option<nat> {
    (line: string) => LineAmount(p, line)
  }

  /** A truthy guess: a float other than 0.0. */
  predicate Positive(a: Option<nat>) {
    a.Some? && a.value > 0
  }

  /**
   * The guess from patterns tried in order: the amount of the first pattern
   * whose amount is present and not zero, or "n.a.".
   */
  function FirstPositive<P>(ps: seq<P>, amount: P -> Option<nat>): (r: Total)
    ensures r.Amount? ==> r.hundredths > 0
    ensures ps == [] ==> r == NotAvailable
  {
    if ps == [] then NotAvailable
    else if Positive(amount(ps[0])) then Amount(amount(ps[0]).value)
    else FirstPositive(ps[1..], amount)
  }

  /** What `FirstPositive` promises, pattern by pattern. */
  lemma {:induction false} FirstPositiveSpec<P>(ps: seq<P>, amount: P -> Option<nat>)
    ensures FirstPositive(ps, amount).NotAvailable? <==>
      forall k :: 0 <= k < |ps| ==> !Positive(amount(ps[k]))
    ensures FirstPositive(ps, amount).Amount? ==>
      FirstPositive(ps, amount).hundredths > 0
      && exists k ::
        && 0 <= k < |ps| && amount(ps[k]) == Some(FirstPositive(ps, amount).hundredths)
        && forall q :: 0 <= q < k ==> !Positive(amount(ps[q]))
  {
    if ps != [] && !Positive(amount(ps[0])) {
      var r := FirstPositive(ps[1..], amount);
      FirstPositiveSpec(ps[1..], amount);
      assert forall k :: 1 <= k < |ps| ==> ps[k] == ps[1..][k - 1];
      if r.Amount? {
        var k :| 0 <= k < |ps[1..]| && amount(ps[1..][k]) == Some(r.hundredths)
          && forall q :: 0 <= q < k ==> !Positive(amount(ps[1..][q]));
        assert amount(ps[k + 1]) == Some(r.hundredths);
      }
    }
  }

  /** The first pattern with a non-zero amount gives the guess. */
  lemma FirstPositiveAt<P>(ps: seq<P>, amount: P -> Option<nat>, k: nat)
    requires k < |ps| && Positive(amount(ps[k]))
    requires forall q :: 0 <= q < k ==> !Positive(amount(ps[q]))
    ensures FirstPositive(ps, amount) == Amount(amount(ps[k]).value)
  {
    var r := FirstPositive(ps, amount);
    FirstPositiveSpec(ps, amount);
    var m :| 0 <= m < |ps| && amount(ps[m]) == Some(r.hundredths)
      && forall q :: 0 <= q < m ==> !Positive(amount(ps[q]));
    assert m == k;
  }

  /**
   * The amount of each pattern over the lines, `amountOf(p)` reading one line
   * for pattern `p`: that of the first line yielding one.
   */
  function AmountPerPattern<P>(amountOf: P -> string -> Option<nat>, lines: seq<string>): P -> Option<nat> {
    (p: P) => FirstSome(lines, amountOf(p))
  }

  /**
   * The nested loops of `total_guess`: patterns in order, and for each the
   * lines top to bottom until one yields an amount; a non-zero amount ends
   * the search, a zero one is kept but does not.
   */
  method GuessLoop<P>(amountOf: P -> string -> Option<nat>, patterns: seq<P>, lines: seq<string>) returns (r: Total)
    ensures r == FirstPositive(patterns, AmountPerPattern(amountOf, lines))
  {
    var totalGuess: Option<nat> := None;
    var k := 0;
    while k < |patterns|
      invariant 0 <= k <= |patterns|
      invariant !Positive(totalGuess)
      invariant forall q :: 0 <= q < k ==> !Positive(FirstSome(lines, amountOf(patterns[q])))
    {
      var pattern := patterns[k];
      var j := 0;
      while j < |lines|
        invariant 0 <= j <= |lines|
        invariant !Positive(totalGuess)
        invariant forall l :: 0 <= l < j ==> amountOf(pattern)(lines[l]).None?
      {
        var found := amountOf(pattern)(lines[j]);
        if found.Some? {
          totalGuess := found;
          FirstSomeAt(lines, amountOf(pattern), j);
          break;
        }
        j := j + 1;
      }
      if Positive(totalGuess) {
        FirstPositiveAt(patterns, AmountPerPattern(amountOf, lines), k);
        break;
      }
      k := k + 1;
    }
    FirstPositiveSpec(patterns, AmountPerPattern(amountOf, lines));
    r := if Positive(totalGuess) then Amount(totalGuess.value) else NotAvailable;
  }

  /** `total_guess` over the given lines, with the receipt's own patterns. */
  function GuessTotal(lines: seq<string>): (r: Total)
    ensures r.Amount? ==> r.hundredths > 0
  {
    FirstPositive(TotalPatterns, AmountPerPattern(LineAmountOf, lines))
  }

  /** A receipt line reading `SUBTOTALE`, a tab and an amount. */
  function SubtotalLine(v: nat, sep: char): string
    requires IsDecimalSeparator(sep)
  {
    "SUBTOTALE" + "\t" + FormatAmount(v, sep)
  }

  /** A phrase holding a space occurs in no text without spaces. */
  lemma NoSpaceNoMatch(s: string, phrase: string, k: nat)
    requires k < |phrase| && phrase[k] == ' '
    requires forall j :: 0 <= j < |s| ==> s[j] != ' '
    ensures !ContainsCI(s, phrase)
  {
    forall i | 0 <= i <= |s| ensures !MatchesAtCI(s, phrase, i) {
      if i + |phrase| <= |s| {
        assert FoldCase(s[i + k]) != FoldCase(phrase[k]);
      }
    }
  }

  lemma SubtotalLineShape(v: nat, sep: char)
    requires IsDecimalSeparator(sep)
    ensures SubtotalLine(v, sep) != [] && SubtotalLine(v, sep)[0] == 'S'
    ensures forall j :: 0 <= j < |SubtotalLine(v, sep)| ==> SubtotalLine(v, sep)[j] != ' '
    ensures Strip(SubtotalLine(v, sep)) == SubtotalLine(v, sep)
  {
    var line := SubtotalLine(v, sep);
    var w := NatToDigits(v / 100);
    assert line == "SUBTOTALE\t" + w + [sep, DigitChar(v % 100 / 10), DigitChar(v % 10)];
    forall j | 0 <= j < |line| ensures line[j] != ' ' {
      if 10 <= j < 10 + |w| {
        assert line[j] == w[j - 10] && IsDigit(w[j - 10]);
      }
    }
    StripClean(line);
  }

  /** A line whose stripped text the pattern misses yields no amount. */
  lemma NoMatchNoAmount(p: TotalPattern, line: string)
    requires !PatternMatches(p, Strip(line))
    ensures LineAmount(p, line).None?
  {
  }

  /**
   * The patterns before the subtotal one miss a line that starts with `S` and
   * holds no space, as a subtotal line does.
   */
  lemma SubtotalMissesEarlierPatterns(q: nat, line: string)
    requires q < 3 && line != [] && line[0] == 'S'
    requires forall j :: 0 <= j < |line| ==> line[j] != ' '
    ensures !PatternMatches(TotalPatterns[q], line)
  {
    if q == 0 {
      NoSpaceNoMatch(line, "TOTALE COMPLESSIVO", 6);
    } else if q == 1 {
      assert FoldCase(line[0]) != FoldCase("TOTALE"[0]);
    } else {
      NoSpaceNoMatch(line, "IMPORTO PAGATO", 7);
    }
  }

  /** The caption of a subtotal line matches the subtotal pattern and holds no tab. */
  lemma SubtotalCaption()
    ensures "SUBTOTALE" != [] && !IsSpace("SUBTOTALE"[0]) && '\t' !in "SUBTOTALE"
    ensures PatternMatches(TotalPatterns[3], "SUBTOTALE")
  {
    assert MatchesAtCI("SUBTOTALE", "SUBTOTALE", 0);
  }

  /**
   * A subtotal line alone gives the guess: no earlier pattern matches it, since
   * `^TOTALE` is anchored at the start of the line.
   */
  lemma SubtotalOnly(v: nat, sep: char)
    requires IsDecimalSeparator(sep) && v > 0
    ensures GuessTotal([SubtotalLine(v, sep)]) == Amount(v)
  {
    var amount := AmountPerPattern(LineAmountOf, [SubtotalLine(v, sep)]);
    SubtotalEarlierNone(v, sep);
    SubtotalAmount(v, sep);
    FirstPositiveAt(TotalPatterns, amount, 3);
  }

  /** The first three patterns find no amount in a subtotal line. */
  lemma SubtotalEarlierNone(v: nat, sep: char)
    requires IsDecimalSeparator(sep)
    ensures forall q :: 0 <= q < 3 ==>
      AmountPerPattern(LineAmountOf, [SubtotalLine(v, sep)])(TotalPatterns[q]).None?
  {
    var line := SubtotalLine(v, sep);
    SubtotalLineShape(v, sep);
    forall q | 0 <= q < 3
      ensures AmountPerPattern(LineAmountOf, [line])(TotalPatterns[q]).None?
    {
      SubtotalMissesEarlierPatterns(q, line);
      NoMatchNoAmount(TotalPatterns[q], line);
      FirstSomeSingle(line, LineAmountOf(TotalPatterns[q]));
    }
  }

  /** The subtotal pattern reads the amount of a subtotal line. */
  lemma SubtotalAmount(v: nat, sep: char)
    requires IsDecimalSeparator(sep)
    ensures AmountPerPattern(LineAmountOf, [SubtotalLine(v, sep)])(TotalPatterns[3]) == Some(v)
  {
    SubtotalCaption();
    TabbedLineAmount(TotalPatterns[3], "SUBTOTALE", v, sep);
    FirstSomeSingle(SubtotalLine(v, sep), LineAmountOf(TotalPatterns[3]));
  }

  /** `total_guess` when nothing is cached: "n.a." without lines, else the guess from the lines. */
  function GuessOf(lines: Option<seq<string>>): (r: Total)
    ensures lines.None? ==> r == NotAvailable
    ensures r.Amount? ==> r.hundredths > 0
  {
    match lines
    case None => NotAvailable
    case Some(ls) => GuessTotal(ls)
  }

  /** `if self._cached_total_guess:`: a cached 0.0 is falsy, a cached "n.a." truthy. */
  predicate CacheHit(cache: Option<Total>) {
    cache.Some? && (cache.value.NotAvailable? || cache.value.hundredths > 0)
  }

  // ---------------------------------------------------------------- vendor

  /**
   * `vendor`: the first line with every character that is neither a word
   * character nor whitespace removed, then stripped; "n.a." when there are no
   * lines or nothing is left.
   */
  function VendorOf(lines: Option<seq<string>>): (r: string)
    ensures r != []
  {
    if lines.None? || lines.value == [] then NotAvailableText
    else
      var v := Strip(KeepWordAndSpace(lines.value[0]));
      if v == [] then NotAvailableText else v
  }

  /**
   * The vendor is "n.a." exactly when there is no first line or nothing of it
   * survives the cleaning.
   */
  lemma VendorOfSpec(lines: Option<seq<string>>)
    ensures VendorOf(lines) == NotAvailableText <==>
      lines.None? || lines.value == [] || Strip(KeepWordAndSpace(lines.value[0])) == []
  {
    if lines.Some? && lines.value != [] {
      var cleaned := KeepWordAndSpace(lines.value[0]);
      var v := Strip(cleaned);
      // "n.a." holds a '.', which the cleaning removes
      assert |v| >= 2 ==> v[1] in cleaned;
    }
  }

  /**
   * A vendor other than "n.a." is made of word characters and spaces of the
   * first line, with no whitespace around it.
   */
  lemma VendorOfCharacters(lines: Option<seq<string>>)
    ensures VendorOf(lines) != NotAvailableText ==>
      var r := VendorOf(lines);
      && (forall i :: 0 <= i < |r| ==> (IsWordChar(r[i]) || IsSpace(r[i])) && r[i] in lines.value[0])
      && !IsSpace(r[0]) && !IsSpace(r[|r| - 1])
  {
    if lines.Some? && lines.value != [] {
      var cleaned := KeepWordAndSpace(lines.value[0]);
      var v := Strip(cleaned);
      forall i | 0 <= i < |v| ensures (IsWordChar(v[i]) || IsSpace(v[i])) && v[i] in lines.value[0] {
        assert v[i] in cleaned;
      }
    }
  }

  /** A vendor other than "n.a." is the first line, filtered in order and stripped. */
  lemma VendorOfFirstLine(lines: Option<seq<string>>)
    ensures VendorOf(lines) != NotAvailableText ==>
      lines.Some? && lines.value != [] && VendorOf(lines) == Strip(KeepWordAndSpace(lines.value[0]))
  {
  }

  /** A character of the first line that is neither a word character nor whitespace does not change the vendor. */
  lemma VendorOfSkipsPunctuation(before: string, c: char, after: string, rest: seq<string>)
    requires !IsWordChar(c) && !IsSpace(c)
    ensures VendorOf(Some([before + [c] + after] + rest)) == VendorOf(Some([before + after] + rest))
  {
    KeepWordAndSpaceAppend(before + [c], after);
    KeepWordAndSpaceAppend(before, [c]);
    KeepWordAndSpaceChar(c);
    KeepWordAndSpaceAppend(before, after);
    assert KeepWordAndSpace(before) + [] == KeepWordAndSpace(before);
    assert ([before + [c] + after] + rest)[0] == before + [c] + after;
    assert ([before + after] + rest)[0] == before + after;
  }

  /** A first line made only of word characters and inner spaces is the vendor as it is. */
  lemma VendorOfCleanLine(first: string, rest: seq<string>)
    requires first != [] && !IsSpace(first[0]) && !IsSpace(first[|first| - 1])
    requires forall i :: 0 <= i < |first| ==> IsWordChar(first[i]) || IsSpace(first[i])
    ensures VendorOf(Some([first] + rest)) == first
  {
    KeepWordAndSpaceClean(first);
    StripClean(first);
    assert ([first] + rest)[0] == first;
  }

  // ---------------------------------------------------------------- date

  /**
   * `date`: the fields of the first line where the date pattern matches; `None`
   * stands for `datetime.now()`, returned when no line matches.
   */
  function DateOfLines(lines: Option<seq<string>>): (r: Option<DateTime>)
    ensures lines.None? ==> r.None?
    ensures lines.Some? ==>
      (r.None? <==> forall j :: 0 <= j < |lines.value| ==> SearchDate(lines.value[j]).None?)
    ensures r.Some? ==> lines.Some?
    ensures r.Some? ==>
      exists j :: 0 <= j < |lines.value| && SearchDate(lines.value[j]) == r
        && forall q :: 0 <= q < j ==> SearchDate(lines.value[q]).None?
  {
    if lines.None? || lines.value == [] then None else FirstSome(lines.value, SearchDate)
  }

  /** A date written in a line, after lines without any date, is the date of the receipt. */
  lemma DateOfFormattedLine(before: seq<string>, prefix: string, d: DateTime, st: DateStyle, suffix: string,
                            after: seq<string>)
    requires forall j :: 0 <= j < |before| ==> SearchDate(before[j]).None?
    requires ValidStyle(st) && NoDigits(prefix) && (suffix != [] ==> !IsDigit(suffix[0]))
    requires !st.withSeconds ==> !(|suffix| > 1 && IsTimeSeparator(suffix[0]) && IsDigit(suffix[1]))
    ensures DateOfLines(Some(before + [prefix + FormatDate(d, st) + suffix] + after)) == Some(ReadBack(d, st))
  {
    SearchDateRoundTrip(prefix, d, st, suffix);
    FirstSomeAfter(before, prefix + FormatDate(d, st) + suffix, after, SearchDate);
  }

  // ---------------------------------------------------------------- quick total

  const QuickTotalPhrase: string := "totale complessivo"

  /**
   * `re.compile(r'^.*totale complessivo', re.IGNORECASE).match(line)`: the
   * phrase occurs after a prefix free of newlines (`.` does not match `"\n"`).
   */
  predicate MatchesQuickTotal(line: string) {
    exists i :: 0 <= i <= |line| && (forall k :: 0 <= k < i ==> line[k] != '\n')
      && MatchesAtCI(line, QuickTotalPhrase, i)
  }

  /** On a line without newlines, the quick-total pattern is a plain search for the phrase. */
  lemma MatchesQuickTotalSearch(line: string)
    requires '\n' !in line
    ensures MatchesQuickTotal(line) <==> ContainsCI(line, QuickTotalPhrase)
  {
    if ContainsCI(line, QuickTotalPhrase) {
      var i :| 0 <= i <= |line| && MatchesAtCI(line, QuickTotalPhrase, i);
      assert forall k :: 0 <= k < i ==> line[k] != '\n' by {
        forall k | 0 <= k < i ensures line[k] != '\n' {
          assert line[k] in line;
        }
      }
    }
  }

  /** Only whitespace: what `len(col.strip()) == 0` tests (see `Strip`'s contract). */
  predicate AllSpace(s: string) {
    forall i :: 0 <= i < |s| ==> IsSpace(s[i])
  }

  /** `[col for col in columns if len(col.strip()) > 0]`. */
  function NonBlank(columns: seq<string>): (r: seq<string>)
    ensures |r| <= |columns|
    ensures forall i :: 0 <= i < |r| ==> !AllSpace(r[i])
  {
    if columns == [] then []
    else
      var rest := NonBlank(columns[1..]);
      if !AllSpace(columns[0]) then [columns[0]] + rest else rest
  }

  /** The filter keeps exactly the non-blank columns. */
  lemma {:induction false} NonBlankMembers(columns: seq<string>)
    ensures forall i :: 0 <= i < |NonBlank(columns)| ==> NonBlank(columns)[i] in columns
    ensures forall i :: 0 <= i < |columns| && !AllSpace(columns[i]) ==> columns[i] in NonBlank(columns)
  {
    if columns != [] {
      NonBlankMembers(columns[1..]);
      assert forall i :: 1 <= i < |columns| ==> columns[i] == columns[1..][i - 1];
    }
  }

  /** The filter keeps the order of the columns: filtering a concatenation filters each part. */
  lemma {:induction false} NonBlankAppend(a: seq<string>, b: seq<string>)
    ensures NonBlank(a + b) == NonBlank(a) + NonBlank(b)
    decreases |a|
  {
    if a == [] {
      assert a + b == b;
    } else {
      assert (a + b)[0] == a[0];
      assert (a + b)[1..] == a[1..] + b;
      NonBlankAppend(a[1..], b);
    }
  }

  /** Column `k` is not blank and every column after it is. */
  predicate LastNonBlankAt(columns: seq<string>, k: nat) {
    k < |columns| && !AllSpace(columns[k]) && forall m :: k < m < |columns| ==> AllSpace(columns[m])
  }

  /** The last column the filter keeps is the last non-blank column. */
  lemma {:induction false} NonBlankLast(columns: seq<string>)
    requires NonBlank(columns) != []
    ensures exists k: nat :: LastNonBlankAt(columns, k) && columns[k] == NonBlank(columns)[|NonBlank(columns)| - 1]
  {
    var rest := NonBlank(columns[1..]);
    if rest != [] {
      NonBlankLast(columns[1..]);
      var k: nat :| LastNonBlankAt(columns[1..], k) && columns[1..][k] == rest[|rest| - 1];
      assert LastNonBlankAt(columns, k + 1) by {
        forall m | k + 1 < m < |columns| ensures AllSpace(columns[m]) {
          assert columns[m] == columns[1..][m - 1];
        }
      }
    } else {
      NonBlankEmpty(columns[1..]);
      assert LastNonBlankAt(columns, 0) by {
        forall m | 0 < m < |columns| ensures AllSpace(columns[m]) {
          assert columns[m] == columns[1..][m - 1];
        }
      }
    }
  }

  /** Nothing is kept only when every column is blank. */
  lemma {:induction false} NonBlankEmpty(columns: seq<string>)
    ensures NonBlank(columns) == [] <==> forall i :: 0 <= i < |columns| ==> AllSpace(columns[i])
  {
    if columns != [] {
      NonBlankEmpty(columns[1..]);
      assert forall i :: 1 <= i < |columns| ==> columns[i] == columns[1..][i - 1];
    }
  }

  /** `[col for col in columns if len(col.strip()) > 0][-1]`: the last non-blank column. */
  function LastNonBlank(columns: seq<string>): (r: string)
    requires NonBlank(columns) != []
    ensures r in columns && !AllSpace(r)
    ensures exists k: nat :: LastNonBlankAt(columns, k) && columns[k] == r
  {
    NonBlankLast(columns);
    NonBlank(columns)[|NonBlank(columns)| - 1]
  }

  /** A matching line has a non-blank column: the one holding the phrase's first letter. */
  lemma QuickTotalHasColumn(line: string)
    requires MatchesQuickTotal(line)
    ensures NonBlank(Split(line, '\t')) != []
  {
    var i :| 0 <= i <= |line| && (forall k :: 0 <= k < i ==> line[k] != '\n')
      && MatchesAtCI(line, QuickTotalPhrase, i);
    assert FoldCase(line[i + 0]) == FoldCase(QuickTotalPhrase[0]);
    assert !IsSpace(line[i]) && line[i] != '\t';
    SplitKeepsChar(line, '\t', i);
    var columns := Split(line, '\t');
    var c :| 0 <= c < |columns| && line[i] in columns[c];
    assert !AllSpace(columns[c]);
    NonBlankMembers(columns);
  }

  /** The last non-blank tab column of a line matching the quick-total pattern. */
  function QuickTotalOfLine(line: string): (r: Option<string>)
    ensures r.Some? <==> MatchesQuickTotal(line)
    ensures r.Some? ==> r.value in Split(line, '\t') && !AllSpace(r.value)
    ensures r.Some? ==> exists k: nat :: LastNonBlankAt(Split(line, '\t'), k) && Split(line, '\t')[k] == r.value
  {
    if MatchesQuickTotal(line) then
      QuickTotalHasColumn(line);
      Some(LastNonBlank(Split(line, '\t')))
    else None
  }

  /** Two non-blank columns without tabs, joined by a tab, are the line's non-blank columns. */
  lemma TabbedColumns(caption: string, total: string)
    requires '\t' !in caption && '\t' !in total && !AllSpace(caption) && !AllSpace(total)
    ensures NonBlank(Split(caption + "\t" + total, '\t')) == [caption, total]
  {
    SplitNoSeparator(total, '\t');
    SplitAfterPart(caption, total, '\t');
    assert NonBlank([caption, total]) == [caption] + NonBlank([total]);
  }

  /** A line holding the phrase, a tab and a non-blank last column yields that column. */
  lemma QuickTotalOfTabbedLine(caption: string, total: string)
    requires ContainsCI(caption, QuickTotalPhrase) && '\n' !in caption && '\t' !in caption
    requires '\n' !in total && '\t' !in total && !AllSpace(total)
    ensures QuickTotalOfLine(caption + "\t" + total) == Some(total)
  {
    var line := caption + "\t" + total;
    var i :| 0 <= i <= |caption| && MatchesAtCI(caption, QuickTotalPhrase, i);
    assert FoldCase(caption[i + 0]) == FoldCase(QuickTotalPhrase[0]);
    TabbedColumns(caption, total);
    PatternMatchesExtended(Anywhere(QuickTotalPhrase), caption, "\t" + total);
    assert line == caption + ("\t" + total);
    MatchesQuickTotalSearch(line);
  }

  /** The quick total of the first matching line. */
  function QuickTotalOfLines(lines: seq<string>): (r: Option<string>)
    ensures r.None? <==> forall j :: 0 <= j < |lines| ==> !MatchesQuickTotal(lines[j])
    ensures r.Some? ==>
      exists j :: 0 <= j < |lines| && QuickTotalOfLine(lines[j]) == r
        && forall q :: 0 <= q < j ==> !MatchesQuickTotal(lines[q])
    ensures FirstQuickTotal(lines, r)
  {
    FirstSome(lines, QuickTotalOfLine)
  }

  /**
   * `r` is what the first line with a quick total yields, or `None` when no
   * line has one.
   */
  predicate FirstQuickTotal(lines: seq<string>, r: Option<string>) {
    && (r.None? <==> forall j :: 0 <= j < |lines| ==> QuickTotalOfLine(lines[j]).None?)
    && (r.Some? ==>
          exists j :: (0 <= j < |lines| && QuickTotalOfLine(lines[j]) == r
            && forall q :: 0 <= q < j ==> QuickTotalOfLine(lines[q]).None?))
  }

  /**
   * `quick_total_from_parsed_text`: over the text of the first page split on
   * `"\n"`, the last non-blank tab column of the first matching line, or `None`.
   * The first page must exist (`parsed_results[0]`).
   */
  function QuickTotal(result: OcrResult): (r: Option<string>)
    requires |result.parsedResults| > 0
    ensures FirstQuickTotal(Split(result.parsedResults[0].parsedText, '\n'), r)
  {
    QuickTotalOfLines(Split(result.parsedResults[0].parsedText, '\n'))
  }

  // ---------------------------------------------------------------- the summary

  /** `ReceiptSummary`: the OCR result it reads and the (never written) cached total. */
  class ReceiptSummary {
    var ocrspaceResults: Option<OcrResult>
    var cachedTotalGuess: Option<Total>

    constructor()
      ensures ocrspaceResults == None && cachedTotalGuess == None
    {
      ocrspaceResults := None;
      cachedTotalGuess := None;
    }

    /** The `ocrspace_results` setter: new results drop the cached total. */
    method SetOcrspaceResults(results: Option<OcrResult>)
      modifies this
      ensures ocrspaceResults == results && cachedTotalGuess == None
    {
      cachedTotalGuess := None;
      ocrspaceResults := results;
    }

    /** Results, when present, have a first page (`parsed_results[0]`). */
    predicate HasFirstPage()
      reads this
    {
      ocrspaceResults.Some? ==> |ocrspaceResults.value.parsedResults| > 0
    }

    /** `parsed_text_lines()`: the lines of the first page's text, or `None` without results. */
    function ParsedTextLines(): (r: Option<seq<string>>)
      reads this
      requires HasFirstPage()
      ensures r.None? <==> ocrspaceResults.None?
      ensures r.Some? ==> forall i :: 0 <= i < |r.value| ==> NoLineBoundary(r.value[i])
      ensures r.Some? ==> r.value == SplitLines(ocrspaceResults.value.parsedResults[0].parsedText)
    {
      if ocrspaceResults.Some? then
        var lines := SplitLines(ocrspaceResults.value.parsedResults[0].parsedText);
        assert forall i :: 0 <= i < |lines| ==> NoLineBoundary(lines[i]);
        Some(lines)
      else None
    }

    /** `vendor`, over the lines of the first page. */
    function Vendor(): (r: string)
      reads this
      requires HasFirstPage()
      ensures r != []
      ensures ocrspaceResults.None? ==> r == NotAvailableText
    {
      VendorOf(ParsedTextLines())
    }

    /** `date`, over the lines of the first page; `None` stands for `datetime.now()`. */
    function Date(): (r: Option<DateTime>)
      reads this
      requires HasFirstPage()
      ensures ocrspaceResults.None? ==> r.None?
      ensures ocrspaceResults.Some? ==>
        (r.None? <==> forall j :: 0 <= j < |ParsedTextLines().value| ==> SearchDate(ParsedTextLines().value[j]).None?)
      ensures r.Some? ==>
        exists j :: 0 <= j < |ParsedTextLines().value| && SearchDate(ParsedTextLines().value[j]) == r
          && forall q :: 0 <= q < j ==> SearchDate(ParsedTextLines().value[q]).None?
    {
      DateOfLines(ParsedTextLines())
    }

    /**
     * `total_guess()`: a truthy cached value wins; otherwise the patterns are
     * tried in order over the lines top to bottom, the inner scan stopping at
     * the first line that yields an amount and the outer one at the first
     * non-zero amount.
     */
    method TotalGuess() returns (r: Total)
      requires HasFirstPage()
      ensures CacheHit(cachedTotalGuess) ==> r == cachedTotalGuess.value
      ensures !CacheHit(cachedTotalGuess) ==> r == GuessOf(ParsedTextLines())
    {
      var parsedTextLines := ParsedTextLines();
      if CacheHit(cachedTotalGuess) {
        return cachedTotalGuess.value;
      }
      if parsedTextLines.Some? && |parsedTextLines.value| > 0 {
        r := GuessLoop(LineAmountOf, TotalPatterns, parsedTextLines.value);
      } else {
        if parsedTextLines.Some? {
          FirstPositiveSpec(TotalPatterns, AmountPerPattern(LineAmountOf, parsedTextLines.value));
        }
        r := NotAvailable;
      }
    }
  }
}
