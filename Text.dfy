/**
 * The Python `str` operations and regular-expression character classes that the
 * receipt heuristics use: `isspace` (also `\s`), `strip`, `split`, `splitlines`,
 * `\w`, `\d`, `int` of a digit string, and case-insensitive matching.
 */
module Text {

  /** `str.isspace()` for one character; a `str` pattern's `\s` matches the same set. */
  predicate IsSpace(c: char) {
    || ('\t' <= c <= '\r')
    || ('\U{1C}' <= c <= ' ')
    || c == '\U{85}' || c == '\U{A0}' || c == '\U{1680}'
    || ('\U{2000}' <= c <= '\U{200A}')
    || c == '\U{2028}' || c == '\U{2029}' || c == '\U{202F}' || c == '\U{205F}' || c == '\U{3000}'
  }

  /** The characters at which `str.splitlines()` ends a line. */
  predicate IsLineBoundary(c: char) {
    || c == '\n' || c == '\r' || c == '\U{0B}' || c == '\U{0C}'
    || ('\U{1C}' <= c <= '\U{1E}')
    || c == '\U{85}' || c == '\U{2028}' || c == '\U{2029}'
  }

  /** `\d`, restricted to ASCII digits. */
  predicate IsDigit(c: char) {
    '0' <= c <= '9'
  }

  /** `\w`, restricted to ASCII letters, digits and the underscore. */
  predicate IsWordChar(c: char) {
    ('a' <= c <= 'z') || ('A' <= c <= 'Z') || IsDigit(c) || c == '_'
  }

  // ---------------------------------------------------------------- strip

  function StripLeading(s: string): (r: string)
    ensures |r| <= |s| && r == s[|s| - |r|..]
    ensures forall i :: 0 <= i < |s| - |r| ==> IsSpace(s[i])
    ensures r != [] ==> !IsSpace(r[0])
  {
    if s != [] && IsSpace(s[0]) then StripLeading(s[1..]) else s
  }

  function StripTrailing(s: string): (r: string)
    ensures |r| <= |s| && r == s[..|r|]
    ensures forall i :: |r| <= i < |s| ==> IsSpace(s[i])
    ensures r != [] ==> !IsSpace(r[|r| - 1])
  {
    if s != [] && IsSpace(s[|s| - 1]) then StripTrailing(s[..|s| - 1]) else s
  }

  /** `r` is what lies in `s` from index `a` on, with only whitespace before it and after it. */
  predicate StrippedAt(s: string, a: nat, r: string) {
    && a + |r| <= |s| && r == s[a..a + |r|]
    && (forall i :: 0 <= i < a ==> IsSpace(s[i]))
    && (forall i :: a + |r| <= i < |s| ==> IsSpace(s[i]))
  }

  /** `str.strip()` with no argument: leading and trailing whitespace removed. */
  function Strip(s: string): (r: string)
    ensures |r| <= |s|
    ensures r != [] ==> !IsSpace(r[0]) && !IsSpace(r[|r| - 1])
    ensures r == [] <==> forall i :: 0 <= i < |s| ==> IsSpace(s[i])
    ensures forall i :: 0 <= i < |r| ==> r[i] in s
    ensures exists a :: StrippedAt(s, a, r)
  {
    var lead := StripLeading(s);
    var r := StripTrailing(lead);
    StrippedBetween(s, lead, r);
    StrippedFacts(s, |s| - |lead|, r);
    r
  }

  /** Trailing whitespace removed from what is left once leading whitespace is removed. */
  lemma StrippedBetween(s: string, lead: string, r: string)
    requires |lead| <= |s| && lead == s[|s| - |lead|..]
    requires forall i :: 0 <= i < |s| - |lead| ==> IsSpace(s[i])
    requires |r| <= |lead| && r == lead[..|r|]
    requires forall i :: |r| <= i < |lead| ==> IsSpace(lead[i])
    ensures StrippedAt(s, |s| - |lead|, r)
  {
    var a := |s| - |lead|;
    assert r == s[a..a + |r|];
    forall i | a + |r| <= i < |s| ensures IsSpace(s[i]) {
      assert s[i] == lead[i - a];
    }
  }

  /** What `StrippedAt` says about a result that does not start with whitespace. */
  lemma StrippedFacts(s: string, a: nat, r: string)
    requires StrippedAt(s, a, r)
    requires r != [] ==> !IsSpace(r[0])
    ensures r == [] <==> forall i :: 0 <= i < |s| ==> IsSpace(s[i])
    ensures forall i :: 0 <= i < |r| ==> r[i] in s
  {
    assert forall i :: 0 <= i < |r| ==> r[i] == s[a + i];
    if r != [] {
      assert !IsSpace(s[a + 0]);
    }
  }

  /** A string that already has no surrounding whitespace is left as it is. */
  lemma StripClean(s: string)
    requires s != [] ==> !IsSpace(s[0]) && !IsSpace(s[|s| - 1])
    ensures Strip(s) == s
  {
  }

  /** Stripping twice is stripping once. */
  lemma StripIdempotent(s: string)
    ensures Strip(Strip(s)) == Strip(s)
  {
    StripClean(Strip(s));
  }

  // ---------------------------------------------------------------- split

  /** `s.split(sep)` for a one-character separator: always at least one part. */
  function Split(s: string, sep: char): (parts: seq<string>)
    ensures |parts| >= 1
    ensures forall i :: 0 <= i < |parts| ==> sep !in parts[i]
    ensures |parts| > 1 <==> sep in s
  {
    if s == [] then [[]]
    else
      var rest := Split(s[1..], sep);
      assert sep in s <==> s[0] == sep || sep in s[1..];
      if s[0] == sep then [[]] + rest
      else [[s[0]] + rest[0]] + rest[1..]
  }

  /** `sep.join(parts)` for a one-character separator. */
  function Join(parts: seq<string>, sep: char): string
  {
    if parts == [] then []
    else if |parts| == 1 then parts[0]
    else parts[0] + [sep] + Join(parts[1..], sep)
  }

  lemma {:induction false} SplitJoin(s: string, sep: char)
    ensures Join(Split(s, sep), sep) == s
  {
    if s != [] {
      SplitJoin(s[1..], sep);
      var rest := Split(s[1..], sep);
      if s[0] == sep {
        assert Split(s, sep) == [[]] + rest;
      } else {
        var parts := Split(s, sep);
        assert parts == [[s[0]] + rest[0]] + rest[1..];
        if |rest| == 1 {
          assert Join(parts, sep) == [s[0]] + rest[0];
        } else {
          assert Join(rest, sep) == rest[0] + [sep] + Join(rest[1..], sep);
          assert parts[1..] == rest[1..];
        }
      }
    }
  }

  lemma {:induction false} JoinSplit(parts: seq<string>, sep: char)
    requires |parts| >= 1
    requires forall i :: 0 <= i < |parts| ==> sep !in parts[i]
    ensures Split(Join(parts, sep), sep) == parts
  {
    if |parts| == 1 {
      SplitNoSeparator(parts[0], sep);
    } else {
      JoinSplit(parts[1..], sep);
      SplitAfterPart(parts[0], Join(parts[1..], sep), sep);
    }
  }

  lemma {:induction false} SplitNoSeparator(s: string, sep: char)
    requires sep !in s
    ensures Split(s, sep) == [s]
  {
    if s != [] {
      assert sep !in s[1..];
      SplitNoSeparator(s[1..], sep);
      assert [s[0]] + s[1..] == s;
    }
  }

  lemma {:induction false} SplitAfterPart(p: string, t: string, sep: char)
    requires sep !in p
    ensures Split(p + [sep] + t, sep) == [p] + Split(t, sep)
  {
    if p == [] {
      assert ([sep] + t)[1..] == t;
    } else {
      assert (p + [sep] + t)[1..] == p[1..] + [sep] + t;
      SplitAfterPart(p[1..], t, sep);
      assert [p[0]] + p[1..] == p;
    }
  }

  /** Every character of `s` other than the separator lands in some part. */
  lemma {:induction false} SplitKeepsChar(s: string, sep: char, k: nat)
    requires k < |s| && s[k] != sep
    ensures exists i :: 0 <= i < |Split(s, sep)| && s[k] in Split(s, sep)[i]
  {
    var rest := Split(s[1..], sep);
    if k == 0 {
      assert s[0] in Split(s, sep)[0];
    } else {
      SplitKeepsChar(s[1..], sep, k - 1);
      var i :| 0 <= i < |rest| && s[1..][k - 1] in rest[i];
      if s[0] == sep {
        assert Split(s, sep)[i + 1] == rest[i];
      } else if i == 0 {
        assert Split(s, sep)[0] == [s[0]] + rest[0];
      } else {
        assert Split(s, sep)[i] == rest[i];
      }
    }
  }

  // ---------------------------------------------------------------- splitlines

  /** The first index at or after `i` holding a line boundary, or `|s|`. */
  function LineEnd(s: string, i: nat): (j: nat)
    requires i <= |s|
    ensures i <= j <= |s|
    ensures forall k :: i <= k < j ==> !IsLineBoundary(s[k])
    ensures j < |s| ==> IsLineBoundary(s[j])
    decreases |s| - i
  {
    if i == |s| || IsLineBoundary(s[i]) then i else LineEnd(s, i + 1)
  }

  /**
   * `str.splitlines()`: lines end at any line boundary, `"\r\n"` counts as one
   * boundary, and a final boundary does not open an empty last line.
   */
  function SplitLines(s: string): (lines: seq<string>)
    ensures forall i, k :: 0 <= i < |lines| && 0 <= k < |lines[i]| ==> !IsLineBoundary(lines[i][k])
    ensures lines == [] <==> s == []
    decreases |s|
  {
    if s == [] then []
    else
      var j := LineEnd(s, 0);
      if j == |s| then [s]
      else
        var next := if s[j] == '\r' && j + 1 < |s| && s[j + 1] == '\n' then j + 2 else j + 1;
        [s[..j]] + SplitLines(s[next..])
  }

  predicate NoLineBoundary(s: string) {
    forall k :: 0 <= k < |s| ==> !IsLineBoundary(s[k])
  }

  /** Lines joined with `"\n"` split back into the same lines, when the last one is not empty. */
  lemma {:induction false} SplitLinesJoin(lines: seq<string>)
    requires forall i :: 0 <= i < |lines| ==> NoLineBoundary(lines[i])
    requires lines != [] ==> lines[|lines| - 1] != []
    ensures SplitLines(Join(lines, '\n')) == lines
  {
    if |lines| == 1 {
      assert LineEnd(lines[0], 0) == |lines[0]|;
    } else if |lines| > 1 {
      var s := Join(lines, '\n');
      var t := Join(lines[1..], '\n');
      assert s == lines[0] + ['\n'] + t;
      assert s[|lines[0]|] == '\n';
      assert forall k :: 0 <= k < |lines[0]| ==> s[k] == lines[0][k];
      assert LineEnd(s, 0) == |lines[0]|;
      assert s[..|lines[0]|] == lines[0];
      assert s[|lines[0]| + 1..] == t;
      SplitLinesJoin(lines[1..]);
    }
  }

  /** A line, then a boundary that does not start `"\r\n"`: the line is split off and the rest split on. */
  lemma SplitLinesBoundary(p: string, b: char, t: string)
    requires NoLineBoundary(p) && IsLineBoundary(b)
    requires !(b == '\r' && t != [] && t[0] == '\n')
    ensures SplitLines(p + [b] + t) == [p] + SplitLines(t)
  {
    var s := p + [b] + t;
    assert forall k :: 0 <= k < |p| ==> s[k] == p[k];
    assert s[|p|] == b;
    assert LineEnd(s, 0) == |p|;
    assert s[..|p|] == p;
    assert s[|p| + 1..] == t;
  }

  /** A line ended by `"\r\n"`: the two characters count as one boundary. */
  lemma SplitLinesCrLf(p: string, t: string)
    requires NoLineBoundary(p)
    ensures SplitLines(p + "\r\n" + t) == [p] + SplitLines(t)
  {
    var s := p + "\r\n" + t;
    assert forall k :: 0 <= k < |p| ==> s[k] == p[k];
    assert s[|p|] == '\r' && s[|p| + 1] == '\n';
    assert LineEnd(s, 0) == |p|;
    assert s[..|p|] == p;
    assert s[|p| + 2..] == t;
  }

  /** Text without a boundary is one line. */
  lemma SplitLinesOne(p: string)
    requires p != [] && NoLineBoundary(p)
    ensures SplitLines(p) == [p]
  {
    assert LineEnd(p, 0) == |p|;
  }

  // ---------------------------------------------------------------- \w filter

  /** `re.sub(r'[^\w\s]', "", s)`: drops every character that is neither a word character nor whitespace. */
  function KeepWordAndSpace(s: string): (r: string)
    ensures |r| <= |s|
    ensures forall c :: c in r <==> c in s && (IsWordChar(c) || IsSpace(c))
  {
    if s == [] then []
    else
      var rest := KeepWordAndSpace(s[1..]);
      assert s == [s[0]] + s[1..];
      if IsWordChar(s[0]) || IsSpace(s[0]) then [s[0]] + rest else rest
  }

  /** One character is kept exactly when it is a word character or whitespace. */
  lemma KeepWordAndSpaceChar(c: char)
    ensures KeepWordAndSpace([c]) == if IsWordChar(c) || IsSpace(c) then [c] else []
  {
    assert [c][1..] == [];
  }

  /** The filter works character by character, keeping the order of what it keeps. */
  lemma {:induction false} KeepWordAndSpaceAppend(a: string, b: string)
    ensures KeepWordAndSpace(a + b) == KeepWordAndSpace(a) + KeepWordAndSpace(b)
    decreases |a|
  {
    if a != [] {
      assert (a + b)[0] == a[0];
      assert (a + b)[1..] == a[1..] + b;
      KeepWordAndSpaceAppend(a[1..], b);
    } else {
      assert a + b == b;
    }
  }

  /** A string made only of word characters and whitespace is left unchanged. */
  lemma {:induction false} KeepWordAndSpaceClean(s: string)
    requires forall i :: 0 <= i < |s| ==> IsWordChar(s[i]) || IsSpace(s[i])
    ensures KeepWordAndSpace(s) == s
  {
    if s != [] {
      KeepWordAndSpaceClean(s[1..]);
    }
  }

  // ---------------------------------------------------------------- digits

  predicate AllDigits(s: string) {
    forall i :: 0 <= i < |s| ==> IsDigit(s[i])
  }

  /** The first index at or after `i` that does not hold a digit, or `|s|`. */
  function DigitRunEnd(s: string, i: nat): (j: nat)
    requires i <= |s|
    ensures i <= j <= |s|
    ensures forall k :: i <= k < j ==> IsDigit(s[k])
    ensures j < |s| ==> !IsDigit(s[j])
    decreases |s| - i
  {
    if i < |s| && IsDigit(s[i]) then DigitRunEnd(s, i + 1) else i
  }

  /** The first index at or after `i` that does not hold whitespace, or `|s|`. */
  function SpaceRunEnd(s: string, i: nat): (j: nat)
    requires i <= |s|
    ensures i <= j <= |s|
    ensures forall k :: i <= k < j ==> IsSpace(s[k])
    ensures j < |s| ==> !IsSpace(s[j])
    decreases |s| - i
  {
    if i < |s| && IsSpace(s[i]) then SpaceRunEnd(s, i + 1) else i
  }

  function DigitChar(d: nat): (c: char)
    requires d < 10
    ensures IsDigit(c)
  {
    ('0' as int + d) as char
  }

  /** The value of an ASCII digit (0 for any other character). */
  function DigitValue(c: char): (d: nat)
    ensures d < 10
  {
    if IsDigit(c) then c as int - '0' as int else 0
  }

  /**
   * Python's `int(s)` on a string of ASCII digits; the model only applies it
   * to such strings.
   */
  function DigitsValue(s: string): nat {
    if s == [] then 0 else DigitsValue(s[..|s| - 1]) * 10 + DigitValue(s[|s| - 1])
  }

  /** Python's `str(n)` for a natural number. */
  function NatToDigits(n: nat): (s: string)
    ensures s != [] && AllDigits(s)
  {
    if n < 10 then [DigitChar(n)] else NatToDigits(n / 10) + [DigitChar(n % 10)]
  }

  lemma {:induction false} DigitsRoundTrip(n: nat)
    ensures DigitsValue(NatToDigits(n)) == n
  {
    if n >= 10 {
      DigitsRoundTrip(n / 10);
      var s := NatToDigits(n);
      assert s[..|s| - 1] == NatToDigits(n / 10);
    }
  }

  // ---------------------------------------------------------------- case-insensitive matching

  /**
   * The case folding under which a `re.IGNORECASE` pattern made of ASCII letters
   * matches: ASCII letters fold to lower case, and the four non-ASCII letters
   * that Python's `re` also equates with ASCII letters ('İ' U+0130, 'ı' U+0131,
   * 'ſ' U+017F, 'K' U+212A) fold to 'i', 'i', 's' and 'k'.
   */
  function FoldCase(c: char): char {
    if 'A' <= c <= 'Z' then (c as int + 32) as char
    else if c == '\U{130}' || c == '\U{131}' then 'i'
    else if c == '\U{17F}' then 's'
    else if c == '\U{212A}' then 'k'
    else c
  }

  /** `p` occurs in `s` at index `i`, ignoring case. */
  predicate MatchesAtCI(s: string, p: string, i: nat) {
    i + |p| <= |s| && forall k :: 0 <= k < |p| ==> FoldCase(s[i + k]) == FoldCase(p[k])
  }

  /** `re.search(p, s, re.IGNORECASE)` for a literal pattern `p`. */
  predicate ContainsCI(s: string, p: string) {
    exists i :: 0 <= i <= |s| && MatchesAtCI(s, p, i)
  }

}
