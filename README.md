# receipt_scanner core, modelled in Dafny

The receipt scanner sends a photo of a shop receipt to the OCR.space service. It then reads three facts out of the JSON answer:

- the vendor: the first text line, cleaned of punctuation;
- the date: the first `day/month/year hour:minute[:second]` found;
- the total: a value found next to `TOTALE COMPLESSIVO`, `^TOTALE`, `IMPORTO PAGATO` or `SUBTOTALE`.

It also rebuilds a table of rows and columns from the word boxes of one page, and has a quick total that reads the last non-blank tab column of the first `totale complessivo` line.

This project models that core, `ocr_space.py`. It proves what the code promises about the model.

| file | what it holds |
|---|---|
| `Optional.dfy` | `Option` |
| `Text.dfy` | Python's `str` operations used by the core: `strip`, `split` on one character, `splitlines`, the `[^\w\s]` filter, `int()` / `str()` of digit strings, case-insensitive literal search |
| `Geometry.dfy` | `OCRSpaceWord` / `OCRSpaceLine` as values; their `right`, `bottom`, `left_bound`, `right_bound`, `upper_bound`, `lower_bound` and `is_same_line` |
| `Sorting.dfy` | Python's stable `sorted(key=...)` as insertion sort, proved sorted, a permutation, and stable |
| `Table.dfy` | the overlay, the parsed page and the whole result; `lines_sorted_by_upperbound` and `tableize` (the loop as a method); a corrected `tableize` |
| `Matching.dfy` | the amount regex `\d+[.,]\d{2}` and the date regex, with round trips from written amounts and dates |
| `Receipt.dfy` | the total patterns, the total guess (its nested loops as a method), vendor, date, quick total, and `ReceiptSummary` as a class with its two fields |

Amounts are natural numbers of hundredths, read from the digits the regex matched (see "## Left out" for what this leaves aside of `float`). `total_guess`'s result (a float, or the string `"n.a."`) is the datatype `Total`. The date that `datetime.now()` would supply when no line holds a date is `None`.

## Model

| member | source | states |
|---|---|---|
| Text.StripLeading | ocr_space.py:50 | the result is a suffix of the input, everything dropped is whitespace, and it does not start with whitespace |
| Text.StripTrailing | ocr_space.py:50 | the result is a prefix of the input, everything dropped is whitespace, and it does not end with whitespace |
| Text.Strip | ocr_space.py:78 | `strip()`: the result is one contiguous slice of the input with only whitespace before and after it, and it neither starts nor ends with whitespace; empty exactly when the input is all whitespace |
| Text.StrippedBetween | ocr_space.py:78 | removing leading then trailing whitespace leaves the slice between the two whitespace runs |
| Text.StripClean | ocr_space.py:82 | a string with no surrounding whitespace is left unchanged |
| Text.StripIdempotent | ocr_space.py:78-82 | stripping a stripped line changes nothing, so `line.strip()` at 78 and at 82 see the same text |
| Text.Split | ocr_space.py:82 | `split(sep)`: at least one part; no part contains the separator; more than one part exactly when the separator occurs |
| Text.SplitJoin | ocr_space.py:82 | joining the parts with the separator gives back the input |
| Text.JoinSplit | ocr_space.py:82 | separator-free parts, joined and split again, are the same parts |
| Text.SplitNoSeparator | ocr_space.py:269 | a string without the separator splits into itself alone |
| Text.SplitAfterPart | ocr_space.py:82 | a separator-free part, the separator, then a rest: the part comes first, then the split of the rest |
| Text.SplitKeepsChar | ocr_space.py:269 | every non-separator character of the input lies in some part |
| Text.LineEnd | ocr_space.py:102 | the next line boundary at or after an index, or the end |
| Text.SplitLines | ocr_space.py:102 | `splitlines()`: no line contains a line boundary; no lines exactly when the text is empty |
| Text.SplitLinesBoundary | ocr_space.py:102 | a boundary-free line, one boundary character (not a `\r` before `\n`), then a rest: that line, then the lines of the rest |
| Text.SplitLinesCrLf | ocr_space.py:102 | `\r\n` ends a line as one boundary: a boundary-free line, `\r\n`, then a rest gives that line, then the lines of the rest |
| Text.SplitLinesOne | ocr_space.py:102 | a non-empty text without boundaries is one line, itself |
| Text.SplitLinesJoin | ocr_space.py:102 | boundary-free lines (the last one non-empty), joined with newlines, split back into the same lines |
| Text.KeepWordAndSpace | ocr_space.py:50 | `re.sub(r'[^\w\s]', "", s)`: a character is kept exactly when it is in the input and is a word or whitespace character |
| Text.KeepWordAndSpaceChar | ocr_space.py:50 | one character is kept exactly when it is a word or whitespace character |
| Text.KeepWordAndSpaceAppend | ocr_space.py:50 | the filter works character by character and keeps order: filtering `a + b` is filtering `a` then `b` |
| Text.KeepWordAndSpaceClean | ocr_space.py:50 | a string of word and whitespace characters is left unchanged |
| Text.DigitRunEnd | ocr_space.py:18 | where a `\d+` starting at an index stops: all digits before, a non-digit or the end after |
| Text.SpaceRunEnd | ocr_space.py:18 | where a `\s+` starting at an index stops: all whitespace before, a non-whitespace character or the end after |
| Text.DigitChar | ocr_space.py:61-66 | a digit below ten is written as a `\d` character |
| Text.DigitValue | ocr_space.py:61-66 | a character's digit value is below ten |
| Text.NatToDigits | ocr_space.py:61-66 | `str(n)` is a non-empty string of digits |
| Text.DigitsRoundTrip | ocr_space.py:61-66 | `int(str(n)) == n` |
| Geometry.Right | ocr_space.py:128-130 | a word's right edge is not left of its left edge |
| Geometry.Bottom | ocr_space.py:124-126 | a word's bottom edge is not above its top edge |
| Geometry.MinOf | ocr_space.py:163-165 | `min()` of a non-empty list is one of its elements and at most every element |
| Geometry.MaxOf | ocr_space.py:169-171 | `max()` of a non-empty list is one of its elements and at least every element |
| Geometry.LeftBound | ocr_space.py:161-166 | -1 exactly when the line has no words; otherwise the smallest left edge, reached by some word |
| Geometry.RightBound | ocr_space.py:167-172 | -1 exactly when the line has no words; otherwise the largest right edge, reached by some word |
| Geometry.UpperBound | ocr_space.py:178-182 | absent (`None`) exactly when the line has no words; otherwise the smallest top edge, reached by some word |
| Geometry.LowerBound | ocr_space.py:173-177 | absent exactly when the line has no words; otherwise the largest bottom edge, reached by some word |
| Geometry.LineBoundsOrdered | ocr_space.py:161-182 | for a line with words: `0 <= left_bound <= right_bound` and `0 <= upper_bound <= lower_bound` |
| Geometry.IsSameLineSymmetric | ocr_space.py:154-159 | `a.is_same_line(b) == b.is_same_line(a)` |
| Geometry.IsSameLineReflexive | ocr_space.py:154-159 | every line with words is on the same line as itself |
| Geometry.IsSameLineIffSpansMeet | ocr_space.py:154-159 | two lines are on the same line exactly when their closed vertical spans share a point |
| Sorting.InsertPermutes | ocr_space.py:193-194 | inserting adds the element and keeps every other one |
| Sorting.InsertSorted | ocr_space.py:193-194 | inserting into a sorted sequence keeps it sorted |
| Sorting.StableSort | ocr_space.py:193-194 | the result is a permutation of the input, sorted by the key |
| Sorting.InsertWithKey | ocr_space.py:193-194 | inserting puts the element before every element with the same key, and keeps the others with that key in order |
| Sorting.StableSortKeepsOrderOfEqualKeys | ocr_space.py:193-194 | for one key value, the elements with that key keep their input order |
| Sorting.StableSortIsStable | ocr_space.py:193-194 | the same for every key value: the sort is stable, as Python's `sorted` is |
| Table.PermutationHasWords | ocr_space.py:193-194 | a permutation of lines with words holds only lines with words |
| Table.LinesSortedByUpperBound | ocr_space.py:193-194 | `lines_sorted_by_upperbound()` is a permutation of the overlay's lines |
| Table.SortedLinesOrder | ocr_space.py:193-194 | the sorted lines ascend by upper bound, and lines with equal upper bounds keep the overlay's order |
| Table.Group | ocr_space.py:222-228 | the rows of the grouping loop hold the input in order; no row is empty; no rows exactly when there is no input |
| Table.GroupStep | ocr_space.py:222-234 | the step equation of the grouping loop: one more element opens the first row, joins the last row when it meets that row's first line, or opens a new row |
| Table.GroupMembersMeetAnchor | ocr_space.py:226-228 | every line of a row is on the same line as the row's first line |
| Table.GroupNewRowLeavesAnchor | ocr_space.py:229-234 | a row opens only on a line that misses the previous row's first line |
| Table.AnchorsExtendLastRow | ocr_space.py:226-228 | appending a line keyed at least as high as all others keeps the rows in key order |
| Table.AnchorsOpenRow | ocr_space.py:229-234 | opening a row with such a line keeps the rows in key order |
| Table.GroupAnchorsInKeyOrder | ocr_space.py:222-234 | on sorted input, row anchors ascend by key and no line of a row is keyed below its anchor |
| Table.RowsOfSortedLines | ocr_space.py:215-234 | the raw rows of the sorted lines: these sorted lines in order, all with words, each meeting its anchor, new rows missing the previous anchor, anchors by ascending upper bound |
| Table.SortRowByLeftBound | ocr_space.py:230 | `table[-1].sort(key=left_bound)`: a permutation of the row, ordered by left bound |
| Table.CloseAllButLast | ocr_space.py:230 | ordering every row but the last keeps the number of rows |
| Table.CloseStep | ocr_space.py:226-234 | the step equation of closing rows: how the closed rows follow when a line joins the last row or opens a new one |
| Table.CloseKeepsRowContents | ocr_space.py:230 | closing rows keeps each row's lines |
| Table.GroupCloseStep | ocr_space.py:222-234 | one loop turn on the closed table: first row, append to the last row, or close the last row and open a new one |
| Table.ClosedRows | ocr_space.py:230 | closing non-empty rows keeps every line and leaves no row empty |
| Table.ClosedTable | ocr_space.py:215-235 | a closed table has no empty row, all rows but the last ordered by left bound, and exactly the lines it was built from |
| Table.TableizeShape | ocr_space.py:226 | after the first line, `table[-1][0]` exists and has words |
| Table.TableizeStep | ocr_space.py:222-234 | one loop turn keeps the table equal to the closed rows of the lines seen so far |
| Table.Tableize | ocr_space.py:215-235 | `tableize()` as written: the closed raw rows of the sorted lines; no empty row; every row but the last ordered by left bound; a permutation of the overlay's lines |
| Table.SortLastRow | ocr_space.py:230 | also ordering the last row orders every row and keeps every line |
| Table.TableizeFinalized | ocr_space.py:215-235 | the corrected reconstruction: row for row the raw rows, each ordered by left bound, non-empty, a permutation of the overlay's lines |
| Table.SingleWordBounds | ocr_space.py:161-182 | the bounds of a one-word line are that word's edges |
| Table.ExampleSorted | ocr_space.py:193-194 | a two-line overlay sorted by upper bound puts the higher amount line first |
| Table.ExampleGrouped | ocr_space.py:222-228 | those two lines form one row |
| Table.LastRowLeftUnsorted | ocr_space.py:222-235 | for that overlay the last (only) row is `[amount, label]`, not ordered by left bound |
| Matching.FirstIndex | ocr_space.py:84 | the first index where a test holds, as `re.search` scans left to right |
| Matching.DigitsReadBack | ocr_space.py:84-88 | `str(n)` written in a text and followed by a non-digit is read back as `n` |
| Matching.AmountValue | ocr_space.py:84-88 | the value of a match in hundredths: the integer part is `int()` of the digits before the separator, the remainder `int()` of the two digits after it |
| Matching.TwoDigitsBelow | ocr_space.py:84 | two decimal digits (`\d{2}`) are worth less than a hundred, so they never spill into the integer part |
| Matching.FindAmount | ocr_space.py:84-88 | `re.search(r'(\d+[\.,]\d{2,2})', s)`: absent exactly when no index matches; otherwise the value of the leftmost match |
| Matching.FindAmountLeftmost | ocr_space.py:84 | the leftmost matching index decides the amount |
| Matching.FormattedAmountAt | ocr_space.py:84-88 | an amount written with two decimals matches where it is written and reads back as itself |
| Matching.FindAmountRoundTrip | ocr_space.py:84-88 | written after text without digits, an amount is found with its value, with comma or point |
| Matching.FindFormattedAmount | ocr_space.py:84-88 | an amount written alone is found with its value |
| Matching.FieldValueIsInt | ocr_space.py:61-66 | a group read digit by digit is `int()` of the group |
| Matching.MatchDateWellFormed | ocr_space.py:18 | every group of a date match holds only digits, and the groups lie inside the text in order |
| Matching.SearchDate | ocr_space.py:18 | `date_pattern.search(s)`: absent exactly when the pattern matches at no index; otherwise the fields of the leftmost match |
| Matching.SearchDateLeftmost | ocr_space.py:59 | the leftmost matching index decides the date |
| Matching.ReadDateGroups | ocr_space.py:61-66 | every field read from a match is `int()` of its group; the seconds are 0 when their group is absent (`or "00"`) |
| Matching.DateAtGroups | ocr_space.py:18-66 | where the date pattern matches, the date read there is `int()` of each group, with 0 seconds when the optional seconds group did not match |
| Matching.MatchTimeAt | ocr_space.py:18 | `\s+hour[:.]minute([:.]second)?` matches with the groups where the whitespace and digit runs lie; the seconds group only when a separator and a digit follow the minutes |
| Matching.MatchDateAt | ocr_space.py:18 | the whole pattern, `day[-/]month[-/]year` then the time, matches at an index with exactly the groups found there |
| Matching.GroupRun | ocr_space.py:18 | a `\d+` group followed by a non-digit takes the whole run |
| Matching.GroupValue | ocr_space.py:61-66 | a group written in the text is read as `int()` of it |
| Matching.GapRun | ocr_space.py:18 | the `\s+` between date and time takes the whole whitespace run, however many spaces |
| Matching.ThreeRuns | ocr_space.py:18 | three separated digit groups are three whole runs |
| Matching.ThreeValues | ocr_space.py:61-66 | three separated digit groups are read as their values |
| Matching.DatePartRead | ocr_space.py:18 | `day-month-year` or `day/month/year` written out matches the date half of the pattern and its groups hold those numbers |
| Matching.TimePartRead | ocr_space.py:18 | `hour:minute` or `hour.minute`, with or without seconds, matches the time half, and its groups hold those numbers |
| Matching.DateAtSpan | ocr_space.py:59-66 | a match whose groups hold a date's fields is read as that date, with 0 seconds when the seconds group is absent |
| Matching.FormattedDateAt | ocr_space.py:59-67 | a date written with either date separator, any whitespace gap and either time separator, with or without seconds, matches where it is written and reads back as the same fields (0 seconds when none were written) |
| Matching.SearchDateRoundTrip | ocr_space.py:59-67 | written in any of those styles after text without digits and not followed by a digit (nor, without seconds, by a separator and a digit), a date is found again with all its fields, seconds 0 when not written |
| Matching.SearchDateSecondsDefault | ocr_space.py:66 | a date written without seconds is found with second 0 |
| Matching.SearchDateExample | ocr_space.py:18-66 | `5-3-2024  10.30` (dashes, two spaces, a dot) between words is read as 5 March 2024, 10:30:00 |
| Receipt.FirstSome | ocr_space.py:58-60 | the first present result scanning from the front: absent exactly when every element gives none; otherwise some element's result with none before it |
| Receipt.FirstSomeAt | ocr_space.py:58-60 | the first element with a result decides the scan |
| Receipt.FirstSomeSingle | ocr_space.py:58-60 | the scan over one element is that element's result |
| Receipt.FirstSomeAfter | ocr_space.py:58-67 | elements without a result, then one with a result: the scan returns that result, whatever follows |
| Receipt.LineAmount | ocr_space.py:78-88 | a line yields an amount for a pattern only when its stripped text matches and splits into more than one tab column; the amount is what the regex finds in the last column |
| Receipt.PatternMatchesExtended | ocr_space.py:12-17 | a total pattern that matches a text still matches it with more text appended |
| Receipt.SplitCaptionAmount | ocr_space.py:82 | a tab-free caption, a tab and an amount split into exactly those two columns |
| Receipt.TabbedLineAmount | ocr_space.py:78-88 | a matching caption, a tab and an amount: the line yields that amount for that pattern |
| Receipt.FirstPositive | ocr_space.py:76-97 | a guess is never a zero amount; no patterns give "n.a." |
| Receipt.FirstPositiveSpec | ocr_space.py:76-97 | the guess is "n.a." exactly when no pattern gives a non-zero amount; otherwise it is non-zero, from the first pattern with a non-zero amount |
| Receipt.FirstPositiveAt | ocr_space.py:95-96 | the first pattern with a non-zero amount gives the guess |
| Receipt.GuessLoop | ocr_space.py:74-97 | the nested loops of `total_guess` (inner one stops at the first line with an amount, outer one at a non-zero amount) compute the guess pattern by pattern |
| Receipt.NoSpaceNoMatch | ocr_space.py:13-15 | a phrase holding a space occurs in no text without spaces |
| Receipt.NoMatchNoAmount | ocr_space.py:78-79 | a line the pattern misses yields no amount for it |
| Receipt.SubtotalMissesEarlierPatterns | ocr_space.py:12-17 | a line starting with `S` and holding no space misses the first three patterns, `^TOTALE` included |
| Receipt.SubtotalCaption | ocr_space.py:16 | `SUBTOTALE` matches the fourth pattern |
| Receipt.SubtotalEarlierNone | ocr_space.py:12-17 | `TOTALE COMPLESSIVO`, `^TOTALE` and `IMPORTO PAGATO` find no amount in a `SUBTOTALE<tab>amount` line |
| Receipt.SubtotalAmount | ocr_space.py:78-88 | `SUBTOTALE` reads the amount of that line |
| Receipt.SubtotalOnly | ocr_space.py:70-97 | a lone `SUBTOTALE<tab>amount` line gives that amount when it is non-zero |
| Receipt.GuessTotal | ocr_space.py:74-97 | the guess over the lines is never a zero amount |
| Receipt.GuessOf | ocr_space.py:70-97 | without lines the guess is "n.a."; with lines it is never a zero amount |
| Receipt.VendorOf | ocr_space.py:45-51 | the vendor is never empty (`vendor or "n.a."`) |
| Receipt.VendorOfSpec | ocr_space.py:45-51 | "n.a." exactly when there is no line or nothing of the first line survives the cleaning |
| Receipt.VendorOfCharacters | ocr_space.py:45-51 | any other vendor is made of word and whitespace characters of the first line, with no whitespace around it |
| Receipt.VendorOfFirstLine | ocr_space.py:45-51 | any other vendor is exactly the first line, filtered in order, then stripped |
| Receipt.VendorOfSkipsPunctuation | ocr_space.py:50 | deleting a character that is neither a word character nor whitespace from the first line leaves the vendor unchanged |
| Receipt.VendorOfCleanLine | ocr_space.py:45-51 | a first line of word characters and inner spaces is the vendor unchanged |
| Receipt.DateOfLines | ocr_space.py:53-68 | no results: the current time (`None`); with lines, `None` exactly when no line holds a date, otherwise the date of some line with no date in any line before it |
| Receipt.DateOfFormattedLine | ocr_space.py:53-67 | a date written in any style in a line after lines with no date is the receipt's date, with 0 seconds when none were written |
| Receipt.MatchesQuickTotalSearch | ocr_space.py:263-265 | on a newline-free line, `^.*totale complessivo` matches exactly when the phrase occurs, ignoring case |
| Receipt.NonBlank | ocr_space.py:269 | no filtered column is blank, and the filter never adds columns |
| Receipt.NonBlankMembers | ocr_space.py:269 | the filtered columns are exactly the columns that are not all whitespace |
| Receipt.NonBlankAppend | ocr_space.py:269 | the filter keeps order: filtering `a + b` is filtering `a` then `b` |
| Receipt.NonBlankEmpty | ocr_space.py:269 | nothing is left exactly when every column is blank |
| Receipt.NonBlankLast | ocr_space.py:269-270 | the last kept column is the last non-blank column of the line |
| Receipt.LastNonBlank | ocr_space.py:270 | `columns[-1]` of the filtered list: a non-blank column of the line with only blank columns after it |
| Receipt.QuickTotalHasColumn | ocr_space.py:269-270 | a matching line has a non-blank column, so `columns[-1]` exists |
| Receipt.QuickTotalOfLine | ocr_space.py:265-271 | a value exactly when the line matches; the value is the line's last non-blank tab column |
| Receipt.TabbedColumns | ocr_space.py:269 | two non-blank, tab-free columns joined by a tab are the line's non-blank columns |
| Receipt.QuickTotalOfTabbedLine | ocr_space.py:264-271 | a line with the phrase, a tab and a non-blank column yields that column |
| Receipt.QuickTotalOfLines | ocr_space.py:264-272 | `None` exactly when no line matches; otherwise the value of the first matching line |
| Receipt.QuickTotal | ocr_space.py:260-272 | over the first page's text split on `"\n"`: `None` exactly when no line yields a quick total, otherwise the quick total of the first line that yields one |
| Receipt.ReceiptSummary.constructor | ocr_space.py:20-23 | a new summary has no results and no cached total |
| Receipt.ReceiptSummary.SetOcrspaceResults | ocr_space.py:40-43 | the setter stores the results and drops the cached total |
| Receipt.ReceiptSummary.ParsedTextLines | ocr_space.py:99-104 | `None` exactly when there are no results; otherwise `splitlines()` of the first page's text |
| Receipt.ReceiptSummary.Vendor | ocr_space.py:45-51 | never empty; "n.a." without results |
| Receipt.ReceiptSummary.Date | ocr_space.py:53-68 | no results: the current time (`None`); otherwise `None` exactly when no parsed line holds a date, and a date found is that of the first parsed line holding one |
| Receipt.ReceiptSummary.TotalGuess | ocr_space.py:70-97 | a truthy cached total is returned; otherwise the guess from the parsed lines ("n.a." without lines); nothing changes |

## Left out

- `api.py` (the HTTP call to OCR.space) and `image_resizer.py` are not part of this model. They are I/O.
- JSON decoding and every `from_dict`: the model starts from the decoded values (`Overlay`, `ParsedResult`, `OcrResult`, `Line`, `Word`). A missing or malformed field and `int()` of a non-numeric field are not modelled.
- `OCRSpaceResult.from_dict` writes class attributes (`ret = OCRSpaceResult` with no call). That aliasing between results is not modelled.
- `fromOCRSpaceJsonResponse`, `parse_ocrspace_json_text`, `deserialiser` and the command line: these are JSON parsing plus a call to `tableize` whose result is discarded.
- `quick_total_from_parsed_text`'s JSON step: `QuickTotal` starts from the decoded result.
- `__str__` and `strftime`: formatting only.
- Logging, the debug `print`s in `tableize`, and `argparse`.
- `datetime.now()` is the clock: `Receipt.DateOfLines` returns `None` where the source reads it.
- Receipt.DateOfLines: `datetime(...)` raises `ValueError` for an impossible calendar date such as month 13. The model returns the matched fields without checking them.
- `float` is modelled as exact hundredths. Binary floating point rounds most decimal fractions and overflows to infinity for very long digit runs; neither is modelled. The `ValueError` branch at ocr_space.py:90-92 is not reachable from a match of `\d+[.,]\d{2}` and is not modelled.
- Geometry.Word: `left`, `top`, `height` and `width` are natural numbers. `int()` at ocr_space.py:118-121 also accepts negative values; negative coordinates are not modelled.
- `\d` and `\w` are ASCII only. Python also accepts other Unicode digits and letters.
- `re.IGNORECASE` is modelled by a case folding that covers ASCII letters and the four non-ASCII letters Python equates with them. It is exact for the literal patterns used here.
- Table.Tableize: requires that every line has words whenever there are two lines or more. In the source, `sorted` then compares `None` upper bounds and raises `TypeError`.
- Geometry.IsSameLine: defined only for lines with words. The source compares `None` bounds and raises `TypeError`.
- Receipt.ReceiptSummary.TotalGuess: requires that results, when present, have a first page. The source raises `IndexError` on `parsed_results[0]`. ParsedTextLines, Vendor and Date require the same.
- Receipt.QuickTotal: requires a first page, for the same reason.
- `self.items` is initialised and never used. It is not modelled.
- Receipt.GuessLoop: takes the per-line evaluator and the pattern list as parameters. `TotalGuess` passes `LineAmountOf` and `TotalPatterns`.

Where the code and its documentation differ, the model follows the code:

- Vendor: the first line is taken even when it is empty. It is not the first non-empty line.
- `total_guess` never writes `_cached_total_guess`, so the cache only ever holds `None`. The model keeps the field and the truthiness test.
- A line `SUBTOTALE<tab>9.99` has two tab columns and yields 9.99 (see `Receipt.SubtotalOnly`). It does not leave the total at "n.a.".
- A zero amount stops only the line scan, not the pattern scan. A later pattern can still give a non-zero total, and a lone zero ends as "n.a.".

## Findings

| source | as written | input that shows it | evidently intended | confidence | as-written member | corrected member |
|---|---|---|---|---|---|---|
| ocr_space.py:222-235 | a row is ordered by `left_bound` only when the next row opens, so the last row keeps the order of upper bounds | a label at left 10, top 2 and an amount at left 300, top 0 on the same line: the only row is `[amount, label]` | every row, the last included, ordered by `left_bound` | high (proved on the model; not executed) | Table.Tableize, Table.LastRowLeftUnsorted | Table.TableizeFinalized |
