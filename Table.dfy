/**
 * The OCR result model (overlay, parsed page, whole result) and the table
 * reconstruction: lines sorted by their top edge are grouped into rows, each row
 * anchored on its first line, and every closed row is ordered left to right.
 */
module Table {
  import opened Optional
  import opened Geometry
  import opened Sorting

  /** The lines of one page, in the order the provider emitted them. */
  datatype Overlay = Overlay(lines: seq<Line>)

  /** One page of the provider's answer. */
  datatype ParsedResult = ParsedResult(
    overlay: Overlay,
    fileParseExitCode: int,
    textOrientation: string,
    parsedText: string,
    errorMessage: Option<string>,
    errorDetails: Option<string>)

  /** The provider's whole answer. */
  datatype OcrResult = OcrResult(
    parsedResults: seq<ParsedResult>,
    ocrExitCode: int,
    isErroredOnProcessing: bool,
    processingTimeInMilliseconds: real,
    searchablePdfUrl: Option<string>)

  predicate AllHaveWords(s: seq<Line>) {
    forall i :: 0 <= i < |s| ==> HasWords(s[i])
  }

  /** The sort key `upper_bound`; only compared for lines that have words. */
  function TopKey(l: Line): int {
    match UpperBound(l)
    case Some(t) => t
    case None => -1
  }

  /**
   * `sorted(key=upper_bound)` compares keys only when there are two lines or
   * more, and the key of a line without words cannot be compared.
   */
  predicate Sortable(lines: seq<Line>) {
    |lines| <= 1 || AllHaveWords(lines)
  }

  lemma PermutationHasWords(a: seq<Line>, b: seq<Line>)
    requires multiset(a) == multiset(b) && AllHaveWords(b)
    ensures AllHaveWords(a)
  {
    forall i | 0 <= i < |a| ensures HasWords(a[i]) {
      assert a[i] in multiset(b);
    }
  }

  /**
   * The overlay's lines in ascending order of their upper bound; lines with the
   * same upper bound keep their order in the overlay.
   */
  function LinesSortedByUpperBound(o: Overlay): (r: seq<Line>)
    requires Sortable(o.lines)
    ensures multiset(r) == multiset(o.lines)
    ensures AllHaveWords(o.lines) ==> AllHaveWords(r)
    ensures Sortable(r)
  {
    var r := StableSort(o.lines, TopKey);
    assert |r| == |multiset(r)| == |multiset(o.lines)| == |o.lines|;
    if AllHaveWords(o.lines) then
      PermutationHasWords(r, o.lines);
      r
    else r
  }

  /**
   * The order `sorted(key=upper_bound)` promises: ascending upper bounds, and
   * among lines with the same upper bound, the order of the overlay.
   */
  lemma SortedLinesOrder(o: Overlay)
    requires AllHaveWords(o.lines)
    ensures forall i, j :: 0 <= i < j < |LinesSortedByUpperBound(o)| ==>
      UpperBound(LinesSortedByUpperBound(o)[i]).value <= UpperBound(LinesSortedByUpperBound(o)[j]).value
    ensures forall v :: WithKey(LinesSortedByUpperBound(o), TopKey, v) == WithKey(o.lines, TopKey, v)
  {
    var r := LinesSortedByUpperBound(o);
    assert SortedBy(r, TopKey);
    StableSortIsStable(o.lines, TopKey);
  }

  // ---------------------------------------------------------------- rows

  /** The elements of all rows, row after row. */
  function Flatten<T>(rows: seq<seq<T>>): seq<T> {
    if rows == [] then [] else Flatten(rows[..|rows| - 1]) + rows[|rows| - 1]
  }

  /**
   * The grouping loop of the reconstruction, before any row is ordered by
   * column: each element joins the last row when `same` relates that row's first
   * element (its anchor) to it, and opens a new row otherwise.
   */
  function Group<T>(s: seq<T>, same: (T, T) -> bool): (rows: seq<seq<T>>)
    ensures Flatten(rows) == s
    ensures forall i :: 0 <= i < |rows| ==> rows[i] != []
    ensures rows == [] <==> s == []
    decreases |s|
  {
    if s == [] then []
    else
      var rows := Group(s[..|s| - 1], same);
      var x := s[|s| - 1];
      assert s == s[..|s| - 1] + [x];
      if rows == [] then
        assert Flatten([[x]]) == [x] by { assert [[x]][..0] == []; }
        [[x]]
      else if same(rows[|rows| - 1][0], x) then
        var r := rows[..|rows| - 1] + [rows[|rows| - 1] + [x]];
        assert r[..|r| - 1] == rows[..|rows| - 1];
        r
      else
        var r := rows + [[x]];
        assert r[..|r| - 1] == rows;
        r
  }

  /** One step of the grouping loop: how the next element extends the rows. */
  lemma GroupStep<T>(s: seq<T>, x: T, same: (T, T) -> bool)
    ensures var rows := Group(s, same);
      Group(s + [x], same) ==
        if rows == [] then [[x]]
        else if same(rows[|rows| - 1][0], x) then rows[..|rows| - 1] + [rows[|rows| - 1] + [x]]
        else rows + [[x]]
  {
    assert (s + [x])[..|s + [x]| - 1] == s;
  }

  lemma {:induction false} InFlatten<T>(rows: seq<seq<T>>, i: nat, j: nat)
    requires i < |rows| && j < |rows[i]|
    ensures rows[i][j] in Flatten(rows)
  {
    if i < |rows| - 1 {
      InFlatten(rows[..|rows| - 1], i, j);
    }
  }

  /** Every element of a row is related to the row's first element (its anchor). */
  predicate MembersMeetAnchor<T>(rows: seq<seq<T>>, same: (T, T) -> bool) {
    forall i, j :: 0 <= i < |rows| && 0 <= j < |rows[i]| ==> same(rows[i][0], rows[i][j])
  }

  /** No row's anchor is related to the previous row's anchor. */
  predicate AnchorsApart<T>(rows: seq<seq<T>>, same: (T, T) -> bool)
    requires forall i :: 0 <= i < |rows| ==> rows[i] != []
  {
    forall i :: 0 < i < |rows| ==> !same(rows[i - 1][0], rows[i][0])
  }

  /** Anchors in ascending key order, and no element of a row keyed below its anchor. */
  predicate AnchorsInKeyOrder<T>(rows: seq<seq<T>>, key: T -> int)
    requires forall i :: 0 <= i < |rows| ==> rows[i] != []
  {
    && (forall i, j :: 0 <= i < j < |rows| ==> key(rows[i][0]) <= key(rows[j][0]))
    && (forall i, j :: 0 <= i < |rows| && 0 <= j < |rows[i]| ==> key(rows[i][0]) <= key(rows[i][j]))
  }

  /** When `same` is reflexive on the input, every element of a row is related to the row's anchor. */
  lemma {:induction false} GroupMembersMeetAnchor<T>(s: seq<T>, same: (T, T) -> bool)
    requires forall k :: 0 <= k < |s| ==> same(s[k], s[k])
    ensures MembersMeetAnchor(Group(s, same), same)
  {
    if s != [] {
      var init := s[..|s| - 1];
      var x := s[|s| - 1];
      GroupMembersMeetAnchor(init, same);
      var prev := Group(init, same);
      var rows := Group(s, same);
      if prev == [] {
        assert rows == [[x]];
      } else if same(prev[|prev| - 1][0], x) {
        assert rows == prev[..|prev| - 1] + [prev[|prev| - 1] + [x]];
        forall i, j | 0 <= i < |rows| && 0 <= j < |rows[i]|
          ensures same(rows[i][0], rows[i][j])
        {
          if i < |prev| - 1 || j < |prev[i]| {
            assert rows[i][j] == prev[i][j] && rows[i][0] == prev[i][0];
          }
        }
      } else {
        assert rows == prev + [[x]];
        forall i, j | 0 <= i < |rows| && 0 <= j < |rows[i]|
          ensures same(rows[i][0], rows[i][j])
        {
          if i < |prev| {
            assert rows[i] == prev[i];
          }
        }
      }
    }
  }

  /** A row is opened only by an element that `same` does not relate to the previous row's anchor. */
  lemma {:induction false} GroupNewRowLeavesAnchor<T>(s: seq<T>, same: (T, T) -> bool)
    ensures AnchorsApart(Group(s, same), same)
  {
    if s != [] {
      var init := s[..|s| - 1];
      var x := s[|s| - 1];
      GroupNewRowLeavesAnchor(init, same);
      var prev := Group(init, same);
      var rows := Group(s, same);
      if prev == [] {
        assert rows == [[x]];
      } else if same(prev[|prev| - 1][0], x) {
        assert rows == prev[..|prev| - 1] + [prev[|prev| - 1] + [x]];
        forall i | 0 < i < |rows| ensures !same(rows[i - 1][0], rows[i][0]) {
          assert rows[i - 1][0] == prev[i - 1][0] && rows[i][0] == prev[i][0];
          assert !same(prev[i - 1][0], prev[i][0]);
        }
      } else {
        assert rows == prev + [[x]];
        forall i | 0 < i < |rows| ensures !same(rows[i - 1][0], rows[i][0]) {
          assert rows[i - 1] == prev[i - 1];
          if i < |prev| {
            assert rows[i] == prev[i];
          }
        }
      }
    }
  }

  /** Every element of the rows is keyed at most as `x` when every element of their concatenation is. */
  lemma FlattenKeysBelow<T>(rows: seq<seq<T>>, x: T, key: T -> int)
    requires forall m :: 0 <= m < |Flatten(rows)| ==> key(Flatten(rows)[m]) <= key(x)
    ensures forall i, j :: 0 <= i < |rows| && 0 <= j < |rows[i]| ==> key(rows[i][j]) <= key(x)
  {
    forall i, j | 0 <= i < |rows| && 0 <= j < |rows[i]|
      ensures key(rows[i][j]) <= key(x)
    {
      InFlatten(rows, i, j);
    }
  }

  /** Appending to the last row an element keyed at least as every element keeps the key order. */
  lemma AnchorsExtendLastRow<T>(prev: seq<seq<T>>, x: T, key: T -> int)
    requires prev != [] && forall i :: 0 <= i < |prev| ==> prev[i] != []
    requires AnchorsInKeyOrder(prev, key)
    requires forall i, j :: 0 <= i < |prev| && 0 <= j < |prev[i]| ==> key(prev[i][j]) <= key(x)
    ensures var rows := prev[..|prev| - 1] + [prev[|prev| - 1] + [x]];
      (forall i :: 0 <= i < |rows| ==> rows[i] != []) && AnchorsInKeyOrder(rows, key)
  {
    var rows := prev[..|prev| - 1] + [prev[|prev| - 1] + [x]];
    forall i, j | 0 <= i < |rows| && 0 <= j < |rows[i]|
      ensures key(rows[i][0]) <= key(rows[i][j])
    {
      assert rows[i][0] == prev[i][0];
      if i < |prev| - 1 || j < |prev[i]| {
        assert rows[i][j] == prev[i][j];
      }
    }
    forall i, j | 0 <= i < j < |rows| ensures key(rows[i][0]) <= key(rows[j][0]) {
      assert rows[i][0] == prev[i][0] && rows[j][0] == prev[j][0];
    }
  }

  /** Opening a row with an element keyed at least as every element keeps the key order. */
  lemma AnchorsOpenRow<T>(prev: seq<seq<T>>, x: T, key: T -> int)
    requires forall i :: 0 <= i < |prev| ==> prev[i] != []
    requires AnchorsInKeyOrder(prev, key)
    requires forall i, j :: 0 <= i < |prev| && 0 <= j < |prev[i]| ==> key(prev[i][j]) <= key(x)
    ensures var rows := prev + [[x]];
      (forall i :: 0 <= i < |rows| ==> rows[i] != []) && AnchorsInKeyOrder(rows, key)
  {
    var rows := prev + [[x]];
    forall i, j | 0 <= i < |rows| && 0 <= j < |rows[i]|
      ensures key(rows[i][0]) <= key(rows[i][j])
    {
      if i < |prev| {
        assert rows[i] == prev[i];
      }
    }
    forall i, j | 0 <= i < j < |rows| ensures key(rows[i][0]) <= key(rows[j][0]) {
      assert rows[i] == prev[i];
      if j < |prev| {
        assert rows[j] == prev[j];
      }
    }
  }

  /**
   * On an input in ascending key order, the anchors come in ascending key order,
   * and no element of a row has a smaller key than the row's anchor.
   */
  lemma {:induction false} GroupAnchorsInKeyOrder<T>(s: seq<T>, same: (T, T) -> bool, key: T -> int)
    requires SortedBy(s, key)
    ensures AnchorsInKeyOrder(Group(s, same), key)
  {
    if s != [] {
      var init := s[..|s| - 1];
      var x := s[|s| - 1];
      assert SortedBy(init, key);
      GroupAnchorsInKeyOrder(init, same, key);
      var prev := Group(init, same);
      FlattenKeysBelow(prev, x, key);
      GroupStep(init, x, same);
      assert init + [x] == s;
      if prev == [] {
        assert Group(s, same) == [[x]];
      } else if same(prev[|prev| - 1][0], x) {
        AnchorsExtendLastRow(prev, x, key);
        assert Group(s, same) == prev[..|prev| - 1] + [prev[|prev| - 1] + [x]];
      } else {
        AnchorsOpenRow(prev, x, key);
        assert Group(s, same) == prev + [[x]];
      }
    }
  }

  /** The row relation of the reconstruction, on lines that have words. */
  predicate OnSameLine(a: Line, b: Line) {
    HasWords(a) && HasWords(b) && IsSameLine(a, b)
  }

  /** The rows built from lines sorted by upper bound, before column ordering. */
  function RawRows(s: seq<Line>): seq<seq<Line>> {
    Group(s, OnSameLine)
  }

  predicate RowsHaveWords(rows: seq<seq<Line>>) {
    forall i :: 0 <= i < |rows| ==> rows[i] != [] && AllHaveWords(rows[i])
  }

  /**
   * The row structure of the reconstruction: the rows hold the sorted lines in
   * order, every line of a row is on the same line as the row's anchor, a new row
   * opens only on a line that misses the previous anchor, anchors come in
   * ascending upper bound, and no line of a row lies above its anchor.
   */
  lemma RowsOfSortedLines(o: Overlay)
    requires AllHaveWords(o.lines)
    ensures Flatten(RawRows(LinesSortedByUpperBound(o))) == LinesSortedByUpperBound(o)
    ensures RowsHaveWords(RawRows(LinesSortedByUpperBound(o)))
    ensures MembersMeetAnchor(RawRows(LinesSortedByUpperBound(o)), OnSameLine)
    ensures AnchorsApart(RawRows(LinesSortedByUpperBound(o)), OnSameLine)
    ensures AnchorsInKeyOrder(RawRows(LinesSortedByUpperBound(o)), TopKey)
  {
    var sorted := LinesSortedByUpperBound(o);
    var rows := RawRows(sorted);
    forall k | 0 <= k < |sorted| ensures OnSameLine(sorted[k], sorted[k]) {
      IsSameLineReflexive(sorted[k]);
    }
    GroupMembersMeetAnchor(sorted, OnSameLine);
    GroupNewRowLeavesAnchor(sorted, OnSameLine);
    assert SortedBy(sorted, TopKey);
    GroupAnchorsInKeyOrder(sorted, OnSameLine, TopKey);
    forall i, j | 0 <= i < |rows| && 0 <= j < |rows[i]| ensures HasWords(rows[i][j]) {
      InFlatten(rows, i, j);
    }
  }

  // ---------------------------------------------------------------- tableize

  /** A row ordered by `left_bound`, as the source's `sort(key=left_bound)` leaves it. */
  function SortRowByLeftBound(row: seq<Line>): (r: seq<Line>)
    ensures multiset(r) == multiset(row)
    ensures SortedBy(r, LeftBound)
  {
    StableSort(row, LeftBound)
  }

  /** The rows with `order` applied to every row except the last one. */
  function CloseAllButLast<T>(rows: seq<seq<T>>, order: seq<T> -> seq<T>): (r: seq<seq<T>>)
    ensures |r| == |rows|
  {
    seq(|rows|, i requires 0 <= i < |rows| => if i < |rows| - 1 then order(rows[i]) else rows[i])
  }

  /** How closing the rows follows one step of the grouping loop. */
  lemma CloseStep<T>(rows: seq<seq<T>>, x: T, order: seq<T> -> seq<T>)
    requires rows != []
    ensures var c := CloseAllButLast(rows, order);
      && CloseAllButLast(rows[..|rows| - 1] + [rows[|rows| - 1] + [x]], order) == c[..|c| - 1] + [c[|c| - 1] + [x]]
      && CloseAllButLast(rows + [[x]], order) == c[..|c| - 1] + [order(c[|c| - 1])] + [[x]]
  {
  }

  lemma {:induction false} FlattenMultiset<T>(a: seq<seq<T>>, b: seq<seq<T>>)
    requires |a| == |b|
    requires forall i :: 0 <= i < |a| ==> multiset(a[i]) == multiset(b[i])
    ensures multiset(Flatten(a)) == multiset(Flatten(b))
  {
    if a != [] {
      FlattenMultiset(a[..|a| - 1], b[..|b| - 1]);
    }
  }

  /** Row by row, `table` holds the same lines as `raw`, in any order. */
  ghost predicate SameRowContents<T>(table: seq<seq<T>>, raw: seq<seq<T>>) {
    |table| == |raw| && forall i :: 0 <= i < |table| ==> multiset(table[i]) == multiset(raw[i])
  }

  /** Closing rows with an `order` that keeps each row's lines keeps every row's lines. */
  lemma CloseKeepsRowContents<T>(raw: seq<seq<T>>, order: seq<T> -> seq<T>)
    requires forall i :: 0 <= i < |raw| ==> multiset(order(raw[i])) == multiset(raw[i])
    ensures SameRowContents(CloseAllButLast(raw, order), raw)
  {
  }

  lemma SameRowContentsNonEmpty<T>(table: seq<seq<T>>, raw: seq<seq<T>>)
    requires SameRowContents(table, raw)
    requires forall i :: 0 <= i < |raw| ==> raw[i] != []
    ensures forall i :: 0 <= i < |table| ==> table[i] != []
  {
    forall i | 0 <= i < |table| ensures table[i] != [] {
      assert raw[i][0] in multiset(raw[i]);
    }
  }

  /**
   * One step of the reconstruction loop: appending `x` to the grouped input
   * either opens the first row, extends the last row when `x` meets its
   * anchor, or closes the last row and opens a new one.
   */
  lemma GroupCloseStep<T>(s: seq<T>, x: T, same: (T, T) -> bool, order: seq<T> -> seq<T>, table: seq<seq<T>>)
    requires table == CloseAllButLast(Group(s, same), order)
    ensures s == [] ==> table == [] && CloseAllButLast(Group(s + [x], same), order) == table + [[x]]
    ensures s != [] ==> table != [] && table[|table| - 1] != [] && table[|table| - 1][0] in s
    ensures s != [] && same(table[|table| - 1][0], x) ==>
      CloseAllButLast(Group(s + [x], same), order) == table[..|table| - 1] + [table[|table| - 1] + [x]]
    ensures s != [] && !same(table[|table| - 1][0], x) ==>
      CloseAllButLast(Group(s + [x], same), order) == table[..|table| - 1] + [order(table[|table| - 1])] + [[x]]
  {
    var rows := Group(s, same);
    GroupStep(s, x, same);
    if s == [] {
      assert Group(s + [x], same) == [[x]];
      assert CloseAllButLast([[x]], order) == [[x]];
    } else {
      CloseStep(rows, x, order);
      InFlatten(rows, |rows| - 1, 0);
      assert table[|table| - 1] == rows[|rows| - 1];
    }
  }

  /** Every row holds at least one element. */
  predicate NoEmptyRow<T>(rows: seq<seq<T>>) {
    forall i :: 0 <= i < |rows| ==> rows[i] != []
  }

  /** Closing non-empty rows with an `order` that keeps each row's lines keeps every line, and no row empties. */
  lemma ClosedRows<T>(raw: seq<seq<T>>, order: seq<T> -> seq<T>, table: seq<seq<T>>)
    requires table == CloseAllButLast(raw, order)
    requires NoEmptyRow(raw)
    requires forall j :: 0 <= j < |raw| ==> multiset(order(raw[j])) == multiset(raw[j])
    ensures NoEmptyRow(table)
    ensures multiset(Flatten(table)) == multiset(Flatten(raw))
  {
    CloseKeepsRowContents(raw, order);
    SameRowContentsNonEmpty(table, raw);
    FlattenMultiset(table, raw);
  }

  /** The facts about a closed table that the reconstruction promises. */
  lemma ClosedTable(sorted: seq<Line>, table: seq<seq<Line>>)
    requires table == CloseAllButLast(RawRows(sorted), SortRowByLeftBound)
    ensures NoEmptyRow(table)
    ensures forall i :: 0 <= i < |table| - 1 ==> SortedBy(table[i], LeftBound)
    ensures multiset(Flatten(table)) == multiset(sorted)
  {
    var raw := RawRows(sorted);
    forall j | 0 <= j < |raw| ensures multiset(SortRowByLeftBound(raw[j])) == multiset(raw[j]) {
    }
    ClosedRows(raw, SortRowByLeftBound, table);
    forall i | 0 <= i < |table| - 1 ensures SortedBy(table[i], LeftBound) {
      assert table[i] == SortRowByLeftBound(raw[i]);
    }
  }


  /** What the reconstruction loop holds after its first `i` lines. */
  lemma TableizeShape(sorted: seq<Line>, i: nat, table: seq<seq<Line>>)
    requires Sortable(sorted) && 0 < i < |sorted|
    requires table == CloseAllButLast(RawRows(sorted[..i]), SortRowByLeftBound)
    ensures table != [] && table[|table| - 1] != [] && HasWords(table[|table| - 1][0])
  {
    var raw := RawRows(sorted[..i]);
    assert raw != [];
    InFlatten(raw, |raw| - 1, 0);
    assert table[|table| - 1] == raw[|raw| - 1];
  }

  /** One turn of the reconstruction loop keeps the table equal to the closed rows of the lines seen. */
  lemma TableizeStep(seen: seq<Line>, x: Line, table: seq<seq<Line>>, next: seq<seq<Line>>)
    requires seen != [] ==> HasWords(x)
    requires table == CloseAllButLast(RawRows(seen), SortRowByLeftBound)
    requires seen == [] ==> next == table + [[x]]
    requires seen != [] ==> table != [] && table[|table| - 1] != [] && HasWords(table[|table| - 1][0])
    requires seen != [] && IsSameLine(table[|table| - 1][0], x) ==>
      next == table[..|table| - 1] + [table[|table| - 1] + [x]]
    requires seen != [] && !IsSameLine(table[|table| - 1][0], x) ==>
      next == table[..|table| - 1] + [SortRowByLeftBound(table[|table| - 1])] + [[x]]
    ensures next == CloseAllButLast(RawRows(seen + [x]), SortRowByLeftBound)
  {
    GroupCloseStep(seen, x, OnSameLine, SortRowByLeftBound, table);
  }

  /** A sequence prefix grown by one element (kept generic so the loop's context stays small). */
  lemma PrefixStep<T>(s: seq<T>, i: nat)
    requires i < |s|
    ensures s[..i + 1] == s[..i] + [s[i]]
  {
  }

  /**
   * The table reconstruction of one page, as the source writes it: rows of the
   * lines sorted by upper bound, grouped against each row's anchor; a row is
   * ordered by `left_bound` when the next row opens, so the last row keeps the
   * order in which its lines arrived.
   */
  method Tableize(pr: ParsedResult) returns (table: seq<seq<Line>>)
    requires Sortable(pr.overlay.lines)
    ensures table == CloseAllButLast(RawRows(LinesSortedByUpperBound(pr.overlay)), SortRowByLeftBound)
    ensures NoEmptyRow(table)
    ensures forall i :: 0 <= i < |table| - 1 ==> SortedBy(table[i], LeftBound)
    ensures multiset(Flatten(table)) == multiset(pr.overlay.lines)
  {
    var sorted := LinesSortedByUpperBound(pr.overlay);
    table := [];
    var i := 0;
    while i < |sorted|
      invariant 0 <= i <= |sorted|
      invariant table == CloseAllButLast(RawRows(sorted[..i]), SortRowByLeftBound)
    {
      var line := sorted[i];
      ghost var previous := table;
      if i == 0 {
        table := table + [[line]];
      } else {
        TableizeShape(sorted, i, table);
        var previousLine := table[|table| - 1][0];
        if IsSameLine(previousLine, line) {
          table := table[..|table| - 1] + [table[|table| - 1] + [line]];
        } else {
          table := table[..|table| - 1] + [SortRowByLeftBound(table[|table| - 1])] + [[line]];
        }
      }
      TableizeStep(sorted[..i], line, previous, table);
      PrefixStep(sorted, i);
      i := i + 1;
    }
    assert sorted[..i] == sorted;
    ClosedTable(sorted, table);
  }

  /** Ordering the last row as well orders every row and keeps every line. */
  lemma SortLastRow(raw: seq<seq<Line>>, open: seq<seq<Line>>)
    requires open == CloseAllButLast(raw, SortRowByLeftBound) && open != [] && NoEmptyRow(open)
    ensures var t := open[..|open| - 1] + [SortRowByLeftBound(open[|open| - 1])];
      && |t| == |raw|
      && (forall i :: 0 <= i < |t| ==> t[i] == SortRowByLeftBound(raw[i]))
      && (forall i :: 0 <= i < |t| ==> t[i] != [] && SortedBy(t[i], LeftBound))
      && multiset(Flatten(t)) == multiset(Flatten(open))
  {
    var t := open[..|open| - 1] + [SortRowByLeftBound(open[|open| - 1])];
    var last := open[|open| - 1];
    assert last[0] in multiset(SortRowByLeftBound(last));
    forall i | 0 <= i < |t| ensures t[i] == SortRowByLeftBound(raw[i]) {
      if i < |t| - 1 {
        assert t[i] == open[i];
      }
    }
    forall i | 0 <= i < |t| ensures t[i] != [] && SortedBy(t[i], LeftBound) {
      if i < |t| - 1 {
        assert t[i] == open[i] && open[i] != [];
      } else {
        assert t[i] == SortRowByLeftBound(last);
      }
    }
    assert SameRowContents(t, open);
    FlattenMultiset(t, open);
  }

  /**
   * The reconstruction as it was evidently meant: the same rows, with the last
   * row ordered by `left_bound` as well.
   */
  method TableizeFinalized(pr: ParsedResult) returns (table: seq<seq<Line>>)
    requires Sortable(pr.overlay.lines)
    ensures |table| == |RawRows(LinesSortedByUpperBound(pr.overlay))|
    ensures forall i :: 0 <= i < |table| ==>
      table[i] == SortRowByLeftBound(RawRows(LinesSortedByUpperBound(pr.overlay))[i])
    ensures forall i :: 0 <= i < |table| ==> table[i] != [] && SortedBy(table[i], LeftBound)
    ensures multiset(Flatten(table)) == multiset(pr.overlay.lines)
  {
    table := Tableize(pr);
    if table != [] {
      SortLastRow(RawRows(LinesSortedByUpperBound(pr.overlay)), table);
      table := table[..|table| - 1] + [SortRowByLeftBound(table[|table| - 1])];
    }
  }

  // ---------------------------------------------------------------- the unsorted last row

  /** A price printed slightly higher than its label, to the label's right. */
  const AmountLine: Line := Line("12,50", [Word("12,50", 300, 0, 20, 60)], 20, 0)
  const LabelLine: Line := Line("TOTALE", [Word("TOTALE", 10, 2, 20, 90)], 20, 2)

  /** The bounds of a line made of a single word are that word's edges. */
  lemma SingleWordBounds(l: Line)
    requires |l.words| == 1
    ensures LeftBound(l) == l.words[0].left
    ensures UpperBound(l) == Some(l.words[0].top)
    ensures LowerBound(l) == Some(Bottom(l.words[0]))
  {
  }

  lemma ExampleSorted()
    ensures LinesSortedByUpperBound(Overlay([LabelLine, AmountLine])) == [AmountLine, LabelLine]
  {
    SingleWordBounds(AmountLine);
    SingleWordBounds(LabelLine);
    assert TopKey(AmountLine) == 0 && TopKey(LabelLine) == 2;
    assert StableSort([AmountLine], TopKey) == [AmountLine];
    assert StableSort([LabelLine, AmountLine], TopKey) == Insert(LabelLine, [AmountLine], TopKey);
  }

  lemma ExampleGrouped()
    ensures RawRows([AmountLine, LabelLine]) == [[AmountLine, LabelLine]]
  {
    SingleWordBounds(AmountLine);
    SingleWordBounds(LabelLine);
    assert OnSameLine(AmountLine, LabelLine);
    GroupStep([], AmountLine, OnSameLine);
    assert [] + [AmountLine] == [AmountLine];
    GroupStep([AmountLine], LabelLine, OnSameLine);
    assert [AmountLine] + [LabelLine] == [AmountLine, LabelLine];
  }

  /**
   * Two lines on one row: sorted by top edge the amount comes first, so the
   * source's last row reads "12,50 | TOTALE", which is not in column order.
   */
  lemma LastRowLeftUnsorted()
    ensures RawRows(LinesSortedByUpperBound(Overlay([LabelLine, AmountLine]))) == [[AmountLine, LabelLine]]
    ensures !SortedBy([AmountLine, LabelLine], LeftBound)
  {
    ExampleSorted();
    ExampleGrouped();
    SingleWordBounds(AmountLine);
    SingleWordBounds(LabelLine);
    assert LeftBound(AmountLine) > LeftBound(LabelLine);
  }

}
