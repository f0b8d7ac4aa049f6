/**
 * Word boxes and text lines of one OCR overlay page, with the bounds a line
 * derives from its words and the vertical-overlap test that decides whether two
 * lines sit on the same visual row.
 */
module Geometry {
  import opened Optional

  /** A recognized word and its bounding box, in pixels. */
  datatype Word = Word(wordText: string, left: nat, top: nat, height: nat, width: nat)

  /** The right edge of a word. */
  function Right(w: Word): (r: nat)
    ensures w.left <= r
  {
    w.left + w.width
  }

  /** The bottom edge of a word. */
  function Bottom(w: Word): (r: nat)
    ensures w.top <= r
  {
    w.top + w.height
  }

  /** A recognized line: its text and its words in provider order (possibly none). */
  datatype Line = Line(lineText: string, words: seq<Word>, maxHeight: int, minTop: int)

  predicate HasWords(l: Line) {
    l.words != []
  }

  // ---------------------------------------------------------------- extremes of a non-empty sequence

  function MinOf(xs: seq<int>): (m: int)
    requires xs != []
    ensures m in xs && forall i :: 0 <= i < |xs| ==> m <= xs[i]
  {
    if |xs| == 1 then xs[0]
    else
      var rest := MinOf(xs[1..]);
      if xs[0] <= rest then xs[0] else rest
  }

  function MaxOf(xs: seq<int>): (m: int)
    requires xs != []
    ensures m in xs && forall i :: 0 <= i < |xs| ==> xs[i] <= m
  {
    if |xs| == 1 then xs[0]
    else
      var rest := MaxOf(xs[1..]);
      if rest <= xs[0] then xs[0] else rest
  }

  // ---------------------------------------------------------------- line bounds

  /** The smallest left edge of the line's words, or -1 when the line has no words. */
  function LeftBound(l: Line): (r: int)
    ensures r == -1 <==> l.words == []
    ensures l.words != [] ==>
      && (exists i :: 0 <= i < |l.words| && l.words[i].left == r)
      && (forall i :: 0 <= i < |l.words| ==> r <= l.words[i].left)
  {
    if l.words == [] then -1
    else
      var lefts := seq(|l.words|, i requires 0 <= i < |l.words| => l.words[i].left);
      assert forall i :: 0 <= i < |l.words| ==> lefts[i] == l.words[i].left;
      MinOf(lefts)
  }

  /** The largest right edge of the line's words, or -1 when the line has no words. */
  function RightBound(l: Line): (r: int)
    ensures r == -1 <==> l.words == []
    ensures l.words != [] ==>
      && (exists i :: 0 <= i < |l.words| && Right(l.words[i]) == r)
      && (forall i :: 0 <= i < |l.words| ==> Right(l.words[i]) <= r)
  {
    if l.words == [] then -1
    else
      var rights := seq(|l.words|, i requires 0 <= i < |l.words| => Right(l.words[i]));
      assert forall i :: 0 <= i < |l.words| ==> rights[i] == Right(l.words[i]);
      MaxOf(rights)
  }

  /** The smallest top edge of the line's words; absent when the line has no words. */
  function UpperBound(l: Line): (r: Option<int>)
    ensures r.None? <==> l.words == []
    ensures r.Some? ==>
      && (exists i :: 0 <= i < |l.words| && l.words[i].top == r.value)
      && (forall i :: 0 <= i < |l.words| ==> r.value <= l.words[i].top)
  {
    if l.words == [] then None
    else
      var tops := seq(|l.words|, i requires 0 <= i < |l.words| => l.words[i].top);
      assert forall i :: 0 <= i < |l.words| ==> tops[i] == l.words[i].top;
      Some(MinOf(tops))
  }

  /** The largest bottom edge of the line's words; absent when the line has no words. */
  function LowerBound(l: Line): (r: Option<int>)
    ensures r.None? <==> l.words == []
    ensures r.Some? ==>
      && (exists i :: 0 <= i < |l.words| && Bottom(l.words[i]) == r.value)
      && (forall i :: 0 <= i < |l.words| ==> Bottom(l.words[i]) <= r.value)
  {
    if l.words == [] then None
    else
      var bottoms := seq(|l.words|, i requires 0 <= i < |l.words| => Bottom(l.words[i]));
      assert forall i :: 0 <= i < |l.words| ==> bottoms[i] == Bottom(l.words[i]);
      Some(MaxOf(bottoms))
  }

  /** For a line with words, the box it spans is well formed. */
  lemma LineBoundsOrdered(l: Line)
    requires HasWords(l)
    ensures 0 <= LeftBound(l) <= RightBound(l)
    ensures 0 <= UpperBound(l).value <= LowerBound(l).value
  {
    var w := l.words[0];
    assert LeftBound(l) <= w.left <= Right(w) <= RightBound(l);
    assert UpperBound(l).value <= w.top <= Bottom(w) <= LowerBound(l).value;
  }

  // ---------------------------------------------------------------- same visual row

  /**
   * Two lines are on the same row when each one's top edge is at or above the
   * other's bottom edge. Both lines must have words: the bounds of an empty line
   * are absent and cannot be compared.
   */
  predicate IsSameLine(a: Line, b: Line)
    requires HasWords(a) && HasWords(b)
  {
    UpperBound(a).value <= LowerBound(b).value && UpperBound(b).value <= LowerBound(a).value
  }

  /** `y` lies in the closed vertical span `[upper bound, lower bound]` of `l`. */
  predicate InVerticalSpan(l: Line, y: int)
    requires HasWords(l)
  {
    UpperBound(l).value <= y <= LowerBound(l).value
  }

  lemma IsSameLineSymmetric(a: Line, b: Line)
    requires HasWords(a) && HasWords(b)
    ensures IsSameLine(a, b) == IsSameLine(b, a)
  {
  }

  lemma IsSameLineReflexive(a: Line)
    requires HasWords(a)
    ensures IsSameLine(a, a)
  {
    LineBoundsOrdered(a);
  }

  /** Two lines are on the same row exactly when their closed vertical spans intersect. */
  lemma IsSameLineIffSpansMeet(a: Line, b: Line)
    requires HasWords(a) && HasWords(b)
    ensures IsSameLine(a, b) <==> exists y :: InVerticalSpan(a, y) && InVerticalSpan(b, y)
  {
    if IsSameLine(a, b) {
      LineBoundsOrdered(a);
      LineBoundsOrdered(b);
      var y := if UpperBound(a).value <= UpperBound(b).value then UpperBound(b).value else UpperBound(a).value;
      assert InVerticalSpan(a, y) && InVerticalSpan(b, y);
    }
  }

}
