/**
 * `find_pattern`: one search from the caret in either direction, with
 * exactly one wraparound retry. Success selects the match and puts the
 * caret at its end; a second miss raises the not-found alert and changes
 * nothing.
 */
module Search {
  import opened TextBuffer
  import opened EditorState

  /**
   * Where a backward find starts looking. One byte before the start of a
   * match that would end at the caret, so the match just found (the one the
   * caret ends) is skipped. The value can be negative.
   */
  function BackwardStart(caret: int, needleLen: nat): (r: int)
  {
    caret - needleLen - 1
  }

  /**
   * `pos - strlen(needle) - 1` as the C code evaluates it: `pos` is
   * converted to a 64-bit `size_t`, the subtraction wraps modulo 2^64, and
   * the result is converted back to the 32-bit `int` parameter.
   */
  function CBackwardStart(caret: int, needleLen: nat): (r: int)
  {
    var wrapped := (caret - needleLen - 1) % 0x1_0000_0000_0000_0000;
    var low := wrapped % 0x1_0000_0000;
    if low < 0x8000_0000 then low else low - 0x1_0000_0000
  }

  /** For offsets that fit an `int`, the wrapped unsigned arithmetic gives the plain difference. */
  lemma CBackwardStartIsPlain(caret: int, needleLen: nat)
    requires 0 <= caret < 0x8000_0000 && needleLen < 0x8000_0000
    ensures CBackwardStart(caret, needleLen) == BackwardStart(caret, needleLen)
  {
    var d := caret - needleLen - 1;
    if d < 0 {
      assert (d % 0x1_0000_0000_0000_0000) == d + 0x1_0000_0000_0000_0000;
      assert (d + 0x1_0000_0000_0000_0000) % 0x1_0000_0000 == d + 0x1_0000_0000;
    }
  }

  /**
   * The match a forward find selects: the leftmost one at or after the
   * caret, or, when there is none there, the leftmost one of the text.
   */
  predicate ForwardChoice(eq: CharEq, text: seq<char>, needle: seq<char>, caret: int, p: int)
  {
    || FirstMatchFrom(eq, text, needle, caret, p)
    || (NoMatchIn(eq, text, needle, caret, |text|) && FirstMatchFrom(eq, text, needle, 0, p))
  }

  /**
   * The match a backward find selects: the rightmost one starting at or
   * before `BackwardStart`, or, when there is none there, the rightmost one
   * of the text.
   */
  predicate BackwardChoice(eq: CharEq, text: seq<char>, needle: seq<char>, caret: int, p: int)
  {
    var start := BackwardStart(caret, |needle|);
    || LastMatchUpTo(eq, text, needle, start, p)
    || (NoMatchIn(eq, text, needle, 0, start) && LastMatchUpTo(eq, text, needle, |text|, p))
  }

  predicate Chosen(eq: CharEq, text: seq<char>, needle: seq<char>, caret: int, forward: bool, p: int)
  {
    if forward then ForwardChoice(eq, text, needle, caret, p)
    else BackwardChoice(eq, text, needle, caret, p)
  }

  /** The two searches of `find_pattern`: from the caret, then once from the far end. */
  function FindTarget(eq: CharEq, text: seq<char>, needle: seq<char>, caret: int, forward: bool): (r: Option<int>)
    ensures r.None? <==> NoMatch(eq, text, needle)
    ensures r.Some? ==> Chosen(eq, text, needle, caret, forward, r.value)
  {
    if forward then
      match SearchForward(eq, text, needle, caret)
      case Some(p) => Some(p)
      case None => SearchForward(eq, text, needle, 0)
    else
      match SearchBackward(eq, text, needle, BackwardStart(caret, |needle|))
      case Some(p) => Some(p)
      case None => SearchBackward(eq, text, needle, |text|)
  }

  /** Whichever pass finds it, the selected match is the only one the choice rule allows. */
  lemma ChosenUnique(eq: CharEq, text: seq<char>, needle: seq<char>, caret: int, forward: bool, p: int, q: int)
    requires Chosen(eq, text, needle, caret, forward, p)
    requires Chosen(eq, text, needle, caret, forward, q)
    ensures p == q
  {
    if forward {
      if FirstMatchFrom(eq, text, needle, caret, p) && FirstMatchFrom(eq, text, needle, caret, q) {
        FirstMatchUnique(eq, text, needle, caret, p, q);
      } else if !FirstMatchFrom(eq, text, needle, caret, p) && !FirstMatchFrom(eq, text, needle, caret, q) {
        FirstMatchUnique(eq, text, needle, 0, p, q);
      }
    } else {
      var start := BackwardStart(caret, |needle|);
      if LastMatchUpTo(eq, text, needle, start, p) && LastMatchUpTo(eq, text, needle, start, q) {
        LastMatchUnique(eq, text, needle, start, p, q);
      } else if !LastMatchUpTo(eq, text, needle, start, p) && !LastMatchUpTo(eq, text, needle, start, q) {
        LastMatchUnique(eq, text, needle, |text|, p, q);
      }
    }
  }

  /**
   * `find_pattern(needle, self, forward)`. On success at `p` the selection
   * becomes `[p, p + |needle|)` and the caret `p + |needle|`; on a miss of
   * both passes the state is untouched and the not-found alert is raised.
   */
  function Find(eq: CharEq, ed: Editor, needle: seq<char>, forward: bool): (r: Step)
    ensures r.ed.text == ed.text && r.ed.style == ed.style && r.ed.lastFind == ed.lastFind
    ensures r.ed.fileName == ed.fileName && r.ed.dirty == ed.dirty && r.ed.title == ed.title
    ensures NoMatch(eq, ed.text, needle) <==> r.notices == [NotFound(needle)]
    ensures NoMatch(eq, ed.text, needle) ==> r.ed == ed
    ensures !NoMatch(eq, ed.text, needle) ==>
              && r.notices == []
              && Chosen(eq, ed.text, needle, ed.caret, forward, r.ed.caret - |needle|)
              && r.ed.selection == Select(r.ed.caret - |needle|, r.ed.caret)
    ensures Valid(ed) ==> Valid(r.ed)
  {
    match FindTarget(eq, ed.text, needle, ed.caret, forward)
    case Some(p) =>
      Step(ed.(selection := Select(p, p + |needle|), caret := p + |needle|), [])
    case None =>
      Step(ed, [NotFound(needle)])
  }

  /**
   * The outcome `r` of a forward find of `needle` in the state `before`,
   * searching from offset `from`: the alert exactly when the needle does not
   * occur, and then no change; otherwise the chosen occurrence is selected
   * and the caret put at its end.
   */
  predicate ForwardFound(eq: CharEq, before: Editor, needle: seq<char>, from: int, r: Step)
  {
    && (r.notices == [NotFound(needle)] <==> NoMatch(eq, before.text, needle))
    && (NoMatch(eq, before.text, needle) ==> r.ed == before)
    && (!NoMatch(eq, before.text, needle) ==>
          && r.notices == []
          && ForwardChoice(eq, before.text, needle, from, r.ed.caret - |needle|)
          && r.ed.selection == Select(r.ed.caret - |needle|, r.ed.caret))
  }

  /** A forward find has the outcome `ForwardFound` from the caret. */
  lemma FindIsForwardFound(eq: CharEq, ed: Editor, needle: seq<char>, from: int)
    requires ed.caret == from
    ensures ForwardFound(eq, ed, needle, from, Find(eq, ed, needle, true))
  {
  }

  /** When the needle occurs at or after `from`, the forward find selects the leftmost such occurrence. */
  lemma ForwardFoundFirst(eq: CharEq, before: Editor, needle: seq<char>, from: int, r: Step, p: int)
    requires ForwardFound(eq, before, needle, from, r)
    requires from <= p && MatchAt(eq, before.text, needle, p)
    ensures r.notices == [] && FirstMatchFrom(eq, before.text, needle, from, r.ed.caret - |needle|)
  {
    assert !NoMatch(eq, before.text, needle) by {
      assert 0 <= p <= |before.text|;
    }
    assert !NoMatchIn(eq, before.text, needle, from, |before.text|);
  }

  /** A forward find selects the leftmost occurrence at or after the caret whenever there is one. */
  lemma ForwardSelectsFirstFromCaret(eq: CharEq, ed: Editor, needle: seq<char>, q: int)
    requires FirstMatchFrom(eq, ed.text, needle, ed.caret, q)
    ensures var r := Find(eq, ed, needle, true);
            && r.notices == []
            && r.ed.selection == Select(q, q + |needle|)
            && r.ed.caret == q + |needle|
  {
    var r := Find(eq, ed, needle, true);
    assert !NoMatch(eq, ed.text, needle);
    ChosenUnique(eq, ed.text, needle, ed.caret, true, r.ed.caret - |needle|, q);
  }

  /**
   * With no occurrence at or after the caret, a forward find wraps and
   * selects the first occurrence of the text.
   */
  lemma ForwardWrapsToEarlierMatch(eq: CharEq, ed: Editor, needle: seq<char>, q: int)
    requires FirstMatchFrom(eq, ed.text, needle, 0, q)
    requires NoMatchIn(eq, ed.text, needle, ed.caret, |ed.text|)
    ensures Find(eq, ed, needle, true).ed.caret == q + |needle|
    ensures Find(eq, ed, needle, true).notices == []
  {
    var r := Find(eq, ed, needle, true);
    assert !NoMatch(eq, ed.text, needle);
    assert FirstMatchFrom(eq, ed.text, needle, 0, q);
    assert NoMatchIn(eq, ed.text, needle, ed.caret, |ed.text|);
    ChosenUnique(eq, ed.text, needle, ed.caret, true, r.ed.caret - |needle|, q);
  }

  /**
   * A backward find whose first pass succeeds selects a match that ends
   * strictly before the caret: the match ending exactly at the caret is
   * never the first-pass result.
   */
  lemma BackwardFirstPassEndsBeforeCaret(eq: CharEq, ed: Editor, needle: seq<char>)
    requires !NoMatchIn(eq, ed.text, needle, 0, BackwardStart(ed.caret, |needle|))
    ensures Find(eq, ed, needle, false).ed.caret < ed.caret
  {
    var r := Find(eq, ed, needle, false);
    var start := BackwardStart(ed.caret, |needle|);
    var p := r.ed.caret - |needle|;
    assert !NoMatch(eq, ed.text, needle);
    assert LastMatchUpTo(eq, ed.text, needle, start, p);
  }

  /** With a single occurrence, that ends at the caret, a backward find wraps and selects it again. */
  lemma BackwardReselectsOnlyMatch(eq: CharEq, ed: Editor, needle: seq<char>)
    requires |needle| <= ed.caret
    requires MatchAt(eq, ed.text, needle, ed.caret - |needle|)
    requires NoMatchIn(eq, ed.text, needle, 0, ed.caret - |needle| - 1)
    requires NoMatchIn(eq, ed.text, needle, ed.caret - |needle| + 1, |ed.text|)
    ensures Find(eq, ed, needle, false).ed.caret == ed.caret
    ensures Find(eq, ed, needle, false).notices == []
  {
    var r := Find(eq, ed, needle, false);
    assert !NoMatch(eq, ed.text, needle);
    assert LastMatchUpTo(eq, ed.text, needle, |ed.text|, ed.caret - |needle|);
    ChosenUnique(eq, ed.text, needle, ed.caret, false, r.ed.caret - |needle|, ed.caret - |needle|);
  }
}
