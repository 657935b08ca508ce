/**
 * Concrete runs with case-sensitive comparison.
 */
module Scenarios {
  import opened TextBuffer
  import opened EditorState
  import opened Search
  import opened HighlightAll
  import opened Replace
  import opened FindMenu

  function Exact(a: char, b: char): (r: bool) { a == b }

  /** A match is ruled out by its first byte. */
  lemma FirstByteDiffers(eq: CharEq, text: seq<char>, needle: seq<char>, p: int)
    requires 0 < |needle| && 0 <= p < |text|
    requires !eq(text[p], needle[0])
    ensures !MatchAt(eq, text, needle, p)
  {
  }

  /** The search from `start` stops at `q` when `q` is the first match from there. */
  lemma ForwardStopsAt(eq: CharEq, text: seq<char>, needle: seq<char>, start: int, q: int)
    requires FirstMatchFrom(eq, text, needle, start, q)
    ensures SearchForward(eq, text, needle, start) == Some(q)
  {
    var r := SearchForward(eq, text, needle, start);
    FirstMatchUnique(eq, text, needle, start, r.value, q);
  }

  lemma BackwardStopsAt(eq: CharEq, text: seq<char>, needle: seq<char>, start: int, q: int)
    requires LastMatchUpTo(eq, text, needle, start, q)
    ensures SearchBackward(eq, text, needle, start) == Some(q)
  {
    var r := SearchBackward(eq, text, needle, start);
    LastMatchUnique(eq, text, needle, start, r.value, q);
  }

  /**
   * Previous from the end of "abcabc" skips the occurrence that ends at
   * the caret and selects [0, 3).
   */
  lemma PreviousFromEnd()
    ensures var ed := Initial().(text := "abcabc", caret := 6);
            var r := Find(Exact, ed, "abc", false);
            r.ed.selection == Some((0, 3)) && r.ed.caret == 3
  {
    var t := "abcabc";
    assert !MatchAt(Exact, t, "abc", 1) by { assert t[1] != 'a'; }
    assert !MatchAt(Exact, t, "abc", 2) by { assert t[2] != 'a'; }
    assert MatchAt(Exact, t, "abc", 0);
    BackwardStopsAt(Exact, t, "abc", 2, 0);
  }

  lemma CatSatMatFirst(t: seq<char>, needle: seq<char>)
    requires t == "the cat sat on the mat" && needle == "at"
    ensures SearchForward(Exact, t, needle, 0) == Some(5)
  {
    FirstByteDiffers(Exact, t, needle, 0);
    FirstByteDiffers(Exact, t, needle, 1);
    FirstByteDiffers(Exact, t, needle, 2);
    FirstByteDiffers(Exact, t, needle, 3);
    FirstByteDiffers(Exact, t, needle, 4);
    assert MatchAt(Exact, t, needle, 5);
    ForwardStopsAt(Exact, t, needle, 0, 5);
  }

  lemma CatSatMatSecond(t: seq<char>, needle: seq<char>)
    requires t == "the cat sat on the mat" && needle == "at"
    ensures SearchForward(Exact, t, needle, 7) == Some(9)
  {
    FirstByteDiffers(Exact, t, needle, 7);
    FirstByteDiffers(Exact, t, needle, 8);
    assert MatchAt(Exact, t, needle, 9);
    ForwardStopsAt(Exact, t, needle, 7, 9);
  }

  lemma CatSatMatThird(t: seq<char>, needle: seq<char>)
    requires t == "the cat sat on the mat" && needle == "at"
    ensures SearchForward(Exact, t, needle, 11) == Some(20)
  {
    FirstByteDiffers(Exact, t, needle, 11);
    FirstByteDiffers(Exact, t, needle, 12);
    FirstByteDiffers(Exact, t, needle, 13);
    FirstByteDiffers(Exact, t, needle, 14);
    FirstByteDiffers(Exact, t, needle, 15);
    FirstByteDiffers(Exact, t, needle, 16);
    FirstByteDiffers(Exact, t, needle, 17);
    FirstByteDiffers(Exact, t, needle, 18);
    FirstByteDiffers(Exact, t, needle, 19);
    assert MatchAt(Exact, t, needle, 20);
    ForwardStopsAt(Exact, t, needle, 11, 20);
  }

  /**
   * Find All "at" in "the cat sat on the mat" finds three occurrences, at
   * offsets 5, 9 and 20.
   */
  lemma CatSatMat(t: seq<char>, needle: seq<char>)
    requires t == "the cat sat on the mat" && needle == "at"
    ensures AllMatches(Exact, t, needle, 0) == [5, 9, 20]
  {
    CatSatMatFirst(t, needle);
    CatSatMatSecond(t, needle);
    CatSatMatThird(t, needle);
    assert SearchForward(Exact, t, needle, 22) == None;
    AllMatchesUnfold(Exact, t, needle, 0, 5);
    AllMatchesUnfold(Exact, t, needle, 7, 9);
    AllMatchesUnfold(Exact, t, needle, 11, 20);
  }

  /** One Replace whose follow-up find lands on the leftmost match after the inserted text. */
  lemma ReplaceLands(ed: Editor, replacement: seq<char>, expected: seq<char>, q: int)
    requires Valid(ed) && ed.selection.Some?
    requires ed.text[..ed.selection.value.0] + replacement + ed.text[ed.selection.value.1..] == expected
    requires FirstMatchFrom(Exact, expected, ed.lastFind, ed.selection.value.0 + |replacement|, q)
    ensures var r := ReplaceAndFind(Exact, ed, replacement);
            && r.ed.text == expected && r.notices == []
            && r.ed.selection == Select(q, q + |ed.lastFind|)
            && r.ed.caret == q + |ed.lastFind|
            && r.ed.lastFind == ed.lastFind && Valid(r.ed)
  {
    ReplacedText(ed, replacement);
    ForwardSelectsFirstFromCaret(Exact, ReplaceSelection(ed, replacement), ed.lastFind, q);
  }

  lemma ChainStart(t: seq<char>, pattern: seq<char>)
    requires t == "foo foo foo" && pattern == "foo"
    ensures var s0 := DialogFindNext(Exact, Initial().(text := t), pattern);
            && s0.ed.text == t && s0.ed.lastFind == pattern
            && s0.ed.selection == Some((0, 3)) && Valid(s0.ed)
  {
    var e0 := Initial().(text := t);
    assert StoredPattern(pattern) == pattern;
    assert MatchAt(Exact, t, pattern, 0);
    ForwardSelectsFirstFromCaret(Exact, e0.(lastFind := pattern), pattern, 0);
  }

  lemma ChainFirst(ed: Editor, pattern: seq<char>, replacement: seq<char>)
    requires Valid(ed) && ed.text == "foo foo foo" && ed.selection == Some((0, 3))
    requires ed.lastFind == pattern && pattern == "foo" && replacement == "bar"
    ensures var r := ReplaceAndFind(Exact, ed, replacement);
            && r.ed.text == "bar foo foo" && r.ed.selection == Some((4, 7))
            && r.notices == [] && r.ed.lastFind == pattern && Valid(r.ed)
  {
    var expected := "bar foo foo";
    assert ed.text[..0] + replacement + ed.text[3..] == expected;
    FirstByteDiffers(Exact, expected, pattern, 3);
    assert MatchAt(Exact, expected, pattern, 4);
    ReplaceLands(ed, replacement, expected, 4);
  }

  lemma ChainSecond(ed: Editor, pattern: seq<char>, replacement: seq<char>)
    requires Valid(ed) && ed.text == "bar foo foo" && ed.selection == Some((4, 7))
    requires ed.lastFind == pattern && pattern == "foo" && replacement == "bar"
    ensures var r := ReplaceAndFind(Exact, ed, replacement);
            && r.ed.text == "bar bar foo" && r.ed.selection == Some((8, 11))
            && r.notices == [] && r.ed.lastFind == pattern && Valid(r.ed)
  {
    var expected := "bar bar foo";
    assert ed.text[..4] + replacement + ed.text[7..] == expected;
    FirstByteDiffers(Exact, expected, pattern, 7);
    assert MatchAt(Exact, expected, pattern, 8);
    ReplaceLands(ed, replacement, expected, 8);
  }

  lemma ChainLast(ed: Editor, pattern: seq<char>, replacement: seq<char>)
    requires Valid(ed) && ed.text == "bar bar foo" && ed.selection == Some((8, 11))
    requires ed.lastFind == pattern && pattern == "foo" && replacement == "bar"
    ensures var r := ReplaceAndFind(Exact, ed, replacement);
            r.ed.text == "bar bar bar" && r.notices == [NotFound(pattern)]
  {
    var expected := "bar bar bar";
    ReplacedText(ed, replacement);
    assert ed.text[..8] + replacement + ed.text[11..] == expected;
    forall p | 0 <= p <= 8
      ensures !MatchAt(Exact, expected, pattern, p)
    {
      FirstByteDiffers(Exact, expected, pattern, p);
    }
    assert NoMatch(Exact, expected, pattern);
  }

  /**
   * The replace dialog on "foo foo foo" with pattern "foo" and replacement
   * "bar": Next selects the first "foo"; each Replace replaces the selected
   * occurrence and selects the next one; the third Replace leaves
   * "bar bar bar" and raises the not-found alert.
   */
  lemma ReplaceChain(t: seq<char>, pattern: seq<char>, replacement: seq<char>)
    requires t == "foo foo foo" && pattern == "foo" && replacement == "bar"
    ensures var s0 := DialogFindNext(Exact, Initial().(text := t), pattern);
            var s1 := ReplaceAndFind(Exact, s0.ed, replacement);
            var s2 := ReplaceAndFind(Exact, s1.ed, replacement);
            var s3 := ReplaceAndFind(Exact, s2.ed, replacement);
            && s0.ed.selection == Some((0, 3))
            && s1.ed.text == "bar foo foo" && s1.ed.selection == Some((4, 7))
            && s2.ed.text == "bar bar foo" && s2.ed.selection == Some((8, 11))
            && s3.ed.text == "bar bar bar" && s3.notices == [NotFound(pattern)]
  {
    ChainStart(t, pattern);
    var s0 := DialogFindNext(Exact, Initial().(text := t), pattern);
    ChainFirst(s0.ed, pattern, replacement);
    var s1 := ReplaceAndFind(Exact, s0.ed, replacement);
    ChainSecond(s1.ed, pattern, replacement);
    var s2 := ReplaceAndFind(Exact, s1.ed, replacement);
    ChainLast(s2.ed, pattern, replacement);
  }

  /** An empty pattern does not occur in an empty text: Find raises the not-found alert. */
  lemma EmptyPatternOnEmptyText()
    ensures Find(Exact, Initial(), [], true).notices == [NotFound([])]
  {
  }

  /**
   * An empty pattern searched forward from the end of "ab" is not found
   * there (no offset inside the text is left), so the retry from 0 finds it
   * at 0: the caret moves to 0 and nothing is selected.
   */
  lemma EmptyPatternWrapsToStart(t: seq<char>)
    requires t == "ab"
    ensures var r := Find(Exact, Initial().(text := t, caret := 2), [], true);
            r.notices == [] && r.ed.caret == 0 && r.ed.selection.None?
  {
    var ed := Initial().(text := t, caret := 2);
    assert MatchAt(Exact, t, [], 0);
    ForwardWrapsToEarlierMatch(Exact, ed, [], 0);
  }

  /** On an empty text the find-all loop as written is never entered, even for the empty pattern. */
  lemma EmptyPatternEmptyTextExits(fuel: nat)
    ensures FindAllLoop(Exact, [], [], 0, 0, fuel) == Some(0)
  {
  }
}
