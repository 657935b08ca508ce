/**
 * The Find menu: Find, Find All, Next and Previous. A prompt answer is
 * `Some(text)`, a cancelled prompt is `None`.
 */
module FindMenu {
  import opened TextBuffer
  import opened EditorState
  import opened Search
  import opened HighlightAll

  /**
   * `menu_find_find_callback`: prompt for a pattern, store it (cut to the
   * array size) as the last pattern and find the pattern as typed forward.
   */
  function MenuFind(eq: CharEq, ed: Editor, prompt: Option<seq<char>>): (r: Step)
    ensures prompt.None? ==> r == Step(ed, [])
    ensures prompt.Some? ==>
              var pattern := prompt.value;
              && r.ed.lastFind == StoredPattern(pattern)
              && r.ed.text == ed.text && r.ed.dirty == ed.dirty
              && (r.notices == [NotFound(pattern)] <==> NoMatch(eq, ed.text, pattern))
              && (NoMatch(eq, ed.text, pattern) ==> r.ed == ed.(lastFind := StoredPattern(pattern)))
              && (!NoMatch(eq, ed.text, pattern) ==>
                    && r.notices == []
                    && ForwardChoice(eq, ed.text, pattern, ed.caret, r.ed.caret - |pattern|)
                    && r.ed.selection == Select(r.ed.caret - |pattern|, r.ed.caret)
                    && r.ed == ed.(lastFind := StoredPattern(pattern), selection := r.ed.selection, caret := r.ed.caret))
    ensures Valid(ed) ==> Valid(r.ed)
  {
    match prompt
    case None => Step(ed, [])
    case Some(pattern) => Find(eq, ed.(lastFind := StoredPattern(pattern)), pattern, true)
  }

  /**
   * `menu_find_next_callback`: find the last pattern forward; with no last
   * pattern, fall back to the Find prompt.
   */
  function MenuFindNext(eq: CharEq, ed: Editor, prompt: Option<seq<char>>): (r: Step)
    ensures ed.lastFind == [] ==> r == MenuFind(eq, ed, prompt)
    ensures ed.lastFind != [] ==>
              && r.ed.lastFind == ed.lastFind
              && (r.notices == [NotFound(ed.lastFind)] <==> NoMatch(eq, ed.text, ed.lastFind))
              && (NoMatch(eq, ed.text, ed.lastFind) ==> r.ed == ed)
              && (!NoMatch(eq, ed.text, ed.lastFind) ==>
                    && r.notices == []
                    && ForwardChoice(eq, ed.text, ed.lastFind, ed.caret, r.ed.caret - |ed.lastFind|)
                    && r.ed.selection == Select(r.ed.caret - |ed.lastFind|, r.ed.caret)
                    && r.ed == ed.(selection := r.ed.selection, caret := r.ed.caret))
    ensures Valid(ed) ==> Valid(r.ed)
  {
    if ed.lastFind != [] then Find(eq, ed, ed.lastFind, true) else MenuFind(eq, ed, prompt)
  }

  /**
   * `menu_find_prev_callback`: find the last pattern backward; with no last
   * pattern, fall back to the Find prompt, which searches forward.
   */
  function MenuFindPrev(eq: CharEq, ed: Editor, prompt: Option<seq<char>>): (r: Step)
    ensures ed.lastFind == [] ==> r == MenuFind(eq, ed, prompt)
    ensures ed.lastFind != [] ==>
              && r.ed.lastFind == ed.lastFind
              && (r.notices == [NotFound(ed.lastFind)] <==> NoMatch(eq, ed.text, ed.lastFind))
              && (NoMatch(eq, ed.text, ed.lastFind) ==> r.ed == ed)
              && (!NoMatch(eq, ed.text, ed.lastFind) ==>
                    && r.notices == []
                    && BackwardChoice(eq, ed.text, ed.lastFind, ed.caret, r.ed.caret - |ed.lastFind|)
                    && r.ed.selection == Select(r.ed.caret - |ed.lastFind|, r.ed.caret)
                    && r.ed == ed.(selection := r.ed.selection, caret := r.ed.caret))
    ensures Valid(ed) ==> Valid(r.ed)
  {
    if ed.lastFind != [] then Find(eq, ed, ed.lastFind, false) else MenuFind(eq, ed, prompt)
  }

  /**
   * The loop of `find_all_pattern` as written, run for at most `fuel`
   * iterations from the search position `pos` with `total` matches counted:
   * `Some(count)` when the loop exits, `None` when it is still running.
   */
  function FindAllLoop(eq: CharEq, text: seq<char>, needle: seq<char>, pos: int, total: nat, fuel: nat): (r: Option<nat>)
    ensures SearchForward(eq, text, needle, pos).None? ==> r == Some(total)
    ensures r.Some? ==> total <= r.value <= total + fuel
    decreases fuel
  {
    match SearchForward(eq, text, needle, pos)
    case None => Some(total)
    case Some(p) =>
      if fuel == 0 then None else FindAllLoop(eq, text, needle, p + |needle|, total + 1, fuel - 1)
  }

  /**
   * With a non-empty pattern the loop as written exits once it has had one
   * iteration per remaining byte, with the count of the reference scan.
   */
  lemma {:induction false} FindAllLoopExits(eq: CharEq, text: seq<char>, needle: seq<char>, pos: int, total: nat, fuel: nat)
    requires |needle| > 0
    requires |text| + 1 - pos <= fuel
    ensures FindAllLoop(eq, text, needle, pos, total, fuel) == Some(total + |AllMatches(eq, text, needle, pos)|)
    decreases fuel
  {
    match SearchForward(eq, text, needle, pos)
    case None =>
    case Some(p) =>
      AllMatchesUnfold(eq, text, needle, pos, p);
      FindAllLoopExits(eq, text, needle, p + |needle|, total + 1, fuel - 1);
  }

  /**
   * With an empty pattern and a non-empty text the loop as written never
   * exits: the empty pattern matches at the search position and the
   * position advances by `strlen("") == 0`, so no amount of fuel is enough.
   * (On an empty text the first search finds nothing and the loop is never
   * entered.)
   */
  lemma {:induction false} EmptyPatternLoopNeverExits(eq: CharEq, text: seq<char>, pos: int, total: nat, fuel: nat)
    requires 0 <= pos < |text|
    ensures FindAllLoop(eq, text, [], pos, total, fuel) == None
    decreases fuel
  {
    assert MatchAt(eq, text, [], pos);
    assert SearchForward(eq, text, [], pos) == Some(pos);
    if fuel > 0 {
      EmptyPatternLoopNeverExits(eq, text, pos, total + 1, fuel - 1);
    }
  }

  /**
   * `menu_find_all_callback`: prompt for a pattern, store it as the last
   * pattern and run find-all with it. An empty pattern is reported as not
   * found without a scan (the code as written loops forever on it; see
   * `EmptyPatternLoopNeverExits`).
   */
  method MenuFindAll(eq: CharEq, ed: Editor, prompt: Option<seq<char>>) returns (r: Step, painted: seq<char>)
    ensures prompt.None? ==> r == Step(ed, []) && painted == ed.style
    ensures prompt == Some([]) ==> r == Step(ed.(lastFind := []), [NotFound([])]) && painted == ed.style
    ensures prompt.Some? && prompt.value != [] ==>
              var pattern := prompt.value;
              var count := |AllMatches(eq, ed.text, pattern, 0)|;
              && r.ed == ed.(lastFind := StoredPattern(pattern), style := PlainMask(|ed.text|))
              && |painted| == |ed.text|
              && Paints(painted, AllMatches(eq, ed.text, pattern, 0), |pattern|)
              && r.notices == if count == 0 then [NotFound(pattern)] else [FoundCount(pattern, count)]
  {
    match prompt
    case None =>
      r, painted := Step(ed, []), ed.style;
    case Some(pattern) =>
      var stored := ed.(lastFind := StoredPattern(pattern));
      if pattern == [] {
        r, painted := Step(stored, [NotFound(pattern)]), ed.style;
      } else {
        r, painted := FindAll(eq, stored, pattern);
      }
  }

  /** With no last pattern, Previous prompts and then searches forward, not backward. */
  lemma PrevWithoutPatternSearchesForward(eq: CharEq, ed: Editor, pattern: seq<char>)
    requires ed.lastFind == []
    ensures MenuFindPrev(eq, ed, Some(pattern)) == Find(eq, ed.(lastFind := StoredPattern(pattern)), pattern, true)
  {
  }
}
