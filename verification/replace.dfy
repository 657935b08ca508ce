/**
 * The find-and-replace dialog: replace the current selection, re-select the
 * inserted text, and chain a forward find with the shared last pattern.
 */
module Replace {
  import opened TextBuffer
  import opened EditorState
  import opened Search

  /**
   * `ReplaceDialog::replace_selection`. With a selection `[s, e)` the
   * selected bytes are removed, `newText` is inserted at `s`, the inserted
   * text is selected and the caret put after it; both buffer edits report a
   * modification, so the text is marked changed. Without a selection nothing
   * happens.
   */
  function ReplaceSelection(ed: Editor, newText: seq<char>): (r: Editor)
    requires Valid(ed)
    ensures ed.selection.None? ==> r == ed
    ensures ed.selection.Some? ==>
              var (s, e) := ed.selection.value;
              && |r.text| == |ed.text| - (e - s) + |newText|
              && r.text[..s] == ed.text[..s]
              && r.text[s..s + |newText|] == newText
              && r.text[s + |newText|..] == ed.text[e..]
              && r.selection == Select(s, s + |newText|)
              && r.caret == s + |newText|
              && r.dirty
    ensures r.style == ed.style && r.lastFind == ed.lastFind && r.fileName == ed.fileName
    ensures Valid(r)
  {
    match ed.selection
    case None => ed
    case Some((s, e)) =>
      var removed := OnModified(ed.(text := ed.text[..s] + ed.text[e..], selection := None), 0, e - s);
      var inserted := OnModified(removed.(text := removed.text[..s] + newText + removed.text[s..]), |newText|, 0);
      inserted.(selection := Select(s, s + |newText|), caret := s + |newText|)
  }

  /** The replaced text is the text before the selection, the new text, then the text after it. */
  lemma ReplacedText(ed: Editor, newText: seq<char>)
    requires Valid(ed) && ed.selection.Some?
    ensures var (s, e) := ed.selection.value;
            ReplaceSelection(ed, newText).text == ed.text[..s] + newText + ed.text[e..]
  {
    var (s, e) := ed.selection.value;
    var t := ReplaceSelection(ed, newText).text;
    assert t == t[..s] + t[s..s + |newText|] + t[s + |newText|..];
  }

  /**
   * `ReplaceDialog::replace_and_find_callback`: replace the selection with
   * the dialog's replacement text, then find the last pattern forward from
   * the new caret. The pattern field of the dialog is not read here.
   */
  function ReplaceAndFind(eq: CharEq, ed: Editor, replacement: seq<char>): (r: Step)
    requires Valid(ed)
    ensures r.ed.lastFind == ed.lastFind && r.ed.fileName == ed.fileName && Valid(r.ed)
    ensures ed.selection.None? ==> r == Find(eq, ed, ed.lastFind, true)
    ensures ed.selection.Some? ==>
              var mid := ReplaceSelection(ed, replacement);
              && r.ed.text == mid.text && r.ed.dirty
              && r.ed == mid.(selection := r.ed.selection, caret := r.ed.caret)
              && ForwardFound(eq, mid, ed.lastFind, ed.selection.value.0 + |replacement|, r)
  {
    if ed.selection.None? then Find(eq, ReplaceSelection(ed, replacement), ed.lastFind, true)
    else FindAfterReplace(eq, ed, replacement); Find(eq, ReplaceSelection(ed, replacement), ed.lastFind, true)
  }

  /** The follow-up find of Replace searches the replaced text from the end of the inserted text. */
  lemma FindAfterReplace(eq: CharEq, ed: Editor, replacement: seq<char>)
    requires Valid(ed) && ed.selection.Some?
    ensures var mid := ReplaceSelection(ed, replacement);
            ForwardFound(eq, mid, ed.lastFind, ed.selection.value.0 + |replacement|, Find(eq, mid, ed.lastFind, true))
  {
    var mid := ReplaceSelection(ed, replacement);
    FindIsForwardFound(eq, mid, ed.lastFind, ed.selection.value.0 + |replacement|);
  }

  /**
   * The follow-up find starts right after the inserted text: when the last
   * pattern occurs there or later, the leftmost such occurrence is selected,
   * so the inserted text is only searched again after the wraparound.
   */
  lemma ReplaceThenFindStartsAfterInsert(eq: CharEq, ed: Editor, replacement: seq<char>)
    requires Valid(ed) && ed.selection.Some?
    requires var after := ed.selection.value.0 + |replacement|;
             !NoMatchIn(eq, ReplaceSelection(ed, replacement).text, ed.lastFind, after, |ReplaceSelection(ed, replacement).text|)
    ensures var r := ReplaceAndFind(eq, ed, replacement);
            var after := ed.selection.value.0 + |replacement|;
            && r.notices == []
            && FirstMatchFrom(eq, r.ed.text, ed.lastFind, after, r.ed.caret - |ed.lastFind|)
  {
    var mid := ReplaceSelection(ed, replacement);
    var after := ed.selection.value.0 + |replacement|;
    var r := ReplaceAndFind(eq, ed, replacement);
    var p :| after <= p <= |mid.text| && MatchAt(eq, mid.text, ed.lastFind, p);
    ForwardFoundFirst(eq, mid, ed.lastFind, after, r, p);
  }

  /**
   * `ReplaceDialog::find_next_callback`: store the pattern field (cut to the
   * array size) as the shared last pattern and, when it is not empty, find
   * it forward. The replacement field is copied into a dialog-private array
   * that nothing reads, so it does not appear here.
   */
  function DialogFindNext(eq: CharEq, ed: Editor, findInput: seq<char>): (r: Step)
    ensures r.ed.lastFind == StoredPattern(findInput)
    ensures r.ed.text == ed.text && r.ed.dirty == ed.dirty && r.ed.fileName == ed.fileName
    ensures findInput == [] ==> r == Step(ed.(lastFind := []), [])
    ensures findInput != [] ==>
              var pattern := StoredPattern(findInput);
              && (r.notices == [NotFound(pattern)] <==> NoMatch(eq, ed.text, pattern))
              && (NoMatch(eq, ed.text, pattern) ==> r.ed == ed.(lastFind := pattern))
              && (!NoMatch(eq, ed.text, pattern) ==>
                    && r.notices == []
                    && ForwardChoice(eq, ed.text, pattern, ed.caret, r.ed.caret - |pattern|)
                    && r.ed.selection == Select(r.ed.caret - |pattern|, r.ed.caret)
                    && r.ed == ed.(lastFind := pattern, selection := r.ed.selection, caret := r.ed.caret))
    ensures Valid(ed) ==> Valid(r.ed)
  {
    var stored := ed.(lastFind := StoredPattern(findInput));
    if stored.lastFind != [] then Find(eq, stored, stored.lastFind, true) else Step(stored, [])
  }
}
