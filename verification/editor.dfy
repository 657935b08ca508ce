/**
 * The editor's state as one immutable record, and the small state updates
 * every operation shares: the dirty flag, the file name, the window title,
 * the selection and the stored search pattern.
 *
 * Offsets count bytes, as every offset in the editor is computed with
 * `strlen`; a `char` of the text, the style mask and a pattern stands for
 * one byte of the buffer. The window labels are the exception: they are
 * written as Unicode characters ("临时文件" is four characters here and
 * twelve UTF-8 bytes in the program), and no offset is taken in them.
 */
module EditorState {
  import opened TextBuffer

  /** Style-mask marker of plain text ('A', first row of the style table). */
  const Plain: char := 'A'
  /** Style-mask marker of a highlighted search match ('B', second row). */
  const Highlight: char := 'B'

  /** Window label used while no file name is set ("temporary file"). */
  const Untitled: string := "临时文件"
  /** Window label given at construction, before any title update ("text editor"). */
  const AppTitle: string := "文本编辑器"
  /** Size of the character array that holds the last search pattern. */
  const LastFindCapacity: nat := 512

  datatype Editor = Editor(
    text: seq<char>,                   // the text buffer
    style: seq<char>,                  // the parallel style buffer of Plain/Highlight markers
    selection: Option<(int, int)>,     // the buffer's primary selection [start, end)
    caret: int,                        // the editor's insert position
    lastFind: seq<char>,               // the shared last search pattern
    fileName: seq<char>,
    dirty: bool,                       // the editor's "text changed" flag
    title: seq<char>                   // the window label
  )

  /** A message box the operation raises. */
  datatype Notice =
    | NotFound(pattern: seq<char>)                 // alert: pattern not found in the text
    | FoundCount(pattern: seq<char>, count: nat)   // message: pattern found `count` times
    | CannotOpen(path: seq<char>)                  // alert: the file could not be opened

  /** The state after an operation and the message boxes it raised, in order. */
  datatype Step = Step(ed: Editor, notices: seq<Notice>)

  /** The state right after construction: empty buffers, no file name, clean. */
  function Initial(): (ed: Editor)
    ensures Valid(ed)
    ensures ed.text == [] && ed.lastFind == [] && ed.fileName == [] && !ed.dirty
  {
    Editor([], [], None, 0, [], [], false, AppTitle)
  }

  /** The label the title update computes from the file name and the dirty flag. */
  function Title(fileName: seq<char>, dirty: bool): (t: seq<char>)
    ensures var shown := if fileName == [] then Untitled else fileName;
            && |t| == |shown| + (if dirty then 2 else 0)
            && t[..|shown|] == shown
            && (dirty ==> t[|shown|..] == " *")
  {
    if fileName == [] then
      if dirty then Untitled + " *" else Untitled
    else if dirty then
      fileName + " *"
    else
      fileName
  }

  /**
   * The state a user can observe: caret and selection lie inside the text
   * and the window label is either the construction label (nothing has
   * touched the title yet) or the label derived from name and dirty flag.
   */
  predicate Valid(ed: Editor)
  {
    && 0 <= ed.caret <= |ed.text|
    && (ed.selection.Some? ==>
          0 <= ed.selection.value.0 < ed.selection.value.1 <= |ed.text|)
    && (|| ed.title == Title(ed.fileName, ed.dirty)
        || (ed.title == AppTitle && ed.fileName == [] && !ed.dirty))
  }

  /** The toolkit's `select`: an empty range leaves nothing selected. */
  function Select(start: int, end: int): (r: Option<(int, int)>)
    ensures r.Some? <==> start != end
    ensures r.Some? ==> r.value == (start, end)
  {
    if start == end then None else Some((start, end))
  }

  /** `set_text_changed`: store the flag and refresh the title. */
  function SetTextChanged(ed: Editor, changed: bool): (r: Editor)
    ensures r.dirty == changed && r.fileName == ed.fileName
    ensures r.title == Title(r.fileName, r.dirty)
    ensures r.text == ed.text && r.style == ed.style && r.selection == ed.selection
    ensures r.caret == ed.caret && r.lastFind == ed.lastFind
    ensures Valid(ed) ==> Valid(r)
  {
    ed.(dirty := changed, title := Title(ed.fileName, changed))
  }

  /** `set_file_name`: store the name and refresh the title. */
  function SetFileName(ed: Editor, name: seq<char>): (r: Editor)
    ensures r.fileName == name && r.dirty == ed.dirty
    ensures r.title == Title(r.fileName, r.dirty)
    ensures r.text == ed.text && r.style == ed.style && r.selection == ed.selection
    ensures r.caret == ed.caret && r.lastFind == ed.lastFind
    ensures Valid(ed) ==> Valid(r)
  {
    ed.(fileName := name, title := Title(name, ed.dirty))
  }

  /**
   * `text_changed_callback`: a buffer modification with a non-zero inserted
   * or deleted count marks the text changed; nothing ever clears it here.
   */
  function OnModified(ed: Editor, inserted: int, deleted: int): (r: Editor)
    ensures r.dirty == (ed.dirty || inserted != 0 || deleted != 0)
    ensures inserted != 0 || deleted != 0 ==> r.title == Title(ed.fileName, true)
    ensures inserted == 0 && deleted == 0 ==> r == ed
    ensures r.text == ed.text && r.style == ed.style && r.selection == ed.selection
    ensures r.caret == ed.caret && r.lastFind == ed.lastFind && r.fileName == ed.fileName
    ensures Valid(ed) ==> Valid(r)
  {
    if inserted != 0 || deleted != 0 then SetTextChanged(ed, true) else ed
  }

  /**
   * `fl_strlcpy` into the 512-byte pattern array: at most 511 bytes are kept,
   * the rest of the pattern is cut off.
   */
  function StoredPattern(pattern: seq<char>): (r: seq<char>)
    ensures |r| < LastFindCapacity
    ensures |r| == if |pattern| < LastFindCapacity then |pattern| else LastFindCapacity - 1
    ensures r == pattern[..|r|]
  {
    if |pattern| < LastFindCapacity then pattern else pattern[..LastFindCapacity - 1]
  }

  /** Storing an already stored pattern keeps it as it is. */
  lemma StoredPatternIdempotent(pattern: seq<char>)
    ensures StoredPattern(StoredPattern(pattern)) == StoredPattern(pattern)
  {
  }

  /** A name that is set is read back from the title. */
  lemma TitleDeterminesName(f1: seq<char>, f2: seq<char>, dirty: bool)
    requires f1 != [] && f2 != []
    requires Title(f1, dirty) == Title(f2, dirty)
    ensures f1 == f2
  {
    var t := Title(f1, dirty);
    assert f1 == t[..|f1|];
    assert f2 == t[..|f2|];
  }

  /** The dirty flag always changes the title. */
  lemma TitleShowsDirty(fileName: seq<char>)
    ensures Title(fileName, true) != Title(fileName, false)
  {
    assert |Title(fileName, true)| != |Title(fileName, false)|;
  }
}
