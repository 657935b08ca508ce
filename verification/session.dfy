/**
 * The File menu and the text-changed callback: how the file name, the
 * dirty flag and the window title move. Dialog answers and file-system
 * results are inputs: a file chooser answer is `Some(path)` or `None`
 * (cancelled), a load is `Loaded(content)` or `LoadFailed`.
 */
module Session {
  import opened TextBuffer
  import opened EditorState

  /** The answer to "save the changes first?": cancel, save, don't save. */
  datatype SaveChoice = Cancel | SaveFirst | Discard

  datatype LoadOutcome = Loaded(content: seq<char>) | LoadFailed

  /** The state after a quit request, and whether all windows were hidden. */
  datatype Exit = Exit(ed: Editor, quits: bool)

  /**
   * The buffer's `text()` / file load: the whole text is replaced, which
   * drops the selection and leaves the caret at the start; the modification
   * is reported to the text-changed callback.
   */
  function ReplaceAll(ed: Editor, content: seq<char>): (r: Editor)
    ensures r.text == content && r.selection.None? && r.caret == 0
    ensures r.dirty == (ed.dirty || |content| != 0 || |ed.text| != 0)
    ensures r.fileName == ed.fileName && r.lastFind == ed.lastFind && r.style == ed.style
    ensures Valid(ed) ==> Valid(r)
  {
    OnModified(ed.(text := content, selection := None, caret := 0), |content|, |ed.text|)
  }

  /** `menu_file_new_callback`: empty the buffer and mark it clean; the file name stays. */
  function FileNew(ed: Editor): (r: Editor)
    ensures r.text == [] && !r.dirty && r.fileName == ed.fileName
    ensures r.title == Title(ed.fileName, false)
    ensures r.selection.None? && r.caret == 0
    ensures r.lastFind == ed.lastFind && r.style == ed.style
    ensures Valid(r)
  {
    SetTextChanged(ReplaceAll(ed, []), false)
  }

  /**
   * `menu_file_save_as_callback`: with a chosen path, write the buffer there
   * (the write's result is ignored), adopt the path as the file name and mark
   * the text clean; a cancelled chooser changes nothing.
   */
  function FileSaveAs(ed: Editor, chooser: Option<seq<char>>): (r: Editor)
    ensures chooser.None? ==> r == ed
    ensures chooser.Some? ==>
              && r.fileName == chooser.value && !r.dirty
              && r.title == Title(chooser.value, false)
              && r.text == ed.text
    ensures r.lastFind == ed.lastFind && r.style == ed.style
    ensures r.selection == ed.selection && r.caret == ed.caret
    ensures Valid(ed) ==> Valid(r)
  {
    match chooser
    case None => ed
    case Some(path) => SetTextChanged(SetFileName(ed, path), false)
  }

  /**
   * `menu_file_save_callback`: without a file name this is Save As; with
   * one, the buffer is written there (result ignored) and marked clean.
   */
  function FileSave(ed: Editor, chooser: Option<seq<char>>): (r: Editor)
    ensures ed.fileName != [] ==> !r.dirty && r.fileName == ed.fileName && r.title == Title(ed.fileName, false)
    ensures ed.fileName == [] ==> r == FileSaveAs(ed, chooser)
    ensures r.text == ed.text
    ensures r.lastFind == ed.lastFind && r.style == ed.style
    ensures r.selection == ed.selection && r.caret == ed.caret
    ensures Valid(ed) ==> Valid(r)
  {
    if ed.fileName == [] then FileSaveAs(ed, chooser) else SetTextChanged(ed, false)
  }

  /**
   * `load_file_content`: a successful load replaces the text, adopts the
   * path as the file name and marks the text clean; a failed load raises the
   * "cannot open" alert and changes nothing.
   */
  function LoadFileContent(ed: Editor, path: seq<char>, load: LoadOutcome): (r: Step)
    ensures load.Loaded? ==>
              && r.notices == []
              && r.ed.text == load.content && r.ed.fileName == path && !r.ed.dirty
              && r.ed.title == Title(path, false) && r.ed.caret == 0 && r.ed.selection.None?
    ensures load.LoadFailed? ==> r == Step(ed, [CannotOpen(path)])
    ensures r.ed.lastFind == ed.lastFind && r.ed.style == ed.style
    ensures Valid(ed) ==> Valid(r.ed)
  {
    match load
    case Loaded(content) => Step(SetTextChanged(SetFileName(ReplaceAll(ed, content), path), false), [])
    case LoadFailed => Step(ed, [CannotOpen(path)])
  }

  /**
   * `menu_file_open_callback`: with unsaved changes ask first (cancel stops,
   * save runs File Save), then let the user choose a file and load it.
   */
  function FileOpen(ed: Editor, choice: SaveChoice, saveChooser: Option<seq<char>>,
                    openChooser: Option<seq<char>>, load: LoadOutcome): (r: Step)
    ensures ed.dirty && choice == Cancel ==> r == Step(ed, [])
    ensures !(ed.dirty && choice == Cancel) ==>
              var asked := if ed.dirty && choice == SaveFirst then FileSave(ed, saveChooser) else ed;
              && (openChooser.None? ==> r == Step(asked, []))
              && (openChooser.Some? ==> r == LoadFileContent(asked, openChooser.value, load))
    ensures Valid(ed) ==> Valid(r.ed)
  {
    if ed.dirty && choice == Cancel then Step(ed, [])
    else
      var asked := if ed.dirty && choice == SaveFirst then FileSave(ed, saveChooser) else ed;
      match openChooser
      case None => Step(asked, [])
      case Some(path) => LoadFileContent(asked, path, load)
  }

  /**
   * Open as written replaces an unnamed, changed document whose Save As was
   * cancelled: the user asked to save, nothing was saved, and the chosen
   * file is loaded over the unsaved text.
   */
  lemma OpenAfterCancelledSaveAsLosesChanges(ed: Editor, path: seq<char>, content: seq<char>)
    requires ed.dirty && ed.fileName == []
    ensures var r := FileOpen(ed, SaveFirst, None, Some(path), Loaded(content));
            r.ed.text == content && !r.ed.dirty && r.ed.fileName == path
  {
  }

  /**
   * Open with the save step checked: after "save", the file is only chosen
   * and loaded when the save left the text clean; a cancelled Save As keeps
   * the unsaved text.
   */
  function FileOpenChecked(ed: Editor, choice: SaveChoice, saveChooser: Option<seq<char>>,
                           openChooser: Option<seq<char>>, load: LoadOutcome): (r: Step)
    ensures !ed.dirty ==> r == FileOpen(ed, choice, saveChooser, openChooser, load)
    ensures ed.dirty && choice == Cancel ==> r == Step(ed, [])
    ensures ed.dirty && choice == Discard ==> r == FileOpen(ed, choice, saveChooser, openChooser, load)
    ensures ed.dirty && choice == SaveFirst && FileSave(ed, saveChooser).dirty ==> r == Step(FileSave(ed, saveChooser), [])
    ensures ed.dirty && choice == SaveFirst && !FileSave(ed, saveChooser).dirty ==> r == FileOpen(ed, choice, saveChooser, openChooser, load)
    ensures Valid(ed) ==> Valid(r.ed)
  {
    if ed.dirty && choice == SaveFirst && FileSave(ed, saveChooser).dirty then Step(FileSave(ed, saveChooser), [])
    else FileOpen(ed, choice, saveChooser, openChooser, load)
  }

  /**
   * The checked open replaces changed text only after it was saved or the
   * user chose "don't save".
   */
  lemma OpenCheckedKeepsUnsavedChanges(ed: Editor, choice: SaveChoice, saveChooser: Option<seq<char>>,
                                       openChooser: Option<seq<char>>, load: LoadOutcome)
    ensures var r := FileOpenChecked(ed, choice, saveChooser, openChooser, load);
            ed.dirty && r.ed.text != ed.text ==> choice == Discard || !FileSave(ed, saveChooser).dirty
    ensures var r := FileOpenChecked(ed, choice, saveChooser, openChooser, load);
            ed.dirty && choice == SaveFirst && ed.fileName == [] && saveChooser.None? ==> r == Step(ed, [])
  {
  }

  /**
   * `menu_file_quit_callback` as written: with unsaved changes ask first;
   * cancel keeps the editor open, save runs File Save, and in every other
   * case all windows are hidden, whether or not the save happened.
   */
  function FileQuit(ed: Editor, choice: SaveChoice, saveChooser: Option<seq<char>>): (r: Exit)
    ensures !ed.dirty ==> r == Exit(ed, true)
    ensures ed.dirty ==> (r.quits <==> choice != Cancel)
    ensures ed.dirty && choice == SaveFirst ==> r.ed == FileSave(ed, saveChooser)
    ensures ed.dirty && choice != SaveFirst ==> r.ed == ed
    ensures Valid(ed) ==> Valid(r.ed)
  {
    if !ed.dirty then Exit(ed, true)
    else match choice
      case Cancel => Exit(ed, false)
      case SaveFirst => Exit(FileSave(ed, saveChooser), true)
      case Discard => Exit(ed, true)
  }

  /**
   * Quit as written closes an unnamed, changed document whose Save As was
   * cancelled: the user asked to save, nothing was saved, and the editor
   * is gone.
   */
  lemma QuitAfterCancelledSaveAsLosesChanges(ed: Editor)
    requires ed.dirty && ed.fileName == []
    ensures FileQuit(ed, SaveFirst, None).quits
    ensures FileQuit(ed, SaveFirst, None).ed.dirty
  {
  }

  /**
   * Quit with the save step checked: after "save", the editor only closes
   * when the save left the text clean; a cancelled Save As keeps it open.
   */
  function FileQuitChecked(ed: Editor, choice: SaveChoice, saveChooser: Option<seq<char>>): (r: Exit)
    ensures !ed.dirty ==> r == Exit(ed, true)
    ensures ed.dirty && choice == Cancel ==> r == Exit(ed, false)
    ensures ed.dirty && choice == Discard ==> r == Exit(ed, true)
    ensures ed.dirty && choice == SaveFirst ==> r.ed == FileSave(ed, saveChooser)
    ensures ed.dirty && choice == SaveFirst ==> (r.quits <==> !r.ed.dirty)
    ensures Valid(ed) ==> Valid(r.ed)
  {
    if !ed.dirty then Exit(ed, true)
    else match choice
      case Cancel => Exit(ed, false)
      case SaveFirst =>
        var saved := FileSave(ed, saveChooser);
        Exit(saved, !saved.dirty)
      case Discard => Exit(ed, true)
  }

  /** The checked quit closes the editor only on clean text or an explicit "don't save". */
  lemma QuitCheckedKeepsUnsavedChanges(ed: Editor, choice: SaveChoice, saveChooser: Option<seq<char>>)
    ensures var r := FileQuitChecked(ed, choice, saveChooser);
            r.quits ==> !r.ed.dirty || choice == Discard
    ensures var r := FileQuitChecked(ed, choice, saveChooser);
            ed.dirty && choice == SaveFirst && ed.fileName == [] && saveChooser.None? ==> !r.quits
  {
  }
}
