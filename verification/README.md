# Find, replace and session state of the FLTK text editor

This project is a Dafny model of the core of `text_editor.cpp`, a small
FLTK text editor. It covers four parts:

- **Search.** Find forward and backward from the caret, with one
  wraparound retry.
- **Find All.** Count and highlight every non-overlapping occurrence of a
  pattern in the style mask.
- **Find menu and replace dialog.** Next and Previous with the shared
  "last find" pattern, and the dialog's Next and Replace buttons.
- **Session state.** The dirty flag, the file name and the window title,
  as New, Open, Save, Save As, Quit and the buffer-modification callback
  change them.

The whole editor is one immutable record, `EditorState.Editor`. It holds:

- the text and the style mask;
- the selection and the caret;
- the last pattern;
- the file name, the dirty flag and the window label.

Each menu callback is a function from one record to the next. Functions
that can raise a message box also return it as a `Notice`. The answers of
dialogs and file choosers are inputs, and so is the outcome of loading a
file.

The editor calls two toolkit functions, `Fl_Text_Buffer::search_forward`
and `search_backward`, whose code is not part of this model. Module
`TextBuffer` defines them as reference scans, and the editor model relies
only on their contracts:

- a forward search yields the leftmost match at or after its start;
- a backward search yields the rightmost match at or before its start,
  and nothing when the start is negative.

Characters are compared by a parameter `eq`, because no call site chooses
case sensitivity. Offsets count bytes, as every offset in the editor is
computed with `strlen`.

Modules, in dependency order:

- `TextBuffer`: matching and the toolkit searches.
- `EditorState`: the record, the title and the shared state updates.
- `Search`: `find_pattern`.
- `HighlightAll`: `find_all_pattern`.
- `Replace`: the replace dialog.
- `FindMenu`: the Find menu callbacks.
- `Session`: the File menu.
- `Scenarios`: concrete runs.

### Behaviour worth knowing

- **Previous from the end of "abcabc"** skips the occurrence that ends at
  the caret and selects `[0, 3)` (`Scenarios.PreviousFromEnd`). The
  backward search starts at `caret - strlen(needle) - 1`. When the
  occurrence ending at the caret is the only one, the wraparound selects
  it again (`Search.BackwardReselectsOnlyMatch`).
- **"at" in "the cat sat on the mat"** occurs at offsets 5, 9 and 20
  (`Scenarios.CatSatMat`).
- **A negative backward start** is passed to the toolkit unchanged, not
  clamped. The toolkit finds nothing from a negative start, so the
  wraparound pass decides.
- **The style mask** is resized only inside Find All. Edits leave it at its
  old length, and the model does the same.
- **The empty pattern** occurs at every offset inside a non-empty text and
  nowhere in an empty one, because the toolkit tries start offsets only
  below the buffer length. Find with an empty pattern on an empty text
  raises the not-found alert (`Scenarios.EmptyPatternOnEmptyText`). From
  the end of a non-empty text it wraps to offset 0
  (`Scenarios.EmptyPatternWrapsToStart`).

## Model

| member | source | states |
|---|---|---|
| TextBuffer.SearchForward | text_editor.cpp:377 | the toolkit search the editor calls yields the leftmost occurrence at or after the start, and none only when no occurrence starts between the start and the text length |
| TextBuffer.SearchBackward | text_editor.cpp:382 | the backward toolkit search yields the rightmost occurrence at or before the start, none only when none starts in `[0, start]`, and none for a negative start |
| EditorState.Initial | text_editor.cpp:637-651 | the constructed editor has an empty buffer, no last pattern, no file name, a clean flag, and a state that is valid |
| EditorState.Title | text_editor.cpp:571-584 | the label is the file name, or "临时文件" when there is none, followed by " *" exactly when the text is changed |
| EditorState.TitleDeterminesName | text_editor.cpp:577-583 | two different non-empty file names never show the same label for the same flag |
| EditorState.TitleShowsDirty | text_editor.cpp:572-583 | the label for a changed text always differs from the label for a clean one |
| EditorState.SetTextChanged | text_editor.cpp:586-589 | storing the flag leaves a label that shows the stored name and the new flag, keeps text, selection, caret and pattern, and keeps the state valid |
| EditorState.SetFileName | text_editor.cpp:591-594 | storing the name leaves a label that shows the new name and the stored flag, keeps text, selection, caret and pattern, and keeps the state valid |
| EditorState.OnModified | text_editor.cpp:526-533 | a modification with a non-zero inserted or deleted count marks the text changed and shows " *"; a zero-count one changes nothing; the flag is never cleared here |
| EditorState.StoredPattern | text_editor.cpp:458-460 | copying the pattern into the 512-byte array keeps a prefix of it: all of it when it is shorter than 512 bytes, otherwise its first 511 bytes |
| EditorState.StoredPatternIdempotent | text_editor.cpp:460 | storing an already stored pattern leaves it unchanged |
| Search.CBackwardStartIsPlain | text_editor.cpp:382 | for a caret and pattern length that fit an `int`, the wrapped `size_t` subtraction converted back to `int` equals the plain difference `caret - len - 1` |
| Search.FindTarget | text_editor.cpp:376-399 | the two searches find nothing exactly when the pattern does not occur; otherwise they pick the first match from the caret (or the backward start), or else the first match from the far end |
| Search.ChosenUnique | text_editor.cpp:376-399 | the choice rule of the two searches admits exactly one offset |
| Search.Find | text_editor.cpp:362-410 | a find raises the not-found alert exactly when the pattern does not occur, and then changes nothing; otherwise it selects the chosen match, puts the caret at its end, and leaves text, style, name, flag and label alone |
| Search.ForwardSelectsFirstFromCaret | text_editor.cpp:376-388 | a forward find selects the leftmost occurrence at or after the caret whenever one exists |
| Search.FindIsForwardFound | text_editor.cpp:376-408 | a forward find from the caret alerts exactly when the needle does not occur and then changes nothing, and otherwise selects the chosen occurrence and puts the caret at its end |
| Search.ForwardFoundFirst | text_editor.cpp:376-388 | when the needle occurs at or after the search start, the forward find selects the leftmost such occurrence and raises no alert |
| Search.ForwardWrapsToEarlierMatch | text_editor.cpp:391-405 | with no occurrence after the caret, a forward find wraps and selects the first occurrence of the text |
| Search.BackwardFirstPassEndsBeforeCaret | text_editor.cpp:380-387 | a backward find whose first search succeeds moves the caret strictly before where it was |
| Search.BackwardReselectsOnlyMatch | text_editor.cpp:380-405 | when the only occurrence ends at the caret, a backward find wraps around and selects that same occurrence again |
| HighlightAll.PlainMask | text_editor.cpp:427 | the reset mask is as long as the text and all plain |
| HighlightAll.AllMatchesSound | text_editor.cpp:428-441 | every offset the scan reaches is an occurrence at or after its start, and the reached ranges ascend without overlapping |
| HighlightAll.AllMatchesComplete | text_editor.cpp:428-441 | every occurrence at or after the start lies inside a reached range, so the scan misses none except those overlapping one it counted |
| HighlightAll.AllMatchesUnfold | text_editor.cpp:439-440 | after a match at `p` the scan continues from `p + len` |
| HighlightAll.PaintsNoneIsPlain | text_editor.cpp:427 | a mask with no painted range is the plain mask |
| HighlightAll.PaintsExtend | text_editor.cpp:435-437 | highlighting one more range adds exactly that range to the painted set |
| HighlightAll.PlainPaintsNone | text_editor.cpp:427 | the reset mask is the mask painted with no range |
| HighlightAll.HighlightRange | text_editor.cpp:435-437 | the inner loop highlights exactly `[p, p + len)` and leaves every other marker as it was |
| HighlightAll.PaintMatch | text_editor.cpp:434-437 | highlighting a found match adds exactly its range to the painted ranges |
| HighlightAll.ScanAdvance | text_editor.cpp:439-440 | after the match at `p` is counted, the offsets found so far followed by the scan from `p + len` are still the whole scan |
| HighlightAll.ScanStep | text_editor.cpp:431-441 | one iteration counts the found match, highlights its range and searches on after it, keeping count, mask and search position in step with the scan, and strictly advancing |
| HighlightAll.ScanAndPaint | text_editor.cpp:423-441 | the loop counts exactly the occurrences of the non-overlapping scan, and the mask it leaves is highlighted exactly on their ranges |
| HighlightAll.FindAll | text_editor.cpp:412-452 | find-all reports not-found when there is no occurrence and the count otherwise; it ends with the mask plain and as long as the text, and changes nothing else |
| HighlightAll.FindAllIdempotent | text_editor.cpp:412-452 | a second find-all right after the first gives the same state and the same message |
| Replace.ReplaceSelection | text_editor.cpp:665-687 | with a selection `[s, e)`, the text becomes the bytes before `s`, then the new text, then the bytes from `e`; the new text is selected, the caret follows it, and the text is changed; without a selection nothing happens |
| Replace.ReplacedText | text_editor.cpp:679-682 | the replaced text is the prefix up to the selection, the new text, then the suffix after it |
| Replace.ReplaceAndFind | text_editor.cpp:701-708 | with a selection, the text becomes the replaced text and is marked changed; the follow-up forward find raises the alert exactly when the last pattern does not occur in the new text, and then leaves the replaced state; otherwise it selects the first occurrence at or after the end of the inserted text, or after wrapping the first of the text; besides the text and flag of the replacement, only the selection and caret change; with no selection it is only that find |
| Replace.FindAfterReplace | text_editor.cpp:706-707 | the follow-up find runs on the replaced text, from the end of the inserted text |
| Replace.ReplaceThenFindStartsAfterInsert | text_editor.cpp:701-708 | the follow-up find selects the first occurrence starting after the inserted text when there is one |
| Replace.DialogFindNext | text_editor.cpp:689-699 | the dialog's Next stores the pattern field, cut to 511 bytes, as the last pattern; an empty field finds nothing and raises no alert; otherwise the stored pattern is searched forward: a miss raises the alert and changes only the last pattern, a hit selects the chosen occurrence, puts the caret at its end and changes nothing else |
| FindMenu.MenuFind | text_editor.cpp:454-463 | a cancelled prompt changes nothing; otherwise the stored pattern becomes the last pattern and the pattern as typed is searched forward: a miss raises the alert and changes only the last pattern, a hit selects the chosen occurrence, puts the caret at its end and changes nothing else |
| FindMenu.MenuFindNext | text_editor.cpp:476-486 | Next searches the last pattern forward (a miss alerts and changes nothing, a hit selects the chosen occurrence and changes only the selection and caret), or falls back to the Find prompt when there is no last pattern |
| FindMenu.MenuFindPrev | text_editor.cpp:488-498 | Previous searches the last pattern backward (a miss alerts and changes nothing, a hit selects the chosen occurrence and changes only the selection and caret), or falls back to the Find prompt when there is no last pattern |
| FindMenu.PrevWithoutPatternSearchesForward | text_editor.cpp:495-497 | with no last pattern, Previous prompts and then searches forward, not backward |
| FindMenu.FindAllLoop | text_editor.cpp:428-441 | the find-all loop as written, run for at most `fuel` iterations, yields `Some(count)` when it exits within the budget and `None` while it is still running; it exits at once with the count so far when the search finds nothing, and each iteration counts one match |
| FindMenu.FindAllLoopExits | text_editor.cpp:431-441 | with a non-empty pattern the scan loop as written exits, with the count of the reference scan |
| FindMenu.EmptyPatternLoopNeverExits | text_editor.cpp:431-441 | with an empty pattern and a non-empty text the scan loop as written never exits, whatever the iteration budget |
| FindMenu.MenuFindAll | text_editor.cpp:465-474 | a cancelled prompt changes nothing; otherwise the stored pattern becomes the last pattern and find-all runs, painting a mask as long as the text that is highlighted exactly on the ranges the scan reaches; an empty pattern is reported as not found without a scan |
| Session.ReplaceAll | text_editor.cpp:204 | replacing the whole buffer drops the selection, puts the caret at 0 and marks the text changed when it was not empty before or after |
| Session.FileNew | text_editor.cpp:200-206 | New empties the buffer, drops the selection, puts the caret at 0, keeps the file name, the last pattern and the style mask, and leaves the text clean with the matching label |
| Session.FileSaveAs | text_editor.cpp:254-267 | a chosen path becomes the file name and the text is clean, while text, selection, caret, last pattern and style mask are kept; a cancelled chooser changes nothing |
| Session.FileSave | text_editor.cpp:238-252 | Save is Save As when there is no file name; otherwise the text becomes clean under the same name; either way text, selection, caret, last pattern and style mask are kept |
| Session.LoadFileContent | text_editor.cpp:596-605 | a successful load replaces the text, adopts the path as the file name and marks the text clean, keeping the last pattern and the style mask; a failed load raises the cannot-open alert and changes nothing |
| Session.FileOpen | text_editor.cpp:208-236 | with unsaved changes, Cancel stops and Save saves first; then a chosen file is loaded and a cancelled chooser stops |
| Session.OpenAfterCancelledSaveAsLosesChanges | text_editor.cpp:213-235 | Open, then Save, then a cancelled Save As on an unnamed changed buffer still loads the chosen file over the unsaved text |
| Session.FileOpenChecked | text_editor.cpp:208-236 | Open with the save checked: after Save the file is chosen and loaded exactly as Open does when the save left the text clean, and nothing more happens when it did not; Cancel stops and the other answers are Open as written |
| Session.OpenCheckedKeepsUnsavedChanges | text_editor.cpp:213-225 | the checked open replaces changed text only after it was saved or the answer was "don't save" |
| Session.FileQuit | text_editor.cpp:179-198 | a clean editor quits; with unsaved changes, Cancel keeps it open and changes nothing, Save runs File Save, and "don't save" quits and changes nothing |
| Session.QuitAfterCancelledSaveAsLosesChanges | text_editor.cpp:183-197 | Quit, then Save, then a cancelled Save As on an unnamed changed buffer still quits with the text unsaved |
| Session.FileQuitChecked | text_editor.cpp:179-198 | Quit with the save checked: after Save the editor closes exactly when the save left the text clean; Cancel keeps it open and "don't save" closes it |
| Session.QuitCheckedKeepsUnsavedChanges | text_editor.cpp:183-197 | the checked quit never closes on changed text unless the answer was "don't save" |
| Scenarios.PreviousFromEnd | text_editor.cpp:380-387 | Previous "abc" from the end of "abcabc" selects `[0, 3)` |
| Scenarios.CatSatMat | text_editor.cpp:428-441 | the scan for "at" in "the cat sat on the mat" reaches offsets 5, 9 and 20 |
| Scenarios.ReplaceChain | text_editor.cpp:689-708 | on "foo foo foo", Next then three Replace presses with "bar" select each "foo" in turn, leave "bar bar bar", and the third raises the not-found alert |
| Scenarios.EmptyPatternOnEmptyText | text_editor.cpp:392-407 | Find with an empty pattern on an empty text raises the not-found alert |
| Scenarios.EmptyPatternWrapsToStart | text_editor.cpp:391-404 | Find with an empty pattern from the end of "ab" wraps to offset 0 and selects nothing |
| Scenarios.EmptyPatternEmptyTextExits | text_editor.cpp:428-431 | on an empty text the find-all loop as written is never entered, even for the empty pattern |

## Left out

- Widgets and drawing are not modelled: the window, menu bar, editor widgets, redraws, `show_insert_position`, the line-number and word-wrap toggles, and the shortcut help page.
- The Edit menu's cut, copy, paste, delete, undo and redo only forward to the toolkit's key functions, so they are not modelled.
- The split editor is never created, so the focus check in the find and replace functions always picks the main editor. The model has one caret.
- Dialogs, file choosers and file contents are inputs: `SaveChoice`, `Option` paths and `LoadOutcome`. Message boxes are `Notice` values. Closing the windows is the `quits` flag.
- The result of `savefile` is ignored by the code. Writing a file is therefore modelled by its effect on the name and the flag only.
- A failed `loadfile` leaves the text as it was in the model. The toolkit's own handling of the buffer on a failed load is not part of this model.
- `lastReplaceText` is written by the dialog's Next but never read, so it is not part of the record.
- The prompt's byte limit and UTF-8 handling are not modelled. The prompt result is any string, and `StoredPattern` models the cut to 511 bytes. Embedded NUL bytes are not modelled.
- The toolkit's search code is not part of this model. The two scans in `TextBuffer` exist only to carry the contracts the editor relies on, and the case rule is the parameter `eq`.
- TextBuffer.SearchForward: `eq` compares one byte with one byte, so only byte-wise case rules such as ASCII folding are modelled. The toolkit's default search folds case on decoded code points; folding a multi-byte letter, or a pair whose two forms differ in byte length, is not modelled, nor is the resulting difference between the matched span and the `strlen(needle)` span the editor selects.
- TextBuffer.SearchForward: a match may only start at an offset below the text length, which is the toolkit's rule for the empty pattern. The toolkit steps through UTF-8 characters, while the model steps through bytes, so a match starting inside a multi-byte character is found by the model only.
- TextBuffer.SearchBackward: the same offset rule is applied backward, so an empty pattern is not found at the text length itself. The program never searches backward with an empty pattern, because Previous needs a non-empty last pattern.
- FindMenu.MenuFindAll: for the empty answer it models the corrected behaviour (not-found alert, no scan), not the code, which hangs on a non-empty text; the code as written is `FindMenu.FindAllLoop`.
- The toolkit's rule that an empty range selects nothing (`EditorState.Select`) is assumed, not derived from toolkit code.
- The style mask is not resized when the text is edited, as in the code. No model member states a length relation between mask and text outside Find All.
- The C `int` offsets are unbounded integers. `Search.CBackwardStartIsPlain` shows that the one wrap-around expression gives the plain value for every offset that fits an `int`.

## Findings

| source | as written | input that shows it | evidently intended | confidence | as-written member | corrected member |
|---|---|---|---|---|---|---|
| text_editor.cpp:431-441 | the find-all loop advances by `strlen(needle)` after each match, and the Find All menu passes any prompt answer, including the empty one | Find All with an empty pattern: the empty pattern matches at the search position, the position advances by 0, and the loop never ends | an empty pattern is not scanned; the replace dialog already skips the search for an empty pattern (line 696), without an alert, and the not-found alert is the correction chosen here | not executed | FindMenu.EmptyPatternLoopNeverExits | FindMenu.MenuFindAll |
| text_editor.cpp:183-197 | after the "save" answer, Quit hides all windows whether or not the save happened | an unnamed changed buffer, Quit, answer Save, cancel the Save As chooser: the editor closes and the changes are lost | close only when the save left the text clean | not executed | Session.QuitAfterCancelledSaveAsLosesChanges | Session.QuitCheckedKeepsUnsavedChanges |
| text_editor.cpp:213-235 | after the "save" answer, Open goes on to the file chooser and the load whether or not the save happened | an unnamed changed buffer, Open, answer Save, cancel the Save As chooser, pick a file: the file is loaded over the unsaved text | go on only when the save left the text clean | not executed | Session.OpenAfterCancelledSaveAsLosesChanges | Session.OpenCheckedKeepsUnsavedChanges |
