# FileDialog: a verified model of the file dialog's decisions and paths

The project models the browser file dialog `FileDialog` of the device's web
workflow (`assets/js/common/file_dialog.js`). The dialog lists one directory
of the device's filesystem at a time. Through it the user navigates, opens or
saves a file, picks a folder, and deletes, renames, moves, downloads or
creates entries. The filesystem itself is reached only through a file helper
that is handed to `open`.

Once the DOM is stripped away, the dialog is a small state machine. Its state:

- the current directory
- whether a helper is present, and the helper's read-only flag
- the mode (`data-type`: open, save or folder-select)
- the set of hidden paths
- the rows of the file list (name, type, icon, selected mark)
- the file-name field
- which buttons are enabled

The model has six modules:

- `PathText`:
  - the `split`/`pop`/`join` arithmetic `_openItem` uses to go up with `..`
  - the path of a child folder
  - the `split`/`join` round trips
  - "up from a child is back where you started"
- `FileKinds`:
  - the 15-entry extension table
  - `_getExtension` (the last dot-separated piece, lower-cased; the whole name when there is no dot)
  - `_getIcon` and `_getType`
- `Sorting`:
  - `_sortFolderFirst`, as a method with the source's partition loop
  - `_sortAlpha`, modelled as a stable insertion sort under an abstract total collation standing for `localeCompare`
- `Listing`:
  - the rows `_addFile` makes
  - `_validName`
  - the filter of `_openFolder`, and the list it builds as a function (`View`)
  - the invariant every displayed list keeps (`WellFormed`)
  - selection: `_getSelectedFile`, the marking loop of `_handleFileClick`, `_getSelectedFilePath`
- `Handlers`:
  - the permission predicates
  - what each button handler decides (ignore, refuse with a message, or call the helper) as a function of the state and the user's answer
  - what `_openItem` decides (enter a folder, return a path, refuse the type, or nothing)
- `Dialog`: the class `FileDialog`.
  - Its fields are the state above.
  - It has `requests` (a log of the helper calls that change or read a file), `messages` (the messages shown) and `returned` (the value the dialog resolved with).
  - Its methods are `open`, `_openFolder`, the click, name-field and button handlers and `_openItem`. Each is proved against the functions of `Listing` and `Handlers`.

Several things come in as method parameters:

- what the helper answers: the read-only flag, a directory listing or its failure, whether a target exists, whether a move worked, and whether a delete, rename or new-folder call rejected
- the user's answers to `prompt` and `confirm`
- the folder chosen in the nested folder-select dialog

Each handler is one sequential step.

## Model

| member | source | states |
|---|---|---|
| PathText.Split | assets/js/common/file_dialog.js:557 | `split` always gives at least one piece |
| PathText.ParentPath | assets/js/common/file_dialog.js:557-560 | the path `..` leads to (split on `/`, pop twice, join, add `/`) always ends in `/` |
| PathText.JoinSplit | assets/js/common/file_dialog.js:557-560 | joining the pieces of `split(c)` with `c` gives back the string |
| PathText.SplitJoin | assets/js/common/file_dialog.js:557-560 | splitting a join of separator-free pieces gives back the pieces |
| PathText.SplitAppend | assets/js/common/file_dialog.js:557 | splitting `a + c + b` is splitting `a` followed by splitting `b` |
| PathText.ParentOfChild | assets/js/common/file_dialog.js:556-564 | for a directory ending in `/` and a name without `/`, going up with `..` from `dir + name + "/"` gives `dir` |
| PathText.ParentOfTopLevel | assets/js/common/file_dialog.js:556-560 | `..` from `/x/` is `/` |
| PathText.ParentIsShorterPrefix | assets/js/common/file_dialog.js:556-560 | the parent of an absolute directory path is an absolute prefix of it, strictly shorter below the root, and ends in `/` |
| PathText.ChildPath | assets/js/common/file_dialog.js:564 | the path a folder row other than `..` leads to, defined as the current path, the name and a `/`; `ParentOfChild`, `OpenFolderRowEnters` and `EnterThenLeave` state what it means for going up and down |
| FileKinds.Extension | assets/js/common/file_dialog.js:43-49 | `_getExtension`, defined by reading back from the end of the name to its last dot and lower-casing; the lemmas below relate it to `split('.').pop()` |
| FileKinds.ExtensionIsLastPiece | assets/js/common/file_dialog.js:43-49 | `_getExtension` is the lower-cased last piece of `split('.')`, so the whole name when it has no dot and `""` when it ends in a dot |
| FileKinds.ExtensionIsLowerSuffix | assets/js/common/file_dialog.js:43-49 | the extension is the lower-cased suffix of the name of the same length |
| FileKinds.ExtensionIgnoresCase | assets/js/common/file_dialog.js:46 | lower-casing a name first does not change its extension |
| FileKinds.KindIgnoresCase | assets/js/common/file_dialog.js:51-69 | a name and its lower-cased form get the same icon and type |
| FileKinds.TableKeys | assets/js/common/file_dialog.js:9-25 | the table's keys are exactly the 15 listed extensions |
| FileKinds.TableRow | assets/js/common/file_dialog.js:9-25 | every row's icon is one of the table icons; only `mpy` has the plain `file` icon; the text rows are exactly `py`, `json`, `txt`, with text icons |
| FileKinds.LongExtensionsAreUnknown | assets/js/common/file_dialog.js:9-25 | no extension longer than four characters is in the table |
| FileKinds.TableIconClass | assets/js/common/file_dialog.js:55 | prefixing a table icon with `fa-` gives an entry icon class, never `fa-folder`, and `fa-file` only for `file` |
| FileKinds.IconOf | assets/js/common/file_dialog.js:51-59 | `_getIcon`, defined by the folder branch, the table lookup and the generic file icon; `IconOfCases` states which icon each kind of entry gets |
| FileKinds.IconOfCases | assets/js/common/file_dialog.js:51-59 | the icon is one of the entry icons; `fa-folder` exactly for directories; `fa-file` exactly for files whose extension is unknown or `mpy` |
| FileKinds.TypeOf | assets/js/common/file_dialog.js:61-62 | the type is `folder` exactly for directories |
| FileKinds.TypeOfText | assets/js/common/file_dialog.js:61-69 | the type is `text` exactly for files whose extension is `py`, `json` or `txt` |
| FileKinds.TextFilesHaveTextIcons | assets/js/common/file_dialog.js:9-25 | a text file's icon is `fa-file-alt` or `fa-file-code` |
| FileKinds.UpperCaseExtensionIsText | assets/js/common/file_dialog.js:43-69 | `main.PY` has extension `py`, type text and icon `fa-file-alt` |
| FileKinds.DotlessNameIsItsOwnExtension | assets/js/common/file_dialog.js:43-46 | a file named `JSON` has extension `json` and is taken for text |
| FileKinds.DotlessUnknownNameIsBinary | assets/js/common/file_dialog.js:43-69 | a file named `README` has extension `readme`, type bin and icon `fa-file` |
| Sorting.SortAlpha | assets/js/common/file_dialog.js:594-600 | `_sortAlpha`, defined as insertion of each entry into the sorted rest; `SortAlphaSorts` proves it a sorted permutation |
| Sorting.InsertAdds | assets/js/common/file_dialog.js:594-600 | inserting adds exactly the new entry and puts it or the old first entry first |
| Sorting.InsertSorts | assets/js/common/file_dialog.js:594-600 | inserting into a list in collation order keeps it in order |
| Sorting.SortAlphaSorts | assets/js/common/file_dialog.js:594-600 | `_sortAlpha` returns a permutation of its input whose neighbouring paths are in collation order |
| Sorting.SortedPairwise | assets/js/common/file_dialog.js:594-600 | under a transitive collation every earlier path of a sorted list precedes every later one |
| Sorting.FoldersAndFilesSplit | assets/js/common/file_dialog.js:583-589 | the folders and the files pushed by the loop together are the input's entries |
| Sorting.FolderFirst | assets/js/common/file_dialog.js:579-592 | `_sortFolderFirst` as a function: the sorted folders followed by the sorted files; `FolderFirstPermutes` and `FolderFirstOrders` state its properties |
| Sorting.FolderFirstPermutes | assets/js/common/file_dialog.js:579-592 | `_sortFolderFirst` neither loses nor adds an entry |
| Sorting.FolderFirstOrders | assets/js/common/file_dialog.js:579-600 | `_sortFolderFirst` returns a permutation with every folder before every file, each group in collation order |
| Sorting.SortFolderFirst | assets/js/common/file_dialog.js:579-592 | the partition loop followed by the two sorts computes the folder-first ordering |
| Sorting.CodeUnitLeTotal | assets/js/common/file_dialog.js:598 | code-unit order, a concrete collation for the model, is total |
| Listing.ToItem | assets/js/common/file_dialog.js:602-629 | `_addFile`'s row has the entry's path as name, is unselected, and is a folder row exactly for a directory |
| Listing.ValidName | assets/js/common/file_dialog.js:221-232 | a name is valid exactly when it is non-empty, does not start with `.` and holds no `/` (which excludes `.` and `..`) |
| Listing.Keep | assets/js/common/file_dialog.js:154-156 | the filter of the listing loop: not dot-named, a directory in folder-select mode, and `cur + path` not hidden |
| Listing.Kept | assets/js/common/file_dialog.js:153-157 | the entries the listing loop keeps, in listing order; `KeptPass` and `KeptMembers` state which |
| Listing.KeptPass | assets/js/common/file_dialog.js:153-157 | every entry the filter of `_openFolder` keeps passes it |
| Listing.KeptMembers | assets/js/common/file_dialog.js:153-157 | an entry is kept exactly when it is listed and passes the filter |
| Listing.KeptFoldersFirst | assets/js/common/file_dialog.js:152-157 | filtering a folder-first listing leaves it folder-first |
| Listing.RowsOfKeptStep | assets/js/common/file_dialog.js:153-157 | one step of the loop adds the entry's row exactly when the entry passes the filter |
| Listing.View | assets/js/common/file_dialog.js:143-158 | the list `_openFolder` builds: the `..` row below the root, then the rows of the kept entries of the folder-first ordering when a helper listed the directory |
| Listing.WellFormed | assets/js/common/file_dialog.js:143-158 | the invariant of a displayed list: `..` leads exactly below the root, and every other row is an entry `_openFolder` admits (not dot-named, a folder in folder-select mode, not under a hidden path) |
| Listing.ViewParts | assets/js/common/file_dialog.js:143-158 | the list is the `..` row below the root, then, with a helper and a successful listing, the rows of the kept entries of the folder-first ordering |
| Listing.UpRowLeadsIffNotRoot | assets/js/common/file_dialog.js:143-145 | in a well-formed list the first row is `..` exactly when the directory is not `/` |
| Listing.ViewWellFormed | assets/js/common/file_dialog.js:137-158 | after `_openFolder` the `..` row leads below the root, and no row from the helper is dot-named, a file in folder-select mode, or under a hidden path |
| Listing.ViewShowsKeptEntries | assets/js/common/file_dialog.js:152-158 | every listed entry that passes the filter gets its row |
| Listing.ViewRowsComeFromKeptEntries | assets/js/common/file_dialog.js:152-158 | every row below `..` is the row of a listed entry that passes the filter |
| Listing.SortedKeptMembers | assets/js/common/file_dialog.js:152-157 | sorting before filtering does not change which entries are kept |
| Listing.ViewFoldersFirst | assets/js/common/file_dialog.js:143-158 | no file row comes before a folder row |
| Listing.FirstSelected | assets/js/common/file_dialog.js:494-503 | the index found is the first selected row; none is found exactly when no row is selected |
| Listing.SelectedItem | assets/js/common/file_dialog.js:494-503 | a selected row is returned exactly when some row is selected, and it is one of the rows |
| Listing.SelectOnly | assets/js/common/file_dialog.js:177-184 | the marks the click loop sets: a row is marked exactly when it equals the clicked row; `ClickSelects` states the consequences |
| Listing.ClickSelects | assets/js/common/file_dialog.js:176-184 | after a click on row `k`, a row is marked exactly when it equals row `k`; the rows are otherwise unchanged; the first marked row equals row `k` and comes no later; with distinct names it is row `k` itself |
| Listing.SelectedFilePath | assets/js/common/file_dialog.js:521-530 | with no selection, null; for a selected folder, the current path plus its name; for a selected file, the current directory itself |
| Listing.SelectOnlyKeepsWellFormed | assets/js/common/file_dialog.js:176-184 | marking rows keeps a well-formed list well-formed |
| Handlers.CanWrite | assets/js/common/file_dialog.js:247-263 | a writable operation is allowed exactly when not read-only, a row is selected, its name is valid, and (unless folders are included) it is not a folder |
| Handlers.WritableSelectionIsAnEntry | assets/js/common/file_dialog.js:247-263 | a writable selection is never `..` or dot-named |
| Handlers.Downloadable | assets/js/common/file_dialog.js:265-277 | download is allowed exactly when a non-folder row with a valid name is selected |
| Handlers.DownloadableIsWritableUnlessReadOnly | assets/js/common/file_dialog.js:247-277 | for a downloadable selection, a file-only writable operation is allowed exactly when not read-only |
| Handlers.SelectableFolder | assets/js/common/file_dialog.js:166-174 | `_validSelectableFolder`: true exactly in folder-select mode when the current directory is not hidden |
| Handlers.DeleteDecision | assets/js/common/file_dialog.js:283-297 | what the delete handler decides: nothing without a writable selection or without confirmation, otherwise delete `cur + name`; `DeleteIssuesExactlyWhen` states it |
| Handlers.DeleteIssuesExactlyWhen | assets/js/common/file_dialog.js:283-297 | delete calls the helper exactly when a writable operation is allowed and the user confirms, deleting `cur + name` of the selected row; it never shows a message |
| Handlers.RenameDecision | assets/js/common/file_dialog.js:438-468 | what the rename handler decides, with its checks in the source's order; `RenameIssuesExactlyWhen` and `RenameRefusals` state it |
| Handlers.RenameIssuesExactlyWhen | assets/js/common/file_dialog.js:438-468 | rename calls the helper exactly when writing is allowed and the answer is non-blank, new, valid and not listed; the call moves `cur + old` to `cur + new`, two different paths in the same directory |
| Handlers.RenameRefusals | assets/js/common/file_dialog.js:447-456 | rename shows the invalid-name message exactly for an invalid answer, and the exists message only for a listed name |
| Handlers.NewFolderDecision | assets/js/common/file_dialog.js:470-492 | what the new-folder handler decides, with its checks in the source's order; `NewFolderIssuesExactlyWhen` states it |
| Handlers.NewFolderIssuesExactlyWhen | assets/js/common/file_dialog.js:470-492 | new-folder calls the helper exactly when not read-only and the answer is non-blank, valid and not listed; it makes `cur + name`, whose `..` leads back to `cur` |
| Handlers.DownloadDecision | assets/js/common/file_dialog.js:400-405 | what the download handler decides: nothing unless downloadable, otherwise read `cur + name`; `DownloadReadsSelectedFile` states it |
| Handlers.DownloadReadsSelectedFile | assets/js/common/file_dialog.js:400-405 | download reads `cur + name` exactly when the selection is downloadable, and never a folder |
| Handlers.SelectedNameAsWritten | assets/js/common/file_dialog.js:505-511 | `_getSelectedFilename` as it reaches a string, defined as the selected name or `null`; `MoveWithoutSelectionAsWritten` and `StaleMoveButton` show where the `null` ends up |
| Handlers.MoveHidePaths | assets/js/common/file_dialog.js:417-419 | the hidden-path set handed to the nested dialog holds the current directory (with its trailing `/`) and at most the selected file path; the current directory's entry only disables OK while the nested dialog is inside it |
| Handlers.MoveHidesSelectedFolder | assets/js/common/file_dialog.js:417-419 | with a folder selected, the set holds exactly `cur + name` (which the listing filter does hide) and the current directory with its trailing `/` |
| Handlers.MoveTargetMayBeCurrentFolder | assets/js/common/file_dialog.js:417-429 | from the parent `p`, the row of the current directory `p + n + "/"` passes the listing filter of line 156 despite the hidden-path set, choosing it returns the current directory, and the move as written then targets the entry's own path |
| Handlers.MoveDecisionAsWritten | assets/js/common/file_dialog.js:415-436 | what the move handler decides as written, with no selection guard; `MoveWithoutSelectionAsWritten` exhibits the missing guard |
| Handlers.MoveWithoutSelectionAsWritten | assets/js/common/file_dialog.js:415-426 | with no row selected, the move handler as written still moves `/d/null` to `/t/null` |
| Handlers.MoveDecision | assets/js/common/file_dialog.js:415-436 | the move decision with the guard the delete and rename handlers have; `MoveMovesSelectedEntry` states it |
| Handlers.MoveMovesSelectedEntry | assets/js/common/file_dialog.js:415-436 | the guarded move calls the helper exactly when writing is allowed, a folder was chosen and the target does not exist; it moves the selected entry, under its own valid name, into the chosen folder |
| Handlers.OpenTarget | assets/js/common/file_dialog.js:532-552 | a given row is acted on under its own name and type. Otherwise: a valid typed name that is not a listed folder is taken as text, unless in open mode a row with a different name is selected, which is then taken; without such a typed name the selected row is taken, or nothing when none is selected. Any non-text target without a given row is the selected row |
| Handlers.OpenItemAction | assets/js/common/file_dialog.js:532-577 | what `_openItem` does with the target: `..` goes to the parent path, another folder is entered (or, in folder-select mode without forcing, returned), text returns `cur + name`, other types are refused, and with no target a selectable current folder is returned |
| Handlers.OpenFolderRowEnters | assets/js/common/file_dialog.js:555-564 | double-clicking a folder row other than `..` enters `cur + name + "/"` |
| Handlers.OpenUpRowLeaves | assets/js/common/file_dialog.js:556-561 | opening the `..` row enters the parent path |
| Handlers.EnterThenLeave | assets/js/common/file_dialog.js:556-564 | entering a valid folder name from `p` and then opening `..` leads back to `p` |
| Handlers.SaveReturnsTypedName | assets/js/common/file_dialog.js:540-548 | in save mode, OK with a valid typed name that is not a listed folder returns `cur + name` |
| Handlers.FolderSelectReturnsShownFolder | assets/js/common/file_dialog.js:555-576 | in folder-select mode on a well-formed list, with an empty name field, the path returned is the current directory (when not hidden) or `cur + name + "/"` for a folder row of the list whose name is not dot-named and whose path is not hidden |
| Dialog.ModeOf | assets/js/common/file_dialog.js:105-121 | open gives open mode, save gives save mode, move and copy give folder-select |
| Dialog.FileDialog.constructor | assets/js/common/file_dialog.js:28-35 | a new dialog is at `/`, without a helper, not read-only, with nothing listed |
| Dialog.FileDialog.ValidSelectableFolder | assets/js/common/file_dialog.js:166-174 | `_validSelectableFolder` on the dialog's own mode, path and hidden paths is `SelectableFolder` |
| Dialog.FileDialog.Open | assets/js/common/file_dialog.js:71-132 | an unknown type changes nothing; otherwise the helper, read-only flag, mode and hidden paths are taken, the buttons reset (upload and new-folder enabled unless read-only, the name field only for saving), and the current directory listed |
| Dialog.FileDialog.Reset | assets/js/common/file_dialog.js:75-124 | the part of `open` before listing: OK is set by `_validSelectableFolder` under the previous mode, as the source does it before setting `data-type` |
| Dialog.FileDialog.OpenFolder | assets/js/common/file_dialog.js:134-164 | the dialog moves to the path, its list becomes `View` (so it stays well-formed), and with a helper the name field is cleared and OK follows `_validSelectableFolder`; the log and messages are unchanged |
| Dialog.FileDialog.ListFolder | assets/js/common/file_dialog.js:143-158 | the list `_openFolder` builds is `View` of the current state |
| Dialog.FileDialog.AddEntries | assets/js/common/file_dialog.js:153-158 | the loop appends exactly the rows of the kept entries, in order |
| Dialog.FileDialog.GetSelectedFile | assets/js/common/file_dialog.js:494-503 | the loop returns the first selected row |
| Dialog.FileDialog.GetSelectedFilePath | assets/js/common/file_dialog.js:521-530 | the method computes `SelectedFilePath` |
| Dialog.FileDialog.ValidFilename | assets/js/common/file_dialog.js:201-219 | a file name is accepted exactly when it is a valid name and no folder row has it |
| Dialog.FileDialog.NameExists | assets/js/common/file_dialog.js:234-245 | true exactly when some row has the name |
| Dialog.FileDialog.CanPerformWritableFileOperation | assets/js/common/file_dialog.js:247-263 | the method computes `CanWrite` |
| Dialog.FileDialog.CanDownload | assets/js/common/file_dialog.js:265-277 | the method computes `Downloadable` |
| Dialog.FileDialog.HandleFileClick | assets/js/common/file_dialog.js:176-194 | the rows equal to the clicked one are marked; a file's name goes to the name field; OK is enabled unless the row is binary; delete, rename, move and download follow the new selection; the list stays well-formed |
| Dialog.FileDialog.MarkSelected | assets/js/common/file_dialog.js:177-184 | the loop marks exactly the rows equal to the clicked one |
| Dialog.FileDialog.HandleFilenameUpdate | assets/js/common/file_dialog.js:196-199 | only in save mode, where `open` wires the handler (line 112): the name field takes the typed text and OK is enabled exactly when the typed name is acceptable |
| Dialog.FileDialog.HandleDelButton | assets/js/common/file_dialog.js:283-297 | as `DeleteDecision` says: nothing, or one delete request followed, unless the helper call rejects, by a fresh listing of the same directory; a rejected call leaves the display as it was |
| Dialog.FileDialog.HandleRenameButton | assets/js/common/file_dialog.js:438-468 | as `RenameDecision` says: nothing, one message, or one move request followed, unless the helper call rejects, by a fresh listing of the same directory |
| Dialog.FileDialog.DecideRename | assets/js/common/file_dialog.js:439-456 | the handler's checks, in its order, come to `RenameDecision` |
| Dialog.FileDialog.Apply | assets/js/common/file_dialog.js:451-467 | a refusal adds its message only; a call adds its request and, unless it rejects, relists the current directory; a rejected call leaves the display as it was |
| Dialog.FileDialog.HandleNewFolderButton | assets/js/common/file_dialog.js:470-492 | as `NewFolderDecision` says: nothing, one message, or one make-directory request followed, unless the helper call rejects, by a fresh listing |
| Dialog.FileDialog.DecideNewFolder | assets/js/common/file_dialog.js:471-485 | the handler's checks, in its order, come to `NewFolderDecision` |
| Dialog.FileDialog.HandleDownloadButton | assets/js/common/file_dialog.js:400-405 | as `DownloadDecision` says: nothing, or one read request with the display unchanged |
| Dialog.FileDialog.HandleMoveButtonAsWritten | assets/js/common/file_dialog.js:415-436 | the source's move handler: the nested dialog's hidden paths; then nothing, the exists message, the request and its failure message, or the request and a listing of the target folder |
| Dialog.FileDialog.DecideMoveAsWritten | assets/js/common/file_dialog.js:416-427 | the hidden paths, the moved kind and `MoveDecisionAsWritten` |
| Dialog.FileDialog.ApplyMove | assets/js/common/file_dialog.js:427-434 | a refusal adds its message; a call adds its request, then the failure message or a listing of the target folder |
| Dialog.FileDialog.HandleMoveButton | assets/js/common/file_dialog.js:415-436 | the move handler with the guard the delete and rename handlers have: nothing without a writable selection, otherwise as written |
| Dialog.FileDialog.OpenItem | assets/js/common/file_dialog.js:532-577 | as `OpenItemAction` says: list the new directory, resolve with a path, show the refusal, or change nothing |
| Dialog.FileDialog.Decide | assets/js/common/file_dialog.js:554-576 | the branches of `_openItem`, with `..` computed by split, pop, pop, join, come to `OpenItemAction` |
| Dialog.FileDialog.Perform | assets/js/common/file_dialog.js:555-575 | entering lists the path; returning sets the result only; refusing adds the message only |
| Dialog.FileDialog.Target | assets/js/common/file_dialog.js:533-552 | the name and type `_openItem` settles on are `OpenTarget` |
| Dialog.FileDialog.HandleOkButton | assets/js/common/file_dialog.js:279-281 | OK is `_openItem` with no row and without forcing navigation |
| Dialog.EnterFolderAndLeave | assets/js/common/file_dialog.js:556-564 | double-clicking a valid folder row and then `..` leaves the dialog in its directory with that directory's fresh listing |
| Dialog.StaleMoveButton | assets/js/common/file_dialog.js:176-194 | after a click on a folder and a double-click into it, move stays enabled with nothing selected; as written the helper is asked to move `/d/null` to `/t/null`, and with the guard nothing is asked |

## Left out

- `assets/js/device.js` is not part of this model. It is a one-shot page bootstrap: a network fetch, regular-expression rewriting of HTML, and script re-injection.
- Upload (`_handleUploadButton`, `_upload`), `prettySize` and `round` are left out (assets/js/common/file_dialog.js:299-397). They are file-picker, `FileReader` and progress-dialog plumbing and floating-point arithmetic.
- The blob and anchor of the download are left out; only the helper's read request is modelled.
- DOM construction, event wiring, `_closeModal`, the OK button's label, the current-path label, `_showBusy` and the async sequencing are left out. Each handler is one sequential step.
- The nested folder-select dialog of the move handler is not run. Only the hidden paths handed to it are computed; the folder it resolves with is an input.
- The file helper is not modelled. Its answers are inputs and its change/read calls are appended to `requests`. `readOnly()` is taken once by `open`.
- `localeCompare` is an abstract total collation given to the constructor. The engine's `sort` is modelled as a stable insertion sort.
- Nothing is claimed about the engine's sort under a collation that is not transitive. The sorting lemmas hold for any total collation; `SortedPairwise` also needs transitivity.
- `toLowerCase` lowers ASCII letters only.
- HTML escaping of names in `innerHTML` is not modelled. A row's name is the entry's path as given.
- Table lookup uses the 15 listed keys only. The JavaScript `in` operator also accepts inherited names such as `constructor`.
- `isEqualNode` compares name, type and icon. The selection marks, which the handler itself is rewriting, are set aside.
- `hidePaths` of `open` is taken as given. The source can add `null` to it (no selection in the move handler); a null path never matches a string path, so the model drops it.
- Dialog.FileDialog.Open: a rejected `readOnly()` call (assets/js/common/file_dialog.js:76, awaited without `try`) is not modelled. In the source it aborts `open` before the modal is shown; the model takes the flag as an input that always arrives.
- Dialog.FileDialog.HandleDownloadButton: a rejected `readFile` call (assets/js/common/file_dialog.js:405) is not modelled separately. It would only skip the blob and anchor, which are left out; the request is logged either way.
- Dialog.FileDialog.HandleMoveButtonAsWritten: a rejected `fileExists` or `move` call (assets/js/common/file_dialog.js:427-429) is not modelled. `targetExists` and `moveOk` stand for the values those calls resolve with. A rejection would abort the handler with no message, and a rejected `fileExists` would make no move request.
- Dialog.FileDialog.HandleMoveButton: the same rejections are not modelled; it runs the handler as written once its guard passes.
- Dialog.FileDialog.Open: also clears `returned`. This stands for the fresh promise the modal hands out on each open.
- Dialog.FileDialog.Open: requires the dialog to satisfy its invariant (`Valid`). Every dialog the constructor makes does.

## Findings

| source | as written | input that shows it | evidently intended | confidence | as-written member | corrected member |
|---|---|---|---|---|---|---|
| assets/js/common/file_dialog.js:415-436 | `_handleMoveButton` has no selection guard. `_openFolder` never disables the move button, so after entering a folder the button stays enabled with nothing selected, and the handler moves `cur + null` to `target + null`. | On a root holding folder `d`: click `d`, double-click it (now in `/d/`), press move, choose `/t/`. The helper is asked to move `/d/null` to `/t/null`. | The guard `_canPerformWritableFileOperation()` that the delete and rename handlers start with: nothing happens without a writable selection. | not executed | Dialog.FileDialog.HandleMoveButtonAsWritten, Handlers.MoveWithoutSelectionAsWritten, Dialog.StaleMoveButton | Dialog.FileDialog.HandleMoveButton, Handlers.MoveMovesSelectedEntry |
