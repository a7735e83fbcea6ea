/**
 * The `FileDialog` object: its state and the handlers that change it.
 *
 * The device's file helper is outside the model. What it answers (the
 * read-only flag, a directory listing, whether a path exists, whether a
 * move worked, whether a call was rejected) comes in as method inputs;
 * what the dialog asks it to
 * change or read is appended to the `requests` log. The user's answers to
 * `prompt` and `confirm`, and the folder chosen in the nested
 * folder-select dialog, are inputs too.
 */
module Dialog {
  import opened PathText
  import opened FileKinds
  import opened Sorting
  import opened Listing
  import opened Handlers

  /** The dialog types `open` accepts. */
  const FileDialogOpen: int := 1
  const FileDialogSave: int := 2
  const FileDialogMove: int := 3
  const FileDialogCopy: int := 4

  predicate IsDialogType(t: int)
  {
    t == FileDialogOpen || t == FileDialogSave || t == FileDialogMove || t == FileDialogCopy
  }

  /** The `data-type` `open` gives the dialog: move and copy both select a folder. */
  function ModeOf(dialogType: int): (m: Mode)
    requires IsDialogType(dialogType)
    ensures m != Unset
    ensures m == SelectFolder <==> dialogType == FileDialogMove || dialogType == FileDialogCopy
    ensures m == SaveFile <==> dialogType == FileDialogSave
    ensures m == OpenFile <==> dialogType == FileDialogOpen
  {
    if dialogType == FileDialogOpen then OpenFile
    else if dialogType == FileDialogSave then SaveFile
    else SelectFolder
  }

  /** Which of the dialog's controls are enabled. */
  datatype Controls = Controls(
    ok: bool, del: bool, rename: bool, download: bool, upload: bool,
    newFolder: bool, move: bool, fileNameField: bool)

  const AllDisabled: Controls := Controls(false, false, false, false, false, false, false, false)

  class FileDialog {
    /** The collation `localeCompare` stands for. */
    const collate: (string, string) -> bool
    var currentPath: string
    /** Whether `open` has given the dialog a file helper. */
    var hasHelper: bool
    var readOnly: bool
    var mode: Mode
    var hidePaths: set<string>
    /** The rows of the file list, in order. */
    var items: seq<ListItem>
    /** The value of the file-name field. */
    var fileName: string
    var controls: Controls
    /** The helper calls made so far that change or read a file. */
    var requests: seq<Request>
    /** The messages shown so far. */
    var messages: seq<string>
    /** The value the dialog resolved with, once it has. */
    var returned: Option<string>

    ghost predicate Valid()
      reads this
    {
      Total(collate) && WellFormed(currentPath, mode, hidePaths, items)
    }

    /** Nothing the user sees changed: path, mode, list, field and controls. */
    twostate predicate DisplayUnchanged()
      reads this
    {
      && currentPath == old(currentPath) && hasHelper == old(hasHelper) && readOnly == old(readOnly)
      && mode == old(mode) && hidePaths == old(hidePaths) && items == old(items)
      && fileName == old(fileName) && controls == old(controls)
    }

    /** The requests and messages logged during the call, and no others. */
    twostate predicate Appended(newRequests: seq<Request>, newMessages: seq<string>)
      reads this
    {
      requests == old(requests) + newRequests && messages == old(messages) + newMessages
    }

    /**
     * The state `_openFolder` leaves behind for directory `path`: the list
     * rebuilt from the helper's answer and, when there is a helper, the
     * name field cleared and OK enabled exactly when the directory is
     * selectable.
     */
    twostate predicate Refreshed(path: string, listing: DirListing)
      reads this
    {
      && Total(collate)
      && currentPath == path
      && items == View(collate, path, mode, hidePaths, hasHelper, listing)
      && (hasHelper ==> fileName == "" && controls == old(controls).(ok := SelectableFolder(mode, path, hidePaths)))
      && (!hasHelper ==> fileName == old(fileName) && controls == old(controls))
      && hasHelper == old(hasHelper) && readOnly == old(readOnly)
      && mode == old(mode) && hidePaths == old(hidePaths)
    }

    /** A new dialog at the root, with no helper, an empty list and everything disabled. */
    constructor(collate: (string, string) -> bool)
      requires Total(collate)
      ensures Valid() && this.collate == collate
      ensures currentPath == "/" && !hasHelper && !readOnly && mode == Unset && hidePaths == {}
      ensures items == [] && fileName == "" && controls == AllDisabled
      ensures requests == [] && messages == [] && returned == None
    {
      this.collate := collate;
      currentPath := "/";
      hasHelper := false;
      readOnly := false;
      mode := Unset;
      hidePaths := {};
      items := [];
      fileName := "";
      controls := AllDisabled;
      requests := [];
      messages := [];
      returned := None;
    }

    /** `_validSelectableFolder`. */
    predicate ValidSelectableFolder()
      reads this
    {
      SelectableFolder(mode, currentPath, hidePaths)
    }

    /**
     * `open`: an unknown dialog type changes nothing. Otherwise the
     * helper, its read-only flag and the hidden paths are taken, the
     * controls are reset, the mode is set from the type and the current
     * directory (which persists between opens) is listed.
     */
    method Open(helperReadOnly: bool, dialogType: int, hidden: Option<set<string>>, listing: DirListing)
      requires Valid()
      modifies this
      ensures Valid()
      ensures !IsDialogType(dialogType) ==> unchanged(this)
      ensures IsDialogType(dialogType) ==>
        && hasHelper && readOnly == helperReadOnly && mode == ModeOf(dialogType)
        && hidePaths == (if hidden.Some? then hidden.value else {})
        && currentPath == old(currentPath)
        && items == View(collate, currentPath, mode, hidePaths, true, listing)
        && fileName == ""
        && controls == Controls(SelectableFolder(mode, currentPath, hidePaths), false, false, false,
                                !readOnly, !readOnly, false, dialogType == FileDialogSave)
        && requests == old(requests) && messages == old(messages) && returned == None
    {
      if !IsDialogType(dialogType) {
        return;
      }
      Reset(helperReadOnly, dialogType, hidden);
      OpenFolder(None, listing);
    }

    /**
     * The part of `open` before the listing: take the helper, its
     * read-only flag and the hidden paths, reset the controls (OK as
     * `_validSelectableFolder` says under the previous mode), set the mode,
     * clear the name field and enable it only for saving.
     */
    method Reset(helperReadOnly: bool, dialogType: int, hidden: Option<set<string>>)
      requires IsDialogType(dialogType)
      modifies this
      ensures hasHelper && readOnly == helperReadOnly && mode == ModeOf(dialogType)
      ensures hidePaths == (if hidden.Some? then hidden.value else {})
      ensures fileName == "" && returned == None
      ensures controls == Controls(SelectableFolder(old(mode), currentPath, hidePaths), false, false, false,
                                   !readOnly, !readOnly, false, dialogType == FileDialogSave)
      ensures currentPath == old(currentPath) && items == old(items)
      ensures requests == old(requests) && messages == old(messages)
    {
      var hs := if hidden.Some? then hidden.value else {};
      var reset := Controls(SelectableFolder(mode, currentPath, hs), false, false, false,
                            !helperReadOnly, !helperReadOnly, false, false);
      hasHelper, readOnly, hidePaths, returned, mode, fileName, controls :=
        true, helperReadOnly, hs, None, ModeOf(dialogType), "", reset.(fileNameField := dialogType == FileDialogSave);
    }

    /**
     * `_openFolder`: clear the list, move to `path` when one is given, add
     * the `..` row away from the root, then add a row for each entry of
     * the folder-first listing that is not dot-named, not a file in
     * folder-select mode and not hidden. A failed listing leaves only `..`.
     */
    method OpenFolder(path: Option<string>, listing: DirListing)
      requires Total(collate)
      modifies this
      ensures Valid()
      ensures Refreshed(if path.Some? then path.value else old(currentPath), listing)
      ensures requests == old(requests) && messages == old(messages) && returned == old(returned)
    {
      var cur := if path.Some? then path.value else currentPath;
      var fileList := ListFolder(cur, listing);
      ViewWellFormed(collate, cur, mode, hidePaths, hasHelper, listing);
      currentPath, items := cur, fileList;
      if hasHelper {
        fileName := "";
        controls := controls.(ok := SelectableFolder(mode, cur, hidePaths));
      }
    }

    /**
     * The list `_openFolder` builds for `cur`: the `..` row below the
     * root, then, with a helper and a successful listing, the kept entries
     * sorted folders first.
     */
    method ListFolder(cur: string, listing: DirListing) returns (fileList: seq<ListItem>)
      requires Total(collate)
      ensures fileList == View(collate, cur, mode, hidePaths, hasHelper, listing)
    {
      fileList := [];
      if cur != "/" {
        fileList := fileList + [UpItem];
      }
      assert fileList == UpRow(cur);
      ViewParts(collate, cur, mode, hidePaths, hasHelper, listing);
      if hasHelper && listing.Listed? {
        var files := SortFolderFirst(collate, listing.files);
        fileList := AddEntries(cur, mode, hidePaths, fileList, files);
      }
    }

    /**
     * The loop of `_openFolder` over the sorted entries: after `fileList`,
     * one row per entry that is not dot-named, not a file in folder-select
     * mode and not hidden, in order.
     */
    method AddEntries(cur: string, m: Mode, hp: set<string>, fileList: seq<ListItem>, files: seq<FileObj>)
      returns (r: seq<ListItem>)
      ensures r == fileList + Rows(Kept(cur, m, hp, files))
    {
      r := fileList;
      for i := 0 to |files|
        invariant r == fileList + Rows(Kept(cur, m, hp, files[..i]))
      {
        var fileObj := files[i];
        RowsOfKeptStep(cur, m, hp, files, i);
        if Hidden(fileObj.path) {
          continue;
        }
        if m == SelectFolder && !fileObj.isDir {
          continue;
        }
        if cur + fileObj.path in hp {
          continue;
        }
        r := r + [ToItem(fileObj)];
      }
      assert files[..|files|] == files;
    }

    /** `_getSelectedFile`: the first selected row, or none. */
    method GetSelectedFile() returns (r: Option<ListItem>)
      ensures r == SelectedItem(items)
    {
      for i := 0 to |items|
        invariant forall j :: 0 <= j < i ==> !items[j].selected
      {
        if items[i].selected {
          assert FirstSelected(items) == Some(i);
          return Some(items[i]);
        }
      }
      return None;
    }

    /** `_getSelectedFilePath`. */
    method GetSelectedFilePath() returns (r: Option<string>)
      ensures r == SelectedFilePath(currentPath, items)
    {
      var file := GetSelectedFile();
      if file.None? || file.value.name == "" {
        return None;
      }
      if file.value.kind != Folder {
        return Some(currentPath);
      }
      return Some(currentPath + file.value.name);
    }

    /** `_validFilename`: a valid name that no folder row has. */
    method ValidFilename(filename: string) returns (ok: bool)
      ensures ok <==> ValidName(filename) && !FolderListed(items, filename)
    {
      if !ValidName(filename) {
        return false;
      }
      for i := 0 to |items|
        invariant forall j :: 0 <= j < i ==> !(items[j].kind == Folder && items[j].name == filename)
      {
        if items[i].kind == Folder {
          if items[i].name == filename {
            return false;
          }
        }
      }
      return true;
    }

    /** `_nameExists`: whether any row, file or folder, has this name. */
    method NameExists(name: string) returns (found: bool)
      ensures found <==> NameListed(items, name)
    {
      for i := 0 to |items|
        invariant forall j :: 0 <= j < i ==> items[j].name != name
      {
        if items[i].name == name {
          return true;
        }
      }
      return false;
    }

    /** `_canPerformWritableFileOperation`. */
    method CanPerformWritableFileOperation(includeFolder: bool) returns (ok: bool)
      ensures ok == CanWrite(readOnly, items, includeFolder)
    {
      if readOnly {
        return false;
      }
      var selectedItem := GetSelectedFile();
      if selectedItem.None? {
        return false;
      }
      if !ValidName(selectedItem.value.name) {
        return false;
      }
      if !includeFolder && selectedItem.value.kind == Folder {
        return false;
      }
      return true;
    }

    /** `_canDownload`. */
    method CanDownload() returns (ok: bool)
      ensures ok == Downloadable(items)
    {
      var selectedItem := GetSelectedFile();
      if selectedItem.None? {
        return false;
      }
      if selectedItem.value.kind == Folder {
        return false;
      }
      if !ValidName(selectedItem.value.name) {
        return false;
      }
      return true;
    }

    /**
     * `_handleFileClick` on row `k`: the rows equal to it are marked
     * selected and all others unmarked; a file's name goes into the name
     * field; OK is enabled unless the row is a binary file, and the other
     * buttons follow the new selection.
     */
    method HandleFileClick(k: nat)
      requires Valid()
      requires k < |items|
      modifies this
      ensures Valid()
      ensures items == SelectOnly(old(items), old(items)[k])
      ensures fileName == (if old(items)[k].kind != Folder then old(items)[k].name else old(fileName))
      ensures controls == old(controls).(
        ok := old(items)[k].kind != Bin,
        del := CanWrite(readOnly, items, true),
        rename := CanWrite(readOnly, items, true),
        move := CanWrite(readOnly, items, true),
        download := Downloadable(items))
      ensures currentPath == old(currentPath) && hasHelper == old(hasHelper) && readOnly == old(readOnly)
      ensures mode == old(mode) && hidePaths == old(hidePaths)
      ensures requests == old(requests) && messages == old(messages) && returned == old(returned)
    {
      var clicked := items[k];
      var fileList := MarkSelected(items, clicked);
      SelectOnlyKeepsWellFormed(currentPath, mode, hidePaths, items, clicked);
      items := fileList;
      var canWrite := CanPerformWritableFileOperation(true);
      var canDownload := CanDownload();
      fileName, controls :=
        if clicked.kind != Folder then clicked.name else fileName,
        controls.(ok := clicked.kind != Bin, del := canWrite, rename := canWrite, move := canWrite,
                  download := canDownload);
    }

    /** The loop of `_handleFileClick`: mark each row that equals `clicked`, unmark every other. */
    method MarkSelected(rows: seq<ListItem>, clicked: ListItem) returns (r: seq<ListItem>)
      ensures r == SelectOnly(rows, clicked)
    {
      r := rows;
      for i := 0 to |r|
        invariant |r| == |rows|
        invariant forall j :: 0 <= j < i ==> r[j] == rows[j].(selected := SameNode(rows[j], clicked))
        invariant forall j :: i <= j < |r| ==> r[j] == rows[j]
      {
        r := r[i := r[i].(selected := SameNode(r[i], clicked))];
      }
    }

    /**
     * `_handleFilenameUpdate` after the user typed `value`: OK follows
     * `_validFilename`. `open` wires the name field's input handler only in
     * save mode.
     */
    method HandleFilenameUpdate(value: string)
      requires Valid() && mode == SaveFile
      modifies this
      ensures Valid()
      ensures fileName == value
      ensures controls == old(controls).(ok := ValidName(value) && !FolderListed(items, value))
      ensures currentPath == old(currentPath) && hasHelper == old(hasHelper) && readOnly == old(readOnly)
      ensures mode == old(mode) && hidePaths == old(hidePaths) && items == old(items)
      ensures requests == old(requests) && messages == old(messages) && returned == old(returned)
    {
      fileName := value;
      var ok := ValidFilename(fileName);
      controls := controls.(ok := ok);
    }

    /**
     * `_handleDelButton`: when writing is allowed and the user confirms,
     * delete the selected entry and list the directory again. The helper
     * call is awaited without a `try`: when it rejects (`callOk` false),
     * the handler stops before the listing.
     */
    method HandleDelButton(confirmed: bool, callOk: bool, listing: DirListing)
      requires Valid()
      modifies this
      ensures Valid()
      ensures var o := DeleteDecision(old(currentPath), old(readOnly), old(items), confirmed);
        && (o.Ignored? ==> unchanged(this))
        && (o.Issued? && !callOk ==> DisplayUnchanged() && Appended([o.request], []) && returned == old(returned))
        && (o.Issued? && callOk ==> Appended([o.request], []) && returned == old(returned) && Refreshed(old(currentPath), listing))
    {
      var can := CanPerformWritableFileOperation(true);
      if !can {
        return;
      }
      var selected := GetSelectedFile();
      var filename := currentPath + selected.value.name;
      if !confirmed {
        return;
      }
      requests := requests + [Delete(filename)];
      if callOk {
        OpenFolder(None, listing);
      }
    }

    /**
     * `_handleRenameButton` with the user's answer to the prompt: ignored,
     * refused with a message, or a move to the new name followed by a
     * fresh listing of the same directory.
     */
    method HandleRenameButton(answer: Option<string>, callOk: bool, listing: DirListing)
      requires Valid()
      modifies this
      ensures Valid()
      ensures var o := RenameDecision(old(currentPath), old(readOnly), old(items), answer);
        && (o.Ignored? ==> unchanged(this))
        && (o.Refused? ==> DisplayUnchanged() && Appended([], [o.message]) && returned == old(returned))
        && (o.Issued? && !callOk ==> DisplayUnchanged() && Appended([o.request], []) && returned == old(returned))
        && (o.Issued? && callOk ==> Appended([o.request], []) && returned == old(returned) && Refreshed(old(currentPath), listing))
    {
      var o := DecideRename(answer);
      Apply(o, callOk, listing);
    }

    /** The checks of `_handleRenameButton`, in its order, and the call they lead to. */
    method DecideRename(answer: Option<string>) returns (o: Outcome)
      ensures o == RenameDecision(currentPath, readOnly, items, answer)
    {
      var can := CanPerformWritableFileOperation(true);
      if !can {
        return Ignored;
      }
      var selected := GetSelectedFile();
      var oldName := selected.value.name;
      if Blank(answer) {
        return Ignored;
      }
      var newName := answer.value;
      if newName == oldName {
        o := Ignored;
      } else if !ValidName(newName) {
        o := Refused(InvalidNameMessage(newName));
      } else {
        var exists_ := NameExists(newName);
        if exists_ {
          o := Refused(ExistsMessage(newName));
        } else {
          o := Issued(Move(currentPath + oldName, currentPath + newName));
        }
      }
    }

    /**
     * What the rename and new-folder handlers do once decided: nothing,
     * show the refusal, or make the helper call and, unless it rejects,
     * list the current directory again.
     */
    method Apply(o: Outcome, callOk: bool, listing: DirListing)
      requires Valid()
      modifies this
      ensures Valid()
      ensures o.Ignored? ==> unchanged(this)
      ensures o.Refused? ==> DisplayUnchanged() && Appended([], [o.message]) && returned == old(returned)
      ensures o.Issued? && !callOk ==> DisplayUnchanged() && Appended([o.request], []) && returned == old(returned)
      ensures o.Issued? && callOk ==> Appended([o.request], []) && returned == old(returned) && Refreshed(old(currentPath), listing)
    {
      match o
      case Ignored =>
      case Refused(message) =>
        messages := messages + [message];
      case Issued(request) =>
        requests := requests + [request];
        if callOk {
          OpenFolder(None, listing);
        }
    }

    /**
     * `_handleNewFolderButton` with the user's answer to the prompt:
     * ignored, refused with a message, or a new folder in the current
     * directory followed by a fresh listing.
     */
    method HandleNewFolderButton(answer: Option<string>, callOk: bool, listing: DirListing)
      requires Valid()
      modifies this
      ensures Valid()
      ensures var o := NewFolderDecision(old(currentPath), old(readOnly), old(items), answer);
        && (o.Ignored? ==> unchanged(this))
        && (o.Refused? ==> DisplayUnchanged() && Appended([], [o.message]) && returned == old(returned))
        && (o.Issued? && !callOk ==> DisplayUnchanged() && Appended([o.request], []) && returned == old(returned))
        && (o.Issued? && callOk ==> Appended([o.request], []) && returned == old(returned) && Refreshed(old(currentPath), listing))
    {
      var o := DecideNewFolder(answer);
      Apply(o, callOk, listing);
    }

    /** The checks of `_handleNewFolderButton`, in its order, and the call they lead to. */
    method DecideNewFolder(answer: Option<string>) returns (o: Outcome)
      ensures o == NewFolderDecision(currentPath, readOnly, items, answer)
    {
      if readOnly {
        return Ignored;
      }
      if Blank(answer) {
        return Ignored;
      }
      var folderName := answer.value;
      if !ValidName(folderName) {
        o := Refused(InvalidNameMessage(folderName));
      } else {
        var exists_ := NameExists(folderName);
        if exists_ {
          o := Refused(ExistsMessage(folderName));
        } else {
          o := Issued(MakeDir(currentPath + folderName));
        }
      }
    }

    /** `_handleDownloadButton`: read the selected file when it may be downloaded. */
    method HandleDownloadButton()
      requires Valid()
      modifies this
      ensures Valid()
      ensures var o := DownloadDecision(old(currentPath), old(items));
        && (o.Ignored? ==> unchanged(this))
        && (o.Issued? ==> DisplayUnchanged() && Appended([o.request], []) && returned == old(returned))
    {
      var can := CanDownload();
      if !can {
        return;
      }
      var selected := GetSelectedFile();
      var filename := selected.value.name;
      requests := requests + [ReadFile(currentPath + filename)];
    }

    /**
     * `_handleMoveButton` as written: it has no guard, so it runs on
     * whatever is selected, or on nothing. Once a target folder is chosen
     * in the nested dialog (given the hidden paths returned here), an
     * existing target is refused; otherwise the move is asked for, and
     * either its failure is reported or the target folder is listed.
     */
    method HandleMoveButtonAsWritten(chosen: Option<string>, targetExists: bool, moveOk: bool, listing: DirListing)
      returns (nestedHidden: set<string>)
      requires Valid()
      modifies this
      ensures Valid()
      ensures nestedHidden == MoveHidePaths(old(currentPath), old(items))
      ensures var o := MoveDecisionAsWritten(old(currentPath), old(items), chosen, targetExists);
        && (o.Ignored? ==> unchanged(this))
        && (o.Refused? ==> DisplayUnchanged() && Appended([], [o.message]) && returned == old(returned))
        && (o.Issued? && !moveOk ==>
              && DisplayUnchanged() && returned == old(returned)
              && Appended([o.request], [MoveFailedMessage(o.request.src, o.request.dst, MovedKind(old(items)))]))
        && (o.Issued? && moveOk ==> Appended([o.request], []) && returned == old(returned) && Refreshed(chosen.value, listing))
    {
      var o, filetype;
      o, filetype, nestedHidden := DecideMoveAsWritten(chosen, targetExists);
      ApplyMove(o, filetype, if chosen.Some? then chosen.value else "", moveOk, listing);
    }

    /**
     * The part of `_handleMoveButton` as written before the helper is
     * called: the hidden paths for the nested dialog, then, once a target
     * folder is chosen, the names of the selected entry (`null` with none)
     * and whether the existing target refuses the move.
     */
    method DecideMoveAsWritten(chosen: Option<string>, targetExists: bool)
      returns (o: Outcome, filetype: string, nestedHidden: set<string>)
      ensures nestedHidden == MoveHidePaths(currentPath, items)
      ensures filetype == MovedKind(items)
      ensures o == MoveDecisionAsWritten(currentPath, items, chosen, targetExists)
    {
      var selectedPath := GetSelectedFilePath();
      nestedHidden := (if selectedPath.Some? then {selectedPath.value} else {}) + {currentPath};
      var selected := GetSelectedFile();
      filetype := if selected.Some? && selected.value.kind == Folder then "folder" else "file";
      if Blank(chosen) {
        return Ignored, filetype, nestedHidden;
      }
      var newFolder := chosen.value;
      var filename := if selected.Some? then selected.value.name else "null";
      var oldPath := currentPath + filename;
      var newPath := newFolder + filename;
      assert filename == SelectedNameAsWritten(items);
      if targetExists {
        o := Refused(MoveExistsMessage(oldPath, newPath, filetype));
      } else {
        o := Issued(Move(oldPath, newPath));
      }
    }

    /**
     * The move once decided: nothing, the refusal shown, or the helper
     * call followed by its failure message or a listing of the target
     * folder.
     */
    method ApplyMove(o: Outcome, filetype: string, newFolder: string, moveOk: bool, listing: DirListing)
      requires Valid()
      requires o.Issued? ==> o.request.Move?
      modifies this
      ensures Valid()
      ensures o.Ignored? ==> unchanged(this)
      ensures o.Refused? ==> DisplayUnchanged() && Appended([], [o.message]) && returned == old(returned)
      ensures o.Issued? && !moveOk ==>
        && DisplayUnchanged() && returned == old(returned)
        && Appended([o.request], [MoveFailedMessage(o.request.src, o.request.dst, filetype)])
      ensures o.Issued? && moveOk ==> Appended([o.request], []) && returned == old(returned) && Refreshed(newFolder, listing)
    {
      match o
      case Ignored =>
      case Refused(message) =>
        messages := messages + [message];
      case Issued(request) =>
        requests := requests + [request];
        if !moveOk {
          messages := messages + [MoveFailedMessage(request.src, request.dst, filetype)];
        } else {
          OpenFolder(Some(newFolder), listing);
        }
    }

    /**
     * `_handleMoveButton` with the guard the delete and rename handlers
     * have: without a writable selection nothing happens and no nested
     * dialog is opened.
     */
    method HandleMoveButton(chosen: Option<string>, targetExists: bool, moveOk: bool, listing: DirListing)
      returns (nestedHidden: Option<set<string>>)
      requires Valid()
      modifies this
      ensures Valid()
      ensures nestedHidden.Some? <==> CanWrite(old(readOnly), old(items), true)
      ensures nestedHidden.Some? ==> nestedHidden.value == MoveHidePaths(old(currentPath), old(items))
      ensures var o := MoveDecision(old(currentPath), old(readOnly), old(items), chosen, targetExists);
        && (o.Ignored? ==> unchanged(this))
        && (o.Refused? ==> DisplayUnchanged() && Appended([], [o.message]) && returned == old(returned))
        && (o.Issued? && !moveOk ==>
              && DisplayUnchanged() && returned == old(returned)
              && Appended([o.request], [MoveFailedMessage(o.request.src, o.request.dst, MovedKind(old(items)))]))
        && (o.Issued? && moveOk ==> Appended([o.request], []) && returned == old(returned) && Refreshed(chosen.value, listing))
    {
      var can := CanPerformWritableFileOperation(true);
      if !can {
        return None;
      }
      var hs := HandleMoveButtonAsWritten(chosen, targetExists, moveOk, listing);
      return Some(hs);
    }

    /** `_openItem`: decide what to do with the entry, then do it. */
    method OpenItem(item: Option<ListItem>, forceNavigate: bool, listing: DirListing)
      requires Valid()
      modifies this
      ensures Valid()
      ensures var a := OpenItemAction(old(currentPath), old(mode), old(hidePaths), old(items), old(fileName),
                                      item, forceNavigate);
        && (a.Navigate? ==> Appended([], []) && returned == old(returned) && Refreshed(a.path, listing))
        && (a.ReturnPath? ==> DisplayUnchanged() && Appended([], []) && returned == Some(a.value))
        && (a.Unusable? ==> DisplayUnchanged() && Appended([], [UnusableMessage]) && returned == old(returned))
        && (a.NoAction? ==> unchanged(this))
    {
      var a := Decide(item, forceNavigate);
      Perform(a, listing);
    }

    /**
     * What `_openItem` does with the entry it settled on: enter a folder
     * (going up for `..`), return a path, or refuse the file type; with
     * nothing to act on, return the current directory when selectable.
     */
    method Decide(item: Option<ListItem>, forceNavigate: bool) returns (a: Action)
      ensures a == OpenItemAction(currentPath, mode, hidePaths, items, fileName, item, forceNavigate)
    {
      var target := Target(item);
      if target.Some? {
        var filename := target.value.0;
        var filetype := target.value.1;
        if filetype == Folder {
          if filename == ".." {
            var pathParts := Split(currentPath, '/');
            pathParts := Pop(pathParts);
            pathParts := Pop(pathParts);
            a := Navigate(Join(pathParts, '/') + "/");
          } else if forceNavigate || mode != SelectFolder {
            a := Navigate(currentPath + filename + "/");
          } else {
            a := ReturnPath(currentPath + filename + "/");
          }
        } else if filetype == Text {
          a := ReturnPath(currentPath + filename);
        } else {
          a := Unusable;
        }
      } else if !forceNavigate && ValidSelectableFolder() {
        a := ReturnPath(currentPath);
      } else {
        a := NoAction;
      }
    }

    /** Carrying out an action of `_openItem`: list the new directory, resolve, or show the refusal. */
    method Perform(a: Action, listing: DirListing)
      requires Valid()
      modifies this
      ensures Valid()
      ensures a.Navigate? ==> Appended([], []) && returned == old(returned) && Refreshed(a.path, listing)
      ensures a.ReturnPath? ==> DisplayUnchanged() && Appended([], []) && returned == Some(a.value)
      ensures a.Unusable? ==> DisplayUnchanged() && Appended([], [UnusableMessage]) && returned == old(returned)
      ensures a.NoAction? ==> unchanged(this)
    {
      match a
      case Navigate(path) =>
        OpenFolder(Some(path), listing);
      case ReturnPath(value) =>
        returned := Some(value);
      case Unusable =>
        messages := messages + [UnusableMessage];
      case NoAction =>
    }

    /**
     * The first half of `_openItem`: the name and kind of the entry to
     * open — the given row, else what the name field or the selection
     * designates.
     */
    method Target(item: Option<ListItem>) returns (target: Option<(string, Kind)>)
      ensures target == OpenTarget(mode, items, fileName, item)
    {
      var selectedItem := GetSelectedFile();
      target := None;
      if item.Some? {
        target := Some((item.value.name, item.value.kind));
      } else {
        var valid := ValidFilename(fileName);
        if valid {
          if selectedItem.Some? && fileName != selectedItem.value.name && mode == OpenFile {
            target := Some((selectedItem.value.name, selectedItem.value.kind));
          } else {
            target := Some((fileName, Text));
          }
        } else if selectedItem.Some? {
          target := Some((selectedItem.value.name, selectedItem.value.kind));
        }
      }
    }

    /** `_handleOkButton`: open what the name field or the selection designates. */
    method HandleOkButton(listing: DirListing)
      requires Valid()
      modifies this
      ensures Valid()
      ensures var a := OpenItemAction(old(currentPath), old(mode), old(hidePaths), old(items), old(fileName),
                                      None, false);
        && (a.Navigate? ==> Appended([], []) && returned == old(returned) && Refreshed(a.path, listing))
        && (a.ReturnPath? ==> DisplayUnchanged() && Appended([], []) && returned == Some(a.value))
        && (a.Unusable? ==> DisplayUnchanged() && Appended([], [UnusableMessage]) && returned == old(returned))
        && (a.NoAction? ==> unchanged(this))
    {
      OpenItem(None, false, listing);
    }
  }

  /**
   * Double-clicking a folder row and then the `..` row of the folder it
   * opened lands back in the starting directory.
   */
  method EnterFolderAndLeave(d: FileDialog, k: nat, inner: DirListing, outer: DirListing)
    requires d.Valid()
    requires k < |d.items| && d.items[k].kind == Folder && ValidName(d.items[k].name)
    requires |d.currentPath| > 0 && d.currentPath[|d.currentPath| - 1] == '/'
    modifies d
    ensures d.Valid()
    ensures d.currentPath == old(d.currentPath)
    ensures d.items == View(d.collate, d.currentPath, d.mode, d.hidePaths, d.hasHelper, outer)
    ensures d.requests == old(d.requests) && d.returned == old(d.returned)
  {
    var start := d.currentPath;
    var row := d.items[k];
    EnterThenLeave(start, d.mode, d.hidePaths, d.items, d.fileName, row.name, row, UpItem);
    d.OpenItem(Some(row), true, inner);
    assert d.currentPath == start + row.name + "/";
    assert d.currentPath != "/" by {
      assert |d.currentPath| > 1;
    }
    var up := d.items[0];
    EnterThenLeave(start, d.mode, d.hidePaths, d.items, d.fileName, row.name, row, up);
    d.OpenItem(Some(up), true, outer);
  }

  /**
   * The stale move button. Open a dialog on a root holding folder `d`,
   * click it (enabling move), double-click it (entering `/d/`, where
   * nothing is selected but move stays enabled), then press move and
   * choose `/t/`. As written the helper is asked to move `/d/null` to
   * `/t/null`; with the guard nothing is asked.
   */
  method StaleMoveButton(guarded: bool) returns (moveEnabled: bool, selection: Option<ListItem>, issued: seq<Request>)
    ensures moveEnabled && selection.None?
    ensures guarded ==> issued == []
    ensures !guarded ==> issued == [Move("/d/null", "/t/null")]
  {
    CodeUnitLeTotal();
    var d := new FileDialog(CodeUnitLe);
    var folder := FileObj("d", true);
    var row := ListItem("d", Folder, "fa-folder", false);
    assert ToItem(folder) == row;
    assert FolderFirst(CodeUnitLe, [folder]) == [folder] by {
      assert Folders([folder]) == [folder];
      assert Files([folder]) == [];
      assert [folder][1..] == [];
      assert SortAlpha(CodeUnitLe, [folder]) == [folder];
    }
    assert Kept("/", OpenFile, {}, [folder]) == [folder] by {
      assert [folder][..0] == [];
    }
    d.Open(false, FileDialogOpen, None, Listed([folder]));
    assert d.items == [row];
    d.HandleFileClick(0);
    assert d.items == [row.(selected := true)];
    assert d.controls.move;
    d.OpenItem(Some(d.items[0]), true, Listed([]));
    assert d.currentPath == "/d/";
    assert d.items == [UpItem];
    moveEnabled := d.controls.move;
    selection := d.GetSelectedFile();
    assert selection.None? by {
      assert !d.items[0].selected;
    }
    MoveWithoutSelectionAsWritten();
    if guarded {
      var _ := d.HandleMoveButton(Some("/t/"), false, true, Listed([]));
    } else {
      var _ := d.HandleMoveButtonAsWritten(Some("/t/"), false, true, Listed([]));
    }
    issued := d.requests;
  }
}
