/**
 * What the dialog's buttons decide, as values: whether a button is
 * enabled, which helper request a press leads to or which message it
 * shows instead, and where opening an item goes. The `FileDialog` class
 * carries these decisions out on its state.
 */
module Handlers {
  import opened PathText
  import opened FileKinds
  import opened Listing

  /** A call on the device's file helper that the dialog makes for the user. */
  datatype Request =
    | Move(src: string, dst: string)
    | MakeDir(path: string)
    | Delete(path: string)
    | ReadFile(path: string)

  /** What a button press comes to: nothing, a message instead of the action, or one helper request. */
  datatype Outcome = Ignored | Refused(message: string) | Issued(request: Request)

  /** `!answer` for what `prompt` returned: cancelled (null) or empty. */
  predicate Blank(answer: Option<string>)
  {
    answer.None? || answer.value == ""
  }

  function InvalidNameMessage(name: string): string
  {
    "'" + name + "' is an invalid name."
  }

  function ExistsMessage(name: string): string
  {
    "'" + name + "' already exists."
  }

  const UnusableMessage: string := "Unable to use this type of file"

  /**
   * `_canPerformWritableFileOperation`: not in read-only mode, some row
   * selected, its name valid, and, unless folders are included, not a
   * folder.
   */
  function CanWrite(readOnly: bool, items: seq<ListItem>, includeFolder: bool): (ok: bool)
    ensures ok ==> !readOnly && SelectedItem(items).Some? && ValidName(SelectedItem(items).value.name)
    ensures ok ==> includeFolder || SelectedItem(items).value.kind != Folder
    ensures (&& !readOnly && SelectedItem(items).Some? && ValidName(SelectedItem(items).value.name)
             && (includeFolder || SelectedItem(items).value.kind != Folder)) ==> ok
  {
    if readOnly then false
    else match SelectedItem(items)
      case None => false
      case Some(sel) =>
        if !ValidName(sel.name) then false
        else if !includeFolder && sel.kind == Folder then false
        else true
  }

  /**
   * Writing is never allowed on the `..` row or on a row the listing
   * filter would hide, and excluding folders only narrows it.
   */
  lemma WritableSelectionIsAnEntry(readOnly: bool, items: seq<ListItem>, includeFolder: bool)
    requires CanWrite(readOnly, items, includeFolder)
    ensures SelectedItem(items).value.name != ".."
    ensures !Hidden(SelectedItem(items).value.name)
    ensures CanWrite(readOnly, items, true)
  {
  }

  /** `_canDownload`: some row selected, not a folder, with a valid name; read-only mode does not matter. */
  function Downloadable(items: seq<ListItem>): (ok: bool)
    ensures ok <==> (&& SelectedItem(items).Some? && SelectedItem(items).value.kind != Folder
                     && ValidName(SelectedItem(items).value.name))
  {
    match SelectedItem(items)
    case None => false
    case Some(sel) =>
      if sel.kind == Folder then false
      else if !ValidName(sel.name) then false
      else true
  }

  /** A downloadable selection is also writable whenever the dialog is not read-only. */
  lemma DownloadableIsWritableUnlessReadOnly(readOnly: bool, items: seq<ListItem>)
    requires Downloadable(items)
    ensures CanWrite(readOnly, items, false) <==> !readOnly
  {
  }

  /** `_validSelectableFolder`: only in folder-select mode, and only where the current directory is not hidden. */
  predicate SelectableFolder(mode: Mode, cur: string, hidePaths: set<string>)
  {
    mode == SelectFolder && cur !in hidePaths
  }

  /** `_handleDelButton`: after the guard and the confirmation, delete the selected entry. */
  function DeleteDecision(cur: string, readOnly: bool, items: seq<ListItem>, confirmed: bool): (o: Outcome)
  {
    if !CanWrite(readOnly, items, true) then Ignored
    else
      var filename := cur + SelectedItem(items).value.name;
      if !confirmed then Ignored else Issued(Delete(filename))
  }

  /** Delete asks for exactly the selected entry's path, and only when writing is allowed and confirmed. */
  lemma DeleteIssuesExactlyWhen(cur: string, readOnly: bool, items: seq<ListItem>, confirmed: bool)
    ensures DeleteDecision(cur, readOnly, items, confirmed).Issued? <==> CanWrite(readOnly, items, true) && confirmed
    ensures DeleteDecision(cur, readOnly, items, confirmed).Issued? ==>
      var name := SelectedItem(items).value.name;
      && DeleteDecision(cur, readOnly, items, confirmed).request == Delete(cur + name)
      && ValidName(name)
    ensures !DeleteDecision(cur, readOnly, items, confirmed).Refused?
  {
  }

  /**
   * `_handleRenameButton`: after the writable guard, a cancelled or empty
   * answer and an unchanged name do nothing; an invalid or already listed
   * name is refused with a message; otherwise the entry is moved to its
   * new name in the same directory.
   */
  function RenameDecision(cur: string, readOnly: bool, items: seq<ListItem>, answer: Option<string>): (o: Outcome)
  {
    if !CanWrite(readOnly, items, true) then Ignored
    else
      var oldName := SelectedItem(items).value.name;
      if Blank(answer) then Ignored
      else
        var newName := answer.value;
        if newName == oldName then Ignored
        else if !ValidName(newName) then Refused(InvalidNameMessage(newName))
        else if NameListed(items, newName) then Refused(ExistsMessage(newName))
        else Issued(Move(cur + oldName, cur + newName))
  }

  /**
   * Rename issues a helper call exactly when writing is allowed and the
   * answer is a new, valid, unlisted name; the call moves `cur + old` to
   * `cur + new`, two different entries of the same directory.
   */
  lemma RenameIssuesExactlyWhen(cur: string, readOnly: bool, items: seq<ListItem>, answer: Option<string>)
    ensures RenameDecision(cur, readOnly, items, answer).Issued? <==>
      && CanWrite(readOnly, items, true)
      && !Blank(answer)
      && answer.value != SelectedItem(items).value.name
      && ValidName(answer.value)
      && !NameListed(items, answer.value)
    ensures RenameDecision(cur, readOnly, items, answer).Issued? ==>
      var oldName := SelectedItem(items).value.name;
      && RenameDecision(cur, readOnly, items, answer).request == Move(cur + oldName, cur + answer.value)
      && cur + oldName != cur + answer.value
      && '/' !in oldName && '/' !in answer.value
  {
    if RenameDecision(cur, readOnly, items, answer).Issued? {
      var oldName := SelectedItem(items).value.name;
      assert (cur + oldName)[|cur|..] == oldName;
      assert (cur + answer.value)[|cur|..] == answer.value;
    }
  }

  /** A refused rename names the reason: an invalid name, or one already listed. */
  lemma RenameRefusals(cur: string, readOnly: bool, items: seq<ListItem>, answer: Option<string>)
    ensures RenameDecision(cur, readOnly, items, answer).Refused? ==>
      && !Blank(answer)
      && (RenameDecision(cur, readOnly, items, answer).message == InvalidNameMessage(answer.value) <==> !ValidName(answer.value))
      && (RenameDecision(cur, readOnly, items, answer).message == ExistsMessage(answer.value) ==> NameListed(items, answer.value))
  {
    var o := RenameDecision(cur, readOnly, items, answer);
    if o.Refused? && ValidName(answer.value) {
      assert o == Refused(ExistsMessage(answer.value));
      assert InvalidNameMessage(answer.value)[|answer.value| + 3] == 'i';
      assert ExistsMessage(answer.value)[|answer.value| + 3] == 'a';
    }
  }

  /**
   * `_handleNewFolderButton`: nothing in read-only mode or for a cancelled
   * or empty answer; an invalid or already listed name is refused with a
   * message; otherwise the folder is made in the current directory.
   */
  function NewFolderDecision(cur: string, readOnly: bool, items: seq<ListItem>, answer: Option<string>): (o: Outcome)
  {
    if readOnly then Ignored
    else if Blank(answer) then Ignored
    else
      var folderName := answer.value;
      if !ValidName(folderName) then Refused(InvalidNameMessage(folderName))
      else if NameListed(items, folderName) then Refused(ExistsMessage(folderName))
      else Issued(MakeDir(cur + folderName))
  }

  /**
   * New-folder issues a helper call exactly when the dialog is writable
   * and the answer is a valid name that no row has; it makes `cur + name`,
   * and entering that folder later leads back here with `..`.
   */
  lemma NewFolderIssuesExactlyWhen(cur: string, readOnly: bool, items: seq<ListItem>, answer: Option<string>)
    ensures NewFolderDecision(cur, readOnly, items, answer).Issued? <==>
      !readOnly && !Blank(answer) && ValidName(answer.value) && !NameListed(items, answer.value)
    ensures NewFolderDecision(cur, readOnly, items, answer).Issued? ==>
      && NewFolderDecision(cur, readOnly, items, answer).request == MakeDir(cur + answer.value)
      && ((|cur| > 0 && cur[|cur| - 1] == '/') ==> ParentPath(ChildPath(cur, answer.value)) == cur)
  {
    if NewFolderDecision(cur, readOnly, items, answer).Issued? && |cur| > 0 && cur[|cur| - 1] == '/' {
      ParentOfChild(cur, answer.value);
    }
  }

  /** `_handleDownloadButton`: read the selected file when it may be downloaded. */
  function DownloadDecision(cur: string, items: seq<ListItem>): (o: Outcome)
  {
    if !Downloadable(items) then Ignored
    else Issued(ReadFile(cur + SelectedItem(items).value.name))
  }

  /** Download reads exactly the selected file, never a folder. */
  lemma DownloadReadsSelectedFile(cur: string, items: seq<ListItem>)
    ensures DownloadDecision(cur, items).Issued? <==> Downloadable(items)
    ensures DownloadDecision(cur, items).Issued? ==>
      && SelectedItem(items).value.kind != Folder
      && DownloadDecision(cur, items).request == ReadFile(cur + SelectedItem(items).value.name)
  {
  }

  /** `_getSelectedFilename` in a string context: JavaScript turns a missing selection (null) into "null". */
  function SelectedNameAsWritten(items: seq<ListItem>): string
  {
    match SelectedItem(items)
    case None => "null"
    case Some(sel) => sel.name
  }

  /** The word the move messages use: "folder" for a folder, "file" otherwise (also when nothing is selected). */
  function MovedKind(items: seq<ListItem>): string
  {
    if SelectedItem(items).Some? && SelectedItem(items).value.kind == Folder then "folder" else "file"
  }

  /**
   * The hidden paths `_handleMoveButton` gives the folder-select dialog:
   * the selected path (dropped when null, which no listed path equals) and
   * the current directory.
   */
  function MoveHidePaths(cur: string, items: seq<ListItem>): (hs: set<string>)
    ensures cur in hs
    ensures forall p :: p in hs ==> p == cur || Some(p) == SelectedFilePath(cur, items)
  {
    (match SelectedFilePath(cur, items) case None => {} case Some(p) => {p}) + {cur}
  }

  /** Moving a selected folder hides that folder and the current directory from the target choice. */
  lemma MoveHidesSelectedFolder(cur: string, items: seq<ListItem>)
    requires SelectedItem(items).Some? && SelectedItem(items).value.kind == Folder
    requires SelectedItem(items).value.name != ""
    ensures MoveHidePaths(cur, items) == {cur + SelectedItem(items).value.name, cur}
  {
  }

  /**
   * The current directory goes into the nested dialog's hidden paths with
   * its trailing `/`, but the listing filter compares `cur + path`, which
   * has none. So from the parent `p`, the row of `cur == p + n + "/"` is
   * still listed, and choosing it returns `cur` as the target: the move is
   * then asked to put the entry where it already is.
   */
  lemma MoveTargetMayBeCurrentFolder(p: string, n: string, items: seq<ListItem>, parentRows: seq<ListItem>)
    requires ValidName(n)
    ensures var cur, row := ChildPath(p, n), ToItem(FileObj(n, true));
      && Keep(p, SelectFolder, MoveHidePaths(cur, items), FileObj(n, true))
      && OpenItemAction(p, SelectFolder, MoveHidePaths(cur, items), parentRows, "", Some(row), false) == ReturnPath(cur)
    ensures var cur, f := ChildPath(p, n), SelectedNameAsWritten(items);
      MoveDecisionAsWritten(cur, items, Some(cur), false) == Issued(Move(cur + f, cur + f))
  {
    var cur := ChildPath(p, n);
    assert p + n !in MoveHidePaths(cur, items) by {
      forall q | q in MoveHidePaths(cur, items)
        ensures |q| > |p + n|
      {
        if q != cur {
          assert Some(q) == SelectedFilePath(cur, items);
        }
      }
    }
  }

  function MoveExistsMessage(oldPath: string, newPath: string, kind: string): string
  {
    "Error moving " + oldPath + ". Another " + kind + " with the same name already exists at " + newPath + "."
  }

  function MoveFailedMessage(oldPath: string, newPath: string, kind: string): string
  {
    "Error moving " + oldPath + " to " + newPath + ". Make sure the " + kind + " you are moving exists."
  }

  /**
   * `_handleMoveButton` as written: once a target folder was chosen, the
   * selected name (or "null") is moved from the current directory into it,
   * unless something of that name is already there.
   */
  function MoveDecisionAsWritten(cur: string, items: seq<ListItem>, chosen: Option<string>,
                                 targetExists: bool): (o: Outcome)
  {
    if Blank(chosen) then Ignored
    else
      var filename := SelectedNameAsWritten(items);
      var oldPath := cur + filename;
      var newPath := chosen.value + filename;
      if targetExists then Refused(MoveExistsMessage(oldPath, newPath, MovedKind(items)))
      else Issued(Move(oldPath, newPath))
  }

  /**
   * With no row selected the handler as written still moves: it asks the
   * helper to move `<cur>null` to `<target>null`.
   */
  lemma MoveWithoutSelectionAsWritten()
    ensures MoveDecisionAsWritten("/d/", [UpItem], Some("/t/"), false) == Issued(Move("/d/null", "/t/null"))
  {
    assert SelectedItem([UpItem]).None? by {
      assert !([UpItem][0].selected);
    }
    assert SelectedNameAsWritten([UpItem]) == "null";
    assert "/d/" + "null" == "/d/null" && "/t/" + "null" == "/t/null";
  }

  /**
   * `_handleMoveButton` with the guard its sibling handlers have: nothing
   * unless writing on the selection is allowed.
   */
  function MoveDecision(cur: string, readOnly: bool, items: seq<ListItem>, chosen: Option<string>,
                        targetExists: bool): (o: Outcome)
  {
    if !CanWrite(readOnly, items, true) then Ignored
    else MoveDecisionAsWritten(cur, items, chosen, targetExists)
  }

  /**
   * The guarded move only ever moves the selected entry, under its own
   * valid name, from the current directory into the chosen one.
   */
  lemma MoveMovesSelectedEntry(cur: string, readOnly: bool, items: seq<ListItem>, chosen: Option<string>,
                               targetExists: bool)
    ensures MoveDecision(cur, readOnly, items, chosen, targetExists).Issued? <==>
      CanWrite(readOnly, items, true) && !Blank(chosen) && !targetExists
    ensures MoveDecision(cur, readOnly, items, chosen, targetExists).Issued? ==>
      var name := SelectedItem(items).value.name;
      && ValidName(name)
      && MoveDecision(cur, readOnly, items, chosen, targetExists).request == Move(cur + name, chosen.value + name)
  {
  }

  /** What opening an item comes to: entering a folder, returning a path to the caller, refusing the type, or nothing. */
  datatype Action = Navigate(path: string) | ReturnPath(value: string) | Unusable | NoAction

  /**
   * The name and type `_openItem` acts on: the given row; else, when the
   * typed name is a valid file name, that name as text (but the selected
   * row instead in open mode when the two differ); else the selected row.
   */
  function OpenTarget(mode: Mode, items: seq<ListItem>, fileName: string, item: Option<ListItem>): (t: Option<(string, Kind)>)
    ensures item.Some? ==> t == Some((item.value.name, item.value.kind))
    ensures item.None? && t.Some? && t.value.1 != Text ==>
      SelectedItem(items).Some? && t == Some((SelectedItem(items).value.name, SelectedItem(items).value.kind))
    ensures item.None? && ValidName(fileName) && !FolderListed(items, fileName) ==>
      && t.Some?
      && (t.value == (fileName, Text) <==>
            !(mode == OpenFile && SelectedItem(items).Some? && SelectedItem(items).value.name != fileName))
      && (t.value != (fileName, Text) ==> t.value == (SelectedItem(items).value.name, SelectedItem(items).value.kind))
    ensures item.None? && !(ValidName(fileName) && !FolderListed(items, fileName)) ==>
      && (t.Some? <==> SelectedItem(items).Some?)
      && (t.Some? ==> t.value == (SelectedItem(items).value.name, SelectedItem(items).value.kind))
  {
    var sel := SelectedItem(items);
    if item.Some? then Some((item.value.name, item.value.kind))
    else if ValidName(fileName) && !FolderListed(items, fileName) then
      if sel.Some? && fileName != sel.value.name && mode == OpenFile then Some((sel.value.name, sel.value.kind))
      else Some((fileName, Text))
    else if sel.Some? then Some((sel.value.name, sel.value.kind))
    else None
  }

  /**
   * `_openItem`: a folder row is entered (`..` goes to the parent), or in
   * folder-select mode without a forced navigation returned; a text file
   * is returned; any other file is refused; with nothing to act on the
   * current directory is returned when it is selectable.
   */
  function OpenItemAction(cur: string, mode: Mode, hidePaths: set<string>, items: seq<ListItem>,
                          fileName: string, item: Option<ListItem>, forceNavigate: bool): (a: Action)
  {
    match OpenTarget(mode, items, fileName, item)
    case Some((name, kind)) =>
      if kind == Folder then
        if name == ".." then Navigate(ParentPath(cur))
        else if forceNavigate || mode != SelectFolder then Navigate(cur + name + "/")
        else ReturnPath(cur + name + "/")
      else if kind == Text then ReturnPath(cur + name)
      else Unusable
    case None =>
      if !forceNavigate && SelectableFolder(mode, cur, hidePaths) then ReturnPath(cur) else NoAction
  }

  /** Double-clicking a folder row other than `..` enters it. */
  lemma OpenFolderRowEnters(cur: string, mode: Mode, hidePaths: set<string>, items: seq<ListItem>,
                            fileName: string, row: ListItem)
    requires row.kind == Folder && row.name != ".."
    ensures OpenItemAction(cur, mode, hidePaths, items, fileName, Some(row), true) == Navigate(ChildPath(cur, row.name))
  {
  }

  /** Double-clicking the `..` row goes up one directory. */
  lemma OpenUpRowLeaves(cur: string, mode: Mode, hidePaths: set<string>, items: seq<ListItem>, fileName: string,
                        row: ListItem, forceNavigate: bool)
    requires SameNode(row, UpItem)
    ensures OpenItemAction(cur, mode, hidePaths, items, fileName, Some(row), forceNavigate) == Navigate(ParentPath(cur))
  {
  }

  /**
   * Entering folder `name` from directory `cur` and then opening the `..`
   * row there returns to `cur`.
   */
  lemma EnterThenLeave(cur: string, mode: Mode, hidePaths: set<string>, items: seq<ListItem>, fileName: string,
                       name: string, row: ListItem, upRow: ListItem)
    requires |cur| > 0 && cur[|cur| - 1] == '/'
    requires row.kind == Folder && ValidName(row.name) && row.name == name
    requires SameNode(upRow, UpItem)
    ensures OpenItemAction(cur, mode, hidePaths, items, fileName, Some(row), true) == Navigate(cur + name + "/")
    ensures OpenItemAction(cur + name + "/", mode, hidePaths, items, fileName, Some(upRow), true) == Navigate(cur)
  {
    ParentOfChild(cur, name);
  }

  /**
   * In save mode, pressing OK with a valid typed name that is no folder of
   * the list returns that file's path in the current directory.
   */
  lemma SaveReturnsTypedName(cur: string, hidePaths: set<string>, items: seq<ListItem>, fileName: string)
    requires ValidName(fileName) && !FolderListed(items, fileName)
    ensures OpenItemAction(cur, SaveFile, hidePaths, items, fileName, None, false) == ReturnPath(cur + fileName)
  {
  }

  /**
   * In folder-select mode, with an empty name field (the only value the
   * field has in that mode), the dialog returns only a folder the listing
   * filter did not hide: the current directory when it is not hidden, or
   * `cur + name + "/"` for a shown folder `name` whose path `cur + name`
   * is not hidden.
   */
  lemma FolderSelectReturnsShownFolder(cur: string, hidePaths: set<string>, items: seq<ListItem>,
                                       item: Option<ListItem>, forceNavigate: bool, v: string)
    requires WellFormed(cur, SelectFolder, hidePaths, items)
    requires item.Some? ==> item.value in items
    requires OpenItemAction(cur, SelectFolder, hidePaths, items, "", item, forceNavigate) == ReturnPath(v)
    ensures (v == cur && cur !in hidePaths) ||
      exists i :: 0 <= i < |items| && items[i].kind == Folder && v == cur + items[i].name + "/"
        && cur + items[i].name !in hidePaths && !Hidden(items[i].name)
  {
    var t := OpenTarget(SelectFolder, items, "", item);
    if t.Some? {
      var row :| row in items && row.name == t.value.0 && row.kind == t.value.1 by {
        if item.None? {
          assert SelectedItem(items).value in items;
        }
      }
      var i :| 0 <= i < |items| && items[i] == row;
      assert Admissible(cur, SelectFolder, hidePaths, items[i]);
      assert v == cur + row.name + "/";
      assert items[i].kind == Folder;
    }
  }
}
