/**
 * The file list the dialog shows, as values: its rows, which helper
 * entries become rows after `_openFolder`, name validation, and which
 * row is selected.
 */
module Listing {
  import opened PathText
  import opened FileKinds
  import opened Sorting

  datatype Option<T> = None | Some(value: T)

  /**
   * The dialog's `data-type` attribute: set by `open` to "open", "save"
   * or "folder-select" (for both move and copy); Unset before the first
   * `open`.
   */
  datatype Mode = Unset | OpenFile | SaveFile | SelectFolder

  /**
   * One row of the file list: the text of its name span, its `data-type`,
   * its icon class and whether it is marked selected.
   */
  datatype ListItem = ListItem(name: string, kind: Kind, icon: string, selected: bool)

  /** The result of the helper's `listDir`: the entries, or an exception. */
  datatype DirListing = Listed(files: seq<FileObj>) | ListFailed

  /** The `..` row added first when the current directory is not the root. */
  const UpItem: ListItem := ListItem("..", Folder, "fa-folder-open", false)

  /** `_addFile` for a helper entry: its name, kind and icon, not selected. */
  function ToItem(f: FileObj): (item: ListItem)
    ensures item.name == f.path && !item.selected
    ensures item.kind == Folder <==> f.isDir
  {
    ListItem(f.path, TypeOf(f), IconOf(f), false)
  }

  /** What `isEqualNode` compares between two rows once the selection marks are set aside. */
  predicate SameNode(a: ListItem, b: ListItem)
  {
    a.name == b.name && a.kind == b.kind && a.icon == b.icon
  }

  /** Whether `name` starts with a dot (the check `name[0] == "."`, false for ""). */
  predicate Hidden(name: string)
  {
    |name| > 0 && name[0] == '.'
  }

  /**
   * `_validName`: no empty name, no `.` or `..`, no '/', and no name
   * starting with a dot. The first two exclusions are implied by the
   * last, so a name is valid exactly when it is non-empty, does not
   * start with a dot and holds no '/'.
   */
  function ValidName(name: string): (ok: bool)
    ensures ok <==> |name| > 0 && name[0] != '.' && '/' !in name
  {
    if name == "" || name == "." || name == ".." || '/' in name then false
    else if name[0] == '.' then false
    else true
  }

  /** The filter of `_openFolder`: which helper entries get a row. */
  predicate Keep(cur: string, mode: Mode, hidePaths: set<string>, f: FileObj)
  {
    !Hidden(f.path) && !(mode == SelectFolder && !f.isDir) && cur + f.path !in hidePaths
  }

  /** The entries of `fs` that `_openFolder` keeps, in their order. */
  function Kept(cur: string, mode: Mode, hidePaths: set<string>, fs: seq<FileObj>): seq<FileObj>
  {
    if fs == [] then []
    else
      var last := fs[|fs| - 1];
      Kept(cur, mode, hidePaths, fs[..|fs| - 1]) + (if Keep(cur, mode, hidePaths, last) then [last] else [])
  }

  /** Every entry kept passes the filter. */
  lemma {:induction false} KeptPass(cur: string, mode: Mode, hidePaths: set<string>, fs: seq<FileObj>)
    ensures forall i :: 0 <= i < |Kept(cur, mode, hidePaths, fs)| ==> Keep(cur, mode, hidePaths, Kept(cur, mode, hidePaths, fs)[i])
  {
    if fs != [] {
      KeptPass(cur, mode, hidePaths, fs[..|fs| - 1]);
    }
  }

  /** An entry is kept exactly when it is listed and passes the filter. */
  lemma {:induction false} KeptMembers(cur: string, mode: Mode, hidePaths: set<string>, fs: seq<FileObj>)
    ensures forall f :: f in Kept(cur, mode, hidePaths, fs) <==> f in fs && Keep(cur, mode, hidePaths, f)
  {
    if fs != [] {
      var init := fs[..|fs| - 1];
      KeptMembers(cur, mode, hidePaths, init);
      assert fs == init + [fs[|fs| - 1]];
    }
  }

  /** Filtering a folder-first listing leaves it folder-first. */
  lemma {:induction false} KeptFoldersFirst(cur: string, mode: Mode, hidePaths: set<string>, fs: seq<FileObj>)
    requires FoldersFirst(fs)
    ensures FoldersFirst(Kept(cur, mode, hidePaths, fs))
  {
    if fs != [] {
      var init := fs[..|fs| - 1];
      var last := fs[|fs| - 1];
      assert FoldersFirst(init);
      KeptFoldersFirst(cur, mode, hidePaths, init);
      if Keep(cur, mode, hidePaths, last) && last.isDir {
        KeptMembers(cur, mode, hidePaths, init);
        var k := Kept(cur, mode, hidePaths, init);
        forall i | 0 <= i < |k| ensures k[i].isDir {
          assert k[i] in init;
          var j :| 0 <= j < |init| && init[j] == k[i];
          assert fs[j] == init[j];
        }
      }
    }
  }

  /** The rows `_addFile` makes for the entries `fs`, one each, in order. */
  function Rows(fs: seq<FileObj>): (rows: seq<ListItem>)
    ensures |rows| == |fs|
  {
    seq(|fs|, i requires 0 <= i < |fs| => ToItem(fs[i]))
  }

  /** The row at a position is the row of the entry there. */
  lemma RowAt(fs: seq<FileObj>, i: nat)
    requires i < |fs|
    ensures Rows(fs)[i] == ToItem(fs[i])
  {
  }

  /** Adding one entry adds its row at the end. */
  lemma RowsAppend(fs: seq<FileObj>, f: FileObj)
    ensures Rows(fs + [f]) == Rows(fs) + [ToItem(f)]
  {
  }

  /** Taking one more entry of `fs` adds its row exactly when the entry is kept. */
  lemma RowsOfKeptStep(cur: string, mode: Mode, hidePaths: set<string>, fs: seq<FileObj>, i: nat)
    requires i < |fs|
    ensures Rows(Kept(cur, mode, hidePaths, fs[..i + 1])) ==
      Rows(Kept(cur, mode, hidePaths, fs[..i])) + (if Keep(cur, mode, hidePaths, fs[i]) then [ToItem(fs[i])] else [])
  {
    assert fs[..i + 1][..i] == fs[..i];
    if Keep(cur, mode, hidePaths, fs[i]) {
      RowsAppend(Kept(cur, mode, hidePaths, fs[..i]), fs[i]);
    } else {
      assert Kept(cur, mode, hidePaths, fs[..i + 1]) == Kept(cur, mode, hidePaths, fs[..i]);
    }
  }

  /** The `..` row, present exactly when `cur` is not the root. */
  function UpRow(cur: string): seq<ListItem>
  {
    if cur != "/" then [UpItem] else []
  }

  /** The entries `_openFolder` shows from the helper's answer, folder-first. */
  function ShownEntries(le: (string, string) -> bool, cur: string, mode: Mode, hidePaths: set<string>,
                        hasHelper: bool, listing: DirListing): seq<FileObj>
    requires Total(le)
  {
    if hasHelper && listing.Listed? then Kept(cur, mode, hidePaths, FolderFirst(le, listing.files)) else []
  }

  /**
   * The list `_openFolder` builds: the `..` row when not at the root, then,
   * when the helper answered, one row per kept entry of the folder-first
   * ordering of its listing.
   */
  function View(le: (string, string) -> bool, cur: string, mode: Mode, hidePaths: set<string>,
                hasHelper: bool, listing: DirListing): seq<ListItem>
    requires Total(le)
  {
    UpRow(cur) + Rows(ShownEntries(le, cur, mode, hidePaths, hasHelper, listing))
  }

  /** The list `_openFolder` builds, case by case. */
  lemma ViewParts(le: (string, string) -> bool, cur: string, mode: Mode, hidePaths: set<string>,
                  hasHelper: bool, listing: DirListing)
    requires Total(le)
    ensures !hasHelper || listing.ListFailed? ==> View(le, cur, mode, hidePaths, hasHelper, listing) == UpRow(cur)
    ensures hasHelper && listing.Listed? ==>
      View(le, cur, mode, hidePaths, hasHelper, listing) == UpRow(cur) + Rows(Kept(cur, mode, hidePaths, FolderFirst(le, listing.files)))
  {
    assert Rows([]) == [];
  }

  /** A row `_openFolder` may show for a helper entry. */
  predicate Admissible(cur: string, mode: Mode, hidePaths: set<string>, item: ListItem)
  {
    && !Hidden(item.name)
    && (mode == SelectFolder ==> item.kind == Folder)
    && cur + item.name !in hidePaths
  }

  /**
   * The shape every list the dialog shows has: a leading `..` row exactly
   * when not at the root, then only admissible rows.
   */
  predicate WellFormed(cur: string, mode: Mode, hidePaths: set<string>, items: seq<ListItem>)
  {
    && (cur != "/" ==> |items| > 0 && SameNode(items[0], UpItem))
    && forall i :: |UpRow(cur)| <= i < |items| ==> Admissible(cur, mode, hidePaths, items[i])
  }

  /** In a well-formed list the `..` row leads exactly when the directory is not the root. */
  lemma UpRowLeadsIffNotRoot(cur: string, mode: Mode, hidePaths: set<string>, items: seq<ListItem>)
    requires WellFormed(cur, mode, hidePaths, items)
    ensures (|items| > 0 && items[0].name == "..") <==> cur != "/"
  {
    if cur == "/" && |items| > 0 {
      assert Admissible(cur, mode, hidePaths, items[0]);
    }
  }

  /**
   * After `_openFolder` the list is well-formed: `..` leads exactly when
   * not at the root, and no helper entry starting with a dot, no file in
   * folder-select mode and no hidden path is shown.
   */
  lemma ViewWellFormed(le: (string, string) -> bool, cur: string, mode: Mode, hidePaths: set<string>,
                       hasHelper: bool, listing: DirListing)
    requires Total(le)
    ensures WellFormed(cur, mode, hidePaths, View(le, cur, mode, hidePaths, hasHelper, listing))
  {
    var items := View(le, cur, mode, hidePaths, hasHelper, listing);
    var es := ShownEntries(le, cur, mode, hidePaths, hasHelper, listing);
    var u := |UpRow(cur)|;
    assert items == UpRow(cur) + Rows(es);
    if hasHelper && listing.Listed? {
      KeptPass(cur, mode, hidePaths, FolderFirst(le, listing.files));
    }
    forall i | u <= i < |items| ensures Admissible(cur, mode, hidePaths, items[i]) {
      RowAt(es, i - u);
      assert items[i] == Rows(es)[i - u];
      assert Keep(cur, mode, hidePaths, es[i - u]);
    }
  }

  /** After `_openFolder` every listed entry that passes the filter has its row. */
  lemma ViewShowsKeptEntries(le: (string, string) -> bool, cur: string, mode: Mode, hidePaths: set<string>,
                             files: seq<FileObj>, f: FileObj)
    requires Total(le)
    requires f in files && Keep(cur, mode, hidePaths, f)
    ensures ToItem(f) in View(le, cur, mode, hidePaths, true, Listed(files))
  {
    var es := Kept(cur, mode, hidePaths, FolderFirst(le, files));
    SortedKeptMembers(le, cur, mode, hidePaths, files);
    var j :| 0 <= j < |es| && es[j] == f;
    var items := View(le, cur, mode, hidePaths, true, Listed(files));
    ViewParts(le, cur, mode, hidePaths, true, Listed(files));
    RowAt(es, j);
    assert items[|UpRow(cur)| + j] == Rows(es)[j];
  }

  /** After `_openFolder` every row below `..` is the row of a listed entry that passes the filter. */
  lemma ViewRowsComeFromKeptEntries(le: (string, string) -> bool, cur: string, mode: Mode, hidePaths: set<string>,
                                    files: seq<FileObj>, i: nat)
    requires Total(le)
    requires |UpRow(cur)| <= i < |View(le, cur, mode, hidePaths, true, Listed(files))|
    ensures exists f ::
      f in files && Keep(cur, mode, hidePaths, f) && View(le, cur, mode, hidePaths, true, Listed(files))[i] == ToItem(f)
  {
    var fs := FolderFirst(le, files);
    var es := Kept(cur, mode, hidePaths, fs);
    ViewParts(le, cur, mode, hidePaths, true, Listed(files));
    var j := i - |UpRow(cur)|;
    RowAt(es, j);
    var f := es[j];
    assert f in es;
    SortedKeptMembers(le, cur, mode, hidePaths, files);
    assert View(le, cur, mode, hidePaths, true, Listed(files))[i] == ToItem(f);
  }

  /** An entry is shown exactly when it is listed and passes the filter, whatever the order. */
  lemma SortedKeptMembers(le: (string, string) -> bool, cur: string, mode: Mode, hidePaths: set<string>,
                          files: seq<FileObj>)
    requires Total(le)
    ensures forall f :: f in Kept(cur, mode, hidePaths, FolderFirst(le, files)) <==> f in files && Keep(cur, mode, hidePaths, f)
  {
    var fs := FolderFirst(le, files);
    FolderFirstPermutes(le, files);
    SameElementsSameMembers(files, fs);
    KeptMembers(cur, mode, hidePaths, fs);
  }

  /** Two listings with the same entries have the same members. */
  lemma SameElementsSameMembers(s: seq<FileObj>, t: seq<FileObj>)
    requires multiset(s) == multiset(t)
    ensures forall f :: f in s <==> f in t
  {
    forall f ensures f in s <==> f in t {
      assert f in s <==> f in multiset(s);
      assert f in t <==> f in multiset(t);
    }
  }

  /** After `_openFolder` no file row comes before a folder row. */
  lemma ViewFoldersFirst(le: (string, string) -> bool, cur: string, mode: Mode, hidePaths: set<string>,
                         hasHelper: bool, listing: DirListing)
    requires Total(le)
    ensures var items := View(le, cur, mode, hidePaths, hasHelper, listing);
      forall i, j :: 0 <= i < j < |items| && items[j].kind == Folder ==> items[i].kind == Folder
  {
    var items := View(le, cur, mode, hidePaths, hasHelper, listing);
    var es := ShownEntries(le, cur, mode, hidePaths, hasHelper, listing);
    if hasHelper && listing.Listed? {
      FolderFirstOrders(le, listing.files);
      KeptFoldersFirst(cur, mode, hidePaths, FolderFirst(le, listing.files));
    }
    var u := |UpRow(cur)|;
    assert items == UpRow(cur) + Rows(es);
    if hasHelper && listing.Listed? {
      KeptPass(cur, mode, hidePaths, FolderFirst(le, listing.files));
    }
    forall i, j | 0 <= i < j < |items| && items[j].kind == Folder ensures items[i].kind == Folder {
      if i >= u {
        RowAt(es, j - u);
        RowAt(es, i - u);
        assert items[j] == Rows(es)[j - u] && items[i] == Rows(es)[i - u];
      }
    }
  }

  /** Whether some row has this name. */
  predicate NameListed(items: seq<ListItem>, name: string)
  {
    exists i :: 0 <= i < |items| && items[i].name == name
  }

  /** Whether some folder row has this name. */
  predicate FolderListed(items: seq<ListItem>, name: string)
  {
    exists i :: 0 <= i < |items| && items[i].kind == Folder && items[i].name == name
  }

  /** The index of the first selected row, if any. */
  function FirstSelected(items: seq<ListItem>): (r: Option<nat>)
    ensures r.Some? ==> r.value < |items| && items[r.value].selected
    ensures r.Some? ==> forall j :: 0 <= j < r.value ==> !items[j].selected
    ensures r.None? <==> forall j :: 0 <= j < |items| ==> !items[j].selected
  {
    if items == [] then None
    else if items[0].selected then Some(0)
    else match FirstSelected(items[1..])
      case None => None
      case Some(k) => Some(k + 1)
  }

  /** `_getSelectedFile`: the first selected row, or null. */
  function SelectedItem(items: seq<ListItem>): (r: Option<ListItem>)
    ensures r.Some? <==> exists i :: 0 <= i < |items| && items[i].selected
    ensures r.Some? ==> r.value in items && r.value.selected
  {
    match FirstSelected(items)
    case None => None
    case Some(i) => Some(items[i])
  }

  /** The list after clicking a row like `clicked`: the rows equal to it marked, all others unmarked. */
  function SelectOnly(items: seq<ListItem>, clicked: ListItem): (r: seq<ListItem>)
  {
    seq(|items|, i requires 0 <= i < |items| => items[i].(selected := SameNode(items[i], clicked)))
  }

  /**
   * A click selects: afterwards the rows keep their names, kinds and icons,
   * a row is selected exactly when it equals the clicked one, and the
   * selected row is the first row equal to the clicked one; when names
   * are unique it is the clicked row itself.
   */
  lemma ClickSelects(items: seq<ListItem>, k: nat)
    requires k < |items|
    ensures var r := SelectOnly(items, items[k]);
      && |r| == |items|
      && (forall i :: 0 <= i < |r| ==> SameNode(r[i], items[i]))
      && (forall i :: 0 <= i < |r| ==> (r[i].selected <==> SameNode(items[i], items[k])))
      && FirstSelected(r).Some?
      && FirstSelected(r).value <= k
      && SameNode(items[FirstSelected(r).value], items[k])
      && (forall j :: 0 <= j < FirstSelected(r).value ==> !SameNode(items[j], items[k]))
    ensures (forall i, j :: 0 <= i < j < |items| ==> items[i].name != items[j].name) ==>
      FirstSelected(SelectOnly(items, items[k])) == Some(k)
  {
    var r := SelectOnly(items, items[k]);
    assert r[k].selected;
  }

  /**
   * `_getSelectedFilePath`: null without a selection (or with an empty
   * name); the current directory when the selected row is not a folder;
   * the folder's own path when it is.
   */
  function SelectedFilePath(cur: string, items: seq<ListItem>): (r: Option<string>)
    ensures SelectedItem(items).None? ==> r.None?
    ensures (SelectedItem(items).Some? && SelectedItem(items).value.kind != Folder
      && SelectedItem(items).value.name != "") ==> r == Some(cur)
    ensures (SelectedItem(items).Some? && SelectedItem(items).value.kind == Folder
      && SelectedItem(items).value.name != "") ==> r == Some(cur + SelectedItem(items).value.name)
  {
    match SelectedItem(items)
    case None => None
    case Some(item) =>
      if item.name == "" then None
      else if item.kind != Folder then Some(cur)
      else Some(cur + item.name)
  }

  /** Marking which rows are selected keeps a list well-formed. */
  lemma SelectOnlyKeepsWellFormed(cur: string, mode: Mode, hidePaths: set<string>, items: seq<ListItem>,
                                  clicked: ListItem)
    requires WellFormed(cur, mode, hidePaths, items)
    ensures WellFormed(cur, mode, hidePaths, SelectOnly(items, clicked))
  {
    var r := SelectOnly(items, clicked);
    forall i | |UpRow(cur)| <= i < |r| ensures Admissible(cur, mode, hidePaths, r[i]) {
      assert Admissible(cur, mode, hidePaths, items[i]);
    }
  }
}
