/**
 * What kind of entry the file dialog shows for a listed file: its
 * extension, the Font Awesome icon and the `data-type` (folder, text or
 * bin), looked up in a fixed table of fifteen extensions.
 */
module FileKinds {
  import opened PathText

  /** An entry as the device's file helper lists it: a name and whether it is a directory. */
  datatype FileObj = FileObj(path: string, isDir: bool)

  /** The `data-type` a listed entry carries. */
  datatype Kind = Folder | Text | Bin

  /** The kinds a table row can give: never a folder. */
  type FileKind = k: Kind | k != Folder witness Bin

  /** One row of the extension table: an icon name and a kind. */
  datatype Assoc = Assoc(icon: string, kind: FileKind)

  /** The extension table, keyed by lower-case extension. */
  const ExtensionMap: map<string, Assoc> := map[
    "wav" := Assoc("file-audio", Bin),
    "mp3" := Assoc("file-audio", Bin),
    "bmp" := Assoc("file-image", Bin),
    "gif" := Assoc("file-image", Bin),
    "jpg" := Assoc("file-image", Bin),
    "jpeg" := Assoc("file-image", Bin),
    "zip" := Assoc("file-archive", Bin),
    "py" := Assoc("file-alt", Text),
    "json" := Assoc("file-code", Text),
    "mpy" := Assoc("file", Bin),
    "txt" := Assoc("file-alt", Text),
    "mov" := Assoc("file-video", Bin),
    "mp4" := Assoc("file-video", Bin),
    "avi" := Assoc("file-video", Bin),
    "wmv" := Assoc("file-video", Bin)
  ]

  /** The extensions whose files the dialog treats as text. */
  const TextExtensions: set<string> := {"py", "json", "txt"}

  /** Every icon class the dialog can give a helper-listed entry. */
  const EntryIcons: set<string> := {
    "fa-folder", "fa-file", "fa-file-audio", "fa-file-image", "fa-file-archive",
    "fa-file-alt", "fa-file-code", "fa-file-video"
  }

  /** `toLowerCase` on one character; only the ASCII letters are modelled. */
  function LowerChar(ch: char): char
  {
    if 'A' <= ch <= 'Z' then (ch as int + 32) as char else ch
  }

  /** `toLowerCase` on a string, character by character. */
  function Lower(s: string): (r: string)
    ensures |r| == |s|
    ensures forall i :: 0 <= i < |s| ==> r[i] == LowerChar(s[i])
  {
    seq(|s|, i requires 0 <= i < |s| => LowerChar(s[i]))
  }

  /**
   * `_getExtension`: the lower-cased last piece of the name split on '.',
   * read from the end of the name back to its last dot. A name without
   * any dot is its own (lower-cased) extension.
   */
  function Extension(filename: string): string
  {
    if filename == [] || filename[|filename| - 1] == '.' then ""
    else Extension(filename[..|filename| - 1]) + [LowerChar(filename[|filename| - 1])]
  }

  /** The extension is never longer than the name, and it is the lower-cased suffix of that length. */
  lemma {:induction false} ExtensionIsLowerSuffix(filename: string)
    ensures |Extension(filename)| <= |filename|
    ensures Extension(filename) == Lower(filename[|filename| - |Extension(filename)|..])
  {
    var n := |filename|;
    if n > 0 && filename[n - 1] != '.' {
      var init, last := filename[..n - 1], filename[n - 1];
      ExtensionIsLowerSuffix(init);
      var q := init[|init| - |Extension(init)|..];
      assert filename[n - |Extension(filename)|..] == q + [last];
      assert Lower(q + [last]) == Lower(q) + [LowerChar(last)];
    }
  }

  /** The extension's length is that of the longest dot-free suffix of the name. */
  lemma {:induction false} ExtensionIsLastPieceLength(filename: string)
    ensures |Extension(filename)| <= |filename|
    ensures IsLastPiece(filename, '.', filename[|filename| - |Extension(filename)|..])
  {
    var n := |filename|;
    if n > 0 && filename[n - 1] != '.' {
      var init, last := filename[..n - 1], filename[n - 1];
      ExtensionIsLastPieceLength(init);
      var k := |Extension(init)|;
      var q := init[|init| - k..];
      var p := filename[n - (k + 1)..];
      assert |Extension(filename)| == k + 1;
      assert p == q + [last];
      assert '.' !in q;
      if k + 1 < n {
        assert filename[n - (k + 1) - 1] == init[|init| - k - 1];
      }
    } else {
      assert Extension(filename) == "";
    }
  }

  /** Adding a character to a name ends its extension with it, unless it is a dot. */
  lemma ExtensionSnoc(s: string, ch: char)
    ensures Extension(s + [ch]) == if ch == '.' then "" else Extension(s) + [LowerChar(ch)]
  {
    assert (s + [ch])[..|s|] == s;
  }

  /** `_getExtension` is `split('.').pop().toLowerCase()`: the lower-cased last dot-piece. */
  lemma ExtensionIsLastPiece(filename: string)
    ensures Extension(filename) == Lower(LastPiece(filename, '.'))
  {
    ExtensionIsLowerSuffix(filename);
    ExtensionIsLastPieceLength(filename);
    LastPieceIsSuffix(filename, '.');
    IsLastPieceUnique(filename, '.', filename[|filename| - |Extension(filename)|..], LastPiece(filename, '.'));
  }

  /** The icon names the table uses. */
  const TableIcons: set<string> := {
    "file-audio", "file-image", "file-archive", "file-alt", "file-code", "file", "file-video"
  }

  /** What the dialog relies on in the table: which icons it names, and which rows are text. */
  lemma TableRow(ext: string)
    requires ext in ExtensionMap
    ensures ExtensionMap[ext].icon in TableIcons
    ensures ExtensionMap[ext].icon == "file" <==> ext == "mpy"
    ensures ExtensionMap[ext].kind == Text <==> ext in TextExtensions
    ensures ExtensionMap[ext].kind == Text ==> ExtensionMap[ext].icon in {"file-alt", "file-code"}
  {
    TableKeys();
  }

  /** Every extension in the table has at most four characters. */
  lemma LongExtensionsAreUnknown(ext: string)
    requires |ext| > 4
    ensures ext !in ExtensionMap
  {
    TableKeys();
  }

  /** The fifteen extensions of the table. */
  lemma TableKeys()
    ensures ExtensionMap.Keys == {
      "wav", "mp3", "bmp", "gif", "jpg", "jpeg", "zip", "py", "json", "mpy", "txt",
      "mov", "mp4", "avi", "wmv"
    }
  {
  }

  /** The icon class of a table icon: never the folder icon, the generic one only for `file`. */
  lemma TableIconClass(icon: string)
    requires icon in TableIcons
    ensures "fa-" + icon in EntryIcons
    ensures "fa-" + icon != "fa-folder"
    ensures "fa-" + icon == "fa-file" <==> icon == "file"
    ensures icon in {"file-alt", "file-code"} ==> "fa-" + icon in {"fa-file-alt", "fa-file-code"}
  {
    if icon == "file-audio" {
      assert "fa-" + icon == "fa-file-audio";
    } else if icon == "file-image" {
      assert "fa-" + icon == "fa-file-image";
    } else if icon == "file-archive" {
      assert "fa-" + icon == "fa-file-archive";
    } else if icon == "file-alt" {
      assert "fa-" + icon == "fa-file-alt";
    } else if icon == "file-code" {
      assert "fa-" + icon == "fa-file-code";
    } else if icon == "file-video" {
      assert "fa-" + icon == "fa-file-video";
    } else {
      assert "fa-" + icon == "fa-file";
    }
  }

  /** `_getIcon`: the folder icon, the table's icon, or the generic file icon. */
  function IconOf(f: FileObj): string
  {
    if f.isDir then "fa-folder"
    else
      var ext := Extension(f.path);
      if ext in ExtensionMap then "fa-" + ExtensionMap[ext].icon
      else "fa-file"
  }

  /**
   * The icon is always one of the eight entry icons: the folder icon
   * exactly for directories, the generic file icon exactly for files whose
   * extension is unknown or `mpy`.
   */
  lemma IconOfCases(f: FileObj)
    ensures IconOf(f) in EntryIcons
    ensures IconOf(f) == "fa-folder" <==> f.isDir
    ensures IconOf(f) == "fa-file" <==>
      !f.isDir && (Extension(f.path) !in ExtensionMap || Extension(f.path) == "mpy")
  {
    if !f.isDir {
      var ext := Extension(f.path);
      if ext in ExtensionMap {
        TableRow(ext);
        TableIconClass(ExtensionMap[ext].icon);
      }
    }
  }

  /** `_getType`: folder for a directory, the table's kind for a known extension, bin otherwise. */
  function TypeOf(f: FileObj): (k: Kind)
    ensures k == Folder <==> f.isDir
  {
    if f.isDir then Folder
    else
      var ext := Extension(f.path);
      if ext in ExtensionMap then ExtensionMap[ext].kind else Bin
  }

  /** A file is typed as text exactly when its extension is `py`, `json` or `txt`. */
  lemma TypeOfText(f: FileObj)
    ensures TypeOf(f) == Text <==> !f.isDir && Extension(f.path) in TextExtensions
  {
    if !f.isDir && Extension(f.path) in ExtensionMap {
      TableRow(Extension(f.path));
    }
  }

  /** A text file always gets the plain-text or code icon. */
  lemma TextFilesHaveTextIcons(f: FileObj)
    requires TypeOf(f) == Text
    ensures IconOf(f) in {"fa-file-alt", "fa-file-code"}
  {
    TableRow(Extension(f.path));
    TableIconClass(ExtensionMap[Extension(f.path)].icon);
  }

  /** Two longest dot-free suffixes of the same string are the same. */
  lemma IsLastPieceUnique(s: string, c: char, p: string, q: string)
    requires IsLastPiece(s, c, p) && IsLastPiece(s, c, q)
    ensures p == q
  {
  }

  /** The extension does not depend on the case of the name. */
  lemma {:induction false} ExtensionIgnoresCase(path: string)
    ensures Extension(Lower(path)) == Extension(path)
  {
    var n := |path|;
    if n > 0 {
      assert Lower(path)[..n - 1] == Lower(path[..n - 1]);
      ExtensionIgnoresCase(path[..n - 1]);
    }
  }

  /** The extension, and so the icon and the kind, do not depend on the case of the name. */
  lemma KindIgnoresCase(path: string, isDir: bool)
    ensures TypeOf(FileObj(Lower(path), isDir)) == TypeOf(FileObj(path, isDir))
    ensures IconOf(FileObj(Lower(path), isDir)) == IconOf(FileObj(path, isDir))
  {
    ExtensionIgnoresCase(path);
  }

  /** A name with an upper-case extension is typed by its lower-cased extension. */
  lemma UpperCaseExtensionIsText()
    ensures Extension("main.PY") == "py"
    ensures TypeOf(FileObj("main.PY", false)) == Text
    ensures IconOf(FileObj("main.PY", false)) == "fa-file-alt"
  {
    ExtensionSnoc("main", '.');
    ExtensionSnoc("main.", 'P');
    ExtensionSnoc("main.P", 'Y');
    assert ExtensionMap["py"] == Assoc("file-alt", Text);
    assert "fa-" + "file-alt" == "fa-file-alt";
  }

  /**
   * A name without any dot is its own extension: a file called `JSON` is
   * typed as text although it has no extension at all.
   */
  lemma DotlessNameIsItsOwnExtension()
    ensures Extension("JSON") == "json"
    ensures TypeOf(FileObj("JSON", false)) == Text
  {
    ExtensionSnoc("", 'J');
    ExtensionSnoc("J", 'S');
    ExtensionSnoc("JS", 'O');
    ExtensionSnoc("JSO", 'N');
    assert "" + ['J'] == "J" && "J" + ['S'] == "JS" && "JS" + ['O'] == "JSO" && "JSO" + ['N'] == "JSON";
  }

  /** A dot-less name that is no table key is a binary file with the generic icon. */
  lemma DotlessUnknownNameIsBinary()
    ensures Extension("README") == "readme"
    ensures TypeOf(FileObj("README", false)) == Bin
    ensures IconOf(FileObj("README", false)) == "fa-file"
  {
    ExtensionSnoc("", 'R');
    ExtensionSnoc("R", 'E');
    ExtensionSnoc("RE", 'A');
    ExtensionSnoc("REA", 'D');
    ExtensionSnoc("READ", 'M');
    ExtensionSnoc("READM", 'E');
    assert "" + ['R'] == "R" && "R" + ['E'] == "RE" && "RE" + ['A'] == "REA";
    assert "REA" + ['D'] == "READ" && "READ" + ['M'] == "READM" && "READM" + ['E'] == "README";
    LongExtensionsAreUnknown("readme");
  }
}
