/**
 * The order of a directory listing: folders before files, each group
 * sorted by name with the browser's collation.
 */
module Sorting {
  import opened FileKinds

  /**
   * A collation on names: `le(a, b)` when `a` may be listed before `b`
   * (`a.localeCompare(b) <= 0`). The locale's exact order is not
   * modelled; any relation that relates every pair one way or the other
   * will do.
   */
  ghost predicate Total(le: (string, string) -> bool)
  {
    forall a, b :: le(a, b) || le(b, a)
  }

  /** A collation that is also transitive. */
  ghost predicate Transitive(le: (string, string) -> bool)
  {
    forall a, b, c :: le(a, b) && le(b, c) ==> le(a, c)
  }

  /** Every neighbouring pair of entries is in order by path. */
  ghost predicate SortedByPath(le: (string, string) -> bool, s: seq<FileObj>)
  {
    forall i, j :: 0 <= i && j == i + 1 && j < |s| ==> le(s[i].path, s[j].path)
  }

  /** Every folder comes before every file. */
  ghost predicate FoldersFirst(s: seq<FileObj>)
  {
    forall i, j :: 0 <= i < j < |s| && s[j].isDir ==> s[i].isDir
  }

  /** Inserting `x` in front of the first entry it may precede. */
  function Insert(le: (string, string) -> bool, x: FileObj, s: seq<FileObj>): seq<FileObj>
    requires Total(le)
  {
    if s == [] then [x]
    else if le(x.path, s[0].path) then [x] + s
    else [s[0]] + Insert(le, x, s[1..])
  }

  /** Inserting adds `x` to the entries and puts it or the old first entry first. */
  lemma {:induction false} InsertAdds(le: (string, string) -> bool, x: FileObj, s: seq<FileObj>)
    requires Total(le)
    ensures var r := Insert(le, x, s);
      && |r| == |s| + 1
      && multiset(r) == multiset(s) + multiset{x}
      && (r[0] == x || (|s| > 0 && r[0] == s[0]))
  {
    if s != [] && !le(x.path, s[0].path) {
      InsertAdds(le, x, s[1..]);
      assert s == [s[0]] + s[1..];
    }
  }

  /** Inserting into entries in order keeps them in order. */
  lemma {:induction false} InsertSorts(le: (string, string) -> bool, x: FileObj, s: seq<FileObj>)
    requires Total(le)
    requires SortedByPath(le, s)
    ensures SortedByPath(le, Insert(le, x, s))
  {
    if s != [] && !le(x.path, s[0].path) {
      var t := s[1..];
      assert SortedByPath(le, t);
      InsertSorts(le, x, t);
      InsertAdds(le, x, t);
      var r := Insert(le, x, s);
      assert r == [s[0]] + Insert(le, x, t);
      assert le(s[0].path, r[1].path) by {
        if t != [] {
          assert s[1] == t[0];
        }
      }
    }
  }

  /**
   * `_sortAlpha`: the engine's `sort` with `localeCompare` as comparator.
   * Modelled as an insertion sort, which like the engine's sort is stable.
   */
  function SortAlpha(le: (string, string) -> bool, s: seq<FileObj>): seq<FileObj>
    requires Total(le)
  {
    if s == [] then []
    else Insert(le, s[0], SortAlpha(le, s[1..]))
  }

  /** `_sortAlpha` rearranges the entries and leaves every neighbouring pair in order. */
  lemma {:induction false} SortAlphaSorts(le: (string, string) -> bool, s: seq<FileObj>)
    requires Total(le)
    ensures multiset(SortAlpha(le, s)) == multiset(s)
    ensures SortedByPath(le, SortAlpha(le, s))
  {
    if s != [] {
      SortAlphaSorts(le, s[1..]);
      InsertAdds(le, s[0], SortAlpha(le, s[1..]));
      InsertSorts(le, s[0], SortAlpha(le, s[1..]));
      assert s == [s[0]] + s[1..];
    }
  }

  /** The directories of a listing, in listing order. */
  function Folders(s: seq<FileObj>): (r: seq<FileObj>)
    ensures forall i :: 0 <= i < |r| ==> r[i].isDir
  {
    if s == [] then []
    else Folders(s[..|s| - 1]) + (if s[|s| - 1].isDir then [s[|s| - 1]] else [])
  }

  /** The non-directories of a listing, in listing order. */
  function Files(s: seq<FileObj>): (r: seq<FileObj>)
    ensures forall i :: 0 <= i < |r| ==> !r[i].isDir
  {
    if s == [] then []
    else Files(s[..|s| - 1]) + (if s[|s| - 1].isDir then [] else [s[|s| - 1]])
  }

  /** The two groups split a listing: together they hold exactly its entries. */
  lemma {:induction false} FoldersAndFilesSplit(s: seq<FileObj>)
    ensures multiset(Folders(s)) + multiset(Files(s)) == multiset(s)
  {
    if s != [] {
      FoldersAndFilesSplit(s[..|s| - 1]);
      GroupsStep(s);
      MultisetSnoc(s);
    }
  }

  /** The last entry of a listing joins exactly one of the two groups. */
  lemma GroupsStep(s: seq<FileObj>)
    requires s != []
    ensures var init, last := s[..|s| - 1], s[|s| - 1];
      && multiset(Folders(s)) == multiset(Folders(init)) + (if last.isDir then multiset{last} else multiset{})
      && multiset(Files(s)) == multiset(Files(init)) + (if last.isDir then multiset{} else multiset{last})
  {
  }

  /** A sequence holds its front and its last element. */
  lemma MultisetSnoc<T>(s: seq<T>)
    requires s != []
    ensures multiset(s) == multiset(s[..|s| - 1]) + multiset{s[|s| - 1]}
  {
    assert s == s[..|s| - 1] + [s[|s| - 1]];
  }

  /** `_sortFolderFirst` as a value: the sorted folders, then the sorted files. */
  function FolderFirst(le: (string, string) -> bool, s: seq<FileObj>): seq<FileObj>
    requires Total(le)
  {
    SortAlpha(le, Folders(s)) + SortAlpha(le, Files(s))
  }

  /** `_sortFolderFirst` neither loses nor adds an entry. */
  lemma FolderFirstPermutes(le: (string, string) -> bool, s: seq<FileObj>)
    requires Total(le)
    ensures multiset(FolderFirst(le, s)) == multiset(s)
  {
    SortAlphaSorts(le, Folders(s));
    SortAlphaSorts(le, Files(s));
    FoldersAndFilesSplit(s);
  }

  /**
   * `_sortFolderFirst` rearranges the listing without losing or adding an
   * entry, puts every folder before every file, and sorts each group.
   */
  lemma FolderFirstOrders(le: (string, string) -> bool, s: seq<FileObj>)
    requires Total(le)
    ensures var r := FolderFirst(le, s);
      && multiset(r) == multiset(s)
      && FoldersFirst(r)
    ensures var r, k := FolderFirst(le, s), |Folders(s)|;
      && k <= |r|
      && (forall i :: 0 <= i < k ==> r[i].isDir)
      && (forall i :: k <= i < |r| ==> !r[i].isDir)
      && SortedByPath(le, r[..k]) && SortedByPath(le, r[k..])
  {
    var folders := SortAlpha(le, Folders(s));
    var files := SortAlpha(le, Files(s));
    SortAlphaSorts(le, Folders(s));
    SortAlphaSorts(le, Files(s));
    FoldersAndFilesSplit(s);
    SameElementsKeepKind(Folders(s), folders, true);
    SameElementsKeepKind(Files(s), files, false);
    var r := folders + files;
    assert r[..|folders|] == folders && r[|folders|..] == files;
  }

  /** Rearranging a group whose entries all have one kind keeps that kind everywhere. */
  lemma SameElementsKeepKind(s: seq<FileObj>, t: seq<FileObj>, isDir: bool)
    requires multiset(s) == multiset(t)
    requires forall i :: 0 <= i < |s| ==> s[i].isDir == isDir
    ensures |t| == |s|
    ensures forall i :: 0 <= i < |t| ==> t[i].isDir == isDir
  {
    assert |t| == |multiset(t)| == |multiset(s)| == |s|;
    forall i | 0 <= i < |t| ensures t[i].isDir == isDir {
      assert t[i] in multiset(t);
      assert t[i] in multiset(s);
      var j :| 0 <= j < |s| && s[j] == t[i];
    }
  }

  /** `_sortFolderFirst`: gathers folders and files in one pass, then sorts each group. */
  method SortFolderFirst(le: (string, string) -> bool, fileObjects: seq<FileObj>) returns (r: seq<FileObj>)
    requires Total(le)
    ensures r == FolderFirst(le, fileObjects)
  {
    var files: seq<FileObj> := [];
    var folders: seq<FileObj> := [];
    for i := 0 to |fileObjects|
      invariant folders == Folders(fileObjects[..i])
      invariant files == Files(fileObjects[..i])
    {
      assert fileObjects[..i + 1][..i] == fileObjects[..i];
      var fileObj := fileObjects[i];
      if fileObj.isDir {
        folders := folders + [fileObj];
      } else {
        files := files + [fileObj];
      }
    }
    assert fileObjects[..|fileObjects|] == fileObjects;
    r := SortAlpha(le, folders) + SortAlpha(le, files);
  }

  /** For a transitive collation, ordered neighbours make every pair ordered. */
  lemma {:induction false} SortedPairwise(le: (string, string) -> bool, s: seq<FileObj>)
    requires Transitive(le)
    requires SortedByPath(le, s)
    ensures forall i, j :: 0 <= i < j < |s| ==> le(s[i].path, s[j].path)
  {
    if |s| > 1 {
      SortedPairwise(le, s[1..]);
      forall j | 1 < j < |s| ensures le(s[0].path, s[j].path) {
        assert le(s[1].path, s[j].path) by {
          assert s[1..][0] == s[1] && s[1..][j - 1] == s[j];
        }
      }
    }
  }

  /** Lexicographic order on character codes: one collation the model can be run with. */
  function CodeUnitLe(a: string, b: string): bool
  {
    if a == [] then true
    else if b == [] then false
    else if a[0] != b[0] then a[0] < b[0]
    else CodeUnitLe(a[1..], b[1..])
  }

  /** Code-unit order relates every pair of names one way or the other. */
  lemma {:induction false} CodeUnitLeTotalAt(a: string, b: string)
    ensures CodeUnitLe(a, b) || CodeUnitLe(b, a)
  {
    if a != [] && b != [] && a[0] == b[0] {
      CodeUnitLeTotalAt(a[1..], b[1..]);
    }
  }

  /** Code-unit order is a total collation. */
  lemma CodeUnitLeTotal()
    ensures Total(CodeUnitLe)
  {
    forall a, b ensures CodeUnitLe(a, b) || CodeUnitLe(b, a) {
      CodeUnitLeTotalAt(a, b);
    }
  }
}
