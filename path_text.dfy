/**
 * The string side of the file dialog: JavaScript's `split` and `join` on a
 * one-character separator, `pop` on the resulting array, and the two path
 * computations the dialog builds from them (entering a folder and going
 * up with `..`).
 */
module PathText {

  /**
   * `s.split(c)` in JavaScript: the pieces between the separators, read
   * one character at a time. A separator starts a new empty piece; any
   * other character joins the front of the first piece.
   */
  function Split(s: string, c: char): (parts: seq<string>)
    ensures |parts| >= 1
  {
    if s == [] then [""]
    else
      var rest := Split(s[1..], c);
      if s[0] == c then [""] + rest
      else [[s[0]] + rest[0]] + rest[1..]
  }

  /** `parts.join(c)` in JavaScript; the join of no parts is the empty string. */
  function Join(parts: seq<string>, c: char): string
  {
    if |parts| == 0 then ""
    else if |parts| == 1 then parts[0]
    else parts[0] + [c] + Join(parts[1..], c)
  }

  /** `parts.pop()` for its effect on the array: an empty array stays empty. */
  function Pop<T>(parts: seq<T>): seq<T>
  {
    if |parts| == 0 then parts else parts[..|parts| - 1]
  }

  /** The last piece of `s.split(c)`, which `.pop()` returns. */
  function LastPiece(s: string, c: char): string
  {
    var parts := Split(s, c);
    parts[|parts| - 1]
  }

  /** A string splits into one piece exactly when it holds no separator, and that piece is itself. */
  lemma {:induction false} SplitSingle(s: string, c: char)
    ensures |Split(s, c)| == 1 <==> c !in s
    ensures c !in s ==> Split(s, c) == [s]
  {
    if s != [] {
      SplitSingle(s[1..], c);
      assert s == [s[0]] + s[1..];
    }
  }

  /** Putting a character in front of a join lengthens its first part. */
  lemma JoinConsFirst(x: char, parts: seq<string>, c: char)
    requires |parts| >= 1
    ensures Join([[x] + parts[0]] + parts[1..], c) == [x] + Join(parts, c)
  {
  }

  /** Joining the pieces of a split gives back the original string. */
  lemma {:induction false} JoinSplit(s: string, c: char)
    ensures Join(Split(s, c), c) == s
  {
    if s != [] {
      var rest := Split(s[1..], c);
      JoinSplit(s[1..], c);
      if s[0] != c {
        JoinConsFirst(s[0], rest, c);
      }
      assert s == [s[0]] + s[1..];
    }
  }

  /** Splitting a join of separator-free pieces gives back the pieces. */
  lemma {:induction false} SplitJoin(parts: seq<string>, c: char)
    requires |parts| >= 1
    requires forall k :: 0 <= k < |parts| ==> c !in parts[k]
    ensures Split(Join(parts, c), c) == parts
  {
    SplitSingle(parts[0], c);
    if |parts| > 1 {
      SplitJoin(parts[1..], c);
      SplitAppend(parts[0], Join(parts[1..], c), c);
      assert parts == [parts[0]] + parts[1..];
    }
  }

  /** A separator in the middle splits into the pieces of both sides. */
  lemma {:induction false} SplitAppend(a: string, b: string, c: char)
    ensures Split(a + [c] + b, c) == Split(a, c) + Split(b, c)
  {
    var s := a + [c] + b;
    if a == [] {
      assert s[1..] == b;
    } else {
      assert s[1..] == a[1..] + [c] + b;
      SplitAppend(a[1..], b, c);
    }
  }

  /**
   * `p` is the longest suffix of `s` without `c`: a suffix holding no `c`
   * that is either the whole of `s` or preceded by a `c`.
   */
  predicate IsLastPiece(s: string, c: char, p: string)
  {
    && |p| <= |s| && p == s[|s| - |p|..] && c !in p
    && (|p| < |s| ==> s[|s| - |p| - 1] == c)
  }

  /** A last piece preceded by a separator stays the last piece whatever comes in front. */
  lemma LastPieceExtend(a: string, rest: string, c: char, p: string)
    requires IsLastPiece(rest, c, p) && |p| < |rest|
    ensures IsLastPiece(a + rest, c, p)
  {
    var s := a + rest;
    assert rest[|rest| - |p|..] == s[|s| - |p|..];
    assert rest[|rest| - |p| - 1] == s[|s| - |p| - 1];
  }

  /** The last piece of a split is the longest suffix without the separator. */
  lemma {:induction false} LastPieceIsSuffix(s: string, c: char)
    ensures IsLastPiece(s, c, LastPiece(s, c))
  {
    if s != [] {
      LastPieceIsSuffix(s[1..], c);
      assert s == [s[0]] + s[1..];
      LastPieceCons(s[0], s[1..], c);
    }
  }

  /** One step of `LastPieceIsSuffix`: a character put in front of `t`. */
  lemma LastPieceCons(x: char, t: string, c: char)
    requires IsLastPiece(t, c, LastPiece(t, c))
    ensures IsLastPiece([x] + t, c, LastPiece([x] + t, c))
  {
    var s := [x] + t;
    var p := LastPiece(t, c);
    assert s[1..] == t;
    SplitSingle(t, c);
    if x != c && c !in t {
      assert Split(s, c) == [s];
      assert s[0..] == s;
    } else {
      assert LastPiece(s, c) == p;
      if |p| < |t| {
        LastPieceExtend([x], t, c, p);
      } else {
        assert s[|s| - |p|..] == t;
      }
    }
  }

  /** Entering folder `name` from directory `dir`. */
  function ChildPath(dir: string, name: string): string
  {
    dir + name + "/"
  }

  /**
   * Going up with `..`: split the path on '/', drop the last two pieces
   * (the empty piece after the trailing '/' and the folder name), join the
   * rest and add a trailing '/'.
   */
  function ParentPath(path: string): (r: string)
    ensures |r| > 0 && r[|r| - 1] == '/'
  {
    Join(Pop(Pop(Split(path, '/'))), '/') + "/"
  }

  /** Going up from a folder entered from `dir` lands back in `dir`. */
  lemma ParentOfChild(dir: string, name: string)
    requires |dir| > 0 && dir[|dir| - 1] == '/'
    requires '/' !in name
    ensures ParentPath(ChildPath(dir, name)) == dir
  {
    var q := dir[..|dir| - 1];
    assert dir == q + ['/'];
    assert ChildPath(dir, name) == q + ['/'] + (name + ['/'] + "");
    SplitAppend(q, name + ['/'] + "", '/');
    SplitAppend(name, "", '/');
    SplitSingle(name, '/');
    var parts := Split(q, '/') + [name] + [""];
    assert Split(ChildPath(dir, name), '/') == parts;
    assert Pop(Pop(parts)) == Split(q, '/');
    JoinSplit(q, '/');
  }

  /** In particular, `..` from a top-level folder `/x/` returns to the root. */
  lemma ParentOfTopLevel(name: string)
    requires '/' !in name
    ensures ParentPath("/" + name + "/") == "/"
  {
    ParentOfChild("/", name);
  }

  /** Dropping the last piece of a split that holds `c` leaves a prefix ending before a `c`. */
  lemma {:induction false} JoinPopSplitPrefix(s: string, c: char)
    requires c in s
    ensures Join(Pop(Split(s, c)), c) + [c] <= s
  {
    var rest := Split(s[1..], c);
    SplitSingle(s[1..], c);
    assert s == [s[0]] + s[1..];
    if s[0] == c {
      if |rest| > 1 {
        JoinPopSplitPrefix(s[1..], c);
        assert Pop(Split(s, c)) == [""] + Pop(rest);
        PrefixExtend([c], Join(Pop(rest), c) + [c], s[1..]);
      }
    } else {
      assert c in s[1..];
      JoinPopSplitPrefix(s[1..], c);
      var sp := Split(s, c);
      assert sp == [[s[0]] + rest[0]] + rest[1..];
      assert Pop(sp) == [[s[0]] + rest[0]] + rest[1..|rest| - 1];
      assert Pop(rest)[0] == rest[0] && Pop(rest)[1..] == rest[1..|rest| - 1];
      JoinConsFirst(s[0], Pop(rest), c);
      PrefixExtend([s[0]], Join(Pop(rest), c) + [c], s[1..]);
    }
  }

  /** Putting the same string in front keeps a prefix a prefix. */
  lemma PrefixExtend(x: string, y: string, z: string)
    requires y <= z
    ensures x + y <= x + z
  {
    assert (x + z)[..|x + y|] == x + y;
  }

  /**
   * For an absolute folder path (one starting and ending with '/'), going
   * up gives a prefix of it that is again an absolute folder path, and a
   * strictly shorter one unless the path is already the root: repeated
   * `..` reaches the root.
   */
  lemma ParentIsShorterPrefix(path: string)
    requires |path| > 0 && path[0] == '/' && path[|path| - 1] == '/'
    ensures ParentPath(path) <= path
    ensures ParentPath(path)[0] == '/'
    ensures path != "/" ==> |ParentPath(path)| < |path|
  {
    var q := path[..|path| - 1];
    assert path == q + ['/'] + "";
    SplitAppend(q, "", '/');
    assert Pop(Split(path, '/')) == Split(q, '/');
    if q == "" {
      assert Split(q, '/') == [""];
      assert ParentPath(path) == "/";
    } else {
      assert q[0] == '/';
      JoinPopSplitPrefix(q, '/');
      assert ParentPath(path) == Join(Pop(Split(q, '/')), '/') + "/";
      var j := Join(Pop(Split(q, '/')), '/');
      assert j + "/" <= q;
      assert (j + "/")[0] == '/' by {
        assert (j + "/")[0] == q[0];
      }
    }
  }
}
