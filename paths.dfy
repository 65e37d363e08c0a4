/**
 * Path strings: `String.split("\\\\")` on the remembered path, the directory
 * derived from it for the save chooser, `File.getName()` for the window
 * title, and the ".txt" normalisation of a chosen save path.
 */
module Paths {
  import opened Wrappers
  import opened Text

  const Backslash: char := '\\'

  /** What `getDirectory` answers when no path is remembered. */
  const FallbackDirectory: string := "C:/"

  const TxtExtension: string := ".txt"

  /** Index of the first backslash in `s`, or `|s|` when there is none. */
  function BackslashAt(s: string): (i: nat)
    ensures i <= |s|
    ensures forall j :: 0 <= j < i ==> s[j] != Backslash
    ensures i < |s| ==> s[i] == Backslash
  {
    if s == [] || s[0] == Backslash then 0
    else 1 + BackslashAt(s[1..])
  }

  /** All the pieces of `s` between backslashes, empty ones included. */
  function Pieces(s: string): (ps: seq<string>)
    ensures |ps| >= 1
    ensures forall k :: 0 <= k < |ps| ==> Backslash !in ps[k]
    decreases |s|
  {
    var i := BackslashAt(s);
    if i == |s| then [s]
    else
      assert forall c :: c in s[..i] ==> c != Backslash;
      [s[..i]] + Pieces(s[i + 1..])
  }

  /**
   * The pieces before the last one, each followed by a backslash, and then
   * the last one spell `s` again.
   */
  lemma {:induction false} PiecesJoin(s: string)
    ensures var ps := Pieces(s); Join(ps[..|ps| - 1], [Backslash]) + ps[|ps| - 1] == s
    decreases |s|
  {
    var i := BackslashAt(s);
    if i < |s| {
      var qs := Pieces(s[i + 1..]);
      assert Pieces(s) == [s[..i]] + qs;
      PiecesJoin(s[i + 1..]);
      PiecesJoinStep(s[..i], qs, s[i + 1..]);
      SplitAround(s, i);
    } else {
      assert s[..i] == s;
    }
  }

  /** A string is its part before `i`, its character at `i` and its part after. */
  lemma SplitAround(s: string, i: nat)
    requires i < |s|
    ensures s[..i] + [s[i]] + s[i + 1..] == s
  {
  }

  /** One more piece in front keeps `PiecesJoin`. */
  lemma PiecesJoinStep(first: string, qs: seq<string>, rest: string)
    requires |qs| >= 1
    requires Join(qs[..|qs| - 1], [Backslash]) + qs[|qs| - 1] == rest
    ensures var ps := [first] + qs; Join(ps[..|ps| - 1], [Backslash]) + ps[|ps| - 1] == first + [Backslash] + rest
  {
    var ps := [first] + qs;
    assert ps[..|ps| - 1] == [first] + qs[..|qs| - 1];
    JoinCons(first, qs[..|qs| - 1], [Backslash]);
  }

  /** Java's `split` with limit 0 removes the empty pieces at the end. */
  function DropTrailingEmpty(ps: seq<string>): (r: seq<string>)
    ensures |r| <= |ps| && r == ps[..|r|]
    ensures r == [] || r[|r| - 1] != []
    ensures forall k :: |r| <= k < |ps| ==> ps[k] == []
  {
    if ps != [] && ps[|ps| - 1] == [] then DropTrailingEmpty(ps[..|ps| - 1]) else ps
  }

  /**
   * `s.split("\\\\")`: when `s` has no backslash the answer is `[s]` itself
   * (even for the empty string); otherwise the pieces without the trailing
   * empty ones, which may leave none at all.
   */
  function SplitBackslash(s: string): (arr: seq<string>)
    ensures Backslash !in s ==> arr == [s]
    ensures forall k :: 0 <= k < |arr| ==> Backslash !in arr[k]
    ensures Backslash in s ==> arr == [] || arr[|arr| - 1] != []
  {
    if Backslash !in s then [s] else DropTrailingEmpty(Pieces(s))
  }

  /**
   * The directory string `getDirectory` builds from an absolute path: every
   * piece of the split but the last, each followed by "/".
   */
  function DirectoryOf(abs: string): (dir: string)
    ensures dir == [] || EndsWith(dir, "/")
    ensures Backslash !in abs ==> dir == []
    ensures Backslash !in dir
  {
    var arr := SplitBackslash(abs);
    if |arr| == 0 then []
    else
      JoinAvoids(arr[..|arr| - 1], "/", Backslash);
      Join(arr[..|arr| - 1], "/")
  }

  /** The whole of `getDirectory`: the fallback when nothing is remembered. */
  function Directory(remembered: Option<string>): (dir: string)
    ensures remembered.None? ==> dir == FallbackDirectory
    ensures remembered.Some? ==> dir == [] || EndsWith(dir, "/")
  {
    match remembered
    case None => FallbackDirectory
    case Some(abs) => DirectoryOf(abs)
  }

  /** `File.getName()` with the backslash as separator: the last component. */
  function FileName(path: string): (name: string)
    ensures Backslash !in name
    ensures |name| <= |path| && path[|path| - |name|..] == name
    ensures |name| < |path| ==> path[|path| - |name| - 1] == Backslash
  {
    if path == [] then []
    else if path[|path| - 1] == Backslash then []
    else
      var name := FileName(path[..|path| - 1]);
      name + [path[|path| - 1]]
  }

  /**
   * The `.txt` check of `showSaveChooser`: the result always ends in ".txt";
   * it is the path itself exactly when the path already does, and otherwise
   * the path followed by exactly ".txt".
   */
  function WithTxtExtension(path: string): (r: string)
    ensures EndsWith(r, TxtExtension)
    ensures |path| <= |r| && r[..|path|] == path
    ensures r == path <==> EndsWith(path, TxtExtension)
    ensures r != path ==> r[|path|..] == TxtExtension
  {
    if EndsWith(path, TxtExtension) then path else path + TxtExtension
  }

  lemma WithTxtExtensionIdempotent(path: string)
    ensures WithTxtExtension(WithTxtExtension(path)) == WithTxtExtension(path)
  {
  }

  /** The first backslash of `a + [Backslash] + b` is the one after `a`. */
  lemma {:induction false} BackslashAtAfter(a: string, b: string)
    requires Backslash !in a
    ensures BackslashAt(a + [Backslash] + b) == |a|
  {
    if a != [] {
      assert (a + [Backslash] + b)[1..] == a[1..] + [Backslash] + b;
      BackslashAtAfter(a[1..], b);
    }
  }

  /** A backslash-free prefix comes back as the first piece. */
  lemma PiecesCons(a: string, b: string)
    requires Backslash !in a
    ensures Pieces(a + [Backslash] + b) == [a] + Pieces(b)
  {
    var s := a + [Backslash] + b;
    BackslashAtAfter(a, b);
    assert s[..|a|] == a;
    assert s[|a| + 1..] == b;
  }

  /** A string with no backslash is a single piece. */
  lemma PiecesOfPiece(a: string)
    requires Backslash !in a
    ensures Pieces(a) == [a]
  {
    assert a[..|a|] == a;
  }

  /** Peeling the first directory off a backslash-joined path. */
  lemma JoinThenName(dirs: seq<string>, name: string)
    requires dirs != []
    ensures Join(dirs, [Backslash]) + name == dirs[0] + [Backslash] + (Join(dirs[1..], [Backslash]) + name)
  {
  }

  /** One directory in front of a path whose pieces are known. */
  lemma PiecesOfJoinCons(dirs: seq<string>, name: string)
    requires dirs != [] && Backslash !in dirs[0]
    requires Pieces(Join(dirs[1..], [Backslash]) + name) == dirs[1..] + [name]
    ensures Pieces(Join(dirs, [Backslash]) + name) == [dirs[0]] + (dirs[1..] + [name])
  {
    JoinThenName(dirs, name);
    PiecesCons(dirs[0], Join(dirs[1..], [Backslash]) + name);
  }

  /** A non-empty list followed by one more element, split at its head. */
  lemma SnocAfterHead(dirs: seq<string>, name: string)
    requires dirs != []
    ensures [dirs[0]] + (dirs[1..] + [name]) == dirs + [name]
  {
  }

  /** Splitting the directories joined by backslashes, then a name. */
  lemma {:induction false} PiecesOfJoin(dirs: seq<string>, name: string)
    requires Backslash !in name
    requires forall k :: 0 <= k < |dirs| ==> Backslash !in dirs[k]
    ensures Pieces(Join(dirs, [Backslash]) + name) == dirs + [name]
  {
    if dirs == [] {
      assert Join(dirs, [Backslash]) + name == name;
      PiecesOfPiece(name);
    } else {
      PiecesOfJoin(dirs[1..], name);
      PiecesOfJoinCons(dirs, name);
      SnocAfterHead(dirs, name);
    }
  }

  /**
   * `split` gives back exactly the directories and the non-empty name that
   * were joined by backslashes: nothing is dropped from the end, because
   * the last piece is not empty.
   */
  lemma SplitOfComponents(dirs: seq<string>, name: string)
    requires name != [] && Backslash !in name
    requires forall k :: 0 <= k < |dirs| ==> Backslash !in dirs[k]
    ensures SplitBackslash(Join(dirs, [Backslash]) + name) == dirs + [name]
  {
    PiecesOfJoin(dirs, name);
    if dirs == [] {
      assert Join(dirs, [Backslash]) + name == name;
      PiecesOfPiece(name);
    } else {
      BackslashInJoin(dirs, name);
      KeepsNonEmptyLast(dirs + [name]);
    }
  }

  /** A path with at least one directory contains a backslash. */
  lemma BackslashInJoin(dirs: seq<string>, name: string)
    requires dirs != []
    ensures Backslash in Join(dirs, [Backslash]) + name
  {
    JoinThenName(dirs, name);
    assert (Join(dirs, [Backslash]) + name)[|dirs[0]|] == Backslash;
  }

  /** Nothing is dropped when the last piece is not empty. */
  lemma KeepsNonEmptyLast(ps: seq<string>)
    requires ps != [] && ps[|ps| - 1] != []
    ensures DropTrailingEmpty(ps) == ps
  {
  }

  /**
   * For an absolute path made of directories and a non-empty file name,
   * each separated by a backslash, the derived directory is the same
   * directories separated by "/" with a trailing "/", and the file name is
   * the last component.  With no directory at all (no backslash) the
   * derived directory is "".
   */
  lemma DirectoryOfComponents(dirs: seq<string>, name: string)
    requires name != [] && Backslash !in name
    requires forall k :: 0 <= k < |dirs| ==> Backslash !in dirs[k]
    ensures DirectoryOf(Join(dirs, [Backslash]) + name) == Join(dirs, "/")
    ensures FileName(Join(dirs, [Backslash]) + name) == name
  {
    SplitOfComponents(dirs, name);
    assert (dirs + [name])[..|dirs|] == dirs;
    FileNameAfterBackslash(Join(dirs, [Backslash]), name);
  }

  /** A last character other than a backslash extends the name. */
  lemma FileNameSnoc(path: string, c: char)
    requires c != Backslash
    ensures FileName(path + [c]) == FileName(path) + [c]
  {
    assert (path + [c])[..|path|] == path;
  }

  /** The name after a final backslash is what `getName` returns. */
  lemma {:induction false} FileNameAfterBackslash(prefix: string, name: string)
    requires Backslash !in name
    requires prefix == [] || prefix[|prefix| - 1] == Backslash
    ensures FileName(prefix + name) == name
    decreases |name|
  {
    if name == [] {
      assert prefix + name == prefix;
    } else {
      var init := name[..|name| - 1];
      var last := name[|name| - 1];
      assert prefix + name == (prefix + init) + [last];
      FileNameSnoc(prefix + init, last);
      FileNameAfterBackslash(prefix, init);
      assert init + [last] == name;
    }
  }
}
