/**
 * An abstract POSIX filesystem seen through Python's `pathlib`: regular
 * files (a map from path to contents) and directories (a set of paths).
 * A path is the list of its components below the root `[]`.
 */
module FileSystem {
  import opened Wrappers

  newtype Byte = x: int | 0 <= x < 256

  type Name = string
  type Path = seq<Name>

  /**
   * File contents. Archives are kept as their ordered entry lists; the
   * compressed byte formats are not modelled.
   */
  datatype Blob =
    | Raw(bytes: seq<Byte>)
    | ZipArchive(entries: seq<Entry>)
    | TarZstArchive(entries: seq<Entry>)

  datatype Entry = Entry(name: string, content: Blob)

  type Files = map<Path, Blob>

  /** The `OSError` subclasses the operations below can raise. */
  datatype OsError = FileExistsError | FileNotFoundError | NotADirectoryError | IsADirectoryError

  /** Externally visible side effects, in the order they happen. */
  datatype Effect = MadeDirs(dir: Path) | Wrote(file: Path) | Acked(tag: nat)

  function Parent(p: Path): Path
    requires p != []
  {
    p[..|p| - 1]
  }

  function BaseName(p: Path): Name
    requires p != []
  {
    p[|p| - 1]
  }

  /** `Path.exists()`: a file or a directory is there. */
  predicate Exists(files: Files, dirs: set<Path>, p: Path) {
    p in files || p in dirs
  }

  /**
   * A consistent tree: the root is a directory, nothing is both a file
   * and a directory, and everything but the root sits in a directory.
   */
  ghost predicate WellFormed(files: Files, dirs: set<Path>) {
    && [] in dirs
    && (forall p :: p in files ==> p !in dirs)
    && (forall p :: p in dirs && p != [] ==> Parent(p) in dirs)
    && (forall p :: p in files ==> p != [] && Parent(p) in dirs)
  }

  /** `p` and every path above it. */
  function Ancestors(p: Path): set<Path> {
    set i | 0 <= i <= |p| :: p[..i]
  }

  /** No component along `p`, `p` included, is a regular file. */
  predicate NoFileOnPath(files: Files, p: Path) {
    forall i :: 0 <= i <= |p| ==> p[..i] !in files
  }

  /**
   * `Path.mkdir(parents=True, exist_ok=existOk)`: try `os.mkdir`; when the
   * parent is missing, create the parent (with `exist_ok=True`) and retry.
   * Returns the new set of directories.
   */
  function MakeDirs(files: Files, dirs: set<Path>, p: Path, existOk: bool): Result<set<Path>, OsError>
    decreases |p|
  {
    if p in files then Failure(FileExistsError)
    else if p in dirs then (if existOk then Success(dirs) else Failure(FileExistsError))
    else if p == [] then Failure(FileNotFoundError)
    else if Parent(p) in dirs then Success(dirs + {p})
    else if Parent(p) in files then Failure(NotADirectoryError)
    else
      match MakeDirs(files, dirs, Parent(p), true)
      case Failure(e) => Failure(e)
      case Success(made) => Success(made + {p})
  }

  lemma AncestorsOfChild(p: Path)
    requires p != []
    ensures Ancestors(p) == Ancestors(Parent(p)) + {p}
  {
    var q := Parent(p);
    forall a | a in Ancestors(p) ensures a in Ancestors(q) + {p} {
      var i :| 0 <= i <= |p| && a == p[..i];
      if i < |p| {
        assert a == q[..i];
      } else {
        assert a == p;
      }
    }
    forall a | a in Ancestors(q) ensures a in Ancestors(p) {
      var i :| 0 <= i <= |q| && a == q[..i];
      assert a == p[..i];
    }
    assert p == p[..|p|];
  }

  lemma {:induction false} DirAncestorsAreDirs(files: Files, dirs: set<Path>, p: Path)
    requires WellFormed(files, dirs) && p in dirs
    ensures Ancestors(p) <= dirs
    decreases |p|
  {
    if p != [] {
      AncestorsOfChild(p);
      DirAncestorsAreDirs(files, dirs, Parent(p));
    } else {
      assert Ancestors(p) == {[]} by {
        assert p == p[..0];
      }
    }
  }

  lemma NoFileOnChild(files: Files, p: Path)
    requires p != []
    ensures NoFileOnPath(files, p) <==> NoFileOnPath(files, Parent(p)) && p !in files
  {
    var q := Parent(p);
    if NoFileOnPath(files, p) {
      forall i | 0 <= i <= |q| ensures q[..i] !in files {
        assert q[..i] == p[..i];
      }
      assert p[..|p|] == p;
    }
    if NoFileOnPath(files, q) && p !in files {
      forall i | 0 <= i <= |p| ensures p[..i] !in files {
        if i < |p| {
          assert p[..i] == q[..i];
        } else {
          assert p[..i] == p;
        }
      }
    }
  }

  /** Adding the ancestors of a path with no file on it keeps the tree consistent. */
  lemma AddAncestorsWellFormed(files: Files, dirs: set<Path>, p: Path)
    requires WellFormed(files, dirs) && NoFileOnPath(files, p)
    ensures WellFormed(files, dirs + Ancestors(p))
  {
    forall a | a in Ancestors(p) && a != [] ensures Parent(a) in Ancestors(p) {
      var i :| 0 <= i <= |p| && a == p[..i];
      assert Parent(a) == p[..i - 1];
    }
  }

  /**
   * pathlib's recursion in closed form: `mkdir(parents=True)` succeeds
   * exactly when no component along the path is a file and the target is
   * not already a directory (unless `exist_ok`), and then it creates the
   * missing directories along the path and nothing else.
   */
  lemma {:induction false} MakeDirsSpec(files: Files, dirs: set<Path>, p: Path, existOk: bool)
    requires WellFormed(files, dirs)
    ensures MakeDirs(files, dirs, p, existOk).Success? <==> NoFileOnPath(files, p) && (existOk || p !in dirs)
    ensures MakeDirs(files, dirs, p, existOk).Success? ==>
              && MakeDirs(files, dirs, p, existOk).value == dirs + Ancestors(p)
              && WellFormed(files, dirs + Ancestors(p))
    decreases |p|
  {
    var r := MakeDirs(files, dirs, p, existOk);
    if p in files {
      assert p[..|p|] == p;
    } else if p in dirs {
      DirAncestorsAreDirs(files, dirs, p);
      forall i | 0 <= i <= |p| ensures p[..i] !in files {
        assert p[..i] in Ancestors(p);
      }
    } else if p == [] {
    } else {
      var q := Parent(p);
      AncestorsOfChild(p);
      NoFileOnChild(files, p);
      if q in dirs {
        DirAncestorsAreDirs(files, dirs, q);
        MakeDirsSpec(files, dirs, q, true);
      } else if q in files {
        assert !NoFileOnPath(files, q) by {
          assert q[..|q|] == q;
        }
      } else {
        MakeDirsSpec(files, dirs, q, true);
      }
      if r.Success? {
        AddAncestorsWellFormed(files, dirs, p);
      }
    }
  }

  /** Creating a directory tree that is already there changes nothing. */
  lemma MakeDirsIdempotent(files: Files, dirs: set<Path>, p: Path)
    requires WellFormed(files, dirs) && MakeDirs(files, dirs, p, true).Success?
    ensures var made := MakeDirs(files, dirs, p, true).value;
            MakeDirs(files, made, p, true) == Success(made)
  {
    MakeDirsSpec(files, dirs, p, true);
    assert p == p[..|p|];
  }

  /**
   * Why `open(p, "wb")` would fail, or `None` when it creates or
   * truncates the regular file `p`.
   */
  function OpenForWriting(files: Files, dirs: set<Path>, p: Path): Option<OsError> {
    if p in dirs || p == [] then Some(IsADirectoryError)
    else if Parent(p) in dirs then None
    else if NoFileOnPath(files, Parent(p)) then Some(FileNotFoundError)
    else Some(NotADirectoryError)
  }

  /** Rewriting a file keeps only the last contents. */
  lemma UpdateTwice(files: Files, p: Path, a: Blob, b: Blob)
    ensures files[p := a][p := b] == files[p := b]
  {
  }

  /** Whether `p` can be opened does not depend on a file no shorter than `p`. */
  lemma OpenAfterWrite(files: Files, dirs: set<Path>, p: Path, q: Path, b: Blob)
    requires |q| >= |p|
    ensures OpenForWriting(files[q := b], dirs, p) == OpenForWriting(files, dirs, p)
  {
    if p != [] {
      assert NoFileOnPath(files[q := b], Parent(p)) == NoFileOnPath(files, Parent(p));
    }
  }

  /** Writing a file that `open` accepts keeps the tree consistent. */
  lemma WriteWellFormed(files: Files, dirs: set<Path>, p: Path, b: Blob)
    requires WellFormed(files, dirs) && OpenForWriting(files, dirs, p).None?
    ensures WellFormed(files[p := b], dirs)
  {
  }

  /** The components joined with `/`: `str()` of a relative path. */
  function JoinPath(p: Path): string {
    if |p| == 0 then ""
    else if |p| == 1 then p[0]
    else JoinPath(p[..|p| - 1]) + "/" + p[|p| - 1]
  }

  /** The pieces of `t` between its slashes, from first to last. */
  function Segments(t: string): (parts: seq<string>)
    ensures |parts| >= 1
  {
    if t == [] then [""] else AddChar(Segments(t[..|t| - 1]), t[|t| - 1])
  }

  /** A slash starts a new piece; any other character extends the last one. */
  function AddChar(parts: seq<string>, c: char): (r: seq<string>)
    requires |parts| >= 1
    ensures |r| >= 1
  {
    if c == '/' then parts + [""] else parts[..|parts| - 1] + [parts[|parts| - 1] + [c]]
  }

  /** The pieces that name something: pathlib drops empty and `.` parts. */
  function Kept(parts: seq<string>): seq<Name> {
    if parts == [] then []
    else Kept(parts[..|parts| - 1]) + (if parts[|parts| - 1] == "" || parts[|parts| - 1] == "." then [] else [parts[|parts| - 1]])
  }

  /** The components `dir / t` appends to `dir` for a relative path text `t`. */
  function Components(t: string): seq<Name> {
    Kept(Segments(t))
  }

  lemma JoinSnoc(q: seq<string>, x: string)
    requires |q| >= 1
    ensures JoinPath(q + [x]) == JoinPath(q) + "/" + x
  {
    assert (q + [x])[..|q|] == q;
  }

  /** A character other than a slash extends the last piece, and so the joined text. */
  lemma JoinExtendLast(parts: seq<string>, c: char)
    requires |parts| >= 1
    ensures JoinPath(parts[..|parts| - 1] + [parts[|parts| - 1] + [c]]) == JoinPath(parts) + [c]
  {
    var q, last := parts[..|parts| - 1], parts[|parts| - 1];
    if |q| >= 1 {
      JoinSnoc(q, last + [c]);
      var j := JoinPath(q) + "/";
      assert j + (last + [c]) == (j + last) + [c];
    }
  }

  /** One more character extends the joined text by that character. */
  lemma JoinAddChar(parts: seq<string>, c: char)
    requires |parts| >= 1
    ensures JoinPath(AddChar(parts, c)) == JoinPath(parts) + [c]
  {
    if c == '/' {
      JoinSnoc(parts, "");
      assert JoinPath(parts) + "/" + "" == JoinPath(parts) + [c];
    } else {
      JoinExtendLast(parts, c);
    }
  }

  /** Joining the pieces with `/` gives the text back. */
  lemma {:induction false} SegmentsJoin(t: string)
    ensures JoinPath(Segments(t)) == t
    decreases |t|
  {
    if t != [] {
      SegmentsJoin(t[..|t| - 1]);
      JoinAddChar(Segments(t[..|t| - 1]), t[|t| - 1]);
      assert t == t[..|t| - 1] + [t[|t| - 1]];
    }
  }

  /** No piece contains a slash. */
  lemma {:induction false} SegmentsHaveNoSlash(t: string)
    ensures forall i :: 0 <= i < |Segments(t)| ==> '/' !in Segments(t)[i]
    decreases |t|
  {
    if t != [] {
      SegmentsHaveNoSlash(t[..|t| - 1]);
      var parts, c := Segments(t[..|t| - 1]), t[|t| - 1];
      if c != '/' {
        var last := parts[|parts| - 1];
        assert '/' !in last + [c];
      }
    }
  }

  /** A text without `/` is a single piece. */
  lemma {:induction false} SegmentsOfName(t: string)
    requires '/' !in t
    ensures Segments(t) == [t]
    decreases |t|
  {
    if t != [] {
      SegmentsOfName(t[..|t| - 1]);
      assert t == t[..|t| - 1] + [t[|t| - 1]];
    }
  }

  lemma DropLast<T>(a: seq<T>, b: seq<T>)
    requires |b| >= 1
    ensures (a + b)[..|a + b| - 1] == a + b[..|b| - 1] && (a + b)[|a + b| - 1] == b[|b| - 1]
  {
  }

  lemma AddCharAppend(a: seq<string>, b: seq<string>, c: char)
    requires |b| >= 1
    ensures AddChar(a + b, c) == a + AddChar(b, c)
  {
    DropLast(a, b);
  }

  /** Splitting at one slash splits the pieces there. */
  lemma {:induction false} SegmentsAtSlash(x: string, y: string)
    ensures Segments(x + "/" + y) == Segments(x) + Segments(y)
    decreases |y|
  {
    var t := x + "/" + y;
    if y == [] {
      assert t[..|t| - 1] == x && t[|t| - 1] == '/';
      assert Segments(t) == Segments(x) + [""];
    } else {
      var y', c := y[..|y| - 1], y[|y| - 1];
      DropLast(x + "/", y);
      assert Segments(t) == AddChar(Segments(x + "/" + y'), c);
      assert Segments(y) == AddChar(Segments(y'), c);
      SegmentsAtSlash(x, y');
      AddCharAppend(Segments(x), Segments(y'), c);
    }
  }

  /** The first piece of a text not starting with `/` starts with its first character. */
  lemma {:induction false} FirstSegment(t: string)
    requires t != [] && t[0] != '/'
    ensures Segments(t)[0] != [] && Segments(t)[0][0] == t[0]
    decreases |t|
  {
    if |t| > 1 {
      FirstSegment(t[..|t| - 1]);
    }
  }

  lemma {:induction false} KeptAppend(a: seq<string>, b: seq<string>)
    ensures Kept(a + b) == Kept(a) + Kept(b)
    decreases |b|
  {
    if b == [] {
      assert a + b == a;
    } else {
      DropLast(a, b);
      KeptAppend(a, b[..|b| - 1]);
    }
  }

  /** A non-empty text other than `.` without `/` is one component. */
  lemma ComponentsOfName(t: string)
    requires t != "" && t != "." && '/' !in t
    ensures Components(t) == [t]
  {
    SegmentsOfName(t);
    assert [t][..0] == [];
    assert Kept([t]) == Kept([]) + [t];
  }

  /** The empty text and `.` add no component: `dir / "."` is `dir`. */
  lemma ComponentsOfDot()
    ensures Components("") == [] && Components(".") == []
  {
    var dot := ".";
    assert dot == ['.'] && dot[..|dot| - 1] == [];
    var init: seq<string> := [""];
    assert init[..0] == [] && init[0] + ['.'] == dot;
    var parts := AddChar(init, '.');
    assert parts == [dot];
    assert parts[..0] == [];
  }

  /** A piece that names something is kept as the first component. */
  lemma KeptFirst(parts: seq<string>)
    requires parts != [] && parts[0] != "" && parts[0] != "."
    ensures |Kept(parts)| >= 1
  {
    assert parts == [parts[0]] + parts[1..];
    KeptAppend([parts[0]], parts[1..]);
    assert [parts[0]][..0] == [];
  }

  predicate EndsWith(n: string, c: char) {
    n != [] && n[|n| - 1] == c
  }

  /** A text starting with a character other than `/` and `.` has a first component. */
  lemma FirstComponent(x: string)
    requires x != [] && x[0] != '/' && x[0] != '.'
    ensures |Kept(Segments(x))| >= 1
  {
    var sx := Segments(x);
    FirstSegment(x);
    assert sx[0] != "." by {
      assert sx[0][0] != '.';
    }
    KeptFirst(sx);
  }

  /**
   * A text ending in a character other than `/` and `.` has a last
   * component, ending in that character.
   */
  lemma LastComponent(y: string)
    requires y != [] && y[|y| - 1] != '/' && y[|y| - 1] != '.'
    ensures var cs := Kept(Segments(y));
            |cs| >= 1 && EndsWith(cs[|cs| - 1], y[|y| - 1])
  {
    var init := Segments(y[..|y| - 1]);
    var last := init[|init| - 1] + [y[|y| - 1]];
    var sy := init[..|init| - 1] + [last];
    assert Segments(y) == sy;
    assert last != "." by {
      assert last[|last| - 1] != '.';
    }
    assert sy[..|sy| - 1] == init[..|init| - 1];
    assert Kept(sy) == Kept(init[..|init| - 1]) + [last];
  }

  /**
   * A slash between a first and a last character that are neither `/` nor
   * `.` leaves at least two components.
   */
  lemma ComponentsAcrossSlash(x: string, y: string)
    requires x != [] && x[0] != '/' && x[0] != '.'
    requires y != [] && y[|y| - 1] != '/' && y[|y| - 1] != '.'
    ensures |Components(x + "/" + y)| >= 2
  {
    var sx, sy := Segments(x), Segments(y);
    SegmentsAtSlash(x, y);
    KeptAppend(sx, sy);
    FirstComponent(x);
    LastComponent(y);
  }

  /** Matches the glob `*.json` (pathlib's `*` also matches a leading dot). */
  predicate IsJsonName(n: Name) {
    |n| >= 5 && n[|n| - 5..] == ".json"
  }

  /** The names that `dir.glob("*.json")` yields for regular files. */
  function JsonNames(files: Files, dir: Path): set<Name> {
    set p | p in files && p != [] && Parent(p) == dir && IsJsonName(BaseName(p)) :: BaseName(p)
  }

  /** The glob matches exactly the regular files of `dir` whose name ends in `.json`. */
  lemma JsonNamesMember(files: Files, dir: Path, n: Name)
    ensures n in JsonNames(files, dir) <==> dir + [n] in files && IsJsonName(n)
  {
    var p := dir + [n];
    assert Parent(p) == dir && BaseName(p) == n;
    if n in JsonNames(files, dir) {
      var q :| q in files && q != [] && Parent(q) == dir && IsJsonName(BaseName(q)) && BaseName(q) == n;
      assert q == Parent(q) + [BaseName(q)];
    }
  }

  /** Writing a `*.json` file into `dir` adds its name to the glob. */
  lemma JsonNamesAdd(files: Files, dir: Path, n: Name, b: Blob)
    requires IsJsonName(n)
    ensures JsonNames(files[dir + [n] := b], dir) == JsonNames(files, dir) + {n}
  {
    forall m ensures m in JsonNames(files[dir + [n] := b], dir) <==> m in JsonNames(files, dir) + {n} {
      JsonNamesMember(files, dir, m);
      JsonNamesMember(files[dir + [n] := b], dir, m);
    }
  }

  /** Writing a file further down than `dir`'s own entries leaves the glob as it was. */
  lemma JsonNamesBelow(files: Files, dir: Path, p: Path, b: Blob)
    requires |p| > |dir| + 1
    ensures JsonNames(files[p := b], dir) == JsonNames(files, dir)
  {
    forall m ensures m in JsonNames(files[p := b], dir) <==> m in JsonNames(files, dir) {
      assert dir + [m] != p;
      JsonNamesMember(files, dir, m);
      JsonNamesMember(files[p := b], dir, m);
    }
  }
}
