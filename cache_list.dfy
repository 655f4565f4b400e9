/**
 * The build-time generator of the precache list (generate-cache-list.cjs).
 *
 * The script walks the static build directory depth-first, turns every file
 * into a './'-prefixed path relative to the build root, drops source maps and
 * writes the list out for the service worker. The file system is replaced by
 * an in-memory tree: `Dir` is what `fs.readdirSync` lists, in its order, and an
 * `Entry` is a file or a subdirectory as `fs.statSync(...).isDirectory()` tells
 * them apart. Paths are sequences of components; `sep` is the platform
 * separator that `path.relative` joins them with ('/' on POSIX, '\\' on Windows).
 *
 * The script publishes its result as `self.dynamicUrlsToCache`, while the
 * worker reads `self.urlsToCache`; see module ServiceWorker for what that
 * mismatch means there.
 */
module CacheList {
  import opened Seqs

  datatype Entry = File(name: string) | Subdir(name: string, dir: Dir)
  datatype Dir = Dir(entries: seq<Entry>)

  /** A path as its components, e.g. ["build", "internal", "app.js"]. */
  type Path = seq<string>

  /** The components joined with the separator, as `path.relative` prints them. */
  function Join(parts: Path, sep: char): string
  {
    if parts == [] then ""
    else if |parts| == 1 then parts[0]
    else parts[0] + [sep] + Join(parts[1..], sep)
  }

  /** `path.relative(baseDir, fullPath)` for a `fullPath` below `baseDir`. */
  function Relative(baseDir: Path, fullPath: Path): Path
    requires baseDir <= fullPath
  {
    fullPath[|baseDir|..]
  }

  /** `s.replace(/\\/g, '/')`: every backslash becomes a slash, nothing else changes. */
  function ToSlashes(s: string): (r: string)
    ensures |r| == |s|
    ensures forall i :: 0 <= i < |s| ==> r[i] == (if s[i] == '\\' then '/' else s[i])
    ensures '\\' !in r
  {
    if s == [] then []
    else [if s[0] == '\\' then '/' else s[0]] + ToSlashes(s[1..])
  }

  /** An emitted path: it starts with "./" and holds no backslash. */
  predicate IsUrlPath(p: string)
  {
    |p| >= 2 && p[..2] == "./" && '\\' !in p
  }

  /** The `relPath` of a file: './' followed by its path relative to the build root, with slashes. */
  function RelPath(baseDir: Path, fullPath: Path, sep: char): (r: string)
    requires baseDir <= fullPath
    ensures IsUrlPath(r)
    ensures r[2..] == ToSlashes(Join(Relative(baseDir, fullPath), sep))
  {
    "./" + ToSlashes(Join(Relative(baseDir, fullPath), sep))
  }

  /**
   * What `walkDir` returns after its loop has visited the first `n` entries of
   * `d`: each file's relPath, and each subdirectory's own listing spliced in at
   * its position. `dirPath` is the path of `d`; `baseDir` never changes.
   */
  function Listing(d: Dir, n: nat, dirPath: Path, baseDir: Path, sep: char): seq<string>
    requires n <= |d.entries|
    requires baseDir <= dirPath
    decreases d, n
  {
    if n == 0 then []
    else
      Listing(d, n - 1, dirPath, baseDir, sep) +
      match d.entries[n - 1]
      case File(name) => [RelPath(baseDir, dirPath + [name], sep)]
      case Subdir(name, sub) => Listing(sub, |sub.entries|, dirPath + [name], baseDir, sep)
  }

  /** `walkDir(dir, baseDir)`: a loop over the entries, recursing into subdirectories. */
  method WalkDir(dir: Dir, dirPath: Path, baseDir: Path, sep: char) returns (files: seq<string>)
    requires baseDir <= dirPath
    ensures files == Listing(dir, |dir.entries|, dirPath, baseDir, sep)
    decreases dir
  {
    files := [];
    for i := 0 to |dir.entries|
      invariant files == Listing(dir, i, dirPath, baseDir, sep)
    {
      var fullPath := dirPath + [dir.entries[i].name];
      var relPath := RelPath(baseDir, fullPath, sep);
      match dir.entries[i]
      case Subdir(_, sub) =>
        var nested := WalkDir(sub, fullPath, baseDir, sep);
        files := files + nested;
      case File(_) =>
        files := files + [relPath];
    }
  }

  /** `s.endsWith(suffix)`. */
  predicate EndsWith(s: string, suffix: string)
  {
    |suffix| <= |s| && s[|s| - |suffix|..] == suffix
  }

  /** `.filter(f => !f.endsWith('.map'))`. */
  function DropSourceMaps(paths: seq<string>): (r: seq<string>)
    ensures forall p :: p in r <==> p in paths && !EndsWith(p, ".map")
    ensures |r| <= |paths|
  {
    if paths == [] then []
    else (if EndsWith(paths[0], ".map") then [] else [paths[0]]) + DropSourceMaps(paths[1..])
  }

  /** The whole script: walk the build directory (its own base) and drop source maps. */
  method GenerateCacheList(build: Dir, buildDir: Path, sep: char) returns (urls: seq<string>)
    ensures urls == DropSourceMaps(Listing(build, |build.entries|, buildDir, buildDir, sep))
    ensures forall u :: u in urls ==> IsUrlPath(u) && !EndsWith(u, ".map")
  {
    var files := WalkDir(build, buildDir, buildDir, sep);
    ListingIsUrlPaths(build, |build.entries|, buildDir, buildDir, sep);
    urls := DropSourceMaps(files);
  }

  // ---------------------------------------------------------------------------
  // Properties of the listing

  /** Every emitted path starts with "./" and holds no backslash. */
  lemma {:induction false} ListingIsUrlPaths(d: Dir, n: nat, dirPath: Path, baseDir: Path, sep: char)
    requires n <= |d.entries|
    requires baseDir <= dirPath
    ensures forall p :: p in Listing(d, n, dirPath, baseDir, sep) ==> IsUrlPath(p)
    decreases d, n
  {
    if n > 0 {
      ListingIsUrlPaths(d, n - 1, dirPath, baseDir, sep);
      match d.entries[n - 1]
      case File(name) =>
      case Subdir(name, sub) =>
        ListingIsUrlPaths(sub, |sub.entries|, dirPath + [name], baseDir, sep);
    }
  }

  /** The full paths of the files (never of directories) met by the walk, in walk order. */
  function FilePaths(d: Dir, n: nat, dirPath: Path): seq<Path>
    requires n <= |d.entries|
    decreases d, n
  {
    if n == 0 then []
    else
      FilePaths(d, n - 1, dirPath) +
      match d.entries[n - 1]
      case File(name) => [dirPath + [name]]
      case Subdir(name, sub) => FilePaths(sub, |sub.entries|, dirPath + [name])
  }

  /** The file at path `p` lies in (or under) entry `e` of the directory at `dirPath`. */
  ghost predicate EntryHasFile(e: Entry, dirPath: Path, p: Path)
    decreases e
  {
    match e
    case File(name) => p == dirPath + [name]
    case Subdir(name, sub) => HasFile(sub, dirPath + [name], p)
  }

  /** The tree `d` at `dirPath` holds a file at path `p`. */
  ghost predicate HasFile(d: Dir, dirPath: Path, p: Path)
    decreases d
  {
    exists i :: 0 <= i < |d.entries| && EntryHasFile(d.entries[i], dirPath, p)
  }

  /** Names in a directory are distinct, as in any file system, all the way down. */
  ghost predicate WellFormed(d: Dir)
    decreases d
  {
    && (forall i, j :: 0 <= i < j < |d.entries| ==> d.entries[i].name != d.entries[j].name)
    && (forall i :: 0 <= i < |d.entries| && d.entries[i].Subdir? ==> WellFormed(d.entries[i].dir))
  }

  /** Every file path of the walk lies below `dirPath`, under one of the visited entries. */
  lemma {:induction false} FilePathsUnder(d: Dir, n: nat, dirPath: Path)
    requires n <= |d.entries|
    ensures forall q :: q in FilePaths(d, n, dirPath) ==>
              exists i :: 0 <= i < n && dirPath + [d.entries[i].name] <= q
    decreases d, n
  {
    if n > 0 {
      FilePathsUnder(d, n - 1, dirPath);
      var e := d.entries[n - 1];
      forall q | q in FilePaths(d, n, dirPath)
        ensures exists i :: 0 <= i < n && dirPath + [d.entries[i].name] <= q
      {
        if q !in FilePaths(d, n - 1, dirPath) {
          match e
          case File(name) =>
            assert dirPath + [d.entries[n - 1].name] <= q;
          case Subdir(name, sub) =>
            FilePathsUnder(sub, |sub.entries|, dirPath + [name]);
            var i :| 0 <= i < |sub.entries| && dirPath + [name] + [sub.entries[i].name] <= q;
            assert dirPath + [d.entries[n - 1].name] <= q;
        }
      }
    }
  }

  /** The walk meets a path exactly when the tree holds a file there: files only, and every file. */
  lemma {:induction false} FilePathsComplete(d: Dir, n: nat, dirPath: Path, p: Path)
    requires n <= |d.entries|
    ensures p in FilePaths(d, n, dirPath) <==>
              exists i :: 0 <= i < n && EntryHasFile(d.entries[i], dirPath, p)
    decreases d, n
  {
    if n > 0 {
      FilePathsComplete(d, n - 1, dirPath, p);
      match d.entries[n - 1]
      case File(name) =>
      case Subdir(name, sub) =>
        FilePathsComplete(sub, |sub.entries|, dirPath + [name], p);
    }
  }

  /** In a well-formed tree the walk meets each file exactly once. */
  lemma {:induction false} FilePathsNoDup(d: Dir, n: nat, dirPath: Path)
    requires n <= |d.entries|
    requires WellFormed(d)
    ensures NoDup(FilePaths(d, n, dirPath))
    decreases d, n
  {
    if n > 0 {
      var a := FilePaths(d, n - 1, dirPath);
      var e := d.entries[n - 1];
      var b := match e
        case File(name) => [dirPath + [name]]
        case Subdir(name, sub) => FilePaths(sub, |sub.entries|, dirPath + [name]);
      assert FilePaths(d, n, dirPath) == a + b;
      FilePathsNoDup(d, n - 1, dirPath);
      FilePathsUnder(d, n - 1, dirPath);
      match e {
        case File(name) =>
        case Subdir(name, sub) =>
          FilePathsNoDup(sub, |sub.entries|, dirPath + [name]);
          FilePathsUnder(sub, |sub.entries|, dirPath + [name]);
      }
      forall q | q in b ensures dirPath + [e.name] <= q {
        match e {
          case File(name) =>
          case Subdir(name, sub) =>
            var i :| 0 <= i < |sub.entries| && dirPath + [name] + [sub.entries[i].name] <= q;
        }
      }
      forall x, y | 0 <= x < |a| && 0 <= y < |b| ensures a[x] != b[y] {
        assert a[x] in a;
        var i :| 0 <= i < n - 1 && dirPath + [d.entries[i].name] <= a[x];
        assert b[y] in b;
        assert dirPath + [e.name] <= b[y];
        assert a[x][|dirPath|] == d.entries[i].name;
        assert b[y][|dirPath|] == e.name;
      }
    }
  }

  /** Each emitted string is the relPath of the file the walk met at that position. */
  lemma {:induction false} ListingOfFilePaths(d: Dir, n: nat, dirPath: Path, baseDir: Path, sep: char)
    requires n <= |d.entries|
    requires baseDir <= dirPath
    ensures |Listing(d, n, dirPath, baseDir, sep)| == |FilePaths(d, n, dirPath)|
    ensures forall k :: 0 <= k < |FilePaths(d, n, dirPath)| ==>
              baseDir <= FilePaths(d, n, dirPath)[k] &&
              Listing(d, n, dirPath, baseDir, sep)[k] == RelPath(baseDir, FilePaths(d, n, dirPath)[k], sep)
    decreases d, n
  {
    if n > 0 {
      ListingOfFilePaths(d, n - 1, dirPath, baseDir, sep);
      var listed := Listing(d, n - 1, dirPath, baseDir, sep);
      var met := FilePaths(d, n - 1, dirPath);
      var more, moreMet;
      match d.entries[n - 1] {
        case File(name) =>
          more, moreMet := [RelPath(baseDir, dirPath + [name], sep)], [dirPath + [name]];
        case Subdir(name, sub) =>
          ListingOfFilePaths(sub, |sub.entries|, dirPath + [name], baseDir, sep);
          more := Listing(sub, |sub.entries|, dirPath + [name], baseDir, sep);
          moreMet := FilePaths(sub, |sub.entries|, dirPath + [name]);
      }
      assert Listing(d, n, dirPath, baseDir, sep) == listed + more;
      assert FilePaths(d, n, dirPath) == met + moreMet;
      assert |more| == |moreMet|;
      assert forall k :: 0 <= k < |moreMet| ==> baseDir <= moreMet[k] && more[k] == RelPath(baseDir, moreMet[k], sep);
    }
  }

  /** The listing reads only the entries it has visited. */
  lemma {:induction false} ListingOfPrefix(d1: Dir, d2: Dir, n: nat, dirPath: Path, baseDir: Path, sep: char)
    requires n <= |d1.entries| && n <= |d2.entries|
    requires d1.entries[..n] == d2.entries[..n]
    requires baseDir <= dirPath
    ensures Listing(d1, n, dirPath, baseDir, sep) == Listing(d2, n, dirPath, baseDir, sep)
  {
    if n > 0 {
      assert d1.entries[n - 1] == d1.entries[..n][n - 1];
      assert d1.entries[..n - 1] == d1.entries[..n][..n - 1];
      assert d2.entries[..n - 1] == d2.entries[..n][..n - 1];
      ListingOfPrefix(d1, d2, n - 1, dirPath, baseDir, sep);
    }
  }

  /**
   * Depth-first order: the listing of a directory is the listing of its first
   * entries followed by that of the rest, so a subdirectory's files sit exactly
   * where the subdirectory sits in the readdir order.
   */
  lemma {:induction false} ListingSplit(front: seq<Entry>, back: seq<Entry>, dirPath: Path, baseDir: Path, sep: char)
    requires baseDir <= dirPath
    ensures Listing(Dir(front + back), |front + back|, dirPath, baseDir, sep) ==
            Listing(Dir(front), |front|, dirPath, baseDir, sep) + Listing(Dir(back), |back|, dirPath, baseDir, sep)
    decreases |back|
  {
    if back == [] {
      assert front + back == front;
    } else {
      var m := |back| - 1;
      var init := back[..m];
      ListingSplit(front, init, dirPath, baseDir, sep);
      var whole := Dir(front + back);
      ListingOfPrefix(whole, Dir(front + init), |front + init|, dirPath, baseDir, sep);
      ListingOfPrefix(Dir(back), Dir(init), m, dirPath, baseDir, sep);
      assert whole.entries[|front + back| - 1] == Dir(back).entries[m];
    }
  }

  /** The listing of a directory holding a single subdirectory is that subdirectory's own listing. */
  lemma ListingOfSubdir(name: string, sub: Dir, dirPath: Path, baseDir: Path, sep: char)
    requires baseDir <= dirPath
    ensures Listing(Dir([Subdir(name, sub)]), 1, dirPath, baseDir, sep) ==
            Listing(sub, |sub.entries|, dirPath + [name], baseDir, sep)
  {
  }

  // ---------------------------------------------------------------------------
  // Properties of the filter

  /** The filter works element by element: it keeps relative order. */
  lemma {:induction false} DropSourceMapsAppend(a: seq<string>, b: seq<string>)
    ensures DropSourceMaps(a + b) == DropSourceMaps(a) + DropSourceMaps(b)
  {
    if a != [] {
      assert (a + b)[1..] == a[1..] + b;
      DropSourceMapsAppend(a[1..], b);
    } else {
      assert a + b == b;
    }
  }

  /** A single path is kept exactly when it does not end in ".map". */
  lemma DropSourceMapsSingle(p: string)
    ensures DropSourceMaps([p]) == if EndsWith(p, ".map") then [] else [p]
  {
  }

  /** A list without source maps passes the filter unchanged. */
  lemma {:induction false} DropSourceMapsKeepsOthers(paths: seq<string>)
    requires forall p :: p in paths ==> !EndsWith(p, ".map")
    ensures DropSourceMaps(paths) == paths
  {
    if paths != [] {
      DropSourceMapsKeepsOthers(paths[1..]);
    }
  }
}
