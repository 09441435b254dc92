/**
 * The tree walker of FSMon (`fs::scan_dir_for_files`, `fs::scan_dir_for_dirs`
 * and `fs::build_tree`).
 *
 * The filesystem is a finite map from a path (without a trailing separator)
 * to a node; a directory node lists its entries in the order `readdir`
 * returns them, `.` and `..` included. A directory that cannot be opened
 * reads as an empty listing. The filename regex is the abstract predicate
 * `matches`, applied to an entry's basename only.
 */
module TreeWalker {

  type Path = string

  /** `DIRECTORY_SEPARATOR`. */
  const Sep: char := '/'

  /** `fs::IGNORE_DOT_DIRS`. */
  const IgnoreDotDirs: bool := true

  datatype Node = Dir(entries: seq<string>) | File(content: seq<bv8>)

  type FileSystem = map<Path, Node>

  /** `$data`: the directories visited (with trailing separator) and the files found. */
  datatype Tree = Tree(dirs: seq<Path>, files: seq<Path>)

  /** `build_tree` accepts a single root or a list of roots. */
  datatype RootArg = One(path: Path) | Many(paths: seq<Path>)

  /** PHP's `empty()` on a string: the empty string and "0" are empty. */
  predicate PhpEmpty(s: string)
  {
    s == "" || s == "0"
  }

  /** A real filesystem never lists an entry whose name is empty or holds a separator. */
  ghost predicate WellFormed(fs: FileSystem)
  {
    forall p :: p in fs && fs[p].Dir? ==> ValidNames(fs[p].entries)
  }

  ghost predicate ValidNames(names: seq<string>)
  {
    forall name :: name in names ==> name != "" && Sep !in name
  }

  /** Every name a well-formed filesystem lists is non-empty and holds no separator. */
  lemma ListedName(fs: FileSystem, dir: Path, name: string)
    requires WellFormed(fs) && name in Listing(fs, dir)
    ensures name != "" && Sep !in name
  {
    var k := dir[..|dir| - 1];
    assert IsDir(fs, k) && ValidNames(fs[k].entries);
  }

  /** `is_dir($path)`. */
  predicate IsDir(fs: FileSystem, p: Path)
  {
    p in fs && fs[p].Dir?
  }

  predicate EndsWithSep(p: Path)
  {
    |p| > 0 && p[|p| - 1] == Sep
  }

  /** `$path` with the separator appended unless it already ends in one. */
  function Slash(p: Path): (s: Path)
    ensures EndsWithSep(s)
    ensures s == p || s == p + [Sep]
    ensures EndsWithSep(p) ==> s == p
  {
    if EndsWithSep(p) then p else p + [Sep]
  }

  /**
   * What `readdir` yields on `opendir($dir)` for a slashed directory path:
   * the entries of the directory it names, or nothing when it cannot be opened.
   */
  function Listing(fs: FileSystem, dir: Path): seq<string>
  {
    if EndsWithSep(dir) && IsDir(fs, dir[..|dir| - 1]) then fs[dir[..|dir| - 1]].entries else []
  }

  /** The last `/`-separated component: `array_pop(explode(DS, $p))`. */
  function LastComponent(p: Path): (c: string)
    ensures Sep !in c
    ensures |c| <= |p| && c == p[|p| - |c|..]
    // the component is maximal: it is the whole path or preceded by a separator
    ensures |c| == |p| || p[|p| - |c| - 1] == Sep
    decreases |p|
  {
    if p == [] || p[|p| - 1] == Sep then [] else LastComponent(p[..|p| - 1]) + [p[|p| - 1]]
  }

  /** The dot-directory rule: the last component starts with a dot. */
  predicate IsDotDir(p: Path)
  {
    var c := LastComponent(p);
    |c| > 0 && c[0] == '.'
  }

  /** A root or child path that `build_tree` does not skip (its unslashed form). */
  function Admitted(p: Path, dirsFilter: seq<Path>): (admitted: bool)
    // skipped exactly when it is a dot directory or listed in the filter
    ensures admitted <==> !IsDotDir(p) && p !in dirsFilter
  {
    !(IgnoreDotDirs && IsDotDir(p)) && (dirsFilter == [] || p !in dirsFilter)
  }

  /** The test `scan_dir_for_files` applies to an entry name of `dir`. */
  function KeepFile(fs: FileSystem, dir: Path, name: string, preg: string, matches: string -> bool): (keep: bool)
    // a kept file is a real entry that is not a kept directory and that passes the pattern
    ensures keep ==> !KeepDir(fs, dir, name)
    ensures keep <==> name != "." && name != ".." && !KeepDir(fs, dir, name) && (PhpEmpty(preg) || matches(name))
  {
    name != ".." && name != "." && !IsDir(fs, dir + name) && (PhpEmpty(preg) || matches(name))
  }

  /** The test `scan_dir_for_dirs` applies to an entry name of `dir`. */
  function KeepDir(fs: FileSystem, dir: Path, name: string): (keep: bool)
    ensures keep ==> name != "." && name != ".."
    ensures keep ==> dir + name in fs && fs[dir + name].Dir?
    ensures keep <==> name != "." && name != ".." && IsDir(fs, dir + name)
  {
    name != ".." && name != "." && IsDir(fs, dir + name)
  }

  ghost predicate FileEntry(fs: FileSystem, dir: Path, name: string, preg: string, matches: string -> bool)
  {
    name in Listing(fs, dir) && KeepFile(fs, dir, name, preg, matches)
  }

  ghost predicate DirEntry(fs: FileSystem, dir: Path, name: string)
  {
    name in Listing(fs, dir) && KeepDir(fs, dir, name)
  }

  /** `dir . $file` for every listed name that `keep` admits, in listing order. */
  function Select(dir: Path, names: seq<string>, keep: string -> bool): (r: seq<Path>)
    ensures |r| <= |names|
    ensures forall p :: p in r <==> exists name :: name in names && keep(name) && p == dir + name
    // one path per kept name: duplicate-free names give duplicate-free paths
    ensures Distinct(names) ==> Distinct(r)
    decreases |names|
  {
    if names == [] then []
    else
      var last := names[|names| - 1];
      var init := names[..|names| - 1];
      var prev := Select(dir, init, keep);
      assert forall name :: name in names <==> name in init || name == last;
      assert Distinct(names) ==> Distinct(init) && last !in init by {
        if Distinct(names) {
          forall i, j | 0 <= i < j < |init| ensures init[i] != init[j] {
            assert init[i] == names[i] && init[j] == names[j];
          }
          forall i | 0 <= i < |init| ensures init[i] != last {
            assert init[i] == names[i];
          }
        }
      }
      assert Distinct(names) ==> dir + last !in prev by {
        forall name | name in init ensures name != last ==> dir + name != dir + last {
          ConcatCancel(dir, name, last);
        }
      }
      if keep(last) then SnocDistinct(prev, dir + last); prev + [dir + last] else prev
  }

  /** No element occurs twice. */
  ghost predicate Distinct<T>(s: seq<T>)
  {
    forall i, j :: 0 <= i < j < |s| ==> s[i] != s[j]
  }

  lemma ConcatCancel<T>(d: seq<T>, a: seq<T>, b: seq<T>)
    ensures d + a == d + b ==> a == b
  {
    if d + a == d + b {
      assert a == (d + a)[|d|..];
      assert b == (d + b)[|d|..];
    }
  }

  lemma SnocDistinct<T>(s: seq<T>, x: T)
    ensures Distinct(s) && x !in s ==> Distinct(s + [x])
  {
    if Distinct(s) && x !in s {
      forall i, j | 0 <= i < j < |s + [x]| ensures (s + [x])[i] != (s + [x])[j] {
        if j == |s| {
          assert (s + [x])[i] == s[i];
        } else {
          assert (s + [x])[i] == s[i] && (s + [x])[j] == s[j];
        }
      }
    }
  }

  /** The kept file entries of `dir`, as `scan_dir_for_files` lists them. */
  function FilesIn(fs: FileSystem, dir: Path, preg: string, matches: string -> bool): (r: seq<Path>)
    ensures forall p :: p in r <==> exists name :: FileEntry(fs, dir, name, preg, matches) && p == dir + name
  {
    Select(dir, Listing(fs, dir), name => KeepFile(fs, dir, name, preg, matches))
  }

  /** The subdirectories of `dir`, as `scan_dir_for_dirs` lists them. */
  function Children(fs: FileSystem, dir: Path): (r: seq<Path>)
    ensures forall p :: p in r <==> exists name :: DirEntry(fs, dir, name) && p == dir + name
  {
    Select(dir, Listing(fs, dir), name => KeepDir(fs, dir, name))
  }

  /** `fs::scan_dir_for_files`: the non-directory entries of `dir` whose basename matches. */
  method ScanDirForFiles(fs: FileSystem, dir: Path, preg: string, matches: string -> bool)
    returns (ret: seq<Path>)
    ensures ret == FilesIn(fs, dir, preg, matches)
  {
    var names := Listing(fs, dir);
    ret := [];
    var i := 0;
    while i < |names|
      invariant 0 <= i <= |names|
      invariant ret == Select(dir, names[..i], name => KeepFile(fs, dir, name, preg, matches))
    {
      var file := names[i];
      var path := dir + file;
      if KeepFile(fs, dir, file, preg, matches) {
        ret := ret + [path];
      }
      assert names[..i + 1][..i] == names[..i];
      i := i + 1;
    }
    assert names[..i] == names;
  }

  /** `fs::scan_dir_for_dirs`: the directory entries of `dir`, one level. */
  method ScanDirForDirs(fs: FileSystem, dir: Path) returns (ret: seq<Path>)
    ensures ret == Children(fs, dir)
  {
    var names := Listing(fs, dir);
    ret := [];
    var i := 0;
    while i < |names|
      invariant 0 <= i <= |names|
      invariant ret == Select(dir, names[..i], name => KeepDir(fs, dir, name))
    {
      var file := names[i];
      var path := dir + file;
      if KeepDir(fs, dir, file) {
        ret := ret + [path];
      }
      assert names[..i + 1][..i] == names[..i];
      i := i + 1;
    }
    assert names[..i] == names;
  }

  // ---------------------------------------------------------------------
  // build_tree
  // ---------------------------------------------------------------------

  /** The roots `build_tree` iterates over; none when `empty($root_path)`. */
  function Roots(root: RootArg): (roots: seq<Path>)
    ensures root.Many? ==> roots == root.paths
    // a single root is walked unless `empty()` holds of it
    ensures root.One? ==> |roots| <= 1 && (roots == [] <==> PhpEmpty(root.path))
    ensures root.One? ==> forall r :: r in roots ==> r == root.path
  {
    match root
    case One(p) => if PhpEmpty(p) then [] else [p]
    case Many(ps) => ps
  }

  /** The directory keys no shorter than `floor`: the termination measure of the walk. */
  ghost function DirKeysFrom(fs: FileSystem, floor: int): set<Path>
  {
    set k | k in fs && fs[k].Dir? && |k| >= floor
  }

  /** `p` is one of the roots, or a directory entry of a recorded directory. */
  ghost predicate Reached(fs: FileSystem, roots: seq<Path>, dirs: seq<Path>, p: Path)
  {
    p in roots || exists d, name :: d in dirs && DirEntry(fs, d, name) && p == d + name
  }

  /**
   * Every recorded directory ends in the separator and is the slashed form
   * of a path that was not skipped and that was reached from the roots.
   */
  ghost predicate DirsSound(fs: FileSystem, roots: seq<Path>, dirsFilter: seq<Path>, dirs: seq<Path>)
  {
    forall d :: Recorded(dirs, d) ==>
      exists p :: d == Slash(p) && Admitted(p, dirsFilter) && Reached(fs, roots, dirs, p)
  }

  /**
   * Membership in `dirs`. This is only a trigger guard: `DirsSound`
   * quantifies over `Recorded` rather than `in`, so that the verifier
   * instantiates it only where a proof asks with `Recorded` explicitly,
   * and not for every directory a `Reached` witness mentions.
   */
  ghost predicate Recorded(dirs: seq<Path>, d: Path)
  {
    d in dirs
  }

  /** Every directory entry of a recorded directory that is not skipped is recorded too. */
  ghost predicate DirsClosed(fs: FileSystem, dirsFilter: seq<Path>, dirs: seq<Path>)
  {
    forall d, name :: d in dirs && DirEntry(fs, d, name) && Admitted(d + name, dirsFilter) ==>
      Slash(d + name) in dirs
  }

  /** `f` is a kept file entry of one of `dirs`. */
  ghost predicate FileOf(fs: FileSystem, dirs: seq<Path>, preg: string, matches: string -> bool, f: Path)
  {
    exists d, name :: d in dirs && FileEntry(fs, d, name, preg, matches) && f == d + name
  }

  /** Every file found is a kept file entry of a recorded directory. */
  ghost predicate FilesSound(fs: FileSystem, dirs: seq<Path>, preg: string, matches: string -> bool, files: seq<Path>)
  {
    forall f :: f in files ==> FileOf(fs, dirs, preg, matches, f)
  }

  /** Every kept file entry of a recorded directory is found. */
  ghost predicate FilesComplete(fs: FileSystem, dirs: seq<Path>, preg: string, matches: string -> bool, files: seq<Path>)
  {
    forall d, name :: d in dirs && FileEntry(fs, d, name, preg, matches) ==> d + name in files
  }

  /**
   * `fs::build_tree`: for each root, unless its last component starts with a
   * dot or it is listed in `dirsFilter`, record its slashed path, merge the
   * files found so far in this call (the accumulator `$files`, which still
   * holds the files of earlier roots) into `data.files`, and recurse into its
   * subdirectories. `floor` is a ghost bound below every root's length that
   * makes the walk's termination provable.
   *
   * The new part of `data.dirs` is exactly the set of slashed, non-skipped
   * directories reachable from the roots through non-skipped directories,
   * and the new part of `data.files` holds exactly the kept file entries of
   * those directories.
   */
  method BuildTree(fs: FileSystem, root: RootArg, data: Tree, dirsFilter: seq<Path>,
                   preg: string, matches: string -> bool, ghost floor: int)
    returns (out: Tree)
    requires WellFormed(fs)
    requires forall r :: r in Roots(root) ==> |r| > floor
    ensures data.dirs <= out.dirs && data.files <= out.files
    ensures var dirs := out.dirs[|data.dirs|..];
            && (forall r :: r in Roots(root) && Admitted(r, dirsFilter) ==> Slash(r) in dirs)
            && DirsSound(fs, Roots(root), dirsFilter, dirs)
            && DirsClosed(fs, dirsFilter, dirs)
            && FilesSound(fs, dirs, preg, matches, out.files[|data.files|..])
            && FilesComplete(fs, dirs, preg, matches, out.files[|data.files|..])
    decreases |DirKeysFrom(fs, floor)|, |Roots(root)|, 1
  {
    out := data;
    var roots := Roots(root);
    if roots == [] {
      return;
    }
    var files: seq<Path> := [];
    // the parts of `data.dirs` and `data.files` this call has added
    ghost var dirs: seq<Path> := [];
    ghost var added: seq<Path> := [];
    var i := 0;
    while i < |roots|
      invariant 0 <= i <= |roots|
      invariant out.dirs == data.dirs + dirs && out.files == data.files + added
      invariant Covered(roots, i, dirsFilter, dirs)
      invariant DirsSound(fs, roots, dirsFilter, dirs)
      invariant DirsClosed(fs, dirsFilter, dirs)
      invariant FilesSound(fs, dirs, preg, matches, added)
      invariant FilesSound(fs, dirs, preg, matches, files)
      invariant FilesComplete(fs, dirs, preg, matches, added)
    {
      var unslashed := roots[i];
      ghost var dirs0 := dirs;
      if Admitted(unslashed, dirsFilter) {
        out, files, dirs, added := Visit(fs, roots, unslashed, data, out, files, dirsFilter, preg, matches,
                                         floor, dirs, added);
      }
      CoveredStep(roots, i, dirsFilter, dirs0, dirs);
      i := i + 1;
    }
    DropPrefix(data.dirs, dirs);
    DropPrefix(data.files, added);
    assert forall r :: r in roots ==> exists j :: 0 <= j < |roots| && roots[j] == r;
  }

  /** The first `n` roots that are not skipped are recorded in `dirs`. */
  ghost predicate Covered(roots: seq<Path>, n: int, dirsFilter: seq<Path>, dirs: seq<Path>)
  {
    forall j :: 0 <= j < n && j < |roots| && Admitted(roots[j], dirsFilter) ==> Slash(roots[j]) in dirs
  }

  lemma CoveredStep(roots: seq<Path>, i: nat, dirsFilter: seq<Path>, dirs0: seq<Path>, dirs: seq<Path>)
    requires i < |roots| && Covered(roots, i, dirsFilter, dirs0)
    requires forall x :: x in dirs0 ==> x in dirs
    requires Admitted(roots[i], dirsFilter) ==> Slash(roots[i]) in dirs
    ensures Covered(roots, i + 1, dirsFilter, dirs)
  {
  }

  /**
   * The loop body of `build_tree` for a root that is not skipped: list its
   * subdirectories and files, add the files to the accumulator, record the
   * slashed path, merge the whole accumulator into `cur.files`, and walk
   * the subdirectories. `dirs` and `added` are the parts of `cur` the
   * enclosing call has added to `data` so far; the walk's invariants hold
   * of them before and after.
   */
  method Visit(fs: FileSystem, roots: seq<Path>, unslashed: Path, ghost data: Tree, cur: Tree, files: seq<Path>,
               dirsFilter: seq<Path>, preg: string, matches: string -> bool, ghost floor: int,
               ghost dirs: seq<Path>, ghost added: seq<Path>)
    returns (out: Tree, files': seq<Path>, ghost dirs': seq<Path>, ghost added': seq<Path>)
    requires WellFormed(fs)
    requires unslashed in roots && |unslashed| > floor && Admitted(unslashed, dirsFilter)
    requires cur.dirs == data.dirs + dirs && cur.files == data.files + added
    requires DirsSound(fs, roots, dirsFilter, dirs)
    requires DirsClosed(fs, dirsFilter, dirs)
    requires FilesSound(fs, dirs, preg, matches, added)
    requires FilesSound(fs, dirs, preg, matches, files)
    requires FilesComplete(fs, dirs, preg, matches, added)
    ensures out.dirs == data.dirs + dirs' && out.files == data.files + added'
    ensures Slash(unslashed) in dirs' && forall x :: x in dirs ==> x in dirs'
    ensures files' == files + FilesIn(fs, Slash(unslashed), preg, matches)
    // the slashed root and then the whole accumulator are appended before the walk below
    ensures cur.dirs + [Slash(unslashed)] <= out.dirs && cur.files + files' <= out.files
    ensures DirsSound(fs, roots, dirsFilter, dirs')
    ensures DirsClosed(fs, dirsFilter, dirs')
    ensures FilesSound(fs, dirs', preg, matches, added')
    ensures FilesSound(fs, dirs', preg, matches, files')
    ensures FilesComplete(fs, dirs', preg, matches, added')
    decreases |DirKeysFrom(fs, floor)|, 1, 0
  {
    var path := Slash(unslashed);
    var allDirs := ScanDirForDirs(fs, path);
    var found := ScanDirForFiles(fs, path, preg, matches);
    files' := files + found;
    var recorded := Tree(cur.dirs + [path], cur.files + files');
    ChildrenLonger(fs, path, allDirs, floor, unslashed);
    out := BuildTree(fs, Many(allDirs), recorded, dirsFilter, preg, matches, |path|);
    ghost var rec, recFiles := out.dirs[|recorded.dirs|..], out.files[|recorded.files|..];
    WalkStep(fs, roots, dirsFilter, preg, matches, dirs, path, unslashed, allDirs, rec,
             added, files, found, recFiles);
    Regroup(data.dirs, dirs, [path], out.dirs);
    Regroup(data.files, added, files', out.files);
    dirs', added' := dirs + [path] + rec, added + files' + recFiles;
  }

  lemma DropPrefix<T>(a: seq<T>, b: seq<T>)
    ensures a <= a + b && (a + b)[|a|..] == b
  {
  }

  /** `t` extends `a + b + c`: its new part comes after. */
  lemma Regroup<T>(a: seq<T>, b: seq<T>, c: seq<T>, t: seq<T>)
    requires a + b + c <= t
    ensures t == a + (b + c + t[|a + b + c|..])
    ensures t[|a|..] == b + c + t[|a + b + c|..]
  {
    assert t == (a + b + c) + t[|a + b + c|..];
  }

  /**
   * The subdirectories of a slashed root are longer than it, and the walk's
   * measure does not grow on the recursive call, shrinking when there is any
   * subdirectory to visit.
   */
  lemma ChildrenLonger(fs: FileSystem, path: Path, allDirs: seq<Path>, floor: int, unslashed: Path)
    requires WellFormed(fs)
    requires path == Slash(unslashed) && |unslashed| > floor
    requires forall p :: p in allDirs <==> exists name :: DirEntry(fs, path, name) && p == path + name
    ensures forall c :: c in allDirs ==> |c| > |path|
    ensures DirKeysFrom(fs, |path|) <= DirKeysFrom(fs, floor)
    ensures |DirKeysFrom(fs, |path|)| <= |DirKeysFrom(fs, floor)|
    ensures allDirs != [] ==> |DirKeysFrom(fs, |path|)| < |DirKeysFrom(fs, floor)|
  {
    forall c | c in allDirs ensures |c| > |path| {
      var name :| DirEntry(fs, path, name) && c == path + name;
      ListedName(fs, path, name);
    }
    var k := path[..|path| - 1];
    assert |path| > floor;
    assert DirKeysFrom(fs, |path|) <= DirKeysFrom(fs, floor);
    SubsetCard(DirKeysFrom(fs, |path|), DirKeysFrom(fs, floor));
    if allDirs != [] {
      assert allDirs[0] in allDirs;
      assert IsDir(fs, k);
      assert |k| >= floor && |k| < |path|;
      assert k in fs && fs[k].Dir?;
      assert k in DirKeysFrom(fs, floor);
      assert k !in DirKeysFrom(fs, |path|);
    }
  }

  lemma SubsetCard<T>(a: set<T>, b: set<T>)
    requires a <= b
    ensures |a| <= |b|
    ensures a != b ==> |a| < |b|
  {
    assert b == a + (b - a);
    assert a * (b - a) == {};
    if a != b {
      var x :| x in b - a;
    }
  }

  lemma ReachedGrows(fs: FileSystem, roots: seq<Path>, a: seq<Path>, b: seq<Path>, p: Path)
    requires forall x :: x in a ==> x in b
    requires Reached(fs, roots, a, p)
    ensures Reached(fs, roots, b, p)
  {
    if p !in roots {
      var d, name :| d in a && DirEntry(fs, d, name) && p == d + name;
      assert d in b;
    }
  }

  lemma FileOfGrows(fs: FileSystem, a: seq<Path>, b: seq<Path>, preg: string, matches: string -> bool, f: Path)
    requires forall x :: x in a ==> x in b
    requires FileOf(fs, a, preg, matches, f)
    ensures FileOf(fs, b, preg, matches, f)
  {
    var d, name :| d in a && FileEntry(fs, d, name, preg, matches) && f == d + name;
    assert d in b;
  }

  /**
   * One admitted root of the loop in `build_tree`: the walk's invariants
   * hold again once the root is recorded, its files merged and its
   * subdirectories walked.
   */
  lemma WalkStep(fs: FileSystem, roots: seq<Path>, dirsFilter: seq<Path>, preg: string, matches: string -> bool,
                 dirs0: seq<Path>, path: Path, unslashed: Path, allDirs: seq<Path>, rec: seq<Path>,
                 files0: seq<Path>, acc0: seq<Path>, found: seq<Path>, recFiles: seq<Path>)
    requires unslashed in roots && path == Slash(unslashed) && Admitted(unslashed, dirsFilter)
    requires forall p :: p in allDirs <==> exists name :: DirEntry(fs, path, name) && p == path + name
    requires forall p :: p in found <==> exists name :: FileEntry(fs, path, name, preg, matches) && p == path + name
    // the loop invariants before this root
    requires DirsSound(fs, roots, dirsFilter, dirs0)
    requires DirsClosed(fs, dirsFilter, dirs0)
    requires FilesSound(fs, dirs0, preg, matches, files0)
    requires FilesSound(fs, dirs0, preg, matches, acc0)
    requires FilesComplete(fs, dirs0, preg, matches, files0)
    // the postcondition of the recursive call
    requires forall r :: r in allDirs && Admitted(r, dirsFilter) ==> Slash(r) in rec
    requires DirsSound(fs, allDirs, dirsFilter, rec)
    requires DirsClosed(fs, dirsFilter, rec)
    requires FilesSound(fs, rec, preg, matches, recFiles)
    requires FilesComplete(fs, rec, preg, matches, recFiles)
    ensures var dirs := dirs0 + [path] + rec;
            var files := files0 + (acc0 + found) + recFiles;
            && path in dirs && (forall x :: x in dirs0 ==> x in dirs)
            && DirsSound(fs, roots, dirsFilter, dirs)
            && DirsClosed(fs, dirsFilter, dirs)
            && FilesSound(fs, dirs, preg, matches, files)
            && FilesSound(fs, dirs, preg, matches, acc0 + found)
            && FilesComplete(fs, dirs, preg, matches, files)
  {
    var dirs := dirs0 + [path] + rec;
    assert forall x :: x in dirs0 ==> x in dirs;
    assert forall x :: x in rec ==> x in dirs;
    SoundStep(fs, roots, dirsFilter, dirs0, path, unslashed, allDirs, rec);
    ClosedStep(fs, dirsFilter, dirs0, path, allDirs, rec);
    FilesSoundStep(fs, preg, matches, dirs0, path, rec, files0, acc0, found, recFiles);
    CompleteStep(fs, preg, matches, dirs0, path, rec, files0, acc0, found, recFiles);
  }

  lemma CompleteStep(fs: FileSystem, preg: string, matches: string -> bool,
                     dirs0: seq<Path>, path: Path, rec: seq<Path>,
                     files0: seq<Path>, acc0: seq<Path>, found: seq<Path>, recFiles: seq<Path>)
    requires forall p :: p in found <==> exists name :: FileEntry(fs, path, name, preg, matches) && p == path + name
    requires FilesComplete(fs, dirs0, preg, matches, files0)
    requires FilesComplete(fs, rec, preg, matches, recFiles)
    ensures FilesComplete(fs, dirs0 + [path] + rec, preg, matches, files0 + (acc0 + found) + recFiles)
  {
    var dirs := dirs0 + [path] + rec;
    var files := files0 + (acc0 + found) + recFiles;
    forall d, name | d in dirs && FileEntry(fs, d, name, preg, matches) ensures d + name in files {
      if d in dirs0 {
        assert d + name in files0;
      } else if d == path {
        assert d + name in found;
      } else {
        assert d in rec;
        assert d + name in recFiles;
      }
    }
  }

  lemma SoundStep(fs: FileSystem, roots: seq<Path>, dirsFilter: seq<Path>,
                  dirs0: seq<Path>, path: Path, unslashed: Path, allDirs: seq<Path>, rec: seq<Path>)
    requires unslashed in roots && path == Slash(unslashed) && Admitted(unslashed, dirsFilter)
    requires forall p :: p in allDirs <==> exists name :: DirEntry(fs, path, name) && p == path + name
    requires DirsSound(fs, roots, dirsFilter, dirs0)
    requires DirsSound(fs, allDirs, dirsFilter, rec)
    ensures DirsSound(fs, roots, dirsFilter, dirs0 + [path] + rec)
  {
    var dirs := dirs0 + [path] + rec;
    assert forall x :: x in dirs0 ==> x in dirs;
    assert forall x :: x in rec ==> x in dirs;
    forall d | d in dirs
      ensures exists p :: d == Slash(p) && Admitted(p, dirsFilter) && Reached(fs, roots, dirs, p)
    {
      if d in dirs0 {
        assert Recorded(dirs0, d);
        var p :| d == Slash(p) && Admitted(p, dirsFilter) && Reached(fs, roots, dirs0, p);
        ReachedGrows(fs, roots, dirs0, dirs, p);
      } else if d == path {
        assert Reached(fs, roots, dirs, unslashed);
      } else {
        assert Recorded(rec, d);
        var p :| d == Slash(p) && Admitted(p, dirsFilter) && Reached(fs, allDirs, rec, p);
        if p in allDirs {
          var name :| DirEntry(fs, path, name) && p == path + name;
          assert path in dirs;
        } else {
          ReachedGrows(fs, allDirs, rec, dirs, p);
        }
        assert Reached(fs, roots, dirs, p);
      }
    }
  }

  lemma ClosedStep(fs: FileSystem, dirsFilter: seq<Path>,
                   dirs0: seq<Path>, path: Path, allDirs: seq<Path>, rec: seq<Path>)
    requires forall p :: p in allDirs <==> exists name :: DirEntry(fs, path, name) && p == path + name
    requires DirsClosed(fs, dirsFilter, dirs0)
    requires forall r :: r in allDirs && Admitted(r, dirsFilter) ==> Slash(r) in rec
    requires DirsClosed(fs, dirsFilter, rec)
    ensures DirsClosed(fs, dirsFilter, dirs0 + [path] + rec)
  {
    var dirs := dirs0 + [path] + rec;
    forall d, name | d in dirs && DirEntry(fs, d, name) && Admitted(d + name, dirsFilter)
      ensures Slash(d + name) in dirs
    {
      if d in dirs0 {
        assert Slash(d + name) in dirs0;
      } else if d == path {
        assert d + name in allDirs;
      } else {
        assert d in rec;
      }
    }
  }

  lemma FilesSoundStep(fs: FileSystem, preg: string, matches: string -> bool,
                       dirs0: seq<Path>, path: Path, rec: seq<Path>,
                       files0: seq<Path>, acc0: seq<Path>, found: seq<Path>, recFiles: seq<Path>)
    requires forall p :: p in found <==> exists name :: FileEntry(fs, path, name, preg, matches) && p == path + name
    requires FilesSound(fs, dirs0, preg, matches, files0)
    requires FilesSound(fs, dirs0, preg, matches, acc0)
    requires FilesSound(fs, rec, preg, matches, recFiles)
    ensures var dirs := dirs0 + [path] + rec;
            && FilesSound(fs, dirs, preg, matches, acc0 + found)
            && FilesSound(fs, dirs, preg, matches, files0 + (acc0 + found) + recFiles)
  {
    var dirs := dirs0 + [path] + rec;
    assert forall x :: x in dirs0 ==> x in dirs;
    assert forall x :: x in rec ==> x in dirs;
    forall f | f in files0 + (acc0 + found) + recFiles ensures FileOf(fs, dirs, preg, matches, f) {
      if f in files0 || f in acc0 {
        FileOfGrows(fs, dirs0, dirs, preg, matches, f);
      } else if f in found {
        var name :| FileEntry(fs, path, name, preg, matches) && f == path + name;
        assert path in dirs;
      } else {
        assert f in recFiles;
        FileOfGrows(fs, rec, dirs, preg, matches, f);
      }
    }
  }

  // ---------------------------------------------------------------------
  // The exclusion rules
  // ---------------------------------------------------------------------

  /** The last component of `dir + name` is `name` when `name` holds no separator. */
  lemma {:induction false} LastComponentOfChild(dir: Path, name: string)
    requires Sep !in name
    requires EndsWithSep(dir) || dir == []
    ensures LastComponent(dir + name) == name
    decreases |name|
  {
    if name == [] {
      assert dir + name == dir;
    } else {
      var init := name[..|name| - 1];
      assert Sep !in init by { assert forall x :: x in init ==> x in name; }
      LastComponentOfChild(dir, init);
      assert (dir + name)[..|dir + name| - 1] == dir + init;
    }
  }

  /**
   * The dot-directory rule applies to nested directories too: a
   * subdirectory whose name starts with a dot is skipped.
   */
  lemma DotChildSkipped(dir: Path, name: string, dirsFilter: seq<Path>)
    requires EndsWithSep(dir)
    requires Sep !in name && |name| > 0 && name[0] == '.'
    ensures !Admitted(dir + name, dirsFilter)
  {
    LastComponentOfChild(dir, name);
  }

  /** A separator-ending prefix of `d + name` lies in `d` when `name` holds no separator. */
  lemma PrefixInDir(x: Path, d: Path, name: string)
    requires EndsWithSep(x) && Sep !in name
    requires x <= d + name
    ensures x <= d
  {
  }

  /** A path reached from a directory entry does not end in the separator. */
  lemma EntryNotSlashed(fs: FileSystem, d: Path, name: string)
    requires WellFormed(fs) && DirEntry(fs, d, name)
    ensures !EndsWithSep(d + name)
  {
    ListedName(fs, d, name);
    assert (d + name)[|d + name| - 1] == name[|name| - 1];
    assert name[|name| - 1] in name;
  }

  /** A skipped directory is not recorded, unless its slashed form is itself a root. */
  lemma {:induction false} SkippedNotRecorded(fs: FileSystem, roots: seq<Path>, dirsFilter: seq<Path>,
                                               dirs: seq<Path>, c: Path)
    requires WellFormed(fs)
    requires DirsSound(fs, roots, dirsFilter, dirs)
    requires !Admitted(c, dirsFilter) && !EndsWithSep(c)
    requires Slash(c) !in roots
    ensures Slash(c) !in dirs
  {
    if Slash(c) in dirs {
      assert Recorded(dirs, Slash(c));
      var p :| Slash(c) == Slash(p) && Admitted(p, dirsFilter) && Reached(fs, roots, dirs, p);
      if EndsWithSep(p) {
        assert p == Slash(c);
        var d, name :| d in dirs && DirEntry(fs, d, name) && p == d + name;
        EntryNotSlashed(fs, d, name);
      } else {
        SlashInjective(p, c);
      }
    }
  }

  /** Every recorded directory ends in the separator. */
  lemma DirsSlashed(fs: FileSystem, roots: seq<Path>, dirsFilter: seq<Path>, dirs: seq<Path>)
    requires DirsSound(fs, roots, dirsFilter, dirs)
    ensures forall d :: d in dirs ==> EndsWithSep(d)
  {
    forall d | d in dirs ensures EndsWithSep(d) {
      assert Recorded(dirs, d);
    }
  }

  /** Two paths without a trailing separator are equal when their slashed forms are. */
  lemma SlashInjective(p: Path, c: Path)
    requires !EndsWithSep(p) && !EndsWithSep(c) && Slash(p) == Slash(c)
    ensures p == c
  {
    assert p == Slash(p)[..|p|];
    assert c == Slash(c)[..|c|];
  }

  /**
   * Nothing beneath a skipped directory is scanned: when no root lies at or
   * under its slashed path, no recorded directory and no file found does.
   */
  lemma NothingBeneathSkipped(fs: FileSystem, roots: seq<Path>, dirsFilter: seq<Path>,
                              dirs: seq<Path>, preg: string, matches: string -> bool,
                              files: seq<Path>, c: Path)
    requires WellFormed(fs)
    requires DirsSound(fs, roots, dirsFilter, dirs)
    requires FilesSound(fs, dirs, preg, matches, files)
    requires !Admitted(c, dirsFilter) && !EndsWithSep(c)
    requires forall r :: r in roots ==> !(Slash(c) <= r)
    ensures forall d :: d in dirs ==> !(Slash(c) <= d)
    ensures forall f :: f in files ==> !(Slash(c) <= f)
  {
    SkippedNotRecorded(fs, roots, dirsFilter, dirs, c);
    forall d | d in dirs ensures !(Slash(c) <= d) {
      NotBeneath(fs, roots, dirsFilter, dirs, c, d);
    }
    forall f | f in files ensures !(Slash(c) <= f) {
      var d, name :| d in dirs && FileEntry(fs, d, name, preg, matches) && f == d + name;
      ListedName(fs, d, name);
      if Slash(c) <= f {
        PrefixInDir(Slash(c), d, name);
      }
    }
  }

  lemma {:induction false} NotBeneath(fs: FileSystem, roots: seq<Path>, dirsFilter: seq<Path>,
                                      dirs: seq<Path>, c: Path, d: Path)
    requires WellFormed(fs)
    requires DirsSound(fs, roots, dirsFilter, dirs)
    requires Slash(c) !in dirs
    requires forall r :: r in roots ==> !(Slash(c) <= r)
    requires d in dirs
    ensures !(Slash(c) <= d)
    decreases |d|
  {
    if Slash(c) <= d {
      assert Recorded(dirs, d);
      var p :| d == Slash(p) && Admitted(p, dirsFilter) && Reached(fs, roots, dirs, p);
      if p in roots {
        if d != p {
          PrefixOfSnoc(Slash(c), p, Sep);
        }
      } else {
        var d', name :| d' in dirs && DirEntry(fs, d', name) && p == d' + name;
        EntryNotSlashed(fs, d', name);
        ListedName(fs, d', name);
        PrefixOfSnoc(Slash(c), p, Sep);
        if Slash(c) <= p {
          PrefixInDir(Slash(c), d', name);
          NotBeneath(fs, roots, dirsFilter, dirs, c, d');
        }
      }
    }
  }

  lemma PrefixOfSnoc<T>(x: seq<T>, p: seq<T>, e: T)
    requires x <= p + [e]
    ensures x <= p || x == p + [e]
  {
    if |x| <= |p| {
      assert x == (p + [e])[..|x|] == p[..|x|];
    }
  }
}
