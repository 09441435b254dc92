/**
 * One run of FSMon: load the cache left by the previous run, walk the
 * monitored tree, and reconcile the files found against the cache.
 *
 * The filesystem, the stored cache, the configuration and the two hash
 * functions are inputs; reporting, mailing and saving the cache are left out.
 */
module Monitor {
  import D = DiffEngine
  import T = TreeWalker

  /** The `.cache` file at start: missing, or a serialized cache with its key order. */
  datatype Stored = Absent | Present(cache: D.Cache, keys: seq<D.Id>)

  /** What a run leaves: the walk's `$tree`, `$result`, the new `$cache` and `$first_run`. */
  datatype RunResult = RunResult(tree: T.Tree, result: seq<D.Record>, cache: D.Cache, firstRun: bool)

  /** `$precache` and its key order: the stored cache, or an empty one on the first run. */
  function Loaded(stored: Stored): (l: (D.Cache, seq<D.Id>))
    ensures stored.Absent? ==> l.0 == map[] && l.1 == []
    ensures stored.Present? ==> l.0 == stored.cache && l.1 == stored.keys
  {
    match stored
    case Absent => (map[], [])
    case Present(cache, keys) => (cache, keys)
  }

  /**
   * `file_get_contents($path)`: the content of a file, or the empty string
   * when the path names no file (a failed read, which `crc32` sees as "").
   */
  function Content(fs: T.FileSystem, p: T.Path): seq<bv8>
  {
    if p in fs && fs[p].File? then fs[p].content else []
  }

  /** `fs::crc_file`: the CRC-32 of the file's content at scan time. */
  function CrcFile(fs: T.FileSystem, checksum: seq<bv8> -> D.Crc32): (crc: T.Path -> D.Crc32)
    // the checksum of the file's content, or of "" when the path names no file
    ensures forall p :: p in fs && fs[p].File? ==> crc(p) == checksum(fs[p].content)
    ensures forall p :: !(p in fs && fs[p].File?) ==> crc(p) == checksum([])
  {
    var crc := p => checksum(Content(fs, p));
    assert forall p :: crc(p) == checksum(Content(fs, p));
    crc
  }

  /**
   * Lines 29-95: load the cache, build the tree from `root` (`$root_dir`: one
   * path, or the list of paths a configured root may be), then run the
   * scan loop and the deletion pass over `$tree['files']`.
   */
  method Run(fs: T.FileSystem, stored: Stored, root: T.RootArg, dirsFilter: seq<T.Path>,
             preg: string, matches: string -> bool,
             fileId: T.Path -> D.Id, checksum: seq<bv8> -> D.Crc32)
    returns (run: RunResult)
    requires T.WellFormed(fs)
    requires stored.Present? ==> D.KeyOrder(stored.cache, stored.keys)
    ensures run.firstRun <==> stored.Absent?
    // the tree is exactly the walk from the root
    ensures var roots := T.Roots(root);
            && (forall r :: r in roots && T.Admitted(r, dirsFilter) ==> T.Slash(r) in run.tree.dirs)
            && T.DirsSound(fs, roots, dirsFilter, run.tree.dirs)
            && T.DirsClosed(fs, dirsFilter, run.tree.dirs)
            && T.FilesSound(fs, run.tree.dirs, preg, matches, run.tree.files)
            && T.FilesComplete(fs, run.tree.dirs, preg, matches, run.tree.files)
    // the new cache and the records are the reconciliation of those files
    ensures var (precache, keys) := Loaded(stored);
            D.Outcome(run.cache, run.result)
              == D.Reconcile(precache, keys, run.tree.files, fileId, CrcFile(fs, checksum))
    ensures run.cache.Keys == D.IdSet(run.tree.files, fileId)
    // the first run reports every file as new, once per distinct path
    ensures stored.Absent? && D.IdsDistinguish(run.tree.files, fileId) ==>
      && (forall r :: r in run.result ==> r.result == D.New)
      && (forall f :: f in run.tree.files ==> D.Record(f, D.New) in run.result)
      && |run.result| == |D.IdSet(run.tree.files, fileId)|
    // a cache that already matches every file found: "All clear", nothing changes
    ensures stored.Present?
            && stored.cache.Keys == D.IdSet(run.tree.files, fileId)
            && (forall f :: f in run.tree.files ==>
                  fileId(f) in stored.cache && stored.cache[fileId(f)].crc == CrcFile(fs, checksum)(f))
            ==> run.result == [] && run.cache == stored.cache
  {
    var firstRun := stored.Absent?;
    var precache, keys := Loaded(stored).0, Loaded(stored).1;
    var tree := T.BuildTree(fs, root, T.Tree([], []), dirsFilter, preg, matches, -1);
    var crcOf := CrcFile(fs, checksum);
    var cache, result, checkedIds := D.Diff(precache, keys, tree.files, fileId, crcOf);
    run := RunResult(tree, result, cache, firstRun);
    if stored.Absent? && D.IdsDistinguish(tree.files, fileId) {
      D.ScanFirstRun(tree.files, fileId, crcOf);
    }
    if stored.Present? && stored.cache.Keys == D.IdSet(tree.files, fileId)
       && (forall f :: f in tree.files ==> fileId(f) in stored.cache && stored.cache[fileId(f)].crc == crcOf(f)) {
      D.ReconcileUnchanged(precache, keys, tree.files, fileId, crcOf);
    }
  }
}
