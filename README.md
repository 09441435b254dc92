# FSMon change detection in Dafny

FSMon walks a directory tree, computes a CRC-32 for every file it finds and
compares the result with a checksum cache left by the previous run. It reports
each file as `new`, `modified` or `deleted`, and the updated cache is what
the next run compares against.

The project has three modules.

- `DiffEngine` (`diff.dfy`) covers the scan loop and the deletion pass in
  `fsmon.php`.
  - The working `$cache` is a `map` from file id to `Entry(crc, file)`.
    `ScanFiles` and `DeleteMissing` update it in a loop and append to
    `$result` and `$checked_ids`.
  - Each method is proved equal to a specification function: `Scan`,
    `Gone`/`DeletedRecords`, and `Reconcile`, which composes them.
  - The lemmas about these functions state what a run promises: the final
    key set, the crc stored per file, the order of the records, the deletion
    records, the first-run behaviour and idempotence.
- `TreeWalker` (`tree.dfy`) covers `fs::scan_dir_for_files`,
  `fs::scan_dir_for_dirs` and `fs::build_tree`.
  - The filesystem is a map from a path without a trailing separator to
    `Dir(entries)` or `File(content)`. `entries` is the order in which
    `readdir` returns the names.
  - `BuildTree` is a recursive method with the per-root loop of the source.
    It takes the `$data` buffer in and returns the extended one.
  - Its contract says that the directories it adds are exactly the
    slashed, non-skipped directories reachable from the roots. The files it
    adds are exactly the kept file entries of those directories.
  - Separate lemmas show that a skipped directory is not recorded and that
    nothing beneath it is scanned.
- `Monitor` (`monitor.dfy`) covers the top of one run (lines 29-95): load
  the stored cache, walk the tree from the root (one path or a list),
  reconcile.

`fs::file_id` (md5 of the path) is the function parameter `fileId`.
`fs::crc_file` is `CrcFile`: an abstract `checksum` applied to the file's
content. The filename regex is the abstract predicate `matches` on an entry's
basename.

A rename is reported as `new` for the new path followed by `deleted` for
the old one (see `DiffEngine.Renamed`): the scan records always come before
the deletion records.

One behaviour of the code is deliberately not reproduced: a directory that
cannot be opened reads as an empty listing in the model, whereas the code's
`readdir` loop over a failed `opendir` never ends on PHP 7 and throws on
PHP 8 (see "## Left out").

Within one call, `build_tree` merges the accumulated `$files` of every
earlier sibling root into `$data['files']` again for each later sibling
(lines 325 and 327). The model keeps this: the contract of `TreeWalker.Visit`
says that the accumulator grows by the current directory's files and that
this whole accumulator is appended to `data.files`. `DiffEngine.RepeatedFileSilent`
shows that such a repeated path reports nothing in the scan loop.

## Model

| member | source | states |
|---|---|---|
| DiffEngine.Ids | fsmon.php:60-62 | `$checked_ids` has one id per scanned file, in scan order, the i-th being the id of the i-th file |
| DiffEngine.Step | fsmon.php:60-82 | one scanned file touches only its own cache entry, which afterwards holds the file's crc. A record is emitted exactly when the id is absent or its stored crc differs, and exactly when the cache changes: `modified` when the id was present (crc and path overwritten), `new` when it was absent (entry inserted). On an equal crc nothing is emitted and the stored entry, path included, is kept |
| DiffEngine.Scan | fsmon.php:56-84 | the scan loop emits no more records than there are files, never `deleted`, always for a scanned path, and keeps every id it started with |
| DiffEngine.ScanOnePerFile | fsmon.php:56-84 | at most one record per occurrence of a path in the file list: the records' paths form a sub-multiset of the files |
| DiffEngine.ScanOne | fsmon.php:56-84 | scanning a single file is one pass of the loop body |
| DiffEngine.Gone | fsmon.php:88 | `array_diff(array_keys($precache), $checked_ids)`: an id is gone exactly when it is a snapshot key that was not checked |
| DiffEngine.DeletedRecords | fsmon.php:91-92 | one `deleted` record per gone id, in order, carrying the path stored in the snapshot |
| DiffEngine.Reconcile | fsmon.php:56-95 | the scan followed by the deletion pass (unless the snapshot is empty). The deletion pass only appends records after the scan's records, and only removes cache entries, leaving the others as the scan left them |
| DiffEngine.ScanFiles | fsmon.php:56-84 | the in-place scan loop leaves `$checked_ids` equal to the ids of the files, and the cache and records equal to `Scan` |
| DiffEngine.DeleteMissing | fsmon.php:88-95 | with an empty snapshot nothing changes; otherwise every gone id is appended as a `deleted` record and removed from the cache |
| DiffEngine.Diff | fsmon.php:56-95 | the whole in-place reconciliation equals `Reconcile`, and the final cache's keys are exactly the ids of the scanned files |
| DiffEngine.ScanKeys | fsmon.php:64-82 | after the scan the cache keys are the loaded keys plus the id of every scanned file |
| DiffEngine.ScanCrc | fsmon.php:64-82 | with distinct ids, the cache after the scan stores every scanned file's current crc |
| DiffEngine.ScanUnchanged | fsmon.php:64-75 | a cache that already holds every file's current crc makes the scan emit nothing and change nothing |
| DiffEngine.RepeatedFileSilent | fsmon.php:64-75 | a path scanned a second time emits nothing and changes nothing |
| DiffEngine.ScanFirstRun | fsmon.php:76-82 | on an empty cache with distinct ids, every record is `new`, every scanned path has its `new` record, and the number of records is the number of distinct paths (so each path is reported exactly once) |
| DiffEngine.FirstRunStep | fsmon.php:76-82 | on the first run one more file adds a `new` record exactly when it adds a new id, and adds none only when the path was scanned before |
| DiffEngine.SeenBefore | fsmon.php:64-68 | on the first run an id already in the working cache already holds the repeated path's crc |
| DiffEngine.ReconcileKeys | fsmon.php:60-95 | after a run the cache keys are exactly the ids of the files scanned in that run |
| DiffEngine.ReconcileRecords | fsmon.php:56-95 | the records are the scan's `new`/`modified` records in file order, then one `deleted` record per snapshot id not scanned (each exactly once, with the snapshot's path), and none when the snapshot is empty |
| DiffEngine.GoneEmpty | fsmon.php:88-90 | when every snapshot key was checked, nothing is deleted |
| DiffEngine.GoneDistinct | fsmon.php:88 | the ids to delete contain no duplicates when the snapshot keys contain none |
| DiffEngine.IdsCover | fsmon.php:60-62 | `$checked_ids` contains exactly the ids of the scanned files |
| DiffEngine.ReconcileCrc | fsmon.php:56-95 | with distinct ids, the cache a run leaves stores every scanned file's current crc |
| DiffEngine.ReconcileUnchanged | fsmon.php:64-95 | a snapshot that already holds exactly the scanned ids, with current crcs, yields no records and an unchanged cache |
| DiffEngine.Renamed | fsmon.php:56-95 | a file moved from `a` to `b` is reported as `new b` then `deleted a`, and the cache then holds only `b` |
| DiffEngine.Idempotent | fsmon.php:56-95 | a second run over the same files and contents, starting from the first run's cache, reports nothing and leaves the cache as it was |
| TreeWalker.Slash | fsmon.php:308-310 | the slashed path ends in the separator; a path that already ends in one is unchanged, any other gets exactly one separator appended |
| TreeWalker.LastComponent | fsmon.php:317-318 | the last component is the longest suffix of the path without a separator: it holds none and is either the whole path or preceded by a separator |
| TreeWalker.Select | fsmon.php:241-249 | the listing filter returns no more paths than names. A path is kept exactly when it is `dir` plus a listed name that passes the test. Duplicate-free names (as `readdir` yields) give duplicate-free paths, so each kept name gives exactly one path |
| TreeWalker.KeepFile | fsmon.php:244-245 | a name is kept as a file exactly when it is not `.` or `..`, is not a kept directory, and matches the pattern or the pattern is empty; no name is kept both as a file and as a directory |
| TreeWalker.KeepDir | fsmon.php:266 | a name is kept as a directory exactly when it is not `.` or `..` and names a directory of the filesystem |
| TreeWalker.FilesIn | fsmon.php:241-249 | a path is listed exactly when it is a kept file entry of the directory |
| TreeWalker.Children | fsmon.php:264-269 | a path is listed exactly when it is a subdirectory entry of the directory |
| TreeWalker.ScanDirForFiles | fsmon.php:237-253 | the loop returns, in listing order, the non-directory entries other than `.` and `..` whose basename matches the pattern, or all of them when the pattern is empty |
| TreeWalker.ScanDirForDirs | fsmon.php:258-274 | the loop returns, in listing order, the directory entries other than `.` and `..` |
| TreeWalker.Roots | fsmon.php:289-295 | a list of roots is walked as given; a single root is walked alone unless `empty()` holds of it (`""` or `"0"`), in which case nothing is walked |
| TreeWalker.Admitted | fsmon.php:314-322 | a path is walked exactly when its last component does not start with a dot and it is not in the dirs filter (an empty filter excludes nothing) |
| TreeWalker.BuildTree | fsmon.php:286-336 | only appends to `$data`. Every non-skipped root is recorded slashed; every recorded directory is a non-skipped root or subdirectory reached from the roots; every non-skipped subdirectory of a recorded one is recorded; the files added are exactly the kept file entries of the recorded directories |
| TreeWalker.Visit | fsmon.php:322-329 | for a non-skipped root: the accumulator grows by the root's files; `$data['dirs']` is extended by the slashed root and `$data['files']` by the whole accumulator (earlier siblings' files included) before the walk below; and the walk keeps the walk's invariants |
| TreeWalker.LastComponentOfChild | fsmon.php:316-319 | the last component of `dir + name` is `name` when `name` holds no separator |
| TreeWalker.DotChildSkipped | fsmon.php:316-322 | a subdirectory whose name starts with a dot is skipped |
| TreeWalker.DirsSlashed | fsmon.php:308-310 | every recorded directory ends in the separator |
| TreeWalker.SkippedNotRecorded | fsmon.php:314-332 | a skipped directory is not recorded, unless its slashed form is itself a root |
| TreeWalker.NothingBeneathSkipped | fsmon.php:314-332 | when no root lies beneath a skipped directory, no recorded directory and no file found lies beneath it |
| TreeWalker.NotBeneath | fsmon.php:322-329 | a recorded directory lies beneath a skipped one only if a root does |
| TreeWalker.EntryNotSlashed | fsmon.php:265 | a subdirectory path built from a listed name does not end in the separator |
| TreeWalker.ChildrenLonger | fsmon.php:323-329 | subdirectories are longer than their parent, so the recursion terminates |
| Monitor.Loaded | fsmon.php:29-43 | the snapshot and the working cache start as the stored cache, or empty when no cache file exists |
| Monitor.CrcFile | fsmon.php:350-353 | `crc_file` is the checksum of the file's content, or of the empty string when the path names no file |
| Monitor.Run | fsmon.php:29-95 | `first_run` holds exactly when there is no cache file. The tree is the walk from the configured root or list of roots. The cache and records are the reconciliation of the files found, and the cache keys are exactly their ids. On the first run every record is `new` and every file found has its `new` record, one per distinct path. A stored cache that already matches every file yields no records and is kept as is |

## Left out

- Console output, timing, log files, mail and the report formatting (lines 98-162 and the `console` and `mailer` classes) are I/O and floating point. The "no mail on the first run" rule is part of that reporting.
- Reading and writing `.cache` (`unserialize`/`serialize`, `file_put_contents`) are I/O. The stored cache is an input. A cache file that fails to unserialize is not modelled: the code then continues with `false` as the cache and `$first_run` false. The run's cache is a `map`, so the key order PHP keeps for `$cache` is not carried into the next run's `Stored.keys`. That order is: the old keys in place, new ids appended in scan order, deleted ids removed. The next run's `keys` is therefore an input of its own, as `keys2` in `Idempotent` is. It decides only the order of that run's `deleted` records (fsmon.php:88-92).
- Config loading and the server name (lines 10-27) are plumbing. The root (one path or a list of paths, as `$config['root']` may be either), the ignored dirs and the pattern are parameters.
- md5, PHP's `crc32` and PCRE are parameters: `fileId`, `checksum` and `matches`. `IdsDistinguish` is the assumption that md5 does not collide on the scanned paths. Only the lemmas that need it require it.
- `readdir` order is the order of the `entries` sequence; the model does not fix it.
- A directory that cannot be opened lists as empty. On a failed `opendir`, `readdir(false)` either loops (PHP 7) or raises a type error (PHP 8); neither is modelled.
- Symbolic links, and so cycles in the tree, are not modelled. The filesystem is a finite map whose directory entries are non-empty names without a separator (`WellFormed`).
- The `$dirs` accumulator and its second `scan_dir_for_dirs` call (line 324) are never read, so they are left out.
- `in_array` in `build_tree` uses loose comparison. The model uses string equality. The two agree for paths that hold a separator, but not for separator-free numeric roots: loosely, "10" equals "1e1" and "010" equals "10".
- `empty($data)` initialisation (lines 300-303): `BuildTree` takes the buffer already holding both lists. The top-level call passes two empty lists.
- `Monitor.Run`: reading a path that is not a file gives the empty content, so the checksum of "" is stored.
- The size and modification time of a change record are read at report time and are left out.
