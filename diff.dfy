/**
 * The change-detection step of FSMon: a fresh list of scanned files is
 * reconciled against the checksum cache loaded from the previous run.
 *
 * The cache maps a file id (the md5 of the path) to the file's last known
 * CRC-32 and path. It starts as a copy of the loaded snapshot (`precache`),
 * is updated in place for every scanned file, and finally loses every id of
 * the snapshot that no scanned file produced. Each change is reported as a
 * record `new`, `modified` or `deleted`.
 *
 * The hash functions are parameters: `fileId` stands for md5 of the path,
 * `crcOf` for the unsigned CRC-32 of the file's content at scan time.
 */
module DiffEngine {
  import opened TreeWalker

  /** The file id: the hex md5 of the path. */
  type Id = string

  /** `sprintf("%u", crc32(...))`: an unsigned 32-bit value. */
  type Crc32 = x: nat | x < 0x1_0000_0000

  /** A cache entry, `['crc' => ..., 'file' => ...]`. */
  datatype Entry = Entry(crc: Crc32, file: Path)

  type Cache = map<Id, Entry>

  datatype Change = New | Modified | Deleted

  /** One element of `$result`: `['file' => ..., 'result' => ...]`. */
  datatype Record = Record(file: Path, result: Change)

  /** The working cache together with the records emitted so far. */
  datatype Outcome = Outcome(cache: Cache, records: seq<Record>)

  /** `$checked_ids`: the id of every scanned file, in scan order. */
  function Ids(files: seq<Path>, fileId: Path -> Id): (ids: seq<Id>)
    ensures |ids| == |files|
    ensures forall i :: 0 <= i < |files| ==> ids[i] == fileId(files[i])
  {
    seq(|files|, i requires 0 <= i < |files| => fileId(files[i]))
  }

  /** The set of ids of the scanned files. */
  ghost function IdSet(files: seq<Path>, fileId: Path -> Id): set<Id>
  {
    set f | f in files :: fileId(f)
  }

  /** `keys` is the enumeration order of the snapshot's keys: each key once. */
  ghost predicate KeyOrder(precache: Cache, keys: seq<Id>)
  {
    && (forall k :: k in keys <==> k in precache)
    && Distinct(keys)
  }

  /** No two distinct scanned paths share an id (md5 is assumed not to collide on them). */
  ghost predicate IdsDistinguish(files: seq<Path>, fileId: Path -> Id)
  {
    forall a, b :: a in files && b in files && fileId(a) == fileId(b) ==> a == b
  }

  /**
   * The body of the scan loop for one file: a `new` record and an insertion
   * when its id is absent from the working cache, a `modified` record and an
   * overwrite when the stored crc differs, and nothing otherwise.
   */
  function Step(cache: Cache, f: Path, fileId: Path -> Id, crcOf: Path -> Crc32): (o: Outcome)
    // only the file's own entry may change, and afterwards it holds the file's crc
    ensures o.cache.Keys == cache.Keys + {fileId(f)}
    ensures o.cache[fileId(f)].crc == crcOf(f)
    ensures forall k :: k in cache && k != fileId(f) ==> o.cache[k] == cache[k]
    // a record is emitted exactly when the id is new or its stored crc differs,
    // and exactly when the cache changes
    ensures o.records == [] <==> fileId(f) in cache && cache[fileId(f)].crc == crcOf(f)
    ensures o.records == [] <==> o.cache == cache
    ensures o.records != [] ==>
      && o.records == [Record(f, if fileId(f) in cache then Modified else New)]
      && o.cache[fileId(f)] == Entry(crcOf(f), f)
  {
    var id := fileId(f);
    if id in cache then
      if cache[id].crc != crcOf(f) then
        Outcome(cache[id := Entry(crcOf(f), f)], [Record(f, Modified)])
      else
        Outcome(cache, [])
    else
      Outcome(cache[id := Entry(crcOf(f), f)], [Record(f, New)])
  }

  /** The path of each record, in order. */
  function RecordFiles(rs: seq<Record>): (ps: seq<Path>)
    ensures |ps| == |rs|
    ensures forall i :: 0 <= i < |rs| ==> ps[i] == rs[i].file
  {
    seq(|rs|, i requires 0 <= i < |rs| => rs[i].file)
  }

  /** The scan loop over `files`, starting from `cache`. */
  function Scan(cache: Cache, files: seq<Path>, fileId: Path -> Id, crcOf: Path -> Crc32): (o: Outcome)
    ensures |o.records| <= |files|
    ensures forall r :: r in o.records ==> r.result != Deleted && r.file in files
    ensures forall k :: k in cache ==> k in o.cache
    decreases |files|
  {
    if files == [] then Outcome(cache, [])
    else
      var prev := Scan(cache, files[..|files| - 1], fileId, crcOf);
      var last := Step(prev.cache, files[|files| - 1], fileId, crcOf);
      Outcome(last.cache, prev.records + last.records)
  }

  /**
   * The ids of the snapshot that no scanned file produced, in snapshot order:
   * `array_diff(array_keys($precache), $checked_ids)`.
   */
  function Gone(keys: seq<Id>, checked: seq<Id>): (gone: seq<Id>)
    ensures forall k :: k in gone <==> k in keys && k !in checked
    decreases |keys|
  {
    if keys == [] then []
    else if keys[|keys| - 1] in checked then Gone(keys[..|keys| - 1], checked)
    else Gone(keys[..|keys| - 1], checked) + [keys[|keys| - 1]]
  }

  /** One `deleted` record per gone id, carrying the path stored in the snapshot. */
  function DeletedRecords(precache: Cache, gone: seq<Id>): (rs: seq<Record>)
    requires forall k :: k in gone ==> k in precache
    ensures |rs| == |gone|
    ensures forall j :: 0 <= j < |gone| ==> rs[j] == Record(precache[gone[j]].file, Deleted)
  {
    seq(|gone|, j requires 0 <= j < |gone| => Record(precache[gone[j]].file, Deleted))
  }

  /**
   * The whole reconciliation (lines 56-95): scan every file against the
   * working cache, then, unless the snapshot is empty, report and remove
   * every snapshot id that was not checked.
   */
  function Reconcile(precache: Cache, keys: seq<Id>, files: seq<Path>,
                     fileId: Path -> Id, crcOf: Path -> Crc32): (o: Outcome)
    requires KeyOrder(precache, keys)
    // the deletion pass only appends records after the scan's and only removes entries
    ensures Scan(precache, files, fileId, crcOf).records <= o.records
    ensures o.cache.Keys <= Scan(precache, files, fileId, crcOf).cache.Keys
    ensures forall k :: k in o.cache ==> o.cache[k] == Scan(precache, files, fileId, crcOf).cache[k]
  {
    var scanned := Scan(precache, files, fileId, crcOf);
    if |precache| == 0 then scanned
    else
      var gone := Gone(keys, Ids(files, fileId));
      Outcome(scanned.cache - (set k | k in gone), scanned.records + DeletedRecords(precache, gone))
  }

  /**
   * The scan loop (lines 56-84): `cache` is updated in place and every
   * scanned file's id is appended to `checkedIds`.
   */
  method ScanFiles(precache: Cache, files: seq<Path>, fileId: Path -> Id, crcOf: Path -> Crc32)
    returns (cache: Cache, result: seq<Record>, checkedIds: seq<Id>)
    ensures checkedIds == Ids(files, fileId)
    ensures Outcome(cache, result) == Scan(precache, files, fileId, crcOf)
  {
    cache := precache;
    result := [];
    checkedIds := [];
    var i := 0;
    while i < |files|
      invariant 0 <= i <= |files|
      invariant |checkedIds| == i
      invariant forall k :: 0 <= k < i ==> checkedIds[k] == fileId(files[k])
      invariant Outcome(cache, result) == Scan(precache, files[..i], fileId, crcOf)
    {
      var f := files[i];
      var id := fileId(f);
      checkedIds := checkedIds + [id];
      if id in cache {
        var csumm := crcOf(f);
        if cache[id].crc != csumm {
          cache := cache[id := Entry(csumm, f)];
          result := result + [Record(f, Modified)];
        }
      } else {
        var csumm := crcOf(f);
        cache := cache[id := Entry(csumm, f)];
        result := result + [Record(f, New)];
      }
      assert files[..i + 1][..i] == files[..i];
      i := i + 1;
    }
    assert files[..i] == files;
  }

  /**
   * The deletion pass (lines 88-95): unless the snapshot is empty, every
   * snapshot id missing from `checkedIds` is reported with the snapshot's
   * path and removed from `cache`.
   */
  method DeleteMissing(precache: Cache, keys: seq<Id>, checkedIds: seq<Id>,
                       scannedCache: Cache, scannedRecords: seq<Record>)
    returns (cache: Cache, result: seq<Record>)
    requires KeyOrder(precache, keys)
    ensures |precache| == 0 ==> cache == scannedCache && result == scannedRecords
    ensures |precache| != 0 ==>
      var gone := Gone(keys, checkedIds);
      && cache == scannedCache - (set k | k in gone)
      && result == scannedRecords + DeletedRecords(precache, gone)
  {
    cache, result := scannedCache, scannedRecords;
    if |precache| != 0 {
      ghost var gone: seq<Id> := [];
      var j := 0;
      while j < |keys|
        invariant 0 <= j <= |keys|
        invariant gone == Gone(keys[..j], checkedIds)
        invariant cache == scannedCache - (set k | k in gone)
        invariant result == scannedRecords + DeletedRecords(precache, gone)
      {
        var id := keys[j];
        if id !in checkedIds {
          result := result + [Record(precache[id].file, Deleted)];
          cache := cache - {id};
          gone := gone + [id];
        }
        assert keys[..j + 1][..j] == keys[..j];
        j := j + 1;
      }
      assert keys[..j] == keys;
    }
  }

  /**
   * The reconciliation as the program runs it: the scan loop, then the
   * deletion pass, on one working cache that starts as the snapshot.
   */
  method Diff(precache: Cache, keys: seq<Id>, files: seq<Path>,
              fileId: Path -> Id, crcOf: Path -> Crc32)
    returns (cache: Cache, result: seq<Record>, checkedIds: seq<Id>)
    requires KeyOrder(precache, keys)
    ensures checkedIds == Ids(files, fileId)
    ensures Outcome(cache, result) == Reconcile(precache, keys, files, fileId, crcOf)
    ensures cache.Keys == IdSet(files, fileId)
  {
    var scannedCache, scannedRecords;
    scannedCache, scannedRecords, checkedIds := ScanFiles(precache, files, fileId, crcOf);
    cache, result := DeleteMissing(precache, keys, checkedIds, scannedCache, scannedRecords);
    ReconcileKeys(precache, keys, files, fileId, crcOf);
  }

  // ---------------------------------------------------------------------
  // Properties of the scan loop
  // ---------------------------------------------------------------------

  /** After the scan the cache holds the loaded ids plus the id of every scanned file. */
  lemma {:induction false} ScanKeys(cache: Cache, files: seq<Path>, fileId: Path -> Id, crcOf: Path -> Crc32)
    ensures Scan(cache, files, fileId, crcOf).cache.Keys == cache.Keys + IdSet(files, fileId)
    decreases |files|
  {
    if files != [] {
      var init := files[..|files| - 1];
      ScanKeys(cache, init, fileId, crcOf);
      assert files == init + [files[|files| - 1]];
      IdSetSnoc(init, files[|files| - 1], fileId);
    }
  }

  /**
   * When the scanned paths have distinct ids, the cache afterwards stores,
   * for every scanned file, the crc of that file.
   */
  lemma {:induction false} ScanCrc(cache: Cache, files: seq<Path>, fileId: Path -> Id, crcOf: Path -> Crc32)
    requires IdsDistinguish(files, fileId)
    ensures forall f :: f in files ==>
      fileId(f) in Scan(cache, files, fileId, crcOf).cache &&
      Scan(cache, files, fileId, crcOf).cache[fileId(f)].crc == crcOf(f)
    decreases |files|
  {
    if files != [] {
      var init := files[..|files| - 1];
      var last := files[|files| - 1];
      assert IdsDistinguish(init, fileId) by {
        forall a, b | a in init && b in init && fileId(a) == fileId(b) ensures a == b {
          assert a in files && b in files;
        }
      }
      ScanCrc(cache, init, fileId, crcOf);
      forall f | f in files
        ensures fileId(f) in Scan(cache, files, fileId, crcOf).cache
        ensures Scan(cache, files, fileId, crcOf).cache[fileId(f)].crc == crcOf(f)
      {
        if f != last {
          assert f in init by { assert files == init + [last]; }
        }
      }
    }
  }

  /**
   * The scan emits at most one record per occurrence of a path in the file
   * list: the records' paths form a sub-multiset of the files.
   */
  lemma {:induction false} ScanOnePerFile(cache: Cache, files: seq<Path>, fileId: Path -> Id, crcOf: Path -> Crc32)
    ensures multiset(RecordFiles(Scan(cache, files, fileId, crcOf).records)) <= multiset(files)
    decreases |files|
  {
    if files != [] {
      var init, f := files[..|files| - 1], files[|files| - 1];
      var prev := Scan(cache, init, fileId, crcOf);
      var last := Step(prev.cache, f, fileId, crcOf);
      ScanOnePerFile(cache, init, fileId, crcOf);
      assert files == init + [f];
      assert RecordFiles(prev.records + last.records) == RecordFiles(prev.records) + RecordFiles(last.records);
      assert RecordFiles(last.records) == [] || RecordFiles(last.records) == [f];
    }
  }

  /** Scanning from a cache that already agrees with every file changes nothing. */
  lemma {:induction false} ScanUnchanged(cache: Cache, files: seq<Path>, fileId: Path -> Id, crcOf: Path -> Crc32)
    requires forall f :: f in files ==> fileId(f) in cache && cache[fileId(f)].crc == crcOf(f)
    ensures Scan(cache, files, fileId, crcOf) == Outcome(cache, [])
    decreases |files|
  {
    if files != [] {
      var init := files[..|files| - 1];
      assert forall f :: f in init ==> f in files;
      ScanUnchanged(cache, init, fileId, crcOf);
    }
  }

  /**
   * A path listed a second time (the walker lists a file again when a later
   * sibling root is merged) hits the equal-crc branch: it reports nothing
   * and changes nothing.
   */
  lemma RepeatedFileSilent(cache: Cache, files: seq<Path>, f: Path, fileId: Path -> Id, crcOf: Path -> Crc32)
    requires IdsDistinguish(files, fileId)
    requires f in files
    ensures Scan(cache, files + [f], fileId, crcOf) == Scan(cache, files, fileId, crcOf)
  {
    assert (files + [f])[..|files|] == files;
    ScanCrc(cache, files, fileId, crcOf);
  }

  /**
   * On an empty cache (the first run), when the scanned paths have distinct
   * ids, every record is `new` and there is one per distinct scanned path.
   */
  lemma {:induction false} ScanFirstRun(files: seq<Path>, fileId: Path -> Id, crcOf: Path -> Crc32)
    requires IdsDistinguish(files, fileId)
    ensures forall r :: r in Scan(map[], files, fileId, crcOf).records ==> r.result == New
    ensures forall f :: f in files ==> Record(f, New) in Scan(map[], files, fileId, crcOf).records
    ensures |Scan(map[], files, fileId, crcOf).records| == |IdSet(files, fileId)|
    decreases |files|
  {
    if files != [] {
      var init := files[..|files| - 1];
      var last := files[|files| - 1];
      assert files == init + [last];
      assert IdsDistinguish(init, fileId) by {
        forall a, b | a in init && b in init && fileId(a) == fileId(b) ensures a == b {
          assert a in files && b in files;
        }
      }
      ScanFirstRun(init, fileId, crcOf);
      FirstRunStep(init, last, fileId, crcOf);
      var prev := Scan(map[], init, fileId, crcOf);
      forall f | f in files ensures Record(f, New) in Scan(map[], files, fileId, crcOf).records {
        if f in init {
          assert Record(f, New) in prev.records;
        }
      }
    }
  }

  /**
   * One more file on the first run: a `new` record exactly when its id is
   * new, and otherwise the path was scanned before.
   */
  lemma FirstRunStep(init: seq<Path>, last: Path, fileId: Path -> Id, crcOf: Path -> Crc32)
    requires IdsDistinguish(init + [last], fileId)
    ensures var prev := Scan(map[], init, fileId, crcOf);
            var step := Step(prev.cache, last, fileId, crcOf);
            && (step.records == [] || step.records == [Record(last, New)])
            && (step.records == [] ==> last in init)
            && |IdSet(init + [last], fileId)| == |IdSet(init, fileId)| + |step.records|
  {
    var prev := Scan(map[], init, fileId, crcOf);
    var id := fileId(last);
    IdSetSnoc(init, last, fileId);
    ScanKeys(map[], init, fileId, crcOf);
    if id in prev.cache {
      SeenBefore(init, last, fileId, crcOf);
      assert IdSet(init + [last], fileId) == IdSet(init, fileId);
      var g :| g in init && fileId(g) == id;
      assert g in init + [last] && last in init + [last];
    } else {
      assert id !in IdSet(init, fileId);
    }
  }

  lemma IdSetSnoc(init: seq<Path>, last: Path, fileId: Path -> Id)
    ensures IdSet(init + [last], fileId) == IdSet(init, fileId) + {fileId(last)}
  {
    var files := init + [last];
    forall f | f in files ensures f in init || f == last { }
    forall f | f in init ensures f in files { }
  }

  /**
   * On the first run, a file whose id is already in the working cache is a
   * repeat of an earlier path, so the cache already holds its crc.
   */
  lemma SeenBefore(init: seq<Path>, last: Path, fileId: Path -> Id, crcOf: Path -> Crc32)
    requires IdsDistinguish(init + [last], fileId)
    requires fileId(last) in Scan(map[], init, fileId, crcOf).cache
    ensures Scan(map[], init, fileId, crcOf).cache[fileId(last)].crc == crcOf(last)
  {
    var files := init + [last];
    assert IdsDistinguish(init, fileId) by {
      forall a, b | a in init && b in init && fileId(a) == fileId(b) ensures a == b {
        assert a in files && b in files;
      }
    }
    ScanKeys(map[], init, fileId, crcOf);
    var g :| g in init && fileId(g) == fileId(last);
    assert g in files && last in files;
    ScanCrc(map[], init, fileId, crcOf);
  }

  // ---------------------------------------------------------------------
  // Properties of the whole reconciliation
  // ---------------------------------------------------------------------

  /**
   * The cache after a run holds exactly the ids of the files scanned in that
   * run: no stale entry for a deleted file, none missing for a file seen.
   */
  lemma ReconcileKeys(precache: Cache, keys: seq<Id>, files: seq<Path>,
                      fileId: Path -> Id, crcOf: Path -> Crc32)
    requires KeyOrder(precache, keys)
    ensures Reconcile(precache, keys, files, fileId, crcOf).cache.Keys == IdSet(files, fileId)
  {
    ScanKeys(precache, files, fileId, crcOf);
    IdsCover(files, fileId);
  }

  /**
   * The records are the scan's `new`/`modified` records in scan order,
   * followed by the `deleted` records; the deletions are one per snapshot id
   * that no scanned file produced (each such id exactly once), each carrying
   * the path stored in the snapshot, and there are none when the snapshot is
   * empty.
   */
  lemma ReconcileRecords(precache: Cache, keys: seq<Id>, files: seq<Path>,
                         fileId: Path -> Id, crcOf: Path -> Crc32)
    requires KeyOrder(precache, keys)
    ensures var o := Reconcile(precache, keys, files, fileId, crcOf);
            var scanned := Scan(precache, files, fileId, crcOf).records;
            var gone := if |precache| == 0 then [] else Gone(keys, Ids(files, fileId));
            && o.records == scanned + DeletedRecords(precache, gone)
            && (forall k :: k in gone <==> k in precache && k !in IdSet(files, fileId))
            && Distinct(gone)
  {
    ReconcileKeys(precache, keys, files, fileId, crcOf);
    var checked := Ids(files, fileId);
    if |precache| != 0 {
      GoneDistinct(keys, checked);
      IdsCover(files, fileId);
    }
  }

  /** Nothing is gone when every key was checked. */
  lemma {:induction false} GoneEmpty(keys: seq<Id>, checked: seq<Id>)
    requires forall k :: k in keys ==> k in checked
    ensures Gone(keys, checked) == []
    decreases |keys|
  {
    if keys != [] {
      assert keys[|keys| - 1] in keys;
      GoneEmpty(keys[..|keys| - 1], checked);
    }
  }

  /** Filtering a duplicate-free key sequence keeps it duplicate-free. */
  lemma {:induction false} GoneDistinct(keys: seq<Id>, checked: seq<Id>)
    requires Distinct(keys)
    ensures Distinct(Gone(keys, checked))
    decreases |keys|
  {
    if keys != [] {
      var init := keys[..|keys| - 1];
      var last := keys[|keys| - 1];
      forall i, j | 0 <= i < j < |init| ensures init[i] != init[j] {
        assert init[i] == keys[i] && init[j] == keys[j];
      }
      GoneDistinct(init, checked);
      var prev := Gone(init, checked);
      if last !in checked {
        assert Gone(keys, checked) == prev + [last];
        assert last !in prev;
        var gone := prev + [last];
        forall i, j | 0 <= i < j < |gone| ensures gone[i] != gone[j] {
          if j == |prev| {
            assert gone[j] == last && gone[i] == prev[i];
          } else {
            assert gone[i] == prev[i] && gone[j] == prev[j];
          }
        }
      }
    }
  }

  /** `$checked_ids` holds exactly the ids of the scanned files. */
  lemma IdsCover(files: seq<Path>, fileId: Path -> Id)
    ensures forall k :: k in Ids(files, fileId) <==> k in IdSet(files, fileId)
  {
    var checked := Ids(files, fileId);
    forall k | k in checked ensures k in IdSet(files, fileId) {
      var i :| 0 <= i < |checked| && checked[i] == k;
      assert files[i] in files;
    }
    forall k | k in IdSet(files, fileId) ensures k in checked {
      var f :| f in files && fileId(f) == k;
      var i :| 0 <= i < |files| && files[i] == f;
      assert checked[i] == k;
    }
  }

  /**
   * When the scanned paths have distinct ids, the cache a run leaves stores
   * the current crc of every scanned file.
   */
  lemma ReconcileCrc(precache: Cache, keys: seq<Id>, files: seq<Path>,
                     fileId: Path -> Id, crcOf: Path -> Crc32)
    requires KeyOrder(precache, keys)
    requires IdsDistinguish(files, fileId)
    ensures var c := Reconcile(precache, keys, files, fileId, crcOf).cache;
            forall f :: f in files ==> fileId(f) in c && c[fileId(f)].crc == crcOf(f)
  {
    ScanCrc(precache, files, fileId, crcOf);
    var checked := Ids(files, fileId);
    forall f | f in files ensures fileId(f) in checked {
      var i :| 0 <= i < |files| && files[i] == f;
      assert checked[i] == fileId(f);
    }
  }

  /**
   * A run whose snapshot already holds exactly the scanned ids, each with the
   * file's current crc, reports nothing and changes nothing.
   */
  lemma ReconcileUnchanged(cache: Cache, keys: seq<Id>, files: seq<Path>,
                           fileId: Path -> Id, crcOf: Path -> Crc32)
    requires KeyOrder(cache, keys)
    requires cache.Keys == IdSet(files, fileId)
    requires forall f :: f in files ==> fileId(f) in cache && cache[fileId(f)].crc == crcOf(f)
    ensures Reconcile(cache, keys, files, fileId, crcOf) == Outcome(cache, [])
  {
    ScanUnchanged(cache, files, fileId, crcOf);
    if |cache| != 0 {
      IdsCover(files, fileId);
      var gone := Gone(keys, Ids(files, fileId));
      GoneEmpty(keys, Ids(files, fileId));
      assert Scan(cache, files, fileId, crcOf) == Outcome(cache, []);
      assert (set k | k in gone) == {};
    }
  }

  /** Scanning a single file is one step of the loop. */
  lemma ScanOne(cache: Cache, f: Path, fileId: Path -> Id, crcOf: Path -> Crc32)
    ensures Scan(cache, [f], fileId, crcOf) == Step(cache, f, fileId, crcOf)
  {
    assert [f][..0] == [];
    assert Scan(cache, [], fileId, crcOf) == Outcome(cache, []);
  }

  /**
   * A file moved from `a` to `b` (distinct ids) is reported as a new `b`
   * followed by a deleted `a`, and the cache then holds only `b`.
   */
  lemma Renamed(a: Path, b: Path, c: Crc32, fileId: Path -> Id, crcOf: Path -> Crc32)
    requires fileId(a) != fileId(b)
    ensures var o := Reconcile(map[fileId(a) := Entry(c, a)], [fileId(a)], [b], fileId, crcOf);
            && o.records == [Record(b, New), Record(a, Deleted)]
            && o.cache == map[fileId(b) := Entry(crcOf(b), b)]
  {
    var precache := map[fileId(a) := Entry(c, a)];
    ScanOne(precache, b, fileId, crcOf);
    assert fileId(b) !in precache;
    var scanned := Scan(precache, [b], fileId, crcOf);
    assert scanned.records == [Record(b, New)];
    var checked := Ids([b], fileId);
    assert checked == [fileId(b)];
    assert [fileId(a)][..0] == [];
    assert Gone([fileId(a)], checked) == [fileId(a)];
  }

  /**
   * Idempotence: when the scanned paths have distinct ids, a second run over
   * the same files and contents, whose snapshot is the cache the first run
   * left, reports nothing and leaves the cache as it was.
   */
  lemma Idempotent(precache: Cache, keys: seq<Id>, files: seq<Path>,
                   fileId: Path -> Id, crcOf: Path -> Crc32, keys2: seq<Id>)
    requires KeyOrder(precache, keys)
    requires IdsDistinguish(files, fileId)
    requires KeyOrder(Reconcile(precache, keys, files, fileId, crcOf).cache, keys2)
    ensures var first := Reconcile(precache, keys, files, fileId, crcOf);
            Reconcile(first.cache, keys2, files, fileId, crcOf) == Outcome(first.cache, [])
  {
    ReconcileCrc(precache, keys, files, fileId, crcOf);
    ReconcileKeys(precache, keys, files, fileId, crcOf);
    ReconcileUnchanged(Reconcile(precache, keys, files, fileId, crcOf).cache, keys2, files, fileId, crcOf);
  }
}
