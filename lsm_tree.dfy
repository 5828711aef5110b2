/** The LSM tree: a sorted in-memory memtable that is flushed, once it holds
    more than `memtable_max_size` keys, to a numbered segment file in the
    storage directory, together with a sparse index from the first key of
    every chunk of `records_per_index` entries to (segment number, byte
    offset). Reads consult the memtable only. */
module LsmTree {
  import opened OrderedMap
  import opened Chunking
  import opened FileStore
  import opened Segment

  datatype Option<T> = None | Some(value: T)

  /** A flush whose segment bytes are `bytes` fails under `fault`: `File::create`
      is refused, or `write_all` stops before the end of `bytes`. */
  predicate FlushFails(bytes: seq<byte>, fault: Fault) {
    fault == CreateFails || WriteFails(bytes, fault)
  }

  /** The error a flush reports when its file operations fail under `fault`. */
  function FlushError(fault: Fault): IoError {
    if fault == CreateFails then CreateFailed else WriteFailed
  }

  /** `paths` are the segment paths `dir/0`, `dir/1`, ... in order. */
  ghost predicate NumberedPaths(dir: string, paths: seq<Path>) {
    forall i :: 0 <= i < |paths| ==> paths[i] == SegmentPath(dir, i)
  }

  /** Appending the path of the next segment keeps the numbering. */
  lemma NumberedPathsAppend(dir: string, paths: seq<Path>)
    requires NumberedPaths(dir, paths)
    ensures NumberedPaths(dir, paths + [SegmentPath(dir, |paths|)])
  {
    var paths' := paths + [SegmentPath(dir, |paths|)];
    forall i | 0 <= i < |paths'| ensures paths'[i] == SegmentPath(dir, i) {
      if i < |paths| {
        assert paths'[i] == paths[i];
      }
    }
  }

  /** Segment file `i` of directory `dir` holds the bytes flushed from the
      memtable snapshot `flushed[i]`, for every segment written so far. */
  ghost predicate SegmentsOnDisk<V>(files: map<Path, seq<byte>>, dir: string, flushed: seq<map<int, V>>,
                                    r: nat, encode: Encoder<V>)
    requires r > 0
  {
    forall i :: 0 <= i < |flushed| ==> FileHolds(files, SegmentPath(dir, i), SegmentBytes(flushed[i], r, encode))
  }

  /** File `p` exists and holds exactly `b`. */
  ghost predicate FileHolds(files: map<Path, seq<byte>>, p: Path, b: seq<byte>) {
    p in files && files[p] == b
  }

  /** Every index entry is one that the flush of the segment it names wrote. */
  ghost predicate IndexSound<V>(index: map<int, (nat, nat)>, flushed: seq<map<int, V>>, r: nat, encode: Encoder<V>)
    requires r > 0
  {
    forall k :: k in index ==>
      && index[k].0 < |flushed|
      && k in SegmentIndex(flushed[index[k].0], r, index[k].0, encode)
      && SegmentIndex(flushed[index[k].0], r, index[k].0, encode)[k] == index[k]
  }

  /** Writing the file of the next segment, whatever it receives, leaves the
      earlier segment files as they were. */
  lemma SegmentsOnDiskNextFile<V>(files: map<Path, seq<byte>>, dir: string, flushed: seq<map<int, V>>,
                                  r: nat, encode: Encoder<V>, data: seq<byte>)
    requires r > 0
    requires SegmentsOnDisk(files, dir, flushed, r, encode)
    ensures SegmentsOnDisk(files[SegmentPath(dir, |flushed|) := data], dir, flushed, r, encode)
  {
    var p := SegmentPath(dir, |flushed|);
    forall i | 0 <= i < |flushed|
      ensures FileHolds(files[p := data], SegmentPath(dir, i), SegmentBytes(flushed[i], r, encode))
    {
      DecimalStringInjective(i, |flushed|);
    }
  }

  /** A flush of memtable `m` as the next segment extends the segments on disk
      by `m`. */
  lemma SegmentsOnDiskFlush<V>(files: map<Path, seq<byte>>, dir: string, flushed: seq<map<int, V>>,
                               r: nat, encode: Encoder<V>, m: map<int, V>)
    requires r > 0
    requires SegmentsOnDisk(files, dir, flushed, r, encode)
    ensures SegmentsOnDisk(files[SegmentPath(dir, |flushed|) := SegmentBytes(m, r, encode)], dir,
                           flushed + [m], r, encode)
  {
    var b := SegmentBytes(m, r, encode);
    var files' := files[SegmentPath(dir, |flushed|) := b];
    SegmentsOnDiskNextFile(files, dir, flushed, r, encode, b);
    var flushed' := flushed + [m];
    forall i | 0 <= i < |flushed'|
      ensures FileHolds(files', SegmentPath(dir, i), SegmentBytes(flushed'[i], r, encode))
    {
      if i < |flushed| {
        assert flushed'[i] == flushed[i];
        assert FileHolds(files', SegmentPath(dir, i), SegmentBytes(flushed[i], r, encode));
      } else {
        assert i == |flushed| && flushed'[i] == m;
      }
    }
  }

  /** Merging the entries of the next segment's flush into a sound index
      (`index.extend`) keeps it sound: an old entry either survives, still
      pointing at its own segment, or is replaced by a new one. */
  lemma IndexSoundFlush<V>(index: map<int, (nat, nat)>, flushed: seq<map<int, V>>, r: nat,
                           encode: Encoder<V>, m: map<int, V>)
    requires r > 0
    requires IndexSound(index, flushed, r, encode)
    ensures IndexSound(index + SegmentIndex(m, r, |flushed|, encode), flushed + [m], r, encode)
  {
    var added := SegmentIndex(m, r, |flushed|, encode);
    var index' := index + added;
    var flushed' := flushed + [m];
    forall k | k in index'
      ensures index'[k].0 < |flushed'|
      ensures k in SegmentIndex(flushed'[index'[k].0], r, index'[k].0, encode)
      ensures SegmentIndex(flushed'[index'[k].0], r, index'[k].0, encode)[k] == index'[k]
    {
      if k in added {
        SegmentIndexKeys(m, r, |flushed|, encode, k);
        assert flushed'[|flushed|] == m;
      } else {
        assert index'[k] == index[k];
        assert flushed'[index[k].0] == flushed[index[k].0];
      }
    }
  }

  /** The tree's invariant, over the values of its fields: the storage
      directory exists; there is one segment path and one flushed snapshot per
      segment number handed out; the paths are `dir/0`, `dir/1`, ... in order;
      each segment file holds the bytes its flush wrote; every index entry is
      one that the flush of its segment produced. */
  ghost predicate TreeInv<V>(dir: string, dirs: set<string>, segments: seq<Path>, n: nat,
                             flushed: seq<map<int, V>>, files: map<Path, seq<byte>>,
                             index: map<int, (nat, nat)>, r: nat, encode: Encoder<V>)
    requires r > 0
  {
    && dir in dirs
    && |segments| == n == |flushed|
    && NumberedPaths(dir, segments)
    && SegmentsOnDisk(files, dir, flushed, r, encode)
    && IndexSound(index, flushed, r, encode)
  }

  /** A successful flush of memtable `m` as segment `n` keeps the invariant: the
      path `dir/n` is appended, the counter moves on, the file holds the segment
      bytes and the segment's entries are merged into the index. */
  lemma TreeInvFlush<V>(dir: string, dirs: set<string>, segments: seq<Path>, n: nat,
                        flushed: seq<map<int, V>>, files: map<Path, seq<byte>>,
                        index: map<int, (nat, nat)>, r: nat, encode: Encoder<V>, m: map<int, V>)
    requires r > 0
    requires TreeInv(dir, dirs, segments, n, flushed, files, index, r, encode)
    ensures TreeInv(dir, dirs, segments + [SegmentPath(dir, n)], n + 1, flushed + [m],
                    files[SegmentPath(dir, n) := SegmentBytes(m, r, encode)],
                    index + SegmentIndex(m, r, n, encode), r, encode)
  {
    SegmentsOnDiskFlush(files, dir, flushed, r, encode, m);
    IndexSoundFlush(index, flushed, r, encode, m);
    NumberedPathsAppend(dir, segments);
  }

  /** A flush that fails after creating file `dir/n` keeps the invariant,
      whatever that file then holds: no segment and no index entry refers to it. */
  lemma TreeInvFailedWrite<V>(dir: string, dirs: set<string>, segments: seq<Path>, n: nat,
                              flushed: seq<map<int, V>>, files: map<Path, seq<byte>>,
                              index: map<int, (nat, nat)>, r: nat, encode: Encoder<V>, data: seq<byte>)
    requires r > 0
    requires TreeInv(dir, dirs, segments, n, flushed, files, index, r, encode)
    ensures TreeInv(dir, dirs, segments, n, flushed, files[SegmentPath(dir, n) := data], index, r, encode)
  {
    SegmentsOnDiskNextFile(files, dir, flushed, r, encode, data);
  }

  /** What an index entry promises, given the invariant: segment `s` exists, its
      file holds the encoding of the memtable flushed as segment `s` at offset
      `o`, and the key was in that memtable. (The encoding found there is that
      of the WHOLE flushed memtable, one copy per chunk.) */
  lemma IndexEntryInSegment<V>(index: map<int, (nat, nat)>, files: map<Path, seq<byte>>, dir: string,
                               flushed: seq<map<int, V>>, r: nat, encode: Encoder<V>, k: int)
    requires r > 0
    requires SegmentsOnDisk(files, dir, flushed, r, encode)
    requires IndexSound(index, flushed, r, encode)
    requires k in index
    ensures index[k].0 < |flushed|
    ensures k in flushed[index[k].0]
    ensures SegmentPath(dir, index[k].0) in files
    ensures HoldsAt(files[SegmentPath(dir, index[k].0)], index[k].1, encode(Entries(flushed[index[k].0])))
  {
    var s := index[k].0;
    var m := flushed[s];
    var p := SegmentPath(dir, s);
    assert p in files && files[p] == SegmentBytes(m, r, encode);
    assert k in SegmentIndex(m, r, s, encode) && SegmentIndex(m, r, s, encode)[k] == index[k];
    SegmentIndexKeys(m, r, s, encode, k);
    SegmentIndexPayload(m, r, s, encode, k);
  }

  /** The loop of `write_new_segment` over the memtable snapshot `memtableVec`:
      it walks the chunks of `r` entries; for each chunk it notes the buffer
      length, appends the encoding of the whole snapshot and indexes the chunk's
      first key at that length in segment `segmentNum`. The result is the
      segment's bytes and index entries. */
  method EncodeChunks<V>(memtableVec: seq<(int, V)>, r: nat, segmentNum: nat, encode: Encoder<V>)
    returns (buffer: seq<byte>, newIndex: map<int, (nat, nat)>)
    requires r > 0
    ensures buffer == Repeat(encode(memtableVec), |Chunks(memtableVec, r)|)
    ensures newIndex == ChunkIndex(Chunks(memtableVec, r), segmentNum, encode(memtableVec))
  {
    buffer := [];
    newIndex := map[];
    var chunks: seq<seq<(int, V)>> := Chunks(memtableVec, r);
    var i := 0;
    while i < |chunks|
      invariant 0 <= i <= |chunks|
      invariant buffer == Repeat(encode(memtableVec), i)
      invariant newIndex == ChunkIndex(chunks[..i], segmentNum, encode(memtableVec))
    {
      var keyOffset := |buffer|;
      buffer := buffer + encode(memtableVec);
      var indexKey := chunks[i][0].0;
      newIndex := newIndex[indexKey := (segmentNum, keyOffset)];
      ChunkIndexSnoc(chunks, segmentNum, encode(memtableVec), i);
      i := i + 1;
    }
    assert chunks[..i] == chunks;
  }

  class LSMTree<V> {
    const storageDir: string
    const recordsPerIndex: nat := 4
    const memtableMaxSize: nat := 16
    /** The serialiser the flush applies to the memtable. */
    const encode: Encoder<V>
    /** The file system the segment files are written to. */
    const fs: FileSystem

    var segmentFiles: seq<Path>
    var index: map<int, (nat, nat)>
    var nextSegmentNum: nat
    var memtable: map<int, V>
    /** The memtable snapshot each segment was flushed from, by segment number. */
    ghost var flushed: seq<map<int, V>>

    /** The invariant `TreeInv` over the tree's fields and the file system. */
    ghost predicate Valid()
      reads this, fs
    {
      TreeInv(storageDir, fs.dirs, segmentFiles, nextSegmentNum, flushed, fs.files, index, recordsPerIndex, encode)
    }

    constructor Init(storageDir: string, fs: FileSystem, encode: Encoder<V>)
      ensures this.storageDir == storageDir && this.fs == fs && this.encode == encode
      ensures segmentFiles == [] && index == map[] && nextSegmentNum == 0 && memtable == map[]
      ensures flushed == []
    {
      this.storageDir := storageDir;
      this.fs := fs;
      this.encode := encode;
      segmentFiles := [];
      index := map[];
      nextSegmentNum := 0;
      memtable := map[];
      flushed := [];
    }

    /** `LSMTree::new`: creates the storage directory, then an empty tree; if
        the directory cannot be created, the error is returned. */
    static method New(storageDir: string, fs: FileSystem, encode: Encoder<V>, dirFails: bool)
      returns (r: Result<LSMTree<V>>)
      modifies fs
      ensures r.Err? <==> dirFails
      ensures r.Err? ==> r.error == CreateDirFailed
      ensures fs.dirs == if dirFails then old(fs.dirs) else old(fs.dirs) + {storageDir}
      ensures fs.files == old(fs.files)
      ensures r.Ok? ==> var t := r.value;
        && fresh(t) && t.Valid()
        && t.storageDir == storageDir && t.fs == fs && t.encode == encode
        && t.recordsPerIndex == 4 && t.memtableMaxSize == 16
        && t.memtable == map[] && t.index == map[] && t.segmentFiles == [] && t.nextSegmentNum == 0
    {
      var made := fs.CreateDirAll(storageDir, dirFails);
      if made.Err? {
        return Err(made.error);
      }
      var t := new LSMTree.Init(storageDir, fs, encode);
      r := Ok(t);
    }

    /** `memtable_over_size`: the memtable, counted key by key, holds more
        than `memtable_max_size` keys. */
    function MemtableOverSize(): (b: bool)
      reads this
      ensures b <==> |memtable| > memtableMaxSize
    {
      |SortedKeys(memtable.Keys)| > memtableMaxSize
    }

    /** The state a flush of memtable `m`, attempted under `fault` on a tree
        whose index, segment list, counter, files and snapshots were `index0`,
        `segments0`, `n0`, `files0` and `flushed0`, leaves behind. It succeeds
        unless `FlushFails`: a write fault due at or past the end of the bytes
        does not strike. On success:
        the memtable is empty, the index is the old one overridden by the new
        segment's entries, exactly one path `storage_dir/n0` is appended, the
        counter is one more and that file holds the segment bytes. On failure
        nothing of the tree changes; only the file being created may have been
        truncated or partly written. */
    ghost predicate FlushOutcome(m: map<int, V>, index0: map<int, (nat, nat)>, segments0: seq<Path>, n0: nat,
                                 files0: map<Path, seq<byte>>, flushed0: seq<map<int, V>>, fault: Fault)
      reads this, fs
    {
      var p := SegmentPath(storageDir, n0);
      var bytes := SegmentBytes(m, recordsPerIndex, encode);
      if !FlushFails(bytes, fault) then
        && memtable == map[]
        && index == index0 + SegmentIndex(m, recordsPerIndex, n0, encode)
        && segmentFiles == segments0 + [p]
        && nextSegmentNum == n0 + 1
        && fs.files == files0[p := bytes]
        && flushed == flushed0 + [m]
      else
        && memtable == m
        && index == index0
        && segmentFiles == segments0
        && nextSegmentNum == n0
        && fs.files == (if fault == CreateFails then files0 else files0[p := Written(bytes, fault)])
        && flushed == flushed0
    }

    /** `write_new_segment`: writes the memtable to segment file
        `storage_dir/<next_segment_num>` and indexes it, as `FlushOutcome`
        describes; returns the new file's path, or the I/O error. */
    method WriteNewSegment(fault: Fault) returns (r: Result<Path>)
      requires Valid()
      modifies this, fs
      ensures Valid()
      ensures fs.dirs == old(fs.dirs)
      ensures r == if FlushFails(SegmentBytes(old(memtable), recordsPerIndex, encode), fault)
                   then Err(FlushError(fault))
                   else Ok(SegmentPath(storageDir, old(nextSegmentNum)))
      ensures FlushOutcome(old(memtable), old(index), old(segmentFiles), old(nextSegmentNum),
                           old(fs.files), old(flushed), fault)
    {
      ghost var m := memtable;
      ghost var files0 := fs.files;
      var segmentNum := nextSegmentNum;
      var segmentPath := SegmentPath(storageDir, segmentNum);
      var memtableVec := Entries(memtable);
      var buffer, newIndex := EncodeChunks(memtableVec, recordsPerIndex, segmentNum, encode);
      assert buffer == SegmentBytes(m, recordsPerIndex, encode);
      assert newIndex == SegmentIndex(m, recordsPerIndex, segmentNum, encode);

      var created := fs.Create(segmentPath, fault);
      if created.Err? {
        assert FlushFails(buffer, fault);
        return Err(created.error);
      }
      var written := fs.WriteAll(segmentPath, buffer, fault);
      CreateThenWrite(files0, segmentPath, Written(buffer, fault));
      if written.Err? {
        assert FlushFails(buffer, fault);
        assert fs.files == files0[segmentPath := Written(buffer, fault)];
        TreeInvFailedWrite(storageDir, fs.dirs, segmentFiles, segmentNum, flushed, files0, index,
                           recordsPerIndex, encode, Written(buffer, fault));
        return Err(written.error);
      }

      assert !FlushFails(buffer, fault);
      assert fs.files == files0[segmentPath := buffer];
      TreeInvFlush(storageDir, fs.dirs, segmentFiles, segmentNum, flushed, files0, index, recordsPerIndex, encode, m);
      var segmentFiles' := segmentFiles + [segmentPath];
      var index' := index + newIndex;
      ghost var flushed' := flushed + [m];
      assert TreeInv(storageDir, fs.dirs, segmentFiles', segmentNum + 1, flushed', fs.files, index',
                     recordsPerIndex, encode);
      segmentFiles := segmentFiles';
      index := index';
      flushed := flushed';
      memtable := map[];
      nextSegmentNum := segmentNum + 1;
      r := Ok(segmentPath);
    }

    /** `put`: inserts into the memtable; if it then holds more than
        `memtable_max_size` keys, flushes it, as `FlushOutcome` describes, and
        passes on the flush's error. Without a flush nothing but the memtable
        changes. After a successful put the memtable is within its bound. */
    method Put(k: int, v: V, fault: Fault) returns (r: Result<()>)
      requires Valid()
      modifies this, fs
      ensures Valid()
      ensures fs.dirs == old(fs.dirs)
      ensures |old(memtable)[k := v]| <= memtableMaxSize ==>
                && r == Ok(())
                && memtable == old(memtable)[k := v]
                && index == old(index) && segmentFiles == old(segmentFiles)
                && nextSegmentNum == old(nextSegmentNum)
                && fs.files == old(fs.files) && flushed == old(flushed)
      ensures |old(memtable)[k := v]| > memtableMaxSize ==>
                && r == (if FlushFails(SegmentBytes(old(memtable)[k := v], recordsPerIndex, encode), fault)
                         then Err(FlushError(fault)) else Ok(()))
                && FlushOutcome(old(memtable)[k := v], old(index), old(segmentFiles), old(nextSegmentNum),
                                old(fs.files), old(flushed), fault)
      ensures r.Ok? ==> |memtable| <= memtableMaxSize
    {
      memtable := memtable[k := v];
      if MemtableOverSize() {
        var flushedTo := WriteNewSegment(fault);
        if flushedTo.Err? {
          return Err(flushedTo.error);
        }
      }
      r := Ok(());
    }

    /** `get`: never fails; finds exactly the keys of the memtable, with their
        values. Segments and the index are not consulted. */
    method Get(k: int) returns (r: Result<Option<V>>)
      ensures r.Ok?
      ensures r.value.Some? <==> k in memtable
      ensures r.value.Some? ==> r.value.value == memtable[k]
    {
      if k in memtable {
        r := Ok(Some(memtable[k]));
      } else {
        r := Ok(None);
      }
    }
  }

  /** A put that pushes the memtable over its bound and flushes successfully
      makes every key, the one just put included, unreadable: `get` looks only
      in the now empty memtable. */
  method PutThenGetAfterFlush<V>(t: LSMTree<V>, k: int, v: V, other: int, fault: Fault)
    returns (g: Result<Option<V>>, h: Result<Option<V>>)
    requires t.Valid()
    requires |t.memtable[k := v]| > t.memtableMaxSize
    requires !FlushFails(SegmentBytes(t.memtable[k := v], t.recordsPerIndex, t.encode), fault)
    modifies t, t.fs
    ensures t.Valid()
    ensures g == Ok(None) && h == Ok(None)
  {
    var _ := t.Put(k, v, fault);
    g := t.Get(k);
    h := t.Get(other);
  }
}
