# LSM tree storage engine: a verified model

This project models the LSM tree of `rust/algos/src/storage/lsm_tree.rs`.

- **Memtable.** Writes go into a sorted in-memory memtable.
- **Flush.** When a `put` takes the memtable above `memtable_max_size` keys, it is flushed to a segment file `storage_dir/<n>`. The segment number `n` comes from a counter. There is also a sparse index, which maps the first key of every chunk of `records_per_index` entries to a (segment number, byte offset) pair.
- **Reads.** `get` reads only the memtable.

The model follows the code as written:

- On every chunk, the flush loop appends the encoding of the WHOLE memtable, not the encoding of the chunk. A segment is therefore one whole-memtable encoding per chunk, and chunk `j` is indexed at `j` times the length of that encoding.
- `get` consults neither the index nor the segments, so a flushed key can no longer be read.
- There is no `remove`, no tombstone, no segment read path, no compaction and no recovery.

Modules:

- `OrderedMap` (`ordered_map.dfy`) is the memtable's sorted view. The red-black tree `memtable` is a `map<int, V>`. `SortedKeys` gives its keys in ascending order, and `Entries` gives its ascending (key, value) snapshot, which is `memtable.iter().collect()`.
- `Chunking` (`chunking.dfy`) is the slice method `chunks(r)`: its count, coverage and chunk positions.
- `FileStore` (`file_store.dfy`) is the file system as a `FileSystem` object, with `dirs` and `files` fields. `create_dir_all`, `File::create` and `write_all` are its methods. Whether the operating system lets them succeed is a parameter, either a `bool` or a `Fault`. A failed `write_all` leaves the prefix it managed to write. The segment path `dir.join(format!("{}", n))` is modelled with its decimal name.
- `Segment` (`segment.dfy`) covers what one flush produces from a memtable. `SegmentBytes` is the file contents and `SegmentIndex` is the new index entries. Its lemmas give the index's size, keys, offsets and payloads.
- `LsmTree` (`lsm_tree.dfy`) is the `LSMTree` class, with the source's fields plus one ghost field, `flushed`: the memtable snapshot each segment was flushed from.
  - Its invariant `Valid` (`TreeInv`) has five parts:
    - the directory exists;
    - there is one path and one snapshot per segment number;
    - the paths are `dir/0`, `dir/1`, … in order;
    - every segment file holds the bytes its flush wrote;
    - every index entry is one its segment's flush produced.
  - `New`, `WriteNewSegment` and `Put` keep the invariant, whatever faults occur.
  - The serialiser (CBOR through `ciborium`) is the `encode` constant, a function from the ascending entry sequence to bytes. This matches `rbtree.rs`, whose `Serialize` walks `iter()`.

## Model

| member | source | states |
|---|---|---|
| LsmTree.LSMTree.New | rust/algos/src/storage/lsm_tree.rs:26-37 | fails exactly when `create_dir_all` fails, with that error; otherwise a fresh valid tree with an empty memtable and index, no segment files, counter 0, `records_per_index` 4 and `memtable_max_size` 16; the directory is created and no file changes |
| LsmTree.LSMTree.Init | rust/algos/src/storage/lsm_tree.rs:29-37 | the struct literal: the given directory, no segment files, an empty index and memtable, counter 0 and no flushed snapshots |
| LsmTree.LSMTree.MemtableOverSize | rust/algos/src/storage/lsm_tree.rs:40-43 | the count of the memtable's keys, taken from its sorted key walk, exceeds `memtable_max_size` exactly when the memtable holds more than `memtable_max_size` keys |
| LsmTree.EncodeChunks | rust/algos/src/storage/lsm_tree.rs:51-63 | the loop leaves the buffer as one whole-memtable encoding per chunk, and the local index as `ChunkIndex` of the chunks: each chunk's first key maps to the buffer length before that chunk's append |
| LsmTree.LSMTree.WriteNewSegment | rust/algos/src/storage/lsm_tree.rs:47-75 | keeps `Valid`. It returns the error of `File::create` or `write_all` exactly when `FlushFails` holds: creation fails, or a write fault strikes before the end of the segment bytes. Otherwise it returns `Ok(storage_dir/<n>)`. On success the memtable is empty, the index is the old one overridden by the new entries, exactly one path is appended, the counter grows by one and the file holds the segment bytes. On failure no field changes and only the file being created may be truncated or partly written |
| LsmTree.LSMTree.FlushOutcome | rust/algos/src/storage/lsm_tree.rs:65-72 | definition of a flush's end state. Unless `FlushFails`, the path is pushed, the index extended, the memtable cleared, the counter incremented and the file holds the segment bytes; otherwise the tree is unchanged and only the new file may hold a prefix |
| LsmTree.LSMTree.Put | rust/algos/src/storage/lsm_tree.rs:81-89 | keeps `Valid`. Without a flush it returns `Ok`, the memtable becomes `old[k := v]` and nothing else changes. With a flush the inserted memtable is flushed as `WriteNewSegment` states; the result is that flush's error exactly when `FlushFails` holds for its segment bytes, and `Ok` otherwise. After `Ok`, the memtable holds at most `memtable_max_size` keys |
| LsmTree.LSMTree.Get | rust/algos/src/storage/lsm_tree.rs:91-93 | never fails; returns `Some` exactly for the memtable's keys, with the memtable's value |
| LsmTree.PutThenGetAfterFlush | rust/algos/src/storage/lsm_tree.rs:81-93 | a put that triggers a flush that succeeds under the given fault (any fault for which `FlushFails` is false) makes every key unreadable, the one just put included |
| LsmTree.TreeInvFlush | rust/algos/src/storage/lsm_tree.rs:65-72 | a successful flush keeps the invariant: the path appended, the counter moved on, the file written and the entries merged |
| LsmTree.TreeInvFailedWrite | rust/algos/src/storage/lsm_tree.rs:65 | a flush that fails after creating the next file keeps the invariant, whatever that file holds |
| LsmTree.IndexEntryInSegment | rust/algos/src/storage/lsm_tree.rs:56-68 | for every index entry `k -> (s, o)` under the invariant: segment `s` was written, `k` was in the memtable flushed as `s`, and segment file `s` holds that memtable's whole encoding at offset `o` |
| LsmTree.NumberedPathsAppend | rust/algos/src/storage/lsm_tree.rs:49-67 | appending `dir/<count>` to the paths `dir/0` to `dir/<count-1>` keeps them numbered in order |
| LsmTree.SegmentsOnDiskNextFile | rust/algos/src/storage/lsm_tree.rs:65 | writing anything to the next segment's file leaves every earlier segment file as it was |
| LsmTree.SegmentsOnDiskFlush | rust/algos/src/storage/lsm_tree.rs:65-67 | writing the memtable's segment bytes to the next file extends the segments on disk by that memtable |
| LsmTree.IndexSoundFlush | rust/algos/src/storage/lsm_tree.rs:68 | `index.extend` with the new entries keeps every index entry pointing at an entry its segment's flush produced |
| Segment.SegmentIndexCount | rust/algos/src/storage/lsm_tree.rs:55-62 | a flush of N entries adds exactly ceil(N / `records_per_index`) index keys |
| Segment.SegmentBytes | rust/algos/src/storage/lsm_tree.rs:52-63 | definition of the buffer the loop builds: one whole-memtable encoding per chunk; its length and contents are `SegmentBytesLength` and `SegmentPayloadAt` |
| Segment.SegmentIndex | rust/algos/src/storage/lsm_tree.rs:52-63 | definition of the local index the loop builds, from the chunks of the snapshot; its size, keys, offsets and payloads are the `SegmentIndex` lemmas |
| Segment.SegmentBytesLength | rust/algos/src/storage/lsm_tree.rs:55-59 | the segment is ceil(N / `records_per_index`) times the whole-memtable encoding's length |
| Segment.SegmentIndexAt | rust/algos/src/storage/lsm_tree.rs:55-62 | chunk `j`'s first key is indexed at segment `seg`, just past the first `j` copies of the encoding: no later chunk overrides it |
| Segment.SegmentIndexOffset | rust/algos/src/storage/lsm_tree.rs:56-62 | chunk `j`'s offset is `j` times the length of the whole-memtable encoding |
| Segment.SegmentIndexFirst | rust/algos/src/storage/lsm_tree.rs:51-62 | for a non-empty memtable, its smallest key is indexed at offset 0 |
| Segment.SegmentIndexKeys | rust/algos/src/storage/lsm_tree.rs:55-62 | every new index key is a memtable key and the first key of some chunk `j`; it points at segment `seg`, offset `j` copies in, inside the segment |
| Segment.SegmentIndexPayload | rust/algos/src/storage/lsm_tree.rs:56-62 | at every new index entry's offset, the segment holds the whole-memtable encoding |
| Segment.SegmentPayloadAt | rust/algos/src/storage/lsm_tree.rs:56-59 | just past the first `j` copies, the segment holds the whole-memtable encoding again |
| Segment.PayloadAtKey | rust/algos/src/storage/lsm_tree.rs:56-62 | for ascending entries, every key of the chunk index points at segment `seg` and at an offset holding the encoding |
| Segment.ChunkMin | rust/algos/src/storage/lsm_tree.rs:55-60 | the key indexed for a chunk of ascending entries is the smallest key in that chunk |
| Segment.ChunkFirstKey | rust/algos/src/storage/lsm_tree.rs:51-60 | the first key of every chunk of the memtable's entries is a memtable key |
| Segment.ChunksOfAscending | rust/algos/src/storage/lsm_tree.rs:51-55 | the first keys of the chunks of ascending entries strictly increase |
| Segment.ChunkIndexSnoc | rust/algos/src/storage/lsm_tree.rs:62 | indexing one more chunk adds its first key at the current number of copies |
| Segment.ChunkIndex | rust/algos/src/storage/lsm_tree.rs:62 | definition: each chunk's first key inserted, in order, with the buffer length before that chunk; its properties are `ChunkIndexSpec` and the lemmas beside it |
| Segment.ChunkIndexSpec | rust/algos/src/storage/lsm_tree.rs:55-62 | with ascending first keys: one entry per chunk, chunk `j`'s key at `j` copies in, and no other keys |
| Segment.ChunkIndexKeys | rust/algos/src/storage/lsm_tree.rs:60-62 | only the chunks' first keys are indexed |
| Segment.ChunkIndexEntry | rust/algos/src/storage/lsm_tree.rs:60-62 | with ascending first keys, chunk `j`'s key keeps the entry chunk `j` inserted |
| Segment.ChunkIndexSize | rust/algos/src/storage/lsm_tree.rs:60-62 | with ascending first keys, there are as many index entries as chunks |
| Segment.RepeatLength | rust/algos/src/storage/lsm_tree.rs:56-59 | `n` appends of `b` give `n * |b|` bytes |
| Segment.Repeat | rust/algos/src/storage/lsm_tree.rs:59 | definition: `n` appends of the same encoding to an empty buffer; its length and copy positions are `RepeatLength` and `RepeatAt` |
| Segment.RepeatAt | rust/algos/src/storage/lsm_tree.rs:56-59 | the `(j+1)`-th copy starts where the first `j` copies end |
| Chunking.Chunks | rust/algos/src/storage/lsm_tree.rs:55 | every chunk is non-empty and holds at most `r` elements |
| Chunking.ChunksCount | rust/algos/src/storage/lsm_tree.rs:55 | there are ceil(|s| / r) chunks |
| Chunking.ChunksFlatten | rust/algos/src/storage/lsm_tree.rs:55 | concatenating the chunks gives back `s` |
| Chunking.ChunkAt | rust/algos/src/storage/lsm_tree.rs:55 | chunk `j` is `s` from position `j * r`, with `min(r, rest)` elements |
| Chunking.ChunkSizes | rust/algos/src/storage/lsm_tree.rs:55 | every chunk but the last holds exactly `r` elements |
| OrderedMap.SortedKeys | rust/algos/src/storage/lsm_tree.rs:42 | the key walk lists every key exactly once, nothing else, in strictly increasing order |
| OrderedMap.Entries | rust/algos/src/storage/lsm_tree.rs:51 | definition of the in-order walk: the smallest key with its value, then the walk of the rest; its length, keys, order, values and completeness are the `Entries` lemmas |
| OrderedMap.EntriesLength | rust/algos/src/storage/lsm_tree.rs:51 | the snapshot has one pair per memtable key |
| OrderedMap.EntriesKeys | rust/algos/src/storage/lsm_tree.rs:51 | every key of the snapshot is a memtable key |
| OrderedMap.EntriesAscending | rust/algos/src/storage/lsm_tree.rs:51 | the snapshot is in strictly ascending key order |
| OrderedMap.EntriesValues | rust/algos/src/storage/lsm_tree.rs:51 | each pair carries the memtable's value for its key |
| OrderedMap.EntriesComplete | rust/algos/src/storage/lsm_tree.rs:51 | every memtable key appears in the snapshot |
| OrderedMap.EntriesCompleteAt | rust/algos/src/storage/lsm_tree.rs:51 | a given memtable key appears in the snapshot |
| OrderedMap.EntriesKeyWalk | rust/algos/src/storage/lsm_tree.rs:42-51 | the snapshot's keys, in order, are exactly the key walk that `memtable_over_size` counts |
| FileStore.DecimalString | rust/algos/src/storage/lsm_tree.rs:49 | `format!("{}", n)` is a non-empty string of digits with no leading zero |
| FileStore.ParseDecimalString | rust/algos/src/storage/lsm_tree.rs:49 | reading back the decimal string of `n` gives `n` |
| FileStore.DecimalStringInjective | rust/algos/src/storage/lsm_tree.rs:49 | different segment numbers have different names |
| FileStore.SegmentPath | rust/algos/src/storage/lsm_tree.rs:49 | the path of segment `n` lies in the storage directory and its name reads back as `n` |
| FileStore.Written | rust/algos/src/storage/lsm_tree.rs:65 | what `write_all` leaves is a prefix of the data. It is all of the data exactly when no fault strikes before the end of the data; otherwise it is the bytes written before the fault |
| FileStore.FileSystem.CreateDirAll | rust/algos/src/storage/lsm_tree.rs:27 | either fails, changing nothing, or adds the directory; an existing directory is not an error |
| FileStore.FileSystem.Create | rust/algos/src/storage/lsm_tree.rs:65 | fails when the directory is missing or the fault says so; otherwise the file exists and is empty |
| FileStore.FileSystem.WriteAll | rust/algos/src/storage/lsm_tree.rs:65 | appends what `Written` says. It fails exactly when a write fault strikes before the end of the data; empty data, or a fault due at or past the end, gives `Ok` |

## Left out

- Real I/O: the file system is the `FileSystem` object, and whether each call succeeds is a parameter (`dirFails`, `Fault`). Permissions, disk space and the operating system's error codes are not modelled.
- `fs::create_dir_all`: a partial creation of ancestor directories is not modelled. The directory either appears or the call fails.
- Changes to the file system from outside the tree: `Valid` requires the storage directory and every segment file to stay as the tree left them, so the model cannot express another process deleting the directory, which would make `File::create` fail with `NotFound`.
- Path joining: a path is a (directory, name) pair, not a joined string.
- CBOR serialisation (`ciborium::ser::into_writer`): it is the uninterpreted `encode` function. The source ignores its error result (lines 58-59), so the model has no encoding error either.
- The external `rbtree` crate: the memtable is a `map<int, V>` with its ascending walk. Keys are `int`, because the source needs only `Ord + Hash + Copy` of them and `Serialize`; how a key is serialised is part of `encode`.
- Put, MemtableOverSize, Get, WriteNewSegment, SegmentIndexCount: these assume that the red-black tree's `insert` replaces the value of a key that is already present, so the memtable holds each key once. The external `rbtree` crate, which `rbtree.rs` wraps, is not part of this model. If its `insert` kept duplicates, `keys().count()` would count them and `get` could return an older value. The flush would change too: `iter()` would yield repeated keys, two chunks could start with the same key, and the local index could then hold fewer than ceil(N / `records_per_index`) keys.
- `HashMap` hashing: the index is a `map`.
- Integer widths: `next_segment_num` is a `u32` and offsets are `usize`, but the model uses `nat`. So it does not model the overflow of `next_segment_num += 1` after 2^32 flushes, nor offset overflow.
- The `segment_files.last().unwrap()` panic: it cannot happen after the push, and the model returns the pushed path directly.
- `rust/algos/src/storage/kvstore.rs`: it is the `put`/`get` trait that `Put` and `Get` implement. `rust/algos/src/main.rs` is a random workload driver that prints. Neither is modelled.
- `rust/algos/src/lib.rs` and `rust/algos/src/error.rs` only define error aliases.
- The segment read path, `remove`, tombstones, compaction (a TODO at line 45) and startup recovery: these do not exist in the code, so they are not modelled.
