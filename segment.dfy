/** What one flush produces from a memtable: the bytes of the segment file and
    the sparse index entries for its chunks.

    The flush walks the memtable's ascending entries in chunks of
    `records_per_index`. For each chunk it records the current buffer length as
    the chunk's offset, appends an encoding to the buffer and indexes the
    chunk's first key. The encoding appended is that of the WHOLE memtable, not
    of the chunk, so the buffer is that one encoding repeated once per chunk and
    chunk `j` is indexed at `j` times its length. */
module Segment {
  import opened OrderedMap
  import opened Chunking
  import opened FileStore

  /** The serialiser: the bytes written for an ascending sequence of entries. */
  type Encoder<!V> = seq<(int, V)> -> seq<byte>

  /** `n` copies of `b`, back to back. */
  function Repeat(b: seq<byte>, n: nat): seq<byte> {
    if n == 0 then [] else Repeat(b, n - 1) + b
  }

  lemma {:induction false} RepeatLength(b: seq<byte>, n: nat)
    ensures |Repeat(b, n)| == n * |b|
  {
    if n > 0 {
      RepeatLength(b, n - 1);
      MulStep(n - 1, |b|);
    }
  }

  lemma {:induction false} RepeatSplit(b: seq<byte>, a: nat, c: nat)
    ensures Repeat(b, a + c) == Repeat(b, a) + Repeat(b, c)
  {
    if c > 0 {
      RepeatSplit(b, a, c - 1);
    }
  }

  /** The middle part of a three-way concatenation is recovered by slicing. */
  lemma SliceMiddle(x: seq<byte>, y: seq<byte>, z: seq<byte>)
    ensures (x + y + z)[|x| .. |x| + |y|] == y
  {
    var w := x + y + z;
    assert forall i :: 0 <= i < |y| ==> w[|x| + i] == y[i];
  }

  /** `bytes` holds `b` starting at offset `o`. */
  ghost predicate HoldsAt(bytes: seq<byte>, o: nat, b: seq<byte>) {
    o + |b| <= |bytes| && bytes[o .. o + |b|] == b
  }

  /** The copy of `b` appended as the `(j + 1)`-th starts where the first `j`
      copies end. */
  lemma RepeatAt(b: seq<byte>, n: nat, j: nat)
    requires j < n
    ensures HoldsAt(Repeat(b, n), |Repeat(b, j)|, b)
  {
    RepeatSplit(b, j + 1, n - j - 1);
    assert Repeat(b, n) == Repeat(b, j) + b + Repeat(b, n - j - 1);
    SliceMiddle(Repeat(b, j), b, Repeat(b, n - j - 1));
  }

  /** The first keys of consecutive chunks strictly increase. */
  ghost predicate FirstKeysAscending<V>(cs: seq<seq<(int, V)>>)
    requires forall j :: 0 <= j < |cs| ==> |cs[j]| > 0
  {
    forall i, j :: 0 <= i < j < |cs| ==> cs[i][0].0 < cs[j][0].0
  }

  /** The index entries the flush loop inserts for the chunks `cs` of segment
      `seg` when it appends `payload` once per chunk: in chunk order, chunk `n`'s
      first key maps to `seg` and the buffer length before that chunk's append.
      A later chunk with the same first key overrides an earlier one, as
      `HashMap::insert` does. */
  function ChunkIndex<V>(cs: seq<seq<(int, V)>>, seg: nat, payload: seq<byte>): map<int, (nat, nat)>
    requires forall j :: 0 <= j < |cs| ==> |cs[j]| > 0
  {
    if cs == [] then map[]
    else
      var n := |cs| - 1;
      ChunkIndex(cs[..n], seg, payload)[cs[n][0].0 := (seg, |Repeat(payload, n)|)]
  }

  /** Indexing one more chunk: the index of the first `i + 1` chunks is that of
      the first `i` with chunk `i`'s first key added at `i` copies in. */
  lemma ChunkIndexSnoc<V>(cs: seq<seq<(int, V)>>, seg: nat, payload: seq<byte>, i: nat)
    requires forall j :: 0 <= j < |cs| ==> |cs[j]| > 0
    requires i < |cs|
    ensures ChunkIndex(cs[..i + 1], seg, payload)
              == ChunkIndex(cs[..i], seg, payload)[cs[i][0].0 := (seg, |Repeat(payload, i)|)]
  {
    assert cs[..i + 1][..i] == cs[..i];
  }

  /** Only chunks' first keys are indexed. */
  lemma {:induction false} ChunkIndexKeys<V>(cs: seq<seq<(int, V)>>, seg: nat, payload: seq<byte>)
    requires forall j :: 0 <= j < |cs| ==> |cs[j]| > 0
    ensures forall k :: k in ChunkIndex(cs, seg, payload) ==>
              exists j :: 0 <= j < |cs| && cs[j][0].0 == k
  {
    if cs != [] {
      var n := |cs| - 1;
      var prefix: seq<seq<(int, V)>> := cs[..n];
      ChunkIndexKeys(prefix, seg, payload);
      forall k | k in ChunkIndex(cs, seg, payload) ensures exists j :: 0 <= j < |cs| && cs[j][0].0 == k {
        if k != cs[n][0].0 {
          assert k in ChunkIndex(prefix, seg, payload);
          var j :| 0 <= j < n && prefix[j][0].0 == k;
          assert cs[j] == prefix[j];
        }
      }
    }
  }

  /** With ascending first keys, chunk `j`'s first key maps to `seg` and the
      offset of the `j`-th copy of the payload: no later chunk overrides it. */
  lemma {:induction false} ChunkIndexEntry<V>(cs: seq<seq<(int, V)>>, seg: nat, payload: seq<byte>, j: nat)
    requires forall i :: 0 <= i < |cs| ==> |cs[i]| > 0
    requires FirstKeysAscending(cs)
    requires j < |cs|
    ensures cs[j][0].0 in ChunkIndex(cs, seg, payload)
    ensures ChunkIndex(cs, seg, payload)[cs[j][0].0] == (seg, |Repeat(payload, j)|)
  {
    var n := |cs| - 1;
    if j < n {
      var prefix: seq<seq<(int, V)>> := cs[..n];
      assert prefix[j] == cs[j];
      assert FirstKeysAscending(prefix);
      ChunkIndexEntry(prefix, seg, payload, j);
      assert cs[j][0].0 < cs[n][0].0;
    }
  }

  /** With ascending first keys every chunk adds a key: there are as many index
      entries as chunks. */
  lemma {:induction false} ChunkIndexSize<V>(cs: seq<seq<(int, V)>>, seg: nat, payload: seq<byte>)
    requires forall j :: 0 <= j < |cs| ==> |cs[j]| > 0
    requires FirstKeysAscending(cs)
    ensures |ChunkIndex(cs, seg, payload)| == |cs|
  {
    if cs != [] {
      var n := |cs| - 1;
      var prefix: seq<seq<(int, V)>> := cs[..n];
      assert FirstKeysAscending(prefix);
      ChunkIndexSize(prefix, seg, payload);
      ChunkIndexKeys(prefix, seg, payload);
      var key := cs[n][0].0;
      forall k | k in ChunkIndex(prefix, seg, payload) ensures k < key {
        var j :| 0 <= j < n && prefix[j][0].0 == k;
        assert cs[j] == prefix[j];
      }
    }
  }

  /** With ascending first keys every chunk gets its own entry: there are as many
      entries as chunks, chunk `j`'s first key maps to `seg` and the offset of
      the `j`-th copy of the payload, and no other key is indexed. */
  lemma ChunkIndexSpec<V>(cs: seq<seq<(int, V)>>, seg: nat, payload: seq<byte>)
    requires forall j :: 0 <= j < |cs| ==> |cs[j]| > 0
    requires FirstKeysAscending(cs)
    ensures |ChunkIndex(cs, seg, payload)| == |cs|
    ensures forall j :: 0 <= j < |cs| ==>
              cs[j][0].0 in ChunkIndex(cs, seg, payload) &&
              ChunkIndex(cs, seg, payload)[cs[j][0].0] == (seg, |Repeat(payload, j)|)
    ensures forall k :: k in ChunkIndex(cs, seg, payload) ==>
              exists j :: 0 <= j < |cs| && cs[j][0].0 == k
  {
    ChunkIndexSize(cs, seg, payload);
    ChunkIndexKeys(cs, seg, payload);
    forall j | 0 <= j < |cs|
      ensures cs[j][0].0 in ChunkIndex(cs, seg, payload) &&
              ChunkIndex(cs, seg, payload)[cs[j][0].0] == (seg, |Repeat(payload, j)|)
    {
      ChunkIndexEntry(cs, seg, payload, j);
    }
  }

  /** Splitting ascending entries keeps the chunks' first keys ascending. */
  lemma ChunksOfAscending<V>(es: seq<(int, V)>, r: nat)
    requires r > 0
    requires StrictlyAscending(es)
    ensures FirstKeysAscending(Chunks(es, r))
  {
    var cs: seq<seq<(int, V)>> := Chunks(es, r);
    forall i, j | 0 <= i < j < |cs| ensures cs[i][0].0 < cs[j][0].0 {
      ChunkAtTimes(es, r, i);
      ChunkAtTimes(es, r, j);
      TimesLess(i, j, r);
      assert cs[i][0] == es[Times(i, r)] && cs[j][0] == es[Times(j, r)];
    }
  }

  /** The first key of chunk `j` of ascending entries is the smallest key in
      that chunk. */
  lemma ChunkMin<V>(es: seq<(int, V)>, r: nat, j: nat)
    requires r > 0
    requires StrictlyAscending(es)
    requires j < |Chunks(es, r)|
    ensures forall i :: 0 <= i < |Chunks(es, r)[j]| ==> Chunks(es, r)[j][0].0 <= Chunks(es, r)[j][i].0
  {
    ChunkAtTimes(es, r, j);
  }

  /** The first key of chunk `j` of the memtable's entries is a memtable key. */
  lemma ChunkFirstKey<V>(m: map<int, V>, r: nat, j: nat)
    requires r > 0
    requires j < |Chunks(Entries(m), r)|
    ensures Chunks(Entries(m), r)[j][0].0 in m
  {
    ChunkAtTimes(Entries(m), r, j);
    EntriesKeys(m);
  }

  /** The bytes `write_new_segment` writes for memtable `m`: the encoding of the
      whole memtable, once per chunk. */
  function SegmentBytes<V>(m: map<int, V>, r: nat, encode: Encoder<V>): seq<byte>
    requires r > 0
  {
    var es := Entries(m);
    Repeat(encode(es), |Chunks(es, r)|)
  }

  /** The index entries `write_new_segment` adds for memtable `m` as segment `seg`. */
  function SegmentIndex<V>(m: map<int, V>, r: nat, seg: nat, encode: Encoder<V>): map<int, (nat, nat)>
    requires r > 0
  {
    var es := Entries(m);
    ChunkIndex(Chunks(es, r), seg, encode(es))
  }

  /** A flush of N entries adds exactly ceil(N / r) index keys. */
  lemma SegmentIndexCount<V>(m: map<int, V>, r: nat, seg: nat, encode: Encoder<V>)
    requires r > 0
    ensures |SegmentIndex(m, r, seg, encode)| == (|m| + r - 1) / r
  {
    var es := Entries(m);
    var cs: seq<seq<(int, V)>> := Chunks(es, r);
    EntriesAscending(m);
    ChunksOfAscending(es, r);
    ChunkIndexSpec(cs, seg, encode(es));
    EntriesLength(m);
    ChunksCountOf(es, r, |m|);
  }

  /** The segment is ceil(N / r) copies of the whole-memtable encoding. */
  lemma SegmentBytesLength<V>(m: map<int, V>, r: nat, encode: Encoder<V>)
    requires r > 0
    ensures |SegmentBytes(m, r, encode)| == (|m| + r - 1) / r * |encode(Entries(m))|
  {
    var es := Entries(m);
    EntriesLength(m);
    ChunksCountOf(es, r, |m|);
    RepeatLength(encode(es), |Chunks(es, r)|);
  }

  /** Chunk `j`'s entry: its first key points into segment `seg` just past the
      first `j` copies of the whole-memtable encoding. */
  lemma SegmentIndexAt<V>(m: map<int, V>, r: nat, seg: nat, encode: Encoder<V>, j: nat)
    requires r > 0
    requires j < |Chunks(Entries(m), r)|
    ensures Chunks(Entries(m), r)[j][0].0 in SegmentIndex(m, r, seg, encode)
    ensures SegmentIndex(m, r, seg, encode)[Chunks(Entries(m), r)[j][0].0]
              == (seg, |Repeat(encode(Entries(m)), j)|)
  {
    var es := Entries(m);
    var cs: seq<seq<(int, V)>> := Chunks(es, r);
    EntriesAscending(m);
    ChunksOfAscending(es, r);
    ChunkIndexSpec(cs, seg, encode(es));
  }

  /** Chunk `j`'s offset is `j` times the length of the whole-memtable
      encoding. */
  lemma SegmentIndexOffset<V>(m: map<int, V>, r: nat, seg: nat, encode: Encoder<V>, j: nat)
    requires r > 0
    requires j < |Chunks(Entries(m), r)|
    ensures Chunks(Entries(m), r)[j][0].0 in SegmentIndex(m, r, seg, encode)
    ensures SegmentIndex(m, r, seg, encode)[Chunks(Entries(m), r)[j][0].0] == (seg, j * |encode(Entries(m))|)
  {
    SegmentIndexAt(m, r, seg, encode, j);
    RepeatLength(encode(Entries(m)), j);
  }

  /** `RepeatAt` for one copy per chunk of `es`. */
  lemma PayloadAt<V>(es: seq<(int, V)>, r: nat, encode: Encoder<V>, j: nat)
    requires r > 0
    requires j < |Chunks(es, r)|
    ensures HoldsAt(Repeat(encode(es), |Chunks(es, r)|), |Repeat(encode(es), j)|, encode(es))
  {
    RepeatAt(encode(es), |Chunks(es, r)|, j);
  }

  /** An indexed key of ascending entries `es` points at segment `seg` and at an
      offset where the segment holds a copy of the encoding of `es`. */
  lemma PayloadAtKey<V>(es: seq<(int, V)>, r: nat, seg: nat, encode: Encoder<V>, k: int)
    requires r > 0
    requires StrictlyAscending(es)
    requires k in ChunkIndex(Chunks(es, r), seg, encode(es))
    ensures ChunkIndex(Chunks(es, r), seg, encode(es))[k].0 == seg
    ensures HoldsAt(Repeat(encode(es), |Chunks(es, r)|), ChunkIndex(Chunks(es, r), seg, encode(es))[k].1, encode(es))
  {
    var cs: seq<seq<(int, V)>> := Chunks(es, r);
    var p := encode(es);
    ChunksOfAscending(es, r);
    ChunkIndexKeys(cs, seg, p);
    var j :| 0 <= j < |cs| && cs[j][0].0 == k;
    ChunkIndexEntry(cs, seg, p, j);
    RepeatAt(p, |cs|, j);
  }

  /** An indexed key of memtable `m`'s segment points at segment `seg` and at an
      offset where the segment holds the whole-memtable encoding. */
  lemma SegmentIndexPayload<V>(m: map<int, V>, r: nat, seg: nat, encode: Encoder<V>, k: int)
    requires r > 0
    requires k in SegmentIndex(m, r, seg, encode)
    ensures SegmentIndex(m, r, seg, encode)[k].0 == seg
    ensures HoldsAt(SegmentBytes(m, r, encode), SegmentIndex(m, r, seg, encode)[k].1, encode(Entries(m)))
  {
    EntriesAscending(m);
    PayloadAtKey(Entries(m), r, seg, encode, k);
  }

  /** The segment holds the whole-memtable encoding again just past its first
      `j` copies, for every chunk `j`. */
  lemma SegmentPayloadAt<V>(m: map<int, V>, r: nat, encode: Encoder<V>, j: nat)
    requires r > 0
    requires j < |Chunks(Entries(m), r)|
    ensures HoldsAt(SegmentBytes(m, r, encode), |Repeat(encode(Entries(m)), j)|, encode(Entries(m)))
  {
    PayloadAt(Entries(m), r, encode, j);
  }

  /** The first chunk starts the segment: the memtable's smallest key is indexed
      at offset 0. */
  lemma SegmentIndexFirst<V>(m: map<int, V>, r: nat, seg: nat, encode: Encoder<V>)
    requires r > 0
    requires m != map[]
    ensures |Entries(m)| > 0
    ensures var k := Entries(m)[0].0;
      && IsMin(k, m.Keys)
      && k in SegmentIndex(m, r, seg, encode)
      && SegmentIndex(m, r, seg, encode)[k] == (seg, 0)
  {
    var es := Entries(m);
    assert |es| > 0 by {
      EntriesLength(m);
      var k :| k in m;
    }
    ChunksCount(es, r);
    CeilDivStep(|es|, r);
    SegmentIndexAt(m, r, seg, encode, 0);
    EntriesAscending(m);
    EntriesComplete(m);
    forall k | k in m ensures es[0].0 <= k {
      var i :| 0 <= i < |es| && es[i].0 == k;
    }
  }

  /** Every indexed key is the first key of some chunk `j` and points at segment
      `seg`, offset `j` times the encoding length, within the segment. */
  lemma SegmentIndexKeys<V>(m: map<int, V>, r: nat, seg: nat, encode: Encoder<V>, k: int)
    requires r > 0
    requires k in SegmentIndex(m, r, seg, encode)
    ensures k in m
    ensures exists j :: 0 <= j < |Chunks(Entries(m), r)| && Chunks(Entries(m), r)[j][0].0 == k &&
              SegmentIndex(m, r, seg, encode)[k] == (seg, |Repeat(encode(Entries(m)), j)|)
    ensures SegmentIndex(m, r, seg, encode)[k].0 == seg
    ensures SegmentIndex(m, r, seg, encode)[k].1 <= |SegmentBytes(m, r, encode)|
  {
    var es := Entries(m);
    var cs: seq<seq<(int, V)>> := Chunks(es, r);
    EntriesAscending(m);
    ChunksOfAscending(es, r);
    ChunkIndexSpec(cs, seg, encode(es));
    var j :| 0 <= j < |cs| && cs[j][0].0 == k;
    ChunkFirstKey(m, r, j);
    SegmentIndexAt(m, r, seg, encode, j);
    SegmentPayloadAt(m, r, encode, j);
  }
}
