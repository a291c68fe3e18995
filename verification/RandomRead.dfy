/**
 Random-access reads of a snapshot file: the manifest check, the search for the first chunk
 and the copy loop over 64-bit offsets.
 */
module RandomRead {
  import opened Basics

  const MAX_FILE_CHUNKS: nat := 250_000

  const MIN_INT64: int := -(MAX_INT64 as int) - 1

  type Int64 = n: int | MIN_INT64 <= n <= MAX_INT64

  /** 64-bit addition with two's-complement wrap-around. */
  function Add64(a: Int64, b: Int64): Int64 {
    if a + b > MAX_INT64 then a + b - 2 * (MAX_INT64 + 1)
    else if a + b < MIN_INT64 then a + b + 2 * (MAX_INT64 + 1)
    else a + b
  }

  datatype ChunkRef = ChunkRef(offset: Int64, size: Int64, digest: Digest)

  /** `header` stands for the checks of format, algorithm and chunking profile. */
  datatype FileManifest = FileManifest(header: bool, maxSize: Int64, size: Int64, chunks: seq<ChunkRef>)

  /** Where chunk `k` has to start: the sizes of the chunks before it. */
  function Start(chunks: seq<ChunkRef>, k: nat): int
    requires k <= |chunks|
  {
    if k == 0 then 0 else Start(chunks, k - 1) + chunks[k - 1].size
  }

  /** Chunk `k` starts where the one before it ends, and is neither empty nor too large. */
  predicate Placed(manifest: FileManifest, k: nat)
    requires k < |manifest.chunks|
  {
    && manifest.chunks[k].offset == Start(manifest.chunks, k)
    && 0 < manifest.chunks[k].size <= manifest.maxSize && !manifest.chunks[k].digest.IsZero()
  }

  /** The chunks tile the file: no gap, no overlap, nothing empty, nothing beyond the end. */
  predicate Tiled(manifest: FileManifest) {
    && manifest.header && 0 <= manifest.size && |manifest.chunks| <= MAX_FILE_CHUNKS
    && (forall k | 0 <= k < |manifest.chunks| :: Placed(manifest, k))
    && Start(manifest.chunks, |manifest.chunks|) == manifest.size
  }

  lemma {:induction false} StartMonotone(manifest: FileManifest, i: nat, j: nat)
    requires forall k | 0 <= k < |manifest.chunks| :: Placed(manifest, k)
    requires i <= j <= |manifest.chunks|
    ensures Start(manifest.chunks, i) + (j - i) <= Start(manifest.chunks, j)
    decreases j
  {
    if i < j {
      assert Placed(manifest, j - 1);
      StartMonotone(manifest, i, j - 1);
    }
  }

  /** The manifest check accepts exactly the tilings, wrap-around included. */
  method ValidateFileManifest(manifest: FileManifest) returns (valid: bool)
    ensures valid <==> Tiled(manifest)
  {
    if !manifest.header || manifest.size < 0 {
      return false;
    }
    if |manifest.chunks| > MAX_FILE_CHUNKS {
      return false;
    }
    var offset: Int64 := 0;
    for k := 0 to |manifest.chunks|
      invariant 0 <= offset <= manifest.size && offset == Start(manifest.chunks, k)
      invariant forall i | 0 <= i < k :: Placed(manifest, i)
    {
      var chunk := manifest.chunks[k];
      assert Tiled(manifest) ==> Placed(manifest, k);
      if chunk.offset != offset || chunk.size <= 0 || chunk.size > manifest.maxSize || chunk.digest.IsZero() {
        return false;
      }
      if Tiled(manifest) {
        StartMonotone(manifest, k + 1, |manifest.chunks|);
      }
      offset := Add64(offset, chunk.size);
      if offset < 0 || offset > manifest.size {
        return false;
      }
    }
    return offset == manifest.size;
  }

  type Store = map<Digest, seq<bv8>>

  /** The bytes of a chunk; a chunk that cannot be had right reads as zeros. */
  function ChunkBytes(store: Store, chunk: ChunkRef): (bytes: seq<bv8>)
    requires chunk.size >= 0
    ensures |bytes| == chunk.size
  {
    if chunk.digest in store && |store[chunk.digest]| == chunk.size then store[chunk.digest]
    else seq(chunk.size, _ => 0 as bv8)
  }

  /** The content of the first `k` chunks, one after the other. */
  function Content(store: Store, manifest: FileManifest, k: nat): (bytes: seq<bv8>)
    requires Tiled(manifest) && k <= |manifest.chunks|
    ensures |bytes| == Start(manifest.chunks, k)
  {
    if k == 0 then []
    else
      assert Placed(manifest, k - 1);
      Content(store, manifest, k - 1) + ChunkBytes(store, manifest.chunks[k - 1])
  }

  /** The whole file. */
  function File(store: Store, manifest: FileManifest): (bytes: seq<bv8>)
    requires Tiled(manifest)
    ensures |bytes| == manifest.size
  {
    Content(store, manifest, |manifest.chunks|)
  }

  /** Byte `i` of chunk `k` is at its place in the content. */
  lemma {:induction false} ContentByte(store: Store, manifest: FileManifest, k: nat, i: nat, n: nat)
    requires Tiled(manifest) && k < n <= |manifest.chunks| && i < manifest.chunks[k].size
    ensures Placed(manifest, k) && 0 <= Start(manifest.chunks, k)
            && Start(manifest.chunks, k) + i < Start(manifest.chunks, n)
    ensures Content(store, manifest, n)[Start(manifest.chunks, k) + i] == ChunkBytes(store, manifest.chunks[k])[i]
    decreases n
  {
    assert Placed(manifest, k) && Placed(manifest, n - 1);
    StartMonotone(manifest, 0, k);
    if n > k + 1 {
      ContentByte(store, manifest, k, i, n - 1);
    }
  }

  /** The first chunk that ends beyond the offset. */
  method FirstChunk(manifest: FileManifest, offset: Int64) returns (index: nat)
    requires Tiled(manifest) && 0 <= offset < manifest.size
    ensures index < |manifest.chunks|
    ensures Start(manifest.chunks, index) <= offset < Start(manifest.chunks, index + 1)
  {
    var i, j := 0, |manifest.chunks|;
    while i < j
      invariant 0 <= i <= j <= |manifest.chunks|
      invariant i == 0 || Start(manifest.chunks, i) <= offset
      invariant j == |manifest.chunks| || offset < Start(manifest.chunks, j + 1)
    {
      var h := (i + j) / 2;
      assert Placed(manifest, h);
      if manifest.chunks[h].offset + manifest.chunks[h].size > offset {
        j := h;
      } else {
        i := h + 1;
      }
    }
    return i;
  }

  datatype Outcome = Complete | EndOfFile | NegativeOffset | Failed(error: Error)

  function Min(a: int, b: int): int {
    if a < b then a else b
  }

  function Max(a: int, b: int): int {
    if a > b then a else b
  }

  /** Copies the part of one chunk that lies between two file offsets. */
  method CopyChunk(store: Store, chunk: ChunkRef, destination: array<bv8>, written: nat, offset: Int64, limit: Int64)
    returns (r: Result<nat>)
    requires written <= destination.Length && chunk.size > 0
    requires 0 <= chunk.offset <= offset < limit && offset < chunk.offset + chunk.size
    requires limit - offset <= destination.Length - written
    modifies destination
    ensures r.Ok? ==>
              && chunk.digest in store && |store[chunk.digest]| == chunk.size
              && r.value == Min(limit, chunk.offset + chunk.size) - offset
              && destination[..] == old(destination[..written])
                                    + ChunkBytes(store, chunk)[offset - chunk.offset..offset - chunk.offset + r.value]
                                    + old(destination[written + r.value..])
    ensures r.Err? ==> destination[..] == old(destination[..])
    ensures r.Ok? <==> chunk.digest in store && |store[chunk.digest]| == chunk.size
  {
    if chunk.digest !in store {
      return Err(Unavailable);
    }
    var data := store[chunk.digest];
    if |data| != chunk.size {
      return Err(CorruptObject);
    }
    var start := Max(offset, chunk.offset) - chunk.offset;
    var end := Min(limit, chunk.offset + chunk.size) - chunk.offset;
    var source := data[start..end];
    var copied := Min(destination.Length - written, |source|);
    forall i | 0 <= i < copied {
      destination[written + i] := source[i];
    }
    return Ok(copied);
  }

  /** A part of a chunk is the same part of the file. */
  lemma SliceOfChunk(store: Store, manifest: FileManifest, k: nat, from: int, to: int)
    requires Tiled(manifest) && k < |manifest.chunks|
    requires Start(manifest.chunks, k) <= from <= to <= Start(manifest.chunks, k + 1)
    ensures 0 <= from && to <= manifest.size && manifest.chunks[k].offset == Start(manifest.chunks, k)
            && manifest.chunks[k].size >= 0
    ensures ChunkBytes(store, manifest.chunks[k])[from - Start(manifest.chunks, k)..to - Start(manifest.chunks, k)]
         == File(store, manifest)[from..to]
  {
    assert Placed(manifest, k);
    StartMonotone(manifest, 0, k);
    StartMonotone(manifest, k + 1, |manifest.chunks|);
    var start, file, bytes := Start(manifest.chunks, k), File(store, manifest), ChunkBytes(store, manifest.chunks[k]);
    forall j | 0 <= j < to - from
      ensures bytes[from - start..to - start][j] == file[from..to][j]
    {
      ContentByte(store, manifest, k, from - start + j, |manifest.chunks|);
    }
  }

  /** Copies what the chunk at hand has of the file between two offsets. */
  method CopyNext(store: Store, manifest: FileManifest, index: nat, destination: array<bv8>, written: nat, at: Int64,
                  limit: Int64)
    returns (r: Result<nat>)
    requires Tiled(manifest) && index < |manifest.chunks| && written <= destination.Length
    requires Start(manifest.chunks, index) <= at < Start(manifest.chunks, index + 1) && at < limit
    requires limit - at <= destination.Length - written
    modifies destination
    ensures r.Err? ==> Unobtainable(store, manifest.chunks[index]) && destination[..] == old(destination[..])
    ensures r.Ok? ==>
              && !Unobtainable(store, manifest.chunks[index])
              && r.value == Min(limit, Start(manifest.chunks, index + 1)) - at && 0 <= at
              && at + r.value <= manifest.size
              && destination[..] == old(destination[..written]) + File(store, manifest)[at..at + r.value]
                                    + old(destination[written + r.value..])
  {
    assert Placed(manifest, index);
    StartMonotone(manifest, 0, index);
    r := CopyChunk(store, manifest.chunks[index], destination, written, at, limit);
    if r.Ok? {
      SliceOfChunk(store, manifest, index, at, at + r.value);
    }
  }

  lemma NextChunkStarts(manifest: FileManifest, index: nat)
    requires Tiled(manifest) && index < |manifest.chunks|
    ensures if index + 1 < |manifest.chunks| then Start(manifest.chunks, index + 1) < Start(manifest.chunks, index + 2)
            else Start(manifest.chunks, index + 1) == manifest.size
  {
    if index + 1 < |manifest.chunks| {
      assert Placed(manifest, index + 1);
    }
  }

  /** The first `written` bytes are the file's from `offset` on, the others as at the start. */
  ghost predicate Filled(now: seq<bv8>, initial: seq<bv8>, file: seq<bv8>, offset: int, written: nat) {
    && 0 <= offset && offset + written <= |file| && written <= |initial|
    && now == file[offset..offset + written] + initial[written..]
  }

  /** Unless the range is done, `at` lies in chunk `index`. */
  ghost predicate Located(manifest: FileManifest, index: nat, at: int, limit: int)
    requires index <= |manifest.chunks|
  {
    && at <= limit
    && (at < limit ==> index < |manifest.chunks|
                       && Start(manifest.chunks, index) <= at < Start(manifest.chunks, index + 1))
  }

  /** Chunk `k` has bytes of the range. */
  ghost predicate Intersects(manifest: FileManifest, k: nat, offset: int, limit: int)
    requires k < |manifest.chunks|
  {
    Start(manifest.chunks, k) < limit && offset < Start(manifest.chunks, k + 1)
  }

  /** A chunk with bytes of the range cannot be obtained. */
  ghost predicate Blocked(store: Store, manifest: FileManifest, offset: int, limit: int) {
    exists k | 0 <= k < |manifest.chunks| :: Intersects(manifest, k, offset, limit)
                                             && Unobtainable(store, manifest.chunks[k])
  }

  /** The chunks of the range before `index` could be obtained. */
  ghost predicate Passed(store: Store, manifest: FileManifest, index: nat, offset: int)
    requires index <= |manifest.chunks|
  {
    forall k | 0 <= k < index :: offset < Start(manifest.chunks, k + 1) ==> !Unobtainable(store, manifest.chunks[k])
  }

  /** The search skips only chunks that end at or before the offset. */
  lemma SkippedPasses(store: Store, manifest: FileManifest, index: nat, offset: int)
    requires Tiled(manifest) && index < |manifest.chunks| && Start(manifest.chunks, index) <= offset
    ensures Passed(store, manifest, index, offset)
  {
    forall k | 0 <= k < index
      ensures offset < Start(manifest.chunks, k + 1) ==> !Unobtainable(store, manifest.chunks[k])
    {
      StartMonotone(manifest, k + 1, index);
    }
  }

  /** A range that was filled to its end met no obstacle. */
  lemma FilledIsNotBlocked(store: Store, manifest: FileManifest, index: nat, offset: int, limit: int)
    requires Tiled(manifest) && index <= |manifest.chunks| && Passed(store, manifest, index, offset)
    requires limit <= Start(manifest.chunks, index)
    ensures !Blocked(store, manifest, offset, limit)
  {
    forall k | 0 <= k < |manifest.chunks| && Intersects(manifest, k, offset, limit)
      ensures !Unobtainable(store, manifest.chunks[k])
    {
      if k >= index {
        StartMonotone(manifest, index, k);
      }
    }
  }

  /** Where the copy loop stands, with `written` bytes done and chunk `index` next. */
  ghost predicate Copying(
    store: Store, manifest: FileManifest, index: nat, offset: int, limit: int, written: nat, now: seq<bv8>,
    initial: seq<bv8>)
    requires Tiled(manifest)
  {
    && index <= |manifest.chunks| && Located(manifest, index, offset + written, limit)
    && (offset + written == limit ==> limit <= Start(manifest.chunks, index))
    && Passed(store, manifest, index, offset)
    && Filled(now, initial, File(store, manifest), offset, written)
  }

  lemma CopyingStarts(store: Store, manifest: FileManifest, index: nat, offset: int, limit: int, initial: seq<bv8>)
    requires Tiled(manifest) && index < |manifest.chunks| && 0 <= offset < limit <= manifest.size
    requires Start(manifest.chunks, index) <= offset < Start(manifest.chunks, index + 1)
    ensures Copying(store, manifest, index, offset, limit, 0, initial, initial)
  {
    SkippedPasses(store, manifest, index, offset);
    assert Filled(initial, initial, File(store, manifest), offset, 0);
  }

  lemma CopyingDone(
    store: Store, manifest: FileManifest, index: nat, offset: int, limit: int, written: nat, now: seq<bv8>,
    initial: seq<bv8>)
    requires Tiled(manifest) && Copying(store, manifest, index, offset, limit, written, now, initial)
    requires index == |manifest.chunks| || offset + written >= limit
    ensures written == limit - offset && !Blocked(store, manifest, offset, limit)
    ensures Filled(now, initial, File(store, manifest), offset, written)
  {
    FilledIsNotBlocked(store, manifest, index, offset, limit);
  }

  lemma LocatedNext(manifest: FileManifest, index: nat, at: int, limit: int)
    requires Tiled(manifest) && index < |manifest.chunks| && limit <= manifest.size
    requires at == Min(limit, Start(manifest.chunks, index + 1))
    ensures Located(manifest, index + 1, at, limit) && (at == limit ==> limit <= Start(manifest.chunks, index + 1))
  {
    NextChunkStarts(manifest, index);
  }

  lemma PassedNext(store: Store, manifest: FileManifest, index: nat, offset: int)
    requires index < |manifest.chunks| && Passed(store, manifest, index, offset)
    requires !Unobtainable(store, manifest.chunks[index])
    ensures Passed(store, manifest, index + 1, offset)
  {
  }

  /** One chunk more, or it is the one that blocks the range. */
  method FillNext(
    store: Store, manifest: FileManifest, index: nat, destination: array<bv8>, written: nat, offset: Int64,
    limit: Int64,
    ghost initial: seq<bv8>)
    returns (r: Result<nat>)
    requires Tiled(manifest) && index < |manifest.chunks| && 0 <= offset && offset + written < limit <= manifest.size
    requires limit - offset <= destination.Length
    requires Copying(store, manifest, index, offset, limit, written, destination[..], initial)
    modifies destination
    ensures r.Err? ==> Blocked(store, manifest, offset, limit) && destination[..] == old(destination[..])
    ensures r.Ok? ==>
              && offset + written + r.value <= limit
              && Copying(store, manifest, index + 1, offset, limit, written + r.value, destination[..], initial)
  {
    r := CopyNext(store, manifest, index, destination, written, offset + written, limit);
    assert Intersects(manifest, index, offset, limit);
    if r.Ok? {
      LocatedNext(manifest, index, offset + written + r.value, limit);
      PassedNext(store, manifest, index, offset);
      WrittenGrows(old(destination[..]), destination[..], initial, written, r.value, File(store, manifest), offset);
    }
  }

  /** The copy loop over the chunks that intersect the range. It fails exactly if one of them is not to be had. */
  method CopyRange(store: Store, manifest: FileManifest, destination: array<bv8>, offset: Int64, limit: Int64)
    returns (written: nat, failure: Option<Error>)
    requires Tiled(manifest) && 0 <= offset < limit <= manifest.size && limit - offset <= destination.Length
    modifies destination
    ensures written <= limit - offset
            && Filled(destination[..], old(destination[..]), File(store, manifest), offset, written)
    ensures failure.None? ==> written == limit - offset
    ensures failure.Some? <==> Blocked(store, manifest, offset, limit)
  {
    written := 0;
    var index := FirstChunk(manifest, offset);
    CopyingStarts(store, manifest, index, offset, limit, destination[..]);
    while index < |manifest.chunks| && offset + written < limit
      invariant index <= |manifest.chunks| && offset + written <= limit
      invariant Copying(store, manifest, index, offset, limit, written, destination[..], old(destination[..]))
    {
      var copied := FillNext(store, manifest, index, destination, written, offset, limit, old(destination[..]));
      if copied.Err? {
        return written, Some(copied.error);
      }
      written, index := written + copied.value, index + 1;
    }
    CopyingDone(store, manifest, index, offset, limit, written, destination[..], old(destination[..]));
    return written, None;
  }

  /**
   Reads into `destination` from `offset`. What is written is exactly that part of the file,
   nothing else is touched, and the end of the file is reported exactly for a short read.
   */
  method ReadAt(store: Store, manifest: FileManifest, destination: array<bv8>, offset: Int64)
    returns (written: nat, outcome: Outcome)
    requires Tiled(manifest) && destination.Length <= MAX_INT64
    modifies destination
    ensures written <= destination.Length && destination[written..] == old(destination[written..])
    ensures written > 0 ==>
              0 <= offset && offset + written <= manifest.size
              && destination[..written] == File(store, manifest)[offset..offset + written]
    ensures outcome == NegativeOffset <==> offset < 0
    ensures outcome == Complete ==> written == destination.Length
    ensures outcome == EndOfFile ==> written < destination.Length && written == Max(manifest.size - offset, 0)
    ensures outcome.Failed? <==>
            0 <= offset && destination.Length > 0
            && Blocked(store, manifest, offset, Min(offset + destination.Length, manifest.size))
  {
    if offset >= manifest.size {
      NothingBeyond(store, manifest, offset);
    }
    if offset < 0 {
      return 0, NegativeOffset;
    }
    if destination.Length == 0 {
      return 0, Complete;
    }
    if offset >= manifest.size {
      return 0, EndOfFile;
    }
    var limit := Add64(offset, destination.Length);
    if limit < offset || limit > manifest.size {
      limit := manifest.size;
    }
    var failure;
    written, failure := CopyRange(store, manifest, destination, offset, limit);
    if failure.Some? {
      return written, Failed(failure.value);
    }
    if written < destination.Length {
      return written, EndOfFile;
    }
    return written, Complete;
  }

  /** No chunk has bytes at or beyond the end. */
  lemma NothingBeyond(store: Store, manifest: FileManifest, offset: int)
    requires Tiled(manifest) && offset >= manifest.size
    ensures !Blocked(store, manifest, offset, manifest.size)
  {
    forall k | 0 <= k < |manifest.chunks| ensures !Intersects(manifest, k, offset, manifest.size) {
      StartMonotone(manifest, k + 1, |manifest.chunks|);
    }
  }

  predicate Unobtainable(store: Store, chunk: ChunkRef) {
    chunk.digest !in store || |store[chunk.digest]| != chunk.size
  }

  lemma WrittenGrows(before: seq<bv8>, after: seq<bv8>, initial: seq<bv8>, written: nat, copied: nat, file: seq<bv8>,
                     offset: nat)
    requires written + copied <= |initial| && offset + written + copied <= |file|
    requires Filled(before, initial, file, offset, written)
    requires after == before[..written] + file[offset + written..offset + written + copied] + before[written + copied..]
    ensures Filled(after, initial, file, offset, written + copied)
  {
    assert before[..written] == file[offset..offset + written];
    assert before[written + copied..] == initial[written + copied..];
  }
}
