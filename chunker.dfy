/**
 * The streaming content-defined chunker: per byte it counts, advances the
 * ZIP local-file-header matcher, skips hashing far below the minimum chunk
 * size, otherwise rolls the Rabin hash over the sliding window and decides
 * whether to cut a chunk. Completed chunks wait in a FIFO.
 *
 * The per-byte behaviour is first given as a function on a `State` value
 * (`Step`, folded over a byte sequence by `Feed`); the `Chunker` class then
 * does the same work in place and is proved to agree with it.
 */
module Chunker {
  import opened GF2
  import opened Words
  import PolyTable
  import opened TableGen
  import opened RabinHash

  datatype Option<T> = None | Some(value: T)

  /** The ZIP local file header signature 0x04034b50, as it appears in the stream. */
  const ZIP_HEADER: seq<u8> := [0x50, 0x4B, 0x03, 0x04]

  datatype ChunkerOptions = ChunkerOptions(
    windowSize: usize,
    minChunk: usize,
    avgChunk: usize,
    maxChunk: usize,
    detectZipBoundary: bool)
  {
    /**
     * What the code relies on without checking: a nonempty window (for the
     * `%` on the window offset), avgChunk >= 1 (for `avg_chunk - 1`) and
     * minChunk <= maxChunk (for the size bounds).
     */
    predicate Supported()
    {
      windowSize > 0 && avgChunk >= 1 && minChunk <= maxChunk
    }

    /** The boundary mask `avg_chunk - 1`. */
    function HashMask(): (mask: u64)
      requires avgChunk >= 1
    {
      avgChunk - 1
    }
  }

  /** `ChunkerOptions::default()` */
  function DefaultOptions(): (o: ChunkerOptions)
    ensures o.Supported() && o.minChunk <= o.avgChunk <= o.maxChunk
  {
    ChunkerOptions(PolyTable.DEFAULT_WINDOW_SIZE, 8 * 1024, 16 * 1024, 32 * 1024, false)
  }

  /**
   * A digest, kept as the algorithm and the exact bytes it was computed
   * over: the hash functions themselves are not modelled.
   */
  datatype Digest = Blake2b18(input: seq<u8>) | Sha512(input: seq<u8>)

  datatype Chunk = Chunk(size: nat, digest: Digest)

  datatype Stats = Stats(size: nat, sha512: Digest)

  /** The bytes of a sequence of chunks, in order. */
  function ChunkBytes(chunks: seq<Chunk>): (bytes: seq<u8>)
  {
    if chunks == [] then [] else ChunkBytes(chunks[..|chunks| - 1]) + chunks[|chunks| - 1].digest.input
  }

  /** The sum of the sizes of a sequence of chunks. */
  function SizeSum(chunks: seq<Chunk>): (total: nat)
  {
    if chunks == [] then 0 else SizeSum(chunks[..|chunks| - 1]) + chunks[|chunks| - 1].size
  }

  /*** The per-byte state machine ***/

  /**
   * The chunker's mutable fields as a value: the hash register, the window
   * buffer and its cursor, the current chunk's size, the ZIP match counter,
   * the bytes the per-chunk hasher has absorbed, and the chunk queue.
   */
  datatype State = State(
    hash: u64,
    window: seq<u8>,
    windowOffset: nat,
    chunkSize: nat,
    zipHeaderOffset: nat,
    chunkInput: seq<u8>,
    chunks: seq<Chunk>)

  /** What one step needs: supported options, safe tables, a well-shaped window and bit 63 of the hash clear. */
  ghost predicate Wf(o: ChunkerOptions, t: PolyTable.Table, s: State)
  {
    o.Supported() && RollingSafe(t) &&
    |s.window| == o.windowSize && s.windowOffset < o.windowSize && s.hash < TWO_63
  }

  /** The ZIP match counter after byte b: advance on the expected byte, otherwise start over. */
  function ZipAfter(o: ChunkerOptions, zip: nat, b: u8): (next: nat)
    // the counter either stays, advances by one on the expected signature byte, or starts over
    ensures next == 0 || next == zip || next == zip + 1
    ensures next == zip + 1 ==> zip < |ZIP_HEADER| && ZIP_HEADER[zip] == b
    ensures !o.detectZipBoundary ==> next == zip
  {
    if o.detectZipBoundary && zip < |ZIP_HEADER| then
      if ZIP_HEADER[zip] == b then zip + 1 else 0
    else zip
  }

  /** Far enough below minChunk that the byte need not be hashed. */
  predicate Skips(o: ChunkerOptions, size: nat, seenZipHeader: bool)
    // a skipped byte never completes a chunk of minChunk bytes, and the signature is never skipped
    ensures Skips(o, size, seenZipHeader) && o.windowSize > 0 ==> size < o.minChunk
    ensures seenZipHeader ==> !Skips(o, size, seenZipHeader)
  {
    size + o.windowSize <= o.minChunk && !seenZipHeader
  }

  /** The boundary test after a hashed byte. */
  predicate CutHere(o: ChunkerOptions, size: nat, hash: u64, seenZipHeader: bool)
    requires o.avgChunk >= 1
    // the signature and the hard cap always cut; otherwise a cut needs at least minChunk bytes
    ensures seenZipHeader || size >= o.maxChunk ==> CutHere(o, size, hash, seenZipHeader)
    ensures CutHere(o, size, hash, seenZipHeader) && !seenZipHeader && size < o.maxChunk ==> size >= o.minChunk
  {
    seenZipHeader
    || (size >= o.minChunk && And(hash, o.HashMask()) == o.HashMask())
    || size >= o.maxChunk
  }

  /** The state after one byte. */
  function Step(o: ChunkerOptions, t: PolyTable.Table, s: State, b: u8): (r: State)
    requires Wf(o, t, s)
    // either b joins the chunk in progress, or exactly one chunk is cut: the chunk in progress followed by b
    ensures r.chunks == s.chunks || r.chunks == s.chunks + [Chunk(s.chunkSize + 1, Blake2b18(s.chunkInput + [b]))]
  {
    var size := s.chunkSize + 1;
    var zip := ZipAfter(o, s.zipHeaderOffset, b);
    var seenZipHeader := zip == |ZIP_HEADER|;
    var input := s.chunkInput + [b];
    if Skips(o, size, seenZipHeader) then
      s.(chunkSize := size, zipHeaderOffset := zip, chunkInput := input)
    else
      var hash := RollHash(t, s.hash, b, s.window[s.windowOffset]);
      var window := s.window[s.windowOffset := b];
      var offset := (s.windowOffset + 1) % o.windowSize;
      if CutHere(o, size, hash, seenZipHeader) then
        State(0, Zeros(o.windowSize), offset, 0, 0, [], s.chunks + [Chunk(size, Blake2b18(input))])
      else
        State(hash, window, offset, size, zip, input, s.chunks)
  }

  /** One step keeps the state well formed; in particular bit 63 of the hash stays clear. */
  lemma {:induction false} StepKeepsWf(o: ChunkerOptions, t: PolyTable.Table, s: State, b: u8)
    requires Wf(o, t, s)
    ensures Wf(o, t, Step(o, t, s, b))
  {
    RollHashBound(t, s.hash, b, s.window[s.windowOffset]);
  }

  /** The state after a sequence of bytes. */
  function Feed(o: ChunkerOptions, t: PolyTable.Table, s: State, data: seq<u8>): (r: State)
    requires Wf(o, t, s)
    ensures Wf(o, t, r)
    decreases |data|
  {
    if data == [] then s
    else
      var prev := Feed(o, t, s, data[..|data| - 1]);
      StepKeepsWf(o, t, prev, data[|data| - 1]);
      Step(o, t, prev, data[|data| - 1])
  }

  /** Feeding one more byte is one more step. */
  lemma {:induction false} FeedSnoc(o: ChunkerOptions, t: PolyTable.Table, s: State, data: seq<u8>, b: u8)
    requires Wf(o, t, s)
    ensures Feed(o, t, s, data + [b]) == Step(o, t, Feed(o, t, s, data), b)
  {
    assert (data + [b])[..|data|] == data;
  }

  /*** One step, case by case ***/

  /** A skipped byte is only counted and matched. */
  lemma {:induction false} StepSkipped(o: ChunkerOptions, t: PolyTable.Table, s: State, hashed: seq<u8>, b: u8)
    requires Wf(o, t, s)
    requires Skips(o, s.chunkSize + 1, ZipAfter(o, s.zipHeaderOffset, b) == |ZIP_HEADER|)
    ensures Step(o, t, s, b) ==
      s.(chunkSize := s.chunkSize + 1, zipHeaderOffset := ZipAfter(o, s.zipHeaderOffset, b), chunkInput := s.chunkInput + [b])
    ensures HashedAfter(o, t, s, hashed, b) == hashed
  {
  }

  /** A hashed byte that does not end a chunk rolls the hash and the window. */
  lemma {:induction false} StepRolled(o: ChunkerOptions, t: PolyTable.Table, s: State, hashed: seq<u8>, b: u8)
    requires Wf(o, t, s)
    requires !Skips(o, s.chunkSize + 1, ZipAfter(o, s.zipHeaderOffset, b) == |ZIP_HEADER|)
    requires !CutHere(o, s.chunkSize + 1, RollHash(t, s.hash, b, s.window[s.windowOffset]), ZipAfter(o, s.zipHeaderOffset, b) == |ZIP_HEADER|)
    ensures Step(o, t, s, b) ==
      State(RollHash(t, s.hash, b, s.window[s.windowOffset]), s.window[s.windowOffset := b],
            (s.windowOffset + 1) % o.windowSize, s.chunkSize + 1, ZipAfter(o, s.zipHeaderOffset, b),
            s.chunkInput + [b], s.chunks)
    ensures HashedAfter(o, t, s, hashed, b) == hashed + [b]
  {
  }

  /** A hashed byte that ends a chunk queues it and clears the rest. */
  lemma {:induction false} StepCut(o: ChunkerOptions, t: PolyTable.Table, s: State, hashed: seq<u8>, b: u8)
    requires Wf(o, t, s)
    requires !Skips(o, s.chunkSize + 1, ZipAfter(o, s.zipHeaderOffset, b) == |ZIP_HEADER|)
    requires CutHere(o, s.chunkSize + 1, RollHash(t, s.hash, b, s.window[s.windowOffset]), ZipAfter(o, s.zipHeaderOffset, b) == |ZIP_HEADER|)
    ensures Step(o, t, s, b) ==
      State(0, Zeros(o.windowSize), (s.windowOffset + 1) % o.windowSize, 0, 0, [],
            s.chunks + [Chunk(s.chunkSize + 1, Blake2b18(s.chunkInput + [b]))])
    ensures HashedAfter(o, t, s, hashed, b) == []
  {
  }

  /*** Invariants of reachable states ***/

  /** The last k bytes of `bytes` are the first k bytes of the signature. */
  predicate EndsWithZipPrefix(bytes: seq<u8>, k: nat)
  {
    k <= |ZIP_HEADER| && k <= |bytes| && bytes[|bytes| - k..] == ZIP_HEADER[..k]
  }

  /**
   * The chunk in progress: its size is the number of bytes the chunk hasher
   * has absorbed, it is still below maxChunk, and the ZIP counter (zero when
   * detection is off) counts signature bytes the chunk ends with.
   */
  ghost predicate Coherent(o: ChunkerOptions, s: State)
  {
    |s.chunkInput| == s.chunkSize &&
    (s.chunkSize == 0 || s.chunkSize < o.maxChunk) &&
    s.zipHeaderOffset < |ZIP_HEADER| &&
    (!o.detectZipBoundary ==> s.zipHeaderOffset == 0) &&
    EndsWithZipPrefix(s.chunkInput, s.zipHeaderOffset)
  }

  /** The largest size a chunk cut by `update` can have (a one-byte chunk when maxChunk is 0). */
  function SizeCap(o: ChunkerOptions): (cap: nat)
  {
    if o.maxChunk == 0 then 1 else o.maxChunk
  }

  /**
   * A chunk cut by `update`: its digest covers exactly its bytes, its size is
   * between 1 and the cap, and it is at least minChunk long unless it ends
   * with the ZIP signature and detection is on.
   */
  ghost predicate ChunkOk(o: ChunkerOptions, c: Chunk)
  {
    c.digest.Blake2b18? && c.size == |c.digest.input| &&
    1 <= c.size <= SizeCap(o) &&
    (c.size >= o.minChunk || (o.detectZipBoundary && EndsWithZipPrefix(c.digest.input, |ZIP_HEADER|)))
  }

  /**
   * Either no chunk is cut and byte b joins the chunk in progress, or
   * exactly one chunk is cut, made of the chunk in progress and b.
   */
  ghost predicate StepOutcome(o: ChunkerOptions, s: State, b: u8, r: State)
  {
    (r.chunks == s.chunks && r.chunkInput == s.chunkInput + [b]) ||
    (r.chunkInput == [] && |r.chunks| == |s.chunks| + 1 && r.chunks[..|s.chunks|] == s.chunks &&
     r.chunks[|s.chunks|].digest.input == s.chunkInput + [b] && ChunkOk(o, r.chunks[|s.chunks|]))
  }

  /** One step keeps the chunk in progress coherent and cuts at most one chunk, within the bounds. */
  lemma {:induction false} StepCoverage(o: ChunkerOptions, t: PolyTable.Table, s: State, b: u8)
    requires Wf(o, t, s) && Coherent(o, s)
    ensures Coherent(o, Step(o, t, s, b)) && StepOutcome(o, s, b, Step(o, t, s, b))
  {
    var size, zip, input := s.chunkSize + 1, ZipAfter(o, s.zipHeaderOffset, b), s.chunkInput + [b];
    ZipPrefixStep(o, s, b);
    var r := Step(o, t, s, b);
    if Skips(o, size, zip == |ZIP_HEADER|) {
      StepSkipped(o, t, s, [], b);
      KeptOutcome(o, s, b, r);
    } else {
      var hash := RollHash(t, s.hash, b, s.window[s.windowOffset]);
      if CutHere(o, size, hash, zip == |ZIP_HEADER|) {
        var c := Chunk(size, Blake2b18(input));
        StepCut(o, t, s, [], b);
        CutChunkOk(o, s, b, hash);
        CutOutcome(o, s, b, r, c);
      } else {
        StepRolled(o, t, s, [], b);
        KeptOutcome(o, s, b, r);
      }
    }
  }

  /** The ZIP counter after a byte counts the signature bytes the grown chunk ends with. */
  lemma {:induction false} ZipPrefixStep(o: ChunkerOptions, s: State, b: u8)
    requires Coherent(o, s)
    ensures EndsWithZipPrefix(s.chunkInput + [b], ZipAfter(o, s.zipHeaderOffset, b))
    ensures ZipAfter(o, s.zipHeaderOffset, b) != 0 ==> o.detectZipBoundary
  {
    var zip := ZipAfter(o, s.zipHeaderOffset, b);
    var input := s.chunkInput + [b];
    if zip == s.zipHeaderOffset + 1 {
      assert input[|input| - zip..] == s.chunkInput[|s.chunkInput| - s.zipHeaderOffset..] + [b];
      assert ZIP_HEADER[..zip] == ZIP_HEADER[..s.zipHeaderOffset] + [ZIP_HEADER[s.zipHeaderOffset]];
    }
  }

  /** The chunk a boundary test cuts obeys the size bounds. */
  lemma {:induction false} CutChunkOk(o: ChunkerOptions, s: State, b: u8, hash: u64)
    requires o.Supported() && Coherent(o, s)
    requires CutHere(o, s.chunkSize + 1, hash, ZipAfter(o, s.zipHeaderOffset, b) == |ZIP_HEADER|)
    requires EndsWithZipPrefix(s.chunkInput + [b], ZipAfter(o, s.zipHeaderOffset, b))
    requires ZipAfter(o, s.zipHeaderOffset, b) != 0 ==> o.detectZipBoundary
    ensures ChunkOk(o, Chunk(s.chunkSize + 1, Blake2b18(s.chunkInput + [b])))
  {
    var size, zip, input := s.chunkSize + 1, ZipAfter(o, s.zipHeaderOffset, b), s.chunkInput + [b];
    assert zip == |ZIP_HEADER| || size >= o.minChunk || size >= o.maxChunk;
    CutSizeOk(o, size, zip, input, s.chunkSize < o.maxChunk);
  }

  /** The size bounds of a cut chunk, from the reason it was cut. */
  lemma {:induction false} CutSizeOk(o: ChunkerOptions, size: nat, zip: nat, input: seq<u8>, belowMax: bool)
    requires o.minChunk <= o.maxChunk && size >= 1 && |input| == size
    requires belowMax <==> size - 1 < o.maxChunk
    requires size == 1 || belowMax
    requires zip == |ZIP_HEADER| || size >= o.minChunk || size >= o.maxChunk
    requires EndsWithZipPrefix(input, zip) && (zip != 0 ==> o.detectZipBoundary)
    ensures ChunkOk(o, Chunk(size, Blake2b18(input)))
  {
    if o.maxChunk == 0 {
      assert size == 1;
    } else {
      assert size <= o.maxChunk;
    }
    if size < o.minChunk {
      assert zip == |ZIP_HEADER|;
      assert o.detectZipBoundary && EndsWithZipPrefix(input, |ZIP_HEADER|);
    }
  }

  /** A step that cuts leaves a coherent empty chunk in progress and queues one good chunk. */
  lemma {:induction false} CutOutcome(o: ChunkerOptions, s: State, b: u8, r: State, c: Chunk)
    requires r.chunks == s.chunks + [c] && r.chunkInput == [] && r.chunkSize == 0 && r.zipHeaderOffset == 0
    requires c.digest.input == s.chunkInput + [b] && ChunkOk(o, c)
    ensures Coherent(o, r) && StepOutcome(o, s, b, r)
  {
    assert r.chunks[..|s.chunks|] == s.chunks;
  }

  /** A step that does not cut grows the chunk in progress by the byte. */
  lemma {:induction false} KeptOutcome(o: ChunkerOptions, s: State, b: u8, r: State)
    requires Coherent(o, s)
    requires r.chunks == s.chunks && r.chunkInput == s.chunkInput + [b] && r.chunkSize == s.chunkSize + 1
    requires r.chunkSize < o.maxChunk && r.zipHeaderOffset < |ZIP_HEADER|
    requires (!o.detectZipBoundary ==> r.zipHeaderOffset == 0) && EndsWithZipPrefix(r.chunkInput, r.zipHeaderOffset)
    ensures Coherent(o, r) && StepOutcome(o, s, b, r)
  {
  }

  lemma {:induction false} ChunkBytesAppend(chunks: seq<Chunk>, c: Chunk)
    ensures ChunkBytes(chunks + [c]) == ChunkBytes(chunks) + c.digest.input
  {
    assert (chunks + [c])[..|chunks|] == chunks;
  }

  lemma {:induction false} ChunkBytesAppendAll(a: seq<Chunk>, b: seq<Chunk>)
    ensures ChunkBytes(a + b) == ChunkBytes(a) + ChunkBytes(b)
    decreases |b|
  {
    if b != [] {
      var front := b[..|b| - 1];
      assert a + b == (a + front) + [b[|b| - 1]];
      assert (a + b)[..|a + b| - 1] == a + front;
      ChunkBytesAppendAll(a, front);
    } else {
      assert a + b == a;
    }
  }

  /** The coverage facts after n queued chunks survive one more step outcome. */
  lemma {:induction false} CoverageExtends(o: ChunkerOptions, n: nat, start: seq<u8>, front: seq<u8>, b: u8, p: State, r: State)
    requires n <= |p.chunks| && ChunkBytes(p.chunks[n..]) + p.chunkInput == start + front
    requires forall c :: c in p.chunks[n..] ==> ChunkOk(o, c)
    requires StepOutcome(o, p, b, r)
    ensures n <= |r.chunks| && r.chunks[..n] == p.chunks[..n]
    ensures ChunkBytes(r.chunks[n..]) + r.chunkInput == start + (front + [b])
    ensures forall c :: c in r.chunks[n..] ==> ChunkOk(o, c)
  {
    if r.chunks == p.chunks {
      CoverageNoCut(n, start, front, b, p, r);
    } else {
      CoverageCut(o, n, start, front, b, p, r);
    }
  }

  lemma {:induction false} CoverageNoCut(n: nat, start: seq<u8>, front: seq<u8>, b: u8, p: State, r: State)
    requires n <= |p.chunks| && ChunkBytes(p.chunks[n..]) + p.chunkInput == start + front
    requires r.chunks == p.chunks && r.chunkInput == p.chunkInput + [b]
    ensures ChunkBytes(r.chunks[n..]) + r.chunkInput == start + (front + [b])
  {
    var before := ChunkBytes(p.chunks[n..]);
    calc {
      ChunkBytes(r.chunks[n..]) + r.chunkInput;
      before + (p.chunkInput + [b]);
      (before + p.chunkInput) + [b];
      (start + front) + [b];
      start + (front + [b]);
    }
  }

  lemma {:induction false} CoverageCut(o: ChunkerOptions, n: nat, start: seq<u8>, front: seq<u8>, b: u8, p: State, r: State)
    requires n <= |p.chunks| && ChunkBytes(p.chunks[n..]) + p.chunkInput == start + front
    requires forall c :: c in p.chunks[n..] ==> ChunkOk(o, c)
    requires r.chunkInput == [] && |r.chunks| == |p.chunks| + 1 && r.chunks[..|p.chunks|] == p.chunks
    requires r.chunks[|p.chunks|].digest.input == p.chunkInput + [b] && ChunkOk(o, r.chunks[|p.chunks|])
    ensures r.chunks[..n] == p.chunks[..n]
    ensures ChunkBytes(r.chunks[n..]) + r.chunkInput == start + (front + [b])
    ensures forall c :: c in r.chunks[n..] ==> ChunkOk(o, c)
  {
    var pc, c := p.chunks[n..], r.chunks[|p.chunks|];
    CutChunks(p.chunks, r.chunks, n, c);
    var rc := r.chunks[n..];
    CutBytes(pc, rc, c, p.chunkInput, b, start, front);
    assert r.chunkInput == [];
    assert forall x :: x in rc ==> x in pc || x == c;
  }

  /** Cutting appends exactly one chunk to the queue. */
  lemma {:induction false} CutChunks(before: seq<Chunk>, after: seq<Chunk>, n: nat, c: Chunk)
    requires n <= |before| && |after| == |before| + 1 && after[..|before|] == before && after[|before|] == c
    ensures after[..n] == before[..n] && after[n..] == before[n..] + [c]
  {
    assert after == before + [c];
  }

  /** The bytes of the queue after a cut: the old queue's, then the cut chunk's. */
  lemma {:induction false} CutBytes(pc: seq<Chunk>, rc: seq<Chunk>, c: Chunk, input: seq<u8>, b: u8, start: seq<u8>, front: seq<u8>)
    requires rc == pc + [c] && ChunkBytes(pc) + input == start + front && c.digest.input == input + [b]
    ensures ChunkBytes(rc) + [] == start + (front + [b])
  {
    var before := ChunkBytes(pc);
    ChunkBytesAppend(pc, c);
    calc {
      ChunkBytes(rc) + [];
      before + (input + [b]);
      (before + input) + [b];
      (start + front) + [b];
      start + (front + [b]);
    }
  }

  /**
   * Coverage across a whole feed: the chunks cut are exactly the queued
   * suffix, their bytes followed by the new chunk in progress are the old
   * chunk in progress followed by the data, and every one of them obeys the
   * size bounds.
   */
  lemma {:induction false} FeedCoverage(o: ChunkerOptions, t: PolyTable.Table, s: State, data: seq<u8>)
    requires Wf(o, t, s) && Coherent(o, s)
    ensures var r := Feed(o, t, s, data);
      Coherent(o, r) &&
      |s.chunks| <= |r.chunks| && r.chunks[..|s.chunks|] == s.chunks &&
      ChunkBytes(r.chunks[|s.chunks|..]) + r.chunkInput == s.chunkInput + data &&
      (forall c :: c in r.chunks[|s.chunks|..] ==> ChunkOk(o, c))
    decreases |data|
  {
    if data == [] {
      assert s.chunks[|s.chunks|..] == [];
    } else {
      var front, b := data[..|data| - 1], data[|data| - 1];
      assert data == front + [b];
      FeedSnoc(o, t, s, front, b);
      FeedCoverage(o, t, s, front);
      var p := Feed(o, t, s, front);
      StepCoverage(o, t, p, b);
      CoverageExtends(o, |s.chunks|, s.chunkInput, front, b, p, Step(o, t, p, b));
    }
  }

  /** The sizes of chunks whose digests cover their bytes add up to the number of bytes. */
  lemma {:induction false} SizeSumCountsBytes(chunks: seq<Chunk>)
    requires forall c :: c in chunks ==> c.size == |c.digest.input|
    ensures SizeSum(chunks) == |ChunkBytes(chunks)|
    decreases |chunks|
  {
    if chunks != [] {
      SizeSumCountsBytes(chunks[..|chunks| - 1]);
    }
  }

  /** Appending the chunks cut from the data keeps "queued chunks, then the chunk in progress, are the stream". */
  lemma {:induction false} StreamExtends(emitted: seq<Chunk>, added: seq<Chunk>, pending: seq<u8>, rest: seq<u8>, stream: seq<u8>, data: seq<u8>)
    requires ChunkBytes(emitted) + pending == stream
    requires ChunkBytes(added) + rest == pending + data
    ensures ChunkBytes(emitted + added) + rest == stream + data
  {
    ChunkBytesAppendAll(emitted, added);
    calc {
      ChunkBytes(emitted + added) + rest;
      (ChunkBytes(emitted) + ChunkBytes(added)) + rest;
      ChunkBytes(emitted) + (ChunkBytes(added) + rest);
      ChunkBytes(emitted) + (pending + data);
      (ChunkBytes(emitted) + pending) + data;
    }
  }

  /**
   * What `update` keeps: if the chunks queued so far followed by the chunk
   * in progress are the stream so far, the same holds after a feed, and
   * every chunk queued is within bounds.
   */
  lemma {:induction false} FeedKeepsStream(o: ChunkerOptions, t: PolyTable.Table, s: State, emitted: seq<Chunk>, stream: seq<u8>, data: seq<u8>)
    requires Wf(o, t, s) && Coherent(o, s)
    requires ChunkBytes(emitted) + s.chunkInput == stream
    requires forall c :: c in emitted ==> ChunkOk(o, c)
    ensures var r := Feed(o, t, s, data);
      Coherent(o, r) &&
      |s.chunks| <= |r.chunks| && r.chunks[..|s.chunks|] == s.chunks &&
      ChunkBytes(emitted + r.chunks[|s.chunks|..]) + r.chunkInput == stream + data &&
      (forall c :: c in emitted + r.chunks[|s.chunks|..] ==> ChunkOk(o, c))
  {
    var r := Feed(o, t, s, data);
    FeedCoverage(o, t, s, data);
    StreamExtends(emitted, r.chunks[|s.chunks|..], s.chunkInput, r.chunkInput, stream, data);
  }

  /**
   * What `finalize_reset` reports: flushing the chunk in progress (when
   * nonempty) makes the chunks cover the whole stream, bytes and count.
   */
  lemma {:induction false} FlushCoversStream(emitted: seq<Chunk>, pending: seq<u8>, flushed: seq<Chunk>, stream: seq<u8>)
    requires ChunkBytes(emitted) + pending == stream
    requires forall c :: c in emitted ==> c.size == |c.digest.input|
    requires flushed == if pending == [] then [] else [Chunk(|pending|, Blake2b18(pending))]
    ensures ChunkBytes(emitted + flushed) == stream
    ensures SizeSum(emitted + flushed) == |stream|
  {
    if pending == [] {
      assert emitted + flushed == emitted;
    } else {
      ChunkBytesAppend(emitted, flushed[0]);
    }
    SizeSumCountsBytes(emitted + flushed);
  }

  /*** The rolling hash inside the state machine ***/

  /**
   * The hash register and the window hold the hash and the bytes of the
   * last windowSize bytes hashed since the last reset; the window is a ring
   * buffer whose oldest byte sits at the cursor.
   */
  ghost predicate HashInv(o: ChunkerOptions, s: State, hashed: seq<u8>)
  {
    s.windowOffset < |s.window| &&
    s.hash == WindowHash(hashed, o.windowSize) &&
    s.window[s.windowOffset..] + s.window[..s.windowOffset] == Recent(hashed, o.windowSize)
  }

  /** The bytes hashed since the last reset, after one more byte. */
  ghost function HashedAfter(o: ChunkerOptions, t: PolyTable.Table, s: State, hashed: seq<u8>, b: u8): (after: seq<u8>)
    requires Wf(o, t, s)
  {
    var size := s.chunkSize + 1;
    var seenZipHeader := ZipAfter(o, s.zipHeaderOffset, b) == |ZIP_HEADER|;
    if Skips(o, size, seenZipHeader) then hashed
    else if CutHere(o, size, RollHash(t, s.hash, b, s.window[s.windowOffset]), seenZipHeader) then []
    else hashed + [b]
  }

  /** The bytes hashed since the last reset, after a sequence of bytes. */
  ghost function HashedFeed(o: ChunkerOptions, t: PolyTable.Table, s: State, hashed: seq<u8>, data: seq<u8>): (after: seq<u8>)
    requires Wf(o, t, s)
    decreases |data|
  {
    if data == [] then hashed
    else
      HashedAfter(o, t, Feed(o, t, s, data[..|data| - 1]), HashedFeed(o, t, s, hashed, data[..|data| - 1]), data[|data| - 1])
  }

  lemma {:induction false} HashedFeedSnoc(o: ChunkerOptions, t: PolyTable.Table, s: State, hashed: seq<u8>, data: seq<u8>, b: u8)
    requires Wf(o, t, s)
    ensures HashedFeed(o, t, s, hashed, data + [b]) ==
            HashedAfter(o, t, Feed(o, t, s, data), HashedFeed(o, t, s, hashed, data), b)
  {
    assert (data + [b])[..|data|] == data;
  }

  /** Advancing a feed of data[..i] by data[i]: both the state and the hashed bytes take one more step. */
  lemma {:induction false} FeedAdvance(o: ChunkerOptions, t: PolyTable.Table, s0: State, h0: seq<u8>, data: seq<u8>, i: nat, st: State, hashed: seq<u8>)
    requires Wf(o, t, s0) && i < |data|
    requires st == Feed(o, t, s0, data[..i]) && hashed == HashedFeed(o, t, s0, h0, data[..i])
    ensures Wf(o, t, st)
    ensures Feed(o, t, s0, data[..i + 1]) == Step(o, t, st, data[i])
    ensures HashedFeed(o, t, s0, h0, data[..i + 1]) == HashedAfter(o, t, st, hashed, data[i])
  {
    assert data[..i + 1] == data[..i] + [data[i]];
    FeedSnoc(o, t, s0, data[..i], data[i]);
    HashedFeedSnoc(o, t, s0, h0, data[..i], data[i]);
  }

  /** Writing at the cursor and advancing it slides the ring buffer's contents by one byte. */
  lemma {:induction false} RingStep(window: seq<u8>, offset: nat, b: u8)
    requires offset < |window|
    ensures var w := window[offset := b];
      var next := (offset + 1) % |window|;
      w[next..] + w[..next] == (window[offset..] + window[..offset])[1..] + [b]
  {
    var n, next := |window|, offset + 1;
    if next == n {
      ModSelf(n);
      RingStepWrap(window, offset, b);
    } else {
      ModBelow(next, n);
      RingStepInside(window, offset, b);
    }
  }

  lemma {:induction false} ModSelf(n: nat)
    requires n > 0
    ensures n % n == 0
  {
  }

  lemma {:induction false} ModBelow(k: nat, n: nat)
    requires k < n
    ensures k % n == k
  {
  }

  /** The cursor wraps round from the last slot to the first. */
  lemma {:induction false} RingStepWrap(window: seq<u8>, offset: nat, b: u8)
    requires offset + 1 == |window|
    ensures var w := window[offset := b];
      w[0..] + w[..0] == (window[offset..] + window[..offset])[1..] + [b]
  {
    var w := window[offset := b];
    assert w[..offset] == window[..offset];
  }

  /** The cursor moves one slot along. */
  lemma {:induction false} RingStepInside(window: seq<u8>, offset: nat, b: u8)
    requires offset + 1 < |window|
    ensures var w := window[offset := b];
      w[offset + 1..] + w[..offset + 1] == (window[offset..] + window[..offset])[1..] + [b]
  {
    var w := window[offset := b];
    assert w[offset + 1..] == window[offset + 1..];
    assert w[..offset + 1] == window[..offset] + [b];
    assert (window[offset..] + window[..offset])[1..] == window[offset + 1..] + window[..offset];
  }

  /** A zeroed window with hash 0 holds the hash of nothing, whatever the cursor. */
  lemma {:induction false} ClearedHashInv(o: ChunkerOptions, r: State)
    requires r.hash == 0 && r.window == Zeros(o.windowSize) && r.windowOffset < o.windowSize
    ensures HashInv(o, r, [])
  {
    EmptyWindowHash(o.windowSize);
    assert r.window[r.windowOffset..] + r.window[..r.windowOffset] == Zeros(o.windowSize);
  }

  /** Rolling one byte in keeps the register and the window equal to the hash and bytes of the window. */
  lemma {:induction false} RolledHashInv(o: ChunkerOptions, s: State, hashed: seq<u8>, b: u8, r: State)
    requires Wf(o, TableFor(o.windowSize), s) && HashInv(o, s, hashed)
    requires r.hash == RollHash(TableFor(o.windowSize), s.hash, b, s.window[s.windowOffset])
    requires r.window == s.window[s.windowOffset := b] && r.windowOffset == (s.windowOffset + 1) % o.windowSize
    ensures HashInv(o, r, hashed + [b])
  {
    var w := o.windowSize;
    assert Recent(hashed, w)[0] == s.window[s.windowOffset];
    RollHashCorrect(hashed, b, w);
    RingStep(s.window, s.windowOffset, b);
    RecentStep(hashed, b, w);
  }

  /** One step keeps the hash register and the window equal to the hash and the bytes of the window. */
  lemma {:induction false} StepHashInv(o: ChunkerOptions, s: State, hashed: seq<u8>, b: u8)
    requires Wf(o, TableFor(o.windowSize), s) && HashInv(o, s, hashed)
    ensures HashInv(o, Step(o, TableFor(o.windowSize), s, b), HashedAfter(o, TableFor(o.windowSize), s, hashed, b))
  {
    var t := TableFor(o.windowSize);
    var size := s.chunkSize + 1;
    var seenZipHeader := ZipAfter(o, s.zipHeaderOffset, b) == |ZIP_HEADER|;
    if Skips(o, size, seenZipHeader) {
      StepSkipped(o, t, s, hashed, b);
    } else if CutHere(o, size, RollHash(t, s.hash, b, s.window[s.windowOffset]), seenZipHeader) {
      StepCut(o, t, s, hashed, b);
      ClearedHashInv(o, Step(o, t, s, b));
    } else {
      StepRolled(o, t, s, hashed, b);
      RolledHashInv(o, s, hashed, b, Step(o, t, s, b));
    }
  }

  /** Across a whole feed, the hash register and window track the bytes hashed since the last reset. */
  lemma {:induction false} FeedHashInv(o: ChunkerOptions, s: State, hashed: seq<u8>, data: seq<u8>)
    requires Wf(o, TableFor(o.windowSize), s) && HashInv(o, s, hashed)
    ensures HashInv(o, Feed(o, TableFor(o.windowSize), s, data), HashedFeed(o, TableFor(o.windowSize), s, hashed, data))
    decreases |data|
  {
    if data != [] {
      var front := data[..|data| - 1];
      FeedHashInv(o, s, hashed, front);
      StepHashInv(o, Feed(o, TableFor(o.windowSize), s, front), HashedFeed(o, TableFor(o.windowSize), s, hashed, front), data[|data| - 1]);
    }
  }

  lemma {:induction false} StepChunksGrow(o: ChunkerOptions, t: PolyTable.Table, s: State, b: u8)
    requires Wf(o, t, s)
    ensures |s.chunks| <= |Step(o, t, s, b).chunks|
  {
  }

  lemma {:induction false} FeedChunksGrow(o: ChunkerOptions, t: PolyTable.Table, s: State, data: seq<u8>)
    requires Wf(o, t, s)
    ensures |s.chunks| <= |Feed(o, t, s, data).chunks|
    decreases |data|
  {
    if data != [] {
      FeedChunksGrow(o, t, s, data[..|data| - 1]);
    }
  }

  /**
   * With minChunk at most the window size no byte is skipped, so when no
   * chunk is cut every byte fed is hashed.
   */
  lemma {:induction false} FeedHashesEveryByte(o: ChunkerOptions, t: PolyTable.Table, s: State, hashed: seq<u8>, data: seq<u8>)
    requires Wf(o, t, s) && o.minChunk <= o.windowSize
    requires |Feed(o, t, s, data).chunks| == |s.chunks|
    ensures HashedFeed(o, t, s, hashed, data) == hashed + data
    decreases |data|
  {
    if data != [] {
      var front := data[..|data| - 1];
      assert data == front + [data[|data| - 1]];
      FeedChunksGrow(o, t, s, front);
      StepChunksGrow(o, t, Feed(o, t, s, front), data[|data| - 1]);
      FeedHashesEveryByte(o, t, s, hashed, front);
    }
  }

  /**
   * Rolling equivalence: from two freshly reset states (hash 0, window all
   * zeros, any cursor), feeding a long input and feeding only its last
   * windowSize bytes end with the same hash register, provided neither feed
   * cuts a chunk and no byte is skipped.
   */
  lemma {:induction false} RollingHashEquivalence(o: ChunkerOptions, s1: State, s2: State, data: seq<u8>)
    requires o.minChunk <= o.windowSize && |data| >= o.windowSize
    requires Wf(o, TableFor(o.windowSize), s1) && HashInv(o, s1, [])
    requires Wf(o, TableFor(o.windowSize), s2) && HashInv(o, s2, [])
    requires |Feed(o, TableFor(o.windowSize), s1, data).chunks| == |s1.chunks|
    requires |Feed(o, TableFor(o.windowSize), s2, data[|data| - o.windowSize..]).chunks| == |s2.chunks|
    ensures Feed(o, TableFor(o.windowSize), s1, data).hash ==
            Feed(o, TableFor(o.windowSize), s2, data[|data| - o.windowSize..]).hash
  {
    var t := TableFor(o.windowSize);
    var tail := data[|data| - o.windowSize..];
    FeedHashInv(o, s1, [], data);
    FeedHashInv(o, s2, [], tail);
    FeedHashesEveryByte(o, t, s1, [], data);
    FeedHashesEveryByte(o, t, s2, [], tail);
    assert [] + data == data && [] + tail == tail;
    RollingEquivalence(data, o.windowSize);
  }

  /*** The ZIP matcher, the fast-skip region ***/

  /** The ZIP match counter after a sequence of bytes. */
  function ZipTrace(o: ChunkerOptions, zip: nat, data: seq<u8>): (next: nat)
    decreases |data|
  {
    if data == [] then zip else ZipAfter(o, ZipTrace(o, zip, data[..|data| - 1]), data[|data| - 1])
  }

  lemma {:induction false} ZipTraceSnoc(o: ChunkerOptions, zip: nat, data: seq<u8>, b: u8)
    ensures ZipTrace(o, zip, data + [b]) == ZipAfter(o, ZipTrace(o, zip, data), b)
  {
    assert (data + [b])[..|data|] == data;
  }

  /**
   * Completing the signature forces a cut right after its last byte,
   * whatever the chunk size and even inside the fast-skip region.
   */
  lemma {:induction false} ZipHeaderForcesCut(o: ChunkerOptions, t: PolyTable.Table, s: State, b: u8)
    requires Wf(o, t, s) && ZipAfter(o, s.zipHeaderOffset, b) == |ZIP_HEADER|
    ensures Step(o, t, s, b).chunks == s.chunks + [Chunk(s.chunkSize + 1, Blake2b18(s.chunkInput + [b]))]
    ensures Step(o, t, s, b).chunkSize == 0 && Step(o, t, s, b).zipHeaderOffset == 0
  {
  }

  /** With detection off the counter stays 0, so every cut chunk is at least minChunk long. */
  lemma {:induction false} ZipDetectionOff(o: ChunkerOptions, t: PolyTable.Table, s: State, data: seq<u8>)
    requires Wf(o, t, s) && Coherent(o, s) && !o.detectZipBoundary
    ensures Feed(o, t, s, data).zipHeaderOffset == 0
    ensures |s.chunks| <= |Feed(o, t, s, data).chunks|
    ensures forall c :: c in Feed(o, t, s, data).chunks[|s.chunks|..] ==> c.size >= o.minChunk
  {
    FeedCoverage(o, t, s, data);
  }

  /**
   * Far below minChunk, and until the signature completes, bytes are only
   * counted, matched and remembered for the chunk hasher: the hash register,
   * the window and its cursor are untouched and no chunk is cut.
   */
  lemma {:induction false} FastSkipFeed(o: ChunkerOptions, t: PolyTable.Table, s: State, data: seq<u8>)
    requires Wf(o, t, s) && s.chunkSize + |data| + o.windowSize <= o.minChunk
    requires forall k :: 0 < k <= |data| ==> ZipTrace(o, s.zipHeaderOffset, data[..k]) != |ZIP_HEADER|
    ensures var r := Feed(o, t, s, data);
      r.hash == s.hash && r.window == s.window && r.windowOffset == s.windowOffset &&
      r.chunkSize == s.chunkSize + |data| && r.chunkInput == s.chunkInput + data &&
      r.zipHeaderOffset == ZipTrace(o, s.zipHeaderOffset, data) && r.chunks == s.chunks
    decreases |data|
  {
    if data != [] {
      var front, b := data[..|data| - 1], data[|data| - 1];
      assert data == front + [b];
      forall k | 0 < k <= |front|
        ensures ZipTrace(o, s.zipHeaderOffset, front[..k]) != |ZIP_HEADER|
      {
        assert front[..k] == data[..k];
      }
      FastSkipFeed(o, t, s, front);
      FeedSnoc(o, t, s, front, b);
      ZipTraceSnoc(o, s.zipHeaderOffset, front, b);
      assert data[..|data|] == data;
      var p := Feed(o, t, s, front);
      StepSkipped(o, t, p, [], b);
      assert p.chunkInput + [b] == s.chunkInput + data;
    }
  }

  /**
   * The matcher does not retry a mismatching byte as the first signature
   * byte, so after a stray 0x50 the signature 50 4B 03 04 goes unnoticed:
   * in the fast-skip region no chunk is cut and the counter ends at 0.
   */
  lemma {:induction false} ZipHeaderAfterStrayPIsMissed(o: ChunkerOptions, t: PolyTable.Table, s: State)
    requires Wf(o, t, s) && o.detectZipBoundary && s.zipHeaderOffset == 0
    requires s.chunkSize + 5 + o.windowSize <= o.minChunk
    ensures Feed(o, t, s, [0x50, 0x50, 0x4B, 0x03, 0x04]).chunks == s.chunks
    ensures Feed(o, t, s, [0x50, 0x50, 0x4B, 0x03, 0x04]).zipHeaderOffset == 0
  {
    var data: seq<u8> := [0x50, 0x50, 0x4B, 0x03, 0x04];
    var d0: seq<u8> := [];
    var d1, d2, d3, d4 := d0 + [0x50], d0 + [0x50] + [0x50], d0 + [0x50] + [0x50] + [0x4B], d0 + [0x50] + [0x50] + [0x4B] + [0x03];
    ZipTraceSnoc(o, 0, d0, 0x50);
    ZipTraceSnoc(o, 0, d1, 0x50);
    ZipTraceSnoc(o, 0, d2, 0x4B);
    ZipTraceSnoc(o, 0, d3, 0x03);
    ZipTraceSnoc(o, 0, d4, 0x04);
    assert ZipTrace(o, 0, d1) == 1 && ZipTrace(o, 0, d2) == 0 && ZipTrace(o, 0, d3) == 0;
    assert ZipTrace(o, 0, d4) == 0 && ZipTrace(o, 0, d4 + [0x04]) == 0;
    forall k | 0 < k <= |data|
      ensures ZipTrace(o, 0, data[..k]) != |ZIP_HEADER|
    {
      if k == 1 {
        assert data[..k] == d1;
      } else if k == 2 {
        assert data[..k] == d2;
      } else if k == 3 {
        assert data[..k] == d3;
      } else if k == 4 {
        assert data[..k] == d4;
      } else {
        assert data[..k] == d4 + [0x04];
      }
    }
    assert data == d4 + [0x04];
    FastSkipFeed(o, t, s, data);
  }

  /** In the fast-skip region the whole signature still cuts a chunk right after it. */
  lemma {:induction false} ZipHeaderCutsBelowMinimum(o: ChunkerOptions, t: PolyTable.Table, s: State)
    requires Wf(o, t, s) && o.detectZipBoundary && s.zipHeaderOffset == 0
    requires s.chunkSize + 4 + o.windowSize <= o.minChunk
    ensures Feed(o, t, s, ZIP_HEADER).chunks == s.chunks + [Chunk(s.chunkSize + 4, Blake2b18(s.chunkInput + ZIP_HEADER))]
    ensures Feed(o, t, s, ZIP_HEADER).chunkSize == 0
  {
    var d0: seq<u8> := [];
    var d1, d2, d3 := d0 + [0x50], d0 + [0x50] + [0x4B], d0 + [0x50] + [0x4B] + [0x03];
    ZipTraceSnoc(o, 0, d0, 0x50);
    ZipTraceSnoc(o, 0, d1, 0x4B);
    ZipTraceSnoc(o, 0, d2, 0x03);
    assert ZipTrace(o, 0, d1) == 1 && ZipTrace(o, 0, d2) == 2 && ZipTrace(o, 0, d3) == 3;
    forall k | 0 < k <= |d3|
      ensures ZipTrace(o, 0, d3[..k]) != |ZIP_HEADER|
    {
      if k == 1 {
        assert d3[..k] == d1;
      } else if k == 2 {
        assert d3[..k] == d2;
      } else {
        assert d3[..k] == d3;
      }
    }
    FastSkipFeed(o, t, s, d3);
    var s3 := Feed(o, t, s, d3);
    FeedSnoc(o, t, s, d3, 0x04);
    ZipHeaderForcesCut(o, t, s3, 0x04);
    assert d3 + [0x04] == ZIP_HEADER;
    assert s3.chunkInput + [0x04] == s.chunkInput + ZIP_HEADER;
  }

  /** The default options meet the code's assumptions; avgChunk is the power of two 2^14. */
  lemma {:induction false} DefaultOptionsSupported()
    ensures DefaultOptions().Supported()
    ensures DefaultOptions().windowSize == PolyTable.DEFAULT_WINDOW_SIZE
    ensures DefaultOptions().minChunk <= DefaultOptions().avgChunk <= DefaultOptions().maxChunk
    ensures DefaultOptions().avgChunk == Pow2(14) && !DefaultOptions().detectZipBoundary
  {
    Pow2Add(8, 6);
    Pow2Literals();
  }

  /** A cleared state (hash 0, window zeros, chunk empty) is well formed and hashes nothing. */
  lemma {:induction false} ClearedState(o: ChunkerOptions, t: PolyTable.Table, s: State)
    requires o.Supported() && RollingSafe(t)
    requires s.hash == 0 && s.window == Zeros(o.windowSize) && s.windowOffset < o.windowSize
    requires s.chunkSize == 0 && s.zipHeaderOffset == 0 && s.chunkInput == []
    ensures Wf(o, t, s) && Coherent(o, s) && HashInv(o, s, [])
  {
    ClearedHashInv(o, s);
  }

  /**
   * What holds between two calls: the state is well formed and coherent,
   * the hash register and window track the bytes hashed since the last
   * reset, and the chunks queued since the last finalize, followed by the
   * chunk in progress, are exactly the stream fed since then.
   */
  ghost predicate Inv(o: ChunkerOptions, s: State, hashed: seq<u8>, emitted: seq<Chunk>, stream: seq<u8>)
  {
    Wf(o, TableFor(o.windowSize), s) && Coherent(o, s) && HashInv(o, s, hashed) &&
    ChunkBytes(emitted) + s.chunkInput == stream &&
    (forall c :: c in emitted ==> ChunkOk(o, c))
  }

  /** A feed keeps the invariant, with the chunks it cuts appended to those queued. */
  lemma {:induction false} FeedKeepsInv(o: ChunkerOptions, s: State, hashed: seq<u8>, emitted: seq<Chunk>, stream: seq<u8>, data: seq<u8>)
    requires Inv(o, s, hashed, emitted, stream)
    ensures var t := TableFor(o.windowSize);
      var r := Feed(o, t, s, data);
      |s.chunks| <= |r.chunks| && r.chunks[..|s.chunks|] == s.chunks &&
      Inv(o, r, HashedFeed(o, t, s, hashed, data), emitted + r.chunks[|s.chunks|..], stream + data)
  {
    var t := TableFor(o.windowSize);
    FeedKeepsStream(o, t, s, emitted, stream, data);
    FeedHashInv(o, s, hashed, data);
  }

  /** Queueing at most one chunk keeps the queued chunks a prefix-extension of the ones recorded. */
  lemma {:induction false} QueueGrows(start: seq<Chunk>, e0: seq<Chunk>, n0: nat, queued: seq<Chunk>, emittedBefore: seq<Chunk>, chunks: seq<Chunk>, emitted: seq<Chunk>)
    requires n0 <= |queued| && queued[..n0] == start && emittedBefore == e0 + queued[n0..]
    requires chunks == queued || (chunks != [] && chunks == queued + [chunks[|chunks| - 1]])
    requires chunks == queued ==> emitted == emittedBefore
    requires chunks != queued && chunks != [] ==> emitted == emittedBefore + [chunks[|chunks| - 1]]
    ensures n0 <= |chunks| && chunks[..n0] == start && emitted == e0 + chunks[n0..]
  {
    if chunks != queued {
      assert chunks[..n0] == queued[..n0];
      assert chunks[n0..] == queued[n0..] + [chunks[|chunks| - 1]];
    }
  }

  lemma {:induction false} AppendedSuffix(before: seq<Chunk>, added: seq<Chunk>, after: seq<Chunk>)
    requires after == before + added
    ensures after[|before|..] == added
  {
  }

  /*** The chunker object ***/

  class Chunker {
    const table: PolyTable.Table
    const options: ChunkerOptions
    var hash: u64
    const hashMask: u64
    const window: array<u8>
    const windowSize: nat
    var windowOffset: nat
    var chunkSize: nat
    /** The bytes absorbed by the per-chunk Blake2b-18 hasher since it was last finalized. */
    var chunkDigest: seq<u8>
    /** The bytes absorbed by the whole-stream SHA-512 hasher since it was last finalized. */
    var digest: seq<u8>
    var totalSize: nat
    var zipHeaderOffset: nat
    var chunks: seq<Chunk>

    /** The bytes fed to the rolling hash since the window was last cleared. */
    ghost var hashed: seq<u8>
    /** Every chunk queued since the last finalize_reset, whether drained or not. */
    ghost var emitted: seq<Chunk>

    /** The state machine's view of the fields, with `pending` bytes not yet handed to the chunk hasher. */
    ghost function Current(pending: seq<u8>): (st: State)
      reads this, window
    {
      State(hash, window[..], windowOffset, chunkSize, zipHeaderOffset, chunkDigest + pending, chunks)
    }

    /** The state machine's view of the fields. */
    ghost function Abs(): (st: State)
      reads this, window
    {
      Current([])
    }

    /** The fixed configuration the loop relies on: options, window buffer and mask agree, and the tables are safe. */
    ghost predicate Configured()
    {
      options.Supported() && windowSize == options.windowSize && window.Length == windowSize &&
      RollingSafe(table) && hashMask == options.HashMask()
    }

    ghost predicate Valid()
      reads this, window
    {
      Configured() && table == TableFor(windowSize) &&
      totalSize == |digest| && Inv(options, Abs(), hashed, emitted, digest)
    }

    /** A freshly cleared chunker satisfies the invariant. */
    lemma {:induction false} ClearedValid()
      requires Configured() && table == TableFor(windowSize) && windowOffset < windowSize
      requires hash == 0 && window[..] == Zeros(windowSize) && chunkSize == 0 && zipHeaderOffset == 0
      requires chunkDigest == [] && hashed == [] && digest == [] && totalSize == 0 && emitted == []
      ensures Valid()
    {
      assert Abs().chunkInput == [];
      ClearedState(options, table, Abs());
    }

    /** `Chunker::new`: builds the tables for the window size and starts empty. */
    constructor (options: ChunkerOptions)
      requires options.Supported()
      ensures Valid() && fresh(window)
      ensures this.options == options
      ensures hash == 0 && windowOffset == 0 && chunkSize == 0 && zipHeaderOffset == 0
      ensures window[..] == Zeros(windowSize) && hashed == []
      ensures chunkDigest == [] && digest == [] && totalSize == 0 && chunks == [] && emitted == []
    {
      var t := NewTable(options.windowSize);
      table := t;
      hash := 0;
      hashMask := options.avgChunk - 1;
      window := new u8[options.windowSize](_ => 0);
      windowSize := options.windowSize;
      windowOffset := 0;
      chunkSize := 0;
      chunkDigest := [];
      digest := [];
      totalSize := 0;
      zipHeaderOffset := 0;
      chunks := [];
      this.options := options;
      hashed := [];
      emitted := [];
      new;
      TableForRollingSafe(windowSize);
      assert window[..] == Zeros(windowSize);
      ClearedValid();
    }

    /** `reset`: clears the hash register, the chunk size, the ZIP counter and the window. */
    method Reset()
      requires window.Length == windowSize
      modifies this, window
      ensures hash == 0 && chunkSize == 0 && zipHeaderOffset == 0
      ensures window[..] == Zeros(windowSize) && hashed == []
      ensures windowOffset == old(windowOffset) && chunkDigest == old(chunkDigest)
      ensures digest == old(digest) && totalSize == old(totalSize)
      ensures chunks == old(chunks) && emitted == old(emitted)
    {
      hash := 0;
      chunkSize := 0;
      zipHeaderOffset := 0;
      // zero every slot of the window buffer
      for k := 0 to window.Length
        modifies window
        invariant forall j :: 0 <= j < k ==> window[j] == 0
      {
        window[k] := 0;
      }
      hashed := [];
      assert window[..] == Zeros(windowSize);
    }

    /*** One byte of `update` ***/

    /** The fields after counting byte b and matching it against the signature, before hashing. */
    ghost predicate Counted(st: State, pending: seq<u8>, b: u8)
      reads this, window
    {
      hash == st.hash && window[..] == st.window && windowOffset == st.windowOffset &&
      chunkSize == st.chunkSize + 1 && zipHeaderOffset == ZipAfter(options, st.zipHeaderOffset, b) &&
      chunkDigest + pending == st.chunkInput && chunks == st.chunks
    }

    /** A skipped byte leaves the fields where the state machine's step puts them. */
    lemma {:induction false} SkippedIsStep(st: State, h: seq<u8>, pending: seq<u8>, b: u8)
      requires Configured() && Wf(options, table, st) && Counted(st, pending, b) && hashed == h
      requires Skips(options, chunkSize, zipHeaderOffset == |ZIP_HEADER|)
      ensures Current(pending + [b]) == Step(options, table, st, b)
      ensures hashed == HashedAfter(options, table, st, h, b)
    {
      StepSkipped(options, table, st, h, b);
    }

    /** A hashed byte that ends no chunk leaves the fields where the step puts them. */
    lemma {:induction false} RolledIsStep(st: State, h: seq<u8>, pending: seq<u8>, b: u8)
      requires Configured() && Wf(options, table, st) && !Skips(options, st.chunkSize + 1, ZipAfter(options, st.zipHeaderOffset, b) == |ZIP_HEADER|)
      requires hash == RollHash(table, st.hash, b, st.window[st.windowOffset])
      requires window[..] == st.window[st.windowOffset := b] && windowOffset == (st.windowOffset + 1) % windowSize
      requires chunkSize == st.chunkSize + 1 && zipHeaderOffset == ZipAfter(options, st.zipHeaderOffset, b)
      requires chunkDigest + pending == st.chunkInput && chunks == st.chunks && hashed == h + [b]
      requires !CutHere(options, chunkSize, hash, zipHeaderOffset == |ZIP_HEADER|)
      ensures Current(pending + [b]) == Step(options, table, st, b)
      ensures hashed == HashedAfter(options, table, st, h, b)
    {
      StepRolled(options, table, st, h, b);
    }

    /** A byte that ends a chunk leaves the fields where the step puts them. */
    lemma {:induction false} CutIsStep(st: State, h: seq<u8>, b: u8)
      requires Configured() && Wf(options, table, st) && !Skips(options, st.chunkSize + 1, ZipAfter(options, st.zipHeaderOffset, b) == |ZIP_HEADER|)
      requires CutHere(options, st.chunkSize + 1, RollHash(table, st.hash, b, st.window[st.windowOffset]), ZipAfter(options, st.zipHeaderOffset, b) == |ZIP_HEADER|)
      requires hash == 0 && window[..] == Zeros(windowSize) && windowOffset == (st.windowOffset + 1) % windowSize
      requires chunkSize == 0 && zipHeaderOffset == 0 && chunkDigest == [] && hashed == []
      requires chunks == st.chunks + [Chunk(st.chunkSize + 1, Blake2b18(st.chunkInput + [b]))]
      ensures Current([]) == Step(options, table, st, b)
      ensures hashed == HashedAfter(options, table, st, h, b)
    {
      StepCut(options, table, st, h, b);
    }

    /**
     * One iteration of `update`'s loop, for the byte data[i]. The chunk
     * hasher has absorbed everything before data[chunkStart]; the result is
     * where the run of bytes it has not yet absorbed now starts.
     */
    method UpdateByte(data: seq<u8>, i: nat, chunkStart: nat, ghost st: State, ghost h: seq<u8>) returns (nextStart: nat)
      requires chunkStart <= i < |data| && Configured()
      requires st == Current(data[chunkStart..i]) && h == hashed && Wf(options, table, st)
      modifies this, window
      ensures nextStart <= i + 1
      ensures Current(data[nextStart..i + 1]) == Step(options, table, st, data[i])
      ensures hashed == HashedAfter(options, table, st, h, data[i])
      ensures chunks == old(chunks) || chunks == old(chunks) + [chunks[|chunks| - 1]]
      ensures chunks == old(chunks) ==> emitted == old(emitted)
      ensures chunks != old(chunks) ==> emitted == old(emitted) + [chunks[|chunks| - 1]]
      ensures digest == old(digest) && totalSize == old(totalSize)
    {
      ghost var pending := data[chunkStart..i];
      assert data[chunkStart..i + 1] == pending + [data[i]];
      nextStart := chunkStart;

      CountByte(data[i]);
      assert Counted(st, pending, data[i]);

      var seenZipHeader := zipHeaderOffset == |ZIP_HEADER|;

      // fast skip: the chunk is not yet within windowSize bytes of minChunk
      if chunkSize + this.windowSize <= options.minChunk && !seenZipHeader {
        SkippedIsStep(st, h, pending, data[i]);
        return;
      }

      var b := data[i];
      assert window[windowOffset] == st.window[st.windowOffset];
      RollWindow(b);
      assert hash == RollHash(table, st.hash, b, st.window[st.windowOffset]);

      if !(seenZipHeader
           || (chunkSize >= options.minChunk && And(hash, hashMask) == hashMask)
           || chunkSize >= options.maxChunk)
      {
        hashed := hashed + [b];
        RolledIsStep(st, h, pending, b);
        return;
      }

      assert CutHere(options, st.chunkSize + 1, hash, ZipAfter(options, st.zipHeaderOffset, b) == |ZIP_HEADER|);
      assert chunkDigest + data[chunkStart..i + 1] == st.chunkInput + [b];
      EmitChunk(data[chunkStart..i + 1]);
      nextStart := i + 1;
      assert data[nextStart..i + 1] == [];
      CutIsStep(st, h, b);
    }

    /** The counting part of `update`'s loop body: the chunk grows by one byte, which is matched against the signature. */
    method CountByte(b: u8)
      modifies this
      ensures chunkSize == old(chunkSize) + 1 && zipHeaderOffset == ZipAfter(options, old(zipHeaderOffset), b)
      ensures hash == old(hash) && windowOffset == old(windowOffset) && chunkDigest == old(chunkDigest)
      ensures digest == old(digest) && totalSize == old(totalSize)
      ensures chunks == old(chunks) && hashed == old(hashed) && emitted == old(emitted)
    {
      chunkSize := chunkSize + 1;

      if options.detectZipBoundary && zipHeaderOffset < |ZIP_HEADER| {
        if ZIP_HEADER[zipHeaderOffset] == b {
          zipHeaderOffset := zipHeaderOffset + 1;
        } else {
          zipHeaderOffset := 0;
        }
      }
    }

    /**
     * The hashing part of `update`'s loop body: byte b replaces the oldest
     * window byte at the cursor, the cursor advances, and the hash rolls.
     */
    method RollWindow(b: u8)
      requires Configured() && windowOffset < windowSize && hash < TWO_63
      modifies this, window
      ensures hash == RollHash(table, old(hash), b, old(window[windowOffset]))
      ensures window[..] == old(window[..])[old(windowOffset) := b]
      ensures windowOffset == (old(windowOffset) + 1) % windowSize
      ensures chunkSize == old(chunkSize) && zipHeaderOffset == old(zipHeaderOffset)
      ensures chunkDigest == old(chunkDigest) && digest == old(digest) && totalSize == old(totalSize)
      ensures chunks == old(chunks) && hashed == old(hashed) && emitted == old(emitted)
    {
      var droppedByte := window[windowOffset];
      var shiftedByte := ShiftedByte(hash);
      window[windowOffset] := b;
      windowOffset := (windowOffset + 1) % windowSize;

      // roll: shift b in, cancel the dropped byte and the bits shifted out
      var h: nat := Shl8Wrapping(hash);
      h := Xor(h, b);
      h := Xor(h, table.drop[droppedByte]);
      h := Xor(h, table.shift[shiftedByte]);
      assert h == RollHash(table, old(hash), b, droppedByte);
      RollHashBound(table, old(hash), b, droppedByte);
      hash := h;
    }

    /**
     * The boundary part of `update`'s loop body: the chunk hasher absorbs
     * the rest of the chunk and is finalized, the chunk is queued, and the
     * rolling state is cleared.
     */
    method EmitChunk(rest: seq<u8>)
      requires window.Length == windowSize
      modifies this, window
      ensures chunks == old(chunks) + [Chunk(old(chunkSize), Blake2b18(old(chunkDigest) + rest))]
      ensures emitted == old(emitted) + [Chunk(old(chunkSize), Blake2b18(old(chunkDigest) + rest))]
      ensures chunkDigest == [] && hash == 0 && chunkSize == 0 && zipHeaderOffset == 0
      ensures window[..] == Zeros(windowSize) && hashed == []
      ensures windowOffset == old(windowOffset) && digest == old(digest) && totalSize == old(totalSize)
    {
      chunkDigest := chunkDigest + rest;
      var chunk := Chunk(chunkSize, Blake2b18(chunkDigest));
      chunks := chunks + [chunk];
      chunkDigest := [];
      emitted := emitted + [chunk];
      Reset();
    }

    /*** The public operations ***/

    /**
     * The loop of `update`: every byte of data goes through the state
     * machine; the result is where the bytes not yet handed to the chunk
     * hasher start.
     */
    method ScanBytes(data: seq<u8>) returns (chunkStart: nat)
      requires Configured() && Wf(options, table, Abs())
      modifies this, window
      ensures chunkStart <= |data|
      ensures Current(data[chunkStart..]) == Feed(options, table, old(Abs()), data)
      ensures hashed == HashedFeed(options, table, old(Abs()), old(hashed), data)
      ensures |old(chunks)| <= |chunks| && chunks[..|old(chunks)|] == old(chunks)
      ensures emitted == old(emitted) + chunks[|old(chunks)|..]
      ensures digest == old(digest) && totalSize == old(totalSize)
    {
      chunkStart := 0;
      ghost var s0 := Abs();
      ghost var h0 := hashed;
      ghost var e0 := emitted;
      ghost var n0 := |chunks|;
      assert data[..0] == [] && data[0..0] == [];

      for i := 0 to |data|
        invariant chunkStart <= i
        invariant Current(data[chunkStart..i]) == Feed(options, table, s0, data[..i])
        invariant hashed == HashedFeed(options, table, s0, h0, data[..i])
        invariant n0 <= |chunks| && chunks[..n0] == s0.chunks && emitted == e0 + chunks[n0..]
        invariant digest == old(digest) && totalSize == old(totalSize)
      {
        chunkStart := ScanByte(data, i, chunkStart, s0, h0, e0, n0);
      }
      assert data[..|data|] == data;
    }

    /** One turn of the loop of `update`, stated against the feed of the bytes so far. */
    method ScanByte(data: seq<u8>, i: nat, chunkStart: nat, ghost s0: State, ghost h0: seq<u8>, ghost e0: seq<Chunk>, ghost n0: nat)
      returns (nextStart: nat)
      requires chunkStart <= i < |data| && Configured() && Wf(options, table, s0)
      requires Current(data[chunkStart..i]) == Feed(options, table, s0, data[..i])
      requires hashed == HashedFeed(options, table, s0, h0, data[..i])
      requires n0 <= |chunks| && chunks[..n0] == s0.chunks && emitted == e0 + chunks[n0..]
      modifies this, window
      ensures nextStart <= i + 1
      ensures Current(data[nextStart..i + 1]) == Feed(options, table, s0, data[..i + 1])
      ensures hashed == HashedFeed(options, table, s0, h0, data[..i + 1])
      ensures n0 <= |chunks| && chunks[..n0] == s0.chunks && emitted == e0 + chunks[n0..]
      ensures digest == old(digest) && totalSize == old(totalSize)
    {
      FeedAdvance(options, table, s0, h0, data, i, Current(data[chunkStart..i]), hashed);
      ghost var queued, queuedAll := chunks, emitted;
      nextStart := UpdateByte(data, i, chunkStart, Current(data[chunkStart..i]), hashed);
      QueueGrows(s0.chunks, e0, n0, queued, queuedAll, chunks, emitted);
    }

    /** `update`: feeds a slice of the stream, queueing every chunk it completes. */
    method Update(data: seq<u8>)
      requires Valid()
      modifies this, window
      ensures Valid()
      ensures Abs() == Feed(options, table, old(Abs()), data)
      ensures hashed == HashedFeed(options, table, old(Abs()), old(hashed), data)
      ensures digest == old(digest) + data && totalSize == old(totalSize) + |data|
      ensures |old(chunks)| <= |chunks| && chunks[..|old(chunks)|] == old(chunks)
      ensures emitted == old(emitted) + chunks[|old(chunks)|..]
    {
      ghost var s0, h0, e0 := Abs(), hashed, emitted;
      digest := digest + data;
      totalSize := totalSize + |data|;
      assert Abs() == s0;

      var chunkStart := ScanBytes(data);

      ghost var fed := Current(data[chunkStart..]);
      if chunkStart < |data| {
        chunkDigest := chunkDigest + data[chunkStart..];
      } else {
        assert data[chunkStart..] == [];
      }
      assert Abs() == fed;
      FedValid(s0, h0, e0, old(digest), data);
    }

    /** After a feed the fields meet the invariant again, with the chunks cut appended to those recorded. */
    lemma {:induction false} FedValid(s0: State, h0: seq<u8>, e0: seq<Chunk>, stream: seq<u8>, data: seq<u8>)
      requires Configured() && table == TableFor(windowSize) && Inv(options, s0, h0, e0, stream)
      requires Abs() == Feed(options, table, s0, data) && hashed == HashedFeed(options, table, s0, h0, data)
      requires |s0.chunks| <= |chunks| && emitted == e0 + chunks[|s0.chunks|..]
      requires digest == stream + data && totalSize == |digest|
      ensures Valid()
    {
      FeedKeepsInv(options, s0, h0, e0, stream, data);
    }

    /**
     * `finalize_reset`: queues the unfinished chunk (if any), returns the
     * byte count and stream digest since the last call, and starts over;
     * the chunks already queued stay queued.
     */
    method FinalizeReset() returns (stats: Stats)
      requires Valid()
      modifies this, window
      ensures Valid()
      ensures stats == Stats(old(totalSize), Sha512(old(digest)))
      ensures old(chunkSize) == 0 ==> chunks == old(chunks)
      ensures old(chunkSize) != 0 ==> chunks == old(chunks) + [Chunk(old(chunkSize), Blake2b18(old(chunkDigest)))]
      ensures old(chunkSize) != 0 ==> 1 <= old(chunkSize) < options.maxChunk
      ensures hash == 0 && chunkSize == 0 && zipHeaderOffset == 0 && window[..] == Zeros(windowSize)
      ensures windowOffset == old(windowOffset)
      ensures totalSize == 0 && digest == [] && chunkDigest == [] && emitted == []
      // the chunks of the finished stream cover it exactly
      ensures ChunkBytes(old(emitted) + chunks[|old(chunks)|..]) == stats.sha512.input
      ensures SizeSum(old(emitted) + chunks[|old(chunks)|..]) == stats.size
    {
      ghost var e0, q0, pending := emitted, chunks, chunkDigest;
      StreamFacts();

      var totalSize := this.totalSize;
      CloseChunk();

      stats := Stats(totalSize, Sha512(digest));
      digest := [];
      emitted := [];

      ghost var flushed := if pending == [] then [] else [Chunk(|pending|, Blake2b18(pending))];
      AppendedSuffix(q0, flushed, chunks);
      FlushCoversStream(e0, pending, flushed, stats.sha512.input);
      ClearedValid();
    }

    /**
     * The part of `finalize_reset` that closes the chunk in progress: the
     * chunk hasher is finalized, the byte count cleared, the rolling state
     * reset, and the chunk queued unless it is empty.
     */
    method CloseChunk()
      requires window.Length == windowSize
      modifies this, window
      ensures old(chunkSize) == 0 ==> chunks == old(chunks)
      ensures old(chunkSize) != 0 ==> chunks == old(chunks) + [Chunk(old(chunkSize), Blake2b18(old(chunkDigest)))]
      ensures hash == 0 && chunkSize == 0 && zipHeaderOffset == 0 && window[..] == Zeros(windowSize) && hashed == []
      ensures windowOffset == old(windowOffset) && totalSize == 0 && chunkDigest == []
      ensures digest == old(digest) && emitted == old(emitted)
    {
      var chunkSize := this.chunkSize;
      var chunkDigestValue := Blake2b18(this.chunkDigest);
      chunkDigest := [];

      this.totalSize := 0;
      Reset();

      if chunkSize != 0 {
        chunks := chunks + [Chunk(chunkSize, chunkDigestValue)];
      }
    }

    /** What the invariant says about the chunk in progress and the chunks queued since the last finalize_reset. */
    lemma {:induction false} StreamFacts()
      requires Valid()
      ensures ChunkBytes(emitted) + chunkDigest == digest && |chunkDigest| == chunkSize
      ensures chunkSize != 0 ==> chunkSize < options.maxChunk
      ensures forall c :: c in emitted ==> c.size == |c.digest.input|
    {
    }

    /** `Iterator::next`: takes the oldest queued chunk, if there is one. */
    method Next() returns (next: Option<Chunk>)
      requires Valid()
      modifies this
      ensures Valid()
      ensures old(chunks) == [] ==> next == None && chunks == []
      ensures old(chunks) != [] ==> next == Some(old(chunks)[0]) && chunks == old(chunks)[1..]
      ensures hash == old(hash) && windowOffset == old(windowOffset) && chunkSize == old(chunkSize)
      ensures zipHeaderOffset == old(zipHeaderOffset) && chunkDigest == old(chunkDigest)
      ensures digest == old(digest) && totalSize == old(totalSize)
      ensures hashed == old(hashed) && emitted == old(emitted)
    {
      if chunks == [] {
        next := None;
      } else {
        next := Some(chunks[0]);
        chunks := chunks[1..];
      }
    }
  }
}
