# better-blockmap chunking core in Dafny

This project models the content-defined chunker of better-blockmap and proves
properties of the model. It has two parts.

1. **The polynomial tables** (`src/table_gen.rs`, `src/table.rs`).
   - `reduce` divides an arbitrary-width integer by the fixed modulus
     `POLYNOMIAL = 0xbfe6b8a5bf378d83` over GF(2) and keeps the remainder.
   - `Table::new(window_size)` uses it to fill the two 256-entry `u64` tables
     `shift` and `drop`.
   - Big integers are `nat`. Xor is carry-less addition. The GF(2)
     operations (`Xor`, `Shl`, `Bit`, `SignificantBits`, carry-less product
     `ClMul`, `Remainder`) are defined recursively in module `GF2`.
   - `TableGen.Reduce`, `TableGen.LongDivision` and `TableGen.NewTable` are
     methods with the source's loops. They are proved against the functional
     remainder `GF2.Remainder` and the table definition `TableGen.TableFor`.
2. **The streaming chunker** (`src/lib.rs`).
   - For each byte, the chunker counts it and advances the matcher for the
     ZIP local file header signature `50 4B 03 04` (PKWARE APPNOTE.TXT,
     section 4.3.7).
   - It skips hashing while the chunk is far below `min_chunk`.
   - Otherwise it rolls a Rabin hash over a ring-buffer window and tests
     for a boundary.
   - Cut chunks wait in a FIFO. `next` drains the FIFO, and `finalize_reset`
     flushes the unfinished chunk.
   - How the model is built:
     - The per-byte behaviour is a pure function `Chunker.Step` on a `State`
       value. `Chunker.Feed` folds it over a byte sequence.
     - The class `Chunker.Chunker` holds the source's fields. `window` is an
       `array<u8>` and the chunk list is a `seq<Chunk>`. Its methods are
       proved to move the fields exactly as `Step`/`Feed` move the state.
     - The class invariant `Valid` ties the fields to the stream fed since the
       last `finalize_reset`. Ghost fields record the bytes rolled into the
       hash since the last reset and every chunk queued since the last
       finalize.
   - The rolling hash is proved exact. Module `RabinHash` defines the hash of
     a window as the GF(2) remainder of its bytes read as one polynomial. The
     table-driven update with 64-bit wrap-around yields the hash of the slid
     window.

The digests (Blake2b with an 18-byte output per chunk, SHA-512 for the
stream) are kept symbolic. A digest is the algorithm together with the exact
bytes it was fed (`Blake2b18(bytes)`, `Sha512(bytes)`). This lets the model
state which bytes each digest covers.

The code relies on three things it never checks:
- `window_size > 0`, for the `%` on the cursor;
- `avg_chunk >= 1`, for the mask `avg_chunk - 1`;
- `min_chunk <= max_chunk`.

These three are `ChunkerOptions.Supported`, which is the precondition of
`Chunker::new`. The code does not check that `avg_chunk` is a power of two.
Any `avg_chunk >= 1` is accepted and the mask is `avg_chunk - 1`.

The matcher does not retry a mismatching byte as a first signature byte, so
it misses the signature right after a stray `0x50`.
`Chunker.ZipHeaderAfterStrayPIsMissed` proves this.

Files: `words.dfy` (machine words), `gf2.dfy` (GF(2) polynomials), `table.dfy`
(`Table` and its constants), `table_gen.dfy` (`reduce`, `Table::new`),
`rabin.dfy` (the rolling hash), `chunker.dfy` (the state machine and the
`Chunker` class).

## Model

| member | source | states |
|---|---|---|
| GF2.RemainderIsRemainder | src/table_gen.rs:16-19 | the remainder has fewer significant bits than the modulus, and value Xor remainder is a carry-less multiple of the modulus |
| GF2.RemainderCharacterised | src/table_gen.rs:16-22 | any value of lower degree than the modulus that differs from v by a carry-less multiple of it is the remainder of v (uniqueness) |
| GF2.RemainderOfReduced | src/table_gen.rs:9-11 | a value with fewer significant bits than the modulus is its own remainder |
| GF2.RemainderBound | src/table_gen.rs:13-22 | the remainder is below 2^(modulo_bits - 1) |
| GF2.RemainderXor | src/table_gen.rs:16-19 | reduction is linear: the remainder of a Xor is the Xor of the remainders |
| GF2.RemainderShl | src/table_gen.rs:16-19 | shifting commutes with reduction: (a·x^k) mod m equals ((a mod m)·x^k) mod m |
| GF2.Remainder | src/table_gen.rs:6-23 | the remainder of v by a nonzero modulus has fewer significant bits than the modulus |
| TableGen.Reduce | src/table_gen.rs:6-23 | `reduce` returns the GF(2) remainder of value by modulo, truncated to 64 bits, and returns the value itself (truncated) when it has fewer bits than the modulus |
| TableGen.LongDivision | src/table_gen.rs:13-20 | the descending loop leaves exactly the remainder; its invariants are that all bits at or above modulo_bits - 1 + i are clear and that value Xor result is a multiple of the modulus |
| TableGen.DivisionStep | src/table_gen.rs:17-19 | the loop body Xors modulo << i in exactly when bit modulo_bits + i - 1 is set, clears that bit and keeps the difference a multiple of the modulus |
| TableGen.CancelStep | src/table_gen.rs:17-19 | Xoring in modulo·x^i when its top bit is set lowers the degree below modulo_bits - 1 + i and adds x^i to the quotient |
| TableGen.TableFor | src/table.rs:7-10 | the tables built for any window size hold 256 shift and 256 drop entries |
| TableGen.NewTable | src/table_gen.rs:25-41 | `Table::new` fills every entry of both arrays and returns exactly the tables defined by TableFor, a deterministic function of window_size |
| TableGen.FillShift | src/table_gen.rs:36-37 | shift[i] becomes the reduced i << (degree - 1) Xored with its wrapped 64-bit value; the entries already filled are kept |
| TableGen.FillDrop | src/table_gen.rs:38 | drop[i] becomes the reduced i << (8·window_size); the entries already filled are kept |
| TableGen.PolynomialsAgree | src/table.rs:4 | the modulus of table.rs equals the generator's constant 0xbfe6b8a5bf378d83 (src/table_gen.rs:4) |
| TableGen.PolynomialDegree | src/table_gen.rs:32-33 | the top set bit of POLYNOMIAL is bit 63, so `degree` is 64 and degree - 1 is 63 |
| TableGen.RemainderFits63 | src/table_gen.rs:22 | every remainder modulo POLYNOMIAL is below 2^63, so the final to_u64_wrapping never truncates |
| TableGen.ShiftedIndexKeepsLowBit | src/table_gen.rs:37 | the wrapping i << 63 keeps only bit 0 of i, at bit 63 |
| TableGen.ShiftEntry | src/table_gen.rs:36-38 | shift[i] is bit 0 of i placed at bit 63 plus the remainder of i·x^63, the two parts being disjoint |
| TableGen.DropEntry | src/table_gen.rs:36-38 | drop[i] is the remainder of i·x^(8·window_size) and is below 2^63 |
| TableGen.ShiftEntryShape | src/table_gen.rs:36-37 | shift[i] has bit 63 equal to i & 1 and low 63 bits equal to the remainder of i·x^63 |
| TableGen.DropEntryShape | src/table_gen.rs:38 | drop[i] is the remainder of i·x^(8·window_size), hence below 2^63 |
| TableGen.TableZeroEntries | src/table_gen.rs:52-53 | shift[0] and drop[0] are 0 for every window size |
| RabinHash.WindowHash | src/lib.rs:116-125 | the hash of a window, the remainder of its bytes read as one polynomial, is below 2^63 |
| RabinHash.RollHash | src/lib.rs:117-125 | from a hash with bit 63 clear, with a drop entry below 2^63 and a shift entry whose bit 63 is the parity of its index, the rolled hash again has bit 63 clear |
| RabinHash.TableForRollingSafe | src/lib.rs:124-125 | the generated tables have drop entries below 2^63 and shift entries whose bit 63 is the parity of the index |
| RabinHash.RollHashBound | src/lib.rs:118-125 | from a hash with bit 63 clear the update keeps bit 63 clear for any bytes, so hash >> 55 stays below 256 |
| RabinHash.RollHashCorrect | src/lib.rs:116-125 | hash << 8 ^ b ^ drop[oldest] ^ shift[hash >> 55] with 64-bit wrap, started from the hash of the window, is the hash of the window slid by byte b |
| RabinHash.EmptyWindowHash | src/lib.rs:170-175 | an all-zero window has hash 0, which is what reset leaves |
| RabinHash.RollingEquivalence | src/lib.rs:205-215 | the hash depends only on the last window_size bytes hashed |
| Chunker.DefaultOptionsSupported | src/lib.rs:28-38 | the default options (window DEFAULT_WINDOW_SIZE = 64 of src/table.rs:1, 8/16/32 KiB, detection off) meet the code's assumptions, with min <= avg <= max and avg = 2^14 |
| Chunker.DefaultOptions | src/lib.rs:28-38 | the default options meet the code's assumptions and have min_chunk <= avg_chunk <= max_chunk |
| Chunker.StepKeepsWf | src/lib.rs:117-125 | one byte keeps the cursor below window_size, the window length at window_size and bit 63 of the hash clear |
| Chunker.ZipAfter | src/lib.rs:100-107 | the ZIP counter stays, starts over at 0, or advances by one only on the expected signature byte; with detection off it stays |
| Chunker.Skips | src/lib.rs:112 | a skipped byte leaves the chunk below min_chunk, and a completed signature is never skipped |
| Chunker.CutHere | src/lib.rs:127-130 | the signature and size >= max_chunk always cut; any other cut has size >= min_chunk |
| Chunker.Step | src/lib.rs:98-141 | a byte either joins the chunk in progress, or queues exactly one chunk: the chunk in progress followed by that byte, with the digest of exactly those bytes |
| Chunker.Feed | src/lib.rs:97-142 | feeding any bytes keeps the state well formed |
| Chunker.StepSkipped | src/lib.rs:111-114 | a byte in the fast-skip region only grows the chunk and moves the ZIP counter; the hash, window and cursor are unchanged |
| Chunker.StepRolled | src/lib.rs:116-133 | a hashed byte that cuts nothing writes the window at the cursor, advances it modulo window_size and rolls the hash |
| Chunker.StepCut | src/lib.rs:135-141 | a byte that ends a chunk queues Chunk(size, digest of exactly its bytes) and clears hash, size, ZIP counter and window; the cursor moves past the byte and the reset leaves it there |
| Chunker.ZipPrefixStep | src/lib.rs:100-107 | the ZIP counter advances on the expected signature byte and falls to 0 on a mismatch, so the chunk always ends with that many signature bytes; it stays 0 with detection off |
| Chunker.StepCoverage | src/lib.rs:98-141 | a byte either joins the chunk in progress or cuts exactly one chunk made of the chunk in progress and that byte, within the size bounds |
| Chunker.CutChunkOk | src/lib.rs:127-130 | a chunk cut by the boundary test has 1 <= size <= max(max_chunk, 1), and size >= min_chunk unless it ends with the signature and detection is on |
| Chunker.FeedCoverage | src/lib.rs:97-146 | across a feed, the queued chunks only grow at the back; their bytes followed by the chunk in progress are the old chunk in progress followed by the data; each is within bounds |
| Chunker.SizeSumCountsBytes | src/lib.rs:136-138 | the sizes of chunks whose digests cover their bytes add up to the number of those bytes |
| Chunker.FeedKeepsStream | src/lib.rs:89-147 | if the chunks so far and the chunk in progress are the stream so far, they still are after a feed, with the chunks within bounds |
| Chunker.FlushCoversStream | src/lib.rs:149-167 | flushing the nonempty chunk in progress makes the chunks' bytes the whole stream and their sizes sum to its length |
| Chunker.StepHashInv | src/lib.rs:116-125 | one byte keeps the register equal to the hash of the bytes rolled since the last reset and the ring buffer equal to those bytes, oldest at the cursor |
| Chunker.FeedHashInv | src/lib.rs:97-142 | the same across a whole feed |
| Chunker.FeedHashesEveryByte | src/lib.rs:111-114 | with min_chunk <= window_size and no cut, every byte fed is rolled into the hash |
| Chunker.RollingHashEquivalence | src/lib.rs:205-215 | from reset states, feeding a long input and feeding only its last window_size bytes give the same hash when nothing is cut and nothing skipped |
| Chunker.ZipHeaderForcesCut | src/lib.rs:109-113 | completing the signature cuts a chunk right after its last byte, whatever the size and even in the fast-skip region |
| Chunker.ZipDetectionOff | src/lib.rs:100 | with detection off the ZIP counter stays 0 and every chunk cut is at least min_chunk long |
| Chunker.FastSkipFeed | src/lib.rs:111-114 | below the skip threshold and before the signature completes, a feed leaves hash, window and cursor as they were and cuts nothing |
| Chunker.ZipHeaderAfterStrayPIsMissed | src/lib.rs:100-107 | the bytes 50 50 4B 03 04 in the fast-skip region cut no chunk and leave the counter at 0 |
| Chunker.ZipHeaderCutsBelowMinimum | src/lib.rs:100-113 | the signature inside the fast-skip region cuts a chunk of size chunk_size + 4 covering exactly its bytes |
| Chunker.ClearedState | src/lib.rs:170-175 | a cleared state (hash 0, zero window, empty chunk) is well formed, coherent and holds the hash of nothing |
| Chunker.FeedKeepsInv | src/lib.rs:89-147 | a feed keeps the whole invariant, with the chunks it cuts appended to those recorded |
| Chunker.RingStep | src/lib.rs:119-120 | writing at the cursor and advancing it modulo the length slides the ring buffer's contents by one byte |
| Chunker.Chunker.constructor | src/lib.rs:68-87 | `new` builds the tables for the window, zeroes every window byte, clears hash, cursor, size and ZIP counter, and starts with nothing hashed, an empty stream and an empty queue |
| Chunker.Chunker.Reset | src/lib.rs:170-175 | `reset` zeroes hash, chunk size, ZIP counter and the whole window and changes nothing else |
| Chunker.Chunker.CountByte | src/lib.rs:98-107 | the chunk grows by one and the ZIP counter moves as ZipAfter says |
| Chunker.Chunker.RollWindow | src/lib.rs:116-125 | the byte replaces the window byte at the cursor, the cursor advances modulo window_size and the hash rolls |
| Chunker.Chunker.EmitChunk | src/lib.rs:135-141 | the chunk hasher takes the rest of the chunk, the chunk is queued with that digest and the rolling state is reset |
| Chunker.Chunker.UpdateByte | src/lib.rs:98-141 | one loop turn moves the fields exactly as Step moves the state and queues at most one chunk |
| Chunker.Chunker.ScanByte | src/lib.rs:97-142 | one loop turn keeps the fields equal to the feed of the bytes so far |
| Chunker.Chunker.ScanBytes | src/lib.rs:97-142 | the loop leaves the fields equal to Feed of the data, with the chunk hasher missing only data[chunk_start..] |
| Chunker.Chunker.Update | src/lib.rs:89-147 | `update` feeds the data through Step, appends it to the stream digest and total, only appends to the queue, and keeps the invariant |
| Chunker.Chunker.CloseChunk | src/lib.rs:150-162 | the chunk in progress is queued exactly when it is nonempty; total and rolling state are cleared |
| Chunker.Chunker.FinalizeReset | src/lib.rs:149-168 | `finalize_reset` returns the total and the digest of the whole stream, queues a nonempty last chunk of size 1..max_chunk-1, clears total, size, hash, ZIP counter and window, keeps queued chunks, and the chunks of the stream cover it byte for byte with sizes summing to the total |
| Chunker.Chunker.Next | src/lib.rs:181-183 | `next` pops the front of the queue, or returns None when it is empty, and changes nothing else |

## Left out

- Digests: Blake2b and SHA-512 are not computed. A digest is the algorithm together with the bytes it absorbed.
- Integer width: overflow of `usize` in `total_size` and `chunk_size` is not modelled; the counters are `nat`.
- `src/table_const.rs`, the precomputed tables of the default build, is not part of this model. Tables always come from the generator's definition.
- `src/main.rs` is not modelled. It is command-line parsing, file I/O, serialisation and compression.
- The concrete regression tests are not reproduced: the 24-chunk stream, the 0xFF stream, the hash value 1976718474515856107 and the table fixtures of `src/table_gen.rs:55-65`. They need concrete evaluation of very wide integers or long inputs.
- Chunker.SizeCap: a chunk cut by `update` can have size 1 when `max_chunk` is 0, because the size test comes after the byte is counted. The bound is stated as `1 <= size <= max(max_chunk, 1)`.
- Chunker.Chunker.Reset is private in the source. It is modelled as a method and used by `update` and `finalize_reset`, as in the source.
- TableGen.ShiftEntry writes the shift amount as 63. TableGen.PolynomialDegree proves that this is `degree - 1`, which FillShift computes.
- TableGen.ShiftedIndexWrapping: the model fixes a 64-bit target, where `usize` is `u64` (`Words.usize`). On a 32-bit target the `(i << (degree - 1)) as u64` of src/table_gen.rs:37 shifts past the width of `usize`; TableGen.ShiftEntry, TableGen.FillShift and TableGen.ShiftedIndexKeepsLowBit assume the 64-bit wrap.
- Aliasing: the tables are immutable values. In the source they are arrays owned by the chunker, never written after construction.
