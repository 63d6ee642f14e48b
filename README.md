# seastar: temporary memory allocator and LZ4 fragmented RPC compressor

This project models two independent, single-threaded parts of seastar, with
proofs.

**The temporary memory allocator** (`temporary_memory_allocator.dfy`) is a
monotonic arena for short-lived objects.
- Objects of up to 32 KiB are bump-allocated inside the open 128 KiB block,
  at 16-byte alignment.
- Every block is aligned to its size and starts with a header holding an
  `int32_t` use count. `free` finds the header by rounding the pointer down.
- While a block is open, its header counts only frees, so it stays at or
  below zero. The allocations are counted in `_current_use_count`.
- Closing the block adds the two together. A block whose sum is zero is given
  back at once. Otherwise the header holds the live count, and the block is
  given back when its last object is freed.
- A larger object gets a region of its own, with a header whose count is one.

The model is a class with the allocator's fields over a `SystemHeap` class,
which stands for `aligned_alloc`, `posix_memalign` and `::free`. A ghost map
records the live objects. Each method is proved against a specification
function over an `AllocatorState` value. `InvOf` is the invariant on that
value. It says:
- objects lie inside their block;
- a closed block's count equals its number of live objects and is positive;
- the open block's count is at most zero, and adding the pending allocations
  gives its number of live objects;
- regions do not overlap the open block;
- a large object is the only live object of its region, which is never the
  open block;
- no two live objects overlap.

**The LZ4_FRAGMENTED compressor** (`lz4_format.dfy`,
`lz4_fragmented_compressor.dfy`) frames an RPC message as chunks, each behind
a 4-byte little-endian header.
- An intermediate chunk holds 128 KiB of input. Bit 31 of its header is
  clear, and the low 31 bits give its compressed size.
- The last chunk's header has bit 31 set, and the low 31 bits give its
  decompressed size. Its compressed bytes are the rest of the message.

`lz4_format.dfy` states the wire format as functions: chunking, framing,
parsing and decoding. It proves:
- exactly one chunk carries the flag, and it is the last;
- parsing inverts serialisation;
- decoding inverts encoding.

`lz4_fragmented_compressor.dfy` holds `compress` and `decompress` as the
source writes them, except where noted under Left out. They are loops over fragmented buffers (`seq<seq<byte>>`)
with a persistent staging buffer. Each is proved equal to the format
functions. The LZ4 library itself is a `Codec` value of functions. What the
framing relies on it for is stated by two predicates, which the lemmas take
as preconditions: `CodecBounds` (LZ4_COMPRESSBOUND bounds every output) and
`CodecRoundTrips` (decompressing with the same history gives the chunk back).
`StoredCodecIsValid` shows the two can both hold.

`bytes.dfy` holds bytes, `uint32_t`, the little-endian encoding and
multi-buffer streams. `wrappers.dfy` holds `Option` and `Result`.

## Model

| member | source | states |
|---|---|---|
| TemporaryMemory.ConstantsFit | include/seastar/core/temporary_memory_allocator.hh:65-66 | A small object fits in a block after its header, and a block's size fits in an `int32_t`. At most 8191 objects fit in a block. |
| TemporaryMemory.AlignUp | include/seastar/core/temporary_memory_allocator.hh:109 | `align_up` gives a multiple of 16 that is at least the input and less than 16 above it. |
| TemporaryMemory.BlockOfInside | include/seastar/core/temporary_memory_allocator.hh:116 | `align_down` to the block size maps every address p with b <= p < b + 128 KiB, for a block-aligned b, to b. |
| TemporaryMemory.CloseKeeps | src/core/temporary_memory_allocator.cc:28-38 | `close_current` keeps the invariant and never touches a live object. It gives the open block back exactly when none of its objects is live. |
| TemporaryMemory.BumpKeeps | include/seastar/core/temporary_memory_allocator.hh:104-111 | The fast path, taken only for objects of at most 32 KiB, keeps the invariant. The new object is at the cursor, inside the open block, and apart from every live object. The cursor only moves forward and stays within the block. |
| TemporaryMemory.NewBlockKeeps | src/core/temporary_memory_allocator.cc:40-53 | A new block keeps the invariant. The object right after its header overlaps no live object and rounds down to the new block. |
| TemporaryMemory.LargeKeeps | src/core/temporary_memory_allocator.cc:55-67 | A large object keeps the invariant. It sits after the header of its own fresh region, apart from every live object. |
| TemporaryMemory.LargeFreedAtOnce | src/core/temporary_memory_allocator.cc:64-66 | The first `free` of a large object takes its count from one to zero and gives the region back. The state is then exactly what it was before the allocation. |
| TemporaryMemory.LargeFreedOnFirstFree | include/seastar/core/temporary_memory_allocator.hh:53-55 | In every state that satisfies the invariant, a live large object's header counts one. So the first `free` of that object gives its region back, whatever was allocated or freed since. |
| TemporaryMemory.LiveObjectsApart | include/seastar/core/temporary_memory_allocator.hh:100-112 | In every state that satisfies the invariant, the bytes of any two distinct live objects do not overlap, whatever sequence of `alloc` and `free` calls led there. |
| TemporaryMemory.FreeKeeps | include/seastar/core/temporary_memory_allocator.hh:114-120 | `free` keeps the invariant, and the header `align_down` finds is the object's own block. A block is given back iff it is closed and the freed object was its last live one, so the open block is never given back. |
| TemporaryMemory.NothingLiveLeavesOpenBlock | include/seastar/core/temporary_memory_allocator.hh:43-49 | With no live object left, every closed block has been given back. Only the open block, if any, is still held. |
| TemporaryMemory.SystemHeap.AlignedAlloc | src/core/temporary_memory_allocator.cc:42-45 | The system allocator gives null when it cannot cover the request and changes nothing. Otherwise it gives a fresh block-aligned region past every live one. |
| TemporaryMemory.SystemHeap.Free | src/core/temporary_memory_allocator.cc:32 | `::free` gives a live region back, and only that region. |
| TemporaryMemory.TemporaryMemoryAllocator.constructor | include/seastar/core/temporary_memory_allocator.hh:69-72 | A default-constructed allocator has no block, null pointers and zero counts, and satisfies the invariant. |
| TemporaryMemory.TemporaryMemoryAllocator.CloseCurrent | src/core/temporary_memory_allocator.cc:28-38 | The new state is `Close` of the old one. That adds the pending count into the open header, gives the block back if the sum is zero, and clears the open block, cursor and pending count. With no open block it does nothing. |
| TemporaryMemory.TemporaryMemoryAllocator.AllocateNewBlock | src/core/temporary_memory_allocator.cc:40-53 | Null, with nothing changed, when the system allocation fails. This happens before the old block is closed. Otherwise the new block is fresh, the old block is closed, the new header is 0, the pending count is 1, the cursor is past the aligned object, the end is the block's end, and the object is right after the header. |
| TemporaryMemory.TemporaryMemoryAllocator.OpenBlock | src/core/temporary_memory_allocator.cc:47-52 | The new block's header, first object, cursor, end and pending count, as `OpenNew` gives them. |
| TemporaryMemory.TemporaryMemoryAllocator.AllocateLargeObject | src/core/temporary_memory_allocator.cc:55-67 | Null, with nothing changed, when the system allocation of header plus object fails. Otherwise a fresh region whose header counts one. The pointer is right after the header, and the open block, cursor and pending count are untouched. |
| TemporaryMemory.TemporaryMemoryAllocator.AllocateRegion | src/core/temporary_memory_allocator.cc:57-66 | The system allocation for header plus object: null with nothing changed exactly when the budget cannot cover it. Otherwise a fresh region whose header counts the one object after it, as `Large` gives it. |
| TemporaryMemory.TemporaryMemoryAllocator.CountAlone | src/core/temporary_memory_allocator.cc:64-66 | The large object's header is set to one and the object recorded after it. |
| TemporaryMemory.TemporaryMemoryAllocator.Alloc | include/seastar/core/temporary_memory_allocator.hh:100-112 | Every request over 32 KiB goes to `allocate_large_object` and no other does. A small one that fits before the end goes at the cursor, with the cursor aligned up and one more pending allocation, and otherwise to `allocate_new_block`. Every object returned is 16-byte aligned, apart from the live ones and recorded under the block its address rounds down to. |
| TemporaryMemory.TemporaryMemoryAllocator.AllocateAtCursor | include/seastar/core/temporary_memory_allocator.hh:104-111 | The fast path returns the old cursor. The new state is `Bump` of the old one, and the invariant holds. |
| TemporaryMemory.TemporaryMemoryAllocator.Place | include/seastar/core/temporary_memory_allocator.hh:109-111 | The cursor is aligned up past the object, and the pending count goes up by one. |
| TemporaryMemory.TemporaryMemoryAllocator.Free | include/seastar/core/temporary_memory_allocator.hh:114-120 | The new state is `FreeObject` of the old one. That decrements the header of the pointer's block and gives the block back when the count reaches zero. The invariant holds after. |
| TemporaryMemory.TemporaryMemoryAllocator.Release | include/seastar/core/temporary_memory_allocator.hh:117-119 | The header decrement and `::free` of `free`, once the header is found. The open block and its end are unchanged. |
| TemporaryMemory.TemporaryMemoryAllocator.FreeSized | include/seastar/core/temporary_memory_allocator.hh:122-124 | `free(ptr, size)` has exactly the effect of `free(ptr)`. |
| TemporaryMemory.OperatorNew | include/seastar/core/temporary_memory_allocator.hh:137-139 | One more live object, whose bytes overlap no live object, or null with nothing live changed. A large object leaves the open block alone. |
| TemporaryMemory.OperatorDelete | include/seastar/core/temporary_memory_allocator.hh:140-142 | The object is no longer live, and the open block stays open. |
| TemporaryMemory.AllocateAll | tests/unit/temporary_memory_allocator_test.cc:35-38 | One allocation per size. Every pointer returned is live and distinct, and the live objects are exactly those returned. Each `tmp.alloc` goes through `OperatorNew`, which calls `Alloc` and only narrows its ensures. |
| TemporaryMemory.FreeAll | tests/unit/temporary_memory_allocator_test.cc:41-43 | Freeing every returned pointer once, in any shuffled order, leaves nothing live and every closed block given back. Each `tmp.free` goes through `OperatorDelete`, which calls `Free` and only narrows its ensures. |
| TemporaryMemory.FreeStep | tests/unit/temporary_memory_allocator_test.cc:41-43 | Each step of the shuffled free loop frees exactly the pointer of its index, which is still live, so nothing is freed twice. |
| TemporaryMemory.AllocateThenFreeAll | tests/unit/temporary_memory_allocator_test.cc:32-58 | Allocating, then freeing everything in shuffled order, leaves at most the open block held. When every object was large, nothing is held. |
| Bytes.Zeros | rpc/lz4_fragmented_compressor.cc:94 | A freshly allocated buffer has the requested size, and every byte of it is zero. |
| Bytes.TotalSize | rpc/lz4_fragmented_compressor.cc:221 | The summed size of a list of buffers is the length of their concatenation. |
| Bytes.LE32RoundTrip | rpc/lz4_fragmented_compressor.cc:97 | `le_to_cpu` of `write_le(v)` is `v`. |
| Bytes.LE32Inverse | rpc/lz4_fragmented_compressor.cc:173 | Every 4 bytes are `write_le` of their `le_to_cpu` value. |
| Lz4Format.LengthBits | rpc/lz4_fragmented_compressor.cc:33-37 | The low 31 bits of a header are below the flag, and for an intermediate header they are the whole header. |
| Lz4Format.LastChunkHeader | rpc/lz4_fragmented_compressor.cc:128 | `last_chunk_flag \| n` has the flag set and `n` in its low bits. |
| Lz4Format.FlagUnique | rpc/lz4_fragmented_compressor.cc:117-128 | In a well-formed message, a chunk carries the last-chunk flag iff it is the last chunk. |
| Lz4Format.Parse | rpc/lz4_fragmented_compressor.cc:30-38 | Whatever parses is a well-formed message whose serialisation is the input. |
| Lz4Format.ParseSerialize | rpc/lz4_fragmented_compressor.cc:30-38 | Parsing the bytes of a well-formed message gives back its frames. |
| Lz4Format.EncodedFlagOnLast | rpc/lz4_fragmented_compressor.cc:117-128 | In every message the encoder produces, a header carries the last-chunk flag iff it is the last header. |
| Lz4Format.ChunksCover | rpc/lz4_fragmented_compressor.cc:116-128 | The chunks concatenate to the input. All but the last hold 128 KiB, and the last at most that. |
| Lz4Format.ChunksSizes | rpc/lz4_fragmented_compressor.cc:116-128 | The number of chunks, and the size of the last one, as functions of the input size. |
| Lz4Format.EncodeFramesWellFormed | rpc/lz4_fragmented_compressor.cc:117-128 | The encoding of any input is a well-formed message, one frame per chunk. |
| Lz4Format.EncodeFramesAt | rpc/lz4_fragmented_compressor.cc:116-128 | Frame `i` holds chunk `i` compressed after the chunks before it. An intermediate frame's header is its compressed size with bit 31 clear. The last frame's header is the flag together with the chunk's size. |
| Lz4Format.ThreeHundredThousandZeros | rpc/lz4_fragmented_compressor.cc:116-128 | A 300000-byte message is three frames: two intermediate ones and a last one of 37856 bytes. |
| Lz4Format.Fill | rpc/lz4_fragmented_compressor.cc:222 | An output buffer has the size it was allocated with. A decoder output of that size fills it exactly. |
| Lz4Format.DecodeFollowsParse | rpc/lz4_fragmented_compressor.cc:204-230 | The decoder accepts only input that parses. It yields one buffer per frame, of 128 KiB for an intermediate frame and of the size in the header for the last. |
| Lz4Format.DecodeEncoded | rpc/lz4_fragmented_compressor.cc:39-40 | Decoding the encoding of an input, after the same history, gives back its chunks. |
| Lz4Format.RoundTrip | rpc/lz4_fragmented_compressor.cc:30-40 | Decoding the encoding of any message succeeds and concatenates to the message. |
| Lz4Format.FastPathFrame | rpc/lz4_fragmented_compressor.cc:74-84 | For a message of at most one chunk, the fast path's single frame is exactly the general encoding. |
| Lz4Format.FastPathDecode | rpc/lz4_fragmented_compressor.cc:176-190 | A stream that starts with a last-chunk header decodes to one buffer of the announced size, or fails when LZ4 fails. |
| Lz4Format.SourceOverreadsShortChunk | rpc/lz4_fragmented_compressor.cc:205-216 | The 4-byte input `05 00 00 00` makes the source copy 5 bytes past the end of its input. |
| Lz4Format.TruncatedIffSourceOverreads | rpc/lz4_fragmented_compressor.cc:205-230 | The decoder reports `Truncated` exactly where the source would read past the end of its input. |
| Lz4Format.DecodeTruncatedIffSourceOverreads | rpc/lz4_fragmented_compressor.cc:140-236 | The same for a whole message of at least one header. |
| Lz4FragmentedCompressor.SpliceAt | rpc/lz4_fragmented_compressor.cc:107 | `copy_n` into a buffer replaces exactly the bytes at the offset and keeps the rest and the size. |
| Lz4FragmentedCompressor.OpenBuffer | rpc/lz4_fragmented_compressor.cc:101-104 | Opening a new 128 KiB buffer when the last is full changes nothing already written. |
| Lz4FragmentedCompressor.CopyIntoLast | rpc/lz4_fragmented_compressor.cc:105-110 | Copying into the last buffer extends the bytes written by exactly the bytes copied. |
| Lz4FragmentedCompressor.WriteChunkToDst | rpc/lz4_fragmented_compressor.cc:96-112 | The bytes written become the old ones followed by the header and the payload. Full buffers and earlier bytes are kept, and every buffer opened has 128 KiB. |
| Lz4FragmentedCompressor.SmallInputInFirstBuffer | rpc/lz4_fragmented_compressor.cc:77 | A well-formed input of at most one chunk is all in its first buffer. |
| Lz4FragmentedCompressor.WrittenAfterHeadSpace | rpc/lz4_fragmented_compressor.cc:78-83 | The fast path's buffer, trimmed, is the head space followed by the frame. |
| Lz4FragmentedCompressor.Compress | rpc/lz4_fragmented_compressor.cc:62-138 | The output is the untouched head space followed by the encoding of the input, with a size field that matches it. The fast path gives one buffer. Otherwise the first buffer is the larger of the head space and 128 KiB, and every middle buffer is 128 KiB. |
| Lz4FragmentedCompressor.PackedAfterWrite | rpc/lz4_fragmented_compressor.cc:94-103 | Writing a chunk keeps the output buffers packed: the first at least head space plus a chunk, the rest 128 KiB. |
| Lz4FragmentedCompressor.IntermediateFrame | rpc/lz4_fragmented_compressor.cc:117-124 | While more than a chunk is left, the encoding of the rest starts with the next chunk's frame, headed by its compressed size. |
| Lz4FragmentedCompressor.FinalFrame | rpc/lz4_fragmented_compressor.cc:126-129 | At most a chunk left encodes as the last frame, headed by the flag and its size. |
| Lz4FragmentedCompressor.TrimLast | rpc/lz4_fragmented_compressor.cc:131-132 | Trimming the last buffer to the offset leaves exactly the bytes written, still packed. |
| Lz4FragmentedCompressor.IntermediateChunkStep | rpc/lz4_fragmented_compressor.cc:117-124 | While more than a chunk is left, the current input buffer is a full chunk, and the encoding of the rest begins with its frame. |
| Lz4FragmentedCompressor.FinalChunkStep | rpc/lz4_fragmented_compressor.cc:126-128 | The input left at the end is in the current buffer, and its encoding is the last frame. |
| Lz4FragmentedCompressor.CompressIntermediateChunk | rpc/lz4_fragmented_compressor.cc:117-124 | One loop turn consumes exactly one chunk of input and keeps the invariant: output so far plus the encoding of the rest is the whole output. |
| Lz4FragmentedCompressor.CompressLastChunk | rpc/lz4_fragmented_compressor.cc:126-137 | The last chunk completes the output. The trimmed buffers concatenate to it, and the total compressed size is their summed size. |
| Lz4FragmentedCompressor.CompressChunks | rpc/lz4_fragmented_compressor.cc:87-137 | The general path writes the head space and the encoding of the input into packed buffers, and `total_compressed_size` is their summed size. |
| Lz4FragmentedCompressor.NextBuffer | rpc/lz4_fragmented_compressor.cc:158-161 | Bytes left past the end of an input buffer lie in the next one. |
| Lz4FragmentedCompressor.CopyStep | rpc/lz4_fragmented_compressor.cc:162-166 | Copying from the current input buffer extends the copy by the next bytes of the logical input. |
| Lz4FragmentedCompressor.CopySrc | rpc/lz4_fragmented_compressor.cc:155-168 | `copy_src` copies the next `n` logical input bytes in order across buffer boundaries, advances the position by `n` and takes `n` off the bytes left. |
| Lz4FragmentedCompressor.ReadHeader | rpc/lz4_fragmented_compressor.cc:170-174 | `read_header` gives the little-endian `uint32_t` of the next 4 input bytes and advances past them. |
| Lz4FragmentedCompressor.DecodeIntermediate | rpc/lz4_fragmented_compressor.cc:206-217 | Decoding one intermediate chunk adds its 128 KiB output and goes on after it, with the chunk added to the history. |
| Lz4FragmentedCompressor.DecompressionContext.constructor | rpc/lz4_fragmented_compressor.cc:199 | The staging buffer starts at LZ4_COMPRESSBOUND(chunk_size) bytes. |
| Lz4FragmentedCompressor.DecompressionContext.ReserveChunkBuffer | rpc/lz4_fragmented_compressor.cc:209-211 | The staging buffer grows to the chunk's size if it is smaller, and is kept as it is otherwise. |
| Lz4FragmentedCompressor.DecompressionContext.StageAndDecode | rpc/lz4_fragmented_compressor.cc:209-213 | The decoder is handed exactly the next `n` input bytes. The position advances by `n`, and the staging buffer never shrinks. |
| Lz4FragmentedCompressor.DecompressionContext.DecodeIntermediateChunk | rpc/lz4_fragmented_compressor.cc:206-217 | One loop turn either stops with the error the decoder gives or advances, keeping the decoder's result and adding 128 KiB to the total size. |
| Lz4FragmentedCompressor.DecompressionContext.DecodeLastChunk | rpc/lz4_fragmented_compressor.cc:219-230 | Everything left is decoded into one more buffer of the announced size, and `total_size` is the summed output size. |
| Lz4FragmentedCompressor.DecompressionContext.DecodeChunks | rpc/lz4_fragmented_compressor.cc:201-230 | The general path's result is the decoder's result for the whole input, and `total_size` matches it. |
| Lz4FragmentedCompressor.DecompressionContext.Decompress | rpc/lz4_fragmented_compressor.cc:140-236 | Input shorter than a header gives an empty buffer. A failed reset, an LZ4 failure or a chunk that runs past the end of the input gives an error and no partial result. Otherwise the decoded buffers, one buffer when there is only one, and the fast path agrees with the general one. The staging buffer never shrinks. |
| Lz4FragmentedCompressor.DecompressContents | rpc/lz4_fragmented_compressor.cc:232-235 | When the input decodes, `decompress` returns exactly the decoded bytes, with a size field that matches them. |
| Lz4FragmentedCompressor.CompressThenDecompress | rpc/lz4_fragmented_compressor.cc:30-40 | `decompress(compress(0, data))` gives back the bytes of `data`. |

## Left out

- The LZ4 algorithm, LZ4_COMPRESSBOUND and the stream objects are foreign
  library code. They are the `Codec` parameter, and what the framing needs
  from them is the two predicates `CodecBounds` and `CodecRoundTrips`.
- The reset result of `LZ4_setStreamDecode` is the `resetSucceeds` field of
  the codec.
- The thread-local compression streams, the static `chunk_data` area and
  the thread-local `global_temporary_memory_allocator` are not modelled as
  globals. The decompression staging buffer is a `DecompressionContext`
  object, the allocator is passed to `OperatorNew` and `OperatorDelete`, and
  the compression staging area is a local value.
- The placement `operator new` of `use_temporary_allocator` returns its
  argument and touches no allocator state, so it is not modelled.
- Exceptions (`std::bad_alloc`, `std::runtime_error`) are a `None` or
  `Failure` result.
- Uninitialised memory from `temporary_buffer` and `aligned_alloc` is zero in
  the model.
- The allocator's destructor is commented out in the source, so the open
  block is never given back. `AllocateThenFreeAll` therefore states that at
  most the open block is still held.
- TemporaryMemory.TemporaryMemoryAllocator.Alloc: requires `size > 0`. C++
  objects, and hence every `operator new` request, are at least one byte.
  For `alloc(0)`, on a fresh allocator `nullptr + 0` is not past the null
  end, so the null cursor comes back as if it were an object. That case is
  not modelled.
- TemporaryMemory.SystemHeap.AlignedAlloc: the system allocator is a byte
  budget that hands out fresh block-aligned addresses in increasing order and
  never reuses one. That is one allowed behaviour of `aligned_alloc` and
  `posix_memalign`, not all of them.
- TemporaryMemory.SystemHeap.Valid: the heap keeps only that regions are
  aligned, positive and below its next address. That regions do not overlap
  one another is stated only for the open block, in `OpenBlockOk`, which is
  all the allocator needs.
- TemporaryMemory.TemporaryMemoryAllocator.constructor: requires a heap with
  no live region, as in the unit tests, where the allocator is the heap's
  only user.
- Addresses are unbounded naturals. Pointer overflow and the 64-bit address
  space are not modelled.
- Lz4FragmentedCompressor.DecompressionContext.DecodeChunks: the size the
  decoder reports for an intermediate chunk is not checked by the source and
  not modelled either. The output buffer is 128 KiB whatever the decoder
  wrote.
- Lz4FragmentedCompressor.DecompressionContext.DecodeChunks: where the
  source reads past the end of its input, the model stops with `Truncated`.
  See Findings.

## Findings

| source | as written | input that shows it | evidently intended | confidence | as-written member | corrected member |
|---|---|---|---|---|---|---|
| rpc/lz4_fragmented_compressor.cc:205-216 | `decompress` checks only that the input holds one header. It then copies as many bytes as each intermediate header asks for, and reads each further header, without comparing with `src_left`. | The 4 bytes `05 00 00 00`: an intermediate header of 5 with no bytes after it. `copy_src` copies 5 bytes past the end of the input. | A header asking for more bytes than are left, or a missing header, is rejected as a malformed frame. | not executed | Lz4Format.SourceOverreadsShortChunk | Lz4Format.DecodeTruncatedIffSourceOverreads |
