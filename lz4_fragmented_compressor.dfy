/**
 * lz4_fragmented_compressor: `compress` and `decompress` over the RPC
 * buffer types, with the loops that pack chunks into fixed-size output
 * buffers and reassemble headers and chunks from fragmented input.
 *
 * The per-thread LZ4 stream is reset at the start of every call, so within a
 * call it is the local `stream` (the chunks processed so far). The
 * decompressor's reusable staging buffer outlives a call and is the field of
 * a `DecompressionContext`.
 */
module Lz4FragmentedCompressor {
  import opened Wrappers
  import opened Bytes
  import opened Lz4Format

  /** `snd_buf` / `rcv_buf`: one contiguous buffer, or a list of buffers and
      their total size. */
  datatype Buf = Single(buf: seq<byte>) | Multi(bufs: seq<seq<byte>>, size: nat)

  function Buffers(b: Buf): seq<seq<byte>>
  {
    match b
    case Single(x) => [x]
    case Multi(xs, _) => xs
  }

  /** The `size` member. */
  function Size(b: Buf): nat
  {
    match b
    case Single(x) => |x|
    case Multi(_, n) => n
  }

  /** The logical byte stream. */
  function Contents(b: Buf): seq<byte>
  {
    Concat(Buffers(b))
  }

  predicate SizeConsistent(b: Buf)
  {
    Size(b) == TotalSize(Buffers(b))
  }

  /** What `compress` asserts of its input: every buffer but the last holds
      exactly one chunk and the last at most one. */
  predicate SndWellFormed(b: Buf)
  {
    && SizeConsistent(b)
    && |Buffers(b)| >= 1
    && (forall i :: 0 <= i < |Buffers(b)| - 1 ==> |Buffers(b)[i]| == CHUNK_SIZE)
    && |Buffers(b)[|Buffers(b)| - 1]| <= CHUNK_SIZE
  }

  function Max(a: nat, b: nat): nat { if a < b then b else a }
  function Min(a: nat, b: nat): nat { if a < b then a else b }

  function Last(bufs: seq<seq<byte>>): seq<byte>
    requires |bufs| > 0
  {
    bufs[|bufs| - 1]
  }

  /** The bytes written so far into a list of output buffers: every buffer
      but the last in full, and the first `offset` bytes of the last. */
  function Written(bufs: seq<seq<byte>>, offset: nat): seq<byte>
    requires |bufs| > 0 && offset <= |Last(bufs)|
  {
    Concat(bufs[..|bufs| - 1]) + Last(bufs)[..offset]
  }

  /** `single_chunk_size <= chunk_size && size_left <= chunk_size`: the
      condition for the single-buffer fast path of `compress`. */
  predicate CompressFastPath(c: Codec, headSpace: nat, size: nat)
  {
    c.compressBound(size) + headSpace + CHUNK_HEADER_SIZE <= CHUNK_SIZE && size <= CHUNK_SIZE
  }

  /** `copy_n(piece, |piece|, dst + offset)`: `dst` with the bytes from
      `offset` on replaced by `piece`. */
  function SpliceAt(dst: seq<byte>, offset: nat, piece: seq<byte>): (r: seq<byte>)
    requires offset + |piece| <= |dst|
    ensures |r| == |dst| && r[..offset] == dst[..offset]
    ensures r[offset..offset + |piece|] == piece && r[offset + |piece|..] == dst[offset + |piece|..]
  {
    dst[..offset] + piece + dst[offset + |piece|..]
  }

  /** What writing more bytes after `(dstBuffers, dstOffset)` leaves alone:
      the full buffers before the last, the size of the last and what it held
      before `dstOffset`; every buffer opened since has CHUNK_SIZE bytes. */
  predicate WriteFrame(dstBuffers: seq<seq<byte>>, dstOffset: nat, buffers: seq<seq<byte>>, offset: nat)
    requires |dstBuffers| > 0 && dstOffset <= |Last(dstBuffers)|
  {
    && |buffers| >= |dstBuffers| && offset <= |Last(buffers)|
    && buffers[..|dstBuffers| - 1] == dstBuffers[..|dstBuffers| - 1]
    && |buffers[|dstBuffers| - 1]| == |Last(dstBuffers)|
    && buffers[|dstBuffers| - 1][..dstOffset] == Last(dstBuffers)[..dstOffset]
    && (|buffers| == |dstBuffers| ==> dstOffset <= offset)
    && (forall i :: |dstBuffers| <= i < |buffers| ==> |buffers[i]| == CHUNK_SIZE)
  }

  /** Opening a new buffer when the last one is full changes nothing written. */
  lemma {:induction false} OpenBuffer(dstBuffers: seq<seq<byte>>, dstOffset: nat, buffers: seq<seq<byte>>, offset: nat)
    requires |dstBuffers| > 0 && dstOffset <= |Last(dstBuffers)|
    requires WriteFrame(dstBuffers, dstOffset, buffers, offset) && offset == |Last(buffers)|
    ensures WriteFrame(dstBuffers, dstOffset, buffers + [Zeros(CHUNK_SIZE)], 0)
    ensures Written(buffers + [Zeros(CHUNK_SIZE)], 0) == Written(buffers, offset)
  {
    var next := buffers + [Zeros(CHUNK_SIZE)];
    assert next[..|buffers|] == buffers;
    assert Last(buffers)[..offset] == Last(buffers);
    assert next[..|dstBuffers| - 1] == buffers[..|dstBuffers| - 1];
  }

  /** Copying `piece` into the last buffer at `offset` extends what was
      written by exactly `piece`. */
  lemma {:induction false} CopyIntoLast(dstBuffers: seq<seq<byte>>, dstOffset: nat, buffers: seq<seq<byte>>, offset: nat, piece: seq<byte>)
    requires |dstBuffers| > 0 && dstOffset <= |Last(dstBuffers)|
    requires WriteFrame(dstBuffers, dstOffset, buffers, offset) && offset + |piece| <= |Last(buffers)|
    ensures var next := buffers[..|buffers| - 1] + [SpliceAt(Last(buffers), offset, piece)];
      && WriteFrame(dstBuffers, dstOffset, next, offset + |piece|)
      && Written(next, offset + |piece|) == Written(buffers, offset) + piece
  {
    var updated := SpliceAt(Last(buffers), offset, piece);
    var prefix := buffers[..|buffers| - 1];
    var next := prefix + [updated];
    assert next[..|prefix|] == prefix;
    assert updated[..offset + |piece|] == Last(buffers)[..offset] + piece;
    if |buffers| == |dstBuffers| {
      assert updated[..dstOffset] == Last(buffers)[..offset][..dstOffset];
    }
    assert next[..|dstBuffers| - 1] == buffers[..|dstBuffers| - 1];
  }

  /**
   * The `write_chunk_to_dst` lambda: writes the header into the staging area
   * in front of the `compressed` bytes, then copies header and payload to
   * the output buffers at `dstOffset`, opening a new CHUNK_SIZE buffer
   * whenever the last one is full.
   */
  method WriteChunkToDst(dstBuffers: seq<seq<byte>>, dstOffset: nat, headerValue: u32, compressed: seq<byte>)
    returns (buffers: seq<seq<byte>>, offset: nat)
    requires |dstBuffers| > 0 && dstOffset <= |Last(dstBuffers)|
    ensures WriteFrame(dstBuffers, dstOffset, buffers, offset)
    ensures Written(buffers, offset) == Written(dstBuffers, dstOffset) + (LE32(headerValue) + compressed)
  {
    var chunkData := LE32(headerValue) + compressed;
    var n: nat := |chunkData|;
    var src: nat := 0;
    buffers, offset := dstBuffers, dstOffset;
    while n > 0
      invariant src + n == |chunkData|
      invariant WriteFrame(dstBuffers, dstOffset, buffers, offset)
      invariant Written(buffers, offset) == Written(dstBuffers, dstOffset) + chunkData[..src]
    {
      if offset == |Last(buffers)| {
        OpenBuffer(dstBuffers, dstOffset, buffers, offset);
        buffers := buffers + [Zeros(CHUNK_SIZE)];
        offset := 0;
      }
      var thisLength := Min(|Last(buffers)| - offset, n);
      CopyIntoLast(dstBuffers, dstOffset, buffers, offset, chunkData[src..src + thisLength]);
      assert chunkData[..src + thisLength] == chunkData[..src] + chunkData[src..src + thisLength];
      AppendAssoc(Written(dstBuffers, dstOffset), chunkData[..src], chunkData[src..src + thisLength]);
      buffers := buffers[..|buffers| - 1] + [SpliceAt(Last(buffers), offset, chunkData[src..src + thisLength])];
      n := n - thisLength;
      offset := offset + thisLength;
      src := src + thisLength;
    }
    assert chunkData[..src] == chunkData;
  }

  /** With all buffers but the last holding a full chunk, buffer `i` starts at
      input offset `i * CHUNK_SIZE`. */
  lemma {:induction false} ChunkPos(bufs: seq<seq<byte>>, i: nat)
    requires i < |bufs|
    requires forall j :: 0 <= j < |bufs| - 1 ==> |bufs[j]| == CHUNK_SIZE
    ensures Pos(bufs, i, 0) == i * CHUNK_SIZE
  {
    if i > 0 {
      ChunkPos(bufs, i - 1);
      PosNext(bufs, i - 1);
    }
  }

  /** A well-formed input of at most one chunk is all in its first buffer. */
  lemma {:induction false} SmallInputInFirstBuffer(data: Buf)
    requires SndWellFormed(data) && Size(data) <= CHUNK_SIZE
    ensures Buffers(data)[0] == Contents(data)
  {
    var bufs := Buffers(data);
    if |bufs| > 1 {
      ChunkPos(bufs, 1);
      PosNext(bufs, 0);
      ConcatAt(bufs, 0);
      assert |bufs[0]| == CHUNK_SIZE;
      assert bufs[..0] == [];
    } else {
      ConcatSingleton(bufs[0]);
      assert bufs == [bufs[0]];
    }
  }

  /** A frame written after `headSpace` bytes of a fresh buffer, the buffer
      then trimmed to its end. */
  lemma {:induction false} WrittenAfterHeadSpace(n: nat, headSpace: nat, frame: seq<byte>)
    requires headSpace + |frame| <= n
    ensures SpliceAt(Zeros(n), headSpace, frame)[..headSpace + |frame|] == Zeros(headSpace) + frame
  {
    var r := SpliceAt(Zeros(n), headSpace, frame);
    assert r[..headSpace] == Zeros(headSpace);
    assert r[..headSpace + |frame|] == r[..headSpace] + r[headSpace..headSpace + |frame|];
  }

  /**
   * `compress(head_space, data)`: resets the stream, then either takes the
   * single-buffer fast path or compresses the input chunk by chunk, packing
   * each framed chunk into the output buffers. The first `headSpace` bytes
   * of the output are left as allocated, for the caller's own header.
   */
  method Compress(c: Codec, headSpace: nat, data: Buf) returns (out: Buf)
    requires CodecBounds(c) && SndWellFormed(data)
    ensures Contents(out) == Zeros(headSpace) + Serialize(EncodeFrames(c, [], Contents(data)))
    ensures SizeConsistent(out)
    ensures CompressFastPath(c, headSpace, Size(data)) ==> out.Single?
    ensures out.Multi? ==>
      && |out.bufs| >= 2
      && |out.bufs[0]| == Max(headSpace, CHUNK_SIZE)
      && forall i :: 1 <= i < |out.bufs| - 1 ==> |out.bufs[i]| == CHUNK_SIZE
  {
    var stream: seq<seq<byte>> := [];   // LZ4_resetStream
    var sizeLeft := Size(data);
    var bufs := Buffers(data);
    ghost var input := Contents(data);
    assert |input| == sizeLeft;

    var singleChunkSize := c.compressBound(sizeLeft) + headSpace + CHUNK_HEADER_SIZE;
    if singleChunkSize <= CHUNK_SIZE && sizeLeft <= CHUNK_SIZE {
      // Fast path for small messages.
      SmallInputInFirstBuffer(data);
      var compressed := c.compress(stream, bufs[0]);
      var frame := LE32(LastChunkHeader(sizeLeft)) + compressed;
      var dst := SpliceAt(Zeros(singleChunkSize), headSpace, frame);
      dst := dst[..headSpace + CHUNK_HEADER_SIZE + |compressed|];
      WrittenAfterHeadSpace(singleChunkSize, headSpace, frame);
      FastPathFrame(c, input);
      ConcatSingleton(dst);
      return Single(dst);
    }

    var dstBuffers, totalCompressedSize := CompressChunks(c, headSpace, data);
    if |dstBuffers| == 1 {
      ConcatSingleton(dstBuffers[0]);
      assert dstBuffers == [dstBuffers[0]];
      return Single(dstBuffers[0]);
    }
    return Multi(dstBuffers, totalCompressedSize);
  }

  /** The input from the start of buffer `i` on begins with that buffer's
      first `k` bytes. */
  lemma {:induction false} InputChunk(bufs: seq<seq<byte>>, i: nat, k: nat)
    requires i < |bufs| && k <= |bufs[i]|
    ensures Pos(bufs, i, 0) + k <= |Concat(bufs)|
    ensures Concat(bufs)[Pos(bufs, i, 0)..][..k] == bufs[i][..k]
  {
    ConcatSlice(bufs, i, 0, k);
    assert bufs[i][0..k] == bufs[i][..k];
  }

  /** How `compress` packs its output: the first buffer has room for the
      head space and at least one chunk, every later one CHUNK_SIZE bytes. */
  predicate Packed(headSpace: nat, bufs: seq<seq<byte>>)
  {
    && |bufs| > 0
    && |bufs[0]| == Max(headSpace, CHUNK_SIZE)
    && forall i :: 1 <= i < |bufs| ==> |bufs[i]| == CHUNK_SIZE
  }

  /** Writing a chunk to the output keeps it packed. */
  lemma {:induction false} PackedAfterWrite(headSpace: nat, before: seq<seq<byte>>, beforeOffset: nat, after: seq<seq<byte>>, afterOffset: nat)
    requires |before| > 0 && beforeOffset <= |Last(before)|
    requires Packed(headSpace, before) && WriteFrame(before, beforeOffset, after, afterOffset)
    ensures Packed(headSpace, after)
  {
    var k := |before| - 1;
    forall i | 0 <= i < k
      ensures after[i] == before[i]
    {
      assert after[i] == after[..k][i];
      assert before[i] == before[..k][i];
    }
  }

  /** An intermediate frame of the encoding: the next CHUNK_SIZE input bytes,
      compressed after the chunks before them, headed by their compressed
      size. */
  lemma {:induction false} IntermediateFrame(c: Codec, stream: seq<seq<byte>>, rest: seq<byte>)
    requires CodecBounds(c) && |rest| > CHUNK_SIZE
    ensures var z := c.compress(stream, rest[..CHUNK_SIZE]);
      && |z| < LAST_CHUNK_FLAG
      && Serialize(EncodeFrames(c, stream, rest))
         == (LE32(|z|) + z) + Serialize(EncodeFrames(c, stream + [rest[..CHUNK_SIZE]], rest[CHUNK_SIZE..]))
  {
    var z := c.compress(stream, rest[..CHUNK_SIZE]);
    SerializeCons(Frame(|z|, z), EncodeFrames(c, stream + [rest[..CHUNK_SIZE]], rest[CHUNK_SIZE..]));
  }

  /** The last frame of the encoding: the remaining input compressed, headed
      by the last-chunk flag and the uncompressed size. */
  lemma {:induction false} FinalFrame(c: Codec, stream: seq<seq<byte>>, rest: seq<byte>)
    requires CodecBounds(c) && |rest| <= CHUNK_SIZE
    ensures Serialize(EncodeFrames(c, stream, rest))
         == LE32(LastChunkHeader(|rest|)) + c.compress(stream, rest)
  {
    var f := Frame(LastChunkHeader(|rest|), c.compress(stream, rest));
    SerializeCons(f, []);
    assert [f] + [] == [f];
  }

  /** Trimming the last output buffer to the bytes written leaves exactly
      what was written, in buffers packed as before. */
  lemma {:induction false} TrimLast(headSpace: nat, bufs: seq<seq<byte>>, offset: nat)
    requires Packed(headSpace, bufs) && offset <= |Last(bufs)|
    ensures var trimmed := bufs[..|bufs| - 1] + [Last(bufs)[..offset]];
      && |trimmed| == |bufs|
      && Concat(trimmed) == Written(bufs, offset)
      && (|trimmed| >= 2 ==> |trimmed[0]| == Max(headSpace, CHUNK_SIZE))
      && forall i :: 1 <= i < |trimmed| - 1 ==> |trimmed[i]| == CHUNK_SIZE
  {
    var full := bufs[..|bufs| - 1];
    var trimmed := full + [Last(bufs)[..offset]];
    assert trimmed[..|full|] == full;
    forall i | 0 <= i < |trimmed| - 1
      ensures trimmed[i] == bufs[i]
    {
      assert trimmed[i] == full[i];
    }
  }

  /** While more than a chunk of input is left, the current input buffer is
      a full chunk, and the encoding of the rest of the input starts with its
      frame. */
  lemma {:induction false} IntermediateChunkStep(c: Codec, bufs: seq<seq<byte>>, src: nat, srcLeft: nat, stream: seq<seq<byte>>)
    requires CodecBounds(c) && src < |bufs|
    requires forall i :: 0 <= i < |bufs| - 1 ==> |bufs[i]| == CHUNK_SIZE
    requires |bufs[|bufs| - 1]| <= CHUNK_SIZE
    requires Pos(bufs, src, 0) + srcLeft == |Concat(bufs)| && srcLeft > CHUNK_SIZE
    ensures src + 1 < |bufs| && |bufs[src]| == CHUNK_SIZE
    ensures Pos(bufs, src + 1, 0) + (srcLeft - CHUNK_SIZE) == |Concat(bufs)|
    ensures var z := c.compress(stream, bufs[src]);
      && |z| < LAST_CHUNK_FLAG
      && Serialize(EncodeFrames(c, stream, Concat(bufs)[Pos(bufs, src, 0)..]))
         == (LE32(|z|) + z) + Serialize(EncodeFrames(c, stream + [bufs[src]], Concat(bufs)[Pos(bufs, src + 1, 0)..]))
  {
    var input := Concat(bufs);
    var rest := input[Pos(bufs, src, 0)..];
    PosEnd(bufs);
    assert src < |bufs| - 1;
    InputChunk(bufs, src, CHUNK_SIZE);
    assert bufs[src] == rest[..CHUNK_SIZE];
    IntermediateFrame(c, stream, rest);
    PosNext(bufs, src);
    assert rest[CHUNK_SIZE..] == input[Pos(bufs, src + 1, 0)..];
  }

  /** Once at most a chunk of input is left, it is all in the current input
      buffer, and the encoding of it is the last frame. */
  lemma {:induction false} FinalChunkStep(c: Codec, bufs: seq<seq<byte>>, src: nat, srcLeft: nat, stream: seq<seq<byte>>)
    requires CodecBounds(c) && src < |bufs|
    requires forall i :: 0 <= i < |bufs| - 1 ==> |bufs[i]| == CHUNK_SIZE
    requires |bufs[|bufs| - 1]| <= CHUNK_SIZE
    requires Pos(bufs, src, 0) + srcLeft == |Concat(bufs)| && srcLeft <= CHUNK_SIZE
    ensures srcLeft <= |bufs[src]|
    ensures Serialize(EncodeFrames(c, stream, Concat(bufs)[Pos(bufs, src, 0)..]))
         == LE32(LastChunkHeader(srcLeft)) + c.compress(stream, bufs[src][..srcLeft])
  {
    var rest := Concat(bufs)[Pos(bufs, src, 0)..];
    PosEnd(bufs);
    InputChunk(bufs, src, |bufs[src]|);
    InputChunk(bufs, src, srcLeft);
    assert bufs[src][..srcLeft] == rest;
    FinalFrame(c, stream, rest);
  }

  /** The state of the general path of `compress` between two chunks: the
      output written so far, followed by the encoding of the input still to be
      read, is the whole output `target`; `total` counts the written bytes
      after the head space. */
  ghost predicate CompressProgress(c: Codec, headSpace: nat, bufs: seq<seq<byte>>, target: seq<byte>,
      src: nat, srcLeft: nat, stream: seq<seq<byte>>,
      dstBuffers: seq<seq<byte>>, dstOffset: nat, total: nat)
  {
    && CodecBounds(c)
    && src < |bufs| && Pos(bufs, src, 0) + srcLeft == |Concat(bufs)|
    && Packed(headSpace, dstBuffers) && dstOffset <= |Last(dstBuffers)|
    && Written(dstBuffers, dstOffset) + Serialize(EncodeFrames(c, stream, Concat(bufs)[Pos(bufs, src, 0)..])) == target
    && total + headSpace == |Written(dstBuffers, dstOffset)|
  }

  /** One turn of the loop over intermediate chunks in `compress`: the next
      CHUNK_SIZE input bytes, a whole input buffer, are compressed after the
      chunks before them and written out as one frame. */
  method CompressIntermediateChunk(c: Codec, headSpace: nat, bufs: seq<seq<byte>>, ghost target: seq<byte>,
      src: nat, srcLeft: nat, stream: seq<seq<byte>>,
      dstBuffers: seq<seq<byte>>, dstOffset: nat, total: nat)
    returns (nextSrc: nat, left: nat, nextStream: seq<seq<byte>>,
             nextBuffers: seq<seq<byte>>, nextOffset: nat, nextTotal: nat)
    requires CodecBounds(c) && |bufs| > 0
    requires forall i :: 0 <= i < |bufs| - 1 ==> |bufs[i]| == CHUNK_SIZE
    requires |bufs[|bufs| - 1]| <= CHUNK_SIZE
    requires CompressProgress(c, headSpace, bufs, target, src, srcLeft, stream, dstBuffers, dstOffset, total)
    requires srcLeft > CHUNK_SIZE
    ensures left == srcLeft - CHUNK_SIZE && nextSrc == src + 1
    ensures CompressProgress(c, headSpace, bufs, target, nextSrc, left, nextStream, nextBuffers, nextOffset, nextTotal)
  {
    IntermediateChunkStep(c, bufs, src, srcLeft, stream);
    var compressed := c.compress(stream, bufs[src]);
    left := srcLeft - CHUNK_SIZE;
    nextTotal := total + |compressed| + CHUNK_HEADER_SIZE;
    nextBuffers, nextOffset := WriteChunkToDst(dstBuffers, dstOffset, |compressed|, compressed);
    PackedAfterWrite(headSpace, dstBuffers, dstOffset, nextBuffers, nextOffset);
    AppendAssoc(Written(dstBuffers, dstOffset), LE32(|compressed|) + compressed,
                Serialize(EncodeFrames(c, stream + [bufs[src]], Concat(bufs)[Pos(bufs, src + 1, 0)..])));
    nextStream := stream + [bufs[src]];
    nextSrc := src + 1;
  }

  /** The end of the general path of `compress`: the input left, at most a
      chunk, is written as the last frame and the last output buffer is
      trimmed to what was written. */
  method CompressLastChunk(c: Codec, headSpace: nat, bufs: seq<seq<byte>>, ghost target: seq<byte>,
      src: nat, srcLeft: nat, stream: seq<seq<byte>>,
      dstBuffers: seq<seq<byte>>, dstOffset: nat, total: nat)
    returns (out: seq<seq<byte>>, outTotal: nat)
    requires CodecBounds(c) && |bufs| > 0
    requires forall i :: 0 <= i < |bufs| - 1 ==> |bufs[i]| == CHUNK_SIZE
    requires |bufs[|bufs| - 1]| <= CHUNK_SIZE
    requires CompressProgress(c, headSpace, bufs, target, src, srcLeft, stream, dstBuffers, dstOffset, total)
    requires srcLeft <= CHUNK_SIZE
    ensures |out| >= 1 && outTotal == TotalSize(out)
    ensures Concat(out) == target
    ensures |out| >= 2 ==> |out[0]| == Max(headSpace, CHUNK_SIZE)
    ensures forall i :: 1 <= i < |out| - 1 ==> |out[i]| == CHUNK_SIZE
  {
    FinalChunkStep(c, bufs, src, srcLeft, stream);
    var compressed := c.compress(stream, bufs[src][..srcLeft]);
    var buffers, offset := WriteChunkToDst(dstBuffers, dstOffset, LastChunkHeader(srcLeft), compressed);
    PackedAfterWrite(headSpace, dstBuffers, dstOffset, buffers, offset);
    outTotal := total + |compressed| + CHUNK_HEADER_SIZE + headSpace;
    AppendAssoc(Written(dstBuffers, dstOffset), LE32(LastChunkHeader(srcLeft)) + compressed, []);
    TrimLast(headSpace, buffers, offset);
    out := buffers[..|buffers| - 1] + [Last(buffers)[..offset]];
  }

  /**
   * The general path of `compress`: each chunk of the input is compressed
   * after the ones before it and written, with its header, to output buffers
   * of CHUNK_SIZE bytes (the first one at least `headSpace` bytes); the last
   * output buffer is trimmed to what was written.
   */
  method CompressChunks(c: Codec, headSpace: nat, data: Buf)
    returns (dstBuffers: seq<seq<byte>>, totalCompressedSize: nat)
    requires CodecBounds(c) && SndWellFormed(data)
    ensures |dstBuffers| >= 1 && totalCompressedSize == TotalSize(dstBuffers)
    ensures Concat(dstBuffers) == Zeros(headSpace) + Serialize(EncodeFrames(c, [], Contents(data)))
    ensures |dstBuffers| >= 2 ==> |dstBuffers[0]| == Max(headSpace, CHUNK_SIZE)
    ensures forall i :: 1 <= i < |dstBuffers| - 1 ==> |dstBuffers[i]| == CHUNK_SIZE
  {
    var stream: seq<seq<byte>> := [];
    var bufs := Buffers(data);
    ghost var target := Zeros(headSpace) + Serialize(EncodeFrames(c, [], Contents(data)));
    PosEnd(bufs);

    dstBuffers := [Zeros(Max(headSpace, CHUNK_SIZE))];
    var dstOffset: nat := headSpace;
    assert dstBuffers[..0] == [];
    assert Written(dstBuffers, dstOffset) == Zeros(headSpace);
    assert Concat(bufs)[Pos(bufs, 0, 0)..] == Contents(data) by {
      assert bufs[..0] == [];
    }

    // Intermediate chunks.
    totalCompressedSize := 0;
    var srcLeft: nat := Size(data);
    var src: nat := 0;
    while srcLeft > CHUNK_SIZE
      invariant CompressProgress(c, headSpace, bufs, target, src, srcLeft, stream, dstBuffers, dstOffset, totalCompressedSize)
      decreases srcLeft
    {
      src, srcLeft, stream, dstBuffers, dstOffset, totalCompressedSize :=
        CompressIntermediateChunk(c, headSpace, bufs, target, src, srcLeft, stream, dstBuffers, dstOffset, totalCompressedSize);
    }

    // Last chunk.
    dstBuffers, totalCompressedSize :=
      CompressLastChunk(c, headSpace, bufs, target, src, srcLeft, stream, dstBuffers, dstOffset, totalCompressedSize);
  }

  /** Bytes left past the end of input buffer `i` lie in a next buffer. */
  lemma {:induction false} NextBuffer(bufs: seq<seq<byte>>, i: nat)
    requires i < |bufs| && Pos(bufs, i, |bufs[i]|) < |Concat(bufs)|
    ensures i + 1 < |bufs| && Pos(bufs, i + 1, 0) == Pos(bufs, i, |bufs[i]|)
  {
    PosEnd(bufs);
    PosNext(bufs, i);
  }

  /** Appending the next `k` bytes of buffer `i` to a copy of the stream from
      `start` extends the copy by `k` bytes of the stream. */
  lemma {:induction false} CopyStep(bufs: seq<seq<byte>>, start: nat, copied: seq<byte>, i: nat, off: nat, k: nat)
    requires i < |bufs| && off + k <= |bufs[i]|
    requires Pos(bufs, i, off) == start + |copied|
    requires Pos(bufs, i, off) <= |Concat(bufs)| && copied == Concat(bufs)[start..Pos(bufs, i, off)]
    ensures Pos(bufs, i, off) + k <= |Concat(bufs)|
    ensures copied + bufs[i][off..off + k] == Concat(bufs)[start..Pos(bufs, i, off) + k]
  {
    ConcatSlice(bufs, i, off, k);
    var p := Pos(bufs, i, off);
    SliceJoin(Concat(bufs), start, p, p + k);
  }

  /**
   * The `copy_src` lambda: copies the next `n` bytes of the fragmented input,
   * moving to the next input buffer whenever the current one is used up, and
   * takes `n` off the count of bytes left.
   */
  method CopySrc(bufs: seq<seq<byte>>, src: nat, srcOffset: nat, srcLeft: nat, n: nat)
    returns (copied: seq<byte>, nextSrc: nat, nextOffset: nat, left: nat)
    requires src < |bufs| && srcOffset <= |bufs[src]|
    requires Pos(bufs, src, srcOffset) + srcLeft == |Concat(bufs)|
    requires n <= srcLeft
    ensures nextSrc < |bufs| && nextOffset <= |bufs[nextSrc]|
    ensures left == srcLeft - n
    ensures Pos(bufs, nextSrc, nextOffset) == Pos(bufs, src, srcOffset) + n
    ensures copied == Concat(bufs)[Pos(bufs, src, srcOffset)..Pos(bufs, src, srcOffset) + n]
  {
    ghost var start := Pos(bufs, src, srcOffset);
    left := srcLeft - n;
    copied := [];
    nextSrc, nextOffset := src, srcOffset;
    var remaining: nat := n;
    while remaining > 0
      invariant nextSrc < |bufs| && nextOffset <= |bufs[nextSrc]|
      invariant |copied| + remaining == n
      invariant Pos(bufs, nextSrc, nextOffset) == start + |copied|
      invariant copied == Concat(bufs)[start..start + |copied|]
      decreases remaining + |bufs| - nextSrc
    {
      if nextOffset == |bufs[nextSrc]| {
        NextBuffer(bufs, nextSrc);
        nextSrc := nextSrc + 1;
        nextOffset := 0;
      }
      var thisSize := Min(remaining, |bufs[nextSrc]| - nextOffset);
      CopyStep(bufs, start, copied, nextSrc, nextOffset, thisSize);
      copied := copied + bufs[nextSrc][nextOffset..nextOffset + thisSize];
      remaining := remaining - thisSize;
      nextOffset := nextOffset + thisSize;
    }
  }

  /** The `read_header` lambda: the little-endian `uint32_t` in the next four
      input bytes. */
  method ReadHeader(bufs: seq<seq<byte>>, src: nat, srcOffset: nat, srcLeft: nat)
    returns (header: u32, nextSrc: nat, nextOffset: nat, left: nat)
    requires src < |bufs| && srcOffset <= |bufs[src]|
    requires Pos(bufs, src, srcOffset) + srcLeft == |Concat(bufs)|
    requires CHUNK_HEADER_SIZE <= srcLeft
    ensures nextSrc < |bufs| && nextOffset <= |bufs[nextSrc]|
    ensures left == srcLeft - CHUNK_HEADER_SIZE
    ensures Pos(bufs, nextSrc, nextOffset) == Pos(bufs, src, srcOffset) + CHUNK_HEADER_SIZE
    ensures var p := Pos(bufs, src, srcOffset); header == FromLE32(Concat(bufs)[p..p + CHUNK_HEADER_SIZE])
  {
    var bytes;
    bytes, nextSrc, nextOffset, left := CopySrc(bufs, src, srcOffset, srcLeft, CHUNK_HEADER_SIZE);
    header := FromLE32(bytes);
  }

  /** The result `decompress` gives: nothing for input shorter than a header,
      otherwise the decoded buffers, as one buffer when there is only one. */
  function DecompressResult(c: Codec, data: Buf): Result<Buf, DecodeError>
  {
    if Size(data) < CHUNK_HEADER_SIZE then Success(Single([]))
    else if !c.resetSucceeds then Failure(ResetFailure)
    else match DecodeStream(c, [], Contents(data))
      case Failure(e) => Failure(e)
      case Success(outs) =>
        if |outs| == 1 then Success(Single(outs[0])) else Success(Multi(outs, TotalSize(outs)))
  }

  /** Splitting the input at `pos + n`, seen from `pos`. */
  lemma {:induction false} SliceAt(input: seq<byte>, pos: nat, n: nat)
    requires pos + n <= |input|
    ensures input[pos..][..n] == input[pos..pos + n]
    ensures input[pos..][n..] == input[pos + n..]
  {
  }

  /** One intermediate chunk decoded: its output joins those before it and
      decoding goes on after it, with the decoded chunk added to the
      history. */
  lemma {:induction false} DecodeIntermediate(c: Codec, history: seq<seq<byte>>, header: u32, rest: seq<byte>, outs: seq<seq<byte>>)
    requires !IsLastChunk(header) && header <= |rest|
    requires c.decompress(history, rest[..header], CHUNK_SIZE).Some?
    ensures var d := c.decompress(history, rest[..header], CHUNK_SIZE).value;
      PrependAll(outs, DecodeChunk(c, history, header, rest))
      == PrependAll(outs + [Fill(d, CHUNK_SIZE)], DecodeStream(c, history + [d], rest[header..]))
  {
    var d := c.decompress(history, rest[..header], CHUNK_SIZE).value;
    var tail := DecodeStream(c, history + [d], rest[header..]);
    if tail.Success? {
      assert outs + ([Fill(d, CHUNK_SIZE)] + tail.value) == outs + [Fill(d, CHUNK_SIZE)] + tail.value;
    }
  }

  /** The per-thread decompression state that outlives a call: the staging
      buffer compressed chunks are copied into before decoding. */
  class DecompressionContext {
    const codec: Codec
    var chunkBuffer: seq<byte>

    /** The staging buffer starts at LZ4_COMPRESSBOUND(chunk_size) bytes. */
    constructor (codec: Codec)
      ensures this.codec == codec
      ensures chunkBuffer == Zeros(codec.compressBound(CHUNK_SIZE))
    {
      this.codec := codec;
      chunkBuffer := Zeros(codec.compressBound(CHUNK_SIZE));
    }

    /** Grows the staging buffer to hold `n` bytes, if it does not already. */
    method ReserveChunkBuffer(n: nat)
      modifies this
      ensures |chunkBuffer| == Max(old(|chunkBuffer|), n)
      ensures old(|chunkBuffer|) >= n ==> chunkBuffer == old(chunkBuffer)
    {
      if |chunkBuffer| < n {
        chunkBuffer := Zeros(n);
      }
    }

    /** Copies `n` bytes of the input into the staging buffer, growing it
        first if needed, and decodes them with output capacity `capacity`. */
    method StageAndDecode(bufs: seq<seq<byte>>, src: nat, srcOffset: nat, srcLeft: nat, n: nat,
                          stream: seq<seq<byte>>, capacity: nat)
      returns (decoded: Option<seq<byte>>, nextSrc: nat, nextOffset: nat, left: nat)
      requires src < |bufs| && srcOffset <= |bufs[src]|
      requires Pos(bufs, src, srcOffset) + srcLeft == |Concat(bufs)|
      requires n <= srcLeft
      modifies this
      ensures nextSrc < |bufs| && nextOffset <= |bufs[nextSrc]|
      ensures left == srcLeft - n
      ensures Pos(bufs, nextSrc, nextOffset) == Pos(bufs, src, srcOffset) + n
      ensures var p := Pos(bufs, src, srcOffset);
        decoded == codec.decompress(stream, Concat(bufs)[p..p + n], capacity)
      ensures |chunkBuffer| >= old(|chunkBuffer|)
    {
      ReserveChunkBuffer(n);
      var staged;
      staged, nextSrc, nextOffset, left := CopySrc(bufs, src, srcOffset, srcLeft, n);
      chunkBuffer := SpliceAt(chunkBuffer, 0, staged);
      assert chunkBuffer[..n] == staged;
      decoded := codec.decompress(stream, chunkBuffer[..n], capacity);
    }

    /**
     * One pass of the loop over intermediate chunks: stages and decodes the
     * chunk `headerValue` announces into a new CHUNK_SIZE output buffer,
     * then reads the next header.
     */
    method DecodeIntermediateChunk(bufs: seq<seq<byte>>, ghost pos: nat, src: nat, srcOffset: nat, srcLeft: nat,
                                   stream: seq<seq<byte>>, headerValue: u32, dstBuffers: seq<seq<byte>>)
      returns (err: Option<DecodeError>, nextSrc: nat, nextOffset: nat, left: nat,
               nextStream: seq<seq<byte>>, nextHeader: u32, nextBuffers: seq<seq<byte>>, ghost nextPos: nat)
      requires src < |bufs| && srcOffset <= |bufs[src]|
      requires Pos(bufs, src, srcOffset) == pos && pos + srcLeft == |Concat(bufs)|
      requires !IsLastChunk(headerValue)
      modifies this
      ensures |chunkBuffer| >= old(|chunkBuffer|)
      ensures var before := PrependAll(dstBuffers, DecodeChunk(codec, stream, headerValue, Concat(bufs)[pos..]));
        if err.Some? then before == Failure(err.value)
        else
          && nextSrc < |bufs| && nextOffset <= |bufs[nextSrc]| && left < srcLeft
          && Pos(bufs, nextSrc, nextOffset) == nextPos && nextPos + left == |Concat(bufs)|
          && before == PrependAll(nextBuffers, DecodeChunk(codec, nextStream, nextHeader, Concat(bufs)[nextPos..]))
          && TotalSize(nextBuffers) == TotalSize(dstBuffers) + CHUNK_SIZE
    {
      ghost var input := Concat(bufs);
      ghost var rest := input[pos..];
      nextSrc, nextOffset, left, nextStream, nextHeader, nextBuffers, nextPos := src, srcOffset, srcLeft, stream, headerValue, dstBuffers, pos;
      if headerValue > srcLeft {
        // The source copies past the end of the input here.
        assert DecodeChunk(codec, stream, headerValue, rest) == Failure(Truncated);
        return Some(Truncated), nextSrc, nextOffset, left, nextStream, nextHeader, nextBuffers, nextPos;
      }
      var decoded;
      decoded, nextSrc, nextOffset, left := StageAndDecode(bufs, src, srcOffset, srcLeft, headerValue, stream, CHUNK_SIZE);
      SliceAt(input, pos, headerValue);
      if decoded.None? {
        assert DecodeChunk(codec, stream, headerValue, rest) == Failure(Lz4Failure);
        return Some(Lz4Failure), nextSrc, nextOffset, left, nextStream, nextHeader, nextBuffers, nextPos;
      }
      DecodeIntermediate(codec, stream, headerValue, rest, dstBuffers);
      ConcatAppend(dstBuffers, [Fill(decoded.value, CHUNK_SIZE)]);
      ConcatSingleton(Fill(decoded.value, CHUNK_SIZE));
      nextBuffers := dstBuffers + [Fill(decoded.value, CHUNK_SIZE)];
      nextStream := stream + [decoded.value];
      nextPos := pos + headerValue;
      if left < CHUNK_HEADER_SIZE {
        // The source reads a header past the end of the input here.
        assert DecodeStream(codec, nextStream, input[nextPos..]) == Failure(Truncated);
        return Some(Truncated), nextSrc, nextOffset, left, nextStream, nextHeader, nextBuffers, nextPos;
      }
      nextHeader, nextSrc, nextOffset, left := ReadHeader(bufs, nextSrc, nextOffset, left);
      SliceAt(input, nextPos, CHUNK_HEADER_SIZE);
      SliceAt(input[nextPos..], 0, CHUNK_HEADER_SIZE);
      nextPos := nextPos + CHUNK_HEADER_SIZE;
      err := None;
    }

    /** The end of the general path of `decompress`: everything left after
        the last header is staged and decoded into one more output buffer of
        the size the header announces. */
    method DecodeLastChunk(bufs: seq<seq<byte>>, ghost pos: nat, src: nat, srcOffset: nat, srcLeft: nat,
                           stream: seq<seq<byte>>, headerValue: u32, dstBuffers: seq<seq<byte>>, total: nat)
      returns (r: Result<seq<seq<byte>>, DecodeError>, totalSize: nat)
      requires src < |bufs| && srcOffset <= |bufs[src]|
      requires Pos(bufs, src, srcOffset) == pos && pos + srcLeft == |Concat(bufs)|
      requires IsLastChunk(headerValue) && total == TotalSize(dstBuffers)
      modifies this
      ensures r == PrependAll(dstBuffers, DecodeChunk(codec, stream, headerValue, Concat(bufs)[pos..]))
      ensures r.Success? ==> totalSize == TotalSize(r.value)
      ensures |chunkBuffer| >= old(|chunkBuffer|)
    {
      ghost var input := Concat(bufs);
      var n := LengthBits(headerValue);
      totalSize := total + n;
      var decoded, _, _, _ := StageAndDecode(bufs, src, srcOffset, srcLeft, srcLeft, stream, n);
      assert input[pos..pos + (|input| - pos)] == input[pos..];
      if decoded.None? {
        return Failure(Lz4Failure), totalSize;
      }
      ConcatAppend(dstBuffers, [Fill(decoded.value, n)]);
      ConcatSingleton(Fill(decoded.value, n));
      return Success(dstBuffers + [Fill(decoded.value, n)]), totalSize;
    }

    /**
     * The general path of `decompress`: reads header after header; for each
     * intermediate chunk stages the compressed bytes and decodes a full
     * chunk, then decodes everything left after the last header. Unlike the
     * source, it stops with `Truncated` where a header asks for more bytes
     * than are left or no full header is left.
     */
    method DecodeChunks(bufs: seq<seq<byte>>, size: nat)
      returns (r: Result<seq<seq<byte>>, DecodeError>, totalSize: nat)
      requires |bufs| > 0 && size == |Concat(bufs)| && CHUNK_HEADER_SIZE <= size
      modifies this
      ensures r == DecodeStream(codec, [], Concat(bufs))
      ensures r.Success? ==> totalSize == TotalSize(r.value)
      ensures |chunkBuffer| >= old(|chunkBuffer|)
    {
      ghost var input := Concat(bufs);
      var srcLeft: nat := size;
      var src: nat, srcOffset: nat := 0, 0;
      var stream: seq<seq<byte>> := [];
      var dstBuffers: seq<seq<byte>> := [];
      totalSize := 0;
      assert Pos(bufs, 0, 0) == 0;

      // Intermediate chunks.
      var headerValue: u32;
      headerValue, src, srcOffset, srcLeft := ReadHeader(bufs, src, srcOffset, srcLeft);
      ghost var pos: nat := CHUNK_HEADER_SIZE;
      SliceAt(input, 0, CHUNK_HEADER_SIZE);
      ghost var first := DecodeChunk(codec, stream, headerValue, input[pos..]);
      assert first.Success? ==> [] + first.value == first.value;
      while !IsLastChunk(headerValue)
        invariant src < |bufs| && srcOffset <= |bufs[src]|
        invariant Pos(bufs, src, srcOffset) == pos && pos + srcLeft == |input|
        invariant DecodeStream(codec, [], input)
               == PrependAll(dstBuffers, DecodeChunk(codec, stream, headerValue, input[pos..]))
        invariant totalSize == TotalSize(dstBuffers)
        invariant |chunkBuffer| >= old(|chunkBuffer|)
        decreases srcLeft
      {
        totalSize := totalSize + CHUNK_SIZE;
        var err;
        err, src, srcOffset, srcLeft, stream, headerValue, dstBuffers, pos :=
          DecodeIntermediateChunk(bufs, pos, src, srcOffset, srcLeft, stream, headerValue, dstBuffers);
        if err.Some? {
          return Failure(err.value), totalSize;
        }
      }

      // Last chunk.
      r, totalSize := DecodeLastChunk(bufs, pos, src, srcOffset, srcLeft, stream, headerValue, dstBuffers, totalSize);
    }

    /**
     * `decompress(data)`: nothing for input shorter than a header; resets
     * the decode stream; takes the single-buffer fast path when the only
     * buffer starts with a last-chunk header; otherwise decodes chunk by
     * chunk and returns one buffer per chunk.
     */
    method Decompress(data: Buf) returns (r: Result<Buf, DecodeError>)
      requires SizeConsistent(data)
      modifies this
      ensures r == DecompressResult(codec, data)
      ensures |chunkBuffer| >= old(|chunkBuffer|)
    {
      if Size(data) < CHUNK_HEADER_SIZE {
        return Success(Single([]));
      }
      if !codec.resetSucceeds {
        return Failure(ResetFailure);
      }
      if data.Single? {
        ConcatSingleton(data.buf);
        var header := FromLE32(data.buf[..CHUNK_HEADER_SIZE]);
        if IsLastChunk(header) {
          // Fast path for small messages: a single chunk in a single buffer.
          var n := LengthBits(header);
          FastPathDecode(codec, data.buf);
          match codec.decompress([], data.buf[CHUNK_HEADER_SIZE..], n)
          case None =>
            return Failure(Lz4Failure);
          case Some(d) =>
            return Success(Single(Fill(d, n)));
        }
      }
      var outs, totalSize := DecodeChunks(Buffers(data), Size(data));
      match outs
      case Failure(e) =>
        return Failure(e);
      case Success(dstBuffers) =>
        if |dstBuffers| == 1 {
          return Success(Single(dstBuffers[0]));
        }
        return Success(Multi(dstBuffers, totalSize));
    }
  }

  /** When the stream decodes, `decompress` returns exactly the decoded
      bytes, with a size field that matches them. */
  lemma {:induction false} DecompressContents(c: Codec, data: Buf)
    requires Size(data) >= CHUNK_HEADER_SIZE && c.resetSucceeds
    requires DecodeStream(c, [], Contents(data)).Success?
    ensures DecompressResult(c, data).Success?
    ensures Contents(DecompressResult(c, data).value) == Concat(DecodeStream(c, [], Contents(data)).value)
    ensures SizeConsistent(DecompressResult(c, data).value)
  {
    var outs := DecodeStream(c, [], Contents(data)).value;
    if |outs| == 1 {
      ConcatSingleton(outs[0]);
      assert outs == [outs[0]];
    }
  }

  /** Compressing a message with no head space and decompressing the result
      gives back the message's bytes. */
  method CompressThenDecompress(c: Codec, data: Buf) returns (back: Buf)
    requires CodecBounds(c) && CodecRoundTrips(c) && c.resetSucceeds
    requires SndWellFormed(data)
    ensures Contents(back) == Contents(data)
  {
    var compressed := Compress(c, 0, data);
    ghost var encoded := Serialize(EncodeFrames(c, [], Contents(data)));
    assert Contents(compressed) == encoded by {
      assert Zeros(0) + encoded == encoded;
    }
    RoundTrip(c, Contents(data));
    DecompressContents(c, compressed);
    var context := new DecompressionContext(c);
    var r := context.Decompress(compressed);
    back := r.value;
  }
}
