/**
 * The wire format of the LZ4_FRAGMENTED RPC compressor, as specification
 * functions: how a message is cut into chunks, how each chunk is framed with
 * a 4-byte little-endian header, and how a receiver decodes the frames.
 *
 * The LZ4 streaming primitives are foreign code. They are a `Codec` value
 * whose functions take the stream history (the chunks compressed or
 * decompressed since the last reset) as an argument; what the framing relies
 * on them for is stated by `CodecBounds` and `CodecRoundTrips`, which the
 * lemmas below take as preconditions.
 */
module Lz4Format {
  import opened Wrappers
  import opened Bytes

  /** Decompressed size of every chunk but the last (128 KiB). */
  const CHUNK_SIZE: nat := 131072
  const CHUNK_HEADER_SIZE: nat := 4
  /** Bit 31 of a chunk header: set on the last chunk only. */
  const LAST_CHUNK_FLAG: u32 := 0x8000_0000

  /** `header & last_chunk_flag` is non-zero. */
  predicate IsLastChunk(header: u32)
  {
    header >= LAST_CHUNK_FLAG
  }

  /** `header & ~last_chunk_flag`: the low 31 bits. */
  function LengthBits(header: u32): (n: nat)
    ensures n < LAST_CHUNK_FLAG
    ensures !IsLastChunk(header) ==> n == header
  {
    header % LAST_CHUNK_FLAG
  }

  /** `last_chunk_flag | n` for an `n` that fits in the low 31 bits. */
  function LastChunkHeader(n: nat): (header: u32)
    requires n < LAST_CHUNK_FLAG
    ensures IsLastChunk(header) && LengthBits(header) == n
  {
    LAST_CHUNK_FLAG + n
  }

  /**
   * The LZ4 streaming interface. `compress(history, chunk)` is
   * LZ4_compress_fast_continue on a stream that has already compressed the
   * chunks in `history`; `decompress(history, bytes, capacity)` is
   * LZ4_decompress_safe_continue into a buffer of `capacity` bytes, `None`
   * standing for a negative (error) result; `compressBound` is
   * LZ4_COMPRESSBOUND; `resetSucceeds` is the result of LZ4_setStreamDecode.
   */
  datatype Codec = Codec(
    compress: (seq<seq<byte>>, seq<byte>) -> seq<byte>,
    decompress: (seq<seq<byte>>, seq<byte>, nat) -> Option<seq<byte>>,
    compressBound: nat -> nat,
    resetSucceeds: bool)

  /** What the compressor relies on LZ4_COMPRESSBOUND for: it bounds the
      compressed size of any chunk, grows with the input size, and for a whole
      chunk still fits in the 31 length bits of a header. */
  ghost predicate CodecBounds(c: Codec)
  {
    && (forall history, chunk ::
          |chunk| <= CHUNK_SIZE ==> |c.compress(history, chunk)| <= c.compressBound(|chunk|))
    && (forall n: nat, m: nat :: n <= m <= CHUNK_SIZE ==> c.compressBound(n) <= c.compressBound(m))
    && c.compressBound(CHUNK_SIZE) < LAST_CHUNK_FLAG
  }

  /** LZ4's own promise: a decoder with the same history as the encoder gets
      the chunk back. */
  ghost predicate CodecRoundTrips(c: Codec)
  {
    forall history, chunk ::
      |chunk| <= CHUNK_SIZE ==> c.decompress(history, c.compress(history, chunk), |chunk|) == Some(chunk)
  }

  /** A codec that stores chunks uncompressed: it meets both assumptions, so
      they are consistent. */
  function StoredCodec(): Codec
  {
    Codec((history, chunk) => chunk,
          (history, bytes, capacity) => if |bytes| <= capacity then Some(bytes) else None,
          n => n,
          true)
  }

  lemma {:induction false} StoredCodecIsValid()
    ensures CodecBounds(StoredCodec()) && CodecRoundTrips(StoredCodec())
  {
  }

  // ---------------------------------------------------------------------
  // Frames

  /** One chunk on the wire: its header value and the payload that follows. */
  datatype Frame = Frame(header: u32, payload: seq<byte>)

  /** The bytes of a sequence of frames. */
  function Serialize(frames: seq<Frame>): seq<byte>
  {
    if frames == [] then []
    else LE32(frames[0].header) + frames[0].payload + Serialize(frames[1..])
  }

  lemma {:induction false} SerializeCons(f: Frame, rest: seq<Frame>)
    ensures Serialize([f] + rest) == LE32(f.header) + f.payload + Serialize(rest)
  {
    assert ([f] + rest)[0] == f;
    assert ([f] + rest)[1..] == rest;
  }

  /** `message := chunk* ending in exactly one final chunk`: every frame but
      the last has bit 31 clear and a header equal to its payload length; the
      last one has bit 31 set. */
  ghost predicate WellFormedMessage(frames: seq<Frame>)
  {
    && |frames| >= 1
    && (forall i :: 0 <= i < |frames| - 1 ==>
          !IsLastChunk(frames[i].header) && frames[i].header == |frames[i].payload|)
    && IsLastChunk(frames[|frames| - 1].header)
  }

  /** Flag uniqueness: in a well-formed message exactly one frame, the last,
      has bit 31 set. */
  lemma {:induction false} FlagUnique(frames: seq<Frame>, i: nat)
    requires WellFormedMessage(frames) && i < |frames|
    ensures IsLastChunk(frames[i].header) <==> i == |frames| - 1
  {
  }

  /** Cuts a stream into frames the way the decoder reads it: a header, then
      either the remaining bytes (last chunk) or as many bytes as the header
      says (intermediate chunk). */
  function Parse(s: seq<byte>): (r: Option<seq<Frame>>)
    ensures r.Some? ==> WellFormedMessage(r.value) && Serialize(r.value) == s
    decreases |s|, 0
  {
    if |s| < CHUNK_HEADER_SIZE then None
    else
      LE32Inverse(s[..CHUNK_HEADER_SIZE]);
      assert s == s[..CHUNK_HEADER_SIZE] + s[CHUNK_HEADER_SIZE..];
      ParseChunk(FromLE32(s[..CHUNK_HEADER_SIZE]), s[CHUNK_HEADER_SIZE..])
  }

  function ParseChunk(header: u32, rest: seq<byte>): (r: Option<seq<Frame>>)
    ensures r.Some? ==> WellFormedMessage(r.value) && Serialize(r.value) == LE32(header) + rest
    ensures r.Some? ==> r.value[0].header == header
    decreases |rest|, 1
  {
    if IsLastChunk(header) then
      assert Serialize([Frame(header, rest)]) == LE32(header) + rest + Serialize([]);
      Some([Frame(header, rest)])
    else if header > |rest| then None
    else
      match Parse(rest[header..])
      case None => None
      case Some(frames) =>
        ConsFrame(header, rest, frames);
        Some([Frame(header, rest[..header])] + frames)
  }

  /** An intermediate chunk of `header` bytes in front of the frames of what
      follows it: a well-formed message of all of `LE32(header) + rest`. */
  lemma {:induction false} ConsFrame(header: u32, rest: seq<byte>, frames: seq<Frame>)
    requires !IsLastChunk(header) && header <= |rest|
    requires WellFormedMessage(frames) && Serialize(frames) == rest[header..]
    ensures var m := [Frame(header, rest[..header])] + frames;
      WellFormedMessage(m) && Serialize(m) == LE32(header) + rest && m[0].header == header
  {
    var f := Frame(header, rest[..header]);
    SerializeCons(f, frames);
    WellFormedCons(f, frames);
    assert rest == rest[..header] + rest[header..];
  }

  /** An intermediate frame in front of a well-formed message gives a
      well-formed message. */
  lemma {:induction false} WellFormedCons(f: Frame, frames: seq<Frame>)
    requires WellFormedMessage(frames) && !IsLastChunk(f.header) && f.header == |f.payload|
    ensures WellFormedMessage([f] + frames) && ([f] + frames)[0] == f
  {
    var m := [f] + frames;
    forall i | 0 <= i < |m| - 1
      ensures !IsLastChunk(m[i].header) && m[i].header == |m[i].payload|
    {
      if i > 0 {
        assert m[i] == frames[i - 1];
      }
    }
    assert m[|m| - 1] == frames[|frames| - 1];
  }

  /** Every well-formed message parses back to its frames. */
  lemma {:induction false} ParseSerialize(frames: seq<Frame>)
    requires WellFormedMessage(frames)
    ensures Parse(Serialize(frames)) == Some(frames)
    decreases |frames|
  {
    var f := frames[0];
    var s := Serialize(frames);
    assert s == LE32(f.header) + f.payload + Serialize(frames[1..]);
    assert s[..CHUNK_HEADER_SIZE] == LE32(f.header);
    LE32RoundTrip(f.header);
    var rest := s[CHUNK_HEADER_SIZE..];
    assert rest == f.payload + Serialize(frames[1..]);
    if |frames| == 1 {
      assert Serialize(frames[1..]) == [];
      assert rest == f.payload;
      assert frames == [Frame(f.header, rest)];
    } else {
      assert rest[..f.header] == f.payload;
      assert rest[f.header..] == Serialize(frames[1..]);
      ParseSerialize(frames[1..]);
      assert frames == [f] + frames[1..];
    }
  }

  // ---------------------------------------------------------------------
  // Encoding

  /** The input chunks: 128 KiB pieces, the last one possibly shorter (or
      empty, for empty input). */
  function Chunks(data: seq<byte>): seq<seq<byte>>
    decreases |data|
  {
    if |data| > CHUNK_SIZE then [data[..CHUNK_SIZE]] + Chunks(data[CHUNK_SIZE..])
    else [data]
  }

  /** The chunks cover the input in order: together they are the input, all
      but the last are full and the last is at most full. */
  lemma {:induction false} ChunksCover(data: seq<byte>)
    ensures var r := Chunks(data);
      && |r| >= 1 && Concat(r) == data
      && (forall i :: 0 <= i < |r| - 1 ==> |r[i]| == CHUNK_SIZE)
      && |r[|r| - 1]| <= CHUNK_SIZE
    decreases |data|
  {
    if |data| > CHUNK_SIZE {
      var rest := Chunks(data[CHUNK_SIZE..]);
      ChunksCover(data[CHUNK_SIZE..]);
      ConcatAppend([data[..CHUNK_SIZE]], rest);
      ConcatSingleton(data[..CHUNK_SIZE]);
      assert data == data[..CHUNK_SIZE] + data[CHUNK_SIZE..];
    } else {
      ConcatSingleton(data);
    }
  }

  /** The frames `compress` emits for `data` on a stream that has already
      compressed `history`: an intermediate frame (header = compressed size)
      per full chunk while more than one chunk's worth of input is left, then
      a last frame whose header is the flag and the remaining input size. */
  function EncodeFrames(c: Codec, history: seq<seq<byte>>, data: seq<byte>): seq<Frame>
    requires CodecBounds(c)
    decreases |data|
  {
    if |data| > CHUNK_SIZE then
      var z := c.compress(history, data[..CHUNK_SIZE]);
      [Frame(|z|, z)] + EncodeFrames(c, history + [data[..CHUNK_SIZE]], data[CHUNK_SIZE..])
    else
      [Frame(LastChunkHeader(|data|), c.compress(history, data))]
  }

  /** The encoding is a well-formed message with one frame per chunk. */
  lemma {:induction false} EncodeFramesWellFormed(c: Codec, history: seq<seq<byte>>, data: seq<byte>)
    requires CodecBounds(c)
    ensures var r := EncodeFrames(c, history, data);
      WellFormedMessage(r) && |r| == |Chunks(data)|
    decreases |data|
  {
    if |data| > CHUNK_SIZE {
      var z := c.compress(history, data[..CHUNK_SIZE]);
      var rest := EncodeFrames(c, history + [data[..CHUNK_SIZE]], data[CHUNK_SIZE..]);
      EncodeFramesWellFormed(c, history + [data[..CHUNK_SIZE]], data[CHUNK_SIZE..]);
      var r := [Frame(|z|, z)] + rest;
      forall i | 1 <= i < |r| - 1
        ensures !IsLastChunk(r[i].header) && r[i].header == |r[i].payload|
      {
        assert r[i] == rest[i - 1];
      }
    }
  }

  /** Frame `i` of the encoding is chunk `i` compressed after chunks `0..i`;
      an intermediate frame's header is its compressed size, the last frame's
      header is the flag and the last chunk's size. */
  lemma {:induction false} EncodeFramesAt(c: Codec, history: seq<seq<byte>>, data: seq<byte>, i: nat)
    requires CodecBounds(c) && i < |Chunks(data)|
    ensures var frames, chunks := EncodeFrames(c, history, data), Chunks(data);
      && |frames| == |chunks| && |chunks[i]| <= CHUNK_SIZE
      && frames[i].payload == c.compress(history + chunks[..i], chunks[i])
      && (i < |chunks| - 1 ==> frames[i].header == |frames[i].payload| && !IsLastChunk(frames[i].header))
      && (i == |chunks| - 1 ==> frames[i].header == LastChunkHeader(|chunks[i]|))
    decreases |data|
  {
    var chunks := Chunks(data);
    EncodeFramesWellFormed(c, history, data);
    ChunksCover(data);
    if |data| > CHUNK_SIZE && i > 0 {
      var h' := history + [data[..CHUNK_SIZE]];
      EncodeFramesAt(c, h', data[CHUNK_SIZE..], i - 1);
      assert chunks[1..] == Chunks(data[CHUNK_SIZE..]);
      assert h' + Chunks(data[CHUNK_SIZE..])[..i - 1] == history + chunks[..i];
    } else if i == 0 {
      assert chunks[..0] == [];
      assert history + chunks[..0] == history;
    }
  }

  /** Every message the encoder produces has the last-chunk flag on its
      last header and on no other. */
  lemma {:induction false} EncodedFlagOnLast(c: Codec, history: seq<seq<byte>>, data: seq<byte>, i: nat)
    requires CodecBounds(c) && i < |EncodeFrames(c, history, data)|
    ensures var frames := EncodeFrames(c, history, data);
      IsLastChunk(frames[i].header) <==> i == |frames| - 1
  {
    EncodeFramesWellFormed(c, history, data);
    FlagUnique(EncodeFrames(c, history, data), i);
  }

  /** The input needed per frame: every intermediate frame stands for exactly
      CHUNK_SIZE input bytes, the last for what is left. */
  lemma {:induction false} ChunksSizes(data: seq<byte>)
    ensures var chunks := Chunks(data);
      |chunks| == (if |data| == 0 then 1 else (|data| - 1) / CHUNK_SIZE + 1)
      && |chunks[|chunks| - 1]| == |data| - (|chunks| - 1) * CHUNK_SIZE
    decreases |data|
  {
    if |data| > CHUNK_SIZE {
      var rest := data[CHUNK_SIZE..];
      ChunksSizes(rest);
      var tail, chunks := Chunks(rest), Chunks(data);
      var k := |tail|;
      assert chunks == [data[..CHUNK_SIZE]] + tail;
      assert |chunks| == k + 1 && chunks[k] == tail[k - 1];
      assert k == (|rest| - 1) / CHUNK_SIZE + 1;
      ChunkCountStep(|rest| - 1);
      assert |data| - 1 == (|rest| - 1) + CHUNK_SIZE;
    }
  }

  lemma ChunkCountStep(x: nat)
    ensures (x + CHUNK_SIZE) / CHUNK_SIZE == x / CHUNK_SIZE + 1
  {
  }

  /** 300,000 zero bytes make three frames: two of 128 KiB and a last one
      whose header announces 37,856 bytes. */
  lemma {:induction false} ThreeHundredThousandZeros(c: Codec)
    requires CodecBounds(c)
    ensures var frames := EncodeFrames(c, [], Zeros(300000));
      && |frames| == 3
      && !IsLastChunk(frames[0].header) && !IsLastChunk(frames[1].header)
      && frames[2].header == LastChunkHeader(37856)
  {
    var data := Zeros(300000);
    ChunksSizes(data);
    var chunks := Chunks(data);
    assert |chunks| == 3;
    EncodeFramesAt(c, [], data, 2);
    FlagUnique(EncodeFrames(c, [], data), 0);
    FlagUnique(EncodeFrames(c, [], data), 1);
  }

  // ---------------------------------------------------------------------
  // Decoding

  datatype DecodeError =
    | ResetFailure   // LZ4_setStreamDecode failed
    | Lz4Failure     // LZ4_decompress_safe_continue returned a negative value
    | Truncated      // a header or a chunk runs past the end of the input

  /** An output buffer of `capacity` bytes after the decoder wrote `d` into it
      (bytes it did not write are zero in the model). */
  function Fill(d: seq<byte>, capacity: nat): (r: seq<byte>)
    ensures |r| == capacity
    ensures |d| == capacity ==> r == d
  {
    if |d| <= capacity then d + Zeros(capacity - |d|) else d[..capacity]
  }

  /** Output size a header announces: CHUNK_SIZE for an intermediate chunk, the
      low 31 bits for the last one. */
  function DecodedSize(header: u32): nat
  {
    if IsLastChunk(header) then LengthBits(header) else CHUNK_SIZE
  }

  function PrependAll<T>(outs: seq<T>, r: Result<seq<T>, DecodeError>): Result<seq<T>, DecodeError>
  {
    match r
    case Success(rest) => Success(outs + rest)
    case Failure(e) => Failure(e)
  }

  /** The output buffers the decoder produces from a stream, after the
      stream history `history`: it reads a header, then decodes an
      intermediate chunk into CHUNK_SIZE bytes and goes on, or decodes all the
      remaining bytes into the size the last header gives and stops. A header
      or a chunk that runs past the end of the input is `Truncated`. */
  function DecodeStream(c: Codec, history: seq<seq<byte>>, s: seq<byte>): Result<seq<seq<byte>>, DecodeError>
    decreases |s|, 0
  {
    if |s| < CHUNK_HEADER_SIZE then Failure(Truncated)
    else DecodeChunk(c, history, FromLE32(s[..CHUNK_HEADER_SIZE]), s[CHUNK_HEADER_SIZE..])
  }

  /** `DecodeStream` once the header of the next chunk has been read. */
  function DecodeChunk(c: Codec, history: seq<seq<byte>>, header: u32, rest: seq<byte>)
    : Result<seq<seq<byte>>, DecodeError>
    decreases |rest|, 1
  {
    if IsLastChunk(header) then
      var n := LengthBits(header);
      match c.decompress(history, rest, n)
      case None => Failure(Lz4Failure)
      case Some(d) => Success([Fill(d, n)])
    else if header > |rest| then Failure(Truncated)
    else
      match c.decompress(history, rest[..header], CHUNK_SIZE)
      case None => Failure(Lz4Failure)
      case Some(d) => PrependAll([Fill(d, CHUNK_SIZE)], DecodeStream(c, history + [d], rest[header..]))
  }

  /** The decoder accepts only streams that parse into well-formed frames,
      and produces one output buffer per frame, of the size its header
      announces. */
  lemma {:induction false} DecodeFollowsParse(c: Codec, history: seq<seq<byte>>, s: seq<byte>)
    ensures var r := DecodeStream(c, history, s);
      r.Success? ==>
        && Parse(s).Some? && |r.value| == |Parse(s).value|
        && forall i :: 0 <= i < |r.value| ==> |r.value[i]| == DecodedSize(Parse(s).value[i].header)
    decreases |s|, 0
  {
    if |s| >= CHUNK_HEADER_SIZE {
      DecodeChunkFollowsParse(c, history, FromLE32(s[..CHUNK_HEADER_SIZE]), s[CHUNK_HEADER_SIZE..]);
    }
  }

  lemma {:induction false} DecodeChunkFollowsParse(c: Codec, history: seq<seq<byte>>, header: u32, rest: seq<byte>)
    ensures var r := DecodeChunk(c, history, header, rest);
      r.Success? ==>
        && ParseChunk(header, rest).Some? && |r.value| == |ParseChunk(header, rest).value|
        && forall i :: 0 <= i < |r.value| ==> |r.value[i]| == DecodedSize(ParseChunk(header, rest).value[i].header)
    decreases |rest|, 1
  {
    if !IsLastChunk(header) && header <= |rest| {
      match c.decompress(history, rest[..header], CHUNK_SIZE)
      case None =>
      case Some(d) =>
        var tail := DecodeStream(c, history + [d], rest[header..]);
        DecodeFollowsParse(c, history + [d], rest[header..]);
        if tail.Success? {
          var r := DecodeChunk(c, history, header, rest);
          var frames := ParseChunk(header, rest).value;
          assert r.value == [Fill(d, CHUNK_SIZE)] + tail.value;
          assert frames == [Frame(header, rest[..header])] + Parse(rest[header..]).value;
          forall i | 1 <= i < |r.value|
            ensures |r.value[i]| == DecodedSize(frames[i].header)
          {
            assert r.value[i] == tail.value[i - 1];
            assert frames[i] == Parse(rest[header..]).value[i - 1];
          }
        }
    }
  }

  /** Decoding what was encoded, with the same history on both sides, gives
      back the input chunks. */
  lemma {:induction false} DecodeEncoded(c: Codec, history: seq<seq<byte>>, data: seq<byte>)
    requires CodecBounds(c) && CodecRoundTrips(c)
    ensures DecodeStream(c, history, Serialize(EncodeFrames(c, history, data))) == Success(Chunks(data))
    decreases |data|
  {
    var frames := EncodeFrames(c, history, data);
    var f := frames[0];
    var s := Serialize(frames);
    SerializeCons(f, frames[1..]);
    assert frames == [f] + frames[1..];
    assert s[..CHUNK_HEADER_SIZE] == LE32(f.header);
    LE32RoundTrip(f.header);
    var rest := s[CHUNK_HEADER_SIZE..];
    assert rest == f.payload + Serialize(frames[1..]);
    if |data| > CHUNK_SIZE {
      var chunk := data[..CHUNK_SIZE];
      assert f.payload == c.compress(history, chunk);
      assert rest[..f.header] == f.payload;
      assert rest[f.header..] == Serialize(EncodeFrames(c, history + [chunk], data[CHUNK_SIZE..]));
      DecodeEncoded(c, history + [chunk], data[CHUNK_SIZE..]);
    } else {
      assert frames[1..] == [];
      assert rest == f.payload;
    }
  }

  /** The round trip of the format: the encoding of `data` on a fresh stream
      decodes, on a fresh stream, to buffers whose concatenation is `data`. */
  lemma {:induction false} RoundTrip(c: Codec, data: seq<byte>)
    requires CodecBounds(c) && CodecRoundTrips(c)
    ensures var encoded := Serialize(EncodeFrames(c, [], data));
      && |encoded| >= CHUNK_HEADER_SIZE
      && DecodeStream(c, [], encoded).Success?
      && Concat(DecodeStream(c, [], encoded).value) == data
  {
    DecodeEncoded(c, [], data);
    ChunksCover(data);
    var frames := EncodeFrames(c, [], data);
    SerializeCons(frames[0], frames[1..]);
    assert frames == [frames[0]] + frames[1..];
  }

  /** The single-chunk (fast path) encoding of a short input is the frame the
      general path emits for it. */
  lemma {:induction false} FastPathFrame(c: Codec, data: seq<byte>)
    requires CodecBounds(c) && |data| <= CHUNK_SIZE
    ensures Serialize(EncodeFrames(c, [], data))
         == LE32(LastChunkHeader(|data|)) + c.compress([], data)
  {
    var f := Frame(LastChunkHeader(|data|), c.compress([], data));
    assert EncodeFrames(c, [], data) == [f];
    SerializeCons(f, []);
    assert [f] + [] == [f];
  }

  /** The decoder's single-buffer fast path (a first header with bit 31 set:
      decode everything after it) agrees with the general decoder. */
  lemma {:induction false} FastPathDecode(c: Codec, s: seq<byte>)
    requires |s| >= CHUNK_HEADER_SIZE && IsLastChunk(FromLE32(s[..CHUNK_HEADER_SIZE]))
    ensures var n := LengthBits(FromLE32(s[..CHUNK_HEADER_SIZE]));
      DecodeStream(c, [], s) ==
        match c.decompress([], s[CHUNK_HEADER_SIZE..], n)
        case None => Failure(Lz4Failure)
        case Some(d) => Success([Fill(d, n)])
  {
  }

  // ---------------------------------------------------------------------
  // The decoder as written trusts every header

  /** The source's decompress as written: it checks only that the input holds
      at least one header, then copies as many bytes as each header asks for
      (and reads each further header) without comparing with the bytes left.
      True iff on `s` it would copy past the end of the input. */
  predicate SourceOverreads(c: Codec, s: seq<byte>)
  {
    |s| >= CHUNK_HEADER_SIZE
    && SourceOverreadsChunk(c, [], FromLE32(s[..CHUNK_HEADER_SIZE]), s[CHUNK_HEADER_SIZE..])
  }

  predicate SourceOverreadsChunk(c: Codec, history: seq<seq<byte>>, header: u32, rest: seq<byte>)
    decreases |rest|
  {
    if IsLastChunk(header) then false
    else if header > |rest| then true
    else match c.decompress(history, rest[..header], CHUNK_SIZE)
      case None => false
      case Some(d) =>
        var after := rest[header..];
        |after| < CHUNK_HEADER_SIZE
        || SourceOverreadsChunk(c, history + [d], FromLE32(after[..CHUNK_HEADER_SIZE]), after[CHUNK_HEADER_SIZE..])
  }

  /** Four bytes holding an intermediate header of 5 pass the size check and
      make the source copy 5 bytes from an input with none left. */
  lemma {:induction false} SourceOverreadsShortChunk(c: Codec)
    ensures SourceOverreads(c, [5, 0, 0, 0])
  {
    var s: seq<byte> := [5, 0, 0, 0];
    assert FromLE32(s[..CHUNK_HEADER_SIZE]) == 5;
  }

  /** The corrected decoder reports `Truncated` exactly where the source would
      read past the end, and otherwise behaves as the source does. */
  lemma {:induction false} TruncatedIffSourceOverreads(c: Codec, history: seq<seq<byte>>, header: u32, rest: seq<byte>)
    ensures DecodeChunk(c, history, header, rest) == Failure(Truncated)
        <==> SourceOverreadsChunk(c, history, header, rest)
    decreases |rest|
  {
    if !IsLastChunk(header) && header <= |rest| {
      match c.decompress(history, rest[..header], CHUNK_SIZE)
      case None =>
      case Some(d) =>
        var after := rest[header..];
        if |after| >= CHUNK_HEADER_SIZE {
          TruncatedIffSourceOverreads(c, history + [d], FromLE32(after[..CHUNK_HEADER_SIZE]), after[CHUNK_HEADER_SIZE..]);
        }
    }
  }

  lemma {:induction false} DecodeTruncatedIffSourceOverreads(c: Codec, s: seq<byte>)
    requires |s| >= CHUNK_HEADER_SIZE
    ensures DecodeStream(c, [], s) == Failure(Truncated) <==> SourceOverreads(c, s)
  {
    TruncatedIffSourceOverreads(c, [], FromLE32(s[..CHUNK_HEADER_SIZE]), s[CHUNK_HEADER_SIZE..]);
  }
}
