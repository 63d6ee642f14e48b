/**
 * Bytes, 32-bit words, and byte streams held in several buffers.
 */
module Bytes {

  type byte = b: int | 0 <= b < 256

  /** A C++ `uint32_t`. */
  type u32 = x: int | 0 <= x < 0x1_0000_0000

  /** The contents of a freshly allocated buffer. C++ leaves it uninitialised;
      the model fills it with zeros. */
  function Zeros(n: nat): (r: seq<byte>)
    ensures |r| == n
    ensures forall i :: 0 <= i < n ==> r[i] == 0
  {
    seq(n, _ => 0)
  }

  lemma AppendAssoc(a: seq<byte>, b: seq<byte>, c: seq<byte>)
    ensures a + b + c == a + (b + c)
  {
  }

  lemma SliceJoin(s: seq<byte>, i: nat, j: nat, k: nat)
    requires i <= j <= k <= |s|
    ensures s[i..k] == s[i..j] + s[j..k]
  {
  }

  /** The logical byte stream held by a list of buffers. */
  function Concat(bufs: seq<seq<byte>>): seq<byte>
  {
    if bufs == [] then [] else Concat(bufs[..|bufs| - 1]) + bufs[|bufs| - 1]
  }

  /** The total size of a list of buffers, summed buffer by buffer. */
  function TotalSize(bufs: seq<seq<byte>>): (n: nat)
    ensures n == |Concat(bufs)|
  {
    if bufs == [] then 0 else TotalSize(bufs[..|bufs| - 1]) + |bufs[|bufs| - 1]|
  }

  lemma {:induction false} ConcatAppend(a: seq<seq<byte>>, b: seq<seq<byte>>)
    ensures Concat(a + b) == Concat(a) + Concat(b)
  {
    if b == [] {
      assert a + b == a;
    } else {
      var b' := b[..|b| - 1];
      assert (a + b)[..|a + b| - 1] == a + b';
      ConcatAppend(a, b');
    }
  }

  lemma ConcatSingleton(x: seq<byte>)
    ensures Concat([x]) == x
  {
    assert [x][..0] == [];
  }

  /** A list of buffers splits around any one of them. */
  lemma {:induction false} ConcatAt(bufs: seq<seq<byte>>, i: nat)
    requires i < |bufs|
    ensures Concat(bufs) == Concat(bufs[..i]) + bufs[i] + Concat(bufs[i + 1..])
  {
    var front, rest := bufs[..i + 1], bufs[i + 1..];
    assert Concat(bufs) == Concat(front) + Concat(rest) by {
      assert bufs == front + rest;
      ConcatAppend(front, rest);
    }
    assert Concat(front) == Concat(bufs[..i]) + bufs[i] by {
      assert front[..i] == bufs[..i];
    }
  }

  /** The logical offset of byte `off` of buffer `i`. */
  function Pos(bufs: seq<seq<byte>>, i: nat, off: nat): nat
    requires i <= |bufs|
  {
    |Concat(bufs[..i])| + off
  }

  /** Reading `k` bytes at offset `off` of buffer `i` reads the logical stream
      at `Pos(bufs, i, off)`. */
  lemma {:induction false} ConcatSlice(bufs: seq<seq<byte>>, i: nat, off: nat, k: nat)
    requires i < |bufs| && off + k <= |bufs[i]|
    ensures Pos(bufs, i, off) + k <= |Concat(bufs)|
    ensures Concat(bufs)[Pos(bufs, i, off)..Pos(bufs, i, off) + k] == bufs[i][off..off + k]
  {
    ConcatAt(bufs, i);
  }

  /** The end of buffer `i` is the start of buffer `i + 1`. */
  lemma {:induction false} PosNext(bufs: seq<seq<byte>>, i: nat)
    requires i < |bufs|
    ensures Pos(bufs, i, |bufs[i]|) == Pos(bufs, i + 1, 0)
  {
    assert bufs[..i + 1][..i] == bufs[..i];
  }

  /** The end of the last buffer is the end of the stream. */
  lemma {:induction false} PosEnd(bufs: seq<seq<byte>>)
    requires |bufs| > 0
    ensures Pos(bufs, |bufs| - 1, |bufs[|bufs| - 1]|) == |Concat(bufs)|
  {
  }

  /** `write_le` of a `uint32_t`: least significant byte first. */
  function LE32(v: u32): (r: seq<byte>)
    ensures |r| == 4
  {
    var v1 := v / 256;
    var v2 := v1 / 256;
    [v % 256, v1 % 256, v2 % 256, v2 / 256]
  }

  /** `le_to_cpu` of four bytes read as a `uint32_t`. */
  function FromLE32(s: seq<byte>): u32
    requires |s| == 4
  {
    var b0, b1, b2, b3 := s[0] as int, s[1] as int, s[2] as int, s[3] as int;
    b0 + 256 * (b1 + 256 * (b2 + 256 * b3))
  }

  /** One byte in front of a number, in base 256. */
  lemma Digit(b: byte, rest: int)
    ensures (b + 256 * rest) % 256 == b && (b + 256 * rest) / 256 == rest
  {
  }

  lemma LE32RoundTrip(v: u32)
    ensures FromLE32(LE32(v)) == v
  {
    var v1 := v / 256;
    var v2 := v1 / 256;
    assert v2 == v2 % 256 + 256 * (v2 / 256);
    assert v1 == v1 % 256 + 256 * v2;
    assert v == v % 256 + 256 * v1;
  }

  lemma LE32Inverse(s: seq<byte>)
    requires |s| == 4
    ensures LE32(FromLE32(s)) == s
  {
    var v2 := s[2] as int + 256 * s[3] as int;
    var v1 := s[1] as int + 256 * v2;
    Digit(s[0], v1);
    Digit(s[1], v2);
    Digit(s[2], s[3]);
  }
}
