/** Fixed-width integers and their little-endian bytes, as a block device sees them. */
module Bytes {
  type byte = x: int | 0 <= x < 0x100
  type u16 = x: int | 0 <= x < 0x1_0000
  type u32 = x: int | 0 <= x < 0x1_0000_0000
  type u64 = x: int | 0 <= x < 0x1_0000_0000_0000_0000

  const BLKSIZE := 4096

  function Zeros(n: nat): (z: seq<byte>)
  {
    seq(n, _ => 0)
  }

  function LE16(w: u16): (b: seq<byte>)
    ensures |b| == 2
  {
    [w % 0x100, w / 0x100]
  }

  function LE32(w: u32): (b: seq<byte>)
    ensures |b| == 4
  {
    [w % 0x100, w / 0x100 % 0x100, w / 0x1_0000 % 0x100, w / 0x100_0000]
  }

  function FromLE16(b: seq<byte>): u16
    requires |b| == 2
  {
    b[0] as int + 0x100 * (b[1] as int)
  }

  function FromLE32(b: seq<byte>): u32
    requires |b| == 4
  {
    b[0] as int + 0x100 * (b[1] as int) + 0x1_0000 * (b[2] as int) + 0x100_0000 * (b[3] as int)
  }

  lemma LE16RoundTrip(w: u16)
    ensures FromLE16(LE16(w)) == w
  {
  }

  lemma LE32RoundTrip(w: u32)
    ensures FromLE32(LE32(w)) == w
  {
    var w1 := w / 0x100;
    var w2 := w1 / 0x100;
    assert w / 0x1_0000 == w2;
    assert w / 0x100_0000 == w2 / 0x100;
  }

  /** The low byte comes first. */
  lemma LowFirst(h: u16, w: u32)
    ensures h == LE16(h)[0] as int + 256 * (LE16(h)[1] as int)
    ensures var b := LE32(w);
      w == b[0] as int + 256 * (b[1] as int) + 65536 * (b[2] as int) + 16777216 * (b[3] as int)
  {
    LE16RoundTrip(h);
    LE32RoundTrip(w);
  }

  /** An array of words as it lies in memory. */
  function EncodeWords(ws: seq<u32>): (b: seq<byte>)
    ensures |b| == 4 * |ws|
  {
    if ws == [] then [] else LE32(ws[0]) + EncodeWords(ws[1..])
  }

  /** The `i`-th word of a region of memory. */
  function WordAt(b: seq<byte>, i: nat): u32
    requires 4 * i + 4 <= |b|
  {
    FromLE32(b[4 * i..4 * i + 4])
  }

  lemma {:induction false} WordOfEncoded(ws: seq<u32>, i: nat)
    requires i < |ws|
    ensures EncodeWords(ws)[4 * i..4 * i + 4] == LE32(ws[i])
    ensures WordAt(EncodeWords(ws), i) == ws[i]
  {
    var b, t := EncodeWords(ws), EncodeWords(ws[1..]);
    if i == 0 {
      assert b[0..4] == LE32(ws[0]);
    } else {
      WordOfEncoded(ws[1..], i - 1);
      assert b[4 * i..4 * i + 4] == t[4 * (i - 1)..4 * (i - 1) + 4];
    }
    LE32RoundTrip(ws[i]);
  }

  /** What one block write leaves in a block: the data, then zeros. */
  function Pad(data: seq<byte>): (b: seq<byte>)
    requires |data| <= BLKSIZE
    ensures |b| == BLKSIZE && data <= b
    ensures forall k :: |data| <= k < BLKSIZE ==> b[k] == 0
  {
    data + Zeros(BLKSIZE - |data|)
  }
}
