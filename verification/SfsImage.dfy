/** What every block of a finished image holds, by its owner. */
module SfsImage {
  import opened Bits
  import opened Bytes
  import opened SfsModel
  import opened SfsOwnership
  import opened SfsBlockMap

  const SFS_MAGIC: u32 := 0x2f8d_be2a
  const INFO_SIZE := 32
  const INODE_SIZE := 68

  /** Unsigned 32-bit addition. */
  function Add32(x: u32, y: nat): u32 {
    (x + y) % 0x1_0000_0000
  }

  /** The total of the lengths appended, as the 32-bit `size` counts it. */
  function Size(chunks: seq<seq<byte>>): u32 {
    SizeTo(chunks, |chunks|)
  }

  function SizeTo(chunks: seq<seq<byte>>, n: nat): u32
    requires n <= |chunks|
  {
    if n == 0 then 0 else Add32(SizeTo(chunks, n - 1), |chunks[n - 1]|)
  }

  lemma {:induction false} SizeToAppended(chunks: seq<seq<byte>>, chunk: seq<byte>, n: nat)
    requires n <= |chunks|
    ensures SizeTo(chunks + [chunk], n) == SizeTo(chunks, n)
  {
    if n > 0 { SizeToAppended(chunks, chunk, n - 1); }
  }

  // ----- on-disk records ----------------------------------------------------------------------------------------

  function EncodeInodeFields(size: u32, kind: u16, nlinks: u16, blocks: u32, direct: seq<u32>, indirect: u32, dbl: u32)
    : (b: seq<byte>)
    requires |direct| == L0_NBLKS
    ensures |b| == INODE_SIZE
  {
    LE32(size) + LE16(kind) + LE16(nlinks) + LE32(blocks) + EncodeWords(direct) + LE32(indirect) + LE32(dbl)
  }

  function EncodeInode(f: File): (b: seq<byte>)
    requires |f.blocks| <= LN_NBLKS
    ensures |b| == INODE_SIZE
  {
    EncodeInodeFields(Size(f.chunks), f.kind, f.links % 0x1_0000, |f.blocks|, DirectWords(f), IndexOr0(f, 0), f.dbl)
  }

  function EncodeSuper(blocks: u32, unused: u32, info: seq<byte>): (b: seq<byte>)
    requires |info| == INFO_SIZE
    ensures |b| == 12 + INFO_SIZE
  {
    LE32(SFS_MAGIC) + LE32(blocks) + LE32(unused) + info
  }

  /** Block `k` of the freemap: a set bit for every free block, counted from block `32768 * k`. */
  function FreemapWords(next: nat, ninos: nat, k: nat): (ws: seq<u32>)
    ensures |ws| == BLK_NENTRY
  {
    seq(BLK_NENTRY, w requires 0 <= w => RangeWord(next, ninos, 32768 * k + 32 * w))
  }

  // ----- the image ----------------------------------------------------------------------------------------------

  /** What the owner of a block keeps in it. */
  function Content(s: Fs, who: Owner): (b: seq<byte>)
    requires Holdable(s, who)
    ensures |b| == BLKSIZE
  {
    match who
    case Super => Pad(EncodeSuper(s.ninos, s.ninos - s.next, s.info))
    case Freemap(k) => EncodeWords(FreemapWords(s.next, s.ninos, k))
    case Inode(i) => Pad(EncodeInode(s.files[i]))
    case Index(i, j) => EncodeWords(IndexRow(s.files[i], j).words)
    case Double(i) => EncodeWords(DoubleRow(s.files[i]).words)
    case Data(i, k) => Pad(s.files[i].chunks[k])
  }

  /** `who` is a place that exists in `s`. */
  predicate Holdable(s: Fs, who: Owner) {
    match who
    case Super => |s.info| == INFO_SIZE && s.next <= s.ninos
    case Freemap(_) => true
    case Inode(i) => i in s.files && |s.files[i].blocks| <= LN_NBLKS
    case Index(i, _) => i in s.files
    case Double(i) => i in s.files
    case Data(i, k) => i in s.files && k < |s.files[i].chunks| && |s.files[i].chunks[k]| <= BLKSIZE
  }

  /** Every held place exists. */
  lemma HeldIsHoldable(s: Fs, n: u32)
    requires Inv(s) && n in s.owner
    ensures Holdable(s, s.owner[n])
  {
    assert Claimed(s, n);
    match s.owner[n]
    case Inode(i) => assert Shaped(s.files[i]);
    case Data(i, k) => assert Shaped(s.files[i]);
    case Super =>
    case Freemap(_) =>
    case Index(_, _) =>
    case Double(_) =>
  }

  /** Block `n` holds what its owner keeps there. */
  ghost predicate Right(disk: map<u32, seq<byte>>, s: Fs, n: u32) {
    n in s.owner && Holdable(s, s.owner[n]) && n in disk && disk[n] == Content(s, s.owner[n])
  }

  /** The image of a finished run: every block taken holds what its owner keeps there, and nothing else was written. */
  ghost predicate IsImage(disk: map<u32, seq<byte>>, s: Fs) {
    disk.Keys == s.owner.Keys && forall n {:trigger Right(disk, s, n)} :: n in s.owner ==> Right(disk, s, n)
  }

  /** A write of the right content leaves the right blocks right. */
  lemma StillRight(disk: map<u32, seq<byte>>, s: Fs, b: u32, n: u32)
    requires b in s.owner && Holdable(s, s.owner[b])
    requires Right(disk, s, n) || n == b
    ensures Right(disk[b := Content(s, s.owner[b])], s, n)
  {
  }
}
