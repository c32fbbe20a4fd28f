/**
 * A reader of finished images: it follows on-disk inodes and block numbers only.  What it finds is shown to be what
 * the builder was given.  Its numbers are written out and none is taken from the builder: 4096 bytes in a block, 12
 * direct block numbers, 1024 numbers in an index block, 32768 blocks in a file and bits in a block.
 */
module SfsReadback {
  import opened Bits
  import opened Bytes
  import opened SfsModel
  import opened SfsOwnership
  import opened SfsBlockMap
  import opened SfsImage

  type Disk = map<u32, seq<byte>>

  datatype Dinode = Dinode(
    size: u32,
    kind: u16,
    nlinks: u16,
    blocks: u32,
    direct: seq<u32>,
    indirect: u32,
    dbl: u32)

  function BlockAt(disk: Disk, n: u32): (b: seq<byte>)
    ensures |b| == 4096
  {
    if n in disk && |disk[n]| == 4096 then disk[n] else Zeros(4096)
  }

  function ParseInode(b: seq<byte>): (d: Dinode)
    requires |b| == 4096
    ensures |d.direct| == 12
  {
    Dinode(WordAt(b, 0), FromLE16(b[4..6]), FromLE16(b[6..8]), WordAt(b, 2),
           seq(12, k requires 0 <= k < 12 => WordAt(b, 3 + k)), WordAt(b, 15), WordAt(b, 16))
  }

  /** The block number of block `k` of a file, through the direct, indirect and double-indirect levels. */
  function Resolve(disk: Disk, d: Dinode, k: nat): u32
    requires |d.direct| == 12 && k < 32768
  {
    if k < 12 then d.direct[k]
    else if k < 12 + 1024 then WordAt(BlockAt(disk, d.indirect), k - 12)
    else
      var index := WordAt(BlockAt(disk, d.dbl), (k - 1036) / 1024);
      WordAt(BlockAt(disk, index), (k - 1036) % 1024)
  }

  // ----- inodes and block maps ----------------------------------------------------------------------------------

  lemma ParseEncoded(size: u32, kind: u16, nlinks: u16, blocks: u32, direct: seq<u32>, indirect: u32, dbl: u32)
    requires |direct| == L0_NBLKS
    ensures ParseInode(Pad(EncodeInodeFields(size, kind, nlinks, blocks, direct, indirect, dbl))) ==
            Dinode(size, kind, nlinks, blocks, direct, indirect, dbl)
  {
    hide EncodeWords;
    var b := Pad(EncodeInodeFields(size, kind, nlinks, blocks, direct, indirect, dbl));
    LE32RoundTrip(size);
    LE16RoundTrip(kind);
    LE16RoundTrip(nlinks);
    LE32RoundTrip(blocks);
    LE32RoundTrip(indirect);
    LE32RoundTrip(dbl);
    var words := EncodeWords(direct);
    Parts(LE32(size), LE16(kind), LE16(nlinks), LE32(blocks), words, LE32(indirect), LE32(dbl),
          Zeros(BLKSIZE - 68));
    forall k | 0 <= k < L0_NBLKS
      ensures WordAt(b, 3 + k) == direct[k]
    {
      WordOfEncoded(direct, k);
      assert b[4 * (3 + k)..4 * (3 + k) + 4] == b[12..60][4 * k..4 * k + 4];
    }
  }

  /** The fields of an on-disk inode, and what fills its block. */
  lemma Parts(size: seq<byte>, kind: seq<byte>, nlinks: seq<byte>, blocks: seq<byte>, direct: seq<byte>,
              indirect: seq<byte>, dbl: seq<byte>, fill: seq<byte>)
    requires |size| == |blocks| == |indirect| == |dbl| == 4 && |kind| == |nlinks| == 2 && |direct| == 48
    ensures var b := size + kind + nlinks + blocks + direct + indirect + dbl + fill;
      && b[0..4] == size && b[4..6] == kind && b[6..8] == nlinks && b[8..12] == blocks && b[12..60] == direct
      && b[60..64] == indirect && b[64..68] == dbl
  {
  }

  lemma InodeOnDisk(disk: Disk, s: Fs, i: u32)
    requires IsImage(disk, s) && Inv(s) && i in s.files
    ensures |s.files[i].blocks| <= LN_NBLKS && i in disk
    ensures var f := s.files[i];
      ParseInode(BlockAt(disk, i)) ==
      Dinode(Size(f.chunks), f.kind, f.links % 0x1_0000, |f.blocks|, DirectWords(f), IndexOr0(f, 0), f.dbl)
  {
    var f := s.files[i];
    assert Owns(s.owner, i, f) && Shaped(f);
    assert Right(disk, s, i);
    ParseEncoded(Size(f.chunks), f.kind, f.links % 0x1_0000, |f.blocks|, DirectWords(f), IndexOr0(f, 0), f.dbl);
  }

  /** An index block on the image holds its row of the block map. */
  lemma IndexOnDisk(disk: Disk, s: Fs, i: u32, j: nat, t: nat)
    requires IsImage(disk, s) && Inv(s) && i in s.files && j < |s.files[i].index| && t < BLK_NENTRY
    ensures WordAt(BlockAt(disk, s.files[i].index[j]), t) == IndexWord(s.files[i], j, t)
  {
    var f := s.files[i];
    assert Owns(s.owner, i, f);
    assert Right(disk, s, f.index[j]);
    WordOfEncoded(IndexRow(f, j).words, t);
  }

  lemma DoubleOnDisk(disk: Disk, s: Fs, i: u32, t: nat)
    requires IsImage(disk, s) && Inv(s) && i in s.files && s.files[i].dbl != 0 && t < BLK_NENTRY
    ensures WordAt(BlockAt(disk, s.files[i].dbl), t) == IndexOr0(s.files[i], t + 1)
  {
    var f := s.files[i];
    assert Owns(s.owner, i, f);
    assert Right(disk, s, f.dbl);
    WordOfEncoded(DoubleRow(f).words, t);
  }

  /** A data block holds its part of the file, and the file has the index blocks it needs. */
  lemma DataOnDisk(disk: Disk, s: Fs, i: u32, k: nat)
    requires IsImage(disk, s) && Inv(s) && i in s.files && k < |s.files[i].blocks|
    ensures var f := s.files[i];
      && |f.chunks| == |f.blocks| && |f.chunks[k]| <= BLKSIZE && BlockAt(disk, f.blocks[k]) == Pad(f.chunks[k])
      && |f.index| == IndexCount(|f.blocks|) && (f.dbl != 0 <==> |f.index| > 1)
  {
    hide IndexCount;
    var f := s.files[i];
    assert Owns(s.owner, i, f) && Shaped(f);
    assert Right(disk, s, f.blocks[k]);
  }

  /** Where the block map of a file of `n` blocks has block `k`. */
  lemma MapPlace(n: nat, k: nat)
    requires L0_NBLKS <= k < n <= LN_NBLKS
    ensures var j := (k - L0_NBLKS) / 1024;
      j < IndexCount(n) && (if k < L1_NBLKS then j == 0 else j == (k - L1_NBLKS) / 1024 + 1)
    ensures if k < L1_NBLKS then (k - L0_NBLKS) % 1024 == k - L0_NBLKS
            else (k - L1_NBLKS) % 1024 == (k - L0_NBLKS) % 1024
    ensures L0_NBLKS + 1024 * ((k - L0_NBLKS) / 1024) + (k - L0_NBLKS) % 1024 == k
  {
  }

  /**
   * The block map on the image refines the sequence of appends: block `k` of a file resolves to the number that the
   * `k`-th append was given, and that block holds what was written for it.
   */
  lemma ResolveIs(disk: Disk, s: Fs, i: u32, k: nat)
    requires IsImage(disk, s) && Inv(s) && i in s.files && k < |s.files[i].blocks| <= LN_NBLKS
    ensures Resolve(disk, ParseInode(BlockAt(disk, i)), k) == s.files[i].blocks[k]
    ensures |s.files[i].chunks| == |s.files[i].blocks| && |s.files[i].chunks[k]| <= BLKSIZE
    ensures BlockAt(disk, s.files[i].blocks[k]) == Pad(s.files[i].chunks[k])
  {
    hide IsImage, Inv, IndexCount, WordAt;
    var f := s.files[i];
    InodeOnDisk(disk, s, i);
    DataOnDisk(disk, s, i, k);
    if L0_NBLKS <= k {
      var j := (k - L0_NBLKS) / 1024;
      MapPlace(|f.blocks|, k);
      IndexOnDisk(disk, s, i, j, (k - L0_NBLKS) % 1024);
      if j > 0 { DoubleOnDisk(disk, s, i, j - 1); }
    }
  }

  // ----- the bytes of a file ------------------------------------------------------------------------------------

  /** The first `n` blocks of a file, one after the other. */
  function ReadBlocks(disk: Disk, d: Dinode, n: nat): (b: seq<byte>)
    requires |d.direct| == 12 && n <= 32768
    ensures |b| == 4096 * n
  {
    if n == 0 then [] else ReadBlocks(disk, d, n - 1) + BlockAt(disk, Resolve(disk, d, n - 1))
  }

  /** All blocks of a file, cut to its size. */
  function ReadBytes(disk: Disk, d: Dinode): seq<byte>
    requires |d.direct| == 12
  {
    var b := ReadBlocks(disk, d, if d.blocks <= 32768 then d.blocks else 32768);
    if d.size <= |b| then b[..d.size] else b
  }

  function ConcatTo(chunks: seq<seq<byte>>, n: nat): seq<byte>
    requires n <= |chunks|
  {
    if n == 0 then [] else ConcatTo(chunks, n - 1) + chunks[n - 1]
  }

  function Concat(chunks: seq<seq<byte>>): seq<byte> {
    ConcatTo(chunks, |chunks|)
  }

  /** Only the last chunk may be short. */
  predicate Full(chunks: seq<seq<byte>>) {
    forall k :: 0 <= k < |chunks| ==> if k + 1 < |chunks| then |chunks[k]| == BLKSIZE else |chunks[k]| <= BLKSIZE
  }

  lemma {:induction false} ConcatLength(chunks: seq<seq<byte>>, n: nat)
    requires n <= |chunks| <= LN_NBLKS && forall k :: 0 <= k < |chunks| ==> |chunks[k]| <= BLKSIZE
    ensures |ConcatTo(chunks, n)| == SizeTo(chunks, n) <= BLKSIZE * n
  {
    if n > 0 { ConcatLength(chunks, n - 1); }
  }

  lemma {:induction false} ReadBlocksIs(disk: Disk, s: Fs, i: u32, d: Dinode, n: nat)
    requires IsImage(disk, s) && Inv(s) && i in s.files && d == ParseInode(BlockAt(disk, i))
    requires n <= |s.files[i].blocks| == |s.files[i].chunks| <= LN_NBLKS && Full(s.files[i].chunks)
    ensures ConcatTo(s.files[i].chunks, n) <= ReadBlocks(disk, d, n)
    ensures n < |s.files[i].blocks| ==> ConcatTo(s.files[i].chunks, n) == ReadBlocks(disk, d, n)
  {
    hide IsImage, Inv, Resolve, BlockAt, ParseInode, Pad;
    if n > 0 {
      ReadBlocksIs(disk, s, i, d, n - 1);
      ResolveIs(disk, s, i, n - 1);
    }
  }

  /** Reading a file through its on-disk inode gives the bytes that were appended to it. */
  lemma ReadBytesIs(disk: Disk, s: Fs, i: u32)
    requires IsImage(disk, s) && Inv(s) && i in s.files && Full(s.files[i].chunks)
    ensures ReadBytes(disk, ParseInode(BlockAt(disk, i))) == Concat(s.files[i].chunks)
  {
    var f := s.files[i];
    assert Shaped(f);
    InodeOnDisk(disk, s, i);
    ReadBlocksIs(disk, s, i, ParseInode(BlockAt(disk, i)), |f.blocks|);
    ConcatLength(f.chunks, |f.chunks|);
  }

  // ----- directory entries --------------------------------------------------------------------------------------

  datatype Entry = Entry(ino: u32, name: seq<byte>)

  /** The C string at the start of `b`. */
  function CStr(b: seq<byte>): (n: seq<byte>)
    ensures n <= b && forall k :: 0 <= k < |n| ==> n[k] != 0
  {
    if b == [] || b[0] == 0 then [] else [b[0]] + CStr(b[1..])
  }

  lemma {:induction false} CStrIs(n: seq<byte>, rest: seq<byte>)
    requires (forall k :: 0 <= k < |n| ==> n[k] != 0) && rest != [] && rest[0] == 0
    ensures CStr(n + rest) == n
  {
    if n == [] {
      assert n + rest == rest;
    } else {
      CStrIs(n[1..], rest);
      assert (n + rest)[1..] == n[1..] + rest;
    }
  }

  /** A 260-byte directory record at the start of a block. */
  function EntryOf(b: seq<byte>): Entry
    requires |b| == 4096
  {
    Entry(WordAt(b, 0), CStr(b[4..260]))
  }

  /** What of a name fits in the 256 bytes of a record that are written. */
  function Clip(name: CString): CString {
    if |name| <= 252 then name else name[..252]
  }

  /** Whatever the buffer held before, a record reads back as its inode number and the first 252 bytes of the name. */
  lemma EntryReadsBack(ino: u32, entry: seq<byte>, name: CString)
    requires |entry| == NAME_SIZE && |name| <= MAX_FNAME_LEN
    ensures EntryOf(Pad(Record(ino, SetName(entry, name)))) == Entry(ino, Clip(name))
  {
    hide Pad;
    var b, n := Pad(Record(ino, SetName(entry, name))), Clip(name);
    RecordParts(ino, entry, name);
    LE32RoundTrip(ino);
    assert b[4..260] == n + b[4 + |n|..260];
    CStrIs(n, b[4 + |n|..260]);
  }

  /** A record's number, as much of the name as there is room for, and a zero. */
  lemma RecordParts(ino: u32, entry: seq<byte>, name: CString)
    requires |entry| == NAME_SIZE && |name| <= MAX_FNAME_LEN
    ensures var b, n := Pad(Record(ino, SetName(entry, name))), Clip(name);
      b[0..4] == LE32(ino) && b[4..4 + |n|] == n && b[4 + |n|] == 0
  {
    var e, n := SetName(entry, name), Clip(name);
    assert e[..|n|] == n && (|n| < 252 ==> e[|n|] == 0);
    var r := Record(ino, e);
    assert r[0..4] == LE32(ino) && r[4..] == e[..252] && |r| == 256;
    assert Pad(r)[..256] == r;
  }

  /** A name survives exactly when it has at most 252 bytes. */
  lemma NameSurvivesIff(ino: u32, entry: seq<byte>, name: CString)
    requires |entry| == NAME_SIZE && |name| <= MAX_FNAME_LEN
    ensures EntryOf(Pad(Record(ino, SetName(entry, name)))).name == name <==> |name| <= 252
  {
    EntryReadsBack(ino, entry, name);
  }

  // ----- the freemap --------------------------------------------------------------------------------------------

  /** What the image says of block `n`: its bit in the freemap. */
  predicate MarkedFree(disk: Disk, n: u32) {
    var b := BlockAt(disk, 2 + n / 32768);
    Bit(WordAt(b, n % 32768 / 32), n % 32)
  }

  lemma FreemapOwner(s: Fs, k: nat)
    requires Inv(s) && k < FirstFree(s.ninos) - BLKN_FREEMAP
    ensures BLKN_FREEMAP + k < 0x1_0000_0000
    ensures var block: u32 := BLKN_FREEMAP + k; block in s.owner && s.owner[block] == Freemap(k)
  {
    var block: u32 := BLKN_FREEMAP + k;
    assert s.owner[block] == FirstOwner(block);
  }

  lemma FreemapOnDisk(disk: Disk, s: Fs, k: nat, w: nat)
    requires IsImage(disk, s) && Inv(s) && k < FirstFree(s.ninos) - BLKN_FREEMAP && w < BLK_NENTRY
    ensures WordAt(BlockAt(disk, BLKN_FREEMAP + k), w) == RangeWord(s.next, s.ninos, 32768 * k + 32 * w)
  {
    hide RangeWord, Inv, EncodeWords;
    FreemapOwner(s, k);
    var block: u32 := BLKN_FREEMAP + k;
    assert Right(disk, s, block);
    WordOfEncoded(FreemapWords(s.next, s.ninos, k), w);
  }

  lemma BitPlace(n: nat)
    ensures 32768 * (n / 32768) + 32 * (n % 32768 / 32) + n % 32 == n && n % 32768 / 32 < 1024
  {
    assert n % 32768 % 32 == n % 32;
  }

  /** The freemap marks exactly the blocks that nobody owns. */
  lemma FreemapAgrees(disk: Disk, s: Fs, n: u32)
    requires IsImage(disk, s) && Inv(s) && n / 32768 < FirstFree(s.ninos) - BLKN_FREEMAP
    ensures MarkedFree(disk, n) <==> s.next <= n < s.ninos
    ensures MarkedFree(disk, n) <==> n < s.ninos && n !in s.owner
  {
    hide RangeWord, Bit, IsImage, FirstFree;
    BitPlace(n);
    FreemapOnDisk(disk, s, n / 32768, n % 32768 / 32);
    BitOfWord(s.next, s.ninos, 32768 * (n / 32768) + 32 * (n % 32768 / 32), n % 32);
  }

  /** The free blocks below `n`, as the freemap has them. */
  function CountFree(disk: Disk, n: u32): nat {
    if n == 0 then 0 else CountFree(disk, n - 1) + if MarkedFree(disk, n - 1) then 1 else 0
  }

  lemma {:induction false} CountFreeIs(disk: Disk, s: Fs, n: u32)
    requires IsImage(disk, s) && Inv(s) && n <= s.ninos
    ensures CountFree(disk, n) == if n <= s.next then 0 else n - s.next
  {
    hide IsImage, MarkedFree;
    if n > 0 {
      CountFreeIs(disk, s, n - 1);
      FreemapAgrees(disk, s, n - 1);
    }
  }

  /** The superblock counts the free blocks: as many as the freemap marks. */
  lemma SuperAgrees(disk: Disk, s: Fs)
    requires IsImage(disk, s) && Inv(s)
    ensures var b := BlockAt(disk, 0);
      && WordAt(b, 0) == 0x2f8d_be2a && WordAt(b, 1) == s.ninos && b[12..44] == s.info
      && WordAt(b, 2) == CountFree(disk, WordAt(b, 1))
  {
    var b := BlockAt(disk, 0);
    assert Right(disk, s, 0);
    assert b == Pad(EncodeSuper(s.ninos, s.ninos - s.next, s.info));
    assert b[0..4] == LE32(SFS_MAGIC) && b[4..8] == LE32(s.ninos) && b[8..12] == LE32(s.ninos - s.next);
    LE32RoundTrip(SFS_MAGIC);
    LE32RoundTrip(s.ninos);
    LE32RoundTrip(s.ninos - s.next);
    assert b[12..44] == s.info;
    CountFreeIs(disk, s, s.ninos);
  }
}
