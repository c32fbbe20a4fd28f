/** The builder's records in memory and the two hash tables that chain them. */
module SfsCaches {
  import opened Bytes
  import opened SfsModel
  import opened SfsOwnership
  import opened SfsBlockMap
  import opened SfsImage

  const HASH_LIST_SIZE := 1024
  const GOLDEN_RATIO_PRIME_32 := 0x9e37_0001

  function Hash32(val: u32): (h: nat)
    ensures h < HASH_LIST_SIZE
  {
    val * GOLDEN_RATIO_PRIME_32 % 0x1_0000_0000 / 0x40_0000
  }

  function Hash64(val: u64): (h: nat)
    ensures h < HASH_LIST_SIZE
  {
    Hash32(val % 0x1_0000_0000)
  }

  /** An index block in memory: its number, and its 1024 words. */
  class CacheBlock {
    const ino: u32
    var cache: Row

    constructor (ino: u32)
      ensures this.ino == ino && cache == ZeroRow()
    {
      this.ino := ino;
      this.cache := ZeroRow();
    }
  }

  /** An inode in memory: the on-disk fields, then what the builder itself needs. */
  class CacheInode {
    var size: u32
    const kind: u16
    var nlinks: u16
    var blocks: u32
    var direct: seq<u32>
    var indirect: u32
    var dbIndirect: u32
    const hino: u64
    const ino: u32
    var nblks: u32
    var l1: CacheBlock?
    var l2: CacheBlock?

    constructor (hino: u64, ino: u32, kind: u16)
      ensures this.hino == hino && this.ino == ino && this.kind == kind
      ensures Models(NewFile(kind), map[])
    {
      this.hino, this.ino, this.kind := hino, ino, kind;
      size, nlinks, blocks, nblks := 0, 0, 0, 0;
      direct, indirect, dbIndirect := seq(L0_NBLKS, _ => 0), 0, 0;
      l1, l2 := null, null;
    }

    /** This record is the inode `f`. */
    ghost predicate Models(f: File, cbs: map<u32, CacheBlock>)
      reads this
    {
      Counts(f) && Points(f, cbs)
    }

    ghost predicate Counts(f: File)
      reads `nlinks, `size, `nblks, `blocks, `direct
    {
      && kind == f.kind
      && nlinks == f.links % 0x1_0000
      && size == Size(f.chunks)
      && nblks == blocks == |f.blocks|
      && direct == DirectWords(f)
    }

    /** The index numbers are those of `f`, and the two cached pointers name the index blocks in use. */
    ghost predicate Points(f: File, cbs: map<u32, CacheBlock>)
      reads `indirect, `dbIndirect, `l1, `l2
    {
      && indirect == IndexOr0(f, 0)
      && dbIndirect == f.dbl
      && l1 == Cached(cbs, LastIndex(f))
      && l2 == Cached(cbs, f.dbl)
    }

    /** The counters of one more block; its number has its place already. */
    method CountBlock(size: nat, ghost f: File, ghost b: u32, ghost chunk: seq<byte>)
      requires nlinks == f.links % 0x1_0000 && kind == f.kind && nblks == blocks == |f.blocks| < LN_NBLKS
      requires this.size == Size(f.chunks) && size == |chunk|
      requires direct == if |f.blocks| < L0_NBLKS then DirectWords(f)[|f.blocks| := b] else DirectWords(f)
      modifies `nblks, `size, `blocks
      ensures Counts(Appended(f, b, chunk))
    {
      SizeToAppended(f.chunks, chunk, |f.chunks|);
      DirectAppended(f, b, chunk);
      nblks := nblks + 1;
      this.size := Add32(this.size, size);
      blocks := blocks + 1;
    }
  }

  /** The cached block that a block number names; number 0 names none. */
  ghost function Cached(cbs: map<u32, CacheBlock>, n: u32): CacheBlock? {
    if n != 0 && n in cbs then cbs[n] else null
  }

  // ----- hash chains, newest first ------------------------------------------------------------------------------

  function FirstBlock(chain: seq<CacheBlock>, ino: u32): CacheBlock? {
    if chain == [] then null else if chain[0].ino == ino then chain[0] else FirstBlock(chain[1..], ino)
  }

  function FirstInode(chain: seq<CacheInode>, hino: u64): CacheInode? {
    if chain == [] then null else if chain[0].hino == hino then chain[0] else FirstInode(chain[1..], hino)
  }

  lemma {:induction false} FirstBlockIn(chain: seq<CacheBlock>, ino: u32)
    ensures FirstBlock(chain, ino) != null <==> exists cb :: cb in chain && cb.ino == ino
    ensures FirstBlock(chain, ino) != null ==> FirstBlock(chain, ino) in chain && FirstBlock(chain, ino).ino == ino
  {
    if chain != [] && chain[0].ino != ino {
      FirstBlockIn(chain[1..], ino);
      assert forall cb :: cb in chain <==> cb == chain[0] || cb in chain[1..];
    }
  }

  lemma {:induction false} FirstInodeIn(chain: seq<CacheInode>, hino: u64)
    ensures FirstInode(chain, hino) != null ==> FirstInode(chain, hino) in chain
  {
    if chain != [] && chain[0].hino != hino {
      FirstInodeIn(chain[1..], hino);
    }
  }

  /** Index blocks hang in the one chain of `hash32(0)`, whatever their numbers. */
  ghost predicate BlockChains(cbs: map<u32, CacheBlock>, blocks: seq<seq<CacheBlock>>) {
    && |blocks| == HASH_LIST_SIZE
    && (forall b :: 0 < b < HASH_LIST_SIZE ==> blocks[b] == [])
    && (forall cb {:trigger cb in blocks[0]} :: cb in blocks[0] ==> cb.ino in cbs && cbs[cb.ino] == cb)
    && (forall n {:trigger cbs[n]} :: n in cbs ==> cbs[n] in blocks[0] && cbs[n].ino == n)
  }

  /** A search by number, which looks in the chain of that number, succeeds only for numbers that hash to 0. */
  lemma SearchSucceedsIff(cbs: map<u32, CacheBlock>, blocks: seq<seq<CacheBlock>>, ino: u32)
    requires BlockChains(cbs, blocks)
    ensures FirstBlock(blocks[Hash32(ino)], ino) != null <==>
            ino in cbs && ino * 2654404609 % 4294967296 < 4194304
  {
    FirstBlockIn(blocks[Hash32(ino)], ino);
    if ino in cbs && Hash32(ino) == 0 {
      assert cbs[ino] in blocks[0];
    }
  }

  /** Inode `i` hangs in the chain of its host number. */
  ghost predicate Chained(obj: map<u32, CacheInode>, inodes: seq<seq<CacheInode>>, i: u32) {
    i in obj && |inodes| == HASH_LIST_SIZE && obj[i] in inodes[Hash64(obj[i].hino)]
  }

  /** A search for host number `h` finds what `byHost` says. */
  ghost predicate Finds(inodes: seq<seq<CacheInode>>, byHost: map<u64, u32>, h: u64) {
    |inodes| == HASH_LIST_SIZE &&
    var c := FirstInode(inodes[Hash64(h)], h);
    (c != null <==> h in byHost) && (c != null ==> c.ino == byHost[h])
  }

  /** Every inode hangs in the chain of its host number, and a search finds the latest one with that number. */
  ghost predicate InodeChains(obj: map<u32, CacheInode>, inodes: seq<seq<CacheInode>>, byHost: map<u64, u32>) {
    && |inodes| == HASH_LIST_SIZE
    && (forall b, c {:trigger c in inodes[b]} ::
          0 <= b < HASH_LIST_SIZE && c in inodes[b] ==> c.ino in obj && obj[c.ino] == c)
    && (forall i {:trigger Chained(obj, inodes, i)} :: i in obj ==> Chained(obj, inodes, i))
    && (forall h: u64 {:trigger Finds(inodes, byHost, h)} :: Finds(inodes, byHost, h))
  }

  lemma InodeChained(obj: map<u32, CacheInode>, inodes: seq<seq<CacheInode>>, byHost: map<u64, u32>, c: CacheInode)
    requires InodeChains(obj, inodes, byHost) && c.ino !in obj
    ensures var b := Hash64(c.hino);
      InodeChains(obj[c.ino := c], inodes[b := [c] + inodes[b]], byHost[c.hino := c.ino])
  {
    var b := Hash64(c.hino);
    var obj', inodes', byHost' := obj[c.ino := c], inodes[b := [c] + inodes[b]], byHost[c.hino := c.ino];
    forall h: u64
      ensures Finds(inodes', byHost', h)
    {
      assert Finds(inodes, byHost, h);
      assert ([c] + inodes[b])[1..] == inodes[b];
    }
    forall i | i in obj'
      ensures Chained(obj', inodes', i)
    {
      assert i in obj ==> Chained(obj, inodes, i);
    }
  }

  lemma BlockChained(cbs: map<u32, CacheBlock>, blocks: seq<seq<CacheBlock>>, cb: CacheBlock)
    requires BlockChains(cbs, blocks) && cb.ino !in cbs
    ensures BlockChains(cbs[cb.ino := cb], blocks[0 := [cb] + blocks[0]])
  {
  }
}
