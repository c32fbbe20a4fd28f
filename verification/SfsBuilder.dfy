/** The image builder itself: counters, hash tables, cached index blocks and the image, all updated in place. */
module SfsBuilder {
  import opened Bits
  import opened Bytes
  import opened Options
  import opened SfsModel
  import opened SfsOwnership
  import opened SfsBlockMap
  import opened SfsImage
  import opened SfsCaches
  import opened SfsReadback
  import opened SfsTree

  /** Every block that `f` appended holds on the image what was written for it. */
  ghost predicate OnDisk(disk: map<u32, seq<byte>>, f: File) {
    |f.chunks| == |f.blocks|
    && forall k {:trigger f.blocks[k]} :: 0 <= k < |f.blocks| ==>
      |f.chunks[k]| <= BLKSIZE && f.blocks[k] in disk && disk[f.blocks[k]] == Pad(f.chunks[k])
  }

  class Sfs {
    const ninos: u32
    const superBlocks: u32
    const info: seq<byte>
    var root: CacheInode?
    var nextIno: u32
    var unusedBlocks: u32
    var inodes: seq<seq<CacheInode>>
    var blocks: seq<seq<CacheBlock>>
    var entryName: seq<byte>
    var disk: map<u32, seq<byte>>

    ghost var abs: Fs
    ghost var obj: map<u32, CacheInode>
    ghost var cbs: map<u32, CacheBlock>
    ghost var mem: map<u32, Row>

    // ----- how the fields and records together stand for `abs` --------------------------------------------------

    ghost predicate CountersTied(next: nat)
      reads `nextIno, `unusedBlocks
    {
      nextIno == next <= ninos && superBlocks == ninos && unusedBlocks == ninos - nextIno
    }

    ghost predicate FilesTied(files: map<u32, File>)
      reads `obj, `cbs, obj.Values
    {
      && obj.Keys == files.Keys
      && (forall i {:trigger obj[i]} :: i in obj ==> obj[i].ino == i)
      && (forall i {:trigger obj[i].Models(files[i], cbs)} :: i in obj ==> obj[i].Models(files[i], cbs))
    }

    ghost predicate MemTied()
      reads `cbs, `mem, cbs.Values
    {
      && cbs.Keys == mem.Keys
      && (forall n {:trigger cbs[n]} :: n in cbs ==>
            cbs[n].ino == n && cbs[n].cache == mem[n])
    }

    /** Cached index blocks stay; others are new objects. */
    twostate predicate CbsGrew()
      reads `cbs
    {
      && (forall n {:trigger old(cbs[n])} :: n in old(cbs) ==> n in cbs)
      && (forall n {:trigger cbs[n]} :: n in cbs ==> if n in old(cbs) then cbs[n] == old(cbs)[n] else fresh(cbs[n]))
    }

    static ghost predicate DiskTied(disk: map<u32, seq<byte>>, files: map<u32, File>) {
      forall i {:trigger OnDisk(disk, files[i])} :: i in files ==> OnDisk(disk, files[i])
    }

    /** Everything but the image itself. */
    ghost predicate InMemory()
      reads `nextIno, `unusedBlocks, `inodes, `blocks, `entryName, `abs, `obj, `cbs, `mem, obj.Values, cbs.Values
    {
      && abs.ninos == ninos && abs.entry == entryName && abs.info == info
      && CountersTied(abs.next)
      && FilesTied(abs.files)
      && MemTied()
      && AllMapped(abs.files, mem)
      && (forall n {:trigger n in mem} :: n in mem ==> OwnedAsIndex(abs.owner, n))
      && InodeChains(obj, inodes, abs.byHost)
      && BlockChains(cbs, blocks)
    }

    ghost predicate Tied()
      reads this, obj.Values, cbs.Values
    {
      && InMemory()
      && DiskTied(disk, abs.files)
      && (forall n {:trigger n in disk} :: n in disk ==> n < abs.next)
    }

    ghost predicate Valid()
      reads this, obj.Values, cbs.Values
    {
      Tied() && Inv(abs)
    }

    // ----- blocks and caches ------------------------------------------------------------------------------------

    method AllocIno() returns (ok: bool, ino: u32)
      requires CountersTied(nextIno)
      modifies `nextIno, `unusedBlocks
      ensures ok <==> old(nextIno) < ninos
      ensures ok ==> ino == old(nextIno) && nextIno == ino + 1 && CountersTied(nextIno)
    {
      if nextIno < ninos {
        unusedBlocks := unusedBlocks - 1;
        nextIno := nextIno + 1;
        return true, nextIno - 1;
      }
      return false, 0;
    }

    method AllocCacheBlock(ino: u32) returns (ok: bool, cb: CacheBlock?)
      requires CountersTied(nextIno) && |blocks| == HASH_LIST_SIZE
      modifies `nextIno, `unusedBlocks, `blocks
      ensures ok <==> ino != 0 || old(nextIno) < ninos
      ensures ok ==>
        cb != null && fresh(cb) && cb.cache == ZeroRow()
        && cb.ino == (if ino != 0 then ino else old(nextIno))
        && nextIno == old(nextIno) + (if ino != 0 then 0 else 1) && CountersTied(nextIno)
        && blocks == old(blocks)[Hash32(ino) := [cb] + old(blocks)[Hash32(ino)]]
    {
      ok := true;
      var number := ino;
      if ino == 0 {
        ok, number := AllocIno();
        if !ok { return false, null; }
      }
      cb := new CacheBlock(number);
      blocks := blocks[Hash32(ino) := [cb] + blocks[Hash32(ino)]];
    }

    /** Finds an index block by number; index blocks whose number does not hash to 0 are missed. */
    method SearchCacheBlock(ino: u32) returns (cb: CacheBlock?)
      requires BlockChains(cbs, blocks)
      ensures cb == if ino in cbs && Hash32(ino) == 0 then cbs[ino] else null
    {
      var chain := blocks[Hash32(ino)];
      while chain != [] && chain[0].ino != ino
        invariant FirstBlock(chain, ino) == FirstBlock(blocks[Hash32(ino)], ino)
        decreases |chain|
      {
        chain := chain[1..];
      }
      SearchSucceedsIff(cbs, blocks, ino);
      FirstBlockIn(blocks[Hash32(ino)], ino);
      return if chain == [] then null else chain[0];
    }

    /** Records a new cached index block, which is already in its chain. */
    ghost method Enter(cb: CacheBlock, was: seq<seq<CacheBlock>>)
      requires MemTied() && cb.ino !in mem
      requires cb.cache == ZeroRow()
      requires BlockChains(cbs, was) && blocks == was[0 := [cb] + was[0]]
      modifies `cbs, `mem
      ensures MemTied() && BlockChains(cbs, blocks)
      ensures cbs == old(cbs)[cb.ino := cb] && mem == old(mem)[cb.ino := ZeroRow()]
    {
      BlockChained(cbs, was, cb);
      cbs, mem := cbs[cb.ino := cb], mem[cb.ino := ZeroRow()];
    }

    /**
     * Makes `cb` the index block that `ino` names, taking a new one when `ino` is 0.  `looked` records whether the
     * search by number was needed.
     */
    method UpdateCache(cb: CacheBlock?, ino: u32) returns (ok: bool, cb': CacheBlock?, ino': u32, ghost looked: bool)
      requires CountersTied(nextIno) && nextIno !in mem && MemTied() && BlockChains(cbs, blocks)
      modifies `nextIno, `unusedBlocks, `blocks, `cbs, `mem
      ensures looked <==> ino != 0 && (cb == null || cb.ino != ino)
      ensures ok <==> if ino == 0 then old(nextIno) < ninos else looked ==> ino in old(cbs) && Hash32(ino) == 0
      ensures ok ==> MemTied() && BlockChains(cbs, blocks)
      ensures ok && ino == 0 ==>
        ino' == old(nextIno) && nextIno == old(nextIno) + 1 && CountersTied(nextIno)
        && cb' != null && fresh(cb')
        && cbs == old(cbs)[ino' := cb'] && mem == old(mem)[ino' := ZeroRow()]
      ensures !ok ==> unchanged(`cbs)
      ensures ino != 0 ==> unchanged(`nextIno, `unusedBlocks, `blocks, `cbs, `mem)
      ensures ok && ino != 0 ==> ino' == ino && cb' == if looked then cbs[ino] else cb
    {
      ok, ino', cb', looked := true, ino, cb, false;
      if ino == 0 {
        ok, cb' := AllocCacheBlock(0);
        if !ok { return; }
        ino' := cb'.ino;
        Enter(cb', old(blocks));
      } else if cb == null || cb.ino != ino {
        looked := true;
        cb' := SearchCacheBlock(ino);
        ok := cb' != null && cb'.ino == ino;
      }
    }

    // ----- the block map ----------------------------------------------------------------------------------------

    /** `file` is the record of one of the inodes. */
    ghost predicate Has(file: CacheInode)
      reads `obj
    {
      file.ino in obj && obj[file.ino] == file
    }

    /** The caches are in order, and `file`'s pointers and index blocks are those of `f`. */
    ghost predicate Holding(file: CacheInode, f: File)
      reads `nextIno, `unusedBlocks, `cbs, `mem, `blocks, cbs.Values
      reads file`indirect, file`dbIndirect, file`l1, file`l2
    {
      && CountersTied(nextIno) && 0 < nextIno && MemTied() && BlockChains(cbs, blocks)
      && file.Points(f, cbs) && Mapped(f, mem) && Apart(f)
    }

    /**
     * The pointers that `append_block` hands to `update_cache` are always current: `l1` is the block that the last
     * index number names and `l2` the block that the double-indirect number names.
     */
    lemma PointersCurrent(file: CacheInode, f: File)
      requires Holding(file, f)
      ensures f.dbl != 0 ==> file.l2 != null && file.l2.ino == f.dbl && f.dbl in cbs && cbs[f.dbl] == file.l2
      ensures f.index != [] ==>
        var n := LastIndex(f); n != 0 && file.l1 != null && file.l1.ino == n && n in cbs && cbs[n] == file.l1
      ensures file.indirect == 0 <==> f.index == []
    {
      if f.index != [] {
        assert f.index[|f.index| - 1] in mem && f.index[0] in f.index;
      }
    }

    /** Writes word `t` of a cached index block. */
    method Store(cb: CacheBlock, t: nat, v: u32)
      requires MemTied() && cb.ino in cbs && cbs[cb.ino] == cb && t < BLK_NENTRY
      modifies `mem, cb
      ensures MemTied() && mem == old(mem)[cb.ino := SetWord(old(mem)[cb.ino], t, v)]
    {
      cb.cache := SetWord(cb.cache, t, v);
      mem := mem[cb.ino := SetWord(mem[cb.ino], t, v)];
    }

    /** `update_cache` on the indirect block. */
    method UpdateIndirect(file: CacheInode, ghost f: File) returns (ok: bool, ghost f': File, ghost looked: bool)
      requires Holding(file, f) && Shaped(f) && L0_NBLKS <= |f.blocks| < L1_NBLKS && nextIno !in mem
      modifies `nextIno, `unusedBlocks, `blocks, `cbs, `mem, file`l1, file`indirect
      ensures !looked && (ok <==> old(nextIno) + ReserveCount(f) <= ninos)
      ensures f' == ReservedFile(f, old(nextIno))
      ensures ok ==> nextIno == old(nextIno) + ReserveCount(f) && Holding(file, f') && Kept(f', old(mem), mem)
      ensures if ok && f.index == [] then fresh(file.l1) && cbs == old(cbs)[old(nextIno) := file.l1]
              else unchanged(`cbs)
    {
      PointersCurrent(file, f);
      IndirectReserve(f, nextIno);
      f' := ReservedFile(f, nextIno);
      if f.index == [] { FirstIndexMapped(f, mem, nextIno); }
      var cb, ino;
      ok, cb, ino, looked := UpdateCache(file.l1, file.indirect);
      if !ok { return; }
      file.l1, file.indirect := cb, ino;
    }

    /** `update_cache` on the double-indirect block. */
    method UpdateDouble(file: CacheInode, ghost f: File) returns (ok: bool, ghost f': File, ghost looked: bool)
      requires Holding(file, f) && |f.index| >= 1 && (f.dbl == 0 ==> |f.index| == 1) && nextIno !in mem
      modifies `nextIno, `unusedBlocks, `blocks, `cbs, `mem, file`l2, file`dbIndirect
      ensures !looked && (ok <==> f.dbl == 0 ==> old(nextIno) < ninos)
      ensures f' == if f.dbl == 0 then f.(dbl := old(nextIno)) else f
      ensures ok ==> nextIno == old(nextIno) + (if f.dbl == 0 then 1 else 0)
      ensures ok ==> Holding(file, f') && Kept(f', old(mem), mem)
      ensures ok ==> f'.dbl in cbs && cbs[f'.dbl] == file.l2
      ensures ok && f.dbl == 0 ==> mem.Keys <= old(mem).Keys + {old(nextIno)}
      ensures f.dbl != 0 ==> unchanged(file, `mem)
      ensures if ok && f.dbl == 0 then fresh(file.l2) && cbs == old(cbs)[old(nextIno) := file.l2] else unchanged(`cbs)
    {
      PointersCurrent(file, f);
      f' := if f.dbl == 0 then f.(dbl := nextIno) else f;
      if f.dbl == 0 { DoubleMapped(f, mem, nextIno); }
      assert f.index[0] in mem;
      var cb, ino;
      ok, cb, ino, looked := UpdateCache(file.l2, file.dbIndirect);
      if !ok { return; }
      file.l2, file.dbIndirect := cb, ino;
    }

    /** `update_cache` on word `q` of the double-indirect block. */
    method UpdateSlot(file: CacheInode, ghost f: File, q: nat) returns (ok: bool, ghost f': File, ghost looked: bool)
      requires Holding(file, f) && f.dbl != 0 && file.l2 != null && f.dbl in cbs && cbs[f.dbl] == file.l2
      requires q < |f.index| <= q + 2 && q < BLK_NENTRY && nextIno !in mem
      requires |f.index| == q + 1 ==> |f.blocks| == L0_NBLKS + 1024 * |f.index|
      modifies `nextIno, `unusedBlocks, `blocks, `cbs, `mem, file`l1, file.l2
      ensures !looked && (ok <==> |f.index| == q + 1 ==> old(nextIno) < ninos)
      ensures f' == if |f.index| == q + 1 then f.(index := f.index + [old(nextIno)]) else f
      ensures ok ==> nextIno == old(nextIno) + (if |f.index| == q + 1 then 1 else 0)
      ensures ok ==> Holding(file, f') && Kept(f', old(mem), mem)
      ensures if ok && |f.index| == q + 1 then fresh(file.l1) && cbs == old(cbs)[old(nextIno) := file.l1]
              else unchanged(`cbs)
    {
      PointersCurrent(file, f);
      SlotWord(file, f, q);
      f' := if |f.index| == q + 1 then f.(index := f.index + [nextIno]) else f;
      if |f.index| == q + 1 { NextIndexMapped(f, mem, nextIno); }
      KeptSame(f, mem);
      HoldingIs(file, f);
      hide Holding, Mapped, Apart, Kept, MemTied, BlockChains, SetWord, WordOf, Hash32, ZeroRow, IndexOr0, DoubleRow;
      var cb, slot;
      ok, cb, slot, looked := UpdateCache(file.l1, WordOf(file.l2.cache, q));
      if ok {
        file.l1 := cb;
        Store(file.l2, q, slot);
        SlotHolding(file, f, f');
      }
    }

    lemma HoldingIs(file: CacheInode, f: File)
      requires Holding(file, f)
      ensures CountersTied(nextIno) && 0 < nextIno && MemTied() && BlockChains(cbs, blocks) && file.Points(f, cbs)
      ensures Mapped(f, mem) && Apart(f) && cbs.Keys == mem.Keys
    {
    }

    /** After a new last index block, or none, the pointers are those of `f'`. */
    lemma SlotHolding(file: CacheInode, f: File, f': File)
      requires CountersTied(nextIno) && 0 < nextIno && MemTied() && BlockChains(cbs, blocks)
      requires Mapped(f', mem) && Apart(f') && f.index != [] && f.index <= f'.index && f'.dbl == f.dbl != 0
      requires file.indirect == IndexOr0(f, 0) && file.dbIndirect == f.dbl
      requires file.l1 == Cached(cbs, LastIndex(f')) && file.l2 == Cached(cbs, f.dbl)
      ensures Holding(file, f')
    {
    }

    /** Word `q` of the double-indirect block, as it lies in the cache. */
    lemma SlotWord(file: CacheInode, f: File, q: nat)
      requires Holding(file, f) && f.dbl != 0 && file.l2 != null && f.dbl in cbs && cbs[f.dbl] == file.l2
      requires q < |f.index| <= q + 2 && q < BLK_NENTRY
      ensures file.l2.ino == f.dbl && f.dbl in mem && WordOf(file.l2.cache, q) == IndexOr0(f, q + 1)
      ensures |f.index| == q + 2 ==> mem[f.dbl := SetWord(mem[f.dbl], q, IndexOr0(f, q + 1))] == mem
      ensures |f.index| == q + 2 ==> IndexOr0(f, q + 1) == LastIndex(f) != 0
      ensures f.index != [] && (|f.index| == q + 1 ==> IndexOr0(f, q + 1) == 0)
    {
      var row := mem[f.dbl];
      assert row == DoubleRow(f);
      if |f.index| == q + 2 {
        assert f.index[q + 1] in f.index;
        assert SetWord(row, q, IndexOr0(f, q + 1)) == row;
      }
    }

    /** How many blocks `UpdateBoth` takes when block `q` of the second level is in use. */
    static function BothCount(f: File, q: nat): nat {
      (if f.dbl == 0 then 1 else 0) + if |f.index| == q + 1 then 1 else 0
    }

    static function BothFile(f: File, q: nat, from: u32): File {
      var f1 := if f.dbl == 0 then f.(dbl := from) else f;
      if |f.index| == q + 1 then f1.(index := f.index + [if f.dbl == 0 then Next(from) else from]) else f1
    }

    /** `c` with one more cached block, if there is one. */
    static ghost function With(c: map<u32, CacheBlock>, n: u32, cb: CacheBlock?): map<u32, CacheBlock> {
      if cb == null then c else c[n := cb]
    }

    /**
     * `update_cache` on the double-indirect block and then on its word `q`; `new2` and `new1` are the index blocks
     * taken, if any.
     */
    method UpdateBoth(file: CacheInode, ghost f: File, q: nat)
      returns (ok: bool, ghost f': File, ghost looked: bool, ghost new2: CacheBlock?, ghost new1: CacheBlock?)
      requires Holding(file, f) && q < |f.index| <= q + 2 && q < BLK_NENTRY && (f.dbl == 0 ==> |f.index| == 1)
      requires |f.index| == q + 1 ==> |f.blocks| == L0_NBLKS + 1024 * |f.index|
      requires nextIno !in mem && Next(nextIno) !in mem
      modifies `nextIno, `unusedBlocks, `blocks, `cbs, `mem, file`l1, file`l2, file`dbIndirect
      modifies if file.l2 == null then {} else {file.l2}
      ensures !looked && (ok <==> old(nextIno) + BothCount(f, q) <= ninos)
      ensures f' == BothFile(f, q, old(nextIno))
      ensures ok ==> nextIno == old(nextIno) + BothCount(f, q) && Holding(file, f') && Kept(f', old(mem), mem)
      ensures var n2 := old(nextIno);
        cbs == With(With(old(cbs), n2, new2), if f.dbl == 0 then Next(n2) else n2, new1)
      ensures (new2 != null ==> fresh(new2)) && (new1 != null ==> fresh(new1))
    {
      assert nextIno !in cbs;
      assert f.dbl != 0 ==> file.l2 != null && f.dbl in cbs && cbs[f.dbl] == file.l2 by { PointersCurrent(file, f); }
      hide Holding, Kept, Mapped, Apart, MemTied, BlockChains;
      f' := BothFile(f, q, nextIno);
      new2, new1 := null, null;
      ghost var f1, looked2;
      ok, f1, looked := UpdateDouble(file, f);
      if ok {
        if f.dbl == 0 { new2 := file.l2; }
        ghost var mem1 := mem;
        assert file.l2 == cbs[f1.dbl];
        ok, f', looked2 := UpdateSlot(file, f1, q);
        looked := looked || looked2;
        if ok {
          KeptTwice(f1, f', old(mem), mem1, mem);
          if |f.index| == q + 1 { new1 := file.l1; }
        }
      }
    }

    /** Both levels have a block at the same word of its index block. */
    static lemma WordPlace(n: nat)
      requires n >= L0_NBLKS
      ensures if n < L1_NBLKS then (n - L0_NBLKS) % 1024 == n - L0_NBLKS
              else (n - L1_NBLKS) % 1024 == (n - L0_NBLKS) % 1024
    {
    }

    /** Makes room for block number `n` of an inode that has its own twelve; `t` is its word in the last index block. */
    method UpdateIndex(file: CacheInode, ghost f: File, n: nat)
      returns (ok: bool, t: nat, ghost f': File, ghost looked: bool)
      requires Holding(file, f) && Shaped(f) && L0_NBLKS <= |f.blocks| == n < LN_NBLKS
      requires nextIno !in mem && Next(nextIno) !in mem
      modifies `nextIno, `unusedBlocks, `blocks, `cbs, `mem, cbs.Values
      modifies file`l1, file`l2, file`indirect, file`dbIndirect
      ensures !looked && (ok <==> old(nextIno) + ReserveCount(f) <= ninos)
      ensures f' == ReservedFile(f, old(nextIno)) && t == (n - L0_NBLKS) % 1024
      ensures ok ==> nextIno == old(nextIno) + ReserveCount(f) && Holding(file, f') && Kept(f', old(mem), mem)
      ensures CbsGrew()
    {
      assert nextIno !in cbs && Next(nextIno) !in cbs && (file.l2 != null ==> file.l2 in cbs.Values);
      WordPlace(n);
      hide Holding, Shaped, Kept, Mapped, Apart, BlockChains, MemTied, ReserveCount, ReservedFile;
      if n < L1_NBLKS {
        t := n - L0_NBLKS;
        ok, f', looked := UpdateIndirect(file, f);
      } else {
        t := (n - L1_NBLKS) % 1024;
        DoubleReserve(f, nextIno);
        ghost var new2, new1;
        ok, f', looked, new2, new1 := UpdateBoth(file, f, (n - L1_NBLKS) / 1024);
      }
    }

    /** Enters block number `ino` as word `t` of the last index block, which has room for it. */
    method StoreBlock(file: CacheInode, ghost f: File, t: nat, ino: u32, ghost chunk: seq<byte>)
      requires Holding(file, f) && L0_NBLKS <= |f.blocks| && |f.index| == IndexCount(|f.blocks| + 1)
      requires t == (|f.blocks| - L0_NBLKS) % 1024
      modifies `mem, cbs.Values
      ensures Holding(file, Appended(f, ino, chunk)) && Kept(Appended(f, ino, chunk), old(mem), mem)
    {
      PointersCurrent(file, f);
      Store(file.l1, t, ino);
      BlockMapped(f, old(mem), t, ino, chunk, mem);
    }

    /** Enters block number `ino` in the last index block. */
    method PlaceIndexed(file: CacheInode, ghost f: File, n: nat, ino: u32, ghost chunk: seq<byte>)
      returns (ok: bool, ghost f': File, ghost looked: bool)
      requires Holding(file, f) && Shaped(f) && L0_NBLKS <= |f.blocks| == n < LN_NBLKS
      requires nextIno !in mem && Next(nextIno) !in mem
      modifies `nextIno, `unusedBlocks, `blocks, `cbs, `mem, cbs.Values
      modifies file`l1, file`l2, file`indirect, file`dbIndirect
      ensures !looked && (ok <==> old(nextIno) + ReserveCount(f) <= ninos)
      ensures f' == Appended(ReservedFile(f, old(nextIno)), ino, chunk)
      ensures ok ==> nextIno == old(nextIno) + ReserveCount(f) && Holding(file, f') && Kept(f', old(mem), mem)
      ensures CbsGrew()
    {
      hide Mapped, Apart, BlockChains, Kept, MemTied, ReserveCount;
      var t;
      ghost var f2, mem1;
      ok, t, f2, looked := UpdateIndex(file, f, n);
      f' := Appended(f2, ino, chunk);
      if !ok { return; }
      mem1 := mem;
      ReservedCount(f, old(nextIno));
      StoreBlock(file, f2, t, ino, chunk);
      KeptTwice(f2, f', old(mem), mem1, mem);
    }

    /** Enters block number `ino` in the inode's own list. */
    method PlaceDirect(file: CacheInode, ghost f: File, n: nat, ino: u32, ghost chunk: seq<byte>)
      requires Holding(file, f) && Shaped(f) && |f.blocks| == n < L0_NBLKS && file.direct == DirectWords(f)
      modifies file`direct
      ensures ReserveCount(f) == 0 && file.direct == DirectWords(f)[n := ino]
      ensures var f' := Appended(ReservedFile(f, nextIno), ino, chunk); Holding(file, f') && Kept(f', mem, mem)
    {
      DirectReserve(f, nextIno);
      DirectMapped(f, mem, ino, chunk);
      file.direct := file.direct[n := ino];
    }

    /** `append_block`; `looked` says whether `update_cache` ever had to search. */
    method AppendBlock(file: CacheInode, size: nat, ino: u32, ghost f: File, ghost chunk: seq<byte>)
      returns (ok: bool, ghost f': File, ghost looked: bool)
      requires Holding(file, f) && file.Counts(f) && Shaped(f) && nextIno !in mem && Next(nextIno) !in mem
      requires size == |chunk| <= BLKSIZE
      modifies `nextIno, `unusedBlocks, `blocks, `cbs, `mem, cbs.Values, file
      ensures !looked && (ok <==> |f.blocks| < LN_NBLKS && old(nextIno) + ReserveCount(f) <= ninos)
      ensures f' == Appended(ReservedFile(f, old(nextIno)), ino, chunk)
      ensures ok ==> nextIno == old(nextIno) + ReserveCount(f) && Holding(file, f') && Kept(f', old(mem), mem)
      ensures ok ==> file.Counts(f')
      ensures CbsGrew()
    {
      hide Mapped, Apart, BlockChains, Kept, MemTied, ReserveCount;
      f' := Appended(ReservedFile(f, nextIno), ino, chunk);
      if file.nblks >= LN_NBLKS { return false, f', false; }
      ok, looked := true, false;
      if file.nblks < L0_NBLKS {
        PlaceDirect(file, f, file.nblks, ino, chunk);
      } else {
        ok, f', looked := PlaceIndexed(file, f, file.nblks, ino, chunk);
        if !ok { return; }
      }
      file.CountBlock(size, f, ino, chunk);
      SameDirect(Appended(f, ino, chunk), f');
    }

    // ----- writing the image ------------------------------------------------------------------------------------

    /** `write_block`: the data, padded with zeros to a whole block. */
    method WriteBlock(data: seq<byte>, ino: u32)
      requires |data| <= BLKSIZE && ino < ninos
      modifies `disk
      ensures disk == old(disk)[ino := Pad(data)]
    {
      disk := disk[ino := Pad(data)];
    }

    /** All records but `file`'s are the inodes they were, seen from the caches of before. */
    ghost predicate OthersStay(files: map<u32, File>, file: CacheInode, cbs0: map<u32, CacheBlock>)
      reads `obj, set c | c in obj.Values && c != file
    {
      && obj.Keys == files.Keys && Has(file)
      && (forall i {:trigger obj[i]} :: i in obj ==> obj[i].ino == i)
      && (forall i {:trigger obj[i].Models(files[i], cbs0)} ::
            i in obj && i != file.ino ==> obj[i].Models(files[i], cbs0))
    }

    /** What a state was like in which `s` stood for everything. */
    static ghost predicate WasTied(s: Fs, cbs0: map<u32, CacheBlock>, mem0: map<u32, Row>, disk0: map<u32, seq<byte>>) {
      && Inv(s) && cbs0.Keys == mem0.Keys && AllMapped(s.files, mem0) && DiskTied(disk0, s.files)
      && (forall n {:trigger n in mem0} :: n in mem0 ==> OwnedAsIndex(s.owner, n))
      && (forall n {:trigger n in disk0} :: n in disk0 ==> n < s.next)
    }

    /** A record that is not being appended to still points at what it did. */
    lemma FilesAfter(files: map<u32, File>, file: CacheInode, f': File, cbs0: map<u32, CacheBlock>, mem0: map<u32, Row>)
      requires OthersStay(files, file, cbs0) && AllMapped(files, mem0) && cbs0.Keys == mem0.Keys
      requires forall n {:trigger n in cbs0} :: n in cbs0 ==> n in cbs && cbs[n] == cbs0[n]
      requires file.Models(f', cbs)
      ensures FilesTied(files[file.ino := f'])
    {
      forall i | i in obj
        ensures obj[i].ino == i && obj[i].Models(files[file.ino := f'][i], cbs)
      {
        if i != file.ino {
          var g := files[i];
          assert Mapped(g, mem0) && obj[i].Models(g, cbs0);
          assert g.index != [] ==> LastIndex(g) in cbs0;
        }
      }
    }

    /** `sfs_alloc_ino`, `write_block` and `append_block` in a row. */
    method PutBlock(file: CacheInode, data: seq<byte>, ghost f: File) returns (ok: bool, ghost f': File)
      requires Holding(file, f) && file.Counts(f) && Shaped(f) && |data| <= BLKSIZE
      requires ninos <= MAX_NBLKS && forall n: u32 :: n >= nextIno ==> n !in mem
      modifies `nextIno, `unusedBlocks, `blocks, `cbs, `mem, `disk, cbs.Values, file
      ensures ok <==> |f.blocks| < LN_NBLKS && old(nextIno) + 1 + ReserveCount(f) <= ninos
      ensures ok ==>
        f' == Appended(ReservedFile(f, old(nextIno) + 1), old(nextIno), data)
        && nextIno == old(nextIno) + 1 + ReserveCount(f) && disk == old(disk)[old(nextIno) := Pad(data)]
      ensures ok ==> Holding(file, f') && Kept(f', old(mem), mem) && file.Counts(f')
      ensures CbsGrew()
    {
      hide Mapped, Apart, BlockChains, Shaped, Kept, MemTied, ReserveCount, ReservedFile, Appended;
      f' := f;
      var ino;
      ok, ino := AllocIno();
      if !ok { return; }
      WriteBlock(data, ino);
      ghost var looked;
      ok, f', looked := AppendBlock(file, |data|, ino, f, data);
    }

    /** With the new block in its place everything is in order again. */
    lemma Reassembled(file: CacheInode, f': File, data: seq<byte>, s: Fs,
                      cbs0: map<u32, CacheBlock>, mem0: map<u32, Row>, disk0: map<u32, seq<byte>>)
      requires WasTied(s, cbs0, mem0, disk0) && file.ino in s.files && |data| <= BLKSIZE
      requires SfsModel.AddBlock(s, file.ino, data) == Some(abs) && s.ninos == ninos && nextIno == abs.next
      requires s.entry == entryName && s.info == info
      requires f' == Appended(ReservedFile(s.files[file.ino], s.next + 1), s.next, data)
      requires Holding(file, f') && Kept(f', mem0, mem) && file.Counts(f')
      requires OthersStay(s.files, file, cbs0)
      requires forall n {:trigger n in cbs0} :: n in cbs0 ==> n in cbs && cbs[n] == cbs0[n]
      requires disk == disk0[s.next := Pad(data)] && InodeChains(obj, inodes, s.byHost)
      ensures Valid()
    {
      AddBlockInv(s, file.ino, data);
      AddBlockIs(s, file.ino, data);
      AddBlockKeepsOwners(s, file.ino, data);
      FilesAfter(s.files, file, f', cbs0, mem0);
      AllMappedAfter(s, abs, file.ino, mem0, mem);
      DiskAfter(disk0, s, file.ino, f', data);
      forall n | n in mem
        ensures OwnedAsIndex(abs.owner, n)
      {
        if n in mem0 {
          assert n in s.owner;
        } else {
          IndexTaken(abs, file.ino, n);
        }
      }
    }

    /** What `Valid` says of one inode and of all the others. */
    lemma Ready(file: CacheInode)
      requires Valid() && Has(file)
      ensures file.ino in abs.files && abs.ninos == ninos && abs.entry == entryName && abs.info == info
      ensures var f := abs.files[file.ino]; Holding(file, f) && file.Counts(f) && Shaped(f)
      ensures ninos <= MAX_NBLKS && nextIno == abs.next && forall n: u32 :: n >= nextIno ==> n !in mem
      ensures WasTied(abs, cbs, mem, disk) && OthersStay(abs.files, file, cbs) && InodeChains(obj, inodes, abs.byHost)
    {
      var f := abs.files[file.ino];
      assert Mapped(f, mem) && Shaped(f) && obj[file.ino].Models(f, cbs) && Owns(abs.owner, file.ino, f);
      assert 0 in abs.owner && abs.owner[0] == Super;
      OwnsApart(abs.owner, file.ino, f);
    }

    /** Takes a block, writes `data` there and appends it to `file`. */
    method AddBlock(file: CacheInode, data: seq<byte>) returns (ok: bool)
      requires Valid() && Has(file) && |data| <= BLKSIZE
      modifies this, file, cbs.Values
      ensures ok <==> SfsModel.AddBlock(old(abs), file.ino, data).Some?
      ensures ok ==> Valid() && abs == SfsModel.AddBlock(old(abs), file.ino, data).value
      ensures unchanged(`obj) && CbsGrew()
    {
      hide Valid, WasTied, OthersStay, InodeChains, Holding, Shaped, SfsModel.AddBlock, ReserveCount;
      hide ReservedFile, Kept, Appended, Inv, AllMapped, DiskTied, MemTied, BlockChains, Mapped, Owns;
      Ready(file);
      ghost var s, cbs0, mem0, disk0 := abs, cbs, mem, disk;
      AddBlockTotal(s, cbs, mem, disk, file.ino, data);
      if SfsModel.AddBlock(s, file.ino, data).Some? {
        abs := SfsModel.AddBlock(s, file.ino, data).value;
      }
      ghost var f';
      ok, f' := PutBlock(file, data, s.files[file.ino]);
      if ok { Reassembled(file, f', data, s, cbs0, mem0, disk0); }
    }

    static lemma AddBlockTotal(s: Fs, cbs0: map<u32, CacheBlock>, mem0: map<u32, Row>, disk0: map<u32, seq<byte>>,
                               i: u32, data: seq<byte>)
      requires WasTied(s, cbs0, mem0, disk0) && i in s.files
      ensures var f := s.files[i];
        SfsModel.AddBlock(s, i, data).Some? <==> |f.blocks| < LN_NBLKS && s.next + 1 + ReserveCount(f) <= s.ninos
      ensures SfsModel.AddBlock(s, i, data).Some? ==>
        SfsModel.AddBlock(s, i, data).value.next == s.next + 1 + ReserveCount(s.files[i])
    {
      AddBlockIs(s, i, data);
    }

    // ----- inodes and directory entries -------------------------------------------------------------------------

    /** Records stay; others are new objects. */
    twostate predicate ObjGrew()
      reads `obj
    {
      && (forall n {:trigger old(obj[n])} :: n in old(obj) ==> n in obj)
      && (forall n {:trigger obj[n]} :: n in obj ==> if n in old(obj) then obj[n] == old(obj)[n] else fresh(obj[n]))
    }

    lemma RecordOf(file: CacheInode)
      requires Valid() && Has(file)
      ensures file.ino in abs.files && Usable(abs)
    {
    }

    method AllocCacheInode(hino: u64, ino: u32, kind: u16) returns (ok: bool, ci: CacheInode?)
      requires CountersTied(nextIno) && |inodes| == HASH_LIST_SIZE
      modifies `nextIno, `unusedBlocks, `inodes
      ensures ok <==> ino != 0 || old(nextIno) < ninos
      ensures ok ==>
        ci != null && fresh(ci) && ci.hino == hino && ci.ino == (if ino != 0 then ino else old(nextIno))
        && ci.Models(NewFile(kind), cbs)
        && nextIno == old(nextIno) + (if ino != 0 then 0 else 1) && CountersTied(nextIno)
        && inodes == old(inodes)[Hash64(hino) := [ci] + old(inodes)[Hash64(hino)]]
    {
      ok := true;
      var number := ino;
      if ino == 0 {
        ok, number := AllocIno();
        if !ok { return false, null; }
      }
      ci := new CacheInode(hino, number, kind);
      inodes := inodes[Hash64(hino) := [ci] + inodes[Hash64(hino)]];
    }

    method SearchCacheInode(hino: u64) returns (ci: CacheInode?)
      requires Valid()
      ensures ci != null <==> hino in abs.byHost
      ensures ci != null ==> Has(ci) && ci.ino == abs.byHost[hino]
    {
      var chain := inodes[Hash64(hino)];
      assert Finds(inodes, abs.byHost, hino);
      FirstInodeIn(chain, hino);
      while chain != [] && chain[0].hino != hino
        invariant FirstInode(chain, hino) == FirstInode(inodes[Hash64(hino)], hino)
        decreases |chain|
      {
        chain := chain[1..];
      }
      return if chain == [] then null else chain[0];
    }

    /** A new record in memory is a new inode. */
    method NewInode(hino: u64, kind: u16) returns (ok: bool, ci: CacheInode?)
      requires Valid()
      modifies this
      ensures ok <==> SfsModel.NewInode(old(abs), hino, kind).Some?
      ensures ok ==> Valid() && abs == SfsModel.NewInode(old(abs), hino, kind).value
      ensures ok ==> ci != null && ci.ino == old(abs.next) && Has(ci) && fresh(ci)
      ensures ObjGrew() && unchanged(`cbs)
    {
      ghost var s := abs;
      ok, ci := AllocCacheInode(hino, 0, kind);
      if !ok { return; }
      abs := SfsModel.NewInode(s, hino, kind).value;
      ghost var obj0 := obj;
      NextIsNew(s);
      obj := obj[ci.ino := ci];
      Enrolled(ci, s, hino, kind, obj0, old(inodes));
    }

    /** With a record for the new inode, every inode has one. */
    lemma RecordsTied(ci: CacheInode, files: map<u32, File>, kind: u16, obj0: map<u32, CacheInode>)
      requires obj == obj0[ci.ino := ci] && obj0.Keys == files.Keys && ci.Models(NewFile(kind), cbs)
      requires forall i {:trigger obj0[i]} :: i in obj0 ==> obj0[i].ino == i
      requires forall i {:trigger obj0[i].Models(files[i], cbs)} :: i in obj0 ==> obj0[i].Models(files[i], cbs)
      ensures FilesTied(files[ci.ino := NewFile(kind)])
    {
      var files' := files[ci.ino := NewFile(kind)];
      forall i | i in obj
        ensures obj[i].ino == i && obj[i].Models(files'[i], cbs)
      {
        if i != ci.ino { assert obj0[i].Models(files[i], cbs); }
      }
    }

    lemma Enrolled(ci: CacheInode, s: Fs, hino: u64, kind: u16,
                   obj0: map<u32, CacheInode>, inodes0: seq<seq<CacheInode>>)
      requires Inv(s) && SfsModel.NewInode(s, hino, kind) == Some(abs) && ci.ino == s.next && ci.hino == hino
      requires obj == obj0[ci.ino := ci] && obj0.Keys == s.files.Keys && ci.Models(NewFile(kind), cbs)
      requires forall i {:trigger obj0[i]} :: i in obj0 ==> obj0[i].ino == i
      requires forall i {:trigger obj0[i].Models(s.files[i], cbs)} :: i in obj0 ==> obj0[i].Models(s.files[i], cbs)
      requires |inodes0| == HASH_LIST_SIZE && inodes == inodes0[Hash64(hino) := [ci] + inodes0[Hash64(hino)]]
      requires InodeChains(obj0, inodes0, s.byHost) && MemTied() && BlockChains(cbs, blocks)
      requires CountersTied(abs.next) && s.ninos == ninos && s.entry == entryName && s.info == info
      requires AllMapped(s.files, mem) && DiskTied(disk, s.files)
      requires forall n {:trigger n in mem} :: n in mem ==> OwnedAsIndex(s.owner, n)
      requires forall n {:trigger n in disk} :: n in disk ==> n < s.next
      ensures Valid()
    {
      NewInodeInv(s, hino, kind);
      NextIsNew(s);
      NextNotOwned(s);
      hide Inv, MemTied, BlockChains, InodeChains, CountersTied, FilesTied, AllMapped, DiskTied;
      InodeChained(obj0, inodes0, s.byHost, ci);
      RecordsTied(ci, s.files, kind, obj0);
      NewFileMapped(s.files, s.next, kind, mem, disk);
      forall n | n in mem
        ensures OwnedAsIndex(abs.owner, n)
      {
        assert OwnedAsIndex(s.owner, n);
      }
    }

    /** Copies `name` into the static entry. */
    method SetEntry(name: CString)
      requires Valid() && |name| <= MAX_FNAME_LEN
      modifies `entryName, `abs
      ensures Valid() && abs == old(abs).(entry := SetName(old(abs.entry), name))
    {
      entryName := SetName(entryName, name);
      SetEntryInv(abs, entryName);
      abs := abs.(entry := entryName);
    }

    method AddLinkTo(file: CacheInode)
      requires Valid() && Has(file)
      modifies file`nlinks, `abs
      ensures Valid() && abs == SfsModel.AddLinkTo(old(abs), file.ino)
    {
      hide Inv, BlockChains, InodeChains, AllMapped, DiskTied, MemTied;
      ghost var s := abs;
      assert obj[file.ino].Models(s.files[file.ino], cbs);
      file.nlinks := (file.nlinks + 1) % 0x1_0000;
      abs := SfsModel.AddLinkTo(s, file.ino);
      SameDirect(s.files[file.ino], abs.files[file.ino]);
      assert OthersStay(s.files, file, cbs);
      Relinked(file, s);
    }

    lemma Relinked(file: CacheInode, s: Fs)
      requires Inv(s) && file.ino in s.files && abs == SfsModel.AddLinkTo(s, file.ino)
      requires OthersStay(s.files, file, cbs) && file.Models(abs.files[file.ino], cbs)
      requires MemTied() && BlockChains(cbs, blocks) && InodeChains(obj, inodes, s.byHost)
      requires CountersTied(s.next) && s.ninos == ninos && s.entry == entryName && s.info == info
      requires AllMapped(s.files, mem) && DiskTied(disk, s.files)
      requires forall n {:trigger n in mem} :: n in mem ==> OwnedAsIndex(s.owner, n)
      requires forall n {:trigger n in disk} :: n in disk ==> n < s.next
      ensures Valid()
    {
      AddLinkToInv(s, file.ino);
      FilesAfter(s.files, file, abs.files[file.ino], cbs, mem);
      forall i | i in abs.files
        ensures Mapped(abs.files[i], mem) && OnDisk(disk, abs.files[i])
      {
        assert Mapped(s.files[i], mem) && OnDisk(disk, s.files[i]);
        SameMap(s.files[i], abs.files[i], mem, disk);
      }
    }

    /** `add_entry`: one more block of `dir`, naming `file`. */
    method AddEntry(dir: CacheInode, file: CacheInode, name: CString) returns (ok: bool)
      requires Valid() && Has(dir) && Has(file)
      modifies this, obj.Values, cbs.Values
      ensures ok <==> SfsModel.AddEntry(old(abs), dir.ino, file.ino, name).Some?
      ensures ok ==> Valid() && abs == SfsModel.AddEntry(old(abs), dir.ino, file.ino, name).value
      ensures unchanged(`obj) && CbsGrew()
    {
      assert obj[dir.ino].Models(abs.files[dir.ino], cbs);
      if dir.kind != TYPE_DIR || |name| > MAX_FNAME_LEN { return false; }
      SetEntry(name);
      ok := AddBlock(dir, Record(file.ino, entryName));
      if !ok { return; }
      AddLinkTo(file);
    }

    // ----- walking the source tree ------------------------------------------------------------------------------

    /** `open_file`, reading 4096 bytes at a time. */
    method OpenFile(file: CacheInode, data: seq<byte>) returns (ok: bool)
      requires Valid() && Has(file)
      modifies this, file, cbs.Values
      ensures ok <==> SfsModel.OpenFile(old(abs), file.ino, data).Some?
      ensures ok ==> Valid() && abs == SfsModel.OpenFile(old(abs), file.ino, data).value
      ensures unchanged(`obj) && CbsGrew()
    {
      hide Valid;
      var rest, last := data, BLKSIZE;
      RecordOf(file);
      while rest != []
        invariant Valid() && unchanged(`obj) && CbsGrew() && file.ino in abs.files
        invariant SfsModel.OpenFile(old(abs), file.ino, data) == SfsModel.OpenFile(abs, file.ino, rest)
        invariant rest != [] ==> last == BLKSIZE
        decreases |rest|
      {
        assert last == BLKSIZE;
        var ret := FirstChunk(rest);
        ok := AddBlock(file, rest[..ret]);
        if !ok { return; }
        RecordOf(file);
        rest, last := rest[ret..], ret;
      }
      ok := true;
    }

    method OpenLink(file: CacheInode, target: CString) returns (ok: bool)
      requires Valid() && Has(file)
      modifies this, file, cbs.Values
      ensures ok <==> SfsModel.OpenLink(old(abs), file.ino, target).Some?
      ensures ok ==> Valid() && abs == SfsModel.OpenLink(old(abs), file.ino, target).value
      ensures unchanged(`obj) && CbsGrew()
    {
      if |target| >= BLKSIZE { return false; }
      ok := AddBlock(file, target);
    }

    method AddFile(dir: CacheInode, name: CString, hino: u64, data: seq<byte>) returns (ok: bool)
      requires Valid() && Has(dir)
      modifies this, obj.Values, cbs.Values
      ensures ok <==> SfsModel.AddFile(old(abs), dir.ino, name, hino, data).Some?
      ensures ok ==> Valid() && abs == SfsModel.AddFile(old(abs), dir.ino, name, hino, data).value
      ensures ObjGrew() && CbsGrew()
    {
      hide Valid;
      var file := SearchCacheInode(hino);
      if file == null {
        ok, file := NewInode(hino, TYPE_FILE);
        if !ok { return; }
        ok := OpenFile(file, data);
        if !ok { return; }
      }
      ok := AddEntry(dir, file, name);
    }

    method AddLink(dir: CacheInode, name: CString, hino: u64, target: CString) returns (ok: bool)
      requires Valid() && Has(dir)
      modifies this, obj.Values, cbs.Values
      ensures ok <==> SfsModel.AddLink(old(abs), dir.ino, name, hino, target).Some?
      ensures ok ==> Valid() && abs == SfsModel.AddLink(old(abs), dir.ino, name, hino, target).value
      ensures ObjGrew() && CbsGrew()
    {
      hide Valid;
      var file;
      ok, file := NewInode(hino, TYPE_LINK);
      if !ok { return; }
      ok := OpenLink(file, target);
      if !ok { return; }
      ok := AddEntry(dir, file, name);
    }

    method AddDir(parent: CacheInode, name: CString, hino: u64, sub: Listing) returns (ok: bool)
      requires Valid() && Has(parent)
      modifies this, obj.Values, cbs.Values
      ensures ok <==> SfsModel.AddDir(old(abs), parent.ino, name, hino, sub).Some?
      ensures ok ==> Valid() && abs == SfsModel.AddDir(old(abs), parent.ino, name, hino, sub).value
      ensures ObjGrew() && CbsGrew()
      decreases sub, 4
    {
      hide Valid, Usable, SfsModel.NewInode, SfsModel.OpenDir, SfsModel.AddEntry;
      var current := SearchCacheInode(hino);
      if current != null { return false; }
      ok, current := NewInode(hino, TYPE_DIR);
      if !ok { return; }
      ok := OpenDir(current, parent, sub);
      if !ok { return; }
      ok := AddEntry(parent, current, name);
    }

    method OpenDir(current: CacheInode, parent: CacheInode, l: Listing) returns (ok: bool)
      requires Valid() && Has(current) && Has(parent)
      modifies this, obj.Values, cbs.Values
      ensures ok <==> SfsModel.OpenDir(old(abs), current.ino, parent.ino, l).Some?
      ensures ok ==> Valid() && abs == SfsModel.OpenDir(old(abs), current.ino, parent.ino, l).value
      ensures ObjGrew() && CbsGrew()
      decreases l, 3
    {
      hide Valid, Usable, SfsModel.AddEntry, SfsModel.OpenItems;
      RecordOf(current);
      RecordOf(parent);
      ok := AddEntry(current, current, [DOT]);
      if !ok { return; }
      ok := AddEntry(current, parent, [DOT, DOT]);
      if !ok { return; }
      ok := OpenItems(current, l);
    }

    /** `open_dir`'s pass over the directory's entries. */
    method OpenItems(current: CacheInode, l: Listing) returns (ok: bool)
      requires Valid() && Has(current)
      modifies this, obj.Values, cbs.Values
      ensures ok <==> SfsModel.OpenItems(old(abs), current.ino, l).Some?
      ensures ok ==> Valid() && abs == SfsModel.OpenItems(old(abs), current.ino, l).value
      ensures ObjGrew() && CbsGrew()
      decreases l, 2
    {
      hide Valid;
      RecordOf(current);
      var rest := l;
      while !rest.End?
        invariant Valid() && ObjGrew() && CbsGrew() && Has(current) && current.ino in abs.files && Usable(abs)
        invariant SfsModel.OpenItems(old(abs), current.ino, l) == SfsModel.OpenItems(abs, current.ino, rest)
        invariant rest == l || rest < l
        decreases rest
      {
        ok := OpenItem(current, rest);
        if !ok { return; }
        RecordOf(current);
        rest := rest.rest;
      }
      ok := true;
    }

    /** What `open_dir` does with one entry. */
    method OpenItem(current: CacheInode, l: Listing) returns (ok: bool)
      requires Valid() && Has(current) && !l.End?
      modifies this, obj.Values, cbs.Values
      ensures ok <==> SfsModel.OpenItem(old(abs), current.ino, l).Some?
      ensures ok ==> Valid() && abs == SfsModel.OpenItem(old(abs), current.ino, l).value
      ensures ObjGrew() && CbsGrew()
      decreases l, 1
    {
      hide Valid;
      RecordOf(current);
      if Hidden(l.name) { return true; }
      if |l.name| > MAX_FNAME_LEN { return false; }
      match l
      case Symlink(name, hino, target, _) => ok := AddLink(current, name, hino, target);
      case Regular(name, hino, data, _) => ok := AddFile(current, name, hino, data);
      case Directory(name, hino, sub, _) => ok := AddDir(current, name, hino, sub);
      case Special(_, _) => ok := true;
    }

    // ----- flushing everything ----------------------------------------------------------------------------------

    /** Blocks that are right stay right. */
    twostate predicate RightKept()
      reads this
    {
      forall n {:trigger Right(disk, abs, n)} {:trigger old(Right(disk, abs, n))} ::
        old(Right(disk, abs, n)) ==> Right(disk, abs, n)
    }

    /** The freemap bits of the blocks from `i` on, one for each free block. */
    method FreemapBlock(i: nat, ghost k: nat) returns (buffer: seq<byte>)
      requires nextIno <= ninos && i < ninos && i == 32768 * k
      ensures buffer == EncodeWords(FreemapWords(nextIno, ninos, k))
    {
      hide RangeWord;
      var data := new u32[BLK_NENTRY](_ => 0);
      if i + 32768 > nextIno {
        var start, end := 0, 32768;
        if i < nextIno { start := nextIno - i; }
        if i + 32768 > ninos { end := ninos - i; }
        SetBits(data, start, end, i);
        ClipWords(nextIno, ninos, i, i + start, i + end);
      } else {
        EmptyWords(nextIno, ninos, i);
      }
      assert data[..] == FreemapWords(nextIno, ninos, k);
      buffer := EncodeWords(data[..]);
    }

    /** Writes the block that `n`'s owner keeps there. */
    method WriteContent(data: seq<byte>, n: u32)
      requires n in abs.owner && n < ninos && Holdable(abs, abs.owner[n]) && |data| <= BLKSIZE
      requires Pad(data) == Content(abs, abs.owner[n])
      modifies `disk
      ensures RightKept() && Right(disk, abs, n) && disk.Keys <= old(disk.Keys) + abs.owner.Keys
    {
      WriteBlock(data, n);
      forall m | old(Right(disk, abs, m))
        ensures Right(disk, abs, m)
      {
        StillRight(old(disk), abs, n, m);
      }
    }

    lemma FreemapOwned(n: u32)
      requires Inv(abs) && InMemory() && BLKN_FREEMAP <= n < FirstFree(ninos)
      ensures n in abs.owner && abs.owner[n] == Freemap(n - BLKN_FREEMAP) && n < ninos
      ensures nextIno == abs.next && ninos == abs.ninos
    {
      assert abs.owner[n] == FirstOwner(n);
    }

    method WriteFreemap()
      requires InMemory() && Inv(abs)
      modifies `disk
      ensures RightKept() && disk.Keys <= old(disk.Keys) + abs.owner.Keys
      ensures forall n: u32 {:trigger Right(disk, abs, n)} ::
        BLKN_FREEMAP <= n < FirstFree(ninos) ==> Right(disk, abs, n)
    {
      hide Inv, InMemory, FreemapWords;
      var i: nat, ino: u32 := 0, BLKN_FREEMAP;
      while i < ninos
        invariant BLKN_FREEMAP <= ino && i == 32768 * (ino - BLKN_FREEMAP) && i < ninos + 32768
        invariant RightKept() && disk.Keys <= old(disk.Keys) + abs.owner.Keys
        invariant forall n: u32 {:trigger Right(disk, abs, n)} :: BLKN_FREEMAP <= n < ino ==> Right(disk, abs, n)
        decreases ninos + 32768 - i
      {
        FreemapOwned(ino);
        CountersOf();
        var buffer := FreemapBlock(i, ino - BLKN_FREEMAP);
        WriteContent(buffer, ino);
        ino, i := ino + 1, i + 32768;
      }
    }

    lemma CountersOf()
      requires InMemory() && Inv(abs)
      ensures abs.ninos == ninos <= MAX_NBLKS && abs.next == nextIno <= ninos && superBlocks == ninos
      ensures unusedBlocks == ninos - nextIno && abs.info == info && |info| == INFO_SIZE
      ensures 0 in abs.owner && abs.owner[0] == Super && forall n: u32 :: n in abs.owner <==> n < nextIno
    {
    }

    /** A cached index block holds the content of its number. */
    lemma BlockContent(cb: CacheBlock)
      requires InMemory() && Inv(abs) && cb.ino in cbs && cbs[cb.ino] == cb
      ensures cb.ino in abs.owner && Holdable(abs, abs.owner[cb.ino])
      ensures EncodeWords(cb.cache.words) == Content(abs, abs.owner[cb.ino])
    {
      var n := cb.ino;
      assert n in mem;
      HeldIsHoldable(abs, n);
      assert Claimed(abs, n);
      match abs.owner[n]
      case Index(i, j) => assert Mapped(abs.files[i], mem) && abs.files[i].index[j] == n;
      case Double(i) => assert Mapped(abs.files[i], mem);
    }

    method FlushBlock(cb: CacheBlock)
      requires InMemory() && Inv(abs) && cb.ino in cbs && cbs[cb.ino] == cb
      modifies `disk
      ensures RightKept() && Right(disk, abs, cb.ino) && disk.Keys <= old(disk.Keys) + abs.owner.Keys
    {
      hide Inv, InMemory;
      BlockContent(cb);
      CountersOf();
      PadWhole(EncodeWords(cb.cache.words));
      WriteContent(EncodeWords(cb.cache.words), cb.ino);
    }

    /** A record holds the content of its inode's block. */
    lemma InodeContent(ci: CacheInode)
      requires InMemory() && Inv(abs) && Has(ci)
      ensures ci.ino in abs.owner && Holdable(abs, abs.owner[ci.ino]) && |ci.direct| == L0_NBLKS
      ensures Content(abs, abs.owner[ci.ino]) ==
              Pad(EncodeInodeFields(ci.size, ci.kind, ci.nlinks, ci.blocks, ci.direct, ci.indirect, ci.dbIndirect))
    {
      var f := abs.files[ci.ino];
      assert obj[ci.ino].Models(f, cbs) && Owns(abs.owner, ci.ino, f) && Shaped(f);
    }

    method FlushInode(ci: CacheInode)
      requires InMemory() && Inv(abs) && Has(ci)
      modifies `disk
      ensures RightKept() && Right(disk, abs, ci.ino) && disk.Keys <= old(disk.Keys) + abs.owner.Keys
    {
      hide Inv, InMemory;
      InodeContent(ci);
      CountersOf();
      WriteContent(
        EncodeInodeFields(ci.size, ci.kind, ci.nlinks, ci.blocks, ci.direct, ci.indirect, ci.dbIndirect), ci.ino);
    }

    lemma ChainsLead(b: nat)
      requires InMemory() && b < HASH_LIST_SIZE
      ensures |blocks| == |inodes| == HASH_LIST_SIZE
      ensures forall cb {:trigger cb in blocks[b]} :: cb in blocks[b] ==> cb.ino in cbs && cbs[cb.ino] == cb
      ensures forall c {:trigger c in inodes[b]} :: c in inodes[b] ==> Has(c)
    {
    }

    /** Everything that hangs in bucket `b` of either table is on the image. */
    ghost predicate Flushed(b: nat)
      reads this
    {
      BucketRight(disk, abs, blocks, inodes, b)
    }

    static ghost predicate BucketRight(disk: map<u32, seq<byte>>, s: Fs,
                                       blocks: seq<seq<CacheBlock>>, inodes: seq<seq<CacheInode>>, b: nat) {
      && |blocks| == |inodes| == HASH_LIST_SIZE && b < HASH_LIST_SIZE
      && (forall k {:trigger blocks[b][k]} :: 0 <= k < |blocks[b]| ==> Right(disk, s, blocks[b][k].ino))
      && (forall k {:trigger inodes[b][k]} :: 0 <= k < |inodes[b]| ==> Right(disk, s, inodes[b][k].ino))
    }

    static lemma BucketStaysRight(disk: map<u32, seq<byte>>, disk': map<u32, seq<byte>>, s: Fs,
                                  blocks: seq<seq<CacheBlock>>, inodes: seq<seq<CacheInode>>, b: nat)
      requires BucketRight(disk, s, blocks, inodes, b)
      requires forall n {:trigger Right(disk', s, n)} {:trigger Right(disk, s, n)} ::
        Right(disk, s, n) ==> Right(disk', s, n)
      ensures BucketRight(disk', s, blocks, inodes, b)
    {
      hide Right;
    }

    method FlushBucket(b: nat)
      requires InMemory() && Inv(abs) && b < HASH_LIST_SIZE && |blocks| == |inodes| == HASH_LIST_SIZE
      modifies `disk
      ensures RightKept() && disk.Keys <= old(disk.Keys) + abs.owner.Keys
      ensures Flushed(b)
    {
      hide Inv, InMemory, Right;
      ChainsLead(b);
      var k := 0;
      while k < |blocks[b]|
        invariant k <= |blocks[b]| && RightKept() && disk.Keys <= old(disk.Keys) + abs.owner.Keys
        invariant forall m :: 0 <= m < k ==> Right(disk, abs, blocks[b][m].ino)
      {
        assert blocks[b][k] in blocks[b];
        FlushBlock(blocks[b][k]);
        k := k + 1;
      }
      var i := 0;
      while i < |inodes[b]|
        invariant i <= |inodes[b]| && RightKept() && disk.Keys <= old(disk.Keys) + abs.owner.Keys
        invariant forall m :: 0 <= m < |blocks[b]| ==> Right(disk, abs, blocks[b][m].ino)
        invariant forall m :: 0 <= m < i ==> Right(disk, abs, inodes[b][m].ino)
      {
        assert inodes[b][i] in inodes[b];
        FlushInode(inodes[b][i]);
        i := i + 1;
      }
    }

    /** Flushes both hash tables, bucket by bucket. */
    method FlushAll()
      requires InMemory() && Inv(abs)
      modifies `disk
      ensures RightKept() && disk.Keys <= old(disk.Keys) + abs.owner.Keys
      ensures forall b {:trigger Flushed(b)} :: 0 <= b < HASH_LIST_SIZE ==> Flushed(b)
    {
      hide Inv, InMemory, Right;
      ChainsLead(0);
      var b := 0;
      while b < HASH_LIST_SIZE
        invariant b <= HASH_LIST_SIZE && RightKept() && disk.Keys <= old(disk.Keys) + abs.owner.Keys
        invariant forall c {:trigger Flushed(c)} {:trigger BucketRight(disk, abs, blocks, inodes, c)} ::
            0 <= c < b ==> Flushed(c)
      {
        ghost var before := disk;
        FlushBucket(b);
        forall c | 0 <= c < b
          ensures Flushed(c)
        {
          assert BucketRight(before, abs, blocks, inodes, c);
          BucketStaysRight(before, disk, abs, blocks, inodes, c);
        }
        b := b + 1;
      }
    }

    /** Data reached the image when it was appended. */
    lemma DataWritten(n: u32)
      requires Valid() && n in abs.owner && abs.owner[n].Data?
      ensures Right(disk, abs, n)
    {
      assert Claimed(abs, n);
      HeldIsHoldable(abs, n);
      assert OnDisk(disk, abs.files[abs.owner[n].ino]);
    }

    /** Every inode and every index block hangs in some bucket. */
    lemma CachedWritten(n: u32)
      requires InMemory() && Inv(abs) && n in abs.owner && (abs.owner[n].Inode? || OwnedAsIndex(abs.owner, n))
      requires forall b {:trigger Flushed(b)} :: 0 <= b < HASH_LIST_SIZE ==> Flushed(b)
      ensures Right(disk, abs, n)
    {
      assert Claimed(abs, n);
      if abs.owner[n].Inode? {
        assert Chained(obj, inodes, n);
        assert Flushed(Hash64(obj[n].hino));
      } else {
        var f := abs.files[abs.owner[n].ino];
        assert Mapped(f, mem) && n in mem;
        assert cbs[n] in blocks[0] && Flushed(0);
      }
    }

    lemma SuperContent()
      requires InMemory() && Inv(abs)
      ensures 0 in abs.owner && abs.owner[0] == Super && Holdable(abs, Super) && |info| == INFO_SIZE && 0 < ninos
      ensures Pad(EncodeSuper(superBlocks, unusedBlocks, info)) == Content(abs, Super)
    {
      CountersOf();
    }

    /** Between them the parts of `close_sfs` cover every kind of owner. */
    lemma AllWritten(n: u32)
      requires InMemory() && Inv(abs) && n in abs.owner && Right(disk, abs, 0)
      requires forall m: u32 {:trigger Right(disk, abs, m)} ::
        BLKN_FREEMAP <= m < FirstFree(ninos) ==> Right(disk, abs, m)
      requires forall b {:trigger Flushed(b)} :: 0 <= b < HASH_LIST_SIZE ==> Flushed(b)
      requires abs.owner[n].Data? ==> Right(disk, abs, n)
      ensures Right(disk, abs, n) && n in disk
    {
      hide InMemory, Flushed, Content;
      CountersOf();
      assert Claimed(abs, n);
      match abs.owner[n]
      case Super =>
      case Freemap(_) => assert Right(disk, abs, n);
      case Inode(_) => CachedWritten(n);
      case Index(_, _) => CachedWritten(n);
      case Double(_) => CachedWritten(n);
      case Data(_, _) =>
    }

    /** `close_sfs`: the freemap, the superblock, then all that was only in memory. */
    method CloseSfs()
      requires Valid()
      modifies `disk
      ensures IsImage(disk, abs)
    {
      hide Inv, InMemory, Right, Content;
      forall n | n in abs.owner && abs.owner[n].Data?
        ensures Right(disk, abs, n)
      {
        DataWritten(n);
      }
      WriteFreemap();
      SuperContent();
      WriteContent(EncodeSuper(superBlocks, unusedBlocks, info), 0);
      FlushAll();
      CountersOf();
      forall n | n in abs.owner
        ensures Right(disk, abs, n) && n in disk
      {
        AllWritten(n);
      }
    }

    // ----- the whole program ------------------------------------------------------------------------------------

    static function NoInodes(): (t: seq<seq<CacheInode>>)
      ensures |t| == HASH_LIST_SIZE
    {
      seq(HASH_LIST_SIZE, _ => [])
    }

    static function NoBlocks(): (t: seq<seq<CacheBlock>>)
      ensures |t| == HASH_LIST_SIZE
    {
      seq(HASH_LIST_SIZE, _ => [])
    }

    /** Empty tables and counters that leave out the superblock, the root and the freemap. */
    constructor Empty(ninos: u32, info: seq<byte>)
      requires FirstFree(ninos) < ninos <= MAX_NBLKS
      ensures this.ninos == superBlocks == ninos && this.info == info && nextIno == FirstFree(ninos)
      ensures CountersTied(nextIno) && disk == map[] && entryName == Zeros(NAME_SIZE)
      ensures inodes == NoInodes() && blocks == NoBlocks() && cbs == map[] && mem == map[]
    {
      this.ninos, superBlocks, this.info := ninos, ninos, info;
      nextIno, unusedBlocks := FirstFree(ninos), ninos - FirstFree(ninos);
      inodes, blocks := NoInodes(), NoBlocks();
      entryName, disk, root, cbs, mem := Zeros(NAME_SIZE), map[], null, map[], map[];
    }

    /** `create_sfs` for a file of `size` bytes; `info` is the superblock's label. */
    static method CreateSfs(size: nat, info: seq<byte>) returns (ok: bool, sfs: Sfs?)
      requires |info| == INFO_SIZE
      ensures ok <==> FirstFree(ImageBlocks(size)) < ImageBlocks(size)
      ensures ok ==>
        sfs != null && fresh(sfs) && sfs.Valid() && sfs.abs == Create(ImageBlocks(size), info)
        && sfs.root != null && sfs.Has(sfs.root) && sfs.root.ino == BLKN_ROOT && sfs.disk == map[]
        && fresh(sfs.obj.Values) && fresh(sfs.cbs.Values)
    {
      hide Sfs.Valid, FirstFree, Create, Hash64, NoInodes, NoBlocks, CacheInode.Models;
      var ninos := ImageBlocks(size);
      if FirstFree(ninos) >= ninos { return false, null; }
      sfs := new Sfs.Empty(ninos, info);
      var root;
      ok, root := sfs.AllocCacheInode(0, BLKN_ROOT, TYPE_DIR);
      sfs.root := root;
      sfs.obj := map[BLKN_ROOT := root];
      sfs.abs := Create(ninos, info);
      sfs.Started(root);
    }

    lemma Started(root: CacheInode)
      requires FirstFree(ninos) < ninos <= MAX_NBLKS && |info| == INFO_SIZE && abs == Create(ninos, info)
      requires obj == map[BLKN_ROOT := root] && cbs == map[] && mem == map[] && disk == map[]
      requires root.ino == BLKN_ROOT && root.hino == 0 && root.Models(NewFile(TYPE_DIR), map[])
      requires CountersTied(FirstFree(ninos)) && entryName == Zeros(NAME_SIZE)
      requires blocks == NoBlocks() && inodes == NoInodes()[Hash64(0) := [root] + NoInodes()[Hash64(0)]]
      ensures Valid()
    {
      CreateInv(ninos, info);
      assert InodeChains(map[], NoInodes(), map[]);
      InodeChained(map[], NoInodes(), map[], root);
      assert abs.byHost == map[][root.hino := root.ino];
    }

    /**
     * The whole run: it succeeds exactly when the model's does, and then leaves the model's image, which shows the
     * source tree.
     */
    static method CreateImg(size: nat, info: seq<byte>, l: Listing)
      returns (ok: bool, disk: map<u32, seq<byte>>)
      requires |info| == INFO_SIZE
      ensures ok <==> Build(size, info, l).Some?
      ensures ok ==> IsImage(disk, Build(size, info, l).value)
      ensures ok ==> LaidDir(DiskNodes(disk), 1, 1, l, RootMet, Walk(l, AtFirst).0).Some?
      ensures ok ==> (ShowsDir(DiskNodes(disk), 1, 1, l) <==> Walk(l, AtFirst).0)
    {
      hide Sfs.Valid, IsImage, ShowsDir, LaidDir, Walk, DiskNodes;
      disk := map[];
      var sfs;
      ok, sfs := CreateSfs(size, info);
      if !ok { return; }
      ok := sfs.OpenDir(sfs.root, sfs.root, l);
      if !ok { return; }
      sfs.CloseSfs();
      disk := sfs.disk;
      ImageLaid(disk, size, info, l);
      ImageShowsIff(disk, size, info, l);
    }
  }

  /** Sets the bits from `start` up to `end`; position 0 stands for block `base`. */
  method SetBits(data: array<u32>, start: nat, end: nat, ghost base: nat)
    requires data.Length == BLK_NENTRY && start <= end <= 32768 && forall w :: 0 <= w < BLK_NENTRY ==> data[w] == 0
    modifies data
    ensures forall w :: 0 <= w < BLK_NENTRY ==> data[w] == RangeWord(base + start, base + end, base + 32 * w)
  {
    hide RangeWord;
    var j := start;
    forall w: nat | w < BLK_NENTRY
      ensures RangeWord(base + start, base + start, base + 32 * w) == 0
    {
      EmptyWord(base + start, base + start, base + 32 * w);
    }
    while j < end
      invariant start <= j <= end
      invariant forall w :: 0 <= w < BLK_NENTRY ==> data[w] == RangeWord(base + start, base + j, base + 32 * w)
    {
      forall w: nat | w < BLK_NENTRY
        ensures RangeWord(base + start, base + j + 1, base + 32 * w) ==
                if w == j / 32 then SetBit(RangeWord(base + start, base + j, base + 32 * w), j % 32)
                else RangeWord(base + start, base + j, base + 32 * w)
      {
        ExtendWord(base + start, base + j, base + 32 * w);
      }
      data[j / 32] := SetBit(data[j / 32], j % 32);
      j := j + 1;
    }
  }

  lemma ClipWords(lo: nat, hi: nat, base: nat, lo': nat, hi': nat)
    requires lo' == (if lo < base then base else lo) && hi' == if hi > base + 32768 then base + 32768 else hi
    ensures forall w: nat :: w < BLK_NENTRY ==> RangeWord(lo', hi', base + 32 * w) == RangeWord(lo, hi, base + 32 * w)
  {
    hide RangeWord;
    forall w: nat | w < BLK_NENTRY
      ensures RangeWord(lo', hi', base + 32 * w) == RangeWord(lo, hi, base + 32 * w)
    {
      ClipWord(lo, hi, base, base + 32768, base + 32 * w);
    }
  }

  lemma EmptyWords(lo: nat, hi: nat, base: nat)
    requires base + 32768 <= lo
    ensures forall w: nat :: w < BLK_NENTRY ==> RangeWord(lo, hi, base + 32 * w) == 0
  {
    hide RangeWord;
    forall w: nat | w < BLK_NENTRY
      ensures RangeWord(lo, hi, base + 32 * w) == 0
    {
      EmptyWord(lo, hi, base + 32 * w);
    }
  }

  lemma PadWhole(data: seq<byte>)
    requires |data| == BLKSIZE
    ensures Pad(data) == data
  {
  }

  /** The link count has no part in the block map. */
  lemma SameMap(f: File, g: File, mem: map<u32, Row>, disk: map<u32, seq<byte>>)
    requires Mapped(f, mem) && OnDisk(disk, f) && g == f.(links := g.links)
    ensures Mapped(g, mem) && OnDisk(disk, g)
  {
    forall j
      ensures IndexRow(f, j) == IndexRow(g, j)
    {
      assert forall t :: IndexWord(f, j, t) == IndexWord(g, j, t);
    }
    assert DoubleRow(f) == DoubleRow(g);
    assert forall j {:trigger g.index[j]} :: 0 <= j < |g.index| ==> g.index[j] == f.index[j];
    forall k | 0 <= k < |g.blocks|
      ensures |g.chunks[k]| <= BLKSIZE && g.blocks[k] in disk && disk[g.blocks[k]] == Pad(g.chunks[k])
    {
      assert g.blocks[k] == f.blocks[k];
    }
  }

  lemma OldBlocks(s: Fs, k: u32)
    requires Inv(s) && k in s.files
    ensures forall j {:trigger s.files[k].blocks[j]} :: 0 <= j < |s.files[k].blocks| ==> s.files[k].blocks[j] < s.next
  {
    assert Owns(s.owner, k, s.files[k]);
  }

  lemma NextNotOwned(s: Fs)
    requires Inv(s)
    ensures s.next !in s.owner
  {
  }

  /** A new inode has no blocks, so that its map and its part of the image are in order. */
  lemma NewFileMapped(files: map<u32, File>, i: u32, kind: u16, mem: map<u32, Row>, disk: map<u32, seq<byte>>)
    requires AllMapped(files, mem) && Sfs.DiskTied(disk, files)
    ensures AllMapped(files[i := NewFile(kind)], mem) && Sfs.DiskTied(disk, files[i := NewFile(kind)])
  {
    var files' := files[i := NewFile(kind)];
    forall k | k in files'
      ensures Mapped(files'[k], mem) && OnDisk(disk, files'[k])
    {
      if k != i { assert Mapped(files[k], mem) && OnDisk(disk, files[k]); }
    }
  }

  lemma OnDiskElsewhere(disk: map<u32, seq<byte>>, f: File, b: u32, data: seq<byte>)
    requires OnDisk(disk, f) && forall j {:trigger f.blocks[j]} :: 0 <= j < |f.blocks| ==> f.blocks[j] != b
    ensures OnDisk(disk[b := data], f)
  {
  }

  lemma OnDiskAppended(disk: map<u32, seq<byte>>, f: File, f': File, b: u32, chunk: seq<byte>)
    requires OnDisk(disk, f) && forall j {:trigger f.blocks[j]} :: 0 <= j < |f.blocks| ==> f.blocks[j] != b
    requires |chunk| <= BLKSIZE && f'.blocks == f.blocks + [b] && f'.chunks == f.chunks + [chunk]
    ensures OnDisk(disk[b := Pad(chunk)], f')
  {
    var disk' := disk[b := Pad(chunk)];
    forall j | 0 <= j < |f'.blocks|
      ensures |f'.chunks[j]| <= BLKSIZE && f'.blocks[j] in disk' && disk'[f'.blocks[j]] == Pad(f'.chunks[j])
    {
      if j < |f.blocks| { assert f'.blocks[j] == f.blocks[j] && f'.chunks[j] == f.chunks[j]; }
    }
  }

  /** A new block at the end of one file does not disturb the others. */
  lemma DiskAfter(disk: map<u32, seq<byte>>, s: Fs, i: u32, f': File, chunk: seq<byte>)
    requires Inv(s) && i in s.files && Sfs.DiskTied(disk, s.files) && |chunk| <= BLKSIZE
    requires f'.blocks == s.files[i].blocks + [s.next] && f'.chunks == s.files[i].chunks + [chunk]
    ensures Sfs.DiskTied(disk[s.next := Pad(chunk)], s.files[i := f'])
  {
    hide Inv, OnDisk;
    var disk' := disk[s.next := Pad(chunk)];
    var files' := s.files[i := f'];
    forall k | k in files'
      ensures OnDisk(disk', files'[k])
    {
      assert OnDisk(disk, s.files[k]);
      OldBlocks(s, k);
      if k == i {
        OnDiskAppended(disk, s.files[i], f', s.next, chunk);
      } else {
        OnDiskElsewhere(disk, s.files[k], s.next, Pad(chunk));
      }
    }
  }
}
