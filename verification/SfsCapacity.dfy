/** When the builder gives up: the exact number of blocks a source tree takes, and the limits it must keep. */
module SfsCapacity {
  import opened Bytes
  import opened Options
  import opened SfsModel
  import opened SfsOwnership
  import opened SfsBlockMap
  import opened SfsImage
  import opened SfsReadback
  import opened SfsTree

  /**
   * The blocks that `n` blocks of content take, with their index blocks: 12 need none, 1024 more need one, and beyond
   * these there is one for every 1024, and one that has their numbers.
   */
  function Blocks(n: nat): nat {
    if n <= 12 then n else if n <= 1036 then n + 1 else n + (n - 12 + 1023) / 1024 + 1
  }

  function Chunks(size: nat): nat {
    (size + 4095) / 4096
  }

  /**
   * What (part of) a source tree asks for: whether it keeps the limits, how many blocks it takes, and the host inodes
   * known after it.
   */
  datatype Need = Need(ok: bool, blocks: nat, seen: set<u64>)

  /** A directory: its entries with their index blocks, and what they lead to. */
  function DirNeed(l: Listing, seen: set<u64>): Need
    decreases l, 2
  {
    var items := ItemsNeed(l, seen);
    var n := 2 + ListedCount(l);
    Need(items.ok && n <= 32768, Blocks(n) + items.blocks, items.seen)
  }

  function ItemsNeed(l: Listing, seen: set<u64>): Need
    decreases l, 1
  {
    if l.End? then Need(true, 0, seen)
    else
      var first := ItemNeed(l, seen);
      var rest := ItemsNeed(l.rest, first.seen);
      Need(first.ok && rest.ok, first.blocks + rest.blocks, rest.seen)
  }

  /** One entry's inode and contents; a further link to a known file takes neither. */
  function ItemNeed(l: Listing, seen: set<u64>): Need
    requires !l.End?
    decreases l, 0
  {
    if |l.name| > 0 && l.name[0] == 46 then Need(true, 0, seen)
    else if |l.name| > 255 then Need(false, 0, seen)
    else match l
      case Symlink(_, hino, target, _) => Need(|target| < 4096, 2, seen + {hino})
      case Regular(_, hino, data, _) =>
        var n := Chunks(|data|);
        if hino in seen then Need(true, 0, seen) else Need(n <= 32768, 1 + Blocks(n), seen + {hino})
      case Directory(_, hino, sub, _) =>
        var d := DirNeed(sub, seen + {hino});
        Need(hino !in seen && d.ok, 1 + d.blocks, d.seen)
      case Special(_, _) => Need(true, 0, seen)
  }

  // ----- blocks and files ---------------------------------------------------------------------------------------

  lemma BlocksGrow(f: File)
    requires Shaped(f)
    ensures Blocks(|f.blocks| + 1) == Blocks(|f.blocks|) + 1 + ReserveCount(f)
  {
    NeedsIndexIff(f);
  }

  lemma {:induction false} BlocksMonotone(m: nat, n: nat)
    requires m <= n
    ensures Blocks(m) + (n - m) <= Blocks(n)
  {
  }

  /** Appending a block takes what `Blocks` says, or fails. */
  lemma AddBlockNeeds(s: Fs, i: u32, chunk: seq<byte>)
    requires Inv(s) && i in s.files && |chunk| <= BLKSIZE
    ensures var n, r := |s.files[i].blocks|, AddBlock(s, i, chunk);
      r.Some? <==> n < LN_NBLKS && s.next + Blocks(n + 1) <= s.ninos + Blocks(n)
    ensures var n, r := |s.files[i].blocks|, AddBlock(s, i, chunk); r.Some? ==>
      && Inv(r.value) && i in r.value.files && |r.value.files[i].blocks| == n + 1
      && r.value.next + Blocks(n) == s.next + Blocks(n + 1)
      && r.value.ninos == s.ninos && r.value.byHost == s.byHost
  {
    assert Shaped(s.files[i]);
    BlocksGrow(s.files[i]);
    AddBlockIs(s, i, chunk);
    if AddBlock(s, i, chunk).Some? { AddBlockInv(s, i, chunk); }
  }

  /** `open_file` in terms of the number of blocks that the bytes fill. */
  lemma {:induction false} OpenFileNeeds(s: Fs, i: u32, data: seq<byte>)
    requires Inv(s) && i in s.files
    ensures var n, m, r := |s.files[i].blocks|, Chunks(|data|), OpenFile(s, i, data);
      r.Some? <==> n + m <= LN_NBLKS && s.next + Blocks(n + m) <= s.ninos + Blocks(n)
    ensures var n, m, r := |s.files[i].blocks|, Chunks(|data|), OpenFile(s, i, data); r.Some? ==>
      r.value.next + Blocks(n) == s.next + Blocks(n + m) && r.value.ninos == s.ninos && r.value.byHost == s.byHost
    decreases |data|
  {
    hide Inv, AddBlock, Blocks;
    if data == [] {
      Room(s, i);
    } else {
      var n := FirstChunk(data);
      AddBlockNeeds(s, i, data[..n]);
      ChunksStep(|data|);
      BlocksMonotone(|s.files[i].blocks| + 1, |s.files[i].blocks| + Chunks(|data|));
      if AddBlock(s, i, data[..n]).Some? { OpenFileNeeds(AddBlock(s, i, data[..n]).value, i, data[n..]); }
    }
  }

  lemma Room(s: Fs, i: u32)
    requires Inv(s) && i in s.files
    ensures s.next <= s.ninos && |s.files[i].blocks| <= LN_NBLKS
  {
    assert Shaped(s.files[i]);
  }

  lemma ChunksStep(size: nat)
    requires size > 0
    ensures Chunks(size) == 1 + Chunks(if size < BLKSIZE then 0 else size - BLKSIZE)
  {
  }

  // ----- room ---------------------------------------------------------------------------------------------------

  /** `s` became `s'` for `blocks` blocks of content, of which one more entry in `dir` if `entries` is 1. */
  ghost predicate Took(s: Fs, s': Fs, dir: u32, entries: nat, blocks: nat)
    requires dir in s.files
  {
    && dir in s'.files && |s'.files[dir].blocks| == |s.files[dir].blocks| + entries
    && s'.ninos == s.ninos
    && s'.next + Blocks(|s.files[dir].blocks|) == s.next + blocks + Blocks(|s.files[dir].blocks| + entries)
  }

  /** There is room for `entries` more entries in `dir` and `blocks` blocks besides. */
  predicate Fits(s: Fs, dir: u32, entries: nat, blocks: nat)
    requires dir in s.files
  {
    var k := |s.files[dir].blocks|;
    k + entries <= LN_NBLKS && s.next + blocks + Blocks(k + entries) <= s.ninos + Blocks(k)
  }

  /** Room for two steps is room for the first, and then for the second. */
  lemma FitsBoth(s: Fs, dir: u32, e1: nat, b1: nat, e2: nat, b2: nat)
    requires dir in s.files
    ensures Fits(s, dir, e1 + e2, b1 + b2) ==> Fits(s, dir, e1, b1)
  {
    BlocksMonotone(|s.files[dir].blocks| + e1, |s.files[dir].blocks| + e1 + e2);
  }

  lemma TookBoth(s: Fs, s1: Fs, dir: u32, e1: nat, b1: nat, e2: nat, b2: nat)
    requires dir in s.files && Took(s, s1, dir, e1, b1)
    ensures Fits(s, dir, e1 + e2, b1 + b2) <==> Fits(s1, dir, e2, b2)
  {
    hide Blocks;
  }

  lemma TookThen(s: Fs, s1: Fs, s2: Fs, dir: u32, e1: nat, b1: nat, e2: nat, b2: nat)
    requires dir in s.files && dir in s1.files && Took(s, s1, dir, e1, b1) && Took(s1, s2, dir, e2, b2)
    ensures Took(s, s2, dir, e1 + e2, b1 + b2)
  {
    hide Blocks;
  }

  lemma NothingFits(s: Fs, dir: u32)
    requires Inv(s) && dir in s.files
    ensures Fits(s, dir, 0, 0) && Took(s, s, dir, 0, 0)
  {
    Room(s, dir);
  }

  lemma EntryNeeds(s: Fs, dir: u32, i: u32, name: CString)
    requires Inv(s) && IsDir(s, dir) && i in s.files
    ensures AddEntry(s, dir, i, name).Some? <==> |name| <= MAX_FNAME_LEN && Fits(s, dir, 1, 0)
    ensures AddEntry(s, dir, i, name).Some? ==> var s' := AddEntry(s, dir, i, name).value;
      Took(s, s', dir, 1, 0) && s'.byHost == s.byHost
  {
    if |name| <= MAX_FNAME_LEN {
      var e := SetName(s.entry, name);
      SetEntryInv(s, e);
      AddBlockNeeds(s.(entry := e), dir, Record(i, e));
    }
  }

  lemma NewInodeNeeds(s: Fs, hino: u64, kind: u16)
    requires Inv(s)
    ensures NewInode(s, hino, kind).Some? <==> s.next + 1 <= s.ninos
    ensures NewInode(s, hino, kind).Some? ==> var s' := NewInode(s, hino, kind).value;
      && Inv(s') && s.next !in s.files && s'.files == s.files[s.next := NewFile(kind)]
      && s'.next == s.next + 1 && s'.ninos == s.ninos && s'.byHost == s.byHost[hino := s.next]
  {
    NextIsNew(s);
    if s.next < s.ninos { NewInodeInv(s, hino, kind); }
  }

  lemma LinkNeeds(s: Fs, dir: u32, name: CString, hino: u64, target: CString)
    requires Inv(s) && IsDir(s, dir) && |name| <= MAX_FNAME_LEN
    ensures var r := AddLink(s, dir, name, hino, target);
      r.Some? <==> |target| < BLKSIZE && Fits(s, dir, 1, 2)
    ensures var r := AddLink(s, dir, name, hino, target);
      r.Some? ==> Took(s, r.value, dir, 1, 2) && r.value.byHost.Keys == s.byHost.Keys + {hino}
  {
    hide Inv, AddBlock, AddEntry, Blocks;
    NewInodeNeeds(s, hino, TYPE_LINK);
    var k := |s.files[dir].blocks|;
    BlocksMonotone(k, k + 1);
    if NewInode(s, hino, TYPE_LINK).Some? && |target| < BLKSIZE {
      var s1 := NewInode(s, hino, TYPE_LINK).value;
      AddBlockNeeds(s1, s.next, target);
      FirstBlocks();
      if AddBlock(s1, s.next, target).Some? {
        AddBlockChanges(s1, s.next, target);
        EntryNeeds(AddBlock(s1, s.next, target).value, dir, s.next, name);
      }
    }
  }

  lemma FirstBlocks()
    ensures Blocks(0) == 0 && Blocks(1) == 1
  {
  }

  lemma FileNeeds(s: Fs, dir: u32, name: CString, hino: u64, data: seq<byte>)
    requires Inv(s) && IsDir(s, dir) && |name| <= MAX_FNAME_LEN
    ensures var n, r := Chunks(|data|), AddFile(s, dir, name, hino, data);
      r.Some? <==>
      if hino in s.byHost then Fits(s, dir, 1, 0) else n <= LN_NBLKS && Fits(s, dir, 1, 1 + Blocks(n))
    ensures var n, r := Chunks(|data|), AddFile(s, dir, name, hino, data);
      r.Some? ==>
        && r.value.byHost.Keys == s.byHost.Keys + {hino}
        && Took(s, r.value, dir, 1, if hino in s.byHost then 0 else 1 + Blocks(n))
  {
    hide Inv, AddBlock, AddEntry, Blocks, OpenFile;
    if hino in s.byHost {
      KnownInode(s, hino);
      EntryNeeds(s, dir, s.byHost[hino], name);
    } else {
      NewInodeNeeds(s, hino, TYPE_FILE);
      var k := |s.files[dir].blocks|;
      BlocksMonotone(k, k + 1);
      if NewInode(s, hino, TYPE_FILE).Some? {
        var s1 := NewInode(s, hino, TYPE_FILE).value;
        OpenFileNeeds(s1, s.next, data);
        FirstBlocks();
        if OpenFile(s1, s.next, data).Some? {
          OpenFileFills(s1, s.next, data);
          EntryNeeds(OpenFile(s1, s.next, data).value, dir, s.next, name);
        }
      }
    }
  }

  lemma KnownInode(s: Fs, hino: u64)
    requires Inv(s) && hino in s.byHost
    ensures s.byHost[hino] in s.files
  {
  }

  lemma SameLengths(s: Fs, i: u32)
    requires Inv(s) && i in s.files
    ensures |s.files[i].chunks| == |s.files[i].blocks| <= LN_NBLKS
  {
    assert Shaped(s.files[i]);
  }

  // ----- what the walk leaves alone -----------------------------------------------------------------------------

  /** Inodes keep their kind, and those not in `moving` their contents. */
  ghost predicate Same(s: Fs, s': Fs, moving: set<u32>) {
    forall i {:trigger s.files[i]} {:trigger s'.files[i]} :: i in s.files ==>
      && i in s'.files && s'.files[i].kind == s.files[i].kind
      && (i !in moving ==> s'.files[i].chunks == s.files[i].chunks)
  }

  lemma SameTwice(s: Fs, s1: Fs, s2: Fs, m1: set<u32>, m2: set<u32>, m: set<u32>)
    requires Same(s, s1, m1) && Same(s1, s2, m2) && forall i :: i in s.files && i in m1 + m2 ==> i in m
    ensures Same(s, s2, m)
  {
  }

  lemma EntrySame(s: Fs, dir: u32, i: u32, name: CString)
    requires Inv(s) && dir in s.files && i in s.files && AddEntry(s, dir, i, name).Some?
    ensures Inv(AddEntry(s, dir, i, name).value) && Same(s, AddEntry(s, dir, i, name).value, {dir})
  {
    hide Inv;
    AddEntryEnters(s, dir, i, name);
  }

  lemma LinkSame(s: Fs, dir: u32, name: CString, hino: u64, target: CString)
    requires Inv(s) && dir in s.files && AddLink(s, dir, name, hino, target).Some?
    ensures Same(s, AddLink(s, dir, name, hino, target).value, {dir})
  {
    hide Inv, AddBlock, AddEntry;
    NewInodeNeeds(s, hino, TYPE_LINK);
    var s1 := NewInode(s, hino, TYPE_LINK).value;
    AddBlockChanges(s1, s.next, target);
    var s2 := AddBlock(s1, s.next, target).value;
    EntrySame(s2, dir, s.next, name);
    SameTwice(s, s2, AddEntry(s2, dir, s.next, name).value, {}, {dir}, {dir});
  }

  lemma FileSame(s: Fs, dir: u32, name: CString, hino: u64, data: seq<byte>)
    requires Inv(s) && dir in s.files && AddFile(s, dir, name, hino, data).Some?
    ensures Same(s, AddFile(s, dir, name, hino, data).value, {dir})
  {
    hide Owned, Shaped, OpenFile, AddEntry;
    if hino in s.byHost {
      KnownInode(s, hino);
      EntrySame(s, dir, s.byHost[hino], name);
    } else {
      NewInodeNeeds(s, hino, TYPE_FILE);
      var s1 := NewInode(s, hino, TYPE_FILE).value;
      OpenFileFills(s1, s.next, data);
      var s2 := OpenFile(s1, s.next, data).value;
      EntrySame(s2, dir, s.next, name);
      SameTwice(s, s2, AddEntry(s2, dir, s.next, name).value, {}, {dir}, {dir});
    }
  }

  /** Filling a directory adds to no other inode that was there before. */
  lemma {:induction false} OpenDirSame(s: Fs, dir: u32, parent: u32, l: Listing)
    requires Inv(s) && dir in s.files && parent in s.files && OpenDir(s, dir, parent, l).Some?
    ensures Inv(OpenDir(s, dir, parent, l).value) && Same(s, OpenDir(s, dir, parent, l).value, {dir})
    decreases l, 2
  {
    hide Owned, Shaped, AddEntry, Same, OpenItems;
    EntrySame(s, dir, dir, [DOT]);
    var s1 := AddEntry(s, dir, dir, [DOT]).value;
    EntrySame(s1, dir, parent, [DOT, DOT]);
    var s2 := AddEntry(s1, dir, parent, [DOT, DOT]).value;
    OpenItemsSame(s2, dir, l);
    SameTwice(s, s1, s2, {dir}, {dir}, {dir});
    SameTwice(s, s2, OpenItems(s2, dir, l).value, {dir}, {dir}, {dir});
  }

  lemma {:induction false} OpenItemsSame(s: Fs, dir: u32, l: Listing)
    requires Inv(s) && dir in s.files && OpenItems(s, dir, l).Some?
    ensures Inv(OpenItems(s, dir, l).value) && Same(s, OpenItems(s, dir, l).value, {dir})
    decreases l, 1
  {
    hide Owned, Shaped, OpenItem;
    if !l.End? {
      OpenItemSame(s, dir, l);
      var s1 := OpenItem(s, dir, l).value;
      OpenItemsSame(s1, dir, l.rest);
      SameTwice(s, s1, OpenItems(s1, dir, l.rest).value, {dir}, {dir}, {dir});
    }
  }

  lemma {:induction false} OpenItemSame(s: Fs, dir: u32, l: Listing)
    requires Inv(s) && dir in s.files && !l.End? && OpenItem(s, dir, l).Some?
    ensures Inv(OpenItem(s, dir, l).value) && Same(s, OpenItem(s, dir, l).value, {dir})
    decreases l, 0
  {
    hide Owned, Shaped, AddEntry, AddFile, AddLink, NewInode, OpenDir;
    OpenItemInv(s, dir, l);
    if !Hidden(l.name) {
      match l
      case Symlink(name, hino, target, _) => LinkSame(s, dir, name, hino, target);
      case Regular(name, hino, data, _) => FileSame(s, dir, name, hino, data);
      case Directory(name, hino, sub, _) =>
        NewInodeNeeds(s, hino, TYPE_DIR);
        var s1 := NewInode(s, hino, TYPE_DIR).value;
        OpenDirSame(s1, s.next, dir, sub);
        var s2 := OpenDir(s1, s.next, dir, sub).value;
        EntrySame(s2, dir, s.next, name);
        SameTwice(s, s1, s2, {}, {s.next}, {});
        SameTwice(s, s2, AddEntry(s2, dir, s.next, name).value, {}, {dir}, {dir});
      case Special(_, _) =>
    }
  }

  // ----- the walk -----------------------------------------------------------------------------------------------

  /** A directory is entered and filled exactly if it keeps the limits and there is room for all it needs. */
  lemma {:induction false} DirNeeds(s: Fs, dir: u32, parent: u32, l: Listing)
    requires Inv(s) && IsDir(s, dir) && IsDir(s, parent) && s.files[dir].chunks == []
    ensures var r, need := OpenDir(s, dir, parent, l), DirNeed(l, s.byHost.Keys);
      r.Some? <==> need.ok && s.next + need.blocks <= s.ninos
    ensures var r, need := OpenDir(s, dir, parent, l), DirNeed(l, s.byHost.Keys); r.Some? ==>
      r.value.next == s.next + need.blocks && r.value.ninos == s.ninos && r.value.byHost.Keys == need.seen
    decreases l, 2
  {
    hide Owned, Shaped, Usable, Blocks, AddEntry, OpenItems, Fits, Took, Same;
    var dot, dots: CString := [DOT], [DOT, DOT];
    var n, items := ListedCount(l), ItemsNeed(l, s.byHost.Keys);
    FreshDir(s, dir, 2 + n, items.blocks);
    FitsBoth(s, dir, 2, 0, n, items.blocks);
    DotsNeed(s, dir, parent, dot, dots);
    if AddEntry(s, dir, dir, dot).Some? && AddEntry(AddEntry(s, dir, dir, dot).value, dir, parent, dots).Some? {
      var s2 := AddEntry(AddEntry(s, dir, dir, dot).value, dir, parent, dots).value;
      TookBoth(s, s2, dir, 2, 0, n, items.blocks);
      ItemsNeeds(s2, dir, l);
      if OpenItems(s2, dir, l).Some? {
        TookThen(s, s2, OpenItems(s2, dir, l).value, dir, 2, 0, n, items.blocks);
      }
    }
  }

  /** Two entries are made exactly if there is room for two. */
  lemma DotsNeed(s: Fs, dir: u32, parent: u32, dot: CString, dots: CString)
    requires Inv(s) && IsDir(s, dir) && IsDir(s, parent) && |dot| <= MAX_FNAME_LEN && |dots| <= MAX_FNAME_LEN
    ensures var r := AddEntry(s, dir, dir, dot);
      (r.Some? && AddEntry(r.value, dir, parent, dots).Some?) <==> Fits(s, dir, 2, 0)
    ensures var r := AddEntry(s, dir, dir, dot);
      r.Some? && AddEntry(r.value, dir, parent, dots).Some? ==> var s2 := AddEntry(r.value, dir, parent, dots).value;
        dir in s2.files && Took(s, s2, dir, 2, 0) && s2.byHost == s.byHost && Inv(s2) && IsDir(s2, dir)
  {
    hide Owned, Shaped, Usable, Blocks, AddEntry, Fits, Took;
    FitsBoth(s, dir, 1, 0, 1, 0);
    EntryNeeds(s, dir, dir, dot);
    if AddEntry(s, dir, dir, dot).Some? {
      var s1 := AddEntry(s, dir, dir, dot).value;
      EntrySame(s, dir, dir, dot);
      TookBoth(s, s1, dir, 1, 0, 1, 0);
      EntryNeeds(s1, dir, parent, dots);
      if AddEntry(s1, dir, parent, dots).Some? {
        EntrySame(s1, dir, parent, dots);
        TookThen(s, s1, AddEntry(s1, dir, parent, dots).value, dir, 1, 0, 1, 0);
      }
    }
  }

  /** What `Fits` and `Took` say of a directory without entries. */
  lemma FreshDir(s: Fs, dir: u32, n: nat, blocks: nat)
    requires Inv(s) && IsDir(s, dir) && s.files[dir].chunks == []
    ensures Fits(s, dir, n, blocks) <==> n <= LN_NBLKS && s.next + blocks + Blocks(n) <= s.ninos
    ensures forall s' {:trigger Took(s, s', dir, n, blocks)} ::
      Took(s, s', dir, n, blocks) ==> s'.next == s.next + blocks + Blocks(n) && s'.ninos == s.ninos
  {
    SameLengths(s, dir);
    FirstBlocks();
  }

  lemma {:induction false} ItemsNeeds(s: Fs, dir: u32, l: Listing)
    requires Inv(s) && IsDir(s, dir)
    ensures var r, need := OpenItems(s, dir, l), ItemsNeed(l, s.byHost.Keys);
      r.Some? <==> need.ok && Fits(s, dir, ListedCount(l), need.blocks)
    ensures var r, need := OpenItems(s, dir, l), ItemsNeed(l, s.byHost.Keys); r.Some? ==>
      Took(s, r.value, dir, ListedCount(l), need.blocks) && r.value.byHost.Keys == need.seen
    decreases l, 1
  {
    hide Owned, Shaped, Usable, Blocks, OpenItem, ItemNeed, Fits, Took;
    if l.End? {
      NothingFits(s, dir);
    } else {
      var e1, e2 := if Listed(l) then 1 else 0, ListedCount(l.rest);
      var n1 := ItemNeed(l, s.byHost.Keys);
      var n2 := ItemsNeed(l.rest, n1.seen);
      FitsBoth(s, dir, e1, n1.blocks, e2, n2.blocks);
      ItemNeeds(s, dir, l);
      if OpenItem(s, dir, l).Some? {
        var s1 := OpenItem(s, dir, l).value;
        OpenItemSame(s, dir, l);
        ItemsNeeds(s1, dir, l.rest);
        TookBoth(s, s1, dir, e1, n1.blocks, e2, n2.blocks);
        if OpenItems(s1, dir, l.rest).Some? {
          TookThen(s, s1, OpenItems(s1, dir, l.rest).value, dir, e1, n1.blocks, e2, n2.blocks);
        }
      }
    }
  }

  lemma {:induction false} ItemNeeds(s: Fs, dir: u32, l: Listing)
    requires Inv(s) && IsDir(s, dir) && !l.End?
    ensures var r, need := OpenItem(s, dir, l), ItemNeed(l, s.byHost.Keys);
      r.Some? <==> need.ok && Fits(s, dir, if Listed(l) then 1 else 0, need.blocks)
    ensures var r, need := OpenItem(s, dir, l), ItemNeed(l, s.byHost.Keys); r.Some? ==>
      Took(s, r.value, dir, if Listed(l) then 1 else 0, need.blocks) && r.value.byHost.Keys == need.seen
    decreases l, 0
  {
    hide Inv, Blocks, AddLink, AddFile, AddDir;
    Room(s, dir);
    if !Hidden(l.name) && |l.name| <= MAX_FNAME_LEN {
      match l
      case Symlink(name, hino, target, _) => LinkNeeds(s, dir, name, hino, target);
      case Regular(name, hino, data, _) => FileNeeds(s, dir, name, hino, data);
      case Directory(name, hino, sub, _) => SubdirNeeds(s, dir, l);
      case Special(_, _) =>
    }
  }

  lemma {:induction false} SubdirNeeds(s: Fs, dir: u32, l: Listing)
    requires Inv(s) && IsDir(s, dir) && l.Directory? && Listed(l) && |l.name| <= MAX_FNAME_LEN
    ensures var r, d := AddDir(s, dir, l.name, l.hino, l.sub), DirNeed(l.sub, s.byHost.Keys + {l.hino});
      r.Some? <==> l.hino !in s.byHost && d.ok && Fits(s, dir, 1, 1 + d.blocks)
    ensures var r, d := AddDir(s, dir, l.name, l.hino, l.sub), DirNeed(l.sub, s.byHost.Keys + {l.hino}); r.Some? ==>
      Took(s, r.value, dir, 1, 1 + d.blocks) && r.value.byHost.Keys == d.seen
    decreases l.sub, 3
  {
    hide Inv, Blocks, AddEntry, OpenDir, DirNeed, NewInode;
    var k := |s.files[dir].blocks|;
    BlocksMonotone(k, k + 1);
    NewInodeNeeds(s, l.hino, TYPE_DIR);
    if l.hino !in s.byHost && NewInode(s, l.hino, TYPE_DIR).Some? {
      var s1 := NewInode(s, l.hino, TYPE_DIR).value;
      assert s1.byHost.Keys == s.byHost.Keys + {l.hino};
      DirNeeds(s1, s.next, dir, l.sub);
      if OpenDir(s1, s.next, dir, l.sub).Some? {
        var s2 := OpenDir(s1, s.next, dir, l.sub).value;
        OpenDirSame(s1, s.next, dir, l.sub);
        SameLengths(s, dir);
        SameLengths(s2, dir);
        EntryNeeds(s2, dir, s.next, l.name);
      }
    }
  }

  // ----- the whole program --------------------------------------------------------------------------------------

  /** How many of the 4096-byte blocks of the image file are used, counted in 32 bits and at most 2 GB. */
  function FileBlocks(size: nat): nat {
    var n := size / 4096 % 0x1_0000_0000;
    if n > 524288 then 524288 else n
  }

  /** The superblock, the root's inode and a freemap of one bit for each block. */
  function Reserved(n: nat): nat {
    2 + (n + 32767) / 32768
  }

  /**
   * The builder succeeds exactly if the image has room for its freemap, the source keeps every limit, and its blocks
   * fit behind the freemap; and then it takes exactly those.
   */
  lemma BuildIff(size: nat, info: seq<byte>, l: Listing)
    requires |info| == INFO_SIZE
    ensures var n, need := FileBlocks(size), DirNeed(l, {0});
      Build(size, info, l).Some? <==> Reserved(n) < n && need.ok && Reserved(n) + need.blocks <= n
    ensures var n, need := FileBlocks(size), DirNeed(l, {0});
      Build(size, info, l).Some? ==> Build(size, info, l).value.next == Reserved(n) + need.blocks
  {
    hide OpenDir, DirNeed;
    var n := ImageBlocks(size);
    assert n == FileBlocks(size) && FirstFree(n) == Reserved(n);
    if FirstFree(n) < n {
      CreateInv(n, info);
      DirNeeds(Create(n, info), BLKN_ROOT, BLKN_ROOT, l);
      assert Create(n, info).byHost.Keys == {0};
    }
  }

  // ----- numbers used again -------------------------------------------------------------------------------------

  const NAME_A: CString := [97]
  const NAME_B: CString := [98]

  lemma TwoEntriesFit(info: seq<byte>, l: Listing, seen: set<u64>)
    requires |info| == INFO_SIZE && ListedCount(l) == 2 && ItemsNeed(l, {0}) == Need(true, 2, seen)
    ensures Build(16 * BLKSIZE, info, l).Some?
  {
    hide Build;
    assert DirNeed(l, {0}) == Need(true, 6, seen);
    assert FirstFree(ImageBlocks(16 * BLKSIZE)) == 3 && ImageBlocks(16 * BLKSIZE) == 16;
    BuildIff(16 * BLKSIZE, info, l);
  }

  lemma TwoEntriesLaid(nodes: Nodes, l: Listing, exact: bool)
    requires !l.End? && Listed(l) && !l.rest.End? && Listed(l.rest)
    requires LaidDir(nodes, BLKN_ROOT, BLKN_ROOT, l, RootMet, exact).Some?
    ensures var met := LaidItem(nodes, BLKN_ROOT, 2, l, RootMet, exact);
      met.Some? && LaidItem(nodes, BLKN_ROOT, 3, l.rest, met.value, exact).Some?
  {
    hide LaidItem;
    var met := LaidItem(nodes, BLKN_ROOT, 2, l, RootMet, exact);
    assert LaidItems(nodes, BLKN_ROOT, 2, l, RootMet, exact).Some?;
    assert LaidItems(nodes, BLKN_ROOT, 3, l.rest, met.value, exact).Some?;
  }

  /**
   * A symbolic link and then a regular file with the same number, as two devices can give them: the image is made, but
   * the file's entry leads to the link.
   */
  lemma LinkNumberReused(disk: Disk, info: seq<byte>, hino: u64, target: CString, data: seq<byte>)
    requires |info| == INFO_SIZE && |target| < BLKSIZE
    ensures var l := Symlink(NAME_A, hino, target, Regular(NAME_B, hino, data, End));
      var r, nodes := Build(16 * BLKSIZE, info, l), DiskNodes(disk);
      && r.Some?
      && (IsImage(disk, r.value) ==>
          && !ShowsDir(nodes, BLKN_ROOT, BLKN_ROOT, l) && HasEntry(nodes, BLKN_ROOT, 3, NAME_B)
          && IsPlain(nodes[nodes[BLKN_ROOT].entries[3].ino], TYPE_LINK, target))
  {
    hide Build, IsImage, DiskNodes;
    var rest := Regular(NAME_B, hino, data, End);
    var l := Symlink(NAME_A, hino, target, rest);
    var seen: set<u64> := {0} + {hino};
    assert ItemNeed(l, {0}) == Need(true, 2, seen);
    assert ItemNeed(rest, seen) == Need(true, 0, seen);
    assert ItemsNeed(rest, seen) == Need(true, 0, seen);
    assert ItemsNeed(l, {0}) == Need(true, 2, seen);
    assert ListedCount(rest) == 1;
    TwoEntriesFit(info, l, seen);
    if IsImage(disk, Build(16 * BLKSIZE, info, l).value) {
      assert Walk(rest, AtFirst[hino := Other]).0 == false;
      ImageShowsIff(disk, 16 * BLKSIZE, info, l);
      ImageLaid(disk, 16 * BLKSIZE, info, l);
      TwoEntriesLaid(DiskNodes(disk), l, Walk(l, AtFirst).0);
    }
  }

  /** Two regular files with the same number and different bytes: the second file's entry leads to the first's bytes. */
  lemma FileNumberReused(disk: Disk, info: seq<byte>, hino: u64, first: seq<byte>, second: seq<byte>)
    requires |info| == INFO_SIZE && 0 < |first| <= BLKSIZE && first != second && hino != 0
    ensures var l := Regular(NAME_A, hino, first, Regular(NAME_B, hino, second, End));
      var r, nodes := Build(16 * BLKSIZE, info, l), DiskNodes(disk);
      && r.Some?
      && (IsImage(disk, r.value) ==>
          && !ShowsDir(nodes, BLKN_ROOT, BLKN_ROOT, l) && HasEntry(nodes, BLKN_ROOT, 3, NAME_B)
          && IsPlain(nodes[nodes[BLKN_ROOT].entries[3].ino], TYPE_FILE, first))
  {
    hide Build, IsImage, DiskNodes;
    var rest := Regular(NAME_B, hino, second, End);
    var l := Regular(NAME_A, hino, first, rest);
    var seen: set<u64> := {0} + {hino};
    assert ItemNeed(l, {0}) == Need(true, 2, seen);
    assert ItemNeed(rest, seen) == Need(true, 0, seen);
    assert ItemsNeed(rest, seen) == Need(true, 0, seen);
    assert ItemsNeed(l, {0}) == Need(true, 2, seen);
    assert ListedCount(rest) == 1;
    TwoEntriesFit(info, l, seen);
    if IsImage(disk, Build(16 * BLKSIZE, info, l).value) {
      assert Walk(rest, AtFirst[hino := Holding(first)]).0 == false;
      ImageShowsIff(disk, 16 * BLKSIZE, info, l);
      ImageLaid(disk, 16 * BLKSIZE, info, l);
      TwoEntriesLaid(DiskNodes(disk), l, Walk(l, AtFirst).0);
    }
  }
}
