/** Who owns which block, in every state the builder reaches. */
module SfsOwnership {
  import opened Bytes
  import opened Options
  import opened SfsModel

  // ----- the invariant ------------------------------------------------------------------------------------------

  /** The block map has as many index blocks as its length calls for, and nothing exceeds its limit. */
  ghost predicate Shaped(f: File) {
    && |f.chunks| == |f.blocks| <= LN_NBLKS
    && |f.index| == IndexCount(|f.blocks|)
    && (f.dbl != 0 <==> |f.index| > 1)
    && forall k :: 0 <= k < |f.chunks| ==> |f.chunks[k]| <= BLKSIZE
  }

  /** Everything `f` points at is recorded as belonging to inode `i`, in the very place where `f` has it. */
  ghost predicate Owns(owner: map<u32, Owner>, i: u32, f: File) {
    && i in owner && owner[i] == Inode(i)
    && (forall k :: 0 <= k < |f.blocks| ==> f.blocks[k] in owner && owner[f.blocks[k]] == Data(i, k))
    && (forall j :: 0 <= j < |f.index| ==> f.index[j] in owner && owner[f.index[j]] == Index(i, j))
    && (f.dbl != 0 ==> f.dbl in owner && owner[f.dbl] == Double(i))
  }

  /** The place that `who` names holds block `n`; nothing here depends on the record `s.owner`. */
  ghost predicate Holds(s: Fs, who: Owner, n: u32) {
    match who
    case Super => n == 0
    case Freemap(k) => n == BLKN_FREEMAP + k && n < FirstFree(s.ninos)
    case Inode(i) => i == n && i in s.files
    case Index(i, j) => i in s.files && j < |s.files[i].index| && s.files[i].index[j] == n
    case Double(i) => i in s.files && s.files[i].dbl == n != 0
    case Data(i, k) => i in s.files && k < |s.files[i].blocks| && s.files[i].blocks[k] == n
  }

  /** The recorded owner of block `n` really has it. */
  ghost predicate Claimed(s: Fs, n: u32)
    requires n in s.owner
  {
    Holds(s, s.owner[n], n)
  }

  /** The counters, and the blocks whose place is fixed. */
  ghost predicate Counted(s: Fs) {
    && FirstFree(s.ninos) <= s.next <= s.ninos <= MAX_NBLKS
    && (forall n: u32 :: n in s.owner <==> n < s.next)
    && (forall n: u32 :: n < FirstFree(s.ninos) ==> n in s.owner && s.owner[n] == FirstOwner(n))
  }

  /** Ownership with the blocks in `pending` taken but not yet appended. */
  ghost predicate Owned(s: Fs, pending: set<u32>) {
    && Counted(s)
    && (forall i {:trigger Owns(s.owner, i, s.files[i])} :: i in s.files ==> Owns(s.owner, i, s.files[i]))
    && (forall n {:trigger Claimed(s, n)} :: n in s.owner && n !in pending ==> Claimed(s, n))
  }

  /**
   * The invariant of every whole run: each block below `next` has exactly one owner and that owner has the block;
   * every block map has the right shape; the root is there and every known host inode leads to an inode.
   */
  ghost predicate Inv(s: Fs) {
    && Owned(s, {})
    && (forall i {:trigger Shaped(s.files[i])} :: i in s.files ==> Shaped(s.files[i]))
    && Usable(s)
    && BLKN_ROOT in s.files
    && |s.info| == 32
  }

  // ----- single steps -------------------------------------------------------------------------------------------

  lemma CreateInv(ninos: u32, info: seq<byte>)
    requires FirstFree(ninos) < ninos <= MAX_NBLKS && |info| == 32
    ensures Inv(Create(ninos, info))
  {
  }

  lemma OwnsMore(owner: map<u32, Owner>, n: u32, who: Owner, i: u32, f: File)
    requires Owns(owner, i, f) && n !in owner
    ensures Owns(owner[n := who], i, f)
  {
  }

  lemma AllocCounted(s: Fs, who: Owner)
    requires Counted(s) && s.next < s.ninos
    ensures Alloc(s, who).Some? && Counted(Alloc(s, who).value)
  {
  }

  lemma AllocOwned(s: Fs, who: Owner, pending: set<u32>)
    requires Owned(s, pending) && s.next < s.ninos
    ensures Owned(Alloc(s, who).value, pending + {s.next})
  {
    AllocCounted(s, who);
    var s' := Alloc(s, who).value;
    forall i | i in s'.files
      ensures Owns(s'.owner, i, s'.files[i])
    {
      OwnsMore(s.owner, s.next, who, i, s.files[i]);
    }
    forall n | n in s'.owner && n !in pending + {s.next}
      ensures Claimed(s', n)
    {
      assert Claimed(s, n);
    }
  }

  /** Putting a pending block in its place in file `i`. */
  lemma Settle(s: Fs, i: u32, f: File, b: u32, pending: set<u32>)
    requires Owned(s, pending) && i in s.files && b in s.owner
    requires Owns(s.owner, i, f) && Claimed(s.(files := s.files[i := f]), b)
    requires s.files[i].blocks <= f.blocks && s.files[i].index <= f.index
    requires s.files[i].dbl != 0 ==> f.dbl == s.files[i].dbl
    ensures Owned(s.(files := s.files[i := f]), pending - {b})
  {
    var s' := s.(files := s.files[i := f]);
    forall n | n in s'.owner && n !in pending - {b}
      ensures Claimed(s', n)
    {
      if n != b {
        assert Claimed(s, n);
        assert s.owner[n] == Double(i) ==> s.files[i].dbl == n;
      }
    }
  }

  lemma AddIndexOwned(s: Fs, i: u32, pending: set<u32>)
    requires i in s.files && Owned(s, pending) && AddIndex(s, i).Some?
    ensures Owned(AddIndex(s, i).value, pending)
  {
    var f, b := s.files[i], s.next;
    var who := Index(i, |f.index|);
    AllocOwned(s, who, pending);
    var s1 := Alloc(s, who).value;
    var f1 := f.(index := f.index + [b]);
    OwnsMore(s.owner, b, who, i, f);
    Settle(s1, i, f1, b, pending + {b});
    Weaken(AddIndex(s, i).value, pending + {b} - {b}, pending);
  }

  lemma AddDoubleOwned(s: Fs, i: u32, pending: set<u32>)
    requires i in s.files && s.files[i].dbl == 0 && Owned(s, pending) && AddDouble(s, i).Some?
    ensures Owned(AddDouble(s, i).value, pending)
  {
    var f, b := s.files[i], s.next;
    AllocOwned(s, Double(i), pending);
    var s1 := Alloc(s, Double(i)).value;
    OwnsMore(s.owner, b, Double(i), i, f);
    Settle(s1, i, f.(dbl := b), b, pending + {b});
    Weaken(AddDouble(s, i).value, pending + {b} - {b}, pending);
  }

  lemma Weaken(s: Fs, less: set<u32>, more: set<u32>)
    requires Owned(s, less) && less <= more
    ensures Owned(s, more)
  {
  }

  /** From `s` to `s'` only blocks were taken and the index of file `i` changed. */
  ghost predicate OnlyIndexed(s: Fs, s': Fs, i: u32)
    requires i in s.files
  {
    && i in s'.files
    && s' == s.(next := s'.next, owner := s'.owner, files := s.files[i := s'.files[i]])
    && s'.files[i] == s.files[i].(index := s'.files[i].index, dbl := s'.files[i].dbl)
    && forall n :: n in s.owner ==> n in s'.owner && s'.owner[n] == s.owner[n]
  }

  lemma AddIndexEffect(s: Fs, i: u32)
    requires i in s.files && Counted(s) && AddIndex(s, i).Some?
    ensures OnlyIndexed(s, AddIndex(s, i).value, i)
  {
  }

  lemma AddDoubleEffect(s: Fs, i: u32)
    requires i in s.files && Counted(s) && AddDouble(s, i).Some?
    ensures OnlyIndexed(s, AddDouble(s, i).value, i)
  {
  }

  lemma OnlyIndexedTwice(s: Fs, s1: Fs, s2: Fs, i: u32)
    requires i in s.files && i in s1.files && OnlyIndexed(s, s1, i) && OnlyIndexed(s1, s2, i)
    ensures OnlyIndexed(s, s2, i)
  {
  }

  lemma IndexCountNext(n: nat)
    ensures IndexCount(n) <= IndexCount(n + 1) <= IndexCount(n) + 1
  {
  }

  /** `Reserve` keeps the ownership and leaves room for exactly one more block. */
  lemma ReserveOwned(s: Fs, i: u32, pending: set<u32>)
    requires i in s.files && Owned(s, pending) && Shaped(s.files[i]) && Reserve(s, i).Some?
    ensures var s' := Reserve(s, i).value;
      && OnlyIndexed(s, s', i) && Owned(s', pending)
      && |s'.files[i].index| == IndexCount(|s.files[i].blocks| + 1)
      && (s'.files[i].dbl != 0 <==> |s'.files[i].index| > 1)
  {
    var f := s.files[i];
    var n := |f.blocks| + 1;
    IndexCountNext(|f.blocks|);
    var s1 := s;
    if IndexCount(n) > 1 && f.dbl == 0 {
      AddDoubleOwned(s, i, pending);
      AddDoubleEffect(s, i);
      s1 := AddDouble(s, i).value;
      assert s.owner[0] == Super;
      assert s1.files[i].dbl == s.next != 0;
    }
    if IndexCount(n) > |f.index| {
      AddIndexOwned(s1, i, pending);
      AddIndexEffect(s1, i);
      OnlyIndexedTwice(s, s1, AddIndex(s1, i).value, i);
    }
  }

  function Appended(f: File, b: u32, chunk: seq<byte>): File {
    f.(blocks := f.blocks + [b], chunks := f.chunks + [chunk])
  }

  lemma OwnsAppended(owner: map<u32, Owner>, i: u32, f: File, b: u32, chunk: seq<byte>)
    requires Owns(owner, i, f) && b in owner && owner[b] == Data(i, |f.blocks|)
    ensures Owns(owner, i, Appended(f, b, chunk))
  {
  }

  lemma SettleData(s: Fs, i: u32, b: u32, chunk: seq<byte>)
    requires i in s.files && Owned(s, {b})
    requires b in s.owner && s.owner[b] == Data(i, |s.files[i].blocks|)
    ensures Owned(s.(files := s.files[i := Appended(s.files[i], b, chunk)]), {})
  {
    var f := Appended(s.files[i], b, chunk);
    OwnsAppended(s.owner, i, s.files[i], b, chunk);
    assert Claimed(s.(files := s.files[i := f]), b);
    Settle(s, i, f, b, {b});
    assert {b} - {b} == {};
  }

  lemma ShapedAppended(f: File, f2: File, b: u32, chunk: seq<byte>)
    requires Shaped(f) && f2 == f.(index := f2.index, dbl := f2.dbl) && |f.blocks| < LN_NBLKS && |chunk| <= BLKSIZE
    requires |f2.index| == IndexCount(|f.blocks| + 1) && (f2.dbl != 0 <==> |f2.index| > 1)
    ensures Shaped(Appended(f2, b, chunk))
  {
  }

  lemma AppendOwned(s: Fs, i: u32, chunk: seq<byte>, b: u32)
    requires i in s.files && Owned(s, {b}) && Shaped(s.files[i]) && Append(s, i, chunk, b).Some?
    requires b in s.owner && s.owner[b] == Data(i, |s.files[i].blocks|) && |chunk| <= BLKSIZE
    ensures var s' := Append(s, i, chunk, b).value;
      Owned(s', {}) && i in s'.files && Shaped(s'.files[i])
      && s' == s.(next := s'.next, owner := s'.owner, files := s.files[i := s'.files[i]])
  {
    ReserveOwned(s, i, {b});
    var s2 := Reserve(s, i).value;
    SettleData(s2, i, b, chunk);
    ShapedAppended(s.files[i], s2.files[i], b, chunk);
    assert Append(s, i, chunk, b).value == s2.(files := s2.files[i := Appended(s2.files[i], b, chunk)]);
    MapTwice(s.files, i, s2.files[i], Appended(s2.files[i], b, chunk));
  }

  lemma MapTwice(m: map<u32, File>, i: u32, f: File, g: File)
    ensures m[i := f][i := g] == m[i := g]
  {
  }

  /** Owners are never changed. */
  ghost predicate OwnersKept(s: Fs, s': Fs) {
    forall n {:trigger n in s.owner} :: n in s.owner ==> n in s'.owner && s'.owner[n] == s.owner[n]
  }

  lemma AddBlockKeepsOwners(s: Fs, i: u32, chunk: seq<byte>)
    requires i in s.files && Inv(s) && AddBlock(s, i, chunk).Some?
    ensures OwnersKept(s, AddBlock(s, i, chunk).value)
  {
    var who := Data(i, |s.files[i].blocks|);
    AllocOwned(s, who, {});
    var s1 := Alloc(s, who).value;
    ReserveOwned(s1, i, {} + {s.next});
  }

  /** Appending block after block keeps the invariant. */
  lemma AddBlockInv(s: Fs, i: u32, chunk: seq<byte>)
    requires i in s.files && Inv(s) && |chunk| <= BLKSIZE && AddBlock(s, i, chunk).Some?
    ensures Inv(AddBlock(s, i, chunk).value)
  {
    var b := s.next;
    var who := Data(i, |s.files[i].blocks|);
    AllocOwned(s, who, {});
    assert {} + {b} == {b};
    AppendOwned(Alloc(s, who).value, i, chunk, b);
  }

  lemma NewInodeInv(s: Fs, hino: u64, kind: u16)
    requires Inv(s) && NewInode(s, hino, kind).Some?
    ensures Inv(NewInode(s, hino, kind).value)
  {
    var b := s.next;
    AllocOwned(s, Inode(b), {});
    var s1, s' := Alloc(s, Inode(b)).value, NewInode(s, hino, kind).value;
    NextIsNew(s);
    forall i | i in s'.files
      ensures Owns(s'.owner, i, s'.files[i]) && Shaped(s'.files[i])
    {
      assert i != b ==> Owns(s1.owner, i, s1.files[i]) && Shaped(s.files[i]);
    }
    forall n | n in s'.owner
      ensures Claimed(s', n)
    {
      assert n != b ==> Claimed(s1, n);
    }
  }

  lemma NextIsNew(s: Fs)
    requires Inv(s)
    ensures s.next !in s.files
  {
    assert s.next in s.files ==> Owns(s.owner, s.next, s.files[s.next]);
  }

  lemma AddLinkToInv(s: Fs, i: u32)
    requires Inv(s) && i in s.files
    ensures Inv(AddLinkTo(s, i))
  {
    var s' := AddLinkTo(s, i);
    forall j | j in s'.files
      ensures Owns(s'.owner, j, s'.files[j]) && Shaped(s'.files[j])
    {
      assert Owns(s.owner, j, s.files[j]) && Shaped(s.files[j]);
    }
    forall n | n in s'.owner
      ensures Claimed(s', n)
    {
      assert Claimed(s, n);
    }
  }

  lemma SetEntryInv(s: Fs, e: seq<byte>)
    requires Inv(s) && |e| == NAME_SIZE
    ensures Inv(s.(entry := e))
  {
    var s' := s.(entry := e);
    forall i | i in s'.files
      ensures Owns(s'.owner, i, s'.files[i]) && Shaped(s'.files[i])
    {
      assert Owns(s.owner, i, s.files[i]) && Shaped(s.files[i]);
    }
    forall n | n in s'.owner
      ensures Claimed(s', n)
    {
      assert Claimed(s, n);
    }
  }

  // ----- the recursive walk -------------------------------------------------------------------------------------

  lemma AddEntryInv(s: Fs, dir: u32, i: u32, name: CString)
    requires Inv(s) && dir in s.files && i in s.files && AddEntry(s, dir, i, name).Some?
    ensures Inv(AddEntry(s, dir, i, name).value)
  {
    var e := SetName(s.entry, name);
    SetEntryInv(s, e);
    var s0 := s.(entry := e);
    AddBlockInv(s0, dir, Record(i, e));
    AddLinkToInv(AddBlock(s0, dir, Record(i, e)).value, i);
  }

  lemma {:induction false} OpenFileInv(s: Fs, i: u32, data: seq<byte>)
    requires Inv(s) && i in s.files && OpenFile(s, i, data).Some?
    ensures Inv(OpenFile(s, i, data).value)
    decreases |data|
  {
    if data != [] {
      var n := FirstChunk(data);
      AddBlockInv(s, i, data[..n]);
      OpenFileInv(AddBlock(s, i, data[..n]).value, i, data[n..]);
    }
  }

  lemma AddFileInv(s: Fs, dir: u32, name: CString, hino: u64, data: seq<byte>)
    requires Inv(s) && dir in s.files && AddFile(s, dir, name, hino, data).Some?
    ensures Inv(AddFile(s, dir, name, hino, data).value)
  {
    if hino in s.byHost {
      AddEntryInv(s, dir, s.byHost[hino], name);
    } else {
      NewInodeInv(s, hino, TYPE_FILE);
      var s1 := NewInode(s, hino, TYPE_FILE).value;
      OpenFileInv(s1, s.next, data);
      AddEntryInv(OpenFile(s1, s.next, data).value, dir, s.next, name);
    }
  }

  lemma AddLinkInv(s: Fs, dir: u32, name: CString, hino: u64, target: CString)
    requires Inv(s) && dir in s.files && AddLink(s, dir, name, hino, target).Some?
    ensures Inv(AddLink(s, dir, name, hino, target).value)
  {
    NewInodeInv(s, hino, TYPE_LINK);
    var s1 := NewInode(s, hino, TYPE_LINK).value;
    AddBlockInv(s1, s.next, target);
    AddEntryInv(OpenLink(s1, s.next, target).value, dir, s.next, name);
  }

  /** The invariant holds in every state of the recursive walk over a source tree. */
  lemma {:induction false} OpenDirInv(s: Fs, dir: u32, parent: u32, l: Listing)
    requires Inv(s) && dir in s.files && parent in s.files && OpenDir(s, dir, parent, l).Some?
    ensures Inv(OpenDir(s, dir, parent, l).value)
    decreases l, 2
  {
    AddEntryInv(s, dir, dir, [DOT]);
    var s1 := AddEntry(s, dir, dir, [DOT]).value;
    AddEntryInv(s1, dir, parent, [DOT, DOT]);
    OpenItemsInv(AddEntry(s1, dir, parent, [DOT, DOT]).value, dir, l);
  }

  lemma {:induction false} OpenItemsInv(s: Fs, dir: u32, l: Listing)
    requires Inv(s) && dir in s.files && OpenItems(s, dir, l).Some?
    ensures Inv(OpenItems(s, dir, l).value)
    decreases l, 1
  {
    if !l.End? {
      OpenItemInv(s, dir, l);
      OpenItemsInv(OpenItem(s, dir, l).value, dir, l.rest);
    }
  }

  lemma {:induction false} OpenItemInv(s: Fs, dir: u32, l: Listing)
    requires Inv(s) && dir in s.files && !l.End? && OpenItem(s, dir, l).Some?
    ensures Inv(OpenItem(s, dir, l).value)
    decreases l, 0
  {
    if !Hidden(l.name) {
      match l
      case Symlink(name, hino, target, _) =>
        AddLinkInv(s, dir, name, hino, target);
      case Regular(name, hino, data, _) =>
        AddFileInv(s, dir, name, hino, data);
      case Directory(name, hino, sub, _) =>
        NewInodeInv(s, hino, TYPE_DIR);
        var s1 := NewInode(s, hino, TYPE_DIR).value;
        OpenDirInv(s1, s.next, dir, sub);
        AddEntryInv(OpenDir(s1, s.next, dir, sub).value, dir, s.next, name);
      case Special(_, _) =>
    }
  }

  // ----- what the invariant says of blocks ----------------------------------------------------------------------

  /** No block is held in two places: the superblock, the freemap, inodes, index blocks and data never overlap. */
  lemma OneOwner(s: Fs, who: Owner, who': Owner, n: u32)
    requires Inv(s) && Holds(s, who, n) && Holds(s, who', n)
    ensures who == who'
  {
    RecordedOwner(s, who, n);
    RecordedOwner(s, who', n);
  }

  lemma RecordedOwner(s: Fs, who: Owner, n: u32)
    requires Inv(s) && Holds(s, who, n)
    ensures n in s.owner && s.owner[n] == who
  {
    match who
    case Super =>
    case Freemap(k) =>
    case Inode(i) => assert Owns(s.owner, i, s.files[i]);
    case Index(i, j) => assert Owns(s.owner, i, s.files[i]);
    case Double(i) => assert Owns(s.owner, i, s.files[i]);
    case Data(i, k) => assert Owns(s.owner, i, s.files[i]);
  }

  /** The blocks that are held somewhere are exactly those the bump counter has passed. */
  lemma HeldIffTaken(s: Fs, n: u32)
    requires Inv(s)
    ensures (exists who :: Holds(s, who, n)) <==> n < s.next
  {
    if n < s.next {
      assert n in s.owner;
      assert Claimed(s, n);
      assert Holds(s, s.owner[n], n);
    } else if exists who :: Holds(s, who, n) {
      var who :| Holds(s, who, n);
      RecordedOwner(s, who, n);
    }
  }
}
