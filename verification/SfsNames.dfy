/** Which names of a source tree are on the image: all but those that begin with a dot. */
module SfsNames {
  import opened Bytes
  import opened Options
  import opened SfsModel
  import opened SfsOwnership
  import opened SfsImage
  import opened SfsReadback
  import opened SfsTree
  import opened SfsCapacity

  /** The name begins with byte 46, the dot. */
  predicate Dotted(name: seq<byte>) {
    name != [] && name[0] == 46
  }

  // ----- items that make no difference --------------------------------------------------------------------------

  /** `more` is `l` with one item put in, anywhere in the tree, whose name begins with a dot. */
  predicate PutIn(l: Listing, more: Listing) {
    || (!more.End? && Dotted(more.name) && more.rest == l)
    || match l
       case End => false
       case Symlink(name, hino, target, rest) =>
         more.Symlink? && more == Symlink(name, hino, target, more.rest) && PutIn(rest, more.rest)
       case Regular(name, hino, data, rest) =>
         more.Regular? && more == Regular(name, hino, data, more.rest) && PutIn(rest, more.rest)
       case Directory(name, hino, sub, rest) =>
         && more.Directory? && more == Directory(name, hino, more.sub, more.rest)
         && ((sub == more.sub && PutIn(rest, more.rest)) || (PutIn(sub, more.sub) && rest == more.rest))
       case Special(name, rest) => more.Special? && more == Special(name, more.rest) && PutIn(rest, more.rest)
  }

  lemma {:induction false} SameItems(s: Fs, dir: u32, l: Listing, more: Listing)
    requires dir in s.files && Usable(s) && PutIn(l, more)
    ensures OpenItems(s, dir, more) == OpenItems(s, dir, l)
    decreases l, 1
  {
    hide AddLink, AddFile, AddEntry, NewInode, Usable;
    if !more.End? && Dotted(more.name) && more.rest == l {
      assert OpenItem(s, dir, more) == Some(s);
    } else {
      SameItem(s, dir, l, more);
      if l.rest != more.rest && OpenItem(s, dir, l).Some? {
        SameItems(OpenItem(s, dir, l).value, dir, l.rest, more.rest);
      }
    }
  }

  lemma {:induction false} SameItem(s: Fs, dir: u32, l: Listing, more: Listing)
    requires dir in s.files && Usable(s) && PutIn(l, more) && !l.End? && !more.End?
    requires !(Dotted(more.name) && more.rest == l)
    ensures OpenItem(s, dir, more) == OpenItem(s, dir, l)
    decreases l, 0
  {
    hide AddLink, AddFile, AddEntry, NewInode;
    if l.Directory? && l.sub != more.sub && l.hino !in s.byHost && NewInode(s, l.hino, TYPE_DIR).Some? {
      NewInodeHas(s, l.hino);
      SameDir(NewInode(s, l.hino, TYPE_DIR).value, s.next, dir, l.sub, more.sub);
    }
  }

  lemma NewInodeHas(s: Fs, hino: u64)
    requires Usable(s) && NewInode(s, hino, TYPE_DIR).Some?
    ensures var s1 := NewInode(s, hino, TYPE_DIR).value;
      s.next in s1.files && s.files.Keys <= s1.files.Keys && Usable(s1)
  {
  }

  lemma {:induction false} SameDir(s: Fs, dir: u32, parent: u32, l: Listing, more: Listing)
    requires dir in s.files && parent in s.files && Usable(s) && PutIn(l, more)
    ensures OpenDir(s, dir, parent, more) == OpenDir(s, dir, parent, l)
    decreases l, 2
  {
    hide AddEntry;
    var r := AddEntry(s, dir, dir, [DOT]);
    if r.Some? && AddEntry(r.value, dir, parent, [DOT, DOT]).Some? {
      SameItems(AddEntry(r.value, dir, parent, [DOT, DOT]).value, dir, l, more);
    }
  }

  /** A further item whose name begins with a dot, wherever it stands, changes nothing that the builder does. */
  lemma DottedPassedOver(size: nat, info: seq<byte>, l: Listing, more: Listing)
    requires PutIn(l, more)
    ensures Build(size, info, more) == Build(size, info, l)
  {
    hide OpenDir, PutIn;
    var ninos := ImageBlocks(size);
    if FirstFree(ninos) < ninos {
      SameDir(Create(ninos, info), BLKN_ROOT, BLKN_ROOT, l, more);
    }
  }

  // ----- no dotted name on the image ----------------------------------------------------------------------------

  /** Behind `.` and `..` no directory has an entry whose name begins with a dot. */
  ghost predicate NoDots(files: map<u32, File>) {
    forall d, k {:trigger ChunkEntry(files[d].chunks[k])} ::
      d in files && files[d].kind == TYPE_DIR && 2 <= k < |files[d].chunks| ==>
        !Dotted(ChunkEntry(files[d].chunks[k]).name)
  }

  lemma EnteredNoDots(files: map<u32, File>, files': map<u32, File>, dir: u32, i: u32, name: CString)
    requires Entered(files, files', dir, i, name) && NoDots(files) && (|files[dir].chunks| < 2 || !Dotted(name))
    ensures NoDots(files')
  {
    hide ChunkEntry;
    forall d, k | d in files' && files'[d].kind == TYPE_DIR && 2 <= k < |files'[d].chunks|
      ensures !Dotted(ChunkEntry(files'[d].chunks[k]).name)
    {
      if k < |files[d].chunks| { assert files'[d].chunks[k] == files[d].chunks[k]; }
    }
  }

  lemma EntryNoDots(s: Fs, dir: u32, i: u32, name: CString)
    requires Inv(s) && NoDots(s.files) && IsDir(s, dir) && i in s.files && AddEntry(s, dir, i, name).Some?
    requires |s.files[dir].chunks| < 2 || !Dotted(name)
    ensures var s' := AddEntry(s, dir, i, name).value;
      Inv(s') && NoDots(s'.files) && IsDir(s', dir) && |s'.files[dir].chunks| == |s.files[dir].chunks| + 1
  {
    hide Owned, Shaped, NoDots;
    AddEntryEnters(s, dir, i, name);
    EnteredNoDots(s.files, AddEntry(s, dir, i, name).value.files, dir, i, name);
  }

  lemma NewNoDots(files: map<u32, File>, n: u32, f: File)
    requires NoDots(files) && (f.kind != TYPE_DIR || f.chunks == [])
    ensures NoDots(files[n := f])
  {
  }

  lemma LinkNoDots(s: Fs, dir: u32, name: CString, hino: u64, target: CString)
    requires Inv(s) && NoDots(s.files) && IsDir(s, dir) && |s.files[dir].chunks| >= 2 && !Dotted(name)
    requires AddLink(s, dir, name, hino, target).Some?
    ensures var s' := AddLink(s, dir, name, hino, target).value;
      NoDots(s'.files) && IsDir(s', dir) && |s'.files[dir].chunks| >= 2
  {
    hide Owned, Shaped, AddBlock, AddEntry, NoDots;
    NewInodeNeeds(s, hino, TYPE_LINK);
    var s1 := NewInode(s, hino, TYPE_LINK).value;
    AddBlockChanges(s1, s.next, target);
    var s2 := AddBlock(s1, s.next, target).value;
    assert s2.files == s.files[s.next := s2.files[s.next]];
    NewNoDots(s.files, s.next, s2.files[s.next]);
    EntryNoDots(s2, dir, s.next, name);
  }

  lemma FileNoDots(s: Fs, dir: u32, name: CString, hino: u64, data: seq<byte>)
    requires Inv(s) && NoDots(s.files) && IsDir(s, dir) && |s.files[dir].chunks| >= 2 && !Dotted(name)
    requires AddFile(s, dir, name, hino, data).Some?
    ensures var s' := AddFile(s, dir, name, hino, data).value;
      NoDots(s'.files) && IsDir(s', dir) && |s'.files[dir].chunks| >= 2
  {
    hide Owned, Shaped, OpenFile, AddEntry, NoDots;
    if hino in s.byHost {
      EntryNoDots(s, dir, s.byHost[hino], name);
    } else {
      NewInodeNeeds(s, hino, TYPE_FILE);
      var s1 := NewInode(s, hino, TYPE_FILE).value;
      OpenFileFills(s1, s.next, data);
      var s2 := OpenFile(s1, s.next, data).value;
      assert s2.files == s.files[s.next := s2.files[s.next]];
      NewNoDots(s.files, s.next, s2.files[s.next]);
      EntryNoDots(s2, dir, s.next, name);
    }
  }

  lemma {:induction false} DirNoDots(s: Fs, dir: u32, parent: u32, l: Listing)
    requires Inv(s) && NoDots(s.files) && IsDir(s, dir) && IsDir(s, parent) && s.files[dir].chunks == []
    requires OpenDir(s, dir, parent, l).Some?
    ensures NoDots(OpenDir(s, dir, parent, l).value.files)
    decreases l, 2
  {
    hide Owned, Shaped, AddEntry, NoDots, OpenItems;
    EntryNoDots(s, dir, dir, [DOT]);
    var s1 := AddEntry(s, dir, dir, [DOT]).value;
    EntryNoDots(s1, dir, parent, [DOT, DOT]);
    ItemsNoDots(AddEntry(s1, dir, parent, [DOT, DOT]).value, dir, l);
  }

  lemma {:induction false} ItemsNoDots(s: Fs, dir: u32, l: Listing)
    requires Inv(s) && NoDots(s.files) && IsDir(s, dir) && |s.files[dir].chunks| >= 2 && OpenItems(s, dir, l).Some?
    ensures NoDots(OpenItems(s, dir, l).value.files)
    decreases l, 1
  {
    hide Owned, Shaped, NoDots, OpenItem;
    if !l.End? {
      ItemNoDots(s, dir, l);
      OpenItemInv(s, dir, l);
      ItemsNoDots(OpenItem(s, dir, l).value, dir, l.rest);
    }
  }

  lemma {:induction false} ItemNoDots(s: Fs, dir: u32, l: Listing)
    requires Inv(s) && NoDots(s.files) && IsDir(s, dir) && |s.files[dir].chunks| >= 2
    requires !l.End? && OpenItem(s, dir, l).Some?
    ensures var s' := OpenItem(s, dir, l).value; NoDots(s'.files) && IsDir(s', dir) && |s'.files[dir].chunks| >= 2
    decreases l, 0
  {
    hide Owned, Shaped, AddEntry, AddFile, AddLink, NewInode, OpenDir, NoDots;
    if !Hidden(l.name) {
      match l
      case Symlink(name, hino, target, _) => LinkNoDots(s, dir, name, hino, target);
      case Regular(name, hino, data, _) => FileNoDots(s, dir, name, hino, data);
      case Directory(name, hino, sub, _) =>
        NewInodeNeeds(s, hino, TYPE_DIR);
        var s1 := NewInode(s, hino, TYPE_DIR).value;
        NewNoDots(s.files, s.next, NewFile(TYPE_DIR));
        DirNoDots(s1, s.next, dir, sub);
        OpenDirSame(s1, s.next, dir, sub);
        EntryNoDots(OpenDir(s1, s.next, dir, sub).value, dir, s.next, name);
      case Special(_, _) =>
    }
  }

  /** On the image of any successful run no directory has an entry, behind the first two, that begins with a dot. */
  lemma NoDottedEntry(disk: Disk, size: nat, info: seq<byte>, l: Listing, d: u32, k: nat)
    requires Build(size, info, l).Some? && |info| == INFO_SIZE && IsImage(disk, Build(size, info, l).value)
    requires d in Build(size, info, l).value.files && ReadNode(disk, d).Dir? && 2 <= k < |ReadNode(disk, d).entries|
    ensures var name := ReadNode(disk, d).entries[k].name; name == [] || name[0] != 46
  {
    hide IsImage, Owned, Shaped, OpenDir, ReadNode, NoDots, LaidDir;
    var s0, s := Create(ImageBlocks(size), info), Build(size, info, l).value;
    CreateInv(ImageBlocks(size), info);
    RootNoDots(ImageBlocks(size), info);
    DirNoDots(s0, BLKN_ROOT, BLKN_ROOT, l);
    BuildLays(size, info, l);
    assert Filled(s.files[d]);
    ReadNodeIs(disk, s, d);
    NoDotsAt(s.files, d, k);
  }

  lemma RootNoDots(ninos: u32, info: seq<byte>)
    requires FirstFree(ninos) < ninos <= MAX_NBLKS
    ensures NoDots(Create(ninos, info).files)
  {
  }

  lemma NoDotsAt(files: map<u32, File>, d: u32, k: nat)
    requires NoDots(files) && d in files && files[d].kind == TYPE_DIR && 2 <= k < |files[d].chunks|
    ensures !Dotted(ChunkEntry(files[d].chunks[k]).name)
  {
  }

  // ----- every other name is there ------------------------------------------------------------------------------

  /**
   * From number `k` on the entries of `dir` are exactly those listed whose name does not begin with a dot, named as far
   * as 252 bytes go, in order; those of listed directories likewise.  Other kinds of files have none.
   */
  ghost predicate NamesFrom(nodes: Nodes, dir: u32, k: nat, l: Listing)
    decreases l
  {
    dir in nodes && nodes[dir].Dir? &&
    var entries := nodes[dir].entries;
    if l.End? then k == |entries|
    else if l.Special? || (l.name != [] && l.name[0] == 46) then NamesFrom(nodes, dir, k, l.rest)
    else
      && k < |entries| && entries[k].name == (if |l.name| <= 252 then l.name else l.name[..252])
      && (l.Directory? ==> NamesFrom(nodes, entries[k].ino, 2, l.sub))
      && NamesFrom(nodes, dir, k + 1, l.rest)
  }

  lemma {:induction false} LaidNames(nodes: Nodes, dir: u32, k: nat, l: Listing, met: Met, exact: bool)
    requires LaidItems(nodes, dir, k, l, met, exact).Some?
    requires dir in nodes && nodes[dir].Dir? && |nodes[dir].entries| == k + ListedCount(l)
    ensures NamesFrom(nodes, dir, k, l)
    decreases l
  {
    if !l.End? {
      if Listed(l) {
        var met1 := LaidItem(nodes, dir, k, l, met, exact).value;
        LaidNames(nodes, dir, k + 1, l.rest, met1, exact);
        if l.Directory? {
          var i := nodes[dir].entries[k].ino;
          SubdirShows(nodes, dir, k, l, met, exact);
          LaidNames(nodes, i, 2, l.sub, Meet(met, l.hino, i), exact);
        }
      } else {
        LaidNames(nodes, dir, k, l.rest, met, exact);
      }
    }
  }

  /** On the image of any successful run every file, link and directory whose name begins with no dot has its entry. */
  lemma EveryNameEntered(disk: Disk, size: nat, info: seq<byte>, l: Listing)
    requires Build(size, info, l).Some? && |info| == INFO_SIZE && IsImage(disk, Build(size, info, l).value)
    ensures NamesFrom(DiskNodes(disk), 1, 2, l)
  {
    hide IsImage, Build, DiskNodes, LaidItems, NamesFrom;
    ImageLaid(disk, size, info, l);
    LaidNames(DiskNodes(disk), BLKN_ROOT, 2, l, RootMet, Walk(l, AtFirst).0);
  }
}
