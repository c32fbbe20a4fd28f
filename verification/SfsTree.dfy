/** Reading the image back: what directory tree is on it, and when it is the source tree that the builder walked. */
module SfsTree {
  import opened Bytes
  import opened Options
  import opened SfsModel
  import opened SfsOwnership
  import opened SfsBlockMap
  import opened SfsImage
  import opened SfsReadback

  /** What an inode stands for: the bytes of a file or link, or the entries of a directory. */
  datatype Node =
    | Plain(kind: u16, links: u16, bytes: seq<byte>)
    | Dir(links: u16, entries: seq<Entry>)

  type Nodes = map<u32, Node>

  /** The node at inode `n`, read from the image alone; a directory's kind is 2, a file's 1 and a link's 3. */
  function ReadNode(disk: Disk, n: u32): Node {
    var d := ParseInode(BlockAt(disk, n));
    if d.kind == 2 then
      var count := if d.blocks <= 32768 then d.blocks else 32768;
      Dir(d.nlinks, seq(count, k requires 0 <= k < count => EntryOf(BlockAt(disk, Resolve(disk, d, k)))))
    else
      Plain(d.kind, d.nlinks, ReadBytes(disk, d))
  }

  function DiskNodes(disk: Disk): Nodes {
    map n | n in disk :: ReadNode(disk, n)
  }

  // ----- what a faithful image shows ----------------------------------------------------------------------------

  /** `open_dir` makes an entry for this one. */
  predicate Listed(l: Listing) {
    !l.End? && !l.Special? && !(|l.name| > 0 && l.name[0] == 46)
  }

  function ListedCount(l: Listing): nat {
    if l.End? then 0 else (if Listed(l) then 1 else 0) + ListedCount(l.rest)
  }

  function SubdirCount(l: Listing): nat {
    if l.End? then 0 else (if Listed(l) && l.Directory? then 1 else 0) + SubdirCount(l.rest)
  }

  /**
   * Inode `dir` is a directory with exactly the entries `.`, `..` and those listed, in order, and its link count is
   * two more than the number of its subdirectories.
   */
  ghost predicate ShowsDir(nodes: Nodes, dir: u32, parent: u32, l: Listing)
    decreases l, 2
  {
    HeadsDir(nodes, dir, parent, l) && CountsDir(nodes, dir, l) && ShowsItems(nodes, dir, 2, l)
  }

  ghost predicate HeadsDir(nodes: Nodes, dir: u32, parent: u32, l: Listing) {
    && dir in nodes && nodes[dir].Dir?
    && |nodes[dir].entries| == 2 + ListedCount(l)
    && nodes[dir].entries[0] == Entry(dir, [46])
    && nodes[dir].entries[1] == Entry(parent, [46, 46])
  }

  ghost predicate CountsDir(nodes: Nodes, dir: u32, l: Listing) {
    dir in nodes && nodes[dir].links == (2 + SubdirCount(l)) % 0x1_0000
  }

  /** The entries of `dir` from number `k` on are those listed. */
  ghost predicate ShowsItems(nodes: Nodes, dir: u32, k: nat, l: Listing)
    decreases l, 1
  {
    l.End? ||
    if Listed(l) then ShowsItem(nodes, dir, k, l) && ShowsItems(nodes, dir, k + 1, l.rest)
    else ShowsItems(nodes, dir, k, l.rest)
  }

  /**
   * Entry `k` of `dir` has the name listed, as far as 252 bytes go, and leads to what is listed: a link with that
   * target, a regular file with those bytes, or a directory that in turn shows its listing.
   */
  ghost predicate ShowsItem(nodes: Nodes, dir: u32, k: nat, l: Listing)
    requires Listed(l)
    decreases l, 0
  {
    HasEntry(nodes, dir, k, l.name) &&
    var i := nodes[dir].entries[k].ino;
    match l
    case Symlink(_, _, target, _) => IsPlain(nodes[i], 3, target)
    case Regular(_, _, data, _) => IsPlain(nodes[i], 1, data)
    case Directory(_, _, sub, _) => dir < i && ShowsDir(nodes, i, dir, sub)
  }

  /** Entry `k` of `dir` has this name, as far as 252 bytes go, and leads to an inode. */
  ghost predicate HasEntry(nodes: Nodes, dir: u32, k: nat, name: CString) {
    && dir in nodes && nodes[dir].Dir? && k < |nodes[dir].entries|
    && nodes[dir].entries[k].name == Clip(name) && nodes[dir].entries[k].ino in nodes
  }

  predicate IsPlain(n: Node, kind: u16, bytes: seq<byte>) {
    n.Plain? && n.kind == kind && n.bytes == bytes
  }

  // ----- what every image is ------------------------------------------------------------------------------------

  /** What a reader of the image has met so far: the inode each host number led to last, and the highest new inode. */
  datatype Met = Met(inode: map<u64, u32>, top: u32)

  function Meet(met: Met, hino: u64, i: u32): Met {
    Met(met.inode[hino := i], i)
  }

  /**
   * Directory `dir` has the entries `.`, `..` and those listed, laid out in the order of the listing; the result is
   * what has been met then.  `exact` says that link counts are right as well.
   */
  ghost function LaidDir(nodes: Nodes, dir: u32, parent: u32, l: Listing, met: Met, exact: bool): Option<Met>
    decreases l, 2
  {
    if HeadsDir(nodes, dir, parent, l) && (exact ==> CountsDir(nodes, dir, l)) then
      LaidItems(nodes, dir, 2, l, met, exact)
    else None
  }

  ghost function LaidItems(nodes: Nodes, dir: u32, k: nat, l: Listing, met: Met, exact: bool): Option<Met>
    decreases l, 1
  {
    if l.End? then Some(met)
    else if Listed(l) then
      var met1 :- LaidItem(nodes, dir, k, l, met, exact);
      LaidItems(nodes, dir, k + 1, l.rest, met1, exact)
    else LaidItems(nodes, dir, k, l.rest, met, exact)
  }

  /**
   * Entry `k` of `dir` has the name listed.  It leads to a new inode, higher than all before, which is what is listed;
   * but a regular file whose number was met before leads to the inode that this number led to last.
   */
  ghost function LaidItem(nodes: Nodes, dir: u32, k: nat, l: Listing, met: Met, exact: bool): Option<Met>
    requires Listed(l)
    decreases l, 0
  {
    if !HasEntry(nodes, dir, k, l.name) then None
    else
      var i := nodes[dir].entries[k].ino;
      match l
      case Symlink(_, hino, target, _) =>
        if met.top < i && IsPlain(nodes[i], 3, target) then Some(Meet(met, hino, i)) else None
      case Regular(_, hino, data, _) =>
        if hino in met.inode then
          if i == met.inode[hino] then Some(met) else None
        else if met.top < i && IsPlain(nodes[i], 1, data) then Some(Meet(met, hino, i)) else None
      case Directory(_, hino, sub, _) =>
        if met.top < i && dir < i && hino !in met.inode then LaidDir(nodes, i, dir, sub, Meet(met, hino, i), exact)
        else None
  }

  // ----- which source trees are shown ---------------------------------------------------------------------------

  /** What a host number met before leads to: a regular file with these bytes, or something else. */
  datatype Meaning = Holding(bytes: seq<byte>) | Other

  /**
   * One pass over the listing: whether every regular file whose number was met before has the bytes of a regular file
   * that this number led to last.
   */
  function Walk(l: Listing, m: map<u64, Meaning>): (bool, map<u64, Meaning>)
    decreases l, 1
  {
    if l.End? then (true, m)
    else
      var (ok1, m1) := WalkItem(l, m);
      var (ok2, m2) := Walk(l.rest, m1);
      (ok1 && ok2, m2)
  }

  function WalkItem(l: Listing, m: map<u64, Meaning>): (bool, map<u64, Meaning>)
    requires !l.End?
    decreases l, 0
  {
    if !Listed(l) then (true, m)
    else match l
      case Symlink(_, hino, _, _) => (true, m[hino := Other])
      case Regular(_, hino, data, _) =>
        if hino in m then (m[hino] == Holding(data), m) else (true, m[hino := Holding(data)])
      case Directory(_, hino, sub, _) => Walk(sub, m[hino := Other])
  }

  function MeaningOf(n: Node): Meaning {
    if n.Plain? && n.kind == 1 then Holding(n.bytes) else Other
  }

  /** What the host numbers lead to among `nodes`. */
  function Meant(nodes: Nodes, inode: map<u64, u32>): map<u64, Meaning> {
    map n | n in inode :: if inode[n] in nodes then MeaningOf(nodes[inode[n]]) else Other
  }

  /** As the items are laid out, so they are shown, if and only if the walk finds nothing wrong. */
  lemma {:induction false} LaidShows(nodes: Nodes, dir: u32, k: nat, l: Listing, met: Met, exact: bool)
    requires LaidItems(nodes, dir, k, l, met, exact).Some?
    ensures var (ok, m) := Walk(l, Meant(nodes, met.inode));
      && m == Meant(nodes, LaidItems(nodes, dir, k, l, met, exact).value.inode)
      && (ShowsItems(nodes, dir, k, l) ==> ok) && (ok && exact ==> ShowsItems(nodes, dir, k, l))
    decreases l, 1
  {
    hide LaidItem, WalkItem, ShowsItem, Meant;
    if !l.End? {
      if Listed(l) {
        LaidItemShows(nodes, dir, k, l, met, exact);
        LaidShows(nodes, dir, k + 1, l.rest, LaidItem(nodes, dir, k, l, met, exact).value, exact);
      } else {
        Unlisted(l, Meant(nodes, met.inode));
        LaidShows(nodes, dir, k, l.rest, met, exact);
      }
    }
  }

  lemma {:induction false} LaidItemShows(nodes: Nodes, dir: u32, k: nat, l: Listing, met: Met, exact: bool)
    requires Listed(l) && LaidItem(nodes, dir, k, l, met, exact).Some?
    ensures var (ok, m) := WalkItem(l, Meant(nodes, met.inode));
      && m == Meant(nodes, LaidItem(nodes, dir, k, l, met, exact).value.inode)
      && (ShowsItem(nodes, dir, k, l) ==> ok) && (ok && exact ==> ShowsItem(nodes, dir, k, l))
    decreases l, 0
  {
    var i := nodes[dir].entries[k].ino;
    MeantMore(nodes, met, l.hino, i);
    if l.Directory? {
      LaidShows(nodes, i, 2, l.sub, Meet(met, l.hino, i), exact);
      SubdirShows(nodes, dir, k, l, met, exact);
    }
  }

  /** The definitions for an entry that is a directory, in terms of its own entries. */
  lemma SubdirShows(nodes: Nodes, dir: u32, k: nat, l: Listing, met: Met, exact: bool)
    requires l.Directory? && Listed(l) && HasEntry(nodes, dir, k, l.name)
    ensures var i := nodes[dir].entries[k].ino;
      && (ShowsItem(nodes, dir, k, l) <==>
          dir < i && HeadsDir(nodes, i, dir, l.sub) && CountsDir(nodes, i, l.sub) && ShowsItems(nodes, i, 2, l.sub))
      && (LaidItem(nodes, dir, k, l, met, exact) ==
          if met.top < i && dir < i && l.hino !in met.inode && HeadsDir(nodes, i, dir, l.sub)
             && (exact ==> CountsDir(nodes, i, l.sub))
          then LaidItems(nodes, i, 2, l.sub, Meet(met, l.hino, i), exact)
          else None)
  {
    var i := nodes[dir].entries[k].ino;
    assert ShowsItem(nodes, dir, k, l) <==> dir < i && ShowsDir(nodes, i, dir, l.sub);
    assert LaidItem(nodes, dir, k, l, met, exact) ==
      if met.top < i && dir < i && l.hino !in met.inode then
        LaidDir(nodes, i, dir, l.sub, Meet(met, l.hino, i), exact)
      else None;
  }

  lemma Unlisted(l: Listing, m: map<u64, Meaning>)
    requires !l.End? && !Listed(l)
    ensures WalkItem(l, m) == (true, m)
  {
  }

  lemma MeantMore(nodes: Nodes, met: Met, hino: u64, i: u32)
    requires i in nodes
    ensures Meant(nodes, Meet(met, hino, i).inode) == Meant(nodes, met.inode)[hino := MeaningOf(nodes[i])]
  {
  }

  // ----- the same, seen from the builder's state ----------------------------------------------------------------

  function ChunkEntry(chunk: seq<byte>): Entry {
    if |chunk| <= BLKSIZE then EntryOf(Pad(chunk)) else Entry(0, [])
  }

  function NodeOf(f: File): Node {
    if f.kind == TYPE_DIR then
      Dir(f.links % 0x1_0000, seq(|f.chunks|, k requires 0 <= k < |f.chunks| => ChunkEntry(f.chunks[k])))
    else
      Plain(f.kind, f.links % 0x1_0000, Concat(f.chunks))
  }

  function NodesOf(files: map<u32, File>): Nodes {
    map i | i in files :: NodeOf(files[i])
  }

  /** A file or link that `open_file` or `open_link` filled. */
  predicate Filled(f: File) {
    f.kind != TYPE_DIR ==> Full(f.chunks)
  }

  /** The reader finds each inode as the builder meant it. */
  lemma ReadNodeIs(disk: Disk, s: Fs, i: u32)
    requires IsImage(disk, s) && Inv(s) && i in s.files && Filled(s.files[i])
    ensures i in disk && ReadNode(disk, i) == NodeOf(s.files[i])
  {
    hide IsImage, Owned, BlockAt, ParseInode, Resolve, EntryOf, Concat, Full, ReadBytes;
    var f := s.files[i];
    InodeOnDisk(disk, s, i);
    assert Shaped(f);
    if f.kind == TYPE_DIR {
      var d := ParseInode(BlockAt(disk, i));
      forall k | 0 <= k < |f.blocks|
        ensures EntryOf(BlockAt(disk, Resolve(disk, d, k))) == ChunkEntry(f.chunks[k])
      {
        ResolveIs(disk, s, i, k);
      }
    } else {
      ReadBytesIs(disk, s, i);
    }
  }

  // ----- what a step of the walk leaves alone -------------------------------------------------------------------

  /**
   * A file keeps its bytes, a directory its entries.  Only directories in `moving` get more entries, and, when `exact`,
   * only their link counts change.
   */
  ghost predicate Stays(n: Node, n': Node, moving: bool, exact: bool) {
    match n
    case Plain(kind, _, bytes) => IsPlain(n', kind, bytes)
    case Dir(links, entries) =>
      && n'.Dir? && entries <= n'.entries
      && (!moving ==> n'.entries == entries && (exact ==> n'.links == links))
  }

  ghost predicate Steady(nodes: Nodes, nodes': Nodes, moving: set<u32>, exact: bool) {
    forall i {:trigger nodes[i]} {:trigger nodes'[i]} ::
      i in nodes ==> i in nodes' && Stays(nodes[i], nodes'[i], i in moving, exact)
  }

  lemma SteadyTwice(nodes: Nodes, nodes1: Nodes, nodes2: Nodes, m1: set<u32>, m2: set<u32>, m: set<u32>, exact: bool)
    requires Steady(nodes, nodes1, m1, exact) && Steady(nodes1, nodes2, m2, exact)
    requires forall i :: i in nodes && i in m1 + m2 ==> i in m
    ensures Steady(nodes, nodes2, m, exact)
  {
    forall i | i in nodes
      ensures i in nodes2 && Stays(nodes[i], nodes2[i], i in m, exact)
    {
      assert Stays(nodes[i], nodes1[i], i in m1, exact) && Stays(nodes1[i], nodes2[i], i in m2, exact);
    }
  }

  /** What is finished below `dir` stays finished while `dir` and directories with lower numbers grow. */
  lemma {:induction false} ItemKept(nodes: Nodes, nodes': Nodes, moving: set<u32>, dir: u32, k: nat, l: Listing,
                                    met: Met, exact: bool)
    requires Listed(l) && LaidItem(nodes, dir, k, l, met, exact).Some?
    requires Steady(nodes, nodes', moving, exact) && forall i :: i in moving ==> i <= dir
    ensures LaidItem(nodes', dir, k, l, met, exact) == LaidItem(nodes, dir, k, l, met, exact)
    decreases l, 0
  {
    assert nodes[dir].Dir?;
    var i := nodes[dir].entries[k].ino;
    assert Stays(nodes[i], nodes'[i], i in moving, exact);
    if l.Directory? { ItemsKept(nodes, nodes', moving, i, 2, l.sub, Meet(met, l.hino, i), exact); }
  }

  lemma {:induction false} ItemsKept(nodes: Nodes, nodes': Nodes, moving: set<u32>, dir: u32, k: nat, l: Listing,
                                     met: Met, exact: bool)
    requires LaidItems(nodes, dir, k, l, met, exact).Some?
    requires Steady(nodes, nodes', moving, exact) && forall i :: i in moving ==> i <= dir
    ensures LaidItems(nodes', dir, k, l, met, exact) == LaidItems(nodes, dir, k, l, met, exact)
    decreases l, 1
  {
    if !l.End? {
      if Listed(l) {
        ItemKept(nodes, nodes', moving, dir, k, l, met, exact);
        ItemsKept(nodes, nodes', moving, dir, k + 1, l.rest, LaidItem(nodes, dir, k, l, met, exact).value, exact);
      } else {
        ItemsKept(nodes, nodes', moving, dir, k, l.rest, met, exact);
      }
    }
  }

  // ----- link counts --------------------------------------------------------------------------------------------

  /** Entry `k` of directory `d` names inode `i`. */
  ghost predicate Names(files: map<u32, File>, d: u32, k: nat, i: u32) {
    d in files && files[d].kind == TYPE_DIR && k < |files[d].chunks| && ChunkEntry(files[d].chunks[k]).ino == i
  }

  /** All places where inode `i` is named. */
  ghost function NamesOf(files: map<u32, File>, i: u32): set<(u32, nat)> {
    set d, k | d in files && 0 <= k < |files[d].chunks| && Names(files, d, k, i) :: (d, k)
  }

  ghost predicate LinksRight(files: map<u32, File>, i: u32)
    requires i in files
  {
    files[i].links == |NamesOf(files, i)|
  }

  ghost predicate NamesKnown(files: map<u32, File>, d: u32, k: nat) {
    d in files && files[d].kind == TYPE_DIR && k < |files[d].chunks| ==> ChunkEntry(files[d].chunks[k]).ino in files
  }

  // ----- the invariant of the walk ------------------------------------------------------------------------------

  /**
   * Between the steps of the walk: blocks have their owners, files are complete, and every inode's link count is the
   * number of entries that name it.
   */
  ghost predicate Sound(s: Fs) {
    && Inv(s)
    && (forall i {:trigger Filled(s.files[i])} :: i in s.files ==> Filled(s.files[i]))
    && (forall i {:trigger LinksRight(s.files, i)} :: i in s.files ==> LinksRight(s.files, i))
    && (forall d, k {:trigger NamesKnown(s.files, d, k)} :: NamesKnown(s.files, d, k))
  }

  // ----- single steps -------------------------------------------------------------------------------------------

  /** Appending a block changes one file, by one chunk. */
  lemma AddBlockChanges(s: Fs, i: u32, chunk: seq<byte>)
    requires Inv(s) && i in s.files && |chunk| <= BLKSIZE && AddBlock(s, i, chunk).Some?
    ensures var s' := AddBlock(s, i, chunk).value;
      && Inv(s') && s'.byHost == s.byHost && i in s'.files && s'.files == s.files[i := s'.files[i]]
      && s'.files[i].kind == s.files[i].kind && s'.files[i].links == s.files[i].links
      && s'.files[i].chunks == s.files[i].chunks + [chunk]
  {
    AddBlockIs(s, i, chunk);
    AddBlockInv(s, i, chunk);
  }

  /** `add_entry` in terms of kinds, link counts and chunks. */
  ghost predicate Entered(files: map<u32, File>, files': map<u32, File>, dir: u32, i: u32, name: CString) {
    && files'.Keys == files.Keys && dir in files && i in files && files[dir].kind == TYPE_DIR
    && (forall j {:trigger files'[j]} :: j in files ==>
          && files'[j].kind == files[j].kind
          && files'[j].links == files[j].links + (if j == i then 1 else 0)
          && (j != dir ==> files'[j].chunks == files[j].chunks))
    && |files'[dir].chunks| == |files[dir].chunks| + 1 && files[dir].chunks <= files'[dir].chunks
    && ChunkEntry(files'[dir].chunks[|files[dir].chunks|]) == Entry(i, Clip(name))
  }

  lemma AddEntryEnters(s: Fs, dir: u32, i: u32, name: CString)
    requires Inv(s) && dir in s.files && i in s.files && AddEntry(s, dir, i, name).Some?
    ensures var s' := AddEntry(s, dir, i, name).value;
      Inv(s') && s'.byHost == s.byHost && Entered(s.files, s'.files, dir, i, name)
  {
    hide Owned, Shaped, EntryOf, Pad, AddBlock;
    AddEntryInv(s, dir, i, name);
    var e := SetName(s.entry, name);
    SetEntryInv(s, e);
    AddBlockChanges(s.(entry := e), dir, Record(i, e));
    EntryReadsBack(i, s.entry, name);
  }

  lemma EnteredSteady(files: map<u32, File>, files': map<u32, File>, dir: u32, i: u32, name: CString)
    requires Entered(files, files', dir, i, name)
    ensures Steady(NodesOf(files), NodesOf(files'), {dir, i}, true)
    ensures Steady(NodesOf(files), NodesOf(files'), {dir}, false)
    ensures files[i].kind != TYPE_DIR ==> Steady(NodesOf(files), NodesOf(files'), {dir}, true)
  {
  }

  lemma EnteredNames(files: map<u32, File>, files': map<u32, File>, dir: u32, i: u32, name: CString, j: u32)
    requires Entered(files, files', dir, i, name) && dir in files && j in files && j in files' && LinksRight(files, j)
    ensures LinksRight(files', j)
  {
    hide Entered, Names;
    var n := |files[dir].chunks|;
    var more: set<(u32, nat)> := if j == i then {(dir, n)} else {};
    forall d: u32, k: nat
      ensures Names(files', d, k, j) <==> Names(files, d, k, j) || (d, k) in more
    {
      EnteredName(files, files', dir, i, name, j, d, k);
    }
    NamesIs(files, j);
    NamesIs(files', j);
    EnteredLinks(files, files', dir, i, name, j);
    assert NamesOf(files', j) == NamesOf(files, j) + more;
  }

  lemma NamesIs(files: map<u32, File>, j: u32)
    ensures forall d: u32, k: nat :: (d, k) in NamesOf(files, j) <==> Names(files, d, k, j)
  {
  }

  lemma EnteredName(files: map<u32, File>, files': map<u32, File>, dir: u32, i: u32, name: CString, j: u32,
                    d: u32, k: nat)
    requires Entered(files, files', dir, i, name)
    ensures Names(files', d, k, j) <==> Names(files, d, k, j) || (d == dir && k == |files[dir].chunks| && j == i)
  {
    hide ChunkEntry, Clip;
  }

  lemma EnteredLinks(files: map<u32, File>, files': map<u32, File>, dir: u32, i: u32, name: CString, j: u32)
    requires Entered(files, files', dir, i, name) && j in files
    ensures j in files' && files'[j].links == files[j].links + (if j == i then 1 else 0)
    ensures !Names(files, dir, |files[dir].chunks|, j)
  {
  }

  lemma EnteredFilled(f: File, f': File)
    requires Filled(f) && f'.kind == f.kind && (f.kind == TYPE_DIR || f'.chunks == f.chunks)
    ensures Filled(f')
  {
  }

  /** A new entry keeps everything sound. */
  lemma EnteredSound(s: Fs, s': Fs, dir: u32, i: u32, name: CString)
    requires Sound(s) && Inv(s') && Entered(s.files, s'.files, dir, i, name)
    ensures Sound(s')
  {
    hide Owned, Shaped, Filled, LinksRight, Full, Concat;
    forall j | j in s'.files
      ensures Filled(s'.files[j]) && LinksRight(s'.files, j)
    {
      assert Filled(s.files[j]) && LinksRight(s.files, j);
      EnteredFilled(s.files[j], s'.files[j]);
      EnteredNames(s.files, s'.files, dir, i, name, j);
    }
    forall d, k
      ensures NamesKnown(s'.files, d, k)
    {
      assert NamesKnown(s.files, d, k);
    }
  }

  /** `s'` has one more inode than `s`, complete as far as bytes go and without entries or names. */
  ghost predicate Born(s: Fs, s': Fs, hino: u64, kind: u16) {
    && s.next !in s.files && s.next in s'.files && s'.files == s.files[s.next := s'.files[s.next]]
    && s'.byHost == s.byHost[hino := s.next] && s.next < s'.next
    && var f := s'.files[s.next];
    && f.kind == kind && f.links == 0 && Filled(f) && (kind == TYPE_DIR ==> f.chunks == [])
  }

  lemma BornSound(s: Fs, s': Fs, hino: u64, kind: u16)
    requires Sound(s) && Inv(s') && Born(s, s', hino, kind)
    ensures Sound(s') && Grown(s, s', {}, true)
  {
    forall d, k
      ensures NamesKnown(s'.files, d, k)
      ensures forall j :: Names(s'.files, d, k, j) <==> Names(s.files, d, k, j)
      ensures !Names(s.files, d, k, s.next)
    {
      assert NamesKnown(s.files, d, k);
    }
    forall j | j in s'.files
      ensures Filled(s'.files[j]) && LinksRight(s'.files, j)
    {
      assert NamesOf(s'.files, j) == NamesOf(s.files, j);
      if j == s.next {
        assert NamesOf(s'.files, j) == {};
      } else {
        assert Filled(s.files[j]) && LinksRight(s.files, j);
      }
    }
  }

  // ----- filling files ------------------------------------------------------------------------------------------

  lemma {:induction false} ConcatPrefix(chunks: seq<seq<byte>>, chunk: seq<byte>, n: nat)
    requires n <= |chunks|
    ensures ConcatTo(chunks + [chunk], n) == ConcatTo(chunks, n)
  {
    if n > 0 { ConcatPrefix(chunks, chunk, n - 1); }
  }

  lemma FillStep(s: Fs, i: u32, chunk: seq<byte>)
    requires Inv(s) && i in s.files && |chunk| <= BLKSIZE && AddBlock(s, i, chunk).Some?
    ensures i in AddBlock(s, i, chunk).value.files
    ensures var f := AddBlock(s, i, chunk).value.files[i];
      f.chunks == s.files[i].chunks + [chunk] && Concat(f.chunks) == Concat(s.files[i].chunks) + chunk
  {
    AddBlockChanges(s, i, chunk);
    ConcatPrefix(s.files[i].chunks, chunk, |s.files[i].chunks|);
  }

  /** `open_file` appends all the bytes, in blocks of which only the last may be short. */
  lemma {:induction false} OpenFileFills(s: Fs, i: u32, data: seq<byte>)
    requires Inv(s) && i in s.files && OpenFile(s, i, data).Some?
    requires forall k :: 0 <= k < |s.files[i].chunks| ==> |s.files[i].chunks[k]| == BLKSIZE
    ensures var s' := OpenFile(s, i, data).value;
      && Inv(s') && s'.byHost == s.byHost && i in s'.files && s'.files == s.files[i := s'.files[i]]
      && s'.files[i].kind == s.files[i].kind && s'.files[i].links == s.files[i].links
      && Full(s'.files[i].chunks) && Concat(s'.files[i].chunks) == Concat(s.files[i].chunks) + data
    decreases |data|
  {
    hide Inv, AddBlock, Concat;
    if data != [] {
      var n := FirstChunk(data);
      AddBlockChanges(s, i, data[..n]);
      FillStep(s, i, data[..n]);
      var s1 := AddBlock(s, i, data[..n]).value;
      var done := Concat(s.files[i].chunks);
      if n < BLKSIZE {
        assert data[..n] == data && data[n..] == [];
        assert OpenFile(s1, i, data[n..]) == Some(s1);
      } else {
        OpenFileFills(s1, i, data[n..]);
        assert done + data == done + data[..n] + data[n..];
      }
    }
  }

  lemma InodesBelowNext(s: Fs)
    requires Inv(s)
    ensures forall i :: i in s.files ==> i < s.next
  {
    forall i | i in s.files
      ensures i < s.next
    {
      assert Owns(s.owner, i, s.files[i]);
    }
  }

  lemma NewFileBorn(s: Fs, hino: u64, data: seq<byte>)
    requires Sound(s) && NewInode(s, hino, TYPE_FILE).Some?
    requires OpenFile(NewInode(s, hino, TYPE_FILE).value, s.next, data).Some?
    ensures var s2 := OpenFile(NewInode(s, hino, TYPE_FILE).value, s.next, data).value;
      Inv(s2) && Born(s, s2, hino, TYPE_FILE) && Concat(s2.files[s.next].chunks) == data
  {
    NextIsNew(s);
    NewInodeInv(s, hino, TYPE_FILE);
    OpenFileFills(NewInode(s, hino, TYPE_FILE).value, s.next, data);
    InodesBelowNext(OpenFile(NewInode(s, hino, TYPE_FILE).value, s.next, data).value);
  }

  lemma NewLinkBorn(s: Fs, hino: u64, target: CString)
    requires Sound(s) && NewInode(s, hino, TYPE_LINK).Some?
    requires OpenLink(NewInode(s, hino, TYPE_LINK).value, s.next, target).Some?
    ensures var s2 := OpenLink(NewInode(s, hino, TYPE_LINK).value, s.next, target).value;
      Inv(s2) && Born(s, s2, hino, TYPE_LINK) && Concat(s2.files[s.next].chunks) == target
  {
    hide Owned, Shaped, AddBlock, Filled, LinksRight, NamesKnown;
    NextIsNew(s);
    NewInodeInv(s, hino, TYPE_LINK);
    var s1 := NewInode(s, hino, TYPE_LINK).value;
    AddBlockChanges(s1, s.next, target);
    var s2 := OpenLink(s1, s.next, target).value;
    OneChunkFull(s2.files[s.next], target);
    InodesBelowNext(s2);
  }

  lemma OneChunkFull(f: File, chunk: seq<byte>)
    requires f.chunks == [chunk] && |chunk| <= BLKSIZE
    ensures Filled(f) && Concat(f.chunks) == chunk
  {
    assert ConcatTo(f.chunks, 0) == [];
  }

  lemma NewDirBorn(s: Fs, hino: u64)
    requires Sound(s) && NewInode(s, hino, TYPE_DIR).Some?
    ensures var s1 := NewInode(s, hino, TYPE_DIR).value;
      Born(s, s1, hino, TYPE_DIR) && Sound(s1) && Grown(s, s1, {}, true)
  {
    NextIsNew(s);
    NewInodeInv(s, hino, TYPE_DIR);
    BornSound(s, NewInode(s, hino, TYPE_DIR).value, hino, TYPE_DIR);
  }

  // ----- the walk -----------------------------------------------------------------------------------------------

  /** `s` has become `s'`, with only directories in `moving` and new inodes changed. */
  ghost predicate Grown(s: Fs, s': Fs, moving: set<u32>, exact: bool) {
    && s.next <= s'.next && Steady(NodesOf(s.files), NodesOf(s'.files), moving, exact)
    && forall d {:trigger Still(s, s', d, exact)} :: IsDir(s, d) && d !in moving ==> Still(s, s', d, exact)
  }

  predicate IsDir(s: Fs, d: u32) {
    d in s.files && s.files[d].kind == TYPE_DIR
  }

  /** Nothing was entered in directory `d`, and, when `exact`, no entry for it was made. */
  ghost predicate Still(s: Fs, s': Fs, d: u32, exact: bool) {
    && IsDir(s, d) && IsDir(s', d) && s'.files[d].chunks == s.files[d].chunks
    && (exact ==> s'.files[d].links == s.files[d].links)
  }

  lemma GrownNot(s: Fs, moving: set<u32>, exact: bool)
    ensures Grown(s, s, moving, exact)
  {
  }

  /** The entries that a directory has, it keeps. */
  lemma EntryKept(s: Fs, s': Fs, moving: set<u32>, exact: bool, d: u32, k: nat)
    requires Grown(s, s', moving, exact) && IsDir(s, d) && k < |s.files[d].chunks|
    ensures IsDir(s', d) && k < |s'.files[d].chunks|
    ensures ChunkEntry(s'.files[d].chunks[k]) == ChunkEntry(s.files[d].chunks[k])
  {
    var n, n' := NodesOf(s.files)[d], NodesOf(s'.files)[d];
    assert Stays(n, n', d in moving, exact);
    assert n.entries[k] == n'.entries[k];
  }

  lemma GrownTwice(s: Fs, s1: Fs, s2: Fs, m1: set<u32>, m2: set<u32>, m: set<u32>, exact: bool)
    requires Grown(s, s1, m1, exact) && Grown(s1, s2, m2, exact) && forall i :: i in s.files && i in m1 + m2 ==> i in m
    ensures Grown(s, s2, m, exact)
  {
    SteadyTwice(NodesOf(s.files), NodesOf(s1.files), NodesOf(s2.files), m1, m2, m, exact);
    forall d | IsDir(s, d) && d !in m
      ensures Still(s, s2, d, exact)
    {
      assert Still(s, s1, d, exact) && Still(s1, s2, d, exact);
    }
  }

  /** What may be inexact may as well be exact. */
  lemma GrownLess(s: Fs, s': Fs, moving: set<u32>, exact: bool)
    requires Grown(s, s', moving, true)
    ensures Grown(s, s', moving, exact)
  {
    forall i | i in NodesOf(s.files)
      ensures i in NodesOf(s'.files) && Stays(NodesOf(s.files)[i], NodesOf(s'.files)[i], i in moving, exact)
    {
      assert Stays(NodesOf(s.files)[i], NodesOf(s'.files)[i], i in moving, true);
    }
    forall d | IsDir(s, d) && d !in moving
      ensures Still(s, s', d, exact)
    {
      assert Still(s, s', d, true);
    }
  }

  lemma AddEntryGrows(s: Fs, dir: u32, i: u32, name: CString)
    requires Sound(s) && IsDir(s, dir) && i in s.files && AddEntry(s, dir, i, name).Some?
    ensures var s' := AddEntry(s, dir, i, name).value;
      && Sound(s') && Entered(s.files, s'.files, dir, i, name) && s'.byHost == s.byHost && Grown(s, s', {dir}, false)
      && Grown(s, s', if s.files[i].kind == TYPE_DIR then {dir, i} else {dir}, true)
  {
    AddEntryEnters(s, dir, i, name);
    var s' := AddEntry(s, dir, i, name).value;
    EnteredSound(s, s', dir, i, name);
    EnteredSteady(s.files, s'.files, dir, i, name);
    EntryTakes(s, dir, i, name);
  }

  lemma EntryTakes(s: Fs, dir: u32, i: u32, name: CString)
    requires Inv(s) && IsDir(s, dir) && i in s.files && AddEntry(s, dir, i, name).Some?
    ensures s.next <= AddEntry(s, dir, i, name).value.next
  {
  }

  /** What the host numbers stand for in the state `s`. */
  ghost function Meanings(s: Fs): map<u64, Meaning> {
    Meant(NodesOf(s.files), s.byHost)
  }

  lemma MeaningsKept(s: Fs, s': Fs, moving: set<u32>, exact: bool)
    requires Inv(s) && Grown(s, s', moving, exact)
    ensures Meant(NodesOf(s'.files), s.byHost) == Meanings(s)
  {
    hide Owned, Shaped, NodeOf;
    forall n | n in s.byHost
      ensures Meant(NodesOf(s'.files), s.byHost)[n] == Meanings(s)[n]
    {
      var i := s.byHost[n];
      assert Stays(NodesOf(s.files)[i], NodesOf(s'.files)[i], i in moving, exact);
    }
  }

  /** What one listed entry does to the image so far. */
  ghost predicate ItemDone(s: Fs, s': Fs, dir: u32, l: Listing, top: u32, exact: bool)
    requires Listed(l) && IsDir(s, dir)
  {
    && Sound(s') && Grown(s, s', {dir}, exact) && IsDir(s', dir)
    && Meanings(s') == WalkItem(l, Meanings(s)).1
    && |s'.files[dir].chunks| == |s.files[dir].chunks| + 1
    && (exact ==> s'.files[dir].links == s.files[dir].links + (if l.Directory? then 1 else 0))
    && var met := LaidItem(NodesOf(s'.files), dir, |s.files[dir].chunks|, l, Met(s.byHost, top), exact);
      met.Some? && met.value.inode == s'.byHost && met.value.top < s'.next
  }

  /** A new file or link, once entered in `dir`. */
  lemma NewLaid(s: Fs, s2: Fs, dir: u32, name: CString, hino: u64, kind: u16, exact: bool)
    requires Sound(s) && IsDir(s, dir) && Inv(s2) && Born(s, s2, hino, kind) && kind != TYPE_DIR
    requires AddEntry(s2, dir, s.next, name).Some?
    ensures var s3 := AddEntry(s2, dir, s.next, name).value;
      && Sound(s3) && Grown(s, s3, {dir}, exact) && IsDir(s3, dir) && s3.byHost == s.byHost[hino := s.next]
      && |s3.files[dir].chunks| == |s.files[dir].chunks| + 1 && s3.files[dir].links == s.files[dir].links
      && ChunkEntry(s3.files[dir].chunks[|s.files[dir].chunks|]) == Entry(s.next, Clip(name))
      && s.next in s3.files && s3.files[s.next].kind == kind && s3.files[s.next].chunks == s2.files[s.next].chunks
      && s.next < s3.next
  {
    hide Owned, Shaped, AddEntry, Steady;
    BornSound(s, s2, hino, kind);
    assert IsDir(s2, dir);
    AddEntryGrows(s2, dir, s.next, name);
    GrownTwice(s, s2, AddEntry(s2, dir, s.next, name).value, {}, {dir}, {dir}, true);
    GrownLess(s, AddEntry(s2, dir, s.next, name).value, {dir}, exact);
  }

  lemma NewItemDone(s: Fs, s2: Fs, dir: u32, l: Listing, kind: u16, bytes: seq<byte>, top: u32, exact: bool)
    requires Sound(s) && IsDir(s, dir) && Inv(s2) && Listed(l) && top < s.next
    requires (l.Symlink? && kind == TYPE_LINK && bytes == l.target) ||
             (l.Regular? && kind == TYPE_FILE && bytes == l.data && l.hino !in s.byHost)
    requires Born(s, s2, l.hino, kind) && Concat(s2.files[s.next].chunks) == bytes
    requires AddEntry(s2, dir, s.next, l.name).Some?
    ensures ItemDone(s, AddEntry(s2, dir, s.next, l.name).value, dir, l, top, exact)
  {
    hide Owned, Shaped, AddEntry, Steady, Concat, Filled, LinksRight, NamesKnown;
    NewLaid(s, s2, dir, l.name, l.hino, kind, exact);
    var s3 := AddEntry(s2, dir, s.next, l.name).value;
    MeaningsKept(s, s3, {dir}, exact);
    MeantMore(NodesOf(s3.files), Met(s.byHost, top), l.hino, s.next);
  }

  lemma LinkLaid(s: Fs, dir: u32, l: Listing, top: u32, exact: bool)
    requires Sound(s) && IsDir(s, dir) && l.Symlink? && Listed(l) && top < s.next
    requires AddLink(s, dir, l.name, l.hino, l.target).Some?
    ensures ItemDone(s, AddLink(s, dir, l.name, l.hino, l.target).value, dir, l, top, exact)
  {
    hide Inv, AddEntry, NewInode, OpenLink, Concat, ItemDone, Filled, LinksRight, NamesKnown;
    NewLinkBorn(s, l.hino, l.target);
    var s2 := OpenLink(NewInode(s, l.hino, TYPE_LINK).value, s.next, l.target).value;
    NewItemDone(s, s2, dir, l, TYPE_LINK, l.target, top, exact);
  }

  lemma FileLaid(s: Fs, dir: u32, l: Listing, top: u32, exact: bool)
    requires Sound(s) && IsDir(s, dir) && l.Regular? && Listed(l) && top < s.next
    requires AddFile(s, dir, l.name, l.hino, l.data).Some? && (exact ==> WalkItem(l, Meanings(s)).0)
    ensures ItemDone(s, AddFile(s, dir, l.name, l.hino, l.data).value, dir, l, top, exact)
  {
    hide Owned, Shaped, AddEntry, OpenFile, NewInode, Concat, ItemDone, Filled, LinksRight, NamesKnown;
    if l.hino in s.byHost {
      KnownFileLaid(s, dir, l, top, exact);
    } else {
      NewFileBorn(s, l.hino, l.data);
      var s2 := OpenFile(NewInode(s, l.hino, TYPE_FILE).value, s.next, l.data).value;
      NewItemDone(s, s2, dir, l, TYPE_FILE, l.data, top, exact);
    }
  }

  /** A further link to whatever the number of a regular file led to last. */
  lemma KnownFileLaid(s: Fs, dir: u32, l: Listing, top: u32, exact: bool)
    requires Sound(s) && IsDir(s, dir) && l.Regular? && Listed(l) && top < s.next && l.hino in s.byHost
    requires s.byHost[l.hino] in s.files && AddEntry(s, dir, s.byHost[l.hino], l.name).Some?
    requires exact ==> WalkItem(l, Meanings(s)).0
    ensures ItemDone(s, AddEntry(s, dir, s.byHost[l.hino], l.name).value, dir, l, top, exact)
  {
    hide Owned, Shaped, AddEntry, Steady, Concat, Filled, LinksRight, NamesKnown;
    var i := s.byHost[l.hino];
    AddEntryGrows(s, dir, i, l.name);
    var s' := AddEntry(s, dir, i, l.name).value;
    if exact { assert s.files[i].kind != TYPE_DIR; }
    MeaningsKept(s, s', {dir}, exact);
  }

  /** The entries of an opened directory, complete but for the one link from its parent. */
  ghost predicate DirDone(s: Fs, s': Fs, dir: u32, parent: u32, l: Listing, top: u32, exact: bool)
    requires IsDir(s, dir) && IsDir(s, parent)
  {
    && Sound(s') && Grown(s, s', {dir, parent}, exact) && IsDir(s', dir) && IsDir(s', parent)
    && Meanings(s') == Walk(l, Meanings(s)).1
    && (exact ==> s'.files[dir].links == s.files[dir].links + (if dir == parent then 2 else 1) + SubdirCount(l))
    && |s'.files[dir].chunks| == 2 + ListedCount(l)
    && ChunkEntry(s'.files[dir].chunks[0]) == Entry(dir, [DOT])
    && ChunkEntry(s'.files[dir].chunks[1]) == Entry(parent, [DOT, DOT])
    && (dir != parent ==> s'.files[parent].chunks == s.files[parent].chunks)
    && (dir != parent && exact ==> s'.files[parent].links == s.files[parent].links + 1)
    && var met := LaidItems(NodesOf(s'.files), dir, 2, l, Met(s.byHost, top), exact);
      met.Some? && met.value.inode == s'.byHost && met.value.top < s'.next
  }

  /** The states around the opening of directory `s.next`: made, opened, and entered in its parent. */
  ghost predicate Opened(s: Fs, s1: Fs, s2: Fs, s3: Fs, parent: u32, l: Listing, exact: bool) {
    && l.Directory? && Listed(l) && IsDir(s, parent) && parent < s.next
    && Born(s, s1, l.hino, TYPE_DIR) && l.hino !in s.byHost && Inv(s) && Inv(s2) && Grown(s, s1, {}, true)
    && IsDir(s1, s.next) && IsDir(s1, parent) && DirDone(s1, s2, s.next, parent, l.sub, s.next, exact)
    && Sound(s3) && Entered(s2.files, s3.files, parent, s.next, l.name) && s3.byHost == s2.byHost
    && Grown(s2, s3, {parent, s.next}, true)
  }

  lemma SubdirGrown(s: Fs, s1: Fs, s2: Fs, s3: Fs, parent: u32, l: Listing, exact: bool)
    requires Opened(s, s1, s2, s3, parent, l, exact)
    ensures Grown(s, s3, {parent}, exact) && Meanings(s3) == WalkItem(l, Meanings(s)).1
  {
    hide Inv, Sound, Steady, LaidItems, Entered;
    var dir := s.next;
    GrownLess(s, s1, {}, exact);
    GrownLess(s2, s3, {parent, dir}, exact);
    GrownTwice(s, s1, s2, {}, {dir, parent}, {parent}, exact);
    GrownTwice(s, s2, s3, {parent}, {parent, dir}, {parent}, exact);
    MeaningsKept(s2, s3, {parent, dir}, exact);
    MeaningsKept(s, s1, {}, true);
    MeantMore(NodesOf(s1.files), Met(s.byHost, 0), l.hino, dir);
  }

  lemma SubdirHeads(s: Fs, s1: Fs, s2: Fs, s3: Fs, parent: u32, l: Listing, exact: bool)
    requires Opened(s, s1, s2, s3, parent, l, exact)
    ensures var nodes, k := NodesOf(s3.files), |s.files[parent].chunks|;
      && IsDir(s3, parent) && |s3.files[parent].chunks| == k + 1
      && (exact ==> s3.files[parent].links == s.files[parent].links + 1)
      && HasEntry(nodes, parent, k, l.name) && nodes[parent].entries[k].ino == s.next
      && HeadsDir(nodes, s.next, parent, l.sub) && (exact ==> CountsDir(nodes, s.next, l.sub))
  {
    hide Inv, Sound, Steady, LaidItems, Meanings;
    var dir := s.next;
    assert Still(s, s1, parent, true);
    assert s3.files[dir].chunks == s2.files[dir].chunks;
    var nodes, k := NodesOf(s3.files), |s.files[parent].chunks|;
    var n := nodes[dir];
    assert n.Dir? && n.entries[0] == Entry(dir, [DOT]) && n.entries[1] == Entry(parent, [DOT, DOT]);
    assert nodes[parent].entries[k] == Entry(dir, Clip(l.name));
  }

  /** Entering a finished directory in its parent. */
  lemma SubdirLaid(s: Fs, s1: Fs, s2: Fs, s3: Fs, parent: u32, l: Listing, top: u32, exact: bool)
    requires Opened(s, s1, s2, s3, parent, l, exact) && top < s.next
    ensures ItemDone(s, s3, parent, l, top, exact)
  {
    hide Inv, Sound, Grown, LaidItems, LaidItem, HasEntry, HeadsDir, CountsDir, Meanings, WalkItem, Walk, Entered;
    var dir, nodes, k := s.next, NodesOf(s3.files), |s.files[parent].chunks|;
    SubdirGrown(s, s1, s2, s3, parent, l, exact);
    SubdirHeads(s, s1, s2, s3, parent, l, exact);
    SubdirShows(nodes, parent, k, l, Met(s.byHost, top), exact);
    SubdirKept(s2, s3, dir, parent, l.sub, Met(s1.byHost, dir), exact);
    GrowsOn(s2, s3, {parent, dir}, true);
  }

  lemma SubdirKept(s2: Fs, s3: Fs, dir: u32, parent: u32, l: Listing, met: Met, exact: bool)
    requires Grown(s2, s3, {parent, dir}, true) && parent < dir
    requires LaidItems(NodesOf(s2.files), dir, 2, l, met, exact).Some?
    ensures LaidItems(NodesOf(s3.files), dir, 2, l, met, exact) == LaidItems(NodesOf(s2.files), dir, 2, l, met, exact)
  {
    GrownLess(s2, s3, {parent, dir}, exact);
    ItemsKept(NodesOf(s2.files), NodesOf(s3.files), {parent, dir}, dir, 2, l, met, exact);
  }

  lemma GrowsOn(s: Fs, s': Fs, moving: set<u32>, exact: bool)
    requires Grown(s, s', moving, exact)
    ensures s.next <= s'.next
  {
  }

  /** The first two entries of a directory. */
  lemma DotsEntered(s: Fs, dir: u32, parent: u32)
    requires Sound(s) && IsDir(s, dir) && IsDir(s, parent) && s.files[dir].chunks == []
    requires var r := AddEntry(s, dir, dir, [DOT]); r.Some? && AddEntry(r.value, dir, parent, [DOT, DOT]).Some?
    ensures var s2 := AddEntry(AddEntry(s, dir, dir, [DOT]).value, dir, parent, [DOT, DOT]).value;
      && Sound(s2) && Grown(s, s2, {dir, parent}, true) && s2.byHost == s.byHost
      && IsDir(s2, dir) && IsDir(s2, parent) && |s2.files[dir].chunks| == 2
      && s2.files[dir].links == s.files[dir].links + (if dir == parent then 2 else 1)
      && ChunkEntry(s2.files[dir].chunks[0]) == Entry(dir, [DOT])
      && ChunkEntry(s2.files[dir].chunks[1]) == Entry(parent, [DOT, DOT])
      && (dir != parent ==> s2.files[parent].chunks == s.files[parent].chunks)
      && (dir != parent ==> s2.files[parent].links == s.files[parent].links + 1)
  {
    hide Owned, Shaped, Steady, AddEntry;
    AddEntryGrows(s, dir, dir, [DOT]);
    var s1 := AddEntry(s, dir, dir, [DOT]).value;
    AddEntryGrows(s1, dir, parent, [DOT, DOT]);
    var s2 := AddEntry(s1, dir, parent, [DOT, DOT]).value;
    GrownTwice(s, s1, s2, {dir, dir}, {dir, parent}, {dir, parent}, true);
    EntryKept(s1, s2, {dir, parent}, true, dir, 0);
  }

  /** Entering a directory lays it out, with everything below it. */
  lemma {:induction false} OpenDirLays(s: Fs, dir: u32, parent: u32, l: Listing, top: u32, exact: bool)
    requires Sound(s) && IsDir(s, dir) && IsDir(s, parent) && s.files[dir].chunks == [] && top < s.next
    requires OpenDir(s, dir, parent, l).Some? && (exact ==> Walk(l, Meanings(s)).0)
    ensures DirDone(s, OpenDir(s, dir, parent, l).value, dir, parent, l, top, exact)
    decreases l, 2
  {
    hide Owned, Shaped, Steady, LaidItem, AddEntry;
    DotsEntered(s, dir, parent);
    var s2 := AddEntry(AddEntry(s, dir, dir, [DOT]).value, dir, parent, [DOT, DOT]).value;
    GrownLess(s, s2, {dir, parent}, exact);
    MeaningsKept(s, s2, {dir, parent}, exact);
    OpenItemsLay(s2, dir, l, top, exact);
    var s' := OpenItems(s2, dir, l).value;
    GrownTwice(s, s2, s', {dir, parent}, {dir}, {dir, parent}, exact);
    EntryKept(s2, s', {dir}, exact, dir, 0);
    EntryKept(s2, s', {dir}, exact, dir, 1);
    assert dir != parent ==> Still(s2, s', parent, exact);
  }

  lemma {:induction false} OpenItemsLay(s: Fs, dir: u32, l: Listing, top: u32, exact: bool)
    requires Sound(s) && IsDir(s, dir) && OpenItems(s, dir, l).Some? && top < s.next
    requires exact ==> Walk(l, Meanings(s)).0
    ensures var s' := OpenItems(s, dir, l).value;
      && Sound(s') && Grown(s, s', {dir}, exact) && IsDir(s', dir)
      && Meanings(s') == Walk(l, Meanings(s)).1
      && |s'.files[dir].chunks| == |s.files[dir].chunks| + ListedCount(l)
      && (exact ==> s'.files[dir].links == s.files[dir].links + SubdirCount(l))
      && var met := LaidItems(NodesOf(s'.files), dir, |s.files[dir].chunks|, l, Met(s.byHost, top), exact);
        met.Some? && met.value.inode == s'.byHost && met.value.top < s'.next
    decreases l, 1
  {
    hide Owned, Shaped, Steady, LaidItem, OpenItem, WalkItem;
    if l.End? {
      GrownNot(s, {dir}, exact);
    } else {
      var s1 := OpenItem(s, dir, l).value;
      var s' := OpenItems(s1, dir, l.rest).value;
      OpenItemLays(s, dir, l, top, exact);
      if Listed(l) {
        var k, met := |s.files[dir].chunks|, Met(s.byHost, top);
        var met1 := LaidItem(NodesOf(s1.files), dir, k, l, met, exact).value;
        OpenItemsLay(s1, dir, l.rest, met1.top, exact);
        GrownTwice(s, s1, s', {dir}, {dir}, {dir}, exact);
        ItemKept(NodesOf(s1.files), NodesOf(s'.files), {dir}, dir, k, l, met, exact);
      } else {
        OpenItemsLay(s1, dir, l.rest, top, exact);
      }
    }
  }

  lemma {:induction false} OpenItemLays(s: Fs, dir: u32, l: Listing, top: u32, exact: bool)
    requires Sound(s) && IsDir(s, dir) && !l.End? && OpenItem(s, dir, l).Some? && top < s.next
    requires exact ==> WalkItem(l, Meanings(s)).0
    ensures if Listed(l) then ItemDone(s, OpenItem(s, dir, l).value, dir, l, top, exact)
            else OpenItem(s, dir, l) == Some(s) && WalkItem(l, Meanings(s)).1 == Meanings(s)
    decreases l, 0
  {
    hide Owned, Shaped, Steady, LaidItem, LaidItems, AddEntry, NewInode, OpenDir;
    if Listed(l) {
      match l
      case Symlink(_, _, _, _) => LinkLaid(s, dir, l, top, exact);
      case Regular(_, _, _, _) => FileLaid(s, dir, l, top, exact);
      case Directory(name, hino, sub, _) =>
        NewDirBorn(s, hino);
        var s1 := NewInode(s, hino, TYPE_DIR).value;
        InodesBelowNext(s);
        MeaningsKept(s, s1, {}, true);
        MeantMore(NodesOf(s1.files), Met(s.byHost, top), hino, s.next);
        OpenDirLays(s1, s.next, dir, sub, s.next, exact);
        var s2 := OpenDir(s1, s.next, dir, sub).value;
        AddEntryGrows(s2, dir, s.next, name);
        SubdirLaid(s, s1, s2, AddEntry(s2, dir, s.next, name).value, dir, l, top, exact);
    }
  }

  // ----- whole images -------------------------------------------------------------------------------------------

  /** Number 0 stands for the root. */
  const AtFirst: map<u64, Meaning> := map[0 := Other]
  const RootMet: Met := Met(map[0 := 1], 1)

  lemma CreateSound(ninos: u32, info: seq<byte>)
    requires FirstFree(ninos) < ninos <= MAX_NBLKS && |info| == INFO_SIZE
    ensures Sound(Create(ninos, info)) && Meanings(Create(ninos, info)) == AtFirst
  {
    CreateInv(ninos, info);
    var s := Create(ninos, info);
    assert NamesOf(s.files, BLKN_ROOT) == {};
    assert LinksRight(s.files, BLKN_ROOT);
  }

  /** The walk enters in the root directory, and below it, exactly the source tree. */
  lemma BuildLays(size: nat, info: seq<byte>, l: Listing)
    requires Build(size, info, l).Some? && |info| == INFO_SIZE
    ensures var s, ok := Build(size, info, l).value, Walk(l, AtFirst).0;
      Sound(s) && LaidDir(NodesOf(s.files), BLKN_ROOT, BLKN_ROOT, l, RootMet, ok).Some?
  {
    hide Inv, Filled, LinksRight, NamesKnown, OpenDir, LaidItems, Steady;
    var s0, s := Create(ImageBlocks(size), info), Build(size, info, l).value;
    CreateSound(ImageBlocks(size), info);
    OpenDirLays(s0, BLKN_ROOT, BLKN_ROOT, l, BLKN_ROOT, Walk(l, AtFirst).0);
    assert HeadsDir(NodesOf(s.files), BLKN_ROOT, BLKN_ROOT, l);
  }

  /** The reader finds in the image every inode of the builder. */
  lemma NodesOnDisk(disk: Disk, s: Fs)
    requires IsImage(disk, s) && Sound(s)
    ensures Steady(NodesOf(s.files), DiskNodes(disk), {}, true)
    ensures forall i :: i in s.files ==> i in DiskNodes(disk) && DiskNodes(disk)[i] == NodesOf(s.files)[i]
  {
    hide IsImage, Inv, ReadNode, NodeOf;
    forall i | i in s.files
      ensures i in DiskNodes(disk) && DiskNodes(disk)[i] == NodesOf(s.files)[i]
    {
      assert Filled(s.files[i]);
      ReadNodeIs(disk, s, i);
    }
  }

  /**
   * The image of any successful run, read from block 1 by following on-disk inodes, block maps and records only, is
   * laid out as the listing says: every name in order; every directory and symbolic link in a new inode; and every
   * regular file in a new inode, or in the one its number led to last.
   */
  lemma ImageLaid(disk: Disk, size: nat, info: seq<byte>, l: Listing)
    requires Build(size, info, l).Some? && |info| == INFO_SIZE && IsImage(disk, Build(size, info, l).value)
    ensures LaidDir(DiskNodes(disk), 1, 1, l, RootMet, Walk(l, AtFirst).0).Some?
  {
    hide IsImage, Inv, Steady, DiskNodes, Build, LaidItems, Walk;
    var s := Build(size, info, l).value;
    BuildLays(size, info, l);
    NodesOnDisk(disk, s);
    SteadyLess(NodesOf(s.files), DiskNodes(disk), Walk(l, AtFirst).0);
    ItemsKept(NodesOf(s.files), DiskNodes(disk), {}, BLKN_ROOT, 2, l, RootMet, Walk(l, AtFirst).0);
  }

  lemma SteadyLess(nodes: Nodes, nodes': Nodes, exact: bool)
    requires Steady(nodes, nodes', {}, true)
    ensures Steady(nodes, nodes', {}, exact)
  {
    forall i | i in nodes
      ensures i in nodes' && Stays(nodes[i], nodes'[i], false, exact)
    {
      assert Stays(nodes[i], nodes'[i], i in {}, true);
    }
  }

  /**
   * The image shows the source tree, with every file's bytes, every link's target and every directory's link count,
   * exactly if whenever the number of a regular file was met before, it led last to a regular file with the same bytes.
   */
  lemma ImageShowsIff(disk: Disk, size: nat, info: seq<byte>, l: Listing)
    requires Build(size, info, l).Some? && |info| == INFO_SIZE && IsImage(disk, Build(size, info, l).value)
    ensures ShowsDir(DiskNodes(disk), 1, 1, l) <==> Walk(l, AtFirst).0
  {
    hide IsImage, Build, DiskNodes;
    var nodes := DiskNodes(disk);
    ImageLaid(disk, size, info, l);
    assert Meant(nodes, RootMet.inode) == AtFirst;
    LaidShows(nodes, BLKN_ROOT, 2, l, RootMet, Walk(l, AtFirst).0);
  }

  /** On the image, too, an inode's link count is the number of directory entries that name it. */
  lemma LinkCountsAgree(disk: Disk, size: nat, info: seq<byte>, l: Listing, i: u32)
    requires Build(size, info, l).Some? && |info| == INFO_SIZE && IsImage(disk, Build(size, info, l).value)
    requires i in Build(size, info, l).value.files
    ensures var s := Build(size, info, l).value;
      && i in disk && ReadNode(disk, i).links == |NamesOf(s.files, i)| % 0x1_0000
      && forall d: u32, k: nat :: Names(s.files, d, k, i) <==>
        d in s.files && var n := ReadNode(disk, d); n.Dir? && k < |n.entries| && n.entries[k].ino == i
  {
    hide IsImage, Inv, ReadNode, Build;
    var s := Build(size, info, l).value;
    BuildLays(size, info, l);
    assert LinksRight(s.files, i);
    assert Filled(s.files[i]);
    ReadNodeIs(disk, s, i);
    forall d | d in s.files
      ensures ReadNode(disk, d) == NodeOf(s.files[d])
    {
      assert Filled(s.files[d]);
      ReadNodeIs(disk, s, d);
    }
  }
}
