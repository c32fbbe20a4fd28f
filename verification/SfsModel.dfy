/**
 * What the image builder keeps, seen from outside: which block belongs to whom, and for every inode the blocks
 * appended to it.  The builder's caches, hash chains and index arrays are in module `SfsBuilder`, whose methods
 * are proved against the functions below.  An operation that ends the program (`bug`, a failed `assert`) is `None`.
 */
module SfsModel {
  import opened Bytes
  import opened Options

  const L0_NBLKS := 12
  const BLK_NENTRY := 1024
  const L1_NBLKS := BLK_NENTRY + L0_NBLKS
  const LN_NBLKS := 32768
  const MAX_NBLKS := 524288
  const MAX_FNAME_LEN := 255
  const NAME_SIZE := 256
  const TYPE_FILE: u16 := 1
  const TYPE_DIR: u16 := 2
  const TYPE_LINK: u16 := 3
  const BLKN_ROOT: u32 := 1
  const BLKN_FREEMAP: u32 := 2

  /** A file name or link target: a C string without its terminator. */
  type CString = n: seq<byte> | forall k :: 0 <= k < |n| ==> n[k] != 0

  /** The one owner of a block. */
  datatype Owner =
    | Super
    | Freemap(k: nat)
    | Inode(ino: u32)
    | Index(ino: u32, j: nat)
    | Double(ino: u32)
    | Data(ino: u32, k: nat)

  /**
   * An inode: its link count, the blocks appended so far, what was written in each, its blocks of block numbers in
   * order, and its double-indirect block (0 when it has none).
   */
  datatype File = File(
    kind: u16,
    links: nat,
    blocks: seq<u32>,
    chunks: seq<seq<byte>>,
    index: seq<u32>,
    dbl: u32)

  /**
   * The whole builder.  `byHost` gives the inode that the latest host inode number stands for; `entry` is the static
   * name buffer of `add_entry`, which keeps the tails of earlier names; `info` is the superblock's label.
   */
  datatype Fs = Fs(
    ninos: u32,
    next: u32,
    owner: map<u32, Owner>,
    files: map<u32, File>,
    byHost: map<u64, u32>,
    entry: seq<byte>,
    info: seq<byte>)

  // ----- operations ---------------------------------------------------------------------------------------------

  function FirstFree(ninos: u32): nat {
    2 + (ninos + 32767) / 32768
  }

  function NewFile(kind: u16): File {
    File(kind, 0, [], [], [], 0)
  }

  function FirstOwner(n: u32): Owner {
    if n == 0 then Super else if n == BLKN_ROOT then Inode(BLKN_ROOT) else Freemap(n - BLKN_FREEMAP)
  }

  /** The state `create_sfs` sets up when the image is large enough. */
  function Create(ninos: u32, info: seq<byte>): Fs
    requires FirstFree(ninos) < ninos <= MAX_NBLKS
  {
    var next: u32 := FirstFree(ninos);
    var owner := map n: u32 | 0 <= n < next :: FirstOwner(n);
    Fs(ninos, next, owner, map[BLKN_ROOT := NewFile(TYPE_DIR)], map[0 := BLKN_ROOT], Zeros(NAME_SIZE), info)
  }

  function Alloc(s: Fs, who: Owner): Option<Fs> {
    if s.next < s.ninos then Some(s.(next := s.next + 1, owner := s.owner[s.next := who])) else None
  }

  function NewInode(s: Fs, hino: u64, kind: u16): Option<Fs> {
    var s1 :- Alloc(s, Inode(s.next));
    Some(s1.(files := s1.files[s.next := NewFile(kind)], byHost := s1.byHost[hino := s.next]))
  }

  function AddIndex(s: Fs, i: u32): Option<Fs>
    requires i in s.files
  {
    var f := s.files[i];
    var s1 :- Alloc(s, Index(i, |f.index|));
    Some(s1.(files := s1.files[i := f.(index := f.index + [s.next])]))
  }

  function AddDouble(s: Fs, i: u32): Option<Fs>
    requires i in s.files
  {
    var s1 :- Alloc(s, Double(i));
    Some(s1.(files := s1.files[i := s.files[i].(dbl := s.next)]))
  }

  /** How many index blocks a file of `n` blocks has. */
  function IndexCount(n: nat): nat {
    if n <= 12 then 0 else (n - 12 + 1023) / 1024
  }

  /** Makes room in the block map of `i` for one more block. */
  function Reserve(s: Fs, i: u32): Option<Fs>
    requires i in s.files
  {
    var f := s.files[i];
    var n := |f.blocks| + 1;
    var s1 :- if IndexCount(n) > 1 && f.dbl == 0 then AddDouble(s, i) else Some(s);
    if IndexCount(n) > |f.index| then AddIndex(s1, i) else Some(s1)
  }

  function Append(s: Fs, i: u32, chunk: seq<byte>, b: u32): Option<Fs>
    requires i in s.files
  {
    if |s.files[i].blocks| >= LN_NBLKS then None
    else
      var s1 :- Reserve(s, i);
      var f := s1.files[i];
      Some(s1.(files := s1.files[i := f.(blocks := f.blocks + [b], chunks := f.chunks + [chunk])]))
  }

  /** Takes a block for the next part of `i`, and appends it. */
  function AddBlock(s: Fs, i: u32, chunk: seq<byte>): Option<Fs>
    requires i in s.files
  {
    var s1 :- Alloc(s, Data(i, |s.files[i].blocks|));
    Append(s1, i, chunk, s.next)
  }

  function SetName(entry: seq<byte>, name: CString): (e: seq<byte>)
    requires |name| <= MAX_FNAME_LEN && |entry| == NAME_SIZE
    ensures |e| == NAME_SIZE
  {
    name + [0] + entry[|name| + 1..]
  }

  /** The 256 bytes of a 260-byte directory record that reach the image. */
  function Record(ino: u32, entry: seq<byte>): seq<byte>
    requires |entry| == NAME_SIZE
  {
    LE32(ino) + entry[..NAME_SIZE - 4]
  }

  function AddLinkTo(s: Fs, i: u32): Fs
    requires i in s.files
  {
    s.(files := s.files[i := s.files[i].(links := s.files[i].links + 1)])
  }

  /** The parts of the state an operation on entries relies on. */
  predicate Usable(s: Fs) {
    |s.entry| == NAME_SIZE && forall h :: h in s.byHost ==> s.byHost[h] in s.files
  }

  function AddEntry(s: Fs, dir: u32, i: u32, name: CString): (r: Option<Fs>)
    requires dir in s.files && i in s.files && Usable(s)
    ensures r.Some? ==> s.files.Keys == r.value.files.Keys && Usable(r.value)
  {
    if s.files[dir].kind != TYPE_DIR || |name| > MAX_FNAME_LEN then None
    else
      var e := SetName(s.entry, name);
      var s1 :- AddBlock(s.(entry := e), dir, Record(i, e));
      Some(AddLinkTo(s1, i))
  }

  /** `open_file`: one block for every 4096 bytes, the last one possibly short. */
  function OpenFile(s: Fs, i: u32, data: seq<byte>): (r: Option<Fs>)
    requires i in s.files
    ensures r.Some? ==> s.files.Keys == r.value.files.Keys && r.value.entry == s.entry && r.value.byHost == s.byHost
    decreases |data|
  {
    if data == [] then Some(s)
    else
      var n := FirstChunk(data);
      var s1 :- AddBlock(s, i, data[..n]);
      OpenFile(s1, i, data[n..])
  }

  /** How many bytes one `read` into a block-sized buffer returns. */
  function FirstChunk(data: seq<byte>): nat {
    if |data| < BLKSIZE then |data| else BLKSIZE
  }

  function OpenLink(s: Fs, i: u32, target: CString): (r: Option<Fs>)
    requires i in s.files
    ensures r.Some? ==> s.files.Keys == r.value.files.Keys && r.value.entry == s.entry && r.value.byHost == s.byHost
  {
    if |target| >= BLKSIZE then None else AddBlock(s, i, target)
  }

  // ----- the source tree ----------------------------------------------------------------------------------------

  /**
   * A directory as `readdir` and `lstat` present it: its entries in order, with host inode numbers.  Nothing here says
   * that equal numbers mean the same file.
   */
  datatype Listing =
    | End
    | Symlink(name: CString, hino: u64, target: CString, rest: Listing)
    | Regular(name: CString, hino: u64, data: seq<byte>, rest: Listing)
    | Directory(name: CString, hino: u64, sub: Listing, rest: Listing)
    | Special(name: CString, rest: Listing)

  const DOT: byte := 46

  /** `.`, `..` and every name that starts with a dot are passed over. */
  predicate Hidden(name: CString) {
    |name| > 0 && name[0] == DOT
  }

  function AddFile(s: Fs, dir: u32, name: CString, hino: u64, data: seq<byte>): (r: Option<Fs>)
    requires dir in s.files && Usable(s)
    ensures r.Some? ==> s.files.Keys <= r.value.files.Keys && Usable(r.value)
  {
    if hino in s.byHost then
      AddEntry(s, dir, s.byHost[hino], name)
    else
      var s1 :- NewInode(s, hino, TYPE_FILE);
      var s2 :- OpenFile(s1, s.next, data);
      AddEntry(s2, dir, s.next, name)
  }

  function AddLink(s: Fs, dir: u32, name: CString, hino: u64, target: CString): (r: Option<Fs>)
    requires dir in s.files && Usable(s)
    ensures r.Some? ==> s.files.Keys <= r.value.files.Keys && Usable(r.value)
  {
    var s1 :- NewInode(s, hino, TYPE_LINK);
    var s2 :- OpenLink(s1, s.next, target);
    AddEntry(s2, dir, s.next, name)
  }

  function AddDir(s: Fs, parent: u32, name: CString, hino: u64, sub: Listing): (r: Option<Fs>)
    requires parent in s.files && Usable(s)
    ensures r.Some? ==> s.files.Keys <= r.value.files.Keys && Usable(r.value)
    decreases sub, 3
  {
    if hino in s.byHost then None
    else
      var s1 :- NewInode(s, hino, TYPE_DIR);
      var s2 :- OpenDir(s1, s.next, parent, sub);
      AddEntry(s2, parent, s.next, name)
  }

  /** `open_dir`: the two entries every directory starts with, then the listed ones. */
  function OpenDir(s: Fs, dir: u32, parent: u32, l: Listing): (r: Option<Fs>)
    requires dir in s.files && parent in s.files && Usable(s)
    ensures r.Some? ==> s.files.Keys <= r.value.files.Keys && Usable(r.value)
    decreases l, 2
  {
    var s1 :- AddEntry(s, dir, dir, [DOT]);
    var s2 :- AddEntry(s1, dir, parent, [DOT, DOT]);
    OpenItems(s2, dir, l)
  }

  function OpenItems(s: Fs, dir: u32, l: Listing): (r: Option<Fs>)
    requires dir in s.files && Usable(s)
    ensures r.Some? ==> s.files.Keys <= r.value.files.Keys && Usable(r.value)
    decreases l, 1
  {
    if l.End? then Some(s)
    else
      var s1 :- OpenItem(s, dir, l);
      OpenItems(s1, dir, l.rest)
  }

  function OpenItem(s: Fs, dir: u32, l: Listing): (r: Option<Fs>)
    requires dir in s.files && Usable(s) && !l.End?
    ensures r.Some? ==> s.files.Keys <= r.value.files.Keys && Usable(r.value)
    decreases l, 0
  {
    if Hidden(l.name) then Some(s)
    else if |l.name| > MAX_FNAME_LEN then None
    else match l
      case Symlink(name, hino, target, _) => AddLink(s, dir, name, hino, target)
      case Regular(name, hino, data, _) => AddFile(s, dir, name, hino, data)
      case Directory(name, hino, sub, _) => AddDir(s, dir, name, hino, sub)
      case Special(_, _) => Some(s)
  }

  // ----- the whole program --------------------------------------------------------------------------------------

  /** The number of blocks of an image file, computed in 32 bits and then limited. */
  function ImageBlocks(size: nat): u32 {
    var ninos := size / 4096 % 0x1_0000_0000;
    if ninos > MAX_NBLKS then MAX_NBLKS else ninos
  }

  /** `create_sfs`, then the walk from the root; `None` if the program gives up anywhere. */
  function Build(size: nat, info: seq<byte>, l: Listing): Option<Fs> {
    var ninos := ImageBlocks(size);
    if FirstFree(ninos) >= ninos then None
    else OpenDir(Create(ninos, info), BLKN_ROOT, BLKN_ROOT, l)
  }
}
