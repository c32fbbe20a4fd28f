/** The three levels of a block map, as the words that the inode and its index blocks hold. */
module SfsBlockMap {
  import opened Bytes
  import opened Options
  import opened SfsModel
  import opened SfsOwnership

  /** The words of one index block. */
  datatype Row = Row(words: seq<u32>)

  function ZeroRow(): Row {
    Row(seq(BLK_NENTRY, _ => 0))
  }

  function WordOf(row: Row, t: nat): u32 {
    if t < |row.words| then row.words[t] else 0
  }

  function SetWord(row: Row, t: nat, v: u32): Row {
    if t < |row.words| then Row(row.words[t := v]) else row
  }

  function BlockOr0(f: File, k: nat): u32 {
    if k < |f.blocks| then f.blocks[k] else 0
  }

  function IndexOr0(f: File, j: nat): u32 {
    if j < |f.index| then f.index[j] else 0
  }

  /** Word `t` of index block `j`. */
  function IndexWord(f: File, j: nat, t: nat): u32 {
    BlockOr0(f, L0_NBLKS + 1024 * j + t)
  }

  function LastIndex(f: File): u32 {
    if f.index == [] then 0 else f.index[|f.index| - 1]
  }

  function DirectWords(f: File): seq<u32> {
    seq(L0_NBLKS, k requires 0 <= k => BlockOr0(f, k))
  }

  function IndexRow(f: File, j: nat): Row {
    Row(seq(BLK_NENTRY, t requires 0 <= t => IndexWord(f, j, t)))
  }

  function DoubleRow(f: File): Row {
    Row(seq(BLK_NENTRY, t requires 0 <= t => IndexOr0(f, t + 1)))
  }

  /** The memory of the index blocks holds the block map of `f`. */
  ghost predicate Mapped(f: File, mem: map<u32, Row>) {
    && (forall j {:trigger f.index[j]} :: 0 <= j < |f.index| ==> f.index[j] in mem && mem[f.index[j]] == IndexRow(f, j))
    && (f.dbl != 0 ==> f.dbl in mem && mem[f.dbl] == DoubleRow(f))
  }

  /** The numbers of the index blocks of `f`. */
  ghost predicate HasIndex(f: File, n: u32) {
    n in f.index || (f.dbl != 0 && n == f.dbl)
  }

  /** Index blocks that are not `f`'s have what they had. */
  ghost predicate Kept(f: File, mem: map<u32, Row>, mem': map<u32, Row>) {
    && (forall n {:trigger mem'[n]} {:trigger n in mem'} ::
          n in mem && !HasIndex(f, n) ==> n in mem' && mem'[n] == mem[n])
    && (forall n {:trigger n in mem'} :: n in mem' ==> n in mem || HasIndex(f, n))
  }

  ghost predicate Differ(f: File, j: nat, k: nat) {
    j < |f.index| && k < |f.index| ==> f.index[j] != f.index[k]
  }

  /** The index blocks of `f` are different blocks. */
  ghost predicate Apart(f: File) {
    && (forall j, k {:trigger Differ(f, j, k)} :: 0 <= j < k < |f.index| ==> Differ(f, j, k))
    && (f.dbl != 0 ==> f.dbl !in f.index)
    && 0 !in f.index
  }

  lemma OwnsApart(owner: map<u32, Owner>, i: u32, f: File)
    requires Owns(owner, i, f) && 0 in owner && owner[0] == Super
    ensures Apart(f)
  {
  }

  /** An inode whose index blocks are all others keeps its map. */
  lemma MappedElsewhere(f: File, g: File, mem: map<u32, Row>, mem': map<u32, Row>)
    requires Mapped(g, mem) && Kept(f, mem, mem') && forall n :: n in mem && HasIndex(g, n) ==> !HasIndex(f, n)
    ensures Mapped(g, mem')
  {
    forall j | 0 <= j < |g.index|
      ensures g.index[j] in mem' && mem'[g.index[j]] == IndexRow(g, j)
    {
      assert HasIndex(g, g.index[j]);
    }
  }

  /** Two inodes share no index block. */
  lemma IndexDisjoint(owner: map<u32, Owner>, i: u32, f: File, j: u32, g: File, n: u32)
    requires Owns(owner, i, f) && Owns(owner, j, g) && HasIndex(f, n) && HasIndex(g, n)
    ensures i == j
  {
  }

  // ----- what `Reserve` comes to for one file -------------------------------------------------------------------

  predicate NeedsDouble(f: File) {
    IndexCount(|f.blocks| + 1) > 1 && f.dbl == 0
  }

  predicate NeedsIndex(f: File) {
    IndexCount(|f.blocks| + 1) > |f.index|
  }

  /** How many blocks one more block of `f` takes besides itself. */
  function ReserveCount(f: File): nat {
    (if NeedsDouble(f) then 1 else 0) + if NeedsIndex(f) then 1 else 0
  }

  function Next(n: u32): u32 {
    (n + 1) % 0x1_0000_0000
  }

  /** `f` with its new index blocks numbered from `next`. */
  function ReservedFile(f: File, next: u32): (f': File)
    ensures f' == f.(index := f'.index, dbl := f'.dbl)
  {
    var f1 := if NeedsDouble(f) then f.(dbl := next) else f;
    if NeedsIndex(f) then f1.(index := f.index + [if NeedsDouble(f) then Next(next) else next]) else f1
  }

  lemma ReserveIs(s: Fs, i: u32)
    requires i in s.files && s.next <= s.ninos
    ensures Reserve(s, i).Some? <==> s.next + ReserveCount(s.files[i]) <= s.ninos
    ensures Reserve(s, i).Some? ==> var s' := Reserve(s, i).value;
      s'.next == s.next + ReserveCount(s.files[i]) && s'.files == s.files[i := ReservedFile(s.files[i], s.next)]
  {
  }

  /** A new index block is needed just when all present ones are full. */
  lemma NeedsIndexIff(f: File)
    requires Shaped(f)
    ensures NeedsIndex(f) <==> |f.blocks| == L0_NBLKS + 1024 * |f.index|
    ensures IndexCount(|f.blocks| + 1) == |f.index| + (if NeedsIndex(f) then 1 else 0) <= 33
  {
  }

  lemma ReservedCount(f: File, from: u32)
    requires Shaped(f)
    ensures |ReservedFile(f, from).index| == IndexCount(|f.blocks| + 1)
  {
    NeedsIndexIff(f);
  }

  /** The first twelve blocks need no index block. */
  lemma DirectReserve(f: File, from: u32)
    requires Shaped(f) && |f.blocks| < L0_NBLKS
    ensures ReserveCount(f) == 0 && ReservedFile(f, from) == f && f.index == [] && f.dbl == 0
  {
  }

  /** The indirect range: the indirect block is all that is ever taken. */
  lemma IndirectReserve(f: File, from: u32)
    requires Shaped(f) && L0_NBLKS <= |f.blocks| < L1_NBLKS
    ensures f.dbl == 0 && |f.index| <= 1 && ReserveCount(f) == 1 - |f.index|
    ensures ReservedFile(f, from) == if f.index == [] then f.(index := [from]) else f
    ensures f.index == [] ==> |f.blocks| == L0_NBLKS
  {
    NeedsIndexIff(f);
  }

  /** The double-indirect range: entry `q` of the double-indirect block is the last index block, or the next one. */
  lemma DoubleReserve(f: File, from: u32)
    requires Shaped(f) && L1_NBLKS <= |f.blocks| <= LN_NBLKS
    ensures var q := (|f.blocks| - L1_NBLKS) / 1024;
      && q < 32 && q + 1 <= |f.index| <= q + 2
      && (|f.index| == q + 1 ==> |f.blocks| == L0_NBLKS + 1024 * |f.index|)
      && (f.dbl == 0 ==> |f.index| == 1)
      && ReserveCount(f) == (if f.dbl == 0 then 1 else 0) + (if |f.index| == q + 1 then 1 else 0)
      && var f1 := if f.dbl == 0 then f.(dbl := from) else f;
      ReservedFile(f, from) ==
      if |f.index| == q + 1 then f1.(index := f.index + [if f.dbl == 0 then Next(from) else from]) else f1
  {
    NeedsIndexIff(f);
  }

  // ----- filling in the words -----------------------------------------------------------------------------------

  /** A fresh index block holds zeros, which is what an index block without entries should hold. */
  lemma IndexRowBeyond(f: File, j: nat)
    requires |f.blocks| <= L0_NBLKS + 1024 * j
    ensures IndexRow(f, j) == ZeroRow()
  {
  }

  /** Appending fills in one word: of the inode's own list, or of the last index block. */
  lemma DirectAppended(f: File, b: u32, chunk: seq<byte>)
    ensures DirectWords(Appended(f, b, chunk)) ==
            if |f.blocks| < L0_NBLKS then DirectWords(f)[|f.blocks| := b] else DirectWords(f)
  {
  }

  lemma SameDirect(f: File, g: File)
    requires f.blocks == g.blocks
    ensures DirectWords(f) == DirectWords(g)
  {
  }

  lemma IndexAppended(f: File, b: u32, chunk: seq<byte>, j: nat)
    ensures var n := |f.blocks| - L0_NBLKS;
      IndexRow(Appended(f, b, chunk), j) ==
      if n >= 0 && n / 1024 == j then SetWord(IndexRow(f, j), n % 1024, b) else IndexRow(f, j)
  {
  }

  lemma DoubleExtended(f: File, b: u32)
    requires 0 < |f.index| <= BLK_NENTRY
    ensures DoubleRow(f.(index := f.index + [b])) == SetWord(DoubleRow(f), |f.index| - 1, b)
  {
  }

  /** A new double-indirect block: all zeros, as no second index block exists yet. */
  lemma DoubleMapped(f: File, mem: map<u32, Row>, b: u32)
    requires Mapped(f, mem) && Apart(f) && b != 0 && b !in mem && f.dbl == 0 && |f.index| <= 1
    ensures var f' := f.(dbl := b); Apart(f') && Mapped(f', mem[b := ZeroRow()]) && Kept(f', mem, mem[b := ZeroRow()])
  {
    assert DoubleRow(f.(dbl := b)) == ZeroRow();
  }

  /** The first index block. */
  lemma FirstIndexMapped(f: File, mem: map<u32, Row>, b: u32)
    requires Mapped(f, mem) && b != 0 && b !in mem && f.index == [] && f.dbl == 0 && |f.blocks| <= L0_NBLKS
    ensures var f', mem' := f.(index := [b]), mem[b := ZeroRow()]; Apart(f') && Mapped(f', mem') && Kept(f', mem, mem')
  {
    IndexRowBeyond(f.(index := [b]), 0);
  }

  /** A further index block, entered in the double-indirect block. */
  lemma NextIndexMapped(f: File, mem: map<u32, Row>, b: u32)
    requires Mapped(f, mem) && Apart(f) && b != 0 && b !in mem && f.dbl != 0
    requires 0 < |f.index| <= BLK_NENTRY && |f.blocks| <= L0_NBLKS + 1024 * |f.index|
    ensures var row := SetWord(mem[f.dbl], |f.index| - 1, b);
      var f', mem' := f.(index := f.index + [b]), mem[b := ZeroRow()][f.dbl := row];
      Apart(f') && Mapped(f', mem') && Kept(f', mem, mem')
  {
    var f', mem' := f.(index := f.index + [b]), mem[b := ZeroRow()][f.dbl := SetWord(mem[f.dbl], |f.index| - 1, b)];
    IndexRowBeyond(f', |f.index|);
    DoubleExtended(f, b);
    forall j, k | 0 <= j < k < |f'.index|
      ensures Differ(f', j, k)
    {
      assert f.index[j] in mem && (k < |f.index| ==> Differ(f, j, k));
    }
    forall j | 0 <= j < |f'.index|
      ensures f'.index[j] in mem' && mem'[f'.index[j]] == IndexRow(f', j)
    {
      if j < |f.index| {
        assert f.index[j] in mem && f.index[j] in f.index;
        assert IndexRow(f', j) == IndexRow(f, j);
      }
    }
  }

  /** A block entered in the last index block. */
  lemma BlockMapped(f: File, mem: map<u32, Row>, t: nat, b: u32, chunk: seq<byte>, mem': map<u32, Row>)
    requires Mapped(f, mem) && Apart(f) && L0_NBLKS <= |f.blocks| && |f.index| == IndexCount(|f.blocks| + 1)
    requires t == (|f.blocks| - L0_NBLKS) % 1024
    requires LastIndex(f) in mem && mem' == mem[LastIndex(f) := SetWord(mem[LastIndex(f)], t, b)]
    ensures var f' := Appended(f, b, chunk); Apart(f') && Mapped(f', mem') && Kept(f', mem, mem')
  {
    var last, f' := |f.index| - 1, Appended(f, b, chunk);
    var n := f.index[last];
    assert n in mem;
    assert (|f.blocks| - L0_NBLKS) / 1024 == last;
    forall j | 0 <= j < |f'.index|
      ensures f'.index[j] in mem' && mem'[f'.index[j]] == IndexRow(f', j)
    {
      assert f.index[j] in mem;
      IndexAppended(f, b, chunk, j);
      assert j != last ==> Differ(f, j, last);
    }
    forall j, k | 0 <= j < k < |f'.index|
      ensures Differ(f', j, k)
    {
      assert Differ(f, j, k);
    }
    assert DoubleRow(f') == DoubleRow(f);
    assert n in f.index;
  }

  lemma KeptSame(f: File, mem: map<u32, Row>)
    ensures Kept(f, mem, mem)
  {
  }

  lemma KeptTwice(f: File, f': File, mem: map<u32, Row>, mem1: map<u32, Row>, mem2: map<u32, Row>)
    requires Kept(f, mem, mem1) && Kept(f', mem1, mem2)
    requires f.index <= f'.index && (f.dbl != 0 ==> f'.dbl == f.dbl)
    ensures Kept(f', mem, mem2)
  {
  }

  lemma DirectMapped(f: File, mem: map<u32, Row>, b: u32, chunk: seq<byte>)
    requires Mapped(f, mem) && f.index == [] && f.dbl == 0
    ensures Mapped(Appended(f, b, chunk), mem)
  {
  }

  ghost predicate AllMapped(files: map<u32, File>, mem: map<u32, Row>) {
    forall i {:trigger Mapped(files[i], mem)} :: i in files ==> Mapped(files[i], mem)
  }

  /** Changing the block map of one inode leaves those of all others. */
  lemma AllMappedAfter(s: Fs, s': Fs, i: u32, mem: map<u32, Row>, mem': map<u32, Row>)
    requires i in s.files && i in s'.files && s'.files == s.files[i := s'.files[i]] && Inv(s')
    requires AllMapped(s.files, mem) && Mapped(s'.files[i], mem') && Kept(s'.files[i], mem, mem')
    ensures AllMapped(s'.files, mem')
  {
    var f := s'.files[i];
    assert Owns(s'.owner, i, f);
    forall k | k in s'.files
      ensures Mapped(s'.files[k], mem')
    {
      if k != i {
        var g := s.files[k];
        assert Mapped(g, mem);
        assert Owns(s'.owner, k, s'.files[k]);
        forall n | n in mem && HasIndex(g, n)
          ensures !HasIndex(f, n)
        {
          if HasIndex(f, n) { IndexDisjoint(s'.owner, i, f, k, g, n); }
        }
        MappedElsewhere(f, g, mem, mem');
      }
    }
  }

  ghost predicate OwnedAsIndex(owner: map<u32, Owner>, n: u32) {
    n in owner && (owner[n].Index? || owner[n].Double?)
  }

  lemma IndexTaken(s: Fs, i: u32, n: u32)
    requires Inv(s) && i in s.files && HasIndex(s.files[i], n)
    ensures OwnedAsIndex(s.owner, n)
  {
    assert Owns(s.owner, i, s.files[i]);
  }

  /** What `AddBlock` comes to. */
  lemma AddBlockIs(s: Fs, i: u32, chunk: seq<byte>)
    requires i in s.files && Inv(s)
    ensures var f := s.files[i];
      AddBlock(s, i, chunk).Some? <==> |f.blocks| < LN_NBLKS && s.next + 1 + ReserveCount(f) <= s.ninos
    ensures AddBlock(s, i, chunk).Some? ==>
      var f, s' := s.files[i], AddBlock(s, i, chunk).value;
      && s'.next == s.next + 1 + ReserveCount(f)
      && s'.files == s.files[i := Appended(ReservedFile(f, s.next + 1), s.next, chunk)]
      && s' == s.(next := s'.next, owner := s'.owner, files := s'.files)
  {
    if s.next < s.ninos {
      var s1 := Alloc(s, Data(i, |s.files[i].blocks|)).value;
      ReserveIs(s1, i);
    }
  }
}
