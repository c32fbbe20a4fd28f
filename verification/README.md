# Models and proofs for the ucore labs' tools and libraries

A Dafny model of the parts of the repository that do not need the machine: the builder of SFS disk images, the two
intrusive tree libraries and the ring list, the formatter with its number parser, the shell's tokenizer, and the
random number generator. Code that works in place is modelled by classes, arrays and methods that work in place; each
method is proved against a function of its inputs or of the old state, and the theorems are about those functions.
`dafny verify dfyconfig.toml` checks everything.

## The files

- **Image builder** (`labcode/lab8/tools/mksfs.c`). `SfsModel` has the builder's state as a value (the bump counter, who
  owns each block, every inode's appended blocks and index blocks) and every operation on it; a `bug` or failed
  `assert` is `None`. `SfsOwnership` has the invariant of all runs. `SfsBlockMap` has the three levels of a block map.
  `SfsImage` says what each owner keeps in its block. `SfsCaches` has the hash chains, with the index blocks hanging
  under `hash32(0)`. `SfsBuilder` is the program itself: class `Sfs` with its counters, tables, cached index blocks and
  disk, each method proved to do what the model's operation does, success and failure alike. `SfsReadback` and
  `SfsTree` read a finished image with nothing but the image and prove what they find, and when it is the source tree.
  `SfsCapacity` computes when the builder gives up, and `SfsNames` says which names are entered. The reader's
  numbers are written out and none is taken from the builder.
- **Trees** (`skew_heap.h`, `binarytree.h`). `LinkedTree` has entries with parent links and what it means that they
  hang as a given tree. `SkewHeap` has merge, insert and removal of any entry, order, sorted draining, and the
  amortised bound. `BinaryTree` has adding and deleting subtrees.
- **Rings** (`list.h`). `RingList` works on families of disjoint rings, each a sequence.
- **Generator** (`rand.c`). `Rand` proves the full period for every modulus 2^m and the exact period of the output.
- **Formatter** (`printfmt.c`, `string.c`). `Numbers` has digits, padding and `strtol`; `Format` has the interpreter,
  the bounded buffer and `vsnprintf`. An argument is a 64-bit word of an unending list; a pointer argument leads
  to a string through a map of memory.
- **Shell** (`sh.c`). `Shell` has a lexer on the text and the in-place tokenizer.
- `Bits`, `Bytes` and `Option` are small helpers.

## What the proofs found

- Index blocks are chained under `hash32(0)` and looked up under their own number
  (`labcode/lab8/tools/mksfs.c:187` and line 194). The lookup would fail for almost all of them; it is never reached, as
  the cached pointers are always current (`SfsBuilder.Sfs.PointersCurrent`, `SfsCaches.SearchSucceedsIff`).
- Of a 260-byte directory record 256 bytes are written (`labcode/lab8/tools/mksfs.c:434`), so names of 253 to 255 bytes
  are cut to 252 on the image (`SfsReadback.NameSurvivesIff`).
- The size of the image file is divided and cut to 32 bits before it is limited (`labcode/lab8/tools/mksfs.c:227`); the
  model does the same. Link counts wrap at 16 bits.
- `rand` never returns 0: `do_div` does not put its base in parentheses (`labcode/lab8/libs/riscv.h:234-240`), so the
  result is in [1, RAND_MAX], where the comment says [0, RAND_MAX].
- `printnum`'s comment allows base 1, for which it would not end; no caller uses it, and the model starts at 2.
- The comment above `vprintfmt` keeps padding to numbers; strings are padded too, and the flag `-` fills numbers with
  minuses on the left.
- A kernel address, or any other number beyond LONG_MAX, does not read back from `%p`, `%lx`, `%lu` or `%lo`, because
  `strtol` returns a `long` (`Format.KernelAddressLost`). That LONG_MIN reads back from `%ld` is
  not promised by C either, though a machine that wraps would do it.
- `%e` with INT_MIN passes the test against MAXERROR and indexes the table of messages with a negative number
  (`labcode/lab8/libs/printfmt.c:210-214`; `Format.PrintBuf.PrintError`, `Format.OneErrorDefinedIff`).
- The builder recognises a file by `st_ino` alone, which is unique on one device only. A regular file whose number was
  met before is entered as a link to whatever that number led to last, be it a file with other bytes or a symbolic
  link, and then its entry does not lead to its bytes (`SfsTree.ImageShowsIff`, `SfsCapacity.FileNumberReused`,
  `SfsCapacity.LinkNumberReused`). A directory whose number was met before ends the run.
- The operand of `<` or `>` is opened before the next call ends it, so it runs on to the end of the text unless it is
  the last word (`Shell.OperandIsWordIff`).

## Model

| member | source | states |
|---|---|---|
| `SfsBuilder.Sfs.CreateImg` | labcode/lab8/tools/mksfs.c:545-559 | the whole run succeeds exactly when the model's walk does and writes exactly the image the model describes; that image is laid out as the source tree, and shows it if and only if one pass over the listing finds no regular file whose number was used for something else |
| `SfsTree.ImageLaid` | labcode/lab8/tools/mksfs.c:287-349 | for every source tree the builder accepts, reading the finished image from block 1 through on-disk inodes, block maps and records finds the listed names in order, `.` and `..`, every link's target, and every directory and link in a new inode; a regular file is in a new inode with its bytes, or, if its number was met before, in the inode this number led to last |
| `SfsTree.ImageShowsIff` | labcode/lab8/tools/mksfs.c:449-457 | exactly when, for every source tree the builder accepts, the image shows it, with all file bytes, link targets and link counts 2 + subdirectories: if and only if every regular file whose number was met before has the bytes of a regular file that this number led to last |
| `SfsTree.LaidShows` | labcode/lab8/tools/mksfs.c:449-464 | whatever image is laid out as the listing, it shows the listing if and only if that pass finds nothing wrong |
| `SfsCapacity.LinkNumberReused` | labcode/lab8/tools/mksfs.c:449-464 | a symbolic link and then a regular file with the same number: the image is made, and the file's entry leads to the link |
| `SfsCapacity.FileNumberReused` | labcode/lab8/tools/mksfs.c:449-457 | two regular files with the same number and different bytes: the image is made, and the second entry leads to the bytes of the first |
| `SfsCapacity.BuildIff` | labcode/lab8/tools/mksfs.c:223-254 | for every image size and source tree: the builder does not give up if and only if the freemap fits, all limits are kept, no directory's number was met before and the computed number of blocks fits; and then exactly that many are taken |
| `SfsCapacity.OpenDirSame` | labcode/lab8/tools/mksfs.c:466-514 | walking a directory adds to no other inode that was there before, and changes no inode's kind |
| `SfsTree.LinkCountsAgree` | labcode/lab8/tools/mksfs.c:428-437 | on the image of every source tree the builder accepts the link count of every inode is, modulo 65536, the number of directory entries that name it |
| `SfsNames.DottedPassedOver` | labcode/lab8/tools/mksfs.c:480-482 | putting an item whose name begins with byte 46 anywhere into the source tree changes nothing that the builder does, success included |
| `SfsNames.NoDottedEntry` | labcode/lab8/tools/mksfs.c:475-512 | on the image of any source tree no inode that is a directory has an entry, behind the first two, whose name begins with byte 46 |
| `SfsNames.EveryNameEntered` | labcode/lab8/tools/mksfs.c:475-512 | on the image of any source tree every file, link and directory whose name begins with another byte has its entry, in order and at every depth, and there are no other entries |
| `SfsReadback.ResolveIs` | labcode/lab8/tools/mksfs.c:397-426 | block `k` of a file, resolved through direct, indirect and double-indirect blocks on the image, is the block of the `k`-th append and holds what was written for it |
| `SfsReadback.ReadBytesIs` | labcode/lab8/tools/mksfs.c:516-530 | all blocks of a file, cut to its on-disk size, are the bytes that were appended |
| `SfsReadback.EntryReadsBack` | labcode/lab8/tools/mksfs.c:428-436 | whatever the static entry held before, a record reads back as its inode number and the first 252 bytes of the name |
| `SfsReadback.NameSurvivesIff` | labcode/lab8/tools/mksfs.c:428-436 | a name of up to 255 bytes reads back unchanged exactly if it has at most 252 bytes |
| `SfsReadback.FreemapAgrees` | labcode/lab8/tools/mksfs.c:312-334 | the freemap bit of a block is set exactly if the block is below `ninos` and nobody owns it, which is from `next_ino` on |
| `SfsReadback.CountFreeIs` | labcode/lab8/tools/mksfs.c:316-334 | the freemap marks as many blocks below `n` as lie from `next_ino` on |
| `SfsReadback.SuperAgrees` | labcode/lab8/tools/mksfs.c:335-335 | the superblock holds the magic number, the number of blocks, and as unused blocks the number of set freemap bits |
| `SfsReadback.InodeOnDisk` | labcode/lab8/tools/mksfs.c:307-310 | parsing an inode's block gives its size, type, link count, block count and pointers |
| `SfsReadback.ParseEncoded` | labcode/lab8/tools/mksfs.c:134-142 | parsing the 68 bytes of an on-disk inode undoes laying them out |
| `SfsOwnership.OneOwner` | labcode/lab8/tools/mksfs.c:173-212 | in every state of every run no block is held in two places |
| `SfsOwnership.HeldIffTaken` | labcode/lab8/tools/mksfs.c:173-180 | the blocks held by the superblock, freemap, inodes, index blocks and data are exactly those below `next_ino` |
| `SfsOwnership.CreateInv` | labcode/lab8/tools/mksfs.c:223-254 | the initial state satisfies the invariant: block 0, the root, and the freemap are owned |
| `SfsOwnership.AddBlockInv` | labcode/lab8/tools/mksfs.c:397-426 | taking a block and appending it, with whatever index blocks that needs, keeps ownership and the shape of every block map |
| `SfsOwnership.NewInodeInv` | labcode/lab8/tools/mksfs.c:201-212 | a new inode keeps the invariant |
| `SfsOwnership.AddEntryInv` | labcode/lab8/tools/mksfs.c:428-437 | a new directory entry keeps the invariant |
| `SfsOwnership.OpenFileInv` | labcode/lab8/tools/mksfs.c:516-530 | filling a file keeps the invariant |
| `SfsOwnership.OpenDirInv` | labcode/lab8/tools/mksfs.c:466-514 | the recursive walk over any source tree keeps the invariant |
| `SfsOwnership.AddBlockKeepsOwners` | labcode/lab8/tools/mksfs.c:397-426 | no block ever changes its owner |
| `SfsBuilder.Sfs.PointersCurrent` | labcode/lab8/tools/mksfs.c:382-395 | the cached pointers `l1` and `l2` always name the last index block and the double-indirect block in use |
| `SfsCaches.SearchSucceedsIff` | labcode/lab8/tools/mksfs.c:182-199 | since all index blocks hang in the chain of `hash32(0)`, a search by number succeeds exactly for cached numbers that hash to 0 |
| `SfsBuilder.Sfs.AllocIno` | labcode/lab8/tools/mksfs.c:173-180 | a block number is given out exactly while `next_ino < ninos`; `unused_blocks + next_ino` stays `ninos` |
| `SfsBuilder.Sfs.AllocCacheBlock` | labcode/lab8/tools/mksfs.c:182-190 | a new zeroed index block, chained under the number asked for, not under its own |
| `SfsBuilder.Sfs.SearchCacheBlock` | labcode/lab8/tools/mksfs.c:192-199 | finds an index block exactly if it is cached and its number hashes to 0 |
| `SfsBuilder.Sfs.UpdateCache` | labcode/lab8/tools/mksfs.c:382-395 | a zero number takes a new index block; a current pointer is kept; otherwise the search decides, and only then is `looked` true |
| `SfsBuilder.Sfs.UpdateSlot` | labcode/lab8/tools/mksfs.c:415-422 | `update_cache` on a word of the double-indirect block: never searches, extends the index exactly at an index block's first use |
| `SfsBuilder.Sfs.AppendBlock` | labcode/lab8/tools/mksfs.c:397-426 | never searches; succeeds exactly if the file is not full and its new index blocks fit; enters the number in the block map and counts block and size |
| `SfsBlockMap.NextIndexMapped` | labcode/lab8/tools/mksfs.c:415-422 | a further index block entered in the double-indirect block extends the map by one empty row and touches no other index block |
| `SfsBlockMap.BlockMapped` | labcode/lab8/tools/mksfs.c:409-422 | writing one word of the last index block appends to the map and touches no other index block |
| `SfsBlockMap.AllMappedAfter` | labcode/lab8/tools/mksfs.c:397-426 | appending to one inode leaves the block maps of all other inodes as they are |
| `SfsBlockMap.AddBlockIs` | labcode/lab8/tools/mksfs.c:397-426 | exactly when a block can be appended, and what it changes |
| `SfsBuilder.Sfs.AllocCacheInode` | labcode/lab8/tools/mksfs.c:201-212 | a new zeroed inode record at the head of its host number's chain |
| `SfsBuilder.Sfs.SearchCacheInode` | labcode/lab8/tools/mksfs.c:214-221 | finds the latest inode made for a host number, if there is one |
| `SfsCaches.InodeChained` | labcode/lab8/tools/mksfs.c:201-221 | chaining a new record keeps every search result and makes the new one found |
| `SfsBuilder.Sfs.CreateSfs` | labcode/lab8/tools/mksfs.c:223-254 | fails exactly if the freemap leaves no room; else sets up the model's initial state |
| `SfsBuilder.Sfs.WriteBlock` | labcode/lab8/tools/mksfs.c:287-300 | one block of the image becomes the data padded with zeros; no other changes |
| `SfsBuilder.Sfs.AddBlock` | labcode/lab8/tools/mksfs.c:516-530 | taking, writing and appending a block: refines the model's step, success included |
| `SfsBuilder.Sfs.NewInode` | labcode/lab8/tools/mksfs.c:201-212 | refines the model's new inode |
| `SfsBuilder.Sfs.AddEntry` | labcode/lab8/tools/mksfs.c:428-437 | refines the model's directory entry |
| `SfsBuilder.Sfs.OpenFile` | labcode/lab8/tools/mksfs.c:516-530 | refines the model's reading of a file in blocks; only the last is short |
| `SfsBuilder.Sfs.OpenLink` | labcode/lab8/tools/mksfs.c:532-542 | refines the model's link; a target of 4096 bytes or more ends the run |
| `SfsBuilder.Sfs.AddFile` | labcode/lab8/tools/mksfs.c:449-457 | refines the model: a known host inode gets a further entry only |
| `SfsBuilder.Sfs.AddLink` | labcode/lab8/tools/mksfs.c:459-464 | refines the model: every symbolic link gets its own inode |
| `SfsBuilder.Sfs.AddDir` | labcode/lab8/tools/mksfs.c:439-447 | refines the model: a directory seen twice ends the run |
| `SfsBuilder.Sfs.OpenDir` | labcode/lab8/tools/mksfs.c:466-514 | refines the model: `.`, `..`, then the listed entries |
| `SfsBuilder.Sfs.OpenItem` | labcode/lab8/tools/mksfs.c:475-512 | refines the model: hidden names are passed over, long names end the run, other kinds of files are skipped |
| `SfsBuilder.Sfs.FreemapBlock` | labcode/lab8/tools/mksfs.c:316-333 | one block of the freemap, built bit by bit, has a set bit exactly for each free block it stands for |
| `SfsBuilder.SetBits` | labcode/lab8/tools/mksfs.c:329-331 | setting bits one at a time in an array of words gives the words of the whole range |
| `Bits.SetBitSets` | labcode/lab8/tools/mksfs.c:329-331 | the word with one more bit set has that bit and its old ones, and no others |
| `Bits.BitIs` | labcode/lab8/tools/mksfs.c:329-331 | bit c of a word counts 2^c |
| `Bytes.LowFirst` | labcode/lab8/tools/mksfs.c:287-300 | numbers lie on the image with the low byte first |
| `SfsBuilder.Sfs.WriteFreemap` | labcode/lab8/tools/mksfs.c:312-334 | writes the right content to exactly the freemap blocks and spoils no other block that is right |
| `SfsBuilder.Sfs.FlushBucket` | labcode/lab8/tools/mksfs.c:337-348 | all index blocks and inodes in one bucket get their right content; no other right block is spoiled |
| `SfsBuilder.Sfs.CloseSfs` | labcode/lab8/tools/mksfs.c:312-349 | afterwards every owned block holds its owner's content, and no other block was ever written |
| `SfsTree.OpenDirLays` | labcode/lab8/tools/mksfs.c:466-514 | for every listing, entering a directory lays out its entries and everything below it, adds to no other directory, and, when no number is misused, changes no other link count but the one for `..` |
| `SfsTree.OpenItemsLay` | labcode/lab8/tools/mksfs.c:475-512 | each listed entry stays laid out while the later ones are added |
| `SfsTree.ItemKept` | labcode/lab8/tools/mksfs.c:466-514 | what is finished below a directory stays finished while that directory grows |
| `SfsTree.FileLaid` | labcode/lab8/tools/mksfs.c:449-457 | a regular file is entered with all its bytes, or as a further link to whatever its number led to last |
| `SfsTree.LinkLaid` | labcode/lab8/tools/mksfs.c:459-464 | a symbolic link is entered with its target, in an inode of its own |
| `SfsTree.EnteredSound` | labcode/lab8/tools/mksfs.c:428-437 | a new entry keeps all link counts equal to the number of entries naming the inode |
| `SfsTree.OpenFileFills` | labcode/lab8/tools/mksfs.c:516-530 | the blocks of a file hold all its bytes in order, only the last block short |
| `SfsCapacity.DirNeeds` | labcode/lab8/tools/mksfs.c:466-514 | a directory is walked without giving up if and only if its whole subtree keeps the limits and fits |
| `SfsCapacity.OpenFileNeeds` | labcode/lab8/tools/mksfs.c:516-530 | a file is filled if and only if its blocks and index blocks fit, and takes exactly those |
| `SkewHeap.MergeHeaps` | labcode/lab8/libs/skew_heap.h:29-59 | merges two disjoint linked heaps in place: all child and parent links are those of the merged tree, in the counted number of steps; the root keeps its own parent link |
| `SkewHeap.HeapInit` | labcode/lab8/libs/skew_heap.h:23-27 | an entry without links is a heap of one |
| `SkewHeap.HeapInsert` | labcode/lab8/libs/skew_heap.h:61-67 | inserts in place; links, root parent and step count are those of the model |
| `SkewHeap.HeapRemove` | labcode/lab8/libs/skew_heap.h:69-85 | removes any entry, root or not, in place; links, root parent and step count are those of the model, and the removed entry is left alone |
| `SkewHeap.MergeEntries` | labcode/lab8/libs/skew_heap.h:29-59 | a merge holds exactly the entries of both heaps, once each |
| `SkewHeap.MergeOrdered` | labcode/lab8/libs/skew_heap.h:29-59 | a merge of heap-ordered trees is heap ordered, for any total preorder |
| `SkewHeap.RemovedEntries` | labcode/lab8/libs/skew_heap.h:69-85 | removal takes out exactly the one entry |
| `SkewHeap.RemovedOrdered` | labcode/lab8/libs/skew_heap.h:69-85 | removal of any entry keeps the heap order |
| `SkewHeap.DrainedSorted` | labcode/lab8/libs/skew_heap.h:69-85 | removing the root again and again, each time by the removal of an arbitrary entry, yields every entry once, in sorted order |
| `SkewHeap.MergeLeast` | labcode/lab8/libs/skew_heap.h:29-59 | when the comparator compares integer keys, the root of a merge has the least key of both heaps, and smaller keys stay above larger ones |
| `SkewHeap.ApplyLeast` | labcode/lab8/libs/skew_heap.h:61-85 | the same after an insert and after the removal of any entry |
| `SkewHeap.RunLeast` | labcode/lab8/libs/skew_heap.h:61-85 | after any run from the empty heap the root has the least key of what the heap holds |
| `SkewHeap.DrainedAscends` | labcode/lab8/libs/skew_heap.h:69-85 | removing the root again and again yields the keys in ascending order |
| `SkewHeap.StepsAre` | labcode/lab8/libs/skew_heap.h:29-59 | what is counted as steps: the nodes taken from the tops of the two right spines until one is used up, which become the top of the left spine |
| `SkewHeap.Log2Is` | labcode/lab8/libs/skew_heap.h:29-59 | the logarithm in the bounds is the one to base 2, rounded down |
| `SkewHeap.RootRemoved` | labcode/lab8/libs/skew_heap.h:69-85 | removing the root leaves the merge of its subtrees, with one entry fewer |
| `SkewHeap.RunKeepsHeap` | labcode/lab8/libs/skew_heap.h:61-85 | after any run of inserts and removals the heap holds what it should, once each, in heap order |
| `SkewHeap.MergeAmortised` | labcode/lab8/libs/skew_heap.h:29-59 | steps plus the change in the number of right-heavy nodes are at most 2 (log n1 + log n2 + 2) |
| `SkewHeap.MergeLightCost` | labcode/lab8/libs/skew_heap.h:29-59 | the same bound by the light nodes of both right spines |
| `SkewHeap.PotentialReplace` | labcode/lab8/libs/skew_heap.h:69-85 | putting a tree with one entry fewer in place of a subtree anywhere below adds at most log n right-heavy nodes above it |
| `SkewHeap.RunBound` | labcode/lab8/libs/skew_heap.h:61-85 | every run of n inserts and removals, of any entries, from the empty heap takes at most n (5 log n + 4) steps |
| `SkewHeap.RunFromEmpty` | labcode/lab8/libs/skew_heap.h:61-85 | any list of inserts and removals made in place from the empty heap: all links are those of the run, at most n (5 log n + 4) steps are taken, and for a total preorder the heap holds what it should in heap order |
| `SkewHeap.RunCalls` | labcode/lab8/libs/skew_heap.h:61-85 | the same calls from any heap, step for step |
| `LinkedTree.Spliced` | labcode/lab8/libs/skew_heap.h:77-83 | leading the one link to a subtree elsewhere replaces that subtree and nothing else |
| `LinkedTree.ReplaceEntries` | labcode/lab8/libs/skew_heap.h:69-85 | replacing a subtree takes out its entries and puts in the others |
| `LinkedTree.LeadsBack` | labcode/lab2/libs/binarytree.h:69-89 | link by link: every child of an entry in the tree leads back to it, and every entry but the top is a child of its parent |
| `BinaryTree.AddLeft` | labcode/lab2/libs/binarytree.h:69-74 | hangs a tree to the left of an entry; the rest of the tree stays in order |
| `BinaryTree.AddRight` | labcode/lab2/libs/binarytree.h:84-89 | hangs a tree to the right of an entry; the rest of the tree stays in order |
| `BinaryTree.Init` | labcode/lab2/libs/binarytree.h:41-46 | an entry without links is a tree of one |
| `BinaryTree.Del` | labcode/lab2/libs/binarytree.h:98-112 | leaves every entry of the subtree without links, cuts the one link above it, and changes nothing else |
| `BinaryTree.DelInit` | labcode/lab2/libs/binarytree.h:120-124 | the same, and the entry is then empty |
| `BinaryTree.DeletedFrom` | labcode/lab2/libs/binarytree.h:98-112 | what `Del` leaves of the whole tree is that tree without the subtree, still in order |
| `BinaryTree.DelBelow` | labcode/lab2/libs/binarytree.h:98-112 | deleting an entry below the top of a tree in memory: the whole tree is then linked as that tree without the subtree, and the entries of the subtree have no links |
| `RingList.InsertBetween` | labcode/lab8/libs/list.h:141-146 | four assignments put an entry between two neighbours of a ring |
| `RingList.JoinNeighbours` | labcode/lab8/libs/list.h:154-158 | two assignments drop the entry between two neighbours |
| `RingList.ListInit` | labcode/lab8/libs/list.h:40-43 | an entry becomes a ring of its own; all other rings are as before |
| `RingList.ListAddBefore` | labcode/lab8/libs/list.h:66-69 | the ring gains the entry before the given one; all other rings are as before |
| `RingList.ListAddAfter` | labcode/lab8/libs/list.h:79-82 | the ring gains the entry after the given one; all other rings are as before |
| `RingList.ListDel` | labcode/lab8/libs/list.h:91-94 | the ring loses exactly the given entry; all other rings are as before |
| `RingList.ListDelInit` | labcode/lab8/libs/list.h:102-106 | the ring loses the entry, which becomes a ring of its own |
| `RingList.EmptyIff` | labcode/lab8/libs/list.h:112-115 | a head is empty exactly if it is alone in its ring |
| `RingList.Forward` | labcode/lab8/libs/list.h:121-124 | following `next` from a head until it comes back reads the ring |
| `RingList.Backward` | labcode/lab8/libs/list.h:130-133 | following `prev` from a head reads the others in reverse |
| `RingList.Rotated` | labcode/lab8/libs/list.h:17-19 | a ring may be read from any of its entries |
| `RingList.RunAll` | labcode/lab8/libs/list.h:40-106 | any list of calls, made one after the other on linked memory: `next` and `prev` of every entry are then those of the rings the operations come to, and no entry outside was touched |
| `RingList.RunAndRead` | labcode/lab8/libs/list.h:40-133 | after any list of calls, following `next` from a head reads its ring as the operations left it, and following `prev` the others in reverse |
| `Rand.Generator.Rand` | labcode/lab8/libs/rand.c:11-16 | the new state is 25214903917 times the old plus 11 modulo 2^48, and the number returned is one more than its top 36 bits modulo 2147483647 |
| `Rand.Generator.Srand` | labcode/lab8/libs/rand.c:22-25 | the seed becomes the state |
| `Rand.RandPeriod` | labcode/lab8/libs/rand.c:11-16 | from any seed, the numbers returned repeat after p calls if and only if p is a multiple of 2^48 |
| `Rand.OneCycle` | labcode/lab8/libs/rand.c:11-16 | the states form one cycle: every state is reached from every other within 2^48 calls |
| `Rand.StateReturnsIff` | labcode/lab8/libs/rand.c:11-16 | a state comes back after n calls if and only if n is a multiple of 2^48 |
| `Rand.ReturnsIff` | labcode/lab8/libs/rand.c:13-13 | for every modulus 2^m: n steps are the identity modulo 2^m if and only if 2^m divides n |
| `Rand.HalfCycle` | labcode/lab8/libs/rand.c:13-13 | for every m: 2^m steps add 2^m modulo 2^(m+1) |
| `Rand.StepsToReach` | labcode/lab8/libs/rand.c:13-13 | for every modulus 2^m: there is one cycle only, by an explicit number of steps |
| `Rand.SeenPeriods` | labcode/lab8/libs/rand.c:13-15 | whatever function of the state is shown, if it tells 0 from 2^(m-1) it has the periods of the states and no others |
| `Numbers.Strtol` | labcode/lab8/libs/string.c:215-271 | for every text and base: the end is where the digits of the text stop; the value is the number they stand for, whenever its magnitude is at most LONG_MAX |
| `Numbers.NumberRead` | labcode/lab8/libs/string.c:215-271 | for every text seen as blanks and tabs, a sign, a prefix that the base allows, digits of either case and a rest: the value is the sum of the digits by their places, and the end is where the rest starts |
| `Numbers.PrintThenParseIff` | labcode/lab8/libs/printfmt.c:53-69 | a number printed in base 8, 10 or 16, to any width, reads back as itself, to the last character, exactly if it is at most LONG_MAX and not padded with minuses, but for "-0" |
| `Numbers.PaddedLength` | labcode/lab8/libs/printfmt.c:53-69 | as many characters are printed as the width asks for, or as there are digits |
| `Numbers.FirstDigit` | labcode/lab8/libs/printfmt.c:53-69 | digits are 0 to 9 and a to f, and only the number 0 starts with a 0 |
| `Numbers.SignedReadsBackIff` | labcode/lab8/libs/printfmt.c:245-252 | a signed number reads back exactly if its magnitude is at most LONG_MAX and neither blanks pad a negative one nor minuses pad it, but for "-0" |
| `Numbers.PointerReadsBackIff` | labcode/lab8/libs/printfmt.c:267-272 | a printed address reads back in base 16 exactly if it is at most LONG_MAX and not padded, or padded with zeros |
| `Format.DecimalReadsBackIff` | labcode/lab8/libs/printfmt.c:245-252 | for every format that is one `%...d`, with or without `l`: the output reads back as the argument if and only if that is not LONG_MIN and the width and padding allow it |
| `Format.UnsignedReadsBackIff` | labcode/lab8/libs/printfmt.c:255-280 | for every format that is one `%...u`, `%...o` or `%...x`: the output reads back as the argument if and only if that is at most LONG_MAX and not padded with minuses, but for "-0" |
| `Format.AddressReadsBackIff` | labcode/lab8/libs/printfmt.c:267-280 | for every format that is one `%...p`: the output reads back if and only if the address is at most LONG_MAX and not padded, or padded with zeros |
| `Format.KernelAddressLost` | labcode/lab8/libs/printfmt.c:267-272 | the address of the kernel, 0xFFFFFFFFC0200000, does not read back from `%p` |
| `Format.OneErrorDefinedIff` | labcode/lab8/libs/printfmt.c:208-219 | a format that is one `%...e` is defined if and only if its argument is not INT_MIN |
| `Format.PrintBuf.PrintError` | labcode/lab8/libs/printfmt.c:208-219 | changing the sign in 32 bits and looking the number up: the place is outside the table exactly for INT_MIN, and otherwise the message or the nested format is put |
| `Format.DefinedWithoutErrors` | labcode/lab8/libs/printfmt.c:208-219 | a format without the letter e is defined for all arguments |
| `Format.UnknownIsLiteral` | labcode/lab8/libs/printfmt.c:288-292 | an unrecognised escape, or one cut off by the end, prints as it stands; arguments its stars took are gone |
| `Format.NoEscapes` | labcode/lab8/libs/printfmt.c:143-148 | a format without escapes prints as it is |
| `Format.NestedError` | labcode/lab8/libs/printfmt.c:208-219 | an error code without a message prints just what the nested format does |
| `Format.StringTextLength` | labcode/lab8/libs/printfmt.c:222-242 | a string field is as wide as asked for, or as the characters shown |
| `Format.StringPrinted` | labcode/lab8/libs/printfmt.c:222-242 | for every format that is one `%...s`: the characters of the string, or as many as the precision allows, each as it is, or with `#` a ? for each one not between blank and ~; then the pads, of the pad character on the left, or blanks on the right with `-`; a null pointer gives (null) |
| `Format.PlainConversions` | labcode/lab8/libs/printfmt.c:202-289 | what %s, %d, %c and %% print on their own |
| `Format.EscapeRead` | labcode/lab8/libs/printfmt.c:150-200 | an escape written as a pad flag, a width, a period and precision, `#` and any number of `l` has just these flags |
| `Format.StarsRead` | labcode/lab8/libs/printfmt.c:171-188 | a width and a precision from arguments; a negative width in front of a period is taken for 0 |
| `Format.ArgumentIs` | labcode/lab8/libs/printfmt.c:71-107 | without `l` the low 32 bits of an argument count, with their sign if it is signed; with `l` all 64 |
| `Format.Messages` | labcode/lab8/libs/printfmt.c:18-41 | there are messages for the codes from 1 to 24 but for 7, 11 and 12 |
| `Format.FirstMessages` | labcode/lab8/libs/printfmt.c:18-41 | the messages of the codes from E_UNSPECIFIED to E_KILLED |
| `Format.MoreMessages` | labcode/lab8/libs/printfmt.c:18-41 | the messages of the codes from E_PANIC to E_ISDIR |
| `Format.LaterMessages` | labcode/lab8/libs/printfmt.c:18-41 | the messages of the codes from E_NOTDIR to E_SEEK |
| `Format.LastMessages` | labcode/lab8/libs/printfmt.c:18-41 | the messages of the codes from E_MAX_OPEN to E_NOTEMPTY |
| `Format.ReadFlags` | labcode/lab8/libs/printfmt.c:150-200 | the flag loop computes width, precision, padding and arguments taken, and stops at the conversion character, never past the terminator |
| `Format.PrintBuf.Putch` | labcode/lab8/libs/printfmt.c:309-315 | every character is counted; it is stored only while there is room |
| `Format.PrintBuf.PrintNum` | labcode/lab8/libs/printfmt.c:53-69 | the recursion prints the digits with the padding before them |
| `Format.PrintBuf.PrintString` | labcode/lab8/libs/printfmt.c:222-242 | the loops print the string field with its padding on the proper side |
| `Format.PrintBuf.PrintConversion` | labcode/lab8/libs/printfmt.c:202-289 | each conversion prints its text and takes its argument, others print nothing; only `%e` with INT_MIN reads outside the table |
| `Format.PrintBuf.PutEscape` | labcode/lab8/libs/printfmt.c:150-292 | one escape, rewinding to just behind its `%` if it is not known |
| `Format.PrintBuf.VPrintFmt` | labcode/lab8/libs/printfmt.c:135-295 | for every format, arguments and memory the loop ends; it reads outside the table of messages exactly if an `%e` that is reached takes INT_MIN, and otherwise has put what the format means |
| `Format.VSnprintf` | labcode/lab8/libs/printfmt.c:347-358 | when it reads outside the table, and otherwise: returns the full length; the buffer holds as much as fits, then the terminator, and nothing behind it is changed; no buffer is an error |
| `Format.Strnlen` | labcode/lab8/libs/string.c:33-40 | the length, but at most the limit |
| `Shell.GetToken` | labcode/lab8/user/sh.c:18-47 | for every text: the token, its place and the rest are those of a lexer on the original text, whatever earlier calls overwrote; nothing at or behind the terminator is touched |
| `Shell.SkipSpaces` | labcode/lab8/user/sh.c:24-26 | blanks become terminators; stops at the terminator because `strchr` finds none there |
| `Shell.CutWord` | labcode/lab8/user/sh.c:37-43 | quotes become blanks up to the first unquoted blank or symbol |
| `Shell.Strchr` | labcode/lab8/libs/string.c:154-163 | finds the first occurrence, and never the terminator |
| `Shell.WordEndIsFirst` | labcode/lab8/user/sh.c:36-44 | a word ends at the first blank or symbol before which the quotes pair up |
| `Shell.TokensCover` | labcode/lab8/user/sh.c:24-46 | the tokens are in order, do not overlap, and between them there are only blanks |
| `Shell.TokensExactly` | labcode/lab8/user/sh.c:10-46 | for every text, character by character: each of < | > & ; outside quotes is a token with itself as its kind; each longest run of other or quoted characters is one word; blanks, tabs, returns and newlines outside quotes are in no token |
| `Shell.TokensAreBoundaries` | labcode/lab8/user/sh.c:45-46 | each call goes on exactly where the last token ended |
| `Shell.WordIsString` | labcode/lab8/user/sh.c:31-45 | once a later call has moved on, a word pointer is a string of its own, with blanks for quotes |
| `Shell.HeldWordIs` | labcode/lab8/user/sh.c:37-43 | such a string is the text of its word with a blank for every quote, and a terminator behind it |
| `Shell.OperandIsWordIff` | labcode/lab8/user/sh.c:133-150 | right after it is found, a word runs on to the end of the text; it is its own string if and only if it ends the text |
| `Shell.Tokenize` | labcode/lab8/user/sh.c:18-47 | calling the tokenizer on a buffer until it is done gives exactly the tokens of the text, kinds and places, with operands of redirections among them; every word is then a string of its own, and only blanks, symbols and quotes were overwritten |
| `Shell.TakeAll` | labcode/lab8/user/sh.c:18-47 | the same from any place a call may be made from |
| `Shell.Gather` | labcode/lab8/user/sh.c:116-193 | the token loop: words, redirections and the reason to stop are those of the text; whenever the command is run every argument is a string of its own and there are at most 32 |
| `Shell.GatheredIs` | labcode/lab8/user/sh.c:116-193 | in terms of all tokens of the text: up to the first token to stop at, the words are the word tokens that do not directly follow a < or >, in order, and the redirections those symbols with the text from the word behind them; which token that is and why, for each of the seven reasons, and where the text is left |

## Left out

- Host files: `open`, `readdir`, `lstat`, `readlink`, `fchdir` and `pwrite` are a finite listing and a map from block
  numbers to bytes; a failing call is not modelled, nor are short reads before the end of a file, which line 521 of
  `mksfs.c` asserts against, nor the path printed in messages.
- The 12 bytes of the superblock's label that the program leaves unset are part of a parameter, as is the label.
- Arrays: an index block's words, an inode's twelve direct numbers and the static name buffer are sequence-valued fields
  that are reassigned, and hash chains are sequences of records, so that sharing of buffers is not modelled; the
  block buffer of the freemap is an array.
- Memory exhaustion of `malloc`.
- Rings and trees: fields of entries outside the links, and comparators that read the links.
- Numbers.Strtol: says nothing of the value, only of the end, once the digits exceed LONG_MAX, as C leaves that overflow
  open; the loop is modelled with wrapping, and nothing is proved from it. The theorems on reading back count such a
  text as not reading back. Printing takes `-LONG_MIN` to wrap.
- Signed overflow of widths, precisions and character counts, which C leaves open: these are unbounded here. Reading
  past the given arguments is not modelled either.
- Format.PrintBuf.VPrintFmt: where the program reads outside its table the model stops, as what it would read is not
  known.
- Format.VSnprintf: the length is not cut to 32 bits, because that overflow is left open in C.
- Shell: processes, pipes, `reopen` beyond its success, `exec`, `readline` and the built-in `cd`; a command's parts
  after `|` and `;` are further calls of the same loop.
- Kernel code, other user programs, `memmove` and its kin, `hash.c`, `sign.c`, `vector.c`.
