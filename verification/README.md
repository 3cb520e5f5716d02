# Verification of the ext4 read path, the dictionary and the hashes

This project models, in Dafny, the read-only ext4 driver in `fuse/`, the chained dictionary in `metaserver/dict.c`
and the hash functions of `base/c_hash.c` that have a definition to be measured against, and proves that each layer
means what a much simpler description says.

* **Block mapping** (`Extents`, `ExtentReader`, `BlockMap`): logical blocks are mapped through an extent tree of any
  depth, or through direct, indirect, double- and triple-indirect pointers. The simple meaning is a flat list of
  extents, or the flattened list of pointers.
* **Reading a file** (`FileRead`, `ReadOp`, `DiskIO`, `Super`): truncation, an unaligned first piece, then one run of
  blocks per step into the caller's buffer. The simple meaning is a slice of the file as a sequence of bytes.
* **Directories** (`Directory`, `DirFile`): a one-block buffer over variable-length records, a lookup scan, and a
  listing that can be resumed. The simple meaning is the flat list of records.
* **Path resolution** (`DCache`, `PathWalk`, `PathLookup`): a tree of circular sibling lists that rotate on lookup, in
  front of a directory walk. The simple meaning is the walk from inode 2 without a cache.
* **Dictionary** (`JumpHash`, `DictSpec`, `Dict`, `DictRun`): jump consistent hashing selects one of an array of linked chains.
  The simple meaning is a finite map.
* **Hashes** (`Bits`, `Jenkins`, `HashVectors`, `CrcWords`, `Crc32`, `Crc16`): three alignment-specialised bodies of lookup3
  against one reference; table-driven CRCs against bit-serial shift registers; explicit inverses of the mixing functions;
  published values.
* **On-disk form** (`Layout`, `SuperLayout`, `ExtentLayout`, `DirLayout`, `VolumeLayout`): writers that lay out the
  structs of `fuse/types` member by member, and proofs that what was written is what is read, from single members up to
  looking a name up in a directory on a volume.

The disk is an immutable sequence of bytes. 32- and 64-bit wrap-around is written out (`U32`, `U64`, `% 0x1_0000_0000`).
The debug build is modelled: an `ASSERT` that fails ends the call with `Abort`, and so does a disk read that is not
complete. Code that updates state is imperative here too: classes for the read context, the directory buffer, the cache
and the dictionary, loops over the caller's buffer, and each method is tied to a specification function about which the
lemmas are proved.

Several properties hold only under a condition. In each such case the code is modelled as it is, the property is proved
to hold if and only if the condition does, and failing inputs are given:

* a hole in front of a later extent of the same leaf is not seen as a hole (`Extents.LookupExact`,
  `ReadOp.SparseReadExact`; failing inputs `ReadOp.SparseExtentMisread`, and `ReadOp.EarlyBlockAborts` for blocks before
  every index entry);
* a zero index pointer is followed to block 0 (`BlockMap.PointerLookupExact`; `BlockMap.SparseIndexMisread`);
* an unaligned read that starts in a hole reads block 0, and one that leaves its first block fails from 4 GiB on
  (`Machine.AlignToExact`, `FileRead.HeadExact`, `FileRead.ReadExact`; `ReadOp.SparseHeadMisread`,
  `FileRead.FarCrossingAborts`);
* a cached path with a short component behind one of 40 bytes or more puts it under the root of the cache
  (`PathWalk.LongNamesLastExact`; `PathLookup.PoisonedRun`);
* a dictionary key matches every stored key it is a prefix of (`DictSpec.RefinesMapExactly`; `DictSpec.PrefixRefused`);
* the group count and the inode offset wrap at 32 bits (`Super.GroupsCover`, `Super.PlacementExact`; `Super.GroupsWrap`).

Where code and comments disagree the model follows the code: the comment at fuse/inode.c:67-69 says that the length does
not count the requested block, but it does (`Extents.RunNonempty`, `Extents.RunPromise`); and the script
fuse/test/0014-file-integrity-sparse.sh expects sparse files to read as zeros, which the failing inputs above contradict
for holes inside a leaf and under zero index pointers.

## Model

| member | source | states |
|---|---|---|
| Machine.AlignToValue | fuse/common.h:4-10 | `ALIGN_TO` with a 32-bit block size rounds up the low 32 bits of an unaligned 64-bit offset and drops the others |
| Machine.AlignToExact | fuse/common.h:4-10 | `ALIGN_TO` yields the least multiple at or above the offset if and only if the offset is aligned or below 2^32 |
| DiskIO.ReadInto | fuse/disk.c:97-113 | a completed read overwrites exactly its destination range of the buffer with the disk bytes |
| DiskIO.DiskCtx.constructor | fuse/disk.c:115-125 | a fresh context is a window of len blocks starting at `where` |
| DiskIO.DiskCtx.Read | fuse/disk.c:127-147 | a context read is cut at the window's end, delivers the disk bytes at the cursor, and cursor and remainder move by the bytes delivered; an empty window aborts |
| DiskIO.PreadBlocks | fuse/disk.c:46-47 | one `pread` of whole blocks is logged as it was made, delivers the blocks iff they are on the disk, and otherwise aborts |
| DiskIO.PreadWrapper | fuse/disk.c:30-81 | the reads issued are exactly the blocks the request touches, aligned, in order and each once, from its first block's start to its last block's end; it completes iff all of them are on the disk, and then equals direct reading and returns the size; an aborted request ends with the read that reached past the disk |
| DiskIO.PreadFirst | fuse/disk.c:41-57 | the partial first block: one whole-block read, its bytes and the count, iff the block is on the disk |
| DiskIO.PreadRest | fuse/disk.c:59-81 | the aligned remainder: middle blocks and partial last block together equal one direct read, and their reads continue the earlier ones without gap |
| DiskIO.PreadLast | fuse/disk.c:74-81 | the partial last block, read whole; also taken for an empty remainder |
| DiskIO.WholeBlockDisk | fuse/disk.c:59-81 | on a disk of whole blocks the only in-range request that fails is the empty one at the very end |
| Extents.FlatRunMeaning | fuse/extents.c:16-45 | the reference: a sorted disjoint list maps a block to start + (block - first) of its unique covering extent with the blocks left in it, and anything else to the hole (0, 1) |
| Extents.FlattenValid | fuse/extents.c:67-101 | the leaves of a valid tree of any depth, read in order, are one sorted disjoint list |
| Extents.LeafExact | fuse/extents.c:17-45 | the leaf search agrees with the flat list iff the block is not a hole in front of a later extent of the leaf |
| Extents.RouteMeaning | fuse/extents.c:82-93 | the index entry followed is the one whose key range contains the block; it holds everything the level says about the block and stays selected up to the next key |
| Extents.LookupExact | fuse/extents.c:67-101 | the recursive lookup agrees with the flattened tree iff some leaf is selected and the block is not a hole before a later extent of it |
| Extents.RunNonempty | fuse/inode.c:67-75 | every completed extent lookup returns a length of at least 1 |
| Extents.RunPromise | fuse/extents.c:30-36 | for every k below the returned length, block l+k is routed to the same leaf at every level and yields the physical block k further on, with k blocks fewer |
| Extents.TreeStandIn | fuse/extents.c:30-43 | what is found for any block, an unseen hole included, is a run of consecutive blocks: for a hole, the blocks in front of the next extent's own |
| ExtentReader.BlockFromExtents | fuse/extents.c:17-45 | the loop over on-disk leaf entries computes the leaf lookup, length out-parameter included, and aborts iff an entry it gets to has a high block half; entries behind the hit do not matter |
| ExtentReader.FindChild | fuse/extents.c:82-93 | the index loop counts exactly the leading entries that start at or before the block, and aborts iff an entry it gets to has a high block half |
| ExtentReader.GetPblock | fuse/extents.c:67-101 | the recursive descent over nodes read from disk computes the lookup determined by the nodes on the way alone, wrong magic numbers and unreadable children included, and terminates because the depth field falls along the way |
| ExtentReader.LookupDecoded | fuse/extents.c:67-101 | where the nodes store a tree, that lookup is the lookup on the tree |
| ExtentLayout.StoredDecodes | fuse/types/ext4_extents.h:36-64 | a tree of any depth laid out as the structs declare it (header, extents, index entries, each node in its block) is exactly the tree that is read |
| ExtentLayout.NodeRead | fuse/extents.c:49-64 | a node in its block is read whole, no more and no less |
| BlockMap.PointerLookupValue | fuse/inode.c:26-65 | for every block size of whole pointers: the lookup is element l of the flattened direct/indirect/double/triple tree unless a zero index pointer lies on the way; no helper assertion fails below the tree's width; past it the lookup aborts |
| BlockMap.PointerLookupExact | fuse/inode.c:79-93 | the lookup agrees with the flattened tree (zero pointer = hole) iff no index pointer on the way is zero, or the words read in block 0 from the first zero pointer on lead to a zero word |
| BlockMap.SparseIndexMisread | fuse/inode.c:81-83 | failing inputs, for every disk and block size: in a file without indirect block every block of the single-indirect range is a hole, and is looked up as the word of block 0 in its place |
| BlockMap.LookupCompletes | fuse/inode.c:37-65 | an index-block lookup completes iff every index word on its way is on the disk |
| BlockMap.BlocksForLeast | fuse/super.h:12 | `BYTES2BLOCKS` gives the least number of blocks that holds the bytes |
| BlockMap.PastTheFile | fuse/inode.c:77 | a block that starts a block or more past the end of an indexed file is refused |
| SuperLayout.PointersStored | fuse/inode.c:79-80 | the fifteen pointers written into the inode's block field are read back in their places |
| BlockMap.ExpandAt | fuse/inode.c:37-65 | descent by division and remainder is indexing into the flattened subtree, at every level |
| BlockMap.GetDataPblock | fuse/inode.c:70-99 | the two mappings behind one call, with the length stored for the caller |
| BlockMap.DataPblockSound | fuse/inode.c:67-99 | for blocks that are no unseen hole, whose index pointers are nonzero and whose index words are on the disk: the lookup completes, the block is the file map's, the length is at least 1, a hole has length 1, and the next length-1 blocks are consecutive |
| BlockMap.ExtentsSound | fuse/inode.c:72-75 | the same for extent inodes, in terms of the flattened tree |
| FileRead.TruncateExact | fuse/op_read.c:24-40 | the size is cut exactly at the end of the file iff offset + size does not wrap (or the offset is past the end) |
| FileRead.FirstReadValue | fuse/op_read.c:43-68 | which disk range the first piece reads: the request inside one block, the rest of the block below 4 GiB, an abort beyond |
| FileRead.HeadExact | fuse/op_read.c:43-68 | the first piece equals the file's bytes iff the first block is mapped (or the bytes read instead are zero) and a block-crossing read starts below 4 GiB |
| FileRead.LoopReads | fuse/op_read.c:94-114 | the extent-at-a-time loop from block l on delivers exactly the file's bytes, zeros in holes, whatever the runs are |
| FileRead.ReadExact | fuse/op_read.c:70-119 | for every offset and size the bytes delivered are the file's bytes in [offset, min(offset+size, file size)) iff the head condition holds; an out-of-range read is empty |
| FileRead.AdjacentReads | fuse/op_read.c:70-119 | two adjacent reads concatenate to the one read of both ranges |
| FileRead.FarCrossingAborts | fuse/op_read.c:61-65 | failing inputs: from 4 GiB on every unaligned read that leaves its first block aborts |
| ReadOp.FirstReadInto | fuse/op_read.c:43-68 | the first piece lands at the front of the caller's buffer, nothing else of which changes |
| ReadOp.StepInto | fuse/op_read.c:98-112 | one iteration transfers at least one byte, by context read or zero fill, and touches only its own range |
| ReadOp.ReadRuns | fuse/op_read.c:94-114 | the loop terminates and fills the rest of the request in place, or aborts exactly when its specification does |
| ReadOp.ReadFile | fuse/op_read.c:88-118 | truncation, first piece and loop together fill the front of the buffer with the specified bytes and return their number |
| ReadOp.OpRead | fuse/op_read.c:70-119 | on a mounted volume: -ENOENT for inode 0 with the buffer untouched, otherwise the inode's bytes and their count |
| ReadOp.FileReadExact | fuse/op_read.c:70-119 | end to end, for extent and index-block inodes alike: `op_read` delivers exactly the file's bytes iff the head condition holds, given blocks whose lookup meets no failing case |
| ReadOp.SparseReadExact | fuse/op_read.c:94-114 | aligned reads of extent files over holes that the leaf search does not see: the blocks in front of the next extent are delivered, and the result is right iff each of them is blank as far as it is read |
| ReadOp.FullySparseRead | fuse/op_read.c:98-110 | a file without extents reads as zeros for every offset and size, up to its length, iff the head condition holds |
| ReadOp.SparseExtentMisread | fuse/extents.c:30-33 | failing inputs, for every block size from 1024 and every disk that holds the file: a file whose only extent is at block 1 delivers for its hole at block 0 the disk block in front of the extent's own |
| ReadOp.SparseHeadMisread | fuse/op_read.c:55-66 | failing inputs: an unaligned read inside the first block of a fully sparse file delivers the bytes of block 0 of the disk |
| ReadOp.EarlyBlockAborts | fuse/extents.c:82-93 | failing inputs: a block before every entry of the root index is a hole, and its lookup aborts |
| Super.BlockSizeValue | fuse/super.c:40-42 | for every mountable log size the 64-bit shift survives the cut to 32 bits and gives a power of two from 1024 up |
| Super.GroupsCover | fuse/super.c:28-32 | for every 32-bit block count and group size: the groups cover all blocks iff the 32-bit sum does not wrap or one group is enough; the count is never more than needed |
| Super.GroupsWrap | fuse/super.c:28-32 | failing input: 2^32 - 1 blocks in groups of 32768 count as one group |
| Super.DescriptorPlace | fuse/super.c:84-86 | the descriptor table starts at the first block boundary behind the superblock, and descriptor i is the i-th from there iff the 32-bit product does not wrap |
| Super.GroupFill | fuse/super.c:80-94 | the loop reads descriptor i at its on-disk offset for every group, and aborts iff one of them is not on the disk |
| Super.InodeSlot | fuse/inode.c:144-157 | inode numbers map bijectively to (group, slot); the slot lies inside its group's table on the disk, and is where the inode is looked for iff the 32-bit product does not wrap |
| Super.PlacementInjective | fuse/inode.c:144-157 | where every slot of a table starts below 2^32, the byte ranges read for two different inode numbers never overlap |
| Super.PlacementExact | fuse/inode.c:149-155 | for power-of-two inode sizes the reads of all inodes are pairwise apart iff every slot of a table starts below 2^32 |
| Super.GetInodeSucceeds | fuse/super.c:69-75 | every inode number from 1 to groups * inodes-per-group is read without an abort |
| Super.NoSuchInode | fuse/inode.c:146 | number 0 names no inode, and numbers past the last group abort |
| SuperLayout.SuperStored | fuse/super.c:55-57 | the superblock written behind the first 1024 bytes, member by member, is the one found |
| SuperLayout.DescriptorStored | fuse/super.c:84-90 | a group descriptor written at its place (32 bytes each, 64 where the superblock announces a size) yields its inode table block |
| SuperLayout.ParseWritten | fuse/types/ext4_inode.h:66-92 | an inode written member by member is read back: mode, both halves of the size, bit 19 of the flags, block field |
| SuperLayout.InodeStored | fuse/inode.c:144-157 | an inode written into its slot, whole or cut to the inode size, is the one found under its number |
| Layout.ReadMember | fuse/types/ext4_inode.h:66-123 | every 16- and 32-bit member of a struct laid out in declared order is loaded back from its offset |
| Directory.DirCtx.Update | fuse/inode.c:101-106 | afterwards the buffer holds the block it claims to hold |
| Directory.DirCtx.DentryGet | fuse/inode.c:123-142 | returns the record's place in a buffer that holds its block; nothing at the end, an abort past it; at most one self-call; the buffer keeps equal to the block named by `lblock` |
| Directory.BufferedRecord | fuse/inode.c:123-142 | a record read through the one-block buffer is the record of the flat contents |
| Directory.Lookup | fuse/inode.c:209-234 | the scan through the buffer finds the first live record of the flat list with that name, or nothing |
| Directory.OpReaddir | fuse/op_readdir.c:43-60 | a call delivers the longest prefix of the flat listing that the filler accepts, each name with the offset behind its record |
| Directory.ResumeBehind | fuse/op_readdir.c:45-58 | restarting at the offset given with an entry yields exactly the entries behind it |
| Directory.ResumableListing | fuse/op_readdir.c:43-60 | for any series of filler capacities the restarted calls concatenate to a prefix of one uninterrupted listing, nothing lost or repeated |
| Directory.EnoughCalls | fuse/op_readdir.c:43-60 | when every call accepts at least one entry, enough calls give the whole listing |
| Directory.ListInPieces | fuse/op_readdir.c:26-64 | actual calls, each resumed at the last accepted offset, deliver together what one uninterrupted call would, as far as the fillers have room |
| Directory.ListingAgrees | fuse/op_readdir.c:43-60 | a name is listed iff the path-lookup scan finds it |
| Directory.FindUnique | fuse/inode.c:220-234 | with unique live names the scan returns that record's inode |
| Directory.Printable | fuse/op_readdir.c:19-24 | the C string of a name: its longest prefix without a zero byte |
| DirLayout.RecordWritten | fuse/types/ext4_dentry.h:35-41 | a record written anywhere in a directory is the record read there: inode, record length, name |
| DirLayout.DirWritten | fuse/inode.c:220-227 | a directory written as a list of records tiles its blocks and has exactly those records, in order |
| DirFile.DirBacked | fuse/inode.c:101-106 | the blocks fetched for a directory inode hold the bytes of its contents as a file |
| DirFile.FindInVolume | fuse/inode.c:217-234 | one component of path resolution on a volume: inode read, buffered scan, inode number of the records, directory bit |
| DirFile.ListedIffResolved | fuse/op_readdir.c:43-60 | on a mounted volume, in any directory that a path leads to, a name is listed iff resolving the path with that name behind it succeeds |
| DirFile.ModeBits | fuse/inode.c:230 | the mask of `S_ISDIR` takes the top four bits of the mode |
| VolumeLayout.TreeStored | fuse/inode.c:74-75 | an inode with the extents bit and a laid-out tree in its block field is read as having that tree |
| VolumeLayout.DirectoryStored | fuse/inode.c:101-142 | a directory inode over consecutive blocks that hold written records is a good directory with those records |
| VolumeLayout.LookupStored | fuse/inode.c:217-227 | from the bytes of inode slot and directory blocks on a volume: looking a name up finds the inode its record says |
| DCache.NameMatches | fuse/dcache.c:111 | the test accepts exactly the stored name and never looks outside the 40-byte buffer, for a name of any length |
| DCache.Cache.constructor | fuse/dcache.c:38-52 | the initial cache is a root without children |
| DCache.Cache.Insert | fuse/dcache.c:64-91 | inserts one node into the parent's ring and makes it the head; every other ring is unchanged; a name of 40 bytes or more changes nothing and returns null; all rings stay cycles over exactly their entries |
| DCache.Cache.Lookup | fuse/dcache.c:97-122 | finds a child iff one has the name; only rotates the parent's ring so that the hit is its head; all rings stay valid |
| DCache.Cache.FindChild | fuse/dcache.c:108-118 | the do-while visits each sibling at most once, terminates, and finds a match iff there is one |
| DCache.Cache.InsertKeeps | fuse/dcache.c:81-88 | the pointer stores of an insertion turn one valid tree of sibling cycles into another |
| DCache.Cache.LookupKeeps | fuse/dcache.c:111-115 | moving the head keeps every sibling cycle |
| PathWalk.CachedWalk | fuse/inode.c:204-241 | walking on from a sound cached prefix equals the uncached walk from inode 2 |
| PathWalk.CacheStaysSound | fuse/inode.c:227-232 | whether a lookup keeps a sound cache sound does not depend on which prefix of its path was cached |
| PathWalk.LongNamesLastSafe | fuse/dcache.c:68-74 | a path in which no name under 40 bytes follows a longer one inserts only entries that agree with the uncached walk, wherever it takes entries from directories only |
| PathWalk.LongNamesLastExact | fuse/dcache.c:68-74 | a path is safe on every image where only directories yield entries iff no name under 40 bytes follows a longer one |
| PathWalk.Misplaced | fuse/inode.c:230-232 | a short name behind a long one is inserted directly under the cache's root |
| PathLookup.TokenLength | fuse/inode.c:159-164 | the 8-bit counter gives the length of a component of up to 255 bytes |
| PathLookup.SkipSlashes | fuse/inode.c:187-191 | skips slashes only, and leaves the components as they are |
| PathWalk.TokensOfJoin | fuse/inode.c:159-191 | splitting a path gives back the components it was made of |
| PathLookup.GetCached | fuse/inode.c:166-185 | the entry returned is the cache node of a prefix of the components and the rest of the path holds exactly the others |
| PathLookup.Remember | fuse/inode.c:230-232 | the effect of one found component on the cache: one new entry, none for a non-directory, and a fall back to the root for a long name |
| PathLookup.WalkOn | fuse/inode.c:209-241 | the loop, reading inodes and scanning records on a volume, returns the walk's result and adds exactly the specified entries to the cache |
| PathLookup.IdxByPath | fuse/inode.c:193-245 | on a volume: from a sound cache every lookup of a whole path returns the uncached walk from inode 2, and the cache stays sound when no short name follows a long one |
| PathLookup.RunLookups | fuse/inode.c:193-255 | from initialisation on, any series of lookups on a volume returns what uncached walks return when no short name follows a long one in the paths before the last |
| PathLookup.PoisonedRun | fuse/dcache.c:68-74 | failing runs, on every volume: after any path that resolves through a short name behind a long one, that short name is found in the root directory although the root does not hold it |
| JumpHash.JumpBounds | metaserver/dict.c:39-44 | under every monotone rounding that fixes representable numbers each jump goes forward and the product stays below 2^63 |
| JumpHash.JumpConsistent | metaserver/dict.c:33-47 | the loop terminates for every key and count, returns the last candidate below the count, and 1 for a count of 0 or less |
| JumpHash.Consistent | base/c_hash.c:1160-1173 | growing from n to m buckets moves a key only to one of the new buckets |
| JumpHash.JumpExactly | metaserver/dict.c:43 | in exact arithmetic the next candidate is at least m iff m times (the key's top 31 bits + 1) is at most (b + 1) * 2^31: which keys leave bucket b when buckets are added |
| JumpHash.JumpByPower | metaserver/dict.c:43 | in every rounding a power-of-two divisor 2^e gives exactly (b + 1) * 2^(31 - e) |
| JumpHash.JumpBracket | metaserver/dict.c:43 | in every rounding the jump lies between those of the powers of two around its divisor |
| JumpHash.BucketOfOne | metaserver/dict.c:33-47 | key 1 goes to bucket 6 of 10 |
| DictSpec.FindExact | metaserver/dict.c:123-144 | in a chain where no stored key properly extends the key, the search finds exactly the key |
| DictSpec.StepRefines | metaserver/dict.c:145-209 | each put, get and delete answers as the finite map does and keeps every key once in the chain it selects |
| DictSpec.RunRefines | metaserver/dict.c:123-209 | every run over a clash-free key set answers as the map does, from any table that holds the map |
| DictSpec.PrefixRefused | metaserver/dict.c:125-138 | failing run: a proper prefix of a stored key in the same chain is refused |
| DictSpec.RefinesMapExactly | metaserver/dict.c:123-209 | all runs over a key set answer as a finite map does iff no key of the set is a proper prefix of another that selects the same chain |
| DictSpec.StepCounts | metaserver/dict.c:166-205 | the number of pairs changes by exactly one on a successful put or delete, and only one chain changes |
| Dict.Dict.constructor | metaserver/dict.c:103-112 | an initialised table is empty, with all counters 0 |
| Dict.Dict.Find | metaserver/dict.c:123-144 | the pointer loop returns the first node whose key starts with the key looked for, its predecessor and its chain |
| Dict.Dict.Put | metaserver/dict.c:145-169 | links a new node at the head of its chain iff the search fails; chains, member counts and total stay in step |
| Dict.Dict.Get | metaserver/dict.c:170-181 | returns the value of the node found and changes nothing |
| Dict.Dict.Del | metaserver/dict.c:182-209 | unlinks exactly the node found, hands out its value, and keeps chains and counters in step |
| Dict.Dict.Unlink | metaserver/dict.c:189-205 | the stores that take one pair out of its chain keep every chain linked and the counters in step |
| Dict.Dict.FreeChain | metaserver/dict.c:236-251 | frees the values of one chain in order and counts it down to 0 |
| Dict.Dict.Deinit | metaserver/dict.c:229-254 | every stored value is handed to the free function exactly once, in table order, and all counters end at 0 |
| DictRun.Do | metaserver/dict.c:145-209 | one operation on the heap table answers, and changes the chains, as the specification step does |
| DictRun.RunOps | metaserver/dict.c:103-209 | from initialisation on, any run of puts, gets and deletes on the heap table answers as a finite map does, for key sets without prefix clashes |
| Jenkins.MixInverse | base/c_hash.c:30-50 | `mix` is a bijection on 96-bit states, with its inverse |
| Jenkins.FinalInverse | base/c_hash.c:52-68 | `final` is a bijection on 96-bit states, with its inverse |
| Jenkins.MixMacro | base/c_hash.c:30-50 | the assignments of the macro, in order, compute `Mix` |
| Jenkins.FinalMacro | base/c_hash.c:52-68 | the assignments of the macro, in order, compute `Final` |
| Bits.RotValue | base/c_hash.c:28 | rotation is x * 2^k mod 2^32 plus x / 2^(32-k) |
| Bits.RotBack | base/c_hash.c:28 | rotating by k and by 32 - k is the identity |
| Jenkins.WordTail | base/c_hash.c:773-827 | the twelve masked cases of the 32-bit body add exactly the zero-padded key bytes |
| Jenkins.HashWords | base/c_hash.c:758-828 | the 32-bit body computes the reference hash of the key bytes, whatever lies behind them in memory |
| Jenkins.HalfTail | base/c_hash.c:844-888 | the fall-through cases of the 16-bit body add exactly the zero-padded key bytes |
| Jenkins.HashHalves | base/c_hash.c:829-889 | the 16-bit body computes the reference hash |
| Jenkins.AddBytesDown | base/c_hash.c:916-947 | the byte-wise fall-through additions for one word add the zero-padded word |
| Jenkins.HashBytes | base/c_hash.c:890-950 | the byte body computes the reference hash |
| Jenkins.HashAt | base/c_hash.c:745-954 | the result depends on the key's bytes only, not on its alignment or on what follows it |
| HashVectors.FourScoreVector | base/c_hash.c:745-954 | with initial value 0 the reference gives the value published with lookup3 for "Four score and seven years ago" |
| Jenkins.ShortKeysInjective | base/c_hash.c:773-827 | two keys of equal length up to 12 bytes reach the same state after `final` only if they are equal |
| Jenkins.Fmix64Inverse | base/c_hash.c:1184-1193 | `fmix64` is a permutation of the 64-bit words, with its inverse |
| Jenkins.FmixSteps | base/c_hash.c:1184-1193 | the assignments of the source compute `Fmix64` |
| Crc32.TableEntry | base/c_hash.c:75-332 | all 256 entries of `crc32tab` are eight moves of the shift register with polynomial 0xedb88320 |
| Crc32.TableStepExact | base/c_hash.c:623-626 | one table step takes in one byte as eight single bits would, from any register |
| Crc32.HashCrc32a | base/c_hash.c:617-629 | equals the bit-serial CRC of section 8 of RFC 1952 for every message |
| Crc32.CheckValue | base/c_hash.c:617-629 | the check value of "123456789" is 0xcbf43926 |
| Crc32.HashCrc32 | base/c_hash.c:604-615 | equals bits 16 to 30 of that CRC, although it reads the key as signed characters |
| Crc32.RunInjective | base/c_hash.c:623-626 | no message suffix brings two different registers together |
| Crc32.BurstDetected | base/c_hash.c:617-629 | two messages of one length that differ only within four bytes in a row have different CRCs |
| Crc16.TableEntry | base/c_hash.c:334-591 | all 256 entries of `crc16tab` are eight moves of the register with polynomial 0x1021 |
| Crc16.TableStepExact | base/c_hash.c:597-600 | one step of the unmasked 32-bit accumulator moves its low 16 bits as eight single bits would, whatever lies above them |
| Crc16.HashCrc16 | base/c_hash.c:592-603 | the low 16 bits of the result are the bit-serial CRC with polynomial 0x1021 and initial value 0 |
| Crc16.CheckValue | base/c_hash.c:592-603 | the check value of "123456789" is 0x31c3 |

## Left out

- Machine.AlignToExact: for block sizes that are powers of two, which is all `super_block_size` can give.
- ReadOp.FileReadExact: for request sizes below 2^31, because transfer counts pass through an `int`, and for file sizes up to 2^32 - 1 blocks, because block numbers have 32 bits.
- ReadOp.SparseReadExact: for holes whose distance to the next extent is less than that extent's physical block number; otherwise the block number counted back reaches 0 or wraps.
- ExtentReader.GetPblock: a child node that is not shallower than its parent, on the way to the block, is excluded; the source would recurse on, possibly without end.
- Super.PlacementExact: for inode sizes that are powers of two, as the format requires.
- ReadOp.FirstReadInto: a first piece longer than the request counts as an abort; in the source such a length is one no read satisfies.
- DictSpec.RefinesMapExactly: for runs shorter than 2^32 operations, because the member counters have 32 bits.
- Dict.Dict.constructor: a table has at least one bucket; for zero buckets the source indexes outside its arrays (`JumpHash.JumpConsistent` states the index it computes).
- Dict.Dict.Get: a stored null pointer is told apart from a missing key; the source returns null for both.
- Dict.Dict.Deinit: the free function gets the values; that the source passes their addresses, and frees the nodes, is not modelled.
- PathLookup.IdxByPath: every inode whose records are scanned on the way has all its blocks and records that tile them; scanning other data as records, as the source would for a path through a regular file, is not modelled. Components have at most 255 bytes, the range of the 8-bit length.
- PathLookup.RunLookups: one thread at a time; the cache's unlocked stores are not interleaved.
- DCache.Cache.Insert: the 64-bit build's 40-byte name buffer, not the 48-byte one of 32-bit builds; the second call of `dcache_init_root`, which is refused, is not modelled.
- Directory.OpReaddir: the name buffer is a value; where the terminator of a 255-byte name is stored is not modelled. The path lookup at its start is `PathLookup.IdxByPath`.
- JumpHash.JumpBounds: floating point is real arithmetic with an arbitrary monotone rounding function that fixes representable numbers.
- Jenkins.HashAt: little-endian machines; an aligned key may be read up to the end of its last word, so memory must be readable that far.
- Crc32.HashCrc32: characters are signed, as on x86.
- Block numbers over 32 bits, unwritten extents, checksums and big-endian hosts, which the driver does not support.
- Builds without assertions, where a failed check or a short read goes unnoticed.
- `op_getattr`, `op_open`, `op_readlink`, `op_init` and FUSE start-up: field copying over operations modelled here, or start-up.
- Memory allocation, freeing, locking and debug output.
- `dict_default_hash_fn` and `dict_dump`: the dictionary is proved for any 32-bit hash function; the dump only prints.
- The other hashes of `base/c_hash.c` (FNV, hsieh, murmur, one-at-a-time and others): straight-line mixing without a second definition to compare with.
- `base/c_hashmap.c`, the chunk server, `metaserver/kv_db.c`, the schema, networking, configuration and logging.
