# Verified models of s390-tools

This project models the parts of s390-tools that keep data on disk or a machine in bounds, and proves what they
promise. `dafny verify dfyconfig.toml` checks all of it.

**cmsfs-fuse**, the CMS EDF file system:

- `RecordStream`, `Scanner`, `Writer`, `VarFile`: variable-record files. A record is a two byte big-endian length and
  its bytes; records are laid end to end and cut into blocks. The writer is a state machine that carries half-written
  headers and records from block to block, the scanner one that rebuilds the record table from blocks and displacements.
  `RecordStream.InfoAt` gives every table entry in closed form; writer and scanner are both proved against it.
- `FileRead`, `FileSize`: locating records, reading ranges, the file size from the last block, opening a file.
- `PointerTree`, `FileTree`, `OpenFile`: the tree of pointer blocks, kept in step with the block list by every append, and
  whole runs: write any records to a new file, open it again knowing only its directory entry, read any range.
- `AllocMap` (with `MapByte`): the multi-level allocation bitmap with its hint. `TreeSpace` (with `LowestFirst`) joins it to the
  pointer tree: what a tree takes and gives back, bit for bit.
- `NameCache`: the directory with the reach of its pointer tree, and the cache of directory addresses.

**cpuplugd**: `Rules` (parser and printer of the rule language), `History` (the ring of samples), `Controller` (CPU and
page control over whole runs). **hmcdrvfs**: `Listing` (directory listings in chunks). **fdasd**: `Partitions` (the linked
partition table). **dasdfmt**: `FormatPlan` (formatting steps and their order). `Arith` holds block arithmetic: products and
quotients by a symbolic block size are written as sums, so that proofs stay linear.

State that the programs change in place is held by classes (`OpenFile.File`, `AllocMap.Allocator`, `NameCache.Directory`,
`Partitions.Anchor`, `Controller.Machine`, `History.Ring`, `FormatPlan.Device`). For the first three the class has one field
that holds the whole state as a value, and the algorithms are methods on such values.

Where the code does not do what one would expect, the model follows the code:

- `update_levels` divides with rounding down. For block counts just above a power of the pointers per block the tree gets one
  level too few and the last blocks are unreachable (`PointerTree.GapExample`: 1765 blocks of 512 bytes).
  `PointerTree.ReachesAllIff` and `PointerTree.PointerRoundTrip` say for exactly which counts. Such a file opens with part of
  its blocks or with an I/O error (`OpenFile.ReopenInGap`), and deleting it leaves its last blocks in use
  (`FileTree.DeleteFile`).
- `update_dir_levels` rounds down in the same way. A file created on a directory block that the pointer tree does not lead to is
  found through the cache only (`NameCache.DirGapExample`: block 16385 of 512 bytes). `NameCache.AllFoundIff`,
  `NameCache.CreateThenWalk` and the operations of `NameCache.Directory` say for exactly which numbers of blocks.
- `find_record` gives up when its guess, cut down to the last record, lies behind the offset. `FileRead.FindRecord` says for
  exactly which inputs; it never happens while `record_len` bounds every record (`FileRead.NeverOvershot`).
- Renaming a file to its own name (for instance with different case) deletes it and writes its entry to address 0
  (`NameCache.Rename`, `NameCache.RenameSelfExample`).
- A sign in front of an expression takes everything up to the end of the expression: `-a+b` is `-(a+b)`
  (`Rules.Fits`), while `-5+b` starts with the constant -5.
- `process_tracks` formats nothing when start equals stop, and formats the tail twice in one case
  (`FormatPlan.Device.ProcessTracks`, `FormatPlan.TwiceExample`).
- A configured partition of a single track is refused, and a configuration without partitions leaves the free-space counter
  as it was (`Partitions.Anchor.CheckConfig`).
- A line of a listing that is no file's, or a run of white space, that fills the buffer ends the listing: what follows is lost
  (`Listing.LostExample`). `Listing.CacheDir` has the exact condition.
- The fragment of a listing is moved with `memcpy`. The ranges overlap exactly when the fragment is longer than what is in front of
  it (`Listing.MoveDown`); the model copies upwards.

## Model

| member | source | states |
|---|---|---|
| Scanner.ContinueRecord | cmsfs-fuse/cmsfs-fuse.c:1078-1128 | a block that starts inside a record: header byte, first data or extension go to the table entry of that record, and the scan stands behind it or at the block end |
| Scanner.ScanHeaders | cmsfs-fuse/cmsfs-fuse.c:1130-1192 | from a header on, record after record up to the end of the block or of the file, the table entries are those of the closed form |
| Scanner.ScanTail | cmsfs-fuse/cmsfs-fuse.c:1167-1191 | the last one or two bytes of a block: nothing, a header that ends the block, or a header cut in half |
| Scanner.WalkVarDataBlock | cmsfs-fuse/cmsfs-fuse.c:1059-1192 | scanning one more block takes the table from its closed form for b blocks to its closed form for b + 1 blocks |
| Writer.WritePrepareBlock | cmsfs-fuse/cmsfs-fuse.c:3549-3610 | a full block leads to a new zeroed block at the end of the file, otherwise the room left on the current one is returned |
| Writer.WriteVarHeader | cmsfs-fuse/cmsfs-fuse.c:3615-3663 | as many header bytes as fit are laid behind the stream, first half and second half on different blocks if need be |
| RecordStream.HeaderBytes | cmsfs-fuse/cmsfs-fuse.c:3615-3663 | in front of every record of a stream there is its length, the high byte and then the low byte |
| Writer.WriteData | cmsfs-fuse/cmsfs-fuse.c:3703-3742 | record bytes are laid behind the header, and a new block gets the displacement the format prescribes |
| Writer.ExtendBlockVariable | cmsfs-fuse/cmsfs-fuse.c:3684-3750 | one block takes exactly the next bytes of the record, header first, and nothing but that block is written |
| VarFile.ExamineLastBlock | cmsfs-fuse/cmsfs-fuse.c:3423-3468 | the unused bytes of the last block are blocks times block size minus stream length |
| VarFile.DiskEnd | cmsfs-fuse/cmsfs-fuse.c:3497-3530 | the address found from the last record is the end of the stream |
| VarFile.NewBlocksExact | cmsfs-fuse/cmsfs-fuse.c:3873-3898 | new_blocks gives enough blocks for header and data, and one less would not do |
| VarFile.ExtendBlock | cmsfs-fuse/cmsfs-fuse.c:3759-3767 | one call fills the last block or a new one and keeps all other blocks |
| VarFile.WriteRecord | cmsfs-fuse/cmsfs-fuse.c:4029-4060 | after the last block and the new blocks the whole record is behind the stream |
| VarFile.FindLastHeader | cmsfs-fuse/cmsfs-fuse.c:3790-3826 | update_records restarts at the block and offset of the last header, with the right logical size in front of it |
| VarFile.CacheVariableDataBlock | cmsfs-fuse/cmsfs-fuse.c:1248-1271 | scanning a block notes the number of records begun up to its end |
| VarFile.UpdateRecords | cmsfs-fuse/cmsfs-fuse.c:3790-3842 | rescanning from the last record's header gives record table and block list of the grown file |
| VarFile.WriteAppend | cmsfs-fuse/cmsfs-fuse.c:4003-4068 | an append of 1 to 65535 bytes puts exactly that record at the end; blocks, displacements, record numbers and table describe the grown file; no block of another file changes |
| VarFile.DoWrite | cmsfs-fuse/cmsfs-fuse.c:4070-4103 | records, longest record and logical size follow an append |
| VarFile.BlockListIs | cmsfs-fuse/cmsfs-fuse.c:3703-3742 | after any appends the displacement of a block is 0 where a record starts, else the bytes left of the record from before, or 0xffffffff if it fills the block; its record number counts the records begun up to its end |
| FileRead.FindRecord | cmsfs-fuse/cmsfs-fuse.c:2400-2512 | for every offset, hint and record_len: the answer of a linear search if and only if the guess did not overshoot the last record or the hint answers; the new hint is the next record |
| FileRead.NeverOvershot | cmsfs-fuse/cmsfs-fuse.c:2400-2411 | the guess never lies behind the record sought when record_len bounds every record |
| FileRead.OvershootExample | cmsfs-fuse/cmsfs-fuse.c:2447-2512 | an input for which find_record misses a record that is there |
| FileRead.GetBlockData | cmsfs-fuse/cmsfs-fuse.c:2517-2548 | address and run length of an offset inside a record, over all its extensions |
| FileRead.LogicalAppend | cmsfs-fuse/cmsfs-fuse.c:2592-2603 | what a reader sees of one more record: its bytes, and in linefeed mode the byte 10 behind them |
| FileRead.StreamOnDisk | cmsfs-fuse/cmsfs-fuse.c:3615-3742 | byte p of the stream is byte p modulo the block size of block p divided by the block size; behind the stream there are zeros |
| FileRead.Read | cmsfs-fuse/cmsfs-fuse.c:2565-2638 | for every offset, size and hint exactly that range of the records joined with linefeeds; only the hint changes |
| FileRead.RecordRoundTrip | cmsfs-fuse/cmsfs-fuse.c:1059-1192 | the disk bytes a table entry points at, piece by piece, are the record that was appended, and the two bytes in front of it, on one block or on two, are its length with the high byte first |
| FileSize.WalkLastVarDataBlock | cmsfs-fuse/cmsfs-fuse.c:802-833 | the bytes of all records that start on the last block |
| FileSize.FileSizeVariable | cmsfs-fuse/cmsfs-fuse.c:1646-1691 | last block and its displacement give the length of the whole stream |
| FileSize.FileSizeLogical | cmsfs-fuse/cmsfs-fuse.c:1706-1725 | the sum of all record lengths, plus one per record in linefeed mode |
| FileSize.CacheFile | cmsfs-fuse/cmsfs-fuse.c:1611-1619 | scanning from block 0 gives the record table and the record numbers of the blocks |
| FileSize.IncrementalIsFull | cmsfs-fuse/cmsfs-fuse.c:3790-3842 | after any appends, record table and block list are equal to those of a scan of the whole file |
| FileSize.Open | cmsfs-fuse/cmsfs-fuse.c:4342-4407 | the file object made from data pointers, counters and size stands for the records on disk |
| PointerTree.EntryExists | cmsfs-fuse/cmsfs-fuse.c:2308-2315 | per_level_var counts exactly the entries of a level with a data block under them |
| PointerTree.RewritePointerBlock | cmsfs-fuse/cmsfs-fuse.c:2320-2367 | the written tree shows every data block under it with displacements, record numbers and back pointers; the blocks under it are exactly the blocks allocated, each reached once |
| PointerTree.FrameNode | cmsfs-fuse/cmsfs-fuse.c:2320-2367 | a tree depends on its own pointer blocks and the data blocks under it only |
| PointerTree.WalkPointers | cmsfs-fuse/cmsfs-fuse.c:1277-1300 | walking a tree gives addresses and displacements of the block list in order |
| PointerTree.PurgePointerBlock | cmsfs-fuse/cmsfs-fuse.c:2201-2230 | every pointer block of a tree is freed, once, and no other block |
| PointerTree.LocateLast | cmsfs-fuse/cmsfs-fuse.c:1302-1332 | back pointers lead to the pointer of the last reachable data block; success if and only if its record number is the file's |
| PointerTree.UpdateLast | cmsfs-fuse/cmsfs-fuse.c:3960-3991 | updating in place leaves the tree that a rewrite for the changed block list would produce, in the same blocks |
| PointerTree.UpdateLevels | cmsfs-fuse/cmsfs-fuse.c:3072-3088 | the least number of levels whose reach comes within one pointer block of the block count |
| PointerTree.NeverTooDeep | cmsfs-fuse/cmsfs-fuse.c:3072-3088 | one level less would not reach all blocks |
| PointerTree.ReachesAllIff | cmsfs-fuse/cmsfs-fuse.c:3072-3088 | the tree reaches every block if and only if the block count is in none of the gaps that rounding down leaves |
| PointerTree.GapExample | cmsfs-fuse/cmsfs-fuse.c:3072-3088 | 1765 blocks with 42 pointers per block are in such a gap |
| PointerTree.RewritePointers | cmsfs-fuse/cmsfs-fuse.c:2372-2395 | root and tree in blocks that were free, the lowest free ones, for no, one and many data blocks |
| PointerTree.WriteThenDelete | cmsfs-fuse/cmsfs-fuse.c:2201-2395 | deleting the tree just written gives back exactly the blocks it took |
| PointerTree.ReadPointers | cmsfs-fuse/cmsfs-fuse.c:1611-1619 | the first blocks of the file, as many as the tree reaches |
| PointerTree.PointerRoundTrip | cmsfs-fuse/cmsfs-fuse.c:2320-2395 | written with the levels of update_levels and walked back, the pointers are the block list again if and only if the block count is in no gap |
| FileTree.SameListButLast | cmsfs-fuse/cmsfs-fuse.c:4105-4123 | an append that takes no new block changes the block list in the record number of the last block only |
| FileTree.ReplaceTree | cmsfs-fuse/cmsfs-fuse.c:4105-4115 | old tree freed, new tree written, data blocks and all foreign blocks unchanged, no block leaked |
| FileTree.TouchTree | cmsfs-fuse/cmsfs-fuse.c:4116-4123 | without new blocks the last entries follow the record count |
| FileTree.Append | cmsfs-fuse/cmsfs-fuse.c:4070-4133 | every append keeps the tree in step with the block list and leaves every block outside the file as it was |
| FileTree.SizeOf | cmsfs-fuse/cmsfs-fuse.c:1646-1725 | the size from directory entry, back pointers and last block is the logical size of the file |
| FileTree.OpenEntry | cmsfs-fuse/cmsfs-fuse.c:1811-1850 | opening from the directory entry, with the walk for the blocks and the back pointers for the size, gives back the file that left it |
| FileTree.DeleteBlocks | cmsfs-fuse/cmsfs-fuse.c:2742-2749 | exactly the data blocks that the tree leads to and all pointer blocks leave the set of blocks in use |
| FileTree.DeleteFile | cmsfs-fuse/cmsfs-fuse.c:2721-2750 | deleting a file gives back all its data and pointer blocks and no other, if and only if its tree leads to all its blocks |
| FileTree.LastKnown | cmsfs-fuse/cmsfs-fuse.c:1302-1332 | a block carries the number of the last record if and only if that record begins in front of its end |
| FileTree.OpenInGap | cmsfs-fuse/cmsfs-fuse.c:1646-1725 | a file whose tree is a level short: the walk finds as many blocks as the tree reaches, and the size is an I/O error if and only if the last of them is not marked with the last record |
| OpenFile.File.Append | cmsfs-fuse/cmsfs-fuse.c:4070-4133 | the file object gains exactly the appended record; the longest record follows |
| OpenFile.File.Read | cmsfs-fuse/cmsfs-fuse.c:2565-2638 | a read returns the range and changes only the hint |
| OpenFile.WriteAll | cmsfs-fuse/cmsfs-fuse.c:4003-4133 | after any run of appends the file holds exactly these records, and blocks in use before are untouched |
| OpenFile.Reread | cmsfs-fuse/cmsfs-fuse.c:2565-2638 | a second file object, opened from the directory entry, reads what was written |
| OpenFile.ReopenInGap | cmsfs-fuse/cmsfs-fuse.c:1646-1725 | the same for a file object in a gap, after any run of appends |
| OpenFile.WriteThenRead | cmsfs-fuse/cmsfs-fuse.c:2565-2638 | whole runs: any records written to a new file and read back through its directory entry in any range |
| MapByte.FindFirstEmptyBit | cmsfs-fuse/amap.c:145-154 | the most significant clear bit of a byte that is not full |
| MapByte.TurnedOn | cmsfs-fuse/amap.c:88-130 | setting or clearing a bit changes that bit only, and clearing undoes setting |
| AllocMap.ChildIndex | cmsfs-fuse/amap.c:55-84 | get_amap_addr takes at every level the child under which the search in disk order finds the same bitmap block |
| AllocMap.AddressIn | cmsfs-fuse/amap.c:107-120 | any address inside a block leads to bitmap block, byte and bit of that block |
| AllocMap.AddressOf | cmsfs-fuse/amap.c:196-199 | the address computed for a place in the map is that of the block with that number |
| AllocMap.MarkedMark | cmsfs-fuse/amap.c:88-130 | marking and unmarking a block changes the bit of that block only, at any depth of the tree |
| AllocMap.UnmarkMark | cmsfs-fuse/amap.c:88-130 | unmarking undoes marking byte for byte |
| AllocMap.GetFreeBlockSlow | cmsfs-fuse/amap.c:210-242 | the recursive search marks the lowest clear bit under a node, or finds everything under it marked |
| AllocMap.GetFreeBlockFast | cmsfs-fuse/amap.c:185-205 | the search from the hint marks the lowest clear bit of the whole map, or changes nothing |
| AllocMap.InsideDisk | cmsfs-fuse/amap.c:132-137 | lowest-first packing and the count of used blocks keep the returned block on the disk (pigeonhole) |
| AllocMap.GetFreeBlock | cmsfs-fuse/amap.c:247-261 | no space if and only if used and reserved blocks fill the disk, otherwise the lowest free block, inside the disk; the search never fails |
| AllocMap.ClearBit | cmsfs-fuse/amap.c:107-128 | the bit cleared is that of the block the address lies in |
| AllocMap.HintAfterFree | cmsfs-fuse/amap.c:132-139 | after a free everything in front of the hint is still marked |
| AllocMap.FreeBlock | cmsfs-fuse/amap.c:283-289 | a free through any address of a block takes exactly that block out of use; address 0 is ignored |
| AllocMap.AllocThenFree | cmsfs-fuse/amap.c:247-289 | allocating and freeing restores the map and the count |
| AllocMap.Run | cmsfs-fuse/amap.c:185-289 | over every run of allocations and frees the answers are those of the plain set of blocks in use; a run that ends with the blocks in use it started with leaves the bitmap byte for byte and the count as they were |
| AllocMap.SameMaps | cmsfs-fuse/amap.c:88-130 | the set of blocks in use determines every byte of the bitmap, given that nothing outside the bits of the map has changed |
| LowestFirst.PacksUnique | cmsfs-fuse/amap.c:185-261 | allocating lowest block first, the number of blocks taken decides which blocks |
| TreeSpace.TreeConservation | cmsfs-fuse/cmsfs-fuse.c:2201-2395 | the blocks that the bitmap gives for a tree are the blocks of the tree; with the tree deleted, bitmap and used_blocks have their earlier values; without enough space nothing changes |
| NameCache.CacheAddr | cmsfs-fuse/cmsfs-fuse.c:1367-1414 | the whole new cache: unchanged for a cached name, emptied first when full; every cached address stays right, and the cache stays smaller than its limit |
| NameCache.Walk | cmsfs-fuse/cmsfs-fuse.c:1464-1540 | a walk finds the slot of a name on the blocks that the pointer tree leads to, and nothing otherwise |
| NameCache.Lookup | cmsfs-fuse/cmsfs-fuse.c:1557-1609 | lookup gives the address of a file if and only if it is cached or its block is reached; where every block is reached this is what a walk gives |
| NameCache.AllFoundIff | cmsfs-fuse/cmsfs-fuse.c:1464-1540 | a walk finds every file if and only if the pointer tree leads to every directory block |
| NameCache.LocateEmpty | cmsfs-fuse/cmsfs-fuse.c:1520-1526 | the first free slot, if the last block that is reached has one |
| NameCache.RewriteDirPointers | cmsfs-fuse/cmsfs-fuse.c:2023-2069 | the depth stored is that of update_dir_levels; the tree leads to every directory block if and only if their number is in no gap |
| NameCache.DirTree | cmsfs-fuse/cmsfs-fuse.c:1987-2035 | the pointer tree written for a directory of any depth and walked back gives the first blocks, as many as the walk of the model sees |
| NameCache.DirGapExample | cmsfs-fuse/cmsfs-fuse.c:2023-2035 | 16385 directory blocks with 128 pointers per block are in a gap |
| NameCache.Create | cmsfs-fuse/cmsfs-fuse.c:2079-2172 | a new name gets the first free slot, if need be on a new block; every other file keeps slot and entry; the depth of the pointer tree follows the number of blocks; every file can still be found by a walk if and only if no block is added or the new number of blocks is in no gap |
| NameCache.CreateThenWalk | cmsfs-fuse/cmsfs-fuse.c:2079-2172 | a walk finds the file just created if and only if no block was added or the new number of blocks is in no gap |
| NameCache.FindLast | cmsfs-fuse/cmsfs-fuse.c:2691-2719 | the last used slot of a directory whose blocks are all reached |
| NameCache.RecachedOk | cmsfs-fuse/cmsfs-fuse.c:2756-2779 | after copy-up the cache has the new address of the moved file and none for the deleted one |
| NameCache.Delete | cmsfs-fuse/cmsfs-fuse.c:2721-2803 | exactly that name leaves the directory: the last entry moves into its slot, every other file stays, an empty block is released; the depth of the pointer tree follows the number of blocks; every file can still be found if and only if no block is released or the remaining number is in no gap |
| NameCache.Rename | cmsfs-fuse/cmsfs-fuse.c:2805-2863 | the new name takes over everything but the name, in its slot, if and only if it differs from the old one and the old one is still found; a file of the new name is deleted; when the directory stays sound, as an if and only if |
| NameCache.RenameSelfExample | cmsfs-fuse/cmsfs-fuse.c:2805-2863 | a directory with one file, which is gone after it is renamed to its own name |
| NameCache.Readdir | cmsfs-fuse/cmsfs-fuse.c:1781-1809 | exactly the files on the blocks that are reached are listed, and the cache stays right while it fills up |
| NameCache.Directory.LookupFile | cmsfs-fuse/cmsfs-fuse.c:1557-1609 | over every run of operations that keep the directory sound, a lookup gives what a walk gives |
| NameCache.Directory.CreateFile | cmsfs-fuse/cmsfs-fuse.c:2079-2172 | the same on the directory object: directory and cache stay in agreement if and only if no block is added or the new number of blocks is in no gap |
| NameCache.Directory.DeleteFile | cmsfs-fuse/cmsfs-fuse.c:2721-2803 | the same for deleting, when a block is released |
| NameCache.Directory.RenameFile | cmsfs-fuse/cmsfs-fuse.c:2805-2863 | the same for renaming, which may delete a file of the new name |
| Rules.ParseTerm | cpuplugd/terms.c:256-414 | the parser with its operator loop computes the parse function, and history_max becomes the maximum of its old value and every index in the term |
| Rules.ParseOperand | cpuplugd/terms.c:266-362 | sign, numeral, parenthesis, variable or symbol as the first operand |
| Rules.FirstMatchIs | cpuplugd/main.c:19-40 | the first match in the symbol table is the symbol written, although guest starts guest_nice |
| Rules.Complete | cpuplugd/terms.c:256-414 | every expression of the grammar, with precedence, left association and tighter right operands, is parsed to its end as the term it means |
| Rules.Sound | cpuplugd/terms.c:256-414 | whatever is parsed is such an expression, and no operator that binds tighter follows |
| Rules.AcceptedIff | cpuplugd/terms.c:256-414 | a text is accepted as a term if and only if it is a grammatical expression that means it |
| Rules.TwoOperators | cpuplugd/terms.c:14-25 | for all numerals and any two of the characters vertical bar, & < > + - * / (loosest first, with < and >, + and -, * and / alike): the tighter operator is applied first, and of two alike the left one |
| Rules.SignInFront | cpuplugd/terms.c:266-304 | a sign in front of any two operands takes the whole expression, but the minus of a numeral only that numeral |
| Rules.SignInside | cpuplugd/terms.c:266-304 | behind an operator a sign takes exactly the operators that bind tighter |
| Rules.NumeralIs | cpuplugd/terms.c:296-309 | a numeral is a digit followed by digits and at most one point |
| Rules.CounterValue | cpuplugd/terms.c:326-361 | meminfo with a name and an index in brackets is that counter, index intervals back |
| Rules.ValueAppend | cpuplugd/terms.c:350-360 | the index is read as a decimal number |
| Rules.VariableName | cpuplugd/terms.c:226-254 | a variable name of up to 128 characters is replaced by its definition (here a numeral), and a longer one is an error |
| Rules.Unambiguous | cpuplugd/terms.c:14-25 | a text has one meaning |
| Rules.VariablesExpand | cpuplugd/terms.c:226-254 | a rule with variables means what it means with every variable replaced by its definition in parentheses |
| Rules.NeverDeep | cpuplugd/terms.c:226-254 | definitions that are not circular are always resolved; a use is a variable in the place of an operand |
| Rules.ResolvedNotCircular | cpuplugd/terms.c:226-254 | in an accepted rule no chain of uses comes back to a variable |
| Rules.DeepIffCircular | cpuplugd/terms.c:226-254 | a rule without syntax errors nests too deeply if and only if its definitions are circular |
| Rules.SameNameExample | cpuplugd/terms.c:226-254 | Cached defined as meminfo.Cached is resolved and is not circular |
| Rules.DepthIrrelevant | cpuplugd/terms.c:226-254 | the bound on nesting does not change an accepted rule |
| Rules.PrintRoundTrip | cpuplugd/terms.c:74-224 | the output of print_term, blanks dropped, is parsed as the term printed |
| Rules.MeaningWellFormed | cpuplugd/terms.c:256-414 | every term the parser makes is well formed |
| Rules.AcceptedRoundTrip | cpuplugd/terms.c:74-224 | the term of any accepted rule, with or without variables, printed and blanks dropped, is parsed as that term |
| History.Ring.Setup | cpuplugd/main.c:321-361 | start-up takes history_max samples, the last of them current |
| History.Ring.Advance | cpuplugd/main.c:450-457 | a round of the main loop takes one more sample and drops only the oldest |
| History.Ring.GetValue | cpuplugd/terms.c:416-425 | for every index up to history_max the sample taken exactly that many intervals ago |
| History.Run | cpuplugd/main.c:440-460 | the same over whole runs from start-up on |
| Controller.Machine.AdjustCpus | cpuplugd/config.c:264-317 | the daemon goes on if and only if the bounds can be met; then they are met by enabling or disabling CPUs from CPU 0 on, no more than needed |
| Controller.Machine.AdjustPages | cpuplugd/config.c:318-334 | the page count is cut to its bounds |
| Controller.Machine.EvalCpuRules | cpuplugd/main.c:160-208 | hotplug enables the first CPU that is offline and configured, hotunplug disables the last one online unless that is CPU 0, and nothing else changes; both exactly when the rule asks for it, the bound allows it and the operation works |
| Controller.Machine.EvalMemRules | cpuplugd/main.c:274-301 | pages move by the step of the rule that holds, cut to the bounds |
| Controller.Machine.ReactivateCpus | cpuplugd/cpu.c:172-200 | exactly the start count of CPUs is online again, reached from CPU 0 on |
| Controller.Run | cpuplugd/main.c:442-485 | over every run the bounds hold at the end of every interval, and stopping restores the start count |
| Listing.ParseLine | hmcdrvfs/hmcdrvfs.c:792-884 | an entry only for a complete line; the next line start in any case |
| Listing.FirstOfLine | hmcdrvfs/hmcdrvfs.c:792-884 | a blank or one of the characters 9 to 13 in front of a line is skipped, and any other character belongs to the entry |
| Listing.EntriesLine | hmcdrvfs/hmcdrvfs.c:792-884 | one parsed line splits the entries of the listing into its own and those behind it, whatever has arrived so far |
| Listing.ParseChunk | hmcdrvfs/hmcdrvfs.c:966-1003 | the entries of all lines of a buffer, and where the last line, which may be a fragment, starts |
| Listing.CarriedFits | hmcdrvfs/hmcdrvfs.c:1009-1017 | the fragment carried over is no longer than its line can leave |
| Listing.FitsNext | hmcdrvfs/hmcdrvfs.c:1009-1017 | what a line leaves in the buffer and the lines behind it decide, apart from each other, whether the listing fits |
| Listing.MoveDown | hmcdrvfs/hmcdrvfs.c:1009-1017 | the fragment is at the start of the buffer; source and destination overlap if and only if it is longer than what is in front of it |
| Listing.CacheDir | hmcdrvfs/hmcdrvfs.c:961-1029 | for every way the device cuts a listing into chunks, the entries of the listing in order, none twice; none is lost if every line leaves room in the buffer while entries are to come, and for a device that gives one line at a time if and only if |
| Listing.LosesSome | hmcdrvfs/hmcdrvfs.c:961-1029 | a listing that does not fit, given line by line, loses entries from some point on |
| Listing.LostExample | hmcdrvfs/hmcdrvfs.c:961-1029 | a listing whose first line fills a buffer of five characters and whose second line is a file that does not fit any more |
| Listing.EmptyLinesExample | hmcdrvfs/hmcdrvfs.c:961-1029 | a file line with three empty lines behind it fits a buffer of five characters |
| Partitions.Conservation | fdasd/fdasd.c:2589-2706 | three entries; every used one has the length of its extent and the gap up to the next one; partitions and gaps together are the tracks from 2 to the last, and no gap is negative |
| Partitions.OneTable | fdasd/fdasd.c:2589-2706 | the extents determine every entry and counter |
| Partitions.Anchor.FindPlace | fdasd/fdasd.c:2594-2602 | the entry the new one goes in front of |
| Partitions.Anchor.MoveLast | fdasd/fdasd.c:2604-2619 | relinking moves the last node there and keeps the list linked both ways |
| Partitions.Anchor.SplitGap | fdasd/fdasd.c:2627-2659 | the gap the new partition lies in is split in front and behind |
| Partitions.Anchor.Enqueue | fdasd/fdasd.c:2589-2660 | for an extent in one gap: the table of the extents with the new one in its place |
| Partitions.Anchor.MoveToEnd | fdasd/fdasd.c:2670-2692 | unlinking first, middle or last node keeps the list linked and returns tracks and gap to the gap in front |
| Partitions.Anchor.Dequeue | fdasd/fdasd.c:2665-2706 | the table of the remaining extents |
| Partitions.EnqueueThenDequeue | fdasd/fdasd.c:2589-2706 | dequeuing the partition just enqueued restores every entry and counter |
| Partitions.Anchor.CheckConfig | fdasd/fdasd.c:812-898 | a configuration is accepted if and only if its extents are ascending, apart, on usable tracks and longer than one track, and gives their table |
| Partitions.Anchor.LoadLabels | fdasd/fdasd.c:1699-1748 | labels in track order give the table of their extents |
| FormatPlan.Device.ProcessTracks | dasdfmt/dasdfmt.c:814-863 | each step is one operation on its tracks; steps cover start to stop without gap, end with a cylinder unless they reach stop, and have the size of a request less the tracks in front of them in their cylinder; no step if start is not before stop; overlap in exactly one case |
| FormatPlan.OnlySteps | dasdfmt/dasdfmt.c:814-863 | what is stated of the steps leaves no choice: start, stop, geometry and request size determine them |
| FormatPlan.TwiceExample | dasdfmt/dasdfmt.c:814-863 | a start, stop and geometry for which tracks are formatted twice |
| FormatPlan.PrepareAndFormat | dasdfmt/dasdfmt.c:1239-1298 | track 0 stays invalidated while exactly the steps from track 1 to the last are done one by one; all tracks are formatted in the end unless the device has two tracks |
| FormatPlan.FindStart | dasdfmt/dasdfmt.c:1182-1228 | the search ends at a track without the wanted format behind one with it; on a disk formatted up to some track, exactly there |

## Left out

- Writer.ExtendBlockVariable: the loop of extend_block_variable is modelled as its first pass, which is the only one for appends of up to 65535 bytes; for a second record in one block the source does not advance its buffer.
- Writer.GetZeroBlock: any block not in use may be returned; that the allocator gives the lowest one is proved in AllocMap.
- Rules.Parse: takes a bound on nested variables and answers Deep beyond it, where the source recurses; with circular definitions the source recurses without end.
- Rules.ParseSymbol: constants are kept as the numeral written; exponents and hexadecimal forms that sscanf accepts, rounding, and overflow of history indices are not modelled.
- Listing.CacheDir: the fields of a line are read by an arbitrary function of the complete line; device errors, the cache of file attributes and time zones are not modelled.
- Partitions.Anchor.Enqueue: requires an extent in one free gap; how fdasd asks the user for one is not modelled.
- Controller.Run: assumes that only the daemon changes CPUs and pages and that plug operations work at start-up and at exit; in between they may fail.
- NameCache.Create: names are taken as already valid and in upper case; ENOSPC is not modelled, and the pointer blocks of the directory stand in it as the number of blocks they lead to, which NameCache.DirTree proves of the blocks themselves; creating, deleting and renaming start from a directory whose blocks are all reached, so what a second change does behind a gap is not modelled.
- Disk addresses in the file modules are a block address with an offset; pointer blocks are values with entries and a back index, not bytes.
- Files with null blocks, fixed-format files, truncation, write caching, character translation, dates, extended attributes, FUSE entry points and open files that are unlinked.
- Block reservation (reserve_meta_blocks) and recovery when the disk is full: the file modules assume that a free block exists.
- Integer widths: counts and addresses do not wrap around.
- Evaluation of rules in floating point, reading of /proc and /sys, signals and reload.
- Data set names and numbering of partitions in fdasd, VTOC library calls, prompting.
- The other tools of the repository (hyptop, dasdview, dasdinfo, zipl, ziomon and so on).
