# Verified model of ZEBX OS

A Dafny model of the algorithmic parts of ZEBX OS, a bare-metal operating system whose components are single C files.
`dafny verify dfyconfig.toml` checks the whole project. One module follows one component or one layer of it:

| modules | component |
|---|---|
| `Bitmap`, `Bytes`, `BlockCache`, `Inode`, `FileView`, `FileSystem`, `Directory` | ZEBXFS: block cache, allocator, inodes, block map, byte-level read and write, directories |
| `Syntax`, `Parser`, `ParserInverse`, `CodeGen` | native compiler: the expression parser (ISO C11, sections 6.5.1 to 6.5.16) and the IR generator |
| `Calculator` | shunting-yard conversion and RPN evaluation |
| `Heap`, `Paging` | kernel heap, frame allocator and two-level page map (32-bit paging, Intel SDM volume 3A, section 4.3) |
| `WorkQueue`, `Barrier`, `LoadBalance` | multicore support, under all interleavings of the cores |
| `SphereMesh` | index generation of the sphere mesh |
| `Html`, `HtmlInverse` | the browser's HTML parser |
| `Calendar` | seconds and dates |
| `Tokenizer`, `Vocabulary` | tokenizer, decoder and built-in word list of the language model |

Code that changes state in place is a class with the fields of the C structures, or a method over arrays, with the loops of
the source; ghost fields and functions give the value the state stands for, and lemmas say what the value keeps. Code that
runs on several cores is a relation over steps, one step for each access to shared memory, and every claim is about all runs.

## How the layers of the file system meet

`BlockCache.Cache` refines a flat sequence of blocks (`flat`): reads and writes through the cache are reads and writes of
`flat`, whatever is evicted, and flushing makes the device equal to it. `FileView.View` is that sequence together with the
allocation bitmap and an inode in memory; `Map` and `ByteAt` read the block map and the bytes of the file out of it.
`FileSystem.Volume` changes views: `Grown` says that an operation on one file took unused blocks only and touched nothing
that another file reads, `Holds` says which bytes the file has. `Directory` stores its records in such files.

A mounted file system is one whose superblock, bitmap, inode-table and journal blocks are marked used in the allocation
bitmap and whose files have no holes. `zebfs_format` itself does not establish this (see "Left out").

## What the code does that a reader may not expect

Each of these is stated by a member of the model, with the exact condition under which the code does what is wanted.

- A raw write may land on a less worn block that reads know nothing of (`BlockCache.WriteLandsIff`,
  `BlockCache.RewriteIsRedirected`). The file system is modelled over a device where it does not,
  and on which no sector access fails.
- `zebfs_write` and `dir_add_entry` test an unsigned block number for being negative, so the call that runs out of blocks
  reports success and its data is gone (`FileSystem.Volume.WriteSeekRead`, `Directory.AddEntry`). The directory is then longer
  than its blocks, and every further entry is refused, also when blocks are free again (`Directory.AddEntryAgain`).
- `dir_add_entry` does not look whether the name is there already: where its record goes decides which of the two entries is
  found from then on (`Directory.AddEntry`).
- `zebfs_free_block` does not look at the bitmap: freeing a free or a system block counts it all the same
  (`FileSystem.Volume.FreeBlock`). `phys_free` is alike (`Paging.MemoryManager.PhysFree`).
- `sizeof (x)[i]` is read as far as `sizeof (x)` only (`ParserInverse.SizeofReadIff`), and `x++` and `++x` are one tree
  (`ParserInverse.PostfixLooksLikePrefix`).
- The six comparisons become one instruction, and bitwise operators, assignments, `++` and `--` none at all, so that `a & b`
  computes `a`: which sets of operators any machine could run correctly is decided by `CodeGen.CompilableIff`, and for C by
  `CodeGen.CompilableInC` (`CodeGen.SameInstruction`, `CodeGen.NothingDone`).
- A request for one of the last three 32-bit sizes rounds to nothing, so `kmalloc` returns a block of at most 16 bytes for it,
  or grows the heap by a header alone (`Heap.Heap.Kmalloc`, `Heap.RoundUp`).
- The heap grows at an address computed from `heap_used`, which need not be the end of the heap (`Heap.GrowTiles`, `Heap.GrowTorn`),
  and `heap_used` does not come back when an allocation is freed (`Heap.Heap.KmallocKfree`).
- A commit record overwrites the journal's copy of the data it commits (`FileSystem.Volume.JournalCommit`).
- A fresh page table is not cleared, so mapping one page may map its neighbours (`Paging.MemoryManager.MmapPage`).
- The barrier hangs with fewer threads than it counts and is broken with more (`Barrier.TooFewThreads`, `Barrier.TooManyThreads`).
- With one or two segments the sphere is not a closed surface, and with none it has no triangles (`SphereMesh.SphereClosedIff`).
- Content after the 256th child of an element is lost to the tree, as is all but the last piece of a long text (`HtmlInverse.ParseInvertsPrint`).
- The year of a date wraps at 16 bits (`Calendar.TimestampOfDateOf`).
- Ids decoded into too small a buffer may come back all the same, if one of them is that of the unknown word (`Vocabulary.CutUnknown`); exactly which do is stated by `Tokenizer.DecodeEncode`, and for the built-in words by `Vocabulary.BuiltInFromCut`.

## Model

| member | source | states |
|---|---|---|
| `Bitmap.BitsAfterSet` | file_system.c:269-272 | Setting a bit changes that bit of the bitmap and no other, whichever byte it is in. |
| `Bitmap.BitsAfterClear` | file_system.c:274-277 | Clearing a bit changes that bit and no other. |
| `Bitmap.FindFree` | file_system.c:283-291 | Finds the lowest clear bit and sets it; -1 and no change exactly when every bit is set. |
| `Bitmap.CountClearUpdate` | file_system.c:283-291 | Changing one bit moves the number of clear bits by exactly one, and setting it to what it was leaves the number. |
| `BlockCache.WriteLandsIff` | file_system.c:166-182 | A raw write reaches the block it names if and only if no candidate numbered 1024 or above is less worn; the reserved area is never a target instead, but its own blocks can be redirected. |
| `BlockCache.RewriteIsRedirected` | file_system.c:166-182 | On an otherwise unworn device the second write to the same block goes elsewhere if and only if the block is numbered 961 or above and is not the last: all other candidates of a lower one, and of the last, from which they wrap around, lie in the reserved area. |
| `BlockCache.Cache.ReadBlockRaw` | file_system.c:154-164 | Reads what the device holds, sector by sector; fails for block numbers past the device and where a sector does, and on a reliable device nowhere else. |
| `BlockCache.Cache.WriteBlockRaw` | file_system.c:166-192 | Stores at the wear target and counts the wear; where a sector fails the block is left torn, its front new and the rest old; the device reads back as the flat view as long as no access failed and every write landed where it named. |
| `BlockCache.Cache.WriteBack` | file_system.c:224-227 | A dirty slot's block is on the device afterwards as the flat view has it, as long as raw writes succeed and land where they name. |
| `BlockCache.Cache.FindCache` | file_system.c:194-204 | Finds the slot of a cached block, -1 exactly when no slot has it, and only marks it as just used. |
| `BlockCache.Cache.ChooseVictim` | file_system.c:206-224 | Picks the first empty slot, or when there is none the first least recently used one. |
| `BlockCache.Cache.Replace` | file_system.c:224-238 | Eviction writes a dirty block back and reads the new one over it, the flat view is unchanged and no block is cached twice. |
| `BlockCache.Cache.AllocCache` | file_system.c:206-238 | Afterwards the block is cached in the slot returned, with the contents the flat view gives it. |
| `BlockCache.Cache.ReadBlock` | file_system.c:240-244 | Returns the block as the flat view has it, that is as last written, across any evictions. |
| `BlockCache.Cache.WriteBlock` | file_system.c:246-251 | Changes the flat view in that block and nowhere else. |
| `BlockCache.Cache.FlushCache` | file_system.c:253-263 | Flushing leaves the flat view as it was; on a reliable device it succeeds exactly when every dirty slot names a block of the device, and on any device success leaves no slot dirty but those of block 0, and the device equal to the flat view. |
| `Inode.DecodeEncode` | file_system.c:63-96 | Reading back the bytes of a stored inode gives every field back, each with its own width. |
| `Inode.PointerAfterSet` | file_system.c:472-483 | Storing one pointer in an indirect block changes that pointer and none of the other 511. |
| `FileView.OtherFileKept` | file_system.c:991-1034 | Growing or writing one file leaves the block map and every byte of any file that shares no block with it as they were. |
| `FileView.Overwrite` | file_system.c:1011-1024 | Storing a chunk in one block of a file splices exactly those bytes into the file and keeps its map. |
| `FileView.Extend` | file_system.c:464-499 | Giving a file its next block, with its pointer block when the 13th is due, keeps all blocks and bytes it had and adds a block of zeros. |
| `FileView.HoldsTrans` | file_system.c:1000-1024 | Writing one chunk and then the chunk behind it is writing both together. |
| `FileView.ReadBack` | file_system.c:955-1034 | What is read where data was written is a prefix of the data, and all of it if and only if there was nothing to write or the file has blocks up to its end. |
| `FileView.GrownFromNothing` | file_system.c:488-499 | All blocks taken since a file was empty belong to it, the indirect block included. |
| `FileSystem.Volume.AllocBlock` | file_system.c:395-408 | Takes the lowest free block, zeroes it and keeps the count of free blocks equal to the clear bits; 0 exactly when none is free, and then nothing changes. |
| `FileSystem.Volume.FreeBlock` | file_system.c:410-417 | Clears exactly that bit and counts one free block more; refuses exactly block 0 and numbers past the end. The count stays that of the clear bits, and the reserved blocks stay marked, if and only if the block was in use and not a reserved one. |
| `FileSystem.Volume.ReadInode` | file_system.c:345-356 | The inode that the table holds under the number; fails for 0 and numbers past the table. |
| `FileSystem.Volume.WriteInode` | file_system.c:358-370 | The table holds the inode afterwards, and every other inode as before. |
| `FileSystem.TableAfterStore` | file_system.c:358-370 | Storing one inode's bytes in its table block changes no other inode's bytes. |
| `FileSystem.Volume.InodeReadBlock` | file_system.c:423-462 | Finds the disk block of each of the first 524 file blocks as the map says, 0 where there is none; beyond them follows the two pointers of the double-indirect block; fails exactly past that range. |
| `FileSystem.Volume.SetIndirect` | file_system.c:470-484 | Enters a block in the pointer block, allocated first if there is none; fails exactly when one is needed and not to be had. |
| `FileSystem.Volume.InodeWriteBlock` | file_system.c:464-486 | Enters the next block of a file in its map, and the table holds the new inode; fails exactly when the place lies past the map or a pointer block is needed and not to be had; every other inode and file is the same. |
| `FileSystem.Volume.InodeAllocateBlock` | file_system.c:488-499 | Gives the file its next block, or fails with the bitmap and the free count as they were, exactly when the map or the disk is full. |
| `FileSystem.Volume.JournalBegin` | file_system.c:297-310 | Moves to the next sequence number and puts a begin record at the head of its journal slot; the rest of the slot and every other block are the same. |
| `FileSystem.Volume.JournalWrite` | file_system.c:312-325 | The slot holds a record naming the block and all but the last 24 bytes of its data; no other block differs. |
| `FileSystem.Volume.JournalCommit` | file_system.c:327-339 | Puts a commit record over the data record of the same sequence number; only the data behind it is left, and no file sees a difference. |
| `FileSystem.Volume.WriteTurn` | file_system.c:1000-1024 | One turn of the write loop: the chunk is in the file, or the file is stuck; position and size advance either way. |
| `FileSystem.Volume.Write` | file_system.c:991-1034 | The file is the old one with the data spliced in at the position as far as blocks can be had, the size is the maximum of the old size and the new position, the result is the number of bytes converted to a signed 32-bit integer, which is negative from 2^31 on, free blocks fall by exactly the blocks gained, other files and inodes are untouched; also from the position that an earlier write on a full disk has left. |
| `FileSystem.Volume.ReadBlocks` | file_system.c:961-983 | The read loop: the bytes of the mapped blocks from the position on, and how many there are. |
| `FileSystem.Volume.Read` | file_system.c:955-989 | Returns the bytes from the position on, as many as asked for and as the size and the mapped blocks allow, and advances by that much; no file changes. |
| `FileSystem.Volume.Seek` | file_system.c:1036-1052 | Sets the position from start, position or end in 64-bit unsigned arithmetic, then clamps it to the size; a negative target becomes the size. |
| `FileSystem.Volume.WriteSeekRead` | file_system.c:955-1052 | Writing, seeking back and reading returns the data if and only if there was none or the file's map and the free blocks have room for it, and otherwise a shorter prefix; also behind an earlier write that was lost. |
| `FileSystem.RoomIff` | file_system.c:488-499 | The number of free blocks and the size of the map decide beforehand whether a write fits, pointer block counted. |
| `FileSystem.Volume.AllocInode` | file_system.c:372-380 | Takes the lowest free inode number and counts one fewer; 0 if none is free, and also if number 0 was, which is then taken. |
| `FileSystem.Volume.FreeInode` | file_system.c:382-390 | Clears exactly that bit of the inode bitmap and counts one free inode more, in 64 bits; fails for 0 and numbers past the table, and then changes nothing. |
| `FileSystem.Volume.Unlink` | file_system.c:1062-1089 | Exactly the blocks of the file, its pointer block included, become free, its inode bit is cleared and one free inode counted; no block but the superblock's copy has other contents; failing changes nothing. |
| `FileSystem.Volume.CreateWriteUnlink` | file_system.c:816-838 | Allocating an inode, writing any data to the new file and unlinking it restores the allocation bitmap, the inode bitmap and both free counts exactly, even when the disk filled up; no inode is given exactly when none is free or number 0 is. |
| `Directory.FillSlot` | file_system.c:556-574 | Writing a record into the free slot of a block that is a chain of records appends one entry and leaves a chain. |
| `Directory.LookupInBlock` | file_system.c:516-536 | The walk by record lengths finds the first entry of the name in the block. |
| `Directory.Lookup` | file_system.c:505-541 | Returns the inode of the first entry of that name in the directory's blocks, or absent exactly when no block lists it or the inode is not a directory. |
| `Directory.ListingWith` | file_system.c:505-541 | An entry added at the end of any block is found under its name unless an entry of that name stands in front of it, and every other name finds what it found before. |
| `Directory.FindSlot` | file_system.c:546-574 | Finds the first block with a free slot, and the slot; without one, reports that a block is missing exactly when the directory's size goes past its blocks. |
| `Directory.AddEntry` | file_system.c:543-601 | Reports success if and only if a block has a free slot or the directory is not longer than its blocks; the entry is there afterwards if and only if a block had a free slot, or the directory had all its blocks and could get another; it is found unless the name is listed already in the blocks up to it; every other lookup is unchanged, the table holds the grown inode, and failing changes nothing. |
| `Directory.AddBlock` | file_system.c:578-601 | The new block holds the entry, or where none is to be had the listing is the same; the size grows and is stored either way. |
| `Directory.AddEntryAgain` | file_system.c:543-601 | A lost entry cannot be added by a second call, even after a block of another file has been freed: the first call reports success, the second fails, and the directory stays full and longer than its blocks, so that every further call fails. |
| `Parser.Parser.ParsePrimary` | GCCcompiler.c:658-696 | Reads atoms and parentheses: the tree and the stop position of the grammar function; tokens are not changed. |
| `Parser.Parser.ParsePostfix` | GCCcompiler.c:698-746 | The loop over subscripts, calls, members and increments. |
| `Parser.Parser.ParseUnary` | GCCcompiler.c:748-805 | Prefix operators, and sizeof with its two forms. |
| `Parser.Parser.ParseBinary` | GCCcompiler.c:811-974 | The ten levels of left-associative binary operators, each a loop over the level below. |
| `Parser.Parser.ParseConditional` | GCCcompiler.c:976-989 | The conditional expression, nested to the right. |
| `Parser.Parser.ParseExpr` | GCCcompiler.c:991-1015 | Assignment, associating to the right. |
| `ParserInverse.Parses` | GCCcompiler.c:658-1015 | Wherever the tokens of a derivation occur, followed by a token that does not go on with it, the parser of its level returns its tree and stops right behind its last token. |
| `ParserInverse.Unambiguous` | GCCcompiler.c:658-1015 | Two derivations with the same tokens have the same tree. |
| `ParserInverse.RoundTrip` | GCCcompiler.c:658-1015 | For every tree of an expression, printed with parentheses only where the ladder needs them, the parser returns the tree and stops at the end of what was printed. |
| `ParserInverse.Reparse` | GCCcompiler.c:1013-1015 | The same for the parser as it runs. |
| `ParserInverse.SizeofReadIff` | GCCcompiler.c:748-805 | sizeof is read whole if and only if its operand does not start with a parenthesis that ends before it does. |
| `ParserInverse.PostfixLooksLikePrefix` | GCCcompiler.c:730-746 | Written behind or in front, an increment or decrement is the same tree. |
| `CodeGen.Generator.GenExpr` | GCCcompiler.c:1136-1190 | Appends exactly the code of the tree behind the code already there, which is unchanged. |
| `CodeGen.GenComputes` | GCCcompiler.c:1136-1177 | A machine whose instruction for each operator computes it runs the code of every tree over these operators to the tree's value, faulting exactly with it. |
| `CodeGen.CompilableIff` | GCCcompiler.c:1136-1177 | For any operators with any meaning: some machine computes all their trees if and only if operators that share an instruction mean the same and those without one return their first operand. |
| `CodeGen.SameInstruction` | GCCcompiler.c:1145-1165 | Two binary operators become the same instruction exactly when they are equal, both comparisons, or both without one. |
| `CodeGen.NoInstruction` | GCCcompiler.c:1145-1165 | Bitwise operators and assignments have no instruction; arithmetic, comparisons and logical operators have one. |
| `CodeGen.CompilableInC` | GCCcompiler.c:1136-1177 | With C's meanings some machine computes all trees over a set of operators if and only if the set has at most one comparison and none that is bitwise, an increment or a decrement. |
| `CodeGen.NothingDone` | GCCcompiler.c:1136-1177 | An operator without an instruction leaves the value of its left operand, once both operands have been evaluated. |
| `CodeGen.GenCorrect` | GCCcompiler.c:1136-1177 | On the processor's instructions, code of +, -, *, /, %, <<, >>, unary - and ~ leaves the value of the tree in its register and the registers below alone, and faults exactly where the value does not exist. |
| `CodeGen.CompiledExpression` | GCCcompiler.c:658-1177 | Parsing, generating and running an arithmetic expression gives the value of the expression, or the fault that its evaluation has. |
| `Calculator.ReduceOperators` | calculator.c:1013-1064 | Pops to the output the operators that bind at least as tightly, in stack order. |
| `Calculator.ReduceToParen` | calculator.c:1013-1064 | Pops up to the opening parenthesis, drops it, and puts out a function in front of it. |
| `Calculator.InfixToRpn` | calculator.c:1013-1064 | The loop over stack and output arrays computes the conversion function, within the 256 slots. |
| `Calculator.TakeToken` | calculator.c:1018-1056 | One turn of the conversion loop takes one token as the conversion step does and writes at most as many slots as tokens were read. |
| `Calculator.ToRpnIsPostfix` | calculator.c:1001-1064 | Every expression of operators, parentheses and functions is converted to its postfix order; operators of one precedence associate to the left, "^" included. |
| `Calculator.EvaluateRpn` | calculator.c:1066-1126 | The loop over the value stack computes the evaluation function: an operator without two operands or a function without one ends the evaluation with 0 at once. |
| `Calculator.RpnValue` | calculator.c:1066-1126 | A postfix order pushes exactly one value, that of the expression, and leaves the stack below alone. |
| `Calculator.EvaluatesTo` | calculator.c:826-842 | Conversion and evaluation together give the expression's value, for every meaning of operators and functions. |
| `Calculator.ShowMeans` | calculator.c:1001-1011 | A tree written with the parentheses its precedences need is an expression with the tree's meaning. |
| `Calculator.Evaluate` | calculator.c:826-842 | The tokens of a tree evaluate to the tree's meaning. |
| `Heap.Heap.constructor` | memory.h:100-106 | One free block tiles the arena. |
| `Heap.Heap.Kmalloc` | memory.h:150-196 | First fit: the payload of the lowest block that serves the request becomes live and no other changes; otherwise the heap grows or, exactly past the limit, the result is null; the blocks tile the longer arena if and only if the heap was aligned. The block is at least as long as asked for if and only if no more than 2^32 - 4 bytes were asked for. |
| `Heap.RoundUp` | memory.h:151 | The size is rounded up to the next multiple of four, and to nothing for the last three 32-bit sizes. |
| `Heap.Heap.Search` | memory.h:153-176 | The walk along the list stops at the lowest block that serves the request, and finds none exactly when there is none. |
| `Heap.Heap.Take` | memory.h:155-174 | Splitting and taking a block keeps the tiling and adds exactly that block to the live ones. |
| `Heap.Heap.Extend` | memory.h:178-195 | Growth puts a block of the size given in use at the address computed from heap_used and links it behind heap_current; the list tiles the longer arena if and only if the heap was aligned, and then the block is live. |
| `Heap.Heap.Kfree` | memory.h:198-221 | Frees exactly that payload and merges both neighbours: tiling, links and the absence of neighbouring free blocks are kept; heap_used falls by the payload and the free block merged behind it. |
| `Heap.Heap.MergeAround` | memory.h:204-218 | Merging the free neighbours of a freed block keeps the tiling and the live payloads and leaves no two free neighbours. |
| `Heap.Heap.KmallocKfree` | memory.h:150-221 | Freeing what was just allocated restores the live payloads, and heap_used if and only if the block chosen was an exact fit. |
| `Heap.Covered` | memory.h:150-221 | Every address of the arena belongs to exactly one block. |
| `Heap.ExtentIsArena` | memory.h:150-221 | Walking the list, sizes plus headers sum to the arena. |
| `Heap.AllFreeIsOneBlock` | memory.h:198-221 | When nothing is live the heap is one block again, whatever happened before. |
| `Heap.GrowTiles` | memory.h:183-192 | Growing at the end, behind the last block, extends the tiling. |
| `Heap.GrowTorn` | memory.h:183-192 | Growing anywhere else leaves no set of blocks that tiles the longer arena. |
| `Paging.MemoryManager.constructor` | memory.h:108-120 | Exactly the first 2048 pages are marked, the page map is empty, and the counters stand at their distance from the bitmap. |
| `Paging.MemoryManager.PhysAlloc` | memory.h:122-136 | Marks the lowest unmarked page and returns its address, which is that of a free frame at or above 2048 exactly when one with a 32-bit address is free, and else that of a frame in use; with every page marked the result is 0 and nothing changes; the page counters follow the bitmap. |
| `Paging.MemoryManager.PhysFree` | memory.h:138-148 | Unmarks exactly that frame; the page map stays sound if and only if the frame is one handed out by the allocator that holds no page table, and the counters still follow the bitmap if and only if the frame was in use. |
| `Paging.MemoryManager.MmapPage` | memory.h:236-257 | The page translates to the frame; pages of other directory entries and, if the entry was present, all other pages keep their translation; else the fresh table shows what the frame held; tables stay in distinct used frames. |
| `Paging.MemoryManager.MunmapPage` | memory.h:259-267 | The page has no translation afterwards, every other page the one it had. |
| `WorkQueue.StepInv` | multicore.c:497-566 | Every atomic step of any thread keeps lock, queue and item ownership in order. |
| `WorkQueue.MutualExclusion` | multicore.c:497-507 | In every run at most one thread is between acquire and release. |
| `WorkQueue.QueueWhole` | multicore.c:513-534 | Whenever the lock is free, head, tail and count describe one finite list without repetition. |
| `WorkQueue.FirstInFirstOut` | multicore.c:513-566 | Items leave in the order of the enqueue critical sections, each at most once, and what has not left is in the queue. |
| `WorkQueue.ItemsSafe` | multicore.c:544-566 | No item is followed after it is freed, and none is freed twice. |
| `WorkQueue.CanGoOn` | multicore.c:497-507 | In every run a thread can move if and only if it is not at the lock or the lock is free; while the lock is held, it is a thread that holds it, and that one can move. |
| `WorkQueue.LockIsReleased` | multicore.c:497-566 | The holder gives the lock back within seven steps of its own: each brings it nearer to the release, and no step of another thread touches the lock or moves the holder. |
| `Barrier.StepInv` | multicore.c:698-710 | Every atomic step keeps the relation between waiters, generation and what each thread has entered and left. |
| `Barrier.BarrierSafe` | multicore.c:693-710 | With as many threads as the barrier counts, none returns from its k-th wait before all have entered theirs, and each round has exactly one releasing thread, over any number of rounds and counter wraps. |
| `Barrier.BarrierLive` | multicore.c:698-710 | Some thread can always move; a spinning thread sees the generation it waits for changed exactly when its round has been released; and once all have arrived a releasing step is enabled. |
| `Barrier.TooFewThreads` | multicore.c:698-710 | With fewer threads no thread ever returns. |
| `Barrier.TooManyThreads` | multicore.c:698-710 | With more threads there is a run where one returns that another has not entered with. |
| `LoadBalance.LoadBalancer.BalanceLoad` | multicore.c:584-612 | Moves five units from the first busiest eligible core to the first idlest exactly when two eligible cores are more than ten apart. |
| `LoadBalance.StepConserves` | multicore.c:604-611 | A call conserves the total, stays within 32 bits, leaves cores that are not eligible alone, and takes at least 60 off the sum of squares unless the loads are even. |
| `LoadBalance.StepNarrows` | multicore.c:604-611 | Bounds on the eligible loads before a call hold after it. |
| `LoadBalance.RunSettles` | multicore.c:584-612 | With fixed core states, repeated calls reach loads at most ten apart within a sixtieth of the initial squares, and then change nothing. |
| `SphereMesh.Buffers.CreateSphere` | graphics_mesh.c:64-129 | The loops append exactly the vertices and triangles of the sphere, in order, behind what the buffers hold. |
| `SphereMesh.Buffers.CreateVertices` | graphics_mesh.c:67-95 | Poles and rings in order for any numbers of rings and segments. |
| `SphereMesh.SphereClosedIff` | graphics_mesh.c:97-128 | Every directed edge occurs in one triangle only and its reverse in another if and only if there are no segments, and so no triangles, or three or more. |
| `SphereMesh.TooFewSegments` | graphics_mesh.c:102-107 | With one or two segments some edge is used twice in the same direction. |
| `SphereMesh.CornersInRange` | graphics_mesh.c:97-128 | Every index lies among the new vertices. |
| `SphereMesh.IndexUnique` | graphics_mesh.c:97-128 | No two vertices share an index. |
| `SphereMesh.VertexInPlace` | graphics_mesh.c:67-95 | The vertex of an index is where the index says. |
| `SphereMesh.ListIsSphere` | graphics_mesh.c:102-128 | The triangle list contains each face once and nothing else, 2 * segments * (rings - 1) of them. |
| `SphereMesh.Euler` | graphics_mesh.c:64-129 | The undirected edges of the triangles, counted as sets of two corners, are three for every two triangles, and vertices minus edges plus triangles is two. |
| `Html.Document.CreateNode` | browser.c:749-760 | A new node without text or links. |
| `Html.Document.AppendChild` | browser.c:762-778 | The child becomes the last of at most 256, linked with parent and previous sibling; without room nothing changes. |
| `Html.ScanTag` | browser.c:656-668 | The tag's name, cut at the buffer's length, and the position behind its '>'. |
| `Html.Document.ReadTag` | browser.c:647-717 | A tag with its attributes is read past its '>': an element opened, or the parent made current. |
| `Html.Document.ReadText` | browser.c:718-738 | A run of text, cut at 4095 characters and trimmed in front, becomes the text of the current node. |
| `Html.Document.Parse` | browser.c:627-747 | The loop computes the parsing function, and the document is good. |
| `Html.GoodOpened` | browser.c:703-714 | Whatever is parsed, parent, child and sibling links stay mutually consistent and nodes stay within their limits. |
| `HtmlInverse.ParseInvertsPrint` | browser.c:627-747 | For every tree of recognised tags, the body of the document parsed from its text is the tree if and only if the tree has at most 256 children a node, texts of at most 4095 characters not starting with a space, and void elements without content; and the parser is back at the body. |
| `HtmlInverse.ReadTree` | browser.c:645-738 | Reading one printed element, wherever it stands, appends exactly that tree to the current node and leaves the rest to be read. |
| `HtmlInverse.GoodIsHoldable` | browser.c:627-778 | Every subtree of every document is one of those trees. |
| `Calendar.ToTimestamp` | timer.c:258-282 | The loops over years and months compute the timestamp in 64 bits. |
| `Calendar.FromTimestamp` | timer.c:284-318 | The loops compute the date of any timestamp; the month never leaves 1 to 12. |
| `Calendar.DateOf` | timer.c:284-318 | Every date computed is valid, and its century is that of its year. |
| `Calendar.DateOfTimestamp` | timer.c:258-318 | A date comes back, its century recomputed, if and only if it is valid and not before 1970. |
| `Calendar.TimestampOfDateOf` | timer.c:258-318 | A timestamp comes back if and only if it lies before the year 65536. |
| `Calendar.TimestampRises` | timer.c:258-282 | Later valid dates have greater timestamps. |
| `Tokenizer.VocabFindLongest` | ai.c:63-84 | The first of the longest words the text starts with, or the unknown id with length 0 when there is none. |
| `Tokenizer.Tokenize` | ai.c:86-118 | Fills the buffer with the tokens of the text, at most as many as asked for, and leaves the rest of it. |
| `Tokenizer.Encode` | ai.c:120-125 | The ids of those tokens. |
| `Tokenizer.Decode` | ai.c:127-138 | The joined words as far as they fit, and the terminator behind them. |
| `Tokenizer.EncodeDecode` | ai.c:63-138 | For a vocabulary of distinct non-empty words without spaces, decoding and encoding gives every id of the vocabulary back and the unknown id for any other. |
| `Tokenizer.EncodeDecodeIff` | ai.c:63-138 | The list of ids comes back if and only if all of them are in the vocabulary. |
| `Tokenizer.DecodeEncode` | ai.c:120-138 | Decoding into one buffer and encoding into another: a text that fits gives the ids back if and only if all are in the vocabulary and they fit the limit on tokens; a text that is cut off, if and only if it ends within an unknown word, the ids before it are in the vocabulary, and those from it on are what the letters left of it are taken for. |
| `Tokenizer.CutIff` | ai.c:63-138 | Exactly which texts that were cut off encode to the ids they were decoded from. |
| `Vocabulary.BuiltInFromCut` | ai.c:36-138 | For the built-in list: those that end one to four letters into the first of the unknown words at the end of the ids, of which there are as many as letters are left or tokens are to be had. |
| `Vocabulary.CutUnknown` | ai.c:63-138 | With the built-in list, the unknown word cut after its first letter comes back as itself. |
| `Vocabulary.BuiltInSeparable` | ai.c:36-46 | The built-in word list is of distinct non-empty words without spaces, more than the unknown id, so that all of the above holds of it. |
| `Tokenizer.TokensSpellText` | ai.c:86-118 | Of any text the tokens spell every letter in order, all of them if the limit on tokens is not reached. |
| `Tokenizer.BestStopsAtSpace` | ai.c:63-84 | A space or the end of the text closes the longest match. |

## Left out

- FileSystem.Volume.Write: speaks of files without holes up to 524 blocks, the part of the block map that writing can build, of positions within the size, and past the file's blocks only while none is to be had: a write there after blocks have become free again makes a hole, and sparse files are not modelled. Positions stay below 2^64.
- FileSystem.Volume.WriteSeekRead: under the same conditions as Write.
- FileSystem.Volume.Read: returns what the cache holds; above the cache the device is one without failing sectors and wear levelling, which reads back what was written.
- FileSystem.Volume.JournalCommit: there is no replay code in the source, so nothing is said about recovery after a crash.
- FileSystem.Volume.StoreSuperblock: the bytes stored in block 1 are not described, only that no other block changes.
- FileSystem.Volume.CreateWriteUnlink: path lookup and the directory entry around it (file_system.c:607-640, 795-850) are left out.
- Directory.AddEntry: requires that the record fits behind the first free slot, since the source does not check it and would write past the buffer.
- Inode.DecodeEncode: the 44 bytes of the declared fields that a stored inode still covers are kept as one tail; the reserved fields beyond ZEBXFS_INODE_SIZE are not stored by the source either.
- Mount and format (file_system.c:644-793): format leaves the journal outside the reserved area and the root inode in the slot of number 0, so a well-formed state is assumed instead of derived.
- Parser.Parser.ParsePrimary: the model's token stream holds no white space, newline or comment tokens, which the lexer emits and the parser never skips; names are strings, not the unset pointer that the source prints through.
- Parser.Parser.ParseArguments: more than 64 arguments overflow the node in the source and are excluded from printed trees.
- CodeGen.GenCorrect: the source gives the IR no execution, so registers and a jump-free run are the obvious ones, and an instruction is a partial function of its operands. Statements, calls, identifiers, optimiser passes and x86 emission are left out.
- CodeGen.CompilableInC: the logical operators have an instruction, but C may skip their right operand, so that they are not operators on two values and stay out of this corollary.
- CodeGen.NoInstruction: GCCcompiler.c:1155 and 1173 name TOK_XOR, IR_XOR and IR_BNOT, which are declared nowhere. The model takes IR_BNOT to be an instruction of its own for "~", and "^" as the lexer gives it, TOK_BXOR, which the table does not list; the arm for TOK_XOR is not modelled, as no token is of that kind. CodeGen.CompilableInC rests on the same reading.
- Calculator.EvaluateRpn: operators and functions are parameters, so floating-point results play no part; the character-level tokenizer (calculator.c:844-998), variables and base conversions are left out, and "~" and "!" are operators that want two operands, as in the source.
- Calculator.Evaluate: starts from tokens, not from the characters typed.
- Heap.Heap.Kmalloc: payload bytes are not part of the model, only headers, which are kept by address, so that headers that overlap in part after growth away from the end are not captured; after such growth no invariant is claimed but that none can hold.
- Paging.MemoryManager.MmapPage: page tables change only through this code; stores through mapped pages, the identity map of memory_init (memory.h:82-91) and the translation cache of the processor are left out.
- WorkQueue.StepInv: one queue with any number of threads enqueueing and draining; allocation always succeeds with a fresh address, and memory is sequentially consistent.
- Barrier.BarrierSafe: memory is sequentially consistent; the counters wrap at 32 bits as in the source.
- LoadBalance.LoadBalancer.BalanceLoad: periodic refresh of loads from queue lengths (multicore.c:725-729) is left out.
- SphereMesh.Buffers.CreateSphere: vertices are poles and ring positions, not floating-point coordinates; at least two rings are required, since with fewer the unsigned loop bound wraps, and buffers are required to be large enough, which the source does not check.
- Html.Document.Parse: nodes are numbered in a sequence and links are numbers, so aliasing of heap objects is not captured; allocation succeeds; the text holds no NUL character, as its length is that of a C string. The character constants at browser.c:662, 732 and 737 are written with two backslashes; they are read as NUL, newline and tab.
- Html.Document.CreateNode: style and layout fields are left out.
- Calendar.ToTimestamp: requires a month of at most 13, since beyond it the source reads past its table of month lengths.
- Calendar.DateOfTimestamp: the same bound on the month.
- Tokenizer.EncodeDecode: texts and words hold no NUL character, as their lengths are those of C strings.
- Tokenizer.Encode: requires at most 4096 tokens, the size of the source's buffer; token text is the preview of 31 characters.
- Tokenizer.Decode: requires room for the terminator, since a length of 0 wraps in the source.
- The rest of the browser (URL codec, cache log, layout, rendering), the bigram model and its sampling, timer callbacks, the real-time clock's registers, processes, drivers, graphics and the shell: no invariant of comparable depth.
