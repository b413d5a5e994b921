# A verified model of the Sodex kernel's state-heavy parts

Sodex is a from-scratch i486 kernel. This project models, in Dafny 4.11, the parts of it whose correctness is hardest to see,
and proves what they promise:

- the field arithmetic, X25519 and Poly1305 of `src/lib/tweetnacl.c`, down to every 64-bit and 32-bit intermediate result;
- the ext3 block layer: block maps, bitmaps, the write-back list, reading and writing files, directory blocks;
- the kernel heap over its linked descriptor lists, and the page pool with two-level page tables, fork-clone and teardown;
- the accept backlog of the socket table, and descriptor tables with pipes, as state machines over any run of calls;
- the authorization throttle of the admin server, over any run of requests and ticks;
- AES with CBC, SHA-256 fed in pieces, and the SSH wire format.

`dafny verify dfyconfig.toml` checks everything. Code that works in place stays in place here: arrays and classes with
`modifies` clauses, each method proved against a function of the old state, and the laws proved about those functions.

| modules | what they hold |
|---|---|
| `Digits` | positional notation, congruences, 32-bit casts |
| `Field25519`, `X25519`, `Ladder`, `Poly1305` | tweetnacl.c against RFC 7748 and RFC 8439 |
| `HeapSpec`, `MemHoles`, `KernelHeap` | the heap on values, the linked lists, the code over the lists |
| `Ext3Map`, `Ext3Ensure`, `Ext3Blocks` | block maps, what one call of `ext3_inode_ensure_block` computes, the code |
| `Ext3Bytes`, `Ext3Pending`, `Ext3Files`, `Ext3Read` | files as flat byte sequences, and the list of blocks not yet written |
| `Ext3Twice`, `Ext3Lost`, `Ext3Wrap` | two acquisitions, and writes, that share a table; writes past 2^32 |
| `Ext3Release`, `Ext3Dir` | releasing an inode's blocks, directory blocks |
| `PageRuns`, `PagePool`, `PageTables`, `PageSpaces` | runs of pages, the pool, mapping, teardown |
| `PageFates`, `PageClone`, `PageShortage`, `PageSystem` | where a clone will stop, clone, a clone that stops, and any history of the calls |
| `SocketTable`, `Sockets` | the backlog invariant, and the calls with network events in between |
| `PipeRing`, `FileTables`, `Files` | the byte ring, reference counts, and the calls |
| `AuthThrottle` | the throttle |
| `AesSteps`, `Aes`, `AesBuffer`, `AesCbc` | the round steps, the cipher and CBC as functions, the code in place |
| `Sha256` | SHA-256 |
| `SshFields`, `SshPackets` | fields and packets |

## Model

| member | source | states |
|---|---|---|
| `Field25519.Car25519` | src/lib/tweetnacl.c:360-370 | one carry pass gives the digits of the number with the last carry folded back times 38; no 64-bit result overflows for limbs up to 2^62 |
| `Field25519.CarriedElem` | src/lib/tweetnacl.c:360-370 | a carry pass keeps the residue modulo 2^255-19 for every limb vector |
| `Field25519.A` | src/lib/tweetnacl.c:431-435 | the sum denotes the field sum, and the sum of two reduced vectors stays within the bound M takes |
| `Field25519.Z` | src/lib/tweetnacl.c:437-441 | the difference denotes the field difference, with the same bound |
| `Field25519.M` | src/lib/tweetnacl.c:443-453 | the product denotes the field product, every partial sum fits 64 bits, and the output is reduced, for all limbs up to 2^26 and with any aliasing of the operands |
| `Field25519.S` | src/lib/tweetnacl.c:455-458 | squaring, with the same bounds |
| `X25519.SelLimb` | src/lib/tweetnacl.c:372-381 | the masked exclusive-or on the 64 bits of two words exchanges them under a mask of ones and keeps them under zeros |
| `X25519.Sel25519` | src/lib/tweetnacl.c:372-381 | the two vectors are exchanged exactly if the bit is 1 |
| `X25519.Unpack25519` | src/lib/tweetnacl.c:424-429 | the limbs denote the little-endian number with its top bit ignored |
| `X25519.Pack25519` | src/lib/tweetnacl.c:383-407 | the 32 bytes are the little-endian number of the representative in [0, p), for every vector of limbs up to 2^62 |
| `X25519.PackingIsCanonical` | src/lib/tweetnacl.c:383-407 | two vectors pack to the same bytes if and only if they are the same field element |
| `Ladder.Inv25519` | src/lib/tweetnacl.c:460-470 | the loop of 254 squarings with two multiplications left out computes exactly the power p-2 |
| `Ladder.EagerSwap` | src/lib/tweetnacl.c:505-529 | swapping back at the end of every iteration, as the code does, is the delayed swap of RFC 7748 |
| `Ladder.Rung` | src/lib/tweetnacl.c:505-529 | one iteration is the specified ladder step between two swaps, and every limb bound holds again for the next |
| `Ladder.ScalarMult` | src/lib/tweetnacl.c:484-540 | for every scalar and every point the result is the X25519 function of section 5 of RFC 7748 |
| `Poly1305.Add1305` | src/lib/tweetnacl.c:258-266 | addition with carries, modulo 2^136 |
| `Poly1305.MulColumns` | src/lib/tweetnacl.c:292-295 | each column is the 17-term sum with the overflowing part times 320, and no sum reaches 2^32 |
| `Poly1305.Absorb` | src/lib/tweetnacl.c:286-311 | one block: (h + c) * r modulo 2^130-5, with limbs loose enough for the next block |
| `Poly1305.Freeze` | src/lib/tweetnacl.c:313-316 | the result is the residue in [0, 2^130-5) |
| `Poly1305.OneTimeAuth` | src/lib/tweetnacl.c:272-323 | the tag equals Poly1305 of section 2.5 of RFC 8439 for messages of every length and every key |
| `HeapSpec.TilingCovers` | src/memory.c:84-123 | in a tiled pool every address lies in exactly one hole or block |
| `HeapSpec.HoleIsUnused` | src/memory.c:534-545 | the trap of used_check cannot be reached from a tiled pool |
| `HeapSpec.Neighbours` | src/memory.c:288-303 | the overlap exit ILLEGAL1 cannot be reached when a hole lies above the block |
| `HeapSpec.AllocFreeRestores` | src/memory.c:152-319 | allocating, aligned or not, and then freeing gives back the same state if and only if a hole lies above the block handed out |
| `HeapSpec.CarveFreeRestores` | src/memory.c:180-319 | the same for any hole the block is cut from: if and only if the hole was split or another lies above it |
| `HeapSpec.EveryRunTiles` | src/memory.c:180-319 | in every run of allocations and releases that meets the demands, holes and blocks tile the pool, holes are sorted and never adjacent, and descriptors are conserved |
| `HeapSpec.FreeKeepsTilingIff` | src/memory.c:288-319 | releasing keeps the pool tiled if and only if some hole lies above the block |
| `HeapSpec.WholePoolIsLost` | src/memory.c:288-319 | a concrete run: a pool handed out whole and given back leaves no hole and no block |
| `MemHoles.Unlink` | src/include/memory.h:67-70 | the ring without the node; the node keeps its stale links |
| `MemHoles.LinkHead` | src/include/memory.h:82-87 | the ring with the node in front |
| `MemHoles.LinkTail` | src/include/memory.h:89-94 | the ring with the node at the end |
| `MemHoles.LinkBefore` | src/include/memory.h:96-101 | the ring with the node before another |
| `KernelHeap.Heap.constructor` | src/memory.c:84-123 | the initial lists: one hole, every other descriptor spare |
| `KernelHeap.Heap.PopSpare` | src/memory.c:321-328 | the first spare descriptor leaves its list |
| `KernelHeap.Heap.UsedCheck` | src/memory.c:534-545 | reports exactly whether a used block starts at the hole's base |
| `KernelHeap.Heap.Kalloc` | src/memory.c:180-213 | the linked lists step as first fit on values says, and the pointer is the base of the chosen hole or 0 |
| `KernelHeap.Heap.Aalloc` | src/memory.c:237-286 | the same for aligned requests; the pointer is aligned and the block covers the request |
| `KernelHeap.Heap.MergeHole` | src/memory.c:162-178 | a stretch of holes becomes one of their total size, the other descriptors become spares |
| `KernelHeap.Heap.MergeStale` | src/memory.c:162-178 | the same code along links that lead into the used list |
| `KernelHeap.Heap.InternalMerge` | src/memory.c:288-319 | the linked lists step as `FreeStep` says, whether or not a hole lies above; the result is always OK from a tiled pool |
| `KernelHeap.Heap.Kfree` | src/memory.c:152-160 | a block that starts at the pointer is released by `FreeStep`; any other pointer is refused and nothing changes |
| `KernelHeap.Heap.Afree` | src/memory.c:215-234 | the newest block whose aligned address is the pointer is released by `FreeStep`, or nothing changes |
| `Ext3Blocks.Ext3.SetBitmap` | src/ext3fs.c:318-321 | exactly bit b is set |
| `Ext3Blocks.Ext3.ClearBitmap` | src/ext3fs.c:323-326 | exactly bit b is cleared |
| `Ext3Blocks.Ext3.GetFreeBitmap` | src/ext3fs.c:293-316 | the first clear bit, or -1 if there is none |
| `Ext3Blocks.Ext3.AllocBlock` | src/ext3fs.c:273-291 | the first free block is marked used, and both free counters move with the number of clear bits |
| `Ext3Blocks.Ext3.GetBlock` | src/ext3fs.c:498-551 | the block number the map holds for the logical block, 0 for a hole, in all three ranges |
| `Ext3Blocks.Ext3.MarkBlockDirty` | src/ext3fs.c:414-435 | the block goes to the front of the list; nothing else changes |
| `Ext3Blocks.Ext3.EnsureBlock` | src/ext3fs.c:553-677 | inodes, bitmap, counters and list become what `Run` computes from the disk as it is read; past the last stage nothing changes |
| `Ext3Ensure.IndirectFound` | src/ext3fs.c:569-605 | the indirect stage never comes to block 0, so the code never falls through from it into the double-indirect one |
| `Ext3Blocks.Ext3.Flush` | src/ext3fs.c:1455-1499 | the list is written in its order, so that the oldest entry for a block is the one that stays |
| `Ext3Ensure.RunAcquires` | src/ext3fs.c:553-677 | from a clean list, what the call computes and the flush of its list amount to filling the missing slots on the way to the block, for direct, indirect and double-indirect blocks |
| `Ext3Map.AcquireMapsOne` | src/ext3fs.c:553-677 | filling those slots maps the block, leaves every other mapping of every inode, and keeps "every reachable block is marked used and reached by one path" |
| `Ext3Read.AcquireThenFlush` | src/ext3fs.c:553-677 | acquire, flush, look up: the lookup finds the block acquired, no other mapping of any inode changes, and the block map stays consistent |
| `Ext3Twice.ClashExactly` | src/ext3fs.c:553-677 | the acquisitions of two missing blocks write a common table exactly when both are single-indirect, under one leaf, or under two missing leaves |
| `Ext3Twice.AcquireTwice` | src/ext3fs.c:553-677 | acquire, acquire, flush: the first block is mapped; the second is mapped if and only if no table is written for both, and then no other mapping changes |
| `Ext3Twice.SmallLoses` | src/ext3fs.c:575-604 | a concrete file system in which logical blocks 12 and 13 clash |
| `Ext3Lost.WriteLoses` | src/ext3fs.c:1224-1277 | a write over two missing blocks that write one table returns the full count and sets the full size; the first block holds its bytes and the second has no block |
| `Ext3Lost.KeepsOrLoses` | src/ext3fs.c:1224-1277 | a write over two missing blocks either meets the demand of `Ext3Files.Write` or is one that loses, never both |
| `Ext3Lost.SmallClashes` | src/ext3fs.c:575-604 | the concrete file system again, for a write over logical blocks 12 and 13 |
| `Ext3Files.Write` | src/ext3fs.c:1224-1277 | the file becomes the flat byte sequence with the buffer spliced in, the gap past the end zero-filled; no other file's bytes change; the counters and the block map stay consistent |
| `Ext3Files.FlatOnlyIfFits` | src/ext3fs.c:1224-1277 | whatever was done to the disk, a file of 32-bit size is the flat write only if the write ends below 2^32 |
| `Ext3Wrap.WriteRound` | src/ext3fs.c:1224-1277 | a write that runs past 2^32: the bytes before it go where they should, the rest to the start of the file, every other byte of every file is unchanged, and the size is brought up to the 32-bit sum only |
| `Ext3Wrap.TwentyBytesWrap` | src/ext3fs.c:1237-1249 | the concrete case: of twenty bytes at ten below 2^32 the last ten are the first of the file |
| `Ext3Read.Read` | src/ext3fs.c:1175-1222 | the data is the matching slice of the flat file, cut at its end |
| `Ext3Bytes.BytesRoundTrip` | src/ext3fs.c:481-496 | a block read as bytes and as words is the same block |
| `Ext3Release.FreeBlock` | src/ext3fs.c:679-692 | the bit of the block is cleared unless the number is 0 or the bit was clear, and the counters follow |
| `Ext3Release.OwnedIff` | src/ext3fs.c:694-758 | what the code walks over is exactly what the inode's slots reach: data, tables and leaves |
| `Ext3Release.Release` | src/ext3fs.c:694-758 | the inode is emptied, exactly its blocks are cleared, free counters less clear bits stay the same, the map stays consistent |
| `Ext3Release.ReleasedExactly` | src/ext3fs.c:694-758 | a bit is cleared if and only if the inode reached the block, and every other inode maps what it did |
| `Ext3Dir.WriteDirent` | src/ext3fs.c:444-458 | one record in place, everything around it unchanged |
| `Ext3Dir.Rebuild` | src/ext3fs.c:460-479 | the block is the layout of the list, the last record stretched to the end |
| `Ext3Dir.Parse` | src/ext3fs.c:186-239 | the entries of the block, in reverse |
| `Ext3Dir.RoundTrip` | src/ext3fs.c:186-239 | for every list that fits, parsing the layout gives the entries back, and the record lengths add up to 4096 |
| `Ext3Dir.RebuildAndParse` | src/ext3fs.c:437-479 | rebuilding and parsing gives inode, name and type of every entry in reverse order |
| `PagePool.Vm.constructor` | src/memory.c:84-123 | the initial pool: one hole, every other descriptor spare |
| `PagePool.Vm.Palloc` | src/memory.c:380-404 | the lowest place with enough consecutive free frames, or nothing if there is none anywhere; descriptors are conserved |
| `PagePool.Vm.Pfree` | src/memory.c:406-443 | from a whole pool the run goes back if a hole lies above it, is lost if none does, and an unknown address is refused; its descriptor is accounted for if and only if a hole lies above |
| `PagePool.FreedTotal` | src/memory.c:406-443 | whatever the lists hold, a release never makes their total larger |
| `PagePool.FreeKeepsWholeIff` | src/memory.c:406-443 | a release keeps the pool whole if and only if a hole lies above the block |
| `PagePool.TakeKeepsCount` | src/memory.c:380-404 | taking a run conserves descriptors |
| `PagePool.FreeKeepsCountIff` | src/memory.c:162-178 | a release keeps the pool's number of descriptors if and only if a hole lies above the run and none touches it; otherwise one or two go to the heap's list, or one is lost |
| `PagePool.PairsLeak` | src/memory.c:162-178 | after n requests of one size, each given back at once, the pool holds what it did, n spare descriptors fewer |
| `PagePool.RunsDry` | src/memory.c:380-443 | so the next such request finds a descriptor if and only if n is below the number of spares at the start |
| `PagePool.ThreePairsRunDry` | src/memory.c:380-443 | a concrete pool of three spare descriptors that three pairs use up |
| `PagePool.LastRunIsLost` | src/memory.c:406-443 | a concrete pool that cannot be given back |
| `PageTables.SetProcessPage` | src/page.c:119-178 | page k of the range maps to frame base + k across any number of tables, exactly the first is HEAD, every other translation is unchanged; without frames nothing changes; a table that cannot be had leaves exactly the first m pages mapped |
| `PageSpaces.FreeProcessPages` | src/page.c:260-290 | the directory is cleared; the pool is whole afterwards if and only if a hole lay above each run and table of the space, and then each of them went back exactly once and nothing else did |
| `PageClone.CloneProcessPages` | src/page.c:180-258 | on success the child has the parent's pages, access bits and contents on runs of its own and the parent is unchanged; where it stops is `DirFate` of the state before; on failure everything taken goes back if and only if it stopped for want of a table and a hole lies above all that was taken, else exactly the table begun and its first runs stay taken |
| `PageShortage.OneFreeIsWhole` | src/memory.c:380-404 | a concrete pool of three frames, one of them free |
| `PageShortage.ParentIsGood` | src/page.c:180-258 | a parent with one page in it |
| `PageShortage.OneFrameShort` | src/page.c:203-229 | cloning that parent stops for want of a run, with the frame of the new table taken |
| `PageShortage.CostIsTwo` | src/page.c:180-258 | and there are descriptors for all of it |
| `PageShortage.FailsAtFirst` | src/page.c:180-258 | a clone that stops there returns failure, leaves the child empty, and keeps that frame |
| `PageClone.ShareNoFrame` | src/page.c:180-258 | spaces with different runs share no frame |
| `PageClone.FreeKeepsOther` | src/page.c:260-290 | freeing one space leaves the other whole |
| `PageSystem.StepKeeps` | src/page.c:119-290 | mapping, cloning and freeing, and mappings and clones that fail for want of frames, keep all spaces apart and change only the target's pages |
| `PageSystem.HistoryKeeps` | src/page.c:119-290 | so over any history of such events |
| `PageSystem.Map` | src/page.c:119-178 | a mapping that goes through, and one without frames for the run, is such an event |
| `PageSystem.Fork` | src/page.c:180-258 | a clone is such an event, and so is one that fails, if the pool is whole after it |
| `PageSystem.Exit` | src/page.c:260-290 | a teardown is such an event if and only if a hole lay above each run and table |
| `PageSystem.CloneIsExact` | src/page.c:180-258 | at any point of any history a clone has the parent's contents and access bits, page for page, on frames that are not the parent's |
| `Sockets.Enqueue` | src/socket.c:291-301 | accepted exactly below the limit, at the end of the queue |
| `Sockets.Dequeue` | src/socket.c:303-318 | the oldest child, the others moved up |
| `Sockets.RemoveFd` | src/socket.c:320-336 | exactly that child leaves the queue |
| `Sockets.Net.Alloc` | src/socket.c:264-289 | an unused entry, freshly initialised, or none is unused |
| `Sockets.Net.Listen` | src/socket.c:413-437 | the socket listens with an empty backlog and the limit clamped to 1..4 |
| `Sockets.Net.BindInbound` | src/socket.c:508-553 | a new child at the end of the backlog of a listener on the port, or nothing changes |
| `Sockets.Net.TryAccept` | src/socket.c:439-477 | the oldest child still open; closed ones in front of it are released; no other entry changes |
| `Sockets.Net.CloseChildren` | src/socket.c:961-968 | while a listener's children are closed, with any network events in between, none is queued in their place: its backlog ends empty |
| `Sockets.Net.Close` | src/socket.c:935-1016 | the entry is unused afterwards, no child is orphaned, and closing anything but a listener or a waiting child disturbs no other backlog |
| `Sockets.OneToOne` | src/socket.c:291-336 | pending children and backlog entries correspond one to one |
| `Sockets.NoOrphan` | src/socket.c:935-1016 | an entry that is not a listener has no children and no backlog |
| `Sockets.Run` | src/socket.c:387-1016 | every interleaving of socket, bind, listen, accept, close and inbound connections, also during a close, keeps that correspondence and every backlog within its limit |
| `PipeRing.Put` | src/pipe.c:74-107 | as many bytes as fit go to the end of the queue, around the ring |
| `PipeRing.Take` | src/pipe.c:57-70 | the oldest bytes leave the queue, at most as many as asked for |
| `Files.FindFree` | src/fs.c:8-26 | the first free descriptor from start on, then from 0, or -1 exactly if none is free |
| `Files.Kernel.Get` | src/fs.c:44-49 | one more reference, which a slot is then owed |
| `Files.Kernel.Put` | src/fs.c:51-65 | one less; with the last one the file goes, and the pipe if both ends are gone |
| `Files.Kernel.AllocFd` | src/fs.c:28-42 | the file in a free slot, or the table is full and unchanged |
| `Files.Kernel.Dup` | src/fs.c:67-79 | the counts stay exact if and only if the table had a free slot or the descriptor was out of range; the leaked reference otherwise |
| `Files.FullTableLeaks` | src/fs.c:67-79 | the concrete case: a full table, and one reference more than slots |
| `Files.Kernel.Clone` | src/fs.c:81-95 | the child's table equals the parent's and every count follows |
| `Files.Kernel.CloneStdio` | src/fs.c:97-111 | the same for the first three descriptors only |
| `Files.Kernel.CloseAll` | src/fs.c:113-128 | the table is empty, the others unchanged, every count exact |
| `Files.Kernel.Close` | src/fs.c:155-163 | the slot is free, the file one reference down |
| `FileTables.FreedWhenBothGone` | src/pipe.c:109-135 | the counters of a pipe reach zero exactly when neither end has a file |
| `Files.Kernel.OpenPipe` | src/pipe.c:189-248 | a new pipe with both ends in the table, or nothing at all |
| `Files.Kernel.Write` | src/pipe.c:74-107 | the bytes written are the first n of the data, less only if the ring is full; refused without a reader |
| `Files.Kernel.Read` | src/pipe.c:35-72 | what is read follows what was read before; 0 bytes for a non-empty request only if everything sent has been read and no writer is left, whatever other processes do during the sleep |
| `Files.Run` | src/pipe.c:35-248 | over any run of calls on any number of tables, with dups, clones, pipes and other readers during a sleep, each file's count equals the slots that name it, each pipe is freed exactly once and only after both ends are gone, and bytes come out in order |
| `AuthThrottle.Backoff` | src/net/admin_server.c:514-529 | the doubling loop computes 0, 100, 200, 400, 800 |
| `AuthThrottle.FailureBounded` | src/net/admin_server.c:553-580 | a sixth failure can only come in the last tick of its window, so the count never passes 6 and no block passes 400 ticks |
| `AuthThrottle.SixIsReached` | src/net/admin_server.c:553-580 | both bounds are reached |
| `AuthThrottle.Throttle.Find` | src/net/admin_server.c:458-496 | the peer's one bucket; a new one takes the first unused place, or the first of those seen least recently |
| `AuthThrottle.Throttle.IsThrottled` | src/net/admin_server.c:531-551 | true exactly while the peer's bucket is blocked; other buckets are untouched |
| `AuthThrottle.Throttle.RecordFailure` | src/net/admin_server.c:553-580 | one more failure on the peer's bucket; throttled exactly if it is now blocked, by at most 400 ticks |
| `AuthThrottle.Throttle.RecordSuccess` | src/net/admin_server.c:582-593 | the peer is not blocked; other buckets are untouched |
| `AuthThrottle.Throttle.AuthorizePeer` | src/net/admin_server.c:1251-1264 | a blocked peer stays blocked and is told so; otherwise allowed exactly as the allow-list says |
| `AuthThrottle.Throttle.AuthorizeRequest` | src/net/admin_server.c:1266-1298 | the same with the token check |
| `AuthThrottle.Run` | src/net/admin_server.c:1251-1298 | over any run: at most 6 failures, at most 400 ticks, one bucket per peer, and no Allow for a peer blocked when it asked; each state follows from the one before as the trace says |
| `AuthThrottle.BlockLastsIff` | src/net/admin_server.c:458-593 | over any such trace a block stays until its time is up if and only if no failure of a new peer finds the table full and the blocked peer's bucket the oldest |
| `AuthThrottle.StrangerEvicts` | src/net/admin_server.c:458-496 | a concrete full table in which it does |
| `AesSteps.SboxInverse` | src/lib/aes.c:371-381 | the second table undoes the first on all 256 bytes |
| `AesSteps.ShiftRotatesRows` | src/lib/aes.c:266-292 | row r moves r columns, as section 5.1.2 of FIPS 197 has it |
| `AesSteps.XtimeAsProduct` | src/lib/aes.c:294-297 | doubling a byte, as the code writes it with a product |
| `AesSteps.TermAsProduct` | src/lib/aes.c:320-343 | one term of the code's multiplication |
| `AesSteps.MixForm` | src/lib/aes.c:300-313 | the code's mixed byte is the matrix row 2, 3, 1, 1 of section 5.1.3 of FIPS 197 |
| `AesSteps.MixInverse` | src/lib/aes.c:350-366 | the two column matrices are inverse to each other |
| `Aes.CipherRoundTrip` | src/lib/aes.c:413-461 | the inverse cipher undoes the cipher for every block and every array of round keys |
| `Aes.CbcRoundTrip` | src/lib/aes.c:492-529 | CBC decryption undoes CBC encryption on any whole number of blocks |
| `AesBuffer.SubBytes` | src/lib/aes.c:251-261 | the block in place is substituted, the rest of the buffer unchanged |
| `AesBuffer.ShiftRows` | src/lib/aes.c:266-292 | the swaps in place rotate the rows |
| `AesBuffer.MixColumns` | src/lib/aes.c:300-313 | the running sums in place mix the columns |
| `AesBuffer.InvMixColumns` | src/lib/aes.c:350-366 | and the inverse |
| `AesBuffer.Cipher` | src/lib/aes.c:413-436 | in place, the cipher of section 5.1 of FIPS 197 |
| `AesBuffer.InvCipher` | src/lib/aes.c:439-461 | in place, the inverse of section 5.3 |
| `AesCbc.CbcEncrypt` | src/lib/aes.c:501-514 | the buffer is chained and enciphered; the value kept for the next call is the last block of ciphertext |
| `AesCbc.CbcDecrypt` | src/lib/aes.c:516-529 | the buffer is deciphered and unchained; it ends with the same chaining value |
| `Sha256.Transform` | src/lib/sha256.c:43-82 | the schedule and round loops compute the compression of section 6.2.2 of FIPS 180-4 |
| `Sha256.Context.constructor` | src/lib/sha256.c:84-96 | nothing fed in yet |
| `Sha256.Context.Update` | src/lib/sha256.c:98-111 | what was fed in is what was fed in before and the new bytes |
| `Sha256.FinalState` | src/lib/sha256.c:113-143 | the one or two blocks that final adds are the end of the padded message of section 5.1.1 of FIPS 180-4, for every length |
| `Sha256.Context.Final` | src/lib/sha256.c:113-157 | the hash is the digest of everything fed in |
| `Sha256.HashInPieces` | src/lib/sha256.c:98-157 | any cutting of a message into updates gives the digest of the whole |
| `SshFields.U32RoundTrip` | src/lib/ssh_packet_core.c:5-19 | a 32-bit number written and read is the same number |
| `SshFields.U32Shifts` | src/lib/ssh_packet_core.c:5-11 | the four bytes are those of the shifts |
| `SshFields.MpintKeepsValue` | src/lib/ssh_packet_core.c:77-98 | an mpint body has the value of the digits and is canonical in the sense of section 5 of RFC 4251 |
| `SshFields.CanonicalUnique` | src/lib/ssh_packet_core.c:77-98 | a number has one canonical body |
| `SshFields.Writer.PutData` | src/lib/ssh_packet_core.c:29-41 | all of the data or none with an error that stays, never past the buffer |
| `SshFields.Writer.PutString` | src/lib/ssh_packet_core.c:61-70 | length and data, with an error exactly if they do not both fit |
| `SshFields.Writer.PutMpint` | src/lib/ssh_packet_core.c:77-98 | length and canonical body, with an error exactly if they do not fit |
| `SshFields.Reader.GetByte` | src/lib/ssh_packet_core.c:109-116 | the next byte, or an error that stays |
| `SshFields.Reader.GetNumber` | src/lib/ssh_packet_core.c:123-134 | the next four bytes as a number, or an error that stays |
| `SshFields.Reader.GetString` | src/lib/ssh_packet_core.c:136-150 | the string the length announces; an error exactly if it is longer than the rest and the 32-bit sum does not wrap; the reader moves forward if and only if the sum stays below 2^31 |
| `SshFields.SumGoesForward` | src/lib/ssh_packet_core.c:143-149 | the 32-bit sum is the sum below 2^31, and otherwise less than what it started from |
| `SshFields.GoesBack` | src/lib/ssh_packet_core.c:136-150 | the concrete cases: lengths 2^31 - 1 and 2^31 move the reader to negative positions |
| `SshFields.Exchange` | src/lib/ssh_packet_core.c:21-150 | any list of fields written and read back in order is the same list, and it is complete exactly when the encodings fit |
| `SshPackets.MoveBytes` | src/lib/ssh_packet_core.c:184-199 | the bytes arrive unchanged however source and destination overlap, and nothing else changes |
| `SshPackets.OneStarts` | src/lib/ssh_packet_core.c:201-235 | at most one packet starts a buffer |
| `SshPackets.SplitIsUnique` | src/lib/ssh_packet_core.c:201-235 | packets cut off a stream of packets are its first packets |
| `SshPackets.Connection.Append` | src/net/ssh_server.c:2634-2642 | the chunk goes to the end of the buffer, or is refused exactly if it does not fit |
| `SshPackets.Connection.TryDecode` | src/lib/ssh_packet_core.c:201-235 | a packet handed out is the well-formed packet of section 6 of RFC 4253 that starts the buffer, which loses just that packet; 0 exactly if the buffer does not hold what its first bytes announce; a copy longer than the payload buffer exactly if the sum wraps or the payload is longer; otherwise -1, and then no packet starts the buffer |
| `SshPackets.PassesExactly` | src/lib/ssh_packet_core.c:214-231 | the code's 32-bit tests let a length through if and only if it is a fitting packet's or one that wraps; a wrapped length asks for a copy of nearly 2^31 bytes |
| `SshPackets.SomeWrap` | src/lib/ssh_packet_core.c:214-231 | two concrete lengths that wrap |
| `SshPackets.LongPayload` | src/net/ssh_server.c:562-563 | a well-formed packet within the limit of 2048 whose payload is longer than the 1792 bytes kept for it |
| `SshPackets.StuckExactly` | src/lib/ssh_packet_core.c:214-217 | whatever arrives later, a buffer is never decoded, refused or overrun if and only if it announces a length below five |
| `SshPackets.ZeroLengthIsStuck` | src/lib/ssh_packet_core.c:214-217 | the concrete case: four zero bytes |
| `SshPackets.Run` | src/lib/ssh_packet_core.c:201-235 | for any arrivals and polls, what was received is the packets handed out followed by the buffer, and the sequence number counts them; it ends with a copy that does not fit if and only if a polled buffer announced one |
| `SshPackets.Deliver` | src/lib/ssh_packet_core.c:201-235 | well-formed packets in any cutting are handed out in order and unchanged, none is refused, every packet that has arrived whole is handed out, and only a payload longer than the payload buffer overruns it |

## Findings

What the code does not do, each with its exact condition and a concrete case:

- Releasing a heap block loses it when no free hole lies above it (src/memory.c:293-317). The pool stays tiled if and only if
  one does: `HeapSpec.FreeKeepsTilingIff`, `HeapSpec.AllocFreeRestores`, `HeapSpec.WholePoolIsLost`;
  `KernelHeap.Heap.InternalMerge` shows that the linked code does this, including the edits to the used list.
- The page pool does the same (src/memory.c:413-441): `PagePool.FreeKeepsWholeIff`, `PagePool.LastRunIsLost`. So tearing down
  an address space returns everything if and only if a hole lies above each of its runs and tables:
  `PageSpaces.FreeProcessPages`.
- A clone that fails for want of a run forgets the table it had begun and the runs already in it (src/page.c:226-229).
  Everything goes back if and only if it fails for want of a table and a hole lies above all it had taken:
  `PageClone.CloneProcessPages`; `PageShortage.OneFrameShort`, `PageShortage.FailsAtFirst`.
- Merges in the page pool put the freed descriptors on the kernel heap's list (src/memory.c:175), so the pool runs out of
  them: `PagePool.FreeKeepsCountIff`; `PagePool.PairsLeak`, `PagePool.RunsDry`, `PagePool.ThreePairsRunDry`.
- `files_dup` takes the reference before it looks for a descriptor (src/fs.c:78), so a full table leaks one. The counts stay
  exact if and only if there is a free slot or the old descriptor is out of range: `Files.Kernel.Dup`, `Files.FullTableLeaks`.
- Two blocks acquired before a flush: a table that both write keeps the first version only, because tables are re-read from
  the disk and the oldest list entry is written last (src/ext3fs.c:589, 1485-1492). Both blocks survive if and only if no table
  is written for both: `Ext3Twice.AcquireTwice`, `Ext3Twice.ClashExactly`, `Ext3Twice.SmallLoses`. A write over two such blocks
  reports success and loses the second: `Ext3Lost.WriteLoses`, `Ext3Lost.KeepsOrLoses`, `Ext3Lost.SmallClashes`.
- Positions are 32 bits wide, so a write past 2^32 goes on at the start of the file. The flat write holds only if the write
  ends below 2^32: `Ext3Files.FlatOnlyIfFits`, `Ext3Wrap.WriteRound`, `Ext3Wrap.TwentyBytesWrap`.
- The backoff formula allows 800 ticks, which no run reaches: `AuthThrottle.FailureBounded`, `AuthThrottle.SixIsReached`.
- A blocked peer whose bucket is the oldest of a full table is forgotten when a new peer fails (src/net/admin_server.c:473-496).
  A block stays until its time is up if and only if that does not happen: `AuthThrottle.BlockLastsIff`,
  `AuthThrottle.StrangerEvicts`.
- A string length that takes the 32-bit sum to 2^31 or more moves the SSH reader back instead of setting an error, and no
  other length does: `SshFields.Reader.GetString`, `SshFields.GoesBack`.
- A packet length of 2^31 - 4 or more passes the tests of the decoder if and only if the padding keeps the copy length
  non-negative, and a payload can be longer than the buffer it is copied to. The copy does not fit exactly in these two cases:
  `SshPackets.PassesExactly`, `SshPackets.Connection.TryDecode`; `SshPackets.SomeWrap`, `SshPackets.LongPayload`.
- A packet length below five is waited on for ever instead of being refused, and no other is: `SshPackets.StuckExactly`,
  `SshPackets.ZeroLengthIsStuck`.

## Left out

Demands, which the contracts state and a caller can check:

- Ext3Files.Write: the write ends below 2^32, there are free blocks for what is missing, and no two missing blocks of the write
  share a table that both acquisitions write; the flat-file property fails without the first and the last.
- Ext3Blocks.Ext3.AllocBlock: the bitmap is not full; the source goes on with block -1.
- Ext3Blocks.Ext3.GetBlock: the tables on the way lie on the disk; what a device does with a block number past its end is not modelled.
- Ext3Blocks.Ext3.EnsureBlock: the blocks it reads lie on the disk, there are free blocks for what it finds missing, and block 0 is marked used.
- Ext3Twice.AcquireTwice: free blocks hold words below the disk size, since a table not yet written is read back as it lies there.
- Ext3Lost.WriteLoses: two blocks, both missing, and free blocks hold numbers of free blocks only.
- Ext3Wrap.WriteRound: every block of the write is mapped already, and none is touched twice.
- Ext3Dir.Rebuild: the list fits one block; the source does not check.
- Ext3Dir.Parse: no record's name runs past the block; the source does not check.
- KernelHeap.Heap.Kalloc: a positive size, and a spare descriptor if the hole is split; `new_mhole` does not check for an empty list.
- KernelHeap.Heap.Aalloc: the same, and no 32-bit sum of the alignment arithmetic wraps.
- KernelHeap.Heap.Kfree: the lists are tiled when it is called; what later calls make of a pool that has lost a block is not modelled.
- PagePool.Vm.Palloc: a spare descriptor if a hole is split.
- PageTables.SetProcessPage: the range is not mapped yet, and there is a descriptor for the run and for each new table.
- PageClone.CloneProcessPages: the child has no user entries yet, and there are descriptors for all of it.
- PageSystem.Map: a mapping that fails half-way, for want of a table, is no event of the history; `PageTables.SetProcessPage` says what it leaves.
- Sockets.Net.Bind: the socket is fresh.
- Sockets.Net.Listen: no connection hangs off the socket.
- Files.Kernel.Clone: the new table is empty.
- SshPackets.Connection.TryDecode: a copy that does not fit is reported and not carried out, since what it overwrites is not modelled; null arguments are not modelled.
- SshFields.Reader.GetString: what a reader at a negative position reads next is not modelled.
- SshFields.Reader.GetNumber: the sum of the position and four does not wrap, as it cannot below 2^31 - 4.
- SshFields.Writer.PutData: negative lengths and null data are not modelled, a string of bytes has neither; the sum of the lengths does not wrap.

Not modelled:

- Device drivers, port I/O, descriptor tables of the processor, context switch and boot code.
- The TCP engine of uIP: its connection, acknowledgement and close events are arbitrary steps.
- Receive buffers, UDP and ICMP of the socket layer, and connecting out.
- Wake-ups: safety only; a sleeping reader may sleep for ever.
- Failing allocations of kernel memory inside `pipe` and the ext3 calls, and the memory of file objects and block buffers.
- Inode allocation, path lookup, creating, renaming and removing files, and the inode part of the write-back list.
- Timer wrap-around in the throttle; audit lines, configuration text and token comparison of the admin server.
- The key schedule of AES, and its ECB and CTR modes.
- Ed25519, Salsa20 and SHA-512 of tweetnacl.c, and the group law behind X25519.
- Encrypted packets, name lists and the session logic of the SSH server.
- Process tree, program loading, terminals, console and user programs.
