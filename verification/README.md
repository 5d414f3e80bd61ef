# lxp in Dafny

lxp is a Linux personality for microcontrollers without an MMU. This project models its bounded state machines and proves what they promise.

* **Arena and tmpfs.** Three layers: headers and payloads in one byte array (`ArenaLayout`, `Arena`), the block list they encode (`ArenaBlocks`, `ArenaCalls`), and files kept in blocks that move as they grow (`Tmpfs`, with names by `Path`). `ArenaFit` and `TmpfsLaws` say what these are good for over time: what can be served, how long bytes stay, where a renamed subtree goes. Every call on bytes is shown to be the call on the list, and every call on files to be the call on abstract byte sequences.
* **FDPIC loader.** `Elf` is what the layout parse accepts, `Fdpic` places the image, `Loadmap` says what the placed bytes mean, `Reloc` and `RelocWalk` are the relocation loop over the loadmap just written, `Loader` joins them, `ElfLaws` and `Slots` say over the bytes what is accepted and what the patched words hold, and `Images` works out three images, two of which show where it fails.
* **Guest scheduler** of the FreeRTOS port: `SchedModel` is the state machine of its steps, `Scheduler` its invariant, the waiting bound in turns and in ticks, and the port's code as a class that follows it; `SchedLaws` is who gets a turn at all, and for how long.
* **Completion gate and metrics.** `AsyncGate` and `Metrics` let two actors take single loads, stores and compare-and-swaps in any order.
* **Descriptors, pipes, paths, startup stack.** `DescModel` and `Descriptors`, with `DescView` for what processes see of them; `Pipe`, `Path`, `Startup` and `Bootstrap`.

Addresses are indices into one byte array and 0 is the null pointer. `size_t` and pointers are 32 bits wide. Wrap-around is written out where the code depends on it: request rounding, offset sums, reference and end counts, call counters and the sequence lock.

Some promises do not hold of the code as it stands. The code is kept, with the exact condition:

* Validation accepts an image with DT_RELENT 0, no DT_RELSZ and a mapped DT_REL, and loading it as a program never leaves the relocation loop. The comment beside the stride test speaks of rejecting such strides, but the test only applies to a non-empty table (`Loader.SpinsIff`, `Images.AcceptedButSpins`).
* A RELATIVE or ABS32 word in the last bytes of a segment is mapped and yet left with its link-time value, because the code wants eight mapped bytes for every kind of relocation; it is relocated exactly when eight bytes of its segment follow (`Loader.AppliedIff`, `Loader.WordMeaningIff`, `Images.LoadedButUnrelocated`). A descriptor slot that straddles the end of a segment is handed out unwritten for the same reason (`Loader.FuncdescStraddles`).
* A successful tmpfs rename can leave two linked nodes with one name (`Tmpfs.RenameUniqueIff`, `Tmpfs.RenameCanCollide`).
* A directory renamed to "/" leaves its entries with paths that begin with two slashes; under every other name they keep their place (`TmpfsLaws.RehomedPath`).
* A tmpfs write of zero bytes beyond the end extends the file; it leaves the file alone exactly when its offset is at most the size (`Tmpfs.EmptyWriteIff`, `Tmpfs.EmptyWriteExtends`, `Tmpfs.Tmpfs.Pwrite`).
* A metrics record forgets its extremes when its 32-bit call count wraps; they are those of all its samples, whatever these are, exactly up to 2^32 samples (`Metrics.LeastIff`, `Metrics.MostIff`, `Metrics.Forgotten`).
* Taken alone, the pipe calls can report end of file while a write end is open, since their 16-bit counts saturate; they are exact up to 65535 ends of a kind (`Pipe.EofExactIff`, `Pipe.EofEarly`). The program stays far below: it opens each end of a pipe once.

What is assumed: the scheduler's coordinator calls and critical sections are atomic towards the scheduler task; atomics are sequentially consistent; one coordinator and one worker share a gate; the metrics writer is not preempted between choosing its window and updating it, as on a single core; a copy to or from the guest happens in full or not at all.

## Model

| member | source | states |
|---|---|---|
| `Arena.Arena.LayoutValid` | src/lxp_arena.c:68-104 | on arbitrary bytes the header walk ends and says yes exactly when the region is a tiling list of well-formed headers whose used footprint is the recorded one |
| `Arena.Arena.HeaderWord` | src/lxp_arena.c:68-127 | the only way any call reads a header: a word inside the managed region, which every caller has to show |
| `Arena.Arena.VerdictLocal` | src/lxp_arena.c:68-104 | the verdict on the layout and the block list every call works from depend on the control block and the bytes of the region alone |
| `ArenaLayout.ParseLocal` | src/lxp_arena.c:68-104 | two memories that agree on the region give the same walk, whatever lies outside |
| `Arena.Arena.FindPayload` | src/lxp_arena.c:108-127 | the index of the block whose payload starts at the pointer and of its predecessor, or none for a foreign or interior pointer |
| `Arena.Arena.FindFit` | src/lxp_arena.c:163-175 | the walk stops at the first free block that fits, or at the end when none does |
| `Arena.Arena.Init` | src/lxp_arena.c:129-152 | succeeds exactly when an aligned header and one unit of payload fit the buffer; then the arena is one free extent with nothing used, and no byte outside the buffer changes |
| `Arena.Arena.LayFirst` | src/lxp_arena.c:55-63 | the single free block covers the whole region |
| `Arena.Arena.Reset` | src/lxp_arena.c:374-380 | back to one free extent, with no record left |
| `Arena.Arena.Alloc` | src/lxp_arena.c:154-195 | fails closed on a broken layout; otherwise it is the first-fit step on the block list and leaves every live payload byte and every byte outside the region alone |
| `Arena.Arena.Calloc` | src/lxp_arena.c:197-206 | as alloc, and the rounded request reads as zero |
| `Arena.Arena.Release` | src/lxp_arena.c:291-314 | freeing a live block coalesces it with both neighbours in the bytes exactly as in the block list |
| `Arena.Arena.FreeBlock` | src/lxp_arena.c:281-314 | succeeds exactly for a live payload pointer of a valid layout, otherwise nothing changes |
| `Arena.Arena.Free` | src/lxp_arena.c:316-331 | frees and drops every record of the address, or changes nothing |
| `Arena.Arena.AllocTracked` | src/lxp_arena.c:333-354 | all or nothing: a block with a record of its exact address and length, or neither |
| `Arena.Arena.FreeTracked` | src/lxp_arena.c:356-372 | frees only an exact recorded address and length pair, otherwise nothing changes |
| `Arena.Arena.Grow` | src/lxp_arena.c:228-257 | growing in place consumes the free successor, returns the surplus as a block and keeps the old payload bytes |
| `Arena.Arena.Replace` | src/lxp_arena.c:259-262 | allocate and copy: all old payload bytes are found at the new address, every live block keeps its bytes |
| `Arena.Arena.Move` | src/lxp_arena.c:259-279 | allocate, copy and free, moving the first record along; the rollback branch is never taken |
| `Arena.Arena.Realloc` | src/lxp_arena.c:210-279 | the step on the block list; old payload bytes survive at the result, all other live blocks keep theirs, failure changes nothing at all |
| `ArenaLayout.ParseTiles` | src/lxp_arena.c:68-104 | what the walk accepts is a list of blocks that tile the region, each with its header in memory |
| `ArenaLayout.TilesParse` | src/lxp_arena.c:68-104 | and every tiling list of headers in memory is found by the walk: the two readings of the bytes agree |
| `ArenaLayout.SpliceTiles` | src/lxp_arena.c:177-190 | rewriting the headers of one stretch of blocks turns the encoding of one list into that of the spliced list |
| `ArenaLayout.PayloadWrite` | src/lxp_arena.c:197-206 | writing inside one payload keeps the encoding |
| `ArenaLayout.TakeStores` | src/lxp_arena.c:177-190 | the header stores of an allocation encode the carved blocks |
| `ArenaLayout.GrowStores` | src/lxp_arena.c:235-248 | the header stores of growth in place encode the fused and carved blocks |
| `ArenaLayout.FreeStores` | src/lxp_arena.c:294-312 | the header stores of a free encode the coalesced block |
| `ArenaBlocks.TakeKeeps` | src/lxp_arena.c:154-195 | claiming a block keeps the tiling and coalescing, and used grows by exactly the footprint |
| `ArenaBlocks.GrowKeeps` | src/lxp_arena.c:228-257 | growing keeps the tiling and coalescing, and used grows by exactly the added payload |
| `ArenaBlocks.FreeKeeps` | src/lxp_arena.c:281-314 | freeing keeps the tiling, and used falls by exactly the footprint |
| `ArenaBlocks.FreeCoalesces` | src/lxp_arena.c:281-314 | after a free no two neighbours are free if none were before |
| `ArenaBlocks.UsedBounded` | src/lxp_arena.c:68-104 | the used footprint of a tiling never exceeds the region |
| `ArenaCalls.StepGood` | src/lxp_arena.c:154-380 | every call keeps the invariant: tiling, coalesced neighbours, used below high water below size, records naming distinct live extents |
| `ArenaCalls.RunGood` | src/lxp_arena.c:129-380 | so does every run of calls from init |
| `ArenaCalls.AllFreedIsOneExtent` | src/lxp_arena.c:281-331 | after any run in which every block is free again the arena is one extent of the full size with nothing used |
| `ArenaCalls.AllocFailsIff` | src/lxp_arena.c:154-195 | alloc fails if and only if the size wraps or no free block is large enough |
| `ArenaCalls.AllocFresh` | src/lxp_arena.c:154-195 | an allocated address was not live before and holds at least the request |
| `ArenaCalls.FreeTrackedIff` | src/lxp_arena.c:356-372 | in a reachable state tracked free succeeds if and only if the pair is on record, and then it no longer is |
| `ArenaCalls.ReallocRecord` | src/lxp_arena.c:210-279 | a tracked block that was reallocated keeps exactly one record, at its current address with a length its payload holds |
| `ArenaCalls.ReallocLive` | src/lxp_arena.c:210-279 | a successful realloc trades exactly one live address for another |
| `ArenaCalls.ReallocHolds` | src/lxp_arena.c:210-279 | every other live block keeps its address and capacity through a realloc |
| `ArenaCalls.LiveFree` | src/lxp_arena.c:281-314 | a free removes exactly one live address |
| `ArenaCalls.HoldsDisjoint` | src/lxp_arena.c:45-48 | two live blocks never share a byte |
| `ArenaFit.AllocCuts` | src/lxp_arena.c:158-195 | a successful alloc cuts the lowest free block that fits: the live front has less than a header and a unit to spare, any larger surplus is a free block right behind it, and no other block changes |
| `ArenaFit.GrowInPlace` | src/lxp_arena.c:228-257 | growth in place cuts the block and its free successor, taken together, in the same way |
| `ArenaFit.ReallocAnswer` | src/lxp_arena.c:208-262 | realloc answers the same address exactly when the block is large enough or has free room right behind it, and fails exactly when it is not, has not, and no free block fits |
| `ArenaFit.FitTogether` | src/lxp_arena.c:154-195 | any number of requests whose footprints fit one free extent are all served, whatever else is free |
| `ArenaFit.FreshServesIff` | src/lxp_arena.c:129-195 | a fresh arena serves a list of requests if and only if no size wraps and their footprints add up to at most its size |
| `ArenaFit.HighExact` | src/lxp_arena.c:190-257 | every call raises the high-water mark exactly to the most bytes in use during it, old and new block of a moving realloc together |
| `ArenaFit.HighRun` | src/lxp_arena.c:190-257 | so over every run the mark is the greatest such peak |
| `ArenaFit.AllocTrackedIff` | src/lxp_arena.c:333-354 | tracked alloc succeeds if and only if a record is free and alloc would; it leaves the same blocks and one record more |
| `ArenaFit.FreeRecords` | src/lxp_arena.c:316-331 | a free clears the records of its own address and no other |
| `ArenaFit.FreeTrackedRecords` | src/lxp_arena.c:356-372 | a tracked free clears one record, the pair's own |
| `ArenaFit.ReallocLength` | src/lxp_arena.c:224-279 | a record gets the new length exactly when the block had to be enlarged |
| `Tmpfs.Tmpfs.Reserve` | src/fs/lxp_tmpfs.c:76-112 | succeeds if and only if the node has the room or the allocator can give the doubled or the rounded-up capacity; no file content changes either way |
| `Tmpfs.Tmpfs.Pwrite` | src/fs/lxp_tmpfs.c:219-239 | the exact result code, the file patched with zero-filled gap on success and untouched on failure, every other file untouched |
| `Tmpfs.Tmpfs.Ftruncate` | src/fs/lxp_tmpfs.c:276-292 | the exact result code, the file cut or zero-extended on success, every other file untouched |
| `Tmpfs.Tmpfs.Pread` | src/fs/lxp_tmpfs.c:202-208 | as many bytes as are asked for and lie before the end, each the byte of the file at its own offset, and the exact error cases |
| `Tmpfs.Tmpfs.Create` | src/fs/lxp_tmpfs.c:57-74 | fails if and only if the path is too long or the table full; otherwise the first unused slot becomes an empty linked node |
| `Tmpfs.Tmpfs.Open` | src/fs/lxp_tmpfs.c:122-129 | one more reference on a node in use, unless the count is full |
| `Tmpfs.Tmpfs.Close` | src/fs/lxp_tmpfs.c:131-138 | the last close of an unlinked node reclaims it, no other close does; surviving files keep their bytes |
| `Tmpfs.Tmpfs.Unlink` | src/fs/lxp_tmpfs.c:186-199 | the name goes at once, the bytes only with the last open reference |
| `Tmpfs.Tmpfs.Reclaim` | src/fs/lxp_tmpfs.c:114-120 | the node is emptied and its block released, every other file keeps its bytes |
| `Tmpfs.Tmpfs.Find` | src/fs/lxp_tmpfs.c:48-55 | the first linked node of that path, or none |
| `Tmpfs.Tmpfs.Rename` | src/fs/lxp_tmpfs.c:150-184 | the exact error, and then nothing changes; otherwise exactly the node and its linked descendants get the new prefix and all surviving files keep their bytes |
| `Tmpfs.ResizeOwned` | src/fs/lxp_tmpfs.c:103-111 | after a realloc every live arena block still belongs to exactly one node |
| `Tmpfs.ReclaimOwned` | src/fs/lxp_tmpfs.c:114-120 | so it does after a reclaim |
| `Tmpfs.WriteInside` | src/fs/lxp_tmpfs.c:232-237 | bytes written inside one node's block keep the allocator's headers and every other file |
| `Tmpfs.PatchedContent` | src/fs/lxp_tmpfs.c:231-237 | zeroing the gap and copying the data make the file the patched one |
| `Tmpfs.TruncatedContent` | src/fs/lxp_tmpfs.c:284-290 | zeroing the tail makes the file the truncated one |
| `Tmpfs.EmptyWriteIff` | src/fs/lxp_tmpfs.c:232-238 | a write of no bytes leaves the file alone if and only if its offset is not beyond the end |
| `Tmpfs.EmptyWriteExtends` | src/fs/lxp_tmpfs.c:232-238 | the empty file written with nothing at offset 1 is one zero byte long |
| `Tmpfs.LastWriteWins` | src/fs/lxp_tmpfs.c:219-292 | after any sequence of writes and truncations each byte of a file is the last one written there and gaps read as zero, against a definition that builds no file |
| `Tmpfs.ReadSeesLast` | src/fs/lxp_vfs.c:40-51 | a read after any writes and truncations gets the bytes last written there, as many as lie before the end and no more than it asks for |
| `Tmpfs.ReadsJoin` | src/fs/lxp_tmpfs.c:210-216 | two reads in a row get what one read of both lengths gets |
| `TmpfsLaws.NodeLife` | src/fs/lxp_tmpfs.c:114-199 | over any opens, closes and unlinks a file is reclaimed exactly at the first moment without name and open description; until then its bytes are untouched |
| `TmpfsLaws.FirstCapBounds` | src/fs/lxp_tmpfs.c:76-112 | the capacity asked for first holds the file, at least doubles unless the pool is too small, and is no larger than doubling or rounding makes it |
| `TmpfsLaws.ReserveIff` | src/fs/lxp_tmpfs.c:76-112 | a file can grow if and only if the pool can give the need rounded up to 256 bytes, or all it has if that is less: asking for double first never costs a write |
| `TmpfsLaws.RehomedPath` | src/fs/lxp_tmpfs.c:172-181 | what was at a/rest is at c/rest after a directory a is renamed to c, if and only if c is not the root |
| `TmpfsLaws.RenameKeepsParents` | src/fs/lxp_tmpfs.c:150-184 | every other node is in the same directory after a rename as before, moved along or not: no node loses its directory |
| `TmpfsLaws.RenameFits` | src/fs/lxp_tmpfs.c:150-184 | paths that fit their buffers still do after a rename |
| `TmpfsLaws.WriteErrors` | src/fs/lxp_tmpfs.c:219-239 | when a write answers with which Linux error number |
| `TmpfsLaws.TruncateErrors` | src/fs/lxp_tmpfs.c:276-292 | when a truncation does |
| `Tmpfs.RenameUniqueIff` | src/fs/lxp_tmpfs.c:150-184 | names stay unique if and only if no moved descendant lands on a name outside the subtree |
| `Tmpfs.RenameUnique` | src/fs/lxp_tmpfs.c:150-184 | in particular they do when nothing outside the subtree lies below the new name |
| `Tmpfs.RenameCanCollide` | src/fs/lxp_tmpfs.c:163-181 | a concrete table in which a successful rename leaves two nodes with one name |
| `Path.NormalizeAbs` | src/fs/lxp_path.c:25-62 | ENAMETOOLONG exactly when the bounded component walk overflows; otherwise the buffer holds the rendering of the walk, terminated |
| `Path.ResolveFrom` | src/fs/lxp_path.c:66-85 | the same for a path joined to its base, with the join buffer's own limit |
| `Path.LinkTarget` | src/fs/lxp_path.c:136-153 | the same for a symlink target read from the directory of the link, the raw path counted in full and read up to its first NUL |
| `Path.TooLongIff` | src/fs/lxp_path.c:25-62 | the walk overflows if and only if some intermediate push does not fit; otherwise it is the unbounded fold |
| `Path.NormalCanonical` | src/fs/lxp_path.c:25-62 | the output is canonical and fits |
| `Path.NormalIdempotent` | src/fs/lxp_path.c:25-62 | normalising twice is normalising once |
| `Path.CancelRules` | src/fs/lxp_path.c:30-58 | a name and the ".." after it cancel anywhere, "." can go anywhere, ".." at the root does nothing and names stay: four rules that fix the result of every path |
| `Path.DotDotUndoes` | src/fs/lxp_path.c:42-48 | "p/c/../q" and "p/q" have one normal form, if the detour fits |
| `Path.AbsoluteAlone` | src/fs/lxp_path.c:66-85 | an absolute path or link target means the same from everywhere |
| `Path.RelativeContinues` | src/fs/lxp_path.c:66-85 | a relative path walks on from the components of its canonical base |
| `Path.LinkContinues` | src/fs/lxp_path.c:136-153 | a relative link target walks on from the directory that holds the link |
| `Path.UnderIsPrefix` | src/fs/lxp_path.c:214-222 | on canonical paths lxp_path_under is component prefix, both ways |
| `Path.ChildIsExtension` | src/fs/lxp_path.c:224-236 | on canonical paths lxp_path_child_name finds exactly the one-component extensions and their last component |
| `Path.CompsOfJoin` | src/fs/lxp_path.c:25-62 | splitting what was rendered gives the components back |
| `Path.CompsJoin` | src/fs/lxp_path.c:25-62 | splitting at a slash splits the component list |
| `Elf.ParseLayout` | src/lxp_loader.c:808-940 | the parse, which is also validation, accepts or rejects exactly as specified, with the same layout and error code |
| `Elf.NoSumWraps` | src/lxp_loader.c:878-913 | short of the last 16 bytes of the address range no 32-bit sum of the parse wraps when it is reached |
| `Elf.ScanHeaders` | src/lxp_loader.c:829-870 | the program-header loop equals the fold of the per-header checks |
| `Elf.FindFileRange` | src/lxp_loader.c:752-771 | the first PT_LOAD whose file bytes hold the whole range, or none |
| `Elf.RelSizes` | src/lxp_loader.c:889-908 | the dynamic-table loop of the parse agrees with the full decoding of the table |
| `Elf.DynMeaning` | src/lxp_loader.c:1028-1054 | each value read from the dynamic table is that of the last entry of its tag before the end |
| `ElfLaws.Verdict` | src/lxp_loader.c:808-940 | which files are accepted and what each other one is told, over header bytes and program headers taken together |
| `ElfLaws.ScanMeaning` | src/lxp_loader.c:829-870 | the pass over the headers finds the least RW address, the greatest RW end, and the last PT_DYNAMIC and PT_INTERP |
| `ElfLaws.TextHalfIff` | src/lxp_loader.c:773-784 | text can be copied if and only if the region is a power of two of at least 64 bytes and the text fits its lower half |
| `Fdpic.PlaceImage` | src/lxp_loader.c:964-1026 | every segment ends at its runtime address with its file bytes and zero tail, every loadmap entry is written, nothing outside the region changes |
| `Fdpic.PlaceSeg` | src/lxp_loader.c:993-1026 | one turn of placement extends the placed prefix without harming earlier segments, entries or the image |
| `Fdpic.SegInside` | src/lxp_loader.c:964-1026 | text copy and RW segments lie inside their own parts of the region |
| `Fdpic.SegsApart` | src/lxp_loader.c:964-1026 | no two segments overlap at run time |
| `Loadmap.ParseSound` | src/lxp_loader.c:808-933 | everything the placement relies on follows from acceptance by the parse |
| `Loadmap.StoredEntries` | src/lxp_loader.c:1019-1026 | the loadmap bytes decode to exactly the segments placed |
| `Loadmap.RtAt` | src/lxp_loader.c:722-731 | with disjoint segments the translation does not depend on search order |
| `Loadmap.RtOfRtN` | src/lxp_loader.c:722-748 | the single-address and the range lookup agree where both answer |
| `Loadmap.PlacementMeaning` | src/lxp_loader.c:942-1026 | right after placement the byte at fdpic_rt(v) is the file byte of v, or zero in a bss tail; an address in no segment is unmapped |
| `Loadmap.RangeCopied` | src/lxp_loader.c:737-771 | a file range reads the same in the file and at its runtime address |
| `Loadmap.DynAgrees` | src/lxp_loader.c:1028-1054 | the dynamic table decoded from the loaded copy says what the file's copy says |
| `Reloc.Resolve` | src/lxp_loader.c:722-731 | the lookup loop over the loadmap bytes is the translation |
| `Reloc.ResolveN` | src/lxp_loader.c:737-748 | so is the range form |
| `Reloc.FindMatch` | src/lxp_loader.c:1128-1135 | the inner search finds the first FUNCDESC_VALUE of the symbol |
| `Reloc.ApplyValue` | src/lxp_loader.c:1101-1117 | a FUNCDESC_VALUE slot becomes the translated function and the GOT, or null for an undefined symbol, and only those 8 bytes change |
| `Reloc.ApplyDesc` | src/lxp_loader.c:1118-1150 | a FUNCDESC slot gets a shared or a fresh descriptor of its symbol, and only the slot and the next pool cell change |
| `Reloc.Apply` | src/lxp_loader.c:1090-1151 | one relocation has its specified effect, writes only its target and at most one pool cell, and nothing when the target is unmapped |
| `RelocWalk.Walk` | src/lxp_loader.c:1090-1151 | the walk stays inside segments and pool, never changes the loadmap and never exhausts the pool; when the targets it writes are apart from each other and from the tables, it leaves every relocation with eight mapped bytes done and every other byte as it was |
| `RelocWalk.StepDone` | src/lxp_loader.c:1090-1151 | applying a relocation whose target is still untouched finishes it |
| `RelocWalk.KeepDone` | src/lxp_loader.c:1090-1151 | a finished relocation stays finished while later ones patch other places |
| `RelocWalk.MapKept` | src/lxp_loader.c:1072-1151 | writes confined to segments and pool keep the stored loadmap |
| `Loader.RelocatedWord` | src/lxp_loader.c:1098-1117 | after such a walk every RELATIVE and ABS32 word with eight mapped bytes is the translation of its link-time value and every such FUNCDESC_VALUE slot its pair or null |
| `Loader.AppliedIff` | src/lxp_loader.c:1095-1097 | a relocation in a segment is applied if and only if eight bytes of the segment follow its offset, whatever its own width |
| `Loader.WordMeaningIff` | src/lxp_loader.c:1095-1100 | a mapped RELATIVE or ABS32 word ends as the translation of its link-time value if and only if eight bytes of its segment follow; otherwise it keeps that value |
| `Loader.WordKept` | src/lxp_loader.c:1090-1151 | a word no relocation writes keeps its value through the walk |
| `Images.LoadedButUnrelocated` | src/lxp_loader.c:1095-1100 | a concrete 188-byte image whose every load leaves the last word of its RW segment holding a link-time address |
| `Images.TailAccepted` | src/lxp_loader.c:808-933 | validation accepts that image and loading it ends |
| `Loader.FuncdescPair` | src/lxp_loader.c:1118-1150 | after such a walk every FUNCDESC slot of a defined symbol points at a {translated function, GOT} pair, if the slot it shares has its eight bytes mapped |
| `Loader.FuncdescStraddles` | src/lxp_loader.c:1123-1149 | the shared slot has them if and only if it ends inside its segment; if not, its address is handed out with the pair unwritten |
| `Slots.ValueSlot` | src/lxp_loader.c:1101-1117 | in the bytes: the FUNCDESC_VALUE slot of a local symbol ends as the translation of st_value plus the word it held, that of any other symbol as the translation of st_value alone, both with the GOT |
| `Slots.UndefinedSlot` | src/lxp_loader.c:1101-1150 | a slot of an undefined or unmapped symbol ends null |
| `Slots.FreshDescriptor` | src/lxp_loader.c:1118-1150 | a FUNCDESC slot without a FUNCDESC_VALUE entry points at a new pair in the pool, st_value plus the word it held and the GOT |
| `Slots.SharedDescriptor` | src/lxp_loader.c:1127-1136 | with one it holds the address of the first such slot |
| `Images.DescriptorsLoaded` | src/lxp_loader.c:942-1184 | a concrete 284-byte image with a local and a global function: in every load the words of its descriptors, its zero tail, its entry point and its GOT are these |
| `Images.CallAccepted` | src/lxp_loader.c:808-933 | validation accepts that image and loading it ends |
| `Loader.RegionLayout` | src/lxp_loader.c:878-1083 | text copy, RW block, loadmap and descriptor pool follow one another inside the region |
| `Loader.AcceptedDyn` | src/lxp_loader.c:887-933 | acceptance bounds the stride of a non-empty relocation table and the room for descriptors |
| `Loader.LoadFdpic` | src/lxp_loader.c:942-1184 | load rejects exactly what validation rejects, unchanged; what it accepts loads, with placement and relocation as above, unless the relocation loop spins, which it does exactly for the images FileSpins names |
| `Loader.LoopEndsIff` | src/lxp_loader.c:1090-1091 | the relocation loop test ever fails if and only if the stride is not zero |
| `Loader.SpinsIff` | src/lxp_loader.c:1062-1091 | an accepted image spins if and only if it is a program of its own with zero DT_RELENT whose DT_REL and DT_RELSZ are mapped |
| `Loader.TouchesIff` | src/lxp_loader.c:737-748 | an empty range is mapped if and only if its address lies in a segment or at its end |
| `Images.AcceptedButSpins` | src/lxp_loader.c:808-933 | a concrete 164-byte image that validation accepts and whose loading never ends |
| `Scheduler.StepKeeps` | ports/freertos/lxp_freertos_port.c:125-250 | every allowed step keeps the scheduler invariant |
| `Scheduler.ReachableSafe` | ports/freertos/lxp_freertos_port.c:131-208 | in every reachable state at most one guest is natively ready and it is the selected one, some guest is selected whenever one waits, and a pending request names exactly the selected guest task and generation |
| `Scheduler.CreatedSafe` | ports/freertos/lxp_freertos_port.c:762-800 | between the making of a task and its registration only that task can be ready beside the selected guest |
| `Scheduler.SpawnAtomic` | ports/freertos/lxp_freertos_port.c:762-800 | any ticks in between might as well have come before: the spawn is one step |
| `Scheduler.FineSafe` | ports/freertos/lxp_freertos_port.c:131-208 | the same with a spawn taken in two steps: beside the selected guest only the one being spawned can be ready |
| `Scheduler.StaleRotation` | ports/freertos/lxp_freertos_port.c:187-208 | without a valid request the scheduler task changes no slot, selection or budget |
| `Scheduler.LeavingCancels` | ports/freertos/lxp_freertos_port.c:975-1025 | parking or aborting the requested task cancels the request |
| `Scheduler.PendingPinsRun` | ports/freertos/lxp_freertos_port.c:187-208 | as long as a request stays pending, through any run, the guest task and generation it names stay selected |
| `Scheduler.ChangeCloser` | ports/freertos/lxp_freertos_port.c:146-208 | while a guest waits every change of selection brings the turn strictly closer to it |
| `Scheduler.WaitEnds` | ports/freertos/lxp_freertos_port.c:146-208 | waiting ends only by being selected, parked or aborted |
| `Scheduler.BoundedWaiting` | ports/freertos/lxp_freertos_port.c:146-250 | a guest still waiting has seen at most NSLOT - 2 selection changes |
| `Scheduler.TickCloser` | ports/freertos/lxp_freertos_port.c:210-250 | every tick that finds the selected guest running brings the rotation request closer, and nothing puts it off but a tick with the trap inactive |
| `Scheduler.RequestInTime` | ports/freertos/lxp_freertos_port.c:210-250 | fewer than 2 * base_ticks such ticks pass before a rotation is requested, for any weights, counted anew after each tick with the trap inactive |
| `Scheduler.RequestServed` | ports/freertos/lxp_freertos_port.c:187-208 | a pending request finds the scheduler task due, and serving it moves the selection on |
| `Scheduler.PatienceFalls` | ports/freertos/lxp_freertos_port.c:146-250 | one measure over turns and ticks falls with every counted tick and grows only, by one quantum, with a tick that has the trap inactive |
| `Scheduler.WaitingTicks` | ports/freertos/lxp_freertos_port.c:146-250 | a guest still waiting has seen at most (NSLOT - 1) * 2 * base_ticks counted ticks, and 2 * base_ticks more for each tick with the trap inactive |
| `Scheduler.QuantumBound` | include/lxp/lxp_run.h:180-184 | every weight gives a quantum between one tick and twice the base |
| `SchedLaws.EntryServed` | ports/freertos/lxp_freertos_port.c:169-185 | a spawned or resumed guest takes a free turn or waits suspended for one, and never takes the turn from another |
| `SchedLaws.InPlayStep` | ports/freertos/lxp_freertos_port.c:131-208 | one step changes who has or awaits the turn by an accepted entry or departure and by nothing else |
| `SchedLaws.WorkConserved` | ports/freertos/lxp_freertos_port.c:131-208 | over every run a guest has or awaits the turn if and only if its last accepted entry came after its last accepted departure, and then somebody is running |
| `SchedLaws.QuantumExact` | ports/freertos/lxp_freertos_port.c:228-231 | the quantum is the least number of ticks, at least one, whose twentyfold reaches base times weight; weight 20 gets the base |
| `SchedLaws.QuantumMono` | ports/freertos/lxp_freertos_port.c:228-231 | more weight never gets less |
| `SchedLaws.FullTurn` | ports/freertos/lxp_freertos_port.c:210-250 | a guest with a fresh budget runs exactly its quantum of ticks before its rotation is requested |
| `SchedLaws.TurnStartsFresh` | ports/freertos/lxp_freertos_port.c:157-185 | whoever is selected starts with a fresh budget |
| `SchedLaws.TrapOffResets` | ports/freertos/lxp_freertos_port.c:212-215 | a tick with the trap inactive takes back what was charged and does nothing else |
| `SchedLaws.RotationServed` | ports/freertos/lxp_freertos_port.c:187-208 | the scheduler task's next turn gives the turn to the first guest waiting after the one named, which then waits |
| `SchedLaws.RequestNeedsWaiter` | ports/freertos/lxp_freertos_port.c:232-250 | a rotation is requested only by a tick that used up a quantum while another guest waits |
| `Scheduler.Port.FindNextLocked` | ports/freertos/lxp_freertos_port.c:146-155 | the scan finds the next waiting guest in cyclic order, or none |
| `Scheduler.Port.ActivateLocked` | ports/freertos/lxp_freertos_port.c:157-165 | selects and resumes the guest, or selects nobody |
| `Scheduler.Port.RegisterReady` | ports/freertos/lxp_freertos_port.c:169-185 | the new guest is selected if nobody is, otherwise it waits suspended |
| `Scheduler.Port.ServeRotation` | ports/freertos/lxp_freertos_port.c:187-208 | the step of the model for one turn of the scheduler task, keeping the invariant |
| `Scheduler.Port.OnTick` | ports/freertos/lxp_freertos_port.c:210-250 | the step of the model for one tick, keeping the invariant |
| `Scheduler.Port.RequestRotation` | ports/freertos/lxp_freertos_port.c:237-250 | a request is made exactly when another guest waits and none is pending |
| `Scheduler.Port.SpawnSlot` | ports/freertos/lxp_freertos_port.c:762-821 | the step of the model for a launch, with its exact result |
| `Scheduler.Port.ResumeSlot` | ports/freertos/lxp_freertos_port.c:823-862 | the step of the model for resuming a parked task, with its exact result |
| `Scheduler.Port.AbortSlot` | ports/freertos/lxp_freertos_port.c:975-1003 | the step of the model for an abort, with its exact result |
| `Scheduler.Port.ParkSlot` | ports/freertos/lxp_freertos_port.c:1005-1025 | the step of the model for a park, with its exact result |
| `AsyncGate.StepKeeps` | src/lxp_async_gate.c:43-119 | every atomic step of either actor keeps the gate invariant |
| `AsyncGate.CollectExact` | src/lxp_async_gate.c:43-53 | in every interleaving COLLECT is answered only for the owner and tag of the latest SUBMIT, completed and not cancelled |
| `AsyncGate.NoSecondSubmit` | src/lxp_async_gate.c:43-62 | while the worker holds a job no step of anyone submits another |
| `AsyncGate.RetiredOnce` | src/lxp_async_gate.c:19-119 | submissions are retired once each, in order, and all are exactly when the gate is idle |
| `AsyncGate.EachEndRight` | src/lxp_async_gate.c:64-119 | every retirement is of the open submission and is an abort of one never completed, a collection of one completed uncancelled, or a drop of one cancelled |
| `AsyncGate.DropIffCancelled` | src/lxp_async_gate.c:74-83 | completion answers DROP exactly when cancellation moved the gate first |
| `AsyncGate.CancelRetriesOnce` | src/lxp_async_gate.c:106-118 | the cancel loop goes round at most twice |
| `AsyncGate.CancelTargets` | src/lxp_async_gate.c:101-119 | a cancel that gets to its compare-and-swap has the owner of the open submission; it succeeds unless completion came in between, once |
| `AsyncGate.IdleIsBlank` | src/lxp_async_gate.c:19-24 | whichever side retires a request, an idle gate names no owner and no tag until the next one is stored |
| `AsyncGate.RetirementEnds` | src/lxp_async_gate.c:19-24 | a retirement once begun ends after at most five steps of its holder, whatever else happens in between |
| `AsyncGate.EnterAlone` | src/lxp_async_gate.c:43-62 | what an undisturbed enter answers and leaves, in all cases |
| `AsyncGate.CancelAlone` | src/lxp_async_gate.c:101-119 | what an undisturbed cancel answers and leaves |
| `AsyncGate.RetireAlone` | src/lxp_async_gate.c:64-99 | an undisturbed abort, collected or dropped retires the transaction from its own state only |
| `AsyncGate.Shared.Enter` | src/lxp_async_gate.c:43-62 | the call on the shared record leaves and answers what its atomic steps do: submit when idle, collect an exact match, block otherwise |
| `AsyncGate.Shared.Abort` | src/lxp_async_gate.c:64-72 | an undisturbed abort retires the transaction exactly when it is active |
| `AsyncGate.Shared.Publish` | src/lxp_async_gate.c:74-83 | complete publishes an active request and answers WAKE, otherwise changes nothing and answers DROP |
| `AsyncGate.Shared.Dropped` | src/lxp_async_gate.c:85-89 | dropped retires the transaction exactly when it is being retired |
| `AsyncGate.Shared.Collected` | src/lxp_async_gate.c:91-99 | collected retires the transaction exactly when it is complete |
| `AsyncGate.Shared.Cancel` | src/lxp_async_gate.c:101-119 | cancel takes the active or complete request of that owner and says which it was, and touches no other |
| `Metrics.SummaryExact` | src/lxp_rt_metrics.c:28-38 | a record is the count and sum of its samples modulo the counter widths, with the least and greatest cycles and the first call to reach the greatest, over the samples since the count last wrapped |
| `Metrics.LeastIff` | src/lxp_rt_metrics.c:28-38 | the least cycles are those of all n samples, for every n samples, if and only if n is at most 2^32 |
| `Metrics.MostIff` | src/lxp_rt_metrics.c:28-38 | the same for the greatest cycles and the call that first reached them |
| `Metrics.Forgotten` | src/lxp_rt_metrics.c:28-38 | for every greater n, samples whose least and whose greatest are lost |
| `Metrics.StepKeeps` | src/lxp_rt_metrics.c:41-93 | every step of writer and reader keeps the invariant of lock, windows and history |
| `Metrics.SnapshotExact` | src/lxp_rt_metrics.c:58-75 | with fewer than 2^31 samples during a snapshot an accepted copy is the lifetime total at one moment |
| `Metrics.SnapshotLoop` | src/lxp_rt_metrics.c:58-75 | the retry loop against a writer that runs between any two of its accesses answers at the first access with an even, unmoved lock, and with the total of that moment |
| `Metrics.Conserved` | src/lxp_rt_metrics.c:41-93 | in every interleaving the samples of the windows taken, the retired and the active bucket are all samples, in order, each once |
| `Metrics.CountsConserved` | src/lxp_rt_metrics.c:18-93 | calls and cycles over windows taken and live buckets always add up to the lifetime counts, modulo the widths |
| `Metrics.Globals.RecordCall` | src/lxp_rt_metrics.c:41-56 | one sample more in the active bucket and in the total |
| `Metrics.Globals.Snapshot` | src/lxp_rt_metrics.c:58-75 | undisturbed, the first round is accepted and is the summary of all samples |
| `Metrics.Globals.Take` | src/lxp_rt_metrics.c:77-93 | the summary of the window so far, which starts again empty, and of all samples |
| `DescModel.StepKeeps` | src/fs/lxp_fd.c:51-219 | every call keeps counts, ranges and the record of close hooks |
| `DescModel.Reachable` | src/fs/lxp_fd.c:51-219 | over every run from empty tables each count is the number of descriptors naming the description, fits 16 bits, and every description opened is live or was closed exactly once |
| `DescModel.OpenFailsIff` | src/fs/lxp_fd.c:51-80 | open of a known kind fails if and only if its own table is full |
| `DescModel.FoundIff` | src/fs/lxp_fd.c:25-32 | a descriptor is open if and only if its entry is set |
| `DescModel.CountsBounded` | src/fs/lxp_fd.c:174-180 | no count wraps, and one at the limit is named by every descriptor there is |
| `DescModel.DupToMeaning` | src/fs/lxp_fd.c:182-200 | dup makes newfd name the description of oldfd and changes no other descriptor; it fails for a full count only when every descriptor names it |
| `DescModel.PayloadKept` | src/fs/lxp_fd.c:117-130 | the close hook runs exactly when no descriptor names the description any more; every other description is untouched |
| `DescModel.CloseFromEmpties` | src/fs/lxp_fd.c:132-138 | closing a whole table empties it and leaves every other table alone |
| `DescModel.ForkKeeps` | src/fs/lxp_fd.c:157-172 | the copied table is counted in full, and fork never lacks room for the counts |
| `DescModel.SharedCount` | src/fs/lxp_fd.c:157-172 | retaining a table adds one reference per name, without wrap while the sums fit |
| `DescModel.ForkCopies` | src/proc/lxp_process.c:207-223 | the child's table is the parent's, descriptor by descriptor, every description gains one reference per name in it, and nothing else changes |
| `DescModel.ForkAllOrNothing` | src/proc/lxp_process.c:215-222 | fork is refused if and only if some description of the parent is full, and then nothing has changed |
| `DescView.RunView` | src/fs/lxp_fd.c:51-219 | over every run processes see exactly what a machine without reference counts shows: which description each descriptor names, its data, and which close hooks ran, in order |
| `DescView.OpenView` | src/fs/lxp_fd.c:51-80 | open shows a new description with the caller's kind, mode, backing and offset at the least unused descriptor |
| `DescView.CloseView` | src/fs/lxp_fd.c:117-130 | close takes one name away and closes the description with its last |
| `DescView.DupToView` | src/fs/lxp_fd.c:182-200 | dup_to shows the description of oldfd at newfd, closing what newfd was the last name of |
| `DescView.DupMinView` | src/fs/lxp_fd.c:202-219 | dup_min shows it at the least unused descriptor from the minimum on |
| `DescView.ForkView` | src/proc/lxp_process.c:207-223 | the child sees what the parent sees |
| `DescView.CrowdedIff` | src/fs/lxp_fd.c:174-180 | a count is full if and only if all 65535 descriptors there could be name one description |
| `Descriptors.Kernel.Lookup` | src/fs/lxp_fd.c:25-32 | the description of an open descriptor, or none |
| `Descriptors.Kernel.OpenFd` | src/fs/lxp_fd.c:51-80 | the first free description and the first unused descriptor are tied together with one reference, or nothing changes |
| `Descriptors.Kernel.CloseFd` | src/fs/lxp_fd.c:117-130 | the entry is cleared and one reference dropped; the last one runs the hook and wipes the description |
| `Descriptors.Kernel.DupToFd` | src/fs/lxp_fd.c:182-200 | retain, close what newfd named, then name: safe for aliases, and the same descriptor is a no-op |
| `Descriptors.Kernel.DupMinFd` | src/fs/lxp_fd.c:202-219 | the first unused descriptor from the minimum on names the description once more |
| `Descriptors.Kernel.TableRetain` | src/fs/lxp_fd.c:157-172 | all counts or none |
| `Descriptors.Kernel.CloseAll` | src/fs/lxp_fd.c:132-138 | the loop closes every descriptor of the table in turn |
| `Descriptors.Kernel.ForkInherit` | src/proc/lxp_process.c:207-223 | the child gets a counted copy of the table, or nothing changes |
| `Pipe.RunKeeps` | src/fs/lxp_pipe.c:38-98 | over every sequence of calls the bytes delivered followed by the bytes buffered are the bytes accepted, in order |
| `Pipe.EofIff` | src/fs/lxp_pipe.c:82-88 | with at most 65535 ends of a kind open at once, a read of positive length answers 0 if and only if no write end is open and everything accepted was delivered |
| `Pipe.EofSound` | src/fs/lxp_pipe.c:82-88 | however many ends, end of file never comes before everything was delivered and never stays away once no write end is open |
| `Pipe.EofExactIff` | src/fs/lxp_pipe.c:49-88 | end of file is exact on every run with at most n ends of a kind open at once if and only if n is at most 65535 |
| `Pipe.EofEarly` | src/fs/lxp_pipe.c:49-67 | a run with more write ends in which it comes while some are open |
| `Pipe.ReadyIff` | src/fs/lxp_pipe.c:118-124 | poll reports ready if and only if the call would not answer EAGAIN |
| `Pipe.WriteThenRead` | src/fs/lxp_pipe.c:82-98 | what was written comes out behind what was there |
| `Pipe.ReadExact` | src/fs/lxp_pipe.c:82-88 | after any run a read gets the oldest undelivered bytes, as many as there are and it asks for; with none due it answers 0 or EAGAIN by the writers |
| `Pipe.WriteExact` | src/fs/lxp_pipe.c:90-98 | after any run a write fails for want of a reader or of room and otherwise takes as many bytes as fit |
| `Pipe.Lifetime` | src/fs/lxp_pipe.c:38-74 | a pipe is in use from its allocation until a close or discard finds it without ends; unused it holds nothing |
| `Pipe.RingSplit` | src/fs/lxp_ring.h:30-38 | two copies out of the ring are a prefix of the queue |
| `Pipe.RingJoin` | src/fs/lxp_ring.h:46-57 | two copies into the ring append to the queue |
| `Pipe.Pipe.Drain` | src/fs/lxp_ring.h:24-38 | the ring read is the queue read |
| `Pipe.Pipe.Fill` | src/fs/lxp_ring.h:43-58 | the ring write is the queue write |
| `Pipe.Pipe.TryRead` | src/fs/lxp_pipe.c:82-88 | end of file, EAGAIN or the oldest bytes, with the bytes delivered in the buffer and no other byte of it changed |
| `Pipe.Pipe.TryWrite` | src/fs/lxp_pipe.c:90-98 | EPIPE without readers, EAGAIN when full, otherwise as many bytes as fit are appended |
| `Pipe.Pipe.Poll` | src/fs/lxp_pipe.c:118-124 | ready for the asked end exactly as the queue has data, room or no peer |
| `Pipe.Pipe.OpenEnd` | src/fs/lxp_pipe.c:49-56 | one more end of a pipe in use, saturating |
| `Pipe.Pipe.CloseEnd` | src/fs/lxp_pipe.c:58-67 | one end fewer; the pipe is given back with the last |
| `Pipe.Pipe.DiscardIdle` | src/fs/lxp_pipe.c:69-74 | a pipe without ends is given back, any other is untouched |
| `Pipe.Alloc` | src/fs/lxp_pipe.c:38-47 | fails if and only if every pipe is used; otherwise the first unused pipe is emptied and no other changes |
| `Bootstrap.SetupStack` | src/lxp_bootstrap.c:102-193 | answers a block if and only if it fits; the block is aligned, in bounds, without overlap, and is read back by a C runtime as exactly argc, argv, envp and the auxiliary vector; nothing outside the stack changes |
| `Bootstrap.AuxFound` | src/lxp_bootstrap.c:151-166 | what a started program finds in its auxiliary vector under each kind, and nothing under any other |
| `Bootstrap.HeaderExact` | src/lxp_bootstrap.c:137-176 | the header is exactly as long as what it holds |
| `Bootstrap.CopyStrings` | src/lxp_bootstrap.c:83-91 | the strings lie one after the other, each terminated |
| `Bootstrap.PointStrings` | src/lxp_bootstrap.c:94-100 | the words are the addresses of the strings |
| `Bootstrap.WriteHeader` | src/lxp_bootstrap.c:137-192 | the header words of either form, and nothing else |
| `Startup.FdpicBack` | src/lxp_bootstrap.c:137-168 | a reader of the FDPIC form recovers every string and pair from memory and stack pointer alone |
| `Startup.FlatBack` | src/lxp_bootstrap.c:170-192 | so does a reader of the bFLT form |
| `Startup.VectorBack` | src/lxp_bootstrap.c:94-100 | a pointer vector reads back as its strings |
| `Startup.AuxBack` | src/lxp_bootstrap.c:151-166 | the auxiliary vector reads back as its pairs |

## Left out

- The ET_REL loaders of src/lxp_loader.c, the cpio reader of src/lxp_bootstrap.c, and the system-call table: separate paths, or easy members.
- Exception entry, MPU programming, trampolines, FPU capture and cache maintenance of the ports.
- The run loop, signals, waiting and wake-up of parked processes, sockets, hostfs, netfs and device drivers.
- Weak memory: every load, store and compare-and-swap is one step of one global order.
- Loader.LoadFdpic: assumes non-overlapping PT_LOAD segments, an image and a region apart from each other, each below 2 GiB, in an address space below 4 GiB; the program record's data, bss, program-header and interpreter fields are not modelled.
- RelocWalk.Walk: what the relocated words mean is stated for images whose written targets are apart from each other and from the relocation and symbol tables; confinement and termination are stated for all.
- Scheduler.Port.ResumeSlot: the saved context and the memory-policy checks are one parameter; the start mode is the launch path.
- Scheduler.Port.SpawnSlot: task creation by the RTOS and the read-back of its memory profile are one parameter.
- Scheduler.WaitingTicks: counts only ticks that find the selected guest running, with the scheduler task served before a guest runs again, as its priority has it.
- Elf.ParseLayout: regions that leave less than 16 bytes of the 32-bit address range, where its sums could wrap.
- Scheduler.ReachableSafe: a spawn is one step of the run; Scheduler.FineSafe states it with the two halves of a spawn apart.
- Metrics.SnapshotExact: says nothing of snapshots during which the lock wraps all the way round.
- AsyncGate.RetirementEnds: says nothing about a completed request nobody collects or cancels.
- Tmpfs.Tmpfs.Pwrite: guest memory is a parameter, absent when the range is not readable.
- Descriptors.Kernel.ForkInherit: the search for an unused table and the reference counts of shared tables are a parameter.
- Descriptors.Kernel.CloseFd: the kind's close hook is recorded, not run.
- Bootstrap.SetupStack: the sum of the string lengths and address arithmetic below zero do not wrap; a null environment is an empty one; random bytes are a parameter.
- Close-on-exec, file status flags other than those open stores, seek and directory listing.
