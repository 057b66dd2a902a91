# blyt core, modelled and proved in Dafny

blyt is a fantasy console: carts run in a sandbox with a fixed 16 MB budget, drawn
into a paletted frame buffer, and built by a small incremental build tool.  This
project models the parts of it where a mistake is hardest to see and proves what
they promise.  `dafny verify dfyconfig.toml` checks everything.

| file | what it models |
|---|---|
| `ArenaSpec.dfy` | the budget predicate and the cart heap allocator on values: blocks, bump pointer, free list, counter; theorems over runs |
| `ArenaCells.dfy` | how those values are laid out in memory as headers and links |
| `ArenaStale.dfy` | pointers that were freed already, and what a second free of one does |
| `Arena.dfy` | the allocator itself, working in place on an array of 16-byte cells, refining the value model |
| `ArenaLaws.dfy` | what every arena request gets, in plain numbers, and that the runtime's own share drops out |
| `Budget.dfy` | the unified 16 MB budget of a pure-Lua cart and of a hybrid cart with two heaps, as event systems over the allocator, and the host code driving them |
| `BudgetLaws.dfy` | pins and published footprints in plain numbers |
| `BuildEngine.dfy` | fingerprints, skipping and the task runner; incremental builds against forced ones |
| `BuildLaws.dfy` | when a task is skipped and what is recorded, and that a second build is idle |
| `BuildCases.dfy` | the changes its check does not see, case by case, and a history that meets the theorem's premises |
| `Blys.dfy` | the save format: encoding, the streaming writer and reader, damaged and foreign files |
| `BlysLaws.dfy` | the save file byte by byte, and bytes no writer produces |
| `Seccomp.dfy` | a BPF interpreter and the generator of the launcher's filter |
| `Raster.dfy` | rectangle fill, blit and Bresenham line on a byte buffer |
| `RasterLaws.dfy` | the rasterizer pixel by pixel, lines in closed form |
| `RasterBounds.dfy` | which lines are free of 32-bit overflow, decided from their extents, and what wrapping does beyond |
| `Surfaces.dfy` | the surface pool: handles with generations, exclusive locks, the frame-boundary reap |
| `SurfaceLaws.dfy` | what each surface operation does to every pixel access |
| `Exchange.dfy` | nested native and Lua calls over a pool of exchange threads, with debugger pauses |
| `Flatten.dfy` | flattening of nested record declarations and the configuration check built on it |
| `FlatNames.dfy` | when the names flattening makes are pairwise distinct |
| `DevControl.dfy` | the dev control channel's line framing over a fixed receive buffer |

Each stateful component has a value-level step function and a class whose methods
are proved to compute that step; the properties over whole runs are proved about
the step function, and the `Laws` files pin the step function itself down in plain
numbers, independently of how it is defined.

## What the code does not keep

Some promises one could read into the code or its comments do not hold everywhere.
Each of these has a lemma that says exactly where the promise holds.

- An arena request above 2^32 - 32 bytes wraps and gets a block without a payload
  (`ArenaSpec.NeedCoversIffInRange`).
- The comment on free says a double free is ignored.  That is so exactly while the
  pointer still heads a block; once its block was merged into the one before it, the
  counter wraps and the memory is listed twice (`ArenaStale.SecondFreeIgnoredIff`, over
  runs `Arena.FreeTwice`, with the run in `Arena.MergedDoubleFree`).
- Resetting a pure-Lua cart's arena publishes a footprint of zero while the resource
  table may still reserve memory, and that stands until the next pin or unpin; the
  budget is safe in the meantime exactly when the table reserves nothing (`LuaBudget.ResetSafeIffUnreserved`).
- A hybrid cart's Lua-side pin does not look at the native heap; the shared budget
  survives it exactly when the pin would have fitted there too
  (`HybridBudget.LuaPinWithinIff`, with the run in `HybridBudget.LuaPinOverruns`).
- A task is skipped although an input left its list (`BuildCases.DroppedFlagGoesUnnoticed`),
  its flags changed order (`ReorderedFlagsGoUnnoticed`), its dependency file is gone
  (`LostDepfileGoesUnnoticed`), a parameter on no list changed
  (`UnlistedParameterGoesUnnoticed`) or a header appeared earlier on the include path
  (`NewHeaderGoesUnnoticed`).  Where nothing counts as changed, all a run depends on is as
  it was exactly when the list is the recorded one entry by entry, the unlisted parameters
  are the same and nothing has appeared where the recorded run looked in vain
  (`BuildEngine.SkipExact`).
- A failing run that overwrites an output leaves the old record in place, and the junk is
  kept once the cause is undone (`BuildCases.JunkGoesUnnoticed`); the record stays true of
  the disk exactly when each output is left alone or removed
  (`BuildEngine.FailureHarmlessIff`).
- The save writer accepts names the reader refuses: a written file can be read back exactly
  when every name has fewer than 256 bytes (`BlysSpec.ReadableIffShortNames`).
- Flattening gives two fields the same name where underscores let them, as in
  `FlatNames.UnderscoreCollides`; all names are distinct exactly when no two fields of one
  record contribute a common name (`FlatNames.DistinctIff`).
- The raster header says extreme coordinates never overflow.  For lines that is so
  exactly when a check on the two extents passes (`RasterBounds.HoldsIffDrawable`), and
  for all lines of an extent exactly up to 715827883 pixels (`Raster.NoneWrapsIff`).
  The header asks for wrapping arithmetic (runtime/shared/blyt_raster.h:17) while the build
  says it is not needed and not asked for (cmake/blyt_guest_libs.cmake:966-967), so beyond
  that the code is undefined as built; were additions to wrap, a line one pixel longer runs
  on for at least 2^32 - 1 iterations past the overflow (`RasterBounds.RunsOn`).
- The dev control channel says an overlong line is dropped.  Only whole buffers of
  it are; what follows them is dispatched as if it were a command
  (`LineFraming.DispatchedWholeIff`).

## Model

| member | source | states |
|---|---|---|
| `MemBudget.CartHeap` | runtime/shared/blyt_mem_budget.h:79-82 | the cart heap is what the counter exceeds the baseline by, and never negative |
| `MemBudget.CacheRoom` | runtime/shared/blyt_mem_budget.h:98-104 | the room left for the cache is exactly the largest request the allocation predicate would still accept |
| `ArenaSpec.NeedCoversIffInRange` | runtime/shared/blyt_arena.c:38-40 | the 32-bit size computation leaves room for header and payload if and only if the request is at most 2^32 - 32 bytes; in range it wastes less than 16 bytes (17 for an empty request), and 32-bit requests above the bound get a block of at most 16 bytes, which has no payload at all |
| `ArenaSpec.FirstFit` | runtime/shared/blyt_arena.c:118-123 | the earliest free-list entry that is large enough, or the end of the list when all are too small |
| `ArenaSpec.MallocEffect` | runtime/shared/blyt_arena.c:109-167 | from every good state a malloc either changes nothing and returns NULL, or hands out a block that was not live, is large enough for the request, is charged the rounded need or one 16-byte cell more, and leaves every other live block and the tiling, free-list and accounting invariants as they were |
| `ArenaSpec.MallocFromList` | runtime/shared/blyt_arena.c:123-149 | when a free-list entry fits, the outcome depends only on the first one that fits and on the budget gate, asked for the bytes really consumed |
| `ArenaSpec.MallocFromBump` | runtime/shared/blyt_arena.c:153-166 | when no entry fits, malloc succeeds exactly when the tail has room and the budget gate agrees, and the new block starts at the old bump pointer |
| `ArenaSpec.TakeTiled` | runtime/shared/blyt_arena.c:132-142 | taking a free-list entry, split or whole, leaves blocks that still tile the used prefix |
| `ArenaSpec.TakeLists` | runtime/shared/blyt_arena.c:132-145 | and the free list still holds exactly the blocks flagged free, each once |
| `ArenaSpec.TakeCharged` | runtime/shared/blyt_arena.c:129-147 | and the charge grows by exactly the bytes consumed, or not at all for a no-acct block |
| `ArenaSpec.CoalesceTiled` | runtime/shared/blyt_arena.c:81-90 | merging forward leaves blocks that still tile the used prefix |
| `ArenaSpec.CoalesceLists` | runtime/shared/blyt_arena.c:81-90 | merging keeps the free list equal to the set of free blocks and moves no charge |
| `ArenaSpec.FreeEffect` | runtime/shared/blyt_arena.c:180-192 | freeing a live block returns exactly its charge and leaves every other live block alone; freeing the head of a block that is already free changes nothing |
| `ArenaSpec.ReallocEffect` | runtime/shared/blyt_arena.c:194-211 | realloc keeps the block if and only if the new size fits it; a move leaves a new live block that is large enough, the old one free and all others as they were; NULL leaves everything as it was (when it is NULL says `ArenaLaws.ReallocExact`) |
| `ArenaSpec.StepGood` | runtime/shared/blyt_arena.c:109-239 | every legal operation keeps the allocator invariant |
| `ArenaSpec.RunGood` | runtime/shared/blyt_arena.c:109-239 | every run of legal operations, of any length, ends in a state whose blocks tile the used prefix, whose free list is exactly the free blocks and whose counter is exactly the sum of the sizes of the used accounted blocks |
| `ArenaSpec.DrainedRunIsZero` | runtime/shared/blyt_arena.c:54-62 | however a run mixes accounted and no-acct malloc, realloc and free, once nothing accounted is live the counter reads zero |
| `ArenaSpec.TilesExactly` | runtime/shared/blyt_arena.c:153-163 | every 16-byte cell below the bump pointer lies in exactly one block |
| `ArenaSpec.PayloadsDisjoint` | runtime/shared/blyt_arena.c:109-167 | two different blocks are in bounds and share no byte |
| `ArenaLaws.GateExact` | runtime/shared/blyt_arena.c:44-52 | the gate is open exactly without counters, or when the bytes above the baseline, the footprint and the request sum to at most 16777216 |
| `ArenaLaws.MallocExact` | runtime/shared/blyt_arena.c:109-167 | malloc refuses if and only if neither a list entry nor the tail has room or an accounted request exceeds the 16 MB sum, and then changes nothing; otherwise it answers with the first fit, or else the old bump, and blocks, list, bump and counter afterwards are given in full |
| `ArenaLaws.FreeExact` | runtime/shared/blyt_arena.c:180-192 | the list, blocks and counter after freeing a live block: first on the list, made one with a free block behind it, which leaves the list |
| `ArenaLaws.ReallocExact` | runtime/shared/blyt_arena.c:194-211 | realloc keeps a block whose payload suffices; a larger request is refused exactly as malloc refuses it, and otherwise gets the first fit or the old bump, the old block being free and its charge given back afterwards |
| `ArenaLaws.CallocExact` | runtime/shared/blyt_arena.c:223-231 | calloc refuses exactly the products of 2^32 or more and is otherwise malloc of the product |
| `ArenaLaws.SameAnswers` | runtime/shared/blyt_arena.c:44-52 | the fail point does not depend on the runtime's own allocations: raising counter and baseline alike changes no answer and no block in any run that stays at or above its baseline |
| `ArenaCells.RepTake` | runtime/shared/blyt_arena.c:132-145 | the header and link words written when a list entry is taken represent exactly the taken heap; no other word needs to be right |
| `ArenaCells.TakeKeepsPayloads` | runtime/shared/blyt_arena.c:132-145 | those writes touch no payload of any other block |
| `ArenaCells.RepBump` | runtime/shared/blyt_arena.c:158-163 | one header written at the bump pointer represents the heap with the new block and touches no other payload |
| `ArenaCells.RepRelease` | runtime/shared/blyt_arena.c:188-190 | the two words written by free represent the heap with the block at the head of the free list |
| `ArenaCells.MergedRep` | runtime/shared/blyt_arena.c:81-90 | on memory that represents a heap, the word writes of the forward merge represent the merged heap and touch no live payload |
| `ArenaCells.RepUnlist` | runtime/shared/blyt_arena.c:65-78 | redirecting one link word and clearing one header takes exactly that entry off the free list |
| `ArenaCells.RepMerge` | runtime/shared/blyt_arena.c:88-89 | adding the neighbour's size to one header word represents the merged heap, without 32-bit overflow |
| `ArenaCells.CoalesceKeepsPayloads` | runtime/shared/blyt_arena.c:81-90 | unlinking and merging write no payload of any block outside the merged pair |
| `Arena.Arena.constructor` | runtime/shared/blyt_arena.c:92-98 | a new arena is valid and empty whatever bytes its memory holds |
| `Arena.Arena.EnsureReady` | runtime/shared/blyt_arena.c:92-98 | lazy initialisation does not change what the arena means |
| `Arena.Arena.CapAllows` | runtime/shared/blyt_arena.c:44-52 | answers the unified-budget gate from the counters in place; the gate in plain numbers is `ArenaLaws.GateExact` |
| `Arena.Arena.FindFit` | runtime/shared/blyt_arena.c:118-151 | walking the link words in memory finds the first entry that is large enough, with its predecessor, or shows that all are too small |
| `Arena.Arena.TakeBlock` | runtime/shared/blyt_arena.c:124-148 | the in-place writes take the entry: memory represents the taken heap and every live block keeps its bytes |
| `Arena.Arena.Malloc` | runtime/shared/blyt_arena.c:109-167 | refines the value-level malloc: same result, same new state, memory still represents it, and every block that was live keeps its bytes |
| `Arena.Arena.BumpAllocate` | runtime/shared/blyt_arena.c:153-166 | the bump path refines the same specification |
| `Arena.Arena.FlRemove` | runtime/shared/blyt_arena.c:65-78 | the list walk, on any chained list, unlinks the target wherever it is and changes only its header and the link to it |
| `Arena.Arena.CoalesceForward` | runtime/shared/blyt_arena.c:81-90 | computes the forward merge on the words alone, whether or not the block is one of the heap's |
| `Arena.Arena.Free` | runtime/shared/blyt_arena.c:180-192 | for every pointer the arena returned: one that heads a block is freed as specified, keeping the bytes of every other live block; a second free is ignored if and only if the pointer still heads a block; of one whose block a merge has swallowed, the counter is reduced again and the list ends up holding the same memory twice |
| `ArenaStale.SecondFreeIgnoredIff` | runtime/shared/blyt_arena.c:184-185 | at a freed pointer, free writes nothing if and only if the pointer heads a block, and its header says free exactly then |
| `ArenaStale.SecondFreeOverlaps` | runtime/shared/blyt_arena.c:186-191 | a second free of a swallowed pointer leaves a chained list with two entries whose blocks overlap |
| `ArenaStale.FreeStillFreed` | runtime/shared/blyt_arena.c:180-192 | free keeps every other freed pointer a freed one, the one it swallows included, and makes its own one |
| `ArenaStale.TakeStillFreed` | runtime/shared/blyt_arena.c:123-149 | so does taking a list entry, split or whole, for every pointer whose memory is not handed out by it |
| `Arena.FreeTwice` | runtime/shared/blyt_arena.c:180-192 | for every run in between that does not hand out the pointer's memory, stores included: freeing it again is ignored if and only if it still heads a block, and otherwise doubles the list |
| `Arena.MergedDoubleFree` | runtime/shared/blyt_arena.c:180-192 | a concrete run: two small blocks, the second freed, the first, and the second again; the counter ends at 2^32 - 32 and bytes 32 to 64 are on the list twice |
| `Arena.Arena.CopyPayload` | runtime/shared/blyt_arena.c:208 | the old payload becomes the start of the new one and no other block changes |
| `Arena.Arena.Realloc` | runtime/shared/blyt_arena.c:194-211 | refines the value-level realloc; a NULL pointer allocates, size zero frees, on failure or in-place success no byte changes, on growth the new block starts with all bytes of the old one; every other block keeps its own |
| `Arena.Arena.Calloc` | runtime/shared/blyt_arena.c:223-231 | refuses exactly the products that overflow a 32-bit size; otherwise the first nmemb*size bytes of the new block are zero and every other block keeps its bytes |
| `Arena.Arena.ClearPayload` | runtime/shared/blyt_arena.c:229 | clears exactly the requested bytes of one payload, also in the last, partly cleared word, and keeps every byte behind them and every other block |
| `Arena.ZeroCells` | runtime/shared/blyt_arena.c:229-230 | a cell of the block whose bytes were all cleared is zero in all its words |
| `Arena.Arena.Reset` | runtime/shared/blyt_arena.c:233-239 | the arena is empty and the counter is zero, with the same capacity and the other counters unchanged |
| `Arena.Arena.Perform` | runtime/shared/blyt_arena.c:109-239 | each operation of a run, stores by users included, refines the corresponding value-level step and does to the bytes of the live blocks exactly what it should |
| `Arena.RunOps` | runtime/shared/blyt_arena.c:109-239 | over every run: what one cell of a block held at the start is, unless that very cell is freed, overwritten or reset, found where the run's reallocs moved the block to |
| `Arena.TwoRuns` | runtime/shared/blyt_arena.c:109-239 | an arena with any history that was reset and a fresh one elsewhere, given the same operations and each its own stored values, return the same offsets, the same NULLs and the same counters at every step |
| `Resources.FootprintUpdate` | runtime/host/src/libblyt/resource.c:144-155 | replacing one entry moves the footprint by exactly the difference of what the two reserve |
| `Resources.ReleaseShrinks` | runtime/host/src/libblyt/resource.c:52-55 | releasing all pins never raises the footprint |
| `BudgetLaws.ReservedWhilePinned` | runtime/shared/blyt_resource_lifecycle.h:41-52 | however pins and unpins are mixed, an entry stays reserved exactly while it is persistent or more pins than unpins were made |
| `BudgetLaws.OnlyPersistentStay` | runtime/shared/blyt_resource_lifecycle.h:66-70 | the frame boundary drops every pin and nothing else; the footprint is then the bytes of the persistent entries |
| `LuaBudget.HeapOpCounters` | runtime/shared/blyt_arena.c:44-62 | a heap operation moves only the heap counter, and it grows the cart heap only to where heap plus published footprint still fit 16 MB |
| `LuaBudget.NextWithin` | frontends/wasm/wasm_main.c:229-252 | every event of a pure-Lua cart keeps cart heap plus pinned and persistent resources within 16 MB, and keeps the published footprint no smaller than the real one, unless it is a reset with something still reserved |
| `LuaBudget.RunWithin` | frontends/wasm/wasm_main.c:2074-2092 | in every state of every interleaving of accounted and no-acct heap traffic, pins, unpins, frame-boundary releases, publishes and rebaselines, with resets that find nothing reserved, the 16 MB budget holds |
| `LuaBudget.ResetSafeIffUnreserved` | frontends/wasm/wasm_main.c:218-223 | after a reset, which publishes a footprint of zero until the next pin or unpin, the budget is safe against every continuation if and only if the table reserves nothing |
| `BudgetLaws.LuaPinExact` | frontends/wasm/wasm_main.c:2074-2087 | a pin takes place if and only if the entry decodes and its bytes fit beside the cart's own and the reserved ones; then that entry has one pin more and the exact footprint is published, otherwise nothing happens |
| `BudgetLaws.LuaStaysExact` | frontends/wasm/wasm_main.c:229-243 | the published footprint is the reserved bytes exactly, from any pin, unpin or publish until a frame boundary or a reset |
| `BudgetLaws.LuaOthersExact` | frontends/wasm/wasm_main.c:218-223 | an unpin touches its own entry only, a frame boundary no counter; rebaselining leaves the cart without bytes of its own, a reset an empty arena and zeroed counters; none changes anything else |
| `LuaHost.Host.TableFootprint` | runtime/host/src/libblyt/resource.c:144-155 | the 32-bit table walk computes the footprint modulo 2^32 |
| `LuaHost.Host.PublishFootprint` | frontends/wasm/wasm_main.c:229-243 | refines the publish event |
| `LuaHost.Host.PinEntry` | frontends/wasm/wasm_main.c:2074-2087 | refines the pin event; succeeds exactly when the reference fits and the bytes decode |
| `LuaHost.Host.UnpinEntry` | frontends/wasm/wasm_main.c:2089-2092 | refines the unpin event, a no-op on the entry without an outstanding pin |
| `LuaHost.Host.ForceReleasePins` | runtime/host/src/libblyt/resource.c:52-55 | the loop over the table refines the frame-boundary release |
| `LuaHost.Host.ResetArena` | frontends/wasm/wasm_main.c:218-223 | refines the reset event |
| `LuaHost.Host.RebaselineAndSeed` | frontends/wasm/wasm_main.c:637-642 | refines the rebaseline event of a cart without a native half, which publishes nothing |
| `HybridBudget.PublishToLuaCouples` | frontends/wasm/wasm_main.c:229-243 | publishing the table and the native heap to the Lua half makes its predicate cover everything the other half and the table hold |
| `HybridBudget.PublishToNativeCouples` | runtime/host/src/libblyt/cart_run.c:673-695 | publishing the table and the peer heap to the native half does the same for it |
| `HybridBudget.NativePinWithin` | runtime/host/src/libblyt/cart_run.c:2187-2229 | a pin the native gate accepts keeps both heaps and the table within 16 MB |
| `HybridBudget.SetUpAlone` | frontends/wasm/wasm_main.c:606-626 | while a reload sets the runtime up again, with nothing published, the Lua heap stays within 16 MB on its own |
| `HybridBudget.ReloadWithin` | frontends/wasm/wasm_main.c:637-642 | once the Lua arena is reset, the runtime set up again with any allocations and rebaselined, budget and coupling are intact |
| `HybridBudget.NextWithin` | frontends/wasm/wasm_main.c:628-635 | every event of a two-arena run, the pin release inside a native call and the reload included, keeps Lua heap, native heap and resources together within 16 MB, provided a Lua-side pin also fits beside the native heap |
| `HybridBudget.RunWithin` | frontends/wasm/wasm_main.c:628-699 | and so does every run of non-nested native calls that return normally, in every state of it |
| `HybridBudget.LuaPinWithinIff` | frontends/wasm/wasm_main.c:247-252 | a Lua-side pin keeps the shared budget if and only if the pinned bytes fit beside both heaps, a check its gate does not make |
| `HybridBudget.LuaPinOverruns` | frontends/wasm/wasm_main.c:247-252 | a concrete run: the native half fills its heap, returns, the Lua half pins 16 MB, and 32 MB are in use |
| `BudgetLaws.HybridStaysExact` | frontends/wasm/wasm_main.c:628-642 | entering, leaving, reloading, unpinning and every pin that takes place show the running half exactly what the other half and the table hold; only a frame boundary on the Lua side lets the figure fall behind |
| `BudgetLaws.LuaSidePin` | frontends/wasm/wasm_main.c:247-252 | the Lua side's pin gate in plain numbers: its own heap and the table |
| `BudgetLaws.NativeSidePin` | runtime/host/src/libblyt/cart_run.c:2187-2229 | the native side's: both heaps and the table |
| `BudgetLaws.HybridFrame` | frontends/wasm/wasm_main.c:628-642 | an event moves only its own half's heap; which half runs and what the table holds afterwards |
| `HybridBudget.Host.EnterNative` | frontends/wasm/wasm_main.c:628-631 | refines entering a native call: the peer figure and the native footprint are republished |
| `HybridBudget.Host.LeaveNative` | frontends/wasm/wasm_main.c:632-635 | refines leaving it: the native heap is folded into the Lua half's footprint |
| `HybridBudget.Host.PinFromLua` | frontends/wasm/wasm_main.c:2074-2087 | refines the Lua-side pin of a hybrid cart |
| `BuildEngine.CheckInputs` | devtool/src/engine/fingerprint.rs:99-139 | the loop computes the new record and the needs-run flag of the per-input check |
| `BuildEngine.Workspace.BuildOne` | devtool/src/engine/runner.rs:30-73 | one task: skip and refresh its record, or run it and record the inputs it lists after the run, dependency file included |
| `BuildEngine.Workspace.Build` | devtool/src/engine/runner.rs:16-75 | tasks in order, stopping at the first failure |
| `BuildEngine.UnchangedOne` | devtool/src/engine/fingerprint.rs:70-95 | an input that counts as unchanged, by size and time or by hash, has the content its record stands for |
| `BuildEngine.FreshRecord` | devtool/src/engine/fingerprint.rs:88-93 | a record made after a run stands for exactly the inputs present |
| `BuildEngine.UnchangedRecord` | devtool/src/engine/fingerprint.rs:99-139 | a record refreshed by an unforced check stands for exactly the inputs present, and those agree with the old record |
| `BuildEngine.SkipExact` | devtool/src/engine/fingerprint.rs:99-139 | when nothing counts as changed, all a run depends on is as it was for the recorded run if and only if the ordered list is the recorded one, the parameters on no list are the same and nothing has appeared where that run looked in vain; the list as a set is the same if and only if no entry has left it |
| `BuildEngine.SkipJustified` | devtool/src/engine/runner.rs:34-51 | a skipped task would build exactly what is on disk, also where its list comes from the dependency file the recorded run wrote |
| `BuildLaws.SkippedIff` | devtool/src/engine/runner.rs:34-51 | a task is skipped if and only if all outputs are there and every value on its list is on record and every file is there, on record, and has the recorded size and time or else the recorded hash |
| `BuildLaws.ListIs` | devtool/src/build/c.rs:56-75 | the list is the fixed inputs, what the dependency file names if it is there, more fixed inputs, and the tool itself |
| `BuildLaws.RecordIs` | devtool/src/engine/fingerprint.rs:70-95 | a record holds size, time and hash of every listed input as it is now; the recorded hash is kept only with size and time |
| `BuildLaws.RanExact` | devtool/src/engine/runner.rs:55-72 | a run succeeds exactly if the tool makes every output; each output then holds its own text, no other file and no other record changes, and a failing run changes no record |
| `BuildLaws.BuildSplits` | devtool/src/engine/runner.rs:16-75 | a build is its tasks one after the other up to the first that fails |
| `BuildLaws.SecondBuildIdle` | devtool/src/engine/runner.rs:34-51 | after a build that succeeded, forced or not, a second build of the same tasks runs none of them and leaves files and records exactly as they are |
| `BuildCases.DroppedFlagGoesUnnoticed` | devtool/src/engine/fingerprint.rs:119-134 | a concrete case: after a flag is dropped the old object is kept, where a forced build would replace it |
| `BuildCases.ReorderedFlagsGoUnnoticed` | devtool/src/build/c.rs:68-73 | a concrete case: after two flags are swapped the old object is kept, where a forced build would replace it |
| `BuildCases.LostDepfileGoesUnnoticed` | devtool/src/build/c.rs:62-82 | a concrete case: the dependency file is no output the check looks for; once it is gone an edited header is not noticed |
| `BuildCases.NewHeaderGoesUnnoticed` | devtool/src/build/c.rs:171-186 | a concrete case: a header appears earlier on the include path; the list and all its contents are the recorded ones, and the old object is kept where a forced build would replace it |
| `BuildCases.UnlistedParameterGoesUnnoticed` | devtool/src/build/c.rs:84-97 | a concrete case: the include path is passed to the compiler but is on no list; after it changes the old object is kept where a forced build would replace it |
| `BuildCases.IncludeReports` | devtool/src/build/c.rs:56-75 | the compiler of these cases reports every file it reads |
| `BuildCases.JunkGoesUnnoticed` | devtool/src/engine/runner.rs:55-72 | a concrete case: a failing run leaves junk in its output; once the cause is undone the record from before still matches and the junk is kept |
| `BuildEngine.SkipKeepsInv` | devtool/src/engine/runner.rs:40-51 | a skip keeps the cache invariant |
| `BuildEngine.RunKeepsInv` | devtool/src/engine/runner.rs:55-72 | a run, successful or failed, keeps the cache invariant |
| `BuildEngine.FailureHarmlessIff` | devtool/src/engine/runner.rs:55-56 | the outputs being there, a failing run leaves the task's record true of the disk if and only if it leaves each of its outputs alone or removes it |
| `BuildEngine.TaskAgrees` | devtool/src/engine/runner.rs:30-73 | from worlds with the same contents, an incremental task that succeeds and a forced one leave the same contents; conditions on its list apply only where it is skipped |
| `BuildEngine.BuildKeepsInv` | devtool/src/engine/runner.rs:16-75 | every build, forced or not, failed or not, keeps the cache invariant |
| `BuildEngine.BuildAgrees` | devtool/src/engine/runner.rs:16-75 | a successful incremental build leaves what a forced build leaves, also where one task's output is a later task's input |
| `BuildEngine.IncrementalEqualsForced` | devtool/src/engine/runner.rs:16-75 | after any interleaving of edits, deletions and builds, a successful unforced build leaves every file equal to what a forced one produces |
| `BuildEngine.FromScratch` | devtool/src/engine/runner.rs:16-75 | in particular from a workspace without any record |
| `BuildCases.ChangedFlagWitness` | devtool/src/engine/runner.rs:16-75 | the premises of the theorem are met by a history in which a flag changes between two unforced builds, write times come from a clock and one path gets different contents of the same length |
| `BlysFormat.LeRoundTrip` | runtime/shared/blyt_blys.c:11-38 | decoding a little-endian encoding gives the value back |
| `BlysLaws.LeDigit` | runtime/shared/blyt_blys.c:11-26 | byte i of an encoded number is its i-th digit in base 256, the lowest first |
| `BlysLaws.LeFour` | runtime/shared/blyt_blys.c:15-20 | a 32-bit number written out as its four bytes |
| `BlysFormat.PutLe` | runtime/shared/blyt_blys.c:15-26 | the byte loop produces the little-endian encoding |
| `BlysFormat.GetLe` | runtime/shared/blyt_blys.c:33-38 | the byte loop decodes it |
| `BlysFormat.PayloadSize` | runtime/shared/blyt_blys.c:59-66 | the running 32-bit sum is the payload's size modulo 2^32 |
| `BlysSpec.FillWritten` | runtime/shared/blyt_blys.c:196-204 | filling from what the writer produced restores every array and leaves the rest of the file |
| `BlysSpec.FillCut` | runtime/shared/blyt_blys.c:196-204 | a cut anywhere inside the arrays makes filling fail |
| `BlysSpec.ReadOne` | runtime/shared/blyt_blys.c:155-205 | reading any valid section, known, unknown or of a foreign kind, has exactly its stated effect and continues with what follows |
| `BlysSpec.ReadAll` | runtime/shared/blyt_blys.c:155-205 | reading any list of sections has the effect of those sections in order |
| `BlysSpec.ReadTruncated` | runtime/shared/blyt_blys.c:155-205 | cutting a file at a section boundary restores exactly the earlier sections; cutting it anywhere inside the next one is an I/O error |
| `BlysSpec.ForeignSectionIgnored` | runtime/shared/blyt_blys.c:163-168 | inserting any well-formed section of another kind at any boundary does not change the result |
| `BlysSpec.CutFile` | runtime/shared/blyt_blys.c:131-207 | a whole written file cut at any byte: inside the header it is refused with version zero; at a section boundary the saved version is returned and exactly the buffers written before the cut are restored; anywhere else it is an I/O error |
| `BlysSpec.ForeignInFile` | runtime/shared/blyt_blys.c:131-207 | a well-formed section of another kind, inserted into a whole file at any boundary, changes neither code nor version nor buffers |
| `BlysSpec.LongNameRefused` | runtime/shared/blyt_blys.c:175-177 | the first section with a name of 256 bytes or more ends the reading with an error, whatever follows |
| `BlysSpec.ReadableIffShortNames` | runtime/shared/blyt_blys.c:70-207 | a written file is read back without error if and only if every name has fewer than 256 bytes; either way the version is returned and exactly the buffers before the first longer name are restored |
| `BlysSpec.ReadOldHeader` | runtime/shared/blyt_blys.c:136-153 | a 16-byte header of minor version 0 is read with version 0 and restores what the same sections behind a current header do |
| `BlysSpec.ReadHeader` | runtime/shared/blyt_blys.c:136-153 | a written header is accepted exactly for its own schema hash, and no buffer changes otherwise |
| `BlysSpec.HeaderCut` | runtime/shared/blyt_blys.c:136-150 | a file cut inside its header is an I/O error, reports version zero and changes no buffer |
| `BlysLaws.HeaderLayout` | runtime/shared/blyt_blys.c:72-79 | the twenty bytes of a header: the letters BLYS, version 1.1, schema hash and save version, byte by byte |
| `BlysLaws.SectionLayout` | runtime/shared/blyt_blys.c:82-107 | the bytes of a section: the letters CART, the size of what follows, the name's length, the name, the fields, 16 and 256 bytes of slots |
| `BlysLaws.FieldLayout` | runtime/shared/blyt_blys.c:40-57 | the fields follow one another, each with one value of its type's width per slot |
| `BlysLaws.CutFills` | runtime/shared/blyt_blys.c:196-204 | a section cut short is an error, and the arrays that were whole before the cut are in the buffer while the others are as they were |
| `BlysLaws.AnyHeaderRead` | runtime/shared/blyt_blys.c:136-153 | any header with the magic: four bytes of save version follow exactly from minor version 1 on, and a wrong hash is told after the version is known |
| `BlysLaws.WrongMagic` | runtime/shared/blyt_blys.c:136-141 | without the magic nothing is read |
| `BlysLaws.KnownIgnoresSize` | runtime/shared/blyt_blys.c:196-204 | the size word of a buffer the reader knows is not looked at |
| `BlysLaws.UnknownSkipsSize` | runtime/shared/blyt_blys.c:189-194 | of a buffer it does not know, the size word alone says how much is skipped, in 32-bit arithmetic |
| `BlysSpec.RestoreMeaning` | runtime/shared/blyt_blys.c:181-204 | for any order, subset or superset of readers, each buffer ends as the written buffer of its name, or as it was |
| `BlysSpec.SaveRoundTrip` | runtime/shared/blyt_blys.c:70-207 | reading what was written returns the saved version, restores every written buffer exactly and leaves every other buffer untouched |
| `Blys.Source.Skip` | runtime/shared/blyt_blys.c:114-123 | skipping through a 256-byte scratch buffer succeeds exactly when enough bytes are left and then drops exactly those |
| `Blys.Write` | runtime/shared/blyt_blys.c:70-109 | the sink gets exactly the encoded file, or a prefix of it and an error precisely when the whole does not fit |
| `Blys.FindBuffer` | runtime/shared/blyt_blys.c:181-187 | the first buffer of that name, or none |
| `Blys.FillBuffer` | runtime/shared/blyt_blys.c:196-204 | the array loop refines filling, including what a short source leaves behind |
| `Blys.ReadSection` | runtime/shared/blyt_blys.c:155-205 | one turn of the section loop: what remains to be read from the new state is what the old state called for |
| `Blys.ReadFile` | runtime/shared/blyt_blys.c:131-207 | the reader computes the value-level reader's result code, version and buffers for every byte sequence, malformed ones included |
| `Seccomp.PairsRun` | frontends/native/seccomp_allowlist.h:180-184 | from any entry on, a block allows exactly the numbers left in its list |
| `Seccomp.BlockRun` | frontends/native/seccomp_allowlist.h:178-184 | a block embedded anywhere in a program allows exactly its list and kills everything else |
| `Seccomp.FilterCorrect` | frontends/native/seccomp_allowlist.h:141-202 | for all allowlists the 8-bit jump can skip, the program halts inside its own text on every architecture and number and allows a call if and only if its architecture's list has the number |
| `Seccomp.FilterText` | frontends/native/seccomp_allowlist.h:121-202 | the program instruction by instruction, in the kernel's numbers |
| `Seccomp.EmitBlock` | frontends/native/seccomp_allowlist.h:178-184 | writes one block in place and nothing else |
| `Seccomp.BuildLauncherFilter` | frontends/native/seccomp_allowlist.h:141-202 | refuses exactly more than 126 numbers for the first list or a program longer than the buffer, and then writes nothing; otherwise the buffer starts with the compiled filter and is unchanged after it |
| `Seccomp.ShippedFilter` | frontends/native/seccomp_allowlist.h:86-119 | the shipped filter fits 256 instructions; a 64-bit caller may only use execve, write and exit_group, a 32-bit one only the twenty listed calls, and everything else kills the process |
| `Raster.RectFill` | runtime/shared/blyt_raster.c:29-48 | for all signed coordinates and sizes, every visible pixel of the unclipped rectangle gets the colour and every other byte, stride padding included, is unchanged |
| `Raster.Blit` | runtime/shared/blyt_raster.c:50-79 | for all signed positions, every visible pixel under the unclipped source gets that source pixel and every other byte is unchanged |
| `Raster.Pixel` | runtime/shared/blyt_raster.c:20-27 | changes exactly the visible pixel |
| `RasterLaws.FilledPixel` | runtime/shared/blyt_raster.c:29-48 | column c of row r gets the colour exactly if it lies from (x, y) to (x + w, y + h) |
| `RasterLaws.BlittedPixel` | runtime/shared/blyt_raster.c:50-79 | column c of row r shows the image's pixel (c - x, r - y), clipped or not, and otherwise keeps its own |
| `RasterLaws.PaddingKept` | runtime/shared/blyt_raster.c:29-79 | bytes between the rows are never touched |
| `RasterLaws.ClosedForm` | runtime/shared/blyt_raster.c:94-107 | after n iterations the walk is n pixels along the longer axis and, along the shorter one, at the exact height rounded to the nearest pixel, a half downwards |
| `RasterLaws.LinePoints` | runtime/shared/blyt_raster.c:81-108 | every point of a line in closed form |
| `RasterLaws.PaintedPixel` | runtime/shared/blyt_raster.c:81-108 | a visible pixel is painted exactly if it is one of those points |
| `Raster.StaysOnTrack` | runtime/shared/blyt_raster.c:94-107 | after every iteration the major axis has advanced once per iteration and the point is within half a pixel of the ideal line on the minor axis |
| `Raster.ReachesEnd` | runtime/shared/blyt_raster.c:96-97 | the walk is at the far end at iteration max(dx, dy) and at no earlier one |
| `Raster.StaysInBox` | runtime/shared/blyt_raster.c:98-106 | the walk never overshoots on either axis |
| `Raster.NoWrap` | runtime/shared/blyt_raster.c:98-106 | for extents up to 715827883 no step of the 32-bit arithmetic overflows |
| `Raster.NoneWrapsIff` | runtime/shared/blyt_raster.c:89-106 | as a bound on both extents alike it is exact: all lines up to an extent are free of overflow if and only if the extent is at most 715827883 |
| `RasterBounds.Occurs` | runtime/shared/blyt_raster.c:94-107 | every multiple of the extents' greatest common divisor within half a major extent is the distance of some point from the ideal line |
| `RasterBounds.HoldsIffDrawable` | runtime/shared/blyt_raster.c:89-106 | for every single line: no step overflows if and only if a closed-form check on its two extents and their greatest common divisor passes |
| `RasterBounds.LevelAndDiagonal` | runtime/shared/blyt_raster.c:89-106 | level lines are free of overflow exactly up to 2^30 - 1 pixels, diagonals for every extent that fits 32 bits |
| `RasterBounds.WrapAgrees` | runtime/shared/blyt_raster.c:94-107 | as long as no step overflows, the walk with wrapping additions is the walk on integers |
| `RasterBounds.LeavesItsRow` | runtime/shared/blyt_raster.c:94-107 | with wrapping additions, a line one pixel beyond the uniform bound steps off its last row at the first overflow |
| `RasterBounds.RunsOn` | runtime/shared/blyt_raster.c:94-107 | and is not on its last row in any of the following 2^32 - 1 iterations, so it does not end where it should |
| `Raster.BoundIsTight` | runtime/shared/blyt_raster.c:98 | a line of extent 715827884 that rises by one pixel doubles an error term of 2^30 |
| `Raster.LineShape` | runtime/shared/blyt_raster.c:94-107 | a line has max(|dx|, |dy|) + 1 points, starts and ends at its end points and keeps to within half a pixel of the ideal line |
| `Raster.Advance` | runtime/shared/blyt_raster.c:98-106 | one iteration in 32-bit arithmetic computes the next point and error term exactly |
| `Raster.Line` | runtime/shared/blyt_raster.c:81-108 | for every line none of whose steps overflows, exactly its visible points are painted, every other byte is unchanged, and the loop terminates |
| `Raster.LineCrops` | runtime/shared/blyt_raster.c:85-88 | drawing into a smaller frame equals cropping the drawing in a larger one |
| `Handles.SurfaceHandle` | runtime/shared/blyt_handle.h:125-151 | kind, slot and generation can be read back from the packed handle |
| `Surfaces.ResolvesIff` | frontends/wasm/wasm_main.c:1238-1251 | a handle resolves if and only if it is the one its slot's surface was created with, or differs from it in the one generation bit the slots do not keep |
| `Surfaces.AccessesAreSafe` | frontends/wasm/wasm_main.c:1370-1379 | in every state with the invariant, no access through a live lock or a drawable handle touches a freed buffer or a byte outside one |
| `Surfaces.LockIsExclusive` | frontends/wasm/wasm_main.c:1253-1263 | while a lock is live nothing else reaches its buffer: not its handle, not another handle, not another lock |
| `Surfaces.CreateKeeps` | frontends/wasm/wasm_main.c:1313-1345 | creating a surface keeps the invariant, refused or not |
| `Surfaces.DestroyKeeps` | frontends/wasm/wasm_main.c:1346-1360 | so does destroying one, by any handle |
| `Surfaces.AcquireKeeps` | frontends/wasm/wasm_main.c:1446-1477 | so does acquiring a lock |
| `Surfaces.ReleaseKeeps` | frontends/wasm/wasm_main.c:1548-1561 | so does releasing one, twice or from an earlier frame included |
| `Surfaces.NextFrameKeeps` | frontends/wasm/wasm_main.c:1299-1311 | so does the frame boundary, after which no lock is live |
| `Surfaces.RunKeeps` | frontends/wasm/wasm_main.c:1313-1561 | in every state every run of fewer than 2^32 frames reaches, each live lock's slot is in use, marked locked, holds the lock's own buffer and has no second live lock |
| `Surfaces.ReachableIsSafe` | frontends/wasm/wasm_main.c:1228-1236 | in every state reachable from the initial pool no access leaves an allocated buffer |
| `Surfaces.HandleLifetime` | frontends/wasm/wasm_main.c:1246-1247 | a handle that resolves now resolves after any run exactly as long as its surface was not given back, until its slot's 16-bit generation has wrapped |
| `Surfaces.CreatedResolves` | frontends/wasm/wasm_main.c:1337-1343 | a new surface answers to its handle, with the width and height asked for and a fresh blank buffer |
| `Surfaces.StaleStaysStale` | frontends/wasm/wasm_main.c:1479-1484 | a lock released or kept from an earlier frame never becomes live again |
| `Surfaces.SurfacePool.CreateSurface` | frontends/wasm/wasm_main.c:1313-1345 | refines the value-level creation: same slot, same handle, same refusals; the slot has the width and height asked for |
| `Surfaces.SurfacePool.DestroySurface` | frontends/wasm/wasm_main.c:1346-1360 | refines the value-level destruction |
| `Surfaces.SurfacePool.AcquireLock` | frontends/wasm/wasm_main.c:1446-1477 | refines the value-level acquisition |
| `Surfaces.SurfacePool.ReleaseLock` | frontends/wasm/wasm_main.c:1548-1561 | refines the value-level release |
| `Surfaces.SurfacePool.LockGet` | frontends/wasm/wasm_main.c:1486-1498 | reads inside a buffer that is allocated, or returns 0 |
| `Surfaces.SurfacePool.LockSet` | frontends/wasm/wasm_main.c:1500-1514 | writes exactly one byte inside a buffer that is allocated, or nothing |
| `Surfaces.SurfacePool.FrameBoundary` | frontends/wasm/wasm_main.c:3607-3620 | the reap loop followed by the epoch step frees exactly the off-screen buffers, opens every lock and leaves no lock live |
| `SurfaceLaws.CreateExact` | frontends/wasm/wasm_main.c:1313-1345 | creation is refused if and only if a side is outside 1 to 8192, slots 1 to 63 are in use or the allocation fails; otherwise the lowest free slot's handle shows a blank surface of just that width and height, row by row, in a buffer of its own, and no other access changes |
| `SurfaceLaws.PixelsApart` | frontends/wasm/wasm_main.c:1370-1379 | two pixels of a surface are two bytes |
| `SurfaceLaws.DestroyExact` | frontends/wasm/wasm_main.c:1346-1360 | destruction is ignored exactly for a handle that does not resolve, is locked or is the screen's; otherwise the handle is dead, its buffer gone and all else as it was |
| `SurfaceLaws.AcquireExact` | frontends/wasm/wasm_main.c:1446-1477 | locking succeeds exactly for a handle that resolves and is not locked; the lock then sees just the bytes the handle showed, and the handle none |
| `SurfaceLaws.ReleaseExact` | frontends/wasm/wasm_main.c:1548-1561 | releasing a live lock gives the handle back the bytes the lock saw; releasing any other changes no access |
| `SurfaceLaws.WriteExact` | frontends/wasm/wasm_main.c:1500-1514 | a write changes that byte and no other |
| `SurfaceLaws.FrameExact` | frontends/wasm/wasm_main.c:1299-1311 | at the frame boundary every off-screen handle and every lock is dead, and the screen is unlocked with its pixels as they were |
| `Exchange.NextDisciplined` | frontends/wasm/wasm_main.c:798-951 | every call, refused call, callback, pause, resumption and return keeps the exchange-stack discipline |
| `Exchange.RunDisciplined` | frontends/wasm/wasm_main.c:798-951 | for every nesting of native and Lua calls with pauses anywhere, active levels use distinct threads, the innermost one is attached, and the frame base is the sum over the active levels (what each level adds says `Exchange.BaseFromEvents`) |
| `Exchange.OutermostRestores` | frontends/wasm/wasm_main.c:798-813 | when the outermost call has finished, depth, thread, attachment and frame base are back at their initial values |
| `Exchange.BaseFromEvents` | frontends/wasm/wasm_main.c:893-951 | after any run from the idle machine, depth, running thread and frame base follow from the events alone: a started call adds its caller's depth, or nothing without a debugger, and its end takes that away |
| `Exchange.Descends` | frontends/wasm/wasm_main.c:893-951 | native and Lua code may call each other down to the full depth of eight |
| `Exchange.Ascends` | frontends/wasm/wasm_main.c:798-813 | and all of these calls may return |
| `Exchange.PauseUndone` | frontends/wasm/wasm_main.c:846-855 | a pause at any depth followed by one re-entry per level brings back the very state it was |
| `Exchange.ParentThread` | frontends/wasm/wasm_main.c:736-743 | the loop finds the next outer exchange thread, the driver coroutine, or nothing |
| `Exchange.WalkVisitsAllLevels` | frontends/wasm/wasm_main.c:730-743 | walking from a level's thread to its parents visits every outer level once, innermost first, and ends at the driver coroutine |
| `Exchange.Bridge.constructor` | frontends/wasm/wasm_main.c:749-762 | a new pool is idle and disciplined |
| `Exchange.Bridge.Trampoline` | frontends/wasm/wasm_main.c:893-951 | refines the call event: a refused call leaves thread, depth and base as they were, a started one adds the caller's depth to the base exactly under the debugger |
| `Exchange.Bridge.Drive` | frontends/wasm/wasm_main.c:864-871 | entering the drive loop restores the discipline whatever ran or unwound before: the frame base is again the sum of all active caller depths |
| `Exchange.Bridge.FinishCall` | frontends/wasm/wasm_main.c:798-813 | refines the return event |
| `Exchange.Bridge.ResumeAll` | frontends/wasm/wasm_main.c:846-855 | re-entering all levels after a pause, outermost first, ends with the state the pause interrupted |
| `Flatten.FlattenRecord` | devtool/src/config.rs:225-294 | terminates on every record map, equals the recursive definition, and restores the visiting stack on success |
| `Flatten.FlattensIff` | devtool/src/config.rs:225-294 | flattening succeeds if and only if every embedding path from the root ends at a declared record whose fields have exactly one of type and ref and which is not already on the path; a record may be embedded twice side by side |
| `Flatten.LeavesListed` | devtool/src/config.rs:243-293 | the result is the depth-first list of all leaves, each once: the paths leading to a leaf are exactly the listed ones, in lexicographic order, entry k is the leaf at the end of path k, named by the fields on the way, and indices count from 1 |
| `Flatten.OneField` | devtool/src/config.rs:243-293 | a record of one field: which combinations of type and reference are errors, the tag of every primitive type and of a reference, and what embedding makes of the embedded record's names, numbers and errors |
| `Flatten.FirstFailure` | devtool/src/config.rs:243-293 | the error is that of the first field that has one |
| `FlatNames.DistinctIff` | devtool/src/config.rs:243-293 | the flat names are pairwise distinct if and only if in no record that is reached two fields contribute a common name |
| `FlatNames.PlainNamesDistinct` | devtool/src/config.rs:243-293 | field names that are distinct within each record and have no underscore give distinct flat names |
| `FlatNames.UnderscoreCollides` | devtool/src/config.rs:243-293 | a concrete case: a field a_b beside an embedded a with a field b flattens to two fields called a_b |
| `Flatten.CheckRefs` | devtool/src/config.rs:386-396 | accepts exactly when every ref target is a declared state buffer |
| `Flatten.ValidateRecords` | devtool/src/config.rs:371-397 | checking record by record accepts exactly the configurations whose declarations are each right on their own and whose embedding graph has no cycle |
| `Flatten.ConfigOkPasses` | devtool/src/config.rs:381-397 | in such a configuration every record flattens and all its leaves' references are declared |
| `LineFraming.FeedLine` | frontends/player/main.c:583-586 | a line of any length leaves what remains after whole 4095-byte buffers were dropped from it |
| `LineFraming.FeedLines` | frontends/player/main.c:469-487 | finished lines dispatch their commands in order, however long they are |
| `LineFraming.Splits` | frontends/player/main.c:467-487 | every stream is a list of finished lines and an unfinished one |
| `LineFraming.DispatchedWholeIff` | frontends/player/main.c:583-586 | a line without NUL bytes is dispatched whole, less one carriage return at its end, if and only if it has at most 4094 bytes |
| `LineFraming.SessionReceives` | frontends/player/main.c:582-604 | serving any sequence of reads equals feeding the received bytes one at a time, whatever pieces they came in |
| `LineFraming.AnyChunking` | frontends/player/main.c:565-605 | however a stream is split across reads, the commands dispatched are its non-empty lines in order and the buffer holds its unfinished line, for all streams whose lines have at most 4094 bytes; for all others the same with each line cut to its residue |
| `LineFraming.DispatchExact` | frontends/player/main.c:474-481 | a line of at most 4094 bytes dispatches what stands before its first NUL, less one carriage return at the end of that, and nothing if that is empty |
| `LineFraming.NeverEmpty` | frontends/player/main.c:477-481 | no session ever dispatches an empty command, or one with a NUL or a newline in it |
| `LineFraming.SentIsDispatched` | frontends/player/main.c:565-605 | what a client sends as lines ending in CR LF is what is dispatched, in order and however it is cut into reads, less the empty commands |
| `LineFraming.ChunksReceived` | frontends/player/main.c:582-604 | every byte of every read counts, in order |
| `LineFraming.OtherOutcomes` | frontends/player/main.c:582-604 | a read that would block or was interrupted changes nothing; an end or an error closes the client for good |
| `DevControl.Channel.Strlen` | frontends/player/main.c:475-476 | finds the end of the C string at a line's start |
| `DevControl.Channel.StripReturn` | frontends/player/main.c:477-478 | cuts one carriage return off the C string and touches nothing behind it |
| `DevControl.Channel.FinishLine` | frontends/player/main.c:474-481 | dispatches the line's command if it is not empty and leaves the bytes behind the newline alone |
| `DevControl.Channel.ProcessBuffer` | frontends/player/main.c:469-487 | scanning the buffer in place dispatches what feeding its bytes would and keeps exactly the unfinished line at the front |
| `DevControl.Channel.ReadSome` | frontends/player/main.c:583-591 | one read takes as many bytes as fit, never beyond the buffer, after dropping a full buffer |
| `DevControl.Channel.Drain` | frontends/player/main.c:582-604 | reads until the socket has no more, ends or fails, with the effect of the consumed reads |
| `DevControl.Channel.Poll` | frontends/player/main.c:565-605 | one frame's service refines the session: a new client starts with an empty buffer, and the poll stops only when the socket is drained or gone |

## Left out

- Arena.Arena.Malloc: requires a request of at most 2^32 - 32 bytes; beyond it the size wraps (`ArenaSpec.NeedCoversIffInRange`) and the written block would overlap its neighbours, so no later state is described. The same holds for Realloc and for Calloc's product.
- Arena.Arena.Free: pointers the arena never returned, and swallowed ones whose memory was handed out and written since; after a second free of a swallowed pointer no further state is described. Realloc of a block that is not live is outside the model.
- Arena.Arena.Store: users write whole 16-byte cells of their own payload; single-byte stores are not modelled separately.
- Arena addresses: a pointer is modelled as its block's offset in cells, so alignment holds by construction and the base address plays no part; `size_t` is taken as 32 bits.
- LuaBudget.RunWithin: resets only where the table reserves nothing, the exact condition of ResetSafeIffUnreserved; reloading the asset table, length changes of staged assets and the order of cache eviction are not modelled.
- HybridBudget.ReloadWithin: a reload is one event; the states in the middle of its set-up, where the published footprint is zero and the table and the native heap are not charged, are not among those of RunWithin, and only SetUpAlone speaks of them.
- HybridBudget.RunWithin: Lua-side pins only where they also fit beside the native heap, the exact condition of LuaPinWithinIff; nested native calls, native calls that fail and the bytes of off-screen surfaces are not modelled.
- BuildEngine.IncrementalEqualsForced: premises on every history are that size and time identify the content of every file that was there, the hash is injective on the contents seen, tasks do not share outputs, a list that was recorded is not empty and names no path that starts with `value:` or that its own task writes, and a failing run of a task that has a record leaves each of its outputs alone or removes it. A run reports every file it reads: it builds the same on any disk that agrees on the list it reported and has none of the paths it looked for in vain. Only of a task that is skipped: its list is of that kind too, its dependency file is there, no entry has left the list, nothing has appeared where the recorded run looked in vain, and it is the recorded task, unlisted parameters included, or differs from it only in the order of the list and runs ignore order and repetition. State files are saved and existing files can be read.
- BuildLaws.SecondBuildIdle: for builds whose tasks have different keys and lists that are all there at the end, and in which no later task writes what an earlier one owns or lists; a task with a missing input runs every time.
- BudgetLaws.LuaPinExact: for tables that reserve at most 16 MB; beyond that the 32-bit sum of the table walk may wrap.
- Dependency files: which paths one names is a parameter; splitting its text into paths would add only an easy string function.
- Blys.Write: requires buffers whose payload size fits 32 bits and whose arrays have the sizes their header states; the wrapped size of a larger payload is only described by `BlysFormat.PayloadSize`.
- Blys.Source.Get: a short read consumes nothing and reports no bytes; what a callback may have written into the destination before failing is not modelled, nor are two buffers sharing one array.
- Save format version: the reader ignores the major version, and so does the model.
- Seccomp.BuildLauncherFilter: list lengths are unbounded integers; installing the program is a system call and not modelled.
- Raster.Line: requires that no step overflows, which HoldsIffDrawable decides from the extents; beyond it signed overflow is undefined in C as the code is built, and what such a line draws is not stated. RunsOn only speaks of the walk, under wrapping additions, for one family of lines.
- Raster.Blit: source and destination are different buffers; the full clear is a special case of the rectangle fill.
- Surfaces.SurfacePool.FrameBoundary: fewer than 2^32 frames, since the lock epoch is a 32-bit counter; the lazy set-up of slot 0 is folded into the initial state.
- Surface drawing other than single pixels, the surface registry of hybrid sessions, and the debug builds' errors in place of ignored accesses.
- Exchange.RunDisciplined: marshalling of arguments and results, error values, cart coroutines and native debugger pauses are not modelled.
- FlatNames.DistinctIff: whether names collide is not something the configuration check looks at; the check itself is ValidateRecords.
- Flatten.ValidateRecords: says whether a configuration is accepted, not which of several errors is reported first; YAML parsing, colour names and the schema hash are not modelled.
- DevControl.Channel.Poll: sockets become the sequence of read outcomes; dispatching stops at the command text, the JSON reader behind it is not modelled.
- The Lua virtual machine, the RISC-V emulator, decompression, HTTP, relays, file watching, export and the editor extension: libraries and I/O around the core.
