# NanoVDB and OpenVDB cores, modelled and proved in Dafny

NanoVDB stores a sparse volume as a fixed four-level tree (a root table of tiles over 32^3, 16^3
and 8^3 nodes) in one block of memory, and reads it through accessors that remember the nodes they
passed. This project models that tree with its caches, the bit-level indexes on it, the pool that
hands out its memory, the chains of grids that are written to and read from streams, and a few
smaller protocols of OpenVDB around them. Each fast form is proved equal to a simple one, and each
state machine is proved safe over every run.

`dafny verify dfyconfig.toml` verifies everything.

How the pieces fit together:

- **Tree and caches.** `Coords`, `CoordBits` (coordinates, node digits, root keys, and the masks and
  shifts that compute them), `VdbTree` (nodes and top-down descent), `VdbWrites` (what a write changes),
  `VdbDims` (step sizes and the fused query), `ReadAccessors` (one key per cached level, sentinel for
  "empty"), `SingleKeyAccessors` (one key for three levels, failed checks forget nodes), `RootSearches`.
  Values are opaque. Nodes refer to each other by index, as byte offsets do in the source.
- **Bit-level indexes.** `Bits` and `Words64` (integers as bits, 64-bit words), `BitScans`, `PopCount`,
  `Masks`, `LeafIndexes`, `WordPairs`, `LeafBoxes`.
- **Memory pool.** `HostBuffers` (every operation, with its exact effect and error cases; a pool dies
  the moment its last reference goes) and `HostBufferRuns` (every run of them).
- **Grid chains.** `GridHeaders`, `GridChains` (parser), `GridHandles` (split and merge),
  `GridRoundTrips` (one after the other, for any regular header format), `GridStreams` (write and read),
  `NanoFormats` (the concrete header format, and the byte-level round trips), `GridLayouts` (layout check,
  sizes, copies), `GridSamples` (small grids and chains on which something fails).
- **Smaller cores.** `Hdda`, `NodeManagers`, `MetaMaps`, `InitProtocol`.
- **Shared.** `Arith`, `Bytes`, `Repetitions`, `Sequences`, `Streams`, `Traces`, `Wrappers`.

What turned out to be false of the code in general, with the exact condition under which it holds and
an input on which it fails:

- The assertion in the destructor of a `HostBuffer` pool, that its register is empty, and with it that a
  register holds just the buffers that use the pool. Four kinds of calls can break this, and
  `HostBufferRuns.Dispatch` says exactly when: moving a buffer that is registered with size zero, as
  `create(0)` makes it (`StrayAfterMove`), moving a buffer that uses memory onto itself
  (`StrayAfterSelfMove`), `init` on a registered buffer (`PoolDiesInInit`), and `reset` of a pool that only
  registered buffers refer to, which destroys the pool inside its own loop (`PoolDiesInReset`).
- With skip flags, `ReadAccessor::getDim` depends on what is cached. It is the uncached answer exactly
  when nothing is cached for the voxel or no node above the lowest cached one is flagged, and never more
  than it (`ReadAccessors.ReadAccessor.GetDim`). On the tree of `VdbDims.SkipFlagsShowCache` a read makes it
  less (`ReadAccessors.DimAfterRead`).
- Splitting and merging give grids back byte for byte except for the head checksum; that comes back too
  exactly when it was absent, or right and not lost on the way (`GridHeaders.StampedBack`). Under no CRC
  does it come back in `GridSamples.WrongChecksumIsReplaced`.
- What `parseHostGridChain` accepts, `validateGridLayout` accepts exactly if all grids are aligned and
  their types are known (`GridLayouts.ParsedIsLayout`), so not the chain of `GridSamples.OddChainIsNoLayout`.
- `readMeta` undoes `writeMeta` exactly when every entry's type is registered under its own name and has
  the size of the entry's value, or is unregistered and not temporary (`MetaMaps.EqualIffAllSurvive`). The
  alias registrations of the point index types fail this (`MetaMaps.AliasBreaksRoundTrip`), and so do raw
  bytes of a type that is registered with another size (`MetaMaps.MisfitBreaksRoundTrip`).

Of the HDDA everything about times and positions is proved in exact arithmetic, and nothing about
rounding. There the forward-stepping check, which exists because of rounding, moves time forward only if
the stalled `next` exceeds -1 (`Hdda.HddaState.Step`); `Hdda.FirstStepBack` is a ray whose first step
moves time back.

## Model

| member | source | states |
|---|---|---|
| Coords.OffsetThenCoord | nanovdb/nanovdb/NanoVDB.h:3605-3633 | A voxel's table offset, turned back into a coordinate of its node, is the origin of the child cube that contains the voxel (of the voxel itself in a leaf), at every level and for negative coordinates. |
| Coords.CoordThenOffset | nanovdb/nanovdb/NanoVDB.h:4502-4515 | Every table offset of a node is the offset of the coordinate it starts at, and that coordinate lies in the node: the two maps are mutual inverses. |
| Coords.SameEntry | nanovdb/nanovdb/NanoVDB.h:4595-4598 | Two voxels share a child cube if and only if they share the node and the offset in it. |
| Coords.SentinelNeverMatches | nanovdb/nanovdb/NanoVDB.h:5425-5428 | The initial cache key differs from the node origin of every voxel, so it stands in for a null check. |
| CoordBits.MasksAreFloors | nanovdb/nanovdb/NanoVDB.h:5499-5505 | Masking with ~MASK is rounding down to the node, and mask-and-shift is the digit, for two's complement coordinates of either sign. |
| CoordBits.OffsetIsUnionOfDigits | nanovdb/nanovdb/NanoVDB.h:3606-3611 | The bitwise union of the three shifted digits is their positional sum: no digit overlaps another. |
| CoordBits.LocalIsShiftAndMask | nanovdb/nanovdb/NanoVDB.h:3614-3619 | The shifts and masks that take an offset apart give its three digits, at every level. |
| CoordBits.GlobalIsShifted | nanovdb/nanovdb/NanoVDB.h:3622-3626 | Shifting a digit left by the child's size and adding the origin gives the global coordinate, at every level and for negative origins. |
| CoordBits.KeyRoundTrip | nanovdb/nanovdb/NanoVDB.h:2662-2676 | Packing a coordinate into a 64-bit root key and unpacking it clears exactly the low twelve bits of each component, for all int32 coordinates. |
| CoordBits.KeysIdentifyBlocks | nanovdb/nanovdb/NanoVDB.h:2662-2669 | Two voxels have the same root key if and only if they lie in the same 4096-block, so packed and coordinate keys find the same tile. |
| CoordBits.SplitKeyIsKey | nanovdb/nanovdb/PNanoVDB.h:1995-2010 | The key assembled from two 32-bit words, whose shifts drop bits, is the native 64-bit key. |
| CoordBits.DirtyMeansOtherNode | nanovdb/nanovdb/PNanoVDB.h:2726-2759 | The masked union of the coordinate differences is nonzero if and only if the voxel lies outside the node of the key, at each level. |
| VdbTree.PathOfBlock | nanovdb/nanovdb/NanoVDB.h:3124-3132 | All voxels of a block are sent through the same nodes down to the level of that block. |
| VdbTree.GetFromPath | nanovdb/nanovdb/NanoVDB.h:3638-3644 | A read that starts at any node on the path of a voxel returns what the descent from the root returns, for every operation whose level allows that start. |
| VdbTree.SetFromPath | nanovdb/nanovdb/NanoVDB.h:3646-3652 | A write that starts at any node on the path leaves the tree that the write from the root leaves. |
| VdbTree.NodesAreOnPath | nanovdb/nanovdb/NanoVDB.h:6424-6470 | GetLeaf, GetLower, GetUpper and GetTile return exactly the node or tile on the voxel's path, and null when the path ends above it. |
| VdbTree.ReadsOnPath | nanovdb/nanovdb/NanoVDB.h:6356-6509 | What getValue, isActive, probeValue and getDim report on any tree, spelled out: state, value and edge 1 of the voxel itself if a leaf holds it, else those of the entry of the lowest node (8 or 128), else of the tile (4096), else inactive, the background and 0. |
| VdbWrites.AddressFromPath | nanovdb/nanovdb/PNanoVDB.h:2366-2382 | The value slot found from any node on the path is the slot found from the root. |
| VdbWrites.AddressOnPath | nanovdb/nanovdb/PNanoVDB.h:2525-2545 | Which slot a voxel's value lives in, told from where its path ends. |
| VdbWrites.SlotsAreCubes | nanovdb/nanovdb/PNanoVDB.h:2453-2468 | Two voxels share a value slot if and only if they lie in the same aligned cube of the edge that belongs to the slot. |
| VdbWrites.RootGoesThroughSlot | nanovdb/nanovdb/NanoVDB.h:3134-3142 | Every level-0 read and write of a voxel is a read or write of the slot at its address, and the dimension is that of the slot. |
| VdbWrites.SetKeepsTopology | nanovdb/nanovdb/NanoVDB.h:6368-6392 | SetValue and SetVoxel change no node, key, flag or mask, and never touch a child entry; the tree stays well formed. |
| VdbWrites.TopologyFixesPaths | nanovdb/nanovdb/NanoVDB.h:3124-3142 | Trees that differ in values only send every voxel through the same nodes to the same slot, which is why caches survive writes. |
| VdbWrites.GetAfterSet | nanovdb/nanovdb/NanoVDB.h:6357-6420 | After a write every voxel of the written slot's cube reads the new value, and every other value, every state, dimension and node reads as before. |
| VdbWrites.SetValueOnPath | nanovdb/nanovdb/NanoVDB.h:6368-6380 | Which voxels read the value that SetValue wrote, spelled out: the one voxel if a leaf holds it, else those of the 8, 128 or 4096 cube of the entry or tile, else none; no state changes. |
| VdbWrites.SetVoxelWritesOneVoxel | nanovdb/nanovdb/NanoVDB.h:6381-6392 | SetVoxel changes the value of the one voxel if a leaf holds it, and nothing otherwise. |
| VdbDims.DimFromPath | nanovdb/nanovdb/NanoVDB.h:3665-3679 | getDim from a node on the path is at most getDim from the root, and equal if and only if no node above it on the path has its skip flag set. |
| VdbDims.DimFromNode | nanovdb/nanovdb/NanoVDB.h:3665-3679 | getDim from a node on the path, spelled out: the edge of the topmost flagged node from there down (4096, 128 or 8), else that of the entry where the path ends (128, 8 or 1). |
| VdbDims.DimOnPath | nanovdb/nanovdb/NanoVDB.h:3154-3166 | The same from the root, and 4096 without a child of the root. |
| VdbDims.SkipFlagsShowCache | nanovdb/nanovdb/NanoVDB.h:3665-3679 | A well-formed tree on which getDim is 8 from the lower node on the path and 4096 from the root. |
| VdbDims.DimIsSound | nanovdb/nanovdb/NanoVDB.h:3154-3166 | Without skip flags, all voxels of the aligned cube of edge getDim around a voxel have the same value, the same state and the same getDim. |
| VdbDims.DimAndActiveFromPath | nanovdb/nanovdb/NanoVDB.h:3681-3712 | From any node on the path and under any skip flags: both policies report getDim, ActiveExact reports isActive, and ActiveOnLeafOnly reports active exactly if the voxel is and no upper or lower node met on the way is flagged. |
| VdbDims.DimAndActiveFromRoot | nanovdb/nanovdb/NanoVDB.h:3168-3183 | The same for the traversal from the root, background and tiles included. |
| ReadAccessors.Root.Probe | nanovdb/nanovdb/NanoVDB.h:2814-2828 | The loop over the tiles stops at the first tile with the key of the voxel's block, or finds that there is none. |
| ReadAccessors.HitIsOnPath | nanovdb/nanovdb/NanoVDB.h:5499-5505 | A key that matches is not the sentinel, and the node cached with it is the one on the voxel's own path. |
| ReadAccessors.ReadAccessor.constructor | nanovdb/nanovdb/NanoVDB.h:5421-5430 | A new accessor satisfies the cache invariant: each key is the sentinel or the origin of exactly the node cached with it. |
| ReadAccessors.ReadAccessor.Clear | nanovdb/nanovdb/NanoVDB.h:5470-5479 | After clear no voxel is cached at any level. |
| ReadAccessors.ReadAccessor.Insert | nanovdb/nanovdb/NanoVDB.h:5618-5628 | Only the slot of the inserted level changes, and only if the accessor caches that level; the invariant stays. |
| ReadAccessors.ReadAccessor.LowestHit | nanovdb/nanovdb/NanoVDB.h:5525-5539 | The node that a lookup starts from is the lowest that is cached for this voxel from the given level up, and lies on its path in the current tree; there is none only if nothing is cached. |
| ReadAccessors.ReadAccessor.NodeGetAndCache | nanovdb/nanovdb/NanoVDB.h:3714-3726 | The caching descent returns what the plain one returns, leaves every node below on the path cached, and leaves the slots from its own level up alone. |
| ReadAccessors.ReadAccessor.RootGetAndCache | nanovdb/nanovdb/NanoVDB.h:3185-3199 | From the root: the uncached answer, with the whole path cached down to the level of the operation. |
| ReadAccessors.ReadAccessor.NodeSetAndCache | nanovdb/nanovdb/NanoVDB.h:3728-3740 | The caching write leaves the tree of the uncached write, keeps all cached nodes valid for the changed tree, and caches the path. |
| ReadAccessors.ReadAccessor.RootSetAndCache | nanovdb/nanovdb/NanoVDB.h:3201-3215 | The same from the root. |
| ReadAccessors.ReadAccessor.NodeGetDimAndCache | nanovdb/nanovdb/NanoVDB.h:3665-3679 | The caching form reports the dimension of the plain one; without skip flags it caches the whole path below. |
| ReadAccessors.ReadAccessor.NodeGetDimAndActiveAndCache | nanovdb/nanovdb/NanoVDB.h:3685-3712 | The caching form reports the pair of the plain one under either policy; ActiveExact caches the whole path below whatever the flags. |
| ReadAccessors.ReadAccessor.Get | nanovdb/nanovdb/NanoVDB.h:5517-5541 | For any cache contents a read returns RootNode::get on the current tree; afterwards the lowest cacheable node on the path is cached, and a hit leaves all slots from its level up alone. |
| ReadAccessors.ReadAccessor.Set | nanovdb/nanovdb/NanoVDB.h:5543-5567 | For any cache contents a write leaves the tree of RootNode::set; afterwards the lowest cacheable node on the path is cached, and a hit leaves all slots from its level up alone. |
| ReadAccessors.ReadAccessor.GetDim | nanovdb/nanovdb/NanoVDB.h:5569-5585 | Exactly the getDim from the lowest cached node on, or from the root if nothing is cached; at most the uncached dimension, and equal to it if and only if nothing is cached for the voxel or no node above the lowest cached one has its skip flag set. |
| ReadAccessors.DimAfterRead | nanovdb/nanovdb/NanoVDB.h:5569-5585 | An accessor on a flagged tree that answers 8 after a read of the voxel, and 4096 when it is cleared. |
| ReadAccessors.ReadAccessor.GetDimAndActive | nanovdb/nanovdb/NanoVDB.h:5587-5607 | Exactly the dimension of getDim and the state from the lowest cached node on: the true one for ActiveExact, and for ActiveOnLeafOnly the true one unless a flag is met, and then inactive. |
| ReadAccessors.Step | nanovdb/nanovdb/NanoVDB.h:5390-5629 | A call by one of several accessors of a shared tree leaves the invariants of all of them intact, also when it writes. |
| ReadAccessors.RunTrace | nanovdb/nanovdb/NanoVDB.h:4917-5629 | For every trace of reads, writes, dimension queries and clears by any number of accessors caching any subset of levels, every answer is the uncached answer on the tree of that moment, and the tree evolves as if no cache existed. |
| SingleKeyAccessors.QueriesAreGets | nanovdb/nanovdb/PNanoVDB.h:2889-3065 | Value, state and dimension as PNanoVDB and CNanoVDB define them are those of NanoVDB's descent; only the background's dimension differs (4096 instead of 0). |
| SingleKeyAccessors.QueriesOnPath | nanovdb/nanovdb/PNanoVDB.h:2366-2545 | What each query reports on any tree, spelled out: slot and level 0 in a leaf, 1 and 2 in a lower and an upper node, 3 in a tile, 4 in the background, with dimension 1, 8, 128, 4096 and 4096, and state and value of that slot. |
| SingleKeyAccessors.HitContainsVoxel | nanovdb/nanovdb/PNanoVDB.h:2726-2759 | If a level's check is clean and the levels below are forgotten, all nodes still cached under the old key lie on the new voxel's path. |
| SingleKeyAccessors.SingleKeyAccessor.IsCached | nanovdb/nanovdb/CNanoVDB.h:779-796 | The check succeeds only for a non-null node whose masked difference is zero, and when it fails exactly that node is nulled. |
| SingleKeyAccessors.SingleKeyAccessor.LowestHit | nanovdb/nanovdb/PNanoVDB.h:2848-2871 | After the sequence of checks every node still cached contains the voxel, and all levels below the hit are null: the side effect that makes one key for three levels sound. |
| SingleKeyAccessors.SingleKeyAccessor.Insert | nanovdb/nanovdb/CNanoVDB.h:316-323 | Moving the shared key to the voxel keeps the invariant, because every cached node contains the voxel by then. |
| SingleKeyAccessors.SingleKeyAccessor.NodeDescendAndCache | nanovdb/nanovdb/PNanoVDB.h:2767-2810 | The caching descent ends at the address of the uncached one; afterwards the cached nodes up to its level are exactly those on the path. |
| SingleKeyAccessors.SingleKeyAccessor.RootDescendAndCache | nanovdb/nanovdb/PNanoVDB.h:2818-2840 | The same from the root: afterwards all three cached nodes are exactly those on the path, null where it ends earlier. |
| SingleKeyAccessors.SingleKeyAccessor.Lookup | nanovdb/nanovdb/PNanoVDB.h:2848-3065 | Address and level, dimension, state and value are the uncached ones, which `QueriesOnPath` spells out, whatever was looked up before; the lowest node of the path is cached afterwards. |
| SingleKeyAccessors.SingleKeyAccessor.GetLeaf | nanovdb/nanovdb/CNanoVDB.h:830-846 | The result is the leaf that covers the voxel, and null if and only if there is none. |
| SingleKeyAccessors.SingleKeyAccessor.NodeSetValueAndCache | nanovdb/nanovdb/CNanoVDB.h:495-506 | True if and only if a leaf covers the voxel; the tree is that of the uncached SetVoxel, and the path below is cached. |
| SingleKeyAccessors.SingleKeyAccessor.SetValue | nanovdb/nanovdb/CNanoVDB.h:879-892 | True if and only if it wrote, and then it wrote exactly that voxel; the cache stays valid for the written tree. |
| SingleKeyAccessors.Step | nanovdb/nanovdb/PNanoVDB.h:2703-3065 | A call by one of several accessors of a shared tree leaves the invariants of all of them intact, also when it writes. |
| SingleKeyAccessors.RunTrace | nanovdb/nanovdb/PNanoVDB.h:2703-3065 | In every run in which any number of accessors of one tree mix address, dimension, state, value, leaf and write calls, each answer is that of uncached access to the tree of that moment, and the tree evolves as if no cache existed. |
| RootSearches.KeyMatches | nanovdb/nanovdb/CNanoVDB.h:137-161 | Comparing packed keys is comparing block origins. |
| RootSearches.LinearSearch | nanovdb/nanovdb/CNanoVDB.h:574-584 | The tile of the voxel's block, or none if and only if the table has none. |
| RootSearches.FullSearch | nanovdb/nanovdb/CNanoVDB.h:557-572 | The form that never leaves the loop early finds the same tile. |
| RootSearches.CompareIsTotal | nanovdb/nanovdb/CNanoVDB.h:119-135 | The comparison is zero only for equal coordinates, antisymmetric and transitive. |
| RootSearches.BinarySearch | nanovdb/nanovdb/CNanoVDB.h:596-616 | On tiles sorted by that comparison, bisection finds the tile of the block, or none if and only if there is none. |
| RootSearches.SearchThreeWays | nanovdb/nanovdb/CNanoVDB.h:677-685 | All three ways of searching return the same tile of a sorted table. |
| HostBuffers.RegisteredIffPointing | nanovdb/nanovdb/HostBuffer.h:379-414 | In a consistent state a buffer with nonzero size is in a pool's register if and only if it points to that pool. |
| HostBuffers.LastReferenceEmptiesRegister | nanovdb/nanovdb/HostBuffer.h:357-362 | In a consistent state, a pool that no buffer refers to has an empty register, and without it the state is still consistent. |
| HostBuffers.ReleaseKeeps | nanovdb/nanovdb/HostBuffer.h:357-362 | Dropping a reference in a consistent state leaves every remaining pool owned and consistent, and if it was the last one the destructor's assertion holds. |
| HostBuffers.AssignKeeps | nanovdb/nanovdb/HostBuffer.h:553-568 | Move assignment between two buffers keeps the registers right and every pool owned if and only if the source is not registered with size zero. |
| HostBuffers.SelfAssignKeeps | nanovdb/nanovdb/HostBuffer.h:553-568 | Moving a buffer that uses no memory onto itself keeps everything right; one that uses memory stays in the register of a pool it does not point to, unless the pool dies with it registered. |
| HostBuffers.DropKeeps | nanovdb/nanovdb/HostBuffer.h:539-551 | A buffer that drops its reference without leaving the register keeps everything right if it was not registered; otherwise it stays in the register of a pool it does not point to, or was the pool's last reference. |
| HostBuffers.ResetKeeps | nanovdb/nanovdb/HostBuffer.h:416-426 | If a reference to the pool is left when all registered buffers have dropped theirs, emptying them together with the register and the used part leaves all pools owned and consistent. |
| HostBuffers.OutsideMeansUnregistered | nanovdb/nanovdb/HostBuffer.h:416-426 | That is the case if and only if some buffer outside the register refers to the pool, and always if the buffer that asks for the reset is not registered itself. |
| HostBuffers.MoveKeeps | nanovdb/nanovdb/HostBuffer.h:456-476 | Relocating a pool to any aligned base, with the same used bytes, keeps every registered buffer's size, contents, alignment and offset, and all buffers disjoint. |
| HostBuffers.MakePool | nanovdb/nanovdb/HostBuffer.h:336-355 | The pool lies in the memory that the caller or malloc handed over and starts at its first aligned address; it fails exactly without memory or for misaligned external memory, with the error to match. |
| HostBuffers.InNewPool | nanovdb/nanovdb/HostBuffer.h:336-355 | The first buffer of a new pool starts at the first aligned address of the memory handed over and ends inside it. |
| HostBuffers.ReallocBlock | nanovdb/nanovdb/HostBuffer.h:492-513 | Wherever realloc puts the block and whatever padding it needs there, the used bytes end up at its first aligned address. |
| HostBuffers.NewBlock | nanovdb/nanovdb/HostBuffer.h:445-461 | In each managed and external combination the new block is the one that realloc, malloc or the caller gave, and carries the used bytes; there is none exactly in the cases where resize throws. |
| HostBuffers.Runtime.Release | nanovdb/nanovdb/HostBuffer.h:357-362 | A pool is gone as soon as no buffer refers to it, and the assertion fails if and only if its register is not empty then. |
| HostBuffers.Runtime.PoolAdd | nanovdb/nanovdb/HostBuffer.h:379-399 | Fails exactly if the buffer does not fit from the next aligned address, and then changes nothing. |
| HostBuffers.Runtime.PoolReplace | nanovdb/nanovdb/HostBuffer.h:408-414 | The register loses the first buffer and gains the second. |
| HostBuffers.Runtime.MoveConstruct | nanovdb/nanovdb/HostBuffer.h:529-537 | The new buffer has the old one's pool, size and address, the old one is empty, and the state stays sound if and only if the source was not registered with size zero. |
| HostBuffers.Runtime.MoveAssign | nanovdb/nanovdb/HostBuffer.h:553-568 | The same for assignment, where the overwritten buffer leaves its pool's register and may take its pool with it; self-move included, which keeps the state sound if and only if the buffer uses no memory. |
| HostBuffers.Runtime.Clear | nanovdb/nanovdb/HostBuffer.h:626-634 | The buffer is empty and unregistered, its pool is gone if that was the last reference, and nothing else changes. |
| HostBuffers.Runtime.CreatePool | nanovdb/nanovdb/HostBuffer.h:590-601 | The buffer owns a pool, in the memory that the caller or malloc handed over, without being registered in it; failure leaves nothing behind and says why. |
| HostBuffers.Runtime.CreateFull | nanovdb/nanovdb/HostBuffer.h:603-612 | The buffer fills its new pool completely: it starts at the first 32-byte aligned address of the memory that the caller or malloc handed over and ends inside that memory; failure leaves nothing behind and says why. |
| HostBuffers.Runtime.Create | nanovdb/nanovdb/HostBuffer.h:614-624 | Carves the buffer out of the shared pool, at the first aligned address behind all others, if it fits, or out of a pool of its own, in the memory from malloc, if there is none to share; failure leaves nothing behind and says why. |
| HostBuffers.Runtime.Init | nanovdb/nanovdb/HostBuffer.h:539-551 | The exact outcome of init, with the buffer in the memory handed over, and its failures; the state stays sound if and only if nothing was registered, and the old pool's assertion fails if and only if a registered buffer held its last reference. |
| HostBuffers.Runtime.PoolReset | nanovdb/nanovdb/HostBuffer.h:416-426 | Every registered buffer is emptied; the state stays sound if and only if a reference to the pool is left, and otherwise the pool dies inside the loop. |
| HostBuffers.Runtime.Reset | nanovdb/nanovdb/HostBuffer.h:636-645 | Throws exactly for a buffer that uses memory or has no pool; otherwise every registered buffer of the pool is empty and all its memory is free again, soundly if and only if a buffer outside the register refers to the pool. |
| HostBuffers.Runtime.PoolResize | nanovdb/nanovdb/HostBuffer.h:430-476 | When resize throws nothing has changed, and the error says which test failed; otherwise the pool lies in the memory from realloc if it owned its block and is to own the new one, in that from malloc if it did not, and in the given one else; and every live buffer keeps size, contents, alignment and offset from the pool's start, usage is kept and all other pools and buffers are untouched. |
| HostBuffers.Runtime.ResizePool | nanovdb/nanovdb/HostBuffer.h:647-653 | The same through a buffer, which throws if it has no pool. |
| HostBufferRuns.IntactIsSafe | nanovdb/nanovdb/HostBuffer.h:327-334 | A sound state has what users rely on: registered means pointing there, buffers are 32-byte aligned, disjoint and inside the used part, and every pool is owned. |
| HostBufferRuns.Dispatch | nanovdb/nanovdb/HostBuffer.h:517-653 | From a sound state any legal call has its stated effect and leads to a sound state if and only if it is none of the four breaking ones. |
| HostBufferRuns.RunCommands | nanovdb/nanovdb/HostBuffer.h:517-653 | Starting from nothing, every state of every run of the other calls is safe in that sense, every step has its stated effect, and no destructor's assertion ever fails. |
| HostBufferRuns.PoolDiesInReset | nanovdb/nanovdb/HostBuffer.h:636-645 | create(0) and then reset: the pool dies inside the loop with a buffer in its register. |
| HostBufferRuns.StrayAfterMove | nanovdb/nanovdb/HostBuffer.h:529-537 | create(0) and then a move: the old buffer stays in the register. |
| HostBufferRuns.StrayAfterSelfMove | nanovdb/nanovdb/HostBuffer.h:553-568 | A buffer carved from a shared pool and moved onto itself stays in a register that it no longer points to. |
| HostBufferRuns.PoolDiesInInit | nanovdb/nanovdb/HostBuffer.h:539-551 | create(0) and then init: the old pool dies with the buffer in its register. |
| GridHeaders.StampedFields | nanovdb/nanovdb/tools/GridChecksum.h:403-415 | After updateGridCount index and count are the given ones, nothing else differs but the head checksum, and the header is valid if and only if its other fields are. |
| GridHeaders.StampedHead | nanovdb/nanovdb/tools/GridChecksum.h:403-415 | The head checksum is refreshed from the changed header exactly if the grid has a checksum. |
| GridHeaders.StampedBack | nanovdb/nanovdb/tools/GridChecksum.h:403-415 | Changing index and count and changing them back restores the grid byte for byte if and only if nothing changed, it has no checksum, or its checksum was right and did not become the empty pattern on the way; otherwise only the head checksum differs. |
| GridSamples.WrongChecksumIsReplaced | nanovdb/nanovdb/tools/GridChecksum.h:403-415 | Under every CRC: a valid grid of version 32.9.2, with room for the tree data, whose wrong head checksum is replaced when it is stamped away and back. |
| GridSamples.TypeIsRead | nanovdb/nanovdb/NanoVDB.h:1987-1988 | The handle on a grid of class 2 and type 5 says type 5. |
| GridHeaders.HeaderOfPrefix | nanovdb/nanovdb/NanoVDB.h:1973-2042 | Validity, index, count, size and type are determined by the first 672 bytes. |
| GridHeaders.HeaderOnBytes | nanovdb/nanovdb/NanoVDB.h:1973-2042 | Where index, count, size and type stand in the bytes of a header, and which bytes make it valid. |
| GridHeaders.MagicOnBytes | nanovdb/nanovdb/NanoVDB.h:1869-1924 | The magic numbers are the letters NanoVDB0 and NanoVDB1, and an empty checksum is eight bytes of ones. |
| GridChains.LayoutConcat | nanovdb/nanovdb/GridHandle.h:124-143 | The metadata of concatenated chains is the first's followed by the second's rebased by the size of the first. |
| GridChains.ChainAt | nanovdb/nanovdb/GridHandle.h:126-142 | In a buffer that starts with a chain, grid i and its header stand at the summed sizes of the grids before it. |
| GridChains.ParseHostGridChain | nanovdb/nanovdb/GridHandle.h:115-144 | Accepts a buffer if and only if it starts with a chain of valid headers carrying their index, the count and fitting sizes; the chain is unique and the metadata is its layout. The error says what is wrong behind the grids that were accepted. |
| GridHandles.MakeHandle | nanovdb/nanovdb/GridHandle.h:597-607 | Construction succeeds if and only if the buffer starts with a chain, and describes that chain. |
| GridHandles.SplitGrids | nanovdb/nanovdb/GridHandle.h:748-771 | One handle per grid, in order, each exactly the grid stamped as grid 0 of 1; it fails if and only if some header contradicts the metadata or is invalid, with the error of the first such grid. |
| GridHandles.Measure | nanovdb/nanovdb/GridHandle.h:793-800 | The size loop accepts exactly the handles whose headers agree with their metadata, and sums up the bytes of the grids. |
| GridHandles.CopyGrids | nanovdb/nanovdb/GridHandle.h:803-811 | The copy loop appends the stamped grids of a handle to those copied before and never writes past the summed size. |
| GridHandles.WrapIsCongruent | nanovdb/nanovdb/GridHandle.h:791-794 | Index and count of merged grids are congruent to their true numbers modulo 2^32. |
| GridHandles.MergeGrids | nanovdb/nanovdb/GridHandle.h:785-813 | The result holds all grids of all handles in order, stamped with their positions and the count, both wrapped at 32 bits, and describes as many of them as that count says; it fails if and only if the wrapped count is zero, or some header contradicts the metadata, or one of the described grids is invalid. |
| GridHandles.RestampedChain | nanovdb/nanovdb/GridHandle.h:803-812 | Grids of the right sizes, restamped with positions and number, form a chain that the parser accepts if and only if their headers are otherwise valid. |
| GridHandles.NoOtherChain | nanovdb/nanovdb/GridHandle.h:126-142 | Bytes laid out this way cannot be read as any other chain. |
| GridHandles.HandleHolds | nanovdb/nanovdb/GridHandle.h:581-586 | A parsed handle's metadata locates each of its grids in its buffer. |
| GridStreams.Write | nanovdb/nanovdb/GridHandle.h:464-475 | Appends exactly the bytes of grid n, or throws and writes nothing if there is no such grid. |
| GridStreams.WriteAll | nanovdb/nanovdb/GridHandle.h:477-484 | Appends all grids back to back without the padding. |
| GridStreams.ReadNth | nanovdb/nanovdb/GridHandle.h:684-706 | From any bytes: follows the sizes in the headers to the first that has index n, and reads that grid alone, stamped 0 of 1, leaving the stream right behind it; rewinds and throws if the first header is not valid; throws and stays behind the first header if its count is not above n. |
| GridStreams.ChainHasNth | nanovdb/nanovdb/GridHandle.h:684-706 | If the stream holds a chain there, the grid found is grid n. |
| GridStreams.ReadAll | nanovdb/nanovdb/GridHandle.h:659-682 | From any bytes: reads everything up to the end of the first grid that says it is the last, and nothing behind it, wherever in the stream it starts, and parses that as a chain; rewinds and throws if the first header is not valid. |
| GridStreams.ChainHasLast | nanovdb/nanovdb/GridHandle.h:659-682 | If the stream holds a chain there, what is read is the whole chain. |
| GridStreams.WriteThenReadNth | nanovdb/nanovdb/GridHandle.h:684-706 | Reading grid n of a written handle equals the n-th handle of splitGrids, and fails exactly for n beyond the grids. |
| GridStreams.WriteThenReadAll | nanovdb/nanovdb/GridHandle.h:659-682 | Reading a written handle back gives the same metadata and grids, and the same handle if and only if it had no padding. |
| NanoFormats.UpdateGridCount | nanovdb/nanovdb/tools/GridChecksum.h:403-415 | In place, inside a larger buffer: only the grid's own index, count and head checksum bytes change, to the specified ones. |
| NanoFormats.NanoFormatIsLawful | nanovdb/nanovdb/NanoVDB.h:2030-2042 | NanoVDB's header and stamp satisfy what split, merge, write and read are proved for: only index and count change, and validity does not depend on their values. |
| NanoFormats.MembersAreFit | nanovdb/nanovdb/GridHandle.h:115-144 | Every grid of a parsed chain survives restamping, so splitting and merging parsed handles cannot fail. |
| GridRoundTrips.MergeAndSplit | nanovdb/nanovdb/GridHandle.h:748-813 | For any regular header format: merging handles of any numbers of grids and splitting the result succeeds if and only if the wrapped count is positive, and gives one handle for each described grid, in order, stamped twice. |
| NanoFormats.StampTwice | nanovdb/nanovdb/tools/GridChecksum.h:403-415 | A grid that is stamped as grid i of n on the way is split off as the same bytes with index 0 and count 1, up to the head checksum; it is what splitting it off directly gives under an exact condition on its checksums. |
| NanoFormats.MergeThenSplit | nanovdb/nanovdb/GridHandle.h:748-813 | Merging any number of parsed handles of any numbers of grids, empty ones included, and splitting the result returns all their grids in order, byte for byte up to the head checksum, and says exactly when that survives. |
| NanoFormats.SplitThenMerge | nanovdb/nanovdb/GridHandle.h:748-813 | Splitting a parsed handle and merging the parts always succeeds and returns the same metadata and the same grids with their original index and count, up to the head checksum and the padding. |
| GridRoundTrips.SplitAndMerge | nanovdb/nanovdb/GridHandle.h:748-813 | For any regular header format: splitting a parsed handle and merging the parts succeeds, with the same metadata and every grid stamped twice. |
| GridRoundTrips.MergedLayout | nanovdb/nanovdb/GridHandle.h:785-813 | The metadata of a merge is the concatenation of the metadata of any number of inputs, each rebased behind the grids of those before it, as far as the count goes. |
| GridRoundTrips.MergeParsed | nanovdb/nanovdb/GridHandle.h:785-813 | Merging parsed handles fails only if the wrapped count is zero, and the result has that metadata. |
| NanoFormats.NanoFormatIsRegular | nanovdb/nanovdb/GridHandle.h:115-144 | NanoVDB's headers are a regular format: every grid of a chain stays valid when it is stamped. |
| GridLayouts.ValidateGridLayout | nanovdb/nanovdb/GridHandle.h:85-106 | Accepts if and only if the grids lie back to back from zero, aligned, at least a header each, inside the buffer and of known type; no grids only over an empty buffer. |
| GridLayouts.AdoptedHolds | nanovdb/nanovdb/GridHandle.h:185-201 | An accepted layout locates every grid in the buffer without any header being read. |
| GridLayouts.Adopt | nanovdb/nanovdb/GridHandle.h:197-201 | adopt succeeds if and only if the layout check accepts, and then describes the buffer by exactly the given metadata. |
| GridLayouts.ParsedIsLayout | nanovdb/nanovdb/GridHandle.h:108-114 | Parsed metadata passes the layout check if and only if all offsets are aligned and all types known. |
| GridSamples.OddChainIsNoLayout | nanovdb/nanovdb/GridHandle.h:108-114 | A parsed chain of two grids, the first of 737 bytes, that the layout check rejects. |
| GridLayouts.SizesAddUp | nanovdb/nanovdb/GridHandle.h:418-445 | totalGridSize never exceeds the buffer, isPadded is the opposite of isFull for a handle with grids, and a full buffer is exactly its grids. |
| GridLayouts.TotalGridSize | nanovdb/nanovdb/GridHandle.h:430-437 | The loop computes the sum of all grid sizes. |
| GridLayouts.Copy | nanovdb/nanovdb/GridHandle.h:609-621 | A parsed handle is copied exactly; the copy of any other is parsed again. |
| Masks.RankOfPart | nanovdb/nanovdb/NanoVDB.h:1088-1095 | The rank of a bit is the rank of its word plus the set bits below it in the word. |
| Masks.Mask.FindFirst | nanovdb/nanovdb/NanoVDB.h:1367-1374 | The least matching bit, or SIZE if and only if none matches. |
| Masks.Mask.FindNext | nanovdb/nanovdb/NanoVDB.h:1377-1388 | The least matching bit from the start on, SIZE if there is none or the start is beyond the mask. |
| Masks.Mask.FindPrev | nanovdb/nanovdb/NanoVDB.h:1391-1402 | The greatest matching bit up to the start, SIZE if there is none or the start is beyond the mask. |
| Masks.Mask.CountAll | nanovdb/nanovdb/NanoVDB.h:1080-1086 | The number of set bits. |
| Masks.Mask.CountBelowBit | nanovdb/nanovdb/NanoVDB.h:1089-1095 | The number of set bits below a position: its rank. |
| Masks.Mask.SetBit | nanovdb/nanovdb/NanoVDB.h:1294-1302 | The branchless form sets that bit and leaves every other one. |
| Masks.Mask.VisitAll | nanovdb/nanovdb/NanoVDB.h:1097-1130 | An On or Off iterator visits exactly the matching bits, once each, in increasing order, and ends; the On iterator makes countOn() visits. |
| LeafIndexes.LeafData.GetValue | nanovdb/nanovdb/NanoVDB.h:4240-4249 | With a well-formed packed prefix sum the value is mOffset plus the rank of the voxel, modulo 2^64, and zero for an inactive voxel. |
| LeafIndexes.ValueCountIsPopulation | nanovdb/nanovdb/NanoVDB.h:4231-4234 | The last word's count plus the last field is the number of active voxels. |
| LeafIndexes.IndexIsMonotone | nanovdb/nanovdb/NanoVDB.h:4240-4249 | Active voxels map into [mOffset, mOffset + valueCount) in order. |
| LeafIndexes.IndexIsOnto | nanovdb/nanovdb/NanoVDB.h:4240-4249 | Every index of that range belongs to an active voxel, which completes the bijection. |
| LeafIndexes.FieldIsShiftAndMask | nanovdb/nanovdb/NanoVDB.h:4247 | Shift and mask extract the 9-bit field as a number. |
| LeafIndexes.PackPrefixSum | nanovdb/nanovdb/tools/CreateNanoGrid.h:1288-1293 | The packing loop produces a well-formed prefix sum for every mask: no sum overflows into the next field. |
| BitScans.AndWithNegative | nanovdb/nanovdb/util/Util.h:594 | For any integer with a set bit, `v & -v` is exactly its lowest set bit. |
| BitScans.Table64 | nanovdb/nanovdb/util/Util.h:618-630 | Multiplying a power of two by the 64-bit de Bruijn constant and looking up the top six bits gives back the exponent, for all 64 powers. |
| BitScans.TableHighest32 | nanovdb/nanovdb/util/Util.h:657-665 | The 32-bit table for words whose bits are all set up to some bit gives that bit, for all 32 of them. |
| BitScans.FindLowestOn64 | nanovdb/nanovdb/util/Util.h:606-636 | The software form returns the index of the least significant set bit of every nonzero 64-bit word. |
| BitScans.FindLowestOn32 | nanovdb/nanovdb/util/Util.h:574-600 | The same for 32-bit words, with its own constant and table. |
| BitScans.Smear | nanovdb/nanovdb/util/Util.h:660-664 | Each or-shift doubles the run of set bits below the highest one and sets none above it. |
| BitScans.FindHighestOn32 | nanovdb/nanovdb/util/Util.h:644-667 | The software form returns the index of the most significant set bit of every nonzero 32-bit word. |
| BitScans.FindHighestOn64 | nanovdb/nanovdb/util/Util.h:673-688 | Scanning the upper half if it is nonzero and else the lower one finds the most significant set bit of the 64-bit word. |
| PopCount.AddBits | nanovdb/nanovdb/PNanoVDB.h:678 | One subtraction replaces all pairs of bits by their sums. |
| PopCount.AddPairs | nanovdb/nanovdb/PNanoVDB.h:679 | Adjacent 2-bit sums are added without a carry between nibbles. |
| PopCount.AddNibbles | nanovdb/nanovdb/PNanoVDB.h:680 | Adjacent nibbles are added and no carry crosses a byte. |
| PopCount.AddBytes | nanovdb/nanovdb/PNanoVDB.h:681 | The top byte of the wrapped product is the sum of all bytes. |
| PopCount.Countbits32 | nanovdb/nanovdb/PNanoVDB.h:670-688 | The branch-free count is the number of set bits for all 32-bit words. |
| PopCount.CountOn64 | nanovdb/nanovdb/util/Util.h:690-712 | The 64-bit form is the number of set bits for all words. |
| WordPairs.OffsetIsSum | nanovdb/nanovdb/PNanoVDB.h:696-706 | Two-word addition with its carry test is addition modulo 2^64. |
| WordPairs.DiffIsDifference | nanovdb/nanovdb/PNanoVDB.h:708-719 | Two-word subtraction with its borrow test is subtraction modulo 2^64. |
| WordPairs.DecIsPredecessor | nanovdb/nanovdb/PNanoVDB.h:721-731 | Two-word decrement is the predecessor modulo 2^64. |
| WordPairs.AndPairIsAnd | nanovdb/nanovdb/PNanoVDB.h:749-755 | Wordwise conjunction is the 64-bit conjunction. |
| WordPairs.BitMaskIsUnit | nanovdb/nanovdb/PNanoVDB.h:742-747 | The two-word mask is one shifted by the bit index. |
| WordPairs.LsrIsShift | nanovdb/nanovdb/PNanoVDB.h:733-740 | For every shift below 64, zero and the word boundary included, the low word of the 64-bit shift. |
| WordPairs.Countbits64 | nanovdb/nanovdb/PNanoVDB.h:690-693 | The two counts add up to that of the 64-bit value. |
| WordPairs.LeafOnIndexGetValueIndex | nanovdb/nanovdb/PNanoVDB.h:2236-2259 | The 32-bit code computes the same value index as LeafData<ValueOnIndex>::getValue, for every leaf and voxel. |
| LeafBoxes.FoldWords | nanovdb/nanovdb/NanoVDB.h:4702-4711 | The loop finds the union of the words, and the first and last nonzero word. |
| LeafBoxes.FoldToByte | nanovdb/nanovdb/NanoVDB.h:4715-4717 | Three foldings leave exactly the bit positions modulo 8. |
| LeafBoxes.TightX | nanovdb/nanovdb/NanoVDB.h:4713 | First and last nonzero word are the tight bounds in x. |
| LeafBoxes.TightY | nanovdb/nanovdb/NanoVDB.h:4714 | Lowest and highest bit of the union, divided by 8, are the tight bounds in y. |
| LeafBoxes.TightZ | nanovdb/nanovdb/NanoVDB.h:4715-4719 | Lowest and highest bit of the folded byte are the tight bounds in z. |
| LeafBoxes.LeafNode.UpdateBBox | nanovdb/nanovdb/NanoVDB.h:4689-4722 | False if and only if the mask is empty; otherwise every active voxel is inside the box, each of the six faces touches one, the node origin is unchanged; bit 1 of the flags says which, and the other bits stay. |
| Hdda.AlignRoundsDown | nanovdb/nanovdb/PNanoVDB.h:3327-3334 | Masking with ~(dim - 1) rounds any integer down to a multiple of the power of two. |
| Hdda.ClampedIsNested | nanovdb/nanovdb/PNanoVDB.h:3424-3452 | For any position of the ray the clamped block is aligned, inside the old block when dim shrinks and around it when dim grows. |
| Hdda.ClampedIsNearest | nanovdb/nanovdb/PNanoVDB.h:3424-3452 | When dim shrinks, the block that contains the position of the ray, or the one at the end of the old block on its side. |
| Hdda.ClampedContains | nanovdb/nanovdb/PNanoVDB.h:3438-3452 | In exact arithmetic: if the old block contains the ray's position, so does the new one, also when the position is exactly on a face. |
| Hdda.MovedNext | nanovdb/nanovdb/PNanoVDB.h:3454-3477 | In exact arithmetic: at any time, on the ray or not, next becomes the time of reaching the face ahead, and axes without motion keep theirs. |
| Hdda.InitAxisOk | nanovdb/nanovdb/PNanoVDB.h:3356-3374 | In exact arithmetic: after init the block contains the ray, and next is the time at which the ray meets the face ahead, for either sign of the direction. |
| Hdda.StepAxisOk | nanovdb/nanovdb/PNanoVDB.h:3485-3497 | In exact arithmetic: after a step the neighbouring block contains the ray at the new time, and next is again right. |
| Hdda.StepAdvances | nanovdb/nanovdb/PNanoVDB.h:3482-3525 | A step along an axis of least next moves the block by its own size along an axis on which the ray moves, unless all of these are further away than 10^38. |
| Hdda.StaysInside | nanovdb/nanovdb/PNanoVDB.h:3482-3525 | In exact arithmetic: until next the ray stays in the block, so a step along the axis of least next skips nothing. |
| Hdda.HddaState.constructor | nanovdb/nanovdb/PNanoVDB.h:3345-3415 | init establishes alignment, steps in the direction of the ray, next times of at least 10^38 for axes on which it does not move, and, in exact arithmetic, the ray invariant. |
| Hdda.HddaState.Update | nanovdb/nanovdb/PNanoVDB.h:3417-3480 | The new block is aligned and nested with the old one for any ray, and of the smaller blocks in the old one the nearest to the ray; the result says whether dim changed. In exact arithmetic every moving axis gets the time of reaching the face ahead, and the ray invariant is kept. |
| Hdda.HddaState.Step | nanovdb/nanovdb/PNanoVDB.h:3482-3525 | Moves by exactly one block, the way of the ray, along the last axis of least next and along no other, and that is one on which the ray moves as long as one of these has its next below 10^38; alignment stays. In exact arithmetic it keeps the ray invariant unless forced, a forced time is the old one plus a millionth of next + 1, and time advances if and only if next was ahead or exceeds -1; nothing is said about rounding. |
| Hdda.FirstStepBack | nanovdb/nanovdb/PNanoVDB.h:3485-3497 | A ray that starts on the face ahead of it at time -8, whose first step moves time back even in exact arithmetic. |
| Hdda.StaysUntil | nanovdb/nanovdb/PNanoVDB.h:3482-3525 | In exact arithmetic: a block that is on the ray contains it at every time up to the least next. |
| Hdda.Run | nanovdb/nanovdb/PNanoVDB.h:3345-3525 | Every run of updates and steps from init on keeps the block aligned, and each move goes on from the block and the time that the one before has led to. In exact arithmetic, as long as no step finds its next not ahead of its tmin, the run also keeps the block on the ray, and skips nothing: at every time from the first tmin to the last the ray is inside one of the visited blocks. |
| NodeManagers.DepthFirstByLevel | nanovdb/nanovdb/NodeManager.h:333-342 | The depth-first walk meets the nodes of each level in breadth-first order. |
| NodeManagers.BreadthFirstByLevels | nanovdb/nanovdb/NodeManager.h:272-275 | Breadth-first order with a queue is upper, then lower, then leaf nodes, each in walk order. |
| NodeManagers.InsertLowers | nanovdb/nanovdb/NodeManager.h:336-341 | The two inner loops append to the leaf and lower segments and touch nothing behind them. |
| NodeManagers.InsertLevels | nanovdb/nanovdb/NodeManager.h:330-342 | The three interleaved cursors fill each level's segment exactly, without overrun. |
| NodeManagers.CreateOffsets | nanovdb/nanovdb/NodeManager.h:315-346 | The array holds every node's offset once, level by level in breadth-first order, and its size is what memUsage promises. |
| NodeManagers.NodeManager.NodeAt | nanovdb/nanovdb/NodeManager.h:272-298 | node(i) is the i-th node of its level in breadth-first order in pointer mode and in linear mode alike. |
| MetaMaps.InsertIsUpdate | openvdb/openvdb/MetaMap.cc:111-136 | Insertion updates the map and keeps it sorted; it fails if and only if the name is empty or is bound to another type, and then with the matching error. |
| MetaMaps.LessIsTotal | openvdb/openvdb/MetaMap.cc:163-165 | The order in which entries are stored and compared is total and strict. |
| MetaMaps.MetaMap.InsertMeta | openvdb/openvdb/MetaMap.cc:111-136 | The in-place form computes that insertion and changes nothing when it throws. |
| MetaMaps.MetaMap.WriteMeta | openvdb/openvdb/MetaMap.cc:88-108 | Appends the count and then every entry in order: name, type name, size, value. |
| MetaMaps.MetaMap.ReadMeta | openvdb/openvdb/MetaMap.cc:51-85 | From any bytes: the map is replaced by the entries that they describe, inserted in order, and the stream stands behind them; it fails exactly if an insertion does or the bytes end. |
| MetaMaps.ReadEntry | openvdb/openvdb/MetaMap.cc:62-84 | From any bytes: a registered type is read as the class its factory builds, an unregistered one as raw bytes, a temporary unregistered one is read and dropped. |
| MetaMaps.TakeEncoded | openvdb/openvdb/MetaMap.cc:62-108 | Reading a written entry restores it if its size is that of the class it is read as; otherwise what is read has another size. |
| MetaMaps.ReadMetadata | openvdb/openvdb/Metadata.h:181-194 | From any bytes: the size is read, and then as many bytes as the class has if its size is fixed, and as many as were announced otherwise. |
| MetaMaps.MetaMap.Equals | openvdb/openvdb/MetaMap.cc:158-175 | The lockstep loop decides whether the maps have the same names with equal type names and bytes. |
| MetaMaps.SortedComeBack | openvdb/openvdb/MetaMap.cc:51-108 | Reading written entries that fit never replaces one by another and never throws. |
| MetaMaps.MisfitStays | openvdb/openvdb/MetaMap.cc:62-84 | An entry that was read with another size than it was written with stays in the map whatever bytes follow, as no insertion changes a type. |
| MetaMaps.MisfitsAreRead | openvdb/openvdb/Metadata.h:281-287 | If a written entry's registered class has another fixed size, no map that is read compares equal, although the reading goes on out of step. |
| MetaMaps.EqualIffAllSurvive | openvdb/openvdb/Metadata.cc:97-112 | Under any registry with one class for each type name, the map that is read equals the written one if and only if each type is registered under its own name with the size of the value, or is unregistered and not temporary. |
| MetaMaps.WrittenComesBack | openvdb/openvdb/MetaMap.cc:69-84 | Under any registry, if all sizes fit: an entry of an unregistered type comes back with its name, type name and bytes exactly if the type name does not start with two underscores, and one of a registered type exactly if the factory builds that type. |
| MetaMaps.KindsComeBack | openvdb/openvdb/MetaMap.cc:69-84 | Under a registry whose factories build what they are named for, registered types come back typed and others as raw bytes. |
| MetaMaps.AliasBreaksRoundTrip | openvdb/openvdb/openvdb.cc:88-90 | A concrete alias registration under which the map that comes back differs from the written one. |
| MetaMaps.MisfitBreaksRoundTrip | openvdb/openvdb/Metadata.h:281-287 | Three raw bytes of type int32, written before that type was registered: the map that is read differs. |
| MetaMaps.WriteThenRead | openvdb/openvdb/MetaMap.cc:51-108 | The whole round trip through a stream compares equal if and only if all entries survive; if they all fit the restored map is known entry by entry, and holds those of unregistered types exactly if the type name does not start with two underscores. |
| InitProtocol.BodyStep | openvdb/openvdb/openvdb.cc:66-144 | Each operation of either body leaves the registries as the next one needs them, and the last one leaves them complete or empty with the flag to match. |
| InitProtocol.InvStep | openvdb/openvdb/openvdb.cc:66-144 | Every step of every thread keeps the invariant of flag, lock and registries. |
| InitProtocol.FlagMeansPopulated | openvdb/openvdb/openvdb.cc:66-114 | In every interleaving of any number of threads: if the flag is true everything is registered, nothing is ever registered twice without a clear, and at most one thread is inside the lock. |
| InitProtocol.CallsTakeEffect | openvdb/openvdb/openvdb.cc:66-144 | In every interleaving, when a call of initialize returns, by the fast or the slow way, the flag is set and everything is registered; when one of uninitialize returns nothing is. |
| InitProtocol.CallsEnd | openvdb/openvdb/openvdb.cc:66-144 | Every step of a call brings it closer to its return, after at most 17 steps; with the flag set initialize returns at once, without the lock. |
| InitProtocol.SomeoneCanGo | openvdb/openvdb/openvdb.cc:66-144 | No deadlock: in every reachable state each thread can take a step, or waits for a lock whose holder can. |
| InitProtocol.RegistrationsSucceed | openvdb/openvdb/Metadata.cc:45-57 | No registration ever meets an item that is already there, so none of them throws. |
| InitProtocol.QuietMeansSettled | openvdb/openvdb/openvdb.cc:116-144 | Whenever nobody is inside the lock the registries are complete or empty, and the flag says which. |

## Left out

- ReadAccessors.ReadAccessor.GetDim: the ray argument is dropped, because no node method looks at it.
- ReadAccessors.RunTrace: the NANOVDB_USE_SINGLE_ACCESSOR_KEY and NANOVDB_USE_OLD_ACCESSOR variants of NanoVDB.h, GetNodeInfo and the operations on statistics are not among its calls; the single-key protocol itself is proved for level-0 operations in `SingleKeyAccessors`.
- SingleKeyAccessors.SingleKeyAccessor.Lookup: addresses are slots of the tree instead of byte offsets; the byte layouts of the grid types are not modelled.
- VdbTree.GetFromPath: nodes are values in sequences, not structures inside one byte buffer; quantized, boolean, mask and point leaves are not distinguished from plain value leaves.
- VdbDims.DimAndActiveFromPath: the packing of the pair into 32 bits is not modelled.
- HostBuffers.Runtime.PoolAdd: runs alone; concurrent calls, which compute the aligned address before they take the lock, and addresses that wrap at 64 bits are not modelled.
- HostBuffers.Runtime.MoveAssign: buffers and pools are numbered objects in two maps, so C++ object identity and shared_ptr counts appear as names. A pool is destroyed the moment its last reference goes; what the code does with the freed pool afterwards, inside `reset`, is not modelled.
- HostBufferRuns.RunCommands: the four kinds of calls that are proved to break a register or the destructor's assertion are not made in a run; users' writes into their buffers are not a call, since no operation looks at the bytes.
- GridHandles.MergeGrids: allocation from a pool, device handles, an empty result's null buffer, and the assertion of debug builds that an index is below the count, which a wrapped count fails, are not modelled.
- GridHandles.SplitGrids: buffers are sequences of bytes; only `NanoFormats.UpdateGridCount` works in place on an array.
- GridHeaders.StampedBack: the CRC is an arbitrary function of the bytes after the checksum, so grids too short to hold the tree data that the head checksum covers are treated as if the CRC stopped at their end.
- GridStreams.ReadNth: any bytes are covered on which the search for the header ends inside the stream and finds a grid that is there and no smaller than its header; where the headers lead out of the stream or in a circle, the source reads past the end or does not terminate, which is not modelled. Reading by grid name, whose loop reads one header past the chain, is left out.
- GridStreams.ReadAll: the same, for the search for the last header.
- BitScans.FindLowestOn64: the variants with compiler intrinsics are left out, as they are for the bit counts.
- LeafIndexes.IndexIsMonotone: stated for leaves whose range of indices does not pass 2^64; statistics behind the values and the dense ValueIndex leaf are left out.
- Hdda.HddaState.Step: positions and times are exact reals with PNANOVDB_ENFORCE_FORWARD_STEPPING on; rounding, infinities and the wrap-around of int32 voxels are left out, as are ray clipping and zero crossings.
- NodeManagers.CreateOffsets: node counts in the tree are assumed right; alignment of the buffer and device memory are left out.
- MetaMaps.MetaMap.ReadMeta: where the bytes end too early the model stops, while the source goes on with whatever its failed reads leave behind; null metadata pointers and the size assertion of debug builds are left out; values are raw bytes, so the codecs of the single value types are the identity.
- MetaMaps.EqualIffAllSurvive: two registered classes of one type name and different sizes are left out, as a class names its type by its C++ type.
- InitProtocol.FlagMeansPopulated: memory is sequentially consistent, bodies do not throw, and logging and Blosc set-up are left out; registrations of one kind are one item.
- PNanoVDB point index reads, whose 16-bit read does not mask, are not claimed about.
- CUDA and other device paths, buffer traits, template dispatch, file input and output, compression, quantization, transforms and statistics are not modelled.
- Enumeration tables, version numbers and names of grid classes are not modelled beyond the fields that isValid reads.
- OpenVDB's own trees, grids and tools are not part of this model.
