# Voxel engine core, modelled in Dafny

This project models the sequential logic at the centre of the Voxel-Game-Engine's `EngineCore`. The main part is the voxel world:

- the chunk store of `VoxelSystem`: world/chunk/local coordinates, voxel reads and writes, and dirty marking of the owning chunk and its neighbours;
- the streaming pass that loads a box of chunks around the player and unloads distant ones;
- the flat column generator and the biome column generator;
- the greedy chunk mesher of `MeshingSystem`: slice sweeps, the signed face mask, the rectangle merge, and `EmitQuad`.

Around it sit:

- the GPU sub-allocation bookkeeping: the first-fit free list and the `VoxelMesh` slot lifecycle;
- the ECS system registry;
- the fixed-point vertex packing;
- the pure decision rules inside the Vulkan helpers: device rating and selection, queue-family scan, swapchain choices, memory-type search, and the image-layout table and texture-array checks.

Everything is a pure function over immutable datatypes. The world, the allocators and the ECS registry are records advanced by transition functions. Where the C++ exits, throws or fails an `assert`, the model returns a `Failure` of `Result`. Integer widths are explicit:

- `U32` is the `uint32_t` range, `AddU32` wraps, and `U32Max` is the `UINT32_MAX` sentinel.
- `Int32` is `int`, and `IntToU32` is the wrapping conversion to unsigned.
- Bit masks are `bv32`.

Floats are modelled as `real`. The results of Vulkan queries, file loads, noise and random heights are parameters.

Modules and files:

| module | file | models |
|---|---|---|
| Base | base.dfy | Option/Result, uint32 arithmetic, integer vectors, truncating division |
| Components | components.dfy | chunk state, chunk record defaults, world defaults, block ids, Index3D, IVec3Hash |
| VertexData | vertex_data.dfy | packUVs, packPosition |
| ChunkStore | chunk_store.dfy | voxelSystem.cpp except the streaming pass |
| Streaming | streaming.dfy | VoxelSystem::Update and UnloadDistantChunks |
| BiomeGen | biome_gen.dfy | defaultGen.hpp |
| GreedyMerge | greedy_merge.dfy | the rectangle merge of CreateMesh |
| Mesher | mesher.dfy | the rest of meshingSystem.cpp |
| Allocator | allocator.dfy | FreeListAllocator |
| VoxelMesh | voxel_mesh.dfy | VoxelMesh::Init / Cleanup bookkeeping |
| Ecs | ecs.dfy | SystemManager |
| Device | device.dfy | vulkanDevice.cpp selection logic |
| Swapchain | swapchain.dfy | vulkanSwapchain.cpp choices |
| BufferUtils | buffer_utils.dfy | findMemoryType, destroyBuffer |
| Images | images.dfy | transitionImageLayout, createTextureArrayImage checks |

Facts about the code that shape the model:

- `Update` streams one box of radius `max(simulationRadius, renderRadius)` around the player's chunk, and every chunk gets LOD 0.
- A chunk is unloaded only when it is more than `r + 1` chunks away on some axis.
- Mesh indices are `uint16_t` and wrap past 65535 vertices (`Mesher.EmitQuadIndicesWrap`).
- `VoxelSystem::GenerateVoxelData` is pure virtual, so `CreateChunk` reaches the concrete system's override. The model passes the generator to `ChunkStore.CreateChunk` as a function: `ChunkStore.FlatGenerator` is the base body of `voxelSystem.cpp`, and `Streaming.BiomeGenerator` is the override of `DefaultVoxelSystem`.
- The biome map is a `std::unordered_map`, whose iteration order depends on the hash and the bucket layout. `BiomeGen.ChooseBiome` takes that order as an input listing every name once.
- Some headers are stale and are not modelled:
  - `voxelSystem.hpp:32` declares `CreateChunk(coord, lod)`, but the body takes only the coordinate.
  - `vulkanDevice.hpp` declares a `QueueFamilyIndices` without `presentFamily`. The `.cpp` reads that field, so the model has both families and `IsComplete` requires both.
- The CreateMesh code constructs a `Mesh`, not a `VoxelMesh`. The model keeps only the geometry.

`assert`s are modelled as checks that fail. A release build (`NDEBUG`) drops them.

## Model

| member | source | states |
|---|---|---|
| Components.DefaultChunk | EngineCore/Include/Voxels/components.hpp:45-58 | a default chunk has no voxels, state Clean, LOD 0 and gpuIndex UINT32_MAX |
| Components.ChunkWithIndex | EngineCore/Include/Voxels/components.hpp:60-63 | the index constructor sets gpuIndex to the given index; the chunk has no voxels, is Clean, has LOD 0 and sits at its position |
| Components.DefaultWorldSettings | EngineCore/Include/Voxels/components.hpp:66-71 | water level 48, minimum terrain height 32, maximum 64, with min < water < max |
| Components.GetBlockId | EngineCore/Include/Voxels/components.hpp:73-80 | the result is UINT32_MAX exactly when the name is unregistered; otherwise it is the index of the block carrying that name |
| Components.IVec3Hash | EngineCore/Include/Voxels/components.hpp:17-26 | the hash's low bit is the low bit of x's hash (h(y) and h(z) are shifted past it) |
| Components.IVec3HashCollides | EngineCore/Include/Voxels/components.hpp:17-26 | with the identity hash of `int` (libstdc++, libc++) the hash is not injective: (2,0,0) and (0,1,0) hash equally |
| Components.Index3DInRange | EngineCore/src/Voxels/meshingSystem.cpp:72-75 | Index3D of an in-chunk coordinate lies in [0, W·H·L) |
| Components.Index3DDecode | EngineCore/src/Voxels/meshingSystem.cpp:72-75 | x, z and y are recovered from the index by %, / and / |
| Components.Index3DInjective | EngineCore/src/Voxels/meshingSystem.cpp:72-75 | distinct in-chunk coordinates have distinct indices |
| Components.Index3DEncode | EngineCore/src/Voxels/meshingSystem.cpp:72-75 | every index below the volume is the Index3D of an in-chunk coordinate |
| VertexData.ClampUv | EngineCore/Include/Vulkan/vertexData.hpp:62-63 | the clamp lands in [0, 15.9375] and leaves in-range values alone |
| VertexData.UvField | EngineCore/Include/Vulkan/vertexData.hpp:62-63 | each scaled field lies in 0..255; values at or below 0 give 0, values at or above 15.9375 give 255 |
| VertexData.PackUvs | EngineCore/Include/Vulkan/vertexData.hpp:60-65 | the packed value is below 65536, its low byte is the u field and its high byte the v field |
| VertexData.PackUvsRoundTrip | EngineCore/Include/Vulkan/vertexData.hpp:60-65 | every pair of UVs on the 1/16 grid in range is recovered exactly from the packed value |
| VertexData.PackPosition | EngineCore/Include/Vulkan/vertexData.hpp:56-72 | the result fits int16 and is value·16 truncated toward zero |
| VertexData.PackPositionRoundTrip | EngineCore/Include/Vulkan/vertexData.hpp:56-72 | every 12.4 fixed-point value k/16 packs back to k |
| ChunkStore.FloorDivOfInt | EngineCore/src/Voxels/voxelSystem.cpp:116-122 | floor(a / d) on an integral coordinate is Euclidean division, so WorldToChunk is floor division |
| ChunkStore.NormalizedRemainder | EngineCore/src/Voxels/voxelSystem.cpp:124-130 | the truncating remainder plus dim when negative is the Euclidean remainder |
| ChunkStore.LocalDecomposition | EngineCore/src/Voxels/voxelSystem.cpp:116-130 | the normalised local coordinate lies inside the chunk, and chunk·dim + local = p on every axis |
| ChunkStore.LocalCoordInjective | EngineCore/src/Voxels/voxelSystem.cpp:116-130 | two voxels with the same chunk and the same local coordinate are equal |
| ChunkStore.VoxelIndex | EngineCore/src/Voxels/voxelSystem.cpp:86-89 | the buffer index of a voxel (normalised local coordinate) is below the chunk volume |
| ChunkStore.VoxelIndexInjective | EngineCore/src/Voxels/voxelSystem.cpp:86-89 | distinct voxels of one chunk occupy distinct buffer cells |
| ChunkStore.VoxelIndexAsWrittenNonNegative | EngineCore/src/Voxels/voxelSystem.cpp:141-149 | for non-negative coordinates the raw truncated index equals the normalised one |
| ChunkStore.GetVoxel | EngineCore/src/Voxels/voxelSystem.cpp:132-152 | an unloaded chunk reads as the shared air voxel; a loaded one reads the buffer cell of the normalised local coordinate |
| ChunkStore.GetVoxelAsWritten | EngineCore/src/Voxels/voxelSystem.cpp:138-152 | the read as written is out of bounds exactly when the chunk is loaded and the raw index falls outside the buffer |
| ChunkStore.GetVoxelNegativeCoordinates | EngineCore/src/Voxels/voxelSystem.cpp:141-149 | with 31-voxel chunks, (-1,0,1) reads index 30 (voxel (-1,0,0)) instead of 61, and (-1,0,0) reads index -1 |
| ChunkStore.GetVoxelAsWrittenAgrees | EngineCore/src/Voxels/voxelSystem.cpp:138-152 | for non-negative coordinates the read as written equals the corrected read |
| ChunkStore.MarkChunkDirty | EngineCore/src/Voxels/voxelSystem.cpp:165-172 | an absent coordinate changes nothing; a present one becomes NeedsMeshing and no other chunk changes |
| ChunkStore.MarkChunkDirtyIdempotent | EngineCore/src/Voxels/voxelSystem.cpp:165-172 | marking twice is marking once |
| ChunkStore.MarkAxis | EngineCore/src/Voxels/voxelSystem.cpp:200-219 | one axis step marks at most the neighbour chunk that step away and keeps the key set |
| ChunkStore.MarkNeighborChunksDirty | EngineCore/src/Voxels/voxelSystem.cpp:193-220 | keys are kept and every chunk is either unchanged or flagged |
| ChunkStore.MarkNeighborChunksDirtyEffect | EngineCore/src/Voxels/voxelSystem.cpp:193-220 | exactly the loaded neighbour targets are flagged; every other chunk is untouched |
| ChunkStore.NeighbourTargetsIffBorder | EngineCore/src/Voxels/voxelSystem.cpp:174-220 | some neighbour is targeted iff IsBorderVoxel holds; at most three are; each is one step away on one axis, -1 at local 0 and otherwise +1 at dim-1 |
| ChunkStore.DirtiedStillValid | EngineCore/src/Voxels/voxelSystem.cpp:165-220 | flagging chunks for re-meshing keeps the world well formed |
| ChunkStore.WriteVoxel | EngineCore/src/Voxels/voxelSystem.cpp:154-160 | the write changes only the owning chunk's buffer, at the voxel's own index |
| ChunkStore.SetVoxel | EngineCore/src/Voxels/voxelSystem.cpp:154-163 | SetVoxel keeps the world valid and its key set |
| ChunkStore.SetVoxelThenGetVoxel | EngineCore/src/Voxels/voxelSystem.cpp:138-163 | read-your-write: p reads the written id when its chunk is loaded, and every other voxel reads as before |
| ChunkStore.SetVoxelKeepsWrite | EngineCore/src/Voxels/voxelSystem.cpp:154-163 | the dirty marking after the write leaves every buffer as the write left it |
| ChunkStore.SetVoxelDirtiesExactly | EngineCore/src/Voxels/voxelSystem.cpp:154-220 | afterwards a chunk is flagged iff it was already flagged, or it owns p, or it is a neighbour target of a border edit |
| ChunkStore.SetVoxelNeighbourExamples | EngineCore/src/Voxels/voxelSystem.cpp:161-162 | an interior edit dirties only its own chunk; an edit on the low x face dirties the chunk below in x |
| ChunkStore.SetVoxelAsWritten | EngineCore/src/Voxels/voxelSystem.cpp:132-157 | the write as written keeps the key set and dimensions (or is out of bounds) |
| ChunkStore.SetVoxelAsWrittenPoisonsAir | EngineCore/src/Voxels/voxelSystem.cpp:132-157 | a write into an unloaded chunk replaces the shared air voxel, so every unloaded position then reads the written id |
| ChunkStore.SetVoxelKeepsAir | EngineCore/src/Voxels/voxelSystem.cpp:154-163 | the corrected write leaves the air voxel and, for an unloaded chunk, every buffer unchanged |
| ChunkStore.FlatGenerate | EngineCore/src/Voxels/voxelSystem.cpp:91-114 | generation fails exactly when a block name some cell needs (Stone or Air) is unregistered; otherwise it yields W·H·L voxels |
| ChunkStore.FlatGenerateLayout | EngineCore/src/Voxels/voxelSystem.cpp:91-114 | buffer cell (x, H-1-y, z) is Stone iff y + H·chunkY is at most the column height, else Air |
| ChunkStore.FlatGeneratorFills | EngineCore/src/Voxels/voxelSystem.cpp:91-114 | the base generator fills W·H·L voxels and fails for a chunk exactly when a needed block name is unregistered |
| ChunkStore.CreateChunk | EngineCore/src/Voxels/voxelSystem.cpp:71-84 | fails iff the generator throws; either way the key set gains c, other chunks are unchanged, and chunk c is NeedsMeshing at position c with LOD 0, no GPU slot and no mesh; on success it holds the generated voxels |
| Streaming.Radius | EngineCore/src/Voxels/voxelSystem.cpp:13 | the radius is the larger of the simulation and render radii |
| Streaming.LoadOrderIsBox | EngineCore/src/Voxels/voxelSystem.cpp:15-23 | the three nested loops visit exactly the chunks within r of the player chunk on every axis |
| Streaming.LoadMissing | EngineCore/src/Voxels/voxelSystem.cpp:15-23 | for any generator that fills whole chunks, a completed load pass keeps the world valid and its settings |
| Streaming.LoadMissingEffect | EngineCore/src/Voxels/voxelSystem.cpp:15-23 | existing chunks are kept as they were, every visited coordinate becomes loaded, nothing else is added, and each new chunk holds its generator's voxels |
| Streaming.LoadMissingAborted | EngineCore/src/Voxels/voxelSystem.cpp:15-23 | a thrown generation is the generator's error for a visited missing chunk, which stays in the map flagged NeedsMeshing; chunks loaded before are kept |
| Streaming.UnloadDistantChunks | EngineCore/src/Voxels/voxelSystem.cpp:28-59 | exactly the chunks more than r+1 away on some axis are removed, the rest are unchanged, and exactly the removed chunks with a mesh are cleaned |
| Streaming.UnloadIdempotent | EngineCore/src/Voxels/voxelSystem.cpp:28-59 | unloading keeps the world valid, and a second pass removes and cleans nothing |
| Streaming.Update | EngineCore/src/Voxels/voxelSystem.cpp:10-26 | for any generator that fills whole chunks, a completed pass keeps the world valid and its settings |
| Streaming.UpdateCoversBox | EngineCore/src/Voxels/voxelSystem.cpp:10-26 | after the pass every chunk of the (2r+1)³ box around the player is loaded, every loaded chunk lies within r+1, kept chunks are unchanged, new chunks lie in the box and need meshing, and only unloaded chunks are cleaned |
| Streaming.UpdateWithoutBiomes | EngineCore/src/Voxels/voxelSystem.cpp:71-84 | with DefaultVoxelSystem's generator and no biome registered, a pass that finds the player's chunk missing throws "No biomes registered", leaving a new chunk in the map and the old chunks as they were |
| BiomeGen.AddBiome | EngineCore/Include/defaultGen.hpp:92-95 | the names gain the new name; an existing binding is kept, a new name is bound to the biome, other bindings are unchanged |
| BiomeGen.AddBiomeKeepsFirst | EngineCore/Include/defaultGen.hpp:92-95 | after adding a name twice the first biome stays bound to it |
| BiomeGen.AddBiomeOrder | EngineCore/Include/defaultGen.hpp:42 | registration fixes no position: any iteration order of the grown map, with the new name removed, is an iteration order of the old one |
| BiomeGen.BiomeDistanceZero | EngineCore/Include/defaultGen.hpp:97-107 | the distance is never negative and is zero exactly at the biome's own features |
| BiomeGen.ScanBest | EngineCore/Include/defaultGen.hpp:115-128 | the loop ends with a biome no farther than any other and strictly nearer than every earlier one |
| BiomeGen.ChooseBiome | EngineCore/Include/defaultGen.hpp:109-129 | an empty table fails; otherwise the result is a biome of minimal distance over all names, the earliest such in iteration order |
| BiomeGen.ChooseExactMatch | EngineCore/Include/defaultGen.hpp:109-129 | the biome earliest in iteration order at exactly the query's features is chosen |
| BiomeGen.ChooseUniqueNearest | EngineCore/Include/defaultGen.hpp:109-129 | a biome strictly nearer than every other is chosen in every iteration order |
| BiomeGen.ColumnLayerBands | EngineCore/Include/defaultGen.hpp:187-217 | air above terrain and water; water above terrain and below water; top when level with the water; then top, filler, stone, bottom by depth |
| BiomeGen.GenerateChunk | EngineCore/Include/defaultGen.hpp:166-221 | generation fails exactly when no biome is registered; otherwise it fills CHUNK_SIZE³ voxels |
| BiomeGen.GenerateChunkLayout | EngineCore/Include/defaultGen.hpp:166-221 | with chunk dims of CHUNK_SIZE on every side, voxel (x,y,z) is written at getIndex(x,y,z), without a Y flip, with the block of its column's biome and height |
| GreedyMerge.RunWidth | EngineCore/src/Voxels/meshingSystem.cpp:178-180 | the width run stops at the slice edge or the first differing cell |
| GreedyMerge.RunHeight | EngineCore/src/Voxels/meshingSystem.cpp:182-196 | the height run stops at the slice edge or the first row whose segment differs |
| GreedyMerge.ClearRect | EngineCore/src/Voxels/meshingSystem.cpp:198-200 | exactly the cells of the rectangle become 0 |
| GreedyMerge.MergeRectsInside | EngineCore/src/Voxels/meshingSystem.cpp:164-226 | every emitted rectangle is at least one cell and lies inside the slice |
| GreedyMerge.MergeClearsMask | EngineCore/src/Voxels/meshingSystem.cpp:164-226 | after the merge the mask is all zero |
| GreedyMerge.DistinctMergeIsUnitCells | EngineCore/src/Voxels/meshingSystem.cpp:164-226 | on a mask whose non-zero codes are pairwise distinct, the merge emits exactly one 1×1 rectangle per non-zero cell, in scan order |
| Mesher.IsSolid | EngineCore/src/Voxels/meshingSystem.cpp:77-85 | false outside the chunk; inside, the visibility of the voxel's block |
| Mesher.IsSolidAsWrittenAgrees | EngineCore/src/Voxels/meshingSystem.cpp:77-85 | when H = L the as-written read (row length H) equals the corrected one |
| Mesher.IsSolidAsWrittenOutOfBounds | EngineCore/src/Voxels/meshingSystem.cpp:83 | in a 1×2×1 chunk the as-written read of (0,1,0) indexes cell 2 of a two-cell buffer |
| Mesher.MaskCell | EngineCore/src/Voxels/meshingSystem.cpp:150-160 | 0 iff the layers agree in solidity; +(idx+1) for the solid layer-d voxel, -(idx+1) for the solid layer-(d+1) voxel |
| Mesher.BuildMask | EngineCore/src/Voxels/meshingSystem.cpp:136-162 | the mask has the slice's shape and each cell is MaskCell of its position |
| Mesher.MaskDistinct | EngineCore/src/Voxels/meshingSystem.cpp:157-159 | non-zero mask codes of one slice are pairwise distinct |
| Mesher.SliceQuadsAreFaces | EngineCore/src/Voxels/meshingSystem.cpp:164-226 | the quads of one sweep position are exactly the exposed faces of that slice, one unit quad per face |
| Mesher.MeshQuadsAreExposedFaces | EngineCore/src/Voxels/meshingSystem.cpp:130-226 | all quads of all three sweeps are exactly the chunk's exposed faces, in order |
| Mesher.SliceQuadsOnPlane | EngineCore/src/Voxels/meshingSystem.cpp:19-42 | a quad of sweep position d is a unit quad of its axis on plane d+1: front faces start at d+1, back faces at d and are shifted by one |
| Mesher.BoundaryFacesEmitted | EngineCore/src/Voxels/meshingSystem.cpp:134 | a solid voxel on either boundary layer gets its outward face, so out-of-grid neighbours count as empty |
| Mesher.QuadVertices | EngineCore/src/Voxels/meshingSystem.cpp:19-49 | four corners on the quad's plane (shifted by one for back faces) with UVs (0,0), (1,0), (1,1), (0,1), each corner at p + u·du + v·dv for its UV (u, v): p, p+du, p+du+dv, p+dv |
| Mesher.QuadCorner | EngineCore/src/Voxels/meshingSystem.cpp:9-49 | the corner of UV (u, v) lies on the quad's plane and u widths along the first in-plane axis and v heights along the second from the quad's origin |
| Mesher.BackFacesReverseWinding | EngineCore/src/Voxels/meshingSystem.cpp:51-69 | back-face triangles list the front-face corners in the opposite rotational order |
| Mesher.EmitQuad | EngineCore/src/Voxels/meshingSystem.cpp:3-70 | EmitQuad appends exactly QuadVertices(q) and the six QuadIndices of its start and face side, keeping the earlier ones; every new index is a uint16 value of start..start+3 |
| Mesher.QuadIndices | EngineCore/src/Voxels/meshingSystem.cpp:51-69 | index k is start plus entry k of the front pattern 0,1,2,2,3,0 or of the back pattern 0,2,1,0,3,2, stored as uint16 |
| Mesher.QuadIndicesReverseWinding | EngineCore/src/Voxels/meshingSystem.cpp:51-69 | each emitted back-face triangle is the front-face triangle on the same corners with its winding reversed |
| Mesher.EmitQuadIndicesExact | EngineCore/src/Voxels/meshingSystem.cpp:51-69 | below 65536 preceding vertices the new indices lie in [start, start+4) |
| Mesher.EmitQuadIndicesWrap | EngineCore/src/Voxels/meshingSystem.cpp:51-69 | a quad starting at vertex 65536 stores indices 0,1,2,2,3,0 |
| Mesher.CreateMesh | EngineCore/src/Voxels/meshingSystem.cpp:110-245 | the mesh has 4 vertices and 6 indices per exposed face, and is exactly the exposed faces (the reference face list) emitted in order |
| Mesher.MeshDirtyChunksEffect | EngineCore/src/Voxels/meshingSystem.cpp:92-108 | each NeedsMeshing chunk becomes Clean with the mesh of its own voxels and translation (x·W, -y·H, z·L); others are untouched; only replaced meshes are cleaned |
| Mesher.MeshDirtyChunksIdempotent | EngineCore/src/Voxels/meshingSystem.cpp:92-108 | the pass keeps the world valid, and a second pass changes and cleans nothing |
| Allocator.Init | EngineCore/src/Rendering/allocator.cpp:4-8 | init leaves one range of the total size; it is well formed iff the size is non-zero |
| Allocator.InitCovers | EngineCore/src/Rendering/allocator.cpp:4-8 | the free units after init are exactly [0, T) |
| Allocator.FirstFit | EngineCore/src/Rendering/allocator.cpp:12-29 | the result is the first range large enough, or none fits |
| Allocator.Allocate | EngineCore/src/Rendering/allocator.cpp:10-33 | when nothing fits the result is UINT32_MAX and the list is unchanged |
| Allocator.AllocateFirstFit | EngineCore/src/Rendering/allocator.cpp:12-29 | the offset is that of the first fitting range; that range shrinks from its front or is erased, the others are unchanged |
| Allocator.AllocateSentinel | EngineCore/src/Rendering/allocator.cpp:10-33 | on a valid list UINT32_MAX is returned exactly when no range fits |
| Allocator.AllocateTakes | EngineCore/src/Rendering/allocator.cpp:18-26 | a successful allocation removes exactly [offset, offset+size) from the free units and size from the total |
| Allocator.AllocateValid | EngineCore/src/Rendering/allocator.cpp:14-26 | allocation keeps a sorted, disjoint list of non-empty ranges |
| Allocator.InsertCovers | EngineCore/src/Rendering/allocator.cpp:37-44 | the sort step adds exactly the freed units and size |
| Allocator.InsertValid | EngineCore/src/Rendering/allocator.cpp:37-44 | inserting a non-empty range into a gap keeps the list sorted and disjoint |
| Allocator.Coalesce | EngineCore/src/Rendering/allocator.cpp:46-60 | after the merge loop no range ends where the next begins |
| Allocator.CoalesceCovers | EngineCore/src/Rendering/allocator.cpp:46-60 | merging loses and adds no unit and keeps the total |
| Allocator.CoalesceValid | EngineCore/src/Rendering/allocator.cpp:46-60 | merging keeps a valid list valid |
| Allocator.FreeCovers | EngineCore/src/Rendering/allocator.cpp:35-61 | free adds exactly the units [o, o+s) and s to the total |
| Allocator.FreeValid | EngineCore/src/Rendering/allocator.cpp:35-61 | freeing a non-empty region in a gap leaves a sorted, disjoint list with no adjacent ranges |
| Allocator.AllocateFreeRoundTrip | EngineCore/src/Rendering/allocator.cpp:10-61 | free(allocate(n), n) restores the free units and the total |
| VoxelMesh.Init | EngineCore/src/Rendering/voxelMesh.cpp:12-45 | on success the draw count rises by one, the record holds the counts and offsets, and the command holds indexCount, one instance, the offsets and gpuIndex |
| VoxelMesh.InitOutcome | EngineCore/src/Rendering/voxelMesh.cpp:21-32 | Init succeeds iff each of the three requests fits in some free range, fails on the vertex assert iff no vertex range fits, and on success each allocator is left as its allocation leaves it |
| VoxelMesh.Cleanup | EngineCore/src/Rendering/voxelMesh.cpp:47-83 | held regions are freed with their recorded size; offsets become the sentinel; counts of held regions become 0; the draw count drops exactly when an indirect slot was held |
| VoxelMesh.CleanupIdempotent | EngineCore/src/Rendering/voxelMesh.cpp:47-83 | a second Cleanup changes nothing |
| VoxelMesh.CleanupEmpties | EngineCore/src/Rendering/voxelMesh.cpp:47-83 | a consistent record ends holding no slot; an empty record is left as it was |
| VoxelMesh.InitCleanupRoundTrip | EngineCore/src/Rendering/voxelMesh.cpp:12-83 | Init then Cleanup restores the draw count and all three allocators' free units and totals |
| Ecs.And | EngineCore/Include/ECS/system.hpp:59 | bit i of the conjunction is set iff it is set in both signatures |
| Ecs.MatchesIsSubset | EngineCore/Include/ECS/system.hpp:59-69 | `(entity & system) == system` holds iff every component the system needs is present |
| Ecs.RegisterSystem | EngineCore/Include/ECS/system.hpp:19-29 | registering fails iff the type is registered; otherwise it adds it empty and changes nothing else |
| Ecs.SetSignature | EngineCore/Include/ECS/system.hpp:31-41 | fails iff the type is unregistered; otherwise it sets the signature, empties the entity set and changes nothing else |
| Ecs.RegisterThenSetSignature | EngineCore/Include/ECS/system.hpp:19-41 | a signature can be set only after registration, and registering twice fails |
| Ecs.EntityDestroyed | EngineCore/Include/ECS/system.hpp:43-51 | the entity leaves every system; other memberships and all signatures are unchanged |
| Ecs.EntitySignatureChanged | EngineCore/Include/ECS/system.hpp:53-70 | the entity belongs to a system iff the test matches; only its membership changes |
| Ecs.SignatureChangedMembership | EngineCore/Include/ECS/system.hpp:53-70 | afterwards the entity is in a system iff the system's signature is a subset of its own |
| Ecs.SignatureChangedIdempotent | EngineCore/Include/ECS/system.hpp:53-70 | a repeated signature changes nothing, and destroying afterwards undoes every change |
| Ecs.MembersMatchPreserved | EngineCore/Include/ECS/system.hpp:31-70 | "every member matches its system's signature" survives all three updates |
| Device.FindQueueFamilies | EngineCore/src/Vulkan/vulkanDevice.cpp:171-205 | each index found has its flag; the scan stops at the first complete index, each slot holding the last qualifying index; complete iff some family has graphics and some has present |
| Device.FindQueueFamiliesExample | EngineCore/src/Vulkan/vulkanDevice.cpp:171-205 | two concrete scans, showing a slot overwritten by a later qualifying family |
| Device.CheckExtensionSupport | EngineCore/src/Vulkan/vulkanDevice.cpp:153-169 | true iff every required extension is available |
| Device.RateDevice | EngineCore/src/Vulkan/vulkanDevice.cpp:117-151 | the score is 0 for an unusable device and 1000·[discrete] + maxImageDimension2D otherwise (while it fits int); a positive score means usable |
| Device.UsableMeans | EngineCore/src/Vulkan/vulkanDevice.cpp:124-150 | usable iff families are complete, extensions supported, formats and present modes non-empty, and anisotropy supported |
| Device.DiscretePreferred | EngineCore/src/Vulkan/vulkanDevice.cpp:128-131 | a discrete GPU scores 1000 more than an otherwise equal integrated one |
| Device.PickDeviceAsWritten | EngineCore/src/Vulkan/vulkanDevice.cpp:8-55 | no devices and no positive score fail; otherwise the first device with a positive score is chosen |
| Device.PickDevice | EngineCore/src/Vulkan/vulkanDevice.cpp:33-43 | the corrected loop picks the earliest device of maximal positive score, failing in the same cases |
| Device.PicksAgree | EngineCore/src/Vulkan/vulkanDevice.cpp:33-43 | both loops fail alike, and agree whenever at most one score is positive |
| Device.PickDeviceFirstPositiveCounterexample | EngineCore/src/Vulkan/vulkanDevice.cpp:33-43 | scores [1, 2000]: the loop as written picks device 0, the highest is device 1 |
| Device.PickPhysicalDevice | EngineCore/src/Vulkan/vulkanDevice.cpp:8-55 | fails iff there is no device or none rates above 0; the chosen device is usable and rated at least as high as every other |
| Device.PickPhysicalDeviceFails | EngineCore/src/Vulkan/vulkanDevice.cpp:45-52 | with devices present, selection fails iff every device rates 0 |
| Device.UniqueQueueFamilies | EngineCore/src/Vulkan/vulkanDevice.cpp:59-73 | one queue per distinct family: the set is {graphics, present}, of size 1 or 2; missing families fail |
| Swapchain.ChooseSurfaceFormat | EngineCore/src/Vulkan/vulkanSwapchain.cpp:162-173 | the sRGB BGRA format when offered, else the first format; always one offered |
| Swapchain.ChoosePresentMode | EngineCore/src/Vulkan/vulkanSwapchain.cpp:175-186 | Mailbox iff offered, otherwise FIFO whether offered or not |
| Swapchain.ChoosePresentModeOrderFree | EngineCore/src/Vulkan/vulkanSwapchain.cpp:175-186 | the choice depends only on which modes are offered |
| Swapchain.ChooseExtent | EngineCore/src/Vulkan/vulkanSwapchain.cpp:188-208 | currentExtent unless its width is UINT32_MAX; then each dimension is clamped into [min, max] and kept when already inside |
| Swapchain.NegativeWidthClampsHigh | EngineCore/src/Vulkan/vulkanSwapchain.cpp:196-205 | a negative framebuffer width wraps to a large unsigned value and clamps to the maximum width |
| Swapchain.ImageCount | EngineCore/src/Vulkan/vulkanSwapchain.cpp:18-23 | minImageCount+1, lowered to maxImageCount when that is non-zero |
| Swapchain.ImageCountWithinRange | EngineCore/src/Vulkan/vulkanSwapchain.cpp:18-23 | for a consistent surface the count is positive and within [min, max] |
| Swapchain.ChooseSharing | EngineCore/src/Vulkan/vulkanSwapchain.cpp:35-49 | concurrent with [graphics, present] iff the families differ, else exclusive with none; missing families fail |
| Swapchain.SharingMatchesQueues | EngineCore/src/Vulkan/vulkanSwapchain.cpp:35-49 | sharing is concurrent exactly when the logical device has queues in two families |
| BufferUtils.FindMemoryType | EngineCore/src/Rendering/Vulkan/vulkanBufferUtils.cpp:65-83 | the result is the smallest index with its filter bit set and all requested properties; the search fails iff there is none |
| BufferUtils.NoPropertiesNeedOnlyFilter | EngineCore/src/Rendering/Vulkan/vulkanBufferUtils.cpp:70-76 | with no requested properties only the filter bit matters |
| BufferUtils.DestroyBuffer | EngineCore/src/Rendering/Vulkan/vulkanBufferUtils.cpp:40-51 | a destroy call is made for each non-null handle and no other, the buffer before its memory |
| BufferUtils.DestroyNullIsNoop | EngineCore/src/Rendering/Vulkan/vulkanBufferUtils.cpp:40-51 | two null handles produce no call |
| Images.TransitionImageLayout | EngineCore/src/Vulkan/vulkanImages.cpp:224-295 | fails iff the pair is not in the table; covers mip 0 and layers [0, layers); depth (plus stencil) aspect iff the target is depth-stencil, else colour; access masks and stages per table row |
| Images.UploadTransitionsChain | EngineCore/src/Vulkan/vulkanImages.cpp:259-274 | the upload's two transitions chain: transfer writes, then fragment-shader reads |
| Images.TransitionTargets | EngineCore/src/Vulkan/vulkanImages.cpp:259-290 | a successful transition starts from Undefined or TransferDst and changes the layout |
| Images.LayerCheck | EngineCore/src/Vulkan/vulkanImages.cpp:46-71 | a layer passes iff it matches layer 0; a failure names the layer |
| Images.TextureArrayLayout | EngineCore/src/Vulkan/vulkanImages.cpp:7-87 | empty lists and a failed first load fail; success iff every layer matches; layerSize = w·h·4, total = layerSize·count, layer i at layerSize·i |
| Images.TextureLayersTile | EngineCore/src/Vulkan/vulkanImages.cpp:84-87 | the layers' byte ranges follow one another from 0 without gap or overlap and end at the total size |
| Images.SizeCheckBeforeLoadCheck | EngineCore/src/Vulkan/vulkanImages.cpp:46-71 | a failed load is reported as a size mismatch when its reported size differs |
| Images.CopyRegions | EngineCore/src/Vulkan/vulkanImages.cpp:102-117 | one region per layer, at the layer's offset, into that layer, with the full extent |

## Left out

- Vulkan object creation, command recording, uploads, descriptors and GPU synchronisation: these are foreign API calls. Query results are inputs and uploads are left out.
- The noise functions, `generateWorldFeatures` and `computeTerrainHeight`: the feature vector and the terrain height are inputs to `BiomeGen.GenerateChunk`.
- The `std::random_device` column heights of the flat generator: each column's height is a parameter.
- Float rounding: floats are reals.
- `hasStencilComponent`: its result is the `hasStencil` input of `Images.TransitionImageLayout`.
- `stbi_load` and the `memcpy` into the staging buffer: each layer's load report is an input, and only the offsets are modelled.
- The ECS entity/coordinator indirection: the chunk map sends a coordinate straight to the chunk entity. The system objects themselves are not kept, only their signatures and entity sets, keyed by type name.
- `ChunkState::Meshing`: it exists, but no shown code assigns it.
- `simulationRadius` and `renderRadius` are not fields of the shown `WorldComponent`, so `Streaming.Update` takes them as parameters.
- The hash function and bucket layout of the biome map: its iteration order is an input of `BiomeGen.ChooseBiome`, so among equally near biomes the model picks the one the given order lists first, whichever that is.
- BiomeGen.GenerateChunk: the world's chunk dims are taken to be `CHUNK_SIZE` (31) on every side. The source loops over `CHUNK_SIZE` but indexes through `getIndex`, which uses `world.chunkWidth` and `world.chunkLength`. `StartGeneratingVoxelData`, which prepares the buffer, is not part of this model.
- ChunkStore.CreateChunk: when generation throws, the chunk is already in the map. The model keeps it with an empty voxel buffer; the source leaves whatever buffer the generator had written so far.
- Components.IVec3Hash: `std::hash<int>` is taken to be the identity on a 64-bit `size_t`, as in libstdc++ and libc++. The C++ standard leaves it to the implementation; MSVC, for one, uses FNV-1a, and there `Components.IVec3HashCollides` names no collision.
- The older mesh wrappers (`src/mesh.cpp`, `src/voxelMesh.cpp`), model loading, file and console I/O, the camera and the frame loop are not part of this model.
- Allocator.Valid: well-formed lists exclude zero-size ranges, so the validity results (`AllocateValid`, `FreeValid`, `InsertValid`) say nothing about freeing a zero-size region. The covered-set results (`FreeCovers`) hold for any size.
- Allocator.Free: the free list it is given is assumed to be in offset order, as every list built by `init`, `allocate` and `free` is. `std::sort` is modelled as inserting the new range after ranges of equal offset.
- Allocator.FreeValid: the source does not check that the freed region is disjoint from the free ranges. The validity result requires it; `FreeCovers` does not.
- GreedyMerge.DistinctMergeIsUnitCells: "each non-zero cell is covered by exactly one rectangle" is proved only for masks with distinct codes. That is every mask the mesher builds (`Mesher.MaskDistinct`).
- VoxelMesh.Init: the `VoxelDrawInfo` fields are `int` initialised to `UINT32_MAX`. They are modelled as `uint32_t` values with the same sentinel, which is what the `!= UINT32_MAX` tests compare against.
- Device.RateDevice: the exact sum is stated only while it fits in `int`. Beyond that the model wraps in two's complement, as the `uint32_t` addition converted back to `int` does.
- Images.TextureArrayLayout: `w·h·4` and the total size are exact products. The `int` overflow of very large textures is not modelled.
- VertexData.PackPosition: the source has no clamp. The model requires the scaled value to fit `int16_t`, because the conversion is not defined outside that range.

## Findings

| source | as written | input that shows it | evidently intended | confidence | as-written member | corrected member |
|---|---|---|---|---|---|---|
| EngineCore/src/Voxels/voxelSystem.cpp:141-149 | GetVoxel indexes the buffer with the truncating remainder, which is negative for negative coordinates | chunks of 31³, voxel (-1,0,1): reads buffer index 30, which is voxel (-1,0,0), instead of 61; voxel (-1,0,0) reads index -1 | normalise the local coordinate, as IsBorderVoxel does at lines 178-183 | not executed; high | ChunkStore.GetVoxelNegativeCoordinates | ChunkStore.SetVoxelThenGetVoxel |
| EngineCore/src/Voxels/voxelSystem.cpp:132-157 | SetVoxel on an unloaded chunk writes through the reference to the function-static air voxel | SetVoxel(p, 5) with p's chunk unloaded; afterwards GetVoxel of any unloaded position returns 5 | drop writes into unloaded chunks, leaving air as air | not executed; high | ChunkStore.SetVoxelAsWrittenPoisonsAir | ChunkStore.SetVoxelKeepsAir |
| EngineCore/src/Voxels/meshingSystem.cpp:83 | IsSolid calls Index3D(x, y, z, w, h), using the height as the plane length, while the mask uses (W, D) | a 1×2×1 chunk: IsSolid(0,1,0) reads index 2 of a two-voxel buffer | Index3D(x, y, z, w, d), matching the mask at line 157 | not executed; high | Mesher.IsSolidAsWrittenOutOfBounds | Mesher.IsSolid |
| EngineCore/src/Vulkan/vulkanDevice.cpp:33-43 | the loop breaks at the first device with a positive score | scores [1, 2000]: device 0 is picked | keep the highest score, as the comment at line 33 and the variable `highestScore` describe | not executed; medium | Device.PickDeviceFirstPositiveCounterexample | Device.PickPhysicalDevice |
