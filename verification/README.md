# Graphics-course testbeds: buffer cache, image packing and mesh layouts in Dafny

This project models the computational core of a collection of small WPF teaching
programs. There are five parts.

- **The LRU block cache of Testbed3D.** It has 256 slots of 512-byte blocks in front
  of a block device. A miss detaches the least recently used slot and does its disk
  work outside the lock. The in-flight set tells other callers to wait while a block
  is being fetched.
- **GImage pixel packing.** A `rows x cols x 4` RGBA byte array is packed into a
  BGRA32 buffer and unpacked again.
- **The ShapeGenerator meshes.** These are the tessellated unit sphere, the quad and
  the unit cube.
- **The grid mesh and stripe image of Testbed2DApp2.** The mesh is built from
  `vectorIndex` and two edge loops.
- **The image-inpainting loop of ImageFill.** It converts the image to grayscale,
  damages random pixels, averages a pixel's four neighbours, restores the known
  pixels and resets the image.

Modules, one per file:

| module | file | what it holds |
|---|---|---|
| `Wrappers`, `Bytes`, `Arith` | wrappers.dfy, bytes.dfy, arith.dfy | `Option`/`Result`, the `byte` type, one multiplication step |
| `Disk` | disk.dfy | the block store (`c_blockSize`); an unwritten block reads as zeros |
| `Holder` | holder.dfy | `BlockHolder` and its disk work, with the store passed in and returned |
| `CachePool` | cache_pool.dfy | `m_cache` and `m_diskQueue`, and each locked section as a function |
| `CacheMachine` | cache_machine.dfy | `PerformBlockOperation` as a state machine of interleaved callers, with its invariant |
| `Recency` | recency.dfy | a reference LRU order, independent of the cache |
| `BufferCache` | buffer_cache.dfy | `ReadBlock`/`WriteBlock` for one caller, the block view, and LRU replay |
| `GImage` | gimage.dfy | the pixel-array constructor, `GetPixelArray`, `SetPixelArray` and the packing loop |
| `ShapeGenerator` | shape_generator.dfy | the sphere index layout, the quad, and the cube faces and normals |
| `GridMesh` | grid_mesh.dfy | `vectorIndex`, `createSampleMesh` and `createStripeImageArray` |
| `ImageFill` | image_fill.dfy | grayscale, damage, `getNeighbors`, `improveRestoredImage` and `updateRestoredImage` |

The cache is modelled at two levels. `CacheMachine` treats every locked section and
every out-of-lock disk transfer as one atomic step. The steps of different callers
interleave freely, and `NextPreservesInv` holds for any interleaving. `BufferCache`
looks at one caller running `ReadBlock` or `WriteBlock` to completion. Its contract
is stated against the block view: the resident copy if there is one, else the disk.

The source's lock-protected bookkeeping lets a stale read through (see Findings).
The rest of the model therefore uses the corrected protocol, `GuardedWriteBack`. In
it, a miss keeps a dirty victim's old block number in flight until the write-back
has landed. The as-written protocol, `AsWritten`, is kept alongside for the finding.

## Model

| member | source | states |
|---|---|---|
| Holder.WriteBackOps | Testbed3D/BufferCache.cs:66-74 | a write-back issues exactly one disk write, of the slot's bytes under its number, iff the slot is dirty |
| Holder.SetData | Testbed3D/BufferCache.cs:32-37 | the buffer becomes the given bytes and the slot becomes dirty; the block number is kept |
| Holder.WriteDataToDisk | Testbed3D/BufferCache.cs:66-74 | the store changes only at the slot's block, and only if the slot was dirty; the slot comes out clean and mirrors the store |
| Holder.PopulateHolderFromDisk | Testbed3D/BufferCache.cs:43-48 | old contents are written back first; the slot then holds block b exactly as the store has it, clean; disk requests are the write-back, then a read of b |
| Holder.PopulateHolderWithData | Testbed3D/BufferCache.cs:55-60 | old contents are written back; the slot becomes (b, data, dirty) without any disk read |
| Holder.HitAction | Testbed3D/BufferCache.cs:99-103 | a read hit leaves the slot unchanged; a write hit stores the bytes and marks the slot dirty; the block number never changes |
| Holder.MissAction | Testbed3D/BufferCache.cs:104-107 | a read miss reloads b clean from the store; a write miss holds the caller's bytes dirty; either writes back the victim first |
| CachePool.NewCache | Testbed3D/BufferCache.cs:84-90 | 256 empty, clean, well-formed slots and nothing in flight |
| CachePool.Lookup | Testbed3D/BufferCache.cs:230-242 | finds the first slot holding b; it returns None iff no slot holds b |
| CachePool.UpdateLastUsedTime | Testbed3D/BufferCache.cs:247-251 | the refreshed slot moves to the most recent end; all other slots keep their relative order |
| CachePool.BeginMiss | Testbed3D/BufferCache.cs:163-169 | the least recently used slot is detached and b joins the in-flight set, plus the victim's id when write-back is guarded |
| CachePool.CompleteMiss | Testbed3D/BufferCache.cs:207-216 | the refilled slot is appended as most recent and its block leaves the in-flight set |
| CachePool.Enter | Testbed3D/BufferCache.cs:149-185 | a hit is served iff b is resident; the caller waits iff b is absent and in flight (or the pool is empty); otherwise it claims the oldest slot |
| CachePool.HitKeepsBlockNumbers | Testbed3D/BufferCache.cs:181-182 | a hit keeps the same multiset of block numbers in the pool |
| CachePool.HitKeepsUnique | Testbed3D/BufferCache.cs:181-182 | a hit keeps every block resident at most once |
| CacheMachine.Init | Testbed3D/BufferCache.cs:84-90 | the constructed cache (256 empty clean slots, nothing in flight, no callers) satisfies the bookkeeping invariant and every clean slot mirrors the disk |
| CacheMachine.Next | Testbed3D/BufferCache.cs:149-216 | one atomic step: Begin (the first locked section) refreshes a hit, waits on a block in flight or an empty pool, and otherwise detaches the least recently used slot for the caller; Transfer (the disk work outside the lock) is the only step that changes the disk and makes the claimed slot hold the caller's block; Finish (the second locked section) appends the slot as most recent and ends the claim; a step that is not enabled changes nothing |
| CacheMachine.NextPreservesInv | Testbed3D/BufferCache.cs:141-222 | under any interleaving, every slot stays resident or claimed, no block is resident twice, and the in-flight set is exactly the blocks being fetched plus the guarded victims |
| CacheMachine.NextPreservesCoherence | Testbed3D/BufferCache.cs:141-222 | with write-back guarded, every clean resident slot keeps mirroring the disk through every step |
| CacheMachine.Run | Testbed3D/BufferCache.cs:141-222 | running any sequence of caller steps from any state satisfying the invariant keeps the invariant, and keeps every clean slot mirroring the disk when write-back is guarded |
| CacheMachine.AsWrittenSlotCount | Testbed3D/BufferCache.cs:163-169 | as written, resident slots plus in-flight ids always add up to the 256 slots |
| CacheMachine.GuardedIoExclusive | Testbed3D/BufferCache.cs:205-206 | with write-back guarded, no two misses in progress touch the same disk block, and no block a miss touches is resident |
| CacheMachine.AsWrittenStaleRead | Testbed3D/BufferCache.cs:163-212 | as written, two interleaved misses leave a clean slot whose bytes differ from the disk (the stale read) |
| Recency.RecencyOrder | Testbed3D/BufferCache.cs:247-258 | every accessed block appears once, ordered by last access, with the latest access last |
| BufferCache.ReadBlock | Testbed3D/BufferCache.cs:97-109 | returns the block as the cache shows it; no block's visible contents change; the cache stays consistent |
| BufferCache.WriteBlock | Testbed3D/BufferCache.cs:116-128 | afterwards block b reads as the written bytes and every other block reads as before |
| BufferCache.ReadBlockAsWritten | Testbed3D/BufferCache.cs:97-109 | as written, the caller's buffer comes back unchanged and the status is 0 |
| BufferCache.ReadBlockAsWrittenLosesData | Testbed3D/BufferCache.cs:102-107 | a caller whose buffer does not already hold the block never receives the block's bytes |
| BufferCache.NewBufferCache | Testbed3D/BufferCache.cs:84-90 | a new cache is consistent, holds 256 empty clean slots, and shows every block exactly as the disk holds it |
| BufferCache.PerformKeepsQuiescent | Testbed3D/BufferCache.cs:141-222 | an operation leaves the cache consistent again: nothing in flight, invariant intact, clean slots mirroring disk |
| BufferCache.PerformUpdatesView | Testbed3D/BufferCache.cs:141-222 | an operation changes the visible contents of block b only, and only by a write |
| BufferCache.PerformBlockOperation | Testbed3D/BufferCache.cs:141-222 | a read returns the block as the cache showed it and a write stores the caller's bytes; a hit moves the slot to the most recent end, keeps the others in order and does no disk work; a miss evicts the least recently used slot, writes it back iff it is dirty, reads b iff reading, and appends b as most recent |
| BufferCache.ServeFromNew | Testbed3D/BufferCache.cs:247-270 | from a new cache, any request sequence leaves the cache consistent, with the slots holding the 256 most recently used blocks in LRU order, behind empty slots |
| BufferCache.ReplayEvictsLeastRecent | Testbed3D/BufferCache.cs:264-270 | once 256 blocks have been used, a request for any other block misses and evicts the least recent of the 256 |
| BufferCache.PerformFollowsRecency | Testbed3D/BufferCache.cs:141-222 | one operation on b turns the LRU layout of a history into that of the history followed by b |
| GImage.FromPixelArray | Testbed2D/GImage.cs:94-126 | rejects an array iff its depth is not 4 (a zero-size array is accepted here; see Left out); otherwise the bitmap has the array's height and width |
| GImage.SetPixelArray | Testbed2D/GImage.cs:216-239 | fails with an index error iff the loops would read outside the array; otherwise the bitmap is nRows x nCols |
| GImage.GetPixelArray | Testbed2D/GImage.cs:178-199 | unpacks to a rows x cols x 4 array |
| GImage.PackLoop | Testbed2D/GImage.cs:108-119 | the three nested store loops produce exactly the packed BGRA buffer |
| GImage.OffsetInjective | Testbed2D/GImage.cs:108-118 | distinct (row, column, byte) triples are stored at distinct offsets |
| GImage.OffsetCover | Testbed2D/GImage.cs:108-119 | every byte of the buffer is written by some (row, column, byte) |
| GImage.UnpackPack | Testbed2D/GImage.cs:94-199 | unpacking what the constructor packed gives back the array it was given |
| GImage.PackUnpack | Testbed2D/GImage.cs:94-199 | packing an unpacked bitmap restores its buffer byte for byte |
| GImage.SetPixelArrayMatchesConstructor | Testbed2D/GImage.cs:216-239 | SetPixelArray inside the bounds packs the same bitmap the constructor packs from that corner of the array |
| ShapeGenerator.RowStartIsProduct | Testbed3D/ShapeGenerator.cs:103 | the first vertex of row t sits at t * phiSteps, matching the loop order |
| ShapeGenerator.GenerateUnitSphere | Testbed3D/ShapeGenerator.cs:61-123 | rejects fewer than 3 steps in either direction; otherwise (thetaSteps + 1) * phiSteps vertices and 6 * thetaSteps * (phiSteps - 1) indices; every triangle index names a generated vertex, and the last vertex is used |
| ShapeGenerator.TrianglesLength | Testbed3D/ShapeGenerator.cs:100-117 | each row of cells contributes 6 * (phiSteps - 1) indices |
| ShapeGenerator.CellCorners | Testbed3D/ShapeGenerator.cs:103-116 | the six indices of cell (t, p) sit at position 6 * (t * (phiSteps - 1) + p) of the generated index list, and they name the vertices of grid points (t, p), (t, p+1), (t+1, p) and (t+1, p+1) |
| ShapeGenerator.CellShape | Testbed3D/ShapeGenerator.cs:108-114 | each of a cell's two triangles has three distinct vertices, and both share the topLeft-botRight diagonal |
| ShapeGenerator.SphereTexCoordsInUnitSquare | Testbed3D/ShapeGenerator.cs:85-95 | every texture coordinate lies in the unit square; u reaches 1 exactly on the repeated seam row |
| ShapeGenerator.CreateQuad | Testbed3D/ShapeGenerator.cs:128-150 | corners in the given order; texture corners (0,1), (1,1), (1,0), (0,0), so the texture covers the quad once; triangles (0,1,2) and (0,2,3), which share the 0-2 diagonal and together draw all four corners |
| ShapeGenerator.GenerateUnitCube | Testbed3D/ShapeGenerator.cs:24-53 | six quads with the CreateQuad index and texture layout; each lies in the plane of its own side of the cube and goes around four distinct corners along cube edges; the normal CreateQuad assigns and the normals of both triangles point out of that side, so the two triangles wind the same way |
| ShapeGenerator.CalculateNormal | Testbed3D/ShapeGenerator.cs:169-174 | the normal of a triangle is perpendicular to all three of its edges |
| ShapeGenerator.NormalWinding | Testbed3D/ShapeGenerator.cs:169-174 | the normal depends only on the winding: starting at another corner keeps it, and reversing the corners negates it |
| ShapeGenerator.CubeFacesOutward | Testbed3D/ShapeGenerator.cs:137-173 | for every face, the normal of its first three corners and the CalculateNormal of each of its two triangles are all the outward direction of its side |
| ShapeGenerator.CubeCornerFaces | Testbed3D/ShapeGenerator.cs:28-48 | every corner of the cube belongs to exactly three faces |
| GridMesh.VectorIndex | Testbed2DApp2/Window1.xaml.cs:277-280 | the row-major index of (row, col); for a column inside a row of ncols vertices, dividing the index by ncols gives back the row and the remainder gives back the column |
| GridMesh.VectorIndexBound | Testbed2DApp2/Window1.xaml.cs:277-280 | every in-grid (row, col) maps below nrows * ncols |
| GridMesh.VectorIndexInjective | Testbed2DApp2/Window1.xaml.cs:277-280 | distinct in-grid positions get distinct indices |
| GridMesh.VectorIndexCover | Testbed2DApp2/Window1.xaml.cs:277-280 | every index below nrows * ncols is some in-grid position |
| GridMesh.PlaceVertices | Testbed2DApp2/Window1.xaml.cs:294-301 | the vertex of grid point (y, x) is stored at vectorIndex(y, x) |
| GridMesh.VerticesComplete | Testbed2DApp2/Window1.xaml.cs:291-301 | every slot of the vertex array is filled, by the grid point whose index it is |
| GridMesh.BuildEdges | Testbed2DApp2/Window1.xaml.cs:303-321 | the two loops produce all horizontal edges row by row, then all vertical edges column by column, and count them |
| GridMesh.EdgeCount | Testbed2DApp2/Window1.xaml.cs:288 | the loops produce exactly nrows * (ncols - 1) + ncols * (nrows - 1) edges, the size of the edge array |
| GridMesh.HorizontalEdgePresent | Testbed2DApp2/Window1.xaml.cs:304-312 | every pair of horizontally adjacent grid points is joined at its row-major position |
| GridMesh.VerticalEdgePresent | Testbed2DApp2/Window1.xaml.cs:313-321 | every pair of vertically adjacent grid points is joined at its column-major position |
| GridMesh.EdgeShape | Testbed2DApp2/Window1.xaml.cs:303-321 | every edge joins grid neighbours: end = start + 1 in the first part, end = start + ncols in the second |
| GridMesh.EdgesInRange | Testbed2D/Mesh.cs:58 | every edge endpoint is a vertex index between 0 and nverts - 1, as the Mesh constructor requires |
| GridMesh.NoSelfLoops | Testbed2DApp2/Window1.xaml.cs:303-321 | no edge joins a vertex to itself |
| GridMesh.NoDuplicateEdges | Testbed2DApp2/Window1.xaml.cs:303-321 | no edge is produced twice |
| GridMesh.CreateGridMesh | Testbed2DApp2/Window1.xaml.cs:283-324 | nrows * ncols vertices, each slot holding the grid point whose index it is; the edge list is exactly the grid edges in loop order, with the promised count; every edge joins two neighbouring grid points, every pair of neighbours is joined, no edge is a loop or appears twice, and all endpoints are valid for the Mesh constructor |
| GridMesh.CreateSampleMesh | Testbed2DApp2/Window1.xaml.cs:283-324 | the 4 x 6 sample has 24 vertices holding their grid points and 38 edges, exactly the grid edges, each joining two neighbours, none repeated, all valid for the Mesh constructor |
| GridMesh.StripeImage | Testbed2DApp2/Window1.xaml.cs:256-275 | a 128 x 128 x 4 array: gray in channels 0-2, opaque alpha |
| GridMesh.StripeImagePacks | Testbed2DApp2/Window1.xaml.cs:98-100 | the stripe array is accepted by the GImage constructor and unpacks back to itself |
| ImageFill.GrayValue | ImageFill/Window1.xaml.cs:228-233 | the truncated mean of the three colour channels: between the smallest and largest channel |
| ImageFill.Grayscale | ImageFill/Window1.xaml.cs:223-240 | every pixel is gray, with the truncated mean of its colour channels and opaque alpha |
| ImageFill.GrayscaleIdempotent | ImageFill/Window1.xaml.cs:223-240 | converting an already-gray image again changes nothing |
| ImageFill.OriginalGrayscaleImage | ImageFill/Window1.xaml.cs:216-242 | storing the gray array back always succeeds and reads back as the grayscale of the original |
| ImageFill.DamageImage | ImageFill/Window1.xaml.cs:252-275 | a pixel is marked known iff it is not hit; known pixels are kept and hit pixels become opaque blue; on a gray image the mask can be read back from the damaged image, since a pixel is known iff it is still gray |
| ImageFill.GetNeighbors | ImageFill/Window1.xaml.cs:336-362 | the count and the channel-0 sum are exactly those of the in-image pixels among the four neighbours |
| ImageFill.NeighborsAdjacent | ImageFill/Window1.xaml.cs:340-360 | each counted neighbour is one step up, left, down or right of the pixel |
| ImageFill.NeighborCountPositive | ImageFill/Window1.xaml.cs:297 | the neighbour count is positive (the division is defined) iff the image is larger than 1 x 1 |
| ImageFill.ImproveRestoredImage | ImageFill/Window1.xaml.cs:277-306 | every pixel leaves gray; a known pixel gets the original's level; an unknown pixel gets the blend of its old level with the count and sum of its neighbours (in the program, the rounded mean of the neighbours; see Left out), those above and to the left read as already updated and the others as they were; on a gray original every known pixel is restored exactly |
| ImageFill.RestorePixel | ImageFill/Window1.xaml.cs:285-303 | one iteration of the sweep at (i, j): the pixel gets its restored level, every pixel visited earlier stays restored, and every pixel after (i, j) still holds the start image |
| ImageFill.ResetImage | ImageFill/Window1.xaml.cs:317-332 | every pixel becomes opaque black |
| ImageFill.ResetForgetsContents | ImageFill/Window1.xaml.cs:317-332 | the reset depends only on the image size, and its result is gray |
| ImageFill.RestartThenImprove | ImageFill/Window1.xaml.cs:108-123 | a restart (damage the gray original, reset the restored image) followed by one improvement: the mask is known iff not hit, every spared pixel comes back exactly as the gray original, and every damaged pixel is shown blue in the damaged image and blended from the reset level 0 with its neighbours in the restored one |

## Left out

- Threads, locks, condition waits and spin loops are left out. Each locked section is one atomic step, and a caller that must wait takes a step that changes nothing. Liveness is not modelled, including the spin on an empty cache at Testbed3D/BufferCache.cs:155-161, which never ends. The wait for a block another caller is fetching (Testbed3D/BufferCache.cs:192-198) never ends either: it spins while holding the `m_diskQueue` lock, and the fetcher needs that lock (line 209) to remove the block number. Its comment names a condition wait on `m_diskQueue`, which would release the lock; that was evidently intended.
- Negative block numbers are left out: blocks are `nat`. The source's -1 marks an empty slot (`Holder.NoBlock`).
- SetData keeps the caller's array instead of copying it (Testbed3D/BufferCache.cs:36), and PopulateHolderFromDisk reads a block into the slot's own array (Testbed3D/BufferCache.cs:46). Arrays are values here, so this sharing is not modelled. Three consequences of it follow.
- BufferCache.WriteBlock: the promise that every other block reads as before holds only when no two slots share an array and no slot shares the caller's array. In the source, a caller that writes one array to two blocks, and a read miss that later reloads one of those slots, changes the other slot's dirty bytes. A caller that changes its array after WriteBlock also changes the cached block.
- BufferCache.PerformUpdatesView: the same condition applies. The frame holds only while no array is shared between slots or with a caller.
- BufferCache.ReadBlockAsWritten: "the buffer comes back exactly as it was passed" holds only when the caller's buffer is not a slot's array. If a caller reads with the array it earlier wrote with, and the read misses and evicts that slot, the reload writes the new block into the caller's buffer.
- The constructor's `m_data` is never allocated in the source. The model zero-fills the slot buffers instead.
- The disk calls `diskblockread` and `diskblockwrite` are not part of this model. They are a map from block number to bytes passed in and returned, together with the list of requests issued.
- BufferCache.PerformBlockOperation always returns status 0, which the model does not return. Its contract is stated through ReadBlock, WriteBlock and the lemmas.
- GridMesh.StripeImage: the shade `(byte)(32 * Math.Round((x + 2y) / 32.0))` is a parameter. Floating-point rounding (banker's rounding) and the byte cast are not modelled.
- GridMesh.StripeImage: the array is built as `[x, y, k]`, so GImage reads x as its row. Since the image is 128 x 128, the model keeps the same indexing and the transposition has no effect on shape.
- GridMesh.CreateGridMesh: vertex coordinates (`baseX + 10x`, the `Math.Sin` offset) are floating point. Each vertex is represented by the grid point (row, column) that produced it.
- GridMesh.CreateSampleMesh generalises the fixed 4 x 6 grid to CreateGridMesh. The sample is then one call to it.
- The Mesh constructor's drawing (line geometries, colours, strokes) is WPF rendering and is left out. Only its documented precondition on edges is stated.
- ImageFill.ImproveRestoredImage: the blend `(byte)Math.Round((1 - blendRatio) * old + blendRatio * neighborSum / neighborCount)` is floating point. It is a parameter that receives the old value, the sum and the count. In the program `blendRatio` is the constant 1.0 (ImageFill/Window1.xaml.cs:37) and nothing changes it, so the old level has weight 0 and the blend the program uses is `(byte)Math.Round(neighborSum / neighborCount)`. For a 1 x 1 image the count is 0, and the source divides by zero and gets NaN; the model leaves that case to the parameter too.
- ImageFill.GetNeighbors: the neighbour sum is a double in the source. Sums of at most four bytes are exact in a double, so the model uses a natural number.
- ImageFill.DamageImage: the random draw `myRandom.NextDouble() < damageFraction` is a parameter `hit(i, j)`.
- The file loading of GImage("images/mona2.jpg"), the GImage(int, int, byte[]) constructor, GPImage, the LA linear-algebra classes and all WPF event handlers and animation are left out. They are rendering and I/O, not the core.
- ShapeGenerator.GenerateUnitSphere: sphere positions and normals are sines and cosines. They are represented by the grid point (tStep, pStep), and texture coordinates are exact fractions.
- ShapeGenerator.CreateQuad: the source adds the one CalculateNormal of the first three corners six times, although the quad has four positions. The model keeps that single value as QuadNormal and does not model the length of the normal list.
- 32-bit integer overflow of the index arithmetic (`vectorIndex`, `nRows * stride`, `tStep * phiSteps`) is not modelled. Sizes in these programs are small, and integers here are unbounded.
- GImage.SetPixelArray: the sizes are natural numbers, but the source takes `int`. A negative nRows with a positive nCols (or the reverse) makes `new byte[size]` throw. The callers pass only an image's own row and column counts, so this case is not modelled.
- GImage.FromPixelArray: the constructor ends by calling WPF's `BitmapSource.Create` (Testbed2D/GImage.cs:119), which is not part of this model. That call may reject an array with zero rows or columns; here such an array is accepted and gives an empty bitmap.
- GImage.SetPixelArray: whether a zero row or column count succeeds depends on WPF's `BitmapSource.Create`, which is not part of this model. Here it succeeds with an empty bitmap.

## Findings

| source | as written | input that shows it | evidently intended | confidence | as-written member | corrected member |
|---|---|---|---|---|---|---|
| Testbed3D/BufferCache.cs:163-212 | a miss puts only the requested block in `m_diskQueue`; the dirty victim it detached is written back later, outside the lock, with its old block number in neither the cache nor the queue | caller A misses on b and detaches the oldest slot, which holds block o dirty; caller B misses on o before A's write-back and reads o's old bytes from disk; then A's write-back lands | a reader of o must never get bytes older than the cache's own copy; the victim's block should stay guarded until its write-back is done | not executed | CacheMachine.AsWrittenStaleRead | CacheMachine.NextPreservesCoherence |
| Testbed3D/BufferCache.cs:102,107 | both delegates of ReadBlock assign the block's bytes to `data`, ReadBlock's own copy of the caller's array reference, so the caller's array is never filled | any ReadBlock whose buffer does not already hold the block's bytes, e.g. a zeroed buffer for a block the cache holds with nonzero bytes | the block's bytes should be copied into the caller's buffer | not executed | BufferCache.ReadBlockAsWritten | BufferCache.ReadBlock |
