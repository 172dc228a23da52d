# Surface Nets voxel chunk

A Dafny model of the Surface Nets chunk `ASurfaceNets` and of the
voxel coordinate helpers in `UVoxelFunctionLibrary`.

## What the chunk does

A chunk of edge length `Size` keeps a padded density buffer `Voxels`: P³
values with P = Size + 2, addressed through the strides
`AxisOffsets` = (1, P, P²). A negative density is inside material and a
non-negative density is outside.

`GenerateMesh` scans the cells [0, P−1)³ with Z outermost, then Y, then X.
For each cell it does the following:

- It reads the eight corner densities and builds an 8-bit corner mask of
  their sign bits.
- A cell whose mask is neither 0 nor 0xFF gets one welded vertex:
  - The vertex number is the running `VertexCount`, recorded in a vertex
    table.
  - The position is the mean of the crossing points found on the 12 cube
    edges and 4 diagonals (`ComputeSDFSurface`), offset by the cell and
    scaled by `BlockSize`.
  - The normal is a finite-difference estimate.
- For each axis that the `AxisFlags` table selects, and whose three
  neighbour cells behind it exist, the cell emits a quad. The quad is two
  triangles joining its vertex to those of the three neighbours. The
  winding is flipped when corner 0 is inside.

`ModifyVoxelData` adds `±max(2 − distance, 0)` to the samples near an edit
position. Air raises the density and every other block lowers it.

The three coordinate helpers map a world position to three things:

- a block position (`WorldToBlockPosition`);
- a chunk position (`WorldToChunkPosition`);
- a block position local to its chunk (`WorldToLocalBlockPosition`).

## Project layout

- `Vectors.dfy`:
  - `Int3`, integer vectors (`FIntVector`);
  - `Vec3`, real vectors (`FVector`).
- `SurfaceNetsTables.dfy`:
  - the constant tables of the header (`AxisMask`, `AxisFlags`,
    `VertexOffset`, `VertexFloats`, `Edges`);
  - what they mean, proved against closed formulas.
- `SurfaceNetsGrid.dfy`: the padded grid layout, its flat index and its
  inverse, and the corners of a cell.
- `SurfaceNetsCell.dfy`:
  - the corner mask;
  - the crossing rule of the edge walk;
  - the surface point of a cell, as a reference definition.
- `SurfaceNetsMesh.dfy`:
  - the reference mesh of a scan as a function of the density grid:
    vertex ranks, the quads of each cell, the mesh of a scan prefix;
  - the lemmas that the vertex-table reads find those ranks;
  - the lemma that the resulting mesh is well formed.
- `SurfaceNets.dfy`:
  - the class `ASurfaceNets`, with the source's fields and methods written
    imperatively. Each method is proved against the reference definitions;
  - the brush definitions and the lemmas about them.
- `VoxelFunctionLibrary.dfy`: the coordinate helpers, with truncating
  division written out.

`GenerateMesh` appends to the mesh the chunk already holds. It sets
`VertexCount` to 0 but never clears `Vertices`, `Normals` or `Triangles`.
The model follows the code: its contract states new mesh = old mesh ++
mesh of the grid. A caller that wants a fresh mesh must clear the mesh
data before calling `GenerateMesh`. For a chunk whose mesh data is empty,
the result is a well-formed mesh.

The edge walk of `ComputeSDFSurface` takes its crossing test as a
parameter: `StrictProduct` is the product test `SDF0 * SDF1 < 0` that the
code writes, and `SignBits` is the test the corner mask uses. The scan in
`GenerateMesh` passes `SignBits` (see Findings). The two tests agree on
every cell with no corner exactly 0.0.

## Model

| member | source | states |
|---|---|---|
| SurfaceNets.ASurfaceNets.constructor | Source/UE5VoxelTutorial/Private/Voxel/Chunk/SurfaceNets.h:18-18 | A new chunk has zero strides, an empty buffer, no vertices and an empty mesh |
| SurfaceNets.ASurfaceNets.Setup | Source/UE5VoxelTutorial/Private/Voxel/Chunk/SurfaceNets.cpp:12-20 | Establishes the chunk invariant: strides (1, P, P²) with P = Size + 2, and a buffer of P³ samples. Samples already present are kept and new ones are zero |
| SurfaceNets.ASurfaceNets.GetVoxelIndex | Source/UE5VoxelTutorial/Private/Voxel/Chunk/SurfaceNets.cpp:140-143 | With the strides Setup stores, the result is the grid layout's index, and it lies inside the buffer for every grid point |
| SurfaceNets.ASurfaceNets.ComputeSDFSurface | Source/UE5VoxelTutorial/Private/Voxel/Chunk/SurfaceNets.cpp:145-179 | For either crossing test, including the product test as written, and for a cell where that test finds a crossing: the output position is the reference surface point of that test and lies in the unit cube. The reverse edge walk with its early stop after the diagonals gives that point. The normal is the finite-difference estimate |
| SurfaceNets.ASurfaceNets.WalkEdge | Source/UE5VoxelTutorial/Private/Voxel/Chunk/SurfaceNets.cpp:155-166 | One edge of the walk, under the given crossing test (the product test as written, or the sign-bit test), moves the running sum and count from edges e+1..15 to edges e..15 of the reference accumulation |
| SurfaceNets.ASurfaceNets.AddTriangle | Source/UE5VoxelTutorial/Private/Voxel/Chunk/SurfaceNets.cpp:181-186 | The three indices are appended to the triangle list in order, and nothing else changes |
| SurfaceNets.ASurfaceNets.ReadCube | Source/UE5VoxelTutorial/Private/Voxel/Chunk/SurfaceNets.cpp:81-89 | Reads through the precomputed corner offsets. The result is exactly the cell's eight corner densities and the cell's corner mask |
| SurfaceNets.ASurfaceNets.EmitQuads | Source/UE5VoxelTutorial/Private/Voxel/Chunk/SurfaceNets.cpp:105-132 | The axis loop appends exactly the reference quads of the cell for axes X, Y and Z, in that order |
| SurfaceNets.ASurfaceNets.EmitQuad | Source/UE5VoxelTutorial/Private/Voxel/Chunk/SurfaceNets.cpp:109-130 | One axis appends the reference quad: nothing when the flag is clear or a neighbour is missing, otherwise the two triangles with the winding of corner 0. The vertex-table reads give the neighbours' vertex numbers |
| SurfaceNets.ASurfaceNets.VisitCell | Source/UE5VoxelTutorial/Private/Voxel/Chunk/SurfaceNets.cpp:80-133 | One scan step: the vertex count becomes the number of mixed cells scanned so far, the mesh becomes the reference visit of the cell (vertex position under the sign-bit test), and the vertex table stays correct for every scanned cell |
| SurfaceNets.ASurfaceNets.AddCellVertex | Source/UE5VoxelTutorial/Private/Voxel/Chunk/SurfaceNets.cpp:91-132 | A mixed cell gets vertex number = its rank, and the count goes up by one. Its scaled, offset surface point under the sign-bit test, its normal and its quads are appended. The table records the number |
| SurfaceNets.ASurfaceNets.MeshRow | Source/UE5VoxelTutorial/Private/Voxel/Chunk/SurfaceNets.cpp:78-135 | The X loop of one row carries the count, the mesh (vertex positions under the sign-bit test) and the vertex table from the row's start to its end of the reference scan |
| SurfaceNets.ASurfaceNets.GenerateMesh | Source/UE5VoxelTutorial/Private/Voxel/Chunk/SurfaceNets.cpp:55-138 | The chunk invariant is kept. VertexCount ends as the number of cells with a mixed mask. The mesh ends as the old mesh followed by the reference mesh of the grid. Starting from empty mesh data, the result is well formed: one normal per vertex, whole triangles, every index below VertexCount |
| SurfaceNets.ASurfaceNets.BrushRow | Source/UE5VoxelTutorial/Private/Voxel/Chunk/SurfaceNets.cpp:202-211 | The X loop for offsets (−2..1, y, z) adds the brush change of each offset to the sample it writes, and no other sample changes |
| SurfaceNets.ASurfaceNets.ModifyVoxelData | Source/UE5VoxelTutorial/Private/Voxel/Chunk/SurfaceNets.cpp:188-213 | The chunk invariant is kept. After the edit, each sample equals its old value plus the brush change of its grid point |
| SurfaceNets.BrushStepDelta | Source/UE5VoxelTutorial/Private/Voxel/Chunk/SurfaceNets.cpp:209-210 | The loop's increment (strength × max(2 − distance, 0), with the squared length summed Z first) is the brush change of the point it writes |
| SurfaceNets.BrushedAt | Source/UE5VoxelTutorial/Private/Voxel/Chunk/SurfaceNets.cpp:204-210 | Each grid point of the edited buffer is the old sample plus that point's brush change |
| SurfaceNets.BrushSupport | Source/UE5VoxelTutorial/Private/Voxel/Chunk/SurfaceNets.cpp:200-210 | An edit changes a point if and only if the loop visits its offset, the point is in [0, Size]³, and it lies strictly within distance 2 |
| SurfaceNets.BrushBounds | Source/UE5VoxelTutorial/Private/Voxel/Chunk/SurfaceNets.cpp:195-210 | Air raises a point by between 0 and 2. Every other block lowers it by between 0 and 2 |
| SurfaceNets.BrushCentre | Source/UE5VoxelTutorial/Private/Voxel/Chunk/SurfaceNets.cpp:196-210 | A writable centre point moves by the full +2 (Air) or −2 (others) |
| SurfaceNets.BrushAsymmetryHarmless | Source/UE5VoxelTutorial/Private/Voxel/Chunk/SurfaceNets.cpp:200-202 | The loop's bounds, Z in [−2, 2] but Y and X in [−2, 2), give the same change as the symmetric box [−2, 2]³ |
| SurfaceNetsTables.AxisFlagsDecideQuads | Source/UE5VoxelTutorial/Private/Voxel/Chunk/SurfaceNets.h:20-25 | For every mask, the table entry at mask & 0x1F has flag bit a set exactly when corner 0 and the corner one step along axis a differ in sign |
| SurfaceNetsTables.AxisFlagsEntry | Source/UE5VoxelTutorial/Private/Voxel/Chunk/SurfaceNets.h:22-25 | Each of the 32 entries equals a closed formula: bit a is bit 0 of the index xor bit 1 << a (bits 1, 2, 4) |
| SurfaceNetsTables.AxisFlagsIgnoreCorner3 | Source/UE5VoxelTutorial/Private/Voxel/Chunk/SurfaceNets.h:20-25 | Bit 3 of the index does not affect the entry |
| SurfaceNetsTables.AxisMaskIndexes | Source/UE5VoxelTutorial/Private/Voxel/Chunk/SurfaceNets.h:21-22 | Any mask & AxisMask indexes the flag table |
| SurfaceNetsTables.FlagTest | Source/UE5VoxelTutorial/Private/Voxel/Chunk/SurfaceNets.cpp:109-109 | `Flags & (1 << Axis)` tests bit Axis of the flags |
| SurfaceNetsTables.WindingTest | Source/UE5VoxelTutorial/Private/Voxel/Chunk/SurfaceNets.cpp:126-126 | `Mask & 1` tests whether corner 0 is inside |
| SurfaceNetsTables.VertexOffsetBits | Source/UE5VoxelTutorial/Private/Voxel/Chunk/SurfaceNets.h:28-47 | Corner c sits at (bit 0, bit 1, bit 2) of c, and the float table is the same point |
| SurfaceNetsTables.AxisCorner | Source/UE5VoxelTutorial/Private/Voxel/Chunk/SurfaceNets.h:28-34 | The corner 1 << axis (1, 2 or 4) sits one unit step along X, Y or Z from corner 0 in the offset table |
| SurfaceNetsTables.EdgeEndpoints | Source/UE5VoxelTutorial/Private/Voxel/Chunk/SurfaceNets.h:52-57 | Every edge joins two distinct corners |
| SurfaceNetsTables.CubeEdgeIsAxisAligned | Source/UE5VoxelTutorial/Private/Voxel/Chunk/SurfaceNets.h:53-55 | Each of the first twelve edges joins corners that differ along exactly one axis |
| SurfaceNetsTables.CubeEdgesDistinct | Source/UE5VoxelTutorial/Private/Voxel/Chunk/SurfaceNets.h:53-55 | The twelve cube edges are pairwise different |
| SurfaceNetsTables.DiagonalsJoinOpposites | Source/UE5VoxelTutorial/Private/Voxel/Chunk/SurfaceNets.h:49-56 | The four extra edges join opposite corners c and 7 − c, whose offsets sum to (1, 1, 1) |
| SurfaceNetsTables.CubeEdgesConnect | Source/UE5VoxelTutorial/Private/Voxel/Chunk/SurfaceNets.h:53-55 | When two corners differ in sign, some cube edge has ends that differ in sign |
| SurfaceNetsGrid.IndexInRange | Source/UE5VoxelTutorial/Private/Voxel/Chunk/SurfaceNets.cpp:140-143 | Every grid point's index lies in [0, P³) |
| SurfaceNetsGrid.IndexInjective | Source/UE5VoxelTutorial/Private/Voxel/Chunk/SurfaceNets.cpp:140-143 | Distinct grid points have distinct indices |
| SurfaceNetsGrid.PointOfIndex | Source/UE5VoxelTutorial/Private/Voxel/Chunk/SurfaceNets.cpp:14-19 | Every buffer position is the index of a grid point |
| SurfaceNetsGrid.IndexPointOf | Source/UE5VoxelTutorial/Private/Voxel/Chunk/SurfaceNets.cpp:140-143 | Decoding a point's index gives the point back (round trip) |
| SurfaceNetsGrid.IndexPlus | Source/UE5VoxelTutorial/Private/Voxel/Chunk/SurfaceNets.cpp:69-71 | The index of p ± d is the index of p ± the index of d, which is why corner offsets can be precomputed |
| SurfaceNetsGrid.StepBack | Source/UE5VoxelTutorial/Private/Voxel/Chunk/SurfaceNets.cpp:122-124 | Subtracting the axis stride from an index steps one cell back along that axis |
| SurfaceNetsGrid.CornerInGrid | Source/UE5VoxelTutorial/Private/Voxel/Chunk/SurfaceNets.cpp:84-86 | Each corner of a scanned cell is a grid point, read at the cell index plus the corner offset, inside the buffer |
| SurfaceNetsGrid.ScanOrderIsIndexOrder | Source/UE5VoxelTutorial/Private/Voxel/Chunk/SurfaceNets.cpp:73-78 | The Z/Y/X scan order coincides with increasing index (both directions) |
| SurfaceNetsCell.MaskOf | Source/UE5VoxelTutorial/Private/Voxel/Chunk/SurfaceNets.cpp:83-89 | After the first n corners, bit c of the mask is set exactly when c < n and corner c is inside |
| SurfaceNetsCell.SetBit | Source/UE5VoxelTutorial/Private/Voxel/Chunk/SurfaceNets.cpp:88-88 | Or-ing one corner's sign bit sets bit i exactly when the value is inside, and keeps the other bits |
| SurfaceNetsCell.CornerMaskBit | Source/UE5VoxelTutorial/Private/Voxel/Chunk/SurfaceNets.cpp:83-89 | Bit c of the corner mask is set exactly when corner c is inside |
| SurfaceNetsCell.DifferingBitsHaveSurface | Source/UE5VoxelTutorial/Private/Voxel/Chunk/SurfaceNets.cpp:91-91 | A mask with two differing bits passes the mixed test |
| SurfaceNetsCell.UniformBits | Source/UE5VoxelTutorial/Private/Voxel/Chunk/SurfaceNets.cpp:91-91 | A mask with all bits clear is 0, and one with all bits set is 0xFF |
| SurfaceNetsCell.SurfaceIffMixed | Source/UE5VoxelTutorial/Private/Voxel/Chunk/SurfaceNets.cpp:87-91 | The mixed test `Mask && Mask < 0xFF` holds if and only if some corner is inside and some corner is outside |
| SurfaceNetsCell.CrossingFraction | Source/UE5VoxelTutorial/Private/Voxel/Chunk/SurfaceNets.cpp:160-162 | On a crossing edge, T = SDF0 / (SDF0 − SDF1) lies in [0, 1], and strictly inside under the product test |
| SurfaceNetsCell.EdgePoint | Source/UE5VoxelTutorial/Private/Voxel/Chunk/SurfaceNets.cpp:162-163 | The interpolated crossing point lies in the unit cube |
| SurfaceNetsCell.LerpInUnitCube | Source/UE5VoxelTutorial/Private/Voxel/Chunk/SurfaceNets.cpp:163-163 | Interpolating between two points of the unit cube with T in [0, 1] stays in the cube |
| SurfaceNetsCell.AccumFrom | Source/UE5VoxelTutorial/Private/Voxel/Chunk/SurfaceNets.cpp:153-166 | Walking edges lo..15 counts at most 16 − lo crossings, and the sum lies in [0, count]³ |
| SurfaceNetsCell.WalkStep | Source/UE5VoxelTutorial/Private/Voxel/Chunk/SurfaceNets.cpp:155-166 | One edge of the walk adds the crossing point at fraction T and one to the count when the edge passes the crossing test (the product test as written, or the sign-bit test), and otherwise nothing |
| SurfaceNetsCell.CrossingIsCounted | Source/UE5VoxelTutorial/Private/Voxel/Chunk/SurfaceNets.cpp:153-166 | A crossing edge in the walked range makes the count positive |
| SurfaceNetsCell.SignBitsCountPositive | Source/UE5VoxelTutorial/Private/Voxel/Chunk/SurfaceNets.cpp:153-174 | With the sign-bit crossing rule, every cell that passes the mixed test has at least one crossing, so the division at line 174 is by a positive count |
| SurfaceNetsCell.RulesAgreeWithoutZeros | Source/UE5VoxelTutorial/Private/Voxel/Chunk/SurfaceNets.cpp:160-160 | With no zero corner, the product test and the sign-bit rule accumulate the same sum and count |
| SurfaceNetsCell.StrictCountPositiveWithoutZeros | Source/UE5VoxelTutorial/Private/Voxel/Chunk/SurfaceNets.cpp:160-174 | As written, the walk finds a crossing in a mixed cell whenever no corner is exactly zero |
| SurfaceNetsCell.StrictProductMissesZeroCorners | Source/UE5VoxelTutorial/Private/Voxel/Chunk/SurfaceNets.cpp:160-174 | As written, the cube (−1, 0, 0, 0, 0, 0, 0, 0) passes the mixed test, yet the product test counts no crossing |
| SurfaceNetsCell.NoStrictCrossingFrom | Source/UE5VoxelTutorial/Private/Voxel/Chunk/SurfaceNets.cpp:160-165 | For that cube no edge passes the product test, from any starting edge |
| SurfaceNetsCell.SurfacePoint | Source/UE5VoxelTutorial/Private/Voxel/Chunk/SurfaceNets.cpp:145-174 | Under either crossing test, the mean of the crossing points of a cell where the walk finds one lies in the unit cube |
| SurfaceNetsCell.WalkResult | Source/UE5VoxelTutorial/Private/Voxel/Chunk/SurfaceNets.cpp:167-174 | Under either crossing test: whether the walk stops after the diagonals with three crossings or runs through all sixteen edges, its mean is the surface point and its count is positive |
| SurfaceNetsCell.AsWrittenPointWithoutZeros | Source/UE5VoxelTutorial/Private/Voxel/Chunk/SurfaceNets.cpp:160-174 | For a mixed cell with no corner exactly 0.0, the walk as written finds a crossing, and its surface point equals the one under the sign-bit test |
| SurfaceNetsCell.MeanInUnitCube | Source/UE5VoxelTutorial/Private/Voxel/Chunk/SurfaceNets.cpp:174-174 | A sum of n ≥ 1 points of the unit cube divided by n lies in the unit cube |
| SurfaceNetsMesh.Quad | Source/UE5VoxelTutorial/Private/Voxel/Chunk/SurfaceNets.cpp:107-131 | A quad is empty or six indices starting each triangle with the cell's own vertex. It is empty for cells on the low faces |
| SurfaceNetsMesh.CellTriangles | Source/UE5VoxelTutorial/Private/Voxel/Chunk/SurfaceNets.cpp:105-132 | A cell emits whole quads (length a multiple of 6, at most 18), and none when it has no vertex or lies on a low face |
| SurfaceNetsMesh.TableRecord | Source/UE5VoxelTutorial/Private/Voxel/Chunk/SurfaceNets.cpp:80-94 | Writing the cell's vertex number (or −1) keeps the table correct for every cell scanned so far |
| SurfaceNetsMesh.TableLookup | Source/UE5VoxelTutorial/Private/Voxel/Chunk/SurfaceNets.cpp:122-124 | For a cell already scanned, the table entry at its index is its vertex number, or −1 when it has none |
| SurfaceNetsMesh.QuadReadsInRange | Source/UE5VoxelTutorial/Private/Voxel/Chunk/SurfaceNets.cpp:111-124 | Once the three position guards pass, the three table reads are inside the buffer |
| SurfaceNetsMesh.NeighbourIndices | Source/UE5VoxelTutorial/Private/Voxel/Chunk/SurfaceNets.cpp:122-124 | The three table reads are at the indices of the cells one step back along the other two axes, and both |
| SurfaceNetsMesh.QuadFromTable | Source/UE5VoxelTutorial/Private/Voxel/Chunk/SurfaceNets.cpp:122-130 | The six indices emitted from the table reads and the winding swap are the reference quad |
| SurfaceNetsMesh.QuadSkipped | Source/UE5VoxelTutorial/Private/Voxel/Chunk/SurfaceNets.cpp:109-120 | A clear flag or a failing position guard emits no quad |
| SurfaceNetsMesh.AllQuads | Source/UE5VoxelTutorial/Private/Voxel/Chunk/SurfaceNets.cpp:105-132 | The quads of the three axes together are the cell's triangles |
| SurfaceNetsMesh.AppendVisit | Source/UE5VoxelTutorial/Private/Voxel/Chunk/SurfaceNets.cpp:102-130 | Visiting a cell after an existing mesh gives the existing mesh followed by the visit |
| SurfaceNetsMesh.RankBelow | Source/UE5VoxelTutorial/Private/Voxel/Chunk/SurfaceNets.cpp:93-95 | A cell scanned before a scan position has a rank, plus its own vertex, of at most the count there |
| SurfaceNetsMesh.SharedEdgeHasVertex | Source/UE5VoxelTutorial/Private/Voxel/Chunk/SurfaceNets.cpp:107-124 | A cell containing an edge whose ends differ in sign has a vertex |
| SurfaceNetsMesh.QuadGeometry | Source/UE5VoxelTutorial/Private/Voxel/Chunk/SurfaceNets.cpp:114-124 | The three neighbours behind a quad are cells scanned earlier, and each contains the cell's edge along the quad's axis |
| SurfaceNetsMesh.QuadNeighboursHaveVertices | Source/UE5VoxelTutorial/Private/Voxel/Chunk/SurfaceNets.cpp:109-124 | When the flag of an axis is set and the guards pass, all three neighbour cells have vertices, so the table reads never give −1 |
| SurfaceNetsMesh.EarlierVertexId | Source/UE5VoxelTutorial/Private/Voxel/Chunk/SurfaceNets.cpp:93-95 | A cell below and behind another with a vertex has a vertex number below the other's rank |
| SurfaceNetsMesh.QuadNeighbourIds | Source/UE5VoxelTutorial/Private/Voxel/Chunk/SurfaceNets.cpp:122-124 | The vertex numbers read for a quad are those of earlier vertices |
| SurfaceNetsMesh.QuadIndicesValid | Source/UE5VoxelTutorial/Private/Voxel/Chunk/SurfaceNets.cpp:122-130 | Every index a quad emits names a vertex numbered at most the cell's own |
| SurfaceNetsMesh.CellTrianglesValid | Source/UE5VoxelTutorial/Private/Voxel/Chunk/SurfaceNets.cpp:107-131 | Every index a cell emits names a vertex numbered at most the cell's own |
| SurfaceNetsMesh.VisitKeepsWellFormed | Source/UE5VoxelTutorial/Private/Voxel/Chunk/SurfaceNets.cpp:91-133 | Visiting a cell keeps the mesh well formed: one normal per vertex, whole triangles, every index naming an existing vertex |
| SurfaceNetsMesh.MeshBeforeWellFormed | Source/UE5VoxelTutorial/Private/Voxel/Chunk/SurfaceNets.cpp:74-137 | Every prefix of the scan produces a well-formed mesh whose vertex count is the number of mixed cells in the prefix |
| SurfaceNetsMesh.MeshWellFormed | Source/UE5VoxelTutorial/Private/Voxel/Chunk/SurfaceNets.cpp:55-138 | The mesh of a grid has one vertex and one normal per mixed cell, a triangle list whose length is a multiple of 3, and every index below the vertex count |
| SurfaceNetsMesh.AllOutsideGivesEmptyMesh | Source/UE5VoxelTutorial/Private/Voxel/Chunk/SurfaceNets.cpp:55-138 | A grid with no inside sample gives an empty mesh |
| SurfaceNetsMesh.NoVertexBefore | Source/UE5VoxelTutorial/Private/Voxel/Chunk/SurfaceNets.cpp:74-91 | With no inside sample, every scan prefix gives an empty mesh |
| VoxelFunctionLibrary.TruncDivBounds | Source/UE5VoxelTutorial/Private/Voxel/Utils/VoxelFunctionLibrary.cpp:6-9 | Integer division truncates toward zero: q·d ≤ x < q·d + d for x ≥ 0, and q·d − d < x ≤ q·d for x < 0 |
| VoxelFunctionLibrary.TruncDivUnique | Source/UE5VoxelTutorial/Private/Voxel/Utils/VoxelFunctionLibrary.cpp:6-9 | Those bounds determine the truncating quotient uniquely |
| VoxelFunctionLibrary.TruncDivNegate | Source/UE5VoxelTutorial/Private/Voxel/Utils/VoxelFunctionLibrary.cpp:6-9 | Truncating division commutes with negation |
| VoxelFunctionLibrary.TruncDivTwice | Source/UE5VoxelTutorial/Private/Voxel/Utils/VoxelFunctionLibrary.cpp:13-15 | Dividing by BlockSize and then by Size is dividing by Size·BlockSize |
| VoxelFunctionLibrary.ChunkCoordNonNegative | Source/UE5VoxelTutorial/Private/Voxel/Utils/VoxelFunctionLibrary.cpp:32-39 | For a non-negative coordinate the chunk c is ≥ 0 and c·Factor ≤ x < c·Factor + Factor |
| VoxelFunctionLibrary.ChunkCoordNegative | Source/UE5VoxelTutorial/Private/Voxel/Utils/VoxelFunctionLibrary.cpp:32-39 | For a negative coordinate the chunk is the floor quotient, except at exact multiples where it is one lower |
| VoxelFunctionLibrary.ChunkAtNegativeMultiple | Source/UE5VoxelTutorial/Private/Voxel/Utils/VoxelFunctionLibrary.cpp:32-39 | The coordinate −k·Factor, the first point of chunk −k, is mapped to chunk −k − 1 |
| VoxelFunctionLibrary.LocalCoordInRange | Source/UE5VoxelTutorial/Private/Voxel/Utils/VoxelFunctionLibrary.cpp:11-23 | The local coordinate lies in [0, Size). The chunk is negative exactly for a negative coordinate. chunk·Size + local is the block coordinate, one less for a negative coordinate |
| VoxelFunctionLibrary.LocalCoordNonNegative | Source/UE5VoxelTutorial/Private/Voxel/Utils/VoxelFunctionLibrary.cpp:13-15 | For a non-negative coordinate the chunk and local coordinates are the quotient and remainder of the block coordinate by Size |
| VoxelFunctionLibrary.WorldToBlockPosition | Source/UE5VoxelTutorial/Private/Voxel/Utils/VoxelFunctionLibrary.cpp:6-9 | Each component is the truncating quotient by BlockSize, stated by its bounds |
| VoxelFunctionLibrary.WorldToChunkPosition | Source/UE5VoxelTutorial/Private/Voxel/Utils/VoxelFunctionLibrary.cpp:25-42 | Each component satisfies the chunk bounds for a non-negative coordinate and the floor-or-one-lower rule for a negative coordinate |
| VoxelFunctionLibrary.WorldToLocalBlockPosition | Source/UE5VoxelTutorial/Private/Voxel/Utils/VoxelFunctionLibrary.cpp:11-23 | Every component lies in [0, Size). Chunk·Size + local reassembles the block position, one less on negative axes |

## Left out

- Generate2DHeightMap and Generate3DHeightMap (SurfaceNets.cpp:22-53) fill the buffer from a noise library. The noise library is not part of this model. The model takes whatever densities the buffer holds.
- Floating point is modelled with reals. IEEE rounding, NaN, infinities and −0.0 are not modelled. The corner mask reads the IEEE sign bit; the model treats a value as inside when it is < 0, so −0.0 (inside in the source) and NaN are not covered.
- SurfaceNets.ASurfaceNets.ComputeSDFSurface leaves out `OutNormal.Normalize()`. The normal is the unnormalised finite-difference vector.
- `FMath::Sqrt` is a function parameter of ModifyVoxelData. The brush lemmas assume what they need of it: BrushCentre needs sqrt(0) = 0, BrushBounds needs it non-negative, and BrushSupport and BrushAsymmetryHarmless need it to be the square root.
- The Unreal actor, the procedural mesh component and the chunk base class (mesh upload, materials, the noise seed) are left out. `MeshData`, `VertexCount`, `Size` and `BlockSize` are fields of the class.
- The block kinds are collapsed to `Air` and one other kind. The edit only tells Air apart from the rest.
- SurfaceNets.ASurfaceNets.ModifyVoxelData edits only its own chunk, as the source does. Edits that cross a chunk border are not propagated.
- SurfaceNets.ASurfaceNets.Setup requires Size ≥ 0. A negative size would make the buffer size meaningless.
- `int32` overflow of indices, counts and coordinates is not modelled. Integers are unbounded.
- The coordinate helpers take integer positions, an integer BlockSize > 0 and a Size > 0. The float-to-int conversions of fractional positions and a fractional BlockSize are not modelled.
- SurfaceNets.ASurfaceNets.ComputeSDFSurface requires the walk to find at least one crossing. The source divides 0 by 0 (a NaN position) otherwise, and that case is the finding below.
- SurfaceNets.ASurfaceNets.GenerateMesh, SurfaceNets.ASurfaceNets.AddCellVertex, SurfaceNets.ASurfaceNets.VisitCell and SurfaceNets.ASurfaceNets.MeshRow (through SurfaceNetsMesh.CellVertex) call the edge walk with the sign-bit test, not the product test that line 160 writes (see Findings). Their vertex positions therefore differ from the program's on cells with a corner exactly 0.0 next to a corner of the other sign. For example, the cube (−1, 0, 1, 1, 1, 1, 1, 1) has 3 crossings under the product test, with mean (1/6, 1/3, 1/3), and 4 under the sign-bit test, with mean (3/8, 1/4, 1/4). Exact zeros do occur: Setup fills new samples with 0.0, which a chunk meshed before or without a height-map pass keeps, and an edit leaves such samples at the rim of the brush. On cells without a zero corner the two agree (SurfaceNetsCell.AsWrittenPointWithoutZeros).
- SurfaceNets.ASurfaceNets.WalkEdge, SurfaceNetsCell.WalkStep, SurfaceNetsCell.SurfacePoint and SurfaceNetsCell.WalkResult model the product test as written when given StrictProduct. Inside the scan they are used with SignBits, as in the line above.
- SurfaceNets.ASurfaceNets.GenerateMesh appends to the existing mesh data, as the code does. It does not reset the mesh first.

## Findings

| source | as written | input that shows it | evidently intended | confidence | as-written member | corrected member |
|---|---|---|---|---|---|---|
| Source/UE5VoxelTutorial/Private/Voxel/Chunk/SurfaceNets.cpp:160-174 | An edge counts as a crossing only when `SDF0 * SDF1 < 0`. A cell is meshed whenever the sign-bit mask is mixed, and a corner exactly 0.0 is outside for the mask but gives product 0 on every edge. A mixed cell can then have no crossing, and line 174 divides by zero | cube (−1, 0, 0, 0, 0, 0, 0, 0): mask 1 is mixed, every edge product is −0 or 0, count 0 | An edge crosses when its ends differ in sign, the same test as the mask, so every mixed cell has a crossing and a defined mean | not executed | SurfaceNetsCell.StrictProductMissesZeroCorners | SurfaceNetsCell.SignBitsCountPositive (the test GenerateMesh passes to ComputeSDFSurface) |
