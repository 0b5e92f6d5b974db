# A verified model of resdata's grid layers, grid indexing and keyword files

resdata reads and writes the files of a reservoir simulator. This project models the parts of it that are exact
combinatorics and exact index arithmetic, and proves what they promise. It is in four parts.

**Layers of cells** (`Cells`, `Reachability`, `Slices`, `Layer`, `FloodFill`, `BlockTrace`, `Staircase`, `Barriers`,
`Separation`, `Contact`, `BoundaryWalk`, `BoundaryLoop`, `EdgeTrace`, `SliceIndex`, `FaultBlocks`, `Labelling`,
`FaultBlockScan`, `FaultBlockKeywords`, `FaultBlockRuns`). A layer is an object: an array of cells, updated in place, with
four cached edge values for each cell, barrier flags, and a cached sum. Its class invariant says that the sum is the sum of
the interior cells and that an edge is never anything but zero or the value of its cell. On it work two flood fills, a walk
along the boundary of a block that is steered by the cached edges, a greedy staircase that lays a barrier along a slanted
line, and a labeller that fills a store of blocks. The flood fills are exact; a barrier from side to side separates, and
leaves both its sides whole; the boundary of a block is traced just when all its sides are cached, which they are as long as
the edges are exact; labels are connected components.

**Grids** (`ActiveIndex`, `CoarseCells`, `GridIndex`, `Compression`, `Zcorn`, `GridGeometry`, `Polygon`, `PointLocation`,
`ConvexCells`). The numbering of the active cells with coarse groups and the maps between cells and active indices; copies
between keywords over all cells and over the active cells; the place of each corner in the ZCORN array; and the search for
the cell that holds a point, by halving, which never loses the point; a cell with convex corners holds what lies within its
four lines.

**Keyword files** (`Bytes`, `FortranIO`, `KeywordTypes`, `Keywords`, `KeywordIO`, `RandomAccess`, `FileKeywords`,
`FileLayout`, `FileViews`, `FileScan`, `FileIndex`, `Packing`, `Unpacking`). A file is a sequence of bytes with a position.
Fortran records, keywords written in blocks, skipping and seeking, the scan of a file and of any part of it, saving one
keyword in place, block views, the saved index, and packing and unpacking of restart files. Reading gives back what was
written, byte for byte; and what stands where in a file is said byte by byte, apart from the functions that write and read
it.

**Region repair** (`RepairRules`, `RepairOrder`, `RegionRepair`). The worklist that fills uninitialised cells from
neighbours that agree; its rounds leave just one result.

Code that works step by step on fields or arrays is modelled by classes and methods with loops, proved against
specification functions; the lemmas then say what those functions mean. `Arithmetic` holds the few facts about division and
multiplication that are needed, `Prelude` what the modules share.

Doubles are modelled as real numbers. In the staircase loop the distance is compared without its common divisor, the square
root of a sum of squares (`Staircase.CommonFactor`). Integers are unbounded, except where a file holds them in four or eight
bytes. Exceptions and calls that end the program are results (`ok == false`, `None`, `Refused` and the like). A host with
the least significant byte first is assumed, as the header of the original assumes it.

What was found on the way, each with an exact statement:

- The cached edges stay exact when a cell is overwritten just when no neighbour had its old value
  (`Slices.CellSetKeepsExactEdges`). Otherwise edges are missing. The trace round a block is the true walk just when every
  side of that walk still has its edge (`EdgeTrace.TraceIsTrueWalk`), and it ends at all just when it comes to no side again
  (`EdgeTrace.TraceEndsUnlessItCircles`). After three writes it runs out of the layer (`EdgeTrace.StaleEdgeBreaksWalk`),
  after four it goes round for ever (`EdgeTrace.StaleEdgeTrapsWalk`).
- The boundary walk stops when it is back at its first corner. That closes the whole loop unless the block is pinched there
  and the two cells that touch at that corner are connected inside the block (`BoundaryLoop.WholeLoop`;
  `BoundaryLoop.PinchStopsWalk` is a block where it only goes round a hole). Started at the first cell of a scanned block it
  always closes the loop (`FaultBlockKeywords.TraceEdge`, `FaultBlockScan.ScannedBlockStartsFirst`).
- Reading single elements of a string keyword flips their bytes: strings of four or eight characters come out back to front,
  one of two characters loses one, and other lengths but one stop the program
  (`RandomAccess.StringsAreNotSelectivelyReadable`). When the result is that of a full read is said by
  `RandomAccess.SelectionIsFullRead`.
- A saved index cuts a keyword name at its first space (`FileIndex.SpaceCutsName`), so the same entries come back just when
  no name has a space inside (`FileIndex.SaveAndLoad`).
- The scan of a file that may be written also lists a keyword of which only the header is there, which then cannot be loaded
  (`FileScan.HeaderOnlyIsListed`); a file that is only read lists just the whole ones (`FileScan.ScanOfPrefix`,
  `FileScan.CountsWholeKeywords`, `FileScan.PrefixEntryLoads`).
- Copies between keywords over all cells and over the active cells work just when no coarse group that is on has more than
  one cell (`Compression.CopyNeedsSingleCellGroups`); otherwise they stop at an index out of range
  (`Compression.PairIsNotCopied`).

## Model

| member | source | states |
|---|---|---|
| Layers.Layer.constructor | lib/resdata/layer.cpp:70-89 | a new layer satisfies the class invariant: sum zero, no edges, no barriers |
| Layers.Layer.SetCellValue | lib/resdata/layer.cpp:120-165 | writes one value, refreshes the four edges of the cell and cancels those of agreeing neighbours, keeps the sum equal to the sum of the cells |
| Slices.CellSetKeepsLooseEdges | lib/resdata/layer.cpp:120-165 | after any write every edge is zero or the signed value of its cell, and zero between cells that agree |
| Slices.CellSetKeepsExactEdges | lib/resdata/layer.cpp:120-165 | from exact edges, a write keeps them exact if and only if it does not take the cell away from a neighbour that had its nonzero value |
| Slices.TotalUpdate | lib/resdata/layer.cpp:120-123 | changing one cell changes the sum of the interior cells by the difference |
| Layers.Layer.Assign | lib/resdata/layer.cpp:584-593 | every interior cell gets the value and no edges, barriers stay, the sum is right again |
| Layers.Layer.Memcpy | lib/resdata/layer.cpp:573-582 | the layer becomes the other one with its sum; a layer of another size is refused and nothing changes |
| Layers.Layer.CellContact | lib/resdata/layer.cpp:477-492 | two cells are in contact if and only if they share a side without a barrier |
| Layers.Layer.ReplaceCellValues | lib/resdata/layer.cpp:450-463 | exactly the cells with the old value change, and the count is their number |
| FloodFill.UpdateConnectedCells | lib/resdata/layer.cpp:597-622 | recolours precisely the cells of the old value that can be reached without crossing a barrier; barriers stay and the sum is kept |
| BlockTrace.BlockTracer.Visit | lib/resdata/layer.cpp:386-427 | the recursion lists the cells still white in the order of the specification, erasing them or not |
| BlockTrace.BlockOrderIsComponent | lib/resdata/layer.cpp:386-427 | the listing holds each cell of the connected component once and no other cell |
| BlockTrace.OrderOfNeighbours | lib/resdata/layer.cpp:386-427 | neighbours are listed in the order left, right, below, above |
| BlockTrace.TraceBlockContent | lib/resdata/layer.cpp:429-448 | lists the component of a nonzero cell, the same list whether or not it is erased; erasing zeroes exactly the listed cells |
| Staircase.OffsetsCompare | lib/resdata/layer.cpp:531-571 | comparing the two distances from the line is comparing two integer cross products |
| Staircase.CommonFactor | lib/resdata/layer.cpp:531-536 | a common positive divisor does not change which distance is smaller |
| Staircase.StepRule | lib/resdata/layer.cpp:552-569 | the greedy step overshoots in neither direction and keeps twice the cross product within width plus height |
| Staircase.NextMeaning | lib/resdata/layer.cpp:552-569 | a step goes to the corner that is less far above or below the line, and across if both are equally far |
| Staircase.StaircaseFollowsLine | lib/resdata/layer.cpp:538-571 | the staircase reaches the end corner in exactly width plus height unit steps, stays in the rectangle of the line and near the line, for all four directions |
| Barriers.AddIjBarrier | lib/resdata/layer.cpp:494-515 | sets exactly the barrier flags of a straight segment; a segment that is not straight is refused |
| Barriers.AddBarrier | lib/resdata/layer.cpp:517-526 | the same between two numbered corners |
| Barriers.CornerInRange | lib/resdata/layer.cpp:517-526 | a corner number is taken apart into a corner of the layer, and back |
| Barriers.CornersFollowOrder | lib/resdata/layer.cpp:517-526 | the numbers of corners follow their order row by row |
| Barriers.AddInterpBarrier | lib/resdata/layer.cpp:538-571 | the loop ends and sets exactly the flags of the unit segments of the staircase, and nothing else |
| Barriers.WithWallsKeeps | lib/resdata/layer.cpp:494-515 | barriers touch neither values nor edges, and the flags are those before with the new ones |
| Separation.LinkedOnSameSide | lib/resdata/layer.cpp:477-571 | no two cells in contact lie on different sides of a line of walls that goes from left to right |
| Separation.NoContactAcross | lib/resdata/layer.cpp:477-571 | after a barrier from one side of the layer to the opposite one, no pair of cells in contact straddles it |
| Separation.SidesOfBarrier | lib/resdata/layer.cpp:538-571 | cells past both ends of the barrier are on one side of it, cells before both ends on the other |
| Separation.BarrierSeparates | lib/resdata/layer.cpp:538-622 | a flood fill started on one side of such a barrier changes no cell on the other side |
| Contact.NewLayerContact | lib/resdata/layer.cpp:477-493 | in a new layer exactly the cells at distance one are in contact |
| Contact.SegmentContact | lib/resdata/layer.cpp:477-515 | after a straight barrier adjacent cells are in contact if and only if they were before and not both corners of their common side lie in the rectangle of the barrier |
| Contact.PathContact | lib/resdata/layer.cpp:477-571 | the same after a barrier along a path of segments |
| Contact.ContactAfterBarrier | lib/resdata/layer.cpp:477-571 | after a barrier from side to side, straight or a staircase, adjacent cells are in contact if and only if they were before and lie on the same side of it |
| Contact.OwnSideConnected | lib/resdata/layer.cpp:538-571 | each side of such a barrier is connected |
| Contact.FillTakesOwnSide | lib/resdata/layer.cpp:538-622 | after such a barrier across a layer of one value without other barriers, the fill recolours exactly the cells on its own side |
| Contact.StraightBarrierFill | lib/resdata/layer.cpp:495-622 | for a straight barrier across a new layer these are the rows, or the columns, on the side of the start |
| BoundaryWalk.SuccessorIsBoundary | lib/resdata/layer.cpp:215-324 | every boundary side is followed by a boundary side that starts where it ends |
| BoundaryWalk.SideOfCell | lib/resdata/layer.cpp:227-256 | a side joins the two corners that its cell shares with the cell across it, and has its cell on the left |
| BoundaryWalk.PredecessorOfSuccessor | lib/resdata/layer.cpp:215-324 | a boundary side is determined by the one that follows it: the walk never merges |
| BoundaryWalk.TrueWalk | lib/resdata/layer.cpp:215-324 | from every boundary side there is a walk along the boundary that closes at its first corner without repeating a side |
| BoundaryLoop.SameInComponent | lib/resdata/layer.cpp:227-324 | all cells of a block lie on the same side of a closed walk: each has the same parity of upright sides to its left |
| BoundaryLoop.PinchedApart | lib/resdata/layer.cpp:227-324 | where a walk is back at a pinched corner on its own cell, the opposite cell lies on its other side |
| BoundaryLoop.WholeLoop | lib/resdata/layer.cpp:227-324 | stopping at the first corner closes the whole boundary loop if and only if the block is not pinched there or the two cells that touch at the corner are not connected inside the block |
| BoundaryLoop.FirstCellIsNotPinched | lib/resdata/layer.cpp:339-384 | the first cell with a value, in row order, has its lower side on the boundary and is not pinched |
| BoundaryLoop.LowestRowIsNotPinched | lib/resdata/layer.cpp:339-384 | a lower or right side in the lowest row of a block does not start at a pinched corner |
| BoundaryLoop.PinchStopsWalk | lib/resdata/layer.cpp:227-324 | a block and a start for which the walk closes after going round a hole only |
| EdgeTrace.CachedSideSteers | lib/resdata/layer.cpp:227-324 | on any layer the cached values lead on along the boundary if and only if the side that follows is cached |
| EdgeTrace.ExactIsCached | lib/resdata/layer.cpp:120-165 | with exact edges every boundary side is cached |
| EdgeTrace.StepAlong | lib/resdata/layer.cpp:227-324 | tries the three sides in the order left, straight on, right, and fails where the original throws |
| EdgeTrace.ReadEdge | lib/resdata/layer.cpp:167-198 | which edge values can be read, and what they are |
| EdgeTrace.CellOnEdge | lib/resdata/layer.cpp:200-204 | a cell is on the edge if and only if one of its cached edges shows its value |
| EdgeTrace.ShowsOnLooseEdges | lib/resdata/layer.cpp:120-204 | on any layer a cell is on the edge if and only if its lower or right side is cached |
| EdgeTrace.FindEdge | lib/resdata/layer.cpp:326-337 | goes right to the first cell that is on the edge, whatever its value; fails if and only if the row ends before |
| EdgeTrace.TraceFrom | lib/resdata/layer.cpp:227-324 | lists the trace that the edges steer, and throws if and only if it does not come back to its first corner |
| EdgeTrace.TraceIsChain | lib/resdata/layer.cpp:227-324 | on any layer each side of a trace is a boundary side and begins where the one before it ends |
| EdgeTrace.TraceEndsUnlessItCircles | lib/resdata/layer.cpp:227-324 | on any layer a trace ends if and only if it does not come to a side again before its first corner |
| EdgeTrace.TraceIsTrueWalk | lib/resdata/layer.cpp:227-324 | on any layer the trace from a cached side is the true closed walk if and only if all sides of that walk are cached |
| EdgeTrace.StartSideIsBoundary | lib/resdata/layer.cpp:326-384 | on any layer a trace starts at a cached lower or right side of a cell with the value, in the row of the given cell |
| EdgeTrace.TraceBlockEdge | lib/resdata/layer.cpp:339-384 | refuses a cell of another value; otherwise lists the trace from the first side that shows, and throws if and only if there is none or the trace does not close |
| EdgeTrace.CachedAroundTraces | lib/resdata/layer.cpp:339-384 | if the sides of the true walk from the start are cached, the trace ends without an error and is a closed boundary walk |
| EdgeTrace.ExactIsCachedAround | lib/resdata/layer.cpp:339-384 | with exact edges this is so from every cell |
| EdgeTrace.ExactStart | lib/resdata/layer.cpp:326-384 | with exact edges the trace starts in the component of the cell, at its lower side if that is on the boundary |
| EdgeTrace.TraceIsClosedChain | lib/resdata/layer.cpp:339-384 | the corners of such a trace are a closed chain of unit steps and its cells lie in one connected component |
| EdgeTrace.StaleEdgeBreaksWalk | lib/resdata/layer.cpp:120-165 | a concrete run of three writes after which the trace finds no next side |
| EdgeTrace.StaleEdgeTrapsWalk | lib/resdata/layer.cpp:120-165 | a concrete run of four writes after which no trace from the first cell ever ends |
| SliceIndex.GlobalIndexInjective | lib/resdata/rd_grid.cpp:1336-1339 | different cells have different numbers |
| SliceIndex.IjkRoundTrip | lib/resdata/rd_grid.cpp:3738-3745 | the cell found by its number is the cell that was numbered |
| SliceIndex.GlobalIndexOfIjk | lib/resdata/rd_grid.cpp:3738-3745 | every number below the size of the grid belongs to a cell of the grid |
| SliceIndex.GlobalIndexFollowsOrder | lib/resdata/rd_grid.cpp:1336-1339 | numbers follow the order of slices, rows and columns |
| FaultBlocks.FaultBlock.AddCell | lib/resdata/fault_block.cpp:29-40 | appends the cell to the three lists and marks it in the layer; a detached block refuses |
| FaultBlocks.FaultBlockLayer.AddBlock | lib/resdata/fault_block_layer.cpp:69-82 | adds an empty block unless the id is taken; the id map and the block list stay inverse, other ids find the same blocks, and the id joins the ids ever used |
| FaultBlocks.FaultBlockLayer.GetBlock | lib/resdata/fault_block_layer.cpp:214-220 | finds the block with the id, or null |
| FaultBlocks.FaultBlockLayer.SafeGetBlock | lib/resdata/fault_block_layer.cpp:223-229 | finds the block with the id, adding an empty one if there is none; the id joins the ids ever used and no other does |
| FaultBlocks.FaultBlockLayer.NextId | lib/resdata/fault_block_layer.cpp:248-253 | the id is in none of the ids ever used, which every operation on the store only adds to |
| FaultBlocks.FaultBlockLayer.RemoveBlock | lib/resdata/fault_block_layer.cpp:37-48 | after erasing and shifting, the map and the list are inverse again and every other id finds the same block |
| FaultBlockScan.ScanLayer | lib/resdata/fault_block_layer.cpp:84-106 | scans row by row, one new block for each component with consecutive new ids, and leaves the work layer all zero |
| FaultBlockScan.MakeWorkLayer | lib/resdata/fault_block_layer.cpp:124-150 | positive values are copied, all others become one value above the largest, so no cell stays zero |
| FaultBlockScan.ScanKw | lib/resdata/fault_block_layer.cpp:124-155 | refuses a wrong type or size without a change; otherwise the result of the scan of the work layer |
| Labelling.LabelsAreComponents | lib/resdata/fault_block_layer.cpp:84-106 | two nonzero cells have the same label if and only if they are connected through cells of their value |
| Labelling.LabelsFollowFirstCells | lib/resdata/fault_block_layer.cpp:84-106 | labels are given out in the row order of the first cells of the blocks |
| FaultBlockScan.ScannedKwIsLabelled | lib/resdata/fault_block_layer.cpp:124-155 | after a scan of a keyword every cell has a new positive id, equal for two cells if and only if they are connected through equal work values |
| FaultBlockScan.ScannedCellInOneBlock | lib/resdata/fault_block_layer.cpp:124-155 | each cell is in the list of exactly the block that its label names, once |
| FaultBlockScan.ScannedBlockStartsFirst | lib/resdata/fault_block_layer.cpp:84-155 | the first cell in the list of a new block comes before all other cells with its label, in row order |
| FaultBlockKeywords.LoadKw | lib/resdata/fault_block_layer.cpp:163-187 | every positive id marks its cell; the list of each block grows by exactly the cells with its id in row order; exactly these ids join the ids used; on an empty layer the edges stay exact |
| FaultBlockKeywords.LoadedLists | lib/resdata/fault_block_layer.cpp:163-187 | in a layer without blocks, there is then a block for exactly the ids that occur, and its list holds exactly the cells with the id, each once, in row order |
| FaultBlockKeywords.Export | lib/resdata/fault_block_layer.cpp:272-288 | the slice of the keyword becomes the labels of the layer and no other entry changes |
| FaultBlockKeywords.InsertBlockContent | lib/resdata/fault_block_layer.cpp:265-270 | a new block with an id never used before holds the cells of the source and marks exactly those; its id joins the ids used |
| FaultBlockKeywords.TraceEdge | lib/resdata/fault_block.cpp:110-137 | the trace for the first cell of the block; if the sides of the true walk are cached it is that closed walk, the whole loop if no cell of the block comes before the first one; a detached block refuses, a cell of another value gives nothing |
| FaultBlockKeywords.ExactEdgesTrace | lib/resdata/fault_block.cpp:110-137 | with exact edges the sides are cached, and the walk starts in the component of the first cell, at its lower side if that is on the boundary |
| FaultBlockRuns.Run | lib/resdata/fault_block_layer.cpp:37-82 | over any run of adding, safe getting, deleting, inserting and asking for ids, an id that the store gives out was used neither before the run nor by any earlier operation of it |
| Polygons.Polygon.Close | lib/geometry/geo_polygon.cpp:62-66 | repeats the first point at the end |
| Polygons.Polygon.Contains | lib/geometry/geo_polygon.cpp:68-138 | on the boundary (if that counts), or crossed an odd number of times by the ray from the point |
| Polygons.CrossesMeaning | lib/geometry/geo_polygon.cpp:113-133 | a segment is crossed if and only if its ends lie on different sides of the height of the point, an end at that height counting as above, and it has a point at that height that is not to the left |
| Polygons.OnEdgeMeaning | lib/geometry/geo_polygon.cpp:68-92 | a point is on an edge if and only if it divides the segment in a ratio between zero and one |
| Polygons.SegmentSymmetric | lib/geometry/geo_polygon.cpp:68-138 | neither the edge test nor the crossing test depends on the direction of a segment |
| PointLocation.SublayerContains | lib/resdata/rd_grid.cpp:3519-3558 | tests the point against the outline of a box of cells |
| PointLocation.HalvesOfColumns | lib/resdata/rd_grid.cpp:3574-3584 | the crossing parity of a box is the exclusive or of those of its halves, and its outline lies on theirs |
| PointLocation.HalvesOfRows | lib/resdata/rd_grid.cpp:3586-3596 | the same for the rows |
| PointLocation.BoxParityIsSum | lib/resdata/rd_grid.cpp:3560-3608 | the crossing parity of a box is the sum of those of its cells, whatever their shape |
| PointLocation.GetIjFromXy | lib/resdata/rd_grid.cpp:3560-3608 | ends, never fails with the point nowhere to be found, and returns a cell in range that holds the point |
| ConvexCells.ConvexCellHolds | lib/geometry/geo_polygon.cpp:94-138 | a cell with convex corners, named either way round, holds a point if and only if the point lies on no outer side of its four lines |
| PointLocation.HeldByNoCell | lib/resdata/rd_grid.cpp:3560-3608 | a point that no cell holds is reported as outside |
| RepairRules.NewValueMeaning | lib/resdata/rd_kw_functions.cpp:50-110 | the new value is positive exactly when all neighbours with a value agree on it |
| RepairRules.StuckStays | lib/resdata/rd_kw_functions.cpp:22-123 | a cell that is dropped from the worklist stays without an agreed value, so pruning is sound |
| RegionRepair.FixUninitialized | lib/resdata/rd_kw_functions.cpp:22-123 | ends; changes no nonzero or inactive cell; every filled cell is joined by an active path of its value to a cell that had it at the start; no cell is left whose neighbours agree on a positive value; the cells are filled in rounds, each of them row by row |
| RepairOrder.OrderGivesOneResult | lib/resdata/rd_kw_functions.cpp:22-123 | filling in rounds, row by row, each cell in the first round in which it has a neighbour with a value, leaves at most one result |
| RepairOrder.SweepFills | lib/resdata/rd_kw_functions.cpp:41-110 | the cell at the cursor is filled in its turn, and no cell before it is affected |
| RepairRules.RepairedNonNegative | lib/resdata/rd_kw_functions.cpp:22-123 | without negative values, an active zero cell that is left has no active neighbour with a value, or two that disagree |
| CoarseCells.CoarseCell.UpdateIndex | lib/resdata/rd_coarse_cell.cpp:238-266 | the first active cell of a group gives it its index; later ones join; differing active values are refused |
| CoarseCells.UniformMore | lib/resdata/rd_coarse_cell.cpp:256-266 | comparing with the last active cell of the group only is comparing with all of them |
| GridIndex.Grid.InitCoarseCells | lib/resdata/rd_grid.cpp:1681-1705 | every group lists exactly its cells in ascending order; a number without cells has no group |
| GridIndex.Grid.SetActiveIndex | lib/resdata/rd_grid.cpp:1560-1673 | succeeds if and only if all groups are uniform; then every active cell has its number or that of its group, and the totals are right; with single porosity and no groups fracture cells get none |
| GridIndex.Grid.ReallocIndexMap | lib/resdata/rd_grid.cpp:1472-1553 | both passes together write the whole map and the whole inverse map, for the matrix and for the fractures |
| GridIndex.Grid.UpdateIndex | lib/resdata/rd_grid.cpp:1675-1678 | numbering and map building together give the maps of a freshly built grid; without coarse groups the matrix indices count the cells of active value 1 or 3 and the fracture indices those of 2 or 3, and no other cell has one |
| GridIndex.IndicesCountOut | lib/resdata/rd_grid.cpp:1472-1581 | without coarse groups the index of a cell is the number of cells of its kind before it |
| ActiveIndex.SumOfBits | lib/resdata/rd_grid.cpp:1479-1482 | an active value is the sum of its bits, one for the matrix and two for the fractures |
| GridIndex.MapsAreInverse | lib/resdata/rd_grid.cpp:1472-1678 | the inverse map is strictly increasing and undone by the map; cells share an index if and only if they are of one group; a cell has an index if and only if it or its group is active; the total counts ungrouped active cells and active groups |
| GridIndex.FirstOfGroup | lib/resdata/rd_grid.cpp:1472-1678 | the cell that the inverse map names for a group is its first active one |
| ActiveIndex.CountReps | lib/resdata/rd_grid.cpp:1595-1650 | the number of indices is the number of ungrouped active cells plus the number of active groups |
| Compression.CompressedKwCopy | lib/resdata/rd_grid.cpp:5017-5034 | wrong sizes are refused; otherwise the values of the active cells in order, or an index out of range |
| Compression.GlobalKwCopy | lib/resdata/rd_grid.cpp:5036-5053 | the values go to the active cells in order and no other cell changes |
| Compression.AllocScatterCopy | lib/resdata/rd_kw.cpp:1678-1725 | each value goes to its mapped place in a keyword filled with the default |
| Compression.AllocGlobalCopy | lib/resdata/rd_kw.cpp:1727-1757 | null if and only if the number of values is not the number of active cells; otherwise the values at the active cells |
| Compression.CompressAfterExpand | lib/resdata/rd_grid.cpp:5017-5053 | compressing what was expanded is the identity |
| Compression.ExpandAfterCompress | lib/resdata/rd_grid.cpp:5017-5053 | expanding what was compressed restores the active cells and leaves the others untouched |
| Compression.PlainGrid | lib/resdata/rd_grid.cpp:5017-5053 | without coarse groups the inverse map lists the active cells, so scattering through it is expanding |
| Compression.CopyNeedsSingleCellGroups | lib/resdata/rd_grid.cpp:5017-5053 | in any grid the copies succeed if and only if no coarse group that is on has more than one cell |
| Compression.PairSharesIndex | lib/resdata/rd_grid.cpp:1541-1550 | a grid of one active group of two cells, whose cells share an index |
| Compression.PairIsNotCopied | lib/resdata/rd_grid.cpp:5017-5034 | for that grid the copy stops at an index out of range |
| Zcorn.IndexInLattice | lib/resdata/rd_grid.cpp:1910-1925 | the index of a corner is its place in a lattice twice as fine as the cells |
| Zcorn.IndexIsInjective | lib/resdata/rd_grid.cpp:1910-1925 | every corner has its own place |
| Zcorn.IndexInRange | lib/resdata/rd_grid.cpp:1910-1925 | that place is inside the array |
| Zcorn.IndexIsOnto | lib/resdata/rd_grid.cpp:1910-1925 | every place of the array belongs to a corner |
| Zcorn.FacePlacesAreIndices | lib/resdata/rd_grid.cpp:4903-4910 | the four places computed in the loops are those of the index function |
| GridGeometry.CornerGrid.InitGrdeclDataJslice | lib/resdata/rd_grid.cpp:1927-1990 | builds one row of cells of all layers from the pillars and depths and changes no corner of any other row |
| GridGeometry.CornerGrid.InitGrdeclData | lib/resdata/rd_grid.cpp:1927-1990 | row after row, every corner of every cell becomes the one that the arrays give |
| GridGeometry.CornerGrid.InitZcornData | lib/resdata/rd_grid.cpp:4885-4929 | writes the depth of every corner to its place |
| GridGeometry.CornerGrid.ExportUndoesBuild | lib/resdata/rd_grid.cpp:4885-4929 | exporting from a grid built from an array gives the array back at every place, with or without mapaxes |
| GridGeometry.TransformRoundTrip | lib/resdata/rd_grid.cpp:519-541 | the inverse transformation undoes the transformation if the axes are independent |
| GridGeometry.TransformOfUnits | lib/resdata/rd_grid.cpp:519-526 | the transformation takes the origin and the unit points to those that define it |
| GridGeometry.TransformKeepsRatios | lib/resdata/rd_grid.cpp:519-526 | it keeps lines and the ratios in which points divide them |
| GridGeometry.LiesOnPillar | lib/resdata/rd_grid.cpp:1718-1734 | a corner lies on the line through the ends of its pillar |
| GridGeometry.CornerOnPillar | lib/resdata/rd_grid.cpp:1927-1990 | each corner lies on its own one of the four pillars around the cell, upright if both ends are at one height, at the depth that belongs to it |
| GridGeometry.CornersShareLine | lib/resdata/rd_grid.cpp:1718-1734 | corners of different cells on one pillar lie on one line |
| Bytes.IntRoundTrip | lib/resdata/FortIO.cpp:283-295 | a four-byte integer is read back |
| Bytes.OverwriteTwice | lib/resdata/FortIO.cpp:405-409 | two writes in a row are one write |
| FortranIO.FortIO.FreadBuffer | lib/resdata/FortIO.cpp:357-379 | succeeds if and only if whole records stand there that fill the buffer exactly; then the buffer is their joined payload and the position is behind them; after a failure the position is where the last read ended |
| FortranIO.SegmentsOfRecords | lib/resdata/FortIO.cpp:357-379 | the payload is reassembled from any way of cutting it into records |
| FortranIO.SegmentsStandThere | lib/resdata/FortIO.cpp:357-379 | conversely, what is reassembled does stand in the file as records |
| FortranIO.FortIO.FwriteRecord | lib/resdata/FortIO.cpp:388-409 | the payload between two copies of its length, over what was there |
| FortranIO.FortIO.InitRead | lib/resdata/FortIO.cpp:283-295 | the length in front of a record, or -1 if four bytes are not there |
| FortranIO.FortIO.CompleteRead | lib/resdata/FortIO.cpp:337-350 | succeeds if and only if the length behind the record is the same |
| FortranIO.FortIO.Fseek | lib/resdata/FortIO.cpp:413-457 | a file that is only read refuses to go behind its end, and then does not move |
| FortranIO.FortIO.FskipRecord | lib/resdata/FortIO.cpp:381-386 | goes behind a whole record; for any other bytes, where the seek and the two reads end |
| FortranIO.FortIO.DataFskip | lib/resdata/FortIO.cpp:297-305 | goes past the elements and the frames of all blocks |
| FortranIO.FortIO.DataFseek | lib/resdata/FortIO.cpp:307-323 | an index out of range is refused; otherwise the position is the offset of the element |
| KeywordTypes.TypeRoundTrip | lib/resdata/rd_type.cpp:103-145 | a type is found again by its four-character name, strings of up to 999 characters included |
| KeywordTypes.ValueRoundTrip | lib/resdata/rd_kw.cpp:213-331 | an element is read back, strings with their padding |
| KeywordTypes.AllocOutputBuffer | lib/resdata/rd_kw.cpp:213-260 | the buffer is the joined encodings of the elements |
| KeywordTypes.LoadFromInputBuffer | lib/resdata/rd_kw.cpp:280-331 | the elements are the decodings of the pieces of the buffer |
| KeywordTypes.DataRoundTrip | lib/resdata/rd_kw.cpp:213-331 | all elements are read back, and writing them again gives the same bytes |
| Keywords.HeaderRoundTrip | lib/resdata/rd_kw.cpp:1314-1367 | the header that stands in a file is the one that is found |
| Keywords.BlocksMeaning | lib/resdata/rd_kw.cpp:1464-1486 | the blocks join to the buffer, and a reader goes through all of them |
| Keywords.SizeOfKeyword | lib/resdata/rd_kw.cpp:503-528 | a written keyword has exactly as many bytes as is computed from its header |
| Keywords.KeywordRoundTrip | lib/resdata/rd_kw.cpp:1314-1456 | a keyword that stands in a file is read back, up to string padding, and exactly its bytes are consumed |
| FileLayout.HeaderLayout | lib/resdata/rd_kw.cpp:1605-1626 | the 24 bytes in front of every keyword: the length 16 around the name, the number of elements by the weights of its bytes, and the letters of the type |
| FileLayout.HeaderMeaning | lib/resdata/rd_kw.cpp:1314-1367 | a header is found if and only if 16 bytes stand between two equal positive lengths and spell out a type |
| FileLayout.TypeNameMeaning | lib/resdata/rd_type.cpp:103-145 | a name stands for a type if and only if its four letters spell it |
| FileLayout.RecordLayout | lib/resdata/rd_kw.cpp:1464-1496 | each record of the data is framed by its length, of 1000 elements, of 105 for strings, or of what is left |
| FileLayout.ElementLayout | lib/resdata/rd_kw.cpp:213-260 | where each element stands, and its bytes: a number turned round, a truth value as four bytes 255 or 0, a string with bytes 32 behind it |
| FileLayout.DecodeMeaning | lib/resdata/rd_kw.cpp:280-331 | what is read from any bytes: true from four bytes 255 only, strings up to the first zero |
| FileLayout.KeywordLayout | lib/resdata/rd_kw.cpp:503-528 | how many bytes a keyword takes, in numbers |
| KeywordIO.FwriteHeader | lib/resdata/rd_kw.cpp:1605-1626 | writes the header record |
| KeywordIO.FwriteData | lib/resdata/rd_kw.cpp:1464-1486 | the block loop writes exactly the records of the blocks |
| KeywordIO.FwriteKeyword | lib/resdata/rd_kw.cpp:1628-1636 | writes the bytes of the keyword over what was there |
| KeywordIO.FreadHeader | lib/resdata/rd_kw.cpp:1314-1367 | finds the header, fails if it is not wholly there or not framed, refuses an unknown type |
| KeywordIO.FreadData | lib/resdata/rd_kw.cpp:1094-1200 | no data for a keyword of size zero; otherwise the elements of the records, if they fill the buffer |
| KeywordIO.FreadAlloc | lib/resdata/rd_kw.cpp:1443-1456 | the keyword at the position, nothing, or an error; the position is behind it |
| KeywordIO.FskipData | lib/resdata/rd_kw.cpp:1268-1291 | goes forward by the size of the data, not at all for a size of zero or less, and fails behind the end of a file that is only read |
| RandomAccess.ElementInData | lib/resdata/FortIO.cpp:307-323 | the offset of every element points at its bytes in the blocked records, for every type |
| RandomAccess.FlippedElement | lib/util/util_endian.cpp:34-121 | the flip leaves an element what it is in memory if and only if it is no string, or a string not of two characters that is the same backwards |
| RandomAccess.FreadIndexedData | lib/resdata/rd_kw.cpp:1208-1254 | refuses if and only if an index is out of range; otherwise the flipped bytes of the chosen elements, or a stop for a size without a flip; exactly when that is what a full read gives |
| RandomAccess.SelectionIsFullRead | lib/resdata/rd_kw.cpp:1208-1254 | a selective read gives the elements of a full read if and only if their size is 1, 2, 4 or 8 and each is no string, or a string not of two characters that is the same backwards |
| RandomAccess.StringsAreNotSelectivelyReadable | lib/util/util_endian.cpp:34-121 | strings of eight, two and five characters that are reversed, cut and stopped at |
| FileKeywords.StripPadded | lib/resdata/rd_kw.cpp:1425-1437 | a name is found again behind its padding |
| FileKeywords.EntryPointsAt | lib/resdata/rd_file.cpp:125-155 | each entry points at its keyword and agrees with it |
| FileKeywords.EntryLoads | lib/resdata/rd_file_kw.cpp:38-49 | every entry of a file loads its keyword, whatever bytes come behind the keywords |
| FileKeywords.FileKW.LoadKw | lib/resdata/rd_file_kw.cpp:20-49 | loads the keyword at the offset if it is there and agrees with the entry, and fails otherwise |
| FileKeywords.FileKW.InplaceWrite | lib/resdata/rd_file_kw.cpp:62-68 | writes the elements behind the header; a keyword whose name, type or size changed is refused and nothing is written |
| FileKeywords.SavedInPlace | lib/resdata/rd_file_kw.cpp:62-68 | the file then is the image of the list with that keyword replaced, with the same bytes behind it; its length and all entries are the same |
| FileScan.HeaderInPrefix | lib/resdata/rd_file.cpp:136-140 | a header is found if and only if it is wholly there |
| FileScan.ScanOfPrefix | lib/resdata/rd_file.cpp:125-155 | the scan of any number of leading bytes of a file of keywords lists the keywords it should, with right offset, name, type and size |
| FileScan.CountsWholeKeywords | lib/resdata/rd_file.cpp:125-155 | for a file that is only read these are exactly the keywords that lie wholly inside |
| FileScan.ScanOfWhole | lib/resdata/rd_file.cpp:125-155 | the scan of a whole file lists all its keywords |
| FileScan.PrefixShows | lib/resdata/rd_file.cpp:125-155 | any number of leading bytes of a file shows exactly the keywords that lie wholly inside, which stand at its front |
| FileScan.PrefixEntryLoads | lib/resdata/rd_file_kw.cpp:38-49 | loading entry n that the scan of any number of leading bytes lists gives keyword n if it lies wholly inside, and fails for one that is cut off |
| FileScan.CutKeyword | lib/resdata/rd_kw.cpp:1443-1456 | a keyword that is cut off anywhere cannot be loaded |
| FileScan.HeaderOnlyIsListed | lib/resdata/rd_file.cpp:125-155 | a keyword cut off behind its header is listed in a file that may be written and not in one that is only read |
| FileScan.File.Scan | lib/resdata/rd_file.cpp:125-155 | the loop ends for every file and lists what is specified, with an index by name |
| FileScan.File.GetKw | lib/resdata/rd_file_view.cpp:64-76 | entry n of a file gives keyword n, also if a keyword behind it is cut off or other bytes follow |
| FileScan.File.SaveKw | lib/resdata/rd_file.cpp:205-217 | after a save the file has the same keywords with that one replaced and the same bytes behind them, and the view still lists them |
| FileViews.PositionsMeaning | lib/resdata/rd_file_view.cpp:28-42 | the positions of a name are all its positions and no others, in ascending order |
| FileViews.FileView.MakeIndex | lib/resdata/rd_file_view.cpp:28-42 | the index lists the positions of every name, and each name once in the order of first occurrence |
| FileViews.FileView.GetOccurence | lib/resdata/rd_file_view.cpp:108-119 | which occurrence of its name a keyword is; it never fails |
| FileViews.FileView.Blockview | lib/resdata/rd_file_view.cpp:121-140 | the keywords from an occurrence of one name up to the next one of another, or nothing if there is no such occurrence |
| FileViews.SearchBlocks | lib/include/resdata/rd_file_view.hpp:46-90 | the merged walk finds the first block whose first header keyword satisfies the condition, and nothing if there is none |
| FileViews.FileView.FindBlock | lib/include/resdata/rd_file_view.hpp:46-90 | the same for the named keywords of the view, where the blocks are those that Blockview cuts out |
| FileViews.BlockHoldsInView | lib/include/resdata/rd_file_view.hpp:46-90 | a block satisfies the condition if and only if the list that Blockview cuts out for it has a header and the first one satisfies it |
| FileViews.FileView.Write | lib/resdata/rd_file_view.cpp:101-106 | writes the bytes of the keywords from a position on |
| FileIndex.EntryRoundTrip | lib/resdata/rd_file_kw.cpp:70-115 | an entry comes back from the index with its name cut at the first space |
| FileIndex.EntryLayout | lib/resdata/rd_file_kw.cpp:70-88 | the 32 bytes of an entry: the padded name, and by the weights of their bytes the number of elements, the offset, the number of the type and its size |
| FileIndex.TypeOfNumber | lib/resdata/rd_type.cpp:37-70 | a number and a size are accepted for a type if and only if they are those of the type |
| FileIndex.WriteIndex | lib/resdata/rd_file_view.cpp:371-378 | the count and the entries |
| FileIndex.ReadIndex | lib/resdata/rd_file_view.cpp:380-393 | refuses if and only if the count is negative or an entry is missing or names no type; otherwise the entries, indexed by name |
| FileIndex.SaveAndLoad | lib/resdata/rd_file_view.cpp:371-393 | the same entries come back if and only if no name has a space inside |
| FileIndex.SpaceCutsName | lib/resdata/rd_file_kw.cpp:94-97 | an entry that does not come back |
| Packing.Pack | applications/resdata/rd_pack.cpp:75-104 | the target holds each report step behind its number, with the keywords that its source shows; it stops if and only if a step would be written twice in a row |
| Packing.SeqnumLayout | applications/resdata/rd_pack.cpp:75-104 | the 36 bytes in front of a report step: the name, one integer, and four bytes whose weights give the step |
| Packing.FirstIntInFile | applications/resdata/rd_unpack.cpp:66-92 | the number of a report step is what the first four bytes of the data weigh |
| Unpacking.BlocksPartition | applications/resdata/rd_unpack.cpp:66-92 | the blocks of any one name follow each other without a gap up to the end of the list |
| Unpacking.Unpack | applications/resdata/rd_unpack.cpp:66-92 | one file for each block of the keywords that the source shows, with its step and the bytes of its other keywords; it stops if and only if a step has no number |
| Unpacking.UnpackUndoesPack | applications/resdata/rd_unpack.cpp:66-92 | without SEQNUM in the sources, unpacking gives each step with its number and its file, byte for byte |
| Unpacking.PackAndUnpack | applications/resdata/rd_pack.cpp:75-104 | packing files and unpacking the result gives the files back, without what came behind their keywords |

## Left out

- EdgeTrace.TraceFrom: called only where the trace ends; where it circles (`EdgeTrace.TraceEndsUnlessItCircles`) the recursion of the original never returns.
- EdgeTrace.TraceBlockEdge: called only where the trace ends, for the same reason. Sorting the list of cells and dropping its duplicates is not modelled.
- FaultBlockKeywords.TraceEdge: called only where the trace ends; the corner numbers are not turned into coordinates.
- Layers.Layer.SetCellValue: the flat cell vector is a two-dimensional array, and an index out of range, for which the original throws, is a precondition here.
- FaultBlockKeywords.InsertBlockContent: cells of a source block that lie outside of the layer, for which the original throws, are excluded by a precondition.
- KeywordIO.FreadData: the size of the buffer is an unbounded integer, where the original multiplies four-byte integers.
- Keywords.KeywordRoundTrip: a keyword of type MESS has no elements, and a string type has 1 to 999 characters, because the name of the type has three digits.
- Packing.Pack: the sources come in the order in which they are packed; sorting them by report step and summary files are not modelled.
- Unpacking.Unpack: the written files are a list in the order of writing; a second file with the same step replaces the first one on disk.
- Compression.AllocScatterCopy: string keywords are excluded when no default is given, because the original then copies more bytes than the default has.
- CoarseCells.CoarseCell.UpdateIndex: the box of cell coordinates that a coarse group also keeps is not modelled; its list of cells is ascending from the start, so sorting it changes nothing.
- GridIndex.Grid.UpdateIndex: stated for a freshly built grid; renumbering a grid with coarse groups keeps the old lists of active cells. A coarse group with fracture cells needs dual porosity, because the original then writes to a map that is empty without it.
- GridGeometry.CornerGrid.InitGrdeclDataJslice: the active values and coarse groups that are set in the same loop are not part of it, and the export of the COORD array is left out.
- Rounding: all coordinates are real numbers, so that the tests for a point on an edge are exact.
- Formatted files and GRDECL text: they depend on the behaviour of scanf and printf.
- Streams: opening, closing and owning streams, file modes and flushing. A file is a sequence of bytes.
- Centres, regions and neighbours of fault blocks, and active flags of layers: simple loops.
- Local grid refinements, volumes, tetrahedra, summary files, surfaces, the region object and the Python bindings.
