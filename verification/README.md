# ProceduralDungeon4 grid generators in Dafny

This project models the logic behind the four procedural floor generators of
the ProceduralDungeon4 Unreal project. It covers the integer grids and
rectangles they compute and leaves out the meshes they spawn. Each generator
has its own module:

- **CaFloorGenerator** (`ca_floor_generator.dfy`, with `ca_rules.dfy`,
  `ca_regions.dfy` and `ca_connect.dfy`): a cellular-automaton cave.
  - A random fill whose border is wall.
  - Synchronous birth/death smoothing steps over the 8-cell neighbourhood,
    from `CurrentMap` into `NextMap`.
  - A connectivity repair. It labels the 4-connected floor regions with an
    explicit-stack flood fill and picks the first largest region as the main
    one. It then joins every other region to the cells gathered so far with an
    L-shaped corridor between their closest pair of cells.
- **BspFloorGenerator** (`bsp_floor_generator.dfy`): binary space
  partitioning. The map rectangle is cut recursively into `LeafRegions`, and
  each leaf gets a padded room rectangle.
- **HolmquistFloorGenerator** (`holmquist_floor_generator.dfy`): grows a
  room of `NumTiles` floor cells from the grid centre. It uses a frontier list
  with swap-removal, and keeps the pillar and floor tests used for
  decoration.
- **WalkFloorGenerator** (`walk_floor_generator.dfy`): a drunkard's walk that
  carves floor in an all-wall grid, clamped one cell away from the border.

Shared modules:

- **Grid** (`grid.dfy`): row-major grids with `Index = y * width + x`.
- **Paths** (`paths.dfy`): 4-neighbour paths, linkage and connectedness.
- **RandomStream** (`random_stream.dfy`): the engine's random calls as an
  oracle.

Cell polarity follows each generator:

- CA and walk grids hold `true` for wall.
- The Holmquist grid holds `true` for floor.

Editor properties are `const` fields of each class. Each class has a
`Default` constructor with the editor defaults and a general constructor.
Arrays that the code rewrites (`CurrentMap`, `NextMap`, `Map`, `Grid`,
`Frontier`, `LeafRegions`) are `seq` fields, and methods reassign them.

Randomness is an input. `stream: nat -> int` gives the k-th raw draw, and
every engine call (`FMath::RandRange`, `FMath::RandBool`, `FRandomStream`)
consumes the next draw. The engine's own helper returns 0 without drawing when
a range is not positive; the only such call here is a BSP padding draw with
`RoomPaddingMin > RoomPaddingMax`. There `RoomRectangles`' count of
`k0 + 4 * |rooms|` draws overcounts, but nothing draws after it, so no result
changes. Methods take the next unused draw number and return
the one after them. Nothing is required of the draws, so each property holds
for every sequence of choices.

`Walk_FloorGenerator.cpp:62` reads `MApHeight`, which is not declared. The
model reads it as `MapHeight`.

## Model

| member | source | states |
|---|---|---|
| Grid.IndexInRange | Source/ProceduralDungeon4/CA_FloorGenerator.h:72-75 | A cell of a w-by-h grid has its row-major index in [0, w*h). |
| Grid.IndexInjective | Source/ProceduralDungeon4/CA_FloorGenerator.h:72-75 | Two in-bounds cells with the same row-major index are the same cell. |
| Grid.PointOfIndex | Source/ProceduralDungeon4/Holmquist_FloorGenerator.h:62-65 | Every flat position in [0, w*h) is the index of an in-bounds cell (PointOf inverts Index). |
| Grid.WithCell | Source/ProceduralDungeon4/Walk_FloorGenerator.h:64-67 | Writing `Map[Index(x, y)]` keeps the length, sets that cell and leaves every other entry unchanged. |
| Grid.WithCellOthers | Source/ProceduralDungeon4/Walk_FloorGenerator.h:64-67 | After a one-cell write, every other in-bounds cell reads as before. |
| Grid.Filled | Source/ProceduralDungeon4/Holmquist_FloorGenerator.cpp:44 | `TArray::Init(v, W*H)` gives W*H entries, all equal to v. |
| Grid.SetNum | Source/ProceduralDungeon4/CA_FloorGenerator.cpp:38-39 | `TArray::SetNum(n)` gives length n and keeps the existing prefix. |
| Grid.CellsWithUpdate | Source/ProceduralDungeon4/Walk_FloorGenerator.cpp:107 | Carving one cell to v adds exactly that cell to the set of cells holding v. |
| Grid.OccurrencesUpdate | Source/ProceduralDungeon4/Holmquist_FloorGenerator.cpp:111 | Writing one entry raises the count of v by one exactly when it turns a non-v entry into v, and never by more. |
| Grid.AllCellsOccurrences | Source/ProceduralDungeon4/Holmquist_FloorGenerator.cpp:67 | A grid whose every cell is floor has W*H floor entries. |
| Paths.LinkedTrans | Source/ProceduralDungeon4/CA_FloorGenerator.cpp:284-310 | Linkage inside a set of cells is transitive. |
| Paths.LinkedSym | Source/ProceduralDungeon4/CA_FloorGenerator.cpp:284-310 | Linkage inside a set of cells is symmetric. |
| Paths.LinkedMono | Source/ProceduralDungeon4/CA_FloorGenerator.cpp:336-365 | Adding floor never breaks a path. |
| Paths.RootedAdd | Source/ProceduralDungeon4/Walk_FloorGenerator.cpp:102-107 | Adding a cell equal or adjacent to a member keeps every cell linked to the root. |
| Paths.RootedIsConnected | Source/ProceduralDungeon4/Walk_FloorGenerator.cpp:80-108 | A set whose cells are all linked to one root is 4-connected. |
| Paths.LabelConstantOnLinked | Source/ProceduralDungeon4/CA_FloorGenerator.cpp:227-243 | A tag that agrees across every adjacent pair inside a set is constant along paths in that set. |
| Paths.ClosedIsFull | Source/ProceduralDungeon4/Holmquist_FloorGenerator.cpp:70-115 | A non-empty set closed under in-bounds 4-neighbours contains every cell of the grid. |
| RandomStream.RandRange | Source/ProceduralDungeon4/CA_FloorGenerator.cpp:54 | A draw for a non-empty inclusive range lies in it; an empty range yields its lower end. |
| RandomStream.RandBool | Source/ProceduralDungeon4/BSP_FloorGenerator.cpp:66 | The coin flip for a square region: true exactly when the draw is even, using one draw. |
| RandomStream.RandRangeReachesEvery | Source/ProceduralDungeon4/Walk_FloorGenerator.cpp:82 | Every value of the range is the draw of some stream, so the oracle rules out no choice. |
| CaRules.InitialWall | Source/ProceduralDungeon4/CA_FloorGenerator.cpp:45-56 | The initial content of an in-bounds cell: wall on the border ring; inside, wall exactly when its own draw from [0, 100] (row-major over the interior) is below the chance. |
| CaRules.DrawIndexInRange | Source/ProceduralDungeon4/CA_FloorGenerator.cpp:41-56 | Each interior cell's draw number is below the number of interior cells. |
| CaRules.DrawIndexInjective | Source/ProceduralDungeon4/CA_FloorGenerator.cpp:41-56 | No two interior cells share a draw. |
| CaRules.InitialWallExtremes | Source/ProceduralDungeon4/CA_FloorGenerator.h:31-33 | A chance of 0 or less makes every interior cell start as floor, and one above 100 makes every interior cell start as wall. |
| CaRules.WallNeighbors | Source/ProceduralDungeon4/CA_FloorGenerator.cpp:114-141 | The number of walls among the 8 cells around a cell, off-grid positions counting as wall and the cell itself skipped. |
| CaRules.CountedUpTo | Source/ProceduralDungeon4/CA_FloorGenerator.cpp:118-138 | The walls seen among the first n window positions number at most n. |
| CaRules.WallNeighborsExpanded | Source/ProceduralDungeon4/CA_FloorGenerator.cpp:114-141 | The count is the 8 positions around the cell, the cell itself skipped and off-grid positions counting as wall. |
| CaRules.WallNeighborsAtMostEight | Source/ProceduralDungeon4/CA_FloorGenerator.cpp:114-141 | The wall-neighbour count lies in 0..8. |
| CaRules.WallNeighborsLocal | Source/ProceduralDungeon4/CA_FloorGenerator.cpp:114-141 | Two grids that agree on the 8 cells around p give p the same count. |
| CaRules.WallNeighborsExtremes | Source/ProceduralDungeon4/CA_FloorGenerator.cpp:114-141 | A cell whose 8 surrounding positions are all wall counts 8, and one whose 8 positions are all in-grid floor counts 0. |
| CaRules.BorderCountsFive | Source/ProceduralDungeon4/CA_FloorGenerator.cpp:114-141 | On a grid whose border ring is all wall, a border cell counts at least five walls: the three off-grid positions beyond its edge and its two neighbours along the edge. |
| CaRules.NextWall | Source/ProceduralDungeon4/CA_FloorGenerator.cpp:84-107 | The birth/death rule for one cell: a wall stays wall iff its count is at least DeathLimit; a floor becomes wall iff its count exceeds BirthLimit. |
| CaRules.Step | Source/ProceduralDungeon4/CA_FloorGenerator.cpp:73-112 | All W*H cells are written. A wall stays wall iff its count is at least DeathLimit, and a floor becomes wall iff its count exceeds BirthLimit; both read the old grid. |
| CaRules.Simulate | Source/ProceduralDungeon4/CA_FloorGenerator.cpp:64-71 | Simulation steps keep the grid size. |
| CaRules.InitialFillSealed | Source/ProceduralDungeon4/CA_FloorGenerator.cpp:47-51 | The initial fill makes every border cell wall. |
| CaRules.StepKeepsBorder | Source/ProceduralDungeon4/CA_FloorGenerator.cpp:82-107 | With DeathLimit at most 5, a step keeps a sealed border sealed, whatever BirthLimit is. |
| CaRules.SimulateKeepsBorder | Source/ProceduralDungeon4/CA_FloorGenerator.cpp:64-71 | Any number of steps keeps the border sealed while DeathLimit is at most 5. |
| CaRules.InitialFill | Source/ProceduralDungeon4/CA_FloorGenerator.cpp:41-61 | The filled grid has W*H cells, each as InitialWall gives it from the draws: border cells wall, an interior cell wall iff its own draw is below the chance. |
| CaRules.SmoothedCave | Source/ProceduralDungeon4/CA_FloorGenerator.cpp:35-71 | The cave before the connectivity repair: the initial fill from the draws at k0, smoothed by max(SimulationSteps, 0) steps; it has W*H cells. |
| CaRules.TopEdgeCountsFive | Source/ProceduralDungeon4/CA_FloorGenerator.cpp:114-141 | A top-edge cell between two walls and above three floor cells counts exactly five walls. |
| CaRules.WallBelowDeathOpens | Source/ProceduralDungeon4/CA_FloorGenerator.cpp:84-91 | A border wall that counts fewer walls than DeathLimit turns to floor, so one step opens the border. |
| CaRules.DeathSixOpensBorder | Source/ProceduralDungeon4/CA_FloorGenerator.cpp:82-107 | With DeathLimit 6, one step opens the sealed border of a 5 x 3 wall ring around three floor cells. |
| CaRules.SealedStep | Source/ProceduralDungeon4/CA_FloorGenerator.cpp:73-112 | The step with the border held at wall: W*H cells, every border cell wall, every other cell as the birth/death rule gives it from the old grid. |
| CaRules.SealedStepKeepsBorder | Source/ProceduralDungeon4/CA_FloorGenerator.cpp:47-51 | The held step keeps the border wall for every pair of limits, as the fill intends. |
| CaRules.SealedStepAgrees | Source/ProceduralDungeon4/CA_FloorGenerator.cpp:73-112 | On a sealed grid with DeathLimit at most 5, the held step and the code's step give the same grid. |
| CaRegions.OpenCells | Source/ProceduralDungeon4/CA_FloorGenerator.cpp:297-299 | The cells the fill may still label are exactly the in-bounds floor cells labelled -1. |
| CaRegions.ComponentRooted | Source/ProceduralDungeon4/CA_FloorGenerator.cpp:284-310 | The component of an open start cell contains it and is linked to it inside itself. |
| CaRegions.OpenCountMark | Source/ProceduralDungeon4/CA_FloorGenerator.cpp:301-302 | Labelling one open floor entry lowers the unlabelled-floor count by one. This count bounds the fill's work. |
| CaRegions.FillMark | Source/ProceduralDungeon4/CA_FloorGenerator.cpp:299-308 | Labelling a popped open cell and pushing its in-bounds neighbours keeps the fill invariant. |
| CaRegions.FillDone | Source/ProceduralDungeon4/CA_FloorGenerator.cpp:290-310 | When the stack is empty, the labelled cells are exactly the component of the start. |
| CaRegions.RegionsAdd | Source/ProceduralDungeon4/CA_FloorGenerator.cpp:237-241 | Adding a filled component as region number \|Regions\| keeps labels, region lists and closure consistent. |
| CaRegions.LinkedFloorSameLabel | Source/ProceduralDungeon4/CA_FloorGenerator.cpp:227-243 | Once all floor is labelled, two floor cells joined by a floor path have the same label. |
| CaRegions.ConnectedFloorOneRegion | Source/ProceduralDungeon4/CA_FloorGenerator.cpp:245-246 | A connected floor yields at most one region, so the early return fires. |
| CaConnect.OnCorridor | Source/ProceduralDungeon4/CA_FloorGenerator.cpp:336-365 | A cell is on the L-shaped corridor from A to B: on row A.Y between A.X and B.X, or on column B.X between A.Y and B.Y. |
| CaConnect.CorridorCells | Source/ProceduralDungeon4/CA_FloorGenerator.cpp:336-365 | The corridor is the row segment from A.X to B.X at A.Y, plus the column segment from A.Y to B.Y at B.X. |
| CaConnect.CorridorInBounds | Source/ProceduralDungeon4/CA_FloorGenerator.cpp:336-365 | Every corridor cell between two in-bounds cells is in bounds. |
| CaConnect.CorridorLinked | Source/ProceduralDungeon4/CA_FloorGenerator.cpp:344-360 | Every corridor cell is joined to A along the corridor. |
| CaConnect.CorridorRooted | Source/ProceduralDungeon4/CA_FloorGenerator.cpp:336-365 | The corridor is one piece rooted at A, and it contains B. |
| CaConnect.BestSoFarNextRow | Source/ProceduralDungeon4/CA_FloorGenerator.cpp:317-331 | Finishing a row of the scan carries the best-so-far facts to the next row. |
| CaConnect.BestSoFarDone | Source/ProceduralDungeon4/CA_FloorGenerator.cpp:312-334 | After the scan, nothing was found iff every pair is at least INT_MAX apart. Otherwise the kept pair has the least distance and no earlier pair ties it. |
| CaConnect.NoPairIffEmpty | Source/ProceduralDungeon4/CA_FloorGenerator.cpp:312-334 | On a grid of at most INT_MAX cells, the search finds no pair iff one list is empty. |
| CaConnect.ReachedMono | Source/ProceduralDungeon4/CA_FloorGenerator.cpp:274-280 | Carving later corridors keeps earlier cells reached from the main region. |
| CaConnect.CorridorJoins | Source/ProceduralDungeon4/CA_FloorGenerator.cpp:274-280 | A corridor from a reached cell to a connected region reaches the corridor and the whole region. |
| CaFloorGenerator.DrawnBeforeInterior | Source/ProceduralDungeon4/CA_FloorGenerator.cpp:41-56 | The scan reaches an interior cell after exactly its DrawIndex draws. |
| CaFloorGenerator.DrawnAll | Source/ProceduralDungeon4/CA_FloorGenerator.cpp:41-61 | The fill makes exactly InnerLength(W) * InnerLength(H) draws. |
| CaFloorGenerator.CountedAt | Source/ProceduralDungeon4/CA_FloorGenerator.cpp:118-138 | Visiting window position i adds 1 iff it is not the cell itself and is a wall or off the grid. |
| CaFloorGenerator.CarvedFloor | Source/ProceduralDungeon4/CA_FloorGenerator.cpp:336-365 | A grid carved along the corridor has floor equal to the old floor plus the corridor cells. |
| CaFloorGenerator.FewRegionsConnected | Source/ProceduralDungeon4/CA_FloorGenerator.cpp:245-246 | With all floor labelled and at most one region, the floor is connected, so returning early is correct. |
| CaFloorGenerator.PushNeighbors | Source/ProceduralDungeon4/CA_FloorGenerator.cpp:305-308 | The stack gains exactly the in-bounds 4-neighbours of the cell and keeps its old entries as a prefix. |
| CaFloorGenerator.GatherStart | Source/ProceduralDungeon4/CA_FloorGenerator.cpp:262 | MainCells starts as the main region's cells and is reached from its first cell. |
| CaFloorGenerator.GatherFindsPair | Source/ProceduralDungeon4/CA_FloorGenerator.cpp:274 | Every region other than the main one has a pair closer than INT_MAX, so the `>= 0` test always passes. |
| CaFloorGenerator.GatherCellsInBounds | Source/ProceduralDungeon4/CA_FloorGenerator.cpp:276 | The pair handed to the carver lies on the grid. |
| CaFloorGenerator.CarveBetween | Source/ProceduralDungeon4/CA_FloorGenerator.cpp:274-280 | Carving the corridor from a gathered cell to a cell of the next region keeps every carved cell on an L-shaped corridor between two cells of the original floor. |
| CaFloorGenerator.GatherRegion | Source/ProceduralDungeon4/CA_FloorGenerator.cpp:274-280 | Carving the corridor and appending the region keeps everything gathered reached from the main region. |
| CaFloorGenerator.CaFloorGenerator.Default | Source/ProceduralDungeon4/CA_FloorGenerator.h:24-46 | Defaults are a 60 x 40 grid, 45% walls, 5 steps, BirthLimit 4 and DeathLimit 3. |
| CaFloorGenerator.CaFloorGenerator.constructor | Source/ProceduralDungeon4/CA_FloorGenerator.h:24-46 | Stores the given configuration, with both grids empty. |
| CaFloorGenerator.CaFloorGenerator.Generate | Source/ProceduralDungeon4/CA_FloorGenerator.cpp:18-27 | The result contains the floor of SmoothedCave, the fill and smoothing computed from the draws. Every other floor cell lies on an L-shaped corridor between two floor cells of that cave, and a connected cave is returned unchanged. The floor is 4-connected, the border stays wall when DeathLimit is at most 5, and exactly InnerLength(W) * InnerLength(H) draws are used. |
| CaFloorGenerator.CaFloorGenerator.InitializeMap | Source/ProceduralDungeon4/CA_FloorGenerator.cpp:35-62 | Both grids get W*H cells. Each border cell is wall, and each interior cell is wall iff its own draw from [0, 100] is below InitWallChance. |
| CaFloorGenerator.CaFloorGenerator.CountWallNeighbors | Source/ProceduralDungeon4/CA_FloorGenerator.cpp:114-141 | Returns exactly the wall-neighbour count: self skipped, off-grid as wall, in 0..8. |
| CaFloorGenerator.CaFloorGenerator.StepSimulation | Source/ProceduralDungeon4/CA_FloorGenerator.cpp:73-112 | Leaves CurrentMap unchanged and sets NextMap to one synchronous rule step of CurrentMap. |
| CaFloorGenerator.CaFloorGenerator.RunSimulation | Source/ProceduralDungeon4/CA_FloorGenerator.cpp:64-71 | CurrentMap becomes max(SimulationSteps, 0) steps of the rule. NextMap equals it after at least one step and is untouched otherwise. |
| CaFloorGenerator.CaFloorGenerator.FloodFillRegion | Source/ProceduralDungeon4/CA_FloorGenerator.cpp:284-310 | Labels RegionId on exactly the unlabelled floor cells 4-connected to the start, and lists each once. All other labels are unchanged. |
| CaFloorGenerator.CaFloorGenerator.LabelRegions | Source/ProceduralDungeon4/CA_FloorGenerator.cpp:217-243 | The regions partition the floor. Region i is the set of cells labelled i, and each region is non-empty, duplicate-free and 4-connected. |
| CaFloorGenerator.CaFloorGenerator.ChooseMainRegion | Source/ProceduralDungeon4/CA_FloorGenerator.cpp:248-259 | Picks a region of maximum size, and every earlier region is strictly smaller (the first maximum). |
| CaFloorGenerator.CaFloorGenerator.FindClosestPairBetweenRegions | Source/ProceduralDungeon4/CA_FloorGenerator.cpp:312-334 | Returns -1 with outputs untouched iff no pair is closer than INT_MAX. Otherwise returns the least Manhattan distance, with OutA/OutB the first pair in scan order that achieves it. |
| CaFloorGenerator.CaFloorGenerator.CarveCorridorBetween | Source/ProceduralDungeon4/CA_FloorGenerator.cpp:336-365 | Writes floor on exactly the L-shaped corridor from A to B and changes no other cell. |
| CaFloorGenerator.CaFloorGenerator.ConnectRegions | Source/ProceduralDungeon4/CA_FloorGenerator.cpp:261-281 | The floor grows by exactly the carved cells, each on an L-shaped corridor between two cells of the old floor. It ends 4-connected and keeps a sealed border sealed. |
| CaFloorGenerator.CaFloorGenerator.EnsureConnectivity | Source/ProceduralDungeon4/CA_FloorGenerator.cpp:212-282 | Afterwards the floor is 4-connected and only grew, by cells on L-shaped corridors between old floor cells. An already connected floor is untouched, a sealed border stays sealed, and NextMap is unchanged. |
| BspFloorGenerator.DefaultLeaf | Source/ProceduralDungeon4/BSP_FloorGenerator.h:20-23 | The default leaf has both corners at the origin and extent 0 by 0. |
| BspFloorGenerator.LeafExtents | Source/ProceduralDungeon4/BSP_FloorGenerator.h:25-30 | The corner constructor stores its corners, and Width/Height are their differences. |
| BspFloorGenerator.PreferredAxis | Source/ProceduralDungeon4/BSP_FloorGenerator.cpp:51-67 | Wider splits vertically and taller splits horizontally, neither with a draw; a square consumes one RandBool draw. |
| BspFloorGenerator.FallbackAxis | Source/ProceduralDungeon4/BSP_FloorGenerator.cpp:69-77 | The axis after the fallback: a vertical choice on a region narrower than 2*MinLeafSize turns horizontal, a horizontal one on a region lower than 2*MinLeafSize turns vertical, otherwise the choice stands. |
| BspFloorGenerator.PlanSplit | Source/ProceduralDungeon4/BSP_FloorGenerator.cpp:39-127 | A cut happens only below MaxDepth, and its position is at least MinLeafSize from both sides on its axis. |
| BspFloorGenerator.CutPlan | Source/ProceduralDungeon4/BSP_FloorGenerator.cpp:39-127 | The split decision with the dead tests removed: a cut happens only below MaxDepth, at a coordinate at least MinLeafSize from both sides, and never consumes an earlier draw. |
| BspFloorGenerator.Halves | Source/ProceduralDungeon4/BSP_FloorGenerator.cpp:101-122 | The two halves of a cut: left/right sharing the column `at`, or bottom/top sharing the row `at`. |
| BspFloorGenerator.OnlyFirstStopFires | Source/ProceduralDungeon4/BSP_FloorGenerator.cpp:69-97 | Once the first stop test fails, the axis fallback, the second stop test and the empty-range test never fire. |
| BspFloorGenerator.PlanSplitIsCutPlan | Source/ProceduralDungeon4/BSP_FloorGenerator.cpp:39-127 | The decisions as written equal the simplified ones on every region, depth and stream. |
| BspFloorGenerator.SplitLeaves | Source/ProceduralDungeon4/BSP_FloorGenerator.cpp:39-127 | The leaves SplitSpace appends for a region, in order, and the next unused draw, which never lies before the first. |
| BspFloorGenerator.SplitLeavesOfStop | Source/ProceduralDungeon4/BSP_FloorGenerator.cpp:44-49 | A region at MaxDepth, or at most 2*MinLeafSize on both axes, is its own single leaf. |
| BspFloorGenerator.SplitLeavesOfChosenCut | Source/ProceduralDungeon4/BSP_FloorGenerator.cpp:87-126 | A cut region's leaves are the first half's leaves, then the second half's. The halves share the cut line and keep the other axis. |
| BspFloorGenerator.SplitLeavesCount | Source/ProceduralDungeon4/BSP_FloorGenerator.cpp:45-125 | Splitting at depth d yields between 1 and 2^max(MaxDepth - d, 0) leaves. |
| BspFloorGenerator.SplitLeavesPartition | Source/ProceduralDungeon4/BSP_FloorGenerator.cpp:101-125 | With MinLeafSize >= 0, the leaves lie inside the region, cover each of its cells, and never cover a cell twice. |
| BspFloorGenerator.SplitLeavesMinExtent | Source/ProceduralDungeon4/BSP_FloorGenerator.cpp:90-122 | If the region is at least MinLeafSize on both axes, so is every leaf. |
| BspFloorGenerator.PaddedRoom | Source/ProceduralDungeon4/BSP_FloorGenerator.cpp:151-182 | A leaf gets a room iff it has positive extent. The room is at least 1 by 1 and lies inside the leaf. |
| BspFloorGenerator.PaddedRoomUsesFittingPads | Source/ProceduralDungeon4/BSP_FloorGenerator.cpp:166-177 | Non-negative pads that leave a cell on each axis pass the clamps unchanged, and the room is the leaf shrunk by exactly those pads. |
| BspFloorGenerator.PositiveLeaves | Source/ProceduralDungeon4/BSP_FloorGenerator.cpp:146-154 | The leaves kept for rooms are leaves with positive width and height, at most as many as there are leaves. |
| BspFloorGenerator.BspFloorGenerator.Default | Source/ProceduralDungeon4/BSP_FloorGenerator.h:47-75 | Defaults are a 40 x 40 map, MinLeafSize 8, MaxDepth 5 and padding 1..3, with no leaves. |
| BspFloorGenerator.BspFloorGenerator.constructor | Source/ProceduralDungeon4/BSP_FloorGenerator.h:47-75 | Stores the given configuration with an empty leaf list. |
| BspFloorGenerator.BspFloorGenerator.GenerateBSP | Source/ProceduralDungeon4/BSP_FloorGenerator.cpp:30-37 | LeafRegions becomes exactly the leaves of (0,0)-MapSize, 1 to 2^MaxDepth of them. They partition the map when MinLeafSize >= 0, and each is at least MinLeafSize per axis when the map is. |
| BspFloorGenerator.BspFloorGenerator.ChooseAxis | Source/ProceduralDungeon4/BSP_FloorGenerator.cpp:51-77 | The axis is the preferred one, switched when it is narrower than two minimum leaves; only a square consumes a draw. |
| BspFloorGenerator.BspFloorGenerator.SplitSpace | Source/ProceduralDungeon4/BSP_FloorGenerator.cpp:39-127 | Appends exactly the region's leaves to LeafRegions, in order, and keeps earlier leaves. |
| BspFloorGenerator.BspFloorGenerator.RoomRectangles | Source/ProceduralDungeon4/BSP_FloorGenerator.cpp:146-182 | Each leaf of positive extent gets one room in leaf order, from four padding draws. Each room is at least 1 by 1 and lies inside its leaf. |
| HolmquistFloorGenerator.GrowthOffsets | Source/ProceduralDungeon4/Holmquist_FloorGenerator.cpp:82-88 | The four offsets visit exactly the 4-neighbours of the cell. |
| HolmquistFloorGenerator.PillarOffsets | Source/ProceduralDungeon4/Holmquist_FloorGenerator.cpp:319-325 | The pillar pass's offsets also visit exactly the 4-neighbours. |
| HolmquistFloorGenerator.AmongMembers | Source/ProceduralDungeon4/Holmquist_FloorGenerator.cpp:85-97 | A candidate is selected iff it is in bounds and holds the value looked for. |
| HolmquistFloorGenerator.AmongDistinct | Source/ProceduralDungeon4/Holmquist_FloorGenerator.cpp:85-97 | Distinct candidates give a duplicate-free selection. |
| HolmquistFloorGenerator.EmptyNeighbors | Source/ProceduralDungeon4/Holmquist_FloorGenerator.cpp:80-97 | At most 4 cells, and exactly the in-bounds empty 4-neighbours. |
| HolmquistFloorGenerator.RemoveAtSwap | Source/ProceduralDungeon4/Holmquist_FloorGenerator.cpp:102 | Removes exactly one copy of entry i: the last entry moves into slot i and the others keep their places. |
| HolmquistFloorGenerator.RemoveAtSwapMembers | Source/ProceduralDungeon4/Holmquist_FloorGenerator.cpp:102 | Swap-removal adds no entry and keeps every entry other than the removed one. |
| HolmquistFloorGenerator.NegativeSizeAcceptedAsWritten | Source/ProceduralDungeon4/Holmquist_FloorGenerator.cpp:37-38 | Sides -3 and -1 pass the check as written (product 3), yet no cell is in bounds, and the truncated centre (-1, 0) has flat index -1. |
| HolmquistFloorGenerator.SizeAcceptedCentreInBounds | Source/ProceduralDungeon4/Holmquist_FloorGenerator.cpp:37-64 | The corrected check admits only non-empty grids, whose centre is in bounds. On non-negative sides it agrees with the check as written. |
| HolmquistFloorGenerator.InitialGrowthInvariant | Source/ProceduralDungeon4/Holmquist_FloorGenerator.cpp:44-66 | The all-empty grid with only the centre carved, and the centre as sole frontier cell, satisfies the growth invariant with one tile. |
| HolmquistFloorGenerator.DropPreservesGrowthInvariant | Source/ProceduralDungeon4/Holmquist_FloorGenerator.cpp:99-104 | Removing a frontier cell that has no empty neighbour keeps the invariant. |
| HolmquistFloorGenerator.CarvePreservesGrowthInvariant | Source/ProceduralDungeon4/Holmquist_FloorGenerator.cpp:106-114 | Carving an empty neighbour of a frontier cell and appending it keeps the invariant with one more tile. |
| HolmquistFloorGenerator.ExhaustedGrowthFillsGrid | Source/ProceduralDungeon4/Holmquist_FloorGenerator.cpp:70 | If the frontier runs dry, the floor is the whole grid and the tile count is W*H. |
| HolmquistFloorGenerator.Grow | Source/ProceduralDungeon4/Holmquist_FloorGenerator.cpp:69-115 | The growth loop as a function of the draws: until the target is reached or the frontier is empty, one draw picks a frontier cell, which is dropped if it has no empty neighbour and otherwise extended by a second draw among its empty neighbours. |
| HolmquistFloorGenerator.GrowDrops | Source/ProceduralDungeon4/Holmquist_FloorGenerator.cpp:99-104 | When the drawn frontier cell has no empty neighbour, growing on is the same as dropping it and growing on from the next draw. |
| HolmquistFloorGenerator.GrowCarves | Source/ProceduralDungeon4/Holmquist_FloorGenerator.cpp:106-114 | Otherwise growing on is the same as carving the neighbour picked by the second draw, appending it, and growing on two draws later. |
| HolmquistFloorGenerator.DropStep | Source/ProceduralDungeon4/Holmquist_FloorGenerator.cpp:99-104 | Dropping the drawn cell keeps the growth invariant and the outcome the growth ends in. |
| HolmquistFloorGenerator.CarveStep | Source/ProceduralDungeon4/Holmquist_FloorGenerator.cpp:106-114 | Carving the drawn neighbour keeps the growth invariant with one more tile, and the outcome the growth ends in. |
| HolmquistFloorGenerator.GrownRoom | Source/ProceduralDungeon4/Holmquist_FloorGenerator.cpp:44-115 | The room of an accepted size: Grow from the centre cell alone, with target clamp(NumTiles, 1, W*H) and the draws from k0 on. |
| HolmquistFloorGenerator.HolmquistFloorGenerator.Default | Source/ProceduralDungeon4/Holmquist_FloorGenerator.h:24-33 | Defaults are a 20 x 20 grid and 50 tiles, with an empty grid and frontier. |
| HolmquistFloorGenerator.HolmquistFloorGenerator.constructor | Source/ProceduralDungeon4/Holmquist_FloorGenerator.h:24-33 | Stores the given configuration with an empty grid and frontier. |
| HolmquistFloorGenerator.HolmquistFloorGenerator.HasFloorAt | Source/ProceduralDungeon4/Holmquist_FloorGenerator.cpp:172-179 | False off the grid, otherwise whether the cell is floor. |
| HolmquistFloorGenerator.HolmquistFloorGenerator.HasFloorAtIsFloor | Source/ProceduralDungeon4/Holmquist_FloorGenerator.cpp:172-179 | HasFloorAt holds iff the position is an in-bounds floor cell, so it is false off the grid. |
| HolmquistFloorGenerator.HolmquistFloorGenerator.CountFloorNeighbors | Source/ProceduralDungeon4/Holmquist_FloorGenerator.cpp:317-330 | The count is the number of in-bounds floor 4-neighbours, in 0..4. |
| HolmquistFloorGenerator.HolmquistFloorGenerator.IsPillarGap | Source/ProceduralDungeon4/Holmquist_FloorGenerator.cpp:315-333 | An in-bounds empty cell with at least 3 in-bounds floor 4-neighbours, the cells that get a pillar. |
| HolmquistFloorGenerator.HolmquistFloorGenerator.PillarGapHasThreeFloorNeighbours | Source/ProceduralDungeon4/Holmquist_FloorGenerator.cpp:315-333 | A pillar cell is empty and has three distinct floor 4-neighbours. |
| HolmquistFloorGenerator.HolmquistFloorGenerator.GatherEmptyNeighbors | Source/ProceduralDungeon4/Holmquist_FloorGenerator.cpp:80-97 | Returns exactly the in-bounds empty 4-neighbours, in offset order. |
| HolmquistFloorGenerator.HolmquistFloorGenerator.GenerateRoomLayout | Source/ProceduralDungeon4/Holmquist_FloorGenerator.cpp:34-119 | The size test is the corrected one of the Findings table, SizeAccepted (both sides positive), not the product test at lines 37-38, which also lets (-3, -1) through and then writes Grid[-1]. A size it rejects changes nothing. Otherwise TargetTiles = clamp(NumTiles, 1, W*H) and exactly that many floor cells are placed. They form one 4-connected blob linked to the centre, and every frontier cell is floor. Grid, frontier, draws used and tile count are GrownRoom of the size, NumTiles and the draws. |
| HolmquistFloorGenerator.HolmquistFloorGenerator.GrowRoom | Source/ProceduralDungeon4/Holmquist_FloorGenerator.cpp:69-115 | The growth loop stops with the target reached or the frontier empty, keeps the growth invariant, and ends in exactly the grid, frontier, draw and tile count that Grow computes from its starting state. |
| WalkFloorGenerator.Move | Source/ProceduralDungeon4/Walk_FloorGenerator.cpp:82-104 | A move from an interior cell stays interior, on the same cell or a 4-neighbour. |
| WalkFloorGenerator.WalkStart | Source/ProceduralDungeon4/Walk_FloorGenerator.cpp:66-75 | The start is interior, and it is the centre when StartInCenter is set. |
| WalkFloorGenerator.WalkPos | Source/ProceduralDungeon4/Walk_FloorGenerator.cpp:80-104 | After any number of direction draws the walker is still on an interior cell. |
| WalkFloorGenerator.WalkCells | Source/ProceduralDungeon4/Walk_FloorGenerator.cpp:80-108 | The cells carved from the start through draw k: the start, then the walker position after each draw. |
| WalkFloorGenerator.WalkPosIn | Source/ProceduralDungeon4/Walk_FloorGenerator.cpp:78-107 | The walker always stands on a cell it has carved. |
| WalkFloorGenerator.WalkCellsSize | Source/ProceduralDungeon4/Walk_FloorGenerator.cpp:80-108 | n steps carve at most n+1 distinct cells. |
| WalkFloorGenerator.WalkedCells | Source/ProceduralDungeon4/Walk_FloorGenerator.cpp:66-108 | The floor of a whole run: the start rule (centre, or two draws), then max(NumSteps, 0) steps of WalkCells. |
| WalkFloorGenerator.FirstCarveWalked | Source/ProceduralDungeon4/Walk_FloorGenerator.cpp:78 | Carving the start establishes the walk invariant. |
| WalkFloorGenerator.CarveStepWalked | Source/ProceduralDungeon4/Walk_FloorGenerator.cpp:102-107 | Carving the cell moved to keeps the floor equal to old floor plus carved cells, all interior and linked to the start. |
| WalkFloorGenerator.WalkStepWalked | Source/ProceduralDungeon4/Walk_FloorGenerator.cpp:80-108 | The step from draw k carves the cell WalkPos gives for k+1 and keeps the walk invariant, with the carved cells one draw longer. |
| WalkFloorGenerator.WalkFloorGenerator.Default | Source/ProceduralDungeon4/Walk_FloorGenerator.h:22-35 | Defaults are a 60 x 40 grid and 1000 steps from the centre. |
| WalkFloorGenerator.WalkFloorGenerator.constructor | Source/ProceduralDungeon4/Walk_FloorGenerator.h:22-35 | Stores the given configuration with an empty map. |
| WalkFloorGenerator.WalkFloorGenerator.GenerateMap | Source/ProceduralDungeon4/Walk_FloorGenerator.cpp:34-45 | Does nothing for W*H <= 0, and leaves an all-wall map when a side is at most 2. Otherwise the floor is exactly the carved cells: non-empty, 4-connected, interior, at most NumSteps+1 of them, with the border all wall. The carved cells are WalkedCells of the size, NumSteps, StartInCenter and the draws. |
| WalkFloorGenerator.WalkFloorGenerator.InitializeMap | Source/ProceduralDungeon4/Walk_FloorGenerator.cpp:47-58 | The map gets W*H cells, all wall. |
| WalkFloorGenerator.WalkFloorGenerator.RunRandomWalk | Source/ProceduralDungeon4/Walk_FloorGenerator.cpp:60-109 | A side of at most 2 leaves the map untouched. Otherwise the floor grows by exactly the carved cells, which are interior, linked to the start, and at most NumSteps+1. The start and draw count match the start rule, and the carved cells are WalkedCells of the draws. |
| WalkFloorGenerator.WalkFloorGenerator.TakeSteps | Source/ProceduralDungeon4/Walk_FloorGenerator.cpp:80-108 | After max(NumSteps, 0) steps, one draw each, the floor is the old floor plus WalkCells of those draws, all interior and linked to the start. |

## Left out

- Mesh and actor spawning is engine I/O with float world coordinates. This covers `SpawnGeometry` of the cave and walk generators, `SpawnFloorTiles` apart from its floor and pillar tests, and `SpawnFloorPlanes` apart from the room arithmetic. `TileSize`, `FloorZ`, wall heights and meshes go with it.
- `RoomGenerator`, `GridSpace` and `DungeonRoom`: they depend on physics overlap queries over float positions, and RoomGenerator duplicates the grid-based room growth modelled here.
- Game modes and the build and target scripts, which are glue.
- The `BeginPlay`/`Tick` lifecycle and `UE_LOG` messages. `CaFloorGenerator.Generate` models the BeginPlay sequence without its final mesh call.
- The internals of `FMath::RandRange`, `FMath::RandBool` and `FRandomStream`. Each draw is a stream entry. The walk's carved cells (`WalkedCells`), the Holmquist room (`GrownRoom`) and the cave before its repair (`SmoothedCave`) are stated as functions of the stream. Seeding (`Seed >= 0` versus a new seed) is not modelled.
- int32 overflow: integers are unbounded. `CaFloorGenerator.CaFloorGenerator.EnsureConnectivity` and `Generate` require W*H to be at most INT_MAX, so every distance stays below the INT_MAX sentinel.
- `HasFloorNeighbor` is declared in `Walk_FloorGenerator.h:74` but never defined, so there is nothing to model.
- CaFloorGenerator.CaFloorGenerator.constructor: MapWidth and MapHeight are `nat`, so negative cave sizes are not modelled. With one negative side, `SetNum` gets a negative count (CA_FloorGenerator.cpp:37-39). With both negative, the product is positive, both grids get that many entries, every scan loop is empty, and `EnsureConnectivity` finds no region and returns (CA_FloorGenerator.cpp:214-246).
- CaFloorGenerator.CaFloorGenerator.FloodFillRegion: it starts from an empty cell list, as every call site passes a fresh region.
- CaFloorGenerator.CaFloorGenerator.Generate: the cave before the repair is a function of the draws, but the repair is bounded rather than computed. Every added cell lies on an L-shaped corridor between two floor cells of that cave. Which corridors are dug is stated call by call (`ChooseMainRegion`, `FindClosestPairBetweenRegions`), not folded into one function of the stream.
- CaFloorGenerator.CaFloorGenerator.StepSimulation: it keeps the code's step, `CaRules.Step`, not the held `CaRules.SealedStep` of the findings below. `CaRules.SealedStepAgrees` shows the two agree on a sealed grid whenever DeathLimit is at most 5, which covers the default 3.
- CaFloorGenerator.CaFloorGenerator.ConnectRegions: `MainCell`/`OtherCell` are uninitialised in the source. The model starts them at (0,0), and they are read only after a pair is found.
- CaFloorGenerator.CaFloorGenerator.FindClosestPairBetweenRegions: its -1 case is stated as "every pair is at least INT_MAX apart". `CaConnect.NoPairIffEmpty` turns this into "one list is empty" for grids of at most INT_MAX cells.
- BspFloorGenerator.BspFloorGenerator.GenerateBSP: the partition is proved only for MinLeafSize >= 0. With a negative minimum a cut may fall outside the region, and the leaves then overlap.
- BspFloorGenerator.SplitLeaves follows the simplified decisions. `BspFloorGenerator.PlanSplitIsCutPlan` proves they equal the decisions as written, whose dead tests are kept in `SplitSpace` as unreachable branches.

## Findings

| source | as written | input that shows it | evidently intended | confidence | as-written member | corrected member |
|---|---|---|---|---|---|---|
| Source/ProceduralDungeon4/Holmquist_FloorGenerator.cpp:37-38 | The size check rejects only `GridWidth * GridHeight <= 0` | GridWidth = -3, GridHeight = -1: the product 3 passes, but no cell is in bounds. The truncated centre is (-1, 0), so the write at line 63 goes to index -1 of a 3-entry array | Reject unless both sides are positive | not executed | HolmquistFloorGenerator.NegativeSizeAcceptedAsWritten | HolmquistFloorGenerator.SizeAcceptedCentreInBounds |
| Source/ProceduralDungeon4/CA_FloorGenerator.cpp:84-91 | The death rule also applies to border walls, so the wall border set at lines 47-51 survives a step only while DeathLimit is at most 5 | MapWidth = 5, MapHeight = 3, DeathLimit = 6, a wall ring around three floor cells: the top-middle border wall counts 5 walls and turns to floor | Border cells stay wall after every step, for any limits | not executed | CaRules.DeathSixOpensBorder | CaRules.SealedStepKeepsBorder |
