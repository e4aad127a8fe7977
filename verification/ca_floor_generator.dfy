/**
 * The cellular-automaton cave generator: a random fill with a sealed border,
 * a number of smoothing steps of the birth/death rule, and a connectivity
 * pass that labels the floor regions and carves L-shaped corridors from the
 * largest region to every other one.
 *
 * Cell polarity of this generator: true = wall, false = floor.
 */
module CaFloorGenerator {
  import opened Grid
  import opened Paths
  import opened RandomStream
  import opened CaRules
  import opened CaRegions
  import opened CaConnect

  /** Interior draws made before row `y` of the initial fill. */
  function RowsDrawn(w: nat, h: nat, y: int): nat {
    InnerLength(w) * Clamp(y - 1, 0, InnerLength(h))
  }

  /** Interior draws made before cell (x, y) of the initial fill. */
  function DrawnBefore(w: nat, h: nat, x: int, y: int): nat {
    RowsDrawn(w, h, y) + (if 1 <= y <= h - 2 then Clamp(x - 1, 0, InnerLength(w)) else 0)
  }

  /** An interior cell is drawn with the draw numbered by its DrawIndex. */
  lemma DrawnBeforeInterior(w: nat, h: nat, p: Point)
    requires InBounds(w, h, p) && !IsBorder(w, h, p)
    ensures DrawnBefore(w, h, p.x, p.y) == DrawIndex(w, p)
  {
    assert InnerLength(w) == w - 2 && Clamp(p.y - 1, 0, InnerLength(h)) == p.y - 1;
  }

  /** Finishing row y leaves the draws made before row y + 1. */
  lemma DrawnRowEnd(w: nat, h: nat, y: int)
    requires 0 <= y < h
    ensures DrawnBefore(w, h, w, y) == RowsDrawn(w, h, y + 1)
  {
    if 1 <= y <= h - 2 {
      assert Clamp(y, 0, InnerLength(h)) == Clamp(y - 1, 0, InnerLength(h)) + 1;
      assert Clamp(w - 1, 0, InnerLength(w)) == InnerLength(w);
    } else {
      assert Clamp(y, 0, InnerLength(h)) == Clamp(y - 1, 0, InnerLength(h));
    }
  }

  /** After the last row every interior cell has been drawn. */
  lemma DrawnAll(w: nat, h: nat)
    ensures RowsDrawn(w, h, h) == InnerLength(w) * InnerLength(h)
  {
    assert Clamp(h - 1, 0, InnerLength(h)) == InnerLength(h);
  }

  /** The cells before (x, y) in row-major order hold their initial fill. */
  ghost predicate FilledBefore(m: seq<bool>, w: nat, h: nat, chance: int, stream: Stream, k0: nat, x: int, y: int)
    requires |m| == w * h
  {
    forall p | InBounds(w, h, p) && (p.y < y || (p.y == y && p.x < x)) ::
      Cell(m, w, h, p) == InitialWall(w, h, chance, stream, k0, p)
  }

  /** Writing the initial fill of (x, y) extends the filled prefix by one cell, or to the next row. */
  lemma FilledNext(m: seq<bool>, w: nat, h: nat, chance: int, stream: Stream, k0: nat, x: int, y: int, v: bool)
    requires |m| == w * h && InBounds(w, h, Point(x, y))
    requires FilledBefore(m, w, h, chance, stream, k0, x, y)
    requires v == InitialWall(w, h, chance, stream, k0, Point(x, y))
    ensures FilledBefore(WithCell(m, w, h, Point(x, y), v), w, h, chance, stream, k0, x + 1, y)
    ensures x == w - 1 ==> FilledBefore(WithCell(m, w, h, Point(x, y), v), w, h, chance, stream, k0, 0, y + 1)
  {
  }

  /** Window position i = 3(ny - p.y + 1) + (nx - p.x + 1) is the cell (nx, ny). */
  lemma CountedAt(m: seq<bool>, w: nat, h: nat, p: Point, nx: int, ny: int, i: nat)
    requires |m| == w * h && p.x - 1 <= nx <= p.x + 1 && p.y - 1 <= ny <= p.y + 1
    requires i == 3 * (ny - p.y + 1) + (nx - p.x + 1)
    ensures CountedUpTo(m, w, h, p, i + 1)
              == CountedUpTo(m, w, h, p, i) + (if Point(nx, ny) != p && WallAt(m, w, h, Point(nx, ny)) then 1 else 0)
  {
    var a := nx - p.x + 1;
    if ny == p.y - 1 {
      assert i == a && i % 3 == a && i / 3 == 0;
    } else if ny == p.y {
      assert i == 3 + a && i % 3 == a && i / 3 == 1;
    } else {
      assert i == 6 + a && i % 3 == a && i / 3 == 2;
    }
    assert WindowCell(p, i) == Point(nx, ny);
  }

  /** The cells already carved by the row leg of a corridor from `a` that has reached column `cx`. */
  predicate RowLegCarved(a: Point, cx: int, q: Point) {
    q.y == a.y && Between(a.x, cx, q.x) && q.x != cx
  }

  /** The cells already carved by the column leg of a corridor that has reached row `cy` in column `bx`. */
  predicate ColumnLegCarved(a: Point, bx: int, cy: int, q: Point) {
    q.x == bx && Between(a.y, cy, q.y) && q.y != cy
  }

  /** Carving a corridor adds exactly the corridor cells to the floor. */
  lemma CarvedFloor(m: seq<bool>, m': seq<bool>, w: nat, h: nat, a: Point, b: Point)
    requires |m| == w * h && |m'| == w * h && InBounds(w, h, a) && InBounds(w, h, b)
    requires forall q | InBounds(w, h, q) :: Cell(m', w, h, q) == if OnCorridor(a, b, q) then false else Cell(m, w, h, q)
    ensures FloorCells(m', w, h) == FloorCells(m, w, h) + CorridorCells(a, b)
  {
    forall q | q in CorridorCells(a, b)
      ensures q in FloorCells(m', w, h)
    {
      CorridorInBounds(w, h, a, b, q);
    }
  }

  /**
   * With every floor cell labelled, a single region is the whole floor (and
   * no region means no floor).
   */
  lemma FewRegionsConnected(m: seq<bool>, w: nat, h: nat, lab: seq<int>, regions: seq<seq<Point>>)
    requires |m| == w * h && RegionsOf(m, w, h, lab, regions) && |regions| <= 1
    requires forall q | InBounds(w, h, q) && !Cell(m, w, h, q) :: Cell(lab, w, h, q) != -1
    ensures Connected(FloorCells(m, w, h))
  {
    if |regions| == 1 {
      assert FloorCells(m, w, h) == Elems(regions[0]) by {
        forall q | q in FloorCells(m, w, h)
          ensures q in Elems(regions[0])
        {
          assert q in regions[Cell(lab, w, h, q)];
        }
      }
    } else {
      assert FloorCells(m, w, h) == {} by {
        forall q | q in FloorCells(m, w, h)
          ensures false
        {
        }
      }
    }
  }

  /**
   * The stack after pushing the on-grid 4-neighbours of `p` in the fill's
   * order: -X, +X, -Y, +Y.
   */
  function PushNeighbors(stack: seq<Point>, w: nat, h: nat, p: Point): (r: seq<Point>)
    requires InBounds(w, h, p)
    ensures forall q :: q in r <==> q in stack || (InBounds(w, h, q) && Adjacent(p, q))
    ensures |stack| <= |r| <= |stack| + 4 && r[..|stack|] == stack
  {
    var s1 := if p.x > 0 then stack + [Point(p.x - 1, p.y)] else stack;
    var s2 := if p.x < w - 1 then s1 + [Point(p.x + 1, p.y)] else s1;
    var s3 := if p.y > 0 then s2 + [Point(p.x, p.y - 1)] else s2;
    if p.y < h - 1 then s3 + [Point(p.x, p.y + 1)] else s3
  }

  /** Every cell of every region belongs to `floor`. */
  ghost predicate RegionsOnFloor(floor: set<Point>, regions: seq<seq<Point>>) {
    forall i, q | 0 <= i < |regions| && q in regions[i] :: q in floor
  }

  lemma RegionsOfOnFloor(m: seq<bool>, w: nat, h: nat, lab: seq<int>, regions: seq<seq<Point>>)
    requires |m| == w * h && RegionsOf(m, w, h, lab, regions)
    ensures RegionsOnFloor(FloorCells(m, w, h), regions)
    ensures RegionsShaped(regions)
  {
    forall i, q | 0 <= i < |regions| && q in regions[i]
      ensures q in FloorCells(m, w, h)
    {
      assert InBounds(w, h, q) && Cell(lab, w, h, q) == i;
    }
  }

  /** A corridor between two cells off the border stays off the border. */
  lemma CorridorAvoidsBorder(w: int, h: int, a: Point, b: Point, q: Point)
    requires InBounds(w, h, a) && InBounds(w, h, b) && !IsBorder(w, h, a) && !IsBorder(w, h, b)
    requires OnCorridor(a, b, q)
    ensures InBounds(w, h, q) && !IsBorder(w, h, q)
  {
  }

  /**
   * The invariant of the connection loop after the regions before `i`:
   * - the floor is the initial floor plus the carved corridors;
   * - the gathered cells are floor, include the main region and every region
   *   before `i`, and together with the corridors are joined to `root`;
   * - when the border started sealed, no floor cell is on it.
   */
  ghost predicate Gathered(m: seq<bool>, w: nat, h: nat, floor0: set<Point>, carved: set<Point>,
                           mainCells: seq<Point>, root: Point, regions: seq<seq<Point>>, mainIndex: int, i: int,
                           sealed: bool)
    requires |m| == w * h
  {
    && 0 <= mainIndex < |regions|
    && FloorCells(m, w, h) == floor0 + carved
    && RegionsOnFloor(floor0, regions) && RegionsShaped(regions)
    && |mainCells| > 0 && Elems(mainCells) <= floor0 + carved
    && Reached(FloorCells(m, w, h), root, Elems(mainCells) + carved)
    && Elems(regions[mainIndex]) <= Elems(mainCells)
    && (forall k | 0 <= k < i && k < |regions| :: Elems(regions[k]) <= Elems(mainCells))
    && (sealed ==> forall q | q in floor0 + carved :: !IsBorder(w, h, q))
  }

  /**
   * The gathered cells are cells of the initial floor, and every carved cell
   * lies on a corridor between two of them.
   */
  ghost predicate CarvedBetween(floor0: set<Point>, carved: set<Point>, mainCells: seq<Point>) {
    && Elems(mainCells) <= floor0
    && forall q | q in carved :: OnFloorCorridor(floor0, q)
  }

  /** A corridor from a gathered cell to a cell of the next region keeps CarvedBetween. */
  lemma CarveBetween(floor0: set<Point>, carved: set<Point>, mainCells: seq<Point>, otherCells: seq<Point>,
                     a: Point, b: Point)
    requires CarvedBetween(floor0, carved, mainCells) && Elems(otherCells) <= floor0
    requires a in mainCells && b in otherCells
    ensures CarvedBetween(floor0, carved + CorridorCells(a, b), mainCells + otherCells)
  {
    assert a in Elems(mainCells) && b in Elems(otherCells);
    forall q | q in CorridorCells(a, b)
      ensures OnFloorCorridor(floor0, q)
    {
      assert OnCorridor(a, b, q);
    }
  }

  lemma GatherStart(m: seq<bool>, w: nat, h: nat, regions: seq<seq<Point>>, mainIndex: int, sealed: bool)
    requires |m| == w * h && 0 <= mainIndex < |regions|
    requires RegionsOnFloor(FloorCells(m, w, h), regions) && RegionsShaped(regions)
    requires sealed ==> BorderSealed(m, w, h)
    ensures Gathered(m, w, h, FloorCells(m, w, h), {}, regions[mainIndex], regions[mainIndex][0], regions, mainIndex, 0, sealed)
  {
    var floor := FloorCells(m, w, h);
    var root := regions[mainIndex][0];
    var main := Elems(regions[mainIndex]);
    assert root in main;
    forall q | q in main
      ensures Linked(floor, root, q)
    {
      LinkedMono(main, floor, root, q);
    }
  }

  /** The region at `i` is non-empty and a pair of cells closer than IntMax exists. */
  lemma GatherFindsPair(m: seq<bool>, w: nat, h: nat, floor0: set<Point>, carved: set<Point>,
                        mainCells: seq<Point>, root: Point, regions: seq<seq<Point>>, mainIndex: int, i: int,
                        sealed: bool)
    requires |m| == w * h && w * h <= IntMax && 0 <= i < |regions|
    requires Gathered(m, w, h, floor0, carved, mainCells, root, regions, mainIndex, i, sealed)
    ensures |regions[i]| > 0 && Manhattan(mainCells[0], regions[i][0]) < IntMax
  {
    assert regions[i][0] in regions[i] && mainCells[0] in Elems(mainCells);
    ManhattanInGrid(w, h, mainCells[0], regions[i][0]);
    SidesBelowArea(w, h);
  }

  lemma GatherSkip(m: seq<bool>, w: nat, h: nat, floor0: set<Point>, carved: set<Point>,
                   mainCells: seq<Point>, root: Point, regions: seq<seq<Point>>, mainIndex: int, sealed: bool)
    requires |m| == w * h
    requires Gathered(m, w, h, floor0, carved, mainCells, root, regions, mainIndex, mainIndex, sealed)
    ensures Gathered(m, w, h, floor0, carved, mainCells, root, regions, mainIndex, mainIndex + 1, sealed)
  {
  }

  /** The chosen pair lies on the grid, since gathered cells and region cells are floor. */
  lemma GatherCellsInBounds(m: seq<bool>, w: nat, h: nat, floor0: set<Point>, carved: set<Point>,
                            mainCells: seq<Point>, root: Point, regions: seq<seq<Point>>, mainIndex: int, i: int,
                            sealed: bool, a: Point, b: Point)
    requires |m| == w * h && 0 <= i < |regions|
    requires Gathered(m, w, h, floor0, carved, mainCells, root, regions, mainIndex, i, sealed)
    requires a in mainCells && b in regions[i]
    ensures InBounds(w, h, a) && InBounds(w, h, b)
  {
    assert a in FloorCells(m, w, h) && b in FloorCells(m, w, h);
  }

  /**
   * Carving the corridor from a gathered cell `a` to a cell `b` of region i
   * and gathering region i keeps the invariant for the next region.
   */
  lemma GatherRegion(m: seq<bool>, m': seq<bool>, w: nat, h: nat, floor0: set<Point>, carved: set<Point>,
                     mainCells: seq<Point>, root: Point, regions: seq<seq<Point>>, mainIndex: int, i: int,
                     sealed: bool, a: Point, b: Point)
    requires |m| == w * h && |m'| == w * h && 0 <= i < |regions|
    requires Gathered(m, w, h, floor0, carved, mainCells, root, regions, mainIndex, i, sealed)
    requires a in mainCells && b in regions[i] && InBounds(w, h, a) && InBounds(w, h, b)
    requires forall q | InBounds(w, h, q) :: Cell(m', w, h, q) == if OnCorridor(a, b, q) then false else Cell(m, w, h, q)
    ensures Gathered(m', w, h, floor0, carved + CorridorCells(a, b), mainCells + regions[i], root, regions,
                     mainIndex, i + 1, sealed)
  {
    var floor, floor' := FloorCells(m, w, h), FloorCells(m', w, h);
    var region := Elems(regions[i]);
    CarvedFloor(m, m', w, h, a, b);
    ReachedMono(floor, floor', root, Elems(mainCells) + carved);
    assert a in Elems(mainCells) && b in region;
    assert region <= floor0;
    CorridorJoins(floor', root, a, b, region);
    assert Elems(mainCells + regions[i]) == Elems(mainCells) + region;
    if sealed {
      forall q | q in CorridorCells(a, b)
        ensures !IsBorder(w, h, q)
      {
        CorridorAvoidsBorder(w, h, a, b, q);
      }
    }
  }

  class CaFloorGenerator {
    // ---- configuration (editor properties) ----
    const MapWidth: nat
    const MapHeight: nat
    /** Percent chance (0-100) that an interior cell starts as wall. */
    const InitWallChance: int
    const SimulationSteps: int
    /** A floor cell with more wall neighbours than this becomes wall. */
    const BirthLimit: int
    /** A wall cell with fewer wall neighbours than this becomes floor. */
    const DeathLimit: int

    /** Cells holding true are walls. */
    var CurrentMap: seq<bool>
    var NextMap: seq<bool>

    /** The editor defaults: a 60 x 40 grid, 45% walls, 5 steps, birth 4, death 3. */
    constructor Default()
      ensures MapWidth == 60 && MapHeight == 40 && InitWallChance == 45
      ensures SimulationSteps == 5 && BirthLimit == 4 && DeathLimit == 3
      ensures CurrentMap == [] && NextMap == []
    {
      MapWidth := 60;
      MapHeight := 40;
      InitWallChance := 45;
      SimulationSteps := 5;
      BirthLimit := 4;
      DeathLimit := 3;
      CurrentMap := [];
      NextMap := [];
    }

    constructor (mapWidth: nat, mapHeight: nat, initWallChance: int, simulationSteps: int,
                 birthLimit: int, deathLimit: int)
      ensures MapWidth == mapWidth && MapHeight == mapHeight && InitWallChance == initWallChance
      ensures SimulationSteps == simulationSteps && BirthLimit == birthLimit && DeathLimit == deathLimit
      ensures CurrentMap == [] && NextMap == []
    {
      MapWidth := mapWidth;
      MapHeight := mapHeight;
      InitWallChance := initWallChance;
      SimulationSteps := simulationSteps;
      BirthLimit := birthLimit;
      DeathLimit := deathLimit;
      CurrentMap := [];
      NextMap := [];
    }

    /**
     * The generation sequence run at startup: fill, smooth, connect. `k0` is
     * the next unused draw of the engine stream, `k` the one after the run.
     */
    method Generate(stream: Stream, k0: nat) returns (k: nat)
      requires MapWidth * MapHeight <= IntMax
      modifies this
      ensures |CurrentMap| == MapWidth * MapHeight && |NextMap| == MapWidth * MapHeight
      ensures Connected(FloorCells(CurrentMap, MapWidth, MapHeight))
      ensures DeathLimit <= 5 ==> BorderSealed(CurrentMap, MapWidth, MapHeight)
      ensures k == k0 + InnerLength(MapWidth) * InnerLength(MapHeight)
      ensures var cave := SmoothedCave(MapWidth, MapHeight, InitWallChance, BirthLimit, DeathLimit, SimulationSteps,
                                       stream, k0);
              && FloorCells(cave, MapWidth, MapHeight) <= FloorCells(CurrentMap, MapWidth, MapHeight)
              && (forall q | q in FloorCells(CurrentMap, MapWidth, MapHeight) - FloorCells(cave, MapWidth, MapHeight) ::
                    OnFloorCorridor(FloorCells(cave, MapWidth, MapHeight), q))
              && (Connected(FloorCells(cave, MapWidth, MapHeight)) ==> CurrentMap == cave)
    {
      k := InitializeMap(stream, k0);
      InitialFillSealed(CurrentMap, MapWidth, MapHeight, InitWallChance, stream, k0);
      GridExtensionality(CurrentMap, InitialFill(MapWidth, MapHeight, InitWallChance, stream, k0), MapWidth, MapHeight);
      ghost var filled := CurrentMap;
      RunSimulation();
      if DeathLimit <= 5 {
        SimulateKeepsBorder(filled, MapWidth, MapHeight, BirthLimit, DeathLimit,
                            if SimulationSteps < 0 then 0 else SimulationSteps);
      }
      EnsureConnectivity();
    }

    /**
     * InitializeMap: both grids are resized to W*H cells; border cells are
     * wall and every interior cell, in row-major order, draws
     * RandRange(0, 100) and is wall when the draw is below InitWallChance.
     */
    method InitializeMap(stream: Stream, k0: nat) returns (k: nat)
      modifies this
      ensures |CurrentMap| == MapWidth * MapHeight
      ensures NextMap == SetNum(old(NextMap), MapWidth * MapHeight)
      ensures forall p | InBounds(MapWidth, MapHeight, p) ::
                Cell(CurrentMap, MapWidth, MapHeight, p) == InitialWall(MapWidth, MapHeight, InitWallChance, stream, k0, p)
      ensures k == k0 + InnerLength(MapWidth) * InnerLength(MapHeight)
    {
      var w, h := MapWidth, MapHeight;
      var numCells := w * h;
      CurrentMap := SetNum(CurrentMap, numCells);
      NextMap := SetNum(NextMap, numCells);
      k := k0;
      for y := 0 to h
        invariant |CurrentMap| == numCells && NextMap == SetNum(old(NextMap), numCells)
        invariant FilledBefore(CurrentMap, w, h, InitWallChance, stream, k0, 0, y)
        invariant k == k0 + RowsDrawn(w, h, y)
      {
        for x := 0 to w
          invariant |CurrentMap| == numCells && NextMap == SetNum(old(NextMap), numCells)
          invariant FilledBefore(CurrentMap, w, h, InitWallChance, stream, k0, x, y)
          invariant k == k0 + DrawnBefore(w, h, x, y)
        {
          var isWall := false;
          // Border cells are always wall.
          if x == 0 || y == 0 || x == w - 1 || y == h - 1 {
            isWall := true;
          } else {
            DrawnBeforeInterior(w, h, Point(x, y));
            var rand := RandRange(stream, k, 0, 100);
            k := k + 1;
            isWall := rand < InitWallChance;
          }
          FilledNext(CurrentMap, w, h, InitWallChance, stream, k0, x, y, isWall);
          CurrentMap := WithCell(CurrentMap, w, h, Point(x, y), isWall);
        }
        DrawnRowEnd(w, h, y);
      }
      DrawnAll(w, h);
    }

    /**
     * CountWallNeighbors: the walls among the 8 cells around (x, y), a cell
     * off the grid counting as wall.
     */
    method CountWallNeighbors(x: int, y: int) returns (count: int)
      requires |CurrentMap| == MapWidth * MapHeight
      ensures count == WallNeighbors(CurrentMap, MapWidth, MapHeight, Point(x, y))
    {
      var w, h := MapWidth, MapHeight;
      var p := Point(x, y);
      count := 0;
      ghost var i: nat := 0;
      for ny := y - 1 to y + 2
        invariant i == 3 * (ny - y + 1) && count == CountedUpTo(CurrentMap, w, h, p, i)
      {
        for nx := x - 1 to x + 2
          invariant i == 3 * (ny - y + 1) + (nx - x + 1) && count == CountedUpTo(CurrentMap, w, h, p, i)
        {
          CountedAt(CurrentMap, w, h, p, nx, ny, i);
          i := i + 1;
          // The centre cell is not its own neighbour.
          if nx == x && ny == y {
            continue;
          }
          // Positions outside the grid add one wall each.
          if nx < 0 || ny < 0 || nx >= w || ny >= h {
            count := count + 1;
          } else if Cell(CurrentMap, w, h, Point(nx, ny)) {
            count := count + 1;
          }
        }
      }
    }

    /**
     * StepSimulation: every cell of NextMap gets the rule applied to the
     * cell of CurrentMap and its wall-neighbour count.
     */
    method StepSimulation()
      requires |CurrentMap| == MapWidth * MapHeight && |NextMap| == MapWidth * MapHeight
      modifies this
      ensures CurrentMap == old(CurrentMap)
      ensures NextMap == Step(CurrentMap, MapWidth, MapHeight, BirthLimit, DeathLimit)
    {
      var w, h := MapWidth, MapHeight;
      for y := 0 to h
        invariant |NextMap| == w * h && CurrentMap == old(CurrentMap)
        invariant forall p | InBounds(w, h, p) && p.y < y ::
                    Cell(NextMap, w, h, p) == NextWall(Cell(CurrentMap, w, h, p), WallNeighbors(CurrentMap, w, h, p), BirthLimit, DeathLimit)
      {
        for x := 0 to w
          invariant |NextMap| == w * h && CurrentMap == old(CurrentMap)
          invariant forall p | InBounds(w, h, p) && (p.y < y || (p.y == y && p.x < x)) ::
                      Cell(NextMap, w, h, p) == NextWall(Cell(CurrentMap, w, h, p), WallNeighbors(CurrentMap, w, h, p), BirthLimit, DeathLimit)
        {
          var neighbors := CountWallNeighbors(x, y);
          var currentWall := Cell(CurrentMap, w, h, Point(x, y));
          var newWall := currentWall;
          if currentWall {
            // A wall opens up below DeathLimit.
            if neighbors < DeathLimit {
              newWall := false;
            } else {
              newWall := true;
            }
          } else {
            // A floor cell fills in above BirthLimit.
            if neighbors > BirthLimit {
              newWall := true;
            } else {
              newWall := false;
            }
          }
          NextMap := WithCell(NextMap, w, h, Point(x, y), newWall);
        }
      }
      GridExtensionality(NextMap, Step(CurrentMap, w, h, BirthLimit, DeathLimit), w, h);
    }

    /** RunSimulation: SimulationSteps rounds of StepSimulation, each copied back into CurrentMap. */
    method RunSimulation()
      requires |CurrentMap| == MapWidth * MapHeight && |NextMap| == MapWidth * MapHeight
      modifies this
      ensures CurrentMap == Simulate(old(CurrentMap), MapWidth, MapHeight, BirthLimit, DeathLimit,
                                     if SimulationSteps < 0 then 0 else SimulationSteps)
      ensures SimulationSteps > 0 ==> NextMap == CurrentMap
      ensures SimulationSteps <= 0 ==> NextMap == old(NextMap)
    {
      var i := 0;
      while i < SimulationSteps
        invariant 0 <= i && (i <= SimulationSteps || i == 0)
        invariant |CurrentMap| == MapWidth * MapHeight && |NextMap| == MapWidth * MapHeight
        invariant CurrentMap == Simulate(old(CurrentMap), MapWidth, MapHeight, BirthLimit, DeathLimit, i)
        invariant i > 0 ==> NextMap == CurrentMap
        invariant i == 0 ==> NextMap == old(NextMap)
      {
        StepSimulation();
        CurrentMap := NextMap;
        i := i + 1;
      }
    }

    /**
     * FloodFillRegion: an explicit-stack fill from (startX, startY) that
     * labels `regionId` on every unlabelled floor cell it reaches through
     * 4-neighbours, popping from the end and pushing the neighbours in the
     * order -X, +X, -Y, +Y. The labelled cells are exactly the component of
     * the start among the floor cells still labelled -1, listed once each.
     */
    method FloodFillRegion(startX: int, startY: int, regionId: int, labels0: seq<int>)
      returns (labels: seq<int>, cells: seq<Point>)
      requires |CurrentMap| == MapWidth * MapHeight && |labels0| == MapWidth * MapHeight
      requires InBounds(MapWidth, MapHeight, Point(startX, startY)) && regionId >= 0
      ensures |labels| == MapWidth * MapHeight
      ensures forall q :: q in cells <==>
                q in Component(OpenCells(CurrentMap, labels0, MapWidth, MapHeight), Point(startX, startY))
      ensures Distinct(cells)
      ensures Relabelled(MapWidth, MapHeight, labels0, labels,
                         Component(OpenCells(CurrentMap, labels0, MapWidth, MapHeight), Point(startX, startY)), regionId)
    {
      var w, h := MapWidth, MapHeight;
      var start := Point(startX, startY);
      var stack := [start];
      labels, cells := labels0, [];
      FillStart(CurrentMap, w, h, labels0, start, regionId);
      while |stack| > 0
        invariant FillInv(CurrentMap, w, h, labels0, labels, stack, cells, start, regionId)
        decreases OpenCount(CurrentMap, labels), |stack|
      {
        ghost var stack0 := stack;
        var p := stack[|stack| - 1];
        stack := stack[..|stack| - 1];
        if Cell(labels, w, h, p) != -1 {
          FillSkip(CurrentMap, w, h, labels0, labels, stack0, cells, start, regionId);
          continue;
        }
        if Cell(CurrentMap, w, h, p) {
          FillSkip(CurrentMap, w, h, labels0, labels, stack0, cells, start, regionId);
          continue;
        }
        ghost var labelsBefore, cellsBefore := labels, cells;
        IndexInRange(w, h, p);
        OpenCountMark(CurrentMap, labels, Index(w, p), regionId);
        labels := WithCell(labels, w, h, p, regionId);
        cells := cells + [p];
        // Spread to the four orthogonal neighbours.
        stack := PushNeighbors(stack, w, h, p);
        FillMark(CurrentMap, w, h, labels0, labelsBefore, stack0, cellsBefore, start, regionId, stack);
      }
      FillDone(CurrentMap, w, h, labels0, labels, cells, start, regionId);
    }

    /**
     * The labelling loop of EnsureConnectivity: every floor cell still
     * labelled -1, in row-major order, starts a fill with the next region
     * number. The result splits the whole floor into its 4-connected
     * components.
     */
    method LabelRegions() returns (labels: seq<int>, regions: seq<seq<Point>>)
      requires |CurrentMap| == MapWidth * MapHeight
      ensures RegionsOf(CurrentMap, MapWidth, MapHeight, labels, regions)
      ensures forall q | InBounds(MapWidth, MapHeight, q) && !Cell(CurrentMap, MapWidth, MapHeight, q) ::
                Cell(labels, MapWidth, MapHeight, q) != -1
    {
      var w, h := MapWidth, MapHeight;
      labels := Filled(w, h, -1);
      regions := [];
      RegionsStart(CurrentMap, w, h);
      for y := 0 to h
        invariant RegionsOf(CurrentMap, w, h, labels, regions)
        invariant ScannedUpTo(CurrentMap, w, h, labels, 0, y)
      {
        for x := 0 to w
          invariant RegionsOf(CurrentMap, w, h, labels, regions)
          invariant ScannedUpTo(CurrentMap, w, h, labels, x, y)
        {
          var p := Point(x, y);
          if Cell(CurrentMap, w, h, p) {
            continue;
          }
          if Cell(labels, w, h, p) != -1 {
            continue;
          }
          var labels', cells := FloodFillRegion(x, y, |regions|, labels);
          RegionsAdd(CurrentMap, w, h, labels, regions, p, labels', cells);
          labels, regions := labels', regions + [cells];
        }
      }
    }

    /** The first region of largest size. */
    method ChooseMainRegion(regions: seq<seq<Point>>) returns (mainIndex: int)
      requires |regions| > 0
      ensures 0 <= mainIndex < |regions|
      ensures forall i | 0 <= i < |regions| :: |regions[i]| <= |regions[mainIndex]|
      ensures forall i | 0 <= i < mainIndex :: |regions[i]| < |regions[mainIndex]|
    {
      mainIndex := 0;
      var maxSize := |regions[0]|;
      for i := 1 to |regions|
        invariant 0 <= mainIndex < i && maxSize == |regions[mainIndex]|
        invariant forall j | 0 <= j < i :: |regions[j]| <= maxSize
        invariant forall j | 0 <= j < mainIndex :: |regions[j]| < maxSize
      {
        var size := |regions[i]|;
        if size > maxSize {
          maxSize := size;
          mainIndex := i;
        }
      }
    }

    /**
     * FindClosestPairBetweenRegions: scanning every pair in order with a
     * strict comparison from IntMax, the first pair of least Manhattan
     * distance; -1 (outputs untouched) when no pair is closer than IntMax.
     */
    method FindClosestPairBetweenRegions(regionA: seq<Point>, regionB: seq<Point>, outA0: Point, outB0: Point)
      returns (dist: int, outA: Point, outB: Point, ghost bi: int, ghost bj: int)
      ensures dist == -1 <==>
                forall i, j | 0 <= i < |regionA| && 0 <= j < |regionB| :: Manhattan(regionA[i], regionB[j]) >= IntMax
      ensures dist == -1 ==> outA == outA0 && outB == outB0
      ensures dist != -1 ==>
                && 0 <= bi < |regionA| && 0 <= bj < |regionB|
                && outA == regionA[bi] && outB == regionB[bj] && dist == Manhattan(outA, outB)
                && (forall i, j | 0 <= i < |regionA| && 0 <= j < |regionB| :: dist <= Manhattan(regionA[i], regionB[j]))
                && (forall i, j | 0 <= i < |regionA| && 0 <= j < |regionB| && Before(i, j, bi, bj) ::
                      dist < Manhattan(regionA[i], regionB[j]))
    {
      var bestDist := IntMax;
      var found := false;
      outA, outB, bi, bj := outA0, outB0, 0, 0;
      for i := 0 to |regionA|
        invariant BestSoFar(regionA, regionB, i, 0, found, bestDist, bi, bj)
        invariant found ==> outA == regionA[bi] && outB == regionB[bj]
        invariant !found ==> outA == outA0 && outB == outB0
      {
        for j := 0 to |regionB|
          invariant BestSoFar(regionA, regionB, i, j, found, bestDist, bi, bj)
          invariant found ==> outA == regionA[bi] && outB == regionB[bj]
          invariant !found ==> outA == outA0 && outB == outB0
        {
          var a, b := regionA[i], regionB[j];
          var d := Abs(a.x - b.x) + Abs(a.y - b.y);
          BestSoFarVisit(regionA, regionB, i, j, found, bestDist, bi, bj);
          if d < bestDist {
            bestDist := d;
            outA, outB := a, b;
            found := true;
            bi, bj := i, j;
          }
        }
        BestSoFarNextRow(regionA, regionB, i, found, bestDist, bi, bj);
      }
      BestSoFarDone(regionA, regionB, found, bestDist, bi, bj);
      dist := if found then bestDist else -1;
    }

    /**
     * CarveCorridorBetween: floor along row a.y from a.x to b.x, then along
     * column b.x from a.y to b.y, then at b itself; nothing else changes.
     */
    method CarveCorridorBetween(a: Point, b: Point)
      requires |CurrentMap| == MapWidth * MapHeight
      requires InBounds(MapWidth, MapHeight, a) && InBounds(MapWidth, MapHeight, b)
      modifies this
      ensures |CurrentMap| == MapWidth * MapHeight && NextMap == old(NextMap)
      ensures forall q | InBounds(MapWidth, MapHeight, q) ::
                Cell(CurrentMap, MapWidth, MapHeight, q) ==
                  if OnCorridor(a, b, q) then false else Cell(old(CurrentMap), MapWidth, MapHeight, q)
    {
      var w, h := MapWidth, MapHeight;
      var cx, cy := a.x, a.y;
      // The corridor runs along X from `a`, then along Y to `b`.
      var stepX := if b.x > cx then 1 else -1;
      var stepY := if b.y > cy then 1 else -1;
      while cx != b.x
        invariant Between(a.x, b.x, cx) && (cx != a.x ==> stepX == (if b.x > a.x then 1 else -1))
        invariant stepX == (if b.x > a.x then 1 else -1)
        invariant |CurrentMap| == w * h && NextMap == old(NextMap)
        invariant forall q | InBounds(w, h, q) ::
                    Cell(CurrentMap, w, h, q) == if RowLegCarved(a, cx, q) then false else Cell(old(CurrentMap), w, h, q)
        decreases Abs(b.x - cx)
      {
        CurrentMap := WithCell(CurrentMap, w, h, Point(cx, cy), false);
        cx := cx + stepX;
      }
      while cy != b.y
        invariant Between(a.y, b.y, cy)
        invariant |CurrentMap| == w * h && NextMap == old(NextMap)
        invariant forall q | InBounds(w, h, q) ::
                    Cell(CurrentMap, w, h, q) ==
                      if RowLegCarved(a, b.x, q) || ColumnLegCarved(a, b.x, cy, q) then false
                      else Cell(old(CurrentMap), w, h, q)
        decreases Abs(b.y - cy)
      {
        CurrentMap := WithCell(CurrentMap, w, h, Point(cx, cy), false);
        cy := cy + stepY;
      }
      // Finally `b` itself is opened.
      CurrentMap := WithCell(CurrentMap, w, h, b, false);
    }

    /**
     * The connection loop of EnsureConnectivity: for every region but the
     * main one, carve a corridor between the closest pair of cells of the
     * cells gathered so far and that region, then gather the region's cells.
     * Afterwards the floor is connected and has grown only by corridors.
     */
    method ConnectRegions(regions: seq<seq<Point>>, mainIndex: int, ghost labels: seq<int>)
      returns (ghost carved: set<Point>)
      requires |CurrentMap| == MapWidth * MapHeight && MapWidth * MapHeight <= IntMax
      requires RegionsOf(CurrentMap, MapWidth, MapHeight, labels, regions)
      requires forall q | InBounds(MapWidth, MapHeight, q) && !Cell(CurrentMap, MapWidth, MapHeight, q) ::
                 Cell(labels, MapWidth, MapHeight, q) != -1
      requires 0 <= mainIndex < |regions|
      modifies this
      ensures |CurrentMap| == MapWidth * MapHeight && NextMap == old(NextMap)
      ensures FloorCells(CurrentMap, MapWidth, MapHeight) == FloorCells(old(CurrentMap), MapWidth, MapHeight) + carved
      ensures forall q | q in carved :: OnFloorCorridor(FloorCells(old(CurrentMap), MapWidth, MapHeight), q)
      ensures Connected(FloorCells(CurrentMap, MapWidth, MapHeight))
      ensures BorderSealed(old(CurrentMap), MapWidth, MapHeight) ==> BorderSealed(CurrentMap, MapWidth, MapHeight)
    {
      var w, h := MapWidth, MapHeight;
      ghost var floor0 := FloorCells(CurrentMap, w, h);
      RegionsOfOnFloor(CurrentMap, w, h, labels, regions);
      ghost var root := regions[mainIndex][0];
      ghost var sealed := BorderSealed(CurrentMap, w, h);
      // Every region joined so far.
      var mainCells := regions[mainIndex];
      carved := {};
      GatherStart(CurrentMap, w, h, regions, mainIndex, sealed);
      for i := 0 to |regions|
        invariant |CurrentMap| == w * h && NextMap == old(NextMap)
        invariant Gathered(CurrentMap, w, h, floor0, carved, mainCells, root, regions, mainIndex, i, sealed)
        invariant CarvedBetween(floor0, carved, mainCells)
      {
        if i == mainIndex {
          GatherSkip(CurrentMap, w, h, floor0, carved, mainCells, root, regions, mainIndex, sealed);
          continue;
        }
        var otherCells := regions[i];
        GatherFindsPair(CurrentMap, w, h, floor0, carved, mainCells, root, regions, mainIndex, i, sealed);
        // Only read when a pair is found
        var mainCell, otherCell := Point(0, 0), Point(0, 0);
        var dist;
        ghost var bi, bj;
        dist, mainCell, otherCell, bi, bj := FindClosestPairBetweenRegions(mainCells, otherCells, mainCell, otherCell);
        if dist >= 0 {
          GatherCellsInBounds(CurrentMap, w, h, floor0, carved, mainCells, root, regions, mainIndex, i, sealed,
                              mainCell, otherCell);
          ghost var mapBefore := CurrentMap;
          CarveCorridorBetween(mainCell, otherCell);
          GatherRegion(mapBefore, CurrentMap, w, h, floor0, carved, mainCells, root, regions, mainIndex, i, sealed,
                       mainCell, otherCell);
          CarveBetween(floor0, carved, mainCells, otherCells, mainCell, otherCell);
          carved := carved + CorridorCells(mainCell, otherCell);
          // Joined cells become targets for the regions still to come.
          mainCells := mainCells + otherCells;
        }
      }
      assert Reached(FloorCells(CurrentMap, w, h), root, FloorCells(CurrentMap, w, h)) by {
        forall q | q in floor0
          ensures q in Elems(mainCells)
        {
          assert q in regions[Cell(labels, w, h, q)];
        }
      }
      RootedIsConnected(FloorCells(CurrentMap, w, h), root);
      if sealed {
        assert BorderSealed(CurrentMap, w, h) by {
          forall p | InBounds(w, h, p) && IsBorder(w, h, p)
            ensures Cell(CurrentMap, w, h, p)
          {
            assert p !in floor0 && p !in carved;
          }
        }
      }
    }

    /**
     * EnsureConnectivity: nothing happens on an empty grid or when the floor
     * forms at most one region; otherwise the regions other than the largest
     * are joined to it by corridors. Afterwards the floor is connected, it
     * has only grown, and an already connected floor is left untouched.
     */
    method EnsureConnectivity()
      requires |CurrentMap| == MapWidth * MapHeight && MapWidth * MapHeight <= IntMax
      modifies this
      ensures |CurrentMap| == MapWidth * MapHeight && NextMap == old(NextMap)
      ensures Connected(FloorCells(CurrentMap, MapWidth, MapHeight))
      ensures FloorCells(old(CurrentMap), MapWidth, MapHeight) <= FloorCells(CurrentMap, MapWidth, MapHeight)
      ensures forall q | q in FloorCells(CurrentMap, MapWidth, MapHeight) - FloorCells(old(CurrentMap), MapWidth, MapHeight) ::
                OnFloorCorridor(FloorCells(old(CurrentMap), MapWidth, MapHeight), q)
      ensures Connected(FloorCells(old(CurrentMap), MapWidth, MapHeight)) ==> CurrentMap == old(CurrentMap)
      ensures BorderSealed(old(CurrentMap), MapWidth, MapHeight) ==> BorderSealed(CurrentMap, MapWidth, MapHeight)
    {
      var numCells := MapWidth * MapHeight;
      if numCells == 0 {
        assert FloorCells(CurrentMap, MapWidth, MapHeight) == {};
        return;
      }
      var labels, regions := LabelRegions();
      if Connected(FloorCells(CurrentMap, MapWidth, MapHeight)) {
        ConnectedFloorOneRegion(CurrentMap, MapWidth, MapHeight, labels, regions);
      }
      // At most one region: already connected.
      if |regions| <= 1 {
        FewRegionsConnected(CurrentMap, MapWidth, MapHeight, labels, regions);
        return;
      }
      // The main region is the largest one (the first among equals).
      var mainIndex := ChooseMainRegion(regions);
      ghost var carved := ConnectRegions(regions, mainIndex, labels);
    }
  }
}
