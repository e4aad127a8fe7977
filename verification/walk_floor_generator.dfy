/**
 * The random-walk ("drunkard's walk") carver: an all-wall grid in which a
 * walker, kept one cell away from the border, carves floor on every cell it
 * steps on.
 *
 * Cell polarity of this generator: true = wall, false = floor.
 */
module WalkFloorGenerator {
  import opened Grid
  import opened Paths
  import opened RandomStream

  /** The floor cells of a walk grid. */
  ghost function FloorCells(m: seq<bool>, w: nat, h: nat): set<Point>
    requires |m| == w * h
  {
    CellsWith(m, w, h, false)
  }

  /** The cells the walker may stand on: [1, w-2] x [1, h-2]. */
  predicate Interior(w: int, h: int, p: Point) {
    1 <= p.x <= w - 2 && 1 <= p.y <= h - 2
  }

  /**
   * One move of the walker: direction 0..3 moves +X, -X, +Y, -Y (any other
   * value stays put), then the position is clamped back into the interior.
   */
  function Move(w: int, h: int, p: Point, dir: int): (r: Point)
    requires w >= 3 && h >= 3 && Interior(w, h, p)
    ensures Interior(w, h, r)
    ensures r == p || Adjacent(p, r)
  {
    var x := if dir == 0 then p.x + 1 else if dir == 1 then p.x - 1 else p.x;
    var y := if dir == 2 then p.y + 1 else if dir == 3 then p.y - 1 else p.y;
    Point(Clamp(x, 1, w - 2), Clamp(y, 1, h - 2))
  }

  /**
   * Where the walker starts: the centre (W/2, H/2), or an interior cell drawn
   * as RandRange(1, W-2), RandRange(1, H-2) from draws k and k+1.
   */
  function WalkStart(w: int, h: int, inCenter: bool, stream: Stream, k: nat): (r: Point)
    requires w >= 3 && h >= 3
    ensures Interior(w, h, r)
    ensures inCenter ==> r == Point(w / 2, h / 2)
  {
    if inCenter then Point(w / 2, h / 2)
    else Point(RandRange(stream, k, 1, w - 2), RandRange(stream, k + 1, 1, h - 2))
  }

  /**
   * Where a walker that starts at `start` stands once it has used the
   * direction draws k0 .. k - 1, one per step.
   */
  function WalkPos(w: int, h: int, start: Point, stream: Stream, k0: nat, k: nat): (r: Point)
    requires w >= 3 && h >= 3 && Interior(w, h, start)
    ensures Interior(w, h, r)
    decreases k - k0
  {
    if k <= k0 then start
    else Move(w, h, WalkPos(w, h, start, stream, k0, k - 1), RandRange(stream, k - 1, 0, 3))
  }

  /** The cells the walker stands on while it uses the draws k0 .. k - 1, the start included. */
  ghost function WalkCells(w: int, h: int, start: Point, stream: Stream, k0: nat, k: nat): set<Point>
    requires w >= 3 && h >= 3 && Interior(w, h, start)
    decreases k - k0
  {
    if k <= k0 then {start} else WalkCells(w, h, start, stream, k0, k - 1) + {WalkPos(w, h, start, stream, k0, k)}
  }

  /** The walker always stands on a cell it has stood on. */
  lemma WalkPosIn(w: int, h: int, start: Point, stream: Stream, k0: nat, k: nat)
    requires w >= 3 && h >= 3 && Interior(w, h, start)
    ensures WalkPos(w, h, start, stream, k0, k) in WalkCells(w, h, start, stream, k0, k)
  {
  }

  /** Each step adds at most one cell: at most one more cell than steps. */
  lemma {:induction false} WalkCellsSize(w: int, h: int, start: Point, stream: Stream, k0: nat, k: nat)
    requires w >= 3 && h >= 3 && Interior(w, h, start) && k0 <= k
    ensures |WalkCells(w, h, start, stream, k0, k)| <= k - k0 + 1
    decreases k - k0
  {
    if k > k0 {
      WalkCellsSize(w, h, start, stream, k0, k - 1);
    }
  }

  /**
   * The cells a whole run carves from the draws starting at `k0`: the start
   * (drawn first unless it is the centre), then max(numSteps, 0) steps.
   */
  ghost function WalkedCells(w: int, h: int, numSteps: int, inCenter: bool, stream: Stream, k0: nat): set<Point>
    requires w >= 3 && h >= 3
  {
    var k1 := if inCenter then k0 else k0 + 2;
    WalkCells(w, h, WalkStart(w, h, inCenter, stream, k0), stream, k1, k1 + if numSteps < 0 then 0 else numSteps)
  }

  /** A run that stopped at draw `k` after all its steps carved WalkedCells. */
  lemma WalkedCellsAt(w: int, h: int, numSteps: int, inCenter: bool, stream: Stream, k0: nat, start: Point, k1: nat, k: nat)
    requires w >= 3 && h >= 3
    requires start == WalkStart(w, h, inCenter, stream, k0) && k1 == (if inCenter then k0 else k0 + 2)
    requires k == k1 + (if numSteps < 0 then 0 else numSteps)
    ensures WalkedCells(w, h, numSteps, inCenter, stream, k0) == WalkCells(w, h, start, stream, k1, k)
  {
  }

  /**
   * What the walk keeps true of the grid: the floor is the initial floor plus
   * the carved cells, which are interior and all linked to the start.
   */
  ghost predicate Walked(m: seq<bool>, w: nat, h: nat, floor0: set<Point>, carved: set<Point>, start: Point) {
    && |m| == w * h
    && FloorCells(m, w, h) == floor0 + carved
    && RootedAt(carved, start)
    && (forall p | p in carved :: Interior(w, h, p))
  }

  /** Carving the start cell establishes the walk invariant. */
  lemma FirstCarveWalked(m: seq<bool>, w: nat, h: nat, start: Point)
    requires |m| == w * h && Interior(w, h, start)
    ensures Walked(WithCell(m, w, h, start, false), w, h, FloorCells(m, w, h), {start}, start)
  {
    CellsWithUpdate(m, w, h, start, false);
    LinkedRefl({start}, start);
  }

  /**
   * Carving the cell the walker moved to (the same cell or a 4-neighbour of a
   * carved cell, inside the interior) keeps the walk invariant.
   */
  lemma CarveStepWalked(m: seq<bool>, w: nat, h: nat, floor0: set<Point>, carved: set<Point>, start: Point,
                        p: Point, next: Point)
    requires Walked(m, w, h, floor0, carved, start)
    requires p in carved && Interior(w, h, next) && (next == p || Adjacent(p, next))
    ensures Walked(WithCell(m, w, h, next, false), w, h, floor0, carved + {next}, start)
  {
    CellsWithUpdate(m, w, h, next, false);
    assert FloorCells(WithCell(m, w, h, next, false), w, h) == FloorCells(m, w, h) + {next};
    RootedAdd(carved, start, p, next);
  }

  /** One step of the walk from draw `k` carves the next cell and keeps the walk invariant. */
  lemma WalkStepWalked(m: seq<bool>, w: nat, h: nat, floor0: set<Point>, start: Point, stream: Stream, k1: nat, k: nat)
    requires w >= 3 && h >= 3 && Interior(w, h, start) && k1 <= k
    requires Walked(m, w, h, floor0, WalkCells(w, h, start, stream, k1, k), start)
    ensures Walked(WithCell(m, w, h, WalkPos(w, h, start, stream, k1, k + 1), false), w, h, floor0,
                   WalkCells(w, h, start, stream, k1, k + 1), start)
  {
    WalkPosIn(w, h, start, stream, k1, k);
    CarveStepWalked(m, w, h, floor0, WalkCells(w, h, start, stream, k1, k), start,
                    WalkPos(w, h, start, stream, k1, k), WalkPos(w, h, start, stream, k1, k + 1));
  }

  class WalkFloorGenerator {
    // ---- configuration (editor properties) ----
    const MapWidth: int
    const MapHeight: int
    const NumSteps: int
    const StartInCenter: bool

    /** Cells holding true are walls. */
    var Map: seq<bool>

    /** The editor defaults: a 60 x 40 grid, 1000 steps from the centre. */
    constructor Default()
      ensures MapWidth == 60 && MapHeight == 40 && NumSteps == 1000 && StartInCenter
      ensures Map == []
    {
      MapWidth := 60;
      MapHeight := 40;
      NumSteps := 1000;
      StartInCenter := true;
      Map := [];
    }

    constructor (mapWidth: int, mapHeight: int, numSteps: int, startInCenter: bool)
      ensures MapWidth == mapWidth && MapHeight == mapHeight
      ensures NumSteps == numSteps && StartInCenter == startInCenter
      ensures Map == []
    {
      MapWidth := mapWidth;
      MapHeight := mapHeight;
      NumSteps := numSteps;
      StartInCenter := startInCenter;
      Map := [];
    }

    /**
     * GenerateMap: nothing happens for a non-positive cell count; otherwise
     * the map is rebuilt as all wall and the walk carves its floor.
     * `k0` is the next unused draw of the engine stream, `k` the one after the run.
     */
    method GenerateMap(stream: Stream, k0: nat) returns (k: nat, ghost carved: set<Point>)
      modifies this
      ensures MapWidth * MapHeight <= 0 ==> Map == old(Map) && k == k0 && carved == {}
      ensures MapWidth * MapHeight > 0 ==> |Map| == MapWidth * MapHeight
      ensures MapWidth * MapHeight > 0 && (MapWidth <= 2 || MapHeight <= 2) ==>
                (forall i | 0 <= i < |Map| :: Map[i]) && k == k0 && carved == {}
      ensures MapWidth >= 3 && MapHeight >= 3 ==>
                && |Map| == MapWidth * MapHeight
                && FloorCells(Map, MapWidth, MapHeight) == carved
                && Connected(carved)
                && carved != {}
                && (forall p | p in carved :: Interior(MapWidth, MapHeight, p))
                && (forall p | InBounds(MapWidth, MapHeight, p) && !Interior(MapWidth, MapHeight, p) ::
                      Cell(Map, MapWidth, MapHeight, p))
                && |carved| <= (if NumSteps < 0 then 0 else NumSteps) + 1
                && carved == WalkedCells(MapWidth, MapHeight, NumSteps, StartInCenter, stream, k0)
    {
      var numCells := MapWidth * MapHeight;
      if numCells <= 0 {
        return k0, {};
      }
      InitializeMap();
      if MapWidth >= 3 && MapHeight >= 3 {
        CellsWithNone(Map, MapWidth, MapHeight, false);
      }
      ghost var start;
      k, carved, start := RunRandomWalk(stream, k0);
      if MapWidth >= 3 && MapHeight >= 3 {
        RootedIsConnected(carved, start);
      }
    }

    /** InitializeMap: SetNum(W*H), then every cell becomes wall. */
    method InitializeMap()
      requires MapWidth * MapHeight >= 0
      modifies this
      ensures Map == seq(MapWidth * MapHeight, _ => true)
    {
      var numCells := MapWidth * MapHeight;
      Map := SetNum(Map, numCells);
      var i := 0;
      while i < numCells
        invariant 0 <= i <= numCells && |Map| == numCells
        invariant forall j | 0 <= j < i :: Map[j]
      {
        Map := Map[i := true];
        i := i + 1;
      }
      assert Map == seq(numCells, _ => true);
    }

    /**
     * RunRandomWalk: on a grid with both sides at least 3, start at the centre
     * (or at a drawn interior cell), carve it, then take NumSteps clamped
     * steps carving each cell reached. Returns the carved cells and the start.
     */
    method RunRandomWalk(stream: Stream, k0: nat) returns (k: nat, ghost carved: set<Point>, ghost start: Point)
      requires |Map| == MapWidth * MapHeight
      modifies this
      ensures |Map| == MapWidth * MapHeight
      ensures MapWidth <= 2 || MapHeight <= 2 ==> Map == old(Map) && k == k0 && carved == {}
      ensures MapWidth >= 3 && MapHeight >= 3 ==>
                && FloorCells(Map, MapWidth, MapHeight) == FloorCells(old(Map), MapWidth, MapHeight) + carved
                && RootedAt(carved, start)
                && (forall p | p in carved :: Interior(MapWidth, MapHeight, p))
                && |carved| <= (if NumSteps < 0 then 0 else NumSteps) + 1
                && start == WalkStart(MapWidth, MapHeight, StartInCenter, stream, k0)
                && k == k0 + (if StartInCenter then 0 else 2) + (if NumSteps < 0 then 0 else NumSteps)
                && carved == WalkedCells(MapWidth, MapHeight, NumSteps, StartInCenter, stream, k0)
    {
      if MapWidth <= 2 || MapHeight <= 2 {
        return k0, {}, Point(0, 0);
      }
      var w: nat, h: nat := MapWidth, MapHeight;
      var p0 := WalkStart(w, h, StartInCenter, stream, k0);
      k := if StartInCenter then k0 else k0 + 2;
      var x, y := p0.x, p0.y;
      start := p0;
      ghost var floor0 := FloorCells(Map, w, h);
      FirstCarveWalked(Map, w, h, start);
      Map := WithCell(Map, w, h, Point(x, y), false);
      var k1 := k;
      k := TakeSteps(stream, start, floor0, k1, x, y);
      carved := WalkCells(w, h, start, stream, k1, k);
      WalkCellsSize(w, h, start, stream, k1, k);
      WalkedCellsAt(w, h, NumSteps, StartInCenter, stream, k0, start, k1, k);
    }

    /**
     * The stepping loop of RunRandomWalk: NumSteps clamped moves from
     * `start`, one direction draw each, carving every cell reached.
     */
    method TakeSteps(stream: Stream, ghost start: Point, ghost floor0: set<Point>, k1: nat, x0: int, y0: int) returns (k: nat)
      requires MapWidth >= 3 && MapHeight >= 3 && Interior(MapWidth, MapHeight, start)
      requires Point(x0, y0) == start
      requires Walked(Map, MapWidth, MapHeight, floor0, WalkCells(MapWidth, MapHeight, start, stream, k1, k1), start)
      modifies this
      ensures k == k1 + (if NumSteps < 0 then 0 else NumSteps)
      ensures Walked(Map, MapWidth, MapHeight, floor0, WalkCells(MapWidth, MapHeight, start, stream, k1, k), start)
    {
      var w: nat, h: nat := MapWidth, MapHeight;
      var x, y := x0, y0;
      k := k1;
      var step := 0;
      while step < NumSteps
        invariant 0 <= step && (step <= NumSteps || step == 0)
        invariant k == k1 + step
        invariant Point(x, y) == WalkPos(w, h, start, stream, k1, k)
        invariant Walked(Map, w, h, floor0, WalkCells(w, h, start, stream, k1, k), start)
      {
        var dir := RandRange(stream, k, 0, 3);
        var next := Move(w, h, Point(x, y), dir);
        WalkStepWalked(Map, w, h, floor0, start, stream, k1, k);
        k := k + 1;
        x, y := next.x, next.y;
        Map := WithCell(Map, w, h, next, false);
        step := step + 1;
      }
    }
  }
}
