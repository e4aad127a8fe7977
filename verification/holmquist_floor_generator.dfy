/**
 * Frontier-based room growth: starting from the centre cell, repeatedly pick
 * a random floor cell from the frontier list and carve one of its empty
 * 4-neighbours, dropping frontier cells that have no empty neighbour left,
 * until the target number of tiles is placed or the frontier runs dry.
 *
 * Cell polarity of this generator: true = floor, false = empty.
 */
module HolmquistFloorGenerator {
  import opened Grid
  import opened Paths
  import opened RandomStream

  /** The floor cells of a room grid. */
  ghost function FloorCells(g: seq<bool>, w: nat, h: nat): set<Point>
    requires |g| == w * h
  {
    CellsWith(g, w, h, true)
  }

  /** The neighbours visited while growing: DX = {1, -1, 0, 0}, DY = {0, 0, 1, -1}. */
  function GrowthOffsets(p: Point): (r: seq<Point>)
    ensures |r| == 4
    ensures forall i | 0 <= i < 4 :: Adjacent(p, r[i])
    ensures forall q | Adjacent(p, q) :: q in r
  {
    [Point(p.x + 1, p.y), Point(p.x - 1, p.y), Point(p.x, p.y + 1), Point(p.x, p.y - 1)]
  }

  /** The neighbours visited when counting pillars: DX = {1, -1, 0, 0}, DY = {0, 0, -1, 1}. */
  function PillarOffsets(p: Point): (r: seq<Point>)
    ensures |r| == 4
    ensures forall i | 0 <= i < 4 :: Adjacent(p, r[i])
    ensures forall q | Adjacent(p, q) :: q in r
  {
    [Point(p.x + 1, p.y), Point(p.x - 1, p.y), Point(p.x, p.y - 1), Point(p.x, p.y + 1)]
  }

  /**
   * The candidates, in order, that lie inside the grid and hold `v`
   * (out-of-bounds candidates are skipped, as the bounds test does).
   */
  function Among(g: seq<bool>, w: nat, h: nat, cands: seq<Point>, v: bool): (r: seq<Point>)
    requires |g| == w * h
    ensures |r| <= |cands|
  {
    if cands == [] then []
    else
      var last := cands[|cands| - 1];
      Among(g, w, h, cands[..|cands| - 1], v)
        + (if InBounds(w, h, last) && Cell(g, w, h, last) == v then [last] else [])
  }

  /** A cell is selected exactly when it is an in-bounds candidate holding `v`. */
  lemma {:induction false} AmongMembers(g: seq<bool>, w: nat, h: nat, cands: seq<Point>, v: bool)
    requires |g| == w * h
    ensures forall q :: q in Among(g, w, h, cands, v) <==> q in cands && InBounds(w, h, q) && Cell(g, w, h, q) == v
  {
    if cands != [] {
      var init := cands[..|cands| - 1];
      AmongMembers(g, w, h, init, v);
      assert cands == init + [cands[|cands| - 1]];
    }
  }

  /** Distinct candidates give distinct selected cells. */
  lemma {:induction false} AmongDistinct(g: seq<bool>, w: nat, h: nat, cands: seq<Point>, v: bool)
    requires |g| == w * h
    requires Distinct(cands)
    ensures Distinct(Among(g, w, h, cands, v))
  {
    if cands != [] {
      var init, last := cands[..|cands| - 1], cands[|cands| - 1];
      AmongDistinct(g, w, h, init, v);
      AmongMembers(g, w, h, init, v);
      var r := Among(g, w, h, init, v);
      forall i | 0 <= i < |r|
        ensures r[i] != last
      {
        assert r[i] in r;
        var k :| 0 <= k < |init| && init[k] == r[i];
        assert cands[k] == init[k];
      }
      if InBounds(w, h, last) && Cell(g, w, h, last) == v {
        assert Among(g, w, h, cands, v) == r + [last];
        AppendDistinct(r, last);
      } else {
        assert Among(g, w, h, cands, v) == r;
      }
    }
  }

  /** The empty in-bounds 4-neighbours of `p`, in the order they are gathered. */
  function EmptyNeighbors(g: seq<bool>, w: nat, h: nat, p: Point): (r: seq<Point>)
    requires |g| == w * h
    ensures |r| <= 4
    ensures forall q | q in r :: InBounds(w, h, q) && Adjacent(p, q) && !Cell(g, w, h, q)
    ensures forall q | InBounds(w, h, q) && Adjacent(p, q) && !Cell(g, w, h, q) :: q in r
  {
    AmongMembers(g, w, h, GrowthOffsets(p), false);
    Among(g, w, h, GrowthOffsets(p), false)
  }

  /** Removing entry i by moving the last entry into its place (TArray::RemoveAtSwap). */
  function RemoveAtSwap<T>(s: seq<T>, i: nat): (r: seq<T>)
    requires i < |s|
    ensures |r| == |s| - 1
    ensures multiset(r) == multiset(s) - multiset{s[i]}
    ensures forall j | 0 <= j < |r| && j != i :: r[j] == s[j]
    ensures i < |r| ==> r[i] == s[|s| - 1]
  {
    RemoveAtSwapMultiset(s, i);
    s[i := s[|s| - 1]][..|s| - 1]
  }

  lemma RemoveAtSwapMultiset<T>(s: seq<T>, i: nat)
    requires i < |s|
    ensures multiset(s[i := s[|s| - 1]][..|s| - 1]) == multiset(s) - multiset{s[i]}
  {
    var r := s[i := s[|s| - 1]][..|s| - 1];
    assert s == s[..i] + [s[i]] + s[i + 1..];
    if i < |s| - 1 {
      assert r == s[..i] + [s[|s| - 1]] + s[i + 1..|s| - 1];
      assert s[i + 1..] == s[i + 1..|s| - 1] + [s[|s| - 1]];
    } else {
      assert r == s[..i];
    }
  }

  /** RemoveAtSwap keeps every entry other than the removed one, and adds none. */
  lemma RemoveAtSwapMembers<T>(s: seq<T>, i: nat, x: T)
    requires i < |s|
    ensures x in RemoveAtSwap(s, i) ==> x in s
    ensures x in s && x != s[i] ==> x in RemoveAtSwap(s, i)
  {
    var r := RemoveAtSwap(s, i);
    assert x in r <==> x in multiset(r);
    assert x in s <==> x in multiset(s);
  }

  /** The size check as written: the product of the two sides must be positive. */
  predicate SizeAcceptedAsWritten(w: int, h: int) {
    w * h > 0
  }

  /** The size check the model uses: both sides must be positive. */
  predicate SizeAccepted(w: int, h: int) {
    w > 0 && h > 0
  }

  /** C++ halving of an int32: the quotient is truncated toward zero. */
  function TruncHalf(a: int): int {
    if a >= 0 then a / 2 else -((-a) / 2)
  }

  /**
   * Two negative sides can pass the check as written: -3 x -1 gives 3 cells,
   * yet no cell is in bounds and the centre (-3/2, -1/2) = (-1, 0) lands at
   * flat position -1, outside the 3-entry grid.
   */
  lemma NegativeSizeAcceptedAsWritten()
    ensures SizeAcceptedAsWritten(-3, -1)
    ensures forall p :: !InBounds(-3, -1, p)
    ensures TruncHalf(-3) == -1 && TruncHalf(-1) == 0
    ensures Index(-3, Point(TruncHalf(-3), TruncHalf(-1))) == -1
    ensures !SizeAccepted(-3, -1)
  {
  }

  /**
   * The corrected check accepts exactly the sizes with a non-empty grid,
   * whose centre then lies in bounds; on non-negative sides it agrees with
   * the check as written.
   */
  lemma SizeAcceptedCentreInBounds(w: int, h: int)
    ensures SizeAccepted(w, h) ==> w * h > 0 && InBounds(w, h, Point(w / 2, h / 2))
    ensures w >= 0 && h >= 0 ==> (SizeAccepted(w, h) <==> SizeAcceptedAsWritten(w, h))
  {
    if w > 0 && h > 0 {
      MulMono(1, h, w);
    }
  }

  /**
   * What holds of the grid and the frontier while the room grows from
   * `start`: `tiles` floor cells, all linked to `start`; every frontier cell
   * is floor; a floor cell off the frontier has no empty in-bounds neighbour.
   */
  ghost predicate GrowthInvariant(g: seq<bool>, frontier: seq<Point>, w: nat, h: nat, start: Point, tiles: int) {
    && |g| == w * h
    && Occurrences(g, true) == tiles
    && RootedAt(FloorCells(g, w, h), start)
    && (forall c | c in frontier :: c in FloorCells(g, w, h))
    && (forall q, n | q in FloorCells(g, w, h) && q !in frontier && InBounds(w, h, n) && Adjacent(q, n) ::
          n in FloorCells(g, w, h))
  }

  /** An empty grid with its centre carved and the centre as only frontier cell. */
  lemma InitialGrowthInvariant(w: nat, h: nat, start: Point)
    requires InBounds(w, h, start)
    ensures GrowthInvariant(WithCell(Filled(w, h, false), w, h, start, true), [start], w, h, start, 1)
  {
    var g0 := Filled(w, h, false);
    IndexInRange(w, h, start);
    OccurrencesAll(g0, false);
    OccurrencesUpdate(g0, Index(w, start), true, true);
    CellsWithNone(g0, w, h, true);
    CellsWithUpdate(g0, w, h, start, true);
    LinkedRefl({start}, start);
  }

  /** Dropping a frontier cell that has no empty neighbour keeps the invariant. */
  lemma DropPreservesGrowthInvariant(g: seq<bool>, frontier: seq<Point>, w: nat, h: nat, start: Point, tiles: int, i: nat)
    requires GrowthInvariant(g, frontier, w, h, start, tiles)
    requires i < |frontier| && EmptyNeighbors(g, w, h, frontier[i]) == []
    ensures GrowthInvariant(g, RemoveAtSwap(frontier, i), w, h, start, tiles)
  {
    var rest := RemoveAtSwap(frontier, i);
    forall c | c in frontier || c in rest
      ensures (c in rest ==> c in frontier) && (c in frontier && c != frontier[i] ==> c in rest)
    {
      RemoveAtSwapMembers(frontier, i, c);
    }
    forall q, n | q in FloorCells(g, w, h) && q !in rest && InBounds(w, h, n) && Adjacent(q, n)
      ensures n in FloorCells(g, w, h)
    {
      if q == frontier[i] {
        assert n !in EmptyNeighbors(g, w, h, frontier[i]);
      }
    }
  }

  /**
   * Carving an empty neighbour of a frontier cell and appending it to the
   * frontier keeps the invariant with one more tile.
   */
  lemma CarvePreservesGrowthInvariant(g: seq<bool>, frontier: seq<Point>, w: nat, h: nat, start: Point, tiles: int,
                                      cell: Point, newCell: Point)
    requires GrowthInvariant(g, frontier, w, h, start, tiles)
    requires cell in frontier && newCell in EmptyNeighbors(g, w, h, cell)
    ensures GrowthInvariant(WithCell(g, w, h, newCell, true), frontier + [newCell], w, h, start, tiles + 1)
  {
    var floor := FloorCells(g, w, h);
    IndexInRange(w, h, newCell);
    OccurrencesUpdate(g, Index(w, newCell), true, true);
    CellsWithUpdate(g, w, h, newCell, true);
    RootedAdd(floor, start, cell, newCell);
  }

  /**
   * Once the frontier is empty, the floor is closed under stepping to
   * in-bounds neighbours, so it is the whole grid.
   */
  lemma ExhaustedGrowthFillsGrid(g: seq<bool>, frontier: seq<Point>, w: nat, h: nat, start: Point, tiles: int)
    requires GrowthInvariant(g, frontier, w, h, start, tiles) && frontier == []
    ensures tiles == w * h
    ensures FloorCells(g, w, h) == set x: int, y: int | 0 <= x < w && 0 <= y < h :: Point(x, y)
  {
    LinkedEnds(FloorCells(g, w, h), start, start);
    forall q | InBounds(w, h, q)
      ensures Cell(g, w, h, q)
    {
      ClosedIsFull(w, h, FloorCells(g, w, h), start, q);
    }
    AllCellsOccurrences(g, w, h, true);
  }

  /** Where a growing room stands: grid, frontier, next unused draw and tiles placed. */
  datatype Growth = Growth(grid: seq<bool>, frontier: seq<Point>, k: nat, tiles: int)

  /**
   * The room grown on from a state by the draws from `k` on: while fewer
   * than `target` tiles are placed and the frontier is not empty, one draw
   * picks a frontier cell; a cell without an empty neighbour is dropped,
   * otherwise a second draw picks one of its empty neighbours, which is
   * carved and joins the frontier.
   */
  ghost function Grow(g: seq<bool>, frontier: seq<Point>, w: nat, h: nat, stream: Stream, k: nat, tiles: int,
                      target: int): Growth
    requires |g| == w * h
    decreases target - tiles, |frontier|
  {
    if tiles >= target || |frontier| == 0 then Growth(g, frontier, k, tiles)
    else
      var i := RandRange(stream, k, 0, |frontier| - 1);
      var empties := EmptyNeighbors(g, w, h, frontier[i]);
      if |empties| == 0 then Grow(g, RemoveAtSwap(frontier, i), w, h, stream, k + 1, tiles, target)
      else
        var newCell := empties[RandRange(stream, k + 1, 0, |empties| - 1)];
        Grow(WithCell(g, w, h, newCell, true), frontier + [newCell], w, h, stream, k + 2, tiles + 1, target)
  }

  /** A drawn frontier cell with no empty neighbour is dropped, using one draw. */
  lemma GrowDrops(g: seq<bool>, frontier: seq<Point>, w: nat, h: nat, stream: Stream, k: nat, tiles: int, target: int,
                  i: nat)
    requires |g| == w * h && tiles < target && |frontier| > 0
    requires i == RandRange(stream, k, 0, |frontier| - 1) && EmptyNeighbors(g, w, h, frontier[i]) == []
    ensures Grow(g, frontier, w, h, stream, k, tiles, target)
         == Grow(g, RemoveAtSwap(frontier, i), w, h, stream, k + 1, tiles, target)
  {
  }

  /** Otherwise a second draw picks the empty neighbour that is carved. */
  lemma GrowCarves(g: seq<bool>, frontier: seq<Point>, w: nat, h: nat, stream: Stream, k: nat, tiles: int, target: int,
                   i: nat, empties: seq<Point>, j: nat)
    requires |g| == w * h && tiles < target && |frontier| > 0
    requires i == RandRange(stream, k, 0, |frontier| - 1)
    requires empties == EmptyNeighbors(g, w, h, frontier[i]) && |empties| > 0
    requires j == RandRange(stream, k + 1, 0, |empties| - 1)
    ensures InBounds(w, h, empties[j])
    ensures Grow(g, frontier, w, h, stream, k, tiles, target)
         == Grow(WithCell(g, w, h, empties[j], true), frontier + [empties[j]], w, h, stream, k + 2, tiles + 1, target)
  {
  }

  /**
   * The growth loop's state: the growth invariant holds with `tiles` placed,
   * and growing on from here by the draws from `k` ends in `grown`.
   */
  ghost predicate Growing(g: seq<bool>, frontier: seq<Point>, w: nat, h: nat, start: Point, tiles: int, stream: Stream,
                          k: nat, target: int, grown: Growth) {
    && GrowthInvariant(g, frontier, w, h, start, tiles)
    && 1 <= tiles <= target
    && Grow(g, frontier, w, h, stream, k, tiles, target) == grown
  }

  /** Dropping the drawn frontier cell, when it has no empty neighbour, keeps the loop state. */
  lemma DropStep(g: seq<bool>, frontier: seq<Point>, w: nat, h: nat, start: Point, tiles: int, stream: Stream,
                 k: nat, target: int, grown: Growth, i: nat, frontier': seq<Point>, k': nat)
    requires Growing(g, frontier, w, h, start, tiles, stream, k, target, grown) && tiles < target && |frontier| > 0
    requires i == RandRange(stream, k, 0, |frontier| - 1) && EmptyNeighbors(g, w, h, frontier[i]) == []
    requires frontier' == RemoveAtSwap(frontier, i) && k' == k + 1
    ensures Growing(g, frontier', w, h, start, tiles, stream, k', target, grown)
  {
    DropPreservesGrowthInvariant(g, frontier, w, h, start, tiles, i);
    GrowDrops(g, frontier, w, h, stream, k, tiles, target, i);
  }

  /** Carving the drawn empty neighbour of the drawn frontier cell keeps the loop state. */
  lemma CarveStep(g: seq<bool>, frontier: seq<Point>, w: nat, h: nat, start: Point, tiles: int, stream: Stream,
                  k: nat, target: int, grown: Growth, i: nat, empties: seq<Point>, j: nat,
                  g': seq<bool>, frontier': seq<Point>, tiles': int, k': nat)
    requires Growing(g, frontier, w, h, start, tiles, stream, k, target, grown) && tiles < target && |frontier| > 0
    requires i == RandRange(stream, k, 0, |frontier| - 1)
    requires empties == EmptyNeighbors(g, w, h, frontier[i]) && |empties| > 0
    requires j == RandRange(stream, k + 1, 0, |empties| - 1)
    requires InBounds(w, h, empties[j]) && g' == WithCell(g, w, h, empties[j], true)
    requires frontier' == frontier + [empties[j]] && tiles' == tiles + 1 && k' == k + 2
    ensures Growing(g', frontier', w, h, start, tiles', stream, k', target, grown)
  {
    assert empties[j] in empties;
    CarvePreservesGrowthInvariant(g, frontier, w, h, start, tiles, frontier[i], empties[j]);
    GrowCarves(g, frontier, w, h, stream, k, tiles, target, i, empties, j);
  }

  /**
   * The room a whole run grows on a w x h grid with both sides positive:
   * the centre carved, then Grow up to clamp(numTiles, 1, w*h) tiles.
   */
  ghost function GrownRoom(w: int, h: int, numTiles: int, stream: Stream, k0: nat): Growth
    requires SizeAccepted(w, h)
  {
    SizeAcceptedCentreInBounds(w, h);
    var start := Point(w / 2, h / 2);
    Grow(WithCell(Filled(w, h, false), w, h, start, true), [start], w, h, stream, k0, 1, Clamp(numTiles, 1, w * h))
  }

  class HolmquistFloorGenerator {
    // ---- configuration (editor properties) ----
    const GridWidth: int
    const GridHeight: int
    const NumTiles: int

    /** Logical grid: true = floor, false = empty. */
    var Grid: seq<bool>
    /** Floor cells to grow from. */
    var Frontier: seq<Point>

    /** The editor defaults: a 20 x 20 grid and 50 tiles. */
    constructor Default()
      ensures GridWidth == 20 && GridHeight == 20 && NumTiles == 50
      ensures Grid == [] && Frontier == []
    {
      GridWidth := 20;
      GridHeight := 20;
      NumTiles := 50;
      Grid := [];
      Frontier := [];
    }

    constructor (gridWidth: int, gridHeight: int, numTiles: int)
      ensures GridWidth == gridWidth && GridHeight == gridHeight && NumTiles == numTiles
      ensures Grid == [] && Frontier == []
    {
      GridWidth := gridWidth;
      GridHeight := gridHeight;
      NumTiles := numTiles;
      Grid := [];
      Frontier := [];
    }

    /** The floor test used for wall placement: false outside the grid. */
    predicate HasFloorAt(nx: int, ny: int)
      requires GridWidth >= 0 && GridHeight >= 0 && |Grid| == GridWidth * GridHeight
      reads this
    {
      InBounds(GridWidth, GridHeight, Point(nx, ny)) && Cell(Grid, GridWidth, GridHeight, Point(nx, ny))
    }

    /** HasFloorAt is membership in the floor set. */
    lemma HasFloorAtIsFloor(nx: int, ny: int)
      requires GridWidth >= 0 && GridHeight >= 0 && |Grid| == GridWidth * GridHeight
      ensures HasFloorAt(nx, ny) <==> Point(nx, ny) in FloorCells(Grid, GridWidth, GridHeight)
    {
    }

    /**
     * The neighbour count of the pillar pass: in-bounds 4-neighbours of
     * (x, y) that are floor.
     */
    method CountFloorNeighbors(x: int, y: int) returns (count: int)
      requires GridWidth >= 0 && GridHeight >= 0 && |Grid| == GridWidth * GridHeight
      ensures count == |Among(Grid, GridWidth, GridHeight, PillarOffsets(Point(x, y)), true)|
      ensures 0 <= count <= 4
    {
      var w: nat, h: nat := GridWidth, GridHeight;
      var offsets := PillarOffsets(Point(x, y));
      count := 0;
      for i := 0 to 4
        invariant count == |Among(Grid, w, h, offsets[..i], true)|
      {
        assert offsets[..i + 1][..i] == offsets[..i];
        var n := offsets[i];
        if InBounds(w, h, n) && Cell(Grid, w, h, n) {
          count := count + 1;
        }
      }
      assert offsets[..4] == offsets;
    }

    /** A pillar goes on an empty cell with at least three floor 4-neighbours. */
    predicate IsPillarGap(p: Point)
      requires GridWidth >= 0 && GridHeight >= 0 && |Grid| == GridWidth * GridHeight
      reads this
    {
      InBounds(GridWidth, GridHeight, p) && !Cell(Grid, GridWidth, GridHeight, p)
      && |Among(Grid, GridWidth, GridHeight, PillarOffsets(p), true)| >= 3
    }

    /** A pillar gap is an empty cell with three distinct floor cells next to it. */
    lemma PillarGapHasThreeFloorNeighbours(p: Point)
      requires GridWidth >= 0 && GridHeight >= 0 && |Grid| == GridWidth * GridHeight
      requires IsPillarGap(p)
      ensures p !in FloorCells(Grid, GridWidth, GridHeight)
      ensures exists a, b, c ::
                && a != b && b != c && a != c
                && a in FloorCells(Grid, GridWidth, GridHeight) && Adjacent(p, a)
                && b in FloorCells(Grid, GridWidth, GridHeight) && Adjacent(p, b)
                && c in FloorCells(Grid, GridWidth, GridHeight) && Adjacent(p, c)
    {
      var w: nat, h: nat := GridWidth, GridHeight;
      var offsets := PillarOffsets(p);
      AmongDistinct(Grid, w, h, offsets, true);
      AmongMembers(Grid, w, h, offsets, true);
      var r := Among(Grid, w, h, offsets, true);
      var a, b, c := r[0], r[1], r[2];
      assert a in r && b in r && c in r;
      assert a != b && b != c && a != c;
      assert a in offsets && b in offsets && c in offsets;
      assert a in FloorCells(Grid, w, h) && Adjacent(p, a);
      assert b in FloorCells(Grid, w, h) && Adjacent(p, b);
      assert c in FloorCells(Grid, w, h) && Adjacent(p, c);
    }

    /** The empty in-bounds neighbours of `cell`, gathered in DX/DY order. */
    method GatherEmptyNeighbors(cell: Point) returns (empties: seq<Point>)
      requires GridWidth >= 0 && GridHeight >= 0 && |Grid| == GridWidth * GridHeight
      ensures empties == EmptyNeighbors(Grid, GridWidth, GridHeight, cell)
    {
      var w: nat, h: nat := GridWidth, GridHeight;
      var offsets := GrowthOffsets(cell);
      empties := [];
      for i := 0 to 4
        invariant empties == Among(Grid, w, h, offsets[..i], false)
      {
        assert offsets[..i + 1][..i] == offsets[..i];
        var n := offsets[i];
        if InBounds(w, h, n) && !Cell(Grid, w, h, n) {
          empties := empties + [n];
        }
      }
      assert offsets[..4] == offsets;
    }

    /**
     * GenerateRoomLayout. An invalid size leaves every field as it was.
     * Otherwise the grid is rebuilt from the centre and ends with exactly
     * `targetTiles` = clamp(NumTiles, 1, W*H) floor cells forming one
     * 4-connected blob around the centre; every frontier cell is floor.
     */
    method GenerateRoomLayout(stream: Stream, k0: nat) returns (k: nat, tilesPlaced: int, targetTiles: int)
      modifies this
      ensures !SizeAccepted(GridWidth, GridHeight) ==>
                Grid == old(Grid) && Frontier == old(Frontier) && k == k0
      ensures SizeAccepted(GridWidth, GridHeight) ==>
                && |Grid| == GridWidth * GridHeight
                && targetTiles == Clamp(NumTiles, 1, GridWidth * GridHeight)
                && tilesPlaced == targetTiles
                && Occurrences(Grid, true) == tilesPlaced
                && RootedAt(FloorCells(Grid, GridWidth, GridHeight), Point(GridWidth / 2, GridHeight / 2))
                && Connected(FloorCells(Grid, GridWidth, GridHeight))
                && (forall i | 0 <= i < |Frontier| :: Frontier[i] in FloorCells(Grid, GridWidth, GridHeight))
                && Growth(Grid, Frontier, k, tilesPlaced) == GrownRoom(GridWidth, GridHeight, NumTiles, stream, k0)
    {
      if !SizeAccepted(GridWidth, GridHeight) {
        return k0, 0, 0;
      }
      var w: nat, h: nat := GridWidth, GridHeight;
      var numCells := w * h;
      SizeAcceptedCentreInBounds(w, h);

      Grid := Filled(w, h, false);
      Frontier := [];

      // The room is seeded at the centre cell.
      var start := Point(w / 2, h / 2);
      InitialGrowthInvariant(w, h, start);
      Grid := WithCell(Grid, w, h, start, true);
      Frontier := Frontier + [start];

      targetTiles := Clamp(NumTiles, 1, numCells);
      ghost var g1, f1 := Grid, Frontier;
      k, tilesPlaced := GrowRoom(stream, k0, start, targetTiles);
      assert g1 == WithCell(Filled(w, h, false), w, h, start, true) && f1 == [start];
      if tilesPlaced < targetTiles {
        // The frontier ran dry, so the blob is closed and fills the grid
        ExhaustedGrowthFillsGrid(Grid, Frontier, w, h, start, tilesPlaced);
      }
      RootedIsConnected(FloorCells(Grid, w, h), start);
      assert forall i | 0 <= i < |Frontier| :: Frontier[i] in Frontier;
    }

    /**
     * The growth loop of GenerateRoomLayout: from a single carved tile, grow
     * by the draws from `k0` on until `targetTiles` tiles are placed or the
     * frontier runs dry; the outcome is the one Grow gives.
     */
    method GrowRoom(stream: Stream, k0: nat, ghost start: Point, targetTiles: int) returns (k: nat, tilesPlaced: int)
      requires GridWidth >= 0 && GridHeight >= 0 && 1 <= targetTiles
      requires GrowthInvariant(Grid, Frontier, GridWidth, GridHeight, start, 1)
      modifies this
      ensures GrowthInvariant(Grid, Frontier, GridWidth, GridHeight, start, tilesPlaced)
      ensures 1 <= tilesPlaced <= targetTiles && (tilesPlaced == targetTiles || Frontier == [])
      ensures Growth(Grid, Frontier, k, tilesPlaced)
           == Grow(old(Grid), old(Frontier), GridWidth, GridHeight, stream, k0, 1, targetTiles)
    {
      var w: nat, h: nat := GridWidth, GridHeight;
      tilesPlaced := 1;
      k := k0;
      ghost var grown := Grow(Grid, Frontier, w, h, stream, k0, 1, targetTiles);

      while tilesPlaced < targetTiles && |Frontier| > 0
        invariant Growing(Grid, Frontier, w, h, start, tilesPlaced, stream, k, targetTiles, grown)
        decreases targetTiles - tilesPlaced, |Frontier|
      {
        // First draw: which frontier cell to extend.
        ghost var kDraw := k;
        var frontierIndex := RandRange(stream, k, 0, |Frontier| - 1);
        k := k + 1;
        var cell := Frontier[frontierIndex];

        var emptyNeighbors := GatherEmptyNeighbors(cell);
        if |emptyNeighbors| == 0 {
          // No empty neighbour left: drop it from the frontier
          ghost var frontier0 := Frontier;
          Frontier := RemoveAtSwap(Frontier, frontierIndex);
          DropStep(Grid, frontier0, w, h, start, tilesPlaced, stream, kDraw, targetTiles, grown, frontierIndex, Frontier, k);
          continue;
        }

        // Second draw: which of its empty neighbours becomes floor.
        var randEmptyIndex := RandRange(stream, k, 0, |emptyNeighbors| - 1);
        k := k + 1;
        var newCell := emptyNeighbors[randEmptyIndex];

        ghost var grid0, frontier0, tiles0 := Grid, Frontier, tilesPlaced;
        Grid := WithCell(Grid, w, h, newCell, true);
        Frontier := Frontier + [newCell];
        tilesPlaced := tilesPlaced + 1;
        CarveStep(grid0, frontier0, w, h, start, tiles0, stream, kDraw, targetTiles, grown, frontierIndex,
                  emptyNeighbors, randEmptyIndex, Grid, Frontier, tilesPlaced, k);
      }

      assert grown == Growth(Grid, Frontier, k, tilesPlaced);
    }
  }
}
