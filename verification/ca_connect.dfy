/**
 * Joining cave regions: the L-shaped corridor carved between two cells, the
 * closest-pair search between two regions, and the reachability facts that
 * show each corridor joins a region to the main one.
 */
module CaConnect {
  import opened Grid
  import opened Paths

  // ---------------------------------------------------------------------
  // Corridor
  // ---------------------------------------------------------------------

  function Min(a: int, b: int): int { if a <= b then a else b }
  function Max(a: int, b: int): int { if a <= b then b else a }

  /** `v` lies between `a` and `b`, ends included, in either order. */
  predicate Between(a: int, b: int, v: int) {
    Min(a, b) <= v <= Max(a, b)
  }

  /**
   * The cells of the corridor from `a` to `b`: first along row a.y from a.x
   * to b.x, then along column b.x from a.y to b.y.
   */
  predicate OnCorridor(a: Point, b: Point, q: Point) {
    (q.y == a.y && Between(a.x, b.x, q.x)) || (q.x == b.x && Between(a.y, b.y, q.y))
  }

  ghost function CorridorCells(a: Point, b: Point): (r: set<Point>)
    ensures forall q :: q in r <==> OnCorridor(a, b, q)
  {
    set x: int, y: int | Min(a.x, b.x) <= x <= Max(a.x, b.x) && Min(a.y, b.y) <= y <= Max(a.y, b.y)
                         && OnCorridor(a, b, Point(x, y)) :: Point(x, y)
  }

  /** `q` lies on the corridor between some two cells of `floor`. */
  ghost predicate OnFloorCorridor(floor: set<Point>, q: Point) {
    exists a, b | a in floor && b in floor :: OnCorridor(a, b, q)
  }

  /** A corridor between two cells of the grid stays on the grid. */
  lemma CorridorInBounds(w: int, h: int, a: Point, b: Point, q: Point)
    requires InBounds(w, h, a) && InBounds(w, h, b) && OnCorridor(a, b, q)
    ensures InBounds(w, h, q)
  {
  }

  /** Every corridor cell is joined to `a` along the corridor. */
  lemma {:induction false} CorridorLinked(a: Point, b: Point, q: Point)
    requires OnCorridor(a, b, q)
    ensures Linked(CorridorCells(a, b), a, q)
    decreases Manhattan(a, q)
  {
    var c := CorridorCells(a, b);
    if q == a {
      LinkedRefl(c, a);
    } else {
      var q' := if q.y == a.y then (if q.x < a.x then Point(q.x + 1, q.y) else Point(q.x - 1, q.y))
                else (if q.y < a.y then Point(q.x, q.y + 1) else Point(q.x, q.y - 1));
      assert OnCorridor(a, b, q') && Adjacent(q', q);
      CorridorLinked(a, b, q');
      LinkedStep(c, a, q', q);
    }
  }

  /** The corridor is one piece rooted at `a`, and it reaches `b`. */
  lemma CorridorRooted(a: Point, b: Point)
    ensures RootedAt(CorridorCells(a, b), a) && b in CorridorCells(a, b)
  {
    assert OnCorridor(a, b, a) && OnCorridor(a, b, b);
    forall q | q in CorridorCells(a, b)
      ensures Linked(CorridorCells(a, b), a, q)
    {
      CorridorLinked(a, b, q);
    }
  }

  // ---------------------------------------------------------------------
  // Closest pair
  // ---------------------------------------------------------------------

  /** The largest int32, the search's starting best distance. */
  const IntMax := 0x7fff_ffff

  /** Pair (i, j) comes before pair (bi, bj) in the search's row-major scan. */
  predicate Before(i: int, j: int, bi: int, bj: int) {
    i < bi || (i == bi && j < bj)
  }

  /**
   * What the scan knows after visiting the pairs before (i, j): with no pair
   * found, every visited distance is at least IntMax; with one found, (bi, bj)
   * is the first visited pair of least distance `best`, below IntMax.
   */
  ghost predicate BestSoFar(ra: seq<Point>, rb: seq<Point>, i: int, j: int,
                            found: bool, best: int, bi: int, bj: int) {
    && (!found ==> best == IntMax
                   && forall i', j' | 0 <= i' < |ra| && 0 <= j' < |rb| && Before(i', j', i, j) ::
                        Manhattan(ra[i'], rb[j']) >= IntMax)
    && (found ==> && 0 <= bi < |ra| && 0 <= bj < |rb| && Before(bi, bj, i, j)
                  && best == Manhattan(ra[bi], rb[bj]) && best < IntMax
                  && (forall i', j' | 0 <= i' < |ra| && 0 <= j' < |rb| && Before(i', j', i, j) ::
                        best <= Manhattan(ra[i'], rb[j']))
                  && (forall i', j' | 0 <= i' < |ra| && 0 <= j' < |rb| && Before(i', j', bi, bj) ::
                        best < Manhattan(ra[i'], rb[j'])))
  }

  /** Visiting pair (i, j) with the scan's strict comparison keeps BestSoFar. */
  lemma BestSoFarVisit(ra: seq<Point>, rb: seq<Point>, i: int, j: int,
                       found: bool, best: int, bi: int, bj: int)
    requires 0 <= i < |ra| && 0 <= j < |rb|
    requires BestSoFar(ra, rb, i, j, found, best, bi, bj)
    ensures Manhattan(ra[i], rb[j]) < best ==>
              BestSoFar(ra, rb, i, j + 1, true, Manhattan(ra[i], rb[j]), i, j)
    ensures !(Manhattan(ra[i], rb[j]) < best) ==> BestSoFar(ra, rb, i, j + 1, found, best, bi, bj)
  {
  }

  /** Pairs before (i, |rb|) are exactly the pairs before (i + 1, 0). */
  lemma BestSoFarNextRow(ra: seq<Point>, rb: seq<Point>, i: int, found: bool, best: int, bi: int, bj: int)
    requires BestSoFar(ra, rb, i, |rb|, found, best, bi, bj)
    ensures BestSoFar(ra, rb, i + 1, 0, found, best, bi, bj)
  {
    if found {
      assert bi <= i;
    }
  }

  /** After the last row BestSoFar speaks of every pair. */
  lemma BestSoFarDone(ra: seq<Point>, rb: seq<Point>, found: bool, best: int, bi: int, bj: int)
    requires BestSoFar(ra, rb, |ra|, 0, found, best, bi, bj)
    ensures !found <==> forall i, j | 0 <= i < |ra| && 0 <= j < |rb| :: Manhattan(ra[i], rb[j]) >= IntMax
    ensures found ==> && 0 <= bi < |ra| && 0 <= bj < |rb| && best == Manhattan(ra[bi], rb[bj])
                      && (forall i, j | 0 <= i < |ra| && 0 <= j < |rb| :: best <= Manhattan(ra[i], rb[j]))
                      && (forall i, j | 0 <= i < |ra| && 0 <= j < |rb| && Before(i, j, bi, bj) ::
                            best < Manhattan(ra[i], rb[j]))
  {
    if found {
      assert Manhattan(ra[bi], rb[bj]) < IntMax;
    }
  }

  /** Cells of a w-by-h grid lie less than w + h apart. */
  lemma ManhattanInGrid(w: nat, h: nat, a: Point, b: Point)
    requires InBounds(w, h, a) && InBounds(w, h, b)
    ensures Manhattan(a, b) <= w + h - 2
  {
  }

  /** w + h - 1 never exceeds w * h for positive sides. */
  lemma SidesBelowArea(w: nat, h: nat)
    requires w >= 1 && h >= 1
    ensures w + h - 1 <= w * h
  {
    assert (w - 1) * (h - 1) >= 0;
  }

  /**
   * For cells of a grid of at most IntMax cells, no pair is IntMax or more
   * apart, so the search comes back empty exactly when one list is empty.
   */
  lemma NoPairIffEmpty(w: nat, h: nat, ra: seq<Point>, rb: seq<Point>)
    requires w * h <= IntMax
    requires forall i | 0 <= i < |ra| :: InBounds(w, h, ra[i])
    requires forall j | 0 <= j < |rb| :: InBounds(w, h, rb[j])
    ensures (forall i, j | 0 <= i < |ra| && 0 <= j < |rb| :: Manhattan(ra[i], rb[j]) >= IntMax)
            <==> (|ra| == 0 || |rb| == 0)
  {
    if |ra| > 0 && |rb| > 0 {
      ManhattanInGrid(w, h, ra[0], rb[0]);
      SidesBelowArea(w, h);
    }
  }

  // ---------------------------------------------------------------------
  // Reachability
  // ---------------------------------------------------------------------

  /** Every cell of `s` is joined to `root` inside `floor`. */
  ghost predicate Reached(floor: set<Point>, root: Point, s: set<Point>) {
    forall q | q in s :: Linked(floor, root, q)
  }

  /** Growing the floor keeps what was reached. */
  lemma ReachedMono(floor: set<Point>, floor': set<Point>, root: Point, s: set<Point>)
    requires Reached(floor, root, s) && floor <= floor'
    ensures Reached(floor', root, s)
  {
    forall q | q in s
      ensures Linked(floor', root, q)
    {
      LinkedMono(floor, floor', root, q);
    }
  }

  /**
   * Carving a corridor from a reached cell `a` to a cell `b` of a connected
   * region, with both the corridor and the region inside the new floor,
   * reaches the corridor and the whole region.
   */
  lemma CorridorJoins(floor: set<Point>, root: Point, a: Point, b: Point, region: set<Point>)
    requires Linked(floor, root, a)
    requires CorridorCells(a, b) <= floor && region <= floor
    requires b in region && Connected(region)
    ensures Reached(floor, root, CorridorCells(a, b) + region)
  {
    var c := CorridorCells(a, b);
    CorridorRooted(a, b);
    forall q | q in c + region
      ensures Linked(floor, root, q)
    {
      if q in c {
        LinkedMono(c, floor, a, q);
        LinkedTrans(floor, root, a, q);
      } else {
        LinkedMono(c, floor, a, b);
        LinkedTrans(floor, root, a, b);
        LinkedMono(region, floor, b, q);
        LinkedTrans(floor, root, b, q);
      }
    }
  }
}
