/**
 * The cellular-automaton cave rules: the random initial fill, the 8-cell
 * (Moore) wall count and the birth/death rule applied synchronously to the
 * whole grid.
 *
 * Cell polarity of this generator: true = wall, false = floor.
 */
module CaRules {
  import opened Grid
  import opened RandomStream

  // ---------------------------------------------------------------------
  // Initial fill
  // ---------------------------------------------------------------------

  /** The outermost ring of a w-by-h grid, which the initial fill seals. */
  predicate IsBorder(w: int, h: int, p: Point) {
    p.x == 0 || p.y == 0 || p.x == w - 1 || p.y == h - 1
  }

  /** The number of interior cells along a side of length `n`. */
  function InnerLength(n: int): nat {
    if n >= 3 then n - 2 else 0
  }

  /**
   * The draw consumed by interior cell `p`: interior cells draw in row-major
   * order, so `p` is preceded by p.y - 1 full interior rows and p.x - 1 cells
   * of its own row.
   */
  function DrawIndex(w: int, p: Point): int {
    (p.y - 1) * (w - 2) + (p.x - 1)
  }

  /**
   * The initial content of cell `p`: a wall on the border; inside, a wall
   * exactly when its draw from [0, 100] is below `chance`.
   */
  function InitialWall(w: nat, h: nat, chance: int, stream: Stream, k0: nat, p: Point): bool
    requires InBounds(w, h, p)
  {
    if IsBorder(w, h, p) then true
    else
      DrawIndexInRange(w, h, p);
      RandRange(stream, k0 + DrawIndex(w, p), 0, 100) < chance
  }

  /**
   * Every interior cell has its own draw, and the draws of the interior are
   * exactly k0 .. k0 + (w-2)*(h-2) - 1.
   */
  lemma DrawIndexInRange(w: nat, h: nat, p: Point)
    requires InBounds(w, h, p) && !IsBorder(w, h, p)
    ensures 0 <= DrawIndex(w, p) < InnerLength(w) * InnerLength(h)
  {
    assert InnerLength(w) == w - 2 && InnerLength(h) == h - 2;
    MulMono(p.y - 1, h - 3, w - 2);
    assert (h - 3) * (w - 2) + (w - 2) == (h - 2) * (w - 2);
  }

  lemma DrawIndexInjective(w: nat, h: nat, p: Point, q: Point)
    requires InBounds(w, h, p) && !IsBorder(w, h, p)
    requires InBounds(w, h, q) && !IsBorder(w, h, q)
    requires DrawIndex(w, p) == DrawIndex(w, q)
    ensures p == q
  {
    var p', q' := Point(p.x - 1, p.y - 1), Point(q.x - 1, q.y - 1);
    assert DrawIndex(w, p) == Index(w - 2, p') && DrawIndex(w, q) == Index(w - 2, q');
    IndexInjective(w - 2, h - 2, p', q');
  }

  /** The whole grid after the initial fill, cell by cell as InitialWall says. */
  function InitialFill(w: nat, h: nat, chance: int, stream: Stream, k0: nat): (r: seq<bool>)
    ensures |r| == w * h
    ensures forall p | InBounds(w, h, p) :: Cell(r, w, h, p) == InitialWall(w, h, chance, stream, k0, p)
  {
    var r := seq(w * h, i => if w == 0 then true
                             else var p := PointOf(w, i);
                                  if InBounds(w, h, p) then InitialWall(w, h, chance, stream, k0, p) else true);
    assert forall p | InBounds(w, h, p) :: Cell(r, w, h, p) == InitialWall(w, h, chance, stream, k0, p) by {
      forall p | InBounds(w, h, p)
        ensures Cell(r, w, h, p) == InitialWall(w, h, chance, stream, k0, p)
      {
        IndexInRange(w, h, p);
        PointOfIndex(w, h, Index(w, p));
        IndexInjective(w, h, p, PointOf(w, Index(w, p)));
      }
    }
    r
  }

  /** With a chance of 0 or less the interior starts as floor; above 100 it starts as wall. */
  lemma InitialWallExtremes(w: nat, h: nat, chance: int, stream: Stream, k0: nat, p: Point)
    requires InBounds(w, h, p) && !IsBorder(w, h, p)
    ensures chance <= 0 ==> !InitialWall(w, h, chance, stream, k0, p)
    ensures chance > 100 ==> InitialWall(w, h, chance, stream, k0, p)
  {
    DrawIndexInRange(w, h, p);
  }

  // ---------------------------------------------------------------------
  // Neighbour count
  // ---------------------------------------------------------------------

  /** Off-grid positions count as wall, which keeps the cave closed. */
  predicate WallAt(m: seq<bool>, w: nat, h: nat, q: Point)
    requires |m| == w * h
  {
    !InBounds(w, h, q) || Cell(m, w, h, q)
  }

  /**
   * Position `i` (0..8) of the 3x3 window around `p` in scan order: rows
   * y-1 .. y+1, each from x-1 to x+1; position 4 is `p` itself.
   */
  function WindowCell(p: Point, i: nat): Point {
    Point(p.x - 1 + i % 3, p.y - 1 + i / 3)
  }

  /** 1 when window position `i` of `p` is a wall other than `p`, else 0. */
  function Counted(m: seq<bool>, w: nat, h: nat, p: Point, i: nat): nat
    requires |m| == w * h
  {
    var q := WindowCell(p, i);
    if q != p && WallAt(m, w, h, q) then 1 else 0
  }

  /** The walls other than `p` among the first `n` window positions. */
  function CountedUpTo(m: seq<bool>, w: nat, h: nat, p: Point, n: nat): (r: nat)
    requires |m| == w * h
    ensures r <= n
  {
    if n == 0 then 0 else CountedUpTo(m, w, h, p, n - 1) + Counted(m, w, h, p, n - 1)
  }

  /** The number of walls among the 8 cells around `p`. */
  function WallNeighbors(m: seq<bool>, w: nat, h: nat, p: Point): nat
    requires |m| == w * h
  {
    CountedUpTo(m, w, h, p, 9)
  }

  /** The count spelled out over the nine window positions. */
  lemma WallNeighborsExpanded(m: seq<bool>, w: nat, h: nat, p: Point)
    requires |m| == w * h
    ensures WallNeighbors(m, w, h, p)
              == Counted(m, w, h, p, 0) + Counted(m, w, h, p, 1) + Counted(m, w, h, p, 2)
               + Counted(m, w, h, p, 3) + Counted(m, w, h, p, 4) + Counted(m, w, h, p, 5)
               + Counted(m, w, h, p, 6) + Counted(m, w, h, p, 7) + Counted(m, w, h, p, 8)
  {
    var n0, n1, n2, n3, n4 := Counted(m, w, h, p, 0), Counted(m, w, h, p, 1), Counted(m, w, h, p, 2),
                              Counted(m, w, h, p, 3), Counted(m, w, h, p, 4);
    var n5, n6, n7, n8 := Counted(m, w, h, p, 5), Counted(m, w, h, p, 6), Counted(m, w, h, p, 7),
                          Counted(m, w, h, p, 8);
    assert CountedUpTo(m, w, h, p, 1) == n0;
    assert CountedUpTo(m, w, h, p, 2) == n0 + n1;
    assert CountedUpTo(m, w, h, p, 3) == n0 + n1 + n2;
    assert CountedUpTo(m, w, h, p, 4) == n0 + n1 + n2 + n3;
    assert CountedUpTo(m, w, h, p, 5) == n0 + n1 + n2 + n3 + n4;
    assert CountedUpTo(m, w, h, p, 6) == n0 + n1 + n2 + n3 + n4 + n5;
    assert CountedUpTo(m, w, h, p, 7) == n0 + n1 + n2 + n3 + n4 + n5 + n6;
    assert CountedUpTo(m, w, h, p, 8) == n0 + n1 + n2 + n3 + n4 + n5 + n6 + n7;
  }

  /** The cell itself is skipped, so the count is between 0 and 8. */
  lemma WallNeighborsAtMostEight(m: seq<bool>, w: nat, h: nat, p: Point)
    requires |m| == w * h
    ensures WallNeighbors(m, w, h, p) <= 8
  {
    WallNeighborsExpanded(m, w, h, p);
    assert WindowCell(p, 4) == p;
  }

  /** The 8 cells around `p`. */
  predicate AroundCell(p: Point, q: Point) {
    q != p && -1 <= q.x - p.x <= 1 && -1 <= q.y - p.y <= 1
  }

  /** The count reads only the 8 cells around `p` (off-grid ones being wall). */
  lemma WallNeighborsLocal(m: seq<bool>, n: seq<bool>, w: nat, h: nat, p: Point)
    requires |m| == w * h && |n| == w * h
    requires forall q | AroundCell(p, q) :: WallAt(m, w, h, q) == WallAt(n, w, h, q)
    ensures WallNeighbors(m, w, h, p) == WallNeighbors(n, w, h, p)
  {
    WallNeighborsExpanded(m, w, h, p);
    WallNeighborsExpanded(n, w, h, p);
    forall i | 0 <= i < 9
      ensures Counted(m, w, h, p, i) == Counted(n, w, h, p, i)
    {
      var q := WindowCell(p, i);
      if q != p {
        assert AroundCell(p, q);
      }
    }
  }

  /** A cell with only walls around it counts 8; a cell with only floor around it counts 0. */
  lemma WallNeighborsExtremes(m: seq<bool>, w: nat, h: nat, p: Point)
    requires |m| == w * h
    ensures (forall q | AroundCell(p, q) :: WallAt(m, w, h, q)) ==> WallNeighbors(m, w, h, p) == 8
    ensures (forall q | AroundCell(p, q) :: !WallAt(m, w, h, q)) ==> WallNeighbors(m, w, h, p) == 0
  {
    WallNeighborsExpanded(m, w, h, p);
    forall i | 0 <= i < 9 && i != 4
      ensures AroundCell(p, WindowCell(p, i))
    {
    }
    assert WindowCell(p, 4) == p;
  }

  /**
   * A cell of a sealed border ring counts at least five walls: the three
   * off-grid positions beyond its edge and its two neighbours along the
   * edge, which are border walls or off the grid themselves.
   */
  lemma BorderCountsFive(m: seq<bool>, w: nat, h: nat, p: Point)
    requires |m| == w * h && InBounds(w, h, p) && IsBorder(w, h, p)
    requires forall q | InBounds(w, h, q) && IsBorder(w, h, q) :: Cell(m, w, h, q)
    ensures WallNeighbors(m, w, h, p) >= 5
  {
    WallNeighborsExpanded(m, w, h, p);
    if p.x == 0 {
      assert IsBorder(w, h, WindowCell(p, 1)) && IsBorder(w, h, WindowCell(p, 7));
      assert Counted(m, w, h, p, 0) == 1 && Counted(m, w, h, p, 3) == 1 && Counted(m, w, h, p, 6) == 1;
      assert Counted(m, w, h, p, 1) == 1 && Counted(m, w, h, p, 7) == 1;
    } else if p.x == w - 1 {
      assert IsBorder(w, h, WindowCell(p, 1)) && IsBorder(w, h, WindowCell(p, 7));
      assert Counted(m, w, h, p, 2) == 1 && Counted(m, w, h, p, 5) == 1 && Counted(m, w, h, p, 8) == 1;
      assert Counted(m, w, h, p, 1) == 1 && Counted(m, w, h, p, 7) == 1;
    } else if p.y == 0 {
      assert IsBorder(w, h, WindowCell(p, 3)) && IsBorder(w, h, WindowCell(p, 5));
      assert Counted(m, w, h, p, 0) == 1 && Counted(m, w, h, p, 1) == 1 && Counted(m, w, h, p, 2) == 1;
      assert Counted(m, w, h, p, 3) == 1 && Counted(m, w, h, p, 5) == 1;
    } else {
      assert IsBorder(w, h, WindowCell(p, 3)) && IsBorder(w, h, WindowCell(p, 5));
      assert Counted(m, w, h, p, 6) == 1 && Counted(m, w, h, p, 7) == 1 && Counted(m, w, h, p, 8) == 1;
      assert Counted(m, w, h, p, 3) == 1 && Counted(m, w, h, p, 5) == 1;
    }
  }

  // ---------------------------------------------------------------------
  // The birth/death rule
  // ---------------------------------------------------------------------

  /**
   * The next state of one cell from its state and wall count: a wall with
   * fewer than `death` wall neighbours becomes floor, a floor with more than
   * `birth` becomes wall, and every other cell keeps its state.
   */
  function NextWall(wall: bool, n: int, birth: int, death: int): bool {
    if wall then !(n < death) else n > birth
  }

  /** One synchronous step: every cell's next state is computed from `m` alone. */
  function Step(m: seq<bool>, w: nat, h: nat, birth: int, death: int): (r: seq<bool>)
    requires |m| == w * h
    ensures |r| == w * h
    ensures forall p | InBounds(w, h, p) ::
              Cell(r, w, h, p) == NextWall(Cell(m, w, h, p), WallNeighbors(m, w, h, p), birth, death)
  {
    if w == 0 then m
    else
      var r := seq(w * h, i requires 0 <= i < w * h => NextWall(m[i], WallNeighbors(m, w, h, PointOf(w, i)), birth, death));
      assert forall p | InBounds(w, h, p) ::
               Cell(r, w, h, p) == NextWall(Cell(m, w, h, p), WallNeighbors(m, w, h, p), birth, death) by {
        forall p | InBounds(w, h, p)
          ensures Cell(r, w, h, p) == NextWall(Cell(m, w, h, p), WallNeighbors(m, w, h, p), birth, death)
        {
          IndexInRange(w, h, p);
          PointOfIndex(w, h, Index(w, p));
          IndexInjective(w, h, p, PointOf(w, Index(w, p)));
        }
      }
      r
  }

  /** `steps` applications of Step. */
  function Simulate(m: seq<bool>, w: nat, h: nat, birth: int, death: int, steps: nat): (r: seq<bool>)
    requires |m| == w * h
    ensures |r| == w * h
  {
    if steps == 0 then m else Step(Simulate(m, w, h, birth, death, steps - 1), w, h, birth, death)
  }

  /**
   * The cave before the connectivity repair: the initial fill of the draws
   * from `k0` on, smoothed by `steps` steps (none when `steps` is negative).
   */
  function SmoothedCave(w: nat, h: nat, chance: int, birth: int, death: int, steps: int,
                        stream: Stream, k0: nat): (r: seq<bool>)
    ensures |r| == w * h
  {
    Simulate(InitialFill(w, h, chance, stream, k0), w, h, birth, death, if steps < 0 then 0 else steps)
  }

  /** Every cell of the border ring is wall. */
  ghost predicate BorderSealed(m: seq<bool>, w: nat, h: nat)
    requires |m| == w * h
  {
    forall p | InBounds(w, h, p) && IsBorder(w, h, p) :: Cell(m, w, h, p)
  }

  /**
   * With a death limit of at most 5 (the default is 3) a sealed border stays
   * sealed: each border wall counts at least five walls around it.
   */
  lemma StepKeepsBorder(m: seq<bool>, w: nat, h: nat, birth: int, death: int)
    requires |m| == w * h && BorderSealed(m, w, h) && death <= 5
    ensures BorderSealed(Step(m, w, h, birth, death), w, h)
  {
    forall p | InBounds(w, h, p) && IsBorder(w, h, p)
      ensures Cell(Step(m, w, h, birth, death), w, h, p)
    {
      BorderCountsFive(m, w, h, p);
    }
  }

  lemma {:induction false} SimulateKeepsBorder(m: seq<bool>, w: nat, h: nat, birth: int, death: int, steps: nat)
    requires |m| == w * h && BorderSealed(m, w, h) && death <= 5
    ensures BorderSealed(Simulate(m, w, h, birth, death, steps), w, h)
  {
    if steps > 0 {
      var prev := Simulate(m, w, h, birth, death, steps - 1);
      SimulateKeepsBorder(m, w, h, birth, death, steps - 1);
      StepKeepsBorder(prev, w, h, birth, death);
      assert Simulate(m, w, h, birth, death, steps) == Step(prev, w, h, birth, death);
    }
  }

  /** A 5-by-3 cave: a wall ring around three floor cells. */
  const RingCave: seq<bool> := [true, true, true, true, true,
                                true, false, false, false, true,
                                true, true, true, true, true]

  lemma RingCaveSealed()
    ensures |RingCave| == 5 * 3 && BorderSealed(RingCave, 5, 3)
  {
    forall p | InBounds(5, 3, p) && IsBorder(5, 3, p)
      ensures Cell(RingCave, 5, 3, p)
    {
      var m := RingCave;
      if p.y == 0 {
        assert Cell(m, 5, 3, p) == m[p.x];
      } else if p.y == 2 {
        assert Cell(m, 5, 3, p) == m[10 + p.x];
      } else {
        assert p.y == 1 && (p.x == 0 || p.x == 4);
        assert Cell(m, 5, 3, p) == m[5 + p.x];
      }
    }
  }

  /**
   * A top-edge cell between two walls, above three floor cells, counts
   * exactly five walls: the three off-grid positions and its two sides.
   */
  lemma TopEdgeCountsFive(m: seq<bool>, w: nat, h: nat, p: Point)
    requires |m| == w * h && p.y == 0 && 1 <= p.x <= w - 2 && h >= 2
    requires Cell(m, w, h, Point(p.x - 1, 0)) && Cell(m, w, h, Point(p.x + 1, 0))
    requires !Cell(m, w, h, Point(p.x - 1, 1)) && !Cell(m, w, h, Point(p.x, 1)) && !Cell(m, w, h, Point(p.x + 1, 1))
    ensures WallNeighbors(m, w, h, p) == 5
  {
    WallNeighborsExpanded(m, w, h, p);
    assert Counted(m, w, h, p, 0) == 1 && Counted(m, w, h, p, 1) == 1 && Counted(m, w, h, p, 2) == 1;
    assert Counted(m, w, h, p, 3) == 1 && Counted(m, w, h, p, 4) == 0 && Counted(m, w, h, p, 5) == 1;
    assert Counted(m, w, h, p, 6) == 0 && Counted(m, w, h, p, 7) == 0 && Counted(m, w, h, p, 8) == 0;
  }

  /** The top-middle cell of RingCave sees three off-grid walls and two ring walls. */
  lemma RingCaveTopCount()
    ensures |RingCave| == 5 * 3 && WallNeighbors(RingCave, 5, 3, Point(2, 0)) == 5
  {
    var m := RingCave;
    assert Cell(m, 5, 3, Point(1, 0)) == m[1] && Cell(m, 5, 3, Point(3, 0)) == m[3];
    assert Cell(m, 5, 3, Point(1, 1)) == m[6] && Cell(m, 5, 3, Point(2, 1)) == m[7];
    assert Cell(m, 5, 3, Point(3, 1)) == m[8];
    TopEdgeCountsFive(m, 5, 3, Point(2, 0));
  }

  /**
   * A death limit of 6 opens a sealed border: the top-middle wall of
   * RingCave counts only 5 walls and turns to floor.
   */
  lemma DeathSixOpensBorder()
    ensures BorderSealed(RingCave, 5, 3) && !BorderSealed(Step(RingCave, 5, 3, 4, 6), 5, 3)
  {
    RingCaveSealed();
    RingCaveTopCount();
    WallBelowDeathOpens(RingCave, 5, 3, 4, 6, Point(2, 0));
  }

  /** A border wall that counts fewer walls than the death limit opens the border. */
  lemma WallBelowDeathOpens(m: seq<bool>, w: nat, h: nat, birth: int, death: int, p: Point)
    requires |m| == w * h && InBounds(w, h, p) && IsBorder(w, h, p)
    requires Cell(m, w, h, p) && WallNeighbors(m, w, h, p) < death
    ensures !BorderSealed(Step(m, w, h, birth, death), w, h)
  {
    assert !Cell(Step(m, w, h, birth, death), w, h, p);
  }

  /**
   * The step with the border held at wall, which keeps the cave closed for
   * every pair of limits.
   */
  function SealedStep(m: seq<bool>, w: nat, h: nat, birth: int, death: int): (r: seq<bool>)
    requires |m| == w * h
    ensures |r| == w * h
    ensures forall p | InBounds(w, h, p) ::
              Cell(r, w, h, p) == (IsBorder(w, h, p) || NextWall(Cell(m, w, h, p), WallNeighbors(m, w, h, p), birth, death))
  {
    var s := Step(m, w, h, birth, death);
    if w == 0 then s
    else
      var r := seq(w * h, i requires 0 <= i < w * h => IsBorder(w, h, PointOf(w, i)) || s[i]);
      assert forall p | InBounds(w, h, p) :: Cell(r, w, h, p) == (IsBorder(w, h, p) || Cell(s, w, h, p)) by {
        forall p | InBounds(w, h, p)
          ensures Cell(r, w, h, p) == (IsBorder(w, h, p) || Cell(s, w, h, p))
        {
          IndexInRange(w, h, p);
          PointOfIndex(w, h, Index(w, p));
          IndexInjective(w, h, p, PointOf(w, Index(w, p)));
        }
      }
      r
  }

  /** The held step keeps the border sealed, whatever the limits. */
  lemma SealedStepKeepsBorder(m: seq<bool>, w: nat, h: nat, birth: int, death: int)
    requires |m| == w * h
    ensures BorderSealed(SealedStep(m, w, h, birth, death), w, h)
  {
  }

  /**
   * On a sealed cave with a death limit of at most 5 the held step and the
   * plain step agree, so the generator's step already behaves as intended
   * with its default limits.
   */
  lemma SealedStepAgrees(m: seq<bool>, w: nat, h: nat, birth: int, death: int)
    requires |m| == w * h && BorderSealed(m, w, h) && death <= 5
    ensures SealedStep(m, w, h, birth, death) == Step(m, w, h, birth, death)
  {
    StepKeepsBorder(m, w, h, birth, death);
    GridExtensionality(SealedStep(m, w, h, birth, death), Step(m, w, h, birth, death), w, h);
  }

  /** The initial fill seals the border. */
  lemma InitialFillSealed(m: seq<bool>, w: nat, h: nat, chance: int, stream: Stream, k0: nat)
    requires |m| == w * h
    requires forall p | InBounds(w, h, p) :: Cell(m, w, h, p) == InitialWall(w, h, chance, stream, k0, p)
    ensures BorderSealed(m, w, h)
  {
  }
}
