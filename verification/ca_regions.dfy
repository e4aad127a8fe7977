/**
 * Floor regions of a cave grid (true = wall, false = floor): the explicit-
 * stack flood fill that labels one 4-connected region, and the labelling pass
 * that splits the floor into its regions.
 *
 * A label of -1 marks a cell not yet given a region.
 */
module CaRegions {
  import opened Grid
  import opened Paths

  /** The floor cells of a cave grid. */
  ghost function FloorCells(m: seq<bool>, w: nat, h: nat): set<Point>
    requires |m| == w * h
  {
    CellsWith(m, w, h, false)
  }

  /** Floor cells whose label is still -1. */
  ghost function OpenCells(m: seq<bool>, lab: seq<int>, w: nat, h: nat): (r: set<Point>)
    requires |m| == w * h && |lab| == w * h
    ensures forall q :: q in r <==> InBounds(w, h, q) && !Cell(m, w, h, q) && Cell(lab, w, h, q) == -1
  {
    set q | q in CellsWith(m, w, h, false) && Cell(lab, w, h, q) == -1
  }

  /** The cells of `open` that a path inside `open` joins to `s`. */
  ghost function Component(open: set<Point>, s: Point): set<Point> {
    set q | q in open && Linked(open, s, q)
  }

  /** `s` as a set. */
  ghost function Elems(s: seq<Point>): set<Point> {
    set q | q in s
  }

  /** Every cell of a path from `s` inside `open` belongs to the component of `s`. */
  lemma PathInComponent(open: set<Point>, s: Point, path: seq<Point>)
    requires IsPath(open, path) && path[0] == s
    ensures IsPath(Component(open, s), path)
  {
    forall i | 0 <= i < |path|
      ensures path[i] in Component(open, s)
    {
      assert IsPath(open, path[..i + 1]);
    }
  }

  /** A component is joined inside itself to its seed, so it is connected. */
  lemma ComponentRooted(open: set<Point>, s: Point)
    requires s in open
    ensures RootedAt(Component(open, s), s)
  {
    LinkedRefl(open, s);
    forall q | q in Component(open, s)
      ensures Linked(Component(open, s), s, q)
    {
      var path :| IsPath(open, path) && path[0] == s && path[|path| - 1] == q;
      PathInComponent(open, s, path);
    }
  }

  // ---------------------------------------------------------------------
  // Flood fill
  // ---------------------------------------------------------------------

  /** The number of floor entries still labelled -1: it bounds the work left to the fill. */
  function OpenCount(m: seq<bool>, lab: seq<int>): nat
    requires |m| == |lab|
  {
    if m == [] then 0
    else OpenCount(m[..|m| - 1], lab[..|lab| - 1]) + (if !m[|m| - 1] && lab[|lab| - 1] == -1 then 1 else 0)
  }

  /** Labelling one open floor entry lowers the count by one. */
  lemma {:induction false} OpenCountMark(m: seq<bool>, lab: seq<int>, i: int, v: int)
    requires |m| == |lab| && 0 <= i < |m|
    requires !m[i] && lab[i] == -1 && v != -1
    ensures OpenCount(m, lab[i := v]) == OpenCount(m, lab) - 1
  {
    if i < |m| - 1 {
      assert lab[i := v][..|lab| - 1] == lab[..|lab| - 1][i := v];
      OpenCountMark(m[..|m| - 1], lab[..|lab| - 1], i, v);
    } else {
      assert lab[i := v][..|lab| - 1] == lab[..|lab| - 1];
    }
  }

  /**
   * The loop invariant of the fill from `start` with label `id`, starting
   * from labels `lab0`:
   * - the labels are `lab0` with the cells of `cells` set to `id`;
   * - `cells` holds distinct cells of the component of `start` among the
   *   open cells of `lab0`;
   * - every stacked cell is on the grid, and in that component if it is open;
   * - every open, unlabelled neighbour of a labelled cell is on the stack;
   * - the start has been labelled or is still on the stack.
   */
  ghost predicate FillInv(m: seq<bool>, w: nat, h: nat, lab0: seq<int>, lab: seq<int>,
                          stack: seq<Point>, cells: seq<Point>, start: Point, id: int)
    requires |m| == w * h && |lab0| == w * h
  {
    var open := OpenCells(m, lab0, w, h);
    && |lab| == w * h
    && (forall q | q in cells :: q in Component(open, start))
    && (forall q | InBounds(w, h, q) :: Cell(lab, w, h, q) == if q in cells then id else Cell(lab0, w, h, q))
    && Distinct(cells)
    && (forall q | q in stack :: InBounds(w, h, q) && (q in open ==> q in Component(open, start)))
    && (forall c, r | c in cells && r in open && Adjacent(c, r) && r !in cells :: r in stack)
    && (start in open ==> start in cells || start in stack)
  }

  lemma FillStart(m: seq<bool>, w: nat, h: nat, lab0: seq<int>, start: Point, id: int)
    requires |m| == w * h && |lab0| == w * h && InBounds(w, h, start)
    ensures FillInv(m, w, h, lab0, lab0, [start], [], start, id)
  {
    var open := OpenCells(m, lab0, w, h);
    if start in open {
      LinkedRefl(open, start);
    }
  }

  /** Popping a cell that is a wall or already labelled keeps the invariant. */
  lemma FillSkip(m: seq<bool>, w: nat, h: nat, lab0: seq<int>, lab: seq<int>,
                 stack: seq<Point>, cells: seq<Point>, start: Point, id: int)
    requires |m| == w * h && |lab0| == w * h
    requires FillInv(m, w, h, lab0, lab, stack, cells, start, id) && id != -1
    requires |stack| > 0
    requires Cell(lab, w, h, stack[|stack| - 1]) != -1 || Cell(m, w, h, stack[|stack| - 1])
    ensures FillInv(m, w, h, lab0, lab, stack[..|stack| - 1], cells, start, id)
  {
    var open := OpenCells(m, lab0, w, h);
    var p := stack[|stack| - 1];
    var rest := stack[..|stack| - 1];
    assert forall q | q in stack && q != p :: q in rest;
    forall c, r | c in cells && r in open && Adjacent(c, r) && r !in cells
      ensures r in rest
    {
      assert r in stack && r != p;
    }
  }

  /**
   * Labelling a popped open cell and stacking its on-grid 4-neighbours keeps
   * the invariant.
   */
  lemma FillMark(m: seq<bool>, w: nat, h: nat, lab0: seq<int>, lab: seq<int>,
                 stack: seq<Point>, cells: seq<Point>, start: Point, id: int, stack': seq<Point>)
    requires |m| == w * h && |lab0| == w * h
    requires FillInv(m, w, h, lab0, lab, stack, cells, start, id) && id != -1
    requires |stack| > 0
    requires Cell(lab, w, h, stack[|stack| - 1]) == -1 && !Cell(m, w, h, stack[|stack| - 1])
    requires forall q :: q in stack' <==>
               q in stack[..|stack| - 1] || (InBounds(w, h, q) && Adjacent(stack[|stack| - 1], q))
    ensures FillInv(m, w, h, lab0, WithCell(lab, w, h, stack[|stack| - 1], id), stack',
                    cells + [stack[|stack| - 1]], start, id)
  {
    var open := OpenCells(m, lab0, w, h);
    var comp := Component(open, start);
    var p := stack[|stack| - 1];
    var rest := stack[..|stack| - 1];
    var lab' := WithCell(lab, w, h, p, id);
    var cells' := cells + [p];
    assert p !in cells;
    assert p in open && p in comp;
    forall q | q in stack'
      ensures InBounds(w, h, q) && (q in open ==> q in comp)
    {
      if q !in rest && q in open {
        LinkedStep(open, start, p, q);
      }
    }
    forall c, r | c in cells' && r in open && Adjacent(c, r) && r !in cells'
      ensures r in stack'
    {
      if c != p {
        assert r in stack && r != p;
        assert r in rest;
      }
    }
    AppendDistinct(cells, p);
  }

  /** When the stack runs empty the labelled cells are exactly the component of the start. */
  lemma FillDone(m: seq<bool>, w: nat, h: nat, lab0: seq<int>, lab: seq<int>,
                 cells: seq<Point>, start: Point, id: int)
    requires |m| == w * h && |lab0| == w * h
    requires FillInv(m, w, h, lab0, lab, [], cells, start, id)
    ensures forall q :: q in cells <==> q in Component(OpenCells(m, lab0, w, h), start)
  {
    var open := OpenCells(m, lab0, w, h);
    forall q | q in Component(open, start)
      ensures q in cells
    {
      LinkedEnds(open, start, q);
      ClosedContainsLinked(open, Elems(cells), start, q);
    }
  }

  // ---------------------------------------------------------------------
  // Labelling pass
  // ---------------------------------------------------------------------

  /** Every label is -1 or a region number below `n`, and only floor is labelled. */
  ghost predicate LabelsValid(m: seq<bool>, w: nat, h: nat, lab: seq<int>, n: int)
    requires |m| == w * h && |lab| == w * h
  {
    forall q | InBounds(w, h, q) :: -1 <= Cell(lab, w, h, q) < n && (Cell(lab, w, h, q) != -1 ==> !Cell(m, w, h, q))
  }

  /** Region i lists exactly the cells labelled i. */
  ghost predicate RegionsListed(w: nat, h: nat, lab: seq<int>, regions: seq<seq<Point>>)
    requires |lab| == w * h
  {
    && (forall i, q | 0 <= i < |regions| && q in regions[i] :: InBounds(w, h, q) && Cell(lab, w, h, q) == i)
    && (forall q | InBounds(w, h, q) && 0 <= Cell(lab, w, h, q) < |regions| :: q in regions[Cell(lab, w, h, q)])
  }

  /** Each region lists its cells once, is non-empty and is 4-connected. */
  ghost predicate RegionsShaped(regions: seq<seq<Point>>) {
    forall i | 0 <= i < |regions| :: Distinct(regions[i]) && |regions[i]| > 0 && Connected(Elems(regions[i]))
  }

  /** A floor neighbour of a labelled cell carries the same label. */
  ghost predicate LabelsClosed(m: seq<bool>, w: nat, h: nat, lab: seq<int>)
    requires |m| == w * h && |lab| == w * h
  {
    forall q, r | InBounds(w, h, q) && InBounds(w, h, r) && Adjacent(q, r) && !Cell(m, w, h, r)
                  && Cell(lab, w, h, q) != -1 :: Cell(lab, w, h, r) == Cell(lab, w, h, q)
  }

  /**
   * `lab` and `regions` describe the whole floor regions found so far: the
   * labels are valid, region i lists the cells labelled i, each region is
   * connected, and labels are closed across floor adjacencies, so each region
   * is a whole component of the floor.
   */
  ghost predicate RegionsOf(m: seq<bool>, w: nat, h: nat, lab: seq<int>, regions: seq<seq<Point>>)
    requires |m| == w * h
  {
    && |lab| == w * h
    && LabelsValid(m, w, h, lab, |regions|)
    && RegionsListed(w, h, lab, regions)
    && RegionsShaped(regions)
    && LabelsClosed(m, w, h, lab)
  }

  /** `lab'` is `lab` with the cells of `comp` set to `id`. */
  ghost predicate Relabelled(w: nat, h: nat, lab: seq<int>, lab': seq<int>, comp: set<Point>, id: int)
    requires |lab| == w * h && |lab'| == w * h
  {
    forall q | InBounds(w, h, q) :: Cell(lab', w, h, q) == if q in comp then id else Cell(lab, w, h, q)
  }

  lemma RegionsStart(m: seq<bool>, w: nat, h: nat)
    requires |m| == w * h
    ensures RegionsOf(m, w, h, Filled(w, h, -1), [])
  {
  }

  lemma AddKeepsValid(m: seq<bool>, w: nat, h: nat, lab: seq<int>, lab': seq<int>, comp: set<Point>, n: int)
    requires |m| == w * h && |lab| == w * h && |lab'| == w * h
    requires LabelsValid(m, w, h, lab, n) && Relabelled(w, h, lab, lab', comp, n)
    requires forall q | q in comp :: InBounds(w, h, q) && !Cell(m, w, h, q)
    ensures LabelsValid(m, w, h, lab', n + 1)
  {
  }

  lemma AddKeepsListed(w: nat, h: nat, lab: seq<int>, lab': seq<int>, regions: seq<seq<Point>>,
                       comp: set<Point>, cells: seq<Point>)
    requires |lab| == w * h && |lab'| == w * h
    requires RegionsListed(w, h, lab, regions) && Relabelled(w, h, lab, lab', comp, |regions|)
    requires forall q | InBounds(w, h, q) :: Cell(lab, w, h, q) < |regions|
    requires forall q | q in comp :: InBounds(w, h, q) && Cell(lab, w, h, q) == -1
    requires forall q :: q in cells <==> q in comp
    ensures RegionsListed(w, h, lab', regions + [cells])
  {
    var regions' := regions + [cells];
    forall i, q | 0 <= i < |regions'| && q in regions'[i]
      ensures InBounds(w, h, q) && Cell(lab', w, h, q) == i
    {
      if i < |regions| {
        assert q in regions[i];
        assert Cell(lab, w, h, q) == i;
      }
    }
    forall q | InBounds(w, h, q) && 0 <= Cell(lab', w, h, q) < |regions'|
      ensures q in regions'[Cell(lab', w, h, q)]
    {
      if q !in comp {
        assert Cell(lab', w, h, q) == Cell(lab, w, h, q);
        assert q in regions[Cell(lab, w, h, q)];
      }
    }
  }

  lemma AddKeepsClosed(m: seq<bool>, w: nat, h: nat, lab: seq<int>, lab': seq<int>, s: Point, id: int)
    requires |m| == w * h && |lab| == w * h && |lab'| == w * h && id != -1
    requires LabelsClosed(m, w, h, lab)
    requires Relabelled(w, h, lab, lab', Component(OpenCells(m, lab, w, h), s), id)
    ensures LabelsClosed(m, w, h, lab')
  {
    var open := OpenCells(m, lab, w, h);
    var comp := Component(open, s);
    forall q, r | InBounds(w, h, q) && InBounds(w, h, r) && Adjacent(q, r) && !Cell(m, w, h, r)
                  && Cell(lab', w, h, q) != -1
      ensures Cell(lab', w, h, r) == Cell(lab', w, h, q)
    {
      if q in comp {
        if Cell(lab, w, h, r) != -1 {
          // r's label would have spread to its floor neighbour q, which is open
          assert false;
        }
        LinkedStep(open, s, q, r);
      } else {
        assert Cell(lab, w, h, q) != -1;
      }
    }
  }

  /**
   * Filling from an unlabelled floor cell `s` with the next region number
   * adds a whole region: the component of `s`.
   */
  lemma RegionsAdd(m: seq<bool>, w: nat, h: nat, lab: seq<int>, regions: seq<seq<Point>>,
                   s: Point, lab': seq<int>, cells: seq<Point>)
    requires |m| == w * h && RegionsOf(m, w, h, lab, regions)
    requires InBounds(w, h, s) && !Cell(m, w, h, s) && Cell(lab, w, h, s) == -1
    requires |lab'| == w * h
    requires Relabelled(w, h, lab, lab', Component(OpenCells(m, lab, w, h), s), |regions|)
    requires Distinct(cells) && forall q :: q in cells <==> q in Component(OpenCells(m, lab, w, h), s)
    ensures RegionsOf(m, w, h, lab', regions + [cells])
    ensures forall q | InBounds(w, h, q) && Cell(lab, w, h, q) != -1 :: Cell(lab', w, h, q) == Cell(lab, w, h, q)
    ensures Cell(lab', w, h, s) == |regions|
  {
    var open := OpenCells(m, lab, w, h);
    var comp := Component(open, s);
    LinkedRefl(open, s);
    assert s in comp;
    ComponentRooted(open, s);
    assert Elems(cells) == comp;
    RootedIsConnected(comp, s);
    AddKeepsValid(m, w, h, lab, lab', comp, |regions|);
    AddKeepsListed(w, h, lab, lab', regions, comp, cells);
    AddKeepsClosed(m, w, h, lab, lab', s, |regions|);
    assert RegionsShaped(regions + [cells]) by {
      forall i | 0 <= i < |regions| + 1
        ensures Distinct((regions + [cells])[i]) && |(regions + [cells])[i]| > 0
                && Connected(Elems((regions + [cells])[i]))
      {
        if i < |regions| {
          assert (regions + [cells])[i] == regions[i];
        }
      }
    }
  }

  /** Floor cells in row-major order before (x, y) are all labelled. */
  ghost predicate ScannedUpTo(m: seq<bool>, w: nat, h: nat, lab: seq<int>, x: int, y: int)
    requires |m| == w * h && |lab| == w * h
  {
    forall q | InBounds(w, h, q) && (q.y < y || (q.y == y && q.x < x)) && !Cell(m, w, h, q) :: Cell(lab, w, h, q) != -1
  }

  /** Closed labels on a fully labelled floor are constant along floor paths. */
  lemma LinkedFloorSameLabel(m: seq<bool>, w: nat, h: nat, lab: seq<int>, a: Point, b: Point)
    requires |m| == w * h && |lab| == w * h && LabelsClosed(m, w, h, lab)
    requires forall q | InBounds(w, h, q) && !Cell(m, w, h, q) :: Cell(lab, w, h, q) != -1
    requires Linked(FloorCells(m, w, h), a, b)
    ensures InBounds(w, h, a) && InBounds(w, h, b) && Cell(lab, w, h, a) == Cell(lab, w, h, b)
  {
    var floor := FloorCells(m, w, h);
    var tag := map q | q in floor :: Cell(lab, w, h, q);
    forall q, r | q in floor && r in floor && Adjacent(q, r)
      ensures tag[q] == tag[r]
    {
      assert Cell(lab, w, h, q) != -1;
    }
    LabelConstantOnLinked(floor, tag, a, b);
  }

  /** Once every floor cell is labelled, a connected floor forms at most one region. */
  lemma ConnectedFloorOneRegion(m: seq<bool>, w: nat, h: nat, lab: seq<int>, regions: seq<seq<Point>>)
    requires |m| == w * h && RegionsOf(m, w, h, lab, regions)
    requires forall q | InBounds(w, h, q) && !Cell(m, w, h, q) :: Cell(lab, w, h, q) != -1
    requires Connected(FloorCells(m, w, h))
    ensures |regions| <= 1
  {
    if |regions| >= 2 {
      var a, b := regions[0][0], regions[1][0];
      assert a in regions[0] && b in regions[1];
      assert Cell(lab, w, h, a) == 0 && Cell(lab, w, h, b) == 1;
      LinkedFloorSameLabel(m, w, h, lab, a, b);
    }
  }
}
