/**
 * Binary space partitioning of the map rectangle into leaves, and the
 * padded room rectangle placed inside each leaf.
 *
 * A leaf is the half-open integer rectangle [Min.X, Max.X) x [Min.Y, Max.Y).
 */
module BspFloorGenerator {
  import opened Grid
  import opened RandomStream

  /** FBSPLeaf: two corners; Width and Height are plain differences. */
  datatype Leaf = Leaf(min: Point, max: Point) {
    function Width(): int { max.x - min.x }
    function Height(): int { max.y - min.y }
  }

  /** The default leaf: both corners at the origin, so it is 0 by 0. */
  function DefaultLeaf(): (l: Leaf)
    ensures l.Width() == 0 && l.Height() == 0
    ensures l.min == l.max
  {
    Leaf(Point(0, 0), Point(0, 0))
  }

  /** The corner constructor keeps its corners, so the extents are their differences. */
  lemma LeafExtents(a: Point, b: Point)
    ensures Leaf(a, b).min == a && Leaf(a, b).max == b
    ensures Leaf(a, b).Width() == b.x - a.x && Leaf(a, b).Height() == b.y - a.y
  {
  }

  /** Cell `p` lies in the leaf. */
  predicate Covers(l: Leaf, p: Point) {
    l.min.x <= p.x < l.max.x && l.min.y <= p.y < l.max.y
  }

  /** `inner` lies inside `outer`, corner by corner. */
  predicate Within(inner: Leaf, outer: Leaf) {
    outer.min.x <= inner.min.x && inner.max.x <= outer.max.x &&
    outer.min.y <= inner.min.y && inner.max.y <= outer.max.y
  }

  /**
   * The leaves partition `r`: each lies inside it, every cell of `r` is in
   * some leaf, and no cell is in two leaves.
   */
  ghost predicate Partition(leaves: seq<Leaf>, r: Leaf) {
    && (forall i | 0 <= i < |leaves| :: Within(leaves[i], r))
    && (forall p | Covers(r, p) :: exists i :: 0 <= i < |leaves| && Covers(leaves[i], p))
    && (forall p, i, j | 0 <= i < j < |leaves| && Covers(leaves[i], p) :: !Covers(leaves[j], p))
  }

  /** Every leaf is at least m wide and m high. */
  predicate AllAtLeast(leaves: seq<Leaf>, m: int) {
    forall i | 0 <= i < |leaves| :: leaves[i].Width() >= m && leaves[i].Height() >= m
  }

  function Pow2(n: nat): (r: nat)
    ensures r >= 1
  {
    if n == 0 then 1 else 2 * Pow2(n - 1)
  }

  // ---------------------------------------------------------------------
  // The split decision
  // ---------------------------------------------------------------------

  /**
   * The preferred axis: vertical (cut along X) for a wide region, horizontal
   * for a tall one, a RandBool draw for a square one. Also returns the next
   * unused draw.
   */
  function PreferredAxis(w: int, h: int, stream: Stream, k: nat): (r: (bool, nat))
    ensures w > h ==> r == (true, k)
    ensures h > w ==> r == (false, k)
    ensures w == h ==> r.1 == k + 1
  {
    if w > h then (true, k)
    else if h > w then (false, k)
    else (RandBool(stream, k), k + 1)
  }

  /** The preferred axis, switched when the region is too narrow along it. */
  function FallbackAxis(vertical: bool, w: int, h: int, m: int): bool {
    if vertical && w < m * 2 then false
    else if !vertical && h < m * 2 then true
    else vertical
  }

  /** How a region is handled: emitted as a leaf, or cut at `at` along an axis. */
  datatype Plan = Stop(next: nat) | Cut(vertical: bool, at: int, next: nat)

  /**
   * The decisions of SplitSpace for region `r` at `depth`, with minimum leaf
   * size `m`, in the order the code takes them; `k` is the next unused draw.
   */
  function PlanSplit(r: Leaf, depth: int, m: int, maxDepth: int, stream: Stream, k: nat): (p: Plan)
    ensures p.Cut? ==> depth < maxDepth
    ensures p.Cut? && p.vertical ==> r.min.x + m <= p.at <= r.max.x - m
    ensures p.Cut? && !p.vertical ==> r.min.y + m <= p.at <= r.max.y - m
    ensures k <= p.next
  {
    var w, h := r.Width(), r.Height();
    // At the depth limit, or with both sides at most twice the minimum size, a region stays a leaf.
    if depth >= maxDepth || (w <= m * 2 && h <= m * 2) then Stop(k)
    else
      var (preferred, k1) := PreferredAxis(w, h, stream, k);
      var vertical := FallbackAxis(preferred, w, h, m);
      // The axis left after the fallback is still too short to cut: a leaf.
      if (vertical && w < m * 2) || (!vertical && h < m * 2) then Stop(k1)
      else if vertical then
        var splitMin, splitMax := r.min.x + m, r.max.x - m;
        if splitMin >= splitMax then Stop(k1)
        else Cut(true, RandRange(stream, k1, splitMin, splitMax), k1 + 1)
      else
        var splitMin, splitMax := r.min.y + m, r.max.y - m;
        if splitMin >= splitMax then Stop(k1)
        else Cut(false, RandRange(stream, k1, splitMin, splitMax), k1 + 1)
  }

  /**
   * Once a region passes the first stop test, the preferred axis is always
   * wider than 2m, so the axis fallback, the second stop test and the empty
   * split-range test never fire: the region is always cut along the
   * preferred axis.
   */
  lemma OnlyFirstStopFires(r: Leaf, depth: int, m: int, maxDepth: int, stream: Stream, k: nat)
    requires depth < maxDepth && !(r.Width() <= m * 2 && r.Height() <= m * 2)
    ensures FallbackAxis(PreferredAxis(r.Width(), r.Height(), stream, k).0, r.Width(), r.Height(), m)
              == PreferredAxis(r.Width(), r.Height(), stream, k).0
    ensures PreferredAxis(r.Width(), r.Height(), stream, k).0 ==> r.Width() > m * 2 && r.min.x + m < r.max.x - m
    ensures !PreferredAxis(r.Width(), r.Height(), stream, k).0 ==> r.Height() > m * 2 && r.min.y + m < r.max.y - m
  {
  }

  /**
   * The same decisions with the tests that never fire left out: stop on the
   * first test, otherwise cut along the preferred axis at a drawn position
   * at least `m` from either side.
   */
  function CutPlan(r: Leaf, depth: int, m: int, maxDepth: int, stream: Stream, k: nat): (p: Plan)
    ensures p.Cut? ==> depth < maxDepth
    ensures p.Cut? && p.vertical ==> r.min.x + m <= p.at <= r.max.x - m
    ensures p.Cut? && !p.vertical ==> r.min.y + m <= p.at <= r.max.y - m
    ensures k <= p.next
  {
    if depth >= maxDepth || (r.Width() <= m * 2 && r.Height() <= m * 2) then Stop(k)
    else
      OnlyFirstStopFires(r, depth, m, maxDepth, stream, k);
      var (vertical, k1) := PreferredAxis(r.Width(), r.Height(), stream, k);
      if vertical then Cut(true, RandRange(stream, k1, r.min.x + m, r.max.x - m), k1 + 1)
      else Cut(false, RandRange(stream, k1, r.min.y + m, r.max.y - m), k1 + 1)
  }

  /** The code's decisions and the simplified ones agree on every region. */
  lemma PlanSplitIsCutPlan(r: Leaf, depth: int, m: int, maxDepth: int, stream: Stream, k: nat)
    ensures PlanSplit(r, depth, m, maxDepth, stream, k) == CutPlan(r, depth, m, maxDepth, stream, k)
  {
    if depth < maxDepth && !(r.Width() <= m * 2 && r.Height() <= m * 2) {
      OnlyFirstStopFires(r, depth, m, maxDepth, stream, k);
    }
  }

  /** The two halves of a cut: they share the cut line and keep the other axis. */
  function Halves(r: Leaf, vertical: bool, at: int): (Leaf, Leaf) {
    if vertical then (Leaf(r.min, Point(at, r.max.y)), Leaf(Point(at, r.min.y), r.max))
    else (Leaf(r.min, Point(r.max.x, at)), Leaf(Point(r.min.x, at), r.max))
  }

  function Measure(depth: int, maxDepth: int): nat {
    if depth < maxDepth then maxDepth - depth else 0
  }

  /**
   * The leaves SplitSpace appends for region `r` at `depth`, in order, and
   * the next unused draw. It follows CutPlan, which PlanSplitIsCutPlan shows
   * to take the same decisions as the code's PlanSplit.
   */
  function SplitLeaves(r: Leaf, depth: int, m: int, maxDepth: int, stream: Stream, k: nat): (res: (seq<Leaf>, nat))
    ensures k <= res.1
    decreases Measure(depth, maxDepth)
  {
    match CutPlan(r, depth, m, maxDepth, stream, k)
    case Stop(k1) => ([r], k1)
    case Cut(vertical, at, k1) =>
      var (a, b) := Halves(r, vertical, at);
      var (left, k2) := SplitLeaves(a, depth + 1, m, maxDepth, stream, k1);
      var (right, k3) := SplitLeaves(b, depth + 1, m, maxDepth, stream, k2);
      (left + right, k3)
  }

  /** Unfolding SplitLeaves at a cut: the leaves of the first half, then those of the second. */
  lemma SplitLeavesOfCut(r: Leaf, depth: int, m: int, maxDepth: int, stream: Stream, k: nat,
                         a: Leaf, b: Leaf, k1: nat, k2: nat)
    requires CutPlan(r, depth, m, maxDepth, stream, k).Cut?
    requires CutPlan(r, depth, m, maxDepth, stream, k).next == k1
    requires (a, b) == Halves(r, CutPlan(r, depth, m, maxDepth, stream, k).vertical, CutPlan(r, depth, m, maxDepth, stream, k).at)
    requires k2 == SplitLeaves(a, depth + 1, m, maxDepth, stream, k1).1
    ensures SplitLeaves(r, depth, m, maxDepth, stream, k).0
              == SplitLeaves(a, depth + 1, m, maxDepth, stream, k1).0 + SplitLeaves(b, depth + 1, m, maxDepth, stream, k2).0
    ensures SplitLeaves(r, depth, m, maxDepth, stream, k).1 == SplitLeaves(b, depth + 1, m, maxDepth, stream, k2).1
  {
  }

  /** Unfolding SplitLeaves when the first stop test passes: the region itself is the leaf. */
  lemma SplitLeavesOfStop(r: Leaf, depth: int, m: int, maxDepth: int, stream: Stream, k: nat)
    requires depth >= maxDepth || (r.Width() <= m * 2 && r.Height() <= m * 2)
    ensures SplitLeaves(r, depth, m, maxDepth, stream, k) == ([r], k)
  {
  }

  /**
   * What SplitSpace computes past the first stop test: the axis after the
   * fallback and the draw it used, the cut drawn next on that axis, and the
   * two halves.
   */
  predicate ChosenCut(r: Leaf, depth: int, m: int, maxDepth: int, stream: Stream, k: nat,
                      vertical: bool, kc: nat, at: int, a: Leaf, b: Leaf)
  {
    && depth < maxDepth && !(r.Width() <= m * 2 && r.Height() <= m * 2)
    && vertical == FallbackAxis(PreferredAxis(r.Width(), r.Height(), stream, k).0, r.Width(), r.Height(), m)
    && kc == PreferredAxis(r.Width(), r.Height(), stream, k).1
    && (vertical ==> at == RandRange(stream, kc, r.min.x + m, r.max.x - m))
    && (!vertical ==> at == RandRange(stream, kc, r.min.y + m, r.max.y - m))
    && (a, b) == Halves(r, vertical, at)
  }

  /**
   * Unfolding SplitLeaves past the first stop test, in the terms SplitSpace
   * computes: the leaves of the first half, then those of the second.
   */
  lemma SplitLeavesOfChosenCut(r: Leaf, depth: int, m: int, maxDepth: int, stream: Stream, k: nat,
                               vertical: bool, kc: nat, at: int, a: Leaf, b: Leaf, k2: nat)
    requires ChosenCut(r, depth, m, maxDepth, stream, k, vertical, kc, at, a, b)
    requires k2 == SplitLeaves(a, depth + 1, m, maxDepth, stream, kc + 1).1
    ensures SplitLeaves(r, depth, m, maxDepth, stream, k)
              == (SplitLeaves(a, depth + 1, m, maxDepth, stream, kc + 1).0 + SplitLeaves(b, depth + 1, m, maxDepth, stream, k2).0,
                  SplitLeaves(b, depth + 1, m, maxDepth, stream, k2).1)
  {
    OnlyFirstStopFires(r, depth, m, maxDepth, stream, k);
    SplitLeavesOfCut(r, depth, m, maxDepth, stream, k, a, b, kc + 1, k2);
  }

  lemma AppendAssociative(x: seq<Leaf>, y: seq<Leaf>, z: seq<Leaf>)
    ensures (x + y) + z == x + (y + z)
  {
  }

  /** At most 2^(MaxDepth - Depth) leaves, and at least one. */
  lemma {:induction false} SplitLeavesCount(r: Leaf, depth: int, m: int, maxDepth: int, stream: Stream, k: nat)
    ensures 1 <= |SplitLeaves(r, depth, m, maxDepth, stream, k).0| <= Pow2(Measure(depth, maxDepth))
    decreases Measure(depth, maxDepth)
  {
    match CutPlan(r, depth, m, maxDepth, stream, k)
    case Stop(k1) =>
    case Cut(vertical, at, k1) =>
      var (a, b) := Halves(r, vertical, at);
      var (left, k2) := SplitLeaves(a, depth + 1, m, maxDepth, stream, k1);
      SplitLeavesCount(a, depth + 1, m, maxDepth, stream, k1);
      SplitLeavesCount(b, depth + 1, m, maxDepth, stream, k2);
  }

  /**
   * With a non-negative minimum leaf size the leaves partition the region:
   * each leaf lies inside it, and each of its cells is in exactly one leaf.
   */
  lemma {:induction false} SplitLeavesPartition(r: Leaf, depth: int, m: int, maxDepth: int, stream: Stream, k: nat)
    requires m >= 0
    ensures Partition(SplitLeaves(r, depth, m, maxDepth, stream, k).0, r)
    decreases Measure(depth, maxDepth)
  {
    match CutPlan(r, depth, m, maxDepth, stream, k)
    case Stop(k1) =>
      assert Covers(r, r.min) ==> Covers([r][0], r.min);
      forall p | Covers(r, p)
        ensures exists i :: 0 <= i < 1 && Covers([r][i], p)
      {
        assert Covers([r][0], p);
      }
    case Cut(vertical, at, k1) =>
      var (a, b) := Halves(r, vertical, at);
      var (left, k2) := SplitLeaves(a, depth + 1, m, maxDepth, stream, k1);
      var (right, k3) := SplitLeaves(b, depth + 1, m, maxDepth, stream, k2);
      SplitLeavesPartition(a, depth + 1, m, maxDepth, stream, k1);
      SplitLeavesPartition(b, depth + 1, m, maxDepth, stream, k2);
      var leaves := left + right;
      forall i | 0 <= i < |leaves|
        ensures Within(leaves[i], r)
      {
        if i < |left| {
          assert Within(left[i], a);
        } else {
          assert Within(right[i - |left|], b);
        }
      }
      forall p | Covers(r, p)
        ensures exists i :: 0 <= i < |leaves| && Covers(leaves[i], p)
      {
        if Covers(a, p) {
          var i :| 0 <= i < |left| && Covers(left[i], p);
          assert leaves[i] == left[i];
        } else {
          assert Covers(b, p);
          var i :| 0 <= i < |right| && Covers(right[i], p);
          assert leaves[|left| + i] == right[i];
        }
      }
      forall p, i, j | 0 <= i < j < |leaves| && Covers(leaves[i], p)
        ensures !Covers(leaves[j], p)
      {
        if j < |left| {
          assert leaves[i] == left[i] && leaves[j] == left[j];
        } else if i >= |left| {
          assert leaves[i] == right[i - |left|] && leaves[j] == right[j - |left|];
        } else {
          assert Within(left[i], a) && Within(right[j - |left|], b);
        }
      }
  }

  /**
   * If the region is at least m wide and m high, so is every leaf: each cut
   * leaves at least m on both sides and keeps the other axis.
   */
  lemma {:induction false} SplitLeavesMinExtent(r: Leaf, depth: int, m: int, maxDepth: int, stream: Stream, k: nat)
    requires r.Width() >= m && r.Height() >= m
    ensures AllAtLeast(SplitLeaves(r, depth, m, maxDepth, stream, k).0, m)
    decreases Measure(depth, maxDepth)
  {
    match CutPlan(r, depth, m, maxDepth, stream, k)
    case Stop(k1) =>
    case Cut(vertical, at, k1) =>
      var (a, b) := Halves(r, vertical, at);
      var (left, k2) := SplitLeaves(a, depth + 1, m, maxDepth, stream, k1);
      var (right, k3) := SplitLeaves(b, depth + 1, m, maxDepth, stream, k2);
      SplitLeavesMinExtent(a, depth + 1, m, maxDepth, stream, k1);
      SplitLeavesMinExtent(b, depth + 1, m, maxDepth, stream, k2);
      var leaves := left + right;
      forall i | 0 <= i < |leaves|
        ensures leaves[i].Width() >= m && leaves[i].Height() >= m
      {
        if i < |left| {
          assert leaves[i] == left[i];
        } else {
          assert leaves[i] == right[i - |left|];
        }
      }
  }

  // ---------------------------------------------------------------------
  // Rooms inside leaves
  // ---------------------------------------------------------------------

  /** The four padding draws of one leaf, in the order they are taken. */
  datatype Pads = Pads(left: int, right: int, bottom: int, top: int)

  function PadsAt(stream: Stream, k: nat, padMin: int, padMax: int): Pads {
    Pads(RandRange(stream, k, padMin, padMax), RandRange(stream, k + 1, padMin, padMax),
         RandRange(stream, k + 2, padMin, padMax), RandRange(stream, k + 3, padMin, padMax))
  }

  datatype Option<T> = None | Some(value: T)

  /**
   * The room of a leaf: no room for a leaf without positive extent;
   * otherwise the pads are clamped (left into [0, W-1], right into
   * [0, W-1-left], bottom and top likewise) and cut off the leaf; a room
   * without positive extent is skipped too.
   */
  function PaddedRoom(leaf: Leaf, pads: Pads): (room: Option<Leaf>)
    ensures room.Some? <==> leaf.Width() > 0 && leaf.Height() > 0
    ensures room.Some? ==> room.value.Width() >= 1 && room.value.Height() >= 1 && Within(room.value, leaf)
  {
    var w, h := leaf.Width(), leaf.Height();
    if w <= 0 || h <= 0 then None
    else
      // Cap each padding so the room keeps a non-negative extent.
      var padLeft := Clamp(pads.left, 0, w - 1);
      var padRight := Clamp(pads.right, 0, w - 1 - padLeft);
      var padBottom := Clamp(pads.bottom, 0, h - 1);
      var padTop := Clamp(pads.top, 0, h - 1 - padBottom);
      var room := Leaf(Point(leaf.min.x + padLeft, leaf.min.y + padBottom),
                       Point(leaf.max.x - padRight, leaf.max.y - padTop));
      if room.Width() <= 0 || room.Height() <= 0 then None else Some(room)
  }

  /**
   * Pads that are non-negative and leave at least one cell on each axis are
   * used unchanged: the room is the leaf shrunk by exactly the pads.
   */
  lemma PaddedRoomUsesFittingPads(leaf: Leaf, pads: Pads)
    requires 0 <= pads.left && 0 <= pads.right && pads.left + pads.right <= leaf.Width() - 1
    requires 0 <= pads.bottom && 0 <= pads.top && pads.bottom + pads.top <= leaf.Height() - 1
    ensures PaddedRoom(leaf, pads) == Some(Leaf(Point(leaf.min.x + pads.left, leaf.min.y + pads.bottom),
                                                 Point(leaf.max.x - pads.right, leaf.max.y - pads.top)))
  {
  }

  /** The leaves with positive width and height, in order. */
  function PositiveLeaves(leaves: seq<Leaf>): (r: seq<Leaf>)
    ensures |r| <= |leaves|
    ensures forall i | 0 <= i < |r| :: r[i].Width() > 0 && r[i].Height() > 0 && r[i] in leaves
  {
    if leaves == [] then []
    else
      var last := leaves[|leaves| - 1];
      PositiveLeaves(leaves[..|leaves| - 1]) + (if last.Width() > 0 && last.Height() > 0 then [last] else [])
  }

  class BspFloorGenerator {
    // ---- configuration (editor properties) ----
    const MapSize: Point
    const MinLeafSize: int
    const MaxDepth: int
    const RoomPaddingMin: int
    const RoomPaddingMax: int

    /** All leaf regions after the split. */
    var LeafRegions: seq<Leaf>

    /** The editor defaults: a 40 by 40 map, leaves of at least 8, depth 5, padding 1..3. */
    constructor Default()
      ensures MapSize == Point(40, 40) && MinLeafSize == 8 && MaxDepth == 5
      ensures RoomPaddingMin == 1 && RoomPaddingMax == 3
      ensures LeafRegions == []
    {
      MapSize := Point(40, 40);
      MinLeafSize := 8;
      MaxDepth := 5;
      RoomPaddingMin := 1;
      RoomPaddingMax := 3;
      LeafRegions := [];
    }

    constructor (mapSize: Point, minLeafSize: int, maxDepth: int, roomPaddingMin: int, roomPaddingMax: int)
      ensures MapSize == mapSize && MinLeafSize == minLeafSize && MaxDepth == maxDepth
      ensures RoomPaddingMin == roomPaddingMin && RoomPaddingMax == roomPaddingMax
      ensures LeafRegions == []
    {
      MapSize := mapSize;
      MinLeafSize := minLeafSize;
      MaxDepth := maxDepth;
      RoomPaddingMin := roomPaddingMin;
      RoomPaddingMax := roomPaddingMax;
      LeafRegions := [];
    }

    /**
     * GenerateBSP: empties the leaf list and splits the root rectangle
     * (0,0)-MapSize at depth 0. For a non-negative minimum leaf size and
     * map size the leaves partition the map, each at least MinLeafSize on
     * both axes when the map is; there are at most 2^MaxDepth of them.
     */
    method GenerateBSP(stream: Stream, k0: nat) returns (k: nat)
      modifies this
      ensures var root := Leaf(Point(0, 0), MapSize);
              var (leaves, next) := SplitLeaves(root, 0, MinLeafSize, MaxDepth, stream, k0);
              LeafRegions == leaves && k == next
      ensures 1 <= |LeafRegions| <= Pow2(if MaxDepth > 0 then MaxDepth else 0)
      ensures MinLeafSize >= 0 ==> Partition(LeafRegions, Leaf(Point(0, 0), MapSize))
      ensures MapSize.x >= MinLeafSize && MapSize.y >= MinLeafSize ==> AllAtLeast(LeafRegions, MinLeafSize)
    {
      LeafRegions := [];
      var root := Leaf(Point(0, 0), MapSize);
      k := SplitSpace(root, 0, stream, k0);
      SplitLeavesCount(root, 0, MinLeafSize, MaxDepth, stream, k0);
      if MinLeafSize >= 0 {
        SplitLeavesPartition(root, 0, MinLeafSize, MaxDepth, stream, k0);
      }
      if MapSize.x >= MinLeafSize && MapSize.y >= MinLeafSize {
        SplitLeavesMinExtent(root, 0, MinLeafSize, MaxDepth, stream, k0);
      }
    }

    /** SplitSpace: appends the leaves of `region` at `depth` to LeafRegions. */
    /**
     * The axis decision of SplitSpace: split across the longer side (a fair
     * draw for a square), then fall back to the other axis when the chosen
     * side is narrower than two minimum leaves.
     */
    method ChooseAxis(width: int, height: int, stream: Stream, k0: nat) returns (splitVertically: bool, k: nat)
      ensures splitVertically == FallbackAxis(PreferredAxis(width, height, stream, k0).0, width, height, MinLeafSize)
      ensures k == PreferredAxis(width, height, stream, k0).1
    {
      // Axis choice: a strictly longer side is cut.
      k := k0;
      if width > height {
        splitVertically := true;
      } else if height > width {
        splitVertically := false;
      } else {
        // A square region takes one coin flip.
        splitVertically := RandBool(stream, k);
        k := k + 1;
      }

      // A chosen axis too short for two halves falls back to the other one.
      if splitVertically && width < MinLeafSize * 2 {
        splitVertically := false;
      } else if !splitVertically && height < MinLeafSize * 2 {
        splitVertically := true;
      }

    }

    method SplitSpace(region: Leaf, depth: int, stream: Stream, k0: nat) returns (k: nat)
      modifies this
      ensures LeafRegions == old(LeafRegions) + SplitLeaves(region, depth, MinLeafSize, MaxDepth, stream, k0).0
      ensures k == SplitLeaves(region, depth, MinLeafSize, MaxDepth, stream, k0).1
      decreases Measure(depth, MaxDepth)
    {
      ghost var before := LeafRegions;
      var width := region.Width();
      var height := region.Height();

      // Depth limit reached, or both sides at most twice the minimum size: a leaf.
      if depth >= MaxDepth || (width <= MinLeafSize * 2 && height <= MinLeafSize * 2) {
        SplitLeavesOfStop(region, depth, MinLeafSize, MaxDepth, stream, k0);
        LeafRegions := LeafRegions + [region];
        return k0;
      }

      OnlyFirstStopFires(region, depth, MinLeafSize, MaxDepth, stream, k0);

      // Axis choice, with its fallback to the other axis.
      var splitVertically;
      splitVertically, k := ChooseAxis(width, height, stream, k0);

      // The second leaf test of the source; OnlyFirstStopFires shows it never passes.
      if (splitVertically && width < MinLeafSize * 2) || (!splitVertically && height < MinLeafSize * 2) {
        assert false;
      }

      ghost var kc := k;
      var first, second, at;
      if splitVertically {
        // Cut across X: left and right halves.
        var splitMin := region.min.x + MinLeafSize;
        var splitMax := region.max.x - MinLeafSize;
        if splitMin >= splitMax {
          assert false;
        }
        var splitX := RandRange(stream, k, splitMin, splitMax);
        k := k + 1;
        var left := Leaf(Point(region.min.x, region.min.y), Point(splitX, region.max.y));
        var right := Leaf(Point(splitX, region.min.y), Point(region.max.x, region.max.y));
        assert (left, right) == Halves(region, true, splitX);
        first, second, at := left, right, splitX;
      } else {
        // Cut across Y: bottom and top halves.
        var splitMin := region.min.y + MinLeafSize;
        var splitMax := region.max.y - MinLeafSize;
        if splitMin >= splitMax {
          assert false;
        }
        var splitY := RandRange(stream, k, splitMin, splitMax);
        k := k + 1;
        var bottom := Leaf(Point(region.min.x, region.min.y), Point(region.max.x, splitY));
        var top := Leaf(Point(region.min.x, splitY), Point(region.max.x, region.max.y));
        assert (bottom, top) == Halves(region, false, splitY);
        first, second, at := bottom, top, splitY;
      }
      assert ChosenCut(region, depth, MinLeafSize, MaxDepth, stream, k0, splitVertically, kc, at, first, second);
      ghost var k1 := k;
      k := SplitSpace(first, depth + 1, stream, k);
      ghost var k2 := k;
      k := SplitSpace(second, depth + 1, stream, k);
      SplitLeavesOfChosenCut(region, depth, MinLeafSize, MaxDepth, stream, k0, splitVertically, kc, at, first, second, k2);
      AppendAssociative(before, SplitLeaves(first, depth + 1, MinLeafSize, MaxDepth, stream, k1).0,
                        SplitLeaves(second, depth + 1, MinLeafSize, MaxDepth, stream, k2).0);
    }

    /**
     * The room rectangles of the floor-plane pass: one per leaf of positive
     * extent, in leaf order, each from four padding draws in
     * [RoomPaddingMin, RoomPaddingMax]; every room is at least 1 by 1 and
     * lies inside its leaf.
     */
    method RoomRectangles(stream: Stream, k0: nat) returns (rooms: seq<Leaf>, k: nat)
      ensures |rooms| == |PositiveLeaves(LeafRegions)|
      ensures k == k0 + 4 * |rooms|
      ensures forall i | 0 <= i < |rooms| ::
                PaddedRoom(PositiveLeaves(LeafRegions)[i], PadsAt(stream, k0 + 4 * i, RoomPaddingMin, RoomPaddingMax))
                  == Some(rooms[i])
      ensures forall i | 0 <= i < |rooms| ::
                rooms[i].Width() >= 1 && rooms[i].Height() >= 1 && Within(rooms[i], PositiveLeaves(LeafRegions)[i])
    {
      rooms := [];
      k := k0;
      for j := 0 to |LeafRegions|
        invariant |rooms| == |PositiveLeaves(LeafRegions[..j])|
        invariant k == k0 + 4 * |rooms|
        invariant forall i | 0 <= i < |rooms| ::
                    PaddedRoom(PositiveLeaves(LeafRegions[..j])[i], PadsAt(stream, k0 + 4 * i, RoomPaddingMin, RoomPaddingMax))
                      == Some(rooms[i])
      {
        assert LeafRegions[..j + 1][..j] == LeafRegions[..j];
        var leaf := LeafRegions[j];
        var leafW := leaf.Width();
        var leafH := leaf.Height();
        if leafW <= 0 || leafH <= 0 {
          continue;
        }
        // Four padding draws shrink the room inside its leaf.
        var pads := PadsAt(stream, k, RoomPaddingMin, RoomPaddingMax);
        k := k + 4;
        var room := PaddedRoom(leaf, pads);
        if room.None? {
          continue;
        }
        rooms := rooms + [room.value];
      }
      assert LeafRegions[..|LeafRegions|] == LeafRegions;
    }
  }
}
