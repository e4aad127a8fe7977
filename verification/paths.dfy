/**
 * 4-connectivity on grid cells: two cells are neighbours when they differ by
 * one unit in exactly one axis, a path is a sequence of neighbouring cells,
 * and a set of cells is connected when a path inside the set joins any two
 * of its members.
 */
module Paths {
  import opened Grid

  /** 4-neighbourhood (N, S, W, E; no diagonals). */
  predicate Adjacent(p: Point, q: Point) {
    (p.x == q.x && (p.y - q.y == 1 || q.y - p.y == 1)) ||
    (p.y == q.y && (p.x - q.x == 1 || q.x - p.x == 1))
  }

  function Manhattan(p: Point, q: Point): nat {
    Abs(p.x - q.x) + Abs(p.y - q.y)
  }

  /** `path` is a non-empty walk of neighbouring cells, all inside `s`. */
  ghost predicate IsPath(s: set<Point>, path: seq<Point>) {
    && |path| > 0
    && (forall i | 0 <= i < |path| :: path[i] in s)
    && (forall i | 0 <= i < |path| - 1 :: Adjacent(path[i], path[i + 1]))
  }

  /** `a` and `b` are joined by a path that stays inside `s`. */
  ghost predicate Linked(s: set<Point>, a: Point, b: Point) {
    exists path :: IsPath(s, path) && path[0] == a && path[|path| - 1] == b
  }

  /** Every member of `s` is linked to `root` inside `s`. */
  ghost predicate RootedAt(s: set<Point>, root: Point) {
    root in s && forall q | q in s :: Linked(s, root, q)
  }

  /** `s` forms a single 4-connected component (or is empty). */
  ghost predicate Connected(s: set<Point>) {
    forall a, b | a in s && b in s :: Linked(s, a, b)
  }

  lemma LinkedRefl(s: set<Point>, a: Point)
    requires a in s
    ensures Linked(s, a, a)
  {
    assert IsPath(s, [a]);
  }

  lemma LinkedEnds(s: set<Point>, a: Point, b: Point)
    requires Linked(s, a, b)
    ensures a in s && b in s
  {
    var path :| IsPath(s, path) && path[0] == a && path[|path| - 1] == b;
  }

  /** A linked pair extended by one neighbouring cell of `s`. */
  lemma LinkedStep(s: set<Point>, a: Point, b: Point, c: Point)
    requires Linked(s, a, b) && c in s && Adjacent(b, c)
    ensures Linked(s, a, c)
  {
    var path :| IsPath(s, path) && path[0] == a && path[|path| - 1] == b;
    var path' := path + [c];
    assert IsPath(s, path');
  }

  lemma LinkedAdjacent(s: set<Point>, a: Point, b: Point)
    requires a in s && b in s && Adjacent(a, b)
    ensures Linked(s, a, b)
  {
    LinkedRefl(s, a);
    LinkedStep(s, a, a, b);
  }

  lemma LinkedTrans(s: set<Point>, a: Point, b: Point, c: Point)
    requires Linked(s, a, b) && Linked(s, b, c)
    ensures Linked(s, a, c)
  {
    var p :| IsPath(s, p) && p[0] == a && p[|p| - 1] == b;
    var q :| IsPath(s, q) && q[0] == b && q[|q| - 1] == c;
    var r := p + q[1..];
    assert forall i | |p| <= i < |r| :: r[i] == q[i - |p| + 1];
    assert IsPath(s, r);
  }

  lemma LinkedSym(s: set<Point>, a: Point, b: Point)
    requires Linked(s, a, b)
    ensures Linked(s, b, a)
  {
    var p :| IsPath(s, p) && p[0] == a && p[|p| - 1] == b;
    var r := seq(|p|, i requires 0 <= i < |p| => p[|p| - 1 - i]);
    forall i | 0 <= i < |r| - 1
      ensures Adjacent(r[i], r[i + 1])
    {
      assert Adjacent(p[|p| - 2 - i], p[|p| - 1 - i]);
    }
    assert IsPath(s, r);
  }

  /** Growing the set of open cells keeps every path open. */
  lemma LinkedMono(s: set<Point>, t: set<Point>, a: Point, b: Point)
    requires Linked(s, a, b) && s <= t
    ensures Linked(t, a, b)
  {
    var p :| IsPath(s, p) && p[0] == a && p[|p| - 1] == b;
    assert IsPath(t, p);
  }

  /** Adding a cell equal or adjacent to a member keeps a rooted set rooted. */
  lemma RootedAdd(s: set<Point>, root: Point, p: Point, q: Point)
    requires RootedAt(s, root) && p in s && (q == p || Adjacent(p, q))
    ensures RootedAt(s + {q}, root)
  {
    forall r | r in s + {q}
      ensures Linked(s + {q}, root, r)
    {
      if r in s {
        LinkedMono(s, s + {q}, root, r);
      } else {
        LinkedMono(s, s + {q}, root, p);
        if q != p {
          LinkedStep(s + {q}, root, p, q);
        }
      }
    }
  }

  /** A set in which every cell is linked to one root is one component. */
  lemma {:induction false} RootedIsConnected(s: set<Point>, root: Point)
    requires RootedAt(s, root)
    ensures Connected(s)
  {
    forall a, b | a in s && b in s
      ensures Linked(s, a, b)
    {
      LinkedSym(s, root, a);
      LinkedTrans(s, a, root, b);
    }
  }

  /**
   * A set `n` of open cells that contains `a` and is closed under stepping to
   * open neighbours contains everything linked to `a`.
   */
  lemma {:induction false} ClosedContainsLinked(s: set<Point>, n: set<Point>, a: Point, b: Point)
    requires a in n
    requires forall q, r | q in n && r in s && Adjacent(q, r) :: r in n
    requires Linked(s, a, b)
    ensures b in n
  {
    var p :| IsPath(s, p) && p[0] == a && p[|p| - 1] == b;
    var i := 0;
    while i < |p| - 1
      invariant 0 <= i < |p|
      invariant p[i] in n
    {
      assert Adjacent(p[i], p[i + 1]) && p[i + 1] in s;
      i := i + 1;
    }
  }

  /**
   * Labels that agree across every open adjacency are constant along a path:
   * linked cells carry the same label.
   */
  lemma {:induction false} LabelConstantOnLinked(s: set<Point>, tag: map<Point, int>, a: Point, b: Point)
    requires s <= tag.Keys
    requires forall q, r | q in s && r in s && Adjacent(q, r) :: tag[q] == tag[r]
    requires Linked(s, a, b)
    ensures a in s && b in s && tag[a] == tag[b]
  {
    var p :| IsPath(s, p) && p[0] == a && p[|p| - 1] == b;
    var i := 0;
    while i < |p| - 1
      invariant 0 <= i < |p|
      invariant p[i] in s && tag[p[i]] == tag[a]
    {
      assert Adjacent(p[i], p[i + 1]) && p[i + 1] in s;
      i := i + 1;
    }
  }

  /**
   * Inside a w-by-h rectangle, a non-empty set of in-bounds cells from which no
   * step leads to an in-bounds cell outside it is the whole rectangle.
   */
  lemma {:induction false} ClosedIsFull(w: int, h: int, n: set<Point>, c: Point, q: Point)
    requires c in n && InBounds(w, h, c) && InBounds(w, h, q)
    requires forall a, b | a in n && InBounds(w, h, b) && Adjacent(a, b) :: b in n
    ensures q in n
    decreases Manhattan(c, q)
  {
    if q != c {
      var q' := if q.x < c.x then Point(q.x + 1, q.y)
                else if q.x > c.x then Point(q.x - 1, q.y)
                else if q.y < c.y then Point(q.x, q.y + 1)
                else Point(q.x, q.y - 1);
      ClosedIsFull(w, h, n, c, q');
      assert Adjacent(q', q);
    }
  }
}
