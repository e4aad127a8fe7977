/**
 * The logical tile grid shared by the grid generators: integer cell
 * coordinates (FIntPoint), the row-major index Y*Width + X used by every
 * generator's Index helper, and bounds-checked access to a flat cell array.
 */
module Grid {

  /** A cell coordinate in grid units (the engine's FIntPoint). */
  datatype Point = Point(x: int, y: int)

  predicate InBounds(w: int, h: int, p: Point) {
    0 <= p.x < w && 0 <= p.y < h
  }

  /** The row-major position of a cell in the flat cell array. */
  function Index(w: int, p: Point): int {
    p.y * w + p.x
  }

  /** The cell stored at a flat position (the inverse of Index). */
  function PointOf(w: int, i: int): Point
    requires w > 0
  {
    Point(i % w, i / w)
  }

  lemma IndexInRange(w: nat, h: nat, p: Point)
    requires InBounds(w, h, p)
    ensures 0 <= Index(w, p) < w * h
  {
    assert p.y * w <= (h - 1) * w by {
      MulMono(p.y, h - 1, w);
    }
    assert (h - 1) * w + w == h * w;
  }

  lemma MulMono(a: int, b: int, c: nat)
    requires a <= b
    ensures a * c <= b * c
  {
  }

  lemma IndexInjective(w: nat, h: nat, p: Point, q: Point)
    requires InBounds(w, h, p) && InBounds(w, h, q)
    requires Index(w, p) == Index(w, q)
    ensures p == q
  {
    if p.y < q.y {
      MulMono(p.y + 1, q.y, w);
      assert false;
    } else if q.y < p.y {
      MulMono(q.y + 1, p.y, w);
      assert false;
    }
  }

  lemma PointOfIndex(w: nat, h: nat, i: int)
    requires w > 0 && 0 <= i < w * h
    ensures InBounds(w, h, PointOf(w, i))
    ensures Index(w, PointOf(w, i)) == i
  {
    var p := PointOf(w, i);
    assert i == p.y * w + p.x;
    if p.y >= h {
      MulMono(h, p.y, w);
      assert false;
    }
  }

  /** The content of cell `p` of a w-by-h grid stored row-major in `m`. */
  function Cell<T>(m: seq<T>, w: nat, h: nat, p: Point): T
    requires |m| == w * h && InBounds(w, h, p)
  {
    IndexInRange(w, h, p);
    m[Index(w, p)]
  }

  /** `m` with cell `p` overwritten by `v`: `m[Index(p)] = v` in the source. */
  function WithCell<T>(m: seq<T>, w: nat, h: nat, p: Point, v: T): (r: seq<T>)
    requires |m| == w * h && InBounds(w, h, p)
    ensures |r| == w * h
    ensures Cell(r, w, h, p) == v
    ensures forall q | InBounds(w, h, q) && q != p :: Cell(r, w, h, q) == Cell(m, w, h, q)
  {
    IndexInRange(w, h, p);
    WithCellOthers(m, w, h, p, v);
    m[Index(w, p) := v]
  }

  lemma WithCellOthers<T>(m: seq<T>, w: nat, h: nat, p: Point, v: T)
    requires |m| == w * h && InBounds(w, h, p)
    ensures 0 <= Index(w, p) < |m|
    ensures forall q | InBounds(w, h, q) && q != p ::
              Cell(m[Index(w, p) := v], w, h, q) == Cell(m, w, h, q)
  {
    IndexInRange(w, h, p);
    forall q | InBounds(w, h, q) && q != p
      ensures Cell(m[Index(w, p) := v], w, h, q) == Cell(m, w, h, q)
    {
      IndexInRange(w, h, q);
      if Index(w, q) == Index(w, p) {
        IndexInjective(w, h, p, q);
      }
    }
  }

  /** Two grids of the same size that agree on every cell are equal. */
  lemma GridExtensionality<T>(m: seq<T>, n: seq<T>, w: nat, h: nat)
    requires |m| == w * h && |n| == w * h
    requires forall q | InBounds(w, h, q) :: Cell(m, w, h, q) == Cell(n, w, h, q)
    ensures m == n
  {
    forall i | 0 <= i < |m|
      ensures m[i] == n[i]
    {
      PointOfIndex(w, h, i);
      assert Cell(m, w, h, PointOf(w, i)) == Cell(n, w, h, PointOf(w, i));
    }
  }

  /** A grid of w*h copies of `v` (TArray::Init). */
  function Filled<T>(w: nat, h: nat, v: T): (r: seq<T>)
    ensures |r| == w * h
    ensures forall q | InBounds(w, h, q) :: Cell(r, w, h, q) == v
  {
    var r := seq(w * h, _ => v);
    forall q | InBounds(w, h, q) ensures Cell(r, w, h, q) == v {
      IndexInRange(w, h, q);
    }
    r
  }

  /** TArray::SetNum: keep the first `n` entries, pad with default (false) entries. */
  function SetNum(s: seq<bool>, n: nat): (r: seq<bool>)
    ensures |r| == n
    ensures forall i | 0 <= i < n && i < |s| :: r[i] == s[i]
  {
    if n <= |s| then s[..n] else s + seq(n - |s|, _ => false)
  }

  /** The set of cells of a w-by-h grid whose content is `v`. */
  ghost function CellsWith<T>(m: seq<T>, w: nat, h: nat, v: T): (s: set<Point>)
    requires |m| == w * h
    ensures forall q :: q in s <==> InBounds(w, h, q) && Cell(m, w, h, q) == v
  {
    set x: int, y: int | 0 <= x < w && 0 <= y < h && Cell(m, w, h, Point(x, y)) == v :: Point(x, y)
  }

  /** A grid in which no entry is `v` has no cell holding `v`. */
  lemma CellsWithNone<T>(m: seq<T>, w: nat, h: nat, v: T)
    requires |m| == w * h
    requires forall i | 0 <= i < |m| :: m[i] != v
    ensures CellsWith(m, w, h, v) == {}
  {
    forall q | InBounds(w, h, q)
      ensures Cell(m, w, h, q) != v
    {
      IndexInRange(w, h, q);
    }
  }

  /** Overwriting one cell with `v` adds exactly that cell to the cells holding `v`. */
  lemma CellsWithUpdate<T>(m: seq<T>, w: nat, h: nat, p: Point, v: T)
    requires |m| == w * h && InBounds(w, h, p)
    ensures CellsWith(WithCell(m, w, h, p, v), w, h, v) == CellsWith(m, w, h, v) + {p}
  {
  }

  /** No entry of `s` occurs twice. */
  predicate Distinct<T(==)>(s: seq<T>) {
    forall i, j | 0 <= i < j < |s| :: s[i] != s[j]
  }

  lemma AppendDistinct<T>(r: seq<T>, x: T)
    requires Distinct(r)
    requires forall i | 0 <= i < |r| :: r[i] != x
    ensures Distinct(r + [x])
  {
  }

  /** FMath::Clamp: `lo` below the range, `hi` above it, `v` otherwise. */
  function Clamp(v: int, lo: int, hi: int): int {
    if v < lo then lo else if v < hi then v else hi
  }

  function Abs(v: int): nat {
    if v < 0 then -v else v
  }

  /** The number of entries of `s` equal to `v`. */
  function Occurrences(s: seq<bool>, v: bool): nat {
    if s == [] then 0 else Occurrences(s[..|s| - 1], v) + (if s[|s| - 1] == v then 1 else 0)
  }

  /** Writing one entry changes the number of `v` entries by at most one. */
  lemma {:induction false} OccurrencesUpdate(s: seq<bool>, i: int, u: bool, v: bool)
    requires 0 <= i < |s|
    ensures Occurrences(s[i := u], v) <= Occurrences(s, v) + 1
    ensures Occurrences(s[i := u], v) == Occurrences(s, v) + (if u == v && s[i] != v then 1 else 0)
                                           - (if u != v && s[i] == v then 1 else 0)
  {
    if i < |s| - 1 {
      assert s[i := u][..|s| - 1] == s[..|s| - 1][i := u];
      OccurrencesUpdate(s[..|s| - 1], i, u, v);
    } else {
      assert s[i := u][..|s| - 1] == s[..|s| - 1];
    }
  }

  /** A grid whose every cell holds `v` has `v` in all of its entries. */
  lemma AllCellsOccurrences(m: seq<bool>, w: nat, h: nat, v: bool)
    requires |m| == w * h
    requires forall q | InBounds(w, h, q) :: Cell(m, w, h, q) == v
    ensures Occurrences(m, v) == w * h
  {
    forall i | 0 <= i < |m|
      ensures m[i] == v
    {
      PointOfIndex(w, h, i);
      assert Cell(m, w, h, PointOf(w, i)) == v;
    }
    OccurrencesAll(m, v);
  }

  /** A sequence holding only `v` has `v` everywhere it counts. */
  lemma {:induction false} OccurrencesAll(s: seq<bool>, v: bool)
    requires forall i | 0 <= i < |s| :: s[i] == v
    ensures Occurrences(s, v) == |s|
    ensures Occurrences(s, !v) == 0
  {
    if s != [] {
      OccurrencesAll(s[..|s| - 1], v);
    }
  }
}
