/** The grid of `src/maze.h` and the geometry shared by the generator in
    `src/maze.c`: cell coordinates, the four directions and their unit
    vectors, the wall segments, the `Maze` record of wall booleans, and the
    4-bit mask computed at each lattice point for rendering.

    The C arrays `vert[H][W+1]`, `horiz[H+1][W]` and the cache `[H][W]` are
    stored row-major, exactly as C lays them out: element `[row][col]` of an
    array with `n` columns is element `row * n + col` here. */
module Grid {

  /** MAZE_WIDTH and MAZE_HEIGHT. */
  const W: int := 30
  const H: int := 20
  /** Number of cells, the length of the cache and of the breadth-first queue. */
  const Cells: int := W * H

  /** `struct vec`: a cell by column `x` and row `y`. */
  datatype Vec = Vec(x: int, y: int)

  predicate InGrid(v: Vec) {
    0 <= v.x < W && 0 <= v.y < H
  }

  /** Position of cell `v` in a row-major `[H][W]` array. */
  function Idx(v: Vec): (i: int)
    requires InGrid(v)
    ensures 0 <= i < Cells
  {
    v.y * W + v.x
  }

  /** Distinct cells occupy distinct positions. */
  lemma IdxInjective(a: Vec, b: Vec)
    requires InGrid(a) && InGrid(b)
    ensures Idx(a) == Idx(b) <==> a == b
  {
  }

  /** Directions in the order of `unitvec`: Up = 0, Left = 1, Down = 2, Right = 3. */
  type Dir = d: int | 0 <= d < 4

  const Up: Dir := 0
  const Left: Dir := 1
  const Down: Dir := 2
  const Right: Dir := 3

  /** `unitvec[d]`; the `(size_t)-1` components are -1 here, and every use
      checks bounds before stepping. */
  function Unit(d: Dir): Vec {
    if d == Up then Vec(0, -1)
    else if d == Left then Vec(-1, 0)
    else if d == Down then Vec(0, 1)
    else Vec(1, 0)
  }

  /** `DIR_NEGATE(d)`, that is `d ^ 2`. */
  function Negate(d: Dir): Dir {
    ((d as bv2) ^ 2) as int
  }

  function Step(v: Vec, d: Dir): Vec {
    Vec(v.x + Unit(d).x, v.y + Unit(d).y)
  }

  predicate Adjacent(a: Vec, b: Vec) {
    (a.x == b.x && (a.y == b.y + 1 || b.y == a.y + 1))
    || (a.y == b.y && (a.x == b.x + 1 || b.x == a.x + 1))
  }

  /** `DIR_NEGATE` turns a direction around: stepping back undoes the step. */
  lemma NegateReverses(v: Vec, d: Dir)
    ensures Negate(d) != d && Negate(Negate(d)) == d
    ensures Step(Step(v, d), Negate(d)) == v
    ensures Adjacent(v, Step(v, d))
  {
  }

  /** The four steps reach exactly the adjacent cells. */
  lemma AdjacentIsStep(a: Vec, b: Vec)
    requires Adjacent(a, b)
    ensures exists d: Dir :: Step(a, d) == b
  {
    if b.y == a.y - 1 { assert Step(a, Up) == b; }
    else if b.x == a.x - 1 { assert Step(a, Left) == b; }
    else if b.y == a.y + 1 { assert Step(a, Down) == b; }
    else { assert Step(a, Right) == b; }
  }

  /** Pigeonhole: a repetition-free sequence of numbers below `n` has at
      most `n` elements.  It bounds the breadth-first queue by the number
      of cells. */
  lemma {:induction false} DistinctBound(s: seq<int>, n: nat)
    requires forall k :: 0 <= k < |s| ==> 0 <= s[k] < n
    requires forall i, j :: 0 <= i < j < |s| ==> s[i] != s[j]
    ensures |s| <= n
  {
    if |s| > 0 {
      assert 0 <= s[0] < n;
      if k :| 0 <= k < |s| && s[k] == n - 1 {
        var t := s[..k] + s[k + 1..];
        forall i | 0 <= i < |t|
          ensures t[i] == if i < k then s[i] else s[i + 1]
        {
        }
        DistinctBound(t, n - 1);
      } else {
        DistinctBound(s, n - 1);
      }
    }
  }

  /** A wall segment: `V(row, col)` is `vert[row][col]`, the segment on the
      left side of cell (col, row); `Hz(row, col)` is `horiz[row][col]`, the
      segment on the upper side of cell (col, row). */
  datatype Seg = V(row: int, col: int) | Hz(row: int, col: int)

  predicate ValidSeg(s: Seg) {
    match s
    case V(r, c) => 0 <= r < H && 0 <= c <= W
    case Hz(r, c) => 0 <= r <= H && 0 <= c < W
  }

  /** The segments on the outline of the grid. */
  predicate IsBorder(s: Seg) {
    match s
    case V(_, c) => c == 0 || c == W
    case Hz(r, _) => r == 0 || r == H
  }

  /** The four segments around cell `v`. */
  function CellSides(v: Vec): set<Seg> {
    {V(v.y, v.x), V(v.y, v.x + 1), Hz(v.y, v.x), Hz(v.y + 1, v.x)}
  }

  /** The segment that separates cell `v` from `Step(v, d)`. */
  function Between(v: Vec, d: Dir): (s: Seg)
    ensures s in CellSides(v) && s in CellSides(Step(v, d))
  {
    if d == Up then Hz(v.y, v.x)
    else if d == Left then V(v.y, v.x)
    else if d == Down then Hz(v.y + 1, v.x)
    else V(v.y, v.x + 1)
  }

  /** Between two cells of the grid lies an inner segment. */
  lemma BetweenIsInner(v: Vec, d: Dir)
    requires InGrid(v) && InGrid(Step(v, d))
    ensures ValidSeg(Between(v, d)) && !IsBorder(Between(v, d))
  {
  }

  /** Whether segment `s` is present, given the contents of the flattened
      `vert` and `horiz` arrays. */
  function SegAt(vert: seq<bool>, horiz: seq<bool>, s: Seg): bool
    requires |vert| == H * (W + 1) && |horiz| == (H + 1) * W && ValidSeg(s)
  {
    match s
    case V(r, c) => vert[r * (W + 1) + c]
    case Hz(r, c) => horiz[r * W + c]
  }

  /** Every segment around a cell of the grid is a segment of the lattice. */
  lemma CellSidesValid(v: Vec)
    requires InGrid(v)
    ensures forall s :: s in CellSides(v) ==> ValidSeg(s)
  {
  }

  /** The wall record `Maze` of `src/maze.h`, its arrays flattened row-major. */
  class Maze {
    const vert: array<bool>
    const horiz: array<bool>

    ghost predicate Valid()
      reads this
    {
      vert.Length == H * (W + 1) && horiz.Length == (H + 1) * W && vert != horiz
    }

    /** `MAZE_INIT`: every segment absent. */
    constructor ()
      ensures Valid() && fresh(vert) && fresh(horiz)
      ensures forall s :: ValidSeg(s) ==> !Wall(s)
    {
      vert := new bool[H * (W + 1)](_ => false);
      horiz := new bool[(H + 1) * W](_ => false);
    }

    /** Whether segment `s` is present. */
    function Wall(s: Seg): bool
      reads this, vert, horiz
      requires Valid() && ValidSeg(s)
    {
      SegAt(vert[..], horiz[..], s)
    }

    /** Writes one segment through its `bool *`. */
    method SetWall(s: Seg, b: bool)
      requires Valid() && ValidSeg(s)
      modifies vert, horiz
      ensures Wall(s) == b
      ensures forall t :: ValidSeg(t) && t != s ==> Wall(t) == old(Wall(t))
    {
      match s
      case V(r, c) =>
        vert[r * (W + 1) + c] := b;
      case Hz(r, c) =>
        horiz[r * W + c] := b;
    }
  }

  /** The direction bits of `enum direction`. */
  const RightBit: bv4 := 1
  const UpBit: bv4 := 2
  const LeftBit: bv4 := 4
  const DownBit: bv4 := 8

  /** The glyph table `walls[]`, indexed by a direction mask. */
  const WallGlyphs: seq<string> := [
    " ", "\U{2576}", "\U{2575}", "\U{2570}", "\U{2574}", "\U{2500}", "\U{256f}", "\U{2534}",
    "\U{2577}", "\U{256d}", "\U{2502}", "\U{251c}", "\U{256e}", "\U{252c}", "\U{2524}", "\U{253c}"
  ]

  /** 1 for a segment that is present, 0 otherwise. */
  function Indicator(b: bool): int {
    if b then 1 else 0
  }

  /** The mask that `intersection` computes at lattice point (col, row): one
      bit for each wall segment that ends there and lies inside the lattice.
      Read as a number it is the sum of the RIGHT, UP, LEFT and DOWN weights
      of the segments present, each segment counted once. */
  function IntersectionMask(m: Maze, col: nat, row: nat): (r: bv4)
    reads m, m.vert, m.horiz
    requires m.Valid() && col <= W && row <= H
    ensures (r & LeftBit != 0) <==> col > 0 && m.Wall(Hz(row, col - 1))
    ensures (r & UpBit != 0) <==> row > 0 && m.Wall(V(row - 1, col))
    ensures (r & RightBit != 0) <==> col < W && m.Wall(Hz(row, col))
    ensures (r & DownBit != 0) <==> row < H && m.Wall(V(row, col))
    ensures r as int < |WallGlyphs|
    ensures r as int ==
      Indicator(col < W && m.Wall(Hz(row, col))) + 2 * Indicator(row > 0 && m.Wall(V(row - 1, col)))
      + 4 * Indicator(col > 0 && m.Wall(Hz(row, col - 1))) + 8 * Indicator(row < H && m.Wall(V(row, col)))
  {
    var left := if col > 0 && m.Wall(Hz(row, col - 1)) then LeftBit else 0;
    var up := if row > 0 && m.Wall(V(row - 1, col)) then UpBit else 0;
    var right := if col < W && m.Wall(Hz(row, col)) then RightBit else 0;
    var down := if row < H && m.Wall(V(row, col)) then DownBit else 0;
    left | up | right | down
  }

  /** `intersection`: the glyph drawn at lattice point (col, row). */
  function Intersection(m: Maze, col: nat, row: nat): (r: string)
    reads m, m.vert, m.horiz
    requires m.Valid() && col <= W && row <= H
    ensures |r| == 1
    ensures r == " " <==>
      && !(col > 0 && m.Wall(Hz(row, col - 1))) && !(row > 0 && m.Wall(V(row - 1, col)))
      && !(col < W && m.Wall(Hz(row, col))) && !(row < H && m.Wall(V(row, col)))
  {
    WallGlyphs[IntersectionMask(m, col, row) as int]
  }
}
