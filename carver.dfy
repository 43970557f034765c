/** The generator of `src/maze.c`: the randomised depth-first carver
    `maze_randpath` with its helpers `randpath_is_valid` and
    `randpath_select`, and `maze_randomize`, which draws the outline and
    carves the maze from the entrance to the exit.  The C library's
    `rand()` is the object `Rand`, a stream of values fixed when it is made. */
module Carver {
  import opened Grid
  import opened Basics
  import opened Cache

  /** The source of `rand()`: it hands out `draws(0)`, `draws(1)`, ... */
  class Rand {
    const draws: nat -> nat
    var taken: nat

    constructor (draws: nat -> nat)
      ensures this.draws == draws && taken == 0
    {
      this.draws := draws;
      taken := 0;
    }

    /** `rand()`. */
    method Next() returns (r: nat)
      modifies this
      ensures r == draws(old(taken)) && taken == old(taken) + 1
    {
      r := draws(taken);
      taken := taken + 1;
    }
  }

  /** `randpath_is_valid(maze, x0, d & 1, (d >> 1) & 1)`: the move from `x0`
      in direction `d` may be tried when it stays inside the grid and the
      segment it would cross is present. */
  function IsValid(m: Maze, x0: Vec, d: Dir): (r: bool)
    reads m, m.vert, m.horiz
    requires m.Valid() && InGrid(x0)
    ensures r ==> InGrid(Step(x0, d))
  {
    assert (d % 2 == 1 <==> d == Left || d == Right) && ((d / 2) % 2 == 1 <==> d == Down || d == Right);
    var horiz := d % 2 == 1;
    var dir := if (d / 2) % 2 == 1 then 1 else 0;
    if horiz then
      if (dir == 0 && x0.x == 0) || (dir == 1 && x0.x == W - 1) then false
      else m.Wall(V(x0.y, x0.x + dir))
    else
      if (dir == 0 && x0.y == 0) || (dir == 1 && x0.y == H - 1) then false
      else m.Wall(Hz(x0.y + dir, x0.x))
  }

  /** A move is valid exactly when it stays on the grid and the segment it
      crosses is present. */
  lemma IsValidMeaning(m: Maze, x0: Vec, d: Dir)
    requires m.Valid() && InGrid(x0)
    ensures IsValid(m, x0, d) <==> InGrid(Step(x0, d)) && m.Wall(Between(x0, d))
  {
    var s, t := Step(x0, d), Between(x0, d);
    IsValidCases(m, x0, d);
    if d == Up {
      assert s == Vec(x0.x, x0.y - 1) && t == Hz(x0.y, x0.x);
    } else if d == Left {
      assert s == Vec(x0.x - 1, x0.y) && t == V(x0.y, x0.x);
    } else if d == Down {
      assert s == Vec(x0.x, x0.y + 1) && t == Hz(x0.y + 1, x0.x);
    } else {
      assert s == Vec(x0.x + 1, x0.y) && t == V(x0.y, x0.x + 1);
    }
  }

  /** `IsValid` decoded by direction. */
  lemma IsValidCases(m: Maze, x0: Vec, d: Dir)
    requires m.Valid() && InGrid(x0)
    ensures d == Up ==> IsValid(m, x0, d) == (x0.y != 0 && m.Wall(Hz(x0.y, x0.x)))
    ensures d == Left ==> IsValid(m, x0, d) == (x0.x != 0 && m.Wall(V(x0.y, x0.x)))
    ensures d == Down ==> IsValid(m, x0, d) == (x0.y != H - 1 && m.Wall(Hz(x0.y + 1, x0.x)))
    ensures d == Right ==> IsValid(m, x0, d) == (x0.x != W - 1 && m.Wall(V(x0.y, x0.x + 1)))
  {
    assert d == Up ==> d % 2 == 0 && (d / 2) % 2 == 0;
    assert d == Left ==> d % 2 == 1 && (d / 2) % 2 == 0;
    assert d == Down ==> d % 2 == 0 && (d / 2) % 2 == 1;
    assert d == Right ==> d % 2 == 1 && (d / 2) % 2 == 1;
  }

  /** `s` without its element at `i`. */
  function RemoveAt(s: seq<int>, i: int): seq<int>
    requires 0 <= i < |s|
  {
    s[..i] + s[i + 1..]
  }

  /** Removing an element loses that element and nothing else. */
  lemma RemoveAtMultiset(s: seq<int>, i: int)
    requires 0 <= i < |s|
    ensures multiset(RemoveAt(s, i)) + multiset{s[i]} == multiset(s)
  {
    assert s == s[..i] + [s[i]] + s[i + 1..];
  }

  /** The `memmove` of `randpath_select`: shift the entries after `idx`
      down by one, closing the gap at `idx`. */
  method CloseGap(open: array<int>, idx: int, count: int)
    requires 0 <= idx < count <= open.Length
    modifies open
    ensures open[..count - 1] == RemoveAt(old(open[..count]), idx)
    ensures open[count - 1..] == old(open[count - 1..])
  {
    var k := idx;
    while k < count - 1
      invariant idx <= k <= count - 1
      invariant forall j :: 0 <= j < idx ==> open[j] == old(open[j])
      invariant forall j :: idx <= j < k ==> open[j] == old(open[j + 1])
      invariant forall j :: k <= j < open.Length ==> open[j] == old(open[j])
    {
      open[k] := open[k + 1];
      k := k + 1;
    }
    ghost var r := RemoveAt(old(open[..count]), idx);
    assert |r| == count - 1;
    forall j | 0 <= j < count - 1 ensures open[j] == r[j] {
      if j < idx {
        assert r[j] == old(open[j]);
      } else {
        assert r[j] == old(open[j + 1]);
      }
    }
    assert open[..count - 1] == r;
  }

  /** `randpath_select(open, &numOpen)`: take a random entry out of the
      first `numOpen` entries of `open`, closing the gap; -1 when none is
      left.  The value of `*num_open` afterwards is returned as `n`. */
  method Select(open: array<int>, numOpen: int, rng: Rand) returns (d: int, n: int)
    requires 0 <= numOpen <= open.Length
    modifies open, rng
    ensures numOpen == 0 ==> d == -1 && n == 0 && open[..] == old(open[..]) && rng.taken == old(rng.taken)
    ensures numOpen > 0 ==>
      var idx := rng.draws(old(rng.taken)) % numOpen;
      && d == old(open[idx]) && n == numOpen - 1
      && open[..n] == RemoveAt(old(open[..numOpen]), idx)
      && open[n..] == old(open[n..])
      && rng.taken == old(rng.taken) + 1
  {
    if numOpen == 0 {
      return -1, 0;
    }
    var r := rng.Next();
    var idx := r % numOpen;
    d := open[idx];
    CloseGap(open, idx, numOpen);
    n := numOpen - 1;
  }

  /** The four segments `maze_randpath` rewrites when it moves into a cell:
      the one it crosses, and the three other sides of the cell entered. */
  datatype Carving = Carving(entry: Seg, forward: Seg, walla: Seg, wallb: Seg)

  predicate DistinctSides(c: Carving) {
    c.entry != c.forward && c.entry != c.walla && c.entry != c.wallb
    && c.forward != c.walla && c.forward != c.wallb && c.walla != c.wallb
  }

  function Sides(c: Carving): set<Seg> {
    {c.entry, c.forward, c.walla, c.wallb}
  }

  /** Lines 434-444: the pointers `entry`, `forward`, `walla`, `wallb` for a
      move from `x0` in direction `d`. */
  function CarveSegments(x0: Vec, d: Dir): (c: Carving)
    ensures c.entry == Between(x0, d)
    ensures Sides(c) == CellSides(Step(x0, d)) && DistinctSides(c)
  {
    var next := Step(x0, d);
    var horiz := d % 2 == 1;
    var dir := if (d / 2) % 2 == 1 then 1 else 0;
    if horiz then
      Carving(V(x0.y, x0.x + dir), V(x0.y, next.x + dir), Hz(x0.y, next.x), Hz(x0.y + 1, next.x))
    else
      Carving(Hz(x0.y + dir, x0.x), Hz(next.y + dir, x0.x), V(next.y, x0.x), V(next.y, x0.x + 1))
  }

  /** Stores `e`, `f`, `a`, `b` through the four pointers, in that order. */
  method WriteCarving(m: Maze, c: Carving, e: bool, f: bool, a: bool, b: bool)
    requires m.Valid() && DistinctSides(c) && forall s :: s in Sides(c) ==> ValidSeg(s)
    modifies m.vert, m.horiz
    ensures Carved(m.vert[..], m.horiz[..], c, e, f, a, b)
    ensures OnlySidesDiffer(old(m.vert[..]), old(m.horiz[..]), m.vert[..], m.horiz[..], c)
  {
    m.SetWall(c.entry, e);
    m.SetWall(c.forward, f);
    m.SetWall(c.walla, a);
    m.SetWall(c.wallb, b);
  }

  /** The four segments of `c` hold `e`, `f`, `a` and `b`. */
  ghost predicate Carved(v: seq<bool>, h: seq<bool>, c: Carving, e: bool, f: bool, a: bool, b: bool)
    requires |v| == H * (W + 1) && |h| == (H + 1) * W && forall s :: s in Sides(c) ==> ValidSeg(s)
  {
    SegAt(v, h, c.entry) == e && SegAt(v, h, c.forward) == f && SegAt(v, h, c.walla) == a && SegAt(v, h, c.wallb) == b
  }

  /** Only the four segments of `c` may differ. */
  ghost predicate OnlySidesDiffer(v0: seq<bool>, h0: seq<bool>, v1: seq<bool>, h1: seq<bool>, c: Carving)
    requires |v0| == |v1| == H * (W + 1) && |h0| == |h1| == (H + 1) * W
  {
    forall t :: ValidSeg(t) && t !in Sides(c) ==> SegAt(v1, h1, t) == SegAt(v0, h0, t)
  }

  /** The walls of `m` read as the lattice segments. */
  ghost predicate SameWalls(v0: seq<bool>, h0: seq<bool>, v1: seq<bool>, h1: seq<bool>)
    requires |v0| == |v1| == H * (W + 1) && |h0| == |h1| == (H + 1) * W
  {
    forall s :: ValidSeg(s) ==> SegAt(v1, h1, s) == SegAt(v0, h0, s)
  }

  /** Every segment that differs lies around a cell other than `x0` that
      was not on the carver's path in `c0`. */
  ghost predicate ChangedNear(v0: seq<bool>, h0: seq<bool>, v1: seq<bool>, h1: seq<bool>, c0: seq<Byte>, x0: Vec)
    requires |v0| == |v1| == H * (W + 1) && |h0| == |h1| == (H + 1) * W && |c0| == Cells
  {
    forall s :: ValidSeg(s) && SegAt(v1, h1, s) != SegAt(v0, h0, s) ==>
      exists v :: InGrid(v) && v != x0 && c0[Idx(v)] != Visited && s in CellSides(v)
  }

  /** No segment of the outline that was present has been removed. */
  ghost predicate OutlineKept(v0: seq<bool>, h0: seq<bool>, v1: seq<bool>, h1: seq<bool>)
    requires |v0| == |v1| == H * (W + 1) && |h0| == |h1| == (H + 1) * W
  {
    forall s :: ValidSeg(s) && IsBorder(s) && SegAt(v0, h0, s) ==> SegAt(v1, h1, s)
  }

  /** `c1` has its Visited cells where `c0` has them. */
  ghost predicate SameVisited(c0: seq<Byte>, c1: seq<Byte>)
    requires |c0| == Cells && |c1| == Cells
  {
    forall i :: 0 <= i < Cells ==> (c1[i] == Visited <==> c0[i] == Visited)
  }

  /** `c1` has its Visited cells where `c0` has them, except perhaps at `x`. */
  ghost predicate SameVisitedBut(c0: seq<Byte>, c1: seq<Byte>, x: int)
    requires |c0| == Cells && |c1| == Cells
  {
    forall i :: 0 <= i < Cells && i != x ==> (c1[i] == Visited <==> c0[i] == Visited)
  }

  /** The cells not on the carver's current path. */
  ghost function NonVisited(c: seq<Byte>): set<int> {
    set i | 0 <= i < |c| && c[i] != Visited
  }

  /** Marking one more cell Visited shrinks the measure of the recursion. */
  lemma NonVisitedShrinks(c0: seq<Byte>, c: seq<Byte>, x: int)
    requires |c0| == |c| && 0 <= x < |c0| && c0[x] != Visited
    requires forall i :: 0 <= i < |c| ==> (c[i] == Visited <==> c0[i] == Visited || i == x)
    ensures NonVisited(c) < NonVisited(c0)
  {
    assert x in NonVisited(c0);
  }

  /** Segments that changed in a later step, around cells off the path,
      still count as changed near cells off the path when the walls they
      are measured from were the same, and the path the same save `x0`. */
  lemma ChangedNearFromEntry(v0: seq<bool>, h0: seq<bool>, vh: seq<bool>, hh: seq<bool>, v2: seq<bool>, h2: seq<bool>,
                             c0: seq<Byte>, ct: seq<Byte>, x0: Vec)
    requires |v0| == |vh| == |v2| == H * (W + 1) && |h0| == |hh| == |h2| == (H + 1) * W
    requires |c0| == Cells && |ct| == Cells && InGrid(x0)
    requires SameWalls(v0, h0, vh, hh)
    requires ChangedNear(vh, hh, v2, h2, ct, x0) && OutlineKept(vh, hh, v2, h2)
    requires SameVisitedBut(c0, ct, Idx(x0))
    ensures ChangedNear(v0, h0, v2, h2, c0, x0) && OutlineKept(v0, h0, v2, h2)
  {
    forall s | ValidSeg(s) && SegAt(v2, h2, s) != SegAt(v0, h0, s)
      ensures exists v :: InGrid(v) && v != x0 && c0[Idx(v)] != Visited && s in CellSides(v)
    {
      var v :| InGrid(v) && v != x0 && ct[Idx(v)] != Visited && s in CellSides(v);
      IdxInjective(v, x0);
    }
  }

  /** After a successful carve into `next`: the segments that changed were
      the four around `next`, or changed by the recursion around cells off
      the path; the crossed segment is an inner one, so the outline keeps
      every segment it had. */
  lemma CarvedKept(v0: seq<bool>, h0: seq<bool>, v1: seq<bool>, h1: seq<bool>, v2: seq<bool>, h2: seq<bool>,
                   c1: seq<Byte>, x0: Vec, d: Dir, c: Carving)
    requires |v0| == |v1| == |v2| == H * (W + 1) && |h0| == |h1| == |h2| == (H + 1) * W && |c1| == Cells
    requires InGrid(x0) && InGrid(Step(x0, d)) && c == CarveSegments(x0, d)
    requires forall t :: t in Sides(c) ==> ValidSeg(t)
    requires OnlySidesDiffer(v0, h0, v1, h1, c) && Carved(v1, h1, c, false, true, true, true)
    requires ChangedNear(v1, h1, v2, h2, c1, Step(x0, d)) && OutlineKept(v1, h1, v2, h2)
    requires c1[Idx(x0)] == Visited && c1[Idx(Step(x0, d))] != Visited
    ensures ChangedNear(v0, h0, v2, h2, c1, x0) && OutlineKept(v0, h0, v2, h2)
  {
    var next := Step(x0, d);
    BetweenIsInner(x0, d);
    forall s | ValidSeg(s) && SegAt(v2, h2, s) != SegAt(v0, h0, s)
      ensures exists v :: InGrid(v) && v != x0 && c1[Idx(v)] != Visited && s in CellSides(v)
    {
      if SegAt(v2, h2, s) != SegAt(v1, h1, s) {
        var v :| InGrid(v) && v != next && c1[Idx(v)] != Visited && s in CellSides(v);
      } else {
        assert s in CellSides(next);
      }
    }
  }

  /** Putting the four saved values back after the recursion left the walls
      alone restores the walls as they were. */
  lemma RestoredWalls(v0: seq<bool>, h0: seq<bool>, v1: seq<bool>, h1: seq<bool>, v2: seq<bool>, h2: seq<bool>,
                      v3: seq<bool>, h3: seq<bool>, c: Carving)
    requires |v0| == |v1| == |v2| == |v3| == H * (W + 1) && |h0| == |h1| == |h2| == |h3| == (H + 1) * W
    requires forall t :: t in Sides(c) ==> ValidSeg(t)
    requires OnlySidesDiffer(v0, h0, v1, h1, c) && SameWalls(v1, h1, v2, h2) && OnlySidesDiffer(v2, h2, v3, h3, c)
    requires Carved(v3, h3, c, SegAt(v0, h0, c.entry), SegAt(v0, h0, c.forward), SegAt(v0, h0, c.walla), SegAt(v0, h0, c.wallb))
    ensures SameWalls(v0, h0, v3, h3)
  {
  }

  /** Lines 418-424: from `x0`, which is on the path, probe the neighbour
      in direction `d`; unless it proves a dead end, carve into it. */
  method TryDirection(cache: array<Byte>, m: Maze, x0: Vec, d: Dir, rng: Rand) returns (ok: bool)
    requires cache.Length == Cells && m.Valid() && InGrid(x0) && InGrid(Step(x0, d))
    requires NoBfs(cache[..]) && cache[Idx(x0)] == Visited
    modifies cache, m.vert, m.horiz, rng
    decreases NonVisited(cache[..]), 2
    ensures NoBfs(cache[..])
    ensures SameVisitedBut(old(cache[..]), cache[..], Idx(x0))
    ensures cache[Idx(x0)] == if ok then Target else Visited
    ensures !ok ==> SameWalls(old(m.vert[..]), old(m.horiz[..]), m.vert[..], m.horiz[..])
    ensures ChangedNear(old(m.vert[..]), old(m.horiz[..]), m.vert[..], m.horiz[..], old(cache[..]), x0)
    ensures OutlineKept(old(m.vert[..]), old(m.horiz[..]), m.vert[..], m.horiz[..])
  {
    var next := Step(x0, d);
    ghost var found, explored, flood, via := CacheUpdate(cache, next);
    if cache[Idx(next)] == NoPath {
      return false;
    }
    ghost var ct := cache[..];
    ghost var v0, h0 := m.vert[..], m.horiz[..];
    ok := CarveInto(cache, m, x0, d, rng);
    ChangedNearFromEntry(v0, h0, v0, h0, m.vert[..], m.horiz[..], old(cache[..]), ct, x0);
  }

  /** Lines 426-466: carve into the neighbour of `x0` in direction `d` and
      recurse from it; when the recursion fails, put the four segments back. */
  method CarveInto(cache: array<Byte>, m: Maze, x0: Vec, d: Dir, rng: Rand) returns (ok: bool)
    requires cache.Length == Cells && m.Valid() && InGrid(x0) && InGrid(Step(x0, d))
    requires NoBfs(cache[..]) && cache[Idx(x0)] == Visited
    modifies cache, m.vert, m.horiz, rng
    decreases NonVisited(cache[..]), 1
    ensures NoBfs(cache[..])
    ensures SameVisitedBut(old(cache[..]), cache[..], Idx(x0))
    ensures cache[Idx(x0)] == if ok then Target else Visited
    ensures !ok ==> SameWalls(old(m.vert[..]), old(m.horiz[..]), m.vert[..], m.horiz[..])
    ensures ChangedNear(old(m.vert[..]), old(m.horiz[..]), m.vert[..], m.horiz[..], old(cache[..]), x0)
    ensures OutlineKept(old(m.vert[..]), old(m.horiz[..]), m.vert[..], m.horiz[..])
  {
    var next := Step(x0, d);
    var c := CarveSegments(x0, d);
    CellSidesValid(next);
    ghost var v0, h0 := m.vert[..], m.horiz[..];
    var entry0, forward0, walla0, wallb0 := m.Wall(c.entry), m.Wall(c.forward), m.Wall(c.walla), m.Wall(c.wallb);
    WriteCarving(m, c, false, true, true, true);
    ghost var v1, h1 := m.vert[..], m.horiz[..];
    ghost var c1 := cache[..];
    ok := RandPath(cache, m, next, rng);
    if ok {
      NegateReverses(x0, d);
      ghost var v2, h2, c2 := m.vert[..], m.horiz[..], cache[..];
      CarvedKept(v0, h0, v1, h1, v2, h2, c1, x0, d, c);
      TargetMarked(c1, c2, x0);
      cache[Idx(x0)] := Target;
      assert cache[..] == c2[Idx(x0) := Target] && m.vert[..] == v2 && m.horiz[..] == h2;
      return;
    }
    ghost var v2, h2 := m.vert[..], m.horiz[..];
    WriteCarving(m, c, entry0, forward0, walla0, wallb0);
    RestoredWalls(v0, h0, v1, h1, v2, h2, m.vert[..], m.horiz[..], c);
  }

  /** Lines 456-458: once the recursion has reached a Target, `x0` becomes
      one too and leaves the path. */
  lemma TargetMarked(c0: seq<Byte>, c1: seq<Byte>, x0: Vec)
    requires |c0| == Cells && |c1| == Cells && InGrid(x0) && NoBfs(c1) && c0[Idx(x0)] == Visited
    requires SameVisited(c0, c1)
    ensures NoBfs(c1[Idx(x0) := Target])
    ensures SameVisitedBut(c0, c1[Idx(x0) := Target], Idx(x0))
  {
  }

  /** A direction in which `x0` has a neighbour inside the grid. */
  predicate Leads(x0: Vec, d: int) {
    0 <= d < 4 && InGrid(Step(x0, d))
  }

  /** Lines 405-412: list, in increasing order, the directions in which
      `randpath_is_valid` allows a move from `x0`. */
  method OpenDirections(m: Maze, x0: Vec) returns (open: array<int>, numOpen: int)
    requires m.Valid() && InGrid(x0)
    ensures fresh(open) && open.Length == 4 && 0 <= numOpen <= 4
    ensures forall d: Dir :: d in open[..numOpen] <==> IsValid(m, x0, d)
    ensures forall d :: d in open[..numOpen] ==> Leads(x0, d)
    ensures forall i, j :: 0 <= i < j < numOpen ==> open[i] < open[j]
  {
    open := new int[4];
    numOpen := 0;
    for i := 0 to 4
      invariant 0 <= numOpen <= i
      invariant forall d: Dir :: d in open[..numOpen] <==> d < i && IsValid(m, x0, d)
      invariant forall k :: 0 <= k < numOpen ==> 0 <= open[k] < i
      invariant forall i, j :: 0 <= i < j < numOpen ==> open[i] < open[j]
    {
      if !IsValid(m, x0, i) {
        continue;
      }
      open[numOpen] := i;
      numOpen := numOpen + 1;
      assert open[..numOpen] == open[..numOpen - 1] + [i];
    }
    forall d | d in open[..numOpen] ensures Leads(x0, d) {
      IsValidMeaning(m, x0, d);
    }
  }

  /** The entries left after `randpath_select` all came from the list it
      was given. */
  lemma SelectKeepsLeads(o: seq<int>, idx: int, x0: Vec)
    requires 0 <= idx < |o| && forall d :: d in o ==> Leads(x0, d)
    ensures Leads(x0, o[idx]) && forall d :: d in RemoveAt(o, idx) ==> Leads(x0, d)
  {
    forall d | d in RemoveAt(o, idx) ensures Leads(x0, d) {
      RemoveAtMultiset(o, idx);
      assert d in multiset(RemoveAt(o, idx));
      assert d in multiset(o);
    }
  }

  /** The same cells are on the path. */
  lemma NonVisitedSame(c0: seq<Byte>, c: seq<Byte>)
    requires |c0| == |c|
    requires forall i :: 0 <= i < |c| ==> (c[i] == Visited <==> c0[i] == Visited)
    ensures NonVisited(c) == NonVisited(c0)
  {
  }

  /** Lines 414-466: try the open directions of `x0`, drawn at random,
      until one of them leads to a Target cell. */
  method Search(cache: array<Byte>, m: Maze, x0: Vec, open: array<int>, numOpen0: int, rng: Rand) returns (ok: bool)
    requires cache.Length == Cells && m.Valid() && InGrid(x0)
    requires NoBfs(cache[..]) && cache[Idx(x0)] == Visited
    requires 0 <= numOpen0 <= open.Length && forall d :: d in open[..numOpen0] ==> Leads(x0, d)
    modifies cache, m.vert, m.horiz, rng, open
    decreases NonVisited(cache[..]), 3
    ensures NoBfs(cache[..])
    ensures SameVisitedBut(old(cache[..]), cache[..], Idx(x0))
    ensures cache[Idx(x0)] == if ok then Target else Visited
    ensures !ok ==> SameWalls(old(m.vert[..]), old(m.horiz[..]), m.vert[..], m.horiz[..])
    ensures ChangedNear(old(m.vert[..]), old(m.horiz[..]), m.vert[..], m.horiz[..], old(cache[..]), x0)
    ensures OutlineKept(old(m.vert[..]), old(m.horiz[..]), m.vert[..], m.horiz[..])
  {
    var numOpen := numOpen0;
    while true
      invariant 0 <= numOpen <= open.Length
      invariant forall d :: d in open[..numOpen] ==> Leads(x0, d)
      invariant NoBfs(cache[..]) && cache[Idx(x0)] == Visited
      invariant forall i :: 0 <= i < Cells ==> (cache[i] == Visited <==> old(cache[i]) == Visited)
      invariant SameWalls(old(m.vert[..]), old(m.horiz[..]), m.vert[..], m.horiz[..])
      decreases numOpen
    {
      ghost var o := open[..numOpen];
      var d;
      d, numOpen := Select(open, numOpen, rng);
      if d == -1 {
        return false;
      }
      SelectKeepsLeads(o, rng.draws(rng.taken - 1) % |o|, x0);
      NonVisitedSame(old(cache[..]), cache[..]);
      ghost var vh, hh, ct := m.vert[..], m.horiz[..], cache[..];
      ok := TryDirection(cache, m, x0, d, rng);
      ChangedNearFromEntry(old(m.vert[..]), old(m.horiz[..]), vh, hh, m.vert[..], m.horiz[..], old(cache[..]), ct, x0);
      if ok {
        return;
      }
    }
  }

  /** `maze_randpath(cache, maze, x0)`: extend the carver's path into `x0`
      and search, in random order, for a way on to a Target cell; true when
      one is found.  The recursion ends because every call puts one more
      cell on the path. */
  method RandPath(cache: array<Byte>, m: Maze, x0: Vec, rng: Rand) returns (ok: bool)
    requires cache.Length == Cells && m.Valid() && InGrid(x0) && NoBfs(cache[..])
    modifies cache, m.vert, m.horiz, rng
    decreases NonVisited(cache[..]), 0
    ensures NoBfs(cache[..])
    ensures SameVisited(old(cache[..]), cache[..])
    ensures old(cache[Idx(x0)]) == Target ==>
      ok && cache[..] == old(cache[..]) && SameWalls(old(m.vert[..]), old(m.horiz[..]), m.vert[..], m.horiz[..])
    ensures old(cache[Idx(x0)]) == Visited ==> !ok && cache[..] == old(cache[..])
    ensures ok ==> cache[Idx(x0)] == Target
    ensures !ok ==> SameWalls(old(m.vert[..]), old(m.horiz[..]), m.vert[..], m.horiz[..])
    ensures ChangedNear(old(m.vert[..]), old(m.horiz[..]), m.vert[..], m.horiz[..], old(cache[..]), x0)
    ensures OutlineKept(old(m.vert[..]), old(m.horiz[..]), m.vert[..], m.horiz[..])
  {
    if cache[Idx(x0)] == Target {
      return true;
    }
    if cache[Idx(x0)] == Visited {
      return false;
    }
    InvalidatePath(cache, x0);
    cache[Idx(x0)] := Visited;
    var open, numOpen := OpenDirections(m, x0);
    NonVisitedShrinks(old(cache[..]), cache[..], Idx(x0));
    ghost var ct := cache[..];
    ok := Search(cache, m, x0, open, numOpen, rng);
    ChangedNearFromEntry(old(m.vert[..]), old(m.horiz[..]), old(m.vert[..]), old(m.horiz[..]),
                         m.vert[..], m.horiz[..], old(cache[..]), ct, x0);
    if ok {
      return;
    }

    cache[Idx(x0)] := Unset;
    InvalidateNoPath(cache, x0);
    return false;
  }

  /** Lines 474-486: every segment of the outline present, every inner
      segment absent. */
  method DrawOutline(m: Maze)
    requires m.Valid()
    modifies m.vert, m.horiz
    ensures forall s :: ValidSeg(s) ==> m.Wall(s) == IsBorder(s)
  {
    for i := 0 to H
      invariant forall s :: ValidSeg(s) && s.V? && s.row < i ==> m.Wall(s) == IsBorder(s)
    {
      for j := 0 to W + 1
        invariant forall s :: ValidSeg(s) && s.V? && (s.row < i || (s.row == i && s.col < j)) ==> m.Wall(s) == IsBorder(s)
      {
        m.SetWall(V(i, j), j == 0 || j == W);
      }
    }
    for i := 0 to H + 1
      invariant forall s :: ValidSeg(s) && (s.V? || s.row < i) ==> m.Wall(s) == IsBorder(s)
    {
      for j := 0 to W
        invariant forall s :: ValidSeg(s) && (s.V? || s.row < i || (s.row == i && s.col < j)) ==> m.Wall(s) == IsBorder(s)
      {
        m.SetWall(Hz(i, j), i == 0 || i == H);
      }
    }
  }

  /** `maze_randomize(maze)`: draw the outline, open the entrance at the
      left of the top-left cell, carve from there towards the bottom-right
      cell, and open the exit at its right.  The outline is closed except
      for the entrance and the exit. */
  method Randomize(m: Maze, rng: Rand)
    requires m.Valid()
    modifies m.vert, m.horiz, rng
    ensures forall s :: ValidSeg(s) && IsBorder(s) ==> (m.Wall(s) <==> s != V(0, 0) && s != V(H - 1, W))
  {
    DrawOutline(m);
    m.SetWall(V(0, 0), false);
    m.SetWall(V(0, 1), true);
    m.SetWall(Hz(1, 0), true);
    ghost var v0, h0 := m.vert[..], m.horiz[..];
    var exitCell := Vec(W - 1, H - 1);
    var cache := new Byte[Cells](i => if i == Idx(exitCell) then Target else Unset);
    var origin := Vec(0, 0);
    var _ := RandPath(cache, m, origin, rng);
    assert SegAt(m.vert[..], m.horiz[..], V(0, 0)) == SegAt(v0, h0, V(0, 0)) by {
      forall v | InGrid(v) && V(0, 0) in CellSides(v) ensures v == origin {
      }
    }
    m.SetWall(V(H - 1, W), false);
  }
}
