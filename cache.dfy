/** The reachability cache of `src/maze.c`: one byte per cell recording
    what the carver has learnt about reaching the target from that cell,
    the two-phase breadth-first probe `randpath_cache_update`, and the two
    recursive invalidators.  The cache is the row-major `[H][W]` byte array
    `RPCache`, indexed through `Grid.Idx`. */
module Cache {
  import opened Grid
  import opened Basics

  /** The entry codes.  A path entry is odd and carries its direction in
      the upper bits: `RP_PATH(d) = 2d + 1`. */
  const Unset: Byte := 0
  const Visited: Byte := 2
  const NoPath: Byte := 4
  const Target: Byte := 6
  const BfsVisited: Byte := 8

  /** `RP_PATH(d)`. */
  function PathTo(d: Dir): Byte {
    2 * d + 1
  }

  /** `RP_PATHP(e)`: the low bit. */
  predicate IsPath(e: Byte) {
    e % 2 == 1
  }

  /** `RP_DIR(e)`: the bits above the low one. */
  function DirOf(e: Byte): int {
    e / 2
  }

  /** An entry the probe stops at: the cell's fate is already known. */
  predicate Settled(e: Byte) {
    e == NoPath || IsPath(e) || e == Target
  }

  /** The codes are told apart by the `RP_*P` tests, and `RP_DIR` recovers
      the direction stored by `RP_PATH`. */
  lemma EncodingDecodes(d: Dir)
    ensures IsPath(PathTo(d)) && DirOf(PathTo(d)) == d
    ensures !IsPath(Unset) && !IsPath(Visited) && !IsPath(NoPath) && !IsPath(Target) && !IsPath(BfsVisited)
    ensures Settled(PathTo(d)) && Settled(NoPath) && Settled(Target)
    ensures !Settled(Unset) && !Settled(Visited) && !Settled(BfsVisited)
  {
  }

  /** No transient probe marks: true of the cache between probes. */
  ghost predicate NoBfs(c: seq<Byte>) {
    forall i :: 0 <= i < |c| ==> c[i] != BfsVisited
  }

  /** Cell `v` holds a path entry whose direction leads to cell `u`. */
  ghost predicate PointsInto(c: seq<Byte>, v: Vec, u: Vec)
    requires |c| == Cells
  {
    InGrid(v) && IsPath(c[Idx(v)]) && DirOf(c[Idx(v)]) < 4 && Step(v, DirOf(c[Idx(v)])) == u
  }

  // ---------------------------------------------------------------------
  // randpath_cache_update

  /** The state of the first phase: `count` cells queued in `q`, each one
      was Unset in `c0` and is now marked BfsVisited, and nothing else has
      changed; `parent` records the queued cell each one was reached from. */
  ghost predicate Explored(c0: seq<Byte>, c: seq<Byte>, q: seq<Vec>, count: int, parent: seq<int>)
  {
    && |c0| == Cells && |c| == Cells && |q| == Cells && 1 <= count <= Cells && |parent| == count
    && (forall k :: 0 <= k < count ==> InGrid(q[k]) && c[Idx(q[k])] == BfsVisited && c0[Idx(q[k])] == Unset)
    && (forall i, j :: 0 <= i < j < count ==> q[i] != q[j])
    && (forall k :: 1 <= k < count ==> 0 <= parent[k] < k && Adjacent(q[parent[k]], q[k]))
    && (forall v :: InGrid(v) && c[Idx(v)] != c0[Idx(v)] ==> v in q[..count])
  }

  /** Every neighbour of the first `next` queued cells is neither Unset nor settled. */
  ghost predicate Enclosed(c: seq<Byte>, q: seq<Vec>, next: int)
    requires |c| == Cells && 0 <= next <= |q|
    requires forall k :: 0 <= k < next ==> InGrid(q[k])
  {
    forall k, d: Dir :: 0 <= k < next && InGrid(Step(q[k], d)) ==>
      c[Idx(Step(q[k], d))] != Unset && !Settled(c[Idx(Step(q[k], d))])
  }

  /** A queue of distinct cells that does not hold `adj` has room for it. */
  lemma QueueBound(q: seq<Vec>, count: int, adj: Vec)
    requires 0 <= count <= |q|
    requires forall k :: 0 <= k < count ==> InGrid(q[k])
    requires forall i, j :: 0 <= i < j < count ==> q[i] != q[j]
    requires InGrid(adj) && adj !in q[..count]
    ensures count < Cells
  {
    var s := seq(count + 1, k requires 0 <= k <= count => if k < count then Idx(q[k]) else Idx(adj));
    forall i, j | 0 <= i < j < |s| ensures s[i] != s[j] {
      var b := if j < count then q[j] else adj;
      assert q[..count][i] == q[i];
      IdxInjective(q[i], b);
    }
    forall k | 0 <= k < |s| ensures 0 <= s[k] < Cells {
      if k < count {
        assert s[k] == Idx(q[k]);
      } else {
        assert s[k] == Idx(adj);
      }
    }
    DistinctBound(s, Cells);
  }

  /** Queueing an Unset neighbour of a queued cell keeps the first phase's state. */
  lemma ExploredPush(c0: seq<Byte>, c: seq<Byte>, q: seq<Vec>, count: int, parent: seq<int>, pk: int, adj: Vec)
    requires Explored(c0, c, q, count, parent) && 0 <= pk < count
    requires InGrid(adj) && Adjacent(q[pk], adj) && c[Idx(adj)] == Unset
    ensures count < Cells
    ensures Explored(c0, c[Idx(adj) := BfsVisited], q[count := adj], count + 1, parent + [pk])
  {
    assert adj !in q[..count];
    QueueBound(q, count, adj);
    var c', q', parent' := c[Idx(adj) := BfsVisited], q[count := adj], parent + [pk];
    forall k | 0 <= k < count + 1 ensures InGrid(q'[k]) && c'[Idx(q'[k])] == BfsVisited && c0[Idx(q'[k])] == Unset {
      if k < count {
        IdxInjective(q[k], adj);
      }
    }
    forall k | 1 <= k < count + 1 ensures 0 <= parent'[k] < k && Adjacent(q'[parent'[k]], q'[k]) {
    }
    forall v | InGrid(v) && c'[Idx(v)] != c0[Idx(v)] ensures v in q'[..count + 1] {
      IdxInjective(v, adj);
      if v != adj {
        assert v in q[..count];
        var k :| 0 <= k < count && q[k] == v;
        assert q'[..count + 1][k] == v;
      } else {
        assert q'[..count + 1][count] == v;
      }
    }
  }

  /** Marking an Unset cell, and writing past the queue's end, keeps the
      queue and marks only that cell. */
  lemma MarkFrame(c: seq<Byte>, q: seq<Vec>, count: int, adj: Vec)
    requires |c| == Cells && 0 <= count < |q| && InGrid(adj) && c[Idx(adj)] == Unset
    ensures PrefixKept(q, q[count := adj], count) && MarksOnly(c, c[Idx(adj) := BfsVisited])
  {
  }

  /** Lines 309-310 and 341-342: write entry `e` for cell `adj` and append
      `adj` to the queue of `count` cells. */
  method Push(cache: array<Byte>, visited: array<Vec>, count: int, adj: Vec, e: Byte)
    requires cache.Length == Cells && 0 <= count < visited.Length && InGrid(adj)
    modifies cache, visited
    ensures cache[..] == old(cache[..])[Idx(adj) := e] && visited[..] == old(visited[..])[count := adj]
    ensures visited[..count + 1] == old(visited[..count]) + [adj]
  {
    cache[Idx(adj)] := e;
    visited[count] := adj;
    assert visited[..count + 1] == old(visited[..count]) + [adj];
  }

  /** The first `n` entries of the queue are as they were. */
  ghost predicate PrefixKept(q0: seq<Vec>, q: seq<Vec>, n: int) {
    0 <= n <= |q0| && n <= |q| && forall k :: 0 <= k < n ==> q[k] == q0[k]
  }

  /** `c` is `c0` with some Unset cells marked. */
  ghost predicate MarksOnly(c0: seq<Byte>, c: seq<Byte>) {
    |c0| == Cells && |c| == Cells
    && forall i :: 0 <= i < Cells ==> c[i] == c0[i] || (c0[i] == Unset && c[i] == BfsVisited)
  }

  lemma MarksOnlyTrans(c0: seq<Byte>, c1: seq<Byte>, c2: seq<Byte>)
    requires MarksOnly(c0, c1) && MarksOnly(c1, c2)
    ensures MarksOnly(c0, c2)
  {
  }

  /** The neighbours of `pos` in the first `n` directions are neither Unset
      nor settled. */
  ghost predicate Surrounded(c: seq<Byte>, pos: Vec, n: int)
    requires |c| == Cells
  {
    forall d: Dir :: d < n && InGrid(Step(pos, d)) ==> c[Idx(Step(pos, d))] != Unset && !Settled(c[Idx(Step(pos, d))])
  }

  /** Marking Unset cells keeps a neighbour neither Unset nor settled. */
  lemma SurroundedMarked(c0: seq<Byte>, c: seq<Byte>, pos: Vec, n: int)
    requires MarksOnly(c0, c) && Surrounded(c0, pos, n)
    ensures Surrounded(c, pos, n)
  {
    forall d: Dir | d < n && InGrid(Step(pos, d))
      ensures c[Idx(Step(pos, d))] != Unset && !Settled(c[Idx(Step(pos, d))])
    {
      assert c0[Idx(Step(pos, d))] != Unset;
    }
  }

  lemma SurroundedKept(c0: seq<Byte>, c: seq<Byte>, pos: Vec, dir: Dir)
    requires MarksOnly(c0, c) && Surrounded(c0, pos, dir)
    requires InGrid(Step(pos, dir)) ==> c[Idx(Step(pos, dir))] != Unset && !Settled(c[Idx(Step(pos, dir))])
    ensures Surrounded(c, pos, dir + 1)
  {
    forall d: Dir | d < dir && InGrid(Step(pos, d))
      ensures c[Idx(Step(pos, d))] != Unset && !Settled(c[Idx(Step(pos, d))])
    {
      assert c0[Idx(Step(pos, d))] != Unset;
    }
  }

  /** A position in a breadth-first scan: queued cell `q[next]` is about to
      look in direction `dir`. */
  ghost predicate ScanOk(c: seq<Byte>, q: seq<Vec>, next: int, dir: int) {
    |c| == Cells && 0 <= next <= |q| && 0 <= dir <= 4
  }

  /** The cells that hold entry `e`. */
  ghost function CellsHolding(c: seq<Byte>, e: Byte): set<int> {
    set i | 0 <= i < |c| && c[i] == e
  }

  /** Where the first phase ends: the cache, the queue, and the settled cell met. */
  datatype Scanned = Scanned(c: seq<Byte>, q: seq<Vec>, found: Option<Vec>)

  /** The first phase as a reference definition, from the state in which
      queued cell `q[next]` is about to look in direction `dir`: queued
      cells in first-in first-out order, the neighbours of each in `unitvec`
      order; an off-grid neighbour is skipped, a settled one ends the phase,
      an Unset one is marked and appended to the queue, any other is passed
      by; the phase also ends when the queue runs out. */
  ghost function Scan(c: seq<Byte>, q: seq<Vec>, next: int, dir: int): (r: Scanned)
    requires ScanOk(c, q, next, dir)
    ensures |r.c| == Cells
    ensures r.found.Some? ==> InGrid(r.found.value) && Settled(r.c[Idx(r.found.value)])
    decreases CellsHolding(c, Unset), |q| - next, 4 - dir
  {
    if next == |q| then Scanned(c, q, None)
    else if dir == 4 then Scan(c, q, next + 1, 0)
    else
      var adj := Step(q[next], dir);
      if !InGrid(adj) then Scan(c, q, next, dir + 1)
      else if Settled(c[Idx(adj)]) then Scanned(c, q, Some(adj))
      else if c[Idx(adj)] == Unset then
        var c' := c[Idx(adj) := BfsVisited];
        assert Idx(adj) in CellsHolding(c, Unset) - CellsHolding(c', Unset);
        Scan(c', q + [adj], next, dir + 1)
      else Scan(c, q, next, dir + 1)
  }

  /** Where the second phase ends: the cache and the queue. */
  datatype Spread = Spread(c: seq<Byte>, q: seq<Vec>)

  /** The second phase as a reference definition, in the same order as
      `Scan`: every marked neighbour is rewritten, to a path entry pointing
      back at the queued cell it was reached from when `path` holds and to
      NoPath otherwise, and appended to the queue. */
  ghost function Flood(c: seq<Byte>, q: seq<Vec>, next: int, dir: int, path: bool): (r: Spread)
    requires ScanOk(c, q, next, dir)
    ensures |r.c| == Cells
    decreases CellsHolding(c, BfsVisited), |q| - next, 4 - dir
  {
    if next == |q| then Spread(c, q)
    else if dir == 4 then Flood(c, q, next + 1, 0, path)
    else
      var adj := Step(q[next], dir);
      if !InGrid(adj) || c[Idx(adj)] != BfsVisited then Flood(c, q, next, dir + 1, path)
      else
        var c' := c[Idx(adj) := if path then PathTo(Negate(dir)) else NoPath];
        assert Idx(adj) in CellsHolding(c, BfsVisited) - CellsHolding(c', BfsVisited);
        Flood(c', q + [adj], next, dir + 1, path)
  }

  /** The first phase of `randpath_cache_update`: the start cell marked and
      queued alone. */
  ghost function FirstPhase(c0: seq<Byte>, start: Vec): Scanned
    requires |c0| == Cells && InGrid(start)
  {
    Scan(c0[Idx(start) := BfsVisited], [start], 0, 0)
  }

  /** The second phase after first phase `p`: rooted at the cell met, and
      writing path entries when that cell is a path entry or Target; or,
      when none was met, rooted at the start cell set to NoPath. */
  ghost function SecondPhase(p: Scanned, start: Vec): Spread
    requires |p.c| == Cells && InGrid(start) && (p.found.Some? ==> InGrid(p.found.value))
  {
    match p.found
    case Some(f) => Flood(p.c, [f], 0, 0, IsPath(p.c[Idx(f)]) || p.c[Idx(f)] == Target)
    case None => Flood(p.c[Idx(start) := NoPath], [start], 0, 0, false)
  }

  /** The cache `randpath_cache_update` leaves behind. */
  ghost function AfterUpdate(c0: seq<Byte>, start: Vec): seq<Byte>
    requires |c0| == Cells && InGrid(start)
  {
    if c0[Idx(start)] != Unset then c0 else SecondPhase(FirstPhase(c0, start), start).c
  }

  /** One step of `Scan` past a neighbour that is off the grid, or neither
      Unset nor settled. */
  lemma ScanPasses(c: seq<Byte>, q: seq<Vec>, next: int, dir: Dir)
    requires ScanOk(c, q, next, dir) && next < |q|
    requires InGrid(Step(q[next], dir)) ==>
      c[Idx(Step(q[next], dir))] != Unset && !Settled(c[Idx(Step(q[next], dir))])
    ensures Scan(c, q, next, dir) == Scan(c, q, next, dir + 1)
  {
  }

  /** One step of `Scan` that meets a settled neighbour. */
  lemma ScanMeets(c: seq<Byte>, q: seq<Vec>, next: int, dir: Dir)
    requires ScanOk(c, q, next, dir) && next < |q|
    requires InGrid(Step(q[next], dir)) && Settled(c[Idx(Step(q[next], dir))])
    ensures Scan(c, q, next, dir) == Scanned(c, q, Some(Step(q[next], dir)))
  {
  }

  /** One step of `Scan` that marks and queues an Unset neighbour. */
  lemma ScanMarks(c: seq<Byte>, q: seq<Vec>, next: int, dir: Dir, adj: Vec)
    requires ScanOk(c, q, next, dir) && next < |q|
    requires adj == Step(q[next], dir) && InGrid(adj) && c[Idx(adj)] == Unset
    ensures Scan(c, q, next, dir) == Scan(c[Idx(adj) := BfsVisited], q + [adj], next, dir + 1)
  {
  }

  /** `Scan` moves on to the next queued cell after the fourth direction. */
  lemma ScanNextCell(c: seq<Byte>, q: seq<Vec>, next: int)
    requires ScanOk(c, q, next, 4) && next < |q|
    ensures Scan(c, q, next, 4) == Scan(c, q, next + 1, 0)
  {
  }

  /** `Scan` ends when the queue runs out. */
  lemma ScanExhausted(c: seq<Byte>, q: seq<Vec>)
    requires |c| == Cells
    ensures Scan(c, q, |q|, 0) == Scanned(c, q, None)
  {
  }

  /** Lines 289-310: the body of the loop over directions, for one
      neighbour of queued cell `pos`. */
  method ExpandNeighbour(cache: array<Byte>, visited: array<Vec>, count0: int, pos: Vec, dir: Dir,
                         ghost c0: seq<Byte>, ghost parent0: seq<int>, ghost pk: int)
    returns (count: int, hasFound: bool, found: Vec, ghost parent: seq<int>)
    requires cache.Length == Cells && visited.Length == Cells
    requires Explored(c0, cache[..], visited[..], count0, parent0)
    requires 0 <= pk < count0 && visited[pk] == pos
    modifies cache, visited
    ensures Explored(c0, cache[..], visited[..], count, parent)
    ensures count0 <= count && PrefixKept(old(visited[..]), visited[..], count0)
    ensures MarksOnly(old(cache[..]), cache[..])
    ensures hasFound ==> InGrid(found) && found == Step(pos, dir) && Adjacent(pos, found) && Settled(cache[Idx(found)])
    ensures !hasFound && InGrid(Step(pos, dir)) ==>
      cache[Idx(Step(pos, dir))] != Unset && !Settled(cache[Idx(Step(pos, dir))])
    ensures hasFound ==> Scan(old(cache[..]), old(visited[..count0]), pk, dir) == Scanned(cache[..], visited[..count], Some(found))
    ensures !hasFound ==> Scan(old(cache[..]), old(visited[..count0]), pk, dir) == Scan(cache[..], visited[..count], pk, dir + 1)
  {
    count, hasFound, found, parent := count0, false, Vec(0, 0), parent0;
    ghost var c, q := cache[..], visited[..];
    ghost var qs := visited[..count0];
    var adj := Step(pos, dir);
    if !InGrid(adj) {
      ScanPasses(c, qs, pk, dir);
      return;
    }
    var e := cache[Idx(adj)];
    if e == NoPath || IsPath(e) || e == Target {
      NegateReverses(pos, dir);
      ScanMeets(c, qs, pk, dir);
      found, hasFound := adj, true;
      return;
    }
    if e != Unset {
      ScanPasses(c, qs, pk, dir);
      return;
    }
    count, parent := ExpandMarked(cache, visited, count0, pos, dir, c0, parent0, pk);
  }

  /** Lines 309-310: mark the Unset neighbour of `pos` in direction `dir`
      and queue it. */
  method ExpandMarked(cache: array<Byte>, visited: array<Vec>, count0: int, pos: Vec, dir: Dir,
                      ghost c0: seq<Byte>, ghost parent0: seq<int>, ghost pk: int)
    returns (count: int, ghost parent: seq<int>)
    requires cache.Length == Cells && visited.Length == Cells
    requires Explored(c0, cache[..], visited[..], count0, parent0)
    requires 0 <= pk < count0 && visited[pk] == pos
    requires InGrid(Step(pos, dir)) && cache[Idx(Step(pos, dir))] == Unset
    modifies cache, visited
    ensures Explored(c0, cache[..], visited[..], count, parent)
    ensures count0 <= count && PrefixKept(old(visited[..]), visited[..], count0)
    ensures MarksOnly(old(cache[..]), cache[..])
    ensures cache[Idx(Step(pos, dir))] == BfsVisited
    ensures Scan(old(cache[..]), old(visited[..count0]), pk, dir) == Scan(cache[..], visited[..count], pk, dir + 1)
  {
    ghost var c, q := cache[..], visited[..];
    ghost var qs := visited[..count0];
    var adj := Step(pos, dir);
    NegateReverses(pos, dir);
    ExploredPush(c0, c, q, count0, parent0, pk, adj);
    MarkFrame(c, q, count0, adj);
    assert qs[pk] == pos;
    ScanMarks(c, qs, pk, dir, adj);
    Push(cache, visited, count0, adj, BfsVisited);
    parent := parent0 + [pk];
    count := count0 + 1;
  }

  /** Lines 287-311: examine the four neighbours of queued cell `pos`,
      marking and queueing the Unset ones, until a settled one is met. */
  method ExpandUnset(cache: array<Byte>, visited: array<Vec>, count0: int, pos: Vec,
                     ghost c0: seq<Byte>, ghost parent0: seq<int>, ghost pk: int)
    returns (count: int, hasFound: bool, found: Vec, ghost fdir: int, ghost parent: seq<int>)
    requires cache.Length == Cells && visited.Length == Cells
    requires Explored(c0, cache[..], visited[..], count0, parent0)
    requires 0 <= pk < count0 && visited[pk] == pos
    modifies cache, visited
    ensures Explored(c0, cache[..], visited[..], count, parent)
    ensures count0 <= count && PrefixKept(old(visited[..]), visited[..], count0)
    ensures MarksOnly(old(cache[..]), cache[..])
    ensures hasFound ==> InGrid(found) && Adjacent(pos, found) && Settled(cache[Idx(found)])
    ensures hasFound ==> 0 <= fdir < 4 && found == Step(pos, fdir) && Surrounded(cache[..], pos, fdir)
    ensures !hasFound ==> Surrounded(cache[..], pos, 4)
    ensures hasFound ==> Scan(old(cache[..]), old(visited[..count0]), pk, 0) == Scanned(cache[..], visited[..count], Some(found))
    ensures !hasFound ==> Scan(old(cache[..]), old(visited[..count0]), pk, 0) == Scan(cache[..], visited[..count], pk + 1, 0)
  {
    count, hasFound, found, fdir, parent := ExpandDirections(cache, visited, count0, pos, c0, parent0, pk,
                                                             cache[..], visited[..], Scan(cache[..], visited[..count0], pk, 0));
    if !hasFound {
      ScanNextCell(cache[..], visited[..count], pk);
    }
  }

  /** The direction loop of `ExpandUnset`, from cache `ca` and queue `qa`,
      with `scan` the first phase from the first direction of `pos`. */
  method ExpandDirections(cache: array<Byte>, visited: array<Vec>, count0: int, pos: Vec,
                          ghost c0: seq<Byte>, ghost parent0: seq<int>, ghost pk: int,
                          ghost ca: seq<Byte>, ghost qa: seq<Vec>, ghost scan: Scanned)
    returns (count: int, hasFound: bool, found: Vec, ghost fdir: int, ghost parent: seq<int>)
    requires cache.Length == Cells && visited.Length == Cells
    requires Explored(c0, cache[..], visited[..], count0, parent0)
    requires 0 <= pk < count0 && visited[pk] == pos
    requires ca == cache[..] && qa == visited[..] && scan == Scan(cache[..], visited[..count0], pk, 0)
    modifies cache, visited
    ensures Explored(c0, cache[..], visited[..], count, parent)
    ensures count0 <= count && PrefixKept(qa, visited[..], count0)
    ensures MarksOnly(ca, cache[..])
    ensures hasFound ==> InGrid(found) && Adjacent(pos, found) && Settled(cache[Idx(found)])
    ensures hasFound ==> 0 <= fdir < 4 && found == Step(pos, fdir) && Surrounded(cache[..], pos, fdir)
    ensures hasFound ==> scan == Scanned(cache[..], visited[..count], Some(found))
    ensures !hasFound ==> Surrounded(cache[..], pos, 4) && scan == Scan(cache[..], visited[..count], pk, 4)
  {
    count, hasFound, found, fdir, parent := count0, false, Vec(0, 0), 0, parent0;
    var dir := 0;
    while dir < 4 && !hasFound
      invariant 0 <= dir <= 4 && (hasFound ==> dir == fdir + 1)
      invariant Explored(c0, cache[..], visited[..], count, parent)
      invariant count0 <= count && PrefixKept(qa, visited[..], count0)
      invariant MarksOnly(ca, cache[..])
      invariant hasFound ==> InGrid(found) && Adjacent(pos, found) && Settled(cache[Idx(found)])
      invariant hasFound ==> 0 <= fdir < 4 && found == Step(pos, fdir) && Surrounded(cache[..], pos, fdir)
      invariant hasFound ==> scan == Scanned(cache[..], visited[..count], Some(found))
      invariant !hasFound ==> Surrounded(cache[..], pos, dir) && scan == Scan(cache[..], visited[..count], pk, dir)
    {
      count, hasFound, found, parent := ExpandTurn(cache, visited, count, pos, dir, c0, parent, pk, ca, qa, count0, scan);
      fdir := dir;
      dir := dir + 1;
    }
  }

  /** One turn of the direction loop of lines 287-311, with what the loop
      keeps: `ca` and `qa` are the cache and queue when the loop began. */
  method ExpandTurn(cache: array<Byte>, visited: array<Vec>, count1: int, pos: Vec, dir: Dir,
                    ghost c0: seq<Byte>, ghost parent1: seq<int>, ghost pk: int,
                    ghost ca: seq<Byte>, ghost qa: seq<Vec>, ghost count0: int, ghost scan: Scanned)
    returns (count: int, hasFound: bool, found: Vec, ghost parent: seq<int>)
    requires cache.Length == Cells && visited.Length == Cells
    requires Explored(c0, cache[..], visited[..], count1, parent1)
    requires 0 <= pk < count0 <= count1 && visited[pk] == pos
    requires PrefixKept(qa, visited[..], count0) && MarksOnly(ca, cache[..])
    requires Surrounded(cache[..], pos, dir) && scan == Scan(cache[..], visited[..count1], pk, dir)
    modifies cache, visited
    ensures Explored(c0, cache[..], visited[..], count, parent)
    ensures count0 <= count && PrefixKept(qa, visited[..], count0)
    ensures MarksOnly(ca, cache[..])
    ensures hasFound ==> InGrid(found) && Adjacent(pos, found) && Settled(cache[Idx(found)])
    ensures hasFound ==> found == Step(pos, dir) && Surrounded(cache[..], pos, dir)
    ensures hasFound ==> scan == Scanned(cache[..], visited[..count], Some(found))
    ensures !hasFound ==> Surrounded(cache[..], pos, dir + 1) && scan == Scan(cache[..], visited[..count], pk, dir + 1)
  {
    ghost var before, q0 := cache[..], visited[..];
    count, hasFound, found, parent := ExpandNeighbour(cache, visited, count1, pos, dir, c0, parent1, pk);
    MarksOnlyTrans(ca, before, cache[..]);
    PrefixKeptTrans(qa, q0, visited[..], count0, count1);
    if hasFound {
      SurroundedMarked(before, cache[..], pos, dir);
    } else {
      SurroundedKept(before, cache[..], pos, dir);
    }
  }

  /** Once the neighbours of the next queued cell are surrounded, one more
      queued cell is enclosed. */
  lemma EnclosedGrows(c0: seq<Byte>, c: seq<Byte>, q0: seq<Vec>, q: seq<Vec>, next: int)
    requires |c0| == Cells && 1 <= next <= |q0| && PrefixKept(q0, q, next)
    requires forall k :: 0 <= k < next ==> InGrid(q0[k])
    requires Enclosed(c0, q0, next - 1) && MarksOnly(c0, c) && Surrounded(c, q[next - 1], 4)
    ensures Enclosed(c, q, next)
  {
    forall k, d: Dir | 0 <= k < next && InGrid(Step(q[k], d))
      ensures c[Idx(Step(q[k], d))] != Unset && !Settled(c[Idx(Step(q[k], d))])
    {
      if k < next - 1 {
        assert c0[Idx(Step(q0[k], d))] != Unset;
      }
    }
  }

  /** Marking Unset cells keeps the queued cells enclosed. */
  lemma EnclosedKept(c0: seq<Byte>, c: seq<Byte>, q0: seq<Vec>, q: seq<Vec>, n: int)
    requires |c0| == Cells && 0 <= n <= |q0| && PrefixKept(q0, q, n)
    requires forall k :: 0 <= k < n ==> InGrid(q0[k])
    requires Enclosed(c0, q0, n) && MarksOnly(c0, c)
    ensures Enclosed(c, q, n)
  {
    forall k, d: Dir | 0 <= k < n && InGrid(Step(q[k], d))
      ensures c[Idx(Step(q[k], d))] != Unset && !Settled(c[Idx(Step(q[k], d))])
    {
      assert c0[Idx(Step(q0[k], d))] != Unset;
    }
  }

  /** Lines 285-311: one turn of the first phase's loop, expanding the
      next queued cell. */
  method ExploreNext(cache: array<Byte>, visited: array<Vec>, count0: int, next0: int,
                     ghost c0: seq<Byte>, ghost parent0: seq<int>, ghost scan: Scanned)
    returns (count: int, next: int, hasFound: bool, found: Vec, ghost fdir: int, ghost parent: seq<int>)
    requires cache.Length == Cells && visited.Length == Cells
    requires Explored(c0, cache[..], visited[..], count0, parent0)
    requires 0 <= next0 < count0 && Enclosed(cache[..], visited[..], next0)
    requires scan == Scan(cache[..], visited[..count0], next0, 0)
    modifies cache, visited
    ensures Explored(c0, cache[..], visited[..], count, parent)
    ensures next == next0 + 1 && next <= count && visited[0] == old(visited[0])
    ensures hasFound ==>
      1 <= next && InGrid(found) && Adjacent(visited[next - 1], found) && Settled(cache[Idx(found)])
    ensures hasFound ==>
      && 0 <= fdir < 4 && found == Step(visited[next - 1], fdir)
      && Surrounded(cache[..], visited[next - 1], fdir) && Enclosed(cache[..], visited[..], next - 1)
    ensures !hasFound ==> Enclosed(cache[..], visited[..], next)
    ensures hasFound ==> scan == Scanned(cache[..], visited[..count], Some(found))
    ensures !hasFound ==> scan == Scan(cache[..], visited[..count], next, 0)
  {
    var pos := visited[next0];
    next := next0 + 1;
    ghost var before := cache[..];
    ghost var q0 := visited[..];
    count, hasFound, found, fdir, parent := ExpandUnset(cache, visited, count0, pos, c0, parent0, next0);
    if hasFound {
      EnclosedKept(before, cache[..], q0, visited[..], next0);
    } else {
      EnclosedGrows(before, cache[..], q0, visited[..], next);
    }
  }

  /** Lines 284-312: the first phase, breadth first from the start cell
      until a settled cell is met or the queue runs out. */
  method Explore(cache: array<Byte>, visited: array<Vec>, ghost c0: seq<Byte>)
    returns (count: int, next: int, hasFound: bool, found: Vec, ghost fdir: int, ghost parent: seq<int>)
    requires cache.Length == Cells && visited.Length == Cells
    requires Explored(c0, cache[..], visited[..], 1, [0])
    modifies cache, visited
    ensures Explored(c0, cache[..], visited[..], count, parent)
    ensures visited[0] == old(visited[0])
    ensures hasFound ==>
      1 <= next <= count && InGrid(found) && Adjacent(visited[next - 1], found) && Settled(cache[Idx(found)])
    ensures hasFound ==>
      && 0 <= fdir < 4 && found == Step(visited[next - 1], fdir)
      && Surrounded(cache[..], visited[next - 1], fdir) && Enclosed(cache[..], visited[..], next - 1)
    ensures !hasFound ==> next == count && Enclosed(cache[..], visited[..], count)
    ensures Scan(old(cache[..]), old(visited[..1]), 0, 0) ==
      Scanned(cache[..], visited[..count], if hasFound then Some(found) else None)
  {
    count, next, hasFound, found, fdir, parent := 1, 0, false, Vec(0, 0), 0, [0];
    ghost var scan := Scan(cache[..], visited[..1], 0, 0);
    while !hasFound && next < count
      invariant Explored(c0, cache[..], visited[..], count, parent)
      invariant 0 <= next <= count && visited[0] == old(visited[0])
      invariant hasFound ==>
        1 <= next && InGrid(found) && Adjacent(visited[next - 1], found) && Settled(cache[Idx(found)])
      invariant hasFound ==>
        && 0 <= fdir < 4 && found == Step(visited[next - 1], fdir)
        && Surrounded(cache[..], visited[next - 1], fdir) && Enclosed(cache[..], visited[..], next - 1)
      invariant !hasFound ==> Enclosed(cache[..], visited[..], next)
      invariant hasFound ==> scan == Scanned(cache[..], visited[..count], Some(found))
      invariant !hasFound ==> scan == Scan(cache[..], visited[..count], next, 0)
      decreases Cells - next, !hasFound
    {
      count, next, hasFound, found, fdir, parent := ExploreNext(cache, visited, count, next, c0, parent, scan);
    }
    if !hasFound {
      ScanExhausted(cache[..], visited[..count]);
    }
  }

  /** The state of the second phase: the queue `q` starts at the root and
      then holds cells marked in `c1`, every queued cell has been rewritten,
      only queued cells have changed, and each rewritten cell holds either a
      path entry leading to an earlier queued cell or NoPath. */
  ghost predicate Settling(c1: seq<Byte>, c: seq<Byte>, q: seq<Vec>, count: int, path: bool, via: seq<int>)
  {
    && |c1| == Cells && |c| == Cells && |q| == Cells && 1 <= count <= Cells && |via| == count
    && (forall k :: 0 <= k < count ==> InGrid(q[k]) && c[Idx(q[k])] != BfsVisited)
    && (forall i, j :: 0 <= i < j < count ==> q[i] != q[j])
    && (forall k :: 1 <= k < count ==> c1[Idx(q[k])] == BfsVisited)
    && (forall v :: InGrid(v) && c[Idx(v)] != c1[Idx(v)] ==> v in q[..count])
    && (forall v :: InGrid(v) && c1[Idx(v)] == BfsVisited ==> c[Idx(v)] == BfsVisited || v in q[..count])
    && (forall k :: 1 <= k < count ==> 0 <= via[k] < k && Adjacent(q[via[k]], q[k]))
    && (forall k :: 1 <= k < count ==>
          if path then PointsInto(c, q[k], q[via[k]]) else c[Idx(q[k])] == NoPath)
  }

  /** No neighbour of the first `next` queued cells is still marked. */
  ghost predicate Drained(c: seq<Byte>, q: seq<Vec>, next: int)
    requires |c| == Cells && 0 <= next <= |q|
    requires forall k :: 0 <= k < next ==> InGrid(q[k])
  {
    forall k, d: Dir :: 0 <= k < next && InGrid(Step(q[k], d)) ==> c[Idx(Step(q[k], d))] != BfsVisited
  }

  /** `c` is `c0` with some marked cells rewritten. */
  ghost predicate RewritesMarks(c0: seq<Byte>, c: seq<Byte>) {
    |c0| == Cells && |c| == Cells && forall i :: 0 <= i < Cells ==> c[i] == c0[i] || c0[i] == BfsVisited
  }

  lemma RewritesMarksTrans(c0: seq<Byte>, c1: seq<Byte>, c2: seq<Byte>)
    requires RewritesMarks(c0, c1) && RewritesMarks(c1, c2)
    ensures RewritesMarks(c0, c2)
  {
  }

  lemma PrefixKeptTrans(q0: seq<Vec>, q1: seq<Vec>, q2: seq<Vec>, n0: int, n1: int)
    requires PrefixKept(q0, q1, n0) && PrefixKept(q1, q2, n1) && n0 <= n1
    ensures PrefixKept(q0, q2, n0)
  {
  }

  /** Rewriting a marked neighbour `adj` of a queued cell, and queueing it,
      keeps the second phase's state when the entry written leads back. */
  lemma SettlingPush(c1: seq<Byte>, c: seq<Byte>, q: seq<Vec>, count: int, path: bool, via: seq<int>,
                     pk: int, adj: Vec, e: Byte)
    requires Settling(c1, c, q, count, path, via) && 0 <= pk < count
    requires InGrid(adj) && Adjacent(q[pk], adj) && c[Idx(adj)] == BfsVisited
    requires if path then IsPath(e) && DirOf(e) < 4 && Step(adj, DirOf(e)) == q[pk] else e == NoPath
    ensures count < Cells
    ensures Settling(c1, c[Idx(adj) := e], q[count := adj], count + 1, path, via + [pk])
    ensures PrefixKept(q, q[count := adj], count)
    ensures RewritesMarks(c, c[Idx(adj) := e])
  {
    assert adj !in q[..count];
    QueueBound(q, count, adj);
    assert c[Idx(adj)] == c1[Idx(adj)];
    PushKeepsQueued(c, q, count, adj, e, c[Idx(adj) := e], q[count := adj]);
    PushKeepsFrame(c1, c, q, count, adj, e);
    PushKeepsLinks(c, q, count, path, via, pk, adj, e);
  }

  lemma PushKeepsQueued(c: seq<Byte>, q: seq<Vec>, count: int, adj: Vec, e: Byte, c': seq<Byte>, q': seq<Vec>)
    requires |c| == Cells && 0 <= count < |q| && InGrid(adj) && e != BfsVisited
    requires c' == c[Idx(adj) := e] && q' == q[count := adj]
    requires forall k :: 0 <= k < count ==> InGrid(q[k]) && c[Idx(q[k])] != BfsVisited
    ensures forall k :: 0 <= k < count + 1 ==> InGrid(q'[k]) && c'[Idx(q'[k])] != BfsVisited
  {
    forall k | 0 <= k < count + 1 ensures InGrid(q'[k]) && c'[Idx(q'[k])] != BfsVisited {
      if k < count {
        IdxInjective(q[k], adj);
      }
    }
  }

  lemma PushKeepsFrame(c1: seq<Byte>, c: seq<Byte>, q: seq<Vec>, count: int, adj: Vec, e: Byte)
    requires |c1| == Cells && |c| == Cells && 0 <= count < |q| && InGrid(adj)
    requires forall v :: InGrid(v) && c[Idx(v)] != c1[Idx(v)] ==> v in q[..count]
    requires forall v :: InGrid(v) && c1[Idx(v)] == BfsVisited ==> c[Idx(v)] == BfsVisited || v in q[..count]
    ensures forall v :: InGrid(v) && c[Idx(adj) := e][Idx(v)] != c1[Idx(v)] ==> v in q[count := adj][..count + 1]
    ensures forall v :: InGrid(v) && c1[Idx(v)] == BfsVisited ==>
      c[Idx(adj) := e][Idx(v)] == BfsVisited || v in q[count := adj][..count + 1]
  {
    var c', q' := c[Idx(adj) := e], q[count := adj];
    assert q'[..count + 1] == q[..count] + [adj];
    forall v | InGrid(v) ensures c'[Idx(v)] == c[Idx(v)] || v == adj {
      IdxInjective(v, adj);
    }
  }

  lemma PushKeepsLinks(c: seq<Byte>, q: seq<Vec>, count: int, path: bool, via: seq<int>, pk: int, adj: Vec, e: Byte)
    requires |c| == Cells && 0 <= pk < count < |q| && |via| == count && InGrid(adj) && c[Idx(adj)] == BfsVisited
    requires forall k :: 0 <= k < count ==> InGrid(q[k]) && c[Idx(q[k])] != BfsVisited
    requires Adjacent(q[pk], adj)
    requires forall k :: 1 <= k < count ==> 0 <= via[k] < k && Adjacent(q[via[k]], q[k])
    requires forall k :: 1 <= k < count ==>
      if path then PointsInto(c, q[k], q[via[k]]) else c[Idx(q[k])] == NoPath
    requires if path then IsPath(e) && DirOf(e) < 4 && Step(adj, DirOf(e)) == q[pk] else e == NoPath
    ensures forall k :: 1 <= k < count + 1 ==>
      0 <= (via + [pk])[k] < k && Adjacent(q[count := adj][(via + [pk])[k]], q[count := adj][k])
    ensures forall k :: 1 <= k < count + 1 ==>
      if path then PointsInto(c[Idx(adj) := e], q[count := adj][k], q[count := adj][(via + [pk])[k]])
      else c[Idx(adj) := e][Idx(q[count := adj][k])] == NoPath
  {
    var c', q', via' := c[Idx(adj) := e], q[count := adj], via + [pk];
    forall k | 1 <= k < count + 1
      ensures 0 <= via'[k] < k && Adjacent(q'[via'[k]], q'[k])
      ensures if path then PointsInto(c', q'[k], q'[via'[k]]) else c'[Idx(q'[k])] == NoPath
    {
      if k < count {
        IdxInjective(q[k], adj);
        assert c'[Idx(q[k])] == c[Idx(q[k])];
      }
    }
  }

  /** One step of `Flood` past a neighbour that is off the grid or not marked. */
  lemma FloodPasses(c: seq<Byte>, q: seq<Vec>, next: int, dir: Dir, path: bool)
    requires ScanOk(c, q, next, dir) && next < |q|
    requires InGrid(Step(q[next], dir)) ==> c[Idx(Step(q[next], dir))] != BfsVisited
    ensures Flood(c, q, next, dir, path) == Flood(c, q, next, dir + 1, path)
  {
  }

  /** One step of `Flood` that rewrites and queues a marked neighbour. */
  lemma FloodMarks(c: seq<Byte>, q: seq<Vec>, next: int, dir: Dir, path: bool, adj: Vec, e: Byte)
    requires ScanOk(c, q, next, dir) && next < |q|
    requires adj == Step(q[next], dir) && InGrid(adj) && c[Idx(adj)] == BfsVisited
    requires e == if path then PathTo(Negate(dir)) else NoPath
    ensures Flood(c, q, next, dir, path) == Flood(c[Idx(adj) := e], q + [adj], next, dir + 1, path)
  {
  }

  /** `Flood` moves on to the next queued cell after the fourth direction,
      and ends when the queue runs out. */
  lemma FloodNextCell(c: seq<Byte>, q: seq<Vec>, next: int, path: bool)
    requires ScanOk(c, q, next, 4) && next < |q|
    ensures Flood(c, q, next, 4, path) == Flood(c, q, next + 1, 0, path)
    ensures Flood(c, q, |q|, 0, path) == Spread(c, q)
  {
  }

  /** Lines 329-342: the body of the loop over directions, for one
      neighbour `adj` of queued cell `pos`. */
  method SettleNeighbour(cache: array<Byte>, visited: array<Vec>, count0: int, pos: Vec, dir: Dir, path: bool,
                         ghost c1: seq<Byte>, ghost via0: seq<int>, ghost pk: int)
    returns (count: int, ghost via: seq<int>)
    requires cache.Length == Cells && visited.Length == Cells
    requires Settling(c1, cache[..], visited[..], count0, path, via0)
    requires 0 <= pk < count0 && visited[pk] == pos
    modifies cache, visited
    ensures Settling(c1, cache[..], visited[..], count, path, via)
    ensures count0 <= count && PrefixKept(old(visited[..]), visited[..], count0)
    ensures RewritesMarks(old(cache[..]), cache[..])
    ensures InGrid(Step(pos, dir)) ==> cache[Idx(Step(pos, dir))] != BfsVisited
    ensures Flood(old(cache[..]), old(visited[..count0]), pk, dir, path) ==
      Flood(cache[..], visited[..count], pk, dir + 1, path)
  {
    count, via := count0, via0;
    ghost var c, q := cache[..], visited[..];
    ghost var qs := visited[..count0];
    var adj := Step(pos, dir);
    if !InGrid(adj) || cache[Idx(adj)] != BfsVisited {
      FloodPasses(c, qs, pk, dir, path);
      return;
    }
    count, via := SettleMarked(cache, visited, count0, pos, dir, path, c1, via0, pk);
  }

  /** Lines 341-342: rewrite the marked neighbour of `pos` in direction
      `dir`, to a path entry pointing back at `pos` or to NoPath, and queue it. */
  method SettleMarked(cache: array<Byte>, visited: array<Vec>, count0: int, pos: Vec, dir: Dir, path: bool,
                      ghost c1: seq<Byte>, ghost via0: seq<int>, ghost pk: int)
    returns (count: int, ghost via: seq<int>)
    requires cache.Length == Cells && visited.Length == Cells
    requires Settling(c1, cache[..], visited[..], count0, path, via0)
    requires 0 <= pk < count0 && visited[pk] == pos
    requires InGrid(Step(pos, dir)) && cache[Idx(Step(pos, dir))] == BfsVisited
    modifies cache, visited
    ensures Settling(c1, cache[..], visited[..], count, path, via)
    ensures count0 <= count && PrefixKept(old(visited[..]), visited[..], count0)
    ensures RewritesMarks(old(cache[..]), cache[..])
    ensures cache[Idx(Step(pos, dir))] == if path then PathTo(Negate(dir)) else NoPath
    ensures Flood(old(cache[..]), old(visited[..count0]), pk, dir, path) ==
      Flood(cache[..], visited[..count], pk, dir + 1, path)
  {
    ghost var c, q := cache[..], visited[..];
    ghost var qs := visited[..count0];
    var adj := Step(pos, dir);
    NegateReverses(pos, dir);
    var e: Byte := if path then PathTo(Negate(dir)) else NoPath;
    SettlingPush(c1, c, q, count0, path, via0, pk, adj, e);
    assert qs[pk] == pos;
    FloodMarks(c, qs, pk, dir, path, adj, e);
    Push(cache, visited, count0, adj, e);
    via := via0 + [pk];
    count := count0 + 1;
  }

  /** No neighbour of `pos` in the first `n` directions is marked. */
  ghost predicate DrainedAround(c: seq<Byte>, pos: Vec, n: int)
    requires |c| == Cells
  {
    forall d: Dir :: d < n && InGrid(Step(pos, d)) ==> c[Idx(Step(pos, d))] != BfsVisited
  }

  /** Rewriting only marked cells keeps unmarked neighbours unmarked. */
  lemma DrainedAroundKept(c0: seq<Byte>, c: seq<Byte>, pos: Vec, dir: Dir)
    requires |c0| == Cells && |c| == Cells && DrainedAround(c0, pos, dir)
    requires RewritesMarks(c0, c)
    requires InGrid(Step(pos, dir)) ==> c[Idx(Step(pos, dir))] != BfsVisited
    ensures DrainedAround(c, pos, dir + 1)
  {
    forall d: Dir | d < dir && InGrid(Step(pos, d)) ensures c[Idx(Step(pos, d))] != BfsVisited {
      assert c0[Idx(Step(pos, d))] != BfsVisited;
    }
  }

  /** Lines 327-343: rewrite the marked neighbours of queued cell `pos`,
      to a path entry pointing back at `pos` or to NoPath, and queue them. */
  method SettleAround(cache: array<Byte>, visited: array<Vec>, count0: int, pos: Vec, path: bool,
                      ghost c1: seq<Byte>, ghost via0: seq<int>, ghost pk: int)
    returns (count: int, ghost via: seq<int>)
    requires cache.Length == Cells && visited.Length == Cells
    requires Settling(c1, cache[..], visited[..], count0, path, via0)
    requires 0 <= pk < count0 && visited[pk] == pos
    modifies cache, visited
    ensures Settling(c1, cache[..], visited[..], count, path, via)
    ensures count0 <= count && PrefixKept(old(visited[..]), visited[..], count0)
    ensures RewritesMarks(old(cache[..]), cache[..])
    ensures forall d: Dir :: InGrid(Step(pos, d)) ==> cache[Idx(Step(pos, d))] != BfsVisited
    ensures Flood(old(cache[..]), old(visited[..count0]), pk, 0, path) ==
      Flood(cache[..], visited[..count], pk + 1, 0, path)
  {
    count, via := count0, via0;
    ghost var ca, qa := cache[..], visited[..];
    ghost var flood := Flood(cache[..], visited[..count0], pk, 0, path);
    for dir := 0 to 4
      invariant Settling(c1, cache[..], visited[..], count, path, via)
      invariant count0 <= count && PrefixKept(qa, visited[..], count0)
      invariant RewritesMarks(ca, cache[..])
      invariant DrainedAround(cache[..], pos, dir)
      invariant flood == Flood(cache[..], visited[..count], pk, dir, path)
    {
      count, via := SettleTurn(cache, visited, count, pos, dir, path, c1, via, pk, ca, qa, count0, flood);
    }
    FloodNextCell(cache[..], visited[..count], pk, path);
  }

  /** One turn of the direction loop of lines 327-343, with what the loop
      keeps: `ca` and `qa` are the cache and queue when the loop began. */
  method SettleTurn(cache: array<Byte>, visited: array<Vec>, count1: int, pos: Vec, dir: Dir, path: bool,
                    ghost c1: seq<Byte>, ghost via1: seq<int>, ghost pk: int,
                    ghost ca: seq<Byte>, ghost qa: seq<Vec>, ghost count0: int, ghost flood: Spread)
    returns (count: int, ghost via: seq<int>)
    requires cache.Length == Cells && visited.Length == Cells
    requires Settling(c1, cache[..], visited[..], count1, path, via1)
    requires 0 <= pk < count0 <= count1 && visited[pk] == pos
    requires PrefixKept(qa, visited[..], count0) && RewritesMarks(ca, cache[..])
    requires DrainedAround(cache[..], pos, dir) && flood == Flood(cache[..], visited[..count1], pk, dir, path)
    modifies cache, visited
    ensures Settling(c1, cache[..], visited[..], count, path, via)
    ensures count0 <= count && PrefixKept(qa, visited[..], count0)
    ensures RewritesMarks(ca, cache[..])
    ensures DrainedAround(cache[..], pos, dir + 1) && flood == Flood(cache[..], visited[..count], pk, dir + 1, path)
  {
    ghost var before, q0 := cache[..], visited[..];
    count, via := SettleNeighbour(cache, visited, count1, pos, dir, path, c1, via1, pk);
    DrainedAroundKept(before, cache[..], pos, dir);
    RewritesMarksTrans(ca, before, cache[..]);
    PrefixKeptTrans(qa, q0, visited[..], count0, count1);
  }

  /** Lines 324-344: the second phase, breadth first from the root through
      the marked cells. */
  method Settle(cache: array<Byte>, visited: array<Vec>, path: bool, ghost c1: seq<Byte>)
    returns (count: int, ghost via: seq<int>)
    requires cache.Length == Cells && visited.Length == Cells
    requires Settling(c1, cache[..], visited[..], 1, path, [0])
    modifies cache, visited
    ensures Settling(c1, cache[..], visited[..], count, path, via)
    ensures visited[0] == old(visited[0])
    ensures Drained(cache[..], visited[..], count)
    ensures RewritesMarks(old(cache[..]), cache[..])
    ensures Flood(old(cache[..]), old(visited[..1]), 0, 0, path) == Spread(cache[..], visited[..count])
  {
    count, via := 1, [0];
    var next := 0;
    ghost var flood := Flood(cache[..], visited[..1], 0, 0, path);
    while next < count
      invariant Settling(c1, cache[..], visited[..], count, path, via)
      invariant 0 <= next <= count && visited[0] == old(visited[0])
      invariant RewritesMarks(old(cache[..]), cache[..])
      invariant Drained(cache[..], visited[..], next)
      invariant flood == Flood(cache[..], visited[..count], next, 0, path)
      decreases Cells - next
    {
      ghost var before := cache[..];
      count, next, via := SettleNext(cache, visited, count, next, path, c1, via, flood);
      RewritesMarksTrans(old(cache[..]), before, cache[..]);
    }
    FloodNextCell(cache[..], visited[..count], 0, path);
  }

  /** Lines 325-343: one turn of the second phase's loop, settling around
      the next queued cell. */
  method SettleNext(cache: array<Byte>, visited: array<Vec>, count0: int, next0: int, path: bool,
                    ghost c1: seq<Byte>, ghost via0: seq<int>, ghost flood: Spread)
    returns (count: int, next: int, ghost via: seq<int>)
    requires cache.Length == Cells && visited.Length == Cells
    requires Settling(c1, cache[..], visited[..], count0, path, via0)
    requires 0 <= next0 < count0 && Drained(cache[..], visited[..], next0)
    requires flood == Flood(cache[..], visited[..count0], next0, 0, path)
    modifies cache, visited
    ensures Settling(c1, cache[..], visited[..], count, path, via)
    ensures next == next0 + 1 && next <= count && visited[0] == old(visited[0])
    ensures RewritesMarks(old(cache[..]), cache[..])
    ensures Drained(cache[..], visited[..], next)
    ensures flood == Flood(cache[..], visited[..count], next, 0, path)
  {
    var pos := visited[next0];
    next := next0 + 1;
    ghost var q0 := visited[..];
    count, via := SettleAround(cache, visited, count0, pos, path, c1, via0, next0);
    forall k, d: Dir | 0 <= k < next && InGrid(Step(visited[k], d))
      ensures cache[Idx(Step(visited[k], d))] != BfsVisited
    {
      if k < next0 {
        assert visited[k] == q0[k];
      }
    }
  }

  /** The marked cells form a tree: each one after the first is adjacent to
      an earlier one.  When unmarking spreads to every neighbour of an
      unmarked tree cell, and one tree cell is unmarked, all of them are. */
  lemma FloodReachesAll(c: seq<Byte>, tree: seq<Vec>, parent: seq<int>, k0: int)
    requires |c| == Cells && |parent| == |tree| && 0 <= k0 < |tree|
    requires forall k :: 0 <= k < |tree| ==> InGrid(tree[k])
    requires forall k :: 1 <= k < |tree| ==> 0 <= parent[k] < k && Adjacent(tree[parent[k]], tree[k])
    requires forall k, v ::
      0 <= k < |tree| && InGrid(v) && Adjacent(tree[k], v) && c[Idx(tree[k])] != BfsVisited ==> c[Idx(v)] != BfsVisited
    requires c[Idx(tree[k0])] != BfsVisited
    ensures forall k :: 0 <= k < |tree| ==> c[Idx(tree[k])] != BfsVisited
  {
    RootUnmarked(c, tree, parent, k0);
    forall k | 0 <= k < |tree| ensures c[Idx(tree[k])] != BfsVisited {
      DescendantUnmarked(c, tree, parent, k);
    }
  }

  lemma {:induction false} RootUnmarked(c: seq<Byte>, tree: seq<Vec>, parent: seq<int>, k: int)
    requires |c| == Cells && |parent| == |tree| && 0 <= k < |tree|
    requires forall k :: 0 <= k < |tree| ==> InGrid(tree[k])
    requires forall k :: 1 <= k < |tree| ==> 0 <= parent[k] < k && Adjacent(tree[parent[k]], tree[k])
    requires forall k, v ::
      0 <= k < |tree| && InGrid(v) && Adjacent(tree[k], v) && c[Idx(tree[k])] != BfsVisited ==> c[Idx(v)] != BfsVisited
    requires c[Idx(tree[k])] != BfsVisited
    ensures c[Idx(tree[0])] != BfsVisited
    decreases k
  {
    if k > 0 {
      var p := parent[k];
      assert Adjacent(tree[k], tree[p]);
      RootUnmarked(c, tree, parent, p);
    }
  }

  lemma {:induction false} DescendantUnmarked(c: seq<Byte>, tree: seq<Vec>, parent: seq<int>, k: int)
    requires |c| == Cells && |parent| == |tree| && 0 <= k < |tree|
    requires forall k :: 0 <= k < |tree| ==> InGrid(tree[k])
    requires forall k :: 1 <= k < |tree| ==> 0 <= parent[k] < k && Adjacent(tree[parent[k]], tree[k])
    requires forall k, v ::
      0 <= k < |tree| && InGrid(v) && Adjacent(tree[k], v) && c[Idx(tree[k])] != BfsVisited ==> c[Idx(v)] != BfsVisited
    requires c[Idx(tree[0])] != BfsVisited
    ensures c[Idx(tree[k])] != BfsVisited
    decreases k
  {
    if k > 0 {
      DescendantUnmarked(c, tree, parent, parent[k]);
    }
  }

  /** The first settled cell met leads to the target. */
  predicate LeadsToTarget(c: seq<Byte>, found: Option<Vec>)
    requires |c| == Cells
  {
    found.Some? && InGrid(found.value) && (IsPath(c[Idx(found.value)]) || c[Idx(found.value)] == Target)
  }

  /** Lines 278-283: marking the start cell and queueing it begins the first phase. */
  lemma ExploredStart(c0: seq<Byte>, start: Vec, q: seq<Vec>)
    requires |c0| == Cells && |q| == Cells && InGrid(start) && c0[Idx(start)] == Unset && q[0] == start
    ensures Explored(c0, c0[Idx(start) := BfsVisited], q, 1, [0])
  {
    forall v | InGrid(v) && c0[Idx(start) := BfsVisited][Idx(v)] != c0[Idx(v)] ensures v in q[..1] {
      IdxInjective(v, start);
      assert q[..1][0] == start;
    }
  }

  /** Lines 314-322: the root of the second phase is queued alone; only it
      may have been written. */
  lemma SettlingStart(c1: seq<Byte>, c: seq<Byte>, q: seq<Vec>, path: bool)
    requires |c1| == Cells && |c| == Cells && |q| == Cells && InGrid(q[0]) && c[Idx(q[0])] != BfsVisited
    requires forall v :: InGrid(v) && v != q[0] ==> c[Idx(v)] == c1[Idx(v)]
    ensures Settling(c1, c, q, 1, path, [0])
  {
    assert q[..1][0] == q[0];
    forall v | InGrid(v) && c1[Idx(v)] == BfsVisited ensures c[Idx(v)] == BfsVisited || v in q[..1] {
    }
  }

  /** Scanning the queued cell `q[next - 1]` in direction order, `found` is
      met in direction `fd`: the neighbours in the directions before it are
      neither Unset nor settled. */
  ghost predicate MetAt(c: seq<Byte>, q: seq<Vec>, next: int, fd: int, found: Vec)
    requires |c| == Cells && 1 <= next <= |q|
  {
    0 <= fd < 4 && found == Step(q[next - 1], fd) && Surrounded(c, q[next - 1], fd)
  }

  /** Everything the first phase has established: `c1` is the cache after
      it and `q1` its queue. */
  ghost predicate ProbeRun(c0: seq<Byte>, c1: seq<Byte>, start: Vec,
                           q1: seq<Vec>, count1: int, parent: seq<int>, next: int, hasFound: bool, found: Vec)
  {
    && |c0| == Cells && |c1| == Cells && InGrid(start) && c0[Idx(start)] == Unset && NoBfs(c0)
    && Explored(c0, c1, q1, count1, parent) && q1[0] == start
    && (hasFound ==> 1 <= next <= count1 && InGrid(found) && Adjacent(q1[next - 1], found) && Settled(c1[Idx(found)]))
    && (hasFound ==> Enclosed(c1, q1, next - 1) && exists fd :: MetAt(c1, q1, next, fd, found))
    && (!hasFound ==> next == count1 && Enclosed(c1, q1, count1))
  }

  /** Everything `randpath_cache_update` has established once both phases
      are over: `c1` is the cache after the first phase with `q1` its queue,
      `c2` the final cache with `q2` the second phase's queue. */
  ghost predicate UpdateRun(c0: seq<Byte>, c1: seq<Byte>, c2: seq<Byte>, start: Vec,
                            q1: seq<Vec>, count1: int, parent: seq<int>, next: int, hasFound: bool, found: Vec,
                            path: bool, q2: seq<Vec>, count2: int, via: seq<int>)
  {
    && |c2| == Cells && ProbeRun(c0, c1, start, q1, count1, parent, next, hasFound, found)
    && path == (hasFound && (IsPath(c1[Idx(found)]) || c1[Idx(found)] == Target))
    && Settling(c1, c2, q2, count2, path, via) && q2[0] == (if hasFound then found else start)
    && Drained(c2, q2, count2)
    && (forall i :: 0 <= i < Cells ==> c2[i] == c1[i] || c1[i] == BfsVisited)
    && (!hasFound ==> c2[Idx(start)] == NoPath)
  }

  /** The cells the first phase marks are exactly the queued ones, were
      Unset, and are the only cells it changed. */
  lemma ExploredMarks(c0: seq<Byte>, c1: seq<Byte>, q1: seq<Vec>, count1: int, parent: seq<int>)
    requires Explored(c0, c1, q1, count1, parent) && NoBfs(c0)
    ensures forall v :: InGrid(v) ==> (c1[Idx(v)] == BfsVisited <==> v in q1[..count1])
    ensures forall v :: InGrid(v) && c1[Idx(v)] != BfsVisited ==> c1[Idx(v)] == c0[Idx(v)]
    ensures forall v :: InGrid(v) && c1[Idx(v)] == BfsVisited ==> c0[Idx(v)] == Unset
  {
    forall v | InGrid(v) && v in q1[..count1] ensures c1[Idx(v)] == BfsVisited && c0[Idx(v)] == Unset {
      var k :| 0 <= k < count1 && q1[..count1][k] == v;
    }
  }

  /** The second phase rewrites every cell the first one marked: the marks
      form a tree, rewriting spreads to every marked neighbour, and the
      root (the start cell, or the marked cell next to the settled one)
      has been rewritten. */
  lemma RunRewritesMarks(c0: seq<Byte>, c1: seq<Byte>, c2: seq<Byte>, start: Vec,
                         q1: seq<Vec>, count1: int, parent: seq<int>, next: int, hasFound: bool, found: Vec,
                         path: bool, q2: seq<Vec>, count2: int, via: seq<int>)
    requires UpdateRun(c0, c1, c2, start, q1, count1, parent, next, hasFound, found, path, q2, count2, via)
    ensures forall v :: InGrid(v) && c1[Idx(v)] == BfsVisited ==> c2[Idx(v)] != BfsVisited && v in q2[..count2]
  {
    ExploredMarks(c0, c1, q1, count1, parent);
    var tree := q1[..count1];
    forall k, v | 0 <= k < |tree| && InGrid(v) && Adjacent(tree[k], v) && c2[Idx(tree[k])] != BfsVisited
      ensures c2[Idx(v)] != BfsVisited
    {
      assert c1[Idx(tree[k])] == BfsVisited;
      assert tree[k] in q2[..count2];
      var j :| 0 <= j < count2 && q2[..count2][j] == tree[k];
      AdjacentIsStep(tree[k], v);
      var d: Dir :| Step(tree[k], d) == v;
      assert Step(q2[j], d) == v;
    }
    if hasFound {
      var k0 := next - 1;
      AdjacentIsStep(q2[0], tree[k0]);
      var d: Dir :| Step(q2[0], d) == tree[k0];
      FloodReachesAll(c2, tree, parent, k0);
    } else {
      FloodReachesAll(c2, tree, parent, 0);
    }
    forall v | InGrid(v) && c1[Idx(v)] == BfsVisited ensures c2[Idx(v)] != BfsVisited && v in q2[..count2] {
      var k :| 0 <= k < count1 && tree[k] == v;
    }
  }

  /** What each cell holds after both phases: an unmarked cell is as it
      was, a marked one was Unset and now holds a path entry linked into
      the second phase's queue when `path` holds, and NoPath otherwise. */
  lemma RunOutcome(c0: seq<Byte>, c1: seq<Byte>, c2: seq<Byte>, start: Vec,
                   q1: seq<Vec>, count1: int, parent: seq<int>, next: int, hasFound: bool, found: Vec,
                   path: bool, q2: seq<Vec>, count2: int, via: seq<int>)
    requires UpdateRun(c0, c1, c2, start, q1, count1, parent, next, hasFound, found, path, q2, count2, via)
    ensures NoBfs(c2)
    ensures forall v :: InGrid(v) && c1[Idx(v)] != BfsVisited ==> c2[Idx(v)] == c0[Idx(v)]
    ensures forall v :: InGrid(v) && c1[Idx(v)] == BfsVisited ==> c0[Idx(v)] == Unset
    ensures forall v :: InGrid(v) && c1[Idx(v)] == BfsVisited ==>
      if path then IsPath(c2[Idx(v)]) && exists k :: 1 <= k < count2 && q2[k] == v else c2[Idx(v)] == NoPath
    ensures forall v :: InGrid(v) ==> (c2[Idx(v)] != c0[Idx(v)] <==> c1[Idx(v)] == BfsVisited)
    ensures c1[Idx(start)] == BfsVisited
  {
    ExploredMarks(c0, c1, q1, count1, parent);
    RunRewritesMarks(c0, c1, c2, start, q1, count1, parent, next, hasFound, found, path, q2, count2, via);
    assert q1[..count1][0] == start;
    forall v | InGrid(v) && c1[Idx(v)] != BfsVisited ensures c2[Idx(v)] == c0[Idx(v)] {
      assert c2[Idx(v)] == c1[Idx(v)];
    }
    forall v | InGrid(v) && c1[Idx(v)] == BfsVisited
      ensures if path then IsPath(c2[Idx(v)]) && exists k :: 1 <= k < count2 && q2[k] == v else c2[Idx(v)] == NoPath
    {
      var k :| 0 <= k < count2 && q2[..count2][k] == v;
      if hasFound {
        assert c1[Idx(q2[0])] != BfsVisited;
        assert k >= 1;
        if path {
          assert PointsInto(c2, q2[k], q2[via[k]]);
        }
      } else if k == 0 {
        assert v == start;
      }
    }
    forall i | 0 <= i < Cells ensures c2[i] != BfsVisited {
      var v := Vec(i % W, i / W);
      assert Idx(v) == i;
    }
  }

  /** The frame of `randpath_cache_update`: only Unset cells change, the
      probe marks are gone, and the start cell is settled. */
  lemma RunFrame(c0: seq<Byte>, c1: seq<Byte>, c2: seq<Byte>, start: Vec,
                 q1: seq<Vec>, count1: int, parent: seq<int>, next: int, hasFound: bool, found: Vec,
                 path: bool, q2: seq<Vec>, count2: int, via: seq<int>)
    requires UpdateRun(c0, c1, c2, start, q1, count1, parent, next, hasFound, found, path, q2, count2, via)
    ensures NoBfs(c2)
    ensures forall i :: 0 <= i < Cells ==> c2[i] == c0[i] || (c0[i] == Unset && (IsPath(c2[i]) || c2[i] == NoPath))
    ensures IsPath(c2[Idx(start)]) || c2[Idx(start)] == NoPath
    ensures hasFound ==> InGrid(found) && Settled(c0[Idx(found)]) && c1[Idx(found)] == c0[Idx(found)]
  {
    RunOutcome(c0, c1, c2, start, q1, count1, parent, next, hasFound, found, path, q2, count2, via);
    ExploredMarks(c0, c1, q1, count1, parent);
    forall i | 0 <= i < Cells ensures c2[i] == c0[i] || (c0[i] == Unset && (IsPath(c2[i]) || c2[i] == NoPath)) {
      var v := Vec(i % W, i / W);
      assert Idx(v) == i;
    }
  }

  /** The settled cell met leads to the target exactly when the second
      phase wrote path entries. */
  lemma RunLeads(c0: seq<Byte>, c1: seq<Byte>, c2: seq<Byte>, start: Vec,
                 q1: seq<Vec>, count1: int, parent: seq<int>, next: int, hasFound: bool, found: Vec,
                 path: bool, q2: seq<Vec>, count2: int, via: seq<int>, fo: Option<Vec>)
    requires UpdateRun(c0, c1, c2, start, q1, count1, parent, next, hasFound, found, path, q2, count2, via)
    requires fo == (if hasFound then Some(found) else None)
    ensures LeadsToTarget(c0, fo) == path
  {
    if hasFound {
      UnmarkedKept(c0, c1, q1, count1, parent, found);
    }
  }

  /** A cell the first phase left unmarked keeps its value. */
  lemma UnmarkedKept(c0: seq<Byte>, c1: seq<Byte>, q1: seq<Vec>, count1: int, parent: seq<int>, v: Vec)
    requires Explored(c0, c1, q1, count1, parent) && InGrid(v) && c1[Idx(v)] != BfsVisited
    ensures c1[Idx(v)] == c0[Idx(v)]
  {
    assert forall k :: 0 <= k < count1 ==> q1[k] != v;
    assert v !in q1[..count1];
  }

  /** A neighbour `v` of a scanned cell lies outside the grid, or was not
      settled in `c0` and, when it was Unset there, was queued in `q`. */
  ghost predicate Passed(c0: seq<Byte>, q: seq<Vec>, v: Vec)
    requires |c0| == Cells
  {
    InGrid(v) ==> !Settled(c0[Idx(v)]) && (c0[Idx(v)] == Unset ==> v in q)
  }

  /** The neighbours of `pos` in the directions before `fd` were passed. */
  ghost predicate PassedBefore(c0: seq<Byte>, q: seq<Vec>, pos: Vec, fd: int)
    requires |c0| == Cells
  {
    forall d: Dir :: d < fd ==> Passed(c0, q, Step(pos, d))
  }

  /** `found` is the first settled cell met when the queue `q` is scanned
      in order, each queued cell in direction order: it is met from `q[n - 1]`
      in direction `fd`, and every neighbour scanned before it was passed. */
  ghost predicate MetFirst(c0: seq<Byte>, q: seq<Vec>, n: int, fd: int, found: Vec)
    requires |c0| == Cells
  {
    && 1 <= n <= |q| && 0 <= fd < 4 && found == Step(q[n - 1], fd)
    && InGrid(found) && Settled(c0[Idx(found)])
    && (forall k, d: Dir :: 0 <= k < n - 1 ==> Passed(c0, q, Step(q[k], d)))
    && PassedBefore(c0, q, q[n - 1], fd)
  }

  /** Every neighbour of every queued cell was passed: the scan ran out. */
  ghost predicate Exhausted(c0: seq<Byte>, q: seq<Vec>)
    requires |c0| == Cells
  {
    forall k, d: Dir :: 0 <= k < |q| ==> Passed(c0, q, Step(q[k], d))
  }

  /** `q` is the first phase's queue: it starts at `start`, its cells were
      Unset in `c0`, each later one is adjacent to an earlier one, and they
      are exactly the cells where `c` differs from `c0`. */
  ghost predicate Queued(c0: seq<Byte>, c: seq<Byte>, start: Vec, q: seq<Vec>)
  {
    && |c0| == Cells && |c| == Cells && |q| >= 1 && q[0] == start
    && (forall k :: 0 <= k < |q| ==> InGrid(q[k]) && c0[Idx(q[k])] == Unset)
    && (forall k :: 1 <= k < |q| ==> exists j :: 0 <= j < k && Adjacent(q[j], q[k]))
    && (forall v :: InGrid(v) ==> (c[Idx(v)] != c0[Idx(v)] <==> v in q))
  }

  /** `flood` is the second phase's queue: it starts at `root`, each later
      cell is adjacent to the earlier cell `via` names, and the cells where
      `c` differs from `c0` are exactly those from position `from` on. */
  ghost predicate Flooded(c0: seq<Byte>, c: seq<Byte>, root: Vec, flood: seq<Vec>, via: seq<int>, from: int)
  {
    && |c0| == Cells && |c| == Cells && |flood| >= 1 && |via| == |flood| && flood[0] == root && 0 <= from <= 1
    && (forall k :: 0 <= k < |flood| ==> InGrid(flood[k]))
    && (forall k :: 1 <= k < |flood| ==> 0 <= via[k] < k && Adjacent(flood[via[k]], flood[k]))
    && (forall v :: InGrid(v) ==> (c[Idx(v)] != c0[Idx(v)] <==> v in flood[from..]))
  }

  /** A neighbour the first phase found neither Unset nor settled was passed. */
  lemma PassedFromMarks(c0: seq<Byte>, c1: seq<Byte>, q1: seq<Vec>, count1: int, parent: seq<int>, v: Vec)
    requires Explored(c0, c1, q1, count1, parent) && NoBfs(c0)
    requires InGrid(v) ==> c1[Idx(v)] != Unset && !Settled(c1[Idx(v)])
    ensures Passed(c0, q1[..count1], v)
  {
    if InGrid(v) && c1[Idx(v)] != c0[Idx(v)] {
      assert v in q1[..count1];
      var k :| 0 <= k < count1 && q1[..count1][k] == v;
    }
  }

  /** The first phase's queue is the set of changed cells, grown from the
      start cell through adjacent cells. */
  lemma RunQueued(c0: seq<Byte>, c1: seq<Byte>, c2: seq<Byte>, start: Vec,
                  q1: seq<Vec>, count1: int, parent: seq<int>, next: int, hasFound: bool, found: Vec,
                  path: bool, q2: seq<Vec>, count2: int, via: seq<int>, explored: seq<Vec>)
    requires UpdateRun(c0, c1, c2, start, q1, count1, parent, next, hasFound, found, path, q2, count2, via)
    requires explored == q1[..count1]
    ensures Queued(c0, c2, start, explored)
  {
    RunOutcome(c0, c1, c2, start, q1, count1, parent, next, hasFound, found, path, q2, count2, via);
    ExploredMarks(c0, c1, q1, count1, parent);
    forall k | 1 <= k < |explored| ensures exists j :: 0 <= j < k && Adjacent(explored[j], explored[k]) {
      assert Adjacent(explored[parent[k]], explored[k]);
    }
  }

  /** When a settled cell was met, it was the first one in scanning order. */
  lemma RunFirstMet(c0: seq<Byte>, c1: seq<Byte>, c2: seq<Byte>, start: Vec,
                    q1: seq<Vec>, count1: int, parent: seq<int>, next: int, hasFound: bool, found: Vec,
                    path: bool, q2: seq<Vec>, count2: int, via: seq<int>, fo: Option<Vec>, explored: seq<Vec>)
    requires UpdateRun(c0, c1, c2, start, q1, count1, parent, next, hasFound, found, path, q2, count2, via)
    requires fo == (if hasFound then Some(found) else None) && explored == q1[..count1]
    ensures fo.Some? ==> exists n, fd :: MetFirst(c0, explored, n, fd, fo.value)
  {
    if hasFound {
      var fd :| MetAt(c1, q1, next, fd, found);
      UnmarkedKept(c0, c1, q1, count1, parent, found);
      forall k, d: Dir | 0 <= k < next - 1 ensures Passed(c0, explored, Step(explored[k], d)) {
        PassedFromMarks(c0, c1, q1, count1, parent, Step(q1[k], d));
      }
      var last := q1[next - 1];
      assert explored[next - 1] == last;
      forall d: Dir | d < fd ensures Passed(c0, explored, Step(last, d)) {
        PassedFromMarks(c0, c1, q1, count1, parent, Step(last, d));
      }
      assert MetFirst(c0, explored, next, fd, found);
    }
  }

  /** When no settled cell was met, every neighbour of every queued cell
      was passed. */
  lemma RunEnclosed(c0: seq<Byte>, c1: seq<Byte>, c2: seq<Byte>, start: Vec,
                    q1: seq<Vec>, count1: int, parent: seq<int>, next: int, hasFound: bool, found: Vec,
                    path: bool, q2: seq<Vec>, count2: int, via: seq<int>, fo: Option<Vec>, explored: seq<Vec>)
    requires UpdateRun(c0, c1, c2, start, q1, count1, parent, next, hasFound, found, path, q2, count2, via)
    requires fo == (if hasFound then Some(found) else None) && explored == q1[..count1]
    ensures fo.None? ==> Exhausted(c0, explored)
  {
    if !hasFound {
      forall k, d: Dir | 0 <= k < |explored| ensures Passed(c0, explored, Step(explored[k], d)) {
        PassedFromMarks(c0, c1, q1, count1, parent, Step(q1[k], d));
      }
    }
  }

  /** The changed cells are the second phase's queue from its first marked
      cell on (its root too when no settled cell was met, since the root is
      then the start cell); each queued cell is adjacent to the earlier one
      it was reached from, and holds a path entry leading there when the
      settled cell met leads to the target. */
  lemma RunFlood(c0: seq<Byte>, c1: seq<Byte>, c2: seq<Byte>, start: Vec,
                 q1: seq<Vec>, count1: int, parent: seq<int>, next: int, hasFound: bool, found: Vec,
                 path: bool, q2: seq<Vec>, count2: int, via: seq<int>, fo: Option<Vec>, flood: seq<Vec>)
    requires UpdateRun(c0, c1, c2, start, q1, count1, parent, next, hasFound, found, path, q2, count2, via)
    requires fo == (if hasFound then Some(found) else None) && flood == q2[..count2]
    ensures Flooded(c0, c2, if hasFound then found else start, flood, via, if hasFound then 1 else 0)
    ensures LeadsToTarget(c0, fo) ==> forall k :: 1 <= k < |flood| ==> PointsInto(c2, flood[k], flood[via[k]])
  {
    var from := if hasFound then 1 else 0;
    RunLeads(c0, c1, c2, start, q1, count1, parent, next, hasFound, found, path, q2, count2, via, fo);
    RunOutcome(c0, c1, c2, start, q1, count1, parent, next, hasFound, found, path, q2, count2, via);
    RunRewritesMarks(c0, c1, c2, start, q1, count1, parent, next, hasFound, found, path, q2, count2, via);
    forall v | InGrid(v) && c1[Idx(v)] == BfsVisited ensures exists k :: from <= k < count2 && q2[k] == v {
      var k :| 0 <= k < count2 && q2[..count2][k] == v;
      if hasFound && k == 0 {
        UnmarkedKept(c0, c1, q1, count1, parent, found);
      }
    }
    FloodIsChanged(c0, c1, c2, q2, count2, from);
    FloodView(c2, q2, count2, via, path, flood);
  }

  /** The second phase's facts about its queue, read on the queue's prefix. */
  lemma FloodView(c2: seq<Byte>, q2: seq<Vec>, count2: int, via: seq<int>, path: bool, flood: seq<Vec>)
    requires |c2| == Cells && 1 <= count2 <= |q2| && |via| == count2 && flood == q2[..count2]
    requires forall k :: 0 <= k < count2 ==> InGrid(q2[k])
    requires forall k :: 1 <= k < count2 ==> 0 <= via[k] < k && Adjacent(q2[via[k]], q2[k])
    requires forall k :: 1 <= k < count2 ==> path ==> PointsInto(c2, q2[k], q2[via[k]])
    ensures |flood| >= 1 && |via| == |flood| && flood[0] == q2[0]
    ensures forall k :: 0 <= k < |flood| ==> InGrid(flood[k])
    ensures forall k :: 1 <= k < |flood| ==> 0 <= via[k] < k && Adjacent(flood[via[k]], flood[k])
    ensures path ==> forall k :: 1 <= k < |flood| ==> PointsInto(c2, flood[k], flood[via[k]])
  {
  }

  lemma FloodIsChanged(c0: seq<Byte>, c1: seq<Byte>, c2: seq<Byte>, q2: seq<Vec>, count2: int, from: int)
    requires |c0| == Cells && |c1| == Cells && |c2| == Cells && 0 <= from <= 1 && 1 <= count2 <= |q2|
    requires forall k :: 0 <= k < count2 ==> InGrid(q2[k])
    requires forall k :: from <= k < count2 ==> c1[Idx(q2[k])] == BfsVisited
    requires forall v :: InGrid(v) ==> (c2[Idx(v)] != c0[Idx(v)] <==> c1[Idx(v)] == BfsVisited)
    requires forall v :: InGrid(v) && c1[Idx(v)] == BfsVisited ==> exists k :: from <= k < count2 && q2[k] == v
    ensures forall v :: InGrid(v) ==> (c2[Idx(v)] != c0[Idx(v)] <==> v in q2[..count2][from..])
  {
    var flood := q2[..count2];
    forall v | InGrid(v) ensures c2[Idx(v)] != c0[Idx(v)] <==> v in flood[from..] {
      if c1[Idx(v)] == BfsVisited {
        var k :| from <= k < count2 && q2[k] == v;
        assert flood[from..][k - from] == v;
      }
      if v in flood[from..] {
        var j :| 0 <= j < |flood[from..]| && flood[from..][j] == v;
        assert q2[j + from] == v;
      }
    }
  }

  /** When nothing met leads to the target, every changed cell holds NoPath. */
  lemma RunNoPath(c0: seq<Byte>, c1: seq<Byte>, c2: seq<Byte>, start: Vec,
                  q1: seq<Vec>, count1: int, parent: seq<int>, next: int, hasFound: bool, found: Vec,
                  path: bool, q2: seq<Vec>, count2: int, via: seq<int>, fo: Option<Vec>)
    requires UpdateRun(c0, c1, c2, start, q1, count1, parent, next, hasFound, found, path, q2, count2, via)
    requires fo == (if hasFound then Some(found) else None)
    ensures !LeadsToTarget(c0, fo) ==> forall i :: 0 <= i < Cells && c2[i] != c0[i] ==> c2[i] == NoPath
  {
    RunLeads(c0, c1, c2, start, q1, count1, parent, next, hasFound, found, path, q2, count2, via, fo);
    if !path {
      RunOutcome(c0, c1, c2, start, q1, count1, parent, next, hasFound, found, path, q2, count2, via);
      forall i | 0 <= i < Cells && c2[i] != c0[i] ensures c2[i] == NoPath {
        var v := Vec(i % W, i / W);
        assert Idx(v) == i;
      }
    }
  }

  /** Scanning order fixes the first settled cell met: two cells that both
      meet `MetFirst` for the same queue are the same cell, met from the
      same queued cell in the same direction. */
  lemma MetFirstUnique(c0: seq<Byte>, q: seq<Vec>, n: int, fd: int, f: Vec, n': int, fd': int, f': Vec)
    requires |c0| == Cells && MetFirst(c0, q, n, fd, f) && MetFirst(c0, q, n', fd', f')
    ensures n == n' && fd == fd' && f == f'
  {
  }

  /** When the start cell has a settled neighbour, the first one in
      direction order is the cell met. */
  lemma MetFirstNearStart(c0: seq<Byte>, q: seq<Vec>, n: int, fd: int, f: Vec, d: Dir)
    requires |c0| == Cells && MetFirst(c0, q, n, fd, f)
    requires InGrid(Step(q[0], d)) && Settled(c0[Idx(Step(q[0], d))])
    requires forall e: Dir :: e < d && InGrid(Step(q[0], e)) ==> !Settled(c0[Idx(Step(q[0], e))])
    ensures n == 1 && fd == d && f == Step(q[0], d)
  {
  }

  /** From the facts `CacheUpdate` ensures for an Unset start cell: when
      the first settled neighbour of `start` in direction order is a path
      entry or Target, that neighbour is the cell met, and `start` ends
      with a path entry leading to a cell of the flood. */
  lemma StartBesideLead(c0: seq<Byte>, c: seq<Byte>, start: Vec, explored: seq<Vec>, fo: Option<Vec>,
                        flood: seq<Vec>, via: seq<int>, d: Dir)
    requires Queued(c0, c, start, explored)
    requires fo.Some? ==> exists n, fd :: MetFirst(c0, explored, n, fd, fo.value)
    requires fo.None? ==> Exhausted(c0, explored)
    requires Flooded(c0, c, if fo.Some? then fo.value else start, flood, via, if fo.Some? then 1 else 0)
    requires LeadsToTarget(c0, fo) ==> forall k :: 1 <= k < |flood| ==> PointsInto(c, flood[k], flood[via[k]])
    requires InGrid(Step(start, d)) && (IsPath(c0[Idx(Step(start, d))]) || c0[Idx(Step(start, d))] == Target)
    requires forall e: Dir :: e < d && InGrid(Step(start, e)) ==> !Settled(c0[Idx(Step(start, e))])
    ensures fo == Some(Step(start, d)) && IsPath(c[Idx(start)])
  {
    assert !Passed(c0, explored, Step(explored[0], d));
    var n, fd :| MetFirst(c0, explored, n, fd, fo.value);
    MetFirstNearStart(c0, explored, n, fd, fo.value, d);
    assert start in explored;
    var k :| 0 <= k < |flood[1..]| && flood[1..][k] == start;
    assert PointsInto(c, flood[k + 1], flood[via[k + 1]]);
  }

  /** A case the order decides.  Start at the corner (0,0), with (0,1) and
      (1,0) Unset and NoPath at (0,2): the corner's Down neighbour (0,1) is
      queued before its Right neighbour (1,0), so (0,1) is scanned first and
      meets the NoPath cell (0,2) before anything beyond (1,0) is looked at,
      whatever lies there (a Target at (2,0), say).  The second phase then
      writes NoPath over the corner and both marked cells. */
  lemma CornerMeetsNoPath(c0: seq<Byte>)
    requires |c0| == Cells && NoBfs(c0)
    requires c0[Idx(Vec(0, 0))] == Unset && c0[Idx(Vec(0, 1))] == Unset && c0[Idx(Vec(1, 0))] == Unset
    requires c0[Idx(Vec(0, 2))] == NoPath
    ensures FirstPhase(c0, Vec(0, 0)).found == Some(Vec(0, 2))
    ensures AfterUpdate(c0, Vec(0, 0))[Idx(Vec(0, 0))] == NoPath
    ensures AfterUpdate(c0, Vec(0, 0))[Idx(Vec(0, 1))] == NoPath
    ensures AfterUpdate(c0, Vec(0, 0))[Idx(Vec(1, 0))] == NoPath
  {
    var s, a, b, n := Vec(0, 0), Vec(0, 1), Vec(1, 0), Vec(0, 2);
    var c3 := CornerScan(c0, s, a, b, n);
    var d := CornerFlood(c3, s, a, b, n);
  }

  /** The first phase from a cell `s` with nothing Up or Left of it: `s`
      queues its Down neighbour `a` and then its Right neighbour `b`, and
      `a`, which has nothing Left of it, meets the settled cell `n` below it. */
  lemma CornerScan(c0: seq<Byte>, s: Vec, a: Vec, b: Vec, n: Vec) returns (c3: seq<Byte>)
    requires |c0| == Cells && NoBfs(c0) && InGrid(s) && InGrid(a) && InGrid(b) && InGrid(n)
    requires !InGrid(Step(s, Up)) && !InGrid(Step(s, Left)) && !InGrid(Step(a, Left))
    requires a == Step(s, Down) && b == Step(s, Right) && n == Step(a, Down)
    requires c0[Idx(s)] == Unset && c0[Idx(a)] == Unset && c0[Idx(b)] == Unset && Settled(c0[Idx(n)])
    ensures c3 == c0[Idx(s) := BfsVisited][Idx(a) := BfsVisited][Idx(b) := BfsVisited]
    ensures FirstPhase(c0, s) == Scanned(c3, [s, a, b], Some(n))
  {
    var c1 := c0[Idx(s) := BfsVisited];
    ScanPasses(c1, [s], 0, Up);
    ScanPasses(c1, [s], 0, Left);
    ScanMarks(c1, [s], 0, Down, a);
    var c2 := c1[Idx(a) := BfsVisited];
    assert [s] + [a] == [s, a];
    ScanMarks(c2, [s, a], 0, Right, b);
    c3 := c2[Idx(b) := BfsVisited];
    assert [s, a] + [b] == [s, a, b];
    ScanNextCell(c3, [s, a, b], 0);
    assert Step(a, Up) == s;
    ScanPasses(c3, [s, a, b], 1, Up);
    ScanPasses(c3, [s, a, b], 1, Left);
    ScanMeets(c3, [s, a, b], 1, Down);
  }

  /** The second phase after `CornerScan`, writing NoPath from `n`: it
      reaches `a`, then `s`, then `b`, and nothing else is marked. */
  lemma CornerFlood(c3: seq<Byte>, s: Vec, a: Vec, b: Vec, n: Vec) returns (d: seq<Byte>)
    requires |c3| == Cells && InGrid(s) && InGrid(a) && InGrid(b) && InGrid(n)
    requires !InGrid(Step(s, Up)) && !InGrid(Step(s, Left)) && !InGrid(Step(a, Left))
    requires a == Step(s, Down) && b == Step(s, Right) && n == Step(a, Down)
    requires c3[Idx(s)] == BfsVisited && c3[Idx(a)] == BfsVisited && c3[Idx(b)] == BfsVisited
    requires c3[Idx(n)] != BfsVisited
    requires forall v :: InGrid(v) && v !in {s, a, b} ==> c3[Idx(v)] != BfsVisited
    ensures d == c3[Idx(a) := NoPath][Idx(s) := NoPath][Idx(b) := NoPath]
    ensures Flood(c3, [n], 0, 0, false) == Spread(d, [n, a, s, b])
  {
    var d1 := c3[Idx(a) := NoPath];
    assert Step(n, Up) == a && !InGrid(Step(n, Left));
    assert InGrid(Step(n, Down)) ==> d1[Idx(Step(n, Down))] != BfsVisited;
    assert InGrid(Step(n, Right)) ==> d1[Idx(Step(n, Right))] != BfsVisited;
    FloodMarks(c3, [n], 0, Up, false, a, NoPath);
    assert [n] + [a] == [n, a];
    FloodPasses(d1, [n, a], 0, Left, false);
    FloodPasses(d1, [n, a], 0, Down, false);
    FloodPasses(d1, [n, a], 0, Right, false);
    FloodNextCell(d1, [n, a], 0, false);
    d := CornerFloodRest(d1, s, a, b, n);
  }

  /** The rest of `CornerFlood`, once `a` is rewritten and queued: `a`
      reaches `s`. */
  lemma CornerFloodRest(d1: seq<Byte>, s: Vec, a: Vec, b: Vec, n: Vec) returns (d: seq<Byte>)
    requires |d1| == Cells && InGrid(s) && InGrid(a) && InGrid(b) && InGrid(n)
    requires !InGrid(Step(s, Up)) && !InGrid(Step(s, Left)) && !InGrid(Step(a, Left))
    requires a == Step(s, Down) && b == Step(s, Right) && n == Step(a, Down)
    requires d1[Idx(s)] == BfsVisited && d1[Idx(b)] == BfsVisited && d1[Idx(a)] == NoPath
    requires forall v :: InGrid(v) && v !in {s, b} ==> d1[Idx(v)] != BfsVisited
    ensures d == d1[Idx(s) := NoPath][Idx(b) := NoPath]
    ensures Flood(d1, [n, a], 1, 0, false) == Spread(d, [n, a, s, b])
  {
    FloodMarks(d1, [n, a], 1, Up, false, s, NoPath);
    var d2 := d1[Idx(s) := NoPath];
    assert [n, a] + [s] == [n, a, s];
    assert InGrid(Step(a, Right)) ==> d2[Idx(Step(a, Right))] != BfsVisited;
    FloodPasses(d2, [n, a, s], 1, Left, false);
    FloodPasses(d2, [n, a, s], 1, Down, false);
    FloodPasses(d2, [n, a, s], 1, Right, false);
    FloodNextCell(d2, [n, a, s], 1, false);
    d := CornerFloodFromStart(d2, s, a, b, n);
  }

  /** `s` reaches `b`. */
  lemma CornerFloodFromStart(d2: seq<Byte>, s: Vec, a: Vec, b: Vec, n: Vec) returns (d: seq<Byte>)
    requires |d2| == Cells && InGrid(s) && InGrid(a) && InGrid(b) && InGrid(n)
    requires !InGrid(Step(s, Up)) && !InGrid(Step(s, Left))
    requires a == Step(s, Down) && b == Step(s, Right) && n == Step(a, Down)
    requires d2[Idx(b)] == BfsVisited && d2[Idx(a)] == NoPath
    requires forall v :: InGrid(v) && v != b ==> d2[Idx(v)] != BfsVisited
    ensures d == d2[Idx(b) := NoPath]
    ensures Flood(d2, [n, a, s], 2, 0, false) == Spread(d, [n, a, s, b])
  {
    FloodPasses(d2, [n, a, s], 2, Up, false);
    FloodPasses(d2, [n, a, s], 2, Left, false);
    FloodPasses(d2, [n, a, s], 2, Down, false);
    FloodMarks(d2, [n, a, s], 2, Right, false, b, NoPath);
    d := d2[Idx(b) := NoPath];
    assert [n, a, s] + [b] == [n, a, s, b];
    FloodNextCell(d, [n, a, s, b], 2, false);
    CornerFloodEnd(d, s, b, [n, a, s, b]);
  }

  /** `b`, last in the queue, finds nothing marked. */
  lemma CornerFloodEnd(d: seq<Byte>, s: Vec, b: Vec, q: seq<Vec>)
    requires |d| == Cells && InGrid(s) && InGrid(b) && |q| == 4 && q[3] == b
    requires !InGrid(Step(s, Up)) && b == Step(s, Right)
    requires forall v :: InGrid(v) ==> d[Idx(v)] != BfsVisited
    ensures Flood(d, q, 3, 0, false) == Spread(d, q)
  {
    assert !InGrid(Step(b, Up));
    FloodPasses(d, q, 3, Up, false);
    FloodPasses(d, q, 3, Left, false);
    FloodPasses(d, q, 3, Down, false);
    FloodPasses(d, q, 3, Right, false);
    FloodNextCell(d, q, 3, false);
  }

  /** Lines 278-312: mark and queue the Unset start cell, then run the
      first phase. */
  method Probe(cache: array<Byte>, start: Vec)
    returns (visited: array<Vec>, count: int, next: int, hasFound: bool, found: Vec, ghost parent: seq<int>)
    requires cache.Length == Cells && InGrid(start) && NoBfs(cache[..]) && cache[Idx(start)] == Unset
    modifies cache
    ensures fresh(visited)
    ensures ProbeRun(old(cache[..]), cache[..], start, visited[..], count, parent, next, hasFound, found)
    ensures FirstPhase(old(cache[..]), start) ==
      Scanned(cache[..], visited[..count], if hasFound then Some(found) else None)
  {
    ghost var c0 := cache[..];
    cache[Idx(start)] := BfsVisited;
    visited := new Vec[Cells](k => if k == 0 then start else Vec(0, 0));
    ExploredStart(c0, start, visited[..]);
    assert cache[..] == c0[Idx(start) := BfsVisited] && visited[..1] == [start];
    ghost var fdir;
    count, next, hasFound, found, fdir, parent := Explore(cache, visited, c0);
    if hasFound {
      assert MetAt(cache[..], visited[..], next, fdir, found);
    }
  }

  /** Lines 314-344: root the second phase at the settled cell met, or at
      the start cell marked NoPath when none was met, and run it. */
  method SettleFrom(cache: array<Byte>, visited: array<Vec>, start: Vec, hasFound: bool, found: Vec,
                    ghost c0: seq<Byte>, ghost count: int, ghost parent: seq<int>, ghost next: int)
    returns (path: bool, count2: int, ghost via: seq<int>)
    requires cache.Length == Cells && visited.Length == Cells
    requires ProbeRun(c0, cache[..], start, visited[..], count, parent, next, hasFound, found)
    modifies cache, visited
    ensures UpdateRun(c0, old(cache[..]), cache[..], start, old(visited[..]), count, parent, next, hasFound, found,
                      path, visited[..], count2, via)
    ensures SecondPhase(Scanned(old(cache[..]), old(visited[..count]), if hasFound then Some(found) else None), start) ==
      Spread(cache[..], visited[..count2])
  {
    ghost var c1 := cache[..];
    path := hasFound && (IsPath(cache[Idx(found)]) || cache[Idx(found)] == Target);
    visited[0] := if hasFound then found else start;
    if !hasFound {
      cache[Idx(start)] := NoPath;
    }
    forall v | InGrid(v) && v != visited[0] ensures cache[Idx(v)] == c1[Idx(v)] {
      IdxInjective(v, start);
    }
    SettlingStart(c1, cache[..], visited[..], path);
    ghost var cm := cache[..];
    assert visited[..1] == [visited[0]];
    assert cm == if hasFound then c1 else c1[Idx(start) := NoPath];
    count2, via := Settle(cache, visited, path, c1);
    ghost var c2 := cache[..];
    forall i | 0 <= i < Cells ensures c2[i] == c1[i] || c1[i] == BfsVisited {
      assert c2[i] == cm[i] || cm[i] == BfsVisited;
    }
  }

  /** `randpath_cache_update(cache, start)`.  It reads only the cache.  The
      ghost results name what the C code keeps in locals: `found`, the first
      settled cell met; `explored`, the first phase's queue; and `flood`, the
      second phase's queue, with `via[k]` the position in it of the cell
      that `flood[k]` was reached from. */
  method CacheUpdate(cache: array<Byte>, start: Vec)
    returns (ghost found: Option<Vec>, ghost explored: seq<Vec>, ghost flood: seq<Vec>, ghost via: seq<int>)
    requires cache.Length == Cells && InGrid(start) && NoBfs(cache[..])
    modifies cache
    ensures NoBfs(cache[..])
    ensures old(cache[Idx(start)]) != Unset ==> cache[..] == old(cache[..])
    ensures forall i :: 0 <= i < Cells ==>
      cache[i] == old(cache[i]) || (old(cache[i]) == Unset && (IsPath(cache[i]) || cache[i] == NoPath))
    ensures old(cache[Idx(start)]) == Unset ==> IsPath(cache[Idx(start)]) || cache[Idx(start)] == NoPath
    ensures found.Some? ==> InGrid(found.value) && Settled(old(cache[Idx(found.value)]))
    // the first phase
    ensures old(cache[Idx(start)]) == Unset ==> Queued(old(cache[..]), cache[..], start, explored)
    ensures old(cache[Idx(start)]) == Unset && found.Some? ==>
      exists n, fd :: MetFirst(old(cache[..]), explored, n, fd, found.value)
    ensures old(cache[Idx(start)]) == Unset && found.None? ==> Exhausted(old(cache[..]), explored)
    // the second phase
    ensures old(cache[Idx(start)]) == Unset ==>
      Flooded(old(cache[..]), cache[..], if found.Some? then found.value else start, flood, via,
              if found.Some? then 1 else 0)
    ensures old(cache[Idx(start)]) == Unset && LeadsToTarget(old(cache[..]), found) ==>
      forall k :: 1 <= k < |flood| ==> PointsInto(cache[..], flood[k], flood[via[k]])
    ensures !LeadsToTarget(old(cache[..]), found) ==>
      forall i :: 0 <= i < Cells && cache[i] != old(cache[i]) ==> cache[i] == NoPath
    // the reference definition: the outcome is a function of the cache given
    ensures cache[..] == AfterUpdate(old(cache[..]), start)
    ensures old(cache[Idx(start)]) == Unset ==>
      && found == FirstPhase(old(cache[..]), start).found && explored == FirstPhase(old(cache[..]), start).q
      && flood == SecondPhase(FirstPhase(old(cache[..]), start), start).q
  {
    found, explored, flood, via := None, [], [], [];
    if cache[Idx(start)] != Unset {
      return;
    }
    ghost var c0 := cache[..];
    var visited, count, next, hasFound, foundCell, parent := Probe(cache, start);
    ghost var c1 := cache[..];
    ghost var q1 := visited[..];
    explored := q1[..count];

    var path, count2;
    path, count2, via := SettleFrom(cache, visited, start, hasFound, foundCell, c0, count, parent, next);
    flood := visited[..count2];
    if hasFound {
      found := Some(foundCell);
    }
    ghost var c2 := cache[..];
    RunFrame(c0, c1, c2, start, q1, count, parent, next, hasFound, foundCell, path, visited[..], count2, via);
    RunQueued(c0, c1, c2, start, q1, count, parent, next, hasFound, foundCell, path, visited[..], count2, via, explored);
    RunFirstMet(c0, c1, c2, start, q1, count, parent, next, hasFound, foundCell, path, visited[..], count2, via,
                found, explored);
    RunEnclosed(c0, c1, c2, start, q1, count, parent, next, hasFound, foundCell, path, visited[..], count2, via,
                found, explored);
    RunFlood(c0, c1, c2, start, q1, count, parent, next, hasFound, foundCell, path, visited[..], count2, via,
             found, flood);
    RunNoPath(c0, c1, c2, start, q1, count, parent, next, hasFound, foundCell, path, visited[..], count2, via, found);
  }

  // ---------------------------------------------------------------------
  // The invalidators

  ghost function PathCells(c: seq<Byte>): set<int> {
    set i | 0 <= i < |c| && IsPath(c[i])
  }

  ghost function NoPathCells(c: seq<Byte>): set<int> {
    set i | 0 <= i < |c| && c[i] == NoPath
  }

  /** `c` is `c0` with some path entries reset to Unset. */
  ghost predicate PathsCleared(c0: seq<Byte>, c: seq<Byte>) {
    |c0| == Cells && |c| == Cells
    && forall i :: 0 <= i < Cells ==> c[i] == c0[i] || (IsPath(c0[i]) && c[i] == Unset)
  }

  /** `c` is `c0` with some NoPath entries reset to Unset. */
  ghost predicate NoPathsCleared(c0: seq<Byte>, c: seq<Byte>) {
    |c0| == Cells && |c| == Cells
    && forall i :: 0 <= i < Cells ==> c[i] == c0[i] || (c0[i] == NoPath && c[i] == Unset)
  }

  /** No path entry of `c` leads into cell `u`. */
  ghost predicate NothingLeadsInto(c: seq<Byte>, u: Vec)
    requires |c| == Cells
  {
    forall v :: !PointsInto(c, v, u)
  }

  /** No neighbour of cell `u` holds NoPath in `c`. */
  ghost predicate NoPathFreeAround(c: seq<Byte>, u: Vec)
    requires |c| == Cells
  {
    forall v :: InGrid(v) && Adjacent(u, v) ==> c[Idx(v)] != NoPath
  }

  lemma PathsClearedTrans(c0: seq<Byte>, c1: seq<Byte>, c2: seq<Byte>)
    requires PathsCleared(c0, c1) && PathsCleared(c1, c2)
    ensures PathsCleared(c0, c2) && PathCells(c2) <= PathCells(c1)
  {
  }

  lemma NoPathsClearedTrans(c0: seq<Byte>, c1: seq<Byte>, c2: seq<Byte>)
    requires NoPathsCleared(c0, c1) && NoPathsCleared(c1, c2)
    ensures NoPathsCleared(c0, c2) && NoPathCells(c2) <= NoPathCells(c1)
  {
  }

  /** Clearing path entries creates no new ones. */
  lemma NothingLeadsIntoKept(c1: seq<Byte>, c2: seq<Byte>, u: Vec)
    requires PathsCleared(c1, c2) && NothingLeadsInto(c1, u)
    ensures NothingLeadsInto(c2, u)
  {
    forall v ensures !PointsInto(c2, v, u) {
      assert !PointsInto(c1, v, u);
    }
  }

  /** Clearing NoPath entries creates no new ones. */
  lemma NoPathFreeKept(c1: seq<Byte>, c2: seq<Byte>, u: Vec)
    requires NoPathsCleared(c1, c2) && NoPathFreeAround(c1, u)
    ensures NoPathFreeAround(c2, u)
  {
  }

  /** Nothing leads into any cell cleared other than `pos`. */
  ghost predicate ClearedUnreached(c0: seq<Byte>, c: seq<Byte>, pos: Vec)
    requires |c0| == Cells && |c| == Cells
  {
    forall u :: InGrid(u) && u != pos && c[Idx(u)] != c0[Idx(u)] ==> NothingLeadsInto(c, u)
  }

  /** The neighbours of `pos` in the first `n` directions do not lead into it. */
  ghost predicate PointsBefore(c: seq<Byte>, pos: Vec, n: int)
    requires |c| == Cells
  {
    forall d: Dir :: d < n && InGrid(Step(pos, d)) ==> !PointsInto(c, Step(pos, d), pos)
  }

  /** `w` is a chain of path entries of `c`, each leading into the next. */
  ghost predicate PathChain(c: seq<Byte>, w: seq<Vec>)
  {
    && |c| == Cells && |w| >= 1
    && (forall k :: 0 <= k < |w| ==> InGrid(w[k]) && IsPath(c[Idx(w[k])]))
    && (forall k :: 1 <= k < |w| ==> PointsInto(c, w[k - 1], w[k]))
  }

  /** The path entries of `c` lead from cell `u` into cell `pos`. */
  ghost predicate LeadsInto(c: seq<Byte>, u: Vec, pos: Vec) {
    exists w :: PathChain(c, w) && w[0] == u && w[|w| - 1] == pos
  }

  /** Every cell cleared led into `pos` through path entries of `c0`. */
  ghost predicate ClearedLed(c0: seq<Byte>, c: seq<Byte>, pos: Vec)
    requires |c0| == Cells && |c| == Cells
  {
    forall u :: InGrid(u) && c[Idx(u)] != c0[Idx(u)] ==> LeadsInto(c0, u, pos)
  }

  /** A chain of a later cache, where path entries have only been cleared,
      is a chain of the earlier cache too, and may be continued into `pos`
      from its last cell. */
  lemma ChainExtend(c0: seq<Byte>, c1: seq<Byte>, u: Vec, adj: Vec, pos: Vec)
    requires PathsCleared(c0, c1) && LeadsInto(c1, u, adj) && InGrid(pos) && IsPath(c0[Idx(pos)])
    requires PointsInto(c1, adj, pos)
    ensures LeadsInto(c0, u, pos)
  {
    var w :| PathChain(c1, w) && w[0] == u && w[|w| - 1] == adj;
    var w' := w + [pos];
    forall k | 0 <= k < |w'| ensures InGrid(w'[k]) && IsPath(c0[Idx(w'[k])]) {
      if k < |w| {
        assert IsPath(c1[Idx(w[k])]);
      }
    }
    forall k | 1 <= k < |w'| ensures PointsInto(c0, w'[k - 1], w'[k]) {
      assert IsPath(c1[Idx(w'[k - 1])]);
      if k < |w| {
        assert PointsInto(c1, w[k - 1], w[k]);
      }
    }
    assert PathChain(c0, w') && w'[0] == u && w'[|w'| - 1] == pos;
  }

  /** Lines 364-365: a neighbour whose entry does not point back at `pos`
      does not lead into it. */
  lemma PointsBeforeNext(c: seq<Byte>, pos: Vec, i: Dir)
    requires |c| == Cells && InGrid(pos) && PointsBefore(c, pos, i)
    requires InGrid(Step(pos, i)) ==> !IsPath(c[Idx(Step(pos, i))]) || DirOf(c[Idx(Step(pos, i))]) != Negate(i)
    ensures PointsBefore(c, pos, i + 1)
  {
    var adj := Step(pos, i);
    if InGrid(adj) && IsPath(c[Idx(adj)]) && DirOf(c[Idx(adj)]) < 4 {
      var d: Dir := DirOf(c[Idx(adj)]);
      NegateReverses(pos, i);
      assert d != Negate(i);
      assert Step(adj, d) != pos;
    }
  }

  /** Line 368: after the recursive call on the neighbour in direction `i`
      that led into `pos`, the loop's facts hold for one more direction. */
  lemma PathNeighbourCleared(c0: seq<Byte>, c1: seq<Byte>, c2: seq<Byte>, pos: Vec, i: Dir)
    requires PathsCleared(c0, c1) && PathsCleared(c1, c2) && InGrid(pos) && InGrid(Step(pos, i))
    requires IsPath(c1[Idx(Step(pos, i))]) && c2[Idx(Step(pos, i))] == Unset
    requires ClearedUnreached(c0, c1, pos) && PointsBefore(c1, pos, i)
    requires forall u :: InGrid(u) && c2[Idx(u)] != c1[Idx(u)] ==> NothingLeadsInto(c2, u)
    ensures PathsCleared(c0, c2) && PathCells(c2) <= PathCells(c1)
    ensures ClearedUnreached(c0, c2, pos) && PointsBefore(c2, pos, i + 1)
  {
    PathsClearedTrans(c0, c1, c2);
    forall u | InGrid(u) && u != pos && c2[Idx(u)] != c0[Idx(u)] ensures NothingLeadsInto(c2, u) {
      if c2[Idx(u)] == c1[Idx(u)] {
        NothingLeadsIntoKept(c1, c2, u);
      }
    }
    forall d: Dir | d < i + 1 && InGrid(Step(pos, d)) ensures !PointsInto(c2, Step(pos, d), pos) {
      if d < i {
        assert !PointsInto(c1, Step(pos, d), pos);
      }
    }
  }

  /** Line 368: the cells cleared by the recursive call on the neighbour in
      direction `i` led into that neighbour, which led into `pos`. */
  lemma PathNeighbourLed(c0: seq<Byte>, c1: seq<Byte>, c2: seq<Byte>, pos: Vec, i: Dir)
    requires PathsCleared(c0, c1) && PathsCleared(c1, c2) && InGrid(pos) && InGrid(Step(pos, i))
    requires IsPath(c0[Idx(pos)]) && IsPath(c1[Idx(Step(pos, i))]) && DirOf(c1[Idx(Step(pos, i))]) == Negate(i)
    requires ClearedLed(c0, c1, pos) && ClearedLed(c1, c2, Step(pos, i))
    ensures ClearedLed(c0, c2, pos)
  {
    var adj := Step(pos, i);
    NegateReverses(pos, i);
    assert PointsInto(c1, adj, pos);
    forall u | InGrid(u) && c2[Idx(u)] != c0[Idx(u)] ensures LeadsInto(c0, u, pos) {
      if c2[Idx(u)] != c1[Idx(u)] {
        ChainExtend(c0, c1, u, adj, pos);
      }
    }
  }

  /** `randpath_cache_invalidate_path(cache, pos)`: forget the path entry of
      `pos` and, recursively, of every neighbour whose path entry leads into
      a forgotten cell.  Afterwards no path entry leads into a forgotten
      cell, and every forgotten cell led into `pos`.  It terminates because the set of path entries shrinks on every
      call. */
  method InvalidatePath(cache: array<Byte>, pos: Vec)
    requires cache.Length == Cells && InGrid(pos)
    modifies cache
    decreases PathCells(cache[..])
    ensures !IsPath(old(cache[Idx(pos)])) ==> cache[..] == old(cache[..])
    ensures IsPath(old(cache[Idx(pos)])) ==> cache[Idx(pos)] == Unset
    ensures PathsCleared(old(cache[..]), cache[..])
    ensures forall u :: InGrid(u) && cache[Idx(u)] != old(cache[Idx(u)]) ==> NothingLeadsInto(cache[..], u)
    ensures ClearedLed(old(cache[..]), cache[..], pos)
  {
    if !IsPath(cache[Idx(pos)]) {
      return;
    }
    assert Idx(pos) in PathCells(cache[..]);
    cache[Idx(pos)] := Unset;
    forall u | InGrid(u) && cache[Idx(u)] != old(cache[Idx(u)]) ensures LeadsInto(old(cache[..]), u, pos) {
      IdxInjective(u, pos);
      assert PathChain(old(cache[..]), [pos]);
    }
    for i := 0 to 4
      invariant PathsCleared(old(cache[..]), cache[..])
      invariant cache[Idx(pos)] == Unset
      invariant PathCells(cache[..]) <= PathCells(old(cache[..])) - {Idx(pos)}
      invariant ClearedUnreached(old(cache[..]), cache[..], pos)
      invariant PointsBefore(cache[..], pos, i)
      invariant ClearedLed(old(cache[..]), cache[..], pos)
    {
      var adj := Step(pos, i);
      if !InGrid(adj) {
        PointsBeforeNext(cache[..], pos, i);
        continue;
      }
      var e := cache[Idx(adj)];
      if !IsPath(e) || DirOf(e) != Negate(i) {
        PointsBeforeNext(cache[..], pos, i);
        continue;
      }
      ghost var before := cache[..];
      InvalidatePath(cache, adj);
      PathNeighbourCleared(old(cache[..]), before, cache[..], pos, i);
      PathNeighbourLed(old(cache[..]), before, cache[..], pos, i);
    }
    forall u | InGrid(u) && cache[Idx(u)] != old(cache[Idx(u)]) ensures NothingLeadsInto(cache[..], u) {
      if u == pos {
        forall v ensures !PointsInto(cache[..], v, pos) {
          if InGrid(v) && IsPath(cache[Idx(v)]) && DirOf(cache[Idx(v)]) < 4 {
            var d: Dir := DirOf(cache[Idx(v)]);
            NegateReverses(v, d);
            NegateReverses(pos, Negate(d));
            if Step(v, d) == pos {
              assert Step(pos, Negate(d)) == v;
            }
          }
        }
      }
    }
  }

  /** `w` is a walk of adjacent grid cells that, after its first cell, runs
      through NoPath entries of `c`. */
  ghost predicate NoPathWalk(c: seq<Byte>, w: seq<Vec>)
  {
    && |c| == Cells && |w| >= 1
    && (forall k :: 0 <= k < |w| ==> InGrid(w[k]))
    && (forall k :: 1 <= k < |w| ==> Adjacent(w[k - 1], w[k]) && c[Idx(w[k])] == NoPath)
  }

  /** Cell `u` is reached from `pos` through NoPath cells of `c`. */
  ghost predicate Reached(c: seq<Byte>, pos: Vec, u: Vec) {
    exists w :: NoPathWalk(c, w) && w[0] == pos && w[|w| - 1] == u
  }

  /** A walk through NoPath cells of a later cache, where NoPath entries have
      only been cleared, is a walk in the earlier cache too, and may be
      entered from a neighbour. */
  lemma WalkExtend(c0: seq<Byte>, c1: seq<Byte>, pos: Vec, adj: Vec, u: Vec)
    requires NoPathsCleared(c0, c1) && Reached(c1, adj, u) && InGrid(pos) && Adjacent(pos, adj)
    requires c0[Idx(adj)] == NoPath
    ensures Reached(c0, pos, u)
  {
    var w :| NoPathWalk(c1, w) && w[0] == adj && w[|w| - 1] == u;
    var w' := [pos] + w;
    forall k | 1 <= k < |w'| ensures Adjacent(w'[k - 1], w'[k]) && c0[Idx(w'[k])] == NoPath {
      assert w'[k] == w[k - 1];
      if k >= 2 {
        assert w'[k - 1] == w[k - 2];
      }
    }
    assert NoPathWalk(c0, w') && w'[|w'| - 1] == u;
  }

  /** Every cell cleared, other than `pos`, has no NoPath neighbour. */
  ghost predicate ClearedFree(c0: seq<Byte>, c: seq<Byte>, pos: Vec)
    requires |c0| == Cells && |c| == Cells
  {
    forall u :: InGrid(u) && u != pos && c[Idx(u)] != c0[Idx(u)] ==> NoPathFreeAround(c, u)
  }

  /** Every cell cleared is reached from `pos` through NoPath cells of `c0`. */
  ghost predicate ClearedReached(c0: seq<Byte>, c: seq<Byte>, pos: Vec)
    requires |c0| == Cells && |c| == Cells
  {
    forall u :: InGrid(u) && c[Idx(u)] != c0[Idx(u)] ==> Reached(c0, pos, u)
  }

  /** The neighbours of `pos` in the first `n` directions are not NoPath. */
  ghost predicate NoPathBefore(c: seq<Byte>, pos: Vec, n: int)
    requires |c| == Cells
  {
    forall d: Dir :: d < n && InGrid(Step(pos, d)) ==> c[Idx(Step(pos, d))] != NoPath
  }

  /** Line 389: a neighbour that is not NoPath is skipped. */
  lemma NoPathBeforeNext(c: seq<Byte>, pos: Vec, i: Dir)
    requires |c| == Cells && NoPathBefore(c, pos, i)
    requires InGrid(Step(pos, i)) ==> c[Idx(Step(pos, i))] != NoPath
    ensures NoPathBefore(c, pos, i + 1)
  {
  }

  /** Once all four directions are done, `pos` has no NoPath neighbour. */
  lemma NoPathBeforeAll(c: seq<Byte>, pos: Vec)
    requires |c| == Cells && NoPathBefore(c, pos, 4)
    ensures NoPathFreeAround(c, pos)
  {
    forall v | InGrid(v) && Adjacent(pos, v) ensures c[Idx(v)] != NoPath {
      AdjacentIsStep(pos, v);
    }
  }

  /** Line 391: after the recursive call on the NoPath neighbour in
      direction `i`, the loop's facts hold for one more direction. */
  lemma NoPathNeighbourCleared(c0: seq<Byte>, c1: seq<Byte>, c2: seq<Byte>, pos: Vec, i: Dir)
    requires NoPathsCleared(c0, c1) && NoPathsCleared(c1, c2) && InGrid(pos) && InGrid(Step(pos, i))
    requires Adjacent(pos, Step(pos, i)) && c1[Idx(Step(pos, i))] == NoPath && c2[Idx(Step(pos, i))] == Unset
    requires ClearedFree(c0, c1, pos) && NoPathBefore(c1, pos, i) && ClearedReached(c0, c1, pos)
    requires forall u :: InGrid(u) && (u == Step(pos, i) || c2[Idx(u)] != c1[Idx(u)]) ==> NoPathFreeAround(c2, u)
    requires forall u :: InGrid(u) && c2[Idx(u)] != c1[Idx(u)] ==> Reached(c1, Step(pos, i), u)
    ensures NoPathsCleared(c0, c2) && NoPathCells(c2) <= NoPathCells(c1)
    ensures ClearedFree(c0, c2, pos) && NoPathBefore(c2, pos, i + 1) && ClearedReached(c0, c2, pos)
  {
    var adj := Step(pos, i);
    NoPathsClearedTrans(c0, c1, c2);
    forall u | InGrid(u) && u != pos && c2[Idx(u)] != c0[Idx(u)] ensures NoPathFreeAround(c2, u) {
      if c2[Idx(u)] == c1[Idx(u)] {
        NoPathFreeKept(c1, c2, u);
      }
    }
    forall u | InGrid(u) && c2[Idx(u)] != c0[Idx(u)] ensures Reached(c0, pos, u) {
      if c2[Idx(u)] != c1[Idx(u)] {
        WalkExtend(c0, c1, pos, adj, u);
      }
    }
    forall d: Dir | d < i + 1 && InGrid(Step(pos, d)) ensures c2[Idx(Step(pos, d))] != NoPath {
      if d < i {
        assert c1[Idx(Step(pos, d))] != NoPath;
      }
    }
  }

  /** Along a walk from `pos` through NoPath cells of `c0`, every cell has
      been cleared, once neither `pos` nor any cleared cell has a NoPath
      neighbour left. */
  lemma {:induction false} WalkCleared(c0: seq<Byte>, c: seq<Byte>, pos: Vec, w: seq<Vec>, k: nat)
    requires NoPathsCleared(c0, c) && NoPathWalk(c0, w) && w[0] == pos && c[Idx(pos)] == Unset
    requires forall u :: InGrid(u) && (u == pos || c[Idx(u)] != c0[Idx(u)]) ==> NoPathFreeAround(c, u)
    requires k < |w|
    ensures c[Idx(w[k])] == Unset
    decreases k
  {
    if k > 0 {
      WalkCleared(c0, c, pos, w, k - 1);
      var u := w[k - 1];
      assert Adjacent(u, w[k]) && c0[Idx(w[k])] == NoPath;
      assert NoPathFreeAround(c, u);
    }
  }

  /** The clearing is complete: every cell reached from `pos` through NoPath
      cells of `c0` is Unset in `c`. */
  lemma NoPathComponentCleared(c0: seq<Byte>, c: seq<Byte>, pos: Vec)
    requires NoPathsCleared(c0, c) && InGrid(pos) && c[Idx(pos)] == Unset
    requires forall u :: InGrid(u) && (u == pos || c[Idx(u)] != c0[Idx(u)]) ==> NoPathFreeAround(c, u)
    ensures forall u :: Reached(c0, pos, u) ==> InGrid(u) && c[Idx(u)] == Unset
  {
    forall u | Reached(c0, pos, u) ensures InGrid(u) && c[Idx(u)] == Unset {
      var w :| NoPathWalk(c0, w) && w[0] == pos && w[|w| - 1] == u;
      WalkCleared(c0, c, pos, w, |w| - 1);
    }
  }

  /** `randpath_cache_invalidate_nopath(cache, pos)`: when `pos` is NoPath
      or Unset, clear it and, recursively, every NoPath cell connected to it
      through NoPath cells; afterwards no cleared cell, and not `pos`, has a
      NoPath neighbour.  It terminates because each call either clears a
      NoPath entry or is entered from an Unset cell into a NoPath one. */
  method InvalidateNoPath(cache: array<Byte>, pos: Vec)
    requires cache.Length == Cells && InGrid(pos)
    modifies cache
    decreases NoPathCells(cache[..]), if cache[Idx(pos)] == NoPath then 0 else 1
    ensures old(cache[Idx(pos)]) != NoPath && old(cache[Idx(pos)]) != Unset ==> cache[..] == old(cache[..])
    ensures old(cache[Idx(pos)]) == NoPath || old(cache[Idx(pos)]) == Unset ==> cache[Idx(pos)] == Unset
    ensures NoPathsCleared(old(cache[..]), cache[..])
    ensures old(cache[Idx(pos)]) == NoPath || old(cache[Idx(pos)]) == Unset ==>
      forall u :: InGrid(u) && (u == pos || cache[Idx(u)] != old(cache[Idx(u)])) ==> NoPathFreeAround(cache[..], u)
    ensures forall u :: InGrid(u) && cache[Idx(u)] != old(cache[Idx(u)]) ==> Reached(old(cache[..]), pos, u)
    ensures old(cache[Idx(pos)]) == NoPath || old(cache[Idx(pos)]) == Unset ==>
      forall u :: Reached(old(cache[..]), pos, u) ==> InGrid(u) && cache[Idx(u)] == Unset
  {
    var e := cache[Idx(pos)];
    if e != NoPath && e != Unset {
      return;
    }
    cache[Idx(pos)] := Unset;
    forall u | InGrid(u) && cache[Idx(u)] != old(cache[Idx(u)]) ensures u == pos && Reached(old(cache[..]), pos, u) {
      IdxInjective(u, pos);
      assert NoPathWalk(old(cache[..]), [pos]);
    }
    for i := 0 to 4
      invariant NoPathsCleared(old(cache[..]), cache[..])
      invariant cache[Idx(pos)] == Unset
      invariant NoPathCells(cache[..]) <= NoPathCells(old(cache[..])) - {Idx(pos)}
      invariant ClearedFree(old(cache[..]), cache[..], pos)
      invariant NoPathBefore(cache[..], pos, i)
      invariant ClearedReached(old(cache[..]), cache[..], pos)
    {
      var adj := Step(pos, i);
      if !InGrid(adj) || cache[Idx(adj)] != NoPath {
        NoPathBeforeNext(cache[..], pos, i);
        continue;
      }
      ghost var before := cache[..];
      NegateReverses(pos, i);
      InvalidateNoPath(cache, adj);
      NoPathNeighbourCleared(old(cache[..]), before, cache[..], pos, i);
    }
    NoPathBeforeAll(cache[..], pos);
    NoPathComponentCleared(old(cache[..]), cache[..], pos);
  }
}
