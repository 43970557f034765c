# MazeGen in Dafny

A model of the maze generator in `src/maze.c` and of the C-string-literal
quoting in `src/main.c`, with proofs about both.

## Generator

The maze is a 30 × 20 grid of cells, defined in `src/maze.h`. It is stored as
two boolean wall arrays:

- `vert[H][W+1]` holds the vertical segments;
- `horiz[H+1][W]` holds the horizontal segments.

`maze_randomize` builds the maze:

- It draws the outline.
- It walls in the entrance cell.
- It seeds the bottom-right cell as the Target.
- It runs the carver `maze_randpath` from the top-left cell.
- It opens the exit.

The carver is a randomised depth-first search. On each cell it enters it does
the following:

- It forgets any cached path through the cell.
- It marks the cell Visited.
- It lists the directions in which a wall is present and the neighbour lies
  inside the grid.
- It draws those directions at random, without replacement.
- For each direction drawn, it asks the reachability cache about the
  neighbour and skips dead ends.
- For any other neighbour, it tentatively clears the segment between the two
  cells and sets the neighbour's other three sides. It then recurses.
- If the recursion fails, it puts the four saved segments back.
- If every direction fails, it clears the cell and forgets the NoPath
  conclusions around it.

The reachability cache holds one byte per cell:

| entry | code |
|---|---|
| Unset | 0 |
| Visited | 2 |
| Path(d) | 2d+1 |
| NoPath | 4 |
| Target | 6 |
| BfsVisited | 8 |

`randpath_cache_update` probes the cache in two breadth-first phases:

- The first phase starts at an Unset cell. It marks Unset neighbours until it
  meets a settled cell: NoPath, a path entry, or Target.
- The second phase floods back through the marked cells. Each one becomes
  either a path entry pointing at the cell it was reached from, or NoPath.

Two recursive invalidators undo cached conclusions:

- `randpath_cache_invalidate_path` removes path entries.
- `randpath_cache_invalidate_nopath` removes NoPath entries.

## Model structure

Each C array is flattened row-major, as C lays it out: element `[row][col]`
of an array with `n` columns is element `row*n + col`. The module `Grid` also
holds `intersection`, the 4-bit glyph mask used by rendering.

The state-changing code is imperative Dafny over `array`s:

- the probe's two queue loops;
- the invalidators;
- the carver and its save and restore of the four segments;
- `randpath_select`'s `memmove`;
- the outline loops.

Each method is proved against predicates on the array contents. The two
probe phases are also proved against reference definitions, `Cache.Scan` and
`Cache.Flood`, which follow the C code's order: the queue first in, first out,
and the neighbours of each cell in `unitvec` order. So the cache
`randpath_cache_update` leaves behind is a function of the cache it was given
(`Cache.AfterUpdate`). The C
library's `rand()` is the `Carver.Rand` object, which hands out the values of
a fixed function `draws: nat -> nat` in order. Every property is proved for
every such stream.

`print_quoted_char` and `print_quoted_str` return the text they would write.
Their partner is `Quote.Unquote`, a reader of string-literal bodies that
follows section 6.4.4.4 of ISO/IEC 9899:2011. The proofs show three things:

- reading the output back gives the original bytes;
- the output contains no trigraph, in the sense of section 5.2.1.1;
- the output is printable ASCII.

### Behaviour worth knowing

- **The probe ignores walls.** `randpath_cache_update` reads only the cache.
  It floods through every Unset neighbour, whatever walls lie between.
- **Interior walls start absent.** `maze_randomize` draws every interior
  segment absent (`src/maze.c:476`, `src/maze.c:482`); the carver then sets
  the sides of each cell it enters. `Carver.DrawOutline` states this.
- **Success marks the cell Target.** After a successful recursion the carver
  marks the cell Target (`src/maze.c:456-458`), so later probes stop there.
- **A move needs a present wall.** `randpath_is_valid` allows a move only
  where the segment to be crossed is present. `Carver.IsValidMeaning` states
  this.
- **The NUL branch is unreachable from `print_quoted_str`.**
  `print_quoted_str` stops at the terminating NUL, so its `\0`/`\000` branch
  is reached only by direct calls to `print_quoted_char`. The model keeps the
  branch, and the round trip covers it.
- **An indeterminate read.** When nothing settled is met, the C code reads the
  cache at an indeterminate `found` (`src/maze.c:314`). It does not use that
  value, because `has_found` is false. The model reads the entry only when a
  cell was found.

## Model

| member | source | states |
|---|---|---|
| Grid.NegateReverses | src/maze.c:198-205 | `DIR_NEGATE` turns a direction into a different one, applying it twice gives the direction back, stepping along `unitvec[d]` and then back returns to the start, and a step lands on an adjacent cell |
| Grid.AdjacentIsStep | src/maze.c:198-203 | every adjacent cell is reached by one of the four unit vectors |
| Grid.BetweenIsInner | src/maze.c:434-444 | the segment crossed by a move between two cells of the grid is a lattice segment and not on the outline |
| Grid.Maze.constructor | src/maze.h:14 | `MAZE_INIT` leaves every segment absent |
| Grid.Maze.SetWall | src/maze.c:451-454 | writing through one segment pointer sets that segment and leaves every other one as it was |
| Grid.Intersection | src/maze.c:92-112 | the glyph is one character, and it is the blank exactly when no present segment ends at the lattice point; `Grid.IntersectionMask` states each bit |
| Grid.IntersectionMask | src/maze.c:92-112 | each of the LEFT, UP, RIGHT and DOWN bits is set exactly when that segment ends at the lattice point, lies inside the lattice and is present; read as a number, the mask is the sum of the weights 1, 2, 4 and 8 of the present segments, so it is below 16 and the `walls[]` lookup is in range |
| Cache.EncodingDecodes | src/maze.c:244-271 | `RP_PATHP` recognises `RP_PATH(d)` and no other code; `RP_DIR` recovers `d`; the settled codes (NoPath, Path, Target) are told apart from Unset, Visited and BfsVisited |
| Cache.QueueBound | src/maze.c:278-310 | a queue of distinct grid cells that does not hold the cell about to be queued has fewer than W·H entries, so the `visited` array never overflows |
| Cache.ExploredPush | src/maze.c:309-310 | marking and queueing an Unset neighbour keeps the first phase's invariant: queued cells are distinct, were Unset, are now BfsVisited, each is adjacent to an earlier one, and nothing unqueued changed |
| Cache.Scan | src/maze.c:284-311 | the first phase as a reference definition, in first-in first-out queue order and `unitvec` direction order: off-grid neighbours are skipped, a settled one ends the phase, an Unset one is marked BfsVisited and appended to the queue, any other is passed; the cell it ends on is in the grid and settled |
| Cache.Flood | src/maze.c:324-343 | the second phase as a reference definition, in the same order: each BfsVisited neighbour is rewritten to `RP_PATH(DIR_NEGATE(dir))` or NoPath and appended to the queue; the result is a whole cache, and since `Cache.Settle` ensures the code ends where it does, what `Cache.Settle` and `Cache.RunFlood` state holds of it |
| Cache.Push | src/maze.c:309-310 | one cache entry is written and the cell is appended to the queue; nothing else changes |
| Cache.ExpandMarked | src/maze.c:309-310 | marking and queueing the Unset neighbour keeps the first phase's invariant and is exactly the reference step that marks it |
| Cache.ExpandNeighbour | src/maze.c:288-310 | for one direction: a settled neighbour is reported as found; an Unset one is marked and queued; otherwise the neighbour is neither Unset nor settled; in each case the cache and queue after it are those of the reference first phase after that direction |
| Cache.ExpandTurn | src/maze.c:286-310 | one turn of the direction loop keeps the loop's invariant, the reference first phase included |
| Cache.ExpandDirections | src/maze.c:286-311 | the direction loop ends on the first settled neighbour in `unitvec` order, or after all four directions, at the reference first phase's state |
| Cache.ExpandUnset | src/maze.c:284-311 | expanding one queued cell ends in the reference first phase's state: either with the first settled neighbour in direction order found, every earlier-direction neighbour being neither Unset nor settled, or with all four neighbours passed and the scan moved on to the next queued cell; only Unset cells were marked and the queue prefix is kept |
| Cache.ExploreNext | src/maze.c:283-311 | one turn of the first phase's loop keeps its invariant and advances the reference first phase by one queued cell |
| Cache.Explore | src/maze.c:282-311 | the first phase ends exactly as the reference first phase does from the one-cell queue: same cache, same queue in the same order, same cell found (or none); the cell found is met from queued cell `next - 1` in direction `fdir` with every neighbour scanned before it neither Unset nor settled, or else every neighbour of every queued cell is neither Unset nor settled |
| Cache.Probe | src/maze.c:273-311 | marking the start cell and running the first phase gives the cache, queue and found cell of the reference first phase from the Unset start cell |
| Cache.SettlingPush | src/maze.c:341-342 | rewriting a marked neighbour to `RP_PATH(DIR_NEGATE(dir))`, or to NoPath, and queueing it keeps the second phase's invariant |
| Cache.SettleMarked | src/maze.c:341-342 | rewriting and queueing the marked neighbour keeps the second phase's invariant, writes the path entry pointing back or NoPath, and is exactly the reference step |
| Cache.SettleNeighbour | src/maze.c:328-342 | for one direction a marked neighbour is rewritten and queued; afterwards that neighbour is not BfsVisited; the cache and queue after it are those of the reference second phase after that direction |
| Cache.SettleTurn | src/maze.c:327-342 | one turn of the direction loop keeps the loop's invariant, the reference second phase included |
| Cache.SettleAround | src/maze.c:327-343 | after the direction loop no neighbour of the cell is BfsVisited, only BfsVisited cells changed, and the reference second phase has moved on to the next queued cell |
| Cache.SettleNext | src/maze.c:324-343 | one turn of the second phase's loop keeps its invariant and advances the reference second phase by one queued cell |
| Cache.Settle | src/maze.c:324-344 | the second phase ends exactly as the reference second phase does from the one-cell queue; no BfsVisited neighbour of any queued cell remains, and every rewritten cell is adjacent to the earlier queued cell it was reached from and holds a path entry leading there (or NoPath) |
| Cache.SettleFrom | src/maze.c:313-344 | rooting the second phase at the found cell, or at the start cell set to NoPath, and running it establishes the probe's full outcome and ends in the reference second phase's cache and queue |
| Cache.FloodReachesAll | src/maze.c:324-344 | the marked cells form a tree; once the root is rewritten and rewriting spreads to marked neighbours, every marked cell is rewritten |
| Cache.RunRewritesMarks | src/maze.c:284-344 | every cell the first phase marked is rewritten and queued by the second phase |
| Cache.RunOutcome | src/maze.c:314-344 | unmarked cells keep their entry; marked cells were Unset and become path entries in the flood queue when the found cell is a path entry or Target, and NoPath otherwise; a cell changed exactly when it was marked |
| Cache.RunFrame | src/maze.c:274-345 | only Unset cells change, each to a path entry or NoPath; no BfsVisited mark remains; the start cell ends as a path entry or NoPath; the found cell was settled |
| Cache.RunLeads | src/maze.c:314-316 | `path` holds exactly when a cell was found and it was a path entry or Target |
| Cache.RunQueued | src/maze.c:278-310 | the first phase's queue starts at the start cell, holds cells that were Unset, each after the first adjacent to an earlier one, and is exactly the set of cells the update changes |
| Cache.RunFirstMet | src/maze.c:284-310 | when a settled cell was met, it is the first settled cell in scanning order: met from some queued cell in some direction, with every neighbour scanned before it not settled, and queued if it was Unset |
| Cache.RunEnclosed | src/maze.c:284-312 | when no settled cell was met, every neighbour of every queued cell was not settled, and was queued if it was Unset |
| Cache.RunFlood | src/maze.c:314-343 | the second phase's queue starts at the found cell (or at the start cell when none was found), each later cell is adjacent to the earlier one it was reached from, and the changed cells are exactly the queue after the found cell (the whole queue when none was found); when the found cell leads to the target, each queued cell after the root holds a path entry leading to the cell it was reached from |
| Cache.RunNoPath | src/maze.c:322-343 | when the found cell does not lead to the target, or none was found, every changed cell holds NoPath |
| Cache.MetFirstUnique | src/maze.c:284-310 | given the first phase's queue, the scanning order determines the first settled cell met: two candidates are the same cell, met from the same queued cell in the same direction (the queue itself is fixed by `Cache.Scan`, which `Cache.CacheUpdate` ensures it follows) |
| Cache.MetFirstNearStart | src/maze.c:286-305 | when the start cell has a settled neighbour, the cell met is its first settled neighbour in the `unitvec` order |
| Cache.CornerMeetsNoPath | src/maze.c:284-343 | with the start at (0,0), (0,1) and (1,0) Unset and NoPath at (0,2), the reference first phase meets (0,2) whatever lies beyond (1,0), because (0,1) is queued and scanned first; the update then writes NoPath at (0,0), (0,1) and (1,0) |
| Cache.CornerScan | src/maze.c:284-310 | from a cell with nothing Up or Left of it, the first phase queues its Down neighbour and then its Right neighbour, and the Down neighbour meets the settled cell below it |
| Cache.CornerFlood | src/maze.c:324-343 | the NoPath flood from that settled cell reaches the Down neighbour, the start cell and the Right neighbour in that order and rewrites each to NoPath |
| Cache.StartBesideLead | src/maze.c:284-343 | from exactly what `Cache.CacheUpdate` ensures for an Unset start cell: when the first settled neighbour of the start cell in direction order is a path entry or Target, the update reports that neighbour as the cell met, and the start cell ends with a path entry |
| Cache.CacheUpdate | src/maze.c:272-345 | the cache afterwards is `AfterUpdate` of the cache before, and the found cell and both queues are those of the reference phases `Cache.Scan` and `Cache.Flood` (first-in first-out, `unitvec` order), so the outcome is a function of the input cache; also: a no-op unless the start is Unset; only Unset cells change; no BfsVisited mark remains; the start becomes a path entry or NoPath; the first phase's queue is exactly the changed cells; the cell found is the first settled cell in scanning order, or else the scan was exhausted; the flood tree, with path entries leading to the found cell when it leads to the target and NoPath everywhere changed otherwise |
| Cache.PointsBeforeNext | src/maze.c:363-366 | a neighbour whose entry is not a path entry pointing back at `pos` does not lead into `pos` |
| Cache.PathNeighbourCleared | src/maze.c:368 | after the recursive call on the neighbour that led into `pos`, only path entries were cleared, the path cells shrank, and nothing leads into a cleared cell |
| Cache.PathNeighbourLed | src/maze.c:363-368 | the cells cleared by the recursive call on a neighbour led into that neighbour, which led into `pos`, so they led into `pos` |
| Cache.InvalidatePath | src/maze.c:347-370 | a no-op unless `pos` holds a path entry; only path entries become Unset; `pos` is cleared; no remaining path entry leads into any cleared cell, and every cleared cell led into `pos` through a chain of path entries of the cache as it was; it terminates because the set of path cells shrinks |
| Cache.WalkExtend | src/maze.c:390-392 | a walk through NoPath cells from a NoPath neighbour extends to a walk from `pos` |
| Cache.NoPathNeighbourCleared | src/maze.c:391-392 | after the recursive call on a NoPath neighbour, only NoPath entries were cleared, each cleared cell is reached from `pos` through NoPath cells, and no cleared cell has a NoPath neighbour |
| Cache.WalkCleared | src/maze.c:376-392 | every cell of a NoPath walk from `pos` has been cleared |
| Cache.NoPathComponentCleared | src/maze.c:372-394 | every cell 4-connected to `pos` through NoPath cells ends Unset |
| Cache.InvalidateNoPath | src/maze.c:372-394 | a no-op unless `pos` is NoPath or Unset; otherwise `pos` and exactly the NoPath cells connected to it through NoPath cells become Unset, and nothing else changes |
| Carver.IsValid | src/maze.c:207-224 | a move `randpath_is_valid` allows stays inside the grid; `Carver.IsValidMeaning` states both directions |
| Carver.Rand.Next | src/maze.c:229 | `rand()` yields the next value of the stream |
| Carver.IsValidMeaning | src/maze.c:207-224 | `randpath_is_valid(maze, x0, d & 1, (d >> 1) & 1)` holds exactly when the neighbour in direction `d` is inside the grid and the segment between is present |
| Carver.RemoveAtMultiset | src/maze.c:232-235 | removing the drawn entry loses that one element and nothing else |
| Carver.CloseGap | src/maze.c:232-233 | the `memmove` leaves the list without its entry at `idx`, in the same order, and leaves the entries past the list alone |
| Carver.Select | src/maze.c:226-241 | on an empty list: -1, nothing changed, no draw; otherwise one `rand()` draw, the entry at the drawn index mod `num_open` is returned and removed in order, and `num_open` drops by one |
| Carver.OpenDirections | src/maze.c:403-412 | the listed directions are, in increasing order, exactly those that `randpath_is_valid` allows, and each leads to a cell of the grid |
| Carver.SelectKeepsLeads | src/maze.c:415-419 | the drawn direction and the ones left all lead inside the grid |
| Carver.CarveSegments | src/maze.c:434-444 | `entry` is the segment crossed, and `entry`, `forward`, `walla`, `wallb` are the four distinct sides of the cell entered |
| Carver.WriteCarving | src/maze.c:451-454 | the four segments get the given values and no other segment changes |
| Carver.RestoredWalls | src/maze.c:446-464 | writing back the four saved values, after a recursion that left the walls alone, restores every segment |
| Carver.CarvedKept | src/maze.c:451-458 | after a successful carve, every changed segment lies around a cell off the carver's path other than `x0`, and the outline keeps every segment it had |
| Carver.NonVisitedShrinks | src/maze.c:401 | marking the cell Visited shrinks the set of cells off the path, the measure of the recursion |
| Carver.TargetMarked | src/maze.c:456-458 | marking `x0` Target after success takes it off the path and leaves the other Visited cells and the BfsVisited-freedom alone |
| Carver.TryDirection | src/maze.c:417-424 | probing a neighbour that proves NoPath changes no wall; otherwise carving proceeds; either way the Visited cells other than `x0` stay the same, and `x0` ends Target on success and Visited otherwise |
| Carver.CarveInto | src/maze.c:426-464 | on failure every segment is as before; on success `x0` becomes Target; changed segments lie around cells off the path; the outline keeps its segments |
| Carver.Search | src/maze.c:414-466 | trying the open directions in drawn order until one succeeds keeps the Visited cells, leaves the walls as they were on failure, and marks `x0` Target on success |
| Carver.RandPath | src/maze.c:397-471 | Target returns true and Visited returns false, both with neither the cache nor any segment changed; otherwise the Visited cells after the call are those before it; on success `x0` is Target; on failure every segment is as before; no BfsVisited mark remains; no segment of the outline is removed |
| Carver.DrawOutline | src/maze.c:474-484 | every outline segment is present and every interior segment absent |
| Carver.Randomize | src/maze.c:473-497 | the outline is closed except for the entrance `vert[0][0]` and the exit `vert[H-1][W]`, whatever the random draws |
| Quote.QuoteChar | src/main.c:11-65 | each byte is written as one to four characters, verbatim exactly when it is printable and neither `"` nor `\`; `Quote.UnquoteChar` states that the text reads back as the byte |
| Quote.QuoteBody | src/main.c:70-91 | the loop writes between one and four characters per byte; `Quote.UnquoteBody` states that the text reads back as the string |
| Quote.Quoted | src/main.c:67-94 | the output begins and ends with `"` |
| Quote.PrintQuotedStr | src/main.c:67-94 | the loop over a NUL-free string, with its `prev` trigraph guard, writes exactly `Quoted(s)` |
| Quote.BodyUnfold | src/main.c:71-91 | one iteration writes `\?` (keeping `prev`) for a `?` after `?` before a trigraph end, and the text for the byte otherwise |
| Quote.OctalSplit | src/main.c:57-59 | the three 3-bit groups of a byte recompose it, and the high group is below 4 |
| Quote.UnquoteCharPrint | src/main.c:13-20 | a printable byte, written verbatim or with a backslash before `"` and `\`, reads back as itself |
| Quote.UnquoteCharControl | src/main.c:22-44 | each of `\a \b \f \n \r \t \v` reads back as its control byte |
| Quote.UnquoteCharNul | src/main.c:46-54 | NUL, written `\000` before an octal digit and `\0` otherwise, reads back as NUL whatever follows |
| Quote.UnquoteCharOctal | src/main.c:56-61 | a three-digit octal escape of a non-printable byte reads back as that byte |
| Quote.UnquoteCharHex | src/main.c:64 | `\x` with two uppercase hex digits reads back as the byte when no hex digit follows |
| Quote.UnquoteCharNumeric | src/main.c:56-64 | the octal form before a hex digit and the hex form otherwise both read back as the byte, given what can follow |
| Quote.UnquoteChar | src/main.c:11-65 | the text for any byte reads back as that byte, whatever text for the next byte follows |
| Quote.QuoteCharShape | src/main.c:11-65 | the text for one byte holds no trigraph, holds a `?` only when it is the byte `?` verbatim, and starts with a trigraph end only when it is the byte verbatim |
| Quote.UnquoteBody | src/main.c:70-91 | the loop's output reads back, as a string-literal body, as exactly the input bytes |
| Quote.QuotedRoundTrip | src/main.c:67-94 | the text between the quotes of `print_quoted_str`'s output reads back as the original string |
| Quote.BodyNoTrigraph | src/main.c:70-91 | the loop's output contains no `??X` with `X` a trigraph end |
| Quote.QuotedNoTrigraph | src/main.c:72-85 | the whole output, quotes included, contains no trigraph |
| Quote.QuotedPrintable | src/main.c:11-94 | every character of the output is printable ASCII |

## Left out

- Rendering is left out: `print_row`, `maze_print_rp` and `maze_print`
  (`src/maze.c:117-190`). It is output only. Only the pure mask and glyph
  choice of `intersection` are modelled (`Grid.IntersectionMask`,
  `Grid.Intersection`).
- The debug call `maze_print_rp` in the carver's failure path
  (`src/maze.c:468`) writes only to standard output and is treated as doing
  nothing.
- The commented-out glyph tables and the debug table `rp_cache_chars` are
  presentation only.
- The C library's `rand`, `srand` and `time` are not modelled. `rand()` is
  an arbitrary stream of natural numbers, so no particular libc sequence is
  relied on. `(size_t)rand() % num_open` is taken on those numbers.
- `main`'s argument handling, `strtoul` and `errno` are not modelled. They
  are CLI plumbing around library code that is not part of this model.
- `FILE` output is not modelled. `print_quoted_char` and `print_quoted_str`
  return the characters they would write.
- `size_t` wrap-around in `unitvec` is not modelled. Coordinates are
  unbounded integers, and every step is checked against the grid, as the
  code's guards do.
- Quote.PrintQuotedStr: takes the string as a sequence without its
  terminating NUL, so it requires that sequence to hold no NUL byte, as a C
  string cannot.
- Carver.RandPath: does not state that the carver succeeds. The code ignores
  the result (`src/maze.c:494`), and success depends on the draws.
- Carver.Randomize: states the outline, not global maze shape. The code does
  not establish a spanning tree, acyclicity or connectivity, so these are not
  claimed.
- Cache.CacheUpdate: the found cell and the two queues are returned as ghost
  results, because the C function returns nothing and keeps them in locals
  (`found`, `visited`). The second-phase links (`via`) are proof-only
  bookkeeping that the C code does not keep.
- Carver.RandPath: the "Visited cells are the active recursion chain" bound is
  stated as "the Visited cells are the same before and after every call" plus
  the termination measure, not as an explicit depth bound.
