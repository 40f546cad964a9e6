# Knight's Tour search, modelled in Dafny

The program searches for a knight's tour of a `sizeX × sizeY` board. A tour visits
every square exactly once. The search is a depth-first backtracking search
(`backTrackingAlgorithm`) over two flat arrays:

- `board` marks the visited squares;
- `steps` records the visit order, as cell `y*sizeX + x`.

Candidate next squares are ranked by Warnsdorff's rule: fewest onward moves first.
Two gates run before any search:

- an open tour is refused on an odd × odd board when the start square's coordinate
  sum is odd (a colouring argument);
- a closed tour is refused for the board sizes Schwenk's theorem rules out, as far as
  the program tests them.

The model has four modules:

- `Geometry` (`geometry.dfy`): squares, `checkValid`, the flat cell number, the
  `getFieldByNumber` move table with its rotation `modifier` and C's truncating `%`,
  and what open and closed tours are.
- `Ranking` (`ranking.dfy`): the `extCoord` record as `Candidate`, the integer key of
  `compare`, and the sort that stands in for `qsort`.
- `Feasibility` (`feasibility.dfy`): the two gate tests as written. It proves, by
  colouring, that the open gate turns away only starts with no open tour. For the
  closed gate it proves the odd × odd exclusion by colouring and the width-1 and
  width-2 exclusions by a corner argument.
- `Search` (`search.dfy`): class `KnightsTour`. It holds `board` and `steps` as arrays
  and has one method per C function of the search. The specification functions and
  lemmas the methods are proved against sit beside it:
  - `Route`: a knight path from a square through exactly the unvisited squares,
    ending where the terminal rule allows;
  - `Completable`: some route exists;
  - `Committed`: what a successful search leaves in the arrays.

Properties proved:

- The board is restored exactly when a search fails.
- On success, `steps` holds a tour: every square once, step values a permutation of
  `0 .. sizeX*sizeY-1`, and consecutive steps a knight's move apart.
- The `exit(1)` in `addStepToSteps` is unreachable.
- The recursion terminates, because the number of unvisited squares falls.
- For any non-negative rotation the search is complete: it succeeds exactly when a
  route exists. So `startBackTracking` succeeds exactly when an open tour from the
  start square exists.

## Model

| member | source | states |
|---|---|---|
| Geometry.Coord | main.c:15-18 | the `coord` struct: a square `(x, y)`, 0-indexed |
| Geometry.OnBoard | main.c:38-40 | `checkValid`: a square is on the board exactly when `0 <= x < sizeX` and `0 <= y < sizeY` |
| Geometry.Index | main.c:49 | the cell of a square in the flat `board` and `steps` arrays is `y*sizeX + x` |
| Geometry.Invalid | main.c:29 | the sentinel square `(-1, -1)` that asks for an open tour; it is never on the board |
| Geometry.Step | main.c:76-109 | the `switch` of `getFieldByNumber`: each of the entries 0..7 is a knight's move from `pos`; any other number leaves `pos` unchanged |
| Geometry.IndexInRange | main.c:38-40 | every square `checkValid` admits has its cell `y*sizeX + x` inside the `sizeX*sizeY` arrays |
| Geometry.IndexInjective | main.c:49 | two on-board squares share a cell only if they are the same square |
| Geometry.CRem8 | main.c:74 | C's `% 8`: differs from its operand by a multiple of 8, lies strictly between -8 and 8, and takes the operand's sign |
| Geometry.Slot | main.c:74-75 | the slot read for a move number and rotation lies in 0..7 whenever their sum is non-negative |
| Geometry.FieldByNumber | main.c:73-111 | `getFieldByNumber` returns a knight's move from `pos` whenever move number plus rotation is non-negative; otherwise it returns a knight's move or `pos` itself |
| Geometry.KnightDestinationsAreKnightMoves | main.c:76-109 | the eight table entries are exactly the squares a knight's move away |
| Geometry.SlotPermutes | main.c:74-75 | under a non-negative rotation, distinct move numbers 0..7 read distinct slots, including the extra turn by four when `modifier >= 8` |
| Geometry.SlotShift | main.c:74-75 | the slot is the move number shifted by `modifier % 8`, plus four when `modifier >= 8`, wrapped into 0..7 |
| Geometry.SlotOnto | main.c:74-75 | under a non-negative rotation every slot 0..7 is read by some move number |
| Geometry.FieldByNumberPermutes | main.c:73-111 | under any non-negative rotation the eight moves are pairwise different and are exactly the eight knight destinations |
| Ranking.Candidate | main.c:20-23 | the `extCoord` record: a square and its number of onward moves |
| Ranking.NoCandidate | main.c:198-204 | the initial value of every candidate slot: `possibleSteps` is -1 and the position is zero-filled |
| Ranking.Compare | main.c:147-163 | the integer key of `compare` is negative, zero or positive exactly as the first candidate has fewer, as many or more onward moves |
| Ranking.SortCandidates | main.c:216-218 | the candidates end sorted by onward count and are a permutation of what they were |
| Feasibility.OpenTourExcluded | main.c:266 | the open gate's test: both sides odd and the start square's coordinate sum odd |
| Feasibility.ClosedTourExcluded | main.c:282-283 | the closed gate's test as written: both sides odd, a width of 1, 2 or 4, or a width of 3 with a height of 4, 6 or 8 |
| Feasibility.PathColours | main.c:266 | along a knight path the square colours alternate |
| Feasibility.OpenGateSound | main.c:266-269 | every open tour of a board starts on a square the open gate lets through, so the gate refuses only starts without a tour |
| Feasibility.OddPathStartsEven | main.c:266 | on an odd × odd board a knight path through every square starts on a square with an even coordinate sum |
| Feasibility.ClosedGateSound | main.c:282-286 | a board with a closed tour has neither both sides odd nor a width of 1 or 2 |
| Feasibility.ClosedTourEvenLength | main.c:282 | a closed tour has an even number of squares |
| Feasibility.ClosedTourWidth | main.c:282 | no closed tour exists on a board of width 1 or 2 |
| Feasibility.CornerHasOneNeighbour | main.c:282 | a closed tour cannot pass a corner of a width-2 board, which has only one knight neighbour |
| Search.KnightsTour | main.c:25-27 | the globals `board`, `sizeX`, `sizeY` and `steps` as fields; `Valid()` states that both sides are at least one and both arrays have `sizeX*sizeY` cells, one per on-board square |
| Search.MayEnd | main.c:188-189 | an open search (`final` = `(-1,-1)`) may end on any square; any other must end a knight's move from `final` |
| Search.KnightsTour.constructor | main.c:295-298 | `resetBoardAndSteps`: fresh arrays of `sizeX*sizeY` cells, every square unvisited and every step zero |
| Search.KnightsTour.GetFieldVal | main.c:47-53 | a square reads as unvisited exactly when it is on the board and its cell is unmarked; off-board squares read as visited |
| Search.KnightsTour.SetFieldVal | main.c:60-62 | writes the square's own cell and no other |
| Search.KnightsTour.AddStepToSteps | main.c:120-127 | writes the step into the square's own cell and no other; callers always pass a step below `sizeX*sizeY`, so the `exit(1)` branch is unreachable |
| Search.KnightsTour.CountPossibleSteps | main.c:135-145 | the count is the number of knight destinations that are on the board and unvisited, lies in 0..8, and leaves the board unchanged |
| Search.MovesCount | main.c:138-143 | the eight rotation-0 moves hit each free knight neighbour exactly once, so counting hits counts the free neighbours |
| Search.FreeCountIsCardinality | main.c:138-143 | over distinct squares, the loop's running count equals the number of free squares among them |
| Search.KnightsTour.TerminalCheck | main.c:185-196 | on the last square, succeeds exactly when `final` is `(-1,-1)` or a knight's move away, and exactly when a route exists; on success `pos` stays marked with step `counter`; on failure the board is restored |
| Search.KnightsTour.CollectCandidates | main.c:198-214 | slot `k` holds the square of move `k` under the rotation together with its number of free onward moves when that square is free, and stays empty (`possibleSteps` -1) otherwise; every filled slot is a free knight neighbour; the board is not changed |
| Search.KnightsTour.TryCandidates | main.c:216-231 | given the candidates sorted by onward count, tries them in that order (Warnsdorff's rule) and stops at the first whose search succeeds; the committed next square is that candidate, with its true onward count, and no earlier candidate has more onward moves or admits a route; commits `pos` with step `counter`; restores the board when none succeeds; succeeds exactly when a route exists (non-negative rotation) |
| Search.KnightsTour.BackTrackingAlgorithm | main.c:182-232 | on failure the board and steps are exactly as at entry; on success `steps` records a route through every unvisited square, numbered from `counter`, ending as the terminal rule allows; for a non-negative rotation it succeeds exactly when such a route exists |
| Search.KnightsTour.BackTracking | main.c:242-256 | from an empty board, succeeds exactly when a tour from `initial` exists that ends as the terminal rule allows for `final`; on success `steps` numbers that tour and every square is marked visited; on failure nothing changes |
| Search.KnightsTour.StartBackTracking | main.c:265-271 | refuses, without touching the arrays, starts the colouring test rules out; succeeds exactly when an open tour from `initial` exists; on success every square is marked visited and `steps` is a permutation of `0..sizeX*sizeY-1` whose consecutive values sit a knight's move apart |
| Search.KnightsTour.StartBackTrackingClosed | main.c:280-288 | refuses, without touching the arrays, the sizes the gate lists; otherwise succeeds exactly when a closed tour from `initial` exists; on success the last square is a knight's move from `initial`, every square is marked visited, and `steps` is a tour order |
| Search.UnvisitedMark | main.c:183 | marking an unvisited square removes exactly its cell from the unvisited set |
| Search.CommitLast | main.c:190 | on the last square the one-square path is a route and `steps` holds its number |
| Search.CommitExtend | main.c:222-225 | a route committed from a candidate, preceded by `pos` with step `counter`, is a route from `pos` on the board before `pos` was marked |
| Search.ExtendCoverage | main.c:222-225 | prepending `pos` to a route of the marked board covers exactly the unvisited squares of the unmarked board |
| Search.ExtendKnightPath | main.c:222-225 | prepending a square a knight's move from the head keeps a knight path |
| Search.ExtendSteps | main.c:224 | recording `counter` for `pos` numbers the extended path from `counter` |
| Search.RouteNext | main.c:207-228 | a route with more than one square continues to a free knight neighbour of `pos`, from which a route exists on the marked board |
| Search.RouteTail | main.c:207-228 | the tail of a route is a route from its second square once `pos` is marked |
| Search.TerminalRoute | main.c:185-195 | with one unvisited square left, a route exists only when the terminal rule holds |
| Search.NoRouteThrough | main.c:230-231 | if no free knight neighbour admits a route after marking `pos`, none exists from `pos` |
| Search.CandidatesCover | main.c:207-221 | if no sorted candidate admits a route, no free knight neighbour of `pos` admits one |
| Search.TourStepOrder | main.c:165-167 | the steps a successful search leaves form a tour order: values in `0..sizeX*sizeY-1`, one per square, consecutive values a knight's move apart |
| Search.UnvisitedEmptyBoard | main.c:295-296 | on an empty board every cell is unvisited |
| Search.CellSquare | main.c:49 | every cell of the arrays is the cell of an on-board square |
| Search.RouteIsTour | main.c:242-256 | a route from an empty board is a tour from `initial` |
| Search.TourIsRoute | main.c:242-256 | a tour from `initial` is a route from an empty board |

## Left out

- Console I/O is not modelled: `printSteps`, `lengthInt`, `flushStdIn`, the prompt functions, `setupBoardSize`, `setupPosition`, `main` and the `printf` calls in the gates. The model assumes board sides of at least one and a start square on the board, which the prompts enforce.
- The floating-point tie-break in `compare` (main.c:152-159) is not modelled. Its `sqrt`/`pow` distance is truncated to `int`, so it is not a consistent order. Candidates with equal onward counts may come in any order, and every property above holds for any such order.
- `qsort` is not modelled. The in-place insertion sort `Ranking.SortCandidates` stands in for it. It meets the same contract: sorted by onward count, and a permutation. Its tie order may differ from the program's; no contract depends on it.
- `calloc` and `free` are not modelled: the constructor allocates fresh arrays that are all false or zero.
- The retry loop with `maxTries` (main.c:243-254) is commented out in the code and is not modelled.
- `sizeX*sizeY`, the cell numbers and the step counter are unbounded integers. C's `int` overflow on huge boards is not modelled.
- Search.KnightsTour.BackTrackingAlgorithm: completeness (success exactly when a route exists) is stated only for `modifier >= 0`. That is the only case the program uses. With a negative rotation some moves fall through the `switch` and leave `pos` unchanged, so the model states only soundness and restoration there.
- Feasibility.ClosedGateSound: it proves only the odd × odd and width 1 or 2 exclusions. The width-4 exclusion and the 3 × 4, 3 × 6 and 3 × 8 exclusions of Schwenk's theorem are not proved, so `StartBackTrackingClosed` states only that it refuses those sizes.
- The closed-tour gate is modelled as the code writes it (main.c:282-283). Schwenk's theorem also rules out boards of height 1, 2 or 4, and the 4 × 3, 6 × 3 and 8 × 3 boards. The code tests these only on the width, so a 6 × 4 board passes the gate, is searched, and fails. This costs search time but never gives a wrong answer.
- Search.KnightsTour.BackTrackingAlgorithm: the C function is split into `TerminalCheck`, `CollectCandidates` and `TryCandidates`, with the same branches and order of effects. The model's arrays are `Valid` class fields, not globals.
