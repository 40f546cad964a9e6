/** The backtracking search for a knight's tour over the board and step
    arrays, and its two entry points behind the feasibility gates. */
module Search {
  import opened Geometry
  import opened Ranking
  import opened Feasibility

  /** The cells of board b not yet visited. */
  ghost function Unvisited(b: seq<bool>): set<int>
  {
    set i | 0 <= i < |b| && !b[i]
  }

  /** The cells of the squares on path. */
  ghost function Cells(sizeX: int, path: seq<Coord>): set<int>
  {
    set c | c in path :: Index(sizeX, c)
  }

  /** The step recorded for square c in the step array s (what printSteps
      reads); -1 for a square with no cell. */
  function StepAt(sizeX: int, s: seq<int>, c: Coord): int
  {
    var i := Index(sizeX, c);
    if 0 <= i < |s| then s[i] else -1
  }

  /** The terminal rule: an open search (final = (-1, -1)) may end on any
      square; any other must end one knight's move from final. */
  predicate MayEnd(last: Coord, final: Coord)
  {
    final == Invalid || IsKnightMove(last, final)
  }

  /** The squares of path carry the steps counter, counter+1, ... in order. */
  ghost predicate StepsAlong(sizeX: int, s: seq<int>, path: seq<Coord>, counter: int)
  {
    forall k :: 0 <= k < |path| ==> StepAt(sizeX, s, path[k]) == counter + k
  }

  /** The step array read square by square is a tour order: every square
      holds a step in 0..N-1, no two squares hold the same step, and the
      squares of steps k and k+1 are a knight's move apart. */
  ghost predicate StepOrder(sizeX: int, sizeY: int, s: seq<int>)
  {
    && (forall c :: OnBoard(sizeX, sizeY, c) ==> 0 <= StepAt(sizeX, s, c) < sizeX * sizeY)
    && (forall c, d :: OnBoard(sizeX, sizeY, c) && OnBoard(sizeX, sizeY, d) && c != d ==>
          StepAt(sizeX, s, c) != StepAt(sizeX, s, d))
    && (forall c, d ::
          (OnBoard(sizeX, sizeY, c) && OnBoard(sizeX, sizeY, d) &&
           StepAt(sizeX, s, d) == StepAt(sizeX, s, c) + 1) ==> IsKnightMove(c, d))
  }

  /** A route from pos for board b: a knight path from pos through every cell
      unvisited in b, once each, ending where the terminal rule allows. */
  ghost predicate Route(sizeX: int, sizeY: int, b: seq<bool>, pos: Coord, final: Coord, path: seq<Coord>)
  {
    && |path| == |Unvisited(b)| && 0 < |path| && path[0] == pos
    && (forall k :: 0 <= k < |path| ==> OnBoard(sizeX, sizeY, path[k]))
    && (forall k, l :: 0 <= k < l < |path| ==> path[k] != path[l])
    && Cells(sizeX, path) == Unvisited(b)
    && KnightPath(path)
    && MayEnd(path[|path| - 1], final)
  }

  /** Some route from pos exists for board b. */
  ghost predicate Completable(sizeX: int, sizeY: int, b: seq<bool>, pos: Coord, final: Coord)
  {
    exists path :: Route(sizeX, sizeY, b, pos, final, path)
  }

  /** What a successful search from pos commits, relating the board b0 and
      step array s0 it started from to the board b and step array s it
      leaves: path is a route from pos for b0; the board is then full; the
      path's squares carry the steps counter, counter+1, ... in order; the
      step of every cell visited in b0 is as before. */
  ghost predicate Committed(sizeX: int, sizeY: int, b0: seq<bool>, s0: seq<int>,
                           b: seq<bool>, s: seq<int>,
                           pos: Coord, final: Coord, counter: int, path: seq<Coord>)
  {
    && Route(sizeX, sizeY, b0, pos, final, path)
    && (forall i :: 0 <= i < |b| ==> b[i])
    && StepsAlong(sizeX, s, path, counter)
    && (forall i :: 0 <= i < |s| && i < |s0| && i < |b0| && b0[i] ==> s[i] == s0[i])
  }

  /** Marking an unvisited cell removes exactly that cell from the unvisited ones. */
  lemma UnvisitedMark(b: seq<bool>, i: int)
    requires 0 <= i < |b| && !b[i]
    ensures Unvisited(b[i := true]) == Unvisited(b) - {i}
    ensures |Unvisited(b[i := true])| == |Unvisited(b)| - 1
  {
    assert Unvisited(b[i := true]) == Unvisited(b) - {i};
  }

  lemma SingletonSet(s: set<int>, x: int)
    requires |s| == 1 && x in s
    ensures s == {x}
  {
    assert |s - {x}| == 0;
  }

  /** The terminal case: the last unvisited square, once the terminal rule
      holds for it, commits a path of one square. */
  lemma CommitLast(sizeX: int, sizeY: int, b0: seq<bool>, s0: seq<int>,
                   pos: Coord, final: Coord, counter: int)
    requires |b0| == |s0| == sizeX * sizeY
    requires OnBoard(sizeX, sizeY, pos) && Unvisited(b0) == {Index(sizeX, pos)}
    requires MayEnd(pos, final)
    ensures Committed(sizeX, sizeY, b0, s0, b0[Index(sizeX, pos) := true],
                      s0[Index(sizeX, pos) := counter], pos, final, counter, [pos])
  {
    var i := Index(sizeX, pos);
    IndexInRange(sizeX, sizeY, pos);
    assert Cells(sizeX, [pos]) == {i};
    var b := b0[i := true];
    forall j | 0 <= j < |b| ensures b[j] {
      if j != i {
        assert j !in Unvisited(b0);
      }
    }
  }

  /** The inductive case: a path committed from a knight neighbour of pos,
      after pos was marked, extends to a path committed from pos once pos
      records its own step. */
  lemma CommitExtend(sizeX: int, sizeY: int, b0: seq<bool>, s0: seq<int>,
                     b: seq<bool>, s: seq<int>,
                     pos: Coord, final: Coord, counter: int, path: seq<Coord>)
    requires |b0| == |s0| == |s| == sizeX * sizeY
    requires OnBoard(sizeX, sizeY, pos) && Index(sizeX, pos) in Unvisited(b0)
    requires 0 < |path|
    requires Committed(sizeX, sizeY, b0[Index(sizeX, pos) := true], s0, b, s,
                       path[0], final, counter + 1, path)
    requires IsKnightMove(pos, path[0])
    ensures Committed(sizeX, sizeY, b0, s0, b, s[Index(sizeX, pos) := counter],
                      pos, final, counter, [pos] + path)
  {
    var i := Index(sizeX, pos);
    ExtendCoverage(sizeX, sizeY, b0, pos, path);
    ExtendKnightPath(pos, path);
    ExtendSteps(sizeX, s, pos, path, counter);
    var full := [pos] + path;
    assert full[|full| - 1] == path[|path| - 1];
    var s' := s[i := counter];
    forall j | 0 <= j < |s'| && b0[j] ensures s'[j] == s0[j] {
      assert b0[i := true][j];
    }
  }

  /** The squares of a path through every cell unvisited once pos is marked,
      with pos in front, form a path through every cell unvisited before. */
  lemma ExtendCoverage(sizeX: int, sizeY: int, b0: seq<bool>, pos: Coord, path: seq<Coord>)
    requires OnBoard(sizeX, sizeY, pos) && Index(sizeX, pos) in Unvisited(b0)
    requires |path| == |Unvisited(b0[Index(sizeX, pos) := true])|
    requires forall k, l :: 0 <= k < l < |path| ==> path[k] != path[l]
    requires Cells(sizeX, path) == Unvisited(b0[Index(sizeX, pos) := true])
    ensures |[pos] + path| == |Unvisited(b0)|
    ensures forall k, l :: 0 <= k < l < |[pos] + path| ==> ([pos] + path)[k] != ([pos] + path)[l]
    ensures Cells(sizeX, [pos] + path) == Unvisited(b0)
    ensures forall k :: 0 <= k < |path| ==> Index(sizeX, path[k]) != Index(sizeX, pos)
  {
    var i := Index(sizeX, pos);
    UnvisitedMark(b0, i);
    forall k | 0 <= k < |path| ensures Index(sizeX, path[k]) != i {
      assert Index(sizeX, path[k]) in Cells(sizeX, path);
    }
    ExtendDistinct(pos, path);
    ExtendCells(sizeX, pos, path);
  }

  lemma ExtendDistinct(pos: Coord, path: seq<Coord>)
    requires forall k, l :: 0 <= k < l < |path| ==> path[k] != path[l]
    requires pos !in path
    ensures forall k, l :: 0 <= k < l < |[pos] + path| ==> ([pos] + path)[k] != ([pos] + path)[l]
  {
    var full := [pos] + path;
    forall k, l | 0 <= k < l < |full| ensures full[k] != full[l] {
      assert full[l] == path[l - 1];
      if k > 0 {
        assert full[k] == path[k - 1];
      }
    }
  }

  lemma ExtendCells(sizeX: int, pos: Coord, path: seq<Coord>)
    ensures Cells(sizeX, [pos] + path) == Cells(sizeX, path) + {Index(sizeX, pos)}
  {
    var full := [pos] + path;
    forall c | c in full ensures c == pos || c in path {
      var k :| 0 <= k < |full| && full[k] == c;
      if k > 0 { assert c == path[k - 1]; }
    }
    forall c | c in path ensures c in full {
      var k :| 0 <= k < |path| && path[k] == c;
      assert full[k + 1] == c;
    }
  }

  lemma ExtendKnightPath(pos: Coord, path: seq<Coord>)
    requires 0 < |path| && KnightPath(path) && IsKnightMove(pos, path[0])
    ensures KnightPath([pos] + path)
  {
    var full := [pos] + path;
    forall k | 0 <= k < |full| - 1 ensures KnightStep(full, k) {
      if k > 0 {
        assert KnightStep(path, k - 1);
        assert full[k] == path[k - 1] && full[k + 1] == path[k];
      }
    }
  }

  lemma ExtendSteps(sizeX: int, s: seq<int>, pos: Coord, path: seq<Coord>, counter: int)
    requires 0 <= Index(sizeX, pos) < |s|
    requires forall k :: 0 <= k < |path| ==> Index(sizeX, path[k]) != Index(sizeX, pos)
    requires StepsAlong(sizeX, s, path, counter + 1)
    ensures StepsAlong(sizeX, s[Index(sizeX, pos) := counter], [pos] + path, counter)
  {
    var full := [pos] + path;
    var s' := s[Index(sizeX, pos) := counter];
    forall k | 0 <= k < |full| ensures StepAt(sizeX, s', full[k]) == counter + k {
      if k > 0 {
        assert full[k] == path[k - 1];
        assert StepAt(sizeX, s, path[k - 1]) == counter + 1 + (k - 1);
      }
    }
  }

  /** A route of two or more squares leaves pos for a free knight neighbour
      from which a route exists once pos is marked. */
  lemma RouteNext(sizeX: int, sizeY: int, b: seq<bool>, pos: Coord, final: Coord, path: seq<Coord>)
    requires Route(sizeX, sizeY, b, pos, final, path) && |path| > 1
    ensures Index(sizeX, pos) in Unvisited(b)
    ensures OnBoard(sizeX, sizeY, path[1]) && IsKnightMove(pos, path[1])
    ensures Index(sizeX, path[1]) in Unvisited(b[Index(sizeX, pos) := true])
    ensures Completable(sizeX, sizeY, b[Index(sizeX, pos) := true], path[1], final)
  {
    RouteTail(sizeX, sizeY, b, pos, final, path);
    assert KnightStep(path, 0);
    assert Index(sizeX, path[1]) in Cells(sizeX, path[1..]) by {
      assert path[1..][0] in path[1..];
    }
  }

  /** The rest of a route of two or more squares is a route from its second
      square once its first is marked. */
  lemma RouteTail(sizeX: int, sizeY: int, b: seq<bool>, pos: Coord, final: Coord, path: seq<Coord>)
    requires Route(sizeX, sizeY, b, pos, final, path) && |path| > 1
    ensures Index(sizeX, pos) in Unvisited(b)
    ensures Route(sizeX, sizeY, b[Index(sizeX, pos) := true], path[1], final, path[1..])
  {
    TailCoverage(sizeX, sizeY, b, pos, path);
    var tail := path[1..];
    forall k | 0 <= k < |tail| - 1 ensures KnightStep(tail, k) {
      assert KnightStep(path, k + 1);
    }
    assert tail[|tail| - 1] == path[|path| - 1];
  }

  /** The squares after the first of a route cover the cells unvisited once
      its first square is marked, each once. */
  lemma TailCoverage(sizeX: int, sizeY: int, b: seq<bool>, pos: Coord, path: seq<Coord>)
    requires |path| == |Unvisited(b)| && 1 < |path| && path[0] == pos
    requires forall k :: 0 <= k < |path| ==> OnBoard(sizeX, sizeY, path[k])
    requires forall k, l :: 0 <= k < l < |path| ==> path[k] != path[l]
    requires Cells(sizeX, path) == Unvisited(b)
    ensures Index(sizeX, pos) in Unvisited(b)
    ensures |path[1..]| == |Unvisited(b[Index(sizeX, pos) := true])|
    ensures forall k :: 0 <= k < |path[1..]| ==> OnBoard(sizeX, sizeY, path[1..][k])
    ensures forall k, l :: 0 <= k < l < |path[1..]| ==> path[1..][k] != path[1..][l]
    ensures Cells(sizeX, path[1..]) == Unvisited(b[Index(sizeX, pos) := true])
  {
    var i := Index(sizeX, pos);
    assert i in Cells(sizeX, path) by {
      assert path[0] in path;
    }
    UnvisitedMark(b, i);
    var tail := path[1..];
    assert path == [pos] + tail;
    ExtendCells(sizeX, pos, tail);
    forall k | 0 <= k < |tail| ensures Index(sizeX, tail[k]) != i {
      assert tail[k] == path[k + 1];
      if Index(sizeX, tail[k]) == i {
        IndexInjective(sizeX, sizeY, tail[k], pos);
      }
    }
    assert Cells(sizeX, tail) == Cells(sizeX, path) - {i};
  }

  /** With one square left, a route exists only if the terminal rule holds
      for it. */
  lemma TerminalRoute(sizeX: int, sizeY: int, b: seq<bool>, pos: Coord, final: Coord)
    requires |Unvisited(b)| == 1
    ensures Completable(sizeX, sizeY, b, pos, final) ==> MayEnd(pos, final)
  {
    if Completable(sizeX, sizeY, b, pos, final) {
      var path :| Route(sizeX, sizeY, b, pos, final, path);
      assert path[|path| - 1] == path[0];
    }
  }

  /** With more than one square left, a route from pos exists only if one
      exists from some free knight neighbour of pos once pos is marked. */
  lemma NoRouteThrough(sizeX: int, sizeY: int, b: seq<bool>, pos: Coord, final: Coord)
    requires OnBoard(sizeX, sizeY, pos) && Index(sizeX, pos) in Unvisited(b) && |Unvisited(b)| > 1
    requires forall d :: Free(sizeX, sizeY, b[Index(sizeX, pos) := true], d) && IsKnightMove(pos, d) ==>
               !Completable(sizeX, sizeY, b[Index(sizeX, pos) := true], d, final)
    ensures !Completable(sizeX, sizeY, b, pos, final)
  {
    if Completable(sizeX, sizeY, b, pos, final) {
      var path :| Route(sizeX, sizeY, b, pos, final, path);
      RouteNext(sizeX, sizeY, b, pos, final, path);
    }
  }

  /** The candidate array covers every free knight destination of pos: when
      the unsorted array holds each free square reached by a move under a
      non-negative rotation, and no candidate of its sorted permutation
      admits a route, then no free knight neighbour of pos admits one. */
  lemma CandidatesCover(sizeX: int, sizeY: int, marked: seq<bool>, pos: Coord, final: Coord,
                        modifier: int, filled: seq<Candidate>, sorted: seq<Candidate>)
    requires modifier >= 0 && |filled| == 8 && multiset(filled) == multiset(sorted)
    requires CoversFree(sizeX, sizeY, marked, pos, modifier, filled)
    requires NoneCompletable(sizeX, sizeY, marked, final, sorted)
    ensures forall d :: Free(sizeX, sizeY, marked, d) && IsKnightMove(pos, d) ==>
              !Completable(sizeX, sizeY, marked, d, final)
  {
    FieldByNumberPermutes(pos, modifier);
    forall d | Free(sizeX, sizeY, marked, d) && IsKnightMove(pos, d)
      ensures !Completable(sizeX, sizeY, marked, d, final)
    {
      KnightDestinationsAreKnightMoves(pos, d);
      assert d in (set i | 0 <= i < 8 :: FieldByNumber(pos, i, modifier));
      var k :| 0 <= k < 8 && FieldByNumber(pos, k, modifier) == d;
      assert filled[k] in multiset(sorted);
      var j :| 0 <= j < |sorted| && sorted[j] == filled[k];
    }
  }

  /** Slot k of the candidate array holds the square of move k whenever that
      square is free. */
  ghost predicate CoversFree(sizeX: int, sizeY: int, marked: seq<bool>, pos: Coord, modifier: int,
                             candidates: seq<Candidate>)
  {
    forall k :: 0 <= k < |candidates| && Free(sizeX, sizeY, marked, FieldByNumber(pos, k, modifier)) ==>
      candidates[k].possibleSteps != -1 && candidates[k].position == FieldByNumber(pos, k, modifier)
  }

  /** No candidate in the first j slots admits a route. */
  ghost predicate FailBefore(sizeX: int, sizeY: int, marked: seq<bool>, final: Coord,
                             candidates: seq<Candidate>, j: int)
  {
    forall k :: 0 <= k < j && k < |candidates| && candidates[k].possibleSteps != -1 ==>
      !Completable(sizeX, sizeY, marked, candidates[k].position, final)
  }

  /** No candidate admits a route. */
  ghost predicate NoneCompletable(sizeX: int, sizeY: int, marked: seq<bool>, final: Coord,
                                  candidates: seq<Candidate>)
  {
    forall k :: 0 <= k < |candidates| && candidates[k].possibleSteps != -1 ==>
      !Completable(sizeX, sizeY, marked, candidates[k].position, final)
  }

  /** What collecting leaves in slot k of the candidate array: the square of
      move k under the rotation, with its onward count, when that square is
      free on b; no candidate otherwise. */
  ghost function CandidateAt(sizeX: int, sizeY: int, b: seq<bool>, pos: Coord, modifier: int, k: int): Candidate
  {
    var d := FieldByNumber(pos, k, modifier);
    if Free(sizeX, sizeY, b, d) then Candidate(d, |FreeNeighbours(sizeX, sizeY, b, d)|) else NoCandidate
  }

  /** Square d is on the board and unvisited in b. */
  ghost predicate Free(sizeX: int, sizeY: int, b: seq<bool>, d: Coord)
  {
    OnBoard(sizeX, sizeY, d) && Index(sizeX, d) in Unvisited(b)
  }

  /** The open tour a successful search from an empty board commits, read off
      the step array, is a tour order. */
  lemma TourStepOrder(sizeX: int, sizeY: int, s: seq<int>, tour: seq<Coord>)
    requires Tour(sizeX, sizeY, tour) && StepsAlong(sizeX, s, tour, 0)
    ensures StepOrder(sizeX, sizeY, s)
  {
    forall c | OnBoard(sizeX, sizeY, c)
      ensures exists k :: 0 <= k < |tour| && tour[k] == c && StepAt(sizeX, s, c) == k
    {
      var k :| 0 <= k < |tour| && tour[k] == c;
    }
    forall c, d | OnBoard(sizeX, sizeY, c) && OnBoard(sizeX, sizeY, d) &&
                  StepAt(sizeX, s, d) == StepAt(sizeX, s, c) + 1
      ensures IsKnightMove(c, d)
    {
      var k :| 0 <= k < |tour| && tour[k] == c && StepAt(sizeX, s, c) == k;
      var l :| 0 <= l < |tour| && tour[l] == d && StepAt(sizeX, s, d) == l;
      assert KnightStep(tour, k);
    }
  }

  /** The knight destinations of c that are free in b. */
  ghost function FreeNeighbours(sizeX: int, sizeY: int, b: seq<bool>, c: Coord): set<Coord>
  {
    set d | d in KnightDestinations(c) && Free(sizeX, sizeY, b, d)
  }

  /** The squares of the eight moves of the unrotated move order from c. */
  function Moves(c: Coord): seq<Coord>
  {
    seq(8, k => FieldByNumber(c, k, 0))
  }

  /** The number of squares of s that are free in b, counted one by one. */
  ghost function FreeCount(sizeX: int, sizeY: int, b: seq<bool>, s: seq<Coord>): nat
  {
    if |s| == 0 then 0
    else FreeCount(sizeX, sizeY, b, s[..|s| - 1]) + (if Free(sizeX, sizeY, b, s[|s| - 1]) then 1 else 0)
  }

  /** The squares of s that are free in b. */
  ghost function FreeIn(sizeX: int, sizeY: int, b: seq<bool>, s: seq<Coord>): set<Coord>
  {
    set d | d in s && Free(sizeX, sizeY, b, d)
  }

  /** Counting the free squares of a sequence without repeats one by one
      gives the size of the set of them. */
  lemma {:induction false} FreeCountIsCardinality(sizeX: int, sizeY: int, b: seq<bool>, s: seq<Coord>)
    requires forall i, j :: 0 <= i < j < |s| ==> s[i] != s[j]
    ensures FreeCount(sizeX, sizeY, b, s) == |FreeIn(sizeX, sizeY, b, s)|
  {
    if |s| > 0 {
      var t, x := s[..|s| - 1], s[|s| - 1];
      FreeCountIsCardinality(sizeX, sizeY, b, t);
      assert s == t + [x];
      assert x !in t;
      if Free(sizeX, sizeY, b, x) {
        assert FreeIn(sizeX, sizeY, b, s) == FreeIn(sizeX, sizeY, b, t) + {x};
      } else {
        assert FreeIn(sizeX, sizeY, b, s) == FreeIn(sizeX, sizeY, b, t);
      }
    }
  }

  /** The eight unrotated moves are the knight destinations, each once, so
      their free squares are the free knight destinations. */
  lemma MovesCount(sizeX: int, sizeY: int, b: seq<bool>, c: Coord)
    ensures FreeCount(sizeX, sizeY, b, Moves(c)) == |FreeNeighbours(sizeX, sizeY, b, c)|
  {
    var m := Moves(c);
    FieldByNumberPermutes(c, 0);
    forall i, j | 0 <= i < j < |m| ensures m[i] != m[j] {
      assert m[i] == FieldByNumber(c, i, 0) && m[j] == FieldByNumber(c, j, 0);
    }
    FreeCountIsCardinality(sizeX, sizeY, b, m);
    forall d | d in KnightDestinations(c) ensures d in m {
      var k :| 0 <= k < 8 && d == FieldByNumber(c, k, 0);
      assert m[k] == d;
    }
    assert FreeIn(sizeX, sizeY, b, m) == FreeNeighbours(sizeX, sizeY, b, c);
  }

  /** The board and step arrays of one search, with the board's size. */
  class KnightsTour {
    const sizeX: int
    const sizeY: int
    const board: array<bool>
    const steps: array<int>

    /** Both sides are at least one, both arrays have one cell per square,
        and every on-board square names a cell of them. */
    ghost predicate Valid()
    {
      && sizeX >= 1 && sizeY >= 1
      && board.Length == sizeX * sizeY && steps.Length == sizeX * sizeY
      && (forall c :: OnBoard(sizeX, sizeY, c) ==> 0 <= Index(sizeX, c) < sizeX * sizeY)
    }

    /** A board of the given size, as resetBoardAndSteps leaves it: every
        square unvisited and every step zero. */
    constructor (sizeX: int, sizeY: int)
      requires sizeX >= 1 && sizeY >= 1
      ensures Valid() && this.sizeX == sizeX && this.sizeY == sizeY
      ensures fresh(board) && fresh(steps)
      ensures forall i :: 0 <= i < board.Length ==> !board[i]
      ensures forall i :: 0 <= i < steps.Length ==> steps[i] == 0
    {
      this.sizeX, this.sizeY := sizeX, sizeY;
      MulNonNegative(sizeX, sizeY);
      board := new bool[sizeX * sizeY](_ => false);
      steps := new int[sizeX * sizeY](_ => 0);
      forall c | OnBoard(sizeX, sizeY, c) ensures 0 <= Index(sizeX, c) < sizeX * sizeY {
        IndexInRange(sizeX, sizeY, c);
      }
    }

    /** getFieldVal: a square counts as visited when it is off the board or
        its cell is marked, so it is unvisited exactly when it is on the
        board and its cell is among the unvisited ones. */
    function GetFieldVal(c: Coord): (visited: bool)
      requires Valid()
      reads board
      ensures !visited <==> OnBoard(sizeX, sizeY, c) && Index(sizeX, c) in Unvisited(board[..])
    {
      if OnBoard(sizeX, sizeY, c) then board[Index(sizeX, c)]
      else
        true
    }

    /** setFieldVal: writes the cell of c and no other. */
    method SetFieldVal(c: Coord, val: bool)
      requires Valid() && OnBoard(sizeX, sizeY, c)
      modifies board
      ensures board[..] == old(board[..])[Index(sizeX, c) := val]
    {
      board[Index(sizeX, c)] := val;
    }

    /** addStepToSteps: records step for c. The program exits when step is
        not below sizeX*sizeY; every caller here meets that bound, so the
        exit branch is unreachable. */
    method AddStepToSteps(c: Coord, step: int)
      requires Valid() && OnBoard(sizeX, sizeY, c)
      requires step < sizeX * sizeY
      modifies steps
      ensures steps[..] == old(steps[..])[Index(sizeX, c) := step]
    {
      if step < sizeX * sizeY {
        steps[Index(sizeX, c)] := step;
      } else {
        assert false;
      }
    }

    /** countPossibleSteps: the number of knight destinations of c that are on
        the board and unvisited (Warnsdorff's onward count); reads the board
        without changing it. */
    method CountPossibleSteps(c: Coord) returns (result: int)
      requires Valid()
      ensures result == |FreeNeighbours(sizeX, sizeY, board[..], c)|
      ensures 0 <= result <= 8
    {
      ghost var moves := Moves(c);
      result := 0;
      for i := 0 to 8
        invariant 0 <= result <= i
        invariant result == FreeCount(sizeX, sizeY, board[..], moves[..i])
      {
        var buffer := FieldByNumber(c, i, 0);
        assert moves[..i + 1][..i] == moves[..i] && moves[i] == buffer;
        if !GetFieldVal(buffer) {
          result := result + 1;
        }
      }
      assert moves[..8] == moves;
      MovesCount(sizeX, sizeY, board[..], c);
    }

    /** A slot of the candidate array is either empty or holds a free knight
        destination of pos with its onward count on b. */
    ghost predicate Admissible(b: seq<bool>, pos: Coord, e: Candidate)
    {
      e.possibleSteps == -1 ||
        (e.possibleSteps == |FreeNeighbours(sizeX, sizeY, b, e.position)| &&
         Free(sizeX, sizeY, b, e.position) && IsKnightMove(pos, e.position))
    }

    /** The terminal check of backTrackingAlgorithm, once the last unvisited
        square pos has been marked: succeeds, recording counter as the step of
        pos, exactly when the terminal rule holds for pos; otherwise unmarks
        pos, restoring the board b0 of before the mark. */
    method TerminalCheck(pos: Coord, final: Coord, counter: int, ghost b0: seq<bool>)
      returns (found: bool, ghost path: seq<Coord>)
      requires Valid() && OnBoard(sizeX, sizeY, pos) && counter == sizeX * sizeY - 1
      requires |b0| == board.Length && Unvisited(b0) == {Index(sizeX, pos)}
      requires board[..] == b0[Index(sizeX, pos) := true]
      modifies board, steps
      ensures found <==> MayEnd(pos, final)
      ensures found <==> Completable(sizeX, sizeY, b0, pos, final)
      ensures !found ==> board[..] == b0 && steps[..] == old(steps[..])
      ensures found ==> Committed(sizeX, sizeY, b0, old(steps[..]), board[..], steps[..],
                                  pos, final, counter, path)
    {
      for i := 0 to 8
        invariant board[..] == old(board[..]) && steps[..] == old(steps[..])
        invariant 0 < i ==> final != Invalid
        invariant forall k :: 0 <= k < i ==> FieldByNumber(pos, k, 0) != final
      {
        var buffer := FieldByNumber(pos, i, 0);
        if buffer == final || final == Invalid {
          AddStepToSteps(pos, counter);
          CommitLast(sizeX, sizeY, b0, old(steps[..]), pos, final, counter);
          found, path := true, [pos];
          return;
        }
      }
      FieldByNumberPermutes(pos, 0);
      KnightDestinationsAreKnightMoves(pos, final);
      TerminalRoute(sizeX, sizeY, b0, pos, final);
      SetFieldVal(pos, false);
      assert board[..] == b0;
      found, path := false, [];
    }

    /** The candidate array of backTrackingAlgorithm: slot i holds the square
        of move i under the rotation with its onward count when that square is
        free, and is empty (-1) otherwise. */
    method CollectCandidates(pos: Coord, modifier: int) returns (followingSteps: array<Candidate>)
      requires Valid() && GetFieldVal(pos)
      ensures fresh(followingSteps) && followingSteps.Length == 8
      ensures forall k :: 0 <= k < 8 ==> followingSteps[k] == CandidateAt(sizeX, sizeY, board[..], pos, modifier, k)
      // The two corollaries of the slots above that the rest of the search uses.
      ensures forall j :: 0 <= j < 8 ==> Admissible(board[..], pos, followingSteps[j])
      ensures CoversFree(sizeX, sizeY, board[..], pos, modifier, followingSteps[..])
    {
      ghost var b := board[..];
      followingSteps := new Candidate[8](_ => NoCandidate);
      for i := 0 to 8
        invariant board[..] == b
        invariant forall k :: 0 <= k < i ==> followingSteps[k] == CandidateAt(sizeX, sizeY, b, pos, modifier, k)
        invariant forall k :: i <= k < 8 ==> followingSteps[k] == NoCandidate
        invariant forall j :: 0 <= j < 8 ==> Admissible(b, pos, followingSteps[j])
        invariant forall k :: 0 <= k < i && Free(sizeX, sizeY, b, FieldByNumber(pos, k, modifier)) ==>
                    followingSteps[k].possibleSteps != -1 &&
                    followingSteps[k].position == FieldByNumber(pos, k, modifier)
      {
        var buffer := FieldByNumber(pos, i, modifier);
        if !GetFieldVal(buffer) {
          var onward := CountPossibleSteps(buffer);
          followingSteps[i] := Candidate(buffer, onward);
        }
      }
    }

    /** backTrackingAlgorithm: marks pos, and either completes a tour from pos
        through every unvisited square or restores the board and reports
        failure. counter is the number of squares already visited, so it is
        the step of pos; each recursive call moves to an unvisited square, so
        the number of unvisited squares falls. */
    method BackTrackingAlgorithm(pos: Coord, final: Coord, counter: int, modifier: int)
      returns (found: bool, ghost path: seq<Coord>)
      requires Valid()
      requires OnBoard(sizeX, sizeY, pos) && Index(sizeX, pos) in Unvisited(board[..])
      requires counter + |Unvisited(board[..])| == sizeX * sizeY
      modifies board, steps
      decreases |Unvisited(board[..])|, 0
      ensures !found ==> board[..] == old(board[..]) && steps[..] == old(steps[..])
      ensures modifier >= 0 ==> (found <==> Completable(sizeX, sizeY, old(board[..]), pos, final))
      ensures found ==> Committed(sizeX, sizeY, old(board[..]), old(steps[..]),
                                  board[..], steps[..], pos, final, counter, path)
    {
      var cell := Index(sizeX, pos);
      SetFieldVal(pos, true);
      UnvisitedMark(old(board[..]), cell);

      if counter == sizeX * sizeY - 1 {
        SingletonSet(Unvisited(old(board[..])), cell);
        found, path := TerminalCheck(pos, final, counter, old(board[..]));
        return;
      }

      var followingSteps := CollectCandidates(pos, modifier);
      ghost var filled := followingSteps[..];
      SortCandidates(followingSteps);
      forall j | 0 <= j < 8 ensures Admissible(board[..], pos, followingSteps[j]) {
        assert followingSteps[j] in multiset(filled);
      }
      found, path := TryCandidates(pos, final, counter, modifier, followingSteps, old(board[..]), filled);
    }

    /** The last phase of backTrackingAlgorithm, with pos marked on the board
        b0 of before the mark and the candidates sorted: tries each candidate
        in turn and stops at the first whose search succeeds, recording
        counter as the step of pos; when none succeeds, unmarks pos. The
        sorted array is a permutation of the collected one, filled. */
    method TryCandidates(pos: Coord, final: Coord, counter: int, modifier: int,
                         followingSteps: array<Candidate>, ghost b0: seq<bool>, ghost filled: seq<Candidate>)
      returns (found: bool, ghost path: seq<Coord>)
      requires Valid() && OnBoard(sizeX, sizeY, pos) && followingSteps.Length == 8
      requires |b0| == board.Length && Index(sizeX, pos) in Unvisited(b0)
      requires board[..] == b0[Index(sizeX, pos) := true]
      requires counter + |Unvisited(b0)| == sizeX * sizeY && counter != sizeX * sizeY - 1
      requires |filled| == 8 && multiset(filled) == multiset(followingSteps[..])
      requires Sorted(followingSteps[..])
      requires forall k :: 0 <= k < 8 ==> Admissible(board[..], pos, followingSteps[k])
      requires CoversFree(sizeX, sizeY, board[..], pos, modifier, filled)
      modifies board, steps
      decreases |Unvisited(board[..])|, 1
      ensures !found ==> board[..] == b0 && steps[..] == old(steps[..])
      ensures modifier >= 0 ==> (found <==> Completable(sizeX, sizeY, b0, pos, final))
      ensures found ==> Committed(sizeX, sizeY, b0, old(steps[..]), board[..], steps[..],
                                  pos, final, counter, path)
      ensures found ==> 1 < |path|
      ensures found ==> exists j :: 0 <= j < 8 && followingSteps[j].possibleSteps != -1 &&
                          followingSteps[j].position == path[1] &&
                          followingSteps[j].possibleSteps ==
                            |FreeNeighbours(sizeX, sizeY, b0[Index(sizeX, pos) := true], path[1])| &&
                          (forall k :: 0 <= k < j ==>
                             followingSteps[k].possibleSteps <= followingSteps[j].possibleSteps) &&
                          (modifier >= 0 ==> FailBefore(sizeX, sizeY, b0[Index(sizeX, pos) := true], final,
                                                        followingSteps[..], j))
    {
      ghost var marked := board[..];
      UnvisitedMark(b0, Index(sizeX, pos));

      for j := 0 to 8
        invariant board[..] == marked && steps[..] == old(steps[..])
        invariant modifier >= 0 ==> FailBefore(sizeX, sizeY, marked, final, followingSteps[..], j)
      {
        if followingSteps[j].possibleSteps != -1 {
          var next := followingSteps[j].position;
          var ok, rest := BackTrackingAlgorithm(next, final, counter + 1, modifier);
          if ok {
            CommitExtend(sizeX, sizeY, b0, old(steps[..]), board[..], steps[..],
                         pos, final, counter, rest);
            AddStepToSteps(pos, counter);
            found, path := true, [pos] + rest;
            assert path[1] == next;
            return;
          }
        }
      }

      if modifier >= 0 {
        assert NoneCompletable(sizeX, sizeY, marked, final, followingSteps[..]);
        CandidatesCover(sizeX, sizeY, marked, pos, final, modifier, filled, followingSteps[..]);
        NoRouteThrough(sizeX, sizeY, b0, pos, final);
      }
      SetFieldVal(pos, false);
      found, path := false, [];
    }

    /** backTracking: one search from initial over an empty board, with
        rotation 0. On success the step array holds a tour from initial,
        ending where the terminal rule allows. */
    method BackTracking(initial: Coord, final: Coord) returns (found: bool, ghost tour: seq<Coord>)
      requires Valid() && OnBoard(sizeX, sizeY, initial)
      requires forall i :: 0 <= i < board.Length ==> !board[i]
      modifies board, steps
      ensures found <==> exists t :: TourFrom(sizeX, sizeY, initial, final, t)
      ensures !found ==> board[..] == old(board[..]) && steps[..] == old(steps[..])
      ensures found ==> TourFrom(sizeX, sizeY, initial, final, tour) && StepsAlong(sizeX, steps[..], tour, 0)
      ensures found ==> forall i :: 0 <= i < board.Length ==> board[i]
    {
      ghost var b0 := board[..];
      UnvisitedEmptyBoard(b0);
      forall t | TourFrom(sizeX, sizeY, initial, final, t) ensures Route(sizeX, sizeY, b0, initial, final, t) {
        TourIsRoute(sizeX, sizeY, b0, initial, final, t);
      }
      found, tour := BackTrackingAlgorithm(initial, final, 0, 0);
      if found {
        RouteIsTour(sizeX, sizeY, b0, initial, final, tour);
      }
    }

    /** startBackTracking: rejects, without touching the board, a start whose
        colour the gate rules out; otherwise searches for an open tour. The
        gate only rejects starts from which no open tour exists, so the
        search succeeds exactly when an open tour from initial exists. */
    method StartBackTracking(initial: Coord) returns (found: bool, ghost tour: seq<Coord>)
      requires Valid() && OnBoard(sizeX, sizeY, initial)
      requires forall i :: 0 <= i < board.Length ==> !board[i]
      modifies board, steps
      ensures OpenTourExcluded(sizeX, sizeY, initial) ==> !found
      ensures found <==> exists t :: TourFrom(sizeX, sizeY, initial, Invalid, t)
      ensures !found ==> board[..] == old(board[..]) && steps[..] == old(steps[..])
      ensures found ==> Tour(sizeX, sizeY, tour) && tour[0] == initial
      ensures found ==> forall i :: 0 <= i < board.Length ==> board[i]
      ensures found ==> StepsAlong(sizeX, steps[..], tour, 0) && StepOrder(sizeX, sizeY, steps[..])
    {
      forall t | TourFrom(sizeX, sizeY, initial, Invalid, t)
        ensures !OpenTourExcluded(sizeX, sizeY, initial)
      {
        OpenGateSound(sizeX, sizeY, t);
      }
      if OpenTourExcluded(sizeX, sizeY, initial) {
        return false, [];
      }
      found, tour := BackTracking(initial, Invalid);
      if found {
        TourStepOrder(sizeX, sizeY, steps[..], tour);
      }
    }

    /** startBackTrackingClosed: rejects, without touching the board, the
        board sizes the gate rules out; otherwise searches for a tour whose
        last square is a knight's move from initial, and succeeds exactly
        when such a closed tour exists. */
    method StartBackTrackingClosed(initial: Coord) returns (found: bool, ghost tour: seq<Coord>)
      requires Valid() && OnBoard(sizeX, sizeY, initial)
      requires forall i :: 0 <= i < board.Length ==> !board[i]
      modifies board, steps
      ensures ClosedTourExcluded(sizeX, sizeY) ==> !found
      ensures !ClosedTourExcluded(sizeX, sizeY) ==>
                (found <==> exists t :: ClosedTour(sizeX, sizeY, t) && t[0] == initial)
      ensures !found ==> board[..] == old(board[..]) && steps[..] == old(steps[..])
      ensures found ==> ClosedTour(sizeX, sizeY, tour) && tour[0] == initial
      ensures found ==> forall i :: 0 <= i < board.Length ==> board[i]
      ensures found ==> StepsAlong(sizeX, steps[..], tour, 0) && StepOrder(sizeX, sizeY, steps[..])
    {
      if ClosedTourExcluded(sizeX, sizeY) {
        return false, [];
      }
      forall t | ClosedTour(sizeX, sizeY, t) && t[0] == initial
        ensures TourFrom(sizeX, sizeY, initial, initial, t)
      {
      }
      found, tour := BackTracking(initial, initial);
      if found {
        TourStepOrder(sizeX, sizeY, steps[..], tour);
      }
    }
  }

  /** On an empty board every cell is unvisited. */
  lemma {:induction false} UnvisitedEmptyBoard(b: seq<bool>)
    requires forall i :: 0 <= i < |b| ==> !b[i]
    ensures |Unvisited(b)| == |b|
  {
    if |b| > 0 {
      var front := b[..|b| - 1];
      UnvisitedEmptyBoard(front);
      assert Unvisited(b) == Unvisited(front) + {|b| - 1};
    }
  }

  /** A tour of the board that starts on initial and ends where the terminal
      rule allows for final. */
  ghost predicate TourFrom(sizeX: int, sizeY: int, initial: Coord, final: Coord, tour: seq<Coord>)
  {
    Tour(sizeX, sizeY, tour) && 0 < |tour| && tour[0] == initial && MayEnd(tour[|tour| - 1], final)
  }

  /** Every cell of the flat arrays is the cell of an on-board square. */
  lemma CellSquare(sizeX: int, sizeY: int, i: int)
    requires sizeX >= 1 && 0 <= i < sizeX * sizeY
    ensures OnBoard(sizeX, sizeY, Coord(i % sizeX, i / sizeX))
    ensures Index(sizeX, Coord(i % sizeX, i / sizeX)) == i
  {
    var q := i / sizeX;
    RowsApart(sizeY - 1, q, sizeX);
    assert (sizeY - 1) * sizeX + sizeX == sizeX * sizeY;
    MulNonNegative(q, sizeX);
  }

  /** From an empty board, a route is a tour from initial. */
  lemma RouteIsTour(sizeX: int, sizeY: int, b0: seq<bool>, initial: Coord, final: Coord, tour: seq<Coord>)
    requires |b0| == sizeX * sizeY && forall i :: 0 <= i < |b0| ==> !b0[i]
    requires Route(sizeX, sizeY, b0, initial, final, tour)
    ensures TourFrom(sizeX, sizeY, initial, final, tour)
  {
    UnvisitedEmptyBoard(b0);
    forall c | OnBoard(sizeX, sizeY, c) ensures c in tour {
      IndexInRange(sizeX, sizeY, c);
      assert Index(sizeX, c) in Cells(sizeX, tour);
      var d :| d in tour && Index(sizeX, d) == Index(sizeX, c);
      IndexInjective(sizeX, sizeY, c, d);
    }
  }

  /** From an empty board, a tour from initial is a route. */
  lemma TourIsRoute(sizeX: int, sizeY: int, b0: seq<bool>, initial: Coord, final: Coord, tour: seq<Coord>)
    requires sizeX >= 1 && |b0| == sizeX * sizeY && forall i :: 0 <= i < |b0| ==> !b0[i]
    requires TourFrom(sizeX, sizeY, initial, final, tour)
    ensures Route(sizeX, sizeY, b0, initial, final, tour)
  {
    UnvisitedEmptyBoard(b0);
    forall i | i in Unvisited(b0) ensures i in Cells(sizeX, tour) {
      CellSquare(sizeX, sizeY, i);
      var c := Coord(i % sizeX, i / sizeX);
      assert c in tour;
    }
    forall c | c in tour ensures Index(sizeX, c) in Unvisited(b0) {
      IndexInRange(sizeX, sizeY, c);
    }
  }
}
