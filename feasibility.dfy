/** The feasibility gates run before any search: the colouring test for open
    tours and the exclusions of Schwenk's theorem for closed tours. The open
    gate is proved to turn away only starts with no open tour; of the closed
    exclusions, odd × odd (by colouring) and widths 1 and 2 (by a corner
    argument) are proved to turn away only boards with no closed tour. */
module Feasibility {
  import opened Geometry

  /** The test of startBackTracking: both sides odd and the start square's
      coordinate sum odd. */
  predicate OpenTourExcluded(sizeX: int, sizeY: int, initial: Coord)
  {
    (sizeX % 2 != 0 && sizeY % 2 != 0) && (initial.x + initial.y) % 2 != 0
  }

  /** The test of startBackTrackingClosed, as the program writes it: both
      sides odd, a width of 1, 2 or 4, or a width of 3 with a height of 4, 6
      or 8. The transposed cases (a height of 1, 2 or 4, ...) are not tested. */
  predicate ClosedTourExcluded(sizeX: int, sizeY: int)
  {
    (sizeX % 2 != 0 && sizeY % 2 != 0) || (sizeX == 1 || sizeX == 2 || sizeX == 4)
      || (sizeX == 3 && (sizeY == 4 || sizeY == 6 || sizeY == 8))
  }

  /** The colour of a square on the chequered board: 0 or 1. */
  function Colour(c: Coord): int
  {
    (c.x + c.y) % 2
  }

  lemma KnightMoveFlipsColour(a: Coord, b: Coord)
    requires IsKnightMove(a, b)
    ensures Colour(b) == 1 - Colour(a)
  {}

  /** Along a knight path the colours alternate. */
  lemma {:induction false} PathColours(path: seq<Coord>, k: int)
    requires KnightPath(path) && 0 <= k < |path|
    ensures Colour(path[k]) == (Colour(path[0]) + k) % 2
  {
    if k > 0 {
      PathColours(path, k - 1);
      assert KnightStep(path, k - 1);
      KnightMoveFlipsColour(path[k - 1], path[k]);
    }
  }

  /** On a board of odd width a cell number has the parity of its square's
      colour. */
  lemma IndexParity(sizeX: int, c: Coord)
    requires sizeX % 2 == 1
    ensures Index(sizeX, c) % 2 == Colour(c)
  {
    var m := sizeX / 2;
    assert c.y * sizeX == 2 * (m * c.y) + c.y;
  }

  lemma OddProduct(a: int, b: int)
    requires a % 2 == 1 && b % 2 == 1
    ensures (a * b) % 2 == 1
  {
    var p, q := a / 2, b / 2;
    assert a * b == 2 * (2 * p * q + p + q) + 1;
  }

  /** The odd cell numbers below n. */
  ghost function OddCellsBelow(n: int): set<int>
  {
    set i | 0 <= i < n && i % 2 == 1
  }

  lemma {:induction false} OddCellsCount(n: nat)
    ensures |OddCellsBelow(n)| == n / 2
  {
    if n > 0 {
      OddCellsCount(n - 1);
      if (n - 1) % 2 == 1 {
        assert OddCellsBelow(n) == OddCellsBelow(n - 1) + {n - 1};
      } else {
        assert OddCellsBelow(n) == OddCellsBelow(n - 1);
      }
    }
  }

  /** The cells of the squares a path visits at its even-numbered steps below n. */
  ghost function EvenStepCells(sizeX: int, path: seq<Coord>, n: int): set<int>
    requires n <= |path|
  {
    set k | 0 <= k < n && k % 2 == 0 :: Index(sizeX, path[k])
  }

  lemma {:induction false} EvenStepCellsCount(sizeX: int, sizeY: int, path: seq<Coord>, n: nat)
    requires n <= |path|
    requires forall k :: 0 <= k < |path| ==> OnBoard(sizeX, sizeY, path[k])
    requires forall k, l :: 0 <= k < l < |path| ==> path[k] != path[l]
    ensures |EvenStepCells(sizeX, path, n)| == (n + 1) / 2
  {
    if n > 0 {
      EvenStepCellsCount(sizeX, sizeY, path, n - 1);
      var before := EvenStepCells(sizeX, path, n - 1);
      if (n - 1) % 2 == 0 {
        var cell := Index(sizeX, path[n - 1]);
        forall k | 0 <= k < n - 1 && k % 2 == 0 ensures Index(sizeX, path[k]) != cell {
          if Index(sizeX, path[k]) == cell {
            IndexInjective(sizeX, sizeY, path[k], path[n - 1]);
          }
        }
        assert EvenStepCells(sizeX, path, n) == before + {cell};
      } else {
        assert EvenStepCells(sizeX, path, n) == before;
      }
    }
  }

  lemma SubsetCardinality(a: set<int>, b: set<int>)
    requires a <= b
    ensures |a| <= |b|
  {
    assert b == a + (b - a);
  }

  /** Soundness of the open-tour gate: on a board with both sides odd, every
      open tour starts on a square with an even coordinate sum, so a start
      the gate rejects has no tour. */
  lemma OpenGateSound(sizeX: int, sizeY: int, tour: seq<Coord>)
    requires sizeX >= 1 && sizeY >= 1
    requires Tour(sizeX, sizeY, tour)
    ensures |tour| > 0 && !OpenTourExcluded(sizeX, sizeY, tour[0])
  {
    MulNonNegative(sizeX - 1, sizeY - 1);
    if sizeX % 2 != 0 && sizeY % 2 != 0 {
      OddProduct(sizeX, sizeY);
      OddPathStartsEven(sizeX, sizeY, tour);
    }
  }

  /** A knight path through as many different squares as an odd × odd board
      has starts on colour 0: its (N+1)/2 even-numbered steps share the
      start's colour, and only (N-1)/2 cells have colour 1. */
  lemma OddPathStartsEven(sizeX: int, sizeY: int, path: seq<Coord>)
    requires sizeX % 2 == 1 && |path| % 2 == 1 && |path| == sizeX * sizeY
    requires forall k :: 0 <= k < |path| ==> OnBoard(sizeX, sizeY, path[k])
    requires forall k, l :: 0 <= k < l < |path| ==> path[k] != path[l]
    requires KnightPath(path)
    ensures Colour(path[0]) == 0
  {
    var n := |path|;
    if Colour(path[0]) == 1 {
      var cells := EvenStepCells(sizeX, path, n);
      EvenStepCellsCount(sizeX, sizeY, path, n);
      var odd := OddCellsBelow(n);
      forall k | 0 <= k < n && k % 2 == 0 ensures Index(sizeX, path[k]) in odd {
        PathColours(path, k);
        IndexParity(sizeX, path[k]);
        IndexInRange(sizeX, sizeY, path[k]);
      }
      SubsetCardinality(cells, odd);
      OddCellsCount(n);
    }
  }

  /** On a board of width two the corner (0, 0) has the single on-board knight
      neighbour (1, 2). */
  lemma CornerNeighbour(sizeY: int, d: Coord)
    requires OnBoard(2, sizeY, d) && IsKnightMove(Coord(0, 0), d)
    ensures d == Coord(1, 2)
  {}

  /** Soundness of the closed-tour gate for the exclusions it can be shown for
      here: no closed tour exists when both sides are odd (the colours cannot
      alternate around a cycle of odd length), nor on a board of width one (no
      knight move stays on it) or of width two (the corner has one neighbour,
      but a cycle needs two). */
  lemma ClosedGateSound(sizeX: int, sizeY: int, tour: seq<Coord>)
    requires sizeX >= 1 && sizeY >= 1
    requires ClosedTour(sizeX, sizeY, tour)
    ensures !(sizeX % 2 != 0 && sizeY % 2 != 0)
    ensures sizeX != 1 && sizeX != 2
  {
    ClosedTourEvenLength(sizeX, sizeY, tour);
    if sizeX % 2 != 0 && sizeY % 2 != 0 {
      OddProduct(sizeX, sizeY);
    }
    ClosedTourWidth(sizeX, sizeY, tour);
  }

  /** A closed tour has an even number of squares. */
  lemma ClosedTourEvenLength(sizeX: int, sizeY: int, tour: seq<Coord>)
    requires ClosedTour(sizeX, sizeY, tour)
    ensures |tour| % 2 == 0
  {
    var n := |tour|;
    PathColours(tour, n - 1);
    KnightMoveFlipsColour(tour[n - 1], tour[0]);
  }

  lemma ClosedTourWidth(sizeX: int, sizeY: int, tour: seq<Coord>)
    requires sizeX >= 1 && sizeY >= 1
    requires ClosedTour(sizeX, sizeY, tour)
    ensures sizeX != 1 && sizeX != 2
  {
    var n := |tour|;
    assert OnBoard(sizeX, sizeY, tour[0]) && OnBoard(sizeX, sizeY, tour[n - 1]);
    assert OnBoard(sizeX, sizeY, Coord(0, 0));
    var k :| 0 <= k < n && tour[k] == Coord(0, 0);
    CornerHasOneNeighbour(sizeX, sizeY, tour, k);
  }

  /** A closed knight path through all the squares of a board passes its
      corner (0, 0) between two different knight neighbours of the corner,
      which a board of width two does not have. */
  lemma CornerHasOneNeighbour(sizeX: int, sizeY: int, cycle: seq<Coord>, k: int)
    requires |cycle| == sizeX * sizeY
    requires forall j :: 0 <= j < |cycle| ==> OnBoard(sizeX, sizeY, cycle[j])
    requires forall j, l :: 0 <= j < l < |cycle| ==> cycle[j] != cycle[l]
    requires 0 <= k < |cycle| && cycle[k] == Coord(0, 0)
    requires KnightPath(cycle) && IsKnightMove(cycle[|cycle| - 1], cycle[0])
    ensures sizeX != 2
  {
    var n := |cycle|;
    var succ := if k + 1 < n then k + 1 else 0;
    var pred := if k > 0 then k - 1 else n - 1;
    if k + 1 < n {
      assert KnightStep(cycle, k);
    }
    if k > 0 {
      assert KnightStep(cycle, k - 1);
    }
    if sizeX == 2 {
      CornerNeighbour(sizeY, cycle[succ]);
      CornerNeighbour(sizeY, cycle[pred]);
    }
  }
}
