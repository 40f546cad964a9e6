/** Squares of a sizeX × sizeY board, their cell numbers in the flat board and
    step arrays, and the knight's move generator with its rotation. */
module Geometry {

  /** A square (x, y), 0-indexed: the program's `coord` struct. */
  datatype Coord = Coord(x: int, y: int)

  /** The sentinel square (-1, -1): "no destination" for an open tour. */
  const Invalid: Coord := Coord(-1, -1)

  /** The cell of square c in the flat arrays: `y*sizeX + x`. */
  function Index(sizeX: int, c: Coord): int
  {
    c.y * sizeX + c.x
  }

  /** checkValid: whether c lies on the board. */
  predicate OnBoard(sizeX: int, sizeY: int, c: Coord)
  {
    c.x < sizeX && c.y < sizeY && c.x >= 0 && c.y >= 0
  }

  /** Every square checkValid admits names a cell inside the `sizeX*sizeY`
      arrays. */
  lemma IndexInRange(sizeX: int, sizeY: int, c: Coord)
    requires OnBoard(sizeX, sizeY, c)
    ensures 0 <= Index(sizeX, c) < sizeX * sizeY
  {
    assert 0 <= c.y * sizeX by { MulNonNegative(c.y, sizeX); }
    assert c.y * sizeX + sizeX <= sizeX * sizeY by {
      MulNonNegative(sizeY - 1 - c.y, sizeX);
      assert (sizeY - 1 - c.y) * sizeX == sizeX * sizeY - c.y * sizeX - sizeX;
    }
  }

  lemma MulNonNegative(a: int, b: int)
    requires 0 <= a && 0 <= b
    ensures 0 <= a * b
  {}

  /** Two on-board squares share a cell only if they are the same square, so
      the flat arrays hold one cell per square. */
  lemma IndexInjective(sizeX: int, sizeY: int, c: Coord, d: Coord)
    requires OnBoard(sizeX, sizeY, c) && OnBoard(sizeX, sizeY, d)
    requires Index(sizeX, c) == Index(sizeX, d)
    ensures c == d
  {
    MulNonNegative(c.y, sizeX);
    MulNonNegative(d.y, sizeX);
    RowsApart(c.y, d.y, sizeX);
    RowsApart(d.y, c.y, sizeX);
  }

  /** Cells of a lower row all come before the cells of a higher one. */
  lemma RowsApart(a: int, b: int, s: int)
    requires 0 <= s
    ensures a < b ==> a * s + s <= b * s
  {
    if a < b {
      MulNonNegative(b - a - 1, s);
      assert (b - a - 1) * s == b * s - a * s - s;
    }
  }

  function Abs(n: int): nat
  {
    if n < 0 then -n else n
  }

  /** b is one knight's move away from a: (±1, ±2) or (±2, ±1). */
  predicate IsKnightMove(a: Coord, b: Coord)
  {
    var dx, dy := Abs(b.x - a.x), Abs(b.y - a.y);
    (dx == 1 && dy == 2) || (dx == 2 && dy == 1)
  }

  /** C's `a % 8`, whose remainder truncates toward zero and so takes the
      sign of a. */
  function CRem8(a: int): (r: int)
    ensures (a - r) % 8 == 0
    ensures -8 < r < 8
    ensures a >= 0 ==> r >= 0
    ensures a <= 0 ==> r <= 0
  {
    if a >= 0 then a % 8 else -((-a) % 8)
  }

  /** The `switch` of getFieldByNumber: the eight knight offsets in the
      program's fixed order; any other number leaves pos unchanged. */
  function Step(pos: Coord, n: int): (r: Coord)
    ensures 0 <= n < 8 ==> IsKnightMove(pos, r)
    ensures !(0 <= n < 8) ==> r == pos
  {
    match n
    case 0 => Coord(pos.x + 2, pos.y + 1)
    case 1 => Coord(pos.x + 2, pos.y - 1)
    case 2 => Coord(pos.x - 2, pos.y + 1)
    case 3 => Coord(pos.x - 2, pos.y - 1)
    case 4 => Coord(pos.x + 1, pos.y + 2)
    case 5 => Coord(pos.x + 1, pos.y - 2)
    case 6 => Coord(pos.x - 1, pos.y + 2)
    case 7 => Coord(pos.x - 1, pos.y - 2)
    case _ => pos
  }

  /** The knight destinations of pos, whether on the board or not. */
  function KnightDestinations(pos: Coord): set<Coord>
  {
    set n | 0 <= n < 8 :: Step(pos, n)
  }

  /** The table of Step lists exactly the knight moves. */
  lemma KnightDestinationsAreKnightMoves(pos: Coord, d: Coord)
    ensures d in KnightDestinations(pos) <==> IsKnightMove(pos, d)
  {
    if IsKnightMove(pos, d) {
      var n :=
        if d.x - pos.x == 2 then (if d.y - pos.y == 1 then 0 else 1)
        else if d.x - pos.x == -2 then (if d.y - pos.y == 1 then 2 else 3)
        else if d.x - pos.x == 1 then (if d.y - pos.y == 2 then 4 else 5)
        else (if d.y - pos.y == 2 then 6 else 7);
      assert Step(pos, n) == d;
    }
  }

  /** The slot of the table that getFieldByNumber reads for fieldNumber and
      rotation modifier: `(fieldNumber + modifier) % 8`, turned a further
      four slots when modifier >= 8, with C's truncating remainder. */
  function Slot(fieldNumber: int, modifier: int): (n: int)
    ensures fieldNumber + modifier >= 0 ==> 0 <= n < 8
  {
    var n := CRem8(fieldNumber + modifier);
    if modifier >= 8 then CRem8(n + 4) else n
  }

  /** getFieldByNumber: the square reached by move fieldNumber under the
      rotation modifier. It is always a knight move from pos when the slot is
      non-negative; only a negative slot falls through the switch and leaves
      pos itself. */
  function FieldByNumber(pos: Coord, fieldNumber: int, modifier: int): (r: Coord)
    ensures r == pos || IsKnightMove(pos, r)
    ensures fieldNumber + modifier >= 0 ==> IsKnightMove(pos, r)
  {
    Step(pos, Slot(fieldNumber, modifier))
  }

  /** For a non-negative rotation, moves 0..7 visit the eight table slots
      each exactly once. */
  lemma SlotPermutes(modifier: int, i: int, j: int)
    requires modifier >= 0 && 0 <= i < 8 && 0 <= j < 8
    ensures Slot(i, modifier) == Slot(j, modifier) ==> i == j
  {
    SlotShift(modifier, i);
    SlotShift(modifier, j);
  }

  /** Slot as a shift of the move number by the rotation, wrapped into 0..7. */
  lemma SlotShift(modifier: int, i: int)
    requires modifier >= 0 && 0 <= i < 8
    ensures var n := i + modifier % 8 + (if modifier >= 8 then 4 else 0);
            Slot(i, modifier) == (if n < 8 then n else if n < 16 then n - 8 else n - 16)
  {
    var r := modifier % 8;
    assert (i + modifier) % 8 == (i + r) % 8 by {
      assert i + modifier == (i + r) + 8 * (modifier / 8);
    }
    if modifier >= 8 {
      assert ((i + r) % 8 + 4) % 8 == (i + r + 4) % 8;
    }
  }

  /** Every slot is reached by some move number under a non-negative rotation. */
  lemma SlotOnto(modifier: int, n: int) returns (i: int)
    requires modifier >= 0 && 0 <= n < 8
    ensures 0 <= i < 8 && Slot(i, modifier) == n
  {
    var turn := if modifier >= 8 then 4 else 0;
    i := (n - turn - modifier) % 8;
    assert (i + modifier) % 8 == (n - turn) % 8;
  }

  lemma StepInjective(pos: Coord, n: int, m: int)
    requires 0 <= n < 8 && 0 <= m < 8 && n != m
    ensures Step(pos, n) != Step(pos, m)
  {}

  /** Whatever the rotation (0–7, or >= 8 for the extra turn by four), the
      eight moves of getFieldByNumber are pairwise different and are exactly
      the eight knight destinations of pos. */
  lemma FieldByNumberPermutes(pos: Coord, modifier: int)
    requires modifier >= 0
    ensures forall i, j :: 0 <= i < 8 && 0 <= j < 8 && i != j ==>
              FieldByNumber(pos, i, modifier) != FieldByNumber(pos, j, modifier)
    ensures (set i | 0 <= i < 8 :: FieldByNumber(pos, i, modifier)) == KnightDestinations(pos)
  {
    forall i, j | 0 <= i < 8 && 0 <= j < 8 && i != j
      ensures FieldByNumber(pos, i, modifier) != FieldByNumber(pos, j, modifier)
    {
      SlotPermutes(modifier, i, j);
      StepInjective(pos, Slot(i, modifier), Slot(j, modifier));
    }
    var moves := set i | 0 <= i < 8 :: FieldByNumber(pos, i, modifier);
    forall d | d in KnightDestinations(pos) ensures d in moves {
      var n :| 0 <= n < 8 && d == Step(pos, n);
      var i := SlotOnto(modifier, n);
      assert d == FieldByNumber(pos, i, modifier);
    }
  }

  /** Step k of path, from path[k] to path[k+1], is a knight move. */
  ghost predicate KnightStep(path: seq<Coord>, k: int)
    requires 0 <= k < |path| - 1
  {
    IsKnightMove(path[k], path[k + 1])
  }

  /** A sequence of squares each one knight's move from the one before. */
  ghost predicate KnightPath(path: seq<Coord>)
  {
    forall k :: 0 <= k < |path| - 1 ==> KnightStep(path, k)
  }

  /** An open knight's tour: a knight path through every square of the board
      exactly once. */
  ghost predicate Tour(sizeX: int, sizeY: int, path: seq<Coord>)
  {
    && |path| == sizeX * sizeY
    && (forall k :: 0 <= k < |path| ==> OnBoard(sizeX, sizeY, path[k]))
    && (forall k, l :: 0 <= k < l < |path| ==> path[k] != path[l])
    && (forall c :: OnBoard(sizeX, sizeY, c) ==> c in path)
    && KnightPath(path)
  }

  /** A closed tour: an open tour whose last square is a knight's move from its
      first, so that the path closes into a cycle. */
  ghost predicate ClosedTour(sizeX: int, sizeY: int, path: seq<Coord>)
  {
    Tour(sizeX, sizeY, path) && |path| > 0 && IsKnightMove(path[|path| - 1], path[0])
  }
}
