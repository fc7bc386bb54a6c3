/** Directions on the hexagonal grid (`HexDirections`).

    The grid uses offset coordinates: odd columns sit half a cell lower than even
    ones, so the row change of a diagonal step depends on the parity of the
    current column. The game computes that parity with JavaScript's `%`, whose
    result carries the sign of the dividend (`-1 % 2` is `-1`), so columns left
    of the origin behave differently from the ones on the board. */
module Hex {
  import opened Vectors

  // Direction codes. They double as bit masks: bit 0 is "south", bit 1 "east",
  // bit 2 "west".
  const N := 0
  const S := 1
  const NE := 2
  const SE := 3
  const NW := 4
  const SW := 5

  const MaskS := 1
  const MaskE := 2
  const MaskW := 4

  /** The codes `move` handles; any other value falls out of its `switch`. */
  predicate IsDirection(dir: int) {
    N <= dir <= SW
  }

  function Abs(a: int): nat {
    if a < 0 then -a else a
  }

  /** JavaScript's `%` for a positive divisor: the remainder of division
      truncated toward zero. It is smaller than the divisor in magnitude, it is
      zero or has the sign of the dividend, and on a dividend that is not
      negative it agrees with the Euclidean remainder. */
  function JsRem(a: int, b: int): (r: int)
    requires b > 0
    ensures -b < r < b
    ensures r == 0 || (r < 0 <==> a < 0)
    ensures a >= 0 ==> r == a % b
  {
    var m := Abs(a) % b;
    if a < 0 then -m else m
  }

  /** Negating the dividend negates the remainder; with the agreement on
      non-negative dividends this fixes JavaScript's `%` on every dividend. */
  lemma JsRemNegated(a: int, b: int)
    requires b > 0
    ensures JsRem(-a, b) == -JsRem(a, b)
  {
  }

  /** The parity that `x % 2` yields in JavaScript: 0 on even columns, 1 on odd
      columns right of the origin, -1 on odd columns left of it. */
  lemma JsParity(x: int)
    ensures JsRem(x, 2) == if x % 2 == 0 then 0 else if x > 0 then 1 else -1
  {
  }

  /** The offset the inner `switch` of `move` builds for a step from column `x`. */
  function Step(x: int, dir: int): Cell
    requires IsDirection(dir)
  {
    if dir == N then Cell(0, -1)
    else if dir == S then Cell(0, 1)
    else if dir == NE then Cell(1, JsRem(x, 2) - 1)
    else if dir == SE then Cell(1, JsRem(x, 2))
    else if dir == NW then Cell(-1, JsRem(x, 2) - 1)
    else Cell(-1, JsRem(x, 2))
  }

  predicate IsNorthDiagonal(dir: int) {
    dir == NE || dir == NW
  }

  predicate IsSouthDiagonal(dir: int) {
    dir == SE || dir == SW
  }

  /** `HexDirections.move` on values: the cell one step from `c` in direction
      `dir`. North and south change only the row; the diagonals change the column
      by one and the row by an amount fixed by the parity of the current column. */
  function Neighbour(c: Cell, dir: int): (r: Cell)
    requires IsDirection(dir)
    ensures dir == N ==> r == Cell(c.x, c.y - 1)
    ensures dir == S ==> r == Cell(c.x, c.y + 1)
    ensures dir == NE || dir == SE ==> r.x == c.x + 1
    ensures dir == NW || dir == SW ==> r.x == c.x - 1
    ensures IsNorthDiagonal(dir) ==>
      r.y - c.y == if c.x % 2 == 0 then -1 else if c.x > 0 then 0 else -2
    ensures IsSouthDiagonal(dir) ==>
      r.y - c.y == if c.x % 2 == 0 then 0 else if c.x > 0 then 1 else -1
  {
    JsParity(c.x);
    Plus(c, Step(c.x, dir))
  }

  /** `HexDirections.move`: a new object one step from `v`. */
  method Move(v: Vec2, dir: int) returns (r: Vec2)
    requires IsDirection(dir)
    ensures fresh(r)
    ensures r.Value() == Neighbour(v.Value(), dir)
  {
    var rem := JsRem(v.x, 2);
    var offset: Vec2;
    if dir == N {
      offset := new Vec2(0, -1);
    } else if dir == S {
      offset := new Vec2(0, 1);
    } else if dir == NE {
      offset := new Vec2(1, rem - 1);
    } else if dir == SE {
      offset := new Vec2(1, rem);
    } else if dir == NW {
      offset := new Vec2(-1, rem - 1);
    } else {
      offset := new Vec2(-1, rem);
    }
    r := Add(v, offset);
  }

  /** The direction that points back: N and S, NE and SW, SE and NW. */
  function Opposite(dir: int): (r: int)
    requires IsDirection(dir)
    ensures IsDirection(r) && r != dir
  {
    if dir == N then S
    else if dir == S then N
    else if dir == NE then SW
    else if dir == SW then NE
    else if dir == SE then NW
    else SE
  }

  /** A step followed by a step in the opposite direction comes back to the start,
      as long as neither column is left of the origin. North and south always
      come back. */
  lemma OppositeReturns(c: Cell, dir: int)
    requires IsDirection(dir)
    requires dir == N || dir == S || (c.x >= 0 && Neighbour(c, dir).x >= 0)
    ensures Neighbour(Neighbour(c, dir), Opposite(dir)) == c
  {
  }

  /** Left of the origin the parity of `%` is negative and a step there and back
      misses the start cell: south-east from (-1, 0) and then north-west ends
      two rows higher, and so does north-west from (0, 0) and back. */
  lemma NegativeColumnsBreakReturn()
    ensures Neighbour(Neighbour(Cell(-1, 0), SE), NW) == Cell(-1, -2)
    ensures Neighbour(Neighbour(Cell(0, 0), NW), SE) == Cell(0, -2)
  {
  }

  /** Conversely, a diagonal step and the opposite step never come back when
      either column is left of the origin. */
  lemma NegativeColumnsNeverReturn(c: Cell, dir: int)
    requires IsDirection(dir) && dir != N && dir != S
    requires c.x < 0 || Neighbour(c, dir).x < 0
    ensures Neighbour(Neighbour(c, dir), Opposite(dir)) != c
  {
  }

  /** The six neighbours of a cell are six distinct cells, none of them the cell
      itself. */
  lemma NeighboursDistinct(c: Cell, d1: int, d2: int)
    requires IsDirection(d1) && IsDirection(d2)
    ensures Neighbour(c, d1) != c
    ensures d1 != d2 ==> Neighbour(c, d1) != Neighbour(c, d2)
  {
  }

  /** The four steps from the corner of the board. */
  lemma CornerSteps()
    ensures Neighbour(Cell(0, 0), N) == Cell(0, -1)
    ensures Neighbour(Cell(0, 0), S) == Cell(0, 1)
    ensures Neighbour(Cell(0, 0), NE) == Cell(1, -1)
    ensures Neighbour(Cell(1, 0), NE) == Cell(2, 0)
  {
    assert JsRem(0, 2) == 0 && JsRem(1, 2) == 1;
  }

  /** From the start cell (4, 2), south-east and then north-west comes back. */
  lemma StartStepAndBack()
    ensures Neighbour(Cell(4, 2), SE) == Cell(5, 2)
    ensures Neighbour(Cell(5, 2), NW) == Cell(4, 2)
  {
    assert JsRem(4, 2) == 0 && JsRem(5, 2) == 1;
  }
}
