/** Two-dimensional integer vectors on the hexagonal grid.

    The game allocates a new `Vec2` object for every coordinate it computes and
    compares coordinates only through `Array.indexOf`, that is, by object
    identity. The model therefore keeps `Vec2` as a class whose coordinates never
    change after construction, and gives each object a value view, `Cell`, for
    reasoning about positions. */
module Vectors {

  /** The value of a grid coordinate: column `x`, row `y`. Equality is by value. */
  datatype Cell = Cell(x: int, y: int)

  /** A coordinate object. The game never writes to `x` or `y` after construction. */
  class Vec2 {
    const x: int
    const y: int

    constructor (x: int, y: int)
      ensures this.x == x && this.y == y
    {
      this.x := x;
      this.y := y;
    }

    /** The position this object stands for. */
    function Value(): Cell {
      Cell(x, y)
    }
  }

  /** Component-wise sum of two positions. */
  function Plus(a: Cell, b: Cell): Cell {
    Cell(a.x + b.x, a.y + b.y)
  }

  /** `Vec2Math.add`: a new object whose coordinates are the sums of the arguments'. */
  method Add(v1: Vec2, v2: Vec2) returns (r: Vec2)
    ensures fresh(r)
    ensures r.Value() == Plus(v1.Value(), v2.Value())
  {
    r := new Vec2(v1.x + v2.x, v1.y + v2.y);
  }
}
