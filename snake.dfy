/** The snake: its body runs from the tail (index 0) to the head (last index),
    it moves one cell per step in its current direction and keeps at most
    `MaxParts` parts. */
module Snakes {
  import opened Vectors
  import opened Hex

  /** Once the body is longer than this, a move drops its oldest part. */
  const MaxParts := 5

  function Last<T>(s: seq<T>): T
    requires |s| > 0
  {
    s[|s| - 1]
  }

  function Min(a: int, b: int): int {
    if a < b then a else b
  }

  /** The positions of a sequence of coordinate objects. */
  function Cells(parts: seq<Vec2>): (cs: seq<Cell>)
    ensures |cs| == |parts|
    ensures forall i :: 0 <= i < |parts| ==> cs[i] == parts[i].Value()
  {
    seq(|parts|, i requires 0 <= i < |parts| => parts[i].Value())
  }

  /** `splice(0, 1)` once the body has grown past `MaxParts`. */
  function DropOldest<T>(s: seq<T>): seq<T> {
    if |s| > MaxParts then s[1..] else s
  }

  /** The positions after dropping the oldest part are those of the objects left. */
  lemma CellsDropOldest(parts: seq<Vec2>, head: Vec2)
    ensures Cells(DropOldest(parts + [head])) == DropOldest(Cells(parts) + [head.Value()])
  {
  }

  /** One move on positions: the next head is appended and, once the body has
      grown past `MaxParts`, the tail is dropped. */
  function Advance(body: seq<Cell>, dir: int): (r: seq<Cell>)
    requires |body| >= 1 && IsDirection(dir)
    ensures |r| >= 1 && (|body| <= MaxParts ==> |r| <= MaxParts)
    ensures Last(r) == Neighbour(Last(body), dir)
  {
    DropOldest(body + [Neighbour(Last(body), dir)])
  }

  /** A move keeps the earlier parts in order, loses only the oldest one and only
      when the body was already full, and ends at the new head. */
  lemma AdvanceShape(body: seq<Cell>, dir: int)
    requires |body| >= 1 && IsDirection(dir)
    ensures var r := Advance(body, dir);
      |r| == (if |body| >= MaxParts then |body| else |body| + 1) &&
      r == body[|body| + 1 - |r|..] + [Neighbour(Last(body), dir)]
  {
  }

  /** `k` moves in the same direction. */
  function AdvanceN(body: seq<Cell>, dir: int, k: nat): (r: seq<Cell>)
    requires 1 <= |body| <= MaxParts && IsDirection(dir)
    ensures 1 <= |r| <= MaxParts
  {
    if k == 0 then body else Advance(AdvanceN(body, dir, k - 1), dir)
  }

  predicate AllDirections(dirs: seq<int>) {
    forall i :: 0 <= i < |dirs| ==> IsDirection(dirs[i])
  }

  /** One move per element of `dirs`, each in the direction the snake had at
      that move: the game may turn the snake between any two moves. */
  function AdvanceAll(body: seq<Cell>, dirs: seq<int>): (r: seq<Cell>)
    requires 1 <= |body| <= MaxParts && AllDirections(dirs)
    ensures 1 <= |r| <= MaxParts
  {
    if dirs == [] then body
    else Advance(AdvanceAll(body, dirs[..|dirs| - 1]), Last(dirs))
  }

  /** The body grows by one part per move until it holds `MaxParts` parts,
      however the snake turns on the way. */
  lemma {:induction false} AdvanceAllLength(body: seq<Cell>, dirs: seq<int>)
    requires 1 <= |body| <= MaxParts && AllDirections(dirs)
    ensures |AdvanceAll(body, dirs)| == Min(|body| + |dirs|, MaxParts)
  {
    if dirs != [] {
      var earlier := dirs[..|dirs| - 1];
      AdvanceAllLength(body, earlier);
      AdvanceShape(AdvanceAll(body, earlier), Last(dirs));
    }
  }

  /** The `k + 1` cells a head starting at `c` passes through in `k` steps. */
  function Trail(c: Cell, dir: int, k: nat): (t: seq<Cell>)
    requires IsDirection(dir)
    ensures |t| == k + 1 && t[0] == c
  {
    if k == 0 then [c]
    else
      var before := Trail(c, dir, k - 1);
      before + [Neighbour(Last(before), dir)]
  }

  /** The last `n` elements of `s`, or all of it when it is shorter. */
  function Suffix<T>(s: seq<T>, n: nat): seq<T> {
    s[|s| - Min(|s|, n)..]
  }

  /** After `k` moves from a single part, the body is exactly the last `MaxParts`
      cells of the trail its head has left, oldest first. */
  lemma {:induction false} AdvanceNFollowsTrail(c: Cell, dir: int, k: nat)
    requires IsDirection(dir)
    ensures AdvanceN([c], dir, k) == Suffix(Trail(c, dir, k), MaxParts)
  {
    if k > 0 {
      AdvanceNFollowsTrail(c, dir, k - 1);
      var t := Trail(c, dir, k - 1);
      var b := AdvanceN([c], dir, k - 1);
      var h := Neighbour(Last(t), dir);
      assert Last(b) == Last(t);
      assert Trail(c, dir, k) == t + [h];
      if |t| >= MaxParts {
        assert b == t[|t| - MaxParts..];
        assert DropOldest(b + [h]) == (b + [h])[1..];
        assert (b + [h])[1..] == (t + [h])[|t| + 1 - MaxParts..];
      } else {
        assert b == t;
      }
    }
  }

  /** The first position of `x` in `s`, or -1: `Array.prototype.indexOf`, which
      compares with `===`. */
  function IndexOf<T(==)>(s: seq<T>, x: T): (i: int)
    ensures -1 <= i < |s|
    ensures i == -1 <==> x !in s
    ensures i >= 0 ==> s[i] == x && x !in s[..i]
  {
    if s == [] then -1
    else if s[0] == x then 0
    else
      var j := IndexOf(s[1..], x);
      if j == -1 then -1
      else
        assert s[1..][..j] == s[1..j + 1];
        j + 1
  }

  class Snake {
    var parts: seq<Vec2>
    var direction: int

    /** What every snake of the game satisfies: one to `MaxParts` parts and a
        direction that `move` handles. */
    ghost predicate Valid()
      reads this
    {
      1 <= |parts| <= MaxParts && IsDirection(direction)
    }

    /** The positions of the parts, tail first. */
    function Body(): seq<Cell>
      reads this
    {
      Cells(parts)
    }

    /** A new snake consists of the start object alone and heads south-east. */
    constructor (start: Vec2)
      ensures parts == [start] && direction == SE
      ensures Valid()
    {
      parts := [start];
      direction := SE;
    }

    /** `add`: the object becomes the new head. */
    method Add(coord: Vec2)
      modifies this
      ensures parts == old(parts) + [coord]
      ensures direction == old(direction)
    {
      parts := parts + [coord];
    }

    /** `move`: a new object one step from the head becomes the head; once there
        are more than `MaxParts` parts the oldest is dropped. */
    method Move()
      requires |parts| >= 1 && IsDirection(direction)
      modifies this
      ensures direction == old(direction)
      ensures |parts| >= 1 && fresh(Last(parts))
      ensures parts == DropOldest(old(parts) + [Last(parts)])
      ensures Body() == Advance(old(Body()), direction)
      ensures old(Valid()) ==> Valid()
    {
      var coord := Hex.Move(Last(parts), direction);
      Add(coord);
      if |parts| > MaxParts {
        parts := parts[1..];
      }
      CellsDropOldest(old(parts), coord);
    }

    /** `changeDirection`: any value is stored; only codes 0 to 5 can be moved in. */
    method ChangeDirection(dir: int)
      modifies this
      ensures direction == dir
      ensures parts == old(parts)
    {
      direction := dir;
    }

    /** `isCollision`: whether this very object is one of the parts. Another
        object with the same coordinates does not count. */
    function IsCollision(coord: Vec2): (r: bool)
      reads this
      ensures r <==> exists i :: 0 <= i < |parts| && parts[i] == coord
    {
      IndexOf(parts, coord) != -1
    }

    /** Whether some part stands on the cell of `coord`, whatever object it is. */
    function Occupies(coord: Vec2): (r: bool)
      reads this
      ensures r <==> exists i :: 0 <= i < |parts| && parts[i].Value() == coord.Value()
    {
      coord.Value() in Body()
    }
  }

  /** Identity implies position: a collision is always an occupied cell. */
  lemma CollisionOccupies(snake: Snake, coord: Vec2)
    ensures snake.IsCollision(coord) ==> snake.Occupies(coord)
  {
  }

  /** A snake at (4, 2) is not in collision with a second object for (4, 2),
      although it occupies that cell. */
  method SameCellOtherObject() returns (collides: bool, occupied: bool)
    ensures !collides && occupied
  {
    var start := new Vec2(4, 2);
    var snake := new Snake(start);
    var probe := new Vec2(4, 2);
    collides := snake.IsCollision(probe);
    occupied := snake.Occupies(probe);
    assert snake.parts[0].Value() == probe.Value();
  }
}
