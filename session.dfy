/** The game session (`game`): whether the game is running, the current snake,
    restarting, and the per-frame update. */
module Session {
  import opened Vectors
  import opened Hex
  import opened Snakes

  /** Where every new snake starts. */
  const StartCell := Cell(4, 2)

  /** The frame counter's period: on frames whose number is a multiple of it the
      snake stands still. */
  const TickPeriod := 1000

  /** Whether `update(ticks)` moves the snake: only while running, and only when
      `ticks % 1000` is not zero. */
  predicate MovesOn(running: bool, ticks: nat) {
    running && ticks % TickPeriod != 0
  }

  /** The number of frames among `0 .. n - 1` on which a running game moves. */
  function MovingFrames(n: nat): nat {
    if n == 0 then 0
    else MovingFrames(n - 1) + (if MovesOn(true, n - 1) then 1 else 0)
  }

  /** Counting one more frame raises `ceil(frames / 1000)` exactly when the
      new frame's number is a multiple of 1000. */
  lemma PeriodCountStep(m: nat)
    ensures m % TickPeriod == 0 ==> (m + TickPeriod) / TickPeriod == (m + TickPeriod - 1) / TickPeriod + 1
    ensures m % TickPeriod != 0 ==> (m + TickPeriod) / TickPeriod == (m + TickPeriod - 1) / TickPeriod
  {
  }

  /** Of the first `n` frames of a running game, exactly the multiples of 1000
      (0, 1000, 2000, ...) leave the snake where it is, so there are
      `ceil(n / 1000)` of them. */
  lemma {:induction false} MovingFramesCount(n: nat)
    ensures MovingFrames(n) == n - (n + TickPeriod - 1) / TickPeriod
  {
    if n > 0 {
      MovingFramesCount(n - 1);
      PeriodCountStep(n - 1);
    }
  }

  class Game {
    var running: bool
    var snake: Snake

    /** The session's snake is always a valid one. */
    ghost predicate Valid()
      reads this, snake
    {
      snake.Valid()
    }

    /** The session starts paused, with a one-part snake at the start cell
        heading south-east. */
    constructor ()
      ensures Valid() && !running
      ensures fresh(snake) && snake.Body() == [StartCell] && snake.direction == SE
      ensures |snake.parts| == 1 && fresh(snake.parts[0])
    {
      running := false;
      var start := new Vec2(4, 2);
      snake := new Snake(start);
    }

    /** `restart`: a new snake replaces the old one; `running` is left alone. */
    method Restart()
      modifies this
      ensures Valid() && running == old(running)
      ensures fresh(snake) && snake.Body() == [StartCell] && snake.direction == SE
      ensures |snake.parts| == 1 && fresh(snake.parts[0])
    {
      var start := new Vec2(4, 2);
      snake := new Snake(start);
    }

    /** `update(ticks)`: the snake moves one step exactly when the game is
        running and `ticks` is not a multiple of 1000; nothing else changes.
        A move keeps the part objects, minus the oldest one past `MaxParts`,
        and adds a fresh head object. */
    method Update(ticks: nat)
      requires Valid()
      modifies snake
      ensures Valid()
      ensures snake.direction == old(snake.direction)
      ensures MovesOn(running, ticks) ==> snake.Body() == Advance(old(snake.Body()), snake.direction)
      ensures MovesOn(running, ticks) ==>
        |snake.parts| >= 1 && fresh(Last(snake.parts)) &&
        snake.parts == DropOldest(old(snake.parts) + [Last(snake.parts)])
      ensures !MovesOn(running, ticks) ==> snake.parts == old(snake.parts)
    {
      if !running {
        return;
      }
      if ticks % TickPeriod != 0 {
        snake.Move();
      }
    }
  }
}
