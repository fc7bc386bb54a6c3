/** Gamepad input (`pollGamepad`): buttons A and B act once per press and
    release, and the stick turns the snake.

    The stick reading is taken as the outcomes of the floating-point tests the
    game makes on it (the angle `atan2(axisNS, axisEW)` and the length of the
    stick vector are not modelled). */
module Gamepad {
  import opened Hex
  import opened Snakes
  import opened Session

  datatype Option<T> = None | Some(value: T)

  /** The outcomes of the stick tests of one poll: `axisNS !== 0`, `r > 0.5`,
      `phi > 0`, `|phi| <= pi / 6` and `|phi| >= pi / 2`. */
  datatype Stick = Stick(
    nsDeflected: bool,
    beyondDeadzone: bool,
    pointsSouth: bool,
    withinEast: bool,
    beyondWest: bool)

  /** Whether button A (index 0) and button B (index 1) are down; also used for
      the two latches, which remember that a button was seen down. */
  datatype Buttons = Buttons(a: bool, b: bool)

  /** One poll's reading of the gamepad. */
  datatype Pad = Pad(buttons: Buttons, stick: Stick)

  // ---------------------------------------------------------------------------
  // Buttons

  /** One button on one poll, from its latch and its state: the new latch and
      whether the button's action fires. The latch always ends up equal to the
      button, and the action fires exactly on a release that follows a poll
      that saw the button down. */
  function Edge(latched: bool, down: bool): (r: (bool, bool))
    ensures r.0 == down
    ensures r.1 <==> latched && !down
  {
    if down then (true, false)
    else if latched then (false, true)
    else (false, false)
  }

  /** What the buttons of one poll do to the session. */
  datatype Outcome = Outcome(latches: Buttons, running: bool, restart: bool)

  /** The button part of `pollGamepad`: A is handled first and toggles
      `running`; B is handled second, restarts and sets `running`, so it wins
      when both fire on the same poll. */
  function PressButtons(latches: Buttons, running: bool, down: Buttons): (r: Outcome)
    ensures r.latches == down
    ensures r.restart <==> latches.b && !down.b
    ensures r.restart ==> r.running
    ensures !r.restart ==> (r.running <==> (running != (latches.a && !down.a)))
  {
    var (a, toggle) := Edge(latches.a, down.a);
    var running' := if toggle then !running else running;
    var (b, restart) := Edge(latches.b, down.b);
    Outcome(Buttons(a, b), if restart then true else running', restart)
  }

  /** The running flag after a series of polls that see A as `downs` and B up. */
  function PollsA(latched: bool, running: bool, downs: seq<bool>): bool
    decreases |downs|
  {
    if downs == [] then running
    else
      var out := PressButtons(Buttons(latched, false), running, Buttons(downs[0], false));
      PollsA(out.latches.a, out.running, downs[1..])
  }

  /** The number of polls in `downs` that see A released after a poll that saw
      it down. */
  function Releases(latched: bool, downs: seq<bool>): nat
    decreases |downs|
  {
    if downs == [] then 0
    else (if latched && !downs[0] then 1 else 0) + Releases(downs[0], downs[1..])
  }

  /** A series of polls toggles `running` once per release. */
  lemma {:induction false} PollsAToggles(latched: bool, running: bool, downs: seq<bool>)
    ensures PollsA(latched, running, downs) == (running != (Releases(latched, downs) % 2 == 1))
    decreases |downs|
  {
    if downs != [] {
      var out := PressButtons(Buttons(latched, false), running, Buttons(downs[0], false));
      PollsAToggles(out.latches.a, out.running, downs[1..]);
    }
  }

  /** `n` polls with the button held. */
  function Held(n: nat): (s: seq<bool>)
    ensures |s| == n && forall i :: 0 <= i < n ==> s[i]
  {
    seq(n, i => true)
  }

  /** Releases of a series made of two parts add up. */
  lemma {:induction false} ReleasesAppend(latched: bool, xs: seq<bool>, ys: seq<bool>)
    requires xs != []
    ensures Releases(latched, xs + ys) == Releases(latched, xs) + Releases(Last(xs), ys)
    decreases |xs|
  {
    assert (xs + ys)[1..] == xs[1..] + ys;
    if |xs| > 1 {
      ReleasesAppend(xs[0], xs[1..], ys);
    }
  }

  /** Holding the button for any number of polls and releasing it is one
      release, whatever the latch was before. */
  lemma {:induction false} HoldThenRelease(latched: bool, n: nat)
    requires n >= 1
    ensures Releases(latched, Held(n) + [false]) == 1
    decreases n
  {
    var s := Held(n) + [false];
    assert s[0] && s[1..] == Held(n - 1) + [false];
    if n > 1 {
      HoldThenRelease(true, n - 1);
    }
  }

  /** Holding the button without releasing it never fires. */
  lemma {:induction false} HoldingNeverFires(latched: bool, n: nat)
    ensures Releases(latched, Held(n)) == 0
    decreases n
  {
    if n > 0 {
      assert Held(n)[1..] == Held(n - 1);
      HoldingNeverFires(true, n - 1);
    }
  }

  /** Two presses of A, each held for any number of polls, leave `running` as it
      was. */
  lemma TwoPressesRestore(running: bool, n: nat, m: nat)
    requires n >= 1 && m >= 1
    ensures PollsA(false, running, Held(n) + [false] + Held(m) + [false]) == running
  {
    var first := Held(n) + [false];
    var second := Held(m) + [false];
    assert Held(n) + [false] + Held(m) + [false] == first + second;
    ReleasesAppend(false, first, second);
    HoldThenRelease(false, n);
    HoldThenRelease(false, m);
    PollsAToggles(false, running, first + second);
  }

  // ---------------------------------------------------------------------------
  // Stick

  predicate IsSouthward(dir: int) {
    dir == S || dir == SE || dir == SW
  }

  predicate IsEastward(dir: int) {
    dir == NE || dir == SE
  }

  predicate IsWestward(dir: int) {
    dir == NW || dir == SW
  }

  /** Whether the bit `mask` is set in the code `dir`. */
  predicate HasBit(dir: int, mask: int)
    requires 0 <= dir < 8 && (mask == MaskS || mask == MaskE || mask == MaskW)
  {
    (dir as bv3) & (mask as bv3) != 0
  }

  /** The masks are the bits of the direction codes: S is the south bit, E the
      east bit, W the west bit, and no direction has both E and W. */
  lemma MasksAreDirectionBits(dir: int)
    requires IsDirection(dir)
    ensures HasBit(dir, MaskS) <==> IsSouthward(dir)
    ensures HasBit(dir, MaskE) <==> IsEastward(dir)
    ensures HasBit(dir, MaskW) <==> IsWestward(dir)
    ensures !(HasBit(dir, MaskE) && HasBit(dir, MaskW))
  {
  }

  /** The direction a stick reading selects, read off the direction table: none
      when the stick is centred north-south or inside the dead zone; otherwise
      southward exactly when it points south, eastward when it is within 30
      degrees of east, westward when it is not and is at least 90 degrees from
      east, and north or south when it is neither. */
  function StickHeading(stick: Stick): (r: Option<int>)
    ensures r.Some? <==> stick.nsDeflected && stick.beyondDeadzone
    ensures r.Some? ==> IsDirection(r.value)
    ensures r.Some? ==> (IsSouthward(r.value) <==> stick.pointsSouth)
    ensures r.Some? ==> (IsEastward(r.value) <==> stick.withinEast)
    ensures r.Some? ==> (IsWestward(r.value) <==> !stick.withinEast && stick.beyondWest)
  {
    if !stick.nsDeflected || !stick.beyondDeadzone then None
    else if stick.withinEast then Some(if stick.pointsSouth then SE else NE)
    else if stick.beyondWest then Some(if stick.pointsSouth then SW else NW)
    else Some(if stick.pointsSouth then S else N)
  }

  /** The stick part of `pollGamepad`: the code is built by OR-ing the masks
      into zero, and it is the one the direction table gives. */
  method StickDirection(stick: Stick) returns (dir: Option<int>)
    ensures dir == StickHeading(stick)
  {
    dir := None;
    if stick.nsDeflected {
      if stick.beyondDeadzone {
        var bits: bv3 := 0;
        if stick.pointsSouth {
          bits := bits | MaskS as bv3;
        }
        if stick.withinEast {
          bits := bits | MaskE as bv3;
        } else if stick.beyondWest {
          bits := bits | MaskW as bv3;
        }
        dir := Some(bits as int);
      }
    }
  }

  // ---------------------------------------------------------------------------
  // Polling

  /** The two latches of `pollGamepad`. */
  class Controller {
    var btnPressed: bool
    var btn2Pressed: bool

    constructor ()
      ensures !btnPressed && !btn2Pressed
    {
      btnPressed := false;
      btn2Pressed := false;
    }

    /** `pollGamepad`: the buttons update the latches, the running flag and
        possibly the snake as `PressButtons` says; then a stick reading outside
        the dead zone sets the direction of the snake, the new one if B just
        restarted. */
    method Poll(game: Game, pad: Pad)
      requires game.Valid()
      modifies this, game, game.snake
      ensures game.Valid()
      ensures var out := PressButtons(old(Buttons(btnPressed, btn2Pressed)), old(game.running), pad.buttons);
        Buttons(btnPressed, btn2Pressed) == out.latches &&
        game.running == out.running &&
        (out.restart ==>
          fresh(game.snake) && game.snake.Body() == [StartCell] &&
          |game.snake.parts| == 1 && fresh(game.snake.parts[0])) &&
        (!out.restart ==> game.snake == old(game.snake) && game.snake.parts == old(game.snake.parts)) &&
        game.snake.direction == match StickHeading(pad.stick)
          case Some(d) => d
          case None => if out.restart then SE else old(game.snake.direction)
    {
      if pad.buttons.a {
        btnPressed := true;
      } else if btnPressed {
        game.running := !game.running;
        btnPressed := false;
      }
      if pad.buttons.b {
        btn2Pressed := true;
      } else if btn2Pressed {
        game.Restart();
        game.running := true;
        btn2Pressed := false;
      }
      var dir := StickDirection(pad.stick);
      if dir.Some? {
        game.snake.ChangeDirection(dir.value);
      }
    }
  }
}
