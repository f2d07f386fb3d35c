/**
  One die. The committed `value` is drawn when a roll starts and stays fixed
  until the next roll starts; the `display` face churns while the die spins,
  which is presentation only. A roll spins by SPEED degrees per animation
  frame until it has turned ROLL_SPIN degrees.
 */
module Dice {

  const SPEED: int := 24
  const ROLL_SPIN: int := 4 * 360

  datatype DiceMode = Rolling | Rolled

  datatype Die = Die(sides: nat, value: int, display: int, angle: int, mode: DiceMode)

  /**
    A uniformly random face, `Math.floor(Math.random() * sides + 1)`. The random
    number is an oracle `draw`; every face in 1..sides is the result of some draw
    (see GenerateCovers), and a zero-sided die always shows 1.
   */
  function Generate(sides: nat, draw: nat): (v: int)
    ensures sides >= 1 ==> 1 <= v <= sides
    ensures sides == 0 ==> v == 1
  {
    if sides == 0 then 1 else draw % sides + 1
  }

  lemma GenerateCovers(sides: nat, v: int)
    requires 1 <= v <= sides
    ensures Generate(sides, v - 1) == v
  {
  }

  /** A die as constructed: a first value drawn, shown face equal to it, idle. */
  function NewDie(sides: nat, draw: nat): (d: Die)
    ensures d.sides == sides && d.mode == Rolled && d.angle == 0
    ensures d.display == d.value && (sides >= 1 ==> 1 <= d.value <= sides)
  {
    var v := Generate(sides, draw);
    Die(sides, v, v, 0, Rolled)
  }

  /** Puts the die back to idle without touching its value. */
  function Reset(d: Die): (r: Die)
    ensures r.mode == Rolled && r.value == d.value && r.sides == d.sides
  {
    d.(mode := Rolled)
  }

  /**
    Starts a roll. From Rolled it commits a fresh value, switches to Rolling and
    returns that value; while already Rolling it returns 0 and changes nothing.
   */
  function StartRoll(d: Die, draw: nat): (r: (Die, int))
    ensures d.mode == Rolled ==>
      && r.0.mode == Rolling && r.0.value == r.1 && r.0.sides == d.sides
      && (d.sides >= 1 ==> 1 <= r.1 <= d.sides)
    ensures d.mode == Rolling ==> r == (d, 0)
  {
    if d.mode == Rolled then
      var v := Generate(d.sides, draw);
      (d.(value := v, mode := Rolling), v)
    else
      (d, 0)
  }

  /**
    One animation frame. A rolling die turns by SPEED (capped at ROLL_SPIN) and
    stops once the cap is reached, otherwise it shows a random face; an idle die
    shows its value and straightens up. The committed value never changes here.
   */
  function Animate(d: Die, draw: nat): (r: Die)
    ensures r.value == d.value && r.sides == d.sides
    ensures d.mode == Rolled ==> r.mode == Rolled && r.display == d.value && r.angle == 0
    ensures d.mode == Rolling && d.angle + SPEED < ROLL_SPIN ==>
      r.mode == Rolling && r.angle == d.angle + SPEED
    ensures d.mode == Rolling && d.angle + SPEED >= ROLL_SPIN ==>
      r.mode == Rolled && r.angle == ROLL_SPIN
  {
    match d.mode
    case Rolling =>
      var a := if ROLL_SPIN < d.angle + SPEED then ROLL_SPIN else d.angle + SPEED;
      if a >= ROLL_SPIN then d.(angle := a, mode := Rolled)
      else d.(angle := a, display := Generate(d.sides, draw))
    case Rolled =>
      d.(display := d.value, angle := 0)
  }

  /** The die after one animation frame per draw, in order. */
  function AnimateN(d: Die, draws: seq<nat>): (r: Die)
    ensures r.value == d.value && r.sides == d.sides
  {
    if |draws| == 0 then d else Animate(AnimateN(d, draws[..|draws| - 1]), draws[|draws| - 1])
  }

  /** While the spin has not reached ROLL_SPIN, a rolling die keeps rolling, SPEED degrees per frame. */
  lemma {:induction false} SpinProgress(d: Die, draws: seq<nat>)
    requires d.mode == Rolling && d.angle + SPEED * |draws| < ROLL_SPIN
    ensures AnimateN(d, draws).mode == Rolling
    ensures AnimateN(d, draws).angle == d.angle + SPEED * |draws|
  {
    if |draws| > 0 {
      SpinProgress(d, draws[..|draws| - 1]);
    }
  }

  /**
    A roll started from a straightened die lasts exactly 60 frames: it is still
    rolling after every shorter run of frames and idle after the 60th, with its
    committed value unchanged throughout.
   */
  lemma RollLastsSixtyFrames(d: Die, draws: seq<nat>)
    requires d.mode == Rolling && d.angle == 0 && |draws| == 60
    ensures forall k :: 0 <= k < 60 ==> AnimateN(d, draws[..k]).mode == Rolling
    ensures AnimateN(d, draws).mode == Rolled
    ensures AnimateN(d, draws).value == d.value
  {
    forall k | 0 <= k < 60
      ensures AnimateN(d, draws[..k]).mode == Rolling
    {
      SpinProgress(d, draws[..k]);
    }
    SpinProgress(d, draws[..59]);
    assert draws[..60][..59] == draws[..59];
    assert draws[..60] == draws;
  }
}
