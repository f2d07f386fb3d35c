/**
  What the incomplete loss check does to a game: once the dice show a total
  that no selection of the pieces in play can reach, but the loss check
  still finds a path, the game sits in the Rolled stage for good. Every
  event leaves it there, no piece is ever retired or brought back, and
  only reloading the page ends the game.
 */
module Deadlock {
  import opened Pieces
  import Dice
  import Ind = Indicators
  import Rules
  import LossCheck
  import Game

  /** Two boards with the same values and the same pieces in play; selections may differ. */
  predicate SameBoard(a: seq<Block>, b: seq<Block>) {
    && |a| == |b|
    && forall i :: 0 <= i < |a| ==> a[i].value == b[i].value && (IsRetired(a[i]) <==> IsRetired(b[i]))
  }

  /** A Rolled game that awaits a move the pieces in play cannot make and that the loss check does not end. */
  predicate Stuck(s: Game.GameState) {
    && s.stage == Game.Rolled
    && s.role == Ind.Enter
    && (forall i :: 0 <= i < |s.blocks| ==> s.blocks[i].value >= 0)
    && LossCheck.InPlaySum(s.blocks) < Game.Roll(s)
    && !LossCheck.CheckIfLost(s.blocks, Game.Roll(s))
  }

  lemma {:induction false} EligibleSameBoard(a: seq<Block>, b: seq<Block>, roll: int)
    requires SameBoard(a, b)
    ensures LossCheck.Eligible(a, roll) == LossCheck.Eligible(b, roll)
  {
    if |a| > 0 {
      EligibleSameBoard(a[1..], b[1..], roll);
    }
  }

  lemma {:induction false} InPlaySumSameBoard(a: seq<Block>, b: seq<Block>)
    requires SameBoard(a, b)
    ensures LossCheck.InPlaySum(a) == LossCheck.InPlaySum(b)
  {
    if |a| > 0 {
      InPlaySumSameBoard(a[1..], b[1..]);
    }
  }

  /** With non-negative values the selected pieces never add up to more than the pieces in play. */
  lemma {:induction false} SelectedBelowInPlay(blocks: seq<Block>)
    requires forall i :: 0 <= i < |blocks| ==> blocks[i].value >= 0
    ensures Rules.SelectedSum(blocks) <= LossCheck.InPlaySum(blocks)
  {
    if |blocks| > 0 {
      SelectedBelowInPlay(blocks[1..]);
    }
  }

  lemma {:induction false} RollSameValues(a: seq<Dice.Die>, b: seq<Dice.Die>)
    requires |a| == |b| && forall i :: 0 <= i < |a| ==> a[i].value == b[i].value
    ensures Rules.GetDiceRoll(a) == Rules.GetDiceRoll(b)
  {
    if |a| > 0 {
      RollSameValues(a[1..], b[1..]);
    }
  }

  /** A board that keeps its values and its pieces in play keeps a stuck game stuck. */
  lemma StuckSameBoard(s: Game.GameState, t: Game.GameState)
    requires Stuck(s) && SameBoard(s.blocks, t.blocks)
    requires t.stage == Game.Rolled && t.role == Ind.Enter && Game.Roll(t) == Game.Roll(s)
    ensures Stuck(t)
  {
    EligibleSameBoard(s.blocks, t.blocks, Game.Roll(s));
    InPlaySumSameBoard(s.blocks, t.blocks);
  }

  /** Every event keeps a stuck game stuck, on the same board. */
  lemma StuckIsForever(s: Game.GameState, e: Game.Event)
    requires Stuck(s) && Game.WellFormed(s, e)
    ensures Stuck(Game.Step(s, e))
    ensures SameBoard(s.blocks, Game.Step(s, e).blocks)
  {
    var t := Game.Step(s, e);
    match e {
      case Tick =>
        assert t.blocks == s.blocks && t.dice == s.dice;
      case ToggleBlock(i) =>
        StuckSameBoard(s, t);
      case ProgressClick(draws) =>
        SelectedBelowInPlay(s.blocks);
        assert t == s;
      case ToggleAi =>
        assert t.blocks == s.blocks && t.dice == s.dice;
      case DiceAnimate(draws) =>
        RollSameValues(s.dice, t.dice);
        StuckSameBoard(s, t);
      case AdviceArrives(moves) =>
        assert t.blocks == s.blocks && t.dice == s.dice;
    }
  }

  /** Along any run, a stuck game stays stuck and no piece is retired or returned. */
  lemma {:induction false} StuckRun(s: Game.GameState, es: seq<Game.Event>)
    requires Stuck(s) && Game.RunOk(s, es)
    ensures Stuck(Game.Run(s, es))
    ensures SameBoard(s.blocks, Game.Run(s, es).blocks)
    decreases |es|
  {
    if |es| > 0 {
      StuckIsForever(s, es[0]);
      StuckRun(Game.Step(s, es[0]), es[1..]);
    }
  }

  /** The board of LossCheck.LossCheckIncomplete after a roll of four and four. */
  function StuckExample(): Game.GameState {
    var die := Dice.Die(Rules.NUM_DICE_SIDES, 4, 4, 0, Dice.Rolled);
    Game.GameState(
      LossCheck.CounterexampleBoard(),
      [die, die],
      seq(Rules.NUM_BLOCKS, _ => Ind.NewTab()),
      Ind.Enter, Ind.HideAi, Ind.Playing, Game.Rolled)
  }

  /** A stuck game exists within the game's own invariant: pieces 1, 2, 3 in play and a roll of 8. */
  lemma StuckExampleIsStuck()
    ensures Game.Inv(StuckExample()) && Stuck(StuckExample())
    ensures Game.Roll(StuckExample()) == 8
  {
    StuckExampleInv();
    var s := StuckExample();
    LossCheck.LossCheckIncomplete();
    LossCheck.CounterexampleCandidates();
    assert s.blocks == LossCheck.CounterexampleBoard();
  }

  lemma StuckExampleInv()
    ensures Game.Inv(StuckExample()) && Game.Roll(StuckExample()) == 8
  {
    var s := StuckExample();
    assert Game.Roll(s) == 4 + Rules.GetDiceRoll(s.dice[1..]);
    forall i | 0 <= i < |s.tabs|
      ensures s.aiLabel == Ind.LabelFor(s.tabs[i].display)
    {
      assert s.tabs[i] == Ind.NewTab();
    }
  }
}
