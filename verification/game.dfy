/**
  The browser game's state and its event handlers, as a pure step function.
  A Tick is one pass of update(); the other events are the input handlers
  (piece toggles, progress-button clicks, the show/hide toggle), one
  animation frame of the dice, and the arrival of the advisory service's
  answer, whose request is fired by a roll click and is not modelled.
  Random draws are oracle values carried by the events, one per die.
 */
module Game {
  import Pieces
  import Dice
  import Ind = Indicators
  import Rules
  import LossCheck

  datatype Stage = Start | Base | Rolling | Rolled | Won | Lost

  datatype GameState = GameState(
    blocks: seq<Pieces.Block>,
    dice: seq<Dice.Die>,
    tabs: seq<Ind.AiTab>,
    role: Ind.ProgressRole,
    aiLabel: Ind.ShowAiLabel,
    result: Ind.ResultMode,
    stage: Stage)

  datatype Event =
    | Tick
    | ToggleBlock(i: int)
    | ProgressClick(draws: seq<nat>)
    | ToggleAi
    | DiceAnimate(draws: seq<nat>)
    | AdviceArrives(moves: seq<int>)

  /** Events that draw random numbers carry one draw per die. */
  predicate WellFormed(s: GameState, e: Event) {
    match e
    case ProgressClick(draws) => |draws| == |s.dice|
    case DiceAnimate(draws) => |draws| == |s.dice|
    case _ => true
  }

  /** The game as first built: nine fresh pieces valued 1..9, two six-sided dice, visible empty indicators. */
  function Init(draws: seq<nat>): GameState
    requires |draws| == Rules.NUM_DICE
  {
    GameState(
      seq(Rules.NUM_BLOCKS, i requires 0 <= i < Rules.NUM_BLOCKS => Pieces.NewBlock(i + 1)),
      seq(Rules.NUM_DICE, i requires 0 <= i < Rules.NUM_DICE => Dice.NewDie(Rules.NUM_DICE_SIDES, draws[i])),
      seq(Rules.NUM_BLOCKS, i requires 0 <= i < Rules.NUM_BLOCKS => Ind.NewTab()),
      Ind.Roll, Ind.HideAi, Ind.Playing, Start)
  }

  /** The dice total the rules read. */
  function Roll(s: GameState): int {
    Rules.GetDiceRoll(s.dice)
  }

  /** The Base-stage part of update(), also reached by falling through from Start. */
  function BaseTick(s: GameState): GameState {
    s.(stage := if Rules.CheckIfWon(s.blocks) then Won else s.stage,
       dice := seq(|s.dice|, i requires 0 <= i < |s.dice| => Dice.Reset(s.dice[i])),
       tabs := seq(|s.tabs|, i requires 0 <= i < |s.tabs| => Ind.ResetTab(s.tabs[i])),
       role := Ind.Roll)
  }

  /** One pass of update(). */
  function TickStep(s: GameState): GameState {
    match s.stage
    case Start =>
      BaseTick(s.(result := Ind.Playing,
                  blocks := seq(|s.blocks|, i requires 0 <= i < |s.blocks| => Pieces.Reset(s.blocks[i])),
                  stage := Base))
    case Base => BaseTick(s)
    case Rolling =>
      if !Rules.CheckIfDiceRolling(s.dice) then s.(stage := Rolled) else s
    case Rolled =>
      s.(tabs := seq(|s.tabs|, i requires 0 <= i < |s.tabs| => Ind.ToPopulated(s.tabs[i])),
         stage := if LossCheck.CheckIfLost(s.blocks, Roll(s)) then Lost else Rolled,
         role := Ind.Enter)
    case Won => s.(result := Ind.YouWon, role := Ind.Reset)
    case Lost => s.(result := Ind.YouLost, role := Ind.Reset)
  }

  /** progress_button_click: the button's current role decides the action. */
  function ClickStep(s: GameState, draws: seq<nat>): GameState
    requires |draws| == |s.dice|
  {
    match s.role
    case Roll =>
      s.(dice := seq(|s.dice|, i requires 0 <= i < |s.dice| => Dice.StartRoll(s.dice[i], draws[i]).0),
         stage := Rolling)
    case Enter =>
      if Rules.CheckIfValidMove(s.blocks, Roll(s)) then
        s.(blocks := Rules.RetireSelected(s.blocks), stage := Base)
      else s
    case Reset => s.(stage := Start)
  }

  /** A piece toggle; an index with no piece changes nothing. */
  function ToggleStep(s: GameState, i: int): GameState {
    if 0 <= i < |s.blocks| then s.(blocks := s.blocks[i := Pieces.ToggleSelected(s.blocks[i])]) else s
  }

  /** The show/hide toggle: every indicator and the button aiLabel flip together. */
  function ToggleAiStep(s: GameState): GameState {
    s.(tabs := seq(|s.tabs|, i requires 0 <= i < |s.tabs| => Ind.ToggleVisible(s.tabs[i])),
       aiLabel := Ind.ToggleLabel(s.aiLabel))
  }

  function AnimateStep(s: GameState, draws: seq<nat>): GameState
    requires |draws| == |s.dice|
  {
    s.(dice := seq(|s.dice|, i requires 0 <= i < |s.dice| => Dice.Animate(s.dice[i], draws[i])))
  }

  function Step(s: GameState, e: Event): GameState
    requires WellFormed(s, e)
  {
    match e
    case Tick => TickStep(s)
    case ToggleBlock(i) => ToggleStep(s, i)
    case ProgressClick(draws) => ClickStep(s, draws)
    case ToggleAi => ToggleAiStep(s)
    case DiceAnimate(draws) => AnimateStep(s, draws)
    case AdviceArrives(moves) => s.(tabs := Rules.LoadAiTabs(s.tabs, moves))
  }

  /** The key codes the game listens for (game.js's KEY_CODES table). */
  const KEY_ONE := 49
  const KEY_NINE := 57
  const KEY_SPACE := 32
  const KEY_RETURN := 13
  const KEY_R := 82

  /** keyTyped: space and return click the progress button, keys 1..9 toggle a piece, R toggles the indicators. */
  function KeyTyped(s: GameState, code: int, draws: seq<nat>): GameState
    requires |draws| == |s.dice|
  {
    var s1 := if code == KEY_SPACE || code == KEY_RETURN then ClickStep(s, draws) else s;
    var s2 := if KEY_ONE <= code <= KEY_NINE then ToggleStep(s1, code - KEY_ONE) else s1;
    if code == KEY_R then ToggleAiStep(s2) else s2
  }

  /** Applies the piece toggles of a click, in board order, to the pieces the click hit. */
  function ToggleHits(s: GameState, hits: seq<bool>, from: nat): (r: GameState)
    requires from <= |hits|
    ensures r.dice == s.dice
    decreases |hits| - from
  {
    if from == |hits| then s
    else ToggleHits(if hits[from] then ToggleStep(s, from) else s, hits, from + 1)
  }

  /**
    mouseClicked: the hit-test is left out; the click arrives with what it hit
    (one flag per piece, the progress button, the show/hide button) and the
    handlers run in the source's order: pieces, progress, show/hide.
   */
  function MouseClicked(s: GameState, hits: seq<bool>, onProgress: bool, onShowAi: bool, draws: seq<nat>): GameState
    requires |draws| == |s.dice|
  {
    var s1 := ToggleHits(s, hits, 0);
    var s2 := if onProgress then ClickStep(s1, draws) else s1;
    if onShowAi then ToggleAiStep(s2) else s2
  }

  // ---------------------------------------------------------------- invariant

  /**
    What holds in every state the game reaches: nine pieces valued 1..9, nine
    indicators, two six-sided dice showing committed values in 1..6, and every
    indicator drawn exactly when the show/hide aiLabel reads "hide ai".
   */
  predicate Inv(s: GameState) {
    && |s.blocks| == Rules.NUM_BLOCKS
    && (forall i :: 0 <= i < |s.blocks| ==> s.blocks[i].value == i + 1)
    && |s.tabs| == Rules.NUM_BLOCKS
    && |s.dice| == Rules.NUM_DICE
    && (forall i :: 0 <= i < |s.dice| ==> s.dice[i].sides == Rules.NUM_DICE_SIDES && 1 <= s.dice[i].value <= Rules.NUM_DICE_SIDES)
    && (forall i :: 0 <= i < |s.tabs| ==> s.aiLabel == Ind.LabelFor(s.tabs[i].display))
  }

  lemma InitSatisfiesInv(draws: seq<nat>)
    requires |draws| == Rules.NUM_DICE
    ensures Inv(Init(draws))
    ensures Init(draws).stage == Start && Init(draws).role == Ind.Roll
  {
    var s := Init(draws);
    forall i | 0 <= i < |s.tabs|
      ensures s.aiLabel == Ind.LabelFor(s.tabs[i].display)
    {
      assert s.tabs[i] == Ind.NewTab();
    }
  }

  /** Every event keeps the invariant. */
  lemma StepPreservesInv(s: GameState, e: Event)
    requires Inv(s) && WellFormed(s, e)
    ensures Inv(Step(s, e))
  {
    match e
    case Tick =>
    case ToggleBlock(i) =>
    case ProgressClick(draws) =>
    case ToggleAi =>
      var r := Step(s, e);
      forall i | 0 <= i < |r.tabs|
        ensures r.aiLabel == Ind.LabelFor(r.tabs[i].display)
      {
        Ind.ToggleKeepsLabelInStep(s.tabs[i], s.aiLabel);
      }
    case DiceAnimate(draws) =>
    case AdviceArrives(moves) =>
  }

  /** The pieces of a reachable state have distinct positive values, as the loss check needs. */
  lemma InvDistinctPositive(s: GameState)
    requires Inv(s)
    ensures LossCheck.DistinctPositive(s.blocks)
  {
  }

  /** In a reachable state the dice total is between 2 and 12. */
  lemma RollInRange(s: GameState)
    requires Inv(s)
    ensures 2 <= Roll(s) <= 12
  {
    Rules.DiceRollRange(s.dice, Rules.NUM_DICE_SIDES);
  }

  // ---------------------------------------------------------------- stage machine

  /**
    A tick from Start lands in Base (falling through the Base handling in the
    same pass), with every piece back to Base, every die idle, every indicator
    cleared, the button set to roll and the result message neutral.
   */
  lemma StartTickLandsInBase(s: GameState)
    requires Inv(s) && s.stage == Start
    ensures TickStep(s).stage == Base
    ensures forall i :: 0 <= i < |s.blocks| ==> TickStep(s).blocks[i].mode == Pieces.Base
    ensures forall i :: 0 <= i < |s.dice| ==> TickStep(s).dice[i].mode == Dice.Rolled
    ensures forall i :: 0 <= i < |s.tabs| ==>
      TickStep(s).tabs[i].valueMode == Ind.Unpopulated && !TickStep(s).tabs[i].recommended
    ensures TickStep(s).role == Ind.Roll && TickStep(s).result == Ind.Playing
  {
    assert !Pieces.IsRetired(TickStep(s).blocks[0]);
  }

  /** Won is entered only by a tick in Base when every piece is retired. */
  lemma WonOnlyFromBase(s: GameState, e: Event)
    requires Inv(s) && WellFormed(s, e)
    requires s.stage != Won && Step(s, e).stage == Won
    ensures e == Tick && s.stage == Base && Rules.CheckIfWon(s.blocks)
  {
  }

  /** Lost is entered only by a tick in Rolled when the loss check holds for the committed roll. */
  lemma LostOnlyFromRolled(s: GameState, e: Event)
    requires WellFormed(s, e)
    requires s.stage != Lost && Step(s, e).stage == Lost
    ensures e == Tick && s.stage == Rolled && LossCheck.CheckIfLost(s.blocks, Roll(s))
  {
  }

  /**
    The game never declares a loss while a move exists: entering Lost means no
    selection of pieces in play adds up to the roll.
   */
  lemma LossIsGenuine(s: GameState, e: Event, pick: seq<bool>)
    requires Inv(s) && WellFormed(s, e)
    requires s.stage != Lost && Step(s, e).stage == Lost
    requires LossCheck.IsMoveFor(s.blocks, pick)
    ensures LossCheck.PickSum(s.blocks, pick) != Roll(s)
  {
    LostOnlyFromRolled(s, e);
    if LossCheck.PickSum(s.blocks, pick) == Roll(s) {
      LossCheck.LossCheckSound(s.blocks, Roll(s), pick);
    }
  }

  /** Rolling advances to Rolled only on a tick once no die is spinning. */
  lemma RolledOnlyWhenStill(s: GameState, e: Event)
    requires WellFormed(s, e)
    requires s.stage != Rolled && Step(s, e).stage == Rolled
    ensures e == Tick && s.stage == Rolling && !Rules.CheckIfDiceRolling(s.dice)
  {
  }

  /** The button's role lags by one tick: the tick that enters Won still sets "roll"; the next sets "reset". */
  lemma WinTickRoleLags(s: GameState)
    requires s.stage == Base && Rules.CheckIfWon(s.blocks)
    ensures TickStep(s).stage == Won && TickStep(s).role == Ind.Roll
    ensures TickStep(TickStep(s)).role == Ind.Reset && TickStep(TickStep(s)).result == Ind.YouWon
  {
  }

  /** The tick that enters Lost still sets the role to "enter"; the next sets "reset". */
  lemma LossTickRoleLags(s: GameState)
    requires s.stage == Rolled && LossCheck.CheckIfLost(s.blocks, Roll(s))
    ensures TickStep(s).stage == Lost && TickStep(s).role == Ind.Enter
    ensures TickStep(TickStep(s)).role == Ind.Reset && TickStep(TickStep(s)).result == Ind.YouLost
  {
  }

  // ---------------------------------------------------------------- dice

  /** A die that is spinning keeps its committed value whatever happens. */
  lemma SpinningValueStable(s: GameState, e: Event, i: int)
    requires WellFormed(s, e) && 0 <= i < |s.dice| && s.dice[i].mode == Dice.Rolling
    ensures |Step(s, e).dice| == |s.dice|
    ensures Step(s, e).dice[i].value == s.dice[i].value
  {
  }

  /** A roll click while every die is still spinning leaves all dice untouched. */
  lemma RollClickWhileSpinning(s: GameState, draws: seq<nat>)
    requires |draws| == |s.dice| && s.role == Ind.Roll
    requires forall i :: 0 <= i < |s.dice| ==> s.dice[i].mode == Dice.Rolling
    ensures ClickStep(s, draws).dice == s.dice && ClickStep(s, draws).stage == Rolling
  {
  }

  // ---------------------------------------------------------------- progress clicks

  /** An Enter click with a wrong selection is silently ignored. */
  lemma InvalidEnterIgnored(s: GameState, draws: seq<nat>)
    requires |draws| == |s.dice| && s.role == Ind.Enter
    requires !Rules.CheckIfValidMove(s.blocks, Roll(s))
    ensures ClickStep(s, draws) == s
  {
  }

  /** Number of retired pieces. */
  function RetiredCount(blocks: seq<Pieces.Block>): (n: nat)
    ensures n <= |blocks|
  {
    if |blocks| == 0 then 0
    else (if Pieces.IsRetired(blocks[0]) then 1 else 0) + RetiredCount(blocks[1..])
  }

  /** Retiring a selection that contains some piece strictly increases the retired count. */
  lemma {:induction false} RetireSelectedGrows(blocks: seq<Pieces.Block>)
    requires exists i :: 0 <= i < |blocks| && Pieces.IsSelected(blocks[i])
    ensures RetiredCount(Rules.RetireSelected(blocks)) > RetiredCount(blocks)
  {
    var r := Rules.RetireSelected(blocks);
    assert r[1..] == Rules.RetireSelected(blocks[1..]);
    RetiredNeverShrinks(blocks[1..], r[1..]);
    if !Pieces.IsSelected(blocks[0]) {
      var i :| 0 <= i < |blocks| && Pieces.IsSelected(blocks[i]);
      assert Pieces.IsSelected(blocks[1..][i - 1]);
      RetireSelectedGrows(blocks[1..]);
    }
  }

  /** When every retired piece stays retired, the retired count does not drop. */
  lemma {:induction false} RetiredNeverShrinks(a: seq<Pieces.Block>, b: seq<Pieces.Block>)
    requires |a| == |b|
    requires forall i :: 0 <= i < |a| && Pieces.IsRetired(a[i]) ==> Pieces.IsRetired(b[i])
    ensures RetiredCount(a) <= RetiredCount(b)
  {
    if |a| > 0 {
      RetiredNeverShrinks(a[1..], b[1..]);
    }
  }

  /** A valid Enter click retires at least one piece (the roll is at least 2) and returns to Base. */
  lemma ValidEnterRetires(s: GameState, draws: seq<nat>)
    requires Inv(s) && |draws| == |s.dice| && s.role == Ind.Enter
    requires Rules.CheckIfValidMove(s.blocks, Roll(s))
    ensures ClickStep(s, draws).stage == Base
    ensures RetiredCount(ClickStep(s, draws).blocks) > RetiredCount(s.blocks)
  {
    RollInRange(s);
    Rules.ValidMoveSelectsSome(s.blocks, Roll(s));
    RetireSelectedGrows(s.blocks);
  }

  /** A click while the button says "reset" always sends the game back to Start. */
  lemma ResetClickRestarts(s: GameState, draws: seq<nat>)
    requires |draws| == |s.dice| && s.role == Ind.Reset
    ensures ClickStep(s, draws).stage == Start
  {
  }

  /** A retired piece stays retired under every event except a tick from Start. */
  lemma RetiredStaysRetired(s: GameState, e: Event, i: int)
    requires WellFormed(s, e) && 0 <= i < |s.blocks| && Pieces.IsRetired(s.blocks[i])
    requires !(e == Tick && s.stage == Start)
    ensures |Step(s, e).blocks| == |s.blocks| && Pieces.IsRetired(Step(s, e).blocks[i])
  {
  }

  // ---------------------------------------------------------------- runs

  predicate RunOk(s: GameState, es: seq<Event>)
    decreases |es|
  {
    |es| == 0 || (WellFormed(s, es[0]) && RunOk(Step(s, es[0]), es[1..]))
  }

  function Run(s: GameState, es: seq<Event>): GameState
    requires RunOk(s, es)
    decreases |es|
  {
    if |es| == 0 then s else Run(Step(s, es[0]), es[1..])
  }

  /** No tick happens in the Start stage along the run, so no new game begins. */
  predicate NoRestart(s: GameState, es: seq<Event>)
    requires RunOk(s, es)
    decreases |es|
  {
    |es| == 0 || (!(es[0] == Tick && s.stage == Start) && NoRestart(Step(s, es[0]), es[1..]))
  }

  /** The number of Enter clicks along the run that were accepted as valid moves. */
  function ValidMoves(s: GameState, es: seq<Event>): nat
    requires RunOk(s, es)
    decreases |es|
  {
    if |es| == 0 then 0
    else
      (if es[0].ProgressClick? && s.role == Ind.Enter && Rules.CheckIfValidMove(s.blocks, Roll(s)) then 1 else 0)
      + ValidMoves(Step(s, es[0]), es[1..])
  }

  /** Every state reached from an invariant state satisfies the invariant. */
  lemma {:induction false} RunPreservesInv(s: GameState, es: seq<Event>)
    requires Inv(s) && RunOk(s, es)
    ensures Inv(Run(s, es))
    decreases |es|
  {
    if |es| > 0 {
      StepPreservesInv(s, es[0]);
      RunPreservesInv(Step(s, es[0]), es[1..]);
    }
  }

  /**
    Within one game (no restart), each accepted move retires at least one more
    piece for good, so a game has at most nine valid moves.
   */
  lemma {:induction false} EpisodeMoveBound(s: GameState, es: seq<Event>)
    requires Inv(s) && RunOk(s, es) && NoRestart(s, es)
    ensures RetiredCount(s.blocks) + ValidMoves(s, es) <= RetiredCount(Run(s, es).blocks)
    ensures ValidMoves(s, es) <= Rules.NUM_BLOCKS
    decreases |es|
  {
    if |es| > 0 {
      var e := es[0];
      var s' := Step(s, e);
      StepPreservesInv(s, e);
      EpisodeMoveBound(s', es[1..]);
      RunPreservesInv(s', es[1..]);
      forall i | 0 <= i < |s.blocks| && Pieces.IsRetired(s.blocks[i])
        ensures Pieces.IsRetired(s'.blocks[i])
      {
        RetiredStaysRetired(s, e, i);
      }
      RetiredNeverShrinks(s.blocks, s'.blocks);
      if e.ProgressClick? && s.role == Ind.Enter && Rules.CheckIfValidMove(s.blocks, Roll(s)) {
        ValidEnterRetires(s, e.draws);
      }
    }
  }

  // ---------------------------------------------------------------- input dispatch

  /** Each key reaches exactly one handler, the same one the matching abstract event runs; other keys do nothing. */
  lemma KeyDispatch(s: GameState, code: int, draws: seq<nat>)
    requires Inv(s) && |draws| == |s.dice|
    ensures code == KEY_SPACE || code == KEY_RETURN ==> KeyTyped(s, code, draws) == Step(s, ProgressClick(draws))
    ensures KEY_ONE <= code <= KEY_NINE ==> KeyTyped(s, code, draws) == Step(s, ToggleBlock(code - KEY_ONE))
    ensures code == KEY_R ==> KeyTyped(s, code, draws) == Step(s, ToggleAi)
    ensures code !in {KEY_SPACE, KEY_RETURN, KEY_R} && !(KEY_ONE <= code <= KEY_NINE) ==> KeyTyped(s, code, draws) == s
  {
  }

  /** A click that hits only the progress button, or only the show/hide button, is that event. */
  lemma MouseDispatch(s: GameState, draws: seq<nat>)
    requires |draws| == |s.dice|
    ensures MouseClicked(s, seq(|s.blocks|, _ => false), true, false, draws) == Step(s, ProgressClick(draws))
    ensures MouseClicked(s, seq(|s.blocks|, _ => false), false, true, draws) == Step(s, ToggleAi)
  {
    NoHits(s, seq(|s.blocks|, _ => false), 0);
  }

  lemma {:induction false} NoHits(s: GameState, hits: seq<bool>, from: nat)
    requires from <= |hits|
    requires forall k :: from <= k < |hits| ==> !hits[k]
    ensures ToggleHits(s, hits, from) == s
    decreases |hits| - from
  {
    if from < |hits| {
      NoHits(s, hits, from + 1);
    }
  }

  /**
    The piece toggles of a click: from position `from` on, each piece the
    click hit is toggled once and every other piece is left alone; nothing
    but the pieces changes.
   */
  lemma {:induction false} ToggleHitsSpec(s: GameState, hits: seq<bool>, from: nat)
    requires from <= |hits| == |s.blocks|
    ensures ToggleHits(s, hits, from) == s.(blocks := ToggleHits(s, hits, from).blocks)
    ensures |ToggleHits(s, hits, from).blocks| == |s.blocks|
    ensures forall i :: 0 <= i < |s.blocks| ==>
      ToggleHits(s, hits, from).blocks[i] ==
        if from <= i && hits[i] then Pieces.ToggleSelected(s.blocks[i]) else s.blocks[i]
    decreases |hits| - from
  {
    if from < |hits| {
      var s1 := if hits[from] then ToggleStep(s, from) else s;
      ToggleHitsSpec(s1, hits, from + 1);
    }
  }

  /** A click with neither button hit toggles exactly the pieces it hit and changes nothing else. */
  lemma MouseTogglesHits(s: GameState, hits: seq<bool>, draws: seq<nat>)
    requires |hits| == |s.blocks| && |draws| == |s.dice|
    ensures var r := MouseClicked(s, hits, false, false, draws);
      r == s.(blocks := r.blocks) && |r.blocks| == |s.blocks| &&
      forall i :: 0 <= i < |s.blocks| ==>
        r.blocks[i] == if hits[i] then Pieces.ToggleSelected(s.blocks[i]) else s.blocks[i]
  {
    ToggleHitsSpec(s, hits, 0);
  }
}
