# Shut the Box: the browser game and its move simulator

This project models the two halves of the MagicBox "Shut the Box" game.

**The browser game** (`game.js`) shows:
- nine numbered pieces that the player selects and retires;
- two six-sided dice;
- a progress button whose label reads roll, enter or reset;
- a row of advice indicators, with a show/hide toggle;
- a won/lost banner.

**The Python simulator** (`MagicBox.py`) keeps a box of switches. It rolls dice, applies moves, lists every legal move for a roll, and encodes boxes and moves as integers. The game and the simulator exchange those integers. Two kinds of code travel between them:
- the board code, which the game sends;
- the advice code, which comes back.

## Modules

- `Pieces`: a piece and its three modes, base, selected and retired.
- `Dice`: a die and its animation.
- `Indicators`: the advice indicator, the show/hide label, the progress-button roles and the banner modes.
- `Rules`: the game's rule helpers. These are:
  - the won and rolling checks;
  - the valid-move check;
  - the dice total;
  - retiring the selected pieces;
  - the board code and its decoding;
  - loading the advice into the indicators.
- `LossCheck`: the game's lost check.
- `Game`: the game's state and `update()` as a pure step function over events. The events are:
  - a frame tick;
  - a piece toggle;
  - a progress click;
  - the show/hide toggle;
  - a dice animation frame;
  - the arrival of the advice.

  The `Game` module also models the keyboard and mouse handlers.
- `MagicBox`: the simulator's box operations and its four hash functions.
- `BoxActions`: the simulator's move enumerator, `_get_actions`.
- `Agreement`: how the two halves fit together. The board code equals the box hash. The advice code lights exactly the advised pieces. A roll that has a move is never declared lost.
- `Deadlock`: what the gap in the game's lost check does to a running game.

## How randomness is modelled

Randomness is an oracle. Every random number becomes a `nat` "draw" carried by the event that consumes it, and a die face is `draw % sides + 1`. This covers every value `Math.floor(Math.random() * sides + 1)` can produce, and it gives 1 for a zero-sided die, as that expression does.

## The lost check

The game's `check_if_lost` is not a complete search. Its recursion continues with `index + 1` instead of `i + 1`, so the same candidate can be picked more than once on one path. The only thing that stops this is a rule that skips a value equal to the one just picked.

The model keeps this as written:
- `LossCheck.LossCheckSound` proves the check never declares a game lost while a legal move exists.
- `LossCheck.LossCheckIncomplete` exhibits a board where the check fails to declare a loss. Pieces 1, 2 and 3 are in play and the roll is 8. The path 3, 2, 3 reaches 8 by using piece 3 twice.
- `Deadlock.StuckIsForever` and `Deadlock.StuckRun` show that such a game stays in the Rolled stage under every event. No piece is ever retired again.

## Model

| member | source | states |
|---|---|---|
| Pieces.NewBlock | game.js:624-636 | a new piece carries its value and is neither selected nor retired |
| Pieces.ToggleSelected | game.js:638-647 | toggling keeps the value; a retired piece is untouched; a piece in play flips between selected and not selected |
| Pieces.ToggleTwice | game.js:638-647 | toggling twice restores the piece |
| Pieces.ToRetired | game.js:649-651 | retiring keeps the value and makes the piece retired |
| Pieces.Reset | game.js:661-663 | a reset piece keeps its value and is back in play, unselected |
| Dice.Generate | game.js:770-772 | a drawn face lies in 1..sides; a zero-sided die gives 1 |
| Dice.GenerateCovers | game.js:770-772 | every face 1..sides is produced by some draw |
| Dice.NewDie | game.js:752-764 | a new die is idle at angle 0, shows its value, and the value is a legal face |
| Dice.Reset | game.js:766-768 | reset makes the die idle without changing its value |
| Dice.StartRoll | game.js:778-786 | an idle die commits a new legal value, returns it and starts rolling; a rolling die is unchanged and 0 is returned |
| Dice.Animate | game.js:788-803 | a frame never changes the committed value; an idle die shows its value at angle 0; a rolling die advances 24 degrees, or stops at 1440 |
| Dice.AnimateN | game.js:788-803 | any number of frames keeps the committed value and the number of sides |
| Dice.SpinProgress | game.js:788-803 | while the angle stays below 1440 the die keeps rolling, 24 degrees per frame |
| Dice.RollLastsSixtyFrames | game.js:788-803 | from angle 0 a roll spins for exactly 60 frames and then stops with its committed value |
| Indicators.NewTab | game.js:1001-1008 | a new indicator is visible, unpopulated and recommends nothing |
| Indicators.ResetTab | game.js:1010-1013 | reset clears the recommendation and unpopulates, keeping the show/hide choice |
| Indicators.ToPopulated | game.js:1019-1021 | only the value mode changes, to populated |
| Indicators.ToUnpopulated | game.js:1015-1017 | only the value mode changes, to unpopulated |
| Indicators.ToggleVisible | game.js:1023-1029 | the display mode flips; the recommendation and value mode are kept |
| Indicators.SetValue | game.js:1031-1033 | only the recommendation changes, to the given value |
| Indicators.ToggleLabel | game.js:916-924 | the show/hide label always changes |
| Indicators.LabelFor | game.js:906-924 | the label reads "hide ai" exactly when the indicators are visible |
| Indicators.ToggleKeepsLabelInStep | game.js:322-337 | toggling an indicator and the label together keeps the label matching the indicator |
| Rules.CheckIfWon | game.js:410-417 | won holds exactly when every piece is retired |
| Rules.CheckIfDiceRolling | game.js:419-426 | true exactly when some die is rolling |
| Rules.CheckIfValidMove | game.js:428-436 | valid when the selected values add up to the roll (no contract of its own; ValidMoveSelectsSome states it) |
| Rules.ValidMoveSelectsSome | game.js:428-436 | with positive piece values, a valid move for a positive roll selects some piece |
| Rules.GetDiceRoll | game.js:490-498 | the total of the dice values (no contract of its own; DiceRollRange states it) |
| Rules.DiceRollRange | game.js:490-498 | with every face in 1..sides, the total lies between the number of dice and dice times sides |
| Rules.RetireSelected | game.js:500-506 | exactly the selected pieces become retired; values and all other pieces are unchanged |
| Rules.RetireSelectedMovesSum | game.js:500-506 | retiring adds the selected total to the retired total |
| Rules.HashBlocks | game.js:512-520 | bit i of the board code is set exactly when piece i is in play; the code is below 2 to the number of pieces |
| Rules.CollectSpec | game.js:525-539 | the decoding loop yields, in increasing order, the positions of the set bits among those it visits; a negative code yields nothing |
| Rules.UnhashMoves | game.js:525-539 | the decoded moves are increasing, at most 9, and are exactly the set bits 0..9 |
| Rules.UnhashFive | game.js:525-539 | code 5 decodes to positions 0 and 2 |
| Rules.BoardHashRoundTrip | game.js:512-539 | decoding a board code lists exactly the positions of the pieces in play |
| Rules.MarkTabs | game.js:484-487 | with in-range moves, an indicator ends up recommended exactly when it was already recommended or its number is a move |
| Rules.LoadAiTabs | game.js:480-488 | every indicator is unpopulated and keeps its display; with in-range moves, exactly the indicators of the moves are recommended |
| LossCheck.Eligible | game.js:442-447 | a value is a candidate exactly when it is at most the roll and some piece in play has it; there are no more candidates than pieces |
| LossCheck.Search | game.js:441-470 | one call of the inner search: a negative remainder fails, zero succeeds, otherwise its loop runs (no contract of its own; SearchFinds and SearchRevisitsPiece state it) |
| LossCheck.Branches | game.js:452-466 | the loop of one search call: candidate i is tried unless it equals the parent's value, and the recursion continues at the caller's level plus one (stated by the same lemmas) |
| LossCheck.CheckIfLost | game.js:441-470 | lost when the search from the whole roll finds nothing (no contract of its own; LossCheckSound and LossCheckIncomplete state it) |
| LossCheck.SearchFinds | game.js:452-466 | over distinct positive candidates, the search succeeds when increasing candidate positions from its level on add up to the remainder and the first differs from the parent's value |
| LossCheck.LossCheckSound | game.js:441-470 | on a board of distinct positive values, a selection of pieces in play that adds up to the roll means the game is not lost |
| LossCheck.LossCheckIncomplete | game.js:441-470 | with pieces 1, 2 and 3 in play and a roll of 8, no selection adds up to 8, yet the check does not declare a loss |
| Game.Init | game.js:175-226 | the game as first built (no contract of its own; InitSatisfiesInv states it) |
| Game.TickStep | game.js:263-318 | one pass of update() (no contract of its own; the stage lemmas below state it) |
| Game.ClickStep | game.js:370-406 | progress_button_click, chosen by the button's role (no contract of its own; RollClickWhileSpinning, InvalidEnterIgnored, ValidEnterRetires and ResetClickRestarts state it) |
| Game.Step | game.js:263-406 | one event of the game (no contract of its own; StepPreservesInv and RetiredStaysRetired state it) |
| Game.KeyTyped | game.js:322-337 | keyTyped (no contract of its own; KeyDispatch states it) |
| Game.MouseClicked | game.js:341-362 | mouseClicked, with the hit-test supplied as inputs (no contract of its own; MouseDispatch, MouseTogglesHits and NoHits state it) |
| Game.InitSatisfiesInv | game.js:175-226 | the initial game has nine pieces valued 1..9, nine indicators, two legal six-sided dice and a matching label |
| Game.StepPreservesInv | game.js:263-318 | every event keeps the invariant |
| Game.InvDistinctPositive | game.js:188-199 | the pieces have distinct positive values |
| Game.RollInRange | game.js:490-498 | the dice total is always between 2 and 12 |
| Game.StartTickLandsInBase | game.js:266-287 | the first tick of a new game resets every piece, die and indicator, sets the role to roll and lands in Base |
| Game.WonOnlyFromBase | game.js:275-278 | Won is entered only by a tick in Base with every piece retired |
| Game.LostOnlyFromRolled | game.js:295-304 | Lost is entered only by a tick in Rolled when the lost check holds for the committed roll |
| Game.LossIsGenuine | game.js:295-304 | when the game enters Lost, no selection of pieces in play adds up to the roll |
| Game.RolledOnlyWhenStill | game.js:289-293 | Rolled is entered only by a tick in Rolling once no die spins |
| Game.WinTickRoleLags | game.js:275-310 | the tick that enters Won leaves the role at roll; the next tick shows reset and the win banner |
| Game.LossTickRoleLags | game.js:295-316 | the tick that enters Lost leaves the role at enter; the next tick shows reset and the loss banner |
| Game.SpinningValueStable | game.js:778-803 | no event changes the committed value of a rolling die |
| Game.RollClickWhileSpinning | game.js:372-376 | a roll click while every die spins leaves the dice alone and the stage at Rolling |
| Game.InvalidEnterIgnored | game.js:399-403 | an enter click with a selection that does not match the roll changes nothing |
| Game.RetireSelectedGrows | game.js:500-506 | retiring a non-empty selection increases the number of retired pieces |
| Game.ValidEnterRetires | game.js:399-403 | an accepted enter click retires at least one piece and returns to Base |
| Game.ResetClickRestarts | game.js:404-406 | a click while the role is reset starts a new game |
| Game.RetiredStaysRetired | game.js:263-406 | a retired piece stays retired under every event except the tick that starts a new game |
| Game.RunPreservesInv | game.js:263-406 | every state reached by a run of events keeps the invariant |
| Game.EpisodeMoveBound | game.js:399-403 | within one game every accepted move retires a piece for good, so there are at most nine accepted moves |
| Game.KeyDispatch | game.js:322-337 | space and return click the button; keys 1..9 toggle pieces 0..8; R toggles the indicators; other keys do nothing |
| Game.MouseDispatch | game.js:341-362 | a click on just the progress button, or just the show/hide button, is that event |
| Game.ToggleHitsSpec | game.js:346-350 | from a given position on, each piece the click hit is toggled once, every other piece is left alone, and nothing but the pieces changes |
| Game.MouseTogglesHits | game.js:341-362 | a click that hits neither button toggles exactly the pieces it hit and changes nothing else |
| Game.NoHits | game.js:346-350 | the piece toggles of a click that hits no piece change nothing |
| MagicBox.New | MagicBox.py:8-12 | a new simulator keeps its settings and has every switch up |
| MagicBox.Reset | MagicBox.py:15-16 | reset keeps the settings and puts every switch up |
| MagicBox.Solved | MagicBox.py:18-19 | solved holds exactly when every switch is down |
| MagicBox.RollDice | MagicBox.py:22-26 | with at least one side the total lies between numDice and numDice times sides; no dice give 0; with dice but fewer than one side there is no total (Python raises) |
| MagicBox.RandInt | MagicBox.py:22-26 | a face lies in 1..sides; with fewer than one side there is no face (Python raises) |
| MagicBox.SumDraws | MagicBox.py:22-26 | the total of the faces lies between the number of dice and dice times sides |
| MagicBox.GetAllPossibleRolls | MagicBox.py:52-53 | the listed rolls are increasing and are exactly numDice..numDice*sides |
| MagicBox.RollIsPossible | MagicBox.py:22-53 | every roll of the dice is a listed possible roll |
| MagicBox.PossibleRollsAreReachable | MagicBox.py:22-53 | every listed possible roll is produced by some draws |
| MagicBox.PyIndex | MagicBox.py:30-32 | an index in 0..n-1 reads that switch; an index k in -n..-1 counts from the end and reads switch n+k; any other index fails |
| MagicBox.Move | MagicBox.py:30-32 | with moves in 1..n the move succeeds, and switch i ends up exactly when it was up and i+1 is not a move |
| MagicBox.MoveSpec | MagicBox.py:30-32 | for any moves: an IndexError exactly when some move reads outside the box; otherwise a switch ends up exactly when it was up and no move names it, move 0 naming the last switch as `box[-1]` does; even a failing move only clears switches |
| MagicBox.MoveIdempotent | MagicBox.py:30-32 | making the same move twice changes nothing the second time |
| MagicBox.GetBox | MagicBox.py:36-37 | returns the switches; values are immutable here, so the copy is the box itself (no contract of its own) |
| MagicBox.ActiveNumbers | MagicBox.py:41-49 | the active numbers are increasing and are exactly the x with switch x-1 up |
| MagicBox.ResetActivatesAll | MagicBox.py:15-49 | after a reset all highNum numbers are active |
| MagicBox.BoxHash | MagicBox.py:118-125 | bit i of the box hash is set exactly when switch i is up; the hash is below 2 to the box size |
| MagicBox.DecodeBits | MagicBox.py:127-140 | the halving loop shared by both decoders (no contract of its own; DecodeBitsSpec states it) |
| MagicBox.DecodeBitsSpec | MagicBox.py:127-140 | the decoding loop yields one flag per round, flag i being bit i of a non-negative code and every flag false for a negative one |
| MagicBox.GetBoxFromHash | MagicBox.py:127-140 | the decoded box has highNum switches; switch i is bit i of a non-negative code; a negative code gives every switch down |
| MagicBox.BoxHashRoundTrip | MagicBox.py:118-140 | decoding the box's own hash gives back the box |
| MagicBox.MovesHash | MagicBox.py:142-146 | adds 2^a for each move a (no contract of its own; MovesHashBits states its bits) |
| MagicBox.MovesHashBits | MagicBox.py:142-146 | for distinct moves below n, bit a of the moves hash is set exactly when a is a move, and the hash is below 2^n |
| MagicBox.TrueIndices | MagicBox.py:160 | the enumerate-and-filter (no contract of its own; TrueIndicesSpec states it) |
| MagicBox.TrueIndicesSpec | MagicBox.py:160 | the enumerate-and-filter yields exactly the positions of the true flags, in increasing order |
| MagicBox.GetMovesFromHash | MagicBox.py:148-160 | the decoded moves are increasing and are exactly the x in 0..highNum whose bit is set in a non-negative code; a negative code gives none |
| MagicBox.MovesHashRoundTrip | MagicBox.py:142-160 | decoding the hash of distinct moves up to highNum gives the same moves in increasing order |
| BoxActions.Filter | MagicBox.py:58 | the filtered list holds exactly the numbers at most the roll and stays increasing |
| BoxActions.Explore | MagicBox.py:77-95 | one `_get_actions` call: a path that has reached the roll is an action; otherwise the loop runs over the numbers (no contract of its own; ExploreSound, ExploreComplete and ExploreDistinct state it) |
| BoxActions.Loop | MagicBox.py:77-95 | the loop of one call from candidate i on: for each number at most the roll it recurses on the earlier numbers at most the roll, with the number appended to the path (stated by the same three lemmas) |
| BoxActions.ExploreSound | MagicBox.py:77-95 | every action extends its path with strictly decreasing listed numbers adding up to the roll, and is non-empty at the top level |
| BoxActions.ExploreComplete | MagicBox.py:77-95 | every strictly decreasing completion from the listed numbers that adds up to the roll is produced |
| BoxActions.ExploreDistinct | MagicBox.py:77-95 | no action is produced twice |
| BoxActions.GetActions | MagicBox.py:57-63 | the actions for the current box, or None when there are none (no contract of its own; ActionsValid, ActionsComplete and NoActionsMeansNoMove state it) |
| BoxActions.GetActionsFromHash | MagicBox.py:66-73 | the same lookup on the box decoded from a hash (stated by ActionsFromOwnHash) |
| BoxActions.ActionsValid | MagicBox.py:57-63 | every action is a non-empty, strictly decreasing set of active numbers, each at most the roll, adding up to the roll |
| BoxActions.ActionsComplete | MagicBox.py:57-63 | every legal move is listed, exactly once |
| BoxActions.NoActionsMeansNoMove | MagicBox.py:57-63 | no actions means no legal move exists |
| BoxActions.ActionsFromOwnHash | MagicBox.py:66-73 | actions looked up through the box's own hash equal the actions of the box |
| Agreement.BoardCodeIsBoxHash | game.js:512-520 | the game's board code equals the simulator's hash of the mirrored box |
| Agreement.BoardCodeDecodes | MagicBox.py:127-140 | the simulator decodes the game's board code to the mirrored box |
| Agreement.AdviceMarksMove | game.js:386-393 | the advice code of a move, decoded and loaded, recommends exactly the pieces of the move |
| Agreement.PickOfMove | game.js:428-436 | a move's numbers as a selection of pieces valued 1..n add up to the move's total |
| Agreement.MoveMeansNotLost | game.js:441-470 | when the simulator lists a move for a board and a roll, the game does not declare that roll lost |
| Deadlock.StuckIsForever | game.js:263-406 | a game waiting on a roll the pieces in play cannot reach, with the lost check not firing, stays stuck on the same board under every event |
| Deadlock.StuckRun | game.js:263-406 | along any run a stuck game stays stuck and no piece changes between in play and retired |
| Deadlock.StuckExampleIsStuck | game.js:441-470 | the board with 1, 2, 3 in play and a roll of 8 is a stuck game that meets the invariant |

## Left out

- Drawing, canvas scaling, colours, piece bobbing, the dice faces shown while spinning (`display` is tracked but not drawn) and the banner text strings are not modelled. Hit-testing by coordinates is not modelled either: `MouseClicked` takes which objects were hit as inputs.
- The network request to the advisory service is not modelled. The board code and roll it sends are `Rules.HashBlocks` and `Game.Roll`. Its answer arrives as the `AdviceArrives` event, at any time, with any moves.
- `setup`, `windowResized`, `draw` and the p5 frame loop are not modelled. Each call of `update()` is one `Tick` and each dice frame is one `DiceAnimate`.
- Randomness is an oracle, as described above. Events that draw carry one draw per die; that is a precondition on the oracle's shape, not on the game.
- `keyTyped` with a key code outside the listed keys is a no-op. The keys 1..9 always index an existing piece.
- Rules.UnhashMoves: halving uses exact integer floor division. The source divides in floating point and truncates with p5's `int`, which for a number is `n | 0`, a 32-bit truncation. It agrees with floor halving only for codes below 2^32; above that the value wraps, possibly negative, and the loop stops early. The codes that occur are below 2^10.
- MagicBox.DecodeBits: halving uses exact integer floor division. Python's `int(h / 2)` goes through a float, which agrees only for codes below 2^53.
- The simulator's `highNum` is a natural number. Python accepts a negative `box_high_num`, which gives an empty box and empty decodes; that case is not modelled.
- MagicBox.MovesHash takes moves as natural numbers. A negative move, which would add a fractional `2**m`, is not modelled.
- MagicBox.RollDice: a negative number of dice rolls nothing and gives 0, as `range` does. Fewer than one side gives None where Python raises.
- `print_box` and the getters `get_dice_sides`, `get_num_dice` and `get_box_high_num` are not modelled. `MagicBoxAgent.py` and `grid_seach_example.py` are not part of this model.
- Actions are modelled as sequences in place of Python tuples, and lists of actions as sequences in place of Python lists.
