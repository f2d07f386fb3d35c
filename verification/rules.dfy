/**
  The rule helpers of the browser game (game.js, "HELPER FUNCTIONS"): win and
  move checks, the dice total, retiring a confirmed move, and the board hash
  exchanged with the advisory service. The loss check lives in LossCheck.
 */
module Rules {
  import opened Pieces
  import Dice
  import opened Indicators
  import opened Bits
  import opened Seqs

  const NUM_BLOCKS: nat := 9
  const NUM_DICE: nat := 2
  const NUM_DICE_SIDES: nat := 6

  /** check_if_won: the game is won exactly when every piece is retired. */
  function CheckIfWon(blocks: seq<Block>): (r: bool)
    ensures r <==> forall i :: 0 <= i < |blocks| ==> IsRetired(blocks[i])
  {
    if |blocks| == 0 then true
    else IsRetired(blocks[0]) && CheckIfWon(blocks[1..])
  }

  /** check_if_dice_rolling: some die is still spinning. */
  function CheckIfDiceRolling(dice: seq<Dice.Die>): (r: bool)
    ensures r <==> exists i :: 0 <= i < |dice| && dice[i].mode == Dice.Rolling
  {
    if |dice| == 0 then false
    else dice[0].mode == Dice.Rolling || CheckIfDiceRolling(dice[1..])
  }

  /** Total value of the selected pieces. */
  function SelectedSum(blocks: seq<Block>): int {
    if |blocks| == 0 then 0
    else (if IsSelected(blocks[0]) then blocks[0].value else 0) + SelectedSum(blocks[1..])
  }

  /** Total value of the retired pieces. */
  function RetiredSum(blocks: seq<Block>): int {
    if |blocks| == 0 then 0
    else (if IsRetired(blocks[0]) then blocks[0].value else 0) + RetiredSum(blocks[1..])
  }

  /** check_if_valid_move: the selected pieces add up to exactly the roll. */
  predicate CheckIfValidMove(blocks: seq<Block>, roll: int) {
    roll == SelectedSum(blocks)
  }

  /** With positive piece values, a valid move for a positive roll selects at least one piece. */
  lemma {:induction false} ValidMoveSelectsSome(blocks: seq<Block>, roll: int)
    requires forall i :: 0 <= i < |blocks| ==> blocks[i].value > 0
    requires roll > 0 && CheckIfValidMove(blocks, roll)
    ensures exists i :: 0 <= i < |blocks| && IsSelected(blocks[i])
  {
    if !IsSelected(blocks[0]) {
      ValidMoveSelectsSome(blocks[1..], roll);
      var i :| 0 <= i < |blocks[1..]| && IsSelected(blocks[1..][i]);
      assert IsSelected(blocks[i + 1]);
    }
  }

  /** get_dice_roll: the sum of the committed values of all dice. */
  function GetDiceRoll(dice: seq<Dice.Die>): int {
    if |dice| == 0 then 0 else dice[0].value + GetDiceRoll(dice[1..])
  }

  /** With every die showing 1..sides, the roll lies in |dice|..|dice|*sides (2..12 for two six-sided dice). */
  lemma {:induction false} DiceRollRange(dice: seq<Dice.Die>, sides: int)
    requires forall i :: 0 <= i < |dice| ==> 1 <= dice[i].value <= sides
    ensures |dice| <= GetDiceRoll(dice) <= |dice| * sides
  {
    if |dice| > 0 {
      DiceRollRange(dice[1..], sides);
    }
  }

  /** retire_selected: the selected pieces become retired; every other piece keeps its mode. */
  function RetireSelected(blocks: seq<Block>): (r: seq<Block>)
    ensures |r| == |blocks|
    ensures forall i :: 0 <= i < |blocks| ==> r[i].value == blocks[i].value
    ensures forall i :: 0 <= i < |blocks| && IsSelected(blocks[i]) ==> IsRetired(r[i])
    ensures forall i :: 0 <= i < |blocks| && !IsSelected(blocks[i]) ==> r[i] == blocks[i]
  {
    if |blocks| == 0 then []
    else [if IsSelected(blocks[0]) then ToRetired(blocks[0]) else blocks[0]] + RetireSelected(blocks[1..])
  }

  /** A confirmed move adds exactly the selected total to the retired total. */
  lemma {:induction false} RetireSelectedMovesSum(blocks: seq<Block>)
    ensures RetiredSum(RetireSelected(blocks)) == RetiredSum(blocks) + SelectedSum(blocks)
  {
    if |blocks| > 0 {
      RetireSelectedMovesSum(blocks[1..]);
      assert RetireSelected(blocks)[1..] == RetireSelected(blocks[1..]);
    }
  }

  /**
    hash_blocks: adds 2^i for every piece i still on the board, in board order.
    Bit i of the result says whether piece i is in play, and the hash fits in
    |blocks| bits.
   */
  function HashBlocks(blocks: seq<Block>): (h: int)
    ensures 0 <= h < Pow2(|blocks|)
    ensures forall i :: 0 <= i < |blocks| ==> (Bit(h, i) <==> !IsRetired(blocks[i]))
    ensures forall i :: |blocks| <= i ==> !Bit(h, i)
  {
    if |blocks| == 0 then
      assert forall i :: !Bit(0, i) by {
        forall i ensures !Bit(0, i) { BitOfZero(i); }
      }
      0
    else
      var n := |blocks| - 1;
      var prev := HashBlocks(blocks[..n]);
      assert !Bit(prev, n) by { BitAboveBound(prev, n, n); }
      assert forall i :: 0 <= i < n ==> blocks[..n][i] == blocks[i];
      var h := prev + (if !IsRetired(blocks[n]) then Pow2(n) else 0);
      assert forall i :: Bit(h, i) <==> ((i == n && !IsRetired(blocks[n])) || Bit(prev, i)) by {
        forall i
          ensures Bit(h, i) <==> ((i == n && !IsRetired(blocks[n])) || Bit(prev, i))
        {
          if !IsRetired(blocks[n]) { BitAddFresh(prev, n, i); }
        }
      }
      assert forall i :: |blocks| <= i ==> !Bit(h, i) by {
        forall i | |blocks| <= i
          ensures !Bit(h, i)
        {
          BitAboveBound(prev, n, i);
        }
      }
      assert h < Pow2(|blocks|) by {
        if !IsRetired(blocks[n]) { AddFreshBelow(prev, n, n + 1); }
      }
      h
  }

  /**
    The decoding loop of unhash_moves: `count` rounds starting at index `i`. While the
    code is above 1 it reports odd codes and halves; a code of exactly 1 is
    reported and cleared; a code of 0 or less reports nothing. On a non-negative
    code it lists, in ascending order, the positions i..i+count-1 whose bit is set.
   */
  function Collect(h: int, i: nat, count: nat): seq<nat>
    decreases count
  {
    if count == 0 then []
    else if h > 1 then (if h % 2 == 1 then [i] else []) + Collect(h / 2, i + 1, count - 1)
    else if h == 1 then [i] + Collect(0, i + 1, count - 1)
    else Collect(h, i + 1, count - 1)
  }

  lemma {:induction false} CollectSpec(h: int, i: nat, count: nat)
    ensures forall x :: x in Collect(h, i, count) ==> i <= x < i + count
    ensures StrictlyIncreasing(Collect(h, i, count))
    ensures h >= 0 ==> forall k :: 0 <= k < count ==> (i + k in Collect(h, i, count) <==> Bit(h, k))
    ensures h < 0 ==> Collect(h, i, count) == []
  {
    CollectRange(h, i, count);
    CollectIncreasing(h, i, count);
    if h >= 0 {
      CollectBits(h, i, count);
    } else {
      CollectNegative(h, i, count);
    }
  }

  lemma {:induction false} CollectRange(h: int, i: nat, count: nat)
    ensures forall x :: x in Collect(h, i, count) ==> i <= x < i + count
    decreases count
  {
    if count > 0 {
      if h > 1 {
        CollectRange(h / 2, i + 1, count - 1);
      } else if h == 1 {
        CollectRange(0, i + 1, count - 1);
      } else {
        CollectRange(h, i + 1, count - 1);
      }
    }
  }

  lemma {:induction false} CollectIncreasing(h: int, i: nat, count: nat)
    ensures StrictlyIncreasing(Collect(h, i, count))
    decreases count
  {
    if count > 0 {
      var h' := if h > 1 then h / 2 else if h == 1 then 0 else h;
      CollectIncreasing(h', i + 1, count - 1);
      CollectRange(h', i + 1, count - 1);
      PrependIncreasing(i, Collect(h', i + 1, count - 1));
    }
  }

  lemma {:induction false} CollectNegative(h: int, i: nat, count: nat)
    requires h < 0
    ensures Collect(h, i, count) == []
    decreases count
  {
    if count > 0 {
      CollectNegative(h, i + 1, count - 1);
    }
  }

  lemma {:induction false} CollectBits(h: int, i: nat, count: nat)
    requires h >= 0
    ensures forall k :: 0 <= k < count ==> (i + k in Collect(h, i, count) <==> Bit(h, k))
    decreases count
  {
    if count > 0 {
      var h' := if h > 1 then h / 2 else 0;
      CollectBits(h', i + 1, count - 1);
      CollectRange(h', i + 1, count - 1);
      var rest := Collect(h', i + 1, count - 1);
      assert Collect(h, i, count) == (if h % 2 == 1 then [i] else []) + rest;
      forall k | 0 <= k < count
        ensures i + k in Collect(h, i, count) <==> Bit(h, k)
      {
        if k > 0 {
          assert i + k == (i + 1) + (k - 1);
          assert i + k in rest <==> Bit(h', k - 1);
          if h <= 1 {
            BitOfZero(k - 1);
          }
        }
      }
    }
  }

  /** A cleared code decodes to nothing. */
  lemma {:induction false} CollectZero(i: nat, count: nat)
    ensures Collect(0, i, count) == []
    decreases count
  {
    if count > 0 {
      CollectZero(i + 1, count - 1);
    }
  }

  /** unhash_moves: the positions of the set bits among the lowest NUM_BLOCKS+1, ascending. */
  function UnhashMoves(h: int): (r: seq<nat>)
    ensures StrictlyIncreasing(r)
    ensures forall x :: x in r ==> x <= NUM_BLOCKS
    ensures h >= 0 ==> forall x :: 0 <= x <= NUM_BLOCKS ==> (x in r <==> Bit(h, x))
  {
    CollectSpec(h, 0, NUM_BLOCKS + 1);
    Collect(h, 0, NUM_BLOCKS + 1)
  }

  lemma UnhashZero()
    ensures UnhashMoves(0) == []
  {
    CollectZero(0, NUM_BLOCKS + 1);
  }

  lemma UnhashFive()
    ensures UnhashMoves(5) == [0, 2]
  {
    assert Collect(5, 0, 10) == [0] + Collect(2, 1, 9);
    assert Collect(2, 1, 9) == Collect(1, 2, 8);
    assert Collect(1, 2, 8) == [2] + Collect(0, 3, 7);
    CollectZero(3, 7);
  }

  /**
    For a board of at most NUM_BLOCKS+1 pieces, decoding the board hash lists,
    in ascending order, exactly the indices of the pieces still in play.
   */
  lemma BoardHashRoundTrip(blocks: seq<Block>)
    requires |blocks| <= NUM_BLOCKS + 1
    ensures StrictlyIncreasing(UnhashMoves(HashBlocks(blocks)))
    ensures forall x :: x in UnhashMoves(HashBlocks(blocks)) <==> 0 <= x < |blocks| && !IsRetired(blocks[x])
  {
    var h := HashBlocks(blocks);
    var r := UnhashMoves(h);
    forall x
      ensures x in r <==> 0 <= x < |blocks| && !IsRetired(blocks[x])
    {
      if x in r {
        assert 0 <= x <= NUM_BLOCKS && Bit(h, x);
      } else if 0 <= x < |blocks| {
        assert !Bit(h, x);
      }
    }
  }

  /** Marks the tab of each recommended value (tab v-1 for value v); an out-of-range value raises and stops the loop. */
  function MarkTabs(tabs: seq<AiTab>, moves: seq<int>): (r: seq<AiTab>)
    ensures |r| == |tabs|
    ensures forall k :: 0 <= k < |tabs| ==>
      r[k].display == tabs[k].display && r[k].valueMode == tabs[k].valueMode
    ensures forall k :: 0 <= k < |tabs| && tabs[k].recommended ==> r[k].recommended
    ensures (forall j :: 0 <= j < |moves| ==> 1 <= moves[j] <= |tabs|) ==>
      forall k :: 0 <= k < |tabs| ==> (r[k].recommended <==> tabs[k].recommended || k + 1 in moves)
    decreases |moves|
  {
    if |moves| == 0 then tabs
    else if 1 <= moves[0] <= |tabs| then
      MarkTabs(tabs[moves[0] - 1 := SetValue(tabs[moves[0] - 1], true)], moves[1..])
    else
      tabs
  }

  /**
    load_ai_tabs: every tab is reset, then the tab of each recommended value is
    marked. Visibility is never touched and no recommendation is revealed; when
    every value is a piece value, exactly the recommended pieces' tabs are marked.
   */
  function LoadAiTabs(tabs: seq<AiTab>, moves: seq<int>): (r: seq<AiTab>)
    ensures |r| == |tabs|
    ensures forall k :: 0 <= k < |tabs| ==> r[k].display == tabs[k].display && r[k].valueMode == Unpopulated
    ensures (forall j :: 0 <= j < |moves| ==> 1 <= moves[j] <= |tabs|) ==>
      forall k :: 0 <= k < |tabs| ==> (r[k].recommended <==> k + 1 in moves)
  {
    MarkTabs(seq(|tabs|, k requires 0 <= k < |tabs| => ResetTab(tabs[k])), moves)
  }
}
