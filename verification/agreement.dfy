/**
  How the browser game and the Python simulator fit together: the board
  code the game sends is the simulator's box hash, the advice code the
  simulator sends back lights exactly the tabs of the advised move, and a
  roll for which the simulator has a move is never declared lost by the game.
 */
module Agreement {
  import opened Bits
  import opened Seqs
  import opened Pieces
  import Rules
  import MagicBox
  import BoxActions
  import LossCheck
  import Indicators

  /** The simulator's box for a board: switch i is up while piece i is in play. */
  predicate Mirrors(blocks: seq<Block>, box: seq<bool>) {
    && |blocks| == |box|
    && forall i :: 0 <= i < |box| ==> (box[i] <==> !IsRetired(blocks[i]))
  }

  /** The game's board code and the simulator's box hash are the same number. */
  lemma BoardCodeIsBoxHash(blocks: seq<Block>, box: seq<bool>)
    requires Mirrors(blocks, box)
    ensures Rules.HashBlocks(blocks) == MagicBox.BoxHash(box)
  {
    BitsDetermine(Rules.HashBlocks(blocks), MagicBox.BoxHash(box), |box|);
  }

  /** Decoding a board code on the simulator's side gives back the mirrored box. */
  lemma BoardCodeDecodes(m: MagicBox.MagicBox, blocks: seq<Block>)
    requires |m.box| == m.highNum && Mirrors(blocks, m.box)
    ensures MagicBox.GetBoxFromHash(m, Rules.HashBlocks(blocks)) == m.box
  {
    BoardCodeIsBoxHash(blocks, m.box);
    MagicBox.BoxHashRoundTrip(m);
  }

  /**
    Advice for a nine-piece board: the code of a move of distinct numbers
    1..9, decoded by the game, marks as recommended exactly the tabs of the
    pieces in the move, and unpopulates every tab.
   */
  lemma AdviceMarksMove(tabs: seq<Indicators.AiTab>, move: seq<nat>)
    requires |tabs| == Rules.NUM_BLOCKS
    requires Distinct(move) && forall j :: 0 <= j < |move| ==> 1 <= move[j] <= Rules.NUM_BLOCKS
    ensures var r := Rules.LoadAiTabs(tabs, Rules.UnhashMoves(MagicBox.MovesHash(move)));
      && |r| == |tabs|
      && (forall k :: 0 <= k < |tabs| ==> (r[k].recommended <==> k + 1 in move))
      && (forall k :: 0 <= k < |tabs| ==> r[k].valueMode == Indicators.Unpopulated)
  {
    var h := MagicBox.MovesHash(move);
    MagicBox.MovesHashBits(move, Rules.NUM_BLOCKS + 1);
    var u := Rules.UnhashMoves(h);
    forall j | 0 <= j < |u|
      ensures 1 <= u[j] <= |tabs|
    {
      assert u[j] in u;
    }
  }

  /** A selection of board positions whose values are the numbers of a move. */
  lemma {:induction false} PickOfMove(blocks: seq<Block>, a: seq<int>) returns (pick: seq<bool>)
    requires forall i :: 0 <= i < |blocks| ==> blocks[i].value == i + 1
    requires Distinct(a) && forall k :: 0 <= k < |a| ==> 1 <= a[k] <= |blocks|
    ensures |pick| == |blocks|
    ensures forall i :: 0 <= i < |blocks| ==> (pick[i] <==> i + 1 in a)
    ensures LossCheck.PickSum(blocks, pick) == Sum(a)
    decreases |a|
  {
    if |a| == 0 {
      pick := seq(|blocks|, i => false);
      PickSumNone(blocks, pick);
    } else {
      assert Distinct(a[1..]) by {
        forall x, y | 0 <= x < y < |a[1..]| ensures a[1..][x] != a[1..][y] {
          assert a[x + 1] != a[y + 1];
        }
      }
      var rest := PickOfMove(blocks, a[1..]);
      var j := a[0] - 1;
      assert a[0] !in a[1..] by {
        forall k | 0 <= k < |a[1..]| ensures a[1..][k] != a[0] {
          assert a[0] != a[k + 1];
        }
      }
      pick := rest[j := true];
      PickSumSet(blocks, rest, j);
      forall i | 0 <= i < |blocks|
        ensures pick[i] <==> i + 1 in a
      {
        assert a == [a[0]] + a[1..];
      }
    }
  }

  lemma {:induction false} PickSumNone(blocks: seq<Block>, pick: seq<bool>)
    requires |pick| == |blocks| && forall i :: 0 <= i < |pick| ==> !pick[i]
    ensures LossCheck.PickSum(blocks, pick) == 0
  {
    if |blocks| > 0 {
      PickSumNone(blocks[1..], pick[1..]);
    }
  }

  /** Adding one unpicked position to a selection adds its value to the total. */
  lemma {:induction false} PickSumSet(blocks: seq<Block>, pick: seq<bool>, j: int)
    requires |pick| == |blocks| && 0 <= j < |pick| && !pick[j]
    ensures LossCheck.PickSum(blocks, pick[j := true]) == LossCheck.PickSum(blocks, pick) + blocks[j].value
  {
    var p := pick[j := true];
    if j > 0 {
      assert p[1..] == pick[1..][j - 1 := true];
      PickSumSet(blocks[1..], pick[1..], j - 1);
    } else {
      assert p[1..] == pick[1..];
    }
  }

  /**
    Whenever the simulator has a move for a board and a roll, the game does
    not declare that roll lost (the converse fails: see
    LossCheck.LossCheckIncomplete).
   */
  lemma MoveMeansNotLost(blocks: seq<Block>, box: seq<bool>, roll: int)
    requires Mirrors(blocks, box)
    requires forall i :: 0 <= i < |blocks| ==> blocks[i].value == i + 1
    requires BoxActions.ActionsFor(box, roll).Some?
    ensures !LossCheck.CheckIfLost(blocks, roll)
  {
    var m := MagicBox.MagicBox(6, 2, |box|, box);
    var a := BoxActions.ActionsFor(box, roll).value[0];
    BoxActions.ActionsValid(m, roll, a);
    assert Distinct(a) by {
      forall x, y | 0 <= x < y < |a| ensures a[x] != a[y] {
        assert a[x] > a[y];
      }
    }
    var pick := PickOfMove(blocks, a);
    forall i | 0 <= i < |blocks| && pick[i]
      ensures !IsRetired(blocks[i])
    {
      var k :| 0 <= k < |a| && a[k] == i + 1;
    }
    assert LossCheck.DistinctPositive(blocks);
    LossCheck.LossCheckSound(blocks, roll, pick);
  }
}
