/**
  The loss check of the browser game (check_if_lost). The values of the
  pieces still in play that do not exceed the roll are collected in board
  order, and a backtracking search looks for a path of picks whose values add
  up to the roll. The game is lost when no path is found.

  The search is modelled as written: each level loops from `index` (the
  caller's level plus one, not the position after the parent's pick), and it
  skips a candidate equal to the parent's pick. So a path may revisit a piece
  as long as it does not repeat the value just picked. The check is therefore
  sound (a real move always makes it report "not lost", LossCheckSound) but
  not complete (LossCheckIncomplete).
 */
module LossCheck {
  import opened Pieces
  import opened Wrappers
  import opened Seqs

  /** Some piece in play has value `v`. */
  predicate InPlayValue(blocks: seq<Block>, v: int) {
    exists i :: 0 <= i < |blocks| && blocks[i].value == v && !IsRetired(blocks[i])
  }

  /** The candidate-collecting loop: values of pieces in play that are at most the roll, in board order. */
  function Candidates(blocks: seq<Block>, roll: int): seq<int> {
    if |blocks| == 0 then []
    else
      var rest := Candidates(blocks[1..], roll);
      if !IsRetired(blocks[0]) && blocks[0].value <= roll then [blocks[0].value] + rest else rest
  }

  lemma {:induction false} CandidatesSpec(blocks: seq<Block>, roll: int)
    ensures |Candidates(blocks, roll)| <= |blocks|
    ensures forall x :: x in Candidates(blocks, roll) <==> x <= roll && InPlayValue(blocks, x)
  {
    if |blocks| > 0 {
      CandidatesSpec(blocks[1..], roll);
      var rest := Candidates(blocks[1..], roll);
      var r := Candidates(blocks, roll);
      forall x
        ensures x in r <==> x <= roll && InPlayValue(blocks, x)
      {
        if x in rest {
          var j :| 0 <= j < |blocks[1..]| && blocks[1..][j].value == x && !IsRetired(blocks[1..][j]);
          assert blocks[j + 1] == blocks[1..][j];
        }
        if x <= roll && InPlayValue(blocks, x) {
          var i :| 0 <= i < |blocks| && blocks[i].value == x && !IsRetired(blocks[i]);
          if i > 0 {
            assert blocks[1..][i - 1] == blocks[i];
            assert InPlayValue(blocks[1..], x);
          }
        }
      }
    }
  }

  /** The candidate values: exactly the values at most the roll of pieces in play, in board order. */
  function Eligible(blocks: seq<Block>, roll: int): (r: seq<int>)
    ensures |r| <= |blocks|
    ensures forall x :: x in r <==> x <= roll && InPlayValue(blocks, x)
  {
    CandidatesSpec(blocks, roll);
    Candidates(blocks, roll)
  }

  /**
    One call of the search: `rem` is what is left of the roll, `index` the
    caller's level and `last` the value picked by the parent (None at the root).
    True when some path below this call reaches exactly zero.
   */
  function Search(values: seq<int>, rem: int, index: nat, last: Option<int>): bool
    requires index <= |values|
    decreases |values| - index, 1
  {
    if rem < 0 then false
    else if rem == 0 then true
    else Branches(values, rem, index, index, last)
  }

  /** The loop of one search call, from candidate `i` on. */
  function Branches(values: seq<int>, rem: int, index: nat, i: nat, last: Option<int>): bool
    requires index <= i <= |values|
    decreases |values| - index, 0, |values| - i
  {
    if i == |values| then false
    else
      (last != Some(values[i]) && Search(values, rem - values[i], index + 1, Some(values[i])))
      || Branches(values, rem, index, i + 1, last)
  }

  /** check_if_lost: no path of picks was found for the roll. */
  predicate CheckIfLost(blocks: seq<Block>, roll: int) {
    !Search(Eligible(blocks, roll), roll, 0, None)
  }

  /** The total of the pieces a selection `pick` (one flag per piece) takes. */
  function PickSum(blocks: seq<Block>, pick: seq<bool>): int
    requires |pick| == |blocks|
  {
    if |blocks| == 0 then 0
    else (if pick[0] then blocks[0].value else 0) + PickSum(blocks[1..], pick[1..])
  }

  /** The total of the candidate values at the positions `js`. */
  function SumAt(values: seq<int>, js: seq<nat>): (r: int)
    requires forall k :: 0 <= k < |js| ==> js[k] < |values|
    ensures (forall k :: 0 <= k < |values| ==> values[k] > 0) ==> r >= 0
  {
    if |js| == 0 then 0 else values[js[0]] + SumAt(values, js[1..])
  }

  predicate DistinctPositive(blocks: seq<Block>) {
    && (forall i :: 0 <= i < |blocks| ==> blocks[i].value > 0)
    && (forall i, j :: 0 <= i < j < |blocks| ==> blocks[i].value != blocks[j].value)
  }

  /** A selection that takes only pieces in play, from a board of distinct positive values. */
  predicate IsMoveFor(blocks: seq<Block>, pick: seq<bool>) {
    && |pick| == |blocks|
    && forall i :: 0 <= i < |blocks| && pick[i] ==> !IsRetired(blocks[i])
  }

  /** The loop finds a path when some candidate from `i` on, other than the parent's value, leads to one. */
  lemma {:induction false} BranchesFrom(values: seq<int>, rem: int, index: nat, i: nat, last: Option<int>, j: nat)
    requires index <= i <= j < |values|
    requires last != Some(values[j])
    requires Search(values, rem - values[j], index + 1, Some(values[j]))
    ensures Branches(values, rem, index, i, last)
    decreases j - i
  {
    if i < j {
      BranchesFrom(values, rem, index, i + 1, last, j);
    }
  }

  /**
    Every strictly increasing list of candidate positions, all at or after
    `index`, whose values add up to `rem`, is a path the search explores, as
    long as its first value differs from the parent's pick.
   */
  lemma {:induction false} SearchFinds(values: seq<int>, js: seq<nat>, rem: int, index: nat, last: Option<int>)
    requires index <= |values|
    requires forall k :: 0 <= k < |values| ==> values[k] > 0
    requires forall a, b :: 0 <= a < b < |values| ==> values[a] != values[b]
    requires StrictlyIncreasing(js)
    requires forall k :: 0 <= k < |js| ==> index <= js[k] < |values|
    requires SumAt(values, js) == rem
    requires |js| > 0 ==> last != Some(values[js[0]])
    ensures Search(values, rem, index, last)
    decreases |js|
  {
    if |js| > 0 {
      var j := js[0];
      var tail := js[1..];
      assert SumAt(values, js) == values[j] + SumAt(values, tail);
      assert rem > 0;
      forall k | 0 <= k < |tail|
        ensures index + 1 <= tail[k] < |values|
      {
        assert js[0] < js[k + 1];
      }
      assert StrictlyIncreasing(tail) by {
        forall a, b | 0 <= a < b < |tail|
          ensures tail[a] < tail[b]
        {
          assert js[a + 1] < js[b + 1];
        }
      }
      if |tail| > 0 {
        assert js[0] < js[1];
        assert values[j] != values[tail[0]];
      }
      SearchFinds(values, tail, rem - values[j], index + 1, Some(values[j]));
      BranchesFrom(values, rem, index, index, last, j);
    }
  }

  /** Positions in the candidate list, shifted by one place (a candidate was put in front). */
  function Shift(js: seq<nat>): (r: seq<nat>)
    ensures |r| == |js|
    ensures forall k :: 0 <= k < |js| ==> r[k] == js[k] + 1
  {
    seq(|js|, k requires 0 <= k < |js| => js[k] + 1)
  }

  lemma {:induction false} SumAtShift(v: int, values: seq<int>, js: seq<nat>)
    requires forall k :: 0 <= k < |js| ==> js[k] < |values|
    ensures SumAt([v] + values, Shift(js)) == SumAt(values, js)
    decreases |js|
  {
    if |js| > 0 {
      assert Shift(js)[1..] == Shift(js[1..]);
      SumAtShift(v, values, js[1..]);
    }
  }

  /** A selection of candidate pieces corresponds to positions in the candidate list with the same total. */
  lemma {:induction false} PickPositions(blocks: seq<Block>, roll: int, pick: seq<bool>) returns (js: seq<nat>)
    requires |pick| == |blocks|
    requires forall i :: 0 <= i < |blocks| && pick[i] ==> !IsRetired(blocks[i]) && blocks[i].value <= roll
    ensures StrictlyIncreasing(js)
    ensures forall k :: 0 <= k < |js| ==> js[k] < |Eligible(blocks, roll)|
    ensures SumAt(Eligible(blocks, roll), js) == PickSum(blocks, pick)
  {
    if |blocks| == 0 {
      js := [];
    } else {
      assert forall i :: 0 <= i < |blocks| - 1 && pick[1..][i] ==> !IsRetired(blocks[1..][i]) && blocks[1..][i].value <= roll by {
        forall i | 0 <= i < |blocks| - 1 && pick[1..][i]
          ensures !IsRetired(blocks[1..][i]) && blocks[1..][i].value <= roll
        {
          assert pick[1..][i] == pick[i + 1] && blocks[1..][i] == blocks[i + 1];
        }
      }
      var rest := PickPositions(blocks[1..], roll, pick[1..]);
      var e' := Eligible(blocks[1..], roll);
      if !IsRetired(blocks[0]) && blocks[0].value <= roll {
        assert Eligible(blocks, roll) == [blocks[0].value] + e';
        ShiftFacts(rest, |e'|);
        SumAtShift(blocks[0].value, e', rest);
        if pick[0] {
          js := [0] + Shift(rest);
          assert js[1..] == Shift(rest);
        } else {
          js := Shift(rest);
        }
      } else {
        assert Eligible(blocks, roll) == e';
        js := rest;
      }
    }
  }

  /** Shifting increasing positions below n gives increasing positions from 1 up to n, so 0 can go in front. */
  lemma ShiftFacts(js: seq<nat>, n: nat)
    requires StrictlyIncreasing(js) && forall k :: 0 <= k < |js| ==> js[k] < n
    ensures StrictlyIncreasing(Shift(js)) && StrictlyIncreasing([0] + Shift(js))
    ensures forall k :: 0 <= k < |js| ==> 1 <= Shift(js)[k] < n + 1
  {
    var t := [0] + Shift(js);
    forall a, b | 0 <= a < b < |t|
      ensures t[a] < t[b]
    {
      if a > 0 {
        assert js[a - 1] < js[b - 1];
      }
    }
  }

  /** The candidates of a board with distinct positive values are distinct and positive. */
  lemma {:induction false} EligibleDistinctPositive(blocks: seq<Block>, roll: int)
    requires DistinctPositive(blocks)
    ensures forall k :: 0 <= k < |Eligible(blocks, roll)| ==> Eligible(blocks, roll)[k] > 0
    ensures forall a, b :: 0 <= a < b < |Eligible(blocks, roll)| ==> Eligible(blocks, roll)[a] != Eligible(blocks, roll)[b]
  {
    EligiblePositive(blocks, roll);
    if |blocks| > 0 {
      TailDistinctPositive(blocks);
      EligibleDistinctPositive(blocks[1..], roll);
      if !IsRetired(blocks[0]) && blocks[0].value <= roll {
        assert Eligible(blocks, roll) == [blocks[0].value] + Eligible(blocks[1..], roll);
        HeadNotInTail(blocks, roll);
        ConsDistinct(blocks[0].value, Eligible(blocks[1..], roll));
      } else {
        assert Eligible(blocks, roll) == Eligible(blocks[1..], roll);
      }
    }
  }

  lemma EligiblePositive(blocks: seq<Block>, roll: int)
    requires DistinctPositive(blocks)
    ensures forall k :: 0 <= k < |Eligible(blocks, roll)| ==> Eligible(blocks, roll)[k] > 0
  {
    var e := Eligible(blocks, roll);
    forall k | 0 <= k < |e|
      ensures e[k] > 0
    {
      assert e[k] in e;
      var i :| 0 <= i < |blocks| && blocks[i].value == e[k] && !IsRetired(blocks[i]);
    }
  }

  lemma TailDistinctPositive(blocks: seq<Block>)
    requires DistinctPositive(blocks) && |blocks| > 0
    ensures DistinctPositive(blocks[1..])
  {
    var tail := blocks[1..];
    forall i, j | 0 <= i < j < |tail|
      ensures tail[i].value != tail[j].value
    {
      assert blocks[i + 1] == tail[i] && blocks[j + 1] == tail[j];
    }
  }

  /** The first piece's value is not among the candidates of the rest of the board. */
  lemma HeadNotInTail(blocks: seq<Block>, roll: int)
    requires DistinctPositive(blocks) && |blocks| > 0
    ensures forall k :: 0 <= k < |Eligible(blocks[1..], roll)| ==> Eligible(blocks[1..], roll)[k] != blocks[0].value
  {
    var tail := blocks[1..];
    var e' := Eligible(tail, roll);
    forall k | 0 <= k < |e'|
      ensures e'[k] != blocks[0].value
    {
      assert e'[k] in e';
      var i :| 0 <= i < |tail| && tail[i].value == e'[k] && !IsRetired(tail[i]);
      assert blocks[i + 1] == tail[i];
    }
  }

  /** With non-negative values, every piece a selection takes is worth at most the selection's total. */
  lemma {:induction false} PickedBelowTotal(blocks: seq<Block>, pick: seq<bool>, i: nat)
    requires |pick| == |blocks| && i < |blocks| && pick[i]
    requires forall k :: 0 <= k < |blocks| ==> blocks[k].value >= 0
    ensures blocks[i].value <= PickSum(blocks, pick)
  {
    PickSumNonNegative(blocks[1..], pick[1..]);
    if i > 0 {
      PickedBelowTotal(blocks[1..], pick[1..], i - 1);
    }
  }

  lemma {:induction false} PickSumNonNegative(blocks: seq<Block>, pick: seq<bool>)
    requires |pick| == |blocks|
    requires forall k :: 0 <= k < |blocks| ==> blocks[k].value >= 0
    ensures PickSum(blocks, pick) >= 0
  {
    if |blocks| > 0 {
      PickSumNonNegative(blocks[1..], pick[1..]);
    }
  }

  /**
    Soundness of the loss check: on a board of distinct positive values, if
    some selection of pieces in play adds up to the roll, the check does not
    declare the game lost.
   */
  lemma LossCheckSound(blocks: seq<Block>, roll: int, pick: seq<bool>)
    requires DistinctPositive(blocks)
    requires IsMoveFor(blocks, pick)
    requires PickSum(blocks, pick) == roll
    ensures !CheckIfLost(blocks, roll)
  {
    forall i | 0 <= i < |blocks| && pick[i]
      ensures blocks[i].value <= roll
    {
      PickedBelowTotal(blocks, pick, i);
    }
    var js := PickPositions(blocks, roll, pick);
    EligibleDistinctPositive(blocks, roll);
    SearchFinds(Eligible(blocks, roll), js, roll, 0, None);
  }

  /** The full board of nine pieces valued 1..9, with only 1, 2 and 3 still in play. */
  function CounterexampleBoard(): (bs: seq<Block>)
    ensures |bs| == 9 && DistinctPositive(bs)
    ensures forall i :: 0 <= i < 9 ==> bs[i].value == i + 1
  {
    [Block(1, Base), Block(2, Base), Block(3, Base)] + RetiredTail()
  }

  function RetiredTail(): seq<Block> {
    [Block(4, Retired), Block(5, Retired), Block(6, Retired),
     Block(7, Retired), Block(8, Retired), Block(9, Retired)]
  }

  /** The total of the pieces in play. */
  function InPlaySum(blocks: seq<Block>): int {
    if |blocks| == 0 then 0
    else (if IsRetired(blocks[0]) then 0 else blocks[0].value) + InPlaySum(blocks[1..])
  }

  lemma {:induction false} PickSumBelowInPlay(blocks: seq<Block>, pick: seq<bool>)
    requires IsMoveFor(blocks, pick)
    requires forall k :: 0 <= k < |blocks| ==> blocks[k].value >= 0
    ensures PickSum(blocks, pick) <= InPlaySum(blocks)
  {
    if |blocks| > 0 {
      PickSumBelowInPlay(blocks[1..], pick[1..]);
    }
  }

  /** Only the first three pieces of the counterexample board are candidates, and only they are in play. */
  lemma {:induction false} CounterexampleCandidates()
    ensures Eligible(CounterexampleBoard(), 8) == [1, 2, 3]
    ensures InPlaySum(CounterexampleBoard()) == 6
  {
    var head := [Block(1, Base), Block(2, Base), Block(3, Base)];
    RetiredTailEmpty();
    CandidatesAppend(head, RetiredTail(), 8);
    InPlaySumAppend(head, RetiredTail());
    HeadCandidates();
  }

  lemma HeadCandidates()
    ensures Candidates([Block(1, Base), Block(2, Base), Block(3, Base)], 8) == [1, 2, 3]
    ensures InPlaySum([Block(1, Base), Block(2, Base), Block(3, Base)]) == 6
  {
    var head := [Block(1, Base), Block(2, Base), Block(3, Base)];
    assert head[1..][1..][1..] == [];
  }

  /** The candidates of two boards laid end to end. */
  lemma {:induction false} CandidatesAppend(a: seq<Block>, b: seq<Block>, roll: int)
    ensures Candidates(a + b, roll) == Candidates(a, roll) + Candidates(b, roll)
  {
    if |a| == 0 {
      assert a + b == b;
    } else {
      var x := a[0];
      assert a + b == [x] + (a[1..] + b);
      CandidatesAppend(a[1..], b, roll);
      CandidatesCons(x, a[1..] + b, roll);
      CandidatesCons(x, a[1..], roll);
      assert a == [x] + a[1..];
    }
  }

  lemma CandidatesCons(x: Block, rest: seq<Block>, roll: int)
    ensures Candidates([x] + rest, roll) ==
      (if !IsRetired(x) && x.value <= roll then [x.value] else []) + Candidates(rest, roll)
  {
    assert ([x] + rest)[1..] == rest;
  }

  /** The in-play total of two boards laid end to end. */
  lemma {:induction false} InPlaySumAppend(a: seq<Block>, b: seq<Block>)
    ensures InPlaySum(a + b) == InPlaySum(a) + InPlaySum(b)
  {
    if |a| == 0 {
      assert a + b == b;
    } else {
      InPlaySumAppend(a[1..], b);
      assert (a + b)[1..] == a[1..] + b;
    }
  }

  /** The retired pieces contribute no candidate and nothing in play. */
  lemma {:induction false} RetiredTailEmpty()
    ensures Candidates(RetiredTail(), 8) == [] && InPlaySum(RetiredTail()) == 0
  {
    var t := RetiredTail();
    RetiredSuffix(t, 0);
    assert t[0..] == t;
  }

  lemma {:induction false} RetiredSuffix(t: seq<Block>, k: nat)
    requires k <= |t| && forall i :: 0 <= i < |t| ==> IsRetired(t[i])
    ensures Candidates(t[k..], 8) == [] && InPlaySum(t[k..]) == 0
    decreases |t| - k
  {
    if k < |t| {
      RetiredSuffix(t, k + 1);
      assert t[k..][1..] == t[k + 1..];
    }
  }

  /** The search explores the path 3, 2, 3 over the candidates 1, 2, 3 and reaches zero for a roll of 8. */
  lemma {:induction false} SearchRevisitsPiece()
    ensures Search([1, 2, 3], 8, 0, None)
  {
    var v := [1, 2, 3];
    assert Search(v, 0, 3, Some(3));
    assert Branches(v, 3, 2, 2, Some(2));
    assert Search(v, 3, 2, Some(2));
    assert Branches(v, 5, 1, 1, Some(3));
    assert Search(v, 5, 1, Some(3));
    assert Branches(v, 8, 0, 2, None);
    assert Branches(v, 8, 0, 1, None);
    assert Branches(v, 8, 0, 0, None);
  }

  /**
    The check is not complete: with pieces 1, 2, 3 in play and a roll of 8 no
    selection adds up to 8, yet the search finds the path 3, 2, 3 (it revisits
    piece 3 because the next level restarts at the caller's level plus one) and
    the game is not declared lost.
   */
  lemma LossCheckIncomplete()
    ensures !CheckIfLost(CounterexampleBoard(), 8)
    ensures forall pick :: IsMoveFor(CounterexampleBoard(), pick) ==> PickSum(CounterexampleBoard(), pick) != 8
  {
    var bs := CounterexampleBoard();
    CounterexampleCandidates();
    SearchRevisitsPiece();
    forall pick | IsMoveFor(bs, pick)
      ensures PickSum(bs, pick) != 8
    {
      PickSumBelowInPlay(bs, pick);
    }
  }
}
