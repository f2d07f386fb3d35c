/**
  The simulator's move enumerator (get_actions / _get_actions). At each level
  it tries every remaining number that fits the roll, and continues only with
  the numbers before it in the list, so every action is a strictly
  decreasing tuple and every subset of active numbers that adds up to the
  roll is produced exactly once.
 */
module BoxActions {
  import opened Seqs
  import opened Wrappers
  import MagicBox

  /** `[n for n in ns if n <= roll]`. */
  function Filter(ns: seq<int>, roll: int): (r: seq<int>)
    ensures |r| <= |ns|
    ensures forall x :: x in r <==> x in ns && x <= roll
    ensures StrictlyIncreasing(ns) ==> StrictlyIncreasing(r)
  {
    if |ns| == 0 then []
    else
      var rest := Filter(ns[1..], roll);
      var r := if ns[0] <= roll then [ns[0]] + rest else rest;
      assert StrictlyIncreasing(ns) ==> StrictlyIncreasing(r) by {
        if StrictlyIncreasing(ns) && ns[0] <= roll {
          forall y | y in rest ensures ns[0] < y {
            var k :| 1 <= k < |ns| && ns[k] == y;
          }
          PrependIncreasing(ns[0], rest);
        }
      }
      r
  }

  /**
    One call of _get_actions: `path` is None at the top level. Returns the
    actions this call appends, in order.
   */
  function Explore(roll: int, numbers: seq<int>, path: Option<seq<int>>): seq<seq<int>>
    decreases |numbers|, 1
  {
    if roll == 0 && path.Some? then [path.value]
    else if |numbers| == 0 then []
    else Loop(roll, numbers, path.GetOr([]), 0)
  }

  /** The loop of one _get_actions call, from candidate `i` on. */
  function Loop(roll: int, numbers: seq<int>, path: seq<int>, i: nat): seq<seq<int>>
    requires i <= |numbers|
    decreases |numbers|, 0, |numbers| - i
  {
    if i == |numbers| then []
    else
      (if numbers[i] <= roll
       then Explore(roll - numbers[i], Filter(numbers[..i], roll), Some(path + [numbers[i]]))
       else [])
      + Loop(roll, numbers, path, i + 1)
  }

  /** A completion of a path: numbers from the list, strictly decreasing, adding up to the roll. */
  predicate ValidTail(numbers: seq<int>, roll: int, t: seq<int>) {
    && StrictlyDecreasing(t)
    && (forall k :: 0 <= k < |t| ==> t[k] in numbers)
    && Sum(t) == roll
  }

  predicate PositiveIncreasing(numbers: seq<int>) {
    StrictlyIncreasing(numbers) && forall k :: 0 <= k < |numbers| ==> numbers[k] > 0
  }

  lemma FilterPositiveIncreasing(ns: seq<int>, i: nat, roll: int)
    requires PositiveIncreasing(ns) && i <= |ns|
    ensures PositiveIncreasing(Filter(ns[..i], roll))
    ensures forall x :: x in Filter(ns[..i], roll) ==> x in ns && (i < |ns| ==> x < ns[i])
  {
    var f := Filter(ns[..i], roll);
    assert StrictlyIncreasing(ns[..i]);
    forall k | 0 <= k < |f|
      ensures f[k] > 0
    {
      assert f[k] in ns[..i];
    }
    forall x | x in f
      ensures x in ns && (i < |ns| ==> x < ns[i])
    {
      var j :| 0 <= j < i && ns[j] == x;
    }
  }

  /**
    Every action a call returns extends its path with a valid completion;
    at the top level the completion is not empty.
   */
  lemma {:induction false} ExploreSound(roll: int, numbers: seq<int>, path: Option<seq<int>>, a: seq<int>)
    requires PositiveIncreasing(numbers)
    requires a in Explore(roll, numbers, path)
    ensures |a| >= |path.GetOr([])| && a[..|path.GetOr([])|] == path.GetOr([])
    ensures ValidTail(numbers, roll, a[|path.GetOr([])|..])
    ensures path.None? ==> |a| > 0
    decreases |numbers|, 1
  {
    var p := path.GetOr([]);
    if roll == 0 && path.Some? {
      assert a == p;
    } else {
      LoopSound(roll, numbers, p, 0, a);
    }
  }

  lemma {:induction false} LoopSound(roll: int, numbers: seq<int>, path: seq<int>, i: nat, a: seq<int>)
    requires PositiveIncreasing(numbers) && i <= |numbers|
    requires a in Loop(roll, numbers, path, i)
    ensures |a| > |path| && a[..|path|] == path
    ensures i < |numbers| && numbers[i] <= a[|path|]
    ensures ValidTail(numbers, roll, a[|path|..])
    decreases |numbers|, 0, |numbers| - i
  {
    var n := numbers[i];
    var f := Filter(numbers[..i], roll);
    var here := if n <= roll then Explore(roll - n, f, Some(path + [n])) else [];
    assert Loop(roll, numbers, path, i) == here + Loop(roll, numbers, path, i + 1);
    if a in here {
      FilterPositiveIncreasing(numbers, i, roll);
      ExploreSound(roll - n, f, Some(path + [n]), a);
      SplitPrefix(a, path, n);
      PrependTail(numbers, n, f, a[|path| + 1..], roll);
    } else {
      LoopSound(roll, numbers, path, i + 1, a);
      assert numbers[i] < numbers[i + 1];
    }
  }

  lemma SplitPrefix(a: seq<int>, path: seq<int>, n: int)
    requires |a| >= |path| + 1 && a[..|path| + 1] == path + [n]
    ensures a[..|path|] == path && a[|path|] == n
    ensures a[|path|..] == [n] + a[|path| + 1..]
  {
    assert a[..|path|] == a[..|path| + 1][..|path|];
    assert a[|path|] == a[..|path| + 1][|path|];
  }

  /** A valid completion below `n` from the filtered list, with `n` in front, is a valid completion. */
  lemma PrependTail(numbers: seq<int>, n: int, f: seq<int>, tail: seq<int>, roll: int)
    requires n in numbers
    requires forall x :: x in f ==> x in numbers && x < n
    requires ValidTail(f, roll - n, tail)
    ensures ValidTail(numbers, roll, [n] + tail)
  {
    var t := [n] + tail;
    forall k | 0 <= k < |tail|
      ensures tail[k] in numbers && tail[k] < n
    {
      assert tail[k] in f;
    }
    forall x, y | 0 <= x < y < |t|
      ensures t[x] > t[y]
    {
      if x == 0 {
        assert t[y] == tail[y - 1];
      } else {
        assert t[x] == tail[x - 1] && t[y] == tail[y - 1];
      }
    }
    assert t[1..] == tail;
    forall k | 0 <= k < |t| ensures t[k] in numbers {
      if k > 0 { assert t[k] == tail[k - 1]; }
    }
  }

  /** In a positive sequence every element is at most the sum. */
  lemma {:induction false} ElementBelowSum(t: seq<int>, k: nat)
    requires k < |t| && forall j :: 0 <= j < |t| ==> t[j] > 0
    ensures t[k] <= Sum(t)
  {
    SumPositive(t[1..]);
    if k > 0 {
      ElementBelowSum(t[1..], k - 1);
    }
  }

  lemma {:induction false} SumPositive(t: seq<int>)
    requires forall j :: 0 <= j < |t| ==> t[j] > 0
    ensures Sum(t) >= 0
    ensures |t| > 0 ==> Sum(t) > 0
  {
    if |t| > 0 {
      SumPositive(t[1..]);
    }
  }

  /** Every valid completion of the path is returned (an empty one only below the top level). */
  lemma {:induction false} ExploreComplete(roll: int, numbers: seq<int>, path: Option<seq<int>>, t: seq<int>)
    requires PositiveIncreasing(numbers)
    requires ValidTail(numbers, roll, t)
    requires path.None? ==> |t| > 0
    ensures path.GetOr([]) + t in Explore(roll, numbers, path)
    decreases |numbers|, 1
  {
    var p := path.GetOr([]);
    assert forall k :: 0 <= k < |t| ==> t[k] > 0 by {
      forall k | 0 <= k < |t| ensures t[k] > 0 {
        assert t[k] in numbers;
      }
    }
    SumPositive(t);
    if |t| == 0 {
      assert p + t == p;
    } else {
      assert numbers != [];
      assert t[0] in numbers;
      var j :| 0 <= j < |numbers| && numbers[j] == t[0];
      LoopComplete(roll, numbers, p, 0, j, t);
    }
  }

  lemma {:induction false} LoopComplete(roll: int, numbers: seq<int>, path: seq<int>, i: nat, j: nat, t: seq<int>)
    requires PositiveIncreasing(numbers) && i <= j < |numbers|
    requires ValidTail(numbers, roll, t) && |t| > 0 && t[0] == numbers[j]
    requires forall k :: 0 <= k < |t| ==> t[k] > 0
    ensures path + t in Loop(roll, numbers, path, i)
    decreases |numbers|, 0, |numbers| - i
  {
    if i < j {
      LoopComplete(roll, numbers, path, i + 1, j, t);
      LoopLater(roll, numbers, path, i, path + t);
    } else {
      LoopHit(roll, numbers, path, j, t);
    }
  }

  /** The completion starting with candidate `j` is produced by the call made for `j`. */
  lemma {:induction false} LoopHit(roll: int, numbers: seq<int>, path: seq<int>, j: nat, t: seq<int>)
    requires PositiveIncreasing(numbers) && j < |numbers|
    requires ValidTail(numbers, roll, t) && |t| > 0 && t[0] == numbers[j]
    requires forall k :: 0 <= k < |t| ==> t[k] > 0
    ensures path + t in Loop(roll, numbers, path, j)
    decreases |numbers|, 0, |numbers| - j - 1
  {
    var n := numbers[j];
    var f := Filter(numbers[..j], roll);
    ElementBelowSum(t, 0);
    TailInFilter(numbers, j, t, roll);
    FilterPositiveIncreasing(numbers, j, roll);
    ExploreComplete(roll - n, f, Some(path + [n]), t[1..]);
    assert (path + [n]) + t[1..] == path + t;
    LoopHere(roll, numbers, path, j, path + t);
  }

  lemma LoopLater(roll: int, numbers: seq<int>, path: seq<int>, i: nat, a: seq<int>)
    requires i < |numbers| && a in Loop(roll, numbers, path, i + 1)
    ensures a in Loop(roll, numbers, path, i)
  {
  }

  lemma LoopHere(roll: int, numbers: seq<int>, path: seq<int>, i: nat, a: seq<int>)
    requires i < |numbers| && numbers[i] <= roll
    requires a in Explore(roll - numbers[i], Filter(numbers[..i], roll), Some(path + [numbers[i]]))
    ensures a in Loop(roll, numbers, path, i)
  {
  }

  /** Dropping the first number of a completion leaves a completion from the numbers before it. */
  lemma TailInFilter(numbers: seq<int>, j: nat, t: seq<int>, roll: int)
    requires PositiveIncreasing(numbers) && j < |numbers|
    requires ValidTail(numbers, roll, t) && |t| > 0 && t[0] == numbers[j]
    requires forall k :: 0 <= k < |t| ==> t[k] > 0
    ensures ValidTail(Filter(numbers[..j], roll), roll - numbers[j], t[1..])
  {
    var n := numbers[j];
    var tail := t[1..];
    var f := Filter(numbers[..j], roll);
    assert Sum(t) == n + Sum(tail);
    forall k | 0 <= k < |tail|
      ensures tail[k] in f
    {
      assert t[0] > t[k + 1];
      ElementBelowSum(t, k + 1);
      assert tail[k] in numbers;
      var m :| 0 <= m < |numbers| && numbers[m] == tail[k];
      assert tail[k] == numbers[..j][m];
    }
    forall x, y | 0 <= x < y < |tail| ensures tail[x] > tail[y] {
      assert t[x + 1] > t[y + 1];
    }
  }

  /** Actions from different calls of the loop start their completion with different numbers. */
  lemma {:induction false} ExploreDistinct(roll: int, numbers: seq<int>, path: Option<seq<int>>)
    requires PositiveIncreasing(numbers)
    ensures Distinct(Explore(roll, numbers, path))
    decreases |numbers|, 1
  {
    if !(roll == 0 && path.Some?) && |numbers| > 0 {
      LoopDistinct(roll, numbers, path.GetOr([]), 0);
    }
  }

  lemma {:induction false} LoopDistinct(roll: int, numbers: seq<int>, path: seq<int>, i: nat)
    requires PositiveIncreasing(numbers) && i <= |numbers|
    ensures Distinct(Loop(roll, numbers, path, i))
    decreases |numbers|, 0, |numbers| - i
  {
    if i < |numbers| {
      var n := numbers[i];
      var here := if n <= roll
        then Explore(roll - n, Filter(numbers[..i], roll), Some(path + [n]))
        else [];
      var later := Loop(roll, numbers, path, i + 1);
      if n <= roll {
        FilterPositiveIncreasing(numbers, i, roll);
        ExploreDistinct(roll - n, Filter(numbers[..i], roll), Some(path + [n]));
      }
      LoopDistinct(roll, numbers, path, i + 1);
      forall x, y | x in here && y in later
        ensures x != y
      {
        HereBeforeLater(roll, numbers, path, i, x, y);
      }
      ConcatDistinct(here, later);
    }
  }

  /** An action from candidate i's call differs from every action of the later candidates: its next number is smaller. */
  lemma HereBeforeLater(roll: int, numbers: seq<int>, path: seq<int>, i: nat, x: seq<int>, y: seq<int>)
    requires PositiveIncreasing(numbers) && i < |numbers| && numbers[i] <= roll
    requires x in Explore(roll - numbers[i], Filter(numbers[..i], roll), Some(path + [numbers[i]]))
    requires y in Loop(roll, numbers, path, i + 1)
    ensures x != y
  {
    var n := numbers[i];
    FilterPositiveIncreasing(numbers, i, roll);
    ExploreSound(roll - n, Filter(numbers[..i], roll), Some(path + [n]), x);
    SplitPrefix(x, path, n);
    LoopSound(roll, numbers, path, i + 1, y);
    assert numbers[i] < numbers[i + 1];
  }

  // ---------------------------------------------------------------- get_actions

  lemma ActiveFiltered(box: seq<bool>, roll: int)
    ensures PositiveIncreasing(Filter(MagicBox.ActiveNumbers(box), roll))
    ensures forall x :: x in Filter(MagicBox.ActiveNumbers(box), roll) <==> 1 <= x <= |box| && box[x - 1] && x <= roll
  {
    var f := Filter(MagicBox.ActiveNumbers(box), roll);
    forall k | 0 <= k < |f| ensures f[k] > 0 {
      assert f[k] in f;
    }
  }

  /** The actions for a box and a roll, or None when there are none. */
  function ActionsFor(box: seq<bool>, roll: int): Option<seq<seq<int>>> {
    var acts := Explore(roll, Filter(MagicBox.ActiveNumbers(box), roll), None);
    if |acts| > 0 then Some(acts) else None
  }

  /** get_actions: the actions for the simulator's current box. */
  function GetActions(m: MagicBox.MagicBox, roll: int): Option<seq<seq<int>>> {
    ActionsFor(m.box, roll)
  }

  /** get_actions_from_hash: the actions for the box a hash decodes to. */
  function GetActionsFromHash(m: MagicBox.MagicBox, boxHash: int, roll: int): Option<seq<seq<int>>> {
    ActionsFor(MagicBox.GetBoxFromHash(m, boxHash), roll)
  }

  /** A legal move: a non-empty, strictly decreasing tuple of active numbers adding up to the roll. */
  predicate IsMove(box: seq<bool>, roll: int, t: seq<int>) {
    && |t| > 0
    && StrictlyDecreasing(t)
    && (forall k :: 0 <= k < |t| ==> 1 <= t[k] <= |box| && box[t[k] - 1])
    && Sum(t) == roll
  }

  /** Every action returned is a legal move whose numbers are at most the roll. */
  lemma ActionsValid(m: MagicBox.MagicBox, roll: int, a: seq<int>)
    requires GetActions(m, roll).Some? && a in GetActions(m, roll).value
    ensures IsMove(m.box, roll, a)
    ensures forall k :: 0 <= k < |a| ==> a[k] <= roll
  {
    var numbers := Filter(MagicBox.ActiveNumbers(m.box), roll);
    ActiveFiltered(m.box, roll);
    ExploreSound(roll, numbers, None, a);
    assert a[0..] == a;
  }

  /** Every legal move is returned, exactly once. */
  lemma ActionsComplete(m: MagicBox.MagicBox, roll: int, t: seq<int>)
    requires IsMove(m.box, roll, t)
    ensures GetActions(m, roll).Some?
    ensures multiset(GetActions(m, roll).value)[t] == 1
  {
    var numbers := Filter(MagicBox.ActiveNumbers(m.box), roll);
    ActiveFiltered(m.box, roll);
    MoveIsTail(m.box, roll, t);
    ExploreComplete(roll, numbers, None, t);
    assert [] + t == t;
    ExploreDistinct(roll, numbers, None);
    DistinctCount(Explore(roll, numbers, None), t);
  }

  /** A legal move is a completion of the empty path from the active numbers at most the roll. */
  lemma MoveIsTail(box: seq<bool>, roll: int, t: seq<int>)
    requires IsMove(box, roll, t)
    ensures ValidTail(Filter(MagicBox.ActiveNumbers(box), roll), roll, t)
  {
    var numbers := Filter(MagicBox.ActiveNumbers(box), roll);
    ActiveFiltered(box, roll);
    forall k | 0 <= k < |t|
      ensures t[k] in numbers
    {
      ElementBelowSum(t, k);
    }
  }

  /** There are no actions exactly when no legal move exists. */
  lemma NoActionsMeansNoMove(m: MagicBox.MagicBox, roll: int, t: seq<int>)
    requires GetActions(m, roll).None?
    ensures !IsMove(m.box, roll, t)
  {
    if IsMove(m.box, roll, t) {
      ActionsComplete(m, roll, t);
    }
  }

  /** Looking up actions through the box's own hash gives the same answer as the box itself. */
  lemma ActionsFromOwnHash(m: MagicBox.MagicBox, roll: int)
    requires |m.box| == m.highNum
    ensures GetActionsFromHash(m, MagicBox.GetBoxHash(m), roll) == GetActions(m, roll)
  {
    MagicBox.BoxHashRoundTrip(m);
  }
}
