/**
  The offline "Shut the Box" simulator (MagicBox.py): a box of switches, one
  per number 1..highNum, that are flipped down as moves are played, plus the
  binary encodings of a box and of a move used as database keys.
 */
module MagicBox {
  import opened Bits
  import opened Seqs
  import opened Wrappers

  /** The simulator object: its configuration and its current box (`true` = number still up). */
  datatype MagicBox = MagicBox(diceSides: int, numDice: int, highNum: nat, box: seq<bool>)

  /** A box with every number up. */
  function FullBox(n: nat): (b: seq<bool>)
    ensures |b| == n && forall i :: 0 <= i < n ==> b[i]
  {
    seq(n, _ => true)
  }

  /** The constructor; defaults are six sides, two dice and numbers up to nine. */
  function New(diceSides: int, numDice: int, highNum: nat): (m: MagicBox)
    ensures m.diceSides == diceSides && m.numDice == numDice && m.highNum == highNum
    ensures m.box == FullBox(highNum)
  {
    MagicBox(diceSides, numDice, highNum, FullBox(highNum))
  }

  function Reset(m: MagicBox): (r: MagicBox)
    ensures r.diceSides == m.diceSides && r.numDice == m.numDice && r.highNum == m.highNum
    ensures |r.box| == m.highNum && forall i :: 0 <= i < m.highNum ==> r.box[i]
  {
    m.(box := FullBox(m.highNum))
  }

  function AnyUp(box: seq<bool>): (r: bool)
    ensures r <==> exists i :: 0 <= i < |box| && box[i]
  {
    if |box| == 0 then false else box[0] || AnyUp(box[1..])
  }

  /** solved: every switch is down. */
  function Solved(m: MagicBox): (r: bool)
    ensures r <==> forall i :: 0 <= i < |m.box| ==> !m.box[i]
  {
    !AnyUp(m.box)
  }

  /** get_box: a copy of the switches (values are immutable here, so the box itself). */
  function GetBox(m: MagicBox): seq<bool> {
    m.box
  }

  // ---------------------------------------------------------------- dice

  /** The outcome of random.randint(1, sides) for an oracle draw; None when the range is empty (Python raises). */
  function RandInt(sides: int, draw: nat): (r: Option<int>)
    ensures sides >= 1 ==> r.Some? && 1 <= r.value <= sides
    ensures sides < 1 ==> r.None?
  {
    if sides >= 1 then Some(draw % sides + 1) else None
  }

  /** roll_dice: the sum of numDice random faces, one oracle draw per die. */
  function RollDice(m: MagicBox, draws: seq<nat>): (r: Option<int>)
    requires |draws| == if m.numDice > 0 then m.numDice else 0
    ensures m.diceSides >= 1 ==> r.Some? && |draws| <= r.value <= |draws| * m.diceSides
    ensures m.diceSides >= 1 && m.numDice >= 0 ==> m.numDice <= r.value <= m.numDice * m.diceSides
    ensures m.diceSides < 1 && m.numDice > 0 ==> r.None?
    ensures m.numDice <= 0 ==> r == Some(0)
  {
    SumDraws(m.diceSides, draws)
  }

  function SumDraws(sides: int, draws: seq<nat>): (r: Option<int>)
    ensures sides >= 1 ==> r.Some? && |draws| <= r.value <= |draws| * sides
    ensures sides < 1 && |draws| > 0 ==> r.None?
  {
    if |draws| == 0 then Some(0)
    else
      match RandInt(sides, draws[0])
      case None => None
      case Some(v) =>
        match SumDraws(sides, draws[1..])
        case None => None
        case Some(rest) => Some(v + rest)
  }

  /** get_all_possible_rolls: range(numDice, numDice * diceSides + 1). */
  function GetAllPossibleRolls(m: MagicBox): (r: seq<int>)
    ensures StrictlyIncreasing(r)
    ensures forall x :: x in r <==> m.numDice <= x <= m.numDice * m.diceSides
  {
    var lo := m.numDice;
    var hi := m.numDice * m.diceSides + 1;
    var r := seq(if hi > lo then hi - lo else 0, i => lo + i);
    forall x | lo <= x < hi
      ensures x in r
    {
      assert r[x - lo] == x;
    }
    r
  }

  /** Every outcome of roll_dice is listed by get_all_possible_rolls. */
  lemma RollIsPossible(m: MagicBox, draws: seq<nat>)
    requires m.numDice >= 1 && m.diceSides >= 1 && |draws| == m.numDice
    ensures RollDice(m, draws).Some? && RollDice(m, draws).value in GetAllPossibleRolls(m)
  {
  }

  /** Draws that make `count` dice of `sides` faces add up to `target`. */
  lemma {:induction false} DrawsFor(sides: int, count: nat, target: int) returns (draws: seq<nat>)
    requires sides >= 1 && count <= target <= count * sides
    ensures |draws| == count && SumDraws(sides, draws) == Some(target)
  {
    if count == 0 {
      draws := [];
    } else {
      var v := FirstFace(sides, count, target);
      var rest := DrawsFor(sides, count - 1, target - v);
      draws := [v - 1] + rest;
      SumDrawsCons(sides, v, rest);
    }
  }

  /** A face for the first die that leaves a total the other dice can still make. */
  lemma FirstFace(sides: int, count: nat, target: int) returns (v: int)
    requires sides >= 1 && 1 <= count && count <= target <= count * sides
    ensures 1 <= v <= sides
    ensures count - 1 <= target - v <= (count - 1) * sides
  {
    v := if target - (count - 1) < sides then target - (count - 1) else sides;
    assert count * sides == (count - 1) * sides + sides;
    assert (count - 1) * sides >= count - 1 by {
      assert (count - 1) * sides == (count - 1) * (sides - 1) + (count - 1);
    }
  }

  lemma SumDrawsCons(sides: int, v: int, rest: seq<nat>)
    requires 1 <= v <= sides
    ensures SumDraws(sides, [v - 1] + rest).Some?
    ensures SumDraws(sides, rest).Some?
    ensures SumDraws(sides, [v - 1] + rest).value == v + SumDraws(sides, rest).value
  {
    FaceOfDraw(sides, v);
    assert ([v - 1] + rest)[1..] == rest;
  }

  lemma FaceOfDraw(sides: int, v: int)
    requires 1 <= v <= sides
    ensures RandInt(sides, v - 1) == Some(v)
  {
    assert (v - 1) % sides == v - 1;
  }

  /** Every listed possible roll is the outcome of some draws. */
  lemma PossibleRollsAreReachable(m: MagicBox, t: int) returns (draws: seq<nat>)
    requires m.numDice >= 1 && m.diceSides >= 1 && t in GetAllPossibleRolls(m)
    ensures |draws| == m.numDice && RollDice(m, draws) == Some(t)
  {
    draws := DrawsFor(m.diceSides, m.numDice, t);
  }

  // ---------------------------------------------------------------- moves

  /** What a move leaves behind: the updated box, or the box as far as it got when an index was out of range. */
  datatype MoveResult = Moved(box: seq<bool>) | IndexError(box: seq<bool>)

  /** Python's reading of `box[k]`: negative indices count from the end; None when out of range. */
  function PyIndex(n: nat, k: int): (r: Option<nat>)
    ensures r.Some? ==> r.value < n
    ensures 0 <= k < n ==> r == Some(k)
    ensures -(n as int) <= k < 0 ==> r == Some(n + k)
    ensures (k < -(n as int) || n as int <= k) ==> r.None?
  {
    if 0 <= k < n then Some(k) else if -(n as int) <= k < 0 then Some(n + k) else None
  }

  /** move: flips down number a (box position a-1) for each a in turn. */
  function Move(box: seq<bool>, moves: seq<int>): (r: MoveResult)
    ensures |r.box| == |box|
    ensures (forall j :: 0 <= j < |moves| ==> 1 <= moves[j] <= |box|) ==>
      r.Moved? && forall i :: 0 <= i < |box| ==> (r.box[i] <==> box[i] && i + 1 !in moves)
    decreases |moves|
  {
    if |moves| == 0 then Moved(box)
    else
      match PyIndex(|box|, moves[0] - 1)
      case None => IndexError(box)
      case Some(k) => Move(box[k := false], moves[1..])
  }

  /** Some move in `moves` names switch k, under Python's reading of `box[a-1]`. */
  predicate Hits(n: nat, moves: seq<int>, k: nat) {
    exists j :: 0 <= j < |moves| && PyIndex(n, moves[j] - 1) == Some(k)
  }

  /**
    The whole of `move`, indices outside 1..n included: it stops with an
    IndexError exactly when some move reads outside the box; otherwise switch
    k ends up exactly when it was up and no move names it (move 0 names the
    last switch, as `box[-1]` does). Even a failing move only clears switches.
   */
  lemma {:induction false} MoveSpec(box: seq<bool>, moves: seq<int>)
    ensures Move(box, moves).IndexError? <==>
      exists j :: 0 <= j < |moves| && PyIndex(|box|, moves[j] - 1).None?
    ensures Move(box, moves).Moved? ==>
      forall k :: 0 <= k < |box| ==> (Move(box, moves).box[k] <==> box[k] && !Hits(|box|, moves, k))
    ensures forall k :: 0 <= k < |box| && Move(box, moves).box[k] ==> box[k]
  {
    MoveErrors(box, moves);
    MoveClears(box, moves);
    MoveOnlyClears(box, moves);
  }

  lemma {:induction false} MoveErrors(box: seq<bool>, moves: seq<int>)
    ensures Move(box, moves).IndexError? <==>
      exists j :: 0 <= j < |moves| && PyIndex(|box|, moves[j] - 1).None?
    decreases |moves|
  {
    if |moves| > 0 {
      var tail := moves[1..];
      match PyIndex(|box|, moves[0] - 1)
      case None =>
      case Some(k0) =>
        MoveErrors(box[k0 := false], tail);
        if exists j :: 0 <= j < |moves| && PyIndex(|box|, moves[j] - 1).None? {
          var j :| 0 <= j < |moves| && PyIndex(|box|, moves[j] - 1).None?;
          assert j > 0 && tail[j - 1] == moves[j];
        }
        if Move(box[k0 := false], tail).IndexError? {
          var j :| 0 <= j < |tail| && PyIndex(|box|, tail[j] - 1).None?;
          assert moves[j + 1] == tail[j];
        }
    }
  }

  lemma {:induction false} MoveClears(box: seq<bool>, moves: seq<int>)
    ensures Move(box, moves).Moved? ==>
      forall k :: 0 <= k < |box| ==> (Move(box, moves).box[k] <==> box[k] && !Hits(|box|, moves, k))
    decreases |moves|
  {
    if |moves| > 0 {
      var n := |box|;
      var tail := moves[1..];
      match PyIndex(n, moves[0] - 1)
      case None =>
      case Some(k0) =>
        var b := box[k0 := false];
        MoveClears(b, tail);
        if Move(b, tail).Moved? {
          forall k | 0 <= k < n
            ensures Move(box, moves).box[k] <==> box[k] && !Hits(n, moves, k)
          {
            if Hits(n, tail, k) {
              var j :| 0 <= j < |tail| && PyIndex(n, tail[j] - 1) == Some(k);
              assert moves[j + 1] == tail[j];
            }
            if Hits(n, moves, k) && k != k0 {
              var j :| 0 <= j < |moves| && PyIndex(n, moves[j] - 1) == Some(k);
              assert j > 0 && tail[j - 1] == moves[j];
            }
            assert PyIndex(n, moves[0] - 1) == Some(k0);
          }
        }
    }
  }

  lemma {:induction false} MoveOnlyClears(box: seq<bool>, moves: seq<int>)
    ensures forall k :: 0 <= k < |box| && Move(box, moves).box[k] ==> box[k]
    decreases |moves|
  {
    if |moves| > 0 {
      match PyIndex(|box|, moves[0] - 1)
      case None =>
      case Some(k0) =>
        MoveOnlyClears(box[k0 := false], moves[1..]);
    }
  }

  /** Playing the same move twice changes nothing the second time. */
  lemma MoveIdempotent(box: seq<bool>, moves: seq<int>)
    requires forall j :: 0 <= j < |moves| ==> 1 <= moves[j] <= |box|
    ensures Move(Move(box, moves).box, moves) == Move(box, moves)
  {
  }

  /** The simulator's move on its own box. */
  function MoveBox(m: MagicBox, moves: seq<int>): MoveResult {
    Move(m.box, moves)
  }

  // ---------------------------------------------------------------- active numbers

  function ActiveFrom(box: seq<bool>, off: nat): (r: seq<int>)
    ensures StrictlyIncreasing(r)
    ensures forall x :: x in r <==> off + 1 <= x <= off + |box| && box[x - off - 1]
  {
    if |box| == 0 then []
    else
      var rest := ActiveFrom(box[1..], off + 1);
      var r := if box[0] then [off + 1] + rest else rest;
      assert forall x :: x in r <==> off + 1 <= x <= off + |box| && box[x - off - 1] by {
        forall x
          ensures x in r <==> off + 1 <= x <= off + |box| && box[x - off - 1]
        {
          if off + 2 <= x <= off + |box| {
            assert box[1..][x - (off + 1) - 1] == box[x - off - 1];
          }
        }
      }
      assert StrictlyIncreasing(r) by {
        if box[0] {
          PrependIncreasing(off + 1, rest);
        }
      }
      r
  }

  /** get_active_numbers: the numbers whose switch is up, ascending. */
  function ActiveNumbers(box: seq<bool>): (r: seq<int>)
    ensures StrictlyIncreasing(r)
    ensures forall x :: x in r <==> 1 <= x <= |box| && box[x - 1]
  {
    ActiveFrom(box, 0)
  }

  /** After reset every number 1..highNum is active, in ascending order. */
  lemma ResetActivatesAll(m: MagicBox)
    ensures |ActiveNumbers(Reset(m).box)| == m.highNum
    ensures forall i :: 0 <= i < m.highNum ==> ActiveNumbers(Reset(m).box)[i] == i + 1
  {
    var r := ActiveNumbers(Reset(m).box);
    FullActive(m.highNum, 0);
    assert Reset(m).box == FullBox(m.highNum);
  }

  lemma {:induction false} FullActive(n: nat, off: nat)
    ensures |ActiveFrom(FullBox(n), off)| == n
    ensures forall i :: 0 <= i < n ==> ActiveFrom(FullBox(n), off)[i] == off + i + 1
  {
    if n > 0 {
      assert FullBox(n)[1..] == FullBox(n - 1);
      FullActive(n - 1, off + 1);
    }
  }

  // ---------------------------------------------------------------- hashes

  /** get_box_hash: adds 2^i for each switch i that is up. Bit i says whether switch i is up. */
  function BoxHash(box: seq<bool>): (h: int)
    ensures 0 <= h < Pow2(|box|)
    ensures forall i :: 0 <= i < |box| ==> (Bit(h, i) <==> box[i])
  {
    if |box| == 0 then 0
    else
      var n := |box| - 1;
      var prev := BoxHash(box[..n]);
      assert !Bit(prev, n) by { BitAboveBound(prev, n, n); }
      var h := prev + (if box[n] then Pow2(n) else 0);
      assert forall i :: 0 <= i < |box| ==> (Bit(h, i) <==> box[i]) by {
        forall i | 0 <= i < |box|
          ensures Bit(h, i) <==> box[i]
        {
          if box[n] { BitAddFresh(prev, n, i); }
          if i < n { assert box[..n][i] == box[i]; }
        }
      }
      assert h < Pow2(|box|) by {
        if box[n] { AddFreshBelow(prev, n, n + 1); }
      }
      h
  }

  function GetBoxHash(m: MagicBox): int {
    BoxHash(m.box)
  }

  /**
    The decoding loop shared by get_box_from_hash and get_moves_from_hash:
    `count` rounds; a code above 1 yields its parity and is halved, a code of 1
    yields True and is cleared, a code of 0 or less yields False. On a
    non-negative code round i yields bit i.
   */
  function DecodeBits(h: int, count: nat): seq<bool> {
    if count == 0 then []
    else if h > 1 then [h % 2 == 1] + DecodeBits(h / 2, count - 1)
    else if h == 1 then [true] + DecodeBits(0, count - 1)
    else [false] + DecodeBits(h, count - 1)
  }

  /** The decoding loop yields `count` flags; on a non-negative code flag i is bit i, on a negative one every flag is false. */
  lemma {:induction false} DecodeBitsSpec(h: int, count: nat)
    ensures |DecodeBits(h, count)| == count
    ensures h >= 0 ==> forall i :: 0 <= i < count ==> (DecodeBits(h, count)[i] <==> Bit(h, i))
    ensures h < 0 ==> forall i :: 0 <= i < count ==> !DecodeBits(h, count)[i]
  {
    if count == 0 {
    } else if h > 1 {
      DecodeBitsSpec(h / 2, count - 1);
    } else if h == 1 {
      DecodeBitsSpec(0, count - 1);
      forall i | 0 < i < count ensures !Bit(h, i) { BitOfZero(i - 1); }
    } else {
      DecodeBitsSpec(h, count - 1);
      if h >= 0 {
        forall i | 0 <= i < count ensures !Bit(h, i) { BitOfZero(i); }
      }
    }
  }

  /** get_box_from_hash: the lowest highNum bits of the code as switches. */
  function GetBoxFromHash(m: MagicBox, h: int): (r: seq<bool>)
    ensures |r| == m.highNum
    ensures h >= 0 ==> forall i :: 0 <= i < m.highNum ==> (r[i] <==> Bit(h, i))
    ensures h < 0 ==> forall i :: 0 <= i < m.highNum ==> !r[i]
  {
    DecodeBitsSpec(h, m.highNum);
    DecodeBits(h, m.highNum)
  }

  /** Decoding the box's own hash gives back the box, and the hash fits in highNum bits. */
  lemma BoxHashRoundTrip(m: MagicBox)
    requires |m.box| == m.highNum
    ensures GetBoxFromHash(m, GetBoxHash(m)) == m.box
    ensures 0 <= GetBoxHash(m) < Pow2(m.highNum)
  {
  }

  /** get_moves_hash: adds 2^a for each move a (a number, not a position). */
  function MovesHash(moves: seq<nat>): nat {
    if |moves| == 0 then 0 else MovesHash(moves[..|moves| - 1]) + Pow2(moves[|moves| - 1])
  }

  /** For moves without repeats, all below n, bit a of the hash is set exactly for the moves a. */
  lemma {:induction false} MovesHashBits(moves: seq<nat>, n: nat)
    requires Distinct(moves) && forall j :: 0 <= j < |moves| ==> moves[j] < n
    ensures MovesHash(moves) < Pow2(n)
    ensures forall i :: Bit(MovesHash(moves), i) <==> i in moves
  {
    if |moves| == 0 {
      forall i ensures !Bit(0, i) { BitOfZero(i); }
    } else {
      var k := |moves| - 1;
      var prefix := moves[..k];
      var a := moves[k];
      assert Distinct(prefix) by {
        forall x, y | 0 <= x < y < |prefix| ensures prefix[x] != prefix[y] {
          assert moves[x] != moves[y];
        }
      }
      MovesHashBits(prefix, n);
      assert a !in prefix by {
        forall j | 0 <= j < |prefix| ensures prefix[j] != a {
          assert moves[j] != moves[k];
        }
      }
      var h := MovesHash(prefix);
      forall i
        ensures Bit(h + Pow2(a), i) <==> i in moves
      {
        BitAddFresh(h, a, i);
        assert moves == prefix + [a];
      }
      AddFreshBelow(h, a, n);
    }
  }

  /** enumerate-and-filter: the positions (plus `off`) whose flag is set, ascending. */
  function TrueIndices(bits: seq<bool>, off: nat): seq<int> {
    if |bits| == 0 then []
    else if bits[0] then [off] + TrueIndices(bits[1..], off + 1)
    else TrueIndices(bits[1..], off + 1)
  }

  /** The positions found are increasing, and x is among them exactly when flag x - off is set. */
  lemma {:induction false} TrueIndicesSpec(bits: seq<bool>, off: nat)
    ensures StrictlyIncreasing(TrueIndices(bits, off))
    ensures forall x :: x in TrueIndices(bits, off) <==> off <= x < off + |bits| && bits[x - off]
  {
    if |bits| > 0 {
      var rest := TrueIndices(bits[1..], off + 1);
      var r := TrueIndices(bits, off);
      TrueIndicesSpec(bits[1..], off + 1);
      forall x
        ensures x in r <==> off <= x < off + |bits| && bits[x - off]
      {
        if off + 1 <= x < off + |bits| {
          assert bits[1..][x - (off + 1)] == bits[x - off];
        }
      }
      if bits[0] {
        PrependIncreasing(off, rest);
      }
    }
  }

  /** get_moves_from_hash: the set bits among the lowest highNum+1, ascending. */
  function GetMovesFromHash(m: MagicBox, h: int): (r: seq<int>)
    ensures StrictlyIncreasing(r)
    ensures forall x :: x in r <==> 0 <= x <= m.highNum && h >= 0 && Bit(h, x)
  {
    var bits := DecodeBits(h, m.highNum + 1);
    DecodeBitsSpec(h, m.highNum + 1);
    TrueIndicesSpec(bits, 0);
    TrueIndices(bits, 0)
  }

  /**
    For moves without repeats, each in 0..highNum, decoding their hash gives
    them back sorted ascending.
   */
  lemma MovesHashRoundTrip(m: MagicBox, moves: seq<nat>)
    requires Distinct(moves) && forall x :: x in moves ==> x <= m.highNum
    ensures StrictlyIncreasing(GetMovesFromHash(m, MovesHash(moves)))
    ensures multiset(GetMovesFromHash(m, MovesHash(moves))) == multiset(moves)
  {
    var h := MovesHash(moves);
    var r := GetMovesFromHash(m, h);
    forall j | 0 <= j < |moves| ensures moves[j] < m.highNum + 1 {
      assert moves[j] in moves;
    }
    MovesHashBits(moves, m.highNum + 1);
    forall x
      ensures x in r <==> x in moves
    {
      if x in moves {
        var j :| 0 <= j < |moves| && moves[j] == x;
        assert Bit(h, x);
      }
    }
    assert Distinct(r) by {
      forall a, b | 0 <= a < b < |r| ensures r[a] != r[b] {
      }
    }
    SameElementsSameMultiset(r, moves);
  }
}
