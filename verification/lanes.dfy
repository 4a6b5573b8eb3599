/**
 Lane addressing of wide (256-bit) register values.

 A wide value is read as eight 32-bit lanes, lane 0 being the least
 significant: lane `i` of `v` is `(v >> 32*i) & 0xFFFF_FFFF`. Values are
 unbounded naturals; a right shift by 32 is a division by 2^32 and a mask
 with 2^32 - 1 is a remainder modulo 2^32.
 */
module Lanes {
  import opened Arith

  /** 2^32: one more than the largest 32-bit word. */
  const WORD_LIMIT: nat := 0x1_0000_0000

  /** Number of 32-bit lanes in a wide register. */
  const LANES: nat := 8

  /** 2^(32 n): the first value that does not fit in `n` lanes. */
  function LanesLimit(n: nat): (r: nat)
    ensures r > 0
  {
    if n == 0 then 1 else WORD_LIMIT * LanesLimit(n - 1)
  }

  /** 2^256: one more than the largest wide value. */
  const WIDE_LIMIT: nat := LanesLimit(LANES)

  /** Lane `i` of `v`: the 32-bit word at bit offset 32 i. */
  function Lane(v: nat, i: nat): (w: nat)
    ensures w < WORD_LIMIT
  {
    if i == 0 then v % WORD_LIMIT else Lane(v / WORD_LIMIT, i - 1)
  }

  /** `v` with lane `i` replaced by `x`: the 32-bit window at offset 32 i
      is cleared and `x` is placed there; every other bit of `v` is kept. */
  function SetLane(v: nat, i: nat, x: nat): nat
    requires x < WORD_LIMIT
  {
    if i == 0 then (v / WORD_LIMIT) * WORD_LIMIT + x
    else SetLane(v / WORD_LIMIT, i - 1, x) * WORD_LIMIT + v % WORD_LIMIT
  }

  /** The value whose `n` lowest lanes all hold `x` and whose higher bits are zero. */
  function Replicate(x: nat, n: nat): nat
    requires x < WORD_LIMIT
  {
    if n == 0 then 0 else x + WORD_LIMIT * Replicate(x, n - 1)
  }

  /** `x` in each of the eight lanes of a wide value. */
  function Broadcast(x: nat): nat
    requires x < WORD_LIMIT
  {
    Replicate(x, LANES)
  }

  /** 2^256 written out. */
  lemma WideLimitValue()
    ensures WIDE_LIMIT == 0x1_0000_0000_0000_0000_0000_0000_0000_0000_0000_0000_0000_0000_0000_0000_0000_0000
  {
  }

  /** A lane write sets the addressed lane and leaves every other lane intact. */
  lemma {:induction false} SetLaneLane(v: nat, i: nat, x: nat, j: nat)
    requires x < WORD_LIMIT
    ensures Lane(SetLane(v, i, x), j) == if i == j then x else Lane(v, j)
    decreases i
  {
    if i == 0 {
      if j != 0 {
        assert SetLane(v, i, x) / WORD_LIMIT == v / WORD_LIMIT;
      }
    } else {
      var w := SetLane(v / WORD_LIMIT, i - 1, x);
      assert SetLane(v, i, x) == w * WORD_LIMIT + v % WORD_LIMIT;
      if j == 0 {
        assert SetLane(v, i, x) % WORD_LIMIT == v % WORD_LIMIT;
      } else {
        assert SetLane(v, i, x) / WORD_LIMIT == w;
        SetLaneLane(v / WORD_LIMIT, i - 1, x, j - 1);
      }
    }
  }

  /** Writing the same lane with the same word twice is the same as writing it once. */
  lemma {:induction false} SetLaneTwice(v: nat, i: nat, x: nat)
    requires x < WORD_LIMIT
    ensures SetLane(SetLane(v, i, x), i, x) == SetLane(v, i, x)
    decreases i
  {
    var w := SetLane(v, i, x);
    if i == 0 {
      assert w / WORD_LIMIT == v / WORD_LIMIT;
    } else {
      var inner := SetLane(v / WORD_LIMIT, i - 1, x);
      assert w / WORD_LIMIT == inner && w % WORD_LIMIT == v % WORD_LIMIT;
      SetLaneTwice(v / WORD_LIMIT, i - 1, x);
    }
  }

  /** A lane write inside the first `n` lanes keeps a value that fits in `n` lanes fitting. */
  lemma {:induction false} SetLaneBound(v: nat, i: nat, x: nat, n: nat)
    requires x < WORD_LIMIT && i < n && v < LanesLimit(n)
    ensures SetLane(v, i, x) < LanesLimit(n)
    decreases i
  {
    var below := LanesLimit(n - 1);
    assert v / WORD_LIMIT < below;
    if i > 0 {
      SetLaneBound(v / WORD_LIMIT, i - 1, x, n - 1);
    }
  }

  /** Values that fit in `n` lanes and agree on each of them are equal. */
  lemma {:induction false} LanesDetermineValue(v: nat, w: nat, n: nat)
    requires v < LanesLimit(n) && w < LanesLimit(n)
    requires forall j :: 0 <= j < n ==> Lane(v, j) == Lane(w, j)
    ensures v == w
  {
    if n > 0 {
      assert Lane(v, 0) == Lane(w, 0);
      forall j | 0 <= j < n - 1
        ensures Lane(v / WORD_LIMIT, j) == Lane(w / WORD_LIMIT, j)
      {
        assert Lane(v, j + 1) == Lane(w, j + 1);
      }
      LanesDetermineValue(v / WORD_LIMIT, w / WORD_LIMIT, n - 1);
    }
  }

  /** Every lane of a value below 2^32 other than lane 0 is zero. */
  lemma {:induction false} SmallValueLanes(v: nat, j: nat)
    requires v < WORD_LIMIT
    ensures Lane(v, j) == if j == 0 then v else 0
    decreases j
  {
    if j > 0 {
      assert v / WORD_LIMIT == 0;
      if j > 1 {
        SmallValueLanes(0, j - 1);
      }
    }
  }

  /** `Replicate(x, n)` fits in `n` lanes and holds `x` in each of them. */
  lemma {:induction false} ReplicateLanes(x: nat, n: nat, j: nat)
    requires x < WORD_LIMIT
    ensures Replicate(x, n) < LanesLimit(n)
    ensures Lane(Replicate(x, n), j) == if j < n then x else 0
    decreases n
  {
    if n == 0 {
      SmallValueLanes(0, j);
    } else {
      ReplicateLanes(x, n - 1, if j == 0 then 0 else j - 1);
      var r := Replicate(x, n - 1);
      assert Replicate(x, n) == x + WORD_LIMIT * r;
      assert Replicate(x, n) / WORD_LIMIT == r;
      assert Replicate(x, n) % WORD_LIMIT == x;
    }
  }

  /** A wide value is the broadcast of `x` exactly when all eight of its lanes hold `x`. */
  lemma BroadcastCharacterized(v: nat, x: nat)
    requires x < WORD_LIMIT && v < WIDE_LIMIT
    ensures v == Broadcast(x) ==> forall j: nat :: j < LANES ==> Lane(v, j) == x
    ensures (forall j: nat :: j < LANES ==> Lane(v, j) == x) ==> v == Broadcast(x)
  {
    var b := Broadcast(x);
    forall j | 0 <= j < LANES
      ensures Lane(b, j) == x
    {
      ReplicateLanes(x, LANES, j);
    }
    ReplicateLanes(x, LANES, 0);
    assert b < WIDE_LIMIT;
    if forall j: nat :: j < LANES ==> Lane(v, j) == x {
      LanesDetermineValue(v, b, LANES);
    } else {
      var j: nat :| j < LANES && Lane(v, j) != x;
      assert Lane(b, j) == x;
    }
  }

  /** The recursive lane definition agrees with the shift-and-mask formula
      `(v >> 32 i) & 0xFFFF_FFFF`. */
  lemma {:induction false} LaneIsShiftAndMask(v: nat, i: nat)
    ensures Lane(v, i) == (v / LanesLimit(i)) % WORD_LIMIT
    decreases i
  {
    if i > 0 {
      LaneIsShiftAndMask(v / WORD_LIMIT, i - 1);
      DivDiv(v, WORD_LIMIT, LanesLimit(i - 1));
    }
  }
}
