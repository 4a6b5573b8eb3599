/**
 The two-phase register cell every special-purpose register is built on.

 A cell has a fixed width, a current value and an optional pending value.
 A write only sets the pending value; commit makes the pending value
 current and clears it; abort clears it and keeps the current value. Wide
 (256-bit) cells are also addressable as eight 32-bit lanes: a lane write
 merges into the pending value when one already exists in this cycle, and
 into the current value otherwise, so several lane writes in one cycle all
 land.
 */
module Cells {
  import opened Outcomes
  import opened Lanes

  /** The two register widths of the file. */
  datatype Width = Word | Wide {

    /** Width in bits. */
    function Bits(): nat {
      if Word? then 32 else 256
    }

    /** 2^Bits(): the first value that does not fit. */
    function Limit(): nat {
      if Word? then WORD_LIMIT else WIDE_LIMIT
    }
  }

  /** A register: width, current value and optional pending value. */
  datatype Cell = Cell(width: Width, current: nat, pending: Option<nat>)

  /** Both the current and the pending value fit the width. */
  predicate WellFormed(c: Cell) {
    c.current < c.width.Limit() && (c.pending.Some? ==> c.pending.value < c.width.Limit())
  }

  /** The value a lane write merges into: the pending value if this cycle
      already wrote the register, otherwise the current value. */
  function MergeBase(c: Cell): nat {
    c.pending.GetOr(c.current)
  }

  /** Stage `v` as the new value: the current value stays visible until commit. */
  function Write(c: Cell, v: int): (r: Result<Cell>)
    ensures r.Ok? <==> 0 <= v < c.width.Limit()
    ensures r.Ok? ==> r.value.width == c.width && r.value.current == c.current
    ensures r.Ok? ==> r.value.pending == Some(v)
  {
    if 0 <= v < c.width.Limit() then Ok(c.(pending := Some(v))) else Err(ValueOutOfRange)
  }

  /** End of cycle: the pending value, if any, becomes current. */
  function Commit(c: Cell): Cell {
    match c.pending
    case Some(v) => Cell(c.width, v, None)
    case None => c
  }

  /** End of cycle without effect: the pending value is dropped. */
  function Abort(c: Cell): Cell {
    c.(pending := None)
  }

  /** Lane `i` of the current value; lanes outside 0..7 are refused. */
  function ReadLane(c: Cell, i: int): (r: Result<nat>)
    ensures r.Ok? <==> 0 <= i < LANES
    ensures r.Ok? ==> r.value == (c.current / LanesLimit(i)) % WORD_LIMIT
  {
    if 0 <= i < LANES then
      LaneIsShiftAndMask(c.current, i);
      Ok(Lane(c.current, i))
    else Err(LaneOutOfRange)
  }

  /** Lane write with checked arguments: lane `i` of the merge base becomes `x`. */
  function StageLane(c: Cell, i: nat, x: nat): (d: Cell)
    requires i < LANES && x < WORD_LIMIT
    ensures d.width == c.width && d.current == c.current && d.pending.Some?
    ensures forall j :: 0 <= j < LANES ==>
      Lane(d.pending.value, j) == if j == i then x else Lane(MergeBase(c), j)
    ensures WellFormed(c) && c.width == Wide ==> WellFormed(d)
  {
    var v := SetLane(MergeBase(c), i, x);
    assert forall j :: 0 <= j < LANES ==> Lane(v, j) == if j == i then x else Lane(MergeBase(c), j) by {
      forall j | 0 <= j < LANES
        ensures Lane(v, j) == if j == i then x else Lane(MergeBase(c), j)
      {
        SetLaneLane(MergeBase(c), i, x, j);
      }
    }
    assert WellFormed(c) && c.width == Wide ==> v < WIDE_LIMIT by {
      if WellFormed(c) && c.width == Wide {
        SetLaneBound(MergeBase(c), i, x, LANES);
      }
    }
    c.(pending := Some(v))
  }

  /** Write the 32-bit `x` to lane `i`; a lane outside 0..7 or a value that
      is not a 32-bit word is refused. */
  function WriteLane(c: Cell, x: int, i: int): (r: Result<Cell>)
    ensures r.Ok? <==> 0 <= i < LANES && 0 <= x < WORD_LIMIT
    ensures r.Ok? ==> r.value == StageLane(c, i, x)
  {
    if !(0 <= i < LANES) then Err(LaneOutOfRange)
    else if !(0 <= x < WORD_LIMIT) then Err(ValueOutOfRange)
    else Ok(StageLane(c, i, x))
  }

  /** A committed write is visible; an aborted one leaves the old value. */
  lemma WriteThenCommitOrAbort(c: Cell, v: int)
    requires Write(c, v).Ok?
    ensures Commit(Write(c, v).value).current == v
    ensures Abort(Write(c, v).value).current == c.current
    ensures Commit(Write(c, v).value).pending.None? && Abort(Write(c, v).value).pending.None?
  {
  }

  /** Commit and abort each leave no pending value, so a second commit or
      abort changes nothing. */
  lemma CommitAbortIdempotent(c: Cell)
    ensures Commit(c).pending.None? && Abort(c).pending.None?
    ensures Commit(Commit(c)) == Commit(c) && Abort(Abort(c)) == Abort(c)
    ensures WellFormed(c) ==> WellFormed(Commit(c)) && WellFormed(Abort(c))
  {
  }

  /** A lane write, once committed, changes the addressed lane and no other. */
  lemma LaneWriteThenCommit(c: Cell, x: int, i: int, j: nat)
    requires c.pending.None? && j < LANES
    requires WriteLane(c, x, i).Ok?
    ensures Lane(Commit(WriteLane(c, x, i).value).current, j) == if j == i then x else Lane(c.current, j)
  {
  }

  /** Two lane writes in the same cycle merge: after commit lane `i` holds
      the first value unless the second write addressed the same lane, lane
      `k` holds the second value, and every other lane keeps its value from
      before the cycle. */
  lemma TwoLaneWritesMerge(c: Cell, x: int, i: int, y: int, k: int, j: nat)
    requires c.pending.None? && j < LANES
    requires WriteLane(c, x, i).Ok? && WriteLane(WriteLane(c, x, i).value, y, k).Ok?
    ensures var d := Commit(WriteLane(WriteLane(c, x, i).value, y, k).value);
      Lane(d.current, j) == if j == k then y else if j == i then x else Lane(c.current, j)
  {
  }
}
