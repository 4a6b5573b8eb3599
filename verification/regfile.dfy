/**
 The post-quantum special-purpose register file: eighteen registers at
 fixed indices, plus the set of indices written in the current cycle.

 Every register operation stages a pending value and adds the register's
 index to the pending set; `Commit` and `Abort` close the cycle for all
 registers at once and empty the set.
 */
module RegFile {
  import opened Outcomes
  import opened Lanes
  import C = Cells

  /** Number of registers in the file. */
  const NUM_REGS: nat := 18

  // Register indices. TRCU: twiddle and root-of-unity unit.
  const Q: nat := 0
  const Q_DASH: nat := 1
  const TWIDDLE: nat := 2
  const OMEGA: nat := 3
  const PSI: nat := 4
  const IDX_OMEGA: nat := 5
  const IDX_PSI: nat := 6
  const CONST: nat := 7
  const RC: nat := 8
  const IDX_RC: nat := 9
  // RAU: address unit.
  const M: nat := 10
  const J2: nat := 11
  const J: nat := 12
  const IDX_0: nat := 13
  const IDX_1: nat := 14
  const MODE: nat := 15
  const X: nat := 16
  const Y: nat := 17

  /** Trace entries carry the file's width, whatever the register's own width. */
  const TRACE_WIDTH: nat := 256

  /** omega, psi and rc are 256 bits wide; every other register has 32 bits. */
  function WidthOf(idx: int): C.Width {
    if idx == OMEGA || idx == PSI || idx == RC then C.Wide else C.Word
  }

  /** The registers with an increment operation: the lane and address
      counters and the loop counters. */
  predicate IsCounter(idx: nat) {
    idx in {IDX_OMEGA, IDX_PSI, IDX_RC, J, IDX_0, IDX_1, X, Y}
  }

  /** The register file: the name prefix used in traces, the registers in
      index order, and the indices marked written in this cycle. */
  datatype PqsprFile = PqsprFile(namePrefix: string, regs: seq<C.Cell>, pendingWrites: set<int>)

  /** The file invariant: eighteen registers of the right widths whose values
      fit, and every register holding a pending value is in the pending set. */
  predicate Valid(f: PqsprFile) {
    && |f.regs| == NUM_REGS
    && (forall i :: 0 <= i < NUM_REGS ==> f.regs[i].width == WidthOf(i) && C.WellFormed(f.regs[i]))
    && (forall i :: 0 <= i < NUM_REGS && f.regs[i].pending.Some? ==> i in f.pendingWrites)
  }

  /** The current value of register `idx`. */
  function Cur(f: PqsprFile, idx: nat): nat
    requires Valid(f) && idx < NUM_REGS
  {
    f.regs[idx].current
  }

  /** The pending value of register `idx`, or its current value when none is staged. */
  function Next(f: PqsprFile, idx: nat): nat
    requires Valid(f) && idx < NUM_REGS
  {
    C.MergeBase(f.regs[idx])
  }

  /** A freshly built file: every register at 0, nothing pending. */
  function Init(namePrefix: string): (f: PqsprFile)
    ensures Valid(f) && f.pendingWrites == {} && f.namePrefix == namePrefix
    ensures forall i :: 0 <= i < NUM_REGS ==> Cur(f, i) == 0 && f.regs[i].pending.None?
  {
    PqsprFile(namePrefix, seq(NUM_REGS, i => C.Cell(WidthOf(i), 0, None)), {})
  }

  /** `g` is `f` with only register `idx` changed, and only in its pending
      value (now present), and `idx` added to the pending set. */
  predicate StagedAt(f: PqsprFile, g: PqsprFile, idx: nat)
    requires Valid(f) && Valid(g) && idx < NUM_REGS
  {
    && g.namePrefix == f.namePrefix
    && g.pendingWrites == f.pendingWrites + {idx}
    && g.regs[idx].pending.Some?
    && g.regs == f.regs[idx := f.regs[idx].(pending := g.regs[idx].pending)]
  }

  /** The pending value a successful operation staged on `idx`. */
  function Staged(g: PqsprFile, idx: nat): nat
    requires Valid(g) && idx < NUM_REGS && g.regs[idx].pending.Some?
  {
    g.regs[idx].pending.value
  }

  /** Give register `idx` the pending value `v` and mark it written. */
  function Stage(f: PqsprFile, idx: nat, v: nat): (g: PqsprFile)
    requires Valid(f) && idx < NUM_REGS && v < WidthOf(idx).Limit()
    ensures Valid(g) && StagedAt(f, g, idx) && Staged(g, idx) == v
  {
    MarkWritten(f.(regs := f.regs[idx := f.regs[idx].(pending := Some(v))]), idx)
  }

  /** Record that register `idx` was written this cycle. The index is not
      checked: any integer enters the pending set. */
  function MarkWritten(f: PqsprFile, idx: int): (g: PqsprFile)
    ensures g.pendingWrites == f.pendingWrites + {idx}
    ensures g.regs == f.regs && g.namePrefix == f.namePrefix
    ensures Valid(f) ==> Valid(g)
  {
    f.(pendingWrites := f.pendingWrites + {idx})
  }

  /** The register at index `idx`; indices outside 0..17 are refused. */
  function GetReg(f: PqsprFile, idx: int): (r: Result<C.Cell>)
    requires Valid(f)
    ensures r.Ok? <==> 0 <= idx < NUM_REGS
    ensures r.Ok? ==> r.value.width == WidthOf(idx) && r.value == f.regs[idx]
  {
    if 0 <= idx < NUM_REGS then Ok(f.regs[idx]) else Err(IndexOutOfRange)
  }

  /** True when every index in the pending set names a register. */
  predicate PendingInRange(f: PqsprFile) {
    forall i :: i in f.pendingWrites ==> 0 <= i < NUM_REGS
  }

  /** Staging a register leaves the pending set in range exactly when it
      was in range before. */
  lemma StagedInRange(f: PqsprFile, g: PqsprFile, idx: nat)
    requires Valid(f) && Valid(g) && idx < NUM_REGS && StagedAt(f, g, idx)
    ensures PendingInRange(g) <==> PendingInRange(f)
  {
  }

  /** Close the cycle: every register in the pending set takes its pending
      value, and the set is emptied. A pending index that names no register
      makes the lookup fail. */
  function Commit(f: PqsprFile): (r: Result<PqsprFile>)
    requires Valid(f)
    ensures r.Ok? <==> PendingInRange(f)
    ensures r.Ok? ==> Valid(r.value) && r.value.pendingWrites == {} && r.value.namePrefix == f.namePrefix
    ensures r.Ok? ==> forall i :: 0 <= i < NUM_REGS ==>
      Cur(r.value, i) == Next(f, i) && r.value.regs[i].pending.None?
  {
    if PendingInRange(f) then
      Ok(f.(regs := seq(NUM_REGS, i requires 0 <= i < NUM_REGS =>
                          if i in f.pendingWrites then C.Commit(f.regs[i]) else f.regs[i]),
            pendingWrites := {}))
    else Err(NoSuchRegister)
  }

  /** Close the cycle without effect: every pending value is dropped and the
      set is emptied. A pending index outside 0..17 fails the range check. */
  function Abort(f: PqsprFile): (r: Result<PqsprFile>)
    requires Valid(f)
    ensures r.Ok? <==> PendingInRange(f)
    ensures r.Ok? ==> Valid(r.value) && r.value.pendingWrites == {} && r.value.namePrefix == f.namePrefix
    ensures r.Ok? ==> forall i :: 0 <= i < NUM_REGS ==>
      Cur(r.value, i) == Cur(f, i) && r.value.regs[i].pending.None?
  {
    if PendingInRange(f) then
      Ok(f.(regs := seq(NUM_REGS, i requires 0 <= i < NUM_REGS =>
                          if i in f.pendingWrites then C.Abort(f.regs[i]) else f.regs[i]),
            pendingWrites := {}))
    else Err(IndexOutOfRange)
  }

  /** Commit of a single register, as the register's own commit does it:
      the register takes its pending value but the file's pending set is
      left as it is. */
  function CommitReg(f: PqsprFile, idx: nat): (g: PqsprFile)
    requires Valid(f) && idx < NUM_REGS
    ensures Valid(g) && g.pendingWrites == f.pendingWrites && g.namePrefix == f.namePrefix
    ensures Cur(g, idx) == Next(f, idx) && g.regs[idx].pending.None?
    ensures forall i :: 0 <= i < NUM_REGS && i != idx ==> g.regs[i] == f.regs[i]
  {
    f.(regs := f.regs[idx := C.Commit(f.regs[idx])])
  }

  /** Stage a whole new value for register `idx`; a value that does not fit
      its width is refused. */
  function Write(f: PqsprFile, idx: nat, v: int): (r: Result<PqsprFile>)
    requires Valid(f) && idx < NUM_REGS
    ensures r.Ok? <==> 0 <= v < WidthOf(idx).Limit()
    ensures r.Ok? ==> Valid(r.value) && StagedAt(f, r.value, idx) && Staged(r.value, idx) == v
  {
    match C.Write(f.regs[idx], v)
    case Ok(c) => Ok(Stage(f, idx, v))
    case Err(e) => Err(e)
  }

  /** Write the 32-bit `x` to lane `lane` of wide register `idx`, merging
      into this cycle's pending value if there is one. */
  function WriteLane(f: PqsprFile, idx: nat, x: int, lane: int): (r: Result<PqsprFile>)
    requires Valid(f) && idx < NUM_REGS && WidthOf(idx) == C.Wide
    ensures r.Ok? <==> 0 <= lane < LANES && 0 <= x < WORD_LIMIT
    ensures r.Ok? ==> Valid(r.value) && StagedAt(f, r.value, idx)
    ensures r.Ok? ==> forall j :: 0 <= j < LANES ==>
      Lane(Staged(r.value, idx), j) == if j == lane then x else Lane(Next(f, idx), j)
  {
    match C.WriteLane(f.regs[idx], x, lane)
    case Ok(c) => Ok(Stage(f, idx, c.pending.value))
    case Err(e) => Err(e)
  }

  // ---- trace of pending writes ----

  /** One line of the register trace: the register's name, the trace width
      and its pending value (absent when the index was marked but nothing was
      staged). */
  datatype TraceEntry = TraceEntry(name: string, width: nat, newValue: Option<nat>)

  /** The decimal digit character for `d`. */
  function DecimalDigit(d: nat): char
    requires d < 10
  {
    ('0' as int + d) as char
  }

  /** The value of a decimal digit character. */
  function DecimalValue(c: char): int {
    (c as int) - ('0' as int)
  }

  /** `prefix` followed by `idx` as two zero-padded decimal digits. */
  function RegName(prefix: string, idx: nat): (name: string)
    requires idx < 100
    ensures |name| == |prefix| + 2 && name[..|prefix|] == prefix
    ensures '0' <= name[|prefix|] <= '9' && '0' <= name[|prefix| + 1] <= '9'
    ensures NameIndex(prefix, name) == idx
  {
    prefix + [DecimalDigit(idx / 10), DecimalDigit(idx % 10)]
  }

  /** The register index a trace name carries in its two digits after the prefix. */
  function NameIndex(prefix: string, name: string): int {
    if |name| == |prefix| + 2 then
      10 * DecimalValue(name[|prefix|]) + DecimalValue(name[|prefix| + 1])
    else -1
  }

  /** The indices of the pending set from `lo` up to 17, in ascending order. */
  function PendingFrom(s: set<int>, lo: nat): (ix: seq<nat>)
    requires lo <= NUM_REGS
    ensures forall k :: 0 <= k < |ix| ==> lo <= ix[k] < NUM_REGS && ix[k] in s
    ensures forall i :: lo <= i < NUM_REGS && i in s ==> i in ix
    ensures forall k, l :: 0 <= k < l < |ix| ==> ix[k] < ix[l]
    decreases NUM_REGS - lo
  {
    if lo == NUM_REGS then []
    else if lo in s then [lo] + PendingFrom(s, lo + 1)
    else PendingFrom(s, lo + 1)
  }

  /** The pending indices from `lo` up, as a set. */
  function PendingAbove(s: set<int>, lo: nat): set<int> {
    set i | i in s && lo <= i < NUM_REGS
  }

  /** `PendingFrom` lists each pending index in range exactly once. */
  lemma {:induction false} PendingFromCount(s: set<int>, lo: nat)
    requires lo <= NUM_REGS
    ensures |PendingFrom(s, lo)| == |PendingAbove(s, lo)|
    decreases NUM_REGS - lo
  {
    if lo == NUM_REGS {
      assert PendingAbove(s, lo) == {};
    } else {
      PendingFromCount(s, lo + 1);
      PendingAboveStep(s, lo);
      var above := PendingAbove(s, lo + 1);
      if lo in s {
        assert |PendingFrom(s, lo)| == |PendingFrom(s, lo + 1)| + 1;
        assert |{lo} + above| == |above| + 1;
      } else {
        assert PendingFrom(s, lo) == PendingFrom(s, lo + 1);
      }
    }
  }

  /** Stepping the lower bound up by one drops `lo` from the pending indices above it. */
  lemma PendingAboveStep(s: set<int>, lo: nat)
    requires lo < NUM_REGS
    ensures lo in s ==> PendingAbove(s, lo) == {lo} + PendingAbove(s, lo + 1)
    ensures lo !in PendingAbove(s, lo + 1)
    ensures lo !in s ==> PendingAbove(s, lo) == PendingAbove(s, lo + 1)
  {
  }

  /** The trace entry for register `idx`. */
  function EntryFor(f: PqsprFile, idx: nat): TraceEntry
    requires Valid(f) && idx < NUM_REGS
  {
    TraceEntry(RegName(f.namePrefix, idx), TRACE_WIDTH, f.regs[idx].pending)
  }

  /** The trace entries for the listed indices, in the same order. Each
      entry's name carries its index. */
  function Entries(f: PqsprFile, ix: seq<nat>): (es: seq<TraceEntry>)
    requires Valid(f) && forall k :: 0 <= k < |ix| ==> ix[k] < NUM_REGS
    ensures |es| == |ix|
    ensures forall k :: 0 <= k < |ix| ==> es[k] == EntryFor(f, ix[k])
    ensures forall k :: 0 <= k < |ix| ==> NameIndex(f.namePrefix, es[k].name) == ix[k]
  {
    seq(|ix|, k requires 0 <= k < |ix| => EntryFor(f, ix[k]))
  }

  /** Every index the list holds has its entry among the entries. */
  lemma EntriesCover(f: PqsprFile, ix: seq<nat>)
    requires Valid(f) && forall k :: 0 <= k < |ix| ==> ix[k] < NUM_REGS
    ensures forall i :: i in ix ==> EntryFor(f, i) in Entries(f, ix)
  {
    forall i | i in ix
      ensures EntryFor(f, i) in Entries(f, ix)
    {
      var k :| 0 <= k < |ix| && ix[k] == i;
      assert Entries(f, ix)[k] == EntryFor(f, i);
    }
  }

  /** One trace entry per pending index, in ascending index order, each with
      the trace width 256 and the register's pending value; a pending index
      outside 0..17 fails the range check. */
  function Changes(f: PqsprFile): (r: Result<seq<TraceEntry>>)
    requires Valid(f)
    ensures r.Ok? <==> PendingInRange(f)
    ensures r.Ok? ==> |r.value| == |f.pendingWrites|
    ensures r.Ok? ==> forall i :: i in f.pendingWrites ==> 0 <= i < NUM_REGS && EntryFor(f, i) in r.value
    ensures r.Ok? ==> forall k :: 0 <= k < |r.value| ==>
      var i := NameIndex(f.namePrefix, r.value[k].name);
      0 <= i < NUM_REGS && i in f.pendingWrites && r.value[k] == EntryFor(f, i)
    ensures r.Ok? ==> forall k, l :: 0 <= k < l < |r.value| ==>
      NameIndex(f.namePrefix, r.value[k].name) < NameIndex(f.namePrefix, r.value[l].name)
  {
    if PendingInRange(f) then
      var ix := PendingFrom(f.pendingWrites, 0);
      assert |ix| == |f.pendingWrites| by {
        PendingFromCount(f.pendingWrites, 0);
        assert PendingAbove(f.pendingWrites, 0) == f.pendingWrites;
      }
      EntriesCover(f, ix);
      Ok(Entries(f, ix))
    else Err(IndexOutOfRange)
  }

  /** Because the written index is not checked, marking an index that names
      no register leaves a pending set that makes the trace, the commit and
      the abort all fail. */
  lemma MarkWrittenOutOfRange(f: PqsprFile, idx: int)
    requires Valid(f) && !(0 <= idx < NUM_REGS)
    ensures Valid(MarkWritten(f, idx))
    ensures Changes(MarkWritten(f, idx)).Err?
    ensures Commit(MarkWritten(f, idx)).Err? && Abort(MarkWritten(f, idx)).Err?
  {
    assert idx in MarkWritten(f, idx).pendingWrites;
  }
}
