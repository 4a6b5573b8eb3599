/**
 One simulated clock cycle of the register file.

 The execution engine issues any number of register operations and then
 closes the cycle with one commit or one abort. Because every operation
 reads only current values and stages a pending value on its own register,
 operations on distinct registers commute, repeating an operation within a
 cycle changes nothing, and no current value moves before the commit.
 */
module Cycle {
  import opened Outcomes
  import opened Lanes
  import opened RegFile
  import opened PqRegisters
  import C = Cells

  /** The register operations the execution engine can issue. */
  datatype Op =
    | WriteOp(idx: nat, value: int)
    | WriteLaneOp(idx: nat, word: int, lane: int)
    | IncOp(idx: nat)
    | TwiddleSetAsPsiOp
    | TwiddleInvOp
    | TwiddleUpdateOp
    | OmegaUpdateOp
    | PsiUpdateOp
    | MUpdateOp
    | J2UpdateOp
    | Idx0SetOp
    | Idx1SetOp

  /** The register an operation stages a value on. */
  function Target(op: Op): nat {
    match op
    case WriteOp(idx, _) => idx
    case WriteLaneOp(idx, _, _) => idx
    case IncOp(idx) => idx
    case TwiddleSetAsPsiOp => TWIDDLE
    case TwiddleInvOp => TWIDDLE
    case TwiddleUpdateOp => TWIDDLE
    case OmegaUpdateOp => OMEGA
    case PsiUpdateOp => PSI
    case MUpdateOp => M
    case J2UpdateOp => J2
    case Idx0SetOp => IDX_0
    case Idx1SetOp => IDX_1
  }

  /** What the caller must guarantee before issuing `op`: the register exists
      and has the operation (lane writes only on wide registers, increments
      only on counters), and the twiddle negation is only issued with the
      twiddle not above the modulus. */
  predicate Allowed(f: PqsprFile, op: Op)
    requires Valid(f)
  {
    match op
    case WriteOp(idx, _) => idx < NUM_REGS
    case WriteLaneOp(idx, _, _) => idx < NUM_REGS && WidthOf(idx) == C.Wide
    case IncOp(idx) => IsCounter(idx)
    case TwiddleInvOp => Cur(f, TWIDDLE) <= Cur(f, Q)
    case _ => true
  }

  /** Issue one operation. */
  function Step(f: PqsprFile, op: Op): (r: Result<PqsprFile>)
    requires Valid(f) && Allowed(f, op)
    ensures Target(op) < NUM_REGS
    ensures r.Ok? ==> Valid(r.value) && StagedAt(f, r.value, Target(op))
  {
    match op
    case WriteOp(idx, v) => Write(f, idx, v)
    case WriteLaneOp(idx, x, lane) => WriteLane(f, idx, x, lane)
    case IncOp(idx) => Inc(f, idx)
    case _ => UnitStep(f, op)
  }

  /** Issue one of the operations of the twiddle and address units, which
      take no operands and update a fixed register. */
  function UnitStep(f: PqsprFile, op: Op): (r: Result<PqsprFile>)
    requires Valid(f) && Allowed(f, op) && !op.WriteOp? && !op.WriteLaneOp? && !op.IncOp?
    ensures Target(op) < NUM_REGS
    ensures r.Ok? ==> Valid(r.value) && StagedAt(f, r.value, Target(op))
  {
    match op
    case TwiddleSetAsPsiOp => TwiddleSetAsPsi(f)
    case TwiddleInvOp => Ok(TwiddleInv(f))
    case TwiddleUpdateOp => TwiddleUpdate(f)
    case OmegaUpdateOp => Ok(OmegaUpdate(f))
    case PsiUpdateOp => PsiUpdate(f)
    case MUpdateOp => Ok(MUpdate(f))
    case J2UpdateOp => Ok(J2Update(f))
    case Idx0SetOp => Ok(Idx0Set(f))
    case Idx1SetOp => Ok(Idx1Set(f))
  }

  /** Two files show the same current value in every register. */
  predicate SameCurrent(f: PqsprFile, g: PqsprFile)
    requires Valid(f) && Valid(g)
  {
    forall i :: 0 <= i < NUM_REGS ==> Cur(f, i) == Cur(g, i)
  }

  /** `op` succeeds or fails alike on `f` and `g`, and stages the same value. */
  predicate StepAgrees(f: PqsprFile, g: PqsprFile, op: Op)
    requires Valid(f) && Valid(g) && Allowed(f, op) && Allowed(g, op)
  {
    && (Step(f, op).Ok? <==> Step(g, op).Ok?)
    && (Step(f, op).Ok? ==> Staged(Step(f, op).value, Target(op)) == Staged(Step(g, op).value, Target(op)))
  }

  /** The operations that only write or count. */
  lemma ReadsCurrentWrites(f: PqsprFile, g: PqsprFile, op: Op)
    requires Valid(f) && Valid(g) && SameCurrent(f, g) && Allowed(f, op)
    requires op.WriteOp? || op.WriteLaneOp? || op.IncOp?
    requires op.WriteLaneOp? ==> op.idx < NUM_REGS && f.regs[op.idx] == g.regs[op.idx]
    ensures Allowed(g, op) && StepAgrees(f, g, op)
  {
    if op.IncOp? {
      assert Cur(f, op.idx) == Cur(g, op.idx);
    }
  }

  /** The twiddle operations. */
  lemma ReadsCurrentTwiddle(f: PqsprFile, g: PqsprFile, op: Op)
    requires Valid(f) && Valid(g) && SameCurrent(f, g) && Allowed(f, op)
    requires op.TwiddleSetAsPsiOp? || op.TwiddleInvOp? || op.TwiddleUpdateOp?
    ensures Allowed(g, op) && StepAgrees(f, g, op)
  {
    assert Cur(f, TWIDDLE) == Cur(g, TWIDDLE) && Cur(f, Q) == Cur(g, Q) && Cur(f, Q_DASH) == Cur(g, Q_DASH);
    assert Cur(f, OMEGA) == Cur(g, OMEGA) && Cur(f, IDX_OMEGA) == Cur(g, IDX_OMEGA);
    assert Cur(f, PSI) == Cur(g, PSI) && Cur(f, IDX_PSI) == Cur(g, IDX_PSI);
  }

  /** The omega and psi operations. */
  lemma ReadsCurrentRoots(f: PqsprFile, g: PqsprFile, op: Op)
    requires Valid(f) && Valid(g) && SameCurrent(f, g) && Allowed(f, op)
    requires op.OmegaUpdateOp? || op.PsiUpdateOp?
    ensures Allowed(g, op) && StepAgrees(f, g, op)
  {
    assert Cur(f, Q) == Cur(g, Q) && Cur(f, Q_DASH) == Cur(g, Q_DASH);
    assert Cur(f, OMEGA) == Cur(g, OMEGA) && Cur(f, IDX_PSI) == Cur(g, IDX_PSI);
  }

  /** The stride operations. */
  lemma ReadsCurrentStrides(f: PqsprFile, g: PqsprFile, op: Op)
    requires Valid(f) && Valid(g) && SameCurrent(f, g) && Allowed(f, op)
    requires op.MUpdateOp? || op.J2UpdateOp?
    ensures Allowed(g, op) && StepAgrees(f, g, op)
  {
    assert Cur(f, M) == Cur(g, M) && Cur(f, J2) == Cur(g, J2) && Cur(f, MODE) == Cur(g, MODE);
  }

  /** The idx_0 operation. */
  lemma ReadsCurrentIdx0(f: PqsprFile, g: PqsprFile, op: Op)
    requires Valid(f) && Valid(g) && SameCurrent(f, g) && op.Idx0SetOp?
    ensures Allowed(g, op) && StepAgrees(f, g, op)
  {
    assert Cur(f, J) == Cur(g, J) && Cur(f, M) == Cur(g, M);
  }

  /** The idx_1 operation. */
  lemma ReadsCurrentIdx1(f: PqsprFile, g: PqsprFile, op: Op)
    requires Valid(f) && Valid(g) && SameCurrent(f, g) && op.Idx1SetOp?
    ensures Allowed(g, op) && StepAgrees(f, g, op)
  {
    assert Cur(f, J) == Cur(g, J) && Cur(f, M) == Cur(g, M);
  }

  /** Simultaneity: an operation sees only current values, and a lane write
      also its own register's merge base, so on two files that agree on
      those it succeeds or fails alike and stages the same value. */
  lemma StepReadsCurrent(f: PqsprFile, g: PqsprFile, op: Op)
    requires Valid(f) && Valid(g) && SameCurrent(f, g) && Allowed(f, op)
    requires op.WriteLaneOp? ==> op.idx < NUM_REGS && f.regs[op.idx] == g.regs[op.idx]
    ensures Allowed(g, op)
    ensures Step(f, op).Ok? <==> Step(g, op).Ok?
    ensures Step(f, op).Ok? ==>
      Staged(Step(f, op).value, Target(op)) == Staged(Step(g, op).value, Target(op))
  {
    if op.WriteOp? || op.WriteLaneOp? || op.IncOp? {
      ReadsCurrentWrites(f, g, op);
    } else if op.TwiddleSetAsPsiOp? || op.TwiddleInvOp? || op.TwiddleUpdateOp? {
      ReadsCurrentTwiddle(f, g, op);
    } else if op.OmegaUpdateOp? || op.PsiUpdateOp? {
      ReadsCurrentRoots(f, g, op);
    } else if op.MUpdateOp? || op.J2UpdateOp? {
      ReadsCurrentStrides(f, g, op);
    } else if op.Idx0SetOp? {
      ReadsCurrentIdx0(f, g, op);
    } else {
      ReadsCurrentIdx1(f, g, op);
    }
  }

  /** A staged file keeps every current value, and every other register whole. */
  lemma StagedKeeps(f: PqsprFile, g: PqsprFile, idx: nat)
    requires Valid(f) && Valid(g) && idx < NUM_REGS && StagedAt(f, g, idx)
    ensures SameCurrent(f, g)
    ensures forall i :: 0 <= i < NUM_REGS && i != idx ==> g.regs[i] == f.regs[i]
  {
    forall i | 0 <= i < NUM_REGS
      ensures Cur(f, i) == Cur(g, i)
    {
    }
  }

  /** Staging on two distinct registers gives the same file in either order. */
  lemma StagesCommute(f: PqsprFile, fa: PqsprFile, fab: PqsprFile, fb: PqsprFile, fba: PqsprFile, a: nat, b: nat)
    requires Valid(f) && Valid(fa) && Valid(fab) && Valid(fb) && Valid(fba)
    requires a < NUM_REGS && b < NUM_REGS && a != b
    requires StagedAt(f, fa, a) && StagedAt(fa, fab, b) && StagedAt(f, fb, b) && StagedAt(fb, fba, a)
    requires Staged(fab, b) == Staged(fb, b) && Staged(fba, a) == Staged(fa, a)
    ensures fab == fba
  {
    assert fab.regs == fba.regs by {
      forall i | 0 <= i < NUM_REGS
        ensures fab.regs[i] == fba.regs[i]
      {
      }
    }
  }

  /** Staging the same value on the same register again changes nothing. */
  lemma StageTwice(f: PqsprFile, g: PqsprFile, h: PqsprFile, idx: nat)
    requires Valid(f) && Valid(g) && Valid(h) && idx < NUM_REGS
    requires StagedAt(f, g, idx) && StagedAt(g, h, idx) && Staged(h, idx) == Staged(g, idx)
    ensures h == g
  {
    assert h.regs == g.regs by {
      forall i | 0 <= i < NUM_REGS
        ensures h.regs[i] == g.regs[i]
      {
      }
    }
  }

  /** Issuing `op` after a step on another register: it is still allowed,
      fails exactly when it fails on the file before, and stages the same value. */
  lemma StepAfterStage(f: PqsprFile, g: PqsprFile, t: nat, op: Op)
    requires Valid(f) && Valid(g) && t < NUM_REGS && StagedAt(f, g, t)
    requires Allowed(f, op) && Target(op) != t
    ensures Allowed(g, op)
    ensures Step(g, op).Ok? <==> Step(f, op).Ok?
    ensures Step(g, op).Ok? ==>
      Valid(Step(g, op).value) && StagedAt(g, Step(g, op).value, Target(op))
      && Staged(Step(g, op).value, Target(op)) == Staged(Step(f, op).value, Target(op))
  {
    StagedKeeps(f, g, t);
    StepReadsCurrent(f, g, op);
  }

  /** Issuing `b` after `a` on another register: `b` is still allowed and
      fails exactly when it fails issued first. */
  lemma StepThenStep(f: PqsprFile, a: Op, b: Op)
    requires Valid(f) && Allowed(f, a) && Allowed(f, b) && Target(a) != Target(b)
    ensures Step(f, a).Ok? ==> Allowed(Step(f, a).value, b)
    ensures Step(f, a).Ok? ==> (Step(Step(f, a).value, b).Ok? <==> Step(f, b).Ok?)
  {
    var ra := Step(f, a);
    if ra.Ok? {
      StepAfterStage(f, ra.value, Target(a), b);
    }
  }

  /** Order independence within a cycle: two operations on distinct
      registers give the same file in either order when both succeed. */
  lemma StepsCommute(f: PqsprFile, a: Op, b: Op)
    requires Valid(f) && Allowed(f, a) && Allowed(f, b) && Target(a) != Target(b)
    requires Step(f, a).Ok? && Step(f, b).Ok?
    ensures Allowed(Step(f, a).value, b) && Allowed(Step(f, b).value, a)
    ensures Step(Step(f, a).value, b).Ok? && Step(Step(f, b).value, a).Ok?
    ensures Step(Step(f, a).value, b) == Step(Step(f, b).value, a)
  {
    var fa, fb := Step(f, a).value, Step(f, b).value;
    StepAfterStage(f, fa, Target(a), b);
    StepAfterStage(f, fb, Target(b), a);
    var fab, fba := Step(fa, b).value, Step(fb, a).value;
    StagesCommute(f, fa, fab, fb, fba, Target(a), Target(b));
  }

  /** Issuing the same operation twice in one cycle is the same as issuing it
      once: its inputs are current values, which the first issue did not
      change, and a repeated lane write writes the same word again. */
  lemma StepRepeat(f: PqsprFile, op: Op)
    requires Valid(f) && Allowed(f, op)
    ensures Step(f, op).Ok? ==> Allowed(Step(f, op).value, op)
    ensures Step(f, op).Ok? ==> Step(Step(f, op).value, op) == Step(f, op)
  {
    var t := Target(op);
    var r := Step(f, op);
    if r.Ok? {
      var g := r.value;
      StagedKeeps(f, g, t);
      if op.WriteLaneOp? {
        SetLaneTwice(Next(f, op.idx), op.lane, op.word);
        assert Allowed(g, op);
      } else {
        StepReadsCurrent(f, g, op);
      }
      StageTwice(f, g, Step(g, op).value, t);
    }
  }

  /** Whether an operation may be issued depends only on current values. */
  lemma AllowedReadsCurrent(f: PqsprFile, g: PqsprFile, op: Op)
    requires Valid(f) && Valid(g) && SameCurrent(f, g)
    ensures Allowed(f, op) == Allowed(g, op)
  {
  }

  /** The registers a sequence of operations stages values on. */
  function Targets(ops: seq<Op>): set<nat> {
    set k | 0 <= k < |ops| :: Target(ops[k])
  }

  /** The targets of a non-empty sequence: its first target and the rest's. */
  lemma TargetsCons(ops: seq<Op>)
    requires |ops| > 0
    ensures Targets(ops) == {Target(ops[0])} + Targets(ops[1..])
  {
    forall t | t in Targets(ops)
      ensures t in {Target(ops[0])} + Targets(ops[1..])
    {
      var k :| 0 <= k < |ops| && Target(ops[k]) == t;
      if k > 0 {
        assert ops[1..][k - 1] == ops[k];
      }
    }
    forall t | t in Targets(ops[1..])
      ensures t in Targets(ops)
    {
      var k :| 0 <= k < |ops| - 1 && Target(ops[1..][k]) == t;
      assert ops[1..][k] == ops[k + 1];
    }
  }

  /** Operations allowed before a step are still allowed after it. */
  lemma AllowedAfterStep(f: PqsprFile, g: PqsprFile, ops: seq<Op>)
    requires Valid(f) && Valid(g) && SameCurrent(f, g)
    requires forall k :: 0 <= k < |ops| ==> Allowed(f, ops[k])
    ensures forall k :: 0 <= k < |ops| ==> Allowed(g, ops[k])
  {
    forall k | 0 <= k < |ops|
      ensures Allowed(g, ops[k])
    {
      AllowedReadsCurrent(f, g, ops[k]);
    }
  }

  /** Issue a sequence of operations in order; the first refusal ends it. */
  function Run(f: PqsprFile, ops: seq<Op>): (r: Result<PqsprFile>)
    requires Valid(f) && forall k :: 0 <= k < |ops| ==> Allowed(f, ops[k])
    ensures r.Ok? ==> Valid(r.value) && SameCurrent(f, r.value) && r.value.namePrefix == f.namePrefix
    ensures r.Ok? ==> r.value.pendingWrites == f.pendingWrites + Targets(ops)
    ensures r.Ok? ==> forall i :: 0 <= i < NUM_REGS && i !in Targets(ops) ==> r.value.regs[i] == f.regs[i]
    ensures r.Ok? ==> forall i :: 0 <= i < NUM_REGS && i in Targets(ops) ==> r.value.regs[i].pending.Some?
    decreases |ops|
  {
    if |ops| == 0 then Ok(f)
    else
      match Step(f, ops[0])
      case Err(e) => Err(e)
      case Ok(g) =>
        StagedKeeps(f, g, Target(ops[0]));
        AllowedAfterStep(f, g, ops[1..]);
        TargetsCons(ops);
        Run(g, ops[1..])
  }

  /** An aborted cycle leaves every current value as it was before the cycle,
      and nothing pending. */
  lemma {:induction false} CycleAborted(f: PqsprFile, ops: seq<Op>)
    requires Valid(f) && forall k :: 0 <= k < |ops| ==> Allowed(f, ops[k])
    requires Run(f, ops).Ok? && Abort(Run(f, ops).value).Ok?
    ensures var g := Abort(Run(f, ops).value).value;
      SameCurrent(f, g) && g.pendingWrites == {}
  {
  }

  /** A committed cycle started from a clean file changes exactly the
      registers it staged values on: every other register keeps its current
      value, and each target shows its last staged value. */
  lemma {:induction false} CycleCommitted(f: PqsprFile, ops: seq<Op>)
    requires Valid(f) && f.pendingWrites == {} && forall k :: 0 <= k < |ops| ==> Allowed(f, ops[k])
    requires Run(f, ops).Ok? && Commit(Run(f, ops).value).Ok?
    ensures var h := Run(f, ops).value; var g := Commit(h).value;
      g.pendingWrites == {}
      && (forall i :: 0 <= i < NUM_REGS && i !in Targets(ops) ==> Cur(g, i) == Cur(f, i))
      && (forall i :: 0 <= i < NUM_REGS && i in Targets(ops) ==> Cur(g, i) == Staged(h, i))
  {
    var h := Run(f, ops).value;
    var g := Commit(h).value;
    forall i | 0 <= i < NUM_REGS && i !in Targets(ops)
      ensures Cur(g, i) == Cur(f, i)
    {
      assert h.regs[i] == f.regs[i];
      assert i !in f.pendingWrites;
    }
  }

  /** Commit and abort empty the pending set, so closing a cycle twice is the
      same as closing it once. */
  lemma CloseIdempotent(f: PqsprFile)
    requires Valid(f)
    ensures Commit(f).Ok? ==> Commit(Commit(f).value) == Commit(f)
    ensures Abort(f).Ok? ==> Abort(Abort(f).value) == Abort(f)
    ensures Commit(f).Ok? ==> Abort(Commit(f).value) == Commit(f)
  {
    if Commit(f).Ok? {
      var g := Commit(f).value;
      assert Commit(g).value.regs == g.regs;
      assert Abort(g).value.regs == g.regs;
    }
    if Abort(f).Ok? {
      var g := Abort(f).value;
      assert Abort(g).value.regs == g.regs;
    }
  }

  /** With nothing pending, commit and abort change nothing. */
  lemma CloseCleanFile(f: PqsprFile)
    requires Valid(f) && f.pendingWrites == {}
    ensures Commit(f) == Ok(f) && Abort(f) == Ok(f)
  {
    assert Commit(f).value.regs == f.regs;
    assert Abort(f).value.regs == f.regs;
  }

  /** Negating the twiddle in two successive cycles restores it. */
  lemma TwiddleInvTwice(f: PqsprFile)
    requires Valid(f) && f.pendingWrites == {} && Cur(f, TWIDDLE) <= Cur(f, Q)
    ensures var g := Commit(TwiddleInv(f)).value;
      Cur(g, TWIDDLE) <= Cur(g, Q) && Cur(Commit(TwiddleInv(g)).value, TWIDDLE) == Cur(f, TWIDDLE)
  {
  }
}
