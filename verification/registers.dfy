/**
 The register-specific update rules of the special-purpose register file.

 Every rule reads only current values (its own and its siblings') and
 stages a pending value on its own register; nothing becomes visible before
 the file's commit. Shifts and masks on the non-negative register values
 are written as divisions and remainders by powers of two.
 */
module PqRegisters {
  import opened Outcomes
  import opened Lanes
  import opened Montgomery
  import opened BitReverse
  import opened RegFile
  import opened Arith
  import C = Cells

  // ---- counters ----

  /** Increment of a counter register. An increment from 2^32 - 1 is refused
      instead of wrapping. */
  function Inc(f: PqsprFile, idx: nat): (r: Result<PqsprFile>)
    requires Valid(f) && IsCounter(idx)
    ensures r.Err? <==> Cur(f, idx) == WORD_LIMIT - 1
    ensures r.Ok? ==> Valid(r.value) && StagedAt(f, r.value, idx)
    ensures r.Ok? ==> Staged(r.value, idx) == Cur(f, idx) + 1
  {
    if Cur(f, idx) < WORD_LIMIT - 1 then Ok(Stage(f, idx, Cur(f, idx) + 1))
    else Err(CounterSaturated)
  }

  // ---- twiddle ----

  /** The twiddle takes the psi lane selected by the psi index counter; an
      index outside 0..7 is refused. */
  function TwiddleSetAsPsi(f: PqsprFile): (r: Result<PqsprFile>)
    requires Valid(f)
    ensures r.Ok? <==> Cur(f, IDX_PSI) < LANES
    ensures r.Ok? ==> Valid(r.value) && StagedAt(f, r.value, TWIDDLE)
    ensures r.Ok? ==> Staged(r.value, TWIDDLE) == (Cur(f, PSI) / LanesLimit(Cur(f, IDX_PSI))) % WORD_LIMIT
  {
    match C.ReadLane(f.regs[PSI], Cur(f, IDX_PSI))
    case Ok(w) => Ok(Stage(f, TWIDDLE, w))
    case Err(e) => Err(e)
  }

  /** Modular negation of the twiddle, `q - twiddle`, with no reduction: the
      twiddle must not exceed the modulus. */
  function TwiddleInv(f: PqsprFile): (g: PqsprFile)
    requires Valid(f) && Cur(f, TWIDDLE) <= Cur(f, Q)
    ensures Valid(g) && StagedAt(f, g, TWIDDLE)
    ensures Staged(g, TWIDDLE) + Cur(f, TWIDDLE) == Cur(f, Q)
  {
    Stage(f, TWIDDLE, Cur(f, Q) - Cur(f, TWIDDLE))
  }

  /** The omega lane selected by the omega index counter. */
  function OmegaWord(f: PqsprFile): nat
    requires Valid(f)
  {
    Lane(Cur(f, OMEGA), Cur(f, IDX_OMEGA))
  }

  /** One Montgomery step: the twiddle is multiplied by the selected omega
      lane. The result is always a 32-bit word; for a Montgomery pair
      (q, q_dash) and reduced operands it is the reduced Montgomery product
      `twiddle * omega * 2^-32 (mod q)`. An omega index outside 0..7 is
      refused. */
  function TwiddleUpdate(f: PqsprFile): (r: Result<PqsprFile>)
    requires Valid(f)
    ensures r.Ok? <==> Cur(f, IDX_OMEGA) < LANES
    ensures r.Ok? ==> Valid(r.value) && StagedAt(f, r.value, TWIDDLE)
    ensures r.Ok? ==> Staged(r.value, TWIDDLE) < WORD_LIMIT
    ensures r.Ok? ==> Staged(r.value, TWIDDLE) == MontMul(Cur(f, TWIDDLE), OmegaWord(f), Cur(f, Q), Cur(f, Q_DASH))
    ensures r.Ok? && MontgomeryPair(Cur(f, Q), Cur(f, Q_DASH))
            && Cur(f, TWIDDLE) < Cur(f, Q) && OmegaWord(f) < Cur(f, Q) ==>
      Staged(r.value, TWIDDLE) < Cur(f, Q)
      && (Staged(r.value, TWIDDLE) * WORD_LIMIT) % Cur(f, Q) == (Cur(f, TWIDDLE) * OmegaWord(f)) % Cur(f, Q)
  {
    if Cur(f, IDX_OMEGA) < LANES then
      var t := MontMul(Cur(f, TWIDDLE), OmegaWord(f), Cur(f, Q), Cur(f, Q_DASH));
      var g := Stage(f, TWIDDLE, t);
      assert MontgomeryPair(Cur(f, Q), Cur(f, Q_DASH))
             && Cur(f, TWIDDLE) < Cur(f, Q) && OmegaWord(f) < Cur(f, Q) ==>
        t < Cur(f, Q) && (t * WORD_LIMIT) % Cur(f, Q) == (Cur(f, TWIDDLE) * OmegaWord(f)) % Cur(f, Q) by {
        if MontgomeryPair(Cur(f, Q), Cur(f, Q_DASH))
           && Cur(f, TWIDDLE) < Cur(f, Q) && OmegaWord(f) < Cur(f, Q) {
          MontMulCorrect(Cur(f, TWIDDLE), OmegaWord(f), Cur(f, Q), Cur(f, Q_DASH));
        }
      }
      Ok(g)
    else Err(LaneOutOfRange)
  }

  // ---- omega ----

  /** Omega is squared as one Montgomery step on its whole current value.
      The result is a 32-bit word, so lanes 1..7 of the pending value are
      zero; for a Montgomery pair and omega below q it is
      `omega^2 * 2^-32 (mod q)`. */
  function OmegaUpdate(f: PqsprFile): (g: PqsprFile)
    requires Valid(f)
    ensures Valid(g) && StagedAt(f, g, OMEGA)
    ensures Staged(g, OMEGA) == MontMul(Cur(f, OMEGA), Cur(f, OMEGA), Cur(f, Q), Cur(f, Q_DASH)) < WORD_LIMIT
    ensures Lane(Staged(g, OMEGA), 0) == Staged(g, OMEGA)
    ensures forall j :: 1 <= j < LANES ==> Lane(Staged(g, OMEGA), j) == 0
    ensures MontgomeryPair(Cur(f, Q), Cur(f, Q_DASH)) && Cur(f, OMEGA) < Cur(f, Q) ==>
      Staged(g, OMEGA) < Cur(f, Q)
      && (Staged(g, OMEGA) * WORD_LIMIT) % Cur(f, Q) == (Cur(f, OMEGA) * Cur(f, OMEGA)) % Cur(f, Q)
  {
    var omega := Cur(f, OMEGA);
    var t := MontMul(omega, omega, Cur(f, Q), Cur(f, Q_DASH));
    assert forall j :: 0 <= j < LANES ==> Lane(t, j) == if j == 0 then t else 0 by {
      forall j | 0 <= j < LANES
        ensures Lane(t, j) == if j == 0 then t else 0
      {
        SmallValueLanes(t, j);
      }
    }
    assert MontgomeryPair(Cur(f, Q), Cur(f, Q_DASH)) && omega < Cur(f, Q) ==>
      t < Cur(f, Q) && (t * WORD_LIMIT) % Cur(f, Q) == (omega * omega) % Cur(f, Q) by {
      if MontgomeryPair(Cur(f, Q), Cur(f, Q_DASH)) && omega < Cur(f, Q) {
        MontMulCorrect(omega, omega, Cur(f, Q), Cur(f, Q_DASH));
      }
    }
    assert t < WIDE_LIMIT by {
      WideLimitValue();
    }
    Stage(f, OMEGA, t)
  }

  // ---- psi ----

  /** The lane writes of lanes `lane`..7, each writing `x` and each merging
      into the pending value left by the previous one. */
  function WriteLanesFrom(c: C.Cell, x: nat, lane: nat): (d: C.Cell)
    requires x < WORD_LIMIT && lane <= LANES && C.WellFormed(c) && c.width == C.Wide
    ensures d.width == c.width && d.current == c.current && C.WellFormed(d)
    ensures lane < LANES ==> d.pending.Some?
    ensures forall j :: 0 <= j < LANES ==>
      Lane(C.MergeBase(d), j) == if j >= lane then x else Lane(C.MergeBase(c), j)
    decreases LANES - lane
  {
    if lane == LANES then c else WriteLanesFrom(C.StageLane(c, lane, x), x, lane + 1)
  }

  /** Psi takes the omega lane selected by the psi index counter in all
      eight lanes (eight lane writes merged into one pending value). The
      result does not depend on what psi held or had pending. A psi index
      outside 0..7 is refused. */
  function PsiUpdate(f: PqsprFile): (r: Result<PqsprFile>)
    requires Valid(f)
    ensures r.Ok? <==> Cur(f, IDX_PSI) < LANES
    ensures r.Ok? ==> Valid(r.value) && StagedAt(f, r.value, PSI)
    ensures r.Ok? ==> forall j :: 0 <= j < LANES ==>
      Lane(Staged(r.value, PSI), j) == Lane(Cur(f, OMEGA), Cur(f, IDX_PSI))
    ensures r.Ok? ==> Staged(r.value, PSI) == Broadcast(Lane(Cur(f, OMEGA), Cur(f, IDX_PSI)))
  {
    match C.ReadLane(f.regs[OMEGA], Cur(f, IDX_PSI))
    case Err(e) => Err(e)
    case Ok(w) =>
      var d := WriteLanesFrom(f.regs[PSI], w, 0);
      var v := d.pending.value;
      assert v == Broadcast(w) by {
        assert forall j :: 0 <= j < LANES ==> Lane(v, j) == w;
        BroadcastCharacterized(v, w);
      }
      Ok(Stage(f, PSI, v))
  }

  // ---- stride registers M and J2 ----

  /** The next M: `(m & 0x7f) << 1` when the mode flag is nonzero,
      `(m & 0xff) >> 1` when it is zero. */
  function MNext(m: nat, mode: nat): (r: nat)
    ensures mode != 0 ==> r <= 0xFE && r % 2 == 0 && r / 2 == m % 128
    ensures mode == 0 ==> r <= 0x7F && 2 * r <= m % 256 <= 2 * r + 1
  {
    if mode != 0 then (m % 128) * 2 else (m % 256) / 2
  }

  /** The next J2: `(j2 & 0x7f) >> 1` when the mode flag is nonzero,
      `(j2 & 0xff) << 1` when it is zero. */
  function J2Next(j2: nat, mode: nat): (r: nat)
    ensures mode != 0 ==> r <= 0x3F && 2 * r <= j2 % 128 <= 2 * r + 1
    ensures mode == 0 ==> r <= 0x1FE && r % 2 == 0 && r / 2 == j2 % 256
  {
    if mode != 0 then (j2 % 128) / 2 else (j2 % 256) * 2
  }

  /** M shifts its own current value in the direction the mode flag selects. */
  function MUpdate(f: PqsprFile): (g: PqsprFile)
    requires Valid(f)
    ensures Valid(g) && StagedAt(f, g, M)
    ensures Staged(g, M) == MNext(Cur(f, M), Cur(f, MODE))
  {
    Stage(f, M, MNext(Cur(f, M), Cur(f, MODE)))
  }

  /** J2 shifts its own current value opposite to M. */
  function J2Update(f: PqsprFile): (g: PqsprFile)
    requires Valid(f)
    ensures Valid(g) && StagedAt(f, g, J2)
    ensures Staged(g, J2) == J2Next(Cur(f, J2), Cur(f, MODE))
  {
    Stage(f, J2, J2Next(Cur(f, J2), Cur(f, MODE)))
  }

  /** For strides below 128, M and J2 are the same shift with the mode flag
      read the other way round. */
  lemma MMirrorsJ2(v: nat, mode: nat)
    requires v < 128
    ensures MNext(v, mode) == J2Next(v, if mode != 0 then 0 else 1)
  {
  }

  /** Halving an even stride below 256 and doubling it again gives it back,
      for M; doubling a stride below 64 and halving it again gives it back,
      for J2. */
  lemma ShiftsUndo(v: nat)
    ensures v < 256 && v % 2 == 0 ==> MNext(MNext(v, 0), 1) == v
    ensures v < 64 ==> J2Next(J2Next(v, 0), 1) == v
  {
  }

  // ---- address counters idx_0 and idx_1 ----

  /** The address counters, whose value splits into a register and a word select. */
  predicate IsAddressCounter(idx: nat) {
    idx == IDX_0 || idx == IDX_1
  }

  /** `value >> 3`: which register the address counter selects. */
  function RegisterSelect(f: PqsprFile, idx: nat): (r: nat)
    requires Valid(f) && IsAddressCounter(idx)
    ensures 8 * r <= Cur(f, idx) < 8 * r + 8
  {
    Cur(f, idx) / 8
  }

  /** `value & 7`: which 32-bit word of that register it selects. */
  function WordSelect(f: PqsprFile, idx: nat): (w: nat)
    requires Valid(f) && IsAddressCounter(idx)
    ensures w < 8 && (Cur(f, idx) - w) % 8 == 0
  {
    Cur(f, idx) % 8
  }

  /** The two selects recompose the counter; a counter below 256 selects one
      of 32 registers. */
  lemma AddressFields(f: PqsprFile, idx: nat)
    requires Valid(f) && IsAddressCounter(idx)
    ensures Cur(f, idx) == 8 * RegisterSelect(f, idx) + WordSelect(f, idx)
    ensures Cur(f, idx) < 256 ==> RegisterSelect(f, idx) < 32
  {
  }

  /** The address idx_0 takes for counter value `j`: the bit-reversed low
      byte of `j`. */
  function Idx0Value(j: nat): (v: nat)
    ensures v < 256 && Rev8(v) == j % 256
  {
    Rev8Involution(j % 256);
    Rev8(j % 256)
  }

  /** The address idx_1 takes for counter value `j` and stride `m`: the
      bit-reversed low byte of `j` plus `m`, modulo 256. Taking `m` back off
      and reversing again gives the low byte of `j`. */
  function Idx1Value(j: nat, m: nat): (v: nat)
    ensures v < 256 && Rev8((v - m) % 256) == j % 256
  {
    StrideOffsetUndone(j % 256, m);
    (Rev8(j % 256) + m) % 256
  }

  /** idx_0 stages the address for the current j. */
  function Idx0Set(f: PqsprFile): (g: PqsprFile)
    requires Valid(f)
    ensures Valid(g) && StagedAt(f, g, IDX_0)
    ensures Staged(g, IDX_0) == Idx0Value(Cur(f, J))
  {
    Stage(f, IDX_0, Idx0Value(Cur(f, J)))
  }

  /** idx_1 stages the address for the current j and m. */
  function Idx1Set(f: PqsprFile): (g: PqsprFile)
    requires Valid(f)
    ensures Valid(g) && StagedAt(f, g, IDX_1)
    ensures Staged(g, IDX_1) == Idx1Value(Cur(f, J), Cur(f, M))
  {
    Stage(f, IDX_1, Idx1Value(Cur(f, J), Cur(f, M)))
  }

  /** Taking the stride back off an idx_1 address and reversing again gives
      the counter byte it came from. */
  lemma StrideOffsetUndone(j: nat, m: nat)
    requires j < 256
    ensures Rev8(j) < 256
    ensures Rev8(((Rev8(j) + m) % 256 - m) % 256) == j
  {
    var b := Rev8(j);
    Rev8Involution(j);
    AddSubByte(b, m);
  }

  /** Adding `m` modulo 256 and subtracting it again modulo 256 restores a byte. */
  lemma AddSubByte(b: nat, m: nat)
    requires b < 256
    ensures ((b + m) % 256 - m) % 256 == b
  {
    var k := (b + m) / 256;
    assert (b + m) % 256 - m == b + 256 * (-k);
    ModAddMultipleOf(b, 256, -k);
  }
}
