/**
 Concrete vectors for the register rules: the values the repository's own
 tests expect, stated on the model.
 */
module Vectors {
  import opened Outcomes
  import opened Lanes
  import opened Montgomery
  import opened BitReverse
  import opened RegFile
  import opened PqRegisters
  import C = Cells

  /** A 256-bit value whose low four lanes are distinct words. */
  const SAMPLE: nat := 0x12345678_9ABCDEF0_FEDCBA98_76543210

  /** The low four lanes of the sample, and an upper lane that is zero. */
  lemma SampleLanes()
    ensures Lane(SAMPLE, 0) == 0x76543210 && Lane(SAMPLE, 1) == 0xFEDCBA98
    ensures Lane(SAMPLE, 2) == 0x9ABCDEF0 && Lane(SAMPLE, 3) == 0x12345678
    ensures Lane(SAMPLE, 6) == 0
  {
    assert Lane(SAMPLE, 1) == Lane(SAMPLE / WORD_LIMIT, 0);
    assert Lane(SAMPLE, 2) == Lane(SAMPLE / WORD_LIMIT / WORD_LIMIT, 0);
    assert Lane(SAMPLE, 3) == Lane(SAMPLE / WORD_LIMIT / WORD_LIMIT / WORD_LIMIT, 0);
    assert SAMPLE / WORD_LIMIT / WORD_LIMIT / WORD_LIMIT / WORD_LIMIT == 0;
    var top := SAMPLE / WORD_LIMIT / WORD_LIMIT / WORD_LIMIT / WORD_LIMIT;
    assert Lane(SAMPLE, 6) == Lane(SAMPLE / WORD_LIMIT, 5);
    assert Lane(SAMPLE / WORD_LIMIT, 5) == Lane(SAMPLE / WORD_LIMIT / WORD_LIMIT, 4);
    assert Lane(SAMPLE / WORD_LIMIT / WORD_LIMIT, 4) == Lane(SAMPLE / WORD_LIMIT / WORD_LIMIT / WORD_LIMIT, 3);
    assert Lane(SAMPLE / WORD_LIMIT / WORD_LIMIT / WORD_LIMIT, 3) == Lane(top, 2);
    assert Lane(top, 2) == Lane(top / WORD_LIMIT / WORD_LIMIT, 0);
  }

  /** A lane-0 write on the sample: the lane shows the new word only after
      the commit. */
  lemma SampleLaneWrites()
    ensures SAMPLE < WIDE_LIMIT
    ensures var c0 := C.Cell(C.Wide, SAMPLE, None);
      var w0 := C.WriteLane(c0, 0xDEADBEEF, 0);
      w0.Ok? && Lane(w0.value.current, 0) == 0x76543210
      && Lane(C.Commit(w0.value).current, 0) == 0xDEADBEEF
  {
    WideLimitValue();
  }

  /** The pair used throughout the tests is a Montgomery pair. */
  lemma TestModulusIsMontgomeryPair()
    ensures MontgomeryPair(0xD01, 0x94570cff)
  {
  }

  /** Twiddle update vectors: twiddle 2 with omega 0x1234, and twiddle
      0x89abcdef with omega 0x01234567. */
  lemma TwiddleUpdateVectors()
    ensures MontMul(0x2, 0x1234, 0xD01, 0x94570cff) == 0x690
    ensures MontMul(0x89abcdef, 0x01234567, 0xD01, 0x94570cff) == 0x9CA02C
  {
  }

  /** Omega squaring vector: omega 0x1234. */
  lemma OmegaUpdateSmall()
    ensures MontMul(0x1234, 0x1234, 0xD01, 0x94570cff) == 0xb09
  {
    assert ReductionWord(0x14b5a90, 0x94570cff) == 0xd93df570;
    assert ReducedSum(0x14b5a90, 0xD01, 0x94570cff) == 0xb0900000000;
  }

  /** Omega squaring vector: omega 0xdeadbeef, a value above q, still gives a
      32-bit result. */
  lemma OmegaUpdateLarge()
    ensures MontMul(0xdeadbeef, 0xdeadbeef, 0xD01, 0x94570cff) == 0xC1B1CC77
  {
    assert 0xdeadbeef * 0xdeadbeef == 0xc1b1cd12216da321;
    assert ReductionWord(0xc1b1cd12216da321, 0x94570cff) == 0xf41209df;
    assert ReducedSum(0xc1b1cd12216da321, 0xD01, 0x94570cff) == 0xc1b1d97800000000;
  }

  /** Psi update vectors: an omega word copied to all eight lanes. */
  lemma PsiUpdateVectors()
    ensures Broadcast(0x55555555) == 0x5555555555555555555555555555555555555555555555555555555555555555
    ensures Broadcast(0x01234567) == 0x01234567_01234567_01234567_01234567_01234567_01234567_01234567_01234567
  {
  }

  /** Stride vectors: M halves with mode 0 and doubles with mode 1; J2 does the opposite. */
  lemma StrideVectors()
    ensures MNext(0xf, 0) == 0x7 && MNext(0x7, 0) == 0x3
    ensures MNext(0x7, 1) == 0xe && MNext(0xe, 1) == 0x1c
    ensures J2Next(0x7, 0) == 0xe && J2Next(0xe, 0) == 0x1c
    ensures J2Next(0x1c, 1) == 0xe && J2Next(0xe, 1) == 0x7
  {
  }

  /** Address vectors: j = 0x333 gives idx_0 = 0xcc, and with m = 0x11 it
      gives idx_1 = 0xdd. */
  lemma AddressVectors()
    ensures Idx0Value(0x333) == 0xcc
    ensures Idx1Value(0x333, 0x11) == 0xdd
  {
    assert 0x333 % 256 == 0x33;
    Rev8Vector();
  }

  /** The string-based reversal of 0x33 is 0xcc. */
  lemma Rev8Vector()
    ensures Rev8(0x33) == 0xcc
  {
    Rev8IsReverseBits(0x33);
    ReversedByteVector();
  }

  /** The arithmetic bit reversal of 0b0011_0011 is 0b1100_1100. */
  lemma ReversedByteVector()
    ensures ReverseBits(0x33, 8) == 0xcc
  {
    assert Pow2(7) == 128 && Pow2(6) == 64 && Pow2(3) == 8 && Pow2(2) == 4;
    assert ReverseBits(0x33, 8) == 128 + 64 + ReverseBits(0xC, 6);
    assert ReverseBits(0xC, 6) == ReverseBits(3, 4);
    assert ReverseBits(3, 4) == 8 + 4 + ReverseBits(0, 2);
  }

  /** On a fresh file, a staged increment of idx_omega is in the pending set,
      is not visible before commit, and is visible after. */
  lemma FreshIncrement()
    ensures var f := Init("p");
      var r := Inc(f, IDX_OMEGA);
      r.Ok? && IDX_OMEGA in r.value.pendingWrites && Cur(r.value, IDX_OMEGA) == 0
      && Commit(r.value).Ok? && Cur(Commit(r.value).value, IDX_OMEGA) == 1
      && Commit(r.value).value.pendingWrites == {}
  {
    var f := Init("p");
    assert PendingInRange(f);
    var g := Inc(f, IDX_OMEGA).value;
    StagedInRange(f, g, IDX_OMEGA);
  }

  /** A counter at 2^32 - 1 refuses to increment. */
  lemma SaturatedIncrement()
    ensures var f := Commit(Write(Init("p"), IDX_PSI, WORD_LIMIT - 1).value).value;
      Inc(f, IDX_PSI).Err?
  {
    var f := Init("p");
    assert PendingInRange(f);
    var g := Write(f, IDX_PSI, WORD_LIMIT - 1).value;
    StagedInRange(f, g, IDX_PSI);
  }

  /** The twiddle-update test's writes on a fresh file: q, q_dash, omega
      and twiddle staged, idx_omega untouched. */
  function ScenarioWrites(): (f: PqsprFile)
    ensures Valid(f) && PendingInRange(f)
    ensures f.regs[Q].pending == Some(0xD01) && f.regs[Q_DASH].pending == Some(0x94570cff)
    ensures f.regs[OMEGA].pending == Some(0x1234) && f.regs[TWIDDLE].pending == Some(2)
    ensures Cur(f, IDX_OMEGA) == 0 && f.regs[IDX_OMEGA].pending.None?
  {
    WideLimitValue();
    var f0 := Init("p");
    assert PendingInRange(f0);
    var f1 := Write(f0, Q, 0xD01).value;
    StagedInRange(f0, f1, Q);
    var f2 := Write(f1, Q_DASH, 0x94570cff).value;
    StagedInRange(f1, f2, Q_DASH);
    var f3 := Write(f2, OMEGA, 0x1234).value;
    StagedInRange(f2, f3, OMEGA);
    var f4 := Write(f3, TWIDDLE, 0x2).value;
    StagedInRange(f3, f4, TWIDDLE);
    f4
  }

  /** The twiddle-update test's starting file: those writes committed. */
  function ScenarioStart(): (f: PqsprFile)
    ensures Valid(f) && f.pendingWrites == {}
    ensures Cur(f, Q) == 0xD01 && Cur(f, Q_DASH) == 0x94570cff
    ensures Cur(f, OMEGA) == 0x1234 && Cur(f, TWIDDLE) == 2 && Cur(f, IDX_OMEGA) == 0
  {
    var f4 := ScenarioWrites();
    var g := Commit(f4).value;
    assert Next(f4, Q) == 0xD01 && Next(f4, Q_DASH) == 0x94570cff;
    assert Next(f4, OMEGA) == 0x1234 && Next(f4, TWIDDLE) == 2 && Next(f4, IDX_OMEGA) == 0;
    g
  }

  /** The twiddle-update scenario on a whole file: from the starting file,
      one twiddle update and the twiddle register's own commit leave 0x690 in it. */
  lemma TwiddleUpdateScenario()
    ensures var f := TwiddleUpdate(ScenarioStart());
      f.Ok? && Cur(CommitReg(f.value, TWIDDLE), TWIDDLE) == 0x690
  {
    var f5 := ScenarioStart();
    assert OmegaWord(f5) == 0x1234;
    TwiddleUpdateVectors();
  }


  /** Twiddle negation vectors: q = 0x55 with twiddle 0x22, and
      q = 0xdeadbeef with twiddle 0x76543210. */
  lemma TwiddleInvVectors(f: PqsprFile)
    requires Valid(f)
    ensures Cur(f, Q) == 0x55 && Cur(f, TWIDDLE) == 0x22 ==> Staged(TwiddleInv(f), TWIDDLE) == 0x33
    ensures Cur(f, Q) == 0xdeadbeef && Cur(f, TWIDDLE) == 0x76543210 ==>
      Staged(TwiddleInv(f), TWIDDLE) == 0x68598CDF
  {
  }

  /** Loading the twiddle from psi lane 1 of the sample gives 0xFEDCBA98. */
  lemma TwiddleSetAsPsiVector(f: PqsprFile)
    requires Valid(f) && Cur(f, PSI) == SAMPLE && Cur(f, IDX_PSI) == 1
    ensures TwiddleSetAsPsi(f).Ok? && Staged(TwiddleSetAsPsi(f).value, TWIDDLE) == 0xFEDCBA98
  {
    SampleLanes();
    LaneIsShiftAndMask(SAMPLE, 1);
  }
}
