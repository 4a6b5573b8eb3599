/**
 The 32-bit Montgomery multiplication step shared by the twiddle and omega
 registers, written as the hardware computes it: one product, one
 reduction word, one 32-bit shift and a single conditional subtraction of
 the modulus.
 */
module Montgomery {
  import opened Lanes
  import opened Arith

  /** The Montgomery reduction word for product `p`:
      `m = ((p & 0xFFFF_FFFF) * q_dash) & 0xFFFF_FFFF`. */
  function ReductionWord(p: nat, qInv: nat): (m: nat)
    ensures m < WORD_LIMIT
  {
    ((p % WORD_LIMIT) * qInv) % WORD_LIMIT
  }

  /** `s = p + m * q`: the product plus the multiple of `q` that clears its low word. */
  function ReducedSum(p: nat, q: nat, qInv: nat): nat {
    p + ReductionWord(p, qInv) * q
  }

  /** Montgomery reduction of `p`: `t = (s >> 32) & 0xFFFF_FFFF`, minus `q`
      once if `t >= q`. Whatever the operands and constants, the result is a
      32-bit word: the mask keeps 32 bits and the conditional subtraction
      cannot go negative. */
  function Redc(p: nat, q: nat, qInv: nat): (r: nat)
    ensures r < WORD_LIMIT
  {
    var t := (ReducedSum(p, q, qInv) / WORD_LIMIT) % WORD_LIMIT;
    if t >= q then t - q else t
  }

  /** Montgomery product of `a` and `b`. */
  function MontMul(a: nat, b: nat, q: nat, qInv: nat): (r: nat)
    ensures r < WORD_LIMIT
  {
    Redc(a * b, q, qInv)
  }

  /** `qInv` is the negated inverse of an odd modulus `q` below 2^31:
      `q * qInv = -1 (mod 2^32)`. */
  predicate MontgomeryPair(q: nat, qInv: nat) {
    0 < q < WORD_LIMIT / 2 && (q * qInv) % WORD_LIMIT == WORD_LIMIT - 1
  }

  /** With `q * qInv = -1 (mod 2^32)` the reduction word clears the low 32
      bits of the sum exactly. */
  lemma ReducedSumDivisible(p: nat, q: nat, qInv: nat)
    requires (q * qInv) % WORD_LIMIT == WORD_LIMIT - 1
    ensures ReducedSum(p, q, qInv) % WORD_LIMIT == 0
  {
    var p0 := p % WORD_LIMIT;
    var m := ReductionWord(p, qInv);
    var s := ReducedSum(p, q, qInv);
    // s = p + m q and p = p0 (mod 2^32)
    ModAddMultipleOf(p0 + m * q, WORD_LIMIT, p / WORD_LIMIT);
    assert s == (p0 + m * q) + WORD_LIMIT * (p / WORD_LIMIT);
    // m q = p0 qInv q (mod 2^32)
    ModMulLeft(p0 * qInv, q, WORD_LIMIT);
    assert (p0 * qInv) * q == p0 * (q * qInv);
    // p0 (q qInv) = p0 (2^32 - 1) (mod 2^32)
    ModMulRight(p0, q * qInv, WORD_LIMIT);
    assert p0 * (WORD_LIMIT - 1) + p0 == WORD_LIMIT * p0;
    ModAddCongruent(p0, m * q, p0 * (WORD_LIMIT - 1), WORD_LIMIT);
    ModAddMultipleOf(0, WORD_LIMIT, p0);
  }

  /** For operands below `q` and a reduction word below 2^32, the shifted
      sum is below `2 q 2^32`, so after the shift one subtraction of `q` suffices. */
  lemma ShiftedSumBound(a: nat, b: nat, q: nat, qInv: nat)
    requires 0 < q <= WORD_LIMIT && a < q && b < q
    ensures ReducedSum(a * b, q, qInv) < 2 * q * WORD_LIMIT
  {
    var k := ReductionWord(a * b, qInv);
    MulStrict(a, b, q);
    MulRight(k, WORD_LIMIT - 1, q);
    MulRight(q, WORD_LIMIT, q);
  }

  /** The Montgomery product the step promises: for a Montgomery pair and
      operands below `q`, the result is below `q` and equals
      `a * b * 2^-32 (mod q)`. */
  lemma MontMulCorrect(a: nat, b: nat, q: nat, qInv: nat)
    requires MontgomeryPair(q, qInv) && a < q && b < q
    ensures MontMul(a, b, q, qInv) < q
    ensures (MontMul(a, b, q, qInv) * WORD_LIMIT) % q == (a * b) % q
  {
    var p := a * b;
    var k := ReductionWord(p, qInv);
    var s := ReducedSum(p, q, qInv);
    ReducedSumDivisible(p, q, qInv);
    var t := s / WORD_LIMIT;
    assert s == WORD_LIMIT * t;
    // t < 2 q <= 2^32, so the mask keeps t whole
    ShiftedSumBound(a, b, q, qInv);
    assert t < 2 * q;
    assert (s / WORD_LIMIT) % WORD_LIMIT == t;
    var r := MontMul(a, b, q, qInv);
    if t >= q {
      assert r == t - q;
      assert r * WORD_LIMIT == p + q * (k - WORD_LIMIT);
      ModAddMultipleOf(p, q, k - WORD_LIMIT);
    } else {
      assert r == t;
      assert r * WORD_LIMIT == p + q * k;
      ModAddMultipleOf(p, q, k);
    }
  }
}
