# OTBN post-quantum special-purpose register file

A Dafny model of the post-quantum special-purpose register file (PQSPR) of
the OTBN instruction-set simulator, and proofs about it.

The file holds eighteen registers at fixed indices. There are two units:

- TRCU registers: `q`, `q_dash`, `twiddle`, `omega`, `psi`, `idx_omega`,
  `idx_psi`, `const`, `rc`, `idx_rc`.
- RAU registers: `m`, `j2`, `j`, `idx_0`, `idx_1`, `mode`, `x`, `y`.

`omega`, `psi` and `rc` are 256 bits wide. Every other register is 32 bits.

Each register is two-phase: it has a current value and an optional pending
value. Every register operation reads current values and stages a pending
value on its own register. The file records the written index in its
pending-writes set. `commit` makes the pending values current and `abort`
drops them. Both close the cycle for the whole file and empty the set.

The modules:

- `Outcomes`: `Option` and `Result`. A failed assertion or lookup in the
  source becomes an `Err` value.
- `Arith`: small facts about division and remainders.
- `Lanes`: 32-bit lanes of a 256-bit value, lane replacement and
  broadcast.
- `Cells`: the two-phase register. This covers write, commit, abort, lane
  read and lane write. A lane write merges into the pending value when one
  exists.
- `RegFile`: the file.
  - The register layout and `Init`.
  - `mark_written`, `get_reg`, `changes`, `commit` and `abort`.
  - Whole-value and lane writes.
- `Montgomery`: the 32-bit Montgomery step that the twiddle and omega
  registers share, and its correctness.
- `BitReverse`: the string-based 8-bit reversal
  (`int(f"{v:08b}"[::-1], 2)`). It is proved an involution and equal to an
  arithmetic bit reversal.
- `PqRegisters`: the register-specific rules.
  - Counter increment.
  - Twiddle load, negate and Montgomery update.
  - Omega squaring and psi broadcast.
  - The M and J2 shifts.
  - The address counters `idx_0` and `idx_1`.
- `Cycle`: one clock cycle as a sequence of operations. It proves the
  following:
  - Operations on distinct registers commute.
  - Repeating an operation changes nothing.
  - Abort restores every current value.
  - From a clean file, commit changes only the written registers, each to its last staged value.
- `Vectors`: the values the repository's tests expect, on the model.

Shifts and masks on the non-negative register values are written as
division and remainder by powers of two. `v & (2^k - 1)` is `v % 2^k`,
`v >> k` is `v / 2^k`, and `v << k` is `v * 2^k`. The mode flag is read
by truthiness, so any nonzero value counts as set.

## Model

| member | source | states |
|---|---|---|
| RegFile.Init | dv/otbnsim/sim/pqspr.py:184-230 | a new file keeps the given name prefix and holds eighteen registers with the layout's widths, all at 0, with no pending values and an empty pending set |
| RegFile.MarkWritten | dv/otbnsim/sim/pqspr.py:232-235 | the index joins the pending set unchecked, whatever integer it is, and the registers are untouched |
| RegFile.MarkWrittenOutOfRange | dv/otbnsim/sim/pqspr.py:232-261 | marking an index outside 0..17 makes the trace, the commit and the abort all fail |
| RegFile.GetReg | dv/otbnsim/sim/pqspr.py:237-239 | succeeds exactly for indices 0..17 and returns the register at that index, with its layout width |
| RegFile.Changes | dv/otbnsim/sim/pqspr.py:241-249 | fails exactly when a pending index is outside 0..17; otherwise there is one entry per pending index, in strictly ascending index order, each carrying the width 256 and that register's pending value |
| RegFile.RegName | dv/otbnsim/sim/pqspr.py:246 | the name is the prefix followed by two decimal digits from which the index can be read back |
| RegFile.StagedInRange | dv/otbnsim/sim/pqspr.py:232-235 | staging a register keeps the pending set within 0..17 exactly when it was before |
| RegFile.Commit | dv/otbnsim/sim/pqspr.py:251-255 | fails exactly when a pending index names no register; otherwise every register shows its pending value (or keeps its value), nothing stays pending and the set is empty |
| RegFile.Abort | dv/otbnsim/sim/pqspr.py:257-261 | fails exactly when a pending index is outside 0..17; otherwise every current value is kept, nothing stays pending and the set is empty |
| RegFile.CommitReg | dv/otbnsim/sim/pqspr.py:254 | one register's own commit: it takes its pending value, every other register is unchanged, and the file's set and name prefix are untouched |
| RegFile.Write | dv/otbnsim/test/test_pqspr.py:86-87 | succeeds exactly when the value fits the register's width; the value is staged, the index joins the set and nothing else changes |
| RegFile.WriteLane | dv/otbnsim/test/test_pqspr.py:38-54 | succeeds exactly for lanes 0..7 and 32-bit words; the addressed lane of the merge base takes the word and every other lane keeps its value |
| Cells.Write | dv/otbnsim/test/test_pqspr.py:86-90 | a value that fits is staged and the current value stays visible; a value that does not fit is refused |
| Cells.ReadLane | dv/otbnsim/test/test_pqspr.py:31-36 | lane i of the current value is `(v >> 32 i) & 0xFFFFFFFF` for i in 0..7 |
| Cells.WriteLane | dv/otbnsim/test/test_pqspr.py:56-60 | lane 8 and beyond is refused, as is a value that is not a 32-bit word; otherwise the result is the staged lane write |
| Cells.StageLane | dv/otbnsim/test/test_pqspr.py:38-54 | the pending value differs from the merge base in the addressed lane only, which holds the new word; the current value is kept and a wide value stays within 256 bits |
| Cells.WriteThenCommitOrAbort | dv/otbnsim/test/test_pqspr.py:229-235 | after a write, commit shows the new value and abort the old one, and neither leaves a pending value |
| Cells.CommitAbortIdempotent | dv/otbnsim/test/test_pqspr.py:233-235 | commit and abort leave nothing pending, so repeating them changes nothing, and they keep values within the width |
| Cells.LaneWriteThenCommit | dv/otbnsim/test/test_pqspr.py:38-54 | a committed lane write changes the addressed lane and no other |
| Cells.TwoLaneWritesMerge | dv/otbnsim/test/test_pqspr.py:245-275 | two lane writes in one cycle both land at commit; the later one wins on a shared lane and every other lane is kept |
| Lanes.LaneIsShiftAndMask | dv/otbnsim/test/test_pqspr.py:31-36 | the recursive lane is the source's shift-and-mask `(v / 2^(32 i)) % 2^32` |
| Lanes.SetLaneLane | dv/otbnsim/test/test_pqspr.py:38-54 | replacing lane i puts the word in lane i and keeps every other lane |
| Lanes.SetLaneTwice | dv/otbnsim/sim/pqspr.py:106-110 | writing the same word to the same lane twice is writing it once, so a lane write or psi update issued again in the same cycle changes nothing |
| Lanes.LanesDetermineValue | dv/otbnsim/sim/pqspr.py:108-109 | two values below 2^(32 n) with equal lanes 0..n-1 are equal |
| Lanes.BroadcastCharacterized | dv/otbnsim/sim/pqspr.py:106-110 | a 256-bit value has the word in all eight lanes if and only if it is the broadcast of that word |
| Montgomery.Redc | dv/otbnsim/sim/pqspr.py:64-69 | whatever the operands and constants, the reduced value is below 2^32 (the mask, then at most one subtraction of q) |
| Montgomery.ReducedSumDivisible | dv/otbnsim/sim/pqspr.py:65-66 | when `q * q_dash = -1 (mod 2^32)`, the sum `p + m q` is divisible by 2^32 |
| Montgomery.ShiftedSumBound | dv/otbnsim/sim/pqspr.py:64-69 | with operands below q and q at most 2^32, the sum `p + m q` is below `2 q 2^32`, so its shifted value needs at most one subtraction of q |
| Montgomery.MontMulCorrect | dv/otbnsim/sim/pqspr.py:55-72 | for such a pair with q below 2^31 and operands below q, the result is below q and `result * 2^32 = a b (mod q)` |
| BitReverse.ParseFormat | dv/otbnsim/sim/pqspr.py:161 | parsing the n-digit binary rendering of a value below 2^n gives the value back |
| BitReverse.FormatParse | dv/otbnsim/sim/pqspr.py:161 | rendering a parsed binary string at its own length gives the string back |
| BitReverse.Rev8Involution | dv/otbnsim/sim/pqspr.py:161 | the reversed byte is a byte, and reversing twice gives the byte back |
| BitReverse.Rev8IsReverseBits | dv/otbnsim/sim/pqspr.py:161 | the string-based reversal equals the arithmetic reversal of the eight low bits |
| PqRegisters.Inc | dv/otbnsim/sim/pqspr.py:30-34 | refused exactly at 2^32 - 1; otherwise current + 1 is staged, the index joins the set, and the current value is unchanged |
| PqRegisters.TwiddleSetAsPsi | dv/otbnsim/sim/pqspr.py:43-46 | refused exactly when idx_psi is outside 0..7; otherwise the twiddle stages lane idx_psi of psi's current value |
| PqRegisters.TwiddleInv | dv/otbnsim/sim/pqspr.py:48-53 | the staged twiddle plus the current twiddle is q |
| PqRegisters.TwiddleUpdate | dv/otbnsim/sim/pqspr.py:55-72 | refused exactly when idx_omega is outside 0..7; the staged value is a 32-bit word, and for a Montgomery pair with operands below q it is the Montgomery product of twiddle and the selected omega lane |
| PqRegisters.OmegaUpdate | dv/otbnsim/sim/pqspr.py:81-97 | omega stages the Montgomery square of its whole current value, a 32-bit word, so lanes 1..7 are zero; for a Montgomery pair and omega below q it is `omega^2 * 2^-32 (mod q)` |
| PqRegisters.WriteLanesFrom | dv/otbnsim/sim/pqspr.py:108-109 | successive lane writes from lane k to 7 leave the word in those lanes and keep the lanes below k |
| PqRegisters.PsiUpdate | dv/otbnsim/sim/pqspr.py:106-110 | refused exactly when idx_psi is outside 0..7; otherwise every lane of the staged psi is omega's lane idx_psi, whatever psi held before |
| PqRegisters.MNext | dv/otbnsim/sim/pqspr.py:123 | with mode set, the result is even, at most 0xFE, and half of it is the low 7 bits; with mode clear, it is at most 0x7F and is the low byte halved, rounding down |
| PqRegisters.J2Next | dv/otbnsim/sim/pqspr.py:137 | with mode set, it is at most 0x3F and is the low 7 bits halved, rounding down; with mode clear, it is even, at most 0x1FE, and half of it is the low byte |
| PqRegisters.MUpdate | dv/otbnsim/sim/pqspr.py:119-124 | M stages the shift of its current value in the direction the current mode selects |
| PqRegisters.J2Update | dv/otbnsim/sim/pqspr.py:133-138 | J2 stages the shift of its current value in the direction the current mode selects |
| PqRegisters.MMirrorsJ2 | dv/otbnsim/sim/pqspr.py:119-138 | below 128, M's shift is J2's shift with the mode read the other way round |
| PqRegisters.ShiftsUndo | dv/otbnsim/sim/pqspr.py:119-138 | halving then doubling restores an even M below 256; doubling then halving restores a J2 below 64 |
| PqRegisters.RegisterSelect | dv/otbnsim/sim/pqspr.py:145-146 | the register select r satisfies `8 r <= v < 8 r + 8` |
| PqRegisters.WordSelect | dv/otbnsim/sim/pqspr.py:148-149 | the word select is below 8 and congruent to v modulo 8 |
| PqRegisters.AddressFields | dv/otbnsim/sim/pqspr.py:145-149 | `v = 8 (v >> 3) + (v & 7)`, and a counter below 256 selects one of 32 registers |
| PqRegisters.Idx0Value | dv/otbnsim/sim/pqspr.py:159-161 | the idx_0 address is a byte whose bit reversal is the low byte of j |
| PqRegisters.Idx1Value | dv/otbnsim/sim/pqspr.py:174-177 | the idx_1 address is a byte; taking m back off modulo 256 and reversing gives the low byte of j |
| PqRegisters.Idx0Set | dv/otbnsim/sim/pqspr.py:158-164 | idx_0 stages the idx_0 address of j's current value, and no other register changes |
| PqRegisters.Idx1Set | dv/otbnsim/sim/pqspr.py:173-180 | idx_1 stages the idx_1 address of the current j and m, and no other register changes |
| PqRegisters.StrideOffsetUndone | dv/otbnsim/sim/pqspr.py:176-177 | adding m to the reversed byte modulo 256 is undone by subtracting m and reversing again |
| Cycle.Step | dv/otbnsim/test/test_pqspr.py:187-207 | any successful operation stages a value on its target register only, adds the target to the pending set, and keeps every current value |
| Cycle.UnitStep | dv/otbnsim/sim/pqspr.py:43-180 | each operand-free operation of the twiddle and address units stages a value on its fixed register only and keeps every current value |
| Cycle.StepReadsCurrent | dv/otbnsim/sim/pqspr.py:58-61 | two files with the same current values (and, for a lane write, the same target register) give the same success and the same staged value |
| Cycle.StepThenStep | dv/otbnsim/sim/pqspr.py:58-61 | after an operation on one register, an operation on another is still allowed and succeeds exactly when it would have succeeded first |
| Cycle.StepsCommute | dv/otbnsim/sim/pqspr.py:119-124 | two successful operations on distinct registers give the same file in either order |
| Cycle.StepRepeat | dv/otbnsim/sim/pqspr.py:119-124 | issuing a successful operation again before commit gives the same file |
| Cycle.Run | dv/otbnsim/test/test_pqspr.py:82-93 | a cycle of operations keeps every current value, adds exactly its targets to the pending set, leaves every other register whole, and leaves each target with a pending value |
| Cycle.CycleAborted | dv/otbnsim/sim/pqspr.py:257-261 | an aborted cycle leaves every current value as before and nothing pending |
| Cycle.CycleCommitted | dv/otbnsim/sim/pqspr.py:251-255 | a committed cycle on a clean file changes only its targets, each to its last staged value |
| Cycle.CloseIdempotent | dv/otbnsim/sim/pqspr.py:255 | a second commit or abort after a commit, or a second abort, changes nothing |
| Cycle.CloseCleanFile | dv/otbnsim/sim/pqspr.py:251-261 | with nothing pending, commit and abort return the file unchanged |
| Cycle.TwiddleInvTwice | dv/otbnsim/sim/pqspr.py:48-53 | negating the twiddle in two committed cycles restores it |
| Vectors.SampleLanes | dv/otbnsim/test/test_pqspr.py:31-36 | the lanes of the test value are 0x76543210, 0xFEDCBA98, 0x9ABCDEF0 and 0x12345678, and lane 6 is 0 |
| Vectors.SampleLaneWrites | dv/otbnsim/test/test_pqspr.py:38-44 | a lane-0 write of 0xDEADBEEF is invisible before commit and visible after |
| Vectors.TestModulusIsMontgomeryPair | dv/otbnsim/test/test_pqspr.py:133-134 | q = 0xD01 with q_dash = 0x94570cff is a Montgomery pair |
| Vectors.TwiddleUpdateVectors | dv/otbnsim/test/test_pqspr.py:127-157 | the two twiddle updates give 0x690 and 0x9CA02C |
| Vectors.OmegaUpdateSmall | dv/otbnsim/test/test_pqspr.py:210-220 | omega 0x1234 squares to 0xb09 |
| Vectors.OmegaUpdateLarge | dv/otbnsim/test/test_pqspr.py:222-235 | omega 0xdeadbeef squares to 0xC1B1CC77 |
| Vectors.PsiUpdateVectors | dv/otbnsim/test/test_pqspr.py:245-275 | broadcasting 0x55555555 and 0x01234567 gives the expected 256-bit values |
| Vectors.StrideVectors | dv/otbnsim/test/test_pqspr.py:285-346 | the M and J2 sequences 0xf→0x7→0x3, 0x7→0xe→0x1c and 0x1c→0xe→0x7 |
| Vectors.AddressVectors | dv/otbnsim/test/test_pqspr.py:348-388 | the idx_0 address for j = 0x333 is 0xcc, and the idx_1 address with m = 0x11 is 0xdd |
| Vectors.Rev8Vector | dv/otbnsim/test/test_pqspr.py:348-388 | the string-based reversal of 0x33 is 0xcc |
| Vectors.FreshIncrement | dv/otbnsim/test/test_pqspr.py:92-93 | on a new file, an increment of idx_omega is pending, not visible before commit, and visible after |
| Vectors.SaturatedIncrement | dv/otbnsim/test/test_pqspr.py:71-74 | a counter at 2^32 - 1 refuses to increment |
| Vectors.ScenarioWrites | dv/otbnsim/test/test_pqspr.py:132-135 | writing omega, q, q_dash and twiddle on a new file stages those four values, keeps the pending set in range and leaves idx_omega at 0 |
| Vectors.ScenarioStart | dv/otbnsim/test/test_pqspr.py:132-136 | committing those writes makes them current and empties the pending set |
| Vectors.TwiddleUpdateScenario | dv/otbnsim/test/test_pqspr.py:127-141 | from that file, a twiddle update and the twiddle register's own commit leave 0x690 in it |
| Vectors.TwiddleInvVectors | dv/otbnsim/test/test_pqspr.py:159-185 | negation gives 0x33 and 0x68598CDF |
| Vectors.TwiddleSetAsPsiVector | dv/otbnsim/test/test_pqspr.py:114-125 | loading from psi lane 1 of the test value gives 0xFEDCBA98 |

## Left out

- `TracePQSPR.trace` and `rtl_trace` (pqspr.py:7-22) are log-string rendering. `rtl_trace` relies on `Trace.hex_value`, and sim/trace.py is not part of this model. `changes` is modelled as a list of (name, width, pending value) records.
- `peek_unsigned_values` (pqspr.py:263-265) iterates the dictionary's integer keys and calls a register method on them. It is a defect, not behaviour with a contract.
- `wipe` (pqspr.py:267-269) and the unknown-value state it creates rely on `write_invalid` in sim/reg.py. sim/reg.py is not part of this model.
- The base register class lives in sim/reg.py, which is not part of this model. Its two-phase contract is modelled as follows:
  - A write stages a pending value.
  - Commit copies the pending value to current and clears it; abort clears it.
  - Lane i is `(v >> 32 i) & 0xFFFFFFFF`, and lanes outside 0..7 are refused.
  - A lane write merges into the pending value if there is one, otherwise into the current value.
  - `read_next` returns the pending value, absent when none is staged.
  - A whole-value write of a value that does not fit the width is refused.
- RegFile.Commit: with an out-of-range pending index, the source commits the registers its set iteration reaches first and then fails the lookup. The model returns the error without that partial state. For the same reason, abort's partial effect before its range check fails is not modelled either.
- Failed assertions and lookups carry no message; they become `Err` values of the `Error` datatype.
- Python set iteration order in `commit` and `abort` is not modelled. Registers commit independently, so the order is immaterial.
- The call-count tests built on `MagicMock` (test_pqspr.py:99-111) exercise the mock, not the file.
- PqRegisters.TwiddleInv: requires twiddle <= q. Its documentation requires q > twiddle. The source would store the negative integer `q - twiddle` when twiddle > q, which is not a register value.
- The omega update's docstring speaks of squaring "for each byte". The code squares the whole 256-bit current value with one Montgomery step, and the model follows the code.
- The twiddle negation's docstring speaks of a single modulo reduction. The code performs none, and the model follows the code.
- Cycle.Step: an increment is issued only on a counter, since only the counter registers have one. Lane writes are issued only on the 256-bit registers; the register file itself writes lanes only of psi (pqspr.py:108-109), and what a lane write does on a 32-bit register is defined in sim/reg.py, so lane writes on 32-bit registers are not modelled.
- Vectors.TwiddleUpdateScenario: starts from a new file rather than a wiped one, since `wipe` is not modelled.
