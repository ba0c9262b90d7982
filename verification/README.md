# Verified models of the K32W board support arithmetic

A Dafny model of the code in the CMSIS headers and the board support file of the smart-lock
firmware whose correctness is arithmetic, a loop over state, or a packed form of something
simpler, with proofs of what that code is for.

`dafny verify dfyconfig.toml` checks everything.

| file | component |
|---|---|
| `CInt.dfy` | C's integer types, conversions and division |
| `Saturation.dfy`, `BitLoops.dfy` | `clip_q63_to_q31`, `__QADD`, `__QSUB`, `__SSAT`; software `__RBIT` and `__CLZ` |
| `Reciprocal.dfy` | `arm_recip_q31`, `arm_recip_q15`: two truncating Newton steps from any table of seeds |
| `PidSpec.dfy`, `PidQ31.dfy`, `PidQ15.dfy` | the velocity-form PID controllers against the positional PID |
| `Clarke.dfy`, `Park.dfy` | the motor control transforms and their inverses |
| `LinearInterp.dfy`, `BilinearInterp.dfy` | table interpolation |
| `Q31Monotonicity.dfy`, `Q31ConstantTables.dfy` | for which tables the Q31 interpolation is monotone |
| `CircularBuffer.dfy` | circular block writes and reads as a delay line |
| `MpuV8.dfy`, `MpuV7.dfy` | loading MPU region tables through the alias window |
| `NvicPriority.dfy`, `NvicBaseline.dfy`, `NvicMainline.dfy`, `PriorityGroup.dfy` | interrupt priorities: two register layouts, one map; priority grouping |
| `CapacitanceTable.dfy`, `Tcxo.dfy`, `TempSensor.dfy` | temperature compensation of the 32 MHz crystal, from the readings to the trims |

C integers are mathematical integers. A variable of a fixed-width type has the subset type of
that name, so every store into one is a proof that nothing overflows; a conversion that the C
code makes on purpose is a function that reduces modulo 2^n. A right shift of a signed value is
the floor quotient, C's `/` the truncating one. Objects that the code updates in place are
classes whose methods are proved equal to a function of the old state; theorems about whole runs
are about those functions.

The hardware assumptions are those of the architecture manuals: for the MPU, section D1.2 of the
Armv8-M Architecture Reference Manual (MPU_RBAR_A<n> addresses the region RNR with its low two
bits replaced by n) and section B3.5.8 of the ARMv7-M Architecture Reference Manual (a store to
RBAR with VALID set selects the region in its REGION field).

## Where the code does not do what it promises

Each of these is a theorem that says exactly when the promise is kept.

- `arm_pid_q31` is documented to saturate its final sum; it wraps. One call gives the documented
  output exactly when that sum fits 32 bits, or both of its terms are at their minima
  (`PidQ31Control.OutputAsDocumented`, with an input in `PidQ31Control.OutputWraps`). A run tracks
  the positional PID exactly when the unbounded output is representable
  (`PidQ31Control.RunTracksExactly`).
- `arm_clarke_q31` is documented to have no risk of overflow, but the product with 2/sqrt(3) wraps
  beyond sqrt(3)/2 of full scale (`Clarke.CastIsExact`), and the sum clips. `Clarke.RoundTrip` says
  for which of all inputs the pair of transforms returns Ib: those with Ib and Ib + Ia/2 within
  sqrt(3)/2 of full scale, to the unit.
- `arm_recip_q31` has a branch for inputs that are not positive, but its result has the sign of the
  reciprocal for positive inputs only (`Reciprocal.RecipQ31Sign`). In that branch `arm_recip_q15`
  wraps a cast exactly when a product reaches 2^29 (`Reciprocal.NewtonQ15NotPositive`,
  `Reciprocal.RecipQ15FirstPass`, with an input in `Reciprocal.RecipQ15Wraps`).
- The two builds of `arm_pid_q15` differ by one unit in a case that `PidQ15Control.BranchesDiffer`
  pins down and `PidQ15Control.BranchesCanDiffer` exhibits.
- `arm_linear_interp_q15` and `_q7` go down by one unit at the origin unless the table has one
  entry or starts at or below zero (`LinearInterp.MonotoneEverywhere`).
- `arm_linear_interp_q31` is not monotone (`LinearInterp.Q31NotMonotone`), though it never goes down
  by more than 2 (`LinearInterp.Q31NearlyMonotone`). From coordinate 0 on it is monotone exactly when
  in no cell the two truncations together grow by more than the exact sum
  (`Q31Monotonicity.MonotoneFromZeroQ31`, and `MonotoneEverywhereQ31` for all coordinates). Cells
  with a multiple of 2^21 between their entries are always monotone, and so are tables in steps of
  2^21 (`GridRises`, `SteepTablesRise`); of the other cells `FallsEarly` gives a family that goes
  down. For constant tables there is a closed form unless the entry is negative and odd
  (`Q31ConstantTables.ConstantTablesMonotone`).
- The range test of `arm_bilinear_interp_q7` compares the column index with the number of rows and
  keeps the reads inside the table for few tables only (`BilinearInterp.AcceptedReadsInside`,
  `BilinearInterp.InteriorAccepted`).
- The circular buffer functions comment "watch out for positive and negative value", but a negative
  increment is not caught (`CircularBuffer.UpdateKeepsRange`).
- The compensation at the factory temperature is not zero for parts measured at 23 degrees, since
  the tables have their zero at 25 (`CapacitanceTable.ZeroAtAteTemp`,
  `CapacitanceTable.BuiltInOffsets`).
- The rounding step of the temperature formula rounds the wrong way below the calibrated supply
  voltage (`TempSensor.RoundedToNearest`) when the bit worth one half is set, as it is in
  `TempSensor.RoundedAway`; `TempSensor.Accuracy` bounds the damage.

## Model

| member | source | states |
|---|---|---|
| `Saturation.ClipQ63ToQ31` | k32w_ble/CMSIS/arm_math.h:523-528 | the comparison of the high word with the sign of the low word is a true clamp of every 64-bit value to Q31 |
| `Saturation.QAdd` | k32w_ble/CMSIS/arm_math.h:871-876 | the saturating sum is the clamped exact sum |
| `Saturation.QSub` | k32w_ble/CMSIS/arm_math.h:882-887 | the saturating difference is the clamped exact difference |
| `Saturation.SSat` | k32w_ble/CMSIS/cmsis_gcc.h:1302-1318 | for widths 1..32 the clamp to that many signed bits, for other widths the value itself |
| `BitLoops.RBit` | k32w_ble/CMSIS/cmsis_gcc.h:984-1005 | the early-exit loop reverses all 32 bits although dead bits travel in the accumulator; the shift count stays in 0..31 |
| `BitLoops.BitOfReversed` | k32w_ble/CMSIS/cmsis_gcc.h:978-984 | bit i of the reversal is bit n-1-i of the word |
| `BitLoops.ReversedTwice` | k32w_ble/CMSIS/cmsis_iccarm.h:502-513 | reversal is its own inverse; the loop of this second version is the same |
| `BitLoops.Clz` | k32w_ble/CMSIS/cmsis_iccarm.h:487-500 | the mask loop terminates and counts 32 minus the bit length, 32 for zero |
| `BitLoops.BitLengthBrackets` | k32w_ble/CMSIS/cmsis_iccarm.h:487-500 | the bit length puts a positive value between two neighbouring powers of two |
| `BitLoops.BitLengthUnique` | k32w_ble/CMSIS/cmsis_iccarm.h:487-500 | and is the only number that does |
| `Reciprocal.Normalised` | k32w_ble/CMSIS/arm_math.h:587-597 | the shift by the leading zeros never overflows and brings a positive input into the upper half of the range |
| `Reciprocal.NewtonError` | k32w_ble/CMSIS/arm_math.h:607-614 | one pass squares the relative error and adds less than 3/h, always on the low side, in exact integers, for either width |
| `Reciprocal.NewtonConverges` | k32w_ble/CMSIS/arm_math.h:607-614 | the same as quadratic convergence of the relative error; the next estimate stays in range |
| `Reciprocal.NewtonQ31Exact` | k32w_ble/CMSIS/arm_math.h:609-613 | for a normalised input no conversion of the Q31 pass changes a value and the clip is never taken |
| `Reciprocal.RecipQ31` | k32w_ble/CMSIS/arm_math.h:576-621 | normalisation, table lookup and loop compute two passes from the seed, with the shift plus one returned; for a positive input and a table whose i-th entry fits the i-th of the 64 intervals, the result is precise to 23 bits |
| `Reciprocal.RecipQ31Accuracy` | k32w_ble/CMSIS/arm_math.h:572-621 | for every positive input and every table of positive seeds, dst * 2^ret approximates 2^62/in from below within the seed's error squared twice plus rounding |
| `Reciprocal.SeedWithin64th` | k32w_ble/CMSIS/arm_math.h:598-603 | a seed within one part in 64 gives a relative error below 2^-23 |
| `Reciprocal.IndexQ31` | k32w_ble/CMSIS/arm_math.h:598-600 | the index of a positive normalised input is the number of its interval, counted by the six bits below the top one |
| `Reciprocal.NegativeSeed` | k32w_ble/CMSIS/arm_math.h:596-603 | the index of a negative one is the same, counted from the most negative number, at both widths |
| `Reciprocal.GoodSeedsPositive` | k32w_ble/CMSIS/arm_math.h:602-603 | entries within one part in 64 of the reciprocals of their intervals are positive |
| `Reciprocal.RecipQ31Precise` | k32w_ble/CMSIS/arm_math.h:572-621 | with such a table, for every positive input, dst * 2^ret falls short of 2^62/in by less than one part in 2^23 |
| `Reciprocal.GoodSeedsExist` | k32w_ble/CMSIS/arm_math.h:602-603 | the truncated reciprocals of the middles of the intervals are such tables, at both widths |
| `Reciprocal.RecipQ31Sign` | k32w_ble/CMSIS/arm_math.h:587-594 | the result has the sign of the reciprocal exactly for positive inputs |
| `Reciprocal.NewtonQ15Exact` | k32w_ble/CMSIS/arm_math.h:659-664 | for a normalised input the unsigned product does not overflow and the 16-bit cast does not wrap |
| `Reciprocal.RecipQ15` | k32w_ble/CMSIS/arm_math.h:627-672 | normalisation, table lookup and loop of the Q15 form compute two passes from the seed; with such a table the result is precise to 12 bits |
| `Reciprocal.RecipQ15Accuracy` | k32w_ble/CMSIS/arm_math.h:624-672 | for every positive input, dst * 2^ret approximates 2^30/in from below with the same error law |
| `Reciprocal.IndexQ15` | k32w_ble/CMSIS/arm_math.h:649-651 | the index of a positive normalised Q15 input is the number of its interval |
| `Reciprocal.RecipQ15Precise` | k32w_ble/CMSIS/arm_math.h:624-672 | with a table that fits its intervals, for every positive input, dst * 2^ret falls short of 2^30/in by less than one part in 2^12 |
| `Reciprocal.NewtonQ15NotPositive` | k32w_ble/CMSIS/arm_math.h:659-664 | for a normalised input that is not positive, a pass from a positive estimate is exact if and only if its product is below 2^29; from there on the cast wraps |
| `Reciprocal.RecipQ15FirstPass` | k32w_ble/CMSIS/arm_math.h:633-664 | the same for the first pass on every such input and table of positive seeds |
| `Reciprocal.RecipQ15Wraps` | k32w_ble/CMSIS/arm_math.h:633-664 | the input -1 and a seed for which it does wrap |
| `PidSpec.PositionalStep` | k32w_ble/CMSIS/arm_math.h:4724-4729 | the velocity increments with the derived gains add up to the positional PID value |
| `PidQ31Control.PidQ31.constructor` | k32w_ble/CMSIS/arm_math.h:4744-4752 | the state array is cleared and the gains are stored |
| `PidQ31Control.PidQ31.Process` | k32w_ble/CMSIS/arm_math.h:4813-4842 | the in-place update is one step of the model, with the wrap-around of both accumulators |
| `PidQ31Control.RunIsUnbounded` | k32w_ble/CMSIS/arm_math.h:4813-4842 | over every run, however often anything wraps, the output is the unbounded velocity sum reduced to 32 bits, which trails the positional value by less than one unit per sample |
| `PidQ31Control.RunTracksPositional` | k32w_ble/CMSIS/arm_math.h:4798-4842 | a run whose final positional value is representable with that margin tracks it from below, whatever happened on the way |
| `PidQ31Control.RunTracksExactly` | k32w_ble/CMSIS/arm_math.h:4798-4842 | a run tracks the positional value if and only if the unbounded output is representable |
| `PidQ31Control.OutputAsDocumented` | k32w_ble/CMSIS/arm_math.h:4805-4833 | one call gives the documented saturated output if and only if the final sum fits 32 bits or both its terms are at their minima |
| `PidQ31Control.OutputWraps` | k32w_ble/CMSIS/arm_math.h:4805-4812 | a concrete input whose output wraps where the documentation says it saturates |
| `PidQ15Control.PidQ15.Process` | k32w_ble/CMSIS/arm_math.h:4879-4900 | the scalar branch is one step of the model; the 64-bit accumulator cannot overflow |
| `PidQ15Control.PidQ15Dsp.Process` | k32w_ble/CMSIS/arm_math.h:4867-4877 | the branch for DSP cores, on packed halves, is one step of its own model |
| `PidQ15Control.DspAccumulatorIs` | k32w_ble/CMSIS/arm_math.h:4873-4877 | with A1 and A2 packed into one word, the DSP accumulator is the scalar one plus 1 exactly when A0 and the input are both negative |
| `PidQ15Control.BranchesDiffer` | k32w_ble/CMSIS/arm_math.h:4867-4891 | from the same state the outputs of the two branches differ by at most one, and exactly when they do |
| `PidQ15Control.BranchesCanDiffer` | k32w_ble/CMSIS/arm_math.h:4867-4891 | a state and an input for which the outputs of the branches differ |
| `PidQ15Control.RunConserves` | k32w_ble/CMSIS/arm_math.h:4860-4900 | over every run of either branch the positional value is the output, plus everything saturation cut off, plus less than one unit of truncation per sample |
| `PidQ15Control.RunTracksPositional` | k32w_ble/CMSIS/arm_math.h:4845-4900 | while the positional value stays representable nothing is clipped and the output tracks it |
| `Clarke.CastIsExact` | k32w_ble/CMSIS/arm_math.h:5012-5013 | the cast of the product with 2/sqrt(3) is exact if and only if the input is within sqrt(3)/2 of full scale |
| `Clarke.Constants` | k32w_ble/CMSIS/arm_math.h:5009-5013 | the hex constants are the documented 1/sqrt(3), 2/sqrt(3) and sqrt(3)/2 to the last place |
| `Clarke.ForwardAccuracy` | k32w_ble/CMSIS/arm_math.h:4998-5017 | while the cast is exact, beta is the documented combination of Ia and Ib, saturated, less than two units low |
| `Clarke.InverseAccuracy` | k32w_ble/CMSIS/arm_math.h:5095-5114 | for all inputs the inverse returns Ia exactly and the documented combination for Ib, saturated, within less than one unit |
| `Clarke.RoundTrip` | k32w_ble/CMSIS/arm_math.h:4998-5114 | for all inputs Ia comes back exactly, and Ib within -3..1 if and only if Ib and Ib + Ia/2 are within sqrt(3)/2 of full scale, to the unit |
| `Park.ProductExact` | k32w_ble/CMSIS/arm_math.h:5219-5231 | the product's cast wraps only for -1.0 * -1.0 |
| `Park.ForwardAccuracy` | k32w_ble/CMSIS/arm_math.h:5209-5238 | unless a product is -1.0 * -1.0, d and q are alpha cos + beta sin and beta cos - alpha sin, saturated, within less than two units and one unit |
| `Park.InverseAccuracy` | k32w_ble/CMSIS/arm_math.h:5322-5351 | unless a product is -1.0 * -1.0, alpha and beta are d cos - q sin and q cos + d sin, saturated, within less than one unit and two units |
| `Park.RoundTrip` | k32w_ble/CMSIS/arm_math.h:5209-5351 | rotation and inverse return both coordinates scaled by sin^2 + cos^2 within less than 4 and 5 units, also when the inverse saturates for a pair within the unit circle |
| `LinearInterp.CellBounds` | k32w_ble/CMSIS/arm_math.h:5567-5572 | an interpolated value lies between its neighbours, or one below the smaller when both are positive |
| `LinearInterp.CellNearExact` | k32w_ble/CMSIS/arm_math.h:5560-5572 | it is less than two below and less than one above the exact linear interpolation |
| `LinearInterp.InterpQ15Is` | k32w_ble/CMSIS/arm_math.h:5532-5574 | the Q15 function is the common interpolation, all reads in range and no cast changing a value |
| `LinearInterp.InterpQ7Is` | k32w_ble/CMSIS/arm_math.h:5589-5631 | the Q7 function, with its unsigned index and 32-bit accumulator, is the same interpolation |
| `LinearInterp.InterpFloor` | k32w_ble/CMSIS/arm_math.h:5558-5572 | inside the table that is the floor of the sum of the two entries around the coordinate, weighted by its own fraction |
| `LinearInterp.InterpQ15Accuracy` | k32w_ble/CMSIS/arm_math.h:5532-5574 | inside the table the Q15 result is less than two below and less than one above the exact linear interpolation at the coordinate |
| `LinearInterp.InterpQ7Accuracy` | k32w_ble/CMSIS/arm_math.h:5589-5631 | inside the table the Q7 result is less than two below and less than one above the exact linear interpolation at the coordinate |
| `LinearInterp.InterpClamps` | k32w_ble/CMSIS/arm_math.h:5474-5631 | below zero and from the last node on all three widths return the entry at that end |
| `LinearInterp.MonotoneFromZero` | k32w_ble/CMSIS/arm_math.h:5532-5631 | for nondecreasing tables the result is nondecreasing over all coordinates from 0 on, across cells and into the clamped top |
| `LinearInterp.MonotoneEverywhere` | k32w_ble/CMSIS/arm_math.h:5547-5556 | over all coordinates if and only if the table has one entry or starts at or below zero |
| `LinearInterp.CellQ31Fits` | k32w_ble/CMSIS/arm_math.h:5499-5515 | no step of the Q31 form overflows, for any table and fraction |
| `LinearInterp.CellQ31Accuracy` | k32w_ble/CMSIS/arm_math.h:5507-5515 | its truncations and the final doubling lose less than 4 units, only downwards |
| `LinearInterp.InterpQ31Accuracy` | k32w_ble/CMSIS/arm_math.h:5474-5516 | inside the table the Q31 result is less than 4 units below the weighted sum of the two entries around the coordinate |
| `LinearInterp.Q31NotMonotone` | k32w_ble/CMSIS/arm_math.h:5474-5516 | a constant table on which the Q31 form goes down; the conditions are in the `Q31Monotonicity` rows |
| `LinearInterp.Q31NearlyMonotone` | k32w_ble/CMSIS/arm_math.h:5474-5516 | for nondecreasing tables it never goes down by more than 2 |
| `Q31Monotonicity.StepExactly` | k32w_ble/CMSIS/arm_math.h:5499-5515 | from one fraction to the next the Q31 result does not go down if and only if the two truncations together grow by at most the growth of the exact sum |
| `Q31Monotonicity.MonotoneFromZeroQ31` | k32w_ble/CMSIS/arm_math.h:5474-5516 | a nondecreasing table is monotone from coordinate 0 on, nodes and clamped top included, if and only if every cell in reach never goes down in that sense |
| `Q31Monotonicity.MonotoneEverywhereQ31` | k32w_ble/CMSIS/arm_math.h:5474-5516 | over all coordinates if and only if besides the first entry is even and not positive, or the only one |
| `Q31Monotonicity.GridRises` | k32w_ble/CMSIS/arm_math.h:5499-5515 | a cell with a multiple of 2^21 between its entries never goes down |
| `Q31Monotonicity.SteepTablesRise` | k32w_ble/CMSIS/arm_math.h:5499-5515 | so tables whose entries are at least 2^21 apart are monotone |
| `Q31Monotonicity.FallsEarly` | k32w_ble/CMSIS/arm_math.h:5499-5515 | a cell without such a multiple goes down if the first product loses a unit before the second can gain one |
| `Q31ConstantTables.ConstantExactly` | k32w_ble/CMSIS/arm_math.h:5499-5515 | a cell between equal entries never goes down if and only if the remainder of the second product never exceeds that of the first at its start |
| `Q31ConstantTables.ConstantTablesMonotone` | k32w_ble/CMSIS/arm_math.h:5474-5516 | a constant table whose entry is even or not negative is monotone if and only if the entry is 0, 1, positive and even with an odd factor of at most 2^11, or a negative multiple of 2^21 |
| `Q31ConstantTables.NegativeOddTables` | k32w_ble/CMSIS/arm_math.h:5499-5515 | of the negative odd entries, those within 2^11 of -2^31 rise and those from -1048064 on do not |
| `BilinearInterp.TwoStepInterpolation` | k32w_ble/CMSIS/arm_math.h:6999-7014 | the four-product accumulator is interpolation in x and then in y, and equally in y and then in x |
| `BilinearInterp.AccumulatorBounds` | k32w_ble/CMSIS/arm_math.h:6999-7017 | the result lies between the smallest and largest corner, or one below when all are positive |
| `BilinearInterp.InterpIsTwoStep` | k32w_ble/CMSIS/arm_math.h:6954-7018 | at accepted interior points the result interpolates between the four surrounding entries of the two-dimensional table |
| `BilinearInterp.RejectedIsZero` | k32w_ble/CMSIS/arm_math.h:6977-6982 | wherever the range test rejects a point the result is zero |
| `BilinearInterp.InteriorReadsInside` | k32w_ble/CMSIS/arm_math.h:6987-6997 | at interior points all four reads are inside a full table |
| `BilinearInterp.AcceptedReadsInside` | k32w_ble/CMSIS/arm_math.h:6977-6997 | for every size of a full table, the range test keeps the reads inside if and only if the table is empty or Reached(numRows) + numCols * Reached(numCols) < numRows * numCols, where Reached caps at the 2^11 indices a coordinate can express |
| `BilinearInterp.InteriorAccepted` | k32w_ble/CMSIS/arm_math.h:6977-6982 | for every size, it accepts every interior point if and only if there is none or the table is nearly square, as far as coordinates reach |
| `CircularBuffer.CircularWrite` | k32w_ble/CMSIS/arm_math.h:5889-5927 | the loop stores the gathered source samples one by one at the wrapped offsets and returns the 16-bit offset |
| `CircularBuffer.CircularRead` | k32w_ble/CMSIS/arm_math.h:5933-5983 | the loop copies the samples at the wrapped offsets to the wrapped destination places |
| `CircularBuffer.UpdateKeepsRange` | k32w_ble/CMSIS/arm_math.h:5917-5920 | one update keeps every offset inside the buffer if and only if the increment is in 0..L |
| `CircularBuffer.OffsetVariableFits` | k32w_ble/CMSIS/arm_math.h:5926 | the 16-bit offset variable carries every offset if and only if L is at most 2^16 |
| `CircularBuffer.OffsetIsModulo` | k32w_ble/CMSIS/arm_math.h:5917-5920 | repeated single subtraction is reduction modulo L |
| `CircularBuffer.DstIndexIsModulo` | k32w_ble/CMSIS/arm_math.h:5960-5966 | the destination pointer, reset when it equals the end, cycles through its slots |
| `CircularBuffer.BlockShiftsHistory` | k32w_ble/CMSIS/arm_math.h:5889-5927 | a block of any size pushes as many old samples out as it has new ones |
| `CircularBuffer.DelayLine` | k32w_ble/CMSIS/arm_math.h:5889-5927 | over any run of block writes the buffer holds the last L samples of its first contents followed by the stream |
| `CircularBuffer.DelayLineFull` | k32w_ble/CMSIS/arm_math.h:5889-5927 | once the stream has L samples, the last L samples of the stream |
| `CircularBuffer.HistoryAt` | k32w_ble/CMSIS/arm_math.h:5969-5975 | stepping from the write offset visits those samples in order |
| `CircularBuffer.WrittenAt` | k32w_ble/CMSIS/arm_math.h:5907-5919 | samples written to distinct offsets, under any increment, are all still there |
| `CircularBuffer.PlacedAt` | k32w_ble/CMSIS/arm_math.h:5956-5979 | samples read to distinct places are all still there |
| `CircularBuffer.ReadReturnsDelayLine` | k32w_ble/CMSIS/arm_math.h:5889-5983 | a read from the write offset after any run returns the delay line in order, also when the destination wraps |
| `CircularBuffer.ReadReturnsWritten` | k32w_ble/CMSIS/arm_math.h:5889-5983 | a read of up to L samples from where a write started returns what was written, also when the destination wraps |
| `CircularBuffer.PlacedElsewhere` | k32w_ble/CMSIS/arm_math.h:5956-5979 | a read changes no other place of the destination |
| `MpuV8.WindowContiguous` | k32w_ble/CMSIS/core_armv8mml.h:1542-1563 | from an aligned RNR the alias window is a contiguous stretch of region registers, and its first pair always is |
| `MpuV8.AddressedIs` | k32w_ble/CMSIS/core_armv8mml.h:1542-1563 | alias pair n > 0 addresses the region number with its low two bits replaced by n |
| `MpuV8.WindowBaseIsRemainder` | k32w_ble/CMSIS/mpu_armv8.h:292-293 | base and offset divide the region number as mask and remainder do |
| `MpuV8.Mpu.SetRegionEx` | k32w_ble/CMSIS/mpu_armv8.h:236-241 | sets the two registers of one region |
| `MpuV8.Mpu.OrderedCpy` | k32w_ble/CMSIS/mpu_armv8.h:270-277 | copies words into consecutive registers through the window |
| `MpuV8.Mpu.LoadEx` | k32w_ble/CMSIS/mpu_armv8.h:285-308 | the chunked load terminates and leaves the same registers as one `SetRegionEx` per entry, and RNR at the last window |
| `MpuV8.OneByOneStores` | k32w_ble/CMSIS/mpu_armv8.h:285-308 | configuring regions one by one stores the table words in a row |
| `MpuV8.RegionsAfterLoad` | k32w_ble/CMSIS/mpu_armv8.h:279-308 | after a load exactly the cnt regions from rnr on hold the table entries and every other region is unchanged |
| `MpuV7.Mpu.constructor` | k32w_ble/CMSIS/core_cm4.h:1235 | any window width from one pair on is admitted |
| `MpuV7.Fields` | k32w_ble/CMSIS/mpu_armv7.h:75-78 | address, VALID bit and region number lie side by side in an RBAR value |
| `MpuV7.Mpu.SetRegion` | k32w_ble/CMSIS/mpu_armv7.h:150-154 | one RBAR and one RASR store, following the VALID rule |
| `MpuV7.Mpu.OrderedCpy` | k32w_ble/CMSIS/mpu_armv7.h:173-180 | copies table words through the alias registers |
| `MpuV7.Mpu.Load` | k32w_ble/CMSIS/mpu_armv7.h:186-195 | for every alias width the chunked load terminates and equals `SetRegion` for the entries in order |
| `MpuV7.OneByOneStores` | k32w_ble/CMSIS/mpu_armv7.h:186-195 | configuring regions one by one stores the table words in a row |
| `MpuV7.LastEntryWins` | k32w_ble/CMSIS/mpu_armv7.h:182-195 | after a load every region holds the last entry that configures it, and the others are unchanged |
| `MpuV7.TargetOfValid` | k32w_ble/CMSIS/mpu_armv7.h:70-78 | an entry with VALID configures the region it names |
| `MpuV7.TargetOfInvalid` | k32w_ble/CMSIS/mpu_armv7.h:150-154 | an entry without VALID, whatever its other bits, configures the region of its predecessor |
| `MpuV7.RbarValueFields` | k32w_ble/CMSIS/mpu_armv7.h:75-78 | the macro's value is VALID, names its region and carries the aligned base address |
| `NvicPriority.FieldRoundTrip` | k32w_ble/CMSIS/core_armv8mml.h:2379 | the left-aligned field gives back the priority modulo 2^PRIO_BITS |
| `NvicPriority.ImplementedIsRemainder` | k32w_ble/CMSIS/core_armv8mml.h:2379 | the implemented priority is the remainder modulo 2^PRIO_BITS, for each number of bits |
| `NvicPriority.FieldLeftAligned` | k32w_ble/CMSIS/core_armv8mml.h:2379 | and stands left-aligned in its byte |
| `NvicPriority.LastCommandWins` | k32w_ble/CMSIS/core_armv8mbl.h:1477-1489 | after any run of calls the map gives an interrupt the priority last set for it |
| `NvicBaseline.Nvic.SetPriority` | k32w_ble/CMSIS/core_armv8mbl.h:1477-1489 | the read-modify-write of a word is one step of the register model |
| `NvicBaseline.Nvic.GetPriority` | k32w_ble/CMSIS/core_armv8mbl.h:1501-1512 | reads the field of the register model and changes nothing |
| `NvicBaseline.InsertExtract` | k32w_ble/CMSIS/core_armv8mbl.h:1481-1482 | the byte inserted is extracted again, and the other three bytes of the word are kept |
| `NvicBaseline.ExtractIsByte` | k32w_ble/CMSIS/core_armv8mbl.h:1271 | the field of an interrupt is the byte of the word that its low two bits count, in little-endian order |
| `NvicBaseline.SameField` | k32w_ble/CMSIS/core_armv8mbl.h:1271-1273 | word index and shift together identify the interrupt or handler |
| `NvicBaseline.GetAfterSet` | k32w_ble/CMSIS/core_armv8mbl.h:1477-1512 | set is seen by that interrupt alone, as the priority modulo 2^PRIO_BITS |
| `NvicBaseline.RunRefines` | k32w_ble/CMSIS/core_armv8mbl.h:1477-1512 | every run of calls acts on the packed words as it acts on the map |
| `NvicMainline.Nvic.SetPriority` | k32w_ble/CMSIS/core_armv8mml.h:2375-2385 | the byte store is one step of the register model |
| `NvicMainline.Nvic.GetPriority` | k32w_ble/CMSIS/core_armv8mml.h:2397-2408 | reads the byte of the register model and changes nothing |
| `NvicMainline.ByteRoundTrip` | k32w_ble/CMSIS/core_armv8mml.h:2379-2402 | the stored byte gives back the priority modulo 2^PRIO_BITS |
| `NvicMainline.GetAfterSet` | k32w_ble/CMSIS/core_armv8mml.h:2375-2408 | set is seen by that interrupt alone |
| `NvicMainline.RunRefines` | k32w_ble/CMSIS/core_armv8mml.h:2375-2408 | every run of calls acts on the bytes as it acts on the map |
| `NvicMainline.LayoutsAgree` | k32w_ble/CMSIS/core_armv8mml.h:2375-2408 | after any run of the same calls the two layouts give the same priorities |
| `NvicMainline.SetByte` | k32w_ble/CMSIS/core_armv8mbl.h:1477-1489 | a set writes the left-aligned priority to byte irq % 4 of word irq / 4, for handlers of word (irq + 8) / 4, which is the Mainline byte irq or irq + 12, and leaves every other byte alone |
| `NvicMainline.RunsWriteSameMemory` | k32w_ble/CMSIS/core_armv8mml.h:2375-2385 | after any run of the same calls the words of the one layout hold the bytes of the other, in memory order |
| `PriorityGroup.SubBits` | k32w_ble/CMSIS/core_armv8mml.h:2428-2429 | preemption and subpriority bits add up to the implemented ones, the wrapping difference included |
| `PriorityGroup.EncodeIs` | k32w_ble/CMSIS/core_armv8mml.h:2422-2435 | the code is the pair in mixed radix and fits the implemented bits |
| `PriorityGroup.DecodeIs` | k32w_ble/CMSIS/core_armv8mml.h:2449-2460 | the decoded pair is quotient and remainder |
| `PriorityGroup.DecodeEncode` | k32w_ble/CMSIS/core_armv8mml.h:2422-2460 | decoding an encoded pair returns it, as far as the group has room |
| `PriorityGroup.EncodeDecode` | k32w_ble/CMSIS/core_armv8mml.h:2422-2460 | encoding a decoded priority returns its implemented bits |
| `PriorityGroup.BinaryPoint` | k32w_ble/CMSIS/core_armv8mml.h:2422-2460 | in the byte in which a priority stands left-aligned, the bits above the group's binary point are the preemption priority and the others the subpriority, up to unimplemented bits |
| `PriorityGroup.OrderIsLexicographic` | k32w_ble/CMSIS/core_armv8mml.h:2449-2460 | the numeric order of priorities is the lexicographic order of the decoded pairs |
| `CapacitanceTable.FitsInside` | k32w_ble/board/board_utility.c:517-555 | at -40..130 degrees no step overflows for entries up to 40 million |
| `CapacitanceTable.TameFits` | k32w_ble/board/board_utility.c:517-555 | small tables never overflow at any temperature 32 bits of 128ths can express |
| `CapacitanceTable.BetweenNeighbours` | k32w_ble/board/board_utility.c:525-554 | inside the table the value lies between the two neighbouring entries |
| `CapacitanceTable.NearExact` | k32w_ble/board/board_utility.c:548-554 | it differs from the exact linear interpolation by at most 4/5 per degree from the node, towards the entry at the node |
| `CapacitanceTable.ExactAtNodes` | k32w_ble/board/board_utility.c:525-554 | every entry but the last is met exactly, the last one if and only if the last difference is a multiple of 5 |
| `CapacitanceTable.OutsideTable` | k32w_ble/board/board_utility.c:529-554 | below and above the table the first and the last cell are extended |
| `CapacitanceTable.Lipschitz` | k32w_ble/board/board_utility.c:525-554 | the value moves by at most 130 per degree, across cells too |
| `CapacitanceTable.AteTemp` | k32w_ble/board/board_utility.c:732-754 | every flash word gives a temperature in -256..255 |
| `CapacitanceTable.AteTempDecodes` | k32w_ble/board/board_utility.c:737-751 | a valid word is decoded to the whole degrees it holds, sign included and higher bits ignored; an invalid one to 23 |
| `CapacitanceTable.TameCompensationFits` | k32w_ble/board/board_utility.c:557-579 | with small tables no step of the compensation overflows at any temperature |
| `CapacitanceTable.CompensationDiffers` | k32w_ble/board/board_utility.c:557-579 | for every part compensations at two temperatures differ exactly as the table does |
| `CapacitanceTable.ZeroAtAteTemp` | k32w_ble/board/board_utility.c:557-579 | for every table that does not overflow there, the compensation at the factory temperature is zero if and only if that is not 23 degrees or the table is zero at 23 |
| `CapacitanceTable.BuiltInOffsets` | k32w_ble/board/board_utility.c:660-676 | both tables meet the conditions, are zero at 25 degrees, and leave 65 and 62 at 23 degrees |
| `Tcxo.Tcxo32M.constructor` | k32w_ble/board/board_utility.c:450 | no temperature is remembered and no trim has been applied |
| `Tcxo.Tcxo32M.CompensationRun` | k32w_ble/board/board_utility.c:448-480 | one run is one step of the hysteresis model; the unsigned comparison is exact |
| `Tcxo.CloseAfterCall` | k32w_ble/board/board_utility.c:456-471 | after a measured call of any run the temperature is closer than the threshold to the remembered one if and only if the threshold is positive |
| `Tcxo.CloseInRaw` | k32w_ble/board/board_utility.c:456-471 | after a measured call the reading itself, in 128ths of a degree, is closer than the threshold to the remembered temperature |
| `Tcxo.MeasuredExactly` | k32w_ble/board/board_utility.c:456-458 | exactly the readings that truncate to -273 degrees count as never monitored |
| `Tcxo.UnmeasuredCall` | k32w_ble/board/board_utility.c:458-476 | a call before any measurement trims for 25 degrees if the threshold is zero and does nothing otherwise |
| `Tcxo.LastTrimIsForPrev` | k32w_ble/board/board_utility.c:468-476 | after any run the last trim applied is the one for the remembered temperature |
| `Tcxo.TrimError` | k32w_ble/board/board_utility.c:448-579 | after a measured call with threshold t the trim in force is within 130 * (t - 1) of the trim for the temperature itself |
| `Tcxo.TrimsArePaidFor` | k32w_ble/board/board_utility.c:448-480 | over any run the thresholds of the calls that trimmed never exceed the distance the temperature travelled |
| `Tcxo.NumberOfTrims` | k32w_ble/board/board_utility.c:448-480 | under thresholds of at least t, the number of trims times t is at most that distance |
| `Tcxo.TravelledIs` | k32w_ble/board/board_utility.c:448-480 | for measured temperatures it is the way up from absolute zero plus the sum of the differences |
| `Tcxo.RawTrimsArePaidFor` | k32w_ble/board/board_utility.c:448-480 | in 128ths of a degree, from any state, every trim is paid for by a movement of the readings by at least 128 * t - 127 |
| `Tcxo.NumberOfTrimsRaw` | k32w_ble/board/board_utility.c:448-480 | so the number of trims times 128 * t - 127 is at most the distance the readings have moved from absolute zero |
| `Tcxo.PowerOnAndRun` | k32w_ble/board/board.c:1524 | after the call at power-on, the trims are paid for by movement away from 25 degrees |
| `Tcxo.OneTrimPerBand` | k32w_ble/board/board_utility.c:456-471 | inside a band narrower than every threshold there is at most one trim |
| `TempSensor.ComputeEstimatedSum` | k32w_ble/board/board_utility.c:207-228 | the 16-bit sum is the total modulo 2^16, and exact for up to 16 samples |
| `TempSensor.GetTemperature` | k32w_ble/board/board_utility.c:300-371 | the driver's two sums of eight go into the formula without overflow |
| `TempSensor.Coef4Bound` | k32w_ble/board/board_utility.c:278 | the largest product of the linear fit stays below 2^31 |
| `TempSensor.AtReference` | k32w_ble/board/board_utility.c:242-296 | at the reference sensor sum the linear fit is Tref at every supply voltage, and at the calibration point the result is Tref |
| `TempSensor.EveryShiftIsFloor` | k32w_ble/board/board_utility.c:230-283 | each stage of the computation is the floor of the stage before it, scaled as documented |
| `TempSensor.RoundedToNearest` | k32w_ble/board/board_utility.c:256-272 | coefficient 2 is rounded to nearest if and only if its half bit is clear or the supply is not below its calibration value; otherwise it ends 12 to 15 eighths too low |
| `TempSensor.RoundedAway` | k32w_ble/board/board_utility.c:256-272 | a supply sum for which it is not |
| `TempSensor.LinearAccuracy` | k32w_ble/board/board_utility.c:246-281 | the linear fit is within 7/128 of a degree of the documented real formula |
| `TempSensor.NlfitAccuracy` | k32w_ble/board/board_utility.c:230-240 | the quadratic correction of a fit, whole degrees and shifts included, is within 15/128 of a degree of the documented real formula at the temperature that the fit approximates |
| `TempSensor.NlfitTruncation` | k32w_ble/board/board_utility.c:230-240 | of which the two shifts cost less than 1.6/128 |
| `TempSensor.Accuracy` | k32w_ble/board/board_utility.c:242-296 | for every pair of sums the whole result is within 22/128 of a degree of the documented formulas over the reals, with the real linear fit in the quadratic correction |
| `TempSensor.NearlyAntitone` | k32w_ble/board/board_utility.c:230-296 | a larger sensor sum never reads warmer by more than 14/128 of a degree |
| `TempSensor.AlwaysMeasured` | k32w_ble/board/board_utility.c:456-461 | no computed temperature is mistaken for the "never monitored" mark |

## Left out

- The `_f32` and `_f64` functions: floating point.
- The functions that `arm_math.h` only declares (filters, transforms, matrices, statistics) and the
  contents of its extern tables. The reciprocal tables are a parameter
  with positive entries, or with entries that fit the intervals they are read for.
- `arm_recip_q31` and `arm_recip_q15` at the most negative input, where the negation overflows.
- `clip_q63_to_q15`, `clip_q31_to_q7` and the Q15 and Q31 bilinear interpolation.
- `clip_q31_to_q15`, `__ROR`, the lane-wise SIMD helpers and the remaining one-line intrinsics.
- The PID initialisation and reset functions are not part of this model; gains are given, and a
  run starts from a cleared state. `PidSpec` takes the gains as derived from Kp, Ki and Kd.
- CircularBuffer.CircularWrite: the source is a sequence, so a source that overlaps the buffer is
  not modelled; pointers are indices, and the conversion of the end pointer to 32 bits is exact.
- CircularBuffer.CircularRead: destination and buffer are different arrays.
- MpuV8.Mpu.LoadEx: enabling the MPU, memory attributes, barriers and the non-secure alias are left
  out; the table may hold any words, so the v8 RBAR and RLAR macros are not needed.
- MpuV7.Mpu.Load: RASR is stored whole; the hardware's treatment of reserved attribute values is
  left out.
- NvicBaseline.Nvic.SetPriority: the registers are read and written as plain memory; pending and
  active state does not matter here.
- Inline assembly, which replaces the software loops where the core has the instruction.
- The 32 kHz compensation, which is compiled out.
- The trim of the oscillator itself and the delay after it: a trim is the value handed over.
- The polling of the converter, its channel set-up and debug output: readings are given.
- The calibration record read from flash: the built-in one is used, with the values assigned in the
  order of the struct (board_utility.c:22-40).
- TempSensor.ComputeEstimatedSum: the number of samples is given as the length of the readings.
- TempSensor.NearlyAntitone: 14 is an upper bound, not the least one.
- TempSensor.Accuracy: 22 is an upper bound, not the least one.
- Q31ConstantTables.ConstantTablesMonotone: for negative odd entries the condition stays that of
  `Q31ConstantTables.ConstantExactly`, over all fractions; `NegativeOddTables` decides both ends.
- Q31Monotonicity.FallsEarly: between unequal entries this is one direction only; the exact condition
  is that of `MonotoneFromZeroQ31`, over all fractions of a cell.
- Tcxo.TrimError: 130 covers every table that `CapacitanceTable.Tame` admits; the built-in tables
  are smoother.
- The Bluetooth packet protocol, of which only tables and pictures are documented.
- Pin, clock and board configuration, SysTick, ITM and TrustZone helpers: constants and hardware.
