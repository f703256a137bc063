# Multiply-unit checker and convolution reference, in Dafny

This project models the Python verification side of a small CNN
accelerator. It has two parts.

**The multiply unit and its checker** (`sim/mFU_checker.py`):

- `Int` is a fixed-width two's-complement value. It has a checked
  constructor, a signed reading, and `hi`/`lo` halves. Its `*` doubles the
  width and its `+` adds one bit.
- `mFU` is the golden model of the multiply unit. It reads two 8-bit
  operands in one of three modes:
  - mode 0: one 8-bit lane;
  - mode 1: two 4-bit lanes;
  - mode 2: four 2-bit lanes.

  It multiplies matching lanes only and returns the sum in a 16-bit
  container.
- The driver enumerates cases and writes one golden record per case. After
  the hardware run it compares the expected and actual result files line by
  line.

**The behavioural convolution reference** (`sim/behav_sim.py`):

- the sequential test-data generator;
- the strided 2-D convolution that the accelerator's output is compared
  with.

The model is organised as follows:

- `fixed_width.dfy` models `Int` as a subset type of a (pattern, width)
  record. Every operation that raises in Python returns a `Result` whose
  error says why.
- `multiply_unit.dfy` models `mFU`. It proves that in every mode the unit
  computes the dot product of the operands' matching signed lanes
  (`MfuIsLaneDot`).
- `mfu_checker.dfy` holds the driver:
  - The record loops are methods, proved equal to a specification
    function (`RecordsFor`) that stops at the first failing case.
  - The exhaustive case list is characterised exactly.
  - The comparison loop is a method. It is proved to report exactly the
    mismatching lines, in order, each with the fields of its input line.
- `behav_sim.dfy` holds the behavioural reference:
  - `generate_sequential_array` is a pure function.
  - `convolve_2d` is a method that fills a freshly allocated `array2`.
    Its `ensures` ties every cell to an independent window-sum
    definition.
  - Lemmas about that definition cover locality, uniform inputs, bounds
    and the output size.
- `powers.dfy` and `outcomes.dfy` are shared helpers: powers of two,
  division facts, and `Option`/`Result`.

On the value range of `Int`, one might expect that building an `Int` and
reading it back as signed always returns the value. The constructor accepts
`[-2^(w-1), 2^w)`, but `signed()` returns `v - 2^w` for every
`v >= 2^(w-1)`. So the round trip holds only on the signed range
(`SignedOfMake`). Above it the value wraps (`SignedOfMakeUpper`). The
exhaustive driver relies on this: its operands 128..255 are recorded as
-128..-1.

## Model

| member | source | states |
|---|---|---|
| FixedWidth.Make | sim/mFU_checker.py:6-14 | Construction succeeds exactly for width ≥ 2 and value in [-2^(w-1), 2^w). Width ≤ 1 gives the width error; any other rejection is the range error. The stored pattern is the value, or the value plus 2^w when negative. |
| FixedWidth.Signed | sim/mFU_checker.py:31-34 | The signed reading lies in [-2^(w-1), 2^(w-1)) and differs from the pattern by 0 or 2^w. |
| FixedWidth.TopBit | sim/mFU_checker.py:32 | Bit w-1 of a w-bit pattern is set exactly when the pattern is at least 2^(w-1). |
| FixedWidth.SignedTestsTopBit | sim/mFU_checker.py:31-34 | `signed()` subtracts 2^w exactly when the source's bit test fires. |
| FixedWidth.SignedOfMake | sim/mFU_checker.py:6-34 | Construction then `signed()` returns every value of the signed range unchanged. |
| FixedWidth.SignedOfMakeUpper | sim/mFU_checker.py:6-34 | A value in [2^(w-1), 2^w) is accepted but reads back as the value minus 2^w. |
| FixedWidth.MakeOfSigned | sim/mFU_checker.py:6-34 | Rebuilding an `Int` from its signed value at its own width gives back the same `Int`. |
| FixedWidth.SignedNarrow | sim/mFU_checker.py:31-34 | A signed value of width w fits the signed range of any larger width. |
| FixedWidth.Hi | sim/mFU_checker.py:16-21 | `hi` succeeds exactly for width ≥ 4 when the width is even or the top bit is clear. It gives the pattern shifted right by width//2, at width width//2. Widths 2 and 3 fail with the width error. |
| FixedWidth.UpperHalfFits | sim/mFU_checker.py:20-21 | The shifted pattern fits in width//2 bits exactly when the width is even or the pattern is below 2^(w-1). This is why `hi` of an odd-width value with its top bit set raises. |
| FixedWidth.Lo | sim/mFU_checker.py:23-29 | `lo` succeeds for every width ≥ 4 and fails below. It gives the pattern masked to width//2 bits, at width width//2. |
| FixedWidth.SplitJoin | sim/mFU_checker.py:16-29 | For even width, `hi` and `lo` both exist and their patterns concatenate back to the original. |
| FixedWidth.SplitSigned | sim/mFU_checker.py:16-34 | For even width, the signed value is signed(hi) · 2^(w/2) + lo. The upper half carries the sign. |
| FixedWidth.ProductFits | sim/mFU_checker.py:42 | Two values of the signed range of width w have a product in the signed range of width 2w. |
| FixedWidth.Mul | sim/mFU_checker.py:36-42 | `*` succeeds exactly for equal widths and fails with the mismatch error otherwise. The result has twice the width and its signed value is the exact product. |
| FixedWidth.Add | sim/mFU_checker.py:44-50 | `+` succeeds exactly for equal widths and fails with the mismatch error otherwise. The result is one bit wider and its signed value is the exact sum. |
| MultiplyUnit.MFU | sim/mFU_checker.py:73-99 | A mode outside 0..2 returns nothing. Modes 0..2 return a 16-bit value or raise. Mode 0 with unequal widths raises the mismatch error. Modes 1 and 2 on widths ≤ 3 raise the width error. Mode 2 on widths below 8 always raises. |
| MultiplyUnit.FullProduct | sim/mFU_checker.py:75-79 | Mode 0 raises the mismatch error on unequal widths, and any result has width 16. The exact success condition (product in [-2^15, 2^16)) is `FullProductWraps`. |
| MultiplyUnit.MatchedSum | sim/mFU_checker.py:81-87 | `x.hi*y.hi + x.lo*y.lo` is defined exactly when both `hi` exist at equal widths. It has width 2·(w//2)+1 and signed value signed(x.hi)·signed(y.hi) + signed(x.lo)·signed(y.lo). |
| MultiplyUnit.NibbleSum | sim/mFU_checker.py:81-87 | Mode 1 raises the width error on widths ≤ 3, and any result has width 16. On 8-bit operands it always succeeds (`NibbleSumValue`). |
| MultiplyUnit.QuarterSum | sim/mFU_checker.py:89-99 | Mode 2 always raises on widths below 8. When `a.hi` exists but `a.hi.hi` does not, it raises that error before looking at `b`, as the source does. Any result has width 16. On 8-bit operands it always succeeds (`QuarterSumValue`). |
| MultiplyUnit.FullProductWraps | sim/mFU_checker.py:75-79 | For any equal width, mode 0 succeeds exactly when the product lies in [-2^15, 2^16). It returns the product below 2^15 and the product minus 2^16 from 2^15 on. |
| MultiplyUnit.Mode0Product | sim/mFU_checker.py:75-79 | On 8-bit operands mode 0 returns the exact signed product. |
| MultiplyUnit.Nibbles | sim/mFU_checker.py:16-29 | `hi` and `lo` of an 8-bit value are its signed 4-bit lanes at bits 4 and 0. |
| MultiplyUnit.NibbleSumValue | sim/mFU_checker.py:81-87 | On 8-bit operands mode 1 succeeds with hi·hi + lo·lo of the signed nibbles. |
| MultiplyUnit.Mode1NibbleSum | sim/mFU_checker.py:81-87 | On 8-bit operands mode 1 returns the sum of the products of the matching 4-bit lanes, and no cross term. |
| MultiplyUnit.UpperQuarters | sim/mFU_checker.py:90-91 | `hi.hi` and `hi.lo` of an 8-bit value are its signed 2-bit lanes at bits 6 and 4. |
| MultiplyUnit.LowerQuarters | sim/mFU_checker.py:92-93 | `lo.hi` and `lo.lo` of an 8-bit value are its signed 2-bit lanes at bits 2 and 0. |
| MultiplyUnit.QuarterSumValue | sim/mFU_checker.py:89-99 | On 8-bit operands mode 2 succeeds with the sum of the four products of same-position quarters. |
| MultiplyUnit.Mode2QuarterSum | sim/mFU_checker.py:89-99 | On 8-bit operands mode 2 returns the sum of the products of the four matching 2-bit lanes. |
| MultiplyUnit.Mode0LaneDot | sim/mFU_checker.py:75-79 | Mode 0 is the lane dot product with one 8-bit lane. |
| MultiplyUnit.Mode1LaneDot | sim/mFU_checker.py:81-87 | Mode 1 is the lane dot product with two 4-bit lanes. |
| MultiplyUnit.Mode2LaneDot | sim/mFU_checker.py:89-99 | Mode 2 is the lane dot product with four 2-bit lanes. |
| MultiplyUnit.MfuIsLaneDot | sim/mFU_checker.py:73-99 | In every mode 0..2, on 8-bit operands, the unit returns a 16-bit value. Its signed reading is the dot product of the matching signed lanes of width 8, 4 or 2. This is checked against an independent lane definition read straight from the bit pattern. |
| MultiplyUnit.MfuDefined | sim/mFU_checker.py:73-99 | On 8-bit operands, modes 0..2 never raise and always return a value. |
| MultiplyUnit.FullProductExample | sim/mFU_checker.py:75-79 | 12 × 7 in mode 0 gives the 16-bit 84. |
| MultiplyUnit.QuarterOrderExample | sim/mFU_checker.py:90 | For a 6-bit 0 and a 5-bit 16, mode 2 raises the width error at `a.hi.hi`, although `b.hi` would raise the range error. |
| MultiplyUnit.NoCrossTermsExample | sim/mFU_checker.py:81-87 | 48 × 5 in mode 1 gives 0, not the product 240: only cross terms would be non-zero. |
| MfuChecker.GoldenRecord | sim/mFU_checker.py:109-115 | A record, when produced, carries the case's mode. |
| MfuChecker.GoldenRecordSpec | sim/mFU_checker.py:109-115 | A record is produced exactly for mode 0..2 with both operands in [-128, 256). An operand out of range raises the range error first. Otherwise a mode outside 0..2 fails when the missing output is read. |
| MfuChecker.GoldenRecordValue | sim/mFU_checker.py:109-115 | The record holds the mode and both operands read as signed (v, or v-256 from 128 on). Its result is the lane dot product of the two 8-bit operands for the mode. |
| MfuChecker.ByteSigned | sim/mFU_checker.py:109-113 | An operand in [-128, 256) built at width 8 reads back as itself below 128 and as itself minus 256 above. |
| MfuChecker.RunAll | sim/mFU_checker.py:143-150 | A successful run has one result per case. |
| MfuChecker.RunAllCases | sim/mFU_checker.py:143-150 | The run succeeds exactly when every case does, and then result k is case k's record. Otherwise its error is that of a failing case with every case before it succeeding: the first failure. |
| MfuChecker.RunAllFailedTake | sim/mFU_checker.py:143-150 | Once a prefix of the cases fails, nothing after it changes the outcome. |
| MfuChecker.RunAllNext | sim/mFU_checker.py:143-150 | A succeeding case appends its result to a successful run. |
| MfuChecker.RunAllStop | sim/mFU_checker.py:143-150 | A failing case after a successful prefix ends the whole run with its error. |
| MfuChecker.RunSteps | sim/mFU_checker.py:143-150 | The loop over a case list returns exactly the specification run: all results in order, or the first failure. |
| MfuChecker.GoldenRecords | sim/mFU_checker.py:139-150 | The specific-cases driver produces exactly `RecordsFor(cases)`. |
| MfuChecker.RowsContents | sim/mFU_checker.py:107-108 | The rows of one mode hold exactly the cases with that mode and a, b below their bounds. |
| MfuChecker.RowsSize | sim/mFU_checker.py:107-108 | The rows of one mode number count · n cases. |
| MfuChecker.ModesSound | sim/mFU_checker.py:106-108 | Every listed case has a mode below the count and operands below the limit. |
| MfuChecker.ModesComplete | sim/mFU_checker.py:106-108 | Every case with a mode below the count and operands below the limit is listed. |
| MfuChecker.ModesSize | sim/mFU_checker.py:106-108 | The list holds count · n² cases. |
| MfuChecker.ExhaustiveContents | sim/mFU_checker.py:106-108 | The exhaustive list holds exactly the cases with mode 0..2 and 0 ≤ a, b < lim, 3·lim² of them (none for a negative limit). |
| MfuChecker.ExhaustiveCases | sim/mFU_checker.py:106-108 | The three nested loops list the cases in the order mode, a, b: exactly `Exhaustive(lim)`. |
| MfuChecker.RunExhaustive | sim/mFU_checker.py:101-115 | The exhaustive driver produces exactly `RecordsFor(Exhaustive(lim))`. |
| MfuChecker.ExhaustiveRun | sim/mFU_checker.py:101-115 | With lim ≤ 256 (the default is 2^8) every record is produced. With lim > 256 the driver stops with the range error. |
| MfuChecker.Split | sim/mFU_checker.py:135 | `str.split(sep)` always yields at least one part. |
| MfuChecker.SplitPartsClean | sim/mFU_checker.py:135 | No part of a split holds the separator. |
| MfuChecker.JoinSplit | sim/mFU_checker.py:135 | Joining the parts with the separator gives back the line. |
| MfuChecker.SplitJoin | sim/mFU_checker.py:135 | Separator-free parts come back unchanged from splitting their join. |
| MfuChecker.SplitPrefix | sim/mFU_checker.py:135 | A separator-free prefix is glued onto the first part of what follows it. |
| MfuChecker.InputLineSplits | sim/mFU_checker.py:112-114 | A line written as `m,a,b` with comma-free fields splits back into exactly [m, a, b]. |
| MfuChecker.Chop | sim/mFU_checker.py:125-127 | `[:-1]` drops one character, and an empty line (end of file) stays empty. |
| MfuChecker.Field | sim/mFU_checker.py:125-127 | A non-empty read comes from a line that exists. Past the end, the read is empty. |
| MfuChecker.ReportAt | sim/mFU_checker.py:135-136 | A report carries its line number and the expected and actual results of that line. |
| MfuChecker.ReportFields | sim/mFU_checker.py:135-136 | A report's three fields are comma-free and rejoin to the input line. |
| MfuChecker.MismatchLinesSound | sim/mFU_checker.py:134 | Every listed line is below n and mismatches. |
| MfuChecker.MismatchLinesComplete | sim/mFU_checker.py:134 | Every mismatching line below n is listed, in strictly increasing order. |
| MfuChecker.ReportsFor | sim/mFU_checker.py:136 | There is one report per listed line. |
| MfuChecker.ReportsForLines | sim/mFU_checker.py:136 | Report i is the report of the i-th listed line. |
| MfuChecker.MismatchReportsStep | sim/mFU_checker.py:134-136 | One more line adds its report exactly when it mismatches. |
| MfuChecker.CompareStep | sim/mFU_checker.py:124-136 | A live, well-formed line extends the comparison loop's invariants by one line. |
| MfuChecker.CompareOutputs | sim/mFU_checker.py:124-136 | The loop stops at the first line where a stream is exhausted. It also stops, with an error at that line, when a mismatching input line does not split into three fields. Every line before the stop is live, and every mismatch before it is well formed. The reports are exactly those of the mismatching lines before the stop, in order. |
| BehavSim.Reshape | sim/behav_sim.py:17 | Reshaping yields `rows` rows of `cols` entries. |
| BehavSim.ReshapeAt | sim/behav_sim.py:17 | Entry (r, c) of the reshaped array is flat entry r·cols + c. |
| BehavSim.FlattenReshape | sim/behav_sim.py:17 | Flattening the reshaped array gives back the flat one. |
| BehavSim.GenerateSequential | sim/behav_sim.py:14-17 | The generated array is n × n. |
| BehavSim.SequentialAt | sim/behav_sim.py:14-17 | Entry (r, c) is (r·n + c) mod 2^p and lies in [0, 2^p). |
| BehavSim.SequentialNumbers | sim/behav_sim.py:14-17 | When n² ≤ 2^p there is no wrap-around: entry (r, c) is r·n + c. |
| BehavSim.OutputSizeCases | sim/behav_sim.py:26 | The side (n-k)//stride + 1 is at least 1 exactly when the kernel fits. It is 0 when n < k ≤ n + stride and negative beyond. When the kernel fits, the last window fits and one more would not. |
| BehavSim.WindowInBounds | sim/behav_sim.py:29-32 | Every window the loops visit lies inside the input, so the slice is never clipped. |
| BehavSim.WindowLocality | sim/behav_sim.py:32 | Inputs that agree on a window give the same window sum. |
| BehavSim.RowLocality | sim/behav_sim.py:32 | Inputs that agree on a window give the same row products. |
| BehavSim.CellLocality | sim/behav_sim.py:29-32 | An output cell depends only on its own input window. |
| BehavSim.UniformWindow | sim/behav_sim.py:32 | A constant window c under a constant kernel d sums to k²·c·d. |
| BehavSim.UniformRow | sim/behav_sim.py:32 | One kernel row over a constant window sums to cols·c·d. |
| BehavSim.AllOnesExample | sim/behav_sim.py:23-34 | A 5×5 input of ones under a 3×3 kernel of ones at stride 1 gives a 3×3 output of 9s. |
| BehavSim.WindowBound | sim/behav_sim.py:32 | Entries bounded by a under kernel entries bounded by b give a window sum bounded by k²·a·b. |
| BehavSim.RowBound | sim/behav_sim.py:32 | One row's products are bounded by cols·a·b. |
| BehavSim.SequentialKernelSmall | sim/behav_sim.py:58 | The driver's 3×3 sequential kernel has no entry above 8. |
| BehavSim.SequentialEntriesBelow | sim/behav_sim.py:52 | Sequential entries of precision ≤ 17 stay below 2^17. |
| BehavSim.SequentialFitsFloat32 | sim/behav_sim.py:51-62 | For precision ≤ 17, every cell of the driver's sequential convolution stays within ±2^24, so the float32 output buffer holds it exactly. |
| BehavSim.Convolve2D | sim/behav_sim.py:23-34 | Stride 0 fails (division by zero) and a negative side fails (negative dimension), each exactly when it occurs. Otherwise the output is a fresh side × side array whose cell (i, j) is the window sum at (i·stride, j·stride). |

## Left out

- File I/O is not modelled: writing `input.txt`/`output.txt` and reading them and `test.txt` back. The golden records are the sequence of record values the driver would write. The comparison reads the three files as sequences of lines.
- Decimal formatting of records is not modelled. Their splitting back into fields is: `InputLineSplits` proves that comma-free fields round-trip.
- Partial files on failure are not modelled. When a case fails, the model stops with the error and drops the lines already written. With a mode outside 0..2, the source has already written that case's input line when `out.signed()` raises.
- The simulator run (`os.system` calling iverilog/vvp) and the `timer` decorator are left out. They are I/O, and their results enter the model only as the third stream of lines.
- Printing is left out: `print` of failing lines, the `debug` prints in `mFU`, and `print(output)`. A failing line becomes a `Report` value.
- `__repr__` and `__format__` of `Int` are left out. They format text only.
- `main`, `argparse` and the `__main__` guards of both files are left out. They are command-line glue.
- `generate_random_array` is left out: randomness. The convolution takes any square input and kernel.
- `synth.py` is not part of this model. It writes a header file and calls the synthesis tool.
- The `TypeError` raised by `*` and `+` for an operand without a width cannot occur: every operand is an `Int`.
- The `AttributeError` guards of `hi`/`lo` for width ≤ 1 are not modelled. They cannot be reached because construction already rejects widths below 2. What does fail in `hi`/`lo` (widths 2 and 3, and an odd width with the top bit set) is the constructor's error, which is modelled.
- The three error kinds are kept apart: width, range and width mismatch. Python raises `ValueError` for all three.
- MfuChecker.CompareOutputs: `run_mfu_checker` (lines 124-136) and `run_specific` (lines 159-171) contain the same loop, and it is modelled once. The `ValueError` from unpacking a split with other than three parts is the `MalformedInput` outcome.
- MfuChecker.CompareOutputs: the raw file text is not split into lines. Each stream is already a sequence of lines with their line ends, and a line past the end reads as empty.
- MfuChecker.ExhaustiveCases: the nested loops are modelled as listing the cases first and running them afterwards (`RunExhaustive`). Because the run stops at the first failure, the records and the error are the same as when the cases are built and run one by one.
- BehavSim.Convolve2D: the float32 buffer is not modelled bit by bit. Instead the method requires every cell to lie within ±2^24, where float32 is exact, so the `astype(int32)` conversion returns the integer sum. `SequentialFitsFloat32` shows that the driver's sequential data of precision ≤ 17 meets this. Larger sums would be rounded by the source and are outside the model.
- BehavSim.Convolve2D: the stride is a natural number. A negative stride, which Python floor-divides, is outside the model.
- BehavSim.Convolve2D: input and kernel must be square. The source reads only `shape[0]` and would misbehave on other shapes.
- BehavSim.GenerateSequential: numbers are unbounded. numpy's fixed-size integers and their overflow for huge sizes are not modelled, and the precision is a natural number (a negative shift count raises in Python).
