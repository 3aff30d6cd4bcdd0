# aoc25, days 1 to 3, in Dafny

This project models the puzzle solvers of the `aoc25` repository for days 1 to 3.

**Day 1: the safe dial** (`src/bin/day01.rs`, and the earlier `src/main.rs`)
- A dial has positions 0 to 99 and starts at 50.
- Instructions `L<n>` and `R<n>` turn it left or right by `n` clicks.
- The solver counts how often the dial is left pointing at 0.
- In "during" mode it also counts every click that passes 0 during a rotation.

**Day 2: invalid product ids** (`src/bin/day02.rs`)
- An id is invalid when its decimal digits are one block repeated: exactly twice in mode `two`, or any number of times of at least two in mode `multiple`.
- The solver parses a comma-separated list of id ranges `a-b`.
- It counts and sums the invalid ids in each range, and totals them.

**Day 3: battery banks** (`src/bin/day03.rs`)
- Each line is a string of digits.
- The solver picks `k` of them (2 or 12), in order, so that they spell the largest possible number, and sums these numbers over the lines.

## Modules

- `Errors` holds the error and result types.
- `Decimal` covers decimal digit strings:
  - Rust's `Display` for unsigned integers;
  - nom's `digit1` followed by `str::parse`, with the `u32` or `u64` bound;
  - `ilog10`;
  - the arithmetic that links digit strings to numbers.
- `Dial` holds what days 1 and `main.rs` share.
  - The reference meaning of a rotation: click by click.
  - Closed forms of that meaning.
  - The instruction grammar. It is textually the same in `src/bin/day01.rs` and `src/main.rs`, so it is modelled once.
- `Day01` holds day 1's counting modes and its `State` class.
- `MainDial` holds the `State` class of `src/main.rs`.
- `Day02` holds the id classifier, the range counting and the range parsers.
- `Day03` covers the greedy digit picker and its optimality proof.

## How the code is specified

The imperative code is written as Dafny methods, and each method is proved against a specification function:
- `Day01.State.Apply` and `ApplyMultiple`;
- `MainDial.State.Apply` and `ApplyMultiple`;
- `Day02.IdIsValid` and `Day02.CalcCountSum`;
- `Day03.LargestNumber` and `Day03.CalcTotalJolt`.

Each specification function is in turn related to an independent statement of what the code is meant to compute:
- **The dial:** the rotation is specified click by click (`Dial.ZeroHits`). The code's arithmetic is shown to compute it.
- **Day 2:** an id is invalid when its decimal string is a repetition of one block (`Day02.IsInvalidId`). The code's repeated division by a power of ten is shown to decide this.
- **Day 3:** the greedy choice is shown to give the largest number spelled by any choice of `k` positions (`Day03.LargestNumberIsOptimal`).

## Model

| member | source | states |
|---|---|---|
| Decimal.DecimalString | src/bin/day02.rs:18-20 | `format!("{}", n)`: a digit string of `DigitCount(n)` digits whose value is `n` |
| Decimal.DecimalStringCanonical | src/bin/day02.rs:18-20 | the rendering has no leading zero unless it is "0" |
| Decimal.DigitCount | src/bin/day02.rs:121 | `ilog10(n) + 1`: `10^(d-1) <= n < 10^d` for `n >= 1` |
| Decimal.DigitCountIs | src/bin/day02.rs:121 | the digit count is fixed by the power-of-ten interval `n` lies in |
| Decimal.DecimalValue | src/bin/day01.rs:191-193 | the value of a digit string is below `10^length` |
| Decimal.DecimalValueConcat | src/bin/day01.rs:191-193 | the value of `a + b` is `value(a) * 10^|b| + value(b)` |
| Decimal.DigitsValue | src/bin/day02.rs:137-145 | the width-`w` rendering of `n` is a digit string worth `n % 10^w` |
| Decimal.DigitsOfValue | src/bin/day02.rs:137-145 | a digit string is the rendering of its own value at its own width |
| Decimal.DigitsEqualIff | src/bin/day02.rs:144 | two renderings of one width agree iff the numbers agree modulo `10^width` |
| Decimal.DigitsUnique | src/bin/day02.rs:137-145 | a digit string worth `x` below its width is the rendering of `x` |
| Decimal.DigitsSplit | src/bin/day02.rs:141-143 | rendering `a + b` digits is the high part divided by `10^b` beside the low `b` digits |
| Decimal.LeadingDigits | src/bin/day01.rs:191-193 | `digit1`'s run: all digits, and the next character is not a digit |
| Decimal.ParseUnsigned | src/bin/day01.rs:191-193 | `map_res(digit1, str::parse)` succeeds iff there is at least one leading digit and the run's value fits the type; it returns the value and the rest |
| Decimal.ParseUnsignedPrefix | src/bin/day01.rs:191-193 | a digit run that fits, followed by a non-digit or the end, parses as its value with exactly that rest |
| Decimal.ParseUnsignedDecimalString | src/bin/day02.rs:96-101 | parsing the decimal rendering of a number that fits gives it back (round trip) |
| Dial.Click | src/bin/day01.rs:65-90 | one click right adds one, one click left subtracts one, modulo 100 |
| Dial.Turn | src/bin/day01.rs:65-90 | `k` clicks leave the dial on a position below 100 |
| Dial.ZeroHits | src/bin/day01.rs:65-90 | the number of clicks that leave the dial on 0 is at most `k` |
| Dial.PassesDuring | src/bin/day01.rs:65-90 | passes during a rotation plus a final landing on 0 are all the clicks that hit 0 |
| Dial.TurnRight | src/bin/day01.rs:84-86 | turning right `k` clicks lands on `(pos + k) % 100` |
| Dial.TurnLeft | src/bin/day01.rs:72-78 | turning left `k` clicks lands on `(pos - k) % 100` |
| Dial.ZeroHitsRight | src/bin/day01.rs:84-85 | turning right hits 0 `(pos + k) / 100` times |
| Dial.ZeroHitsLeft | src/bin/day01.rs:72-78 | turning left hits 0 `(k + (100 - pos) % 100) / 100` times |
| Dial.LeftLandsOnZero | src/bin/day01.rs:72-78 | a left turn of `k` clicks ends on 0 iff `k + (100 - pos) % 100` is a multiple of 100 |
| Dial.TurnClosedForm | src/main.rs:36-52 | both directions in closed form |
| Dial.LeftByWholeTurns | src/main.rs:42-45 | adding whole turns until the count fits, then subtracting, gives the left turn's landing below 100 |
| Dial.Execute | src/main.rs:36-52 | one instruction leaves the dial on a position below 100 |
| Dial.Run | src/main.rs:54-63 | a sequence of instructions leaves the dial on a position below 100 |
| Dial.LandingsOnZero | src/main.rs:54-63 | the instructions that end on 0: at most one per instruction, none for no instructions |
| Dial.PassesPlusLandings | src/bin/day01.rs:113-119 | when every instruction moves the dial, passes during the rotations plus landings on 0 are all the clicks that hit 0 |
| Dial.OperationFromStr | src/bin/day01.rs:127-135 | "L" gives `Left`, "R" gives `Right`, every other string gives `None`, each in both directions |
| Dial.OpSymbol | src/bin/day01.rs:144-147 | `Display` writes one letter: `L` exactly for `Left`, `R` exactly for `Right` |
| Dial.FormatInstruction | src/bin/day01.rs:142-150 | `Display` writes the operation's letter followed by the decimal digits of the count, whose value is the count |
| Dial.OpSymbolRoundTrip | src/bin/day01.rs:142-150 | the letter `Display` writes for an operation reads back as it |
| Dial.ParseOp | src/bin/day01.rs:183-189 | succeeds iff the input starts with `L` or `R`; consumes exactly that letter |
| Dial.ParseOpFixture | src/bin/day01.rs:222-226 | "L" parses as `Left` with nothing left |
| Dial.ParseCount | src/bin/day01.rs:191-193 | succeeds iff the input starts with digits whose value fits `u32`; gives that value and the input after the digits |
| Dial.ParseErrorMessage | src/bin/day01.rs:200 | the message is `error parsing '`, then the whole line, then a closing `'` |
| Dial.ParseCountFixture | src/bin/day01.rs:228-232 | "123" parses as 123 with nothing left |
| Dial.ParseInstruction | src/bin/day01.rs:194-196 | succeeds iff both the letter and the count parse; the count fits `u32`; the rest does not start with a digit |
| Dial.ParseInstructionLeavesSuffix | src/bin/day01.rs:194-196 | what is left is a suffix of the input |
| Dial.ParseInstructionFixture | src/bin/day01.rs:234-239 | "L8" parses as `L 8` with nothing left |
| Dial.Parse | src/bin/day01.rs:198-203 | a line gives the instruction it starts with, or a `NomError` naming the line, exactly when the instruction parser fails |
| Dial.ParseFormatInstruction | src/bin/day01.rs:142-150 | parsing what `Display` writes for an instruction whose count fits `u32`, followed by any non-digit rest, gives the instruction and that rest |
| Dial.ParsePrintedLine | src/bin/day01.rs:198-203 | `parse` of a printed instruction gives it back |
| Day01.ModeFromStr | src/bin/day01.rs:17-25 | "during" selects counting during rotations, and nothing else does; "after" selects counting after them |
| Day01.ZeroCount | src/bin/day01.rs:119-123 | what `apply_multiple` returns: at least the landings on 0, and at most one per instruction in "after" mode |
| Day01.DuringCountsEveryZeroClick | src/bin/day01.rs:119-120 | in "during" mode the count is every click that hits 0 |
| Day01.LeftPasses | src/bin/day01.rs:72-78 | the left loop's increments count the passes over 0 during the rotation |
| Day01.RightPasses | src/bin/day01.rs:84-89 | the right branch's quotient, less a final landing, counts the passes |
| Day01.RightZerosAsWrittenAgrees | src/bin/day01.rs:84-89 | the right branch as written gives the passes over 0 exactly when the start position or the count is non-zero |
| Day01.RightZerosAsWrittenUnderflow | src/bin/day01.rs:87-89 | `R0` at position 0 makes the right branch as written compute -1 |
| Day01.State.constructor | src/bin/day01.rs:61-63 | a new dial points at 50 |
| Day01.State.Apply | src/bin/day01.rs:65-103 | the dial ends where the instruction takes it, and the result is the passes over 0 during the rotation |
| Day01.State.ApplyMultiple | src/bin/day01.rs:105-124 | the dial ends where the instructions take it, and the result is the count for the mode |
| Day01.PassesClosedForm | src/bin/day01.rs:65-90 | the passes over 0: none for no clicks, `(pos + k - 1) / 100` to the right, `(k - 1 + (100 - pos) % 100) / 100` to the left |
| Day01.RotationByClosedForm | src/bin/day01.rs:65-90 | a rotation's landing and passes follow from the closed forms |
| Day01.LeftSixtyEightFixture | src/bin/day01.rs:247-259 | `L68` from 50 lands on 82 and passes 0 once |
| Day01.BigRotationFixture | src/bin/day01.rs:291-304 | `R1000` from 50 lands on 50 and passes 0 ten times |
| Day01.FiddlyLeftFixtures | src/bin/day01.rs:306-332 | the left cases of the fiddly table: landings and passes |
| Day01.FiddlyRightFixtures | src/bin/day01.rs:306-332 | the right cases of the fiddly table: landings and passes |
| MainDial.State.constructor | src/main.rs:102 | a dial at the given start position |
| MainDial.State.Apply | src/main.rs:36-52 | the dial ends where the instruction takes it |
| MainDial.State.ApplyMultiple | src/main.rs:54-63 | the dial ends where the instructions take it; the result is the number of landings on 0, at most one per instruction |
| MainDial.LeftSixtyEightFixture | src/main.rs:173-181 | `L68` from 50 lands on 82 |
| MainDial.AgreesWithAfterMode | src/main.rs:54-63 | the first version's count is day 1's "after" count |
| Day02.ModeFromStr | src/bin/day02.rs:29-37 | "multiple" selects `Multiple`, and nothing else does; "two" selects `Two` |
| Day02.Repeat | src/bin/day02.rs:120-159 | a block written `f` times is `f` times as long |
| Day02.RenderingInBlocks | src/bin/day02.rs:137-145 | for a block count dividing the digit count, the decimal string is the rendering in `f` blocks of the block width |
| Day02.RepetitionOfLastBlock | src/bin/day02.rs:137-145 | a string of `f` blocks is a repetition iff it is `f` copies of its last block |
| Day02.BlocksEqualIffRepetition | src/bin/day02.rs:137-145 | for a block count dividing the digit count, the division loop finds all blocks equal iff the decimal string is a repetition |
| Day02.InvalidIffSomeFreq | src/bin/day02.rs:127-158 | invalid iff some tried block count divides the digit count and gives equal blocks |
| Day02.InvalidAtFreq | src/bin/day02.rs:151-156 | one such block count makes the id invalid |
| Day02.IdIsValid | src/bin/day02.rs:120-159 | valid iff the decimal string is not a repetition of one block for any block count the mode tries |
| Day02.ModeTwoInvalidIff | src/bin/day02.rs:120-159 | in `two` mode: invalid iff the digit count is even and the two halves are equal |
| Day02.OddDigitCountValidInTwo | src/bin/day02.rs:128-133 | an odd digit count is always valid in `two` mode |
| Day02.ModeMultipleInvalidIff | src/bin/day02.rs:120-159 | in `multiple` mode: invalid iff some block count from 2 to the digit count divides it and gives equal blocks |
| Day02.SingleDigitValid | src/bin/day02.rs:121-126 | one-digit ids are valid in both modes |
| Day02.TwoInvalidImpliesMultipleInvalid | src/bin/day02.rs:122-125 | every id invalid in `two` mode is invalid in `multiple` mode |
| Day02.TwoDigitInvalidIff | src/bin/day02.rs:120-159 | a two-digit id is invalid iff its digits agree |
| Day02.ThreeDigitValidInTwo | src/bin/day02.rs:120-159 | three-digit ids are valid in `two` mode |
| Day02.ModeTwoFixtures | src/bin/day02.rs:242-254 | 55, 6464 and 123123 are invalid and 101 is valid in `two` mode |
| Day02.MultipleFixturesFromTwo | src/bin/day02.rs:256-271 | 55, 6464 and 123123 are invalid in `multiple` mode |
| Day02.Fixture123123123 | src/bin/day02.rs:256-271 | 123123123 is invalid in `multiple` mode |
| Day02.Fixture1212121212 | src/bin/day02.rs:256-271 | 1212121212 is invalid in `multiple` mode |
| Day02.Fixture1111111 | src/bin/day02.rs:256-271 | 1111111 is invalid in `multiple` mode |
| Day02.Fixture101 | src/bin/day02.rs:256-271 | 101 is valid in `multiple` mode |
| Day02.InvalidIdsFrom | src/bin/day02.rs:161-164 | exactly the invalid ids between the bounds, strictly increasing |
| Day02.InvalidIdsInRange | src/bin/day02.rs:161-164 | exactly the invalid ids of the inclusive range, strictly increasing |
| Day02.FoldCountSum | src/bin/day02.rs:166-169 | the fold adds the number of ids to the count and their sum to the sum |
| Day02.CountSumInvalidIdsInRange | src/bin/day02.rs:166-169 | the number of invalid ids of the range and their sum |
| Day02.CountSumEmptyRange | src/bin/day02.rs:161-169 | a range that ends before it starts gives `(0, 0)` |
| Day02.CountSumSingleId | src/bin/day02.rs:161-169 | a one-id range gives `(1, id)` if the id is invalid and `(0, 0)` otherwise |
| Day02.CountSumFixture11To22 | src/bin/day02.rs:273-284 | 11-22 holds the invalid ids 11 and 22: `(2, 33)` |
| Day02.CountSumFixture95To115 | src/bin/day02.rs:273-284 | 95-115 holds the invalid id 99: `(1, 99)` |
| Day02.AllInvalidIdsMembers | src/bin/day02.rs:171-180 | an id is counted iff it is invalid and lies in some range |
| Day02.SumConcat | src/bin/day02.rs:171-180 | the sum over two lists is the sum of their sums |
| Day02.CountSumConcat | src/bin/day02.rs:171-180 | totals over two lists of ranges add up |
| Day02.CalcCountSum | src/bin/day02.rs:171-180 | the totals are the number and the sum of the invalid ids of all ranges; no ranges give `(0, 0)` |
| Day02.ParseIdRange | src/bin/day02.rs:96-101 | succeeds iff the input starts with a run of digits worth at most `u64::MAX`, a `-`, and another such run; on success the input is the first run, `-`, the second run and the rest, the bounds are the two runs' values, and the rest does not start with a digit |
| Day02.ParseIdRangeSpelled | src/bin/day02.rs:96-101 | an input with a `-` after its leading digits splits into those digits, the `-`, the digits after it and a rest that does not start with a digit |
| Day02.ParseIdRangeDigits | src/bin/day02.rs:96-101 | two runs of digits that fit `u64` around a `-`, followed by a rest that does not continue the range, parse to the range of their values and leave that rest |
| Day02.SkipMultispace | src/bin/day02.rs:104 | `multispace0` removes exactly the leading whitespace (space, tab, CR, LF): everything skipped is whitespace, what is left is a suffix of the input, and it is empty or starts with a non-whitespace character |
| Day02.SkipWhitespaceBeforeDigit | src/bin/day02.rs:104 | any run of whitespace in front of a digit is skipped up to that digit |
| Day02.ParseIdRangeLeavesSuffix | src/bin/day02.rs:96-101 | what is left is a suffix of the input |
| Day02.ParseIdRangeSequence | src/bin/day02.rs:103-106 | the list parses iff its first range does; it holds at least one range, and the first one is that range |
| Day02.FormatIdRange | src/bin/day02.rs:17-21 | `Display` writes the start's digits, a `-` and the end's digits, whose values are the two bounds |
| Day02.ParseFormatIdRange | src/bin/day02.rs:17-21 | parsing what `Display` writes for a range, followed by a rest that does not continue the number, gives the range and that rest |
| Day02.ParseJoinIdRanges | src/bin/day02.rs:103-106 | parsing ranges written with a comma and any run of whitespace between them, followed by a rest that is neither a digit nor a comma, gives the ranges and that rest |
| Day02.MoreIdRanges | src/bin/day02.rs:103-106 | the repetition after the first range takes no range exactly when it consumes nothing, and never grows its input |
| Day02.ParseIdRangeFixture | src/bin/day02.rs:218-224 | "123-456" parses as the range 123-456 |
| Day02.ParseIdRangeSequenceFixture | src/bin/day02.rs:226-234 | "11-22,95-115,998-1012" parses as those three ranges |
| Day03.ModeFromStr | src/bin/day03.rs:14-22 | "twelve" selects `Twelve`, and nothing else does; "two" selects `Two` |
| Day03.DigitsFor | src/bin/day03.rs:109-112 | `Two` takes 2 digits and `Twelve` takes 12 |
| Day03.FirstMaxIn | src/bin/day03.rs:41-51 | the fold of `max_by` keeps a position inside the window |
| Day03.FirstMaxInIsFirstMax | src/bin/day03.rs:44-50 | the kept character is the largest of the window, and every earlier one is smaller |
| Day03.MaxChar | src/bin/day03.rs:41-52 | an error naming the string iff it is empty; otherwise a position and the character there |
| Day03.MaxCharIsFirstMax | src/bin/day03.rs:41-52 | `max_char` finds the first occurrence of the largest character |
| Day03.LargestDigit | src/bin/day03.rs:60-66 | a position found lies in the window |
| Day03.LargestDigitIs | src/bin/day03.rs:60-66 | an empty window is the `max_char` error; otherwise the first largest character, as a digit or as the `largest_digit` error |
| Day03.LargestDigitIsFirstMax | src/bin/day03.rs:60-66 | the digit returned is the largest of the window and the first such |
| Day03.GreedyPicks | src/bin/day03.rs:68-84 | `k` positions of the line from the offset on |
| Day03.GreedyPicksAreChoice | src/bin/day03.rs:68-84 | the positions the loop picks are strictly increasing |
| Day03.GreedyFrom | src/bin/day03.rs:73-81 | the rest of the loop, started from `num` with `k` digits to pick, ends between `num * 10^k` and `(num + 1) * 10^k` |
| Day03.LargestNumberOf | src/bin/day03.rs:68-84 | a line shorter than `k` gives the `max_char` error |
| Day03.GreedyFromLargestDigit | src/bin/day03.rs:75-80 | one pass of the loop, as `largest_digit` reports it, ends with its error or extends the number |
| Day03.LargestNumber | src/bin/day03.rs:68-84 | the loop returns the greedy result |
| Day03.LargestNumberStep | src/bin/day03.rs:75-80 | one pass of the loop either returns the answer as an error or moves the loop's state on by the digit found |
| Day03.GreedyFromSpells | src/bin/day03.rs:68-84 | the loop spells the digits at the greedy positions |
| Day03.LargestNumberSpelled | src/bin/day03.rs:68-84 | if the picked characters are digits, the result is their value, below `10^k`; otherwise it is the error naming the first non-digit |
| Day03.DigitLineSucceeds | src/bin/day03.rs:68-84 | a line of at least `k` digits always gives a number |
| Day03.LargestNumberIsOptimal | src/bin/day03.rs:68-84 | on a line of digits, no choice of `k` positions in order spells a larger number than the result, and the result is what the greedy positions spell |
| Day03.ExampleFixture | src/bin/day03.rs:149-156 | "123456" with two digits picks the last two and gives 56 |
| Day03.TotalJolt | src/bin/day03.rs:107-124 | no lines give 0, and every line's number is at most the total |
| Day03.CalcTotalJolt | src/bin/day03.rs:107-124 | the total is the sum of the lines' largest numbers for the mode's digit count |

## Left out

- Reading input files, command-line parsing, logging, the verbose `print!` in `apply`, the benchmark in `src/bin/day02.rs` and the `main` functions are not modelled. `read_input_file`, `read_instructions_file` and `parse_input_file` are I/O.
- Tests that read data files are not modelled. The inline-literal tests are modelled as fixture lemmas.
- Integers are unbounded. The `u32` count in day 1, the `u64` ids and totals in day 2 and the `u64` jolt in day 3 can overflow in the source for extreme inputs.
  - The parsers do enforce the `u32` and `u64` bounds.
  - `Day01.State.Apply` does not model overflow of `num + count` for counts near `u32::MAX`.
- `Dial.Parse`: the message leaves out nom's own error text, which nom's `Display` appends after a comma.
- `Day02.IdIsValid` requires `id >= 1`. The source's `ilog10` panics on 0, so id 0 is outside the model; `Day02.InvalidIdsInRange`, `Day02.CountSumInvalidIdsInRange` and `Day02.CalcCountSum` require ranges that start at 1 or later for the same reason.
- `Day01.State.Apply` and `MainDial.State.Apply` require the dial to be on a position below 100. In the source this holds after every call, but it is not enforced for a hand-built `State`.
- `MainDial.State.constructor` takes the start position, which `main` sets to 50 with a struct literal.
- `Day03.LargestNumber` requires `1 <= digits <= len + 1`. Outside that range, `len - (digits - 1)` underflows and the source panics.
- `Day03.LargestNumber` and its helpers treat a line as a sequence of characters. The source slices bytes, which panics on a non-ASCII boundary.
- `Day03.CalcTotalJolt` requires every line to give a number. The source panics through `expect` otherwise.
- `Day03.TotalJolt` states only a bound and the empty case. The exact sum is its definition, and `Day03.CalcTotalJolt` is proved equal to it.
- `MainDial.AgreesWithAfterMode` holds by definition: both counts are the same function.
- `parse_battery_line` is the `BatteryLine` constructor. `Instruction::new` is the `Instruction` constructor. `Display for BatteryLine` writes the line unchanged.

## Findings

| source | as written | input that shows it | evidently intended | confidence | as-written member | corrected member |
|---|---|---|---|---|---|---|
| src/bin/day01.rs:87-89 | the right branch subtracts one from `zeros` whenever the dial ends on 0 | `R0` with the dial at 0: `zeros` is 0 and `zeros -= 1` underflows the `u32` (a panic in a debug build, 4294967295 in a release build) | subtract the final landing only when it was counted, so a rotation of 0 from 0 gives no passes | not executed | Day01.RightZerosAsWrittenUnderflow | Day01.State.Apply |
