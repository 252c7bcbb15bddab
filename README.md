# Advent of Code solutions, modelled in Dafny

This project models a Rust repository of Advent of Code puzzle solutions. Each puzzle day is a
module with `parse`, `part1` and `part2`. The model covers eight days of 2024 (1, 2, 4, 5, 6, 7,
8 and 9), day 1 of 2023, days 1, 2 and 3 of 2025, and the command-line dispatch of `main.rs`. The
dispatch turns a module name such as `year2024::day05` into an `AoCDate` and looks a requested
date up among the registered solutions.

Each Dafny module follows one source file:

| file | module | source |
|---|---|---|
| `wrappers.dfy` | `Wrappers` | `Option` / `Result` |
| `text.dfy` | `Text` | `str::lines`, `split`, `split_once`, `split_whitespace`, `replace` |
| `decimal.dfy` | `Bytes`, `Decimal` | `str::parse` for unsigned integers, the `atoi` crate, decimal digits |
| `rowmajor.dfy` | `RowMajor` | the `y * width + x` indexing shared by the grid puzzles |
| `y2023_day01.dfy` | `CalibrationDigits` | `src/year2023/day01.rs` |
| `y2024_day01.dfy` | `LocationLists` | `src/year2024/day01.rs` |
| `y2024_day02.dfy` | `ReportSafety` | `src/year2024/day02.rs` |
| `y2024_day04.dfy` | `WordSearch` | `src/year2024/day04.rs` |
| `y2024_day05.dfy` | `PageOrdering` | `src/year2024/day05.rs` |
| `y2024_day06.dfy` | `GuardPatrol` | `src/year2024/day06.rs` |
| `y2024_day07.dfy` | `BridgeRepair` | `src/year2024/day07.rs` |
| `y2024_day08.dfy` | `Antinodes` | `src/year2024/day08.rs` |
| `y2024_day09.dfy` | `DiskCompaction` | `src/year2024/day09.rs` |
| `y2025_day01.dfy` | `DialRotation` | `src/year2025/day01.rs` |
| `y2025_day02.dfy` | `DoubledIds` | `src/year2025/day02.rs` |
| `y2025_day03.dfy` | `BatteryBanks` | `src/year2025/day03.rs` |
| `main_date.dfy` | `Dates` | `src/main.rs` |

Code that loops and mutates in the source is a Dafny `method` with loop invariants, proved equal
to a functional definition. Examples are the sort-free distance sum, the occurrence map, the
report checks, the guard's walk (a `class Lab` whose `Walk` updates its tiles, position and
heading), the disk compaction, the dial counters and the greedy battery choice. The functional
definitions carry the lemmas that state what each puzzle promises. Pure iterator chains are
functions.

The source's `expect` and `unwrap` panics on malformed input become `Err` or `None` results.
The fixed-width integer types of the source bound every parse: `u32`, `u64`, `i32`, `u16` and
`u8` parse only values within their range. The arithmetic of the sums is unbounded (see
"Left out").

## Model

| member | source | states |
|---|---|---|
| Text.Lines | src/year2024/day01.rs:6 | `str::lines`: no line holds a newline, and only the empty text has no lines |
| Text.LinesAreSplitPieces | src/year2024/day01.rs:6 | without carriage returns, the lines are the newline-separated pieces with a final empty piece dropped |
| Text.StripCr | src/year2024/day01.rs:6 | a line loses at most one trailing carriage return |
| Text.Split | src/year2023/day01.rs:14 | splitting on a separator gives one more piece than there are separators, and no piece holds one |
| Text.JoinSplit | src/year2023/day01.rs:14 | joining the pieces with the separator gives back the text |
| Text.NonEmptyMembers | src/year2025/day01.rs:24-26 | filtering out empty pieces keeps exactly the non-empty ones |
| Text.SplitOnce | src/year2024/day01.rs:7 | `split_once`: the halves around the first occurrence of the pattern, or `None` when it does not occur |
| Text.SplitOnceAt | src/year2024/day05.rs:18 | a pattern whose first character is not in the front part splits right after that part |
| Text.SplitWhitespace | src/year2024/day02.rs:31 | `split_whitespace` yields only non-empty words without whitespace |
| Text.SplitWhitespaceJoin | src/year2024/day02.rs:31 | words joined by single spaces split back into the same words |
| Text.Remove | src/year2024/day04.rs:12 | `replace("\n", "")` leaves no newline |
| Text.RemoveAppend | src/year2024/day04.rs:12 | removing a character distributes over concatenation |
| Text.ConcatLines | src/year2024/day04.rs:4-12 | the lines concatenated are the text with its newlines removed |
| Decimal.Digits | src/year2024/day07.rs:30 | the decimal digits of a number: no leading zero, and their value is the number |
| Decimal.DigitsOfValue | src/year2024/day07.rs:30 | digits without a leading zero are the digits of their value |
| Decimal.ValueAppend | src/year2024/day07.rs:30 | the value of two digit strings side by side is the first shifted by the second's length plus the second |
| Decimal.ToString | src/year2024/day07.rs:30 | `format!("{n}")`: as many digit characters as the number has digits, reading back the number's digits |
| Decimal.ParseUnsigned | src/year2024/day01.rs:9-10 | `str::parse` for an unsigned type: a result never exceeds the type's maximum |
| Decimal.DecimalDigitsMeaning | src/year2024/day01.rs:9-10 | a digit string is read exactly when it is non-empty and all digits, and then gives its value |
| Decimal.ParseInRange | src/main.rs:25-26 | printing a number and parsing it back gives the number when it fits the type, and an error otherwise |
| Decimal.ParsePadded | src/main.rs:117-118 | leading zeros do not change the parsed value |
| Decimal.ParseToString | src/year2024/day07.rs:56 | a printed number within range parses back to itself |
| Decimal.ParseConcatenation | src/year2024/day07.rs:30 | parsing two printed numbers side by side gives the first times ten to the length of the second, plus the second |
| Decimal.ParseAll | src/year2024/day02.rs:32-34 | `collect::<Result<_,_>>`: succeeds exactly when every word parses, keeping each word's value in order |
| Decimal.ParseAllRoundTrip | src/year2024/day02.rs:31-34 | numbers printed and joined by spaces parse back to the same numbers |
| Decimal.Atoi | src/year2025/day01.rs:9 | the `atoi` crate: a result lies within the target type's range, and is read only from text that starts with a digit or a sign |
| Decimal.AtoiLoneSign | src/year2025/day01.rs:9 | a sign with no digit after it reads as 0, not as an error |
| Decimal.AtoiToBytes | src/year2025/day01.rs:9 | a printed number in range, followed by a non-digit, reads back as the number |
| Decimal.DigitRun | src/year2025/day02.rs:32-33 | the length of the leading run of digit bytes |
| RowMajor.Index | src/year2024/day04.rs:24 | `y * width + x` lies inside the grid for a cell inside the grid |
| RowMajor.Coordinates | src/year2024/day06.rs:30-31 | division and remainder by the width recover the row and the column of an index |
| RowMajor.RowsDown | src/year2024/day04.rs:39 | stepping by the width moves one row down in the same column |
| CalibrationDigits.DroppedFinalDigit | src/year2023/day01.rs:8 | on "1abc2" without a final newline the parse drops the 2: part one gives 11, not 12 |
| CalibrationDigits.ParseKeepsContent | src/year2023/day01.rs:6-8 | the corrected parse removes only a final newline and keeps every other byte in place |
| CalibrationDigits.ParsesAgreeOnNewline | src/year2023/day01.rs:6-8 | on input ending with a newline, the corrected parse and the parse as written agree |
| CalibrationDigits.FirstDigitSpec | src/year2023/day01.rs:16-19 | no first digit exactly when the line has no digit; otherwise it is the value of a digit with no digit before it |
| CalibrationDigits.LastDigitSpec | src/year2023/day01.rs:20-24 | no last digit exactly when the line has no digit; otherwise it is the value of a digit with no digit after it |
| CalibrationDigits.Value1 | src/year2023/day01.rs:26 | a line's value is at most 99 |
| CalibrationDigits.Part1 | src/year2023/day01.rs:11-29 | part one is at most 99 for each line, and there is one line more than there are newlines |
| CalibrationDigits.SingleLine | src/year2023/day01.rs:11-28 | part one of a text without newlines is the value of its only line |
| CalibrationDigits.DigitWords | src/year2023/day01.rs:32-42 | nine words, the k-th standing for k + 1, none shorter than three letters |
| CalibrationDigits.WordStarting | src/year2023/day01.rs:60-62 | `None` exactly when no word of the table starts the text; otherwise the value of a word that does |
| CalibrationDigits.WordEnding | src/year2023/day01.rs:82-84 | `None` exactly when no word of the table ends the text; otherwise the value of a word that does |
| CalibrationDigits.LeftFromSpec | src/year2023/day01.rs:48-68 | the left digit is that of the first position where a digit or digit word begins, and is absent when none does |
| CalibrationDigits.RightToSpec | src/year2023/day01.rs:70-90 | the right digit is that of the last position where a digit or digit word ends, and is absent when none does |
| CalibrationDigits.LeftDigit | src/year2023/day01.rs:48-68 | the first loop of part two finds the left digit |
| CalibrationDigits.RightDigit | src/year2023/day01.rs:70-90 | the second loop of part two finds the right digit |
| CalibrationDigits.LeftIffRight | src/year2023/day01.rs:48-90 | a line has a left digit exactly when it has a right one |
| CalibrationDigits.NoWordsSameAsPart1 | src/year2023/day01.rs:47-92 | on a line with a digit and no digit word, part two gives the same value as part one |
| CalibrationDigits.Value2 | src/year2023/day01.rs:92 | a line's part-two value is at most 99 |
| CalibrationDigits.SumValues2 | src/year2023/day01.rs:44-94 | the sum exists exactly when every line has a digit or a digit word (the source's loops run off the line otherwise) |
| CalibrationDigits.Part2 | src/year2023/day01.rs:31-95 | the method computes the sum of the lines' part-two values |
| LocationLists.ParseLines | src/year2024/day01.rs:5-23 | succeeds exactly when every line is two `u32` numbers around three spaces; the lists hold the left and right numbers in line order |
| LocationLists.Parse | src/year2024/day01.rs:5-23 | the same, over the lines of the input |
| LocationLists.ParsePairRoundTrip | src/year2024/day01.rs:7-10 | a line printed from two `u32` numbers parses back to them |
| LocationLists.SortedOf | src/year2024/day01.rs:27-28 | `sort`: sorted and a permutation of its input |
| LocationLists.SortedUnique | src/year2024/day01.rs:27-28 | two sorted permutations of each other are equal, so the sort result is determined |
| LocationLists.TotalDistanceProperties | src/year2024/day01.rs:25-35 | the total distance does not depend on the order of either list, and is symmetric in the two lists |
| LocationLists.TotalDistanceZero | src/year2024/day01.rs:25-35 | for lists of equal length, the total distance is zero exactly when the lists hold the same numbers |
| LocationLists.DistanceSumZero | src/year2024/day01.rs:30-33 | the zipped distance sum of equal-length lists is zero exactly when the lists are equal |
| LocationLists.Part1 | src/year2024/day01.rs:25-35 | the method computes the total distance of the sorted lists |
| LocationLists.SumDistances | src/year2024/day01.rs:30-33 | the loop sums `abs_diff` over the zipped lists |
| LocationLists.Occurrences | src/year2024/day01.rs:39-46 | the map's keys are the right list's numbers, each mapped to its number of occurrences |
| LocationLists.SimilaritySymmetric | src/year2024/day01.rs:36-52 | the similarity score is symmetric in the two lists |
| LocationLists.Part2 | src/year2024/day01.rs:36-52 | the method computes the similarity score |
| ReportSafety.IsSafe | src/year2024/day02.rs:7-20 | the method decides `Safe`: all steps go the same way, each by 1 to 3 |
| ReportSafety.MixedIsUnsafe | src/year2024/day02.rs:11-14 | a report with one rising and one falling step is unsafe |
| ReportSafety.SteepIsUnsafe | src/year2024/day02.rs:16-18 | a report with a step of 0 or more than 3 is unsafe |
| ReportSafety.SafeIsMonotone | src/year2024/day02.rs:7-20 | a safe report is strictly monotone in the direction of its steps |
| ReportSafety.ShortIsSafe | src/year2024/day02.rs:9 | a report with fewer than two levels is safe |
| ReportSafety.Dampened | src/year2024/day02.rs:53-64 | the method decides whether some report with one level removed is safe |
| ReportSafety.SafeIsDampenedSafe | src/year2024/day02.rs:53-64 | a non-empty safe report stays safe with one level removed |
| ReportSafety.Part1AtMostPart2 | src/year2024/day02.rs:41-67 | on non-empty reports, part one counts no more than part two |
| ReportSafety.Part1 | src/year2024/day02.rs:41-48 | the method counts the safe reports |
| ReportSafety.Part2 | src/year2024/day02.rs:49-67 | the method counts the reports made safe by removing one level |
| ReportSafety.ParseReports | src/year2024/day02.rs:25-39 | succeeds exactly when every word of every line parses as a `u32`; each report holds its line's numbers |
| WordSearch.Parse | src/year2024/day04.rs:3-13 | the letters are the input without newlines, the width is the first line's length and the height the number of lines; an input with no line is an error |
| WordSearch.ParseRectangular | src/year2024/day04.rs:3-13 | equally long lines parse to a rectangle of `width` by `height` letters |
| WordSearch.CellCountIsOccurrences | src/year2024/day04.rs:26-73 | the guarded slices and `step_by` reads of a cell count the runs spelling XMAS or SAMX that start there |
| WordSearch.StridedRun | src/year2024/day04.rs:36-66 | reading every `width + dx`-th letter walks one row down and `dx` columns over |
| WordSearch.Part1CountsRuns | src/year2024/day04.rs:15-76 | part one is the total over all cells of the runs starting there |
| WordSearch.Part1 | src/year2024/day04.rs:15-76 | part one counts at most four occurrences per cell, one for each direction scanned |
| WordSearch.XOffsets | src/year2024/day04.rs:84-106 | the four signed offsets reach the diagonal neighbours of an interior cell |
| WordSearch.XCountIsXMas | src/year2024/day04.rs:92-116 | a cell counts exactly when it is an A with M and S on both diagonals |
| WordSearch.Part2CountsXMas | src/year2024/day04.rs:78-119 | part two is the number of X-MAS centres among interior cells, at most their number |
| WordSearch.Part2 | src/year2024/day04.rs:78-119 | part two is at most the number of interior cells, the only cells that can centre an X |
| PageOrdering.IsValidMeaning | src/year2024/day05.rs:58-70 | a page is valid after the earlier pages unless it is a rule's first page and the rule's second page came earlier |
| PageOrdering.ValidListIffNotInverted | src/year2024/day05.rs:45-55 | a list without duplicates satisfies a rule exactly when the rule's pages are not in inverted order |
| PageOrdering.InOrderForRule | src/year2024/day05.rs:74-88 | checking one rule page by page is the same as the rule's pages not being inverted |
| PageOrdering.InOrderIffAllValid | src/year2024/day05.rs:45-88 | for updates without duplicates, the page-by-page check agrees with checking every rule on the whole list |
| PageOrdering.ValidOrder | src/year2024/day05.rs:74-88 | the method decides whether the update is in order |
| PageOrdering.FirstFailing | src/year2024/day05.rs:97 | `None` exactly when every rule holds; otherwise a rule of the list that fails |
| PageOrdering.ToFixed | src/year2024/day05.rs:90-115 | a repaired update is a permutation of the update that satisfies every rule |
| PageOrdering.RepairIsInOrder | src/year2024/day05.rs:90-115 | a repaired update without duplicates passes the page-by-page check |
| PageOrdering.Middle | src/year2024/day05.rs:117-120 | the middle page: an element with as many pages after it as before it, or one fewer |
| PageOrdering.OutOfOrderMembers | src/year2024/day05.rs:137 | part two keeps exactly the updates that are not in order |
| PageOrdering.Part1 | src/year2024/day05.rs:123-131 | the method sums the middle pages of the updates in order |
| PageOrdering.Part2 | src/year2024/day05.rs:133-141 | the result is the sum of the middle pages of repairs of exactly the out-of-order updates |
| PageOrdering.ParseRuleRoundTrip | src/year2024/day05.rs:18-22 | a rule printed as `a\|b` parses back to itself |
| PageOrdering.ParseRules | src/year2024/day05.rs:15-24 | succeeds exactly when every line is a rule, keeping the rules in order |
| PageOrdering.ParseUpdates | src/year2024/day05.rs:26-36 | succeeds exactly when every line is comma-separated `u32` numbers, and every update holds the numbers of its line |
| PageOrdering.Parse | src/year2024/day05.rs:12-42 | an input without a blank line is an error |
| GuardPatrol.TurnRight | src/year2024/day06.rs:43-51 | a right turn changes the heading, and a left turn undoes it |
| GuardPatrol.Step | src/year2024/day06.rs:29-38 | the next cell exists exactly when the step stays on the map, and is one step in the heading's direction |
| GuardPatrol.NextPositionIsStep | src/year2024/day06.rs:29-38 | `get_next_position` on indices is the step on coordinates |
| GuardPatrol.WalkTurns | src/year2024/day06.rs:43-51 | facing an obstruction, the walk turns right and goes on |
| GuardPatrol.WalkMoves | src/year2024/day06.rs:54-60 | facing a free cell not yet entered with this heading, the walk marks it visited and moves there |
| GuardPatrol.WalkFrom | src/year2024/day06.rs:40-64 | the walk changes no tile except empty ones, which it marks visited |
| GuardPatrol.WalkEnds | src/year2024/day06.rs:40-64 | every walk ends by leaving the map, by a loop, or boxed in on all four sides |
| GuardPatrol.BoxedIn | src/year2024/day06.rs:43-51 | four blocked turns mean every heading is blocked |
| GuardPatrol.Lab.Walk | src/year2024/day06.rs:40-64 | the method's outcome and final state are those of the walk from the starting state |
| GuardPatrol.Lab.Clone | src/year2024/day06.rs:103 | a fresh lab with the same tiles, position and heading |
| GuardPatrol.Part1Of | src/year2024/day06.rs:102-110 | the number of visited cells is between 1 and the map's size |
| GuardPatrol.Part1 | src/year2024/day06.rs:102-110 | the method counts the cells the walk visits |
| GuardPatrol.ObstructionOffPath | src/year2024/day06.rs:112-132 | an obstruction on a tile the walk never reaches leaves its outcome and its marked tiles unchanged |
| GuardPatrol.TrialsArePlacements | src/year2024/day06.rs:115-131 | when the guard leaves the map, trying only the visited tiles counts the same as trying every free tile |
| GuardPatrol.Part2CountsPlacements | src/year2024/day06.rs:112-132 | part two is the number of free tiles, start excluded, whose obstruction traps the guard, whenever the unobstructed guard leaves the map |
| GuardPatrol.Part2BelowPart1 | src/year2024/day06.rs:112-132 | the number of loop-causing obstructions is smaller than the number of visited cells |
| GuardPatrol.TrialsBound | src/year2024/day06.rs:112-132 | trials happen only on visited cells other than the start |
| GuardPatrol.Trial | src/year2024/day06.rs:124-129 | the method walks with one extra obstruction and reports that walk's outcome |
| GuardPatrol.CountLoops | src/year2024/day06.rs:115-131 | the method counts the visited cells whose obstruction makes the walk loop |
| GuardPatrol.Part2 | src/year2024/day06.rs:112-132 | the method computes part two's count of loop-causing obstructions |
| GuardPatrol.TileOfChars | src/year2024/day06.rs:76-82 | `.`, `#` and `^` are the only tiles, `#` an obstruction and `^` the start |
| GuardPatrol.ScanTiles | src/year2024/day06.rs:67-100 | the tiles of the input's characters, and the position of its last `^` |
| GuardPatrol.TilesOfLength | src/year2024/day06.rs:74-91 | in a text of tiles and line breaks, every character but the line breaks gives one tile |
| GuardPatrol.ShapedTiles | src/year2024/day06.rs:67-91 | a map of equally wide lines holds exactly width times height tiles |
| GuardPatrol.Parse | src/year2024/day06.rs:67-100 | a lab facing north at the last `^`, with the input's tiles and dimensions, valid for a map of equally wide lines; an error without lines or without a start |
| BridgeRepair.ConcatenateParses | src/year2024/day07.rs:30 | concatenating by printing and parsing gives the shifted sum |
| BridgeRepair.ExtendMembers | src/year2024/day07.rs:21-22 | one more factor of the product prepends each operator to each combination |
| BridgeRepair.ProductsSound | src/year2024/day07.rs:21-22 | `multi_cartesian_product` yields combinations of the right length, drawn from the operators |
| BridgeRepair.ProductsComplete | src/year2024/day07.rs:21-22 | every combination of the operators of that length is yielded |
| BridgeRepair.AnyMatches | src/year2024/day07.rs:23-34 | true exactly when some candidate's fold gives the result |
| BridgeRepair.EvaluateLeftToRight | src/year2024/day07.rs:24-31 | `Evaluate`, the fold, works strictly left to right: the last operator applies to the value of everything before it, with no precedence of `*` over `+` |
| BridgeRepair.SearchDecides | src/year2024/day07.rs:19-34 | the search over the product of the operators finds a match exactly when some operator choice evaluates to the result |
| BridgeRepair.HasValidEquation | src/year2024/day07.rs:18-35 | true exactly when some choice of operators, one between each pair of neighbouring numbers, evaluates to the result |
| BridgeRepair.MoreOperators | src/year2024/day07.rs:18-35 | a solvable equation stays solvable with more operators |
| BridgeRepair.CalibrationSolvable | src/year2024/day07.rs:64-86 | the calibration sums the results of exactly the solvable equations |
| BridgeRepair.Part1 | src/year2024/day07.rs:64-71 | the sum of the results of exactly the equations that some choice of `+` and `*` solves |
| BridgeRepair.Part2 | src/year2024/day07.rs:73-86 | the sum of the results of exactly the equations that some choice of `+`, `*` and `||` solves |
| BridgeRepair.Part1AtMostPart2 | src/year2024/day07.rs:64-86 | part one's total is at most part two's |
| BridgeRepair.CalibrationBound | src/year2024/day07.rs:64-86 | the calibration is at most the sum of all results |
| BridgeRepair.ParseEquation | src/year2024/day07.rs:45-58 | a line without `: ` is an error |
| BridgeRepair.ParseEquationRoundTrip | src/year2024/day07.rs:44-58 | an equation printed as `result: n1 n2 ...` parses back to itself |
| BridgeRepair.ParseEquations | src/year2024/day07.rs:40-62 | succeeds exactly when every line parses, keeping the equations in order |
| Antinodes.GridCellsMembers | src/year2024/day08.rs:18-27 | the scanned cells are exactly the non-`.` characters with their coordinates |
| Antinodes.Group | src/year2024/day08.rs:28-33 | every frequency maps to the positions of its antennas in scan order, and only present frequencies have an entry |
| Antinodes.Parse | src/year2024/day08.rs:15-40 | the grid's dimensions are those of the lines, and the antennas are grouped by frequency; no lines means no grid |
| Antinodes.ParsedAntennas | src/year2024/day08.rs:15-40 | a position is listed for a frequency exactly when that character is there, and the list is in reading order |
| Antinodes.PairsMembers | src/year2024/day08.rs:45-49 | the pairs are the antennas at two indices in increasing order |
| Antinodes.Distance | src/year2024/day08.rs:47 | the first antenna plus the distance is the second |
| Antinodes.HitsMembers | src/year2024/day08.rs:50-53 | a pair emits exactly the in-bounds points at the chosen multiples of its distance |
| Antinodes.AntinodesOf | src/year2024/day08.rs:43-74 | every point a frequency emits lies inside the map |
| Antinodes.AntinodesOfMeaning | src/year2024/day08.rs:43-74 | a point is an antinode exactly when some pair of antennas emits it |
| Antinodes.LoneAntennaNoAntinodes | src/year2024/day08.rs:43-74 | a frequency with one antenna has no antinode |
| Antinodes.AntennasAreAntinodes | src/year2024/day08.rs:57-74 | in part two every antenna of a pair is an antinode |
| Antinodes.AntinodesInBounds | src/year2024/day08.rs:77-92 | every counted antinode lies inside the grid |
| Antinodes.AntinodesFitMap | src/year2024/day08.rs:77-92 | the distinct antinodes are cells of the map, so there are at most width times height of them |
| Antinodes.Part1 | src/year2024/day08.rs:77-84 | part one counts distinct antinodes, at most one per cell of the map |
| Antinodes.Part2 | src/year2024/day08.rs:85-92 | part two counts distinct antinodes, at most one per cell of the map |
| Antinodes.Part1WithinPart2 | src/year2024/day08.rs:77-92 | part one's antinodes are among part two's, so part one is at most part two |
| DiskCompaction.Parse | src/year2024/day09.rs:3-21 | the disk is as long as the sum of the digits; an error without a line or with a non-digit |
| DiskCompaction.BlockAtFile | src/year2024/day09.rs:8-17 | even positions of the map are files, numbered by half their position |
| DiskCompaction.ExpandFileSize | src/year2024/day09.rs:8-17 | each file has as many blocks as its digit says |
| DiskCompaction.FirstFree | src/year2024/day09.rs:30-32 | the first free block, with only file blocks before it |
| DiskCompaction.LastFile | src/year2024/day09.rs:33-36 | the last file block, with only free blocks after it |
| DiskCompaction.CompactPermutes | src/year2024/day09.rs:24-45 | compaction keeps the disk's length and its blocks |
| DiskCompaction.CompactCompacted | src/year2024/day09.rs:24-45 | after compaction no free block precedes a file block |
| DiskCompaction.SkipFiles | src/year2024/day09.rs:30-32 | the scan from the left stops at the first free block |
| DiskCompaction.SkipFree | src/year2024/day09.rs:33-36 | the scan from the right stops at the last file block |
| DiskCompaction.SwapStep | src/year2024/day09.rs:38 | moving the last file block into the first free block keeps the compaction result |
| DiskCompaction.SwapTwice | src/year2024/day09.rs:38-42 | the swap after the scans cross undoes the last swap |
| DiskCompaction.Crossed | src/year2024/day09.rs:38-44 | once the scans cross, the disk is compacted and no file block has moved away from a place it held |
| DiskCompaction.Defragment | src/year2024/day09.rs:24-45 | the loop computes the compaction: same length and blocks, compacted, file blocks already in place stay |
| DiskCompaction.ChecksumUpdate | src/year2024/day09.rs:96-102 | each file block adds its id times its position to the checksum |
| DiskCompaction.ChecksumFree | src/year2024/day09.rs:96-102 | free blocks add nothing to the checksum |
| DiskCompaction.Part1 | src/year2024/day09.rs:105-107 | part one is the checksum of the compacted disk |
| DialRotation.TryParseRotation | src/year2025/day01.rs:7-16 | `L` negates and `R` keeps the number read after the letter; anything else, or no number, is an error; every rotation read fits an `i32`, and a left turn by `i32::MIN` is an error |
| DialRotation.MinimumAmount | src/year2025/day01.rs:7-16 | an amount of `i32::MIN` is the rotation `i32::MIN` to the right, and an error to the left, where its negation does not fit |
| DialRotation.RotationRoundTrip | src/year2025/day01.rs:7-16 | a printed rotation parses back to itself |
| DialRotation.ParseRotations | src/year2025/day01.rs:20-30 | succeeds exactly when every line parses, keeping the rotations in order |
| DialRotation.ParseSkipsEmptyLines | src/year2025/day01.rs:24-26 | empty lines before or after the rotations are skipped |
| DialRotation.Landings | src/year2025/day01.rs:32-43 | part one counts at most one landing per rotation |
| DialRotation.Part1 | src/year2025/day01.rs:32-43 | the method counts the rotations after which the dial shows 0 |
| DialRotation.ClicksNoUnderflow | src/year2025/day01.rs:74-76 | leaving 0 to the left, the floor difference is at least 1, so the correction cannot underflow |
| DialRotation.ClicksArePasses | src/year2025/day01.rs:56-76 | the floor arithmetic with the two corrections counts exactly the positions passing 0 during the rotation |
| DialRotation.HitsAreFloors | src/year2025/day01.rs:56-58 | the multiples of 100 in a half-open range are a difference of floors |
| DialRotation.Part2 | src/year2025/day01.rs:46-81 | the method totals the clicks through 0 |
| DialRotation.LandingsAtMostClicks | src/year2025/day01.rs:32-81 | without zero rotations, part one is at most part two |
| DialRotation.ZeroRotationLandsWithoutClick | src/year2025/day01.rs:32-81 | a zero rotation on 0 lands without clicking, so the bound needs non-zero rotations |
| DialRotation.ClickExamples | src/year2025/day01.rs:126-132 | from 50, `L150` clicks twice, and `R50` and `L50` click once |
| DialRotation.ClickChainExample | src/year2025/day01.rs:115-123 | from 50, `L26`, `L24`, `L122` click twice in all |
| DoubledIds.Ids | src/year2025/day02.rs:12-14 | the inclusive range's ids in order, none when the start exceeds the end |
| DoubledIds.IdsBetween | src/year2025/day02.rs:12-14 | an id is in the range exactly when it lies between the bounds |
| DoubledIds.HalvesDecide | src/year2025/day02.rs:53-57 | for an even number of digits, the high half equals the low half exactly when the id's digits are one digit string written twice |
| DoubledIds.Doubled | src/year2025/day02.rs:45-58 | the filter keeps exactly the ids whose digits are one digit string written twice |
| DoubledIds.OddLengthIsValid | src/year2025/day02.rs:46-50 | an id with an odd number of digits is never a doubled id |
| DoubledIds.TwiceIsDoubled | src/year2025/day02.rs:46-57 | a number written twice is a doubled id |
| DoubledIds.RepeatedSumAppend | src/year2025/day02.rs:44-59 | the sum of the repeated ids over two lists is the sum over each |
| DoubledIds.Part1 | src/year2025/day02.rs:40-60 | the sum, over every range's ids in turn, of exactly the ids whose digits are one digit string written twice |
| DoubledIds.Part1Append | src/year2025/day02.rs:40-60 | part one over two lists of ranges is the sum over each |
| DoubledIds.SingleIdRange | src/year2025/day02.rs:40-60 | a one-id range contributes the id exactly when its digits repeat twice |
| DoubledIds.ParseRange | src/year2025/day02.rs:23-35 | a piece without a dash is not a range |
| DoubledIds.ParseRangeRoundTrip | src/year2025/day02.rs:23-35 | a range printed as `start-end` parses back to itself |
| DoubledIds.ParseRanges | src/year2025/day02.rs:19-38 | succeeds exactly when every comma-separated piece parses, keeping the ranges in order |
| DoubledIds.Parse | src/year2025/day02.rs:19-38 | one range per comma-separated piece |
| BatteryBanks.ArgMaxIsFirstGreatest | src/year2025/day03.rs:14-21 | the fold finds the largest digit of the window, at its first occurrence |
| BatteryBanks.PickIncreasing | src/year2025/day03.rs:8-27 | the chosen battery positions increase and stay on the bank |
| BatteryBanks.GetJoltage | src/year2025/day03.rs:8-27 | the loop's joltage is the value of the greedily chosen digits |
| BatteryBanks.CompleteIsChosen | src/year2025/day03.rs:11-25 | the loop's digits, appended to the taken ones, are the greedy choice |
| BatteryBanks.Joltage | src/year2025/day03.rs:8-27 | the joltage has at most as many digits as batteries are turned on |
| BatteryBanks.GreedyIsMaximal | src/year2025/day03.rs:8-27 | no increasing choice of positions reads lexicographically higher than the greedy one |
| BatteryBanks.JoltageIsMaximum | src/year2025/day03.rs:8-27 | the joltage is the largest value of any increasing choice of n batteries |
| BatteryBanks.TiesGoLeft | src/year2025/day03.rs:14-21 | among equal largest digits, the first is chosen |
| BatteryBanks.TotalSnoc | src/year2025/day03.rs:37-38 | one more bank adds its joltages to both totals |
| BatteryBanks.Reduce | src/year2025/day03.rs:37-38 | `reduce` is `None` on no banks, and otherwise the two totals |
| BatteryBanks.BankLines | src/year2025/day03.rs:34-36 | empty lines are skipped; none remain exactly when all lines are empty |
| BatteryBanks.ParseLines | src/year2025/day03.rs:30-41 | the parse gives the totals of both joltages over the non-empty lines, and `None` when there are none |
| Dates.TryFrom | src/main.rs:111-122 | a date converted from a module name has a `u16` year and a `u8` day |
| Dates.ParseNeedsNumeral | src/main.rs:117-118 | only an optional `+` followed by digits parses |
| Dates.TryFromNames | src/main.rs:114-121 | a prefix of four and three characters, then numbers, gives that date when both fit their types, and an error otherwise |
| Dates.TryFromRejects | src/main.rs:117-118 | a name whose rest is not a number gives an error |
| Dates.TryFromModuleName | src/main.rs:69-71 | the name `year2024`, `dayNN` converts to day NN of 2024 |
| Dates.TryFromExample | src/main.rs:84 | `year2024`, `day05` is 5 December 2024 |
| Dates.Registered | src/main.rs:68-74 | registration succeeds exactly when every name converts, keeping the dates in order |
| Dates.RegisteredDates | src/main.rs:78-106 | the registered solutions are for 1 to 25 December 2024, in order |
| Dates.Find | src/main.rs:29-32 | `find`: `None` exactly when the date is not registered; otherwise the first matching index |
| Dates.Request | src/main.rs:16-37 | a missing year or day is reported as missing, and a found solution is for a date in range |
| Dates.RequestNotNumber | src/main.rs:24-27 | an argument that is not a number is reported as such, the year first |
| Dates.RequestOutOfRange | src/main.rs:24-27 | a year above `u16` or a day above `u8` is not a number |
| Dates.RequestNumbers | src/main.rs:24-32 | two numbers in range find the first registration of their date, and fail only for want of a solution |
| Dates.RequestRegistered | src/main.rs:16-37 | with the registered dates, a request succeeds exactly for 1 to 25 December 2024 |

## Left out

- Reading the input file, timing, printing results and the `solution!` macro's closures: I/O, not modelled. `main` is modelled from its argument strings to the index of the solution it would run.
- `src/year2024/day03.rs` and the other registered days (10 to 25) are not part of this model.
- `rayon`'s parallel iteration (2024 day 7 part two) is modelled sequentially; the sum does not depend on the order.
- The `println!` and `dbg!` output in 2024 day 5 is not modelled.
- The sums are unbounded integers: the source's `u32`/`u64` overflow of a total (a panic in debug builds, wrap-around in release builds) is not modelled.
- Numbers beyond `u64` that `format!("{acc}{num}").parse()` would reject in 2024 day 7 are not modelled as a panic; concatenation is always the shifted sum.
- DialRotation.TryParseRotation: in the source `-amount` on an amount of `i32::MIN` overflows, a panic in debug builds and `i32::MIN` again in release builds; the model makes it an error, so the release-build value is not modelled.
- DialRotation.Part1 and DialRotation.Part2: the dial is an unbounded integer; the overflow of the source's `i32` `dial += rotation` after many turns in one direction is not modelled.
- DialRotation.Part2: the source computes the floor with `f32` division and `floor`; the model uses exact floor division, which agrees while the dial's magnitude stays within `f32`'s exact integer range.
- PageOrdering.ToFixed: the source's repair loop may not terminate when the rules are cyclic, so the model takes a fuel bound and returns `None` when it runs out.
- GuardPatrol.Lab.Walk: a guard blocked on all four sides spins forever in the source; the model stops with the outcome `Boxed`, and part one and part two return `None` then.
- GuardPatrol.Part2 requires a valid lab, with width times height tiles. GuardPatrol.Parse gives one for a map of '.', '#' and '^' in lines as wide as the first. Ragged maps, and maps holding other characters such as '\r', are not modelled. On those the source walks a sheared grid or indexes past its tiles. The equality with the count over every free tile (GuardPatrol.Part2CountsPlacements) is proved only when the unobstructed guard leaves the map. When it loops instead, every obstruction off its path also loops, yet the source does not count those.
- GuardPatrol.Part1 requires a valid lab, as GuardPatrol.Part2 does.
- The sample-input tests are not proved as concrete results, except the dial examples of 2025 day 1.
- 2025 day 2 `part2` returns the constant 0 and 2024 day 9 `part2` panics (`to_defragmented_files` is unfinished): not modelled.
- DiskCompaction.Defragment works on a sequence rather than in place on the vector, so aliasing of the vector is not modelled; it requires at least one file block and one free block, where the source's indices would otherwise run off the disk or underflow.
- BatteryBanks.Parse requires every non-empty line to be digits and at least 12 long: the source computes with non-digit bytes as digits, and a shorter line underflows `len - digit`.
- WordSearch.Part1 requires a grid of at least 4 by 4 (or an empty one), and WordSearch.Part2 a non-empty grid: the source's `width - 4` and `height - 1` underflow otherwise.
- WordSearch.Part1 and WordSearch.Part2 also require `Rectangular`, exactly width times height letters. WordSearch.ParseRectangular establishes it for a text whose lines are all as long as the first and which holds no carriage return. Ragged lines, and CRLF input, are not modelled. With CRLF input, `lines()` leaves the '\r' out of the width while `replace` keeps it in the grid.
- Part1CountsRuns holds only for a `Rectangular` grid, for the same reason as WordSearch.Part1.
- Part2CountsXMas holds only for a `Rectangular` grid, for the same reason as WordSearch.Part2.
- PageOrdering.Part2 and PageOrdering.Part1 require non-empty updates: `get_middle` indexes an empty update.
- DoubledIds.Part1 requires that no range contains the id 0: `ilog10` panics on 0.
- Dates: strings are character sequences, while the source slices bytes; for ASCII module names the two agree, and a slice inside a multi-byte character (a panic in the source) is not modelled.
- GuardPatrol.Parse takes the width as the first line's length in characters, where the source's `len()` counts bytes; the two agree on ASCII maps.
- Antinodes.Parse takes the width in characters, where the source's `len()` counts bytes; the two agree on ASCII maps.
- WordSearch.Parse keeps the letters as characters, where the source slices the grid's bytes. The two agree on ASCII text. A slice through a multi-byte character, a panic in the source, is not modelled.
- Rust's `str::parse` accepts a leading `+`; the model accepts it too, and no other sign.
- SearchDecides requires at least one number in the equation. On a line such as `5: `, which parses with no numbers, the source panics on `numbers.len() - 1` and on `numbers[0]`. That panic is not modelled.
- CalibrationSolvable requires every equation to hold at least one number, for the same reason.
- BridgeRepair.HasValidEquation, BridgeRepair.Part1 and BridgeRepair.Part2 require at least one number per equation, for the same reason.
- BridgeRepair.Evaluate folds over unbounded integers, so a `u64` overflow of `acc + num` or `acc * num` inside the fold is not modelled. That overflow is a panic in debug builds and wrap-around in release builds.
- BridgeRepair.Products takes `multi_cartesian_product` of zero factors to yield one empty combination, as recent itertools versions do; older versions yield none. The itertools version is not part of this model. Under this reading, an equation of one number is valid exactly when that number is the result.

## Findings

| source | as written | input that shows it | evidently intended | confidence | as-written member | corrected member |
|---|---|---|---|---|---|---|
| src/year2023/day01.rs:6-8 | the parse drops the last byte of the input whatever it is | `1abc2` without a final newline: part one reads `1abc` and gives 11 | drop only a final newline (the comment says so), giving 12 | not executed | CalibrationDigits.DroppedFinalDigit | CalibrationDigits.ParseKeepsContent |
