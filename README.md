# Advent of Code 2025, days 1 to 7, in Dafny

This project models the puzzle solutions of days 1 to 7 in `src/bin/`, one
Dafny module per day, and proves what the solutions promise about their
results.

- `Dial` (day 1) models the safe dial on positions 0 to 99. Rotations `L<n>`
  and `R<n>` turn the dial, and two counters track zeros.
- `InvalidIds` (day 2) models the gift-shop ranges. `lo-hi` ranges are
  separated by commas. An invalid id is one whose decimal form is a block of
  digits written twice.
- `Joltage` (day 3) models the battery banks. The greedy choice of `k`
  digits spells the largest `k`-digit number the bank allows.
- `PaperGrid` (day 4) models the grid of paper rolls. One pass marks every
  roll with fewer than four occupied neighbours as accessible. The driver
  repeats passes until one marks nothing.
- `Freshness` (day 5) models the ingredient database. Ranges of fresh ids
  come first, then a blank line, then the ids to check.
- `Worksheet` (day 6) models the maths worksheet read in two ways. Human mode
  reads words in columns. Cephalopod mode reads digits in character columns,
  right to left.
- `Manifold` (day 7) models the tachyon manifold. A table of parts is parsed
  from `S . ^ |` and displayed back.
- `Text` and `Wrappers` are shared. `Text` models the standard-library
  behaviour the solutions rely on: trimming, `split`, `split_whitespace`,
  decimal conversion and the `u64`/`i32` parsers. `Wrappers` holds `Option`
  and `Result`.

How the model represents things:

- Puzzle input is a sequence of lines, the result of `str::lines`.
- Rust integers are unbounded naturals or integers, with the 64-bit and
  32-bit parse limits written out where parsing checks them.
- A panic (from `unwrap`, `expect`, an index out of bounds or an
  `assert_eq!`) becomes a precondition.
- A loop that changes state is a `method`, proved equal to a function of its
  inputs. That function's meaning is proved in lemmas.

Where the code and its evident intent disagree, the model follows the code:

- Day 2's `Range::parse` requires strictly ordered bounds. Day 5's allows
  equal bounds.
- Day 6's column reading skips every whitespace character in a column, not
  only those after the digits.
- Day 1's second counter, `rotate_by`, miscounts left rotations. See
  Findings.

## Model

| member | source | states |
|---|---|---|
| Text.Trim | src/bin/01.rs:11 | `trim` leaves no whitespace at either end; it yields the empty string only when the input is all whitespace |
| Text.TrimUnchanged | src/bin/02.rs:10 | a string without whitespace at its ends is its own trim |
| Text.Split | src/bin/05.rs:13 | `split(sep)` gives at least one piece; no piece contains the separator |
| Text.JoinSplit | src/bin/02.rs:47 | joining the pieces of a split with the separator gives the string back |
| Text.SplitJoin | src/bin/05.rs:13 | splitting separator-free pieces joined by the separator gives the pieces back |
| Text.Words | src/bin/06.rs:34 | `split_whitespace` yields non-empty words without whitespace |
| Text.WordsKeepVisible | src/bin/06.rs:39 | the words hold exactly the non-whitespace characters of the line, in order |
| Text.DigitsValueAppend | src/bin/03.rs:41 | appending digits shifts the left part by a power of ten per digit appended |
| Text.DecimalString | src/bin/02.rs:38 | `to_string` of a number: decimal digits spelling the number, no leading zero, one digit exactly below 10 |
| Text.DecimalStringLength | src/bin/06.rs:59 | a k-digit decimal form belongs to a number in [10^(k-1), 10^k) |
| Text.ParseU64 | src/bin/05.rs:15 | `u64::from_str` succeeds exactly on an optional `+` and at least one digit with a value below 2^64, and gives that value |
| Text.ParsedU64Charset | src/bin/02.rs:10 | a string that parses as a u64 holds no whitespace, `-` or `,` |
| Text.ParseU64Decimal | src/bin/05.rs:45 | parsing the decimal form of a u64 gives the number back |
| Text.ParseI32 | src/bin/01.rs:18 | `i32::from_str` succeeds exactly on `-` and digits up to 2^31, or an optional `+` and digits up to 2^31 - 1; it gives the digits' value, negated after `-`, always in the i32 range |
| Text.ParseI32Negative | src/bin/01.rs:18 | `-` followed by the decimal form of t parses as -t, for every t down to the i32 minimum |
| Text.ParseI32SignsOnly | src/bin/01.rs:18 | a sign alone, or two signs, is not an i32 |
| Text.ParseI32Decimal | src/bin/01.rs:18 | parsing the decimal form of a non-negative i32 gives it back |
| Dial.ParseRotation | src/bin/01.rs:10-25 | an empty trimmed line, another first letter or a bad i32 gives None; otherwise the letter chooses the direction and the rest is the turn count |
| Dial.ParseShowRotation | src/bin/01.rs:10-25 | parsing a written rotation gives it back |
| Dial.RotateBy | src/bin/01.rs:44-58 | the new position is in 0..99 and the counter never decreases |
| Dial.RotateByWholeTurns | src/bin/01.rs:44-58 | the position moves by the displacement up to whole turns; the counter grows by the number of whole turns given up |
| Dial.RotatePosition | src/bin/01.rs:47 | the new position is the Euclidean remainder of position plus displacement |
| Dial.RotateCompose | src/bin/01.rs:44-58 | two rotations in a row move the position by the sum of their displacements |
| Dial.LeftThenRight | src/bin/01.rs:46-56 | turning left then right by the same amount restores the position |
| Dial.Run | src/bin/01.rs:81-83 | the fold of `rotate_by` over no rotations leaves the dial as it was; over some it ends at a valid position; its counter never decreases |
| Dial.ZeroStopsCounts | src/bin/01.rs:61-71 | the rotations that leave the dial on 0 are counted exactly once each, so there are at most as many as rotations |
| Dial.CountZeroPositions | src/bin/01.rs:61-71 | the loop's count equals the number of rotations after which the dial rests on 0 |
| Dial.ParseAllFromLines | src/bin/01.rs:74 | every rotation `filter_map` keeps is the parse of one of the lines |
| Dial.FilterMapSnoc | src/bin/01.rs:74 | one more line adds its own parsed value, if any, after the values of the lines before it |
| Dial.FilterMapAppend | src/bin/01.rs:74 | for any parser, `filter_map` over two blocks of lines keeps the values of the first block followed by those of the second |
| Dial.ParseAllOne | src/bin/01.rs:74 | one line gives its rotation when it parses and nothing otherwise |
| Dial.ParseAllAppend | src/bin/01.rs:74 | `filter_map` is line by line: the rotations of two blocks of lines are those of the first followed by those of the second, so every parseable line keeps its rotation, in order, whatever lines lie beside it |
| Dial.ParseAllKeepsEveryLine | src/bin/01.rs:74 | when every line parses, line j gives rotation j |
| Dial.PartOne | src/bin/01.rs:73-77 | the first answer is `Some` of the number of rests on 0 of the parsed rotations from the default dial; it is at most the number of lines |
| Dial.PartTwo | src/bin/01.rs:79-85 | the second answer as written is the number of clicks on 0 of the parsed rotations, plus the leftward rotations that start on 0, less the leftward rotations that end on 0 |
| Dial.RunMiscountsLeft | src/bin/01.rs:44-58 | over any fold from a valid dial, the counter of `rotate_by` is the clicks on 0 plus the leftward departures from 0, less the leftward landings on 0 |
| Dial.CrossingsCountClicks | src/bin/01.rs:46-56 | the closed form of multiples of 100 passed over in the direction of travel equals the click-by-click count of landings on 0 |
| Dial.RotateByMiscountsLeft | src/bin/01.rs:46-49 | right rotations add exactly the clicks on 0; left rotations miss a landing on 0 and count a departure from 0 |
| Dial.LeftLandingMissed | src/bin/01.rs:46-49 | from the default dial, `L50` rests on 0 once, yet the second answer for it is 0 |
| Dial.RotateClicking | src/bin/01.rs:44-58 | the corrected rotation moves like `rotate_by` and adds exactly the clicks that land on 0 |
| Dial.RunClicking | src/bin/01.rs:79-85 | the fold of the corrected rotation ends where the fold of `rotate_by` does; its counter grows by exactly the clicks on 0 of every rotation |
| Dial.PartTwoClicking | src/bin/01.rs:79-85 | the corrected second answer is the number of clicks on 0 of the parsed rotations from the default dial |
| Dial.ClicksCoverMovingLandings | src/bin/01.rs:79-85 | the corrected second answer counts at least every rotation that moves the dial onto 0 |
| InvalidIds.ParsedPiecesKeepAll | src/bin/02.rs:10 | when every piece is a u64, `flat_map(parse)` keeps each one, in order |
| InvalidIds.ParseRange | src/bin/02.rs:9-18 | a range parses exactly when the pieces of the trimmed input, split at `-`, that parse as u64 are two, the first below the second; any other count of them is the part-count error, and two bounds out of order are the order error |
| InvalidIds.ParseShowRange | src/bin/02.rs:9-18 | parsing a written range gives it back |
| InvalidIds.IsInvalidId | src/bin/02.rs:34-42 | no number below 10 is invalid |
| InvalidIds.InvalidIffDoubled | src/bin/02.rs:34-42 | an id is invalid exactly when it has two digits or more and its decimal form is a block written twice; an odd digit count never is |
| InvalidIds.SelectExact | src/bin/02.rs:24-32 | the selection holds every qualifying id of the interval once, in ascending order |
| InvalidIds.FindInvalidIds | src/bin/02.rs:24-32 | the loop's result holds exactly the invalid ids of `lo..=hi`, ascending, without repeats |
| InvalidIds.RangesParse | src/bin/02.rs:46-50 | range i is the parse of piece i |
| InvalidIds.AllInvalidIds | src/bin/02.rs:51 | `flat_map` lists an id exactly when it is invalid and lies in one of the ranges |
| InvalidIds.PartOne | src/bin/02.rs:45-53 | the first answer exists when every piece is a range |
| InvalidIds.PartOneZero | src/bin/02.rs:45-53 | the first answer is at least 10 per invalid id; it is 0 exactly when no range holds an invalid id |
| InvalidIds.PartTwo | src/bin/02.rs:55-57 | there is no second answer |
| Joltage.ParseBank | src/bin/03.rs:9-20 | a bank parses exactly when the trimmed line is all decimal digits; joltage i is the value of character i |
| Joltage.ParseShowBank | src/bin/03.rs:9-20 | parsing a written bank gives it back |
| Joltage.LeftmostMaxOfWindow | src/bin/03.rs:29-39 | the `reduce` over a window keeps the first of its largest digits |
| Joltage.WindowMaxIsLeftmostMaximum | src/bin/03.rs:29-39 | the chosen digit is at least every digit of the window and above every digit before it |
| Joltage.GreedyIncreasing | src/bin/03.rs:27-42 | the greedy picks are strictly increasing positions of the bank |
| Joltage.GreedyJoltageValue | src/bin/03.rs:41 | the accumulated `max_joltage * 10 + digit` is the number the picked digits spell |
| Joltage.MaxJoltage | src/bin/03.rs:22-44 | the loop returns the greedy value of the bank for the requested number of batteries |
| Joltage.GreedyOptimal | src/bin/03.rs:22-44 | no choice of k increasing positions spells a larger number than the greedy one |
| Joltage.MaxJoltageIsMaximum | src/bin/03.rs:22-44 | the greedy value is the maximum over all k-battery choices and has at most k digits |
| Joltage.TotalJoltage | src/bin/03.rs:53 | the sum over the banks stays below 10^k per bank |
| Joltage.PartOne | src/bin/03.rs:47-54 | the first answer exists, and is below 100 per bank |
| Joltage.PartTwo | src/bin/03.rs:56-63 | the second answer exists, and is below 10^12 per bank |
| PaperGrid.ParseTile | src/bin/04.rs:18-25 | `.` and `@` parse, to free and occupied; every other character is the invalid-tile error |
| PaperGrid.TileRoundTrip | src/bin/04.rs:28-36 | displaying a parsed tile gives its character back; parsing a displayed tile gives the tile back, except that the accessible `x` does not parse |
| PaperGrid.SquareDimensions | src/bin/04.rs:84-90 | in a parsed grid the width is the height |
| PaperGrid.ParseRow | src/bin/04.rs:46-49 | a row parses exactly when each character is a tile; then it has one tile per character |
| PaperGrid.ParseRows | src/bin/04.rs:44-58 | the rows parse exactly when each line is a good row of the grid's height; row k is the parse of line k; otherwise the error is that of the first bad line |
| PaperGrid.ParseGrid | src/bin/04.rs:42-60 | a grid parses exactly when every line is valid and as long as there are lines; the grid is then square, with cell (x, y) the tile of character y of line x |
| PaperGrid.NeighbourCellsExact | src/bin/04.rs:62-82 | the neighbour cells are exactly the in-bounds Moore neighbours, each once, at most eight |
| PaperGrid.CornerHasThreeNeighbours | src/bin/04.rs:62-82 | a corner of a grid of side at least 2 has three neighbours |
| PaperGrid.InteriorHasEightNeighbours | src/bin/04.rs:62-82 | an interior cell has eight neighbours |
| PaperGrid.GetNeighbours | src/bin/04.rs:62-82 | the loop returns the tiles of the neighbour cells, in offset order |
| PaperGrid.OccupiedNeighboursCounts | src/bin/04.rs:113-117 | the filtered count is the number of occupied Moore neighbours, at most eight |
| PaperGrid.CountOccupiedCells | src/bin/04.rs:113-117 | the occupied count of the tiles at distinct cells is the number of those cells that are occupied |
| PaperGrid.Next | src/bin/04.rs:105-127 | the pass's result is square, of the same size, and cell by cell the pass's decision on the original grid |
| PaperGrid.CountTrueRowsZero | src/bin/04.rs:139 | a count of marks is 0 exactly when nothing is marked |
| PaperGrid.MarkDecision | src/bin/04.rs:112-122 | a cell turns accessible exactly when it is occupied with fewer than four occupied neighbours, and then it is counted |
| PaperGrid.MarkRemovableRolls | src/bin/04.rs:105-127 | the loop's grid is the pass's result, computed from the unchanged input, and its count is the number of removable rolls |
| PaperGrid.PassChangesRemovable | src/bin/04.rs:112-122 | a cell changes exactly when it is removable, and then goes from occupied to accessible |
| PaperGrid.PassConservation | src/bin/04.rs:119-121 | the occupied count after a pass plus the number it marked is the occupied count before |
| PaperGrid.ZeroPassIsFixpoint | src/bin/04.rs:139 | a pass that marks nothing leaves the grid unchanged |
| PaperGrid.DriverTerminates | src/bin/04.rs:135-144 | the driver ends at a fixpoint of the pass; its total plus what is left occupied is the initial occupied count; it takes at most one pass more than there are rolls |
| PaperGrid.LeftOccupiedForGood | src/bin/04.rs:135-144 | a cell that is not occupied stays as it is in every later pass |
| PaperGrid.PartOne | src/bin/04.rs:129-133 | the first answer is `Some` of the number of removable rolls of the parsed grid |
| PaperGrid.RemoveAll | src/bin/04.rs:137-142 | the repeated passes, each on the previous output until one marks nothing, sum to the driver's total, at most the occupied count, in as many passes as the driver |
| PaperGrid.PartTwo | src/bin/04.rs:135-144 | the second answer is `Some` of the total the driver marks, at most the occupied count; the loop runs as many passes as the driver |
| Freshness.ParseBoundsIff | src/bin/05.rs:12-18 | collecting the pieces succeeds exactly when each is a u64, and keeps their values in order |
| Freshness.ParseRangeIff | src/bin/05.rs:11-24 | a range parses exactly when it has two u64 pieces in order, equal bounds allowed; a bad piece is the parse error whatever the number of pieces |
| Freshness.ParseShowRange | src/bin/05.rs:11-24 | parsing a written range gives it back |
| Freshness.FirstBlank | src/bin/05.rs:38-41 | the first empty line: every line before it is non-empty |
| Freshness.CollectIff | src/bin/05.rs:49-52 | the range section parses exactly when each of its lines does, and line j gives range j |
| Freshness.CollectNonBlankIff | src/bin/05.rs:42-48 | the id section parses exactly when each of its non-empty lines is a u64, and the ids are those values in order |
| Freshness.SectionsIff | src/bin/05.rs:32-55 | the input parses exactly when every line before the first empty line is a range and every later non-empty line is a u64 |
| Freshness.SectionsContents | src/bin/05.rs:32-55 | a successful parse has one range per line before the first empty line and one id per later non-empty line |
| Freshness.RunIsSections | src/bin/05.rs:37-53 | the line-by-line loop with its finished flag computes the two-section reading |
| Freshness.ReadEntry | src/bin/05.rs:41-51 | a non-empty line is an ingredient id once the ranges are finished and a range before; the id or range is appended, or the line's error returned |
| Freshness.ParseInput | src/bin/05.rs:32-55 | the loop returns the two-section reading of the lines, or its first error |
| Freshness.ContainsIff | src/bin/05.rs:66 | `contains` on a union of pieces holds exactly when some piece contains the id |
| Freshness.UnionFoldPieces | src/bin/05.rs:59-63 | the fold of unions covers exactly the ranges it was given |
| Freshness.CombinedRangeContains | src/bin/05.rs:59-66 | an id is in the combined range exactly when some range holds it |
| Freshness.FreshCountBound | src/bin/05.rs:64-70 | the fresh count is at most the number of ids, and 0 exactly when no id is fresh |
| Freshness.FreshCountAppend | src/bin/05.rs:64-70 | the fresh count of two id lists is the sum of their fresh counts |
| Freshness.FreshCountMonotone | src/bin/05.rs:59-70 | more ranges never make fewer ids fresh |
| Freshness.PartOne | src/bin/05.rs:57-71 | the first answer counts the ids that lie in some range |
| Freshness.PartTwo | src/bin/05.rs:73-75 | there is no second answer |
| Worksheet.ReadLine | src/bin/06.rs:39-50 | each word of a line is applied to the problem of its column; the line fails exactly when a word is neither a u64 nor `+` or `*` |
| Worksheet.ReadProblems | src/bin/06.rs:33-51 | the first pass starts from one default problem per column and applies the lines in order, failing at the first bad word |
| Worksheet.FirstPassOk | src/bin/06.rs:38-51 | the first pass succeeds exactly when every word of every line is a u64, `+` or `*` |
| Worksheet.FirstPassColumns | src/bin/06.rs:36-51 | after the first pass, problem c is the summary of the words of column c, top to bottom; a column without words is the default problem |
| Worksheet.ApplyWordSummary | src/bin/06.rs:40-48 | one more word extends a column's summary: a u64 is appended, `+` and `*` replace the operator |
| Worksheet.NumbersOfAllNumbers | src/bin/06.rs:40-42 | when every word of a column is a u64, the numbers are their values, in line order |
| Worksheet.OperatorLastWins | src/bin/06.rs:44-46 | the operator is `Multiply` exactly when a `*` occurs with no `+` after it: the last operator word wins, `Add` by default |
| Worksheet.HumanMeaning | src/bin/06.rs:32-54 | human mode succeeds exactly when every word is valid; there is one problem per word of the first line, each the summary of its column |
| Worksheet.MaxOf | src/bin/06.rs:58 | `max` is one of the numbers and at least every one of them |
| Worksheet.DecimalStringMonotone | src/bin/06.rs:59 | a larger number never has a shorter decimal form |
| Worksheet.WidthsFit | src/bin/06.rs:55-60 | a problem's width is the decimal length of its largest number: every number fits in it, and one fills it |
| Worksheet.Take | src/bin/06.rs:76-79 | `take(w)` gives at most w characters |
| Worksheet.CutRows | src/bin/06.rs:67-82 | every line but the one at the height is cut with one cursor, giving each problem in turn its width of characters and skipping one; rows past the last line stay blank |
| Worksheet.TakeShift | src/bin/06.rs:74-81 | characters consumed before a line's tail do not change what its tail gives |
| Worksheet.OffsetShift | src/bin/06.rs:75-81 | a problem's start is past the first problem's width and separator |
| Worksheet.CutInvertsLayout | src/bin/06.rs:67-82 | a line laid out as pieces of the problems' widths, separated by single spaces, gives each problem its own piece |
| Worksheet.ColumnDigitsVisible | src/bin/06.rs:91-96 | a column's digits are those of its visible characters, in order |
| Worksheet.ColumnValueDecimal | src/bin/06.rs:83-105 | a column whose visible characters are digits stands for the decimal number they spell, top to bottom |
| Worksheet.DigitsValueCons | src/bin/06.rs:96-102 | a leading digit weighs the power of ten of the digits after it |
| Worksheet.ReadColumn | src/bin/06.rs:89-104 | the bottom-to-top loop with `number` and `number_of_digits` computes the column's value |
| Worksheet.ColumnNumbersAt | src/bin/06.rs:88 | the k-th number is the column k places from the right |
| Worksheet.ReadNumbers | src/bin/06.rs:84-106 | the loop gives one number per column of the block, the rightmost first |
| Worksheet.Parsed | src/bin/06.rs:32-109 | a successful parse has one problem per word of the first line |
| Worksheet.ParseInput | src/bin/06.rs:32-109 | the method computes the first pass, then in cephalopod mode replaces each problem's numbers with those of its block |
| Worksheet.CephalopodMeaning | src/bin/06.rs:83-108 | in cephalopod mode each problem keeps the operator of its human reading, and its numbers are those of its block, one per column |
| Worksheet.SumAppend | src/bin/06.rs:114 | a sum splits over concatenation |
| Worksheet.ProductAppend | src/bin/06.rs:115 | a product splits over concatenation |
| Worksheet.TotalAppend | src/bin/06.rs:117 | the answer splits over groups of problems |
| Worksheet.EvaluateReverse | src/bin/06.rs:113-116 | reversing a problem's numbers does not change its result |
| Worksheet.ProductZero | src/bin/06.rs:115 | a product is 0 exactly when one of its numbers is |
| Worksheet.PartOne | src/bin/06.rs:111-118 | the first answer is the sum over the human-mode problems of their sum or product |
| Worksheet.PartTwo | src/bin/06.rs:120-127 | the second answer is the sum over the cephalopod-mode problems of their sum or product |
| Manifold.ParsePart | src/bin/07.rs:13-21 | `Part::parse` succeeds exactly on `S`, `.`, `^` and `|`; anything else is the invalid-input error |
| Manifold.ParseShowPart | src/bin/07.rs:24-33 | parsing a displayed part gives the part back |
| Manifold.ShowParsePart | src/bin/07.rs:24-33 | displaying a parsed character gives the character back |
| Manifold.ParseRowIff | src/bin/07.rs:41 | a line parses exactly when every character is a part, with one part per character |
| Manifold.ParseRowsIff | src/bin/07.rs:39-43 | the lines parse exactly when each does, with row i the parse of line i |
| Manifold.ParseManifoldIff | src/bin/07.rs:38-45 | a manifold parses exactly when every character is a part; it has one row per line and one part per character |
| Manifold.ShowRow | src/bin/07.rs:51-53 | a row displays one character per part |
| Manifold.ShowParseRow | src/bin/07.rs:24-41 | a parsed line displays as the line |
| Manifold.ParseShowRow | src/bin/07.rs:13-21 | a displayed row parses back to its parts |
| Manifold.ParseShowRows | src/bin/07.rs:38-57 | the displayed rows of a manifold parse back to the manifold |
| Manifold.ShowParseManifold | src/bin/07.rs:38-57 | displaying a parsed manifold gives its lines back, each followed by a newline |
| Manifold.DisplayJoin | src/bin/07.rs:48-57 | the display is the row texts joined by newlines, with a final newline |
| Manifold.SplitDisplay | src/bin/07.rs:48-57 | splitting the display at newlines gives the row texts and one empty tail |
| Manifold.PartOne | src/bin/07.rs:60-64 | once the manifold parses there is no first answer |
| Manifold.PartTwo | src/bin/07.rs:66-68 | there is no second answer |

## Left out

- Reading the input files and `str::lines` are not modelled. Every solution takes its input as a sequence of lines.
- `char::is_whitespace` is modelled by its ASCII members. Characters outside ASCII are not distinguished.
- `println!`, `Display` plumbing through `std::fmt::Formatter`, and the `write!` error paths are left out. Displays are pure string functions.
- Dial.RotateBy: the i32 sum or difference of position and turns is unbounded here. For turn counts near 2^31 (from the default dial, `R2147483647`) the source overflows i32, panicking in a debug build and wrapping in a release build, while the model computes the exact quotient and remainder.
- u64 arithmetic overflow is not modelled: sums, products, `10_u64.pow` and `digit * factor` are unbounded. Parsing does check the 2^64 bound.
- Panics are preconditions:
  - an `unwrap` or `expect` on a failed parse;
  - an empty grid (src/bin/04.rs:89);
  - more batteries requested than a bank holds (src/bin/03.rs:28);
  - no range at all (src/bin/05.rs:61);
  - an empty worksheet, or a line with more words than the first (src/bin/06.rs:33, 42);
  - in cephalopod mode: a problem without numbers (the `assert_eq!` at src/bin/06.rs:61-65), a line below the operator row (src/bin/06.rs:76), or a block row shorter than its first row (src/bin/06.rs:92).
- Worksheet.ParseInput: the model requires every line to fit the first line's word count up front. The source would return its error for a bad word on an earlier line before it panicked on a later long line.
- Worksheet.ParseInput: the `try_into().expect` on the power's exponent is not modelled, because the exponent is below the block height.
- Freshness.CombinedRange: the `rangetools` union is modelled as the list of the ranges it joins, with membership meaning "in some range". The library's internal representation is not part of this model.
- Dial.ParseRotation: the slice `&input[1..]` panics when the first character of the trimmed line takes more than one byte. Strings here are sequences of characters, so the model gives `None` for such a line.
- PaperGrid.RemoveAll, PaperGrid.PartTwo: the pass count is a ghost out-parameter that only the proof uses.
- The day 4 grid is modelled on values. The source's in-place update of its cloned grid is a sequence update on a local copy; aliasing plays no part in it.
- The unit tests of `src/bin/` are not modelled.
- Part two of days 2, 5 and 7 returns `None`, and so do the models.

## Findings

| source | as written | input that shows it | evidently intended | confidence | as-written member | corrected member |
|---|---|---|---|---|---|---|
| src/bin/01.rs:46-49 | a left rotation adds `abs(div_euclid(position - turns, 100))` to the zero counter | from the default dial at 50, the line `L50`: the dial lands on 0, yet the counter adds 0 (it adds 1 for a left turn that starts on 0) | count every click that leaves the dial on 0, in either direction | not executed | Dial.LeftLandingMissed | Dial.ClicksCoverMovingLandings |
