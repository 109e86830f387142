# aoc2024 in Dafny

A verified model of the Rust solutions to Advent of Code 2024 in the
repository aoc2024: the puzzles of days 1, 2 and 4 to 17, and the shared
grid type of `src/bin/utils/map.rs`. Every source file of the core is one
Dafny module (`Day01` … `Day17`, `Grid`). Four helper modules hold what
several days share:
- `Common`: an option type, Rust's three-way `Ordering` and integer helpers.
- `Text`: the string functions the parsers call (`lines`, `trim`, `split`,
  `split_once`, `parse::<u64>`).
- `Sorting`: a stand-in for `sort`/`sort_by`.
- `Digits`: `num_digits`, which days 7 and 11 both define.

The model takes the source's own form:
- Pure code is a function, with its properties as lemmas.
- A loop that updates variables is a method with a `while` loop and invariants.
  Examples are the Dijkstra search and the parsing scanner of day 16,
  `num_digits`, the flood fill and row-by-row scan of day 12, and the
  two-pointer compaction of day 9, which runs in place on an `array`.
- Day 17's virtual machine, whose operations update the registers of a
  `State` object, is a class.
- A panic in the source is either a precondition (where the source relies on
  its input, such as a walled grid) or an `Option`/`None` result (where the
  source reports an error or the case can occur on valid input).

Integers are unbounded. The source's `i32`, `i64` and `u64` overflow is not
modelled, except that `parse::<u64>` rejects values of 2^64 and above. Where
Rust's `/` and `%` meet negative operands, the model uses truncating
division explicitly.

## Model

| member | source | states |
|---|---|---|
| `Common.CompareInt` | src/bin/day16.rs:222-226 | `Ord::cmp` on integers is `Less`, `Equal` or `Greater` exactly when the first operand is smaller than, equal to or larger than the second |
| `Common.DivTrunc` | src/bin/day14.rs:19-20 | Rust's integer `/`: the quotient's magnitude is that of the magnitudes' quotient, and a non-zero quotient is positive exactly when the operands have the same sign |
| `Common.Unique` | src/bin/day08.rs:22 | itertools' `unique` returns a sequence without repeats that holds exactly the elements of its input and is no longer than it |
| `Common.UniqueCardinality` | src/bin/day16.rs:113 | `unique().count()` is the number of distinct elements |
| `Common.DistinctCardinality` | src/bin/day16.rs:113 | a sequence without repeats has as many elements as its set |
| `Text.ToDigit` | src/bin/day09.rs:66 | `to_digit(10)` succeeds exactly on the ASCII digits and returns the digit's value below 10 |
| `Text.Trim` | src/bin/day09.rs:64 | `trim` drops the leading and trailing whitespace and leaves a string that neither starts nor ends with whitespace |
| `Text.TrimRemovesLeading` | src/bin/day09.rs:64 | everything `trim` drops at the front is whitespace |
| `Text.TrimRemovesTrailing` | src/bin/day09.rs:64 | everything `trim` drops at the back is whitespace |
| `Text.TrimUnpadded` | src/bin/day09.rs:64 | `trim` leaves a string without surrounding whitespace unchanged |
| `Text.Lines` | src/bin/utils/map.rs:81 | `lines` yields pieces without a newline, and no pieces exactly for the empty string |
| `Text.LinesUnlines` | src/bin/utils/map.rs:81 | `lines` recovers the lines that were written out one per line, when none holds a newline or ends in a carriage return |
| `Text.Split` | src/bin/day07.rs:16 | `split` on one character yields at least one piece and no piece holds the separator |
| `Text.JoinSplit` | src/bin/day07.rs:16 | joining the pieces of `split` with the separator restores the string |
| `Text.SplitJoin` | src/bin/day07.rs:16 | `split` recovers pieces that were joined by a separator they do not contain |
| `Text.SplitAfter` | src/bin/day07.rs:16 | `split` cuts at the first separator |
| `Text.SplitOnce` | src/bin/day07.rs:14 | `split_once(": ")` returns the parts before and after the first occurrence of the separator, and `None` exactly when it does not occur |
| `Text.SplitOnceAfter` | src/bin/day07.rs:14 | `split_once` finds the separator that follows a prefix free of the separator's first character |
| `Text.ParseU64` | src/bin/day07.rs:15 | `parse::<u64>` accepts an optional `+` followed by one or more ASCII digits whose value is below 2^64, and returns the decimal value of those digits |
| `Text.ParseLeadingZero` | src/bin/day07.rs:15 | a leading zero changes neither whether the text parses nor the value, so `007` parses as `7` does |
| `Text.ShowNat` | src/bin/day07.rs:47-49 | the decimal representation of a number is a non-empty run of digits whose value is the number |
| `Text.ParseShow` | src/bin/day07.rs:15-16 | parsing the decimal representation of a 64-bit value gives the value back |
| `Sorting.SortBy` | src/bin/day05.rs:52-59 | `sort_by` returns a permutation of its input whatever the comparator does |
| `Sorting.Sort` | src/bin/day01.rs:9 | `sort` on integers returns the ascending permutation of its input |
| `Sorting.SortedUnique` | src/bin/day01.rs:9 | two ascending sequences with the same elements are equal, so the sorted result is determined by the input |
| `Sorting.SortedHead` | src/bin/day01.rs:9 | the first element of an ascending sequence is its least element |
| `Digits.DigitCount` | src/bin/day07.rs:39-46 | the digit count of zero is zero, and of a positive `n` it is the `d` with 10^(d-1) <= n < 10^d |
| `Digits.DigitCountUnique` | src/bin/day11.rs:16-23 | that `d` is unique |
| `Digits.NumDigits` | src/bin/day07.rs:39-46 | the division loop of `num_digits` returns the digit count |
| `Grid.Rem` | src/bin/utils/map.rs:34-49 | `%` and `%=` on positions reduce each coordinate into `[0, abs(m))` and leave a multiple of the modulus, which is `rem_euclid` |
| `Grid.MulDistributes` | src/bin/utils/map.rs:12-32 | scalar multiplication distributes over the addition of positions |
| `Grid.Add` | src/bin/utils/map.rs:12-21 | `impl Add for Pos`, coordinate by coordinate; `Grid.AddCommutes` states it commutes and `Grid.MulDistributes` that scaling distributes over it |
| `Grid.Mul` | src/bin/utils/map.rs:23-32 | `impl Mul<i64> for Pos`, scaling both coordinates; `Grid.MulDistributes` states it distributes over `Grid.Add` |
| `Grid.AddCommutes` | src/bin/utils/map.rs:12-21 | the addition of positions commutes |
| `Grid.RemIdempotent` | src/bin/utils/map.rs:34-42 | reducing twice is reducing once, and a position inside the modulus box does not move |
| `Grid.Filter` | src/bin/utils/map.rs:112 | `filter` keeps exactly the elements that satisfy the predicate, and keeps a repeat-free sequence repeat-free |
| `Grid.Map.Neighbors` | src/bin/utils/map.rs:97-114 | `neighbors` returns at most four distinct positions, each orthogonally adjacent and accepted by `contains`, and every such position |
| `Grid.Map.Get` | src/bin/utils/map.rs:117-122 | indexing reads row `y`, column `x`, on cells that exist; `Grid.Map.Set` states that a written cell reads back through it and every other cell reads as before |
| `Grid.Map.Set` | src/bin/utils/map.rs:125-129 | writing through `IndexMut` changes exactly the one cell and keeps the size and every row length |
| `Grid.ContainsInBounds` | src/bin/utils/map.rs:93-95 | on a rectangular map at least as wide as tall, every position `contains` accepts can be indexed |
| `Grid.ContainsExactOnSquare` | src/bin/utils/map.rs:93-95 | on a square map `contains` is exactly the bounds check of indexing |
| `Grid.ContainsRejectsCellOfWideMap` | src/bin/utils/map.rs:93-95 | on a map wider than tall `contains` rejects a cell that exists, because it compares `x` with the height |
| `Grid.Map.Contains` | src/bin/utils/map.rs:93-95 | `contains` compares both coordinates with the number of rows; stated by `Grid.ContainsInBounds`, `Grid.ContainsExactOnSquare` and `Grid.ContainsRejectsCellOfWideMap` |
| `Grid.CharFromChar` | src/bin/utils/map.rs:62-66 | the `char` conversion accepts every character unchanged; `Grid.CharMapIsLines` states that a character map built with it holds exactly the input's lines |
| `Grid.DigitFromChar` | src/bin/utils/map.rs:68-76 | the `u8` conversion accepts exactly the ASCII digits and returns their value |
| `Grid.ConvertLine` | src/bin/utils/map.rs:82 | converting a line succeeds exactly when every character converts, and then yields the converted characters in order |
| `Grid.ConvertLines` | src/bin/utils/map.rs:80-83 | collecting the converted lines succeeds exactly when every character of every line converts |
| `Grid.FromStr` | src/bin/utils/map.rs:79-89 | `from_str` succeeds exactly when there is at least one line and every character converts; the rows are the converted lines, and the size is the first line's length by the number of lines |
| `Grid.CharMapIsLines` | src/bin/utils/map.rs:62-66 | with the `char` conversion every non-empty input parses, and the rows are its lines |
| `Day01.Column` | src/bin/day01.rs:8 | the column holds entry `i` of every row, in row order |
| `Day01.GetCol` | src/bin/day01.rs:7-11 | `get_col` returns the column's entries in ascending order |
| `Day01.GetColUnique` | src/bin/day01.rs:7-11 | any ascending arrangement of the column is the one `get_col` returns |
| `Day01.Solve1` | src/bin/day01.rs:13-15 | the total distance is never negative |
| `Day01.Solve1Same` | src/bin/day01.rs:13-15 | a column is at distance zero from itself |
| `Day01.Solve1Symmetric` | src/bin/day01.rs:13-15 | the total distance is symmetric in the two columns |
| `Day01.Solve1Truncates` | src/bin/day01.rs:14 | `zip` ignores the entries of the longer column beyond the shorter one's length |
| `Day01.Counts` | src/bin/day01.rs:18-21 | the counting fold maps exactly the values of the column, each to its number of occurrences |
| `Day01.ScoreIsSimilarity` | src/bin/day01.rs:22 | the weighted sum over the first column with looked-up counts equals the sum of each value times its occurrences in the second column |
| `Day01.Solve2Occurrences` | src/bin/day01.rs:17-23 | `solve2` is the sum over the first column of each value times its number of occurrences in the second column |
| `Day01.Solve2Absent` | src/bin/day01.rs:22 | a value missing from the second column contributes nothing, through `unwrap_or(&0)` |
| `Day01.Solve2` | src/bin/day01.rs:17-23 | `solve2` weights each value of the first column by its count in the second; stated by `Day01.Solve2Occurrences` and `Day01.Solve2Absent` |
| `Day02.SafeIffMonotone` | src/bin/day02.rs:6-13 | a non-empty report is safe exactly when every step rises by 1 to 3, or every step falls by 1 to 3 |
| `Day02.SingleSafe` | src/bin/day02.rs:6-13 | a report of one level is safe |
| `Day02.FlatUnsafe` | src/bin/day02.rs:6-13 | a report of two or more levels that ends at its starting level is unsafe |
| `Day02.RisingGrows` | src/bin/day02.rs:8 | in a rising report every later level is above the first |
| `Day02.FallingShrinks` | src/bin/day02.rs:10 | in a falling report every later level is below the first |
| `Day02.IsSafe` | src/bin/day02.rs:6-13 | `is_safe` picks the rising or falling test from the last and first levels and checks every adjacent pair; stated by `Day02.SafeIffMonotone`, `Day02.SingleSafe`, `Day02.FlatUnsafe`, `Day02.RisingGrows` and `Day02.FallingShrinks` |
| `Day02.Without` | src/bin/day02.rs:17-19 | chaining `take(i)` and `skip(i + 1)` leaves one level out |
| `Day02.SafeIsDampenedSafe` | src/bin/day02.rs:15-22 | the dampener accepts every safe report of two or more levels |
| `Day02.IsDampenedSafe` | src/bin/day02.rs:15-22 | `is_dampened_safe` accepts a report when leaving out some one level makes it safe; stated by `Day02.Without` and `Day02.SafeIsDampenedSafe` |
| `Day02.Solve` | src/bin/day02.rs:24-26 | `solve` counts at most every report, counts all of them exactly when the policy accepts all, and counts none exactly when it accepts none |
| `Day02.DampenedCountsMore` | src/bin/day02.rs:24-26 | on reports of two or more levels the dampened count is at least the strict count |
| `Day04.AllOffsets` | src/bin/day04.rs:16-17 | the two nested ranges produce the nine offsets of `{-1, 0, 1}` squared |
| `Day04.RemoveZero` | src/bin/day04.rs:18 | the filter keeps exactly the offsets other than `(0, 0)` |
| `Day04.GetDirections` | src/bin/day04.rs:15-20 | `get_directions` yields exactly the non-zero unit offsets |
| `Day04.DirectionCount` | src/bin/day04.rs:15-20 | there are eight directions, none repeated |
| `Day04.SolveBound` | src/bin/day04.rs:22-48 | `solve` counts at most one occurrence per cell and direction |
| `Day04.NoXNoMatch` | src/bin/day04.rs:34 | a grid without an `X` has no occurrence |
| `Day04.MatchCounted` | src/bin/day04.rs:27-47 | a grid that spells XMAS from some cell in one of the eight directions has a positive count |
| `Day04.MatchInBounds` | src/bin/day04.rs:35-41 | the bounds checks come before the reads and cover every cell a match reads |
| `Day04.Solve` | src/bin/day04.rs:22-48 | `solve` counts the cells and directions that spell XMAS; stated by `Day04.SolveBound`, `Day04.NoXNoMatch` and `Day04.MatchCounted` |
| `Day05.PagePosition` | src/bin/day05.rs:43 | the collected `page_position` map holds exactly the pages of the update, each at the index of its last occurrence |
| `Day05.ValidOrderingDistinct` | src/bin/day05.rs:42-49 | for an update without repeated pages, `valid_ordering` holds exactly when no rule puts a page before one at or ahead of it |
| `Day05.AbsentPageVacuous` | src/bin/day05.rs:47 | a rule whose pages do not both occur in the update never invalidates it |
| `Day05.LastOccurrenceCounts` | src/bin/day05.rs:43 | only the last occurrence of a repeated page counts: `[x, y, x]` obeys the rule `(y, x)` |
| `Day05.ValidOrdering` | src/bin/day05.rs:42-49 | `valid_ordering` checks every rule against the recorded page positions; stated by `Day05.ValidOrderingDistinct`, `Day05.AbsentPageVacuous` and `Day05.LastOccurrenceCounts` |
| `Day05.Compare` | src/bin/day05.rs:53-59 | the comparator answers `Less` exactly for the pairs in the rules and never `Equal` |
| `Day05.Reordered` | src/bin/day05.rs:52-59 | reordering with `sort_by` gives a permutation of the update |
| `Day05.MiddleUpdate` | src/bin/day05.rs:51-61 | `middle_update` is the page at index `len / 2` of the reordered update, so it is a page of the update |
| `Day05.SolveSplits` | src/bin/day05.rs:63-75 | the first answer sums the middle pages of the valid updates and the second the reordered middle pages of the invalid ones, and every update goes to exactly one side |
| `Day05.SolveFirst` | src/bin/day05.rs:63-75 | the first total is the sum of the middle pages of the updates already in valid order |
| `Day05.SolveSecond` | src/bin/day05.rs:63-75 | the second total is the sum of the middle pages of the other updates after reordering |
| `Day05.SplitCount` | src/bin/day05.rs:63-75 | every update counts towards exactly one of the two totals |
| `Day05.Solve` | src/bin/day05.rs:63-75 | `solve` adds up middle pages in two totals; stated by `Day05.SolveSplits`, `Day05.SolveFirst`, `Day05.SolveSecond` and `Day05.SplitCount` |
| `Day06.Next` | src/bin/day06.rs:70-79 | the clockwise turn `next`; `Day06.NextCycle` states that four turns come back to the start direction and fewer never do |
| `Day06.NextCycle` | src/bin/day06.rs:70-79 | four clockwise turns come back to the start direction, and one, two or three never do |
| `Day06.Contains` | src/bin/day06.rs:131-133 | `contains` is the bounds check against `size` in both coordinates; used by `Day06.HasLoop`, `Day06.GetPositions`, `Day06.VisitedOnGrid` and `Day06.Solve2Bound` |
| `Day06.Move` | src/bin/day06.rs:158-165 | `move_` with rows growing downwards; `Day06.MoveAdjacent` states it reaches an orthogonal neighbour and `Day06.MoveBack` that the opposite move undoes it |
| `Day06.MoveAdjacent` | src/bin/day06.rs:158-165 | `move_` reaches one of the four orthogonal neighbours |
| `Day06.MoveBack` | src/bin/day06.rs:158-165 | a step in the opposite direction undoes a step |
| `Day06.FirstFreeAfter` | src/bin/day06.rs:137-146 | after some blocked turns, the first free turn is the one the turning loop stops at |
| `Day06.NextState` | src/bin/day06.rs:135-147 | the turning loop of `next_state` returns the step along the first free clockwise turn of the current direction, and `None` where the source would turn forever |
| `Day06.NextStateSpec` | src/bin/day06.rs:135-147 | the new state keeps the direction when the cell ahead is free; otherwise it turns clockwise past blocked cells only; it is one step along the new direction, onto an empty cell or off the grid; it is absent only when all four directions are blocked |
| `Day06.BackIsFree` | src/bin/day06.rs:137-146 | a guard that could step back the way it came is never boxed in |
| `Day06.StepLeavesFreeBehind` | src/bin/day06.rs:135-147 | after a step from an empty cell the guard stands on an empty cell or off the grid, and the cell behind it is free |
| `Day06.WalkShift` | src/bin/day06.rs:37-46 | equal states are followed by equal walks |
| `Day06.RepeatTraps` | src/bin/day06.rs:39-41 | a state that repeats while the guard is on the grid keeps the guard on the grid forever |
| `Day06.Periodic` | src/bin/day06.rs:39-41 | once a state repeats with the guard on the grid throughout, the guard is on the grid at every later step |
| `Day06.RepeatFound` | src/bin/day06.rs:39-41 | when the state after a step is already in `seen`, the guard is trapped |
| `Day06.SeenStatesMembers` | src/bin/day06.rs:36-46 | `seen` holds exactly the states of the first `k` steps |
| `Day06.HasLoop` | src/bin/day06.rs:31-47 | `has_loop` returns true exactly when the guard never leaves the grid (it terminates because `seen` grows within the finite set of grid states) |
| `Day06.VisitedMembers` | src/bin/day06.rs:54-58 | the positions stored after `k` steps are exactly the positions of steps 1 to `k` |
| `Day06.VisitedOnGrid` | src/bin/day06.rs:55-57 | positions stored while the guard is on the grid are on the grid |
| `Day06.GetPositions` | src/bin/day06.rs:49-60 | `get_positions` returns the positions after each step, up to and including the first step that leaves the grid |
| `Day06.VisitedShape` | src/bin/day06.rs:9-10 | of the stored positions exactly one is off the grid (the exit), and the start is stored only when the guard comes back to it, so `positions.len()` counts the exit instead of the start |
| `Day06.WithObstacle` | src/bin/day06.rs:21 | placing the obstacle changes exactly the one cell |
| `Day06.Restore` | src/bin/day06.rs:21-23 | writing `Empty` back over the obstacle restores the map when the cell was empty |
| `Day06.VisitedEmpty` | src/bin/day06.rs:135-147 | `next_state` steps only onto empty cells or off the grid, so every on-grid position `get_positions` stores is empty and the set `main` hands to `solve2` meets its first requirement |
| `Day06.Solve2` | src/bin/day06.rs:15-30 | `solve2` counts exactly the stored positions, other than the start and on the grid, at which an extra obstacle traps the guard |
| `Day06.Solve2Bound` | src/bin/day06.rs:20 | only stored positions on the grid other than the start are counted |
| `Day06.TileOf` | src/bin/day06.rs:111-119 | exactly `.`, `#` and `^` are map characters, and only `#` is an obstacle |
| `Day06.ParseRow` | src/bin/day06.rs:109-121 | a line parses exactly when each of its characters is a map character, into one tile per character |
| `Day06.ParseRows` | src/bin/day06.rs:105-122 | the lines parse exactly when each line does, into one row per line |
| `Day06.LastCaretIn` | src/bin/day06.rs:114-115 | the start recorded on a line is its last `^` |
| `Day06.LastCaret` | src/bin/day06.rs:104-122 | the start the parser keeps is the last `^` in reading order, and there is none exactly when no line holds a `^` |
| `Day06.FromStr` | src/bin/day06.rs:103-129 | parsing succeeds exactly when there is a line, every character is a map character and some `^` exists; the tiles mirror the lines (obstacle exactly at `#`), the size is rows by first-row length, and the start is the last `^` |
| `Day06.ParseRowsFails` | src/bin/day06.rs:118 | a failed parse has a character that is not a map character |
| `Day06.ParseRowsSucceeds` | src/bin/day06.rs:111-119 | a successful parse has only map characters |
| `Day06.ParseRowsTiles` | src/bin/day06.rs:105-122 | the parsed rows have the lines' shape and an obstacle exactly where a line has `#` |
| `Day07.ConcatenateZero` | src/bin/day07.rs:47-49 | because zero has no digits, concatenating 0 leaves the left operand unchanged |
| `Day07.ConcatenateDigits` | src/bin/day07.rs:47-49 | for a positive right operand, `concatenate` is the value of the decimal digits of the left operand followed by those of the right |
| `Day07.ShowNatLength` | src/bin/day07.rs:39-49 | the decimal representation of a positive number has `num_digits` digits |
| `Day07.DigitsValueAppend` | src/bin/day07.rs:48 | the value of two digit strings side by side is the left value shifted by the right length plus the right value |
| `Day07.Concatenate` | src/bin/day07.rs:47-49 | `concatenate` shifts the left operand by the digit count of the right one; stated by `Day07.ConcatenateZero` and `Day07.ConcatenateDigits` |
| `Day07.Apply` | src/bin/day07.rs:56-57 | applies one of `u64::add`, `u64::mul` and `concatenate`; `Day07.AdvanceOneMore` states how each applied operator adds one value to a fold step, and `Day07.ReachableSound`/`Day07.ReachableComplete` tie the fold to sequences of applications |
| `Day07.Advance` | src/bin/day07.rs:24-33 | one step of the fold keeps only values that do not exceed the test value |
| `Day07.ReachableBounded` | src/bin/day07.rs:28 | every value the fold keeps is at most the test value |
| `Day07.ReachableSound` | src/bin/day07.rs:20-34 | every value the fold keeps is the left-to-right value of some choice of operators whose intermediate values never exceed the test |
| `Day07.ReachableComplete` | src/bin/day07.rs:20-34 | every such choice of operators ends at a value the fold keeps |
| `Day07.NoNumbers` | src/bin/day07.rs:23 | with no numbers the fold keeps only its seed 0, so the equation is solvable exactly when its test value is 0 |
| `Day07.AdvanceUnion` | src/bin/day07.rs:25-32 | one step of the fold distributes over a union of kept values |
| `Day07.AdvanceAll` | src/bin/day07.rs:24-33 | the nested loops over kept values and operators compute one step of the fold |
| `Day07.Solvable` | src/bin/day07.rs:20-36 | `solvable` is true exactly when some choice of operators, none of whose intermediate values exceeds the test value, evaluates left to right to the test value |
| `Day07.ParseAll` | src/bin/day07.rs:16 | parsing the numbers succeeds exactly when every piece parses as a `u64`, and yields their values in order |
| `Day07.ShowAll` | src/bin/day07.rs:16 | each number is written in decimal |
| `Day07.FromStr` | src/bin/day07.rs:13-18 | `Equation::from_str`, with `None` where its `unwrap`s panic; `Day07.FromStrShow` states it parses back every equation written in the input format |
| `Day07.FromStrShow` | src/bin/day07.rs:13-18 | parsing an equation written as `<test>: <n> <n> ...` gives it back, for 64-bit values |
| `Day08.ModUnique` | src/bin/day08.rs:168 | the remainder and quotient are determined by any quotient-remainder decomposition |
| `Day08.GcdDivides` | src/bin/day08.rs:163-172 | the result of Euclid's algorithm divides both arguments |
| `Day08.GcdGreatest` | src/bin/day08.rs:163-172 | every common divisor divides the result of Euclid's algorithm |
| `Day08.GcdBounds` | src/bin/day08.rs:163-172 | the gcd is zero only for two zeros and never exceeds a non-zero argument |
| `Day08.GcdZero` | src/bin/day08.rs:166 | the gcd of `a` and 0 is `abs(a)` |
| `Day08.Gcd` | src/bin/day08.rs:163-172 | the `gcd` loop computes Euclid's algorithm on the absolute values |
| `Day08.GcdSpec` | src/bin/day08.rs:163-172 | `gcd` is a non-negative common divisor of both absolute values that every positive common divisor divides |
| `Day08.PairsSound` | src/bin/day08.rs:29 | every pair of `combinations(2)` is two entries, the first at the earlier index |
| `Day08.PairsComplete` | src/bin/day08.rs:29 | every two entries, the first at the earlier index, form a pair |
| `Day08.PairDistinct` | src/bin/day08.rs:29-33 | the pairs of distinct antennas are two different positions |
| `Day08.AllCandidatesSound` | src/bin/day08.rs:30-36 | every point of the flat map comes from one pair |
| `Day08.AllCandidatesComplete` | src/bin/day08.rs:30-36 | both points of every pair are in the flat map |
| `Day08.GetAntinodes` | src/bin/day08.rs:26-39 | every simple antinode is accepted by `contains` |
| `Day08.GetAntinodesSound` | src/bin/day08.rs:26-39 | every simple antinode is `p1 - (p2 - p1)` or `p2 + (p2 - p1)` for two antennas `p1` before `p2` |
| `Day08.GetAntinodesComplete` | src/bin/day08.rs:26-39 | each of those two points that `contains` accepts is a simple antinode |
| `Day08.FilterKeeps` | src/bin/day08.rs:37 | the filter keeps every element that satisfies it |
| `Day08.FilterMember` | src/bin/day08.rs:37 | everything the filter keeps was there and satisfies it |
| `Day08.Walk` | src/bin/day08.rs:54-56 | `(0..).map(p + step * i).take_while(contains)` yields `p + k * step` for k = 0, 1, … while `contains` accepts, and stops at the first point it rejects |
| `Day08.Sub` | src/bin/day08.rs:84-93 | `impl Sub for Pos`; `Day08.BackStep` states that the k-th point of the backward walk from `p1 - step` is `p1 - step·(k+1)` |
| `Day08.DivPos` | src/bin/day08.rs:106-115 | `impl Div<i32> for Pos`, truncating each coordinate toward zero; `Day08.DivPosExact` states that division by a common divisor of both coordinates is exact |
| `Day08.DivPosExact` | src/bin/day08.rs:106-115 | scaling the quotient back by an exact divisor gives the position, for either sign of the divisor |
| `Day08.DirectionScales` | src/bin/day08.rs:49-53 | the reduced direction times the gcd of the difference's coordinates is the difference, so the second antenna lies on the walked line |
| `Day08.Direction` | src/bin/day08.rs:49-53 | dividing the difference of two distinct antennas by the gcd of its coordinates never gives the zero step |
| `Day08.BackStep` | src/bin/day08.rs:58-59 | the backward walk, which starts at `p1 - diff`, visits `p1 - diff * i` for i = 1, 2, … |
| `Day08.ResonantOnLine` | src/bin/day08.rs:45-62 | every resonant antinode of a pair lies inside the map on the line through `p1`, at a whole multiple of the reduced direction |
| `Day08.ResonantIncludesAntenna` | src/bin/day08.rs:54-56 | `p1` itself is a resonant antinode whenever it is inside the map |
| `Day08.AllResonantSound` | src/bin/day08.rs:45-62 | every point of the flat map comes from one pair's walks |
| `Day08.AllResonantComplete` | src/bin/day08.rs:45-62 | every point of every pair's walks is in the flat map |
| `Day08.GetResonantAntinodes` | src/bin/day08.rs:41-65 | every resonant antinode is accepted by `contains` |
| `Day08.GetResonantSound` | src/bin/day08.rs:41-65 | every resonant antinode is on the walks of two antennas `p1` before `p2` |
| `Day08.GetResonantComplete` | src/bin/day08.rs:41-65 | every point of every pair's walks is a resonant antinode |
| `Day08.AntinodesInside` | src/bin/day08.rs:18-24 | every counted antinode is accepted by `contains` |
| `Day08.AntinodeCounted` | src/bin/day08.rs:18-24 | an antinode of any frequency is counted, and so the count is positive |
| `Day08.Solve` | src/bin/day08.rs:18-24 | `solve` counts the distinct antinodes over all frequencies; stated by `Day08.AntinodesInside` and `Day08.AntinodeCounted` |
| `Day08.RowCells` | src/bin/day08.rs:134-146 | the antennas of a row are exactly its non-`.` characters with their positions, in column order |
| `Day08.Cells` | src/bin/day08.rs:130-147 | the antennas of the rows are exactly the non-`.` cells with their positions, in reading order |
| `Day08.PositionsOf` | src/bin/day08.rs:148-154 | a frequency's list holds exactly the positions of its cells |
| `Day08.PositionsOfIncreasing` | src/bin/day08.rs:148-154 | the fold appends positions in reading order |
| `Day08.IncreasingDistinct` | src/bin/day08.rs:148-154 | positions in strictly increasing reading order are distinct |
| `Day08.Group` | src/bin/day08.rs:148-154 | the folded map has exactly the frequencies that occur, each with its positions in reading order |
| `Day08.FromStr` | src/bin/day08.rs:124-156 | the size is the first line's length by the number of lines; every listed antenna is its character at its position; every non-`.` cell is listed under its character; each frequency's positions are distinct |
| `Day08.Contains` | src/bin/day08.rs:158-160 | `contains` compares both coordinates with `size.y`; used by `Day08.GetAntinodes`, `Day08.GetResonantAntinodes` and `Day08.AntinodesInside` |
| `Day09.BlockAt` | src/bin/day09.rs:23-27 | the digits at even positions of the disk map are files numbered from zero, and those at odd positions are free space |
| `Day09.ExpandLength` | src/bin/day09.rs:19-29 | the expanded disk has as many blocks as the digits add up to |
| `Day09.ExpandAt` | src/bin/day09.rs:19-29 | digit `i` fills its count of blocks right after the blocks of the digits before it |
| `Day09.Expand` | src/bin/day09.rs:19-29 | the expansion of the disk map; stated by `Day09.BlockAt`, `Day09.ExpandLength` and `Day09.ExpandAt` |
| `Day09.CompactedFront` | src/bin/day09.rs:33-35 | a file block at the front stays at the front |
| `Day09.Compacted` | src/bin/day09.rs:30-48 | the compacted disk without its free tail is never longer than the disk |
| `Day09.CompactedCounts` | src/bin/day09.rs:32-48 | compaction keeps every file block as often as it occurs |
| `Day09.CompactedOnlyFiles` | src/bin/day09.rs:45-48 | the compacted disk, cut at its first free block, holds no free block |
| `Day09.CompactedFiles` | src/bin/day09.rs:32-48 | as a multiset, the compacted disk is the input without its free blocks |
| `Day09.CompactedKeepsPlaced` | src/bin/day09.rs:32-44 | a file block that already lies inside the compacted region is never moved |
| `Day09.Compact` | src/bin/day09.rs:30-48 | the in-place two-pointer loop leaves the compacted disk before the returned index and free blocks after it, and permutes the blocks |
| `Day09.SettledAll` | src/bin/day09.rs:39-41 | once the pointers have crossed, the settled prefix is the whole compacted disk |
| `Day09.SkipFiles` | src/bin/day09.rs:33-35 | moving `index` past file blocks stops on a free block and keeps the loop invariant |
| `Day09.SkipFrees` | src/bin/day09.rs:36-38 | moving `rindex` past free blocks stops on a file block and keeps the loop invariant |
| `Day09.MoveBlock` | src/bin/day09.rs:42-43 | the file block at `rindex` goes into the free block at `index`, `rindex` becomes free, nothing else changes and the invariant holds |
| `Day09.SkipFile` | src/bin/day09.rs:33-35 | skipping a file block at `index` does not change the compacted result |
| `Day09.SkipFree` | src/bin/day09.rs:36-38 | skipping a free block at `rindex` does not change the compacted result |
| `Day09.MoveFile` | src/bin/day09.rs:42-43 | moving the last file block into the first free one does not change the compacted result and keeps the multiset of blocks |
| `Day09.ChecksumFreeTail` | src/bin/day09.rs:48-59 | free blocks at the end add nothing to the checksum |
| `Day09.Checksum` | src/bin/day09.rs:48-59 | the checksum adds each file block's index times its file number; stated by `Day09.ChecksumFreeTail` and `Day09.Solve` |
| `Day09.Solve` | src/bin/day09.rs:18-60 | `solve` returns the checksum of the compacted expansion of the disk map |
| `Day09.Digits` | src/bin/day09.rs:65-66 | the digits of a string exist exactly when every character is a decimal digit, and are their values in order |
| `Day09.ShowDigits` | src/bin/day09.rs:62-68 | a disk map written out is one digit character per entry |
| `Day09.ParseInput` | src/bin/day09.rs:62-68 | `parse_input`: the trimmed input's digits, with `None` where `to_digit(10).unwrap()` panics; `Day09.ParseShow` states it recovers any disk map written out as digits |
| `Day09.ParseShow` | src/bin/day09.rs:62-68 | `parse_input` recovers a disk map written out as digits |
| `Day10.FromStr` | src/bin/day10.rs:81-99 | parsing succeeds exactly when there is a line and every character is a decimal digit; the rows have the lines' shape, the heights are 0 to 9, and the size is the first line's length by the number of lines |
| `Day10.Reach` | src/bin/day10.rs:39 | the flat map of `neighbors` holds exactly the positions `contains` accepts that are next to a current position |
| `Day10.Step` | src/bin/day10.rs:37-42 | one iteration keeps exactly the neighbours of the current positions that have height `i` |
| `Day10.LevelDistinct` | src/bin/day10.rs:40 | after `unique` no position occurs twice |
| `Day10.TrailheadScore` | src/bin/day10.rs:34-46 | `trailhead_score` returns the number of positions after the nine iterations |
| `Day10.LevelSound` | src/bin/day10.rs:36-43 | every position after `i` iterations ends a climb of `i` unit steps from the trailhead |
| `Day10.LevelComplete` | src/bin/day10.rs:36-43 | the end of every such climb is among the positions after `i` iterations |
| `Day10.TrailExtend` | src/bin/day10.rs:36-43 | a climb followed by one more step up is a climb |
| `Day10.AddCount` | src/bin/day10.rs:61 | `entry().and_modify().or_insert()` adds the count to the one key, keeps the others, and grows the total by the count |
| `Day10.AddCountDistinct` | src/bin/day10.rs:61 | adding to a key never makes a second entry for it |
| `Day10.Merge` | src/bin/day10.rs:60-63 | the fold adds the counts of the new pairs key by key |
| `Day10.MergeDistinct` | src/bin/day10.rs:60-63 | the fold keeps one entry per key |
| `Day10.Tag` | src/bin/day10.rs:54-57 | each neighbour is paired with the entry's count |
| `Day10.TagValue` | src/bin/day10.rs:54-57 | for distinct positions, each tagged position carries the count once |
| `Day10.TrailheadRating` | src/bin/day10.rs:48-67 | `trailhead_rating` returns the sum of the counts after the nine iterations |
| `Day10.RatingStepValue` | src/bin/day10.rs:51-63 | after an iteration, the count at a cell of height `i` is the sum of the counts of the neighbouring entries, and other cells get nothing |
| `Day10.Height` | src/bin/day10.rs:124-130 | `map[pos]` on cells that exist; `Day10.NeighborsClimb` states that the filtered neighbours are exactly the in-map cells one unit away whose height is one more |
| `Day10.NeighborsClimb` | src/bin/day10.rs:54-59 | a filtered neighbour is exactly a unit climb to height `i` |
| `Day10.StepKeys` | src/bin/day10.rs:51-63 | the rating's new entries are the score's next positions when its entries were the score's positions |
| `Day10.RatingStepMatches` | src/bin/day10.rs:51-63 | one iteration keeps the rating's entries matched one to one with the score's positions, each with a count of at least one |
| `Day10.RatingMatchesLevel` | src/bin/day10.rs:48-64 | after every iteration the rating's entries are the score's positions, each once with a positive count |
| `Day10.LevelAtMostRating` | src/bin/day10.rs:45-66 | after `i` iterations there are no more positions than the sum of counts |
| `Day10.ScoreAtMostRating` | src/bin/day10.rs:45-66 | a trailhead's score never exceeds its rating |
| `Day10.StartPoints` | src/bin/day10.rs:18-29 | the start points are exactly the cells of height 0 |
| `Day10.Solve` | src/bin/day10.rs:17-32 | `solve` sums `score_fn` over the cells of height 0; stated by `Day10.SolveOrdered` and `Day10.SumScoresOrdered`, and each summand is the result of `Day10.TrailheadScore` or `Day10.TrailheadRating` |
| `Day10.SolveOrdered` | src/bin/day10.rs:17-32 | the first answer never exceeds the second |
| `Day10.SumScoresOrdered` | src/bin/day10.rs:17-32 | over any list of trailheads the sum of scores never exceeds the sum of ratings |
| `Day11.SplitNumber` | src/bin/day11.rs:25-33 | `split_number` succeeds exactly for an even digit count `d`, and then the two halves recombine to the number, the second one below 10^(d/2) |
| `Day11.SplitZero` | src/bin/day11.rs:25-33 | zero has no digits, so it splits into `(0, 0)` |
| `Day11.SplitHalves` | src/bin/day11.rs:25-33 | for a positive number with an even digit count `d`, the first half has exactly `d/2` digits and the second at most `d/2` |
| `Day11.DigitCountBelow` | src/bin/day11.rs:28-29 | a number below 10^h has at most `h` digits |
| `Day11.Blink` | src/bin/day11.rs:35-43 | a blink turns one stone into one or two stones |
| `Day11.BlinkShape` | src/bin/day11.rs:35-43 | a stone becomes two exactly when it is positive with an even digit count, and the two halves' digits read back as the number; otherwise 0 becomes 1 and any other number is multiplied by 2024 |
| `Day11.FlatMapAppend` | src/bin/day11.rs:50 | the flat map of a concatenation is the concatenation of the flat maps |
| `Day11.FlatMapPermutation` | src/bin/day11.rs:48-54 | the multiset of a flat map depends only on the multiset it maps, so the `HashMap`'s iteration order does not matter |
| `Day11.FlatMapLength` | src/bin/day11.rs:50 | mapping each stone to one or two stones at most doubles the row |
| `Day11.RepeatMultiset` | src/bin/day11.rs:46 | `c` copies of a number are that number with count `c` |
| `Day11.FlatMapRepeat` | src/bin/day11.rs:50 | blinking `c` copies of a number gives `c` copies of its blink |
| `Day11.BlinkAll` | src/bin/day11.rs:48-54 | one blink of the row keeps at least as many stones and at most twice as many |
| `Day11.EvolveLast` | src/bin/day11.rs:47-55 | `k + 1` blinks are one blink after `k` blinks |
| `Day11.DistinctMultiset` | src/bin/day11.rs:46 | a distinct row's multiset is its set |
| `Day11.AddBlinks` | src/bin/day11.rs:51-54 | the inner fold adds one blink of the number, scaled by its count, to the accumulated counts |
| `Day11.BlinkRound` | src/bin/day11.rs:48-54 | one round of the loop turns the counts of a row into the counts of the row after one blink |
| `Day11.Solve` | src/bin/day11.rs:45-57 | `solve` returns the number of stones after `num_iterations` blinks of the distinct input numbers |
| `Day11.NoBlinks` | src/bin/day11.rs:46 | with no blinks the answer is the number of distinct inputs, because collecting `(n, 1)` counts a repeated input number once |
| `Day11.BlinkGrowth` | src/bin/day11.rs:47-56 | `k` blinks keep every stone and at most multiply their number by 2^k |
| `Day12.GetDirectionOfNeighbour` | src/bin/day12.rs:51-66 | `get_direction` of a neighbour is the step that reaches it |
| `Day12.GetDirectionOfStep` | src/bin/day12.rs:51-66 | the step in a direction is a neighbour whose direction is that direction |
| `Day12.GetDirection` | src/bin/day12.rs:51-66 | `get_direction` names the step from a cell to its neighbour; stated by `Day12.GetDirectionOfNeighbour` and `Day12.GetDirectionOfStep` |
| `Day12.GetNeighbouringBorder` | src/bin/day12.rs:110-122 | a shifted border segment keeps its side |
| `Day12.ShiftAdd` | src/bin/day12.rs:110-122 | shifts along a side compose by adding, and a shift by zero is no shift |
| `Day12.ShiftInjective` | src/bin/day12.rs:110-122 | distinct shifts give distinct segments |
| `Day12.RunStarts` | src/bin/day12.rs:124-147 | the first segments of the sides are border segments |
| `Day12.SegmentGrows` | src/bin/day12.rs:128-143 | a run of segments grows by one at either end |
| `Day12.PredecessorOutside` | src/bin/day12.rs:128-135 | a segment outside a run that ends before a non-border does not follow any segment of the run |
| `Day12.RemoveRun` | src/bin/day12.rs:126-143 | removing a whole side, a run of segments bounded by non-borders at both ends, removes exactly one side start and at least one segment |
| `Day12.RemoveForward` | src/bin/day12.rs:128-135 | the forward loop removes the segments from `current` along its side up to the first non-border, so `current` itself is gone and the set shrinks |
| `Day12.RemoveBackward` | src/bin/day12.rs:136-143 | the backward loop removes the segments before `current` along its side down to the first non-border; it only removes, and the segment just before `current` is gone |
| `Day12.GetNumSides` | src/bin/day12.rs:124-147 | `get_num_sides` returns the number of sides, counted as the segments whose predecessor along the side is not a border, whichever segment the set yields first |
| `Day12.NumSidesBounds` | src/bin/day12.rs:124-147 | no borders make no sides, and there are never more sides than segments |
| `Day12.SameOfMembers` | src/bin/day12.rs:80-81 | the neighbours pushed are exactly those with the region's plant |
| `Day12.DiffCount` | src/bin/day12.rs:79-86 | every neighbour is either pushed or counted as a border |
| `Day12.NeighbourBordersMembers` | src/bin/day12.rs:84 | a recorded segment lies between the cell and a neighbour with another plant, in that neighbour's direction |
| `Day12.NeighbourBordersCount` | src/bin/day12.rs:79-86 | distinct neighbours give distinct segments, one per neighbour with another plant |
| `Day12.EdgeBordersX` | src/bin/day12.rs:87-94 | the edge along x records as many segments as it counts border units: `Left` in the first column, otherwise `Right` in the last |
| `Day12.EdgeBordersY` | src/bin/day12.rs:95-102 | the edge along y records as many segments as it counts border units: `Up` in the first row, otherwise `Down` in the last |
| `Day12.CellBordersCount` | src/bin/day12.rs:79-102 | each unit of `border` a cell adds is one recorded segment of that cell |
| `Day12.RegionBordersCells` | src/bin/day12.rs:79-102 | every recorded segment belongs to a cell of the region |
| `Day12.RegionBordersCount` | src/bin/day12.rs:71-107 | over the distinct cells of a region, `border` is the number of distinct segments that `get_num_sides` groups into sides |
| `Day12.SidesAtMostBorder` | src/bin/day12.rs:106-107 | a region never has more sides than border units |
| `Day12.FillSkip` | src/bin/day12.rs:75-77 | popping a cell that is already processed keeps the flood-fill invariant |
| `Day12.FillVisit` | src/bin/day12.rs:78-103 | processing a popped cell adds it to the region, pushes its same-plant neighbours and keeps the flood-fill invariant |
| `Day12.VisitNeighbours` | src/bin/day12.rs:79-86 | the neighbour loop pushes the same-plant neighbours, and counts and records a segment towards each other neighbour |
| `Day12.AddEdges` | src/bin/day12.rs:87-102 | the grid-edge part adds one border unit for the first or last column and one for the first or last row, with their segments |
| `Day12.VisitCell` | src/bin/day12.rs:78-103 | the body of the pop loop for an unprocessed cell does the neighbour loop and then the grid edges |
| `Day12.PopStep` | src/bin/day12.rs:71-103 | one pass of the pop loop keeps both fill invariants and the counters, and either processes a new cell or shrinks the stack |
| `Day12.GrowSkip` | src/bin/day12.rs:75-77 | popping a processed cell keeps the region growing from the start through neighbours |
| `Day12.GrowVisit` | src/bin/day12.rs:78-86 | appending a popped cell and pushing its neighbours keeps every stacked cell next to a region cell |
| `Day12.FreePathInRegion` | src/bin/day12.rs:71-103 | a path of same-plant free cells from the start ends in a region that holds every free same-plant neighbour of its cells |
| `Day12.GrownHasPath` | src/bin/day12.rs:71-103 | every cell of a region grown from the start through neighbours ends such a path |
| `Day12.ClosedGrownIsComponent` | src/bin/day12.rs:71-103 | a grown region closed under free same-plant neighbours is exactly the set of cells such paths from the start reach |
| `Day12.FillIsComponent` | src/bin/day12.rs:68-108 | what `compute_price` returns for an unprocessed start is exactly the cells reachable from it through same-plant neighbours that were not processed before |
| `Day12.UnprocessedMember` | src/bin/day12.rs:73-76 | a cell is unprocessed exactly when it is in bounds and its flag is false |
| `Day12.ComputePrice` | src/bin/day12.rs:68-108 | `compute_price` marks exactly the region of `start` and returns its area, its border count and its number of sides. The region is empty when `start` was processed before. Otherwise it starts at `start`, every later cell neighbours an earlier one, its cells are distinct, unprocessed before and of one plant, and every same-plant neighbour is now processed |
| `Day12.ScanStart` | src/bin/day12.rs:20-26 | the scan starts with nothing processed and no regions |
| `Day12.ClosedStep` | src/bin/day12.rs:28-38 | appending a region whose same-plant neighbours were processed keeps the regions closed up to the scan |
| `Day12.ScanStep` | src/bin/day12.rs:34-36 | a flood fill from an unprocessed cell adds one region and keeps the scan invariant |
| `Day12.PriceAppend` | src/bin/day12.rs:35-36 | appending a region adds area times border to the first total and area times sides to the second |
| `Day12.ScannedRow` | src/bin/day12.rs:28-29 | a finished row moves the scan to the start of the next |
| `Day12.ScannedNext` | src/bin/day12.rs:28-38 | once the current cell is processed, the scan moves past it without unmarking earlier cells |
| `Day12.ScanCell` | src/bin/day12.rs:30-36 | one iteration of the scan keeps the running totals equal to the prices of the regions found so far, marks the cell and unmarks nothing |
| `Day12.Solve` | src/bin/day12.rs:19-41 | `solve` partitions the map into disjoint regions that cover it. Each region has one plant and is closed as far as `neighbors` reaches. Each region grows from its first cell through neighbours, and is exactly the cells reachable from that cell through same-plant neighbours outside the earlier regions. The first result is the sum of area times border over the regions, the second the sum of area times sides, and the second never exceeds the first |
| `Day12.RegionDiscountAtMost` | src/bin/day12.rs:35-36 | a region's part-two price never exceeds its part-one price |
| `Day12.DiscountAtMostPrice` | src/bin/day12.rs:35-40 | the part-two total never exceeds the part-one total |
| `Day12.CellsMember` | src/bin/day12.rs:28-38 | a cell is covered exactly when it is in one of the regions |
| `Day12.CellsDisjoint` | src/bin/day12.rs:31-33 | no cell is in two regions |
| `Day12.RegionsAreComponents` | src/bin/day12.rs:19-41 | grown regions that are disjoint and closed up to the scan are each the component of their first cell among the cells of no earlier region |
| `Day12.RegionInFree` | src/bin/day12.rs:31-33 | the cells of a region are in no earlier region |
| `Day12.RegionClosedInFree` | src/bin/day12.rs:28-38 | a same-plant neighbour of a region's cell that is in no earlier region is in that region |
| `Day12.FreeMember` | src/bin/day12.rs:28-33 | a cell is free exactly when it is in bounds and in no region found so far |
| `Day12.NeighborsSymmetric` | src/bin/utils/map.rs:97-114 | on a square map `neighbors` is symmetric between cells of the map |
| `Day12.RegionsClosed` | src/bin/day12.rs:19-41 | on a square map every same-plant neighbour of a region's cell is in the same region |
| `Day12.SameRegion` | src/bin/day12.rs:79-81 | on a square map a same-plant neighbour of a region's cell is in that region |
| `Day13.MinOption` | src/bin/day13.rs:35 | `min` of two optional costs: none only when both are none, otherwise one of them and at most each present one |
| `Day13.RowBestSound` | src/bin/day13.rs:25-33 | a cost found for a fixed count of A presses is the cost of some B count in range that reaches the prize |
| `Day13.RowBestLeast` | src/bin/day13.rs:25-33 | every B count in range that reaches the prize is found, and costs at least the reported minimum |
| `Day13.BestSound` | src/bin/day13.rs:23-35 | the minimum over the remaining A counts is the cost of a press pair in range that reaches the prize |
| `Day13.BestLeast` | src/bin/day13.rs:23-35 | the minimum over the remaining A counts is at most the row minimum of each of them |
| `Day13.BestBelow` | src/bin/day13.rs:23-35 | one step of the `flat_map`: the minimum is at most that of its first row and that of the rows after it |
| `Day13.NoSolutionZero` | src/bin/day13.rs:22-37 | `solve_brute_force` returns 0 when no press pair below 100 reaches the prize |
| `Day13.SolutionMinimal` | src/bin/day13.rs:22-37 | otherwise it returns the cost, three tokens per A press and one per B press, of a pair that reaches the prize, and no such pair is cheaper |
| `Day13.SolveBound` | src/bin/day13.rs:22-37 | the answer lies between 0 and the cost of 99 presses of each button |
| `Day13.SolveBruteForce` | src/bin/day13.rs:22-37 | `solve_brute_force` is the cheapest cost over the press pairs below 100 that reach the prize, or 0; stated by `Day13.NoSolutionZero`, `Day13.SolutionMinimal` and `Day13.SolveBound` |
| `Day14.GetQuadrant` | src/bin/day14.rs:18-28 | `get_quadrant` is none exactly on the middle column or row (half the size, truncated); otherwise a quadrant below 4 whose odd bit says right of the middle and whose bit 2 says below it |
| `Day14.FinalInGrid` | src/bin/day14.rs:33 | after 100 seconds and the wrap-around of `%` on `Pos`, a robot is on a cell of the grid |
| `Day14.Tally` | src/bin/day14.rs:34-39 | the fold keeps four counters |
| `Day14.TallyCounts` | src/bin/day14.rs:34-39 | each counter is the number of positions in its quadrant |
| `Day14.TallyTotal` | src/bin/day14.rs:34-39 | positions on a middle line are in no counter: the counters and the middle positions add up to all positions |
| `Day14.Finals` | src/bin/day14.rs:31-33 | one final position per robot, in order, each the robot's position plus 100 times its velocity wrapped onto the grid |
| `Day14.ProductZero` | src/bin/day14.rs:40-41 | the product of the four counters is zero exactly when one of them is |
| `Day14.SolveZero` | src/bin/day14.rs:30-42 | the safety factor is zero exactly when some quadrant holds no robot |
| `Day14.Solve` | src/bin/day14.rs:30-42 | `solve` multiplies the four quadrant counts after 100 seconds; stated by `Day14.Finals`, `Day14.TallyCounts`, `Day14.ProductZero` and `Day14.SolveZero` |
| `Day15.TileFromChar` | src/bin/day15.rs:98-110 | `Tile::from_char` accepts exactly `#`, `.`, `@` and `O`; `#` alone is a wall, `O` alone a box, and the robot's `@` is floor |
| `Day15.DirectionFromChar` | src/bin/day15.rs:141-149 | `Direction::from_char` accepts exactly the four arrow characters |
| `Day15.DirectionFromCharInjective` | src/bin/day15.rs:141-149 | no two arrow characters give the same direction |
| `Day15.Move` | src/bin/day15.rs:151-170 | `Direction::move_` is the first step of the ray in that direction |
| `Day15.MoveAdjacent` | src/bin/day15.rs:151-170 | a step reaches an orthogonal neighbour |
| `Day15.RayStep` | src/bin/day15.rs:151-170 | steps along a direction add up, and zero steps stay put |
| `Day15.MoveInBounds` | src/bin/day15.rs:20-21 | in a warehouse surrounded by walls, a step from a cell that is not a wall stays on the map, so the indexing never panics |
| `Day15.RunEnd` | src/bin/day15.rs:34-36 | the end of a run of boxes is a cell of the map that is not a box |
| `Day15.RunEndOnRay` | src/bin/day15.rs:34-36 | the run end lies on the ray, after boxes only |
| `Day15.RunEndIsFirst` | src/bin/day15.rs:34-36 | the first non-box cell on the ray is the run end |
| `Day15.RunEndStep` | src/bin/day15.rs:34-36 | a box continues the run and any other cell ends it |
| `Day15.CanMoveWitness` | src/bin/day15.rs:18-27 | a possible move has a floor cell on its ray with only boxes before it |
| `Day15.CanMoveFromWitness` | src/bin/day15.rs:18-27 | from a cell that is not a wall, such a floor cell makes the move possible |
| `Day15.CanMoveRay` | src/bin/day15.rs:18-27 | a move is possible exactly when the robot's cell is not a wall and its ray meets a floor cell after boxes only |
| `Day15.CanMove` | src/bin/day15.rs:18-27 | the loop of `can_move` returns true exactly when the run of boxes in front of the robot ends at floor rather than at a wall |
| `Day15.MoveRobot` | src/bin/day15.rs:29-40 | `move_` steps onto a floor cell unchanged, or writes a box at the end of the run and floor where the robot steps: the result is that of the move described by `MoveShape`, `MoveFrame`, `MoveBoxes` and `MoveScore` |
| `Day15.BoxesMember` | src/bin/day15.rs:113-117 | a cell is in the box set exactly when it is on the map and holds a box |
| `Day15.BoxesSet` | src/bin/day15.rs:37-38 | writing a box adds its cell to the box set, writing anything else removes it |
| `Day15.MoveShape` | src/bin/day15.rs:29-40 | a move puts the robot one step along the direction on a floor cell and keeps the map's size and its surrounding walls |
| `Day15.MoveFrame` | src/bin/day15.rs:37-38 | a move changes at most the cell the robot enters and the end of the run, and adds or removes no wall |
| `Day15.MoveBoxes` | src/bin/day15.rs:30-38 | a push moves the box from the entered cell to the run's end; a step onto floor changes nothing; the number of boxes is kept |
| `Day15.Instruction` | src/bin/day15.rs:44-46 | an instruction keeps the warehouse walled, the robot off walls, and the box count; a blocked instruction changes nothing |
| `Day15.Simulate` | src/bin/day15.rs:43-47 | after any instructions the warehouse is still walled and the robot on a cell that is not a wall |
| `Day15.SimulateKeepsBoxes` | src/bin/day15.rs:43-47 | the instructions never change the number of boxes |
| `Day15.RowScoreSet` | src/bin/day15.rs:56-62 | rewriting one cell of a row changes the row's sum by that cell's difference |
| `Day15.RowsScoreSet` | src/bin/day15.rs:51-65 | rewriting one cell of the data changes the sum by that cell's difference |
| `Day15.ScoreSet` | src/bin/day15.rs:51-65 | writing one cell changes `score` by the difference of that cell's GPS values |
| `Day15.Score` | src/bin/day15.rs:51-65 | `score` sums 100 times the row plus the column over the boxes; stated by `Day15.ScoreSet` and `Day15.Solve` |
| `Day15.MoveScore` | src/bin/day15.rs:29-65 | a push changes the score by the GPS value of the run's end minus that of the cell entered; a step onto floor keeps it |
| `Day15.SimulateStep` | src/bin/day15.rs:43-47 | the instructions are carried out in order, one after another |
| `Day15.Solve` | src/bin/day15.rs:42-49 | `solve` returns the score of the map after every instruction, in order |
| `Day16.TileFromChar` | src/bin/day16.rs:229-236 | `Tile::from_char`: `.`, `S` and `E` are floor, `#` is a wall, and every other character is refused |
| `Day16.NeighboursPerpendicular` | src/bin/day16.rs:162-171 | `neighbours` lists two distinct directions, exactly those perpendicular to `d`, and never `d` or its inverse |
| `Day16.NeighboursSymmetric` | src/bin/day16.rs:162-171 | `e` is a turn from `d` exactly when `d` is a turn from `e` |
| `Day16.Neighbours` | src/bin/day16.rs:162-171 | the two directions a turn faces; `Day16.NeighboursPerpendicular` states they are exactly the perpendicular ones, and `Day16.NeighboursSymmetric` that turning is symmetric |
| `Day16.Invert` | src/bin/day16.rs:173-180 | the opposite direction; `Day16.InvertInvolution` states it undoes itself and keeps the axis |
| `Day16.Move` | src/bin/day16.rs:182-201 | one step with `y` growing downwards; `Day16.MoveBack` states that a step in the inverted direction undoes it |
| `Day16.InvertInvolution` | src/bin/day16.rs:173-180 | `invert` undoes itself, changes every direction and keeps its axis |
| `Day16.MoveBack` | src/bin/day16.rs:173-201 | a step in the inverted direction undoes a step, both ways round |
| `Day16.Cmp` | src/bin/day16.rs:222-227 | `cmp` is greater exactly when the score is lower, less exactly when it is higher, and equal on equal scores |
| `Day16.TopIndex` | src/bin/day16.rs:31 | the heap's top is an entry that no entry exceeds under `cmp` |
| `Day16.TopIsMinimum` | src/bin/day16.rs:31 | with the reversed order, `pop` yields an entry of least score |
| `Day16.RemoveAtMembers` | src/bin/day16.rs:31 | popping takes exactly the top entry out of the heap's multiset of entries |
| `Day16.CostNonNegative` | src/bin/day16.rs:47-62 | no walk costs less than 0 |
| `Day16.StartScoresZero` | src/bin/day16.rs:21-28 | when the scores are least costs, the start facing right is recorded at 0 |
| `Day16.Extend` | src/bin/day16.rs:38-65 | a walk to a state followed by one move is a walk to the next state, at the summed cost |
| `Day16.CandidatesCostMore` | src/bin/day16.rs:38-65 | every pushed candidate costs more than the state it comes from, 1 ahead or 1001 after a turn |
| `Day16.StepIsCandidate` | src/bin/day16.rs:38-65 | the candidates on floor cells are exactly the legal moves, straight on for 1 or a quarter turn and a step for 1001 |
| `Day16.PushesMembers` | src/bin/day16.rs:38-65 | a candidate is pushed exactly when its cell is floor and its state is not yet in `seen` |
| `Day16.SearchStarts` | src/bin/day16.rs:20-29 | the heap holding the start facing right at score 0, with nothing seen, satisfies the search invariant |
| `Day16.CoveredAfterSettle` | src/bin/day16.rs:31-32 | settling the popped state keeps a move that was accounted for accounted for |
| `Day16.SettleStep` | src/bin/day16.rs:31-65 | popping the top entry, recording it and pushing its unsettled successors keeps the search invariant |
| `Day16.HeapAfterSettle` | src/bin/day16.rs:31-65 | afterwards every heap entry is a floor state reached at its score, and no recorded score exceeds a score in the heap |
| `Day16.FrontierAfterSettle` | src/bin/day16.rs:38-65 | afterwards every move out of a recorded state is recorded at no more than its cost or waits in the heap |
| `Day16.DiscardStale` | src/bin/day16.rs:67-74 | popping an entry whose state is already recorded keeps the search invariant |
| `Day16.PrefixBound` | src/bin/day16.rs:31-75 | along any walk each state is recorded at no more than its cost so far, or that cost is at least every score in the heap |
| `Day16.PoppedIsCheapest` | src/bin/day16.rs:31-32 | the popped score is at most the cost of every walk to a state not yet recorded, and every recorded score is the least cost of its state |
| `Day16.ExhaustedIsClosed` | src/bin/day16.rs:31-76 | once the heap is empty no walk reaches the end cell, and the recorded scores are least costs |
| `Day16.Arrive` | src/bin/day16.rs:31-35 | the first state popped on the end cell is the only recorded one there, no walk reaches the end for less, and every recorded score is at most its score |
| `Day16.ArrivalIsLeast` | src/bin/day16.rs:31-35 | the score of the arrival is the least cost of any walk from the start to the end cell |
| `Day16.PredIsStepBack` | src/bin/day16.rs:94-110 | the backward pass's test (one move back, score less 1001 after a turn or 1 straight on) is exactly a forward move read backwards |
| `Day16.PredRankDecreases` | src/bin/day16.rs:105-107 | a predecessor has a lower score, so fewer recorded states score below it |
| `Day16.PredWeighsLess` | src/bin/day16.rs:105-107 | a predecessor weighs at most a quarter of its successor, so the stack loop ends |
| `Day16.MarkingStarts` | src/bin/day16.rs:80-90 | the recorded end states facing up or right start the backward invariant |
| `Day16.MarkingDone` | src/bin/day16.rs:92-111 | with the stack empty, the seen states are the least set holding the seeds and closed under predecessors |
| `Day16.PushWeighs` | src/bin/day16.rs:107 | pushing a predecessor adds at most a quarter of its successor's weight |
| `Day16.BackStep` | src/bin/day16.rs:92-111 | popping a state, marking it and stacking its predecessors keeps the backward invariant |
| `Day16.PredsAreCandidates` | src/bin/day16.rs:94-110 | every predecessor of a state is one of the three states the backward pass tries, so it gets pushed |
| `Day16.StackKept` | src/bin/day16.rs:92-110 | states below the popped one stay on the stack |
| `Day16.PushPredecessors` | src/bin/day16.rs:95-110 | the inner loop keeps the stack below, pushes only predecessors, pushes every predecessor, and adds less weight than the popped state had |
| `Day16.RecordedOpen` | src/bin/day16.rs:38-65 | every recorded state stands on a floor cell |
| `Day16.WalkAppend` | src/bin/day16.rs:38-65 | a walk followed by one legal move is a walk costing that move more |
| `Day16.FollowChain` | src/bin/day16.rs:94-110 | a least walk to a state, followed along the predecessor steps read forwards, is a walk to the arrival at its score that keeps the state |
| `Day16.LeaderPred` | src/bin/day16.rs:94-110 | a predecessor of a state that leads to the arrival by scored moves leads there too |
| `Day16.LeadersSeededClosed` | src/bin/day16.rs:79-110 | the recorded states that lead to the arrival hold the seeds and are closed under predecessors |
| `Day16.MarksOnLeastWalks` | src/bin/day16.rs:79-114 | every state the backward pass marks lies on a walk from the start to the end cell whose cost is the arrival's score |
| `Day16.BestPathTiles` | src/bin/day16.rs:79-114 | `compute_best_path_tiles` has no seed exactly when neither end state facing up or right is recorded; otherwise it returns the number of cells of the least seeded predecessor-closed set of states, at least 1 |
| `Day16.Solve` | src/bin/day16.rs:19-77 | `solve` records least costs from the start facing right. When it answers, its first number is the least cost of any walk to the end cell, and no recorded score exceeds it. Its second number is the cell count of the backward pass from the arrival, at least 1, and every marked state lies on a walk from the start to the end cell of that least cost. It answers `None` only when the end is unreachable or the arrival faces down or left |
| `Day16.PushSuccessors` | src/bin/day16.rs:38-65 | one round pushes exactly the unsettled floor candidates, straight on first and then each turn |
| `Day16.DiscardSettled` | src/bin/day16.rs:67-74 | the discard loop keeps the search invariant, leaves a top whose state is not recorded, and only removes entries |
| `Day16.ArrivalFacing` | src/bin/day16.rs:79-91 | with one recorded state on the end cell, the backward pass has a seed exactly when that state faces up or right |
| `Day16.SettledShrinks` | src/bin/day16.rs:31-32 | recording a new floor state leaves one fewer unsettled state of the maze, so the search ends |
| `Day16.FindMarks` | src/bin/day16.rs:118-138 | the scan finds `S` and `E` exactly when the text holds them, and each is the last such cell in reading order |
| `Day16.ScanCell` | src/bin/day16.rs:121-136 | reading one more character records its cell when it is the marker |
| `Day16.NextRow` | src/bin/day16.rs:120-137 | reading a whole line is reading up to the start of the next |
| `Day16.Finished` | src/bin/day16.rs:120-138 | after the last line the remembered cell is the last marker, or none when there is no marker |
| `Day16.ParseInput` | src/bin/day16.rs:116-145 | `parse_input` succeeds exactly when the map parses and both markers occur, and returns the parsed map and the last `S` and `E` |
| `Day16.MarkIsOpen` | src/bin/day16.rs:116-145 | a marker's cell parses to floor, so the start found is one `solve` accepts |
| `Day17.GetInstruction` | src/bin/day17.rs:94-106 | `get_instruction` accepts exactly the opcodes 0 to 7 and yields the instruction with that opcode; any other opcode panics |
| `Day17.GetInstructionOfOpcode` | src/bin/day17.rs:94-106 | decoding an instruction's opcode gives the instruction back |
| `Day17.Combo` | src/bin/day17.rs:52-60 | `combo` stands for its own value for 0 to 3 and for register a, b or c for 4, 5 or 6, and panics otherwise |
| `Day17.Xor` | src/bin/day17.rs:66-68 | the bitwise `^` of `bxl` and `bxc`, bit by bit on non-negative registers; `Day17.XorTwice` states that xor-ing twice with the same operand gives the value back |
| `Day17.Shr` | src/bin/day17.rs:62-64 | the `>>` of `adv`, `bdv` and `cdv` as division by a power of two rounded down; `Day17.ShrNonNegative` states that it keeps a non-negative register non-negative and no larger |
| `Day17.XorTwice` | src/bin/day17.rs:66-68 | xor-ing twice with the same operand gives the register back |
| `Day17.ShrNonNegative` | src/bin/day17.rs:62-64 | a right shift of a non-negative register is non-negative and no larger |
| `Day17.Effect` | src/bin/day17.rs:62-92 | what each opcode function does to the registers, with `None` where `combo` panics; `Day17.EffectProperties` states each instruction's effect and when it panics, and the `Day17.State` methods are proved to match it |
| `Day17.EffectProperties` | src/bin/day17.rs:62-92 | an opcode function panics exactly when it reads a combo operand above 6; otherwise registers stay non-negative, only `out` appends to the output, one value in 0..7, only `jnz` touches the instruction pointer, `bst` leaves b in 0..7, and `adv`, `bdv` and `cdv` store `a >> combo` in a, b and c |
| `Day17.Step` | src/bin/day17.rs:20-22 | one pass of the loop body keeps the registers non-negative |
| `Day17.StepInstructionPointer` | src/bin/day17.rs:19-78 | a taken `jnz` moves the instruction pointer to its operand; every other pass moves it on by 2 |
| `Day17.Run` | src/bin/day17.rs:17-25 | the registers stay non-negative however long the machine runs |
| `Day17.RunHaltsOutside` | src/bin/day17.rs:19 | the machine halts only with the instruction pointer outside the program, and its output only ever grows |
| `Day17.StepOf` | src/bin/day17.rs:20-22 | a pass runs the decoded opcode function on the next word and then adds 2 to the instruction pointer |
| `Day17.RunStep` | src/bin/day17.rs:19-23 | running is one pass followed by running the rest |
| `Day17.RunMoreFuel` | src/bin/day17.rs:17-25 | a run that halts gives the same result with any larger bound |
| `Day17.Test1` | src/bin/day17.rs:165-170 | `bst 6` with c = 9 halts with b = 1 |
| `Day17.Test2` | src/bin/day17.rs:172-177 | `out 0, out 1, out 4` with a = 10 halts with output 0,1,2 |
| `Day17.HalvingRound` | src/bin/day17.rs:179-186 | one pass through the loop of `adv 1, out 4, jnz 0` halves a, prints the half mod 8 and jumps back while it is not zero |
| `Day17.HalvingRun` | src/bin/day17.rs:179-186 | from any positive a, that program halts with a = 0 and prints the successive halves of a mod 8 |
| `Day17.HalvingOf2024` | src/bin/day17.rs:179-186 | from a = 2024 it makes 11 passes and prints 4,2,5,6,7,7,7,7,3,1,0 |
| `Day17.HalvingOutputOf2024` | src/bin/day17.rs:184 | the halves of 2024 mod 8 are 4,2,5,6,7,7,7,7,3,1,0 |
| `Day17.Test3` | src/bin/day17.rs:179-186 | from a = 2024 the program halts within 33 instructions with that output and a = 0 |
| `Day17.State.constructor` | src/bin/day17.rs:149-159 | `State::new` sets the three registers, the instruction pointer to 0 and the output to empty |
| `Day17.State.Clone` | src/bin/day17.rs:140 | a clone holds the same registers, instruction pointer and output |
| `Day17.State.Adv` | src/bin/day17.rs:62-64 | `adv` updates the state as the opcode function's effect says |
| `Day17.State.Bxl` | src/bin/day17.rs:66-68 | `bxl` updates the state as the opcode function's effect says |
| `Day17.State.Bst` | src/bin/day17.rs:70-72 | `bst` updates the state as the opcode function's effect says |
| `Day17.State.Jnz` | src/bin/day17.rs:74-78 | `jnz` updates the state as the opcode function's effect says |
| `Day17.State.Bxc` | src/bin/day17.rs:79-81 | `bxc` updates the state as the opcode function's effect says |
| `Day17.State.Out` | src/bin/day17.rs:82-86 | `out` updates the state as the opcode function's effect says |
| `Day17.State.Bdv` | src/bin/day17.rs:87-89 | `bdv` updates the state as the opcode function's effect says |
| `Day17.State.Cdv` | src/bin/day17.rs:90-92 | `cdv` updates the state as the opcode function's effect says |
| `Day17.State.Execute` | src/bin/day17.rs:94-106 | calling the function `get_instruction` returned has that opcode's effect on the state |
| `Day17.State.Cycle` | src/bin/day17.rs:20-22 | a pass of the loop body succeeds exactly when it would not panic, and then leaves the state one step on; otherwise it changes nothing |
| `Day17.Solve` | src/bin/day17.rs:17-25 | `solve` works on a fresh copy of the start state and ends in the state of the bounded run, reporting whether it halted, panicked or used up the bound |

## Left out

Contracts stated weaker than the source's behaviour:
- `Day04.Solve` and `Day04.MatchCounted`: `Day04.MatchCounted` states only that one match makes the count positive. The exact count is `Day04.CountDirections` summed over the cells, and no closed form for it is proved.
- `Day10.TrailheadRating`: proved equal to the count recurrence `RatingLevel` and never below the score. It is not proved equal to the number of distinct hiking trails listed one by one.
- `Day12.RegionsClosed`: closure of a region under same-plant neighbours is proved only on square maps. On other maps `contains` compares `x` against the height, so `neighbors` may omit cells of the map and regions are closed only as far as `neighbors` reaches (`Day12.ClosedSoFar`).
- `Day06.GetPositions`: requires that the guard leaves the map. On a looping map the source loops forever; `Day06.HasLoop` decides that case first.
- `Day09.Compact` and `Day09.Solve`: require at least one free block and one file block in the expanded disk map. Without them the source's pointer loops run off the end and panic.
- `Day17.Solve`: runs for at most `fuel` instructions and reports `FuelExhausted` beyond that, because a program need not halt. It also requires non-negative registers and program words, because xor is modelled on naturals.
- `Day16.MarksOnLeastWalks`: proves one direction only: every marked state lies on a least walk to the end. The converse, that every state of every least walk is marked, is not proved. It would need every state scoring at most the arrival's to be recorded, and the search invariant does not state that.
- `Day16.Solve`: where the source panics (the heap runs empty, or no end state facing up or right is recorded), the model answers `None` and says which case it was.
- `Day15.Solve`, `Day16.Solve`, `Day12.Solve`, `Day10.Solve`, `Day10.TrailheadScore` and `Day10.TrailheadRating`: require a map on which the source's unchecked indexing never panics. For days 15 and 16 that is a map surrounded by walls. For days 10 and 12 it is a rectangular map at least as wide as it is tall.
- `Day06.HasLoop`, `Day06.GetPositions` and `Day06.Solve2`: require that the guard can take a first step. A guard boxed in on all four sides makes the source's `next_state` turn forever; after the first step the cell behind the guard is always free (`Day06.BackIsFree`).
- `Day06.HasLoop`, `Day06.GetPositions` and `Day06.Solve2`: also require every row to be at least as long as the first, which fixes `size`. The source accepts any row lengths and panics only when the guard reads a cell past the end of a shorter row. Such maps are not modelled.

Operations not modelled:
- Every `main`: reading the input file, summing the per-line results and printing. The `solve`/`solve2` functions that `main` calls are modelled.
- `src/bin/day03.rs`: its logic is a `regex` crate pattern, and that library is not part of this model.
- The regex-based parsers: `parse_input` of days 13 and 15, and `Robot::from_multi_str` of day 14. The models take the parsed `Config`, map and robots as inputs.
- The line parsing in `main` of days 1 and 2, `parse_input` of days 5 and 11, and `parse_register`/`parse_input` of day 17. These are `lines`/`split`/`parse` pipelines whose results the models take as inputs.
- `solve2` of day 17: a heuristic digit search with no stated result.
- `Display` and `Debug` impls: formatting only.
- `sort` and `sort_by` (days 1 and 5): `Sorting` stands in with a stable insertion sort. Day 1 relies only on its result being the sorted permutation. For Day 5 the result is stated only as some permutation of the update; that it is ordered by the comparator is not proved.
- `BinaryHeap`, `HashMap` and `HashSet` are modelled as sequences, maps and sets. Iteration order is not modelled, so only order-independent results are stated. The day 16 heap is a sequence whose top is its first entry of least score; among equal scores the source may pop a different entry.
- `IndexMut` and `RemAssign`: the days that write through `&mut Map` (the `processed` grid of day 12, the warehouse of day 15, the obstacle of day 6) reassign a map value instead of updating it in place. Rust's exclusive borrow means no aliasing is lost.
- Integer overflow: `i32`, `i64`, `u64` and `usize` arithmetic is unbounded here. Overflow panics and wrap-around are not modelled.
- Concurrency, file I/O and the process exit status: the core has no concurrency, and the rest is reached only through `main`.
