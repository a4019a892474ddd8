# Advent of Code 2024 solutions, modelled in Dafny

This project models the Rust solutions of Advent of Code 2024 found in
`src/bin/`, for days 1, 2, 4 to 12, 14, 15 and 16. Each `partN(input: &str)` becomes a
`Part1`/`Part2` method from the input text to a `Result`. Each solution's own
structures (grids, maps, graphs, heaps, flood fills) become datatypes,
classes and methods proved against functional specifications. Lemmas then
state what the puzzle answer means.

Modules, one per source file or part of one:

- Shared helpers:
  - `Wrappers` holds `Option` and `Result`.
  - `Text` models the `str` helpers the solutions call: `lines`, `split_once`, `split`, `split_whitespace`, `parse::<u64>`/`<i64>`, `to_digit` and `trim_ascii_end`.
  - `Digits` covers decimal digit counts and powers of ten.
  - `Sorting` is an insertion sort standing in for `sort`.
  - `Seqs` holds facts about sequences without repeats.
  - `Vectors` is `IVec2`.
- `Day1`, `Day2`, `Day4`, `Day5`, `Day7`, `Day8`, `Day9`, `Day11` each model one source file.
- Day 6:
  - `Day6` is the lab and the guard's route.
  - `Day6Loops` is the table of next obstructions kept in the two `BTreeSet` orders.
  - `Day6Jumps` is the loop detection of part 2.
- Day 10:
  - `Day10` is the stack search of both parts.
  - `Day10Trails` proves the rating is the number of distinct hiking trails.
- Day 12:
  - `Day12` is the garden and its regions.
  - `Day12Flood` is the stack and queue fills.
  - `Day12Sides` is the grouping of fence sections into sides.
  - `Day12Scan` is both parts' scans and prices.
- Day 14: `Day14`, with the robots kept in an array.
- Day 15:
  - `Day15Grid` is the shared grid and GPS sum.
  - `Day15` is part 1's `WarehouseMap`.
  - `Day15Wide` is the widened map and the horizontal push.
  - `Day15Push` specifies the vertical box-stack push.
  - `Day15WideMap` is the `WideWarehouseMap` class with `try_move` and part 2.
- Day 16:
  - `Day16Maze` is the parse.
  - `Day16Graph` is the junction graph built with `add_node` and `update_edge`.
  - `Day16Walks` holds walks and least costs.
  - `Day16Solver` is part 2's `BinaryHeap` search with tie tracking.
  - `Day16Tiles` is the backtrack over recorded ties.
  - `Day16` runs both parts.

Where the code departs from the puzzle's rules, the model follows the code:

- Day 15 reads `.` in the movement list as North.
- Day 16 adds one turn, 1000, to every leg that leaves the start in a direction other than East. That includes West, where the reindeer would need two turns. A leg is priced the same from either end.
- Day 7 stops evaluating a combination once its running value exceeds the test value. So `0: 6 7 0`, which `6 * 7 * 0` satisfies, is not counted. The model has this behaviour, and `Day7.RunMissesZeroOperand` shows the case.
- Day 11 splits the input on single spaces (day11.rs:21 and 64) and does not trim it. An input ending in a newline therefore fails to parse, since its last stone holds the `\n`. `Day11.CountAfter` fails on it too.

## Model

| member | source | states |
|---|---|---|
| `Text.Lines` | src/bin/day1.rs:14 | `str::lines`: no line holds a `\n`, and only the empty text has no lines |
| `Text.LinesOfTerminated` | src/bin/day1.rs:14 | lines with no `\n` that do not end in `\r`, each followed by `\n`, are split back into exactly those lines |
| `Text.SplitWhitespace` | src/bin/day1.rs:15 | `str::split_whitespace`: every token is non-empty and holds no whitespace |
| `Text.SplitWhitespaceSpaced` | src/bin/day1.rs:15 | splitting words joined by single spaces gives the words back |
| `Text.ParseU64` | src/bin/day1.rs:17-20 | `str::parse::<u64>`: a parsed value is below 2^64 and the token starts with a digit or `+` |
| `Text.ParseU64OfDecimal` | src/bin/day1.rs:17-20 | every `u64` printed in decimal parses back to itself |
| `Text.ParseU64OrError` | src/bin/day7.rs:27 | `str::parse::<u64>` with its error: Ok exactly when `ParseU64` succeeds, with its value; otherwise the `ParseIntError` message |
| `Text.ParseI64` | src/bin/day2.rs:38 | `str::parse::<i64>`: a parsed value lies in [-2^63, 2^63) |
| `Text.ParseI64OfDecimal` | src/bin/day2.rs:38 | every `i64` printed in decimal (with `-` when negative) parses back to itself |
| `Text.Split` | src/bin/day2.rs:38 | `str::split(c)`: at least one piece, none holding `c` |
| `Text.JoinSplit` | src/bin/day2.rs:38 | joining the pieces with `c` gives the text back |
| `Text.ParseEach` | src/bin/day2.rs:38-39 | collecting parse results into a `Result<Vec<_>>`: Ok exactly when every item parses, with the items' values in order; otherwise the error of an item that fails |
| `Text.SplitOnce` | src/bin/day5.rs:14-16 | `str::split_once`: the text is the part before, the separator and the part after, with no earlier occurrence; None exactly when the separator never occurs |
| `Text.SplitOnceAt` | src/bin/day5.rs:23-25 | a one-character separator splits `a + sep + b` at the end of `a` when `a` holds none |
| `Text.TrimAsciiEnd` | src/bin/day9.rs:68 | `str::trim_ascii_end`: a prefix of the text, not ending in ASCII whitespace, with only ASCII whitespace cut off |
| `Text.ToDigit` | src/bin/day9.rs:69-72 | `char::to_digit(10)`: a value exactly for `'0'..='9'`, below 10 and naming that character |
| `Text.IndexOf` | src/bin/day7.rs:23-25 | the first index of a character, and none exactly when it does not occur |
| `Text.EveryIff` | src/bin/day2.rs:37-39 | the back-to-front `Every` predicate holds exactly when every item satisfies `p` |
| `Digits.NumDigitsBounds` | src/bin/day11.rs:38-39 | `ilog10(n) + 1` digits: `10^(d-1) <= n < 10^d` for a positive `n` |
| `Digits.NumDigitsUnique` | src/bin/day11.rs:38-39 | those bounds determine the digit count |
| `Digits.Pow10Add` | src/bin/day11.rs:41-45 | `10^(a+b) = 10^a * 10^b` |
| `Sorting.Sort` | src/bin/day1.rs:30-31 | `sort_unstable`: an ascending permutation of the input |
| `Sorting.SortedUnique` | src/bin/day1.rs:30-31 | two ascending orders of the same elements are equal, so which stable or unstable sort is used does not matter |
| `Sorting.SortPermutation` | src/bin/day1.rs:30-31 | sorting two arrangements of the same elements gives one result |
| `Seqs.DistinctCard` | src/bin/day10.rs:194-219 | a sequence with no repeated entry has as many distinct members as entries |
| `Day1.ParseIds` | src/bin/day1.rs:14-24 | one line is Ok exactly when its first two whitespace-separated tokens parse as `u64`, with those values; further tokens are ignored; a blank line reports the first id missing |
| `Day1.ReadColumns` | src/bin/day1.rs:14-28 | Ok exactly when every line parses; then the columns hold each line's ids in order; otherwise the error is that of the first line that fails |
| `Day1.Part1` | src/bin/day1.rs:10-40 | Ok exactly when every line parses; then the sum of absolute differences of the two columns, each sorted ascending |
| `Day1.TotalDistanceOrderFree` | src/bin/day1.rs:30-37 | the part-1 answer depends only on the multisets of the two columns, not on the order of the lines |
| `Day1.PairedDistanceSymmetric` | src/bin/day1.rs:33-37 | `abs_diff` summed over the zipped columns is the same with the columns swapped |
| `Day1.AddIdStep` | src/bin/day1.rs:64-66 | one `entry(id).or_default() += id` keeps every entry equal to its id times its number of occurrences so far |
| `Day1.IdSums` | src/bin/day1.rs:62-66 | the map has exactly the ids of the right column as keys, each mapped to the id times its number of occurrences |
| `Day1.LookupSumIsSimilarity` | src/bin/day1.rs:68-76 | looking every left id up, with 0 for an absent one, sums to Σ id × (occurrences on the right) |
| `Day1.SimilarityOrderFree` | src/bin/day1.rs:68-76 | the similarity score depends only on the multiset of the right column |
| `Day1.Part2` | src/bin/day1.rs:42-79 | Ok exactly when every line parses; then the similarity score of the two columns |
| `Day2.DirectionOf` | src/bin/day2.rs:16-28 | `ReportDirection::try_from`: Descending exactly for a negative difference, Ascending exactly for a positive one, an error for 0 |
| `Day2.IsSafeDiff` | src/bin/day2.rs:30-32 | true exactly when 1 <= \|d\| <= 3 |
| `Day2.UnsafeStep` | src/bin/day2.rs:54-56 | one unsafe step makes a report unsafe in both directions |
| `Day2.ScanReport` | src/bin/day2.rs:47-74 | part 1's scan counts a report exactly when it has at least three levels and every step is safe and goes the same way, so reports of one or two levels never count |
| `Day2.LevelOf` | src/bin/day2.rs:38 | one level parses exactly when it is an `i64`; a failure names the piece |
| `Day2.Part1` | src/bin/day2.rs:34-78 | Ok exactly when every line parses; then the number of strictly safe reports |
| `Day2.MajorityDirection` | src/bin/day2.rs:93-120 | the direction at least two of the first three steps show (Ascending checked first); none when neither does, and then the report is skipped |
| `Day2.FirstUnsafe` | src/bin/day2.rs:138-143 | the first step from `from` on that is not safe in the report's direction |
| `Day2.RestoreShift` | src/bin/day2.rs:147 | writing the removed level back over its neighbour removes the level to its right instead |
| `Day2.FirstRemoval` | src/bin/day2.rs:153-162 | the first failure removes the left level of the failing step |
| `Day2.SecondRemoval` | src/bin/day2.rs:146-152 | the second failure puts that level back, which removes the right level of the first failing step |
| `Day2.GiveUp` | src/bin/day2.rs:145 | a third failure means neither removal makes the report safe |
| `Day2.ScanDone` | src/bin/day2.rs:169-171 | a scan that reaches the last step found a report that is safe after at most the one removal tried |
| `Day2.Restart` | src/bin/day2.rs:143-164 | one unsafe step: the first time remove its left level, the second time restore it over its neighbour, the third time stop; every retry spends one of the two restarts |
| `Day2.Dampen` | src/bin/day2.rs:134-172 | the dampener loop counts a report exactly when it is safe as it is, or with the left or the right level of its first unsafe step removed |
| `Day2.TolerateReport` | src/bin/day2.rs:93-172 | part 2's verdict on one report of at least four levels: the dampener's answer in the majority direction, not counted when there is none |
| `Day2.RemovalAtFirstUnsafe` | src/bin/day2.rs:134-164 | a single removal that makes an unsafe report safe takes out a level of its first unsafe step |
| `Day2.MajorityFindsDirection` | src/bin/day2.rs:93-120 | a report safe in direction `d`, with or without one level, shows `d` in at least two of its first three steps |
| `Day2.ToleratedSound` | src/bin/day2.rs:93-172 | a report part 2 counts is safe in its majority direction after at most one removal |
| `Day2.ToleratedComplete` | src/bin/day2.rs:93-172 | a report that some single removal (or none) makes safe is counted |
| `Day2.ToleratedIffOneRemoval` | src/bin/day2.rs:93-172 | part 2 counts a report exactly when removing at most one level makes it safe in one direction |
| `Day2.ReadLongReport` | src/bin/day2.rs:84-91 | a line is read exactly when it parses and has at least four levels; a shorter report fails the part |
| `Day2.TallyLine` | src/bin/day2.rs:83-172 | one line of part 2 adds its verdict to the count of the reports read so far |
| `Day2.Part2` | src/bin/day2.rs:80-176 | Ok exactly when every line parses into at least four levels; then the number of reports the dampener lets through |
| `Day4.Xy` | src/bin/day4.rs:47-60 | `Direction::xy`: a unit step, each coordinate in -1..=1 and never zero |
| `Day4.OppositeReverses` | src/bin/day4.rs:34-45 | `opposite` undoes itself, and its step is the negated step |
| `Day4.FromLines` | src/bin/day4.rs:77-102 | `WordSearch::from_iter`: built exactly when there is at least one row and every row has the first row's length (otherwise the asserts panic), keeping the rows |
| `Day4.AheadInBounds` | src/bin/day4.rs:112-119 | a straight line whose two ends are in the grid lies in the grid at every step |
| `Day4.ValidDirections` | src/bin/day4.rs:108-122 | `valid_directions`: a direction is kept exactly when the third step from the cell stays in the grid |
| `Day4.Filter` | src/bin/day4.rs:109-121 | the filter keeps exactly the listed directions whose third step stays in the grid |
| `Day4.XmasAtLetters` | src/bin/day4.rs:137-148 | XMAS reads along a direction exactly when the cell holds X and the next three cells hold M, A and S |
| `Day4.FilterKeepsCount` | src/bin/day4.rs:136 | leaving out directions that leave the grid loses no XMAS reading |
| `Day4.NoXNoCount` | src/bin/day4.rs:129-133 | a cell not holding X starts no reading, so skipping it loses nothing |
| `Day4.ReadsMas` | src/bin/day4.rs:137-148 | the letter loop with its `break`: reports a find exactly when XMAS reads along the direction |
| `Day4.CountAtCell` | src/bin/day4.rs:136-149 | the readings counted at an X cell are those along all eight directions |
| `Day4.CountAlong` | src/bin/day4.rs:136-149 | the direction loop counts exactly the directions among those listed along which XMAS reads |
| `Day4.CountDirectionsAt` | src/bin/day4.rs:136-149 | the count from one direction on is that direction's reading plus the count of the rest |
| `Day4.ScanRowForXmas` | src/bin/day4.rs:129-150 | the scan of one row counts every reading that starts in that row |
| `Day4.Part1` | src/bin/day4.rs:105-154 | `part1`: fails exactly when the word search cannot be built, and otherwise returns the number of (cell, direction) pairs along which XMAS reads |
| `Day4.CrossesAt` | src/bin/day4.rs:173-190 | the diagonal loop with its `break`: counts the cell exactly when both diagonals through the A read MAS one way or the other |
| `Day4.ScanRowForCrosses` | src/bin/day4.rs:162-191 | the scan of one row counts every interior A where two MAS cross |
| `Day4.Part2` | src/bin/day4.rs:156-195 | `part2`: fails exactly when the word search cannot be built, and otherwise returns the number of interior cells where two MAS cross |
| `Day5.RuleOf` | src/bin/day5.rs:21-26 | one rule line is accepted only when it holds a `\|` separator, both sides then parsing as `u64` |
| `Day5.RuleList` | src/bin/day5.rs:20-32 | the rule lines parse to one pair per line, or fail |
| `Day5.AddRule` | src/bin/day5.rs:28-31 | `entry(p).or_default().insert(q)`: the rules afterwards are the old ones plus `p\|q`, and no page maps to an empty set |
| `Day5.RuleListStep` | src/bin/day5.rs:20-32 | parsing one more rule line appends its pair, or fails when that line fails |
| `Day5.BuildRules` | src/bin/day5.rs:18-32 | the rule loop succeeds exactly when every rule line parses, and then holds exactly the pairs the lines state |
| `Day5.RuleListErrPersists` | src/bin/day5.rs:20-26 | the `?` on the first bad rule line decides the error whatever lines follow |
| `Day5.ReadUpdate` | src/bin/day5.rs:39-47 | an update line is accepted exactly when its comma-separated pages all parse and their number is odd, and then yields those pages |
| `Day5.CheckOrder` | src/bin/day5.rs:49-60 | the scan with `seen_pages` finds the update correct exactly when no page comes after a page it must precede |
| `Day5.Restrict` | src/bin/day5.rs:107-122 | the per-update rules hold exactly the rules between pages of the update, with no empty rule set |
| `Day5.PageSet` | src/bin/day5.rs:107 | `page_set` holds exactly the pages of the update |
| `Day5.RestrictKeepsCorrect` | src/bin/day5.rs:124-136 | checking an update against the restricted rules gives the same verdict as against all rules |
| `Day5.RemovePage` | src/bin/day5.rs:150-162 | removing an emitted page drops it from every rule set and drops the rule sets left empty |
| `Day5.FreePageExists` | src/bin/day5.rs:146-147 | when the rules among the queued pages have no cycle, some queued page has no rule left, so the loop can always emit a page |
| `Day5.HigherRanked` | src/bin/day5.rs:147 | a page that still has a rule must precede a queued page of greater rank |
| `Day5.TopRanked` | src/bin/day5.rs:146-147 | a queued page of greatest rank |
| `Day5.FirstFree` | src/bin/day5.rs:146-165 | the number of pops until a page with no rule left comes up |
| `Day5.RotateFree` | src/bin/day5.rs:163-165 | pushing a waiting page to the back brings the next free page one pop nearer, which is why the loop ends |
| `Day5.EmitStep` | src/bin/day5.rs:147-162 | emitting a free page keeps the loop invariant: emitted pages come after every page they must precede |
| `Day5.WaitStep` | src/bin/day5.rs:163-165 | pushing a waiting page back keeps the loop invariant |
| `Day5.ReadyFree` | src/bin/day5.rs:146-147 | without a rule cycle a non-empty queue holds a page with no rule left |
| `Day5.EmitReady` | src/bin/day5.rs:147-162 | emitting the free page at the front keeps the queue ready: no empty rule set, rules only between queued pages, no cycle, a free page |
| `Day5.WaitReady` | src/bin/day5.rs:163-165 | pushing a waiting page to the back keeps the queue ready |
| `Day5.Drain` | src/bin/day5.rs:146-166 | the order the loop emits the pages in, one page per queued page |
| `Day5.DrainOrdered` | src/bin/day5.rs:146-166 | the pages emitted so far followed by the rest of the run form a permutation of the update in which every page comes after all the pages it must precede |
| `Day5.RestrictReady` | src/bin/day5.rs:107-121 | an update without a rule cycle starts the loop ready under its restricted rules |
| `Day5.QueueOrder` | src/bin/day5.rs:142-166 | part 2's reordering of one update: the queue's order under the rules restricted to its pages, as long as the update |
| `Day5.QueueOrderOrdered` | src/bin/day5.rs:142-166 | that order is a permutation of the update in which every page comes after all the pages it must precede |
| `Day5.Reorder` | src/bin/day5.rs:142-166 | the `VecDeque` loop halts on rules without a cycle and emits exactly the queue's order `Drain` of the update |
| `Day5.Reverse` | src/bin/day5.rs:142 | the pages in reverse order |
| `Day5.ReversedIsCorrect` | src/bin/day5.rs:142-166 | read backwards, such a permutation of an update without repeated pages breaks no rule |
| `Day5.ReorderFixes` | src/bin/day5.rs:107-166 | the reordering under the restricted rules, read backwards, breaks none of the full rules |
| `Day5.DistinctPermutation` | src/bin/day5.rs:144 | a permutation of pages without repeats has no repeats |
| `Day5.CountAtMostOne` | src/bin/day5.rs:107 | a page occurs at most once in an update without repeats |
| `Day5.UpdatesOfSnoc` | src/bin/day5.rs:38-47 | one more accepted update line extends the parsed updates by its pages |
| `Day5.ReadRules` | src/bin/day5.rs:14-32 | the two sections and the rules: fails exactly when there is no blank-line separator or a rule line is bad, and otherwise gives the rules the lines state and the update lines |
| `Day5.RulesOfUnique` | src/bin/day5.rs:18-32 | the rule lines fix the rules map: two maps holding exactly the stated pairs and no empty set are equal |
| `Day5.UpdatesOfUnique` | src/bin/day5.rs:38-47 | the update lines fix the updates |
| `Day5.ParsedUnique` | src/bin/day5.rs:14-47 | the input fixes the rules and the updates, so each part's answer is a single value |
| `Day5.CorrectSumSnoc` | src/bin/day5.rs:62-63 | one more update adds its middle page to part 1's sum exactly when it is correct |
| `Day5.TallyCorrect` | src/bin/day5.rs:38-64 | one update line of part 1: fails exactly when the line is refused, and otherwise adds its middle page when it breaks no rule |
| `Day5.SumCorrect` | src/bin/day5.rs:36-66 | part 1's loop fails exactly when an update line is refused, and otherwise returns the sum of the middle pages of the correct updates |
| `Day5.Part1` | src/bin/day5.rs:13-67 | `part1`: fails exactly when the input is refused, and otherwise returns the sum of the middle pages of the updates that break no rule |
| `Day5.Reordered` | src/bin/day5.rs:105-169 | one update of part 2: adds nothing for a correct update and, for an incorrect one, the middle page of the queue's order under the rules restricted to its pages |
| `Day5.SumReordered` | src/bin/day5.rs:92-172 | part 2's loop fails exactly when an update line is refused, and otherwise returns the sum of the middle pages of the queue's orders of the incorrect updates |
| `Day5.Part2` | src/bin/day5.rs:69-173 | `part2`: fails exactly when the input is refused, and otherwise returns the sum of the middle pages of the queue's orders of the incorrect updates, one value per input (`ParsedUnique`) |
| `Day6.Decode` | src/bin/day6.rs:96-108 | `PositionType::try_from`: defined exactly for `.`, `^` and `#`, and an obstruction exactly for `#` |
| `Day6.InBounds` | src/bin/day6.rs:65-67 | `Lab::in_bounds`: both coordinates non-negative and below the column and row counts |
| `Day6.ParseFromMeaning` | src/bin/day6.rs:143-156 | the lazy character scan succeeds exactly when the rest of the text holds lab characters and at most one `^`; the start it returns is the `^` it meets; each error names a real defect |
| `Day6.DecodeRow` | src/bin/day6.rs:149-154 | a row of lab characters decodes cell by cell |
| `Day6.FromLines` | src/bin/day6.rs:36-62 | the parse at the head of both parts: succeeds exactly for lab characters, at least one row, rows of one length and one `^`, giving a valid lab whose start is an empty cell at the `^`; each failure names the first check that fails |
| `Day6.Xy` | src/bin/day6.rs:130-137 | `Direction::xy`: a unit step along one axis |
| `Day6.Next` | src/bin/day6.rs:121-128 | `Direction::next`: the step turned a quarter clockwise on a map whose y grows downwards |
| `Day6.FourTurns` | src/bin/day6.rs:121-128 | four right turns face the guard the way it started, and fewer do not |
| `Day6.Step` | src/bin/day6.rs:75-92 | one turn of the walk: stops exactly when the next cell is off the map; otherwise turns right on the spot exactly when the next cell is an obstruction, and else steps onto that empty cell |
| `Day6.RouteFuel` | src/bin/day6.rs:75-92 | the route does not depend on the bound it was counted with |
| `Day6.VisitedPositions` | src/bin/day6.rs:69-93 | `Lab::visited_positions`: the set of cells the guard stands on until the next step leaves the lab |
| `Day6.RouteIs` | src/bin/day6.rs:75-92 | the route counted with any sufficient bound is the route |
| `Day6.RouteWithinSafe` | src/bin/day6.rs:75-92 | a route from an empty cell holds its start and only empty cells of the lab |
| `Day6.RouteSafe` | src/bin/day6.rs:69-93 | the guard's route from the start holds the start and only empty cells of the lab |
| `Day6.Part1` | src/bin/day6.rs:140-161 | `part1`: fails exactly when the parse fails, with its error, and otherwise returns the number of distinct cells on the guard's route, at least one |
| `Day6Loops.Compare` | src/bin/day6.rs:187-189 | `Ord::cmp` on `i32`: equal exactly for equal values and less exactly for smaller ones |
| `Day6Loops.Cmp` | src/bin/day6.rs:181-229 | the `cmp` of `XFirstIVec2` and `YFirstIVec2`: equal exactly for equal cells; less by the first coordinate, or by the second when the first is equal |
| `Day6Loops.OrderTotal` | src/bin/day6.rs:181-229 | both wrapper orders are strict total orders, as `BTreeSet` requires |
| `Day6Loops.RangeNext` | src/bin/day6.rs:259-265 | `range((Excluded(lo), Excluded(hi))).next()`: the least member strictly between the bounds, or none |
| `Day6Loops.RangeLast` | src/bin/day6.rs:266-275 | `range(..).last()`: the greatest member strictly between the bounds, or none |
| `Day6Loops.NearestUnique` | src/bin/day6.rs:256-296 | the nearest obstruction ahead of a cell is unique |
| `Day6Loops.FirstNearest` | src/bin/day6.rs:259-265 | the first member of a range that holds exactly the cells ahead, ordered by distance, is the nearest obstruction ahead |
| `Day6Loops.LastNearest` | src/bin/day6.rs:266-275 | the last member of such a range ordered by reverse distance is the nearest obstruction ahead |
| `Day6Loops.NextObstructionFor` | src/bin/day6.rs:258-293 | each of the four range queries gives the nearest obstruction ahead of the cell in that direction, or none |
| `Day6Loops.Obstructions` | src/bin/day6.rs:239 | the obstructions are exactly the lab cells holding `#` |
| `Day6Loops.CollectObstructions` | src/bin/day6.rs:231-244 | the loops filling `obstructions_by_col` and `obstructions_by_row` collect exactly the obstructions of the lab |
| `Day6Loops.NextObstructions` | src/bin/day6.rs:246-299 | `next_obstructions` holds an entry for every empty cell and direction, each the nearest obstruction ahead |
| `Day6Loops.TableCell` | src/bin/day6.rs:256-296 | the four entries of one empty cell are added, each the nearest obstruction ahead, and nothing else changes |
| `Day6Loops.AllDirections` | src/bin/day6.rs:119 | `Direction::ALL` holds every direction |
| `Day6Loops.Candidate` | src/bin/day6.rs:319-332 | the `new_obstruction_position` closure: the candidate is returned exactly when it lies ahead of the guard, as the nearest obstruction among itself alone |
| `Day6Loops.NearerIsNearest` | src/bin/day6.rs:334-370 | the nearer of the nearest stops among two sets of obstructions is the nearest stop among both |
| `Day6Loops.NextStop` | src/bin/day6.rs:334-370 | the `next_obstruction` closure: the nearest obstruction ahead of the guard once the candidate is added |
| `Day6Loops.After` | src/bin/day6.rs:380-381 | after a hit the guard stands on the cell before the obstruction, turned right |
| `Day6Loops.ChainsAgree` | src/bin/day6.rs:372-384 | the jump walk is determined: two chains of hits agree wherever both are defined |
| `Day6Loops.LeavingIsNoLoop` | src/bin/day6.rs:374-384 | a walk that leaves the lab after distinct hits never loops |
| `Day6Loops.ChainExtends` | src/bin/day6.rs:374-383 | the nearest obstruction ahead extends the chain of hits |
| `Day6Loops.RepeatLoops` | src/bin/day6.rs:375-378 | meeting a recorded (obstruction, direction) hit again means the walk loops |
| `Day6Loops.Pairs` | src/bin/day6.rs:317 | every pair of an obstruction and a direction, the bound on `seen_obstructions` |
| `Day6Loops.StopIsEmpty` | src/bin/day6.rs:380 | the cell where the guard stops before an obstruction it meets from an empty cell is an empty cell of the lab |
| `Day6Loops.WalkOn` | src/bin/day6.rs:374-384 | recording a new hit and jumping keeps the loop invariant |
| `Day6Loops.LoopsWith` | src/bin/day6.rs:313-385 | the jump loop for one candidate reports a loop exactly when the walk with that obstruction added meets some hit twice |
| `Day6Jumps.Block` | src/bin/day6.rs:313-336 | the lab with a new obstruction: the same size, that one cell changed, its obstructions the old ones plus the candidate |
| `Day6Jumps.ForwardSameView` | src/bin/day6.rs:84-87 | a step onto an empty cell leaves the nearest obstruction ahead unchanged |
| `Day6Jumps.TurnHits` | src/bin/day6.rs:88-90 | a turn happens in front of the nearest obstruction ahead |
| `Day6Jumps.EdgeClear` | src/bin/day6.rs:80-82 | at the edge there is no obstruction ahead |
| `Day6Jumps.SameViewLeaves` | src/bin/day6.rs:372-384 | guards with the same view make the same chains |
| `Day6Jumps.LeavesCons` | src/bin/day6.rs:372-384 | a chain that leaves is its first hit followed by a chain that leaves from there |
| `Day6Jumps.ExitsToLeaves` | src/bin/day6.rs:75-92 | a step walk that leaves the lab leaves after some chain of hits |
| `Day6Jumps.LeavesToExits` | src/bin/day6.rs:75-92 | a chain of hits that leaves is a step walk that leaves the lab |
| `Day6Jumps.LeavingUnique` | src/bin/day6.rs:372-384 | there is only one chain that leaves |
| `Day6Jumps.LeavingSuffix` | src/bin/day6.rs:372-384 | the rest of a chain that leaves, after its first hits, leaves from where they left the guard |
| `Day6Jumps.LeavingDistinct` | src/bin/day6.rs:375-378 | a chain that leaves meets no hit twice |
| `Day6Jumps.NearestExists` | src/bin/day6.rs:258-293 | for any cell and direction some obstruction, or none, is nearest |
| `Day6Jumps.JumpOutcome` | src/bin/day6.rs:374-384 | the jump walk either meets a hit twice or leaves the lab |
| `Day6Jumps.LoopsIffStuck` | src/bin/day6.rs:313-385 | the jump walk loops exactly when the step walk of `visited_positions` never leaves the lab |
| `Day6Jumps.TrappingStep` | src/bin/day6.rs:376 | one more candidate raises the count of trapping candidates exactly when it traps the guard |
| `Day6Jumps.CountLoops` | src/bin/day6.rs:311-385 | the loop over the candidates counts exactly those whose obstruction keeps the guard in the lab for ever |
| `Day6Jumps.NoneCounted` | src/bin/day6.rs:311 | the count starts at zero with no candidate done |
| `Day6Jumps.CountOne` | src/bin/day6.rs:313-385 | one candidate adds one to the count exactly when it traps the guard |
| `Day6Jumps.Part2` | src/bin/day6.rs:163-388 | `part2`: fails exactly when the parse fails, and otherwise returns the number of cells of the part 1 route, other than the start, where a new obstruction keeps the guard in the lab for ever |
| `Day7.Radix` | src/bin/day7.rs:56 | the number of operators per position: 2 in part 1, 3 in part 2 |
| `Day7.OpOf` | src/bin/day7.rs:64-70 | the operator a digit selects; part 1's alphabet never concatenates |
| `Day7.Decode` | src/bin/day7.rs:61-70 | the operators a combination number stands for: one per position, all from the part's alphabet |
| `Day7.DigitOf` | src/bin/day7.rs:64-70 | the digit selecting an operator, below the radix, which `OpOf` maps back to that operator |
| `Day7.EncodeBound` | src/bin/day7.rs:56 | every operator sequence has a combination number below `radix^count`, the range the outer loop scans |
| `Day7.DecodeEncode` | src/bin/day7.rs:58-70 | decoding the combination number of an operator sequence gives the sequence back, so the search covers every sequence |
| `Day7.ApplyGrows` | src/bin/day7.rs:72 | no operator lowers the total when the operand is positive |
| `Day7.EvaluateGrows` | src/bin/day7.rs:61-77 | with positive operands the left-to-right value never ends below its start |
| `Day7.RunExact` | src/bin/day7.rs:74-76 | giving up once the total exceeds the test value is exact when every later operand is positive |
| `Day7.RunMissesZeroOperand` | src/bin/day7.rs:74-76 | the early `break` misses equations with a zero operand: `0: 6 7 0` holds with two multiplications, yet every run has passed 0 after `6 ? 7` |
| `Day7.CalibratedIff` | src/bin/day7.rs:58-82 | an equation is counted exactly when some operator sequence over the alphabet, run left to right with the early `break`, reaches the test value |
| `Day7.DecodeTop` | src/bin/day7.rs:112-113 | the top digit of a combination number selects the first operator, and the remainder the rest |
| `Day7.RunCons` | src/bin/day7.rs:72-76 | one step of the inner loop: the operator is applied, and the run stops there when the total exceeds the test value |
| `Day7.BitBelow` | src/bin/day7.rs:64 | testing bit `offset` of the bitset is reading the top digit of what lies below bit `offset + 1` |
| `Day7.RunBits` | src/bin/day7.rs:59-77 | part 1's inner loop computes the run of the operator sequence the bitset stands for |
| `Day7.RunTrits` | src/bin/day7.rs:103-135 | part 2's inner loop, which divides off the top trit and cuts the tritset down at every offset, computes the run of the sequence the tritset stands for |
| `Day7.RunCombination` | src/bin/day7.rs:58-79 | one combination's run reaches the test value exactly when that combination makes the equation hold |
| `Day7.Search` | src/bin/day7.rs:58-83 | the search over combination numbers, stopping at the first that holds, succeeds exactly when some combination holds |
| `Day7.CalibrationTotalBounded` | src/bin/day7.rs:51-86 | the total never exceeds the sum of the test values, and equals it when every equation is calibrated |
| `Day7.Part2Extends` | src/bin/day7.rs:122-128 | part 2's operators include part 1's, so every equation part 1 counts part 2 counts too |
| `Day7.Part2TotalAtLeast` | src/bin/day7.rs:45-145 | part 2's total is at least part 1's |
| `Day7.ConcatenateIsNumeralConcatenation` | src/bin/day7.rs:115-120 | `concatenate_int` of two numbers is the value of their decimal numerals written one after the other |
| `Day7.DecimalLength` | src/bin/day7.rs:116 | a number's decimal numeral has `ilog10 + 1` digits |
| `Day7.AllDigitsAppend` | src/bin/day7.rs:115-120 | two digit strings joined are a digit string |
| `Day7.DigitsValueAppend` | src/bin/day7.rs:115-120 | the value of two joined digit strings is the first shifted left by the second's length plus the second |
| `Day7.ParseEquation` | src/bin/day7.rs:19-43 | `Equation::from_str`: the missing-`:` error, and success exactly when the test value and every whitespace-separated operand parse as `u64` and there are at least two operands |
| `Day7.Numerals` | src/bin/day7.rs:29-30 | the decimal numerals of the operands |
| `Day7.ParseNumerals` | src/bin/day7.rs:29-32 | `u64` numerals parse back to themselves |
| `Day7.ParseEquationFormat` | src/bin/day7.rs:19-43 | every equation of `u64`s with at least two operands, written as `test: a b c`, parses back to itself |
| `Day7.ParseEquations` | src/bin/day7.rs:46-49 | collecting the parsed lines: one equation per line, each with at least two operands, or the first failure |
| `Day7.CalibrationTotalSnoc` | src/bin/day7.rs:79-81 | one more equation adds its test value to the total exactly when it is calibrated |
| `Day7.Total` | src/bin/day7.rs:51-144 | the loop over the equations returns the total calibration result |
| `Day7.Solve` | src/bin/day7.rs:45-87 | fails exactly when some line does not parse, and otherwise returns the total calibration result |
| `Day7.Part1` | src/bin/day7.rs:45-87 | `part1`: the total over equations that `*` and `+` can calibrate, or the parse error |
| `Day7.Part2` | src/bin/day7.rs:89-145 | `part2`: the total over equations that `\|\|`, `*` and `+` can calibrate, or the parse error |
| `Day8.AntennaOf` | src/bin/day8.rs:99-110 | `Antenna::try_from(..).ok()`: an antenna exactly for an ASCII alphanumeric character, tuned to that character |
| `Day8.BuildCity` | src/bin/day8.rs:34-66 | `City::from_iter`: built exactly when there is at least one row and all rows have one length (the asserts panic otherwise), each cell the antenna its character is |
| `Day8.InBoundsIsCell` | src/bin/day8.rs:94-96 | `City::in_bounds` holds exactly for the cells of the grid |
| `Day8.RowMajorAppend` | src/bin/day8.rs:73-88 | positions of earlier rows followed by positions of later ones stay in row-major order |
| `Day8.RowPositionsExact` | src/bin/day8.rs:76-87 | the positions recorded in a row are exactly its cells holding the frequency, in column order |
| `Day8.GridPositionsExact` | src/bin/day8.rs:73-88 | the positions recorded in the first rows are exactly their cells holding the frequency, in row-major order |
| `Day8.PositionsExact` | src/bin/day8.rs:69-92 | each frequency's positions are exactly the cells holding it, in row-major order |
| `Day8.FrequenciesPresent` | src/bin/day8.rs:83-86 | a frequency is present exactly when it has a position |
| `Day8.RecordOne` | src/bin/day8.rs:79-86 | recording one more cell keeps each frequency's entry equal to its positions scanned so far |
| `Day8.RecordStep` | src/bin/day8.rs:79-86 | recording one more cell keeps the map equal to the positions scanned so far |
| `Day8.ScanStart` | src/bin/day8.rs:73-76 | before a row is scanned the map holds the positions of the rows above |
| `Day8.ScanEnd` | src/bin/day8.rs:76-88 | once a row is scanned the map holds the positions of the rows up to it |
| `Day8.ScanRow` | src/bin/day8.rs:76-87 | the inner loop adds exactly one row's positions to the map |
| `Day8.AntennaPositions` | src/bin/day8.rs:69-92 | `City::antenna_positions`: keys exactly the frequencies present, each mapped to all its positions in row-major order |
| `Day8.StepBetween` | src/bin/day8.rs:151-158 | one step lies between a point and a whole number of steps from it, so the city's convexity lets the ray stop at the first point outside |
| `Day8.RayStepsOut` | src/bin/day8.rs:151-158 | every point `iter::successors` yields is in the city, a whole number of steps from the start |
| `Day8.RayReaches` | src/bin/day8.rs:151-158 | every point in the city a whole number of steps from the start is yielded |
| `Day8.RayExact` | src/bin/day8.rs:151-158 | the ray holds exactly the points of the city a whole number of steps from its start |
| `Day8.AntennasDefined` | src/bin/day8.rs:121-123 | every pair of a frequency's positions, first index below second, is a pair of distinct antennas in the city |
| `Day8.RowPointsExact` | src/bin/day8.rs:122-130 | the inner pair loop collects exactly the points of the pairs `(i, k)` with `k > i` |
| `Day8.PointsBelowFrom` | src/bin/day8.rs:121-131 | each point collected comes from a pair of the frequency's positions |
| `Day8.PointsBelowHas` | src/bin/day8.rs:121-131 | each pair of the frequency's positions contributes all its points |
| `Day8.AddRow` | src/bin/day8.rs:122-130 | the inner pair loop adds the points of the pairs `(i, j)` with `j > i` to the set |
| `Day8.AddFrequency` | src/bin/day8.rs:121-131 | the two nested pair loops add the points of every pair of one frequency to the set |
| `Day8.PositionsAreAntennas` | src/bin/day8.rs:83-86 | each frequency's positions are distinct cells of the city |
| `Day8.CollectAntinodes` | src/bin/day8.rs:114-132 | the loops over the frequencies, in any order, collect exactly the city's antinodes |
| `Day8.CollectedStep` | src/bin/day8.rs:116-131 | one more frequency adds the antinodes of its pairs |
| `Day8.AntinodesOfMap` | src/bin/day8.rs:116-120 | the antinodes gathered over the keys of the antenna map are the city's antinodes |
| `Day8.PairPointsExact` | src/bin/day8.rs:123-129 | a pair's antinodes are the in-bounds points beyond either antenna: one step of the difference out (part 1), or any whole number of steps from the antenna itself (part 2) |
| `Day8.AntinodeSource` | src/bin/day8.rs:116-131 | every antinode is in the city and lies beyond one of two distinct antennas of one frequency |
| `Day8.AntinodeOfPair` | src/bin/day8.rs:116-131 | every in-bounds point beyond one of two distinct antennas of one frequency is an antinode |
| `Day8.AntinodesExact` | src/bin/day8.rs:111-164 | the antinodes are exactly the in-bounds points beyond one of two distinct antennas of the same frequency |
| `Day8.NearestAreHarmonic` | src/bin/day8.rs:111-164 | part 1's antinodes are among part 2's |
| `Day8.AntennaIsHarmonic` | src/bin/day8.rs:151-158 | in part 2 an antenna sharing its frequency with another is itself an antinode |
| `Day8.CountAntinodes` | src/bin/day8.rs:111-164 | fails exactly when the city cannot be built, and otherwise returns the number of distinct antinodes |
| `Day8.Part1` | src/bin/day8.rs:111-135 | `part1`: the number of distinct antinodes one step beyond each antenna of a pair |
| `Day8.Part2` | src/bin/day8.rs:137-164 | `part2`: the number of distinct points in line with a pair of antennas, whole steps of their difference away |
| `Day9.Next` | src/bin/day9.rs:48-61 | `Block::next` alternates between file and free space |
| `Day9.NextBlockAt` | src/bin/day9.rs:39-61 | starting from the default block, `next` walks through the blocks of the digits in order: even digits files, odd digits free space, the id counting file/free pairs |
| `Day9.DiskOf` | src/bin/day9.rs:68-80 | one chunk per digit, with the block of its place and the digit as its length |
| `Day9.ParseDisk` | src/bin/day9.rs:64-80 | the parsing loop: succeeds exactly when the trimmed input is all decimal digits (with the source's error otherwise), giving the disk and the block after the last chunk |
| `Day9.Position` | src/bin/day9.rs:82-84 | `Iterator::position`: an index found holds an element satisfying the predicate |
| `Day9.PositionFrom` | src/bin/day9.rs:82-84 | the first index from a start on whose element satisfies the predicate |
| `Day9.PositionFromFirst` | src/bin/day9.rs:82-84 | the index found from a start is the first one satisfying the predicate, and none is found only when no element from there on does |
| `Day9.PositionFirst` | src/bin/day9.rs:82-84 | the index `position` finds is the first one satisfying the predicate, and none is found only when no element does |
| `Day9.PositionFromIs` | src/bin/day9.rs:82-84 | an index whose element satisfies the predicate, with every earlier one from the start failing, is the one found |
| `Day9.PositionIs` | src/bin/day9.rs:82-84 | an index whose element satisfies the predicate, with every earlier one failing, is the one `position` finds |
| `Day9.SumAppend` | src/bin/day9.rs:113-122 | a measure summed over two joined disks is the sum of the two |
| `Day9.SumOne` | src/bin/day9.rs:113-122 | a measure summed over one chunk is that chunk's share |
| `Day9.SumFour` | src/bin/day9.rs:94-110 | a measure summed over four joined pieces is the sum over the pieces |
| `Day9.NoFreeAllUsed` | src/bin/day9.rs:82-85 | a disk without free chunks is exactly as long as its files |
| `Day9.FillKeeps` | src/bin/day9.rs:86-110 | a pass keeps every file's total length and makes progress, so the loop ends |
| `Day9.FillKeepsLess` | src/bin/day9.rs:97-100 | a free chunk shorter than the last file takes its id, keeping every file's length and making progress |
| `Day9.FillKeepsEqual` | src/bin/day9.rs:101-104 | a free chunk as long as the last file takes it whole, keeping every file's length and making progress |
| `Day9.FillKeepsGreater` | src/bin/day9.rs:105-109 | a free chunk longer than the last file takes it in front and shrinks, keeping every file's length and making progress |
| `Day9.BlockCompaction` | src/bin/day9.rs:82-111 | part 1's compaction leaves no free chunk and keeps every file's total length |
| `Day9.FillFirstFree` | src/bin/day9.rs:86-110 | the loop body changes the disk as one pass does |
| `Day9.FillLess` | src/bin/day9.rs:97-100 | the `Ordering::Less` arm is that pass |
| `Day9.FillEqual` | src/bin/day9.rs:101-104 | the `Ordering::Equal` arm is that pass |
| `Day9.FillGreater` | src/bin/day9.rs:105-109 | the `Ordering::Greater` arm is that pass |
| `Day9.DropLastFree` | src/bin/day9.rs:89-92 | popping a free last chunk keeps every file's length and makes progress |
| `Day9.LessKeeps` | src/bin/day9.rs:97-100 | the less-than rearrangement keeps every file's length and lowers the free space |
| `Day9.EqualKeeps` | src/bin/day9.rs:101-104 | the equal rearrangement keeps every file's length and shortens the disk |
| `Day9.GreaterKeeps` | src/bin/day9.rs:105-109 | the greater-than rearrangement keeps every file's length and moves the first free chunk one nearer the end |
| `Day9.CompactBlocks` | src/bin/day9.rs:82-111 | part 1's `while let` loop computes the compaction, and the disk it leaves is exactly as long as the files were |
| `Day9.Repeat` | src/bin/day9.rs:117 | a chunk's blocks: `n` copies of its id |
| `Day9.Blocks` | src/bin/day9.rs:113-122 | the disk block by block, as long as the disk |
| `Day9.ChecksumRepeat` | src/bin/day9.rs:117-121 | a chunk placed after some blocks adds the sum of position times id over its range |
| `Day9.Checksum` | src/bin/day9.rs:113-122 | the closing loop computes the sum of position times id over every (counted) block |
| `Day9.RangeSumZero` | src/bin/day9.rs:180-184 | free space with id 0 adds nothing, so part 2 skipping it changes nothing |
| `Day9.RangeSumClosed` | src/bin/day9.rs:117-119 | the range sum in closed form |
| `Day9.Gauss` | src/bin/day9.rs:117-119 | Gauss's sum over a range of positions |
| `Day9.RangeSumScale` | src/bin/day9.rs:117-119 | the range sum of an id is the id times the range sum of positions |
| `Day9.Part1` | src/bin/day9.rs:63-125 | `part1`: fails exactly on a character that is not a digit, and otherwise returns the checksum of the block compaction |
| `Day9.MovedKeeps` | src/bin/day9.rs:165-173 | moving a file into free space that fits it keeps every file's length and the disk's length |
| `Day9.MovedPieces` | src/bin/day9.rs:165-173 | the pieces a move rearranges |
| `Day9.MovedSum` | src/bin/day9.rs:165-173 | each measure over the rearranged pieces |
| `Day9.HasFileFound` | src/bin/day9.rs:149-153 | the `find` succeeds when the file is on the disk |
| `Day9.MovedHasFile` | src/bin/day9.rs:165-173 | a move takes away no file other than the one moved |
| `Day9.FileMoveFails` | src/bin/day9.rs:149-153 | one pass of part 2 fails, with the `unwrap` error, exactly when no chunk has the id |
| `Day9.FileMoveKeeps` | src/bin/day9.rs:146-174 | a pass keeps every file's length and the disk's length |
| `Day9.FileMoveHasFile` | src/bin/day9.rs:146-174 | a pass takes away no other file |
| `Day9.KeepsFilesTrans` | src/bin/day9.rs:146-174 | keeping every file's length carries over successive passes |
| `Day9.FileCompactionStep` | src/bin/day9.rs:146 | a compaction that succeeds made a successful first pass and then compacts the ids below |
| `Day9.FileCompactionKeeps` | src/bin/day9.rs:146-174 | a successful part 2 compaction keeps every file's length |
| `Day9.FileCompactionLength` | src/bin/day9.rs:146-174 | a successful part 2 compaction keeps the disk's length |
| `Day9.MoveKeepsComplete` | src/bin/day9.rs:146-174 | a pass keeps every file below the one it moves |
| `Day9.FileMoveComplete` | src/bin/day9.rs:147-148 | a pass over a disk holding every file up to its id succeeds and keeps every lower file |
| `Day9.FileCompactionOk` | src/bin/day9.rs:147-148 | the compaction succeeds when every file it moves is on the disk |
| `Day9.FileCompactionFails` | src/bin/day9.rs:153 | the compaction can only fail with the `unwrap` error of a missing file |
| `Day9.FileCompactionMissing` | src/bin/day9.rs:149-153 | the compaction fails when the first file it moves is missing |
| `Day9.MoveFile` | src/bin/day9.rs:149-173 | part 2's loop body is one pass: the first chunk with the id moves into the leftmost free chunk before it that is long enough, or stays |
| `Day9.CompactFiles` | src/bin/day9.rs:146-174 | part 2's loop passes over every id from the last down to 1, once each |
| `Day9.ParsedFiles` | src/bin/day9.rs:132-144 | a parsed disk map of odd length holds every file id up to the last |
| `Day9.ParsedComplete` | src/bin/day9.rs:132-148 | a parsed disk map of odd length holds every file part 2 moves |
| `Day9.ParsedMissing` | src/bin/day9.rs:143-153 | a parsed disk map of even length ends on free space, so the file `next` announces is not on it and the `unwrap` fails |
| `Day9.Part2` | src/bin/day9.rs:127-190 | `part2`: succeeds exactly for an all-digit disk map of odd length (or an empty one), and then returns the checksum of the file compaction, free space counting nothing |
| `Day10.HeightRow` | src/bin/day10.rs:87-93 | a line of digits becomes its heights, each the digit's value and at most 9 |
| `Day10.FromLines` | src/bin/day10.rs:28-54 | the map is built exactly when every character is a digit, there is a row and all rows have one length; otherwise the panic that comes first (`expect`, then the two asserts) is the error |
| `Day10.Height` | src/bin/day10.rs:119 | a cell's height is at most 9 |
| `Day10.Neighbours` | src/bin/day10.rs:131-132 | the four neighbours, in the order of `Direction::ALL`, all distinct |
| `Day10.TrailHeights` | src/bin/day10.rs:143 | the cells of a trail rise by one per step |
| `Day10.ReachesStep` | src/bin/day10.rs:143-147 | a climbing step from a reached cell reaches a further cell |
| `Day10.ZerosInRow` | src/bin/day10.rs:104-110 | the height-0 cells of a row, left to right |
| `Day10.ZerosAbove` | src/bin/day10.rs:97-112 | the height-0 cells of the rows above, in reading order |
| `Day10.ReadingOrdered` | src/bin/day10.rs:101-111 | the rows above followed by the next row stay in reading order |
| `Day10.Trailheads` | src/bin/day10.rs:97-112 | the initial `search_stack`: every height-0 cell, once |
| `Day10.ClimbSet` | src/bin/day10.rs:131-149 | the climbing neighbours of a cell: in bounds, adjacent and one higher |
| `Day10.ExploredPeaks` | src/bin/day10.rs:122-128 | once a search has nothing pending, the 9s it visited are exactly the 9s a trail from its trailhead reaches |
| `Day10.OnTrail` | src/bin/day10.rs:131-149 | every cell after the first on a trail from the trailhead has been visited once its search has nothing pending |
| `Day10.StackPending` | src/bin/day10.rs:118-149 | a pass of either loop keeps every stacked cell in bounds and below 9 |
| `Day10.StackRatings` | src/bin/day10.rs:196-216 | the ratings of the stack split over its parts |
| `Day10.PushedBound` | src/bin/day10.rs:143-146 | the at most four cells pushed weigh less than the cell popped, so the loops end |
| `Day10.LevelBound` | src/bin/day10.rs:143-146 | at most four cells of one height weigh less than a cell one lower |
| `Day10.Look` | src/bin/day10.rs:131-149 | part 1's direction loop: every climbing neighbour becomes visited, and those not visited before and below 9 are pushed |
| `Day10.LookNeighbour` | src/bin/day10.rs:132-148 | one direction of that loop |
| `Day10.LookedAll` | src/bin/day10.rs:131-149 | after the four directions the loop has done its whole work |
| `Day10.ClimbsAmong` | src/bin/day10.rs:131-149 | the climbing cells among the first `k` neighbours |
| `Day10.DrainPeaks` | src/bin/day10.rs:122-128 | `visited_positions.drain()` counts the visited 9s, in any order |
| `Day10.Part1` | src/bin/day10.rs:83-161 | `part1`: fails exactly when the map cannot be built, with its panic as the error, and otherwise returns the sum over the trailheads of the number of 9s each reaches |
| `Day10.TrailheadsPending` | src/bin/day10.rs:97-112 | the initial stack holds only cells of the map below 9 |
| `Day10.NextTrailhead` | src/bin/day10.rs:118-121 | a height-0 cell comes off the stack only when its predecessor's search is over, and it is the next trailhead |
| `Day10.Finished` | src/bin/day10.rs:121-128 | once a trailhead's search is over, its drained 9s complete the score sum from it on |
| `Day10.Score` | src/bin/day10.rs:97-158 | part 1's search, one stack and one visited set shared by all trailheads, sums each trailhead's number of reachable 9s |
| `Day10.ScoreStep` | src/bin/day10.rs:118-149 | one turn of part 1's loop keeps the invariant and lowers the potential |
| `Day10.NextSearch` | src/bin/day10.rs:121-129 | a popped trailhead: the 9s of the finished search are drained into the sum and a new search starts |
| `Day10.PendingPopped` | src/bin/day10.rs:118 | a popped cell of height above 0 is the top of the current search's work |
| `Day10.Expand` | src/bin/day10.rs:131-149 | expanding the popped cell restores the invariant with a smaller potential |
| `Day10.Restart` | src/bin/day10.rs:121-128 | the 9s drained when the next trailhead comes up (or at the end) complete the sum from the trailhead just finished |
| `Day10.Resumed` | src/bin/day10.rs:131-149 | after an expansion the current trailhead's search is still under way |
| `Day10.LookExplores` | src/bin/day10.rs:131-149 | an expansion keeps the visited set a closed exploration from the trailhead |
| `Day10.LookReaches` | src/bin/day10.rs:143-147 | every visited cell is in bounds, above height 0 and reached from the trailhead |
| `Day10.LookPending` | src/bin/day10.rs:144-147 | every cell on the work stack is visited, in bounds and below 9 |
| `Day10.LookCloses` | src/bin/day10.rs:134-148 | after an expansion every climbing neighbour of an expanded cell is visited |
| `Day10.LookRating` | src/bin/day10.rs:199-216 | part 2's direction loop: what it counts now plus the ratings of the cells it pushes is the rating of the popped cell |
| `Day10.RateNeighbour` | src/bin/day10.rs:200-215 | one direction of that loop |
| `Day10.ViaStep` | src/bin/day10.rs:202-215 | the next direction adds its neighbour's rating when that neighbour climbs, and a climbing 9 counts one |
| `Day10.ViaSumRating` | src/bin/day10.rs:199-216 | the four directions together give the popped cell's rating |
| `Day10.Rate` | src/bin/day10.rs:177-217 | part 2's search sums the ratings of every trailhead |
| `Day10.RateStep` | src/bin/day10.rs:196-216 | a pass of part 2's loop keeps "counted plus stacked ratings is the total" and lowers the potential |
| `Day10.RateSum` | src/bin/day10.rs:196-216 | the counted sum plus the stacked ratings stays the total over the trailheads |
| `Day10.Part2` | src/bin/day10.rs:163-220 | `part2`: fails exactly when the map cannot be built, and otherwise returns the sum of the trailheads' ratings |
| `Day10Trails.Prefixed` | src/bin/day10.rs:209-215 | each enumerated trail with a cell put in front |
| `Day10Trails.RatingCountsTrails` | src/bin/day10.rs:196-216 | a cell's rating is the number of distinct complete hiking trails from it, climbing one step at a time to a 9 |
| `Day10Trails.TrailsSound` | src/bin/day10.rs:209-215 | every enumerated trail is a complete hiking trail from the cell |
| `Day10Trails.TrailsComplete` | src/bin/day10.rs:209-215 | every complete hiking trail from the cell is enumerated |
| `Day10Trails.TrailsDistinct` | src/bin/day10.rs:209-215 | no trail is enumerated twice |
| `Day10Trails.TrailsCount` | src/bin/day10.rs:209-215 | the number of enumerated trails from a cell is its rating |
| `Day10Trails.AmongCount` | src/bin/day10.rs:199-216 | the trails through the first `k` neighbours number the rating sum over those neighbours |
| `Day10Trails.AmongSound` | src/bin/day10.rs:199-216 | each trail through the first `k` neighbours is a complete trail whose second cell is one of them |
| `Day10Trails.PrefixedSound` | src/bin/day10.rs:209-211 | a climbing cell put in front of trails from its neighbour gives complete trails through that neighbour |
| `Day10Trails.TrailCons` | src/bin/day10.rs:209-211 | a climbing step in front of a trail is a trail |
| `Day10Trails.AmongHas` | src/bin/day10.rs:199-216 | a complete trail through one of the first `k` neighbours is enumerated |
| `Day10Trails.AmongDistinct` | src/bin/day10.rs:199-216 | the trails through the first `k` neighbours are distinct |
| `Day10Trails.PrefixedDistinct` | src/bin/day10.rs:209-211 | putting a cell in front keeps trails distinct |
| `Day10Trails.PrefixedSteps` | src/bin/day10.rs:209-211 | the prefixed trails all pass through the neighbour next |
| `Day10Trails.StepsDiffer` | src/bin/day10.rs:199-216 | trails through different neighbours are different |
| `Day11.Rewrite` | src/bin/day11.rs:34-54 | what one stone becomes: two stones exactly when it is positive with an even number of digits, otherwise one (0 becomes 1, any other stone times 2024) |
| `Day11.SplitHalves` | src/bin/day11.rs:38-47 | the halves of a split stone: the stone is the high half shifted left by half its digits plus the low half, the low half below that power of ten and the high half with exactly that many digits |
| `Day11.Euclid` | src/bin/day11.rs:43-44 | `stone_b = n - stone_a * divisor` is the remainder of the division |
| `Day11.DivBetween` | src/bin/day11.rs:43 | dividing by the divisor keeps bounds that are multiples of it, so the high half has half the digits |
| `Day11.BlinkAll` | src/bin/day11.rs:29-57 | one blink gives one more stone per splitting stone |
| `Day11.RewriteAt` | src/bin/day11.rs:32-56 | the loop body replaces the stone at `current_index` by its replacements in place and moves past them |
| `Day11.Blink` | src/bin/day11.rs:29-57 | the `while current_index < stones.len()` loop computes one blink, stone by stone in order |
| `Day11.Spliced` | src/bin/day11.rs:31-57 | the stone under `current_index` is the next unblinked one, and splicing its replacements in extends the blinked prefix by one stone |
| `Day11.BlinksNeverShrink` | src/bin/day11.rs:26-58 | blinking never loses a stone |
| `Day11.BlinksCompose` | src/bin/day11.rs:26-58 | `t + u` blinks are `t` blinks followed by `u` |
| `Day11.BlinkAllAppend` | src/bin/day11.rs:31-57 | a blink acts on each stone separately: blinking two rows of stones side by side gives the two blinked rows side by side |
| `Day11.BlinkTimes` | src/bin/day11.rs:26-58 | the `for _ in 0..BLINKS` loop blinks the given number of times |
| `Day11.CountAfter` | src/bin/day11.rs:20-61 | fails exactly when some space-separated stone does not parse as `u64`, and otherwise returns the number of stones after the blinks |
| `Day11.Part1` | src/bin/day11.rs:20-61 | `part1`: the number of stones after 25 blinks |
| `Day11.Part2` | src/bin/day11.rs:63-104 | `part2`: the number of stones after 75 blinks |
| `Day12.FromLines` | src/bin/day12.rs:30-58 | `GardenMap::from_iter`: built exactly for a non-empty square grid of rows of one length; otherwise the first assert that fails (no rows, not square, ragged) is the error; every character is a plot |
| `Day12.Neighbours` | src/bin/day12.rs:110-111 | the four neighbours, in the order of `Direction::ALL`, all distinct |
| `Day12.NeighboursSymmetric` | src/bin/day12.rs:77-84 | being neighbours is symmetric |
| `Day12.JoinedSelf` | src/bin/day12.rs:104 | a plot is in its own region |
| `Day12.JoinedStep` | src/bin/day12.rs:118-124 | a same-plant step from a joined plot reaches a joined plot |
| `Day12.RegionClosed` | src/bin/day12.rs:109-129 | a region is closed under same-plant steps |
| `Day12.ClosedHoldsRegion` | src/bin/day12.rs:109-129 | a set closed under same-plant steps that holds a plot holds its whole region |
| `Day12.PathInside` | src/bin/day12.rs:109-129 | a same-plant walk from a closed set stays in it |
| `Day12.JoinedBack` | src/bin/day12.rs:118-124 | joining is symmetric: a same-plant walk can be retraced |
| `Day12.RegionOfMember` | src/bin/day12.rs:100-101 | every member of a region has that same region, so skipping visited plots loses nothing |
| `Day12.RegionPlot` | src/bin/day12.rs:118-120 | every plot of a region holds the seed's plant |
| `Day12.FencesAt` | src/bin/day12.rs:110-128 | a plot's fenced sides among the first `k` directions: those whose neighbour is off the map or holds another plant |
| `Day12.FencesAtStep` | src/bin/day12.rs:110-128 | one direction more adds one fence exactly when that side is fenced |
| `Day12.FencesAdd` | src/bin/day12.rs:109-129 | adding a plot to a set adds its own fences to the set's fences |
| `Day12.RegionFenced` | src/bin/day12.rs:113-127 | every region has at least one fence |
| `Day12.FenceEastward` | src/bin/day12.rs:113-127 | walking east inside a closed set ends at a fence |
| `Day12.ScannedHolds` | src/bin/day12.rs:95-97 | the nested loops reach every plot before the current one in reading order |
| `Day12.CoveredMember` | src/bin/day12.rs:100-101 | a visited plot brings no new plots |
| `Day12.CoveredBySeeds` | src/bin/day12.rs:100-136 | the visited plots are exactly the plots of the regions of the plots that started a fill |
| `Day12.NewSeedApart` | src/bin/day12.rs:100-104 | the region of a plot not yet visited has no visited plot |
| `Day12.SeedsDisjoint` | src/bin/day12.rs:95-138 | the regions priced are pairwise disjoint |
| `Day12.FreshSeedApart` | src/bin/day12.rs:100-136 | a new fill's region is disjoint from the regions already priced |
| `Day12.EachCellSomeRegion` | src/bin/day12.rs:95-138 | every plot of the garden lies in some priced region |
| `Day12.EachCellOneRegion` | src/bin/day12.rs:95-138 | and in only one |
| `Day12.CellCovered` | src/bin/day12.rs:136 | every plot the scan has passed is visited |
| `Day12.ScanStep` | src/bin/day12.rs:100-136 | one more plot scanned: a visited plot changes nothing, and a new plot starts a fill that adds its region |
| `Day12Flood.Spread` | src/bin/day12.rs:110-128 | one direction of either fill: a neighbour off the map or with another plant is a fence, and a same-plant neighbour not yet in the region is added and queued |
| `Day12Flood.SpreadStep` | src/bin/day12.rs:110-128 | one direction more extends the spreading so far |
| `Day12Flood.SpreadAll` | src/bin/day12.rs:110-128 | the four directions together spread the region by the plot's new same-plant neighbours |
| `Day12Flood.ExploreCounting` | src/bin/day12.rs:110-128 | part 1's exploration of a plot: the region spreads and each fenced side adds one to the perimeter |
| `Day12Flood.ExploreSections` | src/bin/day12.rs:166-184 | part 2's exploration of a plot: the region spreads and each fenced side is recorded as a section |
| `Day12Flood.Taken` | src/bin/day12.rs:109 | popping from the back (stack) or the front (queue) takes one pending plot off |
| `Day12Flood.Advance` | src/bin/day12.rs:109-129 | exploring a pending plot keeps the fill's invariant, with that plot explored and the pushed plots pending |
| `Day12Flood.AdvanceSplit` | src/bin/day12.rs:121-124 | the region stays the explored plots plus the pending ones, with nothing pending twice |
| `Day12Flood.ExploredShrinks` | src/bin/day12.rs:109 | each pass explores a new plot, so the fill ends |
| `Day12Flood.Filled` | src/bin/day12.rs:109-131 | a finished fill holds exactly the seed's region |
| `Day12Flood.FloodCounting` | src/bin/day12.rs:104-131 | part 1's fill through `search_stack` gives the seed's region and its perimeter, the number of its fenced sides |
| `Day12Flood.FillCounting` | src/bin/day12.rs:109-129 | one pass of part 1's fill keeps the invariant and explores one more plot |
| `Day12Flood.FloodSections` | src/bin/day12.rs:160-185 | part 2's fill through `search_queue` gives the seed's region and exactly its fence sections |
| `Day12Flood.FillSections` | src/bin/day12.rs:165-185 | one pass of part 2's fill keeps the invariant and explores one more plot |
| `Day12Sides.Perpendicular` | src/bin/day12.rs:200-203 | `perpendicular_directions`: two opposite directions, both along the fence |
| `Day12Sides.AlongStep` | src/bin/day12.rs:209-231 | the `left` walk steps one section on along the side, the `right` walk one back |
| `Day12Sides.OnRunAlong` | src/bin/day12.rs:209-231 | a section on a run is the one at its offset |
| `Day12Sides.LeftOfAlong` | src/bin/day12.rs:209-219 | only the section one step back has a given section to its left |
| `Day12Sides.EndsOfRun` | src/bin/day12.rs:197-236 | taking out a whole side, the longest run through the popped section, leaves one end fewer |
| `Day12Sides.EndsWithout` | src/bin/day12.rs:197-236 | the ends after taking out a run are the old ends less the run's last section |
| `Day12Sides.EndAfter` | src/bin/day12.rs:197-236 | an end after taking out a run was an end before |
| `Day12Sides.EndBefore` | src/bin/day12.rs:197-236 | an end before, other than the run's last section, stays an end |
| `Day12Sides.NothingLeftOfRun` | src/bin/day12.rs:197-236 | no section off the run has a section of the run to its left |
| `Day12Sides.RunInterior` | src/bin/day12.rs:209-231 | within the run only the last section is an end |
| `Day12Sides.RunGrows` | src/bin/day12.rs:209-231 | each walk step takes one more section of the run out |
| `Day12Sides.RemoveDistinct` | src/bin/day12.rs:218-230 | `Vec::remove` on a vector without repeats takes out exactly that element |
| `Day12Sides.Position` | src/bin/day12.rs:210-228 | `Iterator::position`: the first index of the target, and none exactly when it is absent |
| `Day12Sides.Follow` | src/bin/day12.rs:209-231 | one walk: a stopped walk stays stopped; otherwise the next section along is found exactly when present, and then removed and walked to |
| `Day12Sides.RemovedDistinct` | src/bin/day12.rs:218-230 | removing the found section keeps the vector without repeats, one shorter |
| `Day12Sides.TraceSide` | src/bin/day12.rs:205-236 | the inner `loop` takes out exactly the whole side of the popped section: the longest run through it |
| `Day12Sides.StartTrace` | src/bin/day12.rs:205-206 | both walks start at the popped section |
| `Day12Sides.WalkLeft` | src/bin/day12.rs:209-219 | the `left` walk of one round extends the run taken out one step on, or stops |
| `Day12Sides.WalkRight` | src/bin/day12.rs:221-231 | the `right` walk of one round extends the run one step back, or stops |
| `Day12Sides.Collect` | src/bin/day12.rs:187-193 | `into_iter().collect()` then `sort_by`: each section once, in an order the model leaves open |
| `Day12Sides.CountSides` | src/bin/day12.rs:195-237 | the outer loop counts the sides: the number of sections with no section to their left, at most the number of sections and at least one when there is one |
| `Day12Sides.TakeSide` | src/bin/day12.rs:197-236 | one round pops a section and takes out the rest of its side, leaving one end fewer |
| `Day12Sides.WithoutSmaller` | src/bin/day12.rs:197-236 | taking out a run shrinks the sections |
| `Day12Sides.PopElements` | src/bin/day12.rs:197 | `pop` takes the last section off a vector without repeats |
| `Day12Sides.HasEnd` | src/bin/day12.rs:197-236 | a non-empty set of sections has an end, so a region has at least one side |
| `Day12Sides.EndFrom` | src/bin/day12.rs:209-219 | walking left from any section ends at an end |
| `Day12Sides.AheadShrinks` | src/bin/day12.rs:209-219 | each step left has fewer sections ahead |
| `Day12Sides.EndsWithin` | src/bin/day12.rs:195-237 | there are no more ends than sections |
| `Day12Scan.PriceStep` | src/bin/day12.rs:133-134 | one more region adds its price to the total |
| `Day12Scan.SidesCostLess` | src/bin/day12.rs:133 | pricing by sides never costs more than by perimeter |
| `Day12Scan.PriceAtMost` | src/bin/day12.rs:133 | a smaller fence measure gives a smaller price |
| `Day12Scan.SidesAtLeastArea` | src/bin/day12.rs:239-241 | every region has at least one side, so its price by sides is at least its area |
| `Day12Scan.PriceAtLeast` | src/bin/day12.rs:241 | a measure of at least one prices at least the area |
| `Day12Scan.TallyStep` | src/bin/day12.rs:100-136 | one more plot adds its region's price exactly when it was not yet visited |
| `Day12Scan.TallySeeds` | src/bin/day12.rs:95-138 | the running total is the total price of the regions the scan started |
| `Day12Scan.FencePriceTotal` | src/bin/day12.rs:95-138 | part 1's nested loops sum perimeter times area over every region, each once |
| `Day12Scan.ScanRowCounting` | src/bin/day12.rs:97-137 | one row of part 1's scan |
| `Day12Scan.ScanCounting` | src/bin/day12.rs:100-136 | one plot of part 1's scan: a plot not yet visited is filled, and its region adds perimeter times area |
| `Day12Scan.Part1` | src/bin/day12.rs:87-141 | `part1`: fails exactly when the map is refused, and otherwise returns the sum over the regions of perimeter times area |
| `Day12Scan.SidePriceTotal` | src/bin/day12.rs:151-246 | part 2's nested loops sum sides times area over every region, each once |
| `Day12Scan.ScanRowSides` | src/bin/day12.rs:153-245 | one row of part 2's scan |
| `Day12Scan.ScanSides` | src/bin/day12.rs:156-244 | one plot of part 2's scan: a plot not yet visited is filled, its sections grouped into sides, and its region adds sides times area |
| `Day12Scan.Part2` | src/bin/day12.rs:143-249 | `part2`: fails exactly when the map is refused, and otherwise returns the sum over the regions of sides times area |
| `Day14.Step` | src/bin/day14.rs:57-60 | one second of one robot: the velocity is kept and the new position is the old one plus the velocity taken `rem_euclid` the 101 by 103 area, so it lies on the grid |
| `Day14.StepAll` | src/bin/day14.rs:57-60 | every robot steps, in order |
| `Day14.After` | src/bin/day14.rs:56-61 | the robots after `t` seconds, as many as before |
| `Day14.AfterClosedForm` | src/bin/day14.rs:56-61 | after `t` seconds a robot stands at its start plus `t` times its velocity, up to whole laps of the area, and on the grid once it has moved |
| `Day14.StepRobots` | src/bin/day14.rs:57-60 | the in-place `for robot in &mut robots` loop leaves every robot stepped |
| `Day14.QuadrantOf` | src/bin/day14.rs:66-72 | the quadrant match: none on the middle column or row, and each quadrant exactly for its two strict comparisons with the midpoint (50, 51) |
| `Day14.QuadrantsPartition` | src/bin/day14.rs:65-75 | the four quadrant counts and the robots on the middle lines add up to all the robots |
| `Day14.QuadrantFactor` | src/bin/day14.rs:77 | the factor a quadrant adds to the product is at least one |
| `Day14.FactorPositive` | src/bin/day14.rs:77 | the safety factor is never zero, and it is the empty product 1 when no robot is in a quadrant |
| `Day14.CountQuadrants` | src/bin/day14.rs:63-75 | the `quadrants` map has a key exactly for the quadrants holding a robot, mapped to their count |
| `Day14.Product` | src/bin/day14.rs:77 | `quadrants.values().product()` is the safety factor, whatever the map's order |
| `Day14.Part1` | src/bin/day14.rs:52-79 | `part1` on the parsed robots returns the safety factor after 100 seconds |
| `Day14.MeanBelow` | src/bin/day14.rs:98-100 | the integer mean is below 1000 exactly when the total is below 1000 times the count |
| `Day14.ClusteredAmongExists` | src/bin/day14.rs:92-103 | among the first `k` robots one is near the others exactly when some index below `k` is |
| `Day14.ClusteredIff` | src/bin/day14.rs:92-103 | the robots cluster exactly when some robot's integer mean squared distance to all robots is below 1000 |
| `Day14.ClusteredAmongGrows` | src/bin/day14.rs:92-103 | a cluster found among fewer robots stays found among more |
| `Day14.AnyClustered` | src/bin/day14.rs:92-103 | the scan that breaks out on the first robot near the others returns true exactly when the robots cluster |
| `Day14.CalmBeforeAll` | src/bin/day14.rs:91-111 | reaching second `n` means no earlier second clustered |
| `Day14.CalmBeforeBound` | src/bin/day14.rs:91-111 | the loop reaches no second past the first clustered one |
| `Day14.Tick` | src/bin/day14.rs:105-110 | one pass of the outer loop moves the robots of second `t` to second `t + 1` |
| `Day14.Part2` | src/bin/day14.rs:81-114 | `part2`: fails exactly on an empty input, and otherwise returns the first second at which the robots cluster |
| `Day15Grid.Xy` | src/bin/day15.rs:112-121 | `Direction::xy`: a unit step, vertical exactly for North and South |
| `Day15Grid.Update` | src/bin/day15.rs:164-166 | writing a cell through `IndexMut` keeps the grid's shape, sets that cell and no other |
| `Day15Grid.StepInside` | src/bin/day15.rs:66 | a step from a cell off the border stays on the grid, with less room ahead, so the scans end |
| `Day15Grid.GridsEqual` | src/bin/day15.rs:15-17 | two grids of one shape that agree on every cell are the same warehouse |
| `Day15Grid.Cells` | src/bin/day15.rs:179 | the cells holding a kind are exactly the in-bounds cells of that kind |
| `Day15Grid.CellsUpdate` | src/bin/day15.rs:164-166 | writing a cell moves it out of every other kind and into the one written |
| `Day15Grid.GpsNonNegative` | src/bin/day15.rs:172-183 | the GPS sum is never negative, so it fits the unsigned total |
| `Day15Grid.RowGpsNonNegative` | src/bin/day15.rs:176-182 | one row's part of the GPS sum is never negative |
| `Day15Grid.RowGpsUpdate` | src/bin/day15.rs:176-182 | writing one cell of a row changes the row's sum by that cell's weight difference |
| `Day15Grid.GpsUpdate` | src/bin/day15.rs:172-183 | writing one cell changes the GPS sum by the difference of its two weights: the sum is over cells |
| `Day15Grid.GpsSum` | src/bin/day15.rs:172-183 | the closing nested loops add 100·y + x over exactly the cells of the counted kind |
| `Day15.DecodePosition` | src/bin/day15.rs:77-88 | `PositionType::try_from`: succeeds exactly on `O@.#`, `O` a box, `#` a wall, `@` and `.` empty |
| `Day15.DecodeMovement` | src/bin/day15.rs:98-110 | `Direction::try_from`: succeeds exactly on `><^v.`, with `.` read as North like `^` |
| `Day15.ScanFromMeaning` | src/bin/day15.rs:130-143 | the character scan from a point: succeeds exactly when the rest is map characters with at most one robot (none if one was already found), and its robot is the `@` found; a bad character and a second `@` are its only errors |
| `Day15.DecodeRow` | src/bin/day15.rs:136-141 | a map row decodes cell by cell |
| `Day15.FromLines` | src/bin/day15.rs:40-61 | the map parse yields a rectangular grid of the decoded rows with the robot on its `@`, an empty cell |
| `Day15.FromLinesMeaning` | src/bin/day15.rs:40-61 | the map parse succeeds exactly on well-formed text, and each error is the first defect: bad character or second robot, no rows, ragged rows, no robot |
| `Day15.WithoutNewlines` | src/bin/day15.rs:150 | `replace('\n', "")`: no newline is left and every other character is kept |
| `Day15.DecodeMovements` | src/bin/day15.rs:149-153 | the movement list decodes every character, and fails exactly when one is no movement |
| `Day15.Parse` | src/bin/day15.rs:124-153 | the input parse yields a rectangular map with the robot on an empty cell |
| `Day15.StepOff` | src/bin/day15.rs:66-68 | in a walled warehouse a step from a non-wall cell stays on the grid |
| `Day15.GapMeaning` | src/bin/day15.rs:64-74 | `next_empty_space`'s result is the empty cell past a run of boxes, and none exactly when a wall ends the run |
| `Day15.WarehouseMap.constructor` | src/bin/day15.rs:59 | the map holds the given rows |
| `Day15.WarehouseMap.NextEmptySpace` | src/bin/day15.rs:64-74 | the step loop returns the gap the scan defines |
| `Day15.MoveKeepsReady` | src/bin/day15.rs:155-170 | a move keeps the warehouse walled with the robot on an empty cell, moves no wall, and advances the robot one cell exactly when there is a gap |
| `Day15.MoveKeepsBoxes` | src/bin/day15.rs:163-167 | a push moves the box next to the robot to the gap, keeping the number of boxes |
| `Day15.MoveGps` | src/bin/day15.rs:163-183 | a push changes the GPS sum by one box's move, from the robot's new cell to the gap |
| `Day15.MoveRobot` | src/bin/day15.rs:156-169 | one movement applied to the map in place gives the map and robot of the value model |
| `Day15.Run` | src/bin/day15.rs:155-170 | every sequence of movements keeps the warehouse walled with the robot on an empty cell |
| `Day15.RunKeepsBoxes` | src/bin/day15.rs:155-170 | over any movements no box is lost or created and no wall moves |
| `Day15.RunMoves` | src/bin/day15.rs:155-170 | the movement loop leaves the map and robot of the value model |
| `Day15.Part1` | src/bin/day15.rs:123-186 | `part1`: fails exactly when the input does not parse, with its error, and otherwise returns the GPS sum of the boxes after all the movements |
| `Day15Push.BoxOf` | src/bin/day15.rs:272-276 | the box a segment belongs to: a Left segment and the cell east of it, or a Right segment and the cell west of it |
| `Day15Push.BoxOfIsBox` | src/bin/day15.rs:272-276 | on a paired map every segment belongs to the whole box `BoxOf` names |
| `Day15Push.StepWithin` | src/bin/day15.rs:288-291 | on a walled map the cell ahead of a non-wall cell is on the grid |
| `Day15Push.Children` | src/bin/day15.rs:291-349 | the boxes pushed after a pop: at most two, each one row on |
| `Day15Push.StackSizeAppend` | src/bin/day15.rs:283-285 | the pops left below a stack split over its parts |
| `Day15Push.ShortStackSize` | src/bin/day15.rs:294-312 | the pops below the at most two pushed boxes |
| `Day15Push.ChildrenSize` | src/bin/day15.rs:283-350 | a box's pushed children account for every pop below it but its own |
| `Day15Push.PopSize` | src/bin/day15.rs:283-350 | a pass of the `while let` loop takes one pop off what is left, so the search ends |
| `Day15Push.InNextLayer` | src/bin/day15.rs:291-349 | a child of a box of a layer is in the next layer |
| `Day15Push.FromLayer` | src/bin/day15.rs:291-349 | every box of the next layer is a child of a box of the layer |
| `Day15Push.ReachedFirst` | src/bin/day15.rs:280 | the box ahead of the robot is reached |
| `Day15Push.ReachedAt` | src/bin/day15.rs:283-350 | a box in some layer is reached |
| `Day15Push.ReachedChild` | src/bin/day15.rs:294-312 | the children of a reached box are reached |
| `Day15Push.ClosedHoldsLayers` | src/bin/day15.rs:283-350 | a set holding the first box and closed under children holds every layer |
| `Day15Push.NextLayerWithin` | src/bin/day15.rs:283-350 | the children of a subset of a closed set stay in it |
| `Day15Push.ClosedHoldsReached` | src/bin/day15.rs:283-350 | a closed set holding the first box holds every box the search reaches |
| `Day15Push.ChildIsBox` | src/bin/day15.rs:291-349 | on a paired map each child is a whole box |
| `Day15Push.LayerBoxes` | src/bin/day15.rs:283-350 | every box of every layer is a whole box |
| `Day15Push.ReachedIsBox` | src/bin/day15.rs:286 | every box the search reaches, and so every visited box, is a whole box |
| `Day15Push.ForcedMeaning` | src/bin/day15.rs:286 | the boxes a push moves are exactly the boxes the search reaches |
| `Day15Push.AheadIsChild` | src/bin/day15.rs:291-349 | the segment ahead of a half of a box belongs to one of the box's children |
| `Day15Push.ForcedClosed` | src/bin/day15.rs:283-352 | with no wall ahead of any reached box, nothing but free cells and reached boxes lies ahead of the reached boxes |
| `Day15Push.Shift` | src/bin/day15.rs:354-367 | the two loops over `visited_boxes` keep the map's shape and set each cell as a moved map should: halves land one row on, vacated cells empty, the rest unchanged |
| `Day15Push.Halves` | src/bin/day15.rs:354-367 | the left and right halves of a movable set are the Left and Right segments of its boxes |
| `Day15Push.AheadOfHalf` | src/bin/day15.rs:291-349 | the cell ahead of a half of a movable box is free or a half of another movable box |
| `Day15Push.UntouchedPartner` | src/bin/day15.rs:354-367 | a box that does not move is not split: its other half is not touched either |
| `Day15Push.LandedLeftReady` | src/bin/day15.rs:363-364 | a cell a moved Left segment lands on is paired after the move |
| `Day15Push.LandedRightReady` | src/bin/day15.rs:365-366 | a cell a moved Right segment lands on is paired after the move |
| `Day15Push.ShiftedCellReady` | src/bin/day15.rs:354-367 | after the move every cell is paired, and a wall exactly when it was one |
| `Day15Push.ShiftKeepsReady` | src/bin/day15.rs:352-367 | moving a movable set holding the box ahead keeps the warehouse ready, the robot one row on, the walls unchanged |
| `Day15Push.MovedBoxLands` | src/bin/day15.rs:360-367 | a moved box lands intact one row on |
| `Day15Push.StillBoxStays` | src/bin/day15.rs:354-367 | a box that does not move stays intact |
| `Day15Push.ShiftedBoxOrigin` | src/bin/day15.rs:354-367 | every box after the move is a moved box or a box that stayed |
| `Day15Push.ShiftMovesBoxes` | src/bin/day15.rs:354-367 | the boxes after the move are exactly the moved boxes one row on and the unmoved boxes where they were |
| `Day15Push.FirstForced` | src/bin/day15.rs:270-280 | the box ahead of the robot is among the boxes its push moves, and when nothing blocks them they can all move |
| `Day15Push.VerticalKeepsReady` | src/bin/day15.rs:253-368 | a vertical movement keeps the walls, keeps every box a pair, and leaves the robot on an empty cell |
| `Day15Push.SameWallsItself` | src/bin/day15.rs:261-267 | a movement that changes nothing keeps the walls |
| `Day15Push.VerticalMovesBoxes` | src/bin/day15.rs:253-368 | a vertical movement moves nothing, or moves the robot one row on, every box reached from the box ahead one row on intact, and every other box not at all |
| `Day15Push.PushMovesBoxes` | src/bin/day15.rs:280-367 | an unblocked push moves the reached boxes one row on and leaves every other box where it is |
| `Day15Push.BlockedMeaning` | src/bin/day15.rs:303-305 | a push is blocked exactly when a wall is ahead of one of the boxes it would move |
| `Day15Wide.Inverse` | src/bin/day15.rs:205-212 | `BoxSegment::inverse`: the other segment |
| `Day15Wide.InverseInvolutive` | src/bin/day15.rs:205-212 | inverting twice gives the segment back |
| `Day15Wide.WidenRow` | src/bin/day15.rs:428-443 | a doubled row is twice as long and cell `i` is a half of narrow cell `i / 2` |
| `Day15Wide.Widen` | src/bin/day15.rs:420-445 | the doubled map doubles every row |
| `Day15Wide.WideRowIsWidened` | src/bin/day15.rs:428-443 | the `flat_map` closure's cells are the decoded narrow row, doubled |
| `Day15Wide.WideFromLinesIsWidened` | src/bin/day15.rs:418-449 | part 2's map parse is part 1's doubled: the same errors, every row widened, the robot's column doubled |
| `Day15Wide.WideParseIsWidened` | src/bin/day15.rs:413-455 | part 2 reads the same input as part 1, with the map doubled and the same movements |
| `Day15Wide.WidenAt` | src/bin/day15.rs:428-443 | a wide cell is one half of the narrow cell at half its column |
| `Day15Wide.WidenReady` | src/bin/day15.rs:433-438 | a walled narrow map widens to a walled map of whole boxes, the robot on the left half of its old cell |
| `Day15Wide.WidenWalled` | src/bin/day15.rs:441 | a walled narrow map widens to a walled wide map |
| `Day15Wide.WidenPaired` | src/bin/day15.rs:429-432 | a widened map holds only whole boxes |
| `Day15Wide.Kind` | src/bin/day15.rs:375-379 | what the horizontal scan sees: any segment is a box, empty and wall as they are |
| `Day15Wide.Kinds` | src/bin/day15.rs:372-380 | the wide map read cell by cell as the horizontal scan sees it |
| `Day15Wide.KindsReady` | src/bin/day15.rs:372-380 | that reading of a ready wide map is a ready narrow map, so part 1's gap scan applies |
| `Day15Wide.Relay` | src/bin/day15.rs:394-404 | the writing loop keeps the map's shape |
| `Day15Wide.RelayMeaning` | src/bin/day15.rs:394-404 | the loop writes the cells after the start up to the gap with alternating segments and leaves every other cell alone |
| `Day15Wide.BeyondNext` | src/bin/day15.rs:395 | the ray from a cell is its next cell and the ray from there |
| `Day15Wide.AlternateInverse` | src/bin/day15.rs:399 | starting from the other segment is one step further along the alternation |
| `Day15Wide.GapRun` | src/bin/day15.rs:372-380 | the gap the horizontal scan finds ends a run of box segments |
| `Day15Wide.AlternateSucc` | src/bin/day15.rs:399 | each step of the alternation inverts the segment |
| `Day15Wide.RunAlternates` | src/bin/day15.rs:372-380 | between the robot and the gap segments alternate from the one that leads in the push direction, and the last before the gap trails |
| `Day15Wide.ShiftedCell` | src/bin/day15.rs:394-404 | a cell the loop writes receives the segment the old map held one cell behind |
| `Day15Wide.PushedRun` | src/bin/day15.rs:384-404 | a push that moves boxes shifts the run one cell toward the gap |
| `Day15Wide.InRun` | src/bin/day15.rs:394-404 | a written cell is the gap or lies between the robot and the gap |
| `Day15Wide.PushedAlternates` | src/bin/day15.rs:384-404 | after the push the run alternates and ends with a whole box at the gap |
| `Day15Wide.HorizontalShifts` | src/bin/day15.rs:369-408 | a horizontal movement: with no gap nothing changes; otherwise the robot steps and the run up to the gap shifts one cell, as whole boxes |
| `Day15Wide.ShiftedCellReady` | src/bin/day15.rs:384-404 | after a horizontal push every cell is paired, and a wall exactly when it was one |
| `Day15Wide.RunCellPaired` | src/bin/day15.rs:394-404 | a cell of an alternating run has its partner in the run |
| `Day15Wide.RunNeighbours` | src/bin/day15.rs:394-404 | the neighbours of a run cell ahead and behind are in the run, except past the gap and before the first cell |
| `Day15Wide.PartnerAhead` | src/bin/day15.rs:399 | a leading segment followed by a trailing one is paired |
| `Day15Wide.PartnerBehind` | src/bin/day15.rs:399 | a trailing segment preceded by a leading one is paired |
| `Day15Wide.NeighbourOutside` | src/bin/day15.rs:384-404 | the partner of a box outside the run is outside the run too, and keeps its cell |
| `Day15Wide.KeepsReady` | src/bin/day15.rs:252-410 | a move that keeps the walls, leaves every cell paired and puts the robot on an empty cell keeps the warehouse ready |
| `Day15Wide.HorizontalKeepsReady` | src/bin/day15.rs:369-408 | a horizontal movement keeps the walls, keeps every box whole, and leaves the robot on an empty cell |
| `Day15WideMap.WideMove` | src/bin/day15.rs:252-410 | one movement of `try_move` keeps the warehouse walled with whole boxes and the robot on an empty cell, and moves no wall |
| `Day15WideMap.WideRun` | src/bin/day15.rs:457-459 | every sequence of movements keeps the warehouse ready |
| `Day15WideMap.SameWallsTrans` | src/bin/day15.rs:457-459 | keeping the walls composes over movements |
| `Day15WideMap.WideRunKeepsWalls` | src/bin/day15.rs:457-459 | over any movements no wall moves and the map keeps its shape |
| `Day15WideMap.SearchStart` | src/bin/day15.rs:280-281 | the search starts with the box ahead of the robot on the stack and nothing visited |
| `Day15WideMap.PushReached` | src/bin/day15.rs:283-350 | replacing the popped box by its children keeps every box on the stack reached |
| `Day15WideMap.PushCovered` | src/bin/day15.rs:283-350 | remembering the popped box and pushing its children keeps the children of remembered boxes remembered or stacked |
| `Day15WideMap.SearchPush` | src/bin/day15.rs:283-350 | a pass with no wall ahead keeps the search invariant |
| `Day15WideMap.SearchDone` | src/bin/day15.rs:283-352 | when the stack runs empty the visited boxes are exactly the boxes the push moves, and none of the reached boxes has a wall ahead |
| `Day15WideMap.CoveredEmpty` | src/bin/day15.rs:283-350 | with the stack empty the visited set holds the children of its members |
| `Day15WideMap.SearchTop` | src/bin/day15.rs:283-291 | the box on top of the stack is a reached whole box and the cells ahead of its halves are on the map |
| `Day15WideMap.PopBox` | src/bin/day15.rs:283-350 | one pass: the popped box is remembered, the pass returns exactly when a wall is ahead of a half, and otherwise pushes exactly the box's children |
| `Day15WideMap.SearchBlocked` | src/bin/day15.rs:303-305 | a wall ahead of a reached box blocks the push |
| `Day15WideMap.FindBoxes` | src/bin/day15.rs:280-350 | the stack loop returns early exactly when a wall is ahead of some reached box, and otherwise yields exactly the boxes the push moves |
| `Day15WideMap.Cleared` | src/bin/day15.rs:354-359 | emptying the boxes' cells keeps the map's shape |
| `Day15WideMap.Placed` | src/bin/day15.rs:360-367 | writing the boxes one row on keeps the map's shape |
| `Day15WideMap.ClearedAt` | src/bin/day15.rs:354-359 | a cleared cell is empty exactly when it is a half of a box, and otherwise unchanged |
| `Day15WideMap.PlacedAt` | src/bin/day15.rs:360-367 | a placed cell holds the half of a box one row behind it, if any, and is otherwise unchanged |
| `Day15WideMap.ClearedNone` | src/bin/day15.rs:354-359 | clearing no boxes changes nothing |
| `Day15WideMap.PlacedNone` | src/bin/day15.rs:360-367 | placing no boxes changes nothing |
| `Day15WideMap.HalvesAdd` | src/bin/day15.rs:354-367 | one more box adds its two halves |
| `Day15WideMap.ClearStep` | src/bin/day15.rs:355-358 | emptying one more box's two cells is clearing one more box |
| `Day15WideMap.PlaceStep` | src/bin/day15.rs:361-366 | writing one more box one row on is placing one more box, since boxes do not overlap |
| `Day15WideMap.PlacedCleared` | src/bin/day15.rs:354-367 | clearing then placing gives the moved map, whatever order the `HashSet` yields |
| `Day15WideMap.ClosedSeparate` | src/bin/day15.rs:354-367 | the boxes a push moves never overlap |
| `Day15WideMap.TakeOne` | src/bin/day15.rs:354-360 | each turn of a loop over the set takes one box from those left to those done |
| `Day15WideMap.TakeNone` | src/bin/day15.rs:354-360 | when none is left every box is done |
| `Day15WideMap.ClearBox` | src/bin/day15.rs:355-358 | one turn of the first loop clears one more box |
| `Day15WideMap.ClearBoxes` | src/bin/day15.rs:354-359 | the first loop over `visited_boxes` empties both cells of every box |
| `Day15WideMap.PlaceBox` | src/bin/day15.rs:361-366 | one turn of the second loop places one more box |
| `Day15WideMap.PlaceBoxes` | src/bin/day15.rs:360-367 | the second loop writes every box one row on |
| `Day15WideMap.FindGap` | src/bin/day15.rs:370-380 | the horizontal scan returns part 1's gap on the map with segments read as boxes |
| `Day15WideMap.RelayBoxes` | src/bin/day15.rs:394-404 | the writing loop leaves the alternating rewrite of the run |
| `Day15WideMap.WideWarehouseMap.constructor` | src/bin/day15.rs:247 | the map holds the given rows |
| `Day15WideMap.WideWarehouseMap.PushVertically` | src/bin/day15.rs:254-368 | the North and South arm of `try_move` leaves the map and robot of the value model |
| `Day15WideMap.WideWarehouseMap.PushHorizontally` | src/bin/day15.rs:369-408 | the East and West arm of `try_move` leaves the map and robot of the value model |
| `Day15WideMap.WideWarehouseMap.TryMove` | src/bin/day15.rs:252-410 | `try_move` leaves the map and robot of one movement of the value model |
| `Day15WideMap.RunWideMoves` | src/bin/day15.rs:457-459 | the movement loop of `part2` leaves the map and robot of the value model |
| `Day15WideMap.WideParseReady` | src/bin/day15.rs:413-449 | a wide map parsed from a walled input is ready to move on |
| `Day15WideMap.Part2` | src/bin/day15.rs:413-475 | `part2`: fails exactly when part 1's parse fails, with its error, and otherwise returns the GPS sum of the Left segments after all the movements |
| `Day16Maze.PositionTypeOf` | src/bin/day16.rs:28-38 | `PositionType::try_from`: succeeds exactly on `.SE#`, a wall exactly for `#`, and fails with the invalid-character error otherwise |
| `Day16Maze.DebugChar` | src/bin/day16.rs:40-47 | the `Debug` rendering of a cell decodes back to that cell and is never a start or end marker |
| `Day16Maze.Xy` | src/bin/day16.rs:69-76 | `Direction::xy`: a unit step |
| `Day16Maze.Inverse` | src/bin/day16.rs:60-67 | `Direction::inverse`: a different direction whose step undoes this one |
| `Day16Maze.InverseInvolutive` | src/bin/day16.rs:60-67 | turning round twice faces the original way |
| `Day16Maze.ParseRow` | src/bin/day16.rs:97-115 | the inner parse loop: on success the row's cells decode its characters and the start and end found so far are the unique ones seen; each error names its cause, a bad character or a second start or end |
| `Day16Maze.ParseMaze` | src/bin/day16.rs:89-123 | the parse: on success the grid decodes the text and the start and end stand at their unique `S` and `E`; a bad character, a second `S` or `E`, or a missing one gives its own error |
| `Day16Maze.ScanStep` | src/bin/day16.rs:99-112 | the scan's knowledge grows by one cell |
| `Day16Maze.RowDone` | src/bin/day16.rs:95-116 | the scan moves from the end of one row to the start of the next |
| `Day16Maze.Duplicated` | src/bin/day16.rs:102-108 | two places holding a marker leave no unique place for it, so the second `set` error is right |
| `Day16Maze.Missing` | src/bin/day16.rs:118-123 | a scan that never saw a marker: it is nowhere in the text |
| `Day16Maze.Complete` | src/bin/day16.rs:95-123 | a finished scan that saw a marker once and only maze characters: the marker is unique there |
| `Day16.MazeOfUnique` | src/bin/day16.rs:89-123 | one text describes one maze |
| `Day16.MazeWalledIn` | src/bin/day16.rs:181-190 | a walled-in text gives a walled-in maze, so every edge walk ends at a wall |
| `Day16.EndsOpen` | src/bin/day16.rs:33 | the start and the end are open cells |
| `Day16.BuildGraph` | src/bin/day16.rs:125-207 | the node and edge loops build the junction graph of the maze |
| `Day16.JunctionGraphValid` | src/bin/day16.rs:125-207 | the junction graph's edges join two distinct nodes and cost at least one |
| `Day16.FindNode` | src/bin/day16.rs:209-216 | `node_indices().find(..)`: the first node at a position, and none exactly when no node stands there |
| `Day16.Prepare` | src/bin/day16.rs:89-216 | the shared steps succeed exactly on well-formed text, giving its maze, junction graph, and the start and end nodes; the `unwrap`s of the node lookups never fail |
| `Day16.Dijkstra` | src/bin/day16.rs:218-225 | `algo::dijkstra(..)[&end]`, by its contract: a value exactly when the end is reachable, and then the least walk cost |
| `Day16.Part1` | src/bin/day16.rs:89-226 | `part1`: a parse error exactly on malformed text; otherwise the least score from start to end, or the unreachable error where the source's index panics |
| `Day16.Part2` | src/bin/day16.rs:228-480 | `part2`: a parse error exactly on malformed text; otherwise the number of cells on the edges of every least-score walk, or the unreachable error where the source's `unwrap` panics |
| `Day16Walks.OtherOther` | src/bin/day16.rs:409 | the far end of an edge is one of its ends, different from the near end, and its far end is the near end again |
| `Day16Walks.WalkAppend` | src/bin/day16.rs:218-223 | walks concatenate: the end, the cost and being a walk split over the two parts |
| `Day16Walks.WalkSnoc` | src/bin/day16.rs:420 | one more edge: the walk moves to its far end and the cost adds the leaving node's cost plus the edge's |
| `Day16Walks.WalkEndInGraph` | src/bin/day16.rs:408-409 | every node a walk visits exists |
| `Day16Walks.LeastPrefix` | src/bin/day16.rs:420 | the walk before the last edge of a least-cost walk is least-cost, and the end's distance is the previous node's distance plus the edge's weight |
| `Day16Walks.DistanceUnique` | src/bin/day16.rs:218-225 | the least walk cost is unique |
| `Day16Graph.Rank` | src/bin/day16.rs:58 | the index of a direction in `Direction::ALL` |
| `Day16Graph.TurnOfTwo` | src/bin/day16.rs:153-156 | two open neighbours that are neither the same nor opposite make a turn |
| `Day16Graph.HasOpenTurn` | src/bin/day16.rs:143-166 | the inner loop adds the node exactly when the cell has two open neighbours that are not opposite each other |
| `Day16Graph.BuildNodes` | src/bin/day16.rs:127-168 | node construction adds exactly the start, the end and every corner or junction, each once, in row-major order, at cost 0 for the start and end and 1000 for the rest |
| `Day16Graph.NodeStep` | src/bin/day16.rs:129-167 | one more cell of node construction keeps its invariant |
| `Day16Graph.NodeRowDone` | src/bin/day16.rs:127-168 | a finished row of node construction moves to the next |
| `Day16Graph.SortedDistinct` | src/bin/day16.rs:127-168 | nodes in strict row-major order stand at distinct cells |
| `Day16Graph.PositionIndex` | src/bin/day16.rs:170-173 | `position_to_node` has exactly the node positions as keys, each mapped to a node at that position |
| `Day16Graph.StepBack` | src/bin/day16.rs:181-196 | stepping back undoes stepping ahead, and `t` steps lie at distance `t` |
| `Day16Graph.LegCostSymmetric` | src/bin/day16.rs:196-202 | the leg cost is the same from either end |
| `Day16Graph.InSightSymmetric` | src/bin/day16.rs:181-194 | sight between open cells runs both ways |
| `Day16Graph.InSightTowardSymmetric` | src/bin/day16.rs:181-194 | sight facing one way is sight back facing the other |
| `Day16Graph.FindEdge` | src/bin/day16.rs:204 | `find_edge`: an edge joining the two nodes either way round, and none exactly when there is none |
| `Day16Graph.UpdateEdge` | src/bin/day16.rs:204 | `update_edge`: afterwards one edge joins the nodes at the new cost, one edge is added only when none joined them, no other edge changes, and pairs stay unique |
| `Day16Graph.StepInside` | src/bin/day16.rs:181-190 | in a walled-in grid a step from a non-wall cell stays inside with less room ahead, so the walk ends |
| `Day16Graph.BuildEdges` | src/bin/day16.rs:175-207 | the edge loop joins every two nodes in sight of each other, once, at the leg cost, and joins nothing else |
| `Day16Graph.CoveredTowardGrows` | src/bin/day16.rs:204 | nodes joined in one facing stay joined as edges are updated |
| `Day16Graph.CoveredGrows` | src/bin/day16.rs:204 | nodes joined stay joined as edges are updated |
| `Day16Graph.NodeDone` | src/bin/day16.rs:178-206 | covering every facing to the grid's width plus height covers every node in sight |
| `Day16Graph.WalkEdges` | src/bin/day16.rs:179-205 | one facing's walk joins the node to every node it sees that way, keeping the edges sound and unique |
| `Day16Graph.MeetNode` | src/bin/day16.rs:192-204 | meeting a node: the leg costs the distance, plus 1000 when it leaves the start other than East or enters it other than West, and the edge is set to that cost |
| `Day16Graph.WalkFound` | src/bin/day16.rs:192-204 | the node met is joined after the update |
| `Day16Graph.FoundInSight` | src/bin/day16.rs:181-202 | the node met is a different node in sight, both ways round, at the leg cost |
| `Day16Graph.FoundEdgesOk` | src/bin/day16.rs:204 | setting or adding the edge keeps every edge sound |
| `Day16Graph.FoundCovered` | src/bin/day16.rs:192-204 | after the update the node is joined to every node it sees within that many steps |
| `Day16Graph.WalkPassed` | src/bin/day16.rs:192-194 | passing a cell that is not a node keeps the walk's invariant |
| `Day16Graph.WalkDone` | src/bin/day16.rs:184-190 | at a wall nothing further that way is in sight |
| `Day16Solver.AboveStrictTotal` | src/bin/day16.rs:357-362 | the derived `Ord` of `PathSegment`, lower score first, then node, then edge, is a strict total order |
| `Day16Solver.MaxIndex` | src/bin/day16.rs:385 | the index of a greatest segment of the heap |
| `Day16Solver.Pop` | src/bin/day16.rs:381-385 | `BinaryHeap::pop`: a greatest segment, and the heap less exactly that one copy: the two together are the old heap as a multiset |
| `Day16Solver.Pushes` | src/bin/day16.rs:408-427 | the segments the edge loop pushes are exactly one per incident edge whose far end is unvisited, scored by the popped score plus the node's and edge's costs |
| `Day16Solver.UnsettledHasEntry` | src/bin/day16.rs:381-430 | a walk to a node not yet settled costs at least some queued segment's score |
| `Day16Solver.FirstVisitEntries` | src/bin/day16.rs:398-427 | settling a node keeps every queued segment a real arrival |
| `Day16Solver.FirstVisitFrontier` | src/bin/day16.rs:408-429 | settling a node keeps a segment queued along every edge from a settled node to an unsettled one |
| `Day16Solver.FirstVisitFrontierEdge` | src/bin/day16.rs:408-427 | the frontier condition for one settled node and one edge |
| `Day16Solver.PushedEdge` | src/bin/day16.rs:408-427 | the edge loop pushes a segment along every edge from the node just settled to an unsettled node |
| `Day16Solver.KeptEdge` | src/bin/day16.rs:381-385 | a frontier segment stays queued when another segment is popped |
| `Day16Solver.FirstVisitStart` | src/bin/day16.rs:367-371 | the start stays settled at score 0 |
| `Day16Solver.FirstVisitLower` | src/bin/day16.rs:397-406 | the score a node is first popped at is no more than any walk to it |
| `Day16Solver.FirstVisitMonotone` | src/bin/day16.rs:381-430 | queued scores never fall below a settled score |
| `Day16Solver.FirstVisitUpper` | src/bin/day16.rs:397-406 | the score a node is first popped at is the cost of a walk to it |
| `Day16Solver.FirstVisitStep` | src/bin/day16.rs:398-429 | the first pop of a node keeps the search invariant |
| `Day16Solver.FirstVisitTight` | src/bin/day16.rs:398-406 | settling a node keeps every tight edge tight |
| `Day16Solver.FirstVisitTiesSound` | src/bin/day16.rs:399-405 | every recorded edge reaches its node at exactly the node's score |
| `Day16Solver.FirstVisitTiesComplete` | src/bin/day16.rs:399-427 | every tight edge is recorded or still queued |
| `Day16Solver.RevisitKeeps` | src/bin/day16.rs:388-396 | a later pop of a settled node changes no score, and only that node's recorded ties, which only grow |
| `Day16Solver.RevisitTight` | src/bin/day16.rs:388-396 | a revisit keeps the tight edges exactly |
| `Day16Solver.RevisitHeap` | src/bin/day16.rs:381-396 | a revisit keeps the heap's invariants |
| `Day16Solver.RevisitEntries` | src/bin/day16.rs:381-396 | a revisit keeps every queued segment a real arrival |
| `Day16Solver.RevisitFrontier` | src/bin/day16.rs:381-396 | a revisit keeps the frontier segments queued |
| `Day16Solver.RevisitMonotone` | src/bin/day16.rs:381-396 | a revisit keeps queued scores at or above settled ones |
| `Day16Solver.RevisitBounds` | src/bin/day16.rs:388-396 | a revisit keeps every settled score a least walk cost |
| `Day16Solver.RevisitTies` | src/bin/day16.rs:392-394 | a revisit records its edge exactly when it ties the node's score, keeping the ties sound and complete |
| `Day16Solver.RevisitStep` | src/bin/day16.rs:388-396 | a revisit keeps the search invariant |
| `Day16Solver.NodeRange` | src/bin/day16.rs:364 | the node indices of the visit map |
| `Day16Solver.PushesNext` | src/bin/day16.rs:408-427 | one more edge adds its segment or nothing |
| `Day16Solver.PushEdges` | src/bin/day16.rs:408-427 | the edge loop adds exactly the pushes, in edge order |
| `Day16Solver.SearchStart` | src/bin/day16.rs:364-379 | the search starts with the start's segment queued at score 0 and nothing settled |
| `Day16Solver.SearchStep` | src/bin/day16.rs:381-430 | one round keeps the invariant and settles a node or shrinks the heap, so the loop ends |
| `Day16Solver.Settle` | src/bin/day16.rs:398-429 | the first pop of a node settles it and keeps the invariant |
| `Day16Solver.TieTrackingSearch` | src/bin/day16.rs:364-430 | the search loop settles exactly the reachable nodes, each at its least walk cost, and records exactly the tight incident edges of each |
| `Day16Solver.SearchDone` | src/bin/day16.rs:381 | with the heap empty every reachable node is settled at its distance with its tight edges recorded |
| `Day16Tiles.RowCells` | src/bin/day16.rs:467-470 | the cells from x0 to x1 on row y |
| `Day16Tiles.ColumnCells` | src/bin/day16.rs:472-475 | the cells from y0 to y1 on column x |
| `Day16Tiles.InsertSegment` | src/bin/day16.rs:454-476 | the two insertion loops add exactly the cells of the edge's segment |
| `Day16Tiles.SegmentInSight` | src/bin/day16.rs:454-476 | for two nodes in sight of each other the segment holds both ends and no wall |
| `Day16Tiles.TilesUnion` | src/bin/day16.rs:433 | the cells of two edge sets are the union of their cells |
| `Day16Tiles.TilesSingle` | src/bin/day16.rs:454-476 | the cells of one edge are its segment |
| `Day16Tiles.ListAppend` | src/bin/day16.rs:452 | the edges and pops of a work list split over its parts |
| `Day16Tiles.ListBound` | src/bin/day16.rs:437-477 | the score bound makes no difference for pairs scored below it |
| `Day16Tiles.ListMember` | src/bin/day16.rs:437-477 | an edge met from a work list is met from one of its pairs |
| `Day16Tiles.ListContains` | src/bin/day16.rs:437-477 | every edge met from one pair is met from the list |
| `Day16Tiles.TiesRecorded` | src/bin/day16.rs:435 | the pairs recorded at a settled node are recorded pairs for it |
| `Day16Tiles.RecordedSource` | src/bin/day16.rs:438-451 | a recorded pair comes from a settled node of lower score, whose score plus the node's and edge's costs is the pair's score |
| `Day16Tiles.Backtrack` | src/bin/day16.rs:433-477 | the backtrack loop returns exactly the cells of every edge met backwards from the end's recorded pairs |
| `Day16Tiles.WorkRecorded` | src/bin/day16.rs:437-452 | every pair on the work list stays recorded after a pop |
| `Day16Tiles.BacktrackStep` | src/bin/day16.rs:437-452 | a pop trades the pair's edge for the source's pairs, keeps every pair recorded, and lowers the pops left |
| `Day16Tiles.PopEdges` | src/bin/day16.rs:437-452 | the list's edges after a pop |
| `Day16Tiles.DistanceWalk` | src/bin/day16.rs:432 | a walk costing the distance is a least-cost walk |
| `Day16Tiles.WalkEdgesExist` | src/bin/day16.rs:438 | every edge of a walk exists, so `edge_endpoints(..).unwrap()` does not fail |
| `Day16Tiles.WitnessWalk` | src/bin/day16.rs:397-406 | a settled node is reached by a walk at its score |
| `Day16Tiles.EntrySound` | src/bin/day16.rs:437-452 | every edge met backwards from a recorded pair lies on a walk to the pair's node at its score |
| `Day16Tiles.ExtendWalk` | src/bin/day16.rs:443-451 | a walk to a pair's source at its score, then the pair's edge, reaches the pair's node at its score |
| `Day16Tiles.EntryParts` | src/bin/day16.rs:451-452 | an edge met from a pair, other than its own, is met from a pair recorded at its source |
| `Day16Tiles.LastEdgeTight` | src/bin/day16.rs:392-394 | the last edge of a least-cost walk is tight, and the walk before it is least-cost |
| `Day16Tiles.EntryWithin` | src/bin/day16.rs:451-452 | a recorded pair's edge and every edge met from its source are met from the list it is recorded in |
| `Day16Tiles.OptimalWalkTight` | src/bin/day16.rs:392-394 | a least-cost walk is tight all along |
| `Day16Tiles.TightWalkMet` | src/bin/day16.rs:437-452 | every edge of a tight walk is met backwards from its end's recorded pairs |
| `Day16Tiles.BacktrackMeetsOptimalEdges` | src/bin/day16.rs:432-477 | the backtrack from a settled node meets exactly the edges of its least-cost walks |
| `Day16Tiles.BacktrackSound` | src/bin/day16.rs:437-452 | every edge the backtrack meets lies on a least-cost walk |
| `Day16Tiles.BacktrackComplete` | src/bin/day16.rs:437-452 | every edge on a least-cost walk is met by the backtrack |
| `Day16Tiles.TightWalkThrough` | src/bin/day16.rs:437-452 | an optimal edge lies on a tight walk to the end |
| `Day16Tiles.OptimalWalkThrough` | src/bin/day16.rs:432 | an optimal edge lies on a least-cost walk to the end |
| `Day16Tiles.TightEdgeMet` | src/bin/day16.rs:437-452 | an edge of a tight walk to the end is met from the end's recorded pairs |
| `Day16Tiles.SearchWitnessed` | src/bin/day16.rs:381-430 | the search's scores are witnessed by walks |
| `Day16Tiles.MetWalk` | src/bin/day16.rs:437-452 | an edge met backwards from the end lies on a walk to the end at its score |
| `Day16Tiles.DistanceEdge` | src/bin/day16.rs:432 | an edge of a walk costing the distance is an optimal edge |

## Left out

- All parts: 64-bit unsigned arithmetic is unbounded `nat` in the model, so u64 overflow is not modelled. This covers day7.rs:72 (the running value) and day11.rs:52 (stone values).
- Day2.Part1: levels are `i64`, and the differences `level - previous_level` (day2.rs:52) are taken in unbounded integers. For levels near the ends of the `i64` range the source's subtraction overflows, panicking in a debug build and wrapping in a release build; the model takes the true difference. The same holds for Day2.Part2 (`next_level - level`, day2.rs:100-143).
- All parts: each `unwrap`, `expect`, `assert!` and `unreachable!` on a reachable input path is modelled as an `Err` with its own error value, not as a panic.
- All parts: `solve_day` is not part of this model. Reading the input file and printing the answers are left out, as are `src/lib.rs` and `src/bin/new_day.rs`.
- Days 3 and 13 are not part of this model.
- Day2.Part1: the `eprintln!` warning about very short reports (day2.rs:44) is output only and is left out.
- Day7.Part1: the source counts operator combinations in a `u16` (`2_u16.pow`, `1 << offset`, day7.rs:56,64). It overflows from 16 operators on; the model's unbounded integers do not.
- Day7.Part2: the source counts combinations in a `u32` (`3_u32.pow`, day7.rs:100,112-113). It overflows above 20 operators; the model does not.
- Day7.Part2: requires `NoZeroConcatenator`, which excludes every equation with a 0 operand after the first. Concatenating a 0 calls `ilog10(0)`, which panics (day7.rs:116). The requires is stronger than the source needs: a combination that stops early (see `Day7.RunMissesZeroOperand`), or an earlier combination that calibrates, may never concatenate the 0, as in `0: 6 7 0`. The model does not cover those inputs.
- Day5.Part2: requires `Terminates`: every incorrect update the loop reaches, that is one whose line and all earlier update lines are well formed, has no rule cycle among its pages. On such a cycle the source's reordering loop (day5.rs:146-166) never ends; lines after the first refused one are never reordered (the early returns at day5.rs:99-102 leave first) and are not constrained.
- Day6.Part1: requires `Escapes`. If the guard never leaves the lab, the source's walk (day6.rs:75-92) never ends.
- Day6Jumps.Part2: requires `Escapes`, for the same walk, which part 2 uses to pick its candidates.
- Day6Jumps.Part2: the candidates come from a `HashSet` (day6.rs:313). The model counts over the set, so the order is left open; the count does not depend on it.
- Day8.Part1: antennas and antinodes are gathered in a `HashMap` and a `HashSet` (day8.rs:71,114). Only the resulting sets are modelled, not their iteration order. The same holds for Day8.Part2 (day8.rs:140).
- Day9.Part2: on a disk map of even length the last chunk is free space, and the source's `unwrap` (day9.rs:147-153) panics; the model returns an `Err`.
- Day10.Part1: `visited_positions.drain()` (day10.rs:122,152) is modelled by the set it yields, in an order left open.
- Day11.Part1: the debug `println!` of the stone count (day11.rs:27) is left out, and so is the one in Day11.Part2 (day11.rs:70).
- Day12Sides.Collect: `sort_by` (day12.rs:188-193) is not modelled. `Collect` leaves the order of the sections open, and `CountSides` is proved for every order.
- Day14.Part1: the regex parse of the robots (day14.rs:15-50) is left out, since regular expressions are not modelled. `Part1` and `Part2` take the parsed robots.
- Day14.Part2: requires that some second clusters the robots when there are any. Otherwise the source's `'outer: loop` (day14.rs:91-111) never ends.
- Day14.Part2: the squared distances are summed in an `i32` (day14.rs:93-96); the model sums unbounded integers.
- Day14.Step: the position update `robot.position += robot.velocity` is an `i32` add (day14.rs:58 and 106), and the parse accepts any `i32` (day14.rs:40-43). The model adds unbounded integers before taking the remainder. So where the add overflows (a position of 2147483647 with a velocity of 1, say), the source panics in a debug build and wraps in a release build, and the model does neither. Day14.Part1 and Day14.Part2 inherit this through `Step`, `After` and `Tick`.
- Day15.Part1: requires `Enclosed`, a map bordered by walls. Otherwise a scan can step past the edge, where the source's indexing panics (day15.rs:65-73). The same holds for Day15WideMap.Part2.
- Day15WideMap.WideWarehouseMap.PushVertically: the debug dump of the map before `unreachable!()` (day15.rs:315-342) is left out. On a paired map it is never reached, and the model proves that.
- Day15WideMap.ClearBoxes: `visited_boxes` is a `HashSet` (day15.rs:354-367). Both loops are proved for any order, and the result is independent of it.
- Day16.Part1: requires `WalledInText`, a maze bordered by walls. The source's edge walk stops only at a wall (day16.rs:181-193) and would otherwise run on forever. The same holds for Day16.Part2.
- Day16.Part1: `WalledInText` also asks for a rectangular text (all lines of one length), because the model's `Grid` is rectangular. The source reads a ragged text as well (the parsing loop at day16.rs:95-115 keeps each row as read), so a ragged maze walled in on every row, such as "######\n#S.E#\n#####", is solved by the source and not covered here. The same holds for Day16.Part2.
- Day16.Part1: the answer is stated for every junction graph of the text, through `Instance`. The maze is fixed by the text (`MazeOfUnique`). `JunctionGraph` leaves the order of the edges and the direction each edge is stored in open, and the model does not prove that every such graph gives the same distance. The same holds for Day16.Part2 and its tile count.
- Day16.Dijkstra: `petgraph::algo::dijkstra` is modelled by its contract, the least walk cost to the end. Its result comes from the verified search of part 2.
- Day16.Part1: when the end cannot be reached, the source panics on `path_lengths[&end]`; the model returns `Unreachable`. The same holds for Day16.Part2 and its `remove(&end).unwrap()`.
