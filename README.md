# Advent of Code 2024, days 1–14, modelled in Dafny

This project models the solution logic of the fourteen Rust programs in the
`elmoren/AdventOfCode2024` repository. There is one Dafny module per day (`Day1` … `Day14`),
plus small shared modules:

- `Wrappers`: `Option` and `Result`;
- `RustInt` and `Decimal` in `numeric.dfy`: Rust's truncating `/` and `%`, and decimal
  rendering and parsing;
- `Text`: the `std` string operations the programs use, such as `lines`, `split`,
  `split_whitespace` and `parse`;
- `Grid`: row-major flattening of line grids and the four orthogonal steps.

The model follows each program's own form. Pure iterator pipelines become functions, with
lemmas about them. Loops that update variables become methods with loop invariants, proved
against a specification function. Objects whose methods update their fields become classes:
`Day6.PuzzleMap`, `Day9.DiskMap`, `Day12.Region` and `Day14.Room`. A Rust panic (`unwrap` on `None`, an index out
of range) becomes an `Option` or `Result` error value, unless the caller is required to rule
it out; the "Left out" section lists each such case.

Each day's properties are proved by the verifier. They include: the answer agrees with an
independent reference definition, round trips of parsing and rendering, invariants that
mutating methods keep, and the sample answers from the programs' own tests where these are
cheap enough to evaluate.

## Model

| member | source | states |
|---|---|---|
| Day1.SumDistances | day1/src/main.rs:6-15 | the total distance is never negative, and is 0 when either list is empty |
| Day1.SumDistancesPairwise | day1/src/main.rs:10-14 | `zip` stops at the shorter list: the total is the sum of `\|right[i] - left[i]\|` over the first min(\|left\|, \|right\|) index-aligned pairs |
| Day1.SumDistancesTruncate | day1/src/main.rs:10-12 | values past the end of the shorter list do not change the total |
| Day1.SumDistancesSymmetric | day1/src/main.rs:13 | swapping the two lists leaves the total unchanged |
| Day1.OccurrencesMultiset | day1/src/main.rs:21-24 | the count of v in a list is its multiplicity in the list's multiset |
| Day1.SumSimilarity | day1/src/main.rs:17-35 | the frequency-map loop and the weighted sum return `Similarity`: each left value times the number of its occurrences in the right list, with a value missing from the map counting 0 |
| Day1.SimilarityOrderIndependent | day1/src/main.rs:21-24 | the score depends on the right list only through its multiset of values |
| Day1.ExampleDistances | day1/src/main.rs:72-81 | the sorted sample lists have total distance 11 |
| Day1.ExampleSimilarity | day1/src/main.rs:84-91 | the sample lists have similarity score 31 |
| Day2.Sign | day2/src/main.rs:19 | `signum` is -1, 0 or 1, and is positive or negative exactly when its argument is |
| Day2.Distances | day2/src/main.rs:14-17 | `windows(2)` gives one difference per neighbouring pair, `levels[i + 1] - levels[i]` |
| Day2.IsSafeLevels | day2/src/main.rs:19-24 | a report of two or more levels is safe iff its levels all rise or all fall by 1 to 3 per step; equal first levels make it unsafe |
| Day2.SignCases | day2/src/main.rs:19-24 | multiplying each difference by the sign of the first and requiring 1..3 is the same as "all increasing or all decreasing by 1..3" |
| Day2.IsSafe | day2/src/main.rs:11-25 | a verdict on a line exists only if it has at least two words (the source indexes `distances[0]`) |
| Day2.IsSafeFormat | day2/src/main.rs:11-17 | a line of levels rendered with single spaces is judged on exactly those levels |
| Day2.Verdicts | day2/src/main.rs:5-7 | one verdict per report, in order |
| Day2.CountSafe | day2/src/main.rs:4-9 | the count exists iff every report can be judged; it is then the number of `Some(true)` verdicts |
| Day2.CountTrue | day2/src/main.rs:7-8 | the filtered count is the multiplicity of `Some(true)`, and exists iff no verdict is missing |
| Day2.ExampleSafe | day2/src/main.rs:55-58 | the reports `7 6 4 2 1` and `1 3 6 7 9` are safe |
| Day2.ExampleUnsafe | day2/src/main.rs:60-64 | the four other sample reports are unsafe |
| Day2.ExampleLevels | day2/src/main.rs:45-65 | the verdicts on all six sample reports |
| Day3.DigitRun | day3/src/main.rs:48-50 | `next_if(is_digit)` consumes a maximal run of digits: everything up to the end is a digit, and what follows is not |
| Day3.ParseI32 | day3/src/main.rs:52 | parsing a digit buffer succeeds iff the buffer is non-empty and its value fits an `i32`, and then yields that value |
| Day3.Mul | day3/src/main.rs:43-78 | text that is empty or does not start with a digit is never a call |
| Day3.MulFormat | day3/src/main.rs:43-78 | the text `a,b)` followed by anything yields a × b, for digit strings a and b whose values fit an `i32` |
| Day3.MulShape | day3/src/main.rs:43-78 | conversely, every text that yields a product has the form `a,b)…`, and the product is a × b |
| Day3.MulAccepts | day3/src/main.rs:52-77 | once both numbers parse and the comma and the `)` are in place, the product is returned |
| Day3.ParseMul | day3/src/main.rs:43-78 | the imperative digit-reading parser returns exactly `Mul` |
| Day3.MatchIndices | day3/src/main.rs:4 | every match index leaves room for `mul(` inside the text |
| Day3.NoOverlap | day3/src/main.rs:4 | two occurrences of `mul(` never overlap, so a left-to-right search misses none |
| Day3.MatchIndicesExact | day3/src/main.rs:4 | `match_indices("mul(")` returns exactly the positions where `mul(` starts |
| Day3.MatchScan | day3/src/main.rs:6-14 | summing `parse_mul(..).unwrap_or(0)` over the match indices equals the reference scan over every start position |
| Day3.FindProducts | day3/src/main.rs:3-15 | the answer is the reference scan: each occurrence of `mul(` adds its product, or 0 when the call is malformed |
| Day3.FindProductsWithConditionals | day3/src/main.rs:17-41 | the character loop with its switch and buffer returns the reference `Conditional`: the sum of the products of the calls completed while the switch is on |
| Day3.WorkEnds | day3/src/main.rs:24-32 | the buffer ends with a keyword exactly when the text read so far does |
| Day3.BufferEnds | day3/src/main.rs:26-33 | no keyword straddles a point where the buffer was cleared |
| Day3.ToggleExclusive | day3/src/main.rs:26-31 | `do()` and `don't()` never end at the same character, so the order of the two tests does not matter |
| Day3.AfterDo | day3/src/main.rs:26-28 | `do()` turns the switch on and clears the buffer, keeping the total |
| Day3.AfterDont | day3/src/main.rs:29-31 | `don't()` turns the switch off and clears the buffer, keeping the total |
| Day3.AfterMul | day3/src/main.rs:32-34 | an enabled `mul(` clears the buffer and adds the product of the text after it |
| Day3.AfterOther | day3/src/main.rs:24 | any other character only extends the buffer |
| Day3.EnabledIff | day3/src/main.rs:19-31 | the switch is on exactly when every `don't()` read so far was later followed by a `do()` |
| Day3.ConditionalsWithoutToggles | day3/src/main.rs:3-41 | on text without any `do()` or `don't()`, the conditional total equals the plain total |
| Day3.ExampleMul | day3/src/main.rs:97 | in the sample, `mul(2,4)` followed by more text yields 8 |
| Day3.ExampleUnclosed | day3/src/main.rs:97 | `mul(32,64]` is not closed, so it yields nothing |
| Day3.ExampleNoDigit | day3/src/main.rs:97 | text after `mul(` must start with a digit |
| Day4.CharAt | day4/src/main.rs:18-24 | a letter is returned only for a position inside the grid |
| Day4.CharAtInside | day4/src/main.rs:18-24 | on a grid holding all rows × columns letters, a letter is returned exactly for the positions inside it |
| Day4.MatchWord | day4/src/main.rs:90-113 | `match_word`: the first letter matches and the rest matches one step further on; MatchWordIff states its meaning |
| Day4.MatchWordIff | day4/src/main.rs:90-113 | the recursive match succeeds iff, for every k, the k-th letter of the word stands k steps away, with every step staying in the grid and at non-negative coordinates |
| Day4.RayHead | day4/src/main.rs:94-109 | a placed word is its first letter followed by the rest of the word placed one step further on |
| Day4.Hits | day4/src/main.rs:41-45 | a position counts at most once per direction |
| Day4.RowHits | day4/src/main.rs:40-46 | at most eight hits per position of a row |
| Day4.GridHits | day4/src/main.rs:39-47 | at most eight hits per position of the grid |
| Day4.FindWords | day4/src/main.rs:26-50 | the three nested loops count exactly the hits of every position in every one of the eight directions |
| Day4.AbsentFirstLetter | day4/src/main.rs:90-96 | a word whose first letter appears nowhere in the grid is never found |
| Day4.FitsCorners | day4/src/main.rs:72-79 | a filter tests only the four corners and the centre of a window |
| Day4.FitCount | day4/src/main.rs:72-83 | a window fits at most the number of filters tried |
| Day4.FitCountIff | day4/src/main.rs:56-83 | a window fits exactly one filter when it is an `A` with `MAS` or `SAM` along both diagonals, and no filter otherwise |
| Day4.Window | day4/src/main.rs:65-70 | each window read is 9 letters long |
| Day4.FindXMas | day4/src/main.rs:54-88 | the loops count exactly the filter matches of every 3 × 3 window; a grid must be framed (at least two rows, and two columns once the row loop runs) for `rows - 2` and `columns - 2` not to underflow |
| Day4.ReadWindow | day4/src/main.rs:65-70 | the two inner loops push the window's letters row by row |
| Day4.ExampleCross | day4/src/main.rs:52-88 | a 3 × 3 grid with one X of two `MAS` has exactly one match |
| Day4.ExampleLeftwards | day4/src/main.rs:168 | `XMAS` reads leftwards from (1, 4) in the sample grid |
| Day4.ExampleDiagonal | day4/src/main.rs:169 | `XMAS` reads up and to the left from (5, 6) |
| Day4.ExampleOffGrid | day4/src/main.rs:171 | from (9, 1) leftwards the word runs off the grid |
| Day4.ExampleCharAt | day4/src/main.rs:159-162 | the letters at (0, 0), (4, 7) and (9, 9), and nothing at (10, 10) |
| Day4.InitPuzzle | day4/src/main.rs:116-123 | a puzzle is built iff the input has a line (otherwise `unwrap` panics); it keeps no whitespace |
| Day4.InitPuzzleGrid | day4/src/main.rs:116-123 | lines without whitespace, joined by newlines, are read back as a grid of those lines: `rows` = number of lines, `columns` = length of the first |
| Day4.ExampleInitPuzzle | day4/src/main.rs:154-158 | the sample text becomes the 10 × 10 sample grid with its 100 letters |
| Day5.PageCmp | day5/src/main.rs:53-69 | Less iff a has rules and either b has none or a's rules name b; Greater iff a has no rules, or both have rules and only b's rules name a; Equal otherwise |
| Day5.PageCmpAntisymmetric | day5/src/main.rs:53-69 | between two pages that both have rules and no rule cycle, Less one way is Greater the other way, and Equal is symmetric |
| Day5.PageCmpNotAntisymmetric | day5/src/main.rs:54-56 | two pages without rules are each Greater than the other, so `page_cmp` is not a total order |
| Day5.ParseI32 | day5/src/main.rs:29 | parsing succeeds iff the text is a signed decimal whose value fits an `i32`, and then yields that value |
| Day5.ParsePage | day5/src/main.rs:29 | `unwrap_or(0)`: a page number is an `i32`, and text that does not parse reads as 0 |
| Day5.ExampleParsePage | day5/src/main.rs:29 | `47` reads as 47; the empty string and `x1` read as 0 |
| Day5.PageNumbers | day5/src/main.rs:38-40 | splitting on `,` always gives at least one page |
| Day5.PageNumbersRendered | day5/src/main.rs:38-40 | `i32` pages written with commas between them are read back unchanged |
| Day5.CheckOrdering | day5/src/main.rs:37-43 | `check_ordering`: the update's pages are sorted by `page_cmp`; SortedByIff and CheckUpdate state what that means |
| Day5.SortedByIff | day5/src/main.rs:42 | `is_sorted_by(.. is_lt())` holds iff every adjacent pair compares Less |
| Day5.Filter | day5/src/main.rs:15-19 | `filter` keeps only elements whose test has the wanted outcome, and never more elements than it was given |
| Day5.FilterPartition | day5/src/main.rs:14-20 | the two filters split the updates between them: each goes to exactly one side (multisets) |
| Day5.FilterAppend | day5/src/main.rs:15-19 | filtering distributes over concatenation, so kept elements keep their order |
| Day5.FilterAll | day5/src/main.rs:15-19 | elements that all pass are kept whole; elements that all fail are all dropped |
| Day5.FindCorrectlyOrdered | day5/src/main.rs:14-20 | every update returned passes `check_ordering` |
| Day5.FindIncorrectlyOrdered | day5/src/main.rs:45-51 | every update returned fails `check_ordering` |
| Day5.OrderedPartition | day5/src/main.rs:14-51 | the correctly and incorrectly ordered updates together are all the updates, each once |
| Day5.MiddlePage | day5/src/main.rs:32 | `v[v.len().div_euclid(2)]` is one of the pages |
| Day5.AsU32 | day5/src/main.rs:32 | `as u32` keeps values in 0..2^32 and wraps a negative `i32` to 2^32 + x |
| Day5.ScorePart1 | day5/src/main.rs:22-35 | `score_part_1`: the `as u32` middle pages of the correctly ordered updates, summed; MiddleSumAppend makes the sum additive |
| Day5.MiddleSumAppend | day5/src/main.rs:22-35 | the score of two batches of updates is the sum of their scores |
| Day5.ScorePart2 | day5/src/main.rs:71-86 | `score_part_2`: the middle pages of the incorrectly ordered updates after `sort_by(page_cmp)`; SortBy, SortByOrders and OrderedPartition state the parts |
| Day5.SortBy | day5/src/main.rs:81 | sorting permutes the pages (same multiset and length) |
| Day5.Insert | day5/src/main.rs:81 | inserting a page adds exactly that page, which lands at the front or behind the old first page |
| Day5.SortByOrders | day5/src/main.rs:71-86 | when the rules decide every pair of distinct pages of an update, the sorted update passes `check_ordering`: part 2 repairs what part 1 rejected |
| Day5.InsertOrders | day5/src/main.rs:81 | inserting a page into a sorted update under deciding rules keeps it sorted |
| Day5.ParseRuleFormat | day5/src/main.rs:107-108 | `x\|y` written out for two `i32` pages is read back as the rule (x, y) |
| Day5.ParseRuleNoBar | day5/src/main.rs:107 | a line without `\|` is no rule: `split_once("\|").unwrap()` panics on it |
| Day5.ParseRules | day5/src/main.rs:105-108 | the rules parse iff every rule line does, one rule per line in order |
| Day5.RulesMapKeys | day5/src/main.rs:109-112 | a page is a key of the rule map iff it is the first page of some rule |
| Day5.RulesMapValues | day5/src/main.rs:109-112 | the set a page maps to holds exactly the second pages of its rules |
| Day5.Init | day5/src/main.rs:103-117 | the accumulation loop builds the rule map of the parsed rules and keeps the update lines, or fails where a rule line makes the source panic |
| Day5.InitStep | day5/src/main.rs:108-114 | one more parsed rule line extends the parsed rules, and the map of the longer list is the old map with that rule added |
| Day5.ParseRulesFail | day5/src/main.rs:107-108 | one malformed rule line makes the whole parse fail |
| Day5.SplitAtEmpty | day5/src/main.rs:89-100 | the rule lines contain no empty line, and are either all the lines or, with the first empty line and the update lines, make up the input |
| Day5.ParseInput | day5/src/main.rs:89-100 | `parse_input`: the lines before the first empty line, and the lines after it; ParseInputJoin gives the round trip |
| Day5.SplitAtEmptyUnique | day5/src/main.rs:92-98 | rules without an empty line, then an empty line, then updates, split back into those rules and updates |
| Day5.ParseInputJoin | day5/src/main.rs:89-100 | an input written as rule lines, an empty line and update lines parses back into them |
| Day5.ExamplePageCmp | day5/src/main.rs:136-157 | in the sample rules, 75 comes before 47 and 29 before 13 |
| Day5.CheckUpdate | day5/src/main.rs:37-43 | `check_ordering` of a written update is the sortedness of its pages |
| Day5.ExampleOrdered | day5/src/main.rs:159 | the first sample update is correctly ordered |
| Day5.ExampleMiddle | day5/src/main.rs:159 | its middle page is 61 |
| Day5.ExampleUnordered | day5/src/main.rs:162 | the fourth sample update is not correctly ordered |
| Day5.ExampleSort | day5/src/main.rs:149-163 | the fifth sample update `61,13,29`, under the sample rules that concern its pages, sorts to `61,29,13` |
| Day6.NextDir | day6/src/main.rs:85-92 | `next_dir` turns the step direction a quarter turn clockwise: (dr, dc) becomes (dc, -dr) |
| Day6.FourTurns | day6/src/main.rs:85-92 | four turns restore every heading and one, two or three never do |
| Day6.Ahead | day6/src/main.rs:34-45 | the cell ahead exists iff neither `checked_sub` goes below 0, and is the guard's cell plus the heading's step |
| Day6.LookIff | day6/src/main.rs:41-63 | the loop body exits iff the cell ahead is off the grid, reports a loop iff that state is in the history, turns iff the cell is obstructed, and otherwise moves onto it |
| Day6.Bump | day6/src/main.rs:60 | `entry(next).or_insert(0) += 1` adds the cell with count 1 or raises its count by one, leaving every other count |
| Day6.Apply | day6/src/main.rs:56-62 | a turn changes only the heading; a move sets the guard on the target, bumps its count and appends the new guard to the history; exit and loop change nothing |
| Day6.WalkStep | day6/src/main.rs:33-64 | a walk that neither exits nor loops continues from the state after its first event |
| Day6.ApplyCounts | day6/src/main.rs:56-62 | each event keeps every visit count equal to the number of history entries on that cell |
| Day6.ApplyNoRepeats | day6/src/main.rs:50-61 | each event keeps the history free of repeated states |
| Day6.ApplyOnGrid | day6/src/main.rs:46-61 | each event keeps the guard and the history on the grid |
| Day6.WalkInvariants | day6/src/main.rs:32-65 | the whole walk keeps the three invariants, ends `Err` only facing a state of its history and `Ok` only facing the grid's edge |
| Day6.WalkExtends | day6/src/main.rs:61 | the walk only appends to the history |
| Day6.VisitedCells | day6/src/main.rs:145 | the part 1 answer `visited.len()` counts the distinct cells of the history |
| Day6.OccurrencesWitness | day6/src/main.rs:60-61 | a cell counted in the history stands at some history entry |
| Day6.OccurrencesPositive | day6/src/main.rs:60-61 | every history entry's cell is counted |
| Day6.PuzzleMap.constructor | day6/src/main.rs:95-137 | `init_map`: size from the first line, obstructions at `#`, the guard at the last marker, that cell visited once, the history holding the guard |
| Day6.PuzzleMap.Reset | day6/src/main.rs:26-30 | the guard back at the start, empty history and visit counts |
| Day6.PuzzleMap.Part1 | day6/src/main.rs:32-65 | the loop's final state and outcome are those of the walk function from the old state, and the walk keeps `Valid` |
| Day6.PuzzleMap.Step | day6/src/main.rs:34-63 | one loop pass computes the event of the old state and applies it |
| Day6.PuzzleMap.Trial | day6/src/main.rs:72-80 | one part 2 trial reports a loop iff the walk from the start with k obstructed loops, and then removes k, leaving the map `Valid` |
| Day6.PuzzleMap.Part2 | day6/src/main.rs:67-83 | the trial cells leave the obstructions; when none was obstructed before, the count is the number of visited cells whose obstruction makes the guard loop; `Valid` is kept |
| Day6.TrialCounted | day6/src/main.rs:71-81 | one trial moves its cell from the cells to try to the cells done and adds one to the count exactly when it loops |
| Day6.LoopingStep | day6/src/main.rs:76-79 | adding a candidate raises the looping count by one iff its walk loops |
| Day6.Marker | day6/src/main.rs:113-116 | exactly `^ > v <` are guard markers |
| Day6.ObstructionsIff | day6/src/main.rs:103-123 | a cell is an obstruction iff its character is `#` |
| Day6.RowObstructionsIff | day6/src/main.rs:107-121 | within one row, the obstructions are the `#` positions scanned so far |
| Day6.FindGuardIff | day6/src/main.rs:101-123 | the guard is the last marker in row-major order, facing the marker's way, or (0, 0) facing up when there is none |
| Day6.ScanRowIff | day6/src/main.rs:107-121 | a row scan keeps the guard it started with when the row has no marker, else takes the row's last marker |
| Day6.ExampleLoop | day6/src/main.rs:50-52 | a guard circling four obstructions returns to a state of its history and the walk ends in a loop |
| Day6.SquareStep | day6/src/main.rs:33-64 | one event of that walk, stepped explicitly |
| Day6.ExampleExit | day6/src/main.rs:41-43 | a guard on row 0 facing up exits at once |
| Day6.ExampleInitMap | day6/src/main.rs:95-137 | a two-line map yields its guard and its one obstruction |
| Day7.Concat | day7/src/main.rs:39 | the concatenation operator's value is the number whose decimal digits are those of l followed by those of r |
| Day7.ConcatValue | day7/src/main.rs:39 | concatenation equals l shifted left by r's digit count, plus r |
| Day7.Resolve | day7/src/main.rs:23-47 | `resolve`: pops two operands and tries `+`, `*` and concatenation; ResolveIff states when it succeeds |
| Day7.ResolveIff | day7/src/main.rs:23-47 | `resolve` on the reversed operands succeeds iff some choice of `+`, `*` and concatenation, evaluated left to right, gives the target |
| Day7.SearchIff | day7/src/main.rs:23-47 | the same equivalence for the search with any concatenation operator, both directions |
| Day7.SearchUnfold | day7/src/main.rs:29-46 | one step of `resolve` tries the sum, the product and the concatenation of the two leftmost operands |
| Day7.SearchShape | day7/src/main.rs:29-46 | popping l and r and pushing each combination is the recursion's unfolding |
| Day7.SearchStep | day7/src/main.rs:32-46 | the branch that combines with op succeeds iff some operator sequence starting with op reaches the target |
| Day7.Combined | day7/src/main.rs:32-39 | combining the first two operands leaves one operand fewer |
| Day7.Reverse | day7/src/main.rs:14 | `reverse` keeps the length |
| Day7.ReverseTwo | day7/src/main.rs:14 | reversing puts the first two operands at the top of the stack |
| Day7.ReverseCons | day7/src/main.rs:14 | reversing moves the first element to the end |
| Day7.Rendered | day7/src/main.rs:9 | each operand is written as its decimal digits |
| Day7.ParseLine | day7/src/main.rs:4-21 | a line only yields a value when it holds `": "`; a missing separator (an empty stack for `resolve`) or a bad number gives None |
| Day7.ParseFormat | day7/src/main.rs:4-21 | a written line `target: x1 x2 …` gives its target iff some operators reach it, else 0 |
| Day7.FirstSeparator | day7/src/main.rs:5 | `split_once(": ")` of a written line splits after the target's digits |
| Day7.SplitRendered | day7/src/main.rs:9 | `split(" ")` on operands joined by spaces gives back each operand's digits |
| Day7.NoSpace | day7/src/main.rs:9 | a number's digits hold no space |
| Day7.ParseRendered | day7/src/main.rs:9 | parsing the written operands gives back the operands |
| Day7.ExampleResolve190 | day7/src/main.rs:86 | 190 is reachable from 10 and 19 |
| Day7.SearchExample190 | day7/src/main.rs:86 | the search finds 190 = 10 * 19 |
| Day7.ExampleResolve3267 | day7/src/main.rs:87 | 3267 is reachable from 81, 40 and 27 |
| Day7.SearchExample3267 | day7/src/main.rs:87 | the search finds 81 + 40 * 27 |
| Day7.ExampleResolve292 | day7/src/main.rs:88 | 292 is reachable from 11, 6, 16 and 20 |
| Day7.SearchExample292 | day7/src/main.rs:88 | the search finds 11 + 6 * 16 + 20 |
| Day7.ExampleParseLine | day7/src/main.rs:85-89 | `parse_line` gives 190, 3267 and 292 on the three lines of the unit test |
| Day7.ExampleFormat | day7/src/main.rs:86-88 | the three lines of the unit test are the written forms of their targets and operands |
| Day7.ExampleFormat190 | day7/src/main.rs:86 | `190: 10 19` is the written form of 190 and [10, 19] |
| Day7.ExampleFormat3267 | day7/src/main.rs:87 | `3267: 81 40 27` is the written form of 3267 and [81, 40, 27] |
| Day7.ExampleDigits3267 | day7/src/main.rs:87 | 3267 is written `3267` |
| Day7.ExampleJoin3267 | day7/src/main.rs:87 | the operands join to `81 40 27` |
| Day7.ExampleRendered3267 | day7/src/main.rs:87 | 81, 40 and 27 are written `81`, `40`, `27` |
| Day7.ExampleFormat292 | day7/src/main.rs:88 | `292: 11 6 16 20` is the written form of 292 and [11, 6, 16, 20] |
| Day7.ExampleRendered292 | day7/src/main.rs:88 | 11, 6, 16 and 20 are written `11`, `6`, `16`, `20` |
| Day7.ExampleJoin292 | day7/src/main.rs:88 | the operands join to `11 6 16 20` |
| Day8.TimesStep | day8/src/main.rs:104-110 | one step of d and then k more is k + 1 steps |
| Day8.CalcAntinode | day8/src/main.rs:77-91 | a result is on the grid and is the mirror of p1 through p2 (p1 + r = 2·p2); None only when that mirror is off the grid |
| Day8.ExampleAntinodes | day8/src/main.rs:153-188 | the six antinodes of the unit test, three found and three off the grid |
| Day8.RayFromIff | day8/src/main.rs:104-111 | the loop's ray holds t + k·d for each k below its length, all on the grid, and t + n·d is the first point off it |
| Day8.LineIff | day8/src/main.rs:93-114 | `calc_antinode_p2` gives p2 first, then p2 + k·(p2 − p1) for k = 1, 2, … while on the grid, stopping at the first point off it |
| Day8.CalcAntinodeP2 | day8/src/main.rs:93-114 | the while loop computes that line |
| Day8.ExampleLines | day8/src/main.rs:190-209 | the two lines of the unit test of three points each |
| Day8.FindAntinodes | day8/src/main.rs:55-75 | the loop collects both lines for each earlier antenna, in order |
| Day8.AntinodesIff | day8/src/main.rs:55-75 | a point is collected iff it is on a line through p and one of the earlier antennas, in either direction |
| Day8.ReadMap | day8/src/main.rs:17-53 | the row-major scan computes the map of the value-level reading, None on an input without lines (where `unwrap` panics) |
| Day8.PlaceConsistent | day8/src/main.rs:26-43 | placing one antenna keeps the antinode set equal to the points on lines through same-frequency pairs |
| Day8.ScanRowConsistent | day8/src/main.rs:25-44 | scanning a row keeps that equality |
| Day8.ScanLinesConsistent | day8/src/main.rs:23-45 | scanning all lines keeps it |
| Day8.ReadMapAntinodes | day8/src/main.rs:17-53 | the antinode set (whose size is the part 1 answer) is exactly the points on the lines through each pair of same-frequency antennas, both directions |
| Day8.ScanRowRecorded | day8/src/main.rs:25-44 | scanning a row records each antenna under the character at its cell |
| Day8.ScanLinesRecorded | day8/src/main.rs:23-45 | so does scanning all lines |
| Day8.PlaceGrows | day8/src/main.rs:26-42 | placing a character forgets no antenna and records the new one unless it is `.` |
| Day8.ScanRowCovers | day8/src/main.rs:25-44 | scanning a row records every non-`.` cell of it under its character |
| Day8.ScanLinesCovers | day8/src/main.rs:23-45 | scanning all lines records every non-`.` cell under its character |
| Day8.ReadMapAntennas | day8/src/main.rs:26-42 | the antennas are grouped by character, both ways: each recorded antenna stands on a cell holding its frequency, which is never `.`, and every cell holding a character other than `.` is recorded under that character |
| Day9.Min | day9/src/main.rs:34 | `min` is at most both arguments and is one of them |
| Day9.TotalConcat | day9/src/main.rs:7-13 | the block count of two run lists is the sum of their counts |
| Day9.TotalUpdate | day9/src/main.rs:40-41 | replacing one run changes the block count by the difference of lengths |
| Day9.ChecksumFile | day9/src/main.rs:77-82 | `checksum_file`: id times each position of each run, summed; RangeSumClosed gives the closed form and ExampleChecksum the unit test's values |
| Day9.RangeSumClosed | day9/src/main.rs:80 | the fold over one run is id times the arithmetic series of its positions |
| Day9.Checksum | day9/src/main.rs:73-75 | `checksum`: the sum of the file checksums; ExampleChecksum gives 293 for the unit test's files |
| Day9.SeriesStep | day9/src/main.rs:80 | the series grows by one term per extra position |
| Day9.ExampleChecksum | day9/src/main.rs:143-167 | the unit test's file checksums 0, 45 and 248, and the disk checksum 293 |
| Day9.PrefixDigits | day9/src/main.rs:91-92 | a prefix of a digit string is all digits |
| Day9.InitFilesShape | day9/src/main.rs:84-108 | `init_map` makes one file per even digit, file k with id k and the single run of digit 2k |
| Day9.LaidFile | day9/src/main.rs:93-98 | a file run placed at the current offset keeps the layout (runs within the offset, free runs sorted and apart from file runs) |
| Day9.LaidFree | day9/src/main.rs:99-101 | a non-empty free run placed at the offset keeps the layout |
| Day9.InitLayout | day9/src/main.rs:84-108 | `init_map`'s runs end by the total offset, its free runs are non-empty, sorted and apart, and no free run overlaps a file |
| Day9.InitMap | day9/src/main.rs:84-108 | the scan succeeds iff every character is a digit (`to_digit(10).unwrap()` panics otherwise) and builds those files and free runs |
| Day9.ProcessDownKeeps | day9/src/main.rs:19-71 | a reverse scan whose step keeps a relation between each file's before and after, and never adds free space, keeps it for every file it visits and leaves the others |
| Day9.ProcessDownSome | day9/src/main.rs:19-71 | the reverse scan cannot fail when its step cannot fail on a file with a run |
| Day9.RelocateKeeps | day9/src/main.rs:22-46 | relocating a run keeps the earlier runs and the block count; each new run but the last starts before the part, and free space shrinks by exactly the blocks moved before it |
| Day9.FragmentStepKeeps | day9/src/main.rs:21-46 | one file of `fragment` keeps its id and block count and frees no extra space |
| Day9.FragmentKeeps | day9/src/main.rs:19-48 | after `fragment` every file keeps id and block count and free space never grows |
| Day9.FirstFit | day9/src/main.rs:59-60 | the free run chosen is the first one long enough and before the part; None when there is none |
| Day9.WholeFileStepKeeps | day9/src/main.rs:54-69 | a file keeps id, length and later runs, its first run only moves forward, and free space shrinks by the file's length exactly when it moves |
| Day9.WholeFileStepPanics | day9/src/main.rs:54 | the step panics iff the file has no run (`get_mut(0).unwrap()`) |
| Day9.InsertById | day9/src/main.rs:51 | inserting a file into files sorted by id keeps them sorted and adds just that file |
| Day9.SortById | day9/src/main.rs:51 | `sort_by_key(id)` sorts by id and permutes the files |
| Day9.SortByIdSorted | day9/src/main.rs:51 | files already in id order stay as they are (the sort is stable) |
| Day9.InitFilesSorted | day9/src/main.rs:91-98 | `init_map` leaves the files in id order, so the sort changes nothing |
| Day9.DefragmentKeeps | day9/src/main.rs:50-71 | after `defragment_whole_files` the files are in id order, each keeps id, length and later runs, its first run only moves forward, and free space never grows |
| Day9.DefragmentInitMap | day9/src/main.rs:50-108 | on a map built by `init_map` the defragmentation cannot panic |
| Day9.DiskMap.constructor | day9/src/main.rs:107 | the disk map holds the given files and free runs |
| Day9.DiskMap.Fragment | day9/src/main.rs:19-48 | `fragment` succeeds iff the value-level fragmentation does, and then leaves its result |
| Day9.DiskMap.FragmentFile | day9/src/main.rs:21-46 | the inner loop for one file changes that file and the free runs as the value-level step says |
| Day9.DiskMap.DefragmentWholeFiles | day9/src/main.rs:50-71 | `defragment_whole_files` succeeds iff the value-level version does, and then leaves its result |
| Day9.DiskMap.DefragmentFile | day9/src/main.rs:54-69 | the body for one file changes that file and the free runs as the value-level step says |
| Day10.HeightOf | day10/src/main.rs:22-27 | a character's height is its digit value, or -1 when it is not a digit |
| Day10.Heights | day10/src/main.rs:19-28 | each character maps to its height, position by position |
| Day10.NewMap | day10/src/main.rs:15-30 | `TopoMap::new` succeeds iff the input has a line (`peek().unwrap()`), and stores heights from -1 to 9 |
| Day10.NewMapGrid | day10/src/main.rs:15-30 | equal lines of non-whitespace, joined by newlines, give a rectangular map of their heights |
| Day10.LinesMapGet | day10/src/main.rs:32-38 | in that map, `get(r, c)` is the height of character c of line r |
| Day10.Get | day10/src/main.rs:32-38 | `get` is Some iff the cell is on the grid |
| Day10.Height | day10/src/main.rs:37 | an on-grid height is what `get` returns, between -1 and 9 |
| Day10.GetAdjacent | day10/src/main.rs:40-59 | the loop over the four steps yields the orthogonal neighbours that `checked_add_signed` keeps at or above 0 |
| Day10.Climbable | day10/src/main.rs:75-81 | the neighbours kept are exactly those whose height is the wanted one, in order |
| Day10.ClimbableStep | day10/src/main.rs:75-81 | one more neighbour is kept iff its height is the wanted one |
| Day10.NextIff | day10/src/main.rs:75-81 | the cells pushed after a pop are exactly the orthogonal neighbours on the grid one level higher |
| Day10.Pow5 | day10/src/main.rs:66 | the weights that bound the search are positive |
| Day10.WeightConcat | day10/src/main.rs:66 | the stack's weight adds over concatenation |
| Day10.WeightUniform | day10/src/main.rs:66 | cells of one height weigh their number times that height's weight |
| Day10.NextLighter | day10/src/main.rs:66-82 | replacing a cell below 9 by its higher neighbours makes the stack lighter, so the search ends |
| Day10.RepeatTimes | day10/src/main.rs:66 | repeated weight is a product |
| Day10.RepeatAtMost | day10/src/main.rs:66 | fewer repeats weigh no more |
| Day10.PendingConcat | day10/src/main.rs:66-82 | the 9s still to be found from a stack add over concatenation |
| Day10.ReadTrailsAt | day10/src/main.rs:62-85 | the stack loop records the multiset `Ends` of the start, which `TrailRating` counts against the increasing paths |
| Day10.Pop | day10/src/main.rs:67 | popping the top cell moves its ends from the pending multiset and its weight off the stack |
| Day10.Expand | day10/src/main.rs:75-81 | the push loop appends exactly the higher neighbours |
| Day10.PushClimbable | day10/src/main.rs:75-81 | the loop over the neighbours keeps exactly those on the grid at the wanted height, in order |
| Day10.PendingMember | day10/src/main.rs:66-82 | a 9 is pending iff some stack cell leads to it |
| Day10.ClimbEnds | day10/src/main.rs:62-85 | the end of every increasing path to a 9 is recorded |
| Day10.EndsClimb | day10/src/main.rs:62-85 | everything recorded ends an increasing path to a 9 |
| Day10.ClimbCons | day10/src/main.rs:75-81 | a step up in front of an increasing path is an increasing path |
| Day10.EndsReach | day10/src/main.rs:62-85 | a 9 is recorded iff an increasing path from the start reaches it |
| Day10.ClimbableNoRepeats | day10/src/main.rs:75-81 | keeping some neighbours keeps a list without repeats free of repeats |
| Day10.NextNoRepeats | day10/src/main.rs:75-81 | no neighbour is pushed twice after one pop |
| Day10.ViaMember | day10/src/main.rs:75-81 | a listed path through some neighbours is the cell followed by a listed path from one of them |
| Day10.ViaContains | day10/src/main.rs:75-81 | the cell followed by a listed path from one of the neighbours is listed |
| Day10.ClimbsSound | day10/src/main.rs:62-85 | every listed path is an increasing path from the start to a 9 |
| Day10.ClimbTail | day10/src/main.rs:75-81 | an increasing path of two or more cells is a step up followed by an increasing path |
| Day10.ClimbsComplete | day10/src/main.rs:62-85 | every increasing path to a 9 is listed from its first cell |
| Day10.ClimbsIff | day10/src/main.rs:62-85 | the list holds exactly the increasing paths from the start to a 9 |
| Day10.ViaSecond | day10/src/main.rs:75-81 | a path listed through some neighbours has one of them second |
| Day10.ClimbsNoRepeats | day10/src/main.rs:62-85 | no increasing path is listed twice |
| Day10.ViaNoRepeats | day10/src/main.rs:75-81 | paths through different neighbours differ, and so do paths through the same one |
| Day10.PrefixNoRepeats | day10/src/main.rs:75-81 | the same cell in front keeps different paths different |
| Day10.PrefixSecond | day10/src/main.rs:75-81 | the paths through a neighbour have that neighbour second |
| Day10.FinishesPrefix | day10/src/main.rs:75-81 | a cell in front does not change where non-empty paths end |
| Day10.ClimbsEnds | day10/src/main.rs:62-85 | the search's multiset `Ends` is the multiset of the listed paths' ends |
| Day10.ViaEnds | day10/src/main.rs:66-82 | the pending 9s of the stack are the ends of the paths through it |
| Day10.NoRepeatsCount | day10/src/main.rs:106-111 | in a list of distinct paths, a cell ends as many distinct paths as the ends count it |
| Day10.PathsToCons | day10/src/main.rs:106-111 | the head path counts once at its end, in the paths and in the ends |
| Day10.NoRepeatsSize | day10/src/main.rs:106-111 | a list of distinct non-empty paths has as many distinct paths and ends as entries |
| Day10.TrailRating | day10/src/main.rs:62-85 | a trail holds each 9 once per distinct increasing path from its head to it, and its length, the part 2 rating, is the number of such paths |
| Day10.RowZeros | day10/src/main.rs:90-95 | the trailheads of a row are on the grid |
| Day10.ZerosUpTo | day10/src/main.rs:89-97 | the trailheads of the first rows are on the grid |
| Day10.Zeros | day10/src/main.rs:89-97 | all trailheads are on the grid |
| Day10.RowZerosMembers | day10/src/main.rs:90-95 | a row's trailheads are exactly its height-0 cells left of the column |
| Day10.RowZerosOrdered | day10/src/main.rs:90-95 | they are in increasing column order |
| Day10.ZerosUpToMembers | day10/src/main.rs:89-97 | the trailheads of the first r rows are exactly their height-0 cells |
| Day10.ZerosUpToOrdered | day10/src/main.rs:89-97 | they are in row-major order |
| Day10.ZerosIff | day10/src/main.rs:87-99 | `score_map` visits exactly the height-0 cells, each once, in row-major order |
| Day10.ScoredConcat | day10/src/main.rs:93 | trails recorded row by row join into the trails of all rows |
| Day10.ScoreMap | day10/src/main.rs:87-99 | one trail per height-0 cell in row-major order, holding what the search from it records |
| Day10.ScoreRow | day10/src/main.rs:90-96 | the column loop records one trail per height-0 cell of the row |
| Day10.TrailScore | day10/src/main.rs:113-120 | after `sort` and `dedup` a trail holds each 9 reachable by an increasing path from its head once |
| Day11.FromVal | day11/src/main.rs:11-19 | 0 adds one; a non-zero number with an even digit count splits (and has at least two digits); every other number is multiplied |
| Day11.NextVal | day11/src/main.rs:21-31 | add-one gives current + 1, multiply gives current · 2024, and a split gives two numbers whose left half shifted by the right half's width plus the right half is the original |
| Day11.SplitHalves | day11/src/main.rs:25-29 | `split_off(len / 2)` and parsing give a left and a right number that recombine to the original, the right one below 10^width |
| Day11.Children | day11/src/main.rs:44-45 | a stone becomes one or two stones |
| Day11.ExampleChildren | day11/src/main.rs:11-31 | 0 → 1, 17 → 1 7, 1000 → 10 0 and 125 → 253000 |
| Day11.BlinkAll | day11/src/main.rs:43-49 | one blink keeps at least as many stones and at most doubles them |
| Day11.FlatMapLength | day11/src/main.rs:43-49 | the same bounds for the flat map of children |
| Day11.FlatMapAppend | day11/src/main.rs:43-49 | blinking distributes over concatenation |
| Day11.FlatMapSingle | day11/src/main.rs:44-45 | a single stone blinks to its children |
| Day11.FlatMapPermutation | day11/src/main.rs:42-49 | the multiset of stones after a blink depends only on the multiset before, which is why a count map keyed by value (drained in any order) is enough |
| Day11.RemoveOne | day11/src/main.rs:42-49 | removing one element removes it from the multiset |
| Day11.FlatMapRemove | day11/src/main.rs:42-49 | blinking a row yields one stone's children plus the rest's |
| Day11.FlatMapSplit | day11/src/main.rs:42-49 | blinking a row split at one stone is the concatenation of the three parts |
| Day11.MultisetThree | day11/src/main.rs:42-49 | a three-part row's multiset is the middle plus the ends |
| Day11.BlinkPermutation | day11/src/main.rs:42-49 | rows with the same stones blink to rows with the same stones |
| Day11.Repeat | day11/src/main.rs:47 | c copies of a value hold that value c times |
| Day11.FlatMapRepeat | day11/src/main.rs:47 | c equal stones blink to c copies of their children |
| Day11.ScaleStep | day11/src/main.rs:47 | one more copy adds one more copy of the children |
| Day11.Distribute | day11/src/main.rs:47 | (c − 1)·k + k = c·k |
| Day11.BlinkStep | day11/src/main.rs:43-48 | draining key u with count c adds c copies of u's children |
| Day11.Evolve | day11/src/main.rs:41-50 | blinking never removes stones |
| Day11.Distinct | day11/src/main.rs:37-39 | `insert(*i, 1)` keeps each input value exactly once |
| Day11.BlinkMap | day11/src/main.rs:42-49 | draining the count map and adding each stone's children with its count gives the counts of the blinked row |
| Day11.DrainStep | day11/src/main.rs:43-48 | one drained key moves its stones to the blinked part and their children into the new counts |
| Day11.DrainedStep | day11/src/main.rs:43 | draining one key adds its stones to those already drained |
| Day11.AddRepresents | day11/src/main.rs:46-48 | adding c copies of a child list to the counts adds them to the stones represented |
| Day11.DrainDone | day11/src/main.rs:42-49 | with every key drained, the new counts represent the blinked row |
| Day11.AddCount | day11/src/main.rs:46-48 | `entry(e).or_insert(0) += count` adds count to each child's count, once per occurrence |
| Day11.AddStep | day11/src/main.rs:47 | the counts add up across children |
| Day11.CountStones | day11/src/main.rs:52 | `values().sum()` is the number of stones the map represents |
| Day11.RemoveAll | day11/src/main.rs:52 | removing a value's stones leaves the rest |
| Day11.Solve | day11/src/main.rs:34-53 | `solve` as written returns the number of stones after the blinks of the input with repeated values kept once |
| Day11.SolveCounted | day11/src/main.rs:34-53 | the corrected `solve` returns the number of stones after the blinks of the whole input |
| Day11.Run | day11/src/main.rs:41-52 | the blink loop and the final sum count the stones after `steps` blinks of the row the map represents |
| Day11.NoStepsCountsDistinct | day11/src/main.rs:37-39 | with no blinks the as-written count is of the distinct input values |
| Day11.DuplicatesDropped | day11/src/main.rs:37-39 | two equal stones count once as written and twice when corrected |
| Day12.NewFarm | day12/src/main.rs:11-18 | `FarmMap::new` succeeds iff the input has a line (`peek().unwrap()`), and keeps every non-whitespace character |
| Day12.NewFarmLines | day12/src/main.rs:11-18 | equal lines without whitespace, joined by newlines, give a rectangular garden of their letters |
| Day12.LinesFarmGet | day12/src/main.rs:24-30 | in that garden `get(r, c)` is letter c of line r |
| Day12.Contains | day12/src/main.rs:20-22 | `contains`: the cell is inside the rows and columns; Get is Some exactly when it holds |
| Day12.Get | day12/src/main.rs:20-30 | `get` is Some iff `contains` holds |
| Day12.DistinctAppend | day12/src/main.rs:32-48 | two repetition-free lists with no common cell concatenate without repetition |
| Day12.Inside | day12/src/main.rs:41-43 | the in-garden filter never lengthens the list |
| Day12.InsideIff | day12/src/main.rs:41-43 | it keeps exactly the listed cells inside the garden |
| Day12.InsideDistinct | day12/src/main.rs:41-43 | filtering keeps a list free of repetition |
| Day12.InsideSnoc | day12/src/main.rs:41-43 | one more cell is kept iff it is in the garden |
| Day12.NeighborsIff | day12/src/main.rs:32-48 | `get_neighbors` lists exactly the garden cells orthogonally next to the cell, at most four and none twice |
| Day12.NeighborStep | day12/src/main.rs:36-45 | each step adds its cell iff `checked_add_signed` succeeds and the cell is in the garden |
| Day12.GetNeighbors | day12/src/main.rs:32-48 | the loop over the four steps computes that list |
| Day12.SideImage | day12/src/main.rs:111-127 | a plot shares one distinct side with each plot it touches |
| Day12.SidesAdd | day12/src/main.rs:88-101 | a new plot adds one shared side per region plot it touches |
| Day12.CountIn | day12/src/main.rs:111-127 | the count of listed cells in the region is at most the list's length |
| Day12.CountInCard | day12/src/main.rs:111-127 | on a repetition-free list it is the number of region plots among the listed cells |
| Day12.KeptSnoc | day12/src/main.rs:119-123 | one more distinct cell joins the plots counted iff it is a plot |
| Day12.CountInSnoc | day12/src/main.rs:119-123 | the count rises by one iff the next cell is a plot |
| Day12.CountTouching | day12/src/main.rs:111-127 | `count_neighbors` is the number of region plots orthogonally next to the cell, at most four |
| Day12.Region.CountNeighbors | day12/src/main.rs:111-127 | the loop computes that count |
| Day12.Region.constructor | day12/src/main.rs:61-65 | a region starts with its crop, no plots and perimeter 0 |
| Day12.Region.AddPlot | day12/src/main.rs:88-101 | the plot joins the region and the fence grows by 4 − 2n for n touching plots (0 → +4, 1 → +2, 2 → 0, 3 → −2, 4 → −4); a new plot keeps the perimeter invariant |
| Day12.LonePlot | day12/src/main.rs:88-159 | a lone plot has four corners and perimeter 4 |
| Day12.FenceSumRemove | day12/src/main.rs:103-105 | the fence around part of the plots is one plot's exposed sides plus the rest's |
| Day12.TouchingAdd | day12/src/main.rs:88-101 | a new plot touches each orthogonal neighbour once more |
| Day12.FenceSumShift | day12/src/main.rs:88-101 | adding plot x removes one fence piece from each plot next to x |
| Day12.PerimeterCount | day12/src/main.rs:88-105 | the perimeter (exposed plot sides) is four per plot less two per shared side, the count `add_plot` keeps |
| Day12.PriceFenced | day12/src/main.rs:103-105 | `price` of a region built by `add_plot` is its true perimeter times its area, whatever order the plots came in |
| Day12.Relative | day12/src/main.rs:161-171 | `get_relative` is Some iff the cell one step away has non-negative coordinates and is a region plot, and then is that plot |
| Day12.CheckCorners | day12/src/main.rs:145-153 | one check counts at most one corner: outer when neither side is a plot, inner when both are and the diagonal is not |
| Day12.CornersUpTo | day12/src/main.rs:140-155 | the first n checks count at most n corners |
| Day12.CornersAt | day12/src/main.rs:140-155 | a plot has at most four corners |
| Day12.CornerSumRemove | day12/src/main.rs:139-156 | the corner count over the plots is one plot's corners plus the rest's, so the hash-set's iteration order does not matter |
| Day12.CornerSumBound | day12/src/main.rs:139-156 | a region has at most four corners per plot |
| Day12.Region.CountCorners | day12/src/main.rs:129-159 | the loops count the corners over all plots, visiting them in any order |
| Day12.Region.Price | day12/src/main.rs:103-105 | `price`: perimeter times area; PriceFenced shows it is the true perimeter times the area |
| Day12.Region.BulkPrice | day12/src/main.rs:107-109 | `bulk_price` is the corner count times the area |
| Day12.WalkForward | day12/src/main.rs:59-86 | a same-crop walk starting inside a closed set stays inside it |
| Day12.WalkBackward | day12/src/main.rs:59-86 | a same-crop walk ending inside a closed set started inside it |
| Day12.RegionIsComponent | day12/src/main.rs:59-86 | a region holds exactly the cells its start reaches through orthogonal steps on its own crop |
| Day12.RegionAvoids | day12/src/main.rs:174-192 | a region grown from a start outside a closed set shares no plot with it |
| Day12.ClosedUnion | day12/src/main.rs:184 | the union of two closed sets is closed |
| Day12.RegionsDisjoint | day12/src/main.rs:174-192 | a region grown from a start outside another region shares no plot with it |
| Day12.Unvisited | day12/src/main.rs:76-81 | the neighbours pushed are exactly those not yet visited, and none when all were visited |
| Day12.UnvisitedDistinct | day12/src/main.rs:76-81 | a repetition-free neighbour list pushes no cell twice |
| Day12.UnvisitedSnoc | day12/src/main.rs:76-81 | one more neighbour is pushed iff it was not visited |
| Day12.PushStep | day12/src/main.rs:77-80 | marking earlier neighbours visited never hides a later one, since the neighbours are distinct |
| Day12.ElementsStep | day12/src/main.rs:79 | marking the next neighbour adds it to the visited set |
| Day12.PushUnvisited | day12/src/main.rs:76-81 | the inner loop pushes the unvisited neighbours in order and marks every neighbour visited |
| Day12.FloodInit | day12/src/main.rs:66-67 | the start alone on the stack, nothing visited, is a valid flood state |
| Day12.FloodTop | day12/src/main.rs:69-71 | the popped cell is in the garden (so `get(...).unwrap()` cannot panic) and is no plot yet |
| Day12.FloodSkip | day12/src/main.rs:69-73 | popping a cell of another crop only marks it visited and keeps the flood state valid |
| Day12.FloodPlot | day12/src/main.rs:69-82 | popping a cell of the crop adds it as a plot, pushes its unvisited neighbours and keeps the flood state valid |
| Day12.FloodPlotQueue | day12/src/main.rs:75-81 | the stack keeps holding only visited cells (or the start), none twice |
| Day12.FloodPlotMembers | day12/src/main.rs:75-81 | every pushed cell is visited |
| Day12.FloodPlotDistinct | day12/src/main.rs:75-81 | no cell is on the stack twice |
| Day12.FloodPlotPlots | day12/src/main.rs:73-81 | the plots stay exactly the visited, unstacked cells of the crop |
| Day12.FloodPlotSeen | day12/src/main.rs:73-81 | the garden neighbours of every plot are visited, and every visited cell of the crop is reachable from the start |
| Day12.FloodDone | day12/src/main.rs:68-85 | an empty stack leaves exactly the region of the start's crop around the start |
| Day12.LinkedStep | day12/src/main.rs:75-78 | reachability extends by one orthogonal step onto the same crop |
| Day12.SubsetSize | day12/src/main.rs:67 | a subset is no larger, and a proper subset is smaller |
| Day12.FewerUnseen | day12/src/main.rs:68-83 | visiting more positions leaves fewer unvisited |
| Day12.PushedProgress | day12/src/main.rs:68-83 | each pass of the loop visits a new position or shortens the stack, so the flood fill ends |
| Day12.NewRegion | day12/src/main.rs:59-86 | `Region::new` errs iff the start is outside the garden; otherwise its plots are exactly the region of the start's crop around the start and its perimeter is that region's perimeter |
| Day12.UnionMember | day12/src/main.rs:184 | a cell is covered iff some recorded region holds it |
| Day12.UnionSnoc | day12/src/main.rs:184 | `visited.extend(&region.plots)` adds the region's plots to the covered set |
| Day12.PartitionAdd | day12/src/main.rs:180-186 | recording a region grown from an uncovered start keeps the recorded regions pairwise disjoint, closed and covering exactly the visited set |
| Day12.CarriesSnoc | day12/src/main.rs:185 | pushing a fenced region keeps the regions in step with the recorded partition |
| Day12.CarriesRegions | day12/src/main.rs:174-192 | the regions of the partition are fenced, pairwise disjoint and each a region around some start |
| Day12.CarriesCover | day12/src/main.rs:184-185 | every covered cell lies in one of the regions |
| Day12.ScannedNext | day12/src/main.rs:179-188 | after position (i, j) every position before it in row-major order is covered |
| Day12.ScannedRow | day12/src/main.rs:178-189 | finishing a row covers it |
| Day12.ScannedAll | day12/src/main.rs:178-189 | after the scan every garden position is covered |
| Day12.ReadRegions | day12/src/main.rs:174-192 | `read_regions` returns fenced regions, each the region of its crop around some start, pairwise disjoint and together covering the whole garden |
| Day13.Solve | day13/src/main.rs:54-77 | soundness: a returned (x, y) solves both equations of the machine |
| Day13.Determinant | day13/src/main.rs:79-81 | `determinant` of the 2×2 matrix; SolveDegenerate and SolveComplete state what a zero or non-zero value decides |
| Day13.CramerSound | day13/src/main.rs:64-76 | numerators equal to the determinant times x and y make (x, y) a solution |
| Day13.CramerIdentities | day13/src/main.rs:55-66 | the Cramer identities behind that step |
| Day13.ScaledRow | day13/src/main.rs:73-74 | scaling a solution scales each equation |
| Day13.Cancel | day13/src/main.rs:73-74 | a nonzero determinant cancels |
| Day13.SolveDegenerate | day13/src/main.rs:69 | a zero determinant gives None, even for a consistent system |
| Day13.SolveNotIntegral | day13/src/main.rs:55-70 | a numerator that the determinant does not divide gives None |
| Day13.SolveComplete | day13/src/main.rs:64-76 | completeness: with a nonzero determinant every integer solution is returned |
| Day13.NumeratorIdentities | day13/src/main.rs:55-66 | for a solution, each numerator is the determinant times its unknown |
| Day13.Score | day13/src/main.rs:89-98 | a machine scores 0 when the determinant is zero; otherwise any score is 3x + y for the solution, and a nonzero score comes from a reachable (x, y) |
| Day13.SolutionUnique | day13/src/main.rs:54-77 | a solution found is the only one |
| Day13.NoSolutionNone | day13/src/main.rs:69-71 | with a nonzero determinant, None means no integer presses reach the prize |
| Day13.ExampleDeterminant | day13/src/main.rs:129-133 | the determinant of [[94, 22], [34, 67]] is 5550 |
| Day13.ExampleSolutions | day13/src/main.rs:127-155 | the three systems of the unit tests give (80, 40), (38, 86) and None |
| Day13.OpenStart | day13/src/main.rs:41-49 | the open block starts after the last empty line read, and holds no empty line |
| Day13.BlockTextExtend | day13/src/main.rs:46-47 | a non-empty line joins the open block followed by a newline |
| Day13.ReadGames | day13/src/main.rs:38-52 | the loop emits the text of each block an empty line closes, in order |
| Day13.BlocksIgnoreUnterminated | day13/src/main.rs:41-49 | a final block without a closing empty line is not emitted |
| Day13.ClosedPrefix | day13/src/main.rs:41-49 | the blocks closed in a prefix do not depend on later lines |
| Day13.BlockTextPrefix | day13/src/main.rs:46-47 | a block's text depends only on its own lines |
| Day13.BlocksCount | day13/src/main.rs:42-44 | one block per empty line |
| Day13.ClosedCount | day13/src/main.rs:42-44 | the blocks closed within n lines are as many as the empty lines among them |
| Day14.Normalised | day14/src/main.rs:63-64 | `(v % size) + size` with truncating `%` is congruent to v and, for a positive size, lies strictly between 0 and 2·size |
| Day14.WrapStep | day14/src/main.rs:63-64 | the difference from v is a multiple of size |
| Day14.Advance | day14/src/main.rs:66-67 | the new coordinate is congruent to p + v·ticks and, from inside the room with non-negative ticks, stays in [0, size) |
| Day14.NonNegativeProduct | day14/src/main.rs:66-67 | the product of non-negatives is non-negative |
| Day14.AdvanceStep | day14/src/main.rs:66-67 | moving with the normalised velocity is congruent to moving with the original |
| Day14.TickRobot | day14/src/main.rs:62-68 | `Robot::tick` keeps the velocity, keeps a robot inside the room inside it, and moves each coordinate congruently to p + v·ticks |
| Day14.AdvanceMod | day14/src/main.rs:66-67 | from inside the room the new coordinate is (p + v·ticks) mod size |
| Day14.TickMod | day14/src/main.rs:62-68 | from inside the room the robot moves to ((x + vx·t) mod w, (y + vy·t) mod h) |
| Day14.ExampleTick | day14/src/main.rs:142-150 | the robot at (6, 3) with velocity (−1, −3), ticked once in a 7 × 11 room, ends at (5, 0) |
| Day14.Quadrant | day14/src/main.rs:18-27 | a robot is in no quadrant iff it is on the middle column or row; otherwise the quadrant records which side of each it is on |
| Day14.InQuadrant | day14/src/main.rs:17-28 | a quadrant holds at most all the robots |
| Day14.OnMiddle | day14/src/main.rs:26-27 | the middle lines hold at most all the robots |
| Day14.QuadrantsPartition | day14/src/main.rs:17-28 | every robot is counted in exactly one quadrant or on the middle lines |
| Day14.Positions | day14/src/main.rs:34 | the positions of the robots, in order |
| Day14.CountAt | day14/src/main.rs:34 | the robots counted at p are the occurrences of p among the positions |
| Day14.ParseLine | day14/src/main.rs:71-86 | a robot is read only when splitting on space, comma, `=`, `p` and `v` leaves at least four non-empty pieces |
| Day14.ParseLineIff | day14/src/main.rs:71-86 | a line is read as a robot exactly when it has at least four pieces and every piece, including any after the fourth, parses as an integer; the robot is then the first four numbers |
| Day14.TrailingJunk | day14/src/main.rs:72-76 | a written robot followed by a piece that is not a number is rejected, as `parse().unwrap()` panics on that piece before the first four are indexed |
| Day14.ExampleTrailing | day14/src/main.rs:72-76 | `p=0,4 v=3,-3 x` is rejected |
| Day14.ParseFormat | day14/src/main.rs:71-86 | a robot written as `p=x,y v=vx,vy` is read back unchanged: `-` is not a separator |
| Day14.LineTokens | day14/src/main.rs:72-74 | that line splits into the four numbers |
| Day14.DropEmpties | day14/src/main.rs:74 | dropping the empty pieces leaves the four numbers |
| Day14.DropTwo | day14/src/main.rs:74 | the same for one pair |
| Day14.NoSeparators | day14/src/main.rs:73 | a written integer contains no separator |
| Day14.ExampleParse | day14/src/main.rs:130-138 | `p=0,4 v=3,-3` is read as position (0, 4) and velocity (3, −3) |
| Day14.Room.constructor | day14/src/main.rs:1-5 | a room holds its height, width and robots |
| Day14.Room.Tick | day14/src/main.rs:8-12 | every robot is ticked and nothing else changes: dimensions and robot count stay, and robots inside the room stay inside |
| Day14.Room.SafetyFactor | day14/src/main.rs:14-31 | `safety_factor` is the product of the four quadrant counts |
| Day14.Room.RobotsAt | day14/src/main.rs:33-35 | `robots_at(x, y)` is the number of robots standing on (x, y) |
| Day14.CountAtBound | day14/src/main.rs:34 | no more robots stand on a cell than there are |
| Day14.ExampleTicks | day14/src/main.rs:152-175 | the unit test's robots after 100 ticks in an 11 × 7 room stand where the test's counts say |
| Day14.ExampleTickAt | day14/src/main.rs:163 | each sample robot after 100 ticks |
| Day14.TickSample | day14/src/main.rs:62-68 | one sample robot after 100 ticks |
| Day14.ExampleTicksFirst | day14/src/main.rs:163 | the first four sample robots |
| Day14.ExampleTicksMiddle | day14/src/main.rs:163 | the middle four |
| Day14.ExampleTicksLast | day14/src/main.rs:163 | the last four |
| Day14.ExampleSafetyFactor | day14/src/main.rs:176 | the safety factor of the sample after 100 ticks is 12 |
| Day14.ExampleQuadrant | day14/src/main.rs:176 | the quadrant counts are 1, 3, 4 and 1 |
| Day14.Sample | day14/src/main.rs:115-127 | the sample holds twelve robots |
| Day14.SampleAfter100 | day14/src/main.rs:163-173 | twelve robots after 100 ticks |
| Grid.RowMajorBound | day10/src/main.rs:37 | position (r, c) of a rows × columns grid indexes inside the flat `map` |
| Grid.FlattenLength | day10/src/main.rs:19-28 | lines of one width, run together, hold rows × width characters |
| Grid.FlattenIndex | day10/src/main.rs:37 | character c of line r stands at `row * columns + col` of the flat map |
| Grid.AdjacentIff | day10/src/main.rs:40-59 | the four steps kept by `checked_add_signed` are exactly the cells orthogonally next to (row, col), at most four, none twice |
| Decimal.DigitChar | day11/src/main.rs:26 | each digit has a character that reads back as it |
| Decimal.Value | day11/src/main.rs:28 | a digit string of length k is worth less than 10^k |
| Decimal.Digits | day11/src/main.rs:26 | `to_string` of a number is a non-empty digit string without a leading zero |
| Decimal.ValueOfDigits | day11/src/main.rs:26-28 | reading back `to_string` gives the number |
| Decimal.DigitsLength | day11/src/main.rs:14 | the rendering has `checked_ilog10().unwrap_or(0) + 1` digits |
| Decimal.NumDigitsBounds | day11/src/main.rs:14 | n has d digits iff 10^(d−1) ≤ n < 10^d |
| Decimal.ValueAppend | day7/src/main.rs:39 | the value of two digit strings run together is the first shifted by the second's length, plus the second |
| Decimal.SplitDigits | day11/src/main.rs:27-28 | cutting a digit string at k gives the quotient and remainder by 10^(length − k) |
| RustInt.Rem | day14/src/main.rs:63-67 | Rust's `%` is smaller than the divisor in magnitude and takes the dividend's sign |
| RustInt.QuotRem | day13/src/main.rs:69-74 | Rust's `/` and `%` recombine to the dividend |
| RustInt.RemNonNegative | day14/src/main.rs:66-67 | for non-negative operands Rust's `/` and `%` agree with the mathematical ones |
| RustInt.RemZeroIffDivides | day13/src/main.rs:69-74 | a zero Rust remainder means exact division, whatever the signs |
| Text.SplitOnce | day7/src/main.rs:5 | `split_once` cuts at the first occurrence of the pattern (none occurs before the cut), and is None iff the pattern does not occur |
| Text.SplitOnceFirst | day5/src/main.rs:107 | it cuts after a prefix free of the pattern's first character |
| Text.ParseRender | day14/src/main.rs:75 | `parse::<isize>` reads back a written integer |
| Text.ParseNatDigits | day7/src/main.rs:8-9 | `parse::<usize>` reads back a written number |
| Text.JoinSplit | day5/src/main.rs:38 | splitting on a separator and joining with it gives the text back |
| Text.SplitJoin | day5/src/main.rs:38 | pieces free of the separators, joined by one, split back into the pieces |
| Text.LinesJoin | day10/src/main.rs:16 | `lines()` of lines joined by newlines gives back the lines |
| Text.RemoveWhitespaceJoin | day10/src/main.rs:19-21 | filtering whitespace out of lines joined by newlines leaves their characters back to back |
| Wrappers.MapAll | day5/src/main.rs:105-108 | collecting `unwrap`ped images gives every image in order, or fails iff one is missing |

## Left out

- Each program's `main` is not modelled: reading `input.txt`, printing the answers, and summing the answers over the input lines. Day9's `defragment_whole_files` also prints each file id as it goes (day9/src/main.rs:53); that output is not modelled either.
- Day14's `Room::print` writes to the terminal and is not modelled.
- Fixed-width arithmetic is not modelled. Every integer is unbounded, so overflow panics and wrap-around are absent. This covers:
  - `i32` sums and products in days 1–3;
  - the `parse::<i32>().unwrap()` of the levels in day 2, which panics on a level outside the `i32` range and which `Text.ParseInts` accepts;
  - the `parse::<usize>().unwrap()` of the numbers in day 7 and the `parse::<isize>().unwrap()` of the pieces in day 14, which accept any size here;
  - `usize` sums, products and the concatenation `parse` in day 7;
  - `u32` run positions and `u64` checksums in day 9;
  - `u64` stone values times 2024 in day 11;
  - `i64` determinants and the prize offset in day 13;
  - `isize` positions in day 14.
- Two places keep their width because it decides a branch. `Day5.ParseI32` accepts only values in the `i32` range, and `Day5.AsU32` wraps `as u32`.
- Day12.Region.AddPlot: the `u32` perimeter is an unbounded integer. `PerimeterCount` shows it always equals a count of exposed plot sides, so `-= 2` and `-= 4` cannot go below zero.
- `char::is_whitespace` is restricted to ASCII whitespace. Input text is a sequence of `char`, with no UTF-8 encoding.
- Day5.SortBy: Rust's stable `sort_by` is modelled by an insertion sort. `SortByOrders` proves the result correctly ordered when the rules decide every pair of an update's pages. For comparators that are not total orders, the model makes no claim to match the order Rust's sort produces.
- `HashMap` and `HashSet` are modelled as Dafny maps and sets. Where the source iterates over them, the loop takes its elements in an order it leaves open.
  - This covers `Day6.PuzzleMap.Part2`, `Day11.BlinkMap` and `Day12.Region.CountCorners`.
  - The results are proved independent of that order.
- Day6.PuzzleMap.Part1, Day6.PuzzleMap.Part2: the walk runs for at most `fuel` events. The source's loop does not always end: a guard boxed in on all four sides turns forever without adding to its history (day6/src/main.rs:54-56). The fuel bound stands for that case, and a walk that exhausts it ends `Stalled`. The model does not prove how much fuel every other walk needs.
- Day6.PuzzleMap.Part2: the count is promised only when no visited cell was obstructed before. With no guard marker in the input and `#` at (0, 0) this can fail: the trial then removes the original obstruction.
- Day7.Resolve, Day7.Search: require a non-empty operand stack. On an empty stack the source's `pop().unwrap()` panics; `Day7.ParseLine` returns None for the only input that produces one, a line without `": "`.
- Day2.IsSafeLevels requires two levels, as `distances[0]` does. `Day2.IsSafe` returns None for shorter reports and for reports that do not parse.
- Day4.MatchWord, Day4.FindWords: require a non-empty word, because `next().unwrap()` panics on an empty one.
- Day6.PuzzleMap.constructor requires at least one input line, because `init_map` reads `input[0]` (day6/src/main.rs:100) and panics on an empty input.
- Day14.Room.Tick requires a non-zero width and height, because `Robot::tick` takes `%` by them (day14/src/main.rs:63-67) and panics on zero.
- Day4.FindXMas requires `Framed`: `rows - 2` and `columns - 2` must not underflow, and every letter of a window must exist.
- Day8.CalcAntinodeP2, Day8.FindAntinodes: require two different antennas. With equal points the step is zero and the source's loop never ends. `read_map` only pairs an antenna with earlier, different cells.
- Day10.Valid, Day12.Valid: the operations on a map require it to be rectangular, because `get` indexes the flat map directly and panics past its end.
- Day10.ReadTrailsAt: the trail is stated as a multiset, whose counts `TrailRating` ties to the distinct increasing paths. The order of the recorded ends is the stack order, which the model does not state.
- Day9's panics from `unwrap` on empty deques are modelled as `ok == false` from `DiskMap.Fragment` and `DiskMap.DefragmentWholeFiles`.
- Day13's `read_game` is not part of this model. It splits each block with a regular expression and adds 10^13 to the prize. `Day13.ReadGames` stops at the text of each block.
- Not every sample answer from the programs' tests is evaluated on its full sample, because that costs too much proof effort. These are not evaluated:
  - day 2 count_safe, day 3 totals 161 and 48, day 4 counts 18 and 9;
  - day 5 scores 143 and 123, day 6 counts 41 and 6;
  - day 7 total 3749, day 8 count 34;
  - day 9 checksums 1928 and 2858, day 10 scores 36 and 81, day 11 count 55312;
  - day 12's region counts, perimeters and prices, day 13 total 480;
  - day 14's `robots_at` counts, which follow from `ExampleTicks` but are not stated one by one.
  Smaller instances of the same operations are proved instead.

## Findings

| source | as written | input that shows it | evidently intended | confidence | as-written member | corrected member |
|---|---|---|---|---|---|---|
| day11/src/main.rs:37-39 | `rocks.insert(*i, 1)` sets the count of each input value to 1, so a repeated stone is counted once | `solve(&vec![7, 7], 0)` returns 1 | count every stone, `*rocks.entry(*i).or_insert(0) += 1`, giving 2 | not executed; the puzzle inputs may never repeat a value | Day11.Solve, Day11.DuplicatesDropped | Day11.SolveCounted |
