# Advent of Code 2020, days 1-19, in Dafny

This project models the nineteen puzzle solvers of a Rust Advent of Code 2020
repository, one `N/src/main.rs` per day, and proves what each solver computes.
Each day is one Dafny module named after its puzzle: `ReportRepair` (day 1),
`PasswordPhilosophy`, `TobogganTrajectory`, `PassportProcessing`,
`BinaryBoarding`, `CustomCustoms`, `HandyHaversacks`, `HandheldHalting`,
`EncodingError`, `AdapterArray`, `SeatingSystem`, `RainRisk`, `ShuttleSearch`,
`DockingData`, `MemoryGame`, `TicketTranslation`, `ConwayCubes`,
`OperationOrder` and `MonsterMessages` (day 19). Five shared modules stand in
for the parts of Rust's standard library the solvers lean on:

- `Outcomes` (outcome.dfy): `Option` and `Outcome<T>`. `Outcome` is
  `Done(value)`, `Panic` or `OutOfFuel`.
- `Strings` (strings.dfy): `split`, `split_terminator`, `trim`,
  `split_whitespace` and byte offsets.
- `Decimal` (decimal.dfy): `str::parse` for unsigned and signed integers of a
  given width, with its inverse, the decimal rendering.
- `Arith` (arith.dfy): facts about division, remainders and powers of two.
- `Sorting` (sorting.dfy): `sort` as insertion into a sorted sequence.

Conventions:

- Every path on which the Rust code panics returns `Panic`: an `unwrap` of
  `None`, a failed parse, an index out of range, an unknown opcode or
  character.
- A loop or recursion the source cannot bound is modelled with a `fuel`
  parameter and reports `OutOfFuel` when the fuel runs out. These are the rule
  recursion of days 7 and 19, the fixpoint of day 11 and the sieve of day 13.
- Where the source updates state step by step, the model does too: a
  `method` with loop invariants, an `array` for an in-place vector, a
  `class` for an object whose fields change. Each such method is proved
  equal to a specification function, and the puzzle's properties are proved
  about that function as lemmas.
- Parsed structures such as rule maps, tickets, instructions and bus
  schedules are passed in as values. Reading files and printing are left out.

## Model

| member | source | states |
|---|---|---|
| ReportRepair.ParseNumbers | 1/src/main.rs:14-24 | the tokens parse as `i32` values, one per token and in order, and the whole input fails exactly when some token does not parse |
| ReportRepair.FindPair | 1/src/main.rs:26-34 | when a pair is found it is the first pair of indices, in the order of the two nested loops, whose entries sum to 2020 (an entry may pair with itself); when none is found no pair sums to 2020 |
| ReportRepair.Run | 1/src/main.rs:4-38 | the program fails on a bad token exactly when parsing fails; otherwise it reports the first pair summing to 2020 with their product, or no answer when no pair sums to 2020 |
| PasswordPhilosophy.FreqPolicy.CheckConformance | 2/src/main.rs:121-131 | accepts exactly when the number of occurrences of the focus character lies between the minimum and maximum count |
| PasswordPhilosophy.PositionPolicy.CheckConformance | 2/src/main.rs:96-109 | accepts exactly when one character whose 1-based byte position is `pos0` or `pos1` is the focus character |
| PasswordPhilosophy.PositionPolicy.AsciiMatches | 2/src/main.rs:100-105 | on ASCII text, byte positions are character positions: the matches are the focus character at `pos0` plus, when different, at `pos1` |
| PasswordPhilosophy.PositionPolicy.AsciiConformance | 2/src/main.rs:96-109 | on ASCII text the policy holds exactly when one of the two positions holds the focus character (a single position when both are equal) |
| PasswordPhilosophy.MakeFreqPolicy | 2/src/main.rs:111-119 | succeeds exactly when both counts parse as `u8` and the character capture is non-empty, and then holds those values; otherwise panics |
| PasswordPhilosophy.MakePositionPolicy | 2/src/main.rs:88-94 | succeeds exactly when both positions parse as `usize` and the character capture is non-empty, and then holds those values; otherwise panics |
| PasswordPhilosophy.EvalResult.constructor | 2/src/main.rs:30-35 | both counters start at zero |
| PasswordPhilosophy.EvalResult.Eval | 2/src/main.rs:38-48 | returns the check's verdict, counts one more evaluation, one more error exactly when the check fails, and so one more success exactly when it holds |
| TobogganTrajectory.PosClosedForm | 3/src/main.rs:16-26 | before visit `k` the loop stands at row `k * dy` and column `(k * dx) mod width`, always below the width |
| TobogganTrajectory.PosRow | 3/src/main.rs:26 | the row of visit `k` is `k * dy`, whatever the width |
| TobogganTrajectory.TreesAtMostVisits | 3/src/main.rs:18-27 | the trees met in `n` visits are at most `n` |
| TobogganTrajectory.TreeCountBound | 3/src/main.rs:10-30 | a successful count is at most the number of rows visited, `ceil(rows / dy)` |
| TobogganTrajectory.CountTreesOnSlope | 3/src/main.rs:10-30 | the loop returns the trees over all visits, and panics on an empty map or when a visit lies past the end of its row |
| TobogganTrajectory.Advance | 3/src/main.rs:19-26 | one fitting visit adds its tree, if any, to the count and moves `dx` right (wrapping) and `dy` down |
| TobogganTrajectory.FallsOff | 3/src/main.rs:20 | a visit on an existing row past that row's end makes the whole count panic |
| TobogganTrajectory.Finished | 3/src/main.rs:18 | once the row passes the last row, the count is the trees over the visits made |
| TobogganTrajectory.SlopeProduct | 3/src/main.rs:42-47 | the loop's accumulator, starting at 1, is the product of the counts of the slopes, and any panicking count panics |
| TobogganTrajectory.ProductDone | 3/src/main.rs:42-47 | the product is a number exactly when every slope's count is |
| TobogganTrajectory.ProductPanics | 3/src/main.rs:43-46 | a panic on a prefix of the slopes is a panic of the whole product |
| TobogganTrajectory.DiagonalExample | 3/src/main.rs:10-30 | on a 2 by 2 map with trees on its diagonal, slope (1, 1) meets both trees |
| PassportProcessing.ValidateIntField | 4/src/main.rs:30-36 | a value passes exactly when it reads as a `u32` lying between the bounds |
| PassportProcessing.IntFieldAcceptsRange | 4/src/main.rs:30-48 | every in-range number passes when written plainly or with a leading `+`, and fails with a leading `-` |
| PassportProcessing.HgtShape | 4/src/main.rs:50-69 | a height passes exactly when it is a non-empty run of digits that fits a `u32`, then `cm` (150 to 193) or `in` (59 to 76) |
| PassportProcessing.YearExamples | 4/src/main.rs:38-40 | the birth year accepts 2002 and rejects 2003 |
| PassportProcessing.HeightAccepted | 4/src/main.rs:50-69 | `60in` and `190cm` are valid heights |
| PassportProcessing.HeightRejected | 4/src/main.rs:50-69 | `190in` and a height with no unit are rejected |
| PassportProcessing.PatternExamples | 4/src/main.rs:71-84 | sample hair colours, eye colours and passport ids are accepted or rejected as their patterns say |
| PassportProcessing.SplitOnce | 4/src/main.rs:17 | splitting on the first separator gives the text before it, which has no separator, and all the text after it; no separator gives nothing |
| PassportProcessing.SplitOnceOf | 4/src/main.rs:17 | a key with no separator, joined to any value, splits back into that key and that value |
| PassportProcessing.FieldMap | 4/src/main.rs:12-22 | building the map panics exactly when some field has no `:`, because of the missing second half |
| PassportProcessing.FieldMapKeys | 4/src/main.rs:16-19 | the keys of the map are exactly the keys of the fields |
| PassportProcessing.FieldMapLastWins | 4/src/main.rs:16-19 | for a repeated key the map holds the value of its last field |
| PassportProcessing.ParseFields | 4/src/main.rs:12-22 | the loop over the space-separated fields builds the map of the whole line |
| PassportProcessing.FieldMapPanics | 4/src/main.rs:16-19 | a panic on a prefix of the fields panics the whole line |
| PassportProcessing.EmptyLinesCloseRecords | 4/src/main.rs:93-104 | every blank line closes one record, even when the record is empty |
| PassportProcessing.GroupRecords | 4/src/main.rs:88-108 | the loop returns the closed records followed by the last one when it is non-empty, and panics on a malformed line |
| PassportProcessing.GroupedPanics | 4/src/main.rs:93-104 | a panic on a prefix of the lines panics the whole grouping |
| PassportProcessing.GroupingExample | 4/src/main.rs:88-108 | two one-field lines, two blank lines and one more line give three records, the middle one empty |
| PassportProcessing.GroupedExample | 4/src/main.rs:93-104 | the same lines leave two closed records and an open third |
| PassportProcessing.GroupedBlankLines | 4/src/main.rs:93-104 | two blank lines after a record close that record and an empty one |
| PassportProcessing.GroupedTwoFields | 4/src/main.rs:99-102 | fields on consecutive lines gather into one open record |
| PassportProcessing.GroupedSnoc | 4/src/main.rs:93-104 | grouping one more line is one step from the grouping of the lines before it |
| PassportProcessing.OneField | 4/src/main.rs:12-22 | a line holding one well-formed field gives a map with that single entry |
| PassportProcessing.PassingFull | 4/src/main.rs:121-134 | the count of passing required fields is at most their number, and equals it exactly when every one is present and valid |
| PassportProcessing.CidIgnored | 4/src/main.rs:110-117 | adding or changing `cid` never changes whether a record is valid, since `cid` is not required |
| PassportProcessing.NumValid | 4/src/main.rs:119-137 | no more records are valid than there are records |
| PassportProcessing.CountValid | 4/src/main.rs:119-137 | the loop counts exactly the records whose seven required fields all pass |
| BinaryBoarding.Value16 | 5/src/main.rs:27-38 | the shifted-in code keeps only 16 bits, as the `u16` accumulator does |
| BinaryBoarding.Value16IsBinary | 5/src/main.rs:27-38 | for codes of at most 16 letters the accumulator is the plain binary value, B and R as 1, F and L as 0 |
| BinaryBoarding.Pow2Bound | 5/src/main.rs:27-38 | 15 doublings stay within the `u16` top bit |
| BinaryBoarding.DecodeSeat | 5/src/main.rs:26-44 | decoding panics exactly on a letter other than B, F, L, R; otherwise the row is the value above the low three bits, cut to 8 bits, and the column is the low three bits |
| BinaryBoarding.SeatIdIsBinary | 5/src/main.rs:17-19 | for a ten-letter code the column is below 8, the row below 128, and the seat id is the code read in binary |
| BinaryBoarding.ExampleHead | 5/src/main.rs:88-95 | the row half `FBFBB` of the example reads as 11 |
| BinaryBoarding.ExampleBinary | 5/src/main.rs:88-95 | `FBFBBFFRLR` reads as 357 |
| BinaryBoarding.DecodeExample | 5/src/main.rs:87-95 | `FBFBBFFRLR` decodes to row 44, column 5, seat id 357 |
| BinaryBoarding.MinRow | 5/src/main.rs:54 | the smallest row occurs among the seats and none is smaller |
| BinaryBoarding.MaxRow | 5/src/main.rs:55 | the largest row occurs among the seats and none is larger |
| BinaryBoarding.MaxSeatId | 5/src/main.rs:57-61 | the largest seat id occurs among the seats and bounds all of them; no seats panic |
| BinaryBoarding.Within | 5/src/main.rs:68-70 | filtering keeps exactly the ids between the bounds, and keeps them sorted |
| BinaryBoarding.GapsExact | 5/src/main.rs:71-75 | in a sorted list a gap is reported exactly for a value that is absent while both its neighbours are present |
| BinaryBoarding.MissingSeats | 5/src/main.rs:54-75 | the report panics exactly when there are no seats |
| BinaryBoarding.MissingSeatsExact | 5/src/main.rs:65-75 | the reported seats are exactly the ids, within the occupied rows, that are missing while both neighbours are there |
| CustomCustoms.GroupLines | 6/src/main.rs:12-29 | the loop returns the groups the blank lines close, followed by the last group when it is non-empty |
| CustomCustoms.ScanKeepsLines | 6/src/main.rs:15-22 | scanning keeps every non-empty line in order, closes one group per blank line, and its open group holds only non-empty lines |
| CustomCustoms.GroupsKeepLines | 6/src/main.rs:12-29 | the groups, put back together, are exactly the non-empty lines in order |
| CustomCustoms.FlattenSnoc | 6/src/main.rs:17 | closing a group appends its lines to those already grouped |
| CustomCustoms.SumOverRemove | 6/src/main.rs:47 | summing the counts over a set of characters takes one character's count plus the sum over the rest |
| CustomCustoms.SumOverAgree | 6/src/main.rs:47 | two tables with the same counts on a set of characters have the same sum over it |
| CustomCustoms.SumOverBump | 6/src/main.rs:37-43 | raising one character's count by one, new or not, raises the sum by one |
| CustomCustoms.TallySum | 6/src/main.rs:41-43 | a character not yet counted for this group raises the sum by one |
| CustomCustoms.AnyStep | 6/src/main.rs:36-44 | after one more character the sum counts, for this group, every character seen so far exactly once |
| CustomCustoms.LineStep | 6/src/main.rs:36-44 | the same holds after each character of the line |
| CustomCustoms.CountLine | 6/src/main.rs:36-44 | the loop over a line counts each of its characters not yet seen in the group once |
| CustomCustoms.CountGroup | 6/src/main.rs:35-45 | the loop over a group raises the sum by the number of distinct characters on its lines |
| CustomCustoms.CountAnswersForAny | 6/src/main.rs:31-48 | the result is, summed over the groups, the number of distinct characters each group's lines contain |
| CustomCustoms.SumCounts | 6/src/main.rs:47 | the final sum adds up the counts of every key |
| CustomCustoms.LinesWithAll | 6/src/main.rs:53-62 | a character occurs on at most every line, and on as many lines as there are exactly when it is on each one |
| CustomCustoms.TallyStart | 6/src/main.rs:53-57 | before a line's characters are counted, the table counts, for each character, the earlier lines holding it |
| CustomCustoms.TallyStep | 6/src/main.rs:57-60 | counting one more distinct character of the line raises its count by one |
| CustomCustoms.TallyEnd | 6/src/main.rs:57-61 | after all the line's distinct characters, the table counts the lines up to and including it |
| CustomCustoms.TallyLine | 6/src/main.rs:54-61 | sorting and deduplicating a line and then counting each character counts each line once for every character on it |
| CustomCustoms.CountAnswersForGroup | 6/src/main.rs:50-65 | the result is the number of characters found on every line of the group, and none for an empty group |
| CustomCustoms.FullCounts | 6/src/main.rs:64 | the characters whose count equals the number of lines are exactly those on every line |
| CustomCustoms.NotInLinesWith | 6/src/main.rs:53-62 | a character absent from the lines counts on none of them |
| CustomCustoms.CharsOfLinesHas | 6/src/main.rs:35-36 | a character on some line is among the group's characters |
| CustomCustoms.CountAnswersForAll | 6/src/main.rs:67-69 | the total of questions everyone answered never exceeds the total of questions anyone answered |
| CustomCustoms.GroupExample | 6/src/main.rs:83-90 | in the group "ab", "ac" one question was answered by everyone |
| HandyHaversacks.Kept | 7/src/main.rs:16-25 | the contents gathered never outnumber the captures |
| HandyHaversacks.KeptEntry | 7/src/main.rs:19-24 | one capture adds at most one entry |
| HandyHaversacks.KeptStep | 7/src/main.rs:16-25 | one more capture appends its own entry, if any, to those before it |
| HandyHaversacks.ParseFromPanics | 7/src/main.rs:16-25 | the parse of a line panics exactly when a content capture other than "no other" has a count that is not a `u32` |
| HandyHaversacks.ParseFromValue | 7/src/main.rs:16-26 | a finished parse gives the first capture's colour and the kept contents of the rest, in order, and an empty colour for a line with no match |
| HandyHaversacks.ParseSingleBagRule | 7/src/main.rs:11-27 | the loop over the captures gives the parse of the whole line |
| HandyHaversacks.PanicStays | 7/src/main.rs:22 | once a capture panics, the parse of any longer prefix panics |
| HandyHaversacks.DigitCount | 7/src/main.rs:22 | a one-digit count reads as that digit |
| HandyHaversacks.ParseNoOther | 7/src/main.rs:104-109 | "no other" adds no contents |
| HandyHaversacks.ParseOneEntry | 7/src/main.rs:111-116 | "1 shiny gold" gives the single entry (1, shiny gold) |
| HandyHaversacks.ParseTwoEntries | 7/src/main.rs:118-125 | "3 bright white" and "4 muted yellow" give both entries, in order |
| HandyHaversacks.ParseBagRules | 7/src/main.rs:29-36 | the table's colours are exactly the parsed colours, and a repeated colour keeps its last rule |
| HandyHaversacks.Direct | 7/src/main.rs:44-48 | the direct count is absent exactly when no entry names the target, and otherwise is the count of an entry that does |
| HandyHaversacks.DirectFirst | 7/src/main.rs:44-48 | the direct count is that of the first entry naming the target |
| HandyHaversacks.Search | 7/src/main.rs:38-58 | the search never panics; it ends with a count or runs out of fuel on a cycle |
| HandyHaversacks.SearchFrom | 7/src/main.rs:50-57 | the scan over the entries never panics |
| HandyHaversacks.SearchRule | 7/src/main.rs:38-58 | the two loops return what the recursive search defines |
| HandyHaversacks.SearchFindsPath | 7/src/main.rs:38-58 | with positive counts, a finished search is positive exactly when the colour holds the target through some chain of rules |
| HandyHaversacks.SearchFromFindsPath | 7/src/main.rs:50-57 | the scan is positive exactly when some remaining entry holds the target |
| HandyHaversacks.SearchFuel | 7/src/main.rs:38-58 | more fuel does not change a finished search |
| HandyHaversacks.SearchFromFuel | 7/src/main.rs:50-57 | more fuel does not change a finished scan |
| HandyHaversacks.CountContainers | 7/src/main.rs:87-93 | the loop over the table's colours counts those whose search is positive, in whatever order the keys come |
| HandyHaversacks.ContainersStep | 7/src/main.rs:88-93 | handling one more colour adds one to the count exactly when its search is positive |
| HandyHaversacks.ContainerCountReaches | 7/src/main.rs:87-94 | with positive counts, the count is the number of colours that hold the target through a chain of rules |
| HandyHaversacks.Accum | 7/src/main.rs:60-80 | the total never panics and, when it finishes, includes at least the bag's own coefficient |
| HandyHaversacks.AccumFrom | 7/src/main.rs:68-72 | the sub-totals never panic |
| HandyHaversacks.SumAll | 7/src/main.rs:74 | the loop adds up every sub-total |
| HandyHaversacks.AccumPathStats | 7/src/main.rs:60-80 | the loop-and-sum code returns what the recursive total defines |
| HandyHaversacks.AccumFromOutOfFuel | 7/src/main.rs:68-72 | once a sub-total runs out of fuel, so does every longer list |
| HandyHaversacks.AccumLinear | 7/src/main.rs:60-80 | the total for coefficient `k` is `k` times the total for coefficient 1 |
| HandyHaversacks.AccumFromLinear | 7/src/main.rs:68-72 | the same scaling holds for the sub-totals |
| HandyHaversacks.BagsInsideRecurrence | 7/src/main.rs:96-97 | the printed answer, the total less one, is the sum over the entries of count times one plus the bags inside that colour |
| HandyHaversacks.WeightedIsAccumFrom | 7/src/main.rs:68-79 | that weighted sum equals the source's sub-totals for coefficient 1 |
| HandheldHalting.BudgetUpdate | 8/src/main.rs:71-75 | replacing one instruction changes the program's remaining executions by exactly the difference of that instruction's remaining executions |
| HandheldHalting.BumpSpends | 8/src/main.rs:66-75 | counting one more execution of an instruction below the limit spends exactly one of the program's remaining executions, so the run loop terminates |
| HandheldHalting.RunProgram | 8/src/main.rs:56-92 | the in-place loop returns the outcome of the run from instruction 0 with accumulator 0 and leaves the program with the counters that run leaves |
| HandheldHalting.RunOnce | 8/src/main.rs:71-88 | one executed instruction: acc adds its operand and moves on, jmp moves by its operand, nop moves on, any other operation panics, and the counter goes up by one |
| HandheldHalting.RunKeepsCode | 8/src/main.rs:56-92 | a run never changes an operation or an operand, only raises counters, never past the limit, and always ends (normally, with a fault, or with a panic) |
| HandheldHalting.StepsBounded | 8/src/main.rs:56-92 | the number of instructions a run executes is at most the program's remaining executions |
| HandheldHalting.RunMeaning | 8/src/main.rs:56-92 | a run from the start agrees with the reference machine: each executed instruction is the reference machine's next one, a fault happens at the first instruction reached once more after `limit` visits, a normal exit at the end of the program, and a panic at an unknown operation or an instruction pointer outside the program |
| HandheldHalting.FaultIsFirstRepeat | 8/src/main.rs:60-69 | with limit 1 on a fresh program, the fault is raised at the first instruction the reference machine reaches a second time, with the accumulator it has then, and every earlier instruction was reached for the first time |
| HandheldHalting.ResetAllMeaning | 8/src/main.rs:20-22 | resetting keeps every operation and operand and zeroes every counter, and programs with the same code reset to the same program |
| HandheldHalting.ResetProgram | 8/src/main.rs:94-98 | the loop leaves exactly the reset program |
| HandheldHalting.CandidateFlipsOne | 8/src/main.rs:101-115 | a candidate differs from the program only at the tried offset, where jmp became nop or nop became jmp, with operand and counter kept |
| HandheldHalting.FixProgram | 8/src/main.rs:100-124 | the loop over copies returns what the search over offsets returns |
| HandheldHalting.FixFromMeaning | 8/src/main.rs:100-124 | a fix is the reset copy of the first tried (non-acc) offset whose patched program exits normally, every earlier tried offset having looped; `(false, [])` comes back exactly when every tried offset loops; the search never runs out |
| HandheldHalting.FixedIsReset | 8/src/main.rs:119-120 | a returned fix has every counter at zero and as many instructions as the program |
| EncodingError.FindPair | 9/src/main.rs:14-18 | finds a hit exactly when two entries at different positions of the window add up to the value (equal values at two positions count) |
| EncodingError.ValidateFromMeaning | 9/src/main.rs:10-27 | the check reports `(false, v)` with `v` the value at the first checked index that is not a pair sum of its window, and `(true, 0)` exactly when no checked index is broken; the last `win_size` entries are never checked |
| EncodingError.ValidateSeq | 9/src/main.rs:10-27 | the labelled loops compute the check; a window longer than the input panics |
| EncodingError.FindWindowFrom | 9/src/main.rs:29-36 | a found window sums to the target and every earlier start does not; when none is found no window of that length sums to the target and the offset is 0 |
| EncodingError.FindVariableFrom | 9/src/main.rs:38-46 | a found window has the smallest size from 2 to 998 that has a matching window, and the first matching offset of that size; `(false, 0, 0)` means no size in that range has one |
| AdapterArray.SortNat | 10/src/main.rs:10-11 | the sorted copy is ordered and a permutation of the joltages |
| AdapterArray.FindSeq | 10/src/main.rs:9-21 | the in-place loop returns what the chain definition returns |
| AdapterArray.Extended | 10/src/main.rs:19-20 | appending the device, 3 above the last adapter, keeps a sorted chain a sorted chain |
| AdapterArray.FindSeqMeaning | 10/src/main.rs:9-21 | the vector is the sorted input, plus the device on success; the result is valid exactly when no step from the previous joltage (0 first) exceeds 3, and then the whole vector is a sorted chain ending in a step of 3 |
| AdapterArray.FindSeqExample | 10/src/main.rs:79-84 | in whatever order the first example's adapters come, the result is valid and equals the expected vector `[1, 4, 5, 6, 7, 10, 11, 12, 15, 16, 19, 22]` |
| AdapterArray.ExampleChained | 10/src/main.rs:81 | the expected vector is the chain of its first eleven entries plus the device |
| AdapterArray.DeltaHisto | 10/src/main.rs:23-34 | the loop over the histogram buffer returns the counts of steps 1, 2 and 3, and panics on a step down |
| AdapterArray.HistoWeights | 10/src/main.rs:23-34 | for a rising chain `h1 + 2·h2 + 3·h3` is the last joltage and the counted steps are no more than the joltages |
| AdapterArray.HistoExample | 10/src/main.rs:85-88 | the first example's histogram is 7, 0, 5 |
| AdapterArray.CountSolutions | 10/src/main.rs:36-58 | filling `paths` backwards and adding the entries reachable from the outlet gives the path count; fewer than three adapters panic |
| AdapterArray.Arrangements | 10/src/main.rs:39-49 | the listed arrangements from an adapter are exactly as many as `paths[i]` |
| AdapterArray.ListedAreArrangements | 10/src/main.rs:39-49 | every listed arrangement climbs by one to three positions at a time, each joltage at most 3 above the one before, to the last adapter |
| AdapterArray.ArrangementsAreListed | 10/src/main.rs:39-49 | every such arrangement is listed |
| AdapterArray.ListedOnce | 10/src/main.rs:39-49 | no arrangement is listed twice, so `paths[i]` counts the arrangements |
| AdapterArray.SolutionsExample | 10/src/main.rs:90-91 | the first example has 8 arrangements |
| SeatingSystem.CountAdjacent | 11/src/main.rs:31-41 | the loop over the eight offsets counts what the neighbour definition counts |
| SeatingSystem.AdjacentStep | 11/src/main.rs:32-41 | one offset adds its occupied neighbour to the count, or makes the count panic when it indexes past a short row |
| SeatingSystem.AdjacentMeaning | 11/src/main.rs:32-41 | the count of occupied neighbours is at most the number of offsets left, and panics exactly when some offset inside the first row's width indexes past a short row |
| SeatingSystem.CellRules | 11/src/main.rs:28-52 | a cell other than '#' and 'L' never changes; a cell that changes is '#' with at least 4 occupied neighbours becoming 'L', or 'L' with none becoming '#' |
| SeatingSystem.Next | 11/src/main.rs:16-56 | the next grid has the dimensions of the old one |
| SeatingSystem.NextAt | 11/src/main.rs:26-53 | each cell of the next grid is the rule applied to the same cell of the old grid, whose neighbours are all read from the old grid |
| SeatingSystem.UpdateSeats | 11/src/main.rs:16-56 | writing into the clone cell by cell returns the changed-cell count and the next grid of the definition, or panics as it does |
| SeatingSystem.UpdateRow | 11/src/main.rs:27-53 | one row of the loop replaces that row of the clone by its next row and adds the number of its changed cells to the counter |
| SeatingSystem.CellStays | 11/src/main.rs:28-29 | a floor cell or an unknown character is copied unchanged |
| SeatingSystem.CellFollowsRule | 11/src/main.rs:43-49 | a seat follows the rule for its count of occupied neighbours |
| SeatingSystem.SeatFails | 11/src/main.rs:36 | a seat whose neighbour count panics makes the whole update panic |
| SeatingSystem.UpdatesZeroIffFixed | 11/src/main.rs:43-49 | the update reports zero changes exactly when the next grid equals the old one |
| SeatingSystem.UpdateUntilStable | 11/src/main.rs:58-67 | the loop returns the grid the fixpoint definition returns, within the same number of rounds |
| SeatingSystem.SettleIsStable | 11/src/main.rs:58-67 | the returned grid is stable: one more update changes nothing, and its dimensions are those of the input |
| SeatingSystem.CountOccupiedSeats | 11/src/main.rs:69-79 | the nested iteration counts the occupied cells |
| SeatingSystem.OccupiedIsMultiplicity | 11/src/main.rs:69-79 | the count is the number of '#' among all cells of the grid |
| RainRisk.DecodeSteps | 12/src/main.rs:24-39 | the lines decode one step each and in order, and decoding panics exactly when some line does (an empty line, a number that is not an `i32`, an unknown command) |
| RainRisk.DecodeShownStep | 12/src/main.rs:24-34 | a command letter followed by the decimal text of any `i32` decodes back to that step, and any other first letter panics |
| RainRisk.QuarterTurn | 12/src/main.rs:41-49 | a quarter turn left maps a compass letter to a compass letter whose heading is the old heading turned by 90 degrees, and four quarter turns are the identity |
| RainRisk.TurnModFour | 12/src/main.rs:41-49 | from a compass letter any number of quarter turns succeeds and only its remainder modulo 4 matters |
| RainRisk.TurnSplit | 12/src/main.rs:54-57 | turning `a + b` quarters is turning `a`, then `b` |
| RainRisk.RotateLeft | 12/src/main.rs:51-59 | the loop returns the rotation of the definition, and panics on a letter that is not a compass letter once it has to turn |
| RainRisk.RotateLeftTurns | 12/src/main.rs:51-59 | rotating left by `deg` is one quarter turn per started 90 degrees, none for `deg <= 0` |
| RainRisk.RightThenLeft | 12/src/main.rs:61-63 | for a multiple of 90 between 0 and 360, rotating right then left by the same angle gives back the heading |
| RainRisk.ExecStep | 12/src/main.rs:65-85 | one step never runs out, even though F re-enters itself once; a step whose heading is F itself panics there |
| RainRisk.ExecStepMeaning | 12/src/main.rs:65-85 | from a compass heading: N, S, W and E move by the distance along their own axis and keep the heading; F moves along the heading; L and R only change the heading by the started quarter turns of `deg` and `360 - deg` |
| RainRisk.Run | 12/src/main.rs:87-100 | the run of the first steps, from E at (0, 0), never runs out |
| RainRisk.ExecSteps | 12/src/main.rs:87-100 | the loop returns the run of all steps |
| RainRisk.RunPanics | 12/src/main.rs:92-97 | once a step has panicked the whole run panics |
| RainRisk.RunStaysOnCompass | 12/src/main.rs:87-100 | steps with known commands never panic, and the heading stays a compass letter |
| RainRisk.DecodedRuns | 12/src/main.rs:102-105 | whatever decodes runs to the end without a panic |
| ShuttleSearch.SchedulesFrom | 13/src/main.rs:35-42 | every kept schedule pairs a token that parses as a `u32` with that token's position, every parsable token is kept, and the kept schedules are in order of position |
| ShuttleSearch.Schedules | 13/src/main.rs:31-44 | each schedule read from the line is a bus id that parses as a `u32` at the position of its token in the comma-split line; `x` entries leave gaps in the offsets |
| ShuttleSearch.Lcm | 13/src/main.rs:72 | for positive arguments the result is a positive common multiple and no smaller positive number is one; with a 0 argument it is 0 |
| ShuttleSearch.LcmDivides | 13/src/main.rs:72 | every common multiple of two positive ids is a multiple of their least common multiple, which is what lets the sieve step by it |
| ShuttleSearch.LcmAllMultiple | 13/src/main.rs:67-74 | the step after the first `k` buses is a multiple of each of their ids |
| ShuttleSearch.FindEarliestSolution | 13/src/main.rs:63-77 | the loop returns what the sieve function returns for the same schedules: the panic on an empty list or a bus id 0, running out of fuel when the inner loop does not end, or the timestamp |
| ShuttleSearch.SettledSearching | 13/src/main.rs:67-68 | entering the inner loop for bus `k` with the first `k` buses settled, no aligned timestamp lies before `t` |
| ShuttleSearch.AdvanceSearching | 13/src/main.rs:68-69 | adding `step` to a timestamp that misses bus `k` keeps the first `k` buses aligned and skips no timestamp aligned with all `k + 1` |
| ShuttleSearch.StageSettled | 13/src/main.rs:67-72 | once bus `k` is aligned, `t` is the earliest timestamp aligned with the first `k + 1` buses and every other one is `t` plus a multiple of the new step |
| ShuttleSearch.FromSettled | 13/src/main.rs:67-76 | from a settled stage, a timestamp the sieve returns is the earliest aligned with every bus, all others differing from it by multiples of the lcm of all ids |
| ShuttleSearch.FromSearching | 13/src/main.rs:67-76 | the same from inside the inner loop of bus `k` |
| ShuttleSearch.FixedIsEarliest | 13/src/main.rs:63-77 | the sieve with `step` starting at 1 returns, when it returns, the earliest timestamp at which each bus leaves its offset later, and every such timestamp is it plus a multiple of the lcm of the ids |
| ShuttleSearch.LcmOne | 13/src/main.rs:72 | `lcm(1, a) == a`: starting at 1 the first stage's step becomes the first id |
| ShuttleSearch.LcmSelf | 13/src/main.rs:72 | `lcm(a, a) == a`: starting at the first id the first stage leaves the step unchanged |
| ShuttleSearch.AsWrittenAgrees | 13/src/main.rs:63-65 | when the first bus is aligned at time 0 (a list that starts with a bus) starting `step` at the first id gives the same outcome as starting it at 1 |
| ShuttleSearch.StallsFrom | 13/src/main.rs:65-70 | with `step` equal to the first id and that bus not aligned at time 0, `t` stays a multiple of the id and the inner loop never ends, for any fuel |
| ShuttleSearch.AsWrittenStalls | 13/src/main.rs:63-70 | the function as written never returns when the first listed bus has an offset that is not a multiple of its id |
| ShuttleSearch.AsWrittenIsEarliest | 13/src/main.rs:63-77 | whatever the function as written returns is the earliest timestamp aligned with every bus |
| ShuttleSearch.LeadingSkipLine | 13/src/main.rs:33-42 | the line `x,7` gives the single schedule bus 7 at offset 1 |
| ShuttleSearch.LeadingSkipStalls | 13/src/main.rs:63-70 | for bus 7 at offset 1 the function as written never returns, while the corrected sieve returns 6 |
| DockingData.OrUpdateBit | 14/src/main.rs:30 | rotating `1_u64` left by `idx` sets exactly bit `idx` modulo 64 |
| DockingData.AndUpdateBit | 14/src/main.rs:19 | the `and` update word clears bit `idx` modulo 64 and every bit from 36 up, keeping the others |
| DockingData.NewAndMask | 14/src/main.rs:15-24 | the loop over the reversed mask characters builds the `and` mask function of the string |
| DockingData.NewOrMask | 14/src/main.rs:26-35 | the loop over the reversed mask characters builds the `or` mask function of the string |
| DockingData.NewSetMask | 14/src/main.rs:37-43 | the `SetMask` instruction keeps the mask text and both masks built from it |
| DockingData.OrMaskUpToBits | 14/src/main.rs:26-35 | after the `n` rightmost characters, bit `i` of the `or` mask is set iff some `1` among them sits at a position congruent to `i` modulo 64 |
| DockingData.AndMaskUpToBits | 14/src/main.rs:15-24 | after the `n` rightmost characters, a low bit of the `and` mask is clear iff a `0` sits at a congruent position, and a bit from 36 up is clear iff any `0` was seen |
| DockingData.OrMaskBits | 14/src/main.rs:26-35 | for a mask of at most 64 characters, bit `i` of the `or` mask is set iff the character `i` places from the right is `1` |
| DockingData.AndMaskBits | 14/src/main.rs:15-24 | for a mask of at most 64 characters, bit `i < 36` of the `and` mask is clear iff the character `i` places from the right is `0` |
| DockingData.MaskExample | 14/src/main.rs:170-180 | the masks of `XXXXXXXXXXXXXXXXXXXXXXXXXXXXX1XXXX0X` are the 36 low bits but bit 1, and bit 6 alone |
| DockingData.MaskedBits | 14/src/main.rs:81 | under the masks of a string of at most 36 symbols a `1` forces its bit on, a `0` forces it off and an `X` keeps the value's bit; bits from 36 up survive only when the mask has no `0` |
| DockingData.RunProgramV1 | 14/src/main.rs:70-87 | the loop's memory is that of the state function run over the whole program |
| DockingData.V1Written | 14/src/main.rs:70-87 | version 1 memory holds address `a` iff some `mem` instruction writes `a` |
| DockingData.V1LastWrite | 14/src/main.rs:76-83 | the value at `a` is the last write to `a`, masked by the masks in force just before it |
| DockingData.V1MasksNone | 14/src/main.rs:72-73 | with no mask instruction the masks stay 0 |
| DockingData.V1MasksLast | 14/src/main.rs:76-79 | the masks in force are those of the last mask instruction |
| DockingData.PadLeft | 14/src/main.rs:92 | the padded text is at least `w` long, the pad characters come first and the text follows unchanged |
| DockingData.BinString | 14/src/main.rs:94 | the `n` low bits written most significant first, one character per bit |
| DockingData.WidthFrom | 14/src/main.rs:94 | the width of a word: its highest set bit is just below it and no bit at or above it is set |
| DockingData.Format36 | 14/src/main.rs:94 | the binary text is between 36 and 64 digits long |
| DockingData.Format36Width | 14/src/main.rs:94 | a word that fits in 36 bits formats to exactly its 36 low bits |
| DockingData.XMaskForAddr | 14/src/main.rs:89-109 | the loop's characters are the zip function of the formatted address with the `or` mask applied and the padded mask |
| DockingData.ZipRuleAt | 14/src/main.rs:98-106 | on mask symbols each zipped pair yields one character: the address bit under `0`, the mask symbol otherwise |
| DockingData.XMaskMeaning | 14/src/main.rs:89-109 | for a mask of at most 36 symbols and a masked address fitting 36 bits, the result has 36 symbols, each the address bit under a `0` of the padded mask and the mask symbol elsewhere |
| DockingData.XMaskAt | 14/src/main.rs:89-109 | the same per position, reading the unpadded mask: the positions left of the mask are address bits |
| DockingData.XMaskChars | 14/src/main.rs:98-106 | the result of a mask of `X`, `0` and `1` holds only those symbols |
| DockingData.FromNatBit | 14/src/main.rs:238 | bit `i` of the word of `n` is the `i`-th binary digit of `n` |
| DockingData.Address58 | 14/src/main.rs:236-239 | address 42 under `X1001X` fits 36 bits and has bit 3 set and bit 2 clear |
| DockingData.XMaskExample | 14/src/main.rs:235-248 | address 42 under `X1001X` gives a 36-symbol mask ending in `X1101X` |
| DockingData.EnumerateAddressesRec | 14/src/main.rs:118-134 | the recursion appends to the accumulator exactly the words of the enumeration function, `0` branch before `1` branch |
| DockingData.EnumerateAddresses | 14/src/main.rs:111-116 | the addresses are the enumeration of the address's floating mask from 0 |
| DockingData.EnumCount | 14/src/main.rs:118-134 | a mask of `X`, `0` and `1` enumerates 2 to the number of `X` words |
| DockingData.ChoicesExact | 14/src/main.rs:118-134 | the reference list of bit strings contains each string agreeing with the mask's fixed symbols exactly once and nothing else |
| DockingData.EnumIsChoices | 14/src/main.rs:118-134 | the enumeration is the reference list of bit strings, each shifted into the starting word |
| DockingData.AddressesMeaning | 14/src/main.rs:111-134 | the addresses are 2 to the number of `X` in count and are the words of the bit strings that agree with the floating mask, each once |
| DockingData.ExtendBits | 14/src/main.rs:126-131 | shifting a bit string into a word puts its last character in bit 0, and moves the word's bits up by its length |
| DockingData.ExtendValue | 14/src/main.rs:126-131 | a bit string of at most 64 characters shifted into 0 reads as the number the string writes in binary |
| DockingData.EnumValues | 14/src/main.rs:118-134 | for a mask of at most 64 symbols the enumerated words read as the numbers the reference bit strings write |
| DockingData.EnumNumeric | 14/src/main.rs:118-134 | when no shift can lose a bit the enumerated words read as the enumeration over unbounded numbers |
| DockingData.ValueShl1 | 14/src/main.rs:126-131 | `num << 1 \| b` doubles the number and adds `b` when the top bit is clear |
| DockingData.EnumExample1 | 14/src/main.rs:205-216 | the symbols `X1101X` enumerate 26, 27, 58 and 59 |
| DockingData.NatEnumExample1 | 14/src/main.rs:205-216 | the unbounded enumeration of `X1101X` is 26, 27, 58, 59 |
| DockingData.EnumExample2 | 14/src/main.rs:218-233 | the symbols `1X0XX` enumerate 16 to 19 and 24 to 27 |
| DockingData.NatEnumExample2 | 14/src/main.rs:218-233 | the unbounded enumeration of `1X0XX` is 16 to 19 and 24 to 27 |
| DockingData.WriteAllMeaning | 14/src/main.rs:146-148 | after the writes every listed address holds the value, other addresses keep theirs, and nothing else is added |
| DockingData.WriteAddresses | 14/src/main.rs:146-148 | the inner loop's memory is the write function of the listed addresses |
| DockingData.RunProgramV2 | 14/src/main.rs:136-153 | the loop's memory is that of the version 2 state function over the whole program |
| DockingData.V2Written | 14/src/main.rs:136-153 | version 2 memory holds `a` iff some `mem` instruction's addresses, under the mask in force, include `a` |
| DockingData.V2LastWrite | 14/src/main.rs:141-148 | the value at `a` is the value of the last instruction whose addresses include `a` |
| MemoryGame.LastTurn | 15/src/main.rs:4-7 | the turn a number was last spoken, within the history and holding that number, or 0 |
| MemoryGame.PrevTurn | 15/src/main.rs:21-24 | the turn a number was spoken before its last turn, or 0 |
| MemoryGame.LastTurnIsLast | 15/src/main.rs:4-7 | the number is not spoken after its last turn |
| MemoryGame.LastTurnIs | 15/src/main.rs:4-7 | a turn holding the number with no later turn holding it is its last turn |
| MemoryGame.LastTurnAppend | 15/src/main.rs:21-29 | saying `x` makes the new turn its last turn and its old last turn its previous one, and leaves every other number alone |
| MemoryGame.LastTurnAbsent | 15/src/main.rs:26-28 | a number never spoken has no last turn |
| MemoryGame.Run | 15/src/main.rs:12-34 | the play lasts until turn `n`, never shortening the history |
| MemoryGame.RunPrefix | 15/src/main.rs:12-34 | the play keeps every number already spoken |
| MemoryGame.TracksAppend | 15/src/main.rs:21-29 | inserting the new turn for the number said keeps the map of last turns in step with the history |
| MemoryGame.Remember | 15/src/main.rs:4-7 | after the first loop the map holds the last turn of every starting number, and nothing for a previous turn |
| MemoryGame.PlayFrom | 15/src/main.rs:9-36 | the `while` loop returns the number spoken on the last turn of the play from the starting history |
| MemoryGame.Solve | 15/src/main.rs:3-37 | an empty list panics on `input[input.len() - 1]`; otherwise the answer is the number spoken on turn `n_turns` as the program plays |
| MemoryGame.AnswerBeforePlay | 15/src/main.rs:9-12 | when `n_turns` does not go past the starting numbers the loop does not run and the answer is the last starting number |
| MemoryGame.RunFirstRule | 15/src/main.rs:14-19 | with the previous turn of the last number known, the next number said is the rule's |
| MemoryGame.RunFollowsRule | 15/src/main.rs:12-34 | from a history whose previous turn is known every turn of the play says what the rule says |
| MemoryGame.GameFollowsRule | 15/src/main.rs:12-34 | the game played by its rule says, on every turn after the starting numbers, 0 for a first utterance of the last number and otherwise the distance between its last two turns |
| MemoryGame.SaidFollowsRule | 15/src/main.rs:5-34 | the program as written says 0 on the first turn after the starting numbers and follows the rule on every later turn |
| MemoryGame.RunBelowTurn | 15/src/main.rs:14-19 | the number said on turn `k + 1` is less than `k + 1` |
| MemoryGame.SaidBelowTurn | 15/src/main.rs:14-19 | every number said after the starting numbers is less than its turn |
| MemoryGame.FreshLastAgrees | 15/src/main.rs:5-11 | when the last starting number was not spoken earlier, the program plays the rule's game |
| MemoryGame.DistinctStartsAgree | 15/src/main.rs:5-11 | with pairwise distinct starting numbers (as in the puzzle and its tests) the program plays the rule's game |
| MemoryGame.DuplicateStartDiverges | 15/src/main.rs:5-11 | from 1, 1 the rule says 1 on turn 3 while the program says 0 |
| MemoryGame.RememberFixed | 15/src/main.rs:4-7 | the corrected first loop records for every starting number its last and its previous turn |
| MemoryGame.SolveFixed | 15/src/main.rs:3-37 | with the corrected first loop the answer is the number spoken on turn `n_turns` of the game played by its rule, and an empty list still panics |
| MemoryGame.OpeningExample | 15/src/main.rs:52-56 | from 0, 3, 6 the first ten turns say 0, 3, 6, 0, 3, 3, 1, 0, 4, 0 |
| TicketTranslation.FitsAny | 16/src/main.rs:109-113 | a value fits a category iff one of its inclusive ranges holds it |
| TicketTranslation.ValueIsValid | 16/src/main.rs:60-69 | a value is valid iff some category has a range holding it |
| TicketTranslation.TicketIsValid | 16/src/main.rs:71-78 | a ticket is valid iff every value on it is valid |
| TicketTranslation.CalcPuzzleErrorRate | 16/src/main.rs:82-94 | the nested loops add up the invalid values of all tickets, the error rate function |
| TicketTranslation.ValidAddsNothing | 16/src/main.rs:82-94 | a valid ticket adds nothing to the error rate |
| TicketTranslation.ErrorMeansInvalid | 16/src/main.rs:82-94 | a positive error rate means some ticket is invalid |
| TicketTranslation.AllValidNoError | 16/src/main.rs:82-94 | with every ticket valid the error rate is 0 |
| TicketTranslation.ZeroSlipsThrough | 16/src/main.rs:82-94 | an invalid value 0 makes its ticket invalid yet adds nothing: an error rate of 0 does not mean every ticket is valid |
| TicketTranslation.ParseAll | 16/src/main.rs:36-38 | the pieces parse as `u32` values, one per piece and in order, and the parse panics iff some piece is not a `u32` |
| TicketTranslation.ShowAll | 16/src/main.rs:35-39 | the decimal text of each number, in order |
| TicketTranslation.TrimKeeps | 16/src/main.rs:36 | trimming a text that starts and ends with non-space leaves it unchanged |
| TicketTranslation.NumericSeriesRoundTrip | 16/src/main.rs:35-39 | a non-empty list of `u32` values written out joined by commas reads back as the same list |
| TicketTranslation.NumericSeriesExample | 16/src/main.rs:210-217 | `7,1,14` reads as 7, 1, 14 |
| TicketTranslation.ValidTickets | 16/src/main.rs:102-104 | the kept tickets are exactly the valid ones |
| TicketTranslation.Names | 16/src/main.rs:97 | the category names, in order |
| TicketTranslation.Initial | 16/src/main.rs:98-100 | one list of every category name per category |
| TicketTranslation.Remove | 16/src/main.rs:118-142 | filtering a name out never lengthens a list and leaves it unchanged when its length is kept |
| TicketTranslation.RemoveMembers | 16/src/main.rs:118-142 | the filtered list holds exactly the other names |
| TicketTranslation.StrikeValue | 16/src/main.rs:108-124 | the loop over the categories for one value computes the strike function, including its panic on a position past the lists |
| TicketTranslation.Eliminate | 16/src/main.rs:106-126 | the loops over the valid tickets compute the strike function over all of them from the initial lists |
| TicketTranslation.StrikeCatsMeaning | 16/src/main.rs:108-124 | striking one value panics iff its position is past the lists and it fails some category; otherwise only its position changes and keeps exactly the names of the categories the value fits |
| TicketTranslation.StrikeValuesMeaning | 16/src/main.rs:107-125 | striking the values of one ticket panics iff a value past the lists fails some category; otherwise position `i` keeps exactly the names its value fits |
| TicketTranslation.StrikeTicketsMeaning | 16/src/main.rs:106-126 | over all tickets the strike panics iff some ticket is longer than the lists at a failing value; otherwise each position keeps exactly the names no ticket's value at that position fails |
| TicketTranslation.StrikeTicketsPanic | 16/src/main.rs:117 | once the strike has panicked on some tickets it panics on all of them |
| TicketTranslation.Uniques | 16/src/main.rs:132-135 | the pairs of a position with a single name and that name, exactly those |
| TicketTranslation.PruneUpToAt | 16/src/main.rs:138-150 | pruning a unique name removes it at every other position up to `k` and leaves its own position and the rest alone |
| TicketTranslation.PruneShrinks | 16/src/main.rs:138-150 | pruning never adds names, and leaves the lists unchanged when it removes nothing |
| TicketTranslation.PruneAll | 16/src/main.rs:137-151 | pruning every unique name keeps the number of positions, never adds names, and changes nothing when the total is kept |
| TicketTranslation.PruneAllKeeps | 16/src/main.rs:137-151 | every name left after pruning was there before |
| TicketTranslation.Round | 16/src/main.rs:130-151 | a round of the `while` loop never adds names and changes nothing when the total is kept |
| TicketTranslation.PruneOthers | 16/src/main.rs:138-150 | the inner loop computes the prune function, counts no update only when nothing changed, and removes at least as many names as it counts |
| TicketTranslation.RunRound | 16/src/main.rs:130-151 | a round of the loop computes the round function; no update means nothing changed, and some update means fewer names |
| TicketTranslation.Settle | 16/src/main.rs:128-152 | the `while` loop ends, with the lists the settle function gives |
| TicketTranslation.SettledShrinks | 16/src/main.rs:128-152 | settling keeps the number of positions and only removes names |
| TicketTranslation.SettledIsStable | 16/src/main.rs:128-152 | another round changes nothing once the loop has ended |
| TicketTranslation.StableSeparates | 16/src/main.rs:137-151 | in a stable state a name that is the only one at some position appears at no other position |
| TicketTranslation.Fields | 16/src/main.rs:154-164 | the result panics iff some position has no name or more than one, and otherwise lists each position's single name |
| TicketTranslation.Extract | 16/src/main.rs:154-164 | the last loop computes the field function |
| TicketTranslation.SolveForFieldPositions | 16/src/main.rs:96-165 | the function returns the field positions of the categories and tickets: strike, settle, then extract |
| TicketTranslation.FieldPositionsDone | 16/src/main.rs:96-165 | a result is the single names of the settled lists and names one field per category |
| TicketTranslation.FieldPositionsNotStruck | 16/src/main.rs:106-126 | each field found is a category name that no valid ticket's value at that position fails |
| TicketTranslation.FieldFits | 16/src/main.rs:96-165 | on every valid ticket the value at a position fits the ranges of the category found for it |
| TicketTranslation.FieldPositionsDistinct | 16/src/main.rs:128-165 | the fields found are pairwise distinct |
| ConwayCubes.Coord.Plus | 17/src/main.rs:17-23 | the sum differs from the cell by the other cell on each axis |
| ConwayCubes.StripMembers | 17/src/main.rs:106-108 | skipping the origin keeps every other cell of the list and only those |
| ConwayCubes.RowOrder | 17/src/main.rs:112-130 | a row of the iterator runs along x from its first cell to its last, in increasing order |
| ConwayCubes.PlaneOrder | 17/src/main.rs:112-127 | a slice runs row after row, increasing, from `(-p, y, z)` to `(p, p, z)` |
| ConwayCubes.SpaceOrder | 17/src/main.rs:112-127 | the whole walk runs slice after slice, increasing, from `(-p, -p, z)` to `(p, p, p)` |
| ConwayCubes.SpaceMembers | 17/src/main.rs:112-130 | the walk from slice `z` visits exactly the cells of the cube `[-p, p]` in x and y, from `z` to `p` in z |
| ConwayCubes.SpaceLength | 17/src/main.rs:112-130 | the walk visits `(2p + 1)^2` cells per slice |
| ConwayCubes.OffsetsMembers | 17/src/main.rs:101-134 | the iterator yields exactly the cells of the cube `[-p, p]^3` other than the origin |
| ConwayCubes.OffsetsIncreasing | 17/src/main.rs:101-134 | it yields them in increasing (z, y, x) order, so none twice |
| ConwayCubes.OffsetsCount | 17/src/main.rs:101-134 | it yields `(2p + 1)^3 - 1` cells |
| ConwayCubes.NeighborOffsets | 17/src/main.rs:197-201 | with range 1 the iterator yields 26 offsets, every cell within one step of the origin but the origin |
| ConwayCubes.PendingHead | 17/src/main.rs:110-132 | away from the origin the next offset yielded is the cursor's cell |
| ConwayCubes.PendingSkip | 17/src/main.rs:106-108 | at the origin the cursor moves one cell along x first |
| ConwayCubes.AfterStep | 17/src/main.rs:112-130 | moving the cursor to its successor (along the row, to the next row, to the next slice, or past the end) leaves exactly the offsets after the old cell to come |
| ConwayCubes.NeighborCoords.constructor | 17/src/main.rs:81-95 | a new iterator of range `r != 0` has bounds `-\|r\|..\|r\|` on every axis and all the offsets of that cube still to come |
| ConwayCubes.NeighborCoords.Next | 17/src/main.rs:101-133 | `next` returns the first pending offset and drops it, or `None` when none is left, keeping the bounds |
| ConwayCubes.NeighborCoords.Advance | 17/src/main.rs:112-130 | moving the cursor leaves pending exactly the offsets after the cell it was on |
| ConwayCubes.CountNeighbors | 17/src/main.rs:144-149 | the closure counts, over the iterator of range 1, the offsets leading to an active cell |
| ConwayCubes.CountActiveIsCard | 17/src/main.rs:144-149 | over distinct offsets the count is the number of offsets leading to an active cell |
| ConwayCubes.NeighborCountMeaning | 17/src/main.rs:144-149 | a cell's count is the number of its 26 neighbours that are active |
| ConwayCubes.NextGen | 17/src/main.rs:150-156 | the next generation holds exactly the cells the rule keeps or makes alive: active with 2 or 3 active neighbours, or inactive with 3 |
| ConwayCubes.AliveHasActiveNear | 17/src/main.rs:150-156 | a cell alive next has an active cell within one step |
| ConwayCubes.EmptyStaysEmpty | 17/src/main.rs:136-162 | no cell comes alive in an empty grid |
| ConwayCubes.BoundingCube | 17/src/main.rs:41-66 | an empty set gives the origin twice; otherwise each axis's bounds are the true minimum and maximum over the set, and the low corner is never above the high one |
| ConwayCubes.ScanStep | 17/src/main.rs:53-60 | taking the minimum and maximum with one more cell keeps the bounds of the cells seen so far |
| ConwayCubes.BoundsUnique | 17/src/main.rs:41-66 | there is only one pair of true per-axis bounds |
| ConwayCubes.BoundsExample | 17/src/main.rs:203-216 | the corners (-1,-1,-1) and (1,1,1) are their own bounds, and adding (-2,-2,-2) and (2,2,2) widens them to those |
| ConwayCubes.AliveInWidened | 17/src/main.rs:138-142 | every cell alive next lies in the bounding cube widened by one on each side, so the scan misses none |
| ConwayCubes.StepCell | 17/src/main.rs:143-156 | one cell of the scan is added iff the rule makes it alive |
| ConwayCubes.StepRow | 17/src/main.rs:142-157 | the x loop adds exactly the live cells of its row within the widened bounds |
| ConwayCubes.StepPlane | 17/src/main.rs:141-158 | the y loop adds exactly the live cells of its slice within the widened bounds |
| ConwayCubes.StepActiveCoords | 17/src/main.rs:136-162 | a generation step computes the next generation of the rule |
| ConwayCubes.NextGenMargin | 17/src/main.rs:136-162 | a generation reaches at most one step further out than the one before |
| ConwayCubes.RunGenerations | 17/src/main.rs:166-169 | `n` steps give the `n`-th generation, with no coordinate leaving `i32` |
| ConwayCubes.ReadPlane | 17/src/main.rs:26-39 | the starting cells are exactly those marked `#`, at column x of line y on slice 0 |
| ConwayCubes.SeedExample | 17/src/main.rs:176-189 | the glider `.#.`, `..#`, `###` has exactly the cells the test checks active |
| ConwayCubes.Part1 | 17/src/main.rs:164-171 | the answer is the number of cells of the sixth generation from the marked cells |
| OperationOrder.Ltr | 18/src/main.rs:11-51 | the loop never runs out, and the cursor it stops on is never before the one it started from |
| OperationOrder.Cursor.constructor | 18/src/main.rs:55 | a new cursor sits at the given offset |
| OperationOrder.EvalLtrChars | 18/src/main.rs:11-51 | the loop and its recursive calls on the shared cursor return the left-to-right value and leave the cursor where the loop function stops (on the closing `)` or past the end), or panic where the function panics |
| OperationOrder.EvalLtr | 18/src/main.rs:53-56 | a line evaluates from a fresh cursor at 0 to the value of the loop function |
| OperationOrder.HasAtSplit | 18/src/main.rs:16-17 | text found at a position splits into its two parts found one after the other |
| OperationOrder.TermStep | 18/src/main.rs:19-43 | reading a digit or a parenthesised group applies its value to the value so far under the pending operator, which stays pending |
| OperationOrder.ExprSteps | 18/src/main.rs:11-51 | reading a whole expression from a fresh start reaches its left-to-right value with its last operator pending |
| OperationOrder.SpacedOpStep | 18/src/main.rs:44-45 | ` op ` replaces the pending operator and changes nothing else |
| OperationOrder.GroupLayout | 18/src/main.rs:19-33 | a group is `(`, its expression and `)`, two characters longer than the expression |
| OperationOrder.SkipStep | 18/src/main.rs:45 | a space changes nothing |
| OperationOrder.OpStep | 18/src/main.rs:44 | an operator character replaces the pending operator |
| OperationOrder.EvaluateShow | 18/src/main.rs:11-56 | every expression of one-digit numbers, `+`, `*` and parentheses, written with spaced operators, evaluates to its value with operators applied in the order written |
| OperationOrder.StrayCloseEndsEarly | 18/src/main.rs:31-33 | a `)` with no matching `(` ends the line with the value so far; the rest is never read |
| OperationOrder.KnownNeverPanics | 18/src/main.rs:16-49 | a text of digits, `+`, `*`, parentheses and spaces never panics, balanced or not |
| OperationOrder.UnknownPanics | 18/src/main.rs:46 | any other character panics once the evaluation reaches it |
| OperationOrder.SumLines | 18/src/main.rs:67-72 | the loop of `main` adds up the values of all lines, and panics when a line does |
| OperationOrder.PanicSticks | 18/src/main.rs:67-72 | once a line panics, so does the sum of any longer list |
| OperationOrder.TotalOfShows | 18/src/main.rs:67-72 | lines that are written-out expressions add up to the sum of their values |
| OperationOrder.Basic | 18/src/main.rs:78-83 | `(2 * 3)` is 6 |
| OperationOrder.ShowExample0 | 18/src/main.rs:85-90 | the tree of the next example is written as that test's line |
| OperationOrder.Example0 | 18/src/main.rs:85-90 | `1 + (2 * 3) + (4 * (5 + 6))` is 51 |
| OperationOrder.Example1 | 18/src/main.rs:92-97 | `2 * 3 + (4 * 5)` is 26 |
| OperationOrder.ShowExample2 | 18/src/main.rs:99-104 | the tree of the next example is written as that test's line |
| OperationOrder.Example2 | 18/src/main.rs:99-104 | `5 + (8 * 3 + 9 + 3 * 4 * 3)` is 437 |
| OperationOrder.Example3 | 18/src/main.rs:106-111 | the written-out tree of `5 * 9 * (7 * 3 * 3 + 9 * 3 + (8 + 6 * 4))` evaluates to 12240 |
| OperationOrder.Example4 | 18/src/main.rs:113-118 | the written-out tree of `((2 + 4 * 9) * (6 + 9 * 8 + 6) + 6) + 2 + 4 * 2` evaluates to 13632 |
| OperationOrder.RealLast | 18/src/main.rs:120-125 | the written-out tree of `4 + (8 * (4 + 5 + 5) + (4 + 8 * 5 + 2 * 5 * 8) + 2 * 9) * 9` evaluates to 210150 |
| OperationOrder.RealRandom | 18/src/main.rs:127-132 | the written-out tree of `7 * 8 + (4 + 2 + (8 + 9 * 7 * 3 + 6 * 9)) + 5 * 7` evaluates to 23338 |
| MonsterMessages.ParsedEach | 19/src/main.rs:29-36 | one parse outcome per alternative |
| MonsterMessages.Collect | 19/src/main.rs:29-36 | collected outcomes keep one rule per alternative |
| MonsterMessages.CollectEach | 19/src/main.rs:29-36 | alternatives that all parse collect to their rules, in order |
| MonsterMessages.CollectAt | 19/src/main.rs:29-36 | a collected list holds at each position the rule its alternative parsed to |
| MonsterMessages.ParseAltsEach | 19/src/main.rs:28-36 | the alternatives of a rule text parse to the list of their rules |
| MonsterMessages.Check | 19/src/main.rs:80-112 | a match that succeeds leaves a suffix of the subject, and one that fails gives the subject back unchanged |
| MonsterMessages.CheckSeq | 19/src/main.rs:89-101 | the sequence loop threads the remainder through its rules and keeps the same promise |
| MonsterMessages.CheckAlt | 19/src/main.rs:102-110 | the choice loop keeps the same promise |
| MonsterMessages.CheckFuel | 19/src/main.rs:80-112 | more fuel changes no answer that was reached |
| MonsterMessages.SeqThreads | 19/src/main.rs:91-100 | after a front part of a sequence matches, the rest of the sequence continues from what it left |
| MonsterMessages.SeqFails | 19/src/main.rs:96-97 | when the rule at position `k` of a sequence fails after the ones before it matched, the whole sequence fails with the subject unchanged |
| MonsterMessages.SeqTakes | 19/src/main.rs:93-95 | a sequence whose first rule matches continues with the remainder |
| MonsterMessages.SeqStops | 19/src/main.rs:96-97 | a sequence whose first rule fails fails with the subject unchanged |
| MonsterMessages.AltFirstSuccess | 19/src/main.rs:103-107 | an alternative returns the remainder of its first choice that succeeds, the later ones never being tried |
| MonsterMessages.AltAllFail | 19/src/main.rs:103-109 | an alternative whose choices all fail fails with the subject unchanged |
| MonsterMessages.UnknownKeyPanics | 19/src/main.rs:92 | a sequence whose first rule number is unknown panics |
| MonsterMessages.ExampleLetter | 19/src/main.rs:82-87 | in the example grammar rules 4 and 5 take one `a` or one `b` off a message |
| MonsterMessages.ExampleTwoLetters | 19/src/main.rs:89-101 | a sequence of two letter rules takes the two matching letters or fails |
| MonsterMessages.ExamplePair | 19/src/main.rs:102-110 | rule 2 takes two equal letters, rule 3 two different ones |
| MonsterMessages.ExampleTwoPairs | 19/src/main.rs:89-101 | a sequence of two pair rules takes four letters when both pairs fit |
| MonsterMessages.ExampleQuad | 19/src/main.rs:102-110 | rule 1 takes four letters whose first pair and second pair differ in kind |
| MonsterMessages.ExampleRuleZero | 19/src/main.rs:89-101 | rule 0 takes six letters: `a`, a rule-1 quadruple, `b` |
| MonsterMessages.ExampleLanguage | 19/src/main.rs:20-24 | a message of at least six `a`/`b` letters is valid iff it is exactly such six letters |
| MonsterMessages.ExampleValid | 19/src/main.rs:144-148 | `ababbb` and `abbbab` are valid |
| MonsterMessages.ExampleInvalid | 19/src/main.rs:150-154 | `bababa` and `aaabbb` are not |
| MonsterMessages.ExampleLeftover | 19/src/main.rs:156-161 | rule 0 matches `aaaabbb` leaving `b`, so the message is not valid |
| MonsterMessages.KeysTextWords | 19/src/main.rs:34 | rule numbers joined by spaces split back into the same numbers |
| MonsterMessages.TrimPadded | 19/src/main.rs:34 | trimming removes exactly a single space around the text |
| MonsterMessages.PaddedKeysParse | 19/src/main.rs:30-35 | rule numbers written with optional spaces around them parse back to that sequence |
| MonsterMessages.PaddedChoicesParse | 19/src/main.rs:28-36 | every alternative text of a written-out alternative rule parses back to its sequence |
| MonsterMessages.ParseShow | 19/src/main.rs:27-47 | every rule written as the input writes it (a quoted letter, numbers, or at least two alternatives joined by ` \| `) parses back to itself |
| MonsterMessages.ParseSingle | 19/src/main.rs:38-41 | a text with no `\|` parses as its single alternative |
| MonsterMessages.ParseShowVal | 19/src/main.rs:30-31 | a quoted letter parses back to the letter rule |
| MonsterMessages.ParseShowSeq | 19/src/main.rs:34-35 | numbers separated by spaces parse back to the sequence |
| MonsterMessages.ParseShowAlt | 19/src/main.rs:42-46 | alternatives separated by ` \| ` parse back to the alternative rule |
| MonsterMessages.ParseLetterExample | 19/src/main.rs:164-168 | `"a"` parses as the letter `a` |
| MonsterMessages.ParseSeqExample | 19/src/main.rs:170-177 | `1 2` parses as the sequence 1, 2 |
| MonsterMessages.ParseAltExample | 19/src/main.rs:179-192 | `1 2 \| 2 1` parses as the alternative of 1, 2 and 2, 1 |
| MonsterMessages.AsciiRuleParses | 19/src/main.rs:27-47 | a rule text in ASCII never panics: the byte slices fall on character boundaries |
| MonsterMessages.CheckSound | 19/src/main.rs:80-112 | what the greedy matcher takes off the front of the subject is derived from the rule |
| MonsterMessages.CheckSeqSound | 19/src/main.rs:89-101 | what a sequence takes is a concatenation of what each of its rules derives |
| MonsterMessages.CheckAltSound | 19/src/main.rs:102-110 | what an alternative takes is derived from one of its choices |
| MonsterMessages.ValidIsDerived | 19/src/main.rs:20-24 | a message found valid is derived, whole, from rule 0 |
| MonsterMessages.DerivesSeqStep | 19/src/main.rs:89-101 | a derivation of the first rule followed by one of the rest derives the sequence |
| MonsterMessages.GreedyDerives | 19/src/main.rs:102-110 | in the grammar `0: 1 2`, `1: 3 \| 3 3`, `2: "b"`, `3: "a"` the message `aab` is derived from rule 0 |
| MonsterMessages.GreedyRefuses | 19/src/main.rs:102-110 | yet the greedy matcher, taking the first choice `3` of rule 1, rejects it: validity is not derivability |
| MonsterMessages.SkipNonEmptyOver | 19/src/main.rs:63 | the non-empty leading lines are skipped up to the first blank one |
| MonsterMessages.SkipEmptyOver | 19/src/main.rs:64 | the blank lines are skipped up to the first non-empty one |
| MonsterMessages.ReadExprsOfInput | 19/src/main.rs:61-68 | an input of rule lines, blank lines and messages gives back the messages |
| MonsterMessages.ValidCount | 19/src/main.rs:116-121 | the count never exceeds the number of messages |
| MonsterMessages.CountValid | 19/src/main.rs:116-121 | the loop of `main` counts the valid messages, stopping with a panic when a message panics |
| MonsterMessages.StopSticks | 19/src/main.rs:116-121 | once the count stops at a message it stops there for every longer list |
| MonsterMessages.ExampleCount | 19/src/main.rs:142-161 | of the example's five messages two are valid |
| Strings.Split | 16/src/main.rs:36 | `split` gives at least one piece, and no piece holds the separator |
| Strings.JoinSplit | 19/src/main.rs:28 | joining the pieces of a split with the separator gives back the text |
| Strings.SplitJoin | 16/src/main.rs:36 | splitting pieces free of the separator, joined by it, gives back the pieces |
| Strings.SplitNoSep | 19/src/main.rs:28 | a text without the separator is one piece |
| Strings.SplitTerminator | 13/src/main.rs:35 | `split_terminator` gives pieces free of the separator |
| Strings.SplitTerminatorIsSplitOfTrimmed | 13/src/main.rs:35 | on a text that does not end with the separator `split_terminator` is `split` |
| Strings.TrimStart | 19/src/main.rs:34 | the result is a suffix of the text that starts with no white space, and only white space was removed |
| Strings.TrimEnd | 19/src/main.rs:34 | the result is a prefix of the text that ends with no white space, and only white space was removed |
| Strings.Run | 1/src/main.rs:14 | the leading run of non-white-space characters, stopping at the first white space |
| Strings.SplitWhitespace | 1/src/main.rs:14 | `split_whitespace` gives non-empty words that hold no white space |
| Strings.ByteOffset | 19/src/main.rs:30 | the UTF-8 byte offset of a character position is never below that position |
| Strings.AsciiByteOffset | 19/src/main.rs:30 | in ASCII text byte offsets are character positions |
| Decimal.ParseSigned | 12/src/main.rs:28 | a parsed signed value lies in the type's range |
| Decimal.ParseUnsignedMeaning | 10/src/main.rs:5 | `parse::<uN>` succeeds with `n` iff the text is an optional `+` and decimal digits whose value is `n`, and `n` fits the type |
| Decimal.ParseSignedMeaning | 8/src/main.rs:37 | `parse::<iN>` succeeds with `n` iff the text is an optional sign and decimal digits whose signed value is `n`, and `n` fits the type |
| Decimal.ShowNat | 16/src/main.rs:35-39 | the decimal text of a number is non-empty and all digits |
| Decimal.ShowNatValue | 16/src/main.rs:35-39 | the digits of a number's text read back as the number |
| Decimal.ParseShow | 16/src/main.rs:37 | the text of a number within the type's range parses back to it |
| Decimal.ParseShowSigned | 12/src/main.rs:28 | the text of a signed number within the range parses back to it |
| Sorting.Insert | 10/src/main.rs:11 | inserting into a sorted list keeps it sorted and adds exactly the one element |
| Sorting.Sort | 10/src/main.rs:11 | `sort` gives a sorted permutation of the list |
| Sorting.SortedUnique | 5/src/main.rs:67 | two sorted permutations of each other are equal, so an unstable and a stable sort agree |
| Sorting.AdjacentSorted | 10/src/main.rs:11 | a list whose neighbours are in order is sorted |

## Left out

Input, output and foreign code:

- File reading (`slurp_input*`, `read_to_string` and the I/O of `read_puzzle`), every `println!`/`eprintln!`, the debug listings (`print_hash_map`, `show_seats`, `list_program`) and `process::exit`. The model takes the parsed data as arguments and returns what would be printed.
- Regular-expression extraction, whose behaviour belongs to the `regex` crate:
  - the password line pattern (2/src/main.rs:63);
  - the capture walk of `parse_single_bag_rule` (7/src/main.rs:11-27). `HandyHaversacks.ParseSingleBagRule` takes the captures as input;
  - `parse_instr` (14/src/main.rs:52-68);
  - `extract_category_name`, `extract_category_ranges` and the `read_puzzle` patterns (16/src/main.rs:11-58);
  - `read_rules` (19/src/main.rs:49-59).
- `find_earliest_valid_departure` (13/src/main.rs:46-61), part 1 of day 13. It depends on `f64` division and `ceil`.
- `num::integer::lcm`, `itertools::combinations`, `HashMap` and `BTreeSet` are replaced by a mathematical lcm, pairs of distinct indices, and Dafny `map`/`set`. Their iteration order is not modelled.
- The parts of each `main` that only read input and print answers. Where a day's answer is computed in `main` (the pair search of day 1, the slope product of day 3, the record counting of day 4, the gap search of day 5, the colour count of day 7), the model has it.
- parse_floor_table (11/src/main.rs:12-14) has no member. It turns each line into its vector of characters, and a Dafny `string` already is a `seq<char>`, so `SeatingSystem` takes the lines as the grid.

Machine widths. Dafny integers are unbounded. The model writes out a width only where the source relies on it: the `u16` seat code of day 5, the `u8` row of day 5, the `i32`/`u32`/`u64` parse ranges, and the 64-bit masks of day 14. Everywhere else an overflow that would panic in a debug build, or wrap in a release build, is not modelled:

- ReportRepair.FindPair: `i + j` and `i * j` are `i32` (1/src/main.rs:28-29). For the tokens `-1000000 1002020` the source overflows on the product, while the model reports the product -1002020000000.
- ReportRepair.Run: inherits the unbounded `i * j` of `FindPair`.
- PasswordPhilosophy.FreqPolicy.CheckConformance: the counter is a `u8` (2/src/main.rs:123-129). A password with 256 copies of the focus character overflows it; the model counts on.
- TobogganTrajectory.SlopeProduct: the product of the five tree counts is a `u32` (3/src/main.rs:42-46); the model's product is unbounded.
- HandyHaversacks.AccumPathStats: `coeff * cnt` and the sums are `u32` (7/src/main.rs:60-80); the model's are unbounded.
- HandyHaversacks.SearchRule: the product `cnt * sub-count` is a `u32` (7/src/main.rs:44-57); the model's is unbounded.
- HandheldHalting.RunProgram: `accum += operand` and `ip + operand` are `i32` (8/src/main.rs:79-82); the model's accumulator and instruction pointer are unbounded.
- HandheldHalting.RunOnce: states the same unbounded step.
- EncodingError.ValidateSeq: the pair and window sums are `u128` (9/src/main.rs:10-46); the model's are unbounded.
- AdapterArray.FindSeq: `prev_j + 3` is a `u32` (10/src/main.rs:19); the model's is unbounded.
- AdapterArray.CountSolutions: the path counts are `u64` (10/src/main.rs:36-57); the model's are unbounded.
- RainRisk.ExecStep: `x ± distance` and `y ± distance` are `i32` (12/src/main.rs:65-81), and so is `360 - degrees` in `rotate_right` (12/src/main.rs:61-63). The model's are unbounded.
- ShuttleSearch.FindEarliestSolution: `t` and `step` are `u64` (13/src/main.rs:64-72); the model's are unbounded.
- MemoryGame.Solve: the turn counter and the spoken numbers are `u32` (15/src/main.rs:3-36); the model's are unbounded.
- MemoryGame.SolveFixed: the same.
- TicketTranslation.CalcPuzzleErrorRate: the error rate is a `u32` sum (16/src/main.rs:82-94); the model's is unbounded.
- OperationOrder.EvalLtrChars: the value is an `i128` (18/src/main.rs:11-51); the model's is unbounded.
- OperationOrder.EvalLtr: the same.
- CustomCustoms.CountAnswersForAny: the `u32` counts (6/src/main.rs:31-48) are unbounded in the model.
- ConwayCubes.NeighborCoords.constructor: requires `absRange != 0`. The source's `new_abs(0)` builds an iterator that skips the origin and then walks along the x axis without end, because `x_curr` is never equal to `x_off_max` again (17/src/main.rs:81-130); the source only calls it with 1 (17/src/main.rs:144, 199). `abs_range.abs()` also overflows for `i32::MIN`, which the model does not represent.
- ConwayCubes.BoundingCube: requires every coordinate to fit in `i32`, the type of the source's `Coord` (17/src/main.rs:6-10).
- ConwayCubes.StepActiveCoords: requires every coordinate to fit in `i32`, the type of the source's `Coord` (17/src/main.rs:6-10). The widened scan range `min - 1 ..= max + 1` may still leave `i32` at the edge; the model computes it unbounded.
- ConwayCubes.RunGenerations: requires the initial cells to lie at least `n` away from the `i32` limits, so that no generation leaves `i32`.
- ConwayCubes.Part1: requires fewer than `i32::MAX - 6` lines and columns. The source's `x as i32` and `y as i32` (17/src/main.rs:30-36) would truncate longer inputs.
- DockingData uses `Word = seq<bool>` of length 64, least significant bit first, for the source's `u64` masks, addresses and values. Rotation, shift, and/or and the 36-bit limit are written out bit by bit. A `bv64` form was not used because its proofs of the mask and enumeration lemmas exceeded the solver's budget. The sums of all memory values in `main` (14/src/main.rs:159-164) are not modelled.
- TicketTranslation: the `u64` product of the "departure" fields of the own ticket (16/src/main.rs:172-180) belongs to `main` and is not modelled.

Other deliberate differences:

- PassportProcessing.ValidatePid: accepts exactly nine ASCII digits. The source's pattern `^\d{9}$` (4/src/main.rs:81-84) uses the `regex` crate's Unicode-aware `\d`, which also accepts digits of other scripts such as "١٢٣٤٥٦٧٨٩". The other day-4 patterns are ASCII classes in the source as well.
- TobogganTrajectory.CountTreesOnSlope: requires `dy > 0`. With `dy = 0` the source loop never ends (3/src/main.rs:18-27).
- HandyHaversacks.SearchRule: takes a fuel bound on the recursion depth and returns `OutOfFuel` when it runs out. On a cyclic rule map the source recurses until the stack overflows; the model cannot tell that apart from an acyclic map deeper than the fuel.
- HandyHaversacks.AccumPathStats: the same fuel bound.
- HandyHaversacks.CountContainers: the same fuel bound, passed to each search.
- SeatingSystem.UpdateUntilStable: takes a fuel bound on the number of rounds and returns `OutOfFuel` when it is used up. The source loops until the grid is stable.
- ShuttleSearch.FindEarliestSolution: takes a fuel bound on the number of `t += step` steps and returns `OutOfFuel` when it is used up. The source loops until it finds a solution; see Findings for the inputs on which it never does.
- MonsterMessages.Check: takes a fuel bound on the rule recursion and returns `OutOfFuel` when it runs out. On a left-recursive rule the source overflows the stack.
- MonsterMessages.CountValid: the same fuel bound, passed to each message's check.

Tests not stated as lemmas:

- Fixture files are not part of this model, so their examples are not stated:
  - day 9: 127 with window 5, and size 4 at offset 2;
  - day 10: the second example, (22, 0, 10) and 19208 paths;
  - day 11: 37 occupied seats;
  - day 12: distance 25;
  - day 13: the part 1 result 295, the schedule count and ends of test_example2, and the sieve results 1068781, 3417, 754018 and 779210 (13/src/main.rs:94-143);
  - day 14: the two example programs (the masks and the enumeration are stated by `DockingData.MaskExample`, `DockingData.XMaskExample`, `DockingData.EnumExample1` and `DockingData.EnumExample2`);
  - day 16: error rate 71, and the row/class/seat assignment of example 2;
  - day 17: 112 cells after six steps;
  - day 19: the example file's rule count 6 and first message. The example's rules are stated directly in `MonsterMessages.ExampleRules`.
- The day 15 tests "[0,3,6] with 2020 turns gives 436" and "[0,3,6] with 30000000 turns gives 175594" (15/src/main.rs:52-63) need too many turns to evaluate in a proof. `MemoryGame.OpeningExample` states the first ten turns of the same game.
- OperationOrder.Example3: states `Evaluate(Show(e)) == Done(12240)` for the expression tree `e` of the test line "5 * 9 * (7 * 3 * 3 + 9 * 3 + (8 + 6 * 4))" (18/src/main.rs:107-111), not for the string literal. An expression this long, written as a literal, makes the solver unfold the evaluator too eagerly.
- OperationOrder.Example4: the same, for the test line giving 13632 (18/src/main.rs:114-118).
- OperationOrder.RealLast: the same, for the input line giving 210150 (18/src/main.rs:121-125).
- OperationOrder.RealRandom: the same, for the input line giving 23338 (18/src/main.rs:128-132).
- OperationOrder.Example0 and OperationOrder.Example2: take the test text as a parameter fixed by their `requires`. The tree is linked to the text by OperationOrder.ShowExample0 and OperationOrder.ShowExample2.

## Findings

| source | as written | input that shows it | evidently intended | confidence | as-written member | corrected member |
|---|---|---|---|---|---|---|
| 13/src/main.rs:63-77 | `find_earliest_solution` starts `step` at the first schedule's bus id (line 65) even though `t = 0` need not satisfy that schedule. When the first schedule has a non-zero offset, `t` only ever grows by multiples of that id, so the first congruence can never become true and the loop never ends | the schedule line "x,7", which gives the single schedule (bus 7, offset 1): the source loops forever, while the earliest `t` with `(t + 1) % 7 == 0` is 6 | start with `step = 1`, so that each schedule, the first included, is reached by the sieve and then folded into `step` by lcm | not executed | `ShuttleSearch.EarliestAligned`, `ShuttleSearch.FindEarliestSolution`, `ShuttleSearch.AsWrittenStalls`, `ShuttleSearch.LeadingSkipLine`, `ShuttleSearch.LeadingSkipStalls` | `ShuttleSearch.EarliestAlignedFixed`, `ShuttleSearch.FixedIsEarliest` |
| 15/src/main.rs:5-11 | each starting number is recorded as `(idx + 1, 0)`, which forgets an earlier occurrence of the same number among the starting numbers. The first turn after them then always says 0 for the last starting number, even when it was spoken before | the starting numbers [1, 1]: the source says 0 on turn 3, while the game's rule (the last number was spoken on turns 1 and 2) says 1 | record a repeated starting number as (its new turn, its previous turn), as the play loop does for every later turn | not executed | `MemoryGame.Solve`, `MemoryGame.DuplicateStartDiverges` (with `MemoryGame.DistinctStartsAgree`: on distinct starting numbers the two agree) | `MemoryGame.RememberFixed`, `MemoryGame.SolveFixed`, `MemoryGame.GameFollowsRule` |
