# Advent of Code 2024 solutions, modelled in Dafny

This project models the puzzle solvers of an Advent of Code 2024 repository. The repository's shared utility module is modelled in `util.dfy`: grid coordinates and compass directions, a bounds-checked grid and its row-major coordinate iterator, a multiset counter, exact ratios, a mixed-radix combination iterator and Heap's permutation algorithm. Each day's puzzle logic is modelled in `dayNN.dfy`, one module per day.

`arith.dfy`, `sets.dfy` and `wrappers.dfy` hold the arithmetic, set and `Option` helpers the models share.

Each solver's logic keeps the shape it has in the source:

- A loop that updates variables becomes a method with loop invariants. The method is proved against a specification function, and the puzzle's meaning is proved about that function in lemmas.
- A struct whose methods mutate it becomes a class: the grid, the counter, the iterators, the three-bit computer of day 17, the warehouse of day 15 and the circuit of day 24.
- An algorithm that works in place on a vector keeps an array: the disk compaction of day 9 and Heap's permutations.
- Pure helpers stay functions.

Hash-map and hash-set iteration has no defined order in the source. It is modelled as an arbitrary choice (`:|`), and every result is proved for whichever order is taken.

Where the source would panic (an `unwrap` of `None`, an out-of-range slice, an integer underflow, a remainder by zero), the model mostly returns `None` or stops, and the contracts say exactly when. A few members instead require inputs on which the source cannot panic. Each of them is named under "Left out", together with the panic it excludes.

Rust's integer `/` and `%` truncate toward zero. The model writes them out as `Arith.DivT` and `Arith.RemT`.

## Model

| member | source | states |
|---|---|---|
| Util.ManhattanDistance | src/util.rs:96-98 | the distance is 0 exactly when the two coordinates are equal |
| Util.MoveAdjacent | src/util.rs:67-76 | one step lands at distance 1, in the same column exactly for a vertical direction, and further along exactly for down or right |
| Util.Adjacent | src/util.rs:78-85 | four coordinates, exactly those at distance 1 |
| Util.AllDirections | src/util.rs:110-117 | the four directions, each once |
| Util.Opposite | src/util.rs:119-126 | a different direction on the same axis |
| Util.OppositeInvolution | src/util.rs:119-126 | the opposite of the opposite is the direction itself |
| Util.MoveOpposite | src/util.rs:67-76 | a step and then a step in the opposite direction returns to the start |
| Util.Perpendicular | src/util.rs:128-133 | two distinct directions, exactly those on the other axis, so neither `d` nor its opposite |
| Util.FromChar | src/util.rs:139-147 | `^`, `v`, `<` and `>` give up, down, left and right, and every other character gives None |
| Util.MoveNShift | src/util.rs:87-94 | k steps along `d` shift the coordinate by k unit offsets |
| Util.RayLeaves | src/util.rs:87-94 | a ray leaves every finite set of cells, so `move_while` stops when its predicate holds on finitely many cells |
| Util.MoveWhile | src/util.rs:87-94 | the result is k ≥ 0 steps along `d`, the predicate holds on each of those k cells, and fails on the next one |
| Util.Get | src/util.rs:163-175 | Some exactly for a non-negative coordinate inside an existing row, and then the stored cell |
| Util.GetUpdated | src/util.rs:190-204 | after a write, the written cell reads back the new value and every other cell reads as before |
| Util.WithDimensions | src/util.rs:236-242 | exactly the coordinates below width × height are in bounds, and each holds the default |
| Util.Grid.Set | src/util.rs:190-204 | succeeds exactly when the coordinate is in bounds; then only that cell changes, otherwise nothing does |
| Util.DivBelow | src/util.rs:217-229 | the row-major index k is within w × h exactly when its row k / w is below h |
| Util.NthCoordStep | src/util.rs:217-229 | the next coordinate is one column to the right, or the start of the next row after the last column |
| Util.CoordIter.Next | src/util.rs:217-229 | the k-th call yields the k-th row-major coordinate while k is below the coordinate count, and None afterwards |
| Util.IterCoords | src/util.rs:177-188 | `iter_coords` yields exactly the coordinate count (w × h for a first row of width w ≥ 1) of coordinates, in row-major order |
| Util.Items | src/util.rs:206-252 | `iter` yields the cells of the coordinates in row-major order and stops at the first coordinate the grid cannot serve |
| Util.RectangularServesAll | src/util.rs:248-252 | on a rectangular grid every yielded coordinate is in bounds, so `iter` visits all w × h cells |
| Util.MapSumUpdate | src/util.rs:49-51 | setting one count changes the total by the difference of the new and old count |
| Util.Counter.Get | src/util.rs:45-47 | 0 for an item never counted, otherwise its count |
| Util.Counter.Count | src/util.rs:28-30 | the item's count grows by 1, no other count changes, and the total grows by 1 |
| Util.Counter.CountN | src/util.rs:32-34 | the item's count grows by n, no other count changes, and the total grows by n |
| Util.Counter.CountAll | src/util.rs:36-38 | every item's count grows by its multiplicity among the items, and the total by their number |
| Util.Counter.Total | src/util.rs:49-51 | the sum of all counts |
| Util.Gcd | src/util.rs:259-265 | the result divides both arguments and is 0 only for gcd(0, 0) |
| Util.GcdGreatest | src/util.rs:259-265 | every common divisor of the arguments divides the result |
| Util.GcdBezout | src/util.rs:259-265 | Bezout's identity: the result is an integer combination of the two arguments |
| Util.BezoutStep | src/util.rs:263 | one remainder step carries such a combination back to the step's arguments |
| Util.Reduce | src/util.rs:281-297 | a zero denominator is left unchanged, 0/d becomes 0/1, and otherwise the result has the same value and a non-zero denominator |
| Util.IsNegative | src/util.rs:299-301 | for non-zero parts, true exactly when the value is negative |
| Util.IsMultipleOf | src/util.rs:303-321 | true only when both parts divide exactly and `x` is an integer multiple of `y` in value; defined on every input on which no divisor the source reaches is zero |
| Util.IsInteger | src/util.rs:323-325 | true exactly when the numerator is the denominator times the truncated quotient |
| Util.AsInteger | src/util.rs:327-329 | the truncated quotient leaves a remainder smaller than the denominator in absolute value |
| Util.Add | src/util.rs:348-363 | the reduced sum has the value n1/d1 + n2/d2 |
| Util.Neg | src/util.rs:369-374 | a non-zero value changes sign and adds to the original to give 0 |
| Util.Sub | src/util.rs:380-382 | the reduced difference has the value n1/d1 − n2/d2 |
| Util.Mul | src/util.rs:388-393 | the product of non-zero denominators is non-zero |
| Util.Div | src/util.rs:414-428 | dividing by a ratio with a non-zero numerator keeps a non-zero denominator |
| Util.FromInt | src/util.rs:397-399 | an integer ratio whose integer part is the integer itself |
| Util.Eq | src/util.rs:403-408 | equal reduced forms denote the same value |
| Util.AddSubRoundTrip | src/util.rs:348-382 | adding then subtracting the same ratio gives back the original value |
| Util.MulDivRoundTrip | src/util.rs:388-428 | multiplying then dividing by the same non-zero ratio gives back the original value |
| Util.Digit | src/util.rs:451-466 | each digit of the combination index is below the number of options |
| Util.ComboIter.Next | src/util.rs:451-466 | the k-th call yields the k-th combination while k is below m^L, and None afterwards without advancing |
| Util.ComboOf | src/util.rs:451-466 | position ix of the k-th combination holds option (k / m^ix) mod m, so the first position varies fastest |
| Util.AllCombos | src/util.rs:437-466 | the iterator yields exactly m^L combinations, the k-th being combination k; over pairwise-different options no combination repeats |
| Util.DigitShift | src/util.rs:455-462 | dividing by the base moves every digit down one place |
| Util.LowDigit | src/util.rs:455-462 | the first digit is the remainder by the base |
| Util.QuotientBound | src/util.rs:455-462 | dividing a number below m·p by m leaves a number below p |
| Util.SameQuotientRemainder | src/util.rs:455-462 | the quotient and the remainder by the base determine the number |
| Util.DigitsDetermine | src/util.rs:451-466 | two indices below m^L with the same L digits are equal |
| Util.CombosDistinct | src/util.rs:451-466 | over pairwise-different options, different indices give different combinations |
| Util.HeapCount | src/util.rs:469-488 | Heap's algorithm lists n! rearrangements, one for n ≤ 1 |
| Util.HeapPermutes | src/util.rs:469-488 | every listed order, and the order the slice is left in, rearranges only the first n positions |
| Util.Permutations | src/util.rs:469-488 | the in-place algorithm returns exactly the orders Heap's algorithm lists and leaves the slice in its final order; over pairwise-different elements it lists no order twice |
| Util.HeapEnds | src/util.rs:469-488 | the order Heap's algorithm leaves the slice in: the first and n-th elements swapped for odd n and for n = 2, and for even n ≥ 4 the fixed rearrangement `HeapEnd` of the first n, which moves the first element to position n − 1 |
| Util.LastsNoRepeats | src/util.rs:476-485 | the n blocks of the listing (the first recursive call and the n − 1 rounds after a swap) each fix a different element at position n − 1 |
| Util.HeapNoRepeats | src/util.rs:469-488 | over pairwise-different elements, the n! orders Heap's algorithm lists are pairwise different: no rearrangement is listed twice |
| Util.Heap | src/util.rs:469-488 | the recursive definition of Heap's algorithm: the listing and the final order, which keeps the slice's length; what they are is stated by Util.HeapCount, Util.HeapPermutes, Util.HeapEnds and Util.HeapNoRepeats |
| Util.HeapRounds | src/util.rs:478-485 | rounds i to n − 2 of the loop after the first recursive call, each a swap and a recursive call; the final order keeps the slice's length |
| Util.HeapRound | src/util.rs:478-485 | one round swaps position x with n − 1 and then permutes the first n − 1 positions |
| Util.Grid.constructor | src/util.rs:61 | the grid holds exactly the given rows |
| Util.CoordIter.constructor | src/util.rs:177-188 | the walk starts before the first coordinate, with nothing produced yet |
| Util.Counter.constructor | src/util.rs:14-18 | a new counter holds no counts |
| Util.ComboIter.constructor | src/util.rs:437-443 | the iterator keeps the options and length and starts at combination 0 |
| Util.DirectionsListed | src/util.rs:110-117 | every direction is among the four listed |
| Day01.ParseInput | src/day01/mod.rs:29-40 | one entry per line in each list: the first field goes to the left list and the last field to the right list |
| Day01.CountOccurrences | src/day01/mod.rs:42-51 | the keys are exactly the values of the list, each mapped to its multiplicity, and the counts add up to the list's length |
| Day01.Sort | src/day01/mod.rs:8-9 | the sorted list is a permutation of the input and in ascending order |
| Day01.SortedUnique | src/day01/mod.rs:8-9 | two sorted permutations of the same multiset are equal, so the sort's result is determined by its input |
| Day01.DistanceSumZero | src/day01/mod.rs:11-17 | the sum of pairwise distances is 0 exactly when the two lists are equal |
| Day01.Part1ZeroIff | src/day01/mod.rs:8-17 | the part 1 total is 0 exactly when the two lists hold the same multiset of numbers |
| Day01.SimilarityAppend | src/day01/mod.rs:21-26 | the similarity score adds up over concatenated left lists |
| Day01.Part2 | src/day01/mod.rs:19-26 | the loop over the left list with the occurrence map computes the similarity score: each left value times its count in the right list |
| Day01.SimilarityEmptyRight | src/day01/mod.rs:21-26 | against an empty right list the score is 0 |
| Day01.SimilarityConsRight | src/day01/mod.rs:21-26 | one more right entry x adds x times its multiplicity in the left list |
| Day01.SimilaritySymmetric | src/day01/mod.rs:21-26 | the similarity score does not change when the two lists swap roles |
| Day02.ComputeDiffs | src/day02/mod.rs:46-52 | one difference per adjacent pair, each the later level minus the earlier |
| Day02.DiffsTelescope | src/day02/mod.rs:46-52 | each level is the first level plus the sum of the differences before it |
| Day02.SafetyIsGradual | src/day02/mod.rs:33-44 | for three or more levels, safe exactly when the levels strictly rise or strictly fall, each step by 1 to 3 |
| Day02.GradualIsSafe | src/day02/mod.rs:33-44 | a report rising or falling by 1 to 3 at each step is judged safe |
| Day02.SafeIsGradual | src/day02/mod.rs:33-44 | a report judged safe rises or falls by 1 to 3 at each step |
| Day02.CheckSafetyPart2 | src/day02/mod.rs:54-64 | safe with the dampener exactly when removing some single level leaves a safe report; an empty report is not safe |
| Day02.AnyRemovalSafe | src/day02/mod.rs:54-64 | true exactly when removing one of the levels from index i on leaves a safe report |
| Day02.SafeImpliesPart2 | src/day02/mod.rs:54-64 | a safe report of at least one level stays safe under the dampener |
| Day02.DropLastSafe | src/day02/mod.rs:33-44 | a safe report stays safe without its last level |
| Day04.DirectionsAreUnitSteps | src/day04/mod.rs:21-34 | eight distinct unit steps, of which the four diagonal ones are the diagonal constants |
| Day04.UnitStepsAreListed | src/day04/mod.rs:21-34 | every unit step is one of the eight directions, and every diagonal one is a diagonal constant |
| Day04.GetCoord | src/day04/mod.rs:125-129 | Some exactly for a non-negative coordinate inside an existing row, and then the stored letter |
| Day04.GetCoordIsGridGet | src/day04/mod.rs:125-129 | the day's own lookup agrees with the shared grid's bounds-checked `get` |
| Day04.MatchDirection | src/day04/mod.rs:131-146 | true exactly when the i-th letter of the word sits i steps from the start along the direction, for every i |
| Day04.MatchFrom | src/day04/mod.rs:131-146 | true exactly when the letters from position i of the word on lie along the direction |
| Day04.MatchStartsWithFirstLetter | src/day04/mod.rs:131-146 | a match starts on the word's first letter |
| Day04.MatchingDirections | src/day04/mod.rs:44-47 | exactly the listed directions along which the word matches |
| Day04.GridIter.From | src/day04/mod.rs:60-67 | the iterator starts at the first coordinate with the width of the first row and the grid's height |
| Day04.GridIter.Next | src/day04/mod.rs:81-91 | the k-th call yields the k-th row-major coordinate while rows remain, and None afterwards |
| Day04.GridCoords | src/day04/mod.rs:60-91 | the iterator yields the row-major coordinates of the first row's width, row after row |
| Day04.GridCoordBelow | src/day04/mod.rs:81-91 | a yielded coordinate is inside the rows exactly when its index is below width × height |
| Day04.GridCoordsCoverCells | src/day04/mod.rs:60-91 | on a rectangular grid the iterator yields exactly the cells of the grid |
| Day04.RowMajorIndex | src/day04/mod.rs:81-91 | every cell is yielded at its row-major index |
| Day04.XmasAt | src/day04/mod.rs:38-48 | at most eight occurrences start on one cell |
| Day04.XmasFilterRedundant | src/day04/mod.rs:38-48 | filtering for 'X' discards nothing: the count on a cell is the number of matching directions |
| Day04.CountXmas | src/day04/mod.rs:36-50 | the part 1 count is at most eight per visited cell |
| Day04.ToSet | src/day04/mod.rs:116-118 | the centres inserted are exactly the new centres |
| Day04.CountXMas | src/day04/mod.rs:94-123 | the loop with a growing centre set counts, over all cells, each diagonal "MAS" whose centre an earlier "MAS" already recorded |
| Day04.VisitCell | src/day04/mod.rs:98-121 | a cell holding 'M' adds the number of its new centres already recorded and records them; any other cell changes nothing |
| Day04.CentresStep | src/day04/mod.rs:116-118 | the recorded centres after one more cell are the earlier ones plus that cell's new centres |
| Day04.EarlierCentreKept | src/day04/mod.rs:116-118 | a recorded centre stays recorded after one more cell |
| Day04.NewCentreRecorded | src/day04/mod.rs:116-118 | each new centre of a cell is recorded after that cell |
| Day04.LastCentreListed | src/day04/mod.rs:116-118 | a centre first recorded at a cell is one of that cell's new centres |
| Day04.CrossStep | src/day04/mod.rs:98-121 | the running count and the recorded centres advance exactly as one more cell of the specification |
| Day04.NoCentresOffM | src/day04/mod.rs:98-102 | a cell not holding 'M' starts no "MAS", so the filter discards nothing |
| Day05.GenRuleGraph | src/day05/mod.rs:68-79 | every page named by a rule has an entry, and a page's after-set holds exactly the pages some rule puts after it |
| Day05.AllAfterIn | src/day05/mod.rs:16-20 | true exactly when every page after the position lies in the after-set |
| Day05.CompliesFrom | src/day05/mod.rs:10-21 | true exactly when, from the position on, each page with rules is followed only by pages in its after-set |
| Day05.IsCompliant | src/day05/mod.rs:9-24 | the partition predicate is exactly the compliance condition on every ordered pair of pages |
| Day05.CompliantRespectsRules | src/day05/mod.rs:9-24 | in a complying update a page never follows a page it must precede unless the rules also allow that order |
| Day05.Pages | src/day05/mod.rs:84 | the pending set holds exactly the pages of the update |
| Day05.Ready | src/day05/mod.rs:86-95 | exactly the pending pages with no rules or none of whose after-pages is still pending |
| Day05.Reverse | src/day05/mod.rs:114 | the order is reversed element by element |
| Day05.TakeReady | src/day05/mod.rs:97-112 | the pages taken are distinct pages of the update, each taken after all of its after-pages, and all of them when the rules restricted to the update are acyclic; none exactly when no page is ready at the start |
| Day05.TakeStep | src/day05/mod.rs:98-111 | taking a ready page keeps every taken page after all of its after-pages |
| Day05.FixNonCompliant | src/day05/mod.rs:81-117 | the reordering is a list of distinct pages of the update in which every page precedes its after-pages, and holds every page when the rules on the update are acyclic; with cyclic rules it is the partial order found, empty exactly when no page is ready at the start |
| Day05.Middle | src/day05/mod.rs:28 | the middle page is a page of the update |
| Day05.Part1Append | src/day05/mod.rs:26-29 | part 1 adds each complying update's middle page once, so the total adds up over concatenated update lists |
| Day05.Part2 | src/day05/mod.rs:31-41 | for any rules, cyclic or not: None (the source's panic) exactly when some non-complying update's reordering is empty because none of its pages is ready at the start; the total is 0 when every update complies |
| Day05.FixedMiddle | src/day05/mod.rs:35-39 | None exactly when no page of the update is ready at the start, so the reordering is empty; otherwise the page at index len / 2 of a non-empty reordering with all the properties Day05.FixNonCompliant states (distinct pages of the update, each before its after-pages, all of them under acyclic rules) |
| Day05.Contribution | src/day05/mod.rs:31-39 | what one update adds to part 2: 0 when it complies; otherwise the middle page of such a reordering, and None exactly when that reordering is empty |
| Day05.AcyclicNoPanic | src/day05/mod.rs:81-117 | a non-empty update whose rules have no cycle always has a ready page, so part 2 never panics on it |
| Day05.CyclicRules | src/day05/mod.rs:81-117 | with pages 1 and 2 each required before the other, [1, 2, 3] is cyclic yet gets a partial order, while [1, 2] panics |
| Day06.RotateDirection | src/day06/mod.rs:53-55 | a turn keeps the step's length |
| Day06.RotateProperties | src/day06/mod.rs:53-55 | up turns to the right; four turns are the identity; a turn always changes a non-zero direction |
| Day06.Orbit | src/day06/mod.rs:53-55 | the orbit of a direction holds it and its turn |
| Day06.OrbitClosed | src/day06/mod.rs:53-55 | turning a direction of the orbit stays in the orbit |
| Day06.Advance | src/day06/mod.rs:67-89 | None exactly when the square ahead is off the map; an obstacle ahead turns the guard in place; an empty square ahead is stepped onto |
| Day06.WalkStep | src/day06/mod.rs:64-90 | n + 1 moves are n moves followed by one more |
| Day06.WalkGone | src/day06/mod.rs:71-79 | once the guard has left the map it stays gone |
| Day06.WalkStaysOnMap | src/day06/mod.rs:82-89 | the guard stands on its start or on an empty square of the map, facing a direction of the start direction's orbit |
| Day06.TracePath | src/day06/mod.rs:57-93 | the visited set is the set of squares the guard stands on up to the move on which it leaves the map; otherwise the guard was still on the map after every move of the fuel |
| Day06.VisitedCells | src/day06/mod.rs:64-92 | the visited squares hold the start and are otherwise empty squares of the map |
| Day06.CheckLoop | src/day06/mod.rs:119-153 | true exactly when the guard's walk never leaves the map |
| Day06.ExploreStep | src/day06/mod.rs:123-127 | recording a new state keeps the recorded states exactly the states of the walk so far |
| Day06.StateInSpace | src/day06/mod.rs:119-153 | every state of the walk lies in a finite state space, so a walk that stays on the map repeats a state |
| Day06.NoLoopWhenExiting | src/day06/mod.rs:132-141 | a walk that leaves the map does not loop |
| Day06.MakeLoops | src/day06/mod.rs:95-117 | the count is the number of visited squares other than the start on which an obstacle makes the guard loop, and the map is restored afterwards |
| Day06.TryObstacle | src/day06/mod.rs:107-113 | placing an obstacle, checking for a loop and clearing the square answers whether the obstacle traps the guard and leaves that square empty |
| Day06.ClearEmptyCell | src/day06/mod.rs:113 | clearing a square that was empty restores the map |
| Day07.UndoPanicsOnZero | src/day07/mod.rs:55-65 | undoing under a pattern panics only when some operand is 0 |
| Day07.UndoCorrect | src/day07/mod.rs:51-69 | when undoing does not panic, undoing the operands in reverse from the target reaches 0 exactly when evaluating them left to right under the same pattern of + and * gives the target |
| Day07.ProductMatches | src/day07/mod.rs:58-59 | dividing by an operand that divides the remainder undoes exactly the multiplication |
| Day07.SearchDecides | src/day07/mod.rs:51-71 | trying the patterns in order answers true only after a pattern that leaves 0, false only when every pattern neither panics nor leaves 0, and panics only when some pattern panics |
| Day07.VerdictMeans | src/day07/mod.rs:48-72 | part 1's verdict, when the check does not panic, is whether some choice of + and * evaluates to the target; with no zero operand it never panics, and a panic needs a zero operand or no operands |
| Day07.ZeroOperandAccepted | src/day07/mod.rs:48-72 | target 0 with the single operand 0 is accepted by the first pattern, before any remainder is taken |
| Day07.ZeroOperandPanics | src/day07/mod.rs:56-59 | target 0 with operands 1 and 0 panics: pattern 0 gives up and pattern 1 takes the remainder by 0 |
| Day07.CanEquate | src/day07/mod.rs:48-72 | the loop over patterns returns part 1's verdict: None where the source panics (no operands, or remainder by 0) |
| Day07.SingleOperand | src/day07/mod.rs:49-69 | a single operand equates exactly to itself |
| Day07.ConcatFactor | src/day07/mod.rs:113-115 | 10 for `end` 0; otherwise 10 to the number of digits of `end`, the power of ten just above it: 10^(digits - 1) ≤ `end` < factor ≤ 10 × `end` |
| Day07.ConcatFactorLeast | src/day07/mod.rs:113-115 | no power of ten above `end` (other than 1) is smaller than the factor, so the factor is the least one |
| Day07.RemoveMatchingEnd | src/day07/mod.rs:106-123 | None when the end is larger; 0 when they are equal; otherwise a prefix whose concatenation with the end is the number |
| Day07.RemoveMatchingEndInverse | src/day07/mod.rs:106-123 | the result is x exactly when x concatenated with the end gives the number |
| Day07.UndoSkipping | src/day07/mod.rs:81-96 | as written, undoing never gives a pattern up: it ends with a remainder or panics |
| Day07.UndoAllSkipping | src/day07/mod.rs:78-96 | the inner loop as written: an operand that cannot be undone is skipped, and a remainder by 0 panics |
| Day07.CanEquateP2AsWritten | src/day07/mod.rs:74-104 | the loop over the 3^(n-1) patterns returns the as-written verdict: true at the first pattern that brings the target to 0 with failing operands skipped, None at a panic |
| Day07.SkippingAcceptsUnreachable | src/day07/mod.rs:81-93 | target 3 with operands 3 and 5 is accepted as written although no choice of operators evaluates to 3 |
| Day07.Undo3PanicsOnZero | src/day07/mod.rs:81-96 | the intended undoing panics only when some operand is 0 |
| Day07.Undo3Correct | src/day07/mod.rs:77-101 | when undoing does not panic, undoing with +, * and concatenation reaches 0 exactly when the left-to-right evaluation under the pattern gives the target |
| Day07.UndoCorrect3Step | src/day07/mod.rs:82-86 | undoing a concatenation step reaches 0 exactly when the rest evaluates to the prefix |
| Day07.Search3Decides | src/day07/mod.rs:77-101 | the intended search answers true only after a pattern that leaves 0, false only when no pattern panics or leaves 0, and panics only when some pattern panics |
| Day07.Verdict3Means | src/day07/mod.rs:74-104 | the intended part 2 verdict, when there is one, is whether some choice of +, * and concatenation evaluates to the target; with no zero operand there always is one |
| Day07.UndoAll3 | src/day07/mod.rs:78-96 | the corrected inner loop gives the pattern up on the first operand that cannot be undone |
| Day07.CanEquateP2 | src/day07/mod.rs:74-104 | the corrected check returns the intended part 2 verdict |
| Day07.LiftEval | src/day07/mod.rs:74-104 | every + and * pattern is also a three-operator pattern with the same value |
| Day07.EquatesImpliesEquatesP2 | src/day07/mod.rs:10-17 | an equation solvable in part 1 is solvable in part 2 |
| Day07.SumTargetsAgree | src/day07/mod.rs:8-17 | two filters that agree on every equation give the same total |
| Day07.Totals | src/day07/mod.rs:3-19 | as the source runs: None exactly when some check panics (part 1's on any equation, part 2's as written on one part 1 rejects); otherwise part 1 sums the targets part 1 accepts and part 2 adds those of the rejected equations the as-written part 2 check accepts |
| Day07.Part1Meaning | src/day07/mod.rs:6-9 | with no zero operands, part 1's total is the sum of the targets some choice of + and * reaches |
| Day07.IntendedPart2 | src/day07/mod.rs:10-17 | the part 2 total with the corrected check; with no zero operands it is the sum of the targets some choice of +, * and concatenation reaches |
| Day07.IntendedMeans | src/day07/mod.rs:10-17 | with no zero operands, an equation counts towards the intended part 2 exactly when some choice of +, * and concatenation satisfies it |
| Day08.LastColumn | src/day08/mod.rs:27-35 | the width counter ends as the last index of the last line, when that line is not empty |
| Day08.ParseInput | src/day08/mod.rs:23-42 | height and width as the source counts them; each frequency maps to exactly the cells holding it, in reading order; every non-'.' character has an entry |
| Day08.ReadRow | src/day08/mod.rs:28-33 | reading one row files every antenna of that row and leaves the width at that row's last index |
| Day08.FileCell | src/day08/mod.rs:29-31 | filing one cell keeps the map exactly the antennae read so far |
| Day08.RowRead | src/day08/mod.rs:27-35 | a fully read row moves the reading position to the next row |
| Day08.ReflectGeometry | src/day08/mod.rs:53-54 | the reflected point lies on the line through the pair, twice as far from one antenna as from the other, and is neither antenna |
| Day08.AddBasicPairs | src/day08/mod.rs:48-63 | the set gains exactly the in-bounds reflections of the frequency's pairs |
| Day08.FindBasicAntinodes | src/day08/mod.rs:44-67 | the antinodes are exactly the in-bounds reflections of same-frequency pairs |
| Day08.Step | src/day08/mod.rs:82-89 | the reduced step is non-zero and the pair's difference is a positive multiple of it |
| Day08.GcdNonNegative | src/day08/mod.rs:86 | the gcd of the absolute differences is non-negative |
| Day08.DividesAbs | src/day08/mod.rs:86-88 | a divisor of the absolute value divides the value |
| Day08.RayConvex | src/day08/mod.rs:92-96 | the points of a ray between two in-bounds points are in bounds, so the walk stops at the first point off the map |
| Day08.Between | src/day08/mod.rs:92-96 | intermediate points of a ray lie between its ends |
| Day08.WalkRay | src/day08/mod.rs:91-96 | from an in-bounds start the set gains exactly the in-bounds points start + k·step, k ≥ 0 |
| Day08.AddHarmonicPairs | src/day08/mod.rs:73-98 | the set gains exactly the in-bounds points on the outward rays of the frequency's ordered pairs |
| Day08.FindHarmonicAntinodes | src/day08/mod.rs:69-102 | as written, the antinodes are exactly the in-bounds points on outward rays from one antenna away from another |
| Day08.AntennaIsAntinode | src/day08/mod.rs:91-93 | every in-bounds antenna with a distinct partner is a harmonic antinode |
| Day08.BasicIsHarmonic | src/day08/mod.rs:44-102 | every part 1 antinode is a part 2 antinode |
| Day08.ReflectIsShift | src/day08/mod.rs:53-96 | a reflection is a point of the outward ray |
| Day08.AddLinePairs | src/day08/mod.rs:73-98 | the corrected walk adds exactly the in-bounds points on the whole line through each ordered pair |
| Day08.BothWays | src/day08/mod.rs:94-95 | walking the reversed step covers the negative multiples |
| Day08.FindLineAntinodes | src/day08/mod.rs:69-102 | corrected: the antinodes are exactly the whole-step points of the lines through same-frequency pairs, and equally exactly the in-bounds grid points collinear with two different same-frequency antennae on the map |
| Day08.LineAntinodeCollinear | src/day08/mod.rs:82-96 | every point of the line is collinear with the pair |
| Day08.CrossTerms | src/day08/mod.rs:82-96 | multiples of a step are collinear with each other |
| Day08.PartnerOnLine | src/day08/mod.rs:82-96 | the partner antenna is itself on the line |
| Day08.StepCoprime | src/day08/mod.rs:82-89 | the reduced step's two components have an integer combination equal to 1 |
| Day08.SignedFactor | src/day08/mod.rs:86 | a multiple of the absolute value is a multiple of the value |
| Day08.UnitCombination | src/day08/mod.rs:86-88 | dividing both differences by their gcd turns the gcd's combination into a combination equal to 1 |
| Day08.MulCancel | src/day08/mod.rs:86-88 | a positive common factor cancels |
| Day08.BezoutScale | src/day08/mod.rs:82-96 | a point whose offset is parallel to the reduced step is a whole number of steps away |
| Day08.CrossCancel | src/day08/mod.rs:82-96 | collinearity with the pair is collinearity with the reduced step |
| Day08.CollinearOnLine | src/day08/mod.rs:82-96 | every grid point in line with the pair is a whole number of reduced steps from the first antenna |
| Day08.LineIffCollinear | src/day08/mod.rs:69-102 | a point is on a stepped line of some same-frequency pair exactly when it is in bounds and collinear with two different antennae of one frequency |
| Day08.HarmonicIsLine | src/day08/mod.rs:69-102 | every antinode found as written is an antinode of the whole line |
| Day08.ExampleSteps | src/day08/mod.rs:82-89 | the two steps for antennae at (0,0) and (3,0) point away from each other |
| Day08.ExampleNotOutward | src/day08/mod.rs:91-96 | neither outward walk from (0,0) or (3,0) reaches (1,0) |
| Day08.ExampleOnLine | src/day08/mod.rs:69-102 | (1,0) is on the line through (0,0) and (3,0) |
| Day08.OutwardWalkMissesBetween | src/day08/mod.rs:69-102 | on a 4×1 map with antennae at (0,0) and (3,0), (1,0) is in line with both but is not found as written |
| Day09.ParseFrom | src/day09/mod.rs:36-55 | every block has 1 to 9 cells; file ids are at least half the start index and strictly increase |
| Day09.NonZeroPositions | src/day09/mod.rs:40-41 | exactly the positions whose digit is not '0', in increasing order |
| Day09.ParseFromBlocks | src/day09/mod.rs:36-55 | block k of the parse from a position on comes from the k-th non-zero digit from there |
| Day09.ParseInput | src/day09/mod.rs:36-55 | block k comes from the k-th non-zero digit, at position p: as long as the digit, of file p / 2 at an even position and free at an odd one; zero digits give no block; lengths are 1 to 9 and file ids strictly increase |
| Day09.ParsedFiles | src/day09/mod.rs:36-55 | file `id` has a block exactly when position 2 · id exists and its digit is not '0' |
| Day09.Repeat | src/day09/mod.rs:31 | n copies of the cell |
| Day09.ToRawDisk | src/day09/mod.rs:28-34 | one cell per unit of the blocks' counts, each the type of a non-empty block |
| Day09.ToRawDiskAppend | src/day09/mod.rs:28-34 | expansion distributes over concatenation |
| Day09.RawLengthIsDigitSum | src/day09/mod.rs:28-55 | the expanded disk has as many cells as the digits of the map add up to |
| Day09.CheckSumUpdate | src/day09/mod.rs:76-84 | replacing one cell changes the checksum by the difference of that cell's weights |
| Day09.CheckSumTrailingFree | src/day09/mod.rs:76-84 | free cells at the end add nothing to the checksum |
| Day09.Swap | src/day09/mod.rs:69-71 | the two cells are exchanged and nothing else changes |
| Day09.CompactRaw | src/day09/mod.rs:57-74 | the disk after part 1's compaction, defined from both ends: trailing free cells stay, a leading occupied cell stays in place, a leading free cell takes the last occupied cell, which becomes free; the length is kept |
| Day09.CompactRawMultiset | src/day09/mod.rs:57-74 | compaction only rearranges the cells |
| Day09.CompactRawCompacted | src/day09/mod.rs:57-74 | after compaction no free cell precedes an occupied one |
| Day09.CompactRawExample | src/day09/mod.rs:57-74 | [0, free, 1, 2] compacts to [0, 2, 1, free]: the last file block fills the gap and the one before it stays |
| Day09.SkipFree | src/day09/mod.rs:60-62 | the scan stops at the last occupied cell at or before its start, over free cells only, without passing the scan position |
| Day09.CompactRawDisk | src/day09/mod.rs:57-74 | the array ends as the compaction of the original disk, so it keeps its multiset of cells and no free cell precedes an occupied one |
| Day09.SwapSteps | src/day09/mod.rs:116-122 | the exchanges keep the disk's length |
| Day09.Exchanged | src/day09/mod.rs:118-120 | one exchange keeps the disk's length |
| Day09.ExchangedMultiset | src/day09/mod.rs:118-120 | one exchange keeps the multiset of cells |
| Day09.SwapStepsExchange | src/day09/mod.rs:116-122 | for disjoint ranges the two ranges trade contents and every other cell is unchanged |
| Day09.SwapChunk | src/day09/mod.rs:116-122 | the array ends as the pairwise exchange of the two ranges and keeps its multiset of cells |
| Day09.ChunkStep | src/day09/mod.rs:117-121 | one more exchange extends the swapped prefix and keeps the multiset |
| Day09.FindChunkStart | src/day09/mod.rs:124-131 | the start of the maximal run of equal cells ending at the position |
| Day09.FindChunkEnd | src/day09/mod.rs:133-140 | the end of the maximal run of equal cells starting at the position |
| Day09.MoveFile | src/day09/mod.rs:92-106 | the file either stays or is exchanged with a free span wholly to its left; the cells are rearranged only |
| Day09.CompactWholeFiles | src/day09/mod.rs:86-114 | every file run gets its turn from the right and the disk keeps its multiset of cells |
| Day10.HeadsInRow | src/day10/mod.rs:40-48 | exactly the zero-height cells of the row from x on, left to right |
| Day10.HeadsFrom | src/day10/mod.rs:37-51 | exactly the zero-height cells from row y on, in reading order |
| Day10.FindTrailHeads | src/day10/mod.rs:36-52 | exactly the zero-height cells, each once |
| Day10.ReachStep | src/day10/mod.rs:79-85 | what an uphill neighbour reaches, the cell reaches |
| Day10.ReachTrans | src/day10/mod.rs:59-86 | reachability is transitive and stays on the map |
| Day10.ClosedHoldsReach | src/day10/mod.rs:59-86 | a visited set closed under uphill steps holds everything reachable from its members |
| Day10.TrailHeadScore | src/day10/mod.rs:54-88 | the score is the number of height-9 cells reachable from the start by uphill steps |
| Day10.Popped | src/day10/mod.rs:59 | the popped cell is on the map and reachable |
| Day10.SkipVisited | src/day10/mod.rs:60-62 | skipping a visited cell keeps the search invariant |
| Day10.CountNine | src/day10/mod.rs:64-70 | counting an unvisited 9 keeps the search invariant with the score one higher |
| Day10.Climb | src/day10/mod.rs:64-85 | pushing the uphill neighbours of an unvisited cell keeps the search invariant |
| Day10.ClimbsInReach | src/day10/mod.rs:79-85 | the pushed neighbours are reachable from the start |
| Day10.ClosedStep | src/day10/mod.rs:59-86 | marking a handled cell visited keeps the visited set closed up to the stack |
| Day10.PushUphill | src/day10/mod.rs:72-85 | the stack gains exactly the uphill neighbours, on top of what it held |
| Day10.RatingAtLeastScore | src/day10/mod.rs:54-129 | a trailhead's rating is at least its score |
| Day10.NinesSplit | src/day10/mod.rs:72-85 | the reachable 9s are the union of those reachable through each neighbour |
| Day10.NinesUnion | src/day10/mod.rs:59-86 | the 9s of a union are the union of the 9s |
| Day10.AtTop | src/day10/mod.rs:67-70 | a height-9 cell reaches at most itself and counts one path |
| Day10.NinesBranch | src/day10/mod.rs:79-85 | the 9s through one neighbour are at most its paths |
| Day10.UnionSize | src/day10/mod.rs:59-86 | a union is at most as large as its parts together |
| Day10.TrailHeadRating | src/day10/mod.rs:104-129 | the rating is the number of distinct uphill paths from the start to a height-9 cell |
| Day10.PopTrail | src/day10/mod.rs:108 | popping splits the pending path count and the termination weight |
| Day10.ClimbsWeighLess | src/day10/mod.rs:115-126 | the four possible pushes weigh less than the popped cell, so the search terminates |
| Day10.PushClimbs | src/day10/mod.rs:115-126 | the pushes add exactly the popped cell's paths to the pending count and no more weight than it had |
| Day10.UphillCases | src/day10/mod.rs:115-126 | the four bounds-checked comparisons are exactly the uphill tests for the four neighbours |
| Day10.PushStep | src/day10/mod.rs:115-126 | one conditional push adds the paths through that neighbour |
| Day11.NumberLen | src/day11/mod.rs:25-27 | the number of decimal digits: at least 1, and 10^(r-1) ≤ stone < 10^r for a positive stone |
| Day11.BlinkOne | src/day11/mod.rs:29-43 | 0 becomes 1; an even-length number splits into a left half and a right half below 10^(len/2) that recombine to it; otherwise the stone is multiplied by 2024 |
| Day11.SplitHalves | src/day11/mod.rs:35-39 | the left half of a split has exactly half the digits |
| Day11.Children | src/day11/mod.rs:49-53 | one or two stones, two exactly when the stone splits, holding the two parts of the blink |
| Day11.WeighRemove | src/day11/mod.rs:48-54 | a weighted total over a counter splits off any one number |
| Day11.Arity | src/day11/mod.rs:49-53 | how many stones one stone becomes |
| Day11.Blink | src/day11/mod.rs:45-57 | each number's new count is the sum, over the old numbers, of their counts times how often they produce it; the new total is the old counts weighted by how many stones each becomes |
| Day11.CountChildren | src/day11/mod.rs:49-53 | one stone's count is added to each number it becomes and nothing else changes |
| Day11.BlinkStep | src/day11/mod.rs:48-54 | handling one more number keeps the new counter equal to the weighted totals of the numbers handled |
| Day11.ArityStep | src/day11/mod.rs:48-54 | handling one more number keeps the new total equal to the weighted arities |
| Day11.YieldTimes | src/day11/mod.rs:50-53 | a count times the multiplicity of a number among the children is what is added for it |
| Day11.TotalNeverDecreases | src/day11/mod.rs:5-19 | a blink never lowers the number of stones |
| Day12.DifferenceClosed | src/day12/mod.rs:50-76 | removing a closed set from a uniform closed set leaves a closed set |
| Day12.RegionOfMember | src/day12/mod.rs:50-76 | a region is the region of each of its cells |
| Day12.RegionsMeet | src/day12/mod.rs:30-48 | two regions sharing a cell are equal |
| Day12.Cells | src/day12/mod.rs:33 | exactly the cells of the grid |
| Day12.InAreaAppend | src/day12/mod.rs:57-70 | entries outside the area do not change the count of stack entries inside it |
| Day12.FindContiguousRegion | src/day12/mod.rs:50-76 | None exactly off the grid; otherwise the area is the connected set of same-plant cells containing the start, and the edges are its boundary cells |
| Day12.FloodProgress | src/day12/mod.rs:57-71 | each pop strictly lowers the flood's termination measure |
| Day12.FloodStep | src/day12/mod.rs:57-71 | one pop keeps the area uniform, keeps the start recorded, and keeps the area closed up to the stack and inside the region |
| Day12.PushSame | src/day12/mod.rs:60-70 | the stack gains exactly the same-plant neighbours not yet in the area, on top of what it held |
| Day12.FindContiguousRegions | src/day12/mod.rs:30-48 | every region is a connected same-plant set with its boundary as edges, the regions are pairwise disjoint, and every cell of the grid lies in one of them |
| Day12.AddRegion | src/day12/mod.rs:38-44 | adding a region from an unvisited cell keeps the found regions consistent with the visited set |
| Day12.AddCovers | src/day12/mod.rs:43-44 | every visited cell remains covered by some region |
| Day12.CoverGrows | src/day12/mod.rs:44 | adding a region keeps earlier cells covered |
| Day12.AddDisjoint | src/day12/mod.rs:34-44 | a region started from an unvisited cell is disjoint from the regions found so far |
| Day12.NewRegionDisjoint | src/day12/mod.rs:34-44 | a region from a cell outside another region is disjoint from it |
| Day12.RegionsCoverGarden | src/day12/mod.rs:30-48 | every cell of a rectangular grid lies in some region |
| Day12.FindEdges | src/day12/mod.rs:78-88 | exactly the cells of the area with a neighbour outside it |
| Day12.InteriorSurrounded | src/day12/mod.rs:78-88 | a cell of the area that is not an edge has all four neighbours in the area |
| Day12.OutsideCount | src/day12/mod.rs:94-98 | at most one fence piece per direction |
| Day12.OutsideCountPieces | src/day12/mod.rs:94-98 | the filtered count is the number of (cell, direction) fence pieces |
| Day12.PiecesOfOne | src/day12/mod.rs:94-98 | one cell's count is its number of fence pieces, at least one for an edge |
| Day12.PiecesSplit | src/day12/mod.rs:90-101 | the fence pieces of disjoint cells add up |
| Day12.PiecesAlongEdges | src/day12/mod.rs:90-101 | counting over the edges gives every fence piece of the area |
| Day12.CountFencePieces | src/day12/mod.rs:90-101 | the count is the number of fence pieces of the region, between one and four per edge cell |
| Day12.RunEndUnique | src/util.rs:87-94 | a run along a side ends at one place |
| Day12.RunEnds | src/util.rs:87-94 | every run along a side ends |
| Day12.FirstOff | src/util.rs:87-94 | the first step off the side marks the run's end |
| Day12.RunFrom | src/day12/mod.rs:131-139 | moving while still on the side ends at the last cell of the run |
| Day12.GetLinesIncluding | src/day12/mod.rs:119-148 | exactly the lines of the cell's fence pieces, one per open direction |
| Day12.CountFenceLines | src/day12/mod.rs:103-110 | the count is the number of distinct straight fence lines of the region |
| Day12.LinesSplit | src/day12/mod.rs:103-110 | the set of lines grows by exactly the lines of the next edge |
| Day12.LinesAtMostPieces | src/day12/mod.rs:103-110 | there are never more fence lines than fence pieces |
| Day13.FindPrize | src/day13/mod.rs:47-64 | a cost is returned exactly when both of Cramer's quotients are integers |
| Day13.CramerNumerators | src/day13/mod.rs:54-57 | any press counts reaching the prize scale the determinant into Cramer's numerators |
| Day13.FindPrizeSound | src/day13/mod.rs:47-64 | a returned cost is 3·A + 1·B for press counts that reach the prize |
| Day13.BackSubstitute | src/day13/mod.rs:54-60 | integer quotients satisfy the X equation |
| Day13.SmallMultiple | src/day13/mod.rs:54-60 | a multiple of the determinant smaller than it is 0 |
| Day13.FindPrizeComplete | src/day13/mod.rs:47-64 | if some press counts reach the prize, the machine is won at exactly their cost, so the solution is unique |
| Day13.Farther | src/day13/mod.rs:26-33 | the second part's machine keeps the buttons and moves the prize by 10000000000000 on both axes |
| Day13.TotalCost | src/day13/mod.rs:19-24 | the total is 0 when no machine can be won |
| Day14.Tile | src/day14/mod.rs:48 | one (tile, robot) placement per robot stored on the tile |
| Day14.PlacementsRemove | src/day14/mod.rs:48 | the placements of a tile map split off any one tile |
| Day14.PlacementsUpdate | src/day14/mod.rs:53-55 | replacing one tile's robots changes the placements by exactly that tile's old and new robots |
| Day14.Initial | src/day14/mod.rs:50-58 | one placement per input robot, on the robot's own position |
| Day14.PlacementsAppend | src/day14/mod.rs:54 | pushing a robot onto a tile adds exactly that placement |
| Day14.PlacementsAdd | src/day14/mod.rs:53-55 | a new tile adds exactly its robots' placements |
| Day14.InitMap | src/day14/mod.rs:50-58 | every robot is stored on its own position and the map holds as many robots as the input |
| Day14.WrapAxis | src/day14/mod.rs:70-82 | for a position on the floor and a speed below the floor's size, the single correction gives the position plus the speed modulo the size |
| Day14.MoveAllRemove | src/day14/mod.rs:65-89 | moving a multiset of placements splits off any one of them |
| Day14.MoveAllUnion | src/day14/mod.rs:65-89 | moving distributes over the union of placements |
| Day14.MoveAllSize | src/day14/mod.rs:63-92 | a step keeps the number of robots |
| Day14.MoveAllOrigin | src/day14/mod.rs:63-92 | every placement after a step is some earlier placement's robot, with the same velocity, moved one step |
| Day14.MoveAllOnFloor | src/day14/mod.rs:73-82 | with every speed below the floor's size on its axis, a step keeps every robot on the 101 × 103 floor |
| Day14.Step | src/day14/mod.rs:63-92 | the new tile map holds exactly the old placements, each robot moved by its velocity with wrap-around |
| Day14.PlaceAll | src/day14/mod.rs:67-88 | moving one tile's robots adds exactly their moved placements |
| Day14.MoveAllOne | src/day14/mod.rs:68-87 | a single placement moves to its next tile |
| Day14.DetermineQuadrant | src/day14/mod.rs:94-111 | None exactly on the middle column or row; otherwise 0 to 3 by whether x and y lie below the middle |
| Day14.InQuadrantRemove | src/day14/mod.rs:116-120 | a quadrant's robot count splits off any one tile |
| Day14.InQuadrantAdd | src/day14/mod.rs:116-120 | a new tile adds its robots to its quadrant's count only |
| Day14.CountQuadrants | src/day14/mod.rs:113-123 | the product of the four quadrants' robot counts |
| Day15.Put | src/day15/mod.rs:69-70 | writing one cell changes that cell only and keeps the shape |
| Day15.Shape | src/day15/mod.rs:65-85 | the row lengths of the warehouse |
| Day15.Step | src/day15/mod.rs:122-129 | vertical moves keep the column and horizontal moves keep the row |
| Day15.TallyPut | src/day15/mod.rs:69-70 | writing one cell changes the tile counts by the old and new tile only |
| Day15.TallyAt | src/day15/mod.rs:65-85 | a tile present in the warehouse is counted |
| Day15.Shift | src/day15/mod.rs:69-70 | moving a tile into an empty neighbour empties its old cell, changes nothing else, and keeps every tile count |
| Day15.PushableStep | src/day15/mod.rs:122-128 | from a cell a push may start at, the step in its direction stays on the warehouse, so the unsigned step cannot underflow and the index cannot leave the grid |
| Day15.InsidePushable | src/day15/mod.rs:65-85 | in a walled warehouse every cell that is not a wall is off the border, so the chain of pushes can go on from it |
| Day15.SameShapeBorder | src/day15/mod.rs:65-85 | warehouses of the same shape have the same cells and the same border |
| Day15.ShiftKeepsWalls | src/day15/mod.rs:69-70 | moving a tile from off the border into an empty cell leaves the border walled |
| Day15.Push | src/day15/mod.rs:65-85 | in a walled warehouse a push never reads off the grid; it keeps the shape, the border walls and the tile counts; a failed push changes nothing; a successful one empties the pusher's cell, puts its tile onto the non-wall cell ahead, and changes only cells in line ahead of it |
| Day15.StepAhead | src/day15/mod.rs:74 | cells not ahead of a position are not ahead of its neighbour either |
| Day15.OtherHalf | src/day15/mod.rs:153-186 | the other half of a wide crate is a different cell on the same row |
| Day15.PushLarge | src/day15/mod.rs:131-216 | in a walled warehouse the push never reads off the grid; a dry run changes nothing; a successful push had a non-wall cell ahead, and applied it empties the pusher's cell and puts its tile ahead; only cells ahead change, the border stays walled and tile counts are kept |
| Day15.PushLargeIntoHalf | src/day15/mod.rs:148-213 | pushing into either half of a wide crate pushes both halves |
| Day15.PushHalves | src/day15/mod.rs:148-213 | pushing a wide crate has the push's guarantees: shape and counts kept, the pusher moved ahead on success, only cells ahead changed |
| Day15.PushBoth | src/day15/mod.rs:149-200 | vertically both halves are pushed, without short-circuit, and a successful dry run means both halves could move |
| Day15.SecondHalfPushable | src/day15/mod.rs:149-167 | after the first half's push the second half can be pushed vertically without leaving the warehouse, and it is as far from the edge as the first |
| Day15.BothInSequence | src/day15/mod.rs:149-167 | a vertical push of a wide crate is the first half's push followed by the second's on the resulting warehouse |
| Day15.SidewaysInSequence | src/day15/mod.rs:168-179 | a horizontal push into a wide crate pushes the near half only, which carries the far half along |
| Day15.HalvesAhead | src/day15/mod.rs:149-167 | cells not ahead of the pusher are not ahead of either half |
| Day15.SameShapeRectangular | src/day15/mod.rs:65-85 | a warehouse of the same shape as a rectangular one is rectangular |
| Day15.MoveRobot | src/day15/mod.rs:90-98 | the robot steps exactly when its push succeeds; the warehouse stays walled with the robot off its border, tile counts are kept and the robot's cell is empty afterwards |
| Day15.Walk | src/day15/mod.rs:87-102 | over any list of moves the warehouse stays walled and keeps its tile counts, and the robot stays on an empty cell off its border |
| Day15.MoveRobotLarge | src/day15/mod.rs:223-232 | the dry run decides the move; on success the applied push is the result and the robot steps ahead, otherwise nothing changes |
| Day15.WalkLarge | src/day15/mod.rs:218-233 | over any list of moves the wide warehouse stays walled and keeps its tile counts, and the robot stays off its border |
| Day15.WidenRow | src/day15/mod.rs:107-116 | each tile becomes two: a crate its two halves, anything else doubled |
| Day15.Widened | src/day15/mod.rs:104-120 | each row is widened |
| Day15.WidenRowCount | src/day15/mod.rs:107-116 | a widened row's tile counts are the widened counts of the original |
| Day15.WidenedTally | src/day15/mod.rs:104-120 | the widened warehouse's tile counts are the widened counts of the original |
| Day15.WidenedIsWide | src/day15/mod.rs:104-120 | a narrow warehouse widens into a wide one with one left half per crate |
| Day15.NarrowCounts | src/day15/mod.rs:109-111 | widening leaves no small crate and one left half per crate |
| Day15.WidenedStart | src/day15/mod.rs:220-221 | the robot's doubled column holds the first half of its widened cell, and a robot off the border stays off it |
| Day15.WidenedAt | src/day15/mod.rs:107-116 | each cell of the widened warehouse is one half of the widened cell at half its column |
| Day15.WidenedWalled | src/day15/mod.rs:104-120 | a walled warehouse widens into a walled one |
| Day15.EnlargeWarehouse | src/day15/mod.rs:104-120 | the loops build exactly the widened warehouse |
| Day15.RowGpsPut | src/day15/mod.rs:244-256 | one cell write changes a row's GPS sum by that cell's contribution only |
| Day15.GpsPut | src/day15/mod.rs:241-259 | one cell write changes the GPS sum by that cell's contribution only |
| Day15.GpsUpdate | src/day15/mod.rs:241-259 | the same for a raw row and column update |
| Day15.GpsShift | src/day15/mod.rs:241-259 | moving a target tile one cell changes the GPS sum by the difference of the two cells' coordinates |
| Day15.GpsNone | src/day15/mod.rs:241-259 | a warehouse without the target tile sums to 0 |
| Day15.RowGpsNone | src/day15/mod.rs:244-256 | a row without the target tile sums to 0 |
| Day15.Warehouse.constructor | src/day15/mod.rs:88 | the warehouse holds the parsed rows |
| Day15.Warehouse.Set | src/day15/mod.rs:69-70 | the cell is written and nothing else changes |
| Day15.Warehouse.ShiftCell | src/day15/mod.rs:69-70 | the tile moves into the empty neighbour |
| Day15.Warehouse.TryMove | src/day15/mod.rs:65-85 | the recursive in-place push answers and leaves the warehouse exactly as the push specification says |
| Day15.Warehouse.TryMoveLargerCrates | src/day15/mod.rs:131-216 | the in-place wide push answers and leaves the warehouse exactly as its specification says, for dry runs and applied runs |
| Day15.Warehouse.TryHalves | src/day15/mod.rs:148-213 | pushing both halves of a wide crate in place matches the specification |
| Day15.Warehouse.MoveAll | src/day15/mod.rs:87-102 | the loop leaves the warehouse and the robot where the walk specification puts them |
| Day15.Warehouse.MoveAllLarger | src/day15/mod.rs:218-233 | the loop leaves the wide warehouse and the robot where the wide walk specification puts them |
| Day16.StepCost | src/day16/mod.rs:99-105 | turning back is refused; going straight costs 1; any other turn costs more |
| Day16.Successors | src/day16/mod.rs:98-110 | every listed successor is a legal move onto an empty cell |
| Day16.EdgeListed | src/day16/mod.rs:98-110 | every legal move is listed |
| Day16.PrefixIsPath | src/day16/mod.rs:82-130 | a prefix of a path is a path |
| Day16.WitnessSeed | src/day16/mod.rs:83-84 | the start facing right is reached at cost 0 |
| Day16.PathSnoc | src/day16/mod.rs:98-128 | extending a path by one move adds that move's cost |
| Day16.GlueIsPath | src/day16/mod.rs:82-130 | two paths meeting at a state join into a path |
| Day16.PathGlue | src/day16/mod.rs:82-130 | the joined path costs the sum of the two |
| Day16.PathCostLast | src/day16/mod.rs:82-130 | a path's cost is its prefix's cost plus the last move |
| Day16.SuffixIsPath | src/day16/mod.rs:82-130 | a suffix of a path is a path |
| Day16.WitnessStep | src/day16/mod.rs:112-128 | a distance recorded for a successor is the cost of a real path to it |
| Day16.InUniverse | src/day16/mod.rs:82-130 | every state the search can record lies in a finite set of states |
| Day16.MaxEntry | src/day16/mod.rs:70-96 | the heap pops an entry of largest distance |
| Day16.Dijkstra | src/day16/mod.rs:82-130 | the search terminates; the start facing right is at 0; every recorded distance is the cost of a real path; and no move from a recorded state can lower a neighbour's distance |
| Day16.PopPending | src/day16/mod.rs:92-96 | popping an entry leaves every other recorded state still pending or relaxed |
| Day16.StaysInUniverse | src/day16/mod.rs:92-130 | each round either changes nothing or records a new state or lowers a distance, so the loop terminates |
| Day16.Relax | src/day16/mod.rs:98-129 | relaxing the popped entry's four moves keeps the search invariant and either leaves the state alone or makes progress |
| Day16.RelaxAdvance | src/day16/mod.rs:98-129 | one more direction keeps the relaxation invariant |
| Day16.RelaxStart | src/day16/mod.rs:98 | the relaxation invariant holds before the first direction |
| Day16.RelaxDone | src/day16/mod.rs:98-129 | after the four directions the popped state is relaxed |
| Day16.RelaxSkips | src/day16/mod.rs:101-113 | a refused or non-improving move keeps the invariant |
| Day16.RelaxImproves | src/day16/mod.rs:112-128 | an improving move, recorded and pushed, keeps the invariant |
| Day16.ImproveSearch | src/day16/mod.rs:112-128 | recording an improvement keeps every distance witnessed and makes progress |
| Day16.ImprovePending | src/day16/mod.rs:112-128 | recording an improvement leaves every state pending or relaxed |
| Day16.ImproveReaches | src/day16/mod.rs:112-128 | after a direction is handled, the neighbour in it is recorded at most at the offered cost |
| Day16.RelaxedLowered | src/day16/mod.rs:112-128 | lowering another state's distance keeps a relaxed state relaxed |
| Day16.RelaxOne | src/day16/mod.rs:99-128 | one direction is handled as the source does: skipped, recorded or improved |
| Day16.Improve | src/day16/mod.rs:112-128 | recording a witnessed distance and pushing it keeps the search invariant |
| Day16.ImproveProgress | src/day16/mod.rs:112-128 | a new or lower distance is progress |
| Day16.ProgressStep | src/day16/mod.rs:92-130 | progress composes across rounds |
| Day16.Optimal | src/day16/mod.rs:82-130 | every path from the start ends at a recorded state with a distance at most its cost |
| Day16.MinOver | src/day16/mod.rs:132-139 | the least recorded distance of the end cell over the facings, None when it was never reached |
| Day16.ShortestIsCheapest | src/day16/mod.rs:132-139 | with exact distances, None exactly when no route exists; otherwise the value is the cost of a route and no route is cheaper |
| Day16.RouteBounds | src/day16/mod.rs:132-139 | every route bounds the shortest distance from above |
| Day16.ShortestReached | src/day16/mod.rs:132-139 | the shortest distance is the cost of some route |
| Day16.FeedsEdge | src/day16/mod.rs:163-170 | a backward step taken by the count is a real move whose cost closes the gap exactly |
| Day16.FeedsSound | src/day16/mod.rs:157-174 | a state reached backwards from a cheapest-route state is itself on a cheapest route |
| Day16.LeadsBack | src/day16/mod.rs:157-174 | a cheapest continuation extends backwards over a move |
| Day16.RouteThrough | src/day16/mod.rs:157-174 | a cell reached at its distance and continuing cheaply lies on a cheapest route |
| Day16.Backtrack | src/day16/mod.rs:146-178 | the end is counted; every counted cell is on a cheapest route ending in a seeded facing; and every cell of such a route is counted |
| Day16.BacktrackComplete | src/day16/mod.rs:157-175 | when the stack is empty every cell of every cheapest route into a seeded facing has been counted |
| Day16.LastCostTo | src/day16/mod.rs:146-178 | the cost up to the last state is the path's cost |
| Day16.GoalCovered | src/day16/mod.rs:157-175 | a cheapest path whose end was expanded has all its cells counted |
| Day16.CellsWithin | src/day16/mod.rs:171 | cells all counted one by one make the path's cells counted |
| Day16.Expand | src/day16/mod.rs:158-174 | expanding the popped entry pushes exactly its feeding predecessors, counts their cells, keeps soundness, and lowers the termination weight |
| Day16.ExpandSkip | src/day16/mod.rs:159-170 | a direction that does not feed keeps the expansion invariant |
| Day16.ExpandPush | src/day16/mod.rs:170-173 | a feeding direction is pushed and its cell counted |
| Day16.PushSound | src/day16/mod.rs:170-173 | pushing a feeding predecessor keeps every stacked entry on a cheapest route |
| Day16.PushWeight | src/day16/mod.rs:170-173 | each push weighs less than a fifth of the popped entry |
| Day16.WeightPush | src/day16/mod.rs:172 | the weight of the stack grows by the pushed entry's weight |
| Day16.CheapestIsTight | src/day16/mod.rs:146-178 | a path from the start no costlier than its end's distance is cheapest at every prefix |
| Day16.ClosedCovers | src/day16/mod.rs:157-175 | an expanded state on a cheapest path has all earlier cells counted |
| Day16.StepFeeds | src/day16/mod.rs:163-170 | each move of a cheapest path is found by the backward step |
| Day16.CostToStep | src/day16/mod.rs:168 | the cost up to a state is the cost up to the one before plus the move |
| Day16.PrefixCheapest | src/day16/mod.rs:82-130 | the prefixes of a cheapest path are cheapest |
| Day16.Detour | src/day16/mod.rs:82-130 | no recorded distance undercuts a cheapest path's prefix cost |
| Day16.SwapPrefix | src/day16/mod.rs:82-130 | replacing a path's prefix by another path to the same state changes the cost by the difference |
| Day16.Solve | src/day16/mod.rs:82-144 | None exactly when no route exists; otherwise the least route cost and exactly the cells on cheapest routes ending in a seeded facing |
| Day16.SolveAsWritten | src/day16/mod.rs:146-178 | seeded facing right and up, only the end and cells of cheapest routes arriving facing right or up are counted |
| Day16.SolveAllFacings | src/day16/mod.rs:146-178 | seeded in every facing, the counted cells are exactly the end and the cells on any cheapest route |
| Day16.DownOpen | src/day16/mod.rs:27-61 | the example maze's open cells |
| Day16.DownRouteCost | src/day16/mod.rs:82-144 | the example's route costs 3004 and crosses five cells |
| Day16.DownCostsRelaxed | src/day16/mod.rs:82-130 | the example's distance table is relaxed |
| Day16.DownSuccessors | src/day16/mod.rs:98-110 | the example's distances bound every successor |
| Day16.DownFromStart | src/day16/mod.rs:98-110 | from the start only the upward turn is legal |
| Day16.DownFromUp | src/day16/mod.rs:98-110 | then only the left turn |
| Day16.DownFromMiddle | src/day16/mod.rs:98-110 | then only straight on |
| Day16.DownFromCorner | src/day16/mod.rs:98-110 | then only the turn down into the end |
| Day16.DownDeadEnd | src/day16/mod.rs:98-110 | the end facing down has no move |
| Day16.DownReach | src/day16/mod.rs:82-130 | every path from the start is bounded below by the example's distances |
| Day16.DownStaysOnRoute | src/day16/mod.rs:82-130 | every path stays on the example's five cells |
| Day16.DownMissesSourceGoals | src/day16/mod.rs:152-155 | no path reaches the end facing right or up |
| Day16.DownCheapest | src/day16/mod.rs:132-139 | no route costs less than 3004 |
| Day16.DownNothingOnSourceRoutes | src/day16/mod.rs:152-155 | no cell is on a route ending facing right or up |
| Day16.DownOnRoute | src/day16/mod.rs:146-178 | every cell on a route is one of the five |
| Day16.DownCellsCount | src/day16/mod.rs:146-178 | the route has five cells |
| Day16.DownAsWritten | src/day16/mod.rs:146-178 | as written the example counts 1 point |
| Day16.DownAllFacings | src/day16/mod.rs:146-178 | seeded in every facing the example counts all 5 points |
| Day17.Combo | src/day17/mod.rs:67-75 | literal operands 0 to 3 stand for themselves, 4 to 6 for registers a, b and c; 7 and above panic |
| Day17.Step | src/day17/mod.rs:39-58 | one instruction: it faults exactly on an unknown opcode, a combo operand of 7 or more, or a shift by 128 or more; a taken jump sets the pointer to the operand and everything else advances by 2; bxl, bst and bxc change only b; out appends the combo value mod 8; only out changes the output |
| Day17.Exec | src/day17/mod.rs:38-60 | the run halts exactly when the pointer has left the program, and a fault is a step that cannot be taken |
| Day17.ExecPrintsDigits | src/day17/mod.rs:101-103 | every output value is below 8 |
| Day17.Candidates | src/day17/mod.rs:116-119 | eight candidates per option |
| Day17.CandidateAt | src/day17/mod.rs:116-119 | the candidates are (option << 3) \| low in order |
| Day17.CandidateShape | src/day17/mod.rs:116-119 | every candidate shifted right by three is one of the options |
| Day17.SweepSound | src/day17/mod.rs:116-125 | every kept value is a candidate whose halting run ends its output with the target |
| Day17.FoundValues | src/day17/mod.rs:113-129 | every value found extends an option by three bits and makes the program print the target last |
| Day17.Computer.constructor | src/day17/mod.rs:149-156 | a computer holds the program and registers, with the pointer at 0 and no output |
| Day17.Computer.Reset | src/day17/mod.rs:62-65 | the pointer returns to 0 and the output is cleared, the registers kept |
| Day17.Computer.Adv | src/day17/mod.rs:77-79 | a is shifted right by the combo value |
| Day17.Computer.Bxl | src/day17/mod.rs:81-83 | b is xor-ed with the literal |
| Day17.Computer.Bst | src/day17/mod.rs:85-87 | b is the combo value mod 8 |
| Day17.Computer.Jnz | src/day17/mod.rs:89-95 | a jump to the operand exactly when a is not 0 |
| Day17.Computer.Bxc | src/day17/mod.rs:97-99 | b is xor-ed with c |
| Day17.Computer.Out | src/day17/mod.rs:101-103 | the combo value mod 8 is appended to the output |
| Day17.Computer.Bdv | src/day17/mod.rs:105-107 | b is a shifted right by the combo value |
| Day17.Computer.Cdv | src/day17/mod.rs:109-111 | c is a shifted right by the combo value |
| Day17.Computer.Run | src/day17/mod.rs:38-60 | the loop leaves the computer in the state of the step-by-step execution and reports how it ended |
| Day17.Computer.FindValuesOutputting | src/day17/mod.rs:113-129 | the values returned, and the registers left behind, are those of the candidate sweep in which b and c carry over between runs |
| Day18.FallenCells | src/day18/mod.rs:46-48 | after the bytes fall, a cell inside the grid is corrupted exactly when a byte landed on it; others are unchanged |
| Day18.ConstructMap | src/day18/mod.rs:43-51 | a fresh 71 × 71 grid with the bytes dropped on it |
| Day18.ConstructedCells | src/day18/mod.rs:43-51 | each cell of the square is corrupted exactly when a byte fell on it, and cells outside the square are absent |
| Day18.Neighbours | src/day18/mod.rs:80-82 | the four neighbours in the fixed direction order |
| Day18.WitnessStart | src/day18/mod.rs:72-73 | the start is reached in 0 steps |
| Day18.WitnessStep | src/day18/mod.rs:81-101 | a recorded neighbour is reached in one more step |
| Day18.WitnessReaches | src/day18/mod.rs:71-109 | a witnessed distance means the cell is reachable |
| Day18.RelaxedBound | src/day18/mod.rs:71-109 | with all distances relaxed, the k-th cell of any path from the start is recorded at distance at most k |
| Day18.InUniverse | src/day18/mod.rs:71-109 | every recordable cell lies in a finite set |
| Day18.MaxEntry | src/day18/mod.rs:59-79 | the heap pops an entry of largest distance |
| Day18.Dijkstra | src/day18/mod.rs:71-109 | a distance is returned exactly when the end is reachable; it is the length of a real path and no path is shorter |
| Day18.Shortest | src/day18/mod.rs:105-108 | when the heap is empty the recorded distance of the end is exactly the shortest path length, and recorded exactly when reachable |
| Day18.StaysInUniverse | src/day18/mod.rs:79-103 | each round records a new cell or lowers a distance, so the loop terminates |
| Day18.Relax | src/day18/mod.rs:80-102 | relaxing the popped cell's neighbours keeps the search invariant, never raises a distance, and makes progress or changes nothing |
| Day18.Lower | src/day18/mod.rs:87-101 | recording a shorter distance for an open neighbour keeps the relaxation invariant |
| Day18.LowerBounds | src/day18/mod.rs:87-101 | after a direction is handled, its neighbour is recorded at most one step past the popped cell |
| Day18.LowerKeeps | src/day18/mod.rs:87-101 | recording a witnessed distance keeps the search invariant |
| Day18.LowerPending | src/day18/mod.rs:87-101 | recording and pushing keeps every cell pending or relaxed |
| Day18.LowerProgress | src/day18/mod.rs:87-101 | a new or lower distance is progress |
| Day18.Finish | src/day18/mod.rs:80-102 | after the four directions the popped cell is relaxed |
| Day18.OpenNeighbours | src/day18/mod.rs:124-129 | exactly the empty neighbours |
| Day18.Reachable | src/day18/mod.rs:111-133 | true exactly when a path of empty cells leads from the start to the end |
| Day18.SkipVisited | src/day18/mod.rs:115-117 | skipping a visited cell keeps the search invariant |
| Day18.Expand | src/day18/mod.rs:118-129 | visiting a cell other than the end and pushing its open neighbours keeps the search invariant |
| Day18.Unreachable | src/day18/mod.rs:132 | a visited set closed under steps that holds the start and not the end proves the end unreachable |
| Day18.ClosedPath | src/day18/mod.rs:111-133 | every cell of a path from a closed visited set is visited |
| Day18.FirstBlocker | src/day18/mod.rs:135-144 | the first byte after whose fall the end is unreachable; None where the source panics because none blocks |
| Day18.FallenStep | src/day18/mod.rs:136-137 | one more byte drops one more cell |
| Day18.BlockedStays | src/day18/mod.rs:135-144 | once blocked, the end stays blocked as more bytes fall |
| Day19.InsertHolds | src/day19/mod.rs:80-86 | inserting a towel adds exactly that word |
| Day19.RootEmpty | src/day19/mod.rs:75-78 | the empty tree holds no word |
| Day19.ConstructPrefixTree | src/day19/mod.rs:74-89 | the tree holds exactly the towels |
| Day19.Matches | src/day19/mod.rs:47-62 | exactly the lengths 1 to n of the pattern's prefixes that are towels, ascending |
| Day19.WalkSnoc | src/day19/mod.rs:50-52 | walking one more character follows one more child |
| Day19.WalkStuck | src/day19/mod.rs:56-57 | once the walk has no child it stays stuck |
| Day19.AllMatchLengths | src/day19/mod.rs:47-62 | the loop returns exactly the lengths of the pattern's prefixes that are towels, ascending |
| Day19.NoLongerMatches | src/day19/mod.rs:56-57 | stopping at the first missing child loses no match |
| Day19.ComposableSnoc | src/day19/mod.rs:91-103 | a composable prefix followed by a towel is composable |
| Day19.WeightAppend | src/day19/mod.rs:93-99 | the stack's termination weight adds up over concatenation |
| Day19.WeightBelow | src/day19/mod.rs:99 | the lengths pushed for one pop weigh less than the popped entry |
| Day19.Shifted | src/day19/mod.rs:99 | each match length is offset by the popped position |
| Day19.HasTotalMatch | src/day19/mod.rs:91-103 | true exactly when the pattern is a concatenation of towels |
| Day19.Expand | src/day19/mod.rs:93-99 | popping and pushing the offset match lengths keeps every stack entry a composable prefix, keeps a good entry on the stack, and lowers the weight |
| Day19.BuiltAppend | src/day19/mod.rs:99 | the stack stays made of composable prefix lengths |
| Day19.PushedBuilt | src/day19/mod.rs:98-99 | each pushed position ends a composable prefix and lies beyond the popped one |
| Day19.NextGood | src/day19/mod.rs:98-99 | a composable rest leaves some pushed position with a composable rest |
| Day19.FirstWord | src/day19/mod.rs:98-99 | a non-empty composable word starts with a towel followed by a composable rest |
| Day19.WaysPositive | src/day19/mod.rs:105-126 | the number of arrangements is positive exactly when the pattern is non-empty and composable |
| Day19.WaysOverPositive | src/day19/mod.rs:115-121 | the sum over first towels is positive exactly when some first towel leaves a composable rest |
| Day19.CountTotalMatches | src/day19/mod.rs:105-126 | the count is the number of ways to write the pattern as a sequence of towels; the memo stays correct, gains the pattern and keeps earlier entries |
| Day20.ParseCell | src/day20/mod.rs:34-45 | 'S', 'E', '#' and '.' are accepted, anything else panics; only '#' is a wall |
| Day20.ParseRow | src/day20/mod.rs:32-47 | a row parses exactly when all its characters do, cell by cell |
| Day20.ParseMap | src/day20/mod.rs:27-50 | the map parses exactly when all its rows do, row by row |
| Day20.LastInRow | src/day20/mod.rs:35-42 | the last column holding the character, None when the row has none |
| Day20.FindLast | src/day20/mod.rs:25-53 | the last occurrence of the character in reading order, None when absent (the source's expect panics) |
| Day20.GetPath | src/day20/mod.rs:59-96 | the path is a walk of distinct open cells from the start; it ends at the end, or is stuck where the source panics |
| Day20.WalkExtends | src/day20/mod.rs:70-80 | stepping onto an open cell not yet on the path extends the walk |
| Day20.StuckWhenAllDeclined | src/day20/mod.rs:65-92 | when all four directions are declined the walk is stuck |
| Day20.ParseInput | src/day20/mod.rs:24-57 | None when the map does not parse or lacks S or E; otherwise a walk from the last S to the last E |
| Day20.ReverseIndex | src/day20/mod.rs:98-100 | each cell of the path maps to its last index on the path |
| Day20.IndexInverts | src/day20/mod.rs:98-100 | on a path of distinct cells the index of the i-th cell is i |
| Day20.HitsMembers | src/day20/mod.rs:107-122 | the pairs gathered after some of the direction pairs are exactly the hits of those pairs |
| Day20.CheatsUptoMembers | src/day20/mod.rs:106-123 | the cheats gathered over the first n cells are the hits of those cells |
| Day20.HitsComplete | src/day20/mod.rs:107-122 | after all sixteen direction pairs a cell's hits are complete |
| Day20.FindCheats | src/day20/mod.rs:102-126 | None where the slice panics (a path shorter than 100); otherwise exactly the two-step cheats |
| Day20.AddCheatsFrom | src/day20/mod.rs:107-122 | one cell's loop adds exactly its hits |
| Day20.TwoSteps | src/day20/mod.rs:107-113 | two steps that do not turn back land exactly on the cells at Manhattan distance 2 |
| Day20.JumpTo | src/day20/mod.rs:107-113 | every cell at distance 2 is such a landing |
| Day20.CheatsSound | src/day20/mod.rs:102-126 | each cheat found jumps two cells from a path cell among all but the last 100 to a path cell more than 100 further on |
| Day20.CheatsComplete | src/day20/mod.rs:102-126 | every such jump is found |
| Day20.CheatsMembers | src/day20/mod.rs:102-126 | the cheats found are exactly the two-step jumps saving more than 100 steps of the path |
| Day20.ShortcutsFromStep | src/day20/mod.rs:131-135 | one more later cell adds exactly its shortcut, if any |
| Day20.ShortcutsUptoMembers | src/day20/mod.rs:130-136 | the shortcuts gathered over the first n cells are those starting at them |
| Day20.CheatsP2Members | src/day20/mod.rs:128-140 | exactly the pairs of path cells at least min_save apart on the path, within 20 steps of each other, whose remaining gap on the path is at least their distance |
| Day20.FindCheatsP2 | src/day20/mod.rs:128-140 | None where the slice panics (a path shorter than min_save); otherwise exactly those shortcuts |
| Day20.AddShortcutsFrom | src/day20/mod.rs:131-136 | one cell's loop adds exactly its shortcuts |
| Day20.StepParity | src/day20/mod.rs:131-135 | one step flips the parity of the distance |
| Day20.Parity | src/day20/mod.rs:131-135 | along a path of unit steps, index gap and distance have the same parity |
| Day20.PartOneInPartTwo | src/day20/mod.rs:102-140 | every part 1 cheat is a part 2 shortcut at distance 2 |
| Day20.PartTwoInPartOne | src/day20/mod.rs:102-140 | every part 2 shortcut at distance 2 is a part 1 cheat |
| Day20.PartOneIsPartTwo | src/day20/mod.rs:102-140 | on a track of unit steps, the part 1 cheats are exactly the part 2 shortcuts at distance 2 |
| Day21.DigitValue | src/day21/mod.rs:33 | a value exactly for decimal digits, and below 10 |
| Day21.DigitChars | src/day21/mod.rs:33 | the digit characters of the code, and nothing else |
| Day21.ParseCodeDigitsOnly | src/day21/mod.rs:31-35 | non-digits are ignored |
| Day21.ParseCodeAppend | src/day21/mod.rs:31-35 | the value of concatenated codes is the first shifted by the second's digit count plus the second, as decimal reading promises |
| Day21.ParseCodeBound | src/day21/mod.rs:31-35 | the value is below 10 to the number of digits |
| Day21.KeypadCoord | src/day21/mod.rs:108-124 | a position exactly for the twelve keypad buttons, on the 3 × 4 pad |
| Day21.KeypadLayout | src/day21/mod.rs:108-124 | the keypad layout is one-to-one |
| Day21.DirpadCoord | src/day21/mod.rs:126-136 | a position exactly for the six direction-pad buttons, on the 3 × 2 pad |
| Day21.DirpadLayout | src/day21/mod.rs:126-136 | the direction-pad layout is one-to-one |
| Day21.Start | src/day21/mod.rs:64 | the arm starts on the pad's 'A' |
| Day21.Gap | src/day21/mod.rs:63 | the pad's gap is its '#' position |
| Day21.FollowOffset | src/day21/mod.rs:82-88 | following arrows moves by the arrow counts along each axis |
| Day21.MovesCounts | src/day21/mod.rs:71-77 | the move list holds the right numbers of each arrow |
| Day21.MovesArrows | src/day21/mod.rs:73-77 | the move list is made of arrows |
| Day21.MovesReach | src/day21/mod.rs:71-84 | every rearrangement of the move list has Manhattan-distance length and leads to the target |
| Day21.SafeAvoidsGap | src/day21/mod.rs:81-91 | the filter accepts exactly the orders that never stand on the gap |
| Day21.Avoids | src/day21/mod.rs:81-91 | the loop answers exactly whether the order avoids the gap |
| Day21.CandidatesWalk | src/util.rs:469-488 | the candidates are (distance)! orders, each leading to the target in the least number of moves |
| Day21.AlongFrom | src/day21/mod.rs:66-101 | the fold adds one button's cheapest cost to the rest, and fails where the source panics |
| Day21.Plus | src/day21/mod.rs:99 | adding to a failed sum fails |
| Day21.Min | src/day21/mod.rs:96 | the minimum is a member and no larger than any member |
| Day21.MinSnoc | src/day21/mod.rs:96 | one more value lowers the minimum exactly when smaller |
| Day21.CostsSnoc | src/day21/mod.rs:80-95 | an unsafe order adds no cost; a safe one adds its cost one level up |
| Day21.CostsNoneExtends | src/day21/mod.rs:80-95 | a failure stays a failure |
| Day21.CostsMembers | src/day21/mod.rs:80-95 | the costs are exactly those of the safe orders |
| Day21.CostsNone | src/day21/mod.rs:80-95 | the costs fail exactly when some safe order's cost fails |
| Day21.ShortestIsMinimum | src/day21/mod.rs:79-97 | fails exactly when no order is safe (the unwrap panics) or a safe order's cost fails; otherwise it is some safe order's cost and no safe order costs less |
| Day21.PressesAtLeast | src/day21/mod.rs:37-106 | typing a sequence takes at least its length in presses |
| Day21.AlongAtLeast | src/day21/mod.rs:66-101 | the fold's sum is at least the sequence's length |
| Day21.ShortestAtLeast | src/day21/mod.rs:79-97 | moving between two buttons and pressing takes more presses than their distance |
| Day21.CostsAtLeast | src/day21/mod.rs:80-95 | each order's cost exceeds its length |
| Day21.Cache.constructor | src/day21/mod.rs:9 | the cache starts empty and valid |
| Day21.CountButtonPresses | src/day21/mod.rs:37-106 | the presses needed at this depth, as the recursive specification defines them; the cache stays correct, only grows, and gains the entry |
| Day21.PressAlong | src/day21/mod.rs:66-101 | the fold over the sequence from the pad's 'A' computes the specification's sum |
| Day21.AlongStops | src/day21/mod.rs:66-101 | the fold fails where the next button is unknown or no safe order reaches it |
| Day21.AlongAdvance | src/day21/mod.rs:66-101 | the fold moves to the next button, adding the cheapest cost of moving there and pressing it |
| Day21.Collect | src/day21/mod.rs:73-77 | the moves are copied into a fresh buffer for permuting |
| Day21.ShortestFrom | src/day21/mod.rs:69-97 | the cheapest safe way to move to the next button and press it, as specified |
| Day21.CheapestFrom | src/day21/mod.rs:80-96 | the least cost over the given orders, as specified |
| Day22.MixBits | src/day22/mod.rs:53-56 | each bit of a mix is set exactly when the two inputs' bits differ (exclusive or) |
| Day22.MixTwice | src/day22/mod.rs:53-56 | mixing twice with the same value gives back the original |
| Day22.XorSelf | src/day22/mod.rs:53-56 | a value mixed with itself is zero |
| Day22.Prune | src/day22/mod.rs:58-61 | the result is below 16777216, leaves smaller values alone and differs from the input by a multiple of 16777216 |
| Day22.Evolve | src/day22/mod.rs:43-47 | the next secret number stays below 16777216 |
| Day22.IterateAdd | src/day22/mod.rs:49-51 | evolving a steps and then b steps is evolving a + b steps |
| Day22.IterateBound | src/day22/mod.rs:49-51 | after at least one step the number is below 16777216 |
| Day22.Evolve2000 | src/day22/mod.rs:49-51 | the 2000th secret number is below 16777216 |
| Day22.Price | src/day22/mod.rs:65-69 | a price is a single decimal digit |
| Day22.PriceChanges | src/day22/mod.rs:63-75 | 2000 entries; entry i holds the (i+1)-th price and its difference from the previous price |
| Day22.ChangesTelescope | src/day22/mod.rs:63-75 | the first j changes add up to the j-th price minus the starting price |
| Day22.Sequences | src/day22/mod.rs:77-84 | one window per four consecutive changes, none for fewer than four |
| Day22.SequencesWindows | src/day22/mod.rs:77-84 | window i holds changes i to i + 3 and the price after the last |
| Day22.FirstPriceIsFirst | src/day22/mod.rs:25-29 | the first price recorded for a key is that of its earliest window, and none when no window has the key |
| Day22.FirstPrices | src/day22/mod.rs:23-29 | the per-buyer map holds exactly the keys seen, each with the price at its first occurrence |
| Day22.FirstPriceSnoc | src/day22/mod.rs:25-29 | a later window never overwrites a recorded key |
| Day22.FirstPriceAppend | src/day22/mod.rs:25-29 | first prices of a concatenation favour the first part |
| Day22.TotalUnseen | src/day22/mod.rs:31-33 | a key no buyer has totals zero |
| Day22.SeenSnoc | src/day22/mod.rs:22-34 | a key is seen among one more buyer exactly when seen before or at that buyer |
| Day22.AddPrices | src/day22/mod.rs:31-33 | the totals gain the buyer's keys and each total grows by the buyer's first price, whatever the hash order |
| Day22.MaxValue | src/day22/mod.rs:36 | the largest value of the map, attained by some key; None for an empty map, where unwrap panics |
| Day22.FindBestSequence | src/day22/mod.rs:19-37 | the highest total of first-match prices over all keys seen; None exactly when no buyer has a window |
| Day23.BelowIrreflexive | src/day23/mod.rs:46 | no name is below itself |
| Day23.BelowTransitive | src/day23/mod.rs:46-53 | the name order is transitive |
| Day23.BelowTotal | src/day23/mod.rs:46-53 | any two different names are ordered |
| Day23.SplitOnce | src/day23/mod.rs:34 | None exactly when the separator is absent (the unwrap panics); otherwise the line is the part before, the separator and the rest, split at the first separator |
| Day23.AddLink | src/day23/mod.rs:35-36 | records the link in both directions and nothing else, keeping the map symmetric |
| Day23.ParseStep | src/day23/mod.rs:33-37 | one more line extends the recorded links by that line's link |
| Day23.ParseInput | src/day23/mod.rs:30-40 | None exactly when some line lacks '-'; otherwise a symmetric map whose links are exactly those of the lines |
| Day23.TrioPairwise | src/day23/mod.rs:55-62 | a trio's names are distinct and pairwise linked |
| Day23.FindTrios | src/day23/mod.rs:42-69 | exactly the triangles in increasing name order with a name starting with 't' |
| Day23.TriosFrom | src/day23/mod.rs:44-66 | adds exactly the trios whose smallest name is the given computer |
| Day23.TriosThrough | src/day23/mod.rs:45-64 | adds exactly the trios whose two smallest names are the given pair |
| Day23.CliqueStep | src/day23/mod.rs:84-85 | adding a computer linked to the whole clique keeps a clique |
| Day23.ExtendersStep | src/day23/mod.rs:90-97 | after adding v, the computers that can still join are the former ones linked to v |
| Day23.BranchCovers | src/day23/mod.rs:83-98 | a clique containing v draws its other new members from v's neighbours |
| Day23.BranchEntry | src/day23/mod.rs:83-98 | the recursive call starts from a clique with its candidate and excluded sets splitting the new extenders, on a smaller candidate set |
| Day23.BranchResult | src/day23/mod.rs:87-98 | a result of the branch is a result of the current call |
| Day23.BaseCase | src/day23/mod.rs:77-79 | with nothing to consider or exclude the clique is maximal and is the only answer |
| Day23.Finished | src/day23/mod.rs:77-107 | once every candidate is handled, no maximal extension is larger than the best found |
| Day23.CoverStep | src/day23/mod.rs:99-104 | handling v and moving it to the excluded set keeps the best found at least as large as every handled extension |
| Day23.FindMaxClique | src/day23/mod.rs:71-108 | a largest maximal clique extending the given one through the considered computers (Bron–Kerbosch), or empty when there is none |
| Day23.ExtendToMaximal | src/day23/mod.rs:15-20 | every clique grows into a maximal one |
| Day23.MaximumClique | src/day23/mod.rs:15-20 | started from every computer, the search returns a clique no clique is larger than |
| Day24.ParseGateType | src/day24/mod.rs:17-27 | "AND", "OR" and "XOR" name the three gates; any other name is an error |
| Day24.LastDriverIsLast | src/day24/mod.rs:76-79 | the gate kept for a wire is the last gate driving it, none when no gate does |
| Day24.OutputGateMap | src/day24/mod.rs:76-79 | each output wire maps to the last gate driving it, and only driven wires are keys |
| Day24.ComputeValue | src/day24/mod.rs:113-135 | the wire's value as the gate equations define it: an initial value first, even on a wire a gate also drives, otherwise its gate on its inputs' values (None where an unwrap panics on an undriven wire); memoised values stay correct, are kept, and gain the wire |
| Day24.ZWires | src/day24/mod.rs:91-94 | the outputs of the gates, in gate order, that start with 'z': a wire is listed exactly when some gate outputs it and its name starts with 'z' |
| Day24.DropZ | src/day24/mod.rs:103 | every 'z' is removed |
| Day24.ParseInt | src/day24/mod.rs:103 | a number exactly for a non-empty run of digits with an optional sign; otherwise the unwrap panics |
| Day24.DigitChar | src/day24/mod.rs:143 | the decimal digit character of a digit |
| Day24.WireName | src/day24/mod.rs:143 | the prefix followed by the two-digit index |
| Day24.ZIndexOfName | src/day24/mod.rs:103 | the index read back from a z wire's name is the one it was written with |
| Day24.Readings | src/day24/mod.rs:91-101 | one (index, value) reading per z wire, None where any wire's value panics |
| Day24.Insert | src/day24/mod.rs:103 | inserting into a list sorted by descending index keeps it sorted and adds the element |
| Day24.SortDescending | src/day24/mod.rs:103 | sorted by descending index and a permutation of the readings |
| Day24.FoldBitsBound | src/day24/mod.rs:105-108 | the fold over n bits stays below 2^n |
| Day24.FoldBitsBinary | src/day24/mod.rs:103-108 | with the readings in descending index order, the fold is the binary number whose bit k is z wire k |
| Day24.SimulatedBound | src/day24/mod.rs:88-111 | the simulated output is below 2 to the number of z wires |
| Day24.InputIndex | src/day24/mod.rs:143 | an index below 45 exactly for the names x00 to x44 (or y00 to y44) |
| Day24.InputIndexNames | src/day24/mod.rs:143 | a recognised name is the name written for its index |
| Day24.InputIndexOfName | src/day24/mod.rs:143 | the name written for an index below 45 is recognised as that index |
| Day24.SetXFrom | src/day24/mod.rs:139-147 | after assigning x, the x inputs hold the bits of the value and everything else is unchanged |
| Day24.SetYFrom | src/day24/mod.rs:149-157 | after assigning y too, the inputs are exactly the original with both values written in |
| Day24.InputsAgree | src/day24/mod.rs:139-157 | writing both values leaves the wires that are not inputs untouched |
| Day24.UntouchedAgrees | src/day24/mod.rs:139-157 | writes that stop at a missing wire still touch only input wires, so the other wires, and x when y is written, keep their values |
| Day24.OrFoldBit | src/day24/mod.rs:203 | bit i of the or-fold is set exactly when some trial's sum and output differ at bit i |
| Day24.PrefixWrong | src/day24/mod.rs:203 | some trial gets bit i wrong exactly when an earlier one or the last one does |
| Day24.SetBits | src/day24/mod.rs:204-214 | the list holds exactly the indices of the set bits, in increasing order |
| Day24.Pow2 | src/day24/mod.rs:192-196 | 1 << e is 2^e |
| Day24.ZWiresSnoc | src/day24/mod.rs:91-94 | one more gate adds its output when it starts with 'z' |
| Day24.ZWiresPrefix | src/day24/mod.rs:91-94 | the z wires of the first gates are z wires of the whole list |
| Day24.ReadingsSnoc | src/day24/mod.rs:95-101 | one more z wire adds its reading, or fails when its value fails |
| Day24.MismatchesNext | src/day24/mod.rs:193-200 | one more trial records the pair and output exactly when the output is not the sum |
| Day24.RowStaysNone | src/day24/mod.rs:193-200 | once a trial panics, later trials of the row do too |
| Day24.RowsStayNone | src/day24/mod.rs:191-201 | once a row panics, so do the later rows |
| Day24.ReadZWires | src/day24/mod.rs:91-101 | the readings of the z wires in gate order, each computed through the shared memo |
| Day24.MoreReadingsNone | src/day24/mod.rs:91-101 | a panic on an earlier z wire makes the whole simulation panic |
| Day24.ReadBits | src/day24/mod.rs:105-108 | the loop computes the fold of the sorted readings |
| Day24.Circuit.constructor | src/day24/mod.rs:76-85 | the circuit keeps the inputs and gates and indexes each gate by its output |
| Day24.Circuit.Simulate | src/day24/mod.rs:88-111 | the number formed by the z wires' values, as specified; None where the source panics |
| Day24.Circuit.SetWires | src/day24/mod.rs:139-157 | reports a panic exactly when one of the 45 input wires of the prefix has no initial value; otherwise writes the low 45 bits of the value into them; no other wire changes either way |
| Day24.Circuit.SetX | src/day24/mod.rs:139-147 | panics exactly when one of x00 to x44 is missing; otherwise writes the value's low 45 bits into them; nothing else changes |
| Day24.Circuit.SetY | src/day24/mod.rs:149-157 | panics exactly when one of y00 to y44 is missing; otherwise writes the value's low 45 bits into them; nothing else changes |
| Day24.Circuit.FindWrongBits | src/day24/mod.rs:189-215 | the indices of the bits where some single-bit addition trial differs from the sum; None where a trial or an input write panics; afterwards x and y both hold 2^44 and every other wire is as before |
| Day24.Circuit.AllTrials | src/day24/mod.rs:191-201 | the mismatching trials of all 45 × 45 pairs of single bits, None when an input wire is missing; the inputs are left at the last trial |
| Day24.Circuit.TrialRow | src/day24/mod.rs:192-200 | one row of trials for a fixed x bit extends the mismatches by that row, None when an input wire is missing; the inputs are left at the row's last trial |
| Day24.Circuit.TrialColumns | src/day24/mod.rs:193-200 | with x set, the 45 trials of y = 2^0 to 2^44 extend the mismatches by that row, None exactly when a y wire is missing; y is left at 2^44 |
| Day24.Circuit.RunTrial | src/day24/mod.rs:194-196 | simulates with x and y set to the two values, leaving the other inputs as they were; None when a y wire is missing |
| Day25.RowHeight | src/day25/mod.rs:47-53 | row i gives a key 6 - i and a lock i, cast to u8; None where the key's subtraction underflows |
| Day25.ScanChars | src/day25/mod.rs:46-54 | scanning a line keeps five u8 heights, failing where column j is out of bounds |
| Day25.Scan | src/day25/mod.rs:44-55 | scanning the lines keeps five u8 heights |
| Day25.CharsStayNone | src/day25/mod.rs:46-54 | once a line's scan panics it stays failed |
| Day25.ScanStaysNone | src/day25/mod.rs:45-55 | once a schematic's scan panics it stays failed |
| Day25.ScanHeights | src/day25/mod.rs:44-55 | the nested loops compute the specified scan |
| Day25.ScanCharsColumn | src/day25/mod.rs:46-54 | a column is set only while still 0 and only by a character that differs from the first |
| Day25.ColumnHeight | src/day25/mod.rs:44-55 | a column's height is set by the first row whose character differs (unless that row gives 0), and stays 0 when none does |
| Day25.ColumnUnset | src/day25/mod.rs:44-55 | a column no row differs in keeps height 0 |
| Day25.ColumnSet | src/day25/mod.rs:44-55 | the first row that differs in a column sets its height, unless that height is 0 |
| Day25.LongLinePanics | src/day25/mod.rs:46-47 | a line longer than five characters panics |
| Day25.KeyHeightsAtMostSix | src/day25/mod.rs:47-53 | every key height is at most 6 |
| Day25.Parse | src/day25/mod.rs:33-65 | fails exactly when some schematic panics; otherwise the '.'-first schematics become keys, the rest locks, all five u8 heights, keys at most 6 |
| Day25.ParseInput | src/day25/mod.rs:33-65 | the loop over the schematics computes the specified parse |
| Day25.AllFit | src/day25/mod.rs:12 | true exactly when every column's key and lock heights sum to at most 6 |
| Day25.CountPotentialMatches | src/day25/mod.rs:8-19 | the number of (key, lock) pairs that fit |
| Day25.CountRow | src/day25/mod.rs:11-15 | the number of locks one key fits |
| Day25.RowMatchesRange | src/day25/mod.rs:11-15 | a key fits at most all the locks; all exactly when it fits each, none exactly when it fits none |
| Day25.MatchesBound | src/day25/mod.rs:8-19 | at most keys × locks pairs fit |
| Day25.SmallHeightsNoOverflow | src/day25/mod.rs:12 | with key heights at most 6 and lock heights below 250, no u8 sum overflows |
| Day25.MatchesAll | src/day25/mod.rs:8-19 | the count is keys × locks exactly when every pair fits |
| Day25.MatchesNone | src/day25/mod.rs:8-19 | the count is 0 exactly when no pair fits |

## Left out

- The `run` functions read the puzzle input embedded in the binary and print the answers. The reading and printing are left out. The rest of their logic is modelled only where a row of the table cites it.
- Day 3 and `main.rs` are not part of this model. Day 3 is a thin wrapper around a regular-expression library; `main.rs` only dispatches on the day number.
- Text parsing is not modelled where it only splits lines and reads numbers or characters. The models start from the parsed values. This covers `parse_input` of days 2, 5, 6, 7, 10, 11, 13, 14, 15, 18, 19, 21 and 22; `FromStr` and the line parsers of day 13; `register_value` of day 17; the line splitting of day 24; the blank-line splitting and trimming of day 25; and `parse_char_grid` in the utilities.
- The parsers that decide something are modelled: days 1, 8, 9, 20 and 23, day 24's gate types and wire names, and day 25's schematic scan.
- `Counter::iter`, `Counter::from_iter` and the `FromIterator` impl are not modelled separately. `from_iter` is `new` followed by `count_all`, and both are modelled.
- The `Display` and `Into<isize>` impls of `Ratio` are not modelled. `into` is the same division as `as_integer`.
- `Ratio::new` is the datatype constructor `Util.Ratio`.
- `Direction::is_vertical` and day 8's `is_within` are the predicates `Util.IsVertical` and `Day08.IsWithin`, with no contract of their own.
- The `Default` impls of day 18's cell and day 19's prefix tree are not modelled; they only give the empty value.
- Day 7's `remove_matching_end` and day 11's `number_len` count decimal digits with a floating-point `log10`. The model uses an exact integer digit count, `Arith.DigitCount`, and does not model floating-point rounding on very large values.
- Day 14's `show_map`, `is_maybe_christmas_tree` and the part 2 search loop that calls it are not modelled. They look for a picture by eye and by heuristic, and print the map.
- Day 20's `get_path` prints diagnostics before it panics. The prints are left out; the panic is the stuck case of `Day20.GetPath`.
- Day 24's `make_dot` is not modelled. It only writes a Graphviz description of the circuit.
- Machine-width integers (`usize`, `isize`, `u8`, `u128`) are unbounded here. Wrap-around is not modelled except where a member states it: day 17's shift fault, day 25's `u8` casts, and day 22's pruning, which keeps numbers below 2^24.
- Day 16's and day 18's priority-queue searches pop a maximal entry of the heap's order, modelled as a choice among the maximal entries. The proofs state what the stored costs mean once the queue is empty. They do not claim that each state is settled only once.
- Day06.TracePath: the walk carries a fuel bound. `None` means the guard was still on the grid when the fuel ran out. A guard that loops forever in the source is not modelled beyond that bound.
- Day17.Exec, Day17.Computer.Run and Day17.Computer.FindValuesOutputting: runs carry a fuel bound. A program that never leaves its instructions stops with `OutOfFuel` instead of running forever.
- Day05.Part2: the total is stated only when every update complies, and when the source panics. Otherwise it depends on the hash order in which the topological sort picks ready pages, so it is not given as a formula. Each reordering's properties are proved by Day05.FixNonCompliant.
- Day09.MoveFile: the contract says the file stays or moves to a free span wholly to its left. It does not say that the span is the leftmost one large enough.
- Day09.CompactWholeFiles: the contract states only that the disk keeps its multiset of cells.
- Day15.Push, Day15.PushLarge, Day15.PushHalves, Day15.PushBoth, Day15.MoveRobot, Day15.Walk, Day15.MoveRobotLarge, Day15.WalkLarge and the `Day15.Warehouse` methods TryMove, TryMoveLargerCrates, TryHalves, MoveAll and MoveAllLarger: require a warehouse whose border is all walls, with the robot off the border. On a warehouse with an open edge the source's unsigned step underflows or its index leaves the grid, and that panic is not modelled.
- Day24.ComputeValue, Day24.Readings, Day24.ReadZWires, Day24.Simulated, Day24.Circuit.Simulate, Day24.Circuit.FindWrongBits, Day24.Circuit.AllTrials, Day24.Circuit.TrialRow, Day24.Circuit.TrialColumns and Day24.Circuit.RunTrial: require a ranking of the gates that evaluating the z wires goes through, with each such gate's inputs ranked lower. Gates on initialised wires and cycles that no z wire reaches are allowed. A cycle that a z wire reaches makes the source recurse without end, and that is not modelled.
- Day13.FindPrize: requires a non-zero determinant. With a zero determinant the source's remainder by zero panics, and that panic is not modelled.
- Day25.CountPotentialMatches: requires that no key and lock height sum overflows `u8`. Day25.SmallHeightsNoOverflow shows this holds for parsed keys and locks of ordinary height.
- Day23.FindMaxClique and Day23.MaximumClique: require that no computer is linked to itself. A line "a-a" would link a computer to itself. That computer then stays among its own candidates, so the source's recursion need not shrink its candidate set. That case is not modelled.
- Util.IsMultipleOf, Util.IsInteger and Util.AsInteger: require that no divisor the source reaches is zero. A zero divisor makes the source's `%` or `/` panic, and that panic is not modelled.
- Util.Permutations: requires n ≤ 1 or n ≤ the slice's length. A larger n makes the source's `swap` index past the slice and panic, and that panic is not modelled.
- Day01.ParseInput: requires at least two space-separated numbers per line. With one, the source's `last().unwrap()` panics; a field that is not a number also panics there. Neither panic is modelled.
- Day04.GridIter.From, Day04.CountXmas and Day04.CountXMas: require a grid of at least one row. On an empty grid the source's `src[0]` panics, and that panic is not modelled.
- Day05.Middle and Day05.Part1: require every complying update to be non-empty. An empty update complies, and taking its middle page panics the source; that panic is not modelled.
- Day09.ParseInput: requires a map made only of digits. Any other character makes the source's `to_digit(10).unwrap()` panic, and that panic is not modelled.
- Day09.CompactRawDisk: requires at least one occupied cell. On a disk of free cells only, the source's backward search for an occupied cell underflows and panics; that panic is not modelled.
- Day09.CompactWholeFiles: requires a non-empty disk. On an empty disk the source's `disk.len() - 1` underflows and panics; that panic is not modelled.
- Day10.TrailHeadRating: requires a rectangular map. On a ragged map the source's unchecked `map[y - 1][x]` and `map[y + 1][x]` panic when the neighbouring row is too short. They do not panic when the row is long enough. Ragged maps are not modelled either way.
- Day13.TotalCost: requires a non-zero determinant for every machine, as Day13.FindPrize does.

## Findings

| source | as written | input that shows it | evidently intended | confidence | as-written member | corrected member |
|---|---|---|---|---|---|---|
| src/day07/mod.rs:81-93 | an operand the pattern cannot undo skips to the next operand (`continue 'outer` names the operand loop), so the pattern is not abandoned | target 3 with operands [3, 5]: 5 is skipped and 3 is undone, leaving 0 (Day07.SkippingAcceptsUnreachable) | an operand that cannot be undone rejects the whole pattern, so the equation holds only when some choice of +, * and concatenation evaluates to the target | not executed | Day07.CanEquateP2AsWritten | Day07.CanEquateP2 |
| src/day08/mod.rs:91-96 | harmonic antinodes are collected by walking outward from each antenna, away from its partner | a 4 × 1 map with antennae at (0,0) and (3,0): (1,0) is in line with both but never reached (Day08.OutwardWalkMissesBetween) | every in-bounds grid point in line with two antennae of the same frequency, including those between them | not executed | Day08.FindHarmonicAntinodes | Day08.FindLineAntinodes |
| src/day16/mod.rs:152-155 | the backward pass starts only from the end facing right and facing up | a maze whose only route enters the end moving down counts 1 cell instead of 5 (Day16.DownAsWritten) | start the backward pass from the end in every facing that reaches it at the best cost | not executed | Day16.SolveAsWritten | Day16.SolveAllFacings |
