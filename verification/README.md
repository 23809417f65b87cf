# Diagonal Sudoku solver: constraint propagation and depth-first search

This project models the solving engine of a diagonal Sudoku solver written in
Python (`solution.py`). The model is written in Dafny and its properties are
proved.

In the solver's own terms:
- A puzzle is a dictionary `values` that maps each of the 81 boxes (`A1` … `I9`) to a string of candidate digits.
- There are 29 units: 9 rows, 9 columns, 9 3×3 squares and the 2 main diagonals.
- Two boxes are peers when some unit holds both.
- The three rules change boxes through `assign_value`, which records a snapshot of the board whenever a box is set to a single character. The branch step of `search` writes the box of a copied board directly and records nothing.

The engine has three reduction rules:
- `eliminate` removes each solved box's digit from its peers.
- `only_choice` fixes a digit in the single box of a unit that can still hold it.
- `naked_twins` removes the value shared by two two-candidate boxes from the rest of their unit.

`reduce_puzzle` repeats `eliminate` and `only_choice` until the number of
solved boxes stops changing. It fails when a round ends with a box that has no candidates left.
`search` reduces the board, then branches on the unsolved box with the fewest
candidates. `solve` parses an 81-character grid and runs the search.

How the model is organised:
- Boxes are indices `0..80` in row-major order. `Topology.Name` gives each index its Python name, and index order is name order.
- A board is a sequence of 81 candidate strings.
- The snapshot log is an ordinary value, `Boards.State.log`, threaded through every operation instead of a process-wide list.
- Every rule is a pure function from a state to a state. Each Python loop is one recursive function.

Every rule only shrinks boxes: each candidate string becomes a subsequence of
what it was (`Boards.Shrinks`). Two things follow:
- Termination, measured by the number of solved boxes for `reduce_puzzle` and by the total number of candidates for `search`.
- Soundness: no rule removes the digit that a valid solution (`Solutions.ValidSolution`) puts in a box.

The main end-to-end results:
- A board that `solve` returns is a valid diagonal Sudoku that keeps every given.
- `solve` finds a board whenever some valid solution agrees with the givens.

Files and modules:
- `topology.dfy` is module `Topology`.
- `candidates.dfy` is module `Candidates`.
- `board.dfy` is module `Boards`.
- `solutions.dfy` is module `Solutions`.
- `eliminate.dfy` is module `EliminateRule`.
- `only_choice.dfy` is module `OnlyChoiceRule`.
- `naked_twins.dfy` is module `NakedTwinsRule`.
- `reduce.dfy` is module `Reduce`.
- `search.dfy` is module `Search`.

## Model

| member | source | states |
|---|---|---|
| `Topology.Cross` | solution.py:49-52 | the cross product of `a` and `b` has `|a|·|b|` entries |
| `Topology.CrossIndex` | solution.py:49-52 | entry `i·|b|+j` of `cross(a, b)` is `a[i] + b[j]`, so `a` varies slowest |
| `Topology.BoxesAreNamedInIndexOrder` | solution.py:55 | `boxes = cross(rows, cols)` has 81 names, and box index `c` is its `c`-th entry |
| `Topology.IndexOrderIsNameOrder` | solution.py:190 | one box index is below another exactly when its name sorts before the other's, so "smallest name" is "smallest index" |
| `Topology.DigitsAreTheDigitChars` | solution.py:78 | the string '123456789' holds exactly the characters '1'..'9', each once |
| `Topology.Unitlist` | solution.py:57-62 | there are 29 units, and each holds 9 different boxes |
| `Topology.UnitlistMatchesSource` | solution.py:57-62 | box `i` of unit `k` is named as in the Python unitlist: rows, columns, squares, then the main and the anti diagonal, each in cross-product order |
| `Topology.UnitMembership` | solution.py:57-61 | a box lies in unit `k` exactly when its row and column put it on that row, column, square or diagonal |
| `Topology.Units` | solution.py:63 | `units[s]` lists exactly the units that contain `s` |
| `Topology.PeersAreUnitMates` | solution.py:64 | `Topology.Peers(s)`, the set `peers[s]`, holds `p` exactly when `p ≠ s` and some unit holds both |
| `Topology.PeersSymmetric` | solution.py:64 | a box is never its own peer, and peerhood is symmetric |
| `Topology.UnitMatesArePeers` | solution.py:64 | any two different boxes of a unit are peers |
| `Topology.PeersByCoordinates` | solution.py:57-64 | the peers of `s` are the other boxes on its row, column, square or, when `s` lies on one, diagonal |
| `Topology.PeerList` | solution.py:108 | the peer visit order lists every peer of `s`, and only peers, each once |
| `Candidates.RemoveChar` | solution.py:109 | `s.replace(ch, '')` keeps exactly the characters of `s` other than `ch` and is no longer than `s` |
| `Candidates.StripContents` | solution.py:107-109 | `Candidates.Strip(s, digit)`, that is `s.replace(digit, '')` for a `digit` of at most one character keeps exactly the characters of `s` that are not `digit`; an empty `digit` keeps them all |
| `Candidates.StripIsSubseq` | solution.py:109 | a replacement only deletes characters and keeps the order of the rest |
| `Candidates.SubseqTrans` | solution.py:43 | deleting characters twice is deleting characters once, so shrinking composes |
| `Candidates.SubseqSameLength` | solution.py:43 | a string obtained by deletions that is as long as the original is the original |
| `Candidates.SingletonSubseq` | solution.py:127 | setting a box to one of its own candidates is a deletion of the others |
| `Boards.Assign` | solution.py:7-15 | `assign_value` sets `box` to `value` and leaves every other box alone; it appends the updated board to the log exactly when `len(value) == 1`, and otherwise leaves the log unchanged |
| `Boards.AssignRefines` | solution.py:12-14 | assigning a box a subsequence of its candidates shrinks the board and only extends the log |
| `Boards.ShrinksTrans` | solution.py:147-148 | a board shrunk twice is shrunk relative to the first one |
| `Boards.ShrinksSandwich` | solution.py:147-148 | a board that ends a sequence of shrinking steps equal to where it started was never changed in between |
| `Boards.SolvedCount` | solution.py:143-151 | the number of boxes with exactly one candidate, as the two counts of `reduce_puzzle` compute it, is at most 81 |
| `Boards.SolvedCountFull` | solution.py:185 | the solved count reaches 81 exactly when `Boards.Complete` holds, that is when every box has one candidate, the test `search` makes before returning |
| `Boards.SolvedCountMonotone` | solution.py:143-155 | if solved boxes stay solved, the count cannot fall, and an unchanged count means no box became solved |
| `Boards.TotalShrinks` | solution.py:181 | shrinking a board cannot raise its total number of candidates |
| `Boards.TotalDropsOnFix` | solution.py:194-195 | fixing an unsolved box to one digit strictly lowers the total number of candidates: the search's termination measure |
| `Boards.EmptyStaysEmpty` | solution.py:158 | once `Boards.HasEmpty` holds, that is some box has no candidates, it still holds after any shrinking |
| `Boards.GridValues` | solution.py:66-80 | box `i` gets the `i`-th grid character, except that '.' gets '123456789' |
| `Solutions.CompatibleHasNoEmpty` | solution.py:158 | a board some solution fits has no empty box, so `Boards.HasEmpty` is false for it |
| `Solutions.DistinctMembersArePermutation` | solution.py:57-62 | nine different digits are a permutation of '123456789' (the pigeonhole step) |
| `Solutions.SolutionUnitDistinct` | solution.py:57-62 | in a valid solution the nine boxes of a unit hold nine different digits |
| `Solutions.SolutionPeersDiffer` | solution.py:64 | in a valid solution two peers never hold the same digit |
| `Solutions.SolutionUnitHasDigit` | solution.py:120-127 | in a valid solution every unit holds every digit in some box |
| `Solutions.SolutionDigits` | solution.py:62 | every box of a valid solution holds a digit 1-9 |
| `Solutions.ConsistentCompleteIsValid` | solution.py:185-187 | a complete board of digits whose peers all differ spells out a solution in which every one of the 29 units is a permutation of 1-9 |
| `Solutions.GridValuesCompatible` | solution.py:77-78 | a valid solution fits the parsed grid exactly when it agrees with every given |
| `EliminateRule.ElimPeers` | solution.py:108-110 | removing a digit from a list of peers shrinks only those boxes, leaves the digit in none of them, and only extends the log |
| `EliminateRule.ElimPeersContents` | solution.py:108-110 | a listed peer keeps exactly the characters it held other than the digit, as `replace(digit, '')` does, even when it is listed twice |
| `EliminateRule.ElimPeersOnlyDigit` | solution.py:108-110 | a character the inner loop removes from a box is the eliminated digit, and the box is one of the listed peers |
| `EliminateRule.ElimBoxesOnlyPeerDigits` | solution.py:106-110 | a character the outer loop removes from a box was, at the start, the whole value of a swept box of which it is a peer |
| `EliminateRule.SolvedBoxes` | solution.py:104 | `solved_values` lists exactly the keys whose box has one candidate, and each of them once when the keys repeat nothing |
| `EliminateRule.ElimBoxes` | solution.py:106-110 | sweeping the listed boxes only shrinks the board and only extends the log |
| `EliminateRule.Eliminate` | solution.py:96-112 | `eliminate` only shrinks boxes and only appends to the log, whatever the key order |
| `EliminateRule.ElimBoxesClearsPeers` | solution.py:106-110 | after the sweep, a swept box that is still solved shares its digit with no peer |
| `EliminateRule.EliminateClearsPeers` | solution.py:104-110 | a box solved before `eliminate` and still solved after it has its digit in none of its peers |
| `EliminateRule.EliminateOnlyPeerDigits` | solution.py:96-112 | `eliminate` deletes a candidate from a box only when some peer of the box was solved with that digit at the start |
| `EliminateRule.ElimBoxesNoChange` | solution.py:106-110 | a sweep over a board where no solved box shares its digit with a peer changes no box |
| `EliminateRule.ElimBoxesUnchanged` | solution.py:106-110 | a sweep that changes no box found every swept digit already missing from the peers |
| `EliminateRule.EliminateFixpoint` | solution.py:96-112 | `eliminate` leaves the board unchanged exactly when no solved box shares its digit with a peer |
| `EliminateRule.EliminateKeepsSolution` | solution.py:106-110 | `eliminate` never removes the digit a valid solution puts in a box |
| `OnlyChoiceRule.Places` | solution.py:123 | `dplaces` lists exactly the boxes of the unit that still hold the digit |
| `OnlyChoiceRule.PlacesOfOnlyPlace` | solution.py:123-126 | when exactly one box of a unit holds the digit, `dplaces` is that one box |
| `OnlyChoiceRule.Step` | solution.py:121-127 | when exactly one box of the unit can hold the digit, that box becomes the digit and the log gains that board; otherwise nothing changes |
| `OnlyChoiceRule.StepFills` | solution.py:126-127 | a step only shrinks, and changes a box only from several candidates to one of them |
| `OnlyChoiceRule.StepDigits` | solution.py:121-127 | the digit loop over one unit only shrinks boxes, only appends to the log, and changes a box only from several candidates to one of them |
| `OnlyChoiceRule.StepUnits` | solution.py:120-127 | the unit loop from unit `k` to the last one only shrinks boxes, only appends to the log, and changes a box only from several candidates to one of them |
| `OnlyChoiceRule.OnlyChoice` | solution.py:114-129 | `only_choice` only shrinks boxes and only appends to the log; every box it changes goes from several candidates to one of its own |
| `OnlyChoiceRule.StepDigitsFixpoint` | solution.py:121-127 | the digit loop of one unit changes nothing exactly when each of those digits with a single place in the unit is already decided there |
| `OnlyChoiceRule.StepUnitsFixpoint` | solution.py:120-127 | the unit loop from unit `k` on changes nothing exactly when every digit with a single place in those units is already decided |
| `OnlyChoiceRule.OnlyChoiceFixpoint` | solution.py:114-129 | `only_choice` leaves the board unchanged exactly when no unit has a digit whose single place is still undecided |
| `OnlyChoiceRule.StepKeepsSolution` | solution.py:123-127 | a step never removes the digit a valid solution puts in a box |
| `OnlyChoiceRule.OnlyChoiceKeepsSolution` | solution.py:120-127 | `only_choice` never removes the digit a valid solution puts in a box |
| `NakedTwinsRule.TwoOptionBoxes` | solution.py:28 | `boxes_with_two_options` lists exactly the unit's boxes with two candidates, each once |
| `NakedTwinsRule.RemoveDigits` | solution.py:42-44 | removing each character of a value from one box keeps exactly its other characters and touches no other box |
| `NakedTwinsRule.ClearOthers` | solution.py:39-44 | every box of the unit except the two twins loses exactly the twins' characters; the twins and boxes outside the unit are untouched |
| `NakedTwinsRule.TwinPair` | solution.py:34-44 | when the two boxes hold equal values, every other box of the unit loses exactly those characters; otherwise nothing changes |
| `NakedTwinsRule.TwinAlts` | solution.py:33-44 | comparing one box with its later partners only shrinks boxes of that unit |
| `NakedTwinsRule.TwinPairs` | solution.py:30-44 | comparing all listed pairs of a unit only shrinks boxes of that unit |
| `NakedTwinsRule.TwinUnit` | solution.py:26-44 | one unit's pass only shrinks boxes of that unit and only appends to the log |
| `NakedTwinsRule.TwinUnits` | solution.py:26-44 | the unit loop from unit `k` to the last one only shrinks boxes and only appends to the log |
| `NakedTwinsRule.NakedTwins` | solution.py:17-46 | `naked_twins` only shrinks boxes and only appends to the log |
| `NakedTwinsRule.TwinPairsClears` | solution.py:30-44 | two listed boxes with equal values that are still unchanged after the pair loop leave their characters in no other box of the unit |
| `NakedTwinsRule.NakedTwinsClearUnit` | solution.py:28-44 | two boxes of a unit with the same two candidates, still holding them after the unit's pass, leave neither digit in any other box of the unit |
| `NakedTwinsRule.TwinPairEmptiesSolvedBox` | solution.py:39-44 | the clearing also reaches a solved box holding one of the twins' digits, which becomes '' |
| `NakedTwinsRule.TwinDigitsAreTheirs` | solution.py:34-36 | twin boxes of at most two candidates hold exactly the two digits a valid solution puts in them |
| `NakedTwinsRule.TwinPairKeepsSolution` | solution.py:34-44 | clearing for a twin pair never removes the digit a valid solution puts in a box |
| `NakedTwinsRule.NakedTwinsKeepsSolution` | solution.py:17-46 | `naked_twins` never removes the digit a valid solution puts in a box |
| `Reduce.Round` | solution.py:147-148 | one round (`eliminate`, then `only_choice`) only shrinks boxes and only appends to the log |
| `Reduce.RoundKeepsSolved` | solution.py:143-155 | a round that empties no box cannot lower the solved count; if the count is unchanged, no box became solved |
| `Reduce.StalledOnlyChoice` | solution.py:150-155 | in a stalled round with no empty box, `only_choice` changed nothing |
| `Reduce.StalledRound` | solution.py:140-161 | the board of a stalled round with no empty box is a fixpoint of both rules: no solved box shares its digit with a peer, and no digit has an undecided single place |
| `Reduce.ReducePuzzle` | solution.py:131-161 | `reduce_puzzle` terminates; a board it returns is a shrinking of the input, has no empty box, and is a fixpoint of `eliminate` and `only_choice`; a board that already has an empty box gives `False` |
| `Reduce.RoundKeepsSolution` | solution.py:147-148 | a round never removes the digit a valid solution puts in a box |
| `Reduce.ReduceKeepsSolution` | solution.py:140-161 | when a valid solution fits the input, `reduce_puzzle` returns a board, and that board still fits the solution |
| `Search.MinAmong` | solution.py:190 | among the first `n` boxes it finds one with more than one candidate, minimal by (count, position), exactly when one exists |
| `Search.MinRemaining` | solution.py:190 | the branch box has more than one candidate, and no box with more than one has fewer, or as many and an earlier position |
| `Search.MinRemainingIsTupleMin` | solution.py:190 | the branch box is the minimum of the Python tuples `(len(values[s]), s)`, comparing box names |
| `Search.IncompleteHasChoice` | solution.py:185-190 | after a successful reduction that is not complete, some box has more than one candidate, so `min` has something to choose |
| `Search.Search` | solution.py:163-198 | `search` terminates; a board it returns is complete, no two peers share a digit, and every box is one of the input box's candidates; the log is only extended |
| `Search.TryBranches` | solution.py:193-198 | each branch sets the box to one of its own candidates, and a board the branches return is complete, peer-consistent and a shrinking of the parent |
| `Search.SearchFindsSolution` | solution.py:163-198 | when a valid solution fits the board, `search` returns a board |
| `Search.TryBranchesFindsSolution` | solution.py:193-198 | if the solution's digit for the branch box is still to be tried, some branch succeeds |
| `Search.AllCells` | solution.py:78 | the dictionary built by `grid_values` has every box as a key, in `boxes` order |
| `Search.Solve` | solution.py:200-210 | a board `solve` returns is complete, has no two peers sharing a digit, and keeps every given of the grid |
| `Search.SolveIsValid` | solution.py:200-210 | for a grid of '.' and digits, a board `solve` returns spells out a valid diagonal Sudoku (every unit a permutation of 1-9) that agrees with every given |
| `Search.SolveFindsSolution` | solution.py:200-210 | when a valid diagonal Sudoku agrees with every given of the grid, `solve` returns a board |

## Left out

- `display` (solution.py:82-94) only prints the board, so it is not modelled.
- The `__main__` block and the `visualize` call (solution.py:212-276) are demo I/O and a foreign library.
- `assignments` is a process-wide list in the source. Here the log is a value passed in and returned. A failed branch's snapshots stay in the returned log, as they stay in the global list.
- `eliminate` iterates `values.keys()`. That dictionary order is a parameter `keys`, and every property holds for any order that lists each box once. `solve` uses the `boxes` order, which is the order `grid_values` inserts keys in.
- The iteration order of the sets `peers[box]` (solution.py:108) and `set(unit).difference(twins)` (solution.py:39-41) is fixed to ascending index and unit order. Each box in those loops is visited once, and what it ends up holding does not depend on when the other boxes are visited, so the final board and the number of log entries do not depend on this order. The order of the intermediate snapshots, and what each of them holds, does.
- The rules and `reduce_puzzle` update the caller's dictionary in place (solution.py:12, 147-148); the model returns new values instead. No caller can tell the difference, because every call site either uses the returned value or works on a copy.
- EliminateRule.SolvedBoxes: the contract states which keys are listed and that none repeats, not that they keep the key order; no property of the model depends on that order.
- `naked_twins` is not called by `reduce_puzzle` or `search` in the source. It is modelled as a stand-alone rule, the way the source defines it.
- `search` fails with `False` (solution.py:184) or by falling off the loop with `None` (after solution.py:198). Both are the one `None` of `Reduce.Option`.
- Reduce.ReducePuzzle: the contract does not name the round whose board had an empty box. Its `False` case is described through `Reduce.ReduceKeepsSolution`: no valid solution fits a board it rejects. A board that already has an empty box is rejected.
- NakedTwinsRule.NakedTwinsClearUnit: assumes the two twins still hold their value after the unit's pass. On a board with no solution, an earlier pair of the same unit can strip a twin first. The twins' later comparison then fails, and the unconditional statement is false.
- `grid_values` asserts that the grid has 81 characters (solution.py:77) and raises `AssertionError` otherwise. `Boards.GridValues` and `Search.Solve` instead require an 81-character grid; the error path is not modelled.
- Boards.SolvedCount: its own contract only bounds the count by 81. What it counts is stated by `Boards.SolvedCountFull` and `Boards.SolvedCountMonotone`.
- Grid characters other than '.' and the digits are accepted as the source accepts them. Validity (`Search.SolveIsValid`) is only claimed for grids made of '.' and 1-9.
