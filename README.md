# SudokuSolver engine in Dafny

A model of the solving engine of a 9x9 Sudoku solver with two stages:

- an AC-3 propagator that narrows each cell's candidate list;
- a depth-first search with minimum-remaining-values selection and forward checking, run on AC-3's output.

The model also covers the puzzle-batch manager both stages read from and write to.

Cells are `Pos(row, col)` with 0-based coordinates, so the key `"A1"` is `Pos(0, 0)`. Candidate lists are `seq<int>` rather than sets, because both solvers depend on list order.

| file | module | models |
|---|---|---|
| `seqs.dfy` | `Seqs` | `list.pop(list.index(x))` as `RemoveFirst`, duplicate-freedom, and "obtained by deleting elements" (`SubSeq`) |
| `grid.dfy` | `Grid` | cells, the peer relation, domain maps, what a solution of a puzzle is, and the candidate count that makes AC-3 terminate |
| `puzzle_manager.dfy` | `Puzzles` | parsing a line of 81 digits, the initial domains, and the `PuzzleManager` class with its `puzzles` list and cursor |
| `constraints.dfy` | `Constraints` | `get_constraints`: the 20 arcs of a cell in the order the source lists them (column, then row, then the rest of the box) |
| `constraint_solver.dfy` | `ConstraintSolver` | `remove_inconsistent_values`, seeding the worklist, the LIFO worklist loop, the singleton check and `ac3` |
| `backtracking_solver.dfy` | `BacktrackingSolver` | `min_constraing_val`, `forward_checking`, `recursive_backtracking` and `backtracking` |

Several behaviours of the code are kept as written:

- **Skipping during revision.** `remove_inconsistent_values` pops from the list it is iterating over, so the element after each popped one is never examined. The model walks the list with an index that always advances (`ConstraintSolver.Sweep`). Consequences:
  - When the constraining list is non-empty and the revised list has no repeats, the result is still exact (`SweepExact`).
  - When the constraining list is empty, a duplicate-free list keeps its odd-indexed elements instead of being emptied (`SweepEmptyFrom`).
- **Seeding only from blank cells.** The worklist is seeded only with arcs from cells whose digit is 0. An arc between two given cells is queued only after one of the two lists shrinks. For that reason the propagation invariant (`Pending`) exempts such arcs, and the results state the peer-difference property only for pairs with at least one blank cell.
- **Abandoning a cell.** `recursive_backtracking` returns False for the whole call as soon as forward checking fails for one value. It does not try the next value (`FirstForwardFailure`).
- **Exceptions.** The code raises in three places, and each one is an explicit outcome (`BacktrackingSolver.Crash`):
  - When every open cell has 9 candidates, `min_constraing_val` returns `""` and `variables.index("")` raises (`NoSelectableVariable`).
  - The consistency check reads `[0]` of an empty list of a decided peer (`EmptyDomainIndex`).
  - A failed search makes `backtracking` iterate over `False` (`SearchFailed`).

The code departs from the textbook algorithms the two stages are named after, and from its own docstrings. The model follows the code:

- Textbook AC-3 examines every candidate of the revised cell once. The code skips the candidate after each removal, as described above.
- Textbook backtracking with forward checking moves on to the next value after a failed forward check. The code gives up on the cell.
- Textbook backtracking rejects a value that an assigned neighbour already holds. The code rejects it when a peer *no longer* among the open variables has it as its *first* candidate, whatever that peer's list length (`SkipsHeldValue`).
- The docstrings of `backtracking` and `recursive_backtracking` say False is returned when there is no unique solution. The code raises in the three places above, and returns the first board the search completes without checking that it is unique.

## Model

| member | source | states |
|---|---|---|
| Seqs.RemoveFirst | SudokuBacktrackingSolver.py:118 | `pop(index(x))` drops one occurrence of x: the length drops by one when x is present, the list is unchanged when it is absent, and the multiset loses exactly one x. |
| Puzzles.ParseLine | PuzzleManager.py:50 | A line parses exactly when its first 81 characters are digits. The cell in row i and column j then holds the digit at index 9i+j, and every cell holds 0..9. |
| Puzzles.ParseRowMajor | PuzzleManager.py:50 | Parsing the row-major text of any puzzle gives that puzzle back. |
| Puzzles.RowMajorParse | PuzzleManager.py:50 | The row-major text of a parsed line is the line's first 81 characters (round trip in the other direction). |
| Puzzles.InitialDomains | PuzzleManager.py:83-90 | Every cell gets a duplicate-free list: all of 1..9 (size 9) for a 0, and exactly [v] (size 1) for a given v. Every solution of the puzzle is covered. |
| Puzzles.PuzzleManager.constructor | PuzzleManager.py:42-51 | One puzzle per line, each the parse of its line, with the cursor on the first. |
| Puzzles.PuzzleManager.InitDomains | PuzzleManager.py:78-90 | The map filled cell by cell equals the initial domains of the current puzzle, and only the current puzzle is read. |
| Puzzles.PuzzleManager.GetValue | PuzzleManager.py:93-103 | Returns the current puzzle's digit at (row, col). It is 0 exactly when that cell starts with nine candidates. |
| Puzzles.PuzzleManager.NextPuzzle | PuzzleManager.py:105-115 | Returns true and advances by one exactly when a later puzzle exists. Otherwise the cursor is unchanged. The batch is unchanged and the cursor stays in bounds. |
| Puzzles.PuzzleManager.SavePuzzle | PuzzleManager.py:117-123 | Only the current puzzle is replaced. The other puzzles and the cursor are unchanged. |
| Grid.AllPositions | PuzzleManager.py:50 | The 81 cells in row-major order: cell (r, c) is at index 9r+c, and every cell appears. |
| Grid.SizeShrinks | SudokuConstraintSolver.py:62-67 | Shortening one cell's list strictly lowers the total candidate count, the first component of the loop's termination measure. |
| Constraints.BoxMate | SudokuConstraintSolver.py:105-111 | Each of the two box mates of a coordinate lies in the same band of three and differs from it. |
| Constraints.ColumnPeers | SudokuConstraintSolver.py:97-99 | 8 distinct cells: exactly the other cells of the column. |
| Constraints.RowPeers | SudokuConstraintSolver.py:101-103 | 8 distinct cells: exactly the other cells of the row. |
| Constraints.BoxPeers | SudokuConstraintSolver.py:105-113 | 4 distinct cells: exactly the cells of the box sharing neither row nor column. |
| Constraints.Peers | SudokuConstraintSolver.py:95-114 | 20 distinct cells: exactly the peers (same row, column or box, not the cell itself). |
| Constraints.PeerAt | SudokuConstraintSolver.py:97-113 | Where each peer sits in the listing: column peers top to bottom, then row peers left to right, then box peers column by column. |
| Constraints.ArcsSpec | SudokuConstraintSolver.py:95-114 | 20 distinct arcs, all leaving the cell, one to each peer and to nothing else. |
| Constraints.GetConstraints | SudokuConstraintSolver.py:82-114 | The three append loops produce exactly the arc listing `Arcs(p)`. |
| Constraints.BoxArc | SudokuConstraintSolver.py:110-113 | The box arc for column offset a and row offset b is at index 16 + 2·(column slot) + (row slot). |
| ConstraintSolver.SupportedAt | SudokuConstraintSolver.py:133-136 | The inner loop's `found` flag is exactly "some candidate of pos_2 differs from val_1". |
| ConstraintSolver.SweepNarrows | SudokuConstraintSolver.py:132-139 | The revision only deletes, keeping order. It leaves the list unchanged or strictly shorter. |
| ConstraintSolver.SweepKeepsSupported | SudokuConstraintSolver.py:132-139 | A value with a differing candidate in pos_2 is never removed. |
| ConstraintSolver.SweepExact | SudokuConstraintSolver.py:132-139 | With pos_2 non-empty and no repeats in pos_1, a value survives exactly when it is supported. The skipped element is never one that had to go. |
| ConstraintSolver.SweepAllSupported | SudokuConstraintSolver.py:132-139 | When every value is supported, nothing changes. |
| ConstraintSolver.SweepEmptyFrom | SudokuConstraintSolver.py:132-139 | Against an empty pos_2, a duplicate-free list keeps exactly its odd-indexed elements (the skip quirk). |
| ConstraintSolver.RemoveInconsistentValues | SudokuConstraintSolver.py:117-140 | The result is the sweep applied to pos_1 and no other key changes. The result is true exactly when pos_1's list got shorter, and its survivors keep their order. Supported values stay, and the removal is exact for non-empty pos_2. Two distinct values in pos_2 mean no change, and an empty pos_2 leaves the odd-indexed elements. |
| ConstraintSolver.SweepFacts | SudokuConstraintSolver.py:131-140 | The facts above, gathered for the sweep from index 0. |
| ConstraintSolver.SeedArcsMembers | SudokuConstraintSolver.py:56-59 | After the first n cells in row-major order, the worklist holds an arc exactly when it leaves one of those cells that is blank, towards a peer. |
| ConstraintSolver.SeedQueue | SudokuConstraintSolver.py:55-59 | The seeding loops build the concatenated arcs of the blank cells. These are exactly the arcs from blank cells to their peers. |
| ConstraintSolver.Incoming | SudokuConstraintSolver.py:66-67 | The 20 re-pushed arcs are exactly the arcs (peer, p) into p. |
| ConstraintSolver.PushIncoming | SudokuConstraintSolver.py:66-67 | The re-push loop appends exactly the arcs into the changed cell. |
| ConstraintSolver.InitialPending | SudokuConstraintSolver.py:51-59 | With the seeded worklist, every arc between peers is queued, already consistent, or joins two given cells. |
| ConstraintSolver.InitialInvariant | SudokuConstraintSolver.py:51-59 | The initial domains and the seeded worklist satisfy the loop invariant. |
| ConstraintSolver.PendingStep | SudokuConstraintSolver.py:62-67 | One pop, revise and re-push turn keeps every peer arc queued, consistent, pointing to an empty cell, or between given cells. |
| ConstraintSolver.NarrowsStep | SudokuConstraintSolver.py:65 | A revision keeps every list a duplicate-free subsequence of its initial list. |
| ConstraintSolver.CoversStep | SudokuConstraintSolver.py:65 | A revision never removes the value a solution of the puzzle puts in that cell. |
| ConstraintSolver.QueuedPeers | SudokuConstraintSolver.py:63-67 | The worklist keeps holding only arcs between peers. |
| ConstraintSolver.LoopStep | SudokuConstraintSolver.py:62-67 | One turn keeps the whole loop invariant. When a list shrank, the candidate count strictly drops. Otherwise only the worklist got shorter. |
| ConstraintSolver.Propagate | SudokuConstraintSolver.py:50-67 | The loop ends with complete, duplicate-free domains, each a subsequence of its initial list. Every solution is covered, and every arc between peers is consistent, points to an emptied cell, or joins two given cells. |
| ConstraintSolver.ExtractSolution | SudokuConstraintSolver.py:72-76 | Returns a board exactly when every list is a singleton, and the board maps each cell to its sole value. |
| ConstraintSolver.SingletonsSettled | SudokuConstraintSolver.py:62-76 | Once AC-3 leaves only singletons, two peers (not both given) hold different values. |
| ConstraintSolver.SingletonValues | SudokuConstraintSolver.py:72-76 | Every value read off is one of the cell's initial candidates. |
| ConstraintSolver.SingletonsUnique | SudokuConstraintSolver.py:72-76 | Every solution of the puzzle equals the board read off. |
| ConstraintSolver.SingletonsSolve | SudokuConstraintSolver.py:72-79 | The board read off uses digits 1..9 and keeps every given. Peers not both given differ. The board is the only possible solution, and it is a solution when the givens do not clash. |
| ConstraintSolver.Ac3 | SudokuConstraintSolver.py:28-79 | Returns the propagated domains when asked. Otherwise it returns a board (saved over the current puzzle) exactly when every list is a singleton, and False if not. The board's properties are those of SingletonsSolve. The cursor stays, and no other puzzle changes. |
| BacktrackingSolver.MinConstrainingValue | SudokuBacktrackingSolver.py:123-138 | Returns "" (None) exactly when every position has at least 9 candidates. Otherwise it returns a position with fewer than 9 that is a minimum and the first minimum in list order, matching the fold `MinChoice`. |
| BacktrackingSolver.MinChoiceUnique | SudokuBacktrackingSolver.py:132-138 | The first-minimum rule picks a single position. |
| BacktrackingSolver.MinUpToIn | SudokuBacktrackingSolver.py:132-138 | The selected cell is one of the positions scanned. |
| BacktrackingSolver.PrunedFacts | SudokuBacktrackingSolver.py:115-121 | Forward checking only deletes. With duplicate-free lists, the value is gone from every peer and lists stay duplicate-free. |
| BacktrackingSolver.CheckOne | SudokuBacktrackingSolver.py:116-120 | One arc of the loop pops the value from the target if present, and stops when that empties the target. |
| BacktrackingSolver.CheckFromFails | SudokuBacktrackingSolver.py:116-120 | Along distinct targets, the loop fails exactly when popping the value empties some target. |
| BacktrackingSolver.CheckFromPrunes | SudokuBacktrackingSolver.py:116-121 | When the loop succeeds, it has popped the value from each target and left every other list as it was. |
| BacktrackingSolver.PrunesStep | SudokuBacktrackingSolver.py:116-118 | Popping the k-th target and then the later ones pops every target from k on. |
| BacktrackingSolver.ArcTargets | SudokuBacktrackingSolver.py:115 | The arcs of a cell point to distinct cells, exactly its peers. |
| BacktrackingSolver.ForwardCheckSpec | SudokuBacktrackingSolver.py:102-121 | Forward checking fails exactly when removing the value would empty some peer. Otherwise every peer loses the value's first occurrence, and the cell itself and non-peers are untouched. |
| BacktrackingSolver.ForwardChecking | SudokuBacktrackingSolver.py:102-121 | The loop computes that run: it fails exactly when some peer would be emptied, and otherwise yields the pruned domains. |
| BacktrackingSolver.SettlesRefl | SudokuBacktrackingSolver.py:80-81 | With no variables left, the unchanged domains meet the success guarantee. |
| BacktrackingSolver.AssignNarrows | SudokuBacktrackingSolver.py:93-96 | The pruned domains with the cell fixed to [value] narrow the old ones and keep non-empty lists non-empty. Duplicate-free lists stay so, with value gone from every peer. |
| BacktrackingSolver.AssignSettles | SudokuBacktrackingSolver.py:93-99 | Assigning a value and settling the remaining variables settles all the variables. |
| BacktrackingSolver.ConsistencySpec | SudokuBacktrackingSolver.py:86-91 | The consistency loop raises exactly when a decided peer has an empty list. Otherwise it flags the value exactly when a decided peer's first candidate equals it. |
| BacktrackingSolver.SkipsHeldValue | SudokuBacktrackingSolver.py:88-91 | A value a decided peer starts with is never tried: the search goes on to the next value, or raises on an empty decided peer. |
| BacktrackingSolver.FirstForwardFailure | SudokuBacktrackingSolver.py:93-95 | If the first value that passes the consistency check fails forward checking, the cell's search is Failed, whatever the later values would give. |
| BacktrackingSolver.RecursiveBacktracking | SudokuBacktrackingSolver.py:71-100 | The method returns `Search(variables, domains)`. It returns the domains unchanged when there are no variables, and raises when every variable has 9 candidates. On success the result narrows the input and keeps non-empty lists non-empty. Every variable is then a singleton whose value is absent from its peers (for duplicate-free input). |
| BacktrackingSolver.OpenPositions | SudokuBacktrackingSolver.py:50-54 | Given an iteration order that lists each cell once, collects exactly the cells with more than one candidate, without repeats and in iteration order. |
| BacktrackingSolver.SearchSeparates | SudokuBacktrackingSolver.py:57-64 | On the board read off a successful search, two peers not both given hold different digits. |
| BacktrackingSolver.SearchSolves | SudokuBacktrackingSolver.py:57-68 | The board read off a successful search uses digits 1..9 and keeps every given. Peers not both given differ, and the board is a solution when the givens do not clash. |
| BacktrackingSolver.FilledBoardFound | SudokuBacktrackingSolver.py:50-64 | For a puzzle with every digit given and no clash, AC-3 leaves no open cell, every list is a singleton, and the search over no cells finds those domains. |
| BacktrackingSolver.Backtracking | SudokuBacktrackingSolver.py:36-68 | The outcome is decided by the search over the open cells (collected once each, in iteration order) of the AC-3-reduced domains. A raise in the search propagates. A failed search crashes in the singleton loop (`SearchFailed`). Found domains give a board exactly when every list is a singleton, read off those lists, and `Unfinished` (False) otherwise. The cursor stays; a returned board is saved over the current puzzle and nothing else changes. The board has the SearchSolves properties with respect to the puzzle as it was. |

## Left out

- Reading the input file, splitting it into lines, and the IOError handling (PuzzleManager.py:45-54) are not modelled. The constructor takes the lines. A line that does not parse raises an uncaught error in the code, so the constructor requires every line to parse.
- `print_puzzle` and `write_puzzle` and their calls after `save_puzzle` are left out because they are output only. The `save_puzzle` calls themselves are modelled.
- The solver classes' constructors, which only build a `PuzzleManager` from a file, are left out. `Ac3` and `Backtracking` take the manager as a parameter, as `ac3(return_domain, input_pm)` does.
- Python's dict iteration order is not modelled:
  - The order in which `backtracking` visits the AC-3 domains is the parameter `order`, which lists each cell once.
  - `init_domains` and the singleton checks are order-independent (the singleton check stops at the first non-singleton whatever the order), so they walk the keys in an unspecified order.
- `get_constraints` is written twice, identically, at SudokuConstraintSolver.py:82-114 and SudokuBacktrackingSolver.py:140-172. The single `Constraints.GetConstraints` models both.
- `math.ceil(float(col)/3)` is replaced by integer arithmetic on the 0-based column.
- `deepcopy` is not modelled: maps and sequences are values in Dafny, which has the same effect.
- ConstraintSolver.RemoveInconsistentValues: requires pos_1 ≠ pos_2. Every arc the solvers build joins two different cells, so the aliasing of a list with itself is not modelled.
- ConstraintSolver.Ac3: returns the reduced domains as a ghost companion. In the board case Python returns the new `solution` dictionary and leaves behind the `domains` dictionary, whose lists the `pop()`s of the singleton check have emptied. Those emptied lists are not modelled.
- BacktrackingSolver.Backtracking: does not state that a returned board is the unique solution, as the docstring claims. Only the properties in the table are proved. The search commits to the first success, so a board can be returned for a puzzle with several solutions.
- Idempotence of AC-3 (running it again on its own output) is not stated. The code always restarts from the puzzle's initial domains, never from a previous output.
