# Dancing-links Sudoku solver, modelled in Dafny

The system solves Sudoku puzzles with Knuth's Algorithm X on a dancing-links
matrix. `SudokuDLX` turns a 9 by 9 board into a 729 by 324 exact-cover
matrix. Each row is a placement (row, column, digit). Each column is a
constraint: a cell, a digit in a row, a digit in a column, or a digit in a
block. The rows that contradict a clue are all zeros. `DLX` links the 1s of
that matrix into circular doubly-linked rings of `DancingNode`s, one ring per
column headed by a `ColumnNode` and one ring per matrix row. It then searches
recursively, covering and uncovering columns. A `SolutionHandler` reads each
answer (a list of nodes) back as a board, and a `SolutionsAnalyzer` collects
the boards and reports the cells with the most distinct values across them.

The model keeps the linked structure imperative. The nodes live in an arena:
`Links.DancingLinks` holds the `L`, `R`, `U`, `D`, `C` and `size` fields of
every node as arrays indexed by node number. Node 0 is the root header, nodes
1 to m are the column headers, and data nodes follow. Every pointer operation
of `DancingNode` and `ColumnNode` is a method on those arrays. Each method
is specified by a function on the arena's value (`Rings`, `Matrix`,
`CoverFacts`). The matrix a board of links stands for is a ghost `Shape`:
the live columns, each column's entries, each row's ring, and the row of each
node. `Valid(g, sh)` ties arena and shape together. The search is specified
by `Algorithm.Solve`, the list of answers Algorithm X finds on a shape in the
source's order: heuristic column first, its rows top to bottom. The methods
`Search.DLX.Search` and friends are proved to report exactly `Solve`'s answers
and to leave the links as they found them. Separate lemmas prove that these
answers are exact covers, that every exact cover is found (as a set of rows),
and that none is found twice. On the Sudoku side, the boards read from the
answers are proved to be exactly the completed boards that keep the clues,
each once.

## Model

| member | source | states |
|---|---|---|
| Links.DancingLinks.NewNode | DancingNode.java:19-32 | node `x` becomes a self-linked node of column `c`; the whole new arena is `Rings.NewNode` of the old one |
| Links.DancingLinks.NewColumnNode | ColumnNode.java:15-21 | node `x` becomes a self-linked column header of size 0 and its own column |
| Links.DancingLinks.LinkBelow | DancingNode.java:39-47 | `n` is spliced into `x`'s column ring right below `x`, the rest unchanged, and `n` is returned |
| Links.DancingLinks.LinkRight | DancingNode.java:54-61 | `n` is spliced into `x`'s row ring right of `x`, the rest unchanged, and `n` is returned |
| Links.DancingLinks.UnlinkLR | DancingNode.java:66-70 | `x`'s left and right neighbours point past it; only those two links change |
| Links.DancingLinks.UnlinkUD | DancingNode.java:75-79 | `x`'s up and down neighbours point past it; only those two links change |
| Links.DancingLinks.RelinkLR | DancingNode.java:84-87 | `x`'s left and right neighbours point back at `x` |
| Links.DancingLinks.RelinkUD | DancingNode.java:92-95 | `x`'s up and down neighbours point back at `x` |
| Rings.RelinkUndoesUnlink | DancingNode.java:66-95 | relinking a node that was linked into its ring restores the ring exactly, and unlinking leaves the node's own links intact |
| Rings.SpliceLinks | DancingNode.java:39-61 | after a splice of `n` after `x`, `x` points at `n`, `n` at `x`'s old successor, back links agree, and every other link is unchanged |
| Rings.SpliceAppends | DancingNode.java:39-61 | splicing a new node after the last member of a ring makes it a ring with the node appended, and leaves nodes outside it alone |
| Rings.SpliceSelfIsNoOp | DancingNode.java:39-61 | linking a node to itself changes nothing |
| Rings.UnlinkRemoves | DancingNode.java:66-79 | unlinking a non-head member of a ring leaves a ring of the other members, in order, and nodes outside it alone |
| Links.DancingLinks.Cover | ColumnNode.java:29-43 | the new arena is `CoverResult`: header `c` out of the header ring and each other entry of each row of column `c` out of its column, with its column's size decremented |
| Links.DancingLinks.Uncover | ColumnNode.java:49-60 | on the arena `Cover` left, `Uncover` restores the arena from before the cover exactly |
| CoverFacts.CoverKeepsValid | ColumnNode.java:29-43 | covering a live column of a valid board gives a valid board for the matrix without that column and the rows that hit it; node names unchanged, one column fewer |
| CoverFacts.UncoverStepUndoesCoverStep | ColumnNode.java:37-56 | the uncover step of one entry undoes its cover step (relink plus size increment) |
| Board.MakeDLXBoard | DLX.java:38-70 | the arena built is `DLXBoard` of the grid, root 0 |
| BoardFacts.DLXBoardBuilt | DLX.java:38-70 | that arena is a valid board for the grid's matrix: one header per column in order, one node per 1 in row-major order, each column ring top to bottom and each row ring left to right, root size equal to the column count |
| BoardFacts.HeaderRowBuilt | DLX.java:42-50 | the header loop leaves the headers linked in one ring after the root |
| BoardFacts.EntriesBuilt | DLX.java:52-65 | the entry loop appends each 1 to the bottom of its column and to the right end of its row |
| GridRows.RowColumnNames | DLX.java:52-65 | the column names met along the ring of grid row `i` increase and are exactly the columns where that row holds a 1 |
| Search.DLX.constructor | DLX.java:149-152 | the solver's links are a valid board of the grid's matrix, with no answer so far |
| Search.DLX.SelectColumnNodeHeuristic | DLX.java:120-133 | the result is `Heuristic` of the header ring's sizes |
| Algorithm.HeuristicPicksFirstSmallest | DLX.java:120-133 | the heuristic returns -1 exactly when every size is at least `Integer.MAX_VALUE`; otherwise it returns the first header of least size |
| Algorithm.ArgMinIsFirstMin | DLX.java:124-130 | the strict `<` scan stops on the first minimum |
| Search.DLX.Search | DLX.java:77-111 | the answers reported are the partial answer extended by each of `Solve`'s answers, in order; the counter grows by their number; links and partial answer are restored |
| Search.DLX.SearchColumn | DLX.java:93-108 | the loop over column `c` reports, row by row, the answers of each branch and restores the links |
| Search.DLX.CoverRowColumns | DLX.java:96-98 | covering the other columns of row `r` left to right gives `CoverArena` of those columns |
| Search.DLX.UncoverRowColumns | DLX.java:105-107 | uncovering them right to left restores the links exactly |
| Search.DLX.RunSolver | DLX.java:160-166 | the answers handed to the handler are exactly `Solve` of the built matrix, the counter is their number, every one is an exact cover, and the links are unchanged |
| SearchFacts.SolveCovers | DLX.java:4-14 | every answer of `Solve` is an exact cover of the live columns by matrix rows |
| SearchComplete.SolveComplete | DLX.java:4-14 | every exact cover of the live columns is found by `Solve`, as the same set of rows |
| SearchComplete.BuiltComplete | DLX.java:4-14 | the same for the matrix `makeDLXBoard` builds from a grid |
| SearchComplete.SolveDistinct | DLX.java:4-14 | no two answers of `Solve` are the same set of rows |
| Search.DLX.GetSolutions | DLX.java:168-173 | as written: the list is `[[]]` when the matrix has no column and empty otherwise; the counter stays 0 and the links are unchanged |
| Search.DLX.ModifiedSearch | DLX.java:175-202 | as written: only a call on an empty matrix returns an answer; the lists of recursive calls are dropped |
| Search.OneByOneLoses | DLX.java:175-202 | on the grid `[[1]]`, `Solve` has the one answer `[2]`, which `ModifiedSearch` does not return |
| Search.DLX.CollectingSearch | DLX.java:175-202 | corrected: returns the partial answer extended by each of `Solve`'s answers, in order, and restores the links |
| Search.DLX.CollectSolutions | DLX.java:168-173 | corrected: returns exactly `Solve` of the built matrix, each an exact cover |
| Sudoku.GetIndexBijection | SudokuDLX.java:20-23 | `getIndex` maps the digit triples one to one onto 0..728, and `RowOf`, `ColOf`, `ValOf` invert it |
| Sudoku.RowOnes | SudokuDLX.java:38-88 | the row of a placement holds 1 exactly in its cell, row, column and block constraint columns |
| Sudoku.ColumnNineOnes | SudokuDLX.java:38-88 | each of the 324 constraint columns holds exactly nine 1s |
| SudokuCover.SudokuExactCover | SudokuDLX.java:38-88 | a fresh 729 by 324 array whose entries are the constraint matrix `Entry` |
| SudokuCover.MakeExactCoverGrid | SudokuDLX.java:96-111 | a fresh 729 by 324 array: each placement row that contradicts a clue is cleared to zeros, every other entry is the constraint matrix's |
| Handler.RowMinimum | SolutionHandler.java:50-58 | the node picked from an answer row is the one with the least column name, the first such along the ring |
| Handler.ReadEntry | SolutionHandler.java:50-63 | the placement read from a row's ring is `ReadRow` of its column names, with a column inside the board |
| Handler.SudokuParseBoard | SolutionHandler.java:47-67 | a fresh `size` by `size` array whose cell (a, b) holds the digit of the last placement of the answer in that cell, 0 where there is none |
| Handler.ParseBoard | SolutionHandler.java:104-107 | a `SudokuHandler` gives the board above; a `DefaultHandler` gives none (`null`) |
| SudokuAnswers.AnswerCovers | SudokuDLX.java:96-111 | the placements read from an exact cover of the Sudoku matrix are the placements of its matrix rows, which meet every constraint once and keep every clue |
| SudokuAnswers.AnswerSolves | SudokuDLX.java:3-5 | the board read from an exact cover is a completed board that keeps the clues, and each placement's row is inside the board |
| SudokuSolve.CoverSolves | SudokuDLX.java:3-5 | placements that meet every constraint once and keep every clue write a completed board keeping the clues: every cell 1..9, distinct in each row, column and block |
| SudokuComplete.SolvedCovers | SudokuDLX.java:3-5 | conversely every completed board keeping the clues is written by the placements of its 81 cells, which meet every constraint once |
| SudokuFound.SolutionFound | SudokuDLX.java:120-124 | every completed board keeping the clues is among the boards read from the search's answers |
| SudokuFound.SolutionsOnce | SudokuDLX.java:120-124 | no board is read from two answers |
| SudokuFound.BoardsAreSolutions | SudokuDLX.java:120-124 | the boards read from the search's answers are exactly the completed boards keeping the clues, each once |
| SudokuDLX.ParsedAtLeaf | DLX.java:84 | the placements read from an answer are the same on every matrix the search passes through, so reading at the leaf or after the search gives the same board |
| SudokuDLX.ParseAnswer | SolutionHandler.java:47-67 | the board `parseBoard` of a `SudokuHandler(9)` reads from an answer of the search is the board its placements write |
| SudokuDLX.ParseAll | DLX.java:84 | the boards read from a list of answers, in order |
| SudokuDLX.NewSolver | SudokuDLX.java:120-123 | a solver whose matrix is the clue matrix of the board, with nothing found yet |
| SudokuDLX.RunSolver | SudokuDLX.java:120-124 | the analyzer holds exactly the completed boards keeping the clues, each once; `max` bounds every cell's count of distinct values and `highESquares` lists, in row-major order, exactly the cells reaching it |
| SudokuDLX.GetSolutions | SudokuDLX.java:126-131 | as written: returns no board, whatever the board |
| SudokuDLX.CollectSolutions | SudokuDLX.java:126-131 | corrected: returns exactly the completed boards keeping the clues, each once |
| Analyzer.SolutionsAnalyzer.constructor | SolutionsAnalyzer.java:11 | a new analyzer holds no solution |
| Analyzer.SolutionsAnalyzer.AddSolution | SolutionsAnalyzer.java:17-20 | the board is appended to the solutions |
| Analyzer.SolutionsAnalyzer.GetInfoBank | SolutionsAnalyzer.java:95-121 | a fresh 9 by 9 bank whose cell (i, j) is the set of values the solutions hold there |
| Analyzer.SolutionsAnalyzer.AnalyzeSolutions | SolutionsAnalyzer.java:67-93 | `max` bounds the count of distinct values of every cell, and `highESquares` is exactly the cells reaching it, in row-major order, never empty |
| Analyzer.DumbGreedy | SolutionsAnalyzer.java:154-192 | `max` is the largest set size (-1 on an empty bank) and `highESquares` exactly the cells of that size, in row-major order |
| Analyzer.SeenMember | SolutionsAnalyzer.java:95-121 | a value is in a cell's set exactly when some solution holds it in that cell |
| Analyzer.SeenAppend | SolutionsAnalyzer.java:17-20 | adding a solution adds its value to each cell's set and removes nothing |
| Analyzer.SeenEmpty | SolutionsAnalyzer.java:95-121 | a cell's set is empty exactly when there is no solution |
| Analyzer.SeenSingleton | SolutionsAnalyzer.java:95-121 | a cell's set has one value exactly when all solutions agree on that cell |
| Analyzer.SeenSameBoards | SolutionsAnalyzer.java:95-121 | the sets depend only on which boards are stored, not on their order or repetition |

## Left out

- Printing: `handleSolution` of both handlers (SolutionHandler.java:28-39, 87-98), `printInfo`, and the verbose banners in `search` are output only. `SudokuHandler.handleSolution` prints the same board that `parseBoard` builds.
- `getAvgEntropyOfSolutions` and `smartGreedy` compute with `double` and logarithms. Floating point is not modelled. `DLX.runSolver` calls `smartGreedy` after `analyzeSolutions`; the model stops after `analyzeSolutions`.
- `Driver.java` (reading puzzles, timing, the command line) is not part of this model.
- SudokuDLX.RunSolver: the source reads each answer with `parseBoard` and adds it to the analyzer at the leaf, during the search. The model records the answers and reads them after the search. `ParsedAtLeaf` shows that the placements read are the same at the leaf and after it, because covering never changes the row rings or the node names.
- Search.DLX.Search: the leaf records the answer in `found` instead of calling `solanalyzer.addSolution(handler.parseBoard(answer))` (DLX.java:84). `SudokuDLX.ParseAll` and `SudokuDLX.Store` do the parsing and storing afterwards, in the same order.
- Search.DLX.RunSolver: ends after the search. The `analyzeSolutions` call (DLX.java:164) is made by `SudokuDLX.RunSolver` on the analyzer that holds the parsed boards. That covers only the `SudokuHandler` path. With the `DefaultHandler` of the one-argument constructor, the leaf stores `addSolution(null)` (DLX.java:84). `analyzeSolutions` then throws a `NullPointerException` at `temp.length` (SolutionsAnalyzer.java:84) once one answer has been stored. That exception path is not modelled.
- Search.DLX.ModifiedSearch: the leaf returns the answer's nodes instead of `handler.parseBoard(answer)` (DLX.java:178). `SudokuDLX.GetSolutions` and `SudokuDLX.CollectSolutions` parse the answers afterwards.
- SudokuDLX.RunSolver: the analyzer is a separate object here, not the `solanalyzer` field of the `DLX` built with the 3-argument constructor. The `SUDOKU` field is only used by `smartGreedy`.
- Board.MakeDLXBoard: requires a grid with at least one row, every row at least as long as the first, and fewer than `Integer.MAX_VALUE` rows, which every Java array has. On an empty grid, `grid[0].length` (DLX.java:39) throws `ArrayIndexOutOfBoundsException`, and a shorter row throws at `grid[i][j]` (DLX.java:55). Those exception paths are not modelled. The only caller in the system passes the 729 rows of 324 entries that `makeExactCoverGrid` builds.
- Search.DLX.constructor: has the same requirement, for the same reason, because it calls `makeDLXBoard`.
- SudokuCover.MakeExactCoverGrid: requires a board of at least 9 rows of at least 9 entries (`IsBoard`). On a smaller board, `sudoku[i - 1][j - 1]` (SudokuDLX.java:100) throws `ArrayIndexOutOfBoundsException`. That exception path is not modelled. Every board that reaches `makeExactCoverGrid` comes from Driver's `new int[9][9]` puzzle (Driver.java:6). It arrives either directly or through `smartGreedy`, which calls `getSolutions` on that same puzzle with one cell changed (SolutionsAnalyzer.java:213).
- SudokuDLX.NewSolver: has the `IsBoard` requirement of `makeExactCoverGrid`, for the same reason.
- SudokuDLX.RunSolver: has the same `IsBoard` requirement.
- SudokuDLX.GetSolutions: has the same `IsBoard` requirement.
- SudokuDLX.CollectSolutions: has the same `IsBoard` requirement.
- Handler.SudokuParseBoard: requires that every placement's row is inside the board. The source throws `ArrayIndexOutOfBoundsException` otherwise, and that path is not modelled. `SudokuAnswers.AnswerSolves` proves this requirement for every answer of the Sudoku search, with size 9. The member also requires `size > 0`. A negative size throws `NegativeArraySizeException` at SolutionHandler.java:48, and size 0 with a non-empty answer throws `ArithmeticException` at `ans1 / size` (SolutionHandler.java:61). Every call site passes 9: the only construction is `new SudokuHandler(9)` (SudokuDLX.java:122, 129).
- Handler.ParseBoard: has the same requirement for a `SudokuHandler`, for the same reason.
- Analyzer.SolutionsAnalyzer.GetInfoBank: requires every stored board to be `Readable`, which excludes exactly the boards on which the loops of SolutionsAnalyzer.java:110-117 index out of range. These are the boards with a non-empty first row that also have one of the following: more than nine rows (`infoBank[i]`), a first row longer than nine (`get(j)` on a list of nine sets), or a row shorter than the first (`temp[i][j]`). On these boards the source throws, and that path is not modelled. Smaller boards of equal-length rows are read without error, as in the source. `SudokuDLX.SolvedReadable` proves the requirement for the completed boards the solver stores.
- Analyzer.SolutionsAnalyzer.AnalyzeSolutions: has the same requirement, for the same reason.
- Column names are the integers 0..m-1, not the strings `Integer.toString(i)` that `parseBoard` turns back into integers with `Integer.parseInt`. The round trip through strings is left out.
- A Java `int[][]` is a Dafny `array2<int>` where the source builds it (`sudokuExactCover`, `makeExactCoverGrid`, `parseBoard`, `getInfoBank`). Where it is only passed around it is a `seq<seq<int>>` value. `SudokuDLX.GridOf` converts.
- Board.MakeDLXBoard: the arena is allocated with room for one node per grid cell. The source allocates one object per 1, so capacity is never exhausted there. Node numbers are assigned in the order the source creates its objects.
- The `answer` list holds node numbers, and `found` records the answers handed to the handler. Object identity and the Java heap are not modelled.
- `Integer.MAX_VALUE` is the constant `MaxInt` in `SelectColumnNodeHeuristic`. Column sizes never reach it, and 32-bit overflow elsewhere does not arise at these sizes.

## Findings

| source | as written | input that shows it | evidently intended | confidence | as-written member | corrected member |
|---|---|---|---|---|---|---|
| DLX.java:190 | `modifiedSearch(k + 1);` discards the list the recursive call returns, so only the top-level call's own list is returned, and it is empty unless the matrix has no columns | the grid `[[1]]` (one answer, `[2]`, none returned); every Sudoku board, since its matrix has 324 columns, so `getSolutions` returns an empty list | `solutions.addAll(modifiedSearch(k + 1));` | not executed | Search.DLX.ModifiedSearch, Search.OneByOneLoses, SudokuDLX.GetSolutions | Search.DLX.CollectingSearch, SudokuDLX.CollectSolutions |
