# Maze solver and word search, modelled in Dafny

This project models two small Python programs and proves properties of the models.

**The maze solver** (`maze_solve/solve.py`) works on an RGB image of a maze.
- It marks the two anchors (start and end) with 2x2 squares.
- It cleans the image: each pixel snaps to the nearest of five palette colours. Black and white pixels stay; green and red ones become white; blue ones keep their colour.
- It runs a breadth-first search over whole paths, on a copy of the image. The search moves only through "white" pixels and paints each enqueued pixel green.
- If it finds a path, the path is painted red on the image.
- If it finds none, a blue cross is drawn at each anchor and the program exits with status 1.

The model has four modules:
- `MazeColors`: the palette and the nearest-colour classifier.
- `MazeGrid`: positions, bounds, neighbours, walkability and `mean`.
- `MazeWalks`: the search state as pure values, with the shortest-path and no-path arguments.
- `MazeSolver`: the `Solver` class. Its pixel grid is an `array2<Color>` indexed `[x, y]`, and its methods update the grid in place as the source does.

The main results:
- `Solver.Bfs` returns a shortest walk through white pixels, or `None` exactly when no such walk exists.
- `Solver.Solve` paints exactly that walk red, or exactly the two crosses blue.
- Each drawing method changes exactly the cells it is meant to and nothing else.

**The word search** (`word_search/solve.py`) reads a puzzle text and a word list.
- Each non-empty line of the puzzle becomes a row of characters. Each line of the word list is a word.
- For every word, every cell holding its first letter and each of the nine direction codes of `get_around`, it prints `(word, i, j, k)` when the rest of the word is read off the grid in that direction.
- Indexing follows Python. A negative index counts from the end, so words wrap around the top and left edges. Any other index out of range ends the match as "no".

The module `WordSearch` models:
- the parsing, as functions over `string` with both round trips proved;
- `get_around`, as a recursive function that is characterised by the ray of cells it reads;
- the loops of `main`, as methods proved equal to a specification function `Output`.

Lemmas about `Output` state:
- which tuples are printed;
- their order;
- when `main` stops with an `IndexError`.

Where the code and its documentation differ, the model follows the code:
- `_clean_image` compares the anchor pixels with their colours (lines 114 and 117 use `==`) instead of assigning them. The anchors therefore keep their colour through the cleaning.
- `_is_white` compares a pixel tuple with the integer `0`. That can never hold, so the model drops the disjunct.
- `_is_white` counts the end colour (red) as walkable.
- The cleaning leaves pixels whose nearest colour is blue unchanged; they are neither black nor white.
- A word list that ends with a newline yields a final empty word. Once the grid has a cell, `main` raises at `t[0]` after printing everything for the earlier words.

## Model

| member | source | states |
|---|---|---|
| MazeColors.SquaredDistance | maze_solve/solve.py:275-278 | the distance between two colours is zero exactly when they are equal (square of the Euclidean RGB distance) |
| MazeColors.SquaredDistanceSymmetric | maze_solve/solve.py:275-278 | the distance is symmetric |
| MazeColors.ClosestIndexAmong | maze_solve/solve.py:131 | the chosen index lies among the first n palette entries |
| MazeColors.ClosestIndexAmongIsNearestFirst | maze_solve/solve.py:131 | the chosen entry is at minimum distance, and every earlier entry is strictly farther, as the head of a stable sort by distance is |
| MazeColors.ClosestColor | maze_solve/solve.py:127-134 | the classifier returns a palette colour |
| MazeColors.ClosestColorIsNearest | maze_solve/solve.py:127-134 | the classified colour is no farther than any palette colour, and ties go to the colour declared first in COLOR_MAP |
| MazeColors.ClosestColorOfPaletteColor | maze_solve/solve.py:127-134 | a palette colour classifies as itself |
| MazeColors.CleanedColor | maze_solve/solve.py:119-125 | the colour _clean_image writes at a non-anchor pixel: white or black if that is the nearest palette colour, white if the nearest is green or red, the pixel's own colour if it is blue (contract stated by CleanedColorCases) |
| MazeColors.CleanedColorCases | maze_solve/solve.py:119-125 | the nearest colour decides the result: white stays white, black stays black, green or red becomes white, blue leaves the pixel as it was |
| MazeColors.CleanedColorIdempotent | maze_solve/solve.py:119-125 | cleaning a cleaned pixel changes nothing |
| MazeGrid.InBounds | maze_solve/solve.py:191-195 | _in_bounds: false when a coordinate is negative or at least the size, true otherwise (contract stated by InBoundsExactly) |
| MazeGrid.InBoundsExactly | maze_solve/solve.py:191-195 | a position is in bounds iff 0 <= x < width and 0 <= y < height |
| MazeGrid.Neighbours | maze_solve/solve.py:209-212 | exactly the four 4-connected neighbours, each once |
| MazeGrid.IsWhite | maze_solve/solve.py:197-207 | _is_white on a pixel's colour: white, all channels above 240, or the end colour (contract stated by IsWhiteExactly) |
| MazeGrid.IsWhiteExactly | maze_solve/solve.py:197-207 | a pixel is walkable iff it is the end colour or all three channels exceed 240; the start, frontier, black and blue colours are not walkable; white and the end colour are |
| MazeGrid.Mean | maze_solve/solve.py:271-272 | mean of the empty list is 0; otherwise mean times length equals the sum (true division) |
| MazeGrid.MeanOfTwoBetween | maze_solve/solve.py:271-272 | the mean of two coordinates is their half-sum and lies between them |
| MazeWalks.Extensions | maze_solve/solve.py:252-262 | one extended path per admitted neighbour, in the same order |
| MazeWalks.ExtensionsAt | maze_solve/solve.py:260-262 | entry k of the extensions is the path followed by neighbour k |
| MazeWalks.Admits | maze_solve/solve.py:252-262 | the neighbours the test admits, in the order of _get_neighbours (characterised by AdmitsMembers and AdmitsStep); never more than there are neighbours |
| MazeWalks.AdmitsMembers | maze_solve/solve.py:252-258 | a position is admitted iff it is one of the neighbours, unseen, open and not yet painted |
| MazeWalks.AdmitsStep | maze_solve/solve.py:252-262 | testing one more neighbour appends it exactly when it passes |
| MazeWalks.ExtensionsAppend | maze_solve/solve.py:262 | enqueuing one more extended path keeps the queue equal to the old queue followed by the extensions admitted so far |
| MazeWalks.FrontierInit | maze_solve/solve.py:227-228 | the queue [[start]] with start recorded at length 1 satisfies the frontier invariant |
| MazeWalks.FrontierDequeue | maze_solve/solve.py:234-236 | popping the head path keeps the invariant; the head is a walk from start to the next logged position, with its recorded length, and no shorter than the previous head |
| MazeWalks.FrontierEnqueue | maze_solve/solve.py:252-262 | appending the popped path extended by an unvisited open neighbour keeps the invariant |
| MazeWalks.FewerUnpainted | maze_solve/solve.py:259 | painting a new open position shrinks the set of unpainted open positions, which bounds the loop |
| MazeWalks.ClosedExpand | maze_solve/solve.py:252-262 | after expansion every open neighbour of an expanded position is recorded at most one step farther |
| MazeWalks.UndequeuedAtLeastHead | maze_solve/solve.py:231-236 | every recorded position not yet popped has a recorded length at least that of the head path |
| MazeWalks.RecordedLengthAlongWalk | maze_solve/solve.py:252-262 | along a walk whose prefix is expanded, position i is recorded with length at most i + 1 |
| MazeWalks.ShortestByCut | maze_solve/solve.py:238-250 | any walk from start to an unexpanded end is at least as long as the shortest unexpanded recorded length |
| MazeWalks.WalkStaysExpanded | maze_solve/solve.py:252-262 | when everything recorded is expanded, every position of a walk from start is expanded |
| MazeWalks.ReachableIsExpanded | maze_solve/solve.py:231-268 | when everything recorded is expanded, every position reachable from start is expanded |
| MazeWalks.ShortestToSelf | maze_solve/solve.py:238-250 | the shortest walk from start to itself is [start] |
| MazeWalks.DequeuedEndIsShortest | maze_solve/solve.py:238-250 | a popped path ending at end is a walk from start and is no longer than any other walk to end |
| MazeWalks.SearchFound | maze_solve/solve.py:234-250 | a popped path that ends at end is a shortest walk from start; when start is end it is [start] |
| MazeWalks.SearchExpanded | maze_solve/solve.py:234-266 | expanding a popped path that does not end at end keeps the search invariant, with the popped position seen, and either paints more positions or shortens the queue |
| MazeWalks.SearchExhausted | maze_solve/solve.py:231-268 | an empty queue means start differs from end, no walk reaches end, and every logged position was expanded |
| MazeWalks.ExhaustedMeansNoWalk | maze_solve/solve.py:267-268 | when the queue is empty and end was never popped, no walk from start reaches end |
| MazeSolver.InSquare | maze_solve/solve.py:184-189 | the 2x2 block range(-1, 1) around the anchor in each axis (contract stated by DrawSquare) |
| MazeSolver.InCross | maze_solve/solve.py:176-182 | range(-10, 10) along the anchor's row and along its column (contract stated by DrawX) |
| MazeSolver.Outcome.ExitStatus | maze_solve/solve.py:94 | a found path ends with status 0, no path with sys.exit(1) |
| MazeSolver.PaintPath | maze_solve/solve.py:97-99 | the cells on the path take the colour; every other cell keeps its own |
| MazeSolver.Solver.OpenCells | maze_solve/solve.py:254-258 | a position is open iff it is in bounds and its pixel is white |
| MazeSolver.Solver.WalkInBounds | maze_solve/solve.py:191-195 | every position of a walk from an in-bounds start is in bounds |
| MazeSolver.Solver.constructor | maze_solve/solve.py:35-84 | the grid ends with the anchor squares drawn over the cleaned image; iterations is 0 |
| MazeSolver.Solver.FindColorCenter | maze_solve/solve.py:136-154 | found iff some pixel classifies as the colour; if none, the centre is (0, 0); otherwise it is the midpoint of the matching pixels' bounding box |
| MazeSolver.Solver.ScanColumn | maze_solve/solve.py:146-151 | after column i, the box covers every match in columns 0..i, and each side is touched by a match |
| MazeSolver.Solver.Bfs | maze_solve/solve.py:221-268 | result is a shortest walk from start to end through open pixels, or None exactly when no walk exists; start == end gives [start]; positions are enqueued at most once; on failure iterations equals the number of enqueued positions |
| MazeSolver.Solver.Explore | maze_solve/solve.py:226-268 | the while loop ends with a shortest walk, or with None exactly when no walk exists and iterations equal to the number of enqueued positions |
| MazeSolver.Solver.SearchStep | maze_solve/solve.py:234-266 | the new queue, seen set, log and result are exactly NextPass of the old ones; a found path is a shortest walk to end; otherwise the search invariant holds again, the pass is counted, and more is painted or the queue is shorter |
| MazeWalks.NextPass | maze_solve/solve.py:234-262 | one pass as a value: pop the head, mark its last position seen, stop with it at end, else enqueue its admitted extensions and log them (stated exactly by SearchStep) |
| MazeSolver.Solver.CopyPixels | maze_solve/solve.py:223-224 | the search grid is a fresh copy equal to the image |
| MazeSolver.Solver.ExpandNeighbours | maze_solve/solve.py:252-262 | the queue gains the extended paths, and the log the positions, of exactly the neighbours that pass the test, in the order of _get_neighbours; every open neighbour ends up recorded at most one step farther; the copy differs from the image exactly at the painted positions |
| MazeSolver.Solver.ExpandStep | maze_solve/solve.py:252-262 | one pass of the neighbour loop extends the queue and the log by the next neighbour exactly when it passes, keeping the frontier invariant |
| MazeSolver.Solver.Eligible | maze_solve/solve.py:254-258 | the neighbour test on the copy: unseen, in bounds and white (contract stated by EligibleIff) |
| MazeSolver.Solver.Admitted | maze_solve/solve.py:252-258 | the neighbours that pass the test on the copy, in order (characterised by AdmittedIsAdmits); never more than there are neighbours |
| MazeSolver.Solver.EligibleIff | maze_solve/solve.py:254-258 | on a copy painted at the painted set, a neighbour passes iff it is unseen, open and not painted |
| MazeSolver.Solver.AdmittedIsAdmits | maze_solve/solve.py:252-258 | the neighbours passing the test on the copy are exactly those admitted by the set-based test |
| MazeSolver.Solver.VisitNeighbour | maze_solve/solve.py:253-262 | an unseen, in-bounds, white neighbour is painted green, enqueued with the extended path and logged; any other leaves queue, log and painted set exactly as they were |
| MazeSolver.Solver.Solve | maze_solve/solve.py:86-102 | on success exactly the shortest path is painted red; on failure no walk exists and exactly the two crosses are painted blue; the crosses need to fit only when no walk exists |
| MazeSolver.Solver.DrawSquare | maze_solve/solve.py:184-189 | exactly the 2x2 block ending at pos takes the colour |
| MazeSolver.Solver.DrawX | maze_solve/solve.py:176-182 | exactly the cross of 10 cells back and 9 forward along the row and the column takes the colour |
| MazeSolver.Solver.CleanImage | maze_solve/solve.py:108-125 | every pixel except the two anchors takes its cleaned colour; the anchors are unchanged |
| WordSearch.SplitLines | word_search/solve.py:9 | splitting yields at least one piece |
| WordSearch.SplitThenJoin | word_search/solve.py:9 | joining the pieces with newlines gives the text back, and no piece holds a newline |
| WordSearch.JoinThenSplit | word_search/solve.py:21 | splitting the join of newline-free lines gives the lines back |
| WordSearch.FlattenSplit | word_search/solve.py:9 | the pieces laid end to end are the text without its newlines |
| WordSearch.FlattenNonEmpty | word_search/solve.py:13-14 | dropping empty lines loses no character |
| WordSearch.NonEmptyLines | word_search/solve.py:13-14 | the puzzle lines that are not empty, in order (contract stated by NonEmptyLinesKeep and FlattenNonEmpty) |
| WordSearch.NonEmptyLinesKeep | word_search/solve.py:13-14 | every kept row is non-empty |
| WordSearch.PuzzleRows | word_search/solve.py:9-14 | the grid rows are non-empty, hold no newline, and together are the puzzle text without its newlines |
| WordSearch.ParsePuzzle | word_search/solve.py:9-14 | the character-copying loops build the non-empty lines of the puzzle text |
| WordSearch.ParseWords | word_search/solve.py:19-22 | the word list is the split of the text, and joining it gives the text back |
| WordSearch.PyIndex | word_search/solve.py:39-77 | Python indexing: [0, len) as is, [-len, 0) from the end, anything else IndexError (contract stated by PyIndexWraps) |
| WordSearch.Cell | word_search/solve.py:39-77 | question_lines[x][y]: the row first, then the column against that row's length (contract stated by CellWraps) |
| WordSearch.PyIndexWraps | word_search/solve.py:39-77 | a Python index is valid iff it lies in [-len, len), and it selects the element at the index modulo len |
| WordSearch.CellWraps | word_search/solve.py:39-77 | a cell exists iff the row index is valid for the grid and the column index for that row; both wrap |
| WordSearch.WrapAround | word_search/solve.py:41-43 | stepping above the first row or left of the first column reads the opposite side |
| WordSearch.OffTheEnd | word_search/solve.py:76-77 | indexing past the last row, or past the end of a row, raises (no cell) |
| WordSearch.Step | word_search/solve.py:40-75 | the row and column step of each of the nine direction codes (contract stated by StepFormula) |
| WordSearch.StepFormula | word_search/solve.py:40-75 | direction code k steps by (k / 3 - 1, k % 3 - 1), each in -1..1 |
| WordSearch.GetAround | word_search/solve.py:35-77 | an empty target matches; a match of a non-empty target needs a code in 0..8 |
| WordSearch.GetAroundReadsAlong | word_search/solve.py:35-77 | get_around holds iff character n of the target is the cell n + 1 steps along the direction, for every n |
| WordSearch.DirectionFourStays | word_search/solve.py:56-59 | code 4 never moves: it matches iff the cell exists and every target character equals it |
| WordSearch.Output | word_search/solve.py:24-32 | what main prints, and whether it raises (contract stated by OutputCrashes, OutputMembers, OutputStopsAtFirstEmpty and OutputAppends) |
| WordSearch.DirectionHits | word_search/solve.py:30-32 | the hits of one cell in codes 0..n-1 (contract stated by DirectionHitsMembers and DirectionHitsInOrder) |
| WordSearch.CellHits | word_search/solve.py:28-32 | the hits of one cell: none unless the word starts there (contract stated by RowHitsMembers) |
| WordSearch.RowHits | word_search/solve.py:26-32 | the hits of the first m cells of a row (contract stated by RowHitsMembers and RowHitsInOrder) |
| WordSearch.GridHits | word_search/solve.py:25-32 | the hits of the first m rows (contract stated by GridHitsMembers and GridHitsInOrder) |
| WordSearch.WordHits | word_search/solve.py:25-32 | the hits of one word over the whole grid (contract stated by WordHitsMembers and WordHitsInOrder) |
| WordSearch.ScanDirections | word_search/solve.py:30-32 | the direction loop yields exactly the hits for codes 0..8 in order |
| WordSearch.ScanRow | word_search/solve.py:26-32 | the column loop yields exactly the row's hits |
| WordSearch.ScanWord | word_search/solve.py:25-32 | a non-empty word yields its hits over the grid; an empty word raises iff the grid has a cell |
| WordSearch.Scan | word_search/solve.py:24-32 | the word loop prints exactly Output and stops exactly where Output does |
| WordSearch.FindWords | word_search/solve.py:4-32 | main prints the Output of the parsed puzzle and word list |
| WordSearch.CrashSticks | word_search/solve.py:24-28 | once a word has raised, later words change nothing |
| WordSearch.DirectionHitsMembers | word_search/solve.py:30-32 | a tuple is printed for a cell iff the word starts there and get_around matches in that code |
| WordSearch.RowHitsMembers | word_search/solve.py:26-32 | a tuple is printed for a row iff it is emitted from one of its cells |
| WordSearch.GridHitsMembers | word_search/solve.py:25-32 | a tuple is printed for the grid iff it is emitted from one of its rows |
| WordSearch.WordHitsMembers | word_search/solve.py:25-32 | the tuples printed for a word are exactly those that emit it |
| WordSearch.OutputCrashes | word_search/solve.py:24-28 | main raises iff the grid has a cell and some word is empty |
| WordSearch.OutputMembers | word_search/solve.py:24-32 | when main does not raise, a tuple is printed iff its word is in the list and the grid emits it |
| WordSearch.OutputStopsAtFirstEmpty | word_search/solve.py:24-28 | the output is that of the words before the first empty word, and then main raises |
| WordSearch.OutputAppends | word_search/solve.py:24-32 | one more non-empty word appends exactly its hits |
| WordSearch.OneLetterWord | word_search/solve.py:28-38 | a one-letter word is printed with all nine codes at each cell holding it |
| WordSearch.DirectionFourHits | word_search/solve.py:28-59 | code 4 is printed at a cell iff every letter of the word equals that cell |
| WordSearch.DirectionHitsInOrder | word_search/solve.py:30-32 | a cell's hits come in increasing direction code |
| WordSearch.RowHitsInOrder | word_search/solve.py:26-32 | a row's hits come in column order, then code order |
| WordSearch.GridHitsInOrder | word_search/solve.py:25-32 | a word's hits come in row, column, code order |
| WordSearch.WordHitsInOrder | word_search/solve.py:24-32 | the tuples printed for one word are in scan order |
| WordSearch.SplitTrailingNewline | word_search/solve.py:21-22 | a trailing newline adds exactly one empty word |
| WordSearch.TrailingNewlineStops | word_search/solve.py:16-28 | with a trailing newline the output is unchanged, and then main raises |

## Left out

- Image files, PIL loading and saving, the snapshot images, `image.show`, logging and the final `print` are I/O. The model starts from an in-memory `array2<Color>` and ends with the grid and an `Outcome`.
- `sys.exit(1)` on failure is the `NoPathFound` outcome, whose `ExitStatus` is 1.
- `_find_start` and `_find_end` hard-code the anchors at (385, 985) and (399, 27). The constructor takes them as parameters instead; the commented-out call to `_find_color_center` is not made.
- The memo cache of `_find_closest_color` is left out: it is off by default and never enabled.
- MazeColors.SquaredDistance: the source takes a square root. The model keeps the square, because the root is monotone: the order of the colours and the ties are the same.
- MazeSolver.Solver.FindColorCenter: the infinite initial bounds are modelled by the `found` flag. The centre is an exact real, as Python's true division gives.
- MazeSolver.Solver.constructor: requires both anchors at least 1 inside the grid, so that the 2x2 squares fit. The source would raise or wrap at the border.
- MazeSolver.Solver.Solve: requires the anchor squares to fit (Valid), and, when no walk exists, both crosses to fit in the grid. The source would raise or wrap at the border.
- MazeSolver.Solver.Bfs: requires start in bounds. The source would raise only when it paints a found path through an out-of-bounds start.
- MazeGrid.IsWhite takes the pixel's colour rather than the pixel array and a position.
- The snapshot counter `img` and the `SNAPSHOT_FREQ` checks only drive I/O.
- MazeSolver.Solver.Bfs: states `iterations` only when no path is found (it then equals the number of enqueued positions). When a path is found nothing is stated about it, because its value then only feeds a log line.
- Memory aliasing between `image` and its pixel access object is not modelled: `pixels` is one array.
- WordSearch: the global `question_lines` becomes the grid parameter; the model starts from a fresh grid, as `main` runs once.
- WordSearch: opening and reading `question.text` and `products.text` are I/O. FindWords takes their contents as strings.
- WordSearch: the printed lines are the sequence of `Hit` tuples. Whether main raised is a boolean.
- Characters are Dafny `char`s; file decoding is not modelled.
