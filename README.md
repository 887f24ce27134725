# Board of CVChess, in Dafny

This project models the `Board` aggregate of CVChess (`src/Board.py`). A
`Board` is a photograph of a chessboard together with:

- the board-image homography (BIH);
- the three parallel sequences it can be estimated from: board points, image points and SIFT descriptors;
- an 8x8 grid of `Square`s derived from the image and the BIH.

The model covers:

- `__init__`'s choice between loading a saved board, building from a given BIH, and building from point correspondences, including the error it raises when arguments are missing;
- the defaulting of a falsy name to a timestamp;
- the length checks on the correspondences;
- `construct_squares`, which places every square at the grid cell of its own location;
- `add_occlusions`, which labels the squares row by row;
- the row-major traversal of `iter_squares` and `get_occlusion_features`;
- the record that `save` writes and `load` restores.

Files:

- `wrappers.dfy`: `Option`, `Result` and `Outcome` (success, or an error value).
- `collaborators.dfy`: what Board relies on from outside its own file. These are the homography estimator of CVAnalysis, the label sequence of `util.iter_algebraic_notations`, and the `Square` class. All of them are fields of a `Library` value. Every result therefore holds for any estimator, any label order and any label-to-location mapping.
- `grid.dfy`: the grid as pure values. It holds:
  - `Placement`, the grid `construct_squares` builds from the labels;
  - `FaultFrom`, `OccludeFrom` and `ApplyOcclusions`, which describe what `add_occlusions` does to the 64 cells in row-major order, including where it stops;
  - `FeaturesOf` and `OcclusionsOf`, the two comprehensions of `get_occlusion_features`.
- `board.dfy`: `class Board`, with its fields and the grid as an `array2<Option<Square>>`. The methods that update fields in place are proved against the functions of `grid.dfy`.

The Python object is created in two steps:

- The Dafny constructor is the blank object before `__init__` runs.
- `Board.Init` is `__init__`. It returns `Fail(e)` where Python raises, with one `BoardError` case per exception the code can raise.

`Board.Valid()` is the invariant of a constructed board:

- The grid is, up to occlusion labels, the placement of the squares built from the current image and BIH.
- When points are kept, the BIH is the estimate from exactly those points.

Three operations establish `Valid()`: construction from points, construction from a BIH, and load. `add_occlusions` preserves it.

Behaviours of Board.py that a caller may not expect, all of which the model follows:

- Two labels with the same location do not raise: the later square silently overwrites the earlier one (last writer wins).
- `save` does not refuse a board built from a BIH. It writes absent points, and loading that record passes None points to the estimator, which the model takes to raise.
- `add_occlusions` is not atomic. When it raises, the squares before the failing position are already labelled.
- `load` and `construct_from_points` are not atomic either:
  - When the estimator raises, the new points sit beside the old BIH and the old grid.
  - When a location is out of range, the new BIH sits beside a fresh grid. That grid holds the squares of the labels before the first unindexable one.
- `load` does not repeat the equal-length checks of `construct_from_points`.

## Model

| member | source | states |
|---|---|---|
| Boards.ChooseName | src/Board.py:62-66 | a truthy name is kept, and None or "" becomes the timestamp; the name is never empty when the timestamp is not |
| Boards.Board.Init | src/Board.py:30-44 | a truthy filename loads; otherwise an image and a BIH together take the BIH path; otherwise a missing name, image, board-point or image-point argument raises and changes nothing; otherwise the points path runs, each path with its own outcome and final state |
| Boards.Board.ConstructFromPoints | src/Board.py:62-80 | raises in the order the checks run: the point lengths differ; the descriptors are absent (TypeError); the descriptor length differs; estimation fails; a location is not an index. If estimation fails, the BIH and the grid stay as they were; if a location is not an index, the BIH is already the estimate and the fresh grid holds the placement of the labels before the first unindexable one. On success it keeps name, image and the three sequences verbatim, the BIH is the estimate from exactly those points, the grid is their placement, and the board is valid |
| Boards.Board.ConstructFromBIH | src/Board.py:91-107 | keeps the given BIH and image, builds the grid from them, and clears all three point sequences; it raises only when a location is not an index, and then the BIH and image are already stored and the fresh grid holds the placement of the labels before the first unindexable one |
| Boards.Board.GetBIH | src/Board.py:230 | the BIH becomes the estimator's result on the current board and image points; when the estimator raises, the BIH is unchanged |
| Boards.Board.ConstructSquares | src/Board.py:239-247 | allocates a fresh 8x8 grid, which then holds exactly the placement of the labels; it raises exactly when some location is not a list index, and then the grid holds exactly the placement of the labels before the first such label |
| Grid.PlacementSucceedsIff | src/Board.py:243-247 | the placement exists if and only if every label's location is an index of the 8-element lists |
| Grid.PlacementAtOwnCell | src/Board.py:245-247 | every filled cell holds a fresh, unlabelled square of one of the labels, whose own location selects that cell |
| Grid.PlacementKeys | src/Board.py:243-247 | a cell is filled if and only if some label's location selects it |
| Grid.PlacementLastWriterWins | src/Board.py:243-247 | a label's cell holds that label's square when no later label selects the same cell |
| Grid.PlacementFillsGrid | src/Board.py:239-247 | when every cell is selected by some label, all 64 cells are filled |
| Grid.PlacementKeepsEveryLabel | src/Board.py:243-247 | when no two labels select the same cell, every label's square is in the grid |
| Boards.Board.AddOcclusions | src/Board.py:138-140 | the grid, read row by row, becomes ApplyOcclusions of the old grid; the outcome is the error at the first empty cell or missing token, or success; a valid board stays valid; no other field changes |
| Boards.Board.OccludeRow | src/Board.py:139-140 | the inner loop labels row i from left to right, stopping at the first cell that is empty or has no token, with the matching error |
| Grid.FaultFromSpec | src/Board.py:138-140 | every position before the stopping position can be labelled, and the stopping position, if any, cannot |
| Grid.FaultFromIs | src/Board.py:138-140 | the stopping position is the unique position such that everything before it can be labelled and it cannot |
| Grid.FaultFromIgnoresLabels | src/Board.py:138-140 | labelling squares does not move the stopping position |
| Grid.OccludeFromSpec | src/Board.py:138-140 | each square before the stopping position receives its own token occ[p / 8][p % 8], and every other cell is unchanged |
| Grid.OcclusionsKeepGeometry | src/Board.py:138-140 | after labelling, the same cells are filled and each square is the same up to its occlusion label |
| Grid.OcclusionsIdempotent | src/Board.py:138-140 | adding the same occlusion grid twice stops at the same position and gives the same cells as adding it once |
| Grid.AllClear | src/Board.py:138-140 | on a full grid, an 8x8 grid of "clear" tokens labels all 64 squares "clear" |
| Grid.SevenRowsStopAtEighthRow | src/Board.py:138-140 | on a full grid, a 7-row occlusion grid stops at position 56 after labelling the first 56 squares with their tokens |
| Boards.Board.IterSquares | src/Board.py:211-213 | yields 64 cells, and cell (i, j) comes 8 * i + j-th |
| Boards.Board.IterSquaresRowMajor | src/Board.py:211-213 | the k-th cell yielded is squares[k / 8][k % 8] |
| Boards.Board.RowsFrom | src/Board.py:211-213 | the rows from i on, each left to right, are cell (a, b) at position 8 * (a - i) + b |
| Boards.Board.RowFrom | src/Board.py:212-213 | row i from column j on holds cell (i, b) at position b - j |
| Grid.FeaturesOf | src/Board.py:151 | succeeds if and only if every cell holds a square, and then gives one feature vector per cell, in order |
| Grid.OcclusionsOf | src/Board.py:152 | succeeds if and only if every cell holds a square, and then gives one occlusion label per cell, in order |
| Boards.Board.GetOcclusionFeatures | src/Board.py:151-153 | succeeds if and only if all 64 cells hold squares, and raises on an empty cell; X and y both have length 64, and X[k] and y[k] come from the same square squares[k / 8][k % 8] |
| Boards.Board.Save | src/Board.py:169-175 | the record holds the five persisted fields; for a valid board with points, they re-estimate to the current BIH; without board points nothing can be estimated from the record |
| Boards.Board.Load | src/Board.py:184-192 | a missing file raises and changes nothing; otherwise the five fields are restored verbatim before anything can fail; if the estimator then raises, the BIH and the grid stay as they were; if a location is out of range, the BIH is already the new estimate and the fresh grid holds the placement of the labels before the first unindexable one; on success the BIH is re-estimated from the restored points, the grid is rebuilt, and the board is valid |
| Boards.Board.SaveThenLoadVerdict | src/Board.py:169-192 | loading the record of a valid board succeeds if and only if the board kept its points; otherwise the estimator fails |
| Boards.Board.LoadRestoresSaved | src/Board.py:169-192 | a board loaded from a valid board's record has that board's BIH and its squares with their occlusion labels dropped |
| Boards.Board.ConstructedIsValid | src/Board.py:239-247 | a freshly placed grid whose BIH agrees with the retained points makes a valid board |
| Boards.Board.ValidAfterLabelling | src/Board.py:138-140 | a grid that differs from a valid board's grid only in occlusion labels is valid |

## Left out

- Homography estimation (CVAnalysis) is a numeric algorithm in another module. It is a function-valued parameter, and its `None` result stands for `find_board_image_homography` raising. `get_BIH` itself raises nothing: if the estimator returned `None` instead, Python would store it as the BIH and hand it to `Square`, and that case is not modelled.
- When the points are `None`, as happens when loading the record of a board built from a BIH, the model takes the estimator to raise.
- Boards.PointsVerdict: the length checks of `construct_from_points` are `assert` statements, and the model always runs them. Under `python -O` they are removed. Then neither the AssertionError nor the TypeError from `len(None)` is raised, a `None` descriptor list is stored, and sequences of different lengths are accepted; that mode is not modelled.
- The `Square` class is not part of this model. A square is a record holding:
  - its label;
  - the image and BIH it came from;
  - its location, which stands for `board_vertices[0]` and is given by a parameter function of the label;
  - its features, given by a parameter function;
  - its occlusion label.
  `Square.add_occlusion` is taken to set the occlusion label and nothing else.
- Squares are values in the grid cells, not shared objects. Aliasing of a `Square` object outside its cell is not modelled.
- The board keeps references to the caller's image, point lists and descriptors. The model copies them as values, so a caller that later mutates those objects is not modelled. In Python such a mutation would break `Valid()`'s claim that the BIH is the estimate from exactly the stored points.
- `iter_algebraic_notations` (util) is not part of this model. Its labels are a parameter sequence. Nothing is required of its length or order: full coverage and injectivity are hypotheses of the lemmas that need them.
- `pickle` and file handles in `save` and `load` are modelled as a map from file name to the saved record. Writing the file is left to the caller: `Save` returns the record.
- `parse_occlusions` reads a file, which is not modelled. `AddOcclusions` takes the already split token grid.
- `time()` is not called: the timestamp string is a parameter of `Init`.
- `np.array` conversion in `get_occlusion_features` is not modelled: X and y are sequences.
- The display and printing functions are not modelled, being screen output only: `__str__`, `print_correspondences`, `draw_squares`, `draw_vertices`.
- The `__main__` block is a script that calls a method Board does not have.
- `None in [...]` in `__init__` is modelled as an identity test on each argument. This is the older scalar comparison. Two kinds of argument are not modelled:
  - an argument whose `==` claims equality with None;
  - a NumPy array (the image, or the BIH), whose `==` with None gives an array. In newer NumPy releases the truth test of that array raises ValueError.
- Boards.Board.GetOcclusionFeatures: Python evaluates X, and raises, before it builds y. Both raise the same AttributeError on the same cell, so the model reports one `EmptyCell` error.
