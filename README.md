# Maze carver model

A Dafny model of the core of a C# maze generator (the `MazeGen` namespace,
files `Maze.cs` and `Cell.cs`) and proofs about it.

The program keeps a square grid of cells in a flat, row-major list.
Every cell starts with four visible walls. A recursive depth-first
backtracker starts from a random cell, marks it visited, and repeatedly
picks a random unvisited neighbour, takes down the two walls between them
and recurses on that neighbour. It keeps doing this until the cell has no
unvisited neighbour left or the user asks for a new maze (the `_redo`
flag). In the model's terms the carve builds a tree of passages that spans
the grid.

Files:

- `Wrappers.dfy`: the `Option` type.
- `Cell.dfy` (module `Cells`): the wall names and wall numbers, `DecodeWalls`,
  the state a cell shows (`CellState`), and the class `Cell` with its four
  wall flags, the `visited` and `current` flags, and the `RemoveWalls` /
  `RemoveOpposite` methods.
- `Grid.dfy` (module `Grid`): the `Direction` enum, the row-major index
  arithmetic, `Neighbour` (the cell one step away), connectivity of the
  grid, and the side-length arithmetic of the constructor.
- `Passages.dfy` (module `Passages`): the specification of what the carver
  builds, as pure predicates and lemmas. It covers:
  - the tree of passages, given as the entry `order` and the `parent` map;
  - `WallsAgree`: a wall is down exactly where a passage is open;
  - `VisitedAgree`: the visited cells are the entered ones;
  - `Exhausted`: every neighbour of an entered cell was entered;
  - the cell-state updates of one carving step, and the lemmas that each
    step keeps all of the above.
- `Maze.dfy` (module `Mazes`): the class `Maze` with the grid as a
  `seq<Cell>` field and the methods `Init`, `GetNeighbor` and
  `RecursiveBacktracer`. The do-while body of `RecursiveBacktracer` is split
  into methods so that each one can be proved on its own.

The model adds two ghost fields to `Maze`:

- `order`: the cells in the order they were entered;
- `parent`: the cell each of them was entered from.

The carving methods are proved against the predicates of `Passages` over
these two fields. From the tree facts it then follows that:

- a finished carve that was not interrupted visits every cell;
- it opens exactly one passage fewer than there are cells;
- every cell is joined to the start cell by open passages.

Notes on the code as written:

- `GetNeighbor` tries the directions in the order Left, Right, Up, Down.
- The start cell is drawn from `[0, numberCells²)` (`_numberCells`, Maze.cs:53, 105). The grid side is `imageSize / (imageSize / numberCells)`, which can be larger than `numberCells`, so the start cell lies in `[0, side²)`, but not every cell of the grid can be the start.
- There is no size check. The constructor divides by `numberCells` (Maze.cs:55), and the `NumberColumns` property divides by `_cellSize` (Maze.cs:35), first when `Init` runs (Maze.cs:153). The model requires `1 <= numberCells <= imageSize`; the sizes it leaves out are listed under "## Left out".

## Model

| member | source | states |
|---|---|---|
| Cells.DecodeWall | Cell.cs:142-156 | Exactly the ints 0..3 name a wall, and the named side's wall number is that int: 0 top, 1 right, 2 bottom, 3 left. |
| Cells.DecodeWalls | Cell.cs:137-159 | The decoded names are at most as many as the ints. A side is among them exactly when its wall number is among the ints. |
| Cells.DecodeWallsAppend | Cell.cs:141-158 | Decoding keeps the input order: decoding a concatenation is the concatenation of the decodings. |
| Cells.DecodeWallsInRange | Cell.cs:141-158 | When every int is a wall number, each int maps to one name, position by position, so none is dropped and the order is kept. |
| Cells.Opposite | Cell.cs:165-182 | The wall across from wall number w has number (w + 2) mod 4. |
| Cells.OppositeInvolution | Cell.cs:165-182 | RemoveOpposite's table sends w to (w + 2) mod 4, which decodes to the opposite side, and applying the opposite twice gives back the side. |
| Cells.Without | Cell.cs:126-130 | Taking down one wall hides exactly that wall and keeps the other three walls and both flags. |
| Cells.Cleared | Cell.cs:128-129 | The definition of the foreach: the named walls are hidden one after the other. Its meaning is proved in ClearedWalls, ClearedAppend, ClearedOrderFree and ClearedIdempotent. |
| Cells.ClearedAppend | Cell.cs:126-130 | Removing walls in two batches gives the same state as removing them in one. |
| Cells.ClearedWalls | Cell.cs:126-130 | After removing a list of names, a wall is visible exactly when it was visible before and is not named. Visited and Current do not change. |
| Cells.ClearedOrderFree | Cell.cs:106-109 | Removing walls clears the union of the named walls, whatever their order or repetitions. |
| Cells.ClearedIdempotent | Cell.cs:126-130 | Removing the same walls a second time changes nothing. |
| Cells.SameState | Cell.cs:26-30 | A cell's state is determined by its four walls and its two flags. |
| Cells.Cell.constructor | Cell.cs:45-53 | The new cell has the given column and row, all four walls visible (Wall's IsVisible starts true, Cell.cs:194), and is neither visited nor current. |
| Cells.Cell.RemoveNamedWalls | Cell.cs:126-130 | Each named wall stops being visible, one after the other. The new state is the old one with those walls cleared. |
| Cells.Cell.RemoveWalls | Cell.cs:106-109 | The walls whose numbers are listed come down, other ints are ignored, and the flags do not change. |
| Cells.Cell.RemoveWall | Cell.cs:115-120 | For x in 0..3 exactly wall x comes down and nothing else changes. For any other x nothing changes. |
| Cells.Cell.RemoveOpposite | Cell.cs:165-182 | For w in 0..3 exactly the wall across from w comes down. For any other w nothing changes. |
| Grid.Ordinal | Maze.cs:203-204 | The definition of the `(int) dir` cast: the enum's declaration order, Up 0, Right 1, Down 2, Left 3 (Maze.cs:13-19). CastNamesFacingWall proves what the cast names. |
| Grid.Neighbour | Maze.cs:237-248 | The definition of the neighbour lookup: i - 1 unless the column is 0, i + 1 unless it is the last, i - side unless that is negative, i + side unless it is past the grid. NeighbourAt, IndexArithmetic, NeighbourBack and NeighboursDiffer prove it is the one-step move within the grid. |
| Grid.CellSize | Maze.cs:55 | The definition of `_cellSize`, `imageSize / numberCells`. SideCoversCells proves it is positive for the sizes the model admits. |
| Grid.SideLength | Maze.cs:35 | The definition of `NumberColumns`, `imageSize / _cellSize`. SideCoversCells proves it is at least numberCells. |
| Grid.CastNamesFacingWall | Maze.cs:13-19 | Casting a Direction gives the number of the wall facing it, and the wall across from that one faces back. |
| Grid.IndexInGrid | Maze.cs:233 | A row-major index of in-grid coordinates lies in [0, side²). |
| Grid.IndexCoords | Maze.cs:233 | Row and column are recovered from a row-major index. |
| Grid.IndexInjective | Maze.cs:233 | Different coordinates have different indices. |
| Grid.NeighbourAt | Maze.cs:237-248 | The index arithmetic i-1, i+1, i-side, i+side under the bounds tests is the one-step move in coordinates. |
| Grid.IndexArithmetic | Maze.cs:233-248 | The column and row tests of GetNeighbor are exactly the index bounds of the neighbour lookup. |
| Grid.NeighbourBack | Maze.cs:237-248 | A neighbour lies in the grid, and the step back from it returns to the start cell. |
| Grid.NeighboursDiffer | Maze.cs:237-248 | Steps in different directions reach different cells, and no step stays in place. |
| Grid.ClosedSetIsGrid | Maze.cs:237-248 | The grid is connected: a set of cells that contains the start cell and is closed under neighbours is the whole grid. |
| Grid.SideCoversCells | Maze.cs:35 | With 1 <= numberCells <= imageSize the cell size is positive, the side is at least numberCells, and so every start index below numberCells² is a cell. |
| Passages.ParentEntered | Maze.cs:196-210 | Each cell's parent is an entered cell adjacent to it. |
| Passages.StartIsTree | Maze.cs:149-155 | A fresh grid, with only the start cell entered and every wall up, agrees with the empty tree. |
| Passages.CarveKeepsTree | Maze.cs:196-210 | Entering an unentered neighbour of an entered cell keeps a tree. |
| Passages.MarkKeepsAll | Maze.cs:180-181 | Marking an entered cell visited and current keeps the walls in agreement and leaves no entered cell unmarked. |
| Passages.LeaveKeepsAll | Maze.cs:215 | Clearing Current on the one possibly current cell leaves no cell current and keeps the walls and marks. |
| Passages.CarveKeepsAll | Maze.cs:196-210 | One carve keeps a tree and the walls in agreement with it. The new cell is the one entered cell not yet marked, and no cell is left current. |
| Passages.WallSymmetry | Maze.cs:203-204 | Both cells beside a passage agree: one has its wall towards the other down exactly when the other has its wall back down. |
| Passages.TreeWithinGrid | Maze.cs:196-210 | The carver never enters more cells than the grid has, which bounds the recursion. |
| Passages.TreeSize | Maze.cs:196-210 | There is always one passage fewer than there are entered cells. |
| Passages.PathToStart | Maze.cs:196-210 | Every entered cell is joined to the start cell by a chain of open passages. |
| Passages.ExhaustedGrows | Maze.cs:174-212 | Take an entry list whose cells from position `f` on have all their neighbours entered, and an extension of it whose appended cells have all their neighbours entered in the extension. Then every cell of the extension from position `f` on has all its neighbours entered. |
| Passages.SurroundedExhausts | Maze.cs:212 | A cell the loop leaves because all its neighbours are visited has all its neighbours entered. |
| Passages.ExhaustedIsSpanning | Maze.cs:170-216 | When every entered cell has all its neighbours entered, every cell of the grid was entered, and there are side² - 1 passages. |
| Mazes.Maze.constructor | Maze.cs:51-58 | _numberCells is numberCells², the cell size is imageSize / numberCells, _redo is false, and the side is at least numberCells. |
| Mazes.Maze.NumberColumns | Maze.cs:35 | The definition of the side length, SideLength(imageSize, cellSize). |
| Mazes.Maze.NumberRows | Maze.cs:36 | The definition of NumberRows, equal to NumberColumns: the grid is square. |
| Mazes.Maze.IndexOf | Maze.cs:233 | The definition of the cell's index, `NumberColumns * r + c`. IndexOfCell proves it is the cell's position in a built grid. |
| Mazes.Maze.CellAt | Maze.cs:152-155 | In a built grid the cell at y*side + x has column x and row y. |
| Mazes.Maze.Init | Maze.cs:149-155 | The grid becomes side² fresh cells in row-major order (no earlier cell survives), each with all walls up, unvisited and not current. |
| Mazes.Maze.Probe | Maze.cs:237-248 | The definition of one nested test of GetNeighbor: the neighbour is added when the bounds test passes and it is unvisited. Its effect is proved through Candidates and the lemmas about it. |
| Mazes.Maze.Candidates | Maze.cs:237-248 | Each candidate is the in-grid neighbour in its direction, and it is unvisited. |
| Mazes.Maze.CandidatesComplete | Maze.cs:237-248 | Every in-bounds unvisited neighbour is a candidate under its own direction, and no other direction is offered. |
| Mazes.Maze.NoCandidates | Maze.cs:237-252 | There are no candidates exactly when no direction leads to an in-bounds unvisited neighbour. |
| Mazes.Maze.CandidatesOrdered | Maze.cs:237-248 | Candidates come in the order Left, Right, Up, Down, each direction at most once. |
| Mazes.Maze.CandidatesAtEdges | Maze.cs:237-248 | Column 0 never yields Left, the last column never Right, row 0 never Up, and the last row never Down. |
| Mazes.Maze.CandidatesSurround | Maze.cs:237-252 | There are no candidates exactly when every neighbour of the cell is visited. |
| Mazes.Maze.GetNeighbor | Maze.cs:225-253 | Returns index -1 (with Down) exactly when there is no candidate. Otherwise it returns a candidate (dir, j): j is in the grid, unvisited, and one step from the cell in direction dir. |
| Mazes.Maze.GetNeighborCovers | Maze.cs:250-251 | Every candidate is the one returned for some random draw. |
| Mazes.Maze.DispatchEvents | Maze.cs:177 | Event dispatch may raise _redo (the regenerate key) and never lowers it. |
| Mazes.Maze.MarkCurrent | Maze.cs:180-181 | The cell becomes visited and current and nothing else changes. The walls still agree with the tree, and the visited cells are the entered ones. |
| Mazes.Maze.RecursiveBacktracer | Maze.cs:170-216 | Carving from a just-entered cell only appends to the entered cells, and every earlier parent link is kept, so every passage opened before stays in the tree. It keeps a tree that the walls agree with, and leaves no cell current. Unless _redo was raised, every cell entered from this call on has no unentered neighbour. |
| Mazes.Maze.Visit | Maze.cs:174-212 | One pass of the do-while body. Every earlier parent link is kept. The loop goes on exactly when a candidate is left and _redo is false. Once _redo is raised, nothing more is entered or carved and the loop exits. |
| Mazes.Maze.TryCarve | Maze.cs:196-211 | The if-statement carves only with an unvisited neighbour and _redo false. Every earlier parent link is kept. If it enters nothing, there was no candidate or _redo was raised. Once _redo is raised nothing is carved. |
| Mazes.Maze.CarveFrom | Maze.cs:198-210 | The carve branch enters at least one new cell, keeps every earlier parent link, and keeps the tree and the walls in agreement. Unless _redo was raised, the cells it enters end exhausted. |
| Mazes.Maze.OpenPassage | Maze.cs:203-207 | The cell loses its wall facing dir, the neighbour loses the wall facing back, the cell stops being current, and no other cell changes. |
| Mazes.Maze.CarveStep | Maze.cs:199-207 | The passage opens and the neighbour is entered from the cell. The tree and the wall agreement are kept. |
| Mazes.Maze.Leave | Maze.cs:215 | The cell stops being current, and no cell is current afterwards. |
| Mazes.Maze.Generate | Maze.cs:101-106 | One carve on a fresh grid from a start index below _numberCells always leaves a tree rooted at the start, with the walls in agreement and no cell current. Unless _redo was raised, every cell is visited and there are side² - 1 passages. |

## Left out

- Rendering is graphics I/O with no bearing on the carve and is not modelled. This covers `DisplayGrid`'s frame loop, `RenderCell`, the window creation in `Init`, and the `DisplayWhileDrawing` branch.
- Colours, sizes, positions and line widths of the cells and walls are not modelled. They are floating-point pixel geometry.
- Event handling is modelled only as `DispatchEvents`, which may nondeterministically raise `redo`. `HandleKeys`, the Escape key and window closing are not modelled.
- The Escape key lowers `_redo` (Maze.cs:128) and closes the window (Maze.cs:129). The carve can see the lowered flag only when one dispatch (Maze.cs:177) handles Enter (Maze.cs:132-133) and then Escape. The carve then goes on, but into a window that is already closed. The model's `DispatchEvents` only ever raises the flag, so this case is not modelled.
- The `Init` that the Enter handler runs in the middle of a carve is not modelled. The model's `Generate` starts from a freshly built grid, as the carve after that handler does.
- Random numbers are not modelled. The draw in `GetNeighbor` is its `pick` parameter, and the draws of the carver and the start cell are arbitrary values (`:|`) or the caller's `start`.
- `GetNeighbor` is called three times per pass in the source, each with its own draw. The model does the same: the test, the pick and the loop test use separate draws. It shows that they agree on whether a candidate exists.
- The do-while body of `RecursiveBacktracer` is split into `Visit`, `TryCarve`, `CarveFrom`, `CarveStep`, `OpenPassage` and `Leave`. The statements and their order are the source's.
- Mazes.Maze.RecursiveBacktracer: that nothing more is carved once `_redo` is raised is stated per pass, on `Visit` and `TryCarve`, not on the method as a whole.
- The `Maze` constructor requires `1 <= numberCells <= imageSize`. All other sizes are excluded:
  - Some fail in the source. `numberCells = 0` divides by zero in the constructor (Maze.cs:55). A cell size of zero (for example `0 < imageSize < numberCells`) divides by zero in `NumberColumns` (Maze.cs:35) when `Init` runs. A negative `numberCells` can leave the grid empty. For example, `numberCells = -1, imageSize = 10` gives `NumberColumns = -1`, and the start-cell lookup at Maze.cs:105 then throws an index-out-of-range exception.
  - Others work in the source but are still excluded. A negative `imageSize` with `1 <= numberCells <= -imageSize` gives a grid. For example, `imageSize = -10, numberCells = 3` gives cell size -3 and a 3 by 3 grid. C# `/` truncates toward zero, but Dafny's `/` is Euclidean, so for these inputs the model's cell size can differ, whenever `numberCells` does not divide `imageSize`, and then the side can differ too. When it divides, both agree: `imageSize = -10, numberCells = 5` gives cell size -2 and side 5 either way. For example, `imageSize = -10, numberCells = 4` gives side 5 in C# (cell size -2) but side 4 with Euclidean division (cell size -3). The unsigned window size `(uint) _imageSize` (Maze.cs:159) is not modelled either.
- `RemoveWalls(IEnumerable<string>)` throws `KeyNotFoundException` for a name that is not one of the four sides (Cell.cs:129). The four constructors of `Side` make such a name impossible, so that error path is not modelled.
- C# `int` overflow in the size and index arithmetic is not modelled. The model's claims hold for the source only while `numberCells²` (Maze.cs:53) and `side²` fit in a C# `int`, that is for a side of at most 46340. Since `numberCells <= side`, `numberCells²` then fits too. Nothing in the source bounds the sizes. For `numberCells = imageSize = 46341`, the `(int)` cast of `Math.Pow(46341, 2)` at Maze.cs:53 overflows, and the index `NumberColumns * r + c` (Maze.cs:233) wraps in the last row. The model says nothing about those sizes.
- `Program.cs` (only a `Main` with constants) is not part of this model. Neither are `CellDto.cs` (an unused data holder) and the unused private `Neighbor` class.
