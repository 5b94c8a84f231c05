# A-maze-ing: a verified model of the maze engine

This project models the core of the A-maze-ing maze generator in Dafny. It
covers two variants.

The **wall-mask engine** (`mazegen/`) keeps a `width × height` grid of 4-bit
wall masks (N = 1, E = 2, S = 4, W = 8; a set bit is a wall). It may decorate
the grid with a centred "42" of blocked cells. It carves passages with one of
three generators: a depth-first backtracker, a binary-tree pass, or
randomised Prim. A union-find repair pass then joins what is still apart.
The model also covers the code that consumes the grid:

- the breadth-first path finder and the move-letter encoder;
- the hexadecimal export;
- the validators;
- the position-independent "42" stencil and its placement search;
- the configuration reader.

The **binary-grid variant** (top-level `maze_generator.py`,
`maze_validator.py`, `config_parser.py` and `mazegen/utils.py`) keeps a grid
of WALL = 1 and PATH = 0 cells. Even sizes are rounded up to odd ones. It
carves with an explicit-stack search that jumps two cells at a time, and it
has a pass that opens random interior cells. It counts simple paths
breadth-first and exports its grid as wall masks worked out from the
neighbours.

Layout:

- `grid.dfy` holds the pure value of a maze (`Board`). `walks.dfy`,
  `passages.dfy`, `components.dfy`, `reach.dfy`, `sinks.dfy`, `frontier.dfy`
  and `repair.dfy` hold the graph theory the generators are proved against:
  walks through open passages, the passage count, components and spanning
  forests, and reachability.
- `maze.dfy` is the engine as a class whose methods update its fields. Its
  generators and repair pass are loops and recursion over those fields.
- `unionfind.dfy` is the parent/rank disjoint-set of the repair pass.
- `cellindex.dfy` holds the `y * width + x` numbering of cells.
- `rng.dfy` holds the random source: every shuffle, draw and choice is an
  arbitrary choice, so every property holds for every seed.
- `pattern.dfy` is the engine's "42"; `stencil.dfy` and `forthtwo.dfy` are
  the standalone stencil and its placement search.
- `pathfinder.dfy`, `outputwriter.dfy` and `validator.dfy` model the path
  finder, the export and the validators of the wall-mask engine.
- `settings.dfy`, `text.dfy` and `config.dfy` model the configuration
  reader. `text.dfy` covers `strip`, `split`, `lower`/`upper` and `int` on
  strings.
- `legacymaze.dfy`, `legacyvalidator.dfy`, `legacyconfig.dfy` and
  `legacyutils.dfy` model the binary-grid variant.

The randomness is modelled as choices, so the headline results hold for
every seed and every choice. After `GenerateMaze`, with any algorithm and any
`perfect` flag:

- neighbouring masks agree and the border is closed;
- the blocked cells are fully walled;
- the passages form a spanning forest of the free cells;
- two free cells are joined by open passages exactly when a chain of
  adjacent free cells links them.

## Model

| member | source | states |
|---|---|---|
| MazeEngine.Generator | mazegen/maze_generator.py:104-111 | the pass run: binary tree exactly for "binary_tree" without `perfect`, Prim exactly for "prim", the backtracker otherwise |
| MazeEngine.Maze.constructor | mazegen/maze_generator.py:26-33 | every mask 15, no blocked cell, no pattern origin |
| MazeEngine.Maze.IsBlocked | mazegen/maze_generator.py:38-39 | membership in the blocked set; only grid cells are ever blocked |
| MazeEngine.Maze.CarveWall | mazegen/maze_generator.py:152-153 | clears the bit toward `d` on the cell and the opposite bit on its neighbour, nothing else changes |
| MazeEngine.Maze.Reset | mazegen/maze_generator.py:84-90 | every mask 15, blocked set empty, origin None |
| MazeEngine.Maze.BlockCells | mazegen/maze_generator.py:68-77 | adds exactly the in-bounds translated offsets to the blocked set |
| MazeEngine.Maze.PlaceFour | mazegen/maze_generator.py:66-70 | on a grid with nothing blocked and a box that fits, the blocked set becomes exactly the cells of the "4" at the origin; masks and origin unchanged |
| MazeEngine.Maze.PlaceTwo | mazegen/maze_generator.py:72-76 | with a box that fits, the blocked set grows by exactly the cells of the "2", five columns right of the origin; masks and origin unchanged |
| MazeEngine.Maze.CloseCell | mazegen/maze_generator.py:79-81 | the mask of the one cell becomes 15 and every other mask, the blocked set and the origin stay (also the body of the `reset` loop, lines 86-88) |
| MazeEngine.Maze.CloseCells | mazegen/maze_generator.py:79-81 | the masks of the given cells become 15, all others unchanged |
| MazeEngine.Maze.Create42Pattern | mazegen/maze_generator.py:41-82 | placed iff the grid is at least 9 × 7; if not placed, no blocked cell, no origin and masks unchanged; if placed, the origin is the centred one, the blocked set is the 26 pattern cells and exactly they become 15 |
| MazeEngine.Maze.FindStart | mazegen/maze_generator.py:156-166 | the first free cell in row-major order, None iff no cell is free |
| MazeEngine.Maze.Dfs | mazegen/maze_generator.py:138-154 | the recursion: coherence and walled blocked cells kept, only walls removed, every newly seen cell reached from `c`, the seen set closed under free neighbours, a forest stays a forest |
| MazeEngine.Maze.DfsStep | mazegen/maze_generator.py:152-154 | one carve into an unvisited free neighbour, then the recursive call, keeping the same invariants |
| MazeEngine.Maze.CarveInto | mazegen/maze_generator.py:152-153 | the carve between a visited cell and an unvisited free neighbour connects the two, keeps a forest a forest and leaves every cell outside the visited ones and the two fully walled |
| MazeEngine.Maze.DfsVisit | mazegen/maze_generator.py:143-154 | one turn of the shuffled direction loop; the neighbour in that direction, if on the grid, is seen afterwards |
| MazeEngine.Maze.DfsAlgo | mazegen/maze_generator.py:123-168 | coherent, blocked cells walled, only walls removed, a forest; every free cell grid-reachable from the first free cell is passage-connected to it and every other cell stays fully walled |
| MazeEngine.Maze.BinaryTreeChoices | mazegen/maze_generator.py:177-183 | a direction is offered iff it is east or south and its neighbour is on the grid and not blocked |
| MazeEngine.Maze.BinaryTreeCell | mazegen/maze_generator.py:174-190 | a free cell opens its east or south wall toward a free in-bounds neighbour, or nothing; the forest is kept |
| MazeEngine.Maze.BinaryTreeRow | mazegen/maze_generator.py:172-190 | one row of the pass, keeping the pass invariant and the forest |
| MazeEngine.Maze.BinaryTreeAlgo | mazegen/maze_generator.py:170-190 | coherent, blocked cells walled, a forest in which each cell has at most one way out east or south |
| MazeEngine.Maze.AddFrontier | mazegen/maze_generator.py:211-225 | appends exactly the edges to in-bounds, free, unvisited neighbours, in N, E, S, W order |
| MazeEngine.Maze.PrimStep | mazegen/maze_generator.py:229-237 | one draw: the Prim invariant (frontier sound and complete, visited cells reached) and the forest kept; the unvisited cells or the frontier shrink |
| MazeEngine.Maze.PrimLoop | mazegen/maze_generator.py:229-237 | drawing until the frontier is empty keeps the invariant |
| MazeEngine.Maze.PrimAlgo | mazegen/maze_generator.py:192-237 | the same guarantees as the backtracker: coherent, forest, everything grid-reachable from the first free cell connected, the rest walled |
| MazeEngine.Maze.JoinCell | mazegen/maze_generator.py:277-286 | one cell of the first phase: afterwards every open east/south passage from the cells up to it joins one class, and every east/south pair of free cells from them is listed; a blocked cell adds nothing |
| MazeEngine.Maze.JoinRow | mazegen/maze_generator.py:276-286 | one row's `for x` loop: the same two facts extend to the whole row, with the union-find kept valid and covering the grid |
| MazeEngine.Maze.JoinEdge | mazegen/maze_generator.py:279-286 | records the edge to a free east or south neighbour and unions the two cells when the wall is open |
| MazeEngine.Maze.JoinAll | mazegen/maze_generator.py:274-286 | after the first phase, passage-connected cells share a class and the edge list holds every east/south pair of free cells |
| MazeEngine.Maze.RepairEdge | mazegen/maze_generator.py:289-294 | carves only between different classes, so no loop is closed; afterwards both ends share a class |
| MazeEngine.Maze.RepairAll | mazegen/maze_generator.py:288-294 | every listed edge ends with both cells in one class; coherence, walled blocked cells and the forest kept |
| MazeEngine.Maze.EnsureConnected | mazegen/maze_generator.py:239-294 | afterwards every two adjacent free cells are passage-connected; the forest is kept; on a grid already connected that way nothing changes, so a second run carves nothing |
| MazeEngine.Maze.Prepare | mazegen/maze_generator.py:101-102 | a fully walled grid carrying the centred pattern when it fits |
| MazeEngine.Maze.RunPass | mazegen/maze_generator.py:104-111 | whichever pass runs, the grid ends coherent, blocked cells walled, a forest |
| MazeEngine.Maze.GenerateMaze | mazegen/maze_generator.py:92-112 | coherent, blocked cells walled, a forest, pattern placed iff it fits, and two cells passage-connected iff linked by adjacent free cells |
| MazeEngine.Maze.Generate | mazegen/maze_generator.py:114-121 | the same guarantees as `GenerateMaze` |
| Grid.CarveCoherent | mazegen/maze_generator.py:152-153 | clearing a bit on both sides of an inner wall keeps neighbouring masks in agreement and the border closed |
| Grid.CarveBlockedClosed | mazegen/maze_generator.py:145-150 | a carve between two free cells leaves every blocked cell at 15 |
| Grid.AllClosedCoherent | mazegen/maze_generator.py:29-31 | the all-15 grid is coherent and has no passage |
| Walks.ConnectedCarve | mazegen/maze_generator.py:152-154 | after a carve, two cells are connected iff they were, or one reaches each end of the new passage |
| Forests.CarveJoin | mazegen/maze_generator.py:152-154 | carving between two unconnected cells adds one passage and removes one component, so a forest stays a forest |
| Forests.AllClosedForest | mazegen/maze_generator.py:84-90 | the all-15 grid is a forest: one component per free cell, no passage |
| PassageCount.CarveAddsPassage | mazegen/maze_generator.py:152-153 | clearing a standing inner wall adds exactly one passage |
| Reach.SpanningSearch | mazegen/maze_generator.py:156-168 | a search from the first free cell that saturates its seen set connects every cell grid-reachable from it and leaves the rest walled |
| Reach.AdjacentAllConnected | mazegen/maze_generator.py:239-294 | once adjacent free cells are connected, connection coincides with grid-reachability among free cells |
| Sinks.PassEnd | mazegen/maze_generator.py:172-190 | after the whole binary-tree pass every cell has decided its one way out |
| Frontiers.Remove | mazegen/maze_generator.py:231 | `pop(idx)`: the other entries in their order, one copy of the popped edge fewer |
| Frontiers.PrimDone | mazegen/maze_generator.py:229-237 | with an empty frontier every free neighbour of a visited cell is visited |
| Repair.JoinedConnected | mazegen/maze_generator.py:274-286 | after the first phase, connected cells carry the same class label |
| UnionFind.DisjointSet.constructor | mazegen/maze_generator.py:253-254 | every element its own class |
| UnionFind.DisjointSet.Find | mazegen/maze_generator.py:256-260 | returns the class root of `a`; path halving changes no class |
| UnionFind.DisjointSet.Union | mazegen/maze_generator.py:262-272 | the classes of `a` and `b` merge and no other class changes |
| UnionFind.DisjointSet.Link | mazegen/maze_generator.py:266-272 | links by rank: the lower-ranked root's parent becomes the other root and no rank changes; on a tie `rb` goes under `ra` and only `ra`'s rank grows by one; every class of the two roots is merged |
| UnionFind.HalvingKeepsAllRoots | mazegen/maze_generator.py:258 | `parent[a] = parent[parent[a]]` keeps the ranks well ordered and every root |
| CellIndex.IndexInjective | mazegen/maze_generator.py:250-251 | `y * width + x` gives distinct cells of the grid distinct indices |
| Random.Rng.Shuffle | mazegen/maze_generator.py:141 | a permutation of its input |
| Random.Rng.Randrange | mazegen/maze_generator.py:230 | a value in `[0, n)` |
| Random.Rng.Choice | mazegen/maze_generator.py:188 | an element of the non-empty list |
| PathFinder.IsWallBetween | mazegen/path_finder.py:9-26 | false exactly when the delta is a unit step and both cells are free with an open passage between them |
| PathFinder.BfsFindPath | mazegen/path_finder.py:29-71 | None for an off-grid or blocked end point; None iff end is unreachable; otherwise a walk from start to end through open passages, no longer than any other such walk; `[start]` when start == end |
| PathFinder.MoveLetter | mazegen/path_finder.py:80-92 | the letter of a unit step, nothing for any other delta |
| PathFinder.PathToMoves | mazegen/path_finder.py:74-94 | "" below two cells, at most one letter per step, letters from NESW |
| PathFinder.ReplayMoves | mazegen/path_finder.py:87-92 | on a unit-step path the letters replayed from the first cell retrace the path, one letter per step |
| PathFinder.WalkUnitSteps | mazegen/path_finder.py:60-69 | every walk through passages is a unit-step path |
| OutputWriter.HexDigit | mazegen/output_writer.py:13 | an uppercase hexadecimal digit |
| OutputWriter.HexValueOfDigit | mazegen/output_writer.py:13 | the digit of a mask reads back as the mask |
| OutputWriter.MazeToHexRows | mazegen/output_writer.py:9-15 | one string per grid row, one digit per mask |
| OutputWriter.HexRowsShape | mazegen/output_writer.py:9-15 | `height` rows of `width` digits, each the digit of its cell |
| OutputWriter.HexRowsRoundTrip | mazegen/output_writer.py:13 | decoding the rows gives back the wall grid exactly |
| OutputWriter.DecodedRowsExport | mazegen/output_writer.py:13 | every decodable text is the export of the grid it decodes to |
| OutputWriter.CoordinatesRoundTrip | mazegen/output_writer.py:32-33 | an `x,y` line splits back into the two numbers |
| OutputWriter.WriteOutputFile | mazegen/output_writer.py:18-40 | fails with the error message iff entry and exit are not connected; otherwise the lines are the rows, "", entry, exit and the moves, and the moves retrace a shortest walk |
| Validator.CountOpenPassages | mazegen/maze_validator.py:36-56 | the count is half the clear bits over all cells and directions |
| Validator.CountIsPassages | mazegen/maze_validator.py:56 | on a coherent grid that half equals the number of passages |
| Validator.IsPerfectMaze | mazegen/maze_validator.py:11-33 | true iff the count equals `width * height - 1` |
| Validator.PerfectIgnoresBlocked | mazegen/maze_validator.py:31-33 | every generated maze with two or more blocked cells fails that test |
| Validator.IsPerfectMazeFree | mazegen/maze_validator.py:31-33 | true iff the count equals the free cells less one |
| Validator.PerfectFreeMeansConnected | mazegen/maze_validator.py:11-18 | on a generated maze that count test holds iff the free cells form one connected component |
| Validator.ValidateEntryExit | mazegen/maze_validator.py:59-77 | true iff both points are in bounds and distinct |
| Validator.WindowOpen | mazegen/maze_validator.py:143-150 | true iff all nine masks of the window are 0 |
| Validator.Has3x3OpenAreas | mazegen/maze_validator.py:128-153 | true iff some 3×3 window on the grid has all nine masks 0 |
| Validator.ValidateMazeStructure | mazegen/maze_validator.py:156-181 | valid entry and exit and no fully open 3×3 window |
| Validator.ProbeNeighbours | mazegen/maze_validator.py:111-123 | appends exactly `OpenFresh` of the four directions in N, E, S, W order: each neighbour behind a clear bit, in bounds and unvisited, once; all of them are marked visited |
| Validator.ProbeDirection | mazegen/maze_validator.py:117-123 | one direction: its neighbour is appended and marked iff it is behind a clear bit, in bounds and not yet marked, which extends `OpenFresh` by that direction |
| Validator.OpenFreshMember | mazegen/maze_validator.py:111-123 | a cell is listed iff it is the neighbour in one of the directions, behind a clear bit, on the grid and unvisited |
| Validator.OpenFreshFacts | mazegen/maze_validator.py:121-123 | the listed neighbours are different, unvisited grid cells |
| Validator.HasMultiplePaths | mazegen/maze_validator.py:80-125 | always false: with the visited set, end is dequeued at most once; this holds for a start off the grid too, read with wrapped indices, and for a start equal to end, which is never read |
| Validator.WrappedMask | mazegen/maze_validator.py:120 | `walls[y][x]` with negative indices counted from the end: the cell's own mask on the grid, some on-grid cell's mask off it |
| Validator.ExpandDequeued | mazegen/maze_validator.py:110-123 | expanding one dequeued cell keeps the queue free of repeats and of dequeued cells, and either shrinks the unvisited cells or changes nothing |
| Validator.DequeuedReadable | mazegen/maze_validator.py:104-120 | every dequeued cell other than end can be indexed: it is the start or an in-bounds cell |
| Validator.QueueGrows | mazegen/maze_validator.py:97-123 | the queue never holds a cell twice, and each enqueue shrinks the unvisited cells |
| FortyTwo.Get42Pattern | mazegen/forth_two.py:9-48 | the "4" at the start and the "2" four columns right, as the stencil at the start |
| FortyTwo.StencilShape | mazegen/forth_two.py:20-48 | 20 distinct cells inside the 7 × 5 box, the start among them |
| FortyTwo.StencilTranslates | mazegen/forth_two.py:38-46 | the stencil at `o` is the stencil at the origin moved by `o` |
| FortyTwo.Conflict | mazegen/forth_two.py:73-77 | true iff some cell is in `avoid_path` or off the grid |
| FortyTwo.ScanOrigins | mazegen/forth_two.py:67-80 | the first scanned origin in row-major order whose stencil fits, or none fits |
| FortyTwo.EdgeFallback | mazegen/forth_two.py:83-98 | the first listed edge place with non-negative coordinates and no conflict, else (1, 1) |
| FortyTwo.Find42Location | mazegen/forth_two.py:51-98 | as written: the first fitting origin with `start_y < height - 5` and `start_x < width - 7`, else the fallback |
| FortyTwo.ScanMissesLastOrigin | mazegen/forth_two.py:67-68 | on a 7 × 5 grid the stencil fits at (0, 0), no scanned origin exists, and the answer (1, 1) does not fit |
| FortyTwo.Find42LocationFixed | mazegen/forth_two.py:67-68 | the first origin whose stencil fits the grid, whenever one exists |
| Pattern42.PatternShape | mazegen/maze_generator.py:13-24 | the engine's pattern is 26 distinct cells inside its 9 × 7 box |
| Pattern42.CentredFits | mazegen/maze_generator.py:46-63 | the centred origin of a grid of at least 9 × 7 puts the box on the grid |
| ConfigParser.Validate | mazegen/parser.py:24-78 | the first failing check names the error; no error iff width and height are positive, entry and exit are in bounds and distinct, the output file is not blank and algo is "dfs" or "binary_tree" |
| ConfigParser.BlankOutputFileRefused | mazegen/parser.py:57-59 | a whitespace-only output file name is refused |
| ConfigParser.ParseDict | mazegen/parser.py:81-120 | missing-key error iff a required key is absent, naming exactly the absent ones; otherwise the record with defaults seed None, algo "dfs", display true, accepted iff it validates |
| ConfigParser.ReadFlag | mazegen/parser.py:191-199 | true for true/1/yes and false for false/0/no, in any case, nothing else |
| ConfigParser.ReadFlagIgnoresCase | mazegen/parser.py:192-194 | reading a flag does not depend on its case |
| ConfigParser.ReadValue | mazegen/parser.py:168-214 | a value of the kind its key needs, or a typed error |
| ConfigParser.ParseLine | mazegen/parser.py:152-214 | skipped iff blank or a comment; a missing `=` error iff neither and no `=`; any value set is well typed |
| ConfigParser.FirstBadLine | mazegen/parser.py:157-214 | reading fails iff some line fails, and the error is that of the first failing line |
| ConfigParser.LastLineWins | mazegen/parser.py:170-210 | a key set on several lines keeps the value of the last |
| ConfigParser.FileNeverMistyped | mazegen/parser.py:123-219 | a dictionary read from a file never holds a value of the wrong kind |
| ConfigParser.ParseFile | mazegen/parser.py:147-219 | the line loop computes the pure reading of the file |
| Settings.ReadPairOfNumbers | mazegen/parser.py:176-181 | two written numbers joined by a comma read back as the pair |
| LegacyConfig.KeyNamed | config_parser.py:26-32 | a name is a known key only if it is one of the six required keys |
| LegacyConfig.ReadLine | config_parser.py:17-28 | blank iff the stripped line is empty or starts with `#`; missing `=` iff not blank and no `=` |
| LegacyConfig.Convert | config_parser.py:38-75 | a converted value always has the type its key requires |
| LegacyConfig.Missing | config_parser.py:79-81 | no missing-key error iff every required key is present |
| LegacyConfig.FirstValueKept | config_parser.py:34-36 | a key is stored iff some line gives it a good value, and it keeps the value of the first such line |
| LegacyConfig.ScanTyped | config_parser.py:38-77 | every stored key is required and holds a value of its type |
| LegacyConfig.DuplicateRecorded | config_parser.py:34-36 | a later line naming a key already stored records a duplicate error with its line number |
| LegacyConfig.RepeatedKeyRefused | config_parser.py:34-36 | a repeated key makes the whole result `{}` |
| LegacyConfig.ParseOutcome | config_parser.py:83-89 | any error gives `{}`; with no error the dictionary holds exactly the six required keys with typed values |
| LegacyConfig.ParseLine | config_parser.py:17-77 | one pass of the loop, with its `continue`s, does to the dictionary and the errors what the pure reading of that line does |
| LegacyConfig.ScanLines | config_parser.py:16-77 | the loop over all the lines leaves the dictionary and the errors of the pure reading of the file |
| LegacyConfig.AddMissing | config_parser.py:79-81 | one missing-key error is appended per absent required key, in the order of the required table |
| LegacyConfig.Parser | config_parser.py:1-97 | the line loop with its `continue`s computes the pure reading of the lines |
| LegacyMaze.RoundOdd | maze_generator.py:10-11 | an odd size, the given one or one more |
| LegacyMaze.AllWall | maze_generator.py:12-15 | a grid of the rounded size with no path cell |
| LegacyMaze.Open | maze_generator.py:35-36 | one more path cell, nothing else changes |
| LegacyMaze.ConnectedKept | maze_generator.py:22-52 | opening cells never disconnects two connected cells |
| LegacyMaze.Pushed | maze_generator.py:30-38 | a push jumps two cells to an in-bounds wall cell, opens it and the midpoint, and keeps every stacked cell reachable from the start |
| LegacyMaze.SearchDone | maze_generator.py:24-42 | when the stack empties, every cell the search opened is connected to the start through path cells |
| LegacyMaze.Maze.constructor | maze_generator.py:9-15 | both sizes rounded up to odd and every cell a wall |
| LegacyMaze.Maze.Carve | maze_generator.py:21-42 | only walls become paths, the start becomes a path, and every cell opened is connected to the start |
| LegacyMaze.Maze.SearchStep | maze_generator.py:24-42 | one turn of the stack loop keeps the search's facts and either gives more cells a walk from the start or shortens the stack |
| LegacyMaze.Maze.FirstLanding | maze_generator.py:29-39 | the jump taken is the first, in the shuffled order, that lands in bounds on a wall; when none does, no jump lands on a wall |
| LegacyMaze.Maze.Push | maze_generator.py:35-38 | the cell passed over and the wall landed on become paths, the latter is pushed, and one more cell has a walk from the start |
| LegacyMaze.Maze.MakeImperfect | maze_generator.py:47-52 | fails iff a draw range is empty; otherwise `(w*h)//20` draws, all strictly interior, and only drawn cells change |
| LegacyMaze.Maze.Generation | maze_generator.py:17-45 | only walls become paths; the start is a path; every new path cell is connected to the start, or lies strictly inside when `perfect` is false; fails only when the imperfect pass has an empty range |
| LegacyValidator.ValidateEntryExit | maze_validator.py:47-62 | true iff both cells are path cells of the grid; they may coincide |
| LegacyValidator.Has3x3OpenAreas | maze_validator.py:65-79 | true iff some 3×3 window on the grid is all path cells |
| LegacyValidator.PathCountPositive | maze_validator.py:25-44 | the path count below a partial path is positive iff it can be continued to end through new, adjacent path cells that reach end only at the last step |
| LegacyValidator.WeighSound | maze_validator.py:34-42 | a positive count comes from an actual continuation to end |
| LegacyValidator.WeighComplete | maze_validator.py:34-42 | every continuation to end is counted |
| LegacyValidator.RouteFromNext | maze_validator.py:37-42 | a continuation of a path not yet at end passes next through a fresh path-cell neighbour of its last cell |
| LegacyValidator.RoutesSound | maze_validator.py:34-42 | every gathered sequence is a continuation of the path to end |
| LegacyValidator.RoutesBelowSound | maze_validator.py:37-42 | what the first k moves gather continues the path through one of those k moves |
| LegacyValidator.RoutesComplete | maze_validator.py:34-42 | every continuation of the path to end is gathered |
| LegacyValidator.RoutesBelowIncludes | maze_validator.py:37-42 | the first k moves gather everything each of them gathers |
| LegacyValidator.RoutesThrough | maze_validator.py:41-42 | everything gathered through a neighbour passes through it right after the path |
| LegacyValidator.RoutesCount | maze_validator.py:34-42 | the path count equals the number of gathered continuations: each is counted once |
| LegacyValidator.RoutesBelowCount | maze_validator.py:37-42 | the first k moves count exactly the continuations they gather, since different moves gather disjoint sets |
| LegacyValidator.PathCountIsRoutes | maze_validator.py:25-44 | the path count is the size of a set whose members are exactly the simple continuations to end |
| LegacyValidator.TwoRoutes | maze_validator.py:25-44 | the path count is 2 or more iff two different simple continuations to end exist |
| LegacyValidator.OneRoute | maze_validator.py:25-44 | the path count is 1 iff exactly one simple continuation to end exists |
| LegacyValidator.QueueWeightAppend | maze_validator.py:42 | appending an extension adds its count to the queue's |
| LegacyValidator.Expand | maze_validator.py:38-42 | the four moves queue exactly the extensions of the path onto fresh path cells, so the queue's count of remaining paths grows by theirs |
| LegacyValidator.CountPathsBfs | maze_validator.py:25-44 | returns `min(max_paths, N)`, 0 when `max_paths <= 0`, N being the size of the set of distinct simple start-to-end paths through path cells |
| LegacyValidator.VerifyWallCoherence | maze_validator.py:82-110 | always true |
| LegacyExport.CellMask | mazegen/utils.py:7-31 | each bit is set iff the cell is on that border or its neighbour on that side is a wall: N 1, E 2, S 4, W 8 |
| LegacyExport.EncodeCellWalls | mazegen/utils.py:7-33 | one uppercase hexadecimal digit, which reads back as the cell's mask |
| LegacyExport.ExportCoherent | mazegen/utils.py:41-48 | on a binary grid the exported masks agree between neighbours and close the border |
| LegacyExport.ExportLinks | mazegen/utils.py:17-31 | on a binary grid an exported passage joins exactly two neighbouring path cells |
| LegacyExport.StepLetter | mazegen/utils.py:61-70 | N for a row decrease, S for an increase, then E or W by column, nothing for the same cell |
| LegacyExport.Directions | mazegen/utils.py:58-70 | "" below two cells, at most one letter per step, letters from NESW |
| LegacyExport.DirectionsPerStep | mazegen/utils.py:58-70 | one letter per step when consecutive cells differ, whether or not the steps are unit steps |
| LegacyExport.DirectionsAgree | mazegen/utils.py:58-70 | on a unit-step path the letters are those of the path finder's move encoder |
| LegacyExport.DirectionsReplay | mazegen/utils.py:58-70 | on a unit-step path the letters retrace the path from its first cell |
| LegacyExport.SavedLinesShape | mazegen/utils.py:36-71 | `height` rows of `width` digits that decode to the exported maze, an empty line, then three lines exactly when entry, exit and path are all given |
| LegacyExport.SavedCell | mazegen/utils.py:44-47 | a path cell is written as the digit of its walls, any other cell as `F` |
| LegacyExport.RowLine | mazegen/utils.py:42-48 | the cell loop builds the digits of the exported row |
| LegacyExport.DirectionLine | mazegen/utils.py:59-71 | the step loop builds the direction letters of the path |
| LegacyExport.SaveMazeLines | mazegen/utils.py:36-71 | the lines written are the saved lines of the grid, entry, exit and path |

## Left out

- File and console I/O: `open`, `write`, `print` and the exception wrappers around them. Input files are sequences of lines; written files are sequences of lines without their newline characters.
- The concrete generator behind `random.Random(seed)` and seed determinism. Every shuffle, `randrange` and `choice` is an arbitrary choice. The binary-grid generator's fallback to the global `random` module when no seed is given is not modelled either.
- Python's recursion limit, which the recursive backtracker can reach on large grids.
- Unicode case mapping and whitespace beyond ASCII in `strip`, `lower` and `upper`. The ASCII whitespace that `strip` removes (space, tab, line feed, carriage return, vertical tab, form feed, and the separators 28 to 31) is modelled.
- Python's full `int()` grammar. Only an optional sign and decimal digits, with surrounding whitespace, are read.
- Rendering and the user interface (pygame, curses, ANSI output, key handling, sleeps), the entry-point scripts and the re-export modules.
- `get_dynamic_sleep` (mazegen/utils.py:3-4), because it computes with floats.
- `has_multiple_paths` in maze_validator.py: it calls `solve_maze` from a `pathfinder` module that is not part of this model.
- `MazeConfig`'s `isinstance` checks for `perfect`, `display` and `seed`, and `parse_dict`'s acceptance of any dictionary values. Values are typed (`Settings.Value`), and a value of the wrong kind is a `WrongType` error.
- Validator.HasMultiplePaths: requires a start that Python can index or that equals end. A start past the last row or column, or below minus the size, makes Python raise `IndexError`; that error is not modelled.
- LegacyMaze.Maze.Generation: requires the start cell on the grid. Python would wrap a negative index to the far side and raise on one past the end; neither is modelled.
- LegacyMaze.Maze.Generation: `ok` false stands for the `ValueError` that `randrange` raises on an empty range, and the model does not say which cells were opened before it.
- LegacyValidator.ValidateEntryExit and LegacyValidator.Has3x3OpenAreas: they require the grid to be well formed (`Valid`), which every constructed maze is.
- ConfigParser.ParseFile, LegacyConfig.Parser: errors are values, not exceptions, and they carry the line number and the kind of problem rather than the message text.

## Findings

| source | as written | input that shows it | evidently intended | confidence | as-written member | corrected member |
|---|---|---|---|---|---|---|
| mazegen/maze_validator.py:31-33 | `is_perfect_maze` expects `width * height - 1` passages, counting blocked cells | any generated maze of at least 9 × 7, where the 26 pattern cells are blocked | a spanning tree of the free cells has one passage fewer than the free cells | not executed | Validator.PerfectIgnoresBlocked | Validator.PerfectFreeMeansConnected |
| mazegen/forth_two.py:67-68 | the scan takes `start_y in range(height - 5)` and `start_x in range(width - 7)`, which misses the last row and column of origins that fit | a 7 × 5 grid with nothing to avoid returns (1, 1), whose stencil runs off the grid, although (0, 0) fits | scan `range(height - 4)` and `range(width - 6)` | not executed | FortyTwo.ScanMissesLastOrigin | FortyTwo.Find42LocationFixed |
