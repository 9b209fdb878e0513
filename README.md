# savethepony maze client: a Dafny model of the maze core

`index.js` implements a browser client for the pony-challenge maze game. A
`Maze` object asks the maze service to create a maze and remembers its id. It
fetches the maze state (pony, Domo-kun, end point and the cell walls) and checks
whether the game is over. It turns arrow keys into moves. In cheat mode it
highlights a shortest path from the pony to the end point, found by a
breadth-first search.

This project models that core in four modules:

- `Wrappers` (`wrappers.dfy`): `Option` and `Result`.
- `Grid` (`grid.dfy`): the wall model.
  - The maze is a flat sequence of cells, `width` per row.
  - Each cell holds the tags `North` and `West` for the walls on its own north and west sides.
  - The wall checks of the keyboard handler (`CanGo`, whose cell must exist: `CanGoDefined`) and of the solver (`Open`, `Adjacent`).
  - The border condition `Bordered`: the leftmost column has its west walls and the top row its north walls. The model assumes that the service's mazes meet it; the client never checks it. The facts it implies: moves stay on the grid, never wrap across a row, and can be undone.
- `Solver` (`solver.dfy`): the breadth-first search `solve` and the walk up the parent links.
  - The search is imperative, as in the source. The FIFO queue is the suffix `nodes[head..]` of the sequence of every node created, which is how `push`/`shift` act on the source's array. A node's `parent` is the position of its parent node.
  - `visited` is the source's list of visited cells, searched linearly as `includes` does.
  - A ghost `level` sequence (the depth of each visited cell) carries the optimality proof.
  - A reference search written as functions (`Branch`, `Expansion`, `Run`, `Bfs`) fixes which nodes the imperative search creates, in which order, and where it stops. `CheatPath` is the path that reference search highlights.
- `Game` (`maze.dfy`): the `Maze` class.
  - Its fields are the ones the source reassigns: `mazeId`, `cheating`, `completed`, `pony`, `domokun`, `endPoint`, `data`.
  - Its methods are the constructor's size check, the `cheating` setter, `keydown`, `mazeCompleted`, the continuation of `renderMaze`, and `solveMaze`.

The main results:

- The search terminates. It creates exactly the nodes of the reference search, at most one per cell. Every node is one legal move from its parent. Nodes come in FIFO order with children in the order west, east, south, north.
- The node it stops at has a parent chain no longer than any route from the start. When it falls back to the start node, the end point is unreachable.
- In consequence, the cheat-mode path is the one the reference search highlights, and it is exactly the interior of a shortest route, nearest to the end point first, or empty when there is none.

Behaviour of the code worth knowing:

- The highlighted path is not reversed: it lists cells from the end point back towards the pony.
- An unreachable end point gives no error. The search returns the start node and the path is empty.
- No check ties the length of `data` to `width * height`.
- The search's west and north moves, and the keyboard's east and south checks, do no bounds check. The model does not add one: it relies on the border condition or a precondition instead.
- The error the constructor throws for a bad height reads "Width must be between 15 and 25", as in the source.

## Model

| member | source | states |
|---|---|---|
| Game.SizeCheck | index.js:9-15 | the size check passes exactly when width and height both lie in 15..25; otherwise it fails with the constructor's single message |
| Game.Maze.Create | index.js:8-20 | construction fails exactly when the size check fails, with its message; otherwise a fresh maze with no id, cheat mode off and the given sizes |
| Game.Maze.constructor | index.js:17-20 | a new maze has its sizes, an empty id, cheat mode off and the game not over |
| Game.Maze.Created | index.js:36-38 | the id returned by the creation request is stored |
| Game.Maze.SetCheating | index.js:53-58 | the flag takes the new value, and a re-render is requested exactly when the value changed |
| Grid.Step | index.js:267-281 | the flat index of the neighbour in each direction: one less, one more, one row more, one row less; its body is that arithmetic |
| Grid.Bordered | index.js:267-281 | the border walls assumed of the service's mazes: a west wall on every cell of the leftmost column and a north wall on every cell of the top row; its body is that condition |
| Grid.CanGo | index.js:61-75 | the keyboard's wall checks: north and west read the pony's own cell, south the north wall of the cell below, east the west wall of the cell to the right; its body is those checks |
| Grid.Open | index.js:267-279 | the solver's branch tests: the same wall reads, with the east and south moves also refused when the neighbouring cell is missing; its body is those tests |
| Grid.CanGoAgreesWithOpen | index.js:61-75 | wherever the keyboard's wall check reads an existing cell, it agrees with the solver's wall test for the same move |
| Grid.BorderBlocks | index.js:61-75 | on a bordered maze the keyboard refuses west moves from the first column, north moves from the top row and east moves from the last column |
| Game.KeyDirection | index.js:84-91 | a key yields a direction exactly when it is one of the arrow codes 37..40; 37 gives west, 38 north, 39 east and 40 south |
| Game.Maze.Keydown | index.js:77-94 | a move comes out exactly when the game is not over, the key is an arrow key and its wall check passes; it is that key's direction, and on a bordered maze it is a legal solver move |
| Game.Maze.MazeCompleted | index.js:189-190 | the game is marked over |
| Game.Completion | index.js:230-234 | the pony escapes exactly when on the end point, even if the Domo-kun is there too; it is eaten exactly when on the Domo-kun's cell and not on the end point; otherwise the game goes on |
| Game.Maze.Render | index.js:212-246 | without an id nothing changes; otherwise the returned state is stored, the game becomes over exactly when it was over or the state ends it, and the path is, in cheat mode, the one the reference search highlights and the interior of a shortest route, and empty otherwise |
| Game.Maze.SolveMaze | index.js:253-294 | the path is the one the reference search highlights (`CheatPath`), and it is the interior of a shortest route from the pony to the end point, end-point side first, or empty when they coincide or no route exists |
| Grid.OpenStaysOnGrid | index.js:267-281 | on a bordered maze every move the solver expands leads to a cell of the grid |
| Grid.NoWrap | index.js:267-281 | on a bordered maze west and east moves keep the row and change the column by one; south and north moves keep the column and change the row by one |
| Grid.MoveReversible | index.js:267-281 | on a bordered maze a solver move can be undone by the opposite move |
| Grid.AdjacentSymmetric | index.js:267-281 | on a bordered maze one-move adjacency is symmetric |
| Solver.Chain | index.js:288-290 | the chain from a node starts with that node's cell |
| Solver.Without | index.js:291-293 | the filtered sequence holds exactly the cells of the input other than the two excluded ones, and is no longer |
| Solver.Solve | index.js:253-286 | the returned nodes are those of the reference search `Bfs`, and the node returned is where it stops, or the start node when its queue runs empty. They form a search tree: start node first, parents earlier and one legal move away, all cells distinct and on the grid. They come in FIFO order with children west, east, south, north. The node returned either holds the end point with a parent chain no longer than any route, or is the start node and the end point is unreachable |
| Solver.Branch | index.js:267-281 | one branch of the reference search: push the neighbour with the front node as parent and visit its cell when the move is open and the cell unvisited; its body is that branch |
| Solver.Expansion | index.js:267-281 | one expansion of the reference search: the west, east, south and north branches in that order; its body is that composition |
| Solver.Run | index.js:262-283 | the reference queue loop: stop at a front node for the end point or an empty queue, otherwise expand and move on; its body is that loop, which also stops after as many rounds as there are cells, a bound the search never reaches |
| Solver.Bfs | index.js:255-283 | the reference search from the start node alone; its body is that call |
| Solver.Rounds | index.js:262-283 | the node and visited lists after a given number of rounds of the reference search |
| Solver.Trace | index.js:262-283 | the rounds of the reference search form a trace: the start lists first, then each entry the expansion of the one before |
| Solver.RunRound | index.js:262-283 | a round of the reference loop that does not stop expands the front node and goes on at the next one |
| Solver.RunStops | index.js:262-266 | the reference loop stops, unchanged, at a front node for the end point or at an empty queue |
| Solver.ExpansionExtends | index.js:268-281 | an expansion only appends nodes |
| Solver.RoundsPrefix | index.js:262-283 | the node list of an earlier round is a prefix of that of a later round |
| Solver.RoundsStall | index.js:262 | once the queue is empty, later rounds change nothing |
| Solver.RoundsFront | index.js:262-283 | while the queue is not empty at a round, it was not empty at any earlier round, and every earlier front node stays in place |
| Solver.RunReplays | index.js:262-283 | while no dequeued node is the end point, the reference loop started from an earlier round gets where the one from a later round gets |
| Solver.CheatPath | index.js:288-294 | the path the reference search highlights: the strict ancestors of the node where it stops, nearest first, without the pony and the end point |
| Solver.Search | index.js:255-283 | the queue loop keeps the search state and stops at the first dequeued node for the end point, or with the queue empty; its lists are those of the reference search after as many rounds as it dequeued nodes |
| Solver.Initial | index.js:255-260 | the queue holding only the start node, with only the start visited, is a valid search state |
| Solver.Expand | index.js:263-282 | expanding the front node keeps the search state, marks that node fully expanded, and gives the lists of the next round of the reference search: the four branches west, east, south, north applied to the old lists |
| Solver.Visit | index.js:267-282 | one branch of the expansion keeps the search state and extends it past one direction; it appends the neighbour's node, with the front node as parent, and its cell exactly when the move is open and the cell not yet visited, and otherwise changes nothing |
| Solver.Push | index.js:268-281 | pushing an open, unvisited neighbour adds exactly one node with the front node as parent and visits its cell, keeping the search state |
| Solver.PushTree | index.js:268-281 | the push keeps the node list a search tree, and the visited list in step with it |
| Solver.PushOrder | index.js:268-281 | the push keeps the FIFO order and the west, east, south, north order of siblings |
| Solver.PushLevels | index.js:268-281 | the push gives the new cell the level below its parent, and levels still never decrease along the queue |
| Solver.PushExpanded | index.js:268-281 | the push records the new neighbour as reached within one level |
| Solver.Skip | index.js:267-282 | a branch that pushes nothing (wall, or cell already visited) still leaves that neighbour reached within one level |
| Solver.Advance | index.js:262-263 | once the front node is expanded in all four directions, the queue moves on to the next node |
| Solver.RankOfStep | index.js:267-281 | on a bordered maze the index difference of a move identifies its direction |
| Solver.DistinctBound | index.js:259-283 | a list of distinct visited cells is no longer than the grid, which bounds the queue and ends the loop |
| Solver.ChainLevel | index.js:288-290 | a node's parent chain is one cell longer than its depth |
| Solver.Frontier | index.js:262-283 | while all shallower nodes are expanded, the i-th cell of any walk from the start is visited at depth at most i |
| Solver.FoundIsShortest | index.js:262-266 | the first node dequeued for a cell has a parent chain no longer than any route to that cell |
| Solver.NoRoute | index.js:262-285 | when the queue runs empty without the end point, no route reaches it |
| Solver.Finished | index.js:262-286 | the two ways out of the loop give exactly what `Solve` promises |
| Solver.Unwind | index.js:288-294 | the reconstruction loop returns the cells of the found node's strict ancestors, nearest first, that are neither the pony nor the end point |
| Solver.UnwindStep | index.js:290-293 | one step up the parent links moves the parent's cell from the rest of the chain to the path, unless it is excluded |
| Solver.ChainIsRoute | index.js:288-290 | a node's parent chain, reversed, is a route from the start to that node's cell |
| Solver.ShortestRouteSimple | index.js:262-266 | a shortest route passes through its start only at its first cell and through its end only at its last |
| Solver.EndsOnlyAtEnds | index.js:291 | a shortest route between two different cells has at least two cells, and its interior avoids both ends |
| Solver.DropEnds | index.js:291-293 | leaving out the pony and the end point from the chain after its first cell leaves exactly the interior |
| Solver.Reconstructed | index.js:288-294 | for the found node, the path with the pony before it and the end point after it, reversed, is a shortest route; it is empty when the pony stands on the end point |
| Solver.Interior | index.js:288-294 | the chain of a shortest route, with its ends cut off by the filter and put back, is that route |
| Solver.Highlighted | index.js:285-294 | whatever the search returns, the unwound path is the interior of a shortest route, or empty when there is none |
| Solver.HighlightedFound | index.js:288-294 | when the search reached the end point, the unwound path is the interior of a shortest route |

## Left out

- Network requests: the creation `POST` (index.js:22-42), the move `POST` (index.js:96-110) and the state `GET` (index.js:217-223). The maze id arrives through `Created`. The state arrives as a `Snapshot` passed to `Render`. `Keydown` returns the move it would post.
- JSON decoding and `parseInt` (index.js:224-228): the snapshot carries integers and decoded wall sets.
- Errors from the service and their `console.error` logging.
- The player name passed to the constructor: the game logic never reads it.
- DOM work: `createMaze` and `updateMaze` (index.js:113-187), the render choice between them (index.js:236-240), the cell-marking loop of `solveMaze` (index.js:296-309) and `unsolveMaze` (index.js:312-320). The marking loop skips the Domo-kun's cell. The path it marks is modelled, not the marking.
- The fading animation and the result label of `mazeCompleted` (index.js:191-209): they use a timer and floating-point opacity. Only the `completed` latch is kept.
- Page start-up, the `sessionStorage` flag and the pony-name table (index.js:323-347).
- The re-render that the `cheating` setter triggers (index.js:57): `SetCheating` returns whether it would happen.
- Asynchrony: the model runs a render continuation as one atomic step.
- Game.Maze.Keydown: when the key's wall check would read a cell outside `data`, the source throws. The model excludes that case by a precondition.
- Game.Maze.Render and Game.Maze.SolveMaze: cheat mode needs a bordered maze with the pony on the grid. The source's west and north moves do no bounds check, so on other mazes they could index off the grid or wrap across rows.
- Game.SizeCheck: takes the sizes as integers. The source's sizes are JavaScript numbers, so a fractional size such as 15.5 passes the range checks of index.js:9 and 13, and so does `NaN`, for which both comparisons are false. The model has no such values.
- Game.Maze.constructor: the fields the source leaves undefined until the first render start as 0, the empty sequence and `false`.
