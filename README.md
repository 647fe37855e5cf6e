# Maze generation, rasterising and graph search, verified in Dafny

This project models the core of a small Rust maze pipeline. The pipeline has six parts:

1. **Grid and cells.** A grid of cells, each with four wall flags in the order top, right, bottom, left. A new grid has every wall closed. Neighbour lookup is bounds-checked.
2. **Maze carver.** A randomised depth-first carver (`RandomisedDFS::generate`). It opens walls in place, using an explicit stack and a visited set.
3. **Rasteriser.** It turns a grid into a grey image of (2·cols+1) × (2·rows+1) pixels.
4. **Offset getter.** A boundary-aware step function that answers in (row, col) order.
5. **Graph builder.** It keeps an adjacency map undirected by construction.
6. **Graph search.** Breadth-first search returns a parent-pointer map. A* uses a binary heap whose order is reversed on cost, and keeps a persistent path map.

Each Rust file is one Dafny module:

| Module | File | Models |
|---|---|---|
| `Maze` | `maze.dfy` | `src/algo/maze.rs` |
| `Util` | `util.dfy` | `src/util.rs` |
| `GridImage` | `grid_image.dfy` | the `Into<ImageBuffer>` impl of `src/algo/grid.rs` |
| `Dfs` | `dfs.dfy` | `src/algo/randomised_dfs.rs` |
| `Search` | `search.dfy` | `src/graph/graph.rs` |
| `Builder` | `builder.dfy` | `src/graph/builder.rs` |
| `Wrappers` | `wrappers.dfy` | `Option` |

The headline results:

- **Perfect maze.** For every sequence of random picks, `generate` leaves a perfect maze:
  - neighbours agree on every shared wall;
  - the outer boundary stays closed;
  - exactly rows·cols − 1 passages are open;
  - every cell is connected to (0, 0);
  - the passages contain no cycle.
- **Image.** The image `into` paints equals, pixel for pixel, a reference picture defined from the parity of the pixel coordinates.
- **BFS.** It answers Some exactly when `end` is reachable. Its parent chain is a shortest walk.
- **A\*.** It terminates when distances are non-negative. Every score is the cost of a real walk. When the heap runs dry, every score is optimal.
- **Builder.** Every builder operation keeps the adjacency undirected. `from_edges` builds exactly the partner sets of its edge list.

Inputs the source takes from outside become parameters or nondeterministic choices:

- the random pick of `choose` is an arbitrary index into the list;
- the heuristic and distance closures of `astar` are function parameters;
- the iteration order of `HashSet`/`HashMap` is an arbitrary order;
- `BinaryHeap::pop` removes the greatest entry of a multiset under `QueueItem::cmp`.

## Model

| member | source | states |
|---|---|---|
| `Maze.WallIndex` | src/algo/randomised_dfs.rs:70-83 | The flag each direction selects, as `update_cell_walls` and the rasteriser (src/algo/grid.rs:109-163) index `walls`: below 4, and in the order [top, right, bottom, left] of the flags a new cell gets (src/algo/maze.rs:28). |
| `Maze.Opposite` | src/algo/maze.rs:14-21 | The opposite direction differs from `d`, and its wall index lies two places round the cell (index + 2 mod 4). |
| `Maze.OppositeInvolutive` | src/algo/maze.rs:14-21 | Taking the opposite twice gives back the original direction. |
| `Maze.MoveOpposite` | src/algo/maze.rs:14-21 | A step in `d` followed by a step in the opposite direction returns to the start, and no step stays in place. |
| `Maze.NewCell` | src/algo/maze.rs:33-39 | A new cell has the given coordinates and four closed walls. |
| `Maze.BuildMatrix` | src/algo/maze.rs:54-67 | The push loops build `rows` rows of `cols` cells each. The cell at [y][x] is the closed cell with coordinates (x, y). |
| `Maze.NewGrid` | src/algo/maze.rs:105-109 | The new grid records its dimensions, is well formed (each cell at [y][x] knows its own coordinates), and has every wall closed. |
| `Maze.GetNeighborCell` | src/algo/maze.rs:69-103 | None exactly on the edge the direction points through. Equivalently, None exactly when the step leaves the grid. Otherwise the result is the grid's cell at the stepped position. |
| `Maze.NeighborIsAdjacent` | src/algo/maze.rs:77-102 | In a well-formed grid, the neighbour found carries the coordinates one step away in that direction. |
| `Maze.NeighborSymmetric` | src/algo/maze.rs:69-103 | Looking back from the neighbour in the opposite direction finds the cell at the starting position. |
| `Util.Offset` | src/util.rs:8-42 | For each direction, None exactly on the box edge the closure tests. Otherwise the (row, col) answer, swapped back to (x, y), is the point one step away. |
| `Util.BuildOffsetGetter` | src/util.rs:4-43 | The returned closure is defined, and gives the offset answer, for every argument whose `u32` arithmetic does not overflow. |
| `Util.OffsetStaysInBox` | src/util.rs:8-42 | From a point inside the box no subtraction underflows, and every Some answer is again inside the box. |
| `Util.OffsetRoundTrip` | src/util.rs:10-41 | Stepping in `d`, swapping back to (x, y) and stepping in the opposite direction returns `Some` of the start point. |
| `Util.OffsetAgreesWithGrid` | src/util.rs:10-41 | Over the box (0, 0) to (cols, rows), the getter and `get_neighbor_cell` agree on None. When both answer, the getter's (row, col) indexes the cell the lookup returns. |
| `GridImage.ImageExtent` | src/algo/grid.rs:78-85 | With size, gap and border all 1, an image side over n ≥ 1 cells is 2n + 1 pixels. |
| `GridImage.LitByCellCases` | src/algo/grid.rs:104-163 | A cell paints a pixel exactly when the pixel is its own, or is the gap pixel next to one of its open walls. |
| `GridImage.CellPixelLit` | src/algo/grid.rs:91-100 | The cell at (col, row) owns pixel (2col+1, 2row+1), which lies in the image and is lit. |
| `GridImage.GapPixelLit` | src/algo/grid.rs:109-163 | The gap pixel toward any wall lies inside the image, even for a border cell, and it is lit when that wall is open. |
| `GridImage.LitIffPaintedByACell` | src/algo/grid.rs:87-163 | A pixel is lit exactly when some cell paints it. Every other pixel keeps the 0 a new image starts with. |
| `GridImage.CornerNeverLit` | src/algo/grid.rs:91-163 | A pixel with both coordinates even is never lit. |
| `GridImage.GapShowsPassage` | src/algo/grid.rs:124-163 | In a wall-symmetric grid, a cell's right gap is its right neighbour's left gap (and bottom is top). That pixel is lit exactly when the passage is open. |
| `GridImage.PaintCell` | src/algo/grid.rs:91-163 | Painting one cell lights exactly the pixels that cell paints, and leaves every other pixel as it was. |
| `GridImage.PaintRow` | src/algo/grid.rs:90-170 | After a row is painted, the image shows exactly the cells of every row up to and including it. |
| `GridImage.Into` | src/algo/grid.rs:76-175 | Returns a fresh image of (2·cols+1) × (2·rows+1) pixels, every pixel equal to the reference picture. That picture lights the cell pixels and the gaps at open walls, and nothing else. |
| `Dfs.FilterPresent` | src/algo/randomised_dfs.rs:49-55 | Keeps exactly the pairs whose lookup found a cell, and keeps the Top, Right, Bottom, Left order. |
| `Dfs.FilterUnvisited` | src/algo/randomised_dfs.rs:56-58 | Keeps exactly the pairs whose coordinates are unvisited, in order. |
| `Dfs.NeighborList` | src/algo/randomised_dfs.rs:28-45 | The four lookups, each paired with its direction, in ascending wall order. |
| `Dfs.NonVisitedFilter` | src/algo/randomised_dfs.rs:28-58 | The filtered list holds exactly the unvisited in-grid neighbours with their directions, in order. It is empty exactly when every direction is off the grid or visited. |
| `Dfs.GetNonVisitedNeighborCells` | src/algo/randomised_dfs.rs:21-65 | None exactly when no in-grid neighbour is unvisited. Otherwise a non-empty list in Top, Right, Bottom, Left order of exactly those neighbours, each with the direction that reaches it. |
| `Dfs.ClearWall` | src/algo/randomised_dfs.rs:67-84 | Clears one flag of one cell. Dimensions, well-formedness and every other flag of every cell are unchanged. |
| `Dfs.CarveWalls` | src/algo/randomised_dfs.rs:113-117 | A carve opens exactly two flags: the current cell's toward `d`, and the neighbour's toward the opposite direction. |
| `Dfs.CarvePassages` | src/algo/randomised_dfs.rs:113-117 | Carving a closed shared wall adds exactly one new passage. |
| `Dfs.CarvePreserves` | src/algo/randomised_dfs.rs:109-124 | A carve-and-push iteration keeps the invariant: stack entries visited, open walls equal carve links, boundary closed, backtracked cells with no unvisited neighbour, passages one fewer than visited cells. |
| `Dfs.PopStep` | src/algo/randomised_dfs.rs:107-126 | Dropping a top cell with no unvisited neighbour keeps the invariant. |
| `Dfs.GridCells` | src/algo/maze.rs:54-67 | A grid of rows × cols has exactly rows·cols cell positions. |
| `Dfs.TreeConnected` | src/algo/randomised_dfs.rs:96-128 | Every visited cell is connected to (0, 0) through open passages. |
| `Dfs.TreeAcyclic` | src/algo/randomised_dfs.rs:96-128 | Once every cell is visited, the open passages contain no cycle. |
| `Dfs.FinalInvIsPerfect` | src/algo/randomised_dfs.rs:96-128 | With the stack empty, every cell is visited and the grid is a perfect maze. |
| `Dfs.RandomisedDfs.FromGridSize` | src/algo/randomised_dfs.rs:14-19 | The generator holds a well-formed rows × cols grid with every wall closed. |
| `Dfs.RandomisedDfs.Default` | src/algo/randomised_dfs.rs:87-93 | The generator holds a well-formed 10 × 10 grid with every wall closed. |
| `Dfs.RandomisedDfs.UpdateCellWalls` | src/algo/randomised_dfs.rs:67-84 | The new grid is the old one with only the flag for `collapseAt` of the target's cell cleared. |
| `Dfs.RandomisedDfs.Generate` | src/algo/randomised_dfs.rs:96-128 | Terminates for every sequence of random picks, keeps the dimensions, and leaves a perfect maze. |
| `Search.Cmp` | src/graph/graph.rs:34-39 | Equal exactly on equal items. Lower cost compares greater, so a max-heap pops it first; equal costs are ordered by position, lexicographically. |
| `Search.PartialCmp` | src/graph/graph.rs:46-48 | Always defined, equal exactly on equal items, and the reverse of comparing the other way. |
| `Search.CmpAntisymmetric` | src/graph/graph.rs:34-39 | Swapping the operands flips the ordering. |
| `Search.CmpTransitive` | src/graph/graph.rs:34-39 | Greater is transitive. |
| `Search.TopExists` | src/graph/graph.rs:125 | A non-empty heap has an entry no other entry compares greater than, the one `pop` removes. |
| `Search.TopUnique` | src/graph/graph.rs:125 | That greatest entry is unique, so the pop is determined by the heap's contents. |
| `Search.ParentChain` | src/graph/graph.rs:83-96 | Following parent links from any key of a BFS tree reaches `start` along a walk of depth-many steps. |
| `Search.BfsFound` | src/graph/graph.rs:78-81 | When `end` is dequeued, it is reachable and is a key of the returned map. |
| `Search.BfsExhausted` | src/graph/graph.rs:76-103 | When the queue runs dry, `end` is unreachable. |
| `Search.BfsPathIsShortest` | src/graph/graph.rs:59-104 | The parent chain from `end` is a walk from `start` no longer than any other walk between them. |
| `Search.Graph.constructor` | src/graph/builder.rs:93-98 | A graph over the given adjacency with an empty path map. |
| `Search.Graph.GetPath` | src/graph/graph.rs:55-57 | Returns the current path map. |
| `Search.Graph.ScanNeighbours` | src/graph/graph.rs:83-97 | The new visited set is the old one plus every neighbour of the dequeued position. The old queue is a prefix of the new one; every entry after it is a neighbour that was unvisited, and the queue grows by exactly the number of unvisited neighbours. Old parent entries are unchanged, and each new one names the dequeued position as parent. The BFS invariant is kept. |
| `Search.Graph.Bfs` | src/graph/graph.rs:59-104 | Some exactly when `end` is reachable from `start`. The map is then a parent tree rooted at `start` holding `end`, and each key's depth is its hop distance. |
| `Search.AStarInit` | src/graph/graph.rs:117-123 | The first state, with score 0 for `start` and one heap entry for it, meets the A* invariant. |
| `Search.AStarRelax` | src/graph/graph.rs:133-153 | A relaxation with a strictly lower tentative score keeps the A* invariant. |
| `Search.RelaxAccepted` | src/graph/graph.rs:136-152 | When the tentative score beats the neighbour's, the state `Relax` produces keeps the A* invariant, with the walk to the neighbour extended through the popped position. |
| `Search.RelaxPriced` | src/graph/graph.rs:148-151 | Relaxing a neighbour not yet scanned keeps every heap entry pushed in this loop costing its position's current score plus the heuristic from it to `end`. |
| `Search.RelaxFrame` | src/graph/graph.rs:136-152 | A `Relax` step only lowers scores, only of neighbours; it only adds or rewrites path entries of neighbours, each pointing back to the popped position; and it only adds heap entries for neighbours. |
| `Search.Relax` | src/graph/graph.rs:132-153 | Let t be the popped position's score plus the distance to the neighbour. If t beats the neighbour's stored score (`i32::MAX` if absent), the neighbour gets score t, a path entry pointing back, and a heap entry costing t plus the heuristic to `end`. Otherwise the heap, scores and path are unchanged. |
| `Search.PotSumDecreases` | src/graph/graph.rs:136-147 | Lowering one score strictly lowers the sum of scores that bounds the loop. |
| `Search.RelaxNeighbour` | src/graph/graph.rs:132-153 | One `Relax` step keeps the A* invariant, with the ghost walk to the neighbour extended when it is relaxed. It either changes nothing or strictly lowers the sum of scores that bounds the loop. |
| `Search.Graph.RelaxNeighbours` | src/graph/graph.rs:131-155 | For every neighbour k of the popped position, let t be the popped score plus the distance to k. If t beats k's old score (`i32::MAX` if absent), k ends with score t, a path entry pointing back to the popped position, and a new heap entry costing t plus `heuristic_fn` from k to `end`. Otherwise, ties included, k keeps its score and path entry and gains no heap entry. No heap entry is pushed twice. Scores only fall, and non-neighbours keep their scores and path entries. The heap only gains entries, all for neighbours, each costing its neighbour's final score plus the heuristic. The invariant is kept, and the scores either stay as they were or strictly lower the bound. |
| `Search.RelaxOutcomes` | src/graph/graph.rs:136-152 | Relaxing one more unscanned neighbour records its outcome as above, and leaves the outcomes already recorded and the unscanned neighbours untouched. |
| `Search.SettledScoresAreLowerBounds` | src/graph/graph.rs:125-156 | With every score settled, no walk from `start` costs less than the score at its end. |
| `Search.ExhaustedScoresAreOptimal` | src/graph/graph.rs:125-156 | After a run that empties the heap, each score is the cost of a real walk and no walk is cheaper. |
| `Search.Graph.AStar` | src/graph/graph.rs:107-159 | Terminates. `start` scores 0, every score is the cost of a real walk, and the path map only gains entries, one per scored position other than `start`, each pointing to a scored parent that has it as a neighbour and costs no more than its score minus the step. Exhaustion leaves every score settled; otherwise `end` was reached. |
| `Builder.WithNode` | src/graph/builder.rs:29-33 | Adds the node with no neighbours when it is absent. An existing node and every other entry are left alone. |
| `Builder.WithEdge` | src/graph/builder.rs:44-59 | A no-op when either endpoint is not a node. Otherwise each endpoint joins the other's neighbour set, with the keys and every other set unchanged. |
| `Builder.WithNodeIdempotent` | src/graph/builder.rs:29-33 | Inserting a node twice equals inserting it once. |
| `Builder.WithEdgeIdempotent` | src/graph/builder.rs:44-59 | Inserting an edge twice equals inserting it once. |
| `Builder.WithEdgeSymmetric` | src/graph/builder.rs:52-58 | Inserting (from, to) equals inserting (to, from). |
| `Builder.WithNodePreserves` | src/graph/builder.rs:29-42 | Adding a node keeps the adjacency undirected, with every neighbour a node. |
| `Builder.WithEdgePreserves` | src/graph/builder.rs:44-69 | Adding an edge keeps the adjacency undirected, with every neighbour a node. |
| `Builder.PartnersSymmetric` | src/graph/builder.rs:81-91 | `b` is paired with `a` in an edge list exactly when `a` is paired with `b`. |
| `Builder.FromEdgesStep` | src/graph/builder.rs:84-88 | One pass of the `from_edges` loop turns the adjacency built from a prefix into the one built from the prefix plus the next edge. |
| `Builder.BuiltFromIsWellFormed` | src/graph/builder.rs:81-91 | The adjacency built from an edge list is undirected, with every neighbour a node. |
| `Builder.GraphBuilder.constructor` | src/graph/builder.rs:16-27 | A new builder has no nodes. |
| `Builder.GraphBuilder.AddNode` | src/graph/builder.rs:40-42 | The adjacency becomes the node insertion of the old one. |
| `Builder.GraphBuilder.InsertNode` | src/graph/builder.rs:35-38 | As `add_node`, returning the same builder for chaining. |
| `Builder.GraphBuilder.AddEdge` | src/graph/builder.rs:67-69 | The adjacency becomes the edge insertion of the old one. |
| `Builder.GraphBuilder.InsertEdge` | src/graph/builder.rs:61-65 | As `add_edge`, returning the same builder for chaining. |
| `Builder.GraphBuilder.FromNodes` | src/graph/builder.rs:71-79 | A fresh builder whose nodes are exactly the listed positions, all without neighbours. |
| `Builder.GraphBuilder.FromEdges` | src/graph/builder.rs:81-91 | A fresh builder whose nodes are exactly the endpoints of the listed edges. Each node's neighbours are exactly its partners in either direction, and the result is undirected. |
| `Builder.GraphBuilder.Build` | src/graph/builder.rs:93-98 | A fresh graph over the same adjacency with an empty path map. |

## Left out

- `image::ImageBuffer`, `Luma<u8>` and `get_pixel_mut` are modelled as a zero-initialised `array2<int>` indexed [x, y]. PNG encoding and file output are not part of these files.
- The rasteriser's behaviour for size, gap or border other than 1 is not modelled. The constants are fixed at 1, as in the source, which marks the other cases as broken.
- The `println!` calls are side output and are left out:
  - "Nodes Checked" in `bfs` and `astar`, with their `nodes_checked` counters;
  - the unreachable wall-index fallback of the rasteriser.
- `rand::thread_rng` and `SliceRandom::choose` are a nondeterministic pick of any index of the list. Uniformity is a statement about distributions and cannot be stated here.
- `to_visited_id` is not modelled as text. The visited set and the stack hold (x, y) pairs; the stored cell copies are only ever used for their coordinates, so the popped cell is re-read from the grid at those coordinates.
- The second copy of `Grid` in `src/algo/grid.rs` (lines 5-68) is identical to the one in `src/algo/maze.rs` and is modelled once, in `Maze`.
- `generate_as_image` is only a call of `into` and has no model of its own.
- `src/main.rs` is only wiring and is not part of this model.
- The graph's vertex type `T` is specialised to integer pairs compared lexicographically, as Rust compares tuples.
- The `RefCell` around `Graph.path` is an ordinary field that `astar` modifies. `get_path` returns the map rather than a borrow guard.
- `Node.children` is always `None` and is dropped from the model.
- The iteration order of `HashSet` and `HashMap` is left arbitrary. The contents of `BinaryHeap` are a multiset, and its internal layout is not modelled.
- `Search.Graph.AStar`: requires non-negative distances. Without them the loop need not terminate, and its score bounds do not hold.
- `Search.Graph.AStar`: `i32` arithmetic is unbounded, so overflow of `tentative_g_score` and of `cost` is not modelled. `i32::MAX` appears only as the score of an unscored position. Every score the model admits is at most `i32::MAX`.
- `Search.Graph.AStar`: the ghost results (the final `g_score` and whether the heap ran dry) stand in for the source's unit return value.
- `Search.Graph.RelaxNeighbours`: evaluates `heuristic_fn(neighbor, end)` for every neighbour, not only for a relaxed one. The closure is a pure parameter, so the resulting state is the same.
- `Search.Graph.RelaxNeighbours`: inserts into a local copy of the path map and stores it in `path` once, after the loop, where the source inserts into `self.path` per neighbour. Nothing reads `path` inside the loop, so the final state is the same.
- `Search.Graph.Bfs`: the shortest-path property is stated in hops, through a ghost depth map. Edge weights play no part in `bfs`.
- `Dfs.RandomisedDfs.Generate`: requires at least one row and one column, because the source reads `matrix[0][0]`. It also requires every wall to be closed, as `from_grid_size` and `Default` leave it. A second call on an already-carved grid is not covered.
- `Maze.GetNeighborCell`: requires the cell to lie in the grid. For a cell outside it the source may index out of bounds (though, for example, `Top` from y = 0 still answers None), and `cols - 1` underflows on an empty grid. Its only caller, `get_non_visited_neighbor_cells` via `generate`, passes cells of the grid.
- `GridImage.Into`: requires at least one row and one column, because `cols - 1` and `rows - 1` are `u32` subtractions. It also requires 2·cols + 1 and 2·rows + 1 to be below 2^32, because `cols` and `rows` are cast `as u32` and the image sides are `u32` sums (src/algo/grid.rs:81-85). It also requires a well-formed grid, where each cell's coordinates match its position in the matrix.
- `Util.Offset`: the coordinate type is the `u32` the closure's `Sub<u32>`/`Add<u32>` bounds admit. Arguments whose step would underflow or overflow are excluded by the requires.
