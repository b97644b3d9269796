# 4D maze runner: maze, route, controls and player

The game puts the player in a maze on a four-dimensional torus: a grid of
`size`⁴ cells (`size` is 3 in the game). Each coordinate x, y, z, w wraps
around. The maze is carved as a spanning tree of open cells with a
randomised growing-tree algorithm. Two breadth-first searches find a longest
path through the tree: its two ends are as many steps apart as any two open
cells. That path becomes the route: start, end and
the cells between. The route is painted into the grid as cell values:
- `0` for the start,
- `2` for the end,
- `1` for a waypoint,
- `4` for a hidden waypoint,
- `3` for a cell the player has marked.

Each frame, the player's cell is checked. Entering a waypoint counts it, and
entering the end reverses the route for the next lap.

Keyboard and mouse events are turned into held keys. The held keys are turned
into intentions: forward, back, a pitch, yaw or roll in a 3D or 4D plane, mark
and zoom. The player then turns its four basis vectors and moves.

The repository holds two revisions of most of this:
- the older JavaScript files (`Maze.js`, `webgl.js`, `Controls.js`);
- the TypeScript rewrite (`src/Maze.ts`, `src/webgl.ts`, `src/Controls.ts`,
  `src/Game.ts`, `src/Player.ts`).

Both revisions are modelled, each in its own module:

| module | file | models |
|---|---|---|
| `Grid` | grid.dfy | cells, the eight wrapping moves, the cell index, the spanning-tree invariant of a carved maze |
| `Walks` | walks.dfy | walks of open cells, the distance between two cells of the carved tree, farthest pairs |
| `Search` | search.dfy | `find_farthest`: trails (a cell with its back link), breadth-first levels, the search loop |
| `MazeTs` | maze_ts.dfy | src/Maze.ts: `isSafe`, `generate`, `distances`, `getLongestPath`, `flatten`, class `Maze` |
| `MazeJs` | maze_js.dfy | Maze.js: the same operations over a grid of plain numbers (`255` is a wall) |
| `Webgl` | webgl.dfy | `get_route`, `mark_route`, `reverse`, `reset`, `getStartAnaAxis`, and the `update_cell` closure as class `Session` |
| `Controls` | controls.dfy | src/Controls.ts: the key tables and `UpdateControls` |
| `ControlsJs` | controls_js.dfy | Controls.js: key codes, held-key bits and the derived control states |
| `Game` | game.dfy | src/Game.ts: key and mouse handlers, input remapping, alias-aware key release |
| `Player` | player.dfy | src/Player.ts: the basis rotation, the order of turns, the drag and thrust choice, the torus wrap |

How the source's behaviour is represented:
- **Grid.** The 4D grid is an `array4` indexed `[w, z, y, x]`, the source's
  `grid[w][z][y][x]`.
- **Randomness.** Where the source calls `Math.random`, the model makes a
  nondeterministic choice (`:|`) among the values the source could pick.
- **Ghost state.** The spanning tree the generator builds is carried as ghost
  state: the set of open cells, a parent map and a depth map. The generators'
  loop invariants and the search's termination argument both rest on it.
- **Vector arithmetic.** Player vector arithmetic is floating point in the
  source. The model keeps a trace of the rotations and moves that `update`
  performs, in order, as a sequence of `Op` values. The numeric results
  (rotated vectors, drag, collision) are taken as parameters.

## Model

| member | source | states |
|---|---|---|
| Grid.Opp | src/Maze.ts:124-170 | the back direction recorded for a step is never the step's own direction |
| Grid.IncWraps | src/Maze.ts:88-100 | `(a+1)%size` is the successor on the ring, wrapping from `size-1` to 0 |
| Grid.DecWraps | src/Maze.ts:90-102 | `(a-1+size)%size` is the predecessor on the ring, wrapping from 0 to `size-1` |
| Grid.Move | src/Maze.ts:86-103 | a wrapping move keeps an on-grid cell on the grid |
| Grid.MoveInRange | src/Maze.ts:86-103 | a move from any cell of the torus lands on the torus |
| Grid.MoveBack | src/Maze.ts:124-170 | moving in a direction and then in its opposite returns to the same cell |
| Grid.MovesDistinct | src/Maze.ts:68-79 | on a grid of size at least 3 the eight neighbours are pairwise distinct and differ from the cell |
| Grid.MoveInjective | src/Maze.ts:68-79 | two directions lead to the same neighbour exactly when they are the same direction |
| Grid.DirectionTo | src/Maze.ts:184-209 | every adjacent cell is reached by some direction |
| Grid.MoveAdjacent | src/Maze.ts:184-209 | a move lands on an adjacent cell |
| Grid.AdjacentSymmetric | src/Maze.ts:124-170 | adjacency on the torus is symmetric |
| Grid.WrapAround | src/Maze.ts:88-90 | a cell at x = 0 is adjacent to the cell at x = size-1 |
| Grid.CellIndexInBounds | src/Maze.ts:274-279 | the row-major index `x·size³ + y·size² + z·size + w` of an on-grid cell lies in `[0, size⁴)` |
| Grid.CellAtIndex | src/Maze.ts:274-279 | decoding the index of a cell gives the cell back |
| Grid.IndexOfCellAt | src/Maze.ts:295-307 | every index in `[0, size⁴)` decodes to an on-grid cell whose index is that index again |
| Grid.CellIndexInjective | src/Maze.ts:274-279 | two on-grid cells have the same index exactly when they are the same cell |
| Grid.IndexCarry | src/Maze.ts:299-305 | when the innermost flatten loop finishes, the index carries into the next outer coordinate, and the outermost finish is `size⁴` |
| Grid.SingletonTree | src/Maze.ts:53-55 | the start cell alone is a spanning tree rooted at the start |
| Grid.CarveKeepsTree | src/Maze.ts:65-107 | opening a wall cell whose only open neighbour is the current cell keeps the open cells a tree, with the new cell one level deeper |
| Grid.CarveKeepsEdges | src/Maze.ts:65-107 | after such a carve, every pair of adjacent open cells is still a parent link, so no cycle is created |
| Grid.AdjacentDepths | src/Maze.ts:65-66 | two adjacent open cells of a tree differ in depth by exactly one |
| Grid.RootPath | src/Maze.ts:65-107 | every open cell is joined to the root by a chain of adjacent open cells of length `depth + 1` |
| Grid.ChainIsTreeWalk | src/Maze.ts:65-107 | in a carved maze every step of a walk of open cells goes from a cell to its parent or to one of its children |
| Grid.KeepsDescending | src/Maze.ts:65-107 | along a walk of the tree that never steps straight back, once a step goes down to a child every later step goes down too |
| Grid.RisesBefore | src/Maze.ts:65-107 | along such a walk, every cell before a step up is deeper than the cell that step reaches |
| Grid.NoRepeat | src/Maze.ts:65-107 | along such a walk, any two positions hold different cells |
| Grid.NoReturnDistinct | src/Maze.ts:65-107 | in a carved maze, a walk of open cells that never steps straight back visits no cell twice |
| Grid.ChainReversed | src/Maze.ts:288-291 | a reversed chain of adjacent open cells is again such a chain |
| Grid.ChainJoined | src/Maze.ts:288-291 | two chains that meet end to start join into one chain |
| Grid.TreeConnected | src/Maze.ts:65-107 | any two open cells of a carved maze are joined by a chain of open cells |
| Grid.TreeEdgeCount | src/Maze.ts:65-107 | a carved maze has exactly one fewer adjacency between open cells than it has open cells (it is a tree) |
| Grid.EdgesAreParentLinks | src/Maze.ts:65-107 | the adjacencies between open cells are exactly the parent links |
| Walks.TreeIsRooted | src/Maze.ts:65-107 | a carved maze's parent links lead from every open cell but the start to an open cell one level nearer the start |
| Walks.ParentAdjacent | src/Maze.ts:65-107 | a cell and the cell it was carved from are adjacent, both ways |
| Walks.Anc | src/Maze.ts:65-107 | following parent links from a cell reaches an open cell on every shallower level, the start on level 0 |
| Walks.AncOfAnc | src/Maze.ts:65-107 | an ancestor's ancestor on a level is the cell's own ancestor on that level |
| Walks.AncStep | src/Maze.ts:65-107 | the parent of a cell's ancestor on level k is its ancestor on level k - 1 |
| Walks.MeetBelow | src/Maze.ts:65-107 | the level found is one where the two cells share their ancestor, and on no deeper level up to the bound do they |
| Walks.AgreeAbove | src/Maze.ts:65-107 | two cells sharing an ancestor share every ancestor above it |
| Walks.MeetFacts | src/Maze.ts:65-107 | the meeting level of two cells is within both depths, does not depend on their order, and they share every ancestor down to it |
| Walks.PathCell | src/Maze.ts:65-107 | every cell of the tree path between two open cells is open |
| Walks.TreePath | src/Maze.ts:65-107 | the tree path between two cells has `Dist + 1` cells, up from the first to the meeting point and down to the second |
| Walks.PathEnds | src/Maze.ts:65-107 | the tree path starts at the first cell and ends at the second |
| Walks.PathLinks | src/Maze.ts:65-107 | each step of the tree path follows a parent link, up or down |
| Walks.PathTurns | src/Maze.ts:65-107 | the tree path never steps straight back: at the meeting point it goes down to a different child than the one it came up from |
| Walks.TreePathJoins | src/Maze.ts:65-107 | the tree path is a walk of adjacent open cells from the first cell to the second that never steps straight back |
| Walks.Climbing | src/Maze.ts:65-107 | while a walk only climbs, its i-th cell is its first cell's ancestor i levels up |
| Walks.Descending | src/Maze.ts:65-107 | once a walk only descends, each cell is the last cell's ancestor as many levels up as steps remain |
| Walks.TopOf | src/Maze.ts:65-107 | a tree walk that never steps straight back climbs to one top cell and only descends after it |
| Walks.NoReturnLength | src/Maze.ts:65-107 | a walk of open cells that never steps straight back has exactly `Dist` steps: it is the tree path |
| Walks.CutReturn | src/Maze.ts:65-107 | cutting a step straight back out of a walk leaves a walk between the same cells, two steps shorter |
| Walks.WalkAtLeast | src/Maze.ts:65-107 | no walk of open cells between two cells has fewer than `Dist` steps |
| Walks.DistIsSteps | src/Maze.ts:65-107 | two open cells are exactly `Dist` steps apart: the tree path has that many and no walk has fewer |
| Walks.DistFromRoot | src/Maze.ts:65-107 | a cell's distance from the start of the carving is its depth |
| Walks.FromDeepest | src/Maze.ts:65-107 | from a deepest cell `a`, any two cells are no farther apart than the farther of them is from `a` |
| Grid.NineInRange | src/Maze.ts:15-32 | the nine cells `isSafe` inspects are on the grid |
| Grid.NineDistinct | src/Maze.ts:15-32 | on a grid of size at least 3 those nine cells are pairwise distinct |
| Grid.NeighbourInNine | src/Maze.ts:15-32 | every neighbour of a cell is among the eight non-centre cells `isSafe` inspects |
| Search.StepTo | src/Maze.ts:124-128 | a step in one direction yields only on-grid trails |
| Search.StepsAlong | src/Maze.ts:121-171 | the steps in a list of directions yield only on-grid trails |
| Search.Children | src/Maze.ts:121-171 | the children of a trail are on the grid |
| Search.Expand | src/Maze.ts:121-171 | the next search level is on the grid |
| Search.Level | src/Maze.ts:115-172 | every level of the search from an origin is on the grid |
| Search.Chain | src/Maze.ts:288-291 | following the back links of a trail visits `length + 1` cells, starting at the trail's cell |
| Search.ChainOfWellFormed | src/Maze.ts:284-291 | the back links of a search trail form a chain of adjacent open cells ending at the origin |
| Search.WellFormedNoReturn | src/Maze.ts:124-128 | a search trail never steps straight back, because `nexts` skips the parent's back direction |
| Search.TrailDistinct | src/Maze.ts:115-172 | on a carved maze, the cells of a search trail are all different |
| Search.InStepTo | src/Maze.ts:124-128 | a child made by a step is the neighbour in that direction, its direction is not the parent's back direction, and it is not a wall |
| Search.InChildren | src/Maze.ts:121-171 | every child of a trail is an open neighbour reached without stepping back through the parent's back link |
| Search.InExpand | src/Maze.ts:121-171 | every member of the next level is the child of some member of the current level |
| Search.EmptyStaysEmpty | src/Maze.ts:118-172 | once a level is empty, every later level is empty |
| Search.ChildPhased | src/Maze.ts:121-171 | in a tree, a child of a depth-d trail is a well-formed trail of depth d + 1 |
| Search.LevelFacts | src/Maze.ts:115-172 | every trail at level d is a well-formed chain of length d from the origin |
| Search.LevelBound | src/Maze.ts:118-172 | a non-empty level d satisfies `d + 2 <= 2·|open|`, so the `do … while` loop ends |
| Search.NextLevel | src/Maze.ts:119-171 | one pass of the loop body computes the next level |
| Search.FindFarthestLevel | src/Maze.ts:115-175 | the search returns the last non-empty level, the one before the first empty level; all its trails have that length |
| Search.LastLevelCell | src/Maze.ts:115-175 | the cell of a trail on the last non-empty level is on the last level of the search |
| Search.UnwoundLastLevel | src/Maze.ts:284-291 | unwinding a trail of the last level gives distinct open cells that chain from the farthest cell back to the origin |
| Search.Unwind | src/Maze.ts:288-291 | walking `back` until none is left collects exactly the trail's chain |
| Search.OpenNeighbour | src/Maze.ts:65-107 | in a tree with two or more open cells, every open cell has an open neighbour |
| Search.LevelOneNonEmpty | src/Maze.ts:121-171 | an origin with an open neighbour has a non-empty first level |
| Search.LastLevelPastOrigin | src/Maze.ts:115-175 | if the origin has an open neighbour, the farthest level is at least one step away |
| Search.TrailAlong | src/Maze.ts:121-171 | the trail built along a walk has one step per move and ends at the walk's last cell |
| Search.TrailAlongWellFormed | src/Maze.ts:124-128 | following a walk that never steps straight back from the origin gives a trail the search can build |
| Search.StepsAlongHas | src/Maze.ts:121-171 | an allowed step in one of the listed directions is among the trails pushed for them |
| Search.ExpandHas | src/Maze.ts:121-171 | the children of every trail of a level are on the next level |
| Search.LevelComplete | src/Maze.ts:115-172 | every trail the search can build is on the level of its length: the search misses nothing |
| Search.WithinLastLevel | src/Maze.ts:115-175 | when level d + 1 is empty, every open cell is within distance d of the origin |
| Search.LevelAtDist | src/Maze.ts:115-175 | the cell of a trail on level d is at distance exactly d from the origin |
| Search.LastLevelWithin | src/Maze.ts:115-175 | when level d + 1 is empty, a walk of at most d steps joins the origin to every open cell |
| Search.LevelApart | src/Maze.ts:115-175 | the cell of a trail on level d is exactly d steps from the origin: a walk takes d steps and none takes fewer |
| Search.FirstSweepDeepest | src/Maze.ts:281-287 | the search from the start of the carving ends on a deepest open cell |
| Search.PairWithin | src/Maze.ts:281-293 | when the search from a deepest cell ends at level d, any two open cells are joined by a walk of at most d steps |
| Search.SweepPath | src/Maze.ts:281-293 | the second search's unwound trail is a walk of distinct open cells from a farthest cell back to the first search's farthest cell, two or more cells long when the maze has two open cells, and its ends are a farthest pair (`Diameter`) |
| Search.UnwoundIsDiameter | src/Maze.ts:281-293 | a walk whose last cell is on the last level of the search from the tree's root, and which read from the front is a farthest trail of the search from that cell, has a farthest pair of open cells for ends |
| Search.DoubleSweep | src/Maze.ts:281-293 | searching from the start, then from the farthest cell found, ends on a farthest pair: no two open cells are more steps apart, and no walk joins the pair in fewer |
| MazeTs.IsSafeMeansOneOpen | src/Maze.ts:15-32 | `isSafe` (the nine values sum to 1024) holds exactly when exactly one of the nine cells is open |
| MazeTs.SafeMeansLonelyWall | src/Maze.ts:65-79 | a safe neighbour of an open cell is a wall whose only open neighbour is that cell, so carving it cannot close a cycle |
| MazeTs.FirstStepSafe | src/Maze.ts:53-79 | on a fresh grid, the cell next to the start is safe, so the first round always carves |
| MazeTs.SwapRemove | src/Maze.ts:81-84 | swapping with the last entry and truncating removes exactly one occurrence of the chosen cell |
| MazeTs.SwapRemoveMultiset | src/Maze.ts:81-84 | the in-place form (`cells[index] = cells[highest]; cells.length--`) removes exactly that cell from the multiset |
| MazeTs.SafeDirections | src/Maze.ts:68-79 | a direction is collected exactly when the neighbour in that direction is safe |
| MazeTs.InitialGrid | src/Maze.ts:38-55 | the new grid is all walls `{val: 128, id: -1}` except the start, which is `{val: 0, id: 0}` |
| MazeTs.OpenCell | src/Maze.ts:106 | opening a cell writes `{val: 0, id: nextId}` there and nothing else; ids stay distinct and count the open cells |
| MazeTs.Round | src/Maze.ts:59-108 | one round either drops the chosen cell from the active list and leaves every grid cell as it was, or opens one wall next to the chosen cell with the next id, appends it, and leaves every other cell as it was; the tree invariant holds, and a measure decreases |
| MazeTs.Carve | src/Maze.ts:86-107 | carving a safe direction turns that neighbouring wall into `{val: 0, id: nextId}`, appends it to the active list, changes no other cell, and keeps the tree invariant |
| MazeTs.Generate | src/Maze.ts:34-113 | the open cells form a spanning tree rooted at the start; they carry distinct ids `0 .. nextId-1`; every other cell is a wall |
| MazeTs.Nexts | src/Maze.ts:184-209 | every cell `nexts` returns is an adjacent cell with its grid data, and its id has no distance yet |
| MazeTs.NextsComplete | src/Maze.ts:184-209 | every neighbour without a distance is returned by `nexts` |
| MazeTs.CarvedIsNumbered | src/Maze.ts:34-113 | the ids of a generated maze are in range and distinct over open cells, and `-1` on walls |
| MazeTs.ProcessLevel | src/Maze.ts:211-221 | a pass over a level writes `dist` for each cell of the level and builds the next level; both search invariants are kept |
| MazeTs.Distances | src/Maze.ts:177-224 | the result has `nodes` entries, and each open cell's entry is its hop count from `start`: 0 at `start` and nowhere else, never negative, one more than some neighbour's entry when positive, and at most one more than any neighbour's entry |
| MazeTs.DistancesMeaning | src/Maze.ts:211-223 | when the level is empty, the search has written every open cell, and the written entries are exactly the hop counts |
| MazeTs.WriteKeepsSpreading | src/Maze.ts:184-216 | writing `dist` for a cell and queueing its unwritten neighbours keeps every written neighbour written, queued or on the current level, and keeps neighbouring entries within one |
| MazeTs.VisitSpreads | src/Maze.ts:211-216 | visiting one entry of the level keeps that invariant |
| MazeTs.PassSpreads | src/Maze.ts:211-221 | after a whole level is written, the next level is the frontier of the following distance |
| MazeTs.ClosedKeepsWalk | src/Maze.ts:211-223 | once nothing is queued, a walk of open cells that starts at a written cell ends at a written cell |
| MazeTs.ClosedCoversTree | src/Maze.ts:211-223 | once nothing is queued, every open cell of the maze has been written |
| MazeTs.WalkToStart | src/Maze.ts:177-224 | from every open cell, stepping to a neighbour whose entry is one less reaches `start` in exactly the cell's entry of hops |
| MazeTs.NoShorterWalk | src/Maze.ts:177-224 | no walk of open cells from a cell to `start` is shorter than the cell's entry, so entries are least hop counts |
| MazeTs.FindFarthest | src/Maze.ts:115-175 | the first node (`cells[0]`) of level d of the search is returned, and level d + 1 is empty: a well-formed trail from the origin of length d; every open cell is within d steps of the origin, and the returned cell exactly d steps (no walk reaches it in fewer) |
| MazeTs.LongestPath | src/Maze.ts:281-293 | the path's last cell is on the last level of the search from the start; read from the front, the path is the unwound farthest trail of the search from that last cell; its cells are distinct and form a chain of open cells; a maze of two or more open cells gives at least two cells; and its ends are a farthest pair (`Diameter`): no two open cells are more than `|path| - 1` steps apart, and no walk joins the ends in fewer |
| MazeTs.CarvedOpenIs | src/Maze.ts:34-113 | in a generated maze, the cells that are not walls are exactly the open cells |
| MazeTs.RouteIsDiameter | src/Maze.ts:239-259 | the ends of a route the constructor builds are a farthest pair of open cells (`Diameter`): no two open cells are more than `|route| - 1` steps apart, and no walk joins the ends in fewer |
| MazeTs.RouteHops | src/Maze.ts:239-259 | the hop table from the route's end is at most `|route| - 1` for every open cell and exactly that at the route's start, so the route is a longest shortest path |
| MazeTs.Build | src/Maze.ts:239-259 | the constructor's work (`Built`): a spanning-tree maze whose non-walls are the open cells; a route that is what `getLongestPath` returns (so its ends are a farthest pair of open cells, by `RouteIsDiameter`); and distance tables that hold each open cell's hop count from either end |
| MazeTs.FlattenCells | src/Maze.ts:295-307 | byte `4·index(p)` holds the cell's value modulo 256; every other byte is 0; the length is `4·size⁴` |
| MazeTs.FlatDone | src/Maze.ts:298-306 | when the four loops finish, every cell's byte is in place |
| MazeTs.Maze.constructor | src/Maze.ts:239-259 | the maze keeps its size and start and satisfies `Built`: the route is a longest path, whose ends are a farthest pair of open cells (by `RouteIsDiameter`), whose first cell is on the last level of the search from its last and whose last is on the last level of the search from the start; `fromStart` and `fromEnd` hold the hop counts from the two ends |
| MazeTs.Maze.GetId | src/Maze.ts:270-272 | an open cell has an id in `[0, nodes)`; a wall has `-1` |
| MazeTs.Maze.IdsDistinct | src/Maze.ts:270-272 | two open cells have the same id exactly when they are the same cell |
| MazeTs.Maze.Set | src/Maze.ts:265-268 | `set` returns the value; the cell now reads it, its id is unchanged, and no other cell changes |
| MazeTs.Maze.CellIndex | src/Maze.ts:274-279 | `cellIndex` is a multiple of 4 below `4·size⁴` |
| MazeTs.Maze.CellIndexOneToOne | src/Maze.ts:274-279 | two on-grid cells have the same `cellIndex` exactly when they are the same cell |
| MazeTs.Maze.GetLongestPath | src/Maze.ts:281-293 | the path's last cell is on the last level of the search from the start, its first cell on the last level of the search from its last cell, and its distinct cells form a chain of open cells; it has two or more cells when the maze does; its ends are a farthest pair of open cells (`Diameter`) |
| MazeTs.Maze.Flatten | src/Maze.ts:295-307 | byte `cellIndex(p)` is `get(p)` modulo 256; the other three bytes of each cell are 0 |
| MazeJs.CountWalls | Maze.js:11-23 | the number of walls among the inspected cells is at most their number |
| MazeJs.AllWallsBut | Maze.js:11-23 | when all but one inspected cell is 255, the wall count is one less than the number of cells |
| MazeJs.SafeMeansLonelyWall | Maze.js:51-65 | a safe neighbour of an open cell is a wall whose only open neighbour is that cell |
| MazeJs.FirstStepSafe | Maze.js:41-65 | on a fresh grid, the cell next to the start is safe |
| MazeJs.Splice | Maze.js:67-68 | `splice(index, 1)` keeps the entries before `index` and shifts the later ones down by one |
| MazeJs.SpliceMultiset | Maze.js:67-68 | the splice removes exactly the chosen entry from the multiset |
| MazeJs.Pick | Maze.js:5-7 | `pick` returns a member of the list |
| MazeJs.SafeDirections | Maze.js:53-65 | a direction is collected exactly when the neighbour in that direction is safe |
| MazeJs.InitialGrid | Maze.js:25-44 | the new grid is all 255 except the start, which is 0 |
| MazeJs.OpenCell | Maze.js:90 | the wall at the carved cell becomes 0, and no other cell changes |
| MazeJs.Round | Maze.js:46-92 | one round either splices out a cell and leaves the grid alone, or opens one wall next to an active cell and appends it; the tree invariant holds, and a measure decreases |
| MazeJs.Carve | Maze.js:69-91 | carving a safe direction opens that wall and appends it to the active list, keeping the tree invariant |
| MazeJs.Generate | Maze.js:9-97 | the open cells (value 0) form a spanning tree of at least two cells rooted at the start; every other cell is 255 |
| MazeJs.CarvedNonWalls | Maze.js:9-97 | in a generated grid, the cells that are not 255 are exactly the open cells |
| MazeJs.NonWallsOpenIs | Maze.js:125-174 | the search's wall test `!= 255` then agrees with the open set |
| MazeJs.FindFarthest | Maze.js:125-174 | the search returns the last non-empty level; all its trails have the same length d and start at the origin; every open cell is within d steps of the origin, and the cell of every trail in the level exactly d steps |
| MazeJs.FarthestTrail | Maze.js:180-183 | `[farthest] = find_farthest(...)` is the first node of level d, the last non-empty level: a well-formed trail of length d, whose cell is exactly d steps from the origin, with every open cell within d steps |
| MazeJs.LongestPath | Maze.js:176-191 | the path's last cell is on the last level of the search from the start; the path is the unwound farthest trail of the search from that cell; its cells are distinct and form a chain of open cells; its ends are a farthest pair of open cells (`Diameter`) |
| MazeJs.FlattenCells | Maze.js:193-205 | byte `index(p)` of the `size⁴`-byte array holds the cell's value modulo 256 |
| MazeJs.FlatDone | Maze.js:197-202 | when the four loops finish, every cell's byte is in place |
| MazeJs.Maze.constructor | Maze.js:99-108 | the maze keeps its size and start, and each cell reads 0 if open and 255 otherwise, over a spanning tree of at least two cells |
| MazeJs.Maze.Set | Maze.js:114-116 | `set` returns the value; the cell reads it and no other cell changes; a write that is a wall exactly when the old value was keeps the maze a spanning tree |
| MazeJs.Maze.CellIndex | Maze.js:118-123 | `cellIndex` of an on-grid cell lies in `[0, size⁴)` |
| MazeJs.Maze.CellIndexOneToOne | Maze.js:118-123 | two on-grid cells have the same `cellIndex` exactly when they are the same cell |
| MazeJs.Maze.CellIndexOnto | Maze.js:118-123 | every index in `[0, size⁴)` is the `cellIndex` of some cell |
| MazeJs.Maze.GetLongestPath | Maze.js:176-191 | the path's last cell is on the last level of the search from the start, its first cell on the last level of the search from its last cell, and its distinct cells form a chain of open cells; its ends are a farthest pair of open cells (`Diameter`) |
| MazeJs.Maze.Flatten | Maze.js:193-205 | byte `cellIndex(p)` is `get(p)` modulo 256, and the array has `size⁴` bytes |
| Webgl.GetRoute | webgl.js:10-16 | start, the path and end are distinct and form a chain of adjacent open cells; the end is on the last level of the search from the maze's start, the start on the last level of the search from the end, and the two are a farthest pair of open cells (`Farthest`) |
| Webgl.Tag | webgl.js:24-31 | a path cell is marked 1 (shown waypoint) or 4 (hidden waypoint) |
| Webgl.TagNoSkip | webgl.js:25 | with `skip = 0` every path cell is a shown waypoint |
| Webgl.LastIndex | webgl.js:24-31 | the last position of a cell in the path, or -1 exactly when it is absent: the write that survives the `forEach` |
| Webgl.SimplePathDistinct | webgl.js:10-16 | on a simple route the path cells are distinct and differ from both ends |
| Webgl.MarkedSimple | webgl.js:18-38 | after marking a simple route: start reads 0, end reads 2, path cell `i` reads its tag, and every other cell keeps its value |
| Webgl.MarkCell | webgl.js:25-30 | marking one path cell writes its tag there and changes no other cell |
| Webgl.MarkRoute | webgl.js:18-38 | every cell ends at its `Marked` value: later writes win; a route inside the open cells keeps the maze a tree |
| Webgl.MarkEnds | webgl.js:22-23 | the end reads 2; the start reads 0 unless it is the end; nothing else changes |
| Webgl.MarkPath | webgl.js:24-32 | every cell ends at the tag of its last occurrence in the path, or keeps its value |
| Webgl.Reversal | webgl.js:59-61 | reversal swaps start and end and reverses the path index by index |
| Webgl.ReversalInvolutive | webgl.js:59-61 | reversing twice gives the route back |
| Webgl.ReversalCells | webgl.js:59-61 | the cells of the reversed route are the route's cells in reverse order |
| Webgl.ReversalKeeps | webgl.js:59-61 | reversal keeps a route on the grid, inside the open cells, and simple |
| Webgl.ReversedMarking | webgl.js:59-65 | after reversing, the old end reads 0, the old start reads 2, and old path cell `i` gets the tag of index `len-1-i` |
| Webgl.AnaAxisAsWritten | webgl.js:67-72 | as written: 'x' exactly when the +x neighbour is 1, since both tests check +x; else 'y', 'z' or 'w' by the y and z neighbours |
| Webgl.AnaAxis | src/webgl.ts:55-60 | corrected: 'x' exactly when the +x or the -x neighbour is 1; then y, then z, else 'w' |
| Webgl.AnaAxisMissesMinusX | webgl.js:68 | the two differ exactly when the -x neighbour is 1 and the +x neighbour is not |
| Webgl.Rem | webgl.js:136 | JavaScript `%`: the remainder takes the sign of the dividend |
| Webgl.CellCoord | webgl.js:136-139 | `((floor(f) % size) + size) % size` is the floor of `f` reduced into `[0, size)` |
| Webgl.CellOf | webgl.js:136-139 | the player's cell is always on the grid |
| Webgl.WritesClearOrMark | webgl.js:155-169 | `update_cell` writes only 3 (when marking) or 0 (otherwise) |
| Webgl.CountsRouteCells | webgl.js:155-160 | progress goes up exactly when the player enters a cell holding 1 or 4 |
| Webgl.CountsOnce | webgl.js:155-160 | a counted cell is never counted again, and it is never mistaken for the end |
| Webgl.MarkSettles | webgl.js:166-169 | after a write made while marking, staying in the cell with marking on does nothing more |
| Webgl.NewGame | webgl.js:90-92 | a fresh maze of size 3 and a started route: the maze is a spanning tree; the route is simple and a chain of open cells; every cell reads its `Marked` value with skip 0 |
| Webgl.FirstLap | webgl.js:91-92 | on a freshly carved maze, taking the route and marking it with skip 0 gives a started route |
| Webgl.StartedMarks | webgl.js:18-38 | on a started route, the start reads 0, the end 2, every path cell 1, and every other cell 0 if open and 255 if a wall |
| Webgl.Session.constructor | webgl.js:90-107 | the player starts at the route's start; 0 rounds; 0 progress; `len = path.length + 1`; the 4D axis is `getStartAnaAxis` of the start |
| Webgl.Session.Step | webgl.js:141-171 | for a cell other than the end: the action follows the entered-or-stayed test, the cell's old value and mark; only that cell is written; progress counts the waypoints entered |
| Webgl.Session.Put | webgl.js:157 | `map.set` on the current cell writes only that cell |
| Webgl.Session.Reverse | webgl.js:59-65 | the route is reversed, re-marked with `skip`, and progress resets to 0 |
| Webgl.Session.NextLap | webgl.js:146-148 | reaching the end before the last lap reverses the route with `skip = ++rounds` and gives control back to the auto-pilot |
| Webgl.Session.UpdateCellTs | src/webgl.ts:120-155 | `update_cell` of the TypeScript revision, for the cell the player's position floors to: the cell is recorded first; the cell entered gets `CellAction`'s tag and progress; at the end cell another lap (route reversed and re-marked, `rounds + 1`) while `rounds < path.length`; otherwise the error "Resetting is not yet implemented" with grid, route, rounds and progress unchanged |
| Webgl.Session.UpdateCell | webgl.js:135-172 | corrected `update_cell`: after the last lap, a new maze and route replace the old ones; rounds and progress are 0 and the player moves to the new start |
| Webgl.Session.Reset | webgl.js:40-57 | `reset` builds a new started maze and route, resets progress and `len`, and puts the player in the new start cell |
| Webgl.Session.UpdateCellAsWritten | webgl.js:135-172 | as written: after the last lap, `rounds` becomes 0 and `reset`'s effects on the overlay and player happen, then the assignment to the constant `map` throws, so the old maze and route stay |
| Webgl.Session.ResetDiscarded | webgl.js:40-57 | `reset`'s effects when its result is thrown away: progress 0, the player moved, maze and route unchanged |
| Controls.View | src/Game.ts:45 | the proxy over held keys reads a missing key as false, for every key name the updater reads |
| Controls.FollowsDetermines | src/Controls.ts:125-142 | the two flags of an opposed key pair are each on only when its key is held and the other is not |
| Controls.ControlStates.constructor | src/Controls.ts:96-107 | the default states are all false, with the mouse at 0, 0 |
| Controls.ControlStates.Update | src/Controls.ts:109-143 | `mouse` iff a button is held; fwd or bak follows the left button while the mouse is held and space otherwise; shift picks bak; never both; mark follows m; each opposed pair cancels when both keys are held |
| Controls.ControlStates.SetMouse | src/Controls.ts:112-114 | `mouse` iff a button is held; the position is negated |
| Controls.ControlStates.SetMotion | src/Controls.ts:116-122 | moving iff the left button (mouse) or space (keyboard) is held; shift picks bak; never both |
| Controls.ControlStates.SetMarkZoom | src/Controls.ts:124-126 | mark follows m; zoom in and out cancel when both keys are held |
| Controls.ControlStates.SetTurns3D | src/Controls.ts:128-134 | each 3D turn pair follows its two keys and cancels when both are held |
| Controls.ControlStates.SetTurns4D | src/Controls.ts:136-142 | each 4D turn pair follows its two keys and cancels when both are held |
| Controls.IntendsCoherent | src/Controls.ts:109-143 | no opposed pair is ever both on, and fwd and bak are never both on |
| Controls.IntendsUnique | src/Controls.ts:109-143 | the held keys and mouse position determine every control state |
| Controls.RestIsIdle | src/Controls.ts:96-143 | with no key held, the states are the defaults |
| Controls.TablesBindNames | src/Controls.ts:51-94 | every key code and mouse code is bound to a key name the updater reads |
| Controls.TablesFourDKeys | src/Controls.ts:77-94 | a/d, q/e and w/s drive the 4D turns; buttons 0 and 2 are the left and right buttons |
| Controls.TablesDisjoint | src/Controls.ts:51-94 | no key name is bound by both the key table and the mouse table |
| ControlsJs.PlanesFor | Controls.js:145-177 | the 4D planes are used exactly when one of x, y, z is held alone; otherwise the default planes; each turn's two planes differ |
| ControlsJs.SumIsOne | Controls.js:152 | `keys.x + keys.y + keys.z === 1` iff exactly one of the three is held |
| ControlsJs.ModifierPlanes | Controls.js:152-177 | holding x alone, y alone or z alone selects its listed set of three planes |
| ControlsJs.Write | Controls.js:118-126 | an unbound code changes nothing; a bound one sets its key name to the event value |
| ControlsJs.AliasReleaseClears | Controls.js:13-14 | releasing `a` while the left arrow is still held clears `lft`: aliases share one bit |
| ControlsJs.Opposed | Controls.js:139-144 | the two flags of a key pair follow its keys and cancel when both are held |
| ControlsJs.SelectPlanes | Controls.js:146-177 | the plane assignment equals `PlanesFor` of the held keys |
| ControlsJs.Controller.constructor | Controls.js:33-52 | every key is released, and the states are the initial ones |
| ControlsJs.KeyEvent | Controls.js:116-178 | a key event writes the key bit and rederives the states from the held keys; an unbound key changes nothing; `mouse` and `unmk` are untouched |
| ControlsJs.KeyKeepsButtons | Controls.js:126 | a keyboard event never changes the mouse button bits |
| ControlsJs.Derive | Controls.js:127-177 | mark, zoom, motion, turns and planes are all recomputed from the held keys |
| ControlsJs.ButtonDown | Controls.js:81-96 | pressing button 0 or 2 sets its bit and turns `mouse` on; the states stay derived from the keys; `planes` and `unmk` are unchanged |
| ControlsJs.ButtonUp | Controls.js:97-108 | releasing button 0 or 2 clears its bit; the states stay derived from the keys; `planes` and `unmk` are unchanged |
| ControlsJs.KeyMotion | Controls.js:130-137 | keyboard motion: forward iff not shifted and space or the left button is held; back iff shifted, space held and the left button not held |
| ControlsJs.SpaceMotion | Controls.js:103-104 | on left-button release: forward iff space is held without shift; back iff both are held |
| ControlsJs.AnyButton | Controls.js:106 | `mouse` iff either button is still held |
| ControlsJs.ButtonKeeps | Controls.js:81-108 | a button event leaves mark, zoom, turns, planes, space and shift as they were |
| ControlsJs.ReleasedBits | Controls.js:33-42 | all keys start at 0, so no key starts held |
| ControlsJs.DerivedUnique | Controls.js:116-178 | the held keys determine every derived state, and the planes whenever a turn is active |
| ControlsJs.CodesBindNoButton | Controls.js:4-32 | no key code is bound to a mouse button name |
| ControlsJs.MotionExclusive | Controls.js:130-137 | forward and back are never both on |
| ControlsJs.Controller.OnKey | Controls.js:116-178 | the key bit is written; the states follow the held keys; an unbound key leaves the states alone |
| ControlsJs.Controller.OnMouse | Controls.js:75-115 | other buttons are ignored; a press sets the button bit and `mouse`; a release clears it; a move changes no key and no state; no mouse event changes `planes` or `unmk` |
| Game.Held | src/Game.ts:45 | a key is held only if it is present, and a missing key reads false |
| Game.Pressed | src/Game.ts:117-133 | every code that is down and bound contributes its key name |
| Game.Cleared | src/Game.ts:90-95 | clearing keeps the key names and releases every key |
| Game.Raised | src/Game.ts:117-124 | raising adds the pressed names and keeps the already-held ones |
| Game.Remap | src/Game.ts:89-136 | corrected remap: afterwards the held keys are exactly the names pressed through the key table or the mouse table |
| Game.RemapAsWritten | src/Game.ts:117-133 | as written: a key is held iff it is pressed through the key table by a key or by a mouse code, because the mouse loop reads `keyCodes` |
| Game.RemapAsWrittenDropsButton | src/Game.ts:126-133 | with the left button held and mapped to `lmb`, the remap as written leaves `lmb` released, out of sync with the mouse |
| Game.ClearAll | src/Game.ts:90-97 | all keys are released; an update is sent iff some key was held |
| Game.PressedInStep | src/Game.ts:117-124 | scanning one more code adds its name exactly when it is down and bound |
| Game.RaisedOverStep | src/Game.ts:117-124 | the restore loop's invariant is kept by one more entry |
| Game.Restore | src/Game.ts:117-124 | after the loop, the held keys are the old ones raised by every pressed name |
| Game.ReverseOf | src/Game.ts:100-106 | the reverse table lists, for each name, exactly the codes bound to it |
| Game.React | src/Game.ts:175-203 | an unbound code changes nothing; a press holds its name; a release clears it only when no alias is still down; an update is sent iff the keys changed |
| Game.PressedAlias | src/Game.ts:193-197 | a name is pressed iff one of its alias codes is down |
| Game.PressedOther | src/Game.ts:177 | recording a code bound to another name does not change whether a name is pressed |
| Game.Unbound | src/Game.ts:178-181 | a name bound to no code is never pressed |
| Game.ReactKeepsSynced | src/Game.ts:175-203 | if the held keys matched the pressed names before an event, they match after it |
| Game.Game.constructor | src/Game.ts:38-71 | empty tables, no keys held, the mouse at 0, 0, and no update sent |
| Game.Game.SetInputMap | src/Game.ts:89-136 | corrected: the tables are installed; the held keys are exactly the pressed names; an update is sent iff some key was held |
| Game.Game.SetInputMapAsWritten | src/Game.ts:89-136 | as written: the same, but the held keys follow `RemapAsWritten` |
| Game.Game.InstallMaps | src/Game.ts:89-115 | the tables and reverse tables are installed, and every key is released with one update if any was held |
| Game.Game.OnKey | src/Game.ts:175-203 | the key state is recorded; the keys, the updates and the activity flags follow `React`; sync with the pressed names is kept |
| Game.Game.OnMouse | src/Game.ts:138-163 | the same for mouse buttons; a touch counts as button 0 |
| Game.Game.Dispatch | src/Game.ts:148-162 | a press of a released name, or a release of a held name with no alias down, changes the name and sends one update |
| Game.Game.OnMouseMove | src/Game.ts:165-173 | the mouse position is replaced and one update is sent |
| Game.AnyDown | src/Game.ts:155-157 | the alias loop reports a down code iff some alias code is down |
| Player.Len2 | src/Player.ts:66 | `len2` is never negative |
| Player.PlanesOneToOne | src/Player.ts:6 | `planes` maps the four axes to four distinct basis vectors, with z as `fwd` |
| Player.BasisIndexed | src/Player.ts:7-13 | `basis[planeIndices[a]]` is the unit vector of axis `a` |
| Player.Rotated | src/Player.ts:19-24 | the rotated array has the same length, and entry `i` is `arr[(i + count) mod n]` for every integer `count` |
| Player.RotArray | src/Player.ts:19-24 | the slice-splice-push rotation computes `Rotated(arr, count)` |
| Player.RotatedPermutes | src/Player.ts:19-24 | rotation is a permutation |
| Player.RotatedCompose | src/Player.ts:19-24 | rotating by `a` and then by `b` is rotating by `a + b` |
| Player.RotatedInverse | src/Player.ts:19-24 | rotating by `-count` undoes rotating by `count` |
| Player.Player.constructor | src/Player.ts:34-41 | `rgt, up, fwd, ana` is the basis rotated so that `ana` is the unit vector of the requested axis; the player is at rest at the start |
| Player.FrameAna | src/Player.ts:40 | the fourth vector of the rotated basis is the unit vector of the requested axis |
| Player.FrameIsBasis | src/Player.ts:40 | the player's frame is a permutation of the basis |
| Player.TurnOf | src/Player.ts:43-54 | a rotation acts on the planes of its two axes; it carries the velocity along exactly when accelerating and one plane is `fwd` |
| Player.PairTurnPriority | src/Player.ts:142-188 | each key pair gives at most one turn; it turns when either key is on, and the first key wins with its own plane order |
| Player.CoherentPairs | src/Player.ts:142-188 | when the two keys are not both on, the turn does not depend on which key is tested first |
| Player.MouseTurns | src/Player.ts:190-201 | at most two mouse turns, only when the mouse is held inside the unit disc, there iff x or y is non-zero, and each one carries the velocity |
| Player.MouseTurnsInside | src/Player.ts:190-201 | inside the disc, the x turn comes first and then the y turn |
| Player.IdleTurnsNothing | src/Player.ts:137-201 | with the default control states, `update` makes no turn |
| Player.SpeedOf | src/Player.ts:106-119 | thrust is forward iff fwd and backward iff bak without fwd; drag is 1.5 with the mouse, 2 when idle, else 1 |
| Player.Wrap | src/Player.ts:98-101 | `p - size·floor(p/size)` lies in `[0, size)` and differs from `p` by a multiple of `size` |
| Player.Wrapped | src/Player.ts:97-101 | all four coordinates of the wrapped position are inside the maze |
| Player.TurnPair | src/Player.ts:142-148 | the `if … else if` for one key pair gives `PairTurn`, and `moved` is set iff it turns |
| Player.TurnKeys | src/Player.ts:138-188 | the six key pairs give their turns in the source's order, and `moved` iff any turn happened |
| Player.TurnMouse | src/Player.ts:190-201 | the mouse block gives `MouseTurns`, and `moved` iff it turned |
| Player.Steer | src/Player.ts:137-207 | turns, then a renormalisation iff something turned, then the speed update |
| Player.Player.Translate | src/Player.ts:64-104 | nothing moves when the velocity is zero; otherwise one move is logged, the position becomes the wrapped point reached and the velocity the one the walk's redirections leave |
| Player.Player.Update | src/Player.ts:137-210 | the log grows by the steering steps and a move iff the slowed velocity is non-zero; the velocity ends as the slowed one, or as the walk left it when the player moved; the result is true iff the player moved or turned |

## Left out

- Floating-point vector arithmetic: `vec_rot2`, `orthonorm`, `reject` and `vec_add` are not modelled. `rotate` and `renormalize` are logged as `Op` values, and the rotated vectors themselves are not computed.
- The drag law of `update_speed` (src/Player.ts:121-134) is not modelled. `Update` takes the slowed velocity as a parameter, and `SpeedOf` records only the thrust sign and the drag coefficient.
- The ray cast in `translate` (src/Player.ts:69-95) is not modelled, because it calls `Raycast`, which is not part of this model. The point the walk reaches and the velocity it leaves after `reject` redirects it along the walls hit (src/Player.ts:89) are parameters.
- Player.Player.constructor: `rotArray` copies the basis with a shallow `slice()` (src/Player.ts:20), so `rgt`, `up`, `fwd` and `ana` are the module-level `basis` vectors themselves, and later turns rotate those shared objects in place. The model gives the player its own vector values, so this aliasing is not modelled.
- Player.Len2: states only that `len2` is non-negative. A real sum of squares is zero only at the origin, but the solver cannot prove that, and floating-point squares can underflow to zero anyway. `Translate` and `Update` test `Len2(v) != 0.0`, as the source tests `mag === 0`.
- `Math.random` is modelled as a nondeterministic choice among the values it could lead to. This covers the start cell, the active cell, the direction and the player's offset in the start cell. Probabilities are not modelled.
- Maze.js `generate` and `find_farthest` take four sizes. The model uses one `size`, because every caller (Maze.js:107, 180, 183) passes the same value four times.
- The camera, the overlay, `GameLoop`, `update_zoom`, `update_overlay`, the auto-pilot and `getDirectionToPath` are not modelled. They drive rendering and floating-point steering. Their only effect on the modelled state is the `player_control` flag, which is modelled.
- In Controls.js, the pointer offsets and clip coordinates (`mouseX`, `mouseY`, `clipX`, `clipY`), the `width` and `height` setters and the cursor style are not modelled. The setters compute a value and discard it.
- Controls.js stores key bits as 0 or 1 and tests them by JavaScript truthiness. The model keeps the bits as integers and reads them through `On`.
- Player.js is not modelled; only its TypeScript revision src/Player.ts is. The discrete differences are these:
  - its turns use the planes named by `controls.vp`/`kp`, `vy`/`ky` and `vr`/`kr` (Player.js:129-151) instead of fixed axes;
  - it has three key pairs and no 4D turn keys;
  - it sets `moved` whenever `controls.mouse` is set (Player.js:153-155), even when both offsets are 0, and it has no unit-disc test;
  - its speed is a scalar (Player.js:113-123), not a velocity vector.
- Webgl.Session.UpdateCellTs: the thrown error is returned as an `Outcome` value. That the throw also ends the frame loop is not modelled: the exception leaves `body` before the next `requestAnimationFrame` (src/GameLoop.ts:17-18).
- Webgl.Session.UpdateCellTs: the model reads the player's cell from its position `pos`. src/webgl.ts:121-124 reads `player.x` to `player.w`, which the `Player` of src/Player.ts (src/Player.ts:26-41) does not have. As written each coordinate is NaN, so `map.get` (src/webgl.ts:126) indexes the grid with NaN and throws a TypeError on the first frame. The model follows the evident intent instead.
- Webgl.Session.UpdateCell: the model takes the player's cell from the floored coordinates `fx` to `fw`, as the code is evidently meant to work. As written, webgl.js:98-103 calls `new Player({x, y, z, w}, ana)`, but `Player` takes four numbers (Player.js:3-8). So `player.x` is the object, `player.y` the axis string, and `player.z` and `player.w` are undefined. The floors at webgl.js:136-139 are then NaN, and `map.get` (webgl.js:142) reads `this.grid[NaN]` (Maze.js:110-111), which is undefined, so indexing it throws a TypeError on the first frame under player control. Also, webgl.js:193 calls `player.update(states, seconds, maxdist)` against `update(controls, map, seconds)` (Player.js:126). Neither mismatch is modelled.
- Webgl.Session.UpdateCellAsWritten: it takes the player's cell as `UpdateCell` does, so the same Player-constructor mismatch (webgl.js:98-103 against Player.js:3-8) and the `player.update` argument mismatch (webgl.js:193 against Player.js:126) are not modelled. As written, the TypeError from `map.get` at webgl.js:142 is thrown before the end cell can be reached.
- Webgl.Session.UpdateCellAsWritten: the TypeError it returns as an `Outcome` value (webgl.js:151) would also end the frame loop, which is not modelled: the exception leaves `body` before the next `requestAnimationFrame` (GameLoop.js:22-23).
- The updater callback (`setUpdate`) in src/Game.ts is modelled as a log (`updates`) of the key maps it is called with. Its effect on the control states is modelled by `Controls.ControlStates.Update`, which reads the keys through `Controls.View`.
- `setLoop`, `resize`, `start`, `stop` and the frame timing in src/Game.ts are not modelled. They are about timing and are not part of the discrete state.
- Event objects are reduced to the fields the handlers read: the key code, the button, and whether the event is a mouse event.

## Findings

| source | as written | input that shows it | evidently intended | confidence | as-written member | corrected member |
|---|---|---|---|---|---|---|
| webgl.js:68, src/webgl.ts:56 | `getStartAnaAxis` tests `(x+1)%size` and then `(x+1+size)%size`, which is the same cell, so the -x neighbour is never checked | a start whose only neighbour holding 1 is the -x cell: the result is 'y', 'z' or 'w' instead of 'x' | the second test reads `(x-1+size)%size`, like the y and z lines | high (not executed) | Webgl.AnaAxisAsWritten, Webgl.AnaAxisMissesMinusX | Webgl.AnaAxis |
| webgl.js:151 | on the final lap, `({map, route} = reset(...))` assigns to the `const` bindings `map` and `route` (webgl.js:90-91). `reset` has already re-based the overlay and the player; then a TypeError is thrown and the old maze stays. This line is reached only once the `Player` call at webgl.js:98-103 is fixed (see "## Left out") | entering the end cell when `rounds == path.length` | the new maze and route replace the old ones (`let` bindings) | high (not executed) | Webgl.Session.UpdateCellAsWritten, Webgl.Session.ResetDiscarded | Webgl.Session.UpdateCell, Webgl.Session.Reset |
| src/Game.ts:127 | the mouse-state loop of `setInputMap` looks buttons up in `this.keyCodes` instead of `this.mouseCodes` | left button held, key table `{32: 'spc'}`, mouse table `{0: 'lmb'}`: after remapping, `lmb` is not held although the button is down | look buttons up in `mouseCodes` | high (not executed) | Game.Game.SetInputMapAsWritten, Game.RemapAsWrittenDropsButton | Game.Game.SetInputMap, Game.Remap |
