/**
 * The JavaScript maze (Maze.js): a grid of plain numbers, 255 for a wall
 * and 0 for an open cell, carved by the growing-tree loop with `splice`
 * removal; `find_farthest` returning the whole last level, and the `Maze`
 * object with its five-argument `get`/`set`, `cellIndex`, `getLongestPath`
 * and one-byte-per-cell `flatten`.
 */
module MazeJs {
  import opened Grid
  import opened Search
  import opened Walks

  /** The value of a cell that was never carved. */
  const WallVal := 255

  /** `find_farthest`'s wall test. */
  predicate IsWall(v: int)
  {
    v == WallVal
  }

  // ---------------------------------------------------------------------------
  // isSafe

  /** How many of `cells` hold 255, counted with repetition. */
  function CountWalls(grid: array4<int>, size: int, cells: seq<Pos>): (n: nat)
    requires Fits(grid, size) && AllOnGrid(cells, size)
    reads grid
    ensures n <= |cells|
  {
    if cells == [] then 0
    else CountWalls(grid, size, cells[..|cells| - 1]) + (if At(grid, cells[|cells| - 1]) == WallVal then 1 else 0)
  }

  /** `isSafe`: exactly eight of the nine cells (the cell and its wrapped neighbours) are 255. */
  predicate IsSafe(grid: array4<int>, size: int, p: Pos)
    requires size > 0 && Fits(grid, size) && InRange(p, size)
    reads grid
  {
    NineInRange(p, size);
    CountWalls(grid, size, Nine(p, size)) == 8
  }

  /** Two entries that are not 255 leave at most `|cells| - 2` walls. */
  lemma {:induction false} TwoNotWalls(grid: array4<int>, size: int, cells: seq<Pos>, i: nat, j: nat)
    requires Fits(grid, size) && AllOnGrid(cells, size)
    requires i < j < |cells| && At(grid, cells[i]) != WallVal && At(grid, cells[j]) != WallVal
    ensures CountWalls(grid, size, cells) <= |cells| - 2
  {
    var init := cells[..|cells| - 1];
    if j < |cells| - 1 {
      assert init[i] == cells[i] && init[j] == cells[j];
      TwoNotWalls(grid, size, init, i, j);
    } else {
      assert init[i] == cells[i];
      OneNotWall(grid, size, init, i);
    }
  }

  lemma {:induction false} OneNotWall(grid: array4<int>, size: int, cells: seq<Pos>, i: nat)
    requires Fits(grid, size) && AllOnGrid(cells, size)
    requires i < |cells| && At(grid, cells[i]) != WallVal
    ensures CountWalls(grid, size, cells) <= |cells| - 1
  {
    var init := cells[..|cells| - 1];
    if i < |cells| - 1 {
      assert init[i] == cells[i];
      OneNotWall(grid, size, init, i);
    }
  }

  /** When only entry `k` is not 255, all the others are counted. */
  lemma {:induction false} AllWallsBut(grid: array4<int>, size: int, cells: seq<Pos>, k: nat)
    requires Fits(grid, size) && AllOnGrid(cells, size)
    requires k < |cells| && At(grid, cells[k]) != WallVal
    requires forall i | 0 <= i < |cells| && i != k :: At(grid, cells[i]) == WallVal
    ensures CountWalls(grid, size, cells) == |cells| - 1
  {
    var init := cells[..|cells| - 1];
    if k < |cells| - 1 {
      forall i | 0 <= i < |init| && i != k
        ensures At(grid, init[i]) == WallVal
      {
        assert init[i] == cells[i];
      }
      assert init[k] == cells[k];
      AllWallsBut(grid, size, init, k);
    } else {
      AllWalls(grid, size, init);
    }
  }

  lemma {:induction false} AllWalls(grid: array4<int>, size: int, cells: seq<Pos>)
    requires Fits(grid, size) && AllOnGrid(cells, size)
    requires forall i | 0 <= i < |cells| :: At(grid, cells[i]) == WallVal
    ensures CountWalls(grid, size, cells) == |cells|
  {
    if cells != [] {
      AllWalls(grid, size, cells[..|cells| - 1]);
    }
  }

  // ---------------------------------------------------------------------------
  // generate

  /** The carving state: the open cells hold 0 and every other cell still holds 255. */
  ghost predicate Carved(grid: array4<int>, size: int, open: set<Pos>)
    requires Fits(grid, size)
    reads grid
  {
    forall p {:trigger At(grid, p)} | InRange(p, size) :: if p in open then At(grid, p) == 0 else At(grid, p) == WallVal
  }

  /**
   * What `isSafe` guarantees while carving: the tested cell is a wall and
   * the active cell `c` is its only open neighbour, so opening it closes no
   * cycle.
   */
  lemma SafeMeansLonelyWall(grid: array4<int>, size: int, open: set<Pos>, c: Pos, d: Dir)
    requires size >= 3 && Fits(grid, size) && Carved(grid, size, open)
    requires c in open && InRange(c, size)
    requires IsSafe(grid, size, Move(c, d, size))
    ensures Move(c, d, size) !in open
    ensures forall q | q in open && Adjacent(Move(c, d, size), q, size) :: q == c
  {
    var n := Move(c, d, size);
    MoveInRange(c, d, size);
    NineInRange(n, size);
    var nine := Nine(n, size);
    MoveBack(c, d, size);
    MoveAdjacent(n, Opp(d), size);
    var kc := NeighbourInNine(n, c, size);
    if n in open {
      TwoNotWalls(grid, size, nine, 0, kc);
    }
    forall q | q in open && Adjacent(n, q, size)
      ensures q == c
    {
      var kq := NeighbourInNine(n, q, size);
      if kq < kc {
        TwoNotWalls(grid, size, nine, kq, kc);
      } else if kc < kq {
        TwoNotWalls(grid, size, nine, kc, kq);
      }
    }
  }

  /** While only the start is open, its +x neighbour is safe, so the first round always carves. */
  lemma FirstStepSafe(grid: array4<int>, size: int, start: Pos)
    requires size >= 3 && Fits(grid, size) && InRange(start, size) && Carved(grid, size, {start})
    ensures IsSafe(grid, size, Move(start, R, size))
  {
    var n := Move(start, R, size);
    MoveInRange(start, R, size);
    NineInRange(n, size);
    NineDistinct(n, size);
    MoveBack(start, R, size);
    MoveAdjacent(n, L, size);
    var k := NeighbourInNine(n, start, size);
    AllWallsBut(grid, size, Nine(n, size), k);
  }

  /** `cells.splice(index, 1)`: the selected entry is removed and the others keep their order. */
  function Splice<T>(s: seq<T>, i: nat): (r: seq<T>)
    requires i < |s|
    ensures |r| == |s| - 1
    ensures forall j | 0 <= j < i :: r[j] == s[j]
    ensures forall j | i <= j < |r| :: r[j] == s[j + 1]
  {
    s[..i] + s[i + 1..]
  }

  /** Splicing out entry `i` removes exactly one copy of it. */
  lemma SpliceMultiset<T>(s: seq<T>, i: nat)
    requires i < |s|
    ensures multiset(Splice(s, i)) == multiset(s) - multiset{s[i]}
  {
    assert s == s[..i] + [s[i]] + s[i + 1..];
  }

  /** `pick`: some entry of a non-empty list (the source draws it at random). */
  method Pick<T>(list: seq<T>) returns (x: T)
    requires |list| > 0
    ensures x in list
  {
    var k :| 0 <= k < |list|;
    x := list[k];
  }

  /** The directions `isSafe` accepts around `c`, tested in the order R L U D F B A K (the source's eight `if`s). */
  method SafeDirections(grid: array4<int>, size: int, c: Pos) returns (safe: seq<Dir>)
    requires size > 0 && Fits(grid, size) && InRange(c, size)
    ensures forall d: Dir :: d in safe <==> IsSafe(grid, size, Move(c, d, size))
  {
    safe := [];
    for k := 0 to |Order|
      invariant forall d: Dir :: d in safe <==> d in Order[..k] && IsSafe(grid, size, Move(c, d, size))
    {
      assert Order[..k + 1] == Order[..k] + [Order[k]];
      if IsSafe(grid, size, Move(c, Order[k], size)) {
        safe := safe + [Order[k]];
      }
    }
    AllDirsInOrder();
    assert Order[..|Order|] == Order;
  }

  /** The grid before carving: every cell 255, except the start, which is 0. */
  method InitialGrid(start: Pos, size: int) returns (grid: array4<int>)
    requires size > 0 && InRange(start, size)
    ensures fresh(grid) && Fits(grid, size)
    ensures Carved(grid, size, {start})
  {
    grid := new int[size, size, size, size]((w, z, y, x) => WallVal);
    grid[start.w, start.z, start.y, start.x] := 0;
  }

  /** The state `generate` keeps between rounds. */
  ghost predicate Growing(grid: array4<int>, size: int, start: Pos, cells: seq<Pos>,
                          open: set<Pos>, par: map<Pos, Pos>, depth: map<Pos, nat>)
    reads grid
  {
    && Fits(grid, size) && IsTree(open, size, start, par, depth) && Carved(grid, size, open)
    && (forall c | c in cells :: c in open)
    && (|open| >= 2 || (cells == [start] && open == {start}))
    && open <= AllCells(size)
  }

  /** Opening a wall leaves fewer walls. */
  lemma FewerWalls(all: set<Pos>, open: set<Pos>, n: Pos)
    requires n in all && n !in open
    ensures |all - (open + {n})| < |all - open|
  {
    assert (all - (open + {n})) + {n} == all - open;
  }

  /**
   * One round of the carving loop. Either the selected active cell is
   * spliced out and the grid is untouched, or exactly one 255 cell next to
   * the selected one becomes 0 and is appended to the active cells.
   */
  method Round(grid: array4<int>, size: int, start: Pos, cells: seq<Pos>,
               ghost open: set<Pos>, ghost par: map<Pos, Pos>, ghost depth: map<Pos, nat>)
    returns (cells': seq<Pos>, ghost open': set<Pos>, ghost par': map<Pos, Pos>, ghost depth': map<Pos, nat>)
    requires Growing(grid, size, start, cells, open, par, depth) && |cells| > 0
    modifies grid
    ensures Growing(grid, size, start, cells', open', par', depth')
    ensures || (open' == open && (exists i | 0 <= i < |cells| :: cells' == Splice(cells, i))
                && forall q | InRange(q, size) :: At(grid, q) == old(At(grid, q)))
            || (exists i, n | 0 <= i < |cells| && InRange(n, size) && Adjacent(cells[i], n, size) ::
                  && old(At(grid, n)) == WallVal && At(grid, n) == 0
                  && open' == open + {n} && cells' == cells + [n]
                  && forall q | InRange(q, size) && q != n :: At(grid, q) == old(At(grid, q)))
    ensures |AllCells(size) - open'| < |AllCells(size) - open| || (open' == open && |cells'| < |cells|)
  {
    var index :| 0 <= index < |cells|;
    var c := cells[index];
    assert c in open;
    var safe := SafeDirections(grid, size, c);
    if |open| < 2 {
      FirstStepSafe(grid, size, start);
      assert R in safe;
    }
    if |safe| == 0 {
      cells', open', par', depth' := Splice(cells, index), open, par, depth;
      DropKeepsGrowing(grid, size, start, cells, open, par, depth, index);
    } else {
      var d := Pick(safe);
      cells', open', par', depth' := Carve(grid, size, start, cells, open, par, depth, c, d);
      InAllCells(Move(c, d, size), size);
      FewerWalls(AllCells(size), open, Move(c, d, size));
      MoveAdjacent(c, d, size);
      MoveInRange(c, d, size);
    }
  }

  /** Dropping an active cell keeps the carving state. */
  lemma DropKeepsGrowing(grid: array4<int>, size: int, start: Pos, cells: seq<Pos>,
                         open: set<Pos>, par: map<Pos, Pos>, depth: map<Pos, nat>, index: nat)
    requires Growing(grid, size, start, cells, open, par, depth) && index < |cells| && |open| >= 2
    ensures Growing(grid, size, start, Splice(cells, index), open, par, depth)
  {
    var r := Splice(cells, index);
    SpliceMultiset(cells, index);
    forall q | q in r
      ensures q in open
    {
      assert q in multiset(r);
    }
  }

  /** Opening the safe neighbour of active cell `c` in direction `d` (it becomes 0), and making it active. */
  method Carve(grid: array4<int>, size: int, start: Pos, cells: seq<Pos>,
               ghost open: set<Pos>, ghost par: map<Pos, Pos>, ghost depth: map<Pos, nat>, c: Pos, d: Dir)
    returns (cells': seq<Pos>, ghost open': set<Pos>, ghost par': map<Pos, Pos>, ghost depth': map<Pos, nat>)
    requires Growing(grid, size, start, cells, open, par, depth)
    requires c in open && IsSafe(grid, size, Move(c, d, size))
    modifies grid
    ensures Growing(grid, size, start, cells', open', par', depth')
    ensures var n := Move(c, d, size);
            && n !in open && open' == open + {n} && cells' == cells + [n]
            && old(At(grid, n)) == WallVal && At(grid, n) == 0
            && forall q | InRange(q, size) && q != n :: At(grid, q) == old(At(grid, q))
  {
    var n := Move(c, d, size);
    SafeMeansLonelyWall(grid, size, open, c, d);
    MoveAdjacent(c, d, size);
    CarveKeepsTree(open, size, start, par, depth, c, n);
    InAllCells(n, size);
    OpenCell(grid, size, open, n);
    cells' := cells + [n];
    open', par', depth' := open + {n}, par[n := c], depth[n := depth[c] + 1];
  }

  /** `grid[nw][nz][ny][nx] = 0`: the wall `n` becomes open; no other cell changes. */
  method OpenCell(grid: array4<int>, size: int, ghost open: set<Pos>, n: Pos)
    requires Fits(grid, size) && Carved(grid, size, open)
    requires InRange(n, size) && n !in open
    modifies grid
    ensures Carved(grid, size, open + {n})
    ensures old(At(grid, n)) == WallVal && At(grid, n) == 0
    ensures forall p | InRange(p, size) && p != n :: At(grid, p) == old(At(grid, p))
  {
    grid[n.w, n.z, n.y, n.x] := 0;
    forall p | InRange(p, size)
      ensures At(grid, p) == if p == n then 0 else old(At(grid, p))
    {
    }
  }

  /**
   * `generate`: carve a perfect maze from `start`. The open cells (value 0)
   * form a tree rooted at `start`; every other cell is still 255.
   */
  method Generate(start: Pos, size: int)
    returns (grid: array4<int>, ghost open: set<Pos>, ghost par: map<Pos, Pos>, ghost depth: map<Pos, nat>)
    requires size >= 3 && InRange(start, size)
    ensures fresh(grid) && Fits(grid, size)
    ensures IsTree(open, size, start, par, depth) && Carved(grid, size, open) && |open| >= 2
  {
    grid := InitialGrid(start, size);
    var cells := [start];
    open, par, depth := {start}, map[], map[start := 0];
    SingletonTree(start, size);
    InAllCells(start, size);
    while |cells| > 0
      invariant Growing(grid, size, start, cells, open, par, depth)
      decreases |AllCells(size) - open|, |cells|
    {
      cells, open, par, depth := Round(grid, size, start, cells, open, par, depth);
    }
  }

  /** `open` is exactly the set of cells of the grid that do not hold 255. */
  ghost predicate NonWalls(grid: array4<int>, size: int, open: set<Pos>)
    requires Fits(grid, size)
    reads grid
  {
    forall p {:trigger At(grid, p)} | InRange(p, size) :: p in open <==> At(grid, p) != WallVal
  }

  /** Right after carving, the non-255 cells are exactly the open ones. */
  lemma CarvedNonWalls(grid: array4<int>, size: int, open: set<Pos>)
    requires Fits(grid, size) && Carved(grid, size, open)
    ensures NonWalls(grid, size, open)
  {
    forall p | InRange(p, size)
      ensures p in open <==> At(grid, p) != WallVal
    {
    }
  }

  /** The same fact in the form the search takes it, with `IsWall` as its wall test. */
  lemma NonWallsOpenIs(grid: array4<int>, size: int, open: set<Pos>)
    requires Fits(grid, size) && NonWalls(grid, size, open)
    ensures OpenIs(grid, IsWall, size, open)
  {
    forall p | InRange(p, size)
      ensures p in open <==> !IsWall(At(grid, p))
    {
    }
  }

  // ---------------------------------------------------------------------------
  // find_farthest

  /**
   * `find_farthest`: the whole last non-empty level of the search from
   * `origin`; every trail in it is a walk back to the origin of length `d`,
   * every open cell is within `d` steps of the origin, and the cell of each
   * trail in the level is exactly `d` steps away.
   */
  method FindFarthest(grid: array4<int>, size: int, origin: Pos,
                      ghost open: set<Pos>, ghost root: Pos, ghost par: map<Pos, Pos>, ghost depth: map<Pos, nat>)
    returns (cells: seq<Trail>, ghost d: nat)
    requires Fits(grid, size) && IsTree(open, size, root, par, depth)
    requires OpenIs(grid, IsWall, size, open) && origin in open
    ensures cells == Level(grid, IsWall, size, origin, d)
    ensures cells != [] && Level(grid, IsWall, size, origin, d + 1) == []
    ensures forall t | t in cells :: WellFormed(t, origin, open, size) && Len(t) == d
    ensures forall x | x in open :: WithinSteps(origin, x, d, open, size)
    ensures forall t | t in cells :: StepsApart(origin, t.pos, d, open, size)
  {
    cells, d := FindFarthestLevel(grid, IsWall, size, origin, open, root, par, depth);
    LastLevelWithin(grid, IsWall, size, origin, d, open, root, par, depth);
    forall t | t in cells
      ensures StepsApart(origin, t.pos, d, open, size)
    {
      LevelApart(grid, IsWall, size, origin, d, t, open, root, par, depth);
    }
  }

  /**
   * `getLongestPath`: search from `start`, restart from the first cell of
   * the last level as a fresh origin (its `prev` and `back` deleted), and
   * unwind the first trail of the second search's last level. The result
   * is that trail's cells, from the farthest cell of the second search back
   * to its origin, which lies on the last level of the first search. In the
   * tree the cells are all different, and with a second open cell there are
   * at least two. Since the first search starts at the root of the carving
   * tree, the two ends are a farthest pair of the maze (`Diameter`).
   */
  method LongestPath(grid: array4<int>, size: int, start: Pos,
                     ghost open: set<Pos>, ghost par: map<Pos, Pos>, ghost depth: map<Pos, nat>)
    returns (path: seq<Pos>)
    requires Fits(grid, size) && IsTree(open, size, start, par, depth)
    requires OpenIs(grid, IsWall, size, open)
    ensures path != [] && InRange(path[|path| - 1], size)
    ensures UnwoundFarthest(grid, IsWall, size, path[|path| - 1], path)
    ensures OnLastLevel(grid, IsWall, size, start, path[|path| - 1])
    ensures IsChain(path, open, size) && AllDistinct(path)
    ensures |open| >= 2 ==> |path| >= 2
    ensures Diameter(path[|path| - 1], path[0], |path| - 1, open, size)
  {
    var first;
    ghost var d1;
    first, d1 := FarthestTrail(grid, size, start, open, start, par, depth);
    var origin := first.pos;
    var far;
    ghost var d2;
    far, d2 := FarthestTrail(grid, size, origin, open, start, par, depth);
    path := Unwind(far);
    SweepPath(grid, IsWall, size, start, d1, first, d2, far, open, par, depth, path);
  }

  /** `let [farthest] = find_farthest(...)`: the first trail of the last level. */
  method FarthestTrail(grid: array4<int>, size: int, origin: Pos,
                       ghost open: set<Pos>, ghost root: Pos, ghost par: map<Pos, Pos>, ghost depth: map<Pos, nat>)
    returns (far: Trail, ghost d: nat)
    requires Fits(grid, size) && IsTree(open, size, root, par, depth)
    requires OpenIs(grid, IsWall, size, open) && origin in open
    ensures Level(grid, IsWall, size, origin, d) != [] && far == Level(grid, IsWall, size, origin, d)[0]
    ensures Level(grid, IsWall, size, origin, d + 1) == []
    ensures WellFormed(far, origin, open, size) && Len(far) == d
    ensures forall x | x in open :: WithinSteps(origin, x, d, open, size)
    ensures StepsApart(origin, far.pos, d, open, size)
  {
    var cells;
    cells, d := FindFarthest(grid, size, origin, open, root, par, depth);
    far := cells[0];
    assert far in cells;
  }

  // ---------------------------------------------------------------------------
  // flatten's buffer: one byte per cell

  /** Each cell's value as a `Uint8Array` stores it: reduced modulo 256. */
  ghost function CellBytes(grid: array4<int>, size: int): (bytes: map<Pos, Byte>)
    requires Fits(grid, size)
    reads grid
  {
    map p | p in AllCells(size) :: InAllCells(p, size); (At(grid, p) % 256) as Byte
  }

  /** The buffer holds the bytes of the first `h` cells, in `cellIndex` order. */
  ghost predicate FlatUpTo(packed: seq<Byte>, bytes: map<Pos, Byte>, size: int, h: int)
  {
    && |packed| == Pow4(size)
    && (forall q {:trigger Grid.CellIndex(q, size)} | InRange(q, size) && Grid.CellIndex(q, size) < h ::
          q in bytes && 0 <= Grid.CellIndex(q, size) < |packed| && packed[Grid.CellIndex(q, size)] == bytes[q])
  }

  lemma FlatStarts(packed: seq<Byte>, bytes: map<Pos, Byte>, size: int)
    requires |packed| == Pow4(size)
    ensures FlatUpTo(packed, bytes, size, 0)
  {
    forall q | InRange(q, size)
      ensures Grid.CellIndex(q, size) >= 0
    {
      CellIndexInBounds(q, size);
    }
  }

  /** Writing the byte of cell number `h` at offset `h` extends the filled prefix by one cell. */
  lemma FlatStep(packed: seq<Byte>, packed': seq<Byte>, bytes: map<Pos, Byte>, size: int, h: int, cur: Pos)
    requires FlatUpTo(packed, bytes, size, h) && cur in bytes
    requires InRange(cur, size) && Grid.CellIndex(cur, size) == h && 0 <= h < |packed|
    requires packed' == packed[h := bytes[cur]]
    ensures FlatUpTo(packed', bytes, size, h + 1)
  {
    forall q | InRange(q, size) && Grid.CellIndex(q, size) < h + 1
      ensures q in bytes && 0 <= Grid.CellIndex(q, size) < |packed'| && packed'[Grid.CellIndex(q, size)] == bytes[q]
    {
      CellIndexInjective(q, cur, size);
    }
  }

  /** `flatten`'s innermost loop: the cells (x, y, z, 0) .. (x, y, z, size - 1), one byte each at `i++`. */
  method FlattenRun(grid: array4<int>, size: int, packed: array<Byte>, i: int, x: int, y: int, z: int, ghost bytes: map<Pos, Byte>)
    returns (i': int)
    requires Fits(grid, size) && bytes == CellBytes(grid, size)
    requires 0 <= x < size && 0 <= y < size && 0 <= z < size
    requires i == Grid.CellIndex(Pos(x, y, z, 0), size)
    requires FlatUpTo(packed[..], bytes, size, i) == true
    modifies packed
    ensures i' == Grid.CellIndex(Pos(x, y, z, size), size)
    ensures FlatUpTo(packed[..], bytes, size, i') == true
  {
    i' := i;
    for w := 0 to size
      invariant i' == Grid.CellIndex(Pos(x, y, z, w), size)
      invariant FlatUpTo(packed[..], bytes, size, i') == true
    {
      CellIndexInBounds(Pos(x, y, z, w), size);
      InAllCells(Pos(x, y, z, w), size);
      var b := (grid[w, z, y, x] % 256) as Byte;
      FlatStep(packed[..], packed[..][i' := b], bytes, size, i', Pos(x, y, z, w));
      packed[i'] := b;
      i' := i' + 1;
    }
  }

  /** `flatten`'s z loop. */
  method FlattenPlane(grid: array4<int>, size: int, packed: array<Byte>, i: int, x: int, y: int, ghost bytes: map<Pos, Byte>)
    returns (i': int)
    requires Fits(grid, size) && bytes == CellBytes(grid, size)
    requires 0 <= x < size && 0 <= y < size
    requires i == Grid.CellIndex(Pos(x, y, 0, 0), size)
    requires FlatUpTo(packed[..], bytes, size, i) == true
    modifies packed
    ensures i' == Grid.CellIndex(Pos(x, y, size, 0), size)
    ensures FlatUpTo(packed[..], bytes, size, i') == true
  {
    i' := i;
    for z := 0 to size
      invariant i' == Grid.CellIndex(Pos(x, y, z, 0), size)
      invariant FlatUpTo(packed[..], bytes, size, i') == true
    {
      i' := FlattenRun(grid, size, packed, i', x, y, z, bytes);
      IndexCarry(Pos(x, y, z, 0), size);
    }
  }

  /** `flatten`'s y loop. */
  method FlattenSlab(grid: array4<int>, size: int, packed: array<Byte>, i: int, x: int, ghost bytes: map<Pos, Byte>)
    returns (i': int)
    requires Fits(grid, size) && bytes == CellBytes(grid, size)
    requires 0 <= x < size
    requires i == Grid.CellIndex(Pos(x, 0, 0, 0), size)
    requires FlatUpTo(packed[..], bytes, size, i) == true
    modifies packed
    ensures i' == Grid.CellIndex(Pos(x, size, 0, 0), size)
    ensures FlatUpTo(packed[..], bytes, size, i') == true
  {
    i' := i;
    for y := 0 to size
      invariant i' == Grid.CellIndex(Pos(x, y, 0, 0), size)
      invariant FlatUpTo(packed[..], bytes, size, i') == true
    {
      i' := FlattenPlane(grid, size, packed, i', x, y, bytes);
      IndexCarry(Pos(x, y, 0, 0), size);
    }
  }

  /** `flatten`'s x loop, over the whole grid. */
  method FlattenAll(grid: array4<int>, size: int, packed: array<Byte>, ghost bytes: map<Pos, Byte>)
    requires Fits(grid, size) && bytes == CellBytes(grid, size) && size >= 0
    requires FlatUpTo(packed[..], bytes, size, 0) == true
    modifies packed
    ensures FlatUpTo(packed[..], bytes, size, Pow4(size)) == true
  {
    var i := 0;
    assert Grid.CellIndex(Pos(0, 0, 0, 0), size) == 0;
    for x := 0 to size
      invariant i == Grid.CellIndex(Pos(x, 0, 0, 0), size)
      invariant FlatUpTo(packed[..], bytes, size, i) == true
    {
      i := FlattenSlab(grid, size, packed, i, x, bytes);
      IndexCarry(Pos(x, 0, 0, 0), size);
    }
    IndexCarry(Pos(0, 0, 0, 0), size);
  }

  /** Once every cell is written, the buffer holds each cell's byte at its `cellIndex`. */
  lemma FlatDone(grid: array4<int>, size: int, packed: array<Byte>, bytes: map<Pos, Byte>)
    requires Fits(grid, size) && bytes == CellBytes(grid, size)
    requires FlatUpTo(packed[..], bytes, size, Pow4(size))
    ensures packed.Length == Pow4(size)
    ensures forall p {:trigger At(grid, p)} | InRange(p, size) ::
      0 <= Grid.CellIndex(p, size) < packed.Length && packed[Grid.CellIndex(p, size)] as int == At(grid, p) % 256
  {
    forall p | InRange(p, size)
      ensures 0 <= Grid.CellIndex(p, size) < packed.Length && packed[Grid.CellIndex(p, size)] as int == At(grid, p) % 256
    {
      CellIndexInBounds(p, size);
      InAllCells(p, size);
      assert packed[..][Grid.CellIndex(p, size)] == bytes[p];
    }
  }

  /** `flatten` over a grid: a fresh buffer with each cell's value, reduced to a byte, at its `cellIndex`. */
  method FlattenCells(grid: array4<int>, size: int) returns (packed: array<Byte>)
    requires Fits(grid, size) && size >= 0
    ensures fresh(packed)
    ensures forall p {:trigger At(grid, p)} | InRange(p, size) ::
      0 <= Grid.CellIndex(p, size) < packed.Length && packed[Grid.CellIndex(p, size)] as int == At(grid, p) % 256
    ensures packed.Length == Pow4(size)
  {
    ghost var bytes := CellBytes(grid, size);
    packed := new Byte[Pow4(size)](_ => 0);
    FlatStarts(packed[..], bytes, size);
    FlattenAll(grid, size, packed, bytes);
    FlatDone(grid, size, packed, bytes);
  }

  // ---------------------------------------------------------------------------
  // Maze

  class Maze {
    const size: int
    var grid: array4<int>
    const start: Pos
    /** The carved cells, as a tree rooted at `start`. */
    ghost var open: set<Pos>
    ghost var par: map<Pos, Pos>
    ghost var depth: map<Pos, nat>

    /** A `size^4` grid and a start cell on it. */
    ghost predicate Valid()
      reads this
    {
      size >= 3 && Fits(grid, size) && InRange(start, size)
    }

    /**
     * The non-255 cells form a tree rooted at `start`. `generate` leaves the
     * maze so; a `set` that writes 255 exactly where 255 was keeps it.
     */
    ghost predicate Perfect()
      reads this, grid
    {
      Valid() && IsTree(open, size, start, par, depth) && NonWalls(grid, size, open)
    }

    /** `Maze(size)`: carve a maze from `start` (the source draws it at random). */
    constructor (size: int, start: Pos)
      requires size >= 3 && InRange(start, size)
      ensures Perfect() && fresh(grid) && this.size == size && this.start == start && |open| >= 2
      ensures forall p | InRange(p, size) :: Get(p.x, p.y, p.z, p.w) == if p in open then 0 else WallVal
    {
      this.size := size;
      this.start := start;
      var g;
      ghost var o, p, d;
      g, o, p, d := Generate(start, size);
      grid, open, par, depth := g, o, p, d;
      new;
      CarvedNonWalls(grid, size, open);
      forall p | InRange(p, size)
        ensures Get(p.x, p.y, p.z, p.w) == if p in open then 0 else WallVal
      {
        assert Get(p.x, p.y, p.z, p.w) == At(grid, p);
      }
    }

    /** `get`: the value at (x, y, z, w). */
    function Get(x: int, y: int, z: int, w: int): int
      requires Valid() && InRange(Pos(x, y, z, w), size)
      reads this, grid
    {
      grid[w, z, y, x]
    }

    /**
     * `set`: store `val` at (x, y, z, w) and return it; no other cell
     * changes, and the maze stays perfect when a wall is written exactly
     * where a wall was.
     */
    method Set(x: int, y: int, z: int, w: int, val: int) returns (r: int)
      requires Valid() && InRange(Pos(x, y, z, w), size)
      modifies grid
      ensures Valid() && r == val && Get(x, y, z, w) == val
      ensures forall q | InRange(q, size) && q != Pos(x, y, z, w) :: At(grid, q) == old(At(grid, q))
      ensures old(Perfect()) && (IsWall(val) <==> old(IsWall(Get(x, y, z, w)))) ==> Perfect()
    {
      grid[w, z, y, x] := val;
      r := val;
      if old(Perfect()) && (IsWall(val) <==> old(IsWall(Get(x, y, z, w)))) {
        forall q | InRange(q, size)
          ensures q in open <==> At(grid, q) != WallVal
        {
          if q != Pos(x, y, z, w) {
            assert At(grid, q) == old(At(grid, q));
          } else {
            assert old(At(grid, q)) == old(Get(x, y, z, w));
          }
        }
      }
    }

    /** `cellIndex`: the offset of (x, y, z, w) in `flatten`'s buffer, inside `[0, size^4)` for a cell of the grid. */
    function CellIndex(x: int, y: int, z: int, w: int): (r: int)
      reads this
      ensures InRange(Pos(x, y, z, w), size) ==> 0 <= r < Pow4(size)
    {
      var size2 := size * size;
      var size3 := size2 * size;
      var r := x * size3 + y * size2 + z * size + w;
      assert r == Grid.CellIndex(Pos(x, y, z, w), size);
      if InRange(Pos(x, y, z, w), size) then CellIndexInBounds(Pos(x, y, z, w), size); r else r
    }

    /** `cellIndex` is a bijection from the grid onto `[0, size^4)`: one-to-one ... */
    lemma CellIndexOneToOne(p: Pos, q: Pos)
      requires InRange(p, size) && InRange(q, size)
      ensures CellIndex(p.x, p.y, p.z, p.w) == CellIndex(q.x, q.y, q.z, q.w) <==> p == q
    {
      CellIndexInjective(p, q, size);
    }

    /** ... and onto. */
    lemma CellIndexOnto(i: int)
      requires size > 0 && 0 <= i < Pow4(size)
      ensures exists p | InRange(p, size) :: CellIndex(p.x, p.y, p.z, p.w) == i
    {
      IndexOfCellAt(i, size);
      var p := CellAt(i, size);
      assert CellIndex(p.x, p.y, p.z, p.w) == i;
    }

    /** `getLongestPath`, on a perfect maze. */
    method GetLongestPath() returns (path: seq<Pos>)
      requires Perfect()
      ensures path != [] && InRange(path[|path| - 1], size) && InRange(start, size)
      ensures UnwoundFarthest(grid, IsWall, size, path[|path| - 1], path)
      ensures OnLastLevel(grid, IsWall, size, start, path[|path| - 1])
      ensures IsChain(path, open, size) && AllDistinct(path)
      ensures |open| >= 2 ==> |path| >= 2
      ensures Diameter(path[|path| - 1], path[0], |path| - 1, open, size)
    {
      NonWallsOpenIs(grid, size, open);
      path := LongestPath(grid, size, start, open, par, depth);
    }

    /** `flatten`: a buffer of `size^4` bytes holding each cell's value, reduced to a byte, at its `cellIndex`. */
    method Flatten() returns (packed: array<Byte>)
      requires Valid()
      ensures fresh(packed)
      ensures forall p | InRange(p, size) ::
        0 <= CellIndex(p.x, p.y, p.z, p.w) < packed.Length && packed[CellIndex(p.x, p.y, p.z, p.w)] as int == Get(p.x, p.y, p.z, p.w) % 256
      ensures packed.Length == Pow4(size)
    {
      packed := FlattenCells(grid, size);
      forall p | InRange(p, size)
        ensures 0 <= CellIndex(p.x, p.y, p.z, p.w) < packed.Length
        ensures packed[CellIndex(p.x, p.y, p.z, p.w)] as int == Get(p.x, p.y, p.z, p.w) % 256
      {
        assert CellIndex(p.x, p.y, p.z, p.w) == Grid.CellIndex(p, size);
        assert Get(p.x, p.y, p.z, p.w) == At(grid, p);
      }
    }
  }
}
