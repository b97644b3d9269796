/**
 * The TypeScript maze (src/Maze.ts): a grid of `{val, id}` cells carved into
 * a perfect maze by a growing-tree loop, the two `find_farthest` searches
 * that pick a long route, `distances`, and the `Maze` class with its
 * accessors and byte-buffer layout.
 */
module MazeTs {
  import opened Grid
  import opened Search
  import opened Walks

  /**
   * A grid cell. `val` is 128 for a wall and 0 for an open cell (route tags
   * are written over it later); `id` is the carve number, -1 for a wall.
   */
  datatype Cell = Cell(val: int, id: int)

  /** A cell that was never carved. */
  const Wall := Cell(128, -1)

  /** `find_farthest`'s wall test. */
  predicate IsWall(c: Cell)
  {
    c.val == 128
  }

  // ---------------------------------------------------------------------------
  // isSafe

  /** The sum of the `val`s of `cells`. */
  function SumVals(grid: array4<Cell>, size: int, cells: seq<Pos>): int
    requires Fits(grid, size) && AllOnGrid(cells, size)
    reads grid
  {
    if cells == [] then 0
    else SumVals(grid, size, cells[..|cells| - 1]) + At(grid, cells[|cells| - 1]).val
  }

  /** How many of `cells` are open (`val` 0), counted with repetition. */
  function CountOpen(grid: array4<Cell>, size: int, cells: seq<Pos>): nat
    requires Fits(grid, size) && AllOnGrid(cells, size)
    reads grid
  {
    if cells == [] then 0
    else CountOpen(grid, size, cells[..|cells| - 1]) + (if At(grid, cells[|cells| - 1]).val == 0 then 1 else 0)
  }

  /** `isSafe`: the nine values add up to 1024 = 8 * 128. */
  predicate IsSafe(grid: array4<Cell>, size: int, p: Pos)
    requires size > 0 && Fits(grid, size) && InRange(p, size)
    reads grid
  {
    NineInRange(p, size);
    SumVals(grid, size, Nine(p, size)) == 1024
  }

  /** How many of the nine cells `isSafe` adds up are open. */
  function OpenAmongNine(grid: array4<Cell>, size: int, p: Pos): nat
    requires size > 0 && Fits(grid, size) && InRange(p, size)
    reads grid
  {
    NineInRange(p, size);
    CountOpen(grid, size, Nine(p, size))
  }

  /** Every cell is a wall or open. */
  ghost predicate WallsOrOpen(grid: array4<Cell>, size: int, cells: seq<Pos>)
    requires Fits(grid, size) && AllOnGrid(cells, size)
    reads grid
  {
    forall i | 0 <= i < |cells| :: At(grid, cells[i]).val == 0 || At(grid, cells[i]).val == 128
  }

  lemma {:induction false} SumOfWallsAndOpen(grid: array4<Cell>, size: int, cells: seq<Pos>)
    requires Fits(grid, size) && AllOnGrid(cells, size) && WallsOrOpen(grid, size, cells)
    ensures SumVals(grid, size, cells) == 128 * (|cells| - CountOpen(grid, size, cells))
  {
    if cells != [] {
      SumOfWallsAndOpen(grid, size, cells[..|cells| - 1]);
    }
  }

  /**
   * On a grid of walls and open cells, `isSafe` holds exactly when one of
   * the nine cells is open.
   */
  lemma IsSafeMeansOneOpen(grid: array4<Cell>, size: int, p: Pos)
    requires size > 0 && Fits(grid, size) && InRange(p, size)
    requires forall q | InRange(q, size) :: At(grid, q).val == 0 || At(grid, q).val == 128
    ensures IsSafe(grid, size, p) <==> OpenAmongNine(grid, size, p) == 1
  {
    NineInRange(p, size);
    SumOfWallsAndOpen(grid, size, Nine(p, size));
  }

  /** Two different open entries make the count at least two. */
  lemma {:induction false} TwoOpen(grid: array4<Cell>, size: int, cells: seq<Pos>, i: nat, j: nat)
    requires Fits(grid, size) && AllOnGrid(cells, size)
    requires i < j < |cells| && At(grid, cells[i]).val == 0 && At(grid, cells[j]).val == 0
    ensures CountOpen(grid, size, cells) >= 2
  {
    var init := cells[..|cells| - 1];
    if j < |cells| - 1 {
      assert init[i] == cells[i] && init[j] == cells[j];
      TwoOpen(grid, size, init, i, j);
    } else {
      assert init[i] == cells[i];
      OneOpen(grid, size, init, i);
    }
  }

  lemma {:induction false} OneOpen(grid: array4<Cell>, size: int, cells: seq<Pos>, i: nat)
    requires Fits(grid, size) && AllOnGrid(cells, size)
    requires i < |cells| && At(grid, cells[i]).val == 0
    ensures CountOpen(grid, size, cells) >= 1
  {
    var init := cells[..|cells| - 1];
    if i < |cells| - 1 {
      assert init[i] == cells[i];
      OneOpen(grid, size, init, i);
    }
  }

  /** The count is one when exactly one entry is open. */
  lemma {:induction false} ExactlyOneOpen(grid: array4<Cell>, size: int, cells: seq<Pos>, k: nat)
    requires Fits(grid, size) && AllOnGrid(cells, size)
    requires k < |cells| && At(grid, cells[k]).val == 0
    requires forall i | 0 <= i < |cells| && i != k :: At(grid, cells[i]).val != 0
    ensures CountOpen(grid, size, cells) == 1
  {
    var init := cells[..|cells| - 1];
    if k < |cells| - 1 {
      forall i | 0 <= i < |init| && i != k
        ensures At(grid, init[i]).val != 0
      {
        assert init[i] == cells[i];
      }
      assert init[k] == cells[k];
      ExactlyOneOpen(grid, size, init, k);
    } else {
      NoneOpen(grid, size, init);
    }
  }

  lemma {:induction false} NoneOpen(grid: array4<Cell>, size: int, cells: seq<Pos>)
    requires Fits(grid, size) && AllOnGrid(cells, size)
    requires forall i | 0 <= i < |cells| :: At(grid, cells[i]).val != 0
    ensures CountOpen(grid, size, cells) == 0
  {
    if cells != [] {
      NoneOpen(grid, size, cells[..|cells| - 1]);
    }
  }

  // ---------------------------------------------------------------------------
  // generate

  /**
   * The carving state: open cells hold `{val: 0, id}` with ids distinct and
   * below `nextId`, every other cell is still `{val: 128, id: -1}`, and
   * `nextId` counts the open cells.
   */
  ghost predicate Carved(grid: array4<Cell>, size: int, open: set<Pos>, nextId: int)
    requires Fits(grid, size)
    reads grid
  {
    && (forall p {:trigger At(grid, p)} | InRange(p, size) ::
          if p in open then At(grid, p).val == 0 && 0 <= At(grid, p).id < nextId else At(grid, p) == Wall)
    && (forall p, q {:trigger At(grid, p), At(grid, q)} | p in open && q in open && InRange(p, size) && InRange(q, size) && At(grid, p).id == At(grid, q).id :: p == q)
    && |open| == nextId
  }

  /**
   * What `isSafe` guarantees while carving: the tested cell is a wall and
   * the active cell `c` is its only open neighbour. This is the comment's
   * promise that carving never opens a cycle.
   */
  lemma SafeMeansLonelyWall(grid: array4<Cell>, size: int, open: set<Pos>, nextId: int, c: Pos, d: Dir)
    requires size >= 3 && Fits(grid, size) && Carved(grid, size, open, nextId)
    requires c in open && InRange(c, size)
    requires IsSafe(grid, size, Move(c, d, size))
    ensures Move(c, d, size) !in open
    ensures forall q | q in open && Adjacent(Move(c, d, size), q, size) :: q == c
  {
    var n := Move(c, d, size);
    MoveInRange(c, d, size);
    IsSafeMeansOneOpen(grid, size, n);
    NineInRange(n, size);
    var nine := Nine(n, size);
    MoveBack(c, d, size);
    MoveAdjacent(n, Opp(d), size);
    var kc := NeighbourInNine(n, c, size);
    if n in open {
      TwoOpen(grid, size, nine, 0, kc);
    }
    forall q | q in open && Adjacent(n, q, size)
      ensures q == c
    {
      var kq := NeighbourInNine(n, q, size);
      if kq < kc {
        TwoOpen(grid, size, nine, kq, kc);
      } else if kc < kq {
        TwoOpen(grid, size, nine, kc, kq);
      }
    }
  }

  /** While only the start is open, its +x neighbour is safe, so the first round always carves. */
  lemma FirstStepSafe(grid: array4<Cell>, size: int, start: Pos)
    requires size >= 3 && Fits(grid, size) && InRange(start, size) && Carved(grid, size, {start}, 1)
    ensures IsSafe(grid, size, Move(start, R, size))
  {
    var n := Move(start, R, size);
    MoveInRange(start, R, size);
    NineInRange(n, size);
    NineDistinct(n, size);
    MoveBack(start, R, size);
    MoveAdjacent(n, L, size);
    var k := NeighbourInNine(n, start, size);
    ExactlyOneOpen(grid, size, Nine(n, size), k);
    IsSafeMeansOneOpen(grid, size, n);
  }

  /**
   * The dead-end removal: the selected entry is overwritten by the last one
   * and the list shortened; the other entries are kept, as a multiset.
   */
  function SwapRemove<T>(s: seq<T>, i: nat): (r: seq<T>)
    requires i < |s|
    ensures |r| == |s| - 1
    ensures multiset(r) == multiset(s) - multiset{s[i]}
  {
    var last := |s| - 1;
    SwapRemoveMultiset(s, i);
    (if i < last then s[i := s[last]] else s)[..last]
  }

  lemma SwapRemoveMultiset<T>(s: seq<T>, i: nat)
    requires i < |s|
    ensures var last := |s| - 1;
            multiset((if i < last then s[i := s[last]] else s)[..last]) == multiset(s) - multiset{s[i]}
  {
    var last := |s| - 1;
    if i < last {
      var a, x, m, y := s[..i], s[i], s[i + 1..last], s[last];
      SplitAround(s, i);
      UpdateThenDrop(s, i);
      MoveLastIn(a, x, m, y);
      CancelOne(multiset(s), multiset(a + [y] + m), x);
    } else {
      assert s == s[..last] + [s[last]];
    }
  }

  lemma SplitAround<T>(s: seq<T>, i: nat)
    requires i < |s| - 1
    ensures s == s[..i] + [s[i]] + s[i + 1..|s| - 1] + [s[|s| - 1]]
  {
  }

  lemma UpdateThenDrop<T>(s: seq<T>, i: nat)
    requires i < |s| - 1
    ensures s[i := s[|s| - 1]][..|s| - 1] == s[..i] + [s[|s| - 1]] + s[i + 1..|s| - 1]
  {
  }

  lemma MoveLastIn<T>(a: seq<T>, x: T, m: seq<T>, y: T)
    ensures multiset(a + [x] + m + [y]) == multiset(a + [y] + m) + multiset{x}
  {
  }

  lemma CancelOne<T>(whole: multiset<T>, rest: multiset<T>, x: T)
    requires whole == rest + multiset{x}
    ensures whole - multiset{x} == rest
  {
  }

  /** The directions `isSafe` accepts around `c`, tested in the order R L U D F B A K (the source's eight `if`s). */
  method SafeDirections(grid: array4<Cell>, size: int, c: Pos) returns (safe: seq<Dir>)
    requires size > 0 && Fits(grid, size) && InRange(c, size)
    ensures forall d: Dir :: d in safe <==> IsSafe(grid, size, Move(c, d, size))
  {
    safe := [];
    for k := 0 to |Order|
      invariant forall d: Dir :: d in safe <==> d in Order[..k] && IsSafe(grid, size, Move(c, d, size))
    {
      assert Order[..k + 1] == Order[..k] + [Order[k]];
      if IsSafe(grid, size, Move(c, Order[k], size)) {
        safe := safe + [Order[k]];
      }
    }
    AllDirsInOrder();
    assert Order[..|Order|] == Order;
  }

  /** The grid before carving: every cell a wall, except the start, open with id 0. */
  method InitialGrid(start: Pos, size: int) returns (grid: array4<Cell>)
    requires size > 0 && InRange(start, size)
    ensures fresh(grid) && Fits(grid, size)
    ensures Carved(grid, size, {start}, 1) && At(grid, start) == Cell(0, 0)
  {
    grid := new Cell[size, size, size, size]((w, z, y, x) => Wall);
    grid[start.w, start.z, start.y, start.x] := Cell(0, 0);
  }

  /** Carving `n`: it becomes `{val: 0, id: nextId}`; no other cell changes. */
  method OpenCell(grid: array4<Cell>, size: int, ghost open: set<Pos>, nextId: int, n: Pos)
    requires Fits(grid, size) && Carved(grid, size, open, nextId)
    requires InRange(n, size) && n !in open
    modifies grid
    ensures Carved(grid, size, open + {n}, nextId + 1)
    ensures At(grid, n) == Cell(0, nextId)
    ensures forall p {:trigger At(grid, p)} | InRange(p, size) && p != n :: At(grid, p) == old(At(grid, p))
  {
    grid[n.w, n.z, n.y, n.x] := Cell(0, nextId);
    forall p | InRange(p, size)
      ensures At(grid, p) == if p == n then Cell(0, nextId) else old(At(grid, p))
    {
    }
  }

  /** Opening a wall leaves fewer walls. */
  lemma FewerWalls(all: set<Pos>, open: set<Pos>, n: Pos)
    requires n in all && n !in open
    ensures |all - (open + {n})| < |all - open|
  {
    assert (all - (open + {n})) + {n} == all - open;
  }

  /** The state `generate` keeps between rounds. */
  ghost predicate Growing(grid: array4<Cell>, size: int, start: Pos, cells: seq<Pos>, nextId: int,
                          open: set<Pos>, par: map<Pos, Pos>, depth: map<Pos, nat>)
    reads grid
  {
    && Fits(grid, size) && IsTree(open, size, start, par, depth) && Carved(grid, size, open, nextId)
    && At(grid, start) == Cell(0, 0)
    && (forall c | c in cells :: c in open)
    && (nextId >= 2 || (cells == [start] && open == {start}))
    && open <= AllCells(size)
  }

  /**
   * One round of the carving loop. Either the selected active cell is
   * swap-removed and nothing else changes, or one wall becomes open with the
   * next id and is appended to the active cells.
   */
  method Round(grid: array4<Cell>, size: int, start: Pos, cells: seq<Pos>, nextId: int,
               ghost open: set<Pos>, ghost par: map<Pos, Pos>, ghost depth: map<Pos, nat>)
    returns (cells': seq<Pos>, nextId': int, ghost open': set<Pos>, ghost par': map<Pos, Pos>, ghost depth': map<Pos, nat>,
             ghost i: nat, ghost n: Pos)
    requires Growing(grid, size, start, cells, nextId, open, par, depth) && |cells| > 0
    modifies grid
    ensures Growing(grid, size, start, cells', nextId', open', par', depth')
    ensures i < |cells|
    ensures open' == open ==>
              && nextId' == nextId && cells' == SwapRemove(cells, i)
              && forall q {:trigger At(grid, q)} | InRange(q, size) :: At(grid, q) == old(At(grid, q))
    ensures open' != open ==>
              && InRange(n, size) && Adjacent(cells[i], n, size)
              && n !in open && old(At(grid, n)) == Wall && At(grid, n) == Cell(0, nextId)
              && open' == open + {n} && cells' == cells + [n] && nextId' == nextId + 1
              && forall q {:trigger At(grid, q)} | InRange(q, size) && q != n :: At(grid, q) == old(At(grid, q))
    ensures |AllCells(size) - open'| < |AllCells(size) - open| || (open' == open && |cells'| < |cells|)
  {
    var highest := |cells| - 1;
    var index :| 0 <= index <= highest;
    i := index;
    var c := cells[index];
    assert c in open;
    var safe := SafeDirections(grid, size, c);
    if nextId < 2 {
      FirstStepSafe(grid, size, start);
      assert R in safe;
    }
    if |safe| == 0 {
      cells', nextId', open', par', depth', n := SwapRemove(cells, index), nextId, open, par, depth, c;
      DropKeepsGrowing(grid, size, start, cells, nextId, open, par, depth, index);
    } else {
      var k :| 0 <= k < |safe|;
      n := Move(c, safe[k], size);
      cells', nextId', open', par', depth' := Carve(grid, size, start, cells, nextId, open, par, depth, c, safe[k]);
      InAllCells(n, size);
      FewerWalls(AllCells(size), open, n);
    }
  }

  /** Dropping an active cell keeps the carving state. */
  lemma DropKeepsGrowing(grid: array4<Cell>, size: int, start: Pos, cells: seq<Pos>, nextId: int,
                         open: set<Pos>, par: map<Pos, Pos>, depth: map<Pos, nat>, index: nat)
    requires Growing(grid, size, start, cells, nextId, open, par, depth) && index < |cells| && nextId >= 2
    ensures Growing(grid, size, start, SwapRemove(cells, index), nextId, open, par, depth)
  {
    var r := SwapRemove(cells, index);
    forall q | q in r
      ensures q in open
    {
      assert q in multiset(r);
    }
  }

  /** Opening the safe neighbour of active cell `c` in direction `d`, and making it active. */
  method Carve(grid: array4<Cell>, size: int, start: Pos, cells: seq<Pos>, nextId: int,
               ghost open: set<Pos>, ghost par: map<Pos, Pos>, ghost depth: map<Pos, nat>, c: Pos, d: Dir)
    returns (cells': seq<Pos>, nextId': int, ghost open': set<Pos>, ghost par': map<Pos, Pos>, ghost depth': map<Pos, nat>)
    requires Growing(grid, size, start, cells, nextId, open, par, depth)
    requires c in open && IsSafe(grid, size, Move(c, d, size))
    modifies grid
    ensures Growing(grid, size, start, cells', nextId', open', par', depth')
    ensures var n := Move(c, d, size);
            && Adjacent(c, n, size) && n !in open && old(At(grid, n)) == Wall
            && open' == open + {n} && cells' == cells + [n] && nextId' == nextId + 1
            && At(grid, n) == Cell(0, nextId)
            && forall q {:trigger At(grid, q)} | InRange(q, size) && q != n :: At(grid, q) == old(At(grid, q))
  {
    var n := Move(c, d, size);
    SafeMeansLonelyWall(grid, size, open, nextId, c, d);
    MoveAdjacent(c, d, size);
    CarveKeepsTree(open, size, start, par, depth, c, n);
    InAllCells(n, size);
    OpenCell(grid, size, open, nextId, n);
    cells', nextId' := cells + [n], nextId + 1;
    open', par', depth' := open + {n}, par[n := c], depth[n := depth[c] + 1];
  }

  /**
   * `generate`: carve a perfect maze from `start`. Each round picks an
   * active cell (the newest or a random one: any of them), drops it when no
   * neighbour is safe, and otherwise opens one safe neighbour with the next
   * id and makes it active. The open cells stay a tree rooted at `start`.
   */
  method Generate(start: Pos, size: int)
    returns (grid: array4<Cell>, nextId: int, ghost open: set<Pos>, ghost par: map<Pos, Pos>, ghost depth: map<Pos, nat>)
    requires size >= 3 && InRange(start, size)
    ensures fresh(grid) && Fits(grid, size)
    ensures IsTree(open, size, start, par, depth) && Carved(grid, size, open, nextId)
    ensures At(grid, start) == Cell(0, 0) && nextId >= 2
  {
    grid := InitialGrid(start, size);
    var cells := [start];
    nextId := 1;
    open, par, depth := {start}, map[], map[start := 0];
    SingletonTree(start, size);
    InAllCells(start, size);
    while |cells| > 0
      invariant Growing(grid, size, start, cells, nextId, open, par, depth)
      decreases |AllCells(size) - open|, |cells|
    {
      ghost var chosen, newCell;
      cells, nextId, open, par, depth, chosen, newCell := Round(grid, size, start, cells, nextId, open, par, depth);
    }
  }

  // ---------------------------------------------------------------------------
  // distances

  /** A frontier entry of `distances`: a position and the cell stored there. */
  datatype Entry = Entry(pos: Pos, data: Cell)

  /** The order in which `nexts` looks around a cell: w+1, w-1, z+1, z-1, y+1, y-1, x+1, x-1. */
  const NextsOrder: seq<Dir> := [A, K, F, B, U, D, R, L]

  lemma AllDirsInNextsOrder()
    ensures forall d: Dir :: d in NextsOrder
  {
    forall d: Dir
      ensures d in NextsOrder
    {
      match d
      case A => assert NextsOrder[0] == d;
      case K => assert NextsOrder[1] == d;
      case F => assert NextsOrder[2] == d;
      case B => assert NextsOrder[3] == d;
      case U => assert NextsOrder[4] == d;
      case D => assert NextsOrder[5] == d;
      case R => assert NextsOrder[6] == d;
      case L => assert NextsOrder[7] == d;
    }
  }

  /**
   * `dists[id] === -1` on an Int32Array: an index outside the array (a
   * wall's id -1) reads `undefined`, which is not -1.
   */
  predicate Unset(vals: seq<int>, id: int)
  {
    0 <= id < |vals| && vals[id] == -1
  }

  /** `nexts`: the neighbours along `dirs`, in order, whose distance is still unset. */
  function Nexts(grid: array4<Cell>, size: int, vals: seq<int>, p: Pos, dirs: seq<Dir>): (r: seq<Entry>)
    requires size > 0 && Fits(grid, size) && InRange(p, size)
    reads grid
    ensures forall e {:trigger e in r} | e in r ::
              InRange(e.pos, size) && e.data == At(grid, e.pos) && Unset(vals, e.data.id) && Adjacent(p, e.pos, size)
  {
    if dirs == [] then []
    else
      var q := Move(p, dirs[|dirs| - 1], size);
      MoveAdjacent(p, dirs[|dirs| - 1], size);
      Nexts(grid, size, vals, p, dirs[..|dirs| - 1]) + (if Unset(vals, At(grid, q).id) then [Entry(q, At(grid, q))] else [])
  }

  /** Every unset neighbour along `dirs` is among `nexts`'s results. */
  lemma {:induction false} NextsComplete(grid: array4<Cell>, size: int, vals: seq<int>, p: Pos, dirs: seq<Dir>, d: Dir)
    requires size > 0 && Fits(grid, size) && InRange(p, size)
    requires d in dirs && Unset(vals, At(grid, Move(p, d, size)).id)
    ensures Entry(Move(p, d, size), At(grid, Move(p, d, size))) in Nexts(grid, size, vals, p, dirs)
  {
    if dirs[|dirs| - 1] != d {
      assert d in dirs[..|dirs| - 1];
      NextsComplete(grid, size, vals, p, dirs[..|dirs| - 1], d);
    }
  }

  /** Open cells have distinct ids in `[0, nodes)`; every other cell has id -1. */
  ghost predicate Numbered(grid: array4<Cell>, size: int, open: set<Pos>, nodes: int)
    requires Fits(grid, size)
    reads grid
  {
    && (forall p {:trigger At(grid, p)} | InRange(p, size) :: if p in open then 0 <= At(grid, p).id < nodes else At(grid, p).id == -1)
    && (forall p, q {:trigger SameId(grid, size, p, q)} | InRange(p, size) && InRange(q, size) && p in open && q in open && SameId(grid, size, p, q) :: p == q)
  }

  /** Two cells carry the same id. */
  ghost predicate SameId(grid: array4<Cell>, size: int, p: Pos, q: Pos)
    requires Fits(grid, size) && InRange(p, size) && InRange(q, size)
    reads grid
  {
    At(grid, p).id == At(grid, q).id
  }

  /** The carved grid as `distances` sees it: a spanning tree of the open cells, numbered. */
  ghost predicate Board(grid: array4<Cell>, size: int, open: set<Pos>, root: Pos, par: map<Pos, Pos>, depth: map<Pos, nat>, nodes: int)
    reads grid
  {
    Fits(grid, size) && IsTree(open, size, root, par, depth) && Numbered(grid, size, open, nodes)
  }

  lemma CarvedIsNumbered(grid: array4<Cell>, size: int, open: set<Pos>, nodes: int)
    requires Fits(grid, size) && Carved(grid, size, open, nodes)
    ensures Numbered(grid, size, open, nodes)
  {
  }

  /** Whether `n` is even, by counting down, so that the solver never meets `%`. */
  ghost function Even(n: nat): bool
  {
    if n == 0 then true else !Even(n - 1)
  }

  /** Which side of the tree's two-colouring `p` lies on. */
  ghost function Side(depth: map<Pos, nat>, p: Pos): bool
  {
    if p in depth then Even(depth[p]) else true
  }

  /** A distance `v` from `start` to `p` has the parity of the path between them in the tree. */
  ghost predicate Aligned(depth: map<Pos, nat>, start: Pos, p: Pos, v: nat)
  {
    Even(v) == (Side(depth, start) == Side(depth, p))
  }

  /** Written entries hold a distance of the right parity no larger than `bound`; the rest hold -1. */
  ghost predicate Recorded(grid: array4<Cell>, size: int, open: set<Pos>, depth: map<Pos, nat>, start: Pos,
                           vals: seq<int>, written: set<Pos>, bound: int)
    requires Fits(grid, size)
    reads grid
  {
    && written <= open
    && (forall p {:trigger At(grid, p)} | InRange(p, size) && p in open ::
          && 0 <= At(grid, p).id < |vals|
          && if p in written
             then 0 <= vals[At(grid, p).id] <= bound && Aligned(depth, start, p, vals[At(grid, p).id])
             else vals[At(grid, p).id] == -1)
  }

  /** `q` has a written neighbour at distance `v - 1`. */
  ghost predicate HasPred(grid: array4<Cell>, size: int, vals: seq<int>, written: set<Pos>, q: Pos, v: int)
    requires size > 0 && Fits(grid, size)
    reads grid
  {
    exists dir: Dir ::
      var n := Move(q, dir, size);
      n in written && InRange(n, size) && 0 <= At(grid, n).id < |vals| && vals[At(grid, n).id] == v - 1
  }

  /** Every written distance above zero is one more than a written neighbour's. */
  ghost predicate Descending(grid: array4<Cell>, size: int, vals: seq<int>, written: set<Pos>)
    requires size > 0 && Fits(grid, size)
    reads grid
  {
    forall p {:trigger HasPred(grid, size, vals, written, p, vals[At(grid, p).id])}
      | p in written && InRange(p, size) && 0 <= At(grid, p).id < |vals| && vals[At(grid, p).id] > 0 ::
      HasPred(grid, size, vals, written, p, vals[At(grid, p).id])
  }

  ghost function Positions(level: seq<Entry>): set<Pos>
  {
    set e | e in level :: e.pos
  }

  /** The frontier at distance `d`: open cells of the right parity, each next to a cell at `d - 1`. */
  ghost predicate Frontier(grid: array4<Cell>, size: int, open: set<Pos>, depth: map<Pos, nat>, start: Pos,
                           vals: seq<int>, written: set<Pos>, level: seq<Entry>, d: nat)
    requires size > 0 && Fits(grid, size)
    reads grid
  {
    forall e {:trigger e in level} | e in level ::
      && InRange(e.pos, size) && e.pos in open && e.pos !in written && e.data == At(grid, e.pos)
      && Aligned(depth, start, e.pos, d)
      && (d > 0 ==> HasPred(grid, size, vals, written, e.pos, d))
  }

  /** The state at the top of `distances`' loop, before level `d` is written. */
  ghost predicate Searching(grid: array4<Cell>, size: int, open: set<Pos>, root: Pos, par: map<Pos, Pos>, depth: map<Pos, nat>,
                            start: Pos, vals: seq<int>, written: set<Pos>, level: seq<Entry>, d: nat)
    reads grid
  {
    && Fits(grid, size) && IsTree(open, size, root, par, depth) && Numbered(grid, size, open, |vals|) && start in open
    && Recorded(grid, size, open, depth, start, vals, written, d - 1)
    && Descending(grid, size, vals, written)
    && Frontier(grid, size, open, depth, start, vals, written, level, d)
    && (d == 0 ==> written == {} && level == [Entry(start, At(grid, start))])
    && (d > 0 ==> start in written && vals[At(grid, start).id] == 0)
  }

  /**
   * Writing distance `d` for the frontier cell `level[i]`, then pushing its
   * unset neighbours, keeps the pass's invariant.
   */
  lemma VisitKeeps(grid: array4<Cell>, size: int, open: set<Pos>, root: Pos, par: map<Pos, Pos>, depth: map<Pos, nat>,
                   start: Pos, vals: seq<int>, vals': seq<int>, written0: set<Pos>, written: set<Pos>,
                   level: seq<Entry>, i: nat, nlevel: seq<Entry>, kids: seq<Entry>, d: nat)
    requires Board(grid, size, open, root, par, depth, |vals|)
    requires i < |level|
    requires Frontier(grid, size, open, depth, start, vals, written0, level, d)
    requires Passing(grid, size, open, depth, start, vals, written0, written, level, i, nlevel, d)
    requires InRange(level[i].pos, size) && level[i].pos in open
    requires vals' == vals[At(grid, level[i].pos).id := d]
    requires kids == Nexts(grid, size, vals', level[i].pos, NextsOrder)
    ensures Passing(grid, size, open, depth, start, vals', written0, written + {level[i].pos}, level, i + 1, nlevel + kids, d)
  {
    var q := level[i].pos;
    VisitedCell(grid, size, open, root, par, depth, start, vals, written0, written, level, i, nlevel, d);
    VisitWrites(grid, size, open, depth, start, vals, vals', written0, written, q, d);
    WriteKeepsFrontier(grid, size, open, depth, start, vals, vals', written, q, nlevel, d);
    VisitedHoldD(grid, size, vals, vals', written0, q, level, i, d);
    VisitPushes(grid, size, open, root, par, depth, start, vals', written, q, level, i, nlevel, kids, d);
  }

  /**
   * The cell `q` about to be written with `d`: open, of the right parity,
   * next to a cell written at `d - 1` in an earlier pass, and holding `d`
   * already if it was written in this one.
   */
  ghost predicate Ready(grid: array4<Cell>, size: int, open: set<Pos>, depth: map<Pos, nat>, start: Pos,
                        vals: seq<int>, written0: set<Pos>, written: set<Pos>, q: Pos, d: nat)
    reads grid
  {
    && size > 0 && Fits(grid, size) && InRange(q, size) && q in open && q !in written0 && written0 <= written
    && Aligned(depth, start, q, d)
    && (d > 0 ==> HasPred(grid, size, vals, written0, q, d))
    && (q in written ==> 0 <= At(grid, q).id < |vals| && vals[At(grid, q).id] == d)
  }

  /** The cell `level[i]` is ready to be written. */
  lemma VisitedCell(grid: array4<Cell>, size: int, open: set<Pos>, root: Pos, par: map<Pos, Pos>, depth: map<Pos, nat>,
                    start: Pos, vals: seq<int>, written0: set<Pos>, written: set<Pos>,
                    level: seq<Entry>, i: nat, nlevel: seq<Entry>, d: nat)
    requires Board(grid, size, open, root, par, depth, |vals|)
    requires i < |level|
    requires Frontier(grid, size, open, depth, start, vals, written0, level, d)
    requires Passing(grid, size, open, depth, start, vals, written0, written, level, i, nlevel, d)
    ensures Ready(grid, size, open, depth, start, vals, written0, written, level[i].pos, d)
  {
    var q := level[i].pos;
    FrontierAt(grid, size, open, depth, start, vals, written0, level, i, d);
    if q in written {
      var e :| e in level[..i] && e.pos == q;
    }
  }

  /** Writing `d` for a ready `q` keeps the written cells recorded and each one's predecessor. */
  lemma VisitWrites(grid: array4<Cell>, size: int, open: set<Pos>, depth: map<Pos, nat>,
                    start: Pos, vals: seq<int>, vals': seq<int>, written0: set<Pos>, written: set<Pos>, q: Pos, d: nat)
    requires Fits(grid, size) && Numbered(grid, size, open, |vals|)
    requires Ready(grid, size, open, depth, start, vals, written0, written, q, d)
    requires Recorded(grid, size, open, depth, start, vals, written, d)
    requires Descending(grid, size, vals, written)
    requires vals' == vals[At(grid, q).id := d]
    ensures Recorded(grid, size, open, depth, start, vals', written + {q}, d)
    ensures Descending(grid, size, vals', written + {q})
  {
    WriteKeepsRecorded(grid, size, open, depth, start, vals, vals', written, q, d);
    WriteKeepsDescending(grid, size, open, vals, vals', written0, written, q, d);
  }

  /** Pushing the unset neighbours of the just-written `q` keeps the next frontier. */
  lemma VisitPushes(grid: array4<Cell>, size: int, open: set<Pos>, root: Pos, par: map<Pos, Pos>, depth: map<Pos, nat>,
                    start: Pos, vals: seq<int>, written: set<Pos>, q: Pos,
                    level: seq<Entry>, i: nat, nlevel: seq<Entry>, kids: seq<Entry>, d: nat)
    requires Board(grid, size, open, root, par, depth, |vals|)
    requires i < |level| && q == level[i].pos && InRange(q, size) && q in open && Aligned(depth, start, q, d)
    requires vals[At(grid, q).id] == d
    requires Recorded(grid, size, open, depth, start, vals, written + {q}, d)
    requires Frontier(grid, size, open, depth, start, vals, written + {q}, nlevel, d + 1)
    requires kids == Nexts(grid, size, vals, q, NextsOrder)
    ensures Frontier(grid, size, open, depth, start, vals, written + {q}, nlevel + kids, d + 1)
  {
    KidsFrontier(grid, size, open, root, par, depth, start, vals, written + {q}, q, kids, d);
    FrontierJoin(grid, size, open, depth, start, vals, written + {q}, nlevel, kids, d + 1);
  }

  /** The facts `Frontier` keeps about its `k`-th entry. */
  lemma FrontierAt(grid: array4<Cell>, size: int, open: set<Pos>, depth: map<Pos, nat>, start: Pos,
                   vals: seq<int>, written: set<Pos>, level: seq<Entry>, k: nat, d: nat)
    requires size > 0 && Fits(grid, size) && k < |level|
    requires Frontier(grid, size, open, depth, start, vals, written, level, d)
    ensures InRange(level[k].pos, size) && level[k].pos in open && level[k].pos !in written && level[k].data == At(grid, level[k].pos)
    ensures Aligned(depth, start, level[k].pos, d)
    ensures d > 0 ==> HasPred(grid, size, vals, written, level[k].pos, d)
  {
    assert level[k] in level;
  }

  /** Cells whose distances differ by one have different parities, so they differ. */
  lemma ParityDiffers(depth: map<Pos, nat>, start: Pos, a: Pos, b: Pos, d: nat)
    requires Aligned(depth, start, a, d + 1)
    requires Aligned(depth, start, b, d)
    ensures a != b
  {
  }

  /** The cells visited so far in the pass all hold `d`, `level[i]` included. */
  lemma VisitedHoldD(grid: array4<Cell>, size: int, vals: seq<int>, vals': seq<int>, written0: set<Pos>, q: Pos,
                     level: seq<Entry>, i: nat, d: nat)
    requires Fits(grid, size) && i < |level| && q == level[i].pos && InRange(q, size) && 0 <= At(grid, q).id < |vals|
    requires forall e | e in level[..i] && InRange(e.pos, size) && 0 <= At(grid, e.pos).id < |vals| :: vals[At(grid, e.pos).id] == d
    requires vals' == vals[At(grid, q).id := d]
    ensures written0 + Positions(level[..i]) + {q} == written0 + Positions(level[..i + 1])
    ensures forall e | e in level[..i + 1] && InRange(e.pos, size) && 0 <= At(grid, e.pos).id < |vals'| :: vals'[At(grid, e.pos).id] == d
  {
    assert level[..i + 1] == level[..i] + [level[i]];
    forall e | e in level[..i + 1] && InRange(e.pos, size) && 0 <= At(grid, e.pos).id < |vals'|
      ensures vals'[At(grid, e.pos).id] == d
    {
      if e != level[i] {
        assert e in level[..i];
      }
    }
  }

  /** Writing `d` at an open cell `q` of the right parity keeps every other entry, and records `q`. */
  lemma WriteKeepsRecorded(grid: array4<Cell>, size: int, open: set<Pos>, depth: map<Pos, nat>, start: Pos,
                           vals: seq<int>, vals': seq<int>, written: set<Pos>, q: Pos, d: nat)
    requires Fits(grid, size) && Numbered(grid, size, open, |vals|) && InRange(q, size) && q in open
    requires Aligned(depth, start, q, d)
    requires Recorded(grid, size, open, depth, start, vals, written, d)
    requires vals' == vals[At(grid, q).id := d]
    ensures Recorded(grid, size, open, depth, start, vals', written + {q}, d)
  {
    forall p | InRange(p, size) && p in open && p != q
      ensures vals'[At(grid, p).id] == vals[At(grid, p).id]
    {
      assert !SameId(grid, size, p, q);
    }
  }

  /** Writing `d` at a cell `q` with a predecessor at `d - 1` keeps every written cell's predecessor. */
  lemma WriteKeepsDescending(grid: array4<Cell>, size: int, open: set<Pos>,
                             vals: seq<int>, vals': seq<int>, written0: set<Pos>, written: set<Pos>, q: Pos, d: nat)
    requires size > 0 && Fits(grid, size) && Numbered(grid, size, open, |vals|) && InRange(q, size) && q in open
    requires written0 <= written <= open
    requires d > 0 ==> HasPred(grid, size, vals, written0, q, d)
    requires q in written ==> vals[At(grid, q).id] == d
    requires Descending(grid, size, vals, written)
    requires vals' == vals[At(grid, q).id := d]
    ensures Descending(grid, size, vals', written + {q})
  {
    var written' := written + {q};
    forall p | p in written' && InRange(p, size) && 0 <= At(grid, p).id < |vals'| && vals'[At(grid, p).id] > 0
      ensures HasPred(grid, size, vals', written', p, vals'[At(grid, p).id])
    {
      if p == q {
        PredWider(grid, size, vals, written0, written, q, d);
        PredAfterWrite(grid, size, open, vals, vals', written, q, q, d, d);
      } else {
        assert !SameId(grid, size, p, q);
        PredAfterWrite(grid, size, open, vals, vals', written, q, p, vals[At(grid, p).id], d);
      }
    }
  }

  /** A predecessor among fewer written cells is one among more. */
  lemma PredWider(grid: array4<Cell>, size: int, vals: seq<int>, written0: set<Pos>, written: set<Pos>, p: Pos, v: int)
    requires size > 0 && Fits(grid, size) && written0 <= written
    requires HasPred(grid, size, vals, written0, p, v)
    ensures HasPred(grid, size, vals, written, p, v)
  {
    var dir: Dir :| var n := Move(p, dir, size);
      n in written0 && InRange(n, size) && 0 <= At(grid, n).id < |vals| && vals[At(grid, n).id] == v - 1;
    assert Move(p, dir, size) in written;
  }

  /**
   * Writing `d` at `q` keeps `p`'s predecessor at `v - 1`: either the
   * predecessor is another cell, whose entry does not change, or it is `q`,
   * which already held `d`, or `d` is the predecessor's distance anyway.
   */
  lemma PredAfterWrite(grid: array4<Cell>, size: int, open: set<Pos>, vals: seq<int>, vals': seq<int>,
                       written: set<Pos>, q: Pos, p: Pos, v: int, d: nat)
    requires size > 0 && Fits(grid, size) && Numbered(grid, size, open, |vals|) && written <= open
    requires InRange(q, size) && q in open
    requires HasPred(grid, size, vals, written, p, v)
    requires v == d + 1 || (q in written ==> vals[At(grid, q).id] == d)
    requires vals' == vals[At(grid, q).id := d]
    ensures HasPred(grid, size, vals', written + {q}, p, v)
  {
    var dir: Dir :| var n := Move(p, dir, size);
      n in written && InRange(n, size) && 0 <= At(grid, n).id < |vals| && vals[At(grid, n).id] == v - 1;
    var n := Move(p, dir, size);
    if n != q {
      assert !SameId(grid, size, n, q);
    }
    assert vals'[At(grid, n).id] == v - 1;
  }

  /** Writing `d` at a cell `q` of the current level keeps the next frontier's predecessors. */
  lemma WriteKeepsFrontier(grid: array4<Cell>, size: int, open: set<Pos>, depth: map<Pos, nat>, start: Pos,
                           vals: seq<int>, vals': seq<int>, written: set<Pos>, q: Pos, nlevel: seq<Entry>, d: nat)
    requires size > 0 && Fits(grid, size) && Numbered(grid, size, open, |vals|) && InRange(q, size) && q in open
    requires written <= open
    requires Aligned(depth, start, q, d)
    requires Frontier(grid, size, open, depth, start, vals, written, nlevel, d + 1)
    requires vals' == vals[At(grid, q).id := d]
    ensures Frontier(grid, size, open, depth, start, vals', written + {q}, nlevel, d + 1)
  {
    forall e | e in nlevel
      ensures e.pos != q
      ensures HasPred(grid, size, vals', written + {q}, e.pos, d + 1)
    {
      var k :| 0 <= k < |nlevel| && nlevel[k] == e;
      FrontierAt(grid, size, open, depth, start, vals, written, nlevel, k, d + 1);
      ParityDiffers(depth, start, e.pos, q, d);
      PredAfterWrite(grid, size, open, vals, vals', written, q, e.pos, d + 1, d);
    }
  }

  /** Two frontiers at the same distance join into one. */
  lemma FrontierJoin(grid: array4<Cell>, size: int, open: set<Pos>, depth: map<Pos, nat>, start: Pos,
                     vals: seq<int>, written: set<Pos>, a: seq<Entry>, b: seq<Entry>, d: nat)
    requires size > 0 && Fits(grid, size)
    requires Frontier(grid, size, open, depth, start, vals, written, a, d)
    requires Frontier(grid, size, open, depth, start, vals, written, b, d)
    ensures Frontier(grid, size, open, depth, start, vals, written, a + b, d)
  {
  }

  /** The neighbours pushed for `q`: open, unwritten, one parity further, next to `q` at distance `d`. */
  lemma KidsFrontier(grid: array4<Cell>, size: int, open: set<Pos>, root: Pos, par: map<Pos, Pos>, depth: map<Pos, nat>,
                     start: Pos, vals: seq<int>, written: set<Pos>, q: Pos, kids: seq<Entry>, d: nat)
    requires Board(grid, size, open, root, par, depth, |vals|)
    requires q in open && q in written && InRange(q, size) && vals[At(grid, q).id] == d
    requires Aligned(depth, start, q, d)
    requires Recorded(grid, size, open, depth, start, vals, written, d)
    requires forall e | e in kids :: InRange(e.pos, size) && e.data == At(grid, e.pos) && Unset(vals, e.data.id) && Adjacent(q, e.pos, size)
    ensures Frontier(grid, size, open, depth, start, vals, written, kids, d + 1)
  {
    forall e | e in kids
      ensures e.pos in open && e.pos !in written
      ensures Aligned(depth, start, e.pos, d + 1)
      ensures HasPred(grid, size, vals, written, e.pos, d + 1)
    {
      var n := e.pos;
      assert n in open;
      AdjacentDepths(open, size, root, par, depth, q, n);
      ParityFlip(depth, start, q, n, d);
      AdjacentSymmetric(q, n, size);
      var back := DirectionTo(n, q, size);
      assert Move(n, back, size) == q;
    }
  }

  /** Moving one step along the tree flips the depth's parity. */
  lemma ParityFlip(depth: map<Pos, nat>, start: Pos, q: Pos, n: Pos, d: nat)
    requires q in depth && n in depth && (depth[n] == depth[q] + 1 || depth[q] == depth[n] + 1)
    requires Aligned(depth, start, q, d)
    ensures Aligned(depth, start, n, d + 1)
  {
  }

  /** The invariant of one pass of `distances` over a level, after `i` entries. */
  ghost predicate Passing(grid: array4<Cell>, size: int, open: set<Pos>, depth: map<Pos, nat>, start: Pos,
                          vals: seq<int>, written0: set<Pos>, written: set<Pos>, level: seq<Entry>, i: nat,
                          nlevel: seq<Entry>, d: nat)
    requires size > 0 && Fits(grid, size)
    reads grid
  {
    && i <= |level|
    && written == written0 + Positions(level[..i])
    && (forall e | e in level[..i] && InRange(e.pos, size) && 0 <= At(grid, e.pos).id < |vals| :: vals[At(grid, e.pos).id] == d)
    && Recorded(grid, size, open, depth, start, vals, written, d)
    && Descending(grid, size, vals, written)
    && Frontier(grid, size, open, depth, start, vals, written, nlevel, d + 1)
  }

  /**
   * The state inside a pass, before its `i`-th entry: the search state the
   * pass started from, plus what the first `i` entries have done.
   */
  ghost predicate Visiting(grid: array4<Cell>, size: int, open: set<Pos>, root: Pos, par: map<Pos, Pos>, depth: map<Pos, nat>,
                           start: Pos, vals: seq<int>, written0: set<Pos>, written: set<Pos>, level: seq<Entry>, i: nat,
                           nlevel: seq<Entry>, d: nat)
    reads grid
  {
    && Board(grid, size, open, root, par, depth, |vals|) && start in open
    && Passing(grid, size, open, depth, start, vals, written0, written, level, i, nlevel, d)
    && Frontier(grid, size, open, depth, start, vals, written0, level, d)
    && (d == 0 ==> written0 == {} && level == [Entry(start, At(grid, start))])
    && (d > 0 ==> start in written0 && vals[At(grid, start).id] == 0)
  }

  /** Before the first entry of a pass: nothing of the level is written yet and the next level is empty. */
  lemma PassStarts(grid: array4<Cell>, size: int, open: set<Pos>, root: Pos, par: map<Pos, Pos>, depth: map<Pos, nat>,
                   start: Pos, vals: seq<int>, written: set<Pos>, level: seq<Entry>, d: nat)
    requires Searching(grid, size, open, root, par, depth, start, vals, written, level, d) == true
    ensures Visiting(grid, size, open, root, par, depth, start, vals, written, written, level, 0, [], d) == true
  {
    assert level[..0] == [];
    assert Positions([]) == {};
  }

  /** The entry about to be visited is an open cell whose id indexes the distances. */
  lemma VisitTarget(grid: array4<Cell>, size: int, open: set<Pos>, root: Pos, par: map<Pos, Pos>, depth: map<Pos, nat>,
                    start: Pos, vals: seq<int>, written0: set<Pos>, written: set<Pos>, level: seq<Entry>, i: nat,
                    nlevel: seq<Entry>, d: nat)
    requires Visiting(grid, size, open, root, par, depth, start, vals, written0, written, level, i, nlevel, d) == true
    requires i < |level|
    ensures size > 0 && Fits(grid, size) && InRange(level[i].pos, size) && level[i].pos in open
    ensures level[i].data == At(grid, level[i].pos) && 0 <= level[i].data.id < |vals|
  {
    FrontierAt(grid, size, open, depth, start, vals, written0, level, i, d);
  }

  /** Visiting the `i`-th entry (write `d`, push its unset neighbours) moves the pass one entry on. */
  lemma VisitStep(grid: array4<Cell>, size: int, open: set<Pos>, root: Pos, par: map<Pos, Pos>, depth: map<Pos, nat>,
                  start: Pos, vals: seq<int>, vals': seq<int>, written0: set<Pos>, written: set<Pos>,
                  level: seq<Entry>, i: nat, nlevel: seq<Entry>, kids: seq<Entry>, d: nat)
    requires Visiting(grid, size, open, root, par, depth, start, vals, written0, written, level, i, nlevel, d) == true
    requires i < |level|
    requires InRange(level[i].pos, size) && 0 <= At(grid, level[i].pos).id < |vals|
    requires vals' == vals[At(grid, level[i].pos).id := d]
    requires kids == Nexts(grid, size, vals', level[i].pos, NextsOrder)
    ensures Visiting(grid, size, open, root, par, depth, start, vals', written0, written + {level[i].pos},
                     level, i + 1, nlevel + kids, d) == true
  {
    var q := level[i].pos;
    FrontierAt(grid, size, open, depth, start, vals, written0, level, i, d);
    VisitKeeps(grid, size, open, root, par, depth, start, vals, vals', written0, written, level, i, nlevel, kids, d);
    LevelKeepsFrontier(grid, size, open, depth, start, vals, vals', written0, q, level, d);
    if d > 0 {
      assert !SameId(grid, size, start, q);
    }
  }

  /**
   * One pass of `distances`' outer loop: write `d` for every cell of
   * `level`, in order, and collect the unset neighbours of each just after
   * writing it (so a later cell of the level can find its neighbour already
   * written). Walls never enter the next level: their id -1 reads nothing.
   */
  method ProcessLevel(grid: array4<Cell>, size: int, dists: array<int>, start: Pos, level: seq<Entry>, d: nat,
                      ghost open: set<Pos>, ghost root: Pos, ghost par: map<Pos, Pos>, ghost depth: map<Pos, nat>,
                      ghost written0: set<Pos>)
    returns (nlevel: seq<Entry>, ghost written: set<Pos>)
    requires Searching(grid, size, open, root, par, depth, start, dists[..], written0, level, d) == true
    requires Spreading(grid, size, open, start, dists[..], written0, level, d, [])
    requires level != []
    modifies dists
    ensures written == written0 + Positions(level)
    ensures Searching(grid, size, open, root, par, depth, start, dists[..], written, nlevel, d + 1) == true
    ensures Spreading(grid, size, open, start, dists[..], written, nlevel, d + 1, [])
    ensures |written0| < |written| <= |open|
  {
    nlevel := [];
    written := written0;
    PassStarts(grid, size, open, root, par, depth, start, dists[..], written0, level, d);
    for i := 0 to |level|
      invariant Visiting(grid, size, open, root, par, depth, start, dists[..], written0, written, level, i, nlevel, d) == true
      invariant Spreading(grid, size, open, start, dists[..], written, level, d, nlevel)
    {
      VisitTarget(grid, size, open, root, par, depth, start, dists[..], written0, written, level, i, nlevel, d);
      var cell := level[i];
      ghost var vals := dists[..];
      dists[cell.data.id] := d;
      var kids := Nexts(grid, size, dists[..], cell.pos, NextsOrder);
      VisitStep(grid, size, open, root, par, depth, start, vals, dists[..], written0, written, level, i, nlevel, kids, d);
      VisitSpreads(grid, size, open, root, par, depth, start, vals, dists[..], written0, written, level, i, nlevel, kids, d);
      nlevel := nlevel + kids;
      written := written + {cell.pos};
    }
    SearchSteps(grid, size, open, root, par, depth, start, dists[..], written0, written, level, nlevel, d);
    PassSpreads(grid, size, open, start, dists[..], written, level, nlevel, d);
  }

  /** Writing a cell outside `written` keeps the predecessors a frontier found in `written`. */
  lemma LevelKeepsFrontier(grid: array4<Cell>, size: int, open: set<Pos>, depth: map<Pos, nat>, start: Pos,
                           vals: seq<int>, vals': seq<int>, written: set<Pos>, q: Pos, level: seq<Entry>, d: nat)
    requires size > 0 && Fits(grid, size) && Numbered(grid, size, open, |vals|) && InRange(q, size) && q in open
    requires written <= open && q !in written
    requires Frontier(grid, size, open, depth, start, vals, written, level, d)
    requires vals' == vals[At(grid, q).id := d]
    ensures Frontier(grid, size, open, depth, start, vals', written, level, d)
  {
    forall e | e in level && d > 0
      ensures HasPred(grid, size, vals', written, e.pos, d)
    {
      var k :| 0 <= k < |level| && level[k] == e;
      FrontierAt(grid, size, open, depth, start, vals, written, level, k, d);
      PredElsewhere(grid, size, open, vals, vals', written, q, e.pos, d, d);
    }
  }

  /** A predecessor among cells other than `q` survives a write at `q`. */
  lemma PredElsewhere(grid: array4<Cell>, size: int, open: set<Pos>, vals: seq<int>, vals': seq<int>,
                      written: set<Pos>, q: Pos, p: Pos, v: int, d: nat)
    requires size > 0 && Fits(grid, size) && Numbered(grid, size, open, |vals|) && written <= open
    requires InRange(q, size) && q in open && q !in written
    requires HasPred(grid, size, vals, written, p, v)
    requires vals' == vals[At(grid, q).id := d]
    ensures HasPred(grid, size, vals', written, p, v)
  {
    var dir: Dir :| var n := Move(p, dir, size);
      n in written && InRange(n, size) && 0 <= At(grid, n).id < |vals| && vals[At(grid, n).id] == v - 1;
    var n := Move(p, dir, size);
    assert !SameId(grid, size, n, q);
    assert vals'[At(grid, n).id] == v - 1;
  }

  /** A pass writes at least the first cell of its level, which was unwritten. */
  lemma FewerUnwritten(open: set<Pos>, written: set<Pos>, level: seq<Entry>)
    requires level != [] && level[0].pos !in written && written + Positions(level) <= open
    ensures |written| < |written + Positions(level)| <= |open|
  {
    assert level[0] in level;
    assert level[0].pos in Positions(level);
    StrictSubsetSmaller(written, written + Positions(level));
    if written + Positions(level) < open {
      StrictSubsetSmaller(written + Positions(level), open);
    } else {
      assert written + Positions(level) == open;
    }
  }

  lemma {:induction false} StrictSubsetSmaller<T>(a: set<T>, b: set<T>)
    requires a < b
    ensures |a| < |b|
    decreases |a|
  {
    if a != {} {
      var x :| x in a;
      var y :| y in b && y !in a;
      assert y in b - {x} && y !in a - {x};
      StrictSubsetSmaller(a - {x}, b - {x});
    }
  }

  /** The entry `vals` holds for cell `p`: -1 when `p` is off the grid or its id indexes nothing. */
  ghost function Stored(grid: array4<Cell>, size: int, vals: seq<int>, p: Pos): int
    requires Fits(grid, size)
    reads grid
  {
    if InRange(p, size) && 0 <= At(grid, p).id < |vals| then vals[At(grid, p).id] else -1
  }

  /**
   * How far the search has spread: an open neighbour of a written cell is
   * written, or it is on `level` and the cell holds `d - 1`, or it is on
   * `nlevel` and the cell holds `d`.
   */
  ghost predicate Closed(grid: array4<Cell>, size: int, open: set<Pos>, vals: seq<int>, written: set<Pos>,
                         level: seq<Entry>, d: int, nlevel: seq<Entry>)
    requires size > 0 && Fits(grid, size)
    reads grid
  {
    forall p, dir: Dir | p in written && Move(p, dir, size) in open ::
      || Move(p, dir, size) in written
      || (Move(p, dir, size) in Positions(level) && Stored(grid, size, vals, p) == d - 1)
      || (Move(p, dir, size) in Positions(nlevel) && Stored(grid, size, vals, p) == d)
  }

  /** Written neighbours hold distances at most one apart. */
  ghost predicate Smooth(grid: array4<Cell>, size: int, vals: seq<int>, written: set<Pos>)
    requires size > 0 && Fits(grid, size)
    reads grid
  {
    forall p, dir: Dir | p in written && Move(p, dir, size) in written ::
      Stored(grid, size, vals, p) <= Stored(grid, size, vals, Move(p, dir, size)) + 1
  }

  /** Only `start` is written with 0. */
  ghost predicate ZeroOnlyAt(grid: array4<Cell>, size: int, vals: seq<int>, written: set<Pos>, start: Pos)
    requires Fits(grid, size)
    reads grid
  {
    forall p | p in written && Stored(grid, size, vals, p) == 0 :: p == start
  }

  /** What the search keeps besides `Searching`: how it spreads and how its counts sit. */
  ghost predicate Spreading(grid: array4<Cell>, size: int, open: set<Pos>, start: Pos, vals: seq<int>, written: set<Pos>,
                            level: seq<Entry>, d: int, nlevel: seq<Entry>)
    requires size > 0 && Fits(grid, size)
    reads grid
  {
    && Closed(grid, size, open, vals, written, level, d, nlevel)
    && Smooth(grid, size, vals, written)
    && ZeroOnlyAt(grid, size, vals, written, start)
  }

  /** Writing `d` at the open cell `q` changes `q`'s entry and no other open cell's. */
  lemma StoredAfterWrite(grid: array4<Cell>, size: int, open: set<Pos>, vals: seq<int>, vals': seq<int>, q: Pos, d: int, x: Pos)
    requires Fits(grid, size) && Numbered(grid, size, open, |vals|)
    requires InRange(q, size) && q in open && InRange(x, size) && x in open
    requires vals' == vals[At(grid, q).id := d]
    ensures Stored(grid, size, vals', x) == if x == q then d else Stored(grid, size, vals, x)
  {
    if x != q {
      assert !SameId(grid, size, x, q);
    }
  }

  /** The facts about the cell `q` being written that the spreading lemmas use. */
  ghost predicate Writing(grid: array4<Cell>, size: int, open: set<Pos>, depth: map<Pos, nat>, start: Pos,
                          vals: seq<int>, vals': seq<int>, written: set<Pos>, q: Pos, d: nat)
    reads grid
  {
    && size >= 3 && Fits(grid, size) && Numbered(grid, size, open, |vals|)
    && (forall p {:trigger p in open} | p in open :: InRange(p, size))
    && InRange(q, size) && q in open
    && Recorded(grid, size, open, depth, start, vals, written, d)
    && (q in written ==> Stored(grid, size, vals, q) == d)
    && (d == 0 ==> q == start)
    && vals' == vals[At(grid, q).id := d]
  }

  /** Writing `d` at `q` keeps 0 at `start` alone. */
  lemma WriteKeepsZero(grid: array4<Cell>, size: int, open: set<Pos>, depth: map<Pos, nat>, start: Pos,
                       vals: seq<int>, vals': seq<int>, written: set<Pos>, q: Pos, d: nat)
    requires Writing(grid, size, open, depth, start, vals, vals', written, q, d)
    requires ZeroOnlyAt(grid, size, vals, written, start)
    ensures ZeroOnlyAt(grid, size, vals', written + {q}, start)
  {
    forall p | p in written + {q} && Stored(grid, size, vals', p) == 0
      ensures p == start
    {
      StoredAfterWrite(grid, size, open, vals, vals', q, d, p);
    }
  }

  /**
   * Writing `d` at `q` keeps written neighbours at most one apart: a written
   * neighbour of a newly written `q` saw `q` unwritten, so it holds `d - 1`
   * or `d`; every other written cell holds at most `d`.
   */
  lemma WriteKeepsSmooth(grid: array4<Cell>, size: int, open: set<Pos>, depth: map<Pos, nat>, start: Pos,
                         vals: seq<int>, vals': seq<int>, written: set<Pos>, level: seq<Entry>, nlevel: seq<Entry>, q: Pos, d: nat)
    requires Writing(grid, size, open, depth, start, vals, vals', written, q, d)
    requires Closed(grid, size, open, vals, written, level, d, nlevel)
    requires Smooth(grid, size, vals, written)
    ensures Smooth(grid, size, vals', written + {q})
  {
    var written' := written + {q};
    forall p, dir: Dir | p in written' && Move(p, dir, size) in written'
      ensures Stored(grid, size, vals', p) <= Stored(grid, size, vals', Move(p, dir, size)) + 1
    {
      var n := Move(p, dir, size);
      StoredAfterWrite(grid, size, open, vals, vals', q, d, p);
      StoredAfterWrite(grid, size, open, vals, vals', q, d, n);
      if p == q && n != q && q !in written {
        MoveBack(q, dir, size);
        assert Move(n, Opp(dir), size) == q;
      }
    }
  }

  /**
   * Writing `d` at `q` and pushing its unset neighbours keeps the search
   * closed: those neighbours are now on the next level, next to a cell
   * holding `d`.
   */
  lemma WriteKeepsClosed(grid: array4<Cell>, size: int, open: set<Pos>, depth: map<Pos, nat>, start: Pos,
                         vals: seq<int>, vals': seq<int>, written: set<Pos>, level: seq<Entry>, nlevel: seq<Entry>,
                         kids: seq<Entry>, q: Pos, d: nat)
    requires Writing(grid, size, open, depth, start, vals, vals', written, q, d)
    requires Closed(grid, size, open, vals, written, level, d, nlevel)
    requires kids == Nexts(grid, size, vals', q, NextsOrder)
    ensures Closed(grid, size, open, vals', written + {q}, level, d, nlevel + kids)
  {
    var written' := written + {q};
    forall p, dir: Dir | p in written' && Move(p, dir, size) in open && Move(p, dir, size) !in written'
      ensures || (Move(p, dir, size) in Positions(level) && Stored(grid, size, vals', p) == d - 1)
              || (Move(p, dir, size) in Positions(nlevel + kids) && Stored(grid, size, vals', p) == d)
    {
      var n := Move(p, dir, size);
      StoredAfterWrite(grid, size, open, vals, vals', q, d, p);
      if p == q {
        StoredAfterWrite(grid, size, open, vals, vals', q, d, n);
        AllDirsInNextsOrder();
        NextsComplete(grid, size, vals', q, NextsOrder, dir);
        assert Entry(n, At(grid, n)) in nlevel + kids;
      } else if n in Positions(nlevel) {
        var e :| e in nlevel && e.pos == n;
        assert e in nlevel + kids;
      }
    }
  }

  /** Writing `d` at `q` and pushing its unset neighbours keeps the search spreading. */
  lemma WriteKeepsSpreading(grid: array4<Cell>, size: int, open: set<Pos>, depth: map<Pos, nat>, start: Pos,
                            vals: seq<int>, vals': seq<int>, written: set<Pos>, level: seq<Entry>, nlevel: seq<Entry>,
                            kids: seq<Entry>, q: Pos, d: nat)
    requires Writing(grid, size, open, depth, start, vals, vals', written, q, d)
    requires Spreading(grid, size, open, start, vals, written, level, d, nlevel)
    requires kids == Nexts(grid, size, vals', q, NextsOrder)
    ensures Spreading(grid, size, open, start, vals', written + {q}, level, d, nlevel + kids)
  {
    WriteKeepsZero(grid, size, open, depth, start, vals, vals', written, q, d);
    WriteKeepsSmooth(grid, size, open, depth, start, vals, vals', written, level, nlevel, q, d);
    WriteKeepsClosed(grid, size, open, depth, start, vals, vals', written, level, nlevel, kids, q, d);
  }

  /** Visiting the `i`-th entry of a pass keeps the search spreading. */
  lemma VisitSpreads(grid: array4<Cell>, size: int, open: set<Pos>, root: Pos, par: map<Pos, Pos>, depth: map<Pos, nat>,
                     start: Pos, vals: seq<int>, vals': seq<int>, written0: set<Pos>, written: set<Pos>,
                     level: seq<Entry>, i: nat, nlevel: seq<Entry>, kids: seq<Entry>, d: nat)
    requires Visiting(grid, size, open, root, par, depth, start, vals, written0, written, level, i, nlevel, d) == true
    requires i < |level|
    requires Spreading(grid, size, open, start, vals, written, level, d, nlevel)
    requires InRange(level[i].pos, size) && 0 <= At(grid, level[i].pos).id < |vals|
    requires vals' == vals[At(grid, level[i].pos).id := d]
    requires kids == Nexts(grid, size, vals', level[i].pos, NextsOrder)
    ensures Spreading(grid, size, open, start, vals', written + {level[i].pos}, level, d, nlevel + kids)
  {
    var q := level[i].pos;
    VisitedCell(grid, size, open, root, par, depth, start, vals, written0, written, level, i, nlevel, d);
    if d == 0 {
      assert level == [Entry(start, At(grid, start))];
    }
    assert Writing(grid, size, open, depth, start, vals, vals', written, q, d);
    WriteKeepsSpreading(grid, size, open, depth, start, vals, vals', written, level, nlevel, kids, q, d);
  }

  /** Once a pass has written its whole level, the next level is the frontier one distance further. */
  lemma PassSpreads(grid: array4<Cell>, size: int, open: set<Pos>, start: Pos, vals: seq<int>, written: set<Pos>,
                    level: seq<Entry>, nlevel: seq<Entry>, d: nat)
    requires size > 0 && Fits(grid, size) && Positions(level) <= written
    requires Spreading(grid, size, open, start, vals, written, level, d, nlevel)
    ensures Spreading(grid, size, open, start, vals, written, nlevel, d + 1, [])
  {
    assert Positions([]) == {};
  }

  /** A walk that starts among the cells of a search that has stopped spreading stays among them. */
  lemma {:induction false} ClosedKeepsWalk(grid: array4<Cell>, size: int, open: set<Pos>, vals: seq<int>, written: set<Pos>,
                                           d: int, path: seq<Pos>)
    requires size > 0 && Fits(grid, size) && Closed(grid, size, open, vals, written, [], d, [])
    requires IsChain(path, open, size) && path != [] && path[0] in written
    ensures path[|path| - 1] in written
    decreases |path|
  {
    if |path| > 1 {
      var dir := DirectionTo(path[0], path[1], size);
      assert Positions([]) == {};
      assert Move(path[0], dir, size) in written;
      assert IsChain(path[1..], open, size) by {
        forall i | 0 <= i < |path[1..]| - 1
          ensures Adjacent(path[1..][i], path[1..][i + 1], size)
        {
          assert path[1..][i] == path[i + 1] && path[1..][i + 1] == path[i + 2];
        }
      }
      ClosedKeepsWalk(grid, size, open, vals, written, d, path[1..]);
    }
  }

  /** A search that has stopped spreading from `start` has reached every cell of the tree. */
  lemma ClosedCoversTree(grid: array4<Cell>, size: int, open: set<Pos>, root: Pos, par: map<Pos, Pos>, depth: map<Pos, nat>,
                         vals: seq<int>, written: set<Pos>, start: Pos, d: int)
    requires Fits(grid, size) && IsTree(open, size, root, par, depth) && start in written && written <= open
    requires Closed(grid, size, open, vals, written, [], d, [])
    ensures written == open
  {
    forall p | p in open
      ensures p in written
    {
      var path := TreeConnected(open, size, root, par, depth, start, p);
      ClosedKeepsWalk(grid, size, open, vals, written, d, path);
    }
  }

  /**
   * What `distances` promises of its result: every open cell has a count,
   * 0 at `start` and nowhere else, every count above 0 sits next to an
   * open cell whose count is one less, and neighbours' counts differ by at
   * most one. `WalkToStart` and `NoShorterWalk` show that these are the
   * least numbers of hops from `start`.
   */
  ghost predicate HopCounts(grid: array4<Cell>, size: int, open: set<Pos>, start: Pos, vals: seq<int>)
    requires size > 0 && Fits(grid, size)
    reads grid
  {
    && InRange(start, size) && start in open && Stored(grid, size, vals, start) == 0
    && (forall p | p in open :: Stored(grid, size, vals, p) >= 0)
    && (forall p | p in open && Stored(grid, size, vals, p) == 0 :: p == start)
    && (forall p | p in open && Stored(grid, size, vals, p) > 0 :: HasNearer(grid, size, open, vals, p))
    && (forall p, dir: Dir | p in open && Move(p, dir, size) in open ::
          Stored(grid, size, vals, p) <= Stored(grid, size, vals, Move(p, dir, size)) + 1)
  }

  /** An open neighbour of `p` holds one less than `p`. */
  ghost predicate HasNearer(grid: array4<Cell>, size: int, open: set<Pos>, vals: seq<int>, p: Pos)
    requires size > 0 && Fits(grid, size)
    reads grid
  {
    exists dir: Dir :: Move(p, dir, size) in open && Stored(grid, size, vals, Move(p, dir, size)) == Stored(grid, size, vals, p) - 1
  }

  /** Following the counts down from `p` walks to `start` in exactly `p`'s count of hops. */
  ghost function WalkToStart(grid: array4<Cell>, size: int, open: set<Pos>, start: Pos, vals: seq<int>, p: Pos): (path: seq<Pos>)
    requires size > 0 && Fits(grid, size) && HopCounts(grid, size, open, start, vals) && p in open
    reads grid
    ensures |path| == Stored(grid, size, vals, p) + 1
    ensures path[0] == p && path[|path| - 1] == start
    ensures IsChain(path, open, size)
    decreases Stored(grid, size, vals, p)
  {
    if Stored(grid, size, vals, p) == 0 then [p]
    else
      assert HasNearer(grid, size, open, vals, p);
      var dir: Dir :| Move(p, dir, size) in open && Stored(grid, size, vals, Move(p, dir, size)) == Stored(grid, size, vals, p) - 1;
      var rest := WalkToStart(grid, size, open, start, vals, Move(p, dir, size));
      MoveAdjacent(p, dir, size);
      ChainCons(p, rest, open, size);
      [p] + rest
  }

  /** A walk extended by an adjacent open cell in front is a walk. */
  lemma ChainCons(p: Pos, rest: seq<Pos>, open: set<Pos>, size: int)
    requires size > 0 && p in open && IsChain(rest, open, size) && rest != [] && Adjacent(p, rest[0], size)
    ensures IsChain([p] + rest, open, size)
  {
    var c := [p] + rest;
    forall i | 0 <= i < |c| - 1
      ensures Adjacent(c[i], c[i + 1], size)
    {
      if i > 0 {
        assert c[i] == rest[i - 1] && c[i + 1] == rest[i];
      }
    }
  }

  /** No walk from a cell to `start` is shorter than the cell's count: the counts are least hop counts. */
  lemma {:induction false} NoShorterWalk(grid: array4<Cell>, size: int, open: set<Pos>, start: Pos, vals: seq<int>, path: seq<Pos>)
    requires size > 0 && Fits(grid, size) && HopCounts(grid, size, open, start, vals)
    requires IsChain(path, open, size) && path != [] && path[|path| - 1] == start
    ensures Stored(grid, size, vals, path[0]) <= |path| - 1
    decreases |path|
  {
    if |path| > 1 {
      assert IsChain(path[1..], open, size) by {
        forall i | 0 <= i < |path[1..]| - 1
          ensures Adjacent(path[1..][i], path[1..][i + 1], size)
        {
          assert path[1..][i] == path[i + 1] && path[1..][i + 1] == path[i + 2];
        }
      }
      NoShorterWalk(grid, size, open, start, vals, path[1..]);
      var dir := DirectionTo(path[0], path[1], size);
      assert Move(path[0], dir, size) == path[1..][0];
    }
  }

  /** The first level is the start alone, and nothing is written yet. */
  lemma SearchStarts(grid: array4<Cell>, size: int, open: set<Pos>, root: Pos, par: map<Pos, Pos>, depth: map<Pos, nat>,
                     start: Pos, vals: seq<int>)
    requires Board(grid, size, open, root, par, depth, |vals|) && start in open
    requires forall k | 0 <= k < |vals| :: vals[k] == -1
    ensures Searching(grid, size, open, root, par, depth, start, vals, {}, [Entry(start, At(grid, start))], 0)
  {
  }

  /** A completed pass over a non-empty level leads to the search state one distance further, with more cells written. */
  lemma SearchSteps(grid: array4<Cell>, size: int, open: set<Pos>, root: Pos, par: map<Pos, Pos>, depth: map<Pos, nat>,
                    start: Pos, vals: seq<int>, written0: set<Pos>, written: set<Pos>, level: seq<Entry>, nlevel: seq<Entry>, d: nat)
    requires Visiting(grid, size, open, root, par, depth, start, vals, written0, written, level, |level|, nlevel, d) == true
    requires level != []
    ensures written == written0 + Positions(level)
    ensures Searching(grid, size, open, root, par, depth, start, vals, written, nlevel, d + 1) == true
    ensures |written0| < |written| <= |open|
  {
    assert level[..|level|] == level;
    FrontierAt(grid, size, open, depth, start, vals, written0, level, 0, d);
    FewerUnwritten(open, written0, level);
    if d == 0 {
      assert level[0] in level;
      assert Positions(level) == {start};
    }
  }

  /**
   * `distances`: breadth-first hop counts from `start`, indexed by cell id,
   * in an array of `nodes` entries that starts filled with -1. The passes
   * stop when a level has no unset neighbours left.
   */
  method Distances(grid: array4<Cell>, size: int, start: Pos, nodes: int,
                   ghost open: set<Pos>, ghost root: Pos, ghost par: map<Pos, Pos>, ghost depth: map<Pos, nat>)
    returns (dists: array<int>)
    requires Board(grid, size, open, root, par, depth, nodes) == true && start in open
    ensures fresh(dists) && dists.Length == nodes
    ensures HopCounts(grid, size, open, start, dists[..])
  {
    assert 0 <= At(grid, start).id < nodes;
    dists := new int[nodes](_ => -1);
    var dist := 0;
    var level := [Entry(start, At(grid, start))];
    ghost var written: set<Pos> := {};
    SearchStarts(grid, size, open, root, par, depth, start, dists[..]);
    while level != []
      invariant Searching(grid, size, open, root, par, depth, start, dists[..], written, level, dist) == true
      invariant Spreading(grid, size, open, start, dists[..], written, level, dist, [])
      invariant |written| <= |open|
      decreases |open| - |written|
    {
      level, written := ProcessLevel(grid, size, dists, start, level, dist, open, root, par, depth, written);
      dist := dist + 1;
    }
    DistancesMeaning(grid, size, open, root, par, depth, start, dists[..], written, dist);
  }

  /**
   * The recorded state, once the search stops, is what `distances`
   * promises: with no frontier left every cell of the tree is written.
   */
  lemma DistancesMeaning(grid: array4<Cell>, size: int, open: set<Pos>, root: Pos, par: map<Pos, Pos>, depth: map<Pos, nat>,
                         start: Pos, vals: seq<int>, written: set<Pos>, d: nat)
    requires Searching(grid, size, open, root, par, depth, start, vals, written, [], d) == true
    requires Spreading(grid, size, open, start, vals, written, [], d, [])
    ensures HopCounts(grid, size, open, start, vals)
  {
    ClosedCoversTree(grid, size, open, root, par, depth, vals, written, start, d);
    forall p | p in open && Stored(grid, size, vals, p) > 0
      ensures HasNearer(grid, size, open, vals, p)
    {
      assert HasPred(grid, size, vals, written, p, vals[At(grid, p).id]);
      var dir: Dir :| var n := Move(p, dir, size);
        n in written && InRange(n, size) && 0 <= At(grid, n).id < |vals| && vals[At(grid, n).id] == vals[At(grid, p).id] - 1;
      assert Move(p, dir, size) in open && Stored(grid, size, vals, Move(p, dir, size)) == Stored(grid, size, vals, p) - 1;
    }
  }

  // ---------------------------------------------------------------------------
  // find_farthest and getLongestPath

  /**
   * `find_farthest`: the first node of the search's last non-empty level.
   * Its cell is as far from `origin` as any open cell: every open cell is
   * within `d` steps, and it is exactly `d`.
   */
  method FindFarthest(grid: array4<Cell>, size: int, origin: Pos,
                      ghost open: set<Pos>, ghost root: Pos, ghost par: map<Pos, Pos>, ghost depth: map<Pos, nat>)
    returns (far: Trail, ghost d: nat)
    requires Fits(grid, size) && IsTree(open, size, root, par, depth)
    requires OpenIs(grid, IsWall, size, open) && origin in open
    ensures Level(grid, IsWall, size, origin, d) != [] && far == Level(grid, IsWall, size, origin, d)[0]
    ensures Level(grid, IsWall, size, origin, d + 1) == []
    ensures WellFormed(far, origin, open, size) && Len(far) == d
    ensures forall x | x in open :: WithinSteps(origin, x, d, open, size)
    ensures StepsApart(origin, far.pos, d, open, size)
  {
    var cells;
    cells, d := FindFarthestLevel(grid, IsWall, size, origin, open, root, par, depth);
    far := cells[0];
    LastLevelWithin(grid, IsWall, size, origin, d, open, root, par, depth);
    LevelApart(grid, IsWall, size, origin, d, far, open, root, par, depth);
  }

  /**
   * `getLongestPath`: search from `start`, restart from the first farthest
   * cell as a fresh origin (its `prev` and `back` deleted), and unwind the
   * farthest trail of the second search. The result is that trail's cells,
   * from the farthest cell of the second search back to its origin, which
   * lies on the last level of the first search. In the tree the cells are
   * all different, and with a second open cell there are at least two.
   * Since the first search starts at the root of the carving tree, its
   * farthest cell is a deepest one, and the two ends are a farthest pair
   * of the maze (`Diameter`).
   */
  method LongestPath(grid: array4<Cell>, size: int, start: Pos,
                     ghost open: set<Pos>, ghost par: map<Pos, Pos>, ghost depth: map<Pos, nat>)
    returns (path: seq<Pos>)
    requires Fits(grid, size) && IsTree(open, size, start, par, depth)
    requires OpenIs(grid, IsWall, size, open)
    ensures path != [] && InRange(path[|path| - 1], size)
    ensures UnwoundFarthest(grid, IsWall, size, path[|path| - 1], path)
    ensures OnLastLevel(grid, IsWall, size, start, path[|path| - 1])
    ensures IsChain(path, open, size) && AllDistinct(path)
    ensures |open| >= 2 ==> |path| >= 2
    ensures Diameter(path[|path| - 1], path[0], |path| - 1, open, size)
  {
    var first;
    ghost var d1;
    first, d1 := FindFarthest(grid, size, start, open, start, par, depth);
    var origin := first.pos;
    assert origin in open;
    var far;
    ghost var d2;
    far, d2 := FindFarthest(grid, size, origin, open, start, par, depth);
    path := Unwind(far);
    SweepPath(grid, IsWall, size, start, d1, first, d2, far, open, par, depth, path);
  }

  /** The open cells are exactly the non-128 cells right after carving. */
  lemma CarvedOpenIs(grid: array4<Cell>, size: int, open: set<Pos>, nodes: int)
    requires Fits(grid, size) && Carved(grid, size, open, nodes)
    ensures OpenIs(grid, IsWall, size, open)
  {
    forall p | InRange(p, size)
      ensures p in open <==> !IsWall(At(grid, p))
    {
    }
  }

  /**
   * `cells` is what `getLongestPath` returns from `start`: a walk through
   * the open cells that repeats none, ending on the last level of the
   * search from `start`, and read backwards a trail of the last level of
   * the search from that end (in the carving tree this makes its two ends a
   * farthest pair of open cells: `RouteIsDiameter`).
   */
  ghost predicate LongestRoute(grid: array4<Cell>, size: int, start: Pos, open: set<Pos>, cells: seq<Pos>)
    reads grid
  {
    && size > 0 && Fits(grid, size) && InRange(start, size)
    && IsChain(cells, open, size) && AllDistinct(cells)
    && cells != [] && InRange(cells[|cells| - 1], size)
    && UnwoundFarthest(grid, IsWall, size, cells[|cells| - 1], cells)
    && OnLastLevel(grid, IsWall, size, start, cells[|cells| - 1])
  }

  /**
   * What the constructor leaves behind: the carved cells form a tree rooted
   * at `start`, numbered in carving order, and are exactly the non-wall
   * cells; the route is the one `getLongestPath` returns (so its ends are
   * a farthest pair of open cells, `RouteIsDiameter`); and each end's table
   * holds every open cell's hop count from that end.
   */
  ghost predicate Built(grid: array4<Cell>, size: int, start: Pos, open: set<Pos>, par: map<Pos, Pos>, depth: map<Pos, nat>,
                        nodes: int, route: Route)
    reads grid
  {
    && Board(grid, size, open, start, par, depth, nodes) && |open| == nodes && OpenIs(grid, IsWall, size, open)
    && LongestRoute(grid, size, start, open, Cells(route))
    && |route.fromStart| == nodes && HopCounts(grid, size, open, route.start, route.fromStart)
    && |route.fromEnd| == nodes && HopCounts(grid, size, open, route.end, route.fromEnd)
  }

  /**
   * The work of `Maze`'s constructor: carve from `start`, take the longest
   * route's first cell as its start and its last as its end, and record the
   * hop counts from both ends.
   */
  method Build(size: int, start: Pos)
    returns (grid: array4<Cell>, nodes: int, ghost open: set<Pos>, ghost par: map<Pos, Pos>, ghost depth: map<Pos, nat>,
             route: Route)
    requires size >= 3 && InRange(start, size)
    ensures fresh(grid) && Built(grid, size, start, open, par, depth, nodes, route)
  {
    grid, nodes, open, par, depth := Generate(start, size);
    CarvedIsNumbered(grid, size, open, nodes);
    CarvedOpenIs(grid, size, open, nodes);
    var path := LongestPath(grid, size, start, open, par, depth);
    var first := path[0];
    var last := path[|path| - 1];
    var inner := path[1..|path| - 1];
    SplitEnds(path);
    assert Board(grid, size, open, start, par, depth, nodes) == true;
    var fromStart := Distances(grid, size, first, nodes, open, start, par, depth);
    var fromEnd := Distances(grid, size, last, nodes, open, start, par, depth);
    route := Route(first, last, inner, fromStart[..], fromEnd[..]);
    assert Cells(route) == path;
  }

  /** The ends of the route the constructor builds are a farthest pair of open cells. */
  lemma RouteIsDiameter(grid: array4<Cell>, size: int, start: Pos, open: set<Pos>, par: map<Pos, Pos>, depth: map<Pos, nat>,
                        nodes: int, route: Route)
    requires Built(grid, size, start, open, par, depth, nodes, route)
    ensures Diameter(route.end, route.start, |Cells(route)| - 1, open, size)
  {
    var cells := Cells(route);
    assert cells[0] == route.start && cells[|cells| - 1] == route.end;
    UnwoundIsDiameter(grid, IsWall, size, start, open, par, depth, cells);
  }

  /**
   * The end's hop table peaks at the route's start: no open cell is more
   * hops from `end` than the route has steps, and `start` is exactly that
   * many. So the route is a longest shortest path of the maze.
   */
  lemma RouteHops(grid: array4<Cell>, size: int, start: Pos, open: set<Pos>, par: map<Pos, Pos>, depth: map<Pos, nat>,
                  nodes: int, route: Route)
    requires Built(grid, size, start, open, par, depth, nodes, route)
    ensures forall p | p in open :: Stored(grid, size, route.fromEnd, p) <= |Cells(route)| - 1
    ensures Stored(grid, size, route.fromEnd, route.start) == |Cells(route)| - 1
  {
    RouteIsDiameter(grid, size, start, open, par, depth, nodes, route);
    var cells := Cells(route);
    var n := |cells| - 1;
    assert cells[0] == route.start && cells[n] == route.end;
    forall p | p in open
      ensures Stored(grid, size, route.fromEnd, p) <= n
    {
      assert WithinSteps(p, route.end, n, open, size);
      var w :| Joins(w, p, route.end, open, size) && |w| <= n + 1;
      NoShorterWalk(grid, size, open, route.end, route.fromEnd, w);
    }
    var back := WalkToStart(grid, size, open, route.end, route.fromEnd, route.start);
    ChainReversed(back, open, size);
    assert Joins(Reversed(back), route.end, route.start, open, size);
  }

  // ---------------------------------------------------------------------------
  // flatten's buffer

  /** Each cell's value as `flatten` stores it: truncated to a byte. */
  ghost function CellBytes(grid: array4<Cell>, size: int): (bytes: map<Pos, Byte>)
    requires Fits(grid, size)
    reads grid
  {
    map p | p in AllCells(size) :: InAllCells(p, size); (At(grid, p).val % 256) as Byte
  }

  /** The buffer holds the bytes of the first `h` cells (in `cellIndex` order), four bytes apart, and zero everywhere else. */
  ghost predicate FlatUpTo(packed: seq<Byte>, bytes: map<Pos, Byte>, size: int, h: int)
  {
    && |packed| == 4 * Pow4(size)
    && (forall q {:trigger Grid.CellIndex(q, size)} | InRange(q, size) && Grid.CellIndex(q, size) < h ::
          q in bytes && 0 <= 4 * Grid.CellIndex(q, size) < |packed| && packed[4 * Grid.CellIndex(q, size)] == bytes[q])
    && (forall k | 0 <= k < |packed| && (k % 4 != 0 || k >= 4 * h) :: packed[k] == 0)
  }

  /** A zero-filled buffer holds no cell yet. */
  lemma FlatStarts(packed: seq<Byte>, bytes: map<Pos, Byte>, size: int)
    requires |packed| == 4 * Pow4(size)
    requires forall k | 0 <= k < |packed| :: packed[k] == 0
    ensures FlatUpTo(packed, bytes, size, 0)
  {
    forall q | InRange(q, size)
      ensures Grid.CellIndex(q, size) >= 0
    {
      CellIndexInBounds(q, size);
    }
  }

  /** Writing the byte of cell number `h` at offset `4 * h` extends the filled prefix by one cell. */
  lemma FlatStep(packed: seq<Byte>, packed': seq<Byte>, bytes: map<Pos, Byte>, size: int, h: int, cur: Pos)
    requires FlatUpTo(packed, bytes, size, h) && cur in bytes
    requires InRange(cur, size) && Grid.CellIndex(cur, size) == h && 0 <= 4 * h < |packed|
    requires packed' == packed[4 * h := bytes[cur]]
    ensures FlatUpTo(packed', bytes, size, h + 1)
  {
    forall q | InRange(q, size) && Grid.CellIndex(q, size) < h + 1
      ensures q in bytes && 0 <= 4 * Grid.CellIndex(q, size) < |packed'| && packed'[4 * Grid.CellIndex(q, size)] == bytes[q]
    {
      CellIndexInjective(q, cur, size);
    }
    FourTimes(h, h + 1);
    forall k | 0 <= k < |packed'| && (k % 4 != 0 || k >= 4 * (h + 1))
      ensures packed'[k] == 0
    {
      assert k != 4 * h;
    }
  }

  /** `flatten`'s innermost loop: the cells (x, y, z, 0) .. (x, y, z, size - 1), advancing the write offset `i` by four per cell. */
  method FlattenRun(grid: array4<Cell>, size: int, packed: array<Byte>, i: int, x: int, y: int, z: int, ghost bytes: map<Pos, Byte>)
    returns (i': int)
    requires Fits(grid, size) && bytes == CellBytes(grid, size)
    requires 0 <= x < size && 0 <= y < size && 0 <= z < size
    requires i == 4 * Grid.CellIndex(Pos(x, y, z, 0), size)
    requires FlatUpTo(packed[..], bytes, size, Grid.CellIndex(Pos(x, y, z, 0), size)) == true
    modifies packed
    ensures i' == 4 * Grid.CellIndex(Pos(x, y, z, size), size)
    ensures FlatUpTo(packed[..], bytes, size, Grid.CellIndex(Pos(x, y, z, size), size)) == true
  {
    i' := i;
    for w := 0 to size
      invariant i' == 4 * Grid.CellIndex(Pos(x, y, z, w), size)
      invariant FlatUpTo(packed[..], bytes, size, Grid.CellIndex(Pos(x, y, z, w), size)) == true
    {
      CellIndexInBounds(Pos(x, y, z, w), size);
      InAllCells(Pos(x, y, z, w), size);
      var b := (grid[w, z, y, x].val % 256) as Byte;
      FlatStep(packed[..], packed[..][i' := b], bytes, size, Grid.CellIndex(Pos(x, y, z, w), size), Pos(x, y, z, w));
      packed[i'] := b;
      i' := i' + 4;
    }
  }

  /** `flatten`'s z loop: the cells (x, y, 0, 0) .. (x, y, size - 1, size - 1). */
  method FlattenPlane(grid: array4<Cell>, size: int, packed: array<Byte>, i: int, x: int, y: int, ghost bytes: map<Pos, Byte>)
    returns (i': int)
    requires Fits(grid, size) && bytes == CellBytes(grid, size)
    requires 0 <= x < size && 0 <= y < size
    requires i == 4 * Grid.CellIndex(Pos(x, y, 0, 0), size)
    requires FlatUpTo(packed[..], bytes, size, Grid.CellIndex(Pos(x, y, 0, 0), size)) == true
    modifies packed
    ensures i' == 4 * Grid.CellIndex(Pos(x, y, size, 0), size)
    ensures FlatUpTo(packed[..], bytes, size, Grid.CellIndex(Pos(x, y, size, 0), size)) == true
  {
    i' := i;
    for z := 0 to size
      invariant i' == 4 * Grid.CellIndex(Pos(x, y, z, 0), size)
      invariant FlatUpTo(packed[..], bytes, size, Grid.CellIndex(Pos(x, y, z, 0), size)) == true
    {
      i' := FlattenRun(grid, size, packed, i', x, y, z, bytes);
      IndexCarry(Pos(x, y, z, 0), size);
    }
  }

  /** `flatten`'s y loop: the cells (x, 0, 0, 0) .. (x, size - 1, size - 1, size - 1). */
  method FlattenSlab(grid: array4<Cell>, size: int, packed: array<Byte>, i: int, x: int, ghost bytes: map<Pos, Byte>)
    returns (i': int)
    requires Fits(grid, size) && bytes == CellBytes(grid, size)
    requires 0 <= x < size
    requires i == 4 * Grid.CellIndex(Pos(x, 0, 0, 0), size)
    requires FlatUpTo(packed[..], bytes, size, Grid.CellIndex(Pos(x, 0, 0, 0), size)) == true
    modifies packed
    ensures i' == 4 * Grid.CellIndex(Pos(x, size, 0, 0), size)
    ensures FlatUpTo(packed[..], bytes, size, Grid.CellIndex(Pos(x, size, 0, 0), size)) == true
  {
    i' := i;
    for y := 0 to size
      invariant i' == 4 * Grid.CellIndex(Pos(x, y, 0, 0), size)
      invariant FlatUpTo(packed[..], bytes, size, Grid.CellIndex(Pos(x, y, 0, 0), size)) == true
    {
      i' := FlattenPlane(grid, size, packed, i', x, y, bytes);
      IndexCarry(Pos(x, y, 0, 0), size);
    }
  }

  /** `flatten`'s x loop, over the whole grid. */
  method FlattenAll(grid: array4<Cell>, size: int, packed: array<Byte>, ghost bytes: map<Pos, Byte>)
    requires Fits(grid, size) && bytes == CellBytes(grid, size) && size >= 0
    requires FlatUpTo(packed[..], bytes, size, 0) == true
    modifies packed
    ensures FlatUpTo(packed[..], bytes, size, Pow4(size)) == true
  {
    var i := 0;
    assert Grid.CellIndex(Pos(0, 0, 0, 0), size) == 0;
    for x := 0 to size
      invariant i == 4 * Grid.CellIndex(Pos(x, 0, 0, 0), size)
      invariant FlatUpTo(packed[..], bytes, size, Grid.CellIndex(Pos(x, 0, 0, 0), size)) == true
    {
      i := FlattenSlab(grid, size, packed, i, x, bytes);
      IndexCarry(Pos(x, 0, 0, 0), size);
    }
    IndexCarry(Pos(0, 0, 0, 0), size);
  }

  /** `flatten` over a grid: a fresh buffer with each cell's byte at four times its `cellIndex`, and zero between. */
  method FlattenCells(grid: array4<Cell>, size: int) returns (packed: array<Byte>)
    requires Fits(grid, size) && size >= 0
    ensures fresh(packed)
    ensures forall p {:trigger At(grid, p)} | InRange(p, size) ::
      0 <= 4 * Grid.CellIndex(p, size) < packed.Length && packed[4 * Grid.CellIndex(p, size)] as int == At(grid, p).val % 256
    ensures forall k | 0 <= k < packed.Length && k % 4 != 0 :: packed[k] == 0
    ensures packed.Length == 4 * Pow4(size)
  {
    ghost var bytes := CellBytes(grid, size);
    packed := new Byte[4 * Pow4(size)](_ => 0);
    FlatStarts(packed[..], bytes, size);
    FlattenAll(grid, size, packed, bytes);
    FlatDone(grid, size, packed, bytes);
  }

  /** Once every cell is written, the buffer holds each cell's byte at four times its `cellIndex`, and zero between. */
  lemma FlatDone(grid: array4<Cell>, size: int, packed: array<Byte>, bytes: map<Pos, Byte>)
    requires Fits(grid, size) && bytes == CellBytes(grid, size)
    requires FlatUpTo(packed[..], bytes, size, Pow4(size))
    ensures packed.Length == 4 * Pow4(size)
    ensures forall p {:trigger At(grid, p)} | InRange(p, size) ::
      0 <= 4 * Grid.CellIndex(p, size) < packed.Length && packed[4 * Grid.CellIndex(p, size)] as int == At(grid, p).val % 256
    ensures forall k | 0 <= k < packed.Length && k % 4 != 0 :: packed[k] == 0
  {
    forall p | InRange(p, size)
      ensures 0 <= 4 * Grid.CellIndex(p, size) < packed.Length && packed[4 * Grid.CellIndex(p, size)] as int == At(grid, p).val % 256
    {
      CellIndexInBounds(p, size);
      InAllCells(p, size);
      assert packed[..][4 * Grid.CellIndex(p, size)] == bytes[p];
    }
    forall k | 0 <= k < packed.Length && k % 4 != 0
      ensures packed[k] == 0
    {
      assert packed[..][k] == 0;
    }
  }

  // ---------------------------------------------------------------------------
  // class Maze

  /** The route the constructor builds: both ends, the cells between, and the hop counts from each end. */
  datatype Route = Route(start: Pos, end: Pos, path: seq<Pos>, fromStart: seq<int>, fromEnd: seq<int>)

  /** The route's cells in order: `start`, the path, `end`. */
  function Cells(r: Route): seq<Pos>
  {
    [r.start] + r.path + [r.end]
  }

  /** Four bytes per cell: the byte offset of cell number `k` is a multiple of 4, below `4 * m` when `k < m`. */
  lemma FourTimes(k: int, m: int)
    ensures (4 * k) % 4 == 0
    ensures 0 <= k < m ==> 0 <= 4 * k < 4 * m
  {
  }

  class Maze {
    const size: int
    var grid: array4<Cell>
    var start: Pos
    var route: Route
    /** The carved cells, as a tree rooted at `start`, and how many there are. */
    ghost var open: set<Pos>
    ghost var par: map<Pos, Pos>
    ghost var depth: map<Pos, nat>
    ghost var nodes: int

    /** The carved tree and its numbering; `set` rewrites values but never ids. */
    ghost predicate Valid()
      reads this, grid
    {
      Board(grid, size, open, start, par, depth, nodes) && |open| == nodes
    }

    /**
     * Carve a maze from `start` (the source draws it at random), then take
     * the longest route's first cell as its start, its last as its end, and
     * record the hop counts from both ends.
     */
    constructor (size: int, start: Pos)
      requires size >= 3 && InRange(start, size)
      ensures fresh(grid) && this.size == size && this.start == start
      ensures Built(grid, size, start, open, par, depth, nodes, route) == true
      ensures Valid()
    {
      this.size := size;
      this.start := start;
      var g, n, r;
      ghost var o, p, d;
      g, n, o, p, d, r := Build(size, start);
      grid, nodes, open, par, depth, route := g, n, o, p, d, r;
    }

    /** `get`: the value stored at `p`. */
    function Get(p: Pos): int
      requires Valid() && InRange(p, size)
      reads this, grid
    {
      At(grid, p).val
    }

    /** `getId`: the carve number at `p`, -1 exactly for a wall, and below the number of open cells. */
    function GetId(p: Pos): (r: int)
      requires Valid() && InRange(p, size)
      reads this, grid
      ensures p in open ==> 0 <= r < |open|
      ensures p !in open ==> r == -1
    {
      At(grid, p).id
    }

    /** No two open cells share a carve number. */
    lemma IdsDistinct(p: Pos, q: Pos)
      requires Valid() && InRange(p, size) && InRange(q, size) && p in open && q in open
      ensures GetId(p) == GetId(q) <==> p == q
    {
      if GetId(p) == GetId(q) {
        assert SameId(grid, size, p, q);
      }
    }

    /** `set`: overwrite the value at `p` and return it; the id there and every other cell stay as they were. */
    method Set(p: Pos, val: int) returns (r: int)
      requires Valid() && InRange(p, size)
      modifies grid
      ensures Valid() && r == val
      ensures Get(p) == val && GetId(p) == old(GetId(p))
      ensures forall q | InRange(q, size) && q != p :: At(grid, q) == old(At(grid, q))
    {
      var c := grid[p.w, p.z, p.y, p.x];
      grid[p.w, p.z, p.y, p.x] := c.(val := val);
      r := val;
      forall q | InRange(q, size)
        ensures At(grid, q).id == old(At(grid, q)).id
      {
      }
      forall q, q' | InRange(q, size) && InRange(q', size) && SameId(grid, size, q, q')
        ensures old(SameId(grid, size, q, q'))
      {
      }
    }

    /** `cellIndex`: the offset of `p`'s value in `flatten`'s buffer, four bytes per cell. */
    function CellIndex(p: Pos): (r: int)
      reads this
      ensures r % 4 == 0
      ensures InRange(p, size) ==> 0 <= r < 4 * Pow4(size)
    {
      var size2 := size * size;
      var size3 := size2 * size;
      var k := p.x * size3 + p.y * size2 + p.z * size + p.w;
      FourTimes(k, Pow4(size));
      if InRange(p, size) then CellIndexInBounds(p, size); 4 * k else 4 * k
    }

    /** Two cells share a buffer offset only when they are the same cell. */
    lemma CellIndexOneToOne(p: Pos, q: Pos)
      requires InRange(p, size) && InRange(q, size)
      ensures CellIndex(p) == CellIndex(q) <==> p == q
    {
      CellIndexInjective(p, q, size);
    }

    /** `getLongestPath`, on the maze as carved. */
    method GetLongestPath() returns (path: seq<Pos>)
      requires Valid() && OpenIs(grid, IsWall, size, open)
      ensures path != [] && InRange(path[|path| - 1], size) && InRange(start, size)
      ensures UnwoundFarthest(grid, IsWall, size, path[|path| - 1], path)
      ensures OnLastLevel(grid, IsWall, size, start, path[|path| - 1])
      ensures IsChain(path, open, size) && AllDistinct(path)
      ensures |open| >= 2 ==> |path| >= 2
      ensures Diameter(path[|path| - 1], path[0], |path| - 1, open, size)
    {
      path := LongestPath(grid, size, start, open, par, depth);
    }

    /**
     * `flatten`: a buffer of `4 * size^4` bytes holding each cell's value,
     * truncated to a byte, at the cell's `cellIndex`, and zero elsewhere.
     */
    method Flatten() returns (packed: array<Byte>)
      requires Valid()
      ensures fresh(packed) && packed.Length == 4 * Pow4(size)
      ensures forall p | InRange(p, size) :: 0 <= CellIndex(p) < packed.Length && packed[CellIndex(p)] as int == Get(p) % 256
      ensures forall k | 0 <= k < packed.Length && k % 4 != 0 :: packed[k] == 0
    {
      packed := FlattenCells(grid, size);
    }
  }
}
