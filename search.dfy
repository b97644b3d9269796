/**
 * `find_farthest`, the level-by-level search both maze revisions use to
 * find the ends of a long route. A search node remembers the direction back
 * to the node it came from (`prev`) and that node (`back`); a node never
 * expands along `prev`, so the search never immediately walks back.
 *
 * The grid is a 4D array indexed `[w, z, y, x]`, as the source's
 * `grid[w][z][y][x]`; the two revisions differ only in their cell type and
 * wall test, which are parameters here.
 */
module Search {
  import opened Grid
  import opened Walks

  /** A search node. `Origin` has no `prev`/`back` (the source deletes them). */
  datatype Trail = Origin(pos: Pos) | Step(pos: Pos, prev: Dir, back: Trail)

  predicate Fits<C>(grid: array4<C>, size: int)
  {
    grid.Length0 == size && grid.Length1 == size && grid.Length2 == size && grid.Length3 == size
  }

  /** The cell `grid[w][z][y][x]`. */
  function At<C>(grid: array4<C>, p: Pos): C
    requires 0 <= p.w < grid.Length0 && 0 <= p.z < grid.Length1
    requires 0 <= p.y < grid.Length2 && 0 <= p.x < grid.Length3
    reads grid
  {
    grid[p.w, p.z, p.y, p.x]
  }

  /** `open` is exactly the set of cells of the grid that are not walls. */
  ghost predicate OpenIs<C>(grid: array4<C>, isWall: C -> bool, size: int, open: set<Pos>)
    requires Fits(grid, size)
    reads grid
  {
    forall p | InRange(p, size) :: p in open <==> !isWall(At(grid, p))
  }

  /**
   * The node reached from `t` in direction `d`, if the search takes that
   * step: not back along `t.prev`, and not into a wall.
   */
  function StepTo<C>(grid: array4<C>, isWall: C -> bool, size: int, t: Trail, d: Dir): (r: seq<Trail>)
    requires size > 0 && Fits(grid, size) && InRange(t.pos, size)
    reads grid
    ensures forall u | u in r :: InRange(u.pos, size)
  {
    MoveInRange(t.pos, d, size);
    if t.Step? && t.prev == d then []
    else if isWall(At(grid, Move(t.pos, d, size))) then []
    else [Step(Move(t.pos, d, size), Opp(d), t)]
  }

  /** The order in which a node's neighbours are tried. */
  const Order: seq<Dir> := [R, L, U, D, F, B, A, K]

  lemma AllDirsInOrder()
    ensures forall d: Dir :: d in Order
  {
    forall d: Dir
      ensures d in Order
    {
      match d
      case R => assert Order[0] == d;
      case L => assert Order[1] == d;
      case U => assert Order[2] == d;
      case D => assert Order[3] == d;
      case F => assert Order[4] == d;
      case B => assert Order[5] == d;
      case A => assert Order[6] == d;
      case K => assert Order[7] == d;
    }
  }

  /** The nodes pushed for `t` trying the directions `dirs` in turn. */
  function StepsAlong<C>(grid: array4<C>, isWall: C -> bool, size: int, t: Trail, dirs: seq<Dir>): (r: seq<Trail>)
    requires size > 0 && Fits(grid, size) && InRange(t.pos, size)
    reads grid
    ensures forall u | u in r :: InRange(u.pos, size)
  {
    if dirs == [] then []
    else StepsAlong(grid, isWall, size, t, dirs[..|dirs| - 1]) + StepTo(grid, isWall, size, t, dirs[|dirs| - 1])
  }

  /** The nodes pushed for one node, in the source's order R L U D F B A K. */
  function Children<C>(grid: array4<C>, isWall: C -> bool, size: int, t: Trail): (r: seq<Trail>)
    requires size > 0 && Fits(grid, size) && InRange(t.pos, size)
    reads grid
    ensures forall u | u in r :: InRange(u.pos, size)
  {
    StepsAlong(grid, isWall, size, t, Order)
  }

  predicate AllInRange(cells: seq<Trail>, size: int)
  {
    forall t | t in cells :: InRange(t.pos, size)
  }

  /** The next level: the children of every node of `cells`, in order. */
  function Expand<C>(grid: array4<C>, isWall: C -> bool, size: int, cells: seq<Trail>): (r: seq<Trail>)
    requires size > 0 && Fits(grid, size) && AllInRange(cells, size)
    reads grid
    ensures AllInRange(r, size)
  {
    if cells == [] then []
    else Expand(grid, isWall, size, cells[..|cells| - 1]) + Children(grid, isWall, size, cells[|cells| - 1])
  }

  /** Level `d` of the search from `origin`. */
  function Level<C>(grid: array4<C>, isWall: C -> bool, size: int, origin: Pos, d: nat): (r: seq<Trail>)
    requires size > 0 && Fits(grid, size) && InRange(origin, size)
    reads grid
    ensures AllInRange(r, size)
  {
    if d == 0 then [Origin(origin)]
    else Expand(grid, isWall, size, Level(grid, isWall, size, origin, d - 1))
  }

  /** Number of steps from the origin. */
  function Len(t: Trail): nat
  {
    match t
    case Origin(_) => 0
    case Step(_, _, back) => 1 + Len(back)
  }

  /** The cells of a trail, from its end back to its origin (`getLongestPath`'s loop). */
  function Chain(t: Trail): (r: seq<Pos>)
    ensures |r| == Len(t) + 1 && r[0] == t.pos
  {
    match t
    case Origin(p) => [p]
    case Step(p, _, back) => [p] + Chain(back)
  }

  /**
   * A trail the search can build from `origin`: every step enters an open
   * cell adjacent to the previous one, and no step reverses the one before.
   */
  ghost predicate WellFormed(t: Trail, origin: Pos, open: set<Pos>, size: int)
    requires size > 0
  {
    match t
    case Origin(p) => p == origin && p in open && InRange(p, size)
    case Step(p, prev, back) =>
      && p in open && InRange(p, size)
      && Move(p, prev, size) == back.pos
      && (back.Step? ==> back.prev != Opp(prev))
      && WellFormed(back, origin, open, size)
  }

  /** A well-formed trail's cells are a walk of adjacent open cells ending at the origin. */
  lemma {:induction false} ChainOfWellFormed(t: Trail, origin: Pos, open: set<Pos>, size: int)
    requires size > 0 && WellFormed(t, origin, open, size)
    ensures IsChain(Chain(t), open, size)
    ensures Chain(t)[|Chain(t)| - 1] == origin
  {
    match t
    case Origin(p) =>
    case Step(p, prev, back) =>
      ChainOfWellFormed(back, origin, open, size);
      MoveAdjacent(p, prev, size);
      var c := Chain(t);
      assert c == [p] + Chain(back);
      forall i | 0 <= i < |c| - 1
        ensures Adjacent(c[i], c[i + 1], size)
      {
        if i > 0 {
          assert c[i] == Chain(back)[i - 1] && c[i + 1] == Chain(back)[i];
        }
      }
  }

  /**
   * A well-formed trail never steps straight back: on a grid of side at
   * least 3 a step other than the reverse of the one before leads to a
   * different cell.
   */
  lemma {:induction false} WellFormedNoReturn(t: Trail, origin: Pos, open: set<Pos>, size: int)
    requires size >= 3 && WellFormed(t, origin, open, size)
    ensures NoReturn(Chain(t))
  {
    match t
    case Origin(p) =>
    case Step(p, prev, back) =>
      WellFormedNoReturn(back, origin, open, size);
      var c := Chain(t);
      assert c == [p] + Chain(back);
      if back.Step? {
        MoveBack(p, prev, size);
        MoveInjective(back.pos, back.prev, Opp(prev), size);
        assert c[2] == Chain(back.back)[0];
      }
      forall i | 0 <= i < |c| - 2
        ensures c[i] != c[i + 2]
      {
        if i > 0 {
          assert c[i] == Chain(back)[i - 1] && c[i + 2] == Chain(back)[i + 1];
        }
      }
  }

  /** In a tree, a trail the search builds visits no cell twice. */
  lemma TrailDistinct(t: Trail, origin: Pos, open: set<Pos>, size: int, root: Pos, par: map<Pos, Pos>, depth: map<Pos, nat>)
    requires IsTree(open, size, root, par, depth) && WellFormed(t, origin, open, size)
    ensures AllDistinct(Chain(t))
  {
    WellFormedNoReturn(t, origin, open, size);
    ChainOfWellFormed(t, origin, open, size);
    NoReturnDistinct(open, size, root, par, depth, Chain(t));
  }

  /** Membership in `StepTo`: the step is allowed and enters an open cell. */
  lemma InStepTo<C>(grid: array4<C>, isWall: C -> bool, size: int, t: Trail, d: Dir, u: Trail)
    requires size > 0 && Fits(grid, size) && InRange(t.pos, size)
    requires u in StepTo(grid, isWall, size, t, d)
    ensures u == Step(Move(t.pos, d, size), Opp(d), t)
    ensures t.Step? ==> t.prev != d
    ensures !isWall(At(grid, Move(t.pos, d, size)))
  {
  }

  /** Every node pushed along `dirs` comes from one allowed step in one of them. */
  lemma {:induction false} InStepsAlong<C>(grid: array4<C>, isWall: C -> bool, size: int, t: Trail, dirs: seq<Dir>, u: Trail)
    returns (d: Dir)
    requires size > 0 && Fits(grid, size) && InRange(t.pos, size)
    requires u in StepsAlong(grid, isWall, size, t, dirs)
    ensures d in dirs && u in StepTo(grid, isWall, size, t, d)
  {
    if u in StepTo(grid, isWall, size, t, dirs[|dirs| - 1]) {
      d := dirs[|dirs| - 1];
    } else {
      d := InStepsAlong(grid, isWall, size, t, dirs[..|dirs| - 1], u);
    }
  }

  /** Every child comes from one allowed step of its parent. */
  lemma InChildren<C>(grid: array4<C>, isWall: C -> bool, size: int, t: Trail, u: Trail) returns (d: Dir)
    requires size > 0 && Fits(grid, size) && InRange(t.pos, size)
    requires u in Children(grid, isWall, size, t)
    ensures u == Step(Move(t.pos, d, size), Opp(d), t)
    ensures t.Step? ==> t.prev != d
    ensures InRange(u.pos, size) && !isWall(At(grid, u.pos))
  {
    d := InStepsAlong(grid, isWall, size, t, Order, u);
    InStepTo(grid, isWall, size, t, d, u);
    MoveInRange(t.pos, d, size);
  }

  /** A step taken in any of `dirs` shows up among the nodes pushed along them. */
  lemma {:induction false} StepsAlongNonEmpty<C>(grid: array4<C>, isWall: C -> bool, size: int, t: Trail, dirs: seq<Dir>, d: Dir)
    requires size > 0 && Fits(grid, size) && InRange(t.pos, size)
    requires d in dirs && StepTo(grid, isWall, size, t, d) != []
    ensures StepsAlong(grid, isWall, size, t, dirs) != []
  {
    if dirs[|dirs| - 1] != d {
      assert d in dirs[..|dirs| - 1];
      StepsAlongNonEmpty(grid, isWall, size, t, dirs[..|dirs| - 1], d);
    }
  }

  /** Every node of the next level is a child of a node of the current one. */
  lemma {:induction false} InExpand<C>(grid: array4<C>, isWall: C -> bool, size: int, cells: seq<Trail>, u: Trail) returns (t: Trail)
    requires size > 0 && Fits(grid, size) && AllInRange(cells, size)
    requires u in Expand(grid, isWall, size, cells)
    ensures t in cells && u in Children(grid, isWall, size, t)
    decreases |cells|
  {
    var init := cells[..|cells| - 1];
    var last := cells[|cells| - 1];
    if u in Children(grid, isWall, size, last) {
      t := last;
    } else {
      t := InExpand(grid, isWall, size, init, u);
    }
  }

  /** Expanding nothing gives nothing, so the levels stay empty after the first empty one. */
  lemma {:induction false} EmptyStaysEmpty<C>(grid: array4<C>, isWall: C -> bool, size: int, origin: Pos, d: nat, e: nat)
    requires size > 0 && Fits(grid, size) && InRange(origin, size)
    requires d <= e && Level(grid, isWall, size, origin, d) == []
    ensures Level(grid, isWall, size, origin, e) == []
    decreases e - d
  {
    if d < e {
      EmptyStaysEmpty(grid, isWall, size, origin, d, e - 1);
    }
  }

  /**
   * Where a node stands relative to the tree (rooted elsewhere) when it sits
   * on level `d` of a search from `origin`: either it is still climbing
   * towards the root, `d` levels above the origin, or it has turned and
   * entered from its parent, at most `depth[origin] + depth[pos]` steps out.
   */
  ghost predicate Phased(t: Trail, d: nat, origin: Pos, par: map<Pos, Pos>, depth: map<Pos, nat>)
  {
    && t.pos in depth && origin in depth
    && ((t.Step? && t.pos in par && par[t.pos] == t.back.pos && d <= depth[origin] + depth[t.pos])
        || d + depth[t.pos] == depth[origin])
  }

  /** One step of the search keeps a node phased, given the tree shape. */
  lemma ChildPhased(open: set<Pos>, size: int, root: Pos, par: map<Pos, Pos>, depth: map<Pos, nat>,
                    origin: Pos, t: Trail, dir: Dir, d: nat)
    requires IsTree(open, size, root, par, depth)
    requires WellFormed(t, origin, open, size) && Phased(t, d, origin, par, depth)
    requires t.Step? ==> t.prev != dir
    requires Move(t.pos, dir, size) in open
    ensures WellFormed(Step(Move(t.pos, dir, size), Opp(dir), t), origin, open, size)
    ensures Phased(Step(Move(t.pos, dir, size), Opp(dir), t), d + 1, origin, par, depth)
  {
    var u, q := t.pos, Move(t.pos, dir, size);
    MoveBack(u, dir, size);
    OppInvolutive(dir);
    MoveAdjacent(u, dir, size);
    if !(q in par && par[q] == u) {
      assert par[u] == q;
      if t.Step? && u in par && par[u] == t.back.pos {
        MoveInjective(u, dir, t.prev, size);
        assert false;
      }
    }
  }

  /** Every node of every level is well formed, `d` steps long, and phased. */
  lemma {:induction false} LevelFacts<C>(grid: array4<C>, isWall: C -> bool, size: int, origin: Pos, d: nat,
                                         open: set<Pos>, root: Pos, par: map<Pos, Pos>, depth: map<Pos, nat>)
    requires Fits(grid, size) && IsTree(open, size, root, par, depth)
    requires OpenIs(grid, isWall, size, open) && origin in open
    ensures forall t {:trigger t in Level(grid, isWall, size, origin, d)} | t in Level(grid, isWall, size, origin, d) ::
              WellFormed(t, origin, open, size) && Len(t) == d && Phased(t, d, origin, par, depth)
  {
    if d > 0 {
      LevelFacts(grid, isWall, size, origin, d - 1, open, root, par, depth);
      forall u | u in Level(grid, isWall, size, origin, d)
        ensures WellFormed(u, origin, open, size) && Len(u) == d && Phased(u, d, origin, par, depth)
      {
        LevelMember(grid, isWall, size, origin, d - 1, open, root, par, depth, u);
      }
    }
  }

  /** A node of level `d + 1` is a child of a node of level `d`, so it inherits that node's facts one step on. */
  lemma LevelMember<C>(grid: array4<C>, isWall: C -> bool, size: int, origin: Pos, d: nat,
                       open: set<Pos>, root: Pos, par: map<Pos, Pos>, depth: map<Pos, nat>, u: Trail)
    requires Fits(grid, size) && IsTree(open, size, root, par, depth)
    requires OpenIs(grid, isWall, size, open) && origin in open
    requires forall t {:trigger t in Level(grid, isWall, size, origin, d)} | t in Level(grid, isWall, size, origin, d) ::
               WellFormed(t, origin, open, size) && Len(t) == d && Phased(t, d, origin, par, depth)
    requires u in Level(grid, isWall, size, origin, d + 1)
    ensures WellFormed(u, origin, open, size) && Len(u) == d + 1 && Phased(u, d + 1, origin, par, depth)
  {
    var prior := Level(grid, isWall, size, origin, d);
    var t := InExpand(grid, isWall, size, prior, u);
    var dir := InChildren(grid, isWall, size, t, u);
    assert Move(t.pos, dir, size) in open;
    ChildPhased(open, size, root, par, depth, origin, t, dir, d);
    assert Len(u) == Len(t) + 1;
  }

  /** A non-empty level lies less than twice the number of open cells from the origin. */
  lemma LevelBound<C>(grid: array4<C>, isWall: C -> bool, size: int, origin: Pos, d: nat,
                      open: set<Pos>, root: Pos, par: map<Pos, Pos>, depth: map<Pos, nat>)
    requires Fits(grid, size) && IsTree(open, size, root, par, depth)
    requires OpenIs(grid, isWall, size, open) && origin in open
    requires Level(grid, isWall, size, origin, d) != []
    ensures d + 2 <= 2 * |open|
  {
    LevelFacts(grid, isWall, size, origin, d, open, root, par, depth);
    var t := Level(grid, isWall, size, origin, d)[0];
    assert t.pos in open;
  }

  /** One round of `find_farthest`'s outer loop: push every node's children, in order. */
  method NextLevel<C>(grid: array4<C>, isWall: C -> bool, size: int, cells: seq<Trail>) returns (ncells: seq<Trail>)
    requires size > 0 && Fits(grid, size) && AllInRange(cells, size)
    ensures ncells == Expand(grid, isWall, size, cells)
  {
    ncells := [];
    for i := 0 to |cells|
      invariant ncells == Expand(grid, isWall, size, cells[..i])
    {
      var cell := cells[i];
      assert cells[..i + 1][..i] == cells[..i];
      ghost var before := ncells;
      for k := 0 to |Order|
        invariant ncells == before + StepsAlong(grid, isWall, size, cell, Order[..k])
      {
        assert Order[..k + 1][..k] == Order[..k];
        ncells := ncells + StepTo(grid, isWall, size, cell, Order[k]);
      }
      assert Order[..|Order|] == Order;
    }
    assert cells[..|cells|] == cells;
  }

  /**
   * `find_farthest`: run the search level by level until a level has no
   * children, and return that last non-empty level (Maze.js returns all of
   * it, src/Maze.ts its first node). It terminates because the open cells
   * form a tree and nodes never step straight back.
   */
  method FindFarthestLevel<C>(grid: array4<C>, isWall: C -> bool, size: int, origin: Pos,
                              ghost open: set<Pos>, ghost root: Pos, ghost par: map<Pos, Pos>, ghost depth: map<Pos, nat>)
    returns (cells: seq<Trail>, ghost d: nat)
    requires Fits(grid, size) && IsTree(open, size, root, par, depth)
    requires OpenIs(grid, isWall, size, open) && origin in open
    ensures cells == Level(grid, isWall, size, origin, d)
    ensures cells != [] && Level(grid, isWall, size, origin, d + 1) == []
    ensures forall t | t in cells :: WellFormed(t, origin, open, size) && Len(t) == d
  {
    var ncells := [Origin(origin)];
    d := 0;
    while true
      invariant ncells == Level(grid, isWall, size, origin, d) && ncells != []
      decreases 2 * |open| - d
    {
      LevelBound(grid, isWall, size, origin, d, open, root, par, depth);
      cells := ncells;
      ncells := NextLevel(grid, isWall, size, cells);
      if ncells == [] {
        break;
      }
      d := d + 1;
    }
    LevelFacts(grid, isWall, size, origin, d, open, root, par, depth);
  }

  /** `getLongestPath`'s loop: follow `back` from `t` to the origin, collecting cells. */
  method Unwind(t: Trail) returns (path: seq<Pos>)
    ensures path == Chain(t)
  {
    path := [];
    var cur := t;
    while true
      invariant path + Chain(cur) == Chain(t)
      decreases Len(cur)
    {
      path := path + [cur.pos];
      if cur.Origin? {
        break;
      }
      cur := cur.back;
    }
  }

  /** `p` is the cell of a node on the last non-empty level of the search from `origin`. */
  ghost predicate OnLastLevel<C>(grid: array4<C>, isWall: C -> bool, size: int, origin: Pos, p: Pos)
    requires size > 0 && Fits(grid, size) && InRange(origin, size)
    reads grid
  {
    exists d: nat, t {:trigger t in Level(grid, isWall, size, origin, d)} | t in Level(grid, isWall, size, origin, d) ::
      t.pos == p && Level(grid, isWall, size, origin, d + 1) == []
  }

  /**
   * `path` is a node of the last non-empty level of the search from
   * `origin`, unwound: its cells from the farthest one back to `origin`.
   */
  ghost predicate UnwoundFarthest<C>(grid: array4<C>, isWall: C -> bool, size: int, origin: Pos, path: seq<Pos>)
    requires size > 0 && Fits(grid, size) && InRange(origin, size)
    reads grid
  {
    && |path| >= 1
    && Level(grid, isWall, size, origin, |path|) == []
    && exists t {:trigger t in Level(grid, isWall, size, origin, |path| - 1)} | t in Level(grid, isWall, size, origin, |path| - 1) ::
         Chain(t) == path
  }

  /** A node of the last non-empty level puts its cell `p` on that level. */
  lemma LastLevelCell<C>(grid: array4<C>, isWall: C -> bool, size: int, origin: Pos, t: Trail, d: nat, p: Pos)
    requires size > 0 && Fits(grid, size) && InRange(origin, size)
    requires t in Level(grid, isWall, size, origin, d) && Level(grid, isWall, size, origin, d + 1) == []
    requires p == t.pos
    ensures OnLastLevel(grid, isWall, size, origin, p)
  {
  }

  /**
   * Unwinding a node of the last non-empty level gives a walk of distinct
   * open cells from the farthest cell back to the origin.
   */
  lemma UnwoundLastLevel<C>(grid: array4<C>, isWall: C -> bool, size: int, origin: Pos, t: Trail, d: nat,
                            open: set<Pos>, root: Pos, par: map<Pos, Pos>, depth: map<Pos, nat>, path: seq<Pos>)
    requires Fits(grid, size) && IsTree(open, size, root, par, depth) && InRange(origin, size)
    requires t in Level(grid, isWall, size, origin, d) && Level(grid, isWall, size, origin, d + 1) == []
    requires WellFormed(t, origin, open, size) && Len(t) == d && path == Chain(t)
    ensures path != [] && path[|path| - 1] == origin
    ensures UnwoundFarthest(grid, isWall, size, path[|path| - 1], path)
    ensures IsChain(path, open, size) && AllDistinct(path)
  {
    ChainOfWellFormed(t, origin, open, size);
    TrailDistinct(t, origin, open, size, root, par, depth);
  }

  /** A cell of a tree with another open cell has an open neighbour. */
  lemma OpenNeighbour(open: set<Pos>, size: int, root: Pos, par: map<Pos, Pos>, depth: map<Pos, nat>, s: Pos, other: Pos)
    returns (d: Dir)
    requires IsTree(open, size, root, par, depth) && s in open && other in open && other != s
    ensures Move(s, d, size) in open
  {
    var path := TreeConnected(open, size, root, par, depth, s, other);
    assert |path| >= 2;
    d := DirectionTo(s, path[1], size);
  }

  /**
   * When the origin has an open neighbour the search gets past level 0, so
   * the trail it returns is at least one step long.
   */
  lemma LevelOneNonEmpty<C>(grid: array4<C>, isWall: C -> bool, size: int, origin: Pos, dir: Dir)
    requires size > 0 && Fits(grid, size) && InRange(origin, size)
    requires !isWall(At(grid, Move(origin, dir, size)))
    ensures Level(grid, isWall, size, origin, 1) != []
  {
    var t := Origin(origin);
    assert Level(grid, isWall, size, origin, 1) == Expand(grid, isWall, size, [t]);
    assert [t][..0] == [];
    assert StepTo(grid, isWall, size, t, dir) != [];
    StepsAlongNonEmpty(grid, isWall, size, t, Order, dir);
  }

  /**
   * The last level of a search from a cell with an open neighbour is at
   * least one step out.
   */
  lemma LastLevelPastOrigin<C>(grid: array4<C>, isWall: C -> bool, size: int, origin: Pos, dir: Dir, d: nat)
    requires size > 0 && Fits(grid, size) && InRange(origin, size)
    requires !isWall(At(grid, Move(origin, dir, size)))
    requires Level(grid, isWall, size, origin, d + 1) == []
    ensures d >= 1
  {
    LevelOneNonEmpty(grid, isWall, size, origin, dir);
  }

  // ---------------------------------------------------------------------------
  // Every walk that never steps straight back is on a level: the search is
  // complete, so its last level is as far out as the maze goes.

  /** The trail that follows the walk `w` out of `w[0]`, one node per cell. */
  ghost function TrailAlong(w: seq<Pos>, open: set<Pos>, size: int): (t: Trail)
    requires size > 0 && |w| > 0 && IsChain(w, open, size)
    requires forall p | p in open :: InRange(p, size)
    ensures Len(t) == |w| - 1 && t.pos == w[|w| - 1]
    decreases |w|
  {
    if |w| == 1 then Origin(w[0])
    else
      var n := |w| - 1;
      AdjacentSymmetric(w[n - 1], w[n], size);
      var d :| Move(w[n], d, size) == w[n - 1];
      Step(w[n], d, TrailAlong(w[..n], open, size))
  }

  /** Followed from the origin, a walk that never steps straight back is a trail the search can build. */
  lemma {:induction false} TrailAlongWellFormed(w: seq<Pos>, origin: Pos, open: set<Pos>, size: int)
    requires size >= 3 && |w| > 0 && w[0] == origin && IsChain(w, open, size) && NoReturn(w)
    requires forall p | p in open :: InRange(p, size)
    ensures WellFormed(TrailAlong(w, open, size), origin, open, size)
    decreases |w|
  {
    var t := TrailAlong(w, open, size);
    if |w| > 1 {
      var n := |w| - 1;
      assert IsChain(w[..n], open, size);
      assert NoReturn(w[..n]);
      TrailAlongWellFormed(w[..n], origin, open, size);
      var back := t.back;
      if back.Step? {
        MoveBack(w[n], t.prev, size);
      }
    }
  }

  /** A step of `t` in direction `d` is among the nodes pushed along any `dirs` that holds `d`. */
  lemma {:induction false} StepsAlongHas<C>(grid: array4<C>, isWall: C -> bool, size: int, t: Trail, dirs: seq<Dir>, d: Dir)
    requires size > 0 && Fits(grid, size) && InRange(t.pos, size) && d in dirs
    ensures forall u | u in StepTo(grid, isWall, size, t, d) :: u in StepsAlong(grid, isWall, size, t, dirs)
  {
    if dirs[|dirs| - 1] != d {
      assert d in dirs[..|dirs| - 1];
      StepsAlongHas(grid, isWall, size, t, dirs[..|dirs| - 1], d);
    }
  }

  /** The children of every node of `cells` are on the next level. */
  lemma {:induction false} ExpandHas<C>(grid: array4<C>, isWall: C -> bool, size: int, cells: seq<Trail>, t: Trail)
    requires size > 0 && Fits(grid, size) && AllInRange(cells, size) && t in cells
    ensures forall u | u in Children(grid, isWall, size, t) :: u in Expand(grid, isWall, size, cells)
    decreases |cells|
  {
    if cells[|cells| - 1] != t {
      assert t in cells[..|cells| - 1];
      ExpandHas(grid, isWall, size, cells[..|cells| - 1], t);
    }
  }

  /** Every trail the search can build over the open cells is on the level of its length. */
  lemma {:induction false} LevelComplete<C>(grid: array4<C>, isWall: C -> bool, size: int, origin: Pos, open: set<Pos>, t: Trail)
    requires size > 0 && Fits(grid, size) && OpenIs(grid, isWall, size, open)
    requires WellFormed(t, origin, open, size)
    ensures InRange(origin, size) && t in Level(grid, isWall, size, origin, Len(t))
  {
    match t
    case Origin(p) =>
    case Step(p, prev, back) =>
      LevelComplete(grid, isWall, size, origin, open, back);
      var d := Opp(prev);
      MoveBack(p, prev, size);
      OppInvolutive(prev);
      assert Move(back.pos, d, size) == p;
      assert t in StepTo(grid, isWall, size, back, d);
      AllDirsInOrder();
      StepsAlongHas(grid, isWall, size, back, Order, d);
      ExpandHas(grid, isWall, size, Level(grid, isWall, size, origin, Len(back)), back);
  }

  /** No open cell lies beyond the last non-empty level of the search. */
  lemma WithinLastLevel<C>(grid: array4<C>, isWall: C -> bool, size: int, origin: Pos, d: nat, x: Pos,
                           open: set<Pos>, root: Pos, par: map<Pos, Pos>, depth: map<Pos, nat>)
    requires Fits(grid, size) && IsTree(open, size, root, par, depth)
    requires OpenIs(grid, isWall, size, open) && origin in open && x in open
    requires Level(grid, isWall, size, origin, d + 1) == []
    ensures Rooted(open, size, root, par, depth)
    ensures Dist(open, size, root, par, depth, origin, x) <= d
  {
    TreePathJoins(open, size, root, par, depth, origin, x);
    var w := TreePath(open, size, root, par, depth, origin, x);
    TrailAlongWellFormed(w, origin, open, size);
    var t := TrailAlong(w, open, size);
    LevelComplete(grid, isWall, size, origin, open, t);
    if Len(t) > d {
      EmptyStaysEmpty(grid, isWall, size, origin, d + 1, Len(t));
    }
  }

  /** A node on level `d` of the search stands exactly `d` steps from the origin. */
  lemma LevelAtDist<C>(grid: array4<C>, isWall: C -> bool, size: int, origin: Pos, d: nat, far: Trail,
                       open: set<Pos>, root: Pos, par: map<Pos, Pos>, depth: map<Pos, nat>)
    requires Fits(grid, size) && IsTree(open, size, root, par, depth)
    requires OpenIs(grid, isWall, size, open) && origin in open
    requires far in Level(grid, isWall, size, origin, d)
    ensures Rooted(open, size, root, par, depth) && far.pos in open
    ensures Dist(open, size, root, par, depth, far.pos, origin) == d
  {
    TreeIsRooted(open, size, root, par, depth);
    LevelFacts(grid, isWall, size, origin, d, open, root, par, depth);
    ChainOfWellFormed(far, origin, open, size);
    WellFormedNoReturn(far, origin, open, size);
    ChainIsTreeWalk(open, size, root, par, depth, Chain(far));
    NoReturnLength(open, size, root, par, depth, Chain(far), far.pos, origin);
  }

  /** Every open cell is within `d` steps of the origin when level `d + 1` of the search is empty. */
  lemma LastLevelWithin<C>(grid: array4<C>, isWall: C -> bool, size: int, origin: Pos, d: nat,
                           open: set<Pos>, root: Pos, par: map<Pos, Pos>, depth: map<Pos, nat>)
    requires Fits(grid, size) && IsTree(open, size, root, par, depth)
    requires OpenIs(grid, isWall, size, open) && origin in open
    requires Level(grid, isWall, size, origin, d + 1) == []
    ensures forall x | x in open :: WithinSteps(origin, x, d, open, size)
  {
    forall x | x in open
      ensures WithinSteps(origin, x, d, open, size)
    {
      WithinLastLevel(grid, isWall, size, origin, d, x, open, root, par, depth);
      TreePathJoins(open, size, root, par, depth, origin, x);
      assert Joins(TreePath(open, size, root, par, depth, origin, x), origin, x, open, size);
    }
  }

  /** The cell of a node on level `d` of the search is exactly `d` steps from the origin. */
  lemma LevelApart<C>(grid: array4<C>, isWall: C -> bool, size: int, origin: Pos, d: nat, far: Trail,
                      open: set<Pos>, root: Pos, par: map<Pos, Pos>, depth: map<Pos, nat>)
    requires Fits(grid, size) && IsTree(open, size, root, par, depth)
    requires OpenIs(grid, isWall, size, open) && origin in open
    requires far in Level(grid, isWall, size, origin, d)
    ensures StepsApart(origin, far.pos, d, open, size)
  {
    LevelAtDist(grid, isWall, size, origin, d, far, open, root, par, depth);
    MeetFacts(open, size, root, par, depth, origin, far.pos);
    DistIsSteps(open, size, root, par, depth, origin, far.pos);
  }

  /** Seen from the root, the first search ends on a deepest cell. */
  lemma FirstSweepDeepest<C>(grid: array4<C>, isWall: C -> bool, size: int, d: nat, first: Trail,
                             open: set<Pos>, root: Pos, par: map<Pos, Pos>, depth: map<Pos, nat>)
    requires Fits(grid, size) && IsTree(open, size, root, par, depth) && OpenIs(grid, isWall, size, open)
    requires first in Level(grid, isWall, size, root, d) && Level(grid, isWall, size, root, d + 1) == []
    ensures first.pos in open && forall z | z in open :: depth[z] <= depth[first.pos]
  {
    LevelAtDist(grid, isWall, size, root, d, first, open, root, par, depth);
    MeetFacts(open, size, root, par, depth, root, first.pos);
    DistFromRoot(open, size, root, par, depth, first.pos);
    forall z | z in open
      ensures depth[z] <= depth[first.pos]
    {
      WithinLastLevel(grid, isWall, size, root, d, z, open, root, par, depth);
      DistFromRoot(open, size, root, par, depth, z);
    }
  }

  /** Seen from a deepest cell `a` whose search ends on level `d`, no two open cells are more than `d` steps apart. */
  lemma PairWithin<C>(grid: array4<C>, isWall: C -> bool, size: int, a: Pos, d: nat, p: Pos, q: Pos,
                      open: set<Pos>, root: Pos, par: map<Pos, Pos>, depth: map<Pos, nat>)
    requires Fits(grid, size) && IsTree(open, size, root, par, depth) && OpenIs(grid, isWall, size, open)
    requires a in open && p in open && q in open && forall z | z in open :: depth[z] <= depth[a]
    requires Level(grid, isWall, size, a, d + 1) == []
    ensures WithinSteps(p, q, d, open, size)
  {
    WithinLastLevel(grid, isWall, size, a, d, p, open, root, par, depth);
    WithinLastLevel(grid, isWall, size, a, d, q, open, root, par, depth);
    FromDeepest(open, size, root, par, depth, a, p, q);
    TreePathJoins(open, size, root, par, depth, p, q);
    assert Joins(TreePath(open, size, root, par, depth, p, q), p, q, open, size);
  }

  /**
   * `getLongestPath`'s two searches find a diameter of the maze: search
   * from the root to a farthest cell `a`, then from `a` to a farthest cell
   * `b`. Any two open cells are at most as far apart as `a` and `b`, and no
   * walk joins `a` and `b` in fewer steps than the second search took.
   */
  lemma DoubleSweep<C>(grid: array4<C>, isWall: C -> bool, size: int, d1: nat, first: Trail, d2: nat, far: Trail,
                       open: set<Pos>, root: Pos, par: map<Pos, Pos>, depth: map<Pos, nat>)
    requires Fits(grid, size) && IsTree(open, size, root, par, depth) && OpenIs(grid, isWall, size, open)
    requires first in Level(grid, isWall, size, root, d1) && Level(grid, isWall, size, root, d1 + 1) == []
    requires first.pos in open
    requires far in Level(grid, isWall, size, first.pos, d2) && Level(grid, isWall, size, first.pos, d2 + 1) == []
    ensures Diameter(first.pos, far.pos, d2, open, size)
  {
    FirstSweepDeepest(grid, isWall, size, d1, first, open, root, par, depth);
    forall p, q | p in open && q in open
      ensures WithinSteps(p, q, d2, open, size)
    {
      PairWithin(grid, isWall, size, first.pos, d2, p, q, open, root, par, depth);
    }
    LevelApart(grid, isWall, size, first.pos, d2, far, open, root, par, depth);
  }

  /** A cell on the last level of a search is the cell of a node of that level. */
  lemma LastLevelNode<C>(grid: array4<C>, isWall: C -> bool, size: int, origin: Pos, p: Pos)
    returns (d: nat, t: Trail)
    requires size > 0 && Fits(grid, size) && InRange(origin, size)
    requires OnLastLevel(grid, isWall, size, origin, p)
    ensures t in Level(grid, isWall, size, origin, d) && Level(grid, isWall, size, origin, d + 1) == []
    ensures t.pos == p
  {
    d, t :| t in Level(grid, isWall, size, origin, d) && t.pos == p && Level(grid, isWall, size, origin, d + 1) == [];
  }

  /** An unwound farthest trail is a node of the last level, `|path| - 1` steps out, that ends at the walk's first cell. */
  lemma UnwoundNode<C>(grid: array4<C>, isWall: C -> bool, size: int, origin: Pos, path: seq<Pos>)
    returns (n: nat, t: Trail)
    requires size > 0 && Fits(grid, size) && InRange(origin, size)
    requires UnwoundFarthest(grid, isWall, size, origin, path)
    ensures n == |path| - 1 && t.pos == path[0]
    ensures t in Level(grid, isWall, size, origin, n) && Level(grid, isWall, size, origin, n + 1) == []
  {
    n := |path| - 1;
    t :| t in Level(grid, isWall, size, origin, n) && Chain(t) == path;
  }

  /**
   * The two facts a result of `getLongestPath` keeps are enough to make its
   * ends a farthest pair: its last cell is on the last level of the search
   * from the root, and read from the front it is a trail of the last level
   * of the search from that cell.
   */
  lemma UnwoundIsDiameter<C>(grid: array4<C>, isWall: C -> bool, size: int, start: Pos,
                             open: set<Pos>, par: map<Pos, Pos>, depth: map<Pos, nat>, path: seq<Pos>)
    requires Fits(grid, size) && InRange(start, size) && IsTree(open, size, start, par, depth)
    requires OpenIs(grid, isWall, size, open)
    requires path != [] && InRange(path[|path| - 1], size) && path[|path| - 1] in open
    requires UnwoundFarthest(grid, isWall, size, path[|path| - 1], path)
    requires OnLastLevel(grid, isWall, size, start, path[|path| - 1])
    ensures Diameter(path[|path| - 1], path[0], |path| - 1, open, size)
  {
    var d1, first := LastLevelNode(grid, isWall, size, start, path[|path| - 1]);
    var n, far := UnwoundNode(grid, isWall, size, first.pos, path);
    DoubleSweep(grid, isWall, size, d1, first, n, far, open, start, par, depth);
  }

  /**
   * What `getLongestPath` returns, from the facts of its two searches: the
   * unwound trail of the second search is a walk of distinct open cells
   * from a farthest cell back to the first search's farthest cell, at least
   * two cells long when there is a second open cell, and its ends are a
   * farthest pair.
   */
  lemma SweepPath<C>(grid: array4<C>, isWall: C -> bool, size: int, start: Pos, d1: nat, first: Trail, d2: nat, far: Trail,
                     open: set<Pos>, par: map<Pos, Pos>, depth: map<Pos, nat>, path: seq<Pos>)
    requires Fits(grid, size) && IsTree(open, size, start, par, depth) && OpenIs(grid, isWall, size, open)
    requires first in Level(grid, isWall, size, start, d1) && Level(grid, isWall, size, start, d1 + 1) == []
    requires first.pos in open
    requires far in Level(grid, isWall, size, first.pos, d2) && Level(grid, isWall, size, first.pos, d2 + 1) == []
    requires WellFormed(far, first.pos, open, size) && Len(far) == d2 && path == Chain(far)
    ensures path != [] && InRange(path[|path| - 1], size)
    ensures UnwoundFarthest(grid, isWall, size, path[|path| - 1], path)
    ensures OnLastLevel(grid, isWall, size, start, path[|path| - 1])
    ensures IsChain(path, open, size) && AllDistinct(path)
    ensures |open| >= 2 ==> |path| >= 2
    ensures Diameter(path[|path| - 1], path[0], |path| - 1, open, size)
  {
    var origin := first.pos;
    UnwoundLastLevel(grid, isWall, size, origin, far, d2, open, start, par, depth, path);
    LastLevelCell(grid, isWall, size, start, first, d1, path[|path| - 1]);
    DoubleSweep(grid, isWall, size, d1, first, d2, far, open, start, par, depth);
    if |open| >= 2 {
      var other := AnotherMember(open, origin);
      var dir := OpenNeighbour(open, size, start, par, depth, origin, other);
      LastLevelPastOrigin(grid, isWall, size, origin, dir, d2);
    }
  }
}
