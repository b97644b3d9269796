/**
 * The discrete game rules of the page script (webgl.js and its TypeScript
 * revision src/webgl.ts): the route taken from the longest path, the tags
 * `mark_route` writes along it, `reverse`, `getStartAnaAxis`, and the
 * `update_cell` closure, whose captured variables become the fields of
 * `Session`.
 *
 * Cell tags: 0 open, 1 a route cell still to visit, 4 a route cell between
 * two 1s when laps skip cells, 2 the end of the route, 3 a cell the player
 * marked, 255 a wall.
 */
module Webgl {
  import opened Grid
  import opened Search
  import opened Walks
  import opened MazeJs

  /** `SIZE`, the side of the maze both revisions build. */
  const Size := 3

  // ---------------------------------------------------------------------------
  // Routes

  /** `{start, path, end}`: the two ends of the route and the cells between them. */
  datatype Route = Route(start: Pos, path: seq<Pos>, end: Pos)

  /** The whole route, from `start` to `end`. */
  function Cells(r: Route): seq<Pos>
  {
    [r.start] + r.path + [r.end]
  }

  /** Every cell of the route lies on the grid. */
  predicate OnGrid(r: Route, size: int)
  {
    InRange(r.start, size) && InRange(r.end, size) && forall i | 0 <= i < |r.path| :: InRange(r.path[i], size)
  }

  /** No cell occurs twice on the route. */
  predicate Simple(r: Route)
  {
    forall i, j | 0 <= i < j < |Cells(r)| :: Cells(r)[i] != Cells(r)[j]
  }

  /** Every cell of the route is one of `open`. */
  predicate Within(r: Route, open: set<Pos>)
  {
    forall i | 0 <= i < |Cells(r)| :: Cells(r)[i] in open
  }

  /**
   * `end` lies on the last level of the search from the maze's start, and
   * the route is, read backwards, a trail of the last level of the search
   * from `end`. Its ends are a farthest pair of the maze: no two open cells
   * are more steps apart than the route has, and no walk joins `end` to
   * `start` in fewer.
   */
  ghost predicate Farthest(maze: Maze, route: Route)
    reads maze, maze.grid
    requires maze.Valid() && InRange(route.end, maze.size)
  {
    && UnwoundFarthest(maze.grid, IsWall, maze.size, route.end, Cells(route))
    && OnLastLevel(maze.grid, IsWall, maze.size, maze.start, route.end)
    && Diameter(route.end, route.start, |Cells(route)| - 1, maze.open, maze.size)
  }

  /**
   * `get_route`: the longest path with its first cell shifted off as
   * `start` and its last popped off as `end`. The route is a walk through
   * the maze that visits no cell twice, and the farthest one (`Farthest`).
   */
  method GetRoute(maze: Maze) returns (route: Route)
    requires maze.Perfect() && |maze.open| >= 2
    ensures IsChain(Cells(route), maze.open, maze.size) && Within(route, maze.open) && Simple(route)
    ensures OnGrid(route, maze.size) && InRange(maze.start, maze.size)
    ensures Farthest(maze, route)
  {
    var path := maze.GetLongestPath();
    route := Route(path[0], path[1..|path| - 1], path[|path| - 1]);
    SplitEnds(path);
    assert Cells(route) == path;
    forall i | 0 <= i < |route.path|
      ensures InRange(route.path[i], maze.size)
    {
      assert route.path[i] == path[i + 1];
    }
  }

  // ---------------------------------------------------------------------------
  // mark_route

  /** The tag `mark_route` gives path cell `i`: 1 on every `(skip+1)`-th cell, 4 elsewhere. */
  function Tag(i: int, skip: nat): (t: int)
    ensures t == 1 || t == 4
  {
    if (i + 1) % (skip + 1) == 0 then 1 else 4
  }

  /** With `skip == 0` every cell of the path is tagged 1. */
  lemma TagNoSkip(i: int)
    ensures Tag(i, 0) == 1
  {
  }

  /** The last index at which `q` occurs in `s`, or -1 when it does not occur. */
  function LastIndex(s: seq<Pos>, q: Pos): (r: int)
    ensures -1 <= r < |s|
    ensures r == -1 <==> q !in s
    ensures r >= 0 ==> s[r] == q && forall k | r < k < |s| :: s[k] != q
  {
    if s == [] then -1
    else if s[|s| - 1] == q then |s| - 1
    else
      var r := LastIndex(s[..|s| - 1], q);
      assert q in s ==> q in s[..|s| - 1] by {
        if q in s {
          var k :| 0 <= k < |s| && s[k] == q;
          assert s[..|s| - 1][k] == q;
        }
      }
      r
  }

  /** The value at `q`, which held `v`, once each cell of `path` got its tag, later writes winning. */
  function Retagged(path: seq<Pos>, skip: nat, q: Pos, v: int): int
  {
    var j := LastIndex(path, q);
    if j >= 0 then Tag(j, skip) else v
  }

  /**
   * The value `mark_route` leaves at `q`, which held `v`: the start becomes
   * 0, then the end 2, then each path cell its tag.
   */
  function Marked(r: Route, skip: nat, q: Pos, v: int): int
  {
    Retagged(r.path, skip, q, if q == r.end then 2 else if q == r.start then 0 else v)
  }

  /** The path of a route without repeats holds no cell twice. */
  lemma SimplePathDistinct(r: Route)
    requires Simple(r)
    ensures forall a, b | 0 <= a < b < |r.path| :: r.path[a] != r.path[b]
    ensures r.start !in r.path && r.end !in r.path && r.start != r.end
  {
    var c := Cells(r);
    forall a, b | 0 <= a < b < |r.path|
      ensures r.path[a] != r.path[b]
    {
      assert c[a + 1] == r.path[a] && c[b + 1] == r.path[b];
    }
    forall k | 0 <= k < |r.path|
      ensures r.path[k] != r.start && r.path[k] != r.end
    {
      assert c[k + 1] == r.path[k] && c[0] == r.start && c[|c| - 1] == r.end;
    }
    assert c[0] == r.start && c[|c| - 1] == r.end;
  }

  /**
   * On a route without repeated cells, marking tags the start 0, the end
   * 2 and path cell `i` with `Tag(i, skip)`, and leaves every other cell
   * as it was.
   */
  lemma MarkedSimple(r: Route, skip: nat, q: Pos, v: int)
    requires Simple(r)
    ensures q == r.start ==> Marked(r, skip, q, v) == 0
    ensures q == r.end ==> Marked(r, skip, q, v) == 2
    ensures forall i | 0 <= i < |r.path| && q == r.path[i] :: Marked(r, skip, q, v) == Tag(i, skip)
    ensures q !in Cells(r) ==> Marked(r, skip, q, v) == v
  {
    SimplePathDistinct(r);
    if q !in Cells(r) {
      forall k | 0 <= k < |r.path|
        ensures r.path[k] != q
      {
        assert Cells(r)[k + 1] == r.path[k];
      }
    }
  }

  /** Tagging one more path cell changes the outcome at that cell only. */
  lemma RetaggedStep(path: seq<Pos>, skip: nat, i: int, q: Pos, v: int)
    requires 0 <= i < |path|
    ensures Retagged(path[..i + 1], skip, q, v) == if q == path[i] then Tag(i, skip) else Retagged(path[..i], skip, q, v)
  {
    assert path[..i + 1][..i] == path[..i];
  }

  /** One step of `mark_route`'s `forEach`: path cell `i` gets its tag. */
  method MarkCell(maze: Maze, path: seq<Pos>, skip: nat, i: int, ghost keeps: bool)
    requires maze.Valid() && 0 <= i < |path| && InRange(path[i], maze.size)
    requires keeps ==> maze.Perfect() && path[i] in maze.open
    modifies maze.grid
    ensures maze.Valid() && (keeps ==> maze.Perfect())
    ensures forall q | InRange(q, maze.size) ::
      At(maze.grid, q) == if q == path[i] then Tag(i, skip) else old(At(maze.grid, q))
  {
    var p := path[i];
    assert maze.Get(p.x, p.y, p.z, p.w) == At(maze.grid, p);
    assert keeps ==> !IsWall(maze.Get(p.x, p.y, p.z, p.w));
    var _ := maze.Set(p.x, p.y, p.z, p.w, if (i + 1) % (skip + 1) == 0 then 1 else 4);
  }

  /**
   * `mark_route` on a maze (the camera calls are drawing): every cell ends
   * up as `Marked` says, so only cells of the route change; and since no
   * tag is a wall, a perfect maze whose route runs through open cells stays
   * perfect.
   */
  method MarkRoute(maze: Maze, route: Route, skip: nat)
    requires maze.Valid() && OnGrid(route, maze.size)
    modifies maze.grid
    ensures maze.Valid()
    ensures forall q | InRange(q, maze.size) :: At(maze.grid, q) == Marked(route, skip, q, old(At(maze.grid, q)))
    ensures old(maze.Perfect()) && Within(route, maze.open) ==> maze.Perfect()
  {
    ghost var keeps := maze.Perfect() && Within(route, maze.open);
    if keeps {
      WithinParts(route, maze.open);
    }
    var start, path, end := route.start, route.path, route.end;
    MarkEnds(maze, start, end, keeps);
    label Ends:
    MarkPath(maze, path, skip, keeps);
    forall q | InRange(q, maze.size)
      ensures At(maze.grid, q) == Marked(route, skip, q, old(At(maze.grid, q)))
    {
      var v1 := old@Ends(At(maze.grid, q));
      assert v1 == if q == end then 2 else if q == start then 0 else old(At(maze.grid, q));
      assert At(maze.grid, q) == Retagged(path, skip, q, v1);
    }
  }

  /** The cells of a route inside `open`, one by one. */
  lemma WithinParts(r: Route, open: set<Pos>)
    requires Within(r, open)
    ensures r.start in open && r.end in open && forall i | 0 <= i < |r.path| :: r.path[i] in open
  {
    assert Cells(r)[0] == r.start && Cells(r)[|Cells(r)| - 1] == r.end;
    forall i | 0 <= i < |r.path|
      ensures r.path[i] in open
    {
      assert Cells(r)[i + 1] == r.path[i];
    }
  }

  /** `mark_route`'s first two writes: 0 at the start, then 2 at the end. */
  method MarkEnds(maze: Maze, start: Pos, end: Pos, ghost keeps: bool)
    requires maze.Valid() && InRange(start, maze.size) && InRange(end, maze.size)
    requires keeps ==> maze.Perfect() && start in maze.open && end in maze.open
    modifies maze.grid
    ensures maze.Valid() && (keeps ==> maze.Perfect())
    ensures forall q | InRange(q, maze.size) ::
      At(maze.grid, q) == if q == end then 2 else if q == start then 0 else old(At(maze.grid, q))
  {
    assert maze.Get(start.x, start.y, start.z, start.w) == At(maze.grid, start);
    assert keeps ==> !IsWall(maze.Get(start.x, start.y, start.z, start.w));
    var _ := maze.Set(start.x, start.y, start.z, start.w, 0);
    assert maze.Get(end.x, end.y, end.z, end.w) == At(maze.grid, end);
    assert keeps ==> !IsWall(maze.Get(end.x, end.y, end.z, end.w));
    var _ := maze.Set(end.x, end.y, end.z, end.w, 2);
  }

  /** `mark_route`'s `forEach` over the path. */
  method MarkPath(maze: Maze, path: seq<Pos>, skip: nat, ghost keeps: bool)
    requires maze.Valid() && forall i | 0 <= i < |path| :: InRange(path[i], maze.size)
    requires keeps ==> maze.Perfect() && forall i | 0 <= i < |path| :: path[i] in maze.open
    modifies maze.grid
    ensures maze.Valid() && (keeps ==> maze.Perfect())
    ensures forall q | InRange(q, maze.size) :: At(maze.grid, q) == Retagged(path, skip, q, old(At(maze.grid, q)))
  {
    var i := 0;
    while i < |path|
      invariant 0 <= i <= |path| && maze.Valid() && (keeps ==> maze.Perfect())
      invariant forall q {:trigger At(maze.grid, q)} | InRange(q, maze.size) ::
        At(maze.grid, q) == Retagged(path[..i], skip, q, old(At(maze.grid, q)))
    {
      MarkCell(maze, path, skip, i, keeps);
      forall q | InRange(q, maze.size)
        ensures At(maze.grid, q) == Retagged(path[..i + 1], skip, q, old(At(maze.grid, q)))
      {
        RetaggedStep(path, skip, i, q, old(At(maze.grid, q)));
      }
      i := i + 1;
    }
    assert path[..i] == path;
  }

  // ---------------------------------------------------------------------------
  // reverse

  /** The route walked the other way: the ends swap and the path reads backwards. */
  function Reversal(r: Route): (r': Route)
    ensures r'.start == r.end && r'.end == r.start
    ensures |r'.path| == |r.path| && forall i | 0 <= i < |r.path| :: r'.path[i] == r.path[|r.path| - 1 - i]
  {
    Route(r.end, Reversed(r.path), r.start)
  }

  /** Reversing twice gives back the route. */
  lemma ReversalInvolutive(r: Route)
    ensures Reversal(Reversal(r)) == r
  {
    var p := Reversal(Reversal(r)).path;
    assert |p| == |r.path|;
    forall i | 0 <= i < |p|
      ensures p[i] == r.path[i]
    {
      assert Reversal(r).path[|r.path| - 1 - i] == r.path[i];
    }
  }

  /** The reversed route runs through the same cells, backwards. */
  lemma ReversalCells(r: Route)
    ensures Cells(Reversal(r)) == Reversed(Cells(r))
  {
    var a, b := Cells(Reversal(r)), Reversed(Cells(r));
    assert |a| == |b|;
    forall i | 0 <= i < |a|
      ensures a[i] == b[i]
    {
      if 0 < i < |a| - 1 {
        assert a[i] == Reversal(r).path[i - 1];
      }
    }
  }

  /** A reversed route stays on the grid. */
  lemma ReversalOnGrid(r: Route, size: int)
    requires OnGrid(r, size)
    ensures OnGrid(Reversal(r), size)
  {
    forall i | 0 <= i < |r.path|
      ensures InRange(Reversal(r).path[i], size)
    {
      assert Reversal(r).path[i] == r.path[|r.path| - 1 - i];
    }
  }

  lemma ReversalKeeps(r: Route, size: int, open: set<Pos>)
    ensures OnGrid(r, size) ==> OnGrid(Reversal(r), size)
    ensures Within(r, open) ==> Within(Reversal(r), open)
    ensures Simple(r) ==> Simple(Reversal(r))
  {
    ReversalCells(r);
    var c := Cells(r);
    var n := |c|;
    if OnGrid(r, size) {
      forall i | 0 <= i < |r.path|
        ensures InRange(Reversal(r).path[i], size)
      {
        assert Reversal(r).path[i] == r.path[|r.path| - 1 - i];
      }
    }
    if Within(r, open) {
      forall i | 0 <= i < n
        ensures Cells(Reversal(r))[i] in open
      {
        assert Cells(Reversal(r))[i] == c[n - 1 - i];
      }
    }
    if Simple(r) {
      forall i, j | 0 <= i < j < n
        ensures Cells(Reversal(r))[i] != Cells(Reversal(r))[j]
      {
        assert Cells(Reversal(r))[i] == c[n - 1 - i] && Cells(Reversal(r))[j] == c[n - 1 - j];
      }
    }
  }

  /**
   * After `reverse`, on a route without repeats, the old end is the new
   * start and is tagged 0, the old start is tagged 2, and old path cell
   * `i` gets the tag of position `|path| - 1 - i`.
   */
  lemma ReversedMarking(r: Route, skip: nat, v: int)
    requires Simple(r)
    ensures Marked(Reversal(r), skip, r.end, v) == 0
    ensures Marked(Reversal(r), skip, r.start, v) == 2
    ensures forall i | 0 <= i < |r.path| :: Marked(Reversal(r), skip, r.path[i], v) == Tag(|r.path| - 1 - i, skip)
  {
    ReversalKeeps(r, 0, {});
    MarkedSimple(Reversal(r), skip, r.end, v);
    MarkedSimple(Reversal(r), skip, r.start, v);
    forall i | 0 <= i < |r.path|
      ensures Marked(Reversal(r), skip, r.path[i], v) == Tag(|r.path| - 1 - i, skip)
    {
      var j := |r.path| - 1 - i;
      assert Reversal(r).path[j] == r.path[i];
      MarkedSimple(Reversal(r), skip, r.path[i], v);
    }
  }

  // ---------------------------------------------------------------------------
  // getStartAnaAxis

  /** A number in `[k*s, (k+1)*s)` leaves `b - k*s` over after division by `s`. */
  lemma ModInBand(b: int, s: int, k: int)
    requires s > 0 && k * s <= b < (k + 1) * s
    ensures b % s == b - k * s
  {
    var q, r := b / s, b % s;
    assert b == q * s + r && 0 <= r < s;
    assert (q - k) * s == b - r - k * s;
    ZeroFactor(q - k, s);
  }

  /** The only multiple of `s` strictly between `-s` and `s` is 0. */
  lemma ZeroFactor(d: int, s: int)
    requires s > 0 && -s < d * s < s
    ensures d == 0
  {
    assert d >= 1 ==> d * s >= s;
    assert d <= -1 ==> d * s <= -s;
  }

  /** The source's `(a+1)%size`, `(a+1+size)%size` and `(a-1+size)%size` on a coordinate of the grid. */
  lemma WrapSteps(a: int, s: int)
    requires 0 <= a < s
    ensures (a + 1) % s == Inc(a, s) && (a + 1 + s) % s == Inc(a, s) && (a - 1 + s) % s == Dec(a, s)
  {
    if a + 1 < s {
      ModInBand(a + 1, s, 0);
      ModInBand(a + 1 + s, s, 1);
    } else {
      ModInBand(a + 1, s, 1);
      ModInBand(a + 1 + s, s, 2);
    }
    if a == 0 {
      ModInBand(a - 1 + s, s, 0);
    } else {
      ModInBand(a - 1 + s, s, 1);
    }
  }

  /**
   * `getStartAnaAxis` as written: 'x' when the +x neighbour is tagged 1
   * (both operands of the first test name the +x neighbour), else 'y' or
   * 'z' when either neighbour on that axis is, else 'w'.
   */
  function AnaAxisAsWritten(maze: Maze, p: Pos): (a: char)
    requires maze.Valid() && InRange(p, maze.size)
    reads maze, maze.grid
    ensures a == 'x' <==> At(maze.grid, Move(p, R, maze.size)) == 1
    ensures a == 'y' <==> a != 'x' && (At(maze.grid, Move(p, U, maze.size)) == 1 || At(maze.grid, Move(p, D, maze.size)) == 1)
    ensures a == 'z' <==> a != 'x' && a != 'y' && (At(maze.grid, Move(p, F, maze.size)) == 1 || At(maze.grid, Move(p, B, maze.size)) == 1)
    ensures a == 'w' <==> a != 'x' && a != 'y' && a != 'z'
  {
    var s := maze.size;
    WrapSteps(p.x, s); WrapSteps(p.y, s); WrapSteps(p.z, s);
    if maze.Get((p.x + 1) % s, p.y, p.z, p.w) == 1 || maze.Get((p.x + 1 + s) % s, p.y, p.z, p.w) == 1 then 'x'
    else if maze.Get(p.x, (p.y + 1) % s, p.z, p.w) == 1 || maze.Get(p.x, (p.y - 1 + s) % s, p.z, p.w) == 1 then 'y'
    else if maze.Get(p.x, p.y, (p.z + 1) % s, p.w) == 1 || maze.Get(p.x, p.y, (p.z - 1 + s) % s, p.w) == 1 then 'z'
    else 'w'
  }

  /** `getStartAnaAxis` as evidently intended: both neighbours on each axis are looked at. */
  function AnaAxis(maze: Maze, p: Pos): (a: char)
    requires maze.Valid() && InRange(p, maze.size)
    reads maze, maze.grid
    ensures a == 'x' <==> At(maze.grid, Move(p, R, maze.size)) == 1 || At(maze.grid, Move(p, L, maze.size)) == 1
    ensures a == 'y' <==> a != 'x' && (At(maze.grid, Move(p, U, maze.size)) == 1 || At(maze.grid, Move(p, D, maze.size)) == 1)
    ensures a == 'z' <==> a != 'x' && a != 'y' && (At(maze.grid, Move(p, F, maze.size)) == 1 || At(maze.grid, Move(p, B, maze.size)) == 1)
    ensures a == 'w' <==> a != 'x' && a != 'y' && a != 'z'
  {
    var s := maze.size;
    WrapSteps(p.x, s); WrapSteps(p.y, s); WrapSteps(p.z, s);
    if maze.Get((p.x + 1) % s, p.y, p.z, p.w) == 1 || maze.Get((p.x - 1 + s) % s, p.y, p.z, p.w) == 1 then 'x'
    else if maze.Get(p.x, (p.y + 1) % s, p.z, p.w) == 1 || maze.Get(p.x, (p.y - 1 + s) % s, p.z, p.w) == 1 then 'y'
    else if maze.Get(p.x, p.y, (p.z + 1) % s, p.w) == 1 || maze.Get(p.x, p.y, (p.z - 1 + s) % s, p.w) == 1 then 'z'
    else 'w'
  }

  /**
   * The two differ exactly when the route leaves the start along -x and
   * the +x neighbour is not tagged 1: the written test then falls through
   * to another axis.
   */
  lemma AnaAxisMissesMinusX(maze: Maze, p: Pos)
    requires maze.Valid() && InRange(p, maze.size)
    ensures AnaAxisAsWritten(maze, p) != AnaAxis(maze, p) <==>
      At(maze.grid, Move(p, L, maze.size)) == 1 && At(maze.grid, Move(p, R, maze.size)) != 1
  {
  }

  // ---------------------------------------------------------------------------
  // The player's cell

  /** JavaScript's `%` on integers: the remainder takes the sign of the dividend. */
  function Rem(a: int, n: int): (r: int)
    requires n > 0
    ensures a >= 0 ==> r == a % n
    ensures a < 0 ==> r == -((-a) % n)
  {
    if a >= 0 then a % n else -((-a) % n)
  }

  /**
   * `((floor(p) % size) + size) % size`: the coordinate `f` wrapped onto the
   * grid, which is `f` modulo `size` in `[0, size)` for negative `f` too.
   */
  function CellCoord(f: int, size: int): (c: int)
    requires size > 0
    ensures 0 <= c < size && c == f % size
  {
    var c := Rem(Rem(f, size) + size, size);
    if f >= 0 then
      ModInBand(f % size + size, size, 1);
      c
    else
      var q, t := (-f) / size, (-f) % size;
      assert -f == q * size + t;
      if t == 0 then
        ModInBand(size, size, 1);
        ModInBand(f, size, -q);
        c
      else
        ModInBand(size - t, size, 0);
        ModInBand(f, size, -q - 1);
        c
  }

  /** The cell holding the point whose coordinates floor to `(fx, fy, fz, fw)`. */
  function CellOf(fx: int, fy: int, fz: int, fw: int): (c: Pos)
    ensures InRange(c, Size)
  {
    Pos(CellCoord(fx, Size), CellCoord(fy, Size), CellCoord(fz, Size), CellCoord(fw, Size))
  }

  // ---------------------------------------------------------------------------
  // update_cell

  /** What `update_cell` does to the cell the player is in. */
  datatype Action =
    | ReachEnd                      // entered the end of the route
    | Write(tag: int, counts: bool) // `map.set` of `tag`; `counts` when `progress` goes up
    | Idle                          // nothing; `update_cell` returns false

  /**
   * The tag rules: entering a cell tagged 2 ends the lap; entering a route
   * cell (1 or 4) tags it 3 when marking and 0 otherwise and counts it;
   * entering a 3 without marking clears it; staying in a cell that is not
   * 3 while marking tags it 3.
   */
  function CellAction(entering: bool, val: int, mark: bool): Action
  {
    if entering then
      if val == 2 then ReachEnd
      else if val == 1 || val == 4 then Write(if mark then 3 else 0, true)
      else if !mark && val == 3 then Write(0, false)
      else Idle
    else if mark && val != 3 then Write(3, false)
    else Idle
  }

  /** The only tags the rules write are 0 and 3, never a wall nor a route tag. */
  lemma WritesClearOrMark(entering: bool, val: int, mark: bool)
    ensures CellAction(entering, val, mark).Write? ==>
      CellAction(entering, val, mark).tag == 0 || CellAction(entering, val, mark).tag == 3
    ensures CellAction(entering, val, mark).Write? ==> CellAction(entering, val, mark).tag == if mark then 3 else 0
  {
  }

  /** Progress goes up exactly when a route cell (1 or 4) is entered. */
  lemma CountsRouteCells(entering: bool, val: int, mark: bool)
    ensures (CellAction(entering, val, mark).Write? && CellAction(entering, val, mark).counts) <==>
      entering && (val == 1 || val == 4)
  {
  }

  /**
   * A route cell counts once: whatever was written on entering it, coming
   * back to it later, marking or not, neither counts again nor ends a lap.
   */
  lemma CountsOnce(val: int, mark: bool, entering': bool, mark': bool)
    requires CellAction(true, val, mark).Write?
    ensures var v := CellAction(true, val, mark).tag;
      !(CellAction(entering', v, mark').Write? && CellAction(entering', v, mark').counts) &&
      CellAction(entering', v, mark') != ReachEnd
  {
    WritesClearOrMark(true, val, mark);
  }

  /** Holding the mark key settles: once the cell is written, staying in it does nothing more. */
  lemma MarkSettles(entering: bool, val: int)
    requires CellAction(entering, val, true).Write?
    ensures CellAction(false, CellAction(entering, val, true).tag, true) == Idle
  {
    WritesClearOrMark(entering, val, true);
  }

  datatype Option<T> = None | Some(value: T)

  /** What `update_cell` returns, or the error it throws. */
  datatype Outcome = Returned(changed: bool) | Threw(message: string)

  /**
   * A maze ready for its first lap: a route through the open cells of a
   * maze of side `SIZE`, marked with skip 0 on the freshly carved grid.
   */
  ghost predicate Grown(maze: Maze)
    reads maze
  {
    IsTree(maze.open, Size, maze.start, maze.par, maze.depth)
  }

  ghost predicate Started(maze: Maze, route: Route)
    reads maze, maze.grid
  {
    && maze.Valid() && Grown(maze) && maze.size == Size
    && Within(route, maze.open) && Simple(route)
    && IsChain(Cells(route), maze.open, Size) && OnGrid(route, Size)
    && forall q {:trigger At(maze.grid, q)} | InRange(q, Size) :: At(maze.grid, q) == Marked(route, 0, q, if q in maze.open then 0 else WallVal)
  }

  /**
   * What a started maze holds: the route's start reads 0, its end 2 and
   * every path cell 1 (the first lap skips nothing); every other open cell
   * reads 0 and every wall 255.
   */
  lemma StartedMarks(maze: Maze, route: Route)
    requires Started(maze, route)
    ensures At(maze.grid, route.start) == 0 && At(maze.grid, route.end) == 2
    ensures forall i | 0 <= i < |route.path| :: At(maze.grid, route.path[i]) == 1
    ensures forall q | InRange(q, Size) && q !in Cells(route) :: At(maze.grid, q) == if q in maze.open then 0 else WallVal
  {
    MarkedSimple(route, 0, route.start, if route.start in maze.open then 0 else WallVal);
    MarkedSimple(route, 0, route.end, if route.end in maze.open then 0 else WallVal);
    forall i | 0 <= i < |route.path|
      ensures At(maze.grid, route.path[i]) == 1
    {
      var q := route.path[i];
      MarkedSimple(route, 0, q, if q in maze.open then 0 else WallVal);
      TagNoSkip(i);
    }
    forall q | InRange(q, Size) && q !in Cells(route)
      ensures At(maze.grid, q) == if q in maze.open then 0 else WallVal
    {
      MarkedSimple(route, 0, q, if q in maze.open then 0 else WallVal);
    }
  }

  /** A new maze with its route marked for the first lap: what `main` and `reset` build first. */
  method NewGame(start: Pos) returns (maze: Maze, route: Route)
    requires InRange(start, Size)
    ensures fresh(maze) && fresh(maze.grid) && maze.Valid() && maze.size == Size && OnGrid(route, Size)
    ensures Started(maze, route) == true
  {
    maze := new Maze(Size, start);
    route := FirstLap(maze);
  }

  /** The first lap on a freshly carved maze: take the route and mark it with no cells skipped. */
  method FirstLap(maze: Maze) returns (route: Route)
    requires maze.Perfect() && |maze.open| >= 2 && maze.size == Size
    requires forall p | InRange(p, Size) :: maze.Get(p.x, p.y, p.z, p.w) == if p in maze.open then 0 else WallVal
    modifies maze.grid
    ensures maze.Valid() && OnGrid(route, Size) && Started(maze, route)
  {
    route := GetRoute(maze);
    MarkRoute(maze, route, 0);
    forall q | InRange(q, Size)
      ensures At(maze.grid, q) == Marked(route, 0, q, if q in maze.open then 0 else WallVal)
    {
      var v0 := old(At(maze.grid, q));
      assert v0 == old(maze.Get(q.x, q.y, q.z, q.w));
    }
  }

  /**
   * The state `update_cell` closes over in `main`: the maze and its route,
   * the cell the player was last seen in, the lap counter, the autopilot
   * switch and the overlay's progress and length.
   */
  class Session {
    var maze: Maze
    var route: Route
    var x: int
    var y: int
    var z: int
    var w: int
    var rounds: int
    /** The length of the closure's `path`: the first route's path, which `reverse` reverses in place. */
    const pathLength: int
    /** `player_control`: false while the autopilot steers. */
    var playerControl: bool
    /** The overlay's `progress` and `len`. */
    var progress: int
    var len: int
    /** The axis `getStartAnaAxis` chose for the player at the start. */
    const ana: char

    ghost predicate Valid()
      reads this, maze
    {
      && maze.Valid() && maze.size == Size && OnGrid(route, Size)
      && InRange(Pos(x, y, z, w), Size) && 0 <= rounds <= pathLength
    }

    /** `main`'s set-up: a maze from `start` with its first lap marked, the player at the start. */
    constructor (start: Pos)
      requires InRange(start, Size)
      ensures Valid() && fresh(maze) && fresh(maze.grid) && Started(maze, route) == true
      ensures Pos(x, y, z, w) == route.start && rounds == 0 && pathLength == |route.path|
      ensures !playerControl && progress == 0 && len == |route.path| + 1
      ensures ana == AnaAxisAsWritten(maze, route.start)
    {
      var m, r := NewGame(start);
      maze, route := m, r;
      rounds := 0;
      x, y, z, w := r.start.x, r.start.y, r.start.z, r.start.w;
      pathLength := |r.path|;
      ana := AnaAxisAsWritten(m, r.start);
      progress, len := 0, |r.path| + 1;
      playerControl := false;
    }

    /**
     * The part of `update_cell` both revisions share, once the player's
     * cell `c` is known: note it when it is a new one, and apply the tag
     * rules, short of what happens at the end of the route.
     */
    method Step(c: Pos, mark: bool) returns (act: Action)
      requires Valid() && InRange(c, Size)
      modifies this`x, this`y, this`z, this`w, this`progress, maze.grid
      ensures Valid() && maze == old(maze) && route == old(route) && rounds == old(rounds)
      ensures playerControl == old(playerControl) && len == old(len) && Pos(x, y, z, w) == c
      ensures act == CellAction(c != old(Pos(x, y, z, w)), old(At(maze.grid, c)), mark)
      ensures forall q | InRange(q, Size) :: At(maze.grid, q) == if act.Write? && q == c then act.tag else old(At(maze.grid, q))
      ensures progress == old(progress) + if act.Write? && act.counts then 1 else 0
    {
      var val := maze.Get(c.x, c.y, c.z, c.w);
      if c.x != x || c.y != y || c.z != z || c.w != w {
        x, y, z, w := c.x, c.y, c.z, c.w;
        if val == 2 {
          act := ReachEnd;
        } else if val == 1 || val == 4 {
          var nv := if mark then 3 else 0;
          Put(nv);
          progress := progress + 1;
          act := Write(nv, true);
        } else if !mark && val == 3 {
          Put(0);
          act := Write(0, false);
        } else {
          act := Idle;
        }
      } else if mark && val != 3 {
        Put(3);
        act := Write(3, false);
      } else {
        act := Idle;
      }
    }

    /** `map.set(x, y, z, w, v)` at the player's cell (the matching `camera.setCell` is drawing). */
    method Put(v: int)
      requires Valid()
      modifies maze.grid
      ensures forall q | InRange(q, Size) :: At(maze.grid, q) == if q == Pos(x, y, z, w) then v else old(At(maze.grid, q))
    {
      var _ := maze.Set(x, y, z, w, v);
    }

    /** `reverse`: walk the route the other way, mark it with `skip`, and zero the progress. */
    method Reverse(skip: nat)
      requires Valid()
      modifies this`route, this`progress, maze.grid
      ensures Valid() && maze == old(maze) && route == Reversal(old(route)) && progress == 0
      ensures rounds == old(rounds) && playerControl == old(playerControl) && len == old(len)
      ensures Pos(x, y, z, w) == old(Pos(x, y, z, w))
      ensures forall q | InRange(q, Size) :: At(maze.grid, q) == Marked(route, skip, q, old(At(maze.grid, q)))
    {
      var r := Reversal(route);
      ReversalOnGrid(route, Size);
      MarkRoute(maze, r, skip);
      route, progress := r, 0;
    }

    /** Another lap: `reverse` with skip `++rounds`, and back to the autopilot. */
    method NextLap()
      requires Valid() && rounds < pathLength
      modifies this`rounds, this`route, this`progress, this`playerControl, maze.grid
      ensures Valid() && maze == old(maze) && route == Reversal(old(route)) && progress == 0
      ensures rounds == old(rounds) + 1 && !playerControl && len == old(len)
      ensures Pos(x, y, z, w) == old(Pos(x, y, z, w))
      ensures forall q | InRange(q, Size) :: At(maze.grid, q) == Marked(route, rounds, q, old(At(maze.grid, q)))
    {
      rounds := rounds + 1;
      Reverse(rounds);
      playerControl := false;
    }
  
    /**
     * `update_cell` of the TypeScript revision, with the player at a point
     * whose coordinates floor to `(fx, fy, fz, fw)` and `mark` the mark
     * key's state: the tag rules, then at the end of the route another
     * lap while `rounds < path.length`, else the "not yet implemented" error
     * with nothing changed but the player's cell. The point is the player's
     * `pos`; the source reads `player.x` to `player.w`, fields its `Player`
     * does not have.
     */
    method UpdateCellTs(fx: int, fy: int, fz: int, fw: int, mark: bool) returns (o: Outcome, act: Action)
      requires Valid()
      modifies this, maze.grid
      ensures Valid() && maze == old(maze) && len == old(len) && Pos(x, y, z, w) == CellOf(fx, fy, fz, fw)
      ensures act == CellAction(CellOf(fx, fy, fz, fw) != old(Pos(x, y, z, w)), old(At(maze.grid, CellOf(fx, fy, fz, fw))), mark)
      ensures act != ReachEnd ==>
        && o == Returned(act != Idle) && route == old(route) && rounds == old(rounds) && playerControl == old(playerControl)
        && progress == old(progress) + (if act.Write? && act.counts then 1 else 0)
        && forall q | InRange(q, Size) :: At(maze.grid, q) == if act.Write? && q == CellOf(fx, fy, fz, fw) then act.tag else old(At(maze.grid, q))
      ensures act == ReachEnd && old(rounds) < pathLength ==>
        && o == Returned(true) && rounds == old(rounds) + 1 && route == Reversal(old(route)) && !playerControl && progress == 0
        && forall q | InRange(q, Size) :: At(maze.grid, q) == Marked(route, rounds, q, old(At(maze.grid, q)))
      ensures act == ReachEnd && old(rounds) >= pathLength ==>
        && o == Threw("Resetting is not yet implemented") && route == old(route) && rounds == old(rounds)
        && playerControl == old(playerControl) && progress == old(progress)
        && forall q | InRange(q, Size) :: At(maze.grid, q) == old(At(maze.grid, q))
    {
      var c := Pos(CellCoord(fx, maze.size), CellCoord(fy, maze.size), CellCoord(fz, maze.size), CellCoord(fw, maze.size));
      act := Step(c, mark);
      if act == ReachEnd {
        if rounds < pathLength {
          NextLap();
          o := Returned(true);
        } else {
          o := Threw("Resetting is not yet implemented");
        }
      } else {
        o := Returned(act != Idle);
      }
    }

    /**
     * `update_cell` of the JavaScript revision as evidently intended: at
     * the end of the last lap `rounds` goes back to 0 and `reset` starts a
     * new maze, drawn from `next`, whose start the player is moved to.
     * The closure's `path` still holds the first route's path, so later
     * laps are counted against its length. `fx` to `fw` are the floors of
     * the player's coordinates as `Player`'s fields were meant to hold
     * them; the player is built with one object where `Player` expects four
     * numbers (webgl.js:98-103, Player.js:3-8).
     */
    method UpdateCell(fx: int, fy: int, fz: int, fw: int, mark: bool, next: Pos) returns (o: Outcome, moved: Option<Pos>, act: Action)
      requires Valid() && InRange(next, Size)
      modifies this, maze.grid
      ensures Valid() && Pos(x, y, z, w) == CellOf(fx, fy, fz, fw)
      ensures act == CellAction(CellOf(fx, fy, fz, fw) != old(Pos(x, y, z, w)), old(At(maze.grid, CellOf(fx, fy, fz, fw))), mark)
      ensures act != ReachEnd ==>
        && o == Returned(act != Idle) && moved == None && maze == old(maze) && route == old(route) && len == old(len)
        && rounds == old(rounds) && playerControl == old(playerControl)
        && progress == old(progress) + (if act.Write? && act.counts then 1 else 0)
        && forall q | InRange(q, Size) :: At(maze.grid, q) == if act.Write? && q == CellOf(fx, fy, fz, fw) then act.tag else old(At(maze.grid, q))
      ensures act == ReachEnd && old(rounds) < pathLength ==>
        && o == Returned(true) && moved == None && maze == old(maze) && len == old(len)
        && rounds == old(rounds) + 1 && route == Reversal(old(route)) && !playerControl && progress == 0
        && forall q | InRange(q, Size) :: At(maze.grid, q) == Marked(route, rounds, q, old(At(maze.grid, q)))
      ensures act == ReachEnd && old(rounds) >= pathLength ==>
        && o == Returned(true) && moved == Some(route.start) && fresh(maze) && Started(maze, route)
        && rounds == 0 && !playerControl && progress == 0 && len == |route.path| + 1
    {
      var c := Pos(CellCoord(fx, maze.size), CellCoord(fy, maze.size), CellCoord(fz, maze.size), CellCoord(fw, maze.size));
      act := Step(c, mark);
      moved := None;
      if act == ReachEnd {
        if rounds < pathLength {
          NextLap();
        } else {
          rounds, playerControl := 0, false;
          moved := Reset(next);
        }
        o := Returned(true);
      } else {
        o := Returned(act != Idle);
      }
    }

    /**
     * `reset`, with `{map, route}` assigned back: a new maze and route
     * marked for the first lap, the overlay restarted, and the cell the
     * player is moved to (the start; its fractional position is kept).
     */
    method Reset(next: Pos) returns (moved: Option<Pos>)
      requires Valid() && InRange(next, Size)
      modifies this`maze, this`route, this`len, this`progress
      ensures Valid() && fresh(maze) && Started(maze, route) && moved == Some(route.start)
      ensures progress == 0 && len == |route.path| + 1
      ensures Pos(x, y, z, w) == old(Pos(x, y, z, w)) && rounds == old(rounds) && playerControl == old(playerControl)
    {
      var m, r := NewGame(next);
      maze, route, len, progress := m, r, |r.path| + 1, 0;
      moved := Some(r.start);
    }

    /**
     * `update_cell` of the JavaScript revision as written: on the last lap
     * `reset` builds and marks a new maze and restarts the overlay, but
     * assigning its result to the `const` bindings `map` and `route`
     * throws a TypeError, so this closure keeps the old maze and route
     * (and the autopilot switch) while the player is moved to the new
     * start. The coordinates are taken as meant, as in `UpdateCell`.
     */
    method UpdateCellAsWritten(fx: int, fy: int, fz: int, fw: int, mark: bool, next: Pos) returns (o: Outcome, moved: Option<Pos>, act: Action)
      requires Valid() && InRange(next, Size)
      modifies this, maze.grid
      ensures Valid() && maze == old(maze) && Pos(x, y, z, w) == CellOf(fx, fy, fz, fw)
      ensures act == CellAction(CellOf(fx, fy, fz, fw) != old(Pos(x, y, z, w)), old(At(maze.grid, CellOf(fx, fy, fz, fw))), mark)
      ensures act != ReachEnd ==>
        && o == Returned(act != Idle) && moved == None && route == old(route) && len == old(len)
        && rounds == old(rounds) && playerControl == old(playerControl)
        && progress == old(progress) + (if act.Write? && act.counts then 1 else 0)
        && forall q | InRange(q, Size) :: At(maze.grid, q) == if act.Write? && q == CellOf(fx, fy, fz, fw) then act.tag else old(At(maze.grid, q))
      ensures act == ReachEnd && old(rounds) < pathLength ==>
        && o == Returned(true) && moved == None && len == old(len)
        && rounds == old(rounds) + 1 && route == Reversal(old(route)) && !playerControl && progress == 0
        && forall q | InRange(q, Size) :: At(maze.grid, q) == Marked(route, rounds, q, old(At(maze.grid, q)))
      ensures act == ReachEnd && old(rounds) >= pathLength ==>
        && o == Threw("TypeError: Assignment to constant variable.") && moved.Some? && InRange(moved.value, Size)
        && route == old(route) && playerControl == old(playerControl) && rounds == 0 && progress == 0
        && forall q | InRange(q, Size) :: At(maze.grid, q) == old(At(maze.grid, q))
    {
      var c := Pos(CellCoord(fx, maze.size), CellCoord(fy, maze.size), CellCoord(fz, maze.size), CellCoord(fw, maze.size));
      act := Step(c, mark);
      moved := None;
      if act == ReachEnd {
        if rounds < pathLength {
          NextLap();
          o := Returned(true);
        } else {
          rounds := 0;
          moved := ResetDiscarded(next);
          o := Threw("TypeError: Assignment to constant variable.");
        }
      } else {
        o := Returned(act != Idle);
      }
    }
  
    /**
     * `reset` whose result is never assigned: the new maze and route are
     * built and marked (for the camera), the overlay restarts and the
     * player is moved to the new start, but this closure's maze and route
     * stay as they were.
     */
    method ResetDiscarded(next: Pos) returns (moved: Option<Pos>)
      requires Valid() && InRange(next, Size)
      modifies this
      ensures Valid() && maze == old(maze) && route == old(route) && moved.Some? && InRange(moved.value, Size)
      ensures progress == 0 && Pos(x, y, z, w) == old(Pos(x, y, z, w)) && rounds == old(rounds) && playerControl == old(playerControl)
    {
      var m, r := NewGame(next);
      len, progress := |r.path| + 1, 0;
      moved := Some(r.start);
    }
  }
}
