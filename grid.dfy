/**
 * The 4D cell lattice shared by both maze revisions: integer coordinates,
 * the eight axis moves with wraparound, the x-major cell numbering used by
 * `cellIndex`/`flatten`, and the "perfect maze" shape (a spanning tree of
 * open cells) that carving preserves.
 */
module Grid {

  /** A cell coordinate (the source's Vec4 used with integer components). */
  datatype Pos = Pos(x: int, y: int, z: int, w: int)

  /**
   * The eight directions under the source's letters: R/L are +x/-x, U/D are
   * +y/-y, F/B are +z/-z and A/K are +w/-w.
   */
  datatype Dir = R | L | U | D | F | B | A | K

  /** The direction that undoes `d`. */
  function Opp(d: Dir): (o: Dir)
    ensures o != d
  {
    match d
    case R => L case L => R
    case U => D case D => U
    case F => B case B => F
    case A => K case K => A
  }

  /** `(a+1)%size`, one step up an axis with wraparound. */
  function Inc(a: int, size: int): int
    requires size > 0
  {
    if 0 <= a < size then (if a + 1 == size then 0 else a + 1) else (a + 1) % size
  }

  /** `(a+size-1)%size`, one step down an axis with wraparound. */
  function Dec(a: int, size: int): int
    requires size > 0
  {
    if 0 <= a < size then (if a == 0 then size - 1 else a - 1) else (a + size - 1) % size
  }

  /** Stepping up from the last coordinate wraps to 0, otherwise adds one. */
  lemma IncWraps(a: int, size: int)
    requires 0 <= a < size
    ensures Inc(a, size) == if a + 1 == size then 0 else a + 1
  {
  }

  /** Stepping down from 0 wraps to `size-1`, otherwise subtracts one. */
  lemma DecWraps(a: int, size: int)
    requires 0 <= a < size
    ensures Dec(a, size) == if a == 0 then size - 1 else a - 1
  {
  }

  /** Every coordinate of `p` lies in `[0, size)`. */
  predicate InRange(p: Pos, size: int)
  {
    match p
    case Pos(x, y, z, w) => 0 <= x < size && 0 <= y < size && 0 <= z < size && 0 <= w < size
  }

  /** The neighbour of `p` in direction `d`, wrapped onto the torus. */
  function Move(p: Pos, d: Dir, size: int): (m: Pos)
    requires size > 0
    ensures InRange(p, size) ==> InRange(m, size)
  {
    match d
    case R => p.(x := Inc(p.x, size))
    case L => p.(x := Dec(p.x, size))
    case U => p.(y := Inc(p.y, size))
    case D => p.(y := Dec(p.y, size))
    case F => p.(z := Inc(p.z, size))
    case B => p.(z := Dec(p.z, size))
    case A => p.(w := Inc(p.w, size))
    case K => p.(w := Dec(p.w, size))
  }

  /** The eight neighbours in the order the carver tests them: R L U D F B A K. */
  function Neighbours(p: Pos, size: int): seq<Pos>
    requires size > 0
  {
    [Move(p, R, size), Move(p, L, size), Move(p, U, size), Move(p, D, size),
     Move(p, F, size), Move(p, B, size), Move(p, A, size), Move(p, K, size)]
  }

  /** `q` is one axis step from `p`, wraparound included. */
  predicate Adjacent(p: Pos, q: Pos, size: int)
    requires size > 0
  {
    q in Neighbours(p, size)
  }

  /** Moving keeps a cell on the grid. */
  lemma MoveInRange(p: Pos, d: Dir, size: int)
    requires InRange(p, size)
    ensures InRange(Move(p, d, size), size)
  {
    IncWraps(p.x, size); DecWraps(p.x, size);
    IncWraps(p.y, size); DecWraps(p.y, size);
    IncWraps(p.z, size); DecWraps(p.z, size);
    IncWraps(p.w, size); DecWraps(p.w, size);
  }

  /** Moving and moving back returns to the start. */
  lemma MoveBack(p: Pos, d: Dir, size: int)
    requires InRange(p, size)
    ensures Move(Move(p, d, size), Opp(d), size) == p
  {
    MoveInRange(p, d, size);
    var q := Move(p, d, size);
    IncWraps(p.x, size); DecWraps(p.x, size); IncWraps(q.x, size); DecWraps(q.x, size);
    IncWraps(p.y, size); DecWraps(p.y, size); IncWraps(q.y, size); DecWraps(q.y, size);
    IncWraps(p.z, size); DecWraps(p.z, size); IncWraps(q.z, size); DecWraps(q.z, size);
    IncWraps(p.w, size); DecWraps(p.w, size); IncWraps(q.w, size); DecWraps(q.w, size);
  }

  /**
   * With at least three cells per axis the eight neighbours are eight
   * different cells, none of them `p` itself. Below three, +1 and -1 meet.
   */
  lemma MovesDistinct(p: Pos, d1: Dir, d2: Dir, size: int)
    requires size >= 3 && InRange(p, size)
    ensures Move(p, d1, size) != p
    ensures d1 != d2 ==> Move(p, d1, size) != Move(p, d2, size)
  {
    IncWraps(p.x, size); DecWraps(p.x, size);
    IncWraps(p.y, size); DecWraps(p.y, size);
    IncWraps(p.z, size); DecWraps(p.z, size);
    IncWraps(p.w, size); DecWraps(p.w, size);
  }

  /** Two moved-to cells coincide exactly when the directions do. */
  lemma MoveInjective(p: Pos, d1: Dir, d2: Dir, size: int)
    requires size >= 3 && InRange(p, size)
    ensures Move(p, d1, size) == Move(p, d2, size) <==> d1 == d2
  {
    MovesDistinct(p, d1, d2, size);
  }

  /** The direction that leads from `p` to an adjacent `q`. */
  lemma DirectionTo(p: Pos, q: Pos, size: int) returns (d: Dir)
    requires size > 0 && Adjacent(p, q, size)
    ensures Move(p, d, size) == q
  {
    var ns := Neighbours(p, size);
    if q == ns[0] { d := R; } else if q == ns[1] { d := L; }
    else if q == ns[2] { d := U; } else if q == ns[3] { d := D; }
    else if q == ns[4] { d := F; } else if q == ns[5] { d := B; }
    else if q == ns[6] { d := A; } else { d := K; }
  }

  /** Every move lands on an adjacent cell. */
  lemma MoveAdjacent(p: Pos, d: Dir, size: int)
    requires size > 0
    ensures Adjacent(p, Move(p, d, size), size)
  {
  }

  /** Adjacency is symmetric on the grid. */
  lemma AdjacentSymmetric(p: Pos, q: Pos, size: int)
    requires InRange(p, size) && Adjacent(p, q, size)
    ensures Adjacent(q, p, size)
  {
    var d := DirectionTo(p, q, size);
    MoveBack(p, d, size);
    MoveAdjacent(q, Opp(d), size);
  }

  /** A cell on the wraparound grid touches the opposite face: coordinate 0 neighbours `size-1`. */
  lemma WrapAround(p: Pos, size: int)
    requires InRange(p, size) && p.x == 0
    ensures Adjacent(p, p.(x := size - 1), size)
  {
    DecWraps(p.x, size);
    assert Move(p, L, size) == p.(x := size - 1);
  }

  // ---------------------------------------------------------------------------
  // x-major numbering of cells (`cellIndex`): x*s^3 + y*s^2 + z*s + w.

  /** One Horner step `a*size + b`. */
  function Horner(a: int, b: int, size: int): int
  {
    a * size + b
  }

  /** Euclidean division undoes a Horner step. */
  lemma HornerSplit(a: int, b: int, size: int)
    requires 0 <= b < size
    ensures Horner(a, b, size) / size == a && Horner(a, b, size) % size == b
  {
    var n := a * size + b;
    assert (n / size - a) * size == b - n % size;
    MulZero(n / size - a, size);
  }

  lemma MulZero(k: int, size: int)
    requires size > 0 && -size < k * size < size
    ensures k == 0
  {
  }

  /** A Horner step of in-range digits stays in range. */
  lemma HornerBound(a: int, b: int, m: int, size: int)
    requires 0 <= a < m && 0 <= b < size
    ensures 0 <= Horner(a, b, size) < m * size
  {
    assert (m - 1 - a) * size >= 0;
    assert m * size == (m - 1) * size + size;
    assert a * size <= (m - 1) * size;
  }

  /** The numbering of `cellIndex` in Maze.js, x-major. */
  function CellIndex(p: Pos, size: int): int
  {
    p.x * (size * size * size) + p.y * (size * size) + p.z * size + p.w
  }

  function Pow4(size: int): int
  {
    size * size * size * size
  }

  lemma CellIndexHorner(p: Pos, size: int)
    ensures CellIndex(p, size) == Horner(Horner(Horner(p.x, p.y, size), p.z, size), p.w, size)
  {
    assert p.x * (size * size * size) == ((p.x * size) * size) * size;
    assert p.y * (size * size) == (p.y * size) * size;
  }

  /** The cell with number `i`: the inverse of `CellIndex`. */
  function CellAt(i: int, size: int): Pos
    requires size > 0
  {
    Pos(i / size / size / size, i / size / size % size, i / size % size, i % size)
  }

  /** Every in-range cell has a number in `[0, size^4)`. */
  lemma CellIndexInBounds(p: Pos, size: int)
    requires InRange(p, size)
    ensures 0 <= CellIndex(p, size) < Pow4(size)
  {
    CellIndexHorner(p, size);
    HornerBound(p.x, p.y, size, size);
    HornerBound(Horner(p.x, p.y, size), p.z, size * size, size);
    HornerBound(Horner(Horner(p.x, p.y, size), p.z, size), p.w, size * size * size, size);
  }

  /** Decoding a cell's number gives the cell back. */
  lemma CellAtIndex(p: Pos, size: int)
    requires InRange(p, size)
    ensures CellAt(CellIndex(p, size), size) == p
  {
    CellIndexHorner(p, size);
    var h1 := Horner(p.x, p.y, size);
    var h2 := Horner(h1, p.z, size);
    HornerSplit(h2, p.w, size);
    HornerSplit(h1, p.z, size);
    HornerSplit(p.x, p.y, size);
  }

  /** Every number in `[0, size^4)` decodes to an in-range cell whose number it is. */
  lemma IndexOfCellAt(i: int, size: int)
    requires size > 0 && 0 <= i < Pow4(size)
    ensures InRange(CellAt(i, size), size)
    ensures CellIndex(CellAt(i, size), size) == i
  {
    var q1 := i / size;
    var q2 := q1 / size;
    var q3 := q2 / size;
    QuotientBound(i, size * size * size, size);
    assert q1 < size * size * size;
    QuotientBound(q1, size * size, size);
    QuotientBound(q2, size, size);
    var p := CellAt(i, size);
    CellIndexHorner(p, size);
    HornerJoin(q2, size);
    HornerJoin(q1, size);
    HornerJoin(i, size);
  }

  /** Counting a full place of cells in `cellIndex` order carries into the next place. */
  lemma IndexCarry(p: Pos, size: int)
    ensures CellIndex(Pos(p.x, p.y, p.z, size), size) == CellIndex(Pos(p.x, p.y, p.z + 1, 0), size)
    ensures CellIndex(Pos(p.x, p.y, size, 0), size) == CellIndex(Pos(p.x, p.y + 1, 0, 0), size)
    ensures CellIndex(Pos(p.x, size, 0, 0), size) == CellIndex(Pos(p.x + 1, 0, 0, 0), size)
    ensures CellIndex(Pos(size, 0, 0, 0), size) == Pow4(size)
  {
    assert (p.z + 1) * size == p.z * size + size;
    assert (p.y + 1) * (size * size) == p.y * (size * size) + size * size;
    assert (p.x + 1) * (size * size * size) == p.x * (size * size * size) + size * size * size;
  }

  /** A full digit carries into the next place. */
  lemma HornerCarry(a: int, size: int)
    ensures Horner(a, size, size) == Horner(a + 1, 0, size)
  {
  }

  /** A Horner step rebuilds a number from its Euclidean quotient and remainder. */
  lemma HornerJoin(n: int, size: int)
    requires size > 0
    ensures Horner(n / size, n % size, size) == n
  {
  }

  lemma QuotientBound(i: int, m: int, size: int)
    requires size > 0 && 0 <= i < m * size
    ensures 0 <= i / size < m
  {
  }

  /** `CellIndex` is one-to-one on the grid. */
  lemma CellIndexInjective(p: Pos, q: Pos, size: int)
    requires InRange(p, size) && InRange(q, size)
    ensures CellIndex(p, size) == CellIndex(q, size) <==> p == q
  {
    if CellIndex(p, size) == CellIndex(q, size) {
      CellAtIndex(p, size);
      CellAtIndex(q, size);
    }
  }

  // ---------------------------------------------------------------------------
  // Perfect mazes: the open cells, read as a graph under Adjacent, form a tree.

  /** All cells of a `size^4` grid. */
  function AllCells(size: int): set<Pos>
  {
    set x, y, z, w | 0 <= x < size && 0 <= y < size && 0 <= z < size && 0 <= w < size :: Pos(x, y, z, w)
  }

  lemma InAllCells(p: Pos, size: int)
    ensures p in AllCells(size) <==> InRange(p, size)
  {
    if InRange(p, size) {
      assert p == Pos(p.x, p.y, p.z, p.w);
    }
  }

  /**
   * `open` is a tree rooted at `root`: every open cell other than the root
   * has an adjacent open parent one level nearer the root, and every
   * adjacency between two open cells is such a parent link (so there is no
   * other edge, hence no cycle).
   */
  ghost predicate IsTree(open: set<Pos>, size: int, root: Pos, par: map<Pos, Pos>, depth: map<Pos, nat>)
  {
    && size >= 3
    && root in open
    && (forall p {:trigger p in open} | p in open :: InRange(p, size))
    && depth.Keys == open
    && par.Keys == open - {root}
    && depth[root] == 0
    && (forall p | p in par :: par[p] in open && Adjacent(p, par[p], size) && depth[p] == depth[par[p]] + 1)
    && (forall p | p in open :: depth[p] < |open|)
    && (forall p, q {:trigger Adjacent(p, q, size)} | p in open && q in open && Adjacent(p, q, size) ::
          (p in par && par[p] == q) || (q in par && par[q] == p))
  }

  /** The tree made of the single cell `root`. */
  lemma SingletonTree(root: Pos, size: int)
    requires size >= 3 && InRange(root, size)
    ensures IsTree({root}, size, root, map[], map[root := 0])
  {
    forall p, q | p in {root} && q in {root} && Adjacent(p, q, size)
      ensures false
    {
      var d := DirectionTo(p, q, size);
      MovesDistinct(p, d, d, size);
    }
  }

  /**
   * Opening a wall cell `n` next to open `c`, when `c` is the only open cell
   * next to `n`, keeps the open cells a tree (with `c` as `n`'s parent).
   */
  lemma CarveKeepsTree(open: set<Pos>, size: int, root: Pos, par: map<Pos, Pos>, depth: map<Pos, nat>, c: Pos, n: Pos)
    requires IsTree(open, size, root, par, depth)
    requires c in open && InRange(n, size) && n !in open && Adjacent(c, n, size)
    requires forall q | q in open && Adjacent(n, q, size) :: q == c
    ensures IsTree(open + {n}, size, root, par[n := c], depth[n := depth[c] + 1])
  {
    var open', par', depth' := open + {n}, par[n := c], depth[n := depth[c] + 1];
    AdjacentSymmetric(c, n, size);
    CarveKeepsEdges(open, size, root, par, depth, c, n);
    assert |open'| == |open| + 1;
    forall p | p in par'
      ensures par'[p] in open' && Adjacent(p, par'[p], size) && depth'[p] == depth'[par'[p]] + 1
    {
      if p != n {
        assert p in par && par'[p] == par[p] && par[p] != n;
      }
    }
    forall p | p in open'
      ensures depth'[p] < |open'|
    {
    }
  }

  /** After the carve of `CarveKeepsTree`, every adjacency between open cells is still a parent link. */
  lemma CarveKeepsEdges(open: set<Pos>, size: int, root: Pos, par: map<Pos, Pos>, depth: map<Pos, nat>, c: Pos, n: Pos)
    requires IsTree(open, size, root, par, depth)
    requires c in open && InRange(n, size) && n !in open && Adjacent(c, n, size)
    requires forall q | q in open && Adjacent(n, q, size) :: q == c
    ensures forall p, q {:trigger Adjacent(p, q, size)} | p in open + {n} && q in open + {n} && Adjacent(p, q, size) ::
      (p in par[n := c] && par[n := c][p] == q) || (q in par[n := c] && par[n := c][q] == p)
  {
    forall p, q | p in open + {n} && q in open + {n} && Adjacent(p, q, size)
      ensures (p in par[n := c] && par[n := c][p] == q) || (q in par[n := c] && par[n := c][q] == p)
    {
      if p == n && q == n {
        var d := DirectionTo(p, q, size);
        MovesDistinct(p, d, d, size);
      } else if q == n {
        AdjacentSymmetric(p, q, size);
      }
    }
  }

  /** Adjacent open cells lie on consecutive levels of the tree. */
  lemma AdjacentDepths(open: set<Pos>, size: int, root: Pos, par: map<Pos, Pos>, depth: map<Pos, nat>, p: Pos, q: Pos)
    requires IsTree(open, size, root, par, depth)
    requires p in open && q in open && Adjacent(p, q, size)
    ensures depth[p] == depth[q] + 1 || depth[q] == depth[p] + 1
  {
  }

  /** The chain of parents from `p` up to the root. */
  ghost function RootPath(open: set<Pos>, size: int, root: Pos, par: map<Pos, Pos>, depth: map<Pos, nat>, p: Pos): (path: seq<Pos>)
    requires IsTree(open, size, root, par, depth) && p in open
    ensures |path| == depth[p] + 1 && path[0] == p && path[|path| - 1] == root
    ensures forall i | 0 <= i < |path| :: path[i] in open
    ensures forall i | 0 <= i < |path| - 1 :: Adjacent(path[i], path[i + 1], size)
    decreases depth[p]
  {
    if p == root then [p]
    else [p] + RootPath(open, size, root, par, depth, par[p])
  }

  /** A walk along adjacent open cells. */
  ghost predicate IsChain(path: seq<Pos>, open: set<Pos>, size: int)
    requires size > 0
  {
    && (forall i | 0 <= i < |path| :: path[i] in open)
    && (forall i | 0 <= i < |path| - 1 :: Adjacent(path[i], path[i + 1], size))
  }

  lemma OppInvolutive(d: Dir)
    ensures Opp(Opp(d)) == d
  {
  }

  function Reversed<T>(s: seq<T>): (r: seq<T>)
    ensures |r| == |s|
    ensures forall i | 0 <= i < |s| :: r[i] == s[|s| - 1 - i]
  {
    if s == [] then [] else Reversed(s[1..]) + [s[0]]
  }

  /** A walk read backwards is a walk. */
  lemma ChainReversed(path: seq<Pos>, open: set<Pos>, size: int)
    requires size > 0 && IsChain(path, open, size)
    requires forall p | p in open :: InRange(p, size)
    ensures IsChain(Reversed(path), open, size)
  {
    var r := Reversed(path);
    forall i | 0 <= i < |r| - 1
      ensures Adjacent(r[i], r[i + 1], size)
    {
      var j := |path| - 2 - i;
      assert r[i] == path[j + 1] && r[i + 1] == path[j];
      AdjacentSymmetric(path[j], path[j + 1], size);
    }
  }

  /** Two walks that meet end to start join into one. */
  lemma ChainJoined(a: seq<Pos>, b: seq<Pos>, open: set<Pos>, size: int)
    requires size > 0 && IsChain(a, open, size) && IsChain(b, open, size)
    requires |a| > 0 && |b| > 0 && a[|a| - 1] == b[0]
    ensures IsChain(a + b[1..], open, size)
  {
    var c := a + b[1..];
    forall i | 0 <= i < |c| - 1
      ensures Adjacent(c[i], c[i + 1], size)
    {
      if i < |a| - 1 {
        assert c[i] == a[i] && c[i + 1] == a[i + 1];
      } else {
        var j := i - (|a| - 1);
        assert c[i] == b[j] && c[i + 1] == b[j + 1];
      }
    }
  }

  /**
   * A tree is connected: between any two open cells there is a walk of
   * adjacent open cells.
   */
  lemma TreeConnected(open: set<Pos>, size: int, root: Pos, par: map<Pos, Pos>, depth: map<Pos, nat>, p: Pos, q: Pos)
    returns (path: seq<Pos>)
    requires IsTree(open, size, root, par, depth) && p in open && q in open
    ensures |path| > 0 && path[0] == p && path[|path| - 1] == q
    ensures IsChain(path, open, size)
  {
    var up := RootPath(open, size, root, par, depth, p);
    var down0 := RootPath(open, size, root, par, depth, q);
    ChainReversed(down0, open, size);
    var down := Reversed(down0);
    ChainJoined(up, down, open, size);
    path := up + down[1..];
  }

  /** A walk that never steps straight back to the cell it has just left. */
  ghost predicate NoReturn(path: seq<Pos>)
  {
    forall i | 0 <= i < |path| - 2 :: path[i] != path[i + 2]
  }

  /** No cell occurs twice. */
  ghost predicate AllDistinct(path: seq<Pos>)
  {
    forall i, j | 0 <= i < j < |path| :: path[i] != path[j]
  }

  /** Step `k` of `path` goes down a parent link, to a child one level deeper. */
  ghost predicate StepsDown(path: seq<Pos>, par: map<Pos, Pos>, depth: map<Pos, nat>, k: int)
    requires 0 <= k < |path| - 1
  {
    path[k] in depth && path[k + 1] in depth && path[k + 1] in par && par[path[k + 1]] == path[k]
    && depth[path[k + 1]] == depth[path[k]] + 1
  }

  /** Step `k` of `path` goes up a parent link, one level nearer the root. */
  ghost predicate StepsUp(path: seq<Pos>, par: map<Pos, Pos>, depth: map<Pos, nat>, k: int)
    requires 0 <= k < |path| - 1
  {
    path[k] in depth && path[k + 1] in depth && path[k] in par && par[path[k]] == path[k + 1]
    && depth[path[k]] == depth[path[k + 1]] + 1
  }

  /** Every step of `path` goes along a parent link of the tree. */
  ghost predicate TreeWalk(path: seq<Pos>, par: map<Pos, Pos>, depth: map<Pos, nat>)
  {
    forall k | 0 <= k < |path| - 1 :: StepsDown(path, par, depth, k) || StepsUp(path, par, depth, k)
  }

  /** A walk of open cells of a tree steps along parent links only. */
  lemma ChainIsTreeWalk(open: set<Pos>, size: int, root: Pos, par: map<Pos, Pos>, depth: map<Pos, nat>, path: seq<Pos>)
    requires IsTree(open, size, root, par, depth) && IsChain(path, open, size)
    ensures TreeWalk(path, par, depth)
  {
    forall k | 0 <= k < |path| - 1
      ensures StepsDown(path, par, depth, k) || StepsUp(path, par, depth, k)
    {
      assert Adjacent(path[k], path[k + 1], size);
    }
  }

  /**
   * Along a walk on the tree that never steps straight back, once a step
   * goes down to a child every later step does too.
   */
  lemma {:induction false} KeepsDescending(par: map<Pos, Pos>, depth: map<Pos, nat>, path: seq<Pos>, k: int, l: int)
    requires TreeWalk(path, par, depth) && NoReturn(path)
    requires 0 <= k < l < |path| && StepsDown(path, par, depth, k)
    ensures StepsDown(path, par, depth, l - 1)
    ensures depth[path[l]] > depth[path[k]]
    decreases l
  {
    if l > k + 1 {
      KeepsDescending(par, depth, path, k, l - 1);
      assert path[l - 2] != path[l];
      assert StepsDown(path, par, depth, l - 1) || StepsUp(path, par, depth, l - 1);
    }
  }

  /** Along such a walk, a step up to a parent comes after steps up only. */
  lemma {:induction false} RisesBefore(par: map<Pos, Pos>, depth: map<Pos, nat>, path: seq<Pos>, k: int, l: int)
    requires TreeWalk(path, par, depth) && NoReturn(path)
    requires 0 <= k < l < |path| && StepsUp(path, par, depth, l - 1)
    ensures path[k] in depth && depth[path[k]] > depth[path[l]]
    decreases l - k
  {
    assert StepsDown(path, par, depth, k) || StepsUp(path, par, depth, k);
    if StepsDown(path, par, depth, k) {
      KeepsDescending(par, depth, path, k, l);
    } else if k + 1 < l {
      RisesBefore(par, depth, path, k + 1, l);
    }
  }

  /**
   * Two cells `i < j` of such a walk differ: a walk that leaves a cell and
   * comes back must, on a tree, leave it for its parent and come back from
   * the parent, so the cells next to the two visits are one cell visited
   * twice, closer together, down to a step straight back.
   */
  lemma {:induction false} NoRepeat(par: map<Pos, Pos>, depth: map<Pos, nat>, path: seq<Pos>, i: int, j: int)
    requires TreeWalk(path, par, depth) && NoReturn(path)
    requires 0 <= i < j < |path|
    ensures path[i] != path[j]
    decreases j - i
  {
    assert StepsDown(path, par, depth, i) || StepsUp(path, par, depth, i);
    assert StepsDown(path, par, depth, j - 1) || StepsUp(path, par, depth, j - 1);
    if j > i + 1 {
      if StepsDown(path, par, depth, i) {
        KeepsDescending(par, depth, path, i, j);
      } else if StepsUp(path, par, depth, j - 1) {
        RisesBefore(par, depth, path, i, j);
      } else if j - 1 > i + 1 {
        NoRepeat(par, depth, path, i + 1, j - 1);
      }
    }
  }

  /** In a tree, a walk of open cells that never steps straight back visits no cell twice. */
  lemma NoReturnDistinct(open: set<Pos>, size: int, root: Pos, par: map<Pos, Pos>, depth: map<Pos, nat>, path: seq<Pos>)
    requires IsTree(open, size, root, par, depth) && IsChain(path, open, size) && NoReturn(path)
    ensures AllDistinct(path)
  {
    ChainIsTreeWalk(open, size, root, par, depth, path);
    forall i, j | 0 <= i < j < |path|
      ensures path[i] != path[j]
    {
      NoRepeat(par, depth, path, i, j);
    }
  }

  /** The undirected adjacencies between open cells. */
  ghost function Edges(open: set<Pos>, size: int): set<set<Pos>>
    requires size > 0
  {
    set p, q | p in open && q in open && Adjacent(p, q, size) :: {p, q}
  }

  /** In a tree the open cells outnumber the adjacencies between them by exactly one. */
  lemma TreeEdgeCount(open: set<Pos>, size: int, root: Pos, par: map<Pos, Pos>, depth: map<Pos, nat>)
    requires IsTree(open, size, root, par, depth)
    ensures |Edges(open, size)| + 1 == |open|
  {
    EdgesAreParentLinks(open, size, root, par, depth);
    ImageCard(par.Keys, par, depth);
    assert par.Keys == open - {root};
  }

  /** Every adjacency between open cells is a parent link, and conversely. */
  lemma EdgesAreParentLinks(open: set<Pos>, size: int, root: Pos, par: map<Pos, Pos>, depth: map<Pos, nat>)
    requires IsTree(open, size, root, par, depth)
    ensures Edges(open, size) == set p | p in par.Keys :: {p, par[p]}
  {
    var links := set p | p in par.Keys :: {p, par[p]};
    forall e | e in Edges(open, size)
      ensures e in links
    {
      var p, q :| p in open && q in open && Adjacent(p, q, size) && e == {p, q};
      if p in par && par[p] == q {
        assert e == {p, par[p]};
      } else {
        assert e == {q, par[q]};
      }
    }
    forall e | e in links
      ensures e in Edges(open, size)
    {
      var p :| p in par.Keys && e == {p, par[p]};
      assert p in open && par[p] in open && Adjacent(p, par[p], size);
    }
  }

  /** Parent links never coincide: `{p, par[p]}` is different for different children. */
  lemma ImageCard(children: set<Pos>, par: map<Pos, Pos>, depth: map<Pos, nat>)
    requires children <= par.Keys && children <= depth.Keys
    requires forall p | p in children :: par[p] in depth && depth[p] == depth[par[p]] + 1
    ensures |set p | p in children :: {p, par[p]}| == |children|
    decreases |children|
  {
    if children != {} {
      var c :| c in children;
      var rest := children - {c};
      ImageCard(rest, par, depth);
      var img := set p | p in children :: {p, par[p]};
      var imgRest := set p | p in rest :: {p, par[p]};
      assert img == imgRest + {{c, par[c]}};
    }
  }

  // ---------------------------------------------------------------------------
  // The nine cells `isSafe` looks at, and small shared facts

  /** The nine cells `isSafe` adds up: the cell, then x+1, x-1, y+1, y-1, z+1, z-1, w+1, w-1. */
  function Nine(p: Pos, size: int): seq<Pos>
    requires size > 0
  {
    [p] + Neighbours(p, size)
  }

  lemma NineInRange(p: Pos, size: int)
    requires InRange(p, size)
    ensures AllOnGrid(Nine(p, size), size)
  {
  }

  predicate AllOnGrid(cells: seq<Pos>, size: int)
  {
    forall i | 0 <= i < |cells| :: InRange(cells[i], size)
  }

  /** For `size >= 3` the nine cells are nine different cells. */
  lemma NineDistinct(p: Pos, size: int)
    requires size >= 3 && InRange(p, size)
    ensures forall i, j | 0 <= i < j < 9 :: Nine(p, size)[i] != Nine(p, size)[j]
  {
    var ds := [R, L, U, D, F, B, A, K];
    var nine := Nine(p, size);
    assert forall k | 0 <= k < 8 :: nine[k + 1] == Move(p, ds[k], size);
    forall i, j | 0 <= i < j < 9
      ensures nine[i] != nine[j]
    {
      MovesDistinct(p, ds[j - 1], if i == 0 then ds[j - 1] else ds[i - 1], size);
    }
  }

  /** A neighbour sits among the nine cells of the cell it neighbours. */
  lemma NeighbourInNine(p: Pos, q: Pos, size: int) returns (k: nat)
    requires size > 0 && Adjacent(p, q, size)
    ensures 1 <= k < 9 && Nine(p, size)[k] == q
  {
    var ns := Neighbours(p, size);
    var j :| 0 <= j < 8 && ns[j] == q;
    k := j + 1;
  }

  /** A set of two or more elements has one besides `x`. */
  lemma AnotherMember<T>(s: set<T>, x: T) returns (y: T)
    requires x in s && |s| >= 2
    ensures y in s && y != x
  {
    var rest := s - {x};
    assert s == rest + {x};
    assert |rest| >= 1;
    y :| y in rest;
  }

  /** A sequence of two or more elements is its first element, its inner part and its last element. */
  lemma SplitEnds<T>(s: seq<T>)
    requires |s| >= 2
    ensures s == [s[0]] + s[1..|s| - 1] + [s[|s| - 1]]
  {
    assert s == [s[0]] + s[1..];
    assert s[1..] == s[1..|s| - 1] + [s[|s| - 1]];
  }

  /** A byte of a `Uint8Array`. */
  newtype Byte = b: int | 0 <= b < 256
}
