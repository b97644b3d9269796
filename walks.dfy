/**
 * Distances between the open cells of a perfect maze. A walk is a sequence
 * of adjacent open cells (`IsChain`); two cells are `n` steps apart when a
 * walk joins them in `n` steps and none does in fewer. On a tree this is
 * the depth-and-meeting-point distance `Dist`, and the walk that never
 * steps straight back is the only one that reaches it.
 */
module Walks {
  import opened Grid

  // ---------------------------------------------------------------------------
  // Walk distances, stated without the tree

  /** `w` walks from `p` to `q` over adjacent open cells. */
  ghost predicate Joins(w: seq<Pos>, p: Pos, q: Pos, open: set<Pos>, size: int)
    requires size > 0
  {
    |w| > 0 && w[0] == p && w[|w| - 1] == q && IsChain(w, open, size)
  }

  /** Some walk gets from `p` to `q` in `n` steps or fewer. */
  ghost predicate WithinSteps(p: Pos, q: Pos, n: nat, open: set<Pos>, size: int)
    requires size > 0
  {
    exists w {:trigger Joins(w, p, q, open, size)} :: Joins(w, p, q, open, size) && |w| <= n + 1
  }

  /** `p` and `q` are exactly `n` steps apart: a walk does it in `n` and none in fewer. */
  ghost predicate StepsApart(p: Pos, q: Pos, n: nat, open: set<Pos>, size: int)
    requires size > 0
  {
    && (exists w {:trigger Joins(w, p, q, open, size)} :: Joins(w, p, q, open, size) && |w| == n + 1)
    && (forall w {:trigger Joins(w, p, q, open, size)} | Joins(w, p, q, open, size) :: |w| >= n + 1)
  }

  /**
   * `n` is the diameter of the open cells and `p`, `q` a farthest pair: any
   * two open cells are at most `n` steps apart, and `p` and `q` exactly `n`.
   */
  ghost predicate Diameter(p: Pos, q: Pos, n: nat, open: set<Pos>, size: int)
    requires size > 0
  {
    && (forall x, y {:trigger WithinSteps(x, y, n, open, size)} | x in open && y in open :: WithinSteps(x, y, n, open, size))
    && StepsApart(p, q, n, open, size)
  }

  // ---------------------------------------------------------------------------
  // Ancestors and the meeting point of two cells

  /**
   * The part of `IsTree` the ancestor arithmetic needs: every open cell but
   * the root has an open parent one level nearer the root. The
   * parent fact fires only on a `par[p]` already in sight, so it does not
   * climb the whole tree on its own.
   */
  ghost predicate Rooted(open: set<Pos>, size: int, root: Pos, par: map<Pos, Pos>, depth: map<Pos, nat>)
    requires size > 0
  {
    && root in open
    && depth.Keys == open
    && par.Keys == open - {root}
    && depth[root] == 0
    && (forall p {:trigger par[p]} | p in par :: par[p] in open && depth[p] == depth[par[p]] + 1)
  }

  /** A tree is rooted. */
  lemma TreeIsRooted(open: set<Pos>, size: int, root: Pos, par: map<Pos, Pos>, depth: map<Pos, nat>)
    requires IsTree(open, size, root, par, depth)
    ensures Rooted(open, size, root, par, depth)
  {
  }

  /** A cell and its parent are adjacent. */
  lemma ParentAdjacent(open: set<Pos>, size: int, root: Pos, par: map<Pos, Pos>, depth: map<Pos, nat>, p: Pos)
    requires IsTree(open, size, root, par, depth) && p in par
    ensures Adjacent(p, par[p], size) && Adjacent(par[p], p, size)
  {
    AdjacentSymmetric(p, par[p], size);
  }

  /** The ancestor of `x` on level `k` of the tree. */
  ghost function Anc(open: set<Pos>, size: int, root: Pos, par: map<Pos, Pos>, depth: map<Pos, nat>, x: Pos, k: nat): (a: Pos)
    requires size > 0 && Rooted(open, size, root, par, depth) && x in open && k <= depth[x]
    ensures a in open && depth[a] == k
    ensures k == 0 ==> a == root
    decreases depth[x]
  {
    if depth[x] == k then x else Anc(open, size, root, par, depth, par[x], k)
  }

  /** An ancestor's ancestor is an ancestor. */
  lemma {:induction false} AncOfAnc(open: set<Pos>, size: int, root: Pos, par: map<Pos, Pos>, depth: map<Pos, nat>, x: Pos, j: nat, k: nat)
    requires size > 0 && Rooted(open, size, root, par, depth) && x in open && j <= k <= depth[x]
    ensures Anc(open, size, root, par, depth, Anc(open, size, root, par, depth, x, k), j) == Anc(open, size, root, par, depth, x, j)
    decreases depth[x]
  {
    if depth[x] != k {
      AncOfAnc(open, size, root, par, depth, par[x], j, k);
    }
  }

  /** The parent of the ancestor on level `k` is the ancestor on level `k - 1`. */
  lemma AncStep(open: set<Pos>, size: int, root: Pos, par: map<Pos, Pos>, depth: map<Pos, nat>, x: Pos, k: nat)
    requires size > 0 && Rooted(open, size, root, par, depth) && x in open && 0 < k <= depth[x]
    ensures Anc(open, size, root, par, depth, x, k) in par
    ensures par[Anc(open, size, root, par, depth, x, k)] == Anc(open, size, root, par, depth, x, k - 1)
  {
    var a := Anc(open, size, root, par, depth, x, k);
    AncOfAnc(open, size, root, par, depth, x, k - 1, k);
    assert Anc(open, size, root, par, depth, a, k - 1) == par[a];
  }

  /** The deepest level `m <= k` on which `x` and `y` share their ancestor. */
  ghost function MeetBelow(open: set<Pos>, size: int, root: Pos, par: map<Pos, Pos>, depth: map<Pos, nat>, x: Pos, y: Pos, k: nat): (m: nat)
    requires size > 0 && Rooted(open, size, root, par, depth) && x in open && y in open && k <= depth[x] && k <= depth[y]
    ensures m <= k && Anc(open, size, root, par, depth, x, m) == Anc(open, size, root, par, depth, y, m)
    ensures forall j | m < j <= k :: Anc(open, size, root, par, depth, x, j) != Anc(open, size, root, par, depth, y, j)
    decreases k
  {
    if Anc(open, size, root, par, depth, x, k) == Anc(open, size, root, par, depth, y, k) then k
    else MeetBelow(open, size, root, par, depth, x, y, k - 1)
  }

  function Min(a: nat, b: nat): nat
  {
    if a <= b then a else b
  }

  /** The level of the deepest common ancestor of `x` and `y`. */
  ghost function Meet(open: set<Pos>, size: int, root: Pos, par: map<Pos, Pos>, depth: map<Pos, nat>, x: Pos, y: Pos): (m: nat)
    requires size > 0 && Rooted(open, size, root, par, depth) && x in open && y in open
  {
    MeetBelow(open, size, root, par, depth, x, y, Min(depth[x], depth[y]))
  }

  /** Cells that share an ancestor share every ancestor above it. */
  lemma AgreeAbove(open: set<Pos>, size: int, root: Pos, par: map<Pos, Pos>, depth: map<Pos, nat>, x: Pos, y: Pos, j: nat, k: nat)
    requires size > 0 && Rooted(open, size, root, par, depth) && x in open && y in open
    requires j <= k <= depth[x] && k <= depth[y]
    requires Anc(open, size, root, par, depth, x, k) == Anc(open, size, root, par, depth, y, k)
    ensures Anc(open, size, root, par, depth, x, j) == Anc(open, size, root, par, depth, y, j)
  {
    AncOfAnc(open, size, root, par, depth, x, j, k);
    AncOfAnc(open, size, root, par, depth, y, j, k);
  }

  /** `Meet` is the deepest shared level, whichever cell comes first. */
  lemma MeetFacts(open: set<Pos>, size: int, root: Pos, par: map<Pos, Pos>, depth: map<Pos, nat>, x: Pos, y: Pos)
    requires size > 0 && Rooted(open, size, root, par, depth) && x in open && y in open
    ensures Meet(open, size, root, par, depth, x, y) <= depth[x] && Meet(open, size, root, par, depth, x, y) <= depth[y]
    ensures Meet(open, size, root, par, depth, x, y) == Meet(open, size, root, par, depth, y, x)
    ensures forall j | 0 <= j <= Meet(open, size, root, par, depth, x, y) ::
              Anc(open, size, root, par, depth, x, j) == Anc(open, size, root, par, depth, y, j)
  {
    var m := Meet(open, size, root, par, depth, x, y);
    var m' := Meet(open, size, root, par, depth, y, x);
    forall j | 0 <= j <= m
      ensures Anc(open, size, root, par, depth, x, j) == Anc(open, size, root, par, depth, y, j)
    {
      AgreeAbove(open, size, root, par, depth, x, y, j, m);
    }
    assert Anc(open, size, root, par, depth, x, m') == Anc(open, size, root, par, depth, y, m');
  }

  /** Cells sharing their ancestor on level `k` meet on level `k` or deeper. */
  lemma MeetAtLeast(open: set<Pos>, size: int, root: Pos, par: map<Pos, Pos>, depth: map<Pos, nat>, x: Pos, y: Pos, k: nat)
    requires size > 0 && Rooted(open, size, root, par, depth) && x in open && y in open && k <= depth[x] && k <= depth[y]
    requires Anc(open, size, root, par, depth, x, k) == Anc(open, size, root, par, depth, y, k)
    ensures k <= Meet(open, size, root, par, depth, x, y)
  {
  }

  /** The number of steps between `x` and `y` on the tree: up to their meeting point and down again. */
  ghost function Dist(open: set<Pos>, size: int, root: Pos, par: map<Pos, Pos>, depth: map<Pos, nat>, x: Pos, y: Pos): nat
    requires size > 0 && Rooted(open, size, root, par, depth) && x in open && y in open
  {
    MeetFacts(open, size, root, par, depth, x, y);
    depth[x] + depth[y] - 2 * Meet(open, size, root, par, depth, x, y)
  }

  // ---------------------------------------------------------------------------
  // The tree path realises `Dist`, and no walk beats it

  /** Cell `i` of the tree path from `x` to `y`: up from `x` to the meeting point, then down to `y`. */
  ghost function PathCell(open: set<Pos>, size: int, root: Pos, par: map<Pos, Pos>, depth: map<Pos, nat>, x: Pos, y: Pos, i: nat): (c: Pos)
    requires size > 0 && Rooted(open, size, root, par, depth) && x in open && y in open
    requires i <= Dist(open, size, root, par, depth, x, y)
    ensures c in open
  {
    MeetFacts(open, size, root, par, depth, x, y);
    var m := Meet(open, size, root, par, depth, x, y);
    if i <= depth[x] - m then Anc(open, size, root, par, depth, x, depth[x] - i)
    else Anc(open, size, root, par, depth, y, i - depth[x] + 2 * m)
  }

  /** The tree path from `x` to `y`. */
  ghost function TreePath(open: set<Pos>, size: int, root: Pos, par: map<Pos, Pos>, depth: map<Pos, nat>, x: Pos, y: Pos): (w: seq<Pos>)
    requires size > 0 && Rooted(open, size, root, par, depth) && x in open && y in open
    ensures |w| == Dist(open, size, root, par, depth, x, y) + 1
    ensures forall i | 0 <= i < |w| :: w[i] == PathCell(open, size, root, par, depth, x, y, i)
  {
    var n := Dist(open, size, root, par, depth, x, y);
    seq(n + 1, i requires 0 <= i <= n => PathCell(open, size, root, par, depth, x, y, i))
  }

  /** The tree path starts at `x` and ends at `y`. */
  lemma PathEnds(open: set<Pos>, size: int, root: Pos, par: map<Pos, Pos>, depth: map<Pos, nat>, x: Pos, y: Pos)
    requires size > 0 && Rooted(open, size, root, par, depth) && x in open && y in open
    ensures PathCell(open, size, root, par, depth, x, y, 0) == x
    ensures PathCell(open, size, root, par, depth, x, y, Dist(open, size, root, par, depth, x, y)) == y
  {
    MeetFacts(open, size, root, par, depth, x, y);
    var m := Meet(open, size, root, par, depth, x, y);
    assert Anc(open, size, root, par, depth, x, m) == Anc(open, size, root, par, depth, y, m);
  }

  /** Each step of the tree path goes along a parent link, one way or the other. */
  lemma PathLinks(open: set<Pos>, size: int, root: Pos, par: map<Pos, Pos>, depth: map<Pos, nat>, x: Pos, y: Pos, i: nat)
    requires size > 0 && Rooted(open, size, root, par, depth) && x in open && y in open
    requires i < Dist(open, size, root, par, depth, x, y)
    ensures var c, d := PathCell(open, size, root, par, depth, x, y, i), PathCell(open, size, root, par, depth, x, y, i + 1);
            (c in par && par[c] == d) || (d in par && par[d] == c)
  {
    MeetFacts(open, size, root, par, depth, x, y);
    var m := Meet(open, size, root, par, depth, x, y);
    var dx := depth[x];
    if i + 1 <= dx - m {
      AncStep(open, size, root, par, depth, x, dx - i);
    } else {
      var k := i - dx + 2 * m;
      if i == dx - m {
        assert PathCell(open, size, root, par, depth, x, y, i) == Anc(open, size, root, par, depth, y, m);
      }
      AncStep(open, size, root, par, depth, y, k + 1);
    }
  }

  /** The tree path never steps straight back: it turns only at the meeting point, between two different children. */
  lemma PathTurns(open: set<Pos>, size: int, root: Pos, par: map<Pos, Pos>, depth: map<Pos, nat>, x: Pos, y: Pos, i: nat)
    requires size > 0 && Rooted(open, size, root, par, depth) && x in open && y in open
    requires i + 2 <= Dist(open, size, root, par, depth, x, y)
    ensures PathCell(open, size, root, par, depth, x, y, i) != PathCell(open, size, root, par, depth, x, y, i + 2)
  {
    MeetFacts(open, size, root, par, depth, x, y);
    var m := Meet(open, size, root, par, depth, x, y);
    if i + 1 == depth[x] - m {
      assert PathCell(open, size, root, par, depth, x, y, i) == Anc(open, size, root, par, depth, x, m + 1);
      assert PathCell(open, size, root, par, depth, x, y, i + 2) == Anc(open, size, root, par, depth, y, m + 1);
    } else {
      assert depth[PathCell(open, size, root, par, depth, x, y, i)] != depth[PathCell(open, size, root, par, depth, x, y, i + 2)];
    }
  }

  /** The tree path joins `x` to `y` and never steps straight back. */
  lemma TreePathJoins(open: set<Pos>, size: int, root: Pos, par: map<Pos, Pos>, depth: map<Pos, nat>, x: Pos, y: Pos)
    requires IsTree(open, size, root, par, depth) && x in open && y in open
    ensures Rooted(open, size, root, par, depth)
    ensures Joins(TreePath(open, size, root, par, depth, x, y), x, y, open, size)
    ensures NoReturn(TreePath(open, size, root, par, depth, x, y))
  {
    TreeIsRooted(open, size, root, par, depth);
    var w := TreePath(open, size, root, par, depth, x, y);
    PathEnds(open, size, root, par, depth, x, y);
    forall i | 0 <= i < |w| - 1
      ensures Adjacent(w[i], w[i + 1], size)
    {
      PathLinks(open, size, root, par, depth, x, y, i);
      if w[i] in par && par[w[i]] == w[i + 1] {
        ParentAdjacent(open, size, root, par, depth, w[i]);
      } else {
        ParentAdjacent(open, size, root, par, depth, w[i + 1]);
      }
    }
    forall i | 0 <= i < |w| - 2
      ensures w[i] != w[i + 2]
    {
      PathTurns(open, size, root, par, depth, x, y, i);
    }
  }

  /** Along a walk that climbs its first `i` steps, cell `i` is the start's ancestor `i` levels up. */
  lemma {:induction false} Climbing(open: set<Pos>, size: int, root: Pos, par: map<Pos, Pos>, depth: map<Pos, nat>, w: seq<Pos>, i: nat)
    requires size > 0 && Rooted(open, size, root, par, depth) && i < |w|
    requires forall k | 0 <= k < |w| :: w[k] in open
    requires forall k | 0 <= k < i :: StepsUp(w, par, depth, k)
    ensures i <= depth[w[0]] && w[i] == Anc(open, size, root, par, depth, w[0], depth[w[0]] - i)
    decreases i
  {
    if i > 0 {
      Climbing(open, size, root, par, depth, w, i - 1);
      assert StepsUp(w, par, depth, i - 1);
      AncStep(open, size, root, par, depth, w[0], depth[w[0]] - (i - 1));
    }
  }

  /** Along a walk that descends from cell `i` on, cell `i` is the end's ancestor `|w| - 1 - i` levels up. */
  lemma {:induction false} Descending(open: set<Pos>, size: int, root: Pos, par: map<Pos, Pos>, depth: map<Pos, nat>, w: seq<Pos>, i: nat)
    requires size > 0 && Rooted(open, size, root, par, depth) && i < |w|
    requires forall k | 0 <= k < |w| :: w[k] in open
    requires forall k | i <= k < |w| - 1 :: StepsDown(w, par, depth, k)
    ensures |w| - 1 - i <= depth[w[|w| - 1]]
    ensures w[i] == Anc(open, size, root, par, depth, w[|w| - 1], depth[w[|w| - 1]] - (|w| - 1 - i))
    decreases |w| - i
  {
    var y := w[|w| - 1];
    if i < |w| - 1 {
      Descending(open, size, root, par, depth, w, i + 1);
      assert StepsDown(w, par, depth, i);
      AncStep(open, size, root, par, depth, y, depth[y] - (|w| - 1 - (i + 1)));
    }
  }

  /** A walk on the tree that never steps straight back climbs to a top cell, then only descends. */
  lemma TopOf(par: map<Pos, Pos>, depth: map<Pos, nat>, w: seq<Pos>) returns (t: nat)
    requires TreeWalk(w, par, depth) && NoReturn(w) && |w| > 0
    ensures t < |w|
    ensures forall k | 0 <= k < t :: StepsUp(w, par, depth, k)
    ensures forall k | t <= k < |w| - 1 :: StepsDown(w, par, depth, k)
  {
    t := 0;
    while t < |w| - 1 && !StepsDown(w, par, depth, t)
      invariant t < |w|
      invariant forall k | 0 <= k < t :: StepsUp(w, par, depth, k)
    {
      t := t + 1;
    }
    forall k | t < k < |w| - 1
      ensures StepsDown(w, par, depth, k)
    {
      KeepsDescending(par, depth, w, t, k + 1);
    }
  }

  /** A walk that never steps straight back takes exactly `Dist` steps: it is the tree path. */
  lemma NoReturnLength(open: set<Pos>, size: int, root: Pos, par: map<Pos, Pos>, depth: map<Pos, nat>, w: seq<Pos>, x: Pos, y: Pos)
    requires size > 0 && Rooted(open, size, root, par, depth) && Joins(w, x, y, open, size)
    requires TreeWalk(w, par, depth) && NoReturn(w)
    ensures |w| == Dist(open, size, root, par, depth, x, y) + 1
  {
    var n := |w| - 1;
    var t := TopOf(par, depth, w);
    Climbing(open, size, root, par, depth, w, t);
    Descending(open, size, root, par, depth, w, t);
    MeetFacts(open, size, root, par, depth, x, y);
    var top := depth[w[t]];
    var m := Meet(open, size, root, par, depth, x, y);
    assert depth[x] - t == top == depth[y] - (n - t);
    MeetAtLeast(open, size, root, par, depth, x, y, top);
    if m > top {
      Climbing(open, size, root, par, depth, w, t - 1);
      Descending(open, size, root, par, depth, w, t + 1);
      assert false;
    }
  }

  /** Cutting a step straight back out of a walk leaves a walk between the same cells, two steps shorter. */
  lemma CutReturn(w: seq<Pos>, x: Pos, y: Pos, open: set<Pos>, size: int, i: nat) returns (v: seq<Pos>)
    requires size > 0 && Joins(w, x, y, open, size)
    requires i + 2 < |w| && w[i] == w[i + 2]
    ensures Joins(v, x, y, open, size) && |v| == |w| - 2
  {
    v := w[..i + 1] + w[i + 3..];
    forall k | 0 <= k < |v| - 1
      ensures Adjacent(v[k], v[k + 1], size)
    {
      if k < i {
        assert v[k] == w[k] && v[k + 1] == w[k + 1];
      } else if k == i {
        assert v[k] == w[i + 2] && v[k + 1] == w[i + 3];
      } else {
        assert v[k] == w[k + 2] && v[k + 1] == w[k + 3];
      }
    }
    assert v[|v| - 1] == y;
  }

  /** No walk from `x` to `y` is shorter than `Dist`: cut out each step straight back until none is left. */
  lemma {:induction false} WalkAtLeast(open: set<Pos>, size: int, root: Pos, par: map<Pos, Pos>, depth: map<Pos, nat>, w: seq<Pos>, x: Pos, y: Pos)
    requires IsTree(open, size, root, par, depth) && Joins(w, x, y, open, size)
    ensures |w| >= Dist(open, size, root, par, depth, x, y) + 1
    decreases |w|
  {
    TreeIsRooted(open, size, root, par, depth);
    if NoReturn(w) {
      ChainIsTreeWalk(open, size, root, par, depth, w);
      NoReturnLength(open, size, root, par, depth, w, x, y);
    } else {
      var i :| 0 <= i < |w| - 2 && w[i] == w[i + 2];
      var v := CutReturn(w, x, y, open, size, i);
      WalkAtLeast(open, size, root, par, depth, v, x, y);
    }
  }

  /** On a tree, `x` and `y` are exactly `Dist` steps apart. */
  lemma DistIsSteps(open: set<Pos>, size: int, root: Pos, par: map<Pos, Pos>, depth: map<Pos, nat>, x: Pos, y: Pos)
    requires IsTree(open, size, root, par, depth) && x in open && y in open
    ensures StepsApart(x, y, Dist(open, size, root, par, depth, x, y), open, size)
  {
    TreeIsRooted(open, size, root, par, depth);
    TreePathJoins(open, size, root, par, depth, x, y);
    forall w | Joins(w, x, y, open, size)
      ensures |w| >= Dist(open, size, root, par, depth, x, y) + 1
    {
      WalkAtLeast(open, size, root, par, depth, w, x, y);
    }
  }

  /** A cell's distance from the root is its depth. */
  lemma DistFromRoot(open: set<Pos>, size: int, root: Pos, par: map<Pos, Pos>, depth: map<Pos, nat>, x: Pos)
    requires size > 0 && Rooted(open, size, root, par, depth) && x in open
    ensures Dist(open, size, root, par, depth, root, x) == depth[x]
  {
  }

  /**
   * Seen from a deepest cell `a`, no pair of cells is farther apart than
   * the farther of the two is from `a`: the pair meets no higher than one
   * of them meets `a`.
   */
  lemma FromDeepest(open: set<Pos>, size: int, root: Pos, par: map<Pos, Pos>, depth: map<Pos, nat>, a: Pos, p: Pos, q: Pos)
    requires size > 0 && Rooted(open, size, root, par, depth) && a in open && p in open && q in open
    requires forall z | z in open :: depth[z] <= depth[a]
    ensures Dist(open, size, root, par, depth, p, q) <= Dist(open, size, root, par, depth, a, p)
         || Dist(open, size, root, par, depth, p, q) <= Dist(open, size, root, par, depth, a, q)
  {
    MeetFacts(open, size, root, par, depth, a, p);
    MeetFacts(open, size, root, par, depth, a, q);
    var mp := Meet(open, size, root, par, depth, a, p);
    var mq := Meet(open, size, root, par, depth, a, q);
    var k := Min(mp, mq);
    assert Anc(open, size, root, par, depth, p, k) == Anc(open, size, root, par, depth, a, k)
        == Anc(open, size, root, par, depth, q, k);
    MeetAtLeast(open, size, root, par, depth, p, q, k);
  }
}
