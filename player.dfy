/**
 * src/Player.ts: the player's frame (four orthonormal vectors), its
 * velocity and position, and the per-frame update that turns the frame as
 * the control states ask, then slows and moves the player.
 *
 * The vector arithmetic behind a turn, the re-orthonormalisation, the
 * drag law and the collision walk are floating point; the model records
 * each of those steps, with the discrete choices the source makes for
 * it, in the trace `ops`, and keeps exact everything that decides which
 * steps happen.
 */
module Player {
  import opened Controls

  /** A 4-vector with real components. */
  datatype Vec4 = Vec4(x: real, y: real, z: real, w: real)

  const Zero: Vec4 := Vec4(0.0, 0.0, 0.0, 0.0)

  /** The squared length, `len2`. */
  function Len2(v: Vec4): (r: real)
    ensures r >= 0.0
  {
    v.x * v.x + v.y * v.y + v.z * v.z + v.w * v.w
  }

  /** The axes, `keyof Vec4`. */
  datatype Axis = X | Y | Z | W

  /** The frame vectors of a player. */
  datatype Member = Rgt | Up | Fwd | Ana

  /** `planes`: the frame vector that points along each axis in the initial frame. */
  function PlaneOf(a: Axis): Member
  {
    match a
    case X => Rgt
    case Y => Up
    case Z => Fwd
    case W => Ana
  }

  /** `planeIndices`. */
  function IndexOf(a: Axis): (i: nat)
    ensures i < 4
  {
    match a
    case X => 0
    case Y => 1
    case Z => 2
    case W => 3
  }

  /** The unit vector along an axis. */
  function Unit(a: Axis): Vec4
  {
    match a
    case X => Vec4(1.0, 0.0, 0.0, 0.0)
    case Y => Vec4(0.0, 1.0, 0.0, 0.0)
    case Z => Vec4(0.0, 0.0, 1.0, 0.0)
    case W => Vec4(0.0, 0.0, 0.0, 1.0)
  }

  /** `basis`: the unit vectors in axis order. */
  const Basis: seq<Vec4> := [
    Vec4(1.0, 0.0, 0.0, 0.0),
    Vec4(0.0, 1.0, 0.0, 0.0),
    Vec4(0.0, 0.0, 1.0, 0.0),
    Vec4(0.0, 0.0, 0.0, 1.0)]

  /** `planes` names each frame vector once, and only `z` names `fwd`. */
  lemma PlanesOneToOne()
    ensures forall a: Axis, b: Axis :: PlaneOf(a) == PlaneOf(b) ==> a == b
    ensures forall a: Axis :: PlaneOf(a) == Fwd <==> a == Z
  {
  }

  /** `basis` at an axis's index is the unit vector along that axis. */
  lemma BasisIndexed(a: Axis)
    ensures Basis[IndexOf(a)] == Unit(a)
  {
  }

  // ---------------------------------------------------------------------
  // rotArray

  /**
   * `arr` rotated left by `count` places, for any integer `count`:
   * element `i` of the result is element `i + count` of `arr`, counted
   * round the end.
   */
  function Rotated<T>(arr: seq<T>, count: int): (r: seq<T>)
    ensures |r| == |arr|
    ensures forall i | 0 <= i < |r| :: r[i] == arr[(i + count) % |arr|]
  {
    if |arr| == 0 then []
    else
      var c := count % |arr|;
      var r := arr[c..] + arr[..c];
      assert forall i | 0 <= i < |r| :: r[i] == arr[(i + count) % |arr|] by {
        forall i | 0 <= i < |r|
          ensures r[i] == arr[(i + count) % |arr|]
        {
          ModShift(i, count, |arr|);
        }
      }
      r
  }

  /** `(i + c mod n)` wraps to `(i + c) mod n` once past the end. */
  lemma ModShift(i: int, count: int, n: int)
    requires n > 0 && 0 <= i < n
    ensures var c := count % n;
            (i < n - c ==> (i + count) % n == c + i) && (i >= n - c ==> (i + count) % n == i - (n - c))
  {
    var c := count % n;
    var q := count / n;
    assert count == q * n + c;
    if i < n - c {
      assert i + count == q * n + (c + i) && 0 <= c + i < n;
      ModUnique(i + count, n, q, c + i);
    } else {
      assert i + count == (q + 1) * n + (i - (n - c)) && 0 <= i - (n - c) < n;
      ModUnique(i + count, n, q + 1, i - (n - c));
    }
  }

  /** The remainder is the unique one in range. */
  lemma ModUnique(a: int, n: int, q: int, r: int)
    requires n > 0 && 0 <= r < n && a == q * n + r
    ensures a % n == r
  {
    var d := q - a / n;
    assert d * n == q * n - (a / n) * n;
    assert d * n == a % n - r;
    MulAtLeast(d, n);
  }

  /** A non-zero multiple of `n` is at least `n` away from zero. */
  lemma MulAtLeast(d: int, n: int)
    requires n > 0
    ensures d >= 1 ==> d * n >= n
    ensures d <= -1 ==> d * n <= -n
  {
    if d >= 1 {
      assert d * n == (d - 1) * n + n;
      assert (d - 1) * n >= 0;
    } else if d <= -1 {
      assert d * n == (d + 1) * n - n;
      assert (d + 1) * n <= 0;
    }
  }

  /**
   * `rotArray(arr, count)`: a copy of `arr`; `count` brought into
   * `[0, n)` by subtracting `n * floor(count / n)`; the first `count`
   * elements spliced off and pushed back at the end. An empty array stays
   * empty. The argument itself is not changed (it is a value here).
   */
  method RotArray<T>(arr: seq<T>, count: int) returns (r: seq<T>)
    ensures r == Rotated(arr, count)
  {
    r := arr;
    var n := |r|;
    if n == 0 {
      return;
    }
    // Dafny's `/` on a positive divisor is the floor of the quotient.
    var c := count - n * (count / n);
    assert c == count % n;
    var head := r[..c];
    r := r[c..];
    r := r + head;
  }

  /** Rotating is a permutation. */
  lemma {:induction false} RotatedPermutes<T>(arr: seq<T>, count: int)
    ensures multiset(Rotated(arr, count)) == multiset(arr)
  {
    if |arr| > 0 {
      var c := count % |arr|;
      assert Rotated(arr, count) == arr[c..] + arr[..c];
      assert arr == arr[..c] + arr[c..];
    }
  }

  /** Two rotations add up. */
  lemma RotatedCompose<T>(arr: seq<T>, a: int, b: int)
    ensures Rotated(Rotated(arr, a), b) == Rotated(arr, a + b)
  {
    var n := |arr|;
    if n > 0 {
      var r := Rotated(Rotated(arr, a), b);
      forall i | 0 <= i < n
        ensures r[i] == Rotated(arr, a + b)[i]
      {
        var j := (i + b) % n;
        ModAdd(j, a, i + b, n);
      }
    }
  }

  /** `((k mod n) + a) mod n == (k + a) mod n`. */
  lemma ModAdd(j: int, a: int, k: int, n: int)
    requires n > 0 && j == k % n
    ensures (j + a) % n == (k + a) % n
  {
    var q := k / n;
    assert k == q * n + j;
    var r := (j + a) % n;
    var p := (j + a) / n;
    assert j + a == p * n + r;
    assert k + a == (q + p) * n + r;
    ModUnique(k + a, n, q + p, r);
  }

  /** Rotating back by the same count restores the array. */
  lemma RotatedInverse<T>(arr: seq<T>, count: int)
    ensures Rotated(Rotated(arr, count), -count) == arr
  {
    var n := |arr|;
    if n > 0 {
      var r := Rotated(Rotated(arr, count), -count);
      forall i | 0 <= i < n
        ensures r[i] == arr[i]
      {
        var j := (i + -count) % n;
        ModAdd(j, count, i + -count, n);
        assert i + -count + count == i;
        ModUnique(i, n, 0, i);
      }
    }
  }

  // ---------------------------------------------------------------------
  // The player

  /**
   * One step of the float arithmetic, as the source chooses it:
   * - `Turn(v, k, halfTurns, carry)`: `vec_rot2(this[v], this[k], angle)`
   *   with `angle == halfTurns * pi`; when `carry`, the velocity's
   *   component along `fwd` is taken off before and put back along the new
   *   `fwd` after;
   * - `Renormalize`: `renormalize()`;
   * - `Speed(thrust, drag)`: `update_speed`, adding `thrust * fwd` to the
   *   velocity and slowing it with drag coefficient `drag`;
   * - `Move(seconds)`: the collision walk of `translate`.
   */
  datatype Op =
    | Turn(v: Member, k: Member, halfTurns: real, carry: bool)
    | Renormalize
    | Speed(thrust: real, drag: real)
    | Move(seconds: real)

  /** `turnRate` is `pi / 2.75`: the key turns' angle over `seconds`, in half turns. */
  function KeyAngle(seconds: real): real
  {
    seconds / 2.75
  }

  /** The turn `rotate(v, k, angle, accelerating)` performs. */
  function TurnOf(v: Axis, k: Axis, halfTurns: real, accelerating: bool): (op: Op)
    ensures op.Turn? && op.v == PlaneOf(v) && op.k == PlaneOf(k) && op.halfTurns == halfTurns
    ensures op.carry <==> accelerating && (v == Z || k == Z)
  {
    var vn := PlaneOf(v);
    var kn := PlaneOf(k);
    if accelerating && (vn == Fwd || kn == Fwd) then Turn(vn, kn, halfTurns, true)
    else Turn(vn, kn, halfTurns, false)
  }

  /**
   * One `if (first) ... else if (second) ...` pair of `update`: the first
   * control turns `v` towards `k`, the second the other way, and the first
   * wins when both are set.
   */
  function PairTurn(first: bool, second: bool, v: Axis, k: Axis, halfTurns: real, accelerating: bool): seq<Op>
  {
    if first then [TurnOf(v, k, halfTurns, accelerating)]
    else if second then [TurnOf(k, v, halfTurns, accelerating)]
    else []
  }

  /** A pair turns at most once, the first control before the second, and not at all when neither is set. */
  lemma PairTurnPriority(first: bool, second: bool, v: Axis, k: Axis, halfTurns: real, accelerating: bool)
    ensures var t := PairTurn(first, second, v, k, halfTurns, accelerating);
            && |t| <= 1
            && (|t| == 1 <==> first || second)
            && (first ==> t[0].v == PlaneOf(v) && t[0].k == PlaneOf(k))
            && (!first && second ==> t[0].v == PlaneOf(k) && t[0].k == PlaneOf(v))
  {
  }

  /** `accelerating`: some motion is asked for, or the mouse is engaged. */
  predicate Accelerating(c: ControlStates)
    reads c
  {
    c.fwd || c.bak || c.mouse
  }

  /** The six key pairs of `update`, in the source's order, each on its fixed plane. */
  function KeyTurns(c: ControlStates, seconds: real): seq<Op>
    reads c
  {
    var a := KeyAngle(seconds);
    var acc := Accelerating(c);
    PairTurn(c.pup, c.pdn, Z, Y, a, acc)
    + PairTurn(c.yrt, c.ylt, Z, X, a, acc)
    + PairTurn(c.rrt, c.rlt, X, Y, a, acc)
    + PairTurn(c.wup, c.wdn, Z, W, a, acc)
    + PairTurn(c.wyr, c.wyl, W, Y, a, acc)
    + PairTurn(c.wrr, c.wrl, W, X, a, acc)
  }

  /**
   * The labelled `mouse:` block: only with the mouse engaged and the
   * pointer inside the unit circle; each nonzero offset turns once, always
   * as accelerating.
   */
  function MouseTurns(mouse: bool, x: real, y: real, seconds: real): (t: seq<Op>)
    ensures |t| <= 2
    ensures t != [] ==> mouse && x * x + y * y <= 1.0
    ensures mouse && x * x + y * y <= 1.0 ==> (t != [] <==> x != 0.0 || y != 0.0)
    ensures forall i | 0 <= i < |t| :: t[i].Turn? && t[i].carry
  {
    if !mouse || x * x + y * y > 1.0 then []
    else
      (if x != 0.0 then [TurnOf(Z, X, x * seconds, true)] else [])
      + (if y != 0.0 then [TurnOf(Y, Z, y * seconds, true)] else [])
  }

  /** Inside the unit circle, the engaged mouse turns on each nonzero offset. */
  lemma MouseTurnsInside(x: real, y: real, seconds: real)
    requires x * x + y * y <= 1.0
    ensures MouseTurns(true, x, y, seconds)
            == (if x != 0.0 then [TurnOf(Z, X, x * seconds, true)] else [])
               + (if y != 0.0 then [TurnOf(Y, Z, y * seconds, true)] else [])
  {
  }

  /** Every turn `update` asks for this frame. */
  function Turns(c: ControlStates, seconds: real): seq<Op>
    reads c
  {
    KeyTurns(c, seconds) + MouseTurns(c.mouse, c.mouseX, c.mouseY, seconds)
  }

  /** `update_speed`'s choices: thrust along `fwd` and the drag coefficient. */
  function SpeedOf(fwd: bool, bak: bool, mouse: bool, seconds: real): (op: Op)
    ensures op.Speed?
    ensures seconds > 0.0 ==> (op.thrust > 0.0 <==> fwd) && (op.thrust < 0.0 <==> !fwd && bak)
    ensures op.drag == 1.5 <==> mouse
    ensures op.drag == 2.0 <==> !mouse && !fwd && !bak
  {
    var drag := if mouse then 1.5 else if fwd || bak then 1.0 else 2.0;
    var thrust := if fwd then 0.75 * seconds else if bak then -0.75 * seconds else 0.0;
    Speed(thrust, drag)
  }

  /** `pos.x -= size * floor(pos.x / size)`: a coordinate wrapped into `[0, size)`. */
  function Wrap(p: real, size: nat): (r: real)
    requires size > 0
    ensures 0.0 <= r < size as real
    ensures exists k: int :: r == p - (k * size) as real
  {
    var s := size as real;
    var f := (p / s).Floor;
    FloorBounds(p / s);
    var t := p / s - f as real;
    var r := p - f as real * s;
    assert r == t * s;
    FractionScaled(t, s);
    assert r < s;
    assert r == p - (f * size) as real;
    r
  }

  /** Every coordinate lies in `[0, size)`: a position inside the maze. */
  predicate InMaze(p: Vec4, size: nat)
  {
    var s := size as real;
    0.0 <= p.x < s && 0.0 <= p.y < s && 0.0 <= p.z < s && 0.0 <= p.w < s
  }

  /** The four coordinates of a position, each wrapped round the maze. */
  function Wrapped(p: Vec4, size: nat): (r: Vec4)
    requires size > 0
    ensures InMaze(r, size)
  {
    Vec4(Wrap(p.x, size), Wrap(p.y, size), Wrap(p.z, size), Wrap(p.w, size))
  }

  /** A fraction in `[0, 1)` of a positive `s` lies in `[0, s)`. */
  lemma FractionScaled(t: real, s: real)
    requires 0.0 <= t < 1.0 && s > 0.0
    ensures 0.0 <= t * s < s
  {
    assert s - t * s == (1.0 - t) * s;
  }

  /** `x.Floor` is the largest integer not above `x`. */
  lemma FloorBounds(x: real)
    ensures x.Floor as real <= x < x.Floor as real + 1.0
  {
  }

  /** One `if (first) ... else if (second) ...` pair of `update`: the turn, and whether it fired. */
  method TurnPair(first: bool, second: bool, v: Axis, k: Axis, angle: real, accelerating: bool)
    returns (turn: seq<Op>, moved: bool)
    ensures turn == PairTurn(first, second, v, k, angle, accelerating)
    ensures moved <==> turn != []
  {
    turn, moved := [], false;
    if first {
      turn, moved := [TurnOf(v, k, angle, accelerating)], true;
    } else if second {
      turn, moved := [TurnOf(k, v, angle, accelerating)], true;
    }
  }

  /**
   * The six pairs of `update`, on the intents as they stand: the turns in
   * order, and whether any fired.
   */
  method TurnKeys(c: ControlStates, seconds: real) returns (turns: seq<Op>, moved: bool)
    ensures turns == KeyTurns(c, seconds)
    ensures moved <==> turns != []
  {
    var angle := KeyAngle(seconds);
    var accelerating := Accelerating(c);
    var pitch, m0 := TurnPair(c.pup, c.pdn, Z, Y, angle, accelerating);
    var yaw, m1 := TurnPair(c.yrt, c.ylt, Z, X, angle, accelerating);
    var roll, m2 := TurnPair(c.rrt, c.rlt, X, Y, angle, accelerating);
    var pitch4, m3 := TurnPair(c.wup, c.wdn, Z, W, angle, accelerating);
    var yaw4, m4 := TurnPair(c.wyr, c.wyl, W, Y, angle, accelerating);
    var roll4, m5 := TurnPair(c.wrr, c.wrl, W, X, angle, accelerating);
    turns := pitch + yaw + roll + pitch4 + yaw4 + roll4;
    KeyTurnsUnfold(c, seconds, angle, accelerating);
    assert |turns| == |pitch| + |yaw| + |roll| + |pitch4| + |yaw4| + |roll4|;
    moved := m0 || m1 || m2 || m3 || m4 || m5;
  }

  /** `KeyTurns` spelled out on the angle and the flag a caller has computed. */
  lemma KeyTurnsUnfold(c: ControlStates, seconds: real, a: real, acc: bool)
    requires a == KeyAngle(seconds) && acc == Accelerating(c)
    ensures KeyTurns(c, seconds)
            == PairTurn(c.pup, c.pdn, Z, Y, a, acc)
               + PairTurn(c.yrt, c.ylt, Z, X, a, acc)
               + PairTurn(c.rrt, c.rlt, X, Y, a, acc)
               + PairTurn(c.wup, c.wdn, Z, W, a, acc)
               + PairTurn(c.wyr, c.wyl, W, Y, a, acc)
               + PairTurn(c.wrr, c.wrl, W, X, a, acc)
  {
  }

  /** The `mouse:` block of `update`: the pointer turns, and whether any fired. */
  method TurnMouse(c: ControlStates, seconds: real) returns (turns: seq<Op>, moved: bool)
    ensures turns == MouseTurns(c.mouse, c.mouseX, c.mouseY, seconds)
    ensures moved <==> turns != []
  {
    turns, moved := [], false;
    if c.mouse {
      var x, y := c.mouseX, c.mouseY;
      if x * x + y * y > 1.0 {
        return;
      }
      if x != 0.0 {
        turns, moved := [TurnOf(Z, X, x * seconds, true)], true;
      }
      if y != 0.0 {
        turns, moved := turns + [TurnOf(Y, Z, y * seconds, true)], true;
      }
      assert turns == (if x != 0.0 then [TurnOf(Z, X, x * seconds, true)] else [])
                      + (if y != 0.0 then [TurnOf(Y, Z, y * seconds, true)] else []);
      MouseTurnsInside(x, y, seconds);
    }
  }

  /** The float steps of the steering half of `update`, in order. */
  function Steering(c: ControlStates, seconds: real): seq<Op>
    reads c
  {
    var turns := Turns(c, seconds);
    turns + (if turns != [] then [Renormalize] else []) + [SpeedOf(c.fwd, c.bak, c.mouse, seconds)]
  }

  /**
   * The steering half of `update`: every turn asked for, a renormalisation
   * exactly when something turned, then the speed update.
   */
  method Steer(c: ControlStates, seconds: real) returns (steps: seq<Op>, turned: bool)
    ensures steps == Steering(c, seconds)
    ensures turned <==> Turns(c, seconds) != []
  {
    var keyed, byKeys := TurnKeys(c, seconds);
    var pointed, byMouse := TurnMouse(c, seconds);
    turned := byKeys || byMouse;
    steps := keyed + pointed;
    if turned {
      steps := steps + [Renormalize];
    }
    steps := steps + [SpeedOf(c.fwd, c.bak, c.mouse, seconds)];
  }

  /** The player. */
  class Player {
    var pos: Vec4
    var velocity: Vec4
    var rgt: Vec4
    var up: Vec4
    var fwd: Vec4
    var ana: Vec4
    /** The float steps taken so far, oldest first. */
    var ops: seq<Op>

    /**
     * `new Player(pos, ana)`: at rest, with the frame `basis` rotated so
     * that `ana` points along the chosen axis and `rgt`, `up`, `fwd`
     * follow it round the axes.
     */
    constructor(start: Vec4, axis: Axis)
      ensures pos == start && velocity == Zero && ops == []
      ensures [rgt, up, fwd, ana] == Rotated(Basis, (IndexOf(axis) + 1) % 4)
      ensures ana == Unit(axis)
    {
      pos := start;
      velocity := Zero;
      ops := [];
      var frame := RotArray(Basis, (IndexOf(axis) + 1) % 4);
      rgt, up, fwd, ana := frame[0], frame[1], frame[2], frame[3];
      new;
      assert frame == [rgt, up, fwd, ana];
      FrameAna(axis);
    }

    /**
     * `translate(seconds, map)`: nothing moves at zero speed; otherwise the
     * player walks to `reached` (the end of the collision walk), each
     * coordinate is wrapped into the maze, and the velocity becomes
     * `redirected`, what the walk's rejections against the walls it hit
     * leave of it (the velocity itself when it hit none).
     */
    method Translate(seconds: real, size: nat, reached: Vec4, redirected: Vec4) returns (moved: bool)
      requires size > 0
      modifies this`ops, this`pos, this`velocity
      ensures moved <==> old(Len2(velocity)) != 0.0
      ensures ops == old(ops) + (if moved then [Move(seconds)] else [])
      ensures pos == if moved then Wrapped(reached, size) else old(pos)
      ensures velocity == if moved then redirected else old(velocity)
    {
      if Len2(velocity) == 0.0 {
        return false;
      }
      var wrapped := Wrapped(reached, size);
      ops := ops + [Move(seconds)];
      pos := wrapped;
      velocity := redirected;
      return true;
    }

    /**
     * `update(controls, seconds, map)`: the key turns, the mouse turns, a
     * renormalisation exactly when something turned, the speed update
     * (`slowed` is the velocity its drag arithmetic leaves) and the move,
     * which ends at `reached` with velocity `redirected`; the result says
     * whether the player turned or moved.
     */
    method Update(c: ControlStates, seconds: real, size: nat, slowed: Vec4, reached: Vec4, redirected: Vec4)
      returns (changed: bool)
      requires size > 0
      modifies this`ops, this`velocity, this`pos
      ensures ops == old(ops) + old(Steering(c, seconds))
                     + (if Len2(slowed) != 0.0 then [Move(seconds)] else [])
      ensures velocity == if Len2(slowed) != 0.0 then redirected else slowed
      ensures pos == if Len2(slowed) != 0.0 then Wrapped(reached, size) else old(pos)
      ensures changed <==> Len2(slowed) != 0.0 || old(Turns(c, seconds)) != []
    {
      var steps, turned := Steer(c, seconds);
      ops := ops + steps;
      velocity := slowed;
      var translated := Translate(seconds, size, reached, redirected);
      changed := translated || turned;
    }
  }

  /** The last of the rotated basis is the unit vector along the chosen axis. */
  lemma FrameAna(axis: Axis)
    ensures Rotated(Basis, (IndexOf(axis) + 1) % 4)[3] == Unit(axis)
  {
    match axis
    case X => RotatedAt(Basis, 1, 3); BasisIndexed(X);
    case Y => RotatedAt(Basis, 2, 3); BasisIndexed(Y);
    case Z => RotatedAt(Basis, 3, 3); BasisIndexed(Z);
    case W => RotatedAt(Basis, 0, 3); BasisIndexed(W);
  }

  /** Entry `i` of a rotation of a four-element sequence by `count` in `[0, 4)`. */
  lemma RotatedAt<T>(arr: seq<T>, count: int, i: int)
    requires |arr| == 4 && 0 <= count < 4 && 0 <= i < 4
    ensures Rotated(arr, count)[i] == arr[if i + count < 4 then i + count else i + count - 4]
  {
  }

  /** The initial frame is the four unit vectors, each once. */
  lemma FrameIsBasis(axis: Axis)
    ensures multiset(Rotated(Basis, (IndexOf(axis) + 1) % 4)) == multiset(Basis)
  {
    RotatedPermutes(Basis, (IndexOf(axis) + 1) % 4);
  }

  /** With nothing asked for, `update` turns nothing. */
  lemma IdleTurnsNothing(c: ControlStates, seconds: real)
    requires c.Idle()
    ensures Turns(c, seconds) == []
  {
  }

  /**
   * With the intents coherent, as the updater leaves them, each pair turns
   * exactly when one of its controls is set, and priority never decides.
   */
  lemma CoherentPairs(first: bool, second: bool, v: Axis, k: Axis, halfTurns: real, accelerating: bool)
    requires !(first && second)
    ensures PairTurn(first, second, v, k, halfTurns, accelerating)
            == PairTurn(second, first, k, v, halfTurns, accelerating)
  {
  }
}
