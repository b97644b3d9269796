/**
 * Controls.js: the older controller. Key and button events write the
 * logical keys (`0` or `1`) straight into `keys`, and every key event
 * derives the intents and the three rotation planes again from them.
 */
module ControlsJs {
  import opened Controls

  /** The property names of `this.keys`. */
  datatype Name = M | Spc | Sft | Min | Pls | Lft | Rgt | Rlt | Rrt | Up | Dwn | X | Y | Z | Lmb | Rmb

  /** `this.keys`: every name holds `0` or `1`. */
  type Keys = map<Name, int>

  /** `this.codes`: keyboard codes to names. */
  const Codes: map<int, Name> := map[
    77 := M,
    32 := Spc, 16 := Sft,
    109 := Min, 107 := Pls,
    189 := Min, 187 := Pls,
    37 := Lft, 39 := Rgt,
    65 := Lft, 68 := Rgt,
    74 := Lft, 76 := Rgt,
    100 := Lft, 102 := Rgt,
    81 := Rlt, 69 := Rrt,
    36 := Rlt, 33 := Rrt,
    85 := Rlt, 79 := Rrt,
    103 := Rlt, 105 := Rrt,
    38 := Up, 40 := Dwn,
    87 := Up, 83 := Dwn,
    73 := Up, 75 := Dwn,
    104 := Up, 101 := Dwn,
    12 := Dwn,
    44 := Z, 46 := X, 47 := Y,
    90 := Z, 88 := X, 67 := Y,
    188 := Z, 190 := X, 191 := Y
  ]

  /** The initial `keys`: every name at `0`. */
  const Released: Keys := map[
    M := 0, Spc := 0, Sft := 0, Min := 0, Pls := 0, Lft := 0, Rgt := 0, Rlt := 0, Rrt := 0,
    Up := 0, Dwn := 0, X := 0, Y := 0, Z := 0, Lmb := 0, Rmb := 0]

  /** Every name is present and holds `0` or `1`. */
  ghost predicate Bits(keys: Keys)
  {
    forall n: Name :: n in keys && 0 <= keys[n] <= 1
  }

  /** A name is held when its value is truthy. */
  predicate On(keys: Keys, n: Name)
  {
    n in keys && keys[n] != 0
  }

  /** A rotation plane: the two axes it turns. */
  datatype Planes = Planes(vp: char, kp: char, vy: char, ky: char, vr: char, kr: char)

  /**
   * The planes `onKey` selects: pitch (z,y), yaw (z,x) and roll (y,x) by
   * default; when the values of x, y and z add up to one, every second axis
   * is `w` and the first axes follow the held modifier.
   */
  function PlanesFor(keys: Keys): (p: Planes)
    requires X in keys && Y in keys && Z in keys
    ensures p.kp == p.ky == p.kr <==> keys[X] + keys[Y] + keys[Z] == 1
    ensures keys[X] + keys[Y] + keys[Z] == 1 ==> p.kp == 'w'
    ensures keys[X] + keys[Y] + keys[Z] != 1 ==> p == Planes('z', 'y', 'z', 'x', 'y', 'x')
    ensures p.vp != p.kp && p.vy != p.ky && p.vr != p.kr
    ensures {p.vp, p.vy, p.vr} == {'x', 'y', 'z'} || p.kp != 'w'
  {
    if keys[X] + keys[Y] + keys[Z] == 1 then
      if keys[X] != 0 then Planes('x', 'w', 'y', 'w', 'z', 'w')
      else if keys[Y] != 0 then Planes('y', 'w', 'z', 'w', 'x', 'w')
      else Planes('z', 'w', 'x', 'w', 'y', 'w')
    else Planes('z', 'y', 'z', 'x', 'y', 'x')
  }

  /** With values `0` and `1`, the sum test of `onKey` means exactly one of x, y, z is held. */
  lemma SumIsOne(keys: Keys)
    requires Bits(keys)
    ensures keys[X] + keys[Y] + keys[Z] == 1 <==>
              (On(keys, X) && !On(keys, Y) && !On(keys, Z))
              || (!On(keys, X) && On(keys, Y) && !On(keys, Z))
              || (!On(keys, X) && !On(keys, Y) && On(keys, Z))
  {
    assert 0 <= keys[X] <= 1 && 0 <= keys[Y] <= 1 && 0 <= keys[Z] <= 1;
  }

  /** With exactly one modifier held, its own axis turns against `w` in the pitch plane. */
  lemma ModifierPlanes(keys: Keys)
    requires Bits(keys)
    ensures On(keys, X) && !On(keys, Y) && !On(keys, Z) ==> PlanesFor(keys) == Planes('x', 'w', 'y', 'w', 'z', 'w')
    ensures !On(keys, X) && On(keys, Y) && !On(keys, Z) ==> PlanesFor(keys) == Planes('y', 'w', 'z', 'w', 'x', 'w')
    ensures !On(keys, X) && !On(keys, Y) && On(keys, Z) ==> PlanesFor(keys) == Planes('z', 'w', 'x', 'w', 'y', 'w')
  {
    SumIsOne(keys);
  }

  /**
   * `keys` after `keys[key] = val`: the name takes the event's value
   * whatever its other codes are doing.
   */
  function Write(keys: Keys, code: int, val: int): (r: Keys)
    ensures code !in Codes ==> r == keys
    ensures code in Codes ==> r == keys[Codes[code] := val]
  {
    if code in Codes then keys[Codes[code] := val] else keys
  }

  /**
   * Releasing one code of a name clears the name although another of its
   * codes is still down: press left arrow (37), press `a` (65), release `a`.
   */
  lemma AliasReleaseClears()
    ensures var k := Write(Write(Write(Released, 37, 1), 65, 1), 65, 0);
            !On(k, Lft)
  {
  }

  /**
   * `this.states`, without the pointer offsets: a plain record that the
   * handlers update a few properties at a time and the player reads.
   */
  datatype States = States(
    mark: bool, unmk: bool,
    fwd: bool, bak: bool,
    pup: bool, pdn: bool,
    ylt: bool, yrt: bool,
    rlt: bool, rrt: bool,
    zoomin: bool, zoomout: bool,
    mouse: bool,
    planes: Planes)
  {
    /** Some rotation is asked for. */
    predicate Rotating()
    {
      pup || pdn || ylt || yrt || rlt || rrt
    }

    /** Marking and zooming follow `m`, `min` and `pls`. */
    predicate MarkZoomOf(keys: Keys)
    {
      mark == On(keys, M) && Follows(zoomin, zoomout, On(keys, Min), On(keys, Pls))
    }

    /**
     * Motion: with shift held only backward, and only on space without the
     * left button; otherwise only forward, on space or the left button.
     */
    predicate MotionOf(keys: Keys)
    {
      && (fwd <==> !On(keys, Sft) && (On(keys, Spc) || On(keys, Lmb)))
      && (bak <==> On(keys, Sft) && On(keys, Spc) && !On(keys, Lmb))
    }

    /** Pitch, yaw and roll follow their keys. */
    predicate TurnsOf(keys: Keys)
    {
      && Follows(pup, pdn, On(keys, Up), On(keys, Dwn))
      && Follows(ylt, yrt, On(keys, Lft), On(keys, Rgt))
      && Follows(rlt, rrt, On(keys, Rlt), On(keys, Rrt))
    }

    /**
     * Every intent is derived from the keys, the mouse is engaged exactly
     * while a button is held, and the planes are those of the keys whenever
     * a rotation is asked for.
     */
    predicate DerivedFrom(keys: Keys)
      requires X in keys && Y in keys && Z in keys
    {
      && MarkZoomOf(keys) && MotionOf(keys) && TurnsOf(keys)
      && (mouse <==> On(keys, Lmb) || On(keys, Rmb))
      && (Rotating() ==> planes == PlanesFor(keys))
    }
  }

  /** The initial `states`: nothing asked for; the roll plane starts as (x,y). */
  const Initial: States := States(
    false, false, false, false, false, false, false, false, false, false, false, false, false,
    Planes('z', 'y', 'z', 'x', 'x', 'y'))

  /** The intents of two opposing keys. */
  method Opposed(a: bool, b: bool) returns (x: bool, y: bool)
    ensures Follows(x, y, a, b)
  {
    x := a && !b;
    y := !a && b;
  }

  /** The plane selection of `onKey`: the defaults, then the modifier's planes. */
  method SelectPlanes(keys: Keys) returns (p: Planes)
    requires X in keys && Y in keys && Z in keys
    ensures p == PlanesFor(keys)
  {
    var vp, kp, vy, ky, vr, kr := 'z', 'y', 'z', 'x', 'y', 'x';
    if keys[X] + keys[Y] + keys[Z] == 1 {
      if keys[X] != 0 {
        vp, kp, vy, ky, vr, kr := 'x', 'w', 'y', 'w', 'z', 'w';
      } else if keys[Y] != 0 {
        vp, kp, vy, ky, vr, kr := 'y', 'w', 'z', 'w', 'x', 'w';
      } else {
        vp, kp, vy, ky, vr, kr := 'z', 'w', 'x', 'w', 'y', 'w';
      }
    }
    p := Planes(vp, kp, vy, ky, vr, kr);
  }

  /** The controller: the logical keys and the intents derived from them. */
  class Controller {
    var keys: Keys
    var states: States

    /** The keys hold bits and the states are derived from them. */
    ghost predicate Valid()
      reads this
    {
      Bits(keys) && states.DerivedFrom(keys)
    }

    /** `new Controls(width, height)`, without the listeners. */
    constructor()
      ensures Valid() && keys == Released && states == Initial
    {
      ReleasedBits();
      keys := Released;
      states := Initial;
    }

    /**
     * `onKey(val, e)`: an unbound code changes nothing; otherwise the name
     * takes the value, and the intents and the planes are derived again.
     */
    method OnKey(val: int, keyCode: int)
      requires Valid() && 0 <= val <= 1
      modifies this
      ensures Valid()
      ensures keys == Write(old(keys), keyCode, val)
      ensures keyCode !in Codes ==> states == old(states)
      ensures keyCode in Codes ==> states.planes == PlanesFor(keys)
      ensures states.mouse == old(states.mouse) && states.unmk == old(states.unmk)
    {
      keys, states := KeyEvent(keys, states, val, keyCode);
    }

    /**
     * `onMouse(val, e)` for a press (`1`), a move (`0`) or a release (`-1`):
     * only buttons 0 and 2 count; a move changes only the pointer offsets,
     * which are not modelled.
     */
    method OnMouse(val: int, button: int)
      requires Valid()
      modifies this
      ensures Valid()
      ensures button != 0 && button != 2 ==> keys == old(keys) && states == old(states)
      ensures (button == 0 || button == 2) && val == 1 ==>
                keys == old(keys)[ButtonName(button) := 1] && states.mouse
      ensures (button == 0 || button == 2) && val == -1 ==>
                keys == old(keys)[ButtonName(button) := 0]
      ensures val != 1 && val != -1 ==> keys == old(keys) && states == old(states)
      ensures states.planes == old(states.planes) && states.unmk == old(states.unmk)
    {
      if button != 0 && button != 2 {
        return;
      }
      if val == 1 {
        keys, states := ButtonDown(keys, states, button);
      } else if val == -1 {
        keys, states := ButtonUp(keys, states, button);
      }
    }
  }

  /** The body of `onKey` on the controller's keys and states. */
  method KeyEvent(keys: Keys, states: States, val: int, keyCode: int) returns (k: Keys, s: States)
    requires Bits(keys) && states.DerivedFrom(keys) && 0 <= val <= 1
    ensures Bits(k) && s.DerivedFrom(k)
    ensures k == Write(keys, keyCode, val)
    ensures keyCode !in Codes ==> s == states
    ensures keyCode in Codes ==> s.planes == PlanesFor(k)
    ensures s.mouse == states.mouse && s.unmk == states.unmk
  {
    if keyCode !in Codes {
      return keys, states;
    }
    CodesBindNoButton();
    k := keys[Codes[keyCode] := val];
    KeyKeepsButtons(keys, Codes[keyCode], val);
    s := Derive(k, states);
  }

  /** Writing a key that is no button keeps the keys bits and leaves the buttons as they were. */
  lemma KeyKeepsButtons(keys: Keys, n: Name, val: int)
    requires Bits(keys) && n != Lmb && n != Rmb && 0 <= val <= 1
    ensures Bits(keys[n := val])
    ensures On(keys[n := val], Lmb) == On(keys, Lmb) && On(keys[n := val], Rmb) == On(keys, Rmb)
  {
  }

  /** The lines of `onKey` after `keys[key] = val`: every intent and plane from the keys. */
  method Derive(k: Keys, states: States) returns (s: States)
    requires X in k && Y in k && Z in k
    ensures s.MarkZoomOf(k) && s.MotionOf(k) && s.TurnsOf(k) && s.planes == PlanesFor(k)
    ensures s.mouse == states.mouse && s.unmk == states.unmk
  {
    var zin, zout := Opposed(On(k, Min), On(k, Pls));
    var fwd, bak := KeyMotion(On(k, Spc), On(k, Sft), On(k, Lmb));
    var pup, pdn := Opposed(On(k, Up), On(k, Dwn));
    var ylt, yrt := Opposed(On(k, Lft), On(k, Rgt));
    var rlt, rrt := Opposed(On(k, Rlt), On(k, Rrt));
    var p := SelectPlanes(k);
    s := states.(mark := On(k, M), zoomin := zin, zoomout := zout, fwd := fwd, bak := bak,
                 pup := pup, pdn := pdn, ylt := ylt, yrt := yrt, rlt := rlt, rrt := rrt,
                 planes := p);
  }

  /**
   * A button goes down: the mouse is engaged and, for the left button,
   * motion is forward unless shift is held.
   */
  method ButtonDown(keys: Keys, states: States, button: int) returns (k: Keys, s: States)
    requires Bits(keys) && states.DerivedFrom(keys) && (button == 0 || button == 2)
    ensures Bits(k) && s.DerivedFrom(k)
    ensures k == keys[ButtonName(button) := 1] && s.mouse
    ensures s.planes == states.planes && s.unmk == states.unmk
  {
    k := keys[ButtonName(button) := 1];
    ButtonKeeps(states, keys, ButtonName(button), 1);
    var fwd, bak := states.fwd, states.bak;
    if button == 0 {
      fwd, bak := !On(k, Sft), false;
    }
    s := states.(fwd := fwd, bak := bak, mouse := true);
  }

  /**
   * A button comes up: for the left button, motion falls back to space
   * and shift; the mouse stays engaged while the other button is held.
   */
  method ButtonUp(keys: Keys, states: States, button: int) returns (k: Keys, s: States)
    requires Bits(keys) && states.DerivedFrom(keys) && (button == 0 || button == 2)
    ensures Bits(k) && s.DerivedFrom(k)
    ensures k == keys[ButtonName(button) := 0]
    ensures s.planes == states.planes && s.unmk == states.unmk
  {
    k := keys[ButtonName(button) := 0];
    ButtonKeeps(states, keys, ButtonName(button), 0);
    var fwd, bak := states.fwd, states.bak;
    if button == 0 {
      fwd, bak := SpaceMotion(On(k, Spc), On(k, Sft));
    }
    var mouse := AnyButton(k);
    s := states.(fwd := fwd, bak := bak, mouse := mouse);
  }

  /** The shift branch of `onKey`: with shift only backward, on space without the left button; else only forward. */
  method KeyMotion(spc: bool, sft: bool, lmb: bool) returns (fwd: bool, bak: bool)
    ensures fwd == (!sft && (spc || lmb)) && bak == (sft && spc && !lmb)
  {
    if sft {
      fwd, bak := false, spc && !lmb;
    } else {
      fwd, bak := spc || lmb, false;
    }
  }

  /** Motion on space alone, as a left-button release sets it: forward without shift, backward with it. */
  method SpaceMotion(spc: bool, sft: bool) returns (fwd: bool, bak: bool)
    ensures fwd == (spc && !sft) && bak == (spc && sft)
  {
    fwd, bak := spc && !sft, spc && sft;
  }

  /** `keys.lmb || keys.rmb`: some button is held. */
  method AnyButton(keys: Keys) returns (r: bool)
    ensures r == (On(keys, Lmb) || On(keys, Rmb))
  {
    r := On(keys, Lmb) || On(keys, Rmb);
  }

  /** The name a button writes: `rmb` for button 2, `lmb` otherwise. */
  function ButtonName(button: int): Name
  {
    if button == 2 then Rmb else Lmb
  }

  /**
   * Writing a button leaves the keys bits, keeps the other names, and so
   * keeps every intent that does not look at the buttons.
   */
  lemma ButtonKeeps(s: States, keys: Keys, n: Name, v: int)
    requires Bits(keys) && s.DerivedFrom(keys)
    requires (n == Lmb || n == Rmb) && 0 <= v <= 1
    ensures Bits(keys[n := v])
    ensures s.MarkZoomOf(keys[n := v]) && s.TurnsOf(keys[n := v])
    ensures PlanesFor(keys[n := v]) == PlanesFor(keys)
    ensures On(keys[n := v], Spc) == On(keys, Spc) && On(keys[n := v], Sft) == On(keys, Sft)
    ensures On(keys[n := v], n) == (v == 1)
    ensures n == Lmb ==> On(keys[n := v], Rmb) == On(keys, Rmb)
    ensures n == Rmb ==> On(keys[n := v], Lmb) == On(keys, Lmb)
  {
    var k := keys[n := v];
    assert k[X] == keys[X] && k[Y] == keys[Y] && k[Z] == keys[Z];
  }

  /** Every name starts released. */
  lemma ReleasedBits()
    ensures Bits(Released)
    ensures forall n: Name :: !On(Released, n)
  {
    forall n: Name
      ensures n in Released && Released[n] == 0
    {
      match n
      case M => case Spc => case Sft => case Min => case Pls => case Lft => case Rgt =>
      case Rlt => case Rrt => case Up => case Dwn => case X => case Y => case Z =>
      case Lmb => case Rmb =>
    }
  }

  /**
   * The keys determine every intent: two records derived from the same keys
   * differ at most in `unmk` and, while nothing rotates, in the planes.
   */
  lemma DerivedUnique(s: States, t: States, keys: Keys)
    requires Bits(keys) && s.DerivedFrom(keys) && t.DerivedFrom(keys)
    ensures s.mark == t.mark && s.zoomin == t.zoomin && s.zoomout == t.zoomout
    ensures s.fwd == t.fwd && s.bak == t.bak && s.mouse == t.mouse
    ensures s.pup == t.pup && s.pdn == t.pdn && s.ylt == t.ylt && s.yrt == t.yrt
    ensures s.rlt == t.rlt && s.rrt == t.rrt
    ensures s.Rotating() ==> s.planes == t.planes
  {
    FollowsDetermines(s.zoomin, s.zoomout, On(keys, Min), On(keys, Pls));
  }

  /** Keys bind no button. */
  lemma CodesBindNoButton()
    ensures forall c | c in Codes :: Codes[c] != Lmb && Codes[c] != Rmb
  {
  }

  /** Forward and backward motion are never asked for together. */
  lemma MotionExclusive(s: States, keys: Keys)
    requires s.MotionOf(keys)
    ensures !(s.fwd && s.bak)
  {
  }
}
