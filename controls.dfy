/**
 * src/Controls.ts: the binding tables handed to `Game.setInputMap` and the
 * updater that turns the held logical keys and the pointer offset into the
 * player's control intents.
 */
module Controls {
  import opened Game

  /** The logical key names (`keyof MazeKeyValues`). */
  const KeyNames: set<string> := {
    "m", "spc", "sft", "min", "pls", "lft", "rgt", "rlt", "rrt", "up", "dwn",
    "wlt", "wrt", "wrl", "wrr", "wup", "wdn", "x", "y", "z", "lmb", "rmb"
  }

  /** `keyCodes`: keyboard codes to logical names. */
  const KeyCodes: InputCodes := map[
    77 := "m",
    32 := "spc", 16 := "sft",
    109 := "min", 107 := "pls",
    189 := "min", 187 := "pls",
    37 := "lft", 39 := "rgt",
    74 := "lft", 76 := "rgt",
    100 := "lft", 102 := "rgt",
    36 := "rlt", 33 := "rrt",
    85 := "rlt", 79 := "rrt",
    103 := "rlt", 105 := "rrt",
    38 := "up", 40 := "dwn",
    73 := "up", 75 := "dwn",
    104 := "up", 101 := "dwn",
    65 := "wlt", 68 := "wrt",
    81 := "wrl", 69 := "wrr",
    87 := "wup", 83 := "wdn",
    44 := "z", 46 := "x", 47 := "y",
    90 := "z", 88 := "x", 67 := "y",
    188 := "z", 190 := "x", 191 := "y"
  ]

  /** `mouseCodes`: mouse buttons to logical names. */
  const MouseCodes: InputCodes := map[0 := "lmb", 2 := "rmb"]

  /**
   * `MazeKeyValues`: the logical keys as the updater reads them. The game's
   * key table is read through this view; a name the table lacks reads as
   * not held.
   */
  datatype MazeKeys = MazeKeys(
    m: bool, spc: bool, sft: bool, min: bool, pls: bool,
    lft: bool, rgt: bool, rlt: bool, rrt: bool, up: bool, dwn: bool,
    wlt: bool, wrt: bool, wrl: bool, wrr: bool, wup: bool, wdn: bool,
    x: bool, y: bool, z: bool, lmb: bool, rmb: bool)

  /** The game's key table read as `MazeKeyValues`: each field is whether its name is held. */
  function View(keys: KeyValues): (k: MazeKeys)
    ensures k.m == Held(keys, "m") && k.spc == Held(keys, "spc") && k.sft == Held(keys, "sft")
    ensures k.min == Held(keys, "min") && k.pls == Held(keys, "pls")
    ensures k.lft == Held(keys, "lft") && k.rgt == Held(keys, "rgt")
    ensures k.rlt == Held(keys, "rlt") && k.rrt == Held(keys, "rrt")
    ensures k.up == Held(keys, "up") && k.dwn == Held(keys, "dwn")
    ensures k.wlt == Held(keys, "wlt") && k.wrt == Held(keys, "wrt")
    ensures k.wrl == Held(keys, "wrl") && k.wrr == Held(keys, "wrr")
    ensures k.wup == Held(keys, "wup") && k.wdn == Held(keys, "wdn")
    ensures k.x == Held(keys, "x") && k.y == Held(keys, "y") && k.z == Held(keys, "z")
    ensures k.lmb == Held(keys, "lmb") && k.rmb == Held(keys, "rmb")
  {
    MazeKeys(Held(keys, "m"), Held(keys, "spc"), Held(keys, "sft"), Held(keys, "min"), Held(keys, "pls"),
      Held(keys, "lft"), Held(keys, "rgt"), Held(keys, "rlt"), Held(keys, "rrt"), Held(keys, "up"), Held(keys, "dwn"),
      Held(keys, "wlt"), Held(keys, "wrt"), Held(keys, "wrl"), Held(keys, "wrr"), Held(keys, "wup"), Held(keys, "wdn"),
      Held(keys, "x"), Held(keys, "y"), Held(keys, "z"), Held(keys, "lmb"), Held(keys, "rmb"))
  }

  /**
   * A pair of opposing intents follows a pair of opposing keys: each key
   * alone drives its own intent; both held, or neither, drive nothing.
   */
  predicate Follows(a: bool, b: bool, ka: bool, kb: bool)
  {
    !(a && b) && (a || b <==> ka != kb) && (a ==> ka) && (b ==> kb)
  }

  /** Key `a` is held and its opposite `b` is not. */
  predicate Alone(a: bool, b: bool)
  {
    a && !b
  }

  /** `Follows` leaves exactly one choice for the pair of intents. */
  lemma FollowsDetermines(a: bool, b: bool, ka: bool, kb: bool)
    requires Follows(a, b, ka, kb)
    ensures a == (ka && !kb) && b == (!ka && kb)
  {
  }

  /**
   * `ControlStates`: what the player is asked to do this frame. The object
   * is shared: the updater writes it and the player reads it.
   */
  class ControlStates {
    var mark: bool
    var fwd: bool
    var bak: bool
    var pup: bool
    var pdn: bool
    var ylt: bool
    var yrt: bool
    var rlt: bool
    var rrt: bool
    var wup: bool
    var wdn: bool
    var wyl: bool
    var wyr: bool
    var wrl: bool
    var wrr: bool
    var zoomin: bool
    var zoomout: bool
    var mouse: bool
    var mouseX: real
    var mouseY: real

    /** A copy of `defaultControlStates`: nothing asked for, pointer centred. */
    constructor()
      ensures Idle() && mouseX == 0.0 && mouseY == 0.0
    {
      mark := false;
      fwd, bak := false, false;
      pup, pdn := false, false;
      ylt, yrt := false, false;
      rlt, rrt := false, false;
      wup, wdn := false, false;
      wyl, wyr := false, false;
      wrl, wrr := false, false;
      zoomin, zoomout := false, false;
      mouse, mouseX, mouseY := false, 0.0, 0.0;
    }

    /** No intent is set. */
    predicate Idle()
      reads this
    {
      && !mark && !fwd && !bak && !pup && !pdn && !ylt && !yrt && !rlt && !rrt
      && !wup && !wdn && !wyl && !wyr && !wrl && !wrr && !zoomin && !zoomout && !mouse
    }

    /** No two opposing intents are set together. */
    predicate Coherent()
      reads this
    {
      && !(fwd && bak) && !(zoomin && zoomout)
      && !(pup && pdn) && !(ylt && yrt) && !(rlt && rrt)
      && !(wup && wdn) && !(wyl && wyr) && !(wrl && wrr)
    }

    /**
     * The intents the updater derives from the held keys and the pointer:
     * the mouse is engaged while either button is held and its offset is
     * mirrored; motion follows the left button while the mouse is engaged
     * and space otherwise, and shift turns it backward; `m` marks; every
     * turn and the zoom follow their pair of keys.
     */
    predicate Intends(keys: MazeKeys, pos: MousePos)
      reads this
    {
      && (mouse <==> keys.rmb || keys.lmb)
      && mouseX == -pos.mouseX && mouseY == -pos.mouseY
      && (fwd || bak <==> if mouse then keys.lmb else keys.spc)
      && !(fwd && bak) && (bak ==> keys.sft) && (fwd ==> !keys.sft)
      && mark == keys.m
      && Follows(zoomin, zoomout, keys.min, keys.pls)
      && Follows(pup, pdn, keys.up, keys.dwn)
      && Follows(ylt, yrt, keys.lft, keys.rgt)
      && Follows(rlt, rrt, keys.rlt, keys.rrt)
      && Follows(wup, wdn, keys.wup, keys.wdn)
      && Follows(wyl, wyr, keys.wlt, keys.wrt)
      && Follows(wrl, wrr, keys.wrl, keys.wrr)
    }

    /**
     * The closure `UpdateControls(states)` returns, applied: every field of
     * the captured `states` is overwritten from the keys and the pointer
     * alone, group by group in the source's order.
     */
    method Update(keys: MazeKeys, pos: MousePos)
      modifies this
      ensures (mouse <==> keys.rmb || keys.lmb) && mouseX == -pos.mouseX && mouseY == -pos.mouseY
      ensures fwd || bak <==> if mouse then keys.lmb else keys.spc
      ensures !(fwd && bak) && (bak ==> keys.sft) && (fwd ==> !keys.sft)
      ensures mark == keys.m && Follows(zoomin, zoomout, keys.min, keys.pls)
      ensures Follows(pup, pdn, keys.up, keys.dwn)
      ensures Follows(ylt, yrt, keys.lft, keys.rgt)
      ensures Follows(rlt, rrt, keys.rlt, keys.rrt)
      ensures Follows(wup, wdn, keys.wup, keys.wdn)
      ensures Follows(wyl, wyr, keys.wlt, keys.wrt)
      ensures Follows(wrl, wrr, keys.wrl, keys.wrr)
    {
      SetMouse(keys, pos);
      SetMotion(keys);
      SetMarkZoom(keys);
      SetTurns3D(keys);
      SetTurns4D(keys);
    }

    /** The mouse part of the updater: engaged while a button is held, offset mirrored. */
    method SetMouse(keys: MazeKeys, pos: MousePos)
      modifies this`mouse, this`mouseX, this`mouseY
      ensures (mouse <==> keys.rmb || keys.lmb) && mouseX == -pos.mouseX && mouseY == -pos.mouseY
    {
      mouse := keys.rmb || keys.lmb;
      mouseX := -pos.mouseX;
      mouseY := -pos.mouseY;
    }

    /** Forward and backward motion, driven by the left button or by space. */
    method SetMotion(keys: MazeKeys)
      modifies this`fwd, this`bak
      ensures fwd || bak <==> if mouse then keys.lmb else keys.spc
      ensures !(fwd && bak) && (bak ==> keys.sft) && (fwd ==> !keys.sft)
    {
      if mouse {
        fwd := Alone(keys.lmb, keys.sft);
        bak := keys.lmb && keys.sft;
      } else {
        fwd := Alone(keys.spc, keys.sft);
        bak := keys.spc && keys.sft;
      }
    }

    /** Marking and zooming. */
    method SetMarkZoom(keys: MazeKeys)
      modifies this`mark, this`zoomin, this`zoomout
      ensures mark == keys.m && Follows(zoomin, zoomout, keys.min, keys.pls)
    {
      mark := keys.m;
      zoomin := Alone(keys.min, keys.pls);
      zoomout := Alone(keys.pls, keys.min);
    }

    /** The 3D turns: pitch, yaw and roll. */
    method SetTurns3D(keys: MazeKeys)
      modifies this`pup, this`pdn, this`ylt, this`yrt, this`rlt, this`rrt
      ensures Follows(pup, pdn, keys.up, keys.dwn)
      ensures Follows(ylt, yrt, keys.lft, keys.rgt)
      ensures Follows(rlt, rrt, keys.rlt, keys.rrt)
    {
      pup := Alone(keys.up, keys.dwn);
      pdn := Alone(keys.dwn, keys.up);
      ylt := Alone(keys.lft, keys.rgt);
      yrt := Alone(keys.rgt, keys.lft);
      rlt := Alone(keys.rlt, keys.rrt);
      rrt := Alone(keys.rrt, keys.rlt);
    }

    /** The 4D turns: the three planes through the fourth axis. */
    method SetTurns4D(keys: MazeKeys)
      modifies this`wup, this`wdn, this`wyl, this`wyr, this`wrl, this`wrr
      ensures Follows(wup, wdn, keys.wup, keys.wdn)
      ensures Follows(wyl, wyr, keys.wlt, keys.wrt)
      ensures Follows(wrl, wrr, keys.wrl, keys.wrr)
    {
      wup := Alone(keys.wup, keys.wdn);
      wdn := Alone(keys.wdn, keys.wup);
      wyl := Alone(keys.wlt, keys.wrt);
      wyr := Alone(keys.wrt, keys.wlt);
      wrl := Alone(keys.wrl, keys.wrr);
      wrr := Alone(keys.wrr, keys.wrl);
    }
  }

  /** What the updater sets is coherent: no two opposing intents together. */
  lemma IntendsCoherent(s: ControlStates, keys: MazeKeys, pos: MousePos)
    requires s.Intends(keys, pos)
    ensures s.Coherent()
  {
  }

  /**
   * The intents are a function of the keys and the pointer alone: two
   * states that both carry them agree on every field, so the updater
   * overwrites everything and a second call changes nothing.
   */
  lemma IntendsUnique(s: ControlStates, t: ControlStates, keys: MazeKeys, pos: MousePos)
    requires s.Intends(keys, pos) && t.Intends(keys, pos)
    ensures s.mark == t.mark && s.fwd == t.fwd && s.bak == t.bak
    ensures s.pup == t.pup && s.pdn == t.pdn && s.ylt == t.ylt && s.yrt == t.yrt
    ensures s.rlt == t.rlt && s.rrt == t.rrt
    ensures s.wup == t.wup && s.wdn == t.wdn && s.wyl == t.wyl && s.wyr == t.wyr
    ensures s.wrl == t.wrl && s.wrr == t.wrr
    ensures s.zoomin == t.zoomin && s.zoomout == t.zoomout
    ensures s.mouse == t.mouse && s.mouseX == t.mouseX && s.mouseY == t.mouseY
  {
  }

  /** With no key held, the updater asks for nothing. */
  lemma RestIsIdle(s: ControlStates, pos: MousePos)
    requires s.Intends(View(map[]), pos)
    ensures s.Idle()
  {
  }

  /** The tables bind only logical names. */
  lemma TablesBindNames()
    ensures forall c | c in KeyCodes :: KeyCodes[c] in KeyNames
    ensures forall c | c in MouseCodes :: MouseCodes[c] in KeyNames
  {
  }

  /** a/d, q/e and w/s drive the three 4D turns; the buttons are `lmb` and `rmb`. */
  lemma TablesFourDKeys()
    ensures KeyCodes[65] == "wlt" && KeyCodes[68] == "wrt"
    ensures KeyCodes[81] == "wrl" && KeyCodes[69] == "wrr"
    ensures KeyCodes[87] == "wup" && KeyCodes[83] == "wdn"
    ensures MouseCodes[0] == "lmb" && MouseCodes[2] == "rmb"
  {
  }

  /**
   * No name is bound both to a key and to a button, which is what `Game`
   * needs to keep the held names in step with the devices.
   */
  lemma TablesDisjoint()
    ensures Disjoint(KeyCodes, MouseCodes)
  {
  }
}
