/**
 * The input bookkeeping of src/Game.ts: physical key and button codes are
 * bound to logical names, the press state of every code is recorded, and a
 * logical name is held while any code bound to it is down. Every change of a
 * logical name is reported to the `update` callback; the model keeps the
 * `keys` argument of each such call in `Game.updates`.
 */
module Game {

  /** `keys`: logical name to held; the proxy reads `false` for a name never set. */
  type KeyValues = map<string, bool>
  /** `keyCodes`, `mouseCodes`: physical code to logical name. */
  type InputCodes = map<int, string>
  /** `reverseKey`, `reverseMouse`: logical name to the codes bound to it. */
  type ReverseCodes = map<string, seq<int>>
  /** `keyStates`, `mouseStates`: press state per code; a missing code reads as up. */
  type InputStates = map<int, bool>

  /** The pointer offset handed to the callback with the keys. */
  datatype MousePos = MousePos(mouseX: real, mouseY: real)

  /** Reading a name through the `keys` proxy. */
  function Held(keys: KeyValues, name: string): (b: bool)
    ensures b ==> name in keys
    ensures name !in keys ==> !b
  {
    name in keys && keys[name]
  }

  /** Reading a code's press state; `undefined` is falsy. */
  predicate Down(states: InputStates, code: int)
  {
    code in states && states[code]
  }

  /** Some code of `codes` is down. */
  predicate AliasDown(states: InputStates, codes: seq<int>)
  {
    exists i | 0 <= i < |codes| :: Down(states, codes[i])
  }

  /** `rev` lists, for every bound name, exactly the codes bound to it. */
  ghost predicate Reverses(rev: ReverseCodes, codes: InputCodes)
  {
    && Listed(rev, codes)
    && (forall name | name in rev :: rev[name] != [])
    && forall name, code {:trigger code in rev[name]} | name in rev ::
         code in rev[name] <==> code in codes && codes[code] == name
  }

  /** Every bound name has an entry in `rev`. */
  predicate Listed(rev: ReverseCodes, codes: InputCodes)
  {
    forall code | code in codes :: codes[code] in rev
  }

  /** No name is bound both by `kc` and by `mc`. */
  predicate Disjoint(kc: InputCodes, mc: InputCodes)
  {
    forall c, d | c in kc && d in mc :: kc[c] != mc[d]
  }

  /** The names some down code of `among` is bound to. */
  function PressedIn(states: InputStates, codes: InputCodes, among: set<int>): set<string>
  {
    set c | c in among && Down(states, c) && c in codes :: codes[c]
  }

  /** The names some down code is bound to. */
  function Pressed(states: InputStates, codes: InputCodes): (names: set<string>)
    ensures forall c | Down(states, c) && c in codes :: codes[c] in names
  {
    PressedIn(states, codes, states.Keys)
  }

  /**
   * The logical keys agree with the physical state: a name is held exactly
   * when some key or button bound to it is down.
   */
  ghost predicate SyncedWith(keys: KeyValues, ks: InputStates, ms: InputStates, kc: InputCodes, mc: InputCodes)
  {
    forall n :: Held(keys, n) <==> n in Pressed(ks, kc) || n in Pressed(ms, mc)
  }

  // ---------------------------------------------------------------------------
  // setInputMap

  /** Every name of `keys` set to `false`. */
  function Cleared(keys: KeyValues): (r: KeyValues)
    ensures r.Keys == keys.Keys
    ensures forall n :: !Held(r, n)
  {
    map k | k in keys :: false
  }

  /** `keys` with every name of `names` set to `true`. */
  function Raised(keys: KeyValues, names: set<string>): (r: KeyValues)
    ensures r.Keys == keys.Keys + names
    ensures forall n :: Held(r, n) <==> Held(keys, n) || n in names
  {
    map n | n in keys.Keys + names :: Held(keys, n) || n in names
  }

  /**
   * The keys `setInputMap` leaves: all cleared, then the names of the down
   * keys and the down buttons raised. They agree with the physical state.
   */
  function Remap(keys: KeyValues, ks: InputStates, ms: InputStates, kc: InputCodes, mc: InputCodes): (r: KeyValues)
    ensures SyncedWith(r, ks, ms, kc, mc)
  {
    Raised(Raised(Cleared(keys), Pressed(ks, kc)), Pressed(ms, mc))
  }

  /** The keys `setInputMap` leaves as written: down buttons are looked up in the key table. */
  function RemapAsWritten(keys: KeyValues, ks: InputStates, ms: InputStates, kc: InputCodes, mc: InputCodes): (r: KeyValues)
    ensures forall n :: Held(r, n) <==> n in Pressed(ks, kc) || n in Pressed(ms, kc)
  {
    Raised(Raised(Cleared(keys), Pressed(ks, kc)), Pressed(ms, kc))
  }

  /**
   * With the left button (code 0) bound to `lmb` and held, and no key table
   * entry for code 0, the written `setInputMap` releases `lmb`: the logical
   * keys no longer agree with the buttons.
   */
  lemma RemapAsWrittenDropsButton()
    ensures var ms := map[0 := true];
            var kc := map[32 := "spc"];
            var mc := map[0 := "lmb"];
            && "lmb" in Pressed(ms, mc)
            && !Held(RemapAsWritten(map["lmb" := true], map[], ms, kc, mc), "lmb")
            && !SyncedWith(RemapAsWritten(map["lmb" := true], map[], ms, kc, mc), map[], ms, kc, mc)
  {
    var ms := map[0 := true];
    var kc := map[32 := "spc"];
    var mc := map[0 := "lmb"];
    assert Down(ms, 0) && 0 in mc;
    assert "lmb" !in Pressed(ms, kc);
    assert "lmb" !in Pressed(map[], kc);
  }

  /** The first loop of `setInputMap`: clears every name and reports whether one was held. */
  method ClearAll(keys: KeyValues) returns (cleared: KeyValues, update: bool)
    ensures cleared == Cleared(keys)
    ensures update <==> exists k :: Held(keys, k)
  {
    cleared := keys;
    update := false;
    var names := keys.Keys;
    while names != {}
      invariant names <= keys.Keys && cleared.Keys == keys.Keys
      invariant forall k | k in cleared :: cleared[k] == (k in names && keys[k])
      invariant update <==> exists k | k in keys && k !in names :: keys[k]
      decreases names
    {
      var k :| k in names;
      update := update || cleared[k];
      cleared := cleared[k := false];
      names := names - {k};
    }
    if update {
      var k :| k in keys && k !in names && keys[k];
      assert Held(keys, k);
    }
  }

  /** Adding one code to the codes looked at adds at most its own name. */
  lemma PressedInStep(states: InputStates, codes: InputCodes, among: set<int>, c: int)
    ensures PressedIn(states, codes, among + {c})
         == PressedIn(states, codes, among) + (if Down(states, c) && c in codes then {codes[c]} else {})
  {
    var l := PressedIn(states, codes, among + {c});
    var r := PressedIn(states, codes, among) + (if Down(states, c) && c in codes then {codes[c]} else {});
    forall n | n in l ensures n in r {
      var d :| d in among + {c} && Down(states, d) && d in codes && codes[d] == n;
      if d != c {
        assert d in among;
      }
    }
  }

  /** After the codes `done`: `keys` with the names of the down codes among them raised. */
  ghost predicate RaisedOver(raised: KeyValues, keys: KeyValues, states: InputStates, codes: InputCodes, done: set<int>)
  {
    && raised.Keys == keys.Keys + PressedIn(states, codes, done)
    && forall n | n in raised :: raised[n] == (Held(keys, n) || n in PressedIn(states, codes, done))
  }

  /** One more code of the restoring loop: its name is raised when it is down and bound. */
  lemma RaisedOverStep(raised: KeyValues, keys: KeyValues, states: InputStates, codes: InputCodes, done: set<int>, c: int)
    requires c in states
    requires RaisedOver(raised, keys, states, codes, done)
    ensures RaisedOver(if c in codes && states[c] then raised[codes[c] := true] else raised, keys, states, codes, done + {c})
  {
    PressedInStep(states, codes, done, c);
  }

  /** The key and button loops of `setInputMap`: raise the name of every down code. */
  method Restore(keys: KeyValues, states: InputStates, codes: InputCodes) returns (raised: KeyValues)
    ensures raised == Raised(keys, Pressed(states, codes))
  {
    raised := keys;
    var done: set<int> := {};
    var left := states.Keys;
    while exists c :: c in left
      invariant left + done == states.Keys && left !! done
      invariant RaisedOver(raised, keys, states, codes, done)
      decreases left
    {
      var c :| c in left;
      RaisedOverStep(raised, keys, states, codes, done, c);
      if c in codes && states[c] {
        raised := raised[codes[c] := true];
      }
      done := done + {c};
      left := left - {c};
    }
    assert done == states.Keys;
  }

  /** The reverse-map loops of `setInputMap`: every code appended under its name. */
  method ReverseOf(codes: InputCodes) returns (rev: ReverseCodes)
    ensures Reverses(rev, codes)
  {
    rev := map[];
    var done: set<int> := {};
    var left := codes.Keys;
    while exists c :: c in left
      invariant left + done == codes.Keys && left !! done
      invariant forall c | c in done :: codes[c] in rev
      invariant forall name | name in rev :: rev[name] != []
      invariant forall name, code {:trigger code in rev[name]} | name in rev ::
                  code in rev[name] <==> code in done && codes[code] == name
      decreases left
    {
      var k :| k in left;
      var v := codes[k];
      var l := if v in rev then rev[v] else [];
      rev := rev[v := l + [k]];
      done := done + {k};
      left := left - {k};
    }
    assert done == codes.Keys;
  }

  // ---------------------------------------------------------------------------
  // onKey and onMouse

  /** The effect of a press or release of `code` on the logical keys, and whether `update` is called. */
  datatype Reaction = Reaction(keys: KeyValues, notify: bool)

  /**
   * The logic shared by `onKey` and `onMouse`, after the code's own state is
   * recorded in `states`. An unbound code changes nothing; a press raises its
   * name unless it is already held; a release drops its name only when no
   * other code bound to it is down. `update` is called exactly when the keys
   * change.
   */
  function React(keys: KeyValues, states: InputStates, codes: InputCodes, rev: ReverseCodes, code: int, val: bool): (r: Reaction)
    requires Listed(rev, codes)
    ensures code !in codes ==> r == Reaction(keys, false)
    ensures r.keys == keys || (code in codes && r.keys == keys[codes[code] := val])
    ensures r.notify <==> r.keys != keys
    ensures code in codes && val ==> Held(r.keys, codes[code])
    ensures code in codes && !val ==>
              (Held(r.keys, codes[code]) <==> Held(keys, codes[code]) && AliasDown(states, rev[codes[code]]))
  {
    if code !in codes then Reaction(keys, false)
    else
      var name := codes[code];
      if val then
        if Held(keys, name) then Reaction(keys, false)
        else
          assert keys[name := true][name];
          Reaction(keys[name := true], true)
      else if !Held(keys, name) then Reaction(keys, false)
      else if AliasDown(states, rev[name]) then Reaction(keys, false)
      else
        assert !keys[name := false][name];
        Reaction(keys[name := false], true)
  }

  /** A name is pressed exactly when one of the codes the reverse map lists for it is down. */
  lemma PressedAlias(states: InputStates, codes: InputCodes, rev: ReverseCodes, n: string)
    requires Reverses(rev, codes) && n in rev
    ensures n in Pressed(states, codes) <==> AliasDown(states, rev[n])
  {
    if n in Pressed(states, codes) {
      var c :| c in states && Down(states, c) && c in codes && codes[c] == n;
      assert c in rev[n];
      var i :| 0 <= i < |rev[n]| && rev[n][i] == c;
    }
    if AliasDown(states, rev[n]) {
      var i :| 0 <= i < |rev[n]| && Down(states, rev[n][i]);
      var c := rev[n][i];
      assert c in rev[n];
    }
  }

  /** Changing a code bound to another name leaves a name's pressed status alone. */
  lemma PressedOther(states: InputStates, codes: InputCodes, c: int, val: bool, n: string)
    requires !(c in codes && codes[c] == n)
    ensures n in Pressed(states[c := val], codes) <==> n in Pressed(states, codes)
  {
    var s' := states[c := val];
    if n in Pressed(s', codes) {
      var d :| d in s' && Down(s', d) && d in codes && codes[d] == n;
      assert d != c && Down(states, d);
    }
    if n in Pressed(states, codes) {
      var d :| d in states && Down(states, d) && d in codes && codes[d] == n;
      assert d != c && Down(s', d);
    }
  }

  /** A name no code is bound to is never pressed. */
  lemma Unbound(states: InputStates, codes: InputCodes, n: string)
    requires forall c | c in codes :: codes[c] != n
    ensures n !in Pressed(states, codes)
  {
  }

  /**
   * A press or release keeps the logical keys in agreement with the physical
   * state, provided no name is bound both to a key and to a button.
   */
  lemma {:induction false} ReactKeepsSynced(keys: KeyValues, ks: InputStates, ms: InputStates, kc: InputCodes, mc: InputCodes,
                                             rev: ReverseCodes, c: int, val: bool)
    requires Reverses(rev, kc) && Disjoint(kc, mc)
    requires SyncedWith(keys, ks, ms, kc, mc)
    ensures SyncedWith(React(keys, ks[c := val], kc, rev, c, val).keys, ks[c := val], ms, kc, mc)
  {
    var ks' := ks[c := val];
    var r := React(keys, ks', kc, rev, c, val);
    forall n ensures Held(r.keys, n) <==> n in Pressed(ks', kc) || n in Pressed(ms, mc) {
      if c in kc && kc[c] == n {
        Unbound(ms, mc, n);
        if val {
          assert Down(ks', c);
        } else {
          PressedAlias(ks', kc, rev, n);
        }
      } else {
        PressedOther(ks, kc, c, val, n);
        assert Held(r.keys, n) == Held(keys, n);
      }
    }
  }

  /** The press state of each code, the logical keys, and the calls of `update`. */
  class Game {
    var keyCodes: InputCodes
    var mouseCodes: InputCodes
    var keyStates: InputStates
    var mouseStates: InputStates
    var reverseKey: ReverseCodes
    var reverseMouse: ReverseCodes
    var keys: KeyValues
    var mouse: MousePos
    var controlsActive: bool
    var controlsTriggered: bool
    /** The `keys` passed to each call of the `update` callback, oldest first. */
    var updates: seq<KeyValues>

    /** The reverse maps list exactly the codes of the current tables. */
    ghost predicate Valid()
      reads this
    {
      Reverses(reverseKey, keyCodes) && Reverses(reverseMouse, mouseCodes)
    }

    /** Every logical key is held exactly while a key or button bound to it is down. */
    ghost predicate Synced()
      reads this
    {
      SyncedWith(keys, keyStates, mouseStates, keyCodes, mouseCodes)
    }

    /** No name is bound both to a key and to a button. */
    predicate Separate()
      reads this
    {
      Disjoint(keyCodes, mouseCodes)
    }

    constructor()
      ensures Valid() && Synced()
      ensures keyCodes == map[] && mouseCodes == map[] && keyStates == map[] && mouseStates == map[]
      ensures keys == map[] && mouse == MousePos(0.0, 0.0)
      ensures !controlsActive && !controlsTriggered && updates == []
    {
      keyCodes := map[];
      mouseCodes := map[];
      keyStates := map[];
      mouseStates := map[];
      reverseKey := map[];
      reverseMouse := map[];
      keys := map[];
      mouse := MousePos(0.0, 0.0);
      controlsActive := false;
      controlsTriggered := false;
      updates := [];
    }

    /**
     * `setInputMap` with the button loop reading the button table: every
     * name is cleared (`update` is called once if one was held), the tables
     * and their reverse maps are installed, and the names of the codes still
     * down are raised again. Afterwards the keys agree with the physical state.
     */
    method SetInputMap(kc: InputCodes, mc: InputCodes)
      modifies this
      ensures Valid() && Synced()
      ensures keyCodes == kc && mouseCodes == mc
      ensures keys == Remap(old(keys), keyStates, mouseStates, kc, mc)
      ensures updates == old(updates) + (if exists k :: Held(old(keys), k) then [Cleared(old(keys))] else [])
      ensures keyStates == old(keyStates) && mouseStates == old(mouseStates) && mouse == old(mouse)
      ensures controlsActive == old(controlsActive) && controlsTriggered == old(controlsTriggered)
    {
      InstallMaps(kc, mc);
      var down := Restore(keys, keyStates, keyCodes);
      keys := Restore(down, mouseStates, mouseCodes);
    }

    /** `setInputMap` as written: the button loop looks buttons up in the key table. */
    method SetInputMapAsWritten(kc: InputCodes, mc: InputCodes)
      modifies this
      ensures Valid()
      ensures keyCodes == kc && mouseCodes == mc
      ensures keys == RemapAsWritten(old(keys), keyStates, mouseStates, kc, mc)
      ensures updates == old(updates) + (if exists k :: Held(old(keys), k) then [Cleared(old(keys))] else [])
      ensures keyStates == old(keyStates) && mouseStates == old(mouseStates) && mouse == old(mouse)
      ensures controlsActive == old(controlsActive) && controlsTriggered == old(controlsTriggered)
    {
      InstallMaps(kc, mc);
      var down := Restore(keys, keyStates, keyCodes);
      keys := Restore(down, mouseStates, keyCodes);
    }

    /** The part of `setInputMap` before the restoring loops. */
    method InstallMaps(kc: InputCodes, mc: InputCodes)
      modifies this`keys, this`updates, this`keyCodes, this`reverseKey, this`mouseCodes, this`reverseMouse
      ensures Valid()
      ensures keyCodes == kc && mouseCodes == mc && keys == Cleared(old(keys))
      ensures updates == old(updates) + (if exists k :: Held(old(keys), k) then [keys] else [])
    {
      var update;
      keys, update := ClearAll(keys);
      if update {
        updates := updates + [keys];
      }
      keyCodes := kc;
      reverseKey := ReverseOf(kc);
      mouseCodes := mc;
      reverseMouse := ReverseOf(mc);
    }

    /** `onKey`: the key's state is recorded, then its name reacts as `React` says. */
    method OnKey(val: bool, keyCode: int)
      requires Valid()
      modifies this`keyStates, this`keys, this`updates, this`controlsActive, this`controlsTriggered
      ensures Valid()
      ensures keyStates == old(keyStates)[keyCode := val]
      ensures var r := React(old(keys), keyStates, keyCodes, reverseKey, keyCode, val);
              && keys == r.keys
              && updates == old(updates) + (if r.notify then [keys] else [])
              && controlsTriggered == (old(controlsTriggered) || r.notify)
              && controlsActive == (old(controlsActive) || (r.notify && val))
      ensures old(Synced()) && Separate() ==> Synced()
    {
      if Synced() && Separate() {
        ReactKeepsSynced(keys, keyStates, mouseStates, keyCodes, mouseCodes, reverseKey, keyCode, val);
      }
      keyStates := keyStates[keyCode := val];
      if keyCode !in keyCodes {
        return;
      }
      Dispatch(keyStates, reverseKey, keyCodes[keyCode], val);
    }

    /**
     * `onMouse`: as `onKey` over the button tables; an event that is not a
     * mouse event (a touch) counts as button 0.
     */
    method OnMouse(val: bool, isMouseEvent: bool, button: int)
      requires Valid()
      modifies this`mouseStates, this`keys, this`updates, this`controlsActive, this`controlsTriggered
      ensures Valid()
      ensures var code := if isMouseEvent then button else 0;
              var r := React(old(keys), mouseStates, mouseCodes, reverseMouse, code, val);
              && mouseStates == old(mouseStates)[code := val]
              && keys == r.keys
              && updates == old(updates) + (if r.notify then [keys] else [])
              && controlsTriggered == (old(controlsTriggered) || r.notify)
              && controlsActive == (old(controlsActive) || (r.notify && val))
      ensures old(Synced()) && Separate() ==> Synced()
    {
      var code := if isMouseEvent then button else 0;
      if Synced() && Separate() {
        ReactKeepsSynced(keys, mouseStates, keyStates, mouseCodes, keyCodes, reverseMouse, code, val);
      }
      var states := mouseStates[code := val];
      mouseStates := states;
      if code !in mouseCodes {
        return;
      }
      Dispatch(states, reverseMouse, mouseCodes[code], val);
    }

    /** The press/release step shared by `onKey` and `onMouse`, for a bound name. */
    method Dispatch(states: InputStates, aliases: ReverseCodes, name: string, val: bool)
      requires name in aliases
      modifies this`keys, this`controlsActive, this`controlsTriggered, this`updates
      ensures var held := Held(old(keys), name);
              var notify := if val then !held else held && !AliasDown(states, aliases[name]);
              && keys == (if notify then old(keys)[name := val] else old(keys))
              && updates == old(updates) + (if notify then [keys] else [])
              && controlsTriggered == (old(controlsTriggered) || notify)
              && controlsActive == (old(controlsActive) || (notify && val))
    {
      if val {
        if Held(keys, name) {
          return;
        }
        keys := keys[name := true];
        controlsActive := true;
      } else {
        if !Held(keys, name) {
          return;
        }
        var down := AnyDown(states, aliases[name]);
        if down {
          return;
        }
        keys := keys[name := false];
      }
      controlsTriggered := true;
      updates := updates + [keys];
    }

    /** `onMouseMove`: the pointer offset changes and `update` is called. */
    method OnMouseMove(pos: MousePos)
      modifies this`mouse, this`controlsTriggered, this`updates
      ensures mouse == pos && controlsTriggered && updates == old(updates) + [keys]
    {
      mouse := pos;
      controlsTriggered := true;
      updates := updates + [keys];
    }
  }

  /** The alias loop of `onKey` and `onMouse`: is any of `codes` down? */
  method AnyDown(states: InputStates, codes: seq<int>) returns (down: bool)
    ensures down <==> AliasDown(states, codes)
  {
    var i := 0;
    while i < |codes|
      invariant 0 <= i <= |codes|
      invariant forall j | 0 <= j < i :: !Down(states, codes[j])
    {
      if codes[i] in states && states[codes[i]] {
        return true;
      }
      i := i + 1;
    }
    return false;
  }
}
