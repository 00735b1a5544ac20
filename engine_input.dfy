/** Model of engine/src/input.rs: the engine's earlier input state, whose
    edge-triggered queries take a callback. A callback's invocation is modelled
    as the `invoked` result: true exactly when the source calls it. */
module EngineInput {

  datatype Key =
    | A | B | C | D | E | F | G | H | I | J | K | L | M
    | N | O | P | Q | R | S | T | U | V | W | X | Y | Z
    | Esc | Space | Tab | Bspc | Left | Down | Up | Right | Enter

  datatype MouseButton = Right | Left | Middle

  /** The state of a pressed key or button: only the `once` latch. */
  datatype KeyState = KeyState(once: bool)

  /** The cursor; its position and delta are carried, not interpreted. */
  datatype Cursor = Cursor(position: (real, real), delta: (real, real), hasMoved: bool)

  const DefaultCursor := Cursor((0.0, 0.0), (0.0, 0.0), false)

  datatype Modifier = Modifier(ctrl: bool, shift: bool, alt: bool, os: bool)

  const DefaultModifier := Modifier(false, false, false, false)

  /** `register_key`/`register_click`: a fresh, unlatched entry only for a key
      that has none. */
  function Registered<T>(m: map<T, KeyState>, k: T): (r: map<T, KeyState>)
    ensures r.Keys == m.Keys + {k}
    ensures forall j :: j in m ==> r[j] == m[j]
    ensures k !in m ==> !r[k].once
  {
    if k in m then m else m[k := KeyState(false)]
  }

  /** `pressed_once`/`clicked`: invokes the callback and latches the entry when
      it exists unlatched; otherwise changes nothing. */
  function Latched<T>(m: map<T, KeyState>, k: T): (r: (map<T, KeyState>, bool))
    ensures r.1 <==> k in m && !m[k].once
    ensures r.0.Keys == m.Keys && (k in m ==> r.0[k].once)
    ensures forall j :: j in m && j != k ==> r.0[j] == m[j]
  {
    if k in m && !m[k].once then (m[k := KeyState(true)], true) else (m, false)
  }

  /** Once per press: after a call that invoked the callback, neither a second
      call nor a repeated press event invokes it again, while a release followed
      by a new press re-arms it; an unpressed key never invokes it. */
  lemma OncePerPress<T>(m: map<T, KeyState>, k: T)
    ensures k !in m ==> !Latched(m, k).1
    ensures var latched := Latched(m, k).0;
      && !Latched(latched, k).1
      && (k in m ==> !Latched(Registered(latched, k), k).1)
      && Latched(Registered(latched - {k}, k), k).1
  {
  }

  /** The events that reach one map: a press, a release, a `pressed_once` call. */
  datatype Event<T> = Press(key: T) | Release(key: T) | QueryOnce(key: T)

  function ApplyEvent<T>(m: map<T, KeyState>, e: Event<T>): (map<T, KeyState>, bool) {
    match e
    case Press(j) => (Registered(m, j), false)
    case Release(j) => (m - {j}, false)
    case QueryOnce(j) => Latched(m, j)
  }

  /** How many `pressed_once` calls for `k` invoke the callback over a run of events. */
  function InvocationsOf<T>(m: map<T, KeyState>, events: seq<Event<T>>, k: T): nat
    decreases |events|
  {
    if events == [] then 0
    else
      var (next, invoked) := ApplyEvent(m, events[0]);
      (if invoked && events[0] == QueryOnce(k) then 1 else 0) + InvocationsOf(next, events[1..], k)
  }

  /** Until the key is released, the callback for it runs at most once over
      any run of presses and calls, not at all if the entry is already
      latched, and not at all if the key is neither held nor pressed later. */
  lemma {:induction false} AtMostOncePerPress<T>(m: map<T, KeyState>, events: seq<Event<T>>, k: T)
    requires Release(k) !in events
    ensures InvocationsOf(m, events, k) <=
      if k in m then (if m[k].once then 0 else 1) else (if Press(k) in events then 1 else 0)
    decreases |events|
  {
    if events != [] {
      var (next, invoked) := ApplyEvent(m, events[0]);
      assert Release(k) !in events[1..] by {
        assert forall e :: e in events[1..] ==> e in events;
      }
      AtMostOncePerPress(next, events[1..], k);
      if Press(k) in events[1..] {
        assert Press(k) in events;
      }
    }
  }

  class Input {
    var keyboard: map<Key, KeyState>
    var mouse: map<MouseButton, KeyState>
    var cursor: Cursor
    var modifiers: Modifier

    /** `Input::new`. */
    constructor New()
      ensures keyboard == map[] && mouse == map[]
      ensures cursor == DefaultCursor && modifiers == DefaultModifier
    {
      keyboard, mouse := map[], map[];
      cursor, modifiers := DefaultCursor, DefaultModifier;
    }

    /** `is_pressed`: the key is held, and a key not held never invokes
        `pressed_once`. */
    function IsPressed(keycode: Key): (r: bool)
      reads this
      ensures r <==> keycode in keyboard
      ensures !r ==> !Latched(keyboard, keycode).1
    {
      keycode in keyboard
    }

    /** `is_clicked`: the button is held, and a button not held never invokes
        `clicked`. */
    function IsClicked(button: MouseButton): (r: bool)
      reads this
      ensures r <==> button in mouse
      ensures !r ==> !Latched(mouse, button).1
    {
      button in mouse
    }

    /** `on_cursor_moved`: invokes the callback when the cursor last stored by
        `update_cursor_position` has moved. */
    function OnCursorMoved(): (invoked: bool)
      reads this
      ensures invoked <==> cursor.hasMoved
    {
      cursor.hasMoved
    }

    method RegisterKey(keycode: Key)
      modifies this
      ensures keyboard == Registered(old(keyboard), keycode)
      ensures mouse == old(mouse) && cursor == old(cursor) && modifiers == old(modifiers)
    {
      if keycode !in keyboard {
        keyboard := keyboard[keycode := KeyState(false)];
      }
    }

    method RemoveKey(keycode: Key)
      modifies this
      ensures keyboard == old(keyboard) - {keycode}
      ensures mouse == old(mouse) && cursor == old(cursor) && modifiers == old(modifiers)
    {
      if keycode in keyboard {
        keyboard := keyboard - {keycode};
      }
    }

    method RegisterClick(button: MouseButton)
      modifies this
      ensures mouse == Registered(old(mouse), button)
      ensures keyboard == old(keyboard) && cursor == old(cursor) && modifiers == old(modifiers)
    {
      if button !in mouse {
        mouse := mouse[button := KeyState(false)];
      }
    }

    method RemoveClick(button: MouseButton)
      modifies this
      ensures mouse == old(mouse) - {button}
      ensures keyboard == old(keyboard) && cursor == old(cursor) && modifiers == old(modifiers)
    {
      if button in mouse {
        mouse := mouse - {button};
      }
    }

    /** `update_key`: a press registers the key, a release removes it. */
    method UpdateKey(keycode: Key, isPressed: bool)
      modifies this
      ensures keyboard == if isPressed then Registered(old(keyboard), keycode) else old(keyboard) - {keycode}
      ensures IsPressed(keycode) == isPressed
      ensures mouse == old(mouse) && cursor == old(cursor) && modifiers == old(modifiers)
    {
      if isPressed {
        RegisterKey(keycode);
      } else {
        RemoveKey(keycode);
      }
    }

    /** `update_mouse`: the same for a button. */
    method UpdateMouse(button: MouseButton, isClicked: bool)
      modifies this
      ensures mouse == if isClicked then Registered(old(mouse), button) else old(mouse) - {button}
      ensures IsClicked(button) == isClicked
      ensures keyboard == old(keyboard) && cursor == old(cursor) && modifiers == old(modifiers)
    {
      if isClicked {
        RegisterClick(button);
      } else {
        RemoveClick(button);
      }
    }

    method UpdateCursorPosition(position: Cursor)
      modifies this
      ensures cursor == position && OnCursorMoved() == position.hasMoved
      ensures keyboard == old(keyboard) && mouse == old(mouse) && modifiers == old(modifiers)
    {
      cursor := position;
    }

    method SetModifier(modifier: Modifier)
      modifies this
      ensures modifiers == modifier
      ensures keyboard == old(keyboard) && mouse == old(mouse) && cursor == old(cursor)
    {
      modifiers := modifier;
    }

    /** `pressed_once`. */
    method PressedOnce(keycode: Key) returns (invoked: bool)
      modifies this
      ensures (keyboard, invoked) == Latched(old(keyboard), keycode)
      ensures mouse == old(mouse) && cursor == old(cursor) && modifiers == old(modifiers)
    {
      invoked := false;
      if keycode in keyboard {
        var pressed := keyboard[keycode];
        if !pressed.once {
          keyboard := keyboard[keycode := pressed.(once := true)];
          invoked := true;
        }
      }
    }

    /** `clicked`: the callback also receives the cursor, unchanged. */
    method Clicked(button: MouseButton) returns (invoked: bool)
      modifies this
      ensures (mouse, invoked) == Latched(old(mouse), button)
      ensures keyboard == old(keyboard) && cursor == old(cursor) && modifiers == old(modifiers)
    {
      invoked := false;
      if button in mouse {
        var clicked := mouse[button];
        if !clicked.once {
          mouse := mouse[button := clicked.(once := true)];
          invoked := true;
        }
      }
    }

    /** `clear`: forgets every pressed key; the mouse is left as it is. */
    method Clear()
      modifies this
      ensures keyboard == map[]
      ensures mouse == old(mouse) && cursor == old(cursor) && modifiers == old(modifiers)
    {
      keyboard := map[];
    }
  }
}
