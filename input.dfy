/** Model of src/input.rs: the game's keyboard and mouse state. A pressed key or
    button has an entry holding a `once` latch, for queries that answer true a
    single time per press, and the instant of its last delayed repeat. */
module GameInput {
  import opened Wrappers

  datatype Key =
    | A | B | C | D | E | F | G | H | I | J | K | L | M
    | N | O | P | Q | R | S | T | U | V | W | X | Y | Z
    | Key1 | Key2 | Key3 | Key4 | Key5 | Key6 | Key7 | Key8 | Key9 | Key0
    | Esc | Space | Tab | Bspc | Left | Down | Up | Right | Enter

  datatype MouseButton = Right | Left | Middle

  /** The state of a pressed key or button. `delay` is an `Instant`, written as
      a clock reading the caller supplies. */
  datatype KeyState = KeyState(once: bool, delay: nat)

  /** The cursor; its position and delta are carried, not interpreted. */
  datatype Cursor = Cursor(position: (real, real), delta: (real, real), hasMoved: bool, isDragged: bool)

  const DefaultCursor := Cursor((0.0, 0.0), (0.0, 0.0), false, false)

  datatype Modifier = Modifier(ctrl: bool, shift: bool, alt: bool, os: bool)

  const DefaultModifier := Modifier(false, false, false, false)

  // ---------------------------------------------------------------------------
  // The entry operations, shared by the keyboard and the mouse maps

  /** `register_key`/`register_click`: adds a fresh entry only for a key that has
      none, so an existing latch survives repeated press events. */
  function Registered<T>(m: map<T, KeyState>, k: T, now: nat): (r: map<T, KeyState>)
    ensures r.Keys == m.Keys + {k}
    ensures forall j :: j in m ==> r[j] == m[j]
    ensures k !in m ==> r[k] == KeyState(false, now)
  {
    if k in m then m else m[k := KeyState(false, now)]
  }

  /** `is_pressed_once`/`is_clicked_once`: answers true and sets the latch when
      the entry exists and is not latched yet; otherwise changes nothing. */
  function Latched<T>(m: map<T, KeyState>, k: T): (r: (map<T, KeyState>, bool))
    ensures r.1 <==> k in m && !m[k].once
    ensures r.0.Keys == m.Keys
    ensures k in m ==> r.0[k] == m[k].(once := true)
    ensures forall j :: j in m && j != k ==> r.0[j] == m[j]
  {
    if k in m && !m[k].once then (m[k := m[k].(once := true)], true) else (m, false)
  }

  /** `Instant::elapsed`, which is zero for an instant not yet reached. */
  function Elapsed(since: nat, now: nat): nat {
    if now >= since then now - since else 0
  }

  /** `is_pressed_delay`: true when the key is held and at least `delay` has
      passed since its entry's instant, which then restarts at `now`. */
  function DelayDue<T>(m: map<T, KeyState>, k: T, delay: nat, now: nat): (r: (map<T, KeyState>, bool))
    ensures r.1 <==> k in m && Elapsed(m[k].delay, now) >= delay
    ensures r.1 ==> r.0 == m[k := KeyState(m[k].once, now)]
    ensures !r.1 ==> r.0 == m
  {
    if k in m && Elapsed(m[k].delay, now) >= delay then (m[k := m[k].(delay := now)], true) else (m, false)
  }

  // ---------------------------------------------------------------------------
  // At most once per press

  lemma EmptyWithoutKeys<T, U>(m: map<T, U>)
    ensures m.Keys != {} ==> exists k :: k in m
  {
    if m.Keys != {} {
      var k :| k in m.Keys;
    }
  }

  /** The events that reach one map: a press, a release, a latched query. */
  datatype Event<T> = Press(key: T) | Release(key: T) | QueryOnce(key: T)

  function ApplyEvent<T>(m: map<T, KeyState>, e: Event<T>, now: nat): (map<T, KeyState>, bool) {
    match e
    case Press(j) => (Registered(m, j, now), false)
    case Release(j) => (m - {j}, false)
    case QueryOnce(j) => Latched(m, j)
  }

  /** How many latched queries of `k` answer true over a run of events. */
  function FiresOf<T>(m: map<T, KeyState>, events: seq<Event<T>>, k: T, now: nat): nat
    decreases |events|
  {
    if events == [] then 0
    else
      var (next, fired) := ApplyEvent(m, events[0], now);
      (if fired && events[0] == QueryOnce(k) then 1 else 0) + FiresOf(next, events[1..], k, now)
  }

  /** While a key is not released, its latched query answers true at most once,
      not at all if it is already latched, and not at all if it is neither
      pressed nor pressed later. */
  lemma {:induction false} AtMostOncePerPress<T>(m: map<T, KeyState>, events: seq<Event<T>>, k: T, now: nat)
    requires Release(k) !in events
    ensures FiresOf(m, events, k, now) <=
      if k in m then (if m[k].once then 0 else 1) else (if Press(k) in events then 1 else 0)
    decreases |events|
  {
    if events != [] {
      var (next, fired) := ApplyEvent(m, events[0], now);
      assert Release(k) !in events[1..] by {
        assert forall e :: e in events[1..] ==> e in events;
      }
      AtMostOncePerPress(next, events[1..], k, now);
      if Press(k) in events[1..] {
        assert Press(k) in events;
      }
    }
  }

  /** A press followed by a latched query answers true exactly once, and a
      release re-arms the latch for the next press. */
  lemma PressQueryReleaseScenario<T>(m: map<T, KeyState>, k: T, now: nat)
    requires k !in m
    ensures FiresOf(m, [Press(k), QueryOnce(k), QueryOnce(k)], k, now) == 1
    ensures FiresOf(m, [Press(k), QueryOnce(k), Release(k), Press(k), QueryOnce(k)], k, now) == 2
  {
    var q, p, rel := QueryOnce(k), Press(k), Release(k);
    var m1 := Registered(m, k, now);
    var m2 := Latched(m1, k).0;
    var m3 := m2 - {k};
    var m4 := Registered(m3, k, now);
    // the latched key: a second query does not fire
    assert FiresOf(m2, [q], k, now) == 0 by {
      assert FiresOf(m2, [q][1..], k, now) == 0;
    }
    assert FiresOf(m1, [q, q], k, now) == 1 by {
      assert [q, q][1..] == [q];
    }
    assert FiresOf(m, [p, q, q], k, now) == 1 by {
      assert [p, q, q][1..] == [q, q];
    }
    // released and pressed again: the latch is re-armed
    assert FiresOf(m4, [q], k, now) == 1 by {
      assert FiresOf(Latched(m4, k).0, [q][1..], k, now) == 0;
    }
    assert FiresOf(m3, [p, q], k, now) == 1 by {
      assert [p, q][1..] == [q];
    }
    assert FiresOf(m2, [rel, p, q], k, now) == 1 by {
      assert [rel, p, q][1..] == [p, q];
    }
    assert FiresOf(m1, [q, rel, p, q], k, now) == 2 by {
      assert [q, rel, p, q][1..] == [rel, p, q];
    }
    assert [p, q, rel, p, q][1..] == [q, rel, p, q];
  }

  // ---------------------------------------------------------------------------
  // Text

  /** The character of a letter, digit or space key, in the table of `Key::to_str`. */
  function CharOf(key: Key): Option<char> {
    match key
    case A => Some('a') case B => Some('b') case C => Some('c') case D => Some('d')
    case E => Some('e') case F => Some('f') case G => Some('g') case H => Some('h')
    case I => Some('i') case J => Some('j') case K => Some('k') case L => Some('l')
    case M => Some('m') case N => Some('n') case O => Some('o') case P => Some('p')
    case Q => Some('q') case R => Some('r') case S => Some('s') case T => Some('t')
    case U => Some('u') case V => Some('v') case W => Some('w') case X => Some('x')
    case Y => Some('y') case Z => Some('z')
    case Space => Some(' ')
    case Key1 => Some('1') case Key2 => Some('2') case Key3 => Some('3')
    case Key4 => Some('4') case Key5 => Some('5') case Key6 => Some('6')
    case Key7 => Some('7') case Key8 => Some('8') case Key9 => Some('9')
    case Key0 => Some('0')
    case _ => None
  }

  /** `Key::to_str`: the one-character text of a letter, digit or space key. */
  function ToStr(key: Key): (r: Option<string>)
    ensures r.Some? ==> |r.value| == 1
    ensures r.Some? <==> !(key in {Esc, Tab, Bspc, Key.Left, Key.Down, Key.Up, Key.Right, Enter})
  {
    match CharOf(key)
    case Some(c) => Some([c])
    case None => None
  }

  /** The key whose text is the character `c`: a lower-case letter, a digit or a space. */
  function KeyOfChar(c: char): Option<Key> {
    match c
    case 'a' => Some(A) case 'b' => Some(B) case 'c' => Some(C) case 'd' => Some(D)
    case 'e' => Some(E) case 'f' => Some(F) case 'g' => Some(G) case 'h' => Some(H)
    case 'i' => Some(I) case 'j' => Some(J) case 'k' => Some(K) case 'l' => Some(L)
    case 'm' => Some(M) case 'n' => Some(N) case 'o' => Some(O) case 'p' => Some(P)
    case 'q' => Some(Q) case 'r' => Some(R) case 's' => Some(S) case 't' => Some(T)
    case 'u' => Some(U) case 'v' => Some(V) case 'w' => Some(W) case 'x' => Some(X)
    case 'y' => Some(Y) case 'z' => Some(Z)
    case ' ' => Some(Space)
    case '1' => Some(Key1) case '2' => Some(Key2) case '3' => Some(Key3)
    case '4' => Some(Key4) case '5' => Some(Key5) case '6' => Some(Key6)
    case '7' => Some(Key7) case '8' => Some(Key8) case '9' => Some(Key9)
    case '0' => Some(Key0)
    case _ => None
  }

  /** Reading the character of a key back gives the key again. */
  lemma CharReadsBack(key: Key)
    ensures CharOf(key).Some? ==> KeyOfChar(CharOf(key).value) == Some(key)
  {
    match key {
      case A => assert CharOf(key) == Some('a');
      case B => assert CharOf(key) == Some('b');
      case C => assert CharOf(key) == Some('c');
      case D => assert CharOf(key) == Some('d');
      case E => assert CharOf(key) == Some('e');
      case F => assert CharOf(key) == Some('f');
      case G => assert CharOf(key) == Some('g');
      case H => assert CharOf(key) == Some('h');
      case I => assert CharOf(key) == Some('i');
      case J => assert CharOf(key) == Some('j');
      case K => assert CharOf(key) == Some('k');
      case L => assert CharOf(key) == Some('l');
      case M => assert CharOf(key) == Some('m');
      case N => assert CharOf(key) == Some('n');
      case O => assert CharOf(key) == Some('o');
      case P => assert CharOf(key) == Some('p');
      case Q => assert CharOf(key) == Some('q');
      case R => assert CharOf(key) == Some('r');
      case S => assert CharOf(key) == Some('s');
      case T => assert CharOf(key) == Some('t');
      case U => assert CharOf(key) == Some('u');
      case V => assert CharOf(key) == Some('v');
      case W => assert CharOf(key) == Some('w');
      case X => assert CharOf(key) == Some('x');
      case Y => assert CharOf(key) == Some('y');
      case Z => assert CharOf(key) == Some('z');
      case Key0 => assert CharOf(key) == Some('0');
      case Key1 => assert CharOf(key) == Some('1');
      case Key2 => assert CharOf(key) == Some('2');
      case Key3 => assert CharOf(key) == Some('3');
      case Key4 => assert CharOf(key) == Some('4');
      case Key5 => assert CharOf(key) == Some('5');
      case Key6 => assert CharOf(key) == Some('6');
      case Key7 => assert CharOf(key) == Some('7');
      case Key8 => assert CharOf(key) == Some('8');
      case Key9 => assert CharOf(key) == Some('9');
      case Space => assert CharOf(key) == Some(' ');
      case _ =>
    }
  }

  /** Reading the text of `to_str` back gives the key again. */
  lemma ToStrReadsBack(key: Key)
    ensures ToStr(key).Some? ==> KeyOfChar(ToStr(key).value[0]) == Some(key)
  {
    CharReadsBack(key);
    if CharOf(key).Some? {
      assert ToStr(key).value[0] == CharOf(key).value;
    }
  }

  /** Different keys never give the same text. */
  lemma {:induction false} ToStrInjective(k1: Key, k2: Key)
    ensures ToStr(k1).Some? && ToStr(k1) == ToStr(k2) ==> k1 == k2
  {
    ToStrReadsBack(k1);
    ToStrReadsBack(k2);
  }

  // ---------------------------------------------------------------------------
  // The input object

  class Input {
    var keyboard: map<Key, KeyState>
    var mouse: map<MouseButton, KeyState>
    var lastKeyPressed: Option<Key>
    var cursor: Cursor
    var modifiers: Modifier

    /** `Input::new`. */
    constructor New()
      ensures keyboard == map[] && mouse == map[] && lastKeyPressed == None
      ensures cursor == DefaultCursor && modifiers == DefaultModifier
    {
      keyboard, mouse, lastKeyPressed := map[], map[], None;
      cursor, modifiers := DefaultCursor, DefaultModifier;
    }

    function IsNothingPressed(): (r: bool)
      reads this
      ensures r <==> forall k: Key :: k !in keyboard
    {
      EmptyWithoutKeys(keyboard);
      keyboard.Keys == {}
    }

    /** `is_pressed`: the key is held exactly when `is_pressed_delay` with no
        delay would answer true, and a key not held never fires
        `is_pressed_once`. */
    function IsPressed(keycode: Key): (r: bool)
      reads this
      ensures r <==> keycode in keyboard
      ensures forall now :: DelayDue(keyboard, keycode, 0, now).1 == r
      ensures !r ==> !Latched(keyboard, keycode).1
    {
      keycode in keyboard
    }

    /** `is_cursor_moved`: the flag of the cursor last stored by
        `update_cursor_position`. */
    function IsCursorMoved(): (r: bool)
      reads this
      ensures r <==> cursor.hasMoved
    {
      cursor.hasMoved
    }

    /** `is_dragged`: the flag the last `is_clicked` stored. */
    function IsDragged(): (r: bool)
      reads this
      ensures r <==> cursor.isDragged
    {
      cursor.isDragged
    }

    method RegisterKey(keycode: Key, now: nat)
      modifies this
      ensures keyboard == Registered(old(keyboard), keycode, now)
      ensures mouse == old(mouse) && lastKeyPressed == old(lastKeyPressed)
      ensures cursor == old(cursor) && modifiers == old(modifiers)
    {
      if keycode !in keyboard {
        keyboard := keyboard[keycode := KeyState(false, now)];
      }
    }

    method RemoveKey(keycode: Key)
      modifies this
      ensures keyboard == old(keyboard) - {keycode}
      ensures mouse == old(mouse) && lastKeyPressed == old(lastKeyPressed)
      ensures cursor == old(cursor) && modifiers == old(modifiers)
    {
      if keycode in keyboard {
        keyboard := keyboard - {keycode};
      }
    }

    method RegisterClick(button: MouseButton, now: nat)
      modifies this
      ensures mouse == Registered(old(mouse), button, now)
      ensures keyboard == old(keyboard) && lastKeyPressed == old(lastKeyPressed)
      ensures cursor == old(cursor) && modifiers == old(modifiers)
    {
      if button !in mouse {
        mouse := mouse[button := KeyState(false, now)];
      }
    }

    method RemoveClick(button: MouseButton)
      modifies this
      ensures mouse == old(mouse) - {button}
      ensures keyboard == old(keyboard) && lastKeyPressed == old(lastKeyPressed)
      ensures cursor == old(cursor) && modifiers == old(modifiers)
    {
      if button in mouse {
        mouse := mouse - {button};
      }
    }

    /** `update_key`: a press registers the key and forgets the last released
        key; a release removes the key and records it for `pressed_str`. */
    method UpdateKey(keycode: Key, isPressed: bool, now: nat)
      modifies this
      ensures isPressed ==> keyboard == Registered(old(keyboard), keycode, now) && lastKeyPressed == None
      ensures !isPressed ==> keyboard == old(keyboard) - {keycode} && lastKeyPressed == Some(keycode)
      ensures IsPressed(keycode) == isPressed
      ensures mouse == old(mouse) && cursor == old(cursor) && modifiers == old(modifiers)
    {
      if isPressed {
        RegisterKey(keycode, now);
        lastKeyPressed := None;
      } else {
        RemoveKey(keycode);
        lastKeyPressed := Some(keycode);
      }
    }

    /** `update_mouse`. */
    method UpdateMouse(button: MouseButton, isClicked: bool, now: nat)
      modifies this
      ensures mouse == if isClicked then Registered(old(mouse), button, now) else old(mouse) - {button}
      ensures keyboard == old(keyboard) && lastKeyPressed == old(lastKeyPressed)
      ensures cursor == old(cursor) && modifiers == old(modifiers)
    {
      if isClicked {
        RegisterClick(button, now);
      } else {
        RemoveClick(button);
      }
    }

    method UpdateCursorPosition(position: Cursor)
      modifies this
      ensures cursor == position && IsCursorMoved() == position.hasMoved
      ensures keyboard == old(keyboard) && mouse == old(mouse)
      ensures lastKeyPressed == old(lastKeyPressed) && modifiers == old(modifiers)
    {
      cursor := position;
    }

    method SetModifier(modifier: Modifier)
      modifies this
      ensures modifiers == modifier
      ensures keyboard == old(keyboard) && mouse == old(mouse)
      ensures lastKeyPressed == old(lastKeyPressed) && cursor == old(cursor)
    {
      modifiers := modifier;
    }

    /** `is_pressed_delay`. */
    method IsPressedDelay(delay: nat, keycode: Key, now: nat) returns (due: bool)
      modifies this
      ensures (keyboard, due) == DelayDue(old(keyboard), keycode, delay, now)
      ensures mouse == old(mouse) && lastKeyPressed == old(lastKeyPressed)
      ensures cursor == old(cursor) && modifiers == old(modifiers)
    {
      due := false;
      if keycode in keyboard {
        var key := keyboard[keycode];
        if Elapsed(key.delay, now) >= delay {
          keyboard := keyboard[keycode := key.(delay := now)];
          due := true;
        }
      }
    }

    /** `pressed_str`: the text of the last released key, which is consumed. */
    method PressedStr() returns (s: Option<string>)
      modifies this
      ensures s == if old(lastKeyPressed).Some? then ToStr(old(lastKeyPressed).value) else None
      ensures lastKeyPressed == None
      ensures keyboard == old(keyboard) && mouse == old(mouse)
      ensures cursor == old(cursor) && modifiers == old(modifiers)
    {
      if lastKeyPressed.Some? {
        s := ToStr(lastKeyPressed.value);
        lastKeyPressed := None;
      } else {
        s := None;
      }
    }

    /** `is_clicked`: whether the button is down, which also becomes the
        cursor's dragged flag. */
    method IsClicked(button: MouseButton) returns (clicked: bool)
      modifies this
      ensures clicked <==> button in mouse
      ensures cursor == old(cursor).(isDragged := clicked) && IsDragged() == clicked
      ensures keyboard == old(keyboard) && mouse == old(mouse)
      ensures lastKeyPressed == old(lastKeyPressed) && modifiers == old(modifiers)
    {
      clicked := button in mouse;
      if clicked {
        cursor := cursor.(isDragged := true);
      } else {
        cursor := cursor.(isDragged := false);
      }
    }

    method IsPressedOnce(keycode: Key) returns (fired: bool)
      modifies this
      ensures (keyboard, fired) == Latched(old(keyboard), keycode)
      ensures mouse == old(mouse) && lastKeyPressed == old(lastKeyPressed)
      ensures cursor == old(cursor) && modifiers == old(modifiers)
    {
      fired := false;
      if keycode in keyboard {
        var pressed := keyboard[keycode];
        if !pressed.once {
          keyboard := keyboard[keycode := pressed.(once := true)];
          fired := true;
        }
      }
    }

    method IsClickedOnce(button: MouseButton) returns (fired: bool)
      modifies this
      ensures (mouse, fired) == Latched(old(mouse), button)
      ensures keyboard == old(keyboard) && lastKeyPressed == old(lastKeyPressed)
      ensures cursor == old(cursor) && modifiers == old(modifiers)
    {
      fired := false;
      if button in mouse {
        var clicked := mouse[button];
        if !clicked.once {
          mouse := mouse[button := clicked.(once := true)];
          fired := true;
        }
      }
    }

    /** `clear`: forgets every pressed key; the mouse is left as it is. */
    method Clear()
      modifies this
      ensures keyboard == map[]
      ensures mouse == old(mouse) && lastKeyPressed == old(lastKeyPressed)
      ensures cursor == old(cursor) && modifiers == old(modifiers)
    {
      keyboard := map[];
    }
  }
}
