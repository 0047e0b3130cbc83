/** What clicking and typing add to the trace, whatever they come to: the events have one
    shape, and the rest of the state is as it was. */
module StepEffects {
  import opened Wrappers
  import opened Targets
  import opened Injection

  // Clicks of device 0

  /** Nothing but buttons through the seat. */
  ghost predicate Clicked(s: State, after: State) {
    && after == s.(trace := after.trace)
    && s.trace <= after.trace
    && forall e :: e in Added(s, after) ==> e.SeatButton? || e.SeatFrame?
  }

  lemma ClickedTransitive(s: State, t: State, u: State)
    requires Clicked(s, t) && Clicked(t, u)
    ensures Clicked(s, u)
  {
    assert Added(s, u) == Added(s, t) + Added(t, u);
  }

  lemma ButtonClicks(env: Env, s: State, t: Toplevel, button: nat, pressed: bool)
    requires WellFormed(s)
    ensures Clicked(s, ButtonStep(env, s, t, 0, button, pressed).0)
  {
    var (after, ok) := ButtonStep(env, s, t, 0, button, pressed);
    assert Added(s, after) == if ok then [SeatButton(button, pressed), SeatFrame] else [];
  }

  lemma {:induction false} ClicksClick(env: Env, s: State, t: Toplevel, button: nat, count: nat)
    requires WellFormed(s)
    ensures Clicked(s, ClickSteps(env, s, t, button, count).0)
    decreases count
  {
    if count == 0 {
      assert Added(s, s) == [];
    } else {
      var (down, pressed) := ButtonStep(env, s, t, 0, button, true);
      ButtonClicks(env, s, t, button, true);
      if pressed {
        var (up, released) := ButtonStep(env, down, t, 0, button, false);
        ButtonClicks(env, down, t, button, false);
        ClickedTransitive(s, down, up);
        if released {
          ClicksClick(env, up, t, button, count - 1);
          ClickedTransitive(s, up, ClickSteps(env, up, t, button, count - 1).0);
        }
      }
    }
  }

  // Typing

  /** The compositor takes the window to be entered: the array says so, or it has the focus. */
  predicate TakenAsEntered(env: Env, s: State, t: Toplevel)
    requires WellFormed(s)
  {
    s.keyboard[0] == Some(t.surface) || RootOf(env, s.focused) == Some(t.surface)
  }

  function Greeting(env: Env, s: State, t: Toplevel): seq<Event>
    requires WellFormed(s)
  {
    if TakenAsEntered(env, s, t) then [] else [KeyboardEnter(t.surface)]
  }

  /** The event speaks to the keyboard of the window: keys by way of the seat if the window
      has the focus, straight to it otherwise. */
  predicate Speaks(env: Env, focused: Option<Surface>, surface: Surface, e: Event) {
    match e
    case KeyboardModifiers(x, _) => x == surface
    case KeyboardKey(x, _, _) => x == surface && RootOf(env, focused) != Some(env.root(surface))
    case SeatKey(x, _, _) => focused == Some(x) && env.root(x) == env.root(surface)
    case _ => false
  }

  ghost predicate Speech(env: Env, s: State, t: Toplevel, events: seq<Event>) {
    events != [] && forall e :: e in events ==> Speaks(env, s.focused, t.surface, e)
  }

  /** The window was greeted, unless it was taken as entered, and spoken to. */
  ghost predicate Typed(env: Env, s: State, t: Toplevel, after: State)
    requires WellFormed(s)
  {
    && after == s.(keyboard := s.keyboard[0 := Some(t.surface)], trace := after.trace)
    && exists events :: after.trace == s.trace + (Greeting(env, s, t) + events) && Speech(env, s, t, events)
  }

  lemma EntersAndSpeaks(env: Env, s: State, t: Toplevel, after: State, events: seq<Event>)
    requires WellFormed(s) && env.keyboards(t.surface) && Speech(env, s, t, events)
    requires after == Emit(KeyboardEnterStep(env, s, t).0, events)
    ensures Typed(env, s, t, after)
  {
    assert after.trace == s.trace + (Greeting(env, s, t) + events);
  }

  lemma TypedGoesOn(env: Env, s: State, t: Toplevel, typed: State, after: State)
    requires WellFormed(s) && Typed(env, s, t, typed) && Typed(env, typed, t, after)
    ensures Typed(env, s, t, after)
  {
    var a :| typed.trace == s.trace + (Greeting(env, s, t) + a) && Speech(env, s, t, a);
    var b :| after.trace == typed.trace + (Greeting(env, typed, t) + b) && Speech(env, typed, t, b);
    assert Greeting(env, typed, t) + b == b;
    assert after.trace == s.trace + (Greeting(env, s, t) + (a + b));
    assert Speech(env, s, t, a + b);
  }

  lemma CharTypes(env: Env, s: State, t: Toplevel, cp: Mask)
    requires WellFormed(s) && TypeCharStep(env, s, t, cp).1
    ensures Typed(env, s, t, TypeCharStep(env, s, t, cp).0)
  {
    EntersAndSpeaks(env, s, t, TypeCharStep(env, s, t, cp).0, CharEvents(env, s, t, env.chartab[cp as nat]));
  }

  /** The first of the digits name a character that can be typed. */
  predicate TypesFirst(env: Env, t: Toplevel, hex: seq<bv8>) {
    |hex| >= 2 && Typable(env, CodePoint(hex[0], hex[1])) && env.keyboards(t.surface)
  }

  lemma {:induction false} HexTypes(env: Env, s: State, t: Toplevel, hex: seq<bv8>)
    requires WellFormed(s)
    ensures if TypesFirst(env, t, hex) then Typed(env, s, t, TypeHexStep(env, s, t, hex).0)
            else TypeHexStep(env, s, t, hex).0 == s
    decreases |hex|
  {
    if TypesFirst(env, t, hex) {
      var typed := TypeCharStep(env, s, t, CodePoint(hex[0], hex[1])).0;
      CharTypes(env, s, t, CodePoint(hex[0], hex[1]));
      HexTypes(env, typed, t, hex[2..]);
      if TypesFirst(env, t, hex[2..]) {
        TypedGoesOn(env, s, t, typed, TypeHexStep(env, s, t, hex).0);
      }
    }
  }

  predicate Typing(command: Command) {
    command.TypeText? || command.PressKey? || command.PressHotkey?
  }

  /** The command sends the window a key at all. */
  predicate Types(env: Env, command: Command, t: Toplevel)
    requires Typing(command)
  {
    match command
    case TypeText(_, hex) => TypesFirst(env, t, hex)
    case PressKey(_, name) => env.named(name) != 0 && env.keyboards(t.surface)
    case PressHotkey(_, modifiers, key) =>
      HotkeyCode(env, key) != 0 && NoModifier !in modifiers && env.keyboards(t.surface)
  }

  /** A typing command, accepted or refused, types or changes nothing at all. */
  lemma CommandTypes(env: Env, s: State, command: Command, t: Toplevel)
    requires WellFormed(s) && Typing(command)
    ensures if Types(env, command, t) then Typed(env, s, t, TargetedStep(env, s, command, t).0)
            else TargetedStep(env, s, command, t).0 == s
  {
    match command
    case TypeText(_, hex) =>
      HexTypes(env, s, t, Scanned(hex));
    case PressKey(_, name) =>
      if Types(env, command, t) {
        EntersAndSpeaks(env, s, t, NamedKeyStep(env, s, t, name).0, Stroke(env, s, t, env.named(name)));
      }
    case PressHotkey(_, modifiers, key) =>
      if Types(env, command, t) {
        EntersAndSpeaks(env, s, t, HotkeyStep(env, s, t, modifiers, key).0,
                        [KeyboardModifiers(t.surface, MaskOf(env, modifiers))]
                        + Stroke(env, s, t, HotkeyCode(env, key)) + [KeyboardModifiers(t.surface, 0)]);
      }
  }
}
