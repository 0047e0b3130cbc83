/** The compositor's injection state and what every step does to it.

    The display server underneath is a trace of the events it is told to send, and an
    environment: which surface is a child of which, which clients bound a pointer or a
    keyboard, the process table, and the keyboard layout. */
module Injection {
  import opened Wrappers
  import opened Targets

  const MAX_DEVICES: nat := 64

  /** A `t` line is scanned for at most so many digits; what follows them is not looked at. */
  const HEX_LIMIT: nat := 8191

  const KEY_TAB: nat := 15
  const KEY_ENTER: nat := 28

  /** A character's key: its evdev code and whether it is on the shifted level. */
  datatype KeyEntry = KeyEntry(keycode: nat, shift: bool, valid: bool)

  datatype Modifier = Ctrl | Shift | Alt | Logo | NoModifier

  type Mask = bv32

  datatype Env = Env(
    root: Surface -> Surface,       // the surface a subsurface belongs to in the end
    client: Surface -> nat,         // the client that owns the surface
    pointers: Surface -> bool,      // the surface's client bound a pointer
    keyboards: Surface -> bool,     // the surface's client bound a keyboard
    parents: Parents,
    chartab: seq<KeyEntry>,         // one entry for each ASCII character
    named: string -> nat,           // the keycode of a named key, 0 if there is none
    masks: Modifier -> Mask,
    isToplevel: Surface -> bool,    // the surface has the role of a window
    skipsFocused: bool              // upstream's helper returns early for the focused surface
  )

  datatype Event =
    // Sent straight to the pointers of the surface's client, by one of the devices
    | PointerEnter(device: nat, surface: Surface, x: real, y: real)
    | PointerLeave(device: nat, surface: Surface)
    | PointerMotion(device: nat, surface: Surface, x: real, y: real)
    | PointerButton(device: nat, surface: Surface, button: nat, pressed: bool)
    | PointerAxis(device: nat, surface: Surface, axis: nat, amount: real)
    // Seat notifications, for device 0
    | SeatEnter(surface: Surface, x: real, y: real)
    | SeatMotion(x: real, y: real)
    | SeatButton(button: nat, pressed: bool)
    | SeatFrame
    | SeatPointerCleared
    // Keyboard
    | KeyboardEnter(surface: Surface)  // keymap, enter, no modifiers
    | KeyboardModifiers(surface: Surface, mask: Mask)
    | KeyboardKey(surface: Surface, keycode: nat, pressed: bool)
    | SeatKeyboardEnter(surface: Surface)
    | SeatKeyboardLeave(surface: Surface)
    | SeatKey(surface: Surface, keycode: nat, pressed: bool)
    // Windows
    | Activated(surface: Surface)
    | Deactivated(surface: Surface)
    | Unmapped(surface: Surface)

  datatype State = State(
    pointer: seq<Option<Surface>>,   // per logical device, the surface it has entered
    keyboard: seq<Option<Surface>>,
    focused: Option<Surface>,        // the seat's keyboard focus
    seatPointer: Option<Surface>,    // the seat's pointer focus, which gets the seat's buttons
    toplevels: seq<Toplevel>,
    activated: set<Surface>,         // the toplevels whose initial activation was sent
    trace: seq<Event>
  )

  ghost predicate WellFormed(s: State) {
    |s.pointer| == |s.keyboard| == MAX_DEVICES
  }

  function Emit(s: State, events: seq<Event>): State {
    s.(trace := s.trace + events)
  }

  /** The events a step added. */
  function Added(s: State, t: State): seq<Event>
    requires |s.trace| <= |t.trace|
  {
    t.trace[|s.trace|..]
  }

  predicate Device(idx: int) {
    0 <= idx < MAX_DEVICES
  }

  // Pointer

  /** What the scene has under a point: a surface, and the point in its coordinates. */
  datatype Hit = Hit(surface: Surface, x: real, y: real)

  /** The surface that gets the motion: the one hit, or the window's root if the client
      behind the one hit has no pointer. */
  function MotionTarget(env: Env, t: Toplevel, hit: Option<Hit>, x: real, y: real): Option<Hit> {
    match hit
    case None => None
    case Some(h) =>
      if env.pointers(h.surface) then hit
      else if env.pointers(t.surface) then Some(Hit(t.surface, x, y))
      else None
  }

  function LeaveEvents(env: Env, idx: nat, surface: Option<Surface>): seq<Event> {
    match surface
    case Some(left) => if env.pointers(left) then [PointerLeave(idx, left)] else []
    case None => []
  }

  function EnterEvents(env: Env, idx: nat, entered: Option<Surface>, h: Hit): seq<Event> {
    if entered == Some(h.surface) then []
    else LeaveEvents(env, idx, entered) + [PointerEnter(idx, h.surface, h.x, h.y)]
  }

  function SeatMotionStep(s: State, h: Hit): State
    requires WellFormed(s)
  {
    Emit(s.(pointer := s.pointer[0 := Some(h.surface)], seatPointer := Some(h.surface)),
         [SeatEnter(h.surface, h.x, h.y), SeatMotion(h.x, h.y), SeatFrame])
  }

  function MotionStep(env: Env, s: State, t: Toplevel, idx: int, hit: Option<Hit>, x: real, y: real): (State, bool)
    requires WellFormed(s)
  {
    if !Device(idx) then (s, false) else
      match MotionTarget(env, t, hit, x, y)
      case None => (s, false)
      case Some(h) =>
        if idx == 0 then (SeatMotionStep(s, h), true)
        else
          (Emit(s.(pointer := s.pointer[idx := Some(h.surface)]),
                EnterEvents(env, idx, s.pointer[idx], h) + [PointerMotion(idx, h.surface, h.x, h.y)]),
           true)
  }

  /** Desktop scope: the scene found a window and a surface of it under the point. */
  function DesktopMotionStep(env: Env, s: State, hit: Option<(Toplevel, Hit)>): (State, Option<Toplevel>)
    requires WellFormed(s)
  {
    match hit
    case None => (s, None)
    case Some((t, h)) =>
      if env.pointers(h.surface) then (SeatMotionStep(s, h), Some(t)) else (s, None)
  }

  /** The surface that buttons and scrolling of a device go to. */
  function ButtonTarget(s: State, t: Toplevel, idx: int): Surface
    requires WellFormed(s) && Device(idx)
  {
    match s.pointer[idx]
    case Some(surface) => surface
    case None => t.surface
  }

  function ButtonStep(env: Env, s: State, t: Toplevel, idx: int, button: nat, pressed: bool): (State, bool)
    requires WellFormed(s)
  {
    if !Device(idx) || !env.pointers(ButtonTarget(s, t, idx)) then (s, false)
    else if idx == 0 then (Emit(s, [SeatButton(button, pressed), SeatFrame]), true)
    else (Emit(s, [PointerButton(idx, ButtonTarget(s, t, idx), button, pressed)]), true)
  }

  function AxisStep(env: Env, s: State, t: Toplevel, idx: int, axis: nat, amount: real): (State, bool)
    requires WellFormed(s)
  {
    if !Device(idx) || !env.pointers(ButtonTarget(s, t, idx)) then (s, false)
    else (Emit(s, [PointerAxis(idx, ButtonTarget(s, t, idx), axis, amount)]), true)
  }

  /** Press and release device 0's button `count` times, giving up at the first failure. */
  function ClickSteps(env: Env, s: State, t: Toplevel, button: nat, count: nat): (r: (State, bool))
    requires WellFormed(s)
    ensures WellFormed(r.0)
    decreases count
  {
    if count == 0 then (s, true) else
      var (down, pressed) := ButtonStep(env, s, t, 0, button, true);
      if !pressed then (down, false) else
        var (up, released) := ButtonStep(env, down, t, 0, button, false);
        if !released then (up, false) else ClickSteps(env, up, t, button, count - 1)
  }

  // Keyboard

  function RootOf(env: Env, surface: Option<Surface>): Option<Surface> {
    match surface
    case Some(s) => Some(env.root(s))
    case None => None
  }

  /** Make sure the target's keyboard was entered; false if its client has none. */
  function KeyboardEnterStep(env: Env, s: State, t: Toplevel): (State, bool)
    requires WellFormed(s)
  {
    if !env.keyboards(t.surface) then (s, false)
    else
      var entered := s.(keyboard := s.keyboard[0 := Some(t.surface)]);
      if RootOf(env, s.focused) == Some(t.surface) || s.keyboard[0] == Some(t.surface) then (entered, true)
      else (Emit(entered, [KeyboardEnter(t.surface)]), true)
  }

  /** A key event: through the seat if the target has the focus, else straight to it. */
  function KeyEvent(env: Env, s: State, t: Toplevel, keycode: nat, pressed: bool): Event {
    if RootOf(env, s.focused) == Some(env.root(t.surface)) then SeatKey(s.focused.value, keycode, pressed)
    else KeyboardKey(t.surface, keycode, pressed)
  }

  function Stroke(env: Env, s: State, t: Toplevel, keycode: nat): seq<Event> {
    [KeyEvent(env, s, t, keycode, true), KeyEvent(env, s, t, keycode, false)]
  }

  function CharEvents(env: Env, s: State, t: Toplevel, e: KeyEntry): seq<Event> {
    if e.shift then
      [KeyboardModifiers(t.surface, env.masks(Shift))] + Stroke(env, s, t, e.keycode)
      + [KeyboardModifiers(t.surface, 0)]
    else
      Stroke(env, s, t, e.keycode)
  }

  predicate Typable(env: Env, cp: Mask) {
    cp < 128 && cp as nat < |env.chartab| && env.chartab[cp as nat].valid
  }

  function TypeCharStep(env: Env, s: State, t: Toplevel, cp: Mask): (r: (State, bool))
    requires WellFormed(s)
    ensures WellFormed(r.0)
  {
    if !Typable(env, cp) then (s, false) else
      var (entered, ok) := KeyboardEnterStep(env, s, t);
      if !ok then (s, false)
      else (Emit(entered, CharEvents(env, s, t, env.chartab[cp as nat])), true)
  }

  /** The value of a hexadecimal digit in C arithmetic on a signed `char`. */
  function Nibble(digit: bv8): Mask {
    var c: Mask := if digit < 0x80 then digit as Mask else digit as Mask | 0xFFFF_FF00;
    if digit >= 0x80 || digit <= 57 then c - 48 else (c | 0x20) - 97 + 10
  }

  function CodePoint(high: bv8, low: bv8): Mask {
    (Nibble(high) << 4) | Nibble(low)
  }

  /** Type a hex-encoded string, stopping at the first character that has no key; an odd
      digit at the end is ignored. */
  function TypeHexStep(env: Env, s: State, t: Toplevel, hex: seq<bv8>): (r: (State, bool))
    requires WellFormed(s)
    ensures WellFormed(r.0)
    decreases |hex|
  {
    if |hex| < 2 then (s, true) else
      var (typed, ok) := TypeCharStep(env, s, t, CodePoint(hex[0], hex[1]));
      if !ok then (typed, false) else TypeHexStep(env, typed, t, hex[2..])
  }

  /** The digits that the scan of a line keeps. */
  function Scanned(hex: seq<bv8>): seq<bv8> {
    if |hex| <= HEX_LIMIT then hex else hex[..HEX_LIMIT]
  }

  datatype KeyOutcome = Delivered | UnknownKey | NoKeyboard

  function NamedKeyStep(env: Env, s: State, t: Toplevel, name: string): (State, KeyOutcome)
    requires WellFormed(s)
  {
    var keycode := env.named(name);
    if keycode == 0 then (s, UnknownKey) else
      var (entered, ok) := KeyboardEnterStep(env, s, t);
      if !ok then (s, NoKeyboard)
      else (Emit(entered, Stroke(env, s, t, keycode)), Delivered)
  }

  /** A named key, or the key of a single ASCII character. */
  function HotkeyCode(env: Env, key: string): nat {
    var keycode := env.named(key);
    if keycode != 0 || |key| != 1 then keycode
    else
      var cp := key[0] as int;
      if cp < 128 && cp < |env.chartab| && env.chartab[cp].valid then env.chartab[cp].keycode else 0
  }

  function MaskOf(env: Env, modifiers: seq<Modifier>): Mask {
    if modifiers == [] then 0
    else MaskOf(env, modifiers[..|modifiers| - 1]) | env.masks(modifiers[|modifiers| - 1])
  }

  function HotkeyStep(env: Env, s: State, t: Toplevel, modifiers: seq<Modifier>, key: string): (State, KeyOutcome)
    requires WellFormed(s)
  {
    var keycode := HotkeyCode(env, key);
    if keycode == 0 || NoModifier in modifiers then (s, UnknownKey) else
      var (entered, ok) := KeyboardEnterStep(env, s, t);
      if !ok then (s, NoKeyboard)
      else
        (Emit(entered,
              [KeyboardModifiers(t.surface, MaskOf(env, modifiers))] + Stroke(env, s, t, keycode)
              + [KeyboardModifiers(t.surface, 0)]),
         Delivered)
  }

  // Windows

  /** Tell a window once that it is active, and the window that has the focus that it is not. */
  function AnnounceStep(env: Env, s: State, t: Toplevel): State {
    if t.surface in s.activated then s
    else
      var previous := if s.focused.Some? && env.isToplevel(s.focused.value)
                      then [Deactivated(s.focused.value)] else [];
      Emit(s, previous + [Activated(t.surface)]).(activated := s.activated + {t.surface})
  }

  function SeatLeaveEvents(env: Env, surface: Option<Surface>): seq<Event> {
    match surface
    case Some(left) => if env.keyboards(left) then [SeatKeyboardLeave(left)] else []
    case None => []
  }

  function SeatEnterEvents(env: Env, surface: Option<Surface>): seq<Event> {
    match surface
    case Some(entered) => if env.keyboards(entered) then [SeatKeyboardEnter(entered)] else []
    case None => []
  }

  /** What the seat tells the clients when its keyboard focus goes from one surface to another. */
  function FocusEvents(env: Env, before: Option<Surface>, after: Option<Surface>): seq<Event> {
    if before == after then [] else SeatLeaveEvents(env, before) + SeatEnterEvents(env, after)
  }

  /** Give a window the keyboard focus; its first activation is announced once. */
  function FocusStep(env: Env, s: State, t: Toplevel): State {
    if env.skipsFocused && s.focused == Some(t.surface) then s
    else
      Emit(AnnounceStep(env, s, t), FocusEvents(env, s.focused, Some(t.surface))).(focused := Some(t.surface))
  }

  /** The processes of two windows belong together. */
  ghost predicate Related(env: Env, a: Toplevel, b: Toplevel) {
    a.pid == b.pid || InFamily(env.parents, a.pid, b.pid) || InFamily(env.parents, b.pid, a.pid)
  }

  /** The first window in the list whose surface has the focus, if any. */
  function FocusOwner(env: Env, s: State): Option<Toplevel> {
    FirstWith(s.toplevels, RootOf(env, s.focused))
  }

  function FirstWith(toplevels: seq<Toplevel>, surface: Option<Surface>): Option<Toplevel> {
    if toplevels == [] then None
    else if Some(toplevels[0].surface) == surface then Some(toplevels[0])
    else FirstWith(toplevels[1..], surface)
  }

  /** A newly mapped window may take the focus if nobody has it, or if the window that has
      it belongs to the same process family. */
  ghost predicate MayTakeFocus(env: Env, s: State, t: Toplevel) {
    || s.focused == None
    || (FocusOwner(env, s).Some? && Related(env, t, FocusOwner(env, s).value))
  }

  ghost function MapStep(env: Env, s: State, t: Toplevel): State {
    var listed := s.(toplevels := [t] + s.toplevels);
    if MayTakeFocus(env, listed, t) then FocusStep(env, listed, t) else listed
  }

  function Forget(env: Env, entered: Option<Surface>, surface: Surface): Option<Surface> {
    if RootOf(env, entered) == Some(surface) then None else entered
  }

  function Forgotten(env: Env, devices: seq<Option<Surface>>, surface: Surface): seq<Option<Surface>> {
    seq(|devices|, i requires 0 <= i < |devices| => Forget(env, devices[i], surface))
  }

  /** What the seat says when a window goes away. The window itself is not left, it is gone. */
  function UnmapEvents(
      env: Env, focused: Option<Surface>, surface: Surface, refocused: Option<Surface>, cleared: bool): seq<Event>
  {
    (if refocused == focused then [] else FocusEvents(env, Forget(env, focused, surface), refocused))
    + (if cleared then [SeatPointerCleared] else [])
  }

  /** A window goes away; `refocused` is the keyboard focus the seat is left with, and
      `cleared` tells whether it lets go of its pointer focus. */
  function UnmapStep(env: Env, s: State, surface: Surface, refocused: Option<Surface>, cleared: bool): State {
    Emit(s.(pointer := Forgotten(env, s.pointer, surface),
            keyboard := Forgotten(env, s.keyboard, surface),
            focused := refocused,
            seatPointer := if cleared then None else s.seatPointer,
            toplevels := Without(s.toplevels, surface)),
         [Unmapped(surface)] + UnmapEvents(env, s.focused, surface, refocused, cleared))
  }

  function Without(toplevels: seq<Toplevel>, surface: Surface): seq<Toplevel> {
    if toplevels == [] then []
    else (if toplevels[0].surface == surface then [] else [toplevels[0]]) + Without(toplevels[1..], surface)
  }

  // Commands

  datatype Command =
    | DesktopClick(under: Option<(Toplevel, Hit)>, count: nat, button: nat)
    | MoveTo(address: Address, idx: int, x: real, y: real, hits: Toplevel -> Option<Hit>)
    | PressButton(address: Address, idx: int, button: nat, pressed: bool)
    | TypeText(address: Address, hex: seq<bv8>)
    | PressKey(address: Address, name: string)
    | PressHotkey(address: Address, modifiers: seq<Modifier>, key: string)
    | Scroll(address: Address, idx: int, axis: nat, amount: real)
    | EmptyLine
    | BadArguments
    | OtherCommand

  datatype Token =
    | NotResolved(refusal: Refusal)
    | NoSurfaceAtPoint
    | NoPointerResource
    | NoKeyboardResource
    | NoSuchKey
    | NoSuchHotkey
    | IsEmpty
    | BadArgs
    | IsUnknown

  ghost function Resolve(env: Env, toplevels: seq<Toplevel>, address: Address): Result<Toplevel, Refusal> {
    if BadAddress(address) then Err(BadNumber)
    else if i: nat :| OnlyMatch(env.parents, address, toplevels, i) then Ok(toplevels[i])
    else if forall i :: 0 <= i < |toplevels| ==> !Matches(env.parents, address, toplevels[i]) then Err(Unknown)
    else Err(Ambiguous)
  }

  function IfFailed(r: (State, bool), token: Token): (State, Option<Token>) {
    (r.0, if r.1 then None else Some(token))
  }

  function KeyResult(r: (State, KeyOutcome), unknown: Token): (State, Option<Token>) {
    match r.1
    case Delivered => (r.0, None)
    case NoKeyboard => (r.0, Some(NoKeyboardResource))
    case UnknownKey => (r.0, Some(unknown))
  }

  /** One command: the new state, and the token it is refused with, if any. */
  ghost function CommandStep(env: Env, s: State, command: Command): (State, Option<Token>)
    requires WellFormed(s)
  {
    match command
    case DesktopClick(under, count, button) =>
      var (moved, target) := DesktopMotionStep(env, s, under);
      if target == None then (s, Some(NoSurfaceAtPoint))
      else IfFailed(ClickSteps(env, moved, target.value, button, if count == 0 then 1 else count), NoPointerResource)
    case EmptyLine => (s, Some(IsEmpty))
    case BadArguments => (s, Some(BadArgs))
    case OtherCommand => (s, Some(IsUnknown))
    case _ =>
      if command.TypeText? && command.hex == [] then (s, Some(BadArgs)) else
        match Resolve(env, s.toplevels, command.address)
        case Err(refusal) => (s, Some(NotResolved(refusal)))
        case Ok(t) => TargetedStep(env, s, command, t)
  }

  predicate Targeted(command: Command) {
    command.MoveTo? || command.PressButton? || command.TypeText? || command.PressKey?
    || command.PressHotkey? || command.Scroll?
  }

  /** A command whose window was found. */
  function TargetedStep(env: Env, s: State, command: Command, t: Toplevel): (State, Option<Token>)
    requires WellFormed(s) && Targeted(command)
  {
    match command
    case MoveTo(_, idx, x, y, hits) => IfFailed(MotionStep(env, s, t, idx, hits(t), x, y), NoPointerResource)
    case PressButton(_, idx, button, pressed) =>
      IfFailed(ButtonStep(env, s, t, idx, button, pressed), NoPointerResource)
    case TypeText(_, hex) => IfFailed(TypeHexStep(env, s, t, Scanned(hex)), NoKeyboardResource)
    case PressKey(_, name) => KeyResult(NamedKeyStep(env, s, t, name), NoSuchKey)
    case PressHotkey(_, modifiers, key) => KeyResult(HotkeyStep(env, s, t, modifiers, key), NoSuchHotkey)
    case Scroll(_, idx, axis, amount) => IfFailed(AxisStep(env, s, t, idx, axis, amount), NoPointerResource)
  }

  /** Focus the only window of a process. */
  ghost function ActivateStep(env: Env, s: State, pid: Pid): (State, Option<Token>) {
    if pid > 0 && exists i :: OwnedOnly(s.toplevels, pid, i) then
      var i: nat :| OwnedOnly(s.toplevels, pid, i);
      (FocusStep(env, s, s.toplevels[i]), None)
    else if pid > 0 && exists i :: 0 <= i < |s.toplevels| && s.toplevels[i].pid == pid then
      (s, Some(NotResolved(Ambiguous)))
    else (s, Some(NotResolved(Unknown)))
  }

  ghost predicate OwnedOnly(toplevels: seq<Toplevel>, pid: Pid, i: nat) {
    && i < |toplevels| && toplevels[i].pid == pid
    && forall j :: 0 <= j < |toplevels| && toplevels[j].pid == pid ==> j == i
  }

  // Runs

  datatype Step =
    | Inject(command: Command)
    | Map(toplevel: Toplevel)
    | Unmap(surface: Surface, refocused: Option<Surface>, cleared: bool)
    | ActivatePid(pid: Pid)
    | RequestActivation(toplevel: Toplevel)

  ghost function Apply(env: Env, s: State, step: Step): State
    requires WellFormed(s)
  {
    match step
    case Inject(command) => CommandStep(env, s, command).0
    case Map(t) => MapStep(env, s, t)
    case Unmap(surface, refocused, cleared) => UnmapStep(env, s, surface, refocused, cleared)
    case ActivatePid(pid) => ActivateStep(env, s, pid).0
    case RequestActivation(t) => FocusStep(env, s, t)
  }

  lemma ApplyKeepsWellFormed(env: Env, s: State, step: Step)
    requires WellFormed(s)
    ensures WellFormed(Apply(env, s, step))
  {
  }

  ghost function Run(env: Env, s: State, steps: seq<Step>): State
    requires WellFormed(s)
    decreases |steps|
  {
    if steps == [] then s
    else
      ApplyKeepsWellFormed(env, s, steps[0]);
      Run(env, Apply(env, s, steps[0]), steps[1..])
  }

  lemma {:induction false} RunAppend(env: Env, s: State, a: seq<Step>, b: seq<Step>)
    requires WellFormed(s)
    ensures WellFormed(Run(env, s, a))
    ensures Run(env, s, a + b) == Run(env, Run(env, s, a), b)
    decreases |a|
  {
    if a == [] {
      assert a + b == b;
    } else {
      ApplyKeepsWellFormed(env, s, a[0]);
      assert (a + b)[1..] == a[1..] + b;
      RunAppend(env, Apply(env, s, a[0]), a[1..], b);
    }
  }

  /** One step after another. */
  lemma RunOne(env: Env, s: State, front: seq<Step>, last: Step)
    requires WellFormed(s)
    ensures WellFormed(Run(env, s, front))
    ensures Run(env, s, front + [last]) == Apply(env, Run(env, s, front), last)
  {
    RunAppend(env, s, front, [last]);
    var before := Run(env, s, front);
    ApplyKeepsWellFormed(env, before, last);
    assert [last][1..] == [];
    assert Run(env, Apply(env, before, last), []) == Apply(env, before, last);
  }

  function Nowhere(): seq<Option<Surface>> {
    seq(MAX_DEVICES, _ => None)
  }

  const INITIAL := State(Nowhere(), Nowhere(), None, None, [], {}, [])
}
