/** The compositor as it runs: arrays of device states updated in place, events sent one
    after the other. Every method is proved to do what its step in `Injection` says. */
module Compositor {
  import opened Wrappers
  import opened Targets
  import opened Injection

  class Compositor {
    const env: Env
    const pointer: array<Option<Surface>>
    const keyboard: array<Option<Surface>>
    var focused: Option<Surface>
    var seatPointer: Option<Surface>
    var toplevels: seq<Toplevel>
    var activated: set<Surface>
    var trace: seq<Event>

    ghost predicate Valid()
      reads this
    {
      pointer.Length == keyboard.Length == MAX_DEVICES && pointer != keyboard
    }

    ghost function Now(): (s: State)
      requires Valid()
      reads this, pointer, keyboard
      ensures WellFormed(s)
    {
      State(pointer[..], keyboard[..], focused, seatPointer, toplevels, activated, trace)
    }

    constructor (env: Env)
      ensures Valid() && this.env == env && Now() == INITIAL
    {
      this.env := env;
      pointer := new Option<Surface>[MAX_DEVICES](_ => None);
      keyboard := new Option<Surface>[MAX_DEVICES](_ => None);
      focused, seatPointer, toplevels, activated, trace := None, None, [], {}, [];
    }

    method Send(events: seq<Event>)
      requires Valid()
      modifies `trace
      ensures Now() == Emit(old(Now()), events)
    {
      trace := trace + events;
    }

    // Pointer

    method PointerLeaves(idx: nat, surface: Option<Surface>)
      requires Valid()
      modifies `trace
      ensures Now() == Emit(old(Now()), LeaveEvents(env, idx, surface))
    {
      if surface == None || !env.pointers(surface.value) {
        assert trace + [] == trace;
        return;
      }
      Send([PointerLeave(idx, surface.value)]);
    }

    /** Enter, motion and frame by way of the seat, which moves its pointer focus. */
    method NotifySeat(surface: Surface, x: real, y: real)
      requires Valid()
      modifies `trace, `seatPointer
      ensures Now() == Emit(old(Now()).(seatPointer := Some(surface)),
                            [SeatEnter(surface, x, y), SeatMotion(x, y), SeatFrame])
    {
      Send([SeatEnter(surface, x, y), SeatMotion(x, y), SeatFrame]);
      seatPointer := Some(surface);
    }

    method Motion(t: Toplevel, idx: int, hit: Option<Hit>, x: real, y: real) returns (ok: bool)
      requires Valid()
      modifies `trace, `seatPointer, pointer
      ensures (Now(), ok) == MotionStep(env, old(Now()), t, idx, hit, x, y)
    {
      if idx < 0 || idx >= MAX_DEVICES {
        return false;
      }
      if hit == None {
        return false;
      }
      var surface, localX, localY := hit.value.surface, hit.value.x, hit.value.y;
      if !env.pointers(surface) {
        surface := t.surface;
        localX, localY := x, y;
        if !env.pointers(surface) {
          return false;
        }
      }
      if idx == 0 {
        NotifySeat(surface, localX, localY);
        pointer[idx] := Some(surface);
        return true;
      }
      ghost var entered := pointer[idx];
      if pointer[idx] != Some(surface) {
        PointerLeaves(idx, pointer[idx]);
        Send([PointerEnter(idx, surface, localX, localY)]);
        pointer[idx] := Some(surface);
      }
      Send([PointerMotion(idx, surface, localX, localY)]);
      assert pointer[..] == old(pointer[..])[idx := Some(surface)];
      assert trace == old(trace) + (EnterEvents(env, idx, entered, Hit(surface, localX, localY))
                                    + [PointerMotion(idx, surface, localX, localY)]);
      return true;
    }

    method DesktopMotion(under: Option<(Toplevel, Hit)>) returns (target: Option<Toplevel>)
      requires Valid()
      modifies `trace, `seatPointer, pointer
      ensures (Now(), target) == DesktopMotionStep(env, old(Now()), under)
    {
      if under == None {
        return None;
      }
      var (t, h) := under.value;
      if !env.pointers(h.surface) {
        return None;
      }
      NotifySeat(h.surface, h.x, h.y);
      pointer[0] := Some(h.surface);
      return Some(t);
    }

    method Button(t: Toplevel, idx: int, button: nat, pressed: bool) returns (ok: bool)
      requires Valid()
      modifies `trace
      ensures (Now(), ok) == ButtonStep(env, old(Now()), t, idx, button, pressed)
    {
      if idx < 0 || idx >= MAX_DEVICES {
        return false;
      }
      var surface := if pointer[idx].Some? then pointer[idx].value else t.surface;
      if !env.pointers(surface) {
        return false;
      }
      if idx == 0 {
        Send([SeatButton(button, pressed), SeatFrame]);
        return true;
      }
      Send([PointerButton(idx, surface, button, pressed)]);
      return true;
    }

    method Axis(t: Toplevel, idx: int, axis: nat, amount: real) returns (ok: bool)
      requires Valid()
      modifies `trace
      ensures (Now(), ok) == AxisStep(env, old(Now()), t, idx, axis, amount)
    {
      if idx < 0 || idx >= MAX_DEVICES {
        return false;
      }
      var surface := if pointer[idx].Some? then pointer[idx].value else t.surface;
      if !env.pointers(surface) {
        return false;
      }
      Send([PointerAxis(idx, surface, axis, amount)]);
      return true;
    }

    method Clicks(t: Toplevel, button: nat, count: nat) returns (ok: bool)
      requires Valid()
      modifies `trace
      ensures (Now(), ok) == ClickSteps(env, old(Now()), t, button, count)
    {
      for i := 0 to count
        invariant ClickSteps(env, old(Now()), t, button, count) == ClickSteps(env, Now(), t, button, count - i)
      {
        var down := Button(t, 0, button, true);
        if !down {
          return false;
        }
        var up := Button(t, 0, button, false);
        if !up {
          return false;
        }
      }
      return true;
    }

    // Keyboard

    method EnterKeyboard(t: Toplevel) returns (ok: bool)
      requires Valid()
      modifies `trace, keyboard
      ensures (Now(), ok) == KeyboardEnterStep(env, old(Now()), t)
    {
      if !env.keyboards(t.surface) {
        return false;
      }
      if focused.Some? && env.root(focused.value) == t.surface {
        keyboard[0] := Some(t.surface);
        return true;
      }
      if keyboard[0] != Some(t.surface) {
        Send([KeyboardEnter(t.surface)]);
        keyboard[0] := Some(t.surface);
      }
      assert keyboard[..] == old(keyboard[..])[0 := Some(t.surface)];
      return true;
    }

    method Key(t: Toplevel, keycode: nat, pressed: bool)
      requires Valid()
      modifies `trace
      ensures Now() == Emit(old(Now()), [KeyEvent(env, old(Now()), t, keycode, pressed)])
    {
      var target := env.root(t.surface);
      if focused.Some? && env.root(focused.value) == target {
        Send([SeatKey(focused.value, keycode, pressed)]);
      } else {
        Send([KeyboardKey(t.surface, keycode, pressed)]);
      }
    }

    method Strike(t: Toplevel, keycode: nat)
      requires Valid()
      modifies `trace
      ensures Now() == Emit(old(Now()), Stroke(env, old(Now()), t, keycode))
    {
      Key(t, keycode, true);
      Key(t, keycode, false);
      assert trace == old(trace) + Stroke(env, old(Now()), t, keycode);
    }

    method TypeChar(t: Toplevel, cp: Mask) returns (ok: bool)
      requires Valid()
      modifies `trace, keyboard
      ensures (Now(), ok) == TypeCharStep(env, old(Now()), t, cp)
    {
      if cp >= 128 || cp as nat >= |env.chartab| || !env.chartab[cp as nat].valid {
        return false;
      }
      var entered := EnterKeyboard(t);
      if !entered {
        return false;
      }
      var e := env.chartab[cp as nat];
      ghost var before := trace;
      if e.shift {
        Send([KeyboardModifiers(t.surface, env.masks(Shift))]);
      }
      Strike(t, e.keycode);
      if e.shift {
        Send([KeyboardModifiers(t.surface, 0)]);
      }
      assert trace == before + CharEvents(env, old(Now()), t, e);
      return true;
    }

    method TypeHex(t: Toplevel, hex: seq<bv8>) returns (ok: bool)
      requires Valid()
      modifies `trace, keyboard
      ensures (Now(), ok) == TypeHexStep(env, old(Now()), t, hex)
    {
      var p := 0;
      assert hex[0..] == hex;
      while p + 1 < |hex|
        invariant p <= |hex|
        invariant TypeHexStep(env, old(Now()), t, hex) == TypeHexStep(env, Now(), t, hex[p..])
        decreases |hex| - p
      {
        var high, low := Nibble(hex[p]), Nibble(hex[p + 1]);
        var cp := (high << 4) | low;
        assert cp == CodePoint(hex[p], hex[p + 1]);
        var typed := TypeChar(t, cp);
        if !typed {
          return false;
        }
        ghost var rest := hex[p..];
        assert rest[0] == hex[p] && rest[1] == hex[p + 1] && rest[2..] == hex[p + 2..];
        p := p + 2;
      }
      return true;
    }

    method NamedKey(t: Toplevel, name: string) returns (outcome: KeyOutcome)
      requires Valid()
      modifies `trace, keyboard
      ensures (Now(), outcome) == NamedKeyStep(env, old(Now()), t, name)
    {
      var keycode := env.named(name);
      if keycode == 0 {
        return UnknownKey;
      }
      var entered := EnterKeyboard(t);
      if !entered {
        return NoKeyboard;
      }
      Strike(t, keycode);
      return Delivered;
    }

    method Hotkey(t: Toplevel, modifiers: seq<Modifier>, key: string) returns (outcome: KeyOutcome)
      requires Valid()
      modifies `trace, keyboard
      ensures (Now(), outcome) == HotkeyStep(env, old(Now()), t, modifiers, key)
    {
      var keycode := HotkeyCode(env, key);
      if keycode == 0 {
        return UnknownKey;
      }
      var mask: Mask := 0;
      for i := 0 to |modifiers|
        invariant NoModifier !in modifiers[..i]
        invariant mask == MaskOf(env, modifiers[..i])
      {
        if modifiers[i] == NoModifier {
          return UnknownKey;
        }
        assert modifiers[..i + 1][..i] == modifiers[..i];
        mask := mask | env.masks(modifiers[i]);
      }
      assert modifiers[..|modifiers|] == modifiers;
      var entered := EnterKeyboard(t);
      if !entered {
        return NoKeyboard;
      }
      ghost var before := trace;
      Send([KeyboardModifiers(t.surface, mask)]);
      Strike(t, keycode);
      Send([KeyboardModifiers(t.surface, 0)]);
      assert trace == before + ([KeyboardModifiers(t.surface, mask)] + Stroke(env, old(Now()), t, keycode)
                                + [KeyboardModifiers(t.surface, 0)]);
      return Delivered;
    }

    // Commands

    method HandleCommand(command: Command) returns (error: Option<Token>)
      requires Valid()
      modifies `trace, `seatPointer, pointer, keyboard
      ensures (Now(), error) == CommandStep(env, old(Now()), command)
    {
      if command.TypeText? && command.hex == [] {
        return Some(BadArgs);
      }
      match command
      case EmptyLine => return Some(IsEmpty);
      case BadArguments => return Some(BadArgs);
      case OtherCommand => return Some(IsUnknown);
      case DesktopClick(under, count, button) =>
        var target := DesktopMotion(under);
        if target == None {
          return Some(NoSurfaceAtPoint);
        }
        var clicked := Clicks(target.value, button, if count == 0 then 1 else count);
        return if clicked then None else Some(NoPointerResource);
      case _ =>
        var resolved := ResolveAddress(command.address);
        if resolved.Err? {
          return Some(NotResolved(resolved.error));
        }
        error := HandleTargeted(command, resolved.value);
    }

    method ResolveAddress(address: Address) returns (resolved: Result<Toplevel, Refusal>)
      ensures resolved == Resolve(env, toplevels, address)
    {
      var index := ResolveTarget(env.parents, toplevels, address);
      match index
      case Ok(i) =>
        assert OnlyMatch(env.parents, address, toplevels, i);
        return Ok(toplevels[i]);
      case Err(refusal) =>
        if !BadAddress(address) {
          assert forall i: nat :: index != Ok(i) ==> !OnlyMatch(env.parents, address, toplevels, i);
          assert !exists i: nat :: OnlyMatch(env.parents, address, toplevels, i);
          assert refusal == Unknown <==>
                 forall i :: 0 <= i < |toplevels| ==> !Matches(env.parents, address, toplevels[i]);
          assert refusal != BadNumber;
        }
        return Err(refusal);
    }

    method HandleTargeted(command: Command, t: Toplevel) returns (error: Option<Token>)
      requires Valid() && Targeted(command)
      modifies `trace, `seatPointer, pointer, keyboard
      ensures (Now(), error) == TargetedStep(env, old(Now()), command, t)
    {
      match command
      case MoveTo(_, idx, x, y, hits) =>
        var moved := Motion(t, idx, hits(t), x, y);
        return if moved then None else Some(NoPointerResource);
      case PressButton(_, idx, button, pressed) =>
        var sent := Button(t, idx, button, pressed);
        return if sent then None else Some(NoPointerResource);
      case TypeText(_, hex) =>
        var typed := TypeHex(t, Scanned(hex));
        return if typed then None else Some(NoKeyboardResource);
      case PressKey(_, name) =>
        var outcome := NamedKey(t, name);
        return KeyError(outcome, NoSuchKey);
      case PressHotkey(_, modifiers, key) =>
        var outcome := Hotkey(t, modifiers, key);
        return KeyError(outcome, NoSuchHotkey);
      case Scroll(_, idx, axis, amount) =>
        var sent := Axis(t, idx, axis, amount);
        return if sent then None else Some(NoPointerResource);
    }

    static function KeyError(outcome: KeyOutcome, unknown: Token): Option<Token> {
      match outcome
      case Delivered => None
      case NoKeyboard => Some(NoKeyboardResource)
      case UnknownKey => Some(unknown)
    }

    // Windows

    method Focus(t: Toplevel)
      requires Valid()
      modifies `trace, `focused, `activated
      ensures Now() == FocusStep(env, old(Now()), t)
    {
      if env.skipsFocused && focused == Some(t.surface) {
        return;
      }
      if t.surface !in activated {
        if focused.Some? && env.isToplevel(focused.value) {
          Send([Deactivated(focused.value)]);
        }
        Send([Activated(t.surface)]);
        activated := activated + {t.surface};
        assert trace == old(trace) + ((if old(focused).Some? && env.isToplevel(old(focused).value)
                                       then [Deactivated(old(focused).value)] else []) + [Activated(t.surface)]);
      }
      FocusSeat(Some(t.surface));
    }

    /** The seat's keyboard focus moves, and it tells the clients. */
    method FocusSeat(surface: Option<Surface>)
      requires Valid()
      modifies `trace, `focused
      ensures focused == surface && trace == old(trace) + FocusEvents(env, old(focused), surface)
    {
      if surface == focused {
        assert trace + [] == trace;
        return;
      }
      if focused.Some? && env.keyboards(focused.value) {
        Send([SeatKeyboardLeave(focused.value)]);
      }
      if surface.Some? && env.keyboards(surface.value) {
        Send([SeatKeyboardEnter(surface.value)]);
      }
      focused := surface;
      assert trace == old(trace) + FocusEvents(env, old(focused), surface);
    }

    method MaybeFocusNew(t: Toplevel)
      requires Valid()
      modifies `trace, `focused, `activated
      ensures Now() == if MayTakeFocus(env, old(Now()), t) then FocusStep(env, old(Now()), t) else old(Now())
    {
      if focused == None {
        Focus(t);
        return;
      }
      var focusedRoot := env.root(focused.value);
      for i := 0 to |toplevels|
        invariant Now() == old(Now())
        invariant FocusOwner(env, Now()) == FirstWith(toplevels[i..], Some(focusedRoot))
      {
        var current := toplevels[i];
        if current.surface == focusedRoot {
          assert FocusOwner(env, Now()) == Some(current);
          var related := current.pid == t.pid;
          if !related {
            related := PidInFamily(env.parents, t.pid, current.pid);
          }
          if !related {
            related := PidInFamily(env.parents, current.pid, t.pid);
          }
          if related {
            Focus(t);
          }
          return;
        }
      }
    }

    /** The map handler: list the window, then see whether it may have the focus. */
    method MapToplevel(t: Toplevel)
      requires Valid()
      modifies `trace, `focused, `activated, `toplevels
      ensures Now() == MapStep(env, old(Now()), t)
    {
      toplevels := [t] + toplevels;
      MaybeFocusNew(t);
    }

    method ActivatePid(pid: Pid) returns (error: Option<Token>)
      requires Valid()
      modifies `trace, `focused, `activated
      ensures (Now(), error) == ActivateStep(env, old(Now()), pid)
    {
      var found, matches := 0, 0;
      for i := 0 to |toplevels|
        invariant Now() == old(Now())
        invariant pid <= 0 ==> matches == 0
        invariant matches == 0 && pid > 0 ==> forall j :: 0 <= j < i ==> toplevels[j].pid != pid
        invariant matches > 0 ==> found < i && toplevels[found].pid == pid
        invariant matches == 1 ==> forall j :: 0 <= j < i && toplevels[j].pid == pid ==> j == found
        invariant matches > 1 ==> exists j, k :: 0 <= j < k < i && toplevels[j].pid == pid && toplevels[k].pid == pid
      {
        if pid > 0 && toplevels[i].pid == pid {
          found, matches := i, matches + 1;
        }
      }
      if matches == 0 {
        return Some(NotResolved(Unknown));
      }
      if matches > 1 {
        return Some(NotResolved(Ambiguous));
      }
      assert OwnedOnly(toplevels, pid, found);
      Focus(toplevels[found]);
      return None;
    }

    /** The unmap handler; `refocused` and `cleared` say how the seat is left. */
    method UnmapToplevel(surface: Surface, refocused: Option<Surface>, cleared: bool)
      requires Valid()
      modifies this, pointer, keyboard
      ensures Now() == UnmapStep(env, old(Now()), surface, refocused, cleared)
    {
      ForgetSurface(surface);
      toplevels := Without(toplevels, surface);
      Send([Unmapped(surface)]);
      LeaveSeat(surface, refocused, cleared);
      assert trace == old(trace) + ([Unmapped(surface)]
                                    + UnmapEvents(env, old(focused), surface, refocused, cleared));
    }

    /** How the seat is left when a window is gone. */
    method LeaveSeat(surface: Surface, refocused: Option<Surface>, cleared: bool)
      requires Valid()
      modifies `trace, `focused, `seatPointer
      ensures focused == refocused && seatPointer == if cleared then None else old(seatPointer)
      ensures trace == old(trace) + UnmapEvents(env, old(focused), surface, refocused, cleared)
    {
      if refocused != focused {
        if focused.Some? && env.root(focused.value) == surface {
          focused := None;
        }
        FocusSeat(refocused);
      }
      if cleared {
        Send([SeatPointerCleared]);
        seatPointer := None;
      }
      assert trace == old(trace) + UnmapEvents(env, old(focused), surface, refocused, cleared);
    }

    /** The loop over the devices. */
    method ForgetSurface(surface: Surface)
      requires Valid()
      modifies pointer, keyboard
      ensures pointer[..] == Forgotten(env, old(pointer[..]), surface)
      ensures keyboard[..] == Forgotten(env, old(keyboard[..]), surface)
    {
      for i := 0 to MAX_DEVICES
        invariant forall k :: 0 <= k < i ==> pointer[k] == Forget(env, old(pointer[k]), surface)
        invariant forall k :: 0 <= k < i ==> keyboard[k] == Forget(env, old(keyboard[k]), surface)
        invariant forall k :: i <= k < MAX_DEVICES ==>
                    pointer[k] == old(pointer[k]) && keyboard[k] == old(keyboard[k])
      {
        if pointer[i].Some? && env.root(pointer[i].value) == surface {
          pointer[i] := None;
        }
        if keyboard[i].Some? && env.root(keyboard[i].value) == surface {
          keyboard[i] := None;
        }
      }
    }
  }
}
