/** What a command comes to for the clients: the events they get, with their points, buttons
    and keys, and what the command is answered with. */
module Delivery {
  import opened Wrappers
  import opened Targets
  import opened Injection
  import opened StepEffects
  import opened PointerTargets
  import Typing

  // Motions

  /** Where a motion of window `t` goes: to the surface under the point and the point on it, if
      its client has a pointer, and otherwise to the window and the point that was asked for. */
  function Aim(env: Env, t: Toplevel, under: Hit, x: real, y: real): Hit {
    if env.pointers(under.surface) then under else Hit(t.surface, x, y)
  }

  /** Left where it was, if that is another surface, and entered where it goes. */
  function Crossing(env: Env, idx: nat, was: Option<Surface>, aim: Hit): seq<Event> {
    if was == Some(aim.surface) then []
    else
      (if was.Some? && env.pointers(was.value) then [PointerLeave(idx, was.value)] else [])
      + [PointerEnter(idx, aim.surface, aim.x, aim.y)]
  }

  /** A motion is accepted exactly if there is such a device, something under the point, and a
      pointer to get it; then the device is on the surface aimed at, and one motion was sent,
      with the point aimed at. */
  lemma MotionDelivers(env: Env, s: State, command: Command, t: Toplevel)
    requires WellFormed(s) && command.MoveTo? && Resolve(env, s.toplevels, command.address) == Ok(t)
    ensures var (after, refusal) := CommandStep(env, s, command);
            var idx, under := command.idx, command.hits(t);
            if 0 <= idx < 64 && under.Some? && (env.pointers(under.value.surface) || env.pointers(t.surface)) then
              var aim := Aim(env, t, under.value, command.x, command.y);
              && refusal == None
              && after.pointer == s.pointer[idx := Some(aim.surface)]
              && after.keyboard == s.keyboard && after.focused == s.focused && after.toplevels == s.toplevels
              && after.seatPointer == (if idx == 0 then Some(aim.surface) else s.seatPointer)
              && after.trace == s.trace +
                   if idx == 0 then [SeatEnter(aim.surface, aim.x, aim.y), SeatMotion(aim.x, aim.y), SeatFrame]
                   else Crossing(env, idx, s.pointer[idx], aim) + [PointerMotion(idx, aim.surface, aim.x, aim.y)]
            else after == s && refusal == Some(NoPointerResource)
  {
  }

  // Clicks

  /** A button or a scroll is accepted exactly if there is such a device and a pointer behind
      the surface it is on, or the window's own if it is on none; that surface gets the button
      or the scroll as asked for, or the seat does. */
  lemma ClickDelivers(env: Env, s: State, command: Command, t: Toplevel)
    requires WellFormed(s) && (command.PressButton? || command.Scroll?)
    requires Resolve(env, s.toplevels, command.address) == Ok(t)
    ensures var (after, refusal) := CommandStep(env, s, command);
            var idx := command.idx;
            if 0 <= idx < 64 && env.pointers(if s.pointer[idx].Some? then s.pointer[idx].value else t.surface) then
              var surface := if s.pointer[idx].Some? then s.pointer[idx].value else t.surface;
              && refusal == None
              && after == s.(trace := s.trace +
                   if command.Scroll? then [PointerAxis(idx, surface, command.axis, command.amount)]
                   else if idx == 0 then [SeatButton(command.button, command.pressed), SeatFrame]
                   else [PointerButton(idx, surface, command.button, command.pressed)])
            else after == s && refusal == Some(NoPointerResource)
  {
  }

  /** Presses and releases, one after the other. */
  function Presses(button: nat, count: nat): seq<Event> {
    if count == 0 then []
    else [SeatButton(button, true), SeatFrame, SeatButton(button, false), SeatFrame] + Presses(button, count - 1)
  }

  lemma {:induction false} ClicksDeliver(env: Env, s: State, t: Toplevel, button: nat, count: nat, surface: Surface)
    requires WellFormed(s) && s.pointer[0] == Some(surface) && env.pointers(surface)
    ensures ClickSteps(env, s, t, button, count) == (s.(trace := s.trace + Presses(button, count)), true)
    decreases count
  {
    if count == 0 {
      assert s.trace + [] == s.trace;
    } else {
      var down := Emit(s, [SeatButton(button, true), SeatFrame]);
      var up := Emit(down, [SeatButton(button, false), SeatFrame]);
      ClicksDeliver(env, up, t, button, count - 1, surface);
      assert up.trace + Presses(button, count - 1) == s.trace + Presses(button, count);
    }
  }

  /** A click in desktop scope enters the point, moves there, and clicks as often as asked, at
      least once. */
  lemma DesktopClickDelivers(env: Env, s: State, under: Option<(Toplevel, Hit)>, count: nat, button: nat)
    requires WellFormed(s)
    ensures var (after, refusal) := CommandStep(env, s, DesktopClick(under, count, button));
            if under.Some? && env.pointers(under.value.1.surface) then
              var h := under.value.1;
              && refusal == None
              && after == s.(pointer := s.pointer[0 := Some(h.surface)], seatPointer := Some(h.surface),
                             trace := s.trace + [SeatEnter(h.surface, h.x, h.y), SeatMotion(h.x, h.y), SeatFrame]
                                      + Presses(button, if count == 0 then 1 else count))
            else after == s && refusal == Some(NoSurfaceAtPoint)
  {
    if under.Some? && env.pointers(under.value.1.surface) {
      var (t, h) := under.value;
      ClicksDeliver(env, SeatMotionStep(s, h), t, button, if count == 0 then 1 else count, h.surface);
    }
  }

  // Keys

  /** The code of a key: that of its name, or of the single character it is. */
  function CodeOf(env: Env, key: string): nat {
    if env.named(key) != 0 then env.named(key)
    else if |key| == 1 && key[0] as int < 128 && key[0] as int < |env.chartab| && env.chartab[key[0] as int].valid
    then env.chartab[key[0] as int].keycode
    else 0
  }

  /** The events of one key stroke: through the seat, or straight to the window. */
  function StrokeAt(env: Env, s: State, t: Toplevel, code: nat): seq<Event> {
    if RootOf(env, s.focused) == Some(env.root(t.surface)) then
      [SeatKey(s.focused.value, code, true), SeatKey(s.focused.value, code, false)]
    else
      [KeyboardKey(t.surface, code, true), KeyboardKey(t.surface, code, false)]
  }

  lemma StrokeIs(env: Env, s: State, t: Toplevel, code: nat)
    ensures Stroke(env, s, t, code) == StrokeAt(env, s, t, code)
  {
  }

  /** A named key is pressed and released once, with nothing but an enter before. */
  lemma NamedKeyDelivers(env: Env, s: State, command: Command, t: Toplevel)
    requires WellFormed(s) && command.PressKey? && Resolve(env, s.toplevels, command.address) == Ok(t)
    ensures var (after, refusal) := CommandStep(env, s, command);
            var code := env.named(command.name);
            if code == 0 then after == s && refusal == Some(NoSuchKey)
            else if !env.keyboards(t.surface) then after == s && refusal == Some(NoKeyboardResource)
            else
              && refusal == None
              && after == s.(keyboard := s.keyboard[0 := Some(t.surface)],
                             trace := s.trace + (Greeting(env, s, t) + StrokeAt(env, s, t, code)))
  {
    StrokeIs(env, s, t, env.named(command.name));
    assert s.trace + Greeting(env, s, t) + Stroke(env, s, t, env.named(command.name))
           == s.trace + (Greeting(env, s, t) + Stroke(env, s, t, env.named(command.name)));
  }

  /** A hotkey is its key, a name or a single character, pressed and released between its
      modifiers and their release. */
  lemma HotkeyDelivers(env: Env, s: State, command: Command, t: Toplevel)
    requires WellFormed(s) && command.PressHotkey? && Resolve(env, s.toplevels, command.address) == Ok(t)
    ensures var (after, refusal) := CommandStep(env, s, command);
            var code := CodeOf(env, command.key);
            if code == 0 || NoModifier in command.modifiers then after == s && refusal == Some(NoSuchHotkey)
            else if !env.keyboards(t.surface) then after == s && refusal == Some(NoKeyboardResource)
            else
              && refusal == None
              && exists mask ::
                   && LeastMask(env, command.modifiers, mask)
                   && after == s.(keyboard := s.keyboard[0 := Some(t.surface)],
                                  trace := s.trace + (Greeting(env, s, t)
                                           + ([KeyboardModifiers(t.surface, mask)] + StrokeAt(env, s, t, code)
                                              + [KeyboardModifiers(t.surface, 0)])))
  {
    var code, mask := CodeOf(env, command.key), MaskOf(env, command.modifiers);
    assert code == HotkeyCode(env, command.key);
    if code != 0 && NoModifier !in command.modifiers && env.keyboards(t.surface) {
      StrokeIs(env, s, t, code);
      MaskIsLeast(env, command.modifiers);
      var chord := [KeyboardModifiers(t.surface, mask)] + StrokeAt(env, s, t, code)
                   + [KeyboardModifiers(t.surface, 0)];
      assert s.trace + Greeting(env, s, t) + chord == s.trace + (Greeting(env, s, t) + chord);
    }
  }

  /** The bits of all modifiers, and no others. */
  ghost predicate LeastMask(env: Env, modifiers: seq<Modifier>, mask: Mask) {
    && (forall m :: m in modifiers ==> Typing.Holds(mask, env.masks(m)))
    && forall other: Mask :: (forall m :: m in modifiers ==> Typing.Holds(other, env.masks(m))) ==>
         Typing.Holds(other, mask)
  }

  lemma ZeroHeld(mask: Mask)
    ensures Typing.Holds(mask, 0)
  {
  }

  lemma BothHeld(mask: Mask, a: Mask, b: Mask)
    requires Typing.Holds(mask, a) && Typing.Holds(mask, b)
    ensures Typing.Holds(mask, a | b)
  {
  }

  lemma BothHeldLast(env: Env, front: seq<Modifier>, last: Modifier, mask: Mask)
    requires Typing.Holds(mask, MaskOf(env, front)) && Typing.Holds(mask, env.masks(last))
    ensures Typing.Holds(mask, MaskOf(env, front + [last]))
  {
    assert (front + [last])[..|front|] == front;
    BothHeld(mask, MaskOf(env, front), env.masks(last));
  }

  lemma {:induction false} MaskIsBelow(env: Env, modifiers: seq<Modifier>, mask: Mask)
    requires forall m :: m in modifiers ==> Typing.Holds(mask, env.masks(m))
    ensures Typing.Holds(mask, MaskOf(env, modifiers))
    decreases |modifiers|
  {
    if modifiers == [] {
      ZeroHeld(mask);
    } else {
      var front, last := modifiers[..|modifiers| - 1], modifiers[|modifiers| - 1];
      assert modifiers == front + [last];
      MaskIsBelow(env, front, mask);
      BothHeldLast(env, front, last, mask);
    }
  }

  lemma MaskIsLeast(env: Env, modifiers: seq<Modifier>)
    ensures LeastMask(env, modifiers, MaskOf(env, modifiers))
  {
    forall m | m in modifiers ensures Typing.Holds(MaskOf(env, modifiers), env.masks(m)) {
      Typing.MaskHoldsEach(env, modifiers, m);
    }
    forall other: Mask | forall m :: m in modifiers ==> Typing.Holds(other, env.masks(m))
      ensures Typing.Holds(other, MaskOf(env, modifiers))
    {
      MaskIsBelow(env, modifiers, other);
    }
  }

  // Texts

  /** A text is refused exactly if it is empty, or has a character without a key among those
      that the scan keeps, or the window has no keyboard. */
  lemma TextAnsweredExactly(env: Env, s: State, address: Address, text: seq<bv8>, t: Toplevel)
    requires WellFormed(s) && Resolve(env, s.toplevels, address) == Ok(t)
    ensures CommandStep(env, s, TypeText(address, Typing.HexEncode(text))).1
            == if text == [] then Some(BadArgs)
               else if env.keyboards(t.surface) && Typing.AllTypable(env, Typing.Kept(text)) then None
               else Some(NoKeyboardResource)
  {
    Typing.TextCommand(env, s, t, address, text);
    TypedExactly(env, s, t, Typing.Kept(text));
    if text != [] {
      assert Typing.Kept(text) != [];
    }
  }

  lemma {:induction false} TypedExactly(env: Env, s: State, t: Toplevel, text: seq<bv8>)
    requires WellFormed(s)
    ensures text != [] ==>
              (TypeHexStep(env, s, t, Typing.HexEncode(text)).1
               <==> env.keyboards(t.surface) && Typing.AllTypable(env, text))
    decreases |text|
  {
    if text != [] {
      Typing.TypeHexOfText(env, s, t, text);
      var (typed, ok) := TypeCharStep(env, s, t, text[0] as Mask);
      TypedExactly(env, typed, t, text[1..]);
      assert text == [text[0]] + text[1..];
      TypableSplit(env, text);
    }
  }

  lemma TypableSplit(env: Env, text: seq<bv8>)
    requires text != []
    ensures Typing.AllTypable(env, text)
            <==> Typable(env, text[0] as Mask) && Typing.AllTypable(env, text[1..])
  {
    if Typable(env, text[0] as Mask) && Typing.AllTypable(env, text[1..]) {
      forall i | 0 <= i < |text| ensures Typable(env, text[i] as Mask) {
        if i > 0 {
          assert text[i] == text[1..][i - 1];
        }
      }
    }
  }

  // Everything else

  /** Lines without a command, and commands without a window, change nothing. */
  lemma OthersRefused(env: Env, s: State, command: Command)
    requires WellFormed(s)
    ensures CommandStep(env, s, EmptyLine) == (s, Some(IsEmpty))
    ensures CommandStep(env, s, BadArguments) == (s, Some(BadArgs))
    ensures CommandStep(env, s, OtherCommand) == (s, Some(IsUnknown))
    ensures Targeted(command) && Resolve(env, s.toplevels, command.address).Err? &&
            !(command.TypeText? && command.hex == []) ==>
              CommandStep(env, s, command)
              == (s, Some(NotResolved(Resolve(env, s.toplevels, command.address).error)))
  {
  }

  /** A window is found exactly if it is the only one that matches; the refusals tell a malformed
      address, none and several apart. */
  lemma ResolvedExactly(env: Env, toplevels: seq<Toplevel>, address: Address, i: nat, j: nat)
    requires i < |toplevels| && j < |toplevels|
    ensures BadAddress(address) ==> Resolve(env, toplevels, address) == Err(BadNumber)
    ensures !BadAddress(address) && Matches(env.parents, address, toplevels[i]) &&
            (forall k :: 0 <= k < |toplevels| && k != i ==> !Matches(env.parents, address, toplevels[k])) ==>
              Resolve(env, toplevels, address) == Ok(toplevels[i])
    ensures !BadAddress(address) && i != j && Matches(env.parents, address, toplevels[i]) &&
            Matches(env.parents, address, toplevels[j]) ==>
              Resolve(env, toplevels, address) == Err(Ambiguous)
    ensures !BadAddress(address) &&
            (forall k :: 0 <= k < |toplevels| ==> !Matches(env.parents, address, toplevels[k])) ==>
              Resolve(env, toplevels, address) == Err(Unknown)
  {
    if !BadAddress(address) && Matches(env.parents, address, toplevels[i])
       && forall k :: 0 <= k < |toplevels| && k != i ==> !Matches(env.parents, address, toplevels[k])
    {
      assert OnlyMatch(env.parents, address, toplevels, i);
    }
  }

  // Windows

  /** A process is activated exactly if it has one window, which gets the focus then. */
  lemma ActivationExactly(env: Env, s: State, pid: Pid, i: nat, j: nat)
    requires WellFormed(s) && i < |s.toplevels| && j < |s.toplevels|
    ensures var (after, refusal) := ActivateStep(env, s, pid);
            && (pid > 0 && s.toplevels[i].pid == pid
                && (forall k :: 0 <= k < |s.toplevels| && k != i ==> s.toplevels[k].pid != pid) ==>
                  refusal == None && after.focused == Some(s.toplevels[i].surface)
                  && after == Apply(env, s, RequestActivation(s.toplevels[i])))
            && (pid > 0 && i != j && s.toplevels[i].pid == s.toplevels[j].pid == pid ==>
                  after == s && refusal == Some(NotResolved(Ambiguous)))
            && (pid <= 0 || (forall k :: 0 <= k < |s.toplevels| ==> s.toplevels[k].pid != pid) ==>
                  after == s && refusal == Some(NotResolved(Unknown)))
  {
    if pid > 0 && s.toplevels[i].pid == pid
       && forall k :: 0 <= k < |s.toplevels| && k != i ==> s.toplevels[k].pid != pid
    {
      assert OwnedOnly(s.toplevels, pid, i);
    }
  }

  /** A window that is activated for the first time is told so, after the window that had the
      focus was told that it is not; later there are only the leave and the enter. */
  lemma ActivationTells(env: Env, s: State, t: Toplevel)
    requires WellFormed(s)
    ensures var after := Apply(env, s, RequestActivation(t));
            if env.skipsFocused && s.focused == Some(t.surface) then after == s
            else
              && after.focused == Some(t.surface) && after.activated == s.activated + {t.surface}
              && after.pointer == s.pointer && after.keyboard == s.keyboard
              && after.toplevels == s.toplevels && after.seatPointer == s.seatPointer
              && after.trace == s.trace
                   + (if t.surface in s.activated then []
                      else (if s.focused.Some? && env.isToplevel(s.focused.value)
                            then [Deactivated(s.focused.value)] else []) + [Activated(t.surface)])
                   + (if s.focused == Some(t.surface) then []
                      else (if s.focused.Some? && env.keyboards(s.focused.value)
                            then [SeatKeyboardLeave(s.focused.value)] else [])
                           + if env.keyboards(t.surface) then [SeatKeyboardEnter(t.surface)] else [])
  {
  }

  /** A mapped window is the first in the list, whether or not it gets the focus. */
  lemma MappingLists(env: Env, s: State, t: Toplevel)
    requires WellFormed(s)
    ensures var after := Apply(env, s, Map(t));
            after.toplevels == [t] + s.toplevels && after.pointer == s.pointer && after.keyboard == s.keyboard
  {
  }

  /** It gets the focus if its process descends from that of the window that has it, or the other
      way round, along at most 64 parents; and it does not if no such chain connects them. */
  lemma FamilyGetsFocus(env: Env, s: State, t: Toplevel, owner: Toplevel, path: seq<Pid>)
    requires WellFormed(s) && s.focused.Some? && FocusOwner(env, s.(toplevels := [t] + s.toplevels)) == Some(owner)
    requires 1 <= |path| <= 65 && Chain(env.parents, path) && path[0] > 0 && path[|path| - 1] > 0
    ensures path[0] == t.pid && path[|path| - 1] == owner.pid ==> Apply(env, s, Map(t)).focused == Some(t.surface)
    ensures path[0] == owner.pid && path[|path| - 1] == t.pid ==> Apply(env, s, Map(t)).focused == Some(t.surface)
    ensures t.pid == owner.pid ==> Apply(env, s, Map(t)).focused == Some(t.surface)
    ensures t.pid != owner.pid && !InFamily(env.parents, t.pid, owner.pid) && !InFamily(env.parents, owner.pid, t.pid) ==>
              Apply(env, s, Map(t)).focused == s.focused
  {
    FamilyIsAChain(env.parents, t.pid, owner.pid);
    FamilyIsAChain(env.parents, owner.pid, t.pid);
  }

  /** When a window goes away the devices and the keyboards lose exactly its surfaces, and the
      list exactly the window. */
  lemma UnmapForgets(env: Env, s: State, surface: Surface, refocused: Option<Surface>, cleared: bool, k: nat, t: Toplevel)
    requires WellFormed(s) && k < 64
    ensures var after := Apply(env, s, Unmap(surface, refocused, cleared));
            && |after.pointer| == |after.keyboard| == 64
            && after.pointer[k] == (if RootOf(env, s.pointer[k]) == Some(surface) then None else s.pointer[k])
            && after.keyboard[k] == (if RootOf(env, s.keyboard[k]) == Some(surface) then None else s.keyboard[k])
            && after.focused == refocused && after.activated == s.activated
            && (t in after.toplevels <==> t in s.toplevels && t.surface != surface)
            && after.seatPointer == (if cleared then None else s.seatPointer)
  {
    WithoutKeeps(s.toplevels, surface);
  }
  /** The clients are told that the window is gone; then the surface that had the focus is left,
      unless it was the window's, the surface that has it now is entered, and the seat's pointer
      is cleared. */
  lemma UnmapTellsClients(env: Env, s: State, surface: Surface, refocused: Option<Surface>, cleared: bool)
    requires WellFormed(s)
    ensures Apply(env, s, Unmap(surface, refocused, cleared)).trace
            == s.trace + ([Unmapped(surface)]
               + (if refocused == s.focused then []
                  else (if s.focused.Some? && env.root(s.focused.value) != surface && env.keyboards(s.focused.value)
                        then [SeatKeyboardLeave(s.focused.value)] else [])
                       + if refocused.Some? && env.keyboards(refocused.value)
                         then [SeatKeyboardEnter(refocused.value)] else [])
               + if cleared then [SeatPointerCleared] else [])
  {
  }
}
