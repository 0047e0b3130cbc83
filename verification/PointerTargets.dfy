/** What a command can reach: the devices it moves, the windows its events go to, and the
    windows that devices are on. */
module PointerTargets {
  import opened Wrappers
  import opened Targets
  import opened Injection
  import opened StepEffects

  // A command and its device

  /** The device a command drives, if it drives one. */
  function DeviceOf(command: Command): Option<int> {
    match command
    case DesktopClick(_, _, _) => Some(0)
    case MoveTo(_, idx, _, _, _) => Some(idx)
    case PressButton(_, idx, _, _) => Some(idx)
    case Scroll(_, idx, _, _) => Some(idx)
    case _ => None
  }

  /** An event on behalf of pointer device `j`; the seat notifications are device 0's. */
  predicate OfDevice(e: Event, j: nat) {
    match e
    case PointerEnter(device, _, _, _) => device == j
    case PointerLeave(device, _) => device == j
    case PointerMotion(device, _, _, _) => device == j
    case PointerButton(device, _, _, _) => device == j
    case PointerAxis(device, _, _, _) => device == j
    case SeatEnter(_, _, _) => j == 0
    case SeatMotion(_, _) => j == 0
    case SeatButton(_, _) => j == 0
    case SeatFrame => j == 0
    case SeatPointerCleared => j == 0
    case _ => false
  }

  /** From `s` to `t` device `j` stayed where it was and no event was sent on its behalf; the
      windows, the keyboard focus and the activations are the same too. Device 0 shares its
      place with the pointer focus of the seat. */
  ghost predicate Untouched(s: State, t: State, j: nat)
    requires j < MAX_DEVICES && WellFormed(s)
  {
    && WellFormed(t)
    && t.pointer[j] == s.pointer[j]
    && (j == 0 ==> t.seatPointer == s.seatPointer)
    && SameWindows(s, t)
    && s.trace <= t.trace
    && forall e :: e in t.trace[|s.trace|..] ==> !OfDevice(e, j) && !WindowEvent(e)
  }

  /** An event about the windows themselves. */
  predicate WindowEvent(e: Event) {
    e.Activated? || e.Deactivated? || e.Unmapped?
  }

  ghost predicate SameWindows(s: State, t: State) {
    t.focused == s.focused && t.toplevels == s.toplevels && t.activated == s.activated
  }

  lemma UntouchedTransitive(s: State, t: State, u: State, j: nat)
    requires j < MAX_DEVICES && WellFormed(s) && Untouched(s, t, j) && Untouched(t, u, j)
    ensures Untouched(s, u, j)
  {
    assert u.trace[|s.trace|..] == t.trace[|s.trace|..] + u.trace[|t.trace|..];
  }

  lemma EmitUntouched(s: State, t: State, events: seq<Event>, j: nat)
    requires j < MAX_DEVICES && WellFormed(s) && WellFormed(t)
    requires t.pointer[j] == s.pointer[j] && (j == 0 ==> t.seatPointer == s.seatPointer) && SameWindows(s, t)
    requires t.trace == s.trace + events
    requires forall e :: e in events ==> !OfDevice(e, j) && !WindowEvent(e)
    ensures Untouched(s, t, j)
  {
    assert t.trace[|s.trace|..] == events;
  }

  lemma ClicksTouch(env: Env, s: State, t: Toplevel, button: nat, count: nat, j: nat)
    requires WellFormed(s) && 0 < j < MAX_DEVICES
    ensures Untouched(s, ClickSteps(env, s, t, button, count).0, j)
  {
    ClicksClick(env, s, t, button, count);
    var after := ClickSteps(env, s, t, button, count).0;
    EmitUntouched(s, after, Added(s, after), j);
  }

  lemma TypingTouches(env: Env, s: State, command: Command, t: Toplevel, j: nat)
    requires WellFormed(s) && Typing(command) && j < MAX_DEVICES
    ensures Untouched(s, TargetedStep(env, s, command, t).0, j)
  {
    CommandTypes(env, s, command, t);
    var after := TargetedStep(env, s, command, t).0;
    if Types(env, command, t) {
      var events :| after.trace == s.trace + (Greeting(env, s, t) + events) && Speech(env, s, t, events);
      EmitUntouched(s, after, Greeting(env, s, t) + events, j);
    } else {
      EmitUntouched(s, after, [], j);
    }
  }

  lemma MotionTouches(env: Env, s: State, t: Toplevel, idx: int, hit: Option<Hit>, x: real, y: real, j: nat)
    requires WellFormed(s) && j < MAX_DEVICES && j != idx
    ensures Untouched(s, MotionStep(env, s, t, idx, hit, x, y).0, j)
  {
    var (after, ok) := MotionStep(env, s, t, idx, hit, x, y);
    if !ok {
      EmitUntouched(s, after, [], j);
    } else {
      var h := MotionTarget(env, t, hit, x, y).value;
      if idx == 0 {
        EmitUntouched(s, after, [SeatEnter(h.surface, h.x, h.y), SeatMotion(h.x, h.y), SeatFrame], j);
      } else {
        EmitUntouched(s, after,
                      EnterEvents(env, idx, s.pointer[idx], h) + [PointerMotion(idx, h.surface, h.x, h.y)], j);
      }
    }
  }

  lemma TargetedTouches(env: Env, s: State, command: Command, t: Toplevel, j: nat)
    requires WellFormed(s) && Targeted(command) && j < MAX_DEVICES && DeviceOf(command) != Some(j)
    ensures Untouched(s, TargetedStep(env, s, command, t).0, j)
  {
    if Typing(command) {
      TypingTouches(env, s, command, t, j);
    } else {
      match command
      case MoveTo(_, idx, x, y, hits) => MotionTouches(env, s, t, idx, hits(t), x, y, j);
      case PressButton(_, idx, button, pressed) =>
        var (after, ok) := ButtonStep(env, s, t, idx, button, pressed);
        EmitUntouched(s, after,
                      if !ok then [] else if idx == 0 then [SeatButton(button, pressed), SeatFrame]
                      else [PointerButton(idx, ButtonTarget(s, t, idx), button, pressed)], j);
      case Scroll(_, idx, axis, amount) =>
        var (after, ok) := AxisStep(env, s, t, idx, axis, amount);
        EmitUntouched(s, after, if ok then [PointerAxis(idx, ButtonTarget(s, t, idx), axis, amount)] else [], j);
    }
  }

  /** A command on one device never moves another or sends anything on its behalf. */
  lemma {:induction false} DevicesAreIndependent(env: Env, s: State, command: Command, j: nat)
    requires WellFormed(s) && j < MAX_DEVICES && DeviceOf(command) != Some(j)
    ensures Untouched(s, CommandStep(env, s, command).0, j)
  {
    EmitUntouched(s, s, [], j);
    match command
    case DesktopClick(under, count, button) =>
      var (moved, target) := DesktopMotionStep(env, s, under);
      if target.Some? {
        var h := under.value.1;
        EmitUntouched(s, moved, [SeatEnter(h.surface, h.x, h.y), SeatMotion(h.x, h.y), SeatFrame], j);
        var presses := if count == 0 then 1 else count;
        ClicksTouch(env, moved, target.value, button, presses, j);
        UntouchedTransitive(s, moved, ClickSteps(env, moved, target.value, button, presses).0, j);
      }
    case EmptyLine =>
    case BadArguments =>
    case OtherCommand =>
    case _ =>
      match Resolve(env, s.toplevels, command.address) {
        case Ok(t) => TargetedTouches(env, s, command, t, j);
        case Err(_) =>
      }
  }

  // Clicks and the window they were meant for

  /** The surface that each button or scroll among the events goes to. The seat's buttons go
      to its pointer focus, which `focus` names at the start and each enter moves; without a
      focus nobody gets them. */
  function Recipients(focus: Option<Surface>, events: seq<Event>): seq<Option<Surface>>
    decreases |events|
  {
    if events == [] then []
    else
      var rest := events[1..];
      match events[0]
      case SeatEnter(surface, _, _) => Recipients(Some(surface), rest)
      case SeatPointerCleared => Recipients(None, rest)
      case SeatButton(_, _) => [focus] + Recipients(focus, rest)
      case PointerButton(_, surface, _, _) => [Some(surface)] + Recipients(focus, rest)
      case PointerAxis(_, surface, _, _) => [Some(surface)] + Recipients(focus, rest)
      case _ => Recipients(focus, rest)
  }

  /** Who receives what a step sent. */
  function Received(s: State, after: State): seq<Option<Surface>>
    requires |s.trace| <= |after.trace|
  {
    Recipients(s.seatPointer, Added(s, after))
  }

  predicate Clicks(command: Command) {
    command.PressButton? || command.Scroll?
  }

  /** Where a click must find the device to arrive at window `t`: buttons of device 0 follow
      the seat, everything else the surface that the device has entered, if any. */
  predicate AimedAt(env: Env, s: State, command: Command, t: Toplevel)
    requires WellFormed(s) && Clicks(command) && Device(command.idx)
  {
    if command.PressButton? && command.idx == 0 then RootOf(env, s.seatPointer) == Some(t.surface)
    else s.pointer[command.idx] == None || RootOf(env, s.pointer[command.idx]) == Some(t.surface)
  }

  /** A button or a scroll that is addressed to window `t` and answered with `ok` has one
      recipient, a surface of `t` exactly when the device is aimed at it: a device that was
      moved onto another window keeps delivering there, and device 0 delivers to whatever
      the seat points at, be it nothing. A refused one has no recipient. */
  lemma ClickReachesTargetExactly(env: Env, s: State, command: Command, t: Toplevel)
    requires WellFormed(s) && Clicks(command) && env.root(t.surface) == t.surface
    requires Resolve(env, s.toplevels, command.address) == Ok(t)
    ensures var (after, refusal) := CommandStep(env, s, command);
            && s.trace <= after.trace
            && (refusal == None <==> Device(command.idx) && env.pointers(ButtonTarget(s, t, command.idx)))
            && (refusal != None ==> Received(s, after) == [])
            && (refusal == None ==>
                  && |Received(s, after)| == 1
                  && (RootOf(env, Received(s, after)[0]) == Some(t.surface) <==> AimedAt(env, s, command, t)))
  {
    var (after, refusal) := CommandStep(env, s, command);
    if refusal != None {
      assert Added(s, after) == [];
    } else if command.Scroll? {
      var axis := PointerAxis(command.idx, ButtonTarget(s, t, command.idx), command.axis, command.amount);
      AddedIs(s, after, [axis]);
      RecipientsOfDirect(s.seatPointer, axis);
    } else if command.idx == 0 {
      var button := [SeatButton(command.button, command.pressed), SeatFrame];
      AddedIs(s, after, button);
      RecipientsOfSeatButton(s.seatPointer, command.button, command.pressed, []);
      assert button + [] == button;
    } else {
      var button := PointerButton(command.idx, ButtonTarget(s, t, command.idx), command.button, command.pressed);
      AddedIs(s, after, [button]);
      RecipientsOfDirect(s.seatPointer, button);
    }
  }

  lemma AddedIs(s: State, after: State, events: seq<Event>)
    requires after.trace == s.trace + events
    ensures Added(s, after) == events
  {
  }

  /** The recipient of a single event sent straight to a surface. */
  lemma RecipientsOfDirect(focus: Option<Surface>, e: Event)
    requires e.PointerButton? || e.PointerAxis?
    ensures Recipients(focus, [e]) == [Some(e.surface)]
  {
    assert [e][1..] == [];
    assert Recipients(focus, []) == [];
  }

  lemma RecipientsOfSeatButton(focus: Option<Surface>, button: nat, pressed: bool, events: seq<Event>)
    ensures Recipients(focus, [SeatButton(button, pressed), SeatFrame] + events)
            == [focus] + Recipients(focus, events)
  {
    assert ([SeatButton(button, pressed), SeatFrame] + events)[1..] == [SeatFrame] + events;
    assert ([SeatFrame] + events)[1..] == events;
    assert Recipients(focus, [SeatFrame] + events) == Recipients(focus, events);
  }

  /** Device 1 is moved onto window `a`; a click addressed to window `b` lands on `a`. */
  lemma ClickOnWrongWindow(env: Env, s: State, a: Toplevel, b: Toplevel, button: nat)
    requires WellFormed(s) && env.pointers(a.surface) && a.surface != b.surface
    ensures var moved := MotionStep(env, s, a, 1, Some(Hit(a.surface, 0.0, 0.0)), 0.0, 0.0).0;
            var clicked := ButtonStep(env, moved, b, 1, button, true);
            clicked == (Emit(moved, [PointerButton(1, a.surface, button, true)]), true)
  {
  }

  /** The first window is mapped and clicked with device 0, which has not been moved: the
      command is answered with `ok` and nobody receives the click. */
  lemma ClickOnNobody(env: Env, t: Toplevel, address: Address, button: nat)
    requires env.pointers(t.surface) && !BadAddress(address) && Matches(env.parents, address, t)
    ensures var s := MapStep(env, INITIAL, t);
            var (after, refusal) := CommandStep(env, s, PressButton(address, 0, button, true));
            refusal == None && s.trace <= after.trace && Received(s, after) == [None]
  {
    var s := MapStep(env, INITIAL, t);
    assert s.toplevels == [t];
    ResolveOnly(env, t, address);
    var click := [SeatButton(button, true), SeatFrame];
    AddedIs(s, CommandStep(env, s, PressButton(address, 0, button, true)).0, click);
    RecipientsOfSeatButton(None, button, true, []);
    assert click + [] == click && Recipients(None, []) == [];
  }

  lemma ResolveOnly(env: Env, t: Toplevel, address: Address)
    requires !BadAddress(address) && Matches(env.parents, address, t)
    ensures Resolve(env, [t], address) == Ok(t)
  {
    assert OnlyMatch(env.parents, address, [t], 0);
  }

  /** A click in desktop scope always lands on what the scene has under the point. */
  lemma DesktopClickReachesPoint(env: Env, s: State, t: Toplevel, h: Hit, count: nat, button: nat)
    requires WellFormed(s) && env.pointers(h.surface)
    ensures var (after, refusal) := CommandStep(env, s, DesktopClick(Some((t, h)), count, button));
            var presses := if count == 0 then 1 else count;
            && refusal == None && s.trace <= after.trace
            && Received(s, after) == seq(2 * presses, _ => Some(h.surface))
  {
    var moved := SeatMotionStep(s, h);
    var presses := if count == 0 then 1 else count;
    var (after, ok) := ClickSteps(env, moved, t, button, presses);
    ClicksReach(env, moved, t, button, presses, h.surface);
    var entering := [SeatEnter(h.surface, h.x, h.y), SeatMotion(h.x, h.y), SeatFrame];
    assert Added(s, after) == entering + Added(moved, after);
    assert entering[1..] == [SeatMotion(h.x, h.y), SeatFrame];
    RecipientsOfEntering(s.seatPointer, h, Added(moved, after));
  }

  lemma RecipientsOfEntering(focus: Option<Surface>, h: Hit, events: seq<Event>)
    ensures Recipients(focus, [SeatEnter(h.surface, h.x, h.y), SeatMotion(h.x, h.y), SeatFrame] + events)
            == Recipients(Some(h.surface), events)
  {
    var enter, motion := SeatEnter(h.surface, h.x, h.y), SeatMotion(h.x, h.y);
    var focused := Some(h.surface);
    assert ([enter, motion, SeatFrame] + events)[1..] == [motion, SeatFrame] + events;
    assert ([motion, SeatFrame] + events)[1..] == [SeatFrame] + events;
    assert ([SeatFrame] + events)[1..] == events;
    assert Recipients(focused, [SeatFrame] + events) == Recipients(focused, events);
    assert Recipients(focused, [motion, SeatFrame] + events) == Recipients(focused, [SeatFrame] + events);
  }

  lemma {:induction false} ClicksReach(env: Env, s: State, t: Toplevel, button: nat, count: nat, surface: Surface)
    requires WellFormed(s) && env.pointers(surface)
    requires s.seatPointer == s.pointer[0] == Some(surface)
    ensures var (after, ok) := ClickSteps(env, s, t, button, count);
            && ok && s.trace <= after.trace
            && Received(s, after) == seq(2 * count, _ => Some(surface))
    decreases count
  {
    if count == 0 {
      assert Added(s, s) == [];
    } else {
      var up := Emit(Emit(s, [SeatButton(button, true), SeatFrame]), [SeatButton(button, false), SeatFrame]);
      var after := ClickSteps(env, up, t, button, count - 1).0;
      ClicksReach(env, up, t, button, count - 1, surface);
      var rest := [SeatButton(button, false), SeatFrame] + Added(up, after);
      assert Added(s, after) == [SeatButton(button, true), SeatFrame] + rest;
      RecipientsOfSeatButton(Some(surface), button, true, rest);
      RecipientsOfSeatButton(Some(surface), button, false, Added(up, after));
    }
  }

  // Device 0 and the seat

  /** Device 0 and the seat do not point at different surfaces. */
  ghost predicate SeatAgrees(s: State) {
    && WellFormed(s)
    && (s.pointer[0].Some? && s.seatPointer.Some? ==> s.pointer[0] == s.seatPointer)
  }

  lemma StepKeepsSeat(env: Env, s: State, step: Step)
    requires SeatAgrees(s)
    ensures SeatAgrees(Apply(env, s, step))
  {
    match step
    case Inject(command) =>
      if DeviceOf(command) != Some(0) {
        DevicesAreIndependent(env, s, command, 0);
      } else if command.DesktopClick? {
        var (moved, target) := DesktopMotionStep(env, s, command.under);
        if target.Some? {
          ClicksClick(env, moved, target.value, command.button, if command.count == 0 then 1 else command.count);
        }
      }
    case ActivatePid(pid) =>
      var after := ActivateStep(env, s, pid).0;
      if after != s {
        var i: nat :| OwnedOnly(s.toplevels, pid, i) && after == FocusStep(env, s, s.toplevels[i]);
      }
    case _ =>
  }

  /** In every run device 0 and the seat agree whenever both point somewhere; so a button of
      device 0 goes astray only where one of them points nowhere. */
  lemma {:induction false} SeatAgreement(env: Env, s: State, steps: seq<Step>)
    requires SeatAgrees(s)
    ensures SeatAgrees(Run(env, s, steps))
    decreases |steps|
  {
    if steps != [] {
      StepKeepsSeat(env, s, steps[0]);
      SeatAgreement(env, Apply(env, s, steps[0]), steps[1..]);
    }
  }

  /** The surface that the seat was last made to enter, unless its focus was cleared since. */
  function LastEntered(trace: seq<Event>): Option<Surface> {
    if trace == [] then None
    else
      match trace[|trace| - 1]
      case SeatEnter(surface, _, _) => Some(surface)
      case SeatPointerCleared => None
      case _ => LastEntered(trace[..|trace| - 1])
  }

  predicate MovesSeat(e: Event) {
    e.SeatEnter? || e.SeatPointerCleared?
  }

  lemma {:induction false} LastEnteredAppend(trace: seq<Event>, events: seq<Event>)
    requires forall e :: e in events ==> !MovesSeat(e)
    ensures LastEntered(trace + events) == LastEntered(trace)
    decreases |events|
  {
    if events == [] {
      assert trace + events == trace;
    } else {
      var all := trace + events;
      assert all[|all| - 1] == events[|events| - 1] && events[|events| - 1] in events;
      assert all[..|all| - 1] == trace + events[..|events| - 1];
      LastEnteredAppend(trace, events[..|events| - 1]);
    }
  }

  ghost predicate SeatFollows(s: State) {
    WellFormed(s) && s.seatPointer == LastEntered(s.trace)
  }

  lemma SeatStays(s: State, after: State)
    requires SeatFollows(s) && WellFormed(after) && after.seatPointer == s.seatPointer && s.trace <= after.trace
    requires forall e :: e in Added(s, after) ==> !MovesSeat(e)
    ensures SeatFollows(after)
  {
    assert after.trace == s.trace + Added(s, after);
    LastEnteredAppend(s.trace, Added(s, after));
  }

  lemma SeatMoves(s: State, h: Hit)
    requires SeatFollows(s)
    ensures SeatFollows(SeatMotionStep(s, h))
  {
    var enter, rest := [SeatEnter(h.surface, h.x, h.y)], [SeatMotion(h.x, h.y), SeatFrame];
    assert SeatMotionStep(s, h).trace == s.trace + enter + rest;
    LastEnteredAppend(s.trace + enter, rest);
  }

  lemma FocusLeavesPointer(env: Env, s: State, t: Toplevel)
    ensures s.trace <= FocusStep(env, s, t).trace && FocusStep(env, s, t).seatPointer == s.seatPointer
    ensures forall e :: e in Added(s, FocusStep(env, s, t)) ==> !MovesSeat(e)
  {
  }

  lemma CommandKeepsSeat(env: Env, s: State, command: Command)
    requires SeatFollows(s)
    ensures SeatFollows(CommandStep(env, s, command).0)
  {
    var after := CommandStep(env, s, command).0;
    if DeviceOf(command) != Some(0) {
      DevicesAreIndependent(env, s, command, 0);
      SeatStays(s, after);
    } else if command.DesktopClick? {
      ClickKeepsSeat(env, s, command);
    } else if command.MoveTo? {
      MotionKeepsSeat(env, s, command);
    } else {
      ButtonKeepsSeat(env, s, command);
    }
  }

  lemma ButtonKeepsSeat(env: Env, s: State, command: Command)
    requires SeatFollows(s) && (command.PressButton? || command.Scroll?)
    ensures SeatFollows(CommandStep(env, s, command).0)
  {
    match Resolve(env, s.toplevels, command.address)
    case Ok(t) =>
      SeatStays(s, TargetedStep(env, s, command, t).0);
    case Err(_) =>
  }

  lemma ClickKeepsSeat(env: Env, s: State, command: Command)
    requires SeatFollows(s) && command.DesktopClick?
    ensures SeatFollows(CommandStep(env, s, command).0)
  {
    var (moved, target) := DesktopMotionStep(env, s, command.under);
    if target.Some? {
      SeatMoves(s, command.under.value.1);
      ClicksClick(env, moved, target.value, command.button, if command.count == 0 then 1 else command.count);
      SeatStays(moved, CommandStep(env, s, command).0);
    }
  }

  lemma MotionKeepsSeat(env: Env, s: State, command: Command)
    requires SeatFollows(s) && command.MoveTo? && command.idx == 0
    ensures SeatFollows(CommandStep(env, s, command).0)
  {
    match Resolve(env, s.toplevels, command.address)
    case Ok(t) =>
      var target := MotionTarget(env, t, command.hits(t), command.x, command.y);
      if target.Some? {
        SeatMoves(s, target.value);
      }
    case Err(_) =>
  }

  lemma FocusEventsStay(env: Env, before: Option<Surface>, after: Option<Surface>, e: Event)
    requires e in FocusEvents(env, before, after)
    ensures !MovesSeat(e)
  {
  }

  lemma UnmapMovesSeat(env: Env, s: State, surface: Surface, refocused: Option<Surface>, cleared: bool)
    requires SeatFollows(s)
    ensures SeatFollows(UnmapStep(env, s, surface, refocused, cleared))
  {
    var before := Forget(env, s.focused, surface);
    var events := [Unmapped(surface)] + if refocused == s.focused then [] else FocusEvents(env, before, refocused);
    forall e | e in events ensures !MovesSeat(e) {
      if e != Unmapped(surface) {
        FocusEventsStay(env, before, refocused, e);
      }
    }
    LastEnteredAppend(s.trace, events);
    UnmapAdds(env, s, surface, refocused, cleared, events);
    if !cleared {
      assert s.trace + events + [] == s.trace + events;
    }
  }

  lemma UnmapAdds(
      env: Env, s: State, surface: Surface, refocused: Option<Surface>, cleared: bool, events: seq<Event>)
    requires events == [Unmapped(surface)]
             + if refocused == s.focused then [] else FocusEvents(env, Forget(env, s.focused, surface), refocused)
    ensures UnmapStep(env, s, surface, refocused, cleared).trace
            == s.trace + events + if cleared then [SeatPointerCleared] else []
  {
  }

  lemma StepKeepsSeatFocus(env: Env, s: State, step: Step)
    requires SeatFollows(s)
    ensures SeatFollows(Apply(env, s, step))
  {
    var after := Apply(env, s, step);
    match step
    case Inject(command) => CommandKeepsSeat(env, s, command);
    case Unmap(surface, refocused, cleared) =>
      UnmapMovesSeat(env, s, surface, refocused, cleared);
    case Map(t) =>
      FocusLeavesPointer(env, s.(toplevels := [t] + s.toplevels), t);
      SeatStays(s, after);
    case ActivatePid(pid) =>
      if after != s {
        var i: nat :| OwnedOnly(s.toplevels, pid, i) && after == FocusStep(env, s, s.toplevels[i]);
        FocusLeavesPointer(env, s, s.toplevels[i]);
      }
      SeatStays(s, after);
    case RequestActivation(t) =>
      FocusLeavesPointer(env, s, t);
      SeatStays(s, after);
  }

  /** In every run the seat's buttons go to the surface that it was last made to enter, unless
      an unmap cleared its focus since. */
  lemma {:induction false} SeatFocusIsLastEntered(env: Env, s: State, steps: seq<Step>)
    requires SeatFollows(s)
    ensures SeatFollows(Run(env, s, steps))
    decreases |steps|
  {
    if steps != [] {
      StepKeepsSeatFocus(env, s, steps[0]);
      SeatFocusIsLastEntered(env, Apply(env, s, steps[0]), steps[1..]);
    }
  }

  // Devices and the windows they are on

  /** The surface belongs to one of the windows, or its root is no window at all, as that of a
      popup. */
  ghost predicate OnWindow(env: Env, toplevels: seq<Toplevel>, surface: Surface) {
    !env.isToplevel(env.root(surface)) || exists t :: t in toplevels && t.surface == env.root(surface)
  }

  /** No device is on a surface of a window that is gone. */
  ghost predicate OnWindows(env: Env, s: State) {
    && WellFormed(s)
    && (forall t :: t in s.toplevels ==> env.root(t.surface) == t.surface)
    && forall idx :: 0 <= idx < MAX_DEVICES && s.pointer[idx].Some? ==>
         OnWindow(env, s.toplevels, s.pointer[idx].value)
  }

  /** The scene answers with surfaces and popups of the window asked about, and a window's
      surface is not a child of another. */
  ghost predicate Answers(env: Env, t: Toplevel, h: Hit) {
    env.root(h.surface) == t.surface || !env.isToplevel(env.root(h.surface))
  }

  ghost predicate SceneAnswers(env: Env, s: State, step: Step) {
    match step
    case Inject(MoveTo(_, _, _, _, hits)) =>
      forall t :: t in s.toplevels && hits(t).Some? ==> Answers(env, t, hits(t).value)
    case Inject(DesktopClick(Some((t, h)), _, _)) => t in s.toplevels && Answers(env, t, h)
    case Map(t) => env.root(t.surface) == t.surface
    case _ => true
  }

  ghost predicate SceneAnswersRun(env: Env, s: State, steps: seq<Step>)
    requires WellFormed(s)
    decreases |steps|
  {
    steps == []
    || (ApplyKeepsWellFormed(env, s, steps[0]);
        SceneAnswers(env, s, steps[0]) && SceneAnswersRun(env, Apply(env, s, steps[0]), steps[1..]))
  }

  lemma {:induction false} WithoutKeeps(toplevels: seq<Toplevel>, surface: Surface)
    ensures forall t :: t in Without(toplevels, surface) <==> t in toplevels && t.surface != surface
  {
    if toplevels != [] {
      WithoutKeeps(toplevels[1..], surface);
      assert toplevels == [toplevels[0]] + toplevels[1..];
    }
  }

  /** Only motions move a device. */
  lemma OtherCommandsKeepPointers(env: Env, s: State, command: Command)
    requires WellFormed(s) && !command.MoveTo? && !command.DesktopClick?
    ensures var after := CommandStep(env, s, command).0;
            after.pointer == s.pointer && after.toplevels == s.toplevels
  {
    var after := CommandStep(env, s, command).0;
    ApplyKeepsWellFormed(env, s, Inject(command));
    DevicesAreIndependent(env, s, command, if DeviceOf(command) == Some(1) then 2 else 1);
    if command.PressButton? || command.Scroll? || !Targeted(command) {
      assert after.pointer == s.pointer;
    } else {
      forall j | 0 <= j < MAX_DEVICES ensures after.pointer[j] == s.pointer[j] {
        DevicesAreIndependent(env, s, command, j);
      }
    }
  }

  lemma MotionKeepsOnWindows(env: Env, s: State, t: Toplevel, idx: int, hit: Option<Hit>, x: real, y: real)
    requires OnWindows(env, s) && t in s.toplevels
    requires hit.Some? ==> Answers(env, t, hit.value)
    ensures OnWindows(env, MotionStep(env, s, t, idx, hit, x, y).0)
  {
    var after := MotionStep(env, s, t, idx, hit, x, y).0;
    forall j | 0 <= j < MAX_DEVICES && after.pointer[j].Some?
      ensures OnWindow(env, after.toplevels, after.pointer[j].value)
    {
      if j == idx && after != s {
        assert t in after.toplevels;
      }
    }
  }

  lemma CommandKeepsOnWindows(env: Env, s: State, command: Command)
    requires OnWindows(env, s) && SceneAnswers(env, s, Inject(command))
    ensures OnWindows(env, CommandStep(env, s, command).0)
  {
    match command
    case DesktopClick(under, count, button) =>
      var (moved, target) := DesktopMotionStep(env, s, under);
      if target.Some? {
        ClicksClick(env, moved, target.value, button, if count == 0 then 1 else count);
      }
    case MoveTo(address, idx, x, y, hits) =>
      match Resolve(env, s.toplevels, address) {
        case Ok(t) => MotionKeepsOnWindows(env, s, t, idx, hits(t), x, y);
        case Err(_) =>
      }
    case _ =>
      OtherCommandsKeepPointers(env, s, command);
      ApplyKeepsWellFormed(env, s, Inject(command));
      SamePointersOnWindows(env, s, CommandStep(env, s, command).0);
  }

  lemma SamePointersOnWindows(env: Env, s: State, t: State)
    requires OnWindows(env, s) && WellFormed(t) && t.pointer == s.pointer && t.toplevels == s.toplevels
    ensures OnWindows(env, t)
  {
  }

  lemma UnmapKeepsOnWindows(env: Env, s: State, surface: Surface, refocused: Option<Surface>, cleared: bool)
    requires OnWindows(env, s)
    ensures OnWindows(env, UnmapStep(env, s, surface, refocused, cleared))
  {
    WithoutKeeps(s.toplevels, surface);
    var after := UnmapStep(env, s, surface, refocused, cleared);
    forall idx | 0 <= idx < MAX_DEVICES && after.pointer[idx].Some?
      ensures OnWindow(env, after.toplevels, after.pointer[idx].value)
    {
      if env.isToplevel(env.root(s.pointer[idx].value)) {
        var t :| t in s.toplevels && t.surface == env.root(s.pointer[idx].value);
        assert t in after.toplevels;
      }
    }
  }

  lemma FocusKeepsPointers(env: Env, s: State, t: Toplevel)
    ensures FocusStep(env, s, t).pointer == s.pointer && FocusStep(env, s, t).toplevels == s.toplevels
    ensures FocusStep(env, s, t).keyboard == s.keyboard
  {
  }

  /** In every run a device is only ever on a surface of a window that is mapped, or on a
      popup. */
  lemma {:induction false} DevicesStayOnWindows(env: Env, s: State, steps: seq<Step>)
    requires OnWindows(env, s) && SceneAnswersRun(env, s, steps)
    ensures OnWindows(env, Run(env, s, steps))
    decreases |steps|
  {
    if steps != [] {
      StepKeepsOnWindows(env, s, steps[0]);
      DevicesStayOnWindows(env, Apply(env, s, steps[0]), steps[1..]);
    }
  }

  lemma StepKeepsOnWindows(env: Env, s: State, step: Step)
    requires OnWindows(env, s) && SceneAnswers(env, s, step)
    ensures OnWindows(env, Apply(env, s, step))
  {
    match step
    case Inject(command) => CommandKeepsOnWindows(env, s, command);
    case Map(t) =>
      var listed := s.(toplevels := [t] + s.toplevels);
      FocusKeepsPointers(env, listed, t);
      assert forall u :: u in s.toplevels ==> u in listed.toplevels;
    case Unmap(surface, refocused, cleared) => UnmapKeepsOnWindows(env, s, surface, refocused, cleared);
    case ActivatePid(pid) =>
      var after := ActivateStep(env, s, pid).0;
      if after != s {
        var i: nat :| OwnedOnly(s.toplevels, pid, i) && after == FocusStep(env, s, s.toplevels[i]);
        FocusKeepsPointers(env, s, s.toplevels[i]);
      }
    case RequestActivation(t) => FocusKeepsPointers(env, s, t);
  }

  /** Unmapping a window takes a device off a surface exactly when the surface's root is the
      window's own: a device on a popup of the window is left where it is. */
  lemma UnmapForgetsExactly(env: Env, s: State, t: Toplevel, idx: int, h: Hit, refocused: Option<Surface>, cleared: bool)
    requires WellFormed(s) && Device(idx) && env.pointers(h.surface)
    ensures var moved := MotionStep(env, s, t, idx, Some(h), h.x, h.y).0;
            var after := UnmapStep(env, moved, t.surface, refocused, cleared);
            && WellFormed(moved) && moved.pointer[idx] == Some(h.surface)
            && (after.pointer[idx] == None <==> env.root(h.surface) == t.surface)
  {
  }

  /** Window 1 is mapped and device 1 moved onto surface 2, a popup of it that is its own root:
      when the window is gone the device is still on the popup. */
  lemma PopupCounterexample()
    ensures var env := Env(s => s, s => s, _ => true, _ => true, _ => None, [], _ => 0, _ => 0, s => s == 1, false);
            var t := Toplevel(1, 5, None);
            var move := MoveTo(ClientPid(Some(5)), 1, 0.0, 0.0, _ => Some(Hit(2, 0.0, 0.0)));
            var gone := Run(env, INITIAL, [Map(t), Inject(move), Unmap(1, None, true)]);
            gone.toplevels == [] && gone.pointer[1] == Some(2)
  {
    var env := Env(s => s, s => s, _ => true, _ => true, _ => None, [], _ => 0, _ => 0, s => s == 1, false);
    var t := Toplevel(1, 5, None);
    var move := MoveTo(ClientPid(Some(5)), 1, 0.0, 0.0, _ => Some(Hit(2, 0.0, 0.0)));
    var mapped := Apply(env, INITIAL, Map(t));
    var moved := Apply(env, mapped, Inject(move));
    assert mapped.toplevels == [t];
    ResolveOnly(env, t, ClientPid(Some(5)));
    assert moved.pointer[1] == Some(2) && moved.toplevels == [t];
    WithoutKeeps([t], 1);
    assert Without([t], 1) == [];
    assert [] + [Map(t)] == [Map(t)] && [Map(t)] + [Inject(move)] == [Map(t), Inject(move)];
    RunOne(env, INITIAL, [], Map(t));
    RunOne(env, INITIAL, [Map(t)], Inject(move));
    RunOne(env, INITIAL, [Map(t), Inject(move)], Unmap(1, None, true));
    assert [Map(t), Inject(move)] + [Unmap(1, None, true)] == [Map(t), Inject(move), Unmap(1, None, true)];
  }
}
