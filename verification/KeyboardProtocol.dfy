/** What the clients' keyboards are told over whole runs. A client should hear that one of its
    surfaces is entered before it hears of keys for the surface's window, and that it is left
    before another is entered. The compositor keeps track of one entered surface and of the
    focus only, so it does not always manage. */
module KeyboardProtocol {
  import opened Wrappers
  import opened Targets
  import opened Injection
  import opened StepEffects

  // The protocol of one client

  function Entering(env: Env, client: nat, at: Option<Surface>, x: Surface): Option<Option<Surface>> {
    if env.client(x) != client then Some(at) else if at == None then Some(Some(x)) else None
  }

  function Leaving(env: Env, client: nat, at: Option<Surface>, x: Surface): Option<Option<Surface>> {
    if env.client(x) != client then Some(at) else if at == Some(x) then Some(None) else None
  }

  function Speaking(env: Env, client: nat, at: Option<Surface>, x: Surface): Option<Option<Surface>> {
    if env.client(x) != client || RootOf(env, at) == Some(env.root(x)) then Some(at) else None
  }

  /** The surface that a client knows to be entered after `e`; nothing if `e` breaks the
      protocol. A window that is gone is left without an event. */
  function Next(env: Env, client: nat, at: Option<Surface>, e: Event): Option<Option<Surface>> {
    match e
    case KeyboardEnter(x) => Entering(env, client, at, x)
    case SeatKeyboardEnter(x) => Entering(env, client, at, x)
    case SeatKeyboardLeave(x) => Leaving(env, client, at, x)
    case KeyboardModifiers(x, _) => Speaking(env, client, at, x)
    case KeyboardKey(x, _, _) => Speaking(env, client, at, x)
    case SeatKey(x, _, _) => Speaking(env, client, at, x)
    case Unmapped(x) => Some(Forget(env, at, x))
    case _ => Some(at)
  }

  function Track(env: Env, client: nat, at: Option<Surface>, events: seq<Event>): Option<Option<Surface>>
    decreases |events|
  {
    if events == [] then Some(at)
    else
      match Next(env, client, at, events[0])
      case None => None
      case Some(after) => Track(env, client, after, events[1..])
  }

  lemma {:induction false} TrackAppend(env: Env, client: nat, at: Option<Surface>, a: seq<Event>, b: seq<Event>)
    ensures Track(env, client, at, a + b) ==
              match Track(env, client, at, a)
              case None => None
              case Some(after) => Track(env, client, after, b)
    decreases |a|
  {
    if a == [] {
      assert a + b == b;
    } else {
      assert (a + b)[1..] == a[1..] + b;
      match Next(env, client, at, a[0])
      case None =>
      case Some(after) => TrackAppend(env, client, after, a[1..], b);
    }
  }

  lemma TrackOne(env: Env, client: nat, at: Option<Surface>, e: Event)
    ensures Track(env, client, at, [e]) == Next(env, client, at, e)
  {
    assert [e][1..] == [];
  }

  /** The events so far kept the protocol of the client. */
  predicate Kept(env: Env, client: nat, s: State) {
    Track(env, client, None, s.trace).Some?
  }

  /** The last thing the client was told about being entered: the surface, if it was an enter
      and the surface's window is not gone since. */
  function LastWord(env: Env, client: nat, trace: seq<Event>): Option<Surface> {
    if trace == [] then None
    else
      var before := LastWord(env, client, trace[..|trace| - 1]);
      match trace[|trace| - 1]
      case KeyboardEnter(x) => if env.client(x) == client then Some(x) else before
      case SeatKeyboardEnter(x) => if env.client(x) == client then Some(x) else before
      case SeatKeyboardLeave(x) => if env.client(x) == client then None else before
      case Unmapped(x) => Forget(env, before, x)
      case _ => before
  }

  lemma {:induction false} TrackIsLastWord(env: Env, client: nat, trace: seq<Event>)
    requires Track(env, client, None, trace).Some?
    ensures Track(env, client, None, trace) == Some(LastWord(env, client, trace))
    decreases |trace|
  {
    if trace != [] {
      var front, last := trace[..|trace| - 1], trace[|trace| - 1];
      assert trace == front + [last];
      TrackAppend(env, client, None, front, [last]);
      TrackIsLastWord(env, client, front);
      TrackOne(env, client, LastWord(env, client, front), last);
    }
  }

  /** Events that say nothing to a keyboard. */
  predicate Mute(e: Event) {
    match e
    case KeyboardEnter(_) => false
    case SeatKeyboardEnter(_) => false
    case SeatKeyboardLeave(_) => false
    case KeyboardModifiers(_, _) => false
    case KeyboardKey(_, _, _) => false
    case SeatKey(_, _, _) => false
    case Unmapped(_) => false
    case _ => true
  }

  lemma {:induction false} TrackMute(env: Env, client: nat, at: Option<Surface>, events: seq<Event>)
    requires forall e :: e in events ==> Mute(e)
    ensures Track(env, client, at, events) == Some(at)
    decreases |events|
  {
    if events != [] {
      assert events[0] in events;
      TrackMute(env, client, at, events[1..]);
    }
  }

  // Windows

  /** The focus and the windows of the list are not children of other surfaces. */
  ghost predicate Rooted(env: Env, s: State) {
    && WellFormed(s)
    && (s.focused.Some? ==> env.root(s.focused.value) == s.focused.value)
    && forall t :: t in s.toplevels ==> env.root(t.surface) == t.surface
  }

  predicate StepRooted(env: Env, step: Step) {
    match step
    case Map(t) => env.root(t.surface) == t.surface
    case RequestActivation(t) => env.root(t.surface) == t.surface
    case Unmap(_, refocused, _) => refocused.Some? ==> env.root(refocused.value) == refocused.value
    case _ => true
  }

  // When typing keeps the protocol

  /** The client is entered on the window if the compositor takes it so, and nowhere if not. */
  predicate TypingAllowed(env: Env, client: nat, at: Option<Surface>, s: State, t: Toplevel)
    requires WellFormed(s)
  {
    env.client(t.surface) == client ==>
      if TakenAsEntered(env, s, t) then RootOf(env, at) == Some(t.surface) else at == None
  }

  function TypingEnters(env: Env, client: nat, at: Option<Surface>, s: State, t: Toplevel): Option<Surface>
    requires WellFormed(s)
  {
    if env.client(t.surface) == client && !TakenAsEntered(env, s, t) then Some(t.surface) else at
  }

  lemma {:induction false} TrackSpeech(
      env: Env, client: nat, at: Option<Surface>, focused: Option<Surface>, t: Toplevel, events: seq<Event>)
    requires events != [] && forall e :: e in events ==> Speaks(env, focused, t.surface, e)
    requires env.root(t.surface) == t.surface
    requires focused.Some? ==> env.root(focused.value) == focused.value
    ensures Track(env, client, at, events) == Speaking(env, client, at, t.surface)
    decreases |events|
  {
    assert events[0] in events;
    assert Next(env, client, at, events[0]) == Speaking(env, client, at, t.surface);
    if |events| > 1 && Speaking(env, client, at, t.surface).Some? {
      TrackSpeech(env, client, at, focused, t, events[1..]);
    }
  }

  lemma TrackTyping(env: Env, client: nat, at: Option<Surface>, s: State, t: Toplevel, events: seq<Event>)
    requires Rooted(env, s) && env.root(t.surface) == t.surface && Speech(env, s, t, events)
    ensures Track(env, client, at, Greeting(env, s, t) + events)
            == if TypingAllowed(env, client, at, s, t) then Some(TypingEnters(env, client, at, s, t)) else None
  {
    TrackAppend(env, client, at, Greeting(env, s, t), events);
    TrackOne(env, client, at, KeyboardEnter(t.surface));
    TrackSpeech(env, client, at, s.focused, t, events);
    TrackSpeech(env, client, TypingEnters(env, client, at, s, t), s.focused, t, events);
  }

  // When a move of the focus keeps the protocol

  predicate Hears(env: Env, client: nat, surface: Option<Surface>) {
    surface.Some? && env.client(surface.value) == client && env.keyboards(surface.value)
  }

  /** The client that loses the focus was entered there, and the one that gets it is entered
      nowhere else. */
  predicate FocusAllowed(
      env: Env, client: nat, at: Option<Surface>, before: Option<Surface>, after: Option<Surface>)
  {
    before == after
    || ((Hears(env, client, before) ==> at == before)
        && (Hears(env, client, after) ==> Hears(env, client, before) || at == None))
  }

  function FocusEnters(
      env: Env, client: nat, at: Option<Surface>, before: Option<Surface>, after: Option<Surface>): Option<Surface>
  {
    if before == after then at
    else if Hears(env, client, after) then after
    else if Hears(env, client, before) then None
    else at
  }

  lemma TrackFocus(env: Env, client: nat, at: Option<Surface>, before: Option<Surface>, after: Option<Surface>)
    ensures Track(env, client, at, FocusEvents(env, before, after))
            == if FocusAllowed(env, client, at, before, after)
               then Some(FocusEnters(env, client, at, before, after)) else None
  {
    var leave, enter := SeatLeaveEvents(env, before), SeatEnterEvents(env, after);
    if before != after {
      TrackAppend(env, client, at, leave, enter);
      if leave != [] {
        TrackOne(env, client, at, SeatKeyboardLeave(before.value));
      }
      if enter != [] {
        TrackOne(env, client, at, SeatKeyboardEnter(after.value));
        TrackOne(env, client, None, SeatKeyboardEnter(after.value));
      }
    }
  }

  // Steps

  /** When a step keeps the protocol of a client that is entered at `at`. */
  ghost predicate Allowed(env: Env, client: nat, at: Option<Surface>, s: State, step: Step)
    requires WellFormed(s)
  {
    match step
    case Inject(command) =>
      Typing(command) && Resolve(env, s.toplevels, command.address).Ok? ==>
        var t := Resolve(env, s.toplevels, command.address).value;
        Types(env, command, t) ==> TypingAllowed(env, client, at, s, t)
    case Map(t) =>
      MayTakeFocus(env, s.(toplevels := [t] + s.toplevels), t) ==>
        FocusAllowed(env, client, at, s.focused, Some(t.surface))
    case Unmap(surface, refocused, _) =>
      refocused == s.focused
      || FocusAllowed(env, client, Forget(env, at, surface), Forget(env, s.focused, surface), refocused)
    case ActivatePid(pid) =>
      forall i: nat :: pid > 0 && OwnedOnly(s.toplevels, pid, i) ==>
        FocusAllowed(env, client, at, s.focused, Some(s.toplevels[i].surface))
    case RequestActivation(t) => FocusAllowed(env, client, at, s.focused, Some(t.surface))
  }

  /** From `s` to `after` the client keeps the protocol exactly if `allowed`, and is entered at
      `next` then. */
  ghost predicate Tells(
      env: Env, client: nat, s: State, after: State, allowed: bool, next: Option<Surface>)
  {
    && Rooted(env, after)
    && s.trace <= after.trace
    && Track(env, client, LastWord(env, client, s.trace), Added(s, after)) == if allowed then Some(next) else None
  }

  lemma CommandTells(env: Env, client: nat, s: State, command: Command) returns (next: Option<Surface>)
    requires Rooted(env, s)
    ensures var at := LastWord(env, client, s.trace);
            Tells(env, client, s, CommandStep(env, s, command).0, Allowed(env, client, at, s, Inject(command)), next)
  {
    var at, after := LastWord(env, client, s.trace), CommandStep(env, s, command).0;
    next := at;
    ApplyKeepsWellFormed(env, s, Inject(command));
    if Typing(command) && Resolve(env, s.toplevels, command.address).Ok? {
      var t := Resolve(env, s.toplevels, command.address).value;
      CommandTypes(env, s, command, t);
      if Types(env, command, t) {
        next := TypingEnters(env, client, at, s, t);
        TypingTells(env, client, s, command, t);
      } else {
        assert Added(s, after) == [];
      }
    } else {
      MuteCommand(env, s, command);
      TrackMute(env, client, at, Added(s, after));
    }
  }

  lemma TypingTells(env: Env, client: nat, s: State, command: Command, t: Toplevel)
    requires Rooted(env, s) && Typing(command) && Types(env, command, t)
    requires Resolve(env, s.toplevels, command.address) == Ok(t)
    ensures var at := LastWord(env, client, s.trace);
            Tells(env, client, s, CommandStep(env, s, command).0, TypingAllowed(env, client, at, s, t),
                  TypingEnters(env, client, at, s, t))
  {
    var at, after := LastWord(env, client, s.trace), CommandStep(env, s, command).0;
    CommandTypes(env, s, command, t);
    var events :| after.trace == s.trace + (Greeting(env, s, t) + events) && Speech(env, s, t, events);
    assert Added(s, after) == Greeting(env, s, t) + events;
    TrackTyping(env, client, at, s, t, events);
  }

  /** Commands that do not type, and those without a window, say nothing to keyboards. */
  lemma MuteCommand(env: Env, s: State, command: Command)
    requires WellFormed(s)
    requires !(Typing(command) && Resolve(env, s.toplevels, command.address).Ok?)
    ensures var after := CommandStep(env, s, command).0;
            && s.trace <= after.trace && after.focused == s.focused && after.toplevels == s.toplevels
            && forall e :: e in Added(s, after) ==> Mute(e)
  {
    if command.DesktopClick? {
      MuteDesktop(env, s, command.under, command.count, command.button);
    }
  }

  lemma MuteDesktop(env: Env, s: State, under: Option<(Toplevel, Hit)>, count: nat, button: nat)
    requires WellFormed(s)
    ensures var after := CommandStep(env, s, DesktopClick(under, count, button)).0;
            && s.trace <= after.trace && after.focused == s.focused && after.toplevels == s.toplevels
            && forall e :: e in Added(s, after) ==> Mute(e)
  {
    var (moved, target) := DesktopMotionStep(env, s, under);
    if target.Some? {
      var after := CommandStep(env, s, DesktopClick(under, count, button)).0;
      ClicksClick(env, moved, target.value, button, if count == 0 then 1 else count);
      assert Added(s, after) == Added(s, moved) + Added(moved, after);
    }
  }

  lemma FocusAdds(env: Env, s: State, t: Toplevel)
    requires !(env.skipsFocused && s.focused == Some(t.surface))
    ensures s.trace <= AnnounceStep(env, s, t).trace
    ensures Added(s, FocusStep(env, s, t)) == Added(s, AnnounceStep(env, s, t)) + FocusEvents(env, s.focused, Some(t.surface))
  {
    var announced := AnnounceStep(env, s, t);
    assert announced.trace == s.trace + Added(s, announced);
  }

  lemma FocusKeepsRooted(env: Env, s: State, t: Toplevel)
    requires Rooted(env, s) && env.root(t.surface) == t.surface
    ensures Rooted(env, FocusStep(env, s, t)) && s.trace <= FocusStep(env, s, t).trace
  {
  }

  lemma FocusTells(env: Env, client: nat, s: State, t: Toplevel)
    requires Rooted(env, s) && env.root(t.surface) == t.surface
    ensures var at := LastWord(env, client, s.trace);
            Tells(env, client, s, FocusStep(env, s, t), FocusAllowed(env, client, at, s.focused, Some(t.surface)),
                  FocusEnters(env, client, at, s.focused, Some(t.surface)))
  {
    var at := LastWord(env, client, s.trace);
    FocusKeepsRooted(env, s, t);
    TrackFocus(env, client, at, s.focused, Some(t.surface));
    FocusTracks(env, client, at, s, t);
  }

  lemma FocusTracks(env: Env, client: nat, at: Option<Surface>, s: State, t: Toplevel)
    ensures s.trace <= FocusStep(env, s, t).trace
    ensures Track(env, client, at, Added(s, FocusStep(env, s, t)))
            == Track(env, client, at, FocusEvents(env, s.focused, Some(t.surface)))
  {
    var events := FocusEvents(env, s.focused, Some(t.surface));
    if env.skipsFocused && s.focused == Some(t.surface) {
      assert Added(s, FocusStep(env, s, t)) == events;
    } else {
      var announced := Added(s, AnnounceStep(env, s, t));
      FocusAdds(env, s, t);
      TrackAppend(env, client, at, announced, events);
      TrackMute(env, client, at, announced);
    }
  }

  lemma UnmapTells(env: Env, client: nat, s: State, surface: Surface, refocused: Option<Surface>, cleared: bool)
    requires Rooted(env, s) && StepRooted(env, Unmap(surface, refocused, cleared))
    ensures var at := Forget(env, LastWord(env, client, s.trace), surface);
            var before := Forget(env, s.focused, surface);
            Tells(env, client, s, UnmapStep(env, s, surface, refocused, cleared),
                  refocused == s.focused || FocusAllowed(env, client, at, before, refocused),
                  if refocused == s.focused then at else FocusEnters(env, client, at, before, refocused))
  {
    var last, after := LastWord(env, client, s.trace), UnmapStep(env, s, surface, refocused, cleared);
    var events := UnmapEvents(env, s.focused, surface, refocused, cleared);
    assert Added(s, after) == [Unmapped(surface)] + events;
    TrackAppend(env, client, last, [Unmapped(surface)], events);
    TrackOne(env, client, last, Unmapped(surface));
    TrackUnmap(env, client, Forget(env, last, surface), s, surface, refocused, cleared);
    WithoutStays(s.toplevels, surface);
  }

  lemma TrackUnmap(env: Env, client: nat, at: Option<Surface>, s: State, surface: Surface,
                   refocused: Option<Surface>, cleared: bool)
    ensures var before := Forget(env, s.focused, surface);
            Track(env, client, at, UnmapEvents(env, s.focused, surface, refocused, cleared))
            == if refocused == s.focused then Some(at)
               else if FocusAllowed(env, client, at, before, refocused)
               then Some(FocusEnters(env, client, at, before, refocused))
               else None
  {
    var before := Forget(env, s.focused, surface);
    var moves := if refocused == s.focused then [] else FocusEvents(env, before, refocused);
    var ends := if cleared then [SeatPointerCleared] else [];
    TrackAppend(env, client, at, moves, ends);
    TrackFocus(env, client, at, before, refocused);
    TrackMute(env, client, at, ends);
    TrackMute(env, client, FocusEnters(env, client, at, before, refocused), ends);
  }

  lemma {:induction false} WithoutStays(toplevels: seq<Toplevel>, surface: Surface)
    ensures forall t :: t in Without(toplevels, surface) ==> t in toplevels
  {
    if toplevels != [] {
      WithoutStays(toplevels[1..], surface);
    }
  }

  lemma StepTells(env: Env, client: nat, s: State, step: Step) returns (next: Option<Surface>)
    requires Rooted(env, s) && StepRooted(env, step)
    ensures var at := LastWord(env, client, s.trace);
            Tells(env, client, s, Apply(env, s, step), Allowed(env, client, at, s, step), next)
  {
    var at, after := LastWord(env, client, s.trace), Apply(env, s, step);
    next := at;
    match step
    case Inject(command) => next := CommandTells(env, client, s, command);
    case Map(t) =>
      var listed := s.(toplevels := [t] + s.toplevels);
      if MayTakeFocus(env, listed, t) {
        FocusTells(env, client, listed, t);
        next := FocusEnters(env, client, at, s.focused, Some(t.surface));
      } else {
        assert Added(s, after) == [];
      }
    case Unmap(surface, refocused, cleared) =>
      UnmapTells(env, client, s, surface, refocused, cleared);
      next := Forget(env, at, surface);
      if refocused != s.focused {
        next := FocusEnters(env, client, next, Forget(env, s.focused, surface), refocused);
      }
    case ActivatePid(pid) =>
      if pid > 0 && exists i: nat :: OwnedOnly(s.toplevels, pid, i) {
        var i: nat :| OwnedOnly(s.toplevels, pid, i) && after == FocusStep(env, s, s.toplevels[i]);
        FocusTells(env, client, s, s.toplevels[i]);
        next := FocusEnters(env, client, at, s.focused, Some(s.toplevels[i].surface));
      } else {
        assert after == s && Added(s, after) == [];
      }
    case RequestActivation(t) =>
      FocusTells(env, client, s, t);
      next := FocusEnters(env, client, at, s.focused, Some(t.surface));
  }

  /** A step keeps the protocol of a client exactly if it was kept so far and the step is
      allowed: a typing command must find the client entered on the window just when the array
      or the focus says so, and nowhere else otherwise; a move of the focus must find the
      client entered where it leaves, and nowhere where it enters. */
  lemma StepKeepsProtocolExactly(env: Env, client: nat, s: State, step: Step)
    requires Rooted(env, s) && StepRooted(env, step)
    ensures Rooted(env, Apply(env, s, step))
    ensures Kept(env, client, Apply(env, s, step))
            <==> Kept(env, client, s) && Allowed(env, client, LastWord(env, client, s.trace), s, step)
  {
    var after := Apply(env, s, step);
    var next := StepTells(env, client, s, step);
    assert after.trace == s.trace + Added(s, after);
    TrackAppend(env, client, None, s.trace, Added(s, after));
    if Kept(env, client, s) {
      TrackIsLastWord(env, client, s.trace);
    }
  }

  // Runs

  ghost predicate AllAllowed(env: Env, client: nat, s: State, steps: seq<Step>)
    requires WellFormed(s)
    decreases |steps|
  {
    steps == []
    || (ApplyKeepsWellFormed(env, s, steps[0]);
        && Allowed(env, client, LastWord(env, client, s.trace), s, steps[0])
        && AllAllowed(env, client, Apply(env, s, steps[0]), steps[1..]))
  }

  /** A whole run keeps the protocol of a client exactly if each of its steps is allowed when
      it is taken. */
  lemma {:induction false} RunKeepsProtocolExactly(env: Env, client: nat, s: State, steps: seq<Step>)
    requires Rooted(env, s) && forall step :: step in steps ==> StepRooted(env, step)
    ensures Kept(env, client, Run(env, s, steps)) <==> Kept(env, client, s) && AllAllowed(env, client, s, steps)
    decreases |steps|
  {
    if steps != [] {
      assert steps[0] in steps;
      StepKeepsProtocolExactly(env, client, s, steps[0]);
      RunKeepsProtocolExactly(env, client, Apply(env, s, steps[0]), steps[1..]);
    }
  }

  // Typing into the foreground

  /** Each client is entered where the focus is, if that is its own, and nowhere otherwise. */
  ghost predicate Settled(env: Env, s: State) {
    && Rooted(env, s)
    && forall client ::
         && Kept(env, client, s)
         && LastWord(env, client, s.trace) == if Hears(env, client, s.focused) then s.focused else None
  }

  /** Typing goes to the window that has the focus; and a window that goes away does not keep
      it. */
  ghost predicate Foreground(env: Env, s: State, step: Step)
    requires WellFormed(s)
  {
    match step
    case Inject(command) =>
      Typing(command) && Resolve(env, s.toplevels, command.address).Ok? ==>
        RootOf(env, s.focused) == Some(Resolve(env, s.toplevels, command.address).value.surface)
    case Unmap(surface, refocused, _) => refocused == s.focused ==> RootOf(env, s.focused) != Some(surface)
    case _ => true
  }

  ghost predicate AllForeground(env: Env, s: State, steps: seq<Step>)
    requires WellFormed(s)
    decreases |steps|
  {
    steps == []
    || (ApplyKeepsWellFormed(env, s, steps[0]);
        && StepRooted(env, steps[0]) && Foreground(env, s, steps[0])
        && AllForeground(env, Apply(env, s, steps[0]), steps[1..]))
  }

  lemma ToldAfter(
      env: Env, client: nat, s: State, after: State, allowed: bool, next: Option<Surface>)
    requires Kept(env, client, s) && Tells(env, client, s, after, allowed, next)
    ensures Kept(env, client, after) <==> allowed
    ensures allowed ==> LastWord(env, client, after.trace) == next
  {
    assert after.trace == s.trace + Added(s, after);
    TrackAppend(env, client, None, s.trace, Added(s, after));
    TrackIsLastWord(env, client, s.trace);
    if allowed {
      TrackIsLastWord(env, client, after.trace);
    }
  }

  lemma FocusSettles(env: Env, s: State, t: Toplevel)
    requires Settled(env, s) && env.root(t.surface) == t.surface
    ensures Settled(env, FocusStep(env, s, t))
  {
    var after := FocusStep(env, s, t);
    FocusTells(env, 0, s, t);
    forall client
      ensures Kept(env, client, after)
      ensures LastWord(env, client, after.trace) == if Hears(env, client, after.focused) then after.focused else None
    {
      var at := LastWord(env, client, s.trace);
      FocusTells(env, client, s, t);
      ToldAfter(env, client, s, after, FocusAllowed(env, client, at, s.focused, Some(t.surface)),
                FocusEnters(env, client, at, s.focused, Some(t.surface)));
    }
  }

  lemma UnmapSettles(env: Env, s: State, surface: Surface, refocused: Option<Surface>, cleared: bool)
    requires Settled(env, s) && StepRooted(env, Unmap(surface, refocused, cleared))
    requires refocused == s.focused ==> RootOf(env, s.focused) != Some(surface)
    ensures Settled(env, UnmapStep(env, s, surface, refocused, cleared))
  {
    var after := UnmapStep(env, s, surface, refocused, cleared);
    UnmapTells(env, 0, s, surface, refocused, cleared);
    forall client
      ensures Kept(env, client, after)
      ensures LastWord(env, client, after.trace) == if Hears(env, client, refocused) then refocused else None
    {
      var at, before := Forget(env, LastWord(env, client, s.trace), surface), Forget(env, s.focused, surface);
      UnmapTells(env, client, s, surface, refocused, cleared);
      ToldAfter(env, client, s, after, refocused == s.focused || FocusAllowed(env, client, at, before, refocused),
                if refocused == s.focused then at else FocusEnters(env, client, at, before, refocused));
    }
  }

  lemma TypingSettles(env: Env, s: State, command: Command, t: Toplevel)
    requires Settled(env, s) && Typing(command) && Resolve(env, s.toplevels, command.address) == Ok(t)
    requires Types(env, command, t) && RootOf(env, s.focused) == Some(t.surface)
    ensures Settled(env, CommandStep(env, s, command).0)
  {
    var after := CommandStep(env, s, command).0;
    TypingTells(env, 0, s, command, t);
    CommandTypes(env, s, command, t);
    forall client
      ensures Kept(env, client, after)
      ensures LastWord(env, client, after.trace) == if Hears(env, client, after.focused) then after.focused else None
    {
      var at := LastWord(env, client, s.trace);
      TypingTells(env, client, s, command, t);
      ToldAfter(env, client, s, after, TypingAllowed(env, client, at, s, t), TypingEnters(env, client, at, s, t));
    }
  }

  lemma SilentSettles(env: Env, s: State, after: State)
    requires Settled(env, s) && Rooted(env, after) && after.focused == s.focused && s.trace <= after.trace
    requires forall e :: e in Added(s, after) ==> Mute(e)
    ensures Settled(env, after)
  {
    forall client
      ensures Kept(env, client, after)
      ensures LastWord(env, client, after.trace) == LastWord(env, client, s.trace)
    {
      var at := LastWord(env, client, s.trace);
      TrackMute(env, client, at, Added(s, after));
      ToldAfter(env, client, s, after, true, at);
    }
  }

  lemma CommandSettles(env: Env, s: State, command: Command)
    requires Settled(env, s) && Foreground(env, s, Inject(command))
    ensures Settled(env, CommandStep(env, s, command).0)
  {
    var after := CommandStep(env, s, command).0;
    ApplyKeepsWellFormed(env, s, Inject(command));
    if Typing(command) && Resolve(env, s.toplevels, command.address).Ok? {
      var t := Resolve(env, s.toplevels, command.address).value;
      if Types(env, command, t) {
        TypingSettles(env, s, command, t);
      } else {
        CommandTypes(env, s, command, t);
        assert after == s;
      }
    } else {
      MuteCommand(env, s, command);
      SilentSettles(env, s, after);
    }
  }

  lemma ForegroundStepSettles(env: Env, s: State, step: Step)
    requires Settled(env, s) && StepRooted(env, step) && Foreground(env, s, step)
    ensures Settled(env, Apply(env, s, step))
  {
    var after := Apply(env, s, step);
    match step
    case Inject(command) => CommandSettles(env, s, command);
    case Map(t) =>
      var listed := s.(toplevels := [t] + s.toplevels);
      SilentSettles(env, s, listed);
      FocusSettles(env, listed, t);
    case Unmap(surface, refocused, cleared) => UnmapSettles(env, s, surface, refocused, cleared);
    case ActivatePid(pid) =>
      if after != s {
        var i: nat :| OwnedOnly(s.toplevels, pid, i) && after == FocusStep(env, s, s.toplevels[i]);
        FocusSettles(env, s, s.toplevels[i]);
      }
    case RequestActivation(t) => FocusSettles(env, s, t);
  }

  /** A run that types only into the foreground keeps the protocol of every client. */
  lemma {:induction false} ForegroundTypingKeepsProtocol(env: Env, s: State, steps: seq<Step>)
    requires Settled(env, s) && AllForeground(env, s, steps)
    ensures Settled(env, Run(env, s, steps))
    decreases |steps|
  {
    if steps != [] {
      ForegroundStepSettles(env, s, steps[0]);
      ForegroundTypingKeepsProtocol(env, Apply(env, s, steps[0]), steps[1..]);
    }
  }

  lemma InitiallySettled(env: Env)
    ensures Settled(env, INITIAL)
  {
  }

  // Runs that break the protocol

  /** Every surface is a window with a keyboard, the client and the process of which have its
      number; processes have no parents, and every key has a name. */
  const DEMO := Env(s => s, s => s, _ => true, _ => true, _ => None, [], _ => 30, _ => 0, _ => true, false)

  function Window(n: nat): Toplevel {
    Toplevel(n, n, None)
  }

  function KeyFor(n: nat): Step {
    Inject(PressKey(ClientPid(Some(n)), "a"))
  }

  /** Windows of the demonstration, each listed once. */
  ghost predicate Demo(s: State) {
    && Rooted(DEMO, s)
    && (forall i :: 0 <= i < |s.toplevels| ==> s.toplevels[i] == Window(s.toplevels[i].surface))
    && (forall i, j :: 0 <= i < j < |s.toplevels| ==> s.toplevels[i] != s.toplevels[j])
  }

  lemma DemoResolves(s: State, n: nat)
    requires Demo(s) && 0 < n < PID_LIMIT && Window(n) in s.toplevels
    ensures Resolve(DEMO, s.toplevels, ClientPid(Some(n))) == Ok(Window(n))
  {
    var i: nat :| i < |s.toplevels| && s.toplevels[i] == Window(n);
    assert OnlyMatch(DEMO.parents, ClientPid(Some(n)), s.toplevels, i);
  }

  /** A key for a window: whether the protocol of a client is kept, and what comes of it. */
  lemma DemoKey(s: State, n: nat, client: nat)
    requires Demo(s) && 0 < n < PID_LIMIT && Window(n) in s.toplevels && Kept(DEMO, client, s)
    ensures var after := Apply(DEMO, s, KeyFor(n));
            var at := LastWord(DEMO, client, s.trace);
            && Demo(after) && after.toplevels == s.toplevels && after.focused == s.focused
            && after.keyboard[0] == Some(n)
            && (Kept(DEMO, client, after) <==> TypingAllowed(DEMO, client, at, s, Window(n)))
            && (Kept(DEMO, client, after) ==>
                  LastWord(DEMO, client, after.trace) == TypingEnters(DEMO, client, at, s, Window(n)))
  {
    var command := PressKey(ClientPid(Some(n)), "a");
    var at := LastWord(DEMO, client, s.trace);
    DemoResolves(s, n);
    CommandTypes(DEMO, s, command, Window(n));
    TypingTells(DEMO, client, s, command, Window(n));
    ToldAfter(DEMO, client, s, Apply(DEMO, s, KeyFor(n)), TypingAllowed(DEMO, client, at, s, Window(n)),
              TypingEnters(DEMO, client, at, s, Window(n)));
  }

  lemma DemoFocus(s: State, n: nat, client: nat)
    requires Demo(s) && Kept(DEMO, client, s)
    ensures var after := FocusStep(DEMO, s, Window(n));
            var at := LastWord(DEMO, client, s.trace);
            && Demo(after) && after.toplevels == s.toplevels && after.keyboard == s.keyboard
            && after.focused == Some(n)
            && (Kept(DEMO, client, after) <==> FocusAllowed(DEMO, client, at, s.focused, Some(n)))
            && (Kept(DEMO, client, after) ==>
                  LastWord(DEMO, client, after.trace) == FocusEnters(DEMO, client, at, s.focused, Some(n)))
  {
    var at := LastWord(DEMO, client, s.trace);
    FocusTells(DEMO, client, s, Window(n));
    ToldAfter(DEMO, client, s, FocusStep(DEMO, s, Window(n)), FocusAllowed(DEMO, client, at, s.focused, Some(n)),
              FocusEnters(DEMO, client, at, s.focused, Some(n)));
  }

  /** The first window that is mapped gets the focus. */
  lemma DemoFirst(n: nat, client: nat)
    ensures var after := Apply(DEMO, INITIAL, Map(Window(n)));
            && Demo(after) && after.toplevels == [Window(n)] && after.focused == Some(n)
            && after.keyboard[0] == None && Kept(DEMO, client, after)
            && LastWord(DEMO, client, after.trace) == if client == n then Some(n) else None
  {
    var listed := INITIAL.(toplevels := [Window(n)]);
    assert [Window(n)] + [] == [Window(n)];
    DemoFocus(listed, n, client);
  }

  lemma Strangers(a: nat, b: nat)
    requires a != b
    ensures !InFamily(DEMO.parents, a, b)
  {
    forall k | 0 <= k <= MAX_DEPTH ensures Ancestor(DEMO.parents, a, k) != Some(b) {
      assert Ancestor(DEMO.parents, a, 1) == None by {
        assert Ancestor(DEMO.parents, a, 0) == Some(a);
      }
      if k > 1 {
        NoAncestorsBeyond(DEMO.parents, a, 0, k);
      }
    }
  }

  /** Another window that is mapped does not get the focus from it. */
  lemma DemoNext(s: State, n: nat)
    requires Demo(s) && s.focused.Some? && Window(s.focused.value) in s.toplevels && Window(n) !in s.toplevels
    ensures var after := Apply(DEMO, s, Map(Window(n)));
            after == s.(toplevels := [Window(n)] + s.toplevels) && Demo(after)
  {
    var listed := s.(toplevels := [Window(n)] + s.toplevels);
    OwnerIs(listed.toplevels, s.focused.value);
    Strangers(n, s.focused.value);
    Strangers(s.focused.value, n);
    assert !MayTakeFocus(DEMO, listed, Window(n));
  }

  lemma {:induction false} OwnerIs(toplevels: seq<Toplevel>, n: nat)
    requires forall t :: t in toplevels ==> t == Window(t.surface)
    requires Window(n) in toplevels
    ensures FirstWith(toplevels, Some(n)) == Some(Window(n))
  {
    if toplevels[0].surface != n {
      OwnerIs(toplevels[1..], n);
    }
  }

  /** The run `steps` of the demonstration is at `s`, where `client` was last entered at `at`. */
  ghost predicate At(client: nat, steps: seq<Step>, s: State, at: Option<Surface>) {
    s == Run(DEMO, INITIAL, steps) && Demo(s) && Kept(DEMO, client, s) && LastWord(DEMO, client, s.trace) == at
  }

  lemma FirstAt(n: nat, client: nat) returns (s: State)
    ensures At(client, [Map(Window(n))], s, if client == n then Some(n) else None)
    ensures s.toplevels == [Window(n)] && s.focused == Some(n) && s.keyboard[0] == None
  {
    s := Apply(DEMO, INITIAL, Map(Window(n)));
    RunOne(DEMO, INITIAL, [], Map(Window(n)));
    DemoFirst(n, client);
    assert [] + [Map(Window(n))] == [Map(Window(n))];
  }

  lemma MapAt(client: nat, steps: seq<Step>, s: State, at: Option<Surface>, n: nat) returns (after: State)
    requires At(client, steps, s, at)
    requires s.focused.Some? && Window(s.focused.value) in s.toplevels && Window(n) !in s.toplevels
    ensures At(client, steps + [Map(Window(n))], after, at)
    ensures after.toplevels == [Window(n)] + s.toplevels
    ensures after.focused == s.focused && after.keyboard == s.keyboard
  {
    after := Apply(DEMO, s, Map(Window(n)));
    RunOne(DEMO, INITIAL, steps, Map(Window(n)));
    DemoNext(s, n);
  }

  lemma KeyAt(client: nat, steps: seq<Step>, s: State, at: Option<Surface>, n: nat) returns (after: State)
    requires At(client, steps, s, at)
    requires 0 < n < PID_LIMIT && Window(n) in s.toplevels
    ensures after == Run(DEMO, INITIAL, steps + [KeyFor(n)])
    ensures after.toplevels == s.toplevels && after.focused == s.focused
    ensures WellFormed(after) && after.keyboard[0] == Some(n)
    ensures if TypingAllowed(DEMO, client, at, s, Window(n))
            then At(client, steps + [KeyFor(n)], after, TypingEnters(DEMO, client, at, s, Window(n)))
            else !Kept(DEMO, client, after)
  {
    after := Apply(DEMO, s, KeyFor(n));
    RunOne(DEMO, INITIAL, steps, KeyFor(n));
    DemoKey(s, n, client);
  }

  lemma FocusAt(client: nat, steps: seq<Step>, s: State, at: Option<Surface>, n: nat) returns (after: State)
    requires At(client, steps, s, at)
    ensures after == Run(DEMO, INITIAL, steps + [RequestActivation(Window(n))])
    ensures after.toplevels == s.toplevels && after.focused == Some(n) && after.keyboard == s.keyboard
    ensures if FocusAllowed(DEMO, client, at, s.focused, Some(n))
            then At(client, steps + [RequestActivation(Window(n))], after,
                    FocusEnters(DEMO, client, at, s.focused, Some(n)))
            else !Kept(DEMO, client, after)
  {
    after := Apply(DEMO, s, RequestActivation(Window(n)));
    RunOne(DEMO, INITIAL, steps, RequestActivation(Window(n)));
    DemoFocus(s, n, client);
  }

  /** Two windows are mapped behind a third. */
  lemma BehindAt(front: nat, a: nat, b: nat) returns (s: State)
    requires front != a && a != b && front != b
    ensures At(a, [Map(Window(front))] + [Map(Window(a))] + [Map(Window(b))], s, None)
    ensures s.toplevels == [Window(b), Window(a), Window(front)]
    ensures s.focused == Some(front) && s.keyboard[0] == None
  {
    var first, second := [Map(Window(front))], [Map(Window(front))] + [Map(Window(a))];
    s := FirstAt(front, a);
    s := MapAt(a, first, s, None, a);
    s := MapAt(a, second, s, None, b);
  }

  /** Windows 1 and 2 are mapped behind window 3, and get a key each, and window 1 another: no
      leave is sent, so it is entered twice. */
  lemma EnteredTwiceCounterexample()
    ensures var steps := [Map(Window(3))] + [Map(Window(1))] + [Map(Window(2))] + [KeyFor(1)] + [KeyFor(2)];
            Kept(DEMO, 1, Run(DEMO, INITIAL, steps)) && !Kept(DEMO, 1, Run(DEMO, INITIAL, steps + [KeyFor(1)]))
  {
    var c := [Map(Window(3))] + [Map(Window(1))] + [Map(Window(2))];
    var d := c + [KeyFor(1)];
    var s := BehindAt(3, 1, 2);
    s := KeyAt(1, c, s, None, 1);
    s := KeyAt(1, d, s, Some(1), 2);
    s := KeyAt(1, d + [KeyFor(2)], s, Some(1), 1);
  }

  /** Window 1 gets a key while it has the focus, and one after the focus went to window 2: the
      seat has left it, and it is not entered again. */
  lemma KeyAfterLeaveCounterexample()
    ensures var steps := [Map(Window(1))] + [Map(Window(2))] + [KeyFor(1)] + [RequestActivation(Window(2))];
            Kept(DEMO, 1, Run(DEMO, INITIAL, steps)) && !Kept(DEMO, 1, Run(DEMO, INITIAL, steps + [KeyFor(1)]))
  {
    var a := [Map(Window(1))];
    var b := a + [Map(Window(2))];
    var c := b + [KeyFor(1)];
    var s := FirstAt(1, 1);
    s := MapAt(1, a, s, Some(1), 2);
    s := KeyAt(1, b, s, Some(1), 1);
    s := FocusAt(1, c, s, Some(1), 2);
    s := KeyAt(1, c + [RequestActivation(Window(2))], s, None, 1);
  }

  /** Window 1 gets a key behind window 2 and is activated then: the seat enters it although it
      is entered already. */
  lemma ActivatedAfterKeyCounterexample()
    ensures var steps := [Map(Window(2))] + [Map(Window(1))] + [KeyFor(1)];
            && Kept(DEMO, 1, Run(DEMO, INITIAL, steps))
            && !Kept(DEMO, 1, Run(DEMO, INITIAL, steps + [RequestActivation(Window(1))]))
  {
    var a := [Map(Window(2))];
    var b := a + [Map(Window(1))];
    var s := FirstAt(2, 1);
    s := MapAt(1, a, s, None, 1);
    s := KeyAt(1, b, s, None, 1);
    s := FocusAt(1, b + [KeyFor(1)], s, Some(1), 1);
  }
}
