/** What the events of each logical pointer look like to the clients, over whole runs. */
module PointerDiscipline {
  import opened Wrappers
  import opened Targets
  import opened Injection
  import opened StepEffects

  // The protocol of one device, as its clients see it

  /** Where a device that follows the protocol is after `e`; `None` if `e` breaks it. A
      surface must be entered before it sees motion and left before another is entered;
      buttons and scrolling go to the entered surface, if there is one; a surface whose
      window goes away is left without an event. */
  function Next(env: Env, idx: nat, at: Option<Surface>, e: Event): Option<Option<Surface>> {
    match e
    case PointerEnter(device, surface, _, _) =>
      if device != idx then Some(at) else if at == None then Some(Some(surface)) else None
    case PointerLeave(device, surface) =>
      if device != idx then Some(at) else if at == Some(surface) then Some(None) else None
    case PointerMotion(device, surface, _, _) =>
      if device != idx || at == Some(surface) then Some(at) else None
    case PointerButton(device, surface, _, _) =>
      if device != idx || at == None || at == Some(surface) then Some(at) else None
    case PointerAxis(device, surface, _, _) =>
      if device != idx || at == None || at == Some(surface) then Some(at) else None
    case Unmapped(surface) =>
      Some(Forget(env, at, surface))
    case _ =>
      Some(at)
  }

  function Track(env: Env, idx: nat, at: Option<Surface>, events: seq<Event>): Option<Option<Surface>>
    decreases |events|
  {
    if events == [] then Some(at)
    else
      match Next(env, idx, at, events[0])
      case None => None
      case Some(next) => Track(env, idx, next, events[1..])
  }

  lemma {:induction false} TrackAppend(env: Env, idx: nat, at: Option<Surface>, a: seq<Event>, b: seq<Event>)
    ensures Track(env, idx, at, a + b) ==
              match Track(env, idx, at, a)
              case None => None
              case Some(after) => Track(env, idx, after, b)
    decreases |a|
  {
    if a == [] {
      assert a + b == b;
    } else {
      assert (a + b)[1..] == a[1..] + b;
      match Next(env, idx, at, a[0])
      case None =>
      case Some(next) => TrackAppend(env, idx, next, a[1..], b);
    }
  }

  /** The events so far follow the protocol on every direct device, and the array says where
      each of them is. */
  ghost predicate Disciplined(env: Env, s: State) {
    && WellFormed(s)
    && forall idx :: 1 <= idx < MAX_DEVICES ==>
         && Track(env, idx, None, s.trace) == Some(s.pointer[idx])
         && (s.pointer[idx].Some? ==> env.pointers(s.pointer[idx].value))
  }

  // Events that mean nothing to the direct devices

  predicate Quiet(e: Event) {
    !(e.PointerEnter? || e.PointerLeave? || e.PointerMotion? || e.PointerButton? || e.PointerAxis? || e.Unmapped?)
  }

  lemma {:induction false} TrackQuiet(env: Env, idx: nat, at: Option<Surface>, events: seq<Event>)
    requires forall e :: e in events ==> Quiet(e)
    ensures Track(env, idx, at, events) == Some(at)
  {
    if events != [] {
      assert events[0] in events;
      TrackQuiet(env, idx, at, events[1..]);
    }
  }

  /** The step sent only quiet events, and no direct device moved. */
  ghost predicate QuietStep(s: State, t: State) {
    && |t.pointer| == |s.pointer|
    && (forall idx :: 1 <= idx < |s.pointer| ==> t.pointer[idx] == s.pointer[idx])
    && s.trace <= t.trace
    && forall e :: e in t.trace[|s.trace|..] ==> Quiet(e)
  }

  lemma QuietTransitive(s: State, t: State, u: State)
    requires QuietStep(s, t) && QuietStep(t, u)
    ensures QuietStep(s, u)
  {
    assert u.trace[|s.trace|..] == t.trace[|s.trace|..] + u.trace[|t.trace|..];
  }

  lemma QuietKeepsDiscipline(env: Env, s: State, t: State)
    requires Disciplined(env, s) && QuietStep(s, t) && WellFormed(t)
    ensures Disciplined(env, t)
  {
    var added := t.trace[|s.trace|..];
    assert t.trace == s.trace + added;
    forall idx | 1 <= idx < MAX_DEVICES ensures Track(env, idx, None, t.trace) == Some(t.pointer[idx]) {
      TrackAppend(env, idx, None, s.trace, added);
      TrackQuiet(env, idx, s.pointer[idx], added);
    }
  }

  lemma EmitQuiet(s: State, t: State, events: seq<Event>)
    requires WellFormed(s) && WellFormed(t)
    requires forall idx :: 1 <= idx < MAX_DEVICES ==> t.pointer[idx] == s.pointer[idx]
    requires t.trace == s.trace + events && forall e :: e in events ==> Quiet(e)
    ensures QuietStep(s, t)
  {
    assert t.trace[|s.trace|..] == events;
  }

  lemma ClicksAreQuiet(env: Env, s: State, t: Toplevel, button: nat, count: nat)
    requires WellFormed(s)
    ensures QuietStep(s, ClickSteps(env, s, t, button, count).0)
  {
    ClicksClick(env, s, t, button, count);
    var after := ClickSteps(env, s, t, button, count).0;
    EmitQuiet(s, after, Added(s, after));
  }

  lemma TypingIsQuiet(env: Env, s: State, command: Command, t: Toplevel)
    requires WellFormed(s) && Typing(command)
    ensures QuietStep(s, TargetedStep(env, s, command, t).0)
    ensures WellFormed(TargetedStep(env, s, command, t).0)
  {
    CommandTypes(env, s, command, t);
    var after := TargetedStep(env, s, command, t).0;
    if Types(env, command, t) {
      var events :| after.trace == s.trace + (Greeting(env, s, t) + events) && Speech(env, s, t, events);
      EmitQuiet(s, after, Greeting(env, s, t) + events);
    } else {
      EmitQuiet(s, after, []);
    }
  }

  lemma FocusIsQuiet(env: Env, s: State, t: Toplevel)
    requires WellFormed(s)
    ensures QuietStep(s, FocusStep(env, s, t))
  {
    var announced, focused := AnnounceStep(env, s, t), FocusStep(env, s, t);
    EmitQuiet(s, announced, Added(s, announced));
    if focused == s {
      EmitQuiet(s, s, []);
    } else {
      EmitQuiet(announced, focused, FocusEvents(env, s.focused, Some(t.surface)));
      QuietTransitive(s, announced, focused);
    }
  }

  // The steps that move devices

  lemma MotionKeepsDiscipline(env: Env, s: State, t: Toplevel, idx: int, hit: Option<Hit>, x: real, y: real)
    requires Disciplined(env, s)
    ensures Disciplined(env, MotionStep(env, s, t, idx, hit, x, y).0)
  {
    var after := MotionStep(env, s, t, idx, hit, x, y).0;
    if MotionStep(env, s, t, idx, hit, x, y).1 {
      var h := MotionTarget(env, t, hit, x, y).value;
      if idx == 0 {
        EmitQuiet(s, after, [SeatEnter(h.surface, h.x, h.y), SeatMotion(h.x, h.y), SeatFrame]);
        QuietKeepsDiscipline(env, s, after);
      } else {
        var events := EnterEvents(env, idx, s.pointer[idx], h) + [PointerMotion(idx, h.surface, h.x, h.y)];
        forall j | 1 <= j < MAX_DEVICES ensures Track(env, j, None, after.trace) == Some(after.pointer[j]) {
          TrackAppend(env, j, None, s.trace, events);
          TrackMotion(env, j, s.pointer[j], idx, s.pointer[idx], h);
        }
      }
    }
  }

  /** A motion seen by device `j`, which is at `at`. */
  lemma TrackMotion(env: Env, j: nat, at: Option<Surface>, idx: nat, entered: Option<Surface>, h: Hit)
    requires j == idx ==> at == entered
    requires entered.Some? ==> env.pointers(entered.value)
    ensures Track(env, j, at, EnterEvents(env, idx, entered, h) + [PointerMotion(idx, h.surface, h.x, h.y)])
            == Some(if j == idx then Some(h.surface) else at)
  {
    var motion := PointerMotion(idx, h.surface, h.x, h.y);
    var events := EnterEvents(env, idx, entered, h);
    TrackAppend(env, j, at, events, [motion]);
    TrackOne(env, j, if j == idx then Some(h.surface) else at, motion);
    if entered == None {
      assert events == [PointerEnter(idx, h.surface, h.x, h.y)];
      TrackOne(env, j, at, PointerEnter(idx, h.surface, h.x, h.y));
    } else if entered != Some(h.surface) {
      var leave, enter := PointerLeave(idx, entered.value), PointerEnter(idx, h.surface, h.x, h.y);
      assert events == [leave] + [enter];
      TrackAppend(env, j, at, [leave], [enter]);
      TrackOne(env, j, at, leave);
      TrackOne(env, j, if j == idx then None else at, enter);
    }
  }

  lemma TrackOne(env: Env, j: nat, at: Option<Surface>, e: Event)
    ensures Track(env, j, at, [e]) == Next(env, j, at, e)
  {
    assert [e][1..] == [];
  }

  lemma ButtonKeepsDiscipline(env: Env, s: State, t: Toplevel, idx: int, button: nat, pressed: bool)
    requires Disciplined(env, s)
    ensures Disciplined(env, ButtonStep(env, s, t, idx, button, pressed).0)
  {
    var after := ButtonStep(env, s, t, idx, button, pressed).0;
    if ButtonStep(env, s, t, idx, button, pressed).1 {
      if idx == 0 {
        EmitQuiet(s, after, [SeatButton(button, pressed), SeatFrame]);
        QuietKeepsDiscipline(env, s, after);
      } else {
        forall j | 1 <= j < MAX_DEVICES ensures Track(env, j, None, after.trace) == Some(after.pointer[j]) {
          TrackAppend(env, j, None, s.trace, [PointerButton(idx, ButtonTarget(s, t, idx), button, pressed)]);
        }
      }
    }
  }

  lemma AxisKeepsDiscipline(env: Env, s: State, t: Toplevel, idx: int, axis: nat, amount: real)
    requires Disciplined(env, s)
    ensures Disciplined(env, AxisStep(env, s, t, idx, axis, amount).0)
  {
    var after := AxisStep(env, s, t, idx, axis, amount).0;
    if AxisStep(env, s, t, idx, axis, amount).1 {
      forall j | 1 <= j < MAX_DEVICES ensures Track(env, j, None, after.trace) == Some(after.pointer[j]) {
        TrackAppend(env, j, None, s.trace, [PointerAxis(idx, ButtonTarget(s, t, idx), axis, amount)]);
      }
    }
  }

  lemma UnmapKeepsDiscipline(env: Env, s: State, surface: Surface, refocused: Option<Surface>, cleared: bool)
    requires Disciplined(env, s)
    ensures Disciplined(env, UnmapStep(env, s, surface, refocused, cleared))
  {
    forall j | 1 <= j < MAX_DEVICES
      ensures Track(env, j, None, UnmapStep(env, s, surface, refocused, cleared).trace)
              == Some(Forget(env, s.pointer[j], surface))
    {
      var events := UnmapEvents(env, s.focused, surface, refocused, cleared);
      TrackAppend(env, j, None, s.trace, [Unmapped(surface)] + events);
      TrackAppend(env, j, s.pointer[j], [Unmapped(surface)], events);
      TrackOne(env, j, s.pointer[j], Unmapped(surface));
      TrackQuiet(env, j, Forget(env, s.pointer[j], surface), events);
    }
  }

  lemma DesktopKeepsDiscipline(env: Env, s: State, under: Option<(Toplevel, Hit)>, button: nat, count: nat)
    requires Disciplined(env, s)
    ensures Disciplined(env, CommandStep(env, s, DesktopClick(under, count, button)).0)
  {
    var (moved, target) := DesktopMotionStep(env, s, under);
    if target.Some? {
      var h := under.value.1;
      EmitQuiet(s, moved, [SeatEnter(h.surface, h.x, h.y), SeatMotion(h.x, h.y), SeatFrame]);
      var presses := if count == 0 then 1 else count;
      ClicksAreQuiet(env, moved, target.value, button, presses);
      QuietTransitive(s, moved, ClickSteps(env, moved, target.value, button, presses).0);
      QuietKeepsDiscipline(env, s, ClickSteps(env, moved, target.value, button, presses).0);
    }
  }

  lemma TargetedKeepsDiscipline(env: Env, s: State, command: Command, t: Toplevel)
    requires Disciplined(env, s) && Targeted(command)
    ensures Disciplined(env, TargetedStep(env, s, command, t).0)
  {
    if Typing(command) {
      TypingIsQuiet(env, s, command, t);
      QuietKeepsDiscipline(env, s, TargetedStep(env, s, command, t).0);
    } else {
      match command
      case MoveTo(_, idx, x, y, hits) => MotionKeepsDiscipline(env, s, t, idx, hits(t), x, y);
      case PressButton(_, idx, button, pressed) => ButtonKeepsDiscipline(env, s, t, idx, button, pressed);
      case Scroll(_, idx, axis, amount) => AxisKeepsDiscipline(env, s, t, idx, axis, amount);
    }
  }

  lemma StepKeepsDiscipline(env: Env, s: State, step: Step)
    requires Disciplined(env, s)
    ensures Disciplined(env, Apply(env, s, step))
  {
    match step
    case Inject(command) =>
      match command {
        case DesktopClick(under, count, button) => DesktopKeepsDiscipline(env, s, under, button, count);
        case EmptyLine =>
        case BadArguments =>
        case OtherCommand =>
        case _ =>
          match Resolve(env, s.toplevels, command.address) {
            case Ok(t) => TargetedKeepsDiscipline(env, s, command, t);
            case Err(_) =>
          }
      }
    case Map(t) =>
      var listed := s.(toplevels := [t] + s.toplevels);
      FocusIsQuiet(env, listed, t);
      EmitQuiet(s, listed, []);
      QuietTransitive(s, listed, FocusStep(env, listed, t));
      QuietKeepsDiscipline(env, s, MapStep(env, s, t));
    case Unmap(surface, refocused, cleared) => UnmapKeepsDiscipline(env, s, surface, refocused, cleared);
    case ActivatePid(pid) =>
      var after := ActivateStep(env, s, pid).0;
      if after != s {
        var i: nat :| OwnedOnly(s.toplevels, pid, i) && after == FocusStep(env, s, s.toplevels[i]);
        FocusIsQuiet(env, s, s.toplevels[i]);
        QuietKeepsDiscipline(env, s, after);
      }
    case RequestActivation(t) =>
      FocusIsQuiet(env, s, t);
      QuietKeepsDiscipline(env, s, FocusStep(env, s, t));
  }

  /** In every run each direct device enters before it moves, leaves before it enters
      elsewhere, and is where the compositor's array says it is. */
  lemma {:induction false} PointerDiscipline(env: Env, s: State, steps: seq<Step>)
    requires Disciplined(env, s)
    ensures Disciplined(env, Run(env, s, steps))
    decreases |steps|
  {
    if steps != [] {
      StepKeepsDiscipline(env, s, steps[0]);
      PointerDiscipline(env, Apply(env, s, steps[0]), steps[1..]);
    }
  }

  /** A click of a direct device goes to the surface that its clients know it to have entered
      exactly if it is on one; a device that is nowhere clicks on a surface it has not
      entered. */
  lemma ClickFollowsEnterExactly(env: Env, s: State, t: Toplevel, idx: nat, button: nat, pressed: bool)
    requires Disciplined(env, s) && 0 < idx < MAX_DEVICES
    requires ButtonStep(env, s, t, idx, button, pressed).1
    ensures exists surface: Surface ::
              && ButtonStep(env, s, t, idx, button, pressed).0
                 == Emit(s, [PointerButton(idx, surface, button, pressed)])
              && (Track(env, idx, None, s.trace) == Some(Some(surface)) <==> s.pointer[idx] != None)
  {
    var surface := ButtonTarget(s, t, idx);
    assert ButtonStep(env, s, t, idx, button, pressed).0
           == Emit(s, [PointerButton(idx, surface, button, pressed)]);
  }

  lemma InitiallyDisciplined(env: Env)
    ensures Disciplined(env, INITIAL)
  {
  }
}
