/** Who may move the keyboard focus, and how often a window is told that it is active. */
module FocusSafety {
  import opened Wrappers
  import opened Targets
  import opened Injection
  import opened PointerTargets

  /** A device that the command does not drive. */
  function Bystander(command: Command): nat {
    if DeviceOf(command) == Some(1) then 2 else 1
  }

  /** No injected command changes the keyboard focus, the windows, or their activation. */
  lemma InjectionKeepsFocus(env: Env, s: State, command: Command)
    requires WellFormed(s)
    ensures SameWindows(s, CommandStep(env, s, command).0)
  {
    DevicesAreIndependent(env, s, command, Bystander(command));
  }

  lemma {:induction false} FirstWithOwns(toplevels: seq<Toplevel>, surface: Option<Surface>)
    ensures FirstWith(toplevels, surface).Some? ==>
              FirstWith(toplevels, surface).value in toplevels
              && Some(FirstWith(toplevels, surface).value.surface) == surface
    ensures FirstWith(toplevels, surface) == None ==>
              forall t :: t in toplevels ==> Some(t.surface) != surface
  {
    if toplevels != [] {
      FirstWithOwns(toplevels[1..], surface);
      assert toplevels == [toplevels[0]] + toplevels[1..];
    }
  }

  /** Some window that has the focus belongs to the process family of `t`. */
  ghost predicate FamilyHasFocus(env: Env, s: State, t: Toplevel) {
    exists u :: u in s.toplevels && Some(u.surface) == RootOf(env, s.focused) && Related(env, t, u)
  }

  /** Windows have surfaces of their own. */
  predicate DistinctSurfaces(toplevels: seq<Toplevel>) {
    forall i, j :: 0 <= i < j < |toplevels| ==> toplevels[i].surface != toplevels[j].surface
  }

  /** Mapping a window gives it the focus exactly if nobody has it or its family does, and
      otherwise leaves the focus alone. */
  lemma MappingMovesFocusExactly(env: Env, s: State, t: Toplevel)
    requires DistinctSurfaces([t] + s.toplevels)
    ensures var listed := s.(toplevels := [t] + s.toplevels);
            MapStep(env, s, t).focused ==
              if s.focused == None || FamilyHasFocus(env, listed, t) then Some(t.surface) else s.focused
  {
    var listed := s.(toplevels := [t] + s.toplevels);
    FirstWithOwns(listed.toplevels, RootOf(env, s.focused));
    if FamilyHasFocus(env, listed, t) {
      var u :| u in listed.toplevels && Some(u.surface) == RootOf(env, s.focused) && Related(env, t, u);
      SameWindow(listed.toplevels, FocusOwner(env, listed).value, u);
    }
  }

  lemma SameWindow(toplevels: seq<Toplevel>, a: Toplevel, b: Toplevel)
    requires DistinctSurfaces(toplevels) && a in toplevels && b in toplevels && a.surface == b.surface
    ensures a == b
  {
    var i :| 0 <= i < |toplevels| && toplevels[i] == a;
    var j :| 0 <= j < |toplevels| && toplevels[j] == b;
    assert i == j;
  }

  // Activation

  /** A window was told that it is active exactly if it is marked so, and told once. */
  ghost predicate ActivatedOnce(s: State) {
    && (forall i, j :: 0 <= i < j < |s.trace| && s.trace[i].Activated? ==> s.trace[i] != s.trace[j])
    && (forall surface :: Activated(surface) in s.trace <==> surface in s.activated)
  }

  lemma ExtendActivated(s: State, t: State, added: seq<Event>)
    requires ActivatedOnce(s) && t.trace == s.trace + added && t.activated == s.activated
    requires forall e :: e in added ==> !e.Activated?
    ensures ActivatedOnce(t)
  {
    assert forall e :: e in t.trace <==> e in s.trace || e in added;
    assert forall k :: |s.trace| <= k < |t.trace| ==> t.trace[k] == added[k - |s.trace|] && !t.trace[k].Activated?;
  }

  lemma FocusKeepsActivatedOnce(env: Env, s: State, t: Toplevel)
    requires ActivatedOnce(s)
    ensures ActivatedOnce(FocusStep(env, s, t))
  {
    if !(env.skipsFocused && s.focused == Some(t.surface)) {
      AnnounceKeepsActivatedOnce(env, s, t);
      ExtendActivated(AnnounceStep(env, s, t), FocusStep(env, s, t), FocusEvents(env, s.focused, Some(t.surface)));
    }
  }

  lemma AnnounceKeepsActivatedOnce(env: Env, s: State, t: Toplevel)
    requires ActivatedOnce(s)
    ensures ActivatedOnce(AnnounceStep(env, s, t)) && Activated(t.surface) in AnnounceStep(env, s, t).trace
  {
    if t.surface !in s.activated {
      var previous := if s.focused.Some? && env.isToplevel(s.focused.value)
                      then [Deactivated(s.focused.value)] else [];
      var told := Emit(s, previous);
      ExtendActivated(s, told, previous);
      assert s.trace + (previous + [Activated(t.surface)]) == told.trace + [Activated(t.surface)];
      assert Activated(t.surface) !in told.trace;
      var after := AnnounceStep(env, s, t);
      assert forall e :: e in after.trace <==> e in told.trace || e == Activated(t.surface);
    }
  }

  /** Focusing a window gives it the focus and sees to it that it was told it is active. */
  lemma FocusingActivates(env: Env, s: State, t: Toplevel)
    requires ActivatedOnce(s)
    ensures FocusStep(env, s, t).focused == Some(t.surface)
    ensures !(env.skipsFocused && s.focused == Some(t.surface)) ==> Activated(t.surface) in FocusStep(env, s, t).trace
  {
    AnnounceKeepsActivatedOnce(env, s, t);
  }

  lemma StepKeepsActivatedOnce(env: Env, s: State, step: Step)
    requires WellFormed(s) && ActivatedOnce(s)
    ensures ActivatedOnce(Apply(env, s, step))
  {
    match step
    case Inject(command) =>
      var after := CommandStep(env, s, command).0;
      DevicesAreIndependent(env, s, command, Bystander(command));
      ExtendActivated(s, after, after.trace[|s.trace|..]);
    case Map(t) =>
      FocusKeepsActivatedOnce(env, s.(toplevels := [t] + s.toplevels), t);
    case Unmap(surface, refocused, cleared) =>
      ExtendActivated(s, Apply(env, s, step),
                      [Unmapped(surface)] + UnmapEvents(env, s.focused, surface, refocused, cleared));
    case ActivatePid(pid) =>
      var after := ActivateStep(env, s, pid).0;
      if after != s {
        var i: nat :| OwnedOnly(s.toplevels, pid, i) && after == FocusStep(env, s, s.toplevels[i]);
        FocusKeepsActivatedOnce(env, s, s.toplevels[i]);
      }
    case RequestActivation(t) => FocusKeepsActivatedOnce(env, s, t);
  }

  /** In every run each window is told at most once that it is active, and those that were
      told are the ones marked so. */
  lemma {:induction false} ActivationsHappenOnce(env: Env, s: State, steps: seq<Step>)
    requires WellFormed(s) && ActivatedOnce(s)
    ensures ActivatedOnce(Run(env, s, steps))
    decreases |steps|
  {
    if steps != [] {
      StepKeepsActivatedOnce(env, s, steps[0]);
      ActivationsHappenOnce(env, Apply(env, s, steps[0]), steps[1..]);
    }
  }

  // Whole runs

  /** A step that may move the focus: asked for, by a process id that names one window or by
      the window's own handle; a window of the focused family or of an unfocused seat being
      mapped; or a window going away. */
  ghost predicate MayMoveFocus(env: Env, s: State, step: Step) {
    match step
    case Inject(_) => false
    case Map(t) => s.focused == None || FamilyHasFocus(env, s.(toplevels := [t] + s.toplevels), t)
    case Unmap(_, _, _) => true
    case ActivatePid(pid) => pid > 0 && exists i :: OwnedOnly(s.toplevels, pid, i)
    case RequestActivation(_) => true
  }

  /** In every run of steps that may not move the focus, it stays where it was: background
      work never steals it. */
  lemma {:induction false} FocusIsNotStolen(env: Env, s: State, steps: seq<Step>)
    requires WellFormed(s)
    requires NoneMayMoveFocus(env, s, steps)
    ensures Run(env, s, steps).focused == s.focused
    decreases |steps|
  {
    if steps != [] {
      ApplyKeepsWellFormed(env, s, steps[0]);
      match steps[0] {
        case Inject(command) => InjectionKeepsFocus(env, s, command);
        case Map(t) =>
          FirstWithOwns([t] + s.toplevels, RootOf(env, s.focused));
        case ActivatePid(pid) =>
          assert ActivateStep(env, s, pid).0 == s;
      }
      FocusIsNotStolen(env, Apply(env, s, steps[0]), steps[1..]);
    }
  }

  ghost predicate NoneMayMoveFocus(env: Env, s: State, steps: seq<Step>)
    requires WellFormed(s)
    decreases |steps|
  {
    steps == []
    || (ApplyKeepsWellFormed(env, s, steps[0]);
        !MayMoveFocus(env, s, steps[0]) && NoneMayMoveFocus(env, Apply(env, s, steps[0]), steps[1..]))
  }
}
