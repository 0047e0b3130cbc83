/** Rewriting a call's typed `target` into the flat fields the platform adapters read. */
module ActionTarget {
  import opened Wrappers
  import opened Json

  const TARGETED_TOOLS := {
    "move_cursor", "click", "drag", "scroll", "type_text", "press_key", "hotkey"
  }

  const U32_MAX: nat := 0xFFFF_FFFF

  predicate SupportsTypedTarget(toolName: string) {
    toolName in TARGETED_TOOLS
  }

  datatype InvalidTarget =
    | DesktopWithWindow
    | NoPerCallTarget
    | CombinedWithLegacy
    | NotAnObject
    | BadPid
    | BadWindowId
    | ExtraWindowFields
    | BadDisplayId
    | ExtraDesktopFields
    | NotPrimary
    | UnknownKind
    | MissingKind

  // The two encodings of a target

  datatype Target = Window(pid: nat, windowId: nat) | Desktop

  predicate ValidTarget(t: Target) {
    t.Window? ==> 0 < t.pid <= U32_MAX && 0 < t.windowId < TWO_TO_THE_64
  }

  /** The tagged union a caller sends. */
  function Typed(t: Target): JSON
    requires ValidTarget(t)
  {
    match t
    case Window(pid, windowId) =>
      Obj(map["kind" := Str("window"), "pid" := Num(PosInt(pid)), "window_id" := Num(PosInt(windowId))])
    case Desktop =>
      Obj(map["kind" := Str("desktop"), "display_id" := Str("primary")])
  }

  /** The fields an adapter reads. */
  function Flat(t: Target): map<string, JSON>
    requires ValidTarget(t)
  {
    match t
    case Window(pid, windowId) =>
      map["scope" := Str("window"), "pid" := Num(PosInt(pid)), "window_id" := Num(PosInt(windowId))]
    case Desktop =>
      map["scope" := Str("desktop")]
  }

  const LEGACY_FIELDS := {"scope", "pid", "window_id"}

  predicate NamesWindow(fields: map<string, JSON>) {
    "pid" in fields || "window_id" in fields
  }

  predicate DesktopConflict(args: JSON) {
    args.Obj? && GetStr(args, "scope") == Some("desktop") && NamesWindow(args.fields)
  }

  predicate HasTarget(args: JSON) {
    args.Obj? && "target" in args.fields
  }

  predicate IsTarget(value: JSON, t: Target) {
    ValidTarget(t) && value == Typed(t)
  }

  /** What normalization may turn `before` into, and whether it reports success. */
  ghost predicate Normalizes(toolName: string, before: JSON, after: JSON, ok: bool) {
    if !HasTarget(before) then
      after == before && (ok <==> !DesktopConflict(before))
    else
      var rest := before.fields - {"target"};
      && (ok <==>
            && SupportsTypedTarget(toolName)
            && rest.Keys !! LEGACY_FIELDS
            && exists t :: IsTarget(before.fields["target"], t))
      && (!ok ==> after == Obj(rest))
      && (ok ==> forall t :: IsTarget(before.fields["target"], t) ==> after == Obj(rest + Flat(t)))
  }

  // Why a call is refused

  predicate NoLegacyFields(fields: map<string, JSON>) {
    "scope" !in fields && "pid" !in fields && "window_id" !in fields
  }

  predicate PidFits(target: JSON) {
    var pid := GetU64(target, "pid");
    pid.Some? && 0 < pid.value <= 0xFFFF_FFFF
  }

  predicate WindowIdFits(target: JSON) {
    var windowId := GetU64(target, "window_id");
    windowId.Some? && windowId.value != 0
  }

  predicate DisplayNamed(target: JSON) {
    GetStr(target, "display_id").Some? && GetStr(target, "display_id") != Some("")
  }

  /** What is wrong with a target; of several faults it is the first that counts. */
  predicate TargetFault(target: JSON, error: InvalidTarget) {
    var kind := GetStr(target, "kind");
    match error
    case NotAnObject => !target.Obj?
    case MissingKind => target.Obj? && kind == None
    case UnknownKind => kind.Some? && kind != Some("window") && kind != Some("desktop")
    case BadPid => kind == Some("window") && !PidFits(target)
    case BadWindowId => kind == Some("window") && PidFits(target) && !WindowIdFits(target)
    case ExtraWindowFields =>
      && kind == Some("window") && PidFits(target) && WindowIdFits(target)
      && target.fields.Keys != {"kind", "pid", "window_id"}
    case BadDisplayId => kind == Some("desktop") && !DisplayNamed(target)
    case ExtraDesktopFields =>
      kind == Some("desktop") && DisplayNamed(target) && target.fields.Keys != {"kind", "display_id"}
    case NotPrimary =>
      && kind == Some("desktop") && DisplayNamed(target) && target.fields.Keys == {"kind", "display_id"}
      && GetStr(target, "display_id") != Some("primary")
    case _ => false
  }

  /** What is wrong with a call. */
  predicate Fault(toolName: string, before: JSON, error: InvalidTarget) {
    match error
    case DesktopWithWindow => !HasTarget(before) && DesktopConflict(before)
    case NoPerCallTarget => HasTarget(before) && !SupportsTypedTarget(toolName)
    case CombinedWithLegacy =>
      HasTarget(before) && SupportsTypedTarget(toolName) && !NoLegacyFields(before.fields)
    case _ =>
      && HasTarget(before) && SupportsTypedTarget(toolName) && NoLegacyFields(before.fields)
      && TargetFault(before.fields["target"], error)
  }

  /** A call's arguments, rewritten in place. */
  class Arguments {
    var value: JSON

    constructor (value: JSON)
      ensures this.value == value
    {
      this.value := value;
    }

    method NormalizeActionTarget(toolName: string) returns (result: Result<(), InvalidTarget>)
      modifies this
      ensures Normalizes(toolName, old(value), value, result.Ok?)
      ensures result.Err? ==> Fault(toolName, old(value), result.error)
    {
      if !value.Obj? {
        return Ok(());
      }
      if "target" !in value.fields {
        if GetStr(value, "scope") == Some("desktop")
          && ("pid" in value.fields || "window_id" in value.fields)
        {
          return Err(DesktopWithWindow);
        }
        return Ok(());
      }
      var target := value.fields["target"];
      var rest := value.fields - {"target"};
      value := Obj(rest);
      if !SupportsTypedTarget(toolName) {
        return Err(NoPerCallTarget);
      }
      if "scope" in rest || "pid" in rest || "window_id" in rest {
        return Err(CombinedWithLegacy);
      }
      var flat := ReadTarget(target);
      if flat.Err? {
        return Err(flat.error);
      }
      value := Obj(rest + flat.value);
      return Ok(());
    }
  }

  /** The flat fields for a typed target, if it is one. */
  method ReadTarget(target: JSON) returns (flat: Result<map<string, JSON>, InvalidTarget>)
    ensures flat.Ok? <==> exists t :: IsTarget(target, t)
    ensures forall t :: IsTarget(target, t) ==> flat == Ok(Flat(t))
    ensures flat.Err? ==> TargetFault(target, flat.error)
  {
    ParsedFields(target);
    if !target.Obj? {
      return Err(NotAnObject);
    }
    match GetStr(target, "kind")
    case Some("window") =>
      var pid := GetU64(target, "pid");
      if pid == None || !(0 < pid.value <= U32_MAX) {
        return Err(BadPid);
      }
      var windowId := GetU64(target, "window_id");
      if windowId == None || windowId.value == 0 {
        return Err(BadWindowId);
      }
      if |target.fields| != 3 {
        return Err(ExtraWindowFields);
      }
      ParsedWindow(target, pid.value, windowId.value);
      return Ok(map[
        "scope" := Str("window"), "pid" := Num(PosInt(pid.value)), "window_id" := Num(PosInt(windowId.value))
      ]);
    case Some("desktop") =>
      var displayId := GetStr(target, "display_id");
      if displayId == None || displayId.value == "" {
        return Err(BadDisplayId);
      }
      if |target.fields| != 2 {
        return Err(ExtraDesktopFields);
      }
      if displayId.value != "primary" {
        OnlyFields(target.fields, {"kind", "display_id"});
        return Err(NotPrimary);
      }
      ParsedDesktop(target);
      return Ok(map["scope" := Str("desktop")]);
    case Some(_) =>
      return Err(UnknownKind);
    case None =>
      return Err(MissingKind);
  }

  function GetU64(value: JSON, name: string): Option<U64> {
    match value.Get(name)
    case Some(Num(PosInt(n))) => Some(n)
    case _ => None
  }

  /** A map with as many members as a set of its keys has no others. */
  lemma OnlyFields(fields: map<string, JSON>, names: set<string>)
    requires names <= fields.Keys && |fields| == |names|
    ensures fields.Keys == names
  {
    var extra := fields.Keys - names;
    assert fields.Keys == names + extra;
    assert |fields.Keys| == |names| + |extra|;
  }

  lemma ParsedWindow(target: JSON, pid: U64, windowId: U64)
    requires GetStr(target, "kind") == Some("window")
    requires GetU64(target, "pid") == Some(pid) && GetU64(target, "window_id") == Some(windowId)
    requires 0 < pid <= U32_MAX && 0 < windowId && |target.fields| == 3
    ensures IsTarget(target, Window(pid, windowId))
  {
    OnlyFields(target.fields, {"kind", "pid", "window_id"});
  }

  lemma ParsedDesktop(target: JSON)
    requires GetStr(target, "kind") == Some("desktop")
    requires GetStr(target, "display_id") == Some("primary") && |target.fields| == 2
    ensures IsTarget(target, Desktop)
  {
    OnlyFields(target.fields, {"kind", "display_id"});
  }

  /** What the members of a typed target say. */
  lemma ParsedFields(target: JSON)
    ensures forall t :: IsTarget(target, t) ==>
              match t
              case Window(pid, windowId) =>
                && GetStr(target, "kind") == Some("window") && |target.fields| == 3
                && GetU64(target, "pid") == Some(pid) && GetU64(target, "window_id") == Some(windowId)
              case Desktop =>
                && GetStr(target, "kind") == Some("desktop") && |target.fields| == 2
                && GetStr(target, "display_id") == Some("primary")
  {
  }

  // What normalization keeps

  /** The outcome is determined: there is one result for each input. */
  lemma NormalizationIsAFunction(toolName: string, before: JSON, after: JSON, other: JSON, ok: bool, otherOk: bool)
    requires Normalizes(toolName, before, after, ok) && Normalizes(toolName, before, other, otherOk)
    ensures after == other && ok == otherOk
  {
    if HasTarget(before) && ok {
      var t :| IsTarget(before.fields["target"], t);
    }
  }

  /** Recover the typed call from the flat one. */
  function Rebuild(after: JSON): JSON {
    if !after.Obj? then after else
      var rest := after.fields - LEGACY_FIELDS;
      var target :=
        match (GetStr(after, "scope"), GetU64(after, "pid"), GetU64(after, "window_id"))
        case (Some("window"), Some(pid), Some(windowId)) =>
          Obj(map["kind" := Str("window"), "pid" := Num(PosInt(pid)), "window_id" := Num(PosInt(windowId))])
        case _ =>
          Obj(map["kind" := Str("desktop"), "display_id" := Str("primary")]);
      Obj(rest["target" := target])
  }

  /** Nothing is lost: the original call can be rebuilt from what it was rewritten to. */
  lemma NormalizationLosesNothing(toolName: string, before: JSON, after: JSON)
    requires HasTarget(before) && Normalizes(toolName, before, after, true)
    ensures Rebuild(after) == before
  {
    var t :| IsTarget(before.fields["target"], t);
    var rest := before.fields - {"target"};
    assert after == Obj(rest + Flat(t));
    assert (rest + Flat(t)) - LEGACY_FIELDS == rest;
    assert rest["target" := Typed(t)] == before.fields;
  }

  /** Distinct typed calls stay distinct. */
  lemma TypedCallsNeverCollapse(tool: string, first: JSON, otherTool: string, second: JSON, after: JSON)
    requires HasTarget(first) && Normalizes(tool, first, after, true)
    requires HasTarget(second) && Normalizes(otherTool, second, after, true)
    ensures first == second
  {
    NormalizationLosesNothing(tool, first, after);
    NormalizationLosesNothing(otherTool, second, after);
  }

  /** A normalized call stays as it is, for every tool; and it never names both the desktop
      and a window. */
  lemma NormalizedIsFixed(toolName: string, before: JSON, after: JSON, anyTool: string)
    requires Normalizes(toolName, before, after, true)
    ensures Normalizes(anyTool, after, after, true)
    ensures !DesktopConflict(after)
  {
    if HasTarget(before) {
      var t :| IsTarget(before.fields["target"], t);
      assert after == Obj((before.fields - {"target"}) + Flat(t));
    }
  }

  /** Every field that does not describe the target is unchanged, whatever the outcome. */
  lemma OtherFieldsUnchanged(toolName: string, before: JSON, after: JSON, ok: bool, name: string)
    requires Normalizes(toolName, before, after, ok)
    requires name != "target" && (HasTarget(before) && ok ==> name !in LEGACY_FIELDS)
    ensures after.Get(name) == before.Get(name)
  {
    if HasTarget(before) && ok {
      var t :| IsTarget(before.fields["target"], t);
      assert after == Obj((before.fields - {"target"}) + Flat(t));
    }
  }

  // What is accepted

  /** The tools that take a typed target. */
  lemma TargetedToolsAre(tool: string)
    ensures SupportsTypedTarget(tool) <==>
              tool in {"move_cursor", "click", "drag", "scroll", "type_text", "press_key", "hotkey"}
  {
  }

  /** A window target with any 32-bit process and any 64-bit window, neither of them zero, is
      accepted for every such tool, and becomes the three flat fields. */
  lemma WindowTargetAccepted(tool: string, fields: map<string, JSON>, pid: nat, windowId: nat, after: JSON, ok: bool)
    requires 0 < pid <= 0xFFFF_FFFF && 0 < windowId <= 0xFFFF_FFFF_FFFF_FFFF
    requires "target" in fields && NoLegacyFields(fields) && SupportsTypedTarget(tool)
    requires fields["target"]
             == Obj(map["kind" := Str("window"), "pid" := Num(PosInt(pid)), "window_id" := Num(PosInt(windowId))])
    requires Normalizes(tool, Obj(fields), after, ok)
    ensures ok
    ensures after == Obj((fields - {"target"})["scope" := Str("window")]["pid" := Num(PosInt(pid))]
                                              ["window_id" := Num(PosInt(windowId))])
  {
    assert IsTarget(fields["target"], Window(pid, windowId));
    var rest := fields - {"target"};
    assert rest + Flat(Window(pid, windowId))
           == rest["scope" := Str("window")]["pid" := Num(PosInt(pid))]["window_id" := Num(PosInt(windowId))];
  }

  /** The primary desktop is accepted, and becomes the scope. */
  lemma DesktopTargetAccepted(tool: string, fields: map<string, JSON>, after: JSON, ok: bool)
    requires "target" in fields && NoLegacyFields(fields) && SupportsTypedTarget(tool)
    requires fields["target"] == Obj(map["kind" := Str("desktop"), "display_id" := Str("primary")])
    requires Normalizes(tool, Obj(fields), after, ok)
    ensures ok && after == Obj((fields - {"target"})["scope" := Str("desktop")])
  {
    assert IsTarget(fields["target"], Desktop);
    assert (fields - {"target"}) + Flat(Desktop) == (fields - {"target"})["scope" := Str("desktop")];
  }

  /** Everything else with a target is refused, and loses it; without a target a call is left
      alone, and refused only if it names the desktop and a window. */
  lemma OthersRefused(tool: string, before: JSON, after: JSON, ok: bool)
    requires Normalizes(tool, before, after, ok)
    ensures before.Obj? && "target" in before.fields ==>
              && (!ok ==> after == Obj(before.fields - {"target"}))
              && (ok ==>
                    && SupportsTypedTarget(tool) && NoLegacyFields(before.fields)
                    && before.fields["target"].Obj?
                    && (before.fields["target"]
                          == Obj(map["kind" := Str("desktop"), "display_id" := Str("primary")])
                        || exists pid: nat, windowId: nat ::
                             && 0 < pid <= 0xFFFF_FFFF && 0 < windowId <= 0xFFFF_FFFF_FFFF_FFFF
                             && before.fields["target"]
                                == Obj(map["kind" := Str("window"), "pid" := Num(PosInt(pid)),
                                           "window_id" := Num(PosInt(windowId))])))
    ensures before.Obj? && "target" !in before.fields ==>
              && after == before
              && (!ok <==> "scope" in before.fields && before.fields["scope"] == Str("desktop")
                           && ("pid" in before.fields || "window_id" in before.fields))
    ensures !before.Obj? ==> ok && after == before
  {
    if HasTarget(before) && ok {
      var t :| IsTarget(before.fields["target"], t);
      assert "scope" in LEGACY_FIELDS && "pid" in LEGACY_FIELDS && "window_id" in LEGACY_FIELDS;
      assert NoLegacyFields(before.fields) by {
        var rest := before.fields - {"target"};
        assert "scope" !in rest && "pid" !in rest && "window_id" !in rest;
      }
    }
  }

  /** A call is refused exactly if something is wrong with it, and there is one reason. */
  lemma RefusedExactly(tool: string, before: JSON, after: JSON, ok: bool, error: InvalidTarget)
    requires Normalizes(tool, before, after, ok)
    ensures !ok <==> exists e :: Fault(tool, before, e)
    ensures Fault(tool, before, error) ==> forall e :: Fault(tool, before, e) ==> e == error
  {
    if HasTarget(before) && SupportsTypedTarget(tool) && NoLegacyFields(before.fields) {
      assert (before.fields - {"target"}).Keys !! LEGACY_FIELDS;
      TargetFaults(before.fields["target"]);
      if e :| TargetFault(before.fields["target"], e) {
        assert Fault(tool, before, e);
      }
    } else if HasTarget(before) {
      assert Fault(tool, before, if SupportsTypedTarget(tool) then CombinedWithLegacy else NoPerCallTarget);
      if SupportsTypedTarget(tool) {
        assert exists name :: name in LEGACY_FIELDS && name in (before.fields - {"target"});
      }
    } else if DesktopConflict(before) {
      assert Fault(tool, before, DesktopWithWindow);
    }
  }

  lemma TargetFaults(target: JSON)
    ensures (exists t :: IsTarget(target, t)) <==> forall e :: !TargetFault(target, e)
  {
    match GetStr(target, "kind")
    case Some("window") => WindowFaults(target);
    case Some("desktop") => DesktopFaults(target);
    case kind =>
      ParsedFields(target);
      assert TargetFault(target, if kind.Some? then UnknownKind else if target.Obj? then MissingKind else NotAnObject);
  }

  lemma WindowFaults(target: JSON)
    requires GetStr(target, "kind") == Some("window")
    ensures (exists t :: IsTarget(target, t)) <==> forall e :: !TargetFault(target, e)
  {
    if forall e :: !TargetFault(target, e) {
      assert !TargetFault(target, BadPid) && !TargetFault(target, BadWindowId) && !TargetFault(target, ExtraWindowFields);
      ParsedWindow(target, GetU64(target, "pid").value, GetU64(target, "window_id").value);
    }
  }

  lemma DesktopFaults(target: JSON)
    requires GetStr(target, "kind") == Some("desktop")
    ensures (exists t :: IsTarget(target, t)) <==> forall e :: !TargetFault(target, e)
  {
    if forall e :: !TargetFault(target, e) {
      assert !TargetFault(target, BadDisplayId) && !TargetFault(target, ExtraDesktopFields)
             && !TargetFault(target, NotPrimary);
      ParsedDesktop(target);
    }
  }
}
