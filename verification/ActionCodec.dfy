/** The converters for `ActionResult` and `ActionTarget`, which hold no boolean: besides being
    undone by reading, their encodings are canonical. */
module ActionCodec {
  import opened Wrappers
  import opened Bytes
  import opened RustBuffer
  import opened Codec

  datatype ActionEffect = Confirmed | Partial | Unverifiable | SuspectedNoop | Refused

  datatype ActionRoute = Accessibility | SyntheticEvents | GlobalInput | SystemApi | Dom | TrustedInput

  datatype ActionDeliveryMode = Background | Foreground | NotApplicable | Unknown

  datatype ActionEscalationTarget = Pixel | ForegroundTarget | Page | Session

  datatype ActionEscalationReason =
    RouteUnavailable | DeliveryFailed | EffectUnconfirmed | NoopSuspected | PermissionRequired

  datatype ActionEvidenceKind = ValueReadback | WindowChange

  datatype ActionDelivery = ActionDelivery(mode: ActionDeliveryMode, deliveredCount: Option<U32>)

  datatype ActionEvidence = ActionEvidence(kind: ActionEvidenceKind)

  datatype ActionEscalation =
    ActionEscalation(target: ActionEscalationTarget, reason: ActionEscalationReason)

  datatype ActionResult = ActionResult(
    effect: ActionEffect,
    route: ActionRoute,
    delivery: Option<ActionDelivery>,
    evidence: Option<List<ActionEvidence>>,
    escalation: Option<ActionEscalation>
  )

  datatype ActionTarget = WindowTarget(pid: U32, windowId: U64) | DesktopTarget(displayId: Text)

  function EffectTag(v: ActionEffect): Tag {
    match v
    case Confirmed => 1
    case Partial => 2
    case Unverifiable => 3
    case SuspectedNoop => 4
    case Refused => 5
  }

  function EffectVariant(n: int): Option<ActionEffect> {
    if n == 1 then Some(Confirmed)
    else if n == 2 then Some(Partial)
    else if n == 3 then Some(Unverifiable)
    else if n == 4 then Some(SuspectedNoop)
    else if n == 5 then Some(Refused)
    else None
  }

  function EncodeEffect(v: ActionEffect): Bytes {
    EncodeEnum(EffectTag, v)
  }

  function DecodeEffect(bytes: Bytes): Decoded<ActionEffect> {
    DecodeEnum(EffectVariant, bytes)
  }

  lemma EffectUndone(v: ActionEffect, rest: Bytes)
    ensures DecodeEffect(EncodeEffect(v) + rest) == Ok((v, rest))
  {
    EnumInverse(EffectTag, EffectVariant, v, rest);
  }

  lemma EffectRedone(bytes: Bytes)
    requires DecodeEffect(bytes).Ok?
    ensures EncodeEffect(DecodeEffect(bytes).value.0) + DecodeEffect(bytes).value.1 == bytes
  {
    EnumCanonical(EffectTag, EffectVariant, bytes);
  }

  function RouteTag(v: ActionRoute): Tag {
    match v
    case Accessibility => 1
    case SyntheticEvents => 2
    case GlobalInput => 3
    case SystemApi => 4
    case Dom => 5
    case TrustedInput => 6
  }

  function RouteVariant(n: int): Option<ActionRoute> {
    if n == 1 then Some(Accessibility)
    else if n == 2 then Some(SyntheticEvents)
    else if n == 3 then Some(GlobalInput)
    else if n == 4 then Some(SystemApi)
    else if n == 5 then Some(Dom)
    else if n == 6 then Some(TrustedInput)
    else None
  }

  function EncodeRoute(v: ActionRoute): Bytes {
    EncodeEnum(RouteTag, v)
  }

  function DecodeRoute(bytes: Bytes): Decoded<ActionRoute> {
    DecodeEnum(RouteVariant, bytes)
  }

  lemma RouteUndone(v: ActionRoute, rest: Bytes)
    ensures DecodeRoute(EncodeRoute(v) + rest) == Ok((v, rest))
  {
    EnumInverse(RouteTag, RouteVariant, v, rest);
  }

  lemma RouteRedone(bytes: Bytes)
    requires DecodeRoute(bytes).Ok?
    ensures EncodeRoute(DecodeRoute(bytes).value.0) + DecodeRoute(bytes).value.1 == bytes
  {
    EnumCanonical(RouteTag, RouteVariant, bytes);
  }

  function DeliveryModeTag(v: ActionDeliveryMode): Tag {
    match v
    case Background => 1
    case Foreground => 2
    case NotApplicable => 3
    case Unknown => 4
  }

  function DeliveryModeVariant(n: int): Option<ActionDeliveryMode> {
    if n == 1 then Some(Background)
    else if n == 2 then Some(Foreground)
    else if n == 3 then Some(NotApplicable)
    else if n == 4 then Some(Unknown)
    else None
  }

  function EncodeDeliveryMode(v: ActionDeliveryMode): Bytes {
    EncodeEnum(DeliveryModeTag, v)
  }

  function DecodeDeliveryMode(bytes: Bytes): Decoded<ActionDeliveryMode> {
    DecodeEnum(DeliveryModeVariant, bytes)
  }

  lemma DeliveryModeUndone(v: ActionDeliveryMode, rest: Bytes)
    ensures DecodeDeliveryMode(EncodeDeliveryMode(v) + rest) == Ok((v, rest))
  {
    EnumInverse(DeliveryModeTag, DeliveryModeVariant, v, rest);
  }

  lemma DeliveryModeRedone(bytes: Bytes)
    requires DecodeDeliveryMode(bytes).Ok?
    ensures EncodeDeliveryMode(DecodeDeliveryMode(bytes).value.0) + DecodeDeliveryMode(bytes).value.1 == bytes
  {
    EnumCanonical(DeliveryModeTag, DeliveryModeVariant, bytes);
  }

  function EscalationTargetTag(v: ActionEscalationTarget): Tag {
    match v
    case Pixel => 1
    case ForegroundTarget => 2
    case Page => 3
    case Session => 4
  }

  function EscalationTargetVariant(n: int): Option<ActionEscalationTarget> {
    if n == 1 then Some(Pixel)
    else if n == 2 then Some(ForegroundTarget)
    else if n == 3 then Some(Page)
    else if n == 4 then Some(Session)
    else None
  }

  function EncodeEscalationTarget(v: ActionEscalationTarget): Bytes {
    EncodeEnum(EscalationTargetTag, v)
  }

  function DecodeEscalationTarget(bytes: Bytes): Decoded<ActionEscalationTarget> {
    DecodeEnum(EscalationTargetVariant, bytes)
  }

  lemma EscalationTargetUndone(v: ActionEscalationTarget, rest: Bytes)
    ensures DecodeEscalationTarget(EncodeEscalationTarget(v) + rest) == Ok((v, rest))
  {
    EnumInverse(EscalationTargetTag, EscalationTargetVariant, v, rest);
  }

  lemma EscalationTargetRedone(bytes: Bytes)
    requires DecodeEscalationTarget(bytes).Ok?
    ensures EncodeEscalationTarget(DecodeEscalationTarget(bytes).value.0)
            + DecodeEscalationTarget(bytes).value.1 == bytes
  {
    EnumCanonical(EscalationTargetTag, EscalationTargetVariant, bytes);
  }

  function EscalationReasonTag(v: ActionEscalationReason): Tag {
    match v
    case RouteUnavailable => 1
    case DeliveryFailed => 2
    case EffectUnconfirmed => 3
    case NoopSuspected => 4
    case PermissionRequired => 5
  }

  function EscalationReasonVariant(n: int): Option<ActionEscalationReason> {
    if n == 1 then Some(RouteUnavailable)
    else if n == 2 then Some(DeliveryFailed)
    else if n == 3 then Some(EffectUnconfirmed)
    else if n == 4 then Some(NoopSuspected)
    else if n == 5 then Some(PermissionRequired)
    else None
  }

  function EncodeEscalationReason(v: ActionEscalationReason): Bytes {
    EncodeEnum(EscalationReasonTag, v)
  }

  function DecodeEscalationReason(bytes: Bytes): Decoded<ActionEscalationReason> {
    DecodeEnum(EscalationReasonVariant, bytes)
  }

  lemma EscalationReasonUndone(v: ActionEscalationReason, rest: Bytes)
    ensures DecodeEscalationReason(EncodeEscalationReason(v) + rest) == Ok((v, rest))
  {
    EnumInverse(EscalationReasonTag, EscalationReasonVariant, v, rest);
  }

  lemma EscalationReasonRedone(bytes: Bytes)
    requires DecodeEscalationReason(bytes).Ok?
    ensures EncodeEscalationReason(DecodeEscalationReason(bytes).value.0)
            + DecodeEscalationReason(bytes).value.1 == bytes
  {
    EnumCanonical(EscalationReasonTag, EscalationReasonVariant, bytes);
  }

  function EvidenceKindTag(v: ActionEvidenceKind): Tag {
    match v
    case ValueReadback => 1
    case WindowChange => 2
  }

  function EvidenceKindVariant(n: int): Option<ActionEvidenceKind> {
    if n == 1 then Some(ValueReadback)
    else if n == 2 then Some(WindowChange)
    else None
  }

  function EncodeEvidenceKind(v: ActionEvidenceKind): Bytes {
    EncodeEnum(EvidenceKindTag, v)
  }

  function DecodeEvidenceKind(bytes: Bytes): Decoded<ActionEvidenceKind> {
    DecodeEnum(EvidenceKindVariant, bytes)
  }

  lemma EvidenceKindUndone(v: ActionEvidenceKind, rest: Bytes)
    ensures DecodeEvidenceKind(EncodeEvidenceKind(v) + rest) == Ok((v, rest))
  {
    EnumInverse(EvidenceKindTag, EvidenceKindVariant, v, rest);
  }

  lemma EvidenceKindRedone(bytes: Bytes)
    requires DecodeEvidenceKind(bytes).Ok?
    ensures EncodeEvidenceKind(DecodeEvidenceKind(bytes).value.0) + DecodeEvidenceKind(bytes).value.1 == bytes
  {
    EnumCanonical(EvidenceKindTag, EvidenceKindVariant, bytes);
  }

  function EncodeOptionalU32(v: Option<U32>): Bytes {
    EncodeOptional(EncodeU32, v)
  }

  function DecodeOptionalU32(bytes: Bytes): Decoded<Option<U32>> {
    DecodeOptional(DecodeU32, bytes)
  }

  lemma OptionalU32Undone(v: Option<U32>, rest: Bytes)
    ensures DecodeOptionalU32(EncodeOptionalU32(v) + rest) == Ok((v, rest))
  {
    forall x: U32, left ensures DecodeU32(EncodeU32(x) + left) == Ok((x, left)) {
      U32Undone(x, left);
    }
    OptionalInverse(EncodeU32, DecodeU32, v, rest);
  }

  lemma OptionalU32Redone(bytes: Bytes)
    requires DecodeOptionalU32(bytes).Ok?
    ensures EncodeOptionalU32(DecodeOptionalU32(bytes).value.0) + DecodeOptionalU32(bytes).value.1 == bytes
  {
    forall b | DecodeU32(b).Ok?
      ensures EncodeU32(DecodeU32(b).value.0) + DecodeU32(b).value.1 == b
    {
      U32Redone(b);
    }
    OptionalCanonical(EncodeU32, DecodeU32, bytes);
  }

  function EncodeDelivery(v: ActionDelivery): Bytes {
    EncodeDeliveryMode(v.mode)
    + EncodeOptionalU32(v.deliveredCount)
  }

  function DecodeDelivery(bytes: Bytes): Decoded<ActionDelivery> {
    var (mode, r1) :- DecodeDeliveryMode(bytes);
    var (deliveredCount, r2) :- DecodeOptionalU32(r1);
    Ok((ActionDelivery(mode, deliveredCount), r2))
  }

  lemma DeliveryUndone(v: ActionDelivery, rest: Bytes)
    ensures DecodeDelivery(EncodeDelivery(v) + rest) == Ok((v, rest))
  {
    var r1 := EncodeOptionalU32(v.deliveredCount) + rest;
    Regroup2(EncodeDeliveryMode(v.mode), EncodeOptionalU32(v.deliveredCount), rest);
    DeliveryModeUndone(v.mode, r1);
    OptionalU32Undone(v.deliveredCount, rest);
  }

  lemma DeliveryRedone(bytes: Bytes)
    requires DecodeDelivery(bytes).Ok?
    ensures EncodeDelivery(DecodeDelivery(bytes).value.0) + DecodeDelivery(bytes).value.1 == bytes
  {
    DeliveryModeRedone(bytes);
    var (mode, r1) := DecodeDeliveryMode(bytes).value;
    OptionalU32Redone(r1);
    var (deliveredCount, r2) := DecodeOptionalU32(r1).value;
    Regroup2(EncodeDeliveryMode(mode), EncodeOptionalU32(deliveredCount), r2);
  }

  function EncodeOptionalDelivery(v: Option<ActionDelivery>): Bytes {
    EncodeOptional(EncodeDelivery, v)
  }

  function DecodeOptionalDelivery(bytes: Bytes): Decoded<Option<ActionDelivery>> {
    DecodeOptional(DecodeDelivery, bytes)
  }

  lemma OptionalDeliveryUndone(v: Option<ActionDelivery>, rest: Bytes)
    ensures DecodeOptionalDelivery(EncodeOptionalDelivery(v) + rest) == Ok((v, rest))
  {
    forall x: ActionDelivery, left ensures DecodeDelivery(EncodeDelivery(x) + left) == Ok((x, left)) {
      DeliveryUndone(x, left);
    }
    OptionalInverse(EncodeDelivery, DecodeDelivery, v, rest);
  }

  lemma OptionalDeliveryRedone(bytes: Bytes)
    requires DecodeOptionalDelivery(bytes).Ok?
    ensures EncodeOptionalDelivery(DecodeOptionalDelivery(bytes).value.0)
            + DecodeOptionalDelivery(bytes).value.1 == bytes
  {
    forall b | DecodeDelivery(b).Ok?
      ensures EncodeDelivery(DecodeDelivery(b).value.0) + DecodeDelivery(b).value.1 == b
    {
      DeliveryRedone(b);
    }
    OptionalCanonical(EncodeDelivery, DecodeDelivery, bytes);
  }

  function EncodeEscalation(v: ActionEscalation): Bytes {
    EncodeEscalationTarget(v.target)
    + EncodeEscalationReason(v.reason)
  }

  function DecodeEscalation(bytes: Bytes): Decoded<ActionEscalation> {
    var (target, r1) :- DecodeEscalationTarget(bytes);
    var (reason, r2) :- DecodeEscalationReason(r1);
    Ok((ActionEscalation(target, reason), r2))
  }

  lemma EscalationUndone(v: ActionEscalation, rest: Bytes)
    ensures DecodeEscalation(EncodeEscalation(v) + rest) == Ok((v, rest))
  {
    var r1 := EncodeEscalationReason(v.reason) + rest;
    Regroup2(EncodeEscalationTarget(v.target), EncodeEscalationReason(v.reason), rest);
    EscalationTargetUndone(v.target, r1);
    EscalationReasonUndone(v.reason, rest);
  }

  lemma EscalationRedone(bytes: Bytes)
    requires DecodeEscalation(bytes).Ok?
    ensures EncodeEscalation(DecodeEscalation(bytes).value.0) + DecodeEscalation(bytes).value.1 == bytes
  {
    EscalationTargetRedone(bytes);
    var (target, r1) := DecodeEscalationTarget(bytes).value;
    EscalationReasonRedone(r1);
    var (reason, r2) := DecodeEscalationReason(r1).value;
    Regroup2(EncodeEscalationTarget(target), EncodeEscalationReason(reason), r2);
  }

  function EncodeOptionalEscalation(v: Option<ActionEscalation>): Bytes {
    EncodeOptional(EncodeEscalation, v)
  }

  function DecodeOptionalEscalation(bytes: Bytes): Decoded<Option<ActionEscalation>> {
    DecodeOptional(DecodeEscalation, bytes)
  }

  lemma OptionalEscalationUndone(v: Option<ActionEscalation>, rest: Bytes)
    ensures DecodeOptionalEscalation(EncodeOptionalEscalation(v) + rest) == Ok((v, rest))
  {
    forall x: ActionEscalation, left ensures DecodeEscalation(EncodeEscalation(x) + left) == Ok((x, left)) {
      EscalationUndone(x, left);
    }
    OptionalInverse(EncodeEscalation, DecodeEscalation, v, rest);
  }

  lemma OptionalEscalationRedone(bytes: Bytes)
    requires DecodeOptionalEscalation(bytes).Ok?
    ensures EncodeOptionalEscalation(DecodeOptionalEscalation(bytes).value.0)
            + DecodeOptionalEscalation(bytes).value.1 == bytes
  {
    forall b | DecodeEscalation(b).Ok?
      ensures EncodeEscalation(DecodeEscalation(b).value.0) + DecodeEscalation(b).value.1 == b
    {
      EscalationRedone(b);
    }
    OptionalCanonical(EncodeEscalation, DecodeEscalation, bytes);
  }

  function EncodeEvidence(v: ActionEvidence): Bytes {
    EncodeEvidenceKind(v.kind)
  }

  function DecodeEvidence(bytes: Bytes): Decoded<ActionEvidence> {
    var (kind, r1) :- DecodeEvidenceKind(bytes);
    Ok((ActionEvidence(kind), r1))
  }

  lemma EvidenceUndone(v: ActionEvidence, rest: Bytes)
    ensures DecodeEvidence(EncodeEvidence(v) + rest) == Ok((v, rest))
  {
    assert EncodeEvidence(v) + rest == EncodeEvidenceKind(v.kind) + rest;
    EvidenceKindUndone(v.kind, rest);
  }

  lemma EvidenceRedone(bytes: Bytes)
    requires DecodeEvidence(bytes).Ok?
    ensures EncodeEvidence(DecodeEvidence(bytes).value.0) + DecodeEvidence(bytes).value.1 == bytes
  {
    EvidenceKindRedone(bytes);
    var (kind, r1) := DecodeEvidenceKind(bytes).value;
  }

  function EncodeListEvidence(v: List<ActionEvidence>): Bytes {
    EncodeList(EncodeEvidence, v)
  }

  function DecodeListEvidence(bytes: Bytes): Decoded<List<ActionEvidence>> {
    DecodeList(DecodeEvidence, bytes)
  }

  lemma ListEvidenceUndone(v: List<ActionEvidence>, rest: Bytes)
    ensures DecodeListEvidence(EncodeListEvidence(v) + rest) == Ok((v, rest))
  {
    forall x: ActionEvidence, left ensures DecodeEvidence(EncodeEvidence(x) + left) == Ok((x, left)) {
      EvidenceUndone(x, left);
    }
    ListInverse(EncodeEvidence, DecodeEvidence, v, rest);
  }

  lemma ListEvidenceRedone(bytes: Bytes)
    requires DecodeListEvidence(bytes).Ok?
    ensures EncodeListEvidence(DecodeListEvidence(bytes).value.0) + DecodeListEvidence(bytes).value.1 == bytes
  {
    forall b | DecodeEvidence(b).Ok?
      ensures EncodeEvidence(DecodeEvidence(b).value.0) + DecodeEvidence(b).value.1 == b
    {
      EvidenceRedone(b);
    }
    ListCanonical(EncodeEvidence, DecodeEvidence, bytes);
  }

  function EncodeOptionalListEvidence(v: Option<List<ActionEvidence>>): Bytes {
    EncodeOptional(EncodeListEvidence, v)
  }

  function DecodeOptionalListEvidence(bytes: Bytes): Decoded<Option<List<ActionEvidence>>> {
    DecodeOptional(DecodeListEvidence, bytes)
  }

  lemma OptionalListEvidenceUndone(v: Option<List<ActionEvidence>>, rest: Bytes)
    ensures DecodeOptionalListEvidence(EncodeOptionalListEvidence(v) + rest) == Ok((v, rest))
  {
    forall x: List<ActionEvidence>, left ensures DecodeListEvidence(EncodeListEvidence(x) + left) == Ok((x, left)) {
      ListEvidenceUndone(x, left);
    }
    OptionalInverse(EncodeListEvidence, DecodeListEvidence, v, rest);
  }

  lemma OptionalListEvidenceRedone(bytes: Bytes)
    requires DecodeOptionalListEvidence(bytes).Ok?
    ensures EncodeOptionalListEvidence(DecodeOptionalListEvidence(bytes).value.0)
            + DecodeOptionalListEvidence(bytes).value.1 == bytes
  {
    forall b | DecodeListEvidence(b).Ok?
      ensures EncodeListEvidence(DecodeListEvidence(b).value.0) + DecodeListEvidence(b).value.1 == b
    {
      ListEvidenceRedone(b);
    }
    OptionalCanonical(EncodeListEvidence, DecodeListEvidence, bytes);
  }

  function EncodeResult(v: ActionResult): Bytes {
    EncodeEffect(v.effect)
    + EncodeRoute(v.route)
    + EncodeOptionalDelivery(v.delivery)
    + EncodeOptionalListEvidence(v.evidence)
    + EncodeOptionalEscalation(v.escalation)
  }

  function DecodeResult(bytes: Bytes): Decoded<ActionResult> {
    var (effect, r1) :- DecodeEffect(bytes);
    var (route, r2) :- DecodeRoute(r1);
    var (delivery, r3) :- DecodeOptionalDelivery(r2);
    var (evidence, r4) :- DecodeOptionalListEvidence(r3);
    var (escalation, r5) :- DecodeOptionalEscalation(r4);
    Ok((ActionResult(effect, route, delivery, evidence, escalation), r5))
  }

  lemma ResultUndone(v: ActionResult, rest: Bytes)
    ensures DecodeResult(EncodeResult(v) + rest) == Ok((v, rest))
  {
    var r4 := EncodeOptionalEscalation(v.escalation) + rest;
    var r3 := EncodeOptionalListEvidence(v.evidence) + r4;
    var r2 := EncodeOptionalDelivery(v.delivery) + r3;
    var r1 := EncodeRoute(v.route) + r2;
    Regroup5(EncodeEffect(v.effect), EncodeRoute(v.route), EncodeOptionalDelivery(v.delivery),
             EncodeOptionalListEvidence(v.evidence), EncodeOptionalEscalation(v.escalation), rest);
    EffectUndone(v.effect, r1);
    RouteUndone(v.route, r2);
    OptionalDeliveryUndone(v.delivery, r3);
    OptionalListEvidenceUndone(v.evidence, r4);
    OptionalEscalationUndone(v.escalation, rest);
  }

  lemma ResultRedone(bytes: Bytes)
    requires DecodeResult(bytes).Ok?
    ensures EncodeResult(DecodeResult(bytes).value.0) + DecodeResult(bytes).value.1 == bytes
  {
    EffectRedone(bytes);
    var (effect, r1) := DecodeEffect(bytes).value;
    RouteRedone(r1);
    var (route, r2) := DecodeRoute(r1).value;
    OptionalDeliveryRedone(r2);
    var (delivery, r3) := DecodeOptionalDelivery(r2).value;
    OptionalListEvidenceRedone(r3);
    var (evidence, r4) := DecodeOptionalListEvidence(r3).value;
    OptionalEscalationRedone(r4);
    var (escalation, r5) := DecodeOptionalEscalation(r4).value;
    Regroup5(EncodeEffect(effect), EncodeRoute(route), EncodeOptionalDelivery(delivery),
             EncodeOptionalListEvidence(evidence), EncodeOptionalEscalation(escalation), r5);
  }

  // A tagged union

  function EncodeTarget(v: ActionTarget): Bytes {
    Widths();
    match v
    case WindowTarget(pid, windowId) => EncodeI32(1) + EncodeU32(pid) + EncodeU64(windowId)
    case DesktopTarget(displayId) => EncodeI32(2) + EncodeText(displayId)
  }

  function DecodeTarget(bytes: Bytes): Decoded<ActionTarget> {
    var (variant, r1) :- DecodeI32(bytes);
    if variant == 1 then
      var (pid, r2) :- DecodeU32(r1);
      var (windowId, r3) :- DecodeU64(r2);
      Ok((WindowTarget(pid, windowId), r3))
    else if variant == 2 then
      var (displayId, r2) :- DecodeText(r1);
      Ok((DesktopTarget(displayId), r2))
    else
      Err(UnknownVariant)
  }

  lemma TargetUndone(v: ActionTarget, rest: Bytes)
    ensures DecodeTarget(EncodeTarget(v) + rest) == Ok((v, rest))
  {
    Widths();
    match v
    case WindowTarget(pid, windowId) =>
      var r2 := EncodeU64(windowId) + rest;
      var r1 := EncodeU32(pid) + r2;
      Regroup3(EncodeI32(1), EncodeU32(pid), EncodeU64(windowId), rest);
      I32Undone(1, r1);
      U32Undone(pid, r2);
      U64Undone(windowId, rest);
    case DesktopTarget(displayId) =>
      var r1 := EncodeText(displayId) + rest;
      Regroup2(EncodeI32(2), EncodeText(displayId), rest);
      I32Undone(2, r1);
      TextUndone(displayId, rest);
  }

  lemma TargetRedone(bytes: Bytes)
    requires DecodeTarget(bytes).Ok?
    ensures EncodeTarget(DecodeTarget(bytes).value.0) + DecodeTarget(bytes).value.1 == bytes
  {
    I32Redone(bytes);
    var (variant, r1) := DecodeI32(bytes).value;
    if variant == 1 {
      U32Redone(r1);
      var (pid, r2) := DecodeU32(r1).value;
      U64Redone(r2);
      var (windowId, r3) := DecodeU64(r2).value;
      Regroup3(EncodeI32(1), EncodeU32(pid), EncodeU64(windowId), r3);
    } else {
      TextRedone(r1);
      var (displayId, r2) := DecodeText(r1).value;
      Regroup2(EncodeI32(2), EncodeText(displayId), r2);
    }
  }

  // Whole buffers

  /** A buffer lifts to an action result exactly when it is the one the result lowers to, so
      no two buffers that are accepted carry equal results. */
  lemma ActionResultExactly(v: ActionResult, bytes: Bytes)
    ensures Lift(DecodeResult, bytes) == Ok(v) <==> bytes == EncodeResult(v)
  {
    forall x: ActionResult, rest ensures DecodeResult(EncodeResult(x) + rest) == Ok((x, rest)) {
      ResultUndone(x, rest);
    }
    forall b | DecodeResult(b).Ok?
      ensures EncodeResult(DecodeResult(b).value.0) + DecodeResult(b).value.1 == b
    {
      ResultRedone(b);
    }
    LiftExactly(EncodeResult, DecodeResult, v, bytes);
  }

  lemma ActionTargetExactly(v: ActionTarget, bytes: Bytes)
    ensures Lift(DecodeTarget, bytes) == Ok(v) <==> bytes == EncodeTarget(v)
  {
    forall x: ActionTarget, rest ensures DecodeTarget(EncodeTarget(x) + rest) == Ok((x, rest)) {
      TargetUndone(x, rest);
    }
    forall b | DecodeTarget(b).Ok?
      ensures EncodeTarget(DecodeTarget(b).value.0) + DecodeTarget(b).value.1 == b
    {
      TargetRedone(b);
    }
    LiftExactly(EncodeTarget, DecodeTarget, v, bytes);
  }
}
