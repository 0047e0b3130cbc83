/** The converters for `ActionResult` and `ActionTarget` as they run, on the builder and the
    stream. */
module ActionConverters {
  import opened Wrappers
  import opened Bytes
  import opened RustBuffer
  import opened Codec
  import opened ActionCodec
  import opened StateConverters

  // Enumerations

  method WriteEffect(v: ActionEffect, buf: Builder)
    requires buf.Valid()
    modifies buf, buf.data
    ensures Appended(buf, EncodeEffect(v))
  {
    Widths();
    match v {
      case Confirmed => WriteI32(1, buf);
      case Partial => WriteI32(2, buf);
      case Unverifiable => WriteI32(3, buf);
      case SuspectedNoop => WriteI32(4, buf);
      case Refused => WriteI32(5, buf);
    }
  }

  method ReadEffect(s: Stream) returns (result: Result<ActionEffect, ReadError>)
    requires s.Valid()
    modifies s
    ensures Consumed(s, result, DecodeEffect)
  {
    var variant :- ReadI32(s);
    if variant == 1 {
      return Ok(Confirmed);
    } else if variant == 2 {
      return Ok(Partial);
    } else if variant == 3 {
      return Ok(Unverifiable);
    } else if variant == 4 {
      return Ok(SuspectedNoop);
    } else if variant == 5 {
      return Ok(Refused);
    }
    return Err(UnknownVariant);
  }

  method WriteRoute(v: ActionRoute, buf: Builder)
    requires buf.Valid()
    modifies buf, buf.data
    ensures Appended(buf, EncodeRoute(v))
  {
    Widths();
    match v {
      case Accessibility => WriteI32(1, buf);
      case SyntheticEvents => WriteI32(2, buf);
      case GlobalInput => WriteI32(3, buf);
      case SystemApi => WriteI32(4, buf);
      case Dom => WriteI32(5, buf);
      case TrustedInput => WriteI32(6, buf);
    }
  }

  method ReadRoute(s: Stream) returns (result: Result<ActionRoute, ReadError>)
    requires s.Valid()
    modifies s
    ensures Consumed(s, result, DecodeRoute)
  {
    var variant :- ReadI32(s);
    if variant == 1 {
      return Ok(Accessibility);
    } else if variant == 2 {
      return Ok(SyntheticEvents);
    } else if variant == 3 {
      return Ok(GlobalInput);
    } else if variant == 4 {
      return Ok(SystemApi);
    } else if variant == 5 {
      return Ok(Dom);
    } else if variant == 6 {
      return Ok(TrustedInput);
    }
    return Err(UnknownVariant);
  }

  method WriteDeliveryMode(v: ActionDeliveryMode, buf: Builder)
    requires buf.Valid()
    modifies buf, buf.data
    ensures Appended(buf, EncodeDeliveryMode(v))
  {
    Widths();
    match v {
      case Background => WriteI32(1, buf);
      case Foreground => WriteI32(2, buf);
      case NotApplicable => WriteI32(3, buf);
      case Unknown => WriteI32(4, buf);
    }
  }

  method ReadDeliveryMode(s: Stream) returns (result: Result<ActionDeliveryMode, ReadError>)
    requires s.Valid()
    modifies s
    ensures Consumed(s, result, DecodeDeliveryMode)
  {
    var variant :- ReadI32(s);
    if variant == 1 {
      return Ok(Background);
    } else if variant == 2 {
      return Ok(Foreground);
    } else if variant == 3 {
      return Ok(NotApplicable);
    } else if variant == 4 {
      return Ok(Unknown);
    }
    return Err(UnknownVariant);
  }

  method WriteEscalationTarget(v: ActionEscalationTarget, buf: Builder)
    requires buf.Valid()
    modifies buf, buf.data
    ensures Appended(buf, EncodeEscalationTarget(v))
  {
    Widths();
    match v {
      case Pixel => WriteI32(1, buf);
      case ForegroundTarget => WriteI32(2, buf);
      case Page => WriteI32(3, buf);
      case Session => WriteI32(4, buf);
    }
  }

  method ReadEscalationTarget(s: Stream) returns (result: Result<ActionEscalationTarget, ReadError>)
    requires s.Valid()
    modifies s
    ensures Consumed(s, result, DecodeEscalationTarget)
  {
    var variant :- ReadI32(s);
    if variant == 1 {
      return Ok(Pixel);
    } else if variant == 2 {
      return Ok(ForegroundTarget);
    } else if variant == 3 {
      return Ok(Page);
    } else if variant == 4 {
      return Ok(Session);
    }
    return Err(UnknownVariant);
  }

  method WriteEscalationReason(v: ActionEscalationReason, buf: Builder)
    requires buf.Valid()
    modifies buf, buf.data
    ensures Appended(buf, EncodeEscalationReason(v))
  {
    Widths();
    match v {
      case RouteUnavailable => WriteI32(1, buf);
      case DeliveryFailed => WriteI32(2, buf);
      case EffectUnconfirmed => WriteI32(3, buf);
      case NoopSuspected => WriteI32(4, buf);
      case PermissionRequired => WriteI32(5, buf);
    }
  }

  method ReadEscalationReason(s: Stream) returns (result: Result<ActionEscalationReason, ReadError>)
    requires s.Valid()
    modifies s
    ensures Consumed(s, result, DecodeEscalationReason)
  {
    var variant :- ReadI32(s);
    if variant == 1 {
      return Ok(RouteUnavailable);
    } else if variant == 2 {
      return Ok(DeliveryFailed);
    } else if variant == 3 {
      return Ok(EffectUnconfirmed);
    } else if variant == 4 {
      return Ok(NoopSuspected);
    } else if variant == 5 {
      return Ok(PermissionRequired);
    }
    return Err(UnknownVariant);
  }

  method WriteEvidenceKind(v: ActionEvidenceKind, buf: Builder)
    requires buf.Valid()
    modifies buf, buf.data
    ensures Appended(buf, EncodeEvidenceKind(v))
  {
    Widths();
    match v {
      case ValueReadback => WriteI32(1, buf);
      case WindowChange => WriteI32(2, buf);
    }
  }

  method ReadEvidenceKind(s: Stream) returns (result: Result<ActionEvidenceKind, ReadError>)
    requires s.Valid()
    modifies s
    ensures Consumed(s, result, DecodeEvidenceKind)
  {
    var variant :- ReadI32(s);
    if variant == 1 {
      return Ok(ValueReadback);
    } else if variant == 2 {
      return Ok(WindowChange);
    }
    return Err(UnknownVariant);
  }

  // Unsigned 32-bit integers

  method WriteU32(v: U32, buf: Builder)
    requires buf.Valid()
    modifies buf, buf.data
    ensures Appended(buf, EncodeU32(v))
  {
    buf.Write(Pack(4, v));
  }

  method ReadU32(s: Stream) returns (result: Result<U32, ReadError>)
    requires s.Valid()
    modifies s
    ensures Consumed(s, result, DecodeU32)
  {
    Widths();
    var packed :- s.Read(4);
    return Ok(Unpack(packed));
  }

  // Optional values, records and lists

  method WriteOptionalU32(v: Option<U32>, buf: Builder)
    requires buf.Valid()
    modifies buf, buf.data
    ensures Appended(buf, EncodeOptionalU32(v))
  {
    if v == None {
      WriteU8(0, buf);
      return;
    }
    WriteU8(1, buf);
    WriteU32(v.value, buf);
    Regroup2(old(buf.Contents()), EncodeU8(1), EncodeU32(v.value));
  }

  method ReadOptionalU32(s: Stream) returns (result: Result<Option<U32>, ReadError>)
    requires s.Valid()
    modifies s
    ensures Consumed(s, result, DecodeOptionalU32)
  {
    var flag :- ReadU8(s);
    if flag == 0 {
      return Ok(None);
    } else if flag == 1 {
      var v :- ReadU32(s);
      return Ok(Some(v));
    } else {
      return Err(UnexpectedFlag);
    }
  }

  method WriteDelivery(v: ActionDelivery, buf: Builder)
    requires buf.Valid()
    modifies buf, buf.data
    ensures Appended(buf, EncodeDelivery(v))
  {
    WriteDeliveryMode(v.mode, buf);
    WriteOptionalU32(v.deliveredCount, buf);
    Regroup2(old(buf.Contents()), EncodeDeliveryMode(v.mode), EncodeOptionalU32(v.deliveredCount));
  }

  method ReadDelivery(s: Stream) returns (result: Result<ActionDelivery, ReadError>)
    requires s.Valid()
    modifies s
    ensures Consumed(s, result, DecodeDelivery)
  {
    var mode :- ReadDeliveryMode(s);
    var deliveredCount :- ReadOptionalU32(s);
    return Ok(ActionDelivery(mode, deliveredCount));
  }

  method WriteOptionalDelivery(v: Option<ActionDelivery>, buf: Builder)
    requires buf.Valid()
    modifies buf, buf.data
    ensures Appended(buf, EncodeOptionalDelivery(v))
  {
    if v == None {
      WriteU8(0, buf);
      return;
    }
    WriteU8(1, buf);
    WriteDelivery(v.value, buf);
    Regroup2(old(buf.Contents()), EncodeU8(1), EncodeDelivery(v.value));
  }

  method ReadOptionalDelivery(s: Stream) returns (result: Result<Option<ActionDelivery>, ReadError>)
    requires s.Valid()
    modifies s
    ensures Consumed(s, result, DecodeOptionalDelivery)
  {
    var flag :- ReadU8(s);
    if flag == 0 {
      return Ok(None);
    } else if flag == 1 {
      var v :- ReadDelivery(s);
      return Ok(Some(v));
    } else {
      return Err(UnexpectedFlag);
    }
  }

  method WriteEscalation(v: ActionEscalation, buf: Builder)
    requires buf.Valid()
    modifies buf, buf.data
    ensures Appended(buf, EncodeEscalation(v))
  {
    WriteEscalationTarget(v.target, buf);
    WriteEscalationReason(v.reason, buf);
    Regroup2(old(buf.Contents()), EncodeEscalationTarget(v.target), EncodeEscalationReason(v.reason));
  }

  method ReadEscalation(s: Stream) returns (result: Result<ActionEscalation, ReadError>)
    requires s.Valid()
    modifies s
    ensures Consumed(s, result, DecodeEscalation)
  {
    var target :- ReadEscalationTarget(s);
    var reason :- ReadEscalationReason(s);
    return Ok(ActionEscalation(target, reason));
  }

  method WriteOptionalEscalation(v: Option<ActionEscalation>, buf: Builder)
    requires buf.Valid()
    modifies buf, buf.data
    ensures Appended(buf, EncodeOptionalEscalation(v))
  {
    if v == None {
      WriteU8(0, buf);
      return;
    }
    WriteU8(1, buf);
    WriteEscalation(v.value, buf);
    Regroup2(old(buf.Contents()), EncodeU8(1), EncodeEscalation(v.value));
  }

  method ReadOptionalEscalation(s: Stream) returns (result: Result<Option<ActionEscalation>, ReadError>)
    requires s.Valid()
    modifies s
    ensures Consumed(s, result, DecodeOptionalEscalation)
  {
    var flag :- ReadU8(s);
    if flag == 0 {
      return Ok(None);
    } else if flag == 1 {
      var v :- ReadEscalation(s);
      return Ok(Some(v));
    } else {
      return Err(UnexpectedFlag);
    }
  }

  method WriteEvidence(v: ActionEvidence, buf: Builder)
    requires buf.Valid()
    modifies buf, buf.data
    ensures Appended(buf, EncodeEvidence(v))
  {
    WriteEvidenceKind(v.kind, buf);
  }

  method ReadEvidence(s: Stream) returns (result: Result<ActionEvidence, ReadError>)
    requires s.Valid()
    modifies s
    ensures Consumed(s, result, DecodeEvidence)
  {
    var kind :- ReadEvidenceKind(s);
    return Ok(ActionEvidence(kind));
  }

  method WriteListEvidence(v: List<ActionEvidence>, buf: Builder)
    requires buf.Valid()
    modifies buf, buf.data
    ensures Appended(buf, EncodeListEvidence(v))
  {
    Widths();
    WriteI32(|v|, buf);
    ghost var before := buf.Contents();
    for i := 0 to |v|
      invariant buf.Valid() && (buf.data == old(buf.data) || fresh(buf.data))
      invariant buf.Contents() == before + EncodeItems(EncodeEvidence, v[..i])
    {
      ItemsGrow(EncodeEvidence, v, i, before);
      WriteEvidence(v[i], buf);
    }
    assert v[..|v|] == v;
    Regroup2(old(buf.Contents()), EncodeI32(|v|), EncodeItems(EncodeEvidence, v));
  }

  method ReadListEvidence(s: Stream) returns (result: Result<List<ActionEvidence>, ReadError>)
    requires s.Valid()
    modifies s
    ensures Consumed(s, result, DecodeListEvidence)
  {
    Widths();
    var count :- ReadI32(s);
    if count < 0 {
      return Err(NegativeLength);
    }
    var items :- ReadEvidences(count, s);
    return Ok(items);
  }

  /** The comprehension that reads `count` items. */
  method ReadEvidences(count: nat, s: Stream) returns (result: Result<seq<ActionEvidence>, ReadError>)
    requires s.Valid()
    modifies s
    ensures s.Valid() && Follows(result, s.Left(), DecodeItems(DecodeEvidence, count, old(s.Left())))
  {
    var items: seq<ActionEvidence> := [];
    ResumeStart(DecodeItems(DecodeEvidence, count, s.Left()));
    for i := 0 to count
      invariant s.Valid() && |items| == i
      invariant DecodeItems(DecodeEvidence, count, old(s.Left()))
                == Resumed(items, DecodeItems(DecodeEvidence, count - i, s.Left()))
    {
      ResumeStep(DecodeEvidence, items, count - i, s.Left());
      var item :- ReadEvidence(s);
      items := items + [item];
    }
    assert items + [] == items;
    return Ok(items);
  }

  method WriteOptionalListEvidence(v: Option<List<ActionEvidence>>, buf: Builder)
    requires buf.Valid()
    modifies buf, buf.data
    ensures Appended(buf, EncodeOptionalListEvidence(v))
  {
    if v == None {
      WriteU8(0, buf);
      return;
    }
    WriteU8(1, buf);
    WriteListEvidence(v.value, buf);
    Regroup2(old(buf.Contents()), EncodeU8(1), EncodeListEvidence(v.value));
  }

  method ReadOptionalListEvidence(s: Stream) returns (result: Result<Option<List<ActionEvidence>>, ReadError>)
    requires s.Valid()
    modifies s
    ensures Consumed(s, result, DecodeOptionalListEvidence)
  {
    var flag :- ReadU8(s);
    if flag == 0 {
      return Ok(None);
    } else if flag == 1 {
      var v :- ReadListEvidence(s);
      return Ok(Some(v));
    } else {
      return Err(UnexpectedFlag);
    }
  }

  method WriteResult(v: ActionResult, buf: Builder)
    requires buf.Valid()
    modifies buf, buf.data
    ensures Appended(buf, EncodeResult(v))
  {
    ghost var before := buf.Contents();
    WriteEffect(v.effect, buf);
    WriteRoute(v.route, buf);
    WriteOptionalDelivery(v.delivery, buf);
    WriteOptionalListEvidence(v.evidence, buf);
    WriteOptionalEscalation(v.escalation, buf);
    Collect5(before, EncodeEffect(v.effect), EncodeRoute(v.route), EncodeOptionalDelivery(v.delivery),
             EncodeOptionalListEvidence(v.evidence), EncodeOptionalEscalation(v.escalation));
  }

  method ReadResult(s: Stream) returns (result: Result<ActionResult, ReadError>)
    requires s.Valid()
    modifies s
    ensures Consumed(s, result, DecodeResult)
  {
    var effect :- ReadEffect(s);
    var route :- ReadRoute(s);
    var delivery :- ReadOptionalDelivery(s);
    var evidence :- ReadOptionalListEvidence(s);
    var escalation :- ReadOptionalEscalation(s);
    return Ok(ActionResult(effect, route, delivery, evidence, escalation));
  }

  // A tagged union

  method WriteTarget(v: ActionTarget, buf: Builder)
    requires buf.Valid()
    modifies buf, buf.data
    ensures Appended(buf, EncodeTarget(v))
  {
    Widths();
    ghost var before := buf.Contents();
    match v {
      case WindowTarget(pid, windowId) =>
        WriteI32(1, buf);
        WriteU32(pid, buf);
        WriteU64(windowId, buf);
        Collect3(before, EncodeI32(1), EncodeU32(pid), EncodeU64(windowId));
      case DesktopTarget(displayId) =>
        WriteI32(2, buf);
        WriteText(displayId, buf);
        Regroup2(before, EncodeI32(2), EncodeText(displayId));
    }
  }

  method ReadTarget(s: Stream) returns (result: Result<ActionTarget, ReadError>)
    requires s.Valid()
    modifies s
    ensures Consumed(s, result, DecodeTarget)
  {
    var variant :- ReadI32(s);
    if variant == 1 {
      var pid :- ReadU32(s);
      var windowId :- ReadU64(s);
      return Ok(WindowTarget(pid, windowId));
    } else if variant == 2 {
      var displayId :- ReadText(s);
      return Ok(DesktopTarget(displayId));
    }
    return Err(UnknownVariant);
  }

  // Whole buffers

  method LowerResult(v: ActionResult) returns (bytes: Bytes)
    ensures Lift(DecodeResult, bytes) == Ok(v)
    ensures forall other: Bytes :: Lift(DecodeResult, other) == Ok(v) ==> other == bytes
  {
    var builder := new Builder();
    WriteResult(v, builder);
    bytes := builder.data[..builder.len];
    forall other: Bytes ensures Lift(DecodeResult, other) == Ok(v) <==> other == bytes {
      ActionResultExactly(v, other);
    }
  }

  method LiftResult(bytes: Bytes) returns (result: Result<ActionResult, ReadError>)
    ensures result == Lift(DecodeResult, bytes)
    ensures result.Ok? ==> bytes == EncodeResult(result.value)
  {
    var stream := new Stream(bytes);
    var v :- ReadResult(stream);
    var remaining := stream.Remaining();
    if remaining != 0 {
      return Err(JunkLeft);
    }
    ActionResultExactly(v, bytes);
    return Ok(v);
  }

  method LowerTarget(v: ActionTarget) returns (bytes: Bytes)
    ensures Lift(DecodeTarget, bytes) == Ok(v)
    ensures forall other: Bytes :: Lift(DecodeTarget, other) == Ok(v) ==> other == bytes
  {
    var builder := new Builder();
    WriteTarget(v, builder);
    bytes := builder.data[..builder.len];
    forall other: Bytes ensures Lift(DecodeTarget, other) == Ok(v) <==> other == bytes {
      ActionTargetExactly(v, other);
    }
  }

  method LiftTarget(bytes: Bytes) returns (result: Result<ActionTarget, ReadError>)
    ensures result == Lift(DecodeTarget, bytes)
    ensures result.Ok? ==> bytes == EncodeTarget(result.value)
  {
    var stream := new Stream(bytes);
    var v :- ReadTarget(stream);
    var remaining := stream.Remaining();
    if remaining != 0 {
      return Err(JunkLeft);
    }
    ActionTargetExactly(v, bytes);
    return Ok(v);
  }
}
