/** The bytes that the other side of the boundary sees: which byte says what, independently of
    how the converters are put together. */
module WireFormat {
  import opened Wrappers
  import opened Bytes
  import opened RustBuffer
  import opened Codec
  import opened ActionCodec
  import StateCodec

  /** Four bytes, most significant first. */
  function FourBytes(n: nat): Bytes
    requires n < 0x1_0000_0000
  {
    [n / 0x100_0000, n / 0x1_0000 % 256, n / 256 % 256, n % 256]
  }

  function EightBytes(n: nat): Bytes
    requires n < 0x1_0000_0000_0000_0000
  {
    [
      n / 0x100_0000_0000_0000, n / 0x1_0000_0000_0000 % 256, n / 0x100_0000_0000 % 256, n / 0x1_0000_0000 % 256,
      n / 0x100_0000 % 256, n / 0x1_0000 % 256, n / 256 % 256, n % 256
    ]
  }

  lemma U64Format(n: U64)
    ensures EncodeU64(n) == EightBytes(n)
  {
    var a, b, c, d := n / 256, n / 0x1_0000, n / 0x100_0000, n / 0x1_0000_0000;
    assert a / 256 == b && b / 256 == c && c / 256 == d;
    PackFour(d);
    UpperBytes(n);
    assert Pack(5, c) == Pack(4, d) + [c % 256];
    assert Pack(6, b) == Pack(5, c) + [b % 256];
    assert Pack(7, a) == Pack(6, b) + [a % 256];
    assert Pack(8, n) == Pack(7, a) + [n % 256];
  }

  lemma UpperBytes(n: nat)
    ensures var d := n / 0x1_0000_0000;
            && d / 0x100_0000 == n / 0x100_0000_0000_0000
            && d / 0x1_0000 == n / 0x1_0000_0000_0000
            && d / 256 == n / 0x100_0000_0000
  {
  }

  /** A negative number is its distance from 2^64. */
  lemma I64Format(n: I64)
    ensures EncodeI64(n) == EightBytes(if n < 0 then n + 0x1_0000_0000_0000_0000 else n)
  {
    Widths();
    U64Format(if n < 0 then n + 0x1_0000_0000_0000_0000 else n);
  }

  /** Absent is a zero, present a one and the value. */
  lemma OptionalFormat<T>(enc: T -> Bytes, x: T)
    ensures EncodeOptional(enc, None) == [0]
    ensures EncodeOptional(enc, Some(x)) == [1] + enc(x)
  {
    assert EncodeU8(0) == [0] && EncodeU8(1) == [1];
  }

  lemma BoolFormat()
    ensures EncodeBool(false) == [0] && EncodeBool(true) == [1]
  {
  }

  /** The length in bytes, and the bytes. */
  lemma TextFormat(s: Text)
    ensures EncodeText(s) == FourBytes(|s|) + s
  {
    Widths();
    BigEndian(|s|);
  }

  /** The number of items, and the items one after the other. */
  lemma ListFormat<T>(enc: T -> Bytes, items: List<T>)
    ensures EncodeList(enc, items) == FourBytes(|items|) + EncodeItems(enc, items)
  {
    Widths();
    BigEndian(|items|);
  }

  lemma ItemsFormat<T>(enc: T -> Bytes, first: T, second: T)
    ensures EncodeItems(enc, []) == []
    ensures EncodeItems(enc, [first, second]) == enc(first) + enc(second)
  {
    assert [first, second][1..] == [second] && [second][1..] == [];
    assert EncodeItems(enc, []) == [] && EncodeItems(enc, [second]) == enc(second);
  }

  // Action results

  /** A small number in four bytes. */
  function Small(n: int): Bytes
    requires 0 <= n < 256
  {
    [0, 0, 0, n]
  }

  lemma SmallFormat(n: int)
    requires 0 <= n < 256
    ensures FitsSigned(4, n) && EncodeI32(n) == Small(n)
  {
    Widths();
    PackFour(n);
  }

  lemma TagFormat<T>(tag: T -> Tag, v: T)
    ensures EncodeEnum(tag, v) == Small(tag(v))
  {
    SmallFormat(tag(v));
  }

  // The numbers of the variants, in the order in which the bindings list them

  lemma EffectFormat()
    ensures EncodeEffect(Confirmed) == [0, 0, 0, 1]
    ensures EncodeEffect(Partial) == [0, 0, 0, 2]
    ensures EncodeEffect(Unverifiable) == [0, 0, 0, 3]
    ensures EncodeEffect(SuspectedNoop) == [0, 0, 0, 4]
    ensures EncodeEffect(Refused) == [0, 0, 0, 5]
  {
    TagFormat(EffectTag, Confirmed);
    TagFormat(EffectTag, Partial);
    TagFormat(EffectTag, Unverifiable);
    TagFormat(EffectTag, SuspectedNoop);
    TagFormat(EffectTag, Refused);
  }

  lemma RouteFormat()
    ensures EncodeRoute(Accessibility) == [0, 0, 0, 1]
    ensures EncodeRoute(SyntheticEvents) == [0, 0, 0, 2]
    ensures EncodeRoute(GlobalInput) == [0, 0, 0, 3]
    ensures EncodeRoute(SystemApi) == [0, 0, 0, 4]
    ensures EncodeRoute(Dom) == [0, 0, 0, 5]
    ensures EncodeRoute(TrustedInput) == [0, 0, 0, 6]
  {
    TagFormat(RouteTag, Accessibility);
    TagFormat(RouteTag, SyntheticEvents);
    TagFormat(RouteTag, GlobalInput);
    TagFormat(RouteTag, SystemApi);
    TagFormat(RouteTag, Dom);
    TagFormat(RouteTag, TrustedInput);
  }

  lemma DeliveryModeFormat()
    ensures EncodeDeliveryMode(Background) == [0, 0, 0, 1]
    ensures EncodeDeliveryMode(Foreground) == [0, 0, 0, 2]
    ensures EncodeDeliveryMode(NotApplicable) == [0, 0, 0, 3]
    ensures EncodeDeliveryMode(Unknown) == [0, 0, 0, 4]
  {
    TagFormat(DeliveryModeTag, Background);
    TagFormat(DeliveryModeTag, Foreground);
    TagFormat(DeliveryModeTag, NotApplicable);
    TagFormat(DeliveryModeTag, Unknown);
  }

  lemma EscalationTargetFormat()
    ensures EncodeEscalationTarget(Pixel) == [0, 0, 0, 1]
    ensures EncodeEscalationTarget(ForegroundTarget) == [0, 0, 0, 2]
    ensures EncodeEscalationTarget(Page) == [0, 0, 0, 3]
    ensures EncodeEscalationTarget(Session) == [0, 0, 0, 4]
  {
    TagFormat(EscalationTargetTag, Pixel);
    TagFormat(EscalationTargetTag, ForegroundTarget);
    TagFormat(EscalationTargetTag, Page);
    TagFormat(EscalationTargetTag, Session);
  }

  lemma EscalationReasonFormat()
    ensures EncodeEscalationReason(RouteUnavailable) == [0, 0, 0, 1]
    ensures EncodeEscalationReason(DeliveryFailed) == [0, 0, 0, 2]
    ensures EncodeEscalationReason(EffectUnconfirmed) == [0, 0, 0, 3]
    ensures EncodeEscalationReason(NoopSuspected) == [0, 0, 0, 4]
    ensures EncodeEscalationReason(PermissionRequired) == [0, 0, 0, 5]
  {
    TagFormat(EscalationReasonTag, RouteUnavailable);
    TagFormat(EscalationReasonTag, DeliveryFailed);
    TagFormat(EscalationReasonTag, EffectUnconfirmed);
    TagFormat(EscalationReasonTag, NoopSuspected);
    TagFormat(EscalationReasonTag, PermissionRequired);
  }

  lemma EvidenceKindFormat()
    ensures EncodeEvidenceKind(ValueReadback) == [0, 0, 0, 1]
    ensures EncodeEvidenceKind(WindowChange) == [0, 0, 0, 2]
  {
    TagFormat(EvidenceKindTag, ValueReadback);
    TagFormat(EvidenceKindTag, WindowChange);
  }

  /** The target before the reason. */
  lemma EscalationFormat()
    ensures EncodeEscalation(ActionEscalation(Page, NoopSuspected)) == [0, 0, 0, 3, 0, 0, 0, 4]
  {
    EscalationTargetFormat();
    EscalationReasonFormat();
  }

  lemma OptionalU32Format(n: U32)
    ensures EncodeOptionalU32(Some(n)) == [1] + FourBytes(n) && EncodeOptionalU32(None) == [0]
  {
    OptionalFormat(EncodeU32, n);
    BigEndian(n);
  }

  /** The mode before the count. */
  lemma DeliveryFormat(count: U32)
    ensures EncodeDelivery(ActionDelivery(Foreground, Some(count))) == [0, 0, 0, 2] + ([1] + FourBytes(count))
    ensures EncodeDelivery(ActionDelivery(Foreground, None)) == [0, 0, 0, 2, 0]
  {
    DeliveryModeFormat();
    OptionalU32Format(count);
  }

  /** Two pieces of evidence. */
  lemma EvidenceFormat()
    ensures EncodeListEvidence([ActionEvidence(WindowChange), ActionEvidence(ValueReadback)])
            == [0, 0, 0, 2, 0, 0, 0, 2, 0, 0, 0, 1]
  {
    EvidenceKindFormat();
    var first, second := ActionEvidence(WindowChange), ActionEvidence(ValueReadback);
    ItemsFormat(EncodeEvidence, first, second);
    ListFormat(EncodeEvidence, [first, second]);
  }

  /** Effect, route, delivery, evidence and escalation, each optional one behind its flag. */
  lemma ResultFormat(delivery: ActionDelivery, evidence: List<ActionEvidence>, escalation: ActionEscalation)
    ensures EncodeResult(ActionResult(Partial, Dom, Some(delivery), Some(evidence), Some(escalation)))
            == [0, 0, 0, 2] + [0, 0, 0, 5] + ([1] + EncodeDelivery(delivery))
               + ([1] + EncodeListEvidence(evidence)) + ([1] + EncodeEscalation(escalation))
    ensures EncodeResult(ActionResult(Partial, Dom, None, None, None)) == [0, 0, 0, 2, 0, 0, 0, 5, 0, 0, 0]
  {
    EffectFormat();
    RouteFormat();
    OptionalFormat(EncodeDelivery, delivery);
    OptionalFormat<List<ActionEvidence>>(EncodeListEvidence, evidence);
    OptionalFormat(EncodeEscalation, escalation);
  }

  /** A window is a one, the process in four bytes and the window in eight. */
  lemma WindowTargetFormat(pid: U32, windowId: U64)
    ensures EncodeTarget(WindowTarget(pid, windowId)) == [0, 0, 0, 1] + FourBytes(pid) + EightBytes(windowId)
  {
    SmallFormat(1);
    BigEndian(pid);
    U64Format(windowId);
  }

  /** The desktop is a two and the name of the display. */
  lemma DesktopTargetFormat(displayId: Text)
    ensures EncodeTarget(DesktopTarget(displayId)) == [0, 0, 0, 2] + (FourBytes(|displayId|) + displayId)
  {
    SmallFormat(2);
    TextFormat(displayId);
  }

  // State to verify

  /** Four doubles of eight bytes each, and an optional fifth. */
  lemma BoundsFormat(x: F64, y: F64, width: F64, height: F64, tolerance: F64)
    ensures StateCodec.EncodeBounds(StateCodec.BoundsExpectation(x, y, width, height, Some(tolerance)))
            == x + y + width + height + [1] + tolerance
    ensures StateCodec.EncodeBounds(StateCodec.BoundsExpectation(x, y, width, height, None))
            == x + y + width + height + [0]
  {
    OptionalFormat(EncodeF64, tolerance);
    var four := x + y + width + height;
    assert four + ([1] + tolerance) == four + [1] + tolerance;
  }

  const ROLE: Text := [0x72]
  const LABEL: Text := [0x6C]
  const VALUE: Text := [0x76]

  lemma Letters()
    ensures EncodeText(ROLE) == [0, 0, 0, 1, 0x72]
    ensures EncodeText(LABEL) == [0, 0, 0, 1, 0x6C]
    ensures EncodeText(VALUE) == [0, 0, 0, 1, 0x76]
  {
    TextFormat(ROLE);
    TextFormat(LABEL);
    TextFormat(VALUE);
  }

  /** The role and the label of an element. */
  lemma SelectorFormat()
    ensures StateCodec.EncodeSelector(StateCodec.ElementSelector(Some(ROLE), Some(LABEL)))
            == [1, 0, 0, 0, 1, 0x72, 1, 0, 0, 0, 1, 0x6C]
  {
    Letters();
    OptionalFormat(EncodeText, ROLE);
    OptionalFormat(EncodeText, LABEL);
  }

  lemma OptionalBoolFormat()
    ensures StateCodec.EncodeOptionalBool(None) == [0]
    ensures StateCodec.EncodeOptionalBool(Some(false)) == [1, 0]
    ensures StateCodec.EncodeOptionalBool(Some(true)) == [1, 1]
  {
    BoolFormat();
    OptionalFormat(EncodeBool, false);
    OptionalFormat(EncodeBool, true);
  }

  /** Selector, presence, value, and whether it is enabled and selected. */
  lemma ElementFormat()
    ensures StateCodec.EncodeElement(StateCodec.ElementPredicate(
                                       StateCodec.ElementSelector(Some(ROLE), Some(LABEL)),
                                       Some(true), Some(VALUE), Some(false), None))
            == [1, 0, 0, 0, 1, 0x72, 1, 0, 0, 0, 1, 0x6C] + [1, 1] + [1, 0, 0, 0, 1, 0x76] + [1, 0] + [0]
  {
    SelectorFormat();
    OptionalBoolFormat();
    Letters();
    OptionalFormat(EncodeText, VALUE);
  }

  /** Presence before bounds. */
  lemma WindowFormat()
    ensures StateCodec.EncodeWindow(StateCodec.WindowPredicate(Some(true), None)) == [1, 1, 0]
  {
    OptionalBoolFormat();
    EmptyOptionals();
  }

  lemma EmptyOptionals()
    ensures StateCodec.EncodeOptionalBounds(None) == [0]
    ensures StateCodec.EncodeOptionalWindow(None) == [0]
    ensures StateCodec.EncodeOptionalElement(None) == [0]
    ensures StateCodec.EncodeOptionalText(None) == [0]
    ensures StateCodec.EncodeOptionalU64(None) == [0]
  {
    assert EncodeU8(0) == [0];
  }

  /** The window before the element. */
  lemma PredicateFormat()
    ensures StateCodec.EncodePredicate(
              StateCodec.StatePredicate(Some(StateCodec.WindowPredicate(Some(true), None)), None)) == [1, 1, 1, 0, 0]
  {
    WindowFormat();
    EmptyOptionals();
    OptionalFormat(StateCodec.EncodeWindow, StateCodec.WindowPredicate(Some(true), None));
  }

  /** Process, window, expectations, session, time limit, samples, and the screenshot last. */
  lemma VerifyStateFormat(pid: I64, windowId: U64, timeoutMs: U64, stableSamples: U64)
    ensures StateCodec.EncodeVerifyState(StateCodec.VerifyStateInput(
                                           pid, windowId, [], Some(VALUE), Some(timeoutMs), Some(stableSamples),
                                           Some(true)))
            == EightBytes(if pid < 0 then pid + 0x1_0000_0000_0000_0000 else pid) + EightBytes(windowId)
               + [0, 0, 0, 0] + [1, 0, 0, 0, 1, 0x76]
               + ([1] + EightBytes(timeoutMs)) + ([1] + EightBytes(stableSamples)) + [1, 1]
  {
    I64Format(pid);
    U64Format(windowId);
    ListFormat(StateCodec.EncodePredicate, []);
    assert EncodeItems(StateCodec.EncodePredicate, []) == [];
    Letters();
    OptionalFormat(EncodeText, VALUE);
    U64Format(timeoutMs);
    U64Format(stableSamples);
    OptionalFormat(EncodeU64, timeoutMs);
    OptionalFormat(EncodeU64, stableSamples);
    OptionalBoolFormat();
    assert StateCodec.EncodeListPredicate([]) == [0, 0, 0, 0];
  }

  // What is refused

  /** Too few bytes, a length below zero, bytes that are no text, a flag above one, a number
      of no variant, and bytes that are left over. */
  lemma RefusalFormat(n: Byte, rest: Bytes, s: Bytes)
    ensures |rest| < 4 ==> DecodeI32(rest) == Err(PastEnd)
    ensures DecodeText([0, 0, 0, 1]) == Err(PastEnd)
    ensures DecodeText([255, 255, 255, 255] + rest) == Err(NegativeLength)
    ensures |s| < 256 && !IsUtf8(s) ==> DecodeText(Small(|s|) + s + rest) == Err(InvalidUtf8)
    ensures n > 1 ==> StateCodec.DecodeOptionalBool([n] + rest) == Err(UnexpectedFlag)
    ensures n > 5 ==> DecodeEffect(Small(n) + rest) == Err(UnknownVariant)
    ensures n > 2 ==> DecodeTarget(Small(n) + rest) == Err(UnknownVariant)
    ensures rest != [] ==> Lift(DecodeU8, [n] + rest) == Err(JunkLeft)
  {
    Widths();
    SmallFormat(n);
    SmallFormat(1);
    BigEndian(0);
    I32Undone(1, []);
    I32Undone(-1, rest);
    I32Undone(n, rest);
    assert Small(1) + [] == Small(1);
    assert EncodeU8(n) == [n];
    U8Undone(n, rest);
    if |s| < 256 {
      SmallFormat(|s|);
      I32Undone(|s|, s + rest);
      Regroup2(Small(|s|), s, rest);
      SplitAppend(s, rest);
    }
  }
}
