/** The converters for `VerifyStateInput`: a list of optional records of optional records. */
module StateCodec {
  import opened Wrappers
  import opened Bytes
  import opened RustBuffer
  import opened Codec

  datatype BoundsExpectation =
    BoundsExpectation(x: F64, y: F64, width: F64, height: F64, tolerancePx: Option<F64>)

  datatype WindowPredicate =
    WindowPredicate(present: Option<bool>, bounds: Option<BoundsExpectation>)

  datatype ElementSelector =
    ElementSelector(role: Option<Text>, labelContains: Option<Text>)

  datatype ElementPredicate = ElementPredicate(
    selector: ElementSelector,
    present: Option<bool>,
    valueEquals: Option<Text>,
    enabled: Option<bool>,
    selected: Option<bool>
  )

  datatype StatePredicate =
    StatePredicate(window: Option<WindowPredicate>, element: Option<ElementPredicate>)

  datatype VerifyStateInput = VerifyStateInput(
    pid: I64,
    windowId: U64,
    expected: List<StatePredicate>,
    session: Option<Text>,
    timeoutMs: Option<U64>,
    stableSamples: Option<U64>,
    includeScreenshot: Option<bool>
  )

  function EncodeOptionalBool(v: Option<bool>): Bytes {
    EncodeOptional(EncodeBool, v)
  }

  function DecodeOptionalBool(bytes: Bytes): Decoded<Option<bool>> {
    DecodeOptional(DecodeBool, bytes)
  }

  lemma OptionalBoolUndone(v: Option<bool>, rest: Bytes)
    ensures DecodeOptionalBool(EncodeOptionalBool(v) + rest) == Ok((v, rest))
  {
    forall x: bool, left ensures DecodeBool(EncodeBool(x) + left) == Ok((x, left)) {
      BoolUndone(x, left);
    }
    OptionalInverse(EncodeBool, DecodeBool, v, rest);
  }

  function EncodeOptionalF64(v: Option<F64>): Bytes {
    EncodeOptional(EncodeF64, v)
  }

  function DecodeOptionalF64(bytes: Bytes): Decoded<Option<F64>> {
    DecodeOptional(DecodeF64, bytes)
  }

  lemma OptionalF64Undone(v: Option<F64>, rest: Bytes)
    ensures DecodeOptionalF64(EncodeOptionalF64(v) + rest) == Ok((v, rest))
  {
    forall x: F64, left ensures DecodeF64(EncodeF64(x) + left) == Ok((x, left)) {
      F64Undone(x, left);
    }
    OptionalInverse(EncodeF64, DecodeF64, v, rest);
  }

  function EncodeOptionalU64(v: Option<U64>): Bytes {
    EncodeOptional(EncodeU64, v)
  }

  function DecodeOptionalU64(bytes: Bytes): Decoded<Option<U64>> {
    DecodeOptional(DecodeU64, bytes)
  }

  lemma OptionalU64Undone(v: Option<U64>, rest: Bytes)
    ensures DecodeOptionalU64(EncodeOptionalU64(v) + rest) == Ok((v, rest))
  {
    forall x: U64, left ensures DecodeU64(EncodeU64(x) + left) == Ok((x, left)) {
      U64Undone(x, left);
    }
    OptionalInverse(EncodeU64, DecodeU64, v, rest);
  }

  function EncodeOptionalText(v: Option<Text>): Bytes {
    EncodeOptional(EncodeText, v)
  }

  function DecodeOptionalText(bytes: Bytes): Decoded<Option<Text>> {
    DecodeOptional(DecodeText, bytes)
  }

  lemma OptionalTextUndone(v: Option<Text>, rest: Bytes)
    ensures DecodeOptionalText(EncodeOptionalText(v) + rest) == Ok((v, rest))
  {
    forall x: Text, left ensures DecodeText(EncodeText(x) + left) == Ok((x, left)) {
      TextUndone(x, left);
    }
    OptionalInverse(EncodeText, DecodeText, v, rest);
  }

  function EncodeBounds(v: BoundsExpectation): Bytes {
    EncodeF64(v.x)
    + EncodeF64(v.y)
    + EncodeF64(v.width)
    + EncodeF64(v.height)
    + EncodeOptionalF64(v.tolerancePx)
  }

  function DecodeBounds(bytes: Bytes): Decoded<BoundsExpectation> {
    var (x, r1) :- DecodeF64(bytes);
    var (y, r2) :- DecodeF64(r1);
    var (width, r3) :- DecodeF64(r2);
    var (height, r4) :- DecodeF64(r3);
    var (tolerancePx, r5) :- DecodeOptionalF64(r4);
    Ok((BoundsExpectation(x, y, width, height, tolerancePx), r5))
  }

  lemma BoundsUndone(v: BoundsExpectation, rest: Bytes)
    ensures DecodeBounds(EncodeBounds(v) + rest) == Ok((v, rest))
  {
    var r4 := EncodeOptionalF64(v.tolerancePx) + rest;
    var r3 := EncodeF64(v.height) + r4;
    var r2 := EncodeF64(v.width) + r3;
    var r1 := EncodeF64(v.y) + r2;
    Regroup5(EncodeF64(v.x), EncodeF64(v.y), EncodeF64(v.width), EncodeF64(v.height),
             EncodeOptionalF64(v.tolerancePx), rest);
    F64Undone(v.x, r1);
    F64Undone(v.y, r2);
    F64Undone(v.width, r3);
    F64Undone(v.height, r4);
    OptionalF64Undone(v.tolerancePx, rest);
  }

  function EncodeOptionalBounds(v: Option<BoundsExpectation>): Bytes {
    EncodeOptional(EncodeBounds, v)
  }

  function DecodeOptionalBounds(bytes: Bytes): Decoded<Option<BoundsExpectation>> {
    DecodeOptional(DecodeBounds, bytes)
  }

  lemma OptionalBoundsUndone(v: Option<BoundsExpectation>, rest: Bytes)
    ensures DecodeOptionalBounds(EncodeOptionalBounds(v) + rest) == Ok((v, rest))
  {
    forall x: BoundsExpectation, left ensures DecodeBounds(EncodeBounds(x) + left) == Ok((x, left)) {
      BoundsUndone(x, left);
    }
    OptionalInverse(EncodeBounds, DecodeBounds, v, rest);
  }

  function EncodeWindow(v: WindowPredicate): Bytes {
    EncodeOptionalBool(v.present)
    + EncodeOptionalBounds(v.bounds)
  }

  function DecodeWindow(bytes: Bytes): Decoded<WindowPredicate> {
    var (present, r1) :- DecodeOptionalBool(bytes);
    var (bounds, r2) :- DecodeOptionalBounds(r1);
    Ok((WindowPredicate(present, bounds), r2))
  }

  lemma WindowUndone(v: WindowPredicate, rest: Bytes)
    ensures DecodeWindow(EncodeWindow(v) + rest) == Ok((v, rest))
  {
    var r1 := EncodeOptionalBounds(v.bounds) + rest;
    Regroup2(EncodeOptionalBool(v.present), EncodeOptionalBounds(v.bounds), rest);
    OptionalBoolUndone(v.present, r1);
    OptionalBoundsUndone(v.bounds, rest);
  }

  function EncodeOptionalWindow(v: Option<WindowPredicate>): Bytes {
    EncodeOptional(EncodeWindow, v)
  }

  function DecodeOptionalWindow(bytes: Bytes): Decoded<Option<WindowPredicate>> {
    DecodeOptional(DecodeWindow, bytes)
  }

  lemma OptionalWindowUndone(v: Option<WindowPredicate>, rest: Bytes)
    ensures DecodeOptionalWindow(EncodeOptionalWindow(v) + rest) == Ok((v, rest))
  {
    forall x: WindowPredicate, left ensures DecodeWindow(EncodeWindow(x) + left) == Ok((x, left)) {
      WindowUndone(x, left);
    }
    OptionalInverse(EncodeWindow, DecodeWindow, v, rest);
  }

  function EncodeSelector(v: ElementSelector): Bytes {
    EncodeOptionalText(v.role)
    + EncodeOptionalText(v.labelContains)
  }

  function DecodeSelector(bytes: Bytes): Decoded<ElementSelector> {
    var (role, r1) :- DecodeOptionalText(bytes);
    var (labelContains, r2) :- DecodeOptionalText(r1);
    Ok((ElementSelector(role, labelContains), r2))
  }

  lemma SelectorUndone(v: ElementSelector, rest: Bytes)
    ensures DecodeSelector(EncodeSelector(v) + rest) == Ok((v, rest))
  {
    var r1 := EncodeOptionalText(v.labelContains) + rest;
    Regroup2(EncodeOptionalText(v.role), EncodeOptionalText(v.labelContains), rest);
    OptionalTextUndone(v.role, r1);
    OptionalTextUndone(v.labelContains, rest);
  }

  function EncodeElement(v: ElementPredicate): Bytes {
    EncodeSelector(v.selector)
    + EncodeOptionalBool(v.present)
    + EncodeOptionalText(v.valueEquals)
    + EncodeOptionalBool(v.enabled)
    + EncodeOptionalBool(v.selected)
  }

  function DecodeElement(bytes: Bytes): Decoded<ElementPredicate> {
    var (selector, r1) :- DecodeSelector(bytes);
    var (present, r2) :- DecodeOptionalBool(r1);
    var (valueEquals, r3) :- DecodeOptionalText(r2);
    var (enabled, r4) :- DecodeOptionalBool(r3);
    var (selected, r5) :- DecodeOptionalBool(r4);
    Ok((ElementPredicate(selector, present, valueEquals, enabled, selected), r5))
  }

  lemma ElementUndone(v: ElementPredicate, rest: Bytes)
    ensures DecodeElement(EncodeElement(v) + rest) == Ok((v, rest))
  {
    var r4 := EncodeOptionalBool(v.selected) + rest;
    var r3 := EncodeOptionalBool(v.enabled) + r4;
    var r2 := EncodeOptionalText(v.valueEquals) + r3;
    var r1 := EncodeOptionalBool(v.present) + r2;
    Regroup5(EncodeSelector(v.selector), EncodeOptionalBool(v.present), EncodeOptionalText(v.valueEquals),
             EncodeOptionalBool(v.enabled), EncodeOptionalBool(v.selected), rest);
    SelectorUndone(v.selector, r1);
    OptionalBoolUndone(v.present, r2);
    OptionalTextUndone(v.valueEquals, r3);
    OptionalBoolUndone(v.enabled, r4);
    OptionalBoolUndone(v.selected, rest);
  }

  function EncodeOptionalElement(v: Option<ElementPredicate>): Bytes {
    EncodeOptional(EncodeElement, v)
  }

  function DecodeOptionalElement(bytes: Bytes): Decoded<Option<ElementPredicate>> {
    DecodeOptional(DecodeElement, bytes)
  }

  lemma OptionalElementUndone(v: Option<ElementPredicate>, rest: Bytes)
    ensures DecodeOptionalElement(EncodeOptionalElement(v) + rest) == Ok((v, rest))
  {
    forall x: ElementPredicate, left ensures DecodeElement(EncodeElement(x) + left) == Ok((x, left)) {
      ElementUndone(x, left);
    }
    OptionalInverse(EncodeElement, DecodeElement, v, rest);
  }

  function EncodePredicate(v: StatePredicate): Bytes {
    EncodeOptionalWindow(v.window)
    + EncodeOptionalElement(v.element)
  }

  function DecodePredicate(bytes: Bytes): Decoded<StatePredicate> {
    var (window, r1) :- DecodeOptionalWindow(bytes);
    var (element, r2) :- DecodeOptionalElement(r1);
    Ok((StatePredicate(window, element), r2))
  }

  lemma PredicateUndone(v: StatePredicate, rest: Bytes)
    ensures DecodePredicate(EncodePredicate(v) + rest) == Ok((v, rest))
  {
    var r1 := EncodeOptionalElement(v.element) + rest;
    Regroup2(EncodeOptionalWindow(v.window), EncodeOptionalElement(v.element), rest);
    OptionalWindowUndone(v.window, r1);
    OptionalElementUndone(v.element, rest);
  }

  function EncodeListPredicate(v: List<StatePredicate>): Bytes {
    EncodeList(EncodePredicate, v)
  }

  function DecodeListPredicate(bytes: Bytes): Decoded<List<StatePredicate>> {
    DecodeList(DecodePredicate, bytes)
  }

  lemma {:induction false} ListPredicateUndone(v: List<StatePredicate>, rest: Bytes)
    ensures DecodeListPredicate(EncodeListPredicate(v) + rest) == Ok((v, rest))
  {
    forall x: StatePredicate, left ensures DecodePredicate(EncodePredicate(x) + left) == Ok((x, left)) {
      PredicateUndone(x, left);
    }
    ListInverse(EncodePredicate, DecodePredicate, v, rest);
  }

  /** All fields but the last. */
  function EncodeVerifyStateHead(v: VerifyStateInput): Bytes {
    EncodeI64(v.pid)
    + EncodeU64(v.windowId)
    + EncodeListPredicate(v.expected)
    + EncodeOptionalText(v.session)
    + EncodeOptionalU64(v.timeoutMs)
    + EncodeOptionalU64(v.stableSamples)
  }

  function EncodeVerifyState(v: VerifyStateInput): Bytes {
    EncodeVerifyStateHead(v) + EncodeOptionalBool(v.includeScreenshot)
  }

  function DecodeVerifyState(bytes: Bytes): Decoded<VerifyStateInput> {
    var (pid, r1) :- DecodeI64(bytes);
    var (windowId, r2) :- DecodeU64(r1);
    var (expected, r3) :- DecodeListPredicate(r2);
    var (session, r4) :- DecodeOptionalText(r3);
    var (timeoutMs, r5) :- DecodeOptionalU64(r4);
    var (stableSamples, r6) :- DecodeOptionalU64(r5);
    var (includeScreenshot, r7) :- DecodeOptionalBool(r6);
    Ok((VerifyStateInput(pid, windowId, expected, session, timeoutMs, stableSamples, includeScreenshot), r7))
  }

  /** Whatever bytes stand for the last field, the others are read back before them. */
  lemma VerifyStateTail(v: VerifyStateInput, tail: Bytes, rest: Bytes)
    requires DecodeOptionalBool(tail) == Ok((v.includeScreenshot, rest))
    ensures DecodeVerifyState(EncodeVerifyStateHead(v) + tail) == Ok((v, rest))
  {
    var r5 := EncodeOptionalU64(v.stableSamples) + tail;
    var r4 := EncodeOptionalU64(v.timeoutMs) + r5;
    var r3 := EncodeOptionalText(v.session) + r4;
    var r2 := EncodeListPredicate(v.expected) + r3;
    var r1 := EncodeU64(v.windowId) + r2;
    Regroup6(EncodeI64(v.pid), EncodeU64(v.windowId), EncodeListPredicate(v.expected),
             EncodeOptionalText(v.session), EncodeOptionalU64(v.timeoutMs),
             EncodeOptionalU64(v.stableSamples), tail);
    I64Undone(v.pid, r1);
    U64Undone(v.windowId, r2);
    ListPredicateUndone(v.expected, r3);
    OptionalTextUndone(v.session, r4);
    OptionalU64Undone(v.timeoutMs, r5);
    OptionalU64Undone(v.stableSamples, tail);
  }

  lemma VerifyStateUndone(v: VerifyStateInput, rest: Bytes)
    ensures DecodeVerifyState(EncodeVerifyState(v) + rest) == Ok((v, rest))
  {
    var head, last := EncodeVerifyStateHead(v), EncodeOptionalBool(v.includeScreenshot);
    OptionalBoolUndone(v.includeScreenshot, rest);
    VerifyStateTail(v, last + rest, rest);
    Regroup2(head, last, rest);
  }

  // Whole buffers

  /** `lift` undoes `lower`, and its check for junk never fires. */
  lemma VerifyStateRoundTrip(v: VerifyStateInput)
    ensures Lift(DecodeVerifyState, EncodeVerifyState(v)) == Ok(v)
  {
    forall x: VerifyStateInput, rest
      ensures DecodeVerifyState(EncodeVerifyState(x) + rest) == Ok((x, rest))
    {
      VerifyStateUndone(x, rest);
    }
    LiftUndoesLower(EncodeVerifyState, DecodeVerifyState, v);
  }

  /** Unlike an action result, this record has several encodings: any non-zero byte stands
      for `True`. */
  lemma VerifyStateNotCanonical(v: VerifyStateInput, truthy: Byte)
    requires v.includeScreenshot == Some(true) && truthy > 1
    ensures var bytes := EncodeVerifyStateHead(v) + [1, truthy];
            bytes != EncodeVerifyState(v) && Lift(DecodeVerifyState, bytes) == Ok(v)
  {
    var head, tail := EncodeVerifyStateHead(v), [1 as Byte, truthy];
    assert EncodeU8(1) == [1];
    assert tail == EncodeU8(1) + [truthy];
    U8Undone(1, [truthy]);
    assert [truthy] + [] == [truthy];
    BoolCanonicalExactly(truthy, []);
    VerifyStateTail(v, tail, []);
    assert (head + tail)[|head| + 1] == truthy;
    assert EncodeVerifyState(v) == head + (EncodeU8(1) + EncodeU8(1));
  }
}
