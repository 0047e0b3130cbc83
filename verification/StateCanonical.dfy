/** Which buffers are the encoding of the `VerifyStateInput` they lift to: exactly those in
    which every boolean is written as 0 or 1. */
module StateCanonical {
  import opened Wrappers
  import opened Bytes
  import opened RustBuffer
  import opened Codec
  import opened StateCodec

  /** Of `bytes` all but `rest` were consumed; they are `written`, byte for byte, exactly if
      `standard`. */
  ghost predicate Reads(bytes: Bytes, written: Bytes, rest: Bytes, standard: bool) {
    && |written| + |rest| == |bytes|
    && rest == bytes[|written|..]
    && (written + rest == bytes <==> standard)
  }

  lemma ReadsNothing(bytes: Bytes)
    ensures Reads(bytes, [], bytes, true)
  {
    assert [] + bytes == bytes;
  }

  lemma ReadsOn(bytes: Bytes, a: Bytes, middle: Bytes, standard: bool, b: Bytes, rest: Bytes, more: bool)
    requires Reads(bytes, a, middle, standard) && Reads(middle, b, rest, more)
    ensures Reads(bytes, a + b, rest, standard && more)
  {
    Regroup2(a, b, rest);
    if a + (b + rest) == bytes {
      assert middle == bytes[|a|..] == b + rest;
    }
  }

  lemma ReadsCanonically(bytes: Bytes, written: Bytes, rest: Bytes)
    requires written + rest == bytes
    ensures Reads(bytes, written, rest, true)
  {
  }

  /** Whether what `dec` consumes is what `enc` writes can be told by `standard`. */
  ghost predicate Exactly<T(!new)>(enc: T -> Bytes, dec: Bytes -> Decoded<T>, standard: Bytes -> bool) {
    forall bytes: Bytes :: dec(bytes).Ok? ==>
      Reads(bytes, enc(dec(bytes).value.0), dec(bytes).value.1, standard(bytes))
  }

  // Booleans, options and lists

  /** The byte of a boolean is 0 or 1. */
  predicate StandardBool(bytes: Bytes) {
    bytes != [] && bytes[0] <= 1
  }

  lemma BoolReads(bytes: Bytes)
    requires DecodeBool(bytes).Ok?
    ensures Reads(bytes, EncodeBool(DecodeBool(bytes).value.0), DecodeBool(bytes).value.1, StandardBool(bytes))
  {
    U8Redone(bytes);
    var (n, rest) := DecodeU8(bytes).value;
    assert EncodeU8(n) == [n] && bytes == [n] + rest;
    var flag: Byte := if n != 0 then 1 else 0;
    assert EncodeU8(flag) == [flag];
    assert ([flag] + rest)[0] == flag;
  }

  predicate StandardOptional<T>(standard: Bytes -> bool, bytes: Bytes) {
    match DecodeU8(bytes)
    case Ok((flag, rest)) => flag == 1 ==> standard(rest)
    case Err(_) => false
  }

  lemma OptionalReads<T(!new)>(enc: T -> Bytes, dec: Bytes -> Decoded<T>, standard: Bytes -> bool, bytes: Bytes)
    requires Exactly(enc, dec, standard) && DecodeOptional(dec, bytes).Ok?
    ensures var (v, rest) := DecodeOptional(dec, bytes).value;
            Reads(bytes, EncodeOptional(enc, v), rest, StandardOptional<T>(standard, bytes))
  {
    U8Redone(bytes);
    var (flag, rest) := DecodeU8(bytes).value;
    ReadsCanonically(bytes, EncodeU8(flag), rest);
    if flag == 1 {
      var (x, left) := dec(rest).value;
      ReadsOn(bytes, EncodeU8(1), rest, true, enc(x), left, standard(rest));
    }
  }

  predicate StandardItems<T>(dec: Bytes -> Decoded<T>, standard: Bytes -> bool, count: nat, bytes: Bytes) {
    count == 0
    || (standard(bytes) && dec(bytes).Ok? && StandardItems(dec, standard, count - 1, dec(bytes).value.1))
  }

  lemma {:induction false} ItemsRead<T(!new)>(
      enc: T -> Bytes, dec: Bytes -> Decoded<T>, standard: Bytes -> bool, count: nat, bytes: Bytes)
    requires Exactly(enc, dec, standard) && DecodeItems(dec, count, bytes).Ok?
    ensures var (items, left) := DecodeItems(dec, count, bytes).value;
            Reads(bytes, EncodeItems(enc, items), left, StandardItems(dec, standard, count, bytes))
    decreases count
  {
    if count == 0 {
      ReadsNothing(bytes);
    } else {
      var (x, rest) := dec(bytes).value;
      ItemsRead(enc, dec, standard, count - 1, rest);
      var (items, left) := DecodeItems(dec, count - 1, rest).value;
      assert ([x] + items)[1..] == items;
      ReadsOn(bytes, enc(x), rest, standard(bytes), EncodeItems(enc, items), left,
              StandardItems(dec, standard, count - 1, rest));
    }
  }

  predicate StandardList<T>(dec: Bytes -> Decoded<T>, standard: Bytes -> bool, bytes: Bytes) {
    match DecodeI32(bytes)
    case Ok((count, rest)) => count >= 0 && StandardItems(dec, standard, count, rest)
    case Err(_) => false
  }

  lemma ListReads<T(!new)>(enc: T -> Bytes, dec: Bytes -> Decoded<T>, standard: Bytes -> bool, bytes: Bytes)
    requires Exactly(enc, dec, standard) && DecodeList(dec, bytes).Ok?
    ensures var (v, rest) := DecodeList(dec, bytes).value;
            Reads(bytes, EncodeList(enc, v), rest, StandardList(dec, standard, bytes))
  {
    I32Redone(bytes);
    var (count, rest) := DecodeI32(bytes).value;
    ReadsCanonically(bytes, EncodeI32(count), rest);
    ItemsRead(enc, dec, standard, count, rest);
    var (items, left) := DecodeItems(dec, count, rest).value;
    ReadsOn(bytes, EncodeI32(count), rest, true, EncodeItems(enc, items), left,
            StandardItems(dec, standard, count, rest));
  }

  // Records without booleans

  lemma F64Reads(bytes: Bytes)
    requires DecodeF64(bytes).Ok?
    ensures Reads(bytes, EncodeF64(DecodeF64(bytes).value.0), DecodeF64(bytes).value.1, true)
  {
    assert bytes == bytes[..8] + bytes[8..];
  }

  lemma I64Reads(bytes: Bytes)
    requires DecodeI64(bytes).Ok?
    ensures Reads(bytes, EncodeI64(DecodeI64(bytes).value.0), DecodeI64(bytes).value.1, true)
  {
    Widths();
    UnsignedRedone(8, bytes);
    ReadsCanonically(bytes, EncodeI64(DecodeI64(bytes).value.0), DecodeI64(bytes).value.1);
  }

  lemma U64Reads(bytes: Bytes)
    requires DecodeU64(bytes).Ok?
    ensures Reads(bytes, EncodeU64(DecodeU64(bytes).value.0), DecodeU64(bytes).value.1, true)
  {
    U64Redone(bytes);
    ReadsCanonically(bytes, EncodeU64(DecodeU64(bytes).value.0), DecodeU64(bytes).value.1);
  }

  lemma TextReads(bytes: Bytes)
    requires DecodeText(bytes).Ok?
    ensures Reads(bytes, EncodeText(DecodeText(bytes).value.0), DecodeText(bytes).value.1, true)
  {
    TextRedone(bytes);
    ReadsCanonically(bytes, EncodeText(DecodeText(bytes).value.0), DecodeText(bytes).value.1);
  }

  /** All bytes are standard. */
  predicate Any(bytes: Bytes) {
    true
  }

  lemma AnyOptional<T(!new)>(enc: T -> Bytes, dec: Bytes -> Decoded<T>, bytes: Bytes)
    requires Exactly(enc, dec, Any) && DecodeOptional(dec, bytes).Ok?
    ensures var (v, rest) := DecodeOptional(dec, bytes).value;
            Reads(bytes, EncodeOptional(enc, v), rest, true)
  {
    OptionalReads(enc, dec, Any, bytes);
    assert StandardOptional<T>(Any, bytes);
  }

  lemma OptionalF64Reads(bytes: Bytes)
    requires DecodeOptionalF64(bytes).Ok?
    ensures var (v, rest) := DecodeOptionalF64(bytes).value; Reads(bytes, EncodeOptionalF64(v), rest, true)
  {
    forall b: Bytes | DecodeF64(b).Ok?
      ensures Reads(b, EncodeF64(DecodeF64(b).value.0), DecodeF64(b).value.1, Any(b))
    {
      F64Reads(b);
    }
    AnyOptional(EncodeF64, DecodeF64, bytes);
  }

  lemma OptionalU64Reads(bytes: Bytes)
    requires DecodeOptionalU64(bytes).Ok?
    ensures var (v, rest) := DecodeOptionalU64(bytes).value; Reads(bytes, EncodeOptionalU64(v), rest, true)
  {
    forall b: Bytes | DecodeU64(b).Ok?
      ensures Reads(b, EncodeU64(DecodeU64(b).value.0), DecodeU64(b).value.1, Any(b))
    {
      U64Reads(b);
    }
    AnyOptional(EncodeU64, DecodeU64, bytes);
  }

  lemma OptionalTextReads(bytes: Bytes)
    requires DecodeOptionalText(bytes).Ok?
    ensures var (v, rest) := DecodeOptionalText(bytes).value; Reads(bytes, EncodeOptionalText(v), rest, true)
  {
    forall b: Bytes | DecodeText(b).Ok?
      ensures Reads(b, EncodeText(DecodeText(b).value.0), DecodeText(b).value.1, Any(b))
    {
      TextReads(b);
    }
    AnyOptional(EncodeText, DecodeText, bytes);
  }

  lemma BoundsReads(bytes: Bytes)
    requires DecodeBounds(bytes).Ok?
    ensures var (v, rest) := DecodeBounds(bytes).value; Reads(bytes, EncodeBounds(v), rest, true)
  {
    var (x, r1) := DecodeF64(bytes).value;
    var (y, r2) := DecodeF64(r1).value;
    var (width, r3) := DecodeF64(r2).value;
    var (height, r4) := DecodeF64(r3).value;
    var (tolerancePx, r5) := DecodeOptionalF64(r4).value;
    F64Reads(bytes);
    F64Reads(r1);
    F64Reads(r2);
    F64Reads(r3);
    OptionalF64Reads(r4);
    ReadsOn(bytes, EncodeF64(x), r1, true, EncodeF64(y), r2, true);
    ReadsOn(bytes, EncodeF64(x) + EncodeF64(y), r2, true, EncodeF64(width), r3, true);
    ReadsOn(bytes, EncodeF64(x) + EncodeF64(y) + EncodeF64(width), r3, true, EncodeF64(height), r4, true);
    ReadsOn(bytes, EncodeF64(x) + EncodeF64(y) + EncodeF64(width) + EncodeF64(height), r4, true,
            EncodeOptionalF64(tolerancePx), r5, true);
  }

  lemma OptionalBoundsReads(bytes: Bytes)
    requires DecodeOptionalBounds(bytes).Ok?
    ensures var (v, rest) := DecodeOptionalBounds(bytes).value; Reads(bytes, EncodeOptionalBounds(v), rest, true)
  {
    forall b: Bytes | DecodeBounds(b).Ok?
      ensures Reads(b, EncodeBounds(DecodeBounds(b).value.0), DecodeBounds(b).value.1, Any(b))
    {
      BoundsReads(b);
    }
    AnyOptional(EncodeBounds, DecodeBounds, bytes);
  }

  lemma SelectorReads(bytes: Bytes)
    requires DecodeSelector(bytes).Ok?
    ensures var (v, rest) := DecodeSelector(bytes).value; Reads(bytes, EncodeSelector(v), rest, true)
  {
    var (role, r1) := DecodeOptionalText(bytes).value;
    var (labelContains, r2) := DecodeOptionalText(r1).value;
    OptionalTextReads(bytes);
    OptionalTextReads(r1);
    ReadsOn(bytes, EncodeOptionalText(role), r1, true, EncodeOptionalText(labelContains), r2, true);
  }

  // Records with booleans

  predicate StandardOptionalBool(bytes: Bytes) {
    StandardOptional<bool>(StandardBool, bytes)
  }

  lemma OptionalBoolReads(bytes: Bytes)
    requires DecodeOptionalBool(bytes).Ok?
    ensures var (v, rest) := DecodeOptionalBool(bytes).value;
            Reads(bytes, EncodeOptionalBool(v), rest, StandardOptionalBool(bytes))
  {
    forall b: Bytes | DecodeBool(b).Ok?
      ensures Reads(b, EncodeBool(DecodeBool(b).value.0), DecodeBool(b).value.1, StandardBool(b))
    {
      BoolReads(b);
    }
    OptionalReads(EncodeBool, DecodeBool, StandardBool, bytes);
  }

  predicate StandardWindow(bytes: Bytes) {
    StandardOptionalBool(bytes)
  }

  lemma WindowReads(bytes: Bytes)
    requires DecodeWindow(bytes).Ok?
    ensures var (v, rest) := DecodeWindow(bytes).value;
            Reads(bytes, EncodeWindow(v), rest, StandardWindow(bytes))
  {
    var (present, r1) := DecodeOptionalBool(bytes).value;
    var (bounds, r2) := DecodeOptionalBounds(r1).value;
    OptionalBoolReads(bytes);
    OptionalBoundsReads(r1);
    ReadsOn(bytes, EncodeOptionalBool(present), r1, StandardOptionalBool(bytes),
            EncodeOptionalBounds(bounds), r2, true);
  }

  predicate StandardOptionalWindow(bytes: Bytes) {
    StandardOptional<WindowPredicate>(StandardWindow, bytes)
  }

  lemma OptionalWindowReads(bytes: Bytes)
    requires DecodeOptionalWindow(bytes).Ok?
    ensures var (v, rest) := DecodeOptionalWindow(bytes).value;
            Reads(bytes, EncodeOptionalWindow(v), rest, StandardOptionalWindow(bytes))
  {
    forall b: Bytes | DecodeWindow(b).Ok?
      ensures Reads(b, EncodeWindow(DecodeWindow(b).value.0), DecodeWindow(b).value.1, StandardWindow(b))
    {
      WindowReads(b);
    }
    OptionalReads(EncodeWindow, DecodeWindow, StandardWindow, bytes);
  }

  /** Its three booleans are standard, each where the fields before it end. */
  predicate StandardElement(bytes: Bytes) {
    match DecodeSelector(bytes)
    case Err(_) => false
    case Ok((_, r1)) =>
      match DecodeOptionalBool(r1)
      case Err(_) => false
      case Ok((_, r2)) =>
        match DecodeOptionalText(r2)
        case Err(_) => false
        case Ok((_, r3)) =>
          match DecodeOptionalBool(r3)
          case Err(_) => false
          case Ok((_, r4)) =>
            StandardOptionalBool(r1) && StandardOptionalBool(r3) && StandardOptionalBool(r4)
  }

  lemma ElementReads(bytes: Bytes)
    ensures DecodeElement(bytes).Ok? ==>
              var (v, rest) := DecodeElement(bytes).value;
              Reads(bytes, EncodeElement(v), rest, StandardElement(bytes))
  {
    if DecodeElement(bytes).Ok? {
      var (selector, r1) := DecodeSelector(bytes).value;
      var (present, r2) := DecodeOptionalBool(r1).value;
      var (valueEquals, r3) := DecodeOptionalText(r2).value;
      var (enabled, r4) := DecodeOptionalBool(r3).value;
      var (selected, r5) := DecodeOptionalBool(r4).value;
      SelectorReads(bytes);
      OptionalBoolReads(r1);
      OptionalTextReads(r2);
      OptionalBoolReads(r3);
      OptionalBoolReads(r4);
      var a := EncodeSelector(selector);
      var b := a + EncodeOptionalBool(present);
      var c := b + EncodeOptionalText(valueEquals);
      var d := c + EncodeOptionalBool(enabled);
      ReadsOn(bytes, a, r1, true, EncodeOptionalBool(present), r2, StandardOptionalBool(r1));
      ReadsOn(bytes, b, r2, StandardOptionalBool(r1), EncodeOptionalText(valueEquals), r3, true);
      ReadsOn(bytes, c, r3, StandardOptionalBool(r1), EncodeOptionalBool(enabled), r4, StandardOptionalBool(r3));
      ReadsOn(bytes, d, r4, StandardOptionalBool(r1) && StandardOptionalBool(r3),
              EncodeOptionalBool(selected), r5, StandardOptionalBool(r4));
    }
  }

  predicate StandardOptionalElement(bytes: Bytes) {
    StandardOptional<ElementPredicate>(StandardElement, bytes)
  }

  lemma OptionalElementReads(bytes: Bytes)
    requires DecodeOptionalElement(bytes).Ok?
    ensures var (v, rest) := DecodeOptionalElement(bytes).value;
            Reads(bytes, EncodeOptionalElement(v), rest, StandardOptionalElement(bytes))
  {
    forall b: Bytes | DecodeElement(b).Ok?
      ensures Reads(b, EncodeElement(DecodeElement(b).value.0), DecodeElement(b).value.1, StandardElement(b))
    {
      ElementReads(b);
    }
    OptionalReads(EncodeElement, DecodeElement, StandardElement, bytes);
  }

  predicate StandardPredicate(bytes: Bytes) {
    match DecodeOptionalWindow(bytes)
    case Err(_) => false
    case Ok((_, r1)) => StandardOptionalWindow(bytes) && StandardOptionalElement(r1)
  }

  lemma PredicateReads(bytes: Bytes)
    ensures DecodePredicate(bytes).Ok? ==>
              var (v, rest) := DecodePredicate(bytes).value;
              Reads(bytes, EncodePredicate(v), rest, StandardPredicate(bytes))
  {
    if DecodePredicate(bytes).Ok? {
      var (window, r1) := DecodeOptionalWindow(bytes).value;
      var (element, r2) := DecodeOptionalElement(r1).value;
      OptionalWindowReads(bytes);
      OptionalElementReads(r1);
      ReadsOn(bytes, EncodeOptionalWindow(window), r1, StandardOptionalWindow(bytes),
              EncodeOptionalElement(element), r2, StandardOptionalElement(r1));
    }
  }

  predicate StandardListPredicate(bytes: Bytes) {
    StandardList(DecodePredicate, StandardPredicate, bytes)
  }

  lemma ListPredicateReads(bytes: Bytes)
    ensures DecodeListPredicate(bytes).Ok? ==>
              var (v, rest) := DecodeListPredicate(bytes).value;
              Reads(bytes, EncodeListPredicate(v), rest, StandardListPredicate(bytes))
  {
    if DecodeListPredicate(bytes).Ok? {
      forall b: Bytes | DecodePredicate(b).Ok?
        ensures Reads(b, EncodePredicate(DecodePredicate(b).value.0), DecodePredicate(b).value.1, StandardPredicate(b))
      {
        PredicateReads(b);
      }
      ListReads(EncodePredicate, DecodePredicate, StandardPredicate, bytes);
    }
  }

  // The whole record

  /** Where the list of predicates begins, and where the last field. */
  function BehindHead(bytes: Bytes): Decoded<Bytes> {
    var (pid, r1) :- DecodeI64(bytes);
    var (windowId, r2) :- DecodeU64(r1);
    var (expected, r3) :- DecodeListPredicate(r2);
    var (session, r4) :- DecodeOptionalText(r3);
    var (timeoutMs, r5) :- DecodeOptionalU64(r4);
    var (stableSamples, r6) :- DecodeOptionalU64(r5);
    Ok((r2, r6))
  }

  /** Every boolean in the list of predicates and in the last field is written as 0 or 1. */
  predicate StandardVerifyState(bytes: Bytes) {
    match BehindHead(bytes)
    case Err(_) => false
    case Ok((list, last)) => StandardListPredicate(list) && StandardOptionalBool(last)
  }

  lemma FirstFieldsRead(bytes: Bytes)
    ensures DecodeVerifyState(bytes).Ok? ==>
              var (pid, r1) := DecodeI64(bytes).value;
              var (windowId, r2) := DecodeU64(r1).value;
              var (expected, r3) := DecodeListPredicate(r2).value;
              Reads(bytes, EncodeI64(pid) + EncodeU64(windowId) + EncodeListPredicate(expected), r3,
                    StandardListPredicate(r2))
  {
    if DecodeVerifyState(bytes).Ok? {
      var (pid, r1) := DecodeI64(bytes).value;
      var (windowId, r2) := DecodeU64(r1).value;
      var (expected, r3) := DecodeListPredicate(r2).value;
      I64Reads(bytes);
      U64Reads(r1);
      ListPredicateReads(r2);
      ReadsOn(bytes, EncodeI64(pid), r1, true, EncodeU64(windowId), r2, true);
      ReadsOn(bytes, EncodeI64(pid) + EncodeU64(windowId), r2, true, EncodeListPredicate(expected), r3,
              StandardListPredicate(r2));
    }
  }

  lemma NextFieldsRead(bytes: Bytes, head: Bytes, r3: Bytes, standard: bool)
    requires Reads(bytes, head, r3, standard)
    requires DecodeOptionalText(r3).Ok? && DecodeOptionalU64(DecodeOptionalText(r3).value.1).Ok?
    requires DecodeOptionalU64(DecodeOptionalU64(DecodeOptionalText(r3).value.1).value.1).Ok?
    ensures var (session, r4) := DecodeOptionalText(r3).value;
            var (timeoutMs, r5) := DecodeOptionalU64(r4).value;
            var (stableSamples, r6) := DecodeOptionalU64(r5).value;
            Reads(bytes, head + EncodeOptionalText(session) + EncodeOptionalU64(timeoutMs)
                         + EncodeOptionalU64(stableSamples), r6, standard)
  {
    var (session, r4) := DecodeOptionalText(r3).value;
    var (timeoutMs, r5) := DecodeOptionalU64(r4).value;
    var (stableSamples, r6) := DecodeOptionalU64(r5).value;
    OptionalTextReads(r3);
    OptionalU64Reads(r4);
    OptionalU64Reads(r5);
    var a := head + EncodeOptionalText(session);
    ReadsOn(bytes, head, r3, standard, EncodeOptionalText(session), r4, true);
    ReadsOn(bytes, a, r4, standard, EncodeOptionalU64(timeoutMs), r5, true);
    ReadsOn(bytes, a + EncodeOptionalU64(timeoutMs), r5, standard, EncodeOptionalU64(stableSamples), r6, true);
  }

  lemma HeadDecodes(bytes: Bytes) returns (r1: Bytes, r2: Bytes, r3: Bytes, r4: Bytes, r5: Bytes, r6: Bytes)
    ensures DecodeVerifyState(bytes).Ok? ==>
              var (v, rest) := DecodeVerifyState(bytes).value;
              && DecodeI64(bytes) == Ok((v.pid, r1))
              && DecodeU64(r1) == Ok((v.windowId, r2))
              && DecodeListPredicate(r2) == Ok((v.expected, r3))
              && DecodeOptionalText(r3) == Ok((v.session, r4))
              && DecodeOptionalU64(r4) == Ok((v.timeoutMs, r5))
              && DecodeOptionalU64(r5) == Ok((v.stableSamples, r6))
              && DecodeOptionalBool(r6) == Ok((v.includeScreenshot, rest))
  {
    r1, r2, r3, r4, r5, r6 := [], [], [], [], [], [];
    if DecodeVerifyState(bytes).Ok? {
      r1 := DecodeI64(bytes).value.1;
      r2 := DecodeU64(r1).value.1;
      r3 := DecodeListPredicate(r2).value.1;
      r4 := DecodeOptionalText(r3).value.1;
      r5 := DecodeOptionalU64(r4).value.1;
      r6 := DecodeOptionalU64(r5).value.1;
    }
  }

  lemma HeadReads(bytes: Bytes)
    ensures DecodeVerifyState(bytes).Ok? ==>
              var (v, rest) := DecodeVerifyState(bytes).value;
              && BehindHead(bytes).Ok?
              && var (list, last) := BehindHead(bytes).value;
                 && DecodeOptionalBool(last) == Ok((v.includeScreenshot, rest))
                 && Reads(bytes, EncodeVerifyStateHead(v), last, StandardListPredicate(list))
  {
    if DecodeVerifyState(bytes).Ok? {
      var v := DecodeVerifyState(bytes).value.0;
      var r1, r2, r3, r4, r5, r6 := HeadDecodes(bytes);
      assert BehindHead(bytes) == Ok((r2, r6));
      var head := EncodeI64(v.pid) + EncodeU64(v.windowId) + EncodeListPredicate(v.expected);
      assert Reads(bytes, head, r3, StandardListPredicate(r2)) by {
        FirstFieldsRead(bytes);
      }
      NextFieldsRead(bytes, head, r3, StandardListPredicate(r2));
    }
  }

  lemma VerifyStateReads(bytes: Bytes)
    ensures DecodeVerifyState(bytes).Ok? ==>
              var (v, rest) := DecodeVerifyState(bytes).value;
              Reads(bytes, EncodeVerifyState(v), rest, StandardVerifyState(bytes))
  {
    if DecodeVerifyState(bytes).Ok? {
      HeadReads(bytes);
      var (v, rest) := DecodeVerifyState(bytes).value;
      var (list, last) := BehindHead(bytes).value;
      OptionalBoolReads(last);
      ReadsOn(bytes, EncodeVerifyStateHead(v), last, StandardListPredicate(list),
              EncodeOptionalBool(v.includeScreenshot), rest, StandardOptionalBool(last));
    }
  }

  lemma ReadsAll(bytes: Bytes, written: Bytes, standard: bool)
    requires Reads(bytes, written, [], standard)
    ensures |bytes| == |written| && (bytes == written <==> standard)
  {
    assert written + [] == written;
  }

  /** A buffer that lifts to a value is the one the value lowers to exactly if all its booleans
      are standard; in any case it has the same length. */
  lemma VerifyStateExactly(v: VerifyStateInput, bytes: Bytes)
    ensures Lift(DecodeVerifyState, bytes) == Ok(v) ==>
              && |bytes| == |EncodeVerifyState(v)|
              && (bytes == EncodeVerifyState(v) <==> StandardVerifyState(bytes))
  {
    if Lift(DecodeVerifyState, bytes) == Ok(v) {
      assert DecodeVerifyState(bytes) == Ok((v, []));
      VerifyStateReads(bytes);
      ReadsAll(bytes, EncodeVerifyState(v), StandardVerifyState(bytes));
    }
  }
}
