/** The converters for `VerifyStateInput` as they run: writing item by item into a builder
    that grows, and reading item by item from a stream that advances. Each is proved against
    the encoding it appends or the decoding it follows. */
module StateConverters {
  import opened Wrappers
  import opened Bytes
  import opened RustBuffer
  import opened Codec
  import opened StateCodec

  /** `buf` holds what it held, and `bytes` after it. */
  twostate predicate Appended(buf: Builder, bytes: Bytes)
    requires old(buf.Valid())
    reads buf, buf.data
  {
    && buf.Valid()
    && (buf.data == old(buf.data) || fresh(buf.data))
    && buf.Contents() == old(buf.Contents()) + bytes
  }

  /** `s` went through the bytes that `dec` takes, and `result` is what it makes of them. */
  twostate predicate Consumed<T>(s: Stream, new result: Result<T, ReadError>, dec: Bytes -> Decoded<T>)
    requires old(s.Valid())
    reads s
  {
    s.Valid() && Follows(result, s.Left(), dec(old(s.Left())))
  }

  lemma Collect3(before: Bytes, a: Bytes, b: Bytes, c: Bytes)
    ensures before + a + b + c == before + (a + b + c)
  {
  }

  lemma Collect5(before: Bytes, a: Bytes, b: Bytes, c: Bytes, d: Bytes, e: Bytes)
    ensures before + a + b + c + d + e == before + (a + b + c + d + e)
  {
  }

  // Primitives

  method WriteU8(v: Byte, buf: Builder)
    requires buf.Valid()
    modifies buf, buf.data
    ensures Appended(buf, EncodeU8(v))
  {
    buf.Write(Pack(1, v));
  }

  method ReadU8(s: Stream) returns (result: Result<Byte, ReadError>)
    requires s.Valid()
    modifies s
    ensures Consumed(s, result, DecodeU8)
  {
    Widths();
    var packed :- s.Read(1);
    return Ok(Unpack(packed));
  }

  method WriteU64(v: U64, buf: Builder)
    requires buf.Valid()
    modifies buf, buf.data
    ensures Appended(buf, EncodeU64(v))
  {
    buf.Write(Pack(8, v));
  }

  method ReadU64(s: Stream) returns (result: Result<U64, ReadError>)
    requires s.Valid()
    modifies s
    ensures Consumed(s, result, DecodeU64)
  {
    Widths();
    var packed :- s.Read(8);
    return Ok(Unpack(packed));
  }

  method WriteI32(v: int, buf: Builder)
    requires buf.Valid() && FitsSigned(4, v)
    modifies buf, buf.data
    ensures Appended(buf, EncodeI32(v))
  {
    buf.Write(Pack(4, Complement(4, v)));
  }

  method ReadI32(s: Stream) returns (result: Result<int, ReadError>)
    requires s.Valid()
    modifies s
    ensures Consumed(s, result, DecodeI32)
  {
    var packed :- s.Read(4);
    return Ok(Signed(4, Unpack(packed)));
  }

  method WriteI64(v: I64, buf: Builder)
    requires buf.Valid()
    modifies buf, buf.data
    ensures Appended(buf, EncodeI64(v))
  {
    Widths();
    buf.Write(Pack(8, Complement(8, v)));
  }

  method ReadI64(s: Stream) returns (result: Result<I64, ReadError>)
    requires s.Valid()
    modifies s
    ensures Consumed(s, result, DecodeI64)
  {
    Widths();
    var packed :- s.Read(8);
    return Ok(Signed(8, Unpack(packed)));
  }

  method WriteF64(v: F64, buf: Builder)
    requires buf.Valid()
    modifies buf, buf.data
    ensures Appended(buf, EncodeF64(v))
  {
    buf.Write(v);
  }

  method ReadF64(s: Stream) returns (result: Result<F64, ReadError>)
    requires s.Valid()
    modifies s
    ensures Consumed(s, result, DecodeF64)
  {
    result := s.Read(8);
  }

  method WriteBool(v: bool, buf: Builder)
    requires buf.Valid()
    modifies buf, buf.data
    ensures Appended(buf, EncodeBool(v))
  {
    WriteU8(if v then 1 else 0, buf);
  }

  method ReadBool(s: Stream) returns (result: Result<bool, ReadError>)
    requires s.Valid()
    modifies s
    ensures Consumed(s, result, DecodeBool)
  {
    var n :- ReadU8(s);
    return Ok(n != 0);
  }

  method WriteText(v: Text, buf: Builder)
    requires buf.Valid()
    modifies buf, buf.data
    ensures Appended(buf, EncodeText(v))
  {
    Widths();
    WriteI32(|v|, buf);
    buf.Write(v);
    Regroup2(old(buf.Contents()), EncodeI32(|v|), v);
  }

  method ReadText(s: Stream) returns (result: Result<Text, ReadError>)
    requires s.Valid()
    modifies s
    ensures Consumed(s, result, DecodeText)
  {
    Widths();
    var size :- ReadI32(s);
    if size < 0 {
      return Err(NegativeLength);
    }
    var utf8 :- s.Read(size);
    if !IsUtf8(utf8) {
      return Err(InvalidUtf8);
    }
    return Ok(utf8);
  }

  // Optional values, records and lists

  method WriteOptionalBool(v: Option<bool>, buf: Builder)
    requires buf.Valid()
    modifies buf, buf.data
    ensures Appended(buf, EncodeOptionalBool(v))
  {
    if v == None {
      WriteU8(0, buf);
      return;
    }
    WriteU8(1, buf);
    WriteBool(v.value, buf);
    Regroup2(old(buf.Contents()), EncodeU8(1), EncodeBool(v.value));
  }

  method ReadOptionalBool(s: Stream) returns (result: Result<Option<bool>, ReadError>)
    requires s.Valid()
    modifies s
    ensures Consumed(s, result, DecodeOptionalBool)
  {
    var flag :- ReadU8(s);
    if flag == 0 {
      return Ok(None);
    } else if flag == 1 {
      var v :- ReadBool(s);
      return Ok(Some(v));
    } else {
      return Err(UnexpectedFlag);
    }
  }

  method WriteOptionalF64(v: Option<F64>, buf: Builder)
    requires buf.Valid()
    modifies buf, buf.data
    ensures Appended(buf, EncodeOptionalF64(v))
  {
    if v == None {
      WriteU8(0, buf);
      return;
    }
    WriteU8(1, buf);
    WriteF64(v.value, buf);
    Regroup2(old(buf.Contents()), EncodeU8(1), EncodeF64(v.value));
  }

  method ReadOptionalF64(s: Stream) returns (result: Result<Option<F64>, ReadError>)
    requires s.Valid()
    modifies s
    ensures Consumed(s, result, DecodeOptionalF64)
  {
    var flag :- ReadU8(s);
    if flag == 0 {
      return Ok(None);
    } else if flag == 1 {
      var v :- ReadF64(s);
      return Ok(Some(v));
    } else {
      return Err(UnexpectedFlag);
    }
  }

  method WriteOptionalU64(v: Option<U64>, buf: Builder)
    requires buf.Valid()
    modifies buf, buf.data
    ensures Appended(buf, EncodeOptionalU64(v))
  {
    if v == None {
      WriteU8(0, buf);
      return;
    }
    WriteU8(1, buf);
    WriteU64(v.value, buf);
    Regroup2(old(buf.Contents()), EncodeU8(1), EncodeU64(v.value));
  }

  method ReadOptionalU64(s: Stream) returns (result: Result<Option<U64>, ReadError>)
    requires s.Valid()
    modifies s
    ensures Consumed(s, result, DecodeOptionalU64)
  {
    var flag :- ReadU8(s);
    if flag == 0 {
      return Ok(None);
    } else if flag == 1 {
      var v :- ReadU64(s);
      return Ok(Some(v));
    } else {
      return Err(UnexpectedFlag);
    }
  }

  method WriteOptionalText(v: Option<Text>, buf: Builder)
    requires buf.Valid()
    modifies buf, buf.data
    ensures Appended(buf, EncodeOptionalText(v))
  {
    if v == None {
      WriteU8(0, buf);
      return;
    }
    WriteU8(1, buf);
    WriteText(v.value, buf);
    Regroup2(old(buf.Contents()), EncodeU8(1), EncodeText(v.value));
  }

  method ReadOptionalText(s: Stream) returns (result: Result<Option<Text>, ReadError>)
    requires s.Valid()
    modifies s
    ensures Consumed(s, result, DecodeOptionalText)
  {
    var flag :- ReadU8(s);
    if flag == 0 {
      return Ok(None);
    } else if flag == 1 {
      var v :- ReadText(s);
      return Ok(Some(v));
    } else {
      return Err(UnexpectedFlag);
    }
  }

  method WriteBounds(v: BoundsExpectation, buf: Builder)
    requires buf.Valid()
    modifies buf, buf.data
    ensures Appended(buf, EncodeBounds(v))
  {
    ghost var before := buf.Contents();
    WriteF64(v.x, buf);
    WriteF64(v.y, buf);
    WriteF64(v.width, buf);
    WriteF64(v.height, buf);
    WriteOptionalF64(v.tolerancePx, buf);
    Collect5(before, EncodeF64(v.x), EncodeF64(v.y), EncodeF64(v.width), EncodeF64(v.height),
             EncodeOptionalF64(v.tolerancePx));
  }

  method ReadBounds(s: Stream) returns (result: Result<BoundsExpectation, ReadError>)
    requires s.Valid()
    modifies s
    ensures Consumed(s, result, DecodeBounds)
  {
    var x :- ReadF64(s);
    var y :- ReadF64(s);
    var width :- ReadF64(s);
    var height :- ReadF64(s);
    var tolerancePx :- ReadOptionalF64(s);
    return Ok(BoundsExpectation(x, y, width, height, tolerancePx));
  }

  method WriteOptionalBounds(v: Option<BoundsExpectation>, buf: Builder)
    requires buf.Valid()
    modifies buf, buf.data
    ensures Appended(buf, EncodeOptionalBounds(v))
  {
    if v == None {
      WriteU8(0, buf);
      return;
    }
    WriteU8(1, buf);
    WriteBounds(v.value, buf);
    Regroup2(old(buf.Contents()), EncodeU8(1), EncodeBounds(v.value));
  }

  method ReadOptionalBounds(s: Stream) returns (result: Result<Option<BoundsExpectation>, ReadError>)
    requires s.Valid()
    modifies s
    ensures Consumed(s, result, DecodeOptionalBounds)
  {
    var flag :- ReadU8(s);
    if flag == 0 {
      return Ok(None);
    } else if flag == 1 {
      var v :- ReadBounds(s);
      return Ok(Some(v));
    } else {
      return Err(UnexpectedFlag);
    }
  }

  method WriteWindow(v: WindowPredicate, buf: Builder)
    requires buf.Valid()
    modifies buf, buf.data
    ensures Appended(buf, EncodeWindow(v))
  {
    WriteOptionalBool(v.present, buf);
    WriteOptionalBounds(v.bounds, buf);
    Regroup2(old(buf.Contents()), EncodeOptionalBool(v.present), EncodeOptionalBounds(v.bounds));
  }

  method ReadWindow(s: Stream) returns (result: Result<WindowPredicate, ReadError>)
    requires s.Valid()
    modifies s
    ensures Consumed(s, result, DecodeWindow)
  {
    var present :- ReadOptionalBool(s);
    var bounds :- ReadOptionalBounds(s);
    return Ok(WindowPredicate(present, bounds));
  }

  method WriteOptionalWindow(v: Option<WindowPredicate>, buf: Builder)
    requires buf.Valid()
    modifies buf, buf.data
    ensures Appended(buf, EncodeOptionalWindow(v))
  {
    if v == None {
      WriteU8(0, buf);
      return;
    }
    WriteU8(1, buf);
    WriteWindow(v.value, buf);
    Regroup2(old(buf.Contents()), EncodeU8(1), EncodeWindow(v.value));
  }

  method ReadOptionalWindow(s: Stream) returns (result: Result<Option<WindowPredicate>, ReadError>)
    requires s.Valid()
    modifies s
    ensures Consumed(s, result, DecodeOptionalWindow)
  {
    var flag :- ReadU8(s);
    if flag == 0 {
      return Ok(None);
    } else if flag == 1 {
      var v :- ReadWindow(s);
      return Ok(Some(v));
    } else {
      return Err(UnexpectedFlag);
    }
  }

  method WriteSelector(v: ElementSelector, buf: Builder)
    requires buf.Valid()
    modifies buf, buf.data
    ensures Appended(buf, EncodeSelector(v))
  {
    WriteOptionalText(v.role, buf);
    WriteOptionalText(v.labelContains, buf);
    Regroup2(old(buf.Contents()), EncodeOptionalText(v.role), EncodeOptionalText(v.labelContains));
  }

  method ReadSelector(s: Stream) returns (result: Result<ElementSelector, ReadError>)
    requires s.Valid()
    modifies s
    ensures Consumed(s, result, DecodeSelector)
  {
    var role :- ReadOptionalText(s);
    var labelContains :- ReadOptionalText(s);
    return Ok(ElementSelector(role, labelContains));
  }

  method WriteElement(v: ElementPredicate, buf: Builder)
    requires buf.Valid()
    modifies buf, buf.data
    ensures Appended(buf, EncodeElement(v))
  {
    ghost var before := buf.Contents();
    WriteSelector(v.selector, buf);
    WriteOptionalBool(v.present, buf);
    WriteOptionalText(v.valueEquals, buf);
    WriteOptionalBool(v.enabled, buf);
    WriteOptionalBool(v.selected, buf);
    Collect5(before, EncodeSelector(v.selector), EncodeOptionalBool(v.present),
             EncodeOptionalText(v.valueEquals), EncodeOptionalBool(v.enabled),
             EncodeOptionalBool(v.selected));
  }

  method ReadElement(s: Stream) returns (result: Result<ElementPredicate, ReadError>)
    requires s.Valid()
    modifies s
    ensures Consumed(s, result, DecodeElement)
  {
    var selector :- ReadSelector(s);
    var present :- ReadOptionalBool(s);
    var valueEquals :- ReadOptionalText(s);
    var enabled :- ReadOptionalBool(s);
    var selected :- ReadOptionalBool(s);
    return Ok(ElementPredicate(selector, present, valueEquals, enabled, selected));
  }

  method WriteOptionalElement(v: Option<ElementPredicate>, buf: Builder)
    requires buf.Valid()
    modifies buf, buf.data
    ensures Appended(buf, EncodeOptionalElement(v))
  {
    if v == None {
      WriteU8(0, buf);
      return;
    }
    WriteU8(1, buf);
    WriteElement(v.value, buf);
    Regroup2(old(buf.Contents()), EncodeU8(1), EncodeElement(v.value));
  }

  method ReadOptionalElement(s: Stream) returns (result: Result<Option<ElementPredicate>, ReadError>)
    requires s.Valid()
    modifies s
    ensures Consumed(s, result, DecodeOptionalElement)
  {
    var flag :- ReadU8(s);
    if flag == 0 {
      return Ok(None);
    } else if flag == 1 {
      var v :- ReadElement(s);
      return Ok(Some(v));
    } else {
      return Err(UnexpectedFlag);
    }
  }

  method WritePredicate(v: StatePredicate, buf: Builder)
    requires buf.Valid()
    modifies buf, buf.data
    ensures Appended(buf, EncodePredicate(v))
  {
    WriteOptionalWindow(v.window, buf);
    WriteOptionalElement(v.element, buf);
    Regroup2(old(buf.Contents()), EncodeOptionalWindow(v.window), EncodeOptionalElement(v.element));
  }

  method ReadPredicate(s: Stream) returns (result: Result<StatePredicate, ReadError>)
    requires s.Valid()
    modifies s
    ensures Consumed(s, result, DecodePredicate)
  {
    var window :- ReadOptionalWindow(s);
    var element :- ReadOptionalElement(s);
    return Ok(StatePredicate(window, element));
  }

  method WriteListPredicate(v: List<StatePredicate>, buf: Builder)
    requires buf.Valid()
    modifies buf, buf.data
    ensures Appended(buf, EncodeListPredicate(v))
  {
    Widths();
    WriteI32(|v|, buf);
    ghost var before := buf.Contents();
    for i := 0 to |v|
      invariant buf.Valid() && (buf.data == old(buf.data) || fresh(buf.data))
      invariant buf.Contents() == before + EncodeItems(EncodePredicate, v[..i])
    {
      ItemsGrow(EncodePredicate, v, i, before);
      WritePredicate(v[i], buf);
    }
    assert v[..|v|] == v;
    Regroup2(old(buf.Contents()), EncodeI32(|v|), EncodeItems(EncodePredicate, v));
  }

  lemma ItemsGrow<T>(enc: T -> Bytes, items: seq<T>, i: nat, before: Bytes)
    requires i < |items|
    ensures before + EncodeItems(enc, items[..i + 1]) == before + EncodeItems(enc, items[..i]) + enc(items[i])
  {
    ItemsSnoc(enc, items[..i], items[i]);
    assert items[..i + 1] == items[..i] + [items[i]];
  }

  lemma {:induction false} ItemsSnoc<T>(enc: T -> Bytes, items: seq<T>, last: T)
    ensures EncodeItems(enc, items + [last]) == EncodeItems(enc, items) + enc(last)
  {
    if items == [] {
      assert items + [last] == [last] && [last][1..] == [];
    } else {
      assert (items + [last])[1..] == items[1..] + [last];
      ItemsSnoc(enc, items[1..], last);
    }
  }

  method ReadListPredicate(s: Stream) returns (result: Result<List<StatePredicate>, ReadError>)
    requires s.Valid()
    modifies s
    ensures Consumed(s, result, DecodeListPredicate)
  {
    Widths();
    var count :- ReadI32(s);
    if count < 0 {
      return Err(NegativeLength);
    }
    var items :- ReadPredicates(count, s);
    return Ok(items);
  }

  /** The comprehension that reads `count` items. */
  method ReadPredicates(count: nat, s: Stream) returns (result: Result<seq<StatePredicate>, ReadError>)
    requires s.Valid()
    modifies s
    ensures s.Valid() && Follows(result, s.Left(), DecodeItems(DecodePredicate, count, old(s.Left())))
  {
    var items: seq<StatePredicate> := [];
    ResumeStart(DecodeItems(DecodePredicate, count, s.Left()));
    for i := 0 to count
      invariant s.Valid() && |items| == i
      invariant DecodeItems(DecodePredicate, count, old(s.Left()))
                == Resumed(items, DecodeItems(DecodePredicate, count - i, s.Left()))
    {
      ResumeStep(DecodePredicate, items, count - i, s.Left());
      var item :- ReadPredicate(s);
      items := items + [item];
    }
    assert items + [] == items;
    return Ok(items);
  }

  lemma ResumeStart<T>(all: Decoded<seq<T>>)
    ensures Resumed([], all) == all
  {
    if all.Ok? {
      assert [] + all.value.0 == all.value.0;
    }
  }

  lemma ResumeStep<T>(dec: Bytes -> Decoded<T>, items: seq<T>, count: nat, bytes: Bytes)
    requires count > 0
    ensures Resumed(items, DecodeItems(dec, count, bytes)) ==
              match dec(bytes)
              case Ok((x, rest)) => Resumed(items + [x], DecodeItems(dec, count - 1, rest))
              case Err(error) => Err(error)
  {
    if dec(bytes).Ok? {
      var (x, rest) := dec(bytes).value;
      var more := DecodeItems(dec, count - 1, rest);
      if more.Ok? {
        assert items + ([x] + more.value.0) == items + [x] + more.value.0;
      }
    }
  }

  /** The items read so far, in front of what the rest of the list decodes to. */
  function Resumed<T>(items: seq<T>, rest: Decoded<seq<T>>): Decoded<seq<T>> {
    match rest
    case Ok((more, left)) => Ok((items + more, left))
    case Err(error) => Err(error)
  }

  method WriteVerifyState(v: VerifyStateInput, buf: Builder)
    requires buf.Valid()
    modifies buf, buf.data
    ensures Appended(buf, EncodeVerifyState(v))
  {
    ghost var before := buf.Contents();
    WriteI64(v.pid, buf);
    WriteU64(v.windowId, buf);
    WriteListPredicate(v.expected, buf);
    WriteOptionalText(v.session, buf);
    WriteOptionalU64(v.timeoutMs, buf);
    WriteOptionalU64(v.stableSamples, buf);
    WriteOptionalBool(v.includeScreenshot, buf);
    Collect5(before, EncodeI64(v.pid), EncodeU64(v.windowId), EncodeListPredicate(v.expected),
             EncodeOptionalText(v.session), EncodeOptionalU64(v.timeoutMs));
    Collect3(before,
             EncodeI64(v.pid) + EncodeU64(v.windowId) + EncodeListPredicate(v.expected)
             + EncodeOptionalText(v.session) + EncodeOptionalU64(v.timeoutMs),
             EncodeOptionalU64(v.stableSamples), EncodeOptionalBool(v.includeScreenshot));
  }

  method ReadVerifyState(s: Stream) returns (result: Result<VerifyStateInput, ReadError>)
    requires s.Valid()
    modifies s
    ensures Consumed(s, result, DecodeVerifyState)
  {
    var pid :- ReadI64(s);
    var windowId :- ReadU64(s);
    var expected :- ReadListPredicate(s);
    var session :- ReadOptionalText(s);
    var timeoutMs :- ReadOptionalU64(s);
    var stableSamples :- ReadOptionalU64(s);
    var includeScreenshot :- ReadOptionalBool(s);
    return Ok(VerifyStateInput(pid, windowId, expected, session, timeoutMs, stableSamples, includeScreenshot));
  }

  // Whole buffers

  method Lower(v: VerifyStateInput) returns (bytes: Bytes)
    ensures bytes == EncodeVerifyState(v)
    ensures Lift(DecodeVerifyState, bytes) == Ok(v)
  {
    var builder := new Builder();
    WriteVerifyState(v, builder);
    bytes := builder.data[..builder.len];
    VerifyStateRoundTrip(v);
  }

  method LiftVerifyState(bytes: Bytes) returns (result: Result<VerifyStateInput, ReadError>)
    ensures result == Lift(DecodeVerifyState, bytes)
  {
    var stream := new Stream(bytes);
    var v :- ReadVerifyState(stream);
    var remaining := stream.Remaining();
    if remaining != 0 {
      return Err(JunkLeft);
    }
    return Ok(v);
  }
}
