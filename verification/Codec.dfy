/** The primitive converters, and the laws that carry over to everything built from them. */
module Codec {
  import opened Wrappers
  import opened Bytes
  import opened RustBuffer

  // Values of the wire types: what `check_lower` lets through, and short enough to be written.
  // It also lets numbers through where a boolean or a double is meant; see `NumberAsBoolExactly`.

  const LENGTH_LIMIT: nat := 0x8000_0000

  type U32 = n: nat | n < 0x1_0000_0000
  type I64 = n: int | -0x8000_0000_0000_0000 <= n < 0x8000_0000_0000_0000

  /** A double is the eight bytes of its bit pattern. */
  type F64 = bytes: Bytes | |bytes| == 8 witness [0, 0, 0, 0, 0, 0, 0, 0]

  /** A string is its UTF-8 encoding. */
  type Text = bytes: Bytes | IsUtf8(bytes) && |bytes| < LENGTH_LIMIT witness []

  /** A list short enough for its length prefix. */
  type List<T> = items: seq<T> | |items| < LENGTH_LIMIT witness []

  predicate Tail(b: Byte) {
    0x80 <= b <= 0xBF
  }

  /** Well-formed UTF-8, as in table 3-7 of the Unicode standard. */
  predicate IsUtf8(s: Bytes) {
    if s == [] then true
    else if s[0] <= 0x7F then IsUtf8(s[1..])
    else if 0xC2 <= s[0] <= 0xDF then |s| >= 2 && Tail(s[1]) && IsUtf8(s[2..])
    else if 0xE0 <= s[0] <= 0xEF then
      && |s| >= 3 && Tail(s[1]) && Tail(s[2])
      && (s[0] == 0xE0 ==> s[1] >= 0xA0) && (s[0] == 0xED ==> s[1] <= 0x9F)
      && IsUtf8(s[3..])
    else if 0xF0 <= s[0] <= 0xF4 then
      && |s| >= 4 && Tail(s[1]) && Tail(s[2]) && Tail(s[3])
      && (s[0] == 0xF0 ==> s[1] >= 0x90) && (s[0] == 0xF4 ==> s[1] <= 0x8F)
      && IsUtf8(s[4..])
    else false
  }

  // Primitives

  function EncodeUnsigned(width: nat, n: nat): Bytes {
    Pack(width, n)
  }

  function DecodeUnsigned(width: nat, bytes: Bytes): (decoded: Decoded<nat>)
    ensures decoded.Ok? ==> decoded.value.0 < Pow256(width)
  {
    var (packed, rest) :- DecodeBytes(width, bytes);
    Ok((Unpack(packed), rest))
  }

  function EncodeI32(v: int): Bytes
    requires FitsSigned(4, v)
  {
    Pack(4, Complement(4, v))
  }

  function DecodeI32(bytes: Bytes): (decoded: Decoded<int>)
    ensures decoded.Ok? ==> FitsSigned(4, decoded.value.0)
  {
    var (packed, rest) :- DecodeBytes(4, bytes);
    Ok((Signed(4, Unpack(packed)), rest))
  }

  lemma UnsignedUndone(width: nat, n: nat, rest: Bytes)
    requires n < Pow256(width)
    ensures DecodeUnsigned(width, EncodeUnsigned(width, n) + rest) == Ok((n, rest))
  {
    UnpackPack(width, n);
    SplitAppend(Pack(width, n), rest);
  }

  lemma UnsignedRedone(width: nat, bytes: Bytes)
    requires DecodeUnsigned(width, bytes).Ok?
    ensures var (n, rest) := DecodeUnsigned(width, bytes).value;
            EncodeUnsigned(width, n) + rest == bytes
  {
    PackUnpack(bytes[..width]);
    assert bytes == bytes[..width] + bytes[width..];
  }

  lemma I32Undone(v: int, rest: Bytes)
    requires FitsSigned(4, v)
    ensures DecodeI32(EncodeI32(v) + rest) == Ok((v, rest))
  {
    UnsignedUndone(4, Complement(4, v), rest);
  }

  lemma I32Redone(bytes: Bytes)
    requires DecodeI32(bytes).Ok?
    ensures var (v, rest) := DecodeI32(bytes).value;
            EncodeI32(v) + rest == bytes
  {
    UnsignedRedone(4, bytes);
  }

  lemma Widths()
    ensures Pow256(1) == 0x100
    ensures Pow256(4) == 0x1_0000_0000
    ensures Pow256(8) == 0x1_0000_0000_0000_0000
  {
    Pow256Values();
  }

  /** The bytes of an integer, most significant first; -1 is all ones. */
  lemma BigEndian(n: nat)
    requires n < 0x1_0000_0000
    ensures EncodeUnsigned(4, n) == [n / 0x100_0000, n / 0x1_0000 % 256, n / 256 % 256, n % 256]
    ensures FitsSigned(4, -1) && EncodeI32(-1) == [255, 255, 255, 255]
  {
    Widths();
    PackFour(n);
    PackFour(0xFFFF_FFFF);
  }

  lemma PackFour(n: nat)
    requires n < 0x1_0000_0000
    ensures Pack(4, n) == [n / 0x100_0000, n / 0x1_0000 % 256, n / 256 % 256, n % 256]
  {
    var a, b, c := n / 256, n / 0x1_0000, n / 0x100_0000;
    assert a / 256 == b && b / 256 == c;
    assert Pack(1, c) == [c] by {
      assert Pack(0, c / 256) == [];
    }
    assert Pack(2, b) == Pack(1, c) + [b % 256];
    assert Pack(3, a) == Pack(2, b) + [a % 256];
  }

  // The two laws

  /** Reading what was written, with anything after it, gives the value and leaves the rest. */
  ghost predicate Inverse<T(!new)>(enc: T -> Bytes, dec: Bytes -> Decoded<T>) {
    forall v: T, rest: Bytes :: dec(enc(v) + rest) == Ok((v, rest))
  }

  /** Writing what was read gives back the bytes that were consumed. */
  ghost predicate Canonical<T(!new)>(enc: T -> Bytes, dec: Bytes -> Decoded<T>) {
    forall bytes: Bytes :: dec(bytes).Ok? ==> enc(dec(bytes).value.0) + dec(bytes).value.1 == bytes
  }

  function EncodeU8(n: Byte): Bytes {
    EncodeUnsigned(1, n)
  }

  function DecodeU8(bytes: Bytes): Decoded<Byte> {
    Widths();
    var (n, rest) :- DecodeUnsigned(1, bytes);
    Ok((n, rest))
  }

  function EncodeU32(n: U32): Bytes {
    EncodeUnsigned(4, n)
  }

  function DecodeU32(bytes: Bytes): Decoded<U32> {
    Widths();
    var (n, rest) :- DecodeUnsigned(4, bytes);
    Ok((n, rest))
  }

  function EncodeU64(n: U64): Bytes {
    EncodeUnsigned(8, n)
  }

  function DecodeU64(bytes: Bytes): Decoded<U64> {
    Widths();
    var (n, rest) :- DecodeUnsigned(8, bytes);
    Ok((n, rest))
  }

  function EncodeI64(n: I64): Bytes {
    Widths();
    EncodeUnsigned(8, Complement(8, n))
  }

  function DecodeI64(bytes: Bytes): Decoded<I64> {
    Widths();
    var (n, rest) :- DecodeUnsigned(8, bytes);
    Ok((Signed(8, n), rest))
  }

  function EncodeF64(v: F64): Bytes {
    v
  }

  function DecodeF64(bytes: Bytes): Decoded<F64> {
    DecodeBytes(8, bytes)
  }

  /** `True` is written as 1; any byte but 0 is read as `True`. */
  function EncodeBool(v: bool): Bytes {
    EncodeU8(if v then 1 else 0)
  }

  function DecodeBool(bytes: Bytes): Decoded<bool> {
    var (n, rest) :- DecodeU8(bytes);
    Ok((n != 0, rest))
  }

  function EncodeText(s: Text): Bytes {
    Widths();
    EncodeI32(|s|) + s
  }

  function DecodeText(bytes: Bytes): Decoded<Text> {
    Widths();
    var (size, rest) :- DecodeI32(bytes);
    if size < 0 then Err(NegativeLength) else
      var (s, left) :- DecodeBytes(size, rest);
      if !IsUtf8(s) then Err(InvalidUtf8) else Ok((s, left))
  }

  lemma U8Undone(n: Byte, rest: Bytes)
    ensures DecodeU8(EncodeU8(n) + rest) == Ok((n, rest))
  {
    Widths();
    UnsignedUndone(1, n, rest);
  }

  lemma U8Redone(bytes: Bytes)
    requires DecodeU8(bytes).Ok?
    ensures EncodeU8(DecodeU8(bytes).value.0) + DecodeU8(bytes).value.1 == bytes
  {
    Widths();
    UnsignedRedone(1, bytes);
  }

  lemma U32Undone(n: U32, rest: Bytes)
    ensures DecodeU32(EncodeU32(n) + rest) == Ok((n, rest))
  {
    Widths();
    UnsignedUndone(4, n, rest);
  }

  lemma U32Redone(bytes: Bytes)
    requires DecodeU32(bytes).Ok?
    ensures EncodeU32(DecodeU32(bytes).value.0) + DecodeU32(bytes).value.1 == bytes
  {
    Widths();
    UnsignedRedone(4, bytes);
  }

  lemma U64Undone(n: U64, rest: Bytes)
    ensures DecodeU64(EncodeU64(n) + rest) == Ok((n, rest))
  {
    Widths();
    UnsignedUndone(8, n, rest);
  }

  lemma U64Redone(bytes: Bytes)
    requires DecodeU64(bytes).Ok?
    ensures EncodeU64(DecodeU64(bytes).value.0) + DecodeU64(bytes).value.1 == bytes
  {
    Widths();
    UnsignedRedone(8, bytes);
  }

  lemma I64Undone(n: I64, rest: Bytes)
    ensures DecodeI64(EncodeI64(n) + rest) == Ok((n, rest))
  {
    Widths();
    UnsignedUndone(8, Complement(8, n), rest);
  }

  lemma F64Undone(v: F64, rest: Bytes)
    ensures DecodeF64(EncodeF64(v) + rest) == Ok((v, rest))
  {
    SplitAppend(v, rest);
  }

  lemma BoolUndone(v: bool, rest: Bytes)
    ensures DecodeBool(EncodeBool(v) + rest) == Ok((v, rest))
  {
    U8Undone(if v then 1 else 0, rest);
  }

  /** Booleans alone are not canonical: they are, exactly on the bytes 0 and 1. */
  lemma BoolCanonicalExactly(b: Byte, rest: Bytes)
    ensures DecodeBool([b] + rest) == Ok((b != 0, rest))
    ensures EncodeBool(b != 0) + rest == [b] + rest <==> b <= 1
  {
    assert EncodeU8(b) == [b];
    U8Undone(b, rest);
    var flag: Byte := if b != 0 then 1 else 0;
    assert EncodeU8(flag) == [flag];
    assert ([flag] + rest)[0] == flag && ([b] + rest)[0] == b;
  }

  /** A number where a boolean is meant passes `check_lower` and is written as its own byte. It
      is read back as a boolean, which equals it, as `True` equals 1, only for 0 and 1. */
  lemma NumberAsBoolExactly(n: Byte, rest: Bytes)
    ensures DecodeBool(EncodeU8(n) + rest) == Ok((n != 0, rest))
    ensures (if n != 0 then 1 else 0) == n <==> n <= 1
  {
    U8Undone(n, rest);
  }

  lemma TextUndone(s: Text, rest: Bytes)
    ensures DecodeText(EncodeText(s) + rest) == Ok((s, rest))
  {
    Widths();
    I32Undone(|s|, s + rest);
    Regroup2(EncodeI32(|s|), s, rest);
    SplitAppend(s, rest);
  }

  lemma TextRedone(bytes: Bytes)
    requires DecodeText(bytes).Ok?
    ensures EncodeText(DecodeText(bytes).value.0) + DecodeText(bytes).value.1 == bytes
  {
    I32Redone(bytes);
    var (size, rest) := DecodeI32(bytes).value;
    assert rest == rest[..size] + rest[size..];
    Regroup2(EncodeI32(size), rest[..size], rest[size..]);
  }

  // Optional values

  function EncodeOptional<T>(enc: T -> Bytes, v: Option<T>): Bytes {
    match v
    case None => EncodeU8(0)
    case Some(x) => EncodeU8(1) + enc(x)
  }

  function DecodeOptional<T>(dec: Bytes -> Decoded<T>, bytes: Bytes): Decoded<Option<T>> {
    var (flag, rest) :- DecodeU8(bytes);
    if flag == 0 then Ok((None, rest))
    else if flag == 1 then
      var (x, left) :- dec(rest);
      Ok((Some(x), left))
    else Err(UnexpectedFlag)
  }

  lemma OptionalInverse<T(!new)>(enc: T -> Bytes, dec: Bytes -> Decoded<T>, v: Option<T>, rest: Bytes)
    requires Inverse(enc, dec)
    ensures DecodeOptional(dec, EncodeOptional(enc, v) + rest) == Ok((v, rest))
  {
    match v
    case None =>
      U8Undone(0, rest);
    case Some(x) =>
      Regroup2(EncodeU8(1), enc(x), rest);
      U8Undone(1, enc(x) + rest);
  }

  lemma OptionalCanonical<T(!new)>(enc: T -> Bytes, dec: Bytes -> Decoded<T>, bytes: Bytes)
    requires Canonical(enc, dec)
    ensures DecodeOptional(dec, bytes).Ok? ==>
              EncodeOptional(enc, DecodeOptional(dec, bytes).value.0) + DecodeOptional(dec, bytes).value.1 == bytes
  {
    if DecodeOptional(dec, bytes).Ok? {
      U8Redone(bytes);
      var (flag, rest) := DecodeU8(bytes).value;
      if flag == 1 {
        var (x, left) := dec(rest).value;
        Regroup2(EncodeU8(1), enc(x), left);
      }
    }
  }

  // Lists

  function EncodeItems<T>(enc: T -> Bytes, items: seq<T>): Bytes {
    if items == [] then [] else enc(items[0]) + EncodeItems(enc, items[1..])
  }

  function EncodeList<T>(enc: T -> Bytes, items: List<T>): Bytes {
    Widths();
    EncodeI32(|items|) + EncodeItems(enc, items)
  }

  function DecodeItems<T>(dec: Bytes -> Decoded<T>, count: nat, bytes: Bytes): (decoded: Decoded<seq<T>>)
    ensures decoded.Ok? ==> |decoded.value.0| == count
  {
    if count == 0 then Ok(([], bytes)) else
      var (x, rest) :- dec(bytes);
      var (items, left) :- DecodeItems(dec, count - 1, rest);
      Ok(([x] + items, left))
  }

  function DecodeList<T>(dec: Bytes -> Decoded<T>, bytes: Bytes): Decoded<List<T>> {
    Widths();
    var (count, rest) :- DecodeI32(bytes);
    if count < 0 then Err(NegativeLength) else
      var (items, left) :- DecodeItems(dec, count, rest);
      Ok((items, left))
  }

  lemma {:induction false} ItemsInverse<T(!new)>(
      enc: T -> Bytes, dec: Bytes -> Decoded<T>, items: seq<T>, rest: Bytes)
    requires Inverse(enc, dec)
    ensures DecodeItems(dec, |items|, EncodeItems(enc, items) + rest) == Ok((items, rest))
  {
    if items == [] {
      assert EncodeItems(enc, items) + rest == rest;
    } else {
      var tail := EncodeItems(enc, items[1..]) + rest;
      Regroup2(enc(items[0]), EncodeItems(enc, items[1..]), rest);
      ItemsInverse(enc, dec, items[1..], rest);
      assert dec(enc(items[0]) + tail) == Ok((items[0], tail));
      assert [items[0]] + items[1..] == items;
    }
  }

  lemma ListInverse<T(!new)>(enc: T -> Bytes, dec: Bytes -> Decoded<T>, items: List<T>, rest: Bytes)
    requires Inverse(enc, dec)
    ensures DecodeList(dec, EncodeList(enc, items) + rest) == Ok((items, rest))
  {
    Widths();
    var body := EncodeItems(enc, items) + rest;
    Regroup2(EncodeI32(|items|), EncodeItems(enc, items), rest);
    I32Undone(|items|, body);
    ItemsInverse(enc, dec, items, rest);
  }

  lemma {:induction false} ItemsCanonical<T(!new)>(
      enc: T -> Bytes, dec: Bytes -> Decoded<T>, count: nat, bytes: Bytes)
    requires Canonical(enc, dec) && DecodeItems(dec, count, bytes).Ok?
    ensures var (items, left) := DecodeItems(dec, count, bytes).value;
            EncodeItems(enc, items) + left == bytes
    decreases count
  {
    if count > 0 {
      var (x, rest) := dec(bytes).value;
      ItemsCanonical(enc, dec, count - 1, rest);
      var (items, left) := DecodeItems(dec, count - 1, rest).value;
      assert ([x] + items)[1..] == items;
      Regroup2(enc(x), EncodeItems(enc, items), left);
    }
  }

  lemma ListCanonical<T(!new)>(enc: T -> Bytes, dec: Bytes -> Decoded<T>, bytes: Bytes)
    requires Canonical(enc, dec)
    ensures DecodeList(dec, bytes).Ok? ==>
              EncodeList(enc, DecodeList(dec, bytes).value.0) + DecodeList(dec, bytes).value.1 == bytes
  {
    if DecodeList(dec, bytes).Ok? {
      I32Redone(bytes);
      var (count, rest) := DecodeI32(bytes).value;
      ItemsCanonical(enc, dec, count, rest);
      var (items, left) := DecodeItems(dec, count, rest).value;
      Regroup2(EncodeI32(count), EncodeItems(enc, items), left);
    }
  }

  // Enumerations

  /** The wire number of a variant, counting from 1. */
  type Tag = n: int | 0 < n < 0x100 witness 1

  function EncodeEnum<T>(tag: T -> Tag, v: T): Bytes {
    Widths();
    EncodeI32(tag(v))
  }

  function DecodeEnum<T>(variant: int -> Option<T>, bytes: Bytes): Decoded<T> {
    var (n, rest) :- DecodeI32(bytes);
    match variant(n)
    case Some(v) => Ok((v, rest))
    case None => Err(UnknownVariant)
  }

  /** The reader's variants and the writer's numbers are the same table. */
  ghost predicate SameTable<T(!new)>(tag: T -> Tag, variant: int -> Option<T>) {
    && (forall v: T :: variant(tag(v)) == Some(v))
    && (forall n: int :: variant(n).Some? ==> tag(variant(n).value) == n)
  }

  lemma EnumInverse<T(!new)>(tag: T -> Tag, variant: int -> Option<T>, v: T, rest: Bytes)
    requires SameTable(tag, variant)
    ensures DecodeEnum(variant, EncodeEnum(tag, v) + rest) == Ok((v, rest))
  {
    Widths();
    I32Undone(tag(v), rest);
  }

  lemma EnumCanonical<T(!new)>(tag: T -> Tag, variant: int -> Option<T>, bytes: Bytes)
    requires SameTable(tag, variant) && DecodeEnum(variant, bytes).Ok?
    ensures EncodeEnum(tag, DecodeEnum(variant, bytes).value.0) + DecodeEnum(variant, bytes).value.1 == bytes
  {
    I32Redone(bytes);
    var n := DecodeI32(bytes).value.0;
    assert tag(variant(n).value) == n;
  }

  // Using the laws

  /** Read a whole buffer; bytes that are left over are an error. */
  function Lift<T>(dec: Bytes -> Decoded<T>, bytes: Bytes): Result<T, ReadError> {
    var (v, rest) :- dec(bytes);
    if rest != [] then Err(JunkLeft) else Ok(v)
  }

  /** A value that is lowered lifts to itself: the junk check never fires. */
  lemma LiftUndoesLower<T(!new)>(enc: T -> Bytes, dec: Bytes -> Decoded<T>, v: T)
    requires Inverse(enc, dec)
    ensures Lift(dec, enc(v)) == Ok(v)
  {
    assert enc(v) + [] == enc(v);
    assert dec(enc(v) + []) == Ok((v, []));
  }

  /** Under both laws a buffer lifts to a value exactly when it is what the value lowers to. */
  lemma LiftExactly<T(!new)>(enc: T -> Bytes, dec: Bytes -> Decoded<T>, v: T, bytes: Bytes)
    requires Inverse(enc, dec) && Canonical(enc, dec)
    ensures Lift(dec, bytes) == Ok(v) <==> bytes == enc(v)
  {
    LiftUndoesLower(enc, dec, v);
    if Lift(dec, bytes) == Ok(v) {
      assert enc(v) + [] == enc(v) && dec(bytes).value == (v, []);
    }
  }
}
