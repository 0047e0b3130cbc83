/** What a string is on the wire: the characters it may hold, and the bytes that stand for
    them. */
module Utf8 {
  import opened Wrappers
  import opened Bytes
  import opened RustBuffer
  import opened Codec

  /** A Unicode scalar value: any code point that is not a surrogate. */
  type Scalar = cp: nat | cp < 0x11_0000 && !(0xD800 <= cp < 0xE000)

  /** The bits of a scalar value in groups of six, the first group in a byte that tells how
      many follow. */
  function EncodeScalar(cp: Scalar): Bytes {
    if cp < 0x80 then [cp]
    else if cp < 0x800 then [0xC0 + cp / 0x40, 0x80 + cp % 0x40]
    else if cp < 0x1_0000 then [0xE0 + cp / 0x1000, 0x80 + cp / 0x40 % 0x40, 0x80 + cp % 0x40]
    else [0xF0 + cp / 0x4_0000, 0x80 + cp / 0x1000 % 0x40, 0x80 + cp / 0x40 % 0x40, 0x80 + cp % 0x40]
  }

  function EncodeAll(text: seq<Scalar>): Bytes {
    if text == [] then [] else EncodeScalar(text[0]) + EncodeAll(text[1..])
  }

  lemma ScalarIsUtf8(cp: Scalar, rest: Bytes)
    requires IsUtf8(rest)
    ensures IsUtf8(EncodeScalar(cp) + rest)
  {
    var head := EncodeScalar(cp);
    assert (head + rest)[|head|..] == rest;
    assert forall i :: 0 <= i < |head| ==> (head + rest)[i] == head[i];
  }

  lemma {:induction false} EncodedIsUtf8(text: seq<Scalar>)
    ensures IsUtf8(EncodeAll(text))
  {
    if text != [] {
      EncodedIsUtf8(text[1..]);
      ScalarIsUtf8(text[0], EncodeAll(text[1..]));
    }
  }

  lemma TwoBytes(a: Byte, b: Byte) returns (cp: Scalar)
    requires 0xC2 <= a <= 0xDF && Tail(b)
    ensures EncodeScalar(cp) == [a, b]
  {
    cp := (a - 0xC0) * 0x40 + (b - 0x80);
  }

  lemma ThreeBytes(a: Byte, b: Byte, c: Byte) returns (cp: Scalar)
    requires 0xE0 <= a <= 0xEF && Tail(b) && Tail(c)
    requires (a == 0xE0 ==> b >= 0xA0) && (a == 0xED ==> b <= 0x9F)
    ensures EncodeScalar(cp) == [a, b, c]
  {
    cp := (a - 0xE0) * 0x1000 + (b - 0x80) * 0x40 + (c - 0x80);
    assert cp / 0x40 == (a - 0xE0) * 0x40 + (b - 0x80);
  }

  lemma FourBytes(a: Byte, b: Byte, c: Byte, d: Byte) returns (cp: Scalar)
    requires 0xF0 <= a <= 0xF4 && Tail(b) && Tail(c) && Tail(d)
    requires (a == 0xF0 ==> b >= 0x90) && (a == 0xF4 ==> b <= 0x8F)
    ensures EncodeScalar(cp) == [a, b, c, d]
  {
    cp := (a - 0xF0) * 0x4_0000 + (b - 0x80) * 0x1000 + (c - 0x80) * 0x40 + (d - 0x80);
    assert cp / 0x40 == (a - 0xF0) * 0x1000 + (b - 0x80) * 0x40 + (c - 0x80);
    assert cp / 0x1000 == (a - 0xF0) * 0x40 + (b - 0x80);
  }

  /** The first character of a well-formed string, and how many bytes it takes. */
  lemma FirstScalar(s: Bytes) returns (cp: Scalar, n: nat)
    requires s != [] && IsUtf8(s)
    ensures 0 < n <= |s| && s[..n] == EncodeScalar(cp) && IsUtf8(s[n..])
  {
    if s[0] <= 0x7F {
      cp, n := s[0], 1;
    } else if s[0] <= 0xDF {
      cp := TwoBytes(s[0], s[1]);
      n := 2;
    } else if s[0] <= 0xEF {
      cp := ThreeBytes(s[0], s[1], s[2]);
      n := 3;
    } else {
      cp := FourBytes(s[0], s[1], s[2], s[3]);
      n := 4;
    }
  }

  lemma {:induction false} Utf8IsEncoded(s: Bytes) returns (text: seq<Scalar>)
    requires IsUtf8(s)
    ensures EncodeAll(text) == s
    decreases |s|
  {
    if s == [] {
      text := [];
    } else {
      var cp, n := FirstScalar(s);
      var rest := Utf8IsEncoded(s[n..]);
      text := [cp] + rest;
      assert text[1..] == rest && s == s[..n] + s[n..];
    }
  }

  /** The strings that are read are exactly the encodings of sequences of characters. */
  lemma WellFormedExactly(s: Bytes)
    ensures IsUtf8(s) <==> exists text: seq<Scalar> :: s == EncodeAll(text)
  {
    if IsUtf8(s) {
      var text := Utf8IsEncoded(s);
    }
    if text: seq<Scalar> :| s == EncodeAll(text) {
      EncodedIsUtf8(text);
    }
  }

  /** Every text whose encoding is shorter than 2^31 bytes is read: its length in four bytes,
      most significant first, and its encoding, whatever follows. */
  lemma EveryTextIsRead(text: seq<Scalar>, rest: Bytes)
    requires |EncodeAll(text)| < 0x8000_0000
    ensures var s := EncodeAll(text);
            var n := |s|;
            DecodeText([n / 0x100_0000, n / 0x1_0000 % 256, n / 256 % 256, n % 256] + s + rest) == Ok((s, rest))
  {
    EncodedIsUtf8(text);
    var s: Text := EncodeAll(text);
    TextUndone(s, rest);
    BigEndian(|s|);
    Widths();
  }
}
