/** Big-endian integers, as `struct.pack` and `struct.unpack` lay them out. */
module Bytes {
  type Byte = b: int | 0 <= b < 256
  type Bytes = seq<Byte>

  function Pow256(width: nat): nat {
    if width == 0 then 1 else 256 * Pow256(width - 1)
  }

  lemma Pow256Values()
    ensures Pow256(1) == 0x100
    ensures Pow256(4) == 0x1_0000_0000
    ensures Pow256(8) == 0x1_0000_0000_0000_0000
  {
    assert Pow256(2) == 0x1_0000;
    assert Pow256(6) == 0x1_0000_0000_0000;
  }

  /** The lowest `width` bytes of `n`, most significant first. */
  function Pack(width: nat, n: nat): (bytes: Bytes)
    ensures |bytes| == width
  {
    if width == 0 then [] else Pack(width - 1, n / 256) + [n % 256]
  }

  function Unpack(bytes: Bytes): (n: nat)
    ensures n < Pow256(|bytes|)
  {
    if bytes == [] then 0
    else Unpack(bytes[..|bytes| - 1]) * 256 + bytes[|bytes| - 1]
  }

  lemma {:induction false} UnpackPack(width: nat, n: nat)
    requires n < Pow256(width)
    ensures Unpack(Pack(width, n)) == n
  {
    if width > 0 {
      var bytes := Pack(width, n);
      assert bytes[..width - 1] == Pack(width - 1, n / 256);
      UnpackPack(width - 1, n / 256);
    }
  }

  lemma {:induction false} PackUnpack(bytes: Bytes)
    ensures Pack(|bytes|, Unpack(bytes)) == bytes
  {
    if bytes != [] {
      var front, last := bytes[..|bytes| - 1], bytes[|bytes| - 1];
      assert Unpack(bytes) / 256 == Unpack(front) && Unpack(bytes) % 256 == last;
      PackUnpack(front);
    }
  }

  predicate FitsSigned(width: nat, v: int) {
    0 <= 2 * v + Pow256(width) < 2 * Pow256(width)
  }

  /** The two's complement of a signed integer of `width` bytes, and back. */
  function Complement(width: nat, v: int): (n: nat)
    requires width > 0 && FitsSigned(width, v)
    ensures n < Pow256(width)
  {
    if v < 0 then v + Pow256(width) else v
  }

  function Signed(width: nat, n: nat): (v: int)
    requires width > 0 && n < Pow256(width)
    ensures FitsSigned(width, v)
    ensures Complement(width, v) == n
  {
    if 2 * n < Pow256(width) then n else n - Pow256(width)
  }

  // Concatenations

  lemma SplitAppend(a: Bytes, rest: Bytes)
    ensures (a + rest)[..|a|] == a && (a + rest)[|a|..] == rest
  {
  }

  lemma Regroup2(a: Bytes, b: Bytes, rest: Bytes)
    ensures a + b + rest == a + (b + rest)
  {
  }

  lemma Regroup3(a: Bytes, b: Bytes, c: Bytes, rest: Bytes)
    ensures a + b + c + rest == a + (b + (c + rest))
  {
  }

  lemma Regroup5(a: Bytes, b: Bytes, c: Bytes, d: Bytes, e: Bytes, rest: Bytes)
    ensures a + b + c + d + e + rest == a + (b + (c + (d + (e + rest))))
  {
  }

  lemma Regroup6(a: Bytes, b: Bytes, c: Bytes, d: Bytes, e: Bytes, f: Bytes, rest: Bytes)
    ensures a + b + c + d + e + f + rest == a + (b + (c + (d + (e + (f + rest)))))
  {
    Regroup5(a, b, c, d, e, f + rest);
  }
}
