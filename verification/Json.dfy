/** JSON values in the representation `serde_json` gives them: an object is a map from
    names to values, and a number remembers whether it was an unsigned integer, a negative
    integer or a float. */
module Json {
  import opened Wrappers

  const TWO_TO_THE_53: nat := 0x20_0000_0000_0000
  const TWO_TO_THE_63: nat := 0x8000_0000_0000_0000
  const TWO_TO_THE_64: nat := 0x1_0000_0000_0000_0000

  type NegativeI64 = n: int | -(TWO_TO_THE_63 as int) <= n < 0 witness -1

  datatype Number = PosInt(magnitude: U64) | NegInt(negative: NegativeI64) | Float(float: real) {
    /** The number itself, with no rounding. */
    function Value(): real {
      match this
      case PosInt(n) => n as real
      case NegInt(n) => n as real
      case Float(r) => r
    }

    /** The conversion to a 64-bit float, which rounds integers wider than 53 bits. */
    function AsF64(): real {
      match this
      case PosInt(n) => RoundToF64(n, 1) as real
      case NegInt(n) =>
        var i: int := n;
        -(RoundToF64(-i, 1) as real)
      case Float(r) => r
    }

    /** Stored as an integer, as opposed to a float that happens to have no fraction. */
    predicate IsInteger() {
      PosInt? || NegInt?
    }
  }

  /** Round `n` to 53 significant bits, ties to even; `unit` is the weight of the last bit
      tried so far. */
  function RoundToF64(n: nat, unit: nat): nat
    requires unit > 0
    decreases n / unit
  {
    if n / unit < TWO_TO_THE_53 then
      var quotient, remainder := n / unit, n % unit;
      if 2 * remainder < unit || (2 * remainder == unit && quotient % 2 == 0)
      then quotient * unit
      else (quotient + 1) * unit
    else
      HalvingQuotient(n, unit);
      RoundToF64(n, 2 * unit)
  }

  lemma MultiplyMonotone(a: nat, x: nat, y: nat)
    requires x <= y
    ensures a * x <= a * y
  {
  }

  lemma HalvingQuotient(n: nat, unit: nat)
    requires unit > 0 && n / unit >= TWO_TO_THE_53
    ensures n / (2 * unit) < n / unit
  {
    var quotient, half := n / unit, n / (2 * unit);
    if half >= quotient {
      MultiplyMonotone(2 * unit, quotient, half);
      MultiplyMonotone(unit, 1, quotient);
      assert false;
    }
  }

  lemma {:induction false} RoundedIsPositive(n: nat, unit: nat)
    requires unit > 0 && n / unit > 0
    ensures RoundToF64(n, unit) > 0
    decreases n / unit
  {
    if n / unit < TWO_TO_THE_53 {
      MultiplyMonotone(unit, 1, n / unit);
      MultiplyMonotone(unit, n / unit, n / unit + 1);
    } else {
      HalvingQuotient(n, unit);
      HalfOfLarge(n, unit);
      RoundedIsPositive(n, 2 * unit);
    }
  }

  lemma HalfOfLarge(n: nat, unit: nat)
    requires unit > 0 && n / unit >= 2
    ensures n / (2 * unit) > 0
  {
    MultiplyMonotone(unit, 2, n / unit);
    assert n >= 2 * unit;
    assert n == (2 * unit) * (n / (2 * unit)) + n % (2 * unit);
  }

  predicate PowerOfTwo(unit: nat) {
    unit == 1 || (unit > 1 && unit % 2 == 0 && PowerOfTwo(unit / 2))
  }

  /** `r` is the multiple of `unit` nearest to `n`, the even one of two that are as near; and
      `unit` is the weight of the last of 53 significant bits of `n`. */
  predicate Nearest(n: nat, r: nat, unit: nat) {
    && unit > 0 && PowerOfTwo(unit)
    && n / unit < 0x20_0000_0000_0000 && (unit > 1 ==> n / unit >= 0x10_0000_0000_0000)
    && r % unit == 0
    && 2 * r <= 2 * n + unit && 2 * n <= 2 * r + unit
    && (2 * r == 2 * n + unit || 2 * n == 2 * r + unit ==> r / unit % 2 == 0)
  }

  lemma {:induction false} RoundsFrom(n: nat, start: nat) returns (unit: nat)
    requires start > 0 && PowerOfTwo(start)
    requires start > 1 ==> n / start >= 0x10_0000_0000_0000
    ensures Nearest(n, RoundToF64(n, start), unit)
    decreases n / start
  {
    if n / start < TWO_TO_THE_53 {
      unit := start;
      RoundsHere(n, unit);
    } else {
      HalvingQuotient(n, start);
      HalfQuotient(n, start);
      assert (2 * start) / 2 == start && PowerOfTwo(2 * start);
      unit := RoundsFrom(n, 2 * start);
    }
  }

  lemma RoundsHere(n: nat, unit: nat)
    requires unit > 0 && PowerOfTwo(unit) && n / unit < TWO_TO_THE_53
    requires unit > 1 ==> n / unit >= 0x10_0000_0000_0000
    ensures Nearest(n, RoundToF64(n, unit), unit)
  {
    var quotient, remainder := n / unit, n % unit;
    var below := quotient * unit;
    assert n == below + remainder;
    Multiple(quotient, unit);
    Multiple(quotient + 1, unit);
    var r := RoundToF64(n, unit);
    assert r == if 2 * remainder < unit || (2 * remainder == unit && quotient % 2 == 0) then below else below + unit;
    assert r / unit == if r == below then quotient else quotient + 1;
  }

  lemma Multiple(q: nat, unit: nat)
    requires unit > 0
    ensures q * unit % unit == 0 && q * unit / unit == q
    ensures (q + 1) * unit == q * unit + unit
  {
    var m := q * unit;
    assert m == unit * (m / unit) + m % unit;
    if m / unit < q {
      MultiplyMonotone(unit, m / unit + 1, q);
    } else if m / unit > q {
      MultiplyMonotone(unit, q + 1, m / unit);
    }
  }

  lemma HalfQuotient(n: nat, unit: nat)
    requires unit > 0 && n / unit >= TWO_TO_THE_53
    ensures n / (2 * unit) >= 0x10_0000_0000_0000
  {
    MultiplyMonotone(unit, TWO_TO_THE_53, n / unit);
    if n / (2 * unit) < 0x10_0000_0000_0000 {
      MultiplyMonotone(2 * unit, n / (2 * unit) + 1, 0x10_0000_0000_0000);
    }
  }

  /** An integer becomes the nearest float, the even one of two that are as near. */
  lemma RoundsToNearest(n: U64) returns (unit: nat)
    ensures Nearest(n, RoundToF64(n, 1), unit)
    ensures PosInt(n).AsF64() == RoundToF64(n, 1) as real
    ensures 0 < n <= TWO_TO_THE_63 ==> NegInt(-(n as int)).AsF64() == -(RoundToF64(n, 1) as real)
  {
    unit := RoundsFrom(n, 1);
  }

  /** A 53-bit integer is its own float. */
  lemma SmallIntegersAreExact(n: Number)
    requires n.IsInteger() ==> -(TWO_TO_THE_53 as real) < n.Value() < TWO_TO_THE_53 as real
    ensures n.AsF64() == n.Value()
  {
    match n
    case PosInt(m) => assert m / 1 == m && m % 1 == 0;
    case NegInt(m) =>
      var i: int := m;
      assert (-i) / 1 == -i && (-i) % 1 == 0;
    case Float(_) =>
  }

  datatype JSON =
    | Null
    | Bool(b: bool)
    | Num(n: Number)
    | Str(s: string)
    | Arr(items: seq<JSON>)
    | Obj(fields: map<string, JSON>)
  {
    /** `Value::get`: a member of an object, nothing for any other value. */
    function Get(name: string): Option<JSON> {
      if Obj? && name in fields then Some(fields[name]) else None
    }
  }

  function GetStr(value: JSON, name: string): Option<string> {
    match value.Get(name)
    case Some(Str(s)) => Some(s)
    case _ => None
  }

  function GetArr(value: JSON, name: string): Option<seq<JSON>> {
    match value.Get(name)
    case Some(Arr(items)) => Some(items)
    case _ => None
  }

  function GetObj(value: JSON, name: string): Option<map<string, JSON>> {
    match value.Get(name)
    case Some(Obj(fields)) => Some(fields)
    case _ => None
  }

  /** Equality as JSON Schema defines it: numbers by value, so 1 and 1.0 are equal. */
  ghost predicate JsonEqual(a: JSON, b: JSON)
    decreases a
  {
    match (a, b)
    case (Num(m), Num(n)) => m.Value() == n.Value()
    case (Arr(xs), Arr(ys)) =>
      |xs| == |ys| && forall i :: 0 <= i < |xs| ==> JsonEqual(xs[i], ys[i])
    case (Obj(f), Obj(g)) =>
      f.Keys == g.Keys && forall k :: k in f ==> JsonEqual(f[k], g[k])
    case (_, _) => a == b
  }

  lemma {:induction false} JsonEqualReflexive(a: JSON)
    ensures JsonEqual(a, a)
    decreases a
  {
    match a
    case Arr(xs) =>
      forall i | 0 <= i < |xs| ensures JsonEqual(xs[i], xs[i]) {
        JsonEqualReflexive(xs[i]);
      }
    case Obj(f) =>
      forall k | k in f ensures JsonEqual(f[k], f[k]) {
        JsonEqualReflexive(f[k]);
      }
    case _ =>
  }

  lemma {:induction false} JsonEqualSymmetric(a: JSON, b: JSON)
    requires JsonEqual(a, b)
    ensures JsonEqual(b, a)
    decreases a
  {
    match (a, b)
    case (Arr(xs), Arr(ys)) =>
      forall i | 0 <= i < |xs| ensures JsonEqual(ys[i], xs[i]) {
        JsonEqualSymmetric(xs[i], ys[i]);
      }
    case (Obj(f), Obj(g)) =>
      forall k | k in f ensures JsonEqual(g[k], f[k]) {
        JsonEqualSymmetric(f[k], g[k]);
      }
    case _ =>
  }

  lemma {:induction false} JsonEqualTransitive(a: JSON, b: JSON, c: JSON)
    requires JsonEqual(a, b) && JsonEqual(b, c)
    ensures JsonEqual(a, c)
    decreases a
  {
    match (a, b, c)
    case (Arr(xs), Arr(ys), Arr(zs)) =>
      forall i | 0 <= i < |xs| ensures JsonEqual(xs[i], zs[i]) {
        JsonEqualTransitive(xs[i], ys[i], zs[i]);
      }
    case (Obj(f), Obj(g), Obj(h)) =>
      forall k | k in f ensures JsonEqual(f[k], h[k]) {
        JsonEqualTransitive(f[k], g[k], h[k]);
      }
    case _ =>
  }
}
