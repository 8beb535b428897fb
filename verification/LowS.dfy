/** Low-S normalisation of signature values, in place, for the four recognised curves. */
module LowS {

  datatype Curve = P224 | P256 | P384 | P521 | OtherCurve(order: int)

  /** `Params().N`: the orders of FIPS 186-5's base points, and any order for another curve. */
  function Order(c: Curve): int {
    match c
    case P224 => 0xffffffffffffffffffffffffffff16a2e0b8f03e13dd29455c5c2a3d
    case P256 => 0xffffffff00000000ffffffffffffffffbce6faada7179e84f3b9cac2fc632551
    case P384 => 0xffffffffffffffffffffffffffffffffffffffffffffffffc7634d81f4372ddf581a0db248b0a77aecec196accc52973
    case P521 =>
      0x01ffffffffffffffffffffffffffffffffffffffffffffffffffffffffffffffff
      * 0x1_000000000000000000000000000000000000000000000000000000000000000000
      + 0xfa51868783bf2f966b7fcc0148f709a5d03bb5c9b8899c47aebb6fb71e91386409
    case OtherCurve(n) => n
  }

  predicate Recognised(c: Curve) { !c.OtherCurve? }

  /** `CurveHalfOrders`: each recognised order shifted right by one. */
  const CURVE_HALF_ORDERS: map<Curve, int> :=
    map c: Curve | c in {P224, P256, P384, P521} :: Order(c) / 2

  lemma RecognisedOrdersAreOdd(c: Curve)
    requires Recognised(c)
    ensures Order(c) % 2 == 1 && Order(c) > 2 && CURVE_HALF_ORDERS[c] == (Order(c) - 1) / 2
  {
  }

  /** Each order by its distance from its curve's power of two: 2^224, 2^256, 2^384 and 2^521. */
  lemma OrdersWritten()
    ensures Order(P224)
            == 0x1_00000000000000000000000000000000000000000000000000000000
               - 0xe95d1f470fc1ec22d6baa3a3d5c3
    ensures Order(P256)
            == 0x1_0000000000000000000000000000000000000000000000000000000000000000
               - 0xffffffff00000000000000004319055258e8617b0c46353d039cdaaf
    ensures Order(P384)
            == 0x1_000000000000000000000000000000000000000000000000000000000000000000000000000000000000000000000000
               - 0x389cb27e0bc8d220a7e5f24db74f58851313e695333ad68d
    ensures Order(P521)
            == 0x2_0000000000000000000000000000000000000000000000000000000000000000
               * 0x1_000000000000000000000000000000000000000000000000000000000000000000
               - 0x5ae79787c40d069948033feb708f65a2fc44a36477663b851449048e16ec79bf7
  {
  }

  /** A `*big.Int`. */
  class BigInt {
    var value: int

    constructor (v: int)
      ensures value == v
    {
      value := v;
    }

    /** `z.Sub(x, y)`; `y` may be `z` itself. */
    method Sub(x: int, y: BigInt)
      modifies this
      ensures value == x - old(y.value)
    {
      value := x - y.value;
    }
  }

  /** The normal form of `s` for order `n`: the smaller of `s` and `n - s` when 0 < s < n. */
  function Normal(n: int, s: int): int { if s <= n / 2 then s else n - s }

  method IsLowS(k: Curve, s: BigInt) returns (low: bool, known: bool)
    ensures known <==> Recognised(k)
    ensures low <==> known && s.value <= Order(k) / 2
  {
    if k !in CURVE_HALF_ORDERS {
      return false, false;
    }
    return s.value <= CURVE_HALF_ORDERS[k], true;
  }

  /** On success the result is the argument itself, overwritten by its normal form. */
  method ToLowS(k: Curve, s: BigInt) returns (r: BigInt?, changed: bool, known: bool)
    modifies s
    ensures known <==> Recognised(k)
    ensures !known ==> r == null && !changed && s.value == old(s.value)
    ensures known ==> r == s && s.value == Normal(Order(k), old(s.value))
    ensures known ==> (changed <==> s.value != old(s.value))
  {
    var lowS;
    lowS, known := IsLowS(k, s);
    if !known {
      return null, false, false;
    }
    if !lowS {
      s.Sub(Order(k), s);
      return s, true, true;
    }
    return s, false, true;
  }

  /** The normal form is low, is `s` or its negative, and is a fixed point; it moves high values only. */
  lemma CanonicalForm(n: int, s: int)
    requires n % 2 == 1 && 0 < s < n
    ensures var t := Normal(n, s);
            && 1 <= t <= n / 2
            && (t == s || t == n - s)
            && (t != s <==> s > n / 2)
            && Normal(n, t) == t
  {
  }

  /** Two values share their normal form exactly when they are equal up to sign modulo `n`. */
  lemma SameNormalForm(n: int, s: int, t: int)
    requires n % 2 == 1 && 0 < s < n && 0 < t < n
    ensures Normal(n, s) == Normal(n, t) <==> (s - t) % n == 0 || (s + t) % n == 0
  {
    SmallMultiple(n, s - t);
    SmallMultiple(n, s + t);
  }

  lemma ProductBounds(n: int, q: int)
    requires n > 0
    ensures q <= -1 ==> n * q <= -n
    ensures q >= 1 ==> n * q >= n
    ensures q >= 2 ==> n * q >= 2 * n
  {
  }

  /** Between -n and 2n the multiples of `n` are 0 and `n`. */
  lemma SmallMultiple(n: int, d: int)
    requires n > 0 && -n < d < 2 * n
    ensures d % n == 0 <==> d == 0 || d == n
  {
    ProductBounds(n, d / n);
    assert d == n * (d / n) + d % n;
  }
}
