/**
 Products of 64-bit integers assembled from 32-bit halves
 (include/spdlog/fmt/bundled/format-inl.h). A let-binding of type U64 is a
 machine word: giving it a value that does not fit would be an error.
 */
module WideMultiply {
  import opened Powers
  import opened Digits

  /** The schoolbook identity behind all the portable products. */
  lemma FourProducts(x: U64, y: U64)
    ensures var a, b, c, d := x / 0x1_0000_0000, x % 0x1_0000_0000, y / 0x1_0000_0000, y % 0x1_0000_0000;
      x * y == 0x1_0000_0000_0000_0000 * (a * c) + 0x1_0000_0000 * (a * d + b * c) + b * d
  {
    var a, b, c, d := x / 0x1_0000_0000, x % 0x1_0000_0000, y / 0x1_0000_0000, y % 0x1_0000_0000;
    Expand(a, b, c, d);
    assert x == 0x1_0000_0000 * a + b && y == 0x1_0000_0000 * c + d;
  }

  lemma Expand(a: int, b: int, c: int, d: int)
    ensures (0x1_0000_0000 * a + b) * (0x1_0000_0000 * c + d)
         == 0x1_0000_0000_0000_0000 * (a * c) + 0x1_0000_0000 * (a * d + b * c) + b * d
  {
    Distrib(0x1_0000_0000 * a, b, 0x1_0000_0000 * c + d);
    assert 0x1_0000_0000 * a * (0x1_0000_0000 * c + d) == 0x1_0000_0000 * (a * (0x1_0000_0000 * c + d));
    assert a * (0x1_0000_0000 * c + d) == 0x1_0000_0000 * (a * c) + a * d;
    assert b * (0x1_0000_0000 * c + d) == 0x1_0000_0000 * (b * c) + b * d;
  }

  /** Every product of two 32-bit halves leaves room for two more halves. */
  lemma HalfProducts(x: U64, y: U64)
    ensures forall p, q :: HalfOf(p, x) && HalfOf(q, y) ==> 0 <= p * q <= 0xFFFF_FFFE_0000_0001
  {
    forall p, q | HalfOf(p, x) && HalfOf(q, y)
      ensures 0 <= p * q <= 0xFFFF_FFFE_0000_0001
    {
      MulMono(q, p, 0xFFFF_FFFF);
      MulMono(q, 0, p);
    }
  }

  ghost predicate HalfOf(p: int, x: U64)
  {
    p == x / 0x1_0000_0000 || p == x % 0x1_0000_0000
  }

  datatype Halves = Halves(ac: U64, bc: U64, ad: U64, bd: U64)

  function Products(x: U64, y: U64): (h: Halves)
    ensures x * y == 0x1_0000_0000_0000_0000 * h.ac + 0x1_0000_0000 * (h.ad + h.bc) + h.bd
    ensures h.ac <= 0xFFFF_FFFE_0000_0001 && h.bc <= 0xFFFF_FFFE_0000_0001
    ensures h.ad <= 0xFFFF_FFFE_0000_0001 && h.bd <= 0xFFFF_FFFE_0000_0001
  {
    var a, b, c, d := x / 0x1_0000_0000, x % 0x1_0000_0000, y / 0x1_0000_0000, y % 0x1_0000_0000;
    FourProducts(x, y);
    HalfProducts(x, y);
    assert HalfOf(a, x) && HalfOf(b, x) && HalfOf(c, y) && HalfOf(d, y);
    Halves(a * c, b * c, a * d, b * d)
  }

  /** x * y / 2^64, rounded half up: the product of two significands. */
  function Multiply(lhs: U64, rhs: U64): (r: U64)
    ensures r == (lhs * rhs + 0x8000_0000_0000_0000) / 0x1_0000_0000_0000_0000
  {
    var h := Products(lhs, rhs);
    ProductBound(lhs, rhs);
    hide *;
    var mid: U64 := h.bd / 0x1_0000_0000 + h.ad % 0x1_0000_0000 + h.bc % 0x1_0000_0000 + 0x8000_0000;
    var r := h.ac + h.ad / 0x1_0000_0000 + h.bc / 0x1_0000_0000 + mid / 0x1_0000_0000;
    r
  }

  /** The same with a 128-bit product: the bit below the upper half rounds. */
  function MultiplyInt128(lhs: U64, rhs: U64): (r: U64)
    ensures r == Multiply(lhs, rhs)
  {
    var product: int := (lhs as int) * rhs;
    ProductBound(lhs, rhs);
    hide *;
    var f := product / 0x1_0000_0000_0000_0000;
    if product / 0x8000_0000_0000_0000 % 2 != 0 then f + 1 else f
  }

  lemma ProductBound(x: U64, y: U64)
    ensures 0 <= x * y <= 0xFFFF_FFFF_FFFF_FFFF * 0xFFFF_FFFF_FFFF_FFFF
  {
    MulMono(y, x, 0xFFFF_FFFF_FFFF_FFFF);
    MulMono(y, 0, x);
  }

  datatype U128 = U128(high: U64, low: U64)
  {
    function Value(): nat {
      0x1_0000_0000_0000_0000 * high + low
    }

    /** operator+=: the carry is seen from the wrapped low word. */
    function Add(n: U64): (r: U128)
      ensures r.Value() == (Value() + n) % 0x1_0000_0000_0000_0000_0000_0000_0000_0000
    {
      var sum := (low + n) % 0x1_0000_0000_0000_0000;
      var carry := if sum < low then 1 else 0;
      assert sum + 0x1_0000_0000_0000_0000 * carry == low + n;
      WrapHigh(high + carry, sum);
      U128((high + carry) % 0x1_0000_0000_0000_0000, sum)
    }
  }

  lemma WrapHigh(high: nat, low: U64)
    requires high <= 0x1_0000_0000_0000_0000
    ensures (0x1_0000_0000_0000_0000 * high + low) % 0x1_0000_0000_0000_0000_0000_0000_0000_0000
         == 0x1_0000_0000_0000_0000 * (high % 0x1_0000_0000_0000_0000) + low
  {
    if high == 0x1_0000_0000_0000_0000 {
      assert high % 0x1_0000_0000_0000_0000 == 0;
    }
  }

  function Umul128(x: U64, y: U64): (r: U128)
    ensures r.Value() == x * y
  {
    var h := Products(x, y);
    ProductBound(x, y);
    hide Products;
    var intermediate: U64 := h.bd / 0x1_0000_0000 + h.ad % 0x1_0000_0000 + h.bc % 0x1_0000_0000;
    MiddleShift(intermediate);
    var high := h.ac + intermediate / 0x1_0000_0000 + h.ad / 0x1_0000_0000 + h.bc / 0x1_0000_0000;
    var low := intermediate * 0x1_0000_0000 % 0x1_0000_0000_0000_0000 + h.bd % 0x1_0000_0000;
    Reassemble(h.ac, h.bc, h.ad, h.bd, intermediate, high, low, x * y);
    U128(high, low)
  }

  lemma Reassemble(ac: U64, bc: U64, ad: U64, bd: U64, m: U64, high: int, low: int, product: int)
    requires product == 0x1_0000_0000_0000_0000 * ac + 0x1_0000_0000 * (ad + bc) + bd
    requires product < 0x1_0000_0000_0000_0000_0000_0000_0000_0000
    requires m == bd / 0x1_0000_0000 + ad % 0x1_0000_0000 + bc % 0x1_0000_0000
    requires high == ac + m / 0x1_0000_0000 + ad / 0x1_0000_0000 + bc / 0x1_0000_0000
    requires low == m % 0x1_0000_0000 * 0x1_0000_0000 + bd % 0x1_0000_0000
    ensures 0x1_0000_0000_0000_0000 * high + low == product
    ensures 0 <= high < 0x1_0000_0000_0000_0000 && 0 <= low < 0x1_0000_0000_0000_0000
  {}

  /** Shifting the middle word left keeps its low half, as the new upper half. */
  lemma MiddleShift(m: U64)
    ensures m * 0x1_0000_0000 % 0x1_0000_0000_0000_0000 == m % 0x1_0000_0000 * 0x1_0000_0000
  {
    assert m * 0x1_0000_0000 == m / 0x1_0000_0000 * 0x1_0000_0000_0000_0000 + m % 0x1_0000_0000 * 0x1_0000_0000;
  }

  function Umul128Upper64(x: U64, y: U64): (r: U64)
    ensures r == x * y / 0x1_0000_0000_0000_0000
  {
    Umul128(x, y).high
  }

  /** The upper 64 of the 192 bits of x * y. */
  function Umul192Upper64(x: U64, y: U128): (r: U64)
    ensures r == x * y.Value() / 0x1_0000_0000_0000_0000_0000_0000_0000_0000
  {
    var sum := Umul128(x, y.high).Add(Umul128Upper64(x, y.low));
    WideProduct(x, y);
    ProductBound(x, y.high);
    ProductBound(x, y.low);
    UpperWord(sum, x * y.high, x * y.low);
    hide *;
    sum.high
  }

  /** The two products fit 128 bits together, so nothing wraps. */
  lemma UpperWord(sum: U128, p: int, q: int)
    requires 0 <= p <= 0xFFFF_FFFF_FFFF_FFFF * 0xFFFF_FFFF_FFFF_FFFF
    requires 0 <= q <= 0xFFFF_FFFF_FFFF_FFFF * 0xFFFF_FFFF_FFFF_FFFF
    requires sum.Value() == (p + q / 0x1_0000_0000_0000_0000) % 0x1_0000_0000_0000_0000_0000_0000_0000_0000
    ensures sum.high == (0x1_0000_0000_0000_0000 * p + q) / 0x1_0000_0000_0000_0000_0000_0000_0000_0000
  {
    var t := p + q / 0x1_0000_0000_0000_0000;
    assert t % 0x1_0000_0000_0000_0000_0000_0000_0000_0000 == t;
    assert sum.Value() / 0x1_0000_0000_0000_0000 == sum.high;
  }

  /** The middle 64 of the 192 bits of x * y; both terms and their sum wrap. */
  function Umul192Middle64(x: U64, y: U128): (r: U64)
    ensures r == x * y.Value() / 0x1_0000_0000_0000_0000 % 0x1_0000_0000_0000_0000
  {
    WideProduct(x, y);
    MiddleWord(x * y.high, x * y.low);
    hide *;
    var g01 := (x * y.high) % 0x1_0000_0000_0000_0000;
    var g10 := Umul128Upper64(x, y.low);
    (g01 + g10) % 0x1_0000_0000_0000_0000
  }

  lemma MiddleWord(p: int, q: int)
    ensures (p % 0x1_0000_0000_0000_0000 + q / 0x1_0000_0000_0000_0000) % 0x1_0000_0000_0000_0000
         == (0x1_0000_0000_0000_0000 * p + q) / 0x1_0000_0000_0000_0000 % 0x1_0000_0000_0000_0000
  {
    assert (0x1_0000_0000_0000_0000 * p + q) / 0x1_0000_0000_0000_0000 == p + q / 0x1_0000_0000_0000_0000;
    assert p == p / 0x1_0000_0000_0000_0000 * 0x1_0000_0000_0000_0000 + p % 0x1_0000_0000_0000_0000;
  }

  lemma WideProduct(x: U64, y: U128)
    ensures x * y.Value() == 0x1_0000_0000_0000_0000 * (x * y.high) + x * y.low
  {}
}
