/** Bitwise operators on integers, with JavaScript's 32-bit conversions written
    out, and the facts that turn masks and shifts into integer division. */
module Bits {

  function Pow2(k: nat): (r: nat)
    ensures r >= 1
  {
    if k == 0 then 1 else 2 * Pow2(k - 1)
  }

  const TWO32: nat := 0x1_0000_0000

  /** Bitwise and of two non-negative integers. */
  function And(x: nat, y: nat): nat {
    if x == 0 || y == 0 then 0
    else (x % 2) * (y % 2) + 2 * And(x / 2, y / 2)
  }

  /** Bitwise or of two non-negative integers. */
  function Or(x: nat, y: nat): nat
    decreases x + y
  {
    if x == 0 then y else if y == 0 then x
    else (if x % 2 == 1 || y % 2 == 1 then 1 else 0) + 2 * Or(x / 2, y / 2)
  }

  // ----- JavaScript number operators ------------------------------------

  /** The conversion done by `>>> 0`. */
  function ToUint32(x: int): (r: nat)
    ensures r < TWO32
  {
    x % TWO32
  }

  /** The conversion every signed 32-bit operator applies to its operands and result. */
  function ToInt32(x: int): (r: int)
    ensures -0x8000_0000 <= r < 0x8000_0000
  {
    var u := x % TWO32;
    if u >= 0x8000_0000 then u - TWO32 else u
  }

  /** `x << k`: the count is taken modulo 32. */
  function JsShl(x: int, k: int): int {
    ToInt32(ToInt32(x) * Pow2(k % 32))
  }

  /** `x & y` on numbers. */
  function JsAnd(x: int, y: int): int {
    ToInt32(And(ToUint32(x), ToUint32(y)))
  }

  /** `x | y` on numbers. */
  function JsOr(x: int, y: int): int {
    ToInt32(Or(ToUint32(x), ToUint32(y)))
  }

  // ----- dropping low bits ----------------------------------------------

  /** `x` without its `s` lowest bits. */
  function High(x: nat, s: nat): nat {
    if s == 0 then x else High(x / 2, s - 1)
  }

  lemma {:induction false} HighHigh(x: nat, s: nat, t: nat)
    ensures High(x, s + t) == High(High(x, s), t)
    decreases s
  {
    if s > 0 { HighHigh(x / 2, s - 1, t); }
  }

  /** Coarsening: numbers that agree above bit `s` agree above every higher bit. */
  lemma HighCoarsen(x: nat, y: nat, s: nat, t: nat)
    requires s <= t && High(x, s) == High(y, s)
    ensures High(x, t) == High(y, t)
  {
  }

  lemma MulAtLeast(k: int, d: int)
    requires k >= 1 && d > 0
    ensures k * d >= d
  {
  }

  lemma DivUnique(x: nat, d: nat, q: nat, r: nat)
    requires d > 0 && r < d && x == q * d + r
    ensures x / d == q
  {
    var q', r' := x / d, x % d;
    assert x == d * q' + r';
    assert (q - q') * d == q * d - q' * d;
    assert (q' - q) * d == q' * d - q * d;
    if q > q' {
      MulAtLeast(q - q', d);
    } else if q < q' {
      MulAtLeast(q' - q, d);
    }
  }

  lemma HalfThenDivide(x: nat, h: nat)
    requires h > 0
    ensures x / (2 * h) == (x / 2) / h
  {
    var y := x / 2;
    var q, r := y / h, y % h;
    assert y == h * q + r;
    assert q * (2 * h) == 2 * (h * q);
    DivUnique(x, 2 * h, q, 2 * r + x % 2);
  }

  /** Dropping `s` bits is integer division by 2^s. */
  lemma {:induction false} HighIsQuotient(x: nat, s: nat)
    ensures High(x, s) == x / Pow2(s)
    decreases s
  {
    if s > 0 {
      HighIsQuotient(x / 2, s - 1);
      HalfThenDivide(x, Pow2(s - 1));
    }
  }

  lemma {:induction false} Pow2Add(a: nat, b: nat)
    ensures Pow2(a + b) == Pow2(a) * Pow2(b)
    decreases b
  {
    if b > 0 {
      Pow2Add(a, b - 1);
      assert Pow2(a) * (2 * Pow2(b - 1)) == 2 * (Pow2(a) * Pow2(b - 1));
    }
  }

  lemma Pow2Values()
    ensures Pow2(8) == 256 && Pow2(16) == 65536 && Pow2(24) == 0x100_0000 && Pow2(32) == TWO32
  {
    assert Pow2(8) == 256;
    Pow2Add(8, 8);
    Pow2Add(16, 8);
    Pow2Add(16, 16);
  }

  // ----- masks ----------------------------------------------------------

  /** The word of `len` ones followed by `s` zeros. */
  function Mask(len: nat, s: nat): nat {
    (Pow2(len) - 1) * Pow2(s)
  }

  lemma MaskDoubles(len: nat, s: nat)
    requires s > 0
    ensures Mask(len, s) == 2 * Mask(len, s - 1)
  {
  }

  lemma {:induction false} AndOnes(x: nat, len: nat)
    requires x < Pow2(len)
    ensures And(x, Pow2(len) - 1) == x
    decreases len
  {
    if len > 0 && x > 0 {
      AndOnes(x / 2, len - 1);
    }
  }

  /** Two words agree under a mask of `len` ones over `s` zeros exactly when they
      agree above bit `s`, provided both have at most `len + s` bits. */
  lemma {:induction false} MaskedEqual(x: nat, y: nat, len: nat, s: nat)
    requires x < Pow2(len + s) && y < Pow2(len + s)
    ensures And(x, Mask(len, s)) == And(y, Mask(len, s)) <==> High(x, s) == High(y, s)
    decreases s
  {
    if s == 0 {
      AndOnes(x, len);
      AndOnes(y, len);
    } else {
      MaskedEqual(x / 2, y / 2, len, s - 1);
      MaskDoubles(len, s);
      AndEven(x, Mask(len, s - 1));
      AndEven(y, Mask(len, s - 1));
    }
  }

  lemma AndEven(x: nat, m: nat)
    ensures And(x, 2 * m) == 2 * And(x / 2, m)
  {
  }

  lemma {:induction false} AndBound(x: nat, y: nat)
    ensures And(x, y) <= x
    decreases x
  {
    if x != 0 && y != 0 { AndBound(x / 2, y / 2); }
  }

  /** Or with a number that fits below the shift is addition. */
  lemma {:induction false} OrShifted(h: nat, k: nat, low: nat)
    requires low < Pow2(k)
    ensures Or(h * Pow2(k), low) == h * Pow2(k) + low
    decreases k
  {
    if k > 0 {
      var y := h * Pow2(k - 1);
      assert h * Pow2(k) == 2 * y;
      OrShifted(h, k - 1, low / 2);
      if y > 0 && low > 0 {
        assert Or(2 * y, low) == low % 2 + 2 * Or(y, low / 2);
      }
    }
  }
}
