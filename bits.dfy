/** Unsigned integer bit operations as C performs them on `unsigned int`
    values, and the three field-extraction macros of the encoder
    (UPPER_BITS, LOWER_BITS, MIDDLE_BITS in glyphy_lib.cc).

    Values are natural numbers; `>>` and `<<` are division and
    multiplication by a power of two, and `&` / `|` are defined bit by bit,
    so that the masks and the packing of the endpoint record are modelled
    as written rather than replaced by arithmetic. */
module Bits {

  function Pow2(n: nat): (r: nat)
    ensures r >= 1
  {
    if n == 0 then 1 else 2 * Pow2(n - 1)
  }

  lemma Pow2Values()
    ensures Pow2(4) == 16 && Pow2(8) == 256 && Pow2(16) == 65536 && Pow2(24) == 0x100_0000
  {
  }

  lemma {:induction false} Pow2Add(a: nat, b: nat)
    ensures Pow2(a + b) == Pow2(a) * Pow2(b)
  {
    if a > 0 {
      Pow2Add(a - 1, b);
    }
  }

  /** `v >> n` on an unsigned value. */
  function Shr(v: nat, n: nat): nat
  {
    var p := Pow2(n);
    DivNonNegative(v, p);
    v / p
  }

  lemma DivNonNegative(v: nat, p: nat)
    requires p > 0
    ensures v / p >= 0
  {
  }

  /** `v << n` on an unsigned value that does not overflow. */
  function Shl(v: nat, n: nat): nat
  {
    v * Pow2(n)
  }

  /** Bitwise `&`, one bit at a time from the least significant. */
  function BitAnd(x: nat, y: nat): nat
  {
    if x == 0 || y == 0 then 0
    else 2 * BitAnd(x / 2, y / 2) + (if x % 2 == 1 && y % 2 == 1 then 1 else 0)
  }

  /** Bitwise `|`, one bit at a time from the least significant. */
  function BitOr(x: nat, y: nat): nat
  {
    if x == 0 then y
    else if y == 0 then x
    else 2 * BitOr(x / 2, y / 2) + (if x % 2 == 1 || y % 2 == 1 then 1 else 0)
  }

  /** The division equation for a positive divisor. */
  lemma DivMod(x: nat, d: nat)
    requires d > 0
    ensures x == (x / d) * d + x % d && 0 <= x % d < d
  {
  }

  lemma MulLeMono(a: nat, b: nat, c: nat)
    requires a <= b
    ensures a * c <= b * c
  {
  }

  lemma MulDistSub(a: int, b: int, c: int)
    ensures (a - b) * c == a * c - b * c
  {
  }

  /** Quotient and remainder are determined by the division equation. */
  lemma DivModUnique(x: nat, d: nat, q: nat, r: nat)
    requires d > 0 && r < d && x == q * d + r
    ensures x / d == q && x % d == r
  {
    var q', r' := x / d, x % d;
    DivMod(x, d);
    if q > q' {
      MulLeMono(1, q - q', d);
      MulDistSub(q, q', d);
      assert false;
    } else if q < q' {
      MulLeMono(1, q' - q, d);
      MulDistSub(q', q, d);
      assert false;
    }
  }

  lemma ModBelow(x: nat, d: nat)
    requires d > 0
    ensures x < d ==> x % d == x
  {
    if x < d {
      DivModUnique(x, d, 0, x);
    }
  }

  /** Removing the lowest bit and then the next n bits is removing n + 1 bits. */
  lemma ModPow2Step(x: nat, n: nat)
    requires n > 0
    ensures x % Pow2(n) == 2 * ((x / 2) % Pow2(n - 1)) + x % 2
  {
    var m := Pow2(n - 1);
    var h := x / 2;
    assert x == 2 * h + x % 2;
    assert h == (h / m) * m + h % m;
    assert x == (h / m) * (2 * m) + (2 * (h % m) + x % 2);
    DivModUnique(x, 2 * m, h / m, 2 * (h % m) + x % 2);
  }

  /** And-ing with an odd mask keeps the lowest bit and masks the rest with
      the mask's upper bits. */
  lemma BitAndOddMask(x: nat, y: nat)
    requires x > 0 && y % 2 == 1
    ensures BitAnd(x, y) == 2 * BitAnd(x / 2, y / 2) + x % 2
  {
  }

  /** A mask of n one-bits keeps exactly the remainder modulo 2^n. */
  lemma {:induction false} AndLowMask(x: nat, n: nat)
    ensures BitAnd(x, Pow2(n) - 1) == x % Pow2(n)
  {
    if n > 0 && x > 0 {
      var m := Pow2(n - 1);
      var y := Pow2(n) - 1;
      assert y == (m - 1) * 2 + 1;
      DivModUnique(y, 2, m - 1, 1);
      BitAndOddMask(x, y);
      AndLowMask(x / 2, n - 1);
      ModPow2Step(x, n);
    } else if n == 0 {
      DivModUnique(x, 1, x, 0);
    } else {
      DivModUnique(0, Pow2(n), 0, 0);
    }
  }

  /** Or-ing a value shifted left by k with a value below 2^k adds them. */
  lemma {:induction false} OrDisjoint(a: nat, b: nat, k: nat)
    requires b < Pow2(k)
    ensures BitOr(a * Pow2(k), b) == a * Pow2(k) + b
  {
    var x := a * Pow2(k);
    if k > 0 && a > 0 && b > 0 {
      var m := Pow2(k - 1);
      assert x == 2 * (a * m);
      assert x / 2 == a * m && x % 2 == 0;
      OrDisjoint(a, b / 2, k - 1);
      assert BitOr(x, b) == 2 * (a * m + b / 2) + b % 2;
    }
  }

  /** UPPER_BITS(v, bits, total_bits): the top `bits` of a `total_bits`-wide value. */
  function UpperBits(v: nat, bits: nat, totalBits: nat): (r: nat)
    requires bits <= totalBits
    ensures r * Pow2(totalBits - bits) <= v < (r + 1) * Pow2(totalBits - bits)
    ensures v < Pow2(totalBits) ==> r < Pow2(bits)
  {
    var k := totalBits - bits;
    var r := Shr(v, k);
    UpperBitsBounds(v, bits, k, r);
    r
  }

  lemma UpperBitsBounds(v: nat, bits: nat, k: nat, r: nat)
    requires r == v / Pow2(k)
    ensures r * Pow2(k) <= v < (r + 1) * Pow2(k)
    ensures v < Pow2(bits + k) ==> r < Pow2(bits)
  {
    var p := Pow2(k);
    DivMod(v, p);
    assert (r + 1) * p == r * p + p;
    if v < Pow2(bits + k) && r >= Pow2(bits) {
      Pow2Add(bits, k);
      MulLeMono(Pow2(bits), r, p);
      assert false;
    }
  }

  /** LOWER_BITS(v, bits, total_bits): `v & ((1 << bits) - 1)`; total_bits is unused. */
  function LowerBits(v: nat, bits: nat, totalBits: nat): (r: nat)
    ensures r == v % Pow2(bits)
    ensures r < Pow2(bits) && r <= v
    ensures (v - r) % Pow2(bits) == 0
  {
    AndLowMask(v, bits);
    var r := BitAnd(v, Shl(1, bits) - 1);
    LowerBitsBounds(v, Pow2(bits), r);
    r
  }

  lemma LowerBitsBounds(v: nat, p: nat, r: nat)
    requires p > 0 && r == v % p
    ensures r < p && r <= v && (v - r) % p == 0
  {
    DivMod(v, p);
    MulLeMono(0, v / p, p);
    DivModUnique(v - r, p, v / p, 0);
  }

  /** MIDDLE_BITS(v, bits, upper_bound, total_bits): the `bits` just below
      bit `upper_bound`, i.e. UPPER_BITS(LOWER_BITS(v, upper_bound), bits, upper_bound). */
  function MiddleBits(v: nat, bits: nat, upperBound: nat, totalBits: nat): (r: nat)
    requires bits <= upperBound
    ensures r < Pow2(bits)
    ensures r == (v % Pow2(upperBound)) / Pow2(upperBound - bits)
  {
    AndLowMask(v, upperBound);
    UpperBits(LowerBits(v, upperBound, totalBits), bits, upperBound)
  }

  /** Conversion to `unsigned char`: keep the low eight bits. */
  function ToByte(v: nat): (r: nat)
    ensures r < 256 && (v - r) % 256 == 0
  {
    v % 256
  }
}
