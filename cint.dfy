/** Fixed-width signed integers as C and C++ have them: the ranges of int32_t and
    int64_t, two's-complement wrap-around, and C's division, which truncates
    toward zero (Dafny's own / and % are Euclidean). */
module CInt {

  /** The two widths the library instantiates its integers at. */
  datatype Width = W32 | W64

  function Modulus(w: Width): nat
  {
    match w
    case W32 => 0x1_0000_0000
    case W64 => 0x1_0000_0000_0000_0000
  }

  function MinValue(w: Width): int
  {
    match w
    case W32 => -0x8000_0000
    case W64 => -0x8000_0000_0000_0000
  }

  function MaxValue(w: Width): int
  {
    match w
    case W32 => 0x7fff_ffff
    case W64 => 0x7fff_ffff_ffff_ffff
  }

  predicate InRange(w: Width, x: int)
  {
    MinValue(w) <= x <= MaxValue(w)
  }

  type Int64 = x: int | -0x8000_0000_0000_0000 <= x <= 0x7fff_ffff_ffff_ffff

  /** Two's-complement reduction of x to width w: the only value of that width
      congruent to x modulo 2^bits. */
  function Wrap(w: Width, x: int): (r: int)
    ensures InRange(w, r)
    ensures InRange(w, x) ==> r == x
    ensures (x - r) % Modulus(w) == 0
  {
    (x - MinValue(w)) % Modulus(w) + MinValue(w)
  }

  /** Reducing an intermediate result does not change the final one: wrapping
      after every addition equals wrapping once at the end. */
  lemma WrapAdd(w: Width, a: int, b: int)
    ensures Wrap(w, Wrap(w, a) + b) == Wrap(w, a + b)
  {
    var m, lo := Modulus(w), MinValue(w);
    var p := a - lo;
    var k := p / m;
    assert p == m * k + p % m;
    assert Wrap(w, a) + b - lo == (p + b) - m * k;
    ModShift(p + b, k, w);
  }

  /** Subtracting a multiple of the modulus does not change a remainder. */
  lemma ModShift(q: int, k: int, w: Width)
    ensures (q - Modulus(w) * k) % Modulus(w) == q % Modulus(w)
  {
    var m := Modulus(w);
    var r := q % m;
    var d := q / m;
    assert q == m * d + r;
    assert q - m * k == m * (d - k) + r;
    assert 0 <= r < m;
  }

  /** Euclidean division of a non-negative number, in the form the truncating
      operators below need. */
  lemma DivideNonNegative(n: int, d: int)
    requires n >= 0 && d > 0
    ensures 0 <= n / d
    ensures (n / d) * d <= n < (n / d) * d + d
    ensures (n / d) * d + n % d == n && 0 <= n % d < d
  {
    var q, r := n / d, n % d;
    assert n == d * q + r && 0 <= r < d;
    assert d * q == q * d;
  }

  /** C's integer division for a positive divisor: the quotient truncated
      toward zero. */
  function Quot(a: int, d: int): (q: int)
    requires d > 0
    ensures a >= 0 ==> 0 <= q && q * d <= a < q * d + d
    ensures a < 0 ==> q <= 0 && q * d - d < a <= q * d
  {
    if a >= 0 then
      DivideNonNegative(a, d);
      a / d
    else
      DivideNonNegative(-a, d);
      NegateProduct((-a) / d, d);
      -((-a) / d)
  }

  lemma NegateProduct(x: int, d: int)
    ensures (-x) * d == -(x * d)
  {
  }

  /** C's remainder for a positive divisor: it takes the sign of the dividend. */
  function Rem(a: int, d: int): (r: int)
    requires d > 0
    ensures Quot(a, d) * d + r == a
    ensures a >= 0 ==> 0 <= r < d
    ensures a < 0 ==> -d < r <= 0
  {
    if a >= 0 then
      DivideNonNegative(a, d);
      a % d
    else
      DivideNonNegative(-a, d);
      NegateProduct((-a) / d, d);
      -((-a) % d)
  }
}
