/** Go's integer arithmetic: fixed widths and division that truncates towards zero. */
module GoArithmetic {

  /** Go's remainder takes the sign of the dividend. */
  function GoMod(a: int, b: int): int
    requires b > 0
  {
    if a >= 0 then a % b else -((-a) % b)
  }

  /** Go's division truncates towards zero. */
  function GoDiv(a: int, b: int): int
    requires b > 0
  {
    if a >= 0 then a / b else -((-a) / b)
  }

  function Uint32(x: int): nat {
    x % 0x1_0000_0000
  }

  function Int64(x: int): int {
    (x + 0x8000_0000_0000_0000) % 0x1_0000_0000_0000_0000 - 0x8000_0000_0000_0000
  }

  function Int32(x: int): int {
    (x + 0x8000_0000) % 0x1_0000_0000 - 0x8000_0000
  }

  /** Conversions keep the low bits and land in the range of the type. */
  lemma ConversionsAre(x: int)
    ensures 0 <= Uint32(x) < 0x1_0000_0000 && (x - Uint32(x)) % 0x1_0000_0000 == 0
    ensures -0x8000_0000 <= Int32(x) < 0x8000_0000 && (x - Int32(x)) % 0x1_0000_0000 == 0
    ensures -0x8000_0000_0000_0000 <= Int64(x) < 0x8000_0000_0000_0000
      && (x - Int64(x)) % 0x1_0000_0000_0000_0000 == 0
  {}

  /** The quotient times the divisor and the remainder give the dividend; the remainder is shorter than the
      divisor and on the dividend's side of zero. */
  lemma DivisionIs(a: int, b: int)
    requires b > 0
    ensures a == GoDiv(a, b) * b + GoMod(a, b)
    ensures if a >= 0 then 0 <= GoMod(a, b) < b else -b < GoMod(a, b) <= 0
  {
    DivMod(a, b);
    DivMod(-a, b);
  }

  /** Taking the remainder off leaves a multiple. */
  lemma MultipleOf(a: int, m: int)
    requires m > 0
    ensures (a - GoMod(a, m)) % m == 0
    ensures -m < a < 0 ==> GoMod(a, m) == a
  {
    if a >= 0 {
      MultipleOfNat(a, m);
    } else {
      MultipleOfNat(-a, m);
      DivMod(-a, m);
      ModUnique(a - GoMod(a, m), m, -((-a) / m), 0);
      if -m < a {
        SmallMod(-a, m);
      }
    }
  }

  lemma MultipleOfNat(a: int, m: int)
    requires m > 0 && a >= 0
    ensures (a - a % m) % m == 0
  {
    DivMod(a, m);
    ModUnique(a - a % m, m, a / m, 0);
  }

  lemma DivMod(a: int, m: int)
    requires m > 0
    ensures a == (a / m) * m + a % m
  {}

  lemma SmallMod(a: int, m: int)
    requires 0 <= a < m
    ensures a % m == a
  {}

  lemma ModUnique(a: int, m: int, q: int, r: int)
    requires m > 0 && a == q * m + r && 0 <= r < m
    ensures a % m == r && a / m == q
  {
    DivMod(a, m);
    var d := q - a / m;
    assert d * m == a % m - r by {
      assert d * m == q * m - (a / m) * m;
    }
    MulMono(1, d, m);
    MulMono(d, -1, m);
  }

  lemma MulMono(a: int, b: int, m: int)
    requires m > 0
    ensures a <= b ==> a * m <= b * m
  {}

  /** Adding a multiple does not change a remainder. */
  lemma ModShift(a: int, r: int, m: int)
    requires m > 0 && a % m == 0 && 0 <= r < m
    ensures (a + r) % m == r
  {
    DivMod(a, m);
    ModUnique(a + r, m, a / m, r);
  }

  lemma NextMultiple(q: int, m: int)
    ensures (q + 1) * m == q * m + m
  {}

  function Pow2(n: nat): (r: nat)
    ensures r > n
  {
    if n == 0 then 1 else 2 * Pow2(n - 1)
  }

  lemma {:induction false} Pow2Sum(a: nat, b: nat)
    ensures Pow2(a + b) == Pow2(a) * Pow2(b)
  {
    if a > 0 {
      Pow2Sum(a - 1, b);
      TwiceProduct(Pow2(a - 1), Pow2(b));
    }
  }

  lemma TwiceProduct(x: int, y: int)
    ensures 2 * (x * y) == (2 * x) * y
  {}

  lemma {:induction false} Pow2Monotone(a: nat, b: nat)
    requires a <= b
    ensures Pow2(a) <= Pow2(b)
  {
    if a < b {
      Pow2Monotone(a, b - 1);
    }
  }
}
