/** Compression of transaction output amounts (blockchain/compress.go). */
module Amounts {
  import opened Vlq

  /** Divide out up to k factors of ten; the reduced value and the number of factors. */
  function StripTens(n: nat, k: nat): (r: (nat, nat))
    ensures n > 0 ==> r.0 > 0
    ensures r.1 <= k && (r.1 < k ==> r.0 % 10 != 0)
    decreases k
  {
    if n % 10 == 0 && k > 0 then
      var (m, e) := StripTens(n / 10, k - 1);
      (m, e + 1)
    else (n, 0)
  }

  /** Append e decimal zeros. */
  function Scale(n: nat, e: nat): (r: nat)
    ensures r >= n
  {
    if e == 0 then n else 10 * Scale(n, e - 1)
  }

  /** The compressed amount over the integers. */
  function Compressed(amount: nat): nat {
    if amount == 0 then 0 else
    var (m, e) := StripTens(amount, 9);
    if e < 9 then 1 + 10 * (9 * (m / 10) + (m % 10 - 1)) + e else 10 + 10 * (m - 1)
  }

  /** The original amount over the integers. */
  function Decompressed(x: nat): nat {
    if x == 0 then 0 else
    var e, q := (x - 1) % 10, (x - 1) / 10;
    var n := if e < 9 then q / 9 * 10 + q % 9 + 1 else q + 1;
    Scale(n, e)
  }

  const TENS: seq<nat> := [1, 10, 100, 1_000, 10_000, 100_000, 1_000_000, 10_000_000, 100_000_000, 1_000_000_000]

  lemma {:induction false} ScaleIs(n: nat, e: nat)
    requires e <= 9
    ensures Scale(n, e) == n * TENS[e]
  {
    if e > 0 {
      ScaleIs(n, e - 1);
      assert TENS[e] == 10 * TENS[e - 1];
    }
  }

  /** An amount is a number with as many zeros appended as it ends in, nine at most.  The compressed
      amount holds the zeros in its last decimal digit; its other digits hold the number, of which the
      last digit is never zero while fewer than nine zeros were taken off. */
  lemma CompressedIs(m: nat, e: nat)
    requires m > 0 && e <= 9 && (e < 9 ==> m % 10 != 0)
    ensures Compressed(m * TENS[e]) == 1 + e + 10 * (if e < 9 then m / 10 * 9 + m % 10 - 1 else m - 1)
    ensures Compressed(0) == 0
  {
    ScaleIs(m, e);
    StripScaled(m, e, 9);
    assert Scale(m, e) >= m;
  }

  /** The amounts the documentation lists.  For half a coin it says 47, which the code never gives for it. */
  lemma DocumentedAmounts()
    ensures Compressed(0) == 0 && Compressed(1000) == 4 && Compressed(10000) == 5
    ensures Compressed(12345678) == 111111101 && Compressed(50000000) == 48
    ensures Compressed(100000000) == 9 && Compressed(500000000) == 49 && Compressed(1000000000) == 10
  {
    hide Compressed;
    assert TENS[0] == 1 && TENS[9] == 1000000000;
    CompressedIs(1, 3);
    CompressedIs(1, 4);
    CompressedIs(12345678, 0);
    CompressedIs(5, 7);
    CompressedIs(1, 8);
    CompressedIs(5, 8);
    CompressedIs(1, 9);
  }

  lemma {:induction false} StripScaled(n: nat, e: nat, k: nat)
    requires n > 0 && e <= k && (e < k ==> n % 10 != 0)
    ensures StripTens(Scale(n, e), k) == (n, e)
    decreases k
  {
    if e > 0 {
      StripScaled(n, e - 1, k - 1);
      assert Scale(n, e) / 10 == Scale(n, e - 1);
    }
  }

  lemma {:induction false} StripProduct(n: nat, k: nat)
    ensures Scale(StripTens(n, k).0, StripTens(n, k).1) == n
    decreases k
  {
    if n % 10 == 0 && k > 0 {
      StripProduct(n / 10, k - 1);
    }
  }

  /** The parts a compressed amount is made of. */
  lemma DecompressParts(q: nat, e: nat)
    requires e <= 9
    ensures Decompressed(1 + 10 * q + e) == Scale(if e < 9 then q / 9 * 10 + q % 9 + 1 else q + 1, e)
  {
    assert (10 * q + e) % 10 == e && (10 * q + e) / 10 == q;
  }

  function Quotient(m: nat, e: nat): nat
    requires m > 0 && (e < 9 ==> m % 10 != 0)
  {
    if e < 9 then 9 * (m / 10) + (m % 10 - 1) else m - 1
  }

  lemma CompressedForm(amount: nat)
    requires amount > 0
    ensures var (m, e) := StripTens(amount, 9); Compressed(amount) == 1 + 10 * Quotient(m, e) + e
  {
    hide StripTens;
  }

  lemma DecompressUndoesCompress(amount: nat)
    ensures Decompressed(Compressed(amount)) == amount
  {
    if amount > 0 {
      RoundTripPositive(amount);
    }
  }

  lemma RoundTripPositive(amount: nat)
    requires amount > 0
    ensures Decompressed(Compressed(amount)) == amount
  {
    hide StripTens, Scale, Compressed, Decompressed;
    var (m, e) := StripTens(amount, 9);
    StripProduct(amount, 9);
    CompressedForm(amount);
    DecompressParts(Quotient(m, e), e);
    if e < 9 {
      DigitParts(m);
    }
  }

  lemma DigitParts(m: nat)
    requires m % 10 != 0
    ensures var q := 9 * (m / 10) + (m % 10 - 1); q / 9 * 10 + q % 9 + 1 == m
  {
    var q := 9 * (m / 10) + (m % 10 - 1);
    assert q / 9 == m / 10;
  }

  lemma CompressParts(amount: nat, q: nat, e: nat)
    requires amount > 0 && e <= 9
    requires StripTens(amount, 9) == (if e < 9 then q / 9 * 10 + q % 9 + 1 else q + 1, e)
    ensures Compressed(amount) == 1 + 10 * q + e
  {
    if e < 9 {
      var n := q / 9 * 10 + q % 9 + 1;
      assert n / 10 == q / 9 && n % 10 == q % 9 + 1;
    }
  }

  lemma CompressUndoesDecompress(x: nat)
    ensures Compressed(Decompressed(x)) == x
  {
    hide Compressed, Decompressed;
    if x > 0 {
      var q, e := (x - 1) / 10, (x - 1) % 10;
      RoundTripParts(q, e);
      assert x == 1 + 10 * q + e;
    } else {
      ZeroStays();
    }
  }

  lemma ZeroStays()
    ensures Compressed(0) == 0 && Decompressed(0) == 0
  {}

  lemma RoundTripParts(q: nat, e: nat)
    requires e <= 9
    ensures Compressed(Decompressed(1 + 10 * q + e)) == 1 + 10 * q + e
  {
    hide StripTens, Scale, Compressed, Decompressed;
    var n := if e < 9 then q / 9 * 10 + q % 9 + 1 else q + 1;
    DecompressParts(q, e);
    StripScaled(n, e, 9);
    CompressParts(Scale(n, e), q, e);
  }

  function CompressU64(amount: nat): (r: nat)
    ensures r < U64
  {
    Compressed(amount) % U64
  }

  function DecompressU64(x: nat): (r: nat)
    ensures r < U64
  {
    Decompressed(x) % U64
  }

  lemma StripStep(n: nat, k: nat)
    requires n > 0
    ensures if n % 10 == 0 && k > 0
            then n / 10 > 0 && StripTens(n, k).0 == StripTens(n / 10, k - 1).0
              && StripTens(n, k).1 == StripTens(n / 10, k - 1).1 + 1
            else StripTens(n, k) == (n, 0)
  {}

  lemma ScaleStep(n: nat, e: nat)
    ensures Scale(n, 0) == n && Scale(n, e + 1) == 10 * Scale(n, e)
  {}

  /** In 64-bit arithmetic every step wraps, so the result is the exact one modulo 2^64. */
  method CompressTxOutAmount(value: nat) returns (r: nat)
    requires value < U64
    ensures r == CompressU64(value)
  {
    hide StripTens, Compressed;
    ZeroStays();
    if value == 0 {
      return 0;
    }
    var amount, exponent := value, 0;
    ghost var parts := StripTens(value, 9);
    while amount % 10 == 0 && exponent < 9
      invariant amount > 0 && exponent <= 9
      invariant parts.0 == StripTens(amount, 9 - exponent).0
      invariant parts.1 == exponent + StripTens(amount, 9 - exponent).1
      decreases 9 - exponent
    {
      StripStep(amount, 9 - exponent);
      amount := amount / 10;
      exponent := exponent + 1;
    }
    StripStep(amount, 9 - exponent);
    CompressedForm(value);
    if exponent < 9 {
      var lastDigit := amount % 10;
      amount := amount / 10;
      return (1 + 10 * (9 * amount + lastDigit - 1) + exponent) % U64;
    }
    return (10 + 10 * (amount - 1)) % U64;
  }

  method DecompressTxOutAmount(x: nat) returns (r: nat)
    requires x < U64
    ensures r == DecompressU64(x)
  {
    hide Scale, Decompressed;
    ZeroStays();
    if x == 0 {
      return 0;
    }
    var n, exponent := DecompressDigits(x);
    r := n;
    ghost var e := exponent;
    ScaleStep(n, 0);
    Fits(n);
    while exponent > 0
      invariant 0 <= exponent <= e && r == Scale(n, e - exponent) % U64
    {
      ModTimesTen(Scale(n, e - exponent));
      ScaleStep(n, e - exponent);
      r := r * 10 % U64;
      exponent := exponent - 1;
    }
  }

  /** The number before the zeros are appended, and how many of them. */
  method DecompressDigits(x: nat) returns (n: nat, exponent: nat)
    requires 0 < x < U64
    ensures Decompressed(x) == Scale(n, exponent) && n < U64
  {
    hide Scale;
    var amount := x - 1;
    exponent := amount % 10;
    amount := amount / 10;
    if exponent < 9 {
      var lastDigit := amount % 9 + 1;
      amount := amount / 9;
      DigitsFit(amount, lastDigit);
      n := (amount * 10 + lastDigit) % U64;
    } else {
      n := amount + 1;
    }
  }

  lemma DigitsFit(a: nat, d: nat)
    requires a <= U64 / 90 && d <= 9
    ensures a * 10 + d < U64 && (a * 10 + d) % U64 == a * 10 + d
  {}

  lemma ModTimesTen(p: nat)
    ensures (p % U64) * 10 % U64 == p * 10 % U64
  {
    var q := p / U64;
    assert p == q * U64 + p % U64;
    assert p * 10 == (10 * q) * U64 + (p % U64) * 10;
    ModAdd((p % U64) * 10, 10 * q);
  }

  lemma {:induction false} ModAdd(a: nat, k: nat)
    ensures (k * U64 + a) % U64 == a % U64
  {
    if k > 0 {
      ModAdd(a, k - 1);
    }
  }

  /** Wherever the exact values fit in 64 bits the two 64-bit functions are inverse to each other. */
  lemma FitsRoundTrip(amount: nat)
    requires amount < U64
    ensures Compressed(amount) < U64 ==> DecompressU64(CompressU64(amount)) == amount
    ensures Decompressed(amount) < U64 ==> CompressU64(DecompressU64(amount)) == amount
  {
    DecompressUndoesCompress(amount);
    CompressUndoesDecompress(amount);
    Fits(amount);
    Fits(Compressed(amount));
    Fits(Decompressed(amount));
  }

  lemma Fits(n: nat)
    ensures n < U64 ==> n % U64 == n
  {}

  /** Every amount the money supply allows (21 million coins of 10^8 atoms) compresses in range. */
  lemma MoneyFits(amount: nat)
    requires amount <= 21_000_000 * 100_000_000
    ensures Compressed(amount) < U64
  {
    if amount > 0 {
      var (m, e) := StripTens(amount, 9);
      StripProduct(amount, 9);
    }
  }
}
