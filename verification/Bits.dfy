/**
 Powers of two and the two bit-scan helpers of the page table, over unbounded naturals.
 The page table shifts and masks 64-bit words by multiples of four bits only, so every shift
 is a multiplication or division by a power of two.
 */
module Bits {

  function Pow2(n: nat): (r: nat)
    ensures r > 0
  {
    if n == 0 then 1 else 2 * Pow2(n - 1)
  }

  const TWO64: nat := 0x1_0000_0000_0000_0000

  lemma Pow2Step4(n: nat)
    ensures Pow2(n + 4) == 16 * Pow2(n)
  {
    assert Pow2(n + 4) == 2 * Pow2(n + 3);
    assert Pow2(n + 3) == 2 * Pow2(n + 2);
    assert Pow2(n + 2) == 2 * Pow2(n + 1);
  }

  lemma Pow2Values()
    ensures Pow2(4) == 16 && Pow2(8) == 256 && Pow2(60) == 0x1000_0000_0000_0000 && Pow2(64) == TWO64
  {
    Pow2Step4(0); Pow2Step4(4); Pow2Step4(8); Pow2Step4(12); Pow2Step4(16); Pow2Step4(20); Pow2Step4(24);
    Pow2Step4(28); Pow2Step4(32); Pow2Step4(36); Pow2Step4(40); Pow2Step4(44); Pow2Step4(48); Pow2Step4(52);
    Pow2Step4(56); Pow2Step4(60);
  }

  lemma {:induction false} Pow2Add(a: nat, b: nat)
    ensures Pow2(a + b) == Pow2(a) * Pow2(b)
  {
    if b > 0 {
      Pow2Add(a, b - 1);
      assert Pow2(a + b) == 2 * Pow2(a + b - 1);
      assert Pow2(a) * (2 * Pow2(b - 1)) == 2 * (Pow2(a) * Pow2(b - 1));
    }
  }

  lemma {:induction false} Pow2Monotone(a: nat, b: nat)
    requires a <= b
    ensures Pow2(a) <= Pow2(b)
    ensures a < b ==> 2 * Pow2(a) <= Pow2(b)
    decreases b - a
  {
    if a < b {
      Pow2Monotone(a, b - 1);
    }
  }

  // ---- division and remainder by a positive divisor ----

  lemma DivModUnique(n: nat, d: nat, q: nat, r: nat)
    requires d > 0 && n == q * d + r && r < d
    ensures n / d == q && n % d == r
  {
    var q', r' := n / d, n % d;
    assert n == q' * d + r';
    if q' < q {
      MulMonotone(q' + 1, q, d);
    } else if q < q' {
      MulMonotone(q + 1, q', d);
    }
  }

  lemma MulMonotone(a: nat, b: nat, d: nat)
    requires a <= b
    ensures a * d <= b * d
  {
    assert (b - a) * d >= 0;
    assert b * d == a * d + (b - a) * d;
  }

  lemma DivDiv(a: nat, d: nat, m: nat)
    requires d > 0 && m > 0
    ensures m * d > 0
    ensures (a / d) / m == a / (m * d)
  {
    var q := a / d;
    var qm, rm := q / m, q % m;
    MulMonotone(rm, m - 1, d);
    assert (m - 1) * d == m * d - d;
    assert a == q * d + a % d;
    assert q == m * qm + rm;
    assert (m * qm + rm) * d == qm * (m * d) + rm * d;
    DivModUnique(a, m * d, qm, rm * d + a % d);
  }

  lemma DivOfProduct(n: nat, d: nat)
    requires d > 0
    ensures (n * d) / d == n && (n * d) % d == 0
  {
    DivModUnique(n * d, d, n, 0);
  }

  // ---- product, quotient and remainder, written recursively ----
  // Each equals the built-in operator (TimesIs, QuotIs, RemIs). Stating them this way keeps products and
  // divisions by a power of two out of proofs that only compare block bounds.

  function Times(n: nat, p: nat): (r: nat) { if n == 0 then 0 else Times(n - 1, p) + p }

  function Quot(a: nat, p: nat): (q: nat)
    requires p > 0
  {
    if a < p then 0 else 1 + Quot(a - p, p)
  }

  function Rem(a: nat, p: nat): (r: nat)
    requires p > 0
    ensures r <= a
  {
    if a < p then a else Rem(a - p, p)
  }

  lemma {:induction false} TimesIs(n: nat, p: nat)
    ensures Times(n, p) == n * p
  {
    if n > 0 {
      TimesIs(n - 1, p);
      assert n * p == (n - 1) * p + p;
    }
  }

  lemma {:induction false} QuotIs(a: nat, p: nat)
    requires p > 0
    ensures Quot(a, p) == a / p
  {
    if a < p {
      DivModUnique(a, p, 0, a);
    } else {
      QuotIs(a - p, p);
      var q, r := (a - p) / p, (a - p) % p;
      assert a - p == q * p + r;
      assert (q + 1) * p == q * p + p;
      DivModUnique(a, p, q + 1, r);
    }
  }

  lemma {:induction false} RemIs(a: nat, p: nat)
    requires p > 0
    ensures Rem(a, p) == a % p
  {
    if a < p {
      DivModUnique(a, p, 0, a);
    } else {
      RemIs(a - p, p);
      var q, r := (a - p) / p, (a - p) % p;
      assert a - p == q * p + r;
      assert (q + 1) * p == q * p + p;
      DivModUnique(a, p, q + 1, r);
    }
  }

  // ---- bit scans ----

  /** Position of the most significant set bit. */
  function HighestBitPosition(n: nat): (r: nat)
    requires n > 0
    ensures Pow2(r) <= n < Pow2(r + 1)
  {
    if n == 1 then 0 else 1 + HighestBitPosition(n / 2)
  }

  /** Position of the least significant set bit. */
  function LowestBitPosition(n: nat): (r: nat)
    requires n > 0
    ensures Pow2(r) <= n
  {
    if n % 2 == 1 then 0 else 1 + LowestBitPosition(n / 2)
  }

  lemma {:induction false} HighestBitAtLeast(n: nat, k: nat)
    requires n > 0
    ensures k <= HighestBitPosition(n) <==> Pow2(k) <= n
  {
    var h := HighestBitPosition(n);
    if k <= h {
      Pow2Monotone(k, h);
    } else {
      Pow2Monotone(h + 1, k);
    }
  }

  lemma {:induction false} LowestBitAtLeast(n: nat, k: nat)
    requires n > 0
    ensures k <= LowestBitPosition(n) <==> n % Pow2(k) == 0
    decreases n
  {
    if k == 0 {
    } else if n % 2 == 1 {
      var p := Pow2(k - 1);
      var q := n / (2 * p);
      assert n == q * (2 * p) + n % (2 * p);
      assert n % (2 * p) == 0 ==> n == 2 * (q * p);
    } else {
      LowestBitAtLeast(n / 2, k - 1);
      HalfMod(n / 2, Pow2(k - 1));
    }
  }

  lemma HalfMod(h: nat, p: nat)
    requires p > 0
    ensures (2 * h) % (2 * p) == 2 * (h % p)
  {
    assert h == (h / p) * p + h % p;
    assert 2 * h == (h / p) * (2 * p) + 2 * (h % p);
    DivModUnique(2 * h, 2 * p, h / p, 2 * (h % p));
  }

  function Min(a: int, b: int): int { if a <= b then a else b }

  function Max(a: int, b: int): int { if a >= b then a else b }

  /** Multiples of p are at least p apart. */
  lemma MulStep(x: nat, y: nat, p: nat)
    requires x * p < y * p
    ensures x * p + p <= y * p
  {
    if x >= y { MulMonotone(y, x, p); }
    MulMonotone(x + 1, y, p);
  }
}
