/** The C integer operators the codec uses, on naturals, bit by bit. */
module Bits {

  function Pow2(k: nat): (p: nat)
    ensures p >= 1
  {
    if k == 0 then 1 else 2 * Pow2(k - 1)
  }

  /** `x << k`, before any truncation */
  function Shl(x: nat, k: nat): nat {
    x * Pow2(k)
  }

  lemma QuotientIsNat(x: nat, p: nat)
    requires p >= 1
    ensures x / p >= 0
  {
  }

  /** `x >> k` */
  function Shr(x: nat, k: nat): nat {
    var p := Pow2(k);
    QuotientIsNat(x, p);
    x / p
  }

  /** `x | y` */
  function Or(x: nat, y: nat): nat {
    if x == 0 && y == 0 then 0
    else (if x % 2 == 1 || y % 2 == 1 then 1 else 0) + 2 * Or(x / 2, y / 2)
  }

  /** `x & y` */
  function And(x: nat, y: nat): nat {
    if x == 0 || y == 0 then 0
    else (if x % 2 == 1 && y % 2 == 1 then 1 else 0) + 2 * And(x / 2, y / 2)
  }

  lemma OrZero(x: nat)
    ensures Or(x, 0) == x
  {
  }

  /** An `|` of a shifted value with something that fits below the shift is a sum. */
  lemma {:induction false} OrIsSum(x: nat, k: nat, y: nat)
    requires y < Pow2(k)
    ensures Or(Shl(x, k), y) == Shl(x, k) + y
    decreases k
  {
    if k == 0 {
      OrZero(x);
    } else {
      assert Shl(x, k) == 2 * Shl(x, k - 1);
      OrIsSum(x, k - 1, y / 2);
      if x == 0 && y == 0 {
      } else {
        assert Shl(x, k) / 2 == Shl(x, k - 1);
        if Shl(x, k) == 0 && y == 0 {}
      }
    }
  }

  /** Masking with `2^k - 1` keeps the remainder. */
  lemma {:induction false} AndIsMod(x: nat, k: nat)
    ensures And(x, Pow2(k) - 1) == x % Pow2(k)
    decreases k
  {
    if k == 0 || x == 0 {
    } else {
      var m := Pow2(k - 1);
      AndIsMod(x / 2, k - 1);
      assert (Pow2(k) - 1) / 2 == m - 1;
      assert x % (2 * m) == 2 * (x / 2 % m) + x % 2 by { ModDouble(x, m); }
    }
  }

  lemma ModDouble(x: nat, m: nat)
    requires m > 0
    ensures x % (2 * m) == 2 * (x / 2 % m) + x % 2
  {
    var q := x / 2 / m;
    var r := x / 2 % m;
    assert x / 2 == q * m + r;
    assert x == q * (2 * m) + (2 * r + x % 2);
    ModUnique(x, 2 * m, q, 2 * r + x % 2);
  }

  lemma ModUnique(x: nat, n: nat, q: nat, r: nat)
    requires r < n && x == q * n + r
    ensures x % n == r
  {
    var q' := x / n;
    assert x == q' * n + x % n;
    assert (q - q') * n == x % n - r;
    if q > q' {
      MulAtLeast(q - q', n);
    } else if q < q' {
      MulAtLeast(q' - q, n);
    }
  }

  lemma MulAtLeast(a: nat, n: nat)
    requires a >= 1
    ensures a * n >= n
  {
  }

  lemma MulCancel(a: nat, b: nat, n: nat)
    requires n > 0 && a * n == b * n
    ensures a == b
  {
    if a > b {
      MulAtLeast(a - b, n);
    } else if b > a {
      MulAtLeast(b - a, n);
    }
  }

  /** Quotient and remainder are determined by `n == q * m + r`. */
  lemma DivMod(n: nat, m: nat, q: nat, r: nat)
    requires r < m && n == q * m + r
    ensures n / m == q && n % m == r
  {
    ModUnique(n, m, q, r);
    QuotientIsNat(n, m);
    MulCancel(n / m, q, m);
  }
}
