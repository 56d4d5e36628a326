/** Division, powers of two and bitwise AND on natural numbers. */
module Arith {

  // ---------------------------------------------------------------- division

  lemma MulMonotone(a: nat, b: nat, r: nat)
    requires a <= b
    ensures a * r <= b * r
  {
  }

  lemma DivModOf(i: nat, x: nat, r: nat)
    requires x < r
    ensures (i * r + x) / r == i
    ensures (i * r + x) % r == x
  {
    var n := i * r + x;
    var q := n / r;
    assert n == q * r + n % r;
    assert (q + 1) * r == q * r + r && (i + 1) * r == i * r + r;
    if q < i {
      MulMonotone(q + 1, i, r);
    } else if q > i {
      MulMonotone(i + 1, q, r);
    }
  }

  lemma DivBound(off: nat, r: nat, n: nat)
    requires r > 0
    requires off < n * r
    ensures off / r < n
    ensures off == (off / r) * r + off % r
    ensures off % r < r
  {
    if off / r >= n {
      MulMonotone(n, off / r, r);
    }
  }

  lemma DivStep(off: nat, r: nat)
    requires r > 0
    ensures 0 <= off / r && (off / r) * r <= off < (off / r + 1) * r
  {
    assert (off / r + 1) * r == (off / r) * r + r;
  }


  function Pow2(n: nat): (r: nat)
    ensures r > 0
  {
    if n == 0 then 1 else 2 * Pow2(n - 1)
  }

  ghost predicate IsPowerOfTwo(n: nat) {
    exists k :: Pow2(k) == n
  }

  /** The `&` operator on unsigned integers. */
  function BitAnd(a: nat, b: nat): nat
    decreases a
  {
    if a == 0 || b == 0 then 0
    else 2 * BitAnd(a / 2, b / 2) + (if a % 2 == 1 && b % 2 == 1 then 1 else 0)
  }

  lemma {:induction false} Pow2Add(a: nat, b: nat)
    ensures Pow2(a + b) == Pow2(a) * Pow2(b)
  {
    if a == 0 {
    } else {
      Pow2Add(a - 1, b);
      assert Pow2(a + b) == 2 * Pow2(a - 1 + b);
      assert 2 * (Pow2(a - 1) * Pow2(b)) == (2 * Pow2(a - 1)) * Pow2(b);
    }
  }

  lemma {:induction false} Pow2Monotone(a: nat, b: nat)
    requires a <= b
    ensures Pow2(a) <= Pow2(b)
    decreases b
  {
    if a < b {
      Pow2Monotone(a, b - 1);
    }
  }

  lemma Pow2Of64()
    ensures Pow2(32) == 0x1_0000_0000 && Pow2(64) == 0x1_0000_0000_0000_0000
  {
    assert Pow2(8) == 0x100;
    Pow2Add(8, 8);
    Pow2Add(16, 16);
    Pow2Add(32, 32);
  }

  /** A smaller power of two divides a larger one. */
  lemma Pow2Divides(a: nat, b: nat)
    requires a <= b
    ensures Pow2(b) % Pow2(a) == 0
  {
    Pow2Add(b - a, a);
    ModOfProduct(Pow2(b - a), Pow2(a));
  }

  lemma ModOfProduct(q: nat, m: nat)
    requires m > 0
    ensures (q * m) % m == 0
  {
    DivModOf(q, 0, m);
  }

  // ---------------------------------------------------------------- masks

  lemma {:induction false} AndAllOnes(n: nat, w: nat)
    requires n < Pow2(w)
    ensures BitAnd(n, Pow2(w) - 1) == n
  {
    if w > 0 {
      AndAllOnes(n / 2, w - 1);
      AndOdd(n, Pow2(w - 1) - 1);
    }
  }

  lemma AndOdd(n: nat, m: nat)
    ensures BitAnd(n, 2 * m + 1) == 2 * BitAnd(n / 2, m) + n % 2
  {
    assert (2 * m + 1) / 2 == m && (2 * m + 1) % 2 == 1;
  }

  /** Clearing the low `k` bits rounds down to a multiple of 2^k. */
  lemma {:induction false} AndHighMask(n: nat, w: nat, k: nat)
    requires k <= w && n < Pow2(w)
    ensures Pow2(k) <= Pow2(w) && BitAnd(n, Pow2(w) - Pow2(k)) == n - n % Pow2(k)
    decreases k
  {
    Pow2Monotone(k, w);
    if k == 0 {
      AndAllOnes(n, w);
    } else {
      AndHighMask(n / 2, w - 1, k - 1);
      AndEven(n, Pow2(w - 1) - Pow2(k - 1));
      HalfMod(n, Pow2(k - 1));
    }
  }

  lemma AndEven(n: nat, m: nat)
    ensures BitAnd(n, 2 * m) == 2 * BitAnd(n / 2, m)
  {
    assert (2 * m) / 2 == m && (2 * m) % 2 == 0;
  }

  lemma HalfMod(n: nat, m: nat)
    requires m > 0
    ensures n % (2 * m) == 2 * ((n / 2) % m) + n % 2
  {
    var q, r := (n / 2) / m, (n / 2) % m;
    assert n == 2 * (m * q + r) + n % 2;
    assert n == (2 * m) * q + (2 * r + n % 2);
    DivModUnique(n, 2 * m, q, 2 * r + n % 2);
  }

  lemma DivModUnique(n: nat, m: nat, q: nat, r: nat)
    requires r < m && n == m * q + r
    ensures n / m == q && n % m == r
  {
    assert q * m == m * q;
    DivModOf(q, r, m);
  }

  /** AND with a single bit keeps it exactly when the mask has it. */
  lemma {:induction false} AndSingleBit(h: nat, m: nat)
    ensures BitAnd(Pow2(h), m) == if (m / Pow2(h)) % 2 == 1 then Pow2(h) else 0
  {
    if m == 0 {
    } else if h == 0 {
      assert BitAnd(0, m / 2) == 0;
    } else {
      AndSingleBit(h - 1, m / 2);
      DivDiv(m, Pow2(h - 1));
    }
  }

  /** A bit above a number survives AND with the complement of that number's lower bits. */
  lemma HighBitSurvives(w: nat, h: nat, n: nat)
    requires h < w && 0 < n < Pow2(h)
    ensures Pow2(h) <= Pow2(w) && BitAnd(Pow2(h), Pow2(w) - n) == Pow2(h)
  {
    hide Pow2, BitAnd;
    Pow2Monotone(h, w);
    Pow2Add(w - h, h);
    Pow2Even(w - h);
    MaskQuotient(Pow2(w - h), Pow2(h), n);
    AndSingleBit(h, Pow2(w) - n);
  }

  lemma Pow2Even(k: nat)
    requires k > 0
    ensures Pow2(k) % 2 == 0
  {
  }

  lemma MaskQuotient(t: nat, p: nat, n: nat)
    requires t > 0 && 0 < n <= p
    ensures t * p >= n && (t * p - n) / p == t - 1
  {
    assert t * p == (t - 1) * p + p;
    DivModOf(t - 1, p - n, p);
  }

  lemma DivDiv(m: nat, d: nat)
    requires d > 0
    ensures (m / 2) / d == m / (2 * d)
  {
    HalfMod(m, d);
    var q := (m / 2) / d;
    assert m == (2 * d) * q + (2 * ((m / 2) % d) + m % 2);
    DivModUnique(m, 2 * d, q, 2 * ((m / 2) % d) + m % 2);
  }
}
