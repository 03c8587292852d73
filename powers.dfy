/**
 * Exact integer powers and logarithm in base 16, and the divisibility facts
 * the timestamp grid relies on.
 */
module Powers {

  /** Absolute value, as Math.abs on integers. */
  function Abs(x: int): (r: nat)
    ensures r == x || r == -x
  {
    if x < 0 then -x else x
  }

  /** 16 raised to the power k. */
  function Pow16(k: nat): (r: nat)
    ensures 1 <= r
  {
    if k == 0 then 1 else 16 * Pow16(k - 1)
  }

  /** The largest exponent k with 16^k <= n: an exact floor(log16(n)). */
  function Log16(n: nat): (k: nat)
    requires 1 <= n
    ensures Pow16(k) <= n < 16 * Pow16(k)
  {
    if n < 16 then 0 else 1 + Log16(n / 16)
  }

  ghost predicate IsPowerOf16(n: int) {
    exists k: nat :: Pow16(k) == n
  }

  lemma {:induction false} Pow16Grows(i: nat, j: nat)
    requires i < j
    ensures 16 * Pow16(i) <= Pow16(j)
  {
    if i + 1 < j {
      Pow16Grows(i, j - 1);
    }
  }

  /** A smaller power of 16 divides a larger one. */
  lemma {:induction false} Pow16Divides(i: nat, j: nat)
    requires i <= j
    ensures Pow16(j) % Pow16(i) == 0
  {
    if i == j {
      MultipleMod(1, Pow16(i));
    } else {
      Pow16Divides(i, j - 1);
      MultipleMod(16, Pow16(j - 1));
      DividesTrans(Pow16(j), Pow16(j - 1), Pow16(i));
    }
  }

  /** Log16 is determined by the band [16^k, 16^(k+1)) its argument lies in. */
  lemma Log16Unique(n: nat, k: nat)
    requires Pow16(k) <= n < 16 * Pow16(k)
    ensures Log16(n) == k
  {
    var j := Log16(n);
    if j < k {
      Pow16Grows(j, k);
    } else if k < j {
      Pow16Grows(k, j);
    }
  }

  // ---------------------------------------------------------------------
  // Euclidean division facts (all divisors positive)
  // ---------------------------------------------------------------------

  /** A positive multiple of p is at least p. */
  lemma {:induction false} MulAtLeast(n: int, p: int)
    requires 1 <= n && 0 < p
    ensures p <= n * p
  {
    if n > 1 {
      MulAtLeast(n - 1, p);
      assert n * p == (n - 1) * p + p;
    }
  }

  lemma DivModUnique(x: int, p: int, q: int, m: int)
    requires 0 < p && 0 <= m < p && x == q * p + m
    ensures x / p == q && x % p == m
  {
    var q0, m0 := x / p, x % p;
    assert x == q0 * p + m0;
    if q0 < q {
      assert (q - q0) * p == q * p - q0 * p;
      MulAtLeast(q - q0, p);
    } else if q < q0 {
      assert (q0 - q) * p == q0 * p - q * p;
      MulAtLeast(q0 - q, p);
    }
  }

  lemma MultipleMod(q: int, p: int)
    requires 0 < p
    ensures (q * p) % p == 0 && (q * p) / p == q
  {
    DivModUnique(q * p, p, q, 0);
  }

  /** Two distinct multiples of p are at least p apart. */
  lemma MultiplesApart(a: int, v: int, p: int)
    requires 0 < p && a % p == 0 && v % p == 0 && a < v
    ensures a + p <= v
  {
    var qa, qv := a / p, v / p;
    assert a == qa * p && v == qv * p;
    assert qa < qv;
    assert (qv - qa) * p == v - a;
    MulAtLeast(qv - qa, p);
  }

  /** Divisibility is transitive. */
  lemma DividesTrans(x: int, p: int, q: int)
    requires 0 < p && 0 < q && x % p == 0 && p % q == 0
    ensures x % q == 0
  {
    var a, c := x / p, p / q;
    assert x == a * p && p == c * q;
    assert x == (a * c) * q;
    MultipleMod(a * c, q);
  }

  /** (x / p) * p is the largest multiple of p that is at most x. */
  lemma FloorMultiple(x: int, p: int)
    requires 0 < p
    ensures ((x / p) * p) % p == 0
    ensures x - p < (x / p) * p <= x
    ensures (x / p) * p == x - x % p
  {
    MultipleMod(x / p, p);
  }

  /** x - x % p is the greatest multiple of p that is at most x. */
  lemma StepBackMultiple(x: int, p: int)
    requires 0 < p
    ensures (x - x % p) % p == 0 && x - p < x - x % p <= x
  {
    FloorMultiple(x, p);
  }

  /** Math.floor(x / p) * p: the greatest multiple of p that is at most x. */
  function FloorToMultiple(x: int, p: int): (r: int)
    requires 0 < p
    ensures r % p == 0 && x - p < r <= x
  {
    FloorMultiple(x, p);
    (x / p) * p
  }

  /** time + (p - time % p) is the smallest multiple of p above an unaligned time. */
  lemma NextMultiple(x: int, p: int)
    requires 0 < p && x % p != 0
    ensures (x + (p - x % p)) % p == 0
    ensures x < x + (p - x % p) < x + p
  {
    assert x + (p - x % p) == (x / p + 1) * p;
    MultipleMod(x / p + 1, p);
  }
}
