/**
 Integer facts the modules share: quotients, powers of two, and the masks the caches use to split
 an address.
 */
module Bits {

  // ---- multiplication and division ----

  lemma MulMonotone(d: nat, m: int, n: int)
    requires m <= n
    ensures d * m <= d * n
  {
    MulSign(d, n - m);
    assert d * (n - m) == d * n - d * m;
  }

  lemma MulSign(d: nat, n: nat)
    ensures d * n >= 0
  {
  }

  /** Quotient and remainder are unique. */
  lemma DivModUnique(a: int, d: int, q: int, r: int)
    requires d > 0 && 0 <= r < d && a == d * q + r
    ensures a / d == q && a % d == r
  {
    var q', r' := a / d, a % d;
    assert a == d * q' + r';
    assert d * (q + 1) == d * q + d && d * (q' + 1) == d * q' + d;
    if q' > q {
      MulMonotone(d, q + 1, q');
    } else if q' < q {
      MulMonotone(d, q' + 1, q);
    }
  }

  /** Dividing twice is dividing by the product. */
  lemma DivDiv(n: nat, a: nat, b: nat)
    requires a > 0 && b > 0
    ensures a * b > 0 && n / a / b == n / (a * b)
  {
    var m := n / a;
    var q, r := m / b, m % b;
    MulMonotone(a, 1, b);
    MulMonotone(a, r, b - 1);
    MulDistribute(a, b * q, r);
    MulDistribute(a, b, -1);
    MulAssociate(a, b, q);
    DivModUnique(n, a * b, q, a * r + n % a);
  }

  lemma MulDistribute(a: int, b: int, c: int)
    ensures a * (b + c) == a * b + a * c
  {
  }

  lemma MulAssociate(a: int, b: int, c: int)
    ensures a * (b * c) == (a * b) * c
  {
  }

  /** A field of a word: reduce the quotient, or divide the reduced word. */
  lemma FieldOf(n: nat, a: nat, b: nat)
    requires a > 0 && b > 0
    ensures a * b > 0 && n / a % b == n % (a * b) / a
  {
    DivDiv(n, a, b);
    var q, r := n / (a * b), n % (a * b);
    assert n == a * b * q + r;
    var q', r' := r / a, r % a;
    assert a * b * q + (a * q' + r') == a * (b * q + q') + r';
    DivModUnique(n, a, b * q + q', r');
    if q' >= b {
      MulMonotone(a, b, q');
    }
    DivModUnique(n / a, b, q, q');
  }

  /** Consecutive blocks of equal size do not overlap. */
  /** Reducing by a multiple first changes nothing. */
  lemma ModMod(a: nat, m: nat, n: nat)
    requires m > 0 && n > 0
    ensures m * n > 0 && a % (m * n) % m == a % m
  {
    MulMonotone(m, 1, n);
    var q, r := a / (m * n), a % (m * n);
    assert a == m * n * q + r;
    MulAssociate(m, n, q);
    assert r == m * (r / m) + r % m;
    MulDistribute(m, n * q, r / m);
    DivModUnique(a, m, n * q + r / m, r % m);
  }

  lemma BlockUnique(size: nat, j: nat, k: nat, i: nat)
    requires j * size <= i < j * size + size && k * size <= i < k * size + size
    ensures j == k
  {
    DivModUnique(i, size, j, i - j * size);
    DivModUnique(i, size, k, i - k * size);
  }

  // ---- powers of two and address masks ----

  function Pow2(k: nat): (p: nat)
    ensures p >= 1
  {
    if k == 0 then 1 else 2 * Pow2(k - 1)
  }

  ghost predicate PowerOfTwo(n: nat) {
    exists k: nat :: Pow2(k) == n
  }

  /** Python's `n.bit_length()`. */
  function BitLength(n: nat): nat {
    if n == 0 then 0 else 1 + BitLength(n / 2)
  }

  /** Python's `a & b` on non-negative integers. */
  function BitAnd(a: nat, b: nat): (r: nat)
    ensures r <= a && r <= b
  {
    if a == 0 || b == 0 then 0
    else 2 * BitAnd(a / 2, b / 2) + (if a % 2 == 1 && b % 2 == 1 then 1 else 0)
  }

  lemma PowerUnfolds(k: nat)
    ensures Pow2(k) == if k == 0 then 1 else 2 * Pow2(k - 1)
  {
  }

  lemma EmptyMask(a: nat, b: nat)
    ensures a == 0 || b == 0 ==> BitAnd(a, b) == 0
  {
  }

  lemma BitAndStep(a: nat, p: nat)
    requires a > 0 && p > 0
    ensures BitAnd(a, 2 * p - 1) == 2 * BitAnd(a / 2, p - 1) + a % 2
  {
    assert (2 * p - 1) / 2 == p - 1 && (2 * p - 1) % 2 == 1;
  }

  /** Masking with 2^k - 1 keeps the remainder modulo 2^k. */
  lemma {:induction false} MaskIsRemainder(a: nat, k: nat)
    ensures BitAnd(a, Pow2(k) - 1) == a % Pow2(k)
    decreases k
  {
    hide BitAnd, Pow2;
    PowerUnfolds(k);
    EmptyMask(a, Pow2(k) - 1);
    if k == 0 {
      DivModUnique(a, 1, a, 0);
    } else if a == 0 {
      DivModUnique(0, Pow2(k), 0, 0);
    } else {
      MaskIsRemainder(a / 2, k - 1);
      MaskStep(a, Pow2(k - 1));
    }
  }

  lemma MaskStep(a: nat, p: nat)
    requires a > 0 && p > 0 && BitAnd(a / 2, p - 1) == a / 2 % p
    ensures BitAnd(a, 2 * p - 1) == a % (2 * p)
  {
    hide BitAnd;
    HalveRemainder(a, p);
    BitAndStep(a, p);
  }

  lemma HalveRemainder(a: nat, p: nat)
    requires p > 0
    ensures a % (2 * p) == 2 * ((a / 2) % p) + a % 2
  {
    var q, r := (a / 2) / p, (a / 2) % p;
    assert a / 2 == p * q + r;
    assert (2 * p) * q == 2 * (p * q);
    DivModUnique(a, 2 * p, q, 2 * r + a % 2);
  }

  /** A power of two is recovered from the bit length of its predecessor. */
  lemma {:induction false} LengthOfPredecessor(k: nat)
    ensures BitLength(Pow2(k) - 1) == k
  {
    if k > 0 {
      assert (Pow2(k) - 1) / 2 == Pow2(k - 1) - 1;
      LengthOfPredecessor(k - 1);
    }
  }

  lemma PowerOfTwoShift(n: nat)
    requires PowerOfTwo(n)
    ensures n >= 1 && Pow2(BitLength(n - 1)) == n
  {
    var k: nat :| Pow2(k) == n;
    LengthOfPredecessor(k);
  }

  lemma {:induction false} PowerSum(i: nat, j: nat)
    ensures Pow2(i + j) == Pow2(i) * Pow2(j)
  {
    if i > 0 {
      PowerSum(i - 1, j);
      MulAssociate(2, Pow2(i - 1), Pow2(j));
    }
  }

  lemma PowerMonotone(i: nat, j: nat)
    requires i <= j
    ensures Pow2(i) <= Pow2(j)
  {
    PowerSum(i, j - i);
    MulMonotone(Pow2(i), 1, Pow2(j - i));
  }

  lemma SubsetCount(a: set<nat>, b: set<nat>)
    requires a <= b
    ensures |a| <= |b|
  {
    if a != {} {
      var x :| x in a;
      SubsetCount(a - {x}, b - {x});
    }
  }
}
