/** Powers of a natural base and the few facts about them the other modules need. */
module Powers {

  function Pow(base: nat, n: nat): (r: nat)
    ensures base > 0 ==> r > 0
  {
    if n == 0 then 1 else base * Pow(base, n - 1)
  }

  lemma MulMonotone(a: int, b: int, c: nat)
    requires a <= b
    ensures a * c <= b * c
  {
    assert b * c == a * c + (b - a) * c;
  }

  lemma MulAssociates(a: int, b: int, c: int)
    ensures a * (b * c) == (a * b) * c
  {}

  lemma {:induction false} PowAdd(base: nat, m: nat, n: nat)
    ensures Pow(base, m + n) == Pow(base, m) * Pow(base, n)
  {
    if m > 0 {
      PowAdd(base, m - 1, n);
      MulAssociates(base, Pow(base, m - 1), Pow(base, n));
    }
  }

  lemma {:induction false} PowMonotone(base: nat, j: nat, k: nat)
    requires base > 0 && j <= k
    ensures Pow(base, j) <= Pow(base, k)
  {
    if j < k {
      PowMonotone(base, j, k - 1);
      MulMonotone(1, base, Pow(base, k - 1));
    }
  }

  lemma SmallMultiple(k: int, n: nat)
    requires 0 - n < k * n < n
    ensures k == 0
  {
    if k >= 1 {
      MulMonotone(1, k, n);
    } else if k <= -1 {
      MulMonotone(k, -1, n);
    }
  }

  /** The one quotient and remainder of `a` by `n`. */
  lemma RemainderIs(a: int, n: int, q: int, r: int)
    requires 0 <= r < n && a == q * n + r
    ensures a % n == r && a / n == q
  {
    var q', r' := a / n, a % n;
    assert a == n * q' + r';
    assert (q - q') * n == r' - r;
    SmallMultiple(q - q', n);
  }
}
