/** The sign test's binomial tail and its threshold. */
module SignTest {

  /** `math.comb`, by Pascal's rule. */
  function Comb(n: nat, k: nat): nat {
    if k == 0 then 1 else if n == 0 then 0 else Comb(n - 1, k - 1) + Comb(n - 1, k)
  }

  function Factorial(n: nat): nat { if n == 0 then 1 else n * Factorial(n - 1) }

  function Power2(n: nat): (p: nat)
    ensures p > 0
  {
    if n == 0 then 1 else 2 * Power2(n - 1)
  }

  lemma {:induction false} CombBeyond(n: nat, k: nat)
    requires k > n
    ensures Comb(n, k) == 0
  {
    if n > 0 {
      CombBeyond(n - 1, k - 1);
      CombBeyond(n - 1, k);
    }
  }

  lemma {:induction false} CombWhole(n: nat)
    ensures Comb(n, n) == 1
  {
    if n > 0 {
      CombWhole(n - 1);
      CombBeyond(n - 1, n);
    }
  }

  /** Pascal's rule gives n! / (k! (n-k)!). */
  lemma {:induction false} CombIsQuotient(n: nat, k: nat)
    requires k <= n
    ensures Comb(n, k) * (Factorial(k) * Factorial(n - k)) == Factorial(n)
  {
    if k == 0 {
    } else if k == n {
      CombWhole(n);
    } else {
      CombIsQuotient(n - 1, k - 1);
      CombIsQuotient(n - 1, k);
      PascalQuotient(Comb(n - 1, k - 1), Comb(n - 1, k), Factorial(k - 1), Factorial(n - k - 1), k, n - k,
                     Factorial(n - 1));
    }
  }

  lemma PascalQuotient(a: nat, b: nat, f: nat, g: nat, k: nat, u: nat, h: nat)
    requires a * (f * (u * g)) == h && b * ((k * f) * g) == h
    ensures (a + b) * ((k * f) * (u * g)) == (k + u) * h
  {
    assert a * ((k * f) * (u * g)) == k * (a * (f * (u * g)));
    assert b * ((k * f) * (u * g)) == u * (b * ((k * f) * g));
  }

  lemma {:induction false} CombIsSymmetric(n: nat, k: nat)
    requires k <= n
    ensures Comb(n, k) == Comb(n, n - k)
  {
    if k == 0 || k == n {
      CombWhole(n);
    } else {
      CombIsSymmetric(n - 1, k - 1);
      CombIsSymmetric(n - 1, k);
    }
  }

  /** The sum of the coefficients from `k` on. */
  function TailSum(n: nat, k: nat): nat
    decreases n + 1 - k
  {
    if k > n then 0 else Comb(n, k) + TailSum(n, k + 1)
  }

  /** The sum below `k`. */
  function HeadSum(n: nat, k: nat): nat {
    if k == 0 then 0 else HeadSum(n, k - 1) + Comb(n, k - 1)
  }

  /** P(X >= k) for X ~ Binomial(n, 1/2); 1 without trials. */
  function Tail(n: nat, k: nat): real {
    if n == 0 then 1.0 else TailSum(n, k) as real / Power2(n) as real
  }

  lemma {:induction false} HeadByPascal(n: nat, k: nat)
    requires n > 0
    ensures HeadSum(n, k) == HeadSum(n - 1, k) + (if k == 0 then 0 else HeadSum(n - 1, k - 1))
  {
    if k > 0 {
      HeadByPascal(n, k - 1);
    }
  }

  lemma {:induction false} HeadIsAll(n: nat, k: nat)
    requires k > n
    ensures HeadSum(n, k) == Power2(n)
    decreases n, k
  {
    if n == 0 {
      if k > 1 {
        HeadIsAll(0, k - 1);
        CombBeyond(0, k - 1);
      } else {
        assert HeadSum(0, 1) == HeadSum(0, 0) + Comb(0, 0);
      }
    } else {
      HeadByPascal(n, k);
      HeadIsAll(n - 1, k);
      HeadIsAll(n - 1, k - 1);
    }
  }

  lemma {:induction false} HeadAndTail(n: nat, k: nat)
    requires k <= n + 1
    ensures HeadSum(n, k) + TailSum(n, k) == Power2(n)
    decreases n + 1 - k
  {
    if k == n + 1 {
      HeadIsAll(n, k);
    } else {
      HeadAndTail(n, k + 1);
    }
  }

  /** By symmetry the upper tail of as many terms is the sum below. */
  lemma {:induction false} TailMirrorsHead(n: nat, k: nat)
    requires k <= n + 1
    ensures TailSum(n, n + 1 - k) == HeadSum(n, k)
  {
    if k > 0 {
      TailMirrorsHead(n, k - 1);
      CombIsSymmetric(n, k - 1);
    }
  }

  /** At least k better boards, or at least n-k+1 worse ones: exactly one of them happens. */
  lemma TailsComplement(n: nat, k: nat)
    requires n >= 1 && k <= n + 1
    ensures Tail(n, k) + Tail(n, n + 1 - k) == 1.0
  {
    HeadAndTail(n, k);
    TailMirrorsHead(n, k);
    PartsOfWhole(TailSum(n, k), TailSum(n, n + 1 - k), Power2(n));
  }

  lemma PartsOfWhole(t: nat, h: nat, p: nat)
    requires t + h == p && p > 0
    ensures t as real / p as real + h as real / p as real == 1.0
  {
    var x, y, z := t as real, h as real, p as real;
    assert x + y == z;
    assert x / z + y / z == (x + y) / z;
  }

  lemma {:induction false} CombIsPositive(n: nat, k: nat)
    requires k <= n
    ensures Comb(n, k) >= 1
  {
    if k == n {
      CombWhole(n);
    } else if k > 0 {
      CombIsPositive(n - 1, k - 1);
    }
  }

  lemma {:induction false} TailSumFalls(n: nat, k: nat, m: nat)
    requires k < m <= n + 1
    ensures TailSum(n, m) < TailSum(n, k)
    decreases m
  {
    CombIsPositive(n, m - 1);
    if k < m - 1 {
      TailSumFalls(n, k, m - 1);
    }
  }

  /** Each further better board is strictly less likely. */
  lemma TailFalls(n: nat, k: nat, m: nat)
    requires n >= 1 && k < m <= n + 1
    ensures Tail(n, m) < Tail(n, k)
    ensures 0.0 <= Tail(n, m) && Tail(n, k) <= 1.0
  {
    TailSumFalls(n, k, m);
    HeadAndTail(n, k);
    Shares(TailSum(n, m), TailSum(n, k), Power2(n));
  }

  lemma Shares(a: nat, b: nat, p: nat)
    requires a < b <= p && p > 0
    ensures 0.0 <= a as real / p as real < b as real / p as real <= 1.0
  {
    var x, y, z := a as real, b as real, p as real;
    assert y / z - x / z == (y - x) / z;
    assert z / z - y / z == (z - y) / z;
  }

  /** The threshold: the least number of better boards whose tail is at most `alpha`, one more than all where
      there is none. For a rate of at least 0 and some boards, reaching it is exactly being that unlikely. */
  method SignThreshold(n: nat, alpha: real) returns (threshold: nat)
    ensures threshold <= n + 1
    ensures forall t: nat :: t < threshold && t <= n ==> Tail(n, t) > alpha
    ensures threshold <= n ==> Tail(n, threshold) <= alpha
    ensures n >= 1 && alpha >= 0.0 ==> forall t: nat :: t <= n + 1 ==> (Tail(n, t) <= alpha <==> t >= threshold)
  {
    threshold := n + 1;
    for t := 0 to n + 1
      invariant threshold == n + 1 && forall s: nat :: s < t ==> Tail(n, s) > alpha
    {
      if Tail(n, t) <= alpha {
        threshold := t;
        break;
      }
    }
    if n >= 1 && alpha >= 0.0 {
      forall t: nat | threshold <= t <= n + 1 ensures Tail(n, t) <= alpha {
        if threshold < t {
          TailFalls(n, threshold, t);
        }
        if t == n + 1 {
          assert TailSum(n, n + 1) == 0;
        }
      }
    }
  }
}
