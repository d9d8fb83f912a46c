/**
 * `MathUtils`: primality by trial division with divisors `6k - 1` and
 * `6k + 1`, and the factorial computed as a product of pairwise sums.
 */
module MathUtils {
  import opened Wrappers
  import opened Jvm

  // ------------------------------------------------------------ arithmetic facts

  predicate Divides(d: int, x: int)
    requires d > 0
  {
    x % d == 0
  }

  /** `x` is prime: at least 2 and without a divisor strictly between 1 and itself. */
  predicate Prime(x: int)
  {
    x >= 2 && forall d :: 2 <= d < x ==> !Divides(d, x)
  }

  function SqrtFrom(x: nat, r: nat): (s: nat)
    requires r * r <= x
    ensures s * s <= x < (s + 1) * (s + 1)
    decreases x - r
  {
    if (r + 1) * (r + 1) <= x then
      MulMono(r, r + 1, 1, r + 1);
      SqrtFrom(x, r + 1)
    else r
  }

  /** The integer square root, what `(long) Math.sqrt(x)` is meant to give. */
  function ISqrt(x: nat): (s: nat)
    ensures s * s <= x < (s + 1) * (s + 1)
  {
    SqrtFrom(x, 0)
  }

  /** A number whose square is at most `x` is at most its integer square root. */
  lemma BelowSqrt(x: nat, e: nat)
    requires e * e <= x
    ensures e <= ISqrt(x)
  {
    var s := ISqrt(x);
    if e > s {
      MulMono(s + 1, e, s + 1, e);
    }
  }

  /** The integer square root is the one `r` with `r² <= x < (r + 1)²`. */
  lemma SqrtOf(x: nat, r: nat)
    requires r * r <= x < (r + 1) * (r + 1)
    ensures ISqrt(x) == r
  {
    var s := ISqrt(x);
    BelowSqrt(x, r);
    if r < s {
      MulMono(r + 1, s, r + 1, s);
    }
  }

  /** From 7 on, the square root is more than 2 below the number. */
  lemma SqrtSmall(x: int)
    requires x >= 7
    ensures ISqrt(x) + 2 < x
  {
    var s := ISqrt(x);
    if s + 2 >= x {
      MulMono(5, s, s, s);
    }
  }

  /** A multiple of `a` leaves no remainder. */
  lemma MulMod(a: int, m: int)
    requires a > 0
    ensures (a * m) % a == 0
  {
    DivUnique(a * m, a, m, 0);
  }

  /** A number with a proper divisor has one no larger than its integer square root. */
  lemma SmallDivisor(x: int, d: int) returns (e: int)
    requires 2 <= d < x && Divides(d, x)
    ensures 2 <= e <= ISqrt(x) && Divides(e, x)
  {
    var q := x / d;
    assert x == d * q;
    if q < 2 {
      MulMono(d, d, q, 1);
    }
    assert x == q * d;
    MulMod(q, d);
    e := if d <= q then d else q;
    MulMono(e, d, e, q);
    BelowSqrt(x, e);
  }

  /** A divisor of a divisor of `x` divides `x`. */
  lemma DividesChain(a: int, e: int, x: int)
    requires a > 0 && e > 0 && x > 0 && Divides(a, e) && Divides(e, x)
    ensures Divides(a, x)
  {
    var r, q := e / a, x / e;
    assert e == a * r && x == e * q;
    assert r >= 0 && q >= 0;
    assert x == a * (r * q);
    MulMod(a, r * q);
  }

  // ------------------------------------------------------------ IsPrime

  /**
   * The divisor pairs `u - 1` and `u + 1` for `u = 6, 12, …` while `u` is at
   * most `last`: true when none of them divides `x`.
   */
  function Trial(x: int, u: int, last: int): bool
    requires u >= 6
    decreases last - u
  {
    if u > last then true
    else x % (u - 1) != 0 && x % (u + 1) != 0 && Trial(x, u + 6, last)
  }

  /** The decision of `IsPrime` when its loop runs while `u <= last`. */
  function Screen(x: int, last: int): bool
  {
    if x < 2 then false
    else if x < 4 || x == 5 then true
    else if x % 2 == 0 || x % 3 == 0 || x % 5 == 0 then false
    else Trial(x, 6, last)
  }

  /** The loop of `IsPrime`, stepping `u` by 6 while `u <= last`. */
  method TrialDivision(x: Int64, last: int) returns (b: bool)
    requires x >= 2
    ensures b == Trial(x, 6, last)
  {
    var u := 6;
    while u <= last
      invariant u >= 6
      invariant Trial(x, 6, last) == Trial(x, u, last)
      decreases last - u
    {
      if x % (u - 1) == 0 || x % (u + 1) == 0 {
        return false;
      }
      u := u + 6;
    }
    return true;
  }

  /**
   * `IsPrime` as written: the loop stops once `u` exceeds the square root,
   * so a divisor `u - 1` equal to the square root is never tried.
   */
  method IsPrime(x: Int64) returns (b: bool)
    ensures b == Screen(x, ISqrt(if x < 0 then 0 else x))
  {
    if x < 2 {
      return false;
    }
    if x < 4 || x == 5 {
      return true;
    }
    if x % 2 == 0 || x % 3 == 0 || x % 5 == 0 {
      return false;
    }
    b := TrialDivision(x, ISqrt(x));
  }

  /** `IsPrime` with the loop running while `u - 1 <= sqrt`, so that both candidates up to the square root are tried. */
  method IsPrimeCorrected(x: Int64) returns (b: bool)
    ensures b <==> Prime(x)
  {
    if x < 2 {
      return false;
    }
    if x < 4 || x == 5 {
      SmallPrimes(x);
      return true;
    }
    if x % 2 == 0 || x % 3 == 0 || x % 5 == 0 {
      SmallFactors(x);
      return false;
    }
    b := TrialDivision(x, ISqrt(x) + 1);
    CorrectedScreen(x);
  }

  lemma SmallPrimes(x: int)
    requires 2 <= x < 4 || x == 5
    ensures Prime(x)
  {
  }

  lemma SmallFactors(x: int)
    requires x >= 4 && x != 5 && (x % 2 == 0 || x % 3 == 0 || x % 5 == 0)
    ensures !Prime(x)
  {
    if x % 2 == 0 {
      assert Divides(2, x);
    } else if x % 3 == 0 {
      assert Divides(3, x);
    } else {
      assert Divides(5, x);
    }
  }

  /** A prime passes every trial whose candidates stay below it. */
  lemma {:induction false} PrimePasses(x: int, u: int, last: int)
    requires Prime(x) && u >= 6 && last + 1 < x
    ensures Trial(x, u, last)
    decreases last - u
  {
    if u <= last {
      assert !Divides(u - 1, x) && !Divides(u + 1, x);
      PrimePasses(x, u + 6, last);
    }
  }

  /** A passed trial rules out the candidates `c ± 1` of every step `c = u + 6j` up to `last`. */
  lemma {:induction false} TrialRulesOut(x: int, u: int, last: int, j: nat)
    requires u >= 6 && Trial(x, u, last) && u + 6 * j <= last
    ensures !Divides(u + 6 * j - 1, x) && !Divides(u + 6 * j + 1, x)
    decreases j
  {
    if j > 0 {
      TrialRulesOut(x, u + 6, last, j - 1);
      assert u + 6 + 6 * (j - 1) == u + 6 * j;
    }
  }

  /** A number from 7 on with no factor 2 or 3 is `6k - 1` or `6k + 1`. */
  lemma Candidate(e: int) returns (k: int)
    requires e >= 7 && e % 2 != 0 && e % 3 != 0
    ensures k >= 1 && (e == 6 * k - 1 || e == 6 * k + 1)
  {
    var q, r := e / 6, e % 6;
    assert e == 6 * q + r;
    if r == 0 {
      DivUnique(e, 2, 3 * q, 0);
    } else if r == 2 {
      DivUnique(e, 2, 3 * q + 1, 0);
    } else if r == 4 {
      DivUnique(e, 2, 3 * q + 2, 0);
    } else if r == 3 {
      DivUnique(e, 3, 2 * q + 1, 0);
    }
    k := if r == 5 then q + 1 else q;
  }

  /** A number at least 7 with no factor 2, 3 or 5 that passes the trial up to one past its square root is prime. */
  lemma TrialSuffices(x: int)
    requires x >= 7 && x % 2 != 0 && x % 3 != 0 && x % 5 != 0
    requires Trial(x, 6, ISqrt(x) + 1)
    ensures Prime(x)
  {
    if !Prime(x) {
      var d :| 2 <= d < x && Divides(d, x);
      var e := SmallDivisor(x, d);
      if e % 2 == 0 {
        DividesChain(2, e, x);
      } else if e % 3 == 0 {
        DividesChain(3, e, x);
      } else if e != 5 {
        var k := Candidate(e);
        assert 6 + 6 * (k - 1) == 6 * k;
        TrialRulesOut(x, 6, ISqrt(x) + 1, k - 1);
      }
    }
  }

  /** The loop bound `u - 1 <= sqrt` makes the trial decide primality exactly. */
  lemma CorrectedScreen(x: int)
    requires x >= 7 && x % 2 != 0 && x % 3 != 0 && x % 5 != 0
    ensures Trial(x, 6, ISqrt(x) + 1) <==> Prime(x)
  {
    if Prime(x) {
      SqrtSmall(x);
      PrimePasses(x, 6, ISqrt(x) + 1);
    } else if Trial(x, 6, ISqrt(x) + 1) {
      TrialSuffices(x);
    }
  }

  /** As written, `IsPrime` accepts 121 = 11 · 11, which is not prime. */
  lemma AcceptsSquareOfEleven()
    ensures Screen(121, ISqrt(121)) && !Prime(121)
  {
    SqrtOf(121, 11);
    assert Divides(11, 121);
  }

  /** As written, `IsPrime` still never rejects a prime. */
  lemma PrimeAccepted(x: int)
    requires Prime(x)
    ensures Screen(x, ISqrt(x))
  {
    if x < 7 {
      if x == 4 || x == 6 {
        assert Divides(2, x);
      }
    } else {
      assert !Divides(2, x) && !Divides(3, x) && !Divides(5, x);
      SqrtSmall(x);
      PrimePasses(x, 6, ISqrt(x));
    }
  }

  // ------------------------------------------------------------ Factorial

  function Fact(n: nat): (f: nat)
    ensures f >= 1
  {
    if n == 0 then 1 else n * Fact(n - 1)
  }

  /**
   * `Factorial`: `n` is multiplied by the running sums `n + (n - 2) + …`,
   * which are the products `k · (n + 1 - k)` of the pairs taken from both
   * ends of `1..n`; an odd `n` leaves its middle factor `n / 2 + 1` for last.
   * The running sum, a `long`, stays below `n²` and never wraps (`PairFits`).
   */
  method Factorial(n: Int32) returns (r: Result<nat, Thrown>)
    ensures n < 0 ==> r == Err(Raise(IllegalArgument, "The number cannot be negative."))
    ensures n >= 0 ==> r == Ok(Fact(n))
  {
    if n < 0 {
      return Err(Raise(IllegalArgument, "The number cannot be negative."));
    }
    if n < 2 {
      return Ok(1);
    }
    var sum: Int64 := n;
    var result: nat := n;
    var i: int := n - 2;
    ghost var k: nat := 1;
    assert result * Fact(n - 1) == Fact(n) * Fact(1);
    while i > 1
      invariant 1 <= k < n && i == n - 2 * k && i >= 0
      invariant sum == k * (n + 1 - k)
      invariant result * Fact(n - k) == Fact(n) * Fact(k)
    {
      assert sum + i == (k + 1) * (n - k);
      PairFits(n, k);
      sum := sum + i;
      PairStep(n, k, result);
      result := result * sum;
      i := i - 2;
      k := k + 1;
    }
    if n % 2 != 0 {
      assert i == 1 && n / 2 + 1 == k + 1 && Fact(n - k) == (k + 1) * Fact(k);
      MulAssoc(result, k + 1, Fact(k));
      Cancel(result * (k + 1), Fact(n), Fact(k));
      result := result * (n / 2 + 1);
    } else {
      assert i == 0 && n - k == k;
      Cancel(result, Fact(n), Fact(k));
    }
    return Ok(result);
  }

  /** A running sum `(k + 1)(n - k)` for an `int` `n` is below `n²`, so it fits in a `long`. */
  lemma PairFits(n: nat, k: nat)
    requires k < n < 0x8000_0000
    ensures (k + 1) * (n - k) < 0x8000_0000_0000_0000
  {
    MulMono(k + 1, n, n - k, n);
    MulMono(n, 0x8000_0000, n, 0x8000_0000);
  }

  /** One pair more: multiplying by `(k + 1)(n - k)` keeps `result · (n - k)! == n! · k!`. */
  lemma PairStep(n: nat, k: nat, result: nat)
    requires 0 < k < n && result * Fact(n - k) == Fact(n) * Fact(k)
    ensures (result * ((k + 1) * (n - k))) * Fact(n - (k + 1)) == Fact(n) * Fact(k + 1)
  {
    var f := Fact(n - (k + 1));
    assert Fact(n - k) == (n - k) * f;
    Regroup(result, k + 1, n - k, f);
    Regroup2(k + 1, Fact(n), Fact(k));
  }

  lemma Regroup(a: int, b: int, c: int, f: int)
    ensures (a * (b * c)) * f == b * (a * (c * f))
  {
  }

  lemma MulAssoc(a: int, b: int, c: int)
    ensures a * (b * c) == (a * b) * c
  {
  }

  lemma Regroup2(b: int, p: int, q: int)
    ensures b * (p * q) == p * (b * q)
  {
  }

  lemma Cancel(a: nat, b: nat, c: nat)
    requires c >= 1 && a * c == b * c
    ensures a == b
  {
    if a < b {
      MulMono(a + 1, b, c, c);
    } else if a > b {
      MulMono(b + 1, a, c, c);
    }
  }
}
