/** `factorial`: a loop multiplies `result` by 1, 2, ..., n. */
module Factorial {

  /** The factorial as a recursive definition; a negative `n` gives 1, the value of the
      empty product over `range(1, n + 1)`. */
  function Fact(n: int): (r: int)
    ensures r >= 1
    decreases n
  {
    if n <= 0 then 1 else n * Fact(n - 1)
  }

  method Factorial(n: int) returns (result: int)
    ensures result == Fact(n)
    ensures n == 0 ==> result == 1
  {
    if n == 0 {
      return 1;
    }
    result := 1;
    var i := 1;
    while i < n + 1
      invariant n < 0 ==> i == 1
      invariant n >= 0 ==> 1 <= i <= n + 1
      invariant result == Fact(i - 1)
    {
      result := result * i;
      i := i + 1;
    }
  }

  lemma MultipleMod(a: int, k: int)
    requires k >= 1
    ensures (a * k) % k == 0
  {
    var q, r := (a * k) / k, (a * k) % k;
    assert a * k == q * k + r && 0 <= r < k;
    assert (a - q) * k == r;
  }

  /** Every k in 1..n divides n!. */
  lemma {:induction false} FactDivisible(n: int, k: int)
    requires 1 <= k <= n
    ensures Fact(n) % k == 0
  {
    if k < n {
      FactDivisible(n - 1, k);
      var m := Fact(n - 1) / k;
      assert Fact(n - 1) == m * k;
      assert Fact(n) == (n * m) * k;
      MultipleMod(n * m, k);
    } else {
      assert Fact(n) == Fact(n - 1) * k;
      MultipleMod(Fact(n - 1), k);
    }
  }

  /** The factorial never decreases along the naturals. */
  lemma {:induction false} FactMonotone(m: int, n: int)
    requires 0 <= m <= n
    ensures Fact(m) <= Fact(n)
  {
    if m < n {
      FactMonotone(m, n - 1);
      assert Fact(n - 1) <= n * Fact(n - 1);
    }
  }

  /** The expected outputs of the exercise's test cases. */
  lemma KnownFactorials()
    ensures Fact(0) == 1 && Fact(1) == 1 && Fact(5) == 120 && Fact(10) == 3628800
    ensures Fact(13) == 6227020800 && Fact(20) == 2432902008176640000
  {
  }
}
