/**
 * The arithmetic helpers of the calculator (calculator/core.py): four guarded
 * operations, factorial, permutations and combinations on truncated
 * arguments, and the integer branch of result formatting. Python floats are
 * modelled as exact reals.
 */
module Core {
  import opened Results
  import opened Text
  import opened Numerals

  /** The exceptions the helpers raise, with the messages they carry. */
  datatype MathError = ZeroDivisionError(message: string) | ValueError(message: string)

  /** `to_number(s)`: `float(s)`, with any failure reported as `ValueError("Invalid number")`. */
  function ToNumber(s: string): (r: Result<real, MathError>)
    ensures r.Failure? <==> ParseNum(s).None?
    ensures r.Failure? ==> r.error == ValueError("Invalid number")
    ensures r.Success? ==> ParseNum(s) == Some(r.value)
  {
    match ParseNum(s)
    case None => Failure(ValueError("Invalid number"))
    case Some(v) => Success(v)
  }

  /** `to_number` reads back the integers that `format_result` writes. */
  lemma ToNumberReadsIntegers(i: int)
    ensures ToNumber(IntToDecimal(i)) == Success(i as real)
  {
    IntToDecimalRoundTrip(i);
  }

  /** Python's `int(v)` on a float: truncation toward zero. */
  function Truncate(v: real): (n: int)
    ensures 0.0 <= v ==> n as real <= v < n as real + 1.0
    ensures v < 0.0 ==> n as real - 1.0 < v <= n as real
  {
    if v >= 0.0 then v.Floor else -((-v).Floor)
  }

  /** `safe_add`: the sum, from which subtracting `b` gives `a` back. */
  function SafeAdd(a: real, b: real): (r: real)
    ensures r - b == a
  {
    a + b
  }

  /** `safe_sub`: the difference, to which adding `b` gives `a` back. */
  function SafeSub(a: real, b: real): (r: real)
    ensures r + b == a
  {
    a - b
  }

  /** `safe_mul`: the product, which a non-zero `b` divides back to `a`. */
  function SafeMul(a: real, b: real): (r: real)
    ensures b != 0.0 ==> r / b == a
    ensures b == 0.0 ==> r == 0.0
  {
    a * b
  }

  /** Division that raises on a zero divisor and is exact otherwise. */
  function SafeDiv(a: real, b: real): (r: Result<real, MathError>)
    ensures r.Failure? <==> b == 0.0
    ensures r.Failure? ==> r.error == ZeroDivisionError("division by zero")
    ensures r.Success? ==> r.value * b == a
  {
    if b == 0.0 then Failure(ZeroDivisionError("division by zero")) else Success(a / b)
  }

  /** Subtraction and division undo addition and multiplication. */
  lemma ArithmeticInverses(a: real, b: real)
    ensures SafeAdd(SafeSub(a, b), b) == a
    ensures SafeSub(SafeAdd(a, b), b) == a
    ensures b != 0.0 ==> SafeDiv(SafeMul(a, b), b) == Success(a)
  {
    if b != 0.0 {
      assert SafeDiv(SafeMul(a, b), b).value * b == a * b;
    }
  }

  /** n! */
  function Fact(n: nat): (r: nat)
    ensures r >= 1 && r >= n
  {
    if n == 0 then 1 else n * Fact(n - 1)
  }

  /** n (n-1) ... (n-k+1), the number of k-permutations of n items (Python's `math.perm`). */
  function Falling(n: nat, k: nat): (r: nat)
    requires k <= n
    ensures r >= 1
  {
    if k == 0 then 1 else n * Falling(n - 1, k - 1)
  }

  /** n (n-1) ... (n-k+1) (n-k)! == n!, so the falling product is n! / (n-k)!. */
  lemma {:induction false} FallingFactorials(n: nat, k: nat)
    requires k <= n
    ensures Falling(n, k) * Fact(n - k) == Fact(n)
  {
    if k > 0 {
      FallingFactorials(n - 1, k - 1);
      var p, f := Falling(n - 1, k - 1), Fact(n - k);
      assert Falling(n, k) == n * p;
      assert Fact(n) == n * Fact(n - 1);
      assert p * f == Fact(n - 1);
      MulAssoc(n, p, f);
    }
  }

  lemma MulAssoc(x: int, y: int, z: int)
    ensures (x * y) * z == x * (y * z)
  {
  }

  /** Pascal's triangle: the number of k-subsets of n items (Python's `math.comb`). */
  function Binomial(n: nat, k: nat): (r: nat)
    requires k <= n
    ensures r >= 1
  {
    if k == 0 || k == n then 1 else Binomial(n - 1, k - 1) + Binomial(n - 1, k)
  }

  /** C(n, k) k! (n-k)! == n!, so C(n, k) is n! / (k! (n-k)!). */
  lemma {:induction false} BinomialFactorials(n: nat, k: nat)
    requires k <= n
    ensures Binomial(n, k) * Fact(k) * Fact(n - k) == Fact(n)
  {
    if 0 < k < n {
      BinomialFactorials(n - 1, k - 1);
      BinomialFactorials(n - 1, k);
      assert (n - 1) - (k - 1) == n - k;
      PascalStep(n, k, Binomial(n - 1, k - 1), Binomial(n - 1, k), Fact(k - 1), Fact(n - 1 - k), Fact(n - 1));
    }
  }

  /**
   * The arithmetic of one Pascal step: with A == (k-1)! and C == (n-1-k)!, if
   * a A (n-k)! == (n-1)! and b k! C == (n-1)! then (a+b) k! (n-k)! == n (n-1)!.
   */
  lemma PascalStep(n: int, k: int, a: int, b: int, A: int, C: int, f: int)
    requires a * A * ((n - k) * C) == f
    requires b * (k * A) * C == f
    ensures (a + b) * (k * A) * ((n - k) * C) == n * f
  {
    var K, N := k * A, (n - k) * C;
    calc {
      (a + b) * K * N;
      a * K * N + b * K * N;
      { MulAssoc(a, K, N); MulAssoc(a, A, N); }
      k * (a * A * N) + b * K * N;
      { MulAssoc(b, K, N); MulAssoc(b, K, C); }
      k * f + (n - k) * (b * K * C);
      k * f + (n - k) * f;
      n * f;
    }
  }

  /** Cancelling a positive factor. */
  lemma CancelFactor(x: int, y: int, z: int)
    requires z > 0 && x * z == y * z
    ensures x == y
  {
    assert (x - y) * z == 0;
  }

  /** C(n, k) k! == n (n-1) ... (n-k+1): combinations are permutations over k!. */
  lemma BinomialTimesFact(n: nat, k: nat)
    requires k <= n
    ensures Binomial(n, k) * Fact(k) == Falling(n, k)
  {
    BinomialFactorials(n, k);
    FallingFactorials(n, k);
    CancelFactor(Binomial(n, k) * Fact(k), Falling(n, k), Fact(n - k));
  }

  /** C(n, k) == C(n, n-k). */
  lemma {:induction false} BinomialSymmetric(n: nat, k: nat)
    requires k <= n
    ensures Binomial(n, k) == Binomial(n, n - k)
  {
    if k == 0 || k == n {
    } else {
      BinomialSymmetric(n - 1, k - 1);
      BinomialSymmetric(n - 1, k);
      assert (n - 1) - (k - 1) == n - k && (n - 1) - k == n - k - 1;
    }
  }

  /** The guard shared by nPr and nCr: after truncation, 0 <= r <= n. */
  predicate ValidSelection(n: real, r: real) {
    0 <= Truncate(r) && 0 <= Truncate(n) && Truncate(r) <= Truncate(n)
  }

  /** `factorial(n)`: the factorial of `int(n)`, raising for a negative truncation. */
  function Factorial(v: real): (r: Result<nat, MathError>)
    ensures r.Failure? <==> Truncate(v) < 0
    ensures r.Failure? ==> r.error == ValueError("factorial of negative number")
    ensures r.Success? ==> r.value == Fact(Truncate(v))
  {
    var n := Truncate(v);
    if n < 0 then Failure(ValueError("factorial of negative number")) else Success(Fact(n))
  }

  /** Truncation happens before the sign check, so an argument in (-1, 0) is 0! == 1. */
  lemma FactorialOfNegativeFraction(v: real)
    requires -1.0 < v < 0.0
    ensures Factorial(v) == Success(1)
  {
  }

  /** On whole numbers `factorial` follows the recurrence 0! = 1, (k+1)! = (k+1) * k!. */
  lemma FactorialRecurrence(k: nat)
    ensures Factorial(0.0) == Success(1)
    ensures Factorial((k + 1) as real) == Success((k + 1) * Factorial(k as real).value)
  {
    assert Truncate(k as real) == k;
    assert Truncate((k + 1) as real) == k + 1;
  }

  /** `nPr(n, r)`: n! / (n-r)! on the truncated arguments, raising unless 0 <= r <= n. */
  function NPr(n: real, r: real): (res: Result<nat, MathError>)
    ensures res.Failure? <==> !ValidSelection(n, r)
    ensures res.Failure? ==> res.error == ValueError("invalid nPr params")
    ensures res.Success? ==> res.value * Fact(Truncate(n) - Truncate(r)) == Fact(Truncate(n))
  {
    var ni, ri := Truncate(n), Truncate(r);
    if ri < 0 || ni < 0 || ri > ni then Failure(ValueError("invalid nPr params"))
    else
      FallingFactorials(ni, ri);
      Success(Falling(ni, ri))
  }

  /** `nCr(n, r)`: n! / (r! (n-r)!) on the truncated arguments, raising unless 0 <= r <= n. */
  function NCr(n: real, r: real): (res: Result<nat, MathError>)
    ensures res.Failure? <==> !ValidSelection(n, r)
    ensures res.Failure? ==> res.error == ValueError("invalid nCr params")
    ensures res.Success? ==>
      res.value * Fact(Truncate(r)) * Fact(Truncate(n) - Truncate(r)) == Fact(Truncate(n))
  {
    var ni, ri := Truncate(n), Truncate(r);
    if ri < 0 || ni < 0 || ri > ni then Failure(ValueError("invalid nCr params"))
    else
      BinomialFactorials(ni, ri);
      Success(Binomial(ni, ri))
  }

  /** nCr(n, r) == nPr(n, r) / r!, and the two fail on the same arguments. */
  lemma NCrIsNPrOverFactorial(n: real, r: real)
    ensures NCr(n, r).Success? <==> NPr(n, r).Success?
    ensures NCr(n, r).Success? ==> NCr(n, r).value * Fact(Truncate(r)) == NPr(n, r).value
  {
    if ValidSelection(n, r) {
      BinomialTimesFact(Truncate(n), Truncate(r));
    }
  }

  /** nCr(n, r) == nCr(n, n - r) for whole numbers. */
  lemma NCrSymmetric(n: int, r: int)
    ensures NCr(n as real, r as real) == NCr(n as real, (n - r) as real)
  {
    assert Truncate(n as real) == n && Truncate(r as real) == r && Truncate((n - r) as real) == n - r;
    if 0 <= r <= n {
      BinomialSymmetric(n, r);
    }
  }

  predicate IsIntegral(v: real) { v.Floor as real == v }

  /**
   * `format_result(v)`: an integral value as its integer text; any other value
   * through `formatFraction`, which stands for Python's `f"{v:.10g}"`.
   */
  function FormatResult(v: real, formatFraction: real -> string): (s: string)
    ensures IsIntegral(v) ==> ParseNum(s) == Some(v)
    ensures !IsIntegral(v) ==> s == formatFraction(v)
  {
    if IsIntegral(v) then
      IntToDecimalRoundTrip(v.Floor);
      IntToDecimal(v.Floor)
    else formatFraction(v)
  }

  /**
   * The integer branch of `format_result`: no `.`, a leading `-` exactly when
   * negative, digits elsewhere with no leading zero, and `float` of the text
   * is the value again.
   */
  lemma FormatIntegral(v: real, formatFraction: real -> string)
    requires IsIntegral(v)
    ensures var s := FormatResult(v, formatFraction);
      && |s| >= 1
      && '.' !in s
      && (s[0] == '-' <==> v < 0.0)
      && (v >= 0.0 ==> IsDigit(s[0]))
      && (s[0] == '0' ==> s == "0")
      && (v < 0.0 ==> s[1] != '0')
      && (forall k :: 0 < k < |s| ==> IsDigit(s[k]))
      && ParseNum(s) == Some(v)
  {
    IntToDecimalShape(v.Floor);
    IntToDecimalRoundTrip(v.Floor);
  }
}
